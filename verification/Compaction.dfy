/** Compaction of a chat history before it is sent to the model, and the turn loop that builds the history. */
module Compaction {
  import opened Wrappers
  import opened Text

  const HISTORY_HARD_CAP_BYTES := 64 * 1024
  const HISTORY_SUMMARY_MAX_BYTES := 8 * 1024
  const HISTORY_MIN_RAW_USER_TURNS := 3
  const HISTORY_SUMMARY_CONTEXT_MESSAGE :=
    "[Internal context: Earlier conversation turns were compacted to stay within the context budget. "
    + "The next assistant message is a background summary of omitted history. "
    + "Treat it as prior conversation context, not as a new user request.]"
  const HISTORY_SUMMARY_ASSISTANT_PREFIX := "Background summary of earlier conversation:\n"

  /** A tool call; `arguments` is its JSON text. */
  datatype ToolCall = ToolCall(
    callId: string, toolName: string, arguments: string, signature: Option<seq<bv8>>,
    toolCallId: Option<string>, providerCallId: Option<string>)

  datatype Message =
    | System(content: string)
    | User(content: string, editorContext: Option<string>)
    | Assistant(content: string, toolCalls: seq<ToolCall>)
    | ToolResult(callId: string, toolName: string, output: string, isError: bool,
                 toolCallId: Option<string>, providerCallId: Option<string>)

  // ----- Sizes -----

  /** The length of a character in UTF-8. */
  function CharBytes(c: char): (n: nat)
    ensures 1 <= n <= 4
  {
    if c as int < 0x80 then 1 else if c as int < 0x800 then 2 else if c as int < 0x1_0000 then 3 else 4
  }

  function ByteLen(s: string): nat {
    if s == [] then 0 else CharBytes(s[0]) + ByteLen(s[1..])
  }

  function OptionBytes(o: Option<string>): nat {
    if o.Some? then ByteLen(o.value) else 0
  }

  function CallSize(call: ToolCall): nat {
    ByteLen(call.callId) + ByteLen(call.toolName) + ByteLen(call.arguments)
    + (if call.signature.Some? then |call.signature.value| else 0)
    + OptionBytes(call.toolCallId) + OptionBytes(call.providerCallId)
  }

  function CallsSize(calls: seq<ToolCall>): nat {
    if calls == [] then 0 else CallSize(calls[0]) + CallsSize(calls[1..])
  }

  function ModelInputSize(m: Message): nat {
    match m
    case System(content) => ByteLen(content)
    case User(content, _) => ByteLen(content)
    case Assistant(content, calls) => ByteLen(content) + CallsSize(calls)
    case ToolResult(callId, toolName, output, _, toolCallId, providerCallId) =>
      ByteLen(callId) + ByteLen(toolName) + ByteLen(output) + OptionBytes(toolCallId) + OptionBytes(providerCallId)
  }

  function Bytes(messages: seq<Message>): nat {
    if messages == [] then 0 else ModelInputSize(messages[0]) + Bytes(messages[1..])
  }

  function UserTurns(messages: seq<Message>): nat {
    if messages == [] then 0 else (if messages[0].User? then 1 else 0) + UserTurns(messages[1..])
  }

  lemma {:induction false} SuffixesShrink(messages: seq<Message>, i: nat, j: nat)
    requires i <= j <= |messages|
    ensures Bytes(messages[j..]) <= Bytes(messages[i..]) && UserTurns(messages[j..]) <= UserTurns(messages[i..])
    ensures (i < j && messages[i].User?) ==> UserTurns(messages[j..]) < UserTurns(messages[i..])
    decreases j - i
  {
    hide ModelInputSize;
    if i < j {
      assert messages[i..][1..] == messages[i + 1..];
      SuffixesShrink(messages, i + 1, j);
    }
  }

  lemma {:induction false} BytesOfConcat(a: seq<Message>, b: seq<Message>)
    ensures Bytes(a + b) == Bytes(a) + Bytes(b)
  {
    hide ModelInputSize;
    if a == [] {
      assert a + b == b;
    } else {
      assert (a + b)[1..] == a[1..] + b;
      BytesOfConcat(a[1..], b);
    }
  }

  // ----- Truncation -----

  /** The longest prefix of at most `limit` bytes. */
  function LongestPrefix(s: string, limit: nat): (r: string)
    ensures r <= s && ByteLen(r) <= limit
    decreases |s|
  {
    if s == [] || CharBytes(s[0]) > limit then []
    else
      var rest := LongestPrefix(s[1..], limit - CharBytes(s[0]));
      assert ([s[0]] + rest)[1..] == rest;
      [s[0]] + rest
  }

  function Dots(n: nat): (r: string)
    ensures |r| == n && ByteLen(r) == n
  {
    if n == 0 then [] else
      var rest := Dots(n - 1);
      assert ("." + rest)[1..] == rest;
      "." + rest
  }

  lemma DotsAre(n: nat)
    requires n <= 3
    ensures Dots(n) == "..."[..n]
  {
    assert Dots(0) == "" && Dots(1) == "." && Dots(2) == ".." && Dots(3) == "...";
  }

  function Truncated(text: string, maxBytes: nat): string {
    if ByteLen(text) <= maxBytes then text
    else if maxBytes <= 3 then Dots(maxBytes)
    else LongestPrefix(text, maxBytes - 3) + "..."
  }

  lemma {:induction false} ByteLenOfConcat(a: string, b: string)
    ensures ByteLen(a + b) == ByteLen(a) + ByteLen(b)
  {
    if a == [] {
      assert a + b == b;
    } else {
      assert (a + b)[1..] == a[1..] + b;
      ByteLenOfConcat(a[1..], b);
    }
  }

  /** One more character than the longest prefix would not fit. */
  lemma {:induction false} LongestPrefixIsLongest(s: string, limit: nat)
    requires |LongestPrefix(s, limit)| < |s|
    ensures ByteLen(s[..|LongestPrefix(s, limit)| + 1]) > limit
    decreases |s|
  {
    var n := |LongestPrefix(s, limit)|;
    assert s[..n + 1][1..] == s[1..][..n];
    if CharBytes(s[0]) <= limit {
      LongestPrefixIsLongest(s[1..], limit - CharBytes(s[0]));
    }
  }

  /** Truncation never exceeds the limit, and leaves alone what is within it. A shortened text is a prefix of the
      original and an ellipsis, where one more character of the original would not have fitted; below four bytes
      it is dots alone. */
  lemma TruncatedIsMaximal(text: string, maxBytes: nat)
    ensures ByteLen(Truncated(text, maxBytes)) <= maxBytes
    ensures ByteLen(text) <= maxBytes ==> Truncated(text, maxBytes) == text
    ensures ByteLen(text) > maxBytes && maxBytes <= 3 ==> Truncated(text, maxBytes) == "..."[..maxBytes]
    ensures ByteLen(text) > maxBytes > 3 ==>
      var kept := |Truncated(text, maxBytes)| - 3;
      && 0 <= kept < |text| && Truncated(text, maxBytes) == text[..kept] + "..."
      && ByteLen(text[..kept + 1]) > maxBytes - 3
  {
    hide ByteLen, LongestPrefix, Dots;
    if ByteLen(text) > maxBytes {
      if maxBytes <= 3 {
        DotsAre(maxBytes);
      } else {
        CutIsMaximal(text, maxBytes);
      }
    }
  }

  lemma CutIsMaximal(text: string, maxBytes: nat)
    requires ByteLen(text) > maxBytes > 3
    ensures var kept := LongestPrefix(text, maxBytes - 3);
            && |kept| < |text| && kept == text[..|kept|]
            && ByteLen(kept + "...") <= maxBytes && ByteLen(text[..|kept| + 1]) > maxBytes - 3
  {
    hide ByteLen, LongestPrefix;
    var kept := LongestPrefix(text, maxBytes - 3);
    ByteLenOfConcat(kept, "...");
    EllipsisBytes();
    assert kept == text[..|kept|] && text[..|text|] == text;
    LongestPrefixIsLongest(text, maxBytes - 3);
  }

  lemma EllipsisBytes()
    ensures ByteLen("...") == 3
  {
    assert "..."[1..] == ".." && ".."[1..] == ".";
  }

  lemma {:induction false} LongestPrefixStep(s: string, limit: nat, n: nat)
    requires n <= |s| && ByteLen(s[..n]) <= limit
    ensures n < |s| ==> ByteLen(s[..n + 1]) == ByteLen(s[..n]) + CharBytes(s[n])
    ensures n == |s| ==> LongestPrefix(s, limit) == s
    ensures (n < |s| && ByteLen(s[..n]) + CharBytes(s[n]) > limit) ==> LongestPrefix(s, limit) == s[..n]
    decreases |s|
  {
    hide CharBytes;
    if n == 0 {
      if s != [] {
        assert s[..1] == [s[0]] && [s[0]][1..] == [];
      }
    } else {
      assert s[..n][1..] == s[1..][..n - 1];
      if n < |s| {
        assert s[..n + 1][1..] == s[1..][..n];
      }
      LongestPrefixStep(s[1..], limit - CharBytes(s[0]), n - 1);
      assert s[..n] == [s[0]] + s[1..][..n - 1];
    }
  }

  /** The loop keeps the position in characters beside the source's byte offsets `index` and `end`. */
  method TruncateTextBytes(text: string, maxBytes: nat) returns (r: string)
    ensures r == Truncated(text, maxBytes)
  {
    hide CharBytes, LongestPrefix;
    if maxBytes == 0 {
      if text != [] {
        assert ByteLen(text) > 0;
      }
      return "";
    }
    if ByteLen(text) <= maxBytes {
      return text;
    }
    if maxBytes <= 3 {
      return Dots(maxBytes);
    }
    var cutoff := maxBytes - 3;
    var n, end := 0, 0;
    while n < |text|
      invariant n <= |text| && end == ByteLen(text[..n]) <= cutoff
    {
      LongestPrefixStep(text, cutoff, n);
      var next := end + CharBytes(text[n]);
      if next > cutoff {
        break;
      }
      end := next;
      n := n + 1;
    }
    LongestPrefixStep(text, cutoff, n);
    SomeBytes(text[..n]);
    if end == 0 {
      return "...";
    }
    r := text[..n] + "...";
  }

  lemma SomeBytes(s: string)
    ensures s != [] ==> ByteLen(s) > 0
  {
  }

  // ----- What compaction keeps -----

  /** The suffix from `start` holds at least three user turns, begins with one, and is the longest such
      suffix within the cap; when none is within the cap it is the suffix of exactly three user turns. */
  predicate IsKeptStart(messages: seq<Message>, start: nat) {
    && start < |messages| && messages[start].User?
    && UserTurns(messages[start..]) >= HISTORY_MIN_RAW_USER_TURNS
    && (Bytes(messages[start..]) <= HISTORY_HARD_CAP_BYTES
      || UserTurns(messages[start..]) == HISTORY_MIN_RAW_USER_TURNS)
    && forall j | 0 <= j < start && messages[j].User? :: Bytes(messages[j..]) > HISTORY_HARD_CAP_BYTES
  }

  /** When the whole history is sent: it has too few user turns, is small enough, or is three turns long. */
  predicate IsKeptWhole(messages: seq<Message>) {
    || UserTurns(messages) < HISTORY_MIN_RAW_USER_TURNS
    || Bytes(messages) <= HISTORY_HARD_CAP_BYTES
    || (messages[0].User? && UserTurns(messages) == HISTORY_MIN_RAW_USER_TURNS)
  }

  lemma KeptStartIsUnique(messages: seq<Message>, a: nat, b: nat)
    requires IsKeptStart(messages, a) && IsKeptStart(messages, b)
    ensures a == b
  {
    hide Bytes, UserTurns;
    if a < b {
      KeptStartsAgree(messages, a, b);
    } else if b < a {
      KeptStartsAgree(messages, b, a);
    }
  }

  lemma KeptStartsAgree(messages: seq<Message>, a: nat, b: nat)
    requires IsKeptStart(messages, a) && IsKeptStart(messages, b) && a <= b
    ensures a == b
  {
    hide Bytes, UserTurns;
    SuffixesShrink(messages, a, b);
  }

  function Budget(kept: seq<Message>): nat {
    var room := if Bytes(kept) < HISTORY_HARD_CAP_BYTES then HISTORY_HARD_CAP_BYTES - Bytes(kept) else 0;
    if room < HISTORY_SUMMARY_MAX_BYTES then room else HISTORY_SUMMARY_MAX_BYTES
  }

  /** The summary pair for the omitted messages, or nothing. `render` is the untruncated summary text. */
  function SummaryMessages(render: seq<Message> -> string, omitted: seq<Message>, maxBytes: nat): seq<Message> {
    var overhead := ByteLen(HISTORY_SUMMARY_CONTEXT_MESSAGE) + ByteLen(HISTORY_SUMMARY_ASSISTANT_PREFIX);
    if maxBytes <= overhead || omitted == [] || maxBytes - overhead < 128 then []
    else
      var summary := Truncated(render(omitted), maxBytes - overhead);
      if TrimSpace(summary) == [] then []
      else [User(HISTORY_SUMMARY_CONTEXT_MESSAGE, None), Assistant(HISTORY_SUMMARY_ASSISTANT_PREFIX + summary, [])]
  }

  lemma SummaryFits(render: seq<Message> -> string, omitted: seq<Message>, maxBytes: nat)
    ensures Bytes(SummaryMessages(render, omitted, maxBytes)) <= maxBytes
  {
    hide ByteLen, Truncated, TrimSpace;
    var pair := SummaryMessages(render, omitted, maxBytes);
    if pair != [] {
      var overhead := ByteLen(HISTORY_SUMMARY_CONTEXT_MESSAGE) + ByteLen(HISTORY_SUMMARY_ASSISTANT_PREFIX);
      var summary := Truncated(render(omitted), maxBytes - overhead);
      TruncatedIsMaximal(render(omitted), maxBytes - overhead);
      ByteLenOfConcat(HISTORY_SUMMARY_ASSISTANT_PREFIX, summary);
      assert pair[1..] == [pair[1]] && [pair[1]][1..] == [];
      assert Bytes(pair) == ModelInputSize(pair[0]) + Bytes([pair[1]]) ==
        ModelInputSize(pair[0]) + ModelInputSize(pair[1]);
      assert CallsSize([]) == 0;
    }
  }

  /** `out` is the compaction of `messages`. */
  predicate IsCompaction(render: seq<Message> -> string, messages: seq<Message>, out: seq<Message>) {
    if IsKeptWhole(messages) then out == messages
    else exists start: nat | start < |messages| ::
      && IsKeptStart(messages, start) && start > 0
      && out == SummaryMessages(render, messages[..start], Budget(messages[start..])) + messages[start..]
  }

  method BuildHistorySummaryMessages(render: seq<Message> -> string, messages: seq<Message>, maxBytes: nat)
      returns (r: seq<Message>)
    ensures r == SummaryMessages(render, messages, maxBytes)
  {
    hide ByteLen, Truncated, TrimSpace;
    var overhead := ByteLen(HISTORY_SUMMARY_CONTEXT_MESSAGE) + ByteLen(HISTORY_SUMMARY_ASSISTANT_PREFIX);
    if maxBytes <= overhead {
      return [];
    }
    if messages == [] || maxBytes - overhead < 128 {
      return [];
    }
    var summary := TruncateTextBytes(render(messages), maxBytes - overhead);
    if TrimSpace(summary) == [] {
      return [];
    }
    return [User(HISTORY_SUMMARY_CONTEXT_MESSAGE, None), Assistant(HISTORY_SUMMARY_ASSISTANT_PREFIX + summary, [])];
  }

  /** The state of the backward loop when the messages from `i` on have been taken: below three user
      turns everything is taken, then only while the cap holds. */
  predicate Taken(messages: seq<Message>, i: nat) {
    && i <= |messages|
    && (UserTurns(messages[i..]) > HISTORY_MIN_RAW_USER_TURNS ==> Bytes(messages[i..]) <= HISTORY_HARD_CAP_BYTES)
    && ((UserTurns(messages[i..]) == HISTORY_MIN_RAW_USER_TURNS && !messages[i].User?) ==>
          Bytes(messages[i..]) <= HISTORY_HARD_CAP_BYTES)
  }

  lemma TakeOneMore(messages: seq<Message>, i: nat)
    requires Taken(messages, i) && i > 0
    ensures Bytes(messages[i - 1..]) == ModelInputSize(messages[i - 1]) + Bytes(messages[i..])
    ensures UserTurns(messages[i - 1..]) == (if messages[i - 1].User? then 1 else 0) + UserTurns(messages[i..])
    ensures (UserTurns(messages[i..]) < HISTORY_MIN_RAW_USER_TURNS
      || Bytes(messages[i - 1..]) <= HISTORY_HARD_CAP_BYTES) ==>
      Taken(messages, i - 1)
  {
    hide ModelInputSize;
    assert messages[i - 1..][1..] == messages[i..];
  }

  method CompactHistoryForModel(render: seq<Message> -> string, messages: seq<Message>) returns (out: seq<Message>)
    ensures IsCompaction(render, messages, out)
  {
    hide ModelInputSize, Bytes, UserTurns, Taken, SummaryMessages;
    NoMessages(messages);
    if messages == [] {
      return [];
    }
    var keptRev: seq<Message> := [];
    var keptBytes, keptUserTurns := 0, 0;
    var i := |messages|;
    while i > 0
      invariant 0 <= i <= |messages| && |keptRev| == |messages| - i && Taken(messages, i)
      invariant keptBytes == Bytes(messages[i..]) && keptUserTurns == UserTurns(messages[i..])
    {
      TakeOneMore(messages, i);
      var message := messages[i - 1];
      var wouldExceed := keptBytes + ModelInputSize(message) > HISTORY_HARD_CAP_BYTES;
      if keptUserTurns >= HISTORY_MIN_RAW_USER_TURNS && wouldExceed {
        break;
      }
      keptBytes := keptBytes + ModelInputSize(message);
      if message.User? {
        keptUserTurns := keptUserTurns + 1;
      }
      keptRev := keptRev + [message];
      i := i - 1;
    }
    ghost var taken := i;
    if |keptRev| == |messages| {
      WholeTaken(messages);
      return messages;
    }
    var omittedLen := |messages| - |keptRev|;
    while omittedLen < |messages| && !messages[omittedLen].User?
      invariant 0 <= taken <= omittedLen <= |messages|
      invariant forall j :: taken <= j < omittedLen ==> !messages[j].User?
    {
      omittedLen := omittedLen + 1;
    }
    TakeOneMore(messages, taken);
    CutAtUser(messages, taken, omittedLen);
    var kept := messages[omittedLen..];
    var summary := BuildHistorySummaryMessages(render, messages[..omittedLen], Budget(kept));
    out := summary + kept;
  }

  lemma NoMessages(messages: seq<Message>)
    ensures UserTurns([]) == 0 && Bytes([]) == 0 && Taken(messages, |messages|) && IsKeptWhole([])
    ensures messages[|messages|..] == []
  {
  }

  lemma WholeTaken(messages: seq<Message>)
    requires messages != [] && Taken(messages, 0)
    ensures IsKeptWhole(messages)
  {
    hide ModelInputSize;
    assert messages[0..] == messages;
  }

  /** The loop stopped in front of a message that would exceed the cap; the first user message from
      there on is the kept start. */
  lemma CutAtUser(messages: seq<Message>, taken: nat, start: nat)
    requires 0 < taken <= start <= |messages| && Taken(messages, taken)
    requires UserTurns(messages[taken..]) >= HISTORY_MIN_RAW_USER_TURNS
      && Bytes(messages[taken - 1..]) > HISTORY_HARD_CAP_BYTES
    requires forall j :: taken <= j < start ==> !messages[j].User?
    requires start < |messages| ==> messages[start].User?
    ensures IsKeptStart(messages, start) && !IsKeptWhole(messages)
  {
    hide Bytes, UserTurns, ModelInputSize;
    NoUsersBetween(messages, taken, start);
    NoMessages(messages);
    SuffixesShrink(messages, taken, start);
    forall j | 0 <= j < start && messages[j].User? ensures Bytes(messages[j..]) > HISTORY_HARD_CAP_BYTES {
      SuffixesShrink(messages, j, taken - 1);
    }
    assert messages[0..] == messages;
    SuffixesShrink(messages, 0, taken - 1);
    SuffixesShrink(messages, 0, taken);
  }

  lemma {:induction false} NoUsersBetween(messages: seq<Message>, i: nat, j: nat)
    requires i <= j <= |messages| && forall k :: i <= k < j ==> !messages[k].User?
    ensures UserTurns(messages[i..]) == UserTurns(messages[j..])
    decreases j - i
  {
    if i < j {
      assert messages[i..][1..] == messages[i + 1..];
      NoUsersBetween(messages, i + 1, j);
    }
  }

  // ----- Size of the output -----

  /** The newest three user turns; the whole history when it has fewer. */
  function ThreeTurnSuffix(messages: seq<Message>): seq<Message> {
    if UserTurns(messages) < HISTORY_MIN_RAW_USER_TURNS then messages
    else if UserTurns(messages) == HISTORY_MIN_RAW_USER_TURNS && messages[0].User? then messages
    else ThreeTurnSuffix(messages[1..])
  }

  lemma {:induction false} ThreeTurnSuffixAt(messages: seq<Message>, start: nat)
    requires start < |messages| && messages[start].User? && UserTurns(messages[start..]) == HISTORY_MIN_RAW_USER_TURNS
    ensures ThreeTurnSuffix(messages) == messages[start..]
    decreases |messages|
  {
    hide Bytes, UserTurns;
    assert messages[0..] == messages;
    if start > 0 {
      SuffixesShrink(messages, 0, start);
      assert messages[start..] == messages[1..][start - 1..];
      ThreeTurnSuffixAt(messages[1..], start - 1);
    }
  }

  /** The compacted history, summary pair included, is within the cap or within the newest three turns. */
  lemma OutputIsBounded(render: seq<Message> -> string, messages: seq<Message>, out: seq<Message>)
    requires IsCompaction(render, messages, out)
    ensures Bytes(out) <= HISTORY_HARD_CAP_BYTES || Bytes(out) <= Bytes(ThreeTurnSuffix(messages))
  {
    hide Bytes, UserTurns, SummaryMessages, ModelInputSize;
    if IsKeptWhole(messages) {
      if UserTurns(messages) >= HISTORY_MIN_RAW_USER_TURNS && Bytes(messages) > HISTORY_HARD_CAP_BYTES {
        assert ThreeTurnSuffix(messages) == messages;
      }
    } else {
      var start: nat :| start < |messages| && IsKeptStart(messages, start) && start > 0
        && out == SummaryMessages(render, messages[..start], Budget(messages[start..])) + messages[start..];
      SummaryFits(render, messages[..start], Budget(messages[start..]));
      BytesOfConcat(SummaryMessages(render, messages[..start], Budget(messages[start..])), messages[start..]);
      if Bytes(messages[start..]) > HISTORY_HARD_CAP_BYTES {
        ThreeTurnSuffixAt(messages, start);
      }
    }
  }

  /** Compaction has one result, and compacting what fits changes nothing. */
  lemma CompactionIsDetermined(render: seq<Message> -> string, messages: seq<Message>, a: seq<Message>, b: seq<Message>)
    requires IsCompaction(render, messages, a) && IsCompaction(render, messages, b)
    ensures a == b
    ensures Bytes(messages) <= HISTORY_HARD_CAP_BYTES ==> a == messages
  {
    hide IsKeptStart, SummaryMessages, IsKeptWhole, Budget;
    WholeWhenSmall(messages);
    if !IsKeptWhole(messages) {
      var i: nat :| i < |messages| && IsKeptStart(messages, i) && i > 0
        && a == SummaryMessages(render, messages[..i], Budget(messages[i..])) + messages[i..];
      var j: nat :| j < |messages| && IsKeptStart(messages, j) && j > 0
        && b == SummaryMessages(render, messages[..j], Budget(messages[j..])) + messages[j..];
      KeptStartIsUnique(messages, i, j);
    }
  }

  lemma WholeWhenSmall(messages: seq<Message>)
    ensures Bytes(messages) <= HISTORY_HARD_CAP_BYTES ==> IsKeptWhole(messages)
  {
  }
}
