/** What compaction does to the bytes of a request, with its limits written out. */
module CompactionOutcomes {
  import opened Wrappers
  import opened Text
  import opened Utf8
  import opened Compaction

  // ----- Sizes are lengths of encoded text -----

  lemma {:induction false} ByteLenIsEncoded(s: string)
    ensures ByteLen(s) == |EncodeText(s)|
  {
    if s != [] {
      ByteLenIsEncoded(s[1..]);
    }
  }

  function EncodeOption(o: Option<string>): Bytes {
    if o.Some? then EncodeText(o.value) else []
  }

  function Octets(s: seq<bv8>): (r: Bytes)
    ensures |r| == |s|
  {
    seq(|s|, i requires 0 <= i < |s| => s[i] as int)
  }

  function WireOfCall(call: ToolCall): Bytes {
    EncodeText(call.callId) + EncodeText(call.toolName) + EncodeText(call.arguments)
    + (if call.signature.Some? then Octets(call.signature.value) else [])
    + EncodeOption(call.toolCallId) + EncodeOption(call.providerCallId)
  }

  function WireOfCalls(calls: seq<ToolCall>): Bytes {
    if calls == [] then [] else WireOfCall(calls[0]) + WireOfCalls(calls[1..])
  }

  /** The texts of a message that the model is sent, encoded. */
  function Wire(m: Message): Bytes {
    match m
    case System(content) => EncodeText(content)
    case User(content, _) => EncodeText(content)
    case Assistant(content, calls) => EncodeText(content) + WireOfCalls(calls)
    case ToolResult(callId, toolName, output, _, toolCallId, providerCallId) =>
      EncodeText(callId) + EncodeText(toolName) + EncodeText(output) + EncodeOption(toolCallId)
      + EncodeOption(providerCallId)
  }

  function WireOfAll(messages: seq<Message>): Bytes {
    if messages == [] then [] else Wire(messages[0]) + WireOfAll(messages[1..])
  }

  lemma CallSizeIsWire(call: ToolCall)
    ensures CallSize(call) == |WireOfCall(call)|
  {
    hide ByteLen, EncodeText;
    ByteLenIsEncoded(call.callId);
    ByteLenIsEncoded(call.toolName);
    ByteLenIsEncoded(call.arguments);
    if call.toolCallId.Some? {
      ByteLenIsEncoded(call.toolCallId.value);
    }
    if call.providerCallId.Some? {
      ByteLenIsEncoded(call.providerCallId.value);
    }
  }

  lemma {:induction false} CallsSizeIsWire(calls: seq<ToolCall>)
    ensures CallsSize(calls) == |WireOfCalls(calls)|
  {
    hide CallSize, WireOfCall;
    if calls != [] {
      CallSizeIsWire(calls[0]);
      CallsSizeIsWire(calls[1..]);
    }
  }

  lemma SizeIsWire(m: Message)
    ensures ModelInputSize(m) == |Wire(m)|
  {
    hide ByteLen, EncodeText, CallsSize, WireOfCalls;
    match m
    case System(content) => ByteLenIsEncoded(content);
    case User(content, _) => ByteLenIsEncoded(content);
    case Assistant(content, calls) =>
      ByteLenIsEncoded(content);
      CallsSizeIsWire(calls);
    case ToolResult(callId, toolName, output, _, toolCallId, providerCallId) =>
      ByteLenIsEncoded(callId);
      ByteLenIsEncoded(toolName);
      ByteLenIsEncoded(output);
      ByteLenIsEncoded(if toolCallId.Some? then toolCallId.value else []);
      ByteLenIsEncoded(if providerCallId.Some? then providerCallId.value else []);
  }

  /** The size of a list of messages is the number of bytes of their texts. */
  lemma {:induction false} BytesAreWire(messages: seq<Message>)
    ensures Compaction.Bytes(messages) == |WireOfAll(messages)|
  {
    hide ModelInputSize, Wire;
    if messages != [] {
      SizeIsWire(messages[0]);
      BytesAreWire(messages[1..]);
    }
  }

  // ----- What counts -----

  lemma OneMoreCharacter(s: string, c: char)
    ensures ByteLen(s + [c]) == ByteLen(s) + |EncodeText([c])|
  {
    ByteLenOfConcat(s, [c]);
    ByteLenIsEncoded([c]);
  }

  /** A message without text has size 0, whatever else it holds; a call or an id that is there but empty adds
      nothing. */
  lemma EmptyTextsCountNothing(context: Option<string>, isError: bool, id: Option<string>)
    requires id.Some? ==> id.value == ""
    ensures ModelInputSize(System("")) == 0 && ModelInputSize(User("", context)) == 0
    ensures ModelInputSize(Assistant("", [])) == 0 && ModelInputSize(ToolResult("", "", "", isError, id, id)) == 0
    ensures CallSize(ToolCall("", "", "", None, id, id)) == 0 == CallSize(ToolCall("", "", "", Some([]), id, id))
  {
  }

  /** One more character in any text of a message raises its size by the bytes of that character. */
  lemma EveryTextCounts(m: Message, c: char)
    ensures var more := |EncodeText([c])|;
            match m
            case System(content) => ModelInputSize(System(content + [c])) == ModelInputSize(m) + more
            case User(content, context) =>
              && ModelInputSize(User(content + [c], context)) == ModelInputSize(m) + more
              && ModelInputSize(User(content, None)) == ModelInputSize(m)
            case Assistant(content, calls) =>
              ModelInputSize(Assistant(content + [c], calls)) == ModelInputSize(m) + more
            case ToolResult(callId, toolName, output, isError, a, b) =>
              && ModelInputSize(m.(callId := callId + [c])) == ModelInputSize(m) + more
              && ModelInputSize(m.(toolName := toolName + [c])) == ModelInputSize(m) + more
              && ModelInputSize(m.(output := output + [c])) == ModelInputSize(m) + more
              && (a.Some? ==> ModelInputSize(m.(toolCallId := Some(a.value + [c]))) == ModelInputSize(m) + more)
              && (b.Some? ==> ModelInputSize(m.(providerCallId := Some(b.value + [c]))) == ModelInputSize(m) + more)
              && ModelInputSize(m.(isError := !isError)) == ModelInputSize(m)
  {
    hide ByteLen, EncodeText, CallsSize;
    match m
    case System(content) => OneMoreCharacter(content, c);
    case User(content, _) => OneMoreCharacter(content, c);
    case Assistant(content, _) => OneMoreCharacter(content, c);
    case ToolResult(callId, toolName, output, _, a, b) =>
      OneMoreCharacter(callId, c);
      OneMoreCharacter(toolName, c);
      OneMoreCharacter(output, c);
      OneMoreCharacter(if a.Some? then a.value else [], c);
      OneMoreCharacter(if b.Some? then b.value else [], c);
  }

  /** So does one more character in any text of a call, and a signature counts by its bytes. */
  lemma EveryTextOfCallCounts(call: ToolCall, c: char, b: bv8)
    ensures var more := |EncodeText([c])|;
            && CallSize(call.(callId := call.callId + [c])) == CallSize(call) + more
            && CallSize(call.(toolName := call.toolName + [c])) == CallSize(call) + more
            && CallSize(call.(arguments := call.arguments + [c])) == CallSize(call) + more
            && (call.signature.Some? ==>
                  CallSize(call.(signature := Some(call.signature.value + [b]))) == CallSize(call) + 1)
            && (call.toolCallId.Some? ==>
                  CallSize(call.(toolCallId := Some(call.toolCallId.value + [c]))) == CallSize(call) + more)
            && (call.providerCallId.Some? ==>
                  CallSize(call.(providerCallId := Some(call.providerCallId.value + [c]))) == CallSize(call) + more)
  {
    hide ByteLen, EncodeText;
    OneMoreCharacter(call.callId, c);
    OneMoreCharacter(call.toolName, c);
    OneMoreCharacter(call.arguments, c);
    OneMoreCharacter(if call.toolCallId.Some? then call.toolCallId.value else [], c);
    OneMoreCharacter(if call.providerCallId.Some? then call.providerCallId.value else [], c);
  }

  lemma {:induction false} CallsSizeJoins(a: seq<ToolCall>, b: seq<ToolCall>)
    ensures CallsSize(a + b) == CallsSize(a) + CallsSize(b)
  {
    hide CallSize;
    if a == [] {
      assert a + b == b;
    } else {
      assert (a + b)[1..] == a[1..] + b;
      CallsSizeJoins(a[1..], b);
    }
  }

  /** Every call of a reply counts with its own size. */
  lemma EveryCallCounts(content: string, before: seq<ToolCall>, call: ToolCall, behind: seq<ToolCall>)
    ensures ModelInputSize(Assistant(content, before + [call] + behind))
         == ModelInputSize(Assistant(content, before + behind)) + CallSize(call)
  {
    hide CallSize, ByteLen;
    CallsSizeJoins(before + [call], behind);
    CallsSizeJoins(before, [call]);
    CallsSizeJoins(before, behind);
    assert [call][1..] == [];
  }

  // ----- Outcome -----

  function UserPositions(messages: seq<Message>): set<nat> {
    set i: nat | i < |messages| && messages[i].User?
  }

  function Shifted(s: set<nat>): set<nat> {
    set i | i in s :: i + 1
  }

  /** User turns are the user messages, counted. */
  lemma {:induction false} UserTurnsAreCounted(messages: seq<Message>)
    ensures UserTurns(messages) == |UserPositions(messages)|
  {
    if messages != [] {
      var tail, head: set<nat> := messages[1..], if messages[0].User? then {0} else {};
      UserTurnsAreCounted(tail);
      ShiftedCounts(UserPositions(tail));
      forall i: nat ensures i in UserPositions(messages) <==> i in Shifted(UserPositions(tail)) + head {
        if i in UserPositions(messages) && i > 0 {
          assert tail[i - 1] == messages[i] && i - 1 in UserPositions(tail);
        }
      }
      assert UserPositions(messages) == Shifted(UserPositions(tail)) + head;
      assert 0 !in Shifted(UserPositions(tail));
    }
  }

  lemma {:induction false} ShiftedCounts(s: set<nat>)
    ensures |Shifted(s)| == |s|
  {
    if s != {} {
      var x :| x in s;
      ShiftedCounts(s - {x});
      forall y: nat ensures y in Shifted(s) <==> y in Shifted(s - {x}) + {x + 1} {
        if y in Shifted(s) {
          var i :| i in s && y == i + 1;
          assert i != x ==> i in s - {x};
        }
      }
      assert Shifted(s) == Shifted(s - {x}) + {x + 1};
      assert x + 1 !in Shifted(s - {x});
    }
  }

  /** The summary pair for a room of so many bytes: the omitted messages rendered and cut to what the two fixed texts
      leave, or nothing when that is under 128 bytes or blank. */
  ghost predicate IsSummary(render: seq<Message> -> string, omitted: seq<Message>, room: nat, pair: seq<Message>) {
    var overhead :=
      |EncodeText(HISTORY_SUMMARY_CONTEXT_MESSAGE)| + |EncodeText(HISTORY_SUMMARY_ASSISTANT_PREFIX)|;
    if room < overhead + 128 || omitted == [] then pair == []
    else
      exists text :: IsCut(render(omitted), room - overhead, text) &&
        pair == if TrimSpace(text) == "" then []
                else [User(HISTORY_SUMMARY_CONTEXT_MESSAGE, None),
                      Assistant(HISTORY_SUMMARY_ASSISTANT_PREFIX + text, [])]
  }

  /** `cut` is the text, or its longest prefix that leaves room for an ellipsis, and the ellipsis. */
  predicate IsCut(text: string, limit: nat, cut: string) {
    if |EncodeText(text)| <= limit then cut == text
    else
      && |EncodeText(cut)| <= limit && 3 <= |cut| < |text| + 3
      && cut == text[..|cut| - 3] + "..." && |EncodeText(text[..|cut| - 2])| > limit - 3
  }

  lemma SummaryIsExact(render: seq<Message> -> string, omitted: seq<Message>, room: nat)
    ensures IsSummary(render, omitted, room, SummaryMessages(render, omitted, room))
  {
    hide ByteLen, EncodeText, Truncated, TrimSpace, HISTORY_SUMMARY_CONTEXT_MESSAGE, HISTORY_SUMMARY_ASSISTANT_PREFIX;
    ByteLenIsEncoded(HISTORY_SUMMARY_CONTEXT_MESSAGE);
    ByteLenIsEncoded(HISTORY_SUMMARY_ASSISTANT_PREFIX);
    PrefixIsNotEmpty();
    var overhead := ByteLen(HISTORY_SUMMARY_CONTEXT_MESSAGE) + ByteLen(HISTORY_SUMMARY_ASSISTANT_PREFIX);
    if room >= overhead + 128 {
      CutIsExact(render(omitted), room - overhead);
    }
  }

  lemma PrefixIsNotEmpty()
    ensures ByteLen(HISTORY_SUMMARY_ASSISTANT_PREFIX) > 0
  {
  }

  lemma CutIsExact(text: string, limit: nat)
    requires limit > 3
    ensures IsCut(text, limit, Truncated(text, limit))
  {
    hide ByteLen, EncodeText, Truncated;
    var cut := Truncated(text, limit);
    TruncatedIsMaximal(text, limit);
    ByteLenIsEncoded(text);
    ByteLenIsEncoded(cut);
    if ByteLen(text) > limit {
      ByteLenIsEncoded(text[..|cut| - 2]);
    }
  }

  function Users(messages: seq<Message>): nat {
    |UserPositions(messages)|
  }

  /** How the history is cut: in front of the earliest user message from which on it has at most 65536 bytes, but at
      least the newest three user turns are kept; and how much room that leaves for the summary. */
  ghost predicate IsCutAt(messages: seq<Message>, start: nat, room: nat) {
    && 0 < start < |messages| && messages[start].User? && Users(messages[start..]) >= 3
    && (|WireOfAll(messages[start..])| <= 65_536 || Users(messages[start..]) == 3)
    && (forall j :: 0 <= j < start && messages[j].User? ==> |WireOfAll(messages[j..])| > 65_536)
    && var left := 65_536 - |WireOfAll(messages[start..])|;
       room == if left < 0 then 0 else if left > 8_192 then 8_192 else left
  }

  /** What compaction returns: the history, when it has fewer than three user turns, or at most 65536 bytes, or is three
      turns long; otherwise a suffix of it behind a summary of the rest. */
  lemma CompactionOutcome(render: seq<Message> -> string, messages: seq<Message>, out: seq<Message>)
    requires IsCompaction(render, messages, out)
    ensures var whole := Users(messages) < 3 || |WireOfAll(messages)| <= 65_536
                         || (messages[0].User? && Users(messages) == 3);
            if whole then out == messages
            else exists start: nat, room: nat, pair :: IsCutAt(messages, start, room)
                   && IsSummary(render, messages[..start], room, pair) && out == pair + messages[start..]
  {
    hide Compaction.Bytes, UserTurns, SummaryMessages, UserPositions, WireOfAll, IsSummary;
    BytesAreWire(messages);
    UserTurnsAreCounted(messages);
    if !IsKeptWhole(messages) {
      var start: nat :| start < |messages| && IsKeptStart(messages, start) && start > 0
        && out == SummaryMessages(render, messages[..start], Budget(messages[start..])) + messages[start..];
      BytesAreWire(messages[start..]);
      UserTurnsAreCounted(messages[start..]);
      SummaryIsExact(render, messages[..start], Budget(messages[start..]));
      forall j | 0 <= j < start && messages[j].User? ensures |WireOfAll(messages[j..])| > 65_536 {
        BytesAreWire(messages[j..]);
      }
      assert IsCutAt(messages, start, Budget(messages[start..]));
    }
  }

  /** The newest three user turns. */
  predicate IsThreeTurns(messages: seq<Message>, suffix: seq<Message>) {
    && |suffix| <= |messages| && suffix == messages[|messages| - |suffix|..]
    && (Users(messages) < 3 ==> suffix == messages)
    && (Users(messages) >= 3 ==> suffix != [] && suffix[0].User? && Users(suffix) == 3)
  }

  /** The texts of a compacted request, summary included, have at most 65536 bytes, or at most those of the newest three
      user turns. */
  lemma RequestIsBounded(render: seq<Message> -> string, messages: seq<Message>, out: seq<Message>)
    requires IsCompaction(render, messages, out)
    ensures |WireOfAll(out)| <= 65_536 || |WireOfAll(out)| <= |WireOfAll(ThreeTurnSuffix(messages))|
    ensures IsThreeTurns(messages, ThreeTurnSuffix(messages))
  {
    hide Compaction.Bytes, WireOfAll;
    OutputIsBounded(render, messages, out);
    BytesAreWire(out);
    BytesAreWire(ThreeTurnSuffix(messages));
    ThreeTurnsAre(messages);
  }

  lemma {:induction false} ThreeTurnsAre(messages: seq<Message>)
    ensures IsThreeTurns(messages, ThreeTurnSuffix(messages))
  {
    hide UserTurns, UserPositions;
    UserTurnsAreCounted(messages);
    assert messages == [] ==> UserTurns(messages) == 0 by { NoMessages([]); }
    if UserTurns(messages) < 3 || (UserTurns(messages) == 3 && messages[0].User?) {
      assert messages[0..] == messages;
    } else {
      ThreeTurnsAre(messages[1..]);
      UserTurnsAreCounted(messages[1..]);
      TurnsOfTail(messages);
      var suffix := ThreeTurnSuffix(messages[1..]);
      assert suffix == messages[1..][|messages[1..]| - |suffix|..] == messages[|messages| - |suffix|..];
    }
  }

  lemma TurnsOfTail(messages: seq<Message>)
    requires messages != []
    ensures UserTurns(messages) == (if messages[0].User? then 1 else 0) + UserTurns(messages[1..])
  {
  }
}
