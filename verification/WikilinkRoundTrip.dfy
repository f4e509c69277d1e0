/** What masking preserves, and the round trip from links and code through Markdown text back to the links. */
module WikilinkRoundTrip {
  import opened Wrappers
  import opened Text
  import opened Wikilinks

  // ----- Every input -----

  /** `r` is `s` with some characters, never line breaks, replaced by spaces. */
  predicate Blanks(s: string, r: string) {
    |r| == |s| && forall i :: 0 <= i < |s| ==> r[i] == s[i] || (r[i] == ' ' && s[i] != '\n' && s[i] != '\r')
  }

  lemma BlanksJoin(s: string, n: nat, a: string, b: string)
    requires n <= |s| && Blanks(s[..n], a) && Blanks(s[n..], b)
    ensures Blanks(s, a + b)
  {
    forall i | 0 <= i < |s| ensures (a + b)[i] == s[i] || ((a + b)[i] == ' ' && s[i] != '\n' && s[i] != '\r') {
      if i < n {
        assert s[..n][i] == s[i];
      } else {
        assert s[n..][i - n] == s[i];
      }
    }
  }

  /** Masking keeps the length and every line break, and changes other characters only to spaces. */
  lemma {:induction false} MaskKeepsLayout(lineStart: bool, s: string)
    ensures Blanks(s, Mask(lineStart, s))
    decreases |s|
  {
    hide CodeSpan, Blanks;
    if s == [] {
      NoBlanks();
    } else {
      var span := CodeSpan(lineStart, s);
      if span > 0 {
        MaskKeepsLayout(s[span - 1] == '\n', s[span..]);
        MaskedBlanks(s[..span]);
        BlanksJoin(s, span, Masked(s[..span]), Mask(s[span - 1] == '\n', s[span..]));
      } else {
        MaskKeepsLayout(s[0] == '\n', s[1..]);
        MaskedBlanks(s[..1]);
        BlanksJoin(s, 1, [s[0]], Mask(s[0] == '\n', s[1..]));
      }
    }
  }

  lemma NoBlanks()
    ensures Blanks([], [])
  {
  }

  lemma MaskedBlanks(s: string)
    ensures Blanks(s, Masked(s)) && Blanks(s, s) && (|s| == 1 ==> s == [s[0]])
  {
  }

  predicate CleanText(s: string) {
    s != [] && Trimmed(s) && '\n' !in s && '\r' !in s
  }

  predicate CleanLink(link: (string, Option<string>)) {
    CleanText(link.0) && '|' !in link.0 && (link.1.Some? ==> CleanText(link.1.value))
  }

  lemma {:induction false} ClosedBodyIsOneLine(body: string)
    requires CloseOf(body).Some?
    ensures '\n' !in body[..CloseOf(body).value] && '\r' !in body[..CloseOf(body).value]
  {
    var k := CloseOf(body).value;
    if k > 0 {
      ClosedBodyIsOneLine(body[1..]);
      assert body[..k] == [body[0]] + body[1..][..k - 1];
    }
  }

  lemma TrimmedPart(s: string, c: char)
    ensures Trimmed(TrimSpace(s)) && (c !in s ==> c !in TrimSpace(s))
  {
    hide IsSpace, Trimmed, TrimLeft, TrimRight;
    TrimSpaceIsProjection(s);
    assert c in TrimSpace(s) ==> c in TrimLeft(s);
  }

  lemma LinkIsClean(inner: string)
    requires '\n' !in inner && '\r' !in inner
    ensures LinkOf(inner).Some? ==> CleanLink(LinkOf(inner).value)
  {
    hide TrimSpace, Trimmed, PipeOf;
    var pipe := PipeOf(inner);
    var target := inner[..pipe];
    TrimmedPart(target, '\n');
    TrimmedPart(target, '\r');
    TrimmedPart(target, '|');
    if pipe < |inner| {
      TrimmedPart(inner[pipe + 1..], '\n');
      TrimmedPart(inner[pipe + 1..], '\r');
    }
  }

  /** Whatever the text, every extracted target and alias is trimmed, non-empty and on one line, and no
      target holds a separator. */
  lemma {:induction false} LinksAreClean(s: string)
    ensures forall link :: link in Scan(s) ==> CleanLink(link)
    decreases |s|
  {
    hide CleanLink, LinkOf, CloseOf;
    if |s| >= 2 {
      if s[0] != '[' || s[1] != '[' {
        LinksAreClean(s[1..]);
      } else {
        match CloseOf(s[2..])
        case None => LinksAreClean(s[2..]);
        case Some(k) =>
          LinksAreClean(s[2 + k + 2..]);
          ClosedBodyIsOneLine(s[2..]);
          LinkIsClean(s[2..][..k]);
      }
    }
  }

  // ----- Documents -----

  /** Text within a line or across lines. Inline code is delimited by runs of backticks. */
  datatype Piece = Plain(text: string) | InlineCode(ticks: nat, code: string)

  /** Parts of a Markdown document. The content of a fence begins behind its opening run; a closed fence adds the
      closing run, the rest of that line and whether the line ends in a line break. Target and alias of a link
      may hold inline code. */
  datatype Segment =
    | Inline(piece: Piece)
    | Fence(fence: char, length: nat, content: string, closing: nat, rest: string, newline: bool)
    | OpenFence(fence: char, length: nat, content: string)
    | Link(target: seq<Piece>, alias: Option<seq<Piece>>)

  function Repeat(c: char, n: nat): (r: string)
    ensures |r| == n && forall i :: 0 <= i < n ==> r[i] == c
  {
    seq(n, _ => c)
  }

  function RenderPiece(p: Piece): string {
    match p
    case Plain(text) => text
    case InlineCode(ticks, code) => Repeat('`', ticks) + code + Repeat('`', ticks)
  }

  function RenderPieces(pieces: seq<Piece>): string {
    if pieces == [] then [] else RenderPiece(pieces[0]) + RenderPieces(pieces[1..])
  }

  /** The inside of a link. */
  function Inner(s: Segment): seq<Piece>
    requires s.Link?
  {
    s.target + if s.alias.Some? then [Plain("|")] + s.alias.value else []
  }

  function Bracketed(inner: seq<Piece>): seq<Piece> {
    [Plain("[[")] + inner + [Plain("]]")]
  }

  function Render(s: Segment): string {
    match s
    case Inline(p) => RenderPiece(p)
    case Fence(fence, length, content, closing, rest, newline) =>
      Repeat(fence, length) + content + Repeat(fence, closing) + rest + (if newline then "\n" else "")
    case OpenFence(fence, length, content) => Repeat(fence, length) + content
    case Link(_, _) => RenderPieces(Bracketed(Inner(s)))
  }

  function RenderAll(segments: seq<Segment>): string {
    if segments == [] then [] else Render(segments[0]) + RenderAll(segments[1..])
  }

  /** A piece after masking. */
  function ShownPiece(p: Piece): string {
    if p.Plain? then p.text else Masked(RenderPiece(p))
  }

  function ShownPieces(pieces: seq<Piece>): string {
    if pieces == [] then [] else ShownPiece(pieces[0]) + ShownPieces(pieces[1..])
  }

  function Shown(s: Segment): string {
    match s
    case Inline(p) => ShownPiece(p)
    case Link(_, _) => ShownPieces(Bracketed(Inner(s)))
    case _ => Masked(Render(s))
  }

  function ShownAll(segments: seq<Segment>): string {
    if segments == [] then [] else Shown(segments[0]) + ShownAll(segments[1..])
  }

  /** No two neighbouring characters are both `c`. */
  predicate NoPair(s: string, c: char) {
    forall i :: 0 <= i < |s| - 1 ==> !(s[i] == c && s[i + 1] == c)
  }

  predicate EndsIn(s: string, c: char) {
    s != [] && s[|s| - 1] == c
  }

  predicate OneLine(s: string) {
    '\n' !in s && '\r' !in s
  }

  /** Every run of `c` in `s` is shorter than `n`. */
  predicate RunsBelow(s: string, c: char, n: nat) {
    forall i :: 0 <= i < |s| ==> Run(s[i..], c) < n
  }

  predicate LineStartAt(lineStart: bool, s: string, i: nat)
    requires i <= |s|
  {
    if i == 0 then lineStart else s[i - 1] == '\n'
  }

  function LineStartAfter(lineStart: bool, text: string): bool {
    LineStartAt(lineStart, text, |text|)
  }

  /** No line of `s` begins with a run that closes the fence. */
  predicate NeverCloses(lineStart: bool, s: string, fence: char, length: nat) {
    forall i :: 0 <= i < |s| && LineStartAt(lineStart, s, i) ==> Run(s[i..], fence) < length
  }

  /** No code region begins at `s`: no fence, and no run of backticks that a run as long follows. */
  predicate NoCodeHere(lineStart: bool, s: string)
    requires s != []
  {
    && !(lineStart && s[0] in {'`', '~'} && Run(s, s[0]) >= 3)
    && (s[0] == '`' ==> RunsBelow(s[Run(s, '`')..], '`', Run(s, '`')))
  }

  predicate NoCodeAt(lineStart: bool, text: string, after: string, i: nat)
    requires i < |text|
  {
    NoCodeHere(LineStartAt(lineStart, text, i), text[i..] + after)
  }

  /** No code region begins within `text` when `after` follows it. */
  predicate Passes(lineStart: bool, text: string, after: string) {
    forall i :: 0 <= i < |text| ==> NoCodeAt(lineStart, text, after, i)
  }

  /** No pair of brackets that is closed on its line opens at `i`. */
  predicate NoLinkAt(s: string, i: nat) {
    i + 1 < |s| && s[i] == '[' && s[i + 1] == '[' ==> CloseOf(s[i + 2..]).None?
  }

  predicate GoodPiece(lineStart: bool, p: Piece, after: string) {
    match p
    case Plain(text) => Passes(lineStart, text, after)
    case InlineCode(ticks, code) =>
      && ticks > 0 && code != [] && code[0] != '`' && !EndsIn(code, '`')
      && (ticks >= 3 ==> !lineStart)
      && RunsBelow(code, '`', ticks)
  }

  predicate GoodPieces(lineStart: bool, pieces: seq<Piece>, after: string)
    decreases |pieces|
  {
    pieces != [] ==>
      && GoodPiece(lineStart, pieces[0], RenderPieces(pieces[1..]) + after)
      && GoodPieces(LineStartAfter(lineStart, RenderPiece(pieces[0])), pieces[1..], after)
  }

  predicate GoodFence(lineStart: bool, fence: char, length: nat, content: string) {
    && lineStart && (fence == '`' || fence == '~') && length >= 3
    && (content != [] ==> content[0] != fence) && NeverCloses(false, content, fence, length)
  }

  /** What a segment must be for `after` to follow it, which masking makes `shown`. Plain text opens no code region
      and no link where it stands, a closing line without a line break ends the document, and so does a fence
      that is never closed. */
  predicate GoodSegment(lineStart: bool, s: Segment, after: string, shown: string) {
    match s
    case Inline(p) =>
      GoodPiece(lineStart, p, after) && forall i :: 0 <= i < |ShownPiece(p)| ==> NoLinkAt(ShownPiece(p) + shown, i)
    case Fence(fence, length, content, closing, rest, newline) =>
      && GoodFence(lineStart, fence, length, content) && EndsIn(content, '\n')
      && closing >= length && '\n' !in rest && (newline || after == [])
    case OpenFence(fence, length, content) =>
      GoodFence(lineStart, fence, length, content) && after == []
    case Link(target, alias) =>
      && GoodPieces(lineStart, Bracketed(Inner(s)), after)
      && '|' !in ShownPieces(target)
      && var inner := ShownPieces(Inner(s));
         OneLine(inner) && NoPair(inner, ']') && !EndsIn(inner, ']')
  }

  predicate GoodDocument(lineStart: bool, segments: seq<Segment>)
    decreases |segments|
  {
    segments != [] ==>
      && GoodSegment(lineStart, segments[0], RenderAll(segments[1..]), ShownAll(segments[1..]))
      && GoodDocument(LineStartAfter(lineStart, Render(segments[0])), segments[1..])
  }

  /** The link of a segment: none when its target is blank, or its alias is there and blank. */
  function LinkIn(s: Segment): seq<(string, Option<string>)> {
    if !s.Link? || Blank(ShownPieces(s.target)) then []
    else if s.alias.None? then [(TrimSpace(ShownPieces(s.target)), None)]
    else if Blank(ShownPieces(s.alias.value)) then []
    else [(TrimSpace(ShownPieces(s.target)), Some(TrimSpace(ShownPieces(s.alias.value))))]
  }

  /** The links outside code, in order. */
  function LinksOf(segments: seq<Segment>): seq<(string, Option<string>)> {
    if segments == [] then [] else LinkIn(segments[0]) + LinksOf(segments[1..])
  }

  // ----- Runs and searches across a concatenation -----

  lemma {:induction false} RunOfRepeat(c: char, n: nat, rest: string)
    requires rest != [] ==> rest[0] != c
    ensures Run(Repeat(c, n) + rest, c) == n
  {
    RunLength(Repeat(c, n) + rest, c, n);
  }

  /** A run is as long as it looks. */
  lemma RunLength(s: string, c: char, n: nat)
    requires n <= |s| && (forall i :: 0 <= i < n ==> s[i] == c) && (n < |s| ==> s[n] != c)
    ensures Run(s, c) == n
  {
    hide Run;
    var r := Run(s, c);
  }

  /** A run that ends within `a` does not see what follows. */
  lemma RunWithin(a: string, b: string, c: char)
    requires a != [] && !EndsIn(a, c)
    ensures Run(a + b, c) == Run(a, c)
  {
    hide Run;
    var n := Run(a, c);
    assert a[|a| - 1] != c;
    assert n < |a|;
    RunLength(a + b, c, n);
  }

  lemma RunAtLeast(n: nat, c: char, rest: string)
    ensures Run(Repeat(c, n) + rest, c) >= n
  {
    hide Run;
    var s := Repeat(c, n) + rest;
    var r := Run(s, c);
    assert forall i :: 0 <= i < n ==> s[i] == c;
  }

  lemma RunsBelowTail(s: string, c: char, n: nat)
    requires s != [] && RunsBelow(s, c, n)
    ensures Run(s, c) < n && RunsBelow(s[1..], c, n)
  {
    hide Run;
    assert s[0..] == s;
    forall i | 0 <= i < |s[1..]| ensures Run(s[1..][i..], c) < n {
      assert s[1..][i..] == s[i + 1..];
    }
  }

  lemma {:induction false} FindTicksAfter(code: string, ticks: nat, rest: string)
    requires ticks > 0 && !EndsIn(code, '`') && RunsBelow(code, '`', ticks)
    ensures FindTicks(code + Repeat('`', ticks) + rest, ticks) == Some(|code|)
    decreases |code|
  {
    hide Run, RunsBelow;
    var tail := Repeat('`', ticks) + rest;
    var s := code + Repeat('`', ticks) + rest;
    if code == [] {
      assert s == tail;
      RunAtLeast(ticks, '`', rest);
    } else {
      assert s == code + tail;
      RunWithin(code, tail, '`');
      assert s[1..] == code[1..] + Repeat('`', ticks) + rest;
      RunsBelowTail(code, '`', ticks);
      FindTicksAfter(code[1..], ticks, rest);
    }
  }

  lemma {:induction false} FindTicksFails(s: string, ticks: nat)
    requires ticks > 0 && RunsBelow(s, '`', ticks)
    ensures FindTicks(s, ticks).None?
    decreases |s|
  {
    hide Run, RunsBelow;
    if s != [] {
      RunsBelowTail(s, '`', ticks);
      FindTicksFails(s[1..], ticks);
    }
  }

  lemma {:induction false} LineLengthOf(line: string, rest: string)
    requires '\n' !in line
    ensures LineLength(line + "\n" + rest) == |line| + 1
  {
    var s := line + "\n" + rest;
    if line != [] {
      assert s[1..] == line[1..] + "\n" + rest;
      LineLengthOf(line[1..], rest);
    }
  }

  lemma {:induction false} LineLengthToEnd(line: string)
    requires '\n' !in line
    ensures LineLength(line) == |line|
  {
    if line != [] {
      LineLengthToEnd(line[1..]);
    }
  }

  lemma NeverClosesTail(lineStart: bool, s: string, fence: char, length: nat)
    requires s != [] && NeverCloses(lineStart, s, fence, length)
    ensures lineStart ==> Run(s, fence) < length
    ensures NeverCloses(s[0] == '\n', s[1..], fence, length)
  {
    hide Run;
    assert s[0..] == s;
    forall i | 0 <= i < |s[1..]| && LineStartAt(s[0] == '\n', s[1..], i) ensures Run(s[1..][i..], fence) < length {
      assert s[1..][i..] == s[i + 1..];
      assert LineStartAt(lineStart, s, i + 1);
    }
  }

  /** Text none of whose lines closes the fence is passed over, by itself or in front of another line. */
  lemma {:induction false} ClosedByBody(lineStart: bool, body: string, tail: string, fence: char, length: nat)
    requires fence != '\n' && NeverCloses(lineStart, body, fence, length)
    requires tail != [] ==> LineStartAfter(lineStart, body)
    ensures ClosedBy(lineStart, body + tail, fence, length) == |body| + ClosedBy(true, tail, fence, length)
    decreases |body|
  {
    hide Run, NeverCloses;
    if body == [] {
      assert body + tail == tail;
    } else {
      if tail == [] {
        assert body + tail == body;
      } else {
        RunWithin(body, tail, fence);
      }
      assert (body + tail)[1..] == body[1..] + tail;
      NeverClosesTail(lineStart, body, fence, length);
      ClosedByBody(body[0] == '\n', body[1..], tail, fence, length);
    }
  }

  // ----- Masking a rendered segment -----

  /** The opening run without its first character closes nothing. */
  lemma OpeningNeverCloses(fence: char, n: nat, content: string, length: nat)
    requires fence != '\n' && NeverCloses(false, content, fence, length)
    ensures NeverCloses(false, Repeat(fence, n) + content, fence, length)
  {
    hide Run;
    var s := Repeat(fence, n) + content;
    forall i | 0 <= i < |s| && LineStartAt(false, s, i) ensures Run(s[i..], fence) < length {
      assert s[i - 1] == '\n' && i > n;
      assert s[i..] == content[i - n..];
      assert LineStartAt(false, content, i - n);
    }
  }

  lemma FenceShape(fence: char, length: nat, content: string, tail: string)
    requires length > 0
    ensures var s := Repeat(fence, length) + content + tail;
            s[0] == fence && s[1..] == Repeat(fence, length - 1) + content + tail
            && s == Repeat(fence, length) + (content + tail)
  {
  }

  /** A fence reaches as far as its content, and the closing line that follows. */
  lemma SpanOfFenceContent(fence: char, length: nat, content: string, tail: string)
    requires GoodFence(true, fence, length, content)
    requires tail != [] ==> EndsIn(content, '\n')
    ensures var s := Repeat(fence, length) + content + tail;
            CodeSpan(true, s) == length + |content| + ClosedBy(true, tail, fence, length)
  {
    hide Run, NeverCloses, ClosedBy;
    FenceShape(fence, length, content, tail);
    RunOfRepeat(fence, length, content + tail);
    OpeningNeverCloses(fence, length - 1, content, length);
    ClosedByBody(false, Repeat(fence, length - 1) + content, tail, fence, length);
  }

  lemma ClosingLine(fence: char, length: nat, closing: nat, rest: string, newline: bool, after: string)
    requires closing >= length > 0 && fence != '\n' && '\n' !in rest && (newline || after == [])
    ensures ClosedBy(true, Repeat(fence, closing) + rest + (if newline then "\n" else "") + after, fence, length)
         == closing + |rest| + if newline then 1 else 0
  {
    hide Run, LineLength, ClosedBy;
    var line, end := Repeat(fence, closing) + rest, (if newline then "\n" else "") + after;
    var tail := Repeat(fence, closing) + rest + (if newline then "\n" else "") + after;
    assert tail == Repeat(fence, closing) + (rest + end);
    RunAtLeast(closing, fence, rest + end);
    if newline {
      assert tail == line + "\n" + after;
      LineLengthOf(line, after);
    } else {
      assert tail == line;
      LineLengthToEnd(line);
    }
    CloseHere(tail, fence, length);
  }

  lemma CloseHere(s: string, fence: char, length: nat)
    requires s != [] && Run(s, fence) >= length
    ensures ClosedBy(true, s, fence, length) == LineLength(s)
  {
    hide Run, LineLength;
  }

  lemma MaskOfFence(lineStart: bool, s: Segment, after: string, shown: string)
    requires (s.Fence? || s.OpenFence?) && GoodSegment(lineStart, s, after, shown)
    ensures CodeSpan(lineStart, Render(s) + after) == |Render(s)| > 0
  {
    hide CodeSpan, ClosedBy, NeverCloses;
    match s
    case Fence(fence, length, content, closing, rest, newline) =>
      var tail := Repeat(fence, closing) + rest + (if newline then "\n" else "") + after;
      assert Render(s) + after == Repeat(fence, length) + content + tail;
      SpanOfFenceContent(fence, length, content, tail);
      ClosingLine(fence, length, closing, rest, newline, after);
    case OpenFence(fence, length, content) =>
      assert Render(s) + after == Repeat(fence, length) + content + [];
      SpanOfFenceContent(fence, length, content, []);
      ClosedByNothing(fence, length);
  }

  lemma ClosedByNothing(fence: char, length: nat)
    ensures ClosedBy(true, [], fence, length) == 0
  {
  }

  lemma MaskOfInlineCode(lineStart: bool, p: Piece, after: string)
    requires p.InlineCode? && GoodPiece(lineStart, p, after)
    ensures CodeSpan(lineStart, RenderPiece(p) + after) == |RenderPiece(p)| > 0
  {
    hide Run, FindTicks, RunsBelow;
    var text := RenderPiece(p) + after;
    var afterRun := p.code + Repeat('`', p.ticks) + after;
    assert text == Repeat('`', p.ticks) + afterRun;
    RunOfRepeat('`', p.ticks, afterRun);
    assert text[0] == '`' && text[p.ticks..] == afterRun;
    FindTicksAfter(p.code, p.ticks, after);
  }

  lemma PassesTail(lineStart: bool, text: string, after: string)
    requires Passes(lineStart, text, after) && text != []
    ensures Passes(text[0] == '\n', text[1..], after)
  {
    hide NoCodeHere;
    var tail, tailStart := text[1..], text[0] == '\n';
    forall i | 0 <= i < |tail| ensures NoCodeAt(tailStart, tail, after, i) {
      assert NoCodeAt(lineStart, text, after, i + 1);
      assert tail[i..] == text[i + 1..];
    }
  }

  lemma NoSpanHere(lineStart: bool, s: string)
    requires s != [] && NoCodeHere(lineStart, s)
    ensures CodeSpan(lineStart, s) == 0
  {
    hide FindTicks, FenceSpan, RunsBelow;
    if s[0] == '`' {
      FindTicksFails(s[Run(s, '`')..], Run(s, '`'));
    }
  }

  lemma Cons(head: char, text: string, shown: string)
    ensures [head] + (text + shown) == [head] + text + shown
  {
  }

  lemma PassesHead(lineStart: bool, text: string, after: string)
    requires Passes(lineStart, text, after) && text != []
    ensures NoCodeHere(lineStart, text + after)
  {
    hide NoCodeHere;
    assert NoCodeAt(lineStart, text, after, 0);
    assert text[0..] == text;
  }

  /** Text without code openings passes through. */
  lemma {:induction false} MaskOfPassing(lineStart: bool, text: string, rest: string)
    requires Passes(lineStart, text, rest)
    ensures Mask(lineStart, text + rest) == text + Mask(LineStartAfter(lineStart, text), rest)
    decreases |text|
  {
    hide Passes, Mask, CodeSpan, NoCodeHere;
    if text == [] {
      assert text + rest == rest;
    } else {
      var all := text + rest;
      PassesTail(lineStart, text, rest);
      PassesHead(lineStart, text, rest);
      NoSpanHere(lineStart, all);
      MaskUnfolds(lineStart, all);
      assert all[1..] == text[1..] + rest && text == [text[0]] + text[1..];
      MaskOfPassing(text[0] == '\n', text[1..], rest);
      Cons(text[0], text[1..], Mask(LineStartAfter(lineStart, text), rest));
    }
  }

  lemma MaskOfSpan(lineStart: bool, code: string, rest: string)
    requires CodeSpan(lineStart, code + rest) == |code| > 0
    ensures Mask(lineStart, code + rest) == Masked(code) + Mask(LineStartAfter(lineStart, code), rest)
  {
    hide CodeSpan, Masked;
    var text := code + rest;
    assert text[..|code|] == code && text[|code|..] == rest && text[|code| - 1] == code[|code| - 1];
  }

  lemma MaskOfPiece(lineStart: bool, p: Piece, after: string)
    requires GoodPiece(lineStart, p, after)
    ensures Mask(lineStart, RenderPiece(p) + after) ==
      ShownPiece(p) + Mask(LineStartAfter(lineStart, RenderPiece(p)), after)
  {
    hide Mask, Masked, CodeSpan, Passes, LineStartAfter;
    if p.Plain? {
      MaskOfPassing(lineStart, p.text, after);
    } else {
      MaskOfInlineCode(lineStart, p, after);
      MaskOfSpan(lineStart, RenderPiece(p), after);
    }
  }

  lemma LineStartJoin(lineStart: bool, a: string, b: string)
    ensures LineStartAfter(lineStart, a + b) == LineStartAfter(LineStartAfter(lineStart, a), b)
  {
  }

  lemma {:induction false} MaskOfPieces(lineStart: bool, pieces: seq<Piece>, after: string)
    requires GoodPieces(lineStart, pieces, after)
    ensures Mask(lineStart, RenderPieces(pieces) + after) ==
      ShownPieces(pieces) + Mask(LineStartAfter(lineStart, RenderPieces(pieces)), after)
    decreases |pieces|
  {
    hide GoodPiece, RenderPiece, ShownPiece, Mask, LineStartAfter;
    if pieces == [] {
      assert RenderPieces(pieces) + after == after;
      NothingFollows(lineStart);
    } else {
      var text, rest := RenderPiece(pieces[0]), RenderPieces(pieces[1..]);
      assert text + rest + after == text + (rest + after);
      MaskOfPiece(lineStart, pieces[0], rest + after);
      MaskOfPieces(LineStartAfter(lineStart, text), pieces[1..], after);
      LineStartJoin(lineStart, text, rest);
      var masked := Mask(LineStartAfter(lineStart, text + rest), after);
      assert ShownPiece(pieces[0]) + (ShownPieces(pieces[1..]) + masked) ==
             ShownPiece(pieces[0]) + ShownPieces(pieces[1..]) + masked;
    }
  }

  lemma NothingFollows(lineStart: bool)
    ensures LineStartAfter(lineStart, []) == lineStart
  {
  }

  lemma MaskOfSegment(lineStart: bool, s: Segment, after: string, shown: string)
    requires GoodSegment(lineStart, s, after, shown)
    ensures Mask(lineStart, Render(s) + after) == Shown(s) + Mask(LineStartAfter(lineStart, Render(s)), after)
  {
    hide GoodPiece, GoodPieces, Mask, Masked, RenderPiece, RenderPieces, ShownPieces, LineStartAfter, CodeSpan;
    match s
    case Inline(p) => MaskOfPiece(lineStart, p, after);
    case Link(_, _) => MaskOfPieces(lineStart, Bracketed(Inner(s)), after);
    case _ =>
      MaskOfFence(lineStart, s, after, shown);
      MaskOfSpan(lineStart, Render(s), after);
  }

  lemma {:induction false} MaskOfDocument(lineStart: bool, segments: seq<Segment>)
    requires GoodDocument(lineStart, segments)
    ensures Mask(lineStart, RenderAll(segments)) == ShownAll(segments)
    decreases |segments|
  {
    hide GoodSegment, Render, Shown;
    if segments != [] {
      MaskOfSegment(lineStart, segments[0], RenderAll(segments[1..]), ShownAll(segments[1..]));
      MaskOfDocument(LineStartAfter(lineStart, Render(segments[0])), segments[1..]);
    }
  }

  // ----- Scanning the masked document -----

  /** Brackets that are not closed hold no link. */
  lemma {:induction false} ScanOfUnclosed(s: string)
    requires s != [] && CloseOf(s).None?
    ensures Scan(s) == Scan(s[1..])
    decreases |s|
  {
    if |s| >= 2 && s[0] == '[' && s[1] == '[' {
      var body := s[2..];
      assert s[1..][1..] == body;
      if body != [] {
        assert CloseOf(s[1..]).None? && CloseOf(body).None?;
        if body[0] == '[' {
          ScanOfUnclosed(body);
          assert s[1..][2..] == body[1..];
        }
      }
    }
  }

  lemma ScanStepsOver(s: string)
    requires s != [] && NoLinkAt(s, 0)
    ensures Scan(s) == Scan(s[1..])
  {
    if |s| >= 2 && s[0] == '[' && s[1] == '[' {
      var body := s[2..];
      assert s[1..][1..] == body;
      if body != [] && body[0] == '[' {
        ScanOfUnclosed(body);
        assert s[1..][2..] == body[1..];
        assert body[1..] != [] ==> CloseOf(body[1..]).None?;
      }
    }
  }

  /** Text in which no link opens is skipped. */
  lemma {:induction false} ScanSkips(text: string, rest: string)
    requires forall i :: 0 <= i < |text| ==> NoLinkAt(text + rest, i)
    ensures Scan(text + rest) == Scan(rest)
    decreases |text|
  {
    hide Scan, CloseOf;
    if text == [] {
      assert text + rest == rest;
    } else {
      var all := text + rest;
      assert all[1..] == text[1..] + rest;
      assert NoLinkAt(all, 0);
      ScanStepsOver(all);
      forall i | 0 <= i < |text[1..]| ensures NoLinkAt(text[1..] + rest, i) {
        assert NoLinkAt(all, i + 1);
        assert i + 1 + 2 <= |all| ==> all[1..][i + 2..] == all[i + 1 + 2..];
      }
      ScanSkips(text[1..], rest);
    }
  }

  lemma NoPairTail(s: string, c: char)
    requires NoPair(s, c) && s != []
    ensures NoPair(s[1..], c)
  {
    forall i | 0 <= i < |s[1..]| - 1 ensures !(s[1..][i] == c && s[1..][i + 1] == c) {
      assert s[1..][i] == s[i + 1] && s[1..][i + 1] == s[i + 1 + 1];
    }
  }

  lemma {:induction false} CloseOfInner(inner: string, rest: string)
    requires OneLine(inner) && NoPair(inner, ']') && !EndsIn(inner, ']')
    ensures CloseOf(inner + "]]" + rest) == Some(|inner|)
  {
    var s := inner + "]]" + rest;
    if inner != [] {
      assert s[1..] == inner[1..] + "]]" + rest && s[0] == inner[0];
      assert s[1] == (if |inner| > 1 then inner[1] else ']');
      assert inner[0] in inner;
      NoPairTail(inner, ']');
      assert EndsIn(inner[1..], ']') ==> EndsIn(inner, ']');
      CloseOfInner(inner[1..], rest);
    }
  }

  lemma LinkOfInner(target: string, alias: Option<string>)
    requires '|' !in target
    ensures LinkOf(target + if alias.Some? then "|" + alias.value else "") == Finalize(target, alias)
  {
    hide PipeOf, Finalize;
    var inner := target + if alias.Some? then "|" + alias.value else "";
    assert inner[..|target|] == target;
    PipeOfPrefix(inner, |target|);
    if alias.Some? {
      assert inner[|target| + 1..] == alias.value;
    }
  }

  lemma ShapeOfLink(inner: string, rest: string)
    ensures var text := "[[" + inner + "]]" + rest;
            && text[0] == '[' && text[1] == '[' && text[2..] == inner + "]]" + rest
            && text[2..][..|inner|] == inner && text[2 + |inner| + 2..] == rest
  {
    var text := "[[" + inner + "]]" + rest;
    assert text[2..] == inner + "]]" + rest;
    assert text[2 + |inner| + 2..] == rest;
  }

  lemma ScanOfClosed(inner: string, rest: string)
    requires CloseOf(inner + "]]" + rest) == Some(|inner|)
    ensures Scan("[[" + inner + "]]" + rest) == Emit(LinkOf(inner)) + Scan(rest)
  {
    hide CloseOf, LinkOf;
    ShapeOfLink(inner, rest);
  }

  lemma {:induction false} ShownJoin(a: seq<Piece>, b: seq<Piece>)
    ensures ShownPieces(a + b) == ShownPieces(a) + ShownPieces(b)
  {
    hide ShownPiece;
    if a == [] {
      assert a + b == b;
    } else {
      assert (a + b)[1..] == a[1..] + b;
      ShownJoin(a[1..], b);
    }
  }

  lemma ShownOne(text: string)
    ensures ShownPieces([Plain(text)]) == text
  {
    assert [Plain(text)][1..] == [];
  }

  lemma ShownLink(s: Segment)
    requires s.Link?
    ensures ShownPieces(Inner(s)) ==
      ShownPieces(s.target) + if s.alias.Some? then "|" + ShownPieces(s.alias.value) else ""
    ensures Shown(s) == "[[" + ShownPieces(Inner(s)) + "]]"
  {
    hide ShownPieces;
    var inner := Inner(s);
    if s.alias.Some? {
      ShownJoin(s.target, [Plain("|")] + s.alias.value);
      ShownJoin([Plain("|")], s.alias.value);
      ShownOne("|");
    } else {
      assert inner == s.target;
    }
    ShownJoin([Plain("[[")] + inner, [Plain("]]")]);
    ShownJoin([Plain("[[")], inner);
    ShownOne("[[");
    ShownOne("]]");
  }

  lemma ScanOfLink(lineStart: bool, s: Segment, after: string, rest: string)
    requires s.Link? && GoodSegment(lineStart, s, after, rest)
    ensures Scan(Shown(s) + rest) == LinkIn(s) + Scan(rest)
  {
    hide CloseOf, LinkOf, TrimSpace, Scan, NoPair, OneLine, EndsIn, Inner, ShownPieces, GoodPieces, Shown;
    var inner := ShownPieces(Inner(s));
    ShownLink(s);
    CloseOfInner(inner, rest);
    ScanOfClosed(inner, rest);
    BlankIsTrimmedAway(ShownPieces(s.target));
    BlankIsTrimmedAway(if s.alias.Some? then ShownPieces(s.alias.value) else []);
    LinkOfInner(ShownPieces(s.target), if s.alias.Some? then Some(ShownPieces(s.alias.value)) else None);
  }

  /** `after` is the text that follows the segment, `rest` what masking makes of it. */
  lemma ScanOfShown(lineStart: bool, s: Segment, after: string, rest: string)
    requires GoodSegment(lineStart, s, after, rest)
    ensures Scan(Shown(s) + rest) == LinkIn(s) + Scan(rest)
  {
    hide Scan, TrimSpace, GoodPiece, NoLinkAt, LinkOf, ShownPieces, ShownPiece;
    match s
    case Inline(p) => ScanSkips(ShownPiece(p), rest);
    case Link(_, _) => ScanOfLink(lineStart, s, after, rest);
    case _ =>
      NoLinkInCode(Render(s), rest);
      ScanSkips(Masked(Render(s)), rest);
  }

  lemma NoLinkInCode(code: string, rest: string)
    ensures forall i :: 0 <= i < |Masked(code)| ==> NoLinkAt(Masked(code) + rest, i)
  {
  }

  lemma {:induction false} ScanOfDocument(lineStart: bool, segments: seq<Segment>)
    requires GoodDocument(lineStart, segments)
    ensures Scan(ShownAll(segments)) == LinksOf(segments)
    decreases |segments|
  {
    hide GoodSegment, Render, Shown, LinkIn, Scan;
    if segments == [] {
      ScanOfShort([]);
    } else {
      var rest := segments[1..];
      ScanOfShown(lineStart, segments[0], RenderAll(rest), ShownAll(rest));
      ScanOfDocument(LineStartAfter(lineStart, Render(segments[0])), rest);
    }
  }

  // ----- Result -----

  /** Rendering any document and extracting returns exactly its links outside code, in order and numbered. */
  lemma RoundTrip(segments: seq<Segment>)
    requires GoodDocument(true, segments)
    ensures Links(RenderAll(segments)) == Numbered(LinksOf(segments))
  {
    hide Mask, Scan, LinksOf, ShownAll, RenderAll, Numbered;
    MaskOfDocument(true, segments);
    ScanOfDocument(true, segments);
  }
}
