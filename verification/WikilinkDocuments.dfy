/** Every text is a document: it is rendered from pieces, fences and links that are good where they stand. */
module WikilinkDocuments {
  import opened Wrappers
  import opened Wikilinks
  import opened WikilinkRoundTrip

  // ----- Code -----

  /** The first run of at least `n`, or the end. */
  lemma FirstRun(s: string, c: char, n: nat) returns (k: nat)
    ensures k <= |s| && (forall i :: 0 <= i < k ==> Run(s[i..], c) < n) && (k < |s| ==> Run(s[k..], c) >= n)
  {
    hide Run;
    k := 0;
    while k < |s| && Run(s[k..], c) < n
      invariant k <= |s| && forall i :: 0 <= i < k ==> Run(s[i..], c) < n
    {
      k := k + 1;
    }
  }

  /** The first line behind the first that begins with a run of at least `n`, or the end. */
  lemma FirstClosing(s: string, c: char, n: nat) returns (k: nat)
    ensures k <= |s| && NeverClosesBefore(s, c, n, k)
    ensures k < |s| ==> LineStartAt(false, s, k) && Run(s[k..], c) >= n
  {
    hide Run;
    k := 0;
    while k < |s| && !(LineStartAt(false, s, k) && Run(s[k..], c) >= n)
      invariant k <= |s| && NeverClosesBefore(s, c, n, k)
    {
      k := k + 1;
    }
  }

  predicate NeverClosesBefore(s: string, c: char, n: nat, k: nat)
    requires k <= |s|
  {
    forall i :: 0 <= i < k && LineStartAt(false, s, i) ==> Run(s[i..], c) < n
  }

  /** Cutting text off makes no run longer. */
  lemma {:induction false} RunOfPrefix(s: string, c: char, k: nat)
    requires k <= |s|
    ensures Run(s[..k], c) <= Run(s, c)
  {
    if k > 0 && s[0] == c {
      RunOfPrefix(s[1..], c, k - 1);
      assert s[..k][1..] == s[1..][..k - 1];
    }
  }

  lemma RunInPrefix(s: string, c: char, k: nat, i: nat)
    requires i <= k <= |s|
    ensures Run(s[..k][i..], c) <= Run(s[i..], c)
  {
    RunOfPrefix(s[i..], c, k - i);
    assert s[..k][i..] == s[i..][..k - i];
  }

  lemma RunsBelowPrefix(s: string, c: char, n: nat, k: nat)
    requires k <= |s| && forall i :: 0 <= i < k ==> Run(s[i..], c) < n
    ensures RunsBelow(s[..k], c, n)
  {
    hide Run;
    forall i | 0 <= i < |s[..k]| ensures Run(s[..k][i..], c) < n {
      RunInPrefix(s, c, k, i);
    }
  }

  lemma NeverClosesPrefix(s: string, c: char, n: nat, k: nat)
    requires k <= |s| && NeverClosesBefore(s, c, n, k)
    ensures NeverCloses(false, s[..k], c, n)
  {
    hide Run;
    forall i | 0 <= i < |s[..k]| && LineStartAt(false, s[..k], i) ensures Run(s[..k][i..], c) < n {
      assert LineStartAt(false, s, i);
      RunInPrefix(s, c, k, i);
    }
  }

  /** A run, written out. */
  lemma RunIsRepeat(s: string, c: char, n: nat)
    requires n <= Run(s, c)
    ensures s == Repeat(c, n) + s[n..]
    ensures n == Run(s, c) && n < |s| ==> s[n] != c
  {
    hide Run;
  }

  lemma {:induction false} LineOf(s: string)
    requires s != []
    ensures var n := LineLength(s);
            && (forall i :: 0 <= i < n - 1 ==> s[i] != '\n') && (n < |s| ==> s[n - 1] == '\n')
  {
    if s[0] != '\n' && |s| > 1 {
      LineOf(s[1..]);
      var n := LineLength(s);
      forall i | 0 <= i < n - 1 ensures s[i] != '\n' {
        if i > 0 {
          assert s[1..][i - 1] == s[i];
        }
      }
    }
  }

  /** Where a fence opens, a good fence stands. */
  lemma FenceFrom(s: string) returns (f: Segment, after: string)
    requires OpensFence(true, s)
    ensures (f.Fence? || f.OpenFence?) && s == Render(f) + after && |after| < |s|
    ensures forall shown :: GoodSegment(true, f, after, shown)
  {
    hide Run, NeverCloses, NeverClosesBefore, LineLength;
    var fence, length := s[0], Run(s, s[0]);
    RunIsRepeat(s, fence, length);
    var body := s[length..];
    var k := FirstClosing(body, fence, length);
    NeverClosesPrefix(body, fence, length, k);
    var content, closing := body[..k], body[k..];
    assert s == Repeat(fence, length) + content + closing;
    if closing == [] {
      f, after := OpenFence(fence, length, content), [];
    } else {
      f, after := ClosedFence(fence, length, content, closing);
    }
  }

  /** The first line of a text. */
  lemma FirstLine(s: string) returns (line: string, newline: bool, after: string)
    requires s != []
    ensures s == line + (if newline then "\n" else "") + after && '\n' !in line && (newline || after == [])
  {
    hide LineLength;
    LineOf(s);
    var n := LineLength(s);
    newline := s[n - 1] == '\n';
    line, after := if newline then s[..n - 1] else s[..n], s[n..];
  }

  lemma ClosedFence(fence: char, length: nat, content: string, closing: string) returns (f: Segment, after: string)
    requires GoodFence(true, fence, length, content) && EndsIn(content, '\n')
    requires Run(closing, fence) >= length
    ensures f.Fence? && Repeat(fence, length) + content + closing == Render(f) + after && |after| <= |closing|
    ensures forall shown :: GoodSegment(true, f, after, shown)
  {
    hide Run, NeverCloses, EndsIn;
    var line, newline;
    line, newline, after := FirstLine(closing);
    var end := if newline then "\n" else "";
    RunStaysInLine(line, end + after, fence, length) by {
      assert line + (end + after) == closing;
    }
    f := Fence(fence, length, content, length, line[length..], newline);
    JoinFence(Repeat(fence, length), content, line[length..], end, after);
  }

  lemma JoinFence(run: string, content: string, rest: string, end: string, after: string)
    ensures run + content + (run + rest + end + after) == run + content + run + rest + end + after
  {
  }

  /** A closing run lies within its line. */
  lemma RunStaysInLine(line: string, behind: string, fence: char, length: nat)
    requires Run(line + behind, fence) >= length && fence != '\n'
    requires behind != [] ==> behind[0] == '\n'
    ensures |line| >= length && line == Repeat(fence, length) + line[length..]
  {
    hide Run;
    var s := line + behind;
    assert behind != [] ==> s[|line|] == behind[0] == '\n';
    assert |line| >= length;
    assert forall i :: 0 <= i < length ==> line[i] == s[i] == fence;
    assert line[..length] == Repeat(fence, length);
  }

  // ----- Text and inline code -----

  /** Where no fence opens, a good piece stands; plain text is taken one character at a time. */
  lemma PieceFrom(lineStart: bool, s: string) returns (p: Piece, after: string)
    requires s != [] && !OpensFence(lineStart, s)
    ensures s == RenderPiece(p) + after && |after| < |s| && GoodPiece(lineStart, p, after)
    ensures p.Plain? ==> |p.text| == 1
  {
    hide Run, RunsBelow;
    var n := Run(s, '`');
    var body := s[n..];
    RunIsRepeat(s, '`', n);
    RunStartsWith(s, '`');
    var k := FirstRun(body, '`', n);
    if n > 0 && k < |body| {
      p, after := CodeFrom(lineStart, s, n, k);
    } else {
      RunsBelowPrefix(body, '`', n, k);
      assert body[..|body|] == body;
      p, after := Plain([s[0]]), s[1..];
      assert s[..1] + s[1..] == s && s[..1] == [s[0]];
      assert [s[0]][0..] + after == s;
      assert NoCodeAt(lineStart, [s[0]], after, 0);
    }
  }

  lemma RunExtends(s: string, c: char)
    requires s != []
    ensures Run(s, c) == if s[0] == c then 1 + Run(s[1..], c) else 0
  {
  }

  /** The run that ends inline code begins there, and not at once. */
  lemma CodeEnds(body: string, n: nat, k: nat)
    requires 0 < n && (body != [] ==> body[0] != '`') && k < |body| && Run(body[k..], '`') >= n
    requires forall i :: 0 <= i < k ==> Run(body[i..], '`') < n
    ensures k > 0 && body[k - 1] != '`'
  {
    hide Run;
    RunExtends(body[k..], '`');
    if k > 0 {
      RunExtends(body[k - 1..], '`');
      assert body[k - 1..][1..] == body[k..];
      assert Run(body[k - 1..], '`') < n;
    }
  }

  lemma CodeFrom(lineStart: bool, s: string, n: nat, k: nat) returns (p: Piece, after: string)
    requires s != [] && !OpensFence(lineStart, s) && n == Run(s, '`') > 0
    requires n + k < |s| && Run(s[n..][k..], '`') >= n
    requires forall i :: 0 <= i < k ==> Run(s[n..][i..], '`') < n
    ensures p.InlineCode? && s == RenderPiece(p) + after && |after| < |s| && GoodPiece(lineStart, p, after)
  {
    hide Run, RunsBelow, EndsIn;
    var body := s[n..];
    var code := body[..k];
    CodeEnds(body, n, k);
    NotEndsIn(body, k);
    RunsBelowPrefix(body, '`', n, k);
    RunIsRepeat(s, '`', n);
    RunIsRepeat(body[k..], '`', n);
    after := body[k..][n..];
    p := InlineCode(n, code);
    CodeShape(s, n, k, after);
  }

  lemma NotEndsIn(s: string, k: nat)
    requires 0 < k <= |s| && s[k - 1] != '`'
    ensures !EndsIn(s[..k], '`')
  {
  }

  lemma CodeShape(s: string, n: nat, k: nat, after: string)
    requires n + k <= |s| && s == Repeat('`', n) + s[n..] && s[n..][k..] == Repeat('`', n) + after
    ensures s == Repeat('`', n) + s[n..][..k] + Repeat('`', n) + after
  {
    var body := s[n..];
    assert body == body[..k] + body[k..];
  }

  // ----- Links -----

  lemma {:induction false} CloseIsFirst(body: string)
    requires CloseOf(body).Some?
    ensures var inner := body[..CloseOf(body).value]; OneLine(inner) && NoPair(inner, ']') && !EndsIn(inner, ']')
  {
    var k := CloseOf(body).value;
    if k > 0 {
      CloseIsFirst(body[1..]);
      var tail := body[1..][..k - 1];
      assert body[..k] == [body[0]] + tail;
      assert tail != [] ==> tail[0] == body[1];
      forall i | 0 <= i < k - 1 ensures !(body[..k][i] == ']' && body[..k][i + 1] == ']') {
        if i > 0 {
          assert tail[i - 1] == body[i] && tail[i - 1 + 1] == body[i + 1];
        }
      }
    }
  }

  /** Text without closing brackets, or a single character, is stepped over on the way to the close. */
  lemma {:induction false} CloseBehind(a: string, b: string, k: nat)
    requires CloseOf(a + b) == Some(k) && k > 0
    requires |a| == 1 || ']' !in a
    ensures |a| <= k && CloseOf(b) == Some(k - |a|) && OneLine(a)
    decreases |a|
  {
    if a == [] {
      assert a + b == b;
    } else {
      var s := a + b;
      assert s[1..] == a[1..] + b && a == [a[0]] + a[1..];
      if |a| == 1 {
        assert s[1..] == b;
      } else {
        assert a[1] in a && s[1] == a[1];
        assert k > 1;
        CloseBehind(a[1..], b, k - 1);
      }
    }
  }

  lemma ClosesAtOnce(s: string)
    requires CloseOf(s) == Some(0)
    ensures |s| >= 2 && s[0] == ']' && s[1] == ']'
  {
  }

  /** Masking changes no bracket, and makes none. */
  lemma BracketsStay(lineStart: bool, s: string)
    ensures |Mask(lineStart, s)| == |s|
    ensures forall i :: 0 <= i < |s| && Mask(lineStart, s)[i] != ' ' ==> s[i] == Mask(lineStart, s)[i]
  {
    hide Mask;
    MaskKeepsLayout(lineStart, s);
  }

  /** Plain text is cut into single characters. */
  predicate Atoms(pieces: seq<Piece>) {
    forall i :: 0 <= i < |pieces| && pieces[i].Plain? ==> |pieces[i].text| == 1
  }

  /** What a piece on the way to the close looks like. */
  lemma PieceInLink(p: Piece, shown: string, k: nat)
    requires CloseOf(ShownPiece(p) + shown) == Some(k) && k > 0
    requires (p.Plain? ==> |p.text| == 1) && (p.InlineCode? ==> p.ticks > 0)
    ensures var n := |ShownPiece(p)|;
            0 < n <= k && CloseOf(shown) == Some(k - n) && !LineStartAfter(false, RenderPiece(p))
  {
    hide CloseOf;
    CloseBehind(ShownPiece(p), shown, k);
  }

  /** The pieces up to the close of a link. */
  lemma {:induction false} PiecesTo(s: string, k: nat) returns (pieces: seq<Piece>, after: string)
    requires CloseOf(Mask(false, s)) == Some(k)
    ensures s == RenderPieces(pieces) + after && GoodPieces(false, pieces, after) && Atoms(pieces)
    ensures |after| >= 2 && after[0] == ']' && after[1] == ']'
    ensures ShownPieces(pieces) == Mask(false, s)[..k] && !LineStartAfter(false, RenderPieces(pieces))
    decreases |s|
  {
    hide Mask, CloseOf, RenderPiece, ShownPiece, GoodPiece, LineStartAfter;
    if k == 0 {
      pieces, after := [], s;
      BracketsStay(false, s);
      ClosesAtOnce(Mask(false, s));
      NothingFollows(false);
    } else {
      assert s != [] by {
        MaskKeepsLayout(false, s);
        NothingCloses();
      }
      var p, tail := PieceFrom(false, s);
      HasTicks(false, p, tail);
      MaskOfPiece(false, p, tail);
      var masked := Mask(LineStartAfter(false, RenderPiece(p)), tail);
      PieceInLink(p, masked, k);
      var n := |ShownPiece(p)|;
      var more;
      more, after := PiecesTo(tail, k - n);
      pieces := [p] + more;
      assert pieces[1..] == more;
      LineStartJoin(false, RenderPiece(p), RenderPieces(more));
      assert s == RenderPiece(p) + (RenderPieces(more) + after) == RenderPiece(p) + RenderPieces(more) + after;
      assert (ShownPiece(p) + masked)[..k] == ShownPiece(p) + masked[..k - n];
    }
  }

  lemma NothingCloses()
    ensures CloseOf([]).None?
  {
  }

  lemma HasTicks(lineStart: bool, p: Piece, after: string)
    requires GoodPiece(lineStart, p, after)
    ensures p.InlineCode? ==> p.ticks > 0
  {
  }

  /** Where the target ends. */
  lemma {:induction false} SplitAtPipe(pieces: seq<Piece>) returns (target: seq<Piece>, alias: Option<seq<Piece>>)
    requires Atoms(pieces)
    ensures '|' !in ShownPieces(target) && Inner(Link(target, alias)) == pieces
  {
    hide ShownPiece;
    if pieces == [] {
      target, alias := [], None;
    } else if pieces[0] == Plain("|") {
      target, alias := [], Some(pieces[1..]);
      assert pieces == [Plain("|")] + pieces[1..];
    } else {
      var more;
      more, alias := SplitAtPipe(pieces[1..]);
      target := [pieces[0]] + more;
      NoPipe(pieces[0]);
      SplitGrows(pieces, more, alias);
    }
  }

  lemma SplitGrows(pieces: seq<Piece>, more: seq<Piece>, alias: Option<seq<Piece>>)
    requires pieces != [] && Inner(Link(more, alias)) == pieces[1..]
    ensures Inner(Link([pieces[0]] + more, alias)) == pieces
    ensures ShownPieces([pieces[0]] + more) == ShownPiece(pieces[0]) + ShownPieces(more)
  {
    hide ShownPiece;
    assert ([pieces[0]] + more)[1..] == more;
    assert pieces == [pieces[0]] + pieces[1..];
  }

  lemma NoPipe(p: Piece)
    requires p != Plain("|") && (p.Plain? ==> |p.text| == 1)
    ensures '|' !in ShownPiece(p)
  {
    if p.Plain? {
      assert p.text == [p.text[0]];
    }
  }

  lemma BracketsPass(lineStart: bool, text: string, after: string)
    requires '`' !in text && '~' !in text
    ensures Passes(lineStart, text, after)
  {
    hide Run, RunsBelow;
    forall i | 0 <= i < |text| ensures NoCodeAt(lineStart, text, after, i) {
      assert (text[i..] + after)[0] == text[i];
    }
  }

  lemma {:induction false} GoodAppend(lineStart: bool, pieces: seq<Piece>, q: Piece, after: string)
    requires GoodPieces(lineStart, pieces, RenderPiece(q) + after)
    requires GoodPiece(LineStartAfter(lineStart, RenderPieces(pieces)), q, after)
    ensures GoodPieces(lineStart, pieces + [q], after)
    ensures RenderPieces(pieces + [q]) == RenderPieces(pieces) + RenderPiece(q)
    decreases |pieces|
  {
    hide RenderPiece, GoodPiece, LineStartAfter;
    if pieces == [] {
      NothingFollows(lineStart);
      assert [q][1..] == [];
      assert [] + after == after;
    } else {
      var head, rest := RenderPiece(pieces[0]), RenderPieces(pieces[1..]);
      assert (pieces + [q])[1..] == pieces[1..] + [q] && (pieces + [q])[0] == pieces[0];
      LineStartJoin(lineStart, head, rest);
      GoodAppend(LineStartAfter(lineStart, head), pieces[1..], q, after);
      Reassociate(rest, RenderPiece(q), after);
      Reassociate(head, rest, RenderPiece(q));
    }
  }

  lemma Reassociate(a: string, b: string, c: string)
    ensures a + (b + c) == a + b + c
  {
  }

  /** Good pieces between brackets. */
  lemma GoodBracketed(lineStart: bool, inner: seq<Piece>, after: string)
    requires GoodPieces(false, inner, "]]" + after)
    ensures GoodPieces(lineStart, Bracketed(inner), after)
    ensures RenderPieces(Bracketed(inner)) == "[[" + RenderPieces(inner) + "]]"
  {
    hide Passes, GoodPieces, RenderPieces;
    var closed := inner + [Plain("]]")];
    BracketsPass(LineStartAfter(false, RenderPieces(inner)), "]]", after);
    GoodAppend(false, inner, Plain("]]"), after);
    BracketsPass(lineStart, "[[", RenderPieces(closed) + after);
    GoodOpened(lineStart, closed, after);
    assert [Plain("[[")] + inner + [Plain("]]")] == [Plain("[[")] + closed;
  }

  lemma GoodOpened(lineStart: bool, closed: seq<Piece>, after: string)
    requires GoodPieces(false, closed, after) && Passes(lineStart, "[[", RenderPieces(closed) + after)
    ensures GoodPieces(lineStart, [Plain("[[")] + closed, after)
    ensures RenderPieces([Plain("[[")] + closed) == "[[" + RenderPieces(closed)
  {
    hide Passes;
    var all := [Plain("[[")] + closed;
    assert all[1..] == closed && all[0] == Plain("[[");
    assert !LineStartAfter(lineStart, "[[");
  }

  /** Where brackets are closed on their line, a good link stands. */
  lemma LinkFrom(lineStart: bool, s: string) returns (l: Segment, after: string)
    requires !NoLinkAt(Mask(lineStart, s), 0)
    ensures l.Link? && s == Render(l) + after && |after| < |s|
    ensures forall shown :: GoodSegment(lineStart, l, after, shown)
  {
    hide Mask, CloseOf, RenderPieces, ShownPieces, GoodPieces, Inner, Passes, Bracketed, NoPair, OneLine, EndsIn;
    var masked := Mask(lineStart, s);
    BracketsStay(lineStart, s);
    var body := s[2..];
    assert s == "[[" + body;
    BracketsPass(lineStart, "[[", body);
    MaskOfPassing(lineStart, "[[", body);
    assert masked[2..] == Mask(false, body);
    CloseIsFirst(Mask(false, body));
    var inner, rest := PiecesTo(body, CloseOf(Mask(false, body)).value);
    var target, alias := SplitAtPipe(inner);
    l, after := Link(target, alias), rest[2..];
    assert rest == "]]" + after;
    GoodBracketed(lineStart, inner, after);
    assert s == "[[" + RenderPieces(inner) + "]]" + after;
  }

  // ----- Documents -----

  lemma SegmentFrom(lineStart: bool, s: string) returns (seg: Segment, after: string)
    requires s != []
    ensures s == Render(seg) + after && |after| < |s|
    ensures GoodSegment(lineStart, seg, after, Mask(LineStartAfter(lineStart, Render(seg)), after))
  {
    hide OpensFence, GoodSegment, Mask, GoodPiece, LineStartAfter, NoLinkAt;
    if OpensFence(lineStart, s) {
      FenceAtLineStart(lineStart, s);
      seg, after := FenceFrom(s);
    } else if !NoLinkAt(Mask(lineStart, s), 0) {
      seg, after := LinkFrom(lineStart, s);
    } else {
      var p;
      p, after := PieceFrom(lineStart, s);
      seg := Inline(p);
      MaskOfPiece(lineStart, p, after);
      GoodInline(lineStart, p, after, Mask(LineStartAfter(lineStart, RenderPiece(p)), after));
    }
  }

  lemma FenceAtLineStart(lineStart: bool, s: string)
    requires OpensFence(lineStart, s)
    ensures lineStart
  {
  }

  lemma GoodInline(lineStart: bool, p: Piece, after: string, shown: string)
    requires GoodPiece(lineStart, p, after) && NoLinkAt(ShownPiece(p) + shown, 0) && (p.Plain? ==> |p.text| == 1)
    ensures GoodSegment(lineStart, Inline(p), after, shown)
  {
    hide GoodPiece, NoLinkAt;
    if p.InlineCode? {
      NoLinkInCode(RenderPiece(p), shown);
    }
  }

  lemma {:induction false} DocumentFrom(lineStart: bool, s: string) returns (d: seq<Segment>)
    ensures GoodDocument(lineStart, d) && RenderAll(d) == s
    decreases |s|
  {
    hide GoodSegment, Render, Shown, Mask, LineStartAfter;
    if s == [] {
      d := [];
    } else {
      var seg, after := SegmentFrom(lineStart, s);
      var rest := DocumentFrom(LineStartAfter(lineStart, Render(seg)), after);
      MaskOfDocument(LineStartAfter(lineStart, Render(seg)), rest);
      d := [seg] + rest;
      assert d[1..] == rest;
    }
  }

  /** Every text is a good document, and its links are what is extracted: the round trip leaves no text out. */
  lemma EveryTextIsADocument(markdown: string)
    ensures exists d :: GoodDocument(true, d) && RenderAll(d) == markdown && Links(markdown) == Numbered(LinksOf(d))
  {
    hide GoodDocument, RenderAll, Links, LinksOf, Numbered;
    var d := DocumentFrom(true, markdown);
    RoundTrip(d);
  }
}
