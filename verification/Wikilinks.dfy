/** Extraction of wikilinks from Markdown: code is masked, then the masked text is scanned. */
module Wikilinks {
  import opened Wrappers
  import opened Text

  datatype Extracted = Extracted(target: string, alias: Option<string>, ordinal: nat)

  // ----- Specification: masking, on the text that remains -----

  function MaskChar(c: char): char {
    if c == '\n' || c == '\r' then c else ' '
  }

  function Masked(s: string): (r: string)
    ensures |r| == |s| && forall i :: 0 <= i < |s| ==> r[i] == MaskChar(s[i])
  {
    if s == [] then [] else [MaskChar(s[0])] + Masked(s[1..])
  }

  /** The number of leading occurrences of `c`. */
  function Run(s: string, c: char): (n: nat)
    ensures n <= |s| && (forall i :: 0 <= i < n ==> s[i] == c) && (n < |s| ==> s[n] != c)
  {
    if s != [] && s[0] == c then 1 + Run(s[1..], c) else 0
  }

  predicate OpensFence(lineStart: bool, s: string) {
    lineStart && s != [] && (s[0] == '`' || s[0] == '~') && Run(s, s[0]) >= 3
  }

  function LineLength(s: string): (n: nat)
    ensures n <= |s| && (s != [] ==> n > 0)
  {
    if s == [] then 0 else if s[0] == '\n' then 1 else 1 + LineLength(s[1..])
  }

  /** How much of `s` is up to and including the first line that closes the fence; all of it when none does. */
  function ClosedBy(lineStart: bool, s: string, fence: char, length: nat): (n: nat)
    ensures n <= |s|
    decreases |s|
  {
    if s == [] then 0
    else if lineStart && Run(s, fence) >= length then LineLength(s)
    else 1 + ClosedBy(s[0] == '\n', s[1..], fence, length)
  }

  function FenceSpan(s: string): (n: nat)
    requires s != []
    ensures 0 < n <= |s|
  {
    1 + ClosedBy(false, s[1..], s[0], Run(s, s[0]))
  }

  /** The first run of at least `length` backticks. */
  function FindTicks(s: string, length: nat): (r: Option<nat>)
    requires length > 0
    ensures r.Some? ==> r.value + length <= |s|
  {
    if s == [] then None
    else if Run(s, '`') >= length then Some(0)
    else
      match FindTicks(s[1..], length)
      case None => None
      case Some(k) => Some(k + 1)
  }

  /** The length of the code region that begins here, 0 when none does. */
  function CodeSpan(lineStart: bool, s: string): (n: nat)
    ensures n <= |s|
  {
    if s == [] then 0
    else if OpensFence(lineStart, s) then FenceSpan(s)
    else if s[0] == '`' then
      var run := Run(s, '`');
      match FindTicks(s[run..], run)
      case None => 0
      case Some(k) => run + k + run
    else 0
  }

  function Mask(lineStart: bool, s: string): (r: string)
    decreases |s|
  {
    if s == [] then []
    else
      var span := CodeSpan(lineStart, s);
      if span > 0 then Masked(s[..span]) + Mask(s[span - 1] == '\n', s[span..])
      else [s[0]] + Mask(s[0] == '\n', s[1..])
  }

  // ----- Specification: scanning -----

  /** Where a link body ends: at the first "]]" with no line break before it. */
  function CloseOf(body: string): (r: Option<nat>)
    ensures r.Some? ==> r.value + 2 <= |body|
  {
    if |body| < 2 || body[0] == '\n' || body[0] == '\r' then None
    else if body[0] == ']' && body[1] == ']' then Some(0)
    else
      match CloseOf(body[1..])
      case None => None
      case Some(k) => Some(k + 1)
  }

  function PipeOf(inner: string): (n: nat)
    ensures n <= |inner| && '|' !in inner[..n] && (n < |inner| ==> inner[n] == '|')
  {
    if inner == [] || inner[0] == '|' then 0
    else
      var n := 1 + PipeOf(inner[1..]);
      assert inner[..n] == [inner[0]] + inner[1..][..n - 1];
      n
  }

  function Finalize(target: string, alias: Option<string>): Option<(string, Option<string>)> {
    if TrimSpace(target) == [] then None
    else if alias.None? then Some((TrimSpace(target), None))
    else if TrimSpace(alias.value) == [] then None
    else Some((TrimSpace(target), Some(TrimSpace(alias.value))))
  }

  /** The link a body stands for, if any. */
  function LinkOf(inner: string): Option<(string, Option<string>)> {
    var pipe := PipeOf(inner);
    Finalize(inner[..pipe], if pipe < |inner| then Some(inner[pipe + 1..]) else None)
  }

  function Emit(link: Option<(string, Option<string>)>): seq<(string, Option<string>)> {
    if link.Some? then [link.value] else []
  }

  function Scan(s: string): seq<(string, Option<string>)>
    decreases |s|
  {
    if |s| < 2 then []
    else if s[0] != '[' || s[1] != '[' then Scan(s[1..])
    else
      match CloseOf(s[2..])
      case None => Scan(s[2..])
      case Some(k) => Emit(LinkOf(s[2..][..k])) + Scan(s[2 + k + 2..])
  }

  function Numbered(links: seq<(string, Option<string>)>): (r: seq<Extracted>)
    ensures |r| == |links|
    ensures forall i :: 0 <= i < |links| ==> r[i] == Extracted(links[i].0, links[i].1, i)
  {
    seq(|links|, i requires 0 <= i < |links| => Extracted(links[i].0, links[i].1, i))
  }

  /** What extraction returns. */
  function Links(markdown: string): seq<Extracted> {
    Numbered(Scan(Mask(true, markdown)))
  }

  // ----- The loops of the source -----

  method CountRun(chars: string, start: nat, needle: char) returns (count: nat)
    requires start <= |chars|
    ensures count == Run(chars[start..], needle)
  {
    count := 0;
    var idx := start;
    while idx < |chars| && chars[idx] == needle
      invariant start <= idx <= |chars|
      invariant count + Run(chars[idx..], needle) == Run(chars[start..], needle)
    {
      assert chars[idx..][1..] == chars[idx + 1..];
      count := count + 1;
      idx := idx + 1;
    }
  }

  predicate AtLineStart(chars: string, idx: nat)
    requires idx <= |chars|
  {
    idx == 0 || chars[idx - 1] == '\n'
  }

  lemma LineLengthStep(chars: string, idx: nat)
    requires idx < |chars|
    ensures LineLength(chars[idx..]) == if chars[idx] == '\n' then 1 else 1 + LineLength(chars[idx + 1..])
  {
    assert chars[idx..][1..] == chars[idx + 1..];
  }

  lemma ClosedByStep(lineStart: bool, chars: string, idx: nat, fence: char, length: nat)
    requires idx < |chars|
    ensures ClosedBy(lineStart, chars[idx..], fence, length) ==
      if lineStart && Run(chars[idx..], fence) >= length then LineLength(chars[idx..])
      else 1 + ClosedBy(chars[idx] == '\n', chars[idx + 1..], fence, length)
  {
    hide Run, LineLength;
    assert chars[idx..][1..] == chars[idx + 1..];
  }

  lemma MaskedGrows(chars: string, from: nat, to: nat)
    requires from <= to < |chars|
    ensures Masked(chars[from..to]) + [MaskChar(chars[to])] == Masked(chars[from..to + 1])
  {
  }

  /** The search for the closing line begins behind the first character of the fence. */
  lemma FenceBegins(chars: string, start: nat)
    requires start < |chars| && (chars[start] == '`' || chars[start] == '~')
    ensures var length := Run(chars[start..], chars[start]);
            start + FenceSpan(chars[start..])
            == start + 1 + ClosedBy(AtLineStart(chars, start + 1), chars[start + 1..], chars[start], length)
    ensures Masked(chars[start..start]) == []
    ensures forall lineStart, fence, length :: ClosedBy(lineStart, chars[|chars|..], fence, length) == 0
    ensures LineLength(chars[|chars|..]) == 0
  {
    hide Run;
    assert chars[start..][1..] == chars[start + 1..];
  }

  method MaskFencedBlock(chars: string, start: nat, fenceChar: char, fenceLen: nat) returns (masked: string, next: nat)
    requires start < |chars| && OpensFence(AtLineStart(chars, start), chars[start..])
    requires fenceChar == chars[start] && fenceLen == Run(chars[start..], fenceChar)
    ensures next == start + FenceSpan(chars[start..]) && next <= |chars|
    ensures masked == Masked(chars[start..next])
  {
    hide Run, LineLength, MaskChar, Masked, ClosedBy, FenceSpan;
    masked := [];
    var idx := start;
    ghost var total := start + FenceSpan(chars[start..]);
    FenceBegins(chars, start);
    while idx < |chars|
      invariant start <= idx <= |chars| && masked == Masked(chars[start..idx])
      invariant idx > start ==> idx + ClosedBy(AtLineStart(chars, idx), chars[idx..], fenceChar, fenceLen) == total
    {
      var run := CountRun(chars, idx, fenceChar);
      if idx != start && AtLineStart(chars, idx) && run >= fenceLen {
        ClosedByStep(true, chars, idx, fenceChar, fenceLen);
        while idx < |chars|
          invariant start <= idx <= |chars| && masked == Masked(chars[start..idx])
          invariant idx + LineLength(chars[idx..]) == total
        {
          var ch := chars[idx];
          MaskedGrows(chars, start, idx);
          LineLengthStep(chars, idx);
          masked := masked + [MaskChar(ch)];
          idx := idx + 1;
          if ch == '\n' {
            return masked, idx;
          }
        }
        return masked, idx;
      }
      MaskedGrows(chars, start, idx);
      if idx > start {
        ClosedByStep(AtLineStart(chars, idx), chars, idx, fenceChar, fenceLen);
      }
      masked := masked + [MaskChar(chars[idx])];
      idx := idx + 1;
    }
    next := idx;
  }

  lemma FindTicksStep(chars: string, idx: nat, length: nat)
    requires idx <= |chars| && length > 0
    ensures FindTicks(chars[idx..], length) ==
      if idx == |chars| then None
      else if Run(chars[idx..], '`') >= length then Some(0)
      else match FindTicks(chars[idx + 1..], length) case None => None case Some(k) => Some(k + 1)
  {
    hide Run;
    if idx < |chars| {
      assert chars[idx..][1..] == chars[idx + 1..];
    }
  }

  method FindBacktickRun(chars: string, start: nat, runLen: nat) returns (r: Option<nat>)
    requires start <= |chars| && runLen > 0
    ensures r == match FindTicks(chars[start..], runLen) case None => None case Some(k) => Some(start + k)
  {
    hide Run, FindTicks;
    var idx := start;
    while idx < |chars|
      invariant start <= idx <= |chars|
      invariant FindTicks(chars[start..], runLen) ==
        match FindTicks(chars[idx..], runLen) case None => None case Some(k) => Some(idx - start + k)
    {
      FindTicksStep(chars, idx, runLen);
      var run := CountRun(chars, idx, '`');
      RunStartsWith(chars[idx..], '`');
      if chars[idx] == '`' && run >= runLen {
        return Some(idx);
      }
      idx := idx + 1;
    }
    FindTicksStep(chars, idx, runLen);
    return None;
  }

  lemma RunStartsWith(s: string, c: char)
    requires s != []
    ensures Run(s, c) > 0 <==> s[0] == c
  {
  }

  lemma SuffixSlices(chars: string, idx: nat, n: nat)
    requires idx + n <= |chars|
    ensures chars[idx..][..n] == chars[idx..idx + n] && chars[idx..][n..] == chars[idx + n..]
  {
  }

  lemma MaskUnfolds(lineStart: bool, s: string)
    requires s != []
    ensures var span := CodeSpan(lineStart, s);
            Mask(lineStart, s) ==
              if span > 0 then Masked(s[..span]) + Mask(s[span - 1] == '\n', s[span..])
              else [s[0]] + Mask(s[0] == '\n', s[1..])
  {
    hide CodeSpan, Masked;
  }

  lemma MaskStep(lineStart: bool, chars: string, idx: nat)
    requires idx < |chars|
    ensures var span := CodeSpan(lineStart, chars[idx..]);
            Mask(lineStart, chars[idx..]) ==
              if span > 0 then Masked(chars[idx..idx + span]) + Mask(chars[idx + span - 1] == '\n', chars[idx + span..])
              else [chars[idx]] + Mask(chars[idx] == '\n', chars[idx + 1..])
  {
    hide CodeSpan, Masked, Mask;
    MaskUnfolds(lineStart, chars[idx..]);
    SuffixSlices(chars, idx, CodeSpan(lineStart, chars[idx..]));
    SuffixSlices(chars, idx, 1);
  }

  lemma SpanOfFence(lineStart: bool, s: string)
    requires OpensFence(lineStart, s)
    ensures CodeSpan(lineStart, s) == FenceSpan(s)
  {
  }

  lemma SpanOfTicks(lineStart: bool, chars: string, idx: nat)
    requires idx < |chars| && !OpensFence(lineStart, chars[idx..])
    ensures chars[idx] != '`' ==> CodeSpan(lineStart, chars[idx..]) == 0
    ensures chars[idx] == '`' ==>
      (var run := Run(chars[idx..], '`');
       run > 0 && CodeSpan(lineStart, chars[idx..]) ==
         match FindTicks(chars[idx + run..], run) case None => 0 case Some(k) => run + k + run)
  {
    hide FindTicks;
    var run := Run(chars[idx..], '`');
    assert chars[idx..][run..] == chars[idx + run..];
  }

  /** What has been written for the first `idx` characters is right. */
  ghost predicate MaskedSoFar(chars: string, idx: nat, output: string) {
    idx <= |chars| && output + Mask(AtLineStart(chars, idx), chars[idx..]) == Mask(true, chars)
  }

  lemma MaskBegins(chars: string)
    ensures MaskedSoFar(chars, 0, [])
  {
    hide Mask;
    assert chars[0..] == chars;
  }

  lemma MaskOneRegion(chars: string, idx: nat, output: string, span: nat)
    requires MaskedSoFar(chars, idx, output) && idx < |chars|
    requires CodeSpan(AtLineStart(chars, idx), chars[idx..]) == span > 0
    ensures idx + span <= |chars| && MaskedSoFar(chars, idx + span, output + Masked(chars[idx..idx + span]))
  {
    hide Mask, Masked, CodeSpan;
    MaskStep(AtLineStart(chars, idx), chars, idx);
    var rest := Mask(AtLineStart(chars, idx + span), chars[idx + span..]);
    assert output + (Masked(chars[idx..idx + span]) + rest) == output + Masked(chars[idx..idx + span]) + rest;
  }

  lemma MaskOneChar(chars: string, idx: nat, output: string)
    requires MaskedSoFar(chars, idx, output) && idx < |chars|
    requires CodeSpan(AtLineStart(chars, idx), chars[idx..]) == 0
    ensures MaskedSoFar(chars, idx + 1, output + [chars[idx]])
  {
    hide Mask, Masked, CodeSpan;
    MaskStep(AtLineStart(chars, idx), chars, idx);
    var rest := Mask(AtLineStart(chars, idx + 1), chars[idx + 1..]);
    assert output + ([chars[idx]] + rest) == output + [chars[idx]] + rest;
  }

  lemma MaskEnds(chars: string, output: string)
    requires MaskedSoFar(chars, |chars|, output)
    ensures output == Mask(true, chars)
  {
    MaskOfEmpty(chars);
  }

  method MaskCodeRegions(chars: string) returns (output: string)
    ensures output == Mask(true, chars)
  {
    hide MaskedSoFar, Mask, Masked, Run, FindTicks, FenceSpan, CodeSpan;
    output := [];
    var idx := 0;
    MaskBegins(chars);
    while idx < |chars|
      invariant idx <= |chars| && MaskedSoFar(chars, idx, output)
      decreases |chars| - idx
    {
      var ch := chars[idx];
      var run := CountRun(chars, idx, ch);
      if (ch == '`' || ch == '~') && AtLineStart(chars, idx) && run >= 3 {
        SpanOfFence(true, chars[idx..]);
        var masked, next := MaskFencedBlock(chars, idx, ch, run);
        MaskOneRegion(chars, idx, output, next - idx);
        output := output + masked;
        idx := next;
        continue;
      }
      SpanOfTicks(AtLineStart(chars, idx), chars, idx);
      if ch == '`' {
        var found := FindBacktickRun(chars, idx + run, run);
        if found.Some? {
          var end := found.value + run;
          MaskOneRegion(chars, idx, output, end - idx);
          output := output + Masked(chars[idx..end]);
          idx := end;
          continue;
        }
      }
      MaskOneChar(chars, idx, output);
      output := output + [ch];
      idx := idx + 1;
    }
    MaskEnds(chars, output);
  }

  lemma MaskOfEmpty(chars: string)
    ensures Mask(AtLineStart(chars, |chars|), chars[|chars|..]) == []
  {
  }

  lemma CloseOfStep(chars: string, cursor: nat)
    requires cursor <= |chars|
    ensures CloseOf(chars[cursor..]) ==
      if cursor + 1 >= |chars| || chars[cursor] == '\n' || chars[cursor] == '\r' then None
      else if chars[cursor] == ']' && chars[cursor + 1] == ']' then Some(0)
      else match CloseOf(chars[cursor + 1..]) case None => None case Some(k) => Some(k + 1)
  {
    if cursor < |chars| {
      assert chars[cursor..][1..] == chars[cursor + 1..];
    }
  }

  lemma {:induction false} PipeOfPrefix(s: string, pipe: nat)
    requires pipe <= |s| && '|' !in s[..pipe] && (pipe < |s| ==> s[pipe] == '|')
    ensures PipeOf(s) == pipe
  {
    hide PipeOf;
    var n := PipeOf(s);
    assert n < |s| ==> s[n] == '|';
    assert forall i :: 0 <= i < pipe ==> s[..pipe][i] == s[i];
    assert forall i :: 0 <= i < n ==> s[..n][i] == s[i];
  }

  lemma ScanUnfolds(s: string)
    requires |s| >= 2
    ensures Scan(s) ==
      if s[0] != '[' || s[1] != '[' then Scan(s[1..])
      else match CloseOf(s[2..])
           case None => Scan(s[2..])
           case Some(k) => Emit(LinkOf(s[2..][..k])) + Scan(s[2 + k + 2..])
  {
    hide CloseOf, LinkOf, Emit;
  }

  lemma ScanStep(chars: string, idx: nat)
    requires idx + 1 < |chars|
    ensures Scan(chars[idx..]) ==
      if chars[idx] != '[' || chars[idx + 1] != '[' then Scan(chars[idx + 1..])
      else match CloseOf(chars[idx + 2..])
           case None => Scan(chars[idx + 2..])
           case Some(k) => Emit(LinkOf(chars[idx + 2..idx + 2 + k])) + Scan(chars[idx + 2 + k + 2..])
  {
    hide Scan, CloseOf, LinkOf, Emit;
    ScanUnfolds(chars[idx..]);
    SuffixSlices(chars, idx, 1);
    SuffixSlices(chars, idx, 2);
    if CloseOf(chars[idx + 2..]).Some? {
      var k := CloseOf(chars[idx + 2..]).value;
      SuffixSlices(chars, idx + 2, k);
      SuffixSlices(chars, idx, 2 + k + 2);
    }
  }

  /** One candidate: the inner loop from `start`, just behind the "[[". */
  method ScanCandidate(chars: string, start: nat) returns (closed: Option<nat>, separator: Option<nat>)
    requires start <= |chars|
    ensures CloseOf(chars[start..]) == match closed case None => None case Some(cursor) => Some(cursor - start)
    ensures closed.Some? ==> start <= closed.value <= |chars| - 2
    ensures closed.Some? ==>
      PipeOf(chars[start..closed.value]) == (if separator.Some? then separator.value else closed.value) - start
    ensures (closed.Some? && separator.Some?) ==> start <= separator.value < closed.value
  {
    hide CloseOf, PipeOf;
    var cursor := start;
    separator := None;
    CloseOfStep(chars, |chars|);
    while cursor + 1 < |chars|
      invariant start <= cursor <= |chars|
      invariant CloseOf(chars[start..]) ==
        match CloseOf(chars[cursor..]) case None => None case Some(k) => Some(cursor - start + k)
      invariant separator == None ==> '|' !in chars[start..cursor]
      invariant separator.Some? ==>
        start <= separator.value < cursor && chars[separator.value] == '|' && '|' !in chars[start..separator.value]
      decreases |chars| - cursor
    {
      CloseOfStep(chars, cursor);
      if chars[cursor] == '\n' || chars[cursor] == '\r' {
        return None, separator;
      }
      assert chars[start..cursor + 1] == chars[start..cursor] + [chars[cursor]];
      if chars[cursor] == '|' && separator.None? {
        separator := Some(cursor);
        cursor := cursor + 1;
        continue;
      }
      if chars[cursor] == ']' && chars[cursor + 1] == ']' {
        var pipe := (if separator.Some? then separator.value else cursor) - start;
        assert chars[start..cursor][..pipe] == chars[start..start + pipe];
        PipeOfPrefix(chars[start..cursor], pipe);
        return Some(cursor), separator;
      }
      cursor := cursor + 1;
    }
    CloseOfStep(chars, cursor);
    closed := None;
  }

  /** The links found in the first `idx` characters, and those still to come. */
  ghost predicate ScannedSoFar(chars: string, idx: nat, results: seq<(string, Option<string>)>) {
    idx <= |chars| && results + Scan(chars[idx..]) == Scan(chars)
  }

  lemma ScanBegins(chars: string)
    ensures ScannedSoFar(chars, 0, [])
  {
    hide Scan;
    assert chars[0..] == chars;
  }

  lemma ScanPasses(chars: string, idx: nat, results: seq<(string, Option<string>)>)
    requires ScannedSoFar(chars, idx, results) && idx + 1 < |chars|
    ensures (chars[idx] != '[' || chars[idx + 1] != '[') ==> ScannedSoFar(chars, idx + 1, results)
    ensures (chars[idx] == '[' && chars[idx + 1] == '[' && CloseOf(chars[idx + 2..]).None?) ==>
      ScannedSoFar(chars, idx + 2, results)
  {
    hide Scan, CloseOf, LinkOf, Emit;
    ScanStep(chars, idx);
  }

  lemma ScanFinds(chars: string, idx: nat, results: seq<(string, Option<string>)>, k: nat)
    requires ScannedSoFar(chars, idx, results) && idx + 1 < |chars| && chars[idx] == '[' && chars[idx + 1] == '['
    requires CloseOf(chars[idx + 2..]) == Some(k)
    ensures ScannedSoFar(chars, idx + 2 + k + 2, results + Emit(LinkOf(chars[idx + 2..idx + 2 + k])))
  {
    hide Scan, CloseOf, LinkOf, Emit;
    ScanStep(chars, idx);
    var found, rest := Emit(LinkOf(chars[idx + 2..idx + 2 + k])), Scan(chars[idx + 2 + k + 2..]);
    assert results + (found + rest) == results + found + rest;
  }

  lemma ScanEnds(chars: string, idx: nat, results: seq<(string, Option<string>)>)
    requires ScannedSoFar(chars, idx, results) && idx + 1 >= |chars|
    ensures results == Scan(chars)
  {
    ScanOfShort(chars[idx..]);
  }

  method ScanTextForWikilinks(chars: string) returns (results: seq<(string, Option<string>)>)
    ensures results == Scan(chars)
  {
    hide ScannedSoFar, Scan, CloseOf, PipeOf, Finalize, LinkOf;
    results := [];
    var idx := 0;
    ScanBegins(chars);
    while idx + 1 < |chars|
      invariant idx <= |chars| && ScannedSoFar(chars, idx, results)
      decreases |chars| - idx
    {
      ScanPasses(chars, idx, results);
      if chars[idx] != '[' || chars[idx + 1] != '[' {
        idx := idx + 1;
        continue;
      }
      var start := idx + 2;
      var closed, separator := ScanCandidate(chars, start);
      if closed.Some? {
        var cursor := closed.value;
        var target := chars[start..if separator.Some? then separator.value else cursor];
        var alias := if separator.Some? then Some(chars[separator.value + 1..cursor]) else None;
        SlicesOfInner(chars, start, cursor, separator);
        ScanFinds(chars, idx, results, cursor - start);
        var link := Finalize(target, alias);
        assert results + [] == results;
        if link.Some? {
          results := results + [link.value];
        }
        idx := cursor + 2;
      } else {
        idx := start;
      }
    }
    ScanEnds(chars, idx, results);
  }

  lemma ScanOfShort(s: string)
    requires |s| < 2
    ensures Scan(s) == []
  {
  }

  lemma SlicesOfInner(chars: string, start: nat, cursor: nat, separator: Option<nat>)
    requires start <= cursor <= |chars|
    requires separator.Some? ==> start <= separator.value < cursor
    requires PipeOf(chars[start..cursor]) == (if separator.Some? then separator.value else cursor) - start
    ensures LinkOf(chars[start..cursor]) ==
      Finalize(chars[start..if separator.Some? then separator.value else cursor],
               if separator.Some? then Some(chars[separator.value + 1..cursor]) else None)
  {
    hide Finalize, PipeOf;
    var inner := chars[start..cursor];
    var pipe := PipeOf(inner);
    assert inner[..pipe] == chars[start..start + pipe];
    if separator.Some? {
      assert inner[pipe + 1..] == chars[separator.value + 1..cursor];
    }
  }

  method ExtractWikilinks(markdown: string) returns (links: seq<Extracted>)
    ensures links == Links(markdown)
  {
    var sanitized := MaskCodeRegions(markdown);
    var found := ScanTextForWikilinks(sanitized);
    links := Numbered(found);
  }
}
