/** Splitting the text of a block into overlapping chunks. */
module Chunker {
  import opened Wrappers
  import opened Text

  const CHUNK_MAX_CHARS := 1000
  const CHUNK_OVERLAP_CHARS := 100
  const TARGET_SPLIT_CHARS := 850

  predicate IsBoundary(c: char) {
    c == '\n' || c == '.' || c == '!' || c == '?' || c == '\U{3002}' || c == '\U{FF01}' || c == '\U{FF1F}'
  }

  /** Position `idx` follows a sentence boundary. */
  predicate Splits(chars: string, idx: int)
    requires 0 < idx <= |chars|
  {
    IsBoundary(chars[idx - 1])
  }

  /** `end` is where the window that begins at `start` stops: at the text's end when that is near enough,
      otherwise after the last sentence boundary that leaves more than the overlap, otherwise full. */
  predicate IsWindowEnd(chars: string, start: nat, end: nat) {
    && start < end <= |chars|
    && end <= start + CHUNK_MAX_CHARS
    && if start + CHUNK_MAX_CHARS >= |chars| then end == |chars|
       else
         && start + CHUNK_OVERLAP_CHARS < end
         && (end < start + CHUNK_MAX_CHARS ==> Splits(chars, end))
         && forall idx | start + CHUNK_OVERLAP_CHARS < idx < start + CHUNK_MAX_CHARS
                         && (end < idx || end == start + CHUNK_MAX_CHARS)
              :: !Splits(chars, idx)
  }

  /** The window end is unique. */
  lemma WindowEndIsUnique(chars: string, start: nat, a: nat, b: nat)
    requires IsWindowEnd(chars, start, a) && IsWindowEnd(chars, start, b)
    ensures a == b
  {
    if start + CHUNK_MAX_CHARS < |chars| {
      assert a < start + CHUNK_MAX_CHARS ==> Splits(chars, a);
      assert b < start + CHUNK_MAX_CHARS ==> Splits(chars, b);
    }
  }

  lemma WindowEndBounds(chars: string, start: nat, end: nat)
    requires IsWindowEnd(chars, start, end)
    ensures start < end <= |chars| && (end < |chars| ==> start + CHUNK_OVERLAP_CHARS < end)
  {
  }

  datatype Window = Window(start: nat, end: nat)

  /** The windows of a text from its first window on: they cover it with a fixed overlap. */
  predicate AreWindows(chars: string, start: nat, windows: seq<Window>) {
    && windows != []
    && windows[0].start == start
    && windows[|windows| - 1].end == |chars|
    && (forall i :: 0 <= i < |windows| ==> IsWindowEnd(chars, windows[i].start, windows[i].end))
    && (forall i :: 0 < i < |windows| ==> windows[i].start == windows[i - 1].end - CHUNK_OVERLAP_CHARS)
    && (forall i :: 0 <= i < |windows| - 1 ==> windows[i].end < |chars|)
  }

  predicate InText(chars: string, windows: seq<Window>) {
    forall w :: w in windows ==> w.start <= w.end <= |chars|
  }

  /** What is emitted for the windows: their trimmed texts, without the empty ones. */
  function PartsOf(chars: string, windows: seq<Window>): (parts: seq<string>)
    requires InText(chars, windows)
    ensures |parts| <= |windows|
  {
    if windows == [] then []
    else
      var last := windows[|windows| - 1];
      var trimmed := TrimSpace(chars[last.start..last.end]);
      PartsOf(chars, windows[..|windows| - 1]) + if trimmed == [] then [] else [trimmed]
  }

  /** The two searches of the source, which together find the last boundary beyond the overlap. */
  method FindWindowEnd(chars: string, start: nat) returns (end: nat)
    requires start < |chars|
    ensures IsWindowEnd(chars, start, end)
  {
    var upper := if start + CHUNK_MAX_CHARS < |chars| then start + CHUNK_MAX_CHARS else |chars|;
    end := upper;
    if upper < |chars| {
      var target := if start + TARGET_SPLIT_CHARS < upper then start + TARGET_SPLIT_CHARS else upper;
      var boundary: Option<nat> := None;
      var idx := upper;
      while idx > target
        invariant target <= idx <= upper
        invariant boundary == None
        invariant forall k :: idx <= k < upper ==> !Splits(chars, k)
      {
        idx := idx - 1;
        if IsBoundary(chars[idx - 1]) {
          boundary := Some(idx);
          break;
        }
      }
      if boundary == None {
        var fallbackStart :=
          if start + CHUNK_OVERLAP_CHARS + 1 < target then start + CHUNK_OVERLAP_CHARS + 1 else target;
        idx := target;
        while idx > fallbackStart
          invariant fallbackStart <= idx <= target
          invariant boundary == None
          invariant forall k :: idx <= k < upper ==> !Splits(chars, k)
        {
          idx := idx - 1;
          if IsBoundary(chars[idx - 1]) {
            boundary := Some(idx);
            break;
          }
        }
      }
      if boundary.Some? {
        end := boundary.value;
      }
    }
  }

  /** The windows before the one that begins at `start`. */
  ghost predicate WindowsBefore(chars: string, windows: seq<Window>, start: nat) {
    && start < |chars|
    && (if windows == [] then start == 0
        else windows[0].start == 0 && start == windows[|windows| - 1].end - CHUNK_OVERLAP_CHARS)
    && (forall i :: 0 <= i < |windows| ==>
      IsWindowEnd(chars, windows[i].start, windows[i].end) && windows[i].end < |chars|)
    && (forall i :: 0 < i < |windows| ==> windows[i].start == windows[i - 1].end - CHUNK_OVERLAP_CHARS)
  }

  lemma OneMoreWindow(chars: string, windows: seq<Window>, start: nat, end: nat)
    requires WindowsBefore(chars, windows, start) && IsWindowEnd(chars, start, end)
    ensures end == |chars| ==> AreWindows(chars, 0, windows + [Window(start, end)])
    ensures end < |chars| ==>
      (start < end - CHUNK_OVERLAP_CHARS
        && WindowsBefore(chars, windows + [Window(start, end)], end - CHUNK_OVERLAP_CHARS))
  {
    hide IsWindowEnd;
    WindowEndBounds(chars, start, end);
  }

  lemma OneMorePart(chars: string, windows: seq<Window>, w: Window)
    requires InText(chars, windows + [w])
    ensures InText(chars, windows) && w.start <= w.end <= |chars|
    ensures var trimmed := TrimSpace(chars[w.start..w.end]);
            PartsOf(chars, windows + [w]) == PartsOf(chars, windows) + if trimmed == [] then [] else [trimmed]
  {
    hide TrimSpace;
    var all := windows + [w];
    assert all[..|all| - 1] == windows && w in all;
    forall v | v in windows ensures v.start <= v.end <= |chars| {
      assert v in all;
    }
  }

  method SplitChunkText(input: string) returns (parts: seq<string>, ghost windows: seq<Window>)
    ensures |input| <= CHUNK_MAX_CHARS ==> parts == [TrimSpace(input)]
    ensures |input| > CHUNK_MAX_CHARS ==>
      AreWindows(input, 0, windows) && InText(input, windows) && parts == PartsOf(input, windows)
  {
    hide IsWindowEnd, TrimSpace, AreWindows, WindowsBefore, PartsOf;
    windows := [];
    if |input| <= CHUNK_MAX_CHARS {
      return [TrimSpace(input)], windows;
    }
    parts := [];
    var start := 0;
    NoWindows(input);
    while start < |input|
      invariant WindowsBefore(input, windows, start) && start < |input|
      invariant InText(input, windows) && parts == PartsOf(input, windows)
      decreases |input| - start
    {
      var end := FindWindowEnd(input, start);
      WindowEndBounds(input, start, end);
      OneMoreWindow(input, windows, start, end);
      OneMorePart(input, windows, Window(start, end));
      windows := windows + [Window(start, end)];
      var trimmed := TrimSpace(input[start..end]);
      if trimmed != [] {
        parts := parts + [trimmed];
      }
      if end == |input| {
        break;
      }
      var next := if end >= CHUNK_OVERLAP_CHARS then end - CHUNK_OVERLAP_CHARS else 0;
      start := if next <= start then end else next;
    }
  }

  lemma NoWindows(chars: string)
    requires chars != []
    ensures WindowsBefore(chars, [], 0) && PartsOf(chars, []) == []
  {
  }

  // ----- Coverage -----

  /** The windows are one sequence only: any two lists of windows of a text agree. */
  lemma {:induction false} WindowsAreUnique(chars: string, a: seq<Window>, b: seq<Window>, n: nat)
    requires AreWindows(chars, 0, a) && AreWindows(chars, 0, b) && n <= |a|
    ensures n <= |b| && a[..n] == b[..n]
  {
    hide IsWindowEnd;
    if n > 0 {
      WindowsAreUnique(chars, a, b, n - 1);
      if n > 1 {
        assert a[n - 2] == a[..n - 1][n - 2] == b[n - 2];
      }
      WindowEndIsUnique(chars, a[n - 1].start, a[n - 1].end, b[n - 1].end);
      assert a[..n] == a[..n - 1] + [a[n - 1]] && b[..n] == b[..n - 1] + [b[n - 1]];
    }
  }

  /** A window that holds `position`. */
  lemma {:induction false} WindowHolding(chars: string, windows: seq<Window>, position: nat, from: nat) returns (i: nat)
    requires AreWindows(chars, 0, windows) && from < |windows| && windows[from].start <= position < |chars|
    ensures from <= i < |windows| && windows[i].start <= position < windows[i].end
    decreases |windows| - from
  {
    hide IsWindowEnd;
    if position < windows[from].end {
      i := from;
    } else {
      i := WindowHolding(chars, windows, position, from + 1);
    }
  }

  lemma {:induction false} PartOfWindow(chars: string, windows: seq<Window>, i: nat) returns (k: nat)
    requires InText(chars, windows)
    requires i < |windows| && TrimSpace(chars[windows[i].start..windows[i].end]) != []
    ensures k < |PartsOf(chars, windows)|
      && PartsOf(chars, windows)[k] == TrimSpace(chars[windows[i].start..windows[i].end])
  {
    hide TrimSpace;
    if i == |windows| - 1 {
      k := |PartsOf(chars, windows)| - 1;
    } else {
      assert windows[..|windows| - 1][i] == windows[i];
      k := PartOfWindow(chars, windows[..|windows| - 1], i);
    }
  }

  lemma SliceOfSlice(s: string, a: nat, b: nat, i: nat, j: nat)
    requires a <= b <= |s| && i <= j <= b - a
    ensures s[a..b][i..j] == s[a + i..a + j]
  {
    assert |s[a..b][i..j]| == |s[a + i..a + j]|;
    forall k | 0 <= k < j - i ensures s[a..b][i..j][k] == s[a + i..a + j][k] {
      assert s[a..b][i..j][k] == s[a..b][i + k] == s[a + (i + k)];
    }
  }

  lemma WindowsAreInText(chars: string, windows: seq<Window>)
    requires AreWindows(chars, 0, windows)
    ensures InText(chars, windows)
  {
    forall w | w in windows ensures w.start <= w.end <= |chars| {
      var i :| 0 <= i < |windows| && windows[i] == w;
    }
  }

  /** No non-space character is lost: some part is a stretch of the text around it. */
  lemma EveryCharacterKept(chars: string, windows: seq<Window>, position: nat) returns (k: nat, from: nat)
    requires AreWindows(chars, 0, windows) && position < |chars| && !IsSpace(chars[position])
    ensures k < |PartsOf(chars, windows)| && from <= position < from + |PartsOf(chars, windows)[k]| <= |chars|
    ensures PartsOf(chars, windows)[k] == chars[from..from + |PartsOf(chars, windows)[k]|]
  {
    hide IsSpace, TrimSpace, TrimLeft, PartsOf, IsWindowEnd;
    WindowsAreInText(chars, windows);
    var i := WindowHolding(chars, windows, position, 0);
    var w := windows[i];
    var text := chars[w.start..w.end];
    assert text[position - w.start] == chars[position];
    TrimSpaceKeeps(text, position - w.start);
    k := PartOfWindow(chars, windows, i);
    var skipped := |text| - |TrimLeft(text)|;
    from := w.start + skipped;
    SliceOfSlice(chars, w.start, w.end, skipped, skipped + |TrimSpace(text)|);
  }

  // ----- What windows and parts are -----

  predicate EndsSentence(c: char) {
    c in "\n.!?\U{3002}\U{FF01}\U{FF1F}"
  }

  lemma BoundariesEndSentences(c: char)
    ensures IsBoundary(c) <==> EndsSentence(c)
  {
  }

  /** A window of at most 1000 characters ends the text when it reaches its end; otherwise it ends at the last sentence
      end among its characters 101 to 999, or is full when there is none. The next begins 100 characters before its
      end. */
  lemma WindowsEndSentences(chars: string, windows: seq<Window>, i: nat)
    requires AreWindows(chars, 0, windows) && i < |windows|
    ensures windows[0].start == 0 && windows[|windows| - 1].end == |chars|
    ensures i > 0 ==> windows[i].start == windows[i - 1].end - 100
    ensures var Window(start, end) := windows[i];
            && start < end <= |chars| && end - start <= 1000 && (end == |chars| <==> i == |windows| - 1)
            && (|chars| - start <= 1000 ==> end == |chars|)
            && (|chars| - start > 1000 ==>
                  && end - start > 100 && (end - start < 1000 ==> EndsSentence(chars[end - 1]))
                  && forall k :: start + 100 <= k < start + 999 && (k >= end || end - start == 1000) ==>
                       !EndsSentence(chars[k]))
  {
    hide IsBoundary, EndsSentence;
    var Window(start, end) := windows[i];
    assert IsWindowEnd(chars, start, end);
    BoundariesEndSentences(chars[end - 1]);
    forall k | |chars| - start > 1000 && start + 100 <= k < start + 999 && (k >= end || end - start == 1000)
      ensures !EndsSentence(chars[k])
    {
      BoundariesEndSentences(chars[k]);
      assert !Splits(chars, k + 1);
    }
  }

  /** The parts of a list of windows are those of its pieces, in order; a single window gives its text without the
      spaces around it, or nothing when that is empty. */
  lemma {:induction false} PartsJoin(chars: string, a: seq<Window>, b: seq<Window>, w: Window)
    requires InText(chars, a + b) && InText(chars, [w])
    ensures InText(chars, a) && InText(chars, b) && PartsOf(chars, a + b) == PartsOf(chars, a) + PartsOf(chars, b)
    ensures w in [w] && PartsOf(chars, [w]) ==
      if TrimSpace(chars[w.start..w.end]) == [] then [] else [TrimSpace(chars[w.start..w.end])]
    decreases |b|
  {
    hide TrimSpace;
    assert forall v :: v in a ==> v in a + b;
    assert forall v :: v in b ==> v in a + b;
    assert [w][..0] == [];
    if b == [] {
      assert a + b == a;
    } else {
      var init := b[..|b| - 1];
      assert (a + b)[..|a + b| - 1] == a + init;
      assert forall v :: v in a + init ==> v in a + b;
      PartsJoin(chars, a, init, w);
    }
  }

  // ----- How many parts -----

  /** Two steps move the end by at least 900, or reach the end of the text. */
  lemma TwoStepsAdvance(chars: string, windows: seq<Window>, i: nat)
    requires AreWindows(chars, 0, windows) && i + 2 < |windows|
    ensures windows[i + 2].end >= windows[i].end + 900 || windows[i + 2].end == |chars|
  {
    var first, second, third := windows[i], windows[i + 1], windows[i + 2];
    assert second.start == first.end - CHUNK_OVERLAP_CHARS && third.start == second.end - CHUNK_OVERLAP_CHARS;
    assert IsWindowEnd(chars, second.start, second.end) && IsWindowEnd(chars, third.start, third.end);
  }

  lemma {:induction false} EndsGrow(chars: string, windows: seq<Window>, k: nat)
    requires AreWindows(chars, 0, windows) && |chars| > CHUNK_MAX_CHARS && 2 * k < |windows|
    ensures windows[2 * k].end >= 101 + 900 * k || windows[2 * k].end == |chars|
  {
    hide IsWindowEnd;
    if k == 0 {
      FirstWindowIsLong(chars, windows[0].end);
    } else {
      EndsGrow(chars, windows, k - 1);
      TwoStepsAdvance(chars, windows, 2 * k - 2);
    }
  }

  lemma FirstWindowIsLong(chars: string, end: nat)
    requires IsWindowEnd(chars, 0, end) && |chars| > CHUNK_MAX_CHARS
    ensures end >= 101
  {
  }

  /** The number of parts is linear in the length of the text, with a constant below 1/450. */
  lemma PartsAreLinear(chars: string, windows: seq<Window>)
    requires AreWindows(chars, 0, windows) && |chars| > CHUNK_MAX_CHARS
    ensures |PartsOf(chars, windows)| <= |windows| <= 2 * ((|chars| - 101 + 899) / 900) + 1
  {
    hide IsWindowEnd, PartsOf;
    var k := (|chars| - 101 + 899) / 900;
    if |windows| > 2 * k + 1 {
      EndsGrow(chars, windows, k);
      assert false;
    }
  }

  /** Neighbouring windows share exactly the overlap, and every window is at most the maximum long. */
  lemma OverlapIsExact(chars: string, windows: seq<Window>, i: nat)
    requires AreWindows(chars, 0, windows) && 0 < i < |windows|
    ensures chars[windows[i].start..windows[i - 1].end] == chars[windows[i - 1].start..windows[i - 1].end]
              [windows[i - 1].end - windows[i - 1].start - CHUNK_OVERLAP_CHARS..]
    ensures windows[i - 1].end - windows[i].start == CHUNK_OVERLAP_CHARS
    ensures windows[i].end - windows[i].start <= CHUNK_MAX_CHARS && windows[i - 1].start < windows[i].start
    ensures windows[i - 1].end < windows[i].end
  {
  }
}
