/** The string operations the components share: trimming, hexadecimal digests and lexicographic sorting. */
module Text {

  /** The White_Space property, which both Go's unicode.IsSpace and Rust's char::is_whitespace use,
      as inclusive ranges of code points. */
  const SPACE_RANGES: seq<(int, int)> :=
    [(9, 13), (32, 32), (0x85, 0x85), (0xA0, 0xA0), (0x1680, 0x1680), (0x2000, 0x200A), (0x2028, 0x2029),
     (0x202F, 0x202F), (0x205F, 0x205F), (0x3000, 0x3000)]

  predicate InRanges(code: int, ranges: seq<(int, int)>) {
    ranges != [] && (ranges[0].0 <= code <= ranges[0].1 || InRanges(code, ranges[1..]))
  }

  predicate IsSpace(c: char) {
    InRanges(c as int, SPACE_RANGES)
  }

  function TrimLeft(s: string): (r: string)
    ensures |r| <= |s| && r == s[|s| - |r|..]
    ensures r != [] ==> !IsSpace(r[0])
    ensures forall i :: 0 <= i < |s| - |r| ==> IsSpace(s[i])
    ensures forall c :: c in r ==> c in s
  {
    if s != [] && IsSpace(s[0]) then TrimLeft(s[1..]) else s
  }

  function TrimRight(s: string): (r: string)
    ensures |r| <= |s| && r == s[..|r|]
    ensures r != [] ==> !IsSpace(r[|r| - 1])
    ensures forall i :: |r| <= i < |s| ==> IsSpace(s[i])
    ensures forall c :: c in r ==> c in s
  {
    if s != [] && IsSpace(s[|s| - 1]) then TrimRight(s[..|s| - 1]) else s
  }

  function TrimSpace(s: string): string {
    TrimRight(TrimLeft(s))
  }

  /** A string with no space at either end; the empty string qualifies. */
  predicate Trimmed(s: string) {
    s != [] ==> !IsSpace(s[0]) && !IsSpace(s[|s| - 1])
  }

  /** Trimming always reaches a trimmed string and leaves a trimmed string alone, hence is idempotent. */
  lemma TrimSpaceIsProjection(s: string)
    ensures Trimmed(TrimSpace(s))
    ensures Trimmed(s) ==> TrimSpace(s) == s
    ensures TrimSpace(TrimSpace(s)) == TrimSpace(s)
  {
    var left := TrimLeft(s);
    var trimmed := TrimRight(left);
    if trimmed != [] {
      assert trimmed[0] == left[0];
    }
    assert TrimLeft(trimmed) == trimmed;
  }

  predicate Blank(s: string) {
    forall i :: 0 <= i < |s| ==> IsSpace(s[i])
  }

  /** `t` is `s` with spaces put around it. */
  ghost predicate Padded(s: string, t: string) {
    exists a, b :: Blank(a) && Blank(b) && t == a + s + b
  }

  lemma {:induction false} TrimLeftForgets(a: string, s: string)
    requires Blank(a)
    ensures TrimLeft(a + s) == TrimLeft(s)
  {
    hide IsSpace;
    if a == [] {
      assert a + s == s;
    } else {
      assert (a + s)[1..] == a[1..] + s;
      TrimLeftForgets(a[1..], s);
    }
  }

  lemma {:induction false} TrimRightForgets(s: string, b: string)
    requires Blank(b)
    ensures TrimRight(s + b) == TrimRight(s)
  {
    hide IsSpace;
    if b == [] {
      assert s + b == s;
    } else {
      assert (s + b)[..|s + b| - 1] == s + b[..|b| - 1];
      TrimRightForgets(s, b[..|b| - 1]);
    }
  }

  lemma {:induction false} TrimLeftOfBlank(s: string)
    requires Blank(s)
    ensures TrimLeft(s) == []
  {
    hide IsSpace;
    if s != [] {
      TrimLeftOfBlank(s[1..]);
    }
  }

  lemma {:induction false} TrimLeftExtends(s: string, b: string)
    requires TrimLeft(s) != []
    ensures TrimLeft(s + b) == TrimLeft(s) + b
  {
    hide IsSpace;
    if s != [] && IsSpace(s[0]) {
      assert (s + b)[1..] == s[1..] + b;
      TrimLeftExtends(s[1..], b);
    }
  }

  /** Trimming forgets the spaces around a text. */
  lemma TrimForgetsPadding(s: string, t: string)
    requires Padded(s, t)
    ensures TrimSpace(t) == TrimSpace(s)
  {
    hide IsSpace, TrimLeft, TrimRight, Blank;
    var a, b :| Blank(a) && Blank(b) && t == a + s + b;
    assert a + s + b == a + (s + b);
    TrimLeftForgets(a, s + b);
    if TrimLeft(s) == [] {
      AllBlank(s);
      TrimLeftForgets(s, b);
      TrimLeftOfBlank(b);
    } else {
      TrimLeftExtends(s, b);
      TrimRightForgets(TrimLeft(s), b);
    }
  }

  lemma AllBlank(s: string)
    requires TrimLeft(s) == []
    ensures Blank(s)
  {
  }

  /** Nothing is left of a text exactly when it is all spaces. */
  lemma BlankIsTrimmedAway(s: string)
    ensures Blank(s) <==> TrimSpace(s) == []
  {
    hide IsSpace, Blank;
    if TrimSpace(s) == [] {
      TrimRightOfText(TrimLeft(s));
      AllBlank(s);
    }
    if Blank(s) {
      TrimLeftOfBlank(s);
    }
  }

  lemma TrimRightOfText(s: string)
    requires TrimRight(s) == [] && (s != [] ==> !IsSpace(s[0]))
    ensures s == []
  {
  }

  /** A non-space character survives trimming: every dropped position holds a space. */
  lemma TrimSpaceKeeps(s: string, i: nat)
    requires i < |s| && !IsSpace(s[i])
    ensures |s| - |TrimLeft(s)| <= i < |s| - |TrimLeft(s)| + |TrimSpace(s)| <= |s|
    ensures TrimSpace(s) == s[|s| - |TrimLeft(s)|..|s| - |TrimLeft(s)| + |TrimSpace(s)|]
  {
    hide IsSpace, TrimLeft, TrimRight;
    var left := TrimLeft(s);
    var skipped := |s| - |left|;
    assert i >= skipped;
    var k := i - skipped;
    assert left[k] == s[i];
    assert k < |TrimRight(left)|;
  }

  /** Lower-casing restricted to ASCII: no other character lower-cases to a hexadecimal digit, so a
      digest is accepted exactly when it is under full Unicode lower-casing. */
  function ToLower(s: string): (r: string)
    ensures |r| == |s|
    ensures forall i :: 0 <= i < |s| ==> r[i] == LowerChar(s[i])
  {
    if s == [] then [] else [LowerChar(s[0])] + ToLower(s[1..])
  }

  function LowerChar(c: char): char {
    if 'A' <= c <= 'Z' then (c as int + 32) as char else c
  }

  predicate IsHexDigit(c: char) {
    '0' <= c <= '9' || 'a' <= c <= 'f' || 'A' <= c <= 'F'
  }

  /** The hexadecimal digits, in either case. */
  lemma HexDigitsAre(c: char, i: nat)
    ensures IsHexDigit(c) <==> c in "0123456789abcdefABCDEF"
    ensures i < 6 ==> LowerChar("ABCDEF"[i]) == "abcdef"[i]
    ensures c in "0123456789abcdef" ==> LowerChar(c) == c
  {
  }

  /** A lower-case SHA-256 digest in hexadecimal. */
  predicate IsDigest(s: string) {
    |s| == 64 && forall c :: c in s ==> IsHexDigit(c) && LowerChar(c) == c
  }

  /** The normal form of a digest argument; the caller then checks the length and the digits. */
  function NormalizeDigest(s: string): string {
    ToLower(TrimSpace(s))
  }

  predicate IsHexOfDigestLength(s: string) {
    |s| == 64 && forall c :: c in s ==> IsHexDigit(c)
  }

  lemma LowerIsIdempotent(c: char)
    ensures LowerChar(LowerChar(c)) == LowerChar(c)
  {
  }

  lemma LoweredStays(s: string)
    ensures forall c :: c in ToLower(s) ==> LowerChar(c) == c
    ensures (forall c :: c in s ==> LowerChar(c) == c) ==> ToLower(s) == s
  {
    hide LowerChar;
    forall i | 0 <= i < |s| ensures LowerChar(ToLower(s)[i]) == ToLower(s)[i] {
      LowerIsIdempotent(s[i]);
    }
  }

  lemma DigestIsTrimmed(s: string)
    requires IsDigest(s)
    ensures TrimSpace(s) == s
  {
    hide IsSpace, IsHexDigit, LowerChar, TrimSpace;
    assert s[0] in s && s[63] in s;
    HexDigitIsNotSpace(s[0]);
    HexDigitIsNotSpace(s[63]);
    TrimSpaceIsProjection(s);
  }

  lemma NormalizeDigestIsProjection(s: string)
    ensures IsHexOfDigestLength(NormalizeDigest(s)) ==> IsDigest(NormalizeDigest(s))
    ensures IsDigest(s) ==> NormalizeDigest(s) == s
  {
    hide TrimSpace, ToLower, IsHexDigit, LowerChar;
    LoweredStays(TrimSpace(s));
    if IsDigest(s) {
      DigestIsTrimmed(s);
    }
  }

  lemma HexDigitIsNotSpace(c: char)
    requires IsHexDigit(c)
    ensures !IsSpace(c)
  {
    NotInRanges(c as int, SPACE_RANGES, '0' as int, 'f' as int);
  }

  lemma {:induction false} NotInRanges(code: int, ranges: seq<(int, int)>, low: int, high: int)
    requires low <= code <= high
    requires forall r :: r in ranges ==> r.1 < low || high < r.0
    ensures !InRanges(code, ranges)
  {
    if ranges != [] {
      NotInRanges(code, ranges[1..], low, high);
    }
  }

  /** Lexicographic order by code point, which is the byte order of UTF-8 text. */
  predicate LexLe(a: string, b: string) {
    a == [] || (b != [] && (a[0] < b[0] || (a[0] == b[0] && LexLe(a[1..], b[1..]))))
  }

  lemma LexTotal(a: string, b: string)
    ensures LexLe(a, b) || LexLe(b, a)
  {
  }

  lemma {:induction false} LexAntisymmetric(a: string, b: string)
    requires LexLe(a, b) && LexLe(b, a)
    ensures a == b
  {
    if a != [] && b != [] {
      LexAntisymmetric(a[1..], b[1..]);
      assert a == [a[0]] + a[1..] && b == [b[0]] + b[1..];
    }
  }

  lemma {:induction false} LexTransitive(a: string, b: string, c: string)
    requires LexLe(a, b) && LexLe(b, c)
    ensures LexLe(a, c)
  {
    if a != [] && a[0] == b[0] && b[0] == c[0] {
      LexTransitive(a[1..], b[1..], c[1..]);
    }
  }

  predicate Sorted(s: seq<string>) {
    forall i :: 0 < i < |s| ==> LexLe(s[i - 1], s[i])
  }

  function Insert(x: string, s: seq<string>): (r: seq<string>)
    requires Sorted(s)
    ensures Sorted(r) && multiset(r) == multiset{x} + multiset(s)
    ensures r != [] && (r[0] == x || (s != [] && r[0] == s[0]))
  {
    if s == [] || LexLe(x, s[0]) then [x] + s
    else
      assert s == [s[0]] + s[1..];
      LexTotal(x, s[0]);
      [s[0]] + Insert(x, s[1..])
  }

  /** The specification of sort.Strings. */
  function Sort(s: seq<string>): (r: seq<string>)
    ensures Sorted(r) && multiset(r) == multiset(s)
  {
    if s == [] then [] else
      assert s == [s[0]] + s[1..];
      Insert(s[0], Sort(s[1..]))
  }

  lemma {:induction false} SortOfSorted(s: seq<string>)
    requires Sorted(s)
    ensures Sort(s) == s
  {
    if s != [] {
      assert s == [s[0]] + s[1..];
      SortOfSorted(s[1..]);
    }
  }

  lemma {:induction false} SortedHeadIsLeast(s: seq<string>, k: nat)
    requires Sorted(s) && k < |s|
    ensures LexLe(s[0], s[k])
  {
    hide LexLe;
    if k == 0 {
      LexTotal(s[0], s[0]);
    } else {
      SortedHeadIsLeast(s, k - 1);
      LexTransitive(s[0], s[k - 1], s[k]);
    }
  }

  lemma SortedHeadBelow(s: seq<string>, x: string)
    requires Sorted(s) && x in multiset(s)
    ensures s != [] && LexLe(s[0], x)
  {
    hide LexLe, Sorted;
    var k :| 0 <= k < |s| && s[k] == x;
    SortedHeadIsLeast(s, k);
  }

  lemma SortedHeadsAgree(s: seq<string>, t: seq<string>)
    requires Sorted(s) && Sorted(t) && multiset(s) == multiset(t) && s != []
    ensures t != [] && s[0] == t[0]
  {
    hide LexLe, Sorted;
    assert s[0] in multiset(t);
    SortedHeadBelow(t, s[0]);
    assert t[0] in multiset(s);
    SortedHeadBelow(s, t[0]);
    LexAntisymmetric(s[0], t[0]);
  }

  lemma TailsAgree(s: seq<string>, t: seq<string>)
    requires s != [] && t != [] && s[0] == t[0] && multiset(s) == multiset(t)
    ensures multiset(s[1..]) == multiset(t[1..])
  {
    assert s == [s[0]] + s[1..] && t == [t[0]] + t[1..];
    assert multiset(s[1..]) == multiset(s) - multiset{s[0]} == multiset(t[1..]);
  }

  lemma SortedTail(s: seq<string>)
    requires Sorted(s) && s != []
    ensures Sorted(s[1..])
  {
    hide LexLe;
  }

  /** A multiset of strings has one sorted listing, so sorting forgets the order of its input. */
  lemma {:induction false} SortedIsCanonical(s: seq<string>, t: seq<string>)
    requires Sorted(s) && Sorted(t) && multiset(s) == multiset(t)
    ensures s == t
  {
    hide LexLe, Sorted;
    if s == [] {
      assert |multiset(t)| == 0;
    } else {
      SortedHeadsAgree(s, t);
      TailsAgree(s, t);
      SortedTail(s);
      SortedTail(t);
      SortedIsCanonical(s[1..], t[1..]);
      assert s == [s[0]] + s[1..] && t == [t[0]] + t[1..];
    }
  }

  predicate HasDuplicate<T(==)>(s: seq<T>) {
    exists i, j :: 0 <= i < j < |s| && s[i] == s[j]
  }

  lemma HeadDuplicate(s: seq<string>)
    requires s != []
    ensures HasDuplicate(s) <==> s[0] in s[1..] || HasDuplicate(s[1..])
  {
    if HasDuplicate(s) {
      var i, j :| 0 <= i < j < |s| && s[i] == s[j];
      assert s[1..][j - 1] == s[j] && (i > 0 ==> s[1..][i - 1] == s[i]);
    }
    if s[0] in s[1..] {
      var j :| 0 <= j < |s[1..]| && s[1..][j] == s[0];
      assert s[j + 1] == s[0];
    }
    if HasDuplicate(s[1..]) {
      var i, j :| 0 <= i < j < |s[1..]| && s[1..][i] == s[1..][j];
      assert s[i + 1] == s[j + 1];
    }
  }
}
