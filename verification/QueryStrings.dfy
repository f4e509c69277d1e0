/** What encoding, decoding and lookup give, in terms of the characters, escapes and parameters a text is made of. */
module QueryStrings {
  import opened Wrappers
  import opened Utf8
  import opened QueryParams

  // ----- Encoding, byte by byte -----

  predicate Between(b: byte, low: char, high: char) {
    low as int <= b <= high as int
  }

  /** Letters, digits, hyphen, underscore, period and tilde (RFC 3986, section 2.3). */
  predicate StaysPlain(b: byte) {
    Between(b, 'A', 'Z') || Between(b, 'a', 'z') || Between(b, '0', '9')
    || Between(b, '-', '-') || Between(b, '_', '_') || Between(b, '.', '.') || Between(b, '~', '~')
  }

  function UpperHex(n: int): byte
    requires 0 <= n < 16
  {
    "0123456789ABCDEF"[n] as int
  }

  /** Encoding goes byte by byte: unreserved characters stay, any other byte becomes a percent sign and its two
      upper-case hexadecimal digits. */
  lemma EncodesByteByByte(a: Bytes, b: byte)
    ensures Encode([]) == []
    ensures Encode(a + [b]) ==
      Encode(a) + if StaysPlain(b) then [b] else ['%' as int, UpperHex(b / 16), UpperHex(b % 16)]
  {
    hide EncodeByte;
    EncodeJoins(a, [b]);
    assert [b][1..] == [];
    OneByte(b);
  }

  lemma OneByte(b: byte)
    ensures EncodeByte(b) == if StaysPlain(b) then [b] else ['%' as int, UpperHex(b / 16), UpperHex(b % 16)]
  {
    hide HexDigit, UpperHex;
    HexDigitIsUpper(b / 16);
    HexDigitIsUpper(b % 16);
  }

  lemma HexDigitIsUpper(n: nat)
    requires n < 16
    ensures HexDigit(n) == UpperHex(n)
  {
  }

  lemma {:induction false} EncodeJoins(a: Bytes, b: Bytes)
    ensures Encode(a + b) == Encode(a) + Encode(b)
  {
    hide EncodeByte;
    if a == [] {
      assert a + b == b;
    } else {
      assert (a + b)[1..] == a[1..] + b;
      EncodeJoins(a[1..], b);
    }
  }

  /** Text of unreserved characters is encoded as itself. */
  lemma {:induction false} PlainTextStays(s: Bytes)
    requires forall b :: b in s ==> StaysPlain(b)
    ensures Encode(s) == s
  {
    hide EncodeByte;
    if s != [] {
      OneByte(s[0]);
      PlainTextStays(s[1..]);
      assert s == [s[0]] + s[1..];
    }
  }

  // ----- Decoding, piece by piece -----

  /** A text to decode: bytes that stand for themselves, plus signs, escapes, and percent signs that begin none. */
  datatype Piece = Byte(b: byte) | Plus | Escape(high: byte, low: byte) | Percent

  predicate IsHex(b: byte) {
    Between(b, '0', '9') || Between(b, 'a', 'f') || Between(b, 'A', 'F')
  }

  function HexOf(b: byte): int
    requires IsHex(b)
  {
    if b <= '9' as int then b - '0' as int else if b >= 'a' as int then b - 'a' as int + 10 else b - 'A' as int + 10
  }

  function Write(p: Piece): Bytes {
    match p
    case Byte(b) => [b]
    case Plus => ['+' as int]
    case Escape(high, low) => ['%' as int, high, low]
    case Percent => ['%' as int]
  }

  function WriteAll(pieces: seq<Piece>): Bytes {
    if pieces == [] then [] else Write(pieces[0]) + WriteAll(pieces[1..])
  }

  function ValueOf(p: Piece): byte
    requires p.Escape? ==> IsHex(p.high) && IsHex(p.low)
  {
    match p
    case Byte(b) => b
    case Plus => ' ' as int
    case Escape(high, low) => HexOf(high) * 16 + HexOf(low)
    case Percent => '%' as int
  }

  /** Two bytes behind a percent sign can be cut out of the text. */
  predicate CanCut(behind: Bytes) {
    |behind| >= 2 ==> !IsContinuation(behind[0]) && (|behind| > 2 ==> !IsContinuation(behind[2]))
  }

  predicate GoodPiece(p: Piece, behind: Bytes) {
    match p
    case Byte(b) => b != '%' as int && b != '+' as int
    case Plus => true
    case Escape(high, low) => IsHex(high) && IsHex(low) && CanCut([high, low] + behind)
    case Percent => CanCut(behind) && !(|behind| >= 2 && IsHex(behind[0]) && IsHex(behind[1]))
  }

  predicate GoodPieces(pieces: seq<Piece>) {
    pieces != [] ==> GoodPiece(pieces[0], WriteAll(pieces[1..])) && GoodPieces(pieces[1..])
  }

  function Values(pieces: seq<Piece>): Bytes
    requires GoodPieces(pieces)
  {
    if pieces == [] then [] else [ValueOf(pieces[0])] + Values(pieces[1..])
  }

  lemma HexAgrees(b: byte)
    ensures IsHex(b) <==> HexValue(b).Some?
    ensures IsHex(b) ==> HexValue(b) == Some(HexOf(b)) && HexOf(b) < 16
    ensures !IsHex('+' as int) && !IsHex(' ' as int)
  {
  }

  lemma ReplaceJoins(a: Bytes, b: Bytes)
    ensures ReplacePlus(a + b) == ReplacePlus(a) + ReplacePlus(b)
  {
  }

  lemma DecodesPiece(p: Piece, behind: Bytes)
    requires GoodPiece(p, behind)
    ensures DecodeBytes(ReplacePlus(Write(p) + behind)) == Prepend(ValueOf(p), DecodeBytes(ReplacePlus(behind)))
  {
    hide DecodeBytes, HexValue, IsHex, HexOf;
    var rest := ReplacePlus(behind);
    ReplaceJoins(Write(p), behind);
    match p
    case Byte(b) =>
      assert ReplacePlus([b]) == [b];
      DecodesPlain(b, rest);
    case Plus =>
      assert ReplacePlus(['+' as int]) == [SPACE];
      DecodesPlain(SPACE, rest);
    case Escape(high, low) =>
      HexAgrees(high);
      HexAgrees(low);
      assert high != PLUS && low != PLUS;
      assert ReplacePlus([PERCENT, high, low]) == [PERCENT, high, low];
      assert behind != [] ==> ([high, low] + behind)[2] == behind[0];
      DecodesTriple(high, low, rest);
    case Percent =>
      assert ReplacePlus(['%' as int]) == [PERCENT];
      DecodesPercent(behind);
  }

  lemma DecodesPercent(behind: Bytes)
    requires GoodPiece(Percent, behind)
    ensures DecodeBytes([PERCENT] + ReplacePlus(behind)) == Prepend(PERCENT, DecodeBytes(ReplacePlus(behind)))
  {
    hide HexValue, IsHex, HexOf;
    var s, rest := [PERCENT] + ReplacePlus(behind), ReplacePlus(behind);
    assert s[1..] == rest;
    if |behind| >= 2 {
      HexAgrees(behind[0]);
      HexAgrees(behind[1]);
      HexAgrees(SPACE);
      assert s[1] == rest[0] && s[2] == rest[1] && (|s| > 3 ==> s[3] == rest[2]);
    }
  }

  lemma {:induction false} DecodesPieces(pieces: seq<Piece>)
    requires GoodPieces(pieces)
    ensures DecodeBytes(ReplacePlus(WriteAll(pieces))) == Text(Values(pieces))
  {
    hide DecodeBytes, GoodPiece, ValueOf, Write;
    if pieces == [] {
      NothingToDecode([]);
      assert ReplacePlus([]) == [];
    } else {
      DecodesPiece(pieces[0], WriteAll(pieces[1..]));
      DecodesPieces(pieces[1..]);
    }
  }

  /** Decoding gives the value of each piece in order, with invalid UTF-8 replaced. */
  lemma DecodesExactly(lossy: Bytes -> Bytes, pieces: seq<Piece>)
    requires GoodPieces(pieces)
    ensures Decode(lossy, WriteAll(pieces)) ==
      Text(if ValidUtf8(Values(pieces)) then Values(pieces) else lossy(Values(pieces)))
  {
    hide DecodeBytes, GoodPieces, Values, WriteAll, ReplacePlus, ValidUtf8;
    DecodesPieces(pieces);
  }

  /** Every text is made of such pieces, unless decoding it panics. */
  lemma {:induction false} PiecesOf(s: Bytes) returns (pieces: seq<Piece>)
    requires !DecodeBytes(ReplacePlus(s)).Panic?
    ensures GoodPieces(pieces) && WriteAll(pieces) == s
    decreases |s|
  {
    hide HexValue, IsHex;
    if s == [] {
      pieces := [];
    } else {
      var p, behind := FirstPiece(s);
      var rest := PiecesOf(behind);
      pieces := [p] + rest;
      assert pieces[1..] == rest;
    }
  }

  lemma FirstPiece(s: Bytes) returns (p: Piece, behind: Bytes)
    requires s != [] && !DecodeBytes(ReplacePlus(s)).Panic?
    ensures s == Write(p) + behind && GoodPiece(p, behind) && !DecodeBytes(ReplacePlus(behind)).Panic?
  {
    hide HexValue, IsHex, HexOf;
    var r := ReplacePlus(s);
    assert ReplacePlus(s[1..]) == r[1..];
    HexAgrees(0);
    if s[0] == PLUS {
      p, behind := Plus, s[1..];
    } else if s[0] != PERCENT {
      p, behind := Byte(s[0]), s[1..];
    } else {
      if |s| > 2 {
        HexAgrees(s[1]);
        HexAgrees(s[2]);
        HexAgrees(SPACE);
      }
      if |s| > 2 && IsHex(s[1]) && IsHex(s[2]) {
        p, behind := Escape(s[1], s[2]), s[3..];
        assert ReplacePlus(s[3..]) == r[3..];
        assert [s[1], s[2]] + s[3..] == s[1..];
      } else {
        p, behind := Percent, s[1..];
      }
    }
    assert s == Write(p) + behind;
  }

  // ----- Lookup -----

  /** A parameter, with or without an equals sign. */
  datatype Pair = Bare(name: Bytes) | Valued(name: Bytes, value: Bytes)

  predicate GoodPair(p: Pair) {
    AMPERSAND !in p.name && EQUALS !in p.name && (p.Valued? ==> AMPERSAND !in p.value)
  }

  function WritePair(p: Pair): Bytes {
    if p.Bare? then p.name else p.name + [EQUALS] + p.value
  }

  function WritePairs(pairs: seq<Pair>): Bytes
    requires pairs != []
  {
    if |pairs| == 1 then WritePair(pairs[0]) else WritePair(pairs[0]) + [AMPERSAND] + WritePairs(pairs[1..])
  }

  lemma PairSplits(p: Pair)
    requires GoodPair(p)
    ensures NameOf(WritePair(p)) == p.name && QueryParams.ValueOf(WritePair(p)) == if p.Bare? then [] else p.value
    ensures AMPERSAND !in WritePair(p)
  {
    hide IndexOf, Before, After;
    SplitAt(p.name, EQUALS, if p.Bare? then [] else p.value);
  }

  /** Looking up finds the value of the first parameter with the name, decoded, and nothing when there is none. */
  lemma {:induction false} LookupFindsFirst(lossy: Bytes -> Bytes, pairs: seq<Pair>, key: Bytes)
    requires pairs != [] && forall i :: 0 <= i < |pairs| ==> GoodPair(pairs[i])
    ensures (forall i :: 0 <= i < |pairs| ==> pairs[i].name != key) ==>
      LookupIn(lossy, WritePairs(pairs), key) == NotFound
    ensures forall i :: 0 <= i < |pairs| && pairs[i].name == key
                          && (forall j :: 0 <= j < i ==> pairs[j].name != key) ==>
      LookupIn(lossy, WritePairs(pairs), key) ==
        Found(Decode(lossy, if pairs[i].Bare? then [] else pairs[i].value))
  {
    hide Decode, LookupIn, WritePair, GoodPair;
    LookupAtHead(lossy, pairs[0], if |pairs| > 1 then Some(WritePairs(pairs[1..])) else None, key);
    if |pairs| > 1 {
      LookupFindsFirst(lossy, pairs[1..], key);
      assert forall i :: 0 < i < |pairs| ==> pairs[i] == pairs[1..][i - 1];
      assert forall i :: 0 <= i < |pairs| - 1 ==> pairs[1..][i] == pairs[i + 1];
    }
  }

  lemma LookupAtHead(lossy: Bytes -> Bytes, p: Pair, rest: Option<Bytes>, key: Bytes)
    requires GoodPair(p)
    ensures LookupIn(lossy, WritePair(p) + if rest.Some? then [AMPERSAND] + rest.value else [], key) ==
      if p.name == key then Found(Decode(lossy, if p.Bare? then [] else p.value))
      else if rest.Some? then LookupIn(lossy, rest.value, key)
      else NotFound
    ensures rest.None? ==> WritePair(p) + [] == WritePair(p)
    ensures rest.Some? ==> WritePair(p) + ([AMPERSAND] + rest.value) == WritePair(p) + [AMPERSAND] + rest.value
  {
    hide IndexOf, Decode, NameOf, QueryParams.ValueOf, WritePair, GoodPair;
    PairSplits(p);
    var first := WritePair(p);
    var all := first + if rest.Some? then [AMPERSAND] + rest.value else [];
    assert all[..|first|] == first;
    IndexOfIs(all, AMPERSAND, |first|);
    if rest.Some? {
      assert all[|first| + 1..] == rest.value;
    }
  }

  /** The parameters of a URL are those between its first question mark and the number sign behind that. */
  lemma LookupInUrl(lossy: Bytes -> Bytes, path: Bytes, query: Bytes, fragment: Option<Bytes>, key: Bytes)
    requires QUESTION !in path && HASH !in query
    ensures ExtractQueryParam(lossy, path, key) == NotFound
    ensures var url := path + [QUESTION] + query + if fragment.Some? then [HASH] + fragment.value else [];
            ExtractQueryParam(lossy, url, key) == LookupIn(lossy, query, key)
  {
    hide IndexOf, Before, After, LookupIn;
    var tail := if fragment.Some? then [HASH] + fragment.value else [];
    SplitAt(path, QUESTION, query + tail);
    assert path + [QUESTION] + query + tail == path + [QUESTION] + (query + tail);
    FirstBehind(query, tail, HASH);
    FirstOfTail(fragment, HASH);
    assert query + [] == query;
  }

  /** Every query is made of such parameters. */
  lemma {:induction false} PairsOf(query: Bytes) returns (pairs: seq<Pair>)
    ensures pairs != [] && (forall i :: 0 <= i < |pairs| ==> GoodPair(pairs[i])) && WritePairs(pairs) == query
    decreases |query|
  {
    hide IndexOf;
    var i := IndexOf(query, AMPERSAND);
    var p := PairOf(query[..i]);
    pairs := [p];
    if i < |query| {
      var rest := PairsOf(query[i + 1..]);
      pairs := [p] + rest;
      assert pairs[1..] == rest;
    }
  }

  lemma PairOf(s: Bytes) returns (p: Pair)
    requires AMPERSAND !in s
    ensures GoodPair(p) && WritePair(p) == s
  {
    hide IndexOf;
    var k := IndexOf(s, EQUALS);
    p := if k < |s| then Valued(s[..k], s[k + 1..]) else Bare(s);
    assert k == |s| ==> s[..k] == s;
  }
}
