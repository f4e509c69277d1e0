/** Query strings: percent coding (RFC 3986, sections 2.1 and 2.3), appending and looking up a parameter. */
module QueryParams {
  import opened Wrappers
  import opened Utf8

  const PERCENT: byte := 0x25
  const PLUS: byte := 0x2B
  const SPACE: byte := 0x20
  const QUESTION: byte := 0x3F
  const HASH: byte := 0x23
  const AMPERSAND: byte := 0x26
  const EQUALS: byte := 0x3D

  // ----- Percent coding -----

  predicate IsUnreserved(b: byte) {
    0x30 <= b <= 0x39 || 0x41 <= b <= 0x5A || 0x61 <= b <= 0x7A || b == 0x2D || b == 0x5F || b == 0x2E || b == 0x7E
  }

  function HexDigit(n: nat): byte
    requires n < 16
  {
    if n < 10 then 0x30 + n else 0x41 + n - 10
  }

  function HexValue(b: byte): Option<nat> {
    if 0x30 <= b <= 0x39 then Some(b - 0x30)
    else if 0x41 <= b <= 0x46 then Some(b - 0x41 + 10)
    else if 0x61 <= b <= 0x66 then Some(b - 0x61 + 10)
    else None
  }

  function EncodeByte(b: byte): Bytes {
    if IsUnreserved(b) then [b] else [PERCENT, HexDigit(b / 16), HexDigit(b % 16)]
  }

  function Encode(s: Bytes): Bytes {
    if s == [] then [] else EncodeByte(s[0]) + Encode(s[1..])
  }

  method PercentEncode(input: Bytes) returns (output: Bytes)
    ensures output == Encode(input)
  {
    hide EncodeByte;
    output := [];
    var i := 0;
    while i < |input|
      invariant 0 <= i <= |input| && output + Encode(input[i..]) == Encode(input)
    {
      assert input[i..][1..] == input[i + 1..];
      output := output + EncodeByte(input[i]);
      i := i + 1;
    }
  }

  function ReplacePlus(s: Bytes): (r: Bytes)
    ensures |r| == |s| && forall i :: 0 <= i < |s| ==> r[i] == if s[i] == PLUS then SPACE else s[i]
  {
    seq(|s|, i requires 0 <= i < |s| => if s[i] == PLUS then SPACE else s[i])
  }

  /** `Panic`: the two bytes behind a '%' are cut out of the string inside a character. */
  datatype Decoded = Panic | Text(bytes: Bytes)

  /** Slicing a string panics at a byte that continues a character. */
  predicate CutsCharacter(s: Bytes)
    requires |s| > 2
  {
    IsContinuation(s[1]) || (|s| > 3 && IsContinuation(s[3]))
  }

  function Prepend(b: byte, rest: Decoded): Decoded {
    if rest.Panic? then Panic else Text([b] + rest.bytes)
  }

  /** The decoded bytes of what remains, with every '+' already a space. */
  function DecodeBytes(s: Bytes): Decoded {
    if s == [] then Text([])
    else if s[0] == PERCENT && |s| > 2 then
      if CutsCharacter(s) then Panic
      else if HexValue(s[1]).Some? && HexValue(s[2]).Some? then
        Prepend(HexValue(s[1]).value * 16 + HexValue(s[2]).value, DecodeBytes(s[3..]))
      else Prepend(s[0], DecodeBytes(s[1..]))
    else Prepend(s[0], DecodeBytes(s[1..]))
  }

  /** `lossy` is the replacement of invalid sequences; it never touches valid UTF-8. */
  function Decode(lossy: Bytes -> Bytes, s: Bytes): Decoded {
    match DecodeBytes(ReplacePlus(s))
    case Panic => Panic
    case Text(bytes) => Text(if ValidUtf8(bytes) then bytes else lossy(bytes))
  }

  function Extend(done: Bytes, rest: Decoded): Decoded {
    if rest.Panic? then Panic else Text(done + rest.bytes)
  }

  lemma DecodeStep(s: Bytes, i: nat, done: Bytes)
    requires i < |s|
    ensures Extend(done, DecodeBytes(s[i..])) ==
      if s[i] == PERCENT && i + 2 < |s| && CutsCharacter(s[i..]) then Panic
      else if s[i] == PERCENT && i + 2 < |s| && HexValue(s[i + 1]).Some? && HexValue(s[i + 2]).Some? then
        Extend(done + [HexValue(s[i + 1]).value * 16 + HexValue(s[i + 2]).value], DecodeBytes(s[i + 3..]))
      else Extend(done + [s[i]], DecodeBytes(s[i + 1..]))
  {
    hide HexValue, CutsCharacter;
    var rest := s[i..];
    assert rest[1..] == s[i + 1..];
    if i + 2 < |s| {
      assert rest[3..] == s[i + 3..];
    }
  }

  method PercentDecode(lossy: Bytes -> Bytes, raw: Bytes) returns (r: Decoded)
    ensures r == Decode(lossy, raw)
  {
    hide HexValue, CutsCharacter, DecodeBytes, ValidUtf8;
    var input := ReplacePlus(raw);
    var output: Bytes := [];
    var index := 0;
    assert input[0..] == input;
    while index < |input|
      invariant 0 <= index <= |input|
      invariant Extend(output, DecodeBytes(input[index..])) == Extend([], DecodeBytes(input))
      decreases |input| - index
    {
      DecodeStep(input, index, output);
      if input[index] == PERCENT && index + 2 < |input| {
        if CutsCharacter(input[index..]) {
          NothingToDecode(input);
          return Panic;
        }
        var high, low := HexValue(input[index + 1]), HexValue(input[index + 2]);
        if high.Some? && low.Some? {
          HexValueIsNibble(input[index + 1]);
          HexValueIsNibble(input[index + 2]);
          output := output + [high.value * 16 + low.value];
          index := index + 3;
          continue;
        }
      }
      output := output + [input[index]];
      index := index + 1;
    }
    NothingToDecode(input);
    assert output + [] == output;
    r := Text(if ValidUtf8(output) then output else lossy(output));
  }

  lemma NothingToDecode(s: Bytes)
    ensures DecodeBytes(s[|s|..]) == Text([]) && Extend([], DecodeBytes(s)) == DecodeBytes(s)
  {
  }

  lemma HexValueIsNibble(b: byte)
    ensures HexValue(b).Some? ==> HexValue(b).value < 16
  {
  }

  // ----- Percent round trip -----

  predicate IsEncodedByte(b: byte) {
    IsUnreserved(b) || b == PERCENT
  }

  lemma HexDigitsAreUnreserved(b: byte)
    ensures forall c :: c in EncodeByte(b) ==> IsEncodedByte(c)
  {
    var h, l := HexDigit(b / 16), HexDigit(b % 16);
    assert IsUnreserved(h) && IsUnreserved(l);
  }

  /** Encoded text holds only unreserved characters and percent signs (RFC 3986, section 2.3). */
  lemma {:induction false} EncodedBytes(s: Bytes)
    ensures forall c :: c in Encode(s) ==> IsEncodedByte(c)
  {
    hide IsEncodedByte, EncodeByte;
    if s != [] {
      HexDigitsAreUnreserved(s[0]);
      EncodedBytes(s[1..]);
    }
  }

  lemma HexRoundTrip(b: byte)
    ensures var high, low := HexValue(HexDigit(b / 16)), HexValue(HexDigit(b % 16));
            high.Some? && low.Some? && high.value * 16 + low.value == b
  {
  }

  lemma NoContinuations(s: Bytes)
    requires forall c :: c in s ==> IsEncodedByte(c)
    ensures forall i :: 0 <= i < |s| ==> !IsContinuation(s[i])
  {
    forall i | 0 <= i < |s| ensures !IsContinuation(s[i]) {
      assert IsEncodedByte(s[i]);
    }
  }

  /** One encoded byte is decoded, whatever text without continuation bytes follows. */
  lemma DecodesByte(b: byte, rest: Bytes)
    requires forall i :: 0 <= i < |rest| ==> !IsContinuation(rest[i])
    ensures DecodeBytes(EncodeByte(b) + rest) == Prepend(b, DecodeBytes(rest))
  {
    hide IsUnreserved, HexDigit, HexValue, DecodeBytes;
    PercentIsReserved();
    if IsUnreserved(b) {
      DecodesPlain(b, rest);
    } else {
      HexDigitsAreUnreserved(b);
      HexRoundTrip(b);
      NoContinuations(EncodeByte(b));
      assert EncodeByte(b)[1] == HexDigit(b / 16);
      DecodesTriple(HexDigit(b / 16), HexDigit(b % 16), rest);
    }
  }

  lemma DecodesPlain(b: byte, rest: Bytes)
    requires b != PERCENT
    ensures DecodeBytes([b] + rest) == Prepend(b, DecodeBytes(rest))
  {
    assert ([b] + rest)[1..] == rest;
  }

  lemma DecodesTriple(high: byte, low: byte, rest: Bytes)
    requires HexValue(high).Some? && HexValue(low).Some? && HexValue(high).value * 16 + HexValue(low).value < 256
    requires !IsContinuation(high) && (rest != [] ==> !IsContinuation(rest[0]))
    ensures DecodeBytes([PERCENT, high, low] + rest) ==
      Prepend(HexValue(high).value * 16 + HexValue(low).value, DecodeBytes(rest))
  {
    hide HexValue, DecodeBytes;
    var s := [PERCENT, high, low] + rest;
    assert s[3..] == rest && s[0] == PERCENT && s[1] == high && s[2] == low;
    assert rest != [] ==> s[3] == rest[0];
    UnfoldTriple(s);
  }

  lemma UnfoldTriple(s: Bytes)
    requires |s| > 2 && s[0] == PERCENT && !CutsCharacter(s) && HexValue(s[1]).Some? && HexValue(s[2]).Some?
    requires HexValue(s[1]).value * 16 + HexValue(s[2]).value < 256
    ensures DecodeBytes(s) == Prepend(HexValue(s[1]).value * 16 + HexValue(s[2]).value, DecodeBytes(s[3..]))
  {
    hide HexValue, CutsCharacter, Prepend;
  }

  lemma {:induction false} DecodesEncodedBytes(s: Bytes)
    ensures DecodeBytes(Encode(s)) == Text(s)
  {
    hide EncodeByte, DecodeBytes, IsEncodedByte;
    if s == [] {
      NothingToDecode([]);
    } else {
      EncodedBytes(s[1..]);
      NoContinuations(Encode(s[1..]));
      DecodesByte(s[0], Encode(s[1..]));
      DecodesEncodedBytes(s[1..]);
    }
  }

  lemma PercentIsReserved()
    ensures !IsUnreserved(PERCENT) && !IsUnreserved(PLUS)
  {
  }

  /** Decoding undoes encoding on every UTF-8 string. */
  lemma PercentRoundTrip(lossy: Bytes -> Bytes, s: Bytes)
    requires ValidUtf8(s)
    ensures Decode(lossy, Encode(s)) == Text(s)
  {
    hide DecodeBytes, ValidUtf8, Encode;
    EncodedBytes(s);
    assert !IsEncodedByte(PLUS);
    assert ReplacePlus(Encode(s)) == Encode(s);
    DecodesEncodedBytes(s);
  }

  /** A percent sign with two bytes behind it that would be cut out inside a character. */
  predicate CutsAt(s: Bytes, i: nat) {
    i + 2 < |s| && s[i] == PERCENT && CutsCharacter(s[i..])
  }

  lemma CutsInTail(s: Bytes, n: nat, i: nat)
    requires n <= i && n <= |s|
    ensures CutsAt(s[n..], i - n) <==> CutsAt(s, i)
  {
    hide CutsCharacter;
    if i + 2 < |s| {
      assert s[n..][i - n..] == s[i..];
    }
  }

  lemma {:induction false} DecodeBytesPanics(s: Bytes)
    ensures DecodeBytes(s).Panic? <==> exists i: nat :: CutsAt(s, i)
  {
    hide CutsAt, CutsCharacter;
    if s == [] {
      NoCut(s);
    } else {
      var skip := if s[0] == PERCENT && |s| > 2 && HexValue(s[1]).Some? && HexValue(s[2]).Some? then 3 else 1;
      DecodeBytesPanics(s[skip..]);
      CutAtHead(s, skip);
      forall i: nat | skip <= i ensures CutsAt(s[skip..], i - skip) <==> CutsAt(s, i) {
        CutsInTail(s, skip, i);
      }
      forall i: nat ensures CutsAt(s[skip..], i) <==> CutsAt(s, i + skip) {
        CutsInTail(s, skip, i + skip);
      }
    }
  }

  lemma NoCut(s: Bytes)
    ensures |s| <= 2 ==> forall i: nat :: !CutsAt(s, i)
  {
  }

  /** A percent sign is no hexadecimal digit, so an escape skips none. */
  lemma CutAtHead(s: Bytes, skip: nat)
    requires s != []
    requires skip == if s[0] == PERCENT && |s| > 2 && HexValue(s[1]).Some? && HexValue(s[2]).Some? then 3 else 1
    ensures CutsAt(s, 0) <==> s[0] == PERCENT && |s| > 2 && CutsCharacter(s)
    ensures forall i: nat | 0 < i < skip :: !CutsAt(s, i)
  {
    hide CutsCharacter;
    assert s[0..] == s;
  }

  lemma PlusCutsNothing(s: Bytes, i: nat)
    ensures CutsAt(ReplacePlus(s), i) <==> CutsAt(s, i)
  {
    var r := ReplacePlus(s);
    if i + 2 < |s| {
      assert r[i..][1] == r[i + 1] && s[i..][1] == s[i + 1];
      assert i + 3 < |s| ==> r[i..][3] == r[i + 3] && s[i..][3] == s[i + 3];
    }
  }

  /** Decoding panics exactly on the texts with such a percent sign. */
  lemma DecodePanicsExactly(lossy: Bytes -> Bytes, s: Bytes)
    ensures Decode(lossy, s).Panic? <==> exists i: nat :: CutsAt(s, i)
  {
    hide CutsAt, ReplacePlus, DecodeBytes, ValidUtf8;
    DecodeBytesPanics(ReplacePlus(s));
    forall i: nat ensures CutsAt(ReplacePlus(s), i) <==> CutsAt(s, i) {
      PlusCutsNothing(s, i);
    }
  }

  /** A valid string on which decoding panics: "%a" and an e with acute accent. */
  lemma DecodePanics(lossy: Bytes -> Bytes)
    ensures ValidUtf8([PERCENT, 0x61, 0xC3, 0xA9]) && Decode(lossy, [PERCENT, 0x61, 0xC3, 0xA9]) == Panic
  {
    var s: Bytes := [PERCENT, 0x61, 0xC3, 0xA9];
    assert s[1..] == [0x61, 0xC3, 0xA9] && s[1..][1..] == [0xC3, 0xA9] && s[1..][1..][2..] == [];
    assert ValidUtf8(s[1..][1..]);
    assert ValidUtf8(s[1..]);
    assert ReplacePlus(s) == s;
    assert DecodeBytes(s) == Panic;
  }

  // ----- Splitting -----

  function IndexOf(s: Bytes, c: byte): (i: nat)
    ensures i <= |s| && c !in s[..i] && (i < |s| ==> s[i] == c)
  {
    if s == [] || s[0] == c then 0
    else
      var i := 1 + IndexOf(s[1..], c);
      assert s[..i] == [s[0]] + s[1..][..i - 1];
      i
  }

  lemma IndexOfIs(s: Bytes, c: byte, i: nat)
    requires i <= |s| && c !in s[..i] && (i < |s| ==> s[i] == c)
    ensures IndexOf(s, c) == i
  {
    hide IndexOf;
    var k := IndexOf(s, c);
    assert forall j :: 0 <= j < i ==> s[..i][j] == s[j];
    assert forall j :: 0 <= j < k ==> s[..k][j] == s[j];
  }

  /** The text before the first `c`, or all of it. */
  function Before(s: Bytes, c: byte): Bytes {
    s[..IndexOf(s, c)]
  }

  /** The text after the first `c`, if there is one. */
  function After(s: Bytes, c: byte): Option<Bytes> {
    var i := IndexOf(s, c);
    if i < |s| then Some(s[i + 1..]) else None
  }

  lemma SplitAt(a: Bytes, c: byte, b: Bytes)
    requires c !in a
    ensures Before(a + [c] + b, c) == a && After(a + [c] + b, c) == Some(b)
    ensures Before(a, c) == a && After(a, c) == None
  {
    hide IndexOf;
    var s := a + [c] + b;
    assert s[..|a|] == a && s[|a| + 1..] == b && a[..|a|] == a;
    IndexOfIs(s, c, |a|);
    IndexOfIs(a, c, |a|);
  }

  // ----- Looking up and appending -----

  datatype Lookup = NotFound | Found(value: Decoded)

  /** The query of a URL: behind the first '?', up to a '#'. */
  function QueryOf(input: Bytes): Option<Bytes> {
    match After(input, QUESTION)
    case None => None
    case Some(raw) => Some(Before(raw, HASH))
  }

  function NameOf(pair: Bytes): Bytes {
    Before(pair, EQUALS)
  }

  function ValueOf(pair: Bytes): Bytes {
    match After(pair, EQUALS)
    case None => []
    case Some(value) => value
  }

  /** The first pair of a query with the given name. */
  function LookupIn(lossy: Bytes -> Bytes, query: Bytes, key: Bytes): Lookup
    decreases |query|
  {
    var i := IndexOf(query, AMPERSAND);
    var pair := query[..i];
    if NameOf(pair) == key then Found(Decode(lossy, ValueOf(pair)))
    else if i < |query| then LookupIn(lossy, query[i + 1..], key)
    else NotFound
  }

  function ExtractQueryParam(lossy: Bytes -> Bytes, input: Bytes, key: Bytes): Lookup {
    match QueryOf(input)
    case None => NotFound
    case Some(query) => LookupIn(lossy, query, key)
  }

  function AppendQueryParam(input: Bytes, key: Bytes, value: Bytes): Bytes {
    var base := Before(input, HASH);
    var output := base + [if QUESTION in base then AMPERSAND else QUESTION] + key + [EQUALS] + Encode(value);
    match After(input, HASH)
    case None => output
    case Some(fragment) => output + [HASH] + fragment
  }

  /** A key that can be a parameter name. */
  predicate PlainKey(key: Bytes) {
    AMPERSAND !in key && EQUALS !in key && HASH !in key
  }

  lemma SliceKeeps(s: Bytes, i: nat, j: nat, c: byte)
    requires i <= j <= |s| && c !in s
    ensures c !in s[i..j]
  {
  }

  /** Only plain keys can be found. */
  lemma {:induction false} FoundKeysArePlainIn(lossy: Bytes -> Bytes, query: Bytes, key: Bytes)
    requires HASH !in query
    ensures LookupIn(lossy, query, key).Found? ==> PlainKey(key)
    decreases |query|
  {
    hide IndexOf, Decode;
    var i := IndexOf(query, AMPERSAND);
    var pair := query[..i];
    SliceKeeps(query, 0, i, HASH);
    SliceKeeps(pair, 0, IndexOf(pair, EQUALS), HASH);
    SliceKeeps(pair, 0, IndexOf(pair, EQUALS), AMPERSAND);
    if NameOf(pair) != key && i < |query| {
      SliceKeeps(query, i + 1, |query|, HASH);
      FoundKeysArePlainIn(lossy, query[i + 1..], key);
    }
  }

  /** Looking up in a query to which more was appended: the old pairs come first. */
  lemma {:induction false} LookupInAppended(lossy: Bytes -> Bytes, query: Bytes, pair: Bytes, name: Bytes)
    ensures LookupIn(lossy, query + [AMPERSAND] + pair, name) ==
      if LookupIn(lossy, query, name).Found? then LookupIn(lossy, query, name) else LookupIn(lossy, pair, name)
    decreases |query|
  {
    hide IndexOf, Decode, NameOf, ValueOf;
    var all := query + [AMPERSAND] + pair;
    var i := IndexOf(query, AMPERSAND);
    assert all[..i] == query[..i];
    IndexOfIs(all, AMPERSAND, i);
    if i < |query| {
      assert all[i + 1..] == query[i + 1..] + [AMPERSAND] + pair;
      LookupInAppended(lossy, query[i + 1..], pair, name);
    } else {
      assert all[i + 1..] == pair;
    }
  }

  /** What appending adds to the query: the pair, up to a '#' in the key. */
  function Added(key: Bytes, value: Bytes): Bytes {
    Before(key + [EQUALS] + Encode(value), HASH)
  }

  /** A plain key adds its pair, in which nothing but the key is found. */
  lemma LookupInPair(lossy: Bytes -> Bytes, key: Bytes, value: Bytes, name: Bytes)
    requires PlainKey(key)
    ensures name != key ==> LookupIn(lossy, Added(key, value), name) == NotFound
    ensures name == key && ValidUtf8(value) ==> LookupIn(lossy, Added(key, value), name) == Found(Text(value))
  {
    hide IndexOf, Decode, Encode, ValidUtf8, Before, After;
    var pair := key + [EQUALS] + Encode(value);
    EncodedBytes(value);
    assert !IsEncodedByte(AMPERSAND) && !IsEncodedByte(HASH);
    SplitAt(pair, HASH, []);
    IndexOfIs(pair, AMPERSAND, |pair|) by {
      assert pair[..|pair|] == pair;
    }
    assert pair[..|pair|] == pair;
    SplitAt(key, EQUALS, Encode(value));
    if ValidUtf8(value) {
      PercentRoundTrip(lossy, value);
    }
  }

  /** The first `c` of a text that begins with `a`, free of it, is the first of what follows. */
  lemma FirstBehind(a: Bytes, b: Bytes, c: byte)
    requires c !in a
    ensures Before(a + b, c) == a + Before(b, c) && After(a + b, c) == After(b, c)
  {
    hide IndexOf;
    var s, i := a + b, IndexOf(b, c);
    assert s[..|a| + i] == a + b[..i];
    IndexOfIs(s, c, |a| + i);
    if i < |b| {
      assert s[|a| + i + 1..] == b[i + 1..];
    }
  }

  /** The first `c` of a text is the first of any longer one. */
  lemma FirstWithin(a: Bytes, b: Bytes, c: byte)
    requires c in a
    ensures Before(a + b, c) == Before(a, c) && After(a, c).Some? && After(a + b, c) == Some(After(a, c).value + b)
  {
    hide IndexOf;
    var s, i := a + b, IndexOf(a, c);
    assert a[..|a|] == a;
    assert s[..i] == a[..i];
    IndexOfIs(s, c, i);
    assert s[i + 1..] == a[i + 1..] + b;
  }

  lemma AppendedShape(input: Bytes, key: Bytes, value: Bytes)
    ensures var base, output := Before(input, HASH), AppendQueryParam(input, key, value);
            && Before(output, HASH) == base + [if QUESTION in base then AMPERSAND else QUESTION] + Added(key, value)
            && (After(output, HASH) == After(input, HASH) <==> HASH !in key)
  {
    hide IndexOf, Encode, Before, After;
    var base, pair := Before(input, HASH), key + [EQUALS] + Encode(value);
    var head := base + [if QUESTION in base then AMPERSAND else QUESTION];
    EncodedBytes(value);
    assert !IsEncodedByte(HASH);
    HashFreeBase(input);
    var tail := if After(input, HASH).Some? then [HASH] + After(input, HASH).value else [];
    assert AppendQueryParam(input, key, value) == head + (pair + tail);
    FirstBehind(head, pair + tail, HASH);
    if HASH in key {
      FirstWithin(pair, tail, HASH);
    } else {
      FirstBehind(pair, tail, HASH);
      SplitAt(pair, HASH, []);
      FirstOfTail(After(input, HASH), HASH);
    }
  }

  lemma HashFreeBase(input: Bytes)
    ensures HASH !in Before(input, HASH)
  {
  }

  lemma FirstOfTail(after: Option<Bytes>, c: byte)
    ensures var tail := if after.Some? then [c] + after.value else [];
            Before(tail, c) == [] && After(tail, c) == after
  {
    if after.Some? {
      assert [] + [c] + after.value == [c] + after.value;
      SplitAt([], c, after.value);
    } else {
      SplitAt([], c, []);
    }
  }

  /** Where the query of a text is: when a '?' precedes the first '#', it lies between the two. */
  lemma QueryBeforeFragment(input: Bytes)
    ensures QUESTION in Before(input, HASH) ==>
      QueryOf(input) == After(Before(input, HASH), QUESTION)
  {
    hide IndexOf;
    var base := Before(input, HASH);
    if QUESTION in base {
      var q, h := IndexOf(base, QUESTION), IndexOf(input, HASH);
      FirstQuestionIn(base);
      assert input[..q] == base[..q];
      IndexOfIs(input, QUESTION, q);
      var raw := input[q + 1..];
      assert base[q + 1..] == raw[..h - q - 1];
      SliceKeeps(base, q + 1, |base|, HASH);
      IndexOfIs(raw, HASH, h - q - 1);
    }
  }

  lemma FirstQuestionIn(base: Bytes)
    requires QUESTION in base
    ensures IndexOf(base, QUESTION) < |base|
  {
    hide IndexOf;
    assert base[..|base|] == base;
  }

  /** The query after appending: the old query and what was added, or that alone when there was no query in
      front of the fragment. */
  lemma QueryOfAppended(input: Bytes, key: Bytes, value: Bytes)
    ensures QUESTION in Before(input, HASH) ==> QueryOf(input).Some?
    ensures QueryOf(AppendQueryParam(input, key, value)) ==
      Some(if QUESTION in Before(input, HASH) then QueryOf(input).value + [AMPERSAND] + Added(key, value)
           else Added(key, value))
  {
    hide IndexOf, AppendQueryParam, QueryOf, Before, After, Added;
    var base, added, output := Before(input, HASH), Added(key, value), AppendQueryParam(input, key, value);
    AppendedShape(input, key, value);
    QueryBeforeFragment(input);
    QueryBeforeFragment(output);
    var head := Before(output, HASH);
    if QUESTION in base {
      FirstWithin(base, [AMPERSAND] + added, QUESTION);
      assert head == base + ([AMPERSAND] + added);
      assert head[..|base|] == base;
      assert QueryOf(input).value + ([AMPERSAND] + added) == QueryOf(input).value + [AMPERSAND] + added;
    } else {
      assert head[|base|] == QUESTION;
      SplitAt(base, QUESTION, added);
    }
  }

  // ----- Results -----

  /** What any lookup gives after appending any key. A name present before the fragment keeps its value, any other is
      looked up in what was added. That is the appended value for a plain key, and nothing for another name. */
  lemma LookupAfterAppend(lossy: Bytes -> Bytes, input: Bytes, key: Bytes, value: Bytes, name: Bytes)
    ensures ExtractQueryParam(lossy, AppendQueryParam(input, key, value), name) ==
      if QUESTION in Before(input, HASH) && ExtractQueryParam(lossy, input, name).Found?
      then ExtractQueryParam(lossy, input, name)
      else LookupIn(lossy, Added(key, value), name)
    ensures PlainKey(key) && ValidUtf8(value) ==>
      LookupIn(lossy, Added(key, value), name) == if name == key then Found(Text(value)) else NotFound
  {
    hide AppendQueryParam, QueryOf, Before, LookupIn, Added, ValidUtf8, PlainKey;
    QueryOfAppended(input, key, value);
    if PlainKey(key) {
      LookupInPair(lossy, key, value, name);
    }
    if QUESTION in Before(input, HASH) {
      LookupInAppended(lossy, QueryOf(input).value, Added(key, value), name);
    }
  }

  /** A key that the query before the fragment does not hold is found after appending, with its value,
      exactly when it is plain. */
  lemma AppendedIsFound(lossy: Bytes -> Bytes, input: Bytes, key: Bytes, value: Bytes)
    requires ValidUtf8(value)
    requires QUESTION in Before(input, HASH) ==> ExtractQueryParam(lossy, input, key) == NotFound
    ensures ExtractQueryParam(lossy, AppendQueryParam(input, key, value), key) == Found(Text(value)) <==> PlainKey(key)
  {
    hide IndexOf, Encode, ValidUtf8, AppendQueryParam, LookupIn, Decode;
    var output := AppendQueryParam(input, key, value);
    if PlainKey(key) {
      LookupAfterAppend(lossy, input, key, value, key);
    } else if QueryOf(output).Some? {
      assert HASH !in QueryOf(output).value;
      FoundKeysArePlainIn(lossy, QueryOf(output).value, key);
    }
  }

  /** Appending leaves a parameter that is not itself added as it was exactly when the query precedes the fragment
      or the parameter was not found at all. It is lost when it was read out of a fragment that holds a '?'.
      A plain key adds no parameter but itself. */
  lemma OthersUnchangedExactly(lossy: Bytes -> Bytes, input: Bytes, key: Bytes, value: Bytes, name: Bytes)
    ensures LookupIn(lossy, Added(key, value), name) == NotFound ==>
      (ExtractQueryParam(lossy, AppendQueryParam(input, key, value), name) == ExtractQueryParam(lossy, input, name)
       <==> QUESTION in Before(input, HASH) || ExtractQueryParam(lossy, input, name) == NotFound)
    ensures PlainKey(key) && name != key ==> LookupIn(lossy, Added(key, value), name) == NotFound
  {
    hide ExtractQueryParam, AppendQueryParam, Before, LookupIn, Added, PlainKey, ValidUtf8;
    LookupAfterAppend(lossy, input, key, value, name);
    if PlainKey(key) {
      LookupInPair(lossy, key, value, name);
    }
  }

  /** The fragment is unchanged exactly when the key holds no '#'; everything in front of it always is. */
  lemma FragmentUnchanged(input: Bytes, key: Bytes, value: Bytes)
    ensures After(AppendQueryParam(input, key, value), HASH) == After(input, HASH) <==> HASH !in key
    ensures Before(input, HASH) <= Before(AppendQueryParam(input, key, value), HASH)
  {
    hide IndexOf, AppendQueryParam, After, Added;
    AppendedShape(input, key, value);
  }

  /** The parameter x of "#?x" is found before, and lost after, a parameter y is appended. */
  lemma FragmentParameterIsLost(lossy: Bytes -> Bytes)
    ensures ExtractQueryParam(lossy, [HASH, QUESTION, 0x78], [0x78]) == Found(Text([]))
    ensures ExtractQueryParam(lossy, AppendQueryParam([HASH, QUESTION, 0x78], [0x79], []), [0x78]) == NotFound
  {
    hide Decode, IndexOf, LookupIn, AppendQueryParam;
    var input: Bytes := [HASH, QUESTION, 0x78];
    IndexOfIs(input, HASH, 0);
    IndexOfIs(input, QUESTION, 1);
    IndexOfIs([0x78], HASH, 1);
    assert input[2..] == [0x78] && [0x78][..1] == [0x78];
    NameAlone(lossy, 0x78);
    LookupAfterAppend(lossy, input, [0x79], [], [0x78]);
  }

  lemma NameAlone(lossy: Bytes -> Bytes, c: byte)
    requires c != AMPERSAND && c != EQUALS
    ensures LookupIn(lossy, [c], [c]) == Found(Text([]))
  {
    hide Decode, IndexOf;
    IndexOfIs([c], AMPERSAND, 1);
    IndexOfIs([c], EQUALS, 1);
    assert [c][..1] == [c];
    PercentRoundTrip(lossy, []);
  }
}
