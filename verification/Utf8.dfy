/** UTF-8: the encoding of text, and the byte strings it produces (RFC 3629, sections 3 and 4). */
module Utf8 {

  type byte = x: int | 0 <= x < 256

  type Bytes = seq<byte>

  predicate IsContinuation(b: byte) {
    0x80 <= b < 0xC0
  }

  /** The second byte allowed after a leading byte. */
  predicate SecondByte(lead: byte, b: byte) {
    (if lead == 0xE0 then 0xA0 else if lead == 0xF0 then 0x90 else 0x80) <= b
    < (if lead == 0xED then 0xA0 else if lead == 0xF4 then 0x90 else 0xC0)
  }

  /** The length of the character a byte begins; 0 when no character begins with it. */
  function CharLength(lead: byte): nat {
    if lead < 0x80 then 1
    else if 0xC2 <= lead < 0xE0 then 2
    else if 0xE0 <= lead < 0xF0 then 3
    else if 0xF0 <= lead < 0xF5 then 4
    else 0
  }

  predicate ValidUtf8(s: Bytes) {
    s == [] ||
    (var n := CharLength(s[0]);
     && 0 < n <= |s|
     && (n > 1 ==> SecondByte(s[0], s[1]))
     && (n > 2 ==> IsContinuation(s[2]))
     && (n > 3 ==> IsContinuation(s[3]))
     && ValidUtf8(s[n..]))
  }

  // ----- Encoding -----

  function EncodeChar(c: char): Bytes {
    var n := c as int;
    if n < 0x80 then [n]
    else if n < 0x800 then [0xC0 + n / 64, 0x80 + n % 64]
    else if n < 0x1_0000 then [0xE0 + n / 4096, 0x80 + n / 64 % 64, 0x80 + n % 64]
    else [0xF0 + n / 262_144, 0x80 + n / 4096 % 64, 0x80 + n / 64 % 64, 0x80 + n % 64]
  }

  function EncodeText(s: string): Bytes {
    if s == [] then [] else EncodeChar(s[0]) + EncodeText(s[1..])
  }

  /** Six more bits: those of `b` above its marker. */
  function Shift(n: int, b: int, marker: int): int {
    64 * n + b - marker
  }

  /** The scalar value that well-formed bytes begin with. */
  function FirstScalar(s: Bytes): int
    requires s != [] && CharLength(s[0]) <= |s|
  {
    match CharLength(s[0])
    case 1 => s[0]
    case 2 => Shift(Shift(0, s[0], 0xC0), s[1], 0x80)
    case 3 => Shift(Shift(Shift(0, s[0], 0xE0), s[1], 0x80), s[2], 0x80)
    case 4 => Shift(Shift(Shift(Shift(0, s[0], 0xF0), s[1], 0x80), s[2], 0x80), s[3], 0x80)
    case _ => 0
  }

  lemma Digits64(n: int)
    requires 0 <= n < 0x11_0000
    ensures n / 64 * 64 + n % 64 == n
    ensures n / 4096 * 64 + n / 64 % 64 == n / 64 && n / 262_144 * 64 + n / 4096 % 64 == n / 4096
  {
  }

  /** A character is encoded as one well-formed character that reads back. */
  lemma CharReadsBack(c: char, rest: Bytes)
    ensures var s := EncodeChar(c) + rest;
            && CharLength(s[0]) == |EncodeChar(c)| > 0
            && FirstScalar(s) == c as int
            && (ValidUtf8(s) <==> ValidUtf8(rest))
  {
    hide ValidUtf8;
    var s, n := EncodeChar(c) + rest, c as int;
    Digits64(n);
    CharIsWellFormed(c, rest);
    assert s[|EncodeChar(c)|..] == rest;
    UnfoldValid(s);
  }

  lemma UnfoldValid(s: Bytes)
    requires s != []
    ensures ValidUtf8(s) <==>
      (var n := CharLength(s[0]);
       && 0 < n <= |s| && (n > 1 ==> SecondByte(s[0], s[1])) && (n > 2 ==> IsContinuation(s[2]))
       && (n > 3 ==> IsContinuation(s[3])) && ValidUtf8(s[n..]))
  {
  }

  lemma CharIsWellFormed(c: char, rest: Bytes)
    ensures var s := EncodeChar(c) + rest;
            var n := CharLength(s[0]);
            && n == |EncodeChar(c)| > 0 && (n > 1 ==> SecondByte(s[0], s[1])) && (n > 2 ==> IsContinuation(s[2]))
            && (n > 3 ==> IsContinuation(s[3]))
  {
    hide ValidUtf8;
    Digits64(c as int);
  }

  /** Every text is encoded as valid UTF-8. */
  lemma {:induction false} EncodedIsValid(s: string)
    ensures ValidUtf8(EncodeText(s))
  {
    hide ValidUtf8, EncodeChar;
    if s == [] {
      NothingIsValid();
    } else {
      EncodedIsValid(s[1..]);
      CharReadsBack(s[0], EncodeText(s[1..]));
    }
  }

  lemma NothingIsValid()
    ensures ValidUtf8([])
  {
  }

  /** Different texts are encoded differently. */
  lemma {:induction false} EncodingIsInjective(s: string, t: string)
    requires EncodeText(s) == EncodeText(t)
    ensures s == t
  {
    hide ValidUtf8, EncodeChar, FirstScalar, CharLength;
    if s != [] {
      CharReadsBack(s[0], EncodeText(s[1..]));
    }
    if t != [] {
      CharReadsBack(t[0], EncodeText(t[1..]));
    }
    if s != [] && t != [] {
      assert s[0] as int == t[0] as int;
      TailsOf(EncodeChar(s[0]), EncodeText(s[1..]), EncodeText(t[1..]));
      EncodingIsInjective(s[1..], t[1..]);
      assert s == [s[0]] + s[1..] && t == [t[0]] + t[1..];
    }
  }

  lemma TailsOf(head: Bytes, a: Bytes, b: Bytes)
    requires head + a == head + b
    ensures a == b
  {
    assert (head + a)[|head|..] == a && (head + b)[|head|..] == b;
  }

  lemma {:induction false} EncodingJoins(a: string, b: string)
    ensures EncodeText(a + b) == EncodeText(a) + EncodeText(b)
  {
    hide EncodeChar;
    if a == [] {
      assert a + b == b;
    } else {
      assert (a + b)[1..] == a[1..] + b;
      EncodingJoins(a[1..], b);
    }
  }
}
