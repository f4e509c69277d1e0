/** The printed text itself, and which texts the parser reads (RFC 3339, section 5.6). */
module Rfc3339Text {
  import opened Wrappers
  import opened Text
  import opened Calendar
  import opened Rfc3339

  // ----- Fields of fixed width -----

  function Digit(n: int): char
    requires 0 <= n < 10
  {
    "0123456789"[n]
  }

  function Two(n: int): string
    requires 0 <= n < 100
  {
    [Digit(n / 10), Digit(n % 10)]
  }

  function Four(n: int): string
    requires 0 <= n < 10_000
  {
    [Digit(n / 1000), Digit(n / 100 % 10), Digit(n / 10 % 10), Digit(n % 10)]
  }

  lemma DigitIsChar(n: int)
    requires 0 <= n < 10
    ensures DigitChar(n) == Digit(n) && IsDigit(Digit(n))
  {
  }

  lemma PadUnfolds(n: nat, width: nat)
    ensures Pad(n, width) ==
      (if n < 10 && width <= 1 then [] else Pad(n / 10, if width > 0 then width - 1 else 0)) + [DigitChar(n % 10)]
  {
  }

  lemma PadTwo(n: nat)
    requires n < 100
    ensures Pad(n, 2) == Two(n)
  {
    hide Pad, DigitChar, Digit;
    PadUnfolds(n, 2);
    PadUnfolds(n / 10, 1);
    DigitIsChar(n % 10);
    DigitIsChar(n / 10);
  }

  lemma PadFour(n: nat)
    requires n < 10_000
    ensures Pad(n, 4) == Four(n)
  {
    hide Pad, DigitChar, Digit;
    PadUnfolds(n, 4);
    PadUnfolds(n / 10, 3);
    PadUnfolds(n / 100, 2);
    PadUnfolds(n / 1000, 1);
    DigitIsChar(n % 10);
    DigitIsChar(n / 10 % 10);
    DigitIsChar(n / 100 % 10);
    DigitIsChar(n / 1000);
  }

  /** A padded number is as wide as asked for, and wider only without a leading zero. */
  lemma {:induction false} PadWidth(n: nat, width: nat)
    ensures |Pad(n, width)| >= width && |Pad(n, width)| >= 1
    ensures |Pad(n, width)| > width && n > 0 ==> Pad(n, width)[0] != '0'
    ensures n == 0 && width > 0 ==> |Pad(n, width)| == width
    decreases n + width
  {
    hide DigitChar;
    DigitIsChar(n % 10);
    if !(n < 10 && width <= 1) {
      PadWidth(n / 10, if width > 0 then width - 1 else 0);
    } else if n > 0 {
      NotZero(n);
    }
  }

  lemma NotZero(n: nat)
    requires 0 < n < 10
    ensures DigitChar(n) != '0'
  {
  }

  // ----- The printed text -----

  /** Everything behind the year. */
  function Behind(d: Date, secondOfDay: nat): string
    requires 1 <= d.month <= 12 && 1 <= d.day <= 31 && secondOfDay < 86_400
  {
    "-" + Two(d.month) + "-" + Two(d.day) + "T" + Two(secondOfDay / 3600) + ":" + Two(secondOfDay % 3600 / 60) + ":"
    + Two(secondOfDay % 60) + "Z"
  }

  /** A year: four digits up to 9999, as many as it needs without a leading zero beyond, a sign before year 0. */
  predicate IsYear(year: int, text: string) {
    if year < 0 then
      && text != [] && text[0] == '-' && AllDigits(text[1..]) && DigitsValue(text[1..]) == -year
      && |text| >= 4 && (|text| > 4 ==> text[1] != '0')
    else if year < 10_000 then text == Four(year)
    else |text| > 4 && AllDigits(text) && text[0] != '0' && DigitsValue(text) == year
  }

  lemma YearIsExact(year: int)
    ensures IsYear(year, PadSigned(year, 4))
  {
    hide Pad, DigitsValue;
    if year < 0 {
      PadReadsBack(-year, 3);
      PadWidth(-year, 3);
      assert PadSigned(year, 4)[1..] == Pad(-year, 3);
    } else {
      PadReadsBack(year, 4);
      PadWidth(year, 4);
      if year < 10_000 {
        PadFour(year);
      } else {
        LongYear(year);
      }
    }
  }

  lemma LongYear(year: nat)
    requires year >= 10_000
    ensures |Pad(year, 4)| > 4
  {
    PadUnfolds(year, 4);
    PadUnfolds(year / 10, 3);
    PadUnfolds(year / 100, 2);
    PadUnfolds(year / 1000, 1);
    PadWidth(year / 10_000, 0);
  }

  /** The printed text: the year, then fields of exactly two digits in their places. */
  lemma FormatIsExact(nanos: int)
    ensures var seconds := if nanos < 0 then 0 else nanos / 1_000_000_000;
            var d := CivilFromDays(seconds / 86_400);
            && 1 <= d.month <= 12 && 1 <= d.day <= 31
            && exists year :: IsYear(d.year, year) && FormatRfc3339(nanos) == year + Behind(d, seconds % 86_400)
  {
    hide CivilWide, Pad, PadSigned, MonthLength, IsYear;
    var seconds := WholeSeconds(nanos);
    var d, t := CivilFromDays(seconds / 86_400), seconds % 86_400;
    WideBijection(seconds / 86_400, CivilWide(seconds / 86_400));
    MonthLengthBounds(CivilWide(seconds / 86_400));
    YearIsExact(d.year);
    RenderIsExact(d, t);
  }

  lemma RenderIsExact(d: Date, t: nat)
    requires 1 <= d.month <= 12 && 1 <= d.day <= 31 && t < 86_400
    ensures Render(d, t) == PadSigned(d.year, 4) + Behind(d, t)
  {
    hide Pad, Two;
    TwoSigned(d.month);
    TwoSigned(d.day);
    PadTwo(t / 3600);
    PadTwo(t % 3600 / 60);
    PadTwo(t % 60);
  }

  lemma TwoSigned(n: int)
    requires 0 <= n < 100
    ensures PadSigned(n, 2) == Two(n)
  {
    PadTwo(n);
  }

  /** Up to the year 9999 every text has 20 characters, each in its place. */
  lemma FormatUpTo9999(nanos: int)
    requires WholeSeconds(nanos) < 253_402_300_800
    ensures var seconds := WholeSeconds(nanos);
            var d, t := CivilFromDays(seconds / 86_400), seconds % 86_400;
            && 1970 <= d.year <= 9999 && 1 <= d.month <= 12 && 1 <= d.day <= 31
            && FormatRfc3339(nanos) == Four(d.year) + Behind(d, t)
            && |FormatRfc3339(nanos)| == 20
  {
    hide CivilWide, Two, Four, MonthLength, FormatRfc3339;
    var days := WholeSeconds(nanos) / 86_400;
    FormatIsExact(nanos);
    YearsUpTo9999(days);
    AsI32InRange(CivilWide(days).year);
    LengthOfFields(CivilFromDays(days), WholeSeconds(nanos) % 86_400);
  }

  lemma LengthOfFields(d: Date, t: nat)
    requires 0 <= d.year < 10_000 && 1 <= d.month <= 12 && 1 <= d.day <= 31 && t < 86_400
    ensures |Four(d.year) + Behind(d, t)| == 20
  {
  }

  /** The last day of the year 9999 has number 2932896. */
  lemma YearsUpTo9999(days: int)
    requires 0 <= days <= 2_932_896
    ensures 1970 <= CivilWide(days).year <= 9999
  {
    hide CivilWide, DaysFromCivil, YearOfEra;
    EpochStartsItsYear();
    Numbered(Date(9999, 12, 31), 24, 399, 2_932_896);
    YearsAreMonotone(0, days);
    YearsAreMonotone(days, 2_932_896);
  }

  // ----- Which texts are read -----

  /** Decimal digits for `n`, perhaps behind a plus sign. */
  predicate Reads(s: string, max: nat, n: nat) {
    var digits := if s != [] && s[0] == '+' then s[1..] else s;
    digits != [] && AllDigits(digits) && DigitsValue(digits) == n <= max
  }

  predicate ReadsYear(s: string, year: int) {
    if s != [] && s[0] == '-' then
      s[1..] != [] && AllDigits(s[1..]) && DigitsValue(s[1..]) == -year && year >= -0x8000_0000
    else year >= 0 && Reads(s, 0x7FFF_FFFF, year)
  }

  /** Three parts free of the separator, and perhaps more behind a further separator. */
  predicate InThree(s: string, sep: char, a: string, b: string, c: string, more: string) {
    && sep !in a && sep !in b && sep !in c && (more != [] ==> more[0] == sep)
    && s == a + [sep] + b + [sep] + c + more
  }

  lemma SplitsInThree(s: string, sep: char, a: string, b: string, c: string, more: string)
    requires InThree(s, sep, a, b, c, more)
    ensures |Split(s, sep)| >= 3 && Split(s, sep)[0] == a && Split(s, sep)[1] == b && Split(s, sep)[2] == c
  {
    hide Split;
    var rest := c + more;
    assert s == a + [sep] + (b + [sep] + rest);
    SplitsFirst(a, sep, b + [sep] + rest);
    SplitsFirst(b, sep, rest);
    if more == [] {
      assert rest == c;
      SplitsWhole(c, sep);
    } else {
      assert rest == c + [sep] + more[1..];
      SplitsFirst(c, sep, more[1..]);
    }
  }

  lemma FirstPart(s: string, sep: char) returns (a: string, rest: string)
    ensures sep !in a && Split(s, sep)[0] == a
    ensures |Split(s, sep)| == 1 ==> s == a
    ensures |Split(s, sep)| > 1 ==> s == a + [sep] + rest && Split(s, sep)[1..] == Split(rest, sep)
  {
    hide IndexOf;
    var i := IndexOf(s, sep);
    a := s[..i];
    rest := if i < |s| then s[i + 1..] else [];
    assert i == |s| ==> s[..i] == s;
  }

  lemma ThreeParts(s: string, sep: char) returns (more: string)
    requires |Split(s, sep)| >= 3
    ensures InThree(s, sep, Split(s, sep)[0], Split(s, sep)[1], Split(s, sep)[2], more)
  {
    hide Split;
    var a, behindA := FirstPart(s, sep);
    var b, behindB := FirstPart(behindA, sep);
    var c, behindC := FirstPart(behindB, sep);
    assert Split(s, sep)[1] == Split(s, sep)[1..][0] && Split(s, sep)[2] == Split(s, sep)[1..][1];
    assert Split(behindA, sep)[1] == Split(behindA, sep)[1..][0];
    more := if |Split(behindB, sep)| == 1 then [] else [sep] + behindC;
    assert behindB == c + more;
  }

  /** A text is read when it is a date, T, a time and Z, and its six fields are these. Further fields behind the third
      of the date or of the time are passed over. */
  ghost predicate IsRead(value: string, year: int, month: nat, day: nat, hour: nat, minute: nat, second: nat) {
    exists date, time ::
      value == date + "T" + time + "Z" && 'T' !in date
      && HasFields(date, '-', (s: string) => ReadsYear(s, year), U32_MAX, month, day)
      && HasFields(time, ':', (s: string) => Reads(s, U64_MAX, hour), U64_MAX, minute, second)
  }

  ghost predicate HasFields(s: string, sep: char, first: string -> bool, max: nat, second: nat, third: nat) {
    exists a, b, c, more ::
      InThree(s, sep, a, b, c, more) && first(a) && Reads(b, max, second) && Reads(c, max, third)
  }

  lemma ReadsExactly(s: string, max: nat, n: nat, year: int)
    ensures ParseUnsigned(s, max) == Some(n) <==> Reads(s, max, n)
    ensures ParseI32(s) == Some(year) <==> ReadsYear(s, year)
  {
    hide DigitsValue, AllDigits;
  }

  lemma FieldsSplit(s: string, sep: char, first: string -> bool, max: nat, second: nat, third: nat)
    ensures HasFields(s, sep, first, max, second, third) <==>
      var parts := Split(s, sep);
      |parts| >= 3 && first(parts[0]) && Reads(parts[1], max, second) && Reads(parts[2], max, third)
  {
    hide Split, Reads;
    if HasFields(s, sep, first, max, second, third) {
      var a, b, c, more :|
        InThree(s, sep, a, b, c, more) && first(a) && Reads(b, max, second) && Reads(c, max, third);
      SplitsInThree(s, sep, a, b, c, more);
    }
    if |Split(s, sep)| >= 3 {
      var more := ThreeParts(s, sep);
    }
  }

  lemma PartsAreRead(date: string, time: string, year: int, month: nat, day: nat, hour: nat, minute: nat, second: nat)
    ensures ParseFields(date, time) == Some((year, month, day, hour, minute, second)) <==>
      && HasFields(date, '-', (s: string) => ReadsYear(s, year), U32_MAX, month, day)
      && HasFields(time, ':', (s: string) => Reads(s, U64_MAX, hour), U64_MAX, minute, second)
  {
    hide Split, Reads, ReadsYear, ParseUnsigned, ParseI32, HasFields;
    var d, t := Split(date, '-'), Split(time, ':');
    FieldsSplit(date, '-', (s: string) => ReadsYear(s, year), U32_MAX, month, day);
    FieldsSplit(time, ':', (s: string) => Reads(s, U64_MAX, hour), U64_MAX, minute, second);
    ReadsExactly(d[0], 0, 0, year);
    if |d| >= 3 && |t| >= 3 {
      ReadsExactly(d[1], U32_MAX, month, 0);
      ReadsExactly(d[2], U32_MAX, day, 0);
      ReadsExactly(t[0], U64_MAX, hour, 0);
      ReadsExactly(t[1], U64_MAX, minute, 0);
      ReadsExactly(t[2], U64_MAX, second, 0);
    }
  }

  /** The parser finds exactly the fields that a text is made of. */
  lemma FieldsExactly(value: string, year: int, month: nat, day: nat, hour: nat, minute: nat, second: nat)
    ensures FieldsOf(value) == Some((year, month, day, hour, minute, second)) <==>
      IsRead(value, year, month, day, hour, minute, second)
  {
    hide ParseFields, HasFields, IndexOf, ReadsYear, Reads;
    if IsRead(value, year, month, day, hour, minute, second) {
      var date, time :|
        value == date + "T" + time + "Z" && 'T' !in date
        && HasFields(date, '-', (s: string) => ReadsYear(s, year), U32_MAX, month, day)
        && HasFields(time, ':', (s: string) => Reads(s, U64_MAX, hour), U64_MAX, minute, second);
      var body := date + ['T'] + time;
      assert value[..|value| - 1] == body;
      IndexOfFirst(date, 'T', time);
      assert body[..|date|] == date && body[|date| + 1..] == time;
      PartsAreRead(date, time, year, month, day, hour, minute, second);
    }
    if FieldsOf(value).Some? {
      var body := value[..|value| - 1];
      var t := IndexOf(body, 'T');
      PartsAreRead(body[..t], body[t + 1..], year, month, day, hour, minute, second);
      assert value == body[..t] + "T" + body[t + 1..] + "Z";
    }
  }

  // ----- Text order is time order -----

  lemma {:induction false} LexJoin(p: string, q: string, s: string, t: string)
    requires |p| == |q| && LexLe(p, q) && (p == q ==> LexLe(s, t))
    ensures LexLe(p + s, q + t)
    decreases |p|
  {
    if p == [] {
      assert p + s == s && q + t == t;
    } else {
      assert (p + s)[1..] == p[1..] + s && (q + t)[1..] == q[1..] + t;
      if p[0] == q[0] {
        assert p == [p[0]] + p[1..] && q == [q[0]] + q[1..];
        LexJoin(p[1..], q[1..], s, t);
      }
    }
  }

  lemma DigitsOrdered(a: int, b: int)
    requires 0 <= a < 10 && 0 <= b < 10
    ensures Digit(a) <= Digit(b) <==> a <= b
  {
  }

  lemma LexDigits(a: int, b: int, s: string, t: string)
    requires 0 <= a <= b < 10 && (a == b ==> LexLe(s, t))
    ensures LexLe([Digit(a)] + s, [Digit(b)] + t)
  {
    hide Digit;
    DigitsOrdered(a, b);
    DigitsOrdered(b, a);
    assert ([Digit(a)] + s)[1..] == s && ([Digit(b)] + t)[1..] == t;
  }

  lemma LexTwo(a: int, b: int, s: string, t: string)
    requires 0 <= a <= b < 100 && (a == b ==> LexLe(s, t))
    ensures LexLe(Two(a) + s, Two(b) + t)
  {
    hide Digit, LexLe;
    if a / 10 == b / 10 {
      LexDigits(a % 10, b % 10, s, t);
    }
    LexDigits(a / 10, b / 10, [Digit(a % 10)] + s, [Digit(b % 10)] + t);
    assert Two(a) + s == [Digit(a / 10)] + ([Digit(a % 10)] + s);
    assert Two(b) + t == [Digit(b / 10)] + ([Digit(b % 10)] + t);
  }

  lemma LexFour(a: int, b: int, s: string, t: string)
    requires 0 <= a <= b < 10_000 && (a == b ==> LexLe(s, t))
    ensures LexLe(Four(a) + s, Four(b) + t)
  {
    hide Two, LexLe, Digit;
    if a / 100 == b / 100 {
      LexTwo(a % 100, b % 100, s, t);
    }
    LexTwo(a / 100, b / 100, Two(a % 100) + s, Two(b % 100) + t);
    FourIsTwoTwo(a, s);
    FourIsTwoTwo(b, t);
  }

  lemma FourIsTwoTwo(n: int, s: string)
    requires 0 <= n < 10_000
    ensures Four(n) + s == Two(n / 100) + (Two(n % 100) + s)
  {
    hide Digit;
    assert n / 1000 == n / 100 / 10 && n / 100 % 10 == n / 100 % 10;
    assert n / 10 % 10 == n % 100 / 10 && n % 10 == n % 100 % 10;
  }

  lemma LexSame(c: string, s: string, t: string)
    requires LexLe(s, t)
    ensures LexLe(c + s, c + t)
  {
    LexSelf(c);
    LexJoin(c, c, s, t);
  }

  lemma {:induction false} LexSelf(s: string)
    ensures LexLe(s, s)
  {
    if s != [] {
      LexSelf(s[1..]);
    }
  }

  predicate DateLe(a: Date, b: Date) {
    a.year < b.year || (a.year == b.year && (a.month < b.month || (a.month == b.month && a.day <= b.day)))
  }

  /** Later days have later dates. */
  lemma {:induction false} DatesOrdered(a: int, b: int)
    requires a <= b
    ensures DateLe(CivilWide(a), CivilWide(b)) && (CivilWide(a) == CivilWide(b) ==> a == b)
    decreases b - a
  {
    hide CivilWide, DaysFromCivil, MonthLength;
    WideBijection(a, CivilWide(a));
    WideBijection(b, CivilWide(b));
    if a < b {
      DatesOrdered(a, b - 1);
      WideSuccessor(b - 1);
      WideBijection(b - 1, CivilWide(b - 1));
    }
  }

  lemma TimeOrdered(a: nat, b: nat)
    requires a <= b < 86_400
    ensures LexLe("T" + (Two(a / 3600) + (":" + (Two(a % 3600 / 60) + (":" + (Two(a % 60) + "Z"))))),
                  "T" + (Two(b / 3600) + (":" + (Two(b % 3600 / 60) + (":" + (Two(b % 60) + "Z"))))))
  {
    hide Two, LexLe;
    LexSelf("Z");
    if a / 3600 == b / 3600 {
      if a % 3600 / 60 == b % 3600 / 60 {
        assert a % 60 <= b % 60 by { SecondsInMinute(a); SecondsInMinute(b); }
        LexTwo(a % 60, b % 60, "Z", "Z");
        LexSame(":", Two(a % 60) + "Z", Two(b % 60) + "Z");
      }
      LexTwo(a % 3600 / 60, b % 3600 / 60, ":" + (Two(a % 60) + "Z"), ":" + (Two(b % 60) + "Z"));
      LexSame(":", Two(a % 3600 / 60) + (":" + (Two(a % 60) + "Z")), Two(b % 3600 / 60) + (":" + (Two(b % 60) + "Z")));
    }
    LexTwo(a / 3600, b / 3600, ":" + (Two(a % 3600 / 60) + (":" + (Two(a % 60) + "Z"))),
           ":" + (Two(b % 3600 / 60) + (":" + (Two(b % 60) + "Z"))));
    LexSame("T", Two(a / 3600) + (":" + (Two(a % 3600 / 60) + (":" + (Two(a % 60) + "Z")))),
            Two(b / 3600) + (":" + (Two(b % 3600 / 60) + (":" + (Two(b % 60) + "Z")))));
  }

  lemma SecondsInMinute(t: nat)
    ensures t == t / 3600 * 3600 + t % 3600 / 60 * 60 + t % 60
  {
    TimeOfDayJoins(t);
  }

  function TimePart(t: nat): string
    requires t < 86_400
  {
    "T" + (Two(t / 3600) + (":" + (Two(t % 3600 / 60) + (":" + (Two(t % 60) + "Z")))))
  }

  lemma Parts(d: Date, t: nat)
    requires 0 <= d.year < 10_000 && 1 <= d.month <= 12 && 1 <= d.day <= 31 && t < 86_400
    ensures Four(d.year) + Behind(d, t) == Four(d.year) + ("-" + (Two(d.month) + ("-" + (Two(d.day) + TimePart(t)))))
  {
    hide Two, Four;
  }

  lemma TextOrdered(a: Date, s: nat, b: Date, t: nat)
    requires 0 <= a.year < 10_000 && 1 <= a.month <= 12 && 1 <= a.day <= 31 && s < 86_400
    requires 0 <= b.year < 10_000 && 1 <= b.month <= 12 && 1 <= b.day <= 31 && t < 86_400
    requires DateLe(a, b) && (a == b ==> s <= t)
    ensures LexLe(Four(a.year) + Behind(a, s), Four(b.year) + Behind(b, t))
  {
    hide Two, Four, LexLe, Behind, TimePart;
    Parts(a, s);
    Parts(b, t);
    if a.year == b.year {
      if a.month == b.month {
        if a.day == b.day {
          TimePartsOrdered(s, t);
        }
        LexTwo(a.day, b.day, TimePart(s), TimePart(t));
        LexSame("-", Two(a.day) + TimePart(s), Two(b.day) + TimePart(t));
      }
      LexTwo(a.month, b.month, "-" + (Two(a.day) + TimePart(s)), "-" + (Two(b.day) + TimePart(t)));
      LexSame("-", Two(a.month) + ("-" + (Two(a.day) + TimePart(s))),
              Two(b.month) + ("-" + (Two(b.day) + TimePart(t))));
    }
    LexFour(a.year, b.year, "-" + (Two(a.month) + ("-" + (Two(a.day) + TimePart(s)))),
            "-" + (Two(b.month) + ("-" + (Two(b.day) + TimePart(t)))));
  }

  lemma TimePartsOrdered(s: nat, t: nat)
    requires s <= t < 86_400
    ensures LexLe(TimePart(s), TimePart(t))
  {
    hide Two, LexLe;
    TimeOrdered(s, t);
  }

  /** Up to the year 9999, later times are printed as later texts. */
  lemma TextOrderIsTimeOrder(a: int, b: int)
    requires a <= b && WholeSeconds(b) < 253_402_300_800
    ensures LexLe(FormatRfc3339(a), FormatRfc3339(b))
  {
    hide Two, Four, Behind, LexLe, FormatRfc3339, CivilWide;
    var s, t := WholeSeconds(a), WholeSeconds(b);
    FormatUpTo9999(a);
    FormatUpTo9999(b);
    var m, n := s / 86_400, t / 86_400;
    DatesOrdered(m, n);
    YearsUpTo9999(m);
    YearsUpTo9999(n);
    AsI32InRange(CivilWide(m).year);
    AsI32InRange(CivilWide(n).year);
    TextOrdered(CivilFromDays(m), s % 86_400, CivilFromDays(n), t % 86_400);
  }
}
