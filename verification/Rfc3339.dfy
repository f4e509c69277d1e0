/** Printing and parsing of UTC times in the form of RFC 3339, section 5.6. */
module Rfc3339 {
  import opened Wrappers
  import opened Calendar

  const SECONDS_PER_DAY := 86_400
  const NANOS_PER_SECOND := 1_000_000_000
  const U32_MAX := 0xFFFF_FFFF
  const U64_MAX := 0xFFFF_FFFF_FFFF_FFFF

  // ----- Decimal text -----

  predicate IsDigit(c: char) {
    '0' <= c <= '9'
  }

  predicate AllDigits(s: string) {
    forall i :: 0 <= i < |s| ==> IsDigit(s[i])
  }

  function DigitChar(n: int): char
    requires 0 <= n < 10
  {
    (n + '0' as int) as char
  }

  function DigitsValue(s: string): nat
    requires AllDigits(s)
  {
    if s == [] then 0 else 10 * DigitsValue(s[..|s| - 1]) + (s[|s| - 1] as int - '0' as int)
  }

  /** Decimal digits with leading zeros up to `width`; a longer number keeps all its digits. */
  function Pad(n: nat, width: nat): string
    decreases n + width
  {
    (if n < 10 && width <= 1 then [] else Pad(n / 10, if width > 0 then width - 1 else 0)) + [DigitChar(n % 10)]
  }

  /** `{:0width}` of a signed number: the sign counts towards the width. */
  function PadSigned(n: int, width: nat): string
    requires width > 0
  {
    if n < 0 then "-" + Pad(-n, width - 1) else Pad(n, width)
  }

  /** FromStr of an unsigned integer with the given maximum. */
  function ParseUnsigned(s: string, max: nat): Option<nat> {
    var digits := if s != [] && s[0] == '+' then s[1..] else s;
    if digits == [] || !AllDigits(digits) || DigitsValue(digits) > max then None else Some(DigitsValue(digits))
  }

  /** FromStr of an i32. */
  function ParseI32(s: string): Option<int> {
    if s != [] && s[0] == '-' then
      var digits := s[1..];
      if digits == [] || !AllDigits(digits) || DigitsValue(digits) > 0x8000_0000 then None
      else Some(-(DigitsValue(digits) as int))
    else
      ParseUnsigned(s, 0x7FFF_FFFF)
  }

  lemma DigitsGrow(s: string, n: nat)
    requires AllDigits(s) && n < 10
    ensures AllDigits(s + [DigitChar(n)]) && DigitsValue(s + [DigitChar(n)]) == 10 * DigitsValue(s) + n
  {
    assert (s + [DigitChar(n)])[..|s|] == s;
  }

  /** A padded number reads back, whatever the width. */
  lemma {:induction false} PadReadsBack(n: nat, width: nat)
    ensures Pad(n, width) != [] && AllDigits(Pad(n, width)) && DigitsValue(Pad(n, width)) == n
    decreases n + width
  {
    hide DigitsValue, AllDigits;
    if n < 10 && width <= 1 {
      NoDigits();
      DigitsGrow([], n);
    } else {
      var narrower := if width > 0 then width - 1 else 0;
      PadReadsBack(n / 10, narrower);
      DigitsGrow(Pad(n / 10, narrower), n % 10);
    }
  }

  lemma NoDigits()
    ensures AllDigits([]) && DigitsValue([]) == 0
  {
  }

  lemma PadParses(n: nat, width: nat, max: nat)
    requires n <= max
    ensures ParseUnsigned(Pad(n, width), max) == Some(n)
  {
    PadReadsBack(n, width);
    assert IsDigit(Pad(n, width)[0]);
  }

  // ----- Splitting -----

  function IndexOf(s: string, sep: char): (i: nat)
    ensures i <= |s| && sep !in s[..i] && (i < |s| ==> s[i] == sep)
  {
    if s == [] || s[0] == sep then 0
    else
      var i := 1 + IndexOf(s[1..], sep);
      assert s[..i] == [s[0]] + s[1..][..i - 1];
      i
  }

  function Split(s: string, sep: char): (parts: seq<string>)
    ensures parts != []
    decreases |s|
  {
    var i := IndexOf(s, sep);
    if i == |s| then [s] else [s[..i]] + Split(s[i + 1..], sep)
  }

  lemma IndexOfFirst(a: string, sep: char, rest: string)
    requires sep !in a
    ensures IndexOf(a + [sep] + rest, sep) == |a|
  {
    hide IndexOf;
    var s := a + [sep] + rest;
    assert s[|a|] == sep;
    assert forall k :: 0 <= k < |a| ==> s[k] == a[k];
    assert forall k :: 0 <= k < IndexOf(s, sep) ==> s[..IndexOf(s, sep)][k] == s[k];
  }

  lemma SplitsFirst(a: string, sep: char, rest: string)
    requires sep !in a
    ensures Split(a + [sep] + rest, sep) == [a] + Split(rest, sep)
  {
    hide IndexOf;
    var s := a + [sep] + rest;
    IndexOfFirst(a, sep, rest);
    assert s[..|a|] == a && s[|a| + 1..] == rest;
  }

  lemma SplitsWhole(a: string, sep: char)
    requires sep !in a
    ensures Split(a, sep) == [a]
  {
    hide IndexOf;
  }

  lemma SplitsThree(a: string, b: string, c: string, sep: char)
    requires sep !in a && sep !in b && sep !in c
    ensures Split(a + [sep] + b + [sep] + c, sep) == [a, b, c]
  {
    hide Split;
    assert a + [sep] + b + [sep] + c == a + [sep] + (b + [sep] + c);
    SplitsFirst(a, sep, b + [sep] + c);
    SplitsFirst(b, sep, c);
    SplitsWhole(c, sep);
  }

  // ----- Times -----

  /** Whole seconds since the epoch; a time before the epoch counts as the epoch. */
  function WholeSeconds(nanos: int): nat {
    if nanos < 0 then 0 else nanos / NANOS_PER_SECOND
  }

  function Render(d: Date, secondOfDay: nat): string
  {
    PadSigned(d.year, 4) + "-" + PadSigned(d.month, 2) + "-" + PadSigned(d.day, 2) + "T"
    + Pad(secondOfDay / 3600, 2) + ":" + Pad(secondOfDay % 3600 / 60, 2) + ":" + Pad(secondOfDay % 60, 2) + "Z"
  }

  function FormatRfc3339(nanos: int): string {
    var seconds := WholeSeconds(nanos);
    Render(CivilFromDays(seconds / SECONDS_PER_DAY), seconds % SECONDS_PER_DAY)
  }

  /** `Overflow`: the number of seconds of a date before the epoch is negative, and its unsigned
      arithmetic panics. */
  datatype Parsed = Rejected | At(seconds: nat) | Overflow

  function Assemble(year: int, month: nat, day: nat, hour: nat, minute: nat, second: nat): Parsed {
    if !(1 <= month <= 12) || !(1 <= day <= 31) || hour > 23 || minute > 59 || second > 59 then Rejected
    else
      match DaysFromCivil(Date(year, month, day))
      case None => Rejected
      case Some(days) =>
        var seconds := days * SECONDS_PER_DAY + hour * 3600 + minute * 60 + second;
        if days < 0 then Overflow else At(seconds)
  }

  /** The six fields of `date` and `time`, each parsed as the source parses it. */
  function ParseFields(date: string, time: string): Option<(int, nat, nat, nat, nat, nat)> {
    var dateParts, timeParts := Split(date, '-'), Split(time, ':');
    var year :- ParseI32(dateParts[0]);
    if |dateParts| < 3 || |timeParts| < 3 then None
    else
      var month :- ParseUnsigned(dateParts[1], U32_MAX);
      var day :- ParseUnsigned(dateParts[2], U32_MAX);
      var hour :- ParseUnsigned(timeParts[0], U64_MAX);
      var minute :- ParseUnsigned(timeParts[1], U64_MAX);
      var second :- ParseUnsigned(timeParts[2], U64_MAX);
      Some((year, month, day, hour, minute, second))
  }

  /** The six fields of a text that ends in Z and is split at its first T. */
  function FieldsOf(value: string): Option<(int, nat, nat, nat, nat, nat)> {
    if value == [] || value[|value| - 1] != 'Z' then None
    else
      var body := value[..|value| - 1];
      var t := IndexOf(body, 'T');
      if t == |body| then None else ParseFields(body[..t], body[t + 1..])
  }

  function ParseRfc3339(value: string): Parsed {
    match FieldsOf(value)
    case None => Rejected
    case Some((year, month, day, hour, minute, second)) => Assemble(year, month, day, hour, minute, second)
  }

  // ----- Parsing what was printed -----

  lemma NotAmongDigits(s: string, c: char)
    requires AllDigits(s) && !IsDigit(c)
    ensures c !in s
  {
    forall i | 0 <= i < |s| ensures s[i] != c {
      assert IsDigit(s[i]);
    }
  }

  lemma PadIsPlain(n: nat, width: nat)
    ensures '-' !in Pad(n, width) && ':' !in Pad(n, width) && 'T' !in Pad(n, width)
  {
    PadReadsBack(n, width);
    NotAmongDigits(Pad(n, width), '-');
    NotAmongDigits(Pad(n, width), ':');
    NotAmongDigits(Pad(n, width), 'T');
  }

  function TimeText(secondOfDay: nat): string {
    Pad(secondOfDay / 3600, 2) + [':'] + Pad(secondOfDay % 3600 / 60, 2) + [':'] + Pad(secondOfDay % 60, 2)
  }

  function DateText(d: Date): string {
    PadSigned(d.year, 4) + ['-'] + PadSigned(d.month, 2) + ['-'] + PadSigned(d.day, 2)
  }

  lemma TimeReadsBack(secondOfDay: nat)
    requires secondOfDay < SECONDS_PER_DAY
    ensures var parts := Split(TimeText(secondOfDay), ':');
            && |parts| == 3
            && ParseUnsigned(parts[0], U64_MAX) == Some(secondOfDay / 3600)
            && ParseUnsigned(parts[1], U64_MAX) == Some(secondOfDay % 3600 / 60)
            && ParseUnsigned(parts[2], U64_MAX) == Some(secondOfDay % 60)
  {
    hide Pad, ParseUnsigned, Split;
    var h, m, s := secondOfDay / 3600, secondOfDay % 3600 / 60, secondOfDay % 60;
    PadIsPlain(h, 2);
    PadIsPlain(m, 2);
    PadIsPlain(s, 2);
    SplitsThree(Pad(h, 2), Pad(m, 2), Pad(s, 2), ':');
    PadParses(h, 2, U64_MAX);
    PadParses(m, 2, U64_MAX);
    PadParses(s, 2, U64_MAX);
  }

  /** A year at or after zero reads back; a negative one leaves the first date field empty. */
  lemma DateReadsBack(d: Date)
    requires 1 <= d.month <= 12 && 1 <= d.day <= 31 && InI32(d.year)
    ensures var parts := Split(DateText(d), '-');
            if d.year < 0 then ParseI32(parts[0]) == None
            else
              && |parts| == 3 && ParseI32(parts[0]) == Some(d.year)
              && ParseUnsigned(parts[1], U32_MAX) == Some(d.month) && ParseUnsigned(parts[2], U32_MAX) == Some(d.day)
  {
    hide Pad, DigitsValue;
    if d.year < 0 {
      var rest := Pad(-d.year, 3) + ['-'] + Pad(d.month, 2) + ['-'] + Pad(d.day, 2);
      assert DateText(d) == [] + ['-'] + rest;
      IndexOfFirst([], '-', rest);
      assert DateText(d)[..0] == [];
    } else {
      PadIsPlain(d.year, 4);
      PadIsPlain(d.month, 2);
      PadIsPlain(d.day, 2);
      SplitsThree(Pad(d.year, 4), Pad(d.month, 2), Pad(d.day, 2), '-');
      PadParses(d.year, 4, 0x7FFF_FFFF);
      PadReadsBack(d.year, 4);
      assert IsDigit(Pad(d.year, 4)[0]);
      PadParses(d.month, 2, U32_MAX);
      PadParses(d.day, 2, U32_MAX);
    }
  }

  lemma DateTextHasNoT(d: Date)
    requires 1 <= d.month && 1 <= d.day
    ensures 'T' !in DateText(d)
  {
    hide Pad;
    PadIsPlain(if d.year < 0 then -d.year else d.year, if d.year < 0 then 3 else 4);
    PadIsPlain(d.month, 2);
    PadIsPlain(d.day, 2);
  }

  /** Printed fields are parsed back field by field; a negative year is rejected. */
  lemma RenderParses(d: Date, secondOfDay: nat)
    requires 1 <= d.month <= 12 && 1 <= d.day <= 31 && InI32(d.year) && secondOfDay < SECONDS_PER_DAY
    ensures ParseRfc3339(Render(d, secondOfDay)) ==
      if d.year < 0 then Rejected
      else Assemble(d.year, d.month, d.day, secondOfDay / 3600, secondOfDay % 3600 / 60, secondOfDay % 60)
  {
    hide Pad, PadSigned, Split, ParseI32, ParseUnsigned, Assemble;
    var date, time := DateText(d), TimeText(secondOfDay);
    var body := date + ['T'] + time;
    assert Render(d, secondOfDay) == body + ['Z'];
    assert (body + ['Z'])[..|body|] == body;
    DateTextHasNoT(d);
    IndexOfFirst(date, 'T', time);
    assert body[..|date|] == date && body[|date| + 1..] == time;
    DateReadsBack(d);
    TimeReadsBack(secondOfDay);
  }

  lemma Joins(n: nat, unit: nat)
    requires unit > 0
    ensures n / unit * unit + n % unit == n
  {
  }

  lemma TimeOfDayJoins(secondOfDay: nat)
    ensures secondOfDay / 3600 * 3600 + secondOfDay % 3600 / 60 * 60 + secondOfDay % 60 == secondOfDay
  {
    Joins(secondOfDay, 3600);
    Joins(secondOfDay % 3600, 60);
    SecondsOfHour(secondOfDay / 3600, secondOfDay % 3600);
  }

  lemma SecondsOfHour(hours: nat, rest: nat)
    ensures (hours * 3600 + rest) % 60 == rest % 60
  {
    Shift60(hours * 60, rest);
  }

  lemma Shift60(minutes: nat, rest: nat)
    ensures (minutes * 60 + rest) % 60 == rest % 60
  {
  }

  /** What parsing gives for a printed valid date with a year from 0: the time itself from 1970 on, and
      an arithmetic overflow for every earlier date. */
  lemma DatesParse(d: Date, secondOfDay: nat)
    requires ValidDate(d) && 0 <= d.year && InI32(d.year) && secondOfDay < SECONDS_PER_DAY
    ensures DaysFromCivil(d).Some?
    ensures d.year < 1970 ==> ParseRfc3339(Render(d, secondOfDay)) == Overflow
    ensures d.year >= 1970 ==>
      var parsed := ParseRfc3339(Render(d, secondOfDay));
      parsed.At? && parsed.seconds == DaysFromCivil(d).value * SECONDS_PER_DAY + secondOfDay
  {
    hide Render, ParseRfc3339, DaysFromCivil, CivilWide;
    MonthLengthBounds(d);
    RenderParses(d, secondOfDay);
    WideBijection(0, d);
    TimeOfDayJoins(secondOfDay);
    DaysSinceEpoch(d);
  }

  lemma DaysSinceEpoch(d: Date)
    requires ValidDate(d)
    ensures DaysFromCivil(d).Some? && (DaysFromCivil(d).value < 0 <==> d.year < 1970)
  {
    hide CivilWide, DaysFromCivil, ValidDate;
    WideBijection(0, d);
    EpochStartsItsYear();
    var days := DaysFromCivil(d).value;
    if days < 0 {
      YearsAreMonotone(days, -1);
    } else {
      YearsAreMonotone(0, days);
    }
  }

  predicate FieldsInRange(month: nat, day: nat, hour: nat, minute: nat, second: nat) {
    1 <= month <= 12 && 1 <= day <= 31 && hour <= 23 && minute <= 59 && second <= 59
  }

  /** 30 and 31 February of a year divisible by 400, which have no day number. */
  predicate HasNoDay(year: int, month: nat, day: nat) {
    month == 2 && day >= 30 && year % 400 == 0
  }

  /** A day 1 to 31 of any month has a day number unless it is one of those, negative iff before 1970. */
  lemma DayNumberSign(d: Date)
    requires 1 <= d.month <= 12 && 1 <= d.day <= 31
    ensures DaysFromCivil(d).None? <==> HasNoDay(d.year, d.month, d.day)
    ensures DaysFromCivil(d).Some? ==> (DaysFromCivil(d).value < 0 <==> d.year < 1970)
  {
    hide CivilWide, DaysFromCivil, OverflowDay;
    AnyDayOfMonth(d);
    OverflowMonth(d);
    EpochStartsItsYear();
    if DaysFromCivil(d).Some? {
      var days := DaysFromCivil(d).value;
      if days < 0 {
        YearsAreMonotone(days, -1);
      } else {
        YearsAreMonotone(0, days);
      }
    }
  }

  lemma TimeIsAssembled(d: Date, hour: nat, minute: nat, second: nat)
    requires FieldsInRange(if d.month > 0 then d.month else 0, if d.day > 0 then d.day else 0, hour, minute, second)
    requires Assemble(d.year, d.month, d.day, hour, minute, second).At?
    ensures var seconds := Assemble(d.year, d.month, d.day, hour, minute, second).seconds;
            && CivilWide(seconds / SECONDS_PER_DAY) == (if ValidDate(d) then d else OverflowDay(d))
            && seconds % SECONDS_PER_DAY == hour * 3600 + minute * 60 + second
  {
    hide CivilWide, DaysFromCivil, OverflowDay, MonthLength;
    AnyDayOfMonth(d);
    SplitsAgain(DaysFromCivil(d).value, hour * 3600 + minute * 60 + second);
  }

  lemma SplitsAgain(days: int, rest: nat)
    requires rest < SECONDS_PER_DAY
    ensures (days * SECONDS_PER_DAY + rest) / SECONDS_PER_DAY == days
    ensures (days * SECONDS_PER_DAY + rest) % SECONDS_PER_DAY == rest
  {
  }

  /** What parsing does with every text: it is rejected, overflows, or gives a time, by its fields alone. The time is
      that of the day the date stands for. */
  lemma ParsesExactly(value: string)
    ensures FieldsOf(value).None? ==> ParseRfc3339(value) == Rejected
    ensures FieldsOf(value).Some? ==>
      var (year, month, day, hour, minute, second) := FieldsOf(value).value;
      && (ParseRfc3339(value) == Rejected <==>
            !FieldsInRange(month, day, hour, minute, second) || HasNoDay(year, month, day))
      && (ParseRfc3339(value) == Overflow <==>
            FieldsInRange(month, day, hour, minute, second) && !HasNoDay(year, month, day) && year < 1970)
      && (ParseRfc3339(value).At? <==>
            FieldsInRange(month, day, hour, minute, second) && !HasNoDay(year, month, day) && year >= 1970)
      && (ParseRfc3339(value).At? ==>
            var d, seconds := Date(year, month, day), ParseRfc3339(value).seconds;
            && CivilWide(seconds / SECONDS_PER_DAY) == (if ValidDate(d) then d else OverflowDay(d))
            && seconds % SECONDS_PER_DAY == hour * 3600 + minute * 60 + second)
  {
    hide FieldsOf, DaysFromCivil, HasNoDay, CivilWide, OverflowDay, MonthLength;
    if FieldsOf(value).Some? {
      var (year, month, day, hour, minute, second) := FieldsOf(value).value;
      if FieldsInRange(month, day, hour, minute, second) {
        DayNumberSign(Date(year, month, day));
        if ParseRfc3339(value).At? {
          TimeIsAssembled(Date(year, month, day), hour, minute, second);
        }
      }
    }
  }

  lemma EpochStartsItsYear()
    ensures CivilWide(0).year == 1970 && CivilWide(-1).year == 1969
  {
    hide CivilWide, DaysFromCivil;
    Numbered(Date(1970, 1, 1), 4, 369, 0);
    Numbered(Date(1969, 12, 31), 4, 369, -1);
  }

  // ----- Results -----

  /** Printing and parsing returns the time, cut to whole seconds, exactly when its year fits an i32. */
  lemma RoundTrip(nanos: int)
    ensures ParseRfc3339(FormatRfc3339(nanos)) == At(WholeSeconds(nanos))
       <==> WholeSeconds(nanos) / SECONDS_PER_DAY <= LAST_I32_DAY
  {
    hide Render, ParseRfc3339, DaysFromCivil, CivilWide, NextDay, OverflowDay, MonthLength;
    var seconds := WholeSeconds(nanos);
    var days, secondOfDay := seconds / SECONDS_PER_DAY, seconds % SECONDS_PER_DAY;
    WideBijection(days, CivilWide(days));
    YearFitsExactly(days);
    MonthLengthBounds(CivilWide(days));
    AsI32Fits(CivilWide(days).year);
    var cast := CivilFromDays(days);
    if days <= LAST_I32_DAY {
      AsI32InRange(CivilWide(days).year);
      DaysSinceEpoch(cast);
      DatesParse(cast, secondOfDay);
    } else {
      RenderParses(cast, secondOfDay);
      AnyDayOfMonth(cast);
      OverflowMonth(cast);
      TimeOfDayJoins(secondOfDay);
    }
  }

  /** Every time the parser accepts is printed as text that parses to the same time. */
  lemma AcceptedTimesReprint(value: string)
    ensures ParseRfc3339(value).At? ==>
      ParseRfc3339(FormatRfc3339(ParseRfc3339(value).seconds * NANOS_PER_SECOND)) == ParseRfc3339(value)
  {
    hide FormatRfc3339, DaysFromCivil, CivilWide, OverflowDay, ParseI32, ParseUnsigned, Split, IndexOf;
    var parsed := ParseRfc3339(value);
    if parsed.At? {
      var body := value[..|value| - 1];
      var t := IndexOf(body, 'T');
      var fields := ParseFields(body[..t], body[t + 1..]).value;
      ParsedYearFits(body[..t], body[t + 1..]);
      var d := Date(fields.0, fields.1, fields.2);
      AnyDayOfMonth(d);
      OverflowMonth(d);
      YearFitsExactly(DaysFromCivil(d).value);
      RoundTrip(parsed.seconds * NANOS_PER_SECOND);
    }
  }

  lemma ParsedYearFits(date: string, time: string)
    ensures ParseFields(date, time).Some? ==> InI32(ParseFields(date, time).value.0)
  {
    hide ParseI32, ParseUnsigned, Split;
    I32Fits(Split(date, '-')[0]);
  }

  lemma I32Fits(s: string)
    ensures ParseI32(s).Some? ==> InI32(ParseI32(s).value)
  {
  }
}
