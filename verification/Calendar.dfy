/** Gregorian dates and day numbers: day 0 is 1970-01-01. */
module Calendar {
  import opened Wrappers

  const DAYS_PER_ERA := 146_097
  const EPOCH_SHIFT := 719_468

  datatype Date = Date(year: int, month: int, day: int)

  // ----- The calendar, independently of the conversion -----

  /** RFC 3339, appendix C. */
  predicate IsLeapYear(year: int) {
    year % 4 == 0 && (year % 100 != 0 || year % 400 == 0)
  }

  /** RFC 3339, section 5.7. */
  function MonthLength(year: int, month: int): int {
    if month == 2 then (if IsLeapYear(year) then 29 else 28)
    else if month in {4, 6, 9, 11} then 30
    else 31
  }

  predicate ValidDate(d: Date) {
    1 <= d.month <= 12 && 1 <= d.day <= MonthLength(d.year, d.month)
  }

  function NextDay(d: Date): Date {
    if d.day < MonthLength(d.year, d.month) then d.(day := d.day + 1)
    else if d.month < 12 then Date(d.year, d.month + 1, 1)
    else Date(d.year + 1, 1, 1)
  }

  predicate InI32(n: int) {
    -0x8000_0000 <= n < 0x8000_0000
  }

  /** The `as i32` cast. */
  function AsI32(n: int): int {
    (n + 0x8000_0000) % 0x1_0000_0000 - 0x8000_0000
  }

  lemma AsI32InRange(n: int)
    requires InI32(n)
    ensures AsI32(n) == n
  {
  }

  // ----- The conversions of the source -----

  /** Division that truncates toward zero. */
  function DivTrunc(a: int, b: int): int
    requires b > 0
  {
    if a >= 0 then a / b else -((-a) / b)
  }

  function YearOfEra(dayOfEra: int): int {
    (dayOfEra - dayOfEra / 1460 + dayOfEra / 36_524 - dayOfEra / 146_096) / 365
  }

  /** The first day of a March-based year within its era. */
  function YearStart(yearOfEra: int): int {
    365 * yearOfEra + yearOfEra / 4 - yearOfEra / 100
  }

  /** civil_from_days before the year is cast. */
  function CivilWide(days: int): Date {
    var shifted := days + EPOCH_SHIFT;
    var era := DivTrunc(if shifted >= 0 then shifted else shifted - 146_096, DAYS_PER_ERA);
    var dayOfEra := shifted - era * DAYS_PER_ERA;
    var yearOfEra := YearOfEra(dayOfEra);
    var dayOfYear := dayOfEra - YearStart(yearOfEra);
    var monthPrime := (5 * dayOfYear + 2) / 153;
    var day := dayOfYear - (153 * monthPrime + 2) / 5 + 1;
    var month := monthPrime + if monthPrime < 10 then 3 else -9;
    Date(yearOfEra + era * 400 + (if month <= 2 then 1 else 0), month, day)
  }

  function CivilFromDays(days: int): Date {
    var d := CivilWide(days);
    d.(year := AsI32(d.year))
  }

  function DaysFromCivil(d: Date): Option<int> {
    var year := d.year - if d.month <= 2 then 1 else 0;
    var era := DivTrunc(if year >= 0 then year else year - 399, 400);
    var yearOfEra := year - era * 400;
    var monthPrime := d.month + if d.month > 2 then -3 else 9;
    var dayOfYear := (153 * monthPrime + 2) / 5 + d.day - 1;
    var dayOfEra := YearStart(yearOfEra) + dayOfYear;
    if dayOfEra >= DAYS_PER_ERA then None
    else Some(era * DAYS_PER_ERA + dayOfEra - EPOCH_SHIFT)
  }

  // ----- Era arithmetic -----

  /** The shifted, truncating divisions are floor divisions. */
  lemma EraOfDays(shifted: int)
    ensures DivTrunc(if shifted >= 0 then shifted else shifted - 146_096, DAYS_PER_ERA) == shifted / DAYS_PER_ERA
  {
  }

  lemma EraOfYear(year: int)
    ensures DivTrunc(if year >= 0 then year else year - 399, 400) == year / 400
  {
  }

  /** A March-based year that ends in February of a leap year has 366 days. */
  function YearLength(yearOfEra: int): int {
    if IsLeapYear(yearOfEra + 1) then 366 else 365
  }

  /** A year within its era, as centuries, four-year spans and years. */
  lemma JoinYear(a: int, b: int, c: int)
    requires 0 <= a < 4 && 0 <= b < 25 && 0 <= c < 4
    ensures YearStart(100 * a + 4 * b + c) == 36_524 * a + 1461 * b + 365 * c
    ensures YearLength(100 * a + 4 * b + c) == if c == 3 && (b < 24 || a == 3) then 366 else 365
  {
    var y := 100 * a + 4 * b + c;
    assert y / 4 == 25 * a + b && y / 100 == a;
  }

  lemma SplitYear(y: int) returns (a: int, b: int, c: int)
    requires 0 <= y < 400
    ensures 0 <= a < 4 && 0 <= b < 25 && 0 <= c < 4 && y == 100 * a + 4 * b + c
    ensures YearStart(y) == 36_524 * a + 1461 * b + 365 * c
    ensures YearLength(y) == if c == 3 && (b < 24 || a == 3) then 366 else 365
  {
    a, b, c := y / 100, y % 100 / 4, y % 4;
    JoinYear(a, b, c);
  }

  lemma YearStartStep(y: int)
    requires 0 <= y < 400
    ensures YearStart(y) + YearLength(y) == if y == 399 then DAYS_PER_ERA else YearStart(y + 1)
    ensures 0 <= YearStart(y) && 365 <= YearLength(y) <= 366
  {
    hide YearStart, YearLength;
    var a, b, c := SplitYear(y);
    if c < 3 {
      JoinYear(a, b, c + 1);
    } else if b < 24 {
      JoinYear(a, b + 1, 0);
    } else if a < 3 {
      JoinYear(a + 1, 0, 0);
    }
  }

  lemma {:induction false} YearStartMonotone(y: int, z: int)
    requires 0 <= y <= z < 400
    ensures YearStart(y) + (if y < z then YearLength(y) else 0) <= YearStart(z)
    decreases z - y
  {
    if y < z {
      YearStartStep(y);
      YearStartMonotone(y + 1, z);
    }
  }

  /** The three corrections of the year formula, each at most one step off. */
  lemma Corrections(a: int, b: int, c: int, dayOfYear: int, doe: int)
    requires 0 <= a < 4 && 0 <= b < 25 && 0 <= c < 4 && doe == 36_524 * a + 1461 * b + 365 * c + dayOfYear
    requires 0 <= dayOfYear < if c == 3 && (b < 24 || a == 3) then 366 else 365
    ensures doe / 1460 == 25 * a + b + if 24 * a + b + 365 * c + dayOfYear >= 1460 then 1 else 0
    ensures doe / 36_524 == a + if 1461 * b + 365 * c + dayOfYear >= 36_524 then 1 else 0
    ensures doe / 146_096 == if doe == 146_096 then 1 else 0
  {
  }

  /** The year formula inverts YearStart: a day of the era lies in the year it names. */
  lemma YearOfEraInverts(y: int, dayOfYear: int)
    requires 0 <= y < 400 && 0 <= dayOfYear < YearLength(y)
    ensures YearOfEra(YearStart(y) + dayOfYear) == y
  {
    hide YearStart, YearLength;
    var a, b, c := SplitYear(y);
    var doe := YearStart(y) + dayOfYear;
    Corrections(a, b, c, dayOfYear, doe);
    var remainder := doe - doe / 1460 + doe / 36_524 - doe / 146_096 - 365 * y;
    assert 0 <= remainder < 365;
  }

  /** Every day of an era lies in exactly one of its 400 years. */
  lemma {:induction false} YearHolding(doe: int, y: int) returns (found: int)
    requires 0 <= y < 400 && YearStart(y) <= doe < DAYS_PER_ERA
    ensures y <= found < 400 && YearStart(found) <= doe < YearStart(found) + YearLength(found)
    decreases 400 - y
  {
    YearStartStep(y);
    found := y;
    if doe >= YearStart(y) + YearLength(y) {
      found := YearHolding(doe, y + 1);
    }
  }

  // ----- Months of a March-based year -----

  function MonthStart(monthPrime: int): int {
    (153 * monthPrime + 2) / 5
  }

  /** The month formula inverts MonthStart on the twelve months, whose lengths are the calendar's. */
  lemma MonthPrimeInverts(monthPrime: int, day: int)
    requires 0 <= monthPrime < 12
         && 1 <= day <= (if monthPrime == 11 then 29 else MonthStart(monthPrime + 1) - MonthStart(monthPrime))
    ensures (5 * (MonthStart(monthPrime) + day - 1) + 2) / 153 == monthPrime
  {
  }

  /** A March-based year and month of a date. */
  function MarchYear(d: Date): int {
    d.year - if d.month <= 2 then 1 else 0
  }

  function MarchMonth(d: Date): int {
    d.month + if d.month > 2 then -3 else 9
  }

  function DayOfYear(d: Date): int {
    MonthStart(MarchMonth(d)) + d.day - 1
  }

  lemma Mod4(x: int, q: int)
    ensures (x + 4 * q) % 4 == x % 4
  {
  }

  lemma Mod100(x: int, q: int)
    ensures (x + 100 * q) % 100 == x % 100
  {
  }

  lemma Mod400(x: int, q: int)
    ensures (x + 400 * q) % 400 == x % 400
  {
  }

  lemma LeapYearsRepeat(x: int, era: int)
    ensures IsLeapYear(x + 400 * era) == IsLeapYear(x)
  {
    Mod4(x, 100 * era);
    Mod100(x, 4 * era);
    Mod400(x, era);
  }

  /** Leap years repeat with the era. */
  lemma YearLengthIsCalendar(marchYear: int)
    ensures YearLength(marchYear % 400) == if IsLeapYear(marchYear + 1) then 366 else 365
  {
    LeapYearsRepeat(marchYear % 400 + 1, marchYear / 400);
    assert marchYear + 1 == marchYear % 400 + 1 + 400 * (marchYear / 400);
  }

  /** Within a month the calendar's length and the month formula agree. */
  lemma MonthLengthIsFormula(d: Date)
    requires 1 <= d.month <= 12
    ensures d.month != 2 ==> MonthLength(d.year, d.month) == MonthStart(MarchMonth(d) + 1) - MonthStart(MarchMonth(d))
    ensures d.month == 2 ==> MonthLength(d.year, d.month) == YearLength(MarchYear(d) % 400) - MonthStart(11)
  {
    YearLengthIsCalendar(MarchYear(d));
  }

  lemma DayOfYearInRange(d: Date)
    requires ValidDate(d)
    ensures 0 <= DayOfYear(d) < YearLength(MarchYear(d) % 400)
  {
    MonthLengthIsFormula(d);
  }

  /** The day number of a valid date, in closed form. */
  function DayNumber(d: Date): int {
    MarchYear(d) / 400 * DAYS_PER_ERA + YearStart(MarchYear(d) % 400) + DayOfYear(d) - EPOCH_SHIFT
  }

  lemma DaysOfValidDate(d: Date)
    requires ValidDate(d)
    ensures DaysFromCivil(d) == Some(DayNumber(d))
    ensures 0 <= YearStart(MarchYear(d) % 400) + DayOfYear(d) < DAYS_PER_ERA
  {
    hide YearStart, YearLength, MonthLength;
    EraOfYear(MarchYear(d));
    DayOfYearInRange(d);
    var y := MarchYear(d) % 400;
    YearStartMonotone(y, 399);
    YearStartStep(y);
    YearStartStep(399);
  }

  /** What the conversion makes of a day given as an era, a year of the era and a day of the year. */
  lemma CivilOfParts(days: int, era: int, y: int, dayOfYear: int)
    requires 0 <= y < 400 && 0 <= dayOfYear < YearLength(y) && 0 <= YearStart(y) + dayOfYear < DAYS_PER_ERA
    requires days + EPOCH_SHIFT == era * DAYS_PER_ERA + (YearStart(y) + dayOfYear)
    ensures var monthPrime := (5 * dayOfYear + 2) / 153;
            var month := monthPrime + if monthPrime < 10 then 3 else -9;
            CivilWide(days) ==
              Date(y + era * 400 + (if month <= 2 then 1 else 0), month, dayOfYear - MonthStart(monthPrime) + 1)
  {
    hide YearStart, YearLength, YearOfEra;
    EraOfDays(days + EPOCH_SHIFT);
    DivisionIs(era, YearStart(y) + dayOfYear);
    YearOfEraInverts(y, dayOfYear);
  }

  lemma DivisionIs(era: int, dayOfEra: int)
    requires 0 <= dayOfEra < DAYS_PER_ERA
    ensures (era * DAYS_PER_ERA + dayOfEra) / DAYS_PER_ERA == era
  {
  }

  /** Converting the day number of a valid date gives the date. */
  lemma CivilOfDayNumber(d: Date)
    requires ValidDate(d)
    ensures CivilWide(DayNumber(d)) == d
  {
    hide YearStart, YearLength, MonthLength, MonthStart, CivilWide, DayOfYear;
    DaysOfValidDate(d);
    DayOfYearInRange(d);
    CivilOfParts(DayNumber(d), MarchYear(d) / 400, MarchYear(d) % 400, DayOfYear(d));
    MonthOfDay(d);
  }

  lemma MonthOfDay(d: Date)
    requires ValidDate(d)
    ensures (5 * DayOfYear(d) + 2) / 153 == MarchMonth(d)
    ensures DayOfYear(d) - MonthStart(MarchMonth(d)) + 1 == d.day
  {
    MonthLengthIsFormula(d);
    MonthPrimeInverts(MarchMonth(d), d.day);
  }

  /** Every day number is the number of a valid date: the one civil_from_days names. */
  lemma CivilIsValid(days: int)
    ensures ValidDate(CivilWide(days))
    ensures DayNumber(CivilWide(days)) == days
  {
    hide YearStart, YearLength, YearOfEra;
    var shifted := days + EPOCH_SHIFT;
    EraOfDays(shifted);
    var era, doe := shifted / DAYS_PER_ERA, shifted % DAYS_PER_ERA;
    YearStartOfZero();
    var y := YearHolding(doe, 0);
    var dayOfYear := doe - YearStart(y);
    YearOfEraInverts(y, dayOfYear);
    DateInYear(era, y, dayOfYear, CivilWide(days));
  }

  lemma YearStartOfZero()
    ensures YearStart(0) == 0
  {
  }

  lemma DateInYear(era: int, y: int, dayOfYear: int, d: Date)
    requires 0 <= y < 400 && 0 <= dayOfYear < YearLength(y)
    requires var monthPrime := (5 * dayOfYear + 2) / 153;
             && d.day == dayOfYear - MonthStart(monthPrime) + 1
             && d.month == monthPrime + (if monthPrime < 10 then 3 else -9)
             && d.year == y + era * 400 + (if d.month <= 2 then 1 else 0)
    ensures ValidDate(d) && MarchYear(d) == era * 400 + y && MarchYear(d) / 400 == era && MarchYear(d) % 400 == y
    ensures DayOfYear(d) == dayOfYear
  {
    MonthBounds(dayOfYear);
    MonthLengthIsFormula(d);
    assert MarchYear(d) == era * 400 + y;
  }

  lemma MonthBounds(dayOfYear: int)
    requires 0 <= dayOfYear < 366
    ensures var m := (5 * dayOfYear + 2) / 153;
            0 <= m < 12 && MonthStart(m) <= dayOfYear && (m < 11 ==> dayOfYear < MonthStart(m + 1))
  {
  }

  // ----- Results -----

  /** The two conversions undo each other on every day number and every valid date, before the cast. */
  lemma WideBijection(days: int, d: Date)
    ensures DaysFromCivil(CivilWide(days)) == Some(days) && ValidDate(CivilWide(days))
    ensures ValidDate(d) ==> DaysFromCivil(d).Some? && CivilWide(DaysFromCivil(d).value) == d
  {
    hide CivilWide, DaysFromCivil, DayNumber, MonthLength;
    CivilIsValid(days);
    DaysOfValidDate(CivilWide(days));
    if ValidDate(d) {
      DaysOfValidDate(d);
      CivilOfDayNumber(d);
    }
  }

  /** Consecutive day numbers are consecutive days of the calendar. */
  lemma WideSuccessor(days: int)
    ensures CivilWide(days + 1) == NextDay(CivilWide(days))
  {
    hide CivilWide, DayNumber, NextDay, ValidDate;
    CivilIsValid(days);
    NextDayNumber(CivilWide(days));
    CivilOfDayNumber(NextDay(CivilWide(days)));
  }

  lemma DayZero()
    ensures CivilFromDays(0) == Date(1970, 1, 1) && DaysFromCivil(Date(1970, 1, 1)) == Some(0)
  {
    hide CivilWide, DaysFromCivil;
    Numbered(Date(1970, 1, 1), 4, 369, 0);
    AsI32InRange(1970);
  }

  /** A valid date in year `y` of era `era` has this day number. */
  lemma Numbered(d: Date, era: int, y: int, days: int)
    requires ValidDate(d) && MarchYear(d) == 400 * era + y && 0 <= y < 400
    requires days == era * DAYS_PER_ERA + YearStart(y) + DayOfYear(d) - EPOCH_SHIFT
    ensures CivilWide(days) == d && DaysFromCivil(d) == Some(days)
  {
    hide CivilWide, DaysFromCivil, MonthLength, YearStart, DayOfYear;
    CivilOfDayNumber(d);
    DaysOfValidDate(d);
  }

  /** Years grow with day numbers. */
  lemma {:induction false} YearsAreMonotone(a: int, b: int)
    requires a <= b
    ensures CivilWide(a).year <= CivilWide(b).year
    decreases b - a
  {
    hide CivilWide, MonthLength;
    if a < b {
      YearsAreMonotone(a, b - 1);
      WideSuccessor(b - 1);
    }
  }

  /** 1 January of the least i32 year and 31 December of the greatest. */
  const FIRST_I32_DAY := -784_353_015_833
  const LAST_I32_DAY := 784_351_576_776

  lemma FirstI32Day()
    ensures CivilWide(FIRST_I32_DAY) == Date(-0x8000_0000, 1, 1)
  {
    hide CivilWide, DaysFromCivil, YearOfEra;
    Numbered(Date(-0x8000_0000, 1, 1), -5368710, 351, FIRST_I32_DAY);
  }

  lemma DayBeforeFirstI32Day()
    ensures CivilWide(FIRST_I32_DAY - 1) == Date(-0x8000_0001, 12, 31)
  {
    hide CivilWide, DaysFromCivil, YearOfEra;
    Numbered(Date(-0x8000_0001, 12, 31), -5368710, 351, FIRST_I32_DAY - 1);
  }

  lemma LastI32Day()
    ensures CivilWide(LAST_I32_DAY) == Date(0x7FFF_FFFF, 12, 31)
  {
    hide CivilWide, DaysFromCivil, YearOfEra;
    Numbered(Date(0x7FFF_FFFF, 12, 31), 5368709, 47, LAST_I32_DAY);
  }

  lemma DayAfterLastI32Day()
    ensures CivilWide(LAST_I32_DAY + 1) == Date(0x8000_0000, 1, 1)
  {
    hide CivilWide, DaysFromCivil, YearOfEra;
    Numbered(Date(0x8000_0000, 1, 1), 5368709, 47, LAST_I32_DAY + 1);
  }

  lemma YearFitsExactly(days: int)
    ensures InI32(CivilWide(days).year) <==> FIRST_I32_DAY <= days <= LAST_I32_DAY
  {
    hide CivilWide;
    FirstI32Day();
    DayBeforeFirstI32Day();
    LastI32Day();
    DayAfterLastI32Day();
    if days < FIRST_I32_DAY {
      YearsAreMonotone(days, FIRST_I32_DAY - 1);
    } else if days <= LAST_I32_DAY {
      YearsAreMonotone(FIRST_I32_DAY, days);
      YearsAreMonotone(days, LAST_I32_DAY);
    } else {
      YearsAreMonotone(LAST_I32_DAY + 1, days);
    }
  }

  /** The conversions of the source undo each other: from a day number exactly when its year fits the
      i32 it is cast to, and from every valid date with such a year. */
  lemma Bijection(days: int, d: Date)
    ensures DaysFromCivil(CivilFromDays(days)) == Some(days) <==> FIRST_I32_DAY <= days <= LAST_I32_DAY
    ensures (ValidDate(d) && InI32(d.year)) ==> (DaysFromCivil(d).Some? && CivilFromDays(DaysFromCivil(d).value) == d)
  {
    hide CivilWide, DaysFromCivil, DayNumber, MonthLength, NextDay, OverflowDay;
    WideBijection(days, d);
    YearFitsExactly(days);
    var cast := CivilFromDays(days);
    if InI32(CivilWide(days).year) {
      AsI32InRange(CivilWide(days).year);
    } else {
      AsI32Fits(CivilWide(days).year);
      assert cast.year != CivilWide(days).year;
      MonthLengthBounds(CivilWide(days));
      AnyDayOfMonth(cast);
      OverflowMonth(cast);
    }
  }

  lemma AsI32Fits(n: int)
    ensures InI32(AsI32(n))
  {
  }

  lemma MonthLengthBounds(d: Date)
    ensures 28 <= MonthLength(d.year, d.month) <= 31
  {
  }

  /** Consecutive day numbers are consecutive days of the calendar, within the years an i32 holds. */
  lemma Successor(days: int)
    requires FIRST_I32_DAY <= days < LAST_I32_DAY
    ensures CivilFromDays(days + 1) == NextDay(CivilFromDays(days))
  {
    hide CivilWide, NextDay;
    WideSuccessor(days);
    YearFitsExactly(days);
    YearFitsExactly(days + 1);
    AsI32InRange(CivilWide(days).year);
    AsI32InRange(CivilWide(days + 1).year);
  }

  /** The date a day past the end of its month stands for: that many days into the next month. */
  function OverflowDay(d: Date): Date {
    Date(d.year, d.month + 1, d.day - MonthLength(d.year, d.month))
  }

  /** What days_from_civil does with the day numbers 1 to 31 in every month. A valid date converts back to
      itself. A day past the end of a month is read as a day of the next month, except 30 and 31 February
      of the last year of an era, which have no day number. */
  lemma AnyDayOfMonth(d: Date)
    requires 1 <= d.month <= 12 && 1 <= d.day <= 31
    ensures DaysFromCivil(d) == None <==> !ValidDate(d) && d.month == 2 && d.year % 400 == 0
    ensures DaysFromCivil(d).Some? ==> CivilWide(DaysFromCivil(d).value) == if ValidDate(d) then d else OverflowDay(d)
    ensures (DaysFromCivil(d).Some? && CivilWide(DaysFromCivil(d).value) == d) <==> ValidDate(d)
  {
    hide CivilWide, DaysFromCivil, DayNumber, MonthLength, OverflowDay;
    if ValidDate(d) {
      DaysOfValidDate(d);
      CivilOfDayNumber(d);
    } else {
      DaysOfOverflow(d);
      if !(d.month == 2 && d.year % 400 == 0) {
        CivilOfDayNumber(OverflowDay(d));
        OverflowMonth(d);
      }
    }
  }

  lemma OverflowMonth(d: Date)
    ensures OverflowDay(d).month == d.month + 1 && OverflowDay(d).year == d.year
  {
  }

  lemma DaysOfOverflow(d: Date)
    requires 1 <= d.month <= 12 && 1 <= d.day <= 31 && !ValidDate(d)
    ensures DaysFromCivil(d) == None <==> d.month == 2 && d.year % 400 == 0
    ensures DaysFromCivil(d).Some? ==> ValidDate(OverflowDay(d)) && DaysFromCivil(d) == Some(DayNumber(OverflowDay(d)))
  {
    hide YearStart, YearLength;
    EraOfYear(MarchYear(d));
    MonthLengthIsFormula(d);
    var y := MarchYear(d) % 400;
    YearStartStep(y);
    YearStartMonotone(y, 399);
    YearStartStep(399);
    if d.month == 2 {
      LastYearOfEra(d.year);
    }
  }

  lemma LastYearOfEra(year: int)
    ensures (year - 1) % 400 == 399 <==> year % 400 == 0
    ensures (year - 1) % 400 != 399 ==> (year % 400 == (year - 1) % 400 + 1 && year / 400 == (year - 1) / 400)
  {
  }

  lemma NextDayNumber(d: Date)
    requires ValidDate(d)
    ensures ValidDate(NextDay(d)) && DayNumber(NextDay(d)) == DayNumber(d) + 1
  {
    hide YearStart, YearLength;
    MonthLengthIsFormula(d);
    if d.day == MonthLength(d.year, d.month) {
      if d.month == 2 {
        var y := MarchYear(d) % 400;
        YearStartStep(y);
        YearStartOfZero();
        assert MarchYear(NextDay(d)) == MarchYear(d) + 1;
      }
    }
  }
}
