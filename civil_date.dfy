/**
 * Calendar arithmetic behind the daily summary: a microsecond count since
 * the Unix epoch is shifted to Asia/Tokyo (a fixed UTC+9), floored to a day
 * number, turned into a proleptic Gregorian date and written as `YYYY-MM-DD`
 * (the `full-date` form of section 5.6 of RFC 3339, which is what
 * `strftime("%Y-%m-%d")` writes for four-digit years).
 */
module CivilDate {
  import opened Text
  import opened Arith

  const MicrosPerDay := 86_400_000_000
  /** Asia/Tokyo is UTC+9 with no daylight saving time. */
  const TokyoOffsetMicros := 9 * 3600 * 1_000_000
  /** Days from 0000-01-01 to 1970-01-01. */
  const EpochDays := 719_528
  /** Days in a 400-year Gregorian cycle. */
  const DaysPerEra := 146_097

  datatype Date = Date(year: int, month: int, day: int)

  predicate IsLeapYear(y: int) {
    y % 4 == 0 && (y % 100 != 0 || y % 400 == 0)
  }

  function DaysInYear(y: int): int {
    if IsLeapYear(y) then 366 else 365
  }

  function DaysInMonth(y: int, m: int): int
    requires 1 <= m <= 12
  {
    if m == 2 then (if IsLeapYear(y) then 29 else 28)
    else if m == 4 || m == 6 || m == 9 || m == 11 then 30
    else 31
  }

  predicate Valid(dt: Date) {
    1 <= dt.month <= 12 && 1 <= dt.day <= DaysInMonth(dt.year, dt.month)
  }

  /** Chronological order of dates: by year, then month, then day. */
  predicate DateLess(a: Date, b: Date) {
    a.year < b.year
    || (a.year == b.year && a.month < b.month)
    || (a.year == b.year && a.month == b.month && a.day < b.day)
  }

  /** Days from 0000-01-01 to y-01-01 (negative before year 0). */
  function DaysBeforeYear(y: int): int {
    365 * y + (y + 3) / 4 - (y + 99) / 100 + (y + 399) / 400
  }

  /** Days from y-01-01 to the first day of month m (m == 13: to the next year). */
  function DaysBeforeMonth(y: int, m: int): int
    requires 1 <= m <= 13
  {
    var common :=
      if m == 1 then 0 else if m == 2 then 31 else if m == 3 then 59
      else if m == 4 then 90 else if m == 5 then 120 else if m == 6 then 151
      else if m == 7 then 181 else if m == 8 then 212 else if m == 9 then 243
      else if m == 10 then 273 else if m == 11 then 304 else if m == 12 then 334
      else 365;
    common + (if m > 2 && IsLeapYear(y) then 1 else 0)
  }

  /** Days from 1970-01-01 to the date. */
  function DayNumber(dt: Date): int
    requires 1 <= dt.month <= 12
  {
    DaysBeforeYear(dt.year) + DaysBeforeMonth(dt.year, dt.month) + dt.day - 1 - EpochDays
  }

  /** `(y + d) / d` exceeds `(y + d - 1) / d` by one exactly when `d` divides `y`. */
  lemma CeilStep(y: int, d: int)
    requires d > 0
    ensures (y + d) / d == (y + d - 1) / d + (if y % d == 0 then 1 else 0)
  {
    var q, r := y / d, y % d;
    DivisionUnique(y + d, d, q + 1, r);
    if r == 0 {
      DivisionUnique(y + d - 1, d, q, d - 1);
    } else {
      DivisionUnique(y + d - 1, d, q + 1, r - 1);
    }
  }

  lemma YearLength(y: int)
    ensures DaysBeforeYear(y + 1) == DaysBeforeYear(y) + DaysInYear(y)
  {
    CeilStep(y, 4);
    CeilStep(y, 100);
    CeilStep(y, 400);
    DivisorChain(y);
  }

  /** A multiple of 400 is a multiple of 100, and a multiple of 100 is a multiple of 4. */
  lemma DivisorChain(y: int)
    ensures y % 400 == 0 ==> y % 100 == 0
    ensures y % 100 == 0 ==> y % 4 == 0
  {
    if y % 400 == 0 {
      DivisionUnique(y, 100, 4 * (y / 400), 0);
    }
    if y % 100 == 0 {
      DivisionUnique(y, 4, 25 * (y / 100), 0);
    }
  }

  lemma MonthLength(y: int, m: int)
    requires 1 <= m <= 12
    ensures DaysBeforeMonth(y, m + 1) == DaysBeforeMonth(y, m) + DaysInMonth(y, m)
    ensures DaysBeforeMonth(y, 13) == DaysInYear(y)
  {
  }

  /** The calendar repeats every 400 years. */
  lemma EraShift(y: int, era: int)
    ensures DaysBeforeYear(y + 400 * era) == DaysBeforeYear(y) + DaysPerEra * era
    ensures IsLeapYear(y + 400 * era) == IsLeapYear(y)
  {
    ShiftDivision(y + 3, 4, 100 * era);
    ShiftDivision(y + 99, 100, 4 * era);
    ShiftDivision(y + 399, 400, era);
    ShiftDivision(y, 4, 100 * era);
    ShiftDivision(y, 100, 4 * era);
    ShiftDivision(y, 400, era);
  }

  lemma {:induction false} DaysBeforeYearMonotone(y1: int, y2: int)
    requires y1 <= y2
    ensures DaysBeforeYear(y1) <= DaysBeforeYear(y2)
    decreases y2 - y1
  {
    if y1 < y2 {
      YearLength(y1);
      DaysBeforeYearMonotone(y1 + 1, y2);
    }
  }

  lemma {:induction false} DaysBeforeMonthMonotone(y: int, m1: int, m2: int)
    requires 1 <= m1 <= m2 <= 13
    ensures DaysBeforeMonth(y, m1) <= DaysBeforeMonth(y, m2)
    decreases m2 - m1
  {
    if m1 < m2 {
      MonthLength(y, m1);
      DaysBeforeMonthMonotone(y, m1 + 1, m2);
    }
  }

  /** The year of era (0..399) whose first day is the last one not after day `doe` of the era. */
  function YearOfEra(doe: int, k: int): (yoe: int)
    requires 0 <= k <= 399 && DaysBeforeYear(k) <= doe < DaysPerEra
    ensures k <= yoe <= 399
    ensures DaysBeforeYear(yoe) <= doe < DaysBeforeYear(yoe + 1)
    decreases 399 - k
  {
    if k == 399 || doe < DaysBeforeYear(k + 1) then k else YearOfEra(doe, k + 1)
  }

  /** The month whose first day is the last one not after day `doy` of year `y`. */
  function MonthOfYear(y: int, doy: int, m: int): (r: int)
    requires 1 <= m <= 12 && DaysBeforeMonth(y, m) <= doy < DaysInYear(y)
    ensures m <= r <= 12
    ensures DaysBeforeMonth(y, r) <= doy < DaysBeforeMonth(y, r + 1)
    decreases 12 - m
  {
    MonthLength(y, 12);
    if m == 12 || doy < DaysBeforeMonth(y, m + 1) then m else MonthOfYear(y, doy, m + 1)
  }

  /** The year that contains day `days` counted from 0000-01-01. */
  function YearOf(days: int): (y: int)
    ensures DaysBeforeYear(y) <= days < DaysBeforeYear(y + 1)
    ensures 0 <= days < 25 * DaysPerEra ==> 0 <= y <= 9999
  {
    var era := days / DaysPerEra;
    var doe := days % DaysPerEra;
    var yoe := YearOfEra(doe, 0);
    EraSplit(days, yoe);
    yoe + 400 * era
  }

  lemma EraSplit(days: int, yoe: int)
    requires 0 <= yoe <= 399
    requires DaysBeforeYear(yoe) <= days % DaysPerEra < DaysBeforeYear(yoe + 1)
    ensures DaysBeforeYear(yoe + 400 * (days / DaysPerEra)) <= days
    ensures days < DaysBeforeYear(yoe + 400 * (days / DaysPerEra) + 1)
    ensures 0 <= days < 25 * DaysPerEra ==> 0 <= days / DaysPerEra <= 24
  {
    var era := days / DaysPerEra;
    DivisionUnique(days, DaysPerEra, era, days % DaysPerEra);
    EraShift(yoe, era);
    EraShift(yoe + 1, era);
    assert yoe + 1 + 400 * era == yoe + 400 * era + 1;
    if 0 <= days < 25 * DaysPerEra {
      if era < 0 {
        MultiplyAtLeast(DaysPerEra, -era);
      }
      if era > 24 {
        MultiplyAtLeast(DaysPerEra, era - 24);
      }
    }
  }

  /**
   * The proleptic Gregorian date of day `n` counted from 1970-01-01: a valid
   * date whose day number is `n`; four-digit for every day of years 0..9999.
   */
  function CivilFromDays(n: int): (dt: Date)
    ensures Valid(dt) && DayNumber(dt) == n
    ensures 0 <= n + EpochDays < 25 * DaysPerEra ==> 0 <= dt.year <= 9999
  {
    var days := n + EpochDays;
    var y := YearOf(days);
    YearLength(y);
    var doy := days - DaysBeforeYear(y);
    var m := MonthOfYear(y, doy, 1);
    MonthLength(y, m);
    Date(y, m, doy - DaysBeforeMonth(y, m) + 1)
  }

  /** Later dates have larger day numbers. */
  lemma DayNumberMonotone(a: Date, b: Date)
    requires Valid(a) && Valid(b) && DateLess(a, b)
    ensures DayNumber(a) < DayNumber(b)
  {
    MonthLength(a.year, a.month);
    if a.year < b.year {
      DaysBeforeMonthMonotone(a.year, a.month + 1, 13);
      MonthLength(a.year, 12);
      YearLength(a.year);
      DaysBeforeYearMonotone(a.year + 1, b.year);
    } else if a.month < b.month {
      DaysBeforeMonthMonotone(a.year, a.month + 1, b.month);
    }
  }

  lemma DateLessTotal(a: Date, b: Date)
    requires a != b
    ensures DateLess(a, b) || DateLess(b, a)
  {
  }

  /** Every valid date is the date of its own day number. */
  lemma CivilRoundTrip(dt: Date)
    requires Valid(dt)
    ensures CivilFromDays(DayNumber(dt)) == dt
  {
    var r := CivilFromDays(DayNumber(dt));
    if r != dt {
      DateLessTotal(r, dt);
      if DateLess(r, dt) {
        DayNumberMonotone(r, dt);
      } else {
        DayNumberMonotone(dt, r);
      }
    }
  }

  /** `%Y-%m-%d` for a year of four digits. */
  function DateString(dt: Date): (s: string)
    requires Valid(dt) && 0 <= dt.year <= 9999
    ensures |s| == 10 && s[4] == '-' && s[7] == '-'
  {
    Pad(dt.year, 4) + (['-'] + Pad(dt.month, 2) + (['-'] + Pad(dt.day, 2)))
  }

  /** The string can be read back: year, month and day are its digit fields. */
  lemma DateStringFields(dt: Date)
    requires Valid(dt) && 0 <= dt.year <= 9999
    ensures ParseDigits(DateString(dt)[..4]) == dt.year
    ensures ParseDigits(DateString(dt)[5..7]) == dt.month
    ensures ParseDigits(DateString(dt)[8..]) == dt.day
  {
    DashedFields(Pad(dt.year, 4), Pad(dt.month, 2), Pad(dt.day, 2));
    PadRoundTrip(dt.year, 4);
    PadRoundTrip(dt.month, 2);
    PadRoundTrip(dt.day, 2);
  }

  /** The three fields of `a-b-c` are where they were put. */
  lemma DashedFields(a: string, b: string, c: string)
    ensures var s := a + (['-'] + b + (['-'] + c));
      s[..|a|] == a && s[|a| + 1..|a| + 1 + |b|] == b && s[|a| + |b| + 2..] == c
  {
    var s := a + (['-'] + b + (['-'] + c));
    assert s[..|a|] == a;
    assert s[|a| + 1..] == b + (['-'] + c);
    assert (b + (['-'] + c))[..|b|] == b;
    assert (b + (['-'] + c))[|b| + 1..] == c;
  }

  /** For four-digit years, string order of the `YYYY-MM-DD` forms is chronological order. */
  lemma DateStringOrder(a: Date, b: Date)
    requires Valid(a) && 0 <= a.year <= 9999
    requires Valid(b) && 0 <= b.year <= 9999
    requires DateLess(a, b)
    ensures LexLess(DateString(a), DateString(b))
  {
    var ta := ['-'] + Pad(a.day, 2);
    var tb := ['-'] + Pad(b.day, 2);
    var ma := ['-'] + Pad(a.month, 2);
    var mb := ['-'] + Pad(b.month, 2);
    if a.year < b.year {
      PadOrder(a.year, b.year, 4);
      LexLessExtend(Pad(a.year, 4), Pad(b.year, 4), ma + ta, mb + tb);
    } else if a.month < b.month {
      PadOrder(a.month, b.month, 2);
      LexLessSamePrefix(['-'], Pad(a.month, 2), Pad(b.month, 2));
      LexLessExtend(ma, mb, ta, tb);
      LexLessSamePrefix(Pad(a.year, 4), ma + ta, mb + tb);
    } else {
      PadOrder(a.day, b.day, 2);
      LexLessSamePrefix(['-'], Pad(a.day, 2), Pad(b.day, 2));
      LexLessSamePrefix(ma, ta, tb);
      LexLessSamePrefix(Pad(a.year, 4), ma + ta, ma + tb);
    }
  }

  /** The Tokyo calendar day (counted from 1970-01-01) of a UTC microsecond timestamp. */
  function TokyoDay(us: int): (n: int)
    ensures n * MicrosPerDay <= us + TokyoOffsetMicros < (n + 1) * MicrosPerDay
  {
    (us + TokyoOffsetMicros) / MicrosPerDay
  }

  /**
   * Timestamps pandas can represent: nanosecond counts strictly above the
   * int64 minimum (which is NaT), read with `unit="us"`.
   */
  const MinMicros := -9_223_372_036_854_775
  const MaxMicros := 9_223_372_036_854_775

  predicate InPandasRange(us: int) { MinMicros <= us <= MaxMicros }

  function TokyoDate(us: int): Date {
    CivilFromDays(TokyoDay(us))
  }

  /** Every representable timestamp falls in a four-digit year (1677..2262). */
  lemma TokyoDateInRange(us: int)
    requires InPandasRange(us)
    ensures Valid(TokyoDate(us)) && 1677 <= TokyoDate(us).year <= 2262
  {
    var n := TokyoDay(us);
    assert -106_752 <= n <= 106_752;
    var first := Date(1677, 1, 1);
    var last := Date(2262, 12, 31);
    assert DayNumber(first) == -107_015;
    assert DayNumber(last) == 107_015;
    var dt := TokyoDate(us);
    if dt.year < 1677 {
      DayNumberMonotone(dt, first);
    }
    if dt.year > 2262 {
      DayNumberMonotone(last, dt);
    }
  }

  /** The `YYYY-MM-DD` label of the Tokyo day of a representable timestamp. */
  function TokyoDateString(us: int): (s: string)
    requires InPandasRange(us)
    ensures |s| == 10
  {
    TokyoDateInRange(us);
    DateString(TokyoDate(us))
  }

  /**
   * The counts are anchored at the Unix epoch: day 0 is 1970-01-01, and the
   * timestamp 1754925304305014 µs (2025-08-11 15:15 UTC) is labelled
   * 2025-08-12 in Tokyo.
   */
  lemma EpochAnchor()
    ensures CivilFromDays(0) == Date(1970, 1, 1)
    ensures TokyoDay(1754925304305014) == 20312
    ensures TokyoDateString(1754925304305014) == "2025-08-12"
  {
    EpochDay();
    var d := Date(2025, 8, 12);
    SampleDay();
    CivilRoundTrip(d);
    SampleFields();
  }

  lemma EpochDay()
    ensures CivilFromDays(0) == Date(1970, 1, 1)
  {
    assert DayNumber(Date(1970, 1, 1)) == 0;
    CivilRoundTrip(Date(1970, 1, 1));
  }

  lemma SampleDay()
    ensures TokyoDay(1754925304305014) == 20312 && DayNumber(Date(2025, 8, 12)) == 20312
  {
  }

  lemma SampleFields()
    ensures DateString(Date(2025, 8, 12)) == "2025-08-12"
  {
    assert Pad(2, 1) == "2";
    assert Pad(20, 2) == "20";
    assert Pad(202, 3) == "202";
    assert Pad(2025, 4) == "2025";
    assert Pad(0, 1) == "0" && Pad(8, 2) == "08";
    assert Pad(1, 1) == "1" && Pad(12, 2) == "12";
  }

  /**
   * The label of a timestamp is the Tokyo date of its day: the date is that
   * day in the calendar, and its fields read back from the label.
   */
  lemma TokyoLabel(us: int)
    requires InPandasRange(us)
    ensures var dt, s := TokyoDate(us), TokyoDateString(us);
      && Valid(dt) && DayNumber(dt) == TokyoDay(us)
      && s[4] == '-' && s[7] == '-'
      && ParseDigits(s[..4]) == dt.year && ParseDigits(s[5..7]) == dt.month && ParseDigits(s[8..]) == dt.day
  {
    TokyoDateInRange(us);
    DateStringFields(TokyoDate(us));
  }

  /**
   * Two timestamps get the same label exactly when they fall on the same
   * Tokyo day, and labels sort (as strings) exactly as the days do.
   */
  lemma TokyoDateStringOrder(u1: int, u2: int)
    requires InPandasRange(u1) && InPandasRange(u2)
    ensures TokyoDay(u1) < TokyoDay(u2) <==> LexLess(TokyoDateString(u1), TokyoDateString(u2))
    ensures TokyoDay(u1) == TokyoDay(u2) <==> TokyoDateString(u1) == TokyoDateString(u2)
  {
    TokyoDateInRange(u1);
    TokyoDateInRange(u2);
    var d1, d2 := TokyoDate(u1), TokyoDate(u2);
    var s1, s2 := TokyoDateString(u1), TokyoDateString(u2);
    if TokyoDay(u1) < TokyoDay(u2) {
      DayOrderToDateOrder(d1, d2);
      DateStringOrder(d1, d2);
      LexLessAsymmetric(s1, s2);
      LexLessIrreflexive(s1);
    } else if TokyoDay(u2) < TokyoDay(u1) {
      DayOrderToDateOrder(d2, d1);
      DateStringOrder(d2, d1);
      LexLessAsymmetric(s2, s1);
      LexLessIrreflexive(s2);
    } else {
      LexLessIrreflexive(s1);
    }
  }

  lemma DayOrderToDateOrder(a: Date, b: Date)
    requires Valid(a) && Valid(b) && DayNumber(a) < DayNumber(b)
    ensures DateLess(a, b)
  {
    if !DateLess(a, b) {
      if a != b {
        DateLessTotal(a, b);
        DayNumberMonotone(b, a);
      }
    }
  }
}
