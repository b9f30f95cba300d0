/**
 * Gregorian calendar arithmetic behind the year and month progress
 * indicators and the month grid: the leap-year rule, month and year
 * lengths, the ordinal day of the year, a day number that orders dates,
 * the weekday of a date, and the two progress percentages.
 *
 * Months are numbered from 0 (January) to 11 (December), as a JavaScript
 * Date numbers them; days of the month from 1. Years are proleptic
 * Gregorian and unbounded.
 */
module Calendar {
  import opened Rounding

  type Month = m: int | 0 <= m < 12

  /** One calendar day with no time of day: the part of a Date that
      `toDateString` keeps, and so the key of the per-day records. */
  datatype Date = Date(year: int, month: Month, day: int)

  predicate IsLeapYear(year: int) {
    year % 400 == 0 || (year % 100 != 0 && year % 4 == 0)
  }

  function DaysInYear(year: int): (n: int)
    ensures n == 365 || n == 366
    ensures n == 366 <==> IsLeapYear(year)
  {
    if IsLeapYear(year) then 366 else 365
  }

  /** The last day of `month`, which the source reads off as day 0 of the
      following month. */
  function DaysInMonth(year: int, month: Month): (n: int)
    ensures 28 <= n <= 31
    ensures n == 29 <==> month == 1 && IsLeapYear(year)
    ensures n == 28 <==> month == 1 && !IsLeapYear(year)
    ensures n == 30 <==> month == 3 || month == 5 || month == 8 || month == 10
  {
    if month == 1 then (if IsLeapYear(year) then 29 else 28)
    else if month == 3 || month == 5 || month == 8 || month == 10 then 30
    else 31
  }

  /** A date that exists: a day of the month between 1 and the month's length. */
  predicate IsValidDate(d: Date) {
    1 <= d.day <= DaysInMonth(d.year, d.month)
  }

  /** The number of days in the months of `year` before month `m`. */
  function DaysBeforeMonth(year: int, m: int): int
    requires 0 <= m <= 12
    decreases m
  {
    if m == 0 then 0 else DaysBeforeMonth(year, m - 1) + DaysInMonth(year, m - 1)
  }

  /** The twelve months fill the year exactly. */
  lemma MonthsFillYear(year: int)
    ensures DaysBeforeMonth(year, 12) == DaysInYear(year)
  {
    assert DaysBeforeMonth(year, 2) == 31 + DaysInMonth(year, 1);
    assert DaysBeforeMonth(year, 7) == DaysBeforeMonth(year, 2) + 153;
    assert DaysBeforeMonth(year, 12) == DaysBeforeMonth(year, 7) + 153;
  }

  lemma {:induction false} DaysBeforeMonthMonotone(year: int, m1: int, m2: int)
    requires 0 <= m1 <= m2 <= 12
    ensures DaysBeforeMonth(year, m1) + 28 * (m2 - m1) <= DaysBeforeMonth(year, m2)
    decreases m2 - m1
  {
    if m1 < m2 {
      DaysBeforeMonthMonotone(year, m1, m2 - 1);
    }
  }

  /** The ordinal day of the year: the number of whole days since December 31
      of the previous year, so that January 1 is day 1. */
  function DayOfYear(d: Date): int {
    DaysBeforeMonth(d.year, d.month) + d.day
  }

  lemma DayOfYearBounds(d: Date)
    requires IsValidDate(d)
    ensures 1 <= DayOfYear(d) <= DaysInYear(d.year)
    ensures d.month == 0 && d.day == 1 ==> DayOfYear(d) == 1
    ensures DayOfYear(d) == DaysInYear(d.year) <==> d.month == 11 && d.day == 31
  {
    MonthsFillYear(d.year);
    DaysBeforeMonthMonotone(d.year, 0, d.month);
    DaysBeforeMonthMonotone(d.year, d.month + 1, 12);
  }

  /** The number of days from January 1 of year 1 to January 1 of `year`
      (negative before year 1). Dafny's division by a positive constant
      rounds down, so this counts the leap years in between for every year. */
  function DaysBeforeYear(year: int): int {
    var y := year - 1;
    365 * y + y / 4 - y / 100 + y / 400
  }

  /** Division by a positive k is determined by any quotient and remainder
      that recompose the dividend. */
  lemma DivUnique(a: int, k: int, q: int, r: int)
    requires k > 0 && 0 <= r < k && a == k * q + r
    ensures a / k == q && a % k == r
  {
    var q', r' := a / k, a % k;
    assert k * q' + r' == a;
    assert k * (q - q') == r' - r;
    MulStrict(k, q - q', 1);
    MulStrict(k, -1, q - q');
  }

  /** How y / k moves when y grows by one: it steps up exactly when y + 1 is
      a multiple of k. */
  lemma DivStep(y: int, k: int)
    requires k > 0
    ensures (y + 1) / k == y / k + (if (y + 1) % k == 0 then 1 else 0)
  {
    var q, r := y / k, y % k;
    assert y == k * q + r;
    if r == k - 1 {
      DivUnique(y + 1, k, q + 1, 0);
      assert (y + 1) % k == 0;
    } else {
      DivUnique(y + 1, k, q, r + 1);
      assert (y + 1) % k == r + 1;
    }
  }

  /** Consecutive years start DaysInYear days apart. */
  lemma YearStep(year: int)
    ensures DaysBeforeYear(year + 1) == DaysBeforeYear(year) + DaysInYear(year)
  {
    var y := year - 1;
    DivStep(y, 4);
    DivStep(y, 100);
    DivStep(y, 400);
    assert y + 1 == year;
  }

  /** The number of days between January 1 of year 1 and `d`: a count that
      grows by one from each day to the next, across months and years. */
  function DayNumber(d: Date): int {
    DaysBeforeYear(d.year) + DayOfYear(d) - 1
  }

  function FirstOfNextMonth(year: int, month: Month): Date {
    if month == 11 then Date(year + 1, 0, 1) else Date(year, month + 1, 1)
  }

  /** The last day of a month is the day before the first of the next month:
      taking "day 0 of the next month" gives the month's length. */
  lemma LastDayPrecedesNextMonth(year: int, month: Month)
    ensures DayNumber(Date(year, month, DaysInMonth(year, month))) + 1
            == DayNumber(FirstOfNextMonth(year, month))
  {
    if month == 11 {
      MonthsFillYear(year);
      YearStep(year);
    }
  }

  /** The comparison `thisDate <= today` between two dates at midnight. */
  predicate OnOrBefore(a: Date, b: Date) {
    DayNumber(a) <= DayNumber(b)
  }

  /** The ordinal day is the number of days elapsed since December 31 of
      the previous year. */
  lemma DayOfYearIsDaysSinceDec31(d: Date)
    requires IsValidDate(d)
    ensures DayOfYear(d) == DayNumber(d) - DayNumber(Date(d.year - 1, 11, 31))
  {
    YearStep(d.year - 1);
    MonthsFillYear(d.year - 1);
  }

  lemma DayNumberWithinYear(d: Date)
    requires IsValidDate(d)
    ensures DaysBeforeYear(d.year) <= DayNumber(d) < DaysBeforeYear(d.year + 1)
  {
    DayOfYearBounds(d);
    YearStep(d.year);
  }

  lemma {:induction false} DaysBeforeYearMonotone(y1: int, y2: int)
    requires y1 <= y2
    ensures DaysBeforeYear(y1) + 365 * (y2 - y1) <= DaysBeforeYear(y2)
    decreases y2 - y1
  {
    if y1 < y2 {
      DaysBeforeYearMonotone(y1, y2 - 1);
      YearStep(y2 - 1);
    }
  }

  /** A date of an earlier year has a smaller day number. */
  lemma EarlierYearFirst(a: Date, b: Date)
    requires IsValidDate(a) && IsValidDate(b) && a.year < b.year
    ensures DayNumber(a) < DayNumber(b)
  {
    DayNumberWithinYear(a);
    DayNumberWithinYear(b);
    DaysBeforeYearMonotone(a.year + 1, b.year);
  }

  /** Within a year, a date of an earlier month has a smaller day number. */
  lemma EarlierMonthFirst(a: Date, b: Date)
    requires IsValidDate(a) && IsValidDate(b) && a.year == b.year && a.month < b.month
    ensures DayNumber(a) < DayNumber(b)
  {
    DaysBeforeMonthMonotone(a.year, a.month + 1, b.month);
    assert DayOfYear(a) < DayOfYear(b);
  }

  /** Comparing day numbers is comparing (year, month, day) lexicographically. */
  lemma OnOrBeforeIsLexicographic(a: Date, b: Date)
    requires IsValidDate(a) && IsValidDate(b)
    ensures OnOrBefore(a, b) <==>
      a.year < b.year ||
      (a.year == b.year && (a.month < b.month || (a.month == b.month && a.day <= b.day)))
  {
    if a.year < b.year {
      EarlierYearFirst(a, b);
    } else if b.year < a.year {
      EarlierYearFirst(b, a);
    } else if a.month < b.month {
      EarlierMonthFirst(a, b);
    } else if b.month < a.month {
      EarlierMonthFirst(b, a);
    }
  }

  /** The day numbers of two existing dates are equal only for the same date. */
  lemma DayNumberInjective(a: Date, b: Date)
    requires IsValidDate(a) && IsValidDate(b) && DayNumber(a) == DayNumber(b)
    ensures a == b
  {
    OnOrBeforeIsLexicographic(a, b);
    OnOrBeforeIsLexicographic(b, a);
  }

  /** The weekday of `d` as `getDay` reports it: 0 for Sunday to 6 for
      Saturday. January 1 of year 1 (day number 0) is a Monday. */
  function Weekday(d: Date): (w: int)
    ensures 0 <= w < 7
  {
    (DayNumber(d) + 1) % 7
  }

  /** Adding k to x moves x's remainder modulo m by k, modulo m. */
  lemma ModShift(x: int, k: int, m: int)
    requires m > 0
    ensures (x + k) % m == (x % m + k) % m
  {
    var q, r := x / m, x % m;
    var q2, r2 := (r + k) / m, (r + k) % m;
    DivUnique(x + k, m, q + q2, r2);
  }

  /** The month grid: the next month starts DaysInMonth weekdays later. */
  lemma WeekdayOfNextMonth(year: int, month: Month)
    ensures Weekday(FirstOfNextMonth(year, month))
            == (Weekday(Date(year, month, 1)) + DaysInMonth(year, month)) % 7
  {
    var length := DaysInMonth(year, month);
    var first := DayNumber(Date(year, month, 1));
    assert DayNumber(Date(year, month, length)) == first + length - 1;
    LastDayPrecedesNextMonth(year, month);
    ModShift(first + 1, length, 7);
  }

  /** 400 Gregorian years are exactly 146097 days, 20871 weeks. */
  lemma FourHundredYearCycle(year: int)
    ensures DaysBeforeYear(year + 400) == DaysBeforeYear(year) + 146097
    ensures IsLeapYear(year + 400) == IsLeapYear(year)
  {
    var y := year - 1;
    assert (y + 400) / 4 == y / 4 + 100;
    assert (y + 400) / 100 == y / 100 + 4;
    assert (y + 400) / 400 == y / 400 + 1;
    assert (year + 400) % 4 == year % 4;
    assert (year + 400) % 100 == year % 100;
    assert (year + 400) % 400 == year % 400;
  }

  /** So a calendar repeats its weekdays every 400 years. */
  lemma WeekdayRepeatsEvery400Years(d: Date)
    ensures Weekday(Date(d.year + 400, d.month, d.day)) == Weekday(d)
  {
    FourHundredYearCycle(d.year);
    SameLeapSameMonths(d.year, d.year + 400, d.month);
    var n := DayNumber(d) + 1;
    assert DayNumber(Date(d.year + 400, d.month, d.day)) + 1 == n + 7 * 20871;
    ModShift(n, 7 * 20871, 7);
    DivUnique(n % 7 + 7 * 20871, 7, 20871, n % 7);
  }

  lemma {:induction false} SameLeapSameMonths(y1: int, y2: int, m: int)
    requires 0 <= m <= 12 && IsLeapYear(y1) == IsLeapYear(y2)
    ensures DaysBeforeMonth(y1, m) == DaysBeforeMonth(y2, m)
    decreases m
  {
    if m > 0 {
      SameLeapSameMonths(y1, y2, m - 1);
    }
  }

  lemma KnownWeekdays()
    ensures Weekday(Date(2024, 0, 1)) == 1
    ensures Weekday(Date(2026, 9, 14)) == 3
    ensures Weekday(Date(2000, 1, 29)) == 2
  {
    assert DaysBeforeYear(2024) == 738885;
    assert DaysBeforeYear(2026) == 739616;
    assert DaysBeforeYear(2000) == 730119;
    assert DaysBeforeMonth(2026, 9) == 273;
  }

  lemma KnownMonthLengths()
    ensures DaysInMonth(2024, 1) == 29 && DaysInMonth(2023, 1) == 28
    ensures DaysInMonth(2000, 1) == 29 && DaysInMonth(1900, 1) == 28
  {
  }

  /** Year progress: the ordinal day as a whole percentage of the year
      (`toFixed(0)` of dayOfYear / totalDaysYear * 100). */
  function YearPercent(d: Date): int {
    RoundRatio(100 * DayOfYear(d), DaysInYear(d.year))
  }

  lemma YearPercentBounds(d: Date)
    requires IsValidDate(d)
    ensures 0 <= YearPercent(d) <= 100
    /* 99.5% and more rounds up: the last two days of the year both show 100%. */
    ensures YearPercent(d) == 100 <==> DayOfYear(d) >= DaysInYear(d.year) - 1
  {
    DayOfYearBounds(d);
    var n, total := DayOfYear(d), DaysInYear(d.year);
    RoundRatioAtLeast(100 * n, total, 0);
    RoundRatioMonotone(100 * n, 100 * total, total);
    RoundRatioExact(100, total);
    if n < total - 1 {
      RoundRatioBelow(100 * n, total, 100);
    } else {
      RoundRatioAtLeast(100 * n, total, 100);
    }
  }

  /** Month progress: the day of the month as a whole percentage of the
      month's length (`Math.round(dayOfMonth / daysInMonth * 100)`). */
  function MonthPercent(d: Date): int {
    RoundRatio(100 * d.day, DaysInMonth(d.year, d.month))
  }

  lemma MonthPercentBounds(d: Date)
    requires IsValidDate(d)
    ensures 0 < MonthPercent(d) <= 100
    ensures MonthPercent(d) == 100 <==> d.day == DaysInMonth(d.year, d.month)
  {
    var total := DaysInMonth(d.year, d.month);
    RoundRatioAtLeast(100 * d.day, total, 1);
    RoundRatioMonotone(100 * d.day, 100 * total, total);
    RoundRatioExact(100, total);
    if d.day < total {
      RoundRatioBelow(100 * d.day, total, 100);
    }
  }
}
