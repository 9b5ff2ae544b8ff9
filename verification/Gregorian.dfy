/**
 * A reference definition of the proleptic Gregorian calendar, UTC, counted
 * from 1970-01-01T00:00:00Z.  It is written independently of the firmware's
 * March-based cycle decomposition (Calendar.dfy), so that the converter can be
 * proved against it: the converter's result is the one valid date-time whose
 * second count is the input.
 */
module Gregorian {

  const SECS_PER_DAY: int := 86400

  /** The result record of the converter; the field order follows the device's date-time structure. */
  datatype DateTime = DateTime(
    second: int, minute: int, hour: int,
    day: int, month: int, year: int,
    weekDay: int, yearDay: int)

  predicate IsLeapYear(y: int)
  {
    y % 4 == 0 && (y % 100 != 0 || y % 400 == 0)
  }

  function YearLength(y: int): int
  {
    if IsLeapYear(y) then 366 else 365
  }

  function DaysInMonth(y: int, m: int): int
    requires 1 <= m <= 12
  {
    if m == 2 then (if IsLeapYear(y) then 29 else 28)
    else if m == 4 || m == 6 || m == 9 || m == 11 then 30
    else 31
  }

  /** Days in a common year before the first of each month; index 12 is the whole year. */
  const CommonDaysBefore: seq<int> := [0, 31, 59, 90, 120, 151, 181, 212, 243, 273, 304, 334, 365]

  /** Days of year y before the first of month m (m == 13 gives the whole year). */
  function DaysBeforeMonth(y: int, m: int): int
    requires 1 <= m <= 13
  {
    CommonDaysBefore[m - 1] + (if m > 2 && IsLeapYear(y) then 1 else 0)
  }

  /** The table above is the running sum of the month lengths. */
  lemma DaysBeforeMonthStep(y: int, m: int)
    requires 1 <= m <= 12
    ensures DaysBeforeMonth(y, m + 1) == DaysBeforeMonth(y, m) + DaysInMonth(y, m)
    ensures DaysBeforeMonth(y, 1) == 0 && DaysBeforeMonth(y, 13) == YearLength(y)
  {
  }

  /** Leap years among 1..x, counted with sign for x < 0 (floor division). */
  function LeapYearsThrough(x: int): int
  {
    x / 4 - x / 100 + x / 400
  }

  /** Days from 1970-01-01 to January 1 of year y (negative before 1970). */
  function DaysBeforeYear(y: int): int
  {
    365 * (y - 1970) + LeapYearsThrough(y - 1) - LeapYearsThrough(1969)
  }

  /** The closed form above advances by exactly one year length per year, from 0 at 1970. */
  lemma YearStep(y: int)
    ensures DaysBeforeYear(y + 1) == DaysBeforeYear(y) + YearLength(y)
    ensures DaysBeforeYear(1970) == 0
  {
    var x := y - 1;
    assert (x + 1) / 4 - x / 4 == (if y % 4 == 0 then 1 else 0);
    assert (x + 1) / 100 - x / 100 == (if y % 100 == 0 then 1 else 0);
    assert (x + 1) / 400 - x / 400 == (if y % 400 == 0 then 1 else 0);
  }

  lemma {:induction false} DaysBeforeYearMonotone(a: int, b: int)
    requires a <= b
    ensures DaysBeforeYear(a) <= DaysBeforeYear(b)
    decreases b - a
  {
    if a < b {
      YearStep(a);
      DaysBeforeYearMonotone(a + 1, b);
    }
  }

  /** Day of the year, 0 for January 1. */
  function DayOfYear(y: int, m: int, d: int): int
    requires 1 <= m <= 12
  {
    DaysBeforeMonth(y, m) + d - 1
  }

  /** Days from 1970-01-01 to y-m-d. */
  function DaysFromCivil(y: int, m: int, d: int): int
    requires 1 <= m <= 12
  {
    DaysBeforeYear(y) + DayOfYear(y, m, d)
  }

  predicate ValidDate(y: int, m: int, d: int)
  {
    1 <= m <= 12 && 1 <= d <= DaysInMonth(y, m)
  }

  /** Weekday of a day count from 1970-01-01, 0 = Sunday (1970-01-01 was a Thursday). */
  function WeekDay(days: int): (w: int)
    ensures 0 <= w < 7
  {
    (days + 4) % 7
  }

  /** Seconds since 1970-01-01T00:00:00Z denoted by the date and time-of-day fields of t. */
  function EpochSeconds(t: DateTime): int
    requires 1 <= t.month <= 12
  {
    DaysFromCivil(t.year, t.month, t.day) * SECS_PER_DAY + t.hour * 3600 + t.minute * 60 + t.second
  }

  /**
   * t is the civil date-time of the instant `unix`: every field is in range, the
   * date exists, weekday and year-day agree with the date, and the fields add up
   * to exactly `unix` seconds.
   */
  ghost predicate IsCivilOf(t: DateTime, unix: int)
  {
    0 <= t.second < 60 && 0 <= t.minute < 60 && 0 <= t.hour < 24
    && ValidDate(t.year, t.month, t.day)
    && t.weekDay == WeekDay(DaysFromCivil(t.year, t.month, t.day))
    && t.yearDay == DayOfYear(t.year, t.month, t.day)
    && EpochSeconds(t) == unix
  }

  lemma DayOfYearInRange(y: int, m: int, d: int)
    requires ValidDate(y, m, d)
    ensures 0 <= DayOfYear(y, m, d) < YearLength(y)
  {
    DaysBeforeMonthStep(y, m);
    if m < 12 {
      DaysBeforeMonthStep(y, m + 1);
    }
  }

  lemma {:induction false} MonthOrder(y: int, m1: int, d1: int, m2: int, d2: int)
    requires ValidDate(y, m1, d1) && ValidDate(y, m2, d2) && m1 < m2
    ensures DayOfYear(y, m1, d1) < DayOfYear(y, m2, d2)
  {
    DaysBeforeMonthStep(y, m1);
    assert CommonDaysBefore[m1] <= CommonDaysBefore[m2 - 1];
  }

  /** Every day of an earlier year comes before every day of a later one. */
  lemma YearsOrdered(y1: int, m1: int, d1: int, y2: int, m2: int, d2: int)
    requires ValidDate(y1, m1, d1) && ValidDate(y2, m2, d2) && y1 < y2
    ensures DaysFromCivil(y1, m1, d1) < DaysFromCivil(y2, m2, d2)
  {
    DayOfYearInRange(y1, m1, d1);
    DayOfYearInRange(y2, m2, d2);
    YearStep(y1);
    DaysBeforeYearMonotone(y1 + 1, y2);
  }

  /** Distinct valid dates are distinct day counts. */
  lemma DateUnique(y1: int, m1: int, d1: int, y2: int, m2: int, d2: int)
    requires ValidDate(y1, m1, d1) && ValidDate(y2, m2, d2)
    requires DaysFromCivil(y1, m1, d1) == DaysFromCivil(y2, m2, d2)
    ensures y1 == y2 && m1 == m2 && d1 == d2
  {
    if y1 < y2 {
      YearsOrdered(y1, m1, d1, y2, m2, d2);
    } else if y2 < y1 {
      YearsOrdered(y2, m2, d2, y1, m1, d1);
    } else if m1 < m2 {
      MonthOrder(y1, m1, d1, m2, d2);
    } else if m2 < m1 {
      MonthOrder(y1, m2, d2, m1, d1);
    }
  }

  /** At most one date-time is the civil date-time of a given instant. */
  lemma CivilUnique(t1: DateTime, t2: DateTime, unix: int)
    requires IsCivilOf(t1, unix) && IsCivilOf(t2, unix)
    ensures t1 == t2
  {
    var days1 := DaysFromCivil(t1.year, t1.month, t1.day);
    var days2 := DaysFromCivil(t2.year, t2.month, t2.day);
    var tod1 := t1.hour * 3600 + t1.minute * 60 + t1.second;
    var tod2 := t2.hour * 3600 + t2.minute * 60 + t2.second;
    assert days1 * SECS_PER_DAY + tod1 == unix == days2 * SECS_PER_DAY + tod2;
    assert 0 <= tod1 < SECS_PER_DAY && 0 <= tod2 < SECS_PER_DAY;
    DayOfSecond(days1, tod1);
    DayOfSecond(days2, tod2);
    assert days1 == days2;
    ClockUnique(t1.hour, t1.minute, t1.second, t2.hour, t2.minute, t2.second);
    DateUnique(t1.year, t1.month, t1.day, t2.year, t2.month, t2.day);
  }

  /** The day of a second counted from midnight of day k is k. */
  lemma DayOfSecond(k: int, r: int)
    requires 0 <= r < SECS_PER_DAY
    ensures (k * SECS_PER_DAY + r) / SECS_PER_DAY == k
  {
  }

  /** A second of the day determines hour, minute and second. */
  lemma ClockUnique(h1: int, m1: int, s1: int, h2: int, m2: int, s2: int)
    requires 0 <= m1 < 60 && 0 <= s1 < 60 && 0 <= m2 < 60 && 0 <= s2 < 60
    requires h1 * 3600 + m1 * 60 + s1 == h2 * 3600 + m2 * 60 + s2
    ensures h1 == h2 && m1 == m2 && s1 == s2
  {
    var a1 := h1 * 60 + m1;
    var a2 := h2 * 60 + m2;
    assert a1 * 60 + s1 == a2 * 60 + s2;
    assert a1 == a2 && s1 == s2;
    assert h1 * 60 + m1 == h2 * 60 + m2;
  }
}
