/**
 * getCurrentTime of time.cpp: the conversion of a Unix second count into a
 * civil date-time.  The day count is taken relative to 2000-03-01 (LEAPOCH),
 * cut into 400-, 100-, 4- and 1-year cycles (each clamped on a cycle's last
 * day), and the remaining days are walked through a month table that starts
 * in March.  The method SecsToCivil follows the source statement by statement;
 * its contract says that the result is the civil date-time of the input in
 * the Gregorian reference calendar, which by Gregorian.CivilUnique pins it down.
 */
module Calendar {
  import opened CArith
  import opened Gregorian
  import Ntp

  const DAYS_PER_WEEK: int := 7
  const DAYS_OF_YEAR: int := 365
  /** 2000-03-01T00:00:00Z: 2000-01-01 plus January and a leap February. */
  const LEAPOCH: int := 946684800 + SECS_PER_DAY * (31 + 29)
  const DAYS_PER_400Y: int := DAYS_OF_YEAR * 400 + 97
  const DAYS_PER_100Y: int := DAYS_OF_YEAR * 100 + 24
  const DAYS_PER_4Y: int := DAYS_OF_YEAR * 4 + 1
  /** Days from 1970-01-01 to LEAPOCH. */
  const LEAPOCH_DAYS: int := 11017

  /** Month lengths from March to the following February, February with its leap day. */
  const DaysInMonthFromMarch: seq<int> := [31, 30, 31, 30, 31, 31, 30, 31, 30, 31, 31, 29]

  /** Days from March 1 to the first of the i-th month after it. */
  function DaysBeforeMarchMonth(i: int): int
    requires 0 <= i <= 12
  {
    if i == 0 then 0 else DaysBeforeMarchMonth(i - 1) + DaysInMonthFromMarch[i - 1]
  }

  /** Running sums of the month table; it covers 366 days, so a walk over at most 365 days stops inside it. */
  lemma MarchTableSums()
    ensures forall i :: 0 <= i <= 12 ==>
      DaysBeforeMarchMonth(i) == [0, 31, 61, 92, 122, 153, 184, 214, 245, 275, 306, 337, 366][i]
  {
    assert DaysBeforeMarchMonth(1) == 31;
    assert DaysBeforeMarchMonth(2) == 61;
    assert DaysBeforeMarchMonth(3) == 92;
    assert DaysBeforeMarchMonth(4) == 122;
    assert DaysBeforeMarchMonth(5) == 153;
    assert DaysBeforeMarchMonth(6) == 184;
    assert DaysBeforeMarchMonth(7) == 214;
    assert DaysBeforeMarchMonth(8) == 245;
    assert DaysBeforeMarchMonth(9) == 275;
    assert DaysBeforeMarchMonth(10) == 306;
    assert DaysBeforeMarchMonth(11) == 337;
    assert DaysBeforeMarchMonth(12) == 366;
  }

  /** The source's leap flag for the calendar year that starts in the cycles' last March is the Gregorian rule. */
  lemma MarchYearLeap(qc: int, c: int, q: int, ry: int)
    requires 0 <= c <= 3 && 0 <= q <= 24 && 0 <= ry <= 3
    ensures IsLeapYear(2000 + 400 * qc + 100 * c + 4 * q + ry) <==> ry == 0 && (q != 0 || c == 0)
  {
    DivMod4(500 + 100 * qc + 25 * c + q, ry);
    DivMod100(20 + 4 * qc + c, 4 * q + ry);
    DivMod400(5 + qc, 100 * c + 4 * q + ry);
  }

  /** Leap years up to the year before that March: 97 per 400-year cycle, 24 per 100-year cycle, one per 4-year cycle. */
  lemma LeapYearsBeforeMarchYear(qc: int, c: int, q: int, ry: int)
    requires 0 <= c <= 3 && 0 <= q <= 24 && 0 <= ry <= 3
    ensures LeapYearsThrough(1999 + 400 * qc + 100 * c + 4 * q + ry)
      == 485 + 97 * qc + 24 * c + q - (if ry == 0 then 1 else 0)
         + (if 4 * q + ry == 0 then 1 else 0) - (if 100 * c + 4 * q + ry == 0 then 1 else 0)
  {
    var r := 100 * c + 4 * q + ry;
    if ry == 0 {
      DivMod4(499 + 100 * qc + 25 * c + q, 3);
    } else {
      DivMod4(500 + 100 * qc + 25 * c + q, ry - 1);
    }
    if 4 * q + ry == 0 {
      DivMod100(19 + 4 * qc + c, 99);
    } else {
      DivMod100(20 + 4 * qc + c, 4 * q + ry - 1);
    }
    if r == 0 {
      DivMod400(4 + qc, 399);
    } else {
      DivMod400(5 + qc, r - 1);
    }
  }

  /**
   * The cycle decomposition meets the reference calendar on March 1 of year
   * 2000 + n: 400-, 100-, 4- and 1-year cycles add up to the Gregorian day
   * count, and the source's leap flag is the Gregorian leap rule for that year.
   */
  lemma MarchFirst(qc: int, c: int, q: int, ry: int)
    requires 0 <= c <= 3 && 0 <= q <= 24 && 0 <= ry <= 3
    ensures var y := 2000 + 400 * qc + 100 * c + 4 * q + ry;
      && (IsLeapYear(y) <==> ry == 0 && (q != 0 || c == 0))
      && DaysBeforeYear(y) + 59 + (if IsLeapYear(y) then 1 else 0)
         == LEAPOCH_DAYS + qc * DAYS_PER_400Y + c * DAYS_PER_100Y + q * DAYS_PER_4Y + ry * DAYS_OF_YEAR
  {
    MarchYearLeap(qc, c, q, ry);
    LeapYearsBeforeMarchYear(qc, c, q, ry);
    assert LeapYearsThrough(1969) == 477;
  }

  /** On the last day of a 4-year cycle (February 29), the calendar year really is a leap year. */
  lemma LeapDayExists(qc: int, c: int, q: int)
    requires 0 <= c <= 3 && 0 <= q <= 24 && (q == 24 ==> c == 3)
    ensures IsLeapYear(2001 + 400 * qc + 100 * c + 4 * q + 3)
  {
    DivMod4(501 + 100 * qc + 25 * c + q, 0);
    if q == 24 {
      DivMod100(24 + 4 * qc, 0);
      DivMod400(6 + qc, 0);
    } else {
      DivMod100(20 + 4 * qc + c, 4 + 4 * q);
    }
  }

  /**
   * Day `r` of the i-th month after March 1 of year y, for March to December:
   * the table month is the Gregorian month i + 3 of year y.
   */
  lemma MarchToDecember(y: int, i: int, r: int)
    requires 0 <= i < 10 && 0 <= r < DaysInMonthFromMarch[i]
    ensures var leap := if IsLeapYear(y) then 1 else 0;
      var yd := DaysBeforeMarchMonth(i) + r;
      && yd < 306
      && ValidDate(y, i + 3, r + 1)
      && DayOfYear(y, i + 3, r + 1) == yd + 59 + leap
  {
    MarchTableSums();
    var leap := if IsLeapYear(y) then 1 else 0;
    assert DaysInMonthFromMarch[i] == DaysInMonth(y, i + 3);
    assert CommonDaysBefore[i + 2] == DaysBeforeMarchMonth(i) + 59;
  }

  /**
   * Day `r` of the 10th or 11th month after March 1 of year y: January or
   * February of year y + 1, provided a February 29 falls only in a leap year.
   */
  lemma JanuaryFebruary(y: int, i: int, r: int)
    requires 10 <= i < 12 && 0 <= r < DaysInMonthFromMarch[i]
    requires i == 11 ==> r < 28 + (if IsLeapYear(y + 1) then 1 else 0)
    ensures var leap := if IsLeapYear(y) then 1 else 0;
      var yd := DaysBeforeMarchMonth(i) + r;
      && yd >= 306
      && ValidDate(y + 1, i - 9, r + 1)
      && DayOfYear(y + 1, i - 9, r + 1) == yd - 306
      && DaysFromCivil(y + 1, i - 9, r + 1) == DaysBeforeYear(y) + 59 + leap + yd
  {
    MarchTableSums();
    YearStep(y);
  }

  /** The value of the truncating remainder once it has been moved into [0, m). */
  lemma WeekDayRemainder(a: int, r: int)
    requires r == (if CRem(a, DAYS_PER_WEEK) < 0 then CRem(a, DAYS_PER_WEEK) + DAYS_PER_WEEK else CRem(a, DAYS_PER_WEEK))
    ensures r == a % DAYS_PER_WEEK
  {
  }

  /**
   * The date reached by the cycle decomposition and the month walk, read as a
   * Gregorian date: it exists, it lies `LEAPOCH_DAYS` plus the cycles' day
   * count after 1970-01-01, and the source's year-day (March 1 is day 59 plus
   * the leap flag, wrapped at the year length) is its day of the year.
   */
  lemma CycleDateIsCivil(qc: int, c: int, q: int, ry: int, yd: int, i: int, r: int,
                          days: int, y: int, m: int, yday: int)
    requires 0 <= c <= 3 && 0 <= q <= 24 && 0 <= ry <= 3 && 0 <= yd <= DAYS_OF_YEAR
    requires yd == DAYS_OF_YEAR ==> ry == 3 && (q == 24 ==> c == 3)
    requires qc * DAYS_PER_400Y + c * DAYS_PER_100Y + q * DAYS_PER_4Y + ry * DAYS_OF_YEAR + yd == days
    requires 0 <= i < 12 && 0 <= r < DaysInMonthFromMarch[i] && DaysBeforeMarchMonth(i) + r == yd
    requires y == 2000 + ry + 4 * q + 100 * c + 400 * qc + (if i >= 10 then 1 else 0)
    requires m == if i >= 10 then i - 9 else i + 3
    requires var leap := if ry == 0 && (q != 0 || c == 0) then 1 else 0;
      yday == if yd + 59 + leap >= DAYS_OF_YEAR + leap then yd + 59 - DAYS_OF_YEAR else yd + 59 + leap
    ensures ValidDate(y, m, r + 1)
    ensures DaysFromCivil(y, m, r + 1) == LEAPOCH_DAYS + days
    ensures yday == DayOfYear(y, m, r + 1)
  {
    var marchYear := 2000 + 400 * qc + 100 * c + 4 * q + ry;
    var leap := if IsLeapYear(marchYear) then 1 else 0;
    MarchFirst(qc, c, q, ry);
    assert DaysBeforeYear(marchYear) + 59 + leap == LEAPOCH_DAYS + days - yd;
    if i < 10 {
      MarchToDecember(marchYear, i, r);
      assert y == marchYear && m == i + 3 && yday == yd + 59 + leap;
    } else {
      if i == 11 && r == 28 {
        LeapDayExists(qc, c, q);
      }
      JanuaryFebruary(marchYear, i, r);
      assert y == marchYear + 1 && m == i - 9 && yday == yd - 306;
    }
  }

  /** A date, a day count and a second of the day that agree make up the civil date-time of the instant. */
  lemma CivilFromParts(t: DateTime, unix: int, days: int, remsecs: int)
    requires 0 <= remsecs < SECS_PER_DAY && days * SECS_PER_DAY + remsecs == unix - LEAPOCH
    requires ValidDate(t.year, t.month, t.day)
    requires DaysFromCivil(t.year, t.month, t.day) == LEAPOCH_DAYS + days
    requires t.weekDay == WeekDay(LEAPOCH_DAYS + days)
    requires t.yearDay == DayOfYear(t.year, t.month, t.day)
    requires t.second == remsecs % 60 && t.minute == remsecs / 60 % 60 && t.hour == remsecs / 3600
    ensures IsCivilOf(t, unix)
  {
    TimeOfDay(remsecs);
  }

  /** The clock fields of a second of the day. */
  lemma TimeOfDay(s: int)
    requires 0 <= s < SECS_PER_DAY
    ensures 0 <= s % 60 < 60 && 0 <= s / 60 % 60 < 60 && 0 <= s / 3600 < 24
    ensures s / 3600 * 3600 + s / 60 % 60 * 60 + s % 60 == s
  {
    var h, m := s / 3600, s % 3600;
    assert s == 3600 * h + m && 0 <= m < 3600;
    assert s / 60 == 60 * h + m / 60;
    DivMod60(h, m / 60);
  }

  lemma DivMod60(k: int, r: int)
    requires 0 <= r < 60
    ensures (60 * k + r) % 60 == r
  {
  }

  /** LEAPOCH (a Wednesday) lies 11017 days after 1970-01-01 (a Thursday). */
  lemma WeekDayFromLeapoch(days: int)
    ensures WeekDay(LEAPOCH_DAYS + days) == (3 + days) % DAYS_PER_WEEK
  {
    assert LEAPOCH_DAYS + days + 4 == (3 + days) + 7 * 1574;
  }

  /**
   * Lines 64-71 of getCurrentTime: seconds since LEAPOCH split, with C's
   * truncating division, into whole days and a second of the day, then
   * corrected so that the second of the day is never negative.
   */
  method SplitDays(unix: uint32) returns (days: int, remsecs: int)
    ensures 0 <= remsecs < SECS_PER_DAY
    ensures days * SECS_PER_DAY + remsecs == unix - LEAPOCH
    ensures -LEAPOCH_DAYS <= days <= 38693
  {
    var secs := unix - LEAPOCH;
    days := CDiv(secs, SECS_PER_DAY);
    remsecs := CRem(secs, SECS_PER_DAY);
    if remsecs < 0 {
      remsecs := remsecs + SECS_PER_DAY;
      days := days - 1;
    }
  }

  /**
   * Lines 73-77 of getCurrentTime: the weekday, 0 = Sunday, counted from
   * LEAPOCH (a Wednesday) with C's truncating remainder, then made non-negative.
   */
  method DayOfWeek(days: int) returns (wday: int)
    ensures 0 <= wday < DAYS_PER_WEEK && wday == (3 + days) % DAYS_PER_WEEK
    ensures wday == WeekDay(LEAPOCH_DAYS + days)
  {
    wday := CRem(3 + days, DAYS_PER_WEEK);
    if wday < 0 {
      wday := wday + DAYS_PER_WEEK;
    }
    WeekDayRemainder(3 + days, wday);
    WeekDayFromLeapoch(days);
  }

  /**
   * Lines 79-107 of getCurrentTime: days since LEAPOCH cut into 400-, 100-, 4-
   * and 1-year cycles.  The cycles add back up to `days`; the day left over is
   * at most 365, and it is 365 only on a February 29, the last day of a 4-year
   * cycle, whose last 100-year cycle is then the one that ends a 400-year cycle.
   */
  method CycleDecomposition(days: int) returns (qcCycles: int, cCycles: int, qCycles: int, remyears: int, remdays: int)
    ensures 0 <= cCycles <= 3 && 0 <= qCycles <= 24 && 0 <= remyears <= 3
    ensures 0 <= remdays <= DAYS_OF_YEAR
    ensures qcCycles * DAYS_PER_400Y + cCycles * DAYS_PER_100Y + qCycles * DAYS_PER_4Y
            + remyears * DAYS_OF_YEAR + remdays == days
    ensures remdays == DAYS_OF_YEAR ==> remyears == 3 && (qCycles == 24 ==> cCycles == 3)
  {
    qcCycles := CDiv(days, DAYS_PER_400Y);
    remdays := CRem(days, DAYS_PER_400Y);
    if remdays < 0 {
      remdays := remdays + DAYS_PER_400Y;
      qcCycles := qcCycles - 1;
    }

    cCycles := remdays / DAYS_PER_100Y;
    if cCycles == 4 {
      cCycles := cCycles - 1;
    }
    remdays := remdays - cCycles * DAYS_PER_100Y;
    assert remdays <= DAYS_PER_100Y && (remdays == DAYS_PER_100Y ==> cCycles == 3);

    qCycles := remdays / DAYS_PER_4Y;
    assert qCycles <= 24;  // so the clamp below never fires
    if qCycles == 25 {
      qCycles := qCycles - 1;
    }
    remdays := remdays - qCycles * DAYS_PER_4Y;
    ghost var inCycle4 := remdays;
    assert remdays == DAYS_PER_4Y - 1 && qCycles == 24 ==> cCycles == 3;

    remyears := remdays / DAYS_OF_YEAR;
    if remyears == 4 {
      remyears := remyears - 1;
    }
    remdays := remdays - remyears * DAYS_OF_YEAR;
    assert remdays == DAYS_OF_YEAR ==> inCycle4 == DAYS_PER_4Y - 1;
  }

  /**
   * Lines 117-121 of getCurrentTime: walk the month table from March.  The
   * walk stops inside the table, at the month holding day `yd` of the
   * March-based year, and `remdays` is the day within that month.
   */
  method WalkMonths(yd: int) returns (months: int, remdays: int)
    requires 0 <= yd <= DAYS_OF_YEAR
    ensures 0 <= months < 12
    ensures 0 <= remdays < DaysInMonthFromMarch[months]
    ensures DaysBeforeMarchMonth(months) + remdays == yd
  {
    MarchTableSums();
    months := 0;
    remdays := yd;
    while DaysInMonthFromMarch[months] <= remdays
      invariant 0 <= months < 12 && 0 <= remdays
      invariant DaysBeforeMarchMonth(months) + remdays == yd
    {
      remdays := remdays - DaysInMonthFromMarch[months];
      months := months + 1;
    }
  }

  /**
   * getCurrentTime without its call to getUnixTime: the civil date-time of the
   * Unix second count `unix`.  SplitDays bounds the day count to a few tens of
   * thousands, so none of the source's `int` variables can overflow.
   */
  method SecsToCivil(unix: uint32) returns (t: DateTime)
    ensures IsCivilOf(t, unix)
    ensures 0 <= t.weekDay < DAYS_PER_WEEK && 0 <= t.yearDay < YearLength(t.year)
  {
    var days, remsecs := SplitDays(unix);

    var wday := DayOfWeek(days);

    var qcCycles, cCycles, qCycles, remyears, remdays := CycleDecomposition(days);

    var leap := if remyears == 0 && (qCycles != 0 || cCycles == 0) then 1 else 0;
    var yday := remdays + 31 + 28 + leap;
    if yday >= DAYS_OF_YEAR + leap {
      yday := yday - (DAYS_OF_YEAR + leap);
    }

    var years := remyears + 4 * qCycles + 100 * cCycles + 400 * qcCycles;
    var months, dayIndex := WalkMonths(remdays);
    ghost var marchMonth := months;
    months := months + 2;
    if months >= 12 {
      months := months - 12;
      years := years + 1;
    }

    t := DateTime(
      remsecs % 60, remsecs / 60 % 60, remsecs / 3600,
      dayIndex + 1, months + 1, years + 2000,
      wday, yday);
    CycleDateIsCivil(qcCycles, cCycles, qCycles, remyears, remdays, marchMonth, dayIndex,
                     days, t.year, t.month, t.yearDay);
    CivilFromParts(t, unix, days, remsecs);
    DayOfYearInRange(t.year, t.month, t.day);
  }

  /** getCurrentTime: fetch the network time and convert it. */
  method GetCurrentTime(arrivals: seq<bool>, reply: seq<byte>) returns (t: DateTime)
    ensures IsCivilOf(t, Ntp.UnixTime(Ntp.TransmitSeconds(Ntp.AfterRead(Ntp.RequestPacket(), reply))))
  {
    var unix := Ntp.GetUnixTime(arrivals, reply);
    t := SecsToCivil(unix);
  }

  /**
   * Reference instants.  Because SecsToCivil's result satisfies IsCivilOf and at
   * most one date-time does (Gregorian.CivilUnique), each lemma fixes the
   * converter's output for that input.
   */
  /** A date-time whose date is `days` after 1970-01-01 and whose fields agree is the civil date-time of its second count. */
  lemma CivilOfDate(t: DateTime, days: int)
    requires 0 <= t.second < 60 && 0 <= t.minute < 60 && 0 <= t.hour < 24
    requires ValidDate(t.year, t.month, t.day) && DaysFromCivil(t.year, t.month, t.day) == days
    requires t.weekDay == WeekDay(days) && t.yearDay == DayOfYear(t.year, t.month, t.day)
    ensures IsCivilOf(t, days * SECS_PER_DAY + t.hour * 3600 + t.minute * 60 + t.second)
  {
  }

  lemma UnixEpochAnchor(t: DateTime)
    requires IsCivilOf(t, 0)
    ensures t == DateTime(0, 0, 0, 1, 1, 1970, 4, 0)
  {
    CivilUnique(t, DateTime(0, 0, 0, 1, 1, 1970, 4, 0), 0);
  }

  /** LEAPOCH is 2000-03-01T00:00:00Z, a Wednesday, day 60 of a leap year. */
  lemma LeapochAnchor(t: DateTime)
    requires IsCivilOf(t, LEAPOCH)
    ensures t == DateTime(0, 0, 0, 1, 3, 2000, 3, 60)
  {
    assert LeapYearsThrough(1999) == 484 && LeapYearsThrough(1969) == 477;
    assert DaysBeforeYear(2000) == 10957;
    assert DaysFromCivil(2000, 3, 1) == LEAPOCH_DAYS;
    CivilOfDate(DateTime(0, 0, 0, 1, 3, 2000, 3, 60), LEAPOCH_DAYS);
    CivilUnique(t, DateTime(0, 0, 0, 1, 3, 2000, 3, 60), LEAPOCH);
  }

  /** 1700000000 is 2023-11-14T22:13:20Z, a Tuesday. */
  lemma RecentAnchor(t: DateTime)
    requires IsCivilOf(t, 1700000000)
    ensures t == DateTime(20, 13, 22, 14, 11, 2023, 2, 317)
  {
    assert LeapYearsThrough(2022) == 490 && LeapYearsThrough(1969) == 477;
    assert DaysBeforeYear(2023) == 19358;
    assert DaysFromCivil(2023, 11, 14) == 19675;
    CivilOfDate(DateTime(20, 13, 22, 14, 11, 2023, 2, 317), 19675);
    CivilUnique(t, DateTime(20, 13, 22, 14, 11, 2023, 2, 317), 1700000000);
  }

  /** 2000 is divisible by 400, so it has a February 29 (a Tuesday). */
  lemma LeapDay2000Anchor(t: DateTime)
    requires IsCivilOf(t, 951782400)
    ensures t == DateTime(0, 0, 0, 29, 2, 2000, 2, 59)
  {
    assert LeapYearsThrough(1999) == 484 && LeapYearsThrough(1969) == 477;
    assert DaysBeforeYear(2000) == 10957;
    assert DaysFromCivil(2000, 2, 29) == 11016;
    CivilOfDate(DateTime(0, 0, 0, 29, 2, 2000, 2, 59), 11016);
    CivilUnique(t, DateTime(0, 0, 0, 29, 2, 2000, 2, 59), 951782400);
  }

  /** 2100 is divisible by 100 but not by 400: its February 28 (a Sunday) is followed by March 1. */
  lemma Century2100Anchor(t: DateTime)
    requires IsCivilOf(t, 4107456000)
    ensures t == DateTime(0, 0, 0, 28, 2, 2100, 0, 58)
  {
    assert LeapYearsThrough(2099) == 509 && LeapYearsThrough(1969) == 477;
    assert DaysBeforeYear(2100) == 47482;
    assert DaysFromCivil(2100, 2, 28) == 47540;
    CivilOfDate(DateTime(0, 0, 0, 28, 2, 2100, 0, 58), 47540);
    CivilUnique(t, DateTime(0, 0, 0, 28, 2, 2100, 0, 58), 4107456000);
  }

  lemma Century2100NextDayAnchor(t: DateTime)
    requires IsCivilOf(t, 4107456000 + SECS_PER_DAY)
    ensures t == DateTime(0, 0, 0, 1, 3, 2100, 1, 59)
  {
    assert LeapYearsThrough(2099) == 509 && LeapYearsThrough(1969) == 477;
    assert DaysBeforeYear(2100) == 47482;
    assert DaysFromCivil(2100, 3, 1) == 47541;
    CivilOfDate(DateTime(0, 0, 0, 1, 3, 2100, 1, 59), 47541);
    CivilUnique(t, DateTime(0, 0, 0, 1, 3, 2100, 1, 59), 4107456000 + SECS_PER_DAY);
  }

  /** The time a missing NTP reply leads to (Ntp.NoReplyTime): 2036-02-07T06:28:16Z, a Thursday. */
  lemma NoReplyAnchor(t: DateTime)
    requires IsCivilOf(t, 2085978496)
    ensures t == DateTime(16, 28, 6, 7, 2, 2036, 4, 37)
  {
    assert LeapYearsThrough(2035) == 493 && LeapYearsThrough(1969) == 477;
    assert DaysBeforeYear(2036) == 24106;
    assert DaysFromCivil(2036, 2, 7) == 24143;
    CivilOfDate(DateTime(16, 28, 6, 7, 2, 2036, 4, 37), 24143);
    CivilUnique(t, DateTime(16, 28, 6, 7, 2, 2036, 4, 37), 2085978496);
  }
}
