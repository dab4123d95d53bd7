/**
  The Gregorian calendar helpers behind the dot grid: month and year lengths,
  and the ordinal day of the year.

  A date is read the way a JavaScript `Date` exposes it: the full year, a
  0-based month (January is 0, as `getMonth()` returns it) and a 1-based day
  of the month (as `getDate()` returns it).
 */
module Calendar {

  datatype Date = Date(year: int, month0: int, day: int) {

    /** The date exists in the proleptic Gregorian calendar. */
    predicate Valid() {
      0 <= month0 < 12 && 1 <= day <= DaysInMonth(year, month0)
    }
  }

  /** The Gregorian leap-year rule. Only divisibility matters, so the
      truncating remainder of JavaScript and Dafny's Euclidean one agree,
      negative years included. */
  predicate IsLeapYear(year: int) {
    (year % 4 == 0 && year % 100 != 0) || year % 400 == 0
  }

  function DaysInYear(year: int): (n: int)
    ensures n == 365 || n == 366
    ensures n == 366 <==> IsLeapYear(year)
  {
    if IsLeapYear(year) then 366 else 365
  }

  /** The day-of-month of "day 0 of the following month", which a JavaScript
      `Date` normalises to the last day of `month0`. */
  function DaysInMonth(year: int, month0: int): (n: int)
    requires 0 <= month0 < 12
    ensures 28 <= n <= 31
  {
    if month0 == 1 then (if IsLeapYear(year) then 29 else 28)
    else if month0 == 3 || month0 == 5 || month0 == 8 || month0 == 10 then 30
    else 31
  }

  /** February has 29 days exactly in leap years; every other month has 30 or 31. */
  lemma MonthLengths(year: int, month0: int)
    requires 0 <= month0 < 12
    ensures month0 == 1 ==> (DaysInMonth(year, month0) == 29 <==> IsLeapYear(year))
    ensures month0 != 1 ==> DaysInMonth(year, month0) == 30 || DaysInMonth(year, month0) == 31
  {
  }

  /** The number of days in the months of `year` strictly before `month0`. */
  function DaysBeforeMonth(year: int, month0: int): (n: int)
    requires 0 <= month0 <= 12
    ensures 28 * month0 <= n <= 31 * month0
    decreases month0
  {
    if month0 == 0 then 0
    else DaysBeforeMonth(year, month0 - 1) + DaysInMonth(year, month0 - 1)
  }

  /** The twelve month lengths add up to the length of the year: January
      and March to December contribute 337 days, February the rest. */
  lemma MonthLengthsSumToYear(year: int)
    ensures DaysBeforeMonth(year, 12) == DaysInYear(year)
  {
    // The partial sums are not needed for validity; they keep the proof cheap.
    var february := DaysInMonth(year, 1);
    assert DaysBeforeMonth(year, 2) == 31 + february;
    assert DaysBeforeMonth(year, 4) == 92 + february;
    assert DaysBeforeMonth(year, 6) == 153 + february;
    assert DaysBeforeMonth(year, 8) == 215 + february;
    assert DaysBeforeMonth(year, 10) == 276 + february;
    assert DaysBeforeMonth(year, 12) == 337 + february;
  }

  lemma {:induction false} DaysBeforeMonthMonotone(year: int, m1: int, m2: int)
    requires 0 <= m1 <= m2 <= 12
    ensures DaysBeforeMonth(year, m1) <= DaysBeforeMonth(year, m2)
    ensures m1 < m2 ==> DaysBeforeMonth(year, m1) + DaysInMonth(year, m1) <= DaysBeforeMonth(year, m2)
    decreases m2 - m1
  {
    // Unrolling month by month would also do; the induction keeps the proof cheap.
    if m1 < m2 {
      DaysBeforeMonthMonotone(year, m1 + 1, m2);
    }
  }

  /** The ordinal day of the year: January 1 is day 1. */
  function DayOfYear(d: Date): (n: int)
    requires d.Valid()
    ensures 1 <= n <= DaysInYear(d.year)
  {
    DaysBeforeMonthMonotone(d.year, d.month0, 12);
    MonthLengthsSumToYear(d.year);
    DaysBeforeMonth(d.year, d.month0) + d.day
  }

  /** 1000 * 60 * 60 * 24, the `oneDay` of the millisecond arithmetic. */
  const MillisPerDay: int := 86_400_000
  const MillisPerHour: int := 3_600_000

  /** The ordinal day as the millisecond arithmetic computes it: the time
      elapsed from local midnight opening December 31 of the previous year
      (`new Date(year, 0, 0)`) to `d` at `millisOfDay` past local midnight,
      floor-divided by one day. `offsetShift` is how far the local UTC offset
      at `d` is ahead of the offset on December 31 (one hour during northern
      summer time): the wall clock gained that much, so less time elapsed. */
  function DayOfYearByMillis(d: Date, millisOfDay: int, offsetShift: int): (r: int)
    requires d.Valid() && 0 <= millisOfDay < MillisPerDay
    ensures r * MillisPerDay <= DayOfYear(d) * MillisPerDay + millisOfDay - offsetShift
            < r * MillisPerDay + MillisPerDay
  {
    var midnightsCrossed := 1 + DaysBeforeMonth(d.year, d.month0) + (d.day - 1);
    var diff := midnightsCrossed * MillisPerDay + millisOfDay - offsetShift;
    diff / MillisPerDay
  }

  lemma FloorDivOfWholeDays(days: int, millis: int)
    requires 0 <= millis < MillisPerDay
    ensures (days * MillisPerDay + millis) / MillisPerDay == days
  {
  }

  /** With no change of UTC offset since December 31 the millisecond
      arithmetic yields the calendar ordinal, whatever the time of day. */
  lemma DayOfYearByMillisWithoutShift(d: Date, millisOfDay: int)
    requires d.Valid() && 0 <= millisOfDay < MillisPerDay
    ensures DayOfYearByMillis(d, millisOfDay, 0) == DayOfYear(d)
  {
    FloorDivOfWholeDays(DayOfYear(d), millisOfDay);
  }

  /** Half an hour after midnight on any day of northern summer time the
      millisecond arithmetic is one day short. */
  lemma DayOfYearByMillisInSummerTime(d: Date)
    requires d.Valid()
    ensures DayOfYearByMillis(d, MillisPerHour / 2, MillisPerHour) == DayOfYear(d) - 1
  {
    var k := DayOfYear(d);
    assert k * MillisPerDay + MillisPerHour / 2 - MillisPerHour
           == (k - 1) * MillisPerDay + (MillisPerDay - MillisPerHour / 2);
    FloorDivOfWholeDays(k - 1, MillisPerDay - MillisPerHour / 2);
  }

  /** July 1, 2024 is day 183 of its year; at 00:30 under northern summer
      time the millisecond arithmetic reports day 182. */
  lemma SummerTimeCounterexample()
    ensures Date(2024, 6, 1).Valid() && DayOfYear(Date(2024, 6, 1)) == 183
    ensures DayOfYearByMillis(Date(2024, 6, 1), MillisPerHour / 2, MillisPerHour) == 182
  {
    DayOfYearByMillisInSummerTime(Date(2024, 6, 1));
  }

  /** Half an hour before midnight on a standard-time day of a year whose
      previous December 31 fell in summer time (a southern winter), the
      millisecond arithmetic is one day ahead. */
  lemma DayOfYearByMillisAfterSummerTime(d: Date)
    requires d.Valid()
    ensures DayOfYearByMillis(d, MillisPerDay - MillisPerHour / 2, -MillisPerHour) == DayOfYear(d) + 1
  {
    var k := DayOfYear(d);
    assert k * MillisPerDay + (MillisPerDay - MillisPerHour / 2) + MillisPerHour
           == (k + 1) * MillisPerDay + MillisPerHour / 2;
    FloorDivOfWholeDays(k + 1, MillisPerHour / 2);
  }

  /** The month, `month0` or earlier, in which the `n`-th day of `year` falls. */
  function MonthOfOrdinal(year: int, n: int, month0: int): (m: int)
    requires 0 <= month0 < 12
    requires 0 < n <= DaysBeforeMonth(year, month0) + DaysInMonth(year, month0)
    ensures 0 <= m <= month0
    ensures DaysBeforeMonth(year, m) < n <= DaysBeforeMonth(year, m) + DaysInMonth(year, m)
    decreases month0
  {
    if DaysBeforeMonth(year, month0) < n then month0
    else MonthOfOrdinal(year, n, month0 - 1)
  }

  /** The months' day ranges do not overlap: a day falls in one month only. */
  lemma MonthOfDayUnique(year: int, n: int, m1: int, m2: int)
    requires 0 <= m1 < 12 && 0 <= m2 < 12
    requires DaysBeforeMonth(year, m1) < n <= DaysBeforeMonth(year, m1) + DaysInMonth(year, m1)
    requires DaysBeforeMonth(year, m2) < n <= DaysBeforeMonth(year, m2) + DaysInMonth(year, m2)
    ensures m1 == m2
  {
    if m1 < m2 {
      DaysBeforeMonthMonotone(year, m1, m2);
    } else if m2 < m1 {
      DaysBeforeMonthMonotone(year, m2, m1);
    }
  }

  /** The inverse of `DayOfYear`: the date of `year` with ordinal `n`. */
  function DateOfOrdinal(year: int, n: int): (d: Date)
    requires 1 <= n <= DaysInYear(year)
    ensures d.Valid() && d.year == year && DayOfYear(d) == n
  {
    MonthLengthsSumToYear(year);
    var m := MonthOfOrdinal(year, n, 11);
    Date(year, m, n - DaysBeforeMonth(year, m))
  }

  /** Every valid date is recovered from its year and ordinal day, so
      `DayOfYear` is a bijection between the dates of a year and
      1..DaysInYear(year). */
  lemma OrdinalRoundTrip(d: Date)
    requires d.Valid()
    ensures DateOfOrdinal(d.year, DayOfYear(d)) == d
  {
    var n := DayOfYear(d);
    MonthLengthsSumToYear(d.year);
    var m := MonthOfOrdinal(d.year, n, 11);
    MonthOfDayUnique(d.year, n, m, d.month0);
  }

  /** Within one year the ordinal follows calendar order, in both directions. */
  lemma DayOfYearOrdered(d1: Date, d2: Date)
    requires d1.Valid() && d2.Valid() && d1.year == d2.year
    ensures (d1.month0 < d2.month0 || (d1.month0 == d2.month0 && d1.day < d2.day))
            <==> DayOfYear(d1) < DayOfYear(d2)
  {
    if d1.month0 < d2.month0 {
      DaysBeforeMonthMonotone(d1.year, d1.month0, d2.month0);
    } else if d2.month0 < d1.month0 {
      DaysBeforeMonthMonotone(d1.year, d2.month0, d1.month0);
    }
  }

  /** January 1 is day 1 and December 31 is the last day of the year. */
  lemma YearEndpoints(year: int)
    ensures Date(year, 0, 1).Valid() && DayOfYear(Date(year, 0, 1)) == 1
    ensures Date(year, 11, 31).Valid() && DayOfYear(Date(year, 11, 31)) == DaysInYear(year)
  {
    MonthLengthsSumToYear(year);
  }
}
