/**
  The time-partition calculator: for a view (the days of this month, the days
  of this year, or the years of a life) and the current date, how many units
  the period has, how many have passed and how many remain, and one cell per
  unit flagged passed and/or today.

  The current date is a parameter: the calculator itself reads no clock.
 */
module TimeUtils {
  import opened Calendar

  datatype ViewType = Month | Year | Life

  /** The summary shown above the grid. `progress` is an exact fraction. */
  datatype TimeData = TimeData(
    totalDays: int,
    passedDays: int,
    remainingDays: int,
    unitLabel: string,
    progress: real)

  datatype DotCell = DotCell(index: int, isPassed: bool, isToday: bool)

  /** Years in a life, the length of the life view. */
  const LifeExpectancy: int := 85

  function Min(a: int, b: int): int {
    if a <= b then a else b
  }

  function Max(a: int, b: int): int {
    if a >= b then a else b
  }

  /** The fraction of the period passed, `passed / total` as an exact real. */
  function Progress(passed: int, total: int): (p: real)
    requires total > 0
    ensures p * total as real == passed as real
    ensures 0.0 <= p <==> 0 <= passed
    ensures p < 1.0 <==> passed < total
    ensures p <= 1.0 <==> passed <= total
  {
    RatioBounds(passed as real, total as real);
    passed as real / total as real
  }

  lemma RatioBounds(a: real, b: real)
    requires b > 0.0
    ensures (a / b) * b == a
    ensures 0.0 <= a / b <==> 0.0 <= a
    ensures a / b < 1.0 <==> a < b
    ensures a / b <= 1.0 <==> a <= b
  {
    var q := a / b;
    assert q * b == a;
    assert (1.0 - q) * b == b - a;
    if q < 0.0 {
      assert q * b < 0.0;
    }
    if q > 0.0 {
      assert q * b > 0.0;
    }
    if 1.0 - q < 0.0 {
      assert (1.0 - q) * b < 0.0;
    }
    if 1.0 - q > 0.0 {
      assert (1.0 - q) * b > 0.0;
    }
    assert q < 1.0 <==> 1.0 - q > 0.0;
    assert q <= 1.0 <==> 1.0 - q >= 0.0;
  }

  function GetTimeData(view: ViewType, birthYear: int, now: Date): (t: TimeData)
    requires now.Valid()
    ensures t.totalDays > 0
    ensures t.passedDays + t.remainingDays == t.totalDays
    ensures t.progress == Progress(t.passedDays, t.totalDays)
    ensures view.Month? ==>
      && t.totalDays == DaysInMonth(now.year, now.month0)
      && t.passedDays == now.day - 1
      && t.unitLabel == "days left this month"
    ensures view.Year? ==>
      && t.totalDays == DaysInYear(now.year)
      && t.passedDays == DayOfYear(now) - 1
      && t.unitLabel == "days left this year"
    ensures view.Life? ==>
      && t.totalDays == LifeExpectancy
      && t.passedDays <= now.year - birthYear
      && t.passedDays <= LifeExpectancy
      && (t.passedDays == now.year - birthYear || t.passedDays == LifeExpectancy)
      && t.unitLabel == "years remaining"
  {
    match view
    case Month =>
      var totalDays := DaysInMonth(now.year, now.month0);
      var passedDays := now.day - 1;
      TimeData(totalDays, passedDays, totalDays - passedDays,
               "days left this month", Progress(passedDays, totalDays))
    case Year =>
      var totalDays := DaysInYear(now.year);
      var passedDays := DayOfYear(now) - 1;
      TimeData(totalDays, passedDays, totalDays - passedDays,
               "days left this year", Progress(passedDays, totalDays))
    case Life =>
      var totalYears := LifeExpectancy;
      var ageInYears := now.year - birthYear;
      var passedYears := Min(ageInYears, totalYears);
      TimeData(totalYears, passedYears, Max(0, totalYears - passedYears),
               "years remaining", Progress(passedYears, totalYears))
  }

  /** Month view: the month has 28 to 31 days, February has 29 exactly in
      leap years, and today is not counted as passed, so at least one day
      (today) remains. */
  lemma MonthViewBounds(birthYear: int, now: Date)
    requires now.Valid()
    ensures var t := GetTimeData(Month, birthYear, now);
      && 28 <= t.totalDays <= 31
      && (now.month0 == 1 ==> (t.totalDays == 29 <==> IsLeapYear(now.year)))
      && 0 <= t.passedDays < t.totalDays
      && t.remainingDays >= 1
      && 0.0 <= t.progress < 1.0
  {
  }

  /** Year view: the year has 366 days exactly in leap years; January 1 has
      nothing passed and December 31 leaves one day. The days passed this year
      are those of the earlier months plus the days passed this month. */
  lemma YearViewBounds(birthYear: int, now: Date)
    requires now.Valid()
    ensures var t := GetTimeData(Year, birthYear, now);
      && (t.totalDays == 366 <==> IsLeapYear(now.year))
      && 0 <= t.passedDays < t.totalDays
      && t.remainingDays >= 1
      && 0.0 <= t.progress < 1.0
      && (now.month0 == 0 && now.day == 1 ==> t.passedDays == 0)
      && (now.month0 == 11 && now.day == 31 ==> t.passedDays == t.totalDays - 1)
      && t.passedDays == DaysBeforeMonth(now.year, now.month0)
                         + GetTimeData(Month, birthYear, now).passedDays
  {
    YearEndpoints(now.year);
  }

  /** Life view: passed years are capped at the life expectancy, nothing
      remains exactly from age 85 on, and the progress stays in [0, 1]
      exactly when the birth year is not in the future. */
  lemma LifeViewClamp(birthYear: int, now: Date)
    requires now.Valid()
    ensures var t := GetTimeData(Life, birthYear, now);
      && t.passedDays == Min(now.year - birthYear, LifeExpectancy)
      && t.remainingDays == LifeExpectancy - t.passedDays
      && (t.remainingDays == 0 <==> now.year - birthYear >= LifeExpectancy)
      && (t.passedDays < 0 <==> birthYear > now.year)
      && ((0.0 <= t.progress <= 1.0) <==> birthYear <= now.year)
  {
  }

  /** The birth years the settings screen accepts: 1900 up to the current year. */
  predicate AcceptedBirthYear(birthYear: int, now: Date) {
    1900 <= birthYear <= now.year
  }

  lemma LifeViewForAcceptedBirthYear(birthYear: int, now: Date)
    requires now.Valid() && AcceptedBirthYear(birthYear, now)
    ensures var t := GetTimeData(Life, birthYear, now);
      && 0 <= t.passedDays <= t.totalDays
      && 0 <= t.remainingDays <= t.totalDays
      && 0.0 <= t.progress <= 1.0
  {
    LifeViewClamp(birthYear, now);
  }

  /** The year view as the millisecond arithmetic would give it on July 1,
      2024 at 00:30 under a one-hour summer time: 181 days passed and today's
      cell at 181, where the calendar gives 182 for both. */
  lemma SummerTimeYearViewOneDayEarly(birthYear: int)
    ensures var now := Date(2024, 6, 1);
      && now.Valid()
      && DayOfYearByMillis(now, MillisPerHour / 2, MillisPerHour) - 1 == 181
      && GetTimeData(Year, birthYear, now).passedDays == 182
      && TodayIndex(Year, now) == 182
  {
    SummerTimeCounterexample();
  }

  /** The index of today's cell: one less than today's day of the month in
      the month view, one less than today's ordinal in the year view, and none
      (-1) in the life view. */
  function TodayIndex(view: ViewType, now: Date): (r: int)
    requires now.Valid()
    ensures view.Life? ==> r == -1
    ensures view.Month? ==> r == now.day - 1 && 0 <= r < DaysInMonth(now.year, now.month0)
    ensures view.Year? ==> r == DayOfYear(now) - 1 && 0 <= r < DaysInYear(now.year)
  {
    var currentDay := if view.Month? then now.day else DayOfYear(now);
    if view.Life? then -1 else currentDay - 1
  }

  /** The number of cells the loop produces: none when `totalDays` is not positive. */
  function CellCount(t: TimeData): nat {
    if t.totalDays > 0 then t.totalDays else 0
  }

  /** `cells` holds one cell per unit of `t`, in order, flagged against the
      passed count of `t` and the given today index. */
  predicate CellsMatch(cells: seq<DotCell>, t: TimeData, todayIndex: int) {
    && |cells| == CellCount(t)
    && forall i :: 0 <= i < |cells| ==>
         cells[i] == DotCell(i, i < t.passedDays, i == todayIndex)
  }

  method GenerateDotCells(t: TimeData, view: ViewType, now: Date) returns (cells: seq<DotCell>)
    requires now.Valid()
    ensures CellsMatch(cells, t, TodayIndex(view, now))
  {
    cells := [];
    var todayIndex := TodayIndex(view, now);
    var i := 0;
    while i < t.totalDays
      invariant 0 <= i <= CellCount(t)
      invariant |cells| == i
      invariant forall j :: 0 <= j < i ==> cells[j] == DotCell(j, j < t.passedDays, j == todayIndex)
    {
      cells := cells + [DotCell(i, i < t.passedDays, i == todayIndex)];
      i := i + 1;
    }
  }

  function PassedCount(cells: seq<DotCell>): (n: nat)
    ensures n <= |cells|
  {
    if |cells| == 0 then 0
    else PassedCount(cells[..|cells| - 1]) + (if cells[|cells| - 1].isPassed then 1 else 0)
  }

  function TodayCount(cells: seq<DotCell>): (n: nat)
    ensures n <= |cells|
  {
    if |cells| == 0 then 0
    else TodayCount(cells[..|cells| - 1]) + (if cells[|cells| - 1].isToday then 1 else 0)
  }

  /** If exactly the cells before position `p` are passed, the passed count is
      `p` clipped to the length of the sequence. */
  lemma {:induction false} PassedCountOfPrefix(cells: seq<DotCell>, p: int)
    requires forall i :: 0 <= i < |cells| ==> (cells[i].isPassed <==> i < p)
    ensures PassedCount(cells) == Max(0, Min(p, |cells|))
  {
    if |cells| > 0 {
      PassedCountOfPrefix(cells[..|cells| - 1], p);
    }
  }

  /** If exactly the cell at position `k` is today, there is one today cell
      when `k` is a position of the sequence and none otherwise. */
  lemma {:induction false} TodayCountOfSingle(cells: seq<DotCell>, k: int)
    requires forall i :: 0 <= i < |cells| ==> (cells[i].isToday <==> i == k)
    ensures TodayCount(cells) == (if 0 <= k < |cells| then 1 else 0)
  {
    if |cells| > 0 {
      TodayCountOfSingle(cells[..|cells| - 1], k);
    }
  }

  /** The passed cells are counted by `PassedDays` clipped to the grid, and
      both counts agree with the summary whenever the passed count is not
      negative (always, except a life view with a future birth year). */
  lemma PassedCellsMatchSummary(view: ViewType, birthYear: int, now: Date, cells: seq<DotCell>)
    requires now.Valid()
    requires CellsMatch(cells, GetTimeData(view, birthYear, now), TodayIndex(view, now))
    ensures var t := GetTimeData(view, birthYear, now);
      && |cells| == t.totalDays
      && PassedCount(cells) == Max(0, t.passedDays)
      && (t.passedDays >= 0 ==>
            PassedCount(cells) == t.passedDays && |cells| - PassedCount(cells) == t.remainingDays)
  {
    var t := GetTimeData(view, birthYear, now);
    PassedCountOfPrefix(cells, t.passedDays);
  }

  /** With the same current date as the summary, the month and year grids
      have exactly one today cell, at position `passedDays`: every cell before
      it is passed and every cell after it is neither passed nor today. */
  lemma TodayCellConsistent(view: ViewType, birthYear: int, now: Date, cells: seq<DotCell>)
    requires now.Valid() && !view.Life?
    requires CellsMatch(cells, GetTimeData(view, birthYear, now), TodayIndex(view, now))
    ensures var p := GetTimeData(view, birthYear, now).passedDays;
      && TodayCount(cells) == 1
      && 0 <= p < |cells|
      && cells[p].isToday && !cells[p].isPassed
      && (forall i :: 0 <= i < p ==> cells[i].isPassed && !cells[i].isToday)
      && (forall i :: p < i < |cells| ==> !cells[i].isPassed && !cells[i].isToday)
  {
    var t := GetTimeData(view, birthYear, now);
    if view.Month? {
      MonthViewBounds(birthYear, now);
    } else {
      YearViewBounds(birthYear, now);
    }
    assert TodayIndex(view, now) == t.passedDays;
    TodayCountOfSingle(cells, t.passedDays);
  }

  /** The life grid marks no cell as today. */
  lemma LifeHasNoToday(birthYear: int, now: Date, cells: seq<DotCell>)
    requires now.Valid()
    requires CellsMatch(cells, GetTimeData(Life, birthYear, now), TodayIndex(Life, now))
    ensures TodayCount(cells) == 0
    ensures forall i :: 0 <= i < |cells| ==> !cells[i].isToday
  {
    TodayCountOfSingle(cells, -1);
  }
}
