# Time-partition calculator and dot-grid layout

A Dafny model of the core of a "life in dots" app: the calculator that splits
a period (this month, this year, or an 85-year life) into passed and remaining
units, the generator that turns that summary into one cell per unit, and the
grid component's row layout.

- `calendar.dfy` (module `Calendar`) holds the Gregorian calendar. It covers
  the leap-year rule, month and year lengths, and the ordinal day of the year
  with its inverse. It also models the millisecond arithmetic that the app
  uses to compute that ordinal.
- `time_utils.dfy` (module `TimeUtils`) holds the view type, the `TimeData`
  summary, `DotCell`, `getTimeData` (`GetTimeData`) and `generateDotCells`
  (`GenerateDotCells`). It also proves lemmas that tie the cells back to the
  summary.
- `dot_grid.dfy` (module `DotGrid`) holds the column count per view and the
  loop that chunks the cells into rows (`BuildRows`). `Chunk` is a recursive
  reference definition of that chunking. `Layout` composes cells, columns,
  rows and the scroll flag.

The current date is a parameter of type `Calendar.Date`. It has a full year, a
0-based month as JavaScript's `getMonth()` returns it, and a day of the month.
The app reads the clock twice, once in `getTimeData` and once in
`generateDotCells`. The model passes the same date to both.

`progress` is an exact `real`, not a double. The `label` field is called
`unitLabel`, because `label` is a Dafny keyword.

Two behaviours of the code are easy to miss:

- **Future birth year.** In the life view a birth year after the current year
  makes `passedDays` and `progress` negative. Only the settings screen's check
  (`src/screens/HomeScreen.tsx:92`) keeps such years out.
- **The `Math.max(0, …)` clamp** on the life view's remaining years never has
  an effect. `passedDays + remainingDays == totalDays` holds in every view
  (`TimeUtils.GetTimeData`, `TimeUtils.LifeViewClamp`).

## Model

| member | source | states |
|---|---|---|
| Calendar.DaysInYear | src/utils/timeUtils.ts:21-23 | a year has 365 or 366 days, 366 exactly when the Gregorian leap rule holds |
| Calendar.DaysInMonth | src/utils/timeUtils.ts:17-19 | every month has 28 to 31 days |
| Calendar.MonthLengths | src/utils/timeUtils.ts:17-23 | February has 29 days exactly in leap years; every other month has 30 or 31 |
| Calendar.MonthLengthsSumToYear | src/utils/timeUtils.ts:17-23 | the twelve month lengths add up to the year length |
| Calendar.DayOfYear | src/utils/timeUtils.ts:25-30 | the ordinal day lies in 1..DaysInYear of its year |
| Calendar.DateOfOrdinal | src/utils/timeUtils.ts:25-30 | every ordinal 1..DaysInYear is the ordinal of a valid date of that year |
| Calendar.OrdinalRoundTrip | src/utils/timeUtils.ts:25-30 | every valid date is recovered from its year and ordinal, so the ordinal is a bijection onto 1..DaysInYear |
| Calendar.DayOfYearOrdered | src/utils/timeUtils.ts:25-30 | within a year, one date precedes another in calendar order exactly when its ordinal is smaller |
| Calendar.YearEndpoints | src/utils/timeUtils.ts:25-30 | January 1 is day 1 and December 31 is day DaysInYear |
| Calendar.DayOfYearByMillis | src/utils/timeUtils.ts:25-30 | the result is the floor of the elapsed milliseconds over one day: the elapsed time, from local midnight opening December 31 to the date and time of day, less the gained UTC offset, lies in [r days, r + 1 days) |
| Calendar.DayOfYearByMillisWithoutShift | src/utils/timeUtils.ts:25-30 | with no UTC-offset change since December 31, the floor-divided milliseconds equal the calendar ordinal at any time of day |
| Calendar.DayOfYearByMillisInSummerTime | src/utils/timeUtils.ts:25-30 | half an hour after midnight under a one-hour summer-time shift, the floor-divided milliseconds are one day short of the ordinal |
| Calendar.SummerTimeCounterexample | src/utils/timeUtils.ts:25-30 | July 1, 2024 is day 183, yet the millisecond arithmetic gives 182 at 00:30 summer time |
| Calendar.DayOfYearByMillisAfterSummerTime | src/utils/timeUtils.ts:25-30 | half an hour before midnight on a standard-time day after a December 31 in summer time (a southern winter), the arithmetic is one day ahead of the ordinal |
| TimeUtils.Progress | src/utils/timeUtils.ts:47 | progress times total is passed; it is non-negative, below 1 and at most 1 exactly when passed is non-negative, below total and at most total |
| TimeUtils.GetTimeData | src/utils/timeUtils.ts:32-73 | total is positive and passed + remaining == total in every view; progress is passed/total; per view: month length and day - 1, year length and ordinal - 1, or 85 and the age capped at 85; the three labels |
| TimeUtils.MonthViewBounds | src/utils/timeUtils.ts:39-48 | month view: 28..31 days, 29 in a leap February, 0 <= passed < total, at least one day left, progress in [0, 1) |
| TimeUtils.YearViewBounds | src/utils/timeUtils.ts:50-59 | year view: 366 days exactly in leap years, 0 <= passed < total, at least one day left, progress in [0, 1), January 1 gives 0 passed, December 31 gives total - 1, passed is earlier months plus the month view's passed |
| TimeUtils.LifeViewClamp | src/utils/timeUtils.ts:61-72 | life view: passed is min(age, 85), remaining is 85 - passed, nothing remains exactly from age 85, passed is negative exactly for a future birth year, progress lies in [0, 1] exactly when the birth year is not in the future |
| TimeUtils.LifeViewForAcceptedBirthYear | src/screens/HomeScreen.tsx:90-97 | for a birth year the settings screen accepts (1900 to the current year), passed, remaining and progress stay within their bounds |
| TimeUtils.SummerTimeYearViewOneDayEarly | src/utils/timeUtils.ts:25-59 | on July 1, 2024 at 00:30 under a one-hour summer time, the millisecond arithmetic would make the year view's passed count and today index 181, where the calendar ordinal gives 182 |
| TimeUtils.TodayIndex | src/utils/timeUtils.ts:82-83 | the life view has no today index (-1); the month view's is the day of the month less one, within the month; the year view's is the ordinal less one, within the year |
| TimeUtils.GenerateDotCells | src/utils/timeUtils.ts:79-93 | one cell per unit in order; cell i has index i, is passed exactly when i < passedDays, and is today exactly when i is today's index |
| TimeUtils.PassedCountOfPrefix | src/utils/timeUtils.ts:85-91 | when exactly the cells before p are passed, the passed count is p clipped to the sequence |
| TimeUtils.TodayCountOfSingle | src/utils/timeUtils.ts:85-91 | when exactly the cell at k is today, there is one today cell if k is a position and none otherwise |
| TimeUtils.PassedCellsMatchSummary | src/utils/timeUtils.ts:79-92 | the cells number totalDays, the passed cells number max(0, passedDays), and passed and unpassed counts equal passedDays and remainingDays whenever passedDays is non-negative |
| TimeUtils.TodayCellConsistent | src/utils/timeUtils.ts:81-89 | for the same date, a month or year grid has exactly one today cell, at index passedDays, not passed; the cells before it are passed and the cells after it are neither |
| TimeUtils.LifeHasNoToday | src/utils/timeUtils.ts:83 | the life grid has no today cell |
| DotGrid.Columns | src/components/DotGrid.tsx:19-30 | every view has a positive column count |
| DotGrid.ChunkFlattens | src/components/DotGrid.tsx:34-37 | joining the rows gives back the cell sequence exactly, in order |
| DotGrid.ChunkRowSizes | src/components/DotGrid.tsx:35-36 | every row holds 1 to columns cells, and every row but the last is full |
| DotGrid.ChunkCount | src/components/DotGrid.tsx:35-36 | the number of rows is ceil(cells / columns) |
| DotGrid.ChunkRowAt | src/components/DotGrid.tsx:35-36 | row r is the slice of at most columns cells starting at r * columns, inside the sequence |
| DotGrid.ChunkPosition | src/components/DotGrid.tsx:35-36 | row r, position c holds cell r * columns + c |
| DotGrid.BuildRows | src/components/DotGrid.tsx:34-37 | the row loop yields exactly the recursive chunking of the cells |
| DotGrid.Layout | src/components/DotGrid.tsx:16-39 | the grid holds the generated cells in order, in ceil(cells / columns) rows of at most columns, all but the last full, with the view's column count; it scrolls exactly in the year view |
| DotGrid.GridShape | src/components/DotGrid.tsx:19-36 | a month grid has 4 or 5 rows, 4 exactly for a 28-day February; a year grid has 23 rows; a life grid has 9 rows, the last holding 5 years |

## Left out

- Clock reads (`src/utils/timeUtils.ts:33`, `:81`): the current date is a parameter. Both calls get the same date, so a render that straddles midnight is not modelled.
- The `default` branches (`src/utils/timeUtils.ts:74-75`, `src/components/DotGrid.tsx:27-28`): the view type has three constructors, so these branches cannot be reached. The app could reach them only through the unchecked cast of a stored string (`src/screens/HomeScreen.tsx:57`).
- Time zones and daylight saving: the millisecond arithmetic of `getDayOfYear` is modelled as `Calendar.DayOfYearByMillis`, with the UTC-offset change as a parameter. The calculator itself uses the calendar ordinal; see Findings.
- JavaScript `Date` treats years 0 to 99 as 1900 to 1999. The model uses the proleptic Gregorian calendar for every year.
- Floating point: `progress` is an exact rational, with no IEEE rounding.
- `dotSize` and the other pixel arithmetic in `src/components/DotGrid.tsx:12-14, 22-28`: rendering, not logic.
- Rendering, animation, persistence, notifications, the accelerometer parallax, the pickers and the onboarding screen: platform plumbing with no logic to prove.
- The `parseInt` of the typed birth year (`src/screens/HomeScreen.tsx:91`): the model starts from an integer year.
- DotGrid.BuildRows: requires a positive column count. Every view supplies one (`DotGrid.Columns`). With zero columns the source loop would not terminate.
- DotGrid.Columns: its contract states only that the count is positive. `DotGrid.GridShape` pins the per-view values through the row counts they produce.
- Memoisation of the cells (`useMemo`, `src/components/DotGrid.tsx:17`): `generateDotCells` reads the clock, so it is not pure in its memo key. The home screen builds a fresh `timeData` on every render (`src/screens/HomeScreen.tsx:100`), though, so the key changes each time and a cached result is never reused.

## Findings

| source | as written | input that shows it | evidently intended | confidence | as-written member | corrected member |
|---|---|---|---|---|---|---|
| src/utils/timeUtils.ts:25-30 | the ordinal day is elapsed real time since local midnight opening December 31, floor-divided by 24 hours, so a change of UTC offset since then shifts the result | 2024-07-01 at 00:30 in a zone observing a one-hour summer time: 182 instead of 183, so the year view's passed count and today cell are one day early; in a southern zone, a July day at 23:30 comes out one day late | the calendar ordinal: the month lengths before the date plus the day of the month | high for the summer-time case, not executed | TimeUtils.SummerTimeYearViewOneDayEarly | Calendar.DayOfYear |
