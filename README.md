# DateUtility — a verified model

`DateUtility` (DateUtil.cs) is a set of static helpers over .NET's `DateTime`.
They compute the first instant (00:00:00.000) and the last instant
(23:59:59.999) of a day, a week, a month, a quarter and a year. They also map
a `Month` to its `Quarter`. The "Current" and "Last" variants work relative to
the wall clock `DateTime.Now`.

The model has two modules.

- `Gregorian` (Gregorian.dfy) is the part of `DateTime` these helpers rely on:
  - the proleptic Gregorian leap-year rule and `DaysInMonth`;
  - the validity checks of `new DateTime(y, m, d, h, mi, s, ms)`: year 1..9999, month 1..12, day 1..DaysInMonth, and in-range time fields;
  - day numbers counted from 0001-01-01 (a Monday), with the conversion back to a calendar date;
  - `DayOfWeek` (Sunday = 0);
  - whole-day `AddDays`/`Subtract`;
  - the ordering of instants. It compares milliseconds since 0001-01-01, which is `Ticks` at millisecond precision, and a lemma proves this is the lexicographic order.

  An `ArgumentOutOfRangeException` becomes `Err(ArgumentOutOfRange)` in a `Result`.
- `DateUtility` (DateUtility.dfy) holds the `Quarter` and `Month` enums and one function per static method. Each "Current"/"Last" method takes the clock reading as a parameter `now`, so it is a pure function of `now`. Its lemmas state what the results mean:
  - each period's start and end enclose exactly the instants of that period;
  - consecutive periods meet with no gap and no overlap (the end of one is 1 ms before the start of the next);
  - the "last" period comes just before the current one, except for the as-written last quarter, which from April to December is the current quarter (see "## Findings");
  - the week boundaries fall on Sunday and Saturday.

## Model

Three helpers of the `DateTime` stand-in carry no row of their own, because their meaning is stated by the lemmas that use them: `Gregorian.DayNumber` is `Ticks` divided by one day (its order and round-trip are `Gregorian.DayNumberOrder` and `Gregorian.DateOfDayNumberOfDate`), `Gregorian.Millis` is `Ticks` at millisecond precision (`Gregorian.MillisOrderIsLexicographic`), and `DateUtility.QuarterOf` is `GetQuarter((Month)DateTime.Now.Month)` (DateUtil.cs:145, DateUtil.cs:158, DateUtil.cs:167, DateUtil.cs:176). `Gregorian.MillisOrderIsLexicographic`, `Gregorian.AddDaysMillis`, `Gregorian.AddDaysInverse`, `Gregorian.AddZeroDays` and `Gregorian.AddDaysWeekday` document the `DateTime` stand-in only; no `DateUtility` proof depends on them.

| member | source | states |
|---|---|---|
| DateUtility.QuarterNumber | DateUtil.cs:10-22 | the enum value of a quarter, First = 1 .. Fourth = 4, in 1..4; `QuarterNumberRoundTrip` shows `QuarterOfNumber` inverts it, so distinct quarters give distinct values |
| DateUtility.QuarterNumberRoundTrip | DateUtil.cs:5-23 | converting a quarter's enum value back to `Quarter` gives the same quarter |
| DateUtility.QuarterOfNumber | DateUtil.cs:5-23 | the enum value of the quarter it returns is the number it was given (1..4) |
| DateUtility.MonthNumber | DateUtil.cs:233 | the cast `(int)Month` yields the month's enum value, in 1..12; `MonthNumberRoundTrip` shows `MonthOfNumber` inverts it, so distinct months give distinct values |
| DateUtility.MonthOfNumber | DateUtil.cs:28-78 | the cast `(Month)n` for n in 1..12 yields the month whose enum value is n |
| DateUtility.MonthNumberRoundTrip | DateUtil.cs:28-78 | casting a month's enum value back to `Month` gives the same month |
| DateUtility.GetStartOfQuarter | DateUtil.cs:88-98 | fails exactly when the year is outside 1..9999; otherwise day 1 of month 3q-2 of that year at 00:00:00.000 |
| DateUtility.GetEndOfQuarter | DateUtil.cs:106-116 | fails exactly when the year is outside 1..9999; otherwise the last day of month 3q (Mar 31, Jun 30, Sep 30 or Dec 31) at 23:59:59.999 |
| DateUtility.GetQuarter | DateUtil.cs:123-133 | the quarter number is (month+2)/3, so months 1-3, 4-6, 7-9 and 10-12 map to First..Fourth and each month lies in months 3q-2..3q |
| DateUtility.QuarterBoundsAdjacent | DateUtil.cs:88-116 | a quarter starts before it ends; quarters 1-3 end exactly 1 ms before the next quarter of the same year starts |
| DateUtility.FourthQuarterPrecedesFirst | DateUtil.cs:106-116 | the fourth quarter of year Y-1 ends exactly 1 ms before the first quarter of Y starts |
| DateUtility.QuarterContains | DateUtil.cs:88-133 | an instant lies between a quarter's start and end if and only if its year is that year and `GetQuarter` of its month is that quarter |
| DateUtility.GetStartOfCurrentQuarter | DateUtil.cs:165-168 | never fails; day 1 of `now`'s year at 00:00:00.000, in a month m with m % 3 == 1 and m <= now's month < m+3 |
| DateUtility.GetEndOfCurrentQuarter | DateUtil.cs:174-177 | never fails; the last day of a month m of `now`'s year with m % 3 == 0 and m-3 < now's month <= m, at 23:59:59.999 |
| DateUtility.CurrentQuarterContainsNow | DateUtil.cs:165-177 | `now` lies between the current quarter's start and end |
| DateUtility.GetStartOfLastQuarter | DateUtil.cs:152-159 | as written: fails exactly in January-March of year 1; in January-March it is Oct 1 of the previous year at 00:00:00.000 |
| DateUtility.GetEndOfLastQuarter | DateUtil.cs:139-146 | as written: fails exactly in January-March of year 1; in January-March it is Dec 31 of the previous year at 23:59:59.999 |
| DateUtility.LastQuarterIsCurrentFromApril | DateUtil.cs:139-177 | from April on, the "last" quarter equals the current quarter, and its end is not before `now` |
| DateUtility.LastQuarterPrecedesCurrentInFirstQuarter | DateUtil.cs:139-168 | in January-March, the last quarter ends exactly 1 ms before the current quarter starts |
| DateUtility.PreviousQuarter | DateUtil.cs:141-142 | the quarter before First is Fourth of the previous year; otherwise the quarter numbered one less in the same year |
| DateUtility.GetStartOfPreviousQuarter | DateUtil.cs:152-159 | corrected: day 1 of the quarter before `now`'s, which is Oct 1 of last year in January-March and otherwise 3 to 5 months before `now`'s month |
| DateUtility.GetEndOfPreviousQuarter | DateUtil.cs:139-146 | corrected: the last day of the quarter before `now`'s, which is Dec 31 of last year in January-March and otherwise 1 to 3 months before `now`'s month |
| DateUtility.PreviousQuarterPrecedesCurrent | DateUtil.cs:139-168 | the corrected previous quarter starts before it ends, ends exactly 1 ms before the current quarter starts, and ends before `now` |
| DateUtility.LastQuarterCounterexample | DateUtil.cs:139-159 | on 2024-05-15 the code's "last quarter" is 2024-04-01..2024-06-30, while the previous quarter is 2024-01-01..2024-03-31 |
| DateUtility.GetStartOfLastWeek | DateUtil.cs:183-189 | fails exactly when the day DayOfWeek(now)+7 days back is before 0001-01-01; otherwise that day at 00:00:00.000, a Sunday |
| DateUtility.GetEndOfLastWeek | DateUtil.cs:195-200 | fails exactly when last week's start fails; otherwise 6 days after it at 23:59:59.999, a Saturday |
| DateUtility.GetStartOfCurrentWeek | DateUtil.cs:206-212 | fails exactly when the day DayOfWeek(now) days back is before 0001-01-01; otherwise that day at 00:00:00.000, a Sunday |
| DateUtility.GetEndOfCurrentWeek | DateUtil.cs:218-223 | fails exactly when the week's start, or the day 6 days after it, is out of range; otherwise that Saturday at 23:59:59.999 |
| DateUtility.CurrentWeekContains | DateUtil.cs:206-223 | the current week holds exactly the instants on its seven days, spans 7 days less 1 ms, and holds `now` |
| DateUtility.LastWeekPrecedesCurrentWeek | DateUtil.cs:183-212 | last week starts exactly 7 days before the current week and ends exactly 1 ms before the current week starts |
| DateUtility.GetStartOfMonth | DateUtil.cs:231-234 | fails exactly when the year is outside 1..9999; otherwise day 1 of that month at 00:00:00.000 |
| DateUtility.GetEndOfMonth | DateUtil.cs:242-245 | fails exactly when the year is outside 1..9999; otherwise day DaysInMonth at 23:59:59.999; February ends on the 29th exactly in leap years |
| DateUtility.MonthContains | DateUtil.cs:231-245 | an instant lies between a month's start and end if and only if it has that year and month |
| DateUtility.MonthBoundsAdjacent | DateUtil.cs:231-245 | a month ends exactly 1 ms before the next month starts; December rolls to January of the next year |
| DateUtility.GetStartOfLastMonth | DateUtil.cs:252-258 | fails exactly in January of year 1; in January it is December of the previous year, otherwise month-1 of the same year, day 1 at 00:00:00.000 |
| DateUtility.GetEndOfLastMonth | DateUtil.cs:264-270 | fails exactly in January of year 1; in January it is December of the previous year, otherwise month-1 of the same year, on its last day at 23:59:59.999 |
| DateUtility.GetStartOfCurrentMonth | DateUtil.cs:276-279 | never fails; day 1 of `now`'s month and year at 00:00:00.000 |
| DateUtility.GetEndOfCurrentMonth | DateUtil.cs:285-288 | never fails; the last day of `now`'s month and year at 23:59:59.999 |
| DateUtility.CurrentMonthContainsNow | DateUtil.cs:276-288 | `now` lies between the current month's start and end |
| DateUtility.LastMonthPrecedesCurrentMonth | DateUtil.cs:252-288 | last month's start and end share one month and year, the start is before the end, and the end is exactly 1 ms before the current month starts |
| DateUtility.GetStartOfYear | DateUtil.cs:295-298 | fails exactly when the year is outside 1..9999; otherwise Jan 1 at 00:00:00.000 |
| DateUtility.GetEndOfYear | DateUtil.cs:305-308 | fails exactly when the year is outside 1..9999; otherwise Dec 31 at 23:59:59.999 |
| DateUtility.YearContains | DateUtil.cs:295-308 | an instant lies between a year's start and end if and only if it has that year |
| DateUtility.YearBoundsAdjacent | DateUtil.cs:295-308 | year Y-1 ends exactly 1 ms before year Y starts |
| DateUtility.GetStartOfLastYear | DateUtil.cs:314-317 | fails exactly when `now` is in year 1; otherwise Jan 1 of the previous year at 00:00:00.000 |
| DateUtility.GetEndOfLastYear | DateUtil.cs:323-326 | fails exactly when `now` is in year 1; otherwise Dec 31 of the previous year at 23:59:59.999 |
| DateUtility.GetStartOfCurrentYear | DateUtil.cs:332-335 | never fails; Jan 1 of `now`'s year at 00:00:00.000 |
| DateUtility.GetEndOfCurrentYear | DateUtil.cs:341-344 | never fails; Dec 31 of `now`'s year at 23:59:59.999 |
| DateUtility.CurrentYearContainsNow | DateUtil.cs:332-344 | `now` lies between the current year's start and end |
| DateUtility.LastYearPrecedesCurrentYear | DateUtil.cs:314-344 | last year exists exactly when `now` is after year 1, and then it ends exactly 1 ms before the current year starts |
| DateUtility.LastYearEndsBeforeCurrentYear | DateUtil.cs:323-335 | after year 1, Dec 31 23:59:59.999 of last year is exactly 1 ms before Jan 1 00:00:00.000 of the current year |
| DateUtility.GetStartOfDay | DateUtil.cs:351-354 | the same calendar day at 00:00:00.000, not after `date` lexicographically or in time |
| DateUtility.GetEndOfDay | DateUtil.cs:361-364 | the same calendar day at 23:59:59.999, not before `date` lexicographically or in time |
| DateUtility.DayContains | DateUtil.cs:351-364 | an instant lies between a day's start and end if and only if it is on that calendar day |
| DateUtility.CalendarExamples | DateUtil.cs:231-308 | February 2024 and 2000 end on the 29th; February 2023 and 1900 end on the 28th; 2023 runs Jan 1..Dec 31; years 0 and 10000 fail |
| Gregorian.DaysInMonth | DateUtil.cs:109 | `DateTime.DaysInMonth`: February has 29 days in leap years and 28 otherwise; April, June, September and November have 30; every other month has 31 |
| Gregorian.NewDateTime | DateUtil.cs:91 | `new DateTime(...)` succeeds if and only if the fields form a valid instant, and then carries exactly those fields |
| Gregorian.DaysBeforeYearClosedForm | DateUtil.cs:85 | part of the `DateTime` stand-in, bounding the documented year range 1..9999: days before year Y equal 365(Y-1) + (Y-1)/4 - (Y-1)/100 + (Y-1)/400, the leap-rule count |
| Gregorian.LastDayNumber | DateUtil.cs:85 | part of the `DateTime` stand-in, bounding the documented year range 1..9999: 9999-12-31, the last representable day, is day 3,652,058 |
| Gregorian.DayNumberOrder | DateUtil.cs:351-364 | day numbers are one-to-one and order dates lexicographically (both directions) |
| Gregorian.DateOfDayNumber | DateUtil.cs:186 | every day number in range converts to a valid date with that day number |
| Gregorian.DateOfDayNumberOfDate | DateUtil.cs:186 | converting a date to its day number and back gives the same date |
| Gregorian.DayOfWeek | DateUtil.cs:185 | `(int)DateTime.DayOfWeek`: a value in 0..6 (Sunday = 0); the value itself is pinned down by `FirstDayIsMonday` (0001-01-01 is 1) together with `WeekdayOfOffset` (k days later it is k more, mod 7) |
| Gregorian.FirstDayIsMonday | DateUtil.cs:185 | 0001-01-01 is day 0 and a Monday (weekday 1, Sunday being 0) |
| Gregorian.WeekdayOfOffset | DateUtil.cs:185-186 | moving k days moves the weekday by k modulo 7 |
| Gregorian.MillisOrderIsLexicographic | DateUtil.cs:351-364 | comparing instants by elapsed milliseconds is the lexicographic (Y,M,D,h,m,s,ms) order |
| Gregorian.SpanContains | DateUtil.cs:351-364 | from the start of one day to the end of another lie exactly the instants whose day is between the two |
| Gregorian.AddDays | DateUtil.cs:186 | `Subtract`/`AddDays` by whole days fails exactly when the day leaves 0001-01-01..9999-12-31; otherwise it moves the day number by that many days and keeps the time of day |
| Gregorian.AddDaysMillis | DateUtil.cs:197 | adding k days moves the instant by exactly k days of milliseconds |
| Gregorian.AddDaysInverse | DateUtil.cs:186 | adding k days and then -k days returns the original instant |
| Gregorian.AddZeroDays | DateUtil.cs:197 | adding 0 days changes nothing |
| Gregorian.AddDaysWeekday | DateUtil.cs:185-186 | adding k days moves the weekday by k modulo 7 |

## Left out

- `GetAnnualWeekNumber` (DateUtil.cs:371-376) is not modelled. It delegates to the host culture's `Calendar.GetWeekOfYear`, a foreign call whose calendar and result depend on the locale.
- The clock itself is not modelled. `DateTime.Now` is the parameter `now` of every "Current"/"Last" function, and the model reads the clock once per call. Most of the methods read `DateTime.Now` more than once, and those readings could straddle a boundary: `GetEndOfLastQuarter` and `GetStartOfLastQuarter` (DateUtil.cs:141-145, DateUtil.cs:154-158) and `GetStartOfCurrentQuarter` and `GetEndOfCurrentQuarter` (DateUtil.cs:167, DateUtil.cs:176) across a month or year end; `GetStartOfLastWeek` and `GetStartOfCurrentWeek`, and through them `GetEndOfLastWeek` and `GetEndOfCurrentWeek` (DateUtil.cs:185-186, DateUtil.cs:208-209), across midnight; `GetStartOfLastMonth`, `GetEndOfLastMonth`, `GetStartOfCurrentMonth` and `GetEndOfCurrentMonth` (DateUtil.cs:254-257, DateUtil.cs:266-269, DateUtil.cs:278, DateUtil.cs:287) across a month or year end. The four year methods read it once each (DateUtil.cs:316, DateUtil.cs:325, DateUtil.cs:334, DateUtil.cs:343), so for them the single reading is exact.
- DateUtility.CurrentQuarterContainsNow, DateUtility.CurrentMonthContainsNow, DateUtility.CurrentYearContainsNow, DateUtility.CurrentWeekContains, DateUtility.LastQuarterIsCurrentFromApril, DateUtility.QuarterContains, DateUtility.MonthContains, DateUtility.YearContains, DateUtility.DayContains, DateUtility.GetEndOfDay and Gregorian.SpanContains hold for instants at whole milliseconds only. A .NET `DateTime` carries 100 ns ticks, while every end instant the source builds is exactly xx:59:59.999 (DateUtil.cs:109, DateUtil.cs:199, DateUtil.cs:307, DateUtil.cs:363). An instant in the last 9,999 ticks of a period, such as 2024-03-31T23:59:59.9995, is on its day but after that period's end. For such an instant, "start <= x <= end" and "`now` lies between start and end" fail in the program.
- `DateTime` internals are not modelled: 100 ns ticks, sub-millisecond precision, `DateTimeKind`, and `TimeSpan` arithmetic beyond whole days. `Millis` stands for `Ticks` at millisecond precision.
- Out-of-range enum casts such as `(Month)13` or `(Month)0` are not modelled. C# allows them. `GetQuarter` then returns `First` for a value below 1, because its first test `Month <= Month.March` holds (DateUtil.cs:125), and `Fourth` for a value above 12 (DateUtil.cs:131-132). An out-of-range `Quarter` takes the last branch of both `GetStartOfQuarter` and `GetEndOfQuarter`, as if it were `Fourth`. The enums are datatypes with only the declared values.
- The exception is not split by its source. When the year is out of range, `DateTime.DaysInMonth` throws before the constructor would. Both are `ArgumentOutOfRangeException`, so both paths give the same `Err(ArgumentOutOfRange)`.
- Weeks run Sunday to Saturday. The week methods subtract `(int)DayOfWeek`, which is 0 on Sunday (DateUtil.cs:185, DateUtil.cs:208). The model follows this code, although `GetAnnualWeekNumber` names Monday as the first day of the week (DateUtil.cs:375).
- Gregorian.DayOfWeek: its own contract states only the range 0..6. The weekday it computes is stated by `FirstDayIsMonday` and `WeekdayOfOffset`.

## Findings

| source | as written | input that shows it | evidently intended | confidence | as-written member | corrected member |
|---|---|---|---|---|---|---|
| DateUtil.cs:139-159 | from April to December, `GetEndOfLastQuarter`/`GetStartOfLastQuarter` return the quarter holding `now` | now = 2024-05-15: the end of the "last quarter" comes out as 2024-06-30T23:59:59.999 | the quarter before the current one: 2024-01-01T00:00:00.000 .. 2024-03-31T23:59:59.999 | not executed; derived from the code, shown by `LastQuarterCounterexample` | DateUtility.LastQuarterIsCurrentFromApril | DateUtility.PreviousQuarterPrecedesCurrent |
