/**
 The `DateUtility` helpers: the first instant (00:00:00.000) and the last
 instant (23:59:59.999) of a day, week, month, quarter or year, and the
 quarter a month belongs to. The wall clock `DateTime.Now` is the parameter
 `now`; a `new DateTime(...)`, `DaysInMonth`, `Subtract` or `AddDays` that
 would throw ArgumentOutOfRangeException yields `Err(ArgumentOutOfRange)`.
 */
module DateUtility {
  import opened Gregorian

  /** The four quarters of a calendar year. */
  datatype Quarter = First | Second | Third | Fourth

  /** The months of the year. */
  datatype Month =
    | January | February | March | April | May | June
    | July | August | September | October | November | December

  /** The enum value of a quarter (First = 1 .. Fourth = 4). */
  function QuarterNumber(q: Quarter): (n: int)
    ensures 1 <= n <= 4
  {
    match q
    case First => 1
    case Second => 2
    case Third => 3
    case Fourth => 4
  }

  /** The quarter whose enum value is `n`. */
  function QuarterOfNumber(n: int): (q: Quarter)
    requires 1 <= n <= 4
    ensures QuarterNumber(q) == n
  {
    if n == 1 then First else if n == 2 then Second else if n == 3 then Third else Fourth
  }

  lemma QuarterNumberRoundTrip(q: Quarter)
    ensures QuarterOfNumber(QuarterNumber(q)) == q
  {
  }

  /** The enum value of a month (January = 1 .. December = 12). */
  function MonthNumber(m: Month): (n: int)
    ensures 1 <= n <= 12
  {
    match m
    case January => 1
    case February => 2
    case March => 3
    case April => 4
    case May => 5
    case June => 6
    case July => 7
    case August => 8
    case September => 9
    case October => 10
    case November => 11
    case December => 12
  }

  /** The cast `(Month)n` for a month number `n`. */
  function MonthOfNumber(n: int): (m: Month)
    requires 1 <= n <= 12
    ensures MonthNumber(m) == n
  {
    if n == 1 then January else if n == 2 then February else if n == 3 then March
    else if n == 4 then April else if n == 5 then May else if n == 6 then June
    else if n == 7 then July else if n == 8 then August else if n == 9 then September
    else if n == 10 then October else if n == 11 then November else December
  }

  lemma MonthNumberRoundTrip(m: Month)
    ensures MonthOfNumber(MonthNumber(m)) == m
  {
  }

  // ---------------------------------------------------------------------
  // Quarters
  // ---------------------------------------------------------------------

  /** `GetStartOfQuarter(Year, Qtr)`: day 1 of the quarter's first month. */
  function GetStartOfQuarter(year: int, qtr: Quarter): (r: Result<DateTime>)
    ensures r.Ok? <==> MinYear <= year <= MaxYear
    ensures r.Ok? ==> r.value.Valid() && AtStartOfDay(r.value)
    ensures r.Ok? ==> r.value.date == Date(year, 3 * QuarterNumber(qtr) - 2, 1)
  {
    if qtr == First then NewDateTime(year, 1, 1, 0, 0, 0, 0)
    else if qtr == Second then NewDateTime(year, 4, 1, 0, 0, 0, 0)
    else if qtr == Third then NewDateTime(year, 7, 1, 0, 0, 0, 0)
    else NewDateTime(year, 10, 1, 0, 0, 0, 0)
  }

  /** `GetEndOfQuarter(Year, Qtr)`: the last day of the quarter's third month. */
  function GetEndOfQuarter(year: int, qtr: Quarter): (r: Result<DateTime>)
    ensures r.Ok? <==> MinYear <= year <= MaxYear
    ensures r.Ok? ==> r.value.Valid() && AtEndOfDay(r.value)
    ensures r.Ok? ==> r.value.date.year == year && r.value.date.month == 3 * QuarterNumber(qtr)
    ensures r.Ok? ==> r.value.date.day == DaysInMonth(year, 3 * QuarterNumber(qtr))
    ensures r.Ok? ==> r.value.date.day == (if qtr == First || qtr == Fourth then 31 else 30)
  {
    if qtr == First then NewDateTime(year, 3, DaysInMonth(year, 3), 23, 59, 59, 999)
    else if qtr == Second then NewDateTime(year, 6, DaysInMonth(year, 6), 23, 59, 59, 999)
    else if qtr == Third then NewDateTime(year, 9, DaysInMonth(year, 9), 23, 59, 59, 999)
    else NewDateTime(year, 12, DaysInMonth(year, 12), 23, 59, 59, 999)
  }

  /** `GetQuarter(Month)`: months 1-3, 4-6, 7-9 and 10-12 make up the four quarters. */
  function GetQuarter(month: Month): (q: Quarter)
    ensures QuarterNumber(q) == (MonthNumber(month) + 2) / 3
    ensures 3 * QuarterNumber(q) - 2 <= MonthNumber(month) <= 3 * QuarterNumber(q)
  {
    var m := MonthNumber(month);
    if m <= 3 then First
    else if 4 <= m && m <= 6 then Second
    else if 7 <= m && m <= 9 then Third
    else Fourth
  }

  /** The quarter `now` falls in. */
  function QuarterOf(now: DateTime): Quarter
    requires now.Valid()
  {
    GetQuarter(MonthOfNumber(now.date.month))
  }

  /** A quarter starts before it ends, and ends exactly 1 ms before the next quarter of the same year starts. */
  lemma QuarterBoundsAdjacent(year: int, qtr: Quarter)
    requires MinYear <= year <= MaxYear
    ensures GetStartOfQuarter(year, qtr).Ok? && GetEndOfQuarter(year, qtr).Ok?
    ensures Millis(GetStartOfQuarter(year, qtr).value) < Millis(GetEndOfQuarter(year, qtr).value)
    ensures qtr != Fourth ==>
      Millis(GetEndOfQuarter(year, qtr).value) + 1
        == Millis(GetStartOfQuarter(year, QuarterOfNumber(QuarterNumber(qtr) + 1)).value)
  {
    var s, e := GetStartOfQuarter(year, qtr).value, GetEndOfQuarter(year, qtr).value;
    SpanOrdered(s, e);
    if qtr != Fourth {
      var next := GetStartOfQuarter(year, QuarterOfNumber(QuarterNumber(qtr) + 1)).value;
      assert next.date == FirstOfNextMonth(year, 3 * QuarterNumber(qtr));
      EndOfMonthPrecedesNextMonth(e, next);
    }
  }

  /** The fourth quarter of one year ends exactly 1 ms before the first quarter of `year` starts. */
  lemma FourthQuarterPrecedesFirst(year: int)
    requires MinYear < year <= MaxYear
    ensures GetEndOfQuarter(year - 1, Fourth).Ok? && GetStartOfQuarter(year, First).Ok?
    ensures Millis(GetEndOfQuarter(year - 1, Fourth).value) + 1 == Millis(GetStartOfQuarter(year, First).value)
  {
    var e, s := GetEndOfQuarter(year - 1, Fourth).value, GetStartOfQuarter(year, First).value;
    assert s.date == FirstOfNextMonth(year - 1, 12);
    EndOfMonthPrecedesNextMonth(e, s);
  }

  /** Quarter `qtr` of `year` spans exactly the instants of `year` whose month lies in `qtr`. */
  lemma QuarterContains(year: int, qtr: Quarter, x: DateTime)
    requires MinYear <= year <= MaxYear && x.Valid()
    ensures GetStartOfQuarter(year, qtr).Ok? && GetEndOfQuarter(year, qtr).Ok?
    ensures (Millis(GetStartOfQuarter(year, qtr).value) <= Millis(x) <= Millis(GetEndOfQuarter(year, qtr).value))
        <==> (x.date.year == year && GetQuarter(MonthOfNumber(x.date.month)) == qtr)
  {
    var s, e := GetStartOfQuarter(year, qtr).value, GetEndOfQuarter(year, qtr).value;
    SpanContains(s, e, x);
  }

  /** `GetStartOfCurrentQuarter()`: the start of the quarter holding `now`. */
  function GetStartOfCurrentQuarter(now: DateTime): (r: DateTime)
    requires now.Valid()
    ensures r.Valid() && AtStartOfDay(r)
    ensures r.date.year == now.date.year && r.date.day == 1 && r.date.month % 3 == 1
    ensures r.date.month <= now.date.month < r.date.month + 3
  {
    GetStartOfQuarter(now.date.year, GetQuarter(MonthOfNumber(now.date.month))).value
  }

  /** `GetEndOfCurrentQuarter()`: the end of the quarter holding `now`. */
  function GetEndOfCurrentQuarter(now: DateTime): (r: DateTime)
    requires now.Valid()
    ensures r.Valid() && AtEndOfDay(r)
    ensures r.date.year == now.date.year && r.date.month % 3 == 0
    ensures r.date.month - 3 < now.date.month <= r.date.month
    ensures r.date.day == DaysInMonth(r.date.year, r.date.month)
  {
    GetEndOfQuarter(now.date.year, GetQuarter(MonthOfNumber(now.date.month))).value
  }

  /** The current quarter runs from its start to its end and holds `now`. */
  lemma CurrentQuarterContainsNow(now: DateTime)
    requires now.Valid()
    ensures Millis(GetStartOfCurrentQuarter(now)) <= Millis(now) <= Millis(GetEndOfCurrentQuarter(now))
  {
    QuarterContains(now.date.year, QuarterOf(now), now);
  }

  /**
   `GetStartOfLastQuarter()` as written: the fourth quarter of last year from
   January to March, otherwise the start of the quarter holding `now`.
   */
  function GetStartOfLastQuarter(now: DateTime): (r: Result<DateTime>)
    requires now.Valid()
    ensures r.Ok? <==> now.date.month > 3 || now.date.year > MinYear
    ensures r.Ok? ==> r.value.Valid() && AtStartOfDay(r.value)
    ensures now.date.month <= 3 && r.Ok? ==> r.value.date == Date(now.date.year - 1, 10, 1)
  {
    if MonthNumber(MonthOfNumber(now.date.month)) <= MonthNumber(March) then
      GetStartOfQuarter(now.date.year - 1, Fourth)
    else
      GetStartOfQuarter(now.date.year, GetQuarter(MonthOfNumber(now.date.month)))
  }

  /**
   `GetEndOfLastQuarter()` as written: the end of the fourth quarter of last
   year from January to March, otherwise the end of the quarter holding `now`.
   */
  function GetEndOfLastQuarter(now: DateTime): (r: Result<DateTime>)
    requires now.Valid()
    ensures r.Ok? <==> now.date.month > 3 || now.date.year > MinYear
    ensures r.Ok? ==> r.value.Valid() && AtEndOfDay(r.value)
    ensures now.date.month <= 3 && r.Ok? ==> r.value.date == Date(now.date.year - 1, 12, 31)
  {
    if MonthNumber(MonthOfNumber(now.date.month)) <= MonthNumber(March) then
      GetEndOfQuarter(now.date.year - 1, Fourth)
    else
      GetEndOfQuarter(now.date.year, GetQuarter(MonthOfNumber(now.date.month)))
  }

  /**
   From April on, the "last" quarter of the source is the current quarter: it
   equals the current-quarter result and has not ended at `now`.
   */
  lemma LastQuarterIsCurrentFromApril(now: DateTime)
    requires now.Valid() && now.date.month >= 4
    ensures GetStartOfLastQuarter(now) == Ok(GetStartOfCurrentQuarter(now))
    ensures GetEndOfLastQuarter(now) == Ok(GetEndOfCurrentQuarter(now))
    ensures Millis(now) <= Millis(GetEndOfLastQuarter(now).value)
  {
    CurrentQuarterContainsNow(now);
  }

  /** From January to March the last quarter is the one just before the current quarter. */
  lemma LastQuarterPrecedesCurrentInFirstQuarter(now: DateTime)
    requires now.Valid() && now.date.month <= 3 && now.date.year > MinYear
    ensures Millis(GetEndOfLastQuarter(now).value) + 1 == Millis(GetStartOfCurrentQuarter(now))
  {
    var e, s := GetEndOfLastQuarter(now).value, GetStartOfCurrentQuarter(now);
    assert Millis(e) + 1 == Millis(s) by {
      assert s.date == FirstOfNextMonth(e.date.year, e.date.month);
      EndOfMonthPrecedesNextMonth(e, s);
    }
  }

  /** The quarter before `q` and the year it falls in, for a quarter of `year`. */
  function PreviousQuarter(year: int, q: Quarter): (p: (int, Quarter))
    ensures q == First ==> p == (year - 1, Fourth)
    ensures q != First ==> p.0 == year && QuarterNumber(p.1) == QuarterNumber(q) - 1
  {
    if q == First then (year - 1, Fourth) else (year, QuarterOfNumber(QuarterNumber(q) - 1))
  }

  /** The start of the quarter before the one holding `now`: what GetStartOfLastQuarter is named for. */
  function GetStartOfPreviousQuarter(now: DateTime): (r: Result<DateTime>)
    requires now.Valid()
    ensures r.Ok? <==> now.date.month > 3 || now.date.year > MinYear
    ensures r.Ok? ==> r.value.Valid() && AtStartOfDay(r.value) && r.value.date.day == 1 && r.value.date.month % 3 == 1
    ensures r.Ok? && now.date.month <= 3 ==> r.value.date == Date(now.date.year - 1, 10, 1)
    ensures now.date.month > 3 ==> r.Ok? && r.value.date.year == now.date.year
                                   && r.value.date.month + 3 <= now.date.month < r.value.date.month + 6
  {
    var p := PreviousQuarter(now.date.year, QuarterOf(now));
    GetStartOfQuarter(p.0, p.1)
  }

  /** The end of the quarter before the one holding `now`: what GetEndOfLastQuarter is named for. */
  function GetEndOfPreviousQuarter(now: DateTime): (r: Result<DateTime>)
    requires now.Valid()
    ensures r.Ok? <==> now.date.month > 3 || now.date.year > MinYear
    ensures r.Ok? ==> r.value.Valid() && AtEndOfDay(r.value) && r.value.date.month % 3 == 0
    ensures r.Ok? ==> r.value.date.day == DaysInMonth(r.value.date.year, r.value.date.month)
    ensures r.Ok? && now.date.month <= 3 ==> r.value.date == Date(now.date.year - 1, 12, 31)
    ensures now.date.month > 3 ==> r.Ok? && r.value.date.year == now.date.year
                                   && r.value.date.month < now.date.month <= r.value.date.month + 3
  {
    var p := PreviousQuarter(now.date.year, QuarterOf(now));
    GetEndOfQuarter(p.0, p.1)
  }

  /**
   The previous quarter is a whole quarter ending exactly 1 ms before the
   current quarter starts, so it ends before `now`.
   */
  lemma PreviousQuarterPrecedesCurrent(now: DateTime)
    requires now.Valid() && GetEndOfPreviousQuarter(now).Ok?
    ensures GetStartOfPreviousQuarter(now).Ok?
    ensures Millis(GetStartOfPreviousQuarter(now).value) < Millis(GetEndOfPreviousQuarter(now).value)
    ensures Millis(GetEndOfPreviousQuarter(now).value) + 1 == Millis(GetStartOfCurrentQuarter(now))
    ensures Millis(GetEndOfPreviousQuarter(now).value) < Millis(now)
  {
    var s, e, c := GetStartOfPreviousQuarter(now).value, GetEndOfPreviousQuarter(now).value, GetStartOfCurrentQuarter(now);
    assert s.date.year == e.date.year && s.date.month < e.date.month;
    SpanOrdered(s, e);
    assert c.date == FirstOfNextMonth(e.date.year, e.date.month);
    EndOfMonthPrecedesNextMonth(e, c);
    CurrentQuarterContainsNow(now);
  }

  /** On 2024-05-15 the source's "last quarter" is April-June 2024; the previous quarter is January-March. */
  lemma LastQuarterCounterexample()
    ensures var now := DateTime(Date(2024, 5, 15), 12, 0, 0, 0);
      && GetStartOfLastQuarter(now) == Ok(DateTime(Date(2024, 4, 1), 0, 0, 0, 0))
      && GetEndOfLastQuarter(now) == Ok(DateTime(Date(2024, 6, 30), 23, 59, 59, 999))
      && GetStartOfPreviousQuarter(now) == Ok(DateTime(Date(2024, 1, 1), 0, 0, 0, 0))
      && GetEndOfPreviousQuarter(now) == Ok(DateTime(Date(2024, 3, 31), 23, 59, 59, 999))
  {
  }

  // ---------------------------------------------------------------------
  // Weeks
  // ---------------------------------------------------------------------

  /**
   `GetStartOfLastWeek()`: midnight of the day `DayOfWeek(now) + 7` days
   before `now`, the Sunday before the current week.
   */
  function GetStartOfLastWeek(now: DateTime): (r: Result<DateTime>)
    requires now.Valid()
    ensures r.Ok? <==> DayOfWeek(now.date) + 7 <= DayNumber(now.date)
    ensures r.Ok? ==> r.value.Valid() && AtStartOfDay(r.value) && DayOfWeek(r.value.date) == 0
    ensures r.Ok? ==> DayNumber(r.value.date) == DayNumber(now.date) - DayOfWeek(now.date) - 7
  {
    var daysToSubtract := DayOfWeek(now.date) + 7;
    match AddDays(now, -daysToSubtract)
    case Err(e) => Err(e)
    case Ok(dt) =>
      WeekdayAfterSunday(now.date, dt.date, -7);
      NewDateTime(dt.date.year, dt.date.month, dt.date.day, 0, 0, 0, 0)
  }

  /** `GetEndOfLastWeek()`: the last instant of the sixth day after the start of last week. */
  function GetEndOfLastWeek(now: DateTime): (r: Result<DateTime>)
    requires now.Valid()
    ensures r.Ok? <==> DayOfWeek(now.date) + 7 <= DayNumber(now.date)
    ensures r.Ok? ==> r.value.Valid() && AtEndOfDay(r.value) && DayOfWeek(r.value.date) == 6
    ensures r.Ok? ==> DayNumber(r.value.date) == DayNumber(now.date) - DayOfWeek(now.date) - 1
  {
    match GetStartOfLastWeek(now)
    case Err(e) => Err(e)
    case Ok(start) =>
      match AddDays(start, 6)
      case Err(e) => Err(e)
      case Ok(dt) =>
        WeekdayAfterSunday(now.date, dt.date, -1);
        NewDateTime(dt.date.year, dt.date.month, dt.date.day, 23, 59, 59, 999)
  }

  /**
   `GetStartOfCurrentWeek()`: midnight of the day `DayOfWeek(now)` days
   before `now`, the Sunday on or before `now`.
   */
  function GetStartOfCurrentWeek(now: DateTime): (r: Result<DateTime>)
    requires now.Valid()
    ensures r.Ok? <==> DayOfWeek(now.date) <= DayNumber(now.date)
    ensures r.Ok? ==> r.value.Valid() && AtStartOfDay(r.value) && DayOfWeek(r.value.date) == 0
    ensures r.Ok? ==> DayNumber(r.value.date) == DayNumber(now.date) - DayOfWeek(now.date)
  {
    var daysToSubtract := DayOfWeek(now.date);
    match AddDays(now, -daysToSubtract)
    case Err(e) => Err(e)
    case Ok(dt) =>
      WeekdayAfterSunday(now.date, dt.date, 0);
      NewDateTime(dt.date.year, dt.date.month, dt.date.day, 0, 0, 0, 0)
  }

  /** `GetEndOfCurrentWeek()`: the last instant of the sixth day after the start of the current week. */
  function GetEndOfCurrentWeek(now: DateTime): (r: Result<DateTime>)
    requires now.Valid()
    ensures r.Ok? <==> DayOfWeek(now.date) <= DayNumber(now.date)
                       && DayNumber(now.date) - DayOfWeek(now.date) + 6 <= MaxDayNumber
    ensures r.Ok? ==> r.value.Valid() && AtEndOfDay(r.value) && DayOfWeek(r.value.date) == 6
    ensures r.Ok? ==> DayNumber(r.value.date) == DayNumber(now.date) - DayOfWeek(now.date) + 6
  {
    match GetStartOfCurrentWeek(now)
    case Err(e) => Err(e)
    case Ok(start) =>
      match AddDays(start, 6)
      case Err(e) => Err(e)
      case Ok(dt) =>
        WeekdayAfterSunday(now.date, dt.date, 6);
        NewDateTime(dt.date.year, dt.date.month, dt.date.day, 23, 59, 59, 999)
  }

  /**
   The current week is seven whole days, Sunday to Saturday: it holds exactly
   the instants whose day is one of those seven, `now` among them.
   */
  lemma CurrentWeekContains(now: DateTime, x: DateTime)
    requires now.Valid() && x.Valid() && GetEndOfCurrentWeek(now).Ok?
    ensures GetStartOfCurrentWeek(now).Ok?
    ensures var first := DayNumber(GetStartOfCurrentWeek(now).value.date);
      (Millis(GetStartOfCurrentWeek(now).value) <= Millis(x) <= Millis(GetEndOfCurrentWeek(now).value)
       <==> first <= DayNumber(x.date) <= first + 6)
    ensures Millis(GetEndOfCurrentWeek(now).value) - Millis(GetStartOfCurrentWeek(now).value) == 7 * MillisPerDay - 1
    ensures Millis(GetStartOfCurrentWeek(now).value) <= Millis(now) <= Millis(GetEndOfCurrentWeek(now).value)
  {
    var s, e := GetStartOfCurrentWeek(now).value, GetEndOfCurrentWeek(now).value;
    SpanContainsDays(s, e, x);
    SpanContainsDays(s, e, now);
  }

  /** Last week is the current week moved back exactly seven days; it ends 1 ms before the current week starts. */
  lemma LastWeekPrecedesCurrentWeek(now: DateTime)
    requires now.Valid() && GetStartOfLastWeek(now).Ok?
    ensures GetEndOfLastWeek(now).Ok? && GetStartOfCurrentWeek(now).Ok?
    ensures DayNumber(GetStartOfLastWeek(now).value.date) + 7 == DayNumber(GetStartOfCurrentWeek(now).value.date)
    ensures Millis(GetStartOfLastWeek(now).value) + 7 * MillisPerDay == Millis(GetStartOfCurrentWeek(now).value)
    ensures Millis(GetEndOfLastWeek(now).value) + 1 == Millis(GetStartOfCurrentWeek(now).value)
  {
    var last, current := GetEndOfLastWeek(now).value, GetStartOfCurrentWeek(now).value;
    EndOfDayPrecedesNextDay(last, current);
  }

  // ---------------------------------------------------------------------
  // Months
  // ---------------------------------------------------------------------

  /** `GetStartOfMonth(Month, Year)`: day 1 of the month at 00:00:00.000. */
  function GetStartOfMonth(month: Month, year: int): (r: Result<DateTime>)
    ensures r.Ok? <==> MinYear <= year <= MaxYear
    ensures r.Ok? ==> r.value.Valid() && AtStartOfDay(r.value)
    ensures r.Ok? ==> r.value.date == Date(year, MonthNumber(month), 1)
  {
    NewDateTime(year, MonthNumber(month), 1, 0, 0, 0, 0)
  }

  /** `GetEndOfMonth(Month, Year)`: the month's last day at 23:59:59.999. */
  function GetEndOfMonth(month: Month, year: int): (r: Result<DateTime>)
    ensures r.Ok? <==> MinYear <= year <= MaxYear
    ensures r.Ok? ==> r.value.Valid() && AtEndOfDay(r.value)
    ensures r.Ok? ==> r.value.date.year == year && r.value.date.month == MonthNumber(month)
    ensures r.Ok? ==> r.value.date.day == DaysInMonth(year, MonthNumber(month))
    ensures r.Ok? && month == February ==> (r.value.date.day == 29 <==> IsLeap(year))
    ensures r.Ok? && month == February ==> (r.value.date.day == 28 <==> !IsLeap(year))
  {
    NewDateTime(year, MonthNumber(month), DaysInMonth(year, MonthNumber(month)), 23, 59, 59, 999)
  }

  /** A month of `year` spans exactly the instants of that month and year. */
  lemma MonthContains(month: Month, year: int, x: DateTime)
    requires MinYear <= year <= MaxYear && x.Valid()
    ensures GetStartOfMonth(month, year).Ok? && GetEndOfMonth(month, year).Ok?
    ensures (Millis(GetStartOfMonth(month, year).value) <= Millis(x) <= Millis(GetEndOfMonth(month, year).value))
        <==> (x.date.year == year && x.date.month == MonthNumber(month))
  {
    var s, e := GetStartOfMonth(month, year).value, GetEndOfMonth(month, year).value;
    SpanContains(s, e, x);
  }

  /** A month ends exactly 1 ms before the next one starts; December rolls over to next year's January. */
  lemma MonthBoundsAdjacent(month: Month, year: int)
    requires MinYear <= year <= MaxYear
    requires month == December ==> year < MaxYear
    ensures GetEndOfMonth(month, year).Ok?
    ensures var next := if month == December then GetStartOfMonth(January, year + 1)
                        else GetStartOfMonth(MonthOfNumber(MonthNumber(month) + 1), year);
      next.Ok? && Millis(GetEndOfMonth(month, year).value) + 1 == Millis(next.value)
  {
    var e := GetEndOfMonth(month, year).value;
    var next := if month == December then GetStartOfMonth(January, year + 1)
                else GetStartOfMonth(MonthOfNumber(MonthNumber(month) + 1), year);
    assert next.value.date == FirstOfNextMonth(year, MonthNumber(month));
    EndOfMonthPrecedesNextMonth(e, next.value);
  }

  /** `GetStartOfLastMonth()`: day 1 of the month before `now`'s, December of last year in January. */
  function GetStartOfLastMonth(now: DateTime): (r: Result<DateTime>)
    requires now.Valid()
    ensures r.Ok? <==> now.date.month != 1 || now.date.year > MinYear
    ensures r.Ok? ==> r.value.Valid() && AtStartOfDay(r.value) && r.value.date.day == 1
    ensures r.Ok? && now.date.month == 1 ==> r.value.date.year == now.date.year - 1 && r.value.date.month == 12
    ensures now.date.month != 1 ==> r.Ok? && r.value.date.year == now.date.year && r.value.date.month == now.date.month - 1
  {
    if now.date.month == 1 then
      GetStartOfMonth(December, now.date.year - 1)
    else
      GetStartOfMonth(MonthOfNumber(now.date.month - 1), now.date.year)
  }

  /** `GetEndOfLastMonth()`: the last day of the month before `now`'s, December of last year in January. */
  function GetEndOfLastMonth(now: DateTime): (r: Result<DateTime>)
    requires now.Valid()
    ensures r.Ok? <==> now.date.month != 1 || now.date.year > MinYear
    ensures r.Ok? ==> r.value.Valid() && AtEndOfDay(r.value)
    ensures r.Ok? ==> r.value.date.day == DaysInMonth(r.value.date.year, r.value.date.month)
    ensures r.Ok? && now.date.month == 1 ==> r.value.date.year == now.date.year - 1 && r.value.date.month == 12
    ensures now.date.month != 1 ==> r.Ok? && r.value.date.year == now.date.year && r.value.date.month == now.date.month - 1
  {
    if now.date.month == 1 then
      GetEndOfMonth(December, now.date.year - 1)
    else
      GetEndOfMonth(MonthOfNumber(now.date.month - 1), now.date.year)
  }

  /** `GetStartOfCurrentMonth()`: day 1 of `now`'s month. */
  function GetStartOfCurrentMonth(now: DateTime): (r: DateTime)
    requires now.Valid()
    ensures r.Valid() && AtStartOfDay(r)
    ensures r.date == Date(now.date.year, now.date.month, 1)
  {
    GetStartOfMonth(MonthOfNumber(now.date.month), now.date.year).value
  }

  /** `GetEndOfCurrentMonth()`: the last day of `now`'s month. */
  function GetEndOfCurrentMonth(now: DateTime): (r: DateTime)
    requires now.Valid()
    ensures r.Valid() && AtEndOfDay(r)
    ensures r.date == Date(now.date.year, now.date.month, DaysInMonth(now.date.year, now.date.month))
  {
    GetEndOfMonth(MonthOfNumber(now.date.month), now.date.year).value
  }

  /** The current month holds `now`. */
  lemma CurrentMonthContainsNow(now: DateTime)
    requires now.Valid()
    ensures Millis(GetStartOfCurrentMonth(now)) <= Millis(now) <= Millis(GetEndOfCurrentMonth(now))
  {
    MonthContains(MonthOfNumber(now.date.month), now.date.year, now);
  }

  /** Last month's start and end belong to one month, which ends exactly 1 ms before the current month starts. */
  lemma LastMonthPrecedesCurrentMonth(now: DateTime)
    requires now.Valid() && GetStartOfLastMonth(now).Ok?
    ensures GetEndOfLastMonth(now).Ok?
    ensures GetStartOfLastMonth(now).value.date.year == GetEndOfLastMonth(now).value.date.year
    ensures GetStartOfLastMonth(now).value.date.month == GetEndOfLastMonth(now).value.date.month
    ensures Millis(GetStartOfLastMonth(now).value) < Millis(GetEndOfLastMonth(now).value)
    ensures Millis(GetEndOfLastMonth(now).value) + 1 == Millis(GetStartOfCurrentMonth(now))
  {
    var s, e, c := GetStartOfLastMonth(now).value, GetEndOfLastMonth(now).value, GetStartOfCurrentMonth(now);
    assert s.date.year == e.date.year && s.date.month == e.date.month;
    SpanOrdered(s, e);
    assert c.date == FirstOfNextMonth(e.date.year, e.date.month);
    EndOfMonthPrecedesNextMonth(e, c);
  }

  // ---------------------------------------------------------------------
  // Years
  // ---------------------------------------------------------------------

  /** `GetStartOfYear(Year)`: January 1 at 00:00:00.000. */
  function GetStartOfYear(year: int): (r: Result<DateTime>)
    ensures r.Ok? <==> MinYear <= year <= MaxYear
    ensures r.Ok? ==> r.value.Valid() && AtStartOfDay(r.value) && r.value.date == Date(year, 1, 1)
  {
    NewDateTime(year, 1, 1, 0, 0, 0, 0)
  }

  /** `GetEndOfYear(Year)`: December 31 at 23:59:59.999. */
  function GetEndOfYear(year: int): (r: Result<DateTime>)
    ensures r.Ok? <==> MinYear <= year <= MaxYear
    ensures r.Ok? ==> r.value.Valid() && AtEndOfDay(r.value) && r.value.date == Date(year, 12, 31)
  {
    NewDateTime(year, 12, DaysInMonth(year, 12), 23, 59, 59, 999)
  }

  /** A year spans exactly its own instants. */
  lemma YearContains(year: int, x: DateTime)
    requires MinYear <= year <= MaxYear && x.Valid()
    ensures GetStartOfYear(year).Ok? && GetEndOfYear(year).Ok?
    ensures (Millis(GetStartOfYear(year).value) <= Millis(x) <= Millis(GetEndOfYear(year).value))
        <==> x.date.year == year
  {
    var s, e := GetStartOfYear(year).value, GetEndOfYear(year).value;
    SpanContains(s, e, x);
  }

  /** The year before `year` ends exactly 1 ms before `year` starts. */
  lemma YearBoundsAdjacent(year: int)
    requires MinYear < year <= MaxYear
    ensures GetEndOfYear(year - 1).Ok? && GetStartOfYear(year).Ok?
    ensures Millis(GetEndOfYear(year - 1).value) + 1 == Millis(GetStartOfYear(year).value)
  {
    var last, first := GetEndOfYear(year - 1).value, GetStartOfYear(year).value;
    assert first.date == FirstOfNextMonth(year - 1, 12);
    EndOfMonthPrecedesNextMonth(last, first);
  }

  /** `GetStartOfLastYear()`: January 1 of the year before `now`'s. */
  function GetStartOfLastYear(now: DateTime): (r: Result<DateTime>)
    requires now.Valid()
    ensures r.Ok? <==> now.date.year > MinYear
    ensures r.Ok? ==> r.value.Valid() && AtStartOfDay(r.value) && r.value.date == Date(now.date.year - 1, 1, 1)
  {
    GetStartOfYear(now.date.year - 1)
  }

  /** `GetEndOfLastYear()`: December 31 of the year before `now`'s. */
  function GetEndOfLastYear(now: DateTime): (r: Result<DateTime>)
    requires now.Valid()
    ensures r.Ok? <==> now.date.year > MinYear
    ensures r.Ok? ==> r.value.Valid() && AtEndOfDay(r.value) && r.value.date == Date(now.date.year - 1, 12, 31)
  {
    GetEndOfYear(now.date.year - 1)
  }

  /** `GetStartOfCurrentYear()`: January 1 of `now`'s year. */
  function GetStartOfCurrentYear(now: DateTime): (r: DateTime)
    requires now.Valid()
    ensures r.Valid() && AtStartOfDay(r) && r.date == Date(now.date.year, 1, 1)
  {
    GetStartOfYear(now.date.year).value
  }

  /** `GetEndOfCurrentYear()`: December 31 of `now`'s year. */
  function GetEndOfCurrentYear(now: DateTime): (r: DateTime)
    requires now.Valid()
    ensures r.Valid() && AtEndOfDay(r) && r.date == Date(now.date.year, 12, 31)
  {
    GetEndOfYear(now.date.year).value
  }

  /** The current year holds `now`. */
  lemma CurrentYearContainsNow(now: DateTime)
    requires now.Valid()
    ensures Millis(GetStartOfCurrentYear(now)) <= Millis(now) <= Millis(GetEndOfCurrentYear(now))
  {
    var s, e := GetStartOfCurrentYear(now), GetEndOfCurrentYear(now);
    SpanContains(s, e, now);
  }

  /** Last year, whenever it exists, ends exactly 1 ms before the current year starts. */
  lemma LastYearPrecedesCurrentYear(now: DateTime)
    requires now.Valid()
    ensures GetEndOfLastYear(now).Ok? <==> now.date.year > MinYear
    ensures GetEndOfLastYear(now).Ok? ==>
      Millis(GetEndOfLastYear(now).value) + 1 == Millis(GetStartOfCurrentYear(now))
  {
    if now.date.year > MinYear {
      LastYearEndsBeforeCurrentYear(now);
    }
  }

  /** After year 1, December 31 of last year ends exactly 1 ms before January 1 of `now`'s year. */
  lemma LastYearEndsBeforeCurrentYear(now: DateTime)
    requires now.Valid() && now.date.year > MinYear
    ensures GetEndOfLastYear(now).Ok?
    ensures Millis(GetEndOfLastYear(now).value) + 1 == Millis(GetStartOfCurrentYear(now))
  {
    var last, s := GetEndOfLastYear(now).value, GetStartOfCurrentYear(now);
    assert s.date == FirstOfNextMonth(last.date.year, last.date.month);
    EndOfMonthPrecedesNextMonth(last, s);
  }

  // ---------------------------------------------------------------------
  // Days
  // ---------------------------------------------------------------------

  /** `GetStartOfDay(date)`: `date`'s day at 00:00:00.000. */
  function GetStartOfDay(date: DateTime): (r: DateTime)
    requires date.Valid()
    ensures r.Valid() && AtStartOfDay(r) && r.date == date.date
    ensures LexLeq(r, date) && Millis(r) <= Millis(date)
  {
    NewDateTime(date.date.year, date.date.month, date.date.day, 0, 0, 0, 0).value
  }

  /** `GetEndOfDay(date)`: `date`'s day at 23:59:59.999. */
  function GetEndOfDay(date: DateTime): (r: DateTime)
    requires date.Valid()
    ensures r.Valid() && AtEndOfDay(r) && r.date == date.date
    ensures LexLeq(date, r) && Millis(date) <= Millis(r)
  {
    NewDateTime(date.date.year, date.date.month, date.date.day, 23, 59, 59, 999).value
  }

  /** A day spans exactly the instants of that calendar day. */
  lemma DayContains(date: DateTime, x: DateTime)
    requires date.Valid() && x.Valid()
    ensures (Millis(GetStartOfDay(date)) <= Millis(x) <= Millis(GetEndOfDay(date))) <==> x.date == date.date
  {
    SpanContains(GetStartOfDay(date), GetEndOfDay(date), x);
  }

  // ---------------------------------------------------------------------
  // Worked examples
  // ---------------------------------------------------------------------

  /** February ends on the 29th in 2024 and on the 28th in 2023; 2023 runs from Jan 1 to Dec 31. */
  lemma CalendarExamples()
    ensures GetStartOfMonth(February, 2024) == Ok(DateTime(Date(2024, 2, 1), 0, 0, 0, 0))
    ensures GetEndOfMonth(February, 2024) == Ok(DateTime(Date(2024, 2, 29), 23, 59, 59, 999))
    ensures GetEndOfMonth(February, 2023) == Ok(DateTime(Date(2023, 2, 28), 23, 59, 59, 999))
    ensures GetEndOfMonth(February, 1900) == Ok(DateTime(Date(1900, 2, 28), 23, 59, 59, 999))
    ensures GetEndOfMonth(February, 2000) == Ok(DateTime(Date(2000, 2, 29), 23, 59, 59, 999))
    ensures GetStartOfYear(2023) == Ok(DateTime(Date(2023, 1, 1), 0, 0, 0, 0))
    ensures GetEndOfYear(2023) == Ok(DateTime(Date(2023, 12, 31), 23, 59, 59, 999))
    ensures GetStartOfYear(0).Err? && GetEndOfQuarter(10000, First).Err?
  {
  }
}
