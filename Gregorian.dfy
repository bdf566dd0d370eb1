/**
 The proleptic Gregorian calendar as the .NET `DateTime` value type sees it,
 at millisecond precision: the leap-year rule, month lengths, the validity
 rules the `DateTime` constructor enforces, day numbers counted from
 0001-01-01 (a Monday), day-of-week, whole-day arithmetic and the ordering
 of instants.
 */
module Gregorian {

  /** The one exception the calendar operations raise. */
  datatype Error = ArgumentOutOfRange

  datatype Result<T> = Ok(value: T) | Err(error: Error)

  const MinYear: int := 1
  const MaxYear: int := 9999

  /** Day number of 9999-12-31, the last day `DateTime` can represent. */
  const MaxDayNumber: int := 3_652_058

  /** Milliseconds in one day. */
  const MillisPerDay: int := 86_400_000

  // ---------------------------------------------------------------------
  // Years and months
  // ---------------------------------------------------------------------

  /** The Gregorian leap-year rule: divisible by 4, and not by 100 unless by 400. */
  predicate IsLeap(year: int) {
    year % 4 == 0 && (year % 100 != 0 || year % 400 == 0)
  }

  function DaysInYear(year: int): (n: int)
    ensures n == 365 || n == 366
    ensures n == 366 <==> IsLeap(year)
  {
    if IsLeap(year) then 366 else 365
  }

  /** `DateTime.DaysInMonth`: the number of days of month `month` (1..12) of `year`. */
  function DaysInMonth(year: int, month: int): (n: int)
    requires 1 <= month <= 12
    ensures 28 <= n <= 31
    ensures month == 2 ==> (n == 29 <==> IsLeap(year)) && (n == 28 <==> !IsLeap(year))
    ensures month == 4 || month == 6 || month == 9 || month == 11 ==> n == 30
    ensures month != 2 && month != 4 && month != 6 && month != 9 && month != 11 ==> n == 31
  {
    if month == 2 then (if IsLeap(year) then 29 else 28)
    else if month == 4 || month == 6 || month == 9 || month == 11 then 30
    else 31
  }

  /**
   Days of `year` before the first day of `month`; month 13 stands for the
   day after the year ends, so DaysBeforeMonth(year, 13) is the year's length.
   */
  function DaysBeforeMonth(year: int, month: int): (n: int)
    requires 1 <= month <= 13
    ensures 0 <= n <= DaysInYear(year)
    ensures month == 1 ==> n == 0
    ensures month == 13 ==> n == DaysInYear(year)
  {
    [0, 31, 59, 90, 120, 151, 181, 212, 243, 273, 304, 334, 365][month - 1]
      + (if month > 2 && IsLeap(year) then 1 else 0)
  }

  /** Each month starts where the previous one ends. */
  lemma DaysBeforeMonthStep(year: int, month: int)
    requires 1 <= month <= 12
    ensures DaysBeforeMonth(year, month + 1) == DaysBeforeMonth(year, month) + DaysInMonth(year, month)
  {
  }

  lemma {:induction false} DaysBeforeMonthMonotone(year: int, m1: int, m2: int)
    requires 1 <= m1 <= m2 <= 13
    ensures DaysBeforeMonth(year, m1) + 28 * (m2 - m1) <= DaysBeforeMonth(year, m2)
    decreases m2 - m1
  {
    if m1 < m2 {
      DaysBeforeMonthStep(year, m1);
      DaysBeforeMonthMonotone(year, m1 + 1, m2);
    }
  }

  /** Days from 0001-01-01 to the first day of `year`: the lengths of the years before it. */
  function DaysBeforeYear(year: int): (n: int)
    requires year >= 1
    ensures 365 * (year - 1) <= n <= 366 * (year - 1)
    decreases year
  {
    if year == 1 then 0 else DaysBeforeYear(year - 1) + DaysInYear(year - 1)
  }

  /** Each year starts where the previous one ends. */
  lemma DaysBeforeYearStep(year: int)
    requires year >= 1
    ensures DaysBeforeYear(year + 1) == DaysBeforeYear(year) + DaysInYear(year)
  {
  }

  lemma {:induction false} DaysBeforeYearMonotone(a: int, b: int)
    requires 1 <= a <= b
    ensures DaysBeforeYear(a) + 365 * (b - a) <= DaysBeforeYear(b)
    decreases b - a
  {
    if a < b {
      DaysBeforeYearStep(a);
      DaysBeforeYearMonotone(a + 1, b);
    }
  }

  lemma MultipleStep4(y: int)
    requires y >= 1
    ensures y / 4 - (y - 1) / 4 == (if y % 4 == 0 then 1 else 0)
  {
  }

  lemma MultipleStep100(y: int)
    requires y >= 1
    ensures y / 100 - (y - 1) / 100 == (if y % 100 == 0 then 1 else 0)
  {
  }

  lemma MultipleStep400(y: int)
    requires y >= 1
    ensures y / 400 - (y - 1) / 400 == (if y % 400 == 0 then 1 else 0)
  {
  }

  /** A multiple of 400 is a multiple of 100. */
  lemma Multiple400Is100(y: int)
    requires y % 400 == 0
    ensures y % 100 == 0
  {
    var k := y / 400;
    assert y == 100 * (4 * k);
  }

  /** A multiple of 100 is a multiple of 4. */
  lemma Multiple100Is4(y: int)
    requires y % 100 == 0
    ensures y % 4 == 0
  {
    var k := y / 100;
    assert y == 4 * (25 * k);
  }

  /** A year's length is 365 plus one for each of "divisible by 4", "not by 100", "but by 400" it meets. */
  lemma LeapCountStep(y: int)
    requires y >= 1
    ensures DaysInYear(y) == 365 + (y / 4 - (y - 1) / 4) - (y / 100 - (y - 1) / 100) + (y / 400 - (y - 1) / 400)
  {
    MultipleStep4(y);
    MultipleStep100(y);
    MultipleStep400(y);
    if y % 400 == 0 {
      Multiple400Is100(y);
    }
    if y % 100 == 0 {
      Multiple100Is4(y);
    }
  }

  /** The closed form .NET uses: 365 days a year plus the leap days (k/4 - k/100 + k/400 for k years). */
  lemma {:induction false} DaysBeforeYearClosedForm(year: int)
    requires year >= 1
    ensures DaysBeforeYear(year) == 365 * (year - 1) + (year - 1) / 4 - (year - 1) / 100 + (year - 1) / 400
    decreases year
  {
    if year > 1 {
      DaysBeforeYearClosedForm(year - 1);
      LeapCountStep(year - 1);
    }
  }

  /** 9999-12-31 is day 3,652,058: the year 10000 would start on the day after it. */
  lemma LastDayNumber()
    ensures DaysBeforeYear(MaxYear + 1) == MaxDayNumber + 1
  {
    DaysBeforeYearClosedForm(MaxYear + 1);
  }

  // ---------------------------------------------------------------------
  // Dates and day numbers
  // ---------------------------------------------------------------------

  /** A calendar day; `Valid` holds of exactly the days a `DateTime` can carry. */
  datatype Date = Date(year: int, month: int, day: int) {
    predicate Valid() {
      MinYear <= year <= MaxYear && 1 <= month <= 12 && 1 <= day <= DaysInMonth(year, month)
    }
  }

  /** Lexicographic (year, month, day) order. */
  predicate DateLess(a: Date, b: Date) {
    a.year < b.year
    || (a.year == b.year && a.month < b.month)
    || (a.year == b.year && a.month == b.month && a.day < b.day)
  }

  predicate DateLeq(a: Date, b: Date) {
    DateLess(a, b) || a == b
  }

  /** Days elapsed since 0001-01-01; `DateTime.Ticks` divided by one day. */
  function DayNumber(d: Date): (n: int)
    requires d.Valid()
    ensures 0 <= n <= MaxDayNumber
  {
    DayNumberWithinYear(d);
    DaysBeforeYearMonotone(d.year + 1, MaxYear + 1);
    LastDayNumber();
    DaysBeforeYear(d.year) + DaysBeforeMonth(d.year, d.month) + d.day - 1
  }

  /** A day's number lies among the day numbers of its year. */
  lemma DayNumberWithinYear(d: Date)
    requires d.Valid()
    ensures DaysBeforeYear(d.year) <= DaysBeforeYear(d.year) + DaysBeforeMonth(d.year, d.month) + d.day - 1
                                   < DaysBeforeYear(d.year + 1)
  {
    DaysBeforeMonthStep(d.year, d.month);
    DaysBeforeMonthMonotone(d.year, d.month + 1, 13);
    DaysBeforeYearStep(d.year);
  }

  /** The day numbers of a year run from DaysBeforeYear(year) to just before DaysBeforeYear(year + 1). */
  lemma DayNumberBounds(d: Date)
    requires d.Valid()
    ensures DaysBeforeYear(d.year) <= DayNumber(d) < DaysBeforeYear(d.year + 1)
  {
    DayNumberWithinYear(d);
  }

  /** Every day of an earlier year has a smaller day number. */
  lemma EarlierYearSmallerDayNumber(a: Date, b: Date)
    requires a.Valid() && b.Valid() && a.year < b.year
    ensures DayNumber(a) < DayNumber(b)
  {
    DayNumberBounds(a);
    DayNumberBounds(b);
    DaysBeforeYearMonotone(a.year + 1, b.year);
    assert DaysBeforeYear(a.year + 1) <= DaysBeforeYear(b.year);
  }

  /** Within a year, every day of an earlier month has a smaller day number. */
  lemma EarlierMonthSmallerDayNumber(a: Date, b: Date)
    requires a.Valid() && b.Valid() && a.year == b.year && a.month < b.month
    ensures DayNumber(a) < DayNumber(b)
  {
    var y := a.year;
    DaysBeforeMonthStep(y, a.month);
    DaysBeforeMonthMonotone(y, a.month + 1, b.month);
    assert DaysBeforeMonth(y, a.month) + a.day - 1 < DaysBeforeMonth(y, b.month);
  }

  /** Lexicographic order of dates is the order of their day numbers. */
  lemma DateLessIsDayNumberLess(a: Date, b: Date)
    requires a.Valid() && b.Valid()
    ensures DateLess(a, b) ==> DayNumber(a) < DayNumber(b)
  {
    if a.year < b.year {
      EarlierYearSmallerDayNumber(a, b);
    } else if a.year == b.year && a.month < b.month {
      EarlierMonthSmallerDayNumber(a, b);
    }
  }

  /** Day numbers are one-to-one and order dates lexicographically. */
  lemma DayNumberOrder(a: Date, b: Date)
    requires a.Valid() && b.Valid()
    ensures DateLess(a, b) <==> DayNumber(a) < DayNumber(b)
    ensures DateLeq(a, b) <==> DayNumber(a) <= DayNumber(b)
    ensures a == b <==> DayNumber(a) == DayNumber(b)
  {
    DateLessIsDayNumberLess(a, b);
    DateLessIsDayNumberLess(b, a);
  }

  /** The year holding day `n`, searched upwards from `year`. */
  function YearOfDayNumber(n: int, year: int): (y: int)
    requires 1 <= year && DaysBeforeYear(year) <= n
    ensures year <= y && DaysBeforeYear(y) <= n < DaysBeforeYear(y + 1)
    decreases n - DaysBeforeYear(year)
  {
    DaysBeforeYearStep(year);
    if n < DaysBeforeYear(year + 1) then year else YearOfDayNumber(n, year + 1)
  }

  /** The month holding day `r` (0-based) of `year`, searched upwards from `month`. */
  function MonthOfDayOfYear(year: int, r: int, month: int): (m: int)
    requires 1 <= month <= 12 && DaysBeforeMonth(year, month) <= r < DaysInYear(year)
    ensures month <= m <= 12 && DaysBeforeMonth(year, m) <= r < DaysBeforeMonth(year, m + 1)
    decreases 12 - month
  {
    if r < DaysBeforeMonth(year, month + 1) then month else MonthOfDayOfYear(year, r, month + 1)
  }

  /** The date whose day number is `n`. */
  function DateOfDayNumber(n: int): (d: Date)
    requires 0 <= n <= MaxDayNumber
    ensures d.Valid() && DayNumber(d) == n
  {
    var y := YearOfDayNumber(n, 1);
    if y > MaxYear then
      DaysBeforeYearMonotone(MaxYear + 1, y);
      LastDayNumber();
      assert false;
      Date(1, 1, 1)
    else
      DaysBeforeYearStep(y);
      var r := n - DaysBeforeYear(y);
      var m := MonthOfDayOfYear(y, r, 1);
      DaysBeforeMonthStep(y, m);
      Date(y, m, r - DaysBeforeMonth(y, m) + 1)
  }

  /** Converting a date to its day number and back gives the date. */
  lemma DateOfDayNumberOfDate(d: Date)
    requires d.Valid()
    ensures DateOfDayNumber(DayNumber(d)) == d
  {
    DayNumberOrder(DateOfDayNumber(DayNumber(d)), d);
  }

  /** `DateTime.DayOfWeek` with Sunday = 0 .. Saturday = 6. */
  function DayOfWeek(d: Date): (w: int)
    requires d.Valid()
    ensures 0 <= w < 7
  {
    (DayNumber(d) + 1) % 7
  }

  /** 0001-01-01 is a Monday. */
  lemma FirstDayIsMonday()
    ensures Date(1, 1, 1).Valid() && DayNumber(Date(1, 1, 1)) == 0 && DayOfWeek(Date(1, 1, 1)) == 1
  {
  }

  lemma WeekdayShift(a: int, b: int)
    ensures (a + b) % 7 == (a % 7 + b) % 7
  {
    var x := a % 7 + b;
    assert a == 7 * (a / 7) + a % 7;
    assert x == 7 * (x / 7) + x % 7;
    assert a + b == 7 * (a / 7 + x / 7) + x % 7;
  }

  /** Weekdays advance by one per day, modulo 7. */
  lemma WeekdayOfOffset(d: Date, e: Date)
    requires d.Valid() && e.Valid()
    ensures DayOfWeek(e) == (DayOfWeek(d) + (DayNumber(e) - DayNumber(d))) % 7
  {
    WeekdayShift(DayNumber(d) + 1, DayNumber(e) - DayNumber(d));
  }

  /** The day `k` days after the Sunday on or before `d` has weekday `k` mod 7. */
  lemma WeekdayAfterSunday(d: Date, e: Date, k: int)
    requires d.Valid() && e.Valid() && DayNumber(e) == DayNumber(d) - DayOfWeek(d) + k
    ensures DayOfWeek(e) == k % 7
  {
    WeekdayOfOffset(d, e);
  }

  /** The first day of the month after month `month` of `year`. */
  function FirstOfNextMonth(year: int, month: int): Date {
    if month == 12 then Date(year + 1, 1, 1) else Date(year, month + 1, 1)
  }

  /** The last day of a month is followed by the first day of the next month (or of the next year). */
  lemma LastDayOfMonthPrecedesFirstOfNext(year: int, month: int)
    requires MinYear <= year <= MaxYear && 1 <= month <= 12
    requires month == 12 ==> year < MaxYear
    ensures FirstOfNextMonth(year, month).Valid()
    ensures DayNumber(FirstOfNextMonth(year, month)) == DayNumber(Date(year, month, DaysInMonth(year, month))) + 1
  {
    DaysBeforeMonthStep(year, month);
    if month == 12 {
      DaysBeforeYearStep(year);
    }
  }

  // ---------------------------------------------------------------------
  // Instants
  // ---------------------------------------------------------------------

  /** A `DateTime` at millisecond precision. */
  datatype DateTime = DateTime(date: Date, hour: int, minute: int, second: int, millisecond: int) {
    predicate Valid() {
      date.Valid() && 0 <= hour < 24 && 0 <= minute < 60 && 0 <= second < 60 && 0 <= millisecond < 1000
    }
  }

  /** `new DateTime(year, month, day, hour, minute, second, millisecond)`. */
  function NewDateTime(year: int, month: int, day: int, hour: int, minute: int, second: int, millisecond: int): (r: Result<DateTime>)
    ensures r.Ok? <==> DateTime(Date(year, month, day), hour, minute, second, millisecond).Valid()
    ensures r.Ok? ==> r.value == DateTime(Date(year, month, day), hour, minute, second, millisecond)
  {
    var dt := DateTime(Date(year, month, day), hour, minute, second, millisecond);
    if dt.Valid() then Ok(dt) else Err(ArgumentOutOfRange)
  }

  predicate AtStartOfDay(dt: DateTime) {
    dt.hour == 0 && dt.minute == 0 && dt.second == 0 && dt.millisecond == 0
  }

  predicate AtEndOfDay(dt: DateTime) {
    dt.hour == 23 && dt.minute == 59 && dt.second == 59 && dt.millisecond == 999
  }

  /** Milliseconds since midnight. */
  function TimeOfDay(dt: DateTime): (t: int)
    requires dt.Valid()
    ensures 0 <= t < MillisPerDay
    ensures AtStartOfDay(dt) ==> t == 0
    ensures AtEndOfDay(dt) ==> t == MillisPerDay - 1
  {
    ((dt.hour * 60 + dt.minute) * 60 + dt.second) * 1000 + dt.millisecond
  }

  /** Milliseconds since 0001-01-01T00:00:00.000; `DateTime.Ticks` at millisecond precision. */
  function Millis(dt: DateTime): (t: int)
    requires dt.Valid()
    ensures 0 <= t
  {
    DayNumber(dt.date) * MillisPerDay + TimeOfDay(dt)
  }

  /** Lexicographic (year, month, day, hour, minute, second, millisecond) order. */
  predicate LexLeq(a: DateTime, b: DateTime) {
    DateLess(a.date, b.date)
    || (a.date == b.date &&
        (a.hour < b.hour
         || (a.hour == b.hour && a.minute < b.minute)
         || (a.hour == b.hour && a.minute == b.minute && a.second < b.second)
         || (a.hour == b.hour && a.minute == b.minute && a.second == b.second && a.millisecond <= b.millisecond)))
  }

  /** Comparing instants (as .NET does, by ticks) is comparing them lexicographically. */
  lemma MillisOrderIsLexicographic(a: DateTime, b: DateTime)
    requires a.Valid() && b.Valid()
    ensures Millis(a) <= Millis(b) <==> LexLeq(a, b)
  {
    DayNumberOrder(a.date, b.date);
  }

  /**
   The instants from the start of day `first` to the end of day `last` are
   those whose day number lies between theirs.
   */
  lemma SpanContainsDays(first: DateTime, last: DateTime, x: DateTime)
    requires first.Valid() && last.Valid() && x.Valid()
    requires AtStartOfDay(first) && AtEndOfDay(last)
    ensures (Millis(first) <= Millis(x) <= Millis(last))
        <==> (DayNumber(first.date) <= DayNumber(x.date) <= DayNumber(last.date))
  {
  }

  /**
   The instants from the start of day `first` to the end of day `last` are
   those whose day lies between `first` and `last`.
   */
  lemma SpanContains(first: DateTime, last: DateTime, x: DateTime)
    requires first.Valid() && last.Valid() && x.Valid()
    requires AtStartOfDay(first) && AtEndOfDay(last)
    ensures (Millis(first) <= Millis(x) <= Millis(last))
        <==> (DateLeq(first.date, x.date) && DateLeq(x.date, last.date))
  {
    SpanContainsDays(first, last, x);
    DayNumberOrder(first.date, x.date);
    DayNumberOrder(x.date, last.date);
  }

  /** A span from the start of one day to the end of a day not before it is not empty. */
  lemma SpanOrdered(first: DateTime, last: DateTime)
    requires first.Valid() && last.Valid()
    requires AtStartOfDay(first) && AtEndOfDay(last) && DateLeq(first.date, last.date)
    ensures Millis(first) < Millis(last)
  {
    DayNumberOrder(first.date, last.date);
  }

  /** The end of one day is exactly 1 ms before the start of the next. */
  lemma EndOfDayPrecedesNextDay(last: DateTime, next: DateTime)
    requires last.Valid() && next.Valid() && AtEndOfDay(last) && AtStartOfDay(next)
    requires DayNumber(next.date) == DayNumber(last.date) + 1
    ensures Millis(last) + 1 == Millis(next)
  {
  }

  /** The end of a month's last day is exactly 1 ms before the start of the next month. */
  lemma EndOfMonthPrecedesNextMonth(last: DateTime, next: DateTime)
    requires last.Valid() && next.Valid() && AtEndOfDay(last) && AtStartOfDay(next)
    requires last.date.day == DaysInMonth(last.date.year, last.date.month)
    requires next.date == FirstOfNextMonth(last.date.year, last.date.month)
    ensures Millis(last) + 1 == Millis(next)
  {
    LastDayOfMonthPrecedesFirstOfNext(last.date.year, last.date.month);
    EndOfDayPrecedesNextDay(last, next);
  }

  // ---------------------------------------------------------------------
  // Whole-day arithmetic
  // ---------------------------------------------------------------------

  /**
   `dt.AddDays(days)` for a whole number of days (and `dt.Subtract(TimeSpan.FromDays(-days))`):
   the same time of day, `days` days later, or ArgumentOutOfRange when that
   leaves 0001-01-01 .. 9999-12-31.
   */
  function AddDays(dt: DateTime, days: int): (r: Result<DateTime>)
    requires dt.Valid()
    ensures r.Ok? <==> 0 <= DayNumber(dt.date) + days <= MaxDayNumber
    ensures r.Ok? ==> r.value.Valid() && DayNumber(r.value.date) == DayNumber(dt.date) + days
    ensures r.Ok? ==> (r.value.hour == dt.hour && r.value.minute == dt.minute &&
                       r.value.second == dt.second && r.value.millisecond == dt.millisecond)
  {
    var n := DayNumber(dt.date) + days;
    if 0 <= n <= MaxDayNumber then
      Ok(DateTime(DateOfDayNumber(n), dt.hour, dt.minute, dt.second, dt.millisecond))
    else
      Err(ArgumentOutOfRange)
  }

  /** Moving by `days` days moves the instant by exactly `days` whole days. */
  lemma AddDaysMillis(dt: DateTime, days: int)
    requires dt.Valid() && AddDays(dt, days).Ok?
    ensures Millis(AddDays(dt, days).value) == Millis(dt) + days * MillisPerDay
  {
  }

  /** Adding no days changes nothing. */
  lemma AddZeroDays(dt: DateTime)
    requires dt.Valid()
    ensures AddDays(dt, 0) == Ok(dt)
  {
    DateOfDayNumberOfDate(dt.date);
  }

  /** Moving `days` days and back returns to the starting instant. */
  lemma AddDaysInverse(dt: DateTime, days: int)
    requires dt.Valid() && AddDays(dt, days).Ok?
    ensures AddDays(AddDays(dt, days).value, -days) == Ok(dt)
  {
    var moved := AddDays(dt, days).value;
    var back := AddDays(moved, -days);
    assert back.Ok?;
    DayNumberOrder(back.value.date, dt.date);
  }

  /** Moving `days` days moves the weekday by `days` modulo 7. */
  lemma AddDaysWeekday(dt: DateTime, days: int)
    requires dt.Valid() && AddDays(dt, days).Ok?
    ensures DayOfWeek(AddDays(dt, days).value.date) == (DayOfWeek(dt.date) + days) % 7
  {
    var moved := AddDays(dt, days).value;
    WeekdayOfOffset(dt.date, moved.date);
  }
}
