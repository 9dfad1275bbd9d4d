/**
 * Calendar arithmetic on plain dates of the proleptic Gregorian calendar.
 * These total functions stand for the date-fns helpers the calendar widget
 * calls (startOfMonth, endOfMonth, startOfWeek, endOfWeek, addDays,
 * addMonths, subMonths, isSameDay, isSameMonth); time of day and time
 * zones are not modelled.
 */
module Dates {

  /** A calendar date; `ValidDate` says when it names a real day. */
  datatype Date = Date(year: int, month: int, day: int)

  /** Weekdays are numbered from Monday (0) to Sunday (6). */
  const MONDAY := 0
  const SUNDAY := 6

  /** The Gregorian leap-year rule, as in Appendix C of RFC 3339. */
  predicate IsLeapYear(y: int)
  {
    y % 4 == 0 && (y % 100 != 0 || y % 400 == 0)
  }

  function DaysInMonth(y: int, m: int): (n: int)
    requires 1 <= m <= 12
    ensures 28 <= n <= 31
  {
    if m == 2 then (if IsLeapYear(y) then 29 else 28)
    else if m == 4 || m == 6 || m == 9 || m == 11 then 30
    else 31
  }

  /** Dates from 1 January of year 1 onwards. */
  predicate ValidDate(d: Date)
  {
    1 <= d.year && 1 <= d.month <= 12 && 1 <= d.day <= DaysInMonth(d.year, d.month)
  }

  /** Strict chronological order, compared field by field. */
  predicate Before(a: Date, b: Date)
  {
    a.year < b.year
    || (a.year == b.year && a.month < b.month)
    || (a.year == b.year && a.month == b.month && a.day < b.day)
  }

  function YearLength(y: int): int
  {
    if IsLeapYear(y) then 366 else 365
  }

  /** Number of days in the years 1 .. y-1. */
  function DaysBeforeYear(y: int): (n: int)
    requires y >= 1
    ensures n >= 0
    decreases y
  {
    if y == 1 then 0 else DaysBeforeYear(y - 1) + YearLength(y - 1)
  }

  /** Number of days in the months 1 .. m-1 of year y. */
  function DaysBeforeMonth(y: int, m: int): int
    requires 1 <= m <= 12
  {
    var common :=
      if m <= 6 then (if m == 1 then 0 else if m == 2 then 31 else if m == 3 then 59
                      else if m == 4 then 90 else if m == 5 then 120 else 151)
      else (if m == 7 then 181 else if m == 8 then 212 else if m == 9 then 243
            else if m == 10 then 273 else if m == 11 then 304 else 334);
    common + (if m > 2 && IsLeapYear(y) then 1 else 0)
  }

  /**
   * Days elapsed since 0001-01-01. Comparing two JavaScript dates at the
   * same time of day compares exactly these numbers.
   */
  function DayNumber(d: Date): int
    requires ValidDate(d)
  {
    DaysBeforeYear(d.year) + DaysBeforeMonth(d.year, d.month) + d.day - 1
  }

  /** 0001-01-01 was a Monday, so the weekday is the day number modulo 7. */
  function Weekday(d: Date): (w: int)
    requires ValidDate(d)
    ensures MONDAY <= w <= SUNDAY
  {
    DayNumber(d) % 7
  }

  lemma YearStep(y: int)
    requires y >= 1
    ensures DaysBeforeYear(y + 1) == DaysBeforeYear(y) + YearLength(y)
  {
  }

  /** The usual closed form: 365 days a year plus the leap days of the Gregorian rule. */
  lemma {:induction false} DaysBeforeYearClosedForm(y: int)
    requires y >= 1
    ensures DaysBeforeYear(y) == 365 * (y - 1) + (y - 1) / 4 - (y - 1) / 100 + (y - 1) / 400
    decreases y
  {
    if y > 1 {
      DaysBeforeYearClosedForm(y - 1);
      LeapDaysStep(y - 2);
    }
  }

  /** Going from p to p + 1 years adds the leap day of year p + 1, if it has one. */
  lemma LeapDaysStep(p: int)
    requires p >= 0
    ensures (p + 1) / 4 - (p + 1) / 100 + (p + 1) / 400
         == p / 4 - p / 100 + p / 400 + (if IsLeapYear(p + 1) then 1 else 0)
  {
    assert (p + 1) / 4 == p / 4 + (if (p + 1) % 4 == 0 then 1 else 0);
    assert (p + 1) / 100 == p / 100 + (if (p + 1) % 100 == 0 then 1 else 0);
    assert (p + 1) / 400 == p / 400 + (if (p + 1) % 400 == 0 then 1 else 0);
  }

  lemma MonthStep(y: int, m: int)
    requires 1 <= m < 12
    ensures DaysBeforeMonth(y, m + 1) == DaysBeforeMonth(y, m) + DaysInMonth(y, m)
  {
  }

  /** Every day of year y has a day number in [DaysBeforeYear(y), DaysBeforeYear(y + 1)). */
  lemma DayNumberInYear(d: Date)
    requires ValidDate(d)
    ensures DaysBeforeYear(d.year) <= DayNumber(d) < DaysBeforeYear(d.year + 1)
  {
    YearStep(d.year);
  }

  lemma {:induction false} DaysBeforeYearMonotone(y1: int, y2: int)
    requires 1 <= y1 < y2
    ensures DaysBeforeYear(y1 + 1) <= DaysBeforeYear(y2)
    decreases y2 - y1
  {
    if y1 + 1 < y2 {
      DaysBeforeYearMonotone(y1 + 1, y2);
      YearStep(y1 + 1);
    }
  }

  /** Chronological order and day-number order agree, in both directions. */
  lemma BeforeIffDayNumber(a: Date, b: Date)
    requires ValidDate(a) && ValidDate(b)
    ensures Before(a, b) <==> DayNumber(a) < DayNumber(b)
  {
    DayNumberInYear(a);
    DayNumberInYear(b);
    if a.year < b.year {
      DaysBeforeYearMonotone(a.year, b.year);
    } else if b.year < a.year {
      DaysBeforeYearMonotone(b.year, a.year);
    }
  }

  /** Distinct valid dates have distinct day numbers. */
  lemma DayNumberInjective(a: Date, b: Date)
    requires ValidDate(a) && ValidDate(b)
    requires DayNumber(a) == DayNumber(b)
    ensures a == b
  {
    BeforeIffDayNumber(a, b);
    BeforeIffDayNumber(b, a);
  }

  /** date-fns addDays(d, 1). */
  function NextDay(d: Date): (r: Date)
    requires ValidDate(d)
    ensures ValidDate(r)
    ensures DayNumber(r) == DayNumber(d) + 1
  {
    if d.day < DaysInMonth(d.year, d.month) then
      Date(d.year, d.month, d.day + 1)
    else if d.month < 12 then
      MonthStep(d.year, d.month);
      Date(d.year, d.month + 1, 1)
    else
      YearStep(d.year);
      Date(d.year + 1, 1, 1)
  }

  /** date-fns subDays(d, 1); there is no day before 0001-01-01 here. */
  function PrevDay(d: Date): (r: Date)
    requires ValidDate(d) && d != Date(1, 1, 1)
    ensures ValidDate(r)
    ensures NextDay(r) == d
    ensures DayNumber(r) == DayNumber(d) - 1
  {
    if d.day > 1 then
      Date(d.year, d.month, d.day - 1)
    else if d.month > 1 then
      Date(d.year, d.month - 1, DaysInMonth(d.year, d.month - 1))
    else
      Date(d.year - 1, 12, 31)
  }

  /** date-fns addDays(d, n) for n >= 0. */
  function AddDays(d: Date, n: nat): (r: Date)
    requires ValidDate(d)
    ensures ValidDate(r)
    ensures DayNumber(r) == DayNumber(d) + n
    decreases n
  {
    if n == 0 then d else AddDays(NextDay(d), n - 1)
  }

  /** date-fns subDays(d, n), for as many days as lie between 0001-01-01 and d. */
  function SubDays(d: Date, n: nat): (r: Date)
    requires ValidDate(d) && n <= DayNumber(d)
    ensures ValidDate(r)
    ensures DayNumber(r) == DayNumber(d) - n
    decreases n
  {
    if n == 0 then d
    else
      assert DayNumber(Date(1, 1, 1)) == 0;
      SubDays(PrevDay(d), n - 1)
  }

  predicate SameMonth(a: Date, b: Date)
  {
    a.year == b.year && a.month == b.month
  }

  /** date-fns startOfMonth: the first day of d's month. */
  function StartOfMonth(d: Date): (r: Date)
    requires ValidDate(d)
    ensures ValidDate(r) && SameMonth(r, d) && r.day == 1
  {
    Date(d.year, d.month, 1)
  }

  /** Within a month, day numbers count up from the first of the month. */
  lemma DayNumberInMonth(d: Date)
    requires ValidDate(d)
    ensures DayNumber(d) == DayNumber(StartOfMonth(d)) + d.day - 1
  {
  }

  /** date-fns endOfMonth: the last day of d's month. */
  function EndOfMonth(d: Date): (r: Date)
    requires ValidDate(d)
    ensures ValidDate(r) && SameMonth(r, d) && NextDay(r).day == 1
    ensures DayNumber(r) == DayNumber(StartOfMonth(d)) + DaysInMonth(d.year, d.month) - 1
  {
    Date(d.year, d.month, DaysInMonth(d.year, d.month))
  }

  /** Day-number arithmetic behind StartOfWeek: the Monday on or before day k. */
  lemma WeekStart(k: int)
    requires k >= 0
    ensures 0 <= k % 7 <= k && k % 7 <= 6
    ensures (k - k % 7) % 7 == MONDAY
  {
  }

  /** Day-number arithmetic behind EndOfWeek: the Sunday on or after day k. */
  lemma WeekEnd(k: int)
    requires k >= 0
    ensures 0 <= SUNDAY - k % 7 <= 6
    ensures (k + (SUNDAY - k % 7)) % 7 == SUNDAY
  {
  }

  /** date-fns startOfWeek(d, { weekStartsOn: 1 }): the Monday on or before d. */
  function StartOfWeek(d: Date): (r: Date)
    requires ValidDate(d)
    ensures ValidDate(r) && Weekday(r) == MONDAY
    ensures DayNumber(d) - 6 <= DayNumber(r) <= DayNumber(d)
    ensures DayNumber(r) == DayNumber(d) - Weekday(d)
  {
    var k := DayNumber(d);
    WeekStart(k);
    var r := SubDays(d, k % 7);
    assert DayNumber(r) == k - k % 7;
    r
  }

  /** date-fns endOfWeek(d, { weekStartsOn: 1 }), as a date: the Sunday on or after d. */
  function EndOfWeek(d: Date): (r: Date)
    requires ValidDate(d)
    ensures ValidDate(r) && Weekday(r) == SUNDAY
    ensures DayNumber(d) <= DayNumber(r) <= DayNumber(d) + 6
    ensures DayNumber(r) == DayNumber(d) + SUNDAY - Weekday(d)
  {
    var k := DayNumber(d);
    WeekEnd(k);
    var r := AddDays(d, SUNDAY - k % 7);
    assert DayNumber(r) == k + (SUNDAY - k % 7);
    r
  }

  /** The position of d's month on a single month line: year * 12 + month - 1. */
  function MonthIndex(d: Date): int
  {
    d.year * 12 + d.month - 1
  }

  function Min(a: int, b: int): int
  {
    if a <= b then a else b
  }

  /**
   * date-fns addMonths(d, n): move n months (n may be negative) and clamp
   * the day to the length of the target month. The target must not lie
   * before year 1.
   */
  function AddMonths(d: Date, n: int): (r: Date)
    requires ValidDate(d) && MonthIndex(d) + n >= 12
    ensures ValidDate(r)
    ensures MonthIndex(r) == MonthIndex(d) + n
    ensures r.day == Min(d.day, DaysInMonth(r.year, r.month))
  {
    var idx := MonthIndex(d) + n;
    var y := idx / 12;
    var m := idx % 12 + 1;
    Date(y, m, Min(d.day, DaysInMonth(y, m)))
  }

  /** date-fns subMonths(d, n), which is addMonths(d, -n). */
  function SubMonths(d: Date, n: int): (r: Date)
    requires ValidDate(d) && MonthIndex(d) - n >= 12
    ensures ValidDate(r)
    ensures MonthIndex(r) == MonthIndex(d) - n
    ensures r.day == Min(d.day, DaysInMonth(r.year, r.month))
  {
    AddMonths(d, -n)
  }
}
