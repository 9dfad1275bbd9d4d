/**
 * The month grid of `MonthView`: from the displayed month, every date from
 * the Monday on or before its first day to the Sunday on or after its last
 * day becomes one `MonthDay` cell, and the cells are cut into week rows.
 */
module MonthGrid {
  import opened Dates
  import opened DateFormat

  /** One grid cell, with the fields of the widget's `MonthDay` record. */
  datatype MonthDay = MonthDay(
    day: string,           // two-digit day of month
    date: string,          // yyyy-MM-dd key
    today: bool,
    offer: bool,
    order: bool,
    isCurrentMonth: bool)

  const WEEK_LENGTH := 7

  /** The Monday on or before the first day of the displayed month. */
  function FirstMonday(currentMonth: Date): Date
    requires ValidDate(currentMonth)
  {
    StartOfWeek(StartOfMonth(currentMonth))
  }

  /** The Sunday on or after the last day of the displayed month. */
  function LastSunday(currentMonth: Date): Date
    requires ValidDate(currentMonth)
  {
    EndOfWeek(EndOfMonth(currentMonth))
  }

  /** The dates from a to b inclusive, one day apart, in ascending order. */
  function Span(a: Date, b: Date): (s: seq<Date>)
    requires ValidDate(a) && ValidDate(b)
    ensures |s| == if DayNumber(a) <= DayNumber(b) then DayNumber(b) - DayNumber(a) + 1 else 0
    ensures forall i :: 0 <= i < |s| ==> ValidDate(s[i]) && DayNumber(s[i]) == DayNumber(a) + i
    decreases DayNumber(b) - DayNumber(a)
  {
    if DayNumber(a) > DayNumber(b) then [] else [a] + Span(NextDay(a), b)
  }

  /** The dates the grid shows for the displayed month. */
  function GridDates(currentMonth: Date): seq<Date>
    requires ValidDate(currentMonth)
  {
    Span(FirstMonday(currentMonth), LastSunday(currentMonth))
  }

  /** The record the grid builds for date d. */
  function Cell(d: Date, currentMonth: Date, offerDays: seq<string>, orderDays: seq<string>, today: Date): MonthDay
    requires ValidDate(d)
  {
    MonthDay(DayLabel(d), Key(d), d == today, Key(d) in offerDays, Key(d) in orderDays, SameMonth(d, currentMonth))
  }

  /** The flat list of cells the grid builder produces. */
  function GridCells(currentMonth: Date, offerDays: seq<string>, orderDays: seq<string>, today: Date): seq<MonthDay>
    requires ValidDate(currentMonth)
  {
    var ds := GridDates(currentMonth);
    seq(|ds|, i requires 0 <= i < |ds| => Cell(ds[i], currentMonth, offerDays, orderDays, today))
  }

  /**
   * The grid-building loop: starting from the first Monday, push one cell
   * per day while the day is not after the last Sunday.
   */
  method BuildDays(currentMonth: Date, offerDays: seq<string>, orderDays: seq<string>, today: Date)
    returns (days: seq<MonthDay>)
    requires ValidDate(currentMonth)
    ensures days == GridCells(currentMonth, offerDays, orderDays, today)
  {
    var monthStart := StartOfMonth(currentMonth);
    var monthEnd := EndOfMonth(currentMonth);
    var firstMonday := StartOfWeek(monthStart);
    var lastSunday := EndOfWeek(monthEnd);
    ghost var dates := Span(firstMonday, lastSunday);
    var day := firstMonday;
    days := [];
    while DayNumber(day) <= DayNumber(lastSunday)
      invariant ValidDate(day)
      invariant |days| <= |dates|
      invariant dates[|days|..] == Span(day, lastSunday)
      invariant forall i :: 0 <= i < |days| ==> days[i] == Cell(dates[i], currentMonth, offerDays, orderDays, today)
      decreases DayNumber(lastSunday) - DayNumber(day)
    {
      var formattedDate := Key(day);
      days := days + [MonthDay(
        DayLabel(day),
        formattedDate,
        day == today,
        formattedDate in offerDays,
        formattedDate in orderDays,
        SameMonth(day, currentMonth))];
      day := NextDay(day);
    }
  }

  /** `weeks` is `days` cut into consecutive slices of seven, the last one possibly shorter. */
  predicate IsWeekRows(weeks: seq<seq<MonthDay>>, days: seq<MonthDay>)
  {
    && |weeks| == (|days| + WEEK_LENGTH - 1) / WEEK_LENGTH
    && forall r :: 0 <= r < |weeks| ==>
         WEEK_LENGTH * r < |days| && weeks[r] == days[WEEK_LENGTH * r .. Min(WEEK_LENGTH * r + WEEK_LENGTH, |days|)]
  }

  /** The chunking loop: push days.slice(i, i + 7) for i = 0, 7, 14, ... */
  method ChunkWeeks(days: seq<MonthDay>) returns (weeks: seq<seq<MonthDay>>)
    ensures IsWeekRows(weeks, days)
  {
    weeks := [];
    var i := 0;
    while i < |days|
      invariant i == WEEK_LENGTH * |weeks|
      invariant i <= |days| + WEEK_LENGTH - 1
      invariant forall r :: 0 <= r < |weeks| ==>
         WEEK_LENGTH * r < |days| && weeks[r] == days[WEEK_LENGTH * r .. Min(WEEK_LENGTH * r + WEEK_LENGTH, |days|)]
    {
      weeks := weeks + [days[i .. Min(i + WEEK_LENGTH, |days|)]];
      i := i + WEEK_LENGTH;
    }
  }
}

/** Properties of the month grid. */
module MonthGridProperties {
  import opened Dates
  import opened DateFormat
  import opened MonthGrid

  /**
   * The grid starts on a Monday at most six days before the first of the
   * month and ends on a Sunday at most six days after the month's last day.
   */
  lemma GridEnds(currentMonth: Date)
    requires ValidDate(currentMonth)
    ensures var ds := GridDates(currentMonth);
      && |ds| > 0
      && ds[0] == FirstMonday(currentMonth)
      && Weekday(ds[0]) == MONDAY
      && !Before(StartOfMonth(currentMonth), ds[0])
      && DayNumber(StartOfMonth(currentMonth)) - DayNumber(ds[0]) < 7
      && ds[|ds| - 1] == LastSunday(currentMonth)
      && Weekday(ds[|ds| - 1]) == SUNDAY
      && !Before(ds[|ds| - 1], EndOfMonth(currentMonth))
      && DayNumber(ds[|ds| - 1]) - DayNumber(EndOfMonth(currentMonth)) < 7
  {
    var ds := GridDates(currentMonth);
    var first, last := FirstMonday(currentMonth), LastSunday(currentMonth);
    var ms, me := StartOfMonth(currentMonth), EndOfMonth(currentMonth);
    assert DayNumber(first) <= DayNumber(ms) <= DayNumber(me) <= DayNumber(last);
    DayNumberInjective(ds[|ds| - 1], last);
    BeforeIffDayNumber(ms, first);
    BeforeIffDayNumber(last, me);
  }

  /** Each cell's date is the day after the previous cell's. */
  lemma GridSuccessive(currentMonth: Date)
    requires ValidDate(currentMonth)
    ensures var ds := GridDates(currentMonth);
      forall i :: 0 <= i < |ds| - 1 ==> ds[i + 1] == NextDay(ds[i])
  {
    var ds := GridDates(currentMonth);
    forall i | 0 <= i < |ds| - 1
      ensures ds[i + 1] == NextDay(ds[i])
    {
      DayNumberInjective(ds[i + 1], NextDay(ds[i]));
    }
  }

  /** The cells' dates strictly ascend, so no date repeats. */
  lemma GridAscending(currentMonth: Date)
    requires ValidDate(currentMonth)
    ensures var ds := GridDates(currentMonth);
      forall i, j :: 0 <= i < j < |ds| ==> Before(ds[i], ds[j])
  {
    var ds := GridDates(currentMonth);
    forall i, j | 0 <= i < j < |ds|
      ensures Before(ds[i], ds[j])
    {
      BeforeIffDayNumber(ds[i], ds[j]);
    }
  }

  /** Every date from the first Monday to the last Sunday is in the grid, at its offset. */
  lemma GridComplete(currentMonth: Date, d: Date)
    requires ValidDate(currentMonth) && ValidDate(d)
    requires DayNumber(FirstMonday(currentMonth)) <= DayNumber(d) <= DayNumber(LastSunday(currentMonth))
    ensures var k := DayNumber(d) - DayNumber(FirstMonday(currentMonth));
      0 <= k < |GridDates(currentMonth)| && GridDates(currentMonth)[k] == d
  {
    var k := DayNumber(d) - DayNumber(FirstMonday(currentMonth));
    DayNumberInjective(GridDates(currentMonth)[k], d);
  }

  /** The grid holds a whole number of weeks, four to six of them. */
  lemma GridSize(currentMonth: Date)
    requires ValidDate(currentMonth)
    ensures |GridDates(currentMonth)| % 7 == 0
    ensures 28 <= |GridDates(currentMonth)| <= 42
  {
    var first, last := DayNumber(FirstMonday(currentMonth)), DayNumber(LastSunday(currentMonth));
    var ms, me := DayNumber(StartOfMonth(currentMonth)), DayNumber(EndOfMonth(currentMonth));
    WeekFrame(currentMonth);
    WeekArithmetic(first, ms, me, last);
    assert |GridDates(currentMonth)| == last - first + 1;
  }

  /** The weekday and distance facts about the grid's ends that GridSize needs. */
  lemma WeekFrame(currentMonth: Date)
    requires ValidDate(currentMonth)
    ensures var first, last := DayNumber(FirstMonday(currentMonth)), DayNumber(LastSunday(currentMonth));
      var ms, me := DayNumber(StartOfMonth(currentMonth)), DayNumber(EndOfMonth(currentMonth));
      && first % 7 == 0 && last % 7 == 6
      && ms - 6 <= first <= ms
      && me <= last <= me + 6
      && 27 <= me - ms <= 30
  {
  }

  /** The cell at position i falls on weekday i mod 7. */
  lemma GridWeekdays(currentMonth: Date)
    requires ValidDate(currentMonth)
    ensures var ds := GridDates(currentMonth);
      forall i :: 0 <= i < |ds| ==> Weekday(ds[i]) == i % 7
  {
    var ds := GridDates(currentMonth);
    var f := DayNumber(FirstMonday(currentMonth));
    assert f % 7 == 0;
    forall i | 0 <= i < |ds|
      ensures Weekday(ds[i]) == i % 7
    {
      assert DayNumber(ds[i]) == f + i;
      ShiftFromMonday(f, i);
    }
  }

  /** Arithmetic behind GridSize, stated on plain day numbers. */
  lemma WeekArithmetic(first: int, monthStart: int, monthEnd: int, last: int)
    requires first % 7 == 0 && last % 7 == 6
    requires monthStart - 6 <= first <= monthStart
    requires monthEnd <= last <= monthEnd + 6
    requires 27 <= monthEnd - monthStart <= 30
    ensures (last - first + 1) % 7 == 0
    ensures 28 <= last - first + 1 <= 42
  {
  }

  lemma ShiftFromMonday(first: int, i: int)
    requires first % 7 == 0 && i >= 0
    ensures (first + i) % 7 == i % 7
  {
  }

  /**
   * Cut into rows of seven, the grid has four to six rows, each of exactly
   * seven cells running from Monday to Sunday.
   */
  lemma GridWeeks(currentMonth: Date, offerDays: seq<string>, orderDays: seq<string>, today: Date, weeks: seq<seq<MonthDay>>)
    requires ValidDate(currentMonth)
    requires IsWeekRows(weeks, GridCells(currentMonth, offerDays, orderDays, today))
    ensures 4 <= |weeks| <= 6
    ensures forall r :: 0 <= r < |weeks| ==> |weeks[r]| == WEEK_LENGTH
    ensures forall r, c :: 0 <= r < |weeks| && 0 <= c < WEEK_LENGTH ==>
      var i := WEEK_LENGTH * r + c;
      i < |GridDates(currentMonth)|
      && weeks[r][c] == GridCells(currentMonth, offerDays, orderDays, today)[i]
      && Weekday(GridDates(currentMonth)[i]) == c
  {
    var ds := GridDates(currentMonth);
    var cells := GridCells(currentMonth, offerDays, orderDays, today);
    GridSize(currentMonth);
    GridWeekdays(currentMonth);
    FullRows(weeks, cells);
    assert |weeks| * 7 == |ds|;
    forall r, c | 0 <= r < |weeks| && 0 <= c < WEEK_LENGTH
      ensures WEEK_LENGTH * r + c < |ds|
      ensures weeks[r][c] == cells[WEEK_LENGTH * r + c]
      ensures Weekday(ds[WEEK_LENGTH * r + c]) == c
    {
      RowColumn(r, c);
    }
  }

  lemma RowColumn(r: int, c: int)
    requires r >= 0 && 0 <= c < 7
    ensures (7 * r + c) % 7 == c
  {
  }

  /** Rows cut from a whole number of weeks are all full. */
  lemma FullRows(weeks: seq<seq<MonthDay>>, days: seq<MonthDay>)
    requires IsWeekRows(weeks, days) && |days| % WEEK_LENGTH == 0
    ensures |weeks| * WEEK_LENGTH == |days|
    ensures forall r :: 0 <= r < |weeks| ==> |weeks[r]| == WEEK_LENGTH
    ensures forall r, c :: 0 <= r < |weeks| && 0 <= c < WEEK_LENGTH ==>
      WEEK_LENGTH * r + c < |days| && weeks[r][c] == days[WEEK_LENGTH * r + c]
  {
    forall r | 0 <= r < |weeks|
      ensures WEEK_LENGTH * r + WEEK_LENGTH <= |days|
    {
    }
  }

  /**
   * The days of the displayed month form one contiguous block of the grid,
   * starting at the weekday of the first of the month: day k of the month
   * sits at position a + k - 1 and nowhere else, and a cell is flagged as
   * in the current month exactly when it lies in that block.
   */
  lemma MonthCoverage(currentMonth: Date, offerDays: seq<string>, orderDays: seq<string>, today: Date)
    requires ValidDate(currentMonth)
    ensures var ds := GridDates(currentMonth);
      var cells := GridCells(currentMonth, offerDays, orderDays, today);
      var y, m := currentMonth.year, currentMonth.month;
      var a, n := Weekday(StartOfMonth(currentMonth)), DaysInMonth(y, m);
      && a + n <= |ds|
      && (forall i :: a <= i < a + n ==> ds[i] == Date(y, m, i - a + 1))
      && (forall i :: 0 <= i < |ds| && SameMonth(ds[i], currentMonth) ==> i == a + ds[i].day - 1)
      && (forall i :: 0 <= i < |ds| ==> (cells[i].isCurrentMonth <==> a <= i < a + n))
  {
    var ds := GridDates(currentMonth);
    var cells := GridCells(currentMonth, offerDays, orderDays, today);
    var y, m := currentMonth.year, currentMonth.month;
    var ms, me := StartOfMonth(currentMonth), EndOfMonth(currentMonth);
    var a, n := Weekday(ms), DaysInMonth(y, m);
    var first, last := FirstMonday(currentMonth), LastSunday(currentMonth);
    assert DayNumber(first) == DayNumber(ms) - a;
    assert DayNumber(me) == DayNumber(ms) + n - 1;
    assert DayNumber(me) <= DayNumber(last);
    assert |ds| == DayNumber(last) - DayNumber(first) + 1;
    forall i | a <= i < a + n
      ensures ds[i] == Date(y, m, i - a + 1)
    {
      var d := Date(y, m, i - a + 1);
      DayNumberInMonth(d);
      DayNumberInjective(ds[i], d);
    }
    forall i | 0 <= i < |ds| && SameMonth(ds[i], currentMonth)
      ensures i == a + ds[i].day - 1
    {
      DayNumberInMonth(ds[i]);
      assert StartOfMonth(ds[i]) == ms;
    }
  }

  /** Distinct cells carry distinct keys. */
  lemma GridKeysDistinct(currentMonth: Date, offerDays: seq<string>, orderDays: seq<string>, today: Date)
    requires ValidDate(currentMonth)
    ensures var cells := GridCells(currentMonth, offerDays, orderDays, today);
      forall i, j :: 0 <= i < |cells| && 0 <= j < |cells| && i != j ==> cells[i].date != cells[j].date
  {
    var ds := GridDates(currentMonth);
    forall i, j | 0 <= i < |ds| && 0 <= j < |ds| && i != j
      ensures Key(ds[i]) != Key(ds[j])
    {
      KeyInjective(ds[i], ds[j]);
    }
  }

  /**
   * When the only offer day is the key of the date at position j of the
   * grid, the cell at j is the only one with an offer.
   */
  lemma SingleOffer(currentMonth: Date, e: Date, orderDays: seq<string>, today: Date, j: int)
    requires ValidDate(currentMonth) && ValidDate(e)
    requires 0 <= j < |GridDates(currentMonth)| && GridDates(currentMonth)[j] == e
    ensures var cells := GridCells(currentMonth, [Key(e)], orderDays, today);
      forall i :: 0 <= i < |cells| ==> (cells[i].offer <==> i == j)
  {
    var ds := GridDates(currentMonth);
    var cells := GridCells(currentMonth, [Key(e)], orderDays, today);
    forall i | 0 <= i < |cells|
      ensures cells[i].offer <==> i == j
    {
      assert cells[i].offer <==> Key(ds[i]) == Key(e);
      KeyInjective(ds[i], e);
      assert DayNumber(ds[i]) == DayNumber(ds[j]) + (i - j);
    }
  }

  /** For displayed months before December 9999, every grid date lies before year 10000. */
  lemma GridYearBound(currentMonth: Date)
    requires ValidDate(currentMonth)
    requires currentMonth.year < 9999 || (currentMonth.year == 9999 && currentMonth.month < 12)
    ensures forall i :: 0 <= i < |GridDates(currentMonth)| ==> GridDates(currentMonth)[i].year <= 9999
  {
    var ds := GridDates(currentMonth);
    var me := EndOfMonth(currentMonth);
    var limit := Date(10000, 1, 1);
    assert DayNumber(LastSunday(currentMonth)) <= DayNumber(me) + 6;
    EarlyEnough(me);
    assert DayNumber(limit) == DaysBeforeYear(10000);
    forall i | 0 <= i < |ds|
      ensures ds[i].year <= 9999
    {
      BeforeIffDayNumber(ds[i], limit);
    }
  }

  /** A day before December 9999 lies more than six days before year 10000. */
  lemma EarlyEnough(d: Date)
    requires ValidDate(d) && (d.year < 9999 || (d.year == 9999 && d.month < 12))
    ensures DayNumber(d) + 6 < DaysBeforeYear(10000)
  {
    YearStep(9999);
    if d.year < 9999 {
      DayNumberInYear(d);
      if d.year + 1 < 9999 {
        DaysBeforeYearMonotone(d.year + 1, 9999);
      }
    } else {
      assert !IsLeapYear(d.year);
      assert DaysBeforeMonth(d.year, d.month) + d.day <= 334;
    }
  }

  /**
   * With four-digit years, the keys of the grid ascend in string order,
   * which is the order of the cells.
   */
  lemma GridKeysAscending(currentMonth: Date, offerDays: seq<string>, orderDays: seq<string>, today: Date)
    requires ValidDate(currentMonth)
    requires currentMonth.year < 9999 || (currentMonth.year == 9999 && currentMonth.month < 12)
    ensures var cells := GridCells(currentMonth, offerDays, orderDays, today);
      forall i, j :: 0 <= i < |cells| && 0 <= j < |cells| ==> (LexLess(cells[i].date, cells[j].date) <==> i < j)
  {
    var ds := GridDates(currentMonth);
    GridYearBound(currentMonth);
    forall i, j | 0 <= i < |ds| && 0 <= j < |ds|
      ensures LexLess(Key(ds[i]), Key(ds[j])) <==> i < j
    {
      KeyOrder(ds[i], ds[j]);
      BeforeIffDayNumber(ds[i], ds[j]);
    }
  }

  /**
   * Each cell's label, key and flags describe its own date: the label is the
   * two-digit day, the key its yyyy-MM-dd form, `offer` and `order` are
   * membership of that key, and `today` holds exactly for the supplied
   * current date, so at most one cell has it.
   */
  lemma GridCellFields(currentMonth: Date, offerDays: seq<string>, orderDays: seq<string>, today: Date)
    requires ValidDate(currentMonth)
    ensures var ds := GridDates(currentMonth);
      var cells := GridCells(currentMonth, offerDays, orderDays, today);
      && |cells| == |ds|
      && (forall i :: 0 <= i < |cells| ==>
            && cells[i].day == DayLabel(ds[i])
            && cells[i].date == Key(ds[i])
            && (cells[i].offer <==> cells[i].date in offerDays)
            && (cells[i].order <==> cells[i].date in orderDays)
            && (cells[i].today <==> ds[i] == today))
      && (forall i, j :: 0 <= i < |cells| && 0 <= j < |cells| && cells[i].today && cells[j].today ==> i == j)
  {
    var ds := GridDates(currentMonth);
    forall i, j | 0 <= i < j < |ds|
      ensures ds[i] != ds[j]
    {
      BeforeIffDayNumber(ds[i], ds[j]);
    }
  }

  /** The grid is a function of the displayed year and month only. */
  lemma GridIgnoresDayOfMonth(c1: Date, c2: Date, offerDays: seq<string>, orderDays: seq<string>, today: Date)
    requires ValidDate(c1) && ValidDate(c2) && SameMonth(c1, c2)
    ensures GridCells(c1, offerDays, orderDays, today) == GridCells(c2, offerDays, orderDays, today)
  {
    assert StartOfMonth(c1) == StartOfMonth(c2);
    assert EndOfMonth(c1) == EndOfMonth(c2);
  }

  /** March 2024 begins on a Friday and ends on a Sunday. */
  lemma March2024Weekdays()
    ensures Weekday(Date(2024, 3, 1)) == 4 && Weekday(Date(2024, 3, 31)) == SUNDAY
  {
    DaysBeforeYearClosedForm(2024);
    assert DaysBeforeYear(2024) == 738885;
    assert DayNumber(Date(2024, 3, 1)) == 738945;
  }

  lemma March2024Ends()
    ensures FirstMonday(Date(2024, 3, 1)) == Date(2024, 2, 26)
    ensures LastSunday(Date(2024, 3, 1)) == Date(2024, 3, 31)
  {
    var cm := Date(2024, 3, 1);
    March2024Weekdays();
    assert DayNumber(Date(2024, 2, 26)) == DayNumber(cm) - 4;
    DayNumberInjective(FirstMonday(cm), Date(2024, 2, 26));
    DayNumberInjective(LastSunday(cm), Date(2024, 3, 31));
  }

  lemma Key20240315()
    ensures Key(Date(2024, 3, 15)) == "2024-03-15"
  {
    assert Pad(2024, 4) == Pad(202, 3) + ['4'];
    assert Pad(202, 3) == Pad(20, 2) + ['2'];
    assert Pad(20, 2) == Pad(2, 1) + ['0'];
    assert Pad(3, 2) == Pad(0, 1) + ['3'];
    assert Pad(15, 2) == Pad(1, 1) + ['5'];
  }

  /**
   * The grid of March 2024 runs from Monday 2024-02-26 to Sunday 2024-03-31:
   * five weeks of cells, the first outside the month and the fifth its 1st.
   */
  lemma March2024(orderDays: seq<string>, today: Date)
    ensures var ds := GridDates(Date(2024, 3, 1));
      var cells := GridCells(Date(2024, 3, 1), ["2024-03-15"], orderDays, today);
      && |ds| == 35
      && ds[0] == Date(2024, 2, 26)
      && ds[34] == Date(2024, 3, 31)
      && !cells[0].isCurrentMonth && cells[4].isCurrentMonth
  {
    var cm := Date(2024, 3, 1);
    March2024Weekdays();
    March2024Ends();
    GridEnds(cm);
    MonthCoverage(cm, ["2024-03-15"], orderDays, today);
  }

  lemma OnlyFifteenth(d: Date)
    requires ValidDate(d)
    ensures Key(d) == "2024-03-15" <==> d == Date(2024, 3, 15)
  {
    Key20240315();
    KeyInjective(d, Date(2024, 3, 15));
  }

  /** In the March 2024 grid, 2024-03-15 sits at position 18. */
  lemma March2024Fifteenth()
    ensures var ds := GridDates(Date(2024, 3, 1));
      |ds| == 35 && ds[18] == Date(2024, 3, 15)
  {
    var cm := Date(2024, 3, 1);
    March2024([], cm);
    March2024Weekdays();
    MonthCoverage(cm, [], [], cm);
    assert Weekday(StartOfMonth(cm)) == 4;
  }

  /** With "2024-03-15" as the only offer day, exactly the cell at position 18 has an offer. */
  lemma March2024Offer(orderDays: seq<string>, today: Date)
    ensures var cells := GridCells(Date(2024, 3, 1), ["2024-03-15"], orderDays, today);
      |cells| == 35 && forall i :: 0 <= i < |cells| ==> (cells[i].offer <==> i == 18)
  {
    March2024Fifteenth();
    Key20240315();
    SingleOffer(Date(2024, 3, 1), Date(2024, 3, 15), orderDays, today, 18);
  }
}
