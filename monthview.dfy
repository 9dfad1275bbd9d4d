/**
 * The state of `MonthView`: the displayed month and the selected key, the
 * handlers that change them, and the rendering of the grid for a given
 * current date.
 */
module MonthView {
  import opened Options
  import opened Dates
  import opened DateFormat
  import opened MonthGrid
  import opened MonthGridProperties
  import CalendarDay

  class MonthView {
    const offerDays: seq<string>
    const orderDays: seq<string>
    var currentMonth: Date
    var selectedDate: Option<string>

    /**
     * The displayed month is a real date, and a selection is always the key
     * of an offer day (a key is at least ten characters long).
     */
    ghost predicate Valid()
      reads this
    {
      && ValidDate(currentMonth)
      && (selectedDate.Some? ==> selectedDate.value in offerDays && |selectedDate.value| >= 10)
    }

    /** Mounting the widget: the month of `from` is shown and nothing is selected. */
    constructor (from: Date, offerDays: seq<string>, orderDays: seq<string>)
      requires ValidDate(from)
      ensures Valid()
      ensures this.offerDays == offerDays && this.orderDays == orderDays
      ensures currentMonth == from && selectedDate == None
    {
      this.offerDays := offerDays;
      this.orderDays := orderDays;
      currentMonth := from;
      selectedDate := None;
    }

    /** handlePrevMonth: `currentMonth` becomes subMonths(currentMonth, 1). */
    method HandlePrevMonth()
      requires Valid()
      requires MonthIndex(currentMonth) > MonthIndex(Date(1, 1, 1))
      modifies this
      ensures Valid()
      ensures currentMonth == SubMonths(old(currentMonth), 1)
      ensures selectedDate == old(selectedDate)
    {
      currentMonth := SubMonths(currentMonth, 1);
    }

    /** handleNextMonth: `currentMonth` becomes addMonths(currentMonth, 1). */
    method HandleNextMonth()
      requires Valid()
      modifies this
      ensures Valid()
      ensures currentMonth == AddMonths(old(currentMonth), 1)
      ensures selectedDate == old(selectedDate)
    {
      currentMonth := AddMonths(currentMonth, 1);
    }

    /**
     * A press on cell d of the grid on screen, passed through CalendarDay's
     * gating: only an offer cell reaches `setSelectedDate`.
     */
    method PressDay(d: MonthDay, today: Date)
      requires Valid()
      requires d in GridCells(currentMonth, offerDays, orderDays, today)
      modifies this
      ensures Valid()
      ensures selectedDate == CalendarDay.Press(d, old(selectedDate))
      ensures currentMonth == old(currentMonth)
    {
      if CalendarDay.IsPressable(d) {
        var i :| 0 <= i < |GridCells(currentMonth, offerDays, orderDays, today)|
          && GridCells(currentMonth, offerDays, orderDays, today)[i] == d;
        GridCellFields(currentMonth, offerDays, orderDays, today);
        KeyLength(GridDates(currentMonth)[i]);
        selectedDate := Some(d.date);
      }
    }

    /**
     * The guard of handleOrder: with no selection (`!selectedDate`, which
     * also rejects an empty string) nothing is sent; otherwise the result
     * is the date the order request carries.
     */
    method HandleOrder() returns (orderedDate: Option<string>)
      requires Valid()
      ensures orderedDate == selectedDate
      ensures orderedDate.Some? ==> orderedDate.value in offerDays
    {
      if selectedDate.None? || selectedDate.value == "" {
        return None;
      }
      orderedDate := selectedDate;
    }

    /** The weeks the component renders for the displayed month, on the given day. */
    method Weeks(today: Date) returns (weeks: seq<seq<MonthDay>>)
      requires Valid()
      ensures IsWeekRows(weeks, GridCells(currentMonth, offerDays, orderDays, today))
      ensures 4 <= |weeks| <= 6
      ensures forall r :: 0 <= r < |weeks| ==> |weeks[r]| == WEEK_LENGTH
    {
      var days := BuildDays(currentMonth, offerDays, orderDays, today);
      weeks := ChunkWeeks(days);
      GridWeeks(currentMonth, offerDays, orderDays, today, weeks);
    }
  }

  /**
   * Next month then previous month shows the same year and month again,
   * December and January included; only the day of month may have been
   * clamped, and the grid does not depend on it.
   */
  lemma NextThenPrevRestoresGrid(from: Date, offerDays: seq<string>, orderDays: seq<string>, today: Date)
    requires ValidDate(from)
    ensures var back := SubMonths(AddMonths(from, 1), 1);
      && SameMonth(back, from)
      && back.day <= from.day
      && GridCells(back, offerDays, orderDays, today) == GridCells(from, offerDays, orderDays, today)
  {
    var back := SubMonths(AddMonths(from, 1), 1);
    assert SameMonth(back, from);
    GridIgnoresDayOfMonth(back, from, offerDays, orderDays, today);
  }

  /** Previous month then next month likewise restores the displayed month and grid. */
  lemma PrevThenNextRestoresGrid(from: Date, offerDays: seq<string>, orderDays: seq<string>, today: Date)
    requires ValidDate(from) && MonthIndex(from) > MonthIndex(Date(1, 1, 1))
    ensures var back := AddMonths(SubMonths(from, 1), 1);
      && SameMonth(back, from)
      && back.day <= from.day
      && GridCells(back, offerDays, orderDays, today) == GridCells(from, offerDays, orderDays, today)
  {
    var back := AddMonths(SubMonths(from, 1), 1);
    assert SameMonth(back, from);
    GridIgnoresDayOfMonth(back, from, offerDays, orderDays, today);
  }

  /**
   * Pressing a cell of the grid either leaves the selection alone or sets it
   * to that cell's key, and then the cell had its offer flag and the key is
   * one of the offer days.
   */
  lemma SelectionOnlyFromOffers(currentMonth: Date, offerDays: seq<string>, orderDays: seq<string>, today: Date,
                                d: MonthDay, selectedDate: Option<string>)
    requires ValidDate(currentMonth)
    requires d in GridCells(currentMonth, offerDays, orderDays, today)
    ensures var after := CalendarDay.Press(d, selectedDate);
      after == selectedDate || (d.offer && after == Some(d.date) && d.date in offerDays)
  {
    var cells := GridCells(currentMonth, offerDays, orderDays, today);
    var i :| 0 <= i < |cells| && cells[i] == d;
    GridCellFields(currentMonth, offerDays, orderDays, today);
  }

  /** Next month then previous month keeps the selection and the displayed month. */
  method NextThenPrevKeepsSelection(v: MonthView)
    requires v.Valid()
    modifies v
    ensures v.Valid()
    ensures v.selectedDate == old(v.selectedDate)
    ensures SameMonth(v.currentMonth, old(v.currentMonth))
  {
    v.HandleNextMonth();
    v.HandlePrevMonth();
    assert MonthIndex(v.currentMonth) == MonthIndex(old(v.currentMonth));
  }
}
