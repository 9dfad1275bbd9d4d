/**
 * `CalendarDay`: one grid cell as a pressable box. Whether it can be
 * pressed, what a press selects, and the style layers spread onto the box
 * and its label are pure decisions over the cell and the current selection.
 */
module CalendarDay {
  import opened Options
  import opened MonthGrid

  /** The colours the cell styles use. */
  datatype Color =
    | CellGrey        // #f6f6f6
    | OtherMonthGrey  // #f0f0f0
    | PrimaryBlue     // the theme's primary blue
    | FadedText       // #ccc

  /**
   * A style object, restricted to the attributes some layer sets and a
   * later layer may override; None means the attribute is not set.
   */
  datatype Style = Style(
    backgroundColor: Option<Color>,
    borderColor: Option<Color>,
    borderWidth: Option<int>,
    borderRadius: Option<int>,
    opacityPercent: Option<int>,
    bold: Option<bool>,
    color: Option<Color>)

  const NoStyle := Style(None, None, None, None, None, None, None)

  /** `{ ...base, ...layer }`: attributes the layer sets win. */
  function Spread(base: Style, layer: Style): (r: Style)
  {
    Style(
      if layer.backgroundColor.Some? then layer.backgroundColor else base.backgroundColor,
      if layer.borderColor.Some? then layer.borderColor else base.borderColor,
      if layer.borderWidth.Some? then layer.borderWidth else base.borderWidth,
      if layer.borderRadius.Some? then layer.borderRadius else base.borderRadius,
      if layer.opacityPercent.Some? then layer.opacityPercent else base.opacityPercent,
      if layer.bold.Some? then layer.bold else base.bold,
      if layer.color.Some? then layer.color else base.color)
  }

  const TouchableBox := Style(Some(CellGrey), Some(CellGrey), Some(1), Some(4), None, None, None)
  const NoOfferDay := Style(None, None, None, None, Some(40), None, None)
  const OtherMonthDay := Style(Some(OtherMonthGrey), Some(OtherMonthGrey), None, None, Some(40), None, None)
  const TodayBackground := Style(None, Some(PrimaryBlue), Some(1), Some(4), None, None, None)
  const SelectedDay := Style(None, Some(PrimaryBlue), Some(2), None, None, None, None)
  const DayText := NoStyle
  const TodayText := Style(None, None, None, None, None, Some(true), Some(PrimaryBlue))
  const OtherMonthText := Style(None, None, None, None, None, None, Some(FadedText))

  /** The Pressable's `disabled` prop. */
  predicate IsDisabled(d: MonthDay)
  {
    !d.offer
  }

  predicate IsPressable(d: MonthDay)
  {
    !IsDisabled(d)
  }

  /**
   * The selection after a press on the cell: an enabled cell passes its own
   * key to `setSelectedDate`; a disabled one does not call it.
   */
  function Press(d: MonthDay, selectedDate: Option<string>): Option<string>
  {
    if IsPressable(d) then Some(d.date) else selectedDate
  }

  /** The conditions under which each style layer is spread onto the box. */
  predicate DimsNoOffer(d: MonthDay) { !(d.offer || !d.isCurrentMonth) }
  predicate StylesOtherMonth(d: MonthDay) { !d.isCurrentMonth }
  predicate MarksToday(d: MonthDay) { d.today && d.isCurrentMonth }
  predicate MarksSelected(d: MonthDay, selectedDate: Option<string>) { selectedDate == Some(d.date) }

  /** The box style: the base box with the conditional layers in the order the component spreads them. */
  function BoxStyle(d: MonthDay, selectedDate: Option<string>): Style
  {
    var s1 := Spread(TouchableBox, if DimsNoOffer(d) then NoOfferDay else NoStyle);
    var s2 := Spread(s1, if StylesOtherMonth(d) then OtherMonthDay else NoStyle);
    var s3 := Spread(s2, if MarksToday(d) then TodayBackground else NoStyle);
    Spread(s3, if MarksSelected(d, selectedDate) then SelectedDay else NoStyle)
  }

  /** The day label: its text and style. */
  datatype Label = Label(text: string, style: Style)

  /** The label is rendered only for current-month cells (`d.isCurrentMonth && ...`). */
  function CellLabel(d: MonthDay): Option<Label>
  {
    if d.isCurrentMonth then
      var s1 := Spread(DayText, if d.today then TodayText else NoStyle);
      Some(Label(d.day, Spread(s1, if d.isCurrentMonth then NoStyle else OtherMonthText)))
    else None
  }

  /** A cell can be pressed exactly when it has an offer, whatever its month. */
  lemma PressableIffOffer(d: MonthDay)
    ensures IsPressable(d) <==> d.offer
    ensures IsPressable(d.(isCurrentMonth := !d.isCurrentMonth)) == IsPressable(d)
  {
  }

  /**
   * A press either selects exactly the cell's key (offer cells) or leaves
   * the selection as it was (all others); pressing twice is pressing once.
   */
  lemma PressEffect(d: MonthDay, selectedDate: Option<string>)
    ensures d.offer ==> Press(d, selectedDate) == Some(d.date)
    ensures !d.offer ==> Press(d, selectedDate) == selectedDate
    ensures Press(d, Press(d, selectedDate)) == Press(d, selectedDate)
  {
  }

  /** The layer conditions, read as plain conditions on the cell. */
  lemma LayerConditions(d: MonthDay, selectedDate: Option<string>)
    ensures DimsNoOffer(d) <==> d.isCurrentMonth && !d.offer
    ensures StylesOtherMonth(d) <==> !d.isCurrentMonth
    ensures MarksToday(d) ==> d.today && d.isCurrentMonth
    ensures MarksSelected(d, selectedDate) <==> selectedDate.Some? && selectedDate.value == d.date
  {
  }

  /**
   * The merged box style: the selection border (width 2) wins over the
   * today border, which wins over the month background; a cell is faded to
   * 40% exactly when it is outside the month or has no offer.
   */
  lemma EffectiveBoxStyle(d: MonthDay, selectedDate: Option<string>)
    ensures var s := BoxStyle(d, selectedDate);
      && s.borderWidth == Some(if MarksSelected(d, selectedDate) then 2 else 1)
      && s.borderColor == Some(
           if MarksSelected(d, selectedDate) || (d.today && d.isCurrentMonth) then PrimaryBlue
           else if d.isCurrentMonth then CellGrey else OtherMonthGrey)
      && s.backgroundColor == Some(if d.isCurrentMonth then CellGrey else OtherMonthGrey)
      && s.borderRadius == Some(4)
      && s.opacityPercent == (if d.isCurrentMonth && d.offer then None else Some(40))
      && s.bold.None? && s.color.None?
  {
  }

  /**
   * The label exists only for current-month cells; it shows the two-digit
   * day, bold in primary blue exactly on today, and never in the faded
   * other-month colour.
   */
  lemma LabelRules(d: MonthDay)
    ensures CellLabel(d).Some? <==> d.isCurrentMonth
    ensures CellLabel(d).Some? ==>
      && CellLabel(d).value.text == d.day
      && CellLabel(d).value.style.color == (if d.today then Some(PrimaryBlue) else None)
      && CellLabel(d).value.style.bold == (if d.today then Some(true) else None)
      && CellLabel(d).value.style.color != Some(FadedText)
  {
  }
}
