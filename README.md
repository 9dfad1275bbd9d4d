# Month calendar widget: grid builder and selection state

This project models the two pieces of logic of a small React Native calendar
widget. The first is the month grid that `MonthView` builds: one `MonthDay`
cell for every date from the Monday on or before the 1st of the displayed
month to the Sunday on or after its last day, cut into week rows of seven.
Each cell carries a two-digit day label, a `yyyy-MM-dd` key (the `full-date`
form of section 5.6 of RFC 3339), and today, offer, order and in-month flags.
The second is `CalendarDay`, the per-cell decision table: whether the cell
can be pressed, which key a press selects, and which style layers apply to
the box and the label.

Modules:

- `Options`: `Option<T>`, standing for `string | null`.
- `Dates`: Gregorian calendar arithmetic on `(year, month, day)` values. It
  stands for the date-fns helpers the widget calls. `DayNumber`, the count of
  days since 0001-01-01 (a Monday), plays the part of a JavaScript date's
  time value. With it, date comparison and weekdays become integer facts.
- `DateFormat`: the `dd` and `yyyy-MM-dd` formats, a parser that inverts the
  key, and JavaScript's lexicographic string order.
- `MonthGrid`: the `MonthDay` record, the grid-building `while` loop
  (`BuildDays`) and the week-chunking loop (`ChunkWeeks`). Both methods are
  proved against the specification functions `GridCells` and `IsWeekRows`.
- `MonthGridProperties`: lemmas about the grid.
- `CalendarDay`: press gating, style objects with JavaScript's
  object-spread override, and the label rule.
- `MonthView`: a class holding `currentMonth` and `selectedDate`, with the
  month handlers, the press path, the `handleOrder` guard and rendering.
  Its invariant is that a selection is the key of a day that was an offer
  day when it was pressed; offer and order days are fixed for the widget's
  lifetime (see "Left out").

## Model

| member | source | states |
|---|---|---|
| `Dates.DaysInMonth` | components/calendar/Calendar.tsx:82 | every month has 28 to 31 days (Gregorian leap rule) |
| `Dates.Weekday` | components/calendar/Calendar.tsx:84-85 | the weekday is in Monday (0) .. Sunday (6) |
| `Dates.BeforeIffDayNumber` | components/calendar/Calendar.tsx:90 | chronological order of dates is exactly the order of their day numbers, so `day <= lastSunday` compares day numbers |
| `Dates.DayNumberInjective` | components/calendar/Calendar.tsx:90 | two valid dates with the same day number are the same date |
| `Dates.NextDay` | components/calendar/Calendar.tsx:102 | addDays(day, 1) is a valid date whose day number is one more, across month and year ends |
| `Dates.PrevDay` | components/calendar/Calendar.tsx:84 | the day before is valid, one day number less, and NextDay undoes it |
| `Dates.AddDays` | components/calendar/Calendar.tsx:85 | adding n days gives a valid date n day numbers later |
| `Dates.SubDays` | components/calendar/Calendar.tsx:84 | subtracting n days gives a valid date n day numbers earlier |
| `Dates.StartOfMonth` | components/calendar/Calendar.tsx:81 | the first day of the same month |
| `Dates.EndOfMonth` | components/calendar/Calendar.tsx:82 | the last day of the same month: the next day is a 1st, and it lies DaysInMonth - 1 days after the 1st |
| `Dates.StartOfWeek` | components/calendar/Calendar.tsx:84 | the Monday on or before the date, at most six days earlier |
| `Dates.EndOfWeek` | components/calendar/Calendar.tsx:85 | the Sunday on or after the date, at most six days later |
| `Dates.AddMonths` | components/calendar/Calendar.tsx:54-56 | moves the month index by n and clamps the day to the target month's length |
| `Dates.SubMonths` | components/calendar/Calendar.tsx:50-52 | moves the month index back by n, giving a valid date whose day is clamped to the target month's length |
| `DateFormat.PadValue` | components/calendar/Calendar.tsx:94 | a zero-padded number is all digits and reads back as the number |
| `DateFormat.PadLength` | components/calendar/Calendar.tsx:94 | a number below 10^w fills exactly w characters, so `dd` is two characters |
| `DateFormat.PadOrder` | components/calendar/Calendar.tsx:39 | equal-width padded numbers sort as strings in numeric order |
| `DateFormat.KeyRoundTrip` | components/calendar/Calendar.tsx:91 | parsing the `yyyy-MM-dd` key of a date gives back that date |
| `DateFormat.KeyInjective` | components/calendar/Calendar.tsx:39 | two dates have the same key if and only if they are the same date |
| `DateFormat.KeyLength` | components/calendar/Calendar.tsx:39 | a key has at least 10 characters, and exactly 10 for four-digit years |
| `DateFormat.KeyOrder` | components/calendar/Calendar.tsx:39 | for years up to 9999, string order of keys is chronological order, both ways |
| `MonthGrid.Span` | components/calendar/Calendar.tsx:87-103 | the dates from a to b inclusive: DN(b) - DN(a) + 1 of them, the i-th lying i days after a |
| `MonthGrid.BuildDays` | components/calendar/Calendar.tsx:87-103 | the while loop produces exactly the cells of every date from the first Monday to the last Sunday, in order |
| `MonthGrid.ChunkWeeks` | components/calendar/Calendar.tsx:105-108 | the for loop cuts the days into ceil(n / 7) rows, row r being days[7r .. min(7r + 7, n)] |
| `MonthGridProperties.GridEnds` | components/calendar/Calendar.tsx:81-85 | the first cell is a Monday on or before the 1st and within six days of it; the last is a Sunday on or after the month's last day and within six days of it |
| `MonthGridProperties.GridSuccessive` | components/calendar/Calendar.tsx:102 | each cell's date is the day after the previous cell's date |
| `MonthGridProperties.GridAscending` | components/calendar/Calendar.tsx:87-103 | the dates strictly ascend, so none repeats |
| `MonthGridProperties.GridComplete` | components/calendar/Calendar.tsx:90 | every date from the first Monday to the last Sunday is in the grid, at its offset from the first Monday |
| `MonthGridProperties.GridSize` | components/calendar/Calendar.tsx:90-103 | the number of cells is a multiple of 7 between 28 and 42 |
| `MonthGridProperties.GridWeekdays` | components/calendar/Calendar.tsx:84-103 | cell i falls on weekday i mod 7 (Monday = 0) |
| `MonthGridProperties.FullRows` | components/calendar/Calendar.tsx:105-108 | chunking a multiple of 7 gives full rows, with cell (r, c) equal to day 7r + c |
| `MonthGridProperties.GridWeeks` | components/calendar/Calendar.tsx:105-108 | the grid has 4 to 6 rows of exactly 7 cells, each running Monday to Sunday |
| `MonthGridProperties.MonthCoverage` | components/calendar/Calendar.tsx:99 | day k of the month is at position a + k - 1 and nowhere else, where a is the weekday of the 1st; `isCurrentMonth` holds exactly on that block |
| `MonthGridProperties.GridKeysDistinct` | components/calendar/Calendar.tsx:91-95 | no two cells have the same key |
| `MonthGridProperties.SingleOffer` | components/calendar/Calendar.tsx:97 | when the only offer day is the key of the grid date at position j, the cell at j has an offer and every other cell has none |
| `MonthGridProperties.GridYearBound` | components/calendar/Calendar.tsx:85 | for months before December 9999 every grid date has a four-digit year |
| `MonthGridProperties.GridKeysAscending` | components/calendar/Calendar.tsx:91-95 | for those months, key i is lexicographically below key j if and only if i < j |
| `MonthGridProperties.GridCellFields` | components/calendar/Calendar.tsx:93-100 | each cell's label, key and offer/order/today flags describe its own date; at most one cell is marked today |
| `MonthGridProperties.GridIgnoresDayOfMonth` | components/calendar/Calendar.tsx:81-82 | two displayed dates in the same year and month give the identical grid |
| `MonthGridProperties.March2024` | components/calendar/Calendar.tsx:81-103 | March 2024 spans 2024-02-26 to 2024-03-31 (35 cells); the first cell is outside the month and the fifth inside it |
| `MonthGridProperties.March2024Fifteenth` | components/calendar/Calendar.tsx:81-103 | the March 2024 grid has 35 cells and 2024-03-15 is at position 18 |
| `MonthGridProperties.March2024Offer` | components/calendar/Calendar.tsx:97 | with 2024-03-15 as the only offer day, exactly cell 18 of the March 2024 grid has an offer |
| `MonthGridProperties.March2024Ends` | components/calendar/Calendar.tsx:84-85 | the first Monday of the March 2024 grid is 2024-02-26 and its last Sunday is 2024-03-31 |
| `CalendarDay.PressableIffOffer` | components/calendar/CalendarDay.tsx:31 | a cell can be pressed if and only if it has an offer, whatever its month |
| `CalendarDay.PressEffect` | components/calendar/CalendarDay.tsx:31-39 | a press on an offer cell selects exactly its key; a press on any other cell leaves the selection unchanged; pressing is idempotent |
| `CalendarDay.LayerConditions` | components/calendar/CalendarDay.tsx:34-37 | no-offer dimming iff in-month without offer; other-month style iff not in the month; today border only for today in the month; selected border iff the selection equals the key |
| `CalendarDay.EffectiveBoxStyle` | components/calendar/CalendarDay.tsx:32-38 | after the spreads, border width 2 iff selected, blue border iff selected or today in month, grey background outside the month, 40% opacity iff outside the month or without offer |
| `CalendarDay.LabelRules` | components/calendar/CalendarDay.tsx:42-54 | the label exists iff the cell is in the month; it shows the day, bold primary blue iff today, never the faded colour |
| `MonthView.MonthView.constructor` | components/calendar/Calendar.tsx:47-48 | the widget starts on the given month with no selection |
| `MonthView.MonthView.HandlePrevMonth` | components/calendar/Calendar.tsx:50-52 | the month moves back one, the selection is unchanged, the invariant holds |
| `MonthView.MonthView.HandleNextMonth` | components/calendar/Calendar.tsx:54-56 | the month moves forward one, the selection is unchanged, the invariant holds |
| `MonthView.MonthView.PressDay` | components/calendar/Calendar.tsx:152 | a press on a grid cell sets the selection only as CalendarDay's gating allows, keeping the selection an offer key |
| `MonthView.MonthView.HandleOrder` | components/calendar/Calendar.tsx:58-59 | the order is placed for the selected date and nothing is sent when there is none |
| `MonthView.MonthView.Weeks` | components/calendar/Calendar.tsx:81-108 | the rendered weeks are the grid cut in rows: 4 to 6 rows of 7 cells |
| `MonthView.SelectionOnlyFromOffers` | components/calendar/CalendarDay.tsx:39 | a press on a grid cell either keeps the selection or sets it to the key of an offer cell that is in offerDays |
| `MonthView.NextThenPrevRestoresGrid` | components/calendar/Calendar.tsx:50-56 | next then previous month restores the year and month (December and January included), can only lower the day, and gives the identical grid |
| `MonthView.PrevThenNextRestoresGrid` | components/calendar/Calendar.tsx:50-56 | previous then next month does the same |
| `MonthView.NextThenPrevKeepsSelection` | components/calendar/Calendar.tsx:50-56 | running both handlers keeps the selection and the displayed month |

## Left out

- The order request itself (`fetch` POST, `alert`, `console.error`): network I/O with an outcome the model cannot know. `HandleOrder` returns the date the request would carry, or None when the guard returns early.
- The clock: the component calls `new Date()` once per cell inside the grid loop; the model reads it once, as the explicit `today` parameter of `Weeks`, `BuildDays` and `GridCells`. A render that crosses midnight is not modelled.
- `MonthGridProperties.GridCellFields`: its "at most one cell is marked today" relies on the single clock read above; a render crossing midnight in the component could mark two consecutive cells.
- Time of day, time zones and daylight saving time: dates are plain calendar dates. The `<=` against `endOfWeek`'s 23:59:59.999 is an inclusive comparison of day numbers.
- The date-fns library is not part of this model. Its functions are specified by Gregorian rules.
- Years before 1 are outside the model. Because of this, `HandlePrevMonth` and `PrevThenNextRestoresGrid` require that the displayed month is not January of year 1.
- `DateFormat.KeyOrder`: string order matches date order only for four-digit years, so the lemma requires both years to be at most 9999.
- `MonthGridProperties.GridKeysAscending`: for the same reason, it requires the displayed month to be before December 9999, so that every grid date has a four-digit year. Key distinctness holds for every year.
- React rendering: `useState` re-render semantics (the state is a class), JSX layout, `onLayout` and `width / 7` (floating point). The style and colour constants are kept only as far as the style layers override one another. Attributes no layer overrides are not modelled: aspect ratio, justification, font size, text alignment, `darkColor`.
- The month title (`format(currentMonth, "MMMM yyyy")`) and the weekday header row are display text.
- `MonthView.MonthView.Valid`, `MonthView.MonthView.HandleOrder`: the props `offerDays` and `orderDays` are constant fields, fixed for the widget's lifetime. In the component they are props read again on every render while `selectedDate` survives, so a parent that re-renders with different offer days can leave a selected key that is no longer offered, and `handleOrder` would still post it. "The selection is always in `offerDays`" is a property of the model; the component promises membership only at press time, which `MonthView.SelectionOnlyFromOffers` states.
- `MonthView.MonthView.PressDay` requires the pressed cell to come from the grid on screen, which is the only place `CalendarDay` cells come from.
