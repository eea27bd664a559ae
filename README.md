# CalendarView: a verified model of the Xamarin.Forms calendar widget

`CalendarView` is a Xamarin.Forms control with three display modes. In
**Month** mode it shows a grid of the days of one month. In **Week** mode it
shows a strip of seven days from Sunday to Saturday. In **Day** mode it shows
a single long-date title. Both the ">" and "<" buttons move the display
forward or back, and tapping a day selects it. A selection raises the
`HasSelectedDate` event.

This project models that widget in Dafny and proves properties of the model.

- `dates.dfy` (module `Dates`): the part of .NET's `DateTime` the widget uses,
  at whole-day resolution. It covers construction, `Day`/`Month`/`Year`,
  `DayOfWeek`, `AddDays`, `AddMonths`, and `AddTicks(-1)` from midnight. All of
  it rests on a day number counted from 0001-01-01, the same count `DateTime`
  keeps in ticks.
- `text.dfy` (module `Text`): the texts the widget writes and reads back.
  These are the day labels (`$"{n}"`), the titles "MMMM yyyy" and
  "MMMM d, yyyy" in the invariant culture, and `int.TryParse`, which the week
  tap handler applies to a label.
- `grid.dfy` (module `Grid`): specification functions for what the month
  view and the week strip put on screen. Each cell has a date, a label, a row
  and column, a style, and the year and month its tap handler captures. The
  module also holds what a tap on a cell selects, and the layout properties.
- `calendar_view.dfy` (module `Calendar`): the widget itself, as the class
  `CalendarView`. Its fields are the view type, `SelectedDate`, the reference
  date `_CurrentDate`, the title, the children of the two containers as
  sequences of cells, and the log of dates the event was raised with.
  - The render loops are methods with loop invariants, proved against the
    `Grid` functions.
  - Navigation and the two tap handlers are methods whose contracts give the
    whole new state.
  - Lemmas beside the class prove the navigation round trips and the
    1970-01-01 sentinel behaviour.

`DateTime.Today` is a parameter (`today`) of every operation that reads it.
The cells of each container are built in the helper methods `AddMonthDays`
and `AddWeekDays`, which hold the source's loops; `MonthBounds` holds the
month view's first/last-day and weekday-chain steps.

Behaviour of the code worth noting:

- In Day mode, ">" and "<" move `SelectedDate` by one day. They also raise
  `HasSelectedDate` with the new date, so the event fires on these two
  buttons and not only on taps.
- The `null` tests on `DateTime` values (:196, :201, :207, :216, :225, :247,
  :256, :279, :328, :384, :450) can never fire, because `DateTime` is a value type. The model
  drops them: the guards never return early, and the `SelectedDate != null`
  conjuncts are always true. `SelectedDate` starts as `default(DateTime)`, 0001-01-01
  (`Dates.MinDate`).
- A week cell's tap handler builds its date from the number on the label and
  the year and month of the date the strip was rendered for (:486).
  - When the strip crosses a month end, tapping a day of the other month
    selects that day number in the reference month, if that month has the
    day. For example, tapping "30" (2024-06-30) in the strip of 2024-07-02
    selects 2024-07-30.
  - If the reference month has no such day, `DateTime`'s constructor throws.
    For example, tapping "31" in the strip of 2024-06-01 asks for 2024-06-31.
  - The model keeps this behaviour as written. `TapOutcome` has the outcomes
    `Picked`, `NotANumber` and `OutOfRange`, and `WeekTapResolution`,
    `WeekTapJune` and `WeekTapJuly` pin them down.
  - The style flags pair the day number with the reference month in the same
    way. So the June-30 cell above is painted as selected when 2024-07-30 is
    the selected date.
- `BindableProperty` raises the change notification only for a new value, so
  setting `CalendarViewType` to its current value renders nothing
  (`SetViewType`).

## Model

| member | source | states |
|---|---|---|
| Dates.DaysInMonth | CustomCalendar/CustomCalendar/CalendarView.cs:303 | Month length from DateTime's cumulative table. It equals the 28/29/30/31 rule, with leap years by the 4/100/400 rule. |
| Dates.DaysBeforeYearFormula | CustomCalendar/CustomCalendar/CalendarView.cs:303 | Counting days year by year agrees with DateTime's closed form `365p + p/4 - p/100 + p/400` for every year. |
| Dates.DayNumber | CustomCalendar/CustomCalendar/CalendarView.cs:425-426 | DateTime's day count since 0001-01-01: a date's number lies within its year's span, from the days before the year up to the year's length later. |
| Dates.DayNumberInjective | CustomCalendar/CustomCalendar/CalendarView.cs:425-426 | Two valid dates have the same day number exactly when they are the same date. |
| Dates.AddDays | CustomCalendar/CustomCalendar/CalendarView.cs:425-426 | `AddDays(d, n)` is a valid date exactly n days after d (or before, for negative n). It is unique by AddDaysUnique. |
| Dates.AddDaysUnique | CustomCalendar/CustomCalendar/CalendarView.cs:497 | Any valid date n days after d is `AddDays(d, n)`. |
| Dates.AddDaysAdd | CustomCalendar/CustomCalendar/CalendarView.cs:497 | Adding a days and then b days is adding a + b days. |
| Dates.PrevDay | CustomCalendar/CustomCalendar/CalendarView.cs:270 | `AddTicks(-1)` from midnight lands on a valid date one day earlier. |
| Dates.PrevDayIsAddDays | CustomCalendar/CustomCalendar/CalendarView.cs:270 | Stepping back one tick from midnight gives the same date as `AddDays(-1)`. |
| Dates.AddMonths | CustomCalendar/CustomCalendar/CalendarView.cs:239 | `AddMonths(k)` shifts the month count by k and clamps the day to the new month's length. |
| Dates.DayOfWeek | CustomCalendar/CustomCalendar/CalendarView.cs:306 | The weekday is (day number + 1) mod 7 with Sunday = 0, since 0001-01-01 was a Monday. |
| Dates.DayOfWeekAddDays | CustomCalendar/CustomCalendar/CalendarView.cs:446-497 | Moving n days moves the weekday by n modulo 7. |
| Dates.DayOfWeekShift | CustomCalendar/CustomCalendar/CalendarView.cs:446-497 | Moving within the same week moves the weekday by exactly n. |
| Text.DecimalText | CustomCalendar/CustomCalendar/CalendarView.cs:351 | A day label is a non-empty run of digits with no leading zero. |
| Text.ParseInt | CustomCalendar/CustomCalendar/CalendarView.cs:484 | `int.TryParse` succeeds exactly on a non-empty run of digits whose value fits an Int32, and then yields the value the digits spell. |
| Text.ParseDecimalText | CustomCalendar/CustomCalendar/CalendarView.cs:473-484 | Parsing a label back gives the day number written into it. |
| Text.YearText | CustomCalendar/CustomCalendar/CalendarView.cs:284 | "yyyy" has at least four digits and spells the year. |
| Text.MonthYearTextDecodes | CustomCalendar/CustomCalendar/CalendarView.cs:284 | The month title `MonthYearText` ("MMMM yyyy") reads back as the month name, one space, and digits spelling the year. |
| Text.LongDateTextLayout | CustomCalendar/CustomCalendar/CalendarView.cs:505 | The day title `LongDateText` ("MMMM d, yyyy") is laid out as the month name, a space, the day's decimal text, ", " and the year's four-or-more-digit text, at the positions those lengths give. |
| Text.LongDateTextDecodes | CustomCalendar/CustomCalendar/CalendarView.cs:505 | The two digit runs of the day title read back as the day and the year. |
| Text.June2024Titles | CustomCalendar/CustomCalendar/MainPage.cs:9 | For the demo page's date the titles are "June 2024" and "June 1, 2024". |
| Grid.CellStyle | CustomCalendar/CustomCalendar/CalendarView.cs:327-337 | A cell is selected exactly when its selected flag holds. It has the today style exactly when it is today and not selected, because the selected colours are applied after the today colour. |
| Grid.StartIndex | CustomCalendar/CustomCalendar/CalendarView.cs:305-320 | The weekday-name chain gives the weekday's ordinal (Sunday 0 to Saturday 6) as the first day's column. |
| Grid.WeekOffsets | CustomCalendar/CustomCalendar/CalendarView.cs:387-424 | The chain gives the distance back to Sunday as minus the weekday ordinal, and forward to Saturday as 6 minus it. |
| Grid.LastDayOfMonth | CustomCalendar/CustomCalendar/CalendarView.cs:302-303 | First-of-month plus one month minus one tick is the month's last day. |
| Grid.MonthGridDays | CustomCalendar/CustomCalendar/CalendarView.cs:324-326 | The month view has one cell per day (28 to 31 of them). Cell k shows day k + 1 of the month, labelled with its number. |
| Grid.MonthGridLayout | CustomCalendar/CustomCalendar/CalendarView.cs:322-376 | Cell k sits at row 1 + (s + k) / 7 and column (s + k) % 7, within rows 1..6 and columns 0..6. Its column is its date's weekday. |
| Grid.MonthGridDistinctPositions | CustomCalendar/CustomCalendar/CalendarView.cs:366-376 | No two month cells share a grid position. |
| Grid.MonthGridStyles | CustomCalendar/CustomCalendar/CalendarView.cs:327-337 | A month cell is selected exactly when its date is the selected date. It has the today style exactly when its date is today and not the selected date. |
| Grid.MonthGridSelection | CustomCalendar/CustomCalendar/CalendarView.cs:328-337 | At most one month cell is selected. One is selected exactly when the selected date lies in the displayed month. |
| Grid.MonthGridSameMonth | CustomCalendar/CustomCalendar/CalendarView.cs:302-324 | The month view depends only on the reference date's year and month. |
| Grid.MonthTapSelectsShown | CustomCalendar/CustomCalendar/CalendarView.cs:358-364 | A month cell's tap handler builds exactly the (valid) date the cell shows. |
| Grid.June2024Grid | CustomCalendar/CustomCalendar/MainPage.cs:9 | June 2024 has 30 cells. The 1st is at row 1, column 6 (a Saturday) and the 30th at row 6, column 0. |
| Grid.WeekStartIsSunday | CustomCalendar/CustomCalendar/CalendarView.cs:425 | The strip's first day is a Sunday, as many days before d as d's weekday ordinal. |
| Grid.WeekEndIsSaturday | CustomCalendar/CustomCalendar/CalendarView.cs:426 | The strip's last day is a Saturday, 6 minus the ordinal days after d. |
| Grid.WeekBounds | CustomCalendar/CustomCalendar/CalendarView.cs:425-426 | The week runs from a Sunday to the Saturday six days later and contains d at its weekday's offset. |
| Grid.WeekStartUnique | CustomCalendar/CustomCalendar/CalendarView.cs:425 | The strip's Sunday is the only Sunday among the seven days ending at d. |
| Grid.WeekStartDayNumber | CustomCalendar/CustomCalendar/CalendarView.cs:425 | In day numbers, the strip starts at the Sunday of d's week. |
| Grid.WeekGridCells | CustomCalendar/CustomCalendar/CalendarView.cs:446-497 | The strip has seven cells in row 1. Cell i is in column i and shows the i-th day from the Sunday, across month and year ends. That day's weekday is i. The reference date shows in its own weekday's column, and the last cell is the Saturday. |
| Grid.WeekTapResolution | CustomCalendar/CustomCalendar/CalendarView.cs:480-491 | `WeekTap` models the week tap handler. Parsing a week cell's label never fails. The tap picks the shown date exactly when it lies in the reference month. Otherwise it picks that day number in the reference month, or throws when that month lacks the day. The selected style uses the same pairing. |
| Grid.WeekGridSelection | CustomCalendar/CustomCalendar/CalendarView.cs:449-456 | At most one week cell is painted as selected, even though the flag pairs each cell's day number with the reference month: the seven days of a strip have seven different day numbers. |
| Grid.WeekTapJune | CustomCalendar/CustomCalendar/CalendarView.cs:486 | In the strip of 2024-06-01, which starts on 2024-05-26, tapping the "31" cell asks for 2024-06-31 and throws. |
| Grid.WeekTapJuly | CustomCalendar/CustomCalendar/CalendarView.cs:449-450 | In the strip of 2024-07-02, tapping the 2024-06-30 cell selects 2024-07-30. That cell is painted as selected when 2024-07-30 is selected. |
| Calendar.NextMonthTargetIsFirst | CustomCalendar/CustomCalendar/CalendarView.cs:238-240 | Month-mode ">" (`NextMonthTarget`: first of the month plus one month) renders the first day of the next month, rolling December into January of the next year. |
| Calendar.PrevMonthTargetIsLast | CustomCalendar/CustomCalendar/CalendarView.cs:269-270 | Month-mode "<" (`PrevMonthTarget`: one tick before the first of the month) renders the last day of the previous month, rolling January into December of the previous year. That date is the day before the first. |
| Calendar.MonthNavigationRoundTrip | CustomCalendar/CustomCalendar/CalendarView.cs:237-240 | "<" then ">", or ">" then "<", returns to the starting month and renders the same grid. |
| Calendar.WeekdayAfterWeeks | CustomCalendar/CustomCalendar/CalendarView.cs:233 | Moving by whole weeks keeps the weekday. |
| Calendar.WeekStartAfterWeeks | CustomCalendar/CustomCalendar/CalendarView.cs:233-235 | A week step moves the strip's Sunday by exactly seven days. |
| Calendar.WeekNavigationRoundTrip | CustomCalendar/CustomCalendar/CalendarView.cs:231-235 | Week-mode ">" then "<", or "<" then ">", each step starting from `WeekBase`, returns to the same reference date when neither the start nor the date in between is 1970-01-01. |
| Calendar.WeekNavigationThroughSentinel | CustomCalendar/CustomCalendar/CalendarView.cs:263-264 | From 1969-12-25, ">" then "<" ends 7 days before today, which is 1969-12-25 only when today is 1970-01-01. |
| Calendar.DayNavigationRoundTrip | CustomCalendar/CustomCalendar/CalendarView.cs:255-260 | Day-mode ">" then "<", or the reverse, returns to the same selected date. |
| Calendar.WeekSentinelReached | CustomCalendar/CustomCalendar/CalendarView.cs:232 | `WeekBase` is the sentinel test: the step starts from today while the reference date is 1970-01-01. A week after 1969-12-25 is 1970-01-01, so the step after that one starts from today again. |
| Calendar.MinDateBoundary | CustomCalendar/CustomCalendar/CalendarView.cs:425 | The default SelectedDate 0001-01-01 is a Monday. Its week's Sunday, the day before it, and the day before its month are all 0000-12-31. |
| Calendar.CursorStep | CustomCalendar/CustomCalendar/CalendarView.cs:370-376 | The row test `i + 1 == 7 \|\| ... \|\| i + 1 == 42` is "i + 1 is a multiple of 7" for positions up to 41. The row and column cursors step as 1 + i / 7 and i % 7. |
| Calendar.MonthTapKeepsMonth | CustomCalendar/CustomCalendar/CalendarView.cs:358-364 | A tap selects the cell's own date, and re-rendering for that date shows the same month. |
| Calendar.CalendarView.constructor | CustomCalendar/CustomCalendar/CalendarView.cs:152-180 | A new widget has view type NotSet, SelectedDate 0001-01-01 and reference date 1970-01-01. Nothing is rendered and nothing is notified. |
| Calendar.CalendarView.SetSelectedDate | CustomCalendar/CustomCalendar/CalendarView.cs:27 | The setter stores the date and changes nothing else. |
| Calendar.CalendarView.SetupDayView | CustomCalendar/CustomCalendar/CalendarView.cs:503-506 | The day view changes only the title, to the long date. |
| Calendar.CalendarView.SetupFullCalendar | CustomCalendar/CustomCalendar/CalendarView.cs:277-378 | The month view sets the reference date and the "MMMM yyyy" title. Its cells become exactly MonthGrid of the date, and every tap stays valid. |
| Calendar.CalendarView.MonthBounds | CustomCalendar/CustomCalendar/CalendarView.cs:302-320 | The start column is the first day's weekday column, and the last day is the month's length. |
| Calendar.CalendarView.AddMonthDays | CustomCalendar/CustomCalendar/CalendarView.cs:322-377 | The month loop appends exactly the cells of days 1..N with their row and column cursors and styles. Nothing else changes. |
| Calendar.CalendarView.SetupWeekView | CustomCalendar/CustomCalendar/CalendarView.cs:382-499 | The week view sets the title to the strip's Sunday and Saturday. Its cells become exactly WeekGrid of the date, and the reference date is unchanged. |
| Calendar.CalendarView.AddWeekDays | CustomCalendar/CustomCalendar/CalendarView.cs:446-498 | The week loop appends exactly the seven cells from startOfWeek, one day apart. Nothing else changes. |
| Calendar.CalendarView.SetViewType | CustomCalendar/CustomCalendar/CalendarView.cs:182-211 | Setting the same view type, or NotSet, renders nothing. Day sets the long-date title of SelectedDate. Week makes SelectedDate the reference date and renders its strip. Month renders SelectedDate's month. SelectedDate and the event log never change. |
| Calendar.CalendarView.Next | CustomCalendar/CustomCalendar/CalendarView.cs:214-243 | Day: SelectedDate moves forward one day, the title follows, and the event is raised with the new date. Week: the reference date (or today while it is still 1970-01-01) moves forward 7 days and the strip is rebuilt. Month: the next month's first day is rendered. NotSet: nothing. |
| Calendar.CalendarView.Previous | CustomCalendar/CustomCalendar/CalendarView.cs:245-273 | The mirror of Next: one day back, 7 days back, or the previous month's last day. |
| Calendar.CalendarView.TapMonthCell | CustomCalendar/CustomCalendar/CalendarView.cs:358-364 | Tapping month cell k, possible only in Month mode, selects its date, raises the event with it and re-renders that month. |
| Calendar.CalendarView.TapWeekCell | CustomCalendar/CustomCalendar/CalendarView.cs:480-491 | Tapping week cell k is possible only in Week mode. The outcome is WeekTap of the tapped cell. Only a Picked outcome selects the date, raises the event and rebuilds the strip for the unchanged reference date. NotANumber and OutOfRange leave every field unchanged. |

## Left out

- Layout and appearance are not modelled: the Grid, Frame and Label objects, the row and column definitions, sizes, padding, fonts and colours. A cell's style is the three-way `CellState` instead of the configured colours, and the null checks on `Color` values are not modelled.
- The header row of abbreviated day names (:287-300, :431-444) is not modelled. It comes from the current culture and does not depend on the dates. The cell sequences hold only the day cells.
- Which container is attached to the content layout, and the row definitions `OnPropertyChanged` rebuilds, are layout and are not modelled.
- The ScaleTo button animations and the `async void` scheduling of Next and Previous are not modelled. Each call is one atomic step.
- Events: the `HasSelectedDate` handlers are outside code, so the model records the dates the event was raised with in `notified`. The `sender` argument is not recorded.
- `DateTime.Today` is a parameter.
- DateTime's range 0001..9999, and the ArgumentOutOfRangeException it throws outside it, are not modelled: years are unbounded integers. This is reachable from the default state, because `SelectedDate` starts at 0001-01-01, a Monday (`Calendar.MinDateBoundary`).
- Calendar.CalendarView.SetViewType: switching to Week while `SelectedDate` is 0001-01-01 throws in the source at :425 (`AddDays(-1)`); the model instead renders the strip from 0000-12-31.
- Calendar.CalendarView.SetupWeekView: for any date in the week of 0001-01-01 the source throws at :425; the model goes back into year 0.
- Calendar.CalendarView.Previous: in Day mode with `SelectedDate` 0001-01-01 (:257), and in Month mode showing January 0001 (:270), the source throws; the model moves to 0000-12-31.
- Calendar.WeekNavigationRoundTrip: the round trip is promised only when neither the start date nor the date in between is 1970-01-01. Through that sentinel the second step starts from today (`Calendar.WeekNavigationThroughSentinel`).
- Time of day is not modelled: dates are whole days. `AddTicks(-1)` from midnight is modelled as the previous day (`PrevDay`). A `SelectedDate` with a time of day would keep it through `AddDays` and never match the 1970-01-01 sentinel; the model does not capture that.
- Text.ParseInt: accepts plain digit runs only, not the sign or surrounding whitespace `int.TryParse` also allows. The labels it reads are always plain digits.
- The week title's `"MMM d"` format uses the current culture, so the model keeps the title as the pair of dates (`WeekTitle`). The month and day titles are kept as `MonthTitle`/`DayTitle` values, whose invariant-culture texts are `Text.MonthYearText` and `Text.LongDateText`.
