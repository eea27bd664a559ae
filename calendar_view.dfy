/** The CalendarView widget: its view type, selected date and reference date,
    the month and week builders, the previous/next navigation and the day-tap
    handlers. The containers' children are kept as sequences of day cells, the
    title label as a Title value, and the HasSelectedDate event as the list of
    dates it has been raised with. DateTime.Today is a parameter. */
module Calendar {
  import opened Dates
  import opened Text
  import opened Grid

  datatype ViewType = Month | Week | Day | NotSet

  /** What the title label shows: "MMMM yyyy" of a month, the first and last
      day of a week, or "MMMM d, yyyy" of a day. */
  datatype Title = NoTitle | MonthTitle(year: int, month: int) | WeekTitle(start: Date, end: Date) | DayTitle(date: Date)

  // ------------------------------------------------------------ navigation targets

  /** Month-mode Next: the first of the reference month, plus one month. */
  function NextMonthTarget(cur: Date): Date
    requires ValidDate(cur)
  {
    AddMonths(Date(cur.year, cur.month, 1), 1)
  }

  /** Month-mode Previous: one tick before the first of the reference month. */
  function PrevMonthTarget(cur: Date): Date
    requires ValidDate(cur)
  {
    PrevDay(Date(cur.year, cur.month, 1))
  }

  /** Week-mode navigation starts from today while the reference date still
      holds its initial 1970-01-01 value. */
  function WeekBase(cur: Date, today: Date): Date {
    if cur == Epoch then today else cur
  }

  /** Next lands on the first of the following month, rolling December over
      into January of the next year. */
  lemma NextMonthTargetIsFirst(cur: Date)
    requires ValidDate(cur)
    ensures NextMonthTarget(cur) == if cur.month == 12 then Date(cur.year + 1, 1, 1) else Date(cur.year, cur.month + 1, 1)
  {
  }

  /** Previous lands on the last day of the preceding month, rolling January
      back into December of the previous year; that is the day before the first. */
  lemma PrevMonthTargetIsLast(cur: Date)
    requires ValidDate(cur)
    ensures var r := PrevMonthTarget(cur);
      && r == (if cur.month == 1 then Date(cur.year - 1, 12, 31) else Date(cur.year, cur.month - 1, DaysInMonth(cur.year, cur.month - 1)))
      && DayNumber(r) + 1 == DayNumber(Date(cur.year, cur.month, 1))
  {
  }

  /** Previous then Next, and Next then Previous, come back to the month they
      started from, and so render the very same month grid. */
  lemma MonthNavigationRoundTrip(cur: Date, selected: Date, today: Date)
    requires ValidDate(cur)
    ensures var a := NextMonthTarget(PrevMonthTarget(cur));
      a == Date(cur.year, cur.month, 1) && MonthGrid(a, selected, today) == MonthGrid(cur, selected, today)
    ensures var b := PrevMonthTarget(NextMonthTarget(cur));
      && b == Date(cur.year, cur.month, DaysInMonth(cur.year, cur.month))
      && MonthGrid(b, selected, today) == MonthGrid(cur, selected, today)
  {
    PrevMonthTargetIsLast(cur);
    NextMonthTargetIsFirst(cur);
    var a := NextMonthTarget(PrevMonthTarget(cur));
    NextMonthTargetIsFirst(PrevMonthTarget(cur));
    MonthGridSameMonth(a, cur, selected, today);
    var b := PrevMonthTarget(NextMonthTarget(cur));
    PrevMonthTargetIsLast(NextMonthTarget(cur));
    MonthGridSameMonth(b, cur, selected, today);
  }

  /** Moving by a whole number q of weeks keeps the weekday. */
  lemma WeekdayAfterWeeks(d: Date, q: int)
    requires ValidDate(d)
    ensures DayOfWeek(AddDays(d, 7 * q)) == DayOfWeek(d)
  {
    ModShift(DayNumber(d) + 1, q, 7);
  }

  /** A week step (Next or Previous in Week mode) moves the week's Sunday by
      seven days as well. */
  lemma WeekStartAfterWeeks(d: Date, q: int)
    requires ValidDate(d) && (q == 1 || q == -1)
    ensures WeekStart(AddDays(d, 7 * q)) == AddDays(WeekStart(d), 7 * q)
  {
    var s := WeekStart(d);
    WeekStartIsSunday(d);
    var t := AddDays(s, 7 * q);
    WeekdayAfterWeeks(s, q);
    WeekStartUnique(AddDays(d, 7 * q), t);
  }

  /** Next then Previous (or the reverse) in Week mode, each step starting
      from WeekBase as the buttons do, returns to the same reference date as
      long as neither the start nor the date in between is the 1970-01-01
      sentinel. */
  lemma WeekNavigationRoundTrip(d: Date, today: Date)
    requires ValidDate(d) && ValidDate(today)
    ensures d != Epoch && AddDays(d, 7) != Epoch ==>
      AddDays(WeekBase(AddDays(WeekBase(d, today), 7), today), -7) == d
    ensures d != Epoch && AddDays(d, -7) != Epoch ==>
      AddDays(WeekBase(AddDays(WeekBase(d, today), -7), today), 7) == d
  {
    DayNumberInjective(AddDays(AddDays(d, 7), -7), d);
    DayNumberInjective(AddDays(AddDays(d, -7), 7), d);
  }

  /** Through the sentinel the round trip breaks: from 1969-12-25, ">" lands
      on 1970-01-01 and "<" then steps back from today instead, which gives
      1969-12-25 again only when today is 1970-01-01 itself. */
  lemma WeekNavigationThroughSentinel(today: Date)
    requires ValidDate(today)
    ensures var d := Date(1969, 12, 25);
      && AddDays(WeekBase(AddDays(WeekBase(d, today), 7), today), -7) == AddDays(today, -7)
      && (AddDays(today, -7) == d <==> today == Epoch)
  {
    var d := Date(1969, 12, 25);
    AddDaysUnique(d, 7, Epoch);
    DayNumberInjective(today, Epoch);
    DayNumberInjective(AddDays(today, -7), d);
  }

  /** Next then Previous (or the reverse) in Day mode returns to the same selected date. */
  lemma DayNavigationRoundTrip(d: Date)
    requires ValidDate(d)
    ensures AddDays(AddDays(d, 1), -1) == d && AddDays(AddDays(d, -1), 1) == d
  {
    DayNumberInjective(AddDays(AddDays(d, 1), -1), d);
    DayNumberInjective(AddDays(AddDays(d, -1), 1), d);
  }

  /** The sentinel is an ordinary date too: a week after 1969-12-25 is
      1970-01-01, so the step after that one starts again from today. */
  lemma WeekSentinelReached(today: Date)
    ensures AddDays(Date(1969, 12, 25), 7) == Epoch
    ensures WeekBase(AddDays(Date(1969, 12, 25), 7), today) == today
  {
    AddDaysUnique(Date(1969, 12, 25), 7, Epoch);
  }

  /** DateTime.MinValue, the default SelectedDate, is a Monday. The Sunday of
      its week, the day before it and the day before its month all fall on
      0000-12-31, outside DateTime's range. */
  lemma MinDateBoundary()
    ensures DayOfWeek(MinDate) == Monday
    ensures WeekStart(MinDate) == Date(0, 12, 31)
    ensures AddDays(MinDate, -1) == Date(0, 12, 31)
    ensures PrevMonthTarget(MinDate) == Date(0, 12, 31)
  {
    assert DayNumber(MinDate) == 0;
    assert DaysBeforeYear(0) == -366;
    AddDaysUnique(MinDate, -1, Date(0, 12, 31));
  }

  /** The month render loop's row and column cursors: the row goes up after
      positions 7, 14, ..., 42 and the column wraps after 6; so at position i
      they are 1 + i / 7 and i % 7. */
  lemma CursorStep(i: int)
    requires 0 <= i < 42
    ensures (i + 1 == 7 || i + 1 == 14 || i + 1 == 21 || i + 1 == 28 || i + 1 == 35 || i + 1 == 42) <==> (i + 1) % 7 == 0
    ensures 1 + (i + 1) / 7 == 1 + i / 7 + (if (i + 1) % 7 == 0 then 1 else 0)
    ensures (i + 1) % 7 == if i % 7 + 1 == 7 then 0 else i % 7 + 1
  {
    DivStep(i, 7);
    var q, r := i / 7, i % 7;
    if r == 6 {
      DivUnique(i + 1, 7, q + 1, 0);
    } else {
      DivUnique(i + 1, 7, q, r + 1);
    }
  }

  /** Appending the next element to a prefix gives the next prefix. */
  lemma PrefixExtend<T>(g: seq<T>, n: int)
    requires 0 <= n < |g|
    ensures g[..n] + [g[n]] == g[..n + 1]
  {
  }

  /** Every month cell's tap handler builds a date that exists. */
  predicate TapsValid(cells: seq<DayCell>) {
    forall k :: 0 <= k < |cells| ==> ValidDate(MonthTap(cells[k]))
  }

  // ------------------------------------------------------------------ the widget

  class CalendarView {
    var viewType: ViewType
    var selectedDate: Date
    var currentDate: Date
    var title: Title
    /** The day cells of the month container, in the order added. */
    var monthCells: seq<DayCell>
    /** The day cells of the week container, in the order added. */
    var weekCells: seq<DayCell>
    /** The dates HasSelectedDate has been raised with, oldest first. */
    var notified: seq<Date>

    ghost predicate Valid()
      reads this
    {
      && ValidDate(selectedDate) && ValidDate(currentDate) && TapsValid(monthCells)
    }

    /** A new widget: view type NotSet, SelectedDate default(DateTime), the
        reference date 1970-01-01, nothing rendered and nothing notified. */
    constructor()
      ensures Valid()
      ensures viewType == NotSet && selectedDate == MinDate && currentDate == Epoch
      ensures title == NoTitle && monthCells == [] && weekCells == [] && notified == []
    {
      viewType := NotSet;
      selectedDate := MinDate;
      currentDate := Epoch;
      title := NoTitle;
      monthCells := [];
      weekCells := [];
      notified := [];
    }

    /** The public SelectedDate setter: it stores the date and renders nothing. */
    method SetSelectedDate(d: Date)
      requires Valid() && ValidDate(d)
      modifies this
      ensures Valid() && selectedDate == d
      ensures viewType == old(viewType) && currentDate == old(currentDate) && title == old(title)
      ensures monthCells == old(monthCells) && weekCells == old(weekCells) && notified == old(notified)
    {
      selectedDate := d;
    }

    /** The day view: only the title changes. */
    method SetupDayView(date: Date)
      modifies this
      ensures title == DayTitle(date)
      ensures viewType == old(viewType) && selectedDate == old(selectedDate) && currentDate == old(currentDate)
      ensures monthCells == old(monthCells) && weekCells == old(weekCells) && notified == old(notified)
    {
      title := DayTitle(date);
    }

    /** The month view of date's month: the title, the first and last day, the
        weekday chain's start column, then the day cells. */
    method SetupFullCalendar(date: Date, today: Date)
      requires Valid() && ValidDate(date)
      modifies this
      ensures Valid()
      ensures currentDate == date && title == MonthTitle(date.year, date.month)
      ensures monthCells == MonthGrid(date, selectedDate, today)
      ensures viewType == old(viewType) && selectedDate == old(selectedDate)
      ensures weekCells == old(weekCells) && notified == old(notified)
    {
      currentDate := date;
      title := MonthTitle(date.year, date.month);
      monthCells := [];

      var startIndex, lastDay := MonthBounds(date);
      AddMonthDays(date, startIndex, lastDay, today);
      assert monthCells == MonthGrid(date, selectedDate, today);
      assert TapsValid(monthCells) by {
        MonthTapSelectsShown(date, selectedDate, today);
      }
    }

    /** The first and last day of date's month, as the month view computes
        them: the column of the first day from the weekday chain, and the day
        of the month's last date. */
    method MonthBounds(date: Date) returns (startIndex: int, lastDay: int)
      requires ValidDate(date)
      ensures startIndex == MonthStartColumn(date.year, date.month) && 0 <= startIndex < 7
      ensures lastDay == DaysInMonth(date.year, date.month)
    {
      var firstDayOfMonth := Date(date.year, date.month, 1);
      var lastDayOfMonth := LastDayOfMonth(date.year, date.month);
      startIndex := StartIndex(DayOfWeek(firstDayOfMonth));
      lastDay := lastDayOfMonth.day;
    }

    /** The day-cell loop of the month view: days 1..lastDay from column
        startIndex on, the row cursor moving down after every seventh position
        and the column cursor wrapping after column 6. */
    method AddMonthDays(date: Date, startIndex: int, lastDay: int, today: Date)
      requires 0 <= startIndex < 7 && 0 <= lastDay <= 31
      modifies this
      ensures monthCells == old(monthCells) + MonthCells(date.year, date.month, startIndex, lastDay, selectedDate, today)
      ensures viewType == old(viewType) && selectedDate == old(selectedDate) && currentDate == old(currentDate)
      ensures title == old(title) && weekCells == old(weekCells) && notified == old(notified)
    {
      ghost var before := monthCells;
      ghost var spec := MonthCells(date.year, date.month, startIndex, lastDay, selectedDate, today);
      var currentRow, currentColumn := 1, startIndex;
      var i := startIndex;
      while i < lastDay + startIndex
        invariant startIndex <= i <= lastDay + startIndex
        invariant currentRow == 1 + i / 7 && currentColumn == i % 7
        invariant monthCells == before + spec[..i - startIndex]
        invariant viewType == old(viewType) && selectedDate == old(selectedDate) && currentDate == old(currentDate)
        invariant title == old(title) && weekCells == old(weekCells) && notified == old(notified)
      {
        var dayActual := i - startIndex + 1;
        var itsToday := dayActual == today.day && date.month == today.month && date.year == today.year;
        var isSelected := selectedDate.month == date.month && selectedDate.year == date.year && selectedDate.day == dayActual;
        var state := Normal;
        if itsToday {
          state := Today;
        }
        if isSelected {
          state := Selected;
        }
        var cell := DayCell(Date(date.year, date.month, dayActual), DecimalText(dayActual), currentRow, currentColumn,
                            state, date.year, date.month);
        assert cell == spec[i - startIndex] by {
          assert spec[i - startIndex] == MonthCell(date.year, date.month, startIndex, dayActual, selectedDate, today);
        }
        PrefixExtend(spec, i - startIndex);
        monthCells := monthCells + [cell];

        CursorStep(i);
        if i + 1 == 7 || i + 1 == 14 || i + 1 == 21 || i + 1 == 28 || i + 1 == 35 || i + 1 == 42 {
          currentRow := currentRow + 1;
        }
        if currentColumn + 1 == 7 {
          currentColumn := 0;
        } else {
          currentColumn := currentColumn + 1;
        }
        i := i + 1;
      }
      assert spec[..lastDay] == spec;
    }

    /** The week strip around date: the Sunday to Saturday bounds from the
        weekday chain, the title, then the seven day cells. */
    method SetupWeekView(date: Date, today: Date)
      requires ValidDate(date)
      modifies this
      ensures title == WeekTitle(WeekStart(date), WeekEnd(date))
      ensures weekCells == WeekGrid(date, selectedDate, today)
      ensures viewType == old(viewType) && selectedDate == old(selectedDate) && currentDate == old(currentDate)
      ensures monthCells == old(monthCells) && notified == old(notified)
    {
      var offsets := WeekOffsets(DayOfWeek(date));
      var howFarBack, howFarForward := offsets.0, offsets.1;
      var startOfWeek := AddDays(date, howFarBack);
      var endOfWeek := AddDays(date, howFarForward);
      title := WeekTitle(startOfWeek, endOfWeek);
      weekCells := [];
      AddWeekDays(date, startOfWeek, today);
    }

    /** The day-cell loop of the week strip: seven cells in row 1, stepping one
        day at a time from startOfWeek. */
    method AddWeekDays(date: Date, startOfWeek: Date, today: Date)
      requires ValidDate(startOfWeek)
      modifies this
      ensures weekCells == old(weekCells) + WeekCells(date, startOfWeek, selectedDate, today)
      ensures viewType == old(viewType) && selectedDate == old(selectedDate) && currentDate == old(currentDate)
      ensures title == old(title) && monthCells == old(monthCells) && notified == old(notified)
    {
      ghost var before := weekCells;
      ghost var spec := WeekCells(date, startOfWeek, selectedDate, today);
      var currentDay := AddDays(startOfWeek, 0);
      for i := 0 to 7
        invariant ValidDate(currentDay) && DayNumber(currentDay) == DayNumber(startOfWeek) + i
        invariant weekCells == before + spec[..i]
        invariant viewType == old(viewType) && selectedDate == old(selectedDate) && currentDate == old(currentDate)
        invariant title == old(title) && monthCells == old(monthCells) && notified == old(notified)
      {
        var itsToday := currentDay.day == today.day && date.month == today.month && date.year == today.year;
        var isSelected := selectedDate.month == date.month && selectedDate.year == date.year && selectedDate.day == currentDay.day;
        var state := Normal;
        if itsToday {
          state := Today;
        }
        if isSelected {
          state := Selected;
        }
        var cell := DayCell(currentDay, DecimalText(currentDay.day), 1, i, state, date.year, date.month);
        assert cell == spec[i] by {
          AddDaysUnique(startOfWeek, i, currentDay);
        }
        PrefixExtend(spec, i);
        weekCells := weekCells + [cell];
        currentDay := AddDays(currentDay, 1);
      }
      assert spec[..7] == spec;
    }

    /** Changing CalendarViewType (a bindable property, so only a new value
        counts) renders the view for the selected date; Week mode first makes
        the selected date the reference date. */
    method SetViewType(t: ViewType, today: Date)
      requires Valid()
      modifies this
      ensures Valid() && viewType == t
      ensures selectedDate == old(selectedDate) && notified == old(notified)
      ensures t == old(viewType) || t == NotSet ==>
        title == old(title) && currentDate == old(currentDate) && monthCells == old(monthCells) && weekCells == old(weekCells)
      ensures t != old(viewType) && t == Day ==>
        title == DayTitle(selectedDate) && currentDate == old(currentDate)
        && monthCells == old(monthCells) && weekCells == old(weekCells)
      ensures t != old(viewType) && t == Week ==>
        currentDate == selectedDate && weekCells == WeekGrid(selectedDate, selectedDate, today)
        && title == WeekTitle(WeekStart(selectedDate), WeekEnd(selectedDate)) && monthCells == old(monthCells)
      ensures t != old(viewType) && t == Month ==>
        currentDate == selectedDate && monthCells == MonthGrid(selectedDate, selectedDate, today)
        && title == MonthTitle(selectedDate.year, selectedDate.month) && weekCells == old(weekCells)
    {
      if t == viewType {
        return;
      }
      viewType := t;
      match t
      case Day =>
        SetupDayView(selectedDate);
      case Week =>
        currentDate := selectedDate;
        SetupWeekView(currentDate, today);
      case Month =>
        SetupFullCalendar(selectedDate, today);
      case NotSet =>
    }

    /** The ">" button. */
    method Next(today: Date)
      requires Valid() && ValidDate(today)
      modifies this
      ensures Valid() && viewType == old(viewType)
      ensures old(viewType) == Day ==>
        selectedDate == AddDays(old(selectedDate), 1) && notified == old(notified) + [selectedDate]
        && title == DayTitle(selectedDate) && currentDate == old(currentDate)
        && monthCells == old(monthCells) && weekCells == old(weekCells)
      ensures old(viewType) == Week ==>
        currentDate == AddDays(WeekBase(old(currentDate), today), 7)
        && weekCells == WeekGrid(currentDate, selectedDate, today)
        && title == WeekTitle(WeekStart(currentDate), WeekEnd(currentDate))
        && selectedDate == old(selectedDate) && notified == old(notified) && monthCells == old(monthCells)
      ensures old(viewType) == Month ==>
        currentDate == NextMonthTarget(old(currentDate))
        && monthCells == MonthGrid(currentDate, selectedDate, today)
        && title == MonthTitle(currentDate.year, currentDate.month)
        && selectedDate == old(selectedDate) && notified == old(notified) && weekCells == old(weekCells)
      ensures old(viewType) == NotSet ==>
        selectedDate == old(selectedDate) && currentDate == old(currentDate) && title == old(title)
        && monthCells == old(monthCells) && weekCells == old(weekCells) && notified == old(notified)
    {
      match viewType
      case Day =>
        var tomorrow := AddDays(selectedDate, 1);
        SetupDayView(tomorrow);
        selectedDate := tomorrow;
        notified := notified + [tomorrow];
      case Week =>
        var dtToCheck := if currentDate == Epoch then today else currentDate;
        var oneWeekFromNow := AddDays(dtToCheck, 7);
        currentDate := oneWeekFromNow;
        SetupWeekView(oneWeekFromNow, today);
      case Month =>
        var firstDayOfMonth := Date(currentDate.year, currentDate.month, 1);
        var nextMonth := AddMonths(firstDayOfMonth, 1);
        SetupFullCalendar(nextMonth, today);
      case NotSet =>
    }

    /** The "<" button. */
    method Previous(today: Date)
      requires Valid() && ValidDate(today)
      modifies this
      ensures Valid() && viewType == old(viewType)
      ensures old(viewType) == Day ==>
        selectedDate == AddDays(old(selectedDate), -1) && notified == old(notified) + [selectedDate]
        && title == DayTitle(selectedDate) && currentDate == old(currentDate)
        && monthCells == old(monthCells) && weekCells == old(weekCells)
      ensures old(viewType) == Week ==>
        currentDate == AddDays(WeekBase(old(currentDate), today), -7)
        && weekCells == WeekGrid(currentDate, selectedDate, today)
        && title == WeekTitle(WeekStart(currentDate), WeekEnd(currentDate))
        && selectedDate == old(selectedDate) && notified == old(notified) && monthCells == old(monthCells)
      ensures old(viewType) == Month ==>
        currentDate == PrevMonthTarget(old(currentDate))
        && monthCells == MonthGrid(currentDate, selectedDate, today)
        && title == MonthTitle(currentDate.year, currentDate.month)
        && selectedDate == old(selectedDate) && notified == old(notified) && weekCells == old(weekCells)
      ensures old(viewType) == NotSet ==>
        selectedDate == old(selectedDate) && currentDate == old(currentDate) && title == old(title)
        && monthCells == old(monthCells) && weekCells == old(weekCells) && notified == old(notified)
    {
      match viewType
      case Day =>
        var yesterday := AddDays(selectedDate, -1);
        SetupDayView(yesterday);
        selectedDate := yesterday;
        notified := notified + [yesterday];
      case Week =>
        var dtToCheck := if currentDate == Epoch then today else currentDate;
        var oneWeekPrior := AddDays(dtToCheck, -7);
        currentDate := oneWeekPrior;
        SetupWeekView(oneWeekPrior, today);
      case Month =>
        var firstDayOfMonth := Date(currentDate.year, currentDate.month, 1);
        SetupFullCalendar(PrevDay(firstDayOfMonth), today);
      case NotSet =>
    }

    /** Tapping month cell k: select the cell's date, raise the event with it
        and render its month again. The month container is on screen, and so
        can be tapped, only in Month mode. */
    method TapMonthCell(k: int, today: Date)
      requires Valid() && viewType == Month && 0 <= k < |monthCells|
      modifies this
      ensures Valid()
      ensures selectedDate == MonthTap(old(monthCells[k])) && notified == old(notified) + [selectedDate]
      ensures currentDate == selectedDate && monthCells == MonthGrid(selectedDate, selectedDate, today)
      ensures title == MonthTitle(selectedDate.year, selectedDate.month)
      ensures viewType == old(viewType) && weekCells == old(weekCells)
    {
      var c := monthCells[k];
      var picked := Date(c.anchorYear, c.anchorMonth, c.shown.day);
      selectedDate := picked;
      notified := notified + [picked];
      SetupFullCalendar(picked, today);
    }

    /** Tapping week cell k: read its label back as a number and build the date
        from that day and the captured reference date's year and month. Only
        when that succeeds is the date selected, the event raised and the strip
        rendered again for the unchanged reference date; a label that is no
        number does nothing, and a day the month lacks throws before any change.
        The week container is on screen only in Week mode. */
    method TapWeekCell(k: int, today: Date) returns (outcome: TapOutcome)
      requires Valid() && viewType == Week && 0 <= k < |weekCells|
      modifies this
      ensures Valid() && outcome == WeekTap(old(weekCells[k]))
      ensures outcome.Picked? ==>
        && selectedDate == outcome.date && notified == old(notified) + [outcome.date]
        && weekCells == WeekGrid(currentDate, selectedDate, today)
        && title == WeekTitle(WeekStart(currentDate), WeekEnd(currentDate))
      ensures !outcome.Picked? ==>
        selectedDate == old(selectedDate) && notified == old(notified)
        && weekCells == old(weekCells) && title == old(title)
      ensures viewType == old(viewType) && currentDate == old(currentDate) && monthCells == old(monthCells)
    {
      var c := weekCells[k];
      var parsed := ParseInt(c.text);
      if parsed.None? {
        return NotANumber;
      }
      var picked := Date(c.anchorYear, c.anchorMonth, parsed.value);
      if !ValidDate(picked) {
        return OutOfRange;
      }
      selectedDate := picked;
      notified := notified + [picked];
      SetupWeekView(currentDate, today);
      outcome := Picked(picked);
    }
  }

  /** Tapping any cell of a rendered month selects that cell's own date, and
      the month rendered again afterwards is the same month. */
  lemma MonthTapKeepsMonth(ref: Date, selected: Date, today: Date, k: int, selected': Date, today': Date)
    requires ValidDate(ref)
    requires 0 <= k < |MonthGrid(ref, selected, today)|
    ensures var c := MonthGrid(ref, selected, today)[k];
      && MonthTap(c) == c.shown
      && MonthGrid(MonthTap(c), selected', today') == MonthGrid(ref, selected', today')
  {
    var c := MonthGrid(ref, selected, today)[k];
    MonthTapSelectsShown(ref, selected, today);
    MonthGridSameMonth(MonthTap(c), ref, selected', today');
  }
}
