/** What the month view and the week strip of CalendarView put on screen:
    the specification functions the widget's render loops are proved against,
    and the properties of those layouts. */
module Grid {
  import opened Dates
  import opened Text

  /** How a day cell is painted: plain, in the "today" text colour, or with the
      selected text and background colours. */
  datatype CellState = Normal | Today | Selected

  /** The render loops apply the today colour first and the selected colours
      after it, so a selected cell never shows the today style. */
  function CellStyle(isToday: bool, isSelected: bool): (s: CellState)
    ensures s == Selected <==> isSelected
    ensures s == Today <==> isToday && !isSelected
    ensures s == Normal <==> !isToday && !isSelected
  {
    if isSelected then Selected else if isToday then Today else Normal
  }

  /** One rendered day: the date it stands for, its label text, its grid row and
      column, its style, and the year and month its tap handler combines with
      the day number to build the date it selects. */
  datatype DayCell = DayCell(shown: Date, text: string, row: int, column: int, state: CellState,
                             anchorYear: int, anchorMonth: int)

  /** The month view's weekday-name chain: the column of the first day. */
  function StartIndex(w: Weekday): (i: int)
    ensures i == Ordinal(w)
  {
    if w == Monday then 1
    else if w == Tuesday then 2
    else if w == Wednesday then 3
    else if w == Thursday then 4
    else if w == Friday then 5
    else if w == Saturday then 6
    else 0
  }

  /** The week view's weekday-name chain: how far back to the Sunday and how
      far forward to the Saturday. */
  function WeekOffsets(w: Weekday): (offsets: (int, int))
    ensures offsets.0 == -Ordinal(w) && offsets.1 == 6 - Ordinal(w)
  {
    if w == Sunday then (0, 6)
    else if w == Monday then (-1, 5)
    else if w == Tuesday then (-2, 4)
    else if w == Wednesday then (-3, 3)
    else if w == Thursday then (-4, 2)
    else if w == Friday then (-5, 1)
    else (-6, 0)
  }

  // ---------------------------------------------------------------- month view

  /** The month view's last day: the first of the month, plus one month, minus one tick. */
  function LastDayOfMonth(y: int, m: int): (last: Date)
    requires 1 <= m <= 12
    ensures last == Date(y, m, DaysInMonth(y, m))
  {
    var next := AddMonths(Date(y, m, 1), 1);
    assert next == if m == 12 then Date(y + 1, 1, 1) else Date(y, m + 1, 1);
    PrevDay(next)
  }

  function MonthStartColumn(y: int, m: int): int
    requires 1 <= m <= 12
  {
    StartIndex(DayOfWeek(Date(y, m, 1)))
  }

  /** The cell of day d in the month view of (y, m) whose first day sits in column s. */
  function MonthCell(y: int, m: int, s: int, d: nat, selected: Date, today: Date): DayCell {
    var date := Date(y, m, d);
    DayCell(date, DecimalText(d), 1 + (s + d - 1) / 7, (s + d - 1) % 7,
            CellStyle(date == today, date == selected), y, m)
  }

  /** The cells of days 1..n of (y, m), in the order added. */
  function MonthCells(y: int, m: int, s: int, n: nat, selected: Date, today: Date): (cells: seq<DayCell>) {
    seq(n, k requires 0 <= k < n => MonthCell(y, m, s, k + 1, selected, today))
  }

  /** Every day cell of the month view for reference date ref, in the order added. */
  function MonthGrid(ref: Date, selected: Date, today: Date): (cells: seq<DayCell>)
    requires ValidDate(ref)
  {
    MonthCells(ref.year, ref.month, MonthStartColumn(ref.year, ref.month), DaysInMonth(ref.year, ref.month), selected, today)
  }

  /** The month view has one cell per day of the month, days 1..N in order. */
  lemma MonthGridDays(ref: Date, selected: Date, today: Date)
    requires ValidDate(ref)
    ensures var g := MonthGrid(ref, selected, today);
      28 <= |g| <= 31 && |g| == DaysInMonth(ref.year, ref.month)
      && forall k :: 0 <= k < |g| ==>
           g[k].shown == Date(ref.year, ref.month, k + 1) && ValidDate(g[k].shown) && g[k].text == DecimalText(k + 1)
  {
  }

  /** Each cell sits in its date's weekday column, rows 1..6 and columns 0..6:
      inside the month container's seven row and seven column definitions. */
  lemma MonthGridLayout(ref: Date, selected: Date, today: Date)
    requires ValidDate(ref)
    ensures var g, s := MonthGrid(ref, selected, today), MonthStartColumn(ref.year, ref.month);
      forall k :: 0 <= k < |g| ==>
        && g[k].row == 1 + (s + k) / 7 && g[k].column == (s + k) % 7
        && 1 <= g[k].row <= 6 && 0 <= g[k].column <= 6
        && g[k].column == Ordinal(DayOfWeek(g[k].shown))
  {
    var g, s := MonthGrid(ref, selected, today), MonthStartColumn(ref.year, ref.month);
    var x := DayNumber(Date(ref.year, ref.month, 1)) + 1;
    forall k | 0 <= k < |g|
      ensures g[k].column == Ordinal(DayOfWeek(g[k].shown))
    {
      assert DayNumber(g[k].shown) + 1 == x + k;
      ModAddLeft(x, k, 7);
    }
  }

  /** No two cells of the month view share a grid position. */
  lemma MonthGridDistinctPositions(ref: Date, selected: Date, today: Date)
    requires ValidDate(ref)
    ensures var g := MonthGrid(ref, selected, today);
      forall i, j :: 0 <= i < j < |g| ==> g[i].row != g[j].row || g[i].column != g[j].column
  {
    var g, s := MonthGrid(ref, selected, today), MonthStartColumn(ref.year, ref.month);
    forall i, j | 0 <= i < j < |g|
      ensures g[i].row != g[j].row || g[i].column != g[j].column
    {
      var a, b := s + i, s + j;
      assert a == 7 * (a / 7) + a % 7 && b == 7 * (b / 7) + b % 7;
    }
  }

  /** A month cell is selected exactly when the selected date is its date, and
      has the today style when it is today's date and not selected. */
  lemma MonthGridStyles(ref: Date, selected: Date, today: Date)
    requires ValidDate(ref)
    ensures var g := MonthGrid(ref, selected, today);
      && (forall k :: 0 <= k < |g| ==> (g[k].state == Selected <==> g[k].shown == selected))
      && (forall k :: 0 <= k < |g| ==> (g[k].state == Today <==> g[k].shown == today && g[k].shown != selected))
  {
  }

  /** At most one month cell is selected, and one is exactly when the selected
      date lies in the displayed month. */
  lemma MonthGridSelection(ref: Date, selected: Date, today: Date)
    requires ValidDate(ref)
    ensures var g := MonthGrid(ref, selected, today);
      && (forall i, j :: 0 <= i < |g| && 0 <= j < |g| && g[i].state == Selected && g[j].state == Selected ==> i == j)
      && ((exists k :: 0 <= k < |g| && g[k].state == Selected) <==>
          ValidDate(selected) && selected.year == ref.year && selected.month == ref.month)
  {
    var g := MonthGrid(ref, selected, today);
    MonthGridDays(ref, selected, today);
    MonthGridStyles(ref, selected, today);
    forall i, j | 0 <= i < |g| && 0 <= j < |g| && g[i].state == Selected && g[j].state == Selected
      ensures i == j
    {
      assert g[i].shown == g[j].shown;
    }
    if exists k :: 0 <= k < |g| && g[k].state == Selected {
      var k :| 0 <= k < |g| && g[k].state == Selected;
      assert g[k].shown == selected;
    }
    if ValidDate(selected) && selected.year == ref.year && selected.month == ref.month {
      assert g[selected.day - 1].state == Selected;
    }
  }

  /** The month view depends only on the reference date's year and month. */
  lemma MonthGridSameMonth(a: Date, b: Date, selected: Date, today: Date)
    requires ValidDate(a) && ValidDate(b) && a.year == b.year && a.month == b.month
    ensures MonthGrid(a, selected, today) == MonthGrid(b, selected, today)
  {
  }

  /** The month view's tap handler selects the very date of the tapped cell. */
  function MonthTap(c: DayCell): Date {
    Date(c.anchorYear, c.anchorMonth, c.shown.day)
  }

  lemma MonthTapSelectsShown(ref: Date, selected: Date, today: Date)
    requires ValidDate(ref)
    ensures var g := MonthGrid(ref, selected, today);
      forall k :: 0 <= k < |g| ==> MonthTap(g[k]) == g[k].shown && ValidDate(MonthTap(g[k]))
  {
  }

  /** The day numbers of the example dates, from DateTime's closed form. */
  lemma DayNumbers2024()
    ensures DayNumber(Date(2024, 6, 1)) == 739037 && DayNumber(Date(2024, 7, 2)) == 739068
  {
    DaysBeforeYearFormula(2024);
  }

  /** June 2024 (the demo page's month) starts on a Saturday, in column 6, and
      needs all six rows: the 30th sits in row 6, column 0. */
  lemma June2024Grid(selected: Date, today: Date)
    ensures var g := MonthGrid(Date(2024, 6, 1), selected, today);
      |g| == 30 && g[0].row == 1 && g[0].column == 6 && g[29].row == 6 && g[29].column == 0
  {
    DayNumbers2024();
    assert DayOfWeek(Date(2024, 6, 1)) == Saturday;
  }

  // ----------------------------------------------------------------- week view

  /** The Sunday on or before d. */
  function WeekStart(d: Date): (s: Date)
    requires ValidDate(d)
  {
    AddDays(d, -Ordinal(DayOfWeek(d)))
  }

  /** The Saturday on or after d. */
  function WeekEnd(d: Date): (e: Date)
    requires ValidDate(d)
  {
    AddDays(d, 6 - Ordinal(DayOfWeek(d)))
  }

  lemma WeekStartIsSunday(d: Date)
    requires ValidDate(d)
    ensures DayOfWeek(WeekStart(d)) == Sunday
    ensures DayNumber(WeekStart(d)) == DayNumber(d) - Ordinal(DayOfWeek(d))
  {
    var w := Ordinal(DayOfWeek(d));
    DayOfWeekShift(d, -w);
  }

  lemma WeekEndIsSaturday(d: Date)
    requires ValidDate(d)
    ensures DayOfWeek(WeekEnd(d)) == Saturday
    ensures DayNumber(WeekEnd(d)) == DayNumber(d) + 6 - Ordinal(DayOfWeek(d))
  {
    var w := Ordinal(DayOfWeek(d));
    DayOfWeekShift(d, 6 - w);
  }

  /** The week runs from a Sunday to the following Saturday, six days later,
      and contains d, at the offset of d's weekday. */
  lemma WeekBounds(d: Date)
    requires ValidDate(d)
    ensures DayOfWeek(WeekStart(d)) == Sunday && DayOfWeek(WeekEnd(d)) == Saturday
    ensures WeekEnd(d) == AddDays(WeekStart(d), 6)
    ensures DayNumber(WeekStart(d)) <= DayNumber(d) <= DayNumber(WeekEnd(d))
    ensures DayNumber(d) - DayNumber(WeekStart(d)) == Ordinal(DayOfWeek(d))
  {
    WeekStartIsSunday(d);
    WeekEndIsSaturday(d);
    AddDaysUnique(WeekStart(d), 6, WeekEnd(d));
  }

  /** WeekStart(d) is the only Sunday within the six days up to d. */
  lemma WeekStartUnique(d: Date, s: Date)
    requires ValidDate(d) && ValidDate(s) && DayOfWeek(s) == Sunday
    requires DayNumber(s) <= DayNumber(d) < DayNumber(s) + 7
    ensures s == WeekStart(d)
  {
    var a := DayNumber(s);
    assert (a + 1) % 7 == 0 by {
      assert Ordinal(DayOfWeek(s)) == (a + 1) % 7;
      assert Ordinal(Sunday) == 0;
    }
    var w := WeekStart(d);
    WeekStartDayNumber(d, a);
    assert ValidDate(w) && DayNumber(w) == DayNumber(s);
    DayNumberInjective(s, w);
  }

  /** In day numbers: the Sunday a of d's week is where WeekStart(d) lands. */
  lemma WeekStartDayNumber(d: Date, a: int)
    requires ValidDate(d) && (a + 1) % 7 == 0 && a <= DayNumber(d) < a + 7
    ensures DayNumber(WeekStart(d)) == a
  {
    var b := DayNumber(d);
    SundayOffset(a, b);
    assert Ordinal(DayOfWeek(d)) == b - a;
    WeekStartIsSunday(d);
  }

  /** Day number b lies (b + 1) % 7 days after day number a of a Sunday in the same week. */
  lemma SundayOffset(a: int, b: int)
    requires (a + 1) % 7 == 0 && a <= b < a + 7
    ensures (b + 1) % 7 == b - a
  {
    var q := (a + 1) / 7;
    assert a + 1 == 7 * q;
    DivUnique(b + 1, 7, q, b - a);
  }

  /** Cell i of the week strip starting at start, rendered for reference date
      ref. Its style, like the tap handler, pairs the cell's day number with
      ref's year and month. */
  function WeekCell(ref: Date, start: Date, i: int, selected: Date, today: Date): DayCell
    requires ValidDate(start)
  {
    var date := AddDays(start, i);
    var claimed := Date(ref.year, ref.month, date.day);
    DayCell(date, DecimalText(date.day), 1, i, CellStyle(claimed == today, claimed == selected),
            ref.year, ref.month)
  }

  function WeekCells(ref: Date, start: Date, selected: Date, today: Date): (cells: seq<DayCell>)
    requires ValidDate(start)
  {
    seq(7, i requires 0 <= i < 7 => WeekCell(ref, start, i, selected, today))
  }

  /** The week strip for reference date ref. */
  function WeekGrid(ref: Date, selected: Date, today: Date): (cells: seq<DayCell>)
    requires ValidDate(ref)
  {
    WeekCells(ref, WeekStart(ref), selected, today)
  }

  /** The week strip has seven cells in row 1, cell i in column i showing the
      i-th day from the Sunday (across month and year ends), whose weekday is i;
      the reference date shows in its own weekday's column. */
  lemma WeekGridCells(ref: Date, selected: Date, today: Date)
    requires ValidDate(ref)
    ensures var g, s := WeekGrid(ref, selected, today), WeekStart(ref);
      && |g| == 7
      && (forall i :: 0 <= i < 7 ==>
            && g[i].row == 1 && g[i].column == i
            && g[i].shown == AddDays(s, i) && DayNumber(g[i].shown) == DayNumber(s) + i
            && Ordinal(DayOfWeek(g[i].shown)) == i
            && g[i].text == DecimalText(g[i].shown.day))
      && g[Ordinal(DayOfWeek(ref))].shown == ref
      && g[6].shown == WeekEnd(ref)
  {
    var g, s := WeekGrid(ref, selected, today), WeekStart(ref);
    WeekBounds(ref);
    forall i | 0 <= i < 7
      ensures Ordinal(DayOfWeek(g[i].shown)) == i
    {
      DayOfWeekShift(s, i);
    }
    var w := Ordinal(DayOfWeek(ref));
    AddDaysUnique(s, w, ref);
  }

  /** Two dates one to six days apart show different day numbers, since every
      month has at least 28 days. */
  lemma NearDaysDiffer(x: Date, y: Date)
    requires ValidDate(x) && ValidDate(y) && DayNumber(x) < DayNumber(y) < DayNumber(x) + 7
    ensures x.day != y.day
  {
    var k, n := DayNumber(y) - DayNumber(x), DaysInMonth(x.year, x.month);
    if x.day + k <= n {
      DayNumberInjective(Date(x.year, x.month, x.day + k), y);
    } else {
      var z := if x.month == 12 then Date(x.year + 1, 1, x.day + k - n) else Date(x.year, x.month + 1, x.day + k - n);
      assert DayNumber(z) == DayNumber(y) by {
        if x.month == 12 {
          YearStep(x.year);
        } else {
          assert DaysToMonth(x.year)[x.month] == DaysToMonth(x.year)[x.month - 1] + n;
        }
      }
      DayNumberInjective(z, y);
    }
  }

  /** At most one cell of the week strip is painted as selected: the flag
      pairs each cell's day number with the reference month, and the seven
      days of the strip have seven different day numbers. */
  lemma WeekGridSelection(ref: Date, selected: Date, today: Date)
    requires ValidDate(ref)
    ensures var g := WeekGrid(ref, selected, today);
      forall i, j :: 0 <= i < 7 && 0 <= j < 7 && g[i].state == Selected && g[j].state == Selected ==> i == j
  {
    var g := WeekGrid(ref, selected, today);
    WeekGridCells(ref, selected, today);
    forall i, j | 0 <= i < j < 7
      ensures g[i].state != Selected || g[j].state != Selected
    {
      WeekTapResolution(ref, selected, today, i);
      WeekTapResolution(ref, selected, today, j);
      NearDaysDiffer(g[i].shown, g[j].shown);
    }
  }

  /** What a week cell's tap handler does: read the label back as a number and
      build a date from it and the captured reference's year and month; that
      constructor throws when the day does not exist in that month. */
  datatype TapOutcome = Picked(date: Date) | NotANumber | OutOfRange

  function WeekTap(c: DayCell): TapOutcome {
    match ParseInt(c.text)
    case None => NotANumber
    case Some(day) =>
      var picked := Date(c.anchorYear, c.anchorMonth, day);
      if ValidDate(picked) then Picked(picked) else OutOfRange
  }

  /** Tapping a week cell never fails to read its label. It selects the shown
      date exactly when that date lies in the reference date's month; otherwise
      it selects the same day number in the reference month, or throws when the
      reference month has no such day. The style flags make the same pairing. */
  lemma WeekTapResolution(ref: Date, selected: Date, today: Date, i: int)
    requires ValidDate(ref) && 0 <= i < 7
    ensures var c := WeekGrid(ref, selected, today)[i];
      && WeekTap(c) != NotANumber
      && (WeekTap(c) == Picked(c.shown) <==> c.shown.year == ref.year && c.shown.month == ref.month)
      && (WeekTap(c) == OutOfRange <==> c.shown.day > DaysInMonth(ref.year, ref.month))
      && (WeekTap(c).Picked? ==> WeekTap(c).date == Date(ref.year, ref.month, c.shown.day))
      && (c.state == Selected <==> Date(ref.year, ref.month, c.shown.day) == selected)
  {
    var c := WeekGrid(ref, selected, today)[i];
    assert ValidDate(c.shown);
    ParseDecimalText(c.shown.day);
  }

  /** With the demo page's date, 2024-06-01 (a Saturday), the strip starts on
      Sunday 2024-05-26, and tapping the "31" cell asks for 2024-06-31, which
      does not exist. */
  lemma WeekTapJune(today: Date)
    ensures var g := WeekGrid(Date(2024, 6, 1), MinDate, today);
      g[0].shown == Date(2024, 5, 26) && g[5].shown == Date(2024, 5, 31) && WeekTap(g[5]) == OutOfRange
  {
    var june, start := Date(2024, 6, 1), Date(2024, 5, 26);
    DayNumbers2024();
    assert DayOfWeek(june) == Saturday;
    assert WeekStart(june) == start by {
      AddDaysUnique(june, -6, start);
    }
    AddDaysUnique(start, 5, Date(2024, 5, 31));
    WeekTapResolution(june, MinDate, today, 5);
  }

  /** With 2024-07-02 (a Tuesday), tapping the "30" cell, which shows 2024-06-30,
      selects 2024-07-30; and when 2024-07-30 is the selected date, that June
      cell is the one painted as selected. */
  lemma WeekTapJuly(today: Date)
    ensures var g := WeekGrid(Date(2024, 7, 2), Date(2024, 7, 30), today);
      g[0].shown == Date(2024, 6, 30) && WeekTap(g[0]) == Picked(Date(2024, 7, 30)) && g[0].state == Selected
  {
    var july, start := Date(2024, 7, 2), Date(2024, 6, 30);
    DayNumbers2024();
    assert DayOfWeek(july) == Tuesday;
    assert WeekStart(july) == start by {
      AddDaysUnique(july, -2, start);
    }
    WeekTapResolution(july, Date(2024, 7, 30), today, 0);
  }
}
