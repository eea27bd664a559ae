/** Whole-day proleptic Gregorian dates: the part of .NET's DateTime that the
    calendar widget relies on (construction, Day/Month/Year, DayOfWeek,
    AddDays, AddMonths and the day before a month's first instant). */
module Dates {

  datatype Date = Date(year: int, month: int, day: int)

  /** default(DateTime), i.e. DateTime.MinValue: 0001-01-01. */
  const MinDate := Date(1, 1, 1)

  /** The value the widget's reference date holds before anything is rendered. */
  const Epoch := Date(1970, 1, 1)

  predicate IsLeapYear(y: int) {
    y % 4 == 0 && (y % 100 != 0 || y % 400 == 0)
  }

  /** Days before the first of each month (index month - 1), and in the whole year (index 12). */
  const DaysToMonth365: seq<int> := [0, 31, 59, 90, 120, 151, 181, 212, 243, 273, 304, 334, 365]
  const DaysToMonth366: seq<int> := [0, 31, 60, 91, 121, 152, 182, 213, 244, 274, 305, 335, 366]

  function DaysToMonth(y: int): (t: seq<int>)
    ensures |t| == 13 && t[0] == 0
    ensures t[12] == if IsLeapYear(y) then 366 else 365
  {
    if IsLeapYear(y) then DaysToMonth366 else DaysToMonth365
  }

  /** Length of a month, read off the cumulative table as DateTime does; the
      contract is the familiar rule with the 4/100/400 leap years. */
  function DaysInMonth(y: int, m: int): (n: int)
    requires 1 <= m <= 12
    ensures n == if m == 2 then (if IsLeapYear(y) then 29 else 28)
                 else if m == 4 || m == 6 || m == 9 || m == 11 then 30
                 else 31
  {
    DaysToMonth(y)[m] - DaysToMonth(y)[m - 1]
  }

  /** A date DateTime's constructor accepts (bar the 0001..9999 year range). */
  predicate ValidDate(d: Date) {
    1 <= d.month <= 12 && 1 <= d.day <= DaysInMonth(d.year, d.month)
  }

  /** Days from 0001-01-01 to the first day of year y, counted year by year. */
  function DaysBeforeYear(y: int): int
    decreases if y < 1 then 1 - y else y - 1
  {
    if y == 1 then 0
    else if y > 1 then DaysBeforeYear(y - 1) + DaysToMonth(y - 1)[12]
    else DaysBeforeYear(y + 1) - DaysToMonth(y)[12]
  }

  /** DateTime's closed form: 365 days a year plus one for every fourth year,
      less every hundredth, plus every four-hundredth. */
  lemma {:induction false} DaysBeforeYearFormula(y: int)
    ensures var p := y - 1; DaysBeforeYear(y) == p * 365 + p / 4 - p / 100 + p / 400
    decreases if y < 1 then 1 - y else y - 1
  {
    if y > 1 {
      DaysBeforeYearFormula(y - 1);
      ClosedFormStep(y - 1);
    } else if y < 1 {
      DaysBeforeYearFormula(y + 1);
      ClosedFormStep(y);
    }
  }

  /** Days since 0001-01-01 (DateTime's ticks divided by the ticks of one day). */
  function DayNumber(d: Date): (n: int)
    requires ValidDate(d)
    ensures DaysBeforeYear(d.year) <= n < DaysBeforeYear(d.year) + DaysToMonth(d.year)[12]
  {
    MonthOffsetBounds(d.year, d.month);
    DaysBeforeYear(d.year) + DaysToMonth(d.year)[d.month - 1] + d.day - 1
  }

  lemma MonthOffsetBounds(y: int, m: int)
    requires 1 <= m <= 12
    ensures DaysToMonth(y)[m - 1] + DaysInMonth(y, m) <= DaysToMonth(y)[12]
  {
    TableMonotone(y, m, 12);
  }

  /** The cumulative table only grows. */
  lemma {:induction false} TableMonotone(y: int, i: int, j: int)
    requires 0 <= i <= j <= 12
    ensures DaysToMonth(y)[i] <= DaysToMonth(y)[j]
    decreases j - i
  {
    if i < j {
      assert DaysToMonth(y)[i + 1] - DaysToMonth(y)[i] == DaysInMonth(y, i + 1);
      TableMonotone(y, i + 1, j);
    }
  }

  /** One more year adds 365 days, or 366 after a leap year. */
  lemma YearStep(y: int)
    ensures DaysBeforeYear(y + 1) == DaysBeforeYear(y) + DaysToMonth(y)[12]
  {
  }

  /** The closed form grows by the length of year y from year y to year y + 1. */
  lemma ClosedFormStep(y: int)
    ensures var p, p' := y - 1, y;
      p' * 365 + p' / 4 - p' / 100 + p' / 400 == p * 365 + p / 4 - p / 100 + p / 400 + DaysToMonth(y)[12]
  {
    var p := y - 1;
    DivStep(p, 4);
    DivStep(p, 100);
    DivStep(p, 400);
    assert y % 400 == 0 ==> y % 100 == 0 by {
      if y % 400 == 0 { assert y == 100 * (4 * (y / 400)); }
    }
    assert y % 100 == 0 ==> y % 4 == 0 by {
      if y % 100 == 0 { assert y == 4 * (25 * (y / 100)); }
    }
  }

  lemma DivStep(p: int, k: int)
    requires k > 0
    ensures (p + 1) / k == p / k + (if (p + 1) % k == 0 then 1 else 0)
  {
    var q, r := p / k, p % k;
    assert p == k * q + r && 0 <= r < k;
    if r == k - 1 {
      DivUnique(p + 1, k, q + 1, 0);
    } else {
      DivUnique(p + 1, k, q, r + 1);
    }
  }

  lemma DivUnique(a: int, k: int, q: int, r: int)
    requires k > 0 && 0 <= r < k && a == k * q + r
    ensures a / k == q && a % k == r
  {
    var q', r' := a / k, a % k;
    assert a == k * q' + r' && 0 <= r' < k;
    if q' > q {
      assert k * q' >= k * (q + 1) by { MulMonotone(k, q + 1, q'); }
    } else if q' < q {
      assert k * q >= k * (q' + 1) by { MulMonotone(k, q' + 1, q); }
    }
  }

  lemma MulMonotone(k: int, a: int, b: int)
    requires k > 0 && a <= b
    ensures k * a <= k * b
  {
    assert k * b - k * a == k * (b - a);
  }

  lemma {:induction false} DaysBeforeYearMonotone(y1: int, y2: int)
    requires y1 <= y2
    ensures DaysBeforeYear(y1) <= DaysBeforeYear(y2)
    decreases y2 - y1
  {
    if y1 < y2 {
      YearStep(y2 - 1);
      DaysBeforeYearMonotone(y1, y2 - 1);
    }
  }

  /** Lexicographic (year, month, day) order of dates. */
  predicate Before(a: Date, b: Date) {
    a.year < b.year || (a.year == b.year && (a.month < b.month || (a.month == b.month && a.day < b.day)))
  }

  /** Day numbers follow the calendar order. */
  lemma DayNumberIncreasing(a: Date, b: Date)
    requires ValidDate(a) && ValidDate(b) && Before(a, b)
    ensures DayNumber(a) < DayNumber(b)
  {
    if a.year < b.year {
      YearStep(a.year);
      DaysBeforeYearMonotone(a.year + 1, b.year);
    } else if a.month < b.month {
      var t := DaysToMonth(a.year);
      TableMonotone(a.year, a.month, b.month - 1);
      assert t[a.month] - t[a.month - 1] == DaysInMonth(a.year, a.month);
    }
  }

  /** A day number names exactly one valid date. */
  lemma DayNumberInjective(a: Date, b: Date)
    requires ValidDate(a) && ValidDate(b)
    ensures DayNumber(a) == DayNumber(b) <==> a == b
  {
    if Before(a, b) {
      DayNumberIncreasing(a, b);
    } else if Before(b, a) {
      DayNumberIncreasing(b, a);
    }
  }

  /** The day before: DateTime.AddDays(-1), and also what AddTicks(-1) gives
      from midnight once the time of day is dropped. */
  function PrevDay(d: Date): (r: Date)
    requires ValidDate(d)
    ensures ValidDate(r) && DayNumber(r) == DayNumber(d) - 1
  {
    if d.day > 1 then Date(d.year, d.month, d.day - 1)
    else if d.month > 1 then
      var t := DaysToMonth(d.year);
      assert t[d.month - 1] - t[d.month - 2] == DaysInMonth(d.year, d.month - 1);
      Date(d.year, d.month - 1, DaysInMonth(d.year, d.month - 1))
    else YearStep(d.year - 1); Date(d.year - 1, 12, 31)
  }

  /** The date k days into year y (k counted from 0), for any k: a negative k
      or one past the year's length moves to the year before or after. */
  function DateInYear(y: int, k: int): (r: Date)
    ensures ValidDate(r) && DayNumber(r) == DaysBeforeYear(y) + k
    decreases if k < 0 then 366 - k else k
  {
    if k < 0 then
      YearStep(y - 1);
      DateInYear(y - 1, k + DaysToMonth(y - 1)[12])
    else if k >= DaysToMonth(y)[12] then
      YearStep(y);
      DateInYear(y + 1, k - DaysToMonth(y)[12])
    else
      DateInMonths(y, 1, k)
  }

  /** The date k days into year y, looking from month m on. */
  function DateInMonths(y: int, m: int, k: int): (r: Date)
    requires 1 <= m <= 12 && DaysToMonth(y)[m - 1] <= k < DaysToMonth(y)[12]
    ensures ValidDate(r) && r.year == y && DaysToMonth(y)[r.month - 1] + r.day - 1 == k
    decreases 12 - m
  {
    var t := DaysToMonth(y);
    assert t[m] - t[m - 1] == DaysInMonth(y, m);
    if k < t[m] then Date(y, m, k - t[m - 1] + 1)
    else DateInMonths(y, m + 1, k)
  }

  /** DateTime.AddDays(n) at whole-day resolution: like DateTime, it goes
      through the day number, so the result is the date n days later (or
      earlier), which DayNumberInjective makes unique. */
  function AddDays(d: Date, n: int): (r: Date)
    requires ValidDate(d)
    ensures ValidDate(r) && DayNumber(r) == DayNumber(d) + n
  {
    DateInYear(d.year, DayNumber(d) - DaysBeforeYear(d.year) + n)
  }

  /** Stepping back from midnight is stepping back one day. */
  lemma PrevDayIsAddDays(d: Date)
    requires ValidDate(d)
    ensures PrevDay(d) == AddDays(d, -1)
  {
    DayNumberInjective(PrevDay(d), AddDays(d, -1));
  }

  /** Any valid date lying n days after d is AddDays(d, n). */
  lemma AddDaysUnique(d: Date, n: int, e: Date)
    requires ValidDate(d) && ValidDate(e) && DayNumber(e) == DayNumber(d) + n
    ensures e == AddDays(d, n)
  {
    DayNumberInjective(e, AddDays(d, n));
  }

  lemma {:induction false} AddDaysAdd(d: Date, a: int, b: int)
    requires ValidDate(d)
    ensures AddDays(AddDays(d, a), b) == AddDays(d, a + b)
  {
    var x := AddDays(d, a);
    var y := AddDays(x, b);
    var z := AddDays(d, a + b);
    assert DayNumber(y) == DayNumber(z);
    DayNumberInjective(y, z);
  }

  /** DateTime.AddMonths(k): shift year and month, clamping the day to the new month's length. */
  function AddMonths(d: Date, k: int): (r: Date)
    requires ValidDate(d)
    ensures ValidDate(r)
    ensures r.year * 12 + r.month == d.year * 12 + d.month + k
    ensures r.day == if d.day <= DaysInMonth(r.year, r.month) then d.day else DaysInMonth(r.year, r.month)
  {
    var i := d.month - 1 + k;
    var y := d.year + i / 12;
    var m := i % 12 + 1;
    var dim := DaysInMonth(y, m);
    Date(y, m, if d.day > dim then dim else d.day)
  }

  /** System.DayOfWeek: an enumeration whose values are 0 (Sunday) to 6 (Saturday). */
  newtype Weekday = k: int | 0 <= k < 7

  const Sunday: Weekday := 0
  const Monday: Weekday := 1
  const Tuesday: Weekday := 2
  const Wednesday: Weekday := 3
  const Thursday: Weekday := 4
  const Friday: Weekday := 5
  const Saturday: Weekday := 6

  /** The numeric value of a weekday, as an int. */
  function Ordinal(w: Weekday): (k: int)
    ensures 0 <= k < 7
  {
    w as int
  }

  /** DateTime.DayOfWeek: 0001-01-01 (day number 0) was a Monday. */
  function DayOfWeek(d: Date): (w: Weekday)
    requires ValidDate(d)
    ensures Ordinal(w) == (DayNumber(d) + 1) % 7
  {
    ((DayNumber(d) + 1) % 7) as Weekday
  }

  /** Moving n days moves the weekday by n, modulo 7. */
  lemma DayOfWeekAddDays(d: Date, n: int)
    requires ValidDate(d)
    ensures Ordinal(DayOfWeek(AddDays(d, n))) == (Ordinal(DayOfWeek(d)) + n) % 7
  {
    var x := DayNumber(d) + 1;
    ModAddLeft(x, n, 7);
  }

  /** Moving n days within the same week moves the weekday by exactly n. */
  lemma DayOfWeekShift(d: Date, n: int)
    requires ValidDate(d) && 0 <= Ordinal(DayOfWeek(d)) + n < 7
    ensures Ordinal(DayOfWeek(AddDays(d, n))) == Ordinal(DayOfWeek(d)) + n
  {
    var x := DayNumber(d) + 1;
    var q, w := x / 7, x % 7;
    assert x == 7 * q + w;
    assert DayNumber(AddDays(d, n)) + 1 == 7 * q + (w + n);
    DivUnique(x + n, 7, q, w + n);
  }

  lemma ModAddLeft(x: int, n: int, k: int)
    requires k > 0
    ensures (x + n) % k == (x % k + n) % k
  {
    var q := x / k;
    assert x == k * q + x % k;
    ModShift(x % k + n, q, k);
  }

  lemma ModShift(a: int, q: int, k: int)
    requires k > 0
    ensures (a + k * q) % k == a % k
  {
    DivUnique(a + k * q, k, a / k + q, a % k);
  }
}
