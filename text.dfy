/** The invariant-culture texts the widget produces (day labels, the month and
    day titles) and int.TryParse, which reads a day label back. */
module Text {
  import opened Dates

  datatype Option<T> = None | Some(value: T)

  predicate IsDigit(c: char) {
    '0' <= c <= '9'
  }

  predicate AllDigits(s: string) {
    forall i :: 0 <= i < |s| ==> IsDigit(s[i])
  }

  function DigitChar(k: int): (c: char)
    requires 0 <= k < 10
    ensures IsDigit(c) && c as int - '0' as int == k
  {
    ('0' as int + k) as char
  }

  /** `$"{n}"` for a non-negative int: its digits, most significant first, no leading zero. */
  function DecimalText(n: nat): (s: string)
    ensures 1 <= |s| && AllDigits(s)
    ensures n >= 10 ==> s[0] != '0'
  {
    if n < 10 then [DigitChar(n)] else DecimalText(n / 10) + [DigitChar(n % 10)]
  }

  /** The number a run of digits spells. */
  function DigitsValue(s: string): nat
    requires AllDigits(s)
  {
    if s == [] then 0 else DigitsValue(s[..|s| - 1]) * 10 + (s[|s| - 1] as int - '0' as int)
  }

  const Int32Max := 2147483647

  /** int.TryParse on a label: the value of a non-empty run of digits that fits
      an Int32, otherwise failure. */
  function ParseInt(s: string): (r: Option<int>)
    ensures r.Some? <==> s != [] && AllDigits(s) && DigitsValue(s) <= Int32Max
    ensures r.Some? ==> r.value == DigitsValue(s) && 0 <= r.value <= Int32Max
  {
    if s != [] && AllDigits(s) && DigitsValue(s) <= Int32Max then Some(DigitsValue(s)) else None
  }

  lemma {:induction false} DigitsValueOfDecimalText(n: nat)
    ensures DigitsValue(DecimalText(n)) == n
  {
    if n >= 10 {
      var s := DecimalText(n);
      assert s[..|s| - 1] == DecimalText(n / 10);
      DigitsValueOfDecimalText(n / 10);
    }
  }

  /** Reading a label back gives the day number written into it. */
  lemma {:induction false} ParseDecimalText(n: nat)
    requires n <= Int32Max
    ensures ParseInt(DecimalText(n)) == Some(n)
  {
    DigitsValueOfDecimalText(n);
  }

  /** Left-pads with '0' up to the given width ("yyyy" pads the year to four digits). */
  function PadLeft(s: string, width: nat): (r: string)
    ensures |r| == if |s| >= width then |s| else width
    ensures r[|r| - |s|..] == s
    ensures forall i :: 0 <= i < |r| - |s| ==> r[i] == '0'
  {
    var zeros := if |s| >= width then 0 else width - |s|;
    seq(zeros, _ => '0') + s
  }

  /** Leading zeros do not change the value of a run of digits. */
  lemma {:induction false} LeadingZeros(z: string, s: string)
    requires forall i :: 0 <= i < |z| ==> z[i] == '0'
    requires AllDigits(s)
    ensures AllDigits(z + s) && DigitsValue(z + s) == DigitsValue(s)
    decreases |s|
  {
    if s == [] {
      assert z + s == z;
      AllZeros(z);
    } else {
      assert (z + s)[..|z + s| - 1] == z + s[..|s| - 1];
      LeadingZeros(z, s[..|s| - 1]);
    }
  }

  lemma {:induction false} AllZeros(z: string)
    requires forall i :: 0 <= i < |z| ==> z[i] == '0'
    ensures AllDigits(z) && DigitsValue(z) == 0
  {
    if z != [] {
      AllZeros(z[..|z| - 1]);
    }
  }

  /** "yyyy": the year with at least four digits. */
  function YearText(y: nat): (s: string)
    ensures |s| >= 4 && AllDigits(s) && DigitsValue(s) == y
  {
    var digits := DecimalText(y);
    var r := PadLeft(digits, 4);
    DigitsValueOfDecimalText(y);
    assert r == r[..|r| - |digits|] + digits;
    LeadingZeros(r[..|r| - |digits|], digits);
    r
  }

  /** "MMMM": the month's full name in the invariant culture. */
  const MonthNames: seq<string> := ["January", "February", "March", "April", "May", "June",
    "July", "August", "September", "October", "November", "December"]

  function MonthName(m: int): (name: string)
    requires 1 <= m <= 12
    ensures |name| >= 3
  {
    MonthNames[m - 1]
  }

  /** Title of the month view: format "MMMM yyyy" in the invariant culture. */
  function MonthYearText(y: nat, m: int): string
    requires 1 <= m <= 12
  {
    MonthName(m) + " " + YearText(y)
  }

  /** Title of the day view: format "MMMM d, yyyy" in the invariant culture. */
  function LongDateText(d: Date): string
    requires 1 <= d.month <= 12 && d.day >= 0 && d.year >= 0
  {
    MonthName(d.month) + " " + DecimalText(d.day) + ", " + YearText(d.year)
  }

  /** The month title reads back as the month's name, a space and the year. */
  lemma {:induction false} MonthYearTextDecodes(y: nat, m: int)
    requires 1 <= m <= 12
    ensures var t, k := MonthYearText(y, m), |MonthName(m)|;
      |t| == k + 1 + |YearText(y)| && t[..k] == MonthName(m) && t[k] == ' ' && AllDigits(t[k + 1..]) && DigitsValue(t[k + 1..]) == y
  {
    var a, c := MonthName(m), YearText(y);
    var t, k := MonthYearText(y, m), |a|;
    assert t == a + " " + c;
    assert t[..k] == a;
    assert t[k] == ' ';
    assert t[k + 1..] == c;
  }

  /** The day title is laid out as the month's name, a space, the day's
      digits, a comma and a space, and the year's digits. */
  lemma LongDateTextLayout(d: Date)
    requires 1 <= d.month <= 12 && d.day >= 0 && d.year >= 0
    ensures var t, k, n := LongDateText(d), |MonthName(d.month)|, |DecimalText(d.day)|;
      && |t| == k + n + 3 + |YearText(d.year)|
      && t[..k] == MonthName(d.month) && t[k] == ' ' && t[k + 1..k + 1 + n] == DecimalText(d.day)
      && t[k + 1 + n..k + 3 + n] == ", " && t[k + 3 + n..] == YearText(d.year)
  {
    SplitLongDate(LongDateText(d), MonthName(d.month), DecimalText(d.day), YearText(d.year));
  }

  /** The two digit runs of the day title read back as the day and the year. */
  lemma LongDateTextDecodes(d: Date)
    requires 1 <= d.month <= 12 && d.day >= 0 && d.year >= 0
    ensures var t, k, n := LongDateText(d), |MonthName(d.month)|, |DecimalText(d.day)|;
      && k + n + 3 <= |t|
      && AllDigits(t[k + 1..k + 1 + n]) && DigitsValue(t[k + 1..k + 1 + n]) == d.day
      && AllDigits(t[k + 3 + n..]) && DigitsValue(t[k + 3 + n..]) == d.year
  {
    LongDateTextLayout(d);
    DigitsValueOfDecimalText(d.day);
  }

  /** Where the parts of "name day, year" sit once joined. */
  lemma SplitLongDate(t: string, a: string, b: string, c: string)
    requires t == a + " " + b + ", " + c
    ensures var k, n := |a|, |b|;
      && |t| == k + n + 3 + |c|
      && t[..k] == a && t[k] == ' ' && t[k + 1..k + 1 + n] == b
      && t[k + 1 + n..k + 3 + n] == ", " && t[k + 3 + n..] == c
  {
    var k, n := |a|, |b|;
    assert t == a + (" " + (b + (", " + c)));
    assert t[k + 1..] == b + (", " + c);
    assert t[k + 1 + n..] == ", " + c;
  }

  /** The examples of the demo page's date, 2024-06-01. */
  lemma June2024Titles()
    ensures MonthYearText(2024, 6) == "June 2024"
    ensures LongDateText(Date(2024, 6, 1)) == "June 1, 2024"
  {
    YearText2024();
    assert DecimalText(1) == "1";
  }

  lemma YearText2024()
    ensures YearText(2024) == "2024"
  {
    assert DecimalText(2024) == "2024";
    assert PadLeft("2024", 4) == "2024";
  }
}
