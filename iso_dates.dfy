/** `datestdtojd` (my_plot.py:14-19): parse a 'yyyy-mm-dd' string with
    `datetime.strptime(s, '%Y-%m-%d')` and return `tm_yday`. strptime is
    modelled by the field patterns it matches ('%Y' four digits, '%m'
    `1[0-2]|0[1-9]|[1-9]`, '%d' `3[01]|[12]\d|0[1-9]|[1-9]| [1-9]`, the whole
    string consumed) and by datetime's own check that the date exists. */
module IsoDates {
  import opened Options
  import opened Strings
  import opened Calendar

  predicate IsDigit(c: char)
  {
    '0' <= c <= '9'
  }

  predicate AllDigits(s: string)
  {
    forall i :: 0 <= i < |s| ==> IsDigit(s[i])
  }

  function Pow10(k: nat): nat
  {
    if k == 0 then 1 else 10 * Pow10(k - 1)
  }

  /** The value of a string of decimal digits; k digits stay below 10^k. */
  function Decimal(s: string): (n: nat)
    requires AllDigits(s)
    ensures n < Pow10(|s|)
  {
    if s == [] then 0
    else 10 * Decimal(s[..|s| - 1]) + (s[|s| - 1] as int - '0' as int)
  }

  /** '%Y': exactly four digits. */
  predicate YearField(f: string)
  {
    |f| == 4 && AllDigits(f)
  }

  /** '%m': one or two digits naming 1 to 12. */
  predicate MonthField(f: string)
  {
    1 <= |f| <= 2 && AllDigits(f) && 1 <= Decimal(f) <= 12
  }

  /** '%d': one or two digits naming 1 to 31, or a space and a digit 1 to 9. */
  predicate DayField(f: string)
  {
    (1 <= |f| <= 2 && AllDigits(f) && 1 <= Decimal(f) <= 31)
    || (|f| == 2 && f[0] == ' ' && '1' <= f[1] <= '9')
  }

  function DayValue(f: string): int
    requires DayField(f)
  {
    if f[0] == ' ' then Decimal(f[1..]) else Decimal(f)
  }

  /** `strptime(s, '%Y-%m-%d')`; None where it raises ValueError. No field
      pattern matches '-', so the match splits the string at its dashes. */
  function ParseIso(s: string): (r: Option<Date>)
    ensures r.Some? ==> ValidDate(r.value)
  {
    var f := Split(s, '-');
    if |f| == 3 && YearField(f[0]) && MonthField(f[1]) && DayField(f[2]) then
      var d := Date(Decimal(f[0]), Decimal(f[1]), DayValue(f[2]));
      if ValidDate(d) then Some(d) else None
    else None
  }

  /** `datestdtojd(s)`: the 1-based day of the year of an ISO date string. */
  function DateStdToJd(s: string): (r: Option<int>)
    ensures r.Some? <==> ParseIso(s).Some?
    ensures r.Some? ==> 1 <= r.value <= YearLength(ParseIso(s).value.year)
    ensures r.Some? ==> (r.value == 1 <==> ParseIso(s).value.month == 1 && ParseIso(s).value.day == 1)
    ensures r.Some? ==> r.value == DayOfYear(ParseIso(s).value)
  {
    match ParseIso(s)
    case None => None
    case Some(d) =>
      DayOfYearRange(d);
      Some(DayOfYear(d))
  }

  /** n written with exactly `width` digits, zero-padded on the left. */
  function Digits(n: nat, width: nat): (s: string)
    ensures |s| == width && AllDigits(s)
  {
    if width == 0 then ""
    else Digits(n / 10, width - 1) + [('0' as int + n % 10) as char]
  }

  lemma {:induction false} DecimalOfDigits(n: nat, width: nat)
    requires n < Pow10(width)
    ensures Decimal(Digits(n, width)) == n
  {
    if width > 0 {
      var s := Digits(n, width);
      assert s[..|s| - 1] == Digits(n / 10, width - 1);
      assert s[|s| - 1] as int - '0' as int == n % 10;
      assert n / 10 < Pow10(width - 1);
      DecimalOfDigits(n / 10, width - 1);
      assert n == 10 * (n / 10) + n % 10;
    }
  }

  lemma DigitsHaveNoSeparator(n: nat, width: nat, sep: char)
    requires !IsDigit(sep)
    ensures sep !in Digits(n, width)
  {
  }

  /** A date written 'yyyy-mm-dd', zero-padded. */
  function FormatIso(d: Date): string
    requires ValidDate(d)
  {
    Digits(d.year, 4) + "-" + Digits(d.month, 2) + "-" + Digits(d.day, 2)
  }

  /** Splitting a string made of three dash-free fields joined by a separator gives the three fields. */
  lemma SplitThree(a: string, b: string, c: string, sep: char)
    requires sep !in a && sep !in b && sep !in c
    ensures Split(a + [sep] + b + [sep] + c, sep) == [a, b, c]
  {
    SplitAppend(a + [sep] + b, c, sep);
    SplitAppend(a, b, sep);
    SplitWithoutSeparator(a, sep);
    SplitWithoutSeparator(b, sep);
    SplitWithoutSeparator(c, sep);
  }

  lemma SplitFormatIso(d: Date)
    requires ValidDate(d)
    ensures Split(FormatIso(d), '-') == [Digits(d.year, 4), Digits(d.month, 2), Digits(d.day, 2)]
  {
    var y, m, dd := Digits(d.year, 4), Digits(d.month, 2), Digits(d.day, 2);
    DigitsHaveNoSeparator(d.year, 4, '-');
    DigitsHaveNoSeparator(d.month, 2, '-');
    DigitsHaveNoSeparator(d.day, 2, '-');
    SplitThree(y, m, dd, '-');
  }

  lemma FieldsOfIso(d: Date)
    requires ValidDate(d)
    ensures YearField(Digits(d.year, 4)) && Decimal(Digits(d.year, 4)) == d.year
    ensures MonthField(Digits(d.month, 2)) && Decimal(Digits(d.month, 2)) == d.month
    ensures DayField(Digits(d.day, 2)) && DayValue(Digits(d.day, 2)) == d.day
  {
    DecimalOfDigits(d.year, 4);
    DecimalOfDigits(d.month, 2);
    DecimalOfDigits(d.day, 2);
    assert Digits(d.day, 2)[0] != ' ';
  }

  /** strptime reads back every valid date written in ISO form. */
  lemma ParseFormatIso(d: Date)
    requires ValidDate(d)
    ensures ParseIso(FormatIso(d)) == Some(d)
  {
    SplitFormatIso(d);
    FieldsOfIso(d);
  }
}
