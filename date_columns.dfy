/** The per-record date columns of my_plot.py: `julian_days` (line 41),
    `max_days` (line 45) and the angles of line 48, here as the fraction of a
    full turn, `julian_day / max_day`. Each comprehension raises, and so ends
    the script, as soon as one element raises; that is MapAll's None. */
module DateColumns {
  import opened Options
  import opened Strings
  import opened Calendar
  import opened IsoDates

  /** `'-'.join(reversed(date.split('/')))`: 'dd/mm/yyyy' becomes 'yyyy-mm-dd'. */
  function Reformat(date: string): string
  {
    Join('-', Reversed(Split(date, '/')))
  }

  /** The date that line 41 reads from a 'dd/mm/yyyy' string. */
  function ParseDmy(date: string): Option<Date>
  {
    ParseIso(Reformat(date))
  }

  /** One element of `julian_days`: `datestdtojd(...) - 1`, so 1 January is 0. */
  function JulianDay(date: string): (r: Option<int>)
    ensures r.Some? <==> ParseDmy(date).Some?
    ensures r.Some? ==> 0 <= r.value < YearLength(ParseDmy(date).value.year)
    ensures r.Some? ==> (r.value == 0 <==> ParseDmy(date).value.month == 1 && ParseDmy(date).value.day == 1)
    ensures r.Some? ==> r.value == DayOfYear(ParseDmy(date).value) - 1
  {
    match DateStdToJd(Reformat(date))
    case None => None
    case Some(n) => Some(n - 1)
  }

  /** One element of `max_days`: the day of the year of 30 December of the
      year written third in the date (an IndexError when there is no third
      field). */
  function MaxDay(date: string): (r: Option<int>)
    ensures r.Some? <==> var f := Split(date, '/');
      |f| >= 3 && YearField(f[2]) && Decimal(f[2]) >= 1
    ensures r.Some? ==> r.value == if IsLeapYear(Decimal(Split(date, '/')[2])) then 365 else 364
  {
    var fields := Split(date, '/');
    if |fields| < 3 then None
    else
      DecemberThirtiethParse(fields[2]);
      DateStdToJd(fields[2] + "-12-30")
  }

  /** strptime of `y + '-12-30'` succeeds exactly when y is a four-digit year
      from 1 on, and then names 30 December of that year. */
  lemma DecemberThirtiethParse(y: string)
    ensures ParseIso(y + "-12-30") ==
            if YearField(y) && Decimal(y) >= 1 then Some(Date(Decimal(y), 12, 30)) else None
  {
    if '-' in y {
      DashInYear(y);
    } else {
      DashFreeYear(y);
    }
  }

  lemma DashInYear(y: string)
    requires '-' in y
    ensures !YearField(y) && |Split(y + "-12-30", '-')| > 3
  {
    assert y + "-12-30" == y + ['-'] + ("12" + ['-'] + "30");
    SplitAppend(y, "12" + ['-'] + "30", '-');
    SplitWithSeparator(y, '-');
    SplitAppend("12", "30", '-');
    SplitWithoutSeparator("12", '-');
    SplitWithoutSeparator("30", '-');
    var k :| 0 <= k < |y| && y[k] == '-';
    assert !IsDigit(y[k]);
  }

  lemma DashFreeYear(y: string)
    requires '-' !in y
    ensures Split(y + "-12-30", '-') == [y, "12", "30"]
    ensures MonthField("12") && Decimal("12") == 12 && DayField("30") && DayValue("30") == 30
  {
    assert y + "-12-30" == y + ['-'] + "12" + ['-'] + "30";
    SplitThree(y, "12", "30", '-');
    assert "12"[..1] == "1" && "30"[..1] == "3";
  }

  /** Line 48 without the factor 2*pi: the angle as a fraction of a turn. */
  function Turn(julianDay: int, maxDay: int): real
    requires maxDay > 0
  {
    julianDay as real / maxDay as real
  }

  /** A list comprehension over a column: every value, or None when some
      element raises. */
  function MapAll<T>(xs: seq<string>, f: string -> Option<T>): (r: Option<seq<T>>)
    ensures r.Some? <==> forall i :: 0 <= i < |xs| ==> f(xs[i]).Some?
    ensures r.Some? ==> |r.value| == |xs| && forall i :: 0 <= i < |xs| ==> f(xs[i]) == Some(r.value[i])
  {
    if xs == [] then Some([])
    else
      match f(xs[0])
      case None => None
      case Some(v) =>
        match MapAll(xs[1..], f)
        case None => None
        case Some(vs) => Some([v] + vs)
  }

  /** `julian_days` (line 41). */
  function JulianDays(dates: seq<string>): Option<seq<int>>
  {
    MapAll(dates, JulianDay)
  }

  /** `max_days` (line 45). */
  function MaxDays(dates: seq<string>): Option<seq<int>>
  {
    MapAll(dates, MaxDay)
  }

  /** `angles` (line 48), divided by 2*pi. */
  function Turns(dates: seq<string>): (r: Option<seq<real>>)
    ensures r.Some? <==> JulianDays(dates).Some? && MaxDays(dates).Some?
    ensures r.Some? ==> |r.value| == |dates|
    ensures r.Some? ==> forall i :: 0 <= i < |dates| ==>
      ParseDmy(dates[i]).Some? &&
      r.value[i] == Turn(DayOfYear(ParseDmy(dates[i]).value) - 1, YearLength(ParseDmy(dates[i]).value.year) - 1)
  {
    match (JulianDays(dates), MaxDays(dates))
    case (Some(js), Some(ms)) =>
      RecordColumns(dates, js, ms);
      Some(seq(|dates|, i requires 0 <= i < |dates| => Turn(js[i], ms[i])))
    case _ => None
  }

  /** Element i of `julian_days` and of `max_days` are the 0-based day of the
      year of date i and the length of its year minus one. */
  lemma RecordColumns(dates: seq<string>, js: seq<int>, ms: seq<int>)
    requires JulianDays(dates) == Some(js) && MaxDays(dates) == Some(ms)
    ensures |js| == |dates| && |ms| == |dates|
    ensures forall i :: 0 <= i < |dates| ==>
      ParseDmy(dates[i]).Some? &&
      js[i] == DayOfYear(ParseDmy(dates[i]).value) - 1 &&
      ms[i] == YearLength(ParseDmy(dates[i]).value.year) - 1
  {
    forall i | 0 <= i < |dates|
      ensures ParseDmy(dates[i]).Some?
      ensures js[i] == DayOfYear(ParseDmy(dates[i]).value) - 1
      ensures ms[i] == YearLength(ParseDmy(dates[i]).value.year) - 1
    {
      assert JulianDay(dates[i]) == Some(js[i]) && MaxDay(dates[i]) == Some(ms[i]);
      OrdinalWithinDenominator(dates[i]);
    }
  }

  predicate IsDecember31(date: string)
  {
    ParseDmy(date).Some? && ParseDmy(date).value.month == 12 && ParseDmy(date).value.day == 31
  }

  /** Line 41 and line 45 read the same year: when both succeed the
      denominator is the day of the year of 30 December (364 in a common
      year, 365 in a leap year), the ordinal never exceeds it, and it
      reaches it exactly on 31 December. */
  lemma OrdinalWithinDenominator(date: string)
    requires JulianDay(date).Some? && MaxDay(date).Some?
    ensures ParseDmy(date).Some?
    ensures MaxDay(date).value == YearLength(ParseDmy(date).value.year) - 1
    ensures 0 <= JulianDay(date).value <= MaxDay(date).value
    ensures JulianDay(date).value == MaxDay(date).value <==> IsDecember31(date)
  {
    var fields := Split(date, '/');
    var parts := Reversed(fields);
    var d := ParseDmy(date).value;
    JoinThenSplitLength('-', parts);
    assert |fields| == 3;
    JoinThenSplit('-', parts);
    assert Split(Reformat(date), '-')[0] == fields[2];
    assert d.year == Decimal(fields[2]);
    DayOfYearRange(d);
  }

  /** One angle of line 48 lies in [0, 1] turns, and is a full turn exactly on 31 December. */
  lemma TurnWithinOneTurn(date: string, j: int, m: int)
    requires JulianDay(date) == Some(j) && MaxDay(date) == Some(m)
    ensures m > 0 && 0.0 <= Turn(j, m) <= 1.0
    ensures Turn(j, m) == 1.0 <==> IsDecember31(date)
  {
    OrdinalWithinDenominator(date);
    FractionWithinOne(j, m);
  }

  lemma FractionWithinOne(j: int, m: int)
    requires 0 <= j <= m && m > 0
    ensures 0.0 <= Turn(j, m) <= 1.0
    ensures Turn(j, m) == 1.0 <==> j == m
  {
    var t := Turn(j, m);
    assert t * m as real == j as real;
  }

  /** Every angle of line 48 lies in [0, 1] turns, and is a full turn exactly on 31 December. */
  lemma TurnsWithinOneTurn(dates: seq<string>)
    requires Turns(dates).Some?
    ensures forall i :: 0 <= i < |dates| ==>
      0.0 <= Turns(dates).value[i] <= 1.0 && (Turns(dates).value[i] == 1.0 <==> IsDecember31(dates[i]))
  {
    var js, ms := JulianDays(dates).value, MaxDays(dates).value;
    var ts := Turns(dates).value;
    forall i | 0 <= i < |dates|
      ensures 0.0 <= ts[i] <= 1.0 && (ts[i] == 1.0 <==> IsDecember31(dates[i]))
    {
      assert JulianDay(dates[i]) == Some(js[i]) && MaxDay(dates[i]) == Some(ms[i]);
      TurnWithinOneTurn(dates[i], js[i], ms[i]);
      assert ts[i] == Turn(js[i], ms[i]);
    }
  }

  /** Splitting on '/', reversing and joining with '-' turns 'dd/mm/yyyy'
      into 'yyyy-mm-dd', the same three fields in reverse order. */
  lemma ReformatReversesFields(dd: string, mm: string, yyyy: string)
    requires '/' !in dd && '/' !in mm && '/' !in yyyy
    ensures Split(dd + "/" + mm + "/" + yyyy, '/') == [dd, mm, yyyy]
    ensures Reformat(dd + "/" + mm + "/" + yyyy) == yyyy + "-" + mm + "-" + dd
  {
    assert dd + "/" + mm + "/" + yyyy == dd + ['/'] + mm + ['/'] + yyyy;
    SplitThree(dd, mm, yyyy, '/');
    var r := Reversed([dd, mm, yyyy]);
    assert r == [yyyy, mm, dd];
    JoinCons('-', mm, [dd]);
    JoinCons('-', yyyy, [mm, dd]);
  }

  /** For a date string without dashes, splitting the reformatted string on
      '-' gives back the '/'-separated fields in reverse order. */
  lemma ReformatThenSplit(date: string)
    requires '-' !in date
    ensures Split(Reformat(date), '-') == Reversed(Split(date, '/'))
  {
    var fields := Split(date, '/');
    SplitKeepsAbsent(date, '/', '-');
    assert forall i :: 0 <= i < |fields| ==> Reversed(fields)[i] == fields[|fields| - 1 - i];
    JoinThenSplit('-', Reversed(fields));
  }

  /** A valid date written 'dd/mm/yyyy'. */
  function FormatDmy(d: Date): string
    requires ValidDate(d)
  {
    Digits(d.day, 2) + "/" + Digits(d.month, 2) + "/" + Digits(d.year, 4)
  }

  /** For every valid date written 'dd/mm/yyyy', line 41 gives its 0-based day
      of the year and line 45 gives 364 or 365 by the leap-year rule. */
  lemma ColumnsOfFormattedDate(d: Date)
    requires ValidDate(d)
    ensures Reformat(FormatDmy(d)) == FormatIso(d)
    ensures JulianDay(FormatDmy(d)) == Some(DayOfYear(d) - 1)
    ensures MaxDay(FormatDmy(d)) == Some(YearLength(d.year) - 1)
  {
    FormatDmyFields(d);
    JulianDayOfFormatted(d);
    MaxDayOfFormatted(d);
  }

  lemma JulianDayOfFormatted(d: Date)
    requires ValidDate(d)
    requires Reformat(FormatDmy(d)) == FormatIso(d)
    ensures JulianDay(FormatDmy(d)) == Some(DayOfYear(d) - 1)
  {
    ParseFormatIso(d);
    assert DateStdToJd(FormatIso(d)) == Some(DayOfYear(d));
  }

  lemma MaxDayOfFormatted(d: Date)
    requires ValidDate(d)
    requires Split(FormatDmy(d), '/') == [Digits(d.day, 2), Digits(d.month, 2), Digits(d.year, 4)]
    ensures MaxDay(FormatDmy(d)) == Some(YearLength(d.year) - 1)
  {
    var yyyy := Digits(d.year, 4);
    DecimalOfDigits(d.year, 4);
    assert YearField(yyyy) && Decimal(yyyy) == d.year;
  }

  /** 'dd/mm/yyyy' splits into its three fields and reformats to 'yyyy-mm-dd'. */
  lemma FormatDmyFields(d: Date)
    requires ValidDate(d)
    ensures Split(FormatDmy(d), '/') == [Digits(d.day, 2), Digits(d.month, 2), Digits(d.year, 4)]
    ensures Reformat(FormatDmy(d)) == FormatIso(d)
  {
    var dd, mm, yyyy := Digits(d.day, 2), Digits(d.month, 2), Digits(d.year, 4);
    DigitsHaveNoSeparator(d.day, 2, '/');
    DigitsHaveNoSeparator(d.month, 2, '/');
    DigitsHaveNoSeparator(d.year, 4, '/');
    ReformatReversesFields(dd, mm, yyyy);
  }

  /** The comment on line 40 ("31 december = 364") holds in common years
      only; in a leap year 31 December is 365. */
  lemma December31Ordinal(y: int)
    requires 1 <= y <= 9999
    ensures JulianDay(FormatDmy(Date(y, 12, 31))) == Some(if IsLeapYear(y) then 365 else 364)
  {
    ColumnsOfFormattedDate(Date(y, 12, 31));
  }

  /** 31 December of the leap year 2020 is day 365 of line 41 and has the
      denominator 365. */
  lemma LeapYearEnd(date: string)
    requires date == "31/12/2020"
    ensures JulianDay(date) == Some(365) && MaxDay(date) == Some(365)
  {
    assert date == "31/12/" + "2020";
    assert Digits(2, 1) == "2" && Digits(20, 2) == Digits(2, 1) + "0";
    assert Digits(202, 3) == Digits(20, 2) + "2";
    assert Digits(2020, 4) == Digits(202, 3) + "0";
    Dec31Written(2020, "2020", date);
    assert YearLength(2020) == 366;
  }

  /** 31 December of the common year 2021 is day 364 of line 41 and has the
      denominator 364. */
  lemma CommonYearEnd(date: string)
    requires date == "31/12/2021"
    ensures JulianDay(date) == Some(364) && MaxDay(date) == Some(364)
  {
    assert date == "31/12/" + "2021";
    assert Digits(2, 1) == "2" && Digits(20, 2) == Digits(2, 1) + "0";
    assert Digits(202, 3) == Digits(20, 2) + "2";
    assert Digits(2021, 4) == Digits(202, 3) + "1";
    Dec31Written(2021, "2021", date);
    assert YearLength(2021) == 365;
  }

  lemma Dec31Written(y: int, yyyy: string, date: string)
    requires 1 <= y <= 9999 && Digits(y, 4) == yyyy && date == "31/12/" + yyyy
    ensures JulianDay(date) == Some(YearLength(y) - 1)
    ensures MaxDay(date) == Some(YearLength(y) - 1)
  {
    var d := Date(y, 12, 31);
    Dec31Text(y, yyyy, date);
    ColumnsOfFormattedDate(d);
    DayOfYearRange(d);
  }

  lemma Dec31Text(y: int, yyyy: string, date: string)
    requires 1 <= y <= 9999 && Digits(y, 4) == yyyy && date == "31/12/" + yyyy
    ensures FormatDmy(Date(y, 12, 31)) == date
  {
    assert Digits(3, 1) == "3" && Digits(1, 1) == "1";
    assert Digits(31, 2) == Digits(3, 1) + "1";
    assert Digits(12, 2) == Digits(1, 1) + "2";
  }
}
