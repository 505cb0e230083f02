/** The x axis of the plot: `year2tic` (my_plot.py:113-114) places the
    distinct years at 0, 1, 2, ... whatever gaps lie between them, and line
    138 shortens each year label to two lines. */
module Ticks {
  import opened Strings
  import opened SortedSets
  import opened Grouping

  /** `all_years` (line 113): the distinct values of the Year column, ascending. */
  function AllYears(records: seq<Observation>): seq<string>
  {
    SortedDistinct(Values(records, YearColumn))
  }

  /** `{year: i for i, year in enumerate(years)}`: entries are inserted in
      order, a later one replacing an earlier one with the same key. */
  function TickMap(years: seq<string>): (m: map<string, int>)
    ensures m.Keys == set y | y in years
  {
    if years == [] then map[]
    else TickMap(years[..|years| - 1])[years[|years| - 1] := |years| - 1]
  }

  /** Each of the distinct years is mapped to its own position. */
  lemma {:induction false} TickMapIndex(years: seq<string>, i: int)
    requires StrictlySorted(years) && 0 <= i < |years|
    ensures years[i] in TickMap(years) && TickMap(years)[years[i]] == i
  {
    var n := |years|;
    if i < n - 1 {
      var init := years[..n - 1];
      TickMapIndex(init, i);
      StrictlySortedDistinct(years, i, n - 1);
    }
  }

  /** On the sorted distinct years the tick map is a bijection onto 0 .. n-1. */
  lemma TickMapBijection(years: seq<string>)
    requires StrictlySorted(years)
    ensures forall t :: 0 <= t < |years| ==> years[t] in TickMap(years) && TickMap(years)[years[t]] == t
    ensures forall y :: y in TickMap(years) ==> 0 <= TickMap(years)[y] < |years| && years[TickMap(years)[y]] == y
  {
    var m := TickMap(years);
    forall t | 0 <= t < |years| ensures years[t] in m && m[years[t]] == t {
      TickMapIndex(years, t);
    }
    forall y | y in m ensures 0 <= m[y] < |years| && years[m[y]] == y {
      var t :| 0 <= t < |years| && years[t] == y;
      TickMapIndex(years, t);
    }
  }

  /** The tick map preserves the order of the years, in both directions. */
  lemma TickMapOrder(years: seq<string>, a: string, b: string)
    requires StrictlySorted(years) && a in TickMap(years) && b in TickMap(years)
    ensures LexLess(a, b) <==> TickMap(years)[a] < TickMap(years)[b]
  {
    TickMapBijection(years);
    var i, j := TickMap(years)[a], TickMap(years)[b];
    if j < i {
      LexLessAsymmetric(years[j], years[i]);
    } else if i == j {
      LexLessIrreflexive(a);
    }
  }

  /** Every year of an emitted group has a tick, so `year2tic[year]` at line
      127 never misses. */
  lemma EveryGroupYearHasATick(records: seq<Observation>, k: Key)
    requires k in GroupKeys(records)
    ensures k.year in TickMap(AllYears(records))
  {
    GroupKeysMembership(records, k);
    var o :| o in records && KeyOf(o) == k;
    ValuesMembership(records, YearColumn, o.year);
  }

  /** Line 138: `year[:4] + '/\n' + year[5:9]`. */
  function ShortLabel(year: string): string
  {
    Slice(year, 0, 4) + "/\n" + Slice(year, 5, 9)
  }

  /** The shortened labels, one per year, in order. */
  function ShortLabels(years: seq<string>): seq<string>
  {
    seq(|years|, i requires 0 <= i < |years| => ShortLabel(years[i]))
  }

  /** A season label 'aaaa/bbbb' becomes 'aaaa/' over 'bbbb'. */
  lemma ShortLabelOfSeason(a: string, b: string)
    requires |a| == 4 && |b| == 4
    ensures ShortLabel(a + "/" + b) == a + "/\n" + b
  {
    var y := a + "/" + b;
    assert Slice(y, 0, 4) == a;
    assert Slice(y, 5, 9) == b;
  }

  /** Taking the line break out of the label of a nine-character season
      label 'aaaa/bbbb' gives the label back: nothing else is lost. */
  lemma ShortLabelKeepsSeason(year: string)
    requires |year| == 9 && year[4] == '/'
    ensures ShortLabel(year)[..5] + ShortLabel(year)[6..] == year
  {
    ShortLabelOfSeason(year[..4], year[5..]);
    assert year == year[..4] + "/" + year[5..];
  }

  /** Line 138 on a column of season labels 'aaaa/bbbb': one label per year,
      in order, and each gives its year back once the line break is removed. */
  lemma ShortLabelsKeepSeasons(years: seq<string>)
    requires forall i :: 0 <= i < |years| ==> |years[i]| == 9 && years[i][4] == '/'
    ensures |ShortLabels(years)| == |years|
    ensures forall i :: 0 <= i < |years| ==> ShortLabels(years)[i][..5] + ShortLabels(years)[i][6..] == years[i]
  {
    forall i | 0 <= i < |years|
      ensures ShortLabels(years)[i][..5] + ShortLabels(years)[i][6..] == years[i]
    {
      ShortLabelKeepsSeason(years[i]);
    }
  }

  /** The label keeps at most the first four characters and the four after
      the fifth, with '/' and a line break between them. */
  lemma ShortLabelShape(year: string)
    ensures |ShortLabel(year)| <= 10
    ensures |year| >= 4 ==> ShortLabel(year)[..4] == year[..4] && ShortLabel(year)[4..6] == "/\n"
    ensures |year| >= 9 ==> ShortLabel(year)[6..] == year[5..9]
  {
  }
}
