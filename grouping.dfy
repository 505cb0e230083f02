/** The grouping of my_plot.py (lines 69-104): for each season in
    ['Arrival', 'Departure'], each lake of `sorted(set(df['Lake']))` and each
    year of `sorted(set(...['Year']))` found for that season and lake, one row
    is appended to each of the four lists `yearV`, `arrdepV`, `lakeV` and
    `rhoV`. The mean resultant length rho of a group is a floating-point
    computation on the group's members; it is a parameter here. */
module Grouping {
  import opened Strings
  import opened SortedSets

  /** One row of the input table: the Date, Lake, Departure/Arrival and Year columns. */
  datatype Observation = Observation(date: string, lake: string, season: string, year: string)

  datatype Column = LakeColumn | SeasonColumn | YearColumn

  function Field(o: Observation, c: Column): string
  {
    match c
    case LakeColumn => o.lake
    case SeasonColumn => o.season
    case YearColumn => o.year
  }

  /** `df[df[c] == v]`: the rows whose column c equals v, in table order. */
  function Where(rs: seq<Observation>, c: Column, v: string): (r: seq<Observation>)
    ensures |r| <= |rs|
    ensures forall o :: o in r <==> o in rs && Field(o, c) == v
  {
    if rs == [] then []
    else (if Field(rs[0], c) == v then [rs[0]] else []) + Where(rs[1..], c, v)
  }

  /** The filter keeps each matching row as many times as it occurs, and
      drops every other row. */
  lemma {:induction false} WhereKeepsCounts(rs: seq<Observation>, c: Column, v: string)
    ensures forall o :: multiset(Where(rs, c, v))[o] == if Field(o, c) == v then multiset(rs)[o] else 0
  {
    if rs != [] {
      assert rs == [rs[0]] + rs[1..];
      WhereKeepsCounts(rs[1..], c, v);
    }
  }

  /** The column `df[c]` as a list. */
  function Values(rs: seq<Observation>, c: Column): seq<string>
  {
    seq(|rs|, i requires 0 <= i < |rs| => Field(rs[i], c))
  }

  lemma ValuesMembership(rs: seq<Observation>, c: Column, v: string)
    ensures v in Values(rs, c) <==> exists o :: o in rs && Field(o, c) == v
  {
    if exists o :: o in rs && Field(o, c) == v {
      var o :| o in rs && Field(o, c) == v;
      var i :| 0 <= i < |rs| && rs[i] == o;
      assert Values(rs, c)[i] == v;
    }
  }

  /** `arrdeps` (line 69). */
  const Seasons: seq<string> := ["Arrival", "Departure"]

  /** Position of a season in `arrdeps`; other values of the column come after. */
  function SeasonRank(s: string): int
  {
    if s == "Arrival" then 0 else if s == "Departure" then 1 else 2
  }

  /** A group: the (season, lake, year) triple of one result row. */
  datatype Key = Key(season: string, lake: string, year: string)

  function KeyOf(o: Observation): Key
  {
    Key(o.season, o.lake, o.year)
  }

  /** The order in which the loops emit groups: season as in `arrdeps`, then
      lake, then year, both in Python's string order. */
  predicate KeyLess(a: Key, b: Key)
  {
    SeasonRank(a.season) < SeasonRank(b.season)
    || (SeasonRank(a.season) == SeasonRank(b.season)
        && (LexLess(a.lake, b.lake) || (a.lake == b.lake && LexLess(a.year, b.year))))
  }

  predicate KeysSorted(ks: seq<Key>)
  {
    forall i, j :: 0 <= i < j < |ks| ==> KeyLess(ks[i], ks[j])
  }

  /** `df_subbb` (line 98): the members of a group. */
  function Members(records: seq<Observation>, k: Key): seq<Observation>
  {
    Where(Where(Where(records, SeasonColumn, k.season), LakeColumn, k.lake), YearColumn, k.year)
  }

  /** `lakes` (line 70), taken over the whole table. */
  function Lakes(records: seq<Observation>): seq<string>
  {
    SortedDistinct(Values(records, LakeColumn))
  }

  /** `years` (line 88) for the rows of one season and lake. */
  function YearsOf(subb: seq<Observation>): seq<string>
  {
    SortedDistinct(Values(subb, YearColumn))
  }

  /** The groups of the innermost loop. */
  function YearKeys(season: string, lake: string, years: seq<string>): seq<Key>
  {
    seq(|years|, i requires 0 <= i < |years| => Key(season, lake, years[i]))
  }

  /** The groups of the middle loop over the given lakes, for the rows `sub` of one season. */
  function LakeKeys(sub: seq<Observation>, season: string, lakes: seq<string>): seq<Key>
    decreases |lakes|
  {
    if lakes == [] then []
    else
      var lake := lakes[|lakes| - 1];
      LakeKeys(sub, season, lakes[..|lakes| - 1]) + YearKeys(season, lake, YearsOf(Where(sub, LakeColumn, lake)))
  }

  /** The groups of the outer loop over the given seasons. */
  function SeasonKeys(records: seq<Observation>, seasons: seq<string>, lakes: seq<string>): seq<Key>
    decreases |seasons|
  {
    if seasons == [] then []
    else
      var season := seasons[|seasons| - 1];
      SeasonKeys(records, seasons[..|seasons| - 1], lakes) + LakeKeys(Where(records, SeasonColumn, season), season, lakes)
  }

  /** The groups the script emits, in emission order. */
  function GroupKeys(records: seq<Observation>): seq<Key>
  {
    SeasonKeys(records, Seasons, Lakes(records))
  }

  /** The group each row of the three key columns names. */
  function Rows(arrdepV: seq<string>, lakeV: seq<string>, yearV: seq<string>): seq<Key>
    requires |arrdepV| == |yearV| && |lakeV| == |yearV|
  {
    seq(|yearV|, i requires 0 <= i < |yearV| => Key(arrdepV[i], lakeV[i], yearV[i]))
  }

  /** The four lists have one length, and the rho of each row is that of the
      members of the row's group. */
  ghost predicate Columns<R>(records: seq<Observation>, rho: seq<Observation> -> R,
                             yearV: seq<string>, arrdepV: seq<string>, lakeV: seq<string>, rhoV: seq<R>)
  {
    && |arrdepV| == |yearV| && |lakeV| == |yearV| && |rhoV| == |yearV|
    && forall i :: 0 <= i < |yearV| ==> rhoV[i] == rho(Members(records, Key(arrdepV[i], lakeV[i], yearV[i])))
  }

  lemma ColumnsAppend<R>(records: seq<Observation>, rho: seq<Observation> -> R,
                         yearV: seq<string>, arrdepV: seq<string>, lakeV: seq<string>, rhoV: seq<R>, k: Key)
    requires Columns(records, rho, yearV, arrdepV, lakeV, rhoV)
    ensures Columns(records, rho, yearV + [k.year], arrdepV + [k.season], lakeV + [k.lake], rhoV + [rho(Members(records, k))])
    ensures Rows(arrdepV + [k.season], lakeV + [k.lake], yearV + [k.year]) == Rows(arrdepV, lakeV, yearV) + [k]
  {
    var years, seasons, lakes, rhos := yearV + [k.year], arrdepV + [k.season], lakeV + [k.lake], rhoV + [rho(Members(records, k))];
    forall i | 0 <= i < |years| ensures rhos[i] == rho(Members(records, Key(seasons[i], lakes[i], years[i]))) {
      if i < |yearV| {
        assert rhos[i] == rhoV[i] && years[i] == yearV[i] && seasons[i] == arrdepV[i] && lakes[i] == lakeV[i];
      }
    }
    var before, after := Rows(arrdepV, lakeV, yearV), Rows(seasons, lakes, years);
    assert forall i :: 0 <= i < |before| ==> after[i] == before[i];
  }

  lemma YearKeysExtend(season: string, lake: string, years: seq<string>, y: int)
    requires 0 <= y < |years|
    ensures YearKeys(season, lake, years[..y + 1]) == YearKeys(season, lake, years[..y]) + [Key(season, lake, years[y])]
  {
  }

  /** Lines 88-102: one row per year found for one season and lake. */
  method AppendYearRows<R>(records: seq<Observation>, rho: seq<Observation> -> R,
                           arrdep: string, lake: string, subb: seq<Observation>,
                           yearV: seq<string>, arrdepV: seq<string>, lakeV: seq<string>, rhoV: seq<R>)
    returns (yearV': seq<string>, arrdepV': seq<string>, lakeV': seq<string>, rhoV': seq<R>)
    requires subb == Where(Where(records, SeasonColumn, arrdep), LakeColumn, lake)
    requires Columns(records, rho, yearV, arrdepV, lakeV, rhoV)
    ensures Columns(records, rho, yearV', arrdepV', lakeV', rhoV')
    ensures Rows(arrdepV', lakeV', yearV') == Rows(arrdepV, lakeV, yearV) + YearKeys(arrdep, lake, YearsOf(subb))
  {
    var years := YearsOf(subb);
    yearV', arrdepV', lakeV', rhoV' := yearV, arrdepV, lakeV, rhoV;
    for y := 0 to |years|
      invariant Columns(records, rho, yearV', arrdepV', lakeV', rhoV')
      invariant Rows(arrdepV', lakeV', yearV') == Rows(arrdepV, lakeV, yearV) + YearKeys(arrdep, lake, years[..y])
    {
      var year := years[y];
      var members := Where(subb, YearColumn, year);
      ColumnsAppend(records, rho, yearV', arrdepV', lakeV', rhoV', Key(arrdep, lake, year));
      YearKeysExtend(arrdep, lake, years, y);
      ghost var before := Rows(arrdepV', lakeV', yearV');
      yearV' := yearV' + [year];
      arrdepV' := arrdepV' + [arrdep];
      lakeV' := lakeV' + [lake];
      rhoV' := rhoV' + [rho(members)];
      ConcatStep(Rows(arrdepV, lakeV, yearV), YearKeys(arrdep, lake, years[..y]), [Key(arrdep, lake, year)],
                 before, Rows(arrdepV', lakeV', yearV'));
    }
    assert years[..|years|] == years;
  }

  lemma LakeKeysExtend(sub: seq<Observation>, season: string, lakes: seq<string>, l: int)
    requires 0 <= l < |lakes|
    ensures LakeKeys(sub, season, lakes[..l + 1])
         == LakeKeys(sub, season, lakes[..l]) + YearKeys(season, lakes[l], YearsOf(Where(sub, LakeColumn, lakes[l])))
  {
    assert lakes[..l + 1][..l] == lakes[..l];
  }

  /** Appending twice is appending the concatenation. */
  lemma ConcatStep<T>(base: seq<T>, a: seq<T>, b: seq<T>, r1: seq<T>, r2: seq<T>)
    requires r1 == base + a && r2 == r1 + b
    ensures r2 == base + (a + b)
  {
  }

  /** Lines 83-102: the rows of every lake, in the order of `lakes`, for one season. */
  method AppendLakeRows<R>(records: seq<Observation>, rho: seq<Observation> -> R,
                           arrdep: string, sub: seq<Observation>, lakes: seq<string>,
                           yearV: seq<string>, arrdepV: seq<string>, lakeV: seq<string>, rhoV: seq<R>)
    returns (yearV': seq<string>, arrdepV': seq<string>, lakeV': seq<string>, rhoV': seq<R>)
    requires sub == Where(records, SeasonColumn, arrdep)
    requires Columns(records, rho, yearV, arrdepV, lakeV, rhoV)
    ensures Columns(records, rho, yearV', arrdepV', lakeV', rhoV')
    ensures Rows(arrdepV', lakeV', yearV') == Rows(arrdepV, lakeV, yearV) + LakeKeys(sub, arrdep, lakes)
  {
    yearV', arrdepV', lakeV', rhoV' := yearV, arrdepV, lakeV, rhoV;
    for l := 0 to |lakes|
      invariant Columns(records, rho, yearV', arrdepV', lakeV', rhoV')
      invariant Rows(arrdepV', lakeV', yearV') == Rows(arrdepV, lakeV, yearV) + LakeKeys(sub, arrdep, lakes[..l])
    {
      var lake := lakes[l];
      var subb := Where(sub, LakeColumn, lake);
      ghost var before := Rows(arrdepV', lakeV', yearV');
      yearV', arrdepV', lakeV', rhoV' := AppendYearRows(records, rho, arrdep, lake, subb, yearV', arrdepV', lakeV', rhoV');
      LakeKeysExtend(sub, arrdep, lakes, l);
      ConcatStep(Rows(arrdepV, lakeV, yearV), LakeKeys(sub, arrdep, lakes[..l]), YearKeys(arrdep, lake, YearsOf(subb)),
                 before, Rows(arrdepV', lakeV', yearV'));
    }
    assert lakes[..|lakes|] == lakes;
  }

  lemma SeasonKeysExtend(records: seq<Observation>, seasons: seq<string>, lakes: seq<string>, s: int)
    requires 0 <= s < |seasons|
    ensures SeasonKeys(records, seasons[..s + 1], lakes)
         == SeasonKeys(records, seasons[..s], lakes) + LakeKeys(Where(records, SeasonColumn, seasons[s]), seasons[s], lakes)
  {
    assert seasons[..s + 1][..s] == seasons[..s];
  }

  /** Lines 69-104: the four result columns, one row per group, in the
      order of GroupKeys; row i holds the rho of group i's members. */
  method GroupRows<R>(records: seq<Observation>, rho: seq<Observation> -> R)
    returns (yearV: seq<string>, arrdepV: seq<string>, lakeV: seq<string>, rhoV: seq<R>)
    ensures |yearV| == |arrdepV| == |lakeV| == |rhoV| == |GroupKeys(records)|
    ensures forall i :: 0 <= i < |rhoV| ==>
      GroupKeys(records)[i] == Key(arrdepV[i], lakeV[i], yearV[i])
      && rhoV[i] == rho(Members(records, GroupKeys(records)[i]))
    ensures forall o :: o in records && IsSeason(o.season) ==> KeyOf(o) in Rows(arrdepV, lakeV, yearV)
    ensures forall i :: 0 <= i < |yearV| ==>
      IsSeason(arrdepV[i]) && |Members(records, Key(arrdepV[i], lakeV[i], yearV[i]))| > 0
    ensures forall i, j :: 0 <= i < j < |yearV| ==>
      KeyLess(Key(arrdepV[i], lakeV[i], yearV[i]), Key(arrdepV[j], lakeV[j], yearV[j]))
  {
    var arrdeps := Seasons;
    var lakes := Lakes(records);
    yearV, arrdepV, lakeV, rhoV := [], [], [], [];
    for s := 0 to |arrdeps|
      invariant Columns(records, rho, yearV, arrdepV, lakeV, rhoV)
      invariant Rows(arrdepV, lakeV, yearV) == SeasonKeys(records, arrdeps[..s], lakes)
    {
      var arrdep := arrdeps[s];
      var sub := Where(records, SeasonColumn, arrdep);
      yearV, arrdepV, lakeV, rhoV := AppendLakeRows(records, rho, arrdep, sub, lakes, yearV, arrdepV, lakeV, rhoV);
      SeasonKeysExtend(records, arrdeps, lakes, s);
    }
    assert arrdeps[..|arrdeps|] == arrdeps;
    var rows := Rows(arrdepV, lakeV, yearV);
    assert forall i :: 0 <= i < |yearV| ==> rows[i] == Key(arrdepV[i], lakeV[i], yearV[i]);
    forall o | o in records && IsSeason(o.season) ensures KeyOf(o) in rows {
      GroupKeysMembership(records, KeyOf(o));
    }
    forall i | 0 <= i < |yearV|
      ensures IsSeason(arrdepV[i]) && |Members(records, Key(arrdepV[i], lakeV[i], yearV[i]))| > 0
    {
      assert rows[i] in GroupKeys(records);
      GroupKeysMembership(records, rows[i]);
      GroupsNonEmpty(records, rows[i]);
    }
    GroupKeysSorted(records);
  }

  predicate IsSeason(s: string)
  {
    s == "Arrival" || s == "Departure"
  }

  lemma YearKeysMembership(season: string, lake: string, years: seq<string>, k: Key)
    ensures k in YearKeys(season, lake, years) <==> k.season == season && k.lake == lake && k.year in years
  {
    if k.season == season && k.lake == lake && k.year in years {
      var i :| 0 <= i < |years| && years[i] == k.year;
      assert YearKeys(season, lake, years)[i] == k;
    }
  }

  lemma {:induction false} LakeKeysMembership(sub: seq<Observation>, season: string, lakes: seq<string>, k: Key)
    ensures k in LakeKeys(sub, season, lakes) <==>
            k.season == season && k.lake in lakes && k.year in YearsOf(Where(sub, LakeColumn, k.lake))
  {
    if lakes != [] {
      var init, last := lakes[..|lakes| - 1], lakes[|lakes| - 1];
      LakeKeysMembership(sub, season, init, k);
      YearKeysMembership(season, last, YearsOf(Where(sub, LakeColumn, last)), k);
      assert lakes == init + [last];
    }
  }

  lemma {:induction false} SeasonKeysMembership(records: seq<Observation>, seasons: seq<string>, lakes: seq<string>, k: Key)
    ensures k in SeasonKeys(records, seasons, lakes) <==>
            k.season in seasons && k in LakeKeys(Where(records, SeasonColumn, k.season), k.season, lakes)
  {
    if seasons != [] {
      var init, last := seasons[..|seasons| - 1], seasons[|seasons| - 1];
      SeasonKeysMembership(records, init, lakes, k);
      LakeKeysMembership(Where(records, SeasonColumn, last), last, lakes, k);
      assert seasons == init + [last];
    }
  }

  /** A year is listed for a season and lake exactly when some record has that triple. */
  lemma YearListed(records: seq<Observation>, k: Key)
    ensures k.year in YearsOf(Where(Where(records, SeasonColumn, k.season), LakeColumn, k.lake))
            <==> exists o :: o in records && KeyOf(o) == k
  {
    var subb := Where(Where(records, SeasonColumn, k.season), LakeColumn, k.lake);
    ValuesMembership(subb, YearColumn, k.year);
    if exists o :: o in records && KeyOf(o) == k {
      var o :| o in records && KeyOf(o) == k;
      assert o in subb;
    }
  }

  lemma LakeListed(records: seq<Observation>, o: Observation)
    requires o in records
    ensures o.lake in Lakes(records)
  {
    ValuesMembership(records, LakeColumn, o.lake);
  }

  /** The script emits a row for a (season, lake, year) triple exactly when
      the season is Arrival or Departure and some record has that triple. */
  lemma GroupKeysMembership(records: seq<Observation>, k: Key)
    ensures k in GroupKeys(records) <==> IsSeason(k.season) && exists o :: o in records && KeyOf(o) == k
  {
    var lakes := Lakes(records);
    SeasonKeysMembership(records, Seasons, lakes, k);
    assert k.season in Seasons <==> IsSeason(k.season);
    LakeKeysMembership(Where(records, SeasonColumn, k.season), k.season, lakes, k);
    YearListed(records, k);
    ghost var occurs := exists o :: o in records && KeyOf(o) == k;
    if occurs {
      var o :| o in records && KeyOf(o) == k;
      LakeListed(records, o);
      assert k.lake in lakes;
    }
  }

  /** The members of an emitted group are exactly the records with its
      triple, and there is at least one: rho is never taken of an empty group. */
  lemma GroupsNonEmpty(records: seq<Observation>, k: Key)
    requires k in GroupKeys(records)
    ensures |Members(records, k)| > 0
    ensures forall o :: o in Members(records, k) <==> o in records && KeyOf(o) == k
  {
    GroupKeysMembership(records, k);
    MembersHaveKey(records, k);
    var o :| o in records && KeyOf(o) == k;
    assert o in Members(records, k);
  }

  /** `df_subbb` keeps every record with the group's triple, as many times
      as it occurs in the table, and no other record: the count that the
      means of lines 99-100 divide by. */
  lemma MembersHaveKey(records: seq<Observation>, k: Key)
    ensures forall o :: o in Members(records, k) <==> o in records && KeyOf(o) == k
    ensures forall o :: multiset(Members(records, k))[o] == if KeyOf(o) == k then multiset(records)[o] else 0
  {
    var sub := Where(records, SeasonColumn, k.season);
    var subb := Where(sub, LakeColumn, k.lake);
    WhereKeepsCounts(records, SeasonColumn, k.season);
    WhereKeepsCounts(sub, LakeColumn, k.lake);
    WhereKeepsCounts(subb, YearColumn, k.year);
    assert Members(records, k) == Where(subb, YearColumn, k.year);
    forall o ensures o in Members(records, k) <==> o in records && KeyOf(o) == k {
      assert o in subb <==> o in sub && o.lake == k.lake;
      assert o in sub <==> o in records && o.season == k.season;
    }
  }

  lemma KeysSortedConcat(a: seq<Key>, b: seq<Key>)
    requires KeysSorted(a) && KeysSorted(b)
    requires forall x, y :: x in a && y in b ==> KeyLess(x, y)
    ensures KeysSorted(a + b)
  {
    forall i, j | 0 <= i < j < |a + b| ensures KeyLess((a + b)[i], (a + b)[j]) {
      if j < |a| {
      } else if i >= |a| {
        assert (a + b)[i] == b[i - |a|] && (a + b)[j] == b[j - |a|];
      } else {
        assert (a + b)[i] in a && (a + b)[j] in b;
      }
    }
  }

  lemma YearKeysSorted(season: string, lake: string, years: seq<string>)
    requires StrictlySorted(years)
    ensures KeysSorted(YearKeys(season, lake, years))
  {
  }

  lemma {:induction false} LakeKeysSorted(sub: seq<Observation>, season: string, lakes: seq<string>)
    requires StrictlySorted(lakes)
    ensures KeysSorted(LakeKeys(sub, season, lakes))
  {
    if lakes != [] {
      var init, last := lakes[..|lakes| - 1], lakes[|lakes| - 1];
      var years := YearsOf(Where(sub, LakeColumn, last));
      LakeKeysSorted(sub, season, init);
      YearKeysSorted(season, last, years);
      forall x, y | x in LakeKeys(sub, season, init) && y in YearKeys(season, last, years)
        ensures KeyLess(x, y)
      {
        LakeKeysMembership(sub, season, init, x);
        YearKeysMembership(season, last, years, y);
        var i :| 0 <= i < |init| && init[i] == x.lake;
        assert LexLess(lakes[i], lakes[|lakes| - 1]);
      }
      KeysSortedConcat(LakeKeys(sub, season, init), YearKeys(season, last, years));
    }
  }

  lemma {:induction false} SeasonKeysSorted(records: seq<Observation>, seasons: seq<string>, lakes: seq<string>)
    requires StrictlySorted(lakes)
    requires forall i, j :: 0 <= i < j < |seasons| ==> SeasonRank(seasons[i]) < SeasonRank(seasons[j])
    ensures KeysSorted(SeasonKeys(records, seasons, lakes))
  {
    if seasons != [] {
      var init, last := seasons[..|seasons| - 1], seasons[|seasons| - 1];
      var sub := Where(records, SeasonColumn, last);
      SeasonKeysSorted(records, init, lakes);
      LakeKeysSorted(sub, last, lakes);
      forall x, y | x in SeasonKeys(records, init, lakes) && y in LakeKeys(sub, last, lakes)
        ensures KeyLess(x, y)
      {
        SeasonKeysMembership(records, init, lakes, x);
        LakeKeysMembership(sub, last, lakes, y);
        var i :| 0 <= i < |init| && init[i] == x.season;
        assert SeasonRank(seasons[i]) < SeasonRank(seasons[|seasons| - 1]);
      }
      KeysSortedConcat(SeasonKeys(records, init, lakes), LakeKeys(sub, last, lakes));
    }
  }

  /** Rows come out with every Arrival group before every Departure group,
      lakes ascending within a season and years ascending within a lake. */
  lemma GroupKeysSorted(records: seq<Observation>)
    ensures KeysSorted(GroupKeys(records))
  {
    SeasonKeysSorted(records, Seasons, Lakes(records));
  }

  /** No group is emitted twice. */
  lemma GroupKeysDistinct(records: seq<Observation>)
    ensures forall i, j :: 0 <= i < |GroupKeys(records)| && 0 <= j < |GroupKeys(records)| && i != j ==>
      GroupKeys(records)[i] != GroupKeys(records)[j]
  {
    var ks := GroupKeys(records);
    GroupKeysSorted(records);
    forall i, j | 0 <= i < |ks| && 0 <= j < |ks| && i != j ensures ks[i] != ks[j] {
      LexLessIrreflexive(ks[i].lake);
      LexLessIrreflexive(ks[i].year);
      if i < j { assert KeyLess(ks[i], ks[j]); } else { assert KeyLess(ks[j], ks[i]); }
    }
  }
}
