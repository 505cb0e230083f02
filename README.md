# Migration timing and synchrony: the integer and string core of `my_plot.py`

`my_plot.py` reads a table of fish observations with the columns Date
(`dd/mm/yyyy`), Lake, Departure/Arrival and Year. It turns each date into
an angle on the year circle. It then groups the observations by (season,
lake, year) and computes the mean vector length rho of each group. Finally
it plots rho per year, with the years placed at evenly spaced ticks.

This project models the parts of that pipeline that are integer, string
and bookkeeping logic. Each part is proved against a specification.

- **Day of the year** (`datestdtojd`, lines 14-19). The string is parsed
  with `strptime(s, '%Y-%m-%d')`: four digits for the year, the month
  and day patterns CPython uses, and datetime's check that the day exists.
  The result is `tm_yday` in the proleptic Gregorian calendar (modules
  `Calendar` and `IsoDates`).
- **The per-record columns** (lines 41, 45, 48, module `DateColumns`).
  - `dd/mm/yyyy` is split on `/`, reversed and joined with `-`, and its
    day of the year is shifted so that 1 January is 0.
  - The denominator is the day of the year of 30 December of the year
    written in the date: 364 in a common year, 365 in a leap year.
  - The angle is their ratio, as a fraction of a full turn.
  - Every failure of `strptime`, and the `IndexError` of a date with
    fewer than three fields, is the value `None` (a raised exception).
- **The group enumeration** (lines 69-104, module `Grouping`).
  - Three nested loops walk the seasons `['Arrival', 'Departure']`, the
    sorted distinct lakes, and the sorted distinct years of each (season,
    lake). They append one row to each of the lists `yearV`, `arrdepV`,
    `lakeV` and `rhoV`.
  - The loops are methods over sequences, proved against the function
    `GroupKeys`, which lists the groups in emission order.
  - rho is a parameter: any function of a group's member rows.
- **The tick map and the labels** (lines 113-114 and 138, module `Ticks`).
  - `year2tic` sends the sorted distinct years onto 0 .. n-1.
  - `year[:4] + '/\n' + year[5:9]` shortens a season label such as
    `2012/2013` to two lines.
- **Support**: Python's `str.split`, `str.join`, `reversed`, slicing and
  string order (module `Strings`), and `sorted(set(...))` (module
  `SortedSets`).

**31 December is a full turn.** The code divides by the day number of
30 December, not by the year length. So 31 December gives a ratio of
exactly 1: an angle of 2π, the same point on the circle as 1 January's 0.
`DateColumns.OrdinalWithinDenominator` and `DateColumns.TurnsWithinOneTurn`
prove that the ratio lies in [0, 1] and is 1 exactly on 31 December. The
authors' comments on lines 40 and 43-44 show that the 364/365 denominator
was chosen on purpose, so the model keeps it as written and does not
treat it as a bug.
The comment "31 december = 364" on line 40 holds for common years only
(`DateColumns.December31Ordinal`, `DateColumns.LeapYearEnd`).

## Model

| member | source | states |
|---|---|---|
| Calendar.DaysBefore | my_plot.py:17-18 | The days before month m, as a sum of month lengths, equal the common-year cumulative table plus one day after February in a leap year |
| Calendar.DayOfYear | my_plot.py:17-18 | `timetuple().tm_yday`: the days of the months before the date's month plus its day; its range and inverse are the lemmas below |
| Calendar.DayOfYearRange | my_plot.py:18 | `tm_yday` lies in 1 .. 365 or 366; it is 1 exactly on 1 January, and equals the year length exactly on 31 December |
| Calendar.DayOfYearOrder | my_plot.py:18 | For two dates of one year, the first comes earlier in the calendar if and only if its `tm_yday` is smaller |
| Calendar.DayOfYearInjective | my_plot.py:18 | Two dates of one year with the same `tm_yday` are the same date |
| Calendar.DateOfDayOfYear | my_plot.py:18 | Inverse of `tm_yday`: for every n in 1 .. year length, a valid date of that year whose day of the year is n |
| Calendar.DayOfYearRoundTrip | my_plot.py:18 | Every valid date is recovered from its year and its `tm_yday` |
| IsoDates.ParseIso | my_plot.py:15-16 | `strptime` with `%Y-%m-%d` only ever returns a date that exists (year 1-9999, a day of its month) |
| IsoDates.DateStdToJd | my_plot.py:14-19 | Returns a value exactly when `strptime` accepts the string; the value is the day of the year of the parsed date, lies in 1 .. year length and is 1 exactly on 1 January |
| IsoDates.DecimalOfDigits | my_plot.py:16 | Reading back the zero-padded digits of n gives n |
| IsoDates.ParseFormatIso | my_plot.py:15-16 | `strptime` reads back every valid date written zero-padded as `yyyy-mm-dd` |
| Strings.Split | my_plot.py:41 | `s.split(sep)` for a one-character separator: always at least one piece; `SplitThenJoin` and `JoinThenSplit` relate it to `Join` |
| Strings.Join | my_plot.py:41 | `sep.join(parts)`; its inverse relation to `Split` is stated by `SplitThenJoin` and `JoinThenSplit` |
| Strings.Reversed | my_plot.py:41 | `list(reversed(s))`; `ReformatReversesFields` states its effect on the three date fields |
| Strings.SplitThenJoin | my_plot.py:41 | Joining the pieces of `s.split(sep)` with `sep` gives `s` back |
| Strings.SplitAppend | my_plot.py:41 | Splitting `a + sep + b` gives the pieces of `a` followed by the pieces of `b` |
| Strings.JoinThenSplit | my_plot.py:41 | Pieces without the separator come back unchanged from joining and then splitting |
| Strings.JoinThenSplitLength | my_plot.py:41 | Splitting a join gives at least as many pieces, and exactly as many if and only if no piece holds the separator |
| Strings.SplitKeepsAbsent | my_plot.py:41 | A character absent from a string is absent from every piece of its split |
| Strings.Slice | my_plot.py:138 | `s[lo:hi]` has the clamped length and holds the characters of `s` from `lo` on |
| Strings.LexLessIrreflexive | my_plot.py:70 | Python's string order is irreflexive |
| Strings.LexLessAsymmetric | my_plot.py:70 | Python's string order is asymmetric |
| Strings.LexLessTransitive | my_plot.py:70 | Python's string order is transitive |
| Strings.LexLessTotal | my_plot.py:70 | Of two different strings, one is below the other |
| SortedSets.Insert | my_plot.py:70 | Adding a value to a strictly sorted list keeps it strictly sorted, and its elements are the old ones plus the value |
| SortedSets.SortedDistinct | my_plot.py:70 | `sorted(set(xs))` is strictly ascending and has exactly the elements of `xs` |
| SortedSets.SortedUnique | my_plot.py:88 | Two strictly ascending lists with the same elements are equal, so the contract above determines `sorted(set(xs))` |
| SortedSets.StrictlySortedDistinct | my_plot.py:113 | The entries of a strictly ascending list are pairwise different |
| DateColumns.Reformat | my_plot.py:41 | `'-'.join(reversed(date.split('/')))`; `ReformatReversesFields` and `ReformatThenSplit` state what it produces |
| DateColumns.ReformatReversesFields | my_plot.py:41 | `'-'.join(reversed('dd/mm/yyyy'.split('/')))` is `yyyy-mm-dd`, the same three fields in reverse order |
| DateColumns.ReformatThenSplit | my_plot.py:41 | For a date without dashes, splitting the reformatted string on `-` gives the `/`-fields reversed |
| DateColumns.ParseDmy | my_plot.py:41 | The `strptime` call of line 41 on the reformatted date; `ColumnsOfFormattedDate` and `ParseFormatIso` state that every valid date written out is read back |
| DateColumns.JulianDay | my_plot.py:41 | A value exactly when the reformatted date parses, zero-padded or not; the value is the day of the year of that date minus 1, so it lies in 0 .. year length - 1 and is 0 exactly on 1 January |
| DateColumns.MaxDay | my_plot.py:45 | A value exactly when there is a third `/`-field that is a four-digit year of at least 1; the value is 365 in a leap year and 364 otherwise |
| DateColumns.DecemberThirtiethParse | my_plot.py:45 | `y + '-12-30'` parses exactly when `y` is a four-digit year of at least 1, and then it is 30 December of that year |
| DateColumns.JulianDays | my_plot.py:41 | The list `julian_days`: `JulianDay` of every date, or an exception (contract through `MapAll`) |
| DateColumns.MaxDays | my_plot.py:45 | The list `max_days`: `MaxDay` of every date, or an exception (contract through `MapAll`) |
| DateColumns.MapAll | my_plot.py:41-45 | A comprehension succeeds exactly when every element does, and then has one result per element, in order |
| DateColumns.Turn | my_plot.py:48 | One element `julian_day/max_day` of line 48, as a fraction of a turn; `TurnWithinOneTurn` bounds it |
| DateColumns.Turns | my_plot.py:48 | The angles exist exactly when both `julian_days` and `max_days` do, one per record; angle i is (day of the year - 1) / (year length - 1) of date i |
| DateColumns.RecordColumns | my_plot.py:41-45 | Element i of `julian_days` is the day of the year of date i minus 1, and element i of `max_days` is the length of its year minus 1 |
| DateColumns.OrdinalWithinDenominator | my_plot.py:40-48 | Lines 41 and 45 read the same year: the denominator is year length - 1, 0 <= ordinal <= denominator, and they are equal exactly on 31 December |
| DateColumns.TurnWithinOneTurn | my_plot.py:47-48 | One angle lies in [0, 1] turns, and is a full turn exactly on 31 December |
| DateColumns.TurnsWithinOneTurn | my_plot.py:48 | Every angle of line 48 lies in [0, 1] turns, and is a full turn exactly on 31 December |
| DateColumns.ColumnsOfFormattedDate | my_plot.py:40-45 | For every valid date written `dd/mm/yyyy`, line 41 gives its 0-based day of the year and line 45 gives its year length - 1 |
| DateColumns.December31Ordinal | my_plot.py:40-41 | 31 December has ordinal 365 in a leap year and 364 in a common year |
| DateColumns.LeapYearEnd | my_plot.py:41-45 | `31/12/2020` has ordinal 365 and denominator 365 |
| DateColumns.CommonYearEnd | my_plot.py:41-45 | `31/12/2021` has ordinal 364 and denominator 364 |
| Grouping.Where | my_plot.py:81-85 | `df[df[c] == v]` keeps exactly the rows whose column `c` is `v`, and never more rows than it had |
| Grouping.WhereKeepsCounts | my_plot.py:81-98 | `df[df[c] == v]` keeps each row whose column `c` is `v` as many times as it occurs in `df`, and no other row |
| Grouping.Lakes | my_plot.py:70 | `lakes = sorted(set(df['Lake']))`; strictly ascending with exactly the lakes of the table, by the contract of `SortedDistinct` |
| Grouping.YearsOf | my_plot.py:88 | `years = sorted(set(df_subb['Year']))`; strictly ascending with exactly the years of `df_subb` |
| Grouping.Members | my_plot.py:98 | `df_subbb`, the rows of one (season, lake, year) group; `MembersHaveKey` states which rows and how many times |
| Grouping.GroupKeys | my_plot.py:69-104 | The (season, lake, year) groups in the order the three loops emit them; characterised by `GroupKeysMembership`, `GroupKeysSorted` and `GroupKeysDistinct` |
| Grouping.Values | my_plot.py:70 | The column `df[c]` as a list, one value per row; `ValuesMembership` states its elements |
| Grouping.SeasonRank | my_plot.py:69 | The position of a season in `arrdeps = Seasons = ['Arrival', 'Departure']`, which orders the outer loop; used by `GroupKeysSorted` |
| Grouping.ValuesMembership | my_plot.py:70 | A value is in a column exactly when some row has it |
| Grouping.AppendYearRows | my_plot.py:88-102 | The innermost loop appends one row per year of `sorted(set(df_subb['Year']))`, in order; each row's rho is that of its group's members |
| Grouping.AppendLakeRows | my_plot.py:83-102 | The middle loop appends the rows of every lake in the order of `lakes`, with the four lists kept in step |
| Grouping.GroupRows | my_plot.py:69-104 | The four lists have equal length; row i is group i of the emission order and holds rho of its members; every record with season Arrival or Departure has a row; every row names a season and a non-empty group; rows are strictly ascending |
| Grouping.GroupKeysMembership | my_plot.py:79-98 | A (season, lake, year) triple is emitted if and only if the season is Arrival or Departure and some record has that triple |
| Grouping.GroupsNonEmpty | my_plot.py:98-101 | The members of an emitted group are exactly the records with its triple, and there is at least one |
| Grouping.MembersHaveKey | my_plot.py:81-98 | `df_subbb` holds exactly the records with the group's season, lake and year, each as many times as it occurs in the table: the count the means of lines 99-100 divide by |
| Grouping.GroupKeysSorted | my_plot.py:69-90 | Every Arrival row comes before every Departure row; lakes ascend within a season, years within a lake |
| Grouping.GroupKeysDistinct | my_plot.py:79-95 | No group is emitted twice |
| Ticks.AllYears | my_plot.py:113 | `all_years = sorted(set(df['Year']))`; strictly ascending with exactly the years of the table |
| Ticks.TickMap | my_plot.py:114 | The keys of `year2tic` are exactly the listed years |
| Ticks.TickMapIndex | my_plot.py:114 | On sorted distinct years, `year2tic` maps the year at position i to i |
| Ticks.TickMapBijection | my_plot.py:113-114 | On the sorted distinct years, `year2tic` is a bijection onto 0 .. n-1, each year mapped to its own position |
| Ticks.TickMapOrder | my_plot.py:113-114 | `year2tic` preserves the order of the years, in both directions |
| Ticks.EveryGroupYearHasATick | my_plot.py:126-127 | The year of every emitted group is a key of `year2tic`, so the lookup on line 127 never fails |
| Ticks.ShortLabel | my_plot.py:138 | `year[:4] + '/\n' + year[5:9]`; its shape is stated by `ShortLabelOfSeason`, `ShortLabelKeepsSeason` and `ShortLabelShape` |
| Ticks.ShortLabelOfSeason | my_plot.py:138 | A season label `aaaa/bbbb` becomes `aaaa/`, a line break, and `bbbb` |
| Ticks.ShortLabelKeepsSeason | my_plot.py:138 | Removing the line break from the short label of a nine-character season label `aaaa/bbbb` gives the original year string back |
| Ticks.ShortLabels | my_plot.py:138 | The comprehension that relabels `all_years`; `ShortLabelsKeepSeasons` states its result |
| Ticks.ShortLabelsKeepSeasons | my_plot.py:138 | The relabelled `all_years` has one label per year, in order, and each gives its season label `aaaa/bbbb` back once the line break is removed |
| Ticks.ShortLabelShape | my_plot.py:138 | A label has at most 10 characters: the first four of the year, `/` and a line break, then characters 5-8 |

## Left out

- Reading the CSV file (line 34) is I/O. The table is a parameter: a sequence of `Observation` rows with four string fields.
- `np.sin`, `np.cos`, `np.mean` and `np.sqrt` (lines 57-58, 99-101) are floating point. rho is a function parameter of `Grouping.GroupRows`, applied to the list of a group's member rows.
- DateColumns.Turns: the angle is the exact rational `julian_day / max_day`, a fraction of a turn; the factor 2π and float rounding are left out.
- The column assignments to the DataFrame (lines 51, 60-61) are left out. The model keeps the derived values as sequences parallel to the rows.
- Plotting, the legend, the axes and saving the figure (lines 110-146, apart from lines 113-114, 126-127 and 138) are rendering and I/O. The loop of lines 119-135 is left out except for the tick lookup on line 127.
- Printing the mean rho of each season and lake (lines 132-133) is console output of a float mean.
- `remapD` (line 117) only feeds legend text and is left out.
- IsoDates.ParseIso: `strptime` also accepts non-ASCII decimal digits in its fields. The model accepts ASCII digits only.
- IsoDates.ParseIso: the model returns `None` for every failure. Which exception `strptime` raises is not modelled.
- The Lake, Departure/Arrival and Year columns are strings. If pandas read Year as a number, line 138 would fail, and `sorted` would order numbers, not strings. Missing values (NaN) are not modelled.
- Grouping.GroupRows: the three nested loops are written as three methods, one per loop level, each proved against its part of `GroupKeys`. Mutation of the lists happens by reassigning sequence values; the four Python lists are not aliased anywhere, so nothing is lost.
- Grouping.Where: the order of the kept rows is not stated, only which rows and how many times each; the means of lines 99-100 do not depend on the order.
- `df_res` (line 104) is only a container for the four lists, which `Grouping.GroupRows` returns.
