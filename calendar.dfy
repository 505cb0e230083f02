/** The proleptic Gregorian calendar that Python's datetime uses, and the
    day of the year that `timetuple().tm_yday` reports (1 for 1 January). */
module Calendar {

  datatype Date = Date(year: int, month: int, day: int)

  predicate IsLeapYear(y: int)
  {
    y % 4 == 0 && (y % 100 != 0 || y % 400 == 0)
  }

  function YearLength(y: int): int
  {
    if IsLeapYear(y) then 366 else 365
  }

  function DaysInMonth(y: int, m: int): int
    requires 1 <= m <= 12
  {
    if m == 2 then (if IsLeapYear(y) then 29 else 28)
    else if m == 4 || m == 6 || m == 9 || m == 11 then 30
    else 31
  }

  /** A date datetime accepts: years 1 to 9999, and a day that exists in its month. */
  predicate ValidDate(d: Date)
  {
    1 <= d.year <= 9999 && 1 <= d.month <= 12 && 1 <= d.day <= DaysInMonth(d.year, d.month)
  }

  /** Days before the first of each month in a common year; the thirteenth
      entry is the whole year. */
  const CommonDaysBefore: seq<int> := [0, 31, 59, 90, 120, 151, 181, 212, 243, 273, 304, 334, 365]

  /** The number of days in the months of year y that come before month m
      (m = 13 gives the whole year), as a sum of month lengths. It agrees with
      the cumulative table plus one day after February in a leap year. */
  function DaysBefore(y: int, m: int): (n: int)
    requires 1 <= m <= 13
    ensures n == CommonDaysBefore[m - 1] + (if m > 2 && IsLeapYear(y) then 1 else 0)
  {
    if m == 1 then 0 else DaysBefore(y, m - 1) + DaysInMonth(y, m - 1)
  }

  /** `tm_yday`: the 1-based day of the year. */
  function DayOfYear(d: Date): int
    requires ValidDate(d)
  {
    DaysBefore(d.year, d.month) + d.day
  }

  /** Calendar order of two dates of the same year. */
  predicate Before(a: Date, b: Date)
  {
    a.month < b.month || (a.month == b.month && a.day < b.day)
  }

  /** A month ends no later than any later month begins. */
  lemma {:induction false} DaysBeforeMonotone(y: int, m1: int, m2: int)
    requires 1 <= m1 < m2 <= 13
    ensures DaysBefore(y, m1) + DaysInMonth(y, m1) <= DaysBefore(y, m2)
  {
    if m2 > m1 + 1 {
      DaysBeforeMonotone(y, m1, m2 - 1);
    }
  }

  /** The day of the year follows calendar order, in both directions. */
  lemma DayOfYearOrder(a: Date, b: Date)
    requires ValidDate(a) && ValidDate(b) && a.year == b.year
    ensures Before(a, b) <==> DayOfYear(a) < DayOfYear(b)
  {
    if a.month < b.month {
      DaysBeforeMonotone(a.year, a.month, b.month);
    } else if b.month < a.month {
      DaysBeforeMonotone(a.year, b.month, a.month);
    }
  }

  /** Dates of one year with the same day of the year are the same date. */
  lemma DayOfYearInjective(a: Date, b: Date)
    requires ValidDate(a) && ValidDate(b) && a.year == b.year
    requires DayOfYear(a) == DayOfYear(b)
    ensures a == b
  {
    DayOfYearOrder(a, b);
    DayOfYearOrder(b, a);
  }

  /** The day of the year runs from 1 (only on 1 January) to the length of
      the year, 365 or 366 (only on 31 December). */
  lemma DayOfYearRange(d: Date)
    requires ValidDate(d)
    ensures 1 <= DayOfYear(d) <= YearLength(d.year)
    ensures DayOfYear(d) == 1 <==> d.month == 1 && d.day == 1
    ensures DayOfYear(d) == YearLength(d.year) <==> d.month == 12 && d.day == 31
  {
    var first := Date(d.year, 1, 1);
    var last := Date(d.year, 12, 31);
    DayOfYearOrder(first, d);
    DayOfYearOrder(d, last);
  }

  /** The month of year y in which day n (counted from 1) falls, searching
      down from month m. */
  function MonthContaining(y: int, n: int, m: int): (r: int)
    requires 1 <= m <= 12 && 1 <= n <= DaysBefore(y, m + 1)
    ensures 1 <= r <= m && DaysBefore(y, r) < n <= DaysBefore(y, r + 1)
    decreases m
  {
    if DaysBefore(y, m) < n then m else MonthContaining(y, n, m - 1)
  }

  /** The inverse of DayOfYear: the date that is day n of year y. */
  function DateOfDayOfYear(y: int, n: int): (d: Date)
    requires 1 <= y <= 9999 && 1 <= n <= YearLength(y)
    ensures ValidDate(d) && d.year == y && DayOfYear(d) == n
  {
    var m := MonthContaining(y, n, 12);
    Date(y, m, n - DaysBefore(y, m))
  }

  /** Every valid date is recovered from its day of the year: together with
      the contract of DateOfDayOfYear, DayOfYear is a bijection from the dates
      of a year onto 1 .. YearLength. */
  lemma DayOfYearRoundTrip(d: Date)
    requires ValidDate(d)
    ensures DayOfYear(d) <= YearLength(d.year)
    ensures DateOfDayOfYear(d.year, DayOfYear(d)) == d
  {
    DayOfYearRange(d);
    DayOfYearInjective(DateOfDayOfYear(d.year, DayOfYear(d)), d);
  }
}
