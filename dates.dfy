/** Calendar days as the `Año`, `Mes`, `Dias` columns (and `Fecha`) carry them. */
module Dates {

  datatype Date = Date(year: int, month: int, day: int)

  predicate IsLeapYear(y: int) {
    (y % 4 == 0 && y % 100 != 0) || y % 400 == 0
  }

  function YearLength(y: int): int {
    if IsLeapYear(y) then 366 else 365
  }

  function DaysInMonth(y: int, m: int): (r: int)
    requires 1 <= m <= 12
    ensures 28 <= r <= 31
  {
    if m == 2 then (if IsLeapYear(y) then 29 else 28)
    else if m == 4 || m == 6 || m == 9 || m == 11 then 30
    else 31
  }

  /** A real calendar day of the proleptic Gregorian calendar. */
  predicate ValidDate(d: Date) {
    1 <= d.month <= 12 && 1 <= d.day <= DaysInMonth(d.year, d.month)
  }

  /** Days of year `y` that lie in the months before month `m`. */
  function DaysBeforeMonth(y: int, m: int): nat
    decreases if m < 0 then 0 else m
  {
    if m <= 1 then 0
    else if m > 13 then DaysBeforeMonth(y, 13)
    else DaysBeforeMonth(y, m - 1) + DaysInMonth(y, m - 1)
  }

  /** pandas' `dt.dayofyear`: 1 on January 1st. */
  function DayOfYear(d: Date): int {
    DaysBeforeMonth(d.year, d.month) + d.day
  }

  /** `Fecha` order: chronological, i.e. lexicographic on (year, month, day). */
  predicate DateLe(a: Date, b: Date) {
    a.year < b.year ||
    (a.year == b.year && (a.month < b.month || (a.month == b.month && a.day <= b.day)))
  }

  lemma DaysBeforeMonthMonotone(y: int, m: int, m': int)
    requires 1 <= m <= m' <= 13
    ensures DaysBeforeMonth(y, m) <= DaysBeforeMonth(y, m')
    decreases m' - m
  {
    if m < m' {
      DaysBeforeMonthMonotone(y, m, m' - 1);
    }
  }

  lemma DaysBeforeYearEnd(y: int)
    ensures DaysBeforeMonth(y, 13) == YearLength(y)
  {
    assert DaysBeforeMonth(y, 2) == 31;
    assert DaysBeforeMonth(y, 3) == 31 + DaysInMonth(y, 2);
    assert DaysBeforeMonth(y, 4) == 62 + DaysInMonth(y, 2);
    assert DaysBeforeMonth(y, 5) == 92 + DaysInMonth(y, 2);
    assert DaysBeforeMonth(y, 6) == 123 + DaysInMonth(y, 2);
    assert DaysBeforeMonth(y, 7) == 153 + DaysInMonth(y, 2);
    assert DaysBeforeMonth(y, 8) == 184 + DaysInMonth(y, 2);
    assert DaysBeforeMonth(y, 9) == 215 + DaysInMonth(y, 2);
    assert DaysBeforeMonth(y, 10) == 245 + DaysInMonth(y, 2);
    assert DaysBeforeMonth(y, 11) == 276 + DaysInMonth(y, 2);
    assert DaysBeforeMonth(y, 12) == 306 + DaysInMonth(y, 2);
  }

  /** A real day has a day-of-year between 1 and the length of its year. */
  lemma DayOfYearRange(d: Date)
    requires ValidDate(d)
    ensures 1 <= DayOfYear(d) <= YearLength(d.year)
  {
    DaysBeforeMonthMonotone(d.year, d.month + 1, 13);
    DaysBeforeYearEnd(d.year);
  }

  /** Within one year, day-of-year follows the calendar order strictly; so a
      day-of-year group holds at most one day of each year. */
  lemma DayOfYearOrdered(a: Date, b: Date)
    requires ValidDate(a) && ValidDate(b) && a.year == b.year
    ensures DateLe(a, b) <==> DayOfYear(a) <= DayOfYear(b)
    ensures DayOfYear(a) == DayOfYear(b) ==> a == b
  {
    if a.month < b.month {
      DaysBeforeMonthMonotone(a.year, a.month + 1, b.month);
    } else if b.month < a.month {
      DaysBeforeMonthMonotone(a.year, b.month + 1, a.month);
    }
  }
}
