/**
 * Proleptic Gregorian calendar arithmetic: the number of days from
 * 1970-01-01 to a civil date, and the civil date of a day number. This stands
 * in for the `GregorianCalendar` behind `SimpleDateFormat`; the timestamp
 * parser only admits years from 1583 on, so the library's switch to the Julian
 * calendar before October 1582 is never reached.
 */
module Calendar {
  datatype Date = Date(year: int, month: int, day: int)

  /** A year and a zero-based day of that year. */
  datatype YearDay = YearDay(year: int, day: int)

  predicate IsLeapYear(y: int)
  {
    y % 4 == 0 && (y % 100 != 0 || y % 400 == 0)
  }

  function YearLength(y: int): int
  {
    if IsLeapYear(y) then 366 else 365
  }

  function DaysInMonth(y: int, m: int): int
    requires 1 <= m <= 12
  {
    if m == 2 then (if IsLeapYear(y) then 29 else 28)
    else if m == 4 || m == 6 || m == 9 || m == 11 then 30
    else 31
  }

  predicate ValidDate(y: int, m: int, d: int)
  {
    1 <= m <= 12 && 1 <= d <= DaysInMonth(y, m)
  }

  /** Days from 1 January 1970 to 1 January of year `y` (negative before 1970). */
  function DaysBeforeYear(y: int): int
    decreases if y < 1970 then 1970 - y else y - 1970
  {
    if y == 1970 then 0
    else if y > 1970 then DaysBeforeYear(y - 1) + YearLength(y - 1)
    else DaysBeforeYear(y + 1) - YearLength(y)
  }

  /** Days of year `y` before the first of month `m`. */
  function DaysBeforeMonth(y: int, m: int): int
    requires 1 <= m <= 12
  {
    [0, 31, 59, 90, 120, 151, 181, 212, 243, 273, 304, 334][m - 1]
      + (if m > 2 && IsLeapYear(y) then 1 else 0)
  }

  /** Days from 1970-01-01 to the civil date (y, m, d). */
  function DaysFromCivil(y: int, m: int, d: int): int
    requires 1 <= m <= 12
  {
    DaysBeforeYear(y) + DaysBeforeMonth(y, m) + d - 1
  }

  lemma DaysBeforeYearStep(y: int)
    ensures DaysBeforeYear(y + 1) == DaysBeforeYear(y) + YearLength(y)
  {
  }

  lemma DaysBeforeMonthStep(y: int, m: int)
    requires 1 <= m < 12
    ensures DaysBeforeMonth(y, m + 1) == DaysBeforeMonth(y, m) + DaysInMonth(y, m)
  {
  }

  /**
   * The year and day of year of the day `rel` days after 1 January of year `y`
   * (before it when `rel` is negative), found one year at a time.
   */
  function LocateYear(y: int, rel: int): (r: YearDay)
    ensures 0 <= r.day < YearLength(r.year)
    ensures DaysBeforeYear(r.year) + r.day == DaysBeforeYear(y) + rel
    decreases if rel < 0 then 400 - rel else rel
  {
    if rel < 0 then
      DaysBeforeYearStep(y - 1);
      LocateYear(y - 1, rel + YearLength(y - 1))
    else if rel >= YearLength(y) then
      DaysBeforeYearStep(y);
      LocateYear(y + 1, rel - YearLength(y))
    else YearDay(y, rel)
  }

  /** The date of day `rel` of year `y` counted from the first of month `m`, found one month at a time. */
  function LocateMonth(y: int, m: int, rel: int): (r: Date)
    requires 1 <= m <= 12 && 0 <= rel < YearLength(y) - DaysBeforeMonth(y, m)
    ensures r.year == y && ValidDate(r.year, r.month, r.day)
    ensures DaysBeforeMonth(y, r.month) + r.day - 1 == DaysBeforeMonth(y, m) + rel
    decreases 12 - m
  {
    if rel < DaysInMonth(y, m) then Date(y, m, rel + 1)
    else
      DaysBeforeMonthStep(y, m);
      LocateMonth(y, m + 1, rel - DaysInMonth(y, m))
  }

  /** The civil date `z` days after 1970-01-01: the one valid date whose day count is `z`. */
  function CivilFromDays(z: int): (r: Date)
    ensures ValidDate(r.year, r.month, r.day)
    ensures DaysFromCivil(r.year, r.month, r.day) == z
  {
    var yd := LocateYear(1970, z);
    LocateMonth(yd.year, 1, yd.day)
  }

  lemma {:induction false} DaysBeforeYearMonotone(a: int, b: int)
    requires a <= b
    ensures DaysBeforeYear(a) + YearLength(a) <= DaysBeforeYear(b) || a == b
    decreases b - a
  {
    if a < b {
      DaysBeforeYearStep(b - 1);
      if a < b - 1 {
        DaysBeforeYearMonotone(a, b - 1);
      }
    }
  }

  lemma {:induction false} DaysBeforeMonthMonotone(y: int, a: int, b: int)
    requires 1 <= a <= b <= 12
    ensures DaysBeforeMonth(y, a) + DaysInMonth(y, a) <= DaysBeforeMonth(y, b) || a == b
    decreases b - a
  {
    if a < b {
      DaysBeforeMonthStep(y, b - 1);
      if a < b - 1 {
        DaysBeforeMonthMonotone(y, a, b - 1);
      }
    }
  }

  /** A day has only one position as (year, day of year). */
  lemma YearDayUnique(y1: int, d1: int, y2: int, d2: int)
    requires 0 <= d1 < YearLength(y1) && 0 <= d2 < YearLength(y2)
    requires DaysBeforeYear(y1) + d1 == DaysBeforeYear(y2) + d2
    ensures y1 == y2 && d1 == d2
  {
    if y1 < y2 {
      DaysBeforeYearMonotone(y1, y2);
    } else if y2 < y1 {
      DaysBeforeYearMonotone(y2, y1);
    }
  }

  /** A day of a year has only one position as (month, day of month). */
  lemma MonthDayUnique(y: int, m1: int, d1: int, m2: int, d2: int)
    requires ValidDate(y, m1, d1) && ValidDate(y, m2, d2)
    requires DaysBeforeMonth(y, m1) + d1 == DaysBeforeMonth(y, m2) + d2
    ensures m1 == m2 && d1 == d2
  {
    if m1 < m2 {
      DaysBeforeMonthMonotone(y, m1, m2);
    } else if m2 < m1 {
      DaysBeforeMonthMonotone(y, m2, m1);
    }
  }

  /** A valid date lies within its year. */
  lemma DayOfYearBound(y: int, m: int, d: int)
    requires ValidDate(y, m, d)
    ensures DaysBeforeMonth(y, m) + d - 1 < YearLength(y)
  {
    DaysBeforeMonthMonotone(y, m, 12);
  }

  /** Day count to civil date undoes civil date to day count. */
  lemma CivilRoundTrip(y: int, m: int, d: int)
    requires ValidDate(y, m, d)
    ensures CivilFromDays(DaysFromCivil(y, m, d)) == Date(y, m, d)
  {
    var r := CivilFromDays(DaysFromCivil(y, m, d));
    DayOfYearBound(y, m, d);
    DayOfYearBound(r.year, r.month, r.day);
    YearDayUnique(r.year, DaysBeforeMonth(r.year, r.month) + r.day - 1, y, DaysBeforeMonth(y, m) + d - 1);
    MonthDayUnique(y, r.month, r.day, m, d);
  }
}
