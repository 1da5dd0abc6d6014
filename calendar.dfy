/**
 * Civil dates of the proleptic Gregorian calendar and their day ordinals.
 *
 * The statistics engine works at day granularity: a run has a calendar date,
 * a season starts at the start of one day and ends at the end of another.
 * Every date is therefore represented by its day ordinal, the number of days
 * since 0001-01-01 (ordinal 0). That day was a Monday, so the Monday that
 * starts the week of a day is found by rounding its ordinal down to a
 * multiple of 7.
 */
module Calendar {

  datatype Date = Date(year: int, month: int, day: int)

  predicate IsLeapYear(y: int) {
    y % 4 == 0 && (y % 100 != 0 || y % 400 == 0)
  }

  function DaysInMonth(y: int, m: int): (n: int)
    requires 1 <= m <= 12
    ensures 28 <= n <= 31
    ensures m == 2 ==> (n == 29 <==> IsLeapYear(y))
  {
    if m == 2 then (if IsLeapYear(y) then 29 else 28)
    else if m == 4 || m == 6 || m == 9 || m == 11 then 30
    else 31
  }

  predicate IsValid(d: Date) {
    1 <= d.month <= 12 && 1 <= d.day <= DaysInMonth(d.year, d.month)
  }

  /** Days of year `y` that lie before the first day of month `m` (m = 13: the whole year). */
  function DaysBeforeMonth(y: int, m: int): (n: int)
    requires 1 <= m <= 13
    ensures 0 <= n <= YearLength(y)
  {
    var common :=
      if m == 1 then 0 else if m == 2 then 31 else if m == 3 then 59
      else if m == 4 then 90 else if m == 5 then 120 else if m == 6 then 151
      else if m == 7 then 181 else if m == 8 then 212 else if m == 9 then 243
      else if m == 10 then 273 else if m == 11 then 304 else if m == 12 then 334
      else 365;
    if m > 2 && IsLeapYear(y) then common + 1 else common
  }

  function YearLength(y: int): int {
    if IsLeapYear(y) then 366 else 365
  }

  /** Days from 0001-01-01 to the first day of year `y`. */
  function DaysBeforeYear(y: int): int {
    var p := y - 1;
    365 * p + p / 4 - p / 100 + p / 400
  }

  function Ordinal(d: Date): int
    requires IsValid(d)
  {
    DaysBeforeYear(d.year) + DaysBeforeMonth(d.year, d.month) + d.day - 1
  }

  /** The Monday that starts the week containing `day`. */
  function WeekStart(day: int): (w: int)
    ensures w <= day < w + 7
    ensures w % 7 == 0
  {
    day - day % 7
  }

  lemma WeekStartOfMonday(w: int)
    requires w % 7 == 0
    ensures WeekStart(w) == w
  {
  }

  /** Ordered days have ordered week starts. */
  lemma WeekStartMonotone(a: int, b: int)
    requires a <= b
    ensures WeekStart(a) <= WeekStart(b)
  {
  }

  /** The month table agrees with the month lengths: month m + 1 begins DaysInMonth(y, m) days after month m. */
  lemma MonthStep(y: int, m: int)
    requires 1 <= m <= 12
    ensures DaysBeforeMonth(y, m + 1) == DaysBeforeMonth(y, m) + DaysInMonth(y, m)
  {
  }

  lemma {:induction false} DaysBeforeMonthMonotone(y: int, m1: int, m2: int)
    requires 1 <= m1 <= m2 <= 13
    ensures DaysBeforeMonth(y, m1) <= DaysBeforeMonth(y, m2)
    decreases m2 - m1
  {
    if m1 < m2 {
      DaysBeforeMonthMonotone(y, m1, m2 - 1);
      MonthStep(y, m2 - 1);
    }
  }

  lemma WholeYear(y: int)
    ensures DaysBeforeMonth(y, 13) == YearLength(y)
  {
  }

  lemma DivStep4(p: int)
    ensures (p + 1) / 4 == p / 4 + (if (p + 1) % 4 == 0 then 1 else 0)
  {
  }

  lemma DivStep100(p: int)
    ensures (p + 1) / 100 == p / 100 + (if (p + 1) % 100 == 0 then 1 else 0)
  {
  }

  lemma DivStep400(p: int)
    ensures (p + 1) / 400 == p / 400 + (if (p + 1) % 400 == 0 then 1 else 0)
  {
  }

  /** The length of a year as 365 days corrected by the three leap-year rules. */
  lemma LeapCorrections(y: int)
    ensures YearLength(y) ==
      365 + (if y % 4 == 0 then 1 else 0) - (if y % 100 == 0 then 1 else 0) + (if y % 400 == 0 then 1 else 0)
  {
    if y % 400 == 0 {
      assert y == 100 * (4 * (y / 400));
    }
    if y % 100 == 0 {
      assert y == 4 * (25 * (y / 100));
    }
  }

  lemma NextYear(y: int)
    ensures DaysBeforeYear(y + 1) == DaysBeforeYear(y) + YearLength(y)
  {
    var p := y - 1;
    DivStep4(p);
    DivStep100(p);
    DivStep400(p);
    LeapCorrections(y);
    calc {
      DaysBeforeYear(y + 1);
      365 * y + y / 4 - y / 100 + y / 400;
      { assert 365 * y == 365 * p + 365; }
      365 * p + 365 + y / 4 - y / 100 + y / 400;
      DaysBeforeYear(y) + 365 + (y / 4 - p / 4) - (y / 100 - p / 100) + (y / 400 - p / 400);
      DaysBeforeYear(y) + YearLength(y);
    }
  }

  /** The last day of a year is followed by the first day of the next one. */
  lemma NewYear(y: int)
    ensures Ordinal(Date(y, 12, 31)) + 1 == Ordinal(Date(y + 1, 1, 1))
  {
    WholeYear(y);
    NextYear(y);
  }

  /**
   * A valid date of year `y` whose month lies in m1..m2 lies between the first day of
   * month m1 and the day before month m2 + 1 begins.
   */
  lemma {:induction false} OrdinalWithinMonths(d: Date, m1: int, m2: int)
    requires IsValid(d) && 1 <= m1 <= d.month <= m2 <= 12
    ensures DaysBeforeYear(d.year) + DaysBeforeMonth(d.year, m1) <= Ordinal(d)
    ensures Ordinal(d) < DaysBeforeYear(d.year) + DaysBeforeMonth(d.year, m2 + 1)
  {
    DaysBeforeMonthMonotone(d.year, m1, d.month);
    MonthStep(d.year, d.month);
    DaysBeforeMonthMonotone(d.year, d.month + 1, m2 + 1);
  }
}
