/**
 * Calendar dates of the two date columns, after parsing, and their day numbers.
 * A date is mapped to its ordinal in the proleptic Gregorian calendar
 * (0001-01-01 is day 1), so the difference of two ordinals is the number of
 * whole days between the two dates, which is what subtracting two parsed
 * date columns and taking `.dt.days` yields.
 */
module Dates {

  datatype Date = Date(year: int, month: int, day: int)

  predicate IsLeapYear(y: int) {
    y % 4 == 0 && (y % 100 != 0 || y % 400 == 0)
  }

  function YearLength(y: int): int {
    if IsLeapYear(y) then 366 else 365
  }

  function DaysInMonth(y: int, m: int): int {
    if m == 2 then (if IsLeapYear(y) then 29 else 28)
    else if m == 4 || m == 6 || m == 9 || m == 11 then 30
    else 31
  }

  /** A date the parser can produce: a real day of a real month of year 1 or later. */
  predicate ValidDate(d: Date) {
    1 <= d.year && 1 <= d.month <= 12 && 1 <= d.day <= DaysInMonth(d.year, d.month)
  }

  /** Days in the years 1 .. y-1. */
  function DaysBeforeYear(y: int): int
    decreases y
  {
    if y <= 1 then 0 else DaysBeforeYear(y - 1) + YearLength(y - 1)
  }

  /** Days in the months 1 .. m-1 of year y. */
  function DaysBeforeMonth(y: int, m: int): int {
    var common :=
      if m <= 1 then 0 else if m == 2 then 31 else if m == 3 then 59
      else if m == 4 then 90 else if m == 5 then 120 else if m == 6 then 151
      else if m == 7 then 181 else if m == 8 then 212 else if m == 9 then 243
      else if m == 10 then 273 else if m == 11 then 304 else 334;
    common + (if m > 2 && IsLeapYear(y) then 1 else 0)
  }

  /** The ordinal of a date: 0001-01-01 is day 1, and the ordinal of a valid
      date lies within the range of ordinals of its own year. */
  function DayNumber(d: Date): (n: int)
    ensures d == Date(1, 1, 1) ==> n == 1
    ensures ValidDate(d) ==> DaysBeforeYear(d.year) < n <= DaysBeforeYear(d.year) + YearLength(d.year)
  {
    var n := DaysBeforeYear(d.year) + DaysBeforeMonth(d.year, d.month) + d.day;
    if ValidDate(d) && d.month < 12 then MonthsAscend(d.year, d.month, 12); n else n
  }

  /** Chronological order of dates: by year, then month, then day. */
  predicate Before(a: Date, b: Date) {
    a.year < b.year ||
    (a.year == b.year && (a.month < b.month || (a.month == b.month && a.day < b.day)))
  }

  lemma MonthStep(y: int, m: int)
    requires 1 <= m < 12
    ensures DaysBeforeMonth(y, m + 1) == DaysBeforeMonth(y, m) + DaysInMonth(y, m)
  {
  }

  /** Every day of month m comes before the first day of any later month. */
  lemma MonthsAscend(y: int, m1: int, m2: int)
    requires 1 <= m1 < m2 <= 12
    ensures DaysBeforeMonth(y, m1) + DaysInMonth(y, m1) <= DaysBeforeMonth(y, m2)
  {
  }

  /** Every day of year y1 comes before the first day of any later year. */
  lemma {:induction false} YearsAscend(y1: int, y2: int)
    requires 1 <= y1 < y2
    ensures DaysBeforeYear(y1) + YearLength(y1) <= DaysBeforeYear(y2)
    decreases y2 - y1
  {
    if y1 + 1 < y2 {
      YearsAscend(y1 + 1, y2);
    }
  }

  /** Day numbers follow the calendar: an earlier date has a smaller ordinal. */
  lemma DayNumberIncreasing(a: Date, b: Date)
    requires ValidDate(a) && ValidDate(b)
    requires Before(a, b)
    ensures DayNumber(a) < DayNumber(b)
  {
    if a.year < b.year {
      YearsAscend(a.year, b.year);
    } else if a.month < b.month {
      MonthsAscend(a.year, a.month, b.month);
    }
  }

  /** The ordinal is an order isomorphism: it is injective on valid dates and
      compares two dates exactly as the calendar does. */
  lemma DayNumberOrder(a: Date, b: Date)
    requires ValidDate(a) && ValidDate(b)
    ensures Before(a, b) <==> DayNumber(a) < DayNumber(b)
    ensures a == b <==> DayNumber(a) == DayNumber(b)
  {
    if Before(a, b) {
      DayNumberIncreasing(a, b);
    } else if Before(b, a) {
      DayNumberIncreasing(b, a);
    }
  }

  /** The calendar day after d: the day rolls over into the next month at the
      end of a month, and into the next year at the end of December. */
  function NextDay(d: Date): (n: Date)
    ensures ValidDate(d) ==> ValidDate(n) && Before(d, n)
  {
    if d.day < DaysInMonth(d.year, d.month) then Date(d.year, d.month, d.day + 1)
    else if d.month < 12 then Date(d.year, d.month + 1, 1)
    else Date(d.year + 1, 1, 1)
  }

  /** Consecutive days have consecutive ordinals, across month and year ends. */
  lemma DayNumberNext(d: Date)
    requires ValidDate(d)
    ensures DayNumber(NextDay(d)) == DayNumber(d) + 1
  {
    if d.day == DaysInMonth(d.year, d.month) && d.month < 12 {
      MonthStep(d.year, d.month);
    }
  }

  /** No valid date lies strictly between a day and the next one. */
  lemma NextDayIsNext(d: Date, e: Date)
    requires ValidDate(d) && ValidDate(e)
    requires Before(d, e)
    ensures NextDay(d) == e || Before(NextDay(d), e)
  {
    DayNumberNext(d);
    DayNumberOrder(d, e);
    DayNumberOrder(NextDay(d), e);
  }

  /** The date k days after d. */
  function Advance(d: Date, k: nat): Date {
    if k == 0 then d else NextDay(Advance(d, k - 1))
  }

  /** Ordinals count days: the date k days after d has the ordinal k above d's. */
  lemma {:induction false} DayNumberAdvance(d: Date, k: nat)
    requires ValidDate(d)
    ensures ValidDate(Advance(d, k))
    ensures DayNumber(Advance(d, k)) == DayNumber(d) + k
  {
    if k > 0 {
      DayNumberAdvance(d, k - 1);
      DayNumberNext(Advance(d, k - 1));
    }
  }
}
