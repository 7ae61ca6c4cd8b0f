/**
 * Calendar dates as the `chrono` crate's `NaiveDate` represents them: a
 * proleptic Gregorian year, a month and a day, ordered chronologically.
 * Parsing a date from text is not modelled here; callers receive a parser
 * as a function value (see `DayBook.DateParser`).
 */
module Dates {

  /** `chrono`'s representable year range: `i32::MIN >> 13` to `i32::MAX >> 13`. */
  const MinYear: int := -262144
  const MaxYear: int := 262143

  datatype Date = Date(year: int, month: int, day: int)

  predicate IsLeapYear(y: int) {
    y % 4 == 0 && (y % 100 != 0 || y % 400 == 0)
  }

  function DaysInMonth(y: int, m: int): (n: int)
    requires 1 <= m <= 12
    ensures 28 <= n <= 31
  {
    if m == 2 then (if IsLeapYear(y) then 29 else 28)
    else if m == 4 || m == 6 || m == 9 || m == 11 then 30
    else 31
  }

  predicate ValidDate(d: Date) {
    && MinYear <= d.year <= MaxYear
    && 1 <= d.month <= 12
    && 1 <= d.day <= DaysInMonth(d.year, d.month)
  }

  /** The values a `NaiveDate` can hold: only real calendar dates. */
  type NaiveDate = d: Date | ValidDate(d) witness Date(1970, 1, 1)

  /** `NaiveDate`'s `Ord`: chronological, i.e. lexicographic on (year, month, day). */
  predicate Before(a: Date, b: Date) {
    || a.year < b.year
    || (a.year == b.year && a.month < b.month)
    || (a.year == b.year && a.month == b.month && a.day < b.day)
  }

  /** `month0()`: the month counted from 0. */
  function Month0(d: NaiveDate): (m0: nat)
    ensures m0 < 12
  {
    d.month - 1
  }

  /** `day0()`: the day of the month counted from 0. */
  function Day0(d: NaiveDate): (d0: nat)
    ensures d0 < 31
  {
    d.day - 1
  }

  /**
   * `year_ce()`: the era flag (true for CE) and the year counted from 1 within
   * its era, so 1 BCE (proleptic year 0) is era year 1 and 2 BCE is 2.
   */
  function YearCe(d: NaiveDate): (r: (bool, nat)) {
    if d.year < 1 then (false, 1 - d.year) else (true, d.year)
  }

  /** The proleptic year that an era flag and an era year stand for. */
  function FromYearCe(ce: bool, y: nat): int {
    if ce then y else 1 - y
  }

  /** `year_ce` loses nothing while its era flag is kept, and era years start at 1. */
  lemma YearCeRoundTrip(d: NaiveDate)
    ensures YearCe(d).1 >= 1
    ensures YearCe(d).0 <==> d.year >= 1
    ensures FromYearCe(YearCe(d).0, YearCe(d).1) == d.year
  {
  }

  lemma BeforeTransitive(a: Date, b: Date, c: Date)
    requires Before(a, b) && Before(b, c)
    ensures Before(a, c)
  {
  }

  /** A non-empty finite set of dates has a chronologically first element. */
  lemma {:induction false} LeastExists(s: set<Date>)
    requires s != {}
    ensures exists m :: m in s && forall x :: x in s && x != m ==> Before(m, x)
  {
    var x :| x in s;
    if s != {x} {
      var rest := s - {x};
      LeastExists(rest);
      var m :| m in rest && forall y :: y in rest && y != m ==> Before(m, y);
      if Before(m, x) {
        assert forall y :: y in s && y != m ==> Before(m, y);
      } else {
        assert m != x && Before(x, m);
        forall y | y in s && y != x
          ensures Before(x, y)
        {
          if y != m { BeforeTransitive(x, m, y); }
        }
      }
    } else {
      assert forall y :: y in s && y != x ==> Before(x, y);
    }
  }
}
