/**
 * Calendar dates as the page reads them from a JavaScript `Date`:
 * `getFullYear()`, the ZERO-based `getMonth()` (0 = January, 1 = February)
 * and `getDate()` (day of month). The host clock is not modelled; a date is
 * always passed in as a parameter.
 */
module Dates {

  datatype Date = Date(year: int, month0: int, day: int)
  {
    /** The one-based month number (`getMonth() + 1`). */
    function Month(): int {
      month0 + 1
    }
  }

  /** The zero-based index of February, as `new Date(y, 1, d)` uses it. */
  const February0: int := 1

  /** The first and the last day of Valentine week, both in February. */
  const FirstDay: int := 7
  const LastDay: int := 14

  /**
   * Strict "earlier than" between two local midnights: JavaScript compares
   * the time values, which for in-range dates is lexicographic order on
   * (year, month, day).
   */
  predicate Before(a: Date, b: Date) {
    || a.year < b.year
    || (a.year == b.year && a.month0 < b.month0)
    || (a.year == b.year && a.month0 == b.month0 && a.day < b.day)
  }

  /** Lexicographic order on (month, day) alone, ignoring the year. */
  predicate MonthDayBefore(m1: int, d1: int, m2: int, d2: int) {
    m1 < m2 || (m1 == m2 && d1 < d2)
  }

  /** Within one year, `Before` is exactly (month, day) order. */
  lemma BeforeSameYear(a: Date, b: Date)
    requires a.year == b.year
    ensures Before(a, b) <==> MonthDayBefore(a.month0, a.day, b.month0, b.day)
  {
  }

  /** `Before` is a strict total order. */
  lemma BeforeStrictTotal(a: Date, b: Date, c: Date)
    ensures !Before(a, a)
    ensures Before(a, b) ==> !Before(b, a)
    ensures Before(a, b) && Before(b, c) ==> Before(a, c)
    ensures a != b ==> Before(a, b) || Before(b, a)
  {
  }
}
