/** Calendar arithmetic on proleptic Gregorian dates: days in a month, the last
    day of a month, and the month that follows a month. */
module Calendar {

  datatype Date = Date(year: int, month: int, day: int)

  /** A calendar month, the key the sales rows are grouped by. */
  datatype YearMonth = YearMonth(year: int, month: int)

  predicate ValidMonth(ym: YearMonth) {
    1 <= ym.month <= 12
  }

  /** Gregorian leap-year rule, as Python's calendar.isleap. */
  predicate IsLeapYear(y: int) {
    y % 4 == 0 && (y % 100 != 0 || y % 400 == 0)
  }

  /** Number of days in month m of year y: a table of month lengths, plus one
      for February of a leap year, as calendar.monthrange computes it. */
  function DaysInMonth(y: int, m: int): (n: int)
    requires 1 <= m <= 12
    ensures 28 <= n <= 31
  {
    [0, 31, 28, 31, 30, 31, 30, 31, 31, 30, 31, 30, 31][m]
      + (if m == 2 && IsLeapYear(y) then 1 else 0)
  }

  predicate ValidDate(d: Date) {
    1 <= d.month <= 12 && 1 <= d.day <= DaysInMonth(d.year, d.month)
  }

  /** The date of the last day of month m of year y. */
  function LastDayOfMonth(y: int, m: int): (d: Date)
    requires 1 <= m <= 12
    ensures d.year == y && d.month == m && ValidDate(d)
    ensures m in {1, 3, 5, 7, 8, 10, 12} ==> d.day == 31
    ensures m in {4, 6, 9, 11} ==> d.day == 30
    ensures m == 2 ==> d.day == (if IsLeapYear(y) then 29 else 28)
  {
    Date(y, m, DaysInMonth(y, m))
  }

  /** The months of a year add up to 366 days in a leap year and 365 otherwise. */
  lemma YearLength(y: int)
    ensures DaysInMonth(y, 1) + DaysInMonth(y, 2) + DaysInMonth(y, 3) + DaysInMonth(y, 4)
          + DaysInMonth(y, 5) + DaysInMonth(y, 6) + DaysInMonth(y, 7) + DaysInMonth(y, 8)
          + DaysInMonth(y, 9) + DaysInMonth(y, 10) + DaysInMonth(y, 11) + DaysInMonth(y, 12)
          == if IsLeapYear(y) then 366 else 365
  {
  }

  /** Chronological order of months. */
  predicate Before(a: YearMonth, b: YearMonth) {
    a.year < b.year || (a.year == b.year && a.month < b.month)
  }

  /** The running number of a month: consecutive months get consecutive numbers
      (a monthly period's ordinal, up to a constant offset). */
  function MonthOrdinal(ym: YearMonth): int {
    ym.year * 12 + (ym.month - 1)
  }

  /** The month with a given running number. */
  function FromOrdinal(k: int): (ym: YearMonth)
    ensures ValidMonth(ym) && MonthOrdinal(ym) == k
  {
    YearMonth(k / 12, k % 12 + 1)
  }

  lemma {:induction false} OrdinalRoundTrip(ym: YearMonth)
    requires ValidMonth(ym)
    ensures FromOrdinal(MonthOrdinal(ym)) == ym
  {
    var k := MonthOrdinal(ym);
    assert k == ym.year * 12 + (ym.month - 1);
    assert 0 <= ym.month - 1 < 12;
    assert k / 12 == ym.year && k % 12 == ym.month - 1;
  }

  /** On valid months, chronological order is the order of the running numbers. */
  lemma BeforeIsOrdinalOrder(a: YearMonth, b: YearMonth)
    requires ValidMonth(a) && ValidMonth(b)
    ensures Before(a, b) <==> MonthOrdinal(a) < MonthOrdinal(b)
  {
  }

  /** The month after ym: the monthly period ym plus one. */
  function NextMonth(ym: YearMonth): (n: YearMonth)
    ensures ValidMonth(n)
    ensures MonthOrdinal(n) == MonthOrdinal(ym) + 1
    ensures 1 <= ym.month < 12 ==> n == YearMonth(ym.year, ym.month + 1)
    ensures ym.month == 12 ==> n == YearMonth(ym.year + 1, 1)
  {
    FromOrdinal(MonthOrdinal(ym) + 1)
  }

  /** The next month comes after ym, and no valid month lies strictly between them. */
  lemma NextMonthIsSuccessor(ym: YearMonth, other: YearMonth)
    requires ValidMonth(ym) && ValidMonth(other)
    ensures Before(ym, NextMonth(ym))
    ensures !(Before(ym, other) && Before(other, NextMonth(ym)))
  {
    BeforeIsOrdinalOrder(ym, NextMonth(ym));
    BeforeIsOrdinalOrder(ym, other);
    BeforeIsOrdinalOrder(other, NextMonth(ym));
  }
}
