/**
 Calendar dates as days since 1970-01-01. On valid Gregorian dates from that day on (section
 5.7 and Appendix C of RFC 3339) the conversion is an order-preserving bijection onto the
 natural numbers; the checks it makes on its input admit more than those dates.
 */
module Calendar {
  import opened Wrappers

  datatype Date = Date(year: int, month: int, day: int)

  predicate IsLeapYear(year: int) {
    (year % 4 == 0 && year % 100 != 0) || year % 400 == 0
  }

  const MONTH_DAYS: seq<nat> := [31, 28, 31, 30, 31, 30, 31, 31, 30, 31, 30, 31]

  function DaysInMonth(year: int, month: int): nat
    requires 1 <= month <= 12
  {
    MONTH_DAYS[month - 1] + if month == 2 && IsLeapYear(year) then 1 else 0
  }

  function DaysInYear(year: int): nat {
    if IsLeapYear(year) then 366 else 365
  }

  predicate Valid(d: Date) {
    d.year >= 1970 && 1 <= d.month <= 12 && 1 <= d.day <= DaysInMonth(d.year, d.month)
  }

  // ---------------------------------------------------------------------------
  // The conversion
  // ---------------------------------------------------------------------------

  /** Days from 1970-01-01 to the start of the year; 0 for earlier years. */
  function YearStart(year: int): nat
    decreases year
  {
    if year <= 1970 then 0 else YearStart(year - 1) + DaysInYear(year - 1)
  }

  function MonthStart(year: int, month: int): nat
    requires 1 <= month <= 12
  {
    if month == 1 then 0 else MonthStart(year, month - 1) + DaysInMonth(year, month - 1)
  }

  /** The inputs the conversion accepts: any month, and 1 to 31 in every month. */
  predicate Accepted(d: Date) {
    1 <= d.month <= 12 && 1 <= d.day <= 31
  }

  function EpochDays(d: Date): nat
    requires Accepted(d)
  {
    YearStart(d.year) + MonthStart(d.year, d.month) + d.day - 1
  }

  function TableSum(n: nat): nat
    requires n <= 12
  {
    if n == 0 then 0 else TableSum(n - 1) + MONTH_DAYS[n - 1]
  }

  lemma {:induction false} TableIsMonthStart(year: int, month: int)
    requires 1 <= month <= 12
    ensures MonthStart(year, month) == TableSum(month - 1) + if month > 2 && IsLeapYear(year) then 1 else 0
    decreases month
  {
    if month > 1 { TableIsMonthStart(year, month - 1); }
  }

  method DateToEpochDays(year: int, month: int, day: int) returns (r: Option<nat>)
    ensures r == if Accepted(Date(year, month, day)) then Some(EpochDays(Date(year, month, day))) else None
    ensures r.None? <==> month < 1 || month > 12 || day < 1 || day > 31
  {
    if !(1 <= month <= 12) || !(1 <= day <= 31) {
      return None;
    }
    var total: int := 0;
    var y := 1970;
    while y < year
      invariant 1970 <= y && (y <= year || y == 1970) && total == YearStart(y)
    {
      total := total + if IsLeapYear(y) then 366 else 365;
      y := y + 1;
    }
    assert YearStart(year) == total;
    for i := 0 to month - 1
      invariant total == YearStart(year) + TableSum(i)
    {
      total := total + MONTH_DAYS[i];
    }
    if month > 2 && IsLeapYear(year) {
      total := total + 1;
    }
    TableIsMonthStart(year, month);
    total := total + day - 1;
    if total < 0 {
      return None;
    }
    r := Some(total);
  }

  // ---------------------------------------------------------------------------
  // The next day is one more
  // ---------------------------------------------------------------------------

  function NextDay(d: Date): (r: Date)
    requires Valid(d)
    ensures Valid(r)
  {
    if d.day < DaysInMonth(d.year, d.month) then d.(day := d.day + 1)
    else if d.month < 12 then Date(d.year, d.month + 1, 1)
    else Date(d.year + 1, 1, 1)
  }

  lemma MonthsFillYear(year: int)
    ensures MonthStart(year, 12) + 31 == DaysInYear(year)
  {
    TableIsMonthStart(year, 12);
    TableTotal();
  }

  lemma TableTotal()
    ensures TableSum(11) == 334
  {
    assert TableSum(4) == 120;
    assert TableSum(8) == 243;
  }

  lemma NextDayIsOneMore(d: Date)
    requires Valid(d)
    ensures EpochDays(NextDay(d)) == EpochDays(d) + 1
  {
    if d.day == DaysInMonth(d.year, d.month) && d.month == 12 {
      MonthsFillYear(d.year);
    }
  }

  // ---------------------------------------------------------------------------
  // Order
  // ---------------------------------------------------------------------------

  predicate Before(a: Date, b: Date) {
    || a.year < b.year
    || (a.year == b.year && a.month < b.month)
    || (a.year == b.year && a.month == b.month && a.day < b.day)
  }

  lemma {:induction false} MonthStartMonotone(year: int, m: int, n: int)
    requires 1 <= m < n <= 12
    ensures MonthStart(year, m) + DaysInMonth(year, m) <= MonthStart(year, n)
    decreases n
  {
    if m < n - 1 { MonthStartMonotone(year, m, n - 1); }
  }

  lemma {:induction false} YearStartMonotone(x: int, y: int)
    requires 1970 <= x < y
    ensures YearStart(x) + DaysInYear(x) <= YearStart(y)
    decreases y
  {
    if x < y - 1 { YearStartMonotone(x, y - 1); }
  }

  lemma WithinYear(d: Date)
    requires Valid(d)
    ensures YearStart(d.year) <= EpochDays(d) < YearStart(d.year) + DaysInYear(d.year)
  {
    MonthsFillYear(d.year);
    if d.month < 12 { MonthStartMonotone(d.year, d.month, 12); }
  }

  lemma OrderPreserved(a: Date, b: Date)
    requires Valid(a) && Valid(b) && Before(a, b)
    ensures EpochDays(a) < EpochDays(b)
  {
    if a.year < b.year {
      WithinYear(a);
      WithinYear(b);
      YearStartMonotone(a.year, b.year);
    } else if a.month < b.month {
      MonthStartMonotone(a.year, a.month, b.month);
    }
  }

  // ---------------------------------------------------------------------------
  // The inverse
  // ---------------------------------------------------------------------------

  /** The date n days after 1970-01-01. */
  function DateOf(n: nat): (d: Date)
    ensures Valid(d)
  {
    if n == 0 then Date(1970, 1, 1) else NextDay(DateOf(n - 1))
  }

  /** The conversion and counting days are inverse to each other, on every natural number and
      on every valid date, and earlier means less. */
  lemma {:induction false} Bijection(n: nat, d: Date)
    requires Valid(d)
    ensures EpochDays(DateOf(n)) == n
    ensures DateOf(EpochDays(d)) == d
  {
    DaysOfDate(n);
    var e := DateOf(EpochDays(d));
    DaysOfDate(EpochDays(d));
    if Before(d, e) {
      OrderPreserved(d, e);
    } else if Before(e, d) {
      OrderPreserved(e, d);
    }
  }

  lemma {:induction false} DaysOfDate(n: nat)
    ensures EpochDays(DateOf(n)) == n
  {
    if n > 0 {
      DaysOfDate(n - 1);
      NextDayIsOneMore(DateOf(n - 1));
    }
  }

  // ---------------------------------------------------------------------------
  // The closed form
  // ---------------------------------------------------------------------------

  /** Leap years up to and including the given one, counted from year 1. */
  function LeapYearsUpTo(year: int): int {
    year / 4 - year / 100 + year / 400
  }

  lemma Quotient(y: int, k: int)
    requires y >= 1 && (k == 4 || k == 100 || k == 400)
    ensures y / k - (y - 1) / k == if y % k == 0 then 1 else 0
  {
  }

  lemma Centuries(y: int)
    ensures y % 100 == 0 ==> y % 4 == 0
    ensures y % 400 == 0 ==> y % 100 == 0
  {
    if y % 100 == 0 { assert y == 4 * (25 * (y / 100)); }
    if y % 400 == 0 { assert y == 100 * (4 * (y / 400)); }
  }

  lemma LeapYearCounts(year: int)
    requires year >= 1
    ensures LeapYearsUpTo(year) - LeapYearsUpTo(year - 1) == if IsLeapYear(year) then 1 else 0
  {
    var before := year - 1;
    assert year / 4 - before / 4 == if year % 4 == 0 then 1 else 0 by { Quotient(year, 4); }
    assert year / 100 - before / 100 == if year % 100 == 0 then 1 else 0 by { Quotient(year, 100); }
    assert year / 400 - before / 400 == if year % 400 == 0 then 1 else 0 by { Quotient(year, 400); }
    Centuries(year);
  }

  lemma {:induction false} ClosedForm(year: int)
    requires year >= 1970
    ensures YearStart(year) == 365 * (year - 1970) + LeapYearsUpTo(year - 1) - LeapYearsUpTo(1969)
    decreases year
  {
    if year > 1970 {
      ClosedForm(year - 1);
      LeapYearCounts(year - 1);
    }
  }

  /** Days before the month in a year that is not a leap year, by the rule that the months from
      March on repeat 31, 30, 31, 30, 31: five of them are 153 days. */
  function DaysBeforeMonth(month: int): int
    requires 1 <= month <= 12
  {
    if month <= 2 then 31 * (month - 1) else (153 * (month - 3) + 2) / 5 + 59
  }

  lemma TableSums(n: nat)
    requires n <= 11
    ensures TableSum(n) == DaysBeforeMonth(n + 1)
  {
    assert TableSum(2) == 59;
    assert TableSum(4) == 120;
    assert TableSum(6) == 181;
    assert TableSum(8) == 243;
    assert TableSum(10) == 304;
  }

  lemma MonthClosedForm(year: int, month: int)
    requires 1 <= month <= 12
    ensures MonthStart(year, month) == DaysBeforeMonth(month) + if month > 2 && IsLeapYear(year) then 1 else 0
  {
    TableIsMonthStart(year, month);
    TableSums(month - 1);
  }

  /** The month lengths of section 5.7 of RFC 3339, month by month. */
  lemma MonthLengths(year: int, month: int)
    requires 1 <= month <= 12
    ensures month in {1, 3, 5, 7, 8, 10, 12} ==> DaysInMonth(year, month) == 31
    ensures month in {4, 6, 9, 11} ==> DaysInMonth(year, month) == 30
    ensures month == 2 ==>
              DaysInMonth(year, month) == if year % 4 == 0 && (year % 100 != 0 || year % 400 == 0) then 29 else 28
  {
    Centuries(year);
  }

  /** One formula for every date from 1970 on, without the table and without a loop. */
  function DayNumber(year: int, month: int, day: int): int
    requires 1 <= month <= 12
  {
    var leap := year % 4 == 0 && (year % 100 != 0 || year % 400 == 0);
    365 * (year - 1970) + (year - 1) / 4 - (year - 1) / 100 + (year - 1) / 400 - 477
    + (if month <= 2 then 31 * (month - 1) else (153 * (month - 3) + 2) / 5 + if leap then 60 else 59) + day - 1
  }

  lemma DateClosedForm(d: Date)
    requires Accepted(d) && d.year >= 1970
    ensures EpochDays(d) == DayNumber(d.year, d.month, d.day)
  {
    ClosedForm(d.year);
    MonthClosedForm(d.year, d.month);
    Centuries(d.year);
    assert LeapYearsUpTo(1969) == 477;
  }

  // ---------------------------------------------------------------------------
  // Accepted dates that do not exist, and earlier years
  // ---------------------------------------------------------------------------

  /** A day that its month does not have is given the number of a day of the next month. */
  lemma MissingDayCollides(d: Date)
    requires Accepted(d) && d.year >= 1970 && !Valid(d)
    ensures var existing := Date(d.year, d.month + 1, d.day - DaysInMonth(d.year, d.month));
            Valid(existing) && EpochDays(d) == EpochDays(existing)
  {
  }

  /** A date of an earlier year gets the number of the same day of 1970, or of the day after it
      when a leap day has gone by in its own year. */
  lemma EarlierYearCollides(d: Date)
    requires Accepted(d) && d.year < 1970
    ensures EpochDays(d) ==
            EpochDays(Date(1970, d.month, d.day)) + if d.month > 2 && IsLeapYear(d.year) then 1 else 0
  {
    TableIsMonthStart(d.year, d.month);
    TableIsMonthStart(1970, d.month);
  }

  /** An accepted input, of whatever year, is the only one with its number among valid dates
      exactly when it is itself a valid date. */
  lemma DistinctIffValid(d: Date)
    requires Accepted(d)
    ensures Valid(d) <==> forall e :: Valid(e) && EpochDays(e) == EpochDays(d) ==> e == d
  {
    if Valid(d) {
      forall e | Valid(e) && EpochDays(e) == EpochDays(d) ensures e == d {
        Bijection(0, d);
        Bijection(0, e);
      }
    } else {
      DaysOfDate(EpochDays(d));
    }
  }
}
