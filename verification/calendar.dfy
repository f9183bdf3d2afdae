/** Calendar dates of the proleptic Gregorian calendar (ISO 8601), with the
    day ordinal that Python's `date.toordinal` computes: 0001-01-01 is day 1.
    The tracker counts the days left before an exam as the difference of two
    such ordinals. */
module Calendar {

  /** The year range of Python's `date` type (MINYEAR and MAXYEAR). */
  const MinYear: int := 1
  const MaxYear: int := 9999

  datatype Date = Date(year: int, month: int, day: int)

  /** The last representable date, 9999-12-31. */
  const LastDate: Date := Date(MaxYear, 12, 31)

  predicate IsLeapYear(y: int) {
    y % 4 == 0 && (y % 100 != 0 || y % 400 == 0)
  }

  /** Month lengths of a common year, January first. */
  const MonthLengths: seq<int> := [31, 28, 31, 30, 31, 30, 31, 31, 30, 31, 30, 31]

  function DaysInMonth(y: int, m: int): (n: int)
    requires 1 <= m <= 12
    ensures m == 2 ==> n == (if IsLeapYear(y) then 29 else 28)
    ensures m != 2 ==> n == (if m in {4, 6, 9, 11} then 30 else 31)
  {
    if m == 2 && IsLeapYear(y) then 29 else MonthLengths[m - 1]
  }

  /** The dates `strptime("%Y-%m-%d")` accepts: a year Python's `date` can
      hold, a month 1..12, and a day that exists in that month and year. */
  predicate Valid(d: Date)
    ensures Valid(d) ==> MinYear <= d.year <= MaxYear && 1 <= d.month <= 12
    ensures Valid(d) ==> 1 <= d.day <= 31
    ensures d.month == 2 && d.day >= 30 ==> !Valid(d)
    ensures d.month in {4, 6, 9, 11} && d.day >= 31 ==> !Valid(d)
    ensures MinYear <= d.year <= MaxYear && 1 <= d.month <= 12 && 1 <= d.day <= 28 ==> Valid(d)
    ensures MinYear <= d.year <= MaxYear && 1 <= d.month <= 12 && d.month != 2 && 1 <= d.day <= 30 ==>
      Valid(d)
    ensures d.month == 2 && d.day == 29 ==>
      (Valid(d) <==> MinYear <= d.year <= MaxYear && IsLeapYear(d.year))
    ensures d.day == 31 ==>
      (Valid(d) <==> MinYear <= d.year <= MaxYear && d.month in {1, 3, 5, 7, 8, 10, 12})
  {
    && MinYear <= d.year <= MaxYear
    && 1 <= d.month <= 12
    && 1 <= d.day <= DaysInMonth(d.year, d.month)
  }

  function DaysInYear(y: int): int {
    if IsLeapYear(y) then 366 else 365
  }

  /** Days in the years 1 .. y-1, in the closed form Python uses. */
  function DaysBeforeYear(y: int): int
    requires y >= 1
  {
    var p := y - 1;
    p * 365 + p / 4 - p / 100 + p / 400
  }

  /** Days in the months before each month of a common year. */
  const CumulativeDays: seq<int> := [0, 31, 59, 90, 120, 151, 181, 212, 243, 273, 304, 334]

  /** Days in the months 1 .. m-1 of year y, as a table lookup plus the
      leap day once February is past. */
  function DaysBeforeMonth(y: int, m: int): int
    requires 1 <= m <= 12
  {
    CumulativeDays[m - 1] + (if m > 2 && IsLeapYear(y) then 1 else 0)
  }

  /** The day number of `d`, counting 0001-01-01 as day 1. */
  function Ordinal(d: Date): (n: int)
    requires Valid(d)
    ensures DaysBeforeYear(d.year) < n <= DaysBeforeYear(d.year) + DaysInYear(d.year)
    ensures n >= 1
  {
    DaysBeforeMonthIsSum(d.year, d.month);
    MonthSumBound(d.year, d.month);
    DaysBeforeYearIsSum(d.year);
    DaysBeforeYear(d.year) + DaysBeforeMonth(d.year, d.month) + d.day
  }

  /** Whole days from `today` to `examDate`: positive while the exam is
      ahead, zero on the exam day, negative once it has passed. */
  function DaysLeft(examDate: Date, today: Date): (n: int)
    requires Valid(examDate) && Valid(today)
    ensures n > 0 <==> Before(today, examDate)
    ensures n == 0 <==> examDate == today
    ensures n < 0 <==> Before(examDate, today)
  {
    OrdinalOrder(today, examDate);
    OrdinalOrder(examDate, today);
    Ordinal(examDate) - Ordinal(today)
  }

  /** Calendar order, read field by field: the reference the ordinal is
      checked against. */
  predicate Before(a: Date, b: Date) {
    || a.year < b.year
    || (a.year == b.year && a.month < b.month)
    || (a.year == b.year && a.month == b.month && a.day < b.day)
  }

  // ---------------------------------------------------------------------
  // Reference definitions: days counted one year (one month) at a time.

  /** Sum of DaysInYear(k) for 1 <= k < y. */
  function YearSum(y: int): int
    requires y >= 1
    decreases y
  {
    if y == 1 then 0 else YearSum(y - 1) + DaysInYear(y - 1)
  }

  /** Sum of DaysInMonth(y, k) for 1 <= k < m. */
  function MonthSum(y: int, m: int): int
    requires 1 <= m <= 13
    decreases m
  {
    if m == 1 then 0 else MonthSum(y, m - 1) + DaysInMonth(y, m - 1)
  }

  /** Stepping a year past a multiple of k adds one to the count of
      multiples of k (for the divisors of the leap-year rule). */
  lemma MultiplesStep(y: int)
    requires y >= 1
    ensures y / 4 - (y - 1) / 4 == (if y % 4 == 0 then 1 else 0)
    ensures y / 100 - (y - 1) / 100 == (if y % 100 == 0 then 1 else 0)
    ensures y / 400 - (y - 1) / 400 == (if y % 400 == 0 then 1 else 0)
  {
  }

  /** The divisors of the leap-year rule divide one another. */
  lemma DivisorChain(y: int)
    ensures y % 400 == 0 ==> y % 100 == 0
    ensures y % 100 == 0 ==> y % 4 == 0
  {
    var t := 4 * (y / 400) - y / 100;
    assert y % 400 == 0 ==> 100 * t == y % 100;
    var u := 25 * (y / 100) - y / 4;
    assert y % 100 == 0 ==> 4 * u == y % 4;
  }

  /** One more year adds exactly that year's length to the closed form. */
  lemma DaysBeforeYearStep(y: int)
    requires y >= 1
    ensures DaysBeforeYear(y + 1) == DaysBeforeYear(y) + DaysInYear(y)
  {
    MultiplesStep(y);
    DivisorChain(y);
    var a, b, c := y / 4 - (y - 1) / 4, y / 100 - (y - 1) / 100, y / 400 - (y - 1) / 400;
    assert DaysBeforeYear(y + 1) - DaysBeforeYear(y) == 365 + a - b + c;
  }

  /** The closed form counts the same days as the year-by-year sum. */
  lemma {:induction false} DaysBeforeYearIsSum(y: int)
    requires y >= 1
    ensures DaysBeforeYear(y) == YearSum(y)
    decreases y
  {
    if y > 1 {
      DaysBeforeYearIsSum(y - 1);
      DaysBeforeYearStep(y - 1);
    }
  }

  /** The month table counts the same days as the month-by-month sum. */
  lemma {:induction false} DaysBeforeMonthIsSum(y: int, m: int)
    requires 1 <= m <= 12
    ensures DaysBeforeMonth(y, m) == MonthSum(y, m)
    decreases m
  {
    if m > 1 {
      DaysBeforeMonthIsSum(y, m - 1);
    }
  }

  /** All twelve months together make up the year. */
  lemma YearIsTwelveMonths(y: int)
    ensures MonthSum(y, 13) == DaysInYear(y)
  {
    DaysBeforeMonthIsSum(y, 12);
  }

  /** A day of month m lies within the year. */
  lemma {:induction false} MonthSumBound(y: int, m: int)
    requires 1 <= m <= 12
    ensures MonthSum(y, m) + DaysInMonth(y, m) == MonthSum(y, m + 1)
    ensures MonthSum(y, m + 1) <= DaysInYear(y)
    decreases 12 - m
  {
    if m < 12 {
      MonthSumBound(y, m + 1);
    } else {
      YearIsTwelveMonths(y);
    }
  }

  /** The reference sums grow with their argument. */
  lemma {:induction false} YearSumMonotone(x: int, y: int)
    requires 1 <= x <= y
    ensures YearSum(x) <= YearSum(y)
    decreases y
  {
    if x < y {
      YearSumMonotone(x, y - 1);
    }
  }

  lemma {:induction false} MonthSumMonotone(y: int, m: int, k: int)
    requires 1 <= m <= k <= 13
    ensures MonthSum(y, m) <= MonthSum(y, k)
    decreases k
  {
    if m < k {
      MonthSumMonotone(y, m, k - 1);
    }
  }

  /** A whole year lies between the start of an earlier year and the start
      of any later one. */
  lemma DaysBeforeYearMonotone(x: int, y: int)
    requires 1 <= x < y
    ensures DaysBeforeYear(x) + DaysInYear(x) <= DaysBeforeYear(y)
  {
    DaysBeforeYearStep(x);
    DaysBeforeYearIsSum(x + 1);
    DaysBeforeYearIsSum(y);
    YearSumMonotone(x + 1, y);
  }

  /** A whole month lies between the start of an earlier month and the
      start of any later month of the same year. */
  lemma DaysBeforeMonthMonotone(y: int, m: int, k: int)
    requires 1 <= m < k <= 12
    ensures DaysBeforeMonth(y, m) + DaysInMonth(y, m) <= DaysBeforeMonth(y, k)
  {
    DaysBeforeMonthIsSum(y, m);
    DaysBeforeMonthIsSum(y, k);
    MonthSumBound(y, m);
    MonthSumMonotone(y, m + 1, k);
  }

  /** The next month starts right after this one. */
  lemma DaysBeforeMonthStep(y: int, m: int)
    requires 1 <= m < 12
    ensures DaysBeforeMonth(y, m + 1) == DaysBeforeMonth(y, m) + DaysInMonth(y, m)
  {
    DaysBeforeMonthIsSum(y, m);
    DaysBeforeMonthIsSum(y, m + 1);
  }

  /** December ends the year. */
  lemma DecemberEndsYear(y: int)
    ensures DaysBeforeMonth(y, 12) + DaysInMonth(y, 12) == DaysInYear(y)
  {
    DaysBeforeMonthIsSum(y, 12);
    YearIsTwelveMonths(y);
  }

  // ---------------------------------------------------------------------
  // The ordinal agrees with calendar order.

  lemma BeforeHasSmallerOrdinal(a: Date, b: Date)
    requires Valid(a) && Valid(b) && Before(a, b)
    ensures Ordinal(a) < Ordinal(b)
  {
    if a.year < b.year {
      DaysBeforeYearMonotone(a.year, b.year);
    } else if a.month < b.month {
      DaysBeforeMonthMonotone(a.year, a.month, b.month);
    }
  }

  /** Two valid dates are in calendar order exactly when their ordinals are,
      and equal exactly when their ordinals are: the ordinal numbers the
      days of the calendar one to one. */
  lemma OrdinalOrder(a: Date, b: Date)
    requires Valid(a) && Valid(b)
    ensures Before(a, b) <==> Ordinal(a) < Ordinal(b)
    ensures a == b <==> Ordinal(a) == Ordinal(b)
  {
    if Before(a, b) {
      BeforeHasSmallerOrdinal(a, b);
    } else if a != b {
      BeforeHasSmallerOrdinal(b, a);
    }
  }

  // ---------------------------------------------------------------------
  // Stepping through the calendar (the `date + timedelta(days=n)` partner
  // of the countdown).

  /** The day after `d`. */
  function NextDay(d: Date): (r: Date)
    requires Valid(d) && d != LastDate
    ensures Valid(r) && Before(d, r)
    ensures Ordinal(r) == Ordinal(d) + 1
  {
    if d.day < DaysInMonth(d.year, d.month) then
      Date(d.year, d.month, d.day + 1)
    else if d.month < 12 then
      DaysBeforeMonthStep(d.year, d.month);
      Date(d.year, d.month + 1, 1)
    else
      DaysBeforeYearStep(d.year);
      DecemberEndsYear(d.year);
      Date(d.year + 1, 1, 1)
  }

  /** The date `n` days after `d`; the countdown from it back to `d` is
      exactly `n`, and from `d` to it exactly `-n`. */
  function AddDays(d: Date, n: nat): (r: Date)
    requires Valid(d) && Ordinal(d) + n <= Ordinal(LastDate)
    ensures Valid(r) && Ordinal(r) == Ordinal(d) + n
    ensures DaysLeft(r, d) == n && DaysLeft(d, r) == -(n as int)
    decreases n
  {
    if n == 0 then d else AddDays(NextDay(d), n - 1)
  }
}
