/** The calendar the season counter computes with: Python's `datetime.date`,
    that is, the proleptic Gregorian calendar, with its validity rule, its
    lexicographic ordering, day ordinals (whose differences are the `.days`
    of a date subtraction) and the following day (`+ timedelta(days=1)`). */
module Calendar {

  /** A (year, month, day) triple; `Valid` says whether it names a real day. */
  datatype Date = Date(year: int, month: int, day: int)

  /** Python's `date` refuses years outside MINYEAR..MAXYEAR with ValueError. */
  const MinYear: int := 1
  const MaxYear: int := 9999

  predicate InPythonRange(y: int) {
    MinYear <= y <= MaxYear
  }

  /** Gregorian leap years, as in section 5.7 of RFC 3339. */
  predicate IsLeapYear(y: int) {
    y % 4 == 0 && (y % 100 != 0 || y % 400 == 0)
  }

  function DaysInYear(y: int): int {
    if IsLeapYear(y) then 366 else 365
  }

  /** The number of days in month `m` of year `y` (section 5.7 of RFC 3339). */
  function DaysInMonth(m: int, y: int): int {
    if m == 2 then (if IsLeapYear(y) then 29 else 28)
    else if m == 4 || m == 6 || m == 9 || m == 11 then 30
    else 31
  }

  /** The days of year `y` that come before the first of month `m`. */
  function DaysBeforeMonth(m: int, y: int): int {
    var leap := if m > 2 && IsLeapYear(y) then 1 else 0;
    leap +
    if m == 1 then 0 else if m == 2 then 31 else if m == 3 then 59
    else if m == 4 then 90 else if m == 5 then 120 else if m == 6 then 151
    else if m == 7 then 181 else if m == 8 then 212 else if m == 9 then 243
    else if m == 10 then 273 else if m == 11 then 304 else 334
  }

  /** The days before January 1 of year `y`, counted from January 1 of
      year 1 (negative for earlier years): year by year, each year adding
      its length. `DaysBeforeYearClosedForm` gives Python's formula. */
  function DaysBeforeYear(y: int): int
    decreases if y >= 1 then y - 1 else 1 - y
  {
    if y == 1 then 0
    else if y > 1 then DaysBeforeYear(y - 1) + DaysInYear(y - 1)
    else DaysBeforeYear(y + 1) - DaysInYear(y)
  }

  /** A date that exists in the calendar. */
  predicate Valid(d: Date) {
    1 <= d.month <= 12 && 1 <= d.day <= DaysInMonth(d.month, d.year)
  }

  /** A value of Python's `date` type: a real day in years 1..9999. */
  predicate IsPythonDate(d: Date) {
    Valid(d) && InPythonRange(d.year)
  }

  /** Python's `date.toordinal()`: January 1 of year 1 is day 1. The
      difference of two ordinals is the `.days` of the dates' difference. */
  function Ordinal(d: Date): int {
    DaysBeforeYear(d.year) + DaysBeforeMonth(d.month, d.year) + d.day
  }

  /** The day of the year, 1 for January 1. */
  function DayOfYear(d: Date): int {
    DaysBeforeMonth(d.month, d.year) + d.day
  }

  /** Python's `a < b` on dates: lexicographic on (year, month, day). */
  predicate Less(a: Date, b: Date) {
    a.year < b.year
    || (a.year == b.year && a.month < b.month)
    || (a.year == b.year && a.month == b.month && a.day < b.day)
  }

  predicate LessOrEqual(a: Date, b: Date) {
    Less(a, b) || a == b
  }

  /** `d + timedelta(days=1)`. */
  function Next(d: Date): Date
    requires Valid(d)
  {
    if d.day < DaysInMonth(d.month, d.year) then Date(d.year, d.month, d.day + 1)
    else if d.month < 12 then Date(d.year, d.month + 1, 1)
    else Date(d.year + 1, 1, 1)
  }

  /** The date that is day `n` of year `y`, found by walking the months
      from `m` on; `n` counts from the first of month `m`. */
  function DateInYearFrom(y: int, n: int, m: int): (d: Date)
    requires 1 <= m <= 12
    requires 1 <= n <= DaysInYear(y) - DaysBeforeMonth(m, y)
    ensures Valid(d) && d.year == y && m <= d.month
    ensures DayOfYear(d) == DaysBeforeMonth(m, y) + n
    decreases 12 - m
  {
    MonthTable(y, m);
    if n <= DaysInMonth(m, y) then Date(y, m, n)
    else DateInYearFrom(y, n - DaysInMonth(m, y), m + 1)
  }

  /** The date that is day `n` (1-based) of year `y`. */
  function DateOfDayOfYear(y: int, n: int): (d: Date)
    requires 1 <= n <= DaysInYear(y)
    ensures Valid(d) && d.year == y && DayOfYear(d) == n
  {
    DateInYearFrom(y, n, 1)
  }

  // ---------------------------------------------------------------------------
  // Lemmas

  /** The month table agrees with the month lengths: each month starts where
      the previous one ends, and December ends the year. */
  lemma MonthTable(y: int, m: int)
    requires 1 <= m <= 12
    ensures DaysBeforeMonth(1, y) == 0
    ensures m < 12 ==> DaysBeforeMonth(m + 1, y) == DaysBeforeMonth(m, y) + DaysInMonth(m, y)
    ensures m == 12 ==> DaysInYear(y) == DaysBeforeMonth(m, y) + DaysInMonth(m, y)
  {
  }

  /** A later month of the same year starts no earlier than an earlier month ends. */
  lemma {:induction false} MonthsInOrder(y: int, m1: int, m2: int)
    requires 1 <= m1 < m2 <= 12
    ensures DaysBeforeMonth(m1, y) + DaysInMonth(m1, y) <= DaysBeforeMonth(m2, y)
    decreases m2 - m1
  {
    MonthTable(y, m1);
    if m1 + 1 < m2 {
      MonthsInOrder(y, m1 + 1, m2);
      MonthTable(y, m1 + 1);
    }
  }

  /** Every valid date's day of the year lies within the year. */
  lemma DayOfYearBounds(d: Date)
    requires Valid(d)
    ensures 1 <= DayOfYear(d) <= DaysInYear(d.year)
  {
    if d.month < 12 {
      MonthsInOrder(d.year, d.month, 12);
    }
    MonthTable(d.year, 12);
  }

  /** A positive multiple of `k` is at least `k`. */
  lemma MulAtLeast(a: int, k: int)
    requires a >= 1 && k > 0
    ensures a * k >= k
  {
  }

  /** Division by a positive `k` is unique: quotient and remainder are
      determined by `x == q * k + r` with `0 <= r < k`. */
  lemma DivModUnique(x: int, k: int, q: int, r: int)
    requires k > 0 && x == q * k + r && 0 <= r < k
    ensures x / k == q && x % k == r
  {
    var q', r' := x / k, x % k;
    assert x == q' * k + r';
    assert q' * k - q * k == r - r';
    assert (q' - q) * k == q' * k - q * k;
    if q' > q {
      MulAtLeast(q' - q, k);
    } else if q' < q {
      MulAtLeast(q - q', k);
    }
  }

  /** Going from year `y - 1` to `y`, `p / k` grows by one exactly when `k`
      divides `y`. */
  lemma DivStep(y: int, k: int)
    requires k > 0
    ensures y / k - (y - 1) / k == (if y % k == 0 then 1 else 0)
  {
    var q, r := (y - 1) / k, (y - 1) % k;
    assert y - 1 == q * k + r;
    if r == k - 1 {
      DivModUnique(y, k, q + 1, 0);
    } else {
      DivModUnique(y, k, q, r + 1);
    }
  }

  /** A multiple of `a * b` is a multiple of `a`. */
  lemma MultipleOfFactor(y: int, a: int, b: int)
    requires a > 0 && b > 0 && y % (a * b) == 0
    ensures y % a == 0
  {
    var q := y / (a * b);
    assert y == q * (a * b);
    assert y == (q * b) * a + 0;
    DivModUnique(y, a, q * b, 0);
  }

  /** Year `y` has DaysInYear(y) days: the year-start counts of consecutive
      years differ by exactly the length of the earlier year. */
  lemma YearLength(y: int)
    ensures DaysBeforeYear(y + 1) == DaysBeforeYear(y) + DaysInYear(y)
  {
  }

  /** Python's `_days_before_year`: 365 days a year plus one for every
      fourth year, less the centuries, plus every fourth century. */
  lemma {:induction false} DaysBeforeYearClosedForm(y: int)
    ensures var p := y - 1; DaysBeforeYear(y) == 365 * p + p / 4 - p / 100 + p / 400
    decreases if y >= 1 then y - 1 else 1 - y
  {
    var p := y - 1;
    if y > 1 {
      DaysBeforeYearClosedForm(y - 1);
      LeapStep(p);
    } else if y < 1 {
      DaysBeforeYearClosedForm(y + 1);
      LeapStep(y);
    }
  }

  /** The closed form grows by the length of year `y` from `y - 1` to `y`. */
  lemma LeapStep(y: int)
    ensures (y / 4 - (y - 1) / 4) - (y / 100 - (y - 1) / 100) + (y / 400 - (y - 1) / 400)
            == DaysInYear(y) - 365
  {
    DivStep(y, 4);
    DivStep(y, 100);
    DivStep(y, 400);
    if y % 100 == 0 {
      MultipleOfFactor(y, 4, 25);
    }
    if y % 400 == 0 {
      MultipleOfFactor(y, 100, 4);
    }
  }

  /** The ordinals of a year's days fill the range after the year-start count. */
  lemma OrdinalWithinYear(d: Date)
    requires Valid(d)
    ensures DaysBeforeYear(d.year) < Ordinal(d) <= DaysBeforeYear(d.year + 1)
  {
    DayOfYearBounds(d);
    YearLength(d.year);
  }

  /** Year-start counts grow with the year. */
  lemma {:induction false} YearsInOrder(y1: int, y2: int)
    requires y1 <= y2
    ensures DaysBeforeYear(y1) <= DaysBeforeYear(y2)
    decreases y2 - y1
  {
    if y1 < y2 {
      YearLength(y1);
      YearsInOrder(y1 + 1, y2);
    }
  }

  /** Python's date ordering and the ordinal order agree on valid dates. */
  lemma LessIffOrdinalLess(a: Date, b: Date)
    requires Valid(a) && Valid(b)
    ensures Less(a, b) <==> Ordinal(a) < Ordinal(b)
  {
    if a.year < b.year {
      OrdinalWithinYear(a);
      OrdinalWithinYear(b);
      YearsInOrder(a.year + 1, b.year);
    } else if b.year < a.year {
      OrdinalWithinYear(a);
      OrdinalWithinYear(b);
      YearsInOrder(b.year + 1, a.year);
    } else if a.month < b.month {
      MonthsInOrder(a.year, a.month, b.month);
    } else if b.month < a.month {
      MonthsInOrder(a.year, b.month, a.month);
    }
  }

  /** Two valid dates are the same day exactly when their ordinals agree. */
  lemma OrdinalInjective(a: Date, b: Date)
    requires Valid(a) && Valid(b)
    ensures a == b <==> Ordinal(a) == Ordinal(b)
  {
    LessIffOrdinalLess(a, b);
    LessIffOrdinalLess(b, a);
  }

  /** `Next` is the successor: it yields a valid date one ordinal later. */
  lemma NextIsSuccessor(d: Date)
    requires Valid(d)
    ensures Valid(Next(d)) && Ordinal(Next(d)) == Ordinal(d) + 1
    ensures Less(d, Next(d))
  {
    MonthTable(d.year, d.month);
    if d.day == DaysInMonth(d.month, d.year) && d.month == 12 {
      YearLength(d.year);
    }
  }

  /** Walking a year with `Next` visits its days in day-of-year order: day
      `n + 1` follows day `n`, January 1 is day 1 and December 31 the last. */
  lemma NextDayOfYear(y: int, n: int)
    requires 1 <= n < DaysInYear(y)
    ensures Next(DateOfDayOfYear(y, n)) == DateOfDayOfYear(y, n + 1)
  {
    var d, e := DateOfDayOfYear(y, n), DateOfDayOfYear(y, n + 1);
    NextIsSuccessor(d);
    DayOfYearBounds(Next(d));
    if Next(d).year != y {
      // only December 31 moves to the next year, and it is the last day
      MonthTable(y, 12);
      assert false;
    }
    OrdinalInjective(Next(d), e);
  }

  /** Days of one year are in date order exactly as their numbers are. */
  lemma DaysOfYearInOrder(y: int, j: int, k: int)
    requires 1 <= j <= DaysInYear(y) && 1 <= k <= DaysInYear(y)
    ensures Less(DateOfDayOfYear(y, j), DateOfDayOfYear(y, k)) <==> j < k
  {
    LessIffOrdinalLess(DateOfDayOfYear(y, j), DateOfDayOfYear(y, k));
  }

  /** The first and last days of a year by day-of-year number. */
  lemma YearEnds(y: int)
    ensures DateOfDayOfYear(y, 1) == Date(y, 1, 1)
    ensures DateOfDayOfYear(y, DaysInYear(y)) == Date(y, 12, 31)
  {
    var last := DateOfDayOfYear(y, DaysInYear(y));
    MonthTable(y, 12);
    OrdinalInjective(last, Date(y, 12, 31));
  }
}
