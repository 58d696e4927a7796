/** Calendar dates in the proleptic Gregorian calendar, as Python's
    `datetime.date` represents them: years 1 to 9999, day ordinals counted
    from 0001-01-01 (ordinal 1), and subtraction of a number of days
    (`date - timedelta(days=k)`), which fails with an overflow below
    0001-01-01. */
module Calendar {
  import opened Wrappers

  const MIN_YEAR := 1
  const MAX_YEAR := 9999

  datatype Ymd = Ymd(year: int, month: int, day: int)

  predicate IsLeapYear(y: int) {
    y % 4 == 0 && (y % 100 != 0 || y % 400 == 0)
  }

  function DaysInMonth(y: int, m: int): (n: int)
    requires 1 <= m <= 12
    ensures 28 <= n <= 31
  {
    if m == 2 then (if IsLeapYear(y) then 29 else 28)
    else if m == 4 || m == 6 || m == 9 || m == 11 then 30
    else 31
  }

  function DaysInYear(y: int): int {
    if IsLeapYear(y) then 366 else 365
  }

  predicate IsValid(d: Ymd) {
    && MIN_YEAR <= d.year <= MAX_YEAR
    && 1 <= d.month <= 12
    && 1 <= d.day <= DaysInMonth(d.year, d.month)
  }

  /** A date that `datetime.date` can hold. */
  type Date = d: Ymd | IsValid(d) witness Ymd(1, 1, 1)

  /** Chronological order. On the zero-padded ISO text `YYYY-MM-DD` that the
      database stores, this is the order SQLite compares text in. */
  predicate Before(a: Ymd, b: Ymd) {
    || a.year < b.year
    || (a.year == b.year && a.month < b.month)
    || (a.year == b.year && a.month == b.month && a.day < b.day)
  }

  predicate AtOrBefore(a: Ymd, b: Ymd) {
    !Before(b, a)
  }

  /** Number of days in the months of year `y` that precede month `m`. */
  function DaysBeforeMonth(y: int, m: int): int
    requires 1 <= m <= 12
  {
    var common := [0, 31, 59, 90, 120, 151, 181, 212, 243, 273, 304, 334][m - 1];
    if m > 2 && IsLeapYear(y) then common + 1 else common
  }

  /** Number of days in the years that precede year `y`. */
  function DaysBeforeYear(y: int): int
    requires y >= 1
  {
    var p := y - 1;
    p * 365 + p / 4 - p / 100 + p / 400
  }

  /** The day ordinal of `d`, with 0001-01-01 as day 1. */
  function Ordinal(d: Date): int {
    DaysBeforeYear(d.year) + DaysBeforeMonth(d.year, d.month) + d.day
  }

  lemma DaysBeforeMonthStep(y: int, m: int)
    requires 1 <= m < 12
    ensures DaysBeforeMonth(y, m + 1) == DaysBeforeMonth(y, m) + DaysInMonth(y, m)
  {
  }

  lemma DaysBeforeMonthYearEnd(y: int)
    ensures DaysBeforeMonth(y, 12) + DaysInMonth(y, 12) == DaysInYear(y)
  {
  }

  /** Moving from `p` to `p + 1` raises `p / 4`, `p / 100` and `p / 400`
      by one exactly when the divisor divides `p + 1`. */
  lemma QuotientSteps(p: int)
    ensures (p + 1) / 4 == p / 4 + (if (p + 1) % 4 == 0 then 1 else 0)
    ensures (p + 1) / 100 == p / 100 + (if (p + 1) % 100 == 0 then 1 else 0)
    ensures (p + 1) / 400 == p / 400 + (if (p + 1) % 400 == 0 then 1 else 0)
  {
  }

  /** Divisibility by 400 implies divisibility by 100, which implies
      divisibility by 4. */
  lemma DivisorChain(y: int)
    ensures y % 400 == 0 ==> y % 100 == 0
    ensures y % 100 == 0 ==> y % 4 == 0
  {
  }

  lemma DaysBeforeYearStep(y: int)
    requires y >= 1
    ensures DaysBeforeYear(y + 1) == DaysBeforeYear(y) + DaysInYear(y)
  {
    QuotientSteps(y - 1);
    DivisorChain(y);
  }

  lemma {:induction false} DaysBeforeMonthMonotone(y: int, m1: int, m2: int)
    requires 1 <= m1 < m2 <= 12
    ensures DaysBeforeMonth(y, m1) + DaysInMonth(y, m1) <= DaysBeforeMonth(y, m2)
    decreases m2 - m1
  {
    DaysBeforeMonthStep(y, m1);
    if m1 + 1 < m2 {
      DaysBeforeMonthMonotone(y, m1 + 1, m2);
    }
  }

  /** A date's position within its year lies between 1 and the year's length. */
  lemma DayOfYearBounds(d: Date)
    ensures 1 <= DaysBeforeMonth(d.year, d.month) + d.day <= DaysInYear(d.year)
  {
    DaysBeforeMonthYearEnd(d.year);
    if d.month < 12 {
      DaysBeforeMonthMonotone(d.year, d.month, 12);
    }
  }

  lemma {:induction false} DaysBeforeYearMonotone(y1: int, y2: int)
    requires 1 <= y1 < y2
    ensures DaysBeforeYear(y1) + DaysInYear(y1) <= DaysBeforeYear(y2)
    decreases y2 - y1
  {
    DaysBeforeYearStep(y1);
    if y1 + 1 < y2 {
      DaysBeforeYearMonotone(y1 + 1, y2);
    }
  }

  /** Ordinals are ordered as the dates are: chronological order on dates and
      numeric order on their ordinals agree (both directions). */
  lemma OrdinalOrder(a: Date, b: Date)
    ensures Before(a, b) <==> Ordinal(a) < Ordinal(b)
  {
    if Before(a, b) {
      OrdinalIncreases(a, b);
    } else if Before(b, a) {
      OrdinalIncreases(b, a);
    } else {
      assert a == b;
    }
  }

  lemma OrdinalIncreases(a: Date, b: Date)
    requires Before(a, b)
    ensures Ordinal(a) < Ordinal(b)
  {
    DayOfYearBounds(a);
    DayOfYearBounds(b);
    if a.year < b.year {
      DaysBeforeYearMonotone(a.year, b.year);
    } else if a.month < b.month {
      DaysBeforeMonthMonotone(a.year, a.month, b.month);
    }
  }

  /** Two dates with the same ordinal are the same date. */
  lemma OrdinalInjective(a: Date, b: Date)
    requires Ordinal(a) == Ordinal(b)
    ensures a == b
  {
    OrdinalOrder(a, b);
    OrdinalOrder(b, a);
  }

  /** Every date has an ordinal of at least 1. */
  lemma OrdinalPositive(d: Date)
    ensures Ordinal(d) >= 1
  {
    DayOfYearBounds(d);
  }

  /** The last day of the month before `d`'s, when `d` is not in January. */
  lemma EndOfPreviousMonth(d: Date, p: Date)
    requires d.month > 1 && p == Ymd(d.year, d.month - 1, DaysInMonth(d.year, d.month - 1))
    ensures Ordinal(p) == DaysBeforeYear(d.year) + DaysBeforeMonth(d.year, d.month)
  {
    DaysBeforeMonthStep(d.year, d.month - 1);
  }

  /** The last day of the year before `d`'s. */
  lemma EndOfPreviousYear(d: Date, p: Date)
    requires d.year > MIN_YEAR && p == Ymd(d.year - 1, 12, 31)
    ensures Ordinal(p) == DaysBeforeYear(d.year)
  {
    DaysBeforeYearStep(d.year - 1);
    DaysBeforeMonthYearEnd(d.year - 1);
  }

  /** The day before `d`; `None` for 0001-01-01, the first day `datetime.date`
      can hold. */
  function PrevDay(d: Date): (r: Option<Date>)
    ensures r.Some? <==> Ordinal(d) > 1
    ensures r.Some? ==> Ordinal(r.value) == Ordinal(d) - 1
  {
    if d.day > 1 then
      var p: Date := Ymd(d.year, d.month, d.day - 1);
      OrdinalPositive(p);
      Some(p)
    else if d.month > 1 then
      var p: Date := Ymd(d.year, d.month - 1, DaysInMonth(d.year, d.month - 1));
      EndOfPreviousMonth(d, p);
      OrdinalPositive(p);
      Some(p)
    else if d.year > MIN_YEAR then
      var p: Date := Ymd(d.year - 1, 12, 31);
      EndOfPreviousYear(d, p);
      OrdinalPositive(p);
      Some(p)
    else
      None
  }

  /** `d - timedelta(days=k)`: the date `k` days before `d`, or `None` where
      Python raises OverflowError because the result would precede
      0001-01-01. */
  function SubtractDays(d: Date, k: nat): (r: Option<Date>)
    ensures r.Some? <==> Ordinal(d) > k
    ensures r.Some? ==> Ordinal(r.value) == Ordinal(d) - k
    decreases k
  {
    if k == 0 then
      DayOfYearBounds(d);
      Some(d)
    else
      match PrevDay(d)
      case None => None
      case Some(p) => SubtractDays(p, k - 1)
  }

  /** `d - timedelta(days=k)` is the date whose ordinal is `k` below that of
      `d`, whenever there is one. */
  lemma SubtractDaysTo(d: Date, k: nat, t: Date)
    requires Ordinal(t) + k == Ordinal(d)
    ensures SubtractDays(d, k) == Some(t)
  {
    OrdinalPositive(t);
    var r := SubtractDays(d, k);
    assert r.Some?;
    OrdinalInjective(r.value, t);
  }
}
