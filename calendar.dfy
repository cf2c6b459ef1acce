/** The proleptic Gregorian calendar as Python's `datetime` module counts it:
    years 1 through 9999, day 1 of the ordinal count being 0001-01-01. */
module Calendar {
  import opened Wrappers

  datatype Date = Date(year: int, month: int, day: int)

  /** `datetime.MAXYEAR`; `datetime.MINYEAR` is 1. */
  const MaxYear := 9999
  /** `date.max.toordinal()`, the ordinal of 9999-12-31. */
  const MaxOrdinal := 3652059

  predicate IsLeapYear(y: int)
  {
    y % 4 == 0 && (y % 100 != 0 || y % 400 == 0)
  }

  function DaysInMonth(y: int, m: int): (n: int)
    requires 1 <= m <= 12
    ensures 28 <= n <= 31
    ensures n == 29 <==> m == 2 && IsLeapYear(y)
    ensures n == 28 <==> m == 2 && !IsLeapYear(y)
  {
    if m == 2 then (if IsLeapYear(y) then 29 else 28)
    else if m == 4 || m == 6 || m == 9 || m == 11 then 30
    else 31
  }

  /** A calendar date of year 1 or later (no upper bound on the year). */
  predicate WellFormed(d: Date)
  {
    1 <= d.year && 1 <= d.month <= 12 && 1 <= d.day <= DaysInMonth(d.year, d.month)
  }

  /** A date that `datetime.date` can represent. */
  predicate InRange(d: Date)
  {
    WellFormed(d) && d.year <= MaxYear
  }

  /** Chronological order: by year, then month, then day. */
  predicate Before(d: Date, e: Date)
  {
    d.year < e.year
    || (d.year == e.year && (d.month < e.month || (d.month == e.month && d.day < e.day)))
  }

  /** The calendar successor, rolling over month and year ends. */
  function NextDay(d: Date): (e: Date)
    requires WellFormed(d)
    ensures WellFormed(e) && Before(d, e)
  {
    if d.day < DaysInMonth(d.year, d.month) then d.(day := d.day + 1)
    else if d.month < 12 then Date(d.year, d.month + 1, 1)
    else Date(d.year + 1, 1, 1)
  }

  /** No date lies strictly between a date and its successor. */
  lemma NextDayIsImmediate(d: Date, e: Date)
    requires WellFormed(d) && WellFormed(e) && Before(d, e)
    ensures e == NextDay(d) || Before(NextDay(d), e)
  {
  }

  /** Python's `_days_before_year`. */
  function DaysBeforeYear(y: int): int
    requires 1 <= y
  {
    var p := y - 1;
    365 * p + p / 4 - p / 100 + p / 400
  }

  /** Python's `_days_before_month`: the `_DAYS_BEFORE_MONTH` table plus the
      leap day once February is over. */
  function DaysBeforeMonth(y: int, m: int): int
    requires 1 <= m <= 12
  {
    [0, 31, 59, 90, 120, 151, 181, 212, 243, 273, 304, 334][m - 1]
    + (if m > 2 && IsLeapYear(y) then 1 else 0)
  }

  /** `date.toordinal()`: 0001-01-01 is day 1. */
  function Ordinal(d: Date): int
    requires WellFormed(d)
  {
    DaysBeforeYear(d.year) + DaysBeforeMonth(d.year, d.month) + d.day
  }

  /** The month table is the running sum of the month lengths. */
  lemma DaysBeforeNextMonth(y: int, m: int)
    requires 1 <= m < 12
    ensures DaysBeforeMonth(y, m + 1) == DaysBeforeMonth(y, m) + DaysInMonth(y, m)
  {
  }

  /** A year is 366 days long exactly when it is a leap year. */
  lemma DaysBeforeNextYear(y: int)
    requires 1 <= y
    ensures DaysBeforeYear(y + 1) == DaysBeforeYear(y) + (if IsLeapYear(y) then 366 else 365)
  {
    NextQuotients(y - 1);
    LeapDivisors(y);
    assert DaysBeforeYear(y + 1) - DaysBeforeYear(y)
           == 365 + (if y % 4 == 0 then 1 else 0) - (if y % 100 == 0 then 1 else 0)
              + (if y % 400 == 0 then 1 else 0);
  }

  /** A multiple of 400 is one of 100, and a multiple of 100 one of 4. */
  lemma LeapDivisors(y: int)
    ensures y % 400 == 0 ==> y % 100 == 0
    ensures y % 100 == 0 ==> y % 4 == 0
  {
    if y % 100 == 0 {
      assert y == 4 * (25 * (y / 100));
    }
    if y % 400 == 0 {
      assert y == 100 * (4 * (y / 400));
    }
  }

  /** Moving from `p` to `p + 1` adds one to `p / k`, for the leap-year
      divisors `k`, exactly when `p + 1` is a multiple of `k`. */
  lemma NextQuotients(p: int)
    requires 0 <= p
    ensures (p + 1) / 4 == p / 4 + (if (p + 1) % 4 == 0 then 1 else 0)
    ensures (p + 1) / 100 == p / 100 + (if (p + 1) % 100 == 0 then 1 else 0)
    ensures (p + 1) / 400 == p / 400 + (if (p + 1) % 400 == 0 then 1 else 0)
  {
  }

  /** The successor is exactly one ordinal day later, as `date + timedelta(days=1)`. */
  lemma {:induction false} NextDayOrdinal(d: Date)
    requires WellFormed(d)
    ensures Ordinal(NextDay(d)) == Ordinal(d) + 1
  {
    if d.day == DaysInMonth(d.year, d.month) {
      if d.month < 12 {
        DaysBeforeNextMonth(d.year, d.month);
      } else {
        DaysBeforeNextYear(d.year);
      }
    }
  }

  /** The last day of a year is `DaysBeforeYear` of the next one. */
  lemma OrdinalWithinYear(d: Date)
    requires WellFormed(d)
    ensures DaysBeforeYear(d.year) < Ordinal(d) <= DaysBeforeYear(d.year + 1)
  {
    DaysBeforeNextYear(d.year);
  }

  lemma {:induction false} DaysBeforeYearMonotone(y: int, z: int)
    requires 1 <= y <= z
    ensures DaysBeforeYear(y) + 365 * (z - y) <= DaysBeforeYear(z)
    decreases z - y
  {
    if y < z {
      DaysBeforeNextYear(y);
      DaysBeforeYearMonotone(y + 1, z);
    }
  }

  /** Ordinals follow chronological order. */
  lemma OrdinalMonotone(d: Date, e: Date)
    requires WellFormed(d) && WellFormed(e) && Before(d, e)
    ensures Ordinal(d) < Ordinal(e)
  {
    if d.year < e.year {
      OrdinalWithinYear(d);
      OrdinalWithinYear(e);
      DaysBeforeYearMonotone(d.year + 1, e.year);
    }
  }

  /** Distinct dates have distinct ordinals, ordered as the dates are. */
  lemma OrdinalOrder(d: Date, e: Date)
    requires WellFormed(d) && WellFormed(e)
    ensures Before(d, e) <==> Ordinal(d) < Ordinal(e)
    ensures d == e <==> Ordinal(d) == Ordinal(e)
  {
    if Before(d, e) {
      OrdinalMonotone(d, e);
    } else if Before(e, d) {
      OrdinalMonotone(e, d);
    }
  }

  /** `n` successive calendar successors of `d`. */
  function Step(d: Date, n: nat): (e: Date)
    requires WellFormed(d)
    ensures WellFormed(e)
    decreases n
  {
    if n == 0 then d else NextDay(Step(d, n - 1))
  }

  /** Stepping `n` days forward adds `n` to the ordinal. */
  lemma {:induction false} StepOrdinal(d: Date, n: nat)
    requires WellFormed(d)
    ensures Ordinal(Step(d, n)) == Ordinal(d) + n
    decreases n
  {
    if n > 0 {
      StepOrdinal(d, n - 1);
      NextDayOrdinal(Step(d, n - 1));
    }
  }

  /** `d + timedelta(days=n)` for `n >= 0`; `None` stands for the
      `OverflowError` raised when the result would pass 9999-12-31. */
  function AddDays(d: Date, n: nat): (r: Option<Date>)
    requires InRange(d)
    ensures r.Some? ==> InRange(r.value) && (r.value == d <==> n == 0)
  {
    StepOrdinal(d, n);
    var e := Step(d, n);
    if e.year <= MaxYear then Some(e) else None
  }

  /** A defined `d + timedelta(days=n)` is exactly `n` ordinal days after `d`. */
  lemma AddDaysOrdinal(d: Date, n: nat)
    requires InRange(d) && AddDays(d, n).Some?
    ensures Ordinal(AddDays(d, n).value) == Ordinal(d) + n
  {
    StepOrdinal(d, n);
  }

  /** The overflow happens exactly when the ordinal passes `date.max`. */
  lemma AddDaysOverflow(d: Date, n: nat)
    requires InRange(d)
    ensures AddDays(d, n).None? <==> Ordinal(d) + n > MaxOrdinal
  {
    var e := Step(d, n);
    var last := Date(MaxYear, 12, 31);
    StepOrdinal(d, n);
    OrdinalOrder(e, last);
    assert Ordinal(last) == MaxOrdinal;
  }

  /** Later steps give strictly later dates. */
  lemma StepIncreasing(d: Date, i: nat, j: nat)
    requires WellFormed(d) && i < j
    ensures Before(Step(d, i), Step(d, j))
  {
    StepOrdinal(d, i);
    StepOrdinal(d, j);
    OrdinalOrder(Step(d, i), Step(d, j));
  }

  /** Once `d + timedelta(days=j)` overflows, every later offset does too. */
  lemma AddDaysPrefixClosed(d: Date, i: nat, j: nat)
    requires InRange(d) && i <= j && AddDays(d, j).Some?
    ensures AddDays(d, i).Some?
  {
    AddDaysOverflow(d, i);
    AddDaysOverflow(d, j);
  }

  /** Month and year rollover and the leap day, on concrete dates. */
  lemma NextDayExamples()
    ensures NextDay(Date(2025, 1, 1)) == Date(2025, 1, 2)
    ensures NextDay(Date(2024, 2, 28)) == Date(2024, 2, 29)
    ensures NextDay(Date(2024, 2, 29)) == Date(2024, 3, 1)
    ensures NextDay(Date(2023, 2, 28)) == Date(2023, 3, 1)
    ensures NextDay(Date(1900, 2, 28)) == Date(1900, 3, 1)
    ensures NextDay(Date(2000, 2, 28)) == Date(2000, 2, 29)
    ensures NextDay(Date(2024, 12, 31)) == Date(2025, 1, 1)
    ensures NextDay(Date(2025, 4, 30)) == Date(2025, 5, 1)
  {
  }
}
