/**
 The Gregorian calendar (ISO 8601:2004, section 3.2.1): dates, their order and
 day arithmetic. Days are numbered as Python's date.toordinal does.
 */
module Calendar {

  datatype Date = Date(year: int, month: int, day: int)

  predicate IsLeap(year: int) {
    year % 4 == 0 && (year % 100 != 0 || year % 400 == 0)
  }

  /** calendar.monthrange(year, month)[1] */
  function DaysInMonth(year: int, month: int): (n: int)
    requires 1 <= month <= 12
    ensures 28 <= n <= 31
  {
    if month == 2 then (if IsLeap(year) then 29 else 28)
    else if month == 4 || month == 6 || month == 9 || month == 11 then 30
    else 31
  }

  predicate Valid(d: Date) {
    1 <= d.month <= 12 && 1 <= d.day <= DaysInMonth(d.year, d.month)
  }

  /** The calendar's own order: year, then month, then day. */
  predicate Before(a: Date, b: Date) {
    || a.year < b.year
    || (a.year == b.year && (a.month < b.month || (a.month == b.month && a.day < b.day)))
  }

  // ----- the calendar by counting days -----

  /** The day after, by the rules for month ends, year ends and leap years. */
  function Next(d: Date): (r: Date)
    requires Valid(d)
    ensures Valid(r)
  {
    if d.day < DaysInMonth(d.year, d.month) then Date(d.year, d.month, d.day + 1)
    else if d.month < 12 then Date(d.year, d.month + 1, 1)
    else Date(d.year + 1, 1, 1)
  }

  function Previous(d: Date): (r: Date)
    requires Valid(d)
    ensures Valid(r) && Next(r) == d
  {
    if d.day > 1 then Date(d.year, d.month, d.day - 1)
    else if d.month > 1 then Date(d.year, d.month - 1, DaysInMonth(d.year, d.month - 1))
    else Date(d.year - 1, 12, 31)
  }

  // ----- the calendar by arithmetic -----

  function DaysInYear(year: int): int {
    if IsLeap(year) then 366 else 365
  }

  /** The days before a year, year by year from year 1 in either direction. */
  function DaysBeforeYear(year: int): int
    decreases if year >= 1 then year else 2 - year
  {
    if year == 1 then 0
    else if year > 1 then DaysBeforeYear(year - 1) + DaysInYear(year - 1)
    else DaysBeforeYear(year + 1) - DaysInYear(year)
  }

  function DaysBeforeMonth(year: int, month: int): (n: int)
    requires 1 <= month <= 12
    ensures n >= 0
    decreases month
  {
    if month == 1 then 0 else DaysBeforeMonth(year, month - 1) + DaysInMonth(year, month - 1)
  }

  /** date.toordinal */
  function Ordinal(d: Date): int
    requires Valid(d)
  {
    DaysBeforeYear(d.year) + DaysBeforeMonth(d.year, d.month) + d.day
  }

  /** date.fromordinal, by walking day by day from 0001-01-01. */
  function FromOrdinal(n: int): (d: Date)
    ensures Valid(d) && Ordinal(d) == n
    decreases if n >= 1 then n else 2 - n
  {
    if n == 1 then Date(1, 1, 1)
    else if n > 1 then
      var d := FromOrdinal(n - 1);
      NextOrdinal(d);
      Next(d)
    else
      var d := FromOrdinal(n + 1);
      NextOrdinal(Previous(d));
      Previous(d)
  }

  /** The closed form that date.toordinal computes with. */
  lemma {:induction false} DaysBeforeYearIsClosed(year: int)
    ensures DaysBeforeYear(year) == 365 * (year - 1) + (year - 1) / 4 - (year - 1) / 100 + (year - 1) / 400
    decreases if year >= 1 then year else 2 - year
  {
    if year > 1 {
      DaysBeforeYearIsClosed(year - 1);
      LeapDays(year - 1);
    } else if year < 1 {
      DaysBeforeYearIsClosed(year + 1);
      LeapDays(year);
    }
  }

  lemma {:induction false} MultipleIsLarge(d: int, k: int)
    requires d >= 1 && k >= 1
    ensures d * k >= k
  {
    assert (d - 1) * k >= 0;
  }

  lemma {:induction false} QuotientIsUnique(n: int, k: int, q: int, r: int)
    requires n == q * k + r && 0 <= r < k
    ensures n / k == q
  {
    var p := n / k;
    assert n == p * k + n % k;
    assert (p - q) * k == p * k - q * k && (q - p) * k == q * k - p * k;
    if p > q {
      MultipleIsLarge(p - q, k);
    } else if p < q {
      MultipleIsLarge(q - p, k);
    }
  }

  lemma {:induction false} QuotientStep(n: int, k: int)
    requires k > 0
    ensures n / k == (n - 1) / k + if n % k == 0 then 1 else 0
  {
    if n % k == 0 {
      QuotientIsUnique(n - 1, k, n / k - 1, k - 1);
    } else {
      QuotientIsUnique(n - 1, k, n / k, n % k - 1);
    }
  }

  lemma {:induction false} LeapDays(year: int)
    ensures year / 4 - year / 100 + year / 400
         == (year - 1) / 4 - (year - 1) / 100 + (year - 1) / 400 + if IsLeap(year) then 1 else 0
  {
    QuotientStep(year, 4);
    QuotientStep(year, 100);
    QuotientStep(year, 400);
    MultiplesNest(year);
  }

  lemma {:induction false} MultiplesNest(year: int)
    ensures year % 100 == 0 ==> year % 4 == 0
    ensures year % 400 == 0 ==> year % 100 == 0
  {
  }

  lemma {:induction false} YearLength(year: int)
    ensures DaysBeforeYear(year + 1) == DaysBeforeYear(year) + DaysInYear(year)
  {
  }

  lemma MonthLengths(year: int)
    ensures DaysBeforeMonth(year, 12) + DaysInMonth(year, 12) == DaysInYear(year)
    ensures DaysBeforeMonth(year, 4) == DaysBeforeMonth(year, 3) + 31
  {
    assert DaysBeforeMonth(year, 3) == DaysBeforeMonth(year, 2) + DaysInMonth(year, 2);
    assert DaysBeforeMonth(year, 5) == DaysBeforeMonth(year, 4) + 30;
    assert DaysBeforeMonth(year, 7) == DaysBeforeMonth(year, 6) + 30;
    assert DaysBeforeMonth(year, 9) == DaysBeforeMonth(year, 8) + 31;
    assert DaysBeforeMonth(year, 11) == DaysBeforeMonth(year, 10) + 31;
  }

  /** Arithmetic and calendar agree: the next date has the next number. */
  lemma NextOrdinal(d: Date)
    requires Valid(d)
    ensures Ordinal(Next(d)) == Ordinal(d) + 1
  {
    if d.day == DaysInMonth(d.year, d.month) && d.month == 12 {
      YearLength(d.year);
      MonthLengths(d.year);
    }
  }

  lemma {:induction false} MonthsGrow(year: int, a: int, b: int)
    requires 1 <= a < b <= 12
    ensures DaysBeforeMonth(year, a) + DaysInMonth(year, a) <= DaysBeforeMonth(year, b)
    decreases b
  {
    if a < b - 1 {
      MonthsGrow(year, a, b - 1);
    }
  }

  lemma {:induction false} YearsGrow(a: int, b: int)
    requires a <= b
    ensures DaysBeforeYear(a) <= DaysBeforeYear(b)
    decreases b - a
  {
    if a < b {
      YearLength(b - 1);
      YearsGrow(a, b - 1);
    }
  }

  /** A date falls inside its own year. */
  lemma {:induction false} OrdinalInYear(d: Date)
    requires Valid(d)
    ensures DaysBeforeYear(d.year) < Ordinal(d) <= DaysBeforeYear(d.year + 1)
  {
    YearLength(d.year);
    MonthLengths(d.year);
    if d.month < 12 {
      MonthsGrow(d.year, d.month, 12);
    }
  }

  /** An earlier date has a smaller number. */
  lemma {:induction false} BeforeMeansSmaller(a: Date, b: Date)
    requires Valid(a) && Valid(b) && Before(a, b)
    ensures Ordinal(a) < Ordinal(b)
  {
    if a.year < b.year {
      OrdinalInYear(a);
      OrdinalInYear(b);
      YearsGrow(a.year + 1, b.year);
    } else if a.month < b.month {
      MonthsGrow(a.year, a.month, b.month);
    }
  }

  /** Numbering days keeps their order and tells them apart. */
  lemma {:induction false} OrdinalIsOrder(a: Date, b: Date)
    requires Valid(a) && Valid(b)
    ensures Before(a, b) <==> Ordinal(a) < Ordinal(b)
    ensures a == b <==> Ordinal(a) == Ordinal(b)
  {
    if Before(a, b) {
      BeforeMeansSmaller(a, b);
    } else if Before(b, a) {
      BeforeMeansSmaller(b, a);
    }
  }

  /** Every number is a date's and every date is found again from its number. */
  lemma {:induction false} OrdinalRoundTrip(d: Date, n: int)
    requires Valid(d)
    ensures FromOrdinal(Ordinal(d)) == d && Ordinal(FromOrdinal(n)) == n
  {
    OrdinalIsOrder(FromOrdinal(Ordinal(d)), d);
  }

  /** date.weekday() of day number n: Monday is 0. */
  function Weekday(n: int): (w: int)
    ensures 0 <= w < 7
  {
    (n + 6) % 7
  }

  /** The lengths of the months, by number. */
  lemma {:induction false} MonthTable(year: int, month: int)
    requires 1 <= month <= 12
    ensures var leapDay := if year % 400 == 0 || (year % 4 == 0 && year % 100 != 0) then 1 else 0;
            DaysInMonth(year, month) == [31, 28 + leapDay, 31, 30, 31, 30, 31, 31, 30, 31, 30, 31][month - 1]
  {
    MultiplesNest(year);
  }

  lemma {:induction false} FirstOfYear(year: int)
    ensures Ordinal(Date(year, 1, 1)) == DaysBeforeYear(year) + 1
  {
  }

  /** The first of January 2024 was a Monday, and each day is one weekday further. */
  lemma {:induction false} WeekdaysCount(n: int)
    ensures Weekday(Ordinal(Date(2024, 1, 1))) == 0
    ensures Weekday(n + 1) == if Weekday(n) == 6 then 0 else Weekday(n) + 1
  {
    FirstOfYear(2024);
    DaysBeforeYearIsClosed(2024);
  }

  /** The Monday on or before day number n. */
  function Monday(n: int): int {
    n - Weekday(n)
  }

  /** day - timedelta(days=n), for either sign of n. */
  function MinusDays(d: Date, n: int): (r: Date)
    requires Valid(d)
    ensures Valid(r) && Ordinal(r) == Ordinal(d) - n
  {
    FromOrdinal(Ordinal(d) - n)
  }
}
