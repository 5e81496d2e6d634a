/** The calendar period of a day, for each task frequency, and the proof that periods tile time. */
module Periods {
  import opened Calendar

  datatype Frequency = Daily | Weekly | Monthly | Quarterly

  datatype Period = Period(start: Date, end: Date)

  function FirstMonth(month: int): int {
    3 * ((month - 1) / 3) + 1
  }

  /** The seven days from the Monday on or before the day. */
  function WeekOf(day: Date): (p: Period)
    requires Valid(day)
    ensures Valid(p.start) && Valid(p.end)
    ensures Ordinal(p.start) == Monday(Ordinal(day)) && Ordinal(p.end) == Monday(Ordinal(day)) + 6
  {
    var start := MinusDays(day, Weekday(Ordinal(day)));
    Period(start, MinusDays(start, -6))
  }

  /** period_for */
  function PeriodFor(f: Frequency, day: Date): (p: Period)
    requires Valid(day)
    ensures Valid(p.start) && Valid(p.end)
  {
    match f
    case Daily => Period(day, day)
    case Weekly => WeekOf(day)
    case Monthly => Period(day.(day := 1), day.(day := DaysInMonth(day.year, day.month)))
    case Quarterly =>
      var last := FirstMonth(day.month) + 2;
      Period(Date(day.year, FirstMonth(day.month), 1), Date(day.year, last, DaysInMonth(day.year, last)))
  }

  predicate Within(day: Date, p: Period) {
    !Before(day, p.start) && !Before(p.end, day)
  }

  /** Which days belong together: the same day, Monday-to-Sunday week, month or quarter. */
  predicate SameUnit(f: Frequency, a: Date, b: Date)
    requires Valid(a) && Valid(b)
  {
    match f
    case Daily => a == b
    case Weekly => Monday(Ordinal(a)) == Monday(Ordinal(b))
    case Monthly => a.year == b.year && a.month == b.month
    case Quarterly => a.year == b.year && (a.month - 1) / 3 == (b.month - 1) / 3
  }

  lemma {:induction false} WeekIsSeven(n: int, m: int)
    ensures Monday(n) <= m <= Monday(n) + 6 <==> Monday(m) == Monday(n)
  {
    assert (Monday(n) + 6) % 7 == 0;
    assert (m + 6) - (m + 6) % 7 == 7 * ((m + 6) / 7) && Monday(n) + 6 == 7 * ((Monday(n) + 6) / 7);
  }

  lemma {:induction false} WithinByOrdinal(day: Date, p: Period)
    requires Valid(day) && Valid(p.start) && Valid(p.end)
    ensures Within(day, p) <==> Ordinal(p.start) <= Ordinal(day) <= Ordinal(p.end)
  {
    OrdinalIsOrder(day, p.start);
    OrdinalIsOrder(p.end, day);
  }

  lemma {:induction false} WeekByOrdinal(day: Date, other: Date, p: Period)
    requires Valid(day) && Valid(other) && Valid(p.start) && Valid(p.end)
    requires Ordinal(p.start) == Monday(Ordinal(day)) && Ordinal(p.end) == Monday(Ordinal(day)) + 6
    ensures Within(other, p) <==> SameUnit(Weekly, day, other)
  {
    WithinByOrdinal(other, p);
    WeekIsSeven(Ordinal(day), Ordinal(other));
  }

  lemma {:induction false} WeekIsUnit(day: Date, other: Date)
    requires Valid(day) && Valid(other)
    ensures Within(other, PeriodFor(Weekly, day)) <==> SameUnit(Weekly, day, other)
  {
    WeekByOrdinal(day, other, PeriodFor(Weekly, day));
  }

  lemma {:induction false} QuarterOf(month: int, other: int)
    requires 1 <= month <= 12
    ensures 1 <= FirstMonth(month) <= month <= FirstMonth(month) + 2 <= 12
    ensures FirstMonth(month) <= other <= FirstMonth(month) + 2 <==> (other - 1) / 3 == (month - 1) / 3
  {
  }

  /** The days of a period are exactly the days of its calendar unit. */
  lemma {:induction false} PeriodIsUnit(f: Frequency, day: Date, other: Date)
    requires Valid(day) && Valid(other)
    ensures Within(other, PeriodFor(f, day)) <==> SameUnit(f, day, other)
  {
    match f {
      case Weekly => WeekIsUnit(day, other);
      case Quarterly => QuarterOf(day.month, other.month);
      case _ =>
    }
  }

  lemma {:induction false} UnitHasOnePeriod(f: Frequency, a: Date, b: Date)
    requires Valid(a) && Valid(b)
    ensures SameUnit(f, a, b) <==> PeriodFor(f, a) == PeriodFor(f, b)
  {
    PeriodIsUnit(f, b, b);
    if f == Weekly {
      OrdinalIsOrder(PeriodFor(f, a).start, PeriodFor(f, b).start);
      OrdinalIsOrder(PeriodFor(f, a).end, PeriodFor(f, b).end);
    } else {
      PeriodIsUnit(f, a, b);
    }
  }

  /** Periods partition the calendar: a day lies in its period, and in no other. */
  lemma {:induction false} PeriodsPartition(f: Frequency, day: Date, other: Date)
    requires Valid(day) && Valid(other)
    ensures Within(day, PeriodFor(f, day))
    ensures Within(other, PeriodFor(f, day)) <==> PeriodFor(f, other) == PeriodFor(f, day)
  {
    PeriodIsUnit(f, day, day);
    PeriodIsUnit(f, day, other);
    UnitHasOnePeriod(f, day, other);
  }

  // ----- the same on day numbers -----

  /** A period as day numbers, both ends included. */
  datatype Span = Span(start: int, end: int)

  function SpanFor(f: Frequency, day: int): Span {
    SpanOf(PeriodFor(f, FromOrdinal(day)))
  }

  /** The period of every day, as one function. */
  function GridOf(f: Frequency): int -> Span {
    day => SpanFor(f, day)
  }

  /** A day is in its own span, and shares it with exactly the days in it. */
  predicate Tiles(g: int -> Span, day: int, other: int) {
    && g(day).start <= day <= g(day).end
    && (g(day).start <= other <= g(day).end <==> g(other) == g(day))
  }

  ghost predicate IsGrid(g: int -> Span) {
    forall day, other: int :: Tiles(g, day, other)
  }

  lemma {:induction false} SpansPartition(f: Frequency, day: int, other: int)
    ensures SpanFor(f, day).start <= day <= SpanFor(f, day).end
    ensures SpanFor(f, day).start <= other <= SpanFor(f, day).end <==> SpanFor(f, other) == SpanFor(f, day)
  {
    var a, b := FromOrdinal(day), FromOrdinal(other);
    PeriodsPartition(f, a, b);
    PartitionByOrdinal(a, b, PeriodFor(f, a), PeriodFor(f, b));
  }

  function SpanOf(p: Period): Span
    requires Valid(p.start) && Valid(p.end)
  {
    Span(Ordinal(p.start), Ordinal(p.end))
  }

  lemma {:induction false} PartitionByOrdinal(a: Date, b: Date, p: Period, q: Period)
    requires Valid(a) && Valid(b) && Valid(p.start) && Valid(p.end) && Valid(q.start) && Valid(q.end)
    requires Within(a, p) && (Within(b, p) <==> q == p)
    ensures SpanOf(p).start <= Ordinal(a) <= SpanOf(p).end
    ensures SpanOf(p).start <= Ordinal(b) <= SpanOf(p).end <==> SpanOf(q) == SpanOf(p)
  {
    WithinByOrdinal(a, p);
    WithinByOrdinal(b, p);
    OrdinalIsOrder(p.start, q.start);
    OrdinalIsOrder(p.end, q.end);
  }

  lemma {:induction false} CalendarIsGrid(f: Frequency)
    ensures IsGrid(GridOf(f))
  {
    forall day, other: int ensures Tiles(GridOf(f), day, other) {
      SpansPartition(f, day, other);
    }
  }

  lemma {:induction false} PreviousIsAdjacent(g: int -> Span, day: int)
    requires IsGrid(g)
    ensures g(g(day).start - 1).end == g(day).start - 1
    ensures g(g(day).start - 1).start < g(day).start
    ensures g(g(day).start) == g(day) && g(g(day).end) == g(day) && g(day).start <= day <= g(day).end
  {
    var before := g(day).start - 1;
    assert Tiles(g, day, g(day).start) && Tiles(g, day, g(day).end) && Tiles(g, day, before);
    assert Tiles(g, before, g(day).start);
  }

  lemma {:induction false} EndsOnEve(p: Period, q: Period, eve: Date)
    requires Valid(p.start) && Valid(q.start) && Valid(q.end) && Valid(eve) && Next(eve) == p.start
    requires Within(eve, q) && !Within(p.start, q)
    ensures q.end == eve
  {
    NextOrdinal(eve);
    WithinByOrdinal(eve, q);
    WithinByOrdinal(p.start, q);
    OrdinalIsOrder(q.end, eve);
  }

  lemma {:induction false} StartsInItself(f: Frequency, day: Date)
    requires Valid(day)
    ensures Within(PeriodFor(f, day).start, PeriodFor(f, day))
    ensures !Within(Previous(PeriodFor(f, day).start), PeriodFor(f, day))
  {
    var p := PeriodFor(f, day);
    var eve := Previous(p.start);
    NextOrdinal(eve);
    PeriodsPartition(f, day, day);
    WithinByOrdinal(day, p);
    WithinByOrdinal(p.start, p);
    WithinByOrdinal(eve, p);
  }

  /** The period before a period ends on the day before it starts, leap years and year ends included. */
  lemma {:induction false} PreviousPeriodEndsTheDayBefore(f: Frequency, day: Date)
    requires Valid(day)
    ensures var start := PeriodFor(f, day).start;
            PeriodFor(f, Previous(start)).end == Previous(start)
  {
    var p := PeriodFor(f, day);
    var eve := Previous(p.start);
    StartsInItself(f, day);
    PeriodsPartition(f, day, p.start);
    PeriodsPartition(f, day, eve);
    PeriodsPartition(f, eve, p.start);
    EndsOnEve(p, PeriodFor(f, eve), eve);
  }

  // ----- periods, newest first -----

  /** The spans from the current one back to the one that starts at first. */
  ghost function Down(g: int -> Span, first: int, day: int): seq<Span>
    requires IsGrid(g)
    decreases g(day).start - first
  {
    if g(day).start < first then []
    else
      PreviousIsAdjacent(g, day);
      [g(day)] + Down(g, first, g(day).start - 1)
  }

  /** periods_newest_first, as a function of its arguments. */
  ghost function Newest(g: int -> Span, start: int, upTo: int): seq<Span>
    requires IsGrid(g)
  {
    if start > upTo then [] else Down(g, g(start).start, upTo)
  }

  lemma {:induction false} DailySpan(day: int)
    ensures SpanFor(Daily, day) == Span(day, day)
  {
    OrdinalRoundTrip(FromOrdinal(day), day);
  }

  /** Daily periods are one a day. */
  lemma {:induction false} DailyCount(first: int, day: int)
    requires IsGrid(GridOf(Daily)) && first <= day + 1
    ensures |Down(GridOf(Daily), first, day)| == day - first + 1
    decreases day + 1 - first
  {
    DailySpan(day);
    if first <= day {
      DailyCount(first, day - 1);
    }
  }

  lemma {:induction false} NewestDaily(start: int, upTo: int)
    requires start <= upTo
    ensures IsGrid(GridOf(Daily)) && |Newest(GridOf(Daily), start, upTo)| == upTo - start + 1
  {
    CalendarIsGrid(Daily);
    DailySpan(start);
    DailyCount(start, upTo);
  }

  method PeriodsNewestFirst(f: Frequency, start: int, upTo: int) returns (periods: seq<Span>)
    ensures IsGrid(GridOf(f)) && periods == Newest(GridOf(f), start, upTo)
  {
    CalendarIsGrid(f);
    periods := PeriodsBack(GridOf(f), start, upTo);
  }

  method PeriodsBack(periodFor: int -> Span, start: int, upTo: int) returns (periods: seq<Span>)
    requires IsGrid(periodFor)
    ensures periods == Newest(periodFor, start, upTo)
  {
    periods := [];
    if start > upTo {
      return;
    }
    var first := periodFor(start).start;
    ghost var day := upTo;
    var current := periodFor(upTo);
    while current.start >= first
      invariant current == periodFor(day)
      invariant periods + Down(periodFor, first, day) == Down(periodFor, first, upTo)
      decreases current.start - first
    {
      PreviousIsAdjacent(periodFor, day);
      periods := periods + [current];
      day := current.start - 1;
      current := periodFor(current.start - 1);
    }
  }

  /** Each span on the grid, each ending the day before its newer neighbour starts. */
  ghost predicate Descends(g: int -> Span, periods: seq<Span>) {
    && (forall i :: 0 <= i < |periods| ==> periods[i] == g(periods[i].start))
    && (forall i :: 0 < i < |periods| ==> periods[i].end == periods[i - 1].start - 1)
  }

  lemma {:induction false} DownDescends(g: int -> Span, first: int, day: int)
    requires IsGrid(g) && g(first).start == first
    ensures Descends(g, Down(g, first, day))
    ensures first <= g(day).start ==>
              var periods := Down(g, first, day);
              periods != [] && periods[0] == g(day) && periods[|periods| - 1] == g(first)
    decreases g(day).start - first
  {
    if g(day).start >= first {
      PreviousIsAdjacent(g, day);
      var eve := g(day).start - 1;
      DownDescends(g, first, eve);
      if eve >= first {
        assert g(eve).start >= first by { StartsAfter(g, first, eve); }
      } else {
        assert g(day).start == first;
        assert g(eve).start < first;
      }
    }
  }

  /** A day from a period's start on is in a period that starts no earlier. */
  lemma {:induction false} StartsAfter(g: int -> Span, first: int, day: int)
    requires IsGrid(g) && g(first).start == first && first <= day
    ensures first <= g(day).start
  {
    assert Tiles(g, day, first);
  }

  /** A span is listed exactly if it is a span of the grid that starts between first and the current one. */
  lemma {:induction false} DownListsExactly(g: int -> Span, first: int, day: int, d: int)
    requires IsGrid(g) && g(first).start == first
    ensures g(d) in Down(g, first, day) <==> first <= g(d).start <= g(day).start
    decreases g(day).start - first
  {
    if g(day).start >= first {
      PreviousIsAdjacent(g, day);
      var eve := g(day).start - 1;
      DownListsExactly(g, first, eve, d);
      if g(d).start == g(day).start {
        PreviousIsAdjacent(g, d);
      } else if g(d).start < g(day).start {
        SameOrBefore(g, d, eve);
      }
    }
  }

  lemma {:induction false} SameOrBefore(g: int -> Span, d: int, day: int)
    requires IsGrid(g) && g(d).start <= day
    ensures g(d).start <= g(day).start
  {
    PreviousIsAdjacent(g, d);
    StartsAfter(g, g(d).start, day);
  }

  /** Exactly the periods that meet the range, newest first, adjacent, from the one of upTo to the one of start. */
  lemma {:induction false} NewestIsExact(g: int -> Span, start: int, upTo: int, d: int)
    requires IsGrid(g)
    ensures Descends(g, Newest(g, start, upTo))
    ensures g(d) in Newest(g, start, upTo) <==> start <= upTo && start <= g(d).end && g(d).start <= upTo
    ensures start <= upTo ==>
              var periods := Newest(g, start, upTo);
              periods != [] && periods[0] == g(upTo) && periods[|periods| - 1] == g(start)
  {
    if start <= upTo {
      var first := g(start).start;
      PreviousIsAdjacent(g, start);
      DownDescends(g, first, upTo);
      DownListsExactly(g, first, upTo, d);
      StartsAfter(g, first, upTo);
      PreviousIsAdjacent(g, upTo);
      PreviousIsAdjacent(g, d);
      if g(d).start <= upTo {
        SameOrBefore(g, d, upTo);
      }
      if start <= g(d).end {
        StartsAfter(g, first, g(d).end);
      } else {
        assert Tiles(g, d, start);
        SameOrBefore(g, d, start);
      }
    }
  }
}
