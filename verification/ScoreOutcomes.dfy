/** What rows and criteria are worth, said of their fields alone. */
module ScoreOutcomes {
  import opened KraScore
  import opened KraEvidence
  import opened OverallScore

  // ----- task rows -----

  /** Completed without a delay mark, on the day after the period's end at the latest. */
  predicate InTime(r: Row) {
    r.completed && !r.wasDelayed && r.completedOn.Some? && r.completedOn.value <= r.end + 1
  }

  /** Nothing for an open task, everything for one done in time, half for one done otherwise; and why. */
  lemma {:induction false} CreditRules(r: Row)
    ensures Credit(r) == 0 <==> !r.completed
    ensures Credit(r) == 2 <==> InTime(r)
    ensures Credit(r) == 1 <==> r.completed && !InTime(r)
    ensures CategoryOf(r) == NotCompleted <==> !r.completed
    ensures CategoryOf(r) == OnTime <==> InTime(r)
    ensures CategoryOf(r) == CompletedAfterDelay <==> r.completed && r.wasDelayed
    ensures CategoryOf(r) == LateWithoutMark <==> r.completed && !r.wasDelayed && !InTime(r)
  {
  }

  /** The task period of a row: the definition, the assignee and the first day. */
  function PeriodOf(r: Row): Key {
    Key(r.definition, r.assignee, r.start)
  }

  function AllPeriods(rows: seq<Row>): set<Key> {
    set i | 0 <= i < |rows| :: PeriodOf(rows[i])
  }

  /** The task periods with a completed row. */
  function DonePeriods(rows: seq<Row>): set<Key> {
    set i | 0 <= i < |rows| && rows[i].completed :: PeriodOf(rows[i])
  }

  /** The task periods with a row completed in time. */
  function TimelyPeriods(rows: seq<Row>): set<Key> {
    set i | 0 <= i < |rows| && InTime(rows[i]) :: PeriodOf(rows[i])
  }

  lemma {:induction false} PeriodsAreLevels(rows: seq<Row>)
    ensures AllPeriods(rows) == Reaching(rows, 0)
    ensures DonePeriods(rows) == Reaching(rows, 1)
    ensures TimelyPeriods(rows) == Reaching(rows, 2)
  {
    forall i | 0 <= i < |rows|
      ensures Credit(rows[i]) >= 1 <==> rows[i].completed
      ensures Credit(rows[i]) >= 2 <==> InTime(rows[i])
    {
      CreditRules(rows[i]);
    }
  }

  /** The points: of all task periods, half counts for those done and half for those done in time. */
  lemma {:induction false} PointsByPeriods(rows: seq<Row>)
    requires rows != []
    ensures |AllPeriods(rows)| > 0
    ensures Points(rows) == 100.0 * ((|DonePeriods(rows)| + |TimelyPeriods(rows)|) as real / 2.0)
                            / |AllPeriods(rows)| as real
  {
    PeriodsAreLevels(rows);
    HasKeys(rows);
  }

  /** The evidence: periods on time, periods never completed, and for the rest a category of one of their rows. */
  lemma {:induction false} EvidenceByPeriods(rows: seq<Row>, key: Key)
    ensures key in Folded(rows) <==> key in AllPeriods(rows)
    ensures key in Folded(rows) ==>
              var c := Folded(rows)[key].category;
              && (c == OnTime <==> key in TimelyPeriods(rows))
              && (c == NotCompleted <==> key !in DonePeriods(rows))
              && (c == CompletedAfterDelay ==>
                    exists r :: r in rows && PeriodOf(r) == key && r.completed && r.wasDelayed)
              && (c == LateWithoutMark ==>
                    exists r :: r in rows && PeriodOf(r) == key && r.completed && !r.wasDelayed && !InTime(r))
  {
    PeriodsAreLevels(rows);
    EntryIsBest(rows, key);
    if key in Folded(rows) {
      var r := EntryHasRow(rows, key);
      CreditRules(r);
      assert r in rows && PeriodOf(r) == key;
    }
  }

  // ----- criteria -----

  /** A criterion's score: its final points per maximum, out of 100; 0 without a stored score. */
  lemma {:induction false} NormalizedRules(c: Criterion)
    requires c.maxPoints >= 1.0 && 0.0 < c.weightage <= 100.0
    ensures c.finalPoints.None? ==> Normalized(c) == 0.0
    ensures c.finalPoints.Some? ==> Normalized(c) * c.maxPoints == 100.0 * c.finalPoints.value
  {
    if c.finalPoints.Some? {
      var q := c.finalPoints.value / c.maxPoints;
      assert q * c.maxPoints == c.finalPoints.value;
      assert q * 100.0 * c.maxPoints == 100.0 * (q * c.maxPoints);
    }
  }

  /** The sums behind the mean: nothing at first, then each applicable criterion's weight and weighted score. */
  lemma {:induction false} SumsOfCriteria(criteria: seq<Criterion>, c: Criterion, kraApplies: bool)
    requires CriteriaOk(criteria + [c])
    ensures CriteriaOk(criteria) && CriterionOk(c)
    ensures var before, after := Applicable(criteria, kraApplies), Applicable(criteria + [c], kraApplies);
            if c.isKra && !kraApplies then after == before
            else
              && TotalWeight(after) == TotalWeight(before) + c.weightage
              && WeightedSum(after) == WeightedSum(before) + Normalized(c) * c.weightage
    ensures Applicable([], kraApplies) == []
    ensures TotalWeight([]) == 0.0 && WeightedSum([]) == 0.0
  {
    var all := criteria + [c];
    assert all[..|criteria|] == criteria;
    assert forall i :: 0 <= i < |criteria| ==> all[i] == criteria[i];
    assert all[|criteria|] == c;
    SumsNext(Applicable(criteria, kraApplies), Scored(Normalized(c), c.weightage));
  }

  /** The mean times the whole weight is the weighted sum; the clamp keeps 0 to 100 and nothing outside. */
  lemma {:induction false} MeanRules(scores: seq<Scored>, x: real)
    requires Weighty(scores) && scores != []
    ensures Mean(scores) * TotalWeight(scores) == WeightedSum(scores)
    ensures 0.0 <= x <= 100.0 ==> Clamp(x) == x
    ensures x < 0.0 ==> Clamp(x) == 0.0
    ensures x > 100.0 ==> Clamp(x) == 100.0
  {
    WeightIsPositive(scores);
  }
}
