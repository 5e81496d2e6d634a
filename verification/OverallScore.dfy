/** The overall ranking score: a weighted mean of the criteria that apply. */
module OverallScore {
  import opened Wrappers

  /** A criterion as configured, and the employee's final points on it, if a score was stored. */
  datatype Criterion = Criterion(weightage: real, maxPoints: real, isKra: bool, finalPoints: Option<real>)

  /** A score out of 100, and its weight. */
  datatype Scored = Scored(score: real, weight: real)

  /** check_weightage, and the schema's minimum for the maximum points. */
  predicate CriterionOk(c: Criterion) {
    0.0 < c.weightage <= 100.0 && c.maxPoints >= 1.0
  }

  ghost predicate CriteriaOk(criteria: seq<Criterion>) {
    forall i :: 0 <= i < |criteria| ==> CriterionOk(criteria[i])
  }

  /** The final points out of 100; a criterion without a score counts as 0. */
  function Normalized(c: Criterion): real
    requires CriterionOk(c)
  {
    if c.finalPoints.Some? then c.finalPoints.value / c.maxPoints * 100.0 else 0.0
  }

  predicate Applies(c: Criterion, kraApplies: bool) {
    !c.isKra || kraApplies
  }

  /** The scores of the criteria that are not left out. */
  function Applicable(criteria: seq<Criterion>, kraApplies: bool): seq<Scored>
    requires CriteriaOk(criteria)
  {
    if criteria == [] then []
    else
      var last := criteria[|criteria| - 1];
      var before := Applicable(criteria[..|criteria| - 1], kraApplies);
      if Applies(last, kraApplies) then before + [Scored(Normalized(last), last.weightage)] else before
  }

  predicate Weighty(scores: seq<Scored>) {
    forall i :: 0 <= i < |scores| ==> scores[i].weight > 0.0
  }

  lemma {:induction false} ApplicableWeighty(criteria: seq<Criterion>, kraApplies: bool)
    requires CriteriaOk(criteria)
    ensures Weighty(Applicable(criteria, kraApplies))
  {
    if criteria != [] {
      ApplicableWeighty(criteria[..|criteria| - 1], kraApplies);
    }
  }

  function TotalWeight(scores: seq<Scored>): real {
    if scores == [] then 0.0 else TotalWeight(scores[..|scores| - 1]) + scores[|scores| - 1].weight
  }

  function WeightedSum(scores: seq<Scored>): real {
    if scores == [] then 0.0
    else WeightedSum(scores[..|scores| - 1]) + scores[|scores| - 1].score * scores[|scores| - 1].weight
  }

  lemma {:induction false} WeightIsPositive(scores: seq<Scored>)
    requires Weighty(scores)
    ensures scores != [] ==> TotalWeight(scores) > 0.0
  {
    if |scores| > 1 {
      WeightIsPositive(scores[..|scores| - 1]);
    }
  }

  /** The mean of the scores, each counted by its weight. */
  function Mean(scores: seq<Scored>): real
    requires Weighty(scores) && scores != []
  {
    WeightIsPositive(scores);
    WeightedSum(scores) / TotalWeight(scores)
  }

  /** max(0, min(100, x)) */
  function Clamp(x: real): real {
    var y := if x > 100.0 then 100.0 else x;
    if y < 0.0 then 0.0 else y
  }

  // ----- the calculation -----

  /** What the loop adds up: each score times its weight as a fraction. */
  function Contributions(scores: seq<Scored>): real {
    if scores == [] then 0.0
    else Contributions(scores[..|scores| - 1]) + scores[|scores| - 1].score * (scores[|scores| - 1].weight / 100.0)
  }

  lemma {:induction false} PercentStep(sum: real, x: real, w: real)
    ensures sum / 100.0 + x * (w / 100.0) == (sum + x * w) / 100.0
  {
  }

  lemma {:induction false} ContributionsArePercent(scores: seq<Scored>)
    ensures Contributions(scores) == WeightedSum(scores) / 100.0
  {
    if scores != [] {
      var before, last := scores[..|scores| - 1], scores[|scores| - 1];
      ContributionsArePercent(before);
      PercentStep(WeightedSum(before), last.score, last.weight);
    }
  }

  lemma {:induction false} PercentOfMean(sum: real, weight: real)
    requires weight > 0.0
    ensures sum / 100.0 / weight * 100.0 == sum / weight
  {
    assert sum / 100.0 / weight == sum / weight / 100.0;
  }

  lemma {:induction false} OneMore(criteria: seq<Criterion>, kraApplies: bool, i: nat)
    requires CriteriaOk(criteria) && i < |criteria|
    ensures var before, after := Applicable(criteria[..i], kraApplies), Applicable(criteria[..i + 1], kraApplies);
            var c := criteria[i];
            && (!Applies(c, kraApplies) ==> after == before)
            && (Applies(c, kraApplies) ==>
                  && TotalWeight(after) == TotalWeight(before) + c.weightage
                  && Contributions(after) == Contributions(before) + Normalized(c) * (c.weightage / 100.0))
  {
    assert criteria[..i + 1][..i] == criteria[..i];
    var before, after := Applicable(criteria[..i], kraApplies), Applicable(criteria[..i + 1], kraApplies);
    if Applies(criteria[i], kraApplies) {
      assert after[..|before|] == before;
    }
  }

  /** The loop over the criteria. */
  method Totals(criteria: seq<Criterion>, kraApplies: bool) returns (totalWeightedScore: real, totalWeightage: real)
    requires CriteriaOk(criteria)
    ensures totalWeightage == TotalWeight(Applicable(criteria, kraApplies))
    ensures totalWeightedScore == Contributions(Applicable(criteria, kraApplies))
  {
    totalWeightedScore, totalWeightage := 0.0, 0.0;
    for i := 0 to |criteria|
      invariant totalWeightage == TotalWeight(Applicable(criteria[..i], kraApplies))
      invariant totalWeightedScore == Contributions(Applicable(criteria[..i], kraApplies))
    {
      var criterion := criteria[i];
      OneMore(criteria, kraApplies, i);
      if criterion.isKra && !kraApplies {
        continue;
      }
      if criterion.finalPoints.Some? {
        var normalized := criterion.finalPoints.value / criterion.maxPoints * 100.0;
        totalWeightedScore := totalWeightedScore + normalized * (criterion.weightage / 100.0);
      }
      totalWeightage := totalWeightage + criterion.weightage;
    }
    assert criteria[..|criteria|] == criteria;
  }

  /** The overall score: the clamped mean of what applies, 0 when nothing does. */
  method CalculateOverall(criteria: seq<Criterion>, kraApplies: bool) returns (overall: real)
    requires CriteriaOk(criteria)
    ensures var scores := Applicable(criteria, kraApplies);
            && Weighty(scores)
            && overall == if scores == [] then 0.0 else Clamp(Mean(scores))
  {
    ApplicableWeighty(criteria, kraApplies);
    var totalWeightedScore, totalWeightage := Totals(criteria, kraApplies);
    ghost var scores := Applicable(criteria, kraApplies);
    WeightIsPositive(scores);
    if totalWeightage == 0.0 {
      return 0.0;
    }
    ContributionsArePercent(scores);
    PercentOfMean(WeightedSum(scores), totalWeightage);
    return Clamp(totalWeightedScore / totalWeightage * 100.0);
  }

  // ----- what the score means -----

  ghost predicate Between(scores: seq<Scored>, low: real, high: real) {
    forall i :: 0 <= i < |scores| ==> low <= scores[i].score <= high
  }

  lemma {:induction false} Scaled(a: real, b: real, w: real)
    requires a <= b && w > 0.0
    ensures a * w <= b * w
    ensures a < b ==> a * w < b * w
  {
  }

  lemma {:induction false} BetweenStep(low: real, high: real, weight: real, sum: real, w: real, x: real)
    requires low * weight <= sum <= high * weight && low <= x <= high && w > 0.0
    ensures low * (weight + w) <= sum + x * w <= high * (weight + w)
  {
    Scaled(low, x, w);
    Scaled(x, high, w);
    assert low * (weight + w) == low * weight + low * w && high * (weight + w) == high * weight + high * w;
  }

  lemma {:induction false} SumBetween(scores: seq<Scored>, low: real, high: real)
    requires Weighty(scores) && Between(scores, low, high)
    ensures low * TotalWeight(scores) <= WeightedSum(scores) <= high * TotalWeight(scores)
  {
    if scores != [] {
      var before, last := scores[..|scores| - 1], scores[|scores| - 1];
      SumBetween(before, low, high);
      BetweenStep(low, high, TotalWeight(before), WeightedSum(before), last.weight, last.score);
    }
  }

  lemma {:induction false} Cancelled(a: real, b: real, w: real)
    requires a * w <= b * w && w > 0.0
    ensures a <= b
  {
    if a > b {
      Scaled(b, a, w);
    }
  }

  lemma {:induction false} QuotientBetween(sum: real, weight: real, low: real, high: real)
    requires weight > 0.0 && low * weight <= sum <= high * weight
    ensures low <= sum / weight <= high
  {
    var q := sum / weight;
    assert q * weight == sum;
    Cancelled(low, q, weight);
    Cancelled(q, high, weight);
  }

  /** The mean lies between the smallest and the largest score. */
  lemma {:induction false} MeanBetween(scores: seq<Scored>, low: real, high: real)
    requires Weighty(scores) && scores != [] && Between(scores, low, high)
    ensures low <= Mean(scores) <= high
  {
    SumBetween(scores, low, high);
    WeightIsPositive(scores);
    QuotientBetween(WeightedSum(scores), TotalWeight(scores), low, high);
  }

  /** Final points between 0 and the criterion's maximum, where there are any. */
  ghost predicate PointsInRange(criteria: seq<Criterion>) {
    forall i :: 0 <= i < |criteria| && criteria[i].finalPoints.Some? ==>
      0.0 <= criteria[i].finalPoints.value <= criteria[i].maxPoints
  }

  lemma {:induction false} NormalizedInRange(c: Criterion)
    requires CriterionOk(c) && (c.finalPoints.Some? ==> 0.0 <= c.finalPoints.value <= c.maxPoints)
    ensures 0.0 <= Normalized(c) <= 100.0
  {
    if c.finalPoints.Some? {
      QuotientBetween(c.finalPoints.value, c.maxPoints, 0.0, 1.0);
    }
  }

  lemma {:induction false} ScoresInRange(criteria: seq<Criterion>, kraApplies: bool)
    requires CriteriaOk(criteria) && PointsInRange(criteria)
    ensures Between(Applicable(criteria, kraApplies), 0.0, 100.0)
  {
    if criteria != [] {
      ScoresInRange(criteria[..|criteria| - 1], kraApplies);
      NormalizedInRange(criteria[|criteria| - 1]);
    }
  }

  /** With final points in range the clamp changes nothing. */
  lemma {:induction false} ClampChangesNothing(criteria: seq<Criterion>, kraApplies: bool)
    requires CriteriaOk(criteria) && PointsInRange(criteria) && Applicable(criteria, kraApplies) != []
    ensures Weighty(Applicable(criteria, kraApplies))
    ensures Clamp(Mean(Applicable(criteria, kraApplies))) == Mean(Applicable(criteria, kraApplies))
  {
    ApplicableWeighty(criteria, kraApplies);
    ScoresInRange(criteria, kraApplies);
    MeanBetween(Applicable(criteria, kraApplies), 0.0, 100.0);
  }

  lemma {:induction false} SumsNext(scores: seq<Scored>, s: Scored)
    ensures TotalWeight(scores + [s]) == TotalWeight(scores) + s.weight
    ensures WeightedSum(scores + [s]) == WeightedSum(scores) + s.score * s.weight
  {
    assert (scores + [s])[..|scores|] == scores;
  }

  /** A score may stand anywhere in the list. */
  lemma {:induction false} SumsSplit(a: seq<Scored>, s: Scored, b: seq<Scored>)
    ensures TotalWeight(a + [s] + b) == TotalWeight(a + b) + s.weight
    ensures WeightedSum(a + [s] + b) == WeightedSum(a + b) + s.score * s.weight
  {
    if b == [] {
      assert a + [s] + b == a + [s] && a + b == a;
      SumsNext(a, s);
    } else {
      var n := |b| - 1;
      SumsSplit(a, s, b[..n]);
      assert a + [s] + b == (a + [s] + b[..n]) + [b[n]] && a + b == (a + b[..n]) + [b[n]];
      SumsNext(a + [s] + b[..n], b[n]);
      SumsNext(a + b[..n], b[n]);
    }
  }

  lemma {:induction false} Absorb(sum: real, weight: real, w: real, m: real, allSum: real, allWeight: real)
    requires weight > 0.0 && w > 0.0 && m == sum / weight
    requires allSum == sum + m * w && allWeight == weight + w
    ensures allSum / allWeight == m
  {
    assert sum == m * weight;
    assert allSum == m * allWeight;
  }

  /** Adding a score equal to the mean of the others leaves the mean where it is. */
  lemma {:induction false} MeanAbsorbs(a: seq<Scored>, b: seq<Scored>, w: real)
    requires Weighty(a + b) && a + b != [] && w > 0.0
    ensures Weighty(a + [Scored(Mean(a + b), w)] + b)
    ensures Mean(a + [Scored(Mean(a + b), w)] + b) == Mean(a + b)
  {
    var m := Mean(a + b);
    WeightIsPositive(a + b);
    WeightyWith(a, Scored(m, w), b);
    SumsSplit(a, Scored(m, w), b);
    var all := a + [Scored(m, w)] + b;
    Absorb(WeightedSum(a + b), TotalWeight(a + b), w, m, WeightedSum(all), TotalWeight(all));
  }

  lemma {:induction false} WeightyWith(a: seq<Scored>, s: Scored, b: seq<Scored>)
    requires Weighty(a + b) && s.weight > 0.0
    ensures Weighty(a + [s] + b)
  {
    forall i | 0 <= i < |a + [s] + b| ensures (a + [s] + b)[i].weight > 0.0 {
      assert i < |a| ==> (a + b)[i] == a[i];
      assert i > |a| ==> (a + b)[i - 1] == b[i - |a| - 1];
    }
  }

  lemma {:induction false} ApplicableSplits(a: seq<Criterion>, b: seq<Criterion>, kraApplies: bool)
    requires CriteriaOk(a) && CriteriaOk(b)
    ensures CriteriaOk(a + b)
    ensures Applicable(a + b, kraApplies) == Applicable(a, kraApplies) + Applicable(b, kraApplies)
  {
    if b == [] {
      assert a + b == a;
    } else {
      var n := |b| - 1;
      ApplicableSplits(a, b[..n], kraApplies);
      assert (a + b)[..|a| + n] == a + b[..n];
    }
  }

  ghost predicate NoKra(criteria: seq<Criterion>) {
    forall i :: 0 <= i < |criteria| ==> !criteria[i].isKra
  }

  lemma {:induction false} NoKraSame(a: seq<Criterion>)
    requires CriteriaOk(a) && NoKra(a)
    ensures Applicable(a, false) == Applicable(a, true)
  {
    if a != [] {
      NoKraSame(a[..|a| - 1]);
    }
  }

  lemma {:induction false} OneCriterion(c: Criterion, kraApplies: bool)
    requires CriterionOk(c)
    ensures Applicable([c], kraApplies) == if Applies(c, kraApplies) then [Scored(Normalized(c), c.weightage)] else []
  {
    assert [c][..0] == [] && Applicable([], kraApplies) == [];
  }

  lemma {:induction false} KraInBetween(a: seq<Criterion>, kra: Criterion, b: seq<Criterion>, kraApplies: bool)
    requires CriteriaOk(a) && CriteriaOk(b) && CriterionOk(kra) && kra.isKra && NoKra(a) && NoKra(b)
    ensures CriteriaOk(a + [kra] + b) && CriteriaOk(a + b)
    ensures Applicable(a + [kra] + b, kraApplies)
         == Applicable(a, true) + (if kraApplies then [Scored(Normalized(kra), kra.weightage)] else [])
            + Applicable(b, true)
  {
    ApplicableSplits(a + [kra], b, kraApplies);
    ApplicableSplits(a, [kra], kraApplies);
    OneCriterion(kra, kraApplies);
    NoKraSame(a);
    NoKraSame(b);
  }

  /** Leaving KRA Completion out gives the score it would give if it applied at the mean of the other criteria. */
  lemma {:induction false} LeavingKraOut(a: seq<Criterion>, kra: Criterion, b: seq<Criterion>)
    requires CriteriaOk(a) && CriteriaOk(b) && CriterionOk(kra) && kra.isKra && NoKra(a) && NoKra(b) && a + b != []
    ensures CriteriaOk(a + [kra] + b) && CriteriaOk(a + b)
    ensures var rest := Applicable(a + [kra] + b, false);
            && rest == Applicable(a, true) + Applicable(b, true)
            && rest != []
            && Weighty(rest)
            && (Normalized(kra) == Mean(rest) ==>
                  && Weighty(Applicable(a + [kra] + b, true))
                  && Mean(Applicable(a + [kra] + b, true)) == Mean(rest))
  {
    KraInBetween(a, kra, b, false);
    KraInBetween(a, kra, b, true);
    ApplicableWeighty(a + [kra] + b, false);
    var x, y := Applicable(a, true), Applicable(b, true);
    assert x + [] + y == x + y;
    SomethingApplies(a);
    SomethingApplies(b);
    if Normalized(kra) == Mean(x + y) {
      MeanAbsorbs(x, y, kra.weightage);
    }
  }

  lemma {:induction false} SomethingApplies(a: seq<Criterion>)
    requires CriteriaOk(a)
    ensures |Applicable(a, true)| == |a|
  {
    if a != [] {
      SomethingApplies(a[..|a| - 1]);
    }
  }
}
