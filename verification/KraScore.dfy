/** The KRA completion score: one credit per task period, the better one when a period has two rows. */
module KraScore {
  import opened Wrappers
  import opened Periods

  /** KRA_LATE_ALLOWANCE, in days */
  const LATE_ALLOWANCE := 1

  /** One period of one assignment; completedOn is the UTC day it was completed. */
  datatype Row = Row(
    definition: nat,
    assignee: nat,
    start: int,
    end: int,
    completed: bool,
    wasDelayed: bool,
    completedOn: Option<int>,
    frequency: Frequency)

  datatype Category = NotCompleted | CompletedAfterDelay | LateWithoutMark | OnTime

  datatype Key = Key(definition: nat, assignee: nat, start: int)

  /** What the first loop keeps for a key; credits are in half points. */
  datatype Best = Best(credit: nat, category: Category, frequency: Frequency)

  datatype Evidence = Evidence(
    counted: nat,
    onTime: nat,
    completedAfterDelay: nat,
    lateWithoutMark: nat,
    notCompleted: nat,
    byFrequency: map<Frequency, nat>)

  datatype Score = Score(rawPoints: real, evidence: Evidence)

  function KeyOf(r: Row): Key {
    Key(r.definition, r.assignee, r.start)
  }

  /** The credit of a category in half points: 0, 1 or 2 for the source's 0.0, 0.5 and 1.0. */
  function CreditOf(c: Category): (credit: nat)
    ensures credit <= 2
  {
    match c
    case NotCompleted => 0
    case OnTime => 2
    case _ => 1
  }

  /** kra_credit */
  function KraCredit(completed: bool, wasDelayed: bool, completedOn: Option<int>, end: int): (r: (nat, Category))
    ensures r.0 == CreditOf(r.1)
  {
    if !completed then (0, NotCompleted)
    else if wasDelayed then (1, CompletedAfterDelay)
    else if completedOn.None? || completedOn.value > end + LATE_ALLOWANCE then (1, LateWithoutMark)
    else (2, OnTime)
  }

  function Credit(r: Row): (credit: nat)
    ensures credit <= 2
  {
    KraCredit(r.completed, r.wasDelayed, r.completedOn, r.end).0
  }

  // ----- what the score means -----

  /** The task periods with a row of at least this credit. */
  function Reaching(rows: seq<Row>, level: nat): set<Key> {
    set i | 0 <= i < |rows| && Credit(rows[i]) >= level :: KeyOf(rows[i])
  }

  /** 100 times the mean of the best credits: each period is worth half for reaching a half point and half for two. */
  function Points(rows: seq<Row>): real
    requires rows != []
  {
    HasKeys(rows);
    100.0 * ((|Reaching(rows, 1)| + |Reaching(rows, 2)|) as real / 2.0) / |Reaching(rows, 0)| as real
  }

  lemma {:induction false} HasKeys(rows: seq<Row>)
    requires rows != []
    ensures |Reaching(rows, 0)| > 0
  {
    assert KeyOf(rows[0]) in Reaching(rows, 0);
  }

  lemma {:induction false} LevelsNest(rows: seq<Row>)
    ensures Reaching(rows, 2) <= Reaching(rows, 1) <= Reaching(rows, 0)
    ensures |Reaching(rows, 2)| <= |Reaching(rows, 1)| <= |Reaching(rows, 0)|
  {
    Subset(Reaching(rows, 2), Reaching(rows, 1));
    Subset(Reaching(rows, 1), Reaching(rows, 0));
  }

  lemma {:induction false} Subset(a: set<Key>, b: set<Key>)
    requires a <= b
    ensures |a| <= |b|
    decreases |a|
  {
    if a != {} {
      var k :| k in a;
      Subset(a - {k}, b - {k});
    }
  }

  /** Points order as the counts do. */
  lemma {:induction false} QuotientGrows(a: nat, b: nat, n: nat)
    requires a <= b && n > 0
    ensures 100.0 * (a as real / 2.0) / n as real <= 100.0 * (b as real / 2.0) / n as real
  {
    var x, y, m := 100.0 * (a as real / 2.0), 100.0 * (b as real / 2.0), n as real;
    assert x <= y;
    assert y / m - x / m == (y - x) / m;
  }

  /** The score lies between 0 and 100. */
  lemma {:induction false} PointsInRange(rows: seq<Row>)
    requires rows != []
    ensures 0.0 <= Points(rows) <= 100.0
  {
    HasKeys(rows);
    LevelsNest(rows);
    var n := |Reaching(rows, 0)|;
    var reached := |Reaching(rows, 1)| + |Reaching(rows, 2)|;
    QuotientGrows(0, reached, n);
    QuotientGrows(reached, 2 * n, n);
    assert 100.0 * ((2 * n) as real / 2.0) == 100.0 * n as real;
    assert 100.0 * n as real / n as real == 100.0;
  }

  /** The order of the rows and repeated rows make no difference. */
  lemma {:induction false} SameRowsSamePoints(rows: seq<Row>, others: seq<Row>)
    requires rows != [] && others != [] && forall r :: r in rows <==> r in others
    ensures Points(rows) == Points(others)
  {
    SameRowsSameLevel(rows, others, 0);
    SameRowsSameLevel(rows, others, 1);
    SameRowsSameLevel(rows, others, 2);
  }

  lemma {:induction false} SameRowsSameLevel(rows: seq<Row>, others: seq<Row>, level: nat)
    requires forall r :: r in rows <==> r in others
    ensures Reaching(rows, level) == Reaching(others, level)
  {
    RowsReach(rows, others, level);
    RowsReach(others, rows, level);
  }

  lemma {:induction false} RowsReach(rows: seq<Row>, others: seq<Row>, level: nat)
    requires forall r :: r in rows ==> r in others
    ensures Reaching(rows, level) <= Reaching(others, level)
  {
    forall key | key in Reaching(rows, level) ensures key in Reaching(others, level) {
      var i :| 0 <= i < |rows| && Credit(rows[i]) >= level && KeyOf(rows[i]) == key;
      assert rows[i] in others;
      var j :| 0 <= j < |others| && others[j] == rows[i];
    }
  }

  /** A row that earns more never lowers the score. */
  lemma {:induction false} BetterRowNeverCosts(rows: seq<Row>, i: nat, better: Row)
    requires i < |rows| && KeyOf(better) == KeyOf(rows[i]) && Credit(better) >= Credit(rows[i])
    ensures Points(rows) <= Points(rows[i := better])
  {
    var after := rows[i := better];
    BetterReaches(rows, i, better, 0);
    BetterReaches(rows, i, better, 1);
    BetterReaches(rows, i, better, 2);
    forall key | key in Reaching(after, 0) ensures key in Reaching(rows, 0) {
      var k :| 0 <= k < |after| && KeyOf(after[k]) == key;
      assert KeyOf(rows[k]) == key;
    }
    assert Reaching(after, 0) == Reaching(rows, 0);
    HasKeys(rows);
    Subset(Reaching(rows, 1), Reaching(after, 1));
    Subset(Reaching(rows, 2), Reaching(after, 2));
    QuotientGrows(|Reaching(rows, 1)| + |Reaching(rows, 2)|, |Reaching(after, 1)| + |Reaching(after, 2)|,
                  |Reaching(rows, 0)|);
  }

  lemma {:induction false} BetterReaches(rows: seq<Row>, i: nat, better: Row, level: nat)
    requires i < |rows| && KeyOf(better) == KeyOf(rows[i]) && Credit(better) >= Credit(rows[i])
    ensures Reaching(rows, level) <= Reaching(rows[i := better], level)
  {
    var after := rows[i := better];
    forall key | key in Reaching(rows, level) ensures key in Reaching(after, level) {
      var k :| 0 <= k < |rows| && Credit(rows[k]) >= level && KeyOf(rows[k]) == key;
      assert Credit(after[k]) >= level && KeyOf(after[k]) == key;
    }
  }

  // ----- the two loops -----

  ghost predicate EntryOk(b: Best, key: Key, rows: seq<Row>) {
    && b.credit == CreditOf(b.category)
    && (b.credit >= 1 <==> key in Reaching(rows, 1))
    && (b.credit >= 2 <==> key in Reaching(rows, 2))
  }

  /** best holds every task period once, with the best credit of its rows. */
  ghost predicate BestOf(best: map<Key, Best>, rows: seq<Row>) {
    && best.Keys == Reaching(rows, 0)
    && forall key {:trigger EntryOk(best[key], key, rows)} :: key in best ==> EntryOk(best[key], key, rows)
  }

  /** What one row does to best. */
  function Improved(best: map<Key, Best>, row: Row): map<Key, Best> {
    var (credit, category) := KraCredit(row.completed, row.wasDelayed, row.completedOn, row.end);
    if KeyOf(row) !in best || credit > best[KeyOf(row)].credit
    then best[KeyOf(row) := Best(credit, category, row.frequency)]
    else best
  }

  lemma {:induction false} ImprovedIsBest(best: map<Key, Best>, rows: seq<Row>, i: nat)
    requires i < |rows| && BestOf(best, rows[..i])
    ensures BestOf(Improved(best, rows[i]), rows[..i + 1])
  {
    var after, key := Improved(best, rows[i]), KeyOf(rows[i]);
    ReachingNext(rows, i, 0);
    forall k | k in after ensures EntryOk(after[k], k, rows[..i + 1]) {
      ReachingNext(rows, i, 1);
      ReachingNext(rows, i, 2);
      assert k in best ==> EntryOk(best[k], k, rows[..i]);
      if k !in best {
        LevelsNest(rows[..i]);
      }
    }
  }

  lemma {:induction false} ReachingNext(rows: seq<Row>, i: nat, level: nat)
    requires i < |rows|
    ensures Reaching(rows[..i + 1], level)
         == Reaching(rows[..i], level) + if Credit(rows[i]) >= level then {KeyOf(rows[i])} else {}
  {
    var next, now := rows[..i + 1], rows[..i];
    forall key ensures key in Reaching(next, level) <==>
                       key in Reaching(now, level) || (Credit(rows[i]) >= level && key == KeyOf(rows[i]))
    {
      if key in Reaching(now, level) {
        var k :| 0 <= k < i && Credit(now[k]) >= level && KeyOf(now[k]) == key;
        assert next[k] == now[k];
      }
      if Credit(rows[i]) >= level && key == KeyOf(rows[i]) {
        assert next[i] == rows[i];
      }
      if key in Reaching(next, level) {
        var k :| 0 <= k <= i && Credit(next[k]) >= level && KeyOf(next[k]) == key;
        assert k < i ==> now[k] == next[k];
      }
    }
  }

  function Folded(rows: seq<Row>): map<Key, Best> {
    if rows == [] then map[] else Improved(Folded(rows[..|rows| - 1]), rows[|rows| - 1])
  }

  /** The first loop: the better credit of each key. */
  method BestCredits(rows: seq<Row>) returns (best: map<Key, Best>)
    ensures best == Folded(rows) && BestOf(best, rows)
  {
    best := map[];
    for i := 0 to |rows|
      invariant best == Folded(rows[..i]) && BestOf(best, rows[..i])
    {
      ImprovedIsBest(best, rows, i);
      assert rows[..i + 1][..i] == rows[..i];
      var row := rows[i];
      var key := KeyOf(row);
      var (credit, category) := KraCredit(row.completed, row.wasDelayed, row.completedOn, row.end);
      if key !in best || credit > best[key].credit {
        best := best[key := Best(credit, category, row.frequency)];
      }
    }
    assert rows[..|rows|] == rows;
  }

  /** The task periods of a category. */
  function Having(best: map<Key, Best>, keys: set<Key>, c: Category): set<Key> {
    set key | key in keys && key in best && best[key].category == c
  }

  /** The task periods of a frequency. */
  function Every(best: map<Key, Best>, keys: set<Key>, f: Frequency): set<Key> {
    set key | key in keys && key in best && best[key].frequency == f
  }

  function CountOf(counts: map<Frequency, nat>, f: Frequency): nat {
    if f in counts then counts[f] else 0
  }

  function FrequencyTotal(counts: map<Frequency, nat>): nat {
    CountOf(counts, Daily) + CountOf(counts, Weekly) + CountOf(counts, Monthly) + CountOf(counts, Quarterly)
  }

  /** The counts are the numbers of task periods per category and per frequency among the given keys. */
  ghost predicate Counts(e: Evidence, best: map<Key, Best>, keys: set<Key>) {
    && e.onTime == |Having(best, keys, OnTime)|
    && e.completedAfterDelay == |Having(best, keys, CompletedAfterDelay)|
    && e.lateWithoutMark == |Having(best, keys, LateWithoutMark)|
    && e.notCompleted == |Having(best, keys, NotCompleted)|
    && e.onTime + e.completedAfterDelay + e.lateWithoutMark + e.notCompleted == |keys|
    && FrequencyTotal(e.byFrequency) == |keys|
    && ByFrequency(e.byFrequency, best, keys)
  }

  /** A frequency is listed with the number of its task periods, and only if it has one. */
  ghost predicate ByFrequency(counts: map<Frequency, nat>, best: map<Key, Best>, keys: set<Key>) {
    && (forall f :: CountOf(counts, f) == |Every(best, keys, f)|)
    && (forall f :: f in counts ==> counts[f] > 0)
  }

  function Raised(e: Evidence, b: Best): Evidence {
    var counts := e.byFrequency[b.frequency := CountOf(e.byFrequency, b.frequency) + 1];
    match b.category
    case OnTime => e.(onTime := e.onTime + 1, byFrequency := counts)
    case CompletedAfterDelay => e.(completedAfterDelay := e.completedAfterDelay + 1, byFrequency := counts)
    case LateWithoutMark => e.(lateWithoutMark := e.lateWithoutMark + 1, byFrequency := counts)
    case NotCompleted => e.(notCompleted := e.notCompleted + 1, byFrequency := counts)
  }

  lemma {:induction false} HavingNext(best: map<Key, Best>, keys: set<Key>, key: Key, c: Category)
    requires key in best && key !in keys
    ensures |Having(best, keys + {key}, c)| == |Having(best, keys, c)| + if best[key].category == c then 1 else 0
  {
    if best[key].category == c {
      assert Having(best, keys + {key}, c) == Having(best, keys, c) + {key};
    } else {
      assert Having(best, keys + {key}, c) == Having(best, keys, c);
    }
  }

  lemma {:induction false} CountsNext(e: Evidence, best: map<Key, Best>, keys: set<Key>, key: Key)
    requires Counts(e, best, keys) && key in best && key !in keys
    ensures Counts(Raised(e, best[key]), best, keys + {key})
  {
    HavingNext(best, keys, key, OnTime);
    HavingNext(best, keys, key, CompletedAfterDelay);
    HavingNext(best, keys, key, LateWithoutMark);
    HavingNext(best, keys, key, NotCompleted);
    FrequencyNext(e.byFrequency, best[key].frequency);
    ByFrequencyNext(e.byFrequency, best, keys, key);
  }

  lemma {:induction false} ByFrequencyNext(counts: map<Frequency, nat>, best: map<Key, Best>, keys: set<Key>, key: Key)
    requires ByFrequency(counts, best, keys) && key in best && key !in keys
    ensures var f := best[key].frequency;
            ByFrequency(counts[f := CountOf(counts, f) + 1], best, keys + {key})
  {
    var next := counts[best[key].frequency := CountOf(counts, best[key].frequency) + 1];
    forall f ensures CountOf(next, f) == |Every(best, keys + {key}, f)| {
      EveryNext(best, keys, key, f);
    }
  }

  lemma {:induction false} EveryNext(best: map<Key, Best>, keys: set<Key>, key: Key, f: Frequency)
    requires key in best && key !in keys
    ensures |Every(best, keys + {key}, f)| == |Every(best, keys, f)| + if best[key].frequency == f then 1 else 0
  {
    if best[key].frequency == f {
      assert Every(best, keys + {key}, f) == Every(best, keys, f) + {key};
    } else {
      assert Every(best, keys + {key}, f) == Every(best, keys, f);
    }
  }

  lemma {:induction false} FrequencyNext(counts: map<Frequency, nat>, f: Frequency)
    ensures FrequencyTotal(counts[f := CountOf(counts, f) + 1]) == FrequencyTotal(counts) + 1
  {
    match f { case Daily => case Weekly => case Monthly => case Quarterly => }
  }

  ghost predicate Priced(best: map<Key, Best>) {
    forall key :: key in best ==> best[key].credit == CreditOf(best[key].category)
  }

  ghost predicate Tallied(e: Evidence, total: nat, best: map<Key, Best>, keys: set<Key>) {
    Counts(e, best, keys) && e.counted == |best| && total == 2 * e.onTime + e.completedAfterDelay + e.lateWithoutMark
  }

  lemma {:induction false} TalliedNext(e: Evidence, total: nat, best: map<Key, Best>, keys: set<Key>, key: Key)
    requires Priced(best) && key in best && key !in keys
    requires Tallied(e, total, best, keys)
    ensures Tallied(Raised(e, best[key]), total + best[key].credit, best, keys + {key})
  {
    CountsNext(e, best, keys, key);
  }

  lemma {:induction false} OneLess(keys: set<Key>, rest: set<Key>, key: Key)
    requires rest <= keys && key in rest
    ensures keys - (rest - {key}) == keys - rest + {key}
  {
  }

  /** The second loop, and the sum of the credits; the entries may come in any order. */
  method Tally(best: map<Key, Best>) returns (evidence: Evidence, total: nat)
    requires Priced(best)
    ensures Tallied(evidence, total, best, best.Keys)
  {
    evidence, total := Evidence(|best|, 0, 0, 0, 0, map[]), 0;
    var rest := best.Keys;
    assert best.Keys - rest == {};
    while rest != {}
      invariant rest <= best.Keys && Tallied(evidence, total, best, best.Keys - rest)
      decreases |rest|
    {
      var key :| key in rest;
      TalliedNext(evidence, total, best, best.Keys - rest, key);
      OneLess(best.Keys, rest, key);
      evidence := Raised(evidence, best[key]);
      total := total + best[key].credit;
      rest := rest - {key};
    }
    assert best.Keys - rest == best.Keys;
  }

  lemma {:induction false} OnTimeReachTwo(best: map<Key, Best>, rows: seq<Row>)
    requires BestOf(best, rows)
    ensures Having(best, best.Keys, OnTime) == Reaching(rows, 2)
  {
    LevelsNest(rows);
    forall key ensures key in Having(best, best.Keys, OnTime) <==> key in Reaching(rows, 2) {
      assert key in best ==> EntryOk(best[key], key, rows);
    }
  }

  lemma {:induction false} HalvesReachOne(best: map<Key, Best>, rows: seq<Row>)
    requires BestOf(best, rows)
    ensures Reaching(rows, 1)
         == Having(best, best.Keys, OnTime)
            + (Having(best, best.Keys, CompletedAfterDelay) + Having(best, best.Keys, LateWithoutMark))
  {
    LevelsNest(rows);
    forall key ensures key in Reaching(rows, 1) <==> key in best && best[key].category != NotCompleted {
      assert key in best ==> EntryOk(best[key], key, rows);
    }
  }

  lemma {:induction false} DisjointSizes(a: set<Key>, b: set<Key>, c: set<Key>)
    requires a !! b && a !! c && b !! c
    ensures |a + (b + c)| == |a| + |b| + |c|
  {
  }

  lemma {:induction false} CategoriesAreLevels(best: map<Key, Best>, rows: seq<Row>, e: Evidence)
    requires BestOf(best, rows) && Counts(e, best, best.Keys)
    ensures e.onTime == |Reaching(rows, 2)|
    ensures e.onTime + e.completedAfterDelay + e.lateWithoutMark == |Reaching(rows, 1)|
    ensures |best| == |Reaching(rows, 0)|
  {
    OnTimeReachTwo(best, rows);
    HalvesReachOne(best, rows);
    DisjointSizes(Having(best, best.Keys, OnTime), Having(best, best.Keys, CompletedAfterDelay),
                  Having(best, best.Keys, LateWithoutMark));
  }

  /** score_kra_occurrences: None for no rows, else the points of the row set and counts that add up. */
  method ScoreKraOccurrences(rows: seq<Row>) returns (result: Option<Score>)
    ensures result.None? <==> rows == []
    ensures result.Some? ==>
              var e := result.value.evidence;
              && result.value.rawPoints == Points(rows)
              && e.counted == |Reaching(rows, 0)| > 0
              && e.onTime == |Reaching(rows, 2)|
              && e.onTime + e.completedAfterDelay + e.lateWithoutMark == |Reaching(rows, 1)|
              && e.onTime + e.completedAfterDelay + e.lateWithoutMark + e.notCompleted == e.counted
              && FrequencyTotal(e.byFrequency) == e.counted
              && Counts(e, Folded(rows), Folded(rows).Keys)
              && result.value.rawPoints
                 == 100.0 * (e.onTime as real + (e.completedAfterDelay + e.lateWithoutMark) as real / 2.0)
                    / e.counted as real
  {
    var best := BestCredits(rows);
    EmptyIff(rows);
    if best == map[] {
      return None;
    }
    forall key | key in best ensures best[key].credit == CreditOf(best[key].category) {
      assert EntryOk(best[key], key, rows);
    }
    var evidence, total := Tally(best);
    CategoriesAreLevels(best, rows, evidence);
    var rawPoints := total as real / 2.0 / |best| as real * 100.0;
    Rearranged(total, |best|, evidence);
    return Some(Score(rawPoints, evidence));
  }

  lemma {:induction false} EmptyIff(rows: seq<Row>)
    ensures Reaching(rows, 0) == {} <==> rows == []
  {
    if rows != [] {
      HasKeys(rows);
    }
  }

  lemma {:induction false} Rearranged(total: nat, n: nat, e: Evidence)
    requires n > 0
    requires total == 2 * e.onTime + e.completedAfterDelay + e.lateWithoutMark
    ensures total as real / 2.0 / n as real * 100.0 == 100.0 * (total as real / 2.0) / n as real
    ensures total as real / 2.0 == e.onTime as real + (e.completedAfterDelay + e.lateWithoutMark) as real / 2.0
  {
  }
}
