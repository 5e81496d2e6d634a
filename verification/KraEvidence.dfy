/**
 When the evidence of a KRA score depends on the order of the rows. The query
 behind the score states no order, so this is what a reader of the evidence
 can rely on.
 */
module KraEvidence {
  import opened KraScore
  import opened Periods

  function CategoryOf(r: Row): Category {
    KraCredit(r.completed, r.wasDelayed, r.completedOn, r.end).1
  }

  /** The evidence count of a category, as ScoreKraOccurrences reports it for these rows. */
  function CategoryCount(rows: seq<Row>, c: Category): nat {
    |Having(Folded(rows), Folded(rows).Keys, c)|
  }

  function FrequencyCount(rows: seq<Row>, f: Frequency): nat {
    |Every(Folded(rows), Folded(rows).Keys, f)|
  }

  ghost predicate Permutation(rows: seq<Row>, others: seq<Row>) {
    multiset(rows) == multiset(others)
  }

  // ----- where an entry comes from -----

  /** An entry of the first loop is that of one of the rows of its key. */
  ghost predicate FromRow(key: Key, b: Best, r: Row) {
    KeyOf(r) == key && b == Best(Credit(r), CategoryOf(r), r.frequency)
  }

  lemma {:induction false} EntryHasRow(rows: seq<Row>, key: Key) returns (r: Row)
    requires key in Folded(rows)
    ensures r in rows && FromRow(key, Folded(rows)[key], r)
  {
    var last := rows[|rows| - 1];
    if Folded(rows)[key] == Best(Credit(last), CategoryOf(last), last.frequency) && KeyOf(last) == key {
      r := last;
    } else {
      r := EntryHasRow(rows[..|rows| - 1], key);
    }
  }

  lemma {:induction false} FoldedIsBest(rows: seq<Row>, n: nat)
    requires n <= |rows|
    ensures BestOf(Folded(rows[..n]), rows[..n])
  {
    if n > 0 {
      FoldedIsBest(rows, n - 1);
      assert rows[..n][..n - 1] == rows[..n - 1];
      ImprovedIsBest(Folded(rows[..n - 1]), rows, n - 1);
    }
  }

  lemma {:induction false} EntryIsBest(rows: seq<Row>, key: Key)
    ensures key in Folded(rows) <==> key in Reaching(rows, 0)
    ensures key in Folded(rows) ==> EntryOk(Folded(rows)[key], key, rows)
  {
    FoldedIsBest(rows, |rows|);
    assert rows[..|rows|] == rows;
  }

  // ----- order independence -----

  /** The rows of a key that earn a half credit all earn it for the same reason. */
  ghost predicate OneReason(rows: seq<Row>, key: Key) {
    forall r, s :: r in rows && s in rows && HalfFor(r, key) && HalfFor(s, key) ==> CategoryOf(r) == CategoryOf(s)
  }

  predicate HalfFor(r: Row, key: Key) {
    KeyOf(r) == key && Credit(r) == 1
  }

  /** So for every task period whose best credit is a half. */
  ghost predicate OneReasonEach(rows: seq<Row>) {
    forall key :: key in Reaching(rows, 1) - Reaching(rows, 2) ==> OneReason(rows, key)
  }

  lemma {:induction false} SameCategory(rows: seq<Row>, others: seq<Row>, key: Key)
    requires (forall r :: r in rows <==> r in others) && OneReasonEach(rows)
    requires key in Folded(rows) && key in Folded(others)
    ensures Folded(rows)[key].category == Folded(others)[key].category
  {
    SameRowsSameLevel(rows, others, 1);
    SameRowsSameLevel(rows, others, 2);
    EntryIsBest(rows, key);
    EntryIsBest(others, key);
    var r := EntryHasRow(rows, key);
    var s := EntryHasRow(others, key);
    if Credit(r) == 1 {
      assert OneReason(rows, key) && HalfFor(r, key) && HalfFor(s, key);
    }
  }

  lemma {:induction false} SameKeys(rows: seq<Row>, others: seq<Row>)
    requires forall r :: r in rows <==> r in others
    ensures Folded(rows).Keys == Folded(others).Keys
  {
    SameRowsSameLevel(rows, others, 0);
    forall key ensures key in Folded(rows) <==> key in Folded(others) {
      EntryIsBest(rows, key);
      EntryIsBest(others, key);
    }
  }

  lemma {:induction false} OneReasonIsEnough(rows: seq<Row>, others: seq<Row>, c: Category)
    requires (forall r :: r in rows <==> r in others) && OneReasonEach(rows)
    ensures CategoryCount(rows, c) == CategoryCount(others, c)
  {
    var mine, theirs := Folded(rows), Folded(others);
    SameKeys(rows, others);
    forall key | key in mine ensures mine[key].category == theirs[key].category {
      SameCategory(rows, others, key);
    }
    assert Having(mine, mine.Keys, c) == Having(theirs, theirs.Keys, c);
  }

  // ----- two orders that disagree -----

  /** The same entries except for one key, where the categories are a and b. */
  ghost predicate DifferAt(x: map<Key, Best>, y: map<Key, Best>, key: Key, a: Category, b: Category) {
    && x.Keys == y.Keys && key in x
    && x[key].credit == y[key].credit == 1
    && x[key].category == a && y[key].category == b
    && forall k :: k in x && k != key ==> x[k] == y[k]
  }

  /** Reading on after two rows in either order leaves the difference they made. */
  lemma {:induction false} RestKeepsDifference(a: Row, b: Row, rest: seq<Row>)
    requires HalfFor(a, KeyOf(a)) && HalfFor(b, KeyOf(a)) && CategoryOf(a) != CategoryOf(b)
    requires forall r :: r in rest && KeyOf(r) == KeyOf(a) ==> Credit(r) <= 1
    ensures DifferAt(Folded([a, b] + rest), Folded([b, a] + rest), KeyOf(a), CategoryOf(a), CategoryOf(b))
  {
    var x, y := [a, b] + rest, [b, a] + rest;
    if rest == [] {
      FoldedPair(a, b);
      FoldedPair(b, a);
      assert x == [a, b] && y == [b, a];
    } else {
      var n := |rest| - 1;
      RestKeepsDifference(a, b, rest[..n]);
      assert x[..|x| - 1] == [a, b] + rest[..n] && y[..|y| - 1] == [b, a] + rest[..n];
      assert rest[n] in rest;
    }
  }

  lemma {:induction false} FoldedPair(a: Row, b: Row)
    requires HalfFor(a, KeyOf(a)) && HalfFor(b, KeyOf(a))
    ensures Folded([a, b]) == map[KeyOf(a) := Best(1, CategoryOf(a), a.frequency)]
  {
    assert [a, b][..1] == [a] && [a][..0] == [];
    assert Folded([a]) == Improved(map[], a);
  }

  lemma {:induction false} DifferenceCounts(x: map<Key, Best>, y: map<Key, Best>, key: Key, a: Category, b: Category)
    requires DifferAt(x, y, key, a, b) && a != b
    ensures |Having(x, x.Keys, a)| == |Having(y, y.Keys, a)| + 1
  {
    assert Having(x, x.Keys, a) == Having(y, y.Keys, a) + {key};
  }

  /** The rows with two of them moved to the front. */
  function Fronted(rows: seq<Row>, i: nat, j: nat): seq<Row>
    requires i < j < |rows|
  {
    rows[..i] + rows[i + 1..j] + rows[j + 1..]
  }

  lemma {:induction false} FrontedIsPermutation(rows: seq<Row>, i: nat, j: nat)
    requires i < j < |rows|
    ensures Permutation(rows, [rows[i], rows[j]] + Fronted(rows, i, j))
    ensures Permutation(rows, [rows[j], rows[i]] + Fronted(rows, i, j))
    ensures forall r :: r in Fronted(rows, i, j) ==> r in rows
  {
    assert rows == rows[..i] + [rows[i]] + rows[i + 1..j] + [rows[j]] + rows[j + 1..];
    PiecesRegroup(rows[..i], rows[i], rows[i + 1..j], rows[j], rows[j + 1..]);
  }

  lemma {:induction false} PiecesRegroup(x: seq<Row>, a: Row, y: seq<Row>, b: Row, z: seq<Row>)
    ensures Permutation(x + [a] + y + [b] + z, [a, b] + (x + y + z))
    ensures Permutation(x + [a] + y + [b] + z, [b, a] + (x + y + z))
  {
    assert [a, b] == [a] + [b] && [b, a] == [b] + [a];
  }

  lemma {:induction false} ReachesOwnLevel(rows: seq<Row>, k: nat, level: nat)
    requires k < |rows|
    ensures Credit(rows[k]) >= level ==> KeyOf(rows[k]) in Reaching(rows, level)
  {
  }

  /** If two half credits of one key have different reasons, two orders of the rows count differently. */
  lemma {:induction false} TwoReasonsShow(rows: seq<Row>, i: nat, j: nat)
    requires i < j < |rows| && CategoryOf(rows[i]) != CategoryOf(rows[j])
    requires HalfFor(rows[i], KeyOf(rows[i])) && HalfFor(rows[j], KeyOf(rows[i]))
    requires KeyOf(rows[i]) !in Reaching(rows, 2)
    ensures CategoryCount([rows[i], rows[j]] + Fronted(rows, i, j), CategoryOf(rows[i])) ==
            CategoryCount([rows[j], rows[i]] + Fronted(rows, i, j), CategoryOf(rows[i])) + 1
  {
    var a, b, rest := rows[i], rows[j], Fronted(rows, i, j);
    FrontedIsPermutation(rows, i, j);
    forall r | r in rest && KeyOf(r) == KeyOf(a) ensures Credit(r) <= 1 {
      var k :| 0 <= k < |rows| && rows[k] == r;
      ReachesOwnLevel(rows, k, 2);
    }
    RestKeepsDifference(a, b, rest);
    DifferenceCounts(Folded([a, b] + rest), Folded([b, a] + rest), KeyOf(a), CategoryOf(a), CategoryOf(b));
  }

  /** The category counts of these rows are those of any order of them. */
  ghost predicate OrderFree(rows: seq<Row>) {
    forall others, c :: Permutation(rows, others) ==> CategoryCount(others, c) == CategoryCount(rows, c)
  }

  lemma {:induction false} TwoReasonsNotOrderFree(rows: seq<Row>, i: nat, j: nat)
    requires i < j < |rows| && CategoryOf(rows[i]) != CategoryOf(rows[j])
    requires HalfFor(rows[i], KeyOf(rows[i])) && HalfFor(rows[j], KeyOf(rows[i]))
    requires KeyOf(rows[i]) !in Reaching(rows, 2)
    ensures !OrderFree(rows)
  {
    FrontedIsPermutation(rows, i, j);
    TwoReasonsShow(rows, i, j);
    var x, y := [rows[i], rows[j]] + Fronted(rows, i, j), [rows[j], rows[i]] + Fronted(rows, i, j);
    var c := CategoryOf(rows[i]);
    assert Permutation(rows, x) && Permutation(rows, y);
    assert CategoryCount(x, c) != CategoryCount(rows, c) || CategoryCount(y, c) != CategoryCount(rows, c);
  }

  lemma {:induction false} ManyReasonsNotOrderFree(rows: seq<Row>, key: Key)
    requires key !in Reaching(rows, 2) && !OneReason(rows, key)
    ensures !OrderFree(rows)
  {
    var r, s :| r in rows && s in rows && HalfFor(r, key) && HalfFor(s, key) && CategoryOf(r) != CategoryOf(s);
    var i :| 0 <= i < |rows| && rows[i] == r;
    var j :| 0 <= j < |rows| && rows[j] == s;
    if i < j {
      TwoReasonsNotOrderFree(rows, i, j);
    } else {
      TwoReasonsNotOrderFree(rows, j, i);
    }
  }

  lemma {:induction false} PermutationHasSameRows(rows: seq<Row>, others: seq<Row>)
    requires Permutation(rows, others)
    ensures forall r :: r in rows <==> r in others
  {
    forall r ensures r in rows <==> r in others {
      assert r in rows <==> r in multiset(rows);
      assert r in others <==> r in multiset(others);
    }
  }

  /**
   The category counts are free of the row order exactly if every task period
   whose best credit is a half has one reason for its half credits.
   */
  lemma {:induction false} OrderFreeExactly(rows: seq<Row>)
    ensures OrderFree(rows) <==> OneReasonEach(rows)
  {
    if OneReasonEach(rows) {
      forall others, c | Permutation(rows, others) ensures CategoryCount(others, c) == CategoryCount(rows, c) {
        PermutationHasSameRows(rows, others);
        OneReasonIsEnough(rows, others, c);
      }
    } else {
      var key :| key in Reaching(rows, 1) - Reaching(rows, 2) && !OneReason(rows, key);
      ManyReasonsNotOrderFree(rows, key);
    }
  }

  /** A task period completed late after a delay mark by one assignment and without one by the next. */
  lemma {:induction false} ReassignedTwoReasons(delayed: Row, late: Row)
    requires KeyOf(delayed) == KeyOf(late) && delayed.completed && delayed.wasDelayed
    requires late.completed && !late.wasDelayed
    requires late.completedOn.Some? && late.completedOn.value > late.end + LATE_ALLOWANCE
    ensures CategoryCount([delayed, late], CompletedAfterDelay) == 1
    ensures CategoryCount([late, delayed], CompletedAfterDelay) == 0
    ensures !OrderFree([delayed, late])
  {
    var rows := [delayed, late];
    FoldedPair(delayed, late);
    FoldedPair(late, delayed);
    var x, y := Folded(rows), Folded([late, delayed]);
    assert Having(x, x.Keys, CompletedAfterDelay) == {KeyOf(delayed)};
    assert Having(y, y.Keys, CompletedAfterDelay) == {};
    assert [late, delayed] == [late] + [delayed] && rows == [delayed] + [late];
    assert Permutation(rows, [late, delayed]);
  }

  // ----- frequencies -----

  /** Rows of one definition carry the definition's frequency. */
  ghost predicate OneFrequency(rows: seq<Row>) {
    forall r, s :: r in rows && s in rows && r.definition == s.definition ==> r.frequency == s.frequency
  }

  /** The frequency counts never depend on the order. */
  lemma {:induction false} FrequenciesAreOrderFree(rows: seq<Row>, others: seq<Row>, f: Frequency)
    requires (forall r :: r in rows <==> r in others) && OneFrequency(rows)
    ensures FrequencyCount(rows, f) == FrequencyCount(others, f)
  {
    var mine, theirs := Folded(rows), Folded(others);
    SameKeys(rows, others);
    forall key | key in mine ensures mine[key].frequency == theirs[key].frequency {
      var r := EntryHasRow(rows, key);
      var s := EntryHasRow(others, key);
      assert r.definition == s.definition;
    }
    assert Every(mine, mine.Keys, f) == Every(theirs, theirs.Keys, f);
  }
}
