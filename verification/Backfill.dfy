/** Filling in the missing task occurrences: capped, idempotent, and safe to interleave. */
module Backfill {
  import opened Wrappers
  import opened Periods

  const MAX_PERIODS_PER_CALL := 400
  const INSERT_BATCH := 500

  datatype Status = Pending | Delayed | Completed

  /** One period of one assignment. */
  datatype Occurrence = Occurrence(assignment: nat, start: int, end: int, status: Status, wasDelayed: bool)

  /** An assignment to generate for: its calendar grid and its start date. */
  datatype Work = Work(assignment: nat, grid: int -> Span, from: int)

  function Row(assignment: nat, p: Span): Occurrence {
    Occurrence(assignment, p.start, p.end, Pending, false)
  }

  // ----- what is missing -----

  /** existing[assignment]: the period starts the table holds. */
  function Existing(table: seq<Occurrence>, assignment: nat): set<int> {
    set k | 0 <= k < |table| && table[k].assignment == assignment :: table[k].start
  }

  /** The periods whose start is not in done, in order. */
  function Absent(periods: seq<Span>, done: set<int>): (r: seq<Span>)
    ensures forall p {:trigger p in r} :: p in r <==> p in periods && p.start !in done
    ensures |r| <= |periods|
  {
    if periods == [] then []
    else if periods[0].start in done then Absent(periods[1..], done)
    else [periods[0]] + Absent(periods[1..], done)
  }

  ghost predicate WorkOk(w: Work) {
    IsGrid(w.grid)
  }

  ghost function Missing(w: Work, table: seq<Occurrence>, upTo: int): seq<Span>
    requires WorkOk(w)
  {
    Absent(Newest(w.grid, w.from, upTo), Existing(table, w.assignment))
  }

  /** What one call queues for an assignment: the newest missing periods, 400 at most. */
  ghost function Queued(w: Work, table: seq<Occurrence>, upTo: int): seq<Span>
    requires WorkOk(w)
  {
    var missing := Missing(w, table, upTo);
    missing[..AtMost(|missing|, MAX_PERIODS_PER_CALL)]
  }

  function Rows(assignment: nat, periods: seq<Span>): (r: seq<Occurrence>)
    ensures |r| == |periods|
    ensures forall k :: 0 <= k < |r| ==> r[k] == Row(assignment, periods[k])
  {
    seq(|periods|, k requires 0 <= k < |periods| => Row(assignment, periods[k]))
  }

  ghost predicate WorksOk(works: seq<Work>) {
    && (forall i :: 0 <= i < |works| ==> WorkOk(works[i]))
    && (forall i, j :: 0 <= i < j < |works| ==> works[i].assignment != works[j].assignment)
  }

  /** The periods queued for each assignment. */
  ghost function Queues(works: seq<Work>, table: seq<Occurrence>, upTo: int): (r: seq<seq<Span>>)
    requires WorksOk(works)
    ensures |r| == |works|
    ensures forall i :: 0 <= i < |r| ==> r[i] == Queued(works[i], table, upTo)
  {
    seq(|works|, i requires 0 <= i < |works| && WorkOk(works[i]) => Queued(works[i], table, upTo))
  }

  /** The rows of the first n assignments, one assignment after the other. */
  function RowsOf(works: seq<Work>, queues: seq<seq<Span>>, n: nat): seq<Occurrence>
    requires n <= |works| == |queues|
  {
    if n == 0 then [] else RowsOf(works, queues, n - 1) + Rows(works[n - 1].assignment, queues[n - 1])
  }

  ghost function QueuedRows(works: seq<Work>, table: seq<Occurrence>, upTo: int): seq<Occurrence>
    requires WorksOk(works)
  {
    RowsOf(works, Queues(works, table, upTo), |works|)
  }

  /** How many of the first n assignments have periods left for a later call. */
  ghost function Capped(works: seq<Work>, table: seq<Occurrence>, upTo: int, n: nat): nat
    requires WorksOk(works) && n <= |works|
  {
    if n == 0 then 0
    else
      Capped(works, table, upTo, n - 1)
      + if |Missing(works[n - 1], table, upTo)| > MAX_PERIODS_PER_CALL then 1 else 0
  }

  // ----- inserting, ignoring conflicts -----

  predicate HasKey(table: seq<Occurrence>, assignment: nat, start: int) {
    exists k :: 0 <= k < |table| && table[k].assignment == assignment && table[k].start == start
  }

  /** on_conflict_do_nothing on uq_kra_occurrence_period, row after row. */
  function Inserted(table: seq<Occurrence>, rows: seq<Occurrence>): (r: seq<Occurrence>)
    ensures |table| <= |r| <= |table| + |rows|
  {
    if rows == [] then table
    else
      var last := rows[|rows| - 1];
      var before := Inserted(table, rows[..|rows| - 1]);
      if HasKey(before, last.assignment, last.start) then before else before + [last]
  }

  predicate SameKey(a: Occurrence, b: Occurrence) {
    a.assignment == b.assignment && a.start == b.start
  }

  ghost predicate Unique(table: seq<Occurrence>) {
    forall i, j {:trigger SameKey(table[i], table[j])} :: 0 <= i < j < |table| ==> !SameKey(table[i], table[j])
  }

  /** One uninterrupted ensure_occurrences. */
  ghost function Ensured(works: seq<Work>, table: seq<Occurrence>, upTo: int): seq<Occurrence>
    requires WorksOk(works)
  {
    Inserted(table, QueuedRows(works, table, upTo))
  }

  lemma {:induction false} InsertedAppend(table: seq<Occurrence>, a: seq<Occurrence>, b: seq<Occurrence>)
    ensures Inserted(Inserted(table, a), b) == Inserted(table, a + b)
  {
    if b == [] {
      assert a + b == a;
    } else {
      InsertedAppend(table, a, b[..|b| - 1]);
      assert (a + b)[..|a + b| - 1] == a + b[..|b| - 1];
    }
  }

  /** Inserting keeps the key unique, adds exactly the missing keys, and the count is the growth. */
  lemma {:induction false} InsertedIsUnion(table: seq<Occurrence>, rows: seq<Occurrence>)
    requires Unique(table)
    ensures Unique(Inserted(table, rows)) && Inserted(table, rows)[..|table|] == table
    ensures forall a: nat, start ::
              HasKey(Inserted(table, rows), a, start) <==> HasKey(table, a, start) || HasKey(rows, a, start)
    ensures forall k :: |table| <= k < |Inserted(table, rows)| ==> Inserted(table, rows)[k] in rows
  {
    if rows != [] {
      var n := |rows| - 1;
      InsertedIsUnion(table, rows[..n]);
      var before, after := Inserted(table, rows[..n]), Inserted(table, rows);
      forall a: nat, start
        ensures HasKey(after, a, start) <==> HasKey(table, a, start) || HasKey(rows, a, start)
      {
        KeyOfPrefix(rows, n, a, start);
        if after != before {
          assert after[..|before|] == before;
          KeyOfPrefix(after, |before|, a, start);
        }
      }
    }
  }

  lemma {:induction false} KeyOfPrefix(rows: seq<Occurrence>, n: nat, a: nat, start: int)
    requires |rows| == n + 1
    ensures HasKey(rows, a, start) <==>
            HasKey(rows[..n], a, start) || (rows[n].assignment == a && rows[n].start == start)
  {
    if HasKey(rows[..n], a, start) {
      var k :| 0 <= k < n && rows[..n][k].assignment == a && rows[..n][k].start == start;
      assert rows[k].assignment == a;
    }
    if HasKey(rows, a, start) {
      var k :| 0 <= k < |rows| && rows[k].assignment == a && rows[k].start == start;
      if k < n {
        assert rows[..n][k] == rows[k];
      }
    }
  }

  // ----- one call -----

  /** Rows with new, distinct keys are all inserted. */
  lemma {:induction false} FreshRowsInserted(table: seq<Occurrence>, rows: seq<Occurrence>)
    requires Unique(rows) && forall k :: 0 <= k < |rows| ==> !HasKey(table, rows[k].assignment, rows[k].start)
    ensures Inserted(table, rows) == table + rows
  {
    if rows != [] {
      var n := |rows| - 1;
      FreshRowsInserted(table, rows[..n]);
      var last := rows[n];
      forall k | 0 <= k < |table| + n
        ensures var other := (table + rows[..n])[k]; other.assignment != last.assignment || other.start != last.start
      {
        assert k < |table| ==> (table + rows[..n])[k] == table[k];
        assert k >= |table| ==> (table + rows[..n])[k] == rows[k - |table|] && !SameKey(rows[k - |table|], rows[n]);
      }
      assert table + rows == (table + rows[..n]) + [last];
    }
  }

  /** Newest first: each period starts before the one listed ahead of it. */
  predicate StartsFall(periods: seq<Span>) {
    forall i, j :: 0 <= i < j < |periods| ==> periods[i].start > periods[j].start
  }

  lemma {:induction false} DescendsFalls(g: int -> Span, periods: seq<Span>)
    requires IsGrid(g) && Descends(g, periods)
    ensures StartsFall(periods)
  {
    if |periods| > 1 {
      var n := |periods| - 1;
      DescendsFalls(g, periods[..n]);
      forall i | 0 <= i < n ensures periods[i].start > periods[n].start {
        assert Tiles(g, periods[n].start, periods[n].start);
        assert periods[n].end == periods[n - 1].start - 1;
        assert i < n - 1 ==> periods[..n][i].start > periods[..n][n - 1].start;
      }
      forall i, j | 0 <= i < j < |periods| ensures periods[i].start > periods[j].start {
        if j < n {
          assert periods[..n][i].start > periods[..n][j].start;
        }
      }
    }
  }

  lemma {:induction false} AbsentFalls(periods: seq<Span>, done: set<int>)
    requires StartsFall(periods)
    ensures StartsFall(Absent(periods, done))
  {
    if periods != [] {
      AbsentFalls(periods[1..], done);
      var rest := Absent(periods[1..], done);
      forall j | 0 <= j < |rest| ensures rest[j].start < periods[0].start {
        assert rest[j] in rest;
      }
    }
  }

  lemma {:induction false} MissingFalls(w: Work, table: seq<Occurrence>, upTo: int)
    requires WorkOk(w)
    ensures StartsFall(Missing(w, table, upTo))
  {
    NewestIsExact(w.grid, w.from, upTo, upTo);
    DescendsFalls(w.grid, Newest(w.grid, w.from, upTo));
    AbsentFalls(Newest(w.grid, w.from, upTo), Existing(table, w.assignment));
  }

  /** Queued rows belong to the listed assignments and have distinct keys that the table lacks. */
  ghost predicate Fresh(works: seq<Work>, table: seq<Occurrence>, rows: seq<Occurrence>, n: nat)
    requires n <= |works|
  {
    && Unique(rows)
    && forall k :: 0 <= k < |rows| ==>
         && !HasKey(table, rows[k].assignment, rows[k].start)
         && exists i :: 0 <= i < n && works[i].assignment == rows[k].assignment
  }

  /** Periods that an assignment may be given: all new, newest first. */
  ghost predicate QueueOk(table: seq<Occurrence>, assignment: nat, queue: seq<Span>) {
    StartsFall(queue) && forall k :: 0 <= k < |queue| ==> !HasKey(table, assignment, queue[k].start)
  }

  lemma {:induction false} QueuedIsOk(w: Work, table: seq<Occurrence>, upTo: int)
    requires WorkOk(w)
    ensures QueueOk(table, w.assignment, Queued(w, table, upTo))
  {
    MissingFalls(w, table, upTo);
    var missing := Missing(w, table, upTo);
    forall k | 0 <= k < |missing| ensures !HasKey(table, w.assignment, missing[k].start) {
      assert missing[k] in missing;
      ExistingIsKey(table, w.assignment, missing[k].start);
    }
  }

  lemma {:induction false} QueueIsFresh(works: seq<Work>, table: seq<Occurrence>, queues: seq<seq<Span>>, n: nat)
    requires WorksOk(works) && n <= |works| == |queues|
    requires forall i :: 0 <= i < |works| ==> QueueOk(table, works[i].assignment, queues[i])
    ensures Fresh(works, table, RowsOf(works, queues, n), n)
  {
    if n > 0 {
      QueueIsFresh(works, table, queues, n - 1);
      FreshAppend(works, table, RowsOf(works, queues, n - 1), queues[n - 1], n);
    }
  }

  lemma {:induction false} FreshAppend(works: seq<Work>, table: seq<Occurrence>, before: seq<Occurrence>,
          queue: seq<Span>, n: nat)
    requires WorksOk(works) && 0 < n <= |works| && Fresh(works, table, before, n - 1)
    requires QueueOk(table, works[n - 1].assignment, queue)
    ensures Fresh(works, table, before + Rows(works[n - 1].assignment, queue), n)
  {
  }

  lemma {:induction false} ExistingIsKey(table: seq<Occurrence>, assignment: nat, start: int)
    ensures start in Existing(table, assignment) <==> HasKey(table, assignment, start)
  {
  }

  /** One call only appends: exactly the queued rows, min(400, missing) for each assignment. */
  lemma {:induction false} EnsuredAppends(works: seq<Work>, table: seq<Occurrence>, upTo: int)
    requires WorksOk(works)
    ensures Ensured(works, table, upTo) == table + QueuedRows(works, table, upTo)
  {
    forall i | 0 <= i < |works| ensures QueueOk(table, works[i].assignment, Queues(works, table, upTo)[i]) {
      QueuedIsOk(works[i], table, upTo);
    }
    QueueIsFresh(works, table, Queues(works, table, upTo), |works|);
    FreshRowsInserted(table, QueuedRows(works, table, upTo));
  }

  // ----- what is missing afterwards -----

  function StartsOf(periods: seq<Span>): set<int> {
    set k | 0 <= k < |periods| :: periods[k].start
  }

  lemma {:induction false} ExistingAfter(table: seq<Occurrence>, rows: seq<Occurrence>, assignment: nat)
    ensures Existing(table + rows, assignment) == Existing(table, assignment) + Existing(rows, assignment)
  {
    forall x
      ensures x in Existing(table + rows, assignment) <==> x in Existing(table, assignment) + Existing(rows, assignment)
    {
      if x in Existing(rows, assignment) {
        var k :| 0 <= k < |rows| && rows[k].assignment == assignment && rows[k].start == x;
        assert (table + rows)[|table| + k] == rows[k];
      }
      if x in Existing(table, assignment) {
        var k :| 0 <= k < |table| && table[k].assignment == assignment && table[k].start == x;
        assert (table + rows)[k] == table[k];
      }
    }
  }

  lemma {:induction false} ExistingOfRows(a: nat, periods: seq<Span>, assignment: nat)
    ensures Existing(Rows(a, periods), assignment) == if a == assignment then StartsOf(periods) else {}
  {
    var rows := Rows(a, periods);
    assert forall k :: 0 <= k < |rows| ==> rows[k].start == periods[k].start;
  }

  lemma {:induction false} ExistingOfQueue(works: seq<Work>, queues: seq<seq<Span>>, n: nat, i: nat)
    requires WorksOk(works) && n <= |works| == |queues| && i < |works|
    ensures Existing(RowsOf(works, queues, n), works[i].assignment) == if i < n then StartsOf(queues[i]) else {}
  {
    if n > 0 {
      ExistingOfQueue(works, queues, n - 1, i);
      ExistingAfter(RowsOf(works, queues, n - 1), Rows(works[n - 1].assignment, queues[n - 1]), works[i].assignment);
      ExistingOfRows(works[n - 1].assignment, queues[n - 1], works[i].assignment);
    }
  }

  lemma {:induction false} ExistingOfOthers(works: seq<Work>, queues: seq<seq<Span>>, n: nat, assignment: nat)
    requires n <= |works| == |queues| && forall i :: 0 <= i < |works| ==> works[i].assignment != assignment
    ensures Existing(RowsOf(works, queues, n), assignment) == {}
  {
    if n > 0 {
      ExistingOfOthers(works, queues, n - 1, assignment);
      ExistingAfter(RowsOf(works, queues, n - 1), Rows(works[n - 1].assignment, queues[n - 1]), assignment);
      ExistingOfRows(works[n - 1].assignment, queues[n - 1], assignment);
    }
  }

  lemma {:induction false} UnlistedExisting(works: seq<Work>, table: seq<Occurrence>, upTo: int, assignment: nat)
    requires WorksOk(works) && forall i :: 0 <= i < |works| ==> works[i].assignment != assignment
    ensures Existing(Ensured(works, table, upTo), assignment) == Existing(table, assignment)
  {
    EnsuredAppends(works, table, upTo);
    ExistingAfter(table, QueuedRows(works, table, upTo), assignment);
    ExistingOfOthers(works, Queues(works, table, upTo), |works|, assignment);
  }

  lemma {:induction false} SameExistingSameMissing(w: Work, table: seq<Occurrence>, other: seq<Occurrence>, upTo: int)
    requires WorkOk(w) && Existing(table, w.assignment) == Existing(other, w.assignment)
    ensures Missing(w, table, upTo) == Missing(w, other, upTo)
  {
  }

  /** A call changes nothing about what an assignment misses that it does not work on. */
  lemma {:induction false} UnlistedStays(works: seq<Work>, table: seq<Occurrence>, upTo: int, w: Work)
    requires WorksOk(works) && WorkOk(w) && forall i :: 0 <= i < |works| ==> works[i].assignment != w.assignment
    ensures Missing(w, Ensured(works, table, upTo), upTo) == Missing(w, table, upTo)
  {
    UnlistedExisting(works, table, upTo, w.assignment);
    SameExistingSameMissing(w, Ensured(works, table, upTo), table, upTo);
  }

  /** A start that no listed period has makes no difference. */
  lemma {:induction false} AbsentIgnores(periods: seq<Span>, done: set<int>, extra: int)
    requires forall k :: 0 <= k < |periods| ==> periods[k].start != extra
    ensures Absent(periods, done + {extra}) == Absent(periods, done)
  {
    if periods != [] {
      AbsentIgnores(periods[1..], done, extra);
    }
  }

  /** Once the first n missing periods exist, exactly the later ones are missing. */
  lemma {:induction false} AbsentDrops(periods: seq<Span>, done: set<int>, n: nat)
    requires StartsFall(periods) && n <= |Absent(periods, done)|
    ensures Absent(periods, done + StartsOf(Absent(periods, done)[..n])) == Absent(periods, done)[n..]
  {
    var absent := Absent(periods, done);
    if n == 0 {
      assert done + StartsOf(absent[..0]) == done;
    } else {
      var p, rest := periods[0], periods[1..];
      if p.start in done {
        AbsentDrops(rest, done, n);
      } else {
        AbsentDrops(rest, done, n - 1);
        var later := Absent(rest, done);
        assert absent[..n] == [p] + later[..n - 1];
        StartsOfCons(p, later[..n - 1]);
        var more := done + StartsOf(later[..n - 1]);
        assert done + StartsOf(absent[..n]) == more + {p.start};
        AbsentIgnores(rest, more, p.start);
      }
    }
  }

  lemma {:induction false} StartsOfCons(p: Span, rest: seq<Span>)
    ensures StartsOf([p] + rest) == {p.start} + StartsOf(rest)
  {
    forall x | x in StartsOf(rest) ensures x in StartsOf([p] + rest) {
      var k :| 0 <= k < |rest| && rest[k].start == x;
      assert ([p] + rest)[k + 1] == rest[k];
    }
    assert ([p] + rest)[0] == p;
  }

  /** After one call exactly the older missing periods are left: the first 400 of each assignment are gone. */
  lemma {:induction false} EnsuredLeaves(works: seq<Work>, table: seq<Occurrence>, upTo: int, i: nat)
    requires WorksOk(works) && i < |works|
    ensures var missing := Missing(works[i], table, upTo);
            Missing(works[i], Ensured(works, table, upTo), upTo) == Left(missing, MAX_PERIODS_PER_CALL)
  {
    var w := works[i];
    EnsuredAppends(works, table, upTo);
    ExistingAfter(table, QueuedRows(works, table, upTo), w.assignment);
    ExistingOfQueue(works, Queues(works, table, upTo), |works|, i);
    NewestIsExact(w.grid, w.from, upTo, upTo);
    DescendsFalls(w.grid, Newest(w.grid, w.from, upTo));
    var missing := Missing(w, table, upTo);
    AbsentDrops(Newest(w.grid, w.from, upTo), Existing(table, w.assignment), AtMost(|missing|, MAX_PERIODS_PER_CALL));
    LeftIsDrop(missing, MAX_PERIODS_PER_CALL);
  }

  /** What is left of the missing periods after the first n of them. */
  function Left(missing: seq<Span>, n: nat): seq<Span> {
    if n == 0 || missing == [] then missing else Left(missing[1..], n - 1)
  }

  lemma {:induction false} LeftIsDrop(missing: seq<Span>, n: nat)
    ensures Left(missing, n) == missing[AtMost(|missing|, n)..]
  {
    if n != 0 && missing != [] {
      LeftIsDrop(missing[1..], n - 1);
    }
  }

  lemma {:induction false} LeftTwice(missing: seq<Span>, a: nat, b: nat)
    ensures Left(Left(missing, a), b) == Left(missing, a + b)
  {
    if a != 0 && missing != [] {
      LeftTwice(missing[1..], a - 1, b);
    }
  }

  ghost predicate Calls(works: seq<Work>, tables: seq<seq<Occurrence>>, upTo: int, k: nat)
    requires WorksOk(works)
  {
    k + 1 < |tables| && tables[k + 1] == Ensured(works, tables[k], upTo)
  }

  /** The tables of k calls in a row: each call turns one table into the next. */
  ghost predicate CallRun(works: seq<Work>, tables: seq<seq<Occurrence>>, upTo: int)
    requires WorksOk(works)
  {
    |tables| > 0 && forall k :: 0 <= k < |tables| - 1 ==> Calls(works, tables, upTo, k)
  }

  /** How many periods of one assignment k calls create at most. */
  function Capacity(k: nat): nat {
    if k == 0 then 0 else Capacity(k - 1) + MAX_PERIODS_PER_CALL
  }

  lemma {:induction false} CapacityIsProduct(k: nat)
    ensures Capacity(k) == MAX_PERIODS_PER_CALL * k
  {
    if k > 0 {
      CapacityIsProduct(k - 1);
    }
  }

  predicate OneCallLeaves(lists: seq<seq<Span>>, j: nat) {
    j + 1 < |lists| && lists[j + 1] == Left(lists[j], MAX_PERIODS_PER_CALL)
  }

  lemma {:induction false} LeftRepeatedly(lists: seq<seq<Span>>, k: nat)
    requires k < |lists| && forall j :: 0 <= j < |lists| - 1 ==> OneCallLeaves(lists, j)
    ensures lists[k] == Left(lists[0], Capacity(k))
  {
    if k > 0 {
      LeftRepeatedly(lists, k - 1);
      assert OneCallLeaves(lists, k - 1);
      LeftTwice(lists[0], Capacity(k - 1), MAX_PERIODS_PER_CALL);
    }
  }

  /** k calls fill 400k missing periods of every assignment, newest first. */
  lemma {:induction false} CallsFill(works: seq<Work>, tables: seq<seq<Occurrence>>, upTo: int, k: nat, i: nat)
    requires WorksOk(works) && CallRun(works, tables, upTo) && i < |works| && k < |tables|
    ensures Missing(works[i], tables[k], upTo) == Left(Missing(works[i], tables[0], upTo), Capacity(k))
  {
    var lists := seq(|tables|, j requires 0 <= j < |tables| => Missing(works[i], tables[j], upTo));
    forall j | 0 <= j < |lists| - 1 ensures OneCallLeaves(lists, j) {
      assert Calls(works, tables, upTo, j);
      EnsuredLeaves(works, tables[j], upTo, i);
    }
    LeftRepeatedly(lists, k);
  }

  /** ceil(m / 400) */
  function CallsFor(m: nat): nat {
    (m + MAX_PERIODS_PER_CALL - 1) / MAX_PERIODS_PER_CALL
  }

  lemma {:induction false} CeilingDivision(m: nat, k: nat)
    ensures m <= MAX_PERIODS_PER_CALL * k <==> CallsFor(m) <= k
  {
  }

  /** m missing periods are filled after exactly ceil(m / 400) calls, and the next call adds nothing. */
  lemma {:induction false} CallsNeeded(works: seq<Work>, tables: seq<seq<Occurrence>>, upTo: int, k: nat, i: nat)
    requires WorksOk(works) && CallRun(works, tables, upTo) && i < |works| && k < |tables|
    ensures var m := |Missing(works[i], tables[0], upTo)|;
            && (Missing(works[i], tables[k], upTo) == [] <==> CallsFor(m) <= k)
            && (Queued(works[i], tables[k], upTo) == [] <==> CallsFor(m) <= k)
  {
    CallsFill(works, tables, upTo, k, i);
    CapacityIsProduct(k);
    CeilingDivision(|Missing(works[i], tables[0], upTo)|, k);
    EmptyLeft(Missing(works[i], tables[0], upTo), Capacity(k));
  }

  lemma {:induction false} EmptyLeft(missing: seq<Span>, n: nat)
    ensures Left(missing, n) == [] <==> |missing| <= n
  {
    LeftIsDrop(missing, n);
  }

  /** Nothing missing means every period that meets the range has its row. */
  lemma {:induction false} NothingMissing(w: Work, table: seq<Occurrence>, upTo: int, d: int)
    requires WorkOk(w) && Missing(w, table, upTo) == []
    requires w.from <= upTo && w.from <= w.grid(d).end && w.grid(d).start <= upTo
    ensures HasKey(table, w.assignment, w.grid(d).start)
  {
    NewestIsExact(w.grid, w.from, upTo, d);
    assert w.grid(d) !in Missing(w, table, upTo);
    ExistingIsKey(table, w.assignment, w.grid(d).start);
  }

  /** An assignment is reported as capped exactly if the call leaves periods of it for later. */
  lemma {:induction false} CappedAreIncomplete(works: seq<Work>, table: seq<Occurrence>, upTo: int, i: nat)
    requires WorksOk(works) && i < |works|
    ensures |Missing(works[i], table, upTo)| > MAX_PERIODS_PER_CALL <==>
            Missing(works[i], Ensured(works, table, upTo), upTo) != []
  {
    EnsuredLeaves(works, table, upTo, i);
    EmptyLeft(Missing(works[i], table, upTo), MAX_PERIODS_PER_CALL);
  }

  // ----- calls that overlap -----

  /** A call reads its snapshot and queues rows; later it inserts them, a batch at a time. */
  datatype Move = Reads(call: nat, works: seq<Work>, upTo: int) | Inserts(call: nat)

  /** The table, what each call has still to insert, and the sum of the counts the calls report. */
  datatype World = World(table: seq<Occurrence>, queued: map<nat, seq<Occurrence>>, created: nat)

  function Batch(rows: seq<Occurrence>): seq<Occurrence> {
    rows[..AtMost(|rows|, INSERT_BATCH)]
  }

  function ToInsert(w: World, call: nat): seq<Occurrence> {
    if call in w.queued then w.queued[call] else []
  }

  ghost function Moved(w: World, m: Move): World
    requires m.Reads? ==> WorksOk(m.works)
  {
    match m
    case Reads(call, works, upTo) => w.(queued := w.queued[call := QueuedRows(works, w.table, upTo)])
    case Inserts(call) =>
      var rows := ToInsert(w, call);
      var table := Inserted(w.table, Batch(rows));
      World(table, w.queued[call := rows[|Batch(rows)|..]], w.created + |table| - |w.table|)
  }

  ghost predicate MovesOk(run: seq<Move>) {
    forall i :: 0 <= i < |run| && run[i].Reads? ==> WorksOk(run[i].works)
  }

  ghost function AfterMoves(w: World, run: seq<Move>): World
    requires MovesOk(run)
  {
    if run == [] then w else Moved(AfterMoves(w, run[..|run| - 1]), run[|run| - 1])
  }

  /** Every row that some call offered to the table. */
  ghost function Offered(w: World, run: seq<Move>): seq<Occurrence>
    requires MovesOk(run)
  {
    if run == [] then []
    else
      var before, m := run[..|run| - 1], run[|run| - 1];
      if m.Reads? then Offered(w, before) else Offered(w, before) + Batch(ToInsert(AfterMoves(w, before), m.call))
  }

  /** However calls interleave, the table ends as if all the offered rows had been inserted by one of them. */
  lemma {:induction false} OfferedAsOne(w: World, run: seq<Move>)
    requires MovesOk(run)
    ensures AfterMoves(w, run).table == Inserted(w.table, Offered(w, run))
    ensures |AfterMoves(w, run).table| - |w.table| == AfterMoves(w, run).created - w.created
  {
    if run != [] {
      var before, m := run[..|run| - 1], run[|run| - 1];
      OfferedAsOne(w, before);
      if m.Inserts? {
        InsertedAppend(w.table, Offered(w, before), Batch(ToInsert(AfterMoves(w, before), m.call)));
      }
    }
  }

  /** Stale snapshots do no harm: no key twice, no old row changed, and the created counts add up to the growth. */
  lemma {:induction false} InterleavingIsSafe(w: World, run: seq<Move>)
    requires MovesOk(run) && Unique(w.table)
    ensures var after := AfterMoves(w, run);
            && Unique(after.table)
            && |after.table| - |w.table| == after.created - w.created
            && |w.table| <= |after.table| && after.table[..|w.table|] == w.table
    ensures forall a: nat, start ::
              HasKey(AfterMoves(w, run).table, a, start) <==>
              HasKey(w.table, a, start) || HasKey(Offered(w, run), a, start)
  {
    OfferedAsOne(w, run);
    InsertedIsUnion(w.table, Offered(w, run));
  }

  ghost predicate NeverRereads(run: seq<Move>, call: nat) {
    forall i :: 0 <= i < |run| && run[i].Reads? ==> run[i].call != call
  }

  /** No queued row is lost: each is in the table or still to be inserted by its call. */
  lemma {:induction false} NothingLost(w: World, run: seq<Move>, call: nat, row: Occurrence)
    requires MovesOk(run) && Unique(w.table) && NeverRereads(run, call) && row in ToInsert(w, call)
    ensures HasKey(AfterMoves(w, run).table, row.assignment, row.start) || row in ToInsert(AfterMoves(w, run), call)
  {
    if run != [] {
      var before, m := run[..|run| - 1], run[|run| - 1];
      NothingLost(w, before, call, row);
      InterleavingIsSafe(w, before);
      var now := AfterMoves(w, before);
      if m.Inserts? {
        InsertedIsUnion(now.table, Batch(ToInsert(now, m.call)));
        if m.call == call && row in ToInsert(now, call) {
          SplitMember(ToInsert(now, call), row);
        }
      }
    }
  }

  lemma {:induction false} SplitMember(rows: seq<Occurrence>, row: Occurrence)
    requires row in rows
    ensures HasKey(Batch(rows), row.assignment, row.start) || row in rows[|Batch(rows)|..]
  {
    var k :| 0 <= k < |rows| && rows[k] == row;
    if k < |Batch(rows)| {
      assert Batch(rows)[k] == row;
    } else {
      assert rows[|Batch(rows)|..][k - |Batch(rows)|] == row;
    }
  }

  // ----- the union of what the calls queued -----

  /** The rows that move i, a read, queues from the table as it is at that moment. */
  ghost function QueuedAt(w: World, run: seq<Move>, i: nat): seq<Occurrence>
    requires MovesOk(run) && i < |run|
  {
    if run[i].Reads? then QueuedRows(run[i].works, AfterMoves(w, run[..i]).table, run[i].upTo) else []
  }

  /** Some call of the run queued a row with this key. */
  ghost predicate QueuedBySome(w: World, run: seq<Move>, a: nat, start: int)
    requires MovesOk(run)
  {
    exists i :: 0 <= i < |run| && HasKey(QueuedAt(w, run, i), a, start)
  }

  lemma {:induction false} QueuedAtPrefix(w: World, run: seq<Move>, n: nat, i: nat)
    requires MovesOk(run) && i < n <= |run|
    ensures MovesOk(run[..n]) && QueuedAt(w, run[..n], i) == QueuedAt(w, run, i)
  {
    assert run[..n][..i] == run[..i];
  }

  lemma {:induction false} QueuedEarlier(w: World, run: seq<Move>, n: nat, a: nat, start: int)
    requires MovesOk(run) && n <= |run| && MovesOk(run[..n]) && QueuedBySome(w, run[..n], a, start)
    ensures QueuedBySome(w, run, a, start)
  {
    var i :| 0 <= i < n && HasKey(QueuedAt(w, run[..n], i), a, start);
    QueuedAtPrefix(w, run, n, i);
  }

  lemma {:induction false} KeyOfSub(rows: seq<Occurrence>, sub: seq<Occurrence>, a: nat, start: int)
    requires HasKey(sub, a, start) && forall row :: row in sub ==> row in rows
    ensures HasKey(rows, a, start)
  {
    var k :| 0 <= k < |sub| && sub[k].assignment == a && sub[k].start == start;
    assert sub[k] in rows;
    var j :| 0 <= j < |rows| && rows[j] == sub[k];
  }

  /** What is offered, or waits to be, was queued by some call. */
  lemma {:induction false} OffersWereQueued(w: World, run: seq<Move>, call: nat, a: nat, start: int)
    requires MovesOk(run) && w.queued == map[]
    ensures HasKey(ToInsert(AfterMoves(w, run), call), a, start) ==> QueuedBySome(w, run, a, start)
    ensures HasKey(Offered(w, run), a, start) ==> QueuedBySome(w, run, a, start)
  {
    if run != [] {
      var before, m := run[..|run| - 1], run[|run| - 1];
      var was, now := AfterMoves(w, before), AfterMoves(w, run);
      OffersWereQueued(w, before, call, a, start);
      OffersWereQueued(w, before, m.call, a, start);
      if QueuedBySome(w, before, a, start) {
        QueuedEarlier(w, run, |run| - 1, a, start);
      }
      assert HasKey(QueuedAt(w, run, |run| - 1), a, start) ==> QueuedBySome(w, run, a, start);
      if m.Inserts? {
        var rows := ToInsert(was, m.call);
        if call == m.call && HasKey(ToInsert(now, call), a, start) {
          KeyOfSub(rows, rows[|Batch(rows)|..], a, start);
        }
        if HasKey(Offered(w, run), a, start) {
          KeyOfEither(Offered(w, before), Batch(rows), a, start);
          if HasKey(Batch(rows), a, start) {
            KeyOfSub(rows, Batch(rows), a, start);
          }
        }
      }
    }
  }

  lemma {:induction false} KeyOfEither(x: seq<Occurrence>, y: seq<Occurrence>, a: nat, start: int)
    requires HasKey(x + y, a, start)
    ensures HasKey(x, a, start) || HasKey(y, a, start)
  {
    var k :| 0 <= k < |x + y| && (x + y)[k].assignment == a && (x + y)[k].start == start;
    assert k < |x| ==> x[k] == (x + y)[k];
    assert k >= |x| ==> y[k - |x|] == (x + y)[k];
  }

  lemma {:induction false} AfterOneMore(w: World, run: seq<Move>, m: Move, all: seq<Move>)
    requires MovesOk(run) && MovesOk(all) && all == run + [m]
    ensures (m.Reads? ==> WorksOk(m.works)) && AfterMoves(w, all) == Moved(AfterMoves(w, run), m)
  {
    assert all[|all| - 1] == m;
    assert all[..|all| - 1] == run;
  }

  lemma {:induction false} MovesSplit(w: World, a: seq<Move>, b: seq<Move>, all: seq<Move>)
    requires MovesOk(all) && MovesOk(a) && MovesOk(b) && all == a + b
    ensures AfterMoves(w, all) == AfterMoves(AfterMoves(w, a), b)
    decreases |b|
  {
    if b == [] {
      assert all == a;
    } else {
      var n := |b| - 1;
      var shorter := a + b[..n];
      assert all == shorter + [b[n]] && b == b[..n] + [b[n]];
      MovesSplit(w, a, b[..n], shorter);
      AfterOneMore(w, shorter, b[n], all);
      AfterOneMore(AfterMoves(w, a), b[..n], b[n], b);
    }
  }

  /** Each call reads its snapshot once. */
  ghost predicate ReadsOnce(run: seq<Move>) {
    forall i, j :: 0 <= i < j < |run| && run[i].Reads? && run[j].Reads? ==> run[i].call != run[j].call
  }

  /** Every call has inserted all that it queued. */
  ghost predicate Drained(w: World) {
    forall call: nat :: ToInsert(w, call) == []
  }

  /** A call that reads only once, as move i, has all its rows to insert right after. */
  lemma {:induction false} QueuedThenWaits(w: World, run: seq<Move>, i: nat)
    requires MovesOk(run) && ReadsOnce(run) && i < |run| && run[i].Reads?
    ensures MovesOk(run[..i + 1]) && MovesOk(run[i + 1..]) && NeverRereads(run[i + 1..], run[i].call)
    ensures ToInsert(AfterMoves(w, run[..i + 1]), run[i].call) == QueuedAt(w, run, i)
  {
    assert run[..i + 1][..i] == run[..i];
  }

  lemma {:induction false} RowWithKey(rows: seq<Occurrence>, a: nat, start: int) returns (row: Occurrence)
    requires HasKey(rows, a, start)
    ensures row in rows && row.assignment == a && row.start == start
  {
    var k :| 0 <= k < |rows| && rows[k].assignment == a && rows[k].start == start;
    row := rows[k];
  }

  lemma {:induction false} ArrivesWhenDrained(w: World, first: seq<Move>, rest: seq<Move>, run: seq<Move>, call: nat,
                                              a: nat, start: int)
    requires MovesOk(run) && MovesOk(first) && MovesOk(rest) && run == first + rest
    requires Unique(w.table) && NeverRereads(rest, call) && HasKey(ToInsert(AfterMoves(w, first), call), a, start)
    requires Drained(AfterMoves(w, run))
    ensures HasKey(AfterMoves(w, run).table, a, start)
  {
    MovesSplit(w, first, rest, run);
    InterleavingIsSafe(w, first);
    var row := RowWithKey(ToInsert(AfterMoves(w, first), call), a, start);
    NothingLost(AfterMoves(w, first), rest, call, row);
    assert ToInsert(AfterMoves(w, run), call) == [];
  }

  /** A row queued by a call is in the table once that call is done. */
  lemma {:induction false} QueuedArrives(w: World, run: seq<Move>, i: nat, a: nat, start: int)
    requires MovesOk(run) && Unique(w.table) && ReadsOnce(run) && Drained(AfterMoves(w, run))
    requires i < |run| && HasKey(QueuedAt(w, run, i), a, start)
    ensures HasKey(AfterMoves(w, run).table, a, start)
  {
    if run[i].Reads? {
      QueuedThenWaits(w, run, i);
      assert run == run[..i + 1] + run[i + 1..];
      ArrivesWhenDrained(w, run[..i + 1], run[i + 1..], run, run[i].call, a, start);
    }
  }

  /** Overlapping calls that all finish leave the union of the table and what each queued from its own snapshot. */
  lemma {:induction false} InterleavingIsUnion(w: World, run: seq<Move>, a: nat, start: int)
    requires MovesOk(run) && Unique(w.table) && w.queued == map[]
    requires ReadsOnce(run) && Drained(AfterMoves(w, run))
    ensures HasKey(AfterMoves(w, run).table, a, start) <==>
            HasKey(w.table, a, start) || QueuedBySome(w, run, a, start)
  {
    InterleavingIsSafe(w, run);
    OffersWereQueued(w, run, 0, a, start);
    if QueuedBySome(w, run, a, start) {
      var i :| 0 <= i < |run| && HasKey(QueuedAt(w, run, i), a, start);
      QueuedArrives(w, run, i, a, start);
    }
  }
}
