/**
 Generation calls that overlap with every other operation on assigned tasks. A
 call reads the tables and queues rows; other operations run before it inserts
 them. end_assignment and update_definition can also be taken apart into a
 generation call and their own last write.
 */
module KraOverlaps {
  import opened Periods
  import opened Backfill
  import opened KraTasks
  import opened KraRuns

  /** The tables, and what each generation call has still to insert. */
  datatype Shared = Shared(tables: Tables, queued: map<nat, seq<Occurrence>>)

  datatype Act =
    | Does(operation: Dated)
    | Queries(call: nat, live: set<nat>, scope: Scope, upTo: int)
    | Stores(call: nat)
    | Closes(id: nat)
    | SwitchesOff(id: nat)

  function Waiting(s: Shared, call: nat): seq<Occurrence> {
    if call in s.queued then s.queued[call] else []
  }

  /** A row fits if it would be a valid occurrence of its assignment. */
  ghost predicate Fit(t: Tables, rows: seq<Occurrence>)
    requires RefsOk(t)
  {
    forall k {:trigger OccurrenceOk(t, rows[k])} :: 0 <= k < |rows| ==> OccurrenceOk(t, rows[k])
  }

  ghost predicate SharedOk(s: Shared) {
    TablesOk(s.tables) && forall call: nat :: Fit(s.tables, Waiting(s, call))
  }

  /** The rows a call queues from the tables as they are. */
  ghost function RowsFor(t: Tables, live: set<nat>, scope: Scope, upTo: int): seq<Occurrence>
    requires RefsOk(t)
  {
    WorksAreEligible(t, live, scope, |t.assignments|);
    QueuedRows(WorksOf(t, live, scope, |t.assignments|), t.occurrences, upTo)
  }

  /** One batch of a call. */
  function BatchInserted(t: Tables, rows: seq<Occurrence>): Tables {
    t.(occurrences := Inserted(t.occurrences, Batch(rows)))
  }

  /** The last write of end_assignment. */
  function Closed(t: Tables, id: nat): Tables {
    if id < |t.assignments| then t.(assignments := t.assignments[id := t.assignments[id].(active := false)]) else t
  }

  /** The last write of update_definition when it deactivates. */
  function SwitchedOff(t: Tables, id: nat): Tables {
    if id < |t.definitions| then t.(definitions := t.definitions[id := t.definitions[id].(active := false)]) else t
  }

  ghost function Acted(s: Shared, a: Act): Shared
    requires SharedOk(s)
  {
    match a
    case Does(operation) => s.(tables := Step(s.tables, operation).0)
    case Queries(call, live, scope, upTo) => s.(queued := s.queued[call := RowsFor(s.tables, live, scope, upTo)])
    case Stores(call) =>
      var rows := Waiting(s, call);
      Shared(BatchInserted(s.tables, rows), s.queued[call := rows[|Batch(rows)|..]])
    case Closes(id) => s.(tables := Closed(s.tables, id))
    case SwitchesOff(id) => s.(tables := SwitchedOff(s.tables, id))
  }

  // ----- what every act keeps -----

  /** Whatever happens to the tables, a row that fitted still fits: an assignment never changes its calendar. */
  lemma {:induction false} RowStillFits(t: Tables, u: Tables, row: Occurrence)
    requires RefsOk(t) && RefsOk(u) && Evolves(t, u) && OccurrenceOk(t, row)
    ensures OccurrenceOk(u, row)
  {
    var a := row.assignment;
    assert AssignmentEvolves(t.assignments[a], u.assignments[a]);
    assert WasAssigned(t, t.assignments[a].definition);
    assert FrequencyOf(u, a) == FrequencyOf(t, a);
  }

  lemma {:induction false} RowsStillFit(t: Tables, u: Tables, rows: seq<Occurrence>)
    requires RefsOk(t) && RefsOk(u) && Evolves(t, u) && Fit(t, rows)
    ensures Fit(u, rows)
  {
    forall k | 0 <= k < |rows| ensures OccurrenceOk(u, rows[k]) {
      assert OccurrenceOk(t, rows[k]);
      RowStillFits(t, u, rows[k]);
    }
  }

  lemma {:induction false} QueuedRowsFit(t: Tables, live: set<nat>, scope: Scope, upTo: int)
    requires TablesOk(t)
    ensures Fit(t, RowsFor(t, live, scope, upTo))
  {
    var works := WorksOf(t, live, scope, |t.assignments|);
    WorksAreEligible(t, live, scope, |t.assignments|);
    var rows := RowsFor(t, live, scope, upTo);
    forall k | 0 <= k < |rows| ensures OccurrenceOk(t, rows[k]) {
      QueuedRowsFromWork(works, t.occurrences, upTo, k);
      RowFits(t, live, scope, rows[k]);
    }
  }

  lemma {:induction false} InsertStep(t: Tables, rows: seq<Occurrence>)
    requires TablesOk(t) && Fit(t, rows)
    ensures StepOk(t, BatchInserted(t, rows))
  {
    var u := BatchInserted(t, rows);
    InsertedIsUnion(t.occurrences, Batch(rows));
    forall k | 0 <= k < |u.occurrences| ensures OccurrenceOk(u, u.occurrences[k]) {
      if k < |t.occurrences| {
        assert u.occurrences[..|t.occurrences|][k] == u.occurrences[k];
        assert OccurrenceOk(t, t.occurrences[k]);
      } else {
        assert u.occurrences[k] in Batch(rows);
        var j :| 0 <= j < |Batch(rows)| && Batch(rows)[j] == u.occurrences[k];
        assert OccurrenceOk(t, rows[j]);
      }
    }
    forall k | 0 <= k < |t.occurrences| ensures OccurrenceEvolves(t.occurrences[k], u.occurrences[k]) {
      assert u.occurrences[..|t.occurrences|][k] == u.occurrences[k];
    }
  }

  lemma {:induction false} ActMovesTables(s: Shared, a: Act)
    requires SharedOk(s)
    ensures StepOk(s.tables, Acted(s, a).tables)
  {
    match a {
      case Does(operation) => StepKeepsTables(s.tables, operation);
      case Queries(call, live, scope, upTo) => NothingMoves(s.tables);
      case Stores(call) => InsertStep(s.tables, Waiting(s, call));
      case Closes(id) =>
        if id < |s.tables.assignments| {
          CloseStep(s.tables, id);
        } else {
          NothingMoves(s.tables);
        }
      case SwitchesOff(id) =>
        if id < |s.tables.definitions| {
          EditStep(s.tables, id, s.tables.definitions[id].(active := false));
        } else {
          NothingMoves(s.tables);
        }
    }
  }

  lemma {:induction false} ActKeepsFit(s: Shared, a: Act, call: nat)
    requires SharedOk(s) && StepOk(s.tables, Acted(s, a).tables)
    ensures Fit(Acted(s, a).tables, Waiting(Acted(s, a), call))
  {
    assert Fit(s.tables, Waiting(s, call));
    RowsStillFit(s.tables, Acted(s, a).tables, Waiting(s, call));
    if a.Queries? && a.call == call {
      QueuedRowsFit(s.tables, a.live, a.scope, a.upTo);
    }
  }

  /** Every act keeps the invariant and the history, however stale the rows it inserts. */
  lemma {:induction false} ActKeepsShared(s: Shared, a: Act)
    requires SharedOk(s)
    ensures SharedOk(Acted(s, a)) && Evolves(s.tables, Acted(s, a).tables)
  {
    ActMovesTables(s, a);
    forall call: nat ensures Fit(Acted(s, a).tables, Waiting(Acted(s, a), call)) {
      ActKeepsFit(s, a, call);
    }
  }

  /** The state after a run of acts: the invariant holds and nothing was lost on the way. */
  ghost function AfterActs(s: Shared, run: seq<Act>): (after: Shared)
    requires SharedOk(s)
    ensures SharedOk(after) && Evolves(s.tables, after.tables)
  {
    if run == [] then
      NothingMoves(s.tables);
      s
    else
      var before := AfterActs(s, run[..|run| - 1]);
      var last := run[|run| - 1];
      ActKeepsShared(before, last);
      EvolvesOn(s.tables, before.tables, Acted(before, last).tables);
      Acted(before, last)
  }

  /** A run of one act is that act, and a run after a run is the run of both. */
  lemma {:induction false} ActsCompose(s: Shared, x: seq<Act>, y: seq<Act>, a: Act)
    requires SharedOk(s)
    ensures AfterActs(s, []) == s && AfterActs(s, [a]) == Acted(s, a)
    ensures AfterActs(s, x + y) == AfterActs(AfterActs(s, x), y)
  {
    assert [a][..0] == [];
    if y == [] {
      assert x + y == x;
    } else {
      ActsCompose(s, x, y[..|y| - 1], a);
      assert (x + y)[..|x + y| - 1] == x + y[..|y| - 1];
    }
  }

  /** So in every state that overlapping operations reach, two occurrences of one assignment share no day. */
  lemma {:induction false} OverlapsAreDisjoint(calendar: Frequency -> (int -> Span), run: seq<Act>, i: nat, j: nat,
          day: int)
    requires CalendarOk(calendar)
    requires var t := AfterActs(Shared(Empty(calendar), map[]), run).tables;
             && i < |t.occurrences| && j < |t.occurrences| && i != j
             && t.occurrences[i].assignment == t.occurrences[j].assignment
    ensures var t := AfterActs(Shared(Empty(calendar), map[]), run).tables;
            && OccurrenceOk(t, t.occurrences[i])
            && !(t.occurrences[i].start <= day <= t.occurrences[i].end
                 && t.occurrences[j].start <= day <= t.occurrences[j].end)
  {
    OccurrencesAreDisjoint(AfterActs(Shared(Empty(calendar), map[]), run).tables, i, j, day);
  }

  // ----- what a call has queued arrives -----

  ghost predicate NeverQueriesAgain(run: seq<Act>, call: nat) {
    forall i :: 0 <= i < |run| && run[i].Queries? ==> run[i].call != call
  }

  lemma {:induction false} KeyStays(t: Tables, u: Tables, a: nat, start: int)
    requires Evolves(t, u) && HasKey(t.occurrences, a, start)
    ensures HasKey(u.occurrences, a, start)
  {
    var k :| 0 <= k < |t.occurrences| && t.occurrences[k].assignment == a && t.occurrences[k].start == start;
    assert OccurrenceEvolves(t.occurrences[k], u.occurrences[k]);
  }

  /** A waiting row is inserted, or already there, or still waits. */
  ghost predicate Kept(s: Shared, call: nat, row: Occurrence) {
    HasKey(s.tables.occurrences, row.assignment, row.start) || row in Waiting(s, call)
  }

  lemma {:induction false} ActKeepsRow(s: Shared, a: Act, call: nat, row: Occurrence)
    requires SharedOk(s) && Kept(s, call, row) && (a.Queries? ==> a.call != call)
    ensures Kept(Acted(s, a), call, row)
  {
    ActKeepsShared(s, a);
    if HasKey(s.tables.occurrences, row.assignment, row.start) {
      KeyStays(s.tables, Acted(s, a).tables, row.assignment, row.start);
    } else if a.Stores? && a.call == call {
      SplitMember(Waiting(s, call), row);
      InsertedIsUnion(s.tables.occurrences, Batch(Waiting(s, call)));
    }
  }

  lemma {:induction false} RunKeepsRow(s: Shared, run: seq<Act>, call: nat, row: Occurrence)
    requires SharedOk(s) && Kept(s, call, row) && NeverQueriesAgain(run, call)
    ensures Kept(AfterActs(s, run), call, row)
  {
    if run != [] {
      RunKeepsRow(s, run[..|run| - 1], call, row);
      ActKeepsRow(AfterActs(s, run[..|run| - 1]), run[|run| - 1], call, row);
    }
  }

  lemma {:induction false} QueuedIsListed(t: Tables, live: set<nat>, scope: Scope, upTo: int, a: nat, p: Span)
    requires TablesOk(t) && a < |t.assignments| && Eligible(t, live, scope, a)
    requires p in Queued(WorkFor(t, a), t.occurrences, upTo)
    ensures Row(a, p) in RowsFor(t, live, scope, upTo)
  {
    var works := WorksOf(t, live, scope, |t.assignments|);
    WorksAreEligible(t, live, scope, |t.assignments|);
    var i := EligibleIsListed(t, live, scope, |t.assignments|, a);
    var queues := Queues(works, t.occurrences, upTo);
    assert p in queues[i];
    RowIsListed(works, queues, |works|, i, p);
  }

  lemma {:induction false} RowIsListed(works: seq<Work>, queues: seq<seq<Span>>, n: nat, i: nat, p: Span)
    requires i < n <= |works| == |queues| && p in queues[i]
    ensures Row(works[i].assignment, p) in RowsOf(works, queues, n)
  {
    if i == n - 1 {
      var k :| 0 <= k < |queues[i]| && queues[i][k] == p;
      assert Rows(works[i].assignment, queues[i])[k] == Row(works[i].assignment, p);
    } else {
      RowIsListed(works, queues, n - 1, i, p);
    }
  }

  /** A period of the later start date is one of the earlier. */
  lemma {:induction false} LaterStartListsLess(g: int -> Span, from: int, later: int, upTo: int, p: Span)
    requires IsGrid(g) && from <= later && p in Newest(g, later, upTo)
    ensures p in Newest(g, from, upTo)
  {
    var periods := Newest(g, later, upTo);
    NewestIsExact(g, later, upTo, p.start);
    var i :| 0 <= i < |periods| && periods[i] == p;
    assert g(p.start) == p;
    NewestIsExact(g, from, upTo, p.start);
  }

  /** A call has read the tables and queued its rows. */
  ghost function Queried(s: Shared, call: nat, live: set<nat>, scope: Scope, upTo: int): (after: Shared)
    requires SharedOk(s)
    ensures SharedOk(after) && after.tables == s.tables
    ensures Waiting(after, call) == RowsFor(s.tables, live, scope, upTo)
  {
    ActKeepsShared(s, Queries(call, live, scope, upTo));
    Acted(s, Queries(call, live, scope, upTo))
  }

  /** The state once a run has followed that. */
  ghost function AfterCall(s: Shared, call: nat, live: set<nat>, scope: Scope, upTo: int,
          run: seq<Act>): (after: Shared)
    requires SharedOk(s)
    ensures SharedOk(after) && Evolves(s.tables, after.tables)
  {
    AfterActs(Queried(s, call, live, scope, upTo), run)
  }

  /** Once a call has inserted all it queued, every period it queued or found has its row, whatever ran meanwhile. */
  lemma {:induction false} PeriodArrives(s: Shared, call: nat, live: set<nat>, scope: Scope, upTo: int, run: seq<Act>,
          a: nat, p: Span)
    requires SharedOk(s) && a < |s.tables.assignments| && Eligible(s.tables, live, scope, a)
    requires NeverQueriesAgain(run, call) && Waiting(AfterCall(s, call, live, scope, upTo, run), call) == []
    requires p in Queued(WorkFor(s.tables, a), s.tables.occurrences, upTo)
             || p.start in Existing(s.tables.occurrences, a)
    ensures HasKey(AfterCall(s, call, live, scope, upTo, run).tables.occurrences, a, p.start)
  {
    if p.start in Existing(s.tables.occurrences, a) {
      ExistingIsKey(s.tables.occurrences, a, p.start);
      KeyStays(s.tables, AfterCall(s, call, live, scope, upTo, run).tables, a, p.start);
    } else {
      QueuedIsListed(s.tables, live, scope, upTo, a, p);
      RunKeepsRow(Queried(s, call, live, scope, upTo), run, call, Row(a, p));
    }
  }

  lemma {:induction false} AllAreQueued(w: Work, table: seq<Occurrence>, upTo: int)
    requires WorkOk(w) && |Missing(w, table, upTo)| <= MAX_PERIODS_PER_CALL
    ensures Queued(w, table, upTo) == Missing(w, table, upTo)
  {
  }

  /**
   A call that finds at most 400 periods missing leaves none missing once it has
   inserted what it queued, whatever ran in between: other calls, assigning,
   ending, deactivating, reactivating, and the write that ends this assignment.
   The start date must not have moved back meanwhile.
   */
  lemma {:induction false} OverlapLeavesNoGap(s: Shared, call: nat, live: set<nat>, scope: Scope, upTo: int,
          run: seq<Act>, a: nat)
    requires SharedOk(s) && a < |s.tables.assignments| && Eligible(s.tables, live, scope, a)
    requires |Missing(WorkFor(s.tables, a), s.tables.occurrences, upTo)| <= MAX_PERIODS_PER_CALL
    requires NeverQueriesAgain(run, call)
    requires var after := AfterCall(s, call, live, scope, upTo, run);
             && Waiting(after, call) == []
             && s.tables.assignments[a].start <= after.tables.assignments[a].start
    ensures Complete(AfterCall(s, call, live, scope, upTo, run).tables, a, upTo)
  {
    var t, u := s.tables, AfterCall(s, call, live, scope, upTo, run).tables;
    SameGrid(t, u, a);
    var w := WorkFor(u, a);
    var missing := Missing(w, u.occurrences, upTo);
    if missing != [] {
      var p := missing[0];
      assert p in missing;
      LaterStartListsLess(w.grid, t.assignments[a].start, w.from, upTo, p);
      AllAreQueued(WorkFor(t, a), t.occurrences, upTo);
      PeriodArrives(s, call, live, scope, upTo, run, a, p);
      ExistingIsKey(u.occurrences, a, p.start);
      assert false;
    }
  }

  lemma {:induction false} SameGrid(t: Tables, u: Tables, a: nat)
    requires RefsOk(t) && RefsOk(u) && Evolves(t, u) && a < |t.assignments|
    ensures WorkFor(u, a).grid == WorkFor(t, a).grid
  {
    assert AssignmentEvolves(t.assignments[a], u.assignments[a]);
    assert WasAssigned(t, t.assignments[a].definition);
  }
}
