/**
 What the task operations do, said of the fields of definitions, assignments and
 occurrences alone.
 */
module KraOutcomes {
  import opened Wrappers
  import opened Periods
  import opened Backfill
  import opened KraTasks
  import opened KraRuns
  import opened KraOverlaps

  // ----- generation -----

  /** Active, its definition active and not deleted, its assignee active, and named by every filter that is set. */
  predicate IsDue(t: Tables, live: set<nat>, scope: Scope, a: nat)
    requires RefsOk(t) && a < |t.assignments|
  {
    match (t.assignments[a], t.definitions[t.assignments[a].definition])
    case (Assignment(definition, assignee, _, active), Definition(_, property, enabled, deleted)) =>
      && active && enabled && !deleted && assignee in live
      && (scope.assignee.Some? ==> scope.assignee.value == assignee)
      && (scope.property.Some? ==> scope.property.value == property)
      && (scope.definition.Some? ==> scope.definition.value == definition)
      && (scope.assignment.Some? ==> scope.assignment.value == a)
  }

  /** The periods an assignment misses: those of its definition's frequency since its start date without a row. */
  ghost function MissedBy(t: Tables, a: nat, upTo: int): seq<Span>
    requires RefsOk(t) && a < |t.assignments|
  {
    var frequency := t.definitions[t.assignments[a].definition].frequency;
    Missing(Work(a, t.calendar(frequency), t.assignments[a].start), t.occurrences, upTo)
  }

  /** The occurrences of one assignment among rows, in order. */
  function RowsAbout(rows: seq<Occurrence>, a: nat): seq<Occurrence> {
    if rows == [] then []
    else
      var last := rows[|rows| - 1];
      RowsAbout(rows[..|rows| - 1], a) + if last.assignment == a then [last] else []
  }

  lemma {:induction false} RowsAboutJoin(x: seq<Occurrence>, y: seq<Occurrence>, a: nat)
    ensures RowsAbout(x + y, a) == RowsAbout(x, a) + RowsAbout(y, a)
  {
    if y == [] {
      assert x + y == x;
    } else {
      assert (x + y)[..|x + y| - 1] == x + y[..|y| - 1];
      RowsAboutJoin(x, y[..|y| - 1], a);
    }
  }

  lemma {:induction false} RowsAboutOne(assignment: nat, periods: seq<Span>, a: nat)
    ensures RowsAbout(Rows(assignment, periods), a) == if assignment == a then Rows(assignment, periods) else []
  {
    if periods != [] {
      var n := |periods| - 1;
      RowsAboutOne(assignment, periods[..n], a);
      assert Rows(assignment, periods)[..n] == Rows(assignment, periods[..n]);
    }
  }

  lemma {:induction false} RowsAboutNext(works: seq<Work>, queues: seq<seq<Span>>, n: nat, a: nat)
    requires n < |works| == |queues|
    ensures RowsAbout(RowsOf(works, queues, n + 1), a)
         == RowsAbout(RowsOf(works, queues, n), a)
            + if works[n].assignment == a then Rows(a, queues[n]) else []
  {
    RowsAboutJoin(RowsOf(works, queues, n), Rows(works[n].assignment, queues[n]), a);
    RowsAboutOne(works[n].assignment, queues[n], a);
  }

  lemma {:induction false} RowsAboutUnlisted(works: seq<Work>, queues: seq<seq<Span>>, n: nat, a: nat)
    requires n <= |works| == |queues| && forall i :: 0 <= i < n ==> works[i].assignment != a
    ensures RowsAbout(RowsOf(works, queues, n), a) == []
  {
    if n > 0 {
      RowsAboutUnlisted(works, queues, n - 1, a);
      RowsAboutNext(works, queues, n - 1, a);
    }
  }

  lemma {:induction false} RowsAboutListed(works: seq<Work>, queues: seq<seq<Span>>, n: nat, i: nat, a: nat)
    requires i < n <= |works| == |queues|
    requires forall j :: 0 <= j < n ==> (works[j].assignment == a <==> j == i)
    ensures RowsAbout(RowsOf(works, queues, n), a) == Rows(a, queues[i])
  {
    RowsAboutNext(works, queues, n - 1, a);
    if i < n - 1 {
      RowsAboutListed(works, queues, n - 1, i, a);
    } else {
      RowsAboutUnlisted(works, queues, n - 1, a);
    }
  }

  lemma {:induction false} OnlyOneWork(works: seq<Work>, i: nat)
    requires WorksOk(works) && i < |works|
    ensures forall j :: 0 <= j < |works| ==> (works[j].assignment == works[i].assignment <==> j == i)
  {
  }

  lemma {:induction false} QueuedAbout(t: Tables, live: set<nat>, scope: Scope, upTo: int, a: nat)
    requires TablesOk(t) && a < |t.assignments|
    ensures var works := WorksOf(t, live, scope, |t.assignments|);
            && WorksOk(works)
            && RowsAbout(QueuedRows(works, t.occurrences, upTo), a)
               == if IsDue(t, live, scope, a) then Rows(a, Queued(WorkFor(t, a), t.occurrences, upTo)) else []
  {
    var works := WorksOf(t, live, scope, |t.assignments|);
    WorksAreEligible(t, live, scope, |t.assignments|);
    var queues := Queues(works, t.occurrences, upTo);
    if IsDue(t, live, scope, a) {
      var i := EligibleIsListed(t, live, scope, |t.assignments|, a);
      OnlyOneWork(works, i);
      RowsAboutListed(works, queues, |works|, i, a);
    } else {
      RowsAboutUnlisted(works, queues, |works|, a);
    }
  }

  lemma {:induction false} GeneratedAppends(t: Tables, live: set<nat>, scope: Scope, upTo: int)
    requires TablesOk(t)
    ensures WorksOk(WorksOf(t, live, scope, |t.assignments|))
    ensures Generated(t, live, scope, upTo).occurrences
         == t.occurrences + QueuedRows(WorksOf(t, live, scope, |t.assignments|), t.occurrences, upTo)
  {
    WorksAreEligible(t, live, scope, |t.assignments|);
    EnsuredAppends(WorksOf(t, live, scope, |t.assignments|), t.occurrences, upTo);
  }

  /** rows are those of the first n periods, pending and never delayed. */
  predicate PendingRows(rows: seq<Occurrence>, a: nat, periods: seq<Span>, n: int) {
    && |rows| == n <= |periods|
    && forall k :: 0 <= k < |rows| ==>
         rows[k] == Occurrence(a, periods[k].start, periods[k].end, Backfill.Pending, false)
  }

  /** u has what t has, and for an assignment its newest 400 missing periods, pending, if it is due; else nothing. */
  ghost predicate Filled(t: Tables, u: Tables, live: set<nat>, scope: Scope, upTo: int, a: nat)
    requires RefsOk(t) && a < |t.assignments|
  {
    var n, missed := |t.occurrences|, MissedBy(t, a, upTo);
    && u == t.(occurrences := u.occurrences)
    && n <= |u.occurrences| && u.occurrences[..n] == t.occurrences
    && PendingRows(RowsAbout(u.occurrences[n..], a), a, missed,
                   if IsDue(t, live, scope, a) then AtMost(|missed|, 400) else 0)
  }

  lemma {:induction false} GeneratedFills(t: Tables, live: set<nat>, scope: Scope, upTo: int, a: nat)
    requires TablesOk(t) && a < |t.assignments|
    ensures Filled(t, Generated(t, live, scope, upTo), live, scope, upTo, a)
  {
    GeneratedAppends(t, live, scope, upTo);
    QueuedAbout(t, live, scope, upTo, a);
    var rows := QueuedRows(WorksOf(t, live, scope, |t.assignments|), t.occurrences, upTo);
    var occurrences := Generated(t, live, scope, upTo).occurrences;
    assert occurrences[|t.occurrences|..] == rows && occurrences[..|t.occurrences|] == t.occurrences;
  }

  /** So a generation does. */
  lemma {:induction false} GenerationAdds(t: Tables, utcToday: int, live: set<nat>, scope: Scope, upTo: int, a: nat)
    requires TablesOk(t) && a < |t.assignments|
    ensures var (u, reply) := Step(t, Dated(utcToday, live, Generates(scope, upTo)));
            reply == Done && Filled(t, u, live, scope, upTo, a)
  {
    GeneratedFills(t, live, scope, upTo, a);
  }

  /** A call reports as capped the number of its assignments that it leaves with missing periods. */
  lemma {:induction false} CappedCountsIncomplete(works: seq<Work>, table: seq<Occurrence>, upTo: int, n: nat)
    requires WorksOk(works) && n < |works|
    ensures Capped(works, table, upTo, 0) == 0
    ensures Capped(works, table, upTo, n + 1)
         == Capped(works, table, upTo, n)
            + if Missing(works[n], Ensured(works, table, upTo), upTo) != [] then 1 else 0
  {
    CappedAreIncomplete(works, table, upTo, n);
  }

  // ----- an ended assignment stays silent -----

  /** No row of the assignment was added. */
  ghost predicate NothingAdded(t: Tables, u: Tables, a: nat) {
    && |t.occurrences| <= |u.occurrences|
    && forall k :: |t.occurrences| <= k < |u.occurrences| ==> u.occurrences[k].assignment != a
  }

  lemma {:induction false} NoneAbout(rows: seq<Occurrence>, a: nat)
    requires RowsAbout(rows, a) == []
    ensures forall k :: 0 <= k < |rows| ==> rows[k].assignment != a
  {
    if rows != [] {
      NoneAbout(rows[..|rows| - 1], a);
    }
  }

  lemma {:induction false} TailAddsNothing(t: Tables, u: Tables, a: nat)
    requires |t.occurrences| <= |u.occurrences| && RowsAbout(u.occurrences[|t.occurrences|..], a) == []
    ensures NothingAdded(t, u, a)
  {
    var n := |t.occurrences|;
    NoneAbout(u.occurrences[n..], a);
    forall k | n <= k < |u.occurrences| ensures u.occurrences[k].assignment != a {
      assert u.occurrences[n..][k - n] == u.occurrences[k];
    }
  }

  lemma {:induction false} EndedGetsNothing(t: Tables, live: set<nat>, scope: Scope, upTo: int, a: nat)
    requires TablesOk(t) && a < |t.assignments| && !t.assignments[a].active
    ensures NothingAdded(t, Generated(t, live, scope, upTo), a)
  {
    GeneratedFills(t, live, scope, upTo, a);
    TailAddsNothing(t, Generated(t, live, scope, upTo), a);
  }

  lemma {:induction false} SameOccurrencesAddNothing(t: Tables, u: Tables, v: Tables, a: nat)
    requires NothingAdded(t, u, a) && v.occurrences == u.occurrences
    ensures NothingAdded(t, v, a)
  {
  }

  lemma {:induction false} UpdateGenerates(t: Tables, id: nat, frequency: Option<Frequency>, active: Option<bool>,
          live: set<nat>, today: int) returns (generated: bool)
    requires RefsOk(t)
    ensures UpdateDefinition(t, id, frequency, active, live, today).0.occurrences
         == if generated then Generated(t, live, EVERYTHING.(definition := Some(id)), today).occurrences
            else t.occurrences
  {
    generated := UpdateDefinition(t, id, frequency, active, live, today).1 == Done
                 && active == Some(false) && t.definitions[id].active;
  }

  lemma {:induction false} UpdateAddsNothing(t: Tables, id: nat, frequency: Option<Frequency>, active: Option<bool>,
          live: set<nat>, today: int, a: nat)
    requires TablesOk(t) && a < |t.assignments| && !t.assignments[a].active
    ensures NothingAdded(t, UpdateDefinition(t, id, frequency, active, live, today).0, a)
  {
    var generated := UpdateGenerates(t, id, frequency, active, live, today);
    var u := UpdateDefinition(t, id, frequency, active, live, today).0;
    if generated {
      EndedGetsNothing(t, live, EVERYTHING.(definition := Some(id)), today, a);
      SameOccurrencesAddNothing(t, Generated(t, live, EVERYTHING.(definition := Some(id)), today), u, a);
    }
  }

  lemma {:induction false} EndAddsNothing(t: Tables, id: nat, live: set<nat>, today: int, a: nat)
    requires TablesOk(t) && a < |t.assignments| && !t.assignments[a].active
    ensures NothingAdded(t, EndAssignment(t, id, live, today).0, a)
  {
    var scope := EVERYTHING.(assignment := Some(id));
    EndedGetsNothing(t, live, scope, today, a);
    var u := EndAssignment(t, id, live, today).0;
    if u != t {
      SameOccurrencesAddNothing(t, Generated(t, live, scope, today), u, a);
    }
  }

  lemma {:induction false} StepAddsNothing(t: Tables, e: Dated, a: nat)
    requires TablesOk(t) && a < |t.assignments| && !t.assignments[a].active
    ensures NothingAdded(t, Step(t, e).0, a)
  {
    match e.event {
      case Updates(id, frequency, active) => UpdateAddsNothing(t, id, frequency, active, e.live, e.utcToday, a);
      case Ends(id) => EndAddsNothing(t, id, e.live, e.utcToday, a);
      case Generates(scope, upTo) => EndedGetsNothing(t, e.live, scope, upTo, a);
      case _ =>
    }
  }

  /** After an assignment has ended, no run adds an occurrence of it, and it stays as it was. */
  lemma {:induction false} EndedStaysSilent(t: Tables, run: seq<Dated>, a: nat)
    requires TablesOk(t) && a < |t.assignments| && !t.assignments[a].active
    ensures NothingAdded(t, After(t, run), a)
    ensures a < |After(t, run).assignments| && After(t, run).assignments[a] == t.assignments[a]
  {
    assert AssignmentEvolves(t.assignments[a], After(t, run).assignments[a]);
    if run != [] {
      var was, last := After(t, run[..|run| - 1]), run[|run| - 1];
      EndedStaysSilent(t, run[..|run| - 1], a);
      StepAddsNothing(was, last, a);
      StepKeepsTables(was, last);
      AddedTwice(t, was, Step(was, last).0, a);
    }
  }

  // ----- the same while calls overlap -----

  lemma {:induction false} QueuedArePending(t: Tables, live: set<nat>, scope: Scope, upTo: int, a: nat)
    requires TablesOk(t) && a < |t.assignments|
    ensures var missed := MissedBy(t, a, upTo);
            PendingRows(RowsAbout(RowsFor(t, live, scope, upTo), a), a, missed,
                        if IsDue(t, live, scope, a) then AtMost(|missed|, 400) else 0)
  {
    QueuedAbout(t, live, scope, upTo, a);
  }

  lemma {:induction false} QueryWaits(s: Shared, call: nat, live: set<nat>, scope: Scope, upTo: int, other: nat)
    requires SharedOk(s)
    ensures var after := Acted(s, Queries(call, live, scope, upTo));
            && after.tables == s.tables
            && Waiting(after, other)
               == if other == call then RowsFor(s.tables, live, scope, upTo) else Waiting(s, other)
  {
  }

  /** What a call queues for an assignment is what it would add at once, and no other call's rows change. */
  lemma {:induction false} QueryQueues(s: Shared, call: nat, live: set<nat>, scope: Scope, upTo: int, a: nat,
          other: nat)
    requires SharedOk(s) && a < |s.tables.assignments|
    ensures var after, missed := Acted(s, Queries(call, live, scope, upTo)), MissedBy(s.tables, a, upTo);
            && after.tables == s.tables
            && (other != call ==> Waiting(after, other) == Waiting(s, other))
            && PendingRows(RowsAbout(Waiting(after, call), a), a, missed,
                           if IsDue(s.tables, live, scope, a) then AtMost(|missed|, 400) else 0)
  {
    QueuedArePending(s.tables, live, scope, upTo, a);
    QueryWaits(s, call, live, scope, upTo, call);
    QueryWaits(s, call, live, scope, upTo, other);
  }

  /** The last writes of ending and of deactivating are just that. */
  lemma {:induction false} LastWrites(s: Shared, a: nat, d: nat)
    requires SharedOk(s)
    ensures a < |s.tables.assignments| ==>
              var was := s.tables.assignments[a];
              Acted(s, Closes(a)) == s.(tables := s.tables.(assignments := s.tables.assignments[a :=
                Assignment(was.definition, was.assignee, was.start, false)]))
    ensures d < |s.tables.definitions| ==>
              var was := s.tables.definitions[d];
              Acted(s, SwitchesOff(d)) == s.(tables := s.tables.(definitions := s.tables.definitions[d :=
                Definition(was.frequency, was.property, false, was.deleted)]))
  {
  }

  /**
   An operation acts on the tables alone. Inserting takes the next 500 rows of a
   call: each has its key in the table then, and just the others still wait.
   */
  lemma {:induction false} ActRules(s: Shared, operation: Dated, call: nat, other: nat)
    requires SharedOk(s)
    ensures Acted(s, Does(operation)).tables == Step(s.tables, operation).0
    ensures Waiting(Acted(s, Does(operation)), other) == Waiting(s, other)
    ensures var rows, after := Waiting(s, call), Acted(s, Stores(call));
            && Waiting(after, other)
               == (if other != call then Waiting(s, other) else if |rows| <= 500 then [] else rows[500..])
            && forall i :: 0 <= i < |rows| && i < 500 ==>
                 HasKey(after.tables.occurrences, rows[i].assignment, rows[i].start)
  {
    var rows := Waiting(s, call);
    InsertedIsUnion(s.tables.occurrences, Batch(rows));
    forall i | 0 <= i < |rows| && i < 500
      ensures HasKey(Acted(s, Stores(call)).tables.occurrences, rows[i].assignment, rows[i].start)
    {
      assert Batch(rows)[i] == rows[i];
      assert HasKey(Batch(rows), rows[i].assignment, rows[i].start);
    }
  }

  /** No call has a row of the assignment waiting. */
  ghost predicate NoneWaiting(s: Shared, a: nat) {
    forall call: nat, row :: row in Waiting(s, call) ==> row.assignment != a
  }

  lemma {:induction false} InsertingAddsNothing(t: Tables, rows: seq<Occurrence>, a: nat)
    requires TablesOk(t) && forall row :: row in rows ==> row.assignment != a
    ensures NothingAdded(t, BatchInserted(t, rows), a)
  {
    InsertedIsUnion(t.occurrences, Batch(rows));
    var u := BatchInserted(t, rows);
    forall k | |t.occurrences| <= k < |u.occurrences| ensures u.occurrences[k].assignment != a {
      assert u.occurrences[k] in Batch(rows) && u.occurrences[k] in rows;
    }
  }

  lemma {:induction false} QueryingWaitsForNothing(s: Shared, call: nat, live: set<nat>, scope: Scope, upTo: int,
          a: nat)
    requires SharedOk(s) && a < |s.tables.assignments| && !s.tables.assignments[a].active
    ensures forall row :: row in RowsFor(s.tables, live, scope, upTo) ==> row.assignment != a
  {
    var rows := RowsFor(s.tables, live, scope, upTo);
    QueuedAbout(s.tables, live, scope, upTo, a);
    NoneAbout(rows, a);
  }

  lemma {:induction false} ActAddsNothing(s: Shared, act: Act, a: nat)
    requires SharedOk(s) && a < |s.tables.assignments| && !s.tables.assignments[a].active && NoneWaiting(s, a)
    ensures NothingAdded(s.tables, Acted(s, act).tables, a) && NoneWaiting(Acted(s, act), a)
  {
    match act {
      case Does(operation) => StepAddsNothing(s.tables, operation, a);
      case Queries(call, live, scope, upTo) => QueryingWaitsForNothing(s, call, live, scope, upTo, a);
      case Stores(call) => InsertingAddsNothing(s.tables, Waiting(s, call), a);
      case _ =>
    }
    forall call: nat, row | row in Waiting(Acted(s, act), call) ensures row.assignment != a {
      if !act.Queries? || act.call != call {
        assert row in Waiting(s, call);
      }
    }
  }

  lemma {:induction false} AddedTwice(t: Tables, u: Tables, v: Tables, a: nat)
    requires NothingAdded(t, u, a) && NothingAdded(u, v, a) && Evolves(u, v)
    ensures NothingAdded(t, v, a)
  {
    forall k | |t.occurrences| <= k < |v.occurrences| ensures v.occurrences[k].assignment != a {
      if k < |u.occurrences| {
        assert OccurrenceEvolves(u.occurrences[k], v.occurrences[k]);
      }
    }
  }

  /** After an assignment has ended, and once no call has a row of it waiting, overlapping calls add none either. */
  lemma {:induction false} EndedStaysSilentInOverlaps(s: Shared, run: seq<Act>, a: nat)
    requires SharedOk(s) && a < |s.tables.assignments| && !s.tables.assignments[a].active && NoneWaiting(s, a)
    ensures NothingAdded(s.tables, AfterActs(s, run).tables, a) && NoneWaiting(AfterActs(s, run), a)
  {
    if run != [] {
      var was, last := AfterActs(s, run[..|run| - 1]), run[|run| - 1];
      EndedStaysSilentInOverlaps(s, run[..|run| - 1], a);
      assert AssignmentEvolves(s.tables.assignments[a], was.tables.assignments[a]);
      ActAddsNothing(was, last, a);
      ActKeepsShared(was, last);
      AddedTwice(s.tables, was.tables, Acted(was, last).tables, a);
    }
  }

  // ----- editing and ending -----

  /** What editing writes to definition d: the fields given, and only to the one edited. */
  lemma {:induction false} EditWrites(t: Tables, id: nat, frequency: Option<Frequency>, active: Option<bool>,
          live: set<nat>, today: int, d: nat)
    requires TablesOk(t) && d < |t.definitions|
    ensures var (u, reply) := Step(t, Dated(today, live, Updates(id, frequency, active)));
            && |u.definitions| == |t.definitions|
            && u.definitions[d].property == t.definitions[d].property
            && u.definitions[d].deleted == t.definitions[d].deleted
            && u.definitions[d].frequency == (if reply == Done && d == id && frequency.Some? then frequency.value
                                              else t.definitions[d].frequency)
            && u.definitions[d].active == (if reply == Done && d == id && active.Some? then active.value
                                           else t.definitions[d].active)
  {
  }

  /** A new definition starts active; deleting one only marks it, and only if it is there. */
  lemma {:induction false} DefinitionEvents(t: Tables, e: Dated, frequency: Frequency, property: nat, id: nat)
    requires TablesOk(t)
    ensures e.event == Creates(frequency, property) ==>
              Step(t, e) == (t.(definitions := t.definitions + [Definition(frequency, property, true, false)]), Done)
    ensures e.event == Deletes(id) ==>
              if id >= |t.definitions| then Step(t, e) == (t, NotFound)
              else
                var d := t.definitions[id];
                Step(t, e) == (t.(definitions := t.definitions[id :=
                  Definition(d.frequency, d.property, d.active, true)]), Done)
  {
  }

  /** Some assignment, ended or not, is of the definition. */
  ghost predicate EverAssigned(t: Tables, id: nat) {
    exists a :: a in t.assignments && a.definition == id
  }

  /** When an edit goes ahead, and what it does to assignments and occurrences; a refusal changes nothing. */
  lemma {:induction false} EditRules(t: Tables, id: nat, frequency: Option<Frequency>, active: Option<bool>,
          live: set<nat>, today: int, a: nat)
    requires TablesOk(t) && a < |t.assignments|
    ensures var (u, reply) := Step(t, Dated(today, live, Updates(id, frequency, active)));
            if id >= |t.definitions| || t.definitions[id].deleted then reply == NotFound && u == t
            else if frequency.Some? && frequency.value != t.definitions[id].frequency && EverAssigned(t, id) then
              reply == FrequencyLocked && u == t
            else
              var was := t.definitions[id].active;
              && reply == Done
              && u.calendar == t.calendar
              && |u.assignments| == |t.assignments|
              && u.assignments[a].definition == t.assignments[a].definition
              && u.assignments[a].assignee == t.assignments[a].assignee
              && u.assignments[a].active == t.assignments[a].active
              && u.assignments[a].start
                 == (if active == Some(true) && !was && t.assignments[a].definition == id && t.assignments[a].active
                     then today else t.assignments[a].start)
              && u.occurrences
                 == (if active == Some(false) && was
                     then Generated(t, live, Scope(None, None, Some(id), None), today).occurrences else t.occurrences)
  {
    assert EverAssigned(t, id) ==> WasAssigned(t, id);
    if WasAssigned(t, id) {
      var k :| 0 <= k < |t.assignments| && t.assignments[k].definition == id;
      assert t.assignments[k] in t.assignments;
    }
  }

  /** Ending: an active assignment is filled up to today and ended; nothing else changes. */
  lemma {:induction false} EndRules(t: Tables, id: nat, live: set<nat>, today: int)
    requires TablesOk(t)
    ensures var (u, reply) := Step(t, Dated(today, live, Ends(id)));
            if id >= |t.assignments| then reply == NotFound && u == t
            else if !t.assignments[id].active then reply == AlreadyEnded && u == t
            else
              var a := t.assignments[id];
              && reply == Done
              && u.definitions == t.definitions
              && u.assignments == t.assignments[id := Assignment(a.definition, a.assignee, a.start, false)]
              && u.occurrences == Generated(t, live, Scope(None, None, None, Some(id)), today).occurrences
  {
  }

  // ----- assigning -----

  /** The user holds an active assignment of the definition. */
  ghost predicate Holds(t: Tables, id: nat, user: nat) {
    exists a :: a in t.assignments && a.definition == id && a.assignee == user && a.active
  }

  lemma {:induction false} HoldsIsActive(t: Tables, id: nat, user: nat)
    ensures HasActive(t.assignments, id, user) <==> Holds(t, id, user)
  {
    if HasActive(t.assignments, id, user) {
      var a :| 0 <= a < |t.assignments| && t.assignments[a].active
               && t.assignments[a].definition == id && t.assignments[a].assignee == user;
      assert t.assignments[a] in t.assignments;
    }
  }

  /** Why an assignment of these users is refused as a whole, if it is. */
  predicate Turned(t: Tables, id: nat, users: seq<nat>, today: int, utcToday: int, live: set<nat>, allowed: set<nat>,
          reply: Reply)
  {
    if today > utcToday + 1 || today < utcToday - 1 then reply == BadToday
    else if id >= |t.definitions| || t.definitions[id].deleted then reply == NotFound
    else if !t.definitions[id].active then reply == Inactive
    else if exists user :: user in users && user !in live then reply == NotFound
    else (exists user :: user in users && user !in allowed) && reply == Refused
  }

  lemma {:induction false} SkippedHold(t: Tables, id: nat, wanted: seq<nat>, n: nat, user: nat)
    requires n <= |wanted|
    ensures user in Skipped(t.assignments, id, wanted, n) <==> user in wanted[..n] && Holds(t, id, user)
  {
    if n > 0 {
      SkippedHold(t, id, wanted, n - 1, user);
      HoldsIsActive(t, id, wanted[n - 1]);
      assert wanted[..n] == wanted[..n - 1] + [wanted[n - 1]];
    }
  }

  /** Assigning is refused as a whole, or every named user is active and may be assigned. */
  lemma {:induction false} AssignAnswers(t: Tables, id: nat, users: seq<nat>, today: int, utcToday: int, live: set<nat>,
          allowed: set<nat>)
    requires TablesOk(t)
    ensures var (u, reply) := Step(t, Dated(utcToday, live, Assigns(id, users, today, allowed)));
            if !reply.Assigned? then Turned(t, id, users, today, utcToday, live, allowed, reply) && u == t
            else
              && -1 <= today - utcToday <= 1
              && id < |t.definitions| && !t.definitions[id].deleted && t.definitions[id].active
              && (forall user :: user in users ==> user in live && user in allowed)
  {
    NamedAreWanted(users, Distinct(users), live);
    NamedAreWanted(users, Distinct(users), allowed);
  }

  /** A user who is named and does not hold the task has got it from today on, and one who does is skipped. */
  ghost predicate HandedOut(t: Tables, u: Tables, skipped: seq<nat>, id: nat, users: seq<nat>, today: int, user: nat) {
    && u == t.(assignments := u.assignments)
    && |t.assignments| <= |u.assignments| && u.assignments[..|t.assignments|] == t.assignments
    && (user in skipped <==> user in users && Holds(t, id, user))
    && (Assignment(id, user, today, true) in u.assignments[|t.assignments|..] <==>
          user in users && !Holds(t, id, user))
    && (forall k :: |t.assignments| <= k < |u.assignments| ==>
          u.assignments[k] == Assignment(id, u.assignments[k].assignee, today, true))
  }

  /** So it is for every user once an assignment goes ahead. */
  lemma {:induction false} AssignWrites(t: Tables, id: nat, users: seq<nat>, today: int, utcToday: int, live: set<nat>,
          allowed: set<nat>, user: nat)
    requires TablesOk(t) && Step(t, Dated(utcToday, live, Assigns(id, users, today, allowed))).1.Assigned?
    ensures var (u, reply) := Step(t, Dated(utcToday, live, Assigns(id, users, today, allowed)));
            HandedOut(t, u, reply.skipped, id, users, today, user)
  {
    HandsOut(t, id, users, today, utcToday, live, allowed, user);
  }

  lemma {:induction false} HandsOut(t: Tables, id: nat, users: seq<nat>, today: int, utcToday: int, live: set<nat>,
          allowed: set<nat>, user: nat)
    requires OneActive(t.assignments) && AssignUsers(t, id, users, today, utcToday, live, allowed).1.Assigned?
    ensures var (u, reply) := AssignUsers(t, id, users, today, utcToday, live, allowed);
            HandedOut(t, u, reply.skipped, id, users, today, user)
  {
    var u := AssignUsers(t, id, users, today, utcToday, live, allowed).0;
    var wanted := Distinct(users);
    AssignedAre(t.assignments, id, wanted, today, |wanted|);
    assert wanted[..|wanted|] == wanted;
    SkippedHold(t, id, wanted, |wanted|, user);
    HoldsIsActive(t, id, user);
    AddedHold(t, id, u, today, user);
  }

  /** Some named user is outside the set exactly if some distinct one is. */
  lemma {:induction false} NamedAreWanted(users: seq<nat>, wanted: seq<nat>, those: set<nat>)
    requires wanted == Distinct(users)
    ensures (exists user :: user in users && user !in those) <==>
            exists i :: 0 <= i < |wanted| && wanted[i] !in those
  {
    if user :| user in users && user !in those {
      assert user in Distinct(users);
      var i :| 0 <= i < |wanted| && wanted[i] == user;
    }
    if i :| 0 <= i < |wanted| && wanted[i] !in those {
      assert wanted[i] in Distinct(users) && wanted[i] in users;
    }
  }

  /** An added assignment of the user is there exactly if they hold the task now and did not before. */
  lemma {:induction false} AddedHold(t: Tables, id: nat, u: Tables, today: int, user: nat)
    requires |t.assignments| <= |u.assignments| && u.assignments[..|t.assignments|] == t.assignments
    requires forall k :: |t.assignments| <= k < |u.assignments| ==>
               u.assignments[k] == Assignment(id, u.assignments[k].assignee, today, true)
               && !HasActive(t.assignments, id, u.assignments[k].assignee)
    ensures Assignment(id, user, today, true) in u.assignments[|t.assignments|..] <==>
            HasActive(u.assignments, id, user) && !HasActive(t.assignments, id, user)
  {
    var n, one := |t.assignments|, Assignment(id, user, today, true);
    assert forall k :: 0 <= k < n ==> u.assignments[k] == u.assignments[..n][k] == t.assignments[k];
    if one in u.assignments[n..] {
      var k :| 0 <= k < |u.assignments[n..]| && u.assignments[n..][k] == one;
      assert u.assignments[n + k] == one;
    }
    if HasActive(u.assignments, id, user) && !HasActive(t.assignments, id, user) {
      var k :| 0 <= k < |u.assignments| && u.assignments[k].active
               && u.assignments[k].definition == id && u.assignments[k].assignee == user;
      assert n <= k;
      assert u.assignments[n..][k - n] == one;
    }
  }

  // ----- working off -----

  /** Only the assignee's own occurrence may be touched. */
  predicate NotOwn(t: Tables, caller: nat, o: nat, reply: Reply)
    requires RefsOk(t) && forall k :: 0 <= k < |t.occurrences| ==> t.occurrences[k].assignment < |t.assignments|
  {
    if o >= |t.occurrences| then reply == NotFound
    else t.assignments[t.occurrences[o].assignment].assignee != caller && reply == Refused
  }

  lemma {:induction false} OccurrencesHaveAssignments(t: Tables)
    requires RefsOk(t) && OccurrencesOk(t)
    ensures forall k :: 0 <= k < |t.occurrences| ==> t.occurrences[k].assignment < |t.assignments|
  {
    forall k | 0 <= k < |t.occurrences| ensures t.occurrences[k].assignment < |t.assignments| {
      assert OccurrenceOk(t, t.occurrences[k]);
    }
  }

  /** Delaying marks a pending occurrence of the caller, for good; completing keeps what was marked. */
  lemma {:induction false} WorkRules(t: Tables, utcToday: int, live: set<nat>, caller: nat, o: nat)
    requires TablesOk(t)
    ensures forall k :: 0 <= k < |t.occurrences| ==> t.occurrences[k].assignment < |t.assignments|
    ensures var (u, reply) := Step(t, Dated(utcToday, live, Delays(caller, o)));
            if o >= |t.occurrences| || t.assignments[t.occurrences[o].assignment].assignee != caller then
              NotOwn(t, caller, o, reply) && u == t
            else if t.occurrences[o].status != Backfill.Pending then reply == AlreadyHandled && u == t
            else
              var was := t.occurrences[o];
              reply == Done && u == t.(occurrences := t.occurrences[o :=
                Occurrence(was.assignment, was.start, was.end, Delayed, true)])
    ensures var (u, reply) := Step(t, Dated(utcToday, live, Completes(caller, o)));
            if o >= |t.occurrences| || t.assignments[t.occurrences[o].assignment].assignee != caller then
              NotOwn(t, caller, o, reply) && u == t
            else if t.occurrences[o].status == Completed then reply == AlreadyHandled && u == t
            else
              var was := t.occurrences[o];
              reply == Done && u == t.(occurrences := t.occurrences[o :=
                Occurrence(was.assignment, was.start, was.end, Completed, was.wasDelayed)])
  {
    OccurrencesHaveAssignments(t);
  }
}
