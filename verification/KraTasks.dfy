/**
 Assigned tasks as a state machine: create, edit, assign, end, generate, delay
 and complete. Dates are day numbers; ids are positions.
 */
module KraTasks {
  import opened Wrappers
  import opened Periods
  import opened Backfill

  datatype Definition = Definition(frequency: Frequency, property: nat, active: bool, deleted: bool)

  datatype Assignment = Assignment(definition: nat, assignee: nat, start: int, active: bool)

  /** The three tables, with the calendar that says which days make up a period. */
  datatype Tables = Tables(
    calendar: Frequency -> (int -> Span),
    definitions: seq<Definition>,
    assignments: seq<Assignment>,
    occurrences: seq<Occurrence>)

  /** The optional filters of a generation call. */
  datatype Scope = Scope(assignee: Option<nat>, property: Option<nat>, definition: Option<nat>, assignment: Option<nat>)

  datatype Reply =
    | Done
    | Assigned(skipped: seq<nat>)
    | NotFound
    | Inactive
    | FrequencyLocked
    | AlreadyEnded
    | Refused
    | BadToday
    | AlreadyHandled

  ghost predicate RefsOk(t: Tables) {
    && (forall f :: IsGrid(t.calendar(f)))
    && forall a :: 0 <= a < |t.assignments| ==> t.assignments[a].definition < |t.definitions|
  }

  predicate Fits(filter: Option<nat>, value: nat) {
    filter.None? || filter.value == value
  }

  /** The query of ensure_occurrences: active, live on every side, and within the filters. */
  predicate Eligible(t: Tables, live: set<nat>, scope: Scope, a: nat)
    requires RefsOk(t) && a < |t.assignments|
  {
    var assignment := t.assignments[a];
    var definition := t.definitions[assignment.definition];
    && assignment.active
    && definition.active
    && !definition.deleted
    && assignment.assignee in live
    && Fits(scope.assignee, assignment.assignee)
    && Fits(scope.property, definition.property)
    && Fits(scope.definition, assignment.definition)
    && Fits(scope.assignment, a)
  }

  function FrequencyOf(t: Tables, a: nat): Frequency
    requires RefsOk(t) && a < |t.assignments|
  {
    t.definitions[t.assignments[a].definition].frequency
  }

  function WorkFor(t: Tables, a: nat): Work
    requires RefsOk(t) && a < |t.assignments|
  {
    Work(a, t.calendar(FrequencyOf(t, a)), t.assignments[a].start)
  }

  /** The assignments that a call generates for, among the first n. */
  function WorksOf(t: Tables, live: set<nat>, scope: Scope, n: nat): seq<Work>
    requires RefsOk(t) && n <= |t.assignments|
  {
    if n == 0 then []
    else
      var before := WorksOf(t, live, scope, n - 1);
      if Eligible(t, live, scope, n - 1) then before + [WorkFor(t, n - 1)] else before
  }

  lemma {:induction false} ListedAreEligible(t: Tables, live: set<nat>, scope: Scope, n: nat)
    requires RefsOk(t) && n <= |t.assignments|
    ensures var works := WorksOf(t, live, scope, n);
            && WorksOk(works)
            && (forall i :: 0 <= i < |works| ==>
                  && works[i].assignment < n
                  && Eligible(t, live, scope, works[i].assignment)
                  && works[i] == WorkFor(t, works[i].assignment))
  {
    if n > 0 {
      ListedAreEligible(t, live, scope, n - 1);
      assert IsGrid(t.calendar(FrequencyOf(t, n - 1)));
    }
  }

  lemma {:induction false} EligibleIsListed(t: Tables, live: set<nat>, scope: Scope, n: nat, a: nat) returns (i: nat)
    requires RefsOk(t) && a < n <= |t.assignments| && Eligible(t, live, scope, a)
    ensures i < |WorksOf(t, live, scope, n)| && WorksOf(t, live, scope, n)[i] == WorkFor(t, a)
  {
    if a == n - 1 {
      i := |WorksOf(t, live, scope, n)| - 1;
    } else {
      i := EligibleIsListed(t, live, scope, n - 1, a);
    }
  }

  /** Exactly the eligible assignments, each once, each with its own calendar. */
  lemma {:induction false} WorksAreEligible(t: Tables, live: set<nat>, scope: Scope, n: nat)
    requires RefsOk(t) && n <= |t.assignments|
    ensures var works := WorksOf(t, live, scope, n);
            && WorksOk(works)
            && (forall i :: 0 <= i < |works| ==>
                  && works[i].assignment < n
                  && Eligible(t, live, scope, works[i].assignment)
                  && works[i] == WorkFor(t, works[i].assignment))
            && (forall a: nat :: a < n && Eligible(t, live, scope, a) ==> WorkFor(t, a) in works)
  {
    ListedAreEligible(t, live, scope, n);
    forall a: nat | a < n && Eligible(t, live, scope, a) ensures WorkFor(t, a) in WorksOf(t, live, scope, n) {
      var i := EligibleIsListed(t, live, scope, n, a);
    }
  }

  // ----- the operations -----

  /** ensure_occurrences, uninterrupted */
  ghost function Generated(t: Tables, live: set<nat>, scope: Scope, upTo: int): Tables
    requires RefsOk(t)
  {
    WorksAreEligible(t, live, scope, |t.assignments|);
    t.(occurrences := Ensured(WorksOf(t, live, scope, |t.assignments|), t.occurrences, upTo))
  }

  const EVERYTHING := Scope(None, None, None, None)

  predicate WasAssigned(t: Tables, definition: nat) {
    exists a :: 0 <= a < |t.assignments| && t.assignments[a].definition == definition
  }

  /** Reactivation: the active assignments of the definition start again today. */
  function Restarted(assignments: seq<Assignment>, definition: nat, today: int): seq<Assignment> {
    seq(|assignments|, a requires 0 <= a < |assignments| =>
      if assignments[a].definition == definition && assignments[a].active then assignments[a].(start := today)
      else assignments[a])
  }

  function Edited(d: Definition, frequency: Option<Frequency>, active: Option<bool>): Definition {
    d.(frequency := if frequency.Some? then frequency.value else d.frequency,
       active := if active.Some? then active.value else d.active)
  }

  /** What update_definition does before it writes the fields. */
  ghost function Prepared(t: Tables, id: nat, active: Option<bool>, live: set<nat>, today: int): Tables
    requires RefsOk(t) && id < |t.definitions|
  {
    if active == Some(false) && t.definitions[id].active then
      Generated(t, live, EVERYTHING.(definition := Some(id)), today)
    else if active == Some(true) && !t.definitions[id].active then
      t.(assignments := Restarted(t.assignments, id, today))
    else t
  }

  ghost function UpdateDefinition(t: Tables, id: nat, frequency: Option<Frequency>, active: Option<bool>,
                                  live: set<nat>, today: int): (Tables, Reply)
    requires RefsOk(t)
  {
    if id >= |t.definitions| || t.definitions[id].deleted then (t, NotFound)
    else if frequency.Some? && frequency.value != t.definitions[id].frequency && WasAssigned(t, id) then
      (t, FrequencyLocked)
    else
      var prepared := Prepared(t, id, active, live, today);
      (prepared.(definitions := t.definitions[id := Edited(t.definitions[id], frequency, active)]), Done)
  }

  /** list(dict.fromkeys(users)) */
  function Distinct(users: seq<nat>): (r: seq<nat>)
    ensures forall u: nat {:trigger u in r} :: u in r <==> u in users
    ensures forall i, j :: 0 <= i < j < |r| ==> r[i] != r[j]
  {
    if users == [] then []
    else
      var last := users[|users| - 1];
      var r := Distinct(users[..|users| - 1]);
      assert forall u: nat :: u in users <==> u in users[..|users| - 1] || u == last;
      if last in r then r else r + [last]
  }

  /** Users stay in the order in which they are first named. */
  lemma {:induction false} DistinctKeepsOrder(users: seq<nat>, i: nat, j: nat) returns (p: nat)
    requires i < j < |Distinct(users)|
    ensures p < |users| && users[p] == Distinct(users)[i]
    ensures forall q :: 0 <= q < |users| && users[q] == Distinct(users)[j] ==> p < q
  {
    var n := |users| - 1;
    var r := Distinct(users[..n]);
    if j < |r| {
      p := DistinctKeepsOrder(users[..n], i, j);
      assert r[j] in r;
      forall q | 0 <= q < |users| && users[q] == Distinct(users)[j] ensures p < q {
        assert q < n ==> users[..n][q] == users[q];
      }
    } else {
      assert r[i] in r;
      p :| 0 <= p < n && users[..n][p] == r[i];
      assert users[n] !in r;
      assert forall q :: 0 <= q < n ==> users[q] == users[..n][q] && users[..n][q] != users[n];
    }
  }

  predicate HasActive(assignments: seq<Assignment>, definition: nat, user: nat) {
    exists a :: 0 <= a < |assignments| && assignments[a].active
                && assignments[a].definition == definition && assignments[a].assignee == user
  }

  /** The assignments after the first n wanted users, those already assigned skipped. */
  function AssignedUpTo(assignments: seq<Assignment>, definition: nat, wanted: seq<nat>, today: int,
          n: nat): seq<Assignment>
    requires n <= |wanted|
  {
    if n == 0 then assignments
    else
      var before := AssignedUpTo(assignments, definition, wanted, today, n - 1);
      if HasActive(assignments, definition, wanted[n - 1]) then before
      else before + [Assignment(definition, wanted[n - 1], today, true)]
  }

  function Skipped(assignments: seq<Assignment>, definition: nat, wanted: seq<nat>, n: nat): seq<nat>
    requires n <= |wanted|
  {
    if n == 0 then []
    else
      var before := Skipped(assignments, definition, wanted, n - 1);
      if HasActive(assignments, definition, wanted[n - 1]) then before + [wanted[n - 1]] else before
  }

  /** assign_users; allowed are the live users whom the caller may assign. */
  function AssignUsers(t: Tables, id: nat, users: seq<nat>, today: int, utcToday: int, live: set<nat>,
          allowed: set<nat>): (Tables, Reply)
  {
    if today - utcToday > 1 || utcToday - today > 1 then (t, BadToday)
    else if id >= |t.definitions| || t.definitions[id].deleted then (t, NotFound)
    else if !t.definitions[id].active then (t, Inactive)
    else
      var wanted := Distinct(users);
      if exists i :: 0 <= i < |wanted| && wanted[i] !in live then (t, NotFound)
      else if exists i :: 0 <= i < |wanted| && wanted[i] !in allowed then (t, Refused)
      else
        (t.(assignments := AssignedUpTo(t.assignments, id, wanted, today, |wanted|)),
         Assigned(Skipped(t.assignments, id, wanted, |wanted|)))
  }

  /** end_assignment */
  ghost function EndAssignment(t: Tables, id: nat, live: set<nat>, today: int): (Tables, Reply)
    requires RefsOk(t)
  {
    if id >= |t.assignments| then (t, NotFound)
    else if !t.assignments[id].active then (t, AlreadyEnded)
    else
      var filled := Generated(t, live, EVERYTHING.(assignment := Some(id)), today);
      (filled.(assignments := t.assignments[id := t.assignments[id].(active := false)]), Done)
  }

  // ----- the invariant -----

  /** The occurrence is a whole period of the frequency's calendar. */
  ghost predicate OnGrid(g: int -> Span, o: Occurrence) {
    g(o.start) == Span(o.start, o.end)
  }

  ghost predicate OccurrenceOk(t: Tables, o: Occurrence)
    requires RefsOk(t)
  {
    && o.assignment < |t.assignments|
    && OnGrid(t.calendar(FrequencyOf(t, o.assignment)), o)
    && (o.status == Backfill.Pending ==> !o.wasDelayed)
    && (o.status == Delayed ==> o.wasDelayed)
  }

  ghost predicate OccurrencesOk(t: Tables)
    requires RefsOk(t)
  {
    forall k {:trigger OccurrenceOk(t, t.occurrences[k])} :: 0 <= k < |t.occurrences| ==>
      OccurrenceOk(t, t.occurrences[k])
  }

  predicate Clash(a: Assignment, b: Assignment) {
    a.active && b.active && a.definition == b.definition && a.assignee == b.assignee
  }

  /** uq_kra_assignment_active */
  ghost predicate OneActive(assignments: seq<Assignment>) {
    forall i, j {:trigger Clash(assignments[i], assignments[j])} :: 0 <= i < j < |assignments| ==>
      !Clash(assignments[i], assignments[j])
  }

  ghost predicate TablesOk(t: Tables) {
    RefsOk(t) && OccurrencesOk(t) && Unique(t.occurrences) && OneActive(t.assignments)
  }

  // ----- doing the work -----

  /** _own_occurrence: why the caller may not touch it. */
  ghost function OwnError(t: Tables, caller: nat, o: nat): Option<Reply>
    requires RefsOk(t) && OccurrencesOk(t)
  {
    if o >= |t.occurrences| then Some(NotFound)
    else
      assert OccurrenceOk(t, t.occurrences[o]);
      if t.assignments[t.occurrences[o].assignment].assignee != caller then Some(Refused) else None
  }

  ghost function DelayOccurrence(t: Tables, caller: nat, o: nat): (Tables, Reply)
    requires RefsOk(t) && OccurrencesOk(t)
  {
    var error := OwnError(t, caller, o);
    if error.Some? then (t, error.value)
    else if t.occurrences[o].status != Backfill.Pending then (t, AlreadyHandled)
    else (t.(occurrences := t.occurrences[o := t.occurrences[o].(status := Delayed, wasDelayed := true)]), Done)
  }

  ghost function CompleteOccurrence(t: Tables, caller: nat, o: nat): (Tables, Reply)
    requires RefsOk(t) && OccurrencesOk(t)
  {
    var error := OwnError(t, caller, o);
    if error.Some? then (t, error.value)
    else if t.occurrences[o].status == Completed then (t, AlreadyHandled)
    else (t.(occurrences := t.occurrences[o := t.occurrences[o].(status := Completed)]), Done)
  }

  // ----- history -----

  function Rank(s: Status): nat {
    match s case Pending => 0 case Delayed => 1 case Completed => 2
  }

  /** An occurrence keeps its period, only moves forward, and never forgets that it was delayed. */
  ghost predicate OccurrenceEvolves(a: Occurrence, b: Occurrence) {
    && a.assignment == b.assignment && a.start == b.start && a.end == b.end
    && Rank(a.status) <= Rank(b.status)
    && (a.wasDelayed ==> b.wasDelayed)
    && (a.status == Completed ==> a == b)
  }

  ghost predicate AssignmentEvolves(a: Assignment, b: Assignment) {
    a.definition == b.definition && a.assignee == b.assignee && (!a.active ==> b == a)
  }

  ghost predicate DefinitionsEvolve(t: Tables, u: Tables) {
    && |t.definitions| <= |u.definitions|
    && forall d :: 0 <= d < |t.definitions| && WasAssigned(t, d) ==>
         u.definitions[d].frequency == t.definitions[d].frequency
  }

  /** Nothing is deleted; assigned definitions keep their frequency; ended assignments stay ended. */
  ghost predicate Evolves(t: Tables, u: Tables) {
    && u.calendar == t.calendar
    && DefinitionsEvolve(t, u)
    && |t.assignments| <= |u.assignments|
    && (forall a {:trigger AssignmentEvolves(t.assignments[a], u.assignments[a])} :: 0 <= a < |t.assignments| ==>
          AssignmentEvolves(t.assignments[a], u.assignments[a]))
    && |t.occurrences| <= |u.occurrences|
    && (forall k {:trigger OccurrenceEvolves(t.occurrences[k], u.occurrences[k])} :: 0 <= k < |t.occurrences| ==>
          OccurrenceEvolves(t.occurrences[k], u.occurrences[k]))
  }

  // ----- generation keeps the invariant -----

  /** A queued row is a pending period of the calendar of one of the first n works. */
  ghost predicate FromWork(works: seq<Work>, row: Occurrence, n: nat)
    requires n <= |works|
  {
    exists i :: 0 <= i < n && works[i].assignment == row.assignment
                && works[i].grid(row.start) == Span(row.start, row.end)
                && row.status == Backfill.Pending && !row.wasDelayed
  }

  lemma {:induction false} QueuedOnGrid(w: Work, table: seq<Occurrence>, upTo: int, k: nat)
    requires WorkOk(w) && k < |Queued(w, table, upTo)|
    ensures w.grid(Queued(w, table, upTo)[k].start) == Queued(w, table, upTo)[k]
  {
    var periods := Newest(w.grid, w.from, upTo);
    NewestIsExact(w.grid, w.from, upTo, upTo);
    var p := Missing(w, table, upTo)[k];
    assert p in Missing(w, table, upTo);
    var i :| 0 <= i < |periods| && periods[i] == p;
  }

  lemma {:induction false} RowsFromWork(works: seq<Work>, queues: seq<seq<Span>>, n: nat, k: nat)
    requires n <= |works| == |queues|
    requires forall i, j :: 0 <= i < n && 0 <= j < |queues[i]| ==> works[i].grid(queues[i][j].start) == queues[i][j]
    requires k < |RowsOf(works, queues, n)|
    ensures FromWork(works, RowsOf(works, queues, n)[k], n)
  {
    if n > 0 {
      var before := RowsOf(works, queues, n - 1);
      if k < |before| {
        RowsFromWork(works, queues, n - 1, k);
        var i :| 0 <= i < n - 1 && works[i].assignment == before[k].assignment
                 && works[i].grid(before[k].start) == Span(before[k].start, before[k].end)
                 && before[k].status == Backfill.Pending && !before[k].wasDelayed;
      } else {
        var j := k - |before|;
        assert RowsOf(works, queues, n)[k] == Row(works[n - 1].assignment, queues[n - 1][j]);
        assert works[n - 1].grid(queues[n - 1][j].start) == queues[n - 1][j];
      }
    }
  }

  lemma {:induction false} QueuedRowsFromWork(works: seq<Work>, table: seq<Occurrence>, upTo: int, k: nat)
    requires WorksOk(works) && k < |QueuedRows(works, table, upTo)|
    ensures FromWork(works, QueuedRows(works, table, upTo)[k], |works|)
  {
    var queues: seq<seq<Span>> := Queues(works, table, upTo);
    forall i: nat, j: nat | i < |works| && j < |queues[i]|
      ensures works[i].grid(queues[i][j].start) == queues[i][j]
    {
      QueuedOnGrid(works[i], table, upTo, j);
    }
    RowsFromWork(works, queues, |works|, k);
  }

  /** Generating keeps the invariant and only adds occurrences. */
  lemma {:induction false} GeneratedKeepsTables(t: Tables, live: set<nat>, scope: Scope, upTo: int)
    requires TablesOk(t)
    ensures var u := Generated(t, live, scope, upTo);
            && TablesOk(u)
            && u.definitions == t.definitions && u.assignments == t.assignments
            && |t.occurrences| <= |u.occurrences| && u.occurrences[..|t.occurrences|] == t.occurrences
  {
    var works := WorksOf(t, live, scope, |t.assignments|);
    WorksAreEligible(t, live, scope, |t.assignments|);
    EnsuredAppends(works, t.occurrences, upTo);
    InsertedIsUnion(t.occurrences, QueuedRows(works, t.occurrences, upTo));
    var rows := QueuedRows(works, t.occurrences, upTo);
    forall k | 0 <= k < |rows| ensures OccurrenceOk(t, rows[k]) {
      QueuedRowsFromWork(works, t.occurrences, upTo, k);
      RowFits(t, live, scope, rows[k]);
    }
    AppendedOk(t, rows);
  }

  lemma {:induction false} RowFits(t: Tables, live: set<nat>, scope: Scope, row: Occurrence)
    requires RefsOk(t)
    requires FromWork(WorksOf(t, live, scope, |t.assignments|), row, |WorksOf(t, live, scope, |t.assignments|)|)
    ensures OccurrenceOk(t, row)
  {
    var works := WorksOf(t, live, scope, |t.assignments|);
    WorksAreEligible(t, live, scope, |t.assignments|);
    var i :| 0 <= i < |works| && works[i].assignment == row.assignment
             && works[i].grid(row.start) == Span(row.start, row.end)
             && row.status == Backfill.Pending && !row.wasDelayed;
    assert works[i] == WorkFor(t, works[i].assignment);
  }

  lemma {:induction false} AppendedOk(t: Tables, rows: seq<Occurrence>)
    requires RefsOk(t) && OccurrencesOk(t)
    requires forall k :: 0 <= k < |rows| ==> OccurrenceOk(t, rows[k])
    ensures OccurrencesOk(t.(occurrences := t.occurrences + rows))
  {
    var u := t.(occurrences := t.occurrences + rows);
    forall k | 0 <= k < |u.occurrences| ensures OccurrenceOk(u, u.occurrences[k]) {
      if k < |t.occurrences| {
        assert OccurrenceOk(t, t.occurrences[k]);
      } else {
        assert OccurrenceOk(t, rows[k - |t.occurrences|]);
      }
    }
  }
}
