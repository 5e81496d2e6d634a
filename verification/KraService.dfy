/** The task service: its tables as fields, each operation as a method that performs one step of the model. */
module KraService {
  import opened Wrappers
  import opened Periods
  import opened Backfill
  import opened KraTasks
  import KraRuns

  function Known(existing: map<nat, set<int>>, assignment: nat): set<int> {
    if assignment in existing then existing[assignment] else {}
  }

  lemma {:induction false} ExistingNext(occurrences: seq<Occurrence>, i: nat, a: nat)
    requires i < |occurrences|
    ensures Existing(occurrences[..i + 1], a)
         == Existing(occurrences[..i], a) + if a == occurrences[i].assignment then {occurrences[i].start} else {}
  {
    var o := occurrences[i];
    assert occurrences[..i + 1] == occurrences[..i] + [o];
    ExistingAfter(occurrences[..i], [o], a);
    assert [o][0] == o;
  }

  /** existing: the period starts of every assignment that has any. */
  method ExistingStarts(occurrences: seq<Occurrence>) returns (existing: map<nat, set<int>>)
    ensures forall a: nat :: Known(existing, a) == Existing(occurrences, a)
  {
    existing := map[];
    for i := 0 to |occurrences|
      invariant forall a: nat :: Known(existing, a) == Existing(occurrences[..i], a)
    {
      var o := occurrences[i];
      var before := existing;
      existing := existing[o.assignment := Known(existing, o.assignment) + {o.start}];
      forall a: nat ensures Known(existing, a) == Existing(occurrences[..i + 1], a) {
        ExistingNext(occurrences, i, a);
        assert Known(before, a) == Existing(occurrences[..i], a);
      }
    }
    assert occurrences[..|occurrences|] == occurrences;
  }

  /** The inner loop of ensure_occurrences: queue missing periods until the limit. */
  method QueueMissing(periods: seq<Span>, done: set<int>) returns (queue: seq<Span>, capped: bool)
    ensures queue == Absent(periods, done)[..AtMost(|Absent(periods, done)|, MAX_PERIODS_PER_CALL)]
    ensures capped <==> |Absent(periods, done)| > MAX_PERIODS_PER_CALL
  {
    queue, capped := [], false;
    for i := 0 to |periods|
      invariant |queue| <= MAX_PERIODS_PER_CALL && !capped
      invariant Absent(periods, done) == queue + Absent(periods[i..], done)
    {
      AbsentFrom(periods, done, i);
      if periods[i].start in done {
        continue;
      }
      TakeMore(queue, periods[i], Absent(periods[i + 1..], done));
      if |queue| == MAX_PERIODS_PER_CALL {
        capped := true;
        return;
      }
      queue := queue + [periods[i]];
    }
    assert Absent(periods[|periods|..], done) == [];
  }

  lemma {:induction false} AbsentFrom(periods: seq<Span>, done: set<int>, i: nat)
    requires i < |periods|
    ensures Absent(periods[i..], done)
         == if periods[i].start in done then Absent(periods[i + 1..], done)
            else [periods[i]] + Absent(periods[i + 1..], done)
  {
    assert periods[i..][1..] == periods[i + 1..];
  }

  lemma {:induction false} TakeMore(queue: seq<Span>, p: Span, rest: seq<Span>)
    ensures queue + ([p] + rest) == (queue + [p]) + rest
    ensures (queue + ([p] + rest))[..|queue|] == queue
  {
  }

  /** The periods of one assignment, newest first, filtered by what exists. */
  method QueueFor(w: Work, ghost table: seq<Occurrence>, done: set<int>, upTo: int)
    returns (queue: seq<Span>, capped: bool)
    requires WorkOk(w) && done == Existing(table, w.assignment)
    ensures queue == Queued(w, table, upTo)
    ensures capped <==> |Missing(w, table, upTo)| > MAX_PERIODS_PER_CALL
  {
    var periods := PeriodsBack(w.grid, w.from, upTo);
    queue, capped := QueueMissing(periods, done);
  }

  /** The outer loop of ensure_occurrences. */
  method QueueAll(works: seq<Work>, table: seq<Occurrence>, upTo: int) returns (rows: seq<Occurrence>, capped: nat)
    requires WorksOk(works)
    ensures rows == QueuedRows(works, table, upTo)
    ensures capped == Capped(works, table, upTo, |works|)
  {
    var existing := ExistingStarts(table);
    ghost var queues := Queues(works, table, upTo);
    rows, capped := [], 0;
    for i := 0 to |works|
      invariant rows == RowsOf(works, queues, i)
      invariant capped == Capped(works, table, upTo, i)
    {
      var w := works[i];
      assert Known(existing, w.assignment) == Existing(table, w.assignment);
      var queue, more := QueueFor(w, table, Known(existing, w.assignment), upTo);
      rows := rows + Rows(w.assignment, queue);
      if more {
        capped := capped + 1;
      }
    }
  }

  class KraTaskService {
    const calendar: Frequency -> (int -> Span)
    var definitions: seq<Definition>
    var assignments: seq<Assignment>
    var occurrences: seq<Occurrence>

    function Now(): Tables
      reads this
    {
      Tables(calendar, definitions, assignments, occurrences)
    }

    constructor ()
      ensures Now() == KraRuns.Empty(KraRuns.GREGORIAN)
    {
      calendar := KraRuns.GREGORIAN;
      definitions, assignments, occurrences := [], [], [];
    }

    /** _insert_ignoring_conflicts, for occurrences; the count is what rowcount reports. */
    method InsertIgnoringConflicts(rows: seq<Occurrence>) returns (inserted: nat)
      modifies this`occurrences
      ensures occurrences == Inserted(old(occurrences), rows)
      ensures inserted == |occurrences| - |old(occurrences)|
    {
      inserted := 0;
      for i := 0 to |rows|
        invariant occurrences == Inserted(old(occurrences), rows[..i])
        invariant inserted == |occurrences| - |old(occurrences)|
      {
        assert rows[..i + 1][..i] == rows[..i];
        if !HasKey(occurrences, rows[i].assignment, rows[i].start) {
          occurrences := occurrences + [rows[i]];
          inserted := inserted + 1;
        }
      }
      assert rows[..|rows|] == rows;
    }

    method InsertBatches(rows: seq<Occurrence>) returns (created: nat)
      modifies this`occurrences
      ensures occurrences == Inserted(old(occurrences), rows)
      ensures created == |occurrences| - |old(occurrences)|
    {
      created := 0;
      var i := 0;
      while i < |rows|
        invariant 0 <= i <= |rows|
        invariant occurrences == Inserted(old(occurrences), rows[..i])
        invariant created == |occurrences| - |old(occurrences)|
      {
        var next := if i + INSERT_BATCH <= |rows| then i + INSERT_BATCH else |rows|;
        InsertedAppend(old(occurrences), rows[..i], rows[i..next]);
        assert rows[..i] + rows[i..next] == rows[..next];
        var inserted := InsertIgnoringConflicts(rows[i..next]);
        created := created + inserted;
        i := next;
      }
      assert rows[..|rows|] == rows;
    }

    /** ensure_occurrences: all rows are queued from one snapshot, then inserted in batches. */
    method EnsureOccurrences(live: set<nat>, scope: Scope, upTo: int) returns (created: nat, capped: nat)
      requires RefsOk(Now())
      modifies this`occurrences
      ensures Now() == Generated(old(Now()), live, scope, upTo)
      ensures created == |occurrences| - |old(occurrences)|
      ensures var works := WorksOf(old(Now()), live, scope, |old(assignments)|);
              WorksOk(works) && capped == Capped(works, old(occurrences), upTo, |works|)
    {
      var works := WorksOf(Now(), live, scope, |assignments|);
      WorksAreEligible(Now(), live, scope, |assignments|);
      var rows;
      rows, capped := QueueAll(works, occurrences, upTo);
      created := InsertBatches(rows);
    }

    /** update_definition */
    method Update(id: nat, frequency: Option<Frequency>, active: Option<bool>, live: set<nat>, today: int)
      returns (reply: Reply)
      requires RefsOk(Now())
      modifies this
      ensures (Now(), reply) == UpdateDefinition(old(Now()), id, frequency, active, live, today)
    {
      if id >= |definitions| || definitions[id].deleted {
        return NotFound;
      }
      if frequency.Some? && frequency.value != definitions[id].frequency && WasAssigned(Now(), id) {
        return FrequencyLocked;
      }
      if active == Some(false) && definitions[id].active {
        var created, capped := EnsureOccurrences(live, EVERYTHING.(definition := Some(id)), today);
      } else if active == Some(true) && !definitions[id].active {
        Restart(id, today);
      }
      definitions := definitions[id := Edited(definitions[id], frequency, active)];
      return Done;
    }

    /** Reactivation: for assignment in assignments, start_date = today. */
    method Restart(id: nat, today: int)
      modifies this`assignments
      ensures assignments == Restarted(old(assignments), id, today)
    {
      for i := 0 to |assignments|
        invariant |assignments| == |old(assignments)|
        invariant forall a :: 0 <= a < i ==> assignments[a] == Restarted(old(assignments), id, today)[a]
        invariant forall a :: i <= a < |assignments| ==> assignments[a] == old(assignments)[a]
      {
        if assignments[i].definition == id && assignments[i].active {
          assignments := assignments[i := assignments[i].(start := today)];
        }
      }
    }

    /** assign_users */
    method Assign(id: nat, users: seq<nat>, today: int, utcToday: int, live: set<nat>, allowed: set<nat>)
      returns (reply: Reply)
      modifies this`assignments
      ensures (Now(), reply) == AssignUsers(old(Now()), id, users, today, utcToday, live, allowed)
    {
      if today - utcToday > 1 || utcToday - today > 1 {
        return BadToday;
      }
      if id >= |definitions| || definitions[id].deleted {
        return NotFound;
      }
      if !definitions[id].active {
        return Inactive;
      }
      var wanted := Distinct(users);
      for i := 0 to |wanted|
        invariant forall j :: 0 <= j < i ==> wanted[j] in live
      {
        if wanted[i] !in live {
          return NotFound;
        }
      }
      for i := 0 to |wanted|
        invariant forall j :: 0 <= j < i ==> wanted[j] in allowed
      {
        if wanted[i] !in allowed {
          return Refused;
        }
      }
      var skipped: seq<nat> := [];
      var before := assignments;
      for i := 0 to |wanted|
        invariant assignments == AssignedUpTo(before, id, wanted, today, i)
        invariant skipped == Skipped(before, id, wanted, i)
      {
        if HasActive(before, id, wanted[i]) {
          skipped := skipped + [wanted[i]];
        } else {
          assignments := assignments + [Assignment(id, wanted[i], today, true)];
        }
      }
      return Assigned(skipped);
    }

    /** end_assignment */
    method End(id: nat, live: set<nat>, today: int) returns (reply: Reply)
      requires RefsOk(Now())
      modifies this
      ensures (Now(), reply) == EndAssignment(old(Now()), id, live, today)
    {
      if id >= |assignments| {
        return NotFound;
      }
      if !assignments[id].active {
        return AlreadyEnded;
      }
      var created, capped := EnsureOccurrences(live, EVERYTHING.(assignment := Some(id)), today);
      assignments := assignments[id := assignments[id].(active := false)];
      return Done;
    }

    /** _own_occurrence */
    method OwnOccurrence(caller: nat, o: nat) returns (error: Option<Reply>)
      requires TablesOk(Now())
      ensures error == OwnError(Now(), caller, o)
    {
      if o >= |occurrences| {
        return Some(NotFound);
      }
      assert OccurrenceOk(Now(), Now().occurrences[o]);
      return if assignments[occurrences[o].assignment].assignee != caller then Some(Refused) else None;
    }

    /** delay_occurrence */
    method Delay(caller: nat, o: nat) returns (reply: Reply)
      requires TablesOk(Now())
      modifies this`occurrences
      ensures (Now(), reply) == DelayOccurrence(old(Now()), caller, o)
    {
      var error := OwnOccurrence(caller, o);
      if error.Some? {
        return error.value;
      }
      if occurrences[o].status != Backfill.Pending {
        return AlreadyHandled;
      }
      occurrences := occurrences[o := occurrences[o].(status := Delayed, wasDelayed := true)];
      return Done;
    }

    /** complete_occurrence */
    method Complete(caller: nat, o: nat) returns (reply: Reply)
      requires TablesOk(Now())
      modifies this`occurrences
      ensures (Now(), reply) == CompleteOccurrence(old(Now()), caller, o)
    {
      var error := OwnOccurrence(caller, o);
      if error.Some? {
        return error.value;
      }
      if occurrences[o].status == Completed {
        return AlreadyHandled;
      }
      occurrences := occurrences[o := occurrences[o].(status := Completed)];
      return Done;
    }
  }
}
