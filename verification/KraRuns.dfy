/** Every run of the assigned-task operations: the invariant, the history, and what follows for the calendar. */
module KraRuns {
  import opened Wrappers
  import opened Periods
  import opened Backfill
  import opened KraTasks

  /** Same occurrences, and every assignment still has the calendar it had. */
  ghost predicate SameCalendars(t: Tables, u: Tables)
    requires RefsOk(t) && RefsOk(u)
  {
    && u.calendar == t.calendar
    && u.occurrences == t.occurrences
    && |t.assignments| <= |u.assignments|
    && forall a :: 0 <= a < |t.assignments| ==> FrequencyOf(u, a) == FrequencyOf(t, a)
  }

  lemma {:induction false} SameCalendarsKeepTables(t: Tables, u: Tables)
    requires TablesOk(t) && RefsOk(u) && SameCalendars(t, u) && OneActive(u.assignments)
    ensures TablesOk(u)
  {
    forall k | 0 <= k < |u.occurrences| ensures OccurrenceOk(u, u.occurrences[k]) {
      assert OccurrenceOk(t, t.occurrences[k]);
    }
  }

  ghost predicate StepOk(t: Tables, u: Tables) {
    TablesOk(u) && Evolves(t, u)
  }

  lemma {:induction false} GenerateStep(t: Tables, live: set<nat>, scope: Scope, upTo: int)
    requires TablesOk(t)
    ensures StepOk(t, Generated(t, live, scope, upTo))
  {
    GeneratedKeepsTables(t, live, scope, upTo);
    var u := Generated(t, live, scope, upTo);
    forall k | 0 <= k < |t.occurrences| ensures OccurrenceEvolves(t.occurrences[k], u.occurrences[k]) {
      assert u.occurrences[..|t.occurrences|][k] == u.occurrences[k];
    }
  }

  lemma {:induction false} CreateStep(t: Tables, d: Definition)
    requires TablesOk(t)
    ensures StepOk(t, t.(definitions := t.definitions + [d]))
  {
    SameCalendarsKeepTables(t, t.(definitions := t.definitions + [d]));
  }

  lemma {:induction false} RestartStep(t: Tables, id: nat, today: int)
    requires TablesOk(t)
    ensures StepOk(t, t.(assignments := Restarted(t.assignments, id, today)))
  {
    var after := Restarted(t.assignments, id, today);
    forall i, j | 0 <= i < j < |after| ensures !Clash(after[i], after[j]) {
      assert !Clash(t.assignments[i], t.assignments[j]);
    }
    SameCalendarsKeepTables(t, t.(assignments := after));
  }

  lemma {:induction false} PrepareStep(t: Tables, id: nat, active: Option<bool>, live: set<nat>, today: int)
    requires TablesOk(t) && id < |t.definitions|
    ensures StepOk(t, Prepared(t, id, active, live, today))
    ensures Prepared(t, id, active, live, today).definitions == t.definitions
    ensures var u := Prepared(t, id, active, live, today);
            |u.assignments| == |t.assignments|
            && forall a :: 0 <= a < |t.assignments| ==> u.assignments[a].definition == t.assignments[a].definition
  {
    if active == Some(false) && t.definitions[id].active {
      GenerateStep(t, live, EVERYTHING.(definition := Some(id)), today);
      GeneratedKeepsTables(t, live, EVERYTHING.(definition := Some(id)), today);
    } else if active == Some(true) && !t.definitions[id].active {
      RestartStep(t, id, today);
    }
  }

  /** Writing a definition's fields, its frequency only if it was never assigned. */
  lemma {:induction false} EditStep(t: Tables, id: nat, d: Definition)
    requires TablesOk(t) && id < |t.definitions|
    requires WasAssigned(t, id) ==> d.frequency == t.definitions[id].frequency
    ensures StepOk(t, t.(definitions := t.definitions[id := d]))
  {
    SameCalendarsKeepTables(t, t.(definitions := t.definitions[id := d]));
  }

  lemma {:induction false} EvolvesOn(t: Tables, u: Tables, v: Tables)
    requires Evolves(t, u) && Evolves(u, v)
    ensures Evolves(t, v)
  {
    forall d | 0 <= d < |t.definitions| && WasAssigned(t, d) ensures WasAssigned(u, d) {
      var a :| 0 <= a < |t.assignments| && t.assignments[a].definition == d;
      assert AssignmentEvolves(t.assignments[a], u.assignments[a]);
    }
    forall a | 0 <= a < |t.assignments| ensures AssignmentEvolves(t.assignments[a], v.assignments[a]) {
      assert AssignmentEvolves(t.assignments[a], u.assignments[a])
          && AssignmentEvolves(u.assignments[a], v.assignments[a]);
    }
    forall k | 0 <= k < |t.occurrences| ensures OccurrenceEvolves(t.occurrences[k], v.occurrences[k]) {
      assert OccurrenceEvolves(t.occurrences[k], u.occurrences[k])
          && OccurrenceEvolves(u.occurrences[k], v.occurrences[k]);
    }
  }

  lemma {:induction false} UpdateStep(t: Tables, id: nat, frequency: Option<Frequency>, active: Option<bool>,
                                      live: set<nat>, today: int)
    requires TablesOk(t)
    ensures StepOk(t, UpdateDefinition(t, id, frequency, active, live, today).0)
  {
    if UpdateDefinition(t, id, frequency, active, live, today).1 == Done {
      PrepareStep(t, id, active, live, today);
      var prepared := Prepared(t, id, active, live, today);
      assert WasAssigned(prepared, id) ==> WasAssigned(t, id);
      EditStep(prepared, id, Edited(t.definitions[id], frequency, active));
      EvolvesOn(t, prepared,
                prepared.(definitions := prepared.definitions[id := Edited(t.definitions[id], frequency, active)]));
    }
  }

  lemma {:induction false} ActiveAppended(assignments: seq<Assignment>, one: Assignment, definition: nat, user: nat)
    ensures HasActive(assignments + [one], definition, user) <==>
            HasActive(assignments, definition, user)
            || (one.active && one.definition == definition && one.assignee == user)
  {
    var all := assignments + [one];
    if HasActive(assignments, definition, user) {
      var a :| 0 <= a < |assignments| && assignments[a].active
               && assignments[a].definition == definition && assignments[a].assignee == user;
      assert all[a] == assignments[a];
    }
    assert all[|assignments|] == one;
  }

  /** Then exactly the users who had an active assignment, and the wanted ones, have one. */
  lemma {:induction false} WantedAreAssigned(assignments: seq<Assignment>, definition: nat, wanted: seq<nat>,
          today: int, n: nat, user: nat)
    requires n <= |wanted|
    ensures HasActive(AssignedUpTo(assignments, definition, wanted, today, n), definition, user) <==>
            HasActive(assignments, definition, user) || user in wanted[..n]
  {
    if n > 0 {
      WantedAreAssigned(assignments, definition, wanted, today, n - 1, user);
      assert wanted[..n] == wanted[..n - 1] + [wanted[n - 1]];
      ActiveAppended(AssignedUpTo(assignments, definition, wanted, today, n - 1),
                     Assignment(definition, wanted[n - 1], today, true), definition, user);
    }
  }

  /** Assigning adds one active assignment for each wanted user who had none, and nothing else. */
  lemma {:induction false} AssignedAre(assignments: seq<Assignment>, definition: nat, wanted: seq<nat>, today: int,
          n: nat)
    requires n <= |wanted| && OneActive(assignments)
    requires forall i, j :: 0 <= i < j < |wanted| ==> wanted[i] != wanted[j]
    ensures var u := AssignedUpTo(assignments, definition, wanted, today, n);
            && OneActive(u)
            && |assignments| <= |u| && u[..|assignments|] == assignments
            && (forall a :: |assignments| <= a < |u| ==>
                  u[a].definition == definition && u[a].active && u[a].start == today
                  && u[a].assignee in wanted[..n] && !HasActive(assignments, definition, u[a].assignee))
            && (forall user: nat :: HasActive(u, definition, user) <==>
                  HasActive(assignments, definition, user) || user in wanted[..n])
  {
    forall user: nat
      ensures HasActive(AssignedUpTo(assignments, definition, wanted, today, n), definition, user) <==>
              HasActive(assignments, definition, user) || user in wanted[..n]
    {
      WantedAreAssigned(assignments, definition, wanted, today, n, user);
    }
    if n > 0 {
      AssignedAre(assignments, definition, wanted, today, n - 1);
      var before := AssignedUpTo(assignments, definition, wanted, today, n - 1);
      assert wanted[..n] == wanted[..n - 1] + [wanted[n - 1]];
      if !HasActive(assignments, definition, wanted[n - 1]) {
        var one := Assignment(definition, wanted[n - 1], today, true);
        forall a | 0 <= a < |before| ensures !Clash(before[a], one) {
          assert a < |assignments| ==> before[..|assignments|][a] == assignments[a];
        }
        forall i, j | 0 <= i < j < |before + [one]| ensures !Clash((before + [one])[i], (before + [one])[j]) {
          assert j < |before| ==> !Clash(before[i], before[j]);
        }
      }
    }
  }

  lemma {:induction false} AssignStep(t: Tables, id: nat, users: seq<nat>, today: int, utcToday: int,
                                      live: set<nat>, allowed: set<nat>)
    requires TablesOk(t)
    ensures StepOk(t, AssignUsers(t, id, users, today, utcToday, live, allowed).0)
  {
    var (u, reply) := AssignUsers(t, id, users, today, utcToday, live, allowed);
    if reply.Assigned? {
      var wanted := Distinct(users);
      AssignedAre(t.assignments, id, wanted, today, |wanted|);
      forall a | 0 <= a < |t.assignments| ensures u.assignments[a] == t.assignments[a] {
        assert u.assignments[..|t.assignments|][a] == u.assignments[a];
      }
      SameCalendarsKeepTables(t, u);
    }
  }

  lemma {:induction false} CloseStep(t: Tables, id: nat)
    requires TablesOk(t) && id < |t.assignments|
    ensures StepOk(t, t.(assignments := t.assignments[id := t.assignments[id].(active := false)]))
  {
    SameCalendarsKeepTables(t, t.(assignments := t.assignments[id := t.assignments[id].(active := false)]));
  }

  lemma {:induction false} EndStep(t: Tables, id: nat, live: set<nat>, today: int)
    requires TablesOk(t)
    ensures StepOk(t, EndAssignment(t, id, live, today).0)
  {
    if EndAssignment(t, id, live, today).1 == Done {
      var scope := EVERYTHING.(assignment := Some(id));
      GenerateStep(t, live, scope, today);
      GeneratedKeepsTables(t, live, scope, today);
      var filled := Generated(t, live, scope, today);
      CloseStep(filled, id);
      EvolvesOn(t, filled, EndAssignment(t, id, live, today).0);
    }
  }

  /** Moving one occurrence forward. */
  lemma {:induction false} ProgressStep(t: Tables, o: nat, after: Occurrence)
    requires TablesOk(t) && o < |t.occurrences| && OccurrenceEvolves(t.occurrences[o], after)
    requires (after.status == Backfill.Pending ==> !after.wasDelayed) && (after.status == Delayed ==> after.wasDelayed)
    ensures StepOk(t, t.(occurrences := t.occurrences[o := after]))
  {
    var u := t.(occurrences := t.occurrences[o := after]);
    UniqueAfterUpdate(t.occurrences, o, after);
    assert OccurrenceOk(t, t.occurrences[o]);
    SamePeriodOk(t, t.occurrences[o], after);
    OccurrencesAfterUpdate(t, o, after);
    forall k | 0 <= k < |t.occurrences| ensures OccurrenceEvolves(t.occurrences[k], u.occurrences[k]) {
    }
  }

  lemma {:induction false} UniqueAfterUpdate(table: seq<Occurrence>, o: nat, after: Occurrence)
    requires Unique(table) && o < |table| && SameKey(table[o], after)
    ensures Unique(table[o := after])
  {
    var u := table[o := after];
    forall i, j | 0 <= i < j < |u| ensures !SameKey(u[i], u[j]) {
      assert !SameKey(table[i], table[j]);
    }
  }

  lemma {:induction false} OccurrencesAfterUpdate(t: Tables, o: nat, after: Occurrence)
    requires RefsOk(t) && OccurrencesOk(t) && o < |t.occurrences| && OccurrenceOk(t, after)
    ensures OccurrencesOk(t.(occurrences := t.occurrences[o := after]))
  {
    var u := t.(occurrences := t.occurrences[o := after]);
    forall k | 0 <= k < |u.occurrences| ensures OccurrenceOk(u, u.occurrences[k]) {
      assert OccurrenceOk(t, t.occurrences[k]);
    }
  }

  lemma {:induction false} SamePeriodOk(t: Tables, before: Occurrence, after: Occurrence)
    requires RefsOk(t) && OccurrenceOk(t, before)
    requires after.assignment == before.assignment && after.start == before.start && after.end == before.end
    requires (after.status == Backfill.Pending ==> !after.wasDelayed) && (after.status == Delayed ==> after.wasDelayed)
    ensures OccurrenceOk(t, after)
  {
  }

  // ----- runs -----

  datatype Event =
    | Creates(frequency: Frequency, property: nat)
    | Updates(id: nat, newFrequency: Option<Frequency>, active: Option<bool>)
    | Deletes(id: nat)
    | Assigns(id: nat, users: seq<nat>, today: int, allowed: set<nat>)
    | Ends(id: nat)
    | Generates(scope: Scope, upTo: int)
    | Delays(caller: nat, o: nat)
    | Completes(caller: nat, o: nat)

  /** An operation, the UTC date it happens on, and the users active then. */
  datatype Dated = Dated(utcToday: int, live: set<nat>, event: Event)

  ghost function Step(t: Tables, e: Dated): (Tables, Reply)
    requires TablesOk(t)
  {
    match e.event
    case Creates(frequency, property) =>
      (t.(definitions := t.definitions + [Definition(frequency, property, true, false)]), Done)
    case Updates(id, frequency, active) => UpdateDefinition(t, id, frequency, active, e.live, e.utcToday)
    case Deletes(id) =>
      if id < |t.definitions| then (t.(definitions := t.definitions[id := t.definitions[id].(deleted := true)]), Done)
      else (t, NotFound)
    case Assigns(id, users, today, allowed) => AssignUsers(t, id, users, today, e.utcToday, e.live, allowed)
    case Ends(id) => EndAssignment(t, id, e.live, e.utcToday)
    case Generates(scope, upTo) => (Generated(t, e.live, scope, upTo), Done)
    case Delays(caller, o) => DelayOccurrence(t, caller, o)
    case Completes(caller, o) => CompleteOccurrence(t, caller, o)
  }

  lemma {:induction false} DelayStep(t: Tables, caller: nat, o: nat)
    requires TablesOk(t)
    ensures StepOk(t, DelayOccurrence(t, caller, o).0)
  {
    if DelayOccurrence(t, caller, o).1 == Done {
      ProgressStep(t, o, t.occurrences[o].(status := Delayed, wasDelayed := true));
    } else {
      NothingMoves(t);
    }
  }

  lemma {:induction false} CompleteStep(t: Tables, caller: nat, o: nat)
    requires TablesOk(t)
    ensures StepOk(t, CompleteOccurrence(t, caller, o).0)
  {
    if CompleteOccurrence(t, caller, o).1 == Done {
      ProgressStep(t, o, t.occurrences[o].(status := Completed));
    } else {
      NothingMoves(t);
    }
  }

  lemma {:induction false} DefinitionStep(t: Tables, e: Dated)
    requires TablesOk(t) && (e.event.Creates? || e.event.Updates? || e.event.Deletes?)
    ensures StepOk(t, Step(t, e).0)
  {
    match e.event {
      case Creates(frequency, property) => CreateStep(t, Definition(frequency, property, true, false));
      case Updates(id, frequency, active) => UpdateStep(t, id, frequency, active, e.live, e.utcToday);
      case Deletes(id) =>
        if id < |t.definitions| {
          EditStep(t, id, t.definitions[id].(deleted := true));
        } else {
          NothingMoves(t);
        }
    }
  }

  lemma {:induction false} AssignmentStep(t: Tables, e: Dated)
    requires TablesOk(t) && (e.event.Assigns? || e.event.Ends? || e.event.Generates?)
    ensures StepOk(t, Step(t, e).0)
  {
    match e.event {
      case Assigns(id, users, today, allowed) => AssignStep(t, id, users, today, e.utcToday, e.live, allowed);
      case Ends(id) => EndStep(t, id, e.live, e.utcToday);
      case Generates(scope, upTo) => GenerateStep(t, e.live, scope, upTo);
    }
  }

  lemma {:induction false} OccurrenceStep(t: Tables, e: Dated)
    requires TablesOk(t) && (e.event.Delays? || e.event.Completes?)
    ensures StepOk(t, Step(t, e).0)
  {
    match e.event {
      case Delays(caller, o) => DelayStep(t, caller, o);
      case Completes(caller, o) => CompleteStep(t, caller, o);
    }
  }

  /** Every step keeps the invariant and the history. */
  lemma {:induction false} StepKeepsTables(t: Tables, e: Dated)
    requires TablesOk(t)
    ensures StepOk(t, Step(t, e).0)
  {
    if e.event.Creates? || e.event.Updates? || e.event.Deletes? {
      DefinitionStep(t, e);
    } else if e.event.Delays? || e.event.Completes? {
      OccurrenceStep(t, e);
    } else {
      AssignmentStep(t, e);
    }
  }

  /** The tables after a run: the invariant holds and nothing was lost on the way. */
  ghost function After(t: Tables, run: seq<Dated>): (u: Tables)
    requires TablesOk(t)
    ensures TablesOk(u) && Evolves(t, u)
  {
    if run == [] then
      NothingMoves(t);
      t
    else
      var before := After(t, run[..|run| - 1]);
      var last := run[|run| - 1];
      StepKeepsTables(before, last);
      EvolvesOn(t, before, Step(before, last).0);
      Step(before, last).0
  }

  /** A run of one event is its step, and a run after a run is the run of both. */
  lemma {:induction false} RunsCompose(t: Tables, x: seq<Dated>, y: seq<Dated>, e: Dated)
    requires TablesOk(t)
    ensures After(t, []) == t && After(t, [e]) == Step(t, e).0
    ensures After(t, x + y) == After(After(t, x), y)
  {
    assert [e][..0] == [];
    if y == [] {
      assert x + y == x;
    } else {
      RunsCompose(t, x, y[..|y| - 1], e);
      assert (x + y)[..|x + y| - 1] == x + y[..|y| - 1];
    }
  }

  lemma {:induction false} NothingMoves(t: Tables)
    ensures Evolves(t, t)
  {
  }

  ghost predicate CalendarOk(calendar: Frequency -> (int -> Span)) {
    forall f :: IsGrid(calendar(f))
  }

  function Empty(calendar: Frequency -> (int -> Span)): Tables {
    Tables(calendar, [], [], [])
  }

  /** In every reachable state the occurrences of one assignment are calendar periods that never overlap. */
  lemma {:induction false} OccurrencesAreDisjoint(t: Tables, i: nat, j: nat, day: int)
    requires TablesOk(t) && i < |t.occurrences| && j < |t.occurrences| && i != j
    requires t.occurrences[i].assignment == t.occurrences[j].assignment
    ensures OccurrenceOk(t, t.occurrences[i])
    ensures !(t.occurrences[i].start <= day <= t.occurrences[i].end
              && t.occurrences[j].start <= day <= t.occurrences[j].end)
  {
    var a, b := t.occurrences[i], t.occurrences[j];
    assert OccurrenceOk(t, a) && OccurrenceOk(t, b);
    assert if i < j then !SameKey(t.occurrences[i], t.occurrences[j]) else !SameKey(t.occurrences[j], t.occurrences[i]);
    DistinctSpansAreDisjoint(t.calendar(FrequencyOf(t, a.assignment)), a.start, b.start, day);
  }

  lemma {:induction false} DistinctSpansAreDisjoint(g: int -> Span, a: int, b: int, day: int)
    requires IsGrid(g) && g(a).start != g(b).start
    ensures !(g(a).start <= day <= g(a).end && g(b).start <= day <= g(b).end)
  {
    assert Tiles(g, a, day) && Tiles(g, b, day);
  }

  lemma {:induction false} ReachableAreDisjoint(calendar: Frequency -> (int -> Span), run: seq<Dated>, i: nat, j: nat,
          day: int)
    requires CalendarOk(calendar)
    requires var t := After(Empty(calendar), run);
             && i < |t.occurrences| && j < |t.occurrences| && i != j
             && t.occurrences[i].assignment == t.occurrences[j].assignment
    ensures var t := After(Empty(calendar), run);
            && OccurrenceOk(t, t.occurrences[i])
            && !(t.occurrences[i].start <= day <= t.occurrences[i].end
                 && t.occurrences[j].start <= day <= t.occurrences[j].end)
  {
    OccurrencesAreDisjoint(After(Empty(calendar), run), i, j, day);
  }

  // ----- no gap at the end -----

  /** No period from the start date to upTo is missing. */
  ghost predicate Complete(t: Tables, a: nat, upTo: int)
    requires RefsOk(t) && a < |t.assignments|
  {
    Missing(WorkFor(t, a), t.occurrences, upTo) == []
  }

  /** Complete means that every single day from the start date on lies in an occurrence. */
  lemma {:induction false} CompleteCoversEveryDay(t: Tables, a: nat, upTo: int, day: int) returns (k: nat)
    requires TablesOk(t) && a < |t.assignments| && Complete(t, a, upTo)
    requires t.assignments[a].start <= day <= upTo
    ensures k < |t.occurrences| && t.occurrences[k].assignment == a
    ensures t.occurrences[k].start <= day <= t.occurrences[k].end
  {
    var w := WorkFor(t, a);
    PreviousIsAdjacent(w.grid, day);
    NothingMissing(w, t.occurrences, upTo, day);
    k :| 0 <= k < |t.occurrences| && t.occurrences[k].assignment == a && t.occurrences[k].start == w.grid(day).start;
    assert OccurrenceOk(t, t.occurrences[k]);
  }

  /** How many missing periods of an assignment one call creates at most: none if the call skips it. */
  function Reach(t: Tables, live: set<nat>, scope: Scope, a: nat): nat
    requires RefsOk(t) && a < |t.assignments|
  {
    if Eligible(t, live, scope, a) then MAX_PERIODS_PER_CALL else 0
  }

  /** One generation call leaves an assignment complete exactly if no more periods were missing than it reaches. */
  lemma {:induction false} GeneratedCompletes(t: Tables, live: set<nat>, scope: Scope, upTo: int, a: nat)
    requires TablesOk(t) && a < |t.assignments|
    ensures var u := Generated(t, live, scope, upTo);
            && RefsOk(u)
            && (Complete(u, a, upTo) <==> |Missing(WorkFor(t, a), t.occurrences, upTo)| <= Reach(t, live, scope, a))
  {
    var works := WorksOf(t, live, scope, |t.assignments|);
    WorksAreEligible(t, live, scope, |t.assignments|);
    if Eligible(t, live, scope, a) {
      var i := EligibleIsListed(t, live, scope, |t.assignments|, a);
      CappedAreIncomplete(works, t.occurrences, upTo, i);
    } else {
      UnlistedStays(works, t.occurrences, upTo, WorkFor(t, a));
    }
  }

  /**
   Ending an assignment leaves no gap up to today exactly if at most 400 periods
   were missing, or none at all if its assignee or its definition is inactive.
   */
  lemma {:induction false} EndLeavesNoGap(t: Tables, id: nat, live: set<nat>, today: int)
    requires TablesOk(t) && id < |t.assignments| && t.assignments[id].active
    ensures var (u, reply) := EndAssignment(t, id, live, today);
            && reply == Done
            && RefsOk(u)
            && !u.assignments[id].active
            && (Complete(u, id, today) <==>
                  |Missing(WorkFor(t, id), t.occurrences, today)| <= Reach(t, live, EVERYTHING, id))
  {
    GeneratedCompletes(t, live, EVERYTHING.(assignment := Some(id)), today, id);
  }

  /** So does deactivating a definition, for each of its assignments, ended ones and skipped ones included. */
  lemma {:induction false} DeactivationLeavesNoGap(t: Tables, id: nat, live: set<nat>, today: int, a: nat)
    requires TablesOk(t) && id < |t.definitions| && !t.definitions[id].deleted
    requires a < |t.assignments| && t.assignments[a].definition == id
    ensures var (u, reply) := UpdateDefinition(t, id, None, Some(false), live, today);
            && reply == Done
            && RefsOk(u)
            && !u.definitions[id].active
            && (Complete(u, a, today) <==>
                  |Missing(WorkFor(t, a), t.occurrences, today)| <= Reach(t, live, EVERYTHING, a))
  {
    if t.definitions[id].active {
      GeneratedCompletes(t, live, EVERYTHING.(definition := Some(id)), today, a);
    }
  }

  /** After reactivation nothing that ended before that day is missing: the inactive gap is not missed work. */
  lemma {:induction false} ReactivationSkipsGap(t: Tables, id: nat, live: set<nat>, today: int, a: nat, upTo: int,
          p: Span)
    requires TablesOk(t) && id < |t.definitions| && !t.definitions[id].deleted && !t.definitions[id].active
    requires a < |t.assignments| && t.assignments[a].definition == id && t.assignments[a].active
    ensures var (u, reply) := UpdateDefinition(t, id, None, Some(true), live, today);
            && reply == Done
            && RefsOk(u)
            && u.definitions[id].active
            && (p in Missing(WorkFor(u, a), u.occurrences, upTo) ==> p.end >= today)
  {
    var u := UpdateDefinition(t, id, None, Some(true), live, today).0;
    var w := WorkFor(u, a);
    if p in Missing(w, u.occurrences, upTo) {
      ListedEndsAfterStart(w.grid, w.from, upTo, p);
    }
  }

  lemma {:induction false} ListedEndsAfterStart(g: int -> Span, from: int, upTo: int, p: Span)
    requires IsGrid(g) && p in Newest(g, from, upTo)
    ensures p.end >= from
  {
    NewestIsExact(g, from, upTo, p.start);
    var periods := Newest(g, from, upTo);
    var i :| 0 <= i < |periods| && periods[i] == p;
  }

  // ----- the Gregorian calendar -----

  const GREGORIAN: Frequency -> (int -> Span) := f => GridOf(f)

  /** The calendar that the source computes with qualifies, so all of the above holds of it. */
  lemma {:induction false} GregorianIsOk()
    ensures CalendarOk(GREGORIAN)
  {
    forall f ensures IsGrid(GREGORIAN(f)) {
      CalendarIsGrid(f);
    }
  }

  /** One daily task, given to user 0 on the day from, with nothing generated yet. */
  function NewDaily(from: int): Tables {
    Tables(GREGORIAN, [Definition(Daily, 0, true, false)], [Assignment(0, 0, from, true)], [])
  }

  lemma {:induction false} AbsentFromNone(periods: seq<Span>)
    ensures Absent(periods, {}) == periods
  {
    if periods != [] {
      AbsentFromNone(periods[1..]);
    }
  }

  lemma {:induction false} MissingOfNone(w: Work, upTo: int)
    requires WorkOk(w)
    ensures Missing(w, [], upTo) == Newest(w.grid, w.from, upTo)
  {
    assert Existing([], w.assignment) == {};
    AbsentFromNone(Newest(w.grid, w.from, upTo));
  }

  lemma {:induction false} NewDailyIsOk(from: int)
    ensures TablesOk(NewDaily(from)) && WorkFor(NewDaily(from), 0) == Work(0, GridOf(Daily), from)
  {
    GregorianIsOk();
  }

  lemma {:induction false} NewDailyMisses(from: int, today: int)
    requires from <= today
    ensures RefsOk(NewDaily(from)) && |Missing(WorkFor(NewDaily(from), 0), [], today)| == today - from + 1
  {
    NewDailyIsOk(from);
    MissingOfNone(Work(0, GridOf(Daily), from), today);
    NewestDaily(from, today);
  }

  /** Ended on its 401st day with nothing generated before, a daily task keeps a gap. */
  lemma {:induction false} LongIdleLeavesGap(from: int)
    ensures TablesOk(NewDaily(from))
    ensures var (u, reply) := EndAssignment(NewDaily(from), 0, {0}, from + MAX_PERIODS_PER_CALL);
            reply == Done && RefsOk(u) && !u.assignments[0].active && !Complete(u, 0, from + MAX_PERIODS_PER_CALL)
  {
    NewDailyIsOk(from);
    NewDailyMisses(from, from + MAX_PERIODS_PER_CALL);
    EndLeavesNoGap(NewDaily(from), 0, {0}, from + MAX_PERIODS_PER_CALL);
  }

  /** Ended after its assignee was deactivated, even a task with a single day missing keeps that gap. */
  lemma {:induction false} DeactivatedAssigneeLeavesGap(from: int)
    ensures TablesOk(NewDaily(from))
    ensures var (u, reply) := EndAssignment(NewDaily(from), 0, {}, from);
            && |Missing(WorkFor(NewDaily(from), 0), [], from)| == 1
            && reply == Done && RefsOk(u) && !u.assignments[0].active && !Complete(u, 0, from)
  {
    NewDailyIsOk(from);
    NewDailyMisses(from, from);
    EndLeavesNoGap(NewDaily(from), 0, {}, from);
  }
}
