/**
 Several integrations of one property syncing in any order: who can own its
 rooms, and which rows an action may touch. Nothing is asked of what was fetched.
 */
module RoomOwnership {
  import opened Wrappers
  import opened RoomText
  import opened RoomPlan
  import opened RoomTable

  /** All rooms owned by live integrations have the same owner. */
  ghost predicate OneLiveOwner(rooms: seq<Room>, live: set<Integration>) {
    forall j, k :: 0 <= j < |rooms| && 0 <= k < |rooms|
                   && LiveOwner(rooms[j], live) && LiveOwner(rooms[k], live) ==>
      rooms[j].facts.owner == rooms[k].facts.owner
  }

  ghost predicate LiveOwner(room: Room, live: set<Integration>) {
    room.facts.owner.Some? && room.facts.owner.value in live
  }

  /** Every room of after is one of before with its facts intact, or is owned by im. */
  ghost predicate OnlyMine(before: seq<Room>, after: seq<Room>, im: Importer) {
    forall k :: 0 <= k < |after| ==>
      after[k].facts.owner == Some(im.me) || (k < |before| && after[k].facts == before[k].facts)
  }

  lemma {:induction false} StatementsTakeOver(t: Table, im: Importer, actions: seq<Action>, i: nat)
    requires i <= |actions| && ExecAll(t, im, actions, i).Success?
    ensures |t.rooms| <= |ExecAll(t, im, actions, i).value.rooms|
    ensures OnlyMine(t.rooms, ExecAll(t, im, actions, i).value.rooms, im)
  {
    if i > 0 {
      StatementsTakeOver(t, im, actions, i - 1);
    }
  }

  datatype Run = Run(im: Importer, fetched: seq<Wanted>)

  function AfterRuns(t: Table, live: set<Integration>, runs: seq<Run>): Table {
    if runs == [] then t
    else
      var last := runs[|runs| - 1];
      SyncOnce(AfterRuns(t, live, runs[..|runs| - 1]), live, last.im, last.fetched)
  }

  /** One run is a sync, and runs after runs are the runs of both. */
  lemma {:induction false} RunsCompose(t: Table, live: set<Integration>, x: seq<Run>, y: seq<Run>, run: Run)
    ensures AfterRuns(t, live, []) == t && AfterRuns(t, live, [run]) == SyncOnce(t, live, run.im, run.fetched)
    ensures AfterRuns(t, live, x + y) == AfterRuns(AfterRuns(t, live, x), live, y)
  {
    assert [run][..0] == [];
    if y == [] {
      assert x + y == x;
    } else {
      RunsCompose(t, live, x, y[..|y| - 1], run);
      assert (x + y)[..|x + y| - 1] == x + y[..|y| - 1];
    }
  }

  lemma {:induction false} RunKeepsOneOwner(t: Table, live: set<Integration>, run: Run)
    requires OneLiveOwner(t.rooms, live)
    ensures OneLiveOwner(SyncOnce(t, live, run.im, run.fetched).rooms, live)
  {
    var existing := Load(t.rooms, live);
    var after := SyncOnce(t, live, run.im, run.fetched);
    if after != t {
      var actions := ActionsOf(t, live, run.im, run.fetched);
      StatementsTakeOver(t, run.im, actions, |actions|);
      forall k | 0 <= k < |after.rooms| && LiveOwner(after.rooms[k], live)
        ensures after.rooms[k].facts.owner == Some(run.im.me)
      {
        assert k < |existing| && after.rooms[k].facts == t.rooms[k].facts ==> existing[k].ownerActive;
      }
    }
  }

  /** However the integrations' runs are interleaved, at most one live integration owns rooms. */
  lemma {:induction false} OneOwnerAlways(t: Table, live: set<Integration>, runs: seq<Run>)
    requires OneLiveOwner(t.rooms, live)
    ensures OneLiveOwner(AfterRuns(t, live, runs).rooms, live)
  {
    if runs != [] {
      OneOwnerAlways(t, live, runs[..|runs| - 1]);
      RunKeepsOneOwner(AfterRuns(t, live, runs[..|runs| - 1]), live, runs[|runs| - 1]);
    }
  }

  /** Once an integration owns a room, a run of any other live integration changes nothing. */
  lemma {:induction false} OthersAreLockedOut(t: Table, live: set<Integration>, owner: Integration, run: Run)
    requires owner in live && owner != run.im.me
    requires exists room :: room in t.rooms && room.facts.owner == Some(owner)
    ensures SyncOnce(t, live, run.im, run.fetched) == t && ActionsOf(t, live, run.im, run.fetched) == []
  {
    var k :| 0 <= k < |t.rooms| && t.rooms[k].facts.owner == Some(owner);
    assert Load(t.rooms, live)[k].ownerActive;
  }

  // ----- the rows an action may touch -----

  /** The id an UPDATE statement names. */
  function TargetOf(a: Action): Option<nat> {
    match a
    case Adopt(id, _, _, _) => id
    case Update(id, _, _, _) => id
    case Insert(_, _, _) => None
    case Conflict(_, _, _) => None
  }

  ghost predicate SafeTarget(start: seq<PlanRow>, a: Action) {
    TargetOf(a).Some? ==>
      exists k :: 0 <= k < |start| && start[k].id == TargetOf(a) && !start[k].facts.deleted
  }

  /** The planner never changes an id or a deletion mark, and its own inserts have no id. */
  ghost predicate SameIdentity(start: seq<PlanRow>, rows: seq<PlanRow>) {
    && |start| <= |rows|
    && (forall k :: 0 <= k < |start| ==>
          rows[k].id == start[k].id && rows[k].facts.deleted == start[k].facts.deleted)
    && (forall k :: |start| <= k < |rows| ==> rows[k].id.None?)
  }

  lemma {:induction false} StepTargetsSafely(start: seq<PlanRow>, rows: seq<PlanRow>, im: Importer, f: Wanted,
          found: Option<nat>)
    requires SameIdentity(start, rows)
    requires found.Some? ==> found.value < |rows|
    ensures SameIdentity(start, Decide(rows, im, f, found).rows)
    ensures SafeTarget(start, Decide(rows, im, f, found).action)
  {
    var out := Decide(rows, im, f, found);
    var matches := Matches(rows, im, Key(im, f));
    if matches != [] {
      assert matches[0] in matches;
    }
    if TargetOf(out.action).Some? {
      var k := if found.Some? then found.value else matches[0];
      assert start[k].id == TargetOf(out.action) && !start[k].facts.deleted;
    }
  }

  lemma {:induction false} PlanTargetsSafely(start: seq<PlanRow>, im: Importer, fetched: seq<Wanted>, i: nat)
    requires i <= |fetched|
    ensures var p := IndexedPlan(start, im, fetched, i).plan;
            SameIdentity(start, p.rows) && forall j :: 0 <= j < i ==> SafeTarget(start, p.actions[j])
  {
    if i > 0 {
      PlanTargetsSafely(start, im, fetched, i - 1);
      var before := IndexedPlan(start, im, fetched, i - 1);
      StepTargetsSafely(start, before.plan.rows, im, fetched[i - 1], Lookup(before.index, fetched[i - 1].external));
    }
  }

  /** No action names a soft-deleted room or a room of another live integration. */
  lemma {:induction false} ActionsTargetSafely(t: Table, live: set<Integration>, run: Run, a: Action)
    requires a in ActionsOf(t, live, run.im, run.fetched) && TargetOf(a).Some?
    ensures exists room :: room in t.rooms && Some(room.id) == TargetOf(a) && !room.facts.deleted
                           && (LiveOwner(room, live) ==> room.facts.owner == Some(run.im.me))
  {
    var start := Load(t.rooms, live);
    PlanTargetsSafely(start, run.im, run.fetched, |run.fetched|);
    assert SafeTarget(start, a);
    var k :| 0 <= k < |start| && start[k].id == TargetOf(a) && !start[k].facts.deleted;
    var room := t.rooms[k];
    assert room in t.rooms && !OwnedByAnother(start, run.im);
  }

  // ----- where the guarantees stop -----

  const ME: Integration := 1

  const IM := ImporterFor(ME)

  /**
   An external id fetched twice: the room inserted for it has no id yet, so the
   rename that follows is written nowhere and the table keeps the first number.
   */
  lemma {:induction false} RepeatedIdDiverges()
    ensures var fetched := [Wanted("x", "1", None), Wanted("x", "2", None)];
            var plan := IndexedPlan([], IM, fetched, 2).plan;
            var done := ExecAll(Table([], 0), IM, plan.actions, 2);
            && plan.actions[1] == Update(None, "x", "2", None)
            && plan.rows[0].facts.number == "2"
            && done == Success(Table([Room(0, Facts("1", false, Some(ME), Some("x")), None)], 1))
  {
    var fetched := [Wanted("x", "1", None), Wanted("x", "2", None)];
    assert Norm("1") == "1" && Norm("2") == "2";
    var first := IndexedPlan([], IM, fetched, 1);
    assert first.plan.actions == [Insert("x", "1", None)];
    var second := IndexedPlan([], IM, fetched, 2);
    assert second.plan.actions == [Insert("x", "1", None), Update(None, "x", "2", None)];
    var inserted := Table([Room(0, Facts("1", false, Some(ME), Some("x")), None)], 1);
    assert Written(Table([], 0), IM, Insert("x", "1", None)) == inserted;
    assert ConstraintsHold(inserted.rooms);
    assert ExecAll(Table([], 0), IM, second.plan.actions, 0) == Success(Table([], 0));
    assert ExecAll(Table([], 0), IM, second.plan.actions, 1) == Success(inserted);
    assert Written(inserted, IM, Update(None, "x", "2", None)) == inserted;
  }

  const EMPTY_ID := Table([Room(0, Facts("1", false, Some(ME), Some("")), None)], 1)

  lemma {:induction false} EmptyIdIsInserted()
    ensures ActionsOf(EMPTY_ID, {ME}, IM, [Wanted("", "2", None)]) == [Insert("", "2", None)]
  {
    var rows := Load(EMPTY_ID.rooms, {ME});
    assert Norm("1") == "1" && Norm("2") == "2";
    assert rows == [PlanRow(Some(0), Facts("1", false, Some(ME), Some("")), true)];
    assert InitialIndex(rows, IM, 1) == map[];
    assert IM.norm("1") == "1" && IM.norm("2") == "2";
    assert MatchesBelow(rows, IM, "2", 0) == [];
    assert Matches(rows, IM, "2") == [];
    var fetched := [Wanted("", "2", None)];
    assert IndexedPlan(rows, IM, fetched, 1).plan.actions == [Insert("", "2", None)];
  }

  /** An empty external id is not indexed, so a room synced under it is inserted again and the run fails. */
  lemma {:induction false} EmptyIdFails()
    ensures var actions := ActionsOf(EMPTY_ID, {ME}, IM, [Wanted("", "2", None)]);
            TableOk(EMPTY_ID) && actions == [Insert("", "2", None)] && ExecAll(EMPTY_ID, IM, actions, 1).Failure?
  {
    EmptyIdIsInserted();
    var after := Written(EMPTY_ID, IM, Insert("", "2", None));
    assert SameLink(Load(after.rooms, {})[0].facts, Load(after.rooms, {})[1].facts);
  }

  /** Two fetched rooms of one number both adopt the same unowned room; the last one keeps it. */
  lemma {:induction false} SameNumberAdoptsTwice()
    ensures var rows := [PlanRow(Some(7), Facts("1", false, None, None), false)];
            var fetched := [Wanted("x", "1", None), Wanted("y", "1", None)];
            var actions := IndexedPlan(rows, IM, fetched, 2).plan.actions;
            actions == [Adopt(Some(7), "x", "1", None), Adopt(Some(7), "y", "1", None)]
  {
    var rows := [PlanRow(Some(7), Facts("1", false, None, None), false)];
    var fetched := [Wanted("x", "1", None), Wanted("y", "1", None)];
    assert Norm("1") == "1";
    assert IM.norm("1") == "1";
    assert MatchesBelow(rows, IM, "1", 0) == [];
    assert Matches(rows, IM, "1") == [0];
    var adopted := [PlanRow(Some(7), Facts("1", false, Some(ME), Some("x")), false)];
    assert IndexedPlan(rows, IM, fetched, 1).plan.rows == adopted;
    assert MatchesBelow(adopted, IM, "1", 0) == [];
    assert Matches(adopted, IM, "1") == [0];
  }
}
