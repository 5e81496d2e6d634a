/**
 The rooms table of one property and the SQL statements a room import runs on it.

 gen_random_uuid is modelled by a counter: all that matters of a new id is that
 no row has it. A statement that breaks a uniqueness constraint fails, and the
 savepoint around the run then restores the rows.
 */
module RoomTable {
  import opened Wrappers
  import opened RoomIndex
  import opened RoomPlan
  import opened RoomRules

  datatype Room = Room(id: nat, facts: Facts, kind: Option<string>)

  datatype Table = Table(rooms: seq<Room>, nextId: nat)

  datatype Violation = UniqueConstraintViolated

  datatype Counts = Counts(insert: nat, adopt: nat, update: nat, conflict: nat)

  datatype Summary =
    | Skipped
    | Synced(counts: Counts, conflicts: seq<(string, Reason)>)

  /** The planner's input: each row joined with the state of its integration. */
  function Load(rooms: seq<Room>, live: set<Integration>): (rows: seq<PlanRow>)
    ensures |rows| == |rooms|
  {
    seq(|rooms|, k requires 0 <= k < |rooms| =>
      PlanRow(Some(rooms[k].id), rooms[k].facts,
              rooms[k].facts.owner.Some? && rooms[k].facts.owner.value in live))
  }

  /** uq_room_number and uq_room_integration_external. */
  predicate ConstraintsHold(rooms: seq<Room>) {
    UniqueNumbers(Load(rooms, {})) && UniqueLinks(Load(rooms, {}))
  }

  ghost predicate TableOk(t: Table) {
    && ConstraintsHold(t.rooms)
    && (forall k :: 0 <= k < |t.rooms| ==> t.rooms[k].id < t.nextId)
    && (forall j, k :: 0 <= j < k < |t.rooms| ==> t.rooms[j].id != t.rooms[k].id)
  }

  function Coalesce(a: Option<string>, b: Option<string>): Option<string> {
    if a.Some? then a else b
  }

  /** UPDATE rooms ... WHERE id = :id; a NULL id matches no row. */
  function UpdateWhere(rooms: seq<Room>, id: Option<nat>, im: Importer, external: string, number: string,
                       kind: Option<string>): seq<Room>
  {
    seq(|rooms|, k requires 0 <= k < |rooms| =>
      if Some(rooms[k].id) == id then
        Room(rooms[k].id, Facts(number, rooms[k].facts.deleted, Some(im.me), Some(external)),
             Coalesce(kind, rooms[k].kind))
      else rooms[k])
  }

  /** The table a statement would leave if no constraint stopped it. */
  function Written(t: Table, im: Importer, a: Action): Table {
    match a
    case Insert(external, number, kind) =>
      Table(t.rooms + [Room(t.nextId, Facts(number, false, Some(im.me), Some(external)), kind)], t.nextId + 1)
    case Adopt(id, external, number, kind) =>
      t.(rooms := UpdateWhere(t.rooms, id, im, external, number, kind))
    case Update(id, external, number, kind) =>
      t.(rooms := UpdateWhere(t.rooms, id, im, external, number, kind))
    case Conflict(_, _, _) => t
  }

  function Exec(t: Table, im: Importer, a: Action): Result<Table, Violation> {
    var after := Written(t, im, a);
    if ConstraintsHold(after.rooms) then Success(after) else Failure(UniqueConstraintViolated)
  }

  /** The first i actions, stopping at the first statement that fails. */
  function ExecAll(t: Table, im: Importer, actions: seq<Action>, i: nat): Result<Table, Violation>
    requires i <= |actions|
  {
    if i == 0 then Success(t)
    else
      var before := ExecAll(t, im, actions, i - 1);
      if before.Failure? then before else Exec(before.value, im, actions[i - 1])
  }

  /** The same rooms on both sides, the first n under their own ids. */
  ghost predicate Mirrors(t: Table, rows: seq<PlanRow>, n: nat) {
    && n <= |rows| == |t.rooms|
    && (forall k :: 0 <= k < |rows| ==> t.rooms[k].facts == rows[k].facts)
    && (forall k :: 0 <= k < n ==> rows[k].id == Some(t.rooms[k].id))
  }

  lemma {:induction false} MirrorsKeepConstraints(t: Table, rows: seq<PlanRow>, n: nat)
    requires Mirrors(t, rows, n) && UniqueNumbers(rows) && UniqueLinks(rows)
    ensures ConstraintsHold(t.rooms)
  {
    var loaded := Load(t.rooms, {});
    assert forall k :: 0 <= k < |rows| ==> loaded[k].facts == rows[k].facts;
  }

  lemma {:induction false} UpdateHitsOne(t: Table, k: nat, im: Importer, external: string, number: string,
          kind: Option<string>)
    requires TableOk(t) && k < |t.rooms|
    ensures UpdateWhere(t.rooms, Some(t.rooms[k].id), im, external, number, kind) ==
            t.rooms[k := Room(t.rooms[k].id, Facts(number, t.rooms[k].facts.deleted, Some(im.me), Some(external)),
                              Coalesce(kind, t.rooms[k].kind))]
  {
  }

  lemma {:induction false} UpdateMirrors(t: Table, rows: seq<PlanRow>, n: nat, k: nat, im: Importer, external: string,
                      number: string, kind: Option<string>)
    requires TableOk(t) && Mirrors(t, rows, n) && k < n
    ensures var facts := Facts(number, rows[k].facts.deleted, Some(im.me), Some(external));
            Mirrors(t.(rooms := UpdateWhere(t.rooms, rows[k].id, im, external, number, kind)),
                    rows[k := rows[k].(facts := facts)], n)
  {
    UpdateHitsOne(t, k, im, external, number, kind);
  }

  /**
   The guard of the branches that fail: an id is linked only when no row has it,
   a row without an id is not renamed, and the row found still has the id.
   */
  ghost predicate SafeStep(rows: seq<PlanRow>, im: Importer, f: Wanted, found: Option<nat>)
    requires found.Some? ==> found.value < |rows|
  {
    var out := Decide(rows, im, f, found);
    match out.action
    case Insert(_, _, _) => Scan(rows, im, f.external).None?
    case Adopt(_, _, _, _) => Scan(rows, im, f.external).None?
    case Update(id, _, _, _) => if id.None? then out.rows == rows else HasLink(rows[found.value], im, f.external)
    case Conflict(_, _, _) => true
  }

  /** What the statement of a safe step writes is what the planner wrote in memory. */
  lemma {:induction false} SafeStepMirrors(t: Table, rows: seq<PlanRow>, im: Importer, n: nat, seen: set<string>,
          f: Wanted, found: Option<nat>)
    requires TableOk(t) && Mirrors(t, rows, n) && Planned(rows, im, n, seen)
    requires found.Some? ==> found.value < |rows|
    requires SafeStep(rows, im, f, found)
    ensures var out := Decide(rows, im, f, found);
            Mirrors(Written(t, im, out.action), out.rows, n)
  {
    var out := Decide(rows, im, f, found);
    if out.action.Update? {
      var k := found.value;
      if k < n {
        UpdateMirrors(t, rows, n, k, im, f.external, out.action.number, out.action.kind);
        assert out.rows == rows[k := rows[k].(facts :=
            Facts(out.action.number, rows[k].facts.deleted, Some(im.me), Some(f.external)))];
      } else {
        assert Inserted(rows[k], im, seen);
        assert UpdateWhere(t.rooms, None, im, f.external, out.action.number, out.action.kind) == t.rooms;
      }
    } else if out.action.Adopt? {
      var matches := Matches(rows, im, Key(im, f));
      assert matches[0] in matches;
      UpdateMirrors(t, rows, n, matches[0], im, f.external, out.action.number, out.action.kind);
    }
  }

  /** A safe step succeeds and table and planner stay in step. */
  lemma {:induction false} SafeStepExecutes(t: Table, rows: seq<PlanRow>, im: Importer, n: nat, seen: set<string>,
          f: Wanted, found: Option<nat>)
    requires TableOk(t) && Mirrors(t, rows, n) && Planned(rows, im, n, seen)
    requires found.Some? ==> found.value < |rows|
    requires SafeStep(rows, im, f, found)
    ensures var out := Decide(rows, im, f, found);
            var done := Exec(t, im, out.action);
            && done.Success? && TableOk(done.value) && Mirrors(done.value, out.rows, n)
            && Planned(out.rows, im, n, seen + {f.external})
  {
    var out := Decide(rows, im, f, found);
    SafeStepMirrors(t, rows, im, n, seen, f, found);
    if out.rows != rows {
      StepKeepsPlanned(rows, im, n, seen, f, found);
    }
    MirrorsKeepConstraints(Written(t, im, out.action), out.rows, n);
    WrittenKeepsIds(t, im, out.action);
  }

  /** With fresh, distinct ids a scan only takes safe steps. */
  lemma {:induction false} ScanIsSafe(rows: seq<PlanRow>, im: Importer, n: nat, seen: set<string>, f: Wanted)
    requires Planned(rows, im, n, seen) && f.external !in seen
    ensures SafeStep(rows, im, f, Scan(rows, im, f.external))
  {
    var found := Scan(rows, im, f.external);
    if found.Some? {
      assert !Inserted(rows[found.value], im, seen);
    }
  }

  lemma {:induction false} WrittenKeepsIds(t: Table, im: Importer, a: Action)
    requires TableOk(t) && ConstraintsHold(Written(t, im, a).rooms)
    ensures TableOk(Written(t, im, a))
  {
  }

  /** The first i statements succeed and leave the planner's rows. */
  ghost predicate Follows(t: Table, im: Importer, plan: Plan, i: nat)
    requires i <= |plan.actions|
  {
    var done := ExecAll(t, im, plan.actions, i);
    done.Success? && TableOk(done.value) && Mirrors(done.value, plan.rows, |t.rooms|)
  }

  lemma {:induction false} StepFollows(t: Table, im: Importer, plan: Plan, seen: set<string>, f: Wanted,
          found: Option<nat>)
    requires found.Some? ==> found.value < |plan.rows|
    requires Follows(t, im, plan, |plan.actions|) && Planned(plan.rows, im, |t.rooms|, seen)
    requires SafeStep(plan.rows, im, f, found)
    ensures var out := Decide(plan.rows, im, f, found);
            && Follows(t, im, Plan(out.rows, plan.actions + [out.action]), |plan.actions| + 1)
            && Planned(out.rows, im, |t.rooms|, seen + {f.external})
  {
    var out := Decide(plan.rows, im, f, found);
    var actions := plan.actions + [out.action];
    SameActionsSameResult(t, im, plan.actions, actions, |plan.actions|);
    SafeStepExecutes(ExecAll(t, im, plan.actions, |plan.actions|).value, plan.rows, im, |t.rooms|, seen, f, found);
  }

  /**
   Executing the planned actions breaks neither constraint at any prefix, and
   after each prefix the table is exactly the planner's rows.
   */
  lemma {:induction false} PlanRefinesTable(t: Table, live: set<Integration>, im: Importer, fetched: seq<Wanted>,
          i: nat)
    requires TableOk(t) && GoodFetch(fetched) && i <= |fetched|
    requires Loaded(Load(t.rooms, live), im)
    ensures Follows(t, im, ScanPlan(Load(t.rooms, live), im, fetched, i), i)
  {
    var start := Load(t.rooms, live);
    if i > 0 {
      PlanRefinesTable(t, live, im, fetched, i - 1);
      PlanKeepsPlanned(start, im, fetched, i - 1);
      var before := ScanPlan(start, im, fetched, i - 1);
      ScanIsSafe(before.rows, im, |t.rooms|, Seen(fetched, i - 1), fetched[i - 1]);
      StepFollows(t, im, before, Seen(fetched, i - 1), fetched[i - 1], Scan(before.rows, im, fetched[i - 1].external));
    }
  }

  lemma {:induction false} SameActionsSameResult(t: Table, im: Importer, a: seq<Action>, b: seq<Action>, i: nat)
    requires i <= |a| && i <= |b| && a[..i] == b[..i]
    ensures ExecAll(t, im, a, i) == ExecAll(t, im, b, i)
  {
    if i > 0 {
      assert a[..i - 1] == a[..i][..i - 1] == b[..i - 1];
      assert a[i - 1] == a[..i][i - 1] == b[i - 1];
      SameActionsSameResult(t, im, a, b, i - 1);
    }
  }

  /** Rows of a table that meets the constraints are fit for the planner, unless the run is skipped. */
  lemma {:induction false} LoadIsLoaded(t: Table, live: set<Integration>, im: Importer)
    requires TableOk(t) && im.me in live
    requires !OwnedByAnother(Load(t.rooms, live), im)
    ensures Loaded(Load(t.rooms, live), im)
  {
    var bare := Load(t.rooms, {});
    var rows := Load(t.rooms, live);
    assert forall k :: 0 <= k < |rows| ==> rows[k].facts == bare[k].facts;
  }

  /** Some room belongs to another integration that is live. */
  ghost predicate OthersRoom(rooms: seq<Room>, live: set<Integration>, im: Importer) {
    exists room :: room in rooms && room.facts.owner.Some? && room.facts.owner.value in live - {im.me}
  }

  /** A run is skipped exactly in that case. */
  lemma {:induction false} SkippedExactly(rooms: seq<Room>, live: set<Integration>, im: Importer)
    ensures OwnedByAnother(Load(rooms, live), im) <==> OthersRoom(rooms, live, im)
  {
    var rows := Load(rooms, live);
    if OthersRoom(rooms, live, im) {
      var room :| room in rooms && room.facts.owner.Some? && room.facts.owner.value in live - {im.me};
      var k :| 0 <= k < |rooms| && rooms[k] == room;
      assert rows[k].facts == room.facts && rows[k].ownerActive;
    }
  }

  // ----- one run over the table -----

  /** The table after one run of the integration; a skipped or failed run leaves it alone. */
  function SyncOnce(t: Table, live: set<Integration>, im: Importer, fetched: seq<Wanted>): Table {
    var existing := Load(t.rooms, live);
    if OwnedByAnother(existing, im) then t
    else
      var actions := IndexedPlan(existing, im, fetched, |fetched|).plan.actions;
      var done := ExecAll(t, im, actions, |actions|);
      if done.Success? then done.value else t
  }

  /** The actions of that run. */
  function ActionsOf(t: Table, live: set<Integration>, im: Importer, fetched: seq<Wanted>): seq<Action> {
    var existing := Load(t.rooms, live);
    if OwnedByAnother(existing, im) then []
    else IndexedPlan(existing, im, fetched, |fetched|).plan.actions
  }

  /** A run by a live integration always succeeds and ends in the planner's own rows. */
  lemma {:induction false} SyncRefinesPlan(t: Table, live: set<Integration>, im: Importer, fetched: seq<Wanted>)
    requires TableOk(t) && im.me in live && GoodFetch(fetched)
    ensures TableOk(SyncOnce(t, live, im, fetched))
    ensures !OwnedByAnother(Load(t.rooms, live), im) ==>
              var plan := ScanPlan(Load(t.rooms, live), im, fetched, |fetched|);
              && Loaded(Load(t.rooms, live), im)
              && ActionsOf(t, live, im, fetched) == plan.actions
              && ExecAll(t, im, plan.actions, |fetched|) == Success(SyncOnce(t, live, im, fetched))
              && Mirrors(SyncOnce(t, live, im, fetched), plan.rows, |t.rooms|)
  {
    var existing := Load(t.rooms, live);
    if !OwnedByAnother(existing, im) {
      LoadIsLoaded(t, live, im);
      IndexRefinesScan(existing, im, fetched, |fetched|);
      PlanRefinesTable(t, live, im, fetched, |fetched|);
    }
  }

  /** counts[a["action"]] += 1 */
  function Count(c: Counts, a: Action): Counts {
    match a
    case Insert(_, _, _) => c.(insert := c.insert + 1)
    case Adopt(_, _, _, _) => c.(adopt := c.adopt + 1)
    case Update(_, _, _, _) => c.(update := c.update + 1)
    case Conflict(_, _, _) => c.(conflict := c.conflict + 1)
  }

  function CountsOf(actions: seq<Action>, i: nat): (c: Counts)
    requires i <= |actions|
    ensures c.insert + c.adopt + c.update + c.conflict == i
  {
    if i == 0 then Counts(0, 0, 0, 0) else Count(CountsOf(actions, i - 1), actions[i - 1])
  }

  function ConflictsOf(actions: seq<Action>, i: nat): (conflicts: seq<(string, Reason)>)
    requires i <= |actions|
    ensures |conflicts| == CountsOf(actions, i).conflict
  {
    if i == 0 then []
    else
      var a := actions[i - 1];
      ConflictsOf(actions, i - 1) + if a.Conflict? then [(a.number, a.reason)] else []
  }

  /** The table as sync_rooms sees it, its statements run one by one. */
  class RoomStore {
    var rooms: seq<Room>
    var nextId: nat

    ghost function Now(): Table
      reads this
    {
      Table(rooms, nextId)
    }

    constructor (start: Table)
      ensures Now() == start
    {
      rooms, nextId := start.rooms, start.nextId;
    }

    method Execute(a: Action, im: Importer) returns (ok: bool)
      modifies this
      ensures ok == Exec(old(Now()), im, a).Success?
      ensures Now() == if ok then Exec(old(Now()), im, a).value else old(Now())
    {
      var after := Written(Table(rooms, nextId), im, a);
      ok := ConstraintsHold(after.rooms);
      if ok {
        rooms, nextId := after.rooms, after.nextId;
      }
    }

    /** The loop of sync_rooms: run and tally the actions; the first failure restores the rows. */
    method Apply(actions: seq<Action>, im: Importer)
      returns (ok: bool, counts: Counts, conflicts: seq<(string, Reason)>)
      modifies this
      ensures ok == ExecAll(old(Now()), im, actions, |actions|).Success?
      ensures Now() == if ok then ExecAll(old(Now()), im, actions, |actions|).value else old(Now())
      ensures ok ==> counts == CountsOf(actions, |actions|) && conflicts == ConflictsOf(actions, |actions|)
    {
      ghost var start := Now();
      var savedRooms, savedId := rooms, nextId;
      counts, conflicts := Counts(0, 0, 0, 0), [];
      for i := 0 to |actions|
        invariant ExecAll(start, im, actions, i) == Success(Now())
        invariant counts == CountsOf(actions, i) && conflicts == ConflictsOf(actions, i)
      {
        var a := actions[i];
        counts := Count(counts, a);
        if a.Conflict? {
          conflicts := conflicts + [(a.number, a.reason)];
        }
        ok := Execute(a, im);
        if !ok {
          FailureIsFinal(start, im, actions, i + 1, |actions|);
          rooms, nextId := savedRooms, savedId;
          return;
        }
      }
      ok := true;
    }

    /**
     sync_rooms. Whatever was fetched, the table moves as SyncOnce says and the
     summary tallies the actions; with non-empty, distinct ids fetched for a live
     integration no statement fails.
     */
    method SyncRooms(live: set<Integration>, im: Importer, fetched: seq<Fetched>)
      returns (result: Result<Summary, Violation>)
      modifies this
      ensures Now() == SyncOnce(old(Now()), live, im, ReadAll(fetched))
      ensures result == Success(Skipped) <==> OthersRoom(old(rooms), live, im)
      ensures result.Success? && result.value.Synced? ==>
                var actions := ActionsOf(old(Now()), live, im, ReadAll(fetched));
                && result.value.counts == CountsOf(actions, |actions|)
                && result.value.conflicts == ConflictsOf(actions, |actions|)
      ensures TableOk(old(Now())) && im.me in live && GoodFetch(ReadAll(fetched)) ==> result.Success? && TableOk(Now())
    {
      ghost var start := Now();
      SkippedExactly(start.rooms, live, im);
      if TableOk(start) && im.me in live && GoodFetch(ReadAll(fetched)) {
        SyncRefinesPlan(start, live, im, ReadAll(fetched));
      }
      var planned, actions, skipped := PlanRoomSync(Load(rooms, live), fetched, im);
      if skipped {
        return Success(Skipped);
      }
      var ok, counts, conflicts := Apply(actions, im);
      result := if ok then Success(Synced(counts, conflicts)) else Failure(UniqueConstraintViolated);
    }
  }

  lemma {:induction false} FailureIsFinal(t: Table, im: Importer, actions: seq<Action>, i: nat, j: nat)
    requires i <= j <= |actions| && ExecAll(t, im, actions, i).Failure?
    ensures ExecAll(t, im, actions, j).Failure?
  {
    if i < j {
      FailureIsFinal(t, im, actions, i, j - 1);
    }
  }
}
