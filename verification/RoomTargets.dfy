/**
 Which rows one run writes more than once. A row adopted in a run keeps the
 activity flag it was loaded with, so a later fetched room of the same number
 adopts it again; no other row is named twice.
 */
module RoomTargets {
  import opened Wrappers
  import opened RoomIndex
  import opened RoomOwnership
  import opened RoomPlan
  import opened RoomRules
  import opened RoomTable

  /** What loading adds to Loaded: every row has its own id, and a row without an owner has no active one. */
  ghost predicate FromTable(start: seq<PlanRow>, im: Importer) {
    && Loaded(start, im)
    && (forall j, k :: 0 <= j < k < |start| ==> start[j].id != start[k].id)
    && OwnerlessInactive(start)
  }

  ghost predicate OwnerlessInactive(rows: seq<PlanRow>) {
    forall k :: 0 <= k < |rows| && rows[k].facts.owner.None? ==> !rows[k].ownerActive
  }

  lemma {:induction false} LoadIsFromTable(t: Table, live: set<Integration>, im: Importer)
    requires TableOk(t) && im.me in live && !OwnedByAnother(Load(t.rooms, live), im)
    ensures FromTable(Load(t.rooms, live), im)
  {
    LoadIsLoaded(t, live, im);
  }

  // ----- one step -----

  /** The rows a run has reached; on top of Planned, a row without an owner has no active one. */
  ghost predicate Reached(start: seq<PlanRow>, rows: seq<PlanRow>, im: Importer, seen: set<string>) {
    && Planned(rows, im, |start|, seen)
    && SameIdentity(start, rows)
    && OwnerlessInactive(rows)
  }

  lemma {:induction false} StepKeepsOwnerless(rows: seq<PlanRow>, im: Importer, f: Wanted)
    requires OwnerlessInactive(rows)
    ensures OwnerlessInactive(ScanStep(rows, im, f).rows)
  {
    var matches := Matches(rows, im, Key(im, f));
    if matches != [] {
      assert matches[0] in matches;
    }
  }

  lemma {:induction false} StepKeepsReached(start: seq<PlanRow>, rows: seq<PlanRow>, im: Importer, seen: set<string>,
                                            f: Wanted)
    requires Reached(start, rows, im, seen)
    ensures Reached(start, ScanStep(rows, im, f).rows, im, seen + {f.external})
  {
    StepKeepsPlanned(rows, im, |start|, seen, f, Scan(rows, im, f.external));
    StepTargetsSafely(start, rows, im, f, Scan(rows, im, f.external));
    StepKeepsOwnerless(rows, im, f);
  }

  /** The step for f writes row r. */
  ghost predicate Writes(rows: seq<PlanRow>, im: Importer, f: Wanted, r: nat)
    requires r < |rows|
  {
    var action := ScanStep(rows, im, f).action;
    && (action.Adopt? || action.Update?)
    && (action.Adopt? ==> OnlyMatch(rows, im, r, Key(im, f)) && FreeToAdopt(rows[r]))
    && (action.Update? ==> Scan(rows, im, f.external) == Some(r))
    && TargetOf(action) == rows[r].id
  }

  /** A step that names an id writes the one loaded row of that id. */
  lemma {:induction false} TargetIsWritten(start: seq<PlanRow>, rows: seq<PlanRow>, im: Importer, seen: set<string>,
                                           f: Wanted) returns (r: nat)
    requires Reached(start, rows, im, seen) && TargetOf(ScanStep(rows, im, f).action).Some?
    ensures r < |start| && Writes(rows, im, f, r)
  {
    if ScanStep(rows, im, f).action.Adopt? {
      OneMatchIsOnly(rows, im, Key(im, f));
      r := Matches(rows, im, Key(im, f))[0];
    } else {
      r := Scan(rows, im, f.external).value;
    }
  }

  // ----- a row adopted in this run -----

  /** Row r is the only one with this key, linked in this run, but its owner still counts as inactive. */
  ghost predicate Held(rows: seq<PlanRow>, im: Importer, r: nat, key: string) {
    && r < |rows|
    && OnlyMatch(rows, im, r, key)
    && !rows[r].facts.deleted
    && rows[r].facts.owner == Some(im.me)
    && !rows[r].ownerActive
  }

  lemma {:induction false} AdoptedIsHeld(start: seq<PlanRow>, rows: seq<PlanRow>, im: Importer, seen: set<string>,
                                         f: Wanted, r: nat)
    requires Reached(start, rows, im, seen) && r < |rows|
    requires ScanStep(rows, im, f).action.Adopt? && Writes(rows, im, f, r)
    ensures Held(ScanStep(rows, im, f).rows, im, r, Key(im, f))
  {
    OneMatchIsOnly(rows, im, Key(im, f));
    assert Matches(rows, im, Key(im, f))[0] == r;
  }

  lemma {:induction false} HeldStays(start: seq<PlanRow>, rows: seq<PlanRow>, im: Importer, seen: set<string>,
          f: Wanted, r: nat, key: string)
    requires Reached(start, rows, im, seen) && f.external !in seen && Held(rows, im, r, key)
    ensures Held(ScanStep(rows, im, f).rows, im, r, key)
  {
    var found := Scan(rows, im, f.external);
    var matches := Matches(rows, im, Key(im, f));
    if matches != [] {
      assert matches[0] in matches;
    }
    if found.Some? {
      assert found.value != r;
      assert Key(im, f) == key ==> UsedByOther(rows, im, found.value, key);
    } else if Key(im, f) == key {
      assert r in matches;
    }
  }

  /** A held row is written by exactly the rooms of its number whose id no row has. */
  lemma {:induction false} HeldIsAdoptedAgain(start: seq<PlanRow>, rows: seq<PlanRow>, im: Importer, seen: set<string>,
                                              f: Wanted, r: nat, key: string)
    requires Reached(start, rows, im, seen) && f.external !in seen && Held(rows, im, r, key)
    ensures Writes(rows, im, f, r) <==>
            GoodName(f) && Key(im, f) == key && Scan(rows, im, f.external).None?
    ensures Writes(rows, im, f, r) ==> ScanStep(rows, im, f).action.Adopt?
  {
    OneMatchIsOnly(rows, im, key);
    var matches := Matches(rows, im, key);
    assert r in matches && matches[0] == r;
  }

  // ----- a row updated in this run -----

  /** Row r was linked to a room that has been handled, its owner being active. */
  ghost predicate Refreshed(rows: seq<PlanRow>, im: Importer, r: nat, seen: set<string>) {
    && r < |rows|
    && rows[r].facts.owner == Some(im.me)
    && rows[r].ownerActive
    && rows[r].facts.external.Some?
    && rows[r].facts.external.value in seen
  }

  lemma {:induction false} UpdatedIsRefreshed(start: seq<PlanRow>, rows: seq<PlanRow>, im: Importer, seen: set<string>,
                                            f: Wanted, r: nat)
    requires Reached(start, rows, im, seen) && f.external !in seen && r < |rows|
    requires ScanStep(rows, im, f).action.Update? && Writes(rows, im, f, r)
    ensures Refreshed(ScanStep(rows, im, f).rows, im, r, seen + {f.external})
  {
    assert HasLink(rows[r], im, f.external);
  }

  lemma {:induction false} RefreshedStays(start: seq<PlanRow>, rows: seq<PlanRow>, im: Importer, seen: set<string>,
                                        f: Wanted, r: nat)
    requires Reached(start, rows, im, seen) && f.external !in seen && Refreshed(rows, im, r, seen)
    ensures Refreshed(ScanStep(rows, im, f).rows, im, r, seen + {f.external}) && !Writes(rows, im, f, r)
  {
    var matches := Matches(rows, im, Key(im, f));
    if matches != [] {
      assert matches[0] in matches;
    }
  }

  // ----- a whole run -----

  lemma {:induction false} PlanReaches(start: seq<PlanRow>, im: Importer, fetched: seq<Wanted>, i: nat)
    requires FromTable(start, im) && i <= |fetched|
    ensures Reached(start, RowsAt(start, im, fetched, i), im, Seen(fetched, i))
  {
    if i > 0 {
      PlanReaches(start, im, fetched, i - 1);
      StepKeepsReached(start, RowsAt(start, im, fetched, i - 1), im, Seen(fetched, i - 1), fetched[i - 1]);
    }
  }

  /** The action of step i is the one in the finished plan. */
  lemma {:induction false} ActionOfStep(start: seq<PlanRow>, im: Importer, fetched: seq<Wanted>, i: nat, n: nat)
    requires i < n <= |fetched|
    ensures ScanPlan(start, im, fetched, n).actions[i] == ScanStep(RowsAt(start, im, fetched, i), im, fetched[i]).action
  {
    if i < n - 1 {
      ActionOfStep(start, im, fetched, i, n - 1);
    }
  }

  /** The ids still to come are linked as they were at the start. */
  lemma {:induction false} LinksStay(start: seq<PlanRow>, im: Importer, fetched: seq<Wanted>, i: nat, j: nat)
    requires FromTable(start, im) && GoodFetch(fetched) && i <= j < |fetched|
    ensures Scan(RowsAt(start, im, fetched, i), im, fetched[j].external) == Scan(start, im, fetched[j].external)
  {
    if i > 0 {
      LinksStay(start, im, fetched, i - 1, j);
      PlanReaches(start, im, fetched, i - 1);
      StepKeepsOtherLinks(RowsAt(start, im, fetched, i - 1), im, |start|, Seen(fetched, i - 1), fetched[i - 1],
                          fetched[j].external);
    }
  }

  lemma {:induction false} RowsNext(start: seq<PlanRow>, im: Importer, fetched: seq<Wanted>, i: nat)
    requires i < |fetched|
    ensures RowsAt(start, im, fetched, i + 1) == ScanStep(RowsAt(start, im, fetched, i), im, fetched[i]).rows
  {
  }

  lemma {:induction false} HeldFromThenOn(start: seq<PlanRow>, im: Importer, fetched: seq<Wanted>, i: nat, j: nat,
                                          r: nat, key: string)
    requires FromTable(start, im) && GoodFetch(fetched) && i <= j <= |fetched|
    requires Held(RowsAt(start, im, fetched, i), im, r, key)
    ensures Held(RowsAt(start, im, fetched, j), im, r, key)
  {
    if i < j {
      HeldFromThenOn(start, im, fetched, i, j - 1, r, key);
      PlanReaches(start, im, fetched, j - 1);
      RowsNext(start, im, fetched, j - 1);
      HeldStays(start, RowsAt(start, im, fetched, j - 1), im, Seen(fetched, j - 1), fetched[j - 1], r, key);
    }
  }

  lemma {:induction false} RefreshedFromThenOn(start: seq<PlanRow>, im: Importer, fetched: seq<Wanted>, i: nat, j: nat,
                                             r: nat)
    requires FromTable(start, im) && GoodFetch(fetched) && i <= j <= |fetched|
    requires Refreshed(RowsAt(start, im, fetched, i), im, r, Seen(fetched, i))
    ensures Refreshed(RowsAt(start, im, fetched, j), im, r, Seen(fetched, j))
  {
    if i < j {
      RefreshedFromThenOn(start, im, fetched, i, j - 1, r);
      PlanReaches(start, im, fetched, j - 1);
      RowsNext(start, im, fetched, j - 1);
      RefreshedStays(start, RowsAt(start, im, fetched, j - 1), im, Seen(fetched, j - 1), fetched[j - 1], r);
    }
  }

  /** Step i adopts a row, and room j has the same number and an id that no loaded row has. */
  ghost predicate AdoptsAgain(start: seq<PlanRow>, im: Importer, fetched: seq<Wanted>, i: nat, j: nat)
    requires i < |fetched| && j < |fetched|
  {
    && ScanPlan(start, im, fetched, |fetched|).actions[i].Adopt?
    && GoodName(fetched[j])
    && Key(im, fetched[j]) == Key(im, fetched[i])
    && Scan(start, im, fetched[j].external).None?
  }

  predicate SameTarget(a: Action, b: Action) {
    TargetOf(a).Some? && TargetOf(a) == TargetOf(b)
  }

  /** After step i wrote row r, step j writes it again exactly in the case above. */
  lemma {:induction false} WrittenAgainExactly(start: seq<PlanRow>, im: Importer, fetched: seq<Wanted>, i: nat, j: nat,
                                               r: nat)
    requires FromTable(start, im) && GoodFetch(fetched) && i < j < |fetched|
    requires r < |start| <= |RowsAt(start, im, fetched, i)| && Writes(RowsAt(start, im, fetched, i), im, fetched[i], r)
    ensures r < |RowsAt(start, im, fetched, j)|
    ensures Writes(RowsAt(start, im, fetched, j), im, fetched[j], r) <==> AdoptsAgain(start, im, fetched, i, j)
    ensures AdoptsAgain(start, im, fetched, i, j) ==> ScanPlan(start, im, fetched, |fetched|).actions[j].Adopt?
  {
    var rows, seen := RowsAt(start, im, fetched, j), Seen(fetched, j);
    PlanReaches(start, im, fetched, i);
    PlanReaches(start, im, fetched, j);
    ActionOfStep(start, im, fetched, i, |fetched|);
    ActionOfStep(start, im, fetched, j, |fetched|);
    RowsNext(start, im, fetched, i);
    if ScanPlan(start, im, fetched, |fetched|).actions[i].Adopt? {
      AdoptedIsHeld(start, RowsAt(start, im, fetched, i), im, Seen(fetched, i), fetched[i], r);
      HeldFromThenOn(start, im, fetched, i + 1, j, r, Key(im, fetched[i]));
      HeldIsAdoptedAgain(start, rows, im, seen, fetched[j], r, Key(im, fetched[i]));
      LinksStay(start, im, fetched, j, j);
    } else {
      UpdatedIsRefreshed(start, RowsAt(start, im, fetched, i), im, Seen(fetched, i), fetched[i], r);
      RefreshedFromThenOn(start, im, fetched, i + 1, j, r);
      RefreshedStays(start, rows, im, seen, fetched[j], r);
    }
  }

  /** Two steps of a plan name the same row exactly if the first adopts it and the second adopts it again. */
  lemma {:induction false} PlannedTwiceExactly(start: seq<PlanRow>, im: Importer, fetched: seq<Wanted>, i: nat, j: nat)
    requires FromTable(start, im) && GoodFetch(fetched) && i < j < |fetched|
    ensures var actions := ScanPlan(start, im, fetched, |fetched|).actions;
            && (SameTarget(actions[i], actions[j]) <==> AdoptsAgain(start, im, fetched, i, j))
            && (AdoptsAgain(start, im, fetched, i, j) ==> actions[j].Adopt? && GoodName(fetched[i]))
  {
    var actions := ScanPlan(start, im, fetched, |fetched|).actions;
    PlanReaches(start, im, fetched, i);
    PlanReaches(start, im, fetched, j);
    ActionOfStep(start, im, fetched, i, |fetched|);
    ActionOfStep(start, im, fetched, j, |fetched|);
    if TargetOf(actions[i]).Some? {
      var r := TargetIsWritten(start, RowsAt(start, im, fetched, i), im, Seen(fetched, i), fetched[i]);
      WrittenAgainExactly(start, im, fetched, i, j, r);
      if SameTarget(actions[i], actions[j]) {
        var other := TargetIsWritten(start, RowsAt(start, im, fetched, j), im, Seen(fetched, j), fetched[j]);
        assert start[r].id == start[other].id;
      }
    } else {
      AdoptNamesARow(start, RowsAt(start, im, fetched, i), im, Seen(fetched, i), fetched[i]);
    }
  }

  /** An adoption never names a row inserted in the same run. */
  lemma {:induction false} AdoptNamesARow(start: seq<PlanRow>, rows: seq<PlanRow>, im: Importer, seen: set<string>,
                                          f: Wanted)
    requires Reached(start, rows, im, seen)
    ensures ScanStep(rows, im, f).action.Adopt? ==> TargetOf(ScanStep(rows, im, f).action).Some?
  {
    var matches := Matches(rows, im, Key(im, f));
    if matches != [] {
      assert matches[0] in matches;
    }
  }

  /** The same of the actions a run sends to the table. */
  lemma {:induction false} TargetedTwiceExactly(t: Table, live: set<Integration>, im: Importer, fetched: seq<Wanted>,
                                                i: nat, j: nat)
    requires TableOk(t) && im.me in live && GoodFetch(fetched) && i < j < |fetched|
    requires !OwnedByAnother(Load(t.rooms, live), im)
    ensures var actions := ActionsOf(t, live, im, fetched);
            && |actions| == |fetched|
            && (SameTarget(actions[i], actions[j]) <==> AdoptsAgain(Load(t.rooms, live), im, fetched, i, j))
            && (AdoptsAgain(Load(t.rooms, live), im, fetched, i, j) ==> actions[j].Adopt? && GoodName(fetched[i]))
  {
    LoadIsFromTable(t, live, im);
    SyncRefinesPlan(t, live, im, fetched);
    PlannedTwiceExactly(Load(t.rooms, live), im, fetched, i, j);
  }

  /** If no two fetched rooms with a usable name have the same number, a run writes each row at most once. */
  lemma {:induction false} DistinctNumbersTargetOnce(t: Table, live: set<Integration>, im: Importer,
          fetched: seq<Wanted>)
    requires TableOk(t) && im.me in live && GoodFetch(fetched)
    requires forall i, j :: 0 <= i < j < |fetched| && GoodName(fetched[i]) && GoodName(fetched[j]) ==>
               Key(im, fetched[i]) != Key(im, fetched[j])
    ensures var actions := ActionsOf(t, live, im, fetched);
            forall i, j :: 0 <= i < j < |actions| ==> !SameTarget(actions[i], actions[j])
  {
    var actions := ActionsOf(t, live, im, fetched);
    forall i, j | 0 <= i < j < |actions| ensures !SameTarget(actions[i], actions[j]) {
      TargetedTwiceExactly(t, live, im, fetched, i, j);
    }
  }
}
