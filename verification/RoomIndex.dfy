/** The planner with its index plans what a planner does that scans the rows for every fetched room. */
module RoomIndex {
  import opened Wrappers
  import opened RoomText
  import opened RoomPlan
  import opened RoomRules

  lemma {:induction false} PlanKeepsPlanned(start: seq<PlanRow>, im: Importer, fetched: seq<Wanted>, i: nat)
    requires i <= |fetched| && Loaded(start, im)
    ensures Planned(ScanPlan(start, im, fetched, i).rows, im, |start|, Seen(fetched, i))
  {
    if i > 0 {
      PlanKeepsPlanned(start, im, fetched, i - 1);
      var before := ScanPlan(start, im, fetched, i - 1).rows;
      StepKeepsPlanned(before, im, |start|, Seen(fetched, i - 1), fetched[i - 1],
                       Scan(before, im, fetched[i - 1].external));
    }
  }

  // ----- the index agrees with a scan -----

  /** For every id not handled yet, the index and a scan give the same row. */
  ghost predicate IndexAgrees(index: map<string, nat>, rows: seq<PlanRow>, im: Importer, seen: set<string>) {
    forall e: string :: e != "" && e !in seen ==> Lookup(index, e) == Scan(rows, im, e)
  }

  lemma {:induction false} ScanIsUnique(rows: seq<PlanRow>, im: Importer, external: string, k: nat)
    requires UniqueLinks(rows)
    requires k < |rows| && HasLink(rows[k], im, external)
    ensures Scan(rows, im, external) == Some(k)
  {
    var j := Scan(rows, im, external).value;
    if j != k {
      assert SameLink(rows[j].facts, rows[k].facts);
    }
  }

  lemma {:induction false} SameLinksSameScan(rows: seq<PlanRow>, after: seq<PlanRow>, im: Importer, e: string)
    requires |rows| <= |after|
    requires forall k :: 0 <= k < |rows| ==> HasLink(rows[k], im, e) == HasLink(after[k], im, e)
    requires forall k :: |rows| <= k < |after| ==> !HasLink(after[k], im, e)
    ensures Scan(after, im, e) == Scan(rows, im, e)
  {
  }

  /** A step changes no link but the one of the room it handles. */
  lemma {:induction false} StepKeepsOtherLinks(rows: seq<PlanRow>, im: Importer, n: nat, seen: set<string>, f: Wanted,
          e: string)
    requires Planned(rows, im, n, seen)
    requires e != f.external && e !in seen
    ensures Scan(ScanStep(rows, im, f).rows, im, e) == Scan(rows, im, e)
  {
    var after := ScanStep(rows, im, f).rows;
    if GoodName(f) && Scan(rows, im, f.external).None? {
      var matches := Matches(rows, im, Key(im, f));
      if matches != [] {
        assert matches[0] in matches;
        var k := matches[0];
        if Adoptable(rows, matches) {
          assert !HasLink(rows[k], im, e);
        }
      }
    }
    SameLinksSameScan(rows, after, im, e);
  }

  lemma {:induction false} StepKeepsAgreement(rows: seq<PlanRow>, index: map<string, nat>, im: Importer, n: nat,
                           seen: set<string>, f: Wanted)
    requires Planned(rows, im, n, seen)
    requires IndexAgrees(index, rows, im, seen)
    ensures var out := ScanStep(rows, im, f);
            IndexAgrees(NextIndex(index, f.external, out.linked), out.rows, im, seen + {f.external})
  {
    var out := ScanStep(rows, im, f);
    var next := NextIndex(index, f.external, out.linked);
    forall e: string | e != "" && e !in seen + {f.external}
      ensures Lookup(next, e) == Scan(out.rows, im, e)
    {
      StepKeepsOtherLinks(rows, im, n, seen, f, e);
    }
  }

  lemma {:induction false} InitialIndexAgrees(start: seq<PlanRow>, im: Importer)
    requires UniqueLinks(start)
    ensures IndexAgrees(InitialIndex(start, im, |start|), start, im, {})
  {
    var index := InitialIndex(start, im, |start|);
    forall e: string | e != "" ensures Lookup(index, e) == Scan(start, im, e) {
      if e in index {
        ScanIsUnique(start, im, e, index[e]);
      }
    }
  }

  /** The index-driven planner refines the scanning one. */
  lemma {:induction false} IndexRefinesScan(start: seq<PlanRow>, im: Importer, fetched: seq<Wanted>, i: nat)
    requires GoodFetch(fetched) && i <= |fetched|
    requires Loaded(start, im)
    ensures IndexedPlan(start, im, fetched, i).plan == ScanPlan(start, im, fetched, i)
    ensures IndexAgrees(IndexedPlan(start, im, fetched, i).index, ScanPlan(start, im, fetched, i).rows, im,
                        Seen(fetched, i))
  {
    if i == 0 {
      InitialIndexAgrees(start, im);
    } else {
      IndexRefinesScan(start, im, fetched, i - 1);
      PlanKeepsPlanned(start, im, fetched, i - 1);
      var before := IndexedPlan(start, im, fetched, i - 1);
      assert fetched[i - 1].external !in Seen(fetched, i - 1);
      assert Lookup(before.index, fetched[i - 1].external) == Scan(before.plan.rows, im, fetched[i - 1].external);
      StepKeepsAgreement(before.plan.rows, before.index, im, |start|, Seen(fetched, i - 1), fetched[i - 1]);
    }
  }

  // ----- the method -----

  /** The loop body: one fetched room against the rows and the index. */
  method PlanRoom(before: seq<PlanRow>, index: map<string, nat>, im: Importer, f: Wanted)
    returns (rows: seq<PlanRow>, byExternal: map<string, nat>, action: Action)
    requires IndexInRange(index, before)
    ensures var out := Decide(before, im, f, Lookup(index, f.external));
            rows == out.rows && action == out.action && byExternal == NextIndex(index, f.external, out.linked)
  {
    rows, byExternal := before, index;
    var number := f.number;
    if number == "" || |number| > ROOM_NUMBER_MAX {
      return rows, byExternal, Conflict(f.external, number, BadName);
    }
    if f.external in byExternal {
      var k := byExternal[f.external];
      if rows[k].facts.deleted {
        return rows, byExternal, Conflict(f.external, number, DeletedRoom);
      }
      if im.norm(rows[k].facts.number) != im.norm(number) {
        if UsedByOther(rows, im, k, im.norm(number)) {
          return rows, byExternal, Conflict(f.external, number, NumberTaken(rows[k].facts.number));
        }
        rows := rows[k := rows[k].(facts := rows[k].facts.(number := number))];
      }
      return rows, byExternal, Update(rows[k].id, f.external, rows[k].facts.number, f.kind);
    }
    var matches := Matches(rows, im, im.norm(number));
    if matches == [] {
      byExternal := byExternal[f.external := |rows|];
      rows := rows + [PlanRow(None, Facts(number, false, Some(im.me), Some(f.external)), true)];
      return rows, byExternal, Insert(f.external, number, f.kind);
    }
    var k := matches[0];
    assert k in matches;
    if Adoptable(rows, matches) {
      rows := rows[k := rows[k].(facts := rows[k].facts.(owner := Some(im.me), external := Some(f.external)))];
      byExternal := byExternal[f.external := k];
      return rows, byExternal, Adopt(rows[k].id, f.external, rows[k].facts.number, f.kind);
    }
    var reason := if |matches| > 1 then ManyMatches(|matches|)
                  else if rows[k].facts.deleted then DeletedRoom
                  else LinkedElsewhere;
    return rows, byExternal, Conflict(f.external, number, reason);
  }

  /**
   plan_room_sync. For any rows and any fetched list the result is that of the
   index-driven planner; for a good list over loaded rows it is the one that a
   fresh scan per room would give.
   */
  method PlanRoomSync(existing: seq<PlanRow>, fetched: seq<Fetched>, im: Importer)
    returns (rows: seq<PlanRow>, actions: seq<Action>, skipped: bool)
    ensures skipped == OwnedByAnother(existing, im)
    ensures skipped ==> actions == [] && rows == existing
    ensures !skipped ==> Plan(rows, actions) == IndexedPlan(existing, im, ReadAll(fetched), |fetched|).plan
    ensures GoodFetch(ReadAll(fetched)) && Loaded(existing, im) ==>
              Plan(rows, actions) == ScanPlan(existing, im, ReadAll(fetched), |fetched|)
  {
    var wanted := ReadAll(fetched);
    rows, actions := existing, [];
    skipped := OwnedByAnother(rows, im);
    if skipped {
      return;
    }
    var byExternal: map<string, nat> := InitialIndex(rows, im, |rows|);
    for i := 0 to |wanted|
      invariant Indexed(Plan(rows, actions), byExternal) == IndexedPlan(existing, im, wanted, i)
    {
      var action;
      rows, byExternal, action := PlanRoom(rows, byExternal, im, wanted[i]);
      actions := actions + [action];
    }
    if GoodFetch(wanted) && Loaded(existing, im) {
      IndexRefinesScan(existing, im, wanted, |fetched|);
    }
  }
}
