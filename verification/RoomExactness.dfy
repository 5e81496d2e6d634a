/**
 Exactly when the statements of a run keep up with its plan, for any fetched
 list: when every step of the plan is safe. The plan is made before the first
 statement is sent, so a caller can check this on the plan alone.
 */
module RoomExactness {
  import opened Wrappers
  import opened RoomIndex
  import opened RoomPlan
  import opened RoomRules
  import opened RoomTable

  ghost predicate SafeAt(start: seq<PlanRow>, im: Importer, fetched: seq<Wanted>, i: nat)
    requires i < |fetched|
  {
    var before := IndexedPlan(start, im, fetched, i);
    SafeStep(before.plan.rows, im, fetched[i], Lookup(before.index, fetched[i].external))
  }

  ghost predicate SafeUpTo(start: seq<PlanRow>, im: Importer, fetched: seq<Wanted>, i: nat)
    requires i <= |fetched|
  {
    i == 0 || (SafeUpTo(start, im, fetched, i - 1) && SafeAt(start, im, fetched, i - 1))
  }

  /** The first i statements succeed and leave the planner's rows. */
  ghost predicate InStep(t: Table, live: set<Integration>, im: Importer, fetched: seq<Wanted>, i: nat)
    requires i <= |fetched|
  {
    Follows(t, im, IndexedPlan(Load(t.rooms, live), im, fetched, i).plan, i)
  }

  /** What holds of a plan as long as every step was safe. */
  ghost predicate Sound(t: Table, im: Importer, p: Indexed) {
    Follows(t, im, p.plan, |p.plan.actions|) && Planned(p.plan.rows, im, |t.rooms|, p.index.Keys)
  }

  /** The plan after one more room. */
  function Extend(p: Indexed, im: Importer, f: Wanted): Indexed
    requires IndexInRange(p.index, p.plan.rows)
  {
    var out := Decide(p.plan.rows, im, f, Lookup(p.index, f.external));
    Indexed(Plan(out.rows, p.plan.actions + [out.action]), NextIndex(p.index, f.external, out.linked))
  }

  lemma {:induction false} SafeStepKeepsSound(t: Table, im: Importer, p: Indexed, f: Wanted)
    requires IndexInRange(p.index, p.plan.rows) && Sound(t, im, p)
    requires SafeStep(p.plan.rows, im, f, Lookup(p.index, f.external))
    ensures Sound(t, im, Extend(p, im, f))
  {
    var found := Lookup(p.index, f.external);
    StepFollows(t, im, p.plan, p.index.Keys, f, found);
    SeenInIndex(im, p, |t.rooms|, f);
  }

  /** Every id that a row now carries is in the index. */
  lemma {:induction false} SeenInIndex(im: Importer, p: Indexed, n: nat, f: Wanted)
    requires IndexInRange(p.index, p.plan.rows) && Planned(p.plan.rows, im, n, p.index.Keys)
    requires var out := Decide(p.plan.rows, im, f, Lookup(p.index, f.external));
             Planned(out.rows, im, n, p.index.Keys + {f.external})
    ensures var out := Decide(p.plan.rows, im, f, Lookup(p.index, f.external));
            Planned(out.rows, im, n, NextIndex(p.index, f.external, out.linked).Keys)
  {
    var found := Lookup(p.index, f.external);
    var out := Decide(p.plan.rows, im, f, found);
    if out.linked.Some? {
      assert NextIndex(p.index, f.external, out.linked).Keys == p.index.Keys + {f.external};
    } else if found.Some? {
      assert p.index.Keys + {f.external} == p.index.Keys;
    } else {
      assert out.rows == p.plan.rows;
    }
  }

  lemma {:induction false} SafeRunIsSound(t: Table, live: set<Integration>, im: Importer, fetched: seq<Wanted>, i: nat)
    requires TableOk(t) && Loaded(Load(t.rooms, live), im) && i <= |fetched|
    requires SafeUpTo(Load(t.rooms, live), im, fetched, i)
    ensures Sound(t, im, IndexedPlan(Load(t.rooms, live), im, fetched, i))
  {
    if i > 0 {
      var start := Load(t.rooms, live);
      SafeRunIsSound(t, live, im, fetched, i - 1);
      SafeStepKeepsSound(t, im, IndexedPlan(start, im, fetched, i - 1), fetched[i - 1]);
    }
  }

  /** An unsafe step breaks a constraint or leaves a row that the planner does not have. */
  lemma {:induction false} UnsafeStepDiverges(t: Table, im: Importer, p: Indexed, n: nat, f: Wanted)
    requires IndexInRange(p.index, p.plan.rows)
    requires TableOk(t) && Mirrors(t, p.plan.rows, n) && Planned(p.plan.rows, im, n, p.index.Keys)
    requires !SafeStep(p.plan.rows, im, f, Lookup(p.index, f.external))
    ensures Diverges(t, im, p, n, f)
  {
    match Decide(p.plan.rows, im, f, Lookup(p.index, f.external)).action {
      case Insert(_, _, _) => UnsafeInsertDiverges(t, im, p, n, f);
      case Adopt(_, _, _, _) => UnsafeAdoptDiverges(t, im, p, n, f);
      case Update(_, _, _, _) => UnsafeUpdateDiverges(t, im, p, n, f);
      case Conflict(_, _, _) =>
    }
  }

  ghost predicate Diverges(t: Table, im: Importer, p: Indexed, n: nat, f: Wanted)
    requires IndexInRange(p.index, p.plan.rows)
  {
    var out := Decide(p.plan.rows, im, f, Lookup(p.index, f.external));
    var done := Exec(t, im, out.action);
    done.Failure? || !Mirrors(done.value, out.rows, n)
  }

  lemma {:induction false} UnsafeInsertDiverges(t: Table, im: Importer, p: Indexed, n: nat, f: Wanted)
    requires IndexInRange(p.index, p.plan.rows)
    requires TableOk(t) && Mirrors(t, p.plan.rows, n) && Planned(p.plan.rows, im, n, p.index.Keys)
    requires !SafeStep(p.plan.rows, im, f, Lookup(p.index, f.external))
    requires Decide(p.plan.rows, im, f, Lookup(p.index, f.external)).action.Insert?
    ensures Diverges(t, im, p, n, f)
  {
    var rows := p.plan.rows;
    var after := Written(t, im, Decide(rows, im, f, Lookup(p.index, f.external)).action);
    LinkedTwice(after, Scan(rows, im, f.external).value, |rows|, im, f.external);
  }

  lemma {:induction false} UnsafeAdoptDiverges(t: Table, im: Importer, p: Indexed, n: nat, f: Wanted)
    requires IndexInRange(p.index, p.plan.rows)
    requires TableOk(t) && Mirrors(t, p.plan.rows, n) && Planned(p.plan.rows, im, n, p.index.Keys)
    requires !SafeStep(p.plan.rows, im, f, Lookup(p.index, f.external))
    requires Decide(p.plan.rows, im, f, Lookup(p.index, f.external)).action.Adopt?
    ensures Diverges(t, im, p, n, f)
  {
    var rows := p.plan.rows;
    var action := Decide(rows, im, f, Lookup(p.index, f.external)).action;
    var after := Written(t, im, action);
    var matches := Matches(rows, im, Key(im, f));
    assert matches[0] in matches;
    UpdateHitsOne(t, matches[0], im, f.external, action.number, action.kind);
    LinkedTwice(after, Scan(rows, im, f.external).value, matches[0], im, f.external);
  }

  lemma {:induction false} UnsafeUpdateDiverges(t: Table, im: Importer, p: Indexed, n: nat, f: Wanted)
    requires IndexInRange(p.index, p.plan.rows)
    requires TableOk(t) && Mirrors(t, p.plan.rows, n) && Planned(p.plan.rows, im, n, p.index.Keys)
    requires !SafeStep(p.plan.rows, im, f, Lookup(p.index, f.external))
    requires Decide(p.plan.rows, im, f, Lookup(p.index, f.external)).action.Update?
    ensures Diverges(t, im, p, n, f)
  {
    var rows := p.plan.rows;
    var out := Decide(rows, im, f, Lookup(p.index, f.external));
    var after := Written(t, im, out.action);
    var k := Lookup(p.index, f.external).value;
    if out.action.id.None? {
      assert after.rooms == t.rooms;
      assert out.rows[k].facts.number != rows[k].facts.number;
    } else {
      assert k < n;
      UpdateHitsOne(t, k, im, f.external, out.action.number, out.action.kind);
      assert after.rooms[k].facts.external == Some(f.external) && after.rooms[k].facts.owner == Some(im.me);
    }
  }

  lemma LinkedTwice(t: Table, j: nat, k: nat, im: Importer, external: string)
    requires j < |t.rooms| && k < |t.rooms| && j != k
    requires t.rooms[j].facts.owner == Some(im.me) && t.rooms[j].facts.external == Some(external)
    requires t.rooms[k].facts.owner == Some(im.me) && t.rooms[k].facts.external == Some(external)
    ensures !ConstraintsHold(t.rooms)
  {
    var rows := Load(t.rooms, {});
    assert SameLink(rows[j].facts, rows[k].facts) && SameLink(rows[k].facts, rows[j].facts);
  }

  lemma {:induction false} UnsafeRunDiverges(t: Table, live: set<Integration>, im: Importer, fetched: seq<Wanted>,
          i: nat)
    requires TableOk(t) && Loaded(Load(t.rooms, live), im) && i < |fetched|
    requires SafeUpTo(Load(t.rooms, live), im, fetched, i) && !SafeAt(Load(t.rooms, live), im, fetched, i)
    ensures !InStep(t, live, im, fetched, i + 1)
  {
    var start := Load(t.rooms, live);
    SafeRunIsSound(t, live, im, fetched, i);
    var before := IndexedPlan(start, im, fetched, i);
    var now := IndexedPlan(start, im, fetched, i + 1);
    SameActionsSameResult(t, im, before.plan.actions, now.plan.actions, i);
    UnsafeStepDiverges(ExecAll(t, im, before.plan.actions, i).value, im, before, |t.rooms|, fetched[i]);
  }

  /** The run is in step with its plan after each of its first i statements. */
  ghost predicate Faithful(t: Table, live: set<Integration>, im: Importer, fetched: seq<Wanted>, i: nat)
    requires i <= |fetched|
  {
    InStep(t, live, im, fetched, i) && (i == 0 || Faithful(t, live, im, fetched, i - 1))
  }

  lemma {:induction false} SafeIsFaithful(t: Table, live: set<Integration>, im: Importer, fetched: seq<Wanted>, i: nat)
    requires TableOk(t) && Loaded(Load(t.rooms, live), im) && i <= |fetched|
    requires SafeUpTo(Load(t.rooms, live), im, fetched, i)
    ensures Faithful(t, live, im, fetched, i)
  {
    SafeRunIsSound(t, live, im, fetched, i);
    if i > 0 {
      SafeIsFaithful(t, live, im, fetched, i - 1);
    }
  }

  lemma {:induction false} FaithfulIsSafe(t: Table, live: set<Integration>, im: Importer, fetched: seq<Wanted>, i: nat)
    requires TableOk(t) && Loaded(Load(t.rooms, live), im) && i <= |fetched|
    requires Faithful(t, live, im, fetched, i)
    ensures SafeUpTo(Load(t.rooms, live), im, fetched, i)
  {
    if i > 0 {
      FaithfulIsSafe(t, live, im, fetched, i - 1);
      if !SafeAt(Load(t.rooms, live), im, fetched, i - 1) {
        UnsafeRunDiverges(t, live, im, fetched, i - 1);
      }
    }
  }

  /** The statements follow the plan after every prefix if and only if every step of the plan is safe. */
  lemma FaithfulExactly(t: Table, live: set<Integration>, im: Importer, fetched: seq<Wanted>)
    requires TableOk(t) && Loaded(Load(t.rooms, live), im)
    ensures Faithful(t, live, im, fetched, |fetched|) <==> SafeUpTo(Load(t.rooms, live), im, fetched, |fetched|)
  {
    if SafeUpTo(Load(t.rooms, live), im, fetched, |fetched|) {
      SafeIsFaithful(t, live, im, fetched, |fetched|);
    }
    if Faithful(t, live, im, fetched, |fetched|) {
      FaithfulIsSafe(t, live, im, fetched, |fetched|);
    }
  }

  /** Non-empty, pairwise distinct ids make every step safe. */
  lemma {:induction false} GoodFetchIsSafe(start: seq<PlanRow>, im: Importer, fetched: seq<Wanted>, i: nat)
    requires GoodFetch(fetched) && Loaded(start, im) && i < |fetched|
    ensures SafeAt(start, im, fetched, i)
  {
    IndexRefinesScan(start, im, fetched, i);
    PlanKeepsPlanned(start, im, fetched, i);
    var rows := ScanPlan(start, im, fetched, i).rows;
    assert fetched[i].external !in Seen(fetched, i);
    ScanIsSafe(rows, im, |start|, Seen(fetched, i), fetched[i]);
    assert Lookup(IndexedPlan(start, im, fetched, i).index, fetched[i].external) == Scan(rows, im, fetched[i].external);
  }

  // ----- the guard said of the fetched room, the row found and the rows -----

  /** The room would be inserted, or would adopt a row. */
  ghost predicate Links(rows: seq<PlanRow>, im: Importer, key: string) {
    || (forall j :: 0 <= j < |rows| ==> im.norm(rows[j].facts.number) != key)
    || (exists k: nat :: k < |rows| && OnlyMatch(rows, im, k, key) && FreeToAdopt(rows[k]))
  }

  /**
   A link is made only for an id no row has. A row found is renamed only if it
   has an id, and then only written if it still carries the link.
   */
  lemma {:induction false} SafeStepRules(rows: seq<PlanRow>, im: Importer, f: Wanted, found: Option<nat>)
    requires found.Some? ==> found.value < |rows|
    ensures SafeStep(rows, im, f, found) <==>
            GoodName(f) ==>
              match found
              case None => Links(rows, im, Key(im, f)) ==> Scan(rows, im, f.external).None?
              case Some(k) =>
                var sameNumber := im.norm(rows[k].facts.number) == Key(im, f);
                !rows[k].facts.deleted && (sameNumber || NoOther(rows, im, k, Key(im, f))) ==>
                  if rows[k].id.None? then sameNumber else HasLink(rows[k], im, f.external)
  {
    OneMatchIsOnly(rows, im, Key(im, f));
  }

  /** An earlier room of the run had this id and was inserted, or adopted a row. */
  ghost predicate LinkedInRun(start: seq<PlanRow>, im: Importer, fetched: seq<Wanted>, i: nat, external: string)
    requires i <= |fetched|
  {
    i > 0 && ((LinksRoom(start, im, fetched, i - 1) && fetched[i - 1].external == external)
              || LinkedInRun(start, im, fetched, i - 1, external))
  }

  ghost predicate LinksRoom(start: seq<PlanRow>, im: Importer, fetched: seq<Wanted>, j: nat)
    requires j < |fetched|
  {
    LinksNext(IndexedPlan(start, im, fetched, j), im, fetched[j])
  }

  ghost predicate LinksNext(p: Indexed, im: Importer, f: Wanted)
    requires IndexInRange(p.index, p.plan.rows)
  {
    var action := Decide(p.plan.rows, im, f, Lookup(p.index, f.external)).action;
    action.Insert? || action.Adopt?
  }

  /** Row k was linked to the id when it was loaded, so it still is. */
  ghost predicate LoadedLink(rows: seq<PlanRow>, im: Importer, k: nat, external: string) {
    k < |rows| && rows[k].id.Some? && rows[k].ownerActive && HasLink(rows[k], im, external)
  }

  lemma {:induction false} StepKeepsLoadedLink(rows: seq<PlanRow>, im: Importer, f: Wanted, found: Option<nat>, k: nat,
                                               external: string)
    requires (found.Some? ==> found.value < |rows|) && LoadedLink(rows, im, k, external)
    ensures LoadedLink(Decide(rows, im, f, found).rows, im, k, external)
  {
    var matches := Matches(rows, im, Key(im, f));
    if matches != [] {
      assert matches[0] in matches;
    }
  }

  /** The index leads to a row that was linked to the id when it was loaded. */
  ghost predicate FromLoad(p: Indexed, im: Importer, external: string) {
    external in p.index && LoadedLink(p.plan.rows, im, p.index[external], external)
  }

  lemma {:induction false} OriginNext(p: Indexed, im: Importer, f: Wanted, external: string)
    requires IndexInRange(p.index, p.plan.rows) && external in Extend(p, im, f).index
    ensures external in p.index || (LinksNext(p, im, f) && f.external == external)
    ensures FromLoad(p, im, external) ==>
              FromLoad(Extend(p, im, f), im, external) || (LinksNext(p, im, f) && f.external == external)
  {
    if FromLoad(p, im, external) {
      StepKeepsLoadedLink(p.plan.rows, im, f, Lookup(p.index, f.external), p.index[external], external);
    }
  }

  lemma {:induction false} LoadedIndex(start: seq<PlanRow>, im: Importer, fetched: seq<Wanted>, external: string)
    requires Loaded(start, im) && external in IndexedPlan(start, im, fetched, 0).index
    ensures FromLoad(IndexedPlan(start, im, fetched, 0), im, external)
  {
  }

  lemma {:induction false} PlanExtends(start: seq<PlanRow>, im: Importer, fetched: seq<Wanted>, i: nat)
    requires i < |fetched|
    ensures IndexedPlan(start, im, fetched, i + 1) == Extend(IndexedPlan(start, im, fetched, i), im, fetched[i])
  {
  }

  /** An id is in the index because of a loaded link or because of an earlier room of the run. */
  lemma {:induction false} IndexedIdHasOrigin(start: seq<PlanRow>, im: Importer, fetched: seq<Wanted>, i: nat,
          external: string)
    requires Loaded(start, im) && i <= |fetched| && external in IndexedPlan(start, im, fetched, i).index
    ensures LinkedInRun(start, im, fetched, i, external) || FromLoad(IndexedPlan(start, im, fetched, i), im, external)
  {
    if i == 0 {
      LoadedIndex(start, im, fetched, external);
    } else {
      PlanExtends(start, im, fetched, i - 1);
      OriginNext(IndexedPlan(start, im, fetched, i - 1), im, fetched[i - 1], external);
      if external in IndexedPlan(start, im, fetched, i - 1).index {
        IndexedIdHasOrigin(start, im, fetched, i - 1, external);
      }
    }
  }

  /** An id that some row has is in the index, unless it is the empty one and was there at the start. */
  lemma {:induction false} LinkedIdIsIndexed(start: seq<PlanRow>, im: Importer, fetched: seq<Wanted>, i: nat, k: nat,
                                             external: string)
    requires i <= |fetched| && k < |IndexedPlan(start, im, fetched, i).plan.rows|
    requires HasLink(IndexedPlan(start, im, fetched, i).plan.rows[k], im, external)
    ensures external in IndexedPlan(start, im, fetched, i).index || (external == "" && Scan(start, im, "").Some?)
  {
    if i > 0 {
      var before, f := IndexedPlan(start, im, fetched, i - 1), fetched[i - 1];
      var out := Decide(before.plan.rows, im, f, Lookup(before.index, f.external));
      OldLink(before.plan.rows, im, f, Lookup(before.index, f.external), k, external);
      if out.linked.None? || f.external != external {
        LinkedIdIsIndexed(start, im, fetched, i - 1, k, external);
      }
    }
  }

  lemma {:induction false} OldLink(rows: seq<PlanRow>, im: Importer, f: Wanted, found: Option<nat>, k: nat,
          external: string)
    requires found.Some? ==> found.value < |rows|
    requires k < |Decide(rows, im, f, found).rows| && HasLink(Decide(rows, im, f, found).rows[k], im, external)
    ensures (k < |rows| && HasLink(rows[k], im, external))
            || (Decide(rows, im, f, found).linked.Some? && f.external == external)
  {
    var matches := Matches(rows, im, Key(im, f));
    if matches != [] {
      assert matches[0] in matches;
    }
  }

  lemma {:induction false} UnsafeLookup(p: Indexed, im: Importer, f: Wanted)
    requires IndexInRange(p.index, p.plan.rows)
    requires !SafeStep(p.plan.rows, im, f, Lookup(p.index, f.external))
    ensures !FromLoad(p, im, f.external)
    ensures f.external !in p.index ==> Scan(p.plan.rows, im, f.external).Some?
  {
    SafeStepRules(p.plan.rows, im, f, Lookup(p.index, f.external));
  }

  /** Whatever is fetched, an unsafe step has an id that an earlier room linked, or an empty one linked at load. */
  lemma {:induction false} UnsafeStepHasCause(start: seq<PlanRow>, im: Importer, fetched: seq<Wanted>, i: nat)
    requires Loaded(start, im) && i < |fetched| && !SafeAt(start, im, fetched, i)
    ensures LinkedInRun(start, im, fetched, i, fetched[i].external)
            || (fetched[i].external == "" && Scan(start, im, "").Some?)
  {
    var p, external := IndexedPlan(start, im, fetched, i), fetched[i].external;
    UnsafeLookup(p, im, fetched[i]);
    if external in p.index {
      IndexedIdHasOrigin(start, im, fetched, i, external);
    } else {
      LinkedIdIsIndexed(start, im, fetched, i, Scan(p.plan.rows, im, external).value, external);
    }
  }
}
