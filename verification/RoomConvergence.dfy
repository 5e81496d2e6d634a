/**
 Repeated runs of one integration over an unchanged fetched list: every run that
 changes a row links one more fetched room under its own number, so the runs
 settle.
 */
module RoomConvergence {
  import opened Wrappers
  import opened RoomIndex
  import opened RoomPlan
  import opened RoomRules
  import opened RoomTable

  /** Row k is linked to f and carries f's number. */
  ghost predicate OwnAt(rows: seq<PlanRow>, im: Importer, f: Wanted, k: nat) {
    k < |rows| && HasLink(rows[k], im, f.external) && im.norm(rows[k].facts.number) == Key(im, f)
  }

  ghost predicate LinkedOwn(rows: seq<PlanRow>, im: Importer, f: Wanted) {
    exists k: nat :: OwnAt(rows, im, f, k)
  }

  /** How many of the first i fetched rooms are not yet linked under their own number. */
  ghost function Unlinked(rows: seq<PlanRow>, im: Importer, fetched: seq<Wanted>, i: nat): (n: nat)
    requires i <= |fetched|
    ensures n <= i
  {
    if i == 0 then 0
    else Unlinked(rows, im, fetched, i - 1) + if LinkedOwn(rows, im, fetched[i - 1]) then 0 else 1
  }

  /** Room i is a known room whose number the run changes. */
  ghost predicate RenamesAt(start: seq<PlanRow>, im: Importer, fetched: seq<Wanted>, i: nat)
    requires i < |fetched|
  {
    var rows := RowsAt(start, im, fetched, i);
    var f := fetched[i];
    var found := Scan(rows, im, f.external);
    && ScanStep(rows, im, f).action.Update?
    && found.Some?
    && im.norm(rows[found.value].facts.number) != Key(im, f)
  }

  /** None of the first i steps inserts, adopts or renames. */
  ghost predicate Quiet(start: seq<PlanRow>, im: Importer, fetched: seq<Wanted>, i: nat)
    requires i <= |fetched|
  {
    i == 0 || (Quiet(start, im, fetched, i - 1) && !ChangesAt(start, im, fetched, i - 1))
  }

  ghost predicate ChangesAt(start: seq<PlanRow>, im: Importer, fetched: seq<Wanted>, i: nat)
    requires i < |fetched|
  {
    var action := ScanStep(RowsAt(start, im, fetched, i), im, fetched[i]).action;
    action.Insert? || action.Adopt? || RenamesAt(start, im, fetched, i)
  }

  /** A step changes the rows exactly when it inserts, adopts or renames. */
  lemma {:induction false} StepChangesRows(start: seq<PlanRow>, im: Importer, fetched: seq<Wanted>, i: nat)
    requires i < |fetched|
    ensures var rows := RowsAt(start, im, fetched, i);
            var out := ScanStep(rows, im, fetched[i]);
            && (out.rows != rows <==> ChangesAt(start, im, fetched, i))
            && RowsAt(start, im, fetched, i + 1) == out.rows
  {
    var rows := RowsAt(start, im, fetched, i);
    var f := fetched[i];
    var out := ScanStep(rows, im, f);
    var found := Scan(rows, im, f.external);
    if GoodName(f) && found.Some? {
      if out.rows != rows {
        assert im.norm(rows[found.value].facts.number) != Key(im, f);
      }
    } else if GoodName(f) {
      var matches := Matches(rows, im, Key(im, f));
      if matches != [] {
        assert matches[0] in matches;
        if Adoptable(rows, matches) {
          assert HasLink(out.rows[matches[0]], im, f.external);
          assert !HasLink(rows[matches[0]], im, f.external);
        }
      }
    }
  }

  /** A change links the room at hand under its own number. */
  lemma {:induction false} ChangeLinksOwn(rows: seq<PlanRow>, im: Importer, f: Wanted)
    requires ScanStep(rows, im, f).rows != rows
    ensures LinkedOwn(ScanStep(rows, im, f).rows, im, f)
  {
    var out := ScanStep(rows, im, f);
    var found := Scan(rows, im, f.external);
    var matches := Matches(rows, im, Key(im, f));
    var k := if found.Some? then found.value else if matches == [] then |rows| else matches[0];
    if matches != [] {
      assert matches[0] in matches;
    }
    assert OwnAt(out.rows, im, f, k);
  }

  /** A room linked under its own number by a live row keeps that row through any step. */
  lemma {:induction false} StepKeepsOwn(rows: seq<PlanRow>, im: Importer, n: nat, fetched: seq<Wanted>, i: nat,
          g: nat, k: nat)
    requires GoodFetch(fetched) && i < |fetched| && g < |fetched|
    requires Planned(rows, im, n, Seen(fetched, i))
    requires OwnAt(rows, im, fetched[g], k) && rows[k].ownerActive
    ensures var after := ScanStep(rows, im, fetched[i]).rows;
            && OwnAt(after, im, fetched[g], k) && after[k].ownerActive
            && (i == g ==> after == rows)
  {
    var f := fetched[i];
    var found := Scan(rows, im, f.external);
    if i == g {
      ScanIsUnique(rows, im, f.external, k);
    } else {
      assert f.external != fetched[g].external;
      assert found != Some(k);
      var matches := Matches(rows, im, Key(im, f));
      if matches != [] {
        assert matches[0] in matches;
      }
    }
  }

  ghost predicate OwnLive(rows: seq<PlanRow>, im: Importer, f: Wanted, k: nat) {
    OwnAt(rows, im, f, k) && rows[k].ownerActive
  }

  lemma {:induction false} RunKeepsOwn(start: seq<PlanRow>, im: Importer, fetched: seq<Wanted>, i: nat, g: nat, k: nat)
    requires GoodFetch(fetched) && i <= |fetched| && g < |fetched|
    requires Loaded(start, im) && OwnAt(start, im, fetched[g], k)
    ensures OwnLive(RowsAt(start, im, fetched, i), im, fetched[g], k)
  {
    if i > 0 {
      RunKeepsOwn(start, im, fetched, i - 1, g, k);
      RunStepKeepsOwn(start, RowsAt(start, im, fetched, i - 1), im, fetched, i - 1, g, k);
    }
  }

  lemma {:induction false} RunStepKeepsOwn(start: seq<PlanRow>, rows: seq<PlanRow>, im: Importer, fetched: seq<Wanted>,
                                           i: nat, g: nat, k: nat)
    requires GoodFetch(fetched) && i < |fetched| && g < |fetched| && Loaded(start, im)
    requires rows == RowsAt(start, im, fetched, i) && OwnLive(rows, im, fetched[g], k)
    ensures OwnLive(RowsAt(start, im, fetched, i + 1), im, fetched[g], k)
  {
    PlanKeepsPlanned(start, im, fetched, i);
    StepKeepsOwn(rows, im, |start|, fetched, i, g, k);
  }

  /** The room of a changing step was not linked under its own number when the run began. */
  lemma {:induction false} ChangedWasUnlinked(start: seq<PlanRow>, im: Importer, fetched: seq<Wanted>, i: nat)
    requires GoodFetch(fetched) && i < |fetched| && Loaded(start, im)
    requires RowsAt(start, im, fetched, i + 1) != RowsAt(start, im, fetched, i)
    ensures !LinkedOwn(start, im, fetched[i])
  {
    if LinkedOwn(start, im, fetched[i]) {
      var k: nat :| OwnAt(start, im, fetched[i], k);
      RunKeepsOwn(start, im, fetched, i, i, k);
      PlanKeepsPlanned(start, im, fetched, i);
      StepKeepsOwn(RowsAt(start, im, fetched, i), im, |start|, fetched, i, i, k);
    }
  }

  ghost predicate Gained(start: seq<PlanRow>, rows: seq<PlanRow>, im: Importer, f: Wanted) {
    !LinkedOwn(start, im, f) && LinkedOwn(rows, im, f)
  }

  /** Some of the first i fetched rooms became linked under its own number. */
  ghost predicate GainsBy(start: seq<PlanRow>, rows: seq<PlanRow>, im: Importer, fetched: seq<Wanted>, i: nat)
    requires i <= |fetched|
  {
    exists g :: 0 <= g < i && Gained(start, rows, im, fetched[g])
  }

  /** A run is quiet and leaves the rows alone, or some fetched room becomes linked under its own number. */
  lemma {:induction false} QuietOrGains(start: seq<PlanRow>, im: Importer, fetched: seq<Wanted>, i: nat)
    requires GoodFetch(fetched) && i <= |fetched| && Loaded(start, im)
    ensures Quiet(start, im, fetched, i) || GainsBy(start, RowsAt(start, im, fetched, i), im, fetched, i)
  {
    if i > 0 {
      QuietOrGains(start, im, fetched, i - 1);
      StepChangesRows(start, im, fetched, i - 1);
      var before, rows := RowsAt(start, im, fetched, i - 1), RowsAt(start, im, fetched, i);
      if rows != before {
        ChangeLinksOwn(before, im, fetched[i - 1]);
        ChangedWasUnlinked(start, im, fetched, i - 1);
        assert Gained(start, rows, im, fetched[i - 1]);
      } else if GainsBy(start, before, im, fetched, i - 1) {
        var g :| 0 <= g < i - 1 && Gained(start, before, im, fetched[g]);
        assert Gained(start, rows, im, fetched[g]);
      }
    }
  }

  lemma {:induction false} CountDrops(start: seq<PlanRow>, rows: seq<PlanRow>, im: Importer, fetched: seq<Wanted>,
          i: nat)
    requires i <= |fetched|
    requires forall g :: 0 <= g < i && LinkedOwn(start, im, fetched[g]) ==> LinkedOwn(rows, im, fetched[g])
    ensures Unlinked(rows, im, fetched, i) <= Unlinked(start, im, fetched, i)
    ensures GainsBy(start, rows, im, fetched, i) ==>
              Unlinked(rows, im, fetched, i) < Unlinked(start, im, fetched, i)
  {
    if i > 0 {
      CountDrops(start, rows, im, fetched, i - 1);
    }
  }

  // ----- over the table -----

  ghost predicate RunQuiet(t: Table, live: set<Integration>, im: Importer, fetched: seq<Wanted>) {
    var rows := Load(t.rooms, live);
    OwnedByAnother(rows, im) || Quiet(rows, im, fetched, |fetched|)
  }

  ghost function UnlinkedIn(t: Table, live: set<Integration>, im: Importer, fetched: seq<Wanted>): nat {
    Unlinked(Load(t.rooms, live), im, fetched, |fetched|)
  }

  lemma {:induction false} SameFactsSameOwn(a: seq<PlanRow>, b: seq<PlanRow>, im: Importer, f: Wanted)
    requires |a| == |b| && forall k :: 0 <= k < |a| ==> a[k].facts == b[k].facts
    requires LinkedOwn(a, im, f)
    ensures LinkedOwn(b, im, f)
  {
    var k: nat :| OwnAt(a, im, f, k);
    assert OwnAt(b, im, f, k);
  }

  /**
   A run with an insert, an adoption or a rename strictly lowers the number of
   fetched rooms not linked under their own number; any other run changes no row.
   */
  lemma {:induction false} RunLowersUnlinked(t: Table, live: set<Integration>, im: Importer, fetched: seq<Wanted>)
    requires TableOk(t) && im.me in live && GoodFetch(fetched)
    ensures var after := SyncOnce(t, live, im, fetched);
            if RunQuiet(t, live, im, fetched) then Load(after.rooms, live) == Load(t.rooms, live)
            else UnlinkedIn(after, live, im, fetched) < UnlinkedIn(t, live, im, fetched)
  {
    var start := Load(t.rooms, live);
    if !OwnedByAnother(start, im) {
      SyncRefinesPlan(t, live, im, fetched);
      var after := SyncOnce(t, live, im, fetched);
      var rows := RowsAt(start, im, fetched, |fetched|);
      var final := Load(after.rooms, live);
      assert forall k :: 0 <= k < |rows| ==> rows[k].facts == final[k].facts;
      QuietOrGains(start, im, fetched, |fetched|);
      if Quiet(start, im, fetched, |fetched|) {
        QuietKeepsRows(start, im, fetched, |fetched|);
        assert rows == start;
        assert forall k :: 0 <= k < |start| ==> start[k] == final[k];
      } else {
        forall g | 0 <= g < |fetched| && LinkedOwn(start, im, fetched[g])
          ensures LinkedOwn(final, im, fetched[g])
        {
          var k: nat :| OwnAt(start, im, fetched[g], k);
          RunKeepsOwn(start, im, fetched, |fetched|, g, k);
          SameFactsSameOwn(rows, final, im, fetched[g]);
        }
        var g :| 0 <= g < |fetched| && Gained(start, rows, im, fetched[g]);
        SameFactsSameOwn(rows, final, im, fetched[g]);
        assert Gained(start, final, im, fetched[g]);
        CountDrops(start, final, im, fetched, |fetched|);
      }
    }
  }

  lemma {:induction false} QuietStep(start: seq<PlanRow>, im: Importer, fetched: seq<Wanted>, i: nat)
    requires i < |fetched| && !ChangesAt(start, im, fetched, i)
    ensures RowsAt(start, im, fetched, i + 1) == RowsAt(start, im, fetched, i)
  {
    StepChangesRows(start, im, fetched, i);
  }

  lemma {:induction false} QuietKeepsRows(start: seq<PlanRow>, im: Importer, fetched: seq<Wanted>, i: nat)
    requires i <= |fetched| && Quiet(start, im, fetched, i)
    ensures RowsAt(start, im, fetched, i) == start
  {
    if i > 0 {
      QuietKeepsRows(start, im, fetched, i - 1);
      QuietStep(start, im, fetched, i - 1);
    }
  }

  /** The table after k runs. */
  ghost function SyncTimes(t: Table, live: set<Integration>, im: Importer, fetched: seq<Wanted>, k: nat): Table {
    if k == 0 then t else SyncOnce(SyncTimes(t, live, im, fetched, k - 1), live, im, fetched)
  }

  lemma {:induction false} TimesKeepTable(t: Table, live: set<Integration>, im: Importer, fetched: seq<Wanted>, k: nat)
    requires TableOk(t) && im.me in live && GoodFetch(fetched)
    ensures TableOk(SyncTimes(t, live, im, fetched, k))
  {
    if k > 0 {
      TimesKeepTable(t, live, im, fetched, k - 1);
      SyncRefinesPlan(SyncTimes(t, live, im, fetched, k - 1), live, im, fetched);
    }
  }

  /** Once quiet, always quiet; and each run before that used up one unlinked room. */
  lemma {:induction false} QuietAfter(t: Table, live: set<Integration>, im: Importer, fetched: seq<Wanted>, k: nat)
    requires TableOk(t) && im.me in live && GoodFetch(fetched)
    ensures var now := SyncTimes(t, live, im, fetched, k);
            RunQuiet(now, live, im, fetched) || UnlinkedIn(now, live, im, fetched) + k <= |fetched|
  {
    if k > 0 {
      QuietAfter(t, live, im, fetched, k - 1);
      TimesKeepTable(t, live, im, fetched, k - 1);
      RunLowersUnlinked(SyncTimes(t, live, im, fetched, k - 1), live, im, fetched);
    }
  }

  /**
   With a fixed list of n fetched rooms at most n runs change anything; from then
   on every run plans the same actions and leaves every row where it was.
   */
  lemma {:induction false} SyncConverges(t: Table, live: set<Integration>, im: Importer, fetched: seq<Wanted>, k: nat)
    requires TableOk(t) && im.me in live && GoodFetch(fetched) && |fetched| <= k
    ensures RunQuiet(SyncTimes(t, live, im, fetched, k), live, im, fetched)
    ensures Load(SyncTimes(t, live, im, fetched, k).rooms, live)
         == Load(SyncTimes(t, live, im, fetched, |fetched|).rooms, live)
    ensures ActionsOf(SyncTimes(t, live, im, fetched, k), live, im, fetched)
         == ActionsOf(SyncTimes(t, live, im, fetched, |fetched|), live, im, fetched)
  {
    if k == |fetched| {
      QuietAfter(t, live, im, fetched, k);
      TimesKeepTable(t, live, im, fetched, k);
      RunLowersUnlinked(SyncTimes(t, live, im, fetched, k), live, im, fetched);
    } else {
      SyncConverges(t, live, im, fetched, k - 1);
      TimesKeepTable(t, live, im, fetched, k - 1);
      RunLowersUnlinked(SyncTimes(t, live, im, fetched, k - 1), live, im, fetched);
    }
  }

  // ----- a run without renames is already a fixed point -----

  /** A later run will find nothing to change for f. */
  ghost predicate Settled(rows: seq<PlanRow>, im: Importer, f: Wanted) {
    GoodName(f) ==> exists k: nat :: SettledAt(rows, im, f, k)
  }

  ghost predicate SettledAt(rows: seq<PlanRow>, im: Importer, f: Wanted, k: nat) {
    && k < |rows|
    && if Scan(rows, im, f.external).Some? then
         && Scan(rows, im, f.external) == Some(k)
         && (rows[k].facts.deleted || im.norm(rows[k].facts.number) == Key(im, f)
             || UsedByOther(rows, im, k, Key(im, f)))
       else
         && im.norm(rows[k].facts.number) == Key(im, f)
         && (rows[k].facts.deleted || rows[k].facts.owner == Some(im.me) || UsedByOther(rows, im, k, Key(im, f)))
  }

  lemma {:induction false} SettledMeansNoChange(rows: seq<PlanRow>, im: Importer, f: Wanted)
    requires Loaded(rows, im) && Settled(rows, im, f)
    ensures ScanStep(rows, im, f).rows == rows
  {
    if GoodName(f) {
      var k: nat :| SettledAt(rows, im, f, k);
      if Scan(rows, im, f.external).None? {
        var matches := Matches(rows, im, Key(im, f));
        assert k in matches;
        if UsedByOther(rows, im, k, Key(im, f)) {
          var j: nat :| j < |rows| && j != k && im.norm(rows[j].facts.number) == Key(im, f);
          assert j in matches;
          assert |matches| > 1;
        }
      }
    }
  }

  lemma {:induction false} StepSettles(rows: seq<PlanRow>, im: Importer, n: nat, fetched: seq<Wanted>, i: nat)
    requires GoodFetch(fetched) && i < |fetched|
    requires Planned(rows, im, n, Seen(fetched, i))
    ensures Settled(ScanStep(rows, im, fetched[i]).rows, im, fetched[i])
  {
    var f := fetched[i];
    var out := ScanStep(rows, im, f);
    var found := Scan(rows, im, f.external);
    if GoodName(f) {
      StepKeepsPlanned(rows, im, n, Seen(fetched, i), f, found);
      if out.rows != rows {
        ChangeLinksOwn(rows, im, f);
        var k: nat :| OwnAt(out.rows, im, f, k);
        ScanIsUnique(out.rows, im, f.external, k);
        assert SettledAt(out.rows, im, f, k);
      } else if found.Some? {
        assert SettledAt(rows, im, f, found.value);
      } else {
        StuckMatchSettles(rows, im, f);
      }
    }
  }

  /** An unlinked room that is left alone is blocked by the rows sharing its number. */
  lemma {:induction false} StuckMatchSettles(rows: seq<PlanRow>, im: Importer, f: Wanted)
    requires GoodName(f) && Scan(rows, im, f.external).None?
    requires !OwnedByAnother(rows, im)
    requires ScanStep(rows, im, f).rows == rows
    ensures Settled(rows, im, f)
  {
    var matches := Matches(rows, im, Key(im, f));
    assert matches != [];
    var k := matches[0];
    assert k in matches;
    if |matches| > 1 {
      assert matches[1] in matches;
      assert UsedByOther(rows, im, k, Key(im, f));
    } else if Adoptable(rows, matches) {
      assert HasLink(ScanStep(rows, im, f).rows[k], im, f.external);
      assert false;
    }
    assert SettledAt(rows, im, f, k);
  }

  /** A row adopted in this run carries the number of the room it was last adopted for. */
  ghost predicate AdoptedOwn(rows: seq<PlanRow>, im: Importer, fetched: seq<Wanted>) {
    forall k, g ::
      (0 <= k < |rows| && 0 <= g < |fetched| && HasLink(rows[k], im, fetched[g].external) && !rows[k].ownerActive) ==>
        im.norm(rows[k].facts.number) == Key(im, fetched[g])
  }

  lemma {:induction false} StepKeepsAdoptedOwn(rows: seq<PlanRow>, im: Importer, n: nat, fetched: seq<Wanted>, i: nat)
    requires GoodFetch(fetched) && i < |fetched|
    requires Planned(rows, im, n, Seen(fetched, i)) && AdoptedOwn(rows, im, fetched)
    ensures AdoptedOwn(ScanStep(rows, im, fetched[i]).rows, im, fetched)
  {
    var f := fetched[i];
    var after := ScanStep(rows, im, f).rows;
    var matches := Matches(rows, im, Key(im, f));
    if matches != [] {
      assert matches[0] in matches;
    }
    forall k, g | 0 <= k < |after| && 0 <= g < |fetched| && HasLink(after[k], im, fetched[g].external)
                  && !after[k].ownerActive
      ensures im.norm(after[k].facts.number) == Key(im, fetched[g])
    {
      if k < |rows| && after[k] == rows[k] {
        assert HasLink(rows[k], im, fetched[g].external);
      } else {
        assert f.external !in Seen(fetched, i);
        assert g == i;
      }
    }
  }

  /** Without a rename, what was settled stays settled. */
  lemma {:induction false} StepKeepsSettled(rows: seq<PlanRow>, im: Importer, n: nat, fetched: seq<Wanted>, i: nat,
          g: nat)
    requires GoodFetch(fetched) && g < i < |fetched|
    requires Planned(rows, im, n, Seen(fetched, i)) && AdoptedOwn(rows, im, fetched)
    requires var found := Scan(rows, im, fetched[i].external);
             found.Some? ==> ScanStep(rows, im, fetched[i]).rows == rows
    requires Settled(rows, im, fetched[g])
    ensures Settled(ScanStep(rows, im, fetched[i]).rows, im, fetched[g])
  {
    var f := fetched[i];
    var e := fetched[g];
    assert f.external != e.external;
    if GoodName(e) && ScanStep(rows, im, f).rows != rows {
      var k: nat :| SettledAt(rows, im, e, k);
      if Matches(rows, im, Key(im, f)) == [] {
        AppendKeepsSettled(rows, im, f, e, k);
        assert SettledAt(ScanStep(rows, im, f).rows, im, e, k);
      } else {
        var a := Matches(rows, im, Key(im, f))[0];
        assert a in Matches(rows, im, Key(im, f));
        if HasLink(rows[a], im, e.external) {
          ScanIsUnique(rows, im, e.external, a);
          assert !rows[a].ownerActive;
          StolenSettles(rows, im, f, e, a);
        } else {
          AdoptKeepsSettled(rows, im, f, e, a, k);
          assert SettledAt(ScanStep(rows, im, f).rows, im, e, k);
        }
      }
    }
  }

  lemma {:induction false} AppendKeepsSettled(rows: seq<PlanRow>, im: Importer, f: Wanted, e: Wanted, k: nat)
    requires f.external != e.external && GoodName(f)
    requires Scan(rows, im, f.external).None? && Matches(rows, im, Key(im, f)) == []
    requires SettledAt(rows, im, e, k)
    ensures SettledAt(ScanStep(rows, im, f).rows, im, e, k)
  {
    var after := ScanStep(rows, im, f).rows;
    SameLinksSameScan(rows, after, im, e.external);
    if UsedByOther(rows, im, k, Key(im, e)) {
      var j: nat :| j < |rows| && j != k && im.norm(rows[j].facts.number) == Key(im, e);
      assert im.norm(after[j].facts.number) == Key(im, e);
    }
  }

  lemma {:induction false} AdoptKeepsSettled(rows: seq<PlanRow>, im: Importer, f: Wanted, e: Wanted, a: nat, k: nat)
    requires f.external != e.external && GoodName(f)
    requires Scan(rows, im, f.external).None?
    requires Matches(rows, im, Key(im, f)) == [a] && a < |rows| && Adoptable(rows, [a])
    requires !HasLink(rows[a], im, e.external)
    requires SettledAt(rows, im, e, k)
    ensures SettledAt(ScanStep(rows, im, f).rows, im, e, k)
  {
    var after := ScanStep(rows, im, f).rows;
    SameLinksSameScan(rows, after, im, e.external);
    if UsedByOther(rows, im, k, Key(im, e)) {
      var j: nat :| j < |rows| && j != k && im.norm(rows[j].facts.number) == Key(im, e);
      assert im.norm(after[j].facts.number) == Key(im, e);
    }
  }

  /** Row a was adopted for e and is now adopted for f, of the same number: e finds it taken. */
  lemma {:induction false} StolenSettles(rows: seq<PlanRow>, im: Importer, f: Wanted, e: Wanted, a: nat)
    requires f.external != e.external && GoodName(f) && UniqueLinks(rows)
    requires Scan(rows, im, f.external).None?
    requires Matches(rows, im, Key(im, f)) == [a] && a < |rows| && Adoptable(rows, [a])
    requires HasLink(rows[a], im, e.external) && im.norm(rows[a].facts.number) == Key(im, e)
    ensures Settled(ScanStep(rows, im, f).rows, im, e)
  {
    var after := ScanStep(rows, im, f).rows;
    forall j | 0 <= j < |after| ensures !HasLink(after[j], im, e.external) {
      if j != a && HasLink(after[j], im, e.external) {
        assert SameLink(rows[a].facts, rows[j].facts) && SameLink(rows[j].facts, rows[a].facts);
      }
    }
    assert SettledAt(after, im, e, a);
  }

  /** None of the first i steps renames a room. */
  ghost predicate NoRename(start: seq<PlanRow>, im: Importer, fetched: seq<Wanted>, i: nat)
    requires i <= |fetched|
  {
    i == 0 || (NoRename(start, im, fetched, i - 1) && !RenamesAt(start, im, fetched, i - 1))
  }

  ghost predicate AllSettled(rows: seq<PlanRow>, im: Importer, fetched: seq<Wanted>, i: nat)
    requires i <= |fetched|
  {
    forall g :: 0 <= g < i ==> Settled(rows, im, fetched[g])
  }

  lemma {:induction false} StepKeepsAllSettled(rows: seq<PlanRow>, im: Importer, n: nat, fetched: seq<Wanted>, i: nat)
    requires GoodFetch(fetched) && i < |fetched|
    requires Planned(rows, im, n, Seen(fetched, i)) && AdoptedOwn(rows, im, fetched)
    requires Scan(rows, im, fetched[i].external).Some? ==> ScanStep(rows, im, fetched[i]).rows == rows
    requires AllSettled(rows, im, fetched, i)
    ensures AllSettled(ScanStep(rows, im, fetched[i]).rows, im, fetched, i + 1)
  {
    forall g | 0 <= g < i + 1 ensures Settled(ScanStep(rows, im, fetched[i]).rows, im, fetched[g]) {
      if g < i {
        StepKeepsSettled(rows, im, n, fetched, i, g);
      } else {
        StepSettles(rows, im, n, fetched, i);
      }
    }
  }

  /** Everything handled so far is settled. */
  ghost predicate SettledSoFar(rows: seq<PlanRow>, im: Importer, fetched: seq<Wanted>, i: nat)
    requires i <= |fetched|
  {
    AdoptedOwn(rows, im, fetched) && AllSettled(rows, im, fetched, i)
  }

  lemma {:induction false} SettledStep(start: seq<PlanRow>, im: Importer, fetched: seq<Wanted>, i: nat, n: nat)
    requires GoodFetch(fetched) && i + 1 == n <= |fetched| && Loaded(start, im) && !RenamesAt(start, im, fetched, i)
    requires SettledSoFar(RowsAt(start, im, fetched, i), im, fetched, i)
    ensures SettledSoFar(RowsAt(start, im, fetched, n), im, fetched, n)
  {
    var rows := RowsAt(start, im, fetched, i);
    PlanKeepsPlanned(start, im, fetched, i);
    StepChangesRows(start, im, fetched, i);
    StepKeepsAdoptedOwn(rows, im, |start|, fetched, i);
    StepKeepsAllSettled(rows, im, |start|, fetched, i);
  }

  lemma {:induction false} NoRenameSettles(start: seq<PlanRow>, im: Importer, fetched: seq<Wanted>, i: nat)
    requires GoodFetch(fetched) && i <= |fetched| && Loaded(start, im) && NoRename(start, im, fetched, i)
    ensures SettledSoFar(RowsAt(start, im, fetched, i), im, fetched, i)
  {
    if i > 0 {
      NoRenameSettles(start, im, fetched, i - 1);
      SettledStep(start, im, fetched, i - 1, i);
    }
  }

  lemma {:induction false} SettledRunIsQuiet(rows: seq<PlanRow>, im: Importer, fetched: seq<Wanted>, i: nat)
    requires i <= |fetched| && Loaded(rows, im)
    requires AllSettled(rows, im, fetched, |fetched|)
    ensures RowsAt(rows, im, fetched, i) == rows && Quiet(rows, im, fetched, i)
  {
    if i > 0 {
      SettledRunIsQuiet(rows, im, fetched, i - 1);
      SettledMeansNoChange(rows, im, fetched[i - 1]);
      StepChangesRows(rows, im, fetched, i - 1);
    }
  }

  lemma {:induction false} SameFactsSameScan(a: seq<PlanRow>, b: seq<PlanRow>, im: Importer, e: string)
    requires |a| == |b| && forall k :: 0 <= k < |a| ==> a[k].facts == b[k].facts
    ensures Scan(a, im, e) == Scan(b, im, e)
  {
    assert forall k :: 0 <= k < |a| ==> HasLink(a[k], im, e) == HasLink(b[k], im, e);
    SameLinksSameScan(a, b, im, e);
  }

  lemma {:induction false} SameFactsSameSettled(a: seq<PlanRow>, b: seq<PlanRow>, im: Importer, f: Wanted)
    requires |a| == |b| && forall k :: 0 <= k < |a| ==> a[k].facts == b[k].facts
    requires Settled(a, im, f)
    ensures Settled(b, im, f)
  {
    if GoodName(f) {
      var k: nat :| SettledAt(a, im, f, k);
      SameFactsSameScan(a, b, im, f.external);
      if UsedByOther(a, im, k, Key(im, f)) {
        var j: nat :| j < |a| && j != k && im.norm(a[j].facts.number) == Key(im, f);
        assert im.norm(b[j].facts.number) == Key(im, f);
      }
      assert SettledAt(b, im, f, k);
    }
  }

  /** A run that renames nothing leaves a table on which the next run changes nothing. */
  lemma {:induction false} NoRenameIsFixedPoint(t: Table, live: set<Integration>, im: Importer, fetched: seq<Wanted>)
    requires TableOk(t) && im.me in live && GoodFetch(fetched)
    requires NoRename(Load(t.rooms, live), im, fetched, |fetched|)
    ensures var after := SyncOnce(t, live, im, fetched);
            && RunQuiet(after, live, im, fetched)
            && Load(SyncOnce(after, live, im, fetched).rooms, live) == Load(after.rooms, live)
  {
    var start := Load(t.rooms, live);
    var after := SyncOnce(t, live, im, fetched);
    SyncRefinesPlan(t, live, im, fetched);
    var final := Load(after.rooms, live);
    if !OwnedByAnother(start, im) && !OwnedByAnother(final, im) {
      var rows := RowsAt(start, im, fetched, |fetched|);
      assert forall k :: 0 <= k < |rows| ==> rows[k].facts == final[k].facts;
      NoRenameSettles(start, im, fetched, |fetched|);
      forall g | 0 <= g < |fetched| ensures Settled(final, im, fetched[g]) {
        SameFactsSameSettled(rows, final, im, fetched[g]);
      }
      LoadIsLoaded(after, live, im);
      SettledRunIsQuiet(final, im, fetched, |fetched|);
    }
    RunLowersUnlinked(after, live, im, fetched);
  }
}
