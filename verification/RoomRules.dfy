/** What one pass of the planner's loop decides, and what it keeps. */
module RoomRules {
  import opened Wrappers
  import opened RoomPlan

  // ----- the rules as documented -----

  /** Row k is the only one whose number has this key. */
  ghost predicate OnlyMatch(rows: seq<PlanRow>, im: Importer, k: nat, key: string)
    requires k < |rows|
  {
    im.norm(rows[k].facts.number) == key && NoOther(rows, im, k, key)
  }

  ghost predicate NoOther(rows: seq<PlanRow>, im: Importer, k: nat, key: string) {
    forall j :: 0 <= j < |rows| && j != k ==> im.norm(rows[j].facts.number) != key
  }

  /** Live, and unowned or owned by a disconnected integration. */
  predicate FreeToAdopt(r: PlanRow) {
    !r.facts.deleted && (r.facts.owner.None? || !r.ownerActive)
  }

  lemma {:induction false} OneMatchIsOnly(rows: seq<PlanRow>, im: Importer, key: string)
    ensures |Matches(rows, im, key)| == 1 <==> exists k: nat :: k < |rows| && OnlyMatch(rows, im, k, key)
    ensures |Matches(rows, im, key)| == 1 ==>
              Matches(rows, im, key)[0] < |rows| && OnlyMatch(rows, im, Matches(rows, im, key)[0], key)
    ensures Matches(rows, im, key) == [] <==> forall j :: 0 <= j < |rows| ==> im.norm(rows[j].facts.number) != key
  {
    var m := Matches(rows, im, key);
    assert m == MatchesBelow(rows, im, key, |rows|);
    assert |m| > 1 ==> m[0] != m[1];
    if |m| > 0 {
      assert m[0] in m;
    }
    if |m| == 1 {
      forall j | 0 <= j < |rows| && j != m[0] ensures im.norm(rows[j].facts.number) != key {
        assert j !in m;
      }
      assert OnlyMatch(rows, im, m[0], key);
    }
    if k: nat :| k < |rows| && OnlyMatch(rows, im, k, key) {
      assert k in m;
      forall i | 0 <= i < |m| ensures m[i] == k {
        assert m[i] in m;
      }
    }
  }

  /** Which of the four things happens to a fetched room, said of the rows alone. */
  lemma {:induction false} DecisionRules(rows: seq<PlanRow>, im: Importer, f: Wanted)
    ensures var out, linked, key := ScanStep(rows, im, f), Scan(rows, im, f.external), Key(im, f);
            && (out.action.Insert? <==>
                  GoodName(f) && linked.None? && forall j :: 0 <= j < |rows| ==> im.norm(rows[j].facts.number) != key)
            && (out.action.Adopt? <==>
                  && GoodName(f) && linked.None?
                  && exists k: nat :: k < |rows| && OnlyMatch(rows, im, k, key) && FreeToAdopt(rows[k]))
            && (out.action.Update? <==>
                  && GoodName(f) && linked.Some? && !rows[linked.value].facts.deleted
                  && (im.norm(rows[linked.value].facts.number) == key || NoOther(rows, im, linked.value, key)))
            && (out.action.Conflict? ==> out.rows == rows)
  {
    OneMatchIsOnly(rows, im, Key(im, f));
  }

  // ----- what every step keeps -----

  lemma {:induction false} InsertKeepsPlanned(rows: seq<PlanRow>, im: Importer, n: nat, seen: set<string>, f: Wanted)
    requires Planned(rows, im, n, seen)
    requires forall k :: 0 <= k < |rows| ==> rows[k].facts.number != f.number
    requires forall k :: 0 <= k < |rows| ==> !HasLink(rows[k], im, f.external)
    ensures Planned(rows + [PlanRow(None, Facts(f.number, false, Some(im.me), Some(f.external)), true)],
                    im, n, seen + {f.external})
  {
    var after := rows + [PlanRow(None, Facts(f.number, false, Some(im.me), Some(f.external)), true)];
    assert forall k :: 0 <= k < |rows| ==> after[k] == rows[k];
    assert forall k :: 0 <= k < |rows| ==> !SameLink(rows[k].facts, after[|rows|].facts);
  }

  lemma {:induction false} RenumberKeepsPlanned(rows: seq<PlanRow>, im: Importer, n: nat, seen: set<string>,
          f: Wanted, k: nat)
    requires Planned(rows, im, n, seen) && k < |rows|
    requires forall j :: 0 <= j < |rows| && j != k ==> rows[j].facts.number != f.number
    ensures Planned(rows[k := rows[k].(facts := rows[k].facts.(number := f.number))], im, n, seen + {f.external})
  {
    var after := rows[k := rows[k].(facts := rows[k].facts.(number := f.number))];
    assert forall a, b :: 0 <= a < |rows| && 0 <= b < |rows| ==>
        SameLink(after[a].facts, after[b].facts) == SameLink(rows[a].facts, rows[b].facts);
  }

  lemma {:induction false} RelinkKeepsPlanned(rows: seq<PlanRow>, im: Importer, n: nat, seen: set<string>, f: Wanted,
          k: nat)
    requires Planned(rows, im, n, seen) && k < |rows|
    requires rows[k].facts.owner.None? || !rows[k].ownerActive
    requires forall j :: 0 <= j < |rows| ==> !HasLink(rows[j], im, f.external)
    ensures Planned(rows[k := rows[k].(facts := rows[k].facts.(owner := Some(im.me), external := Some(f.external)))],
                    im, n, seen + {f.external})
  {
    var after := rows[k := rows[k].(facts := rows[k].facts.(owner := Some(im.me), external := Some(f.external)))];
    assert k < n;
    assert forall j :: 0 <= j < |rows| && j != k ==> !SameLink(rows[j].facts, after[k].facts);
    assert forall j :: 0 <= j < |rows| && j != k ==> after[j] == rows[j];
  }

  /** One step keeps both uniqueness constraints, unless it links an id that some row already has. */
  lemma {:induction false} StepKeepsPlanned(rows: seq<PlanRow>, im: Importer, n: nat, seen: set<string>, f: Wanted,
          found: Option<nat>)
    requires Planned(rows, im, n, seen)
    requires found.Some? ==> found.value < |rows|
    requires found.None? ==> Scan(rows, im, f.external).None?
    ensures Planned(Decide(rows, im, f, found).rows, im, n, seen + {f.external})
  {
    if GoodName(f) && found.Some? {
      if !UsedByOther(rows, im, found.value, Key(im, f)) {
        RenumberKeepsPlanned(rows, im, n, seen, f, found.value);
      }
    } else if GoodName(f) {
      var matches := Matches(rows, im, Key(im, f));
      if matches == [] {
        assert forall k: nat :: k < |rows| ==> k !in matches;
        InsertKeepsPlanned(rows, im, n, seen, f);
      } else {
        assert matches[0] in matches;
        if Adoptable(rows, matches) {
          RelinkKeepsPlanned(rows, im, n, seen, f, matches[0]);
        }
      }
    }
  }
}
