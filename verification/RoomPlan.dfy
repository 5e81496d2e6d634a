/**
 The decision side of the room import: what one run does for one property,
 without touching the table.

 The source keeps the rows as mutable dictionaries and an index by_external
 whose values are those same dictionaries. Here a dictionary is named by its
 position in rows, so the index maps an external id to a position.
 */
module RoomPlan {
  import opened Wrappers
  import opened RoomText

  type Integration = nat

  /** What both the table and the planner know about a room. */
  datatype Facts = Facts(
    number: string,
    deleted: bool,
    owner: Option<Integration>,
    external: Option<string>)

  /** A planner row; id is None for a room inserted by this very run. */
  datatype PlanRow = PlanRow(id: Option<nat>, facts: Facts, ownerActive: bool)

  /** A room as the provider returns it. */
  datatype Fetched = Fetched(external: string, name: Option<string>, kind: Option<string>)

  /** The same room with its name trimmed to a number, and its type trimmed and capped. */
  datatype Wanted = Wanted(external: string, number: string, kind: Option<string>)

  /** The integration a run is for, and the key by which it compares room numbers. */
  datatype Importer = Importer(me: Integration, norm: string -> string)

  datatype Reason =
    | BadName
    | DeletedRoom
    | NumberTaken(oldNumber: string)
    | ManyMatches(count: nat)
    | LinkedElsewhere

  datatype Action =
    | Insert(external: string, number: string, kind: Option<string>)
    | Adopt(id: Option<nat>, external: string, number: string, kind: Option<string>)
    | Update(id: Option<nat>, external: string, number: string, kind: Option<string>)
    | Conflict(external: string, number: string, reason: Reason)

  datatype Plan = Plan(rows: seq<PlanRow>, actions: seq<Action>)

  /** The outcome for one fetched room; linked is the row that now carries its id. */
  datatype Outcome = Outcome(rows: seq<PlanRow>, action: Action, linked: Option<nat>)

  function Read(f: Fetched): Wanted {
    var kind := Strip(OrEmpty(f.kind));
    var capped := if |kind| > ROOM_TYPE_MAX then kind[..ROOM_TYPE_MAX] else kind;
    Wanted(f.external, Strip(OrEmpty(f.name)), if capped == "" then None else Some(capped))
  }

  function ReadAll(fetched: seq<Fetched>): (wanted: seq<Wanted>)
    ensures |wanted| == |fetched|
  {
    seq(|fetched|, i requires 0 <= i < |fetched| => Read(fetched[i]))
  }

  function ImporterFor(me: Integration): Importer {
    Importer(me, (number: string) => Norm(number))
  }

  function Key(im: Importer, f: Wanted): string {
    im.norm(f.number)
  }

  predicate GoodName(f: Wanted) {
    0 < |f.number| <= ROOM_NUMBER_MAX
  }

  predicate HasLink(r: PlanRow, im: Importer, external: string) {
    r.facts.owner == Some(im.me) && r.facts.external == Some(external)
  }

  /** Another live integration owns one of the rows. */
  predicate OwnedByAnother(rows: seq<PlanRow>, im: Importer) {
    exists k | 0 <= k < |rows| ::
      rows[k].facts.owner.Some? && rows[k].facts.owner != Some(im.me) && rows[k].ownerActive
  }

  /** Positions of the rows whose number compares equal to key, in order. */
  function Matches(rows: seq<PlanRow>, im: Importer, key: string): (m: seq<nat>)
    ensures forall k: nat {:trigger k in m} {:trigger im.norm(rows[k].facts.number)} ::
              k in m <==> k < |rows| && im.norm(rows[k].facts.number) == key
  {
    MatchesBelow(rows, im, key, |rows|)
  }

  function MatchesBelow(rows: seq<PlanRow>, im: Importer, key: string, n: nat): (m: seq<nat>)
    requires n <= |rows|
    ensures forall k: nat {:trigger k in m} {:trigger im.norm(rows[k].facts.number)} ::
              k in m <==> k < n && im.norm(rows[k].facts.number) == key
    ensures forall i, j :: 0 <= i < j < |m| ==> m[i] != m[j]
  {
    if n == 0 then []
    else
      var rest := MatchesBelow(rows, im, key, n - 1);
      if im.norm(rows[n - 1].facts.number) == key then rest + [n - 1] else rest
  }

  /** A row other than k already has this key. */
  predicate UsedByOther(rows: seq<PlanRow>, im: Importer, k: nat, key: string) {
    exists j | 0 <= j < |rows| :: j != k && im.norm(rows[j].facts.number) == key
  }

  predicate Adoptable(rows: seq<PlanRow>, matches: seq<nat>)
    requires forall k :: k in matches ==> k < |rows|
  {
    && |matches| == 1
    && var row := (assert matches[0] in matches; rows[matches[0]]);
    && !row.facts.deleted
    && (row.facts.owner.None? || !row.ownerActive)
  }

  /** One pass of the planner's loop, given the row that by_external finds. */
  function Decide(rows: seq<PlanRow>, im: Importer, f: Wanted, found: Option<nat>): (out: Outcome)
    requires found.Some? ==> found.value < |rows|
    ensures |rows| <= |out.rows|
    ensures out.linked.Some? ==> out.linked.value < |out.rows|
  {
    var number := f.number;
    if !GoodName(f) then
      Outcome(rows, Conflict(f.external, number, BadName), None)
    else if found.Some? then
      DecideLinked(rows, im, f, found.value)
    else
      DecideUnlinked(rows, im, f)
  }

  function DecideLinked(rows: seq<PlanRow>, im: Importer, f: Wanted, k: nat): Outcome
    requires k < |rows|
  {
    var number := f.number;
    var row := rows[k];
    if row.facts.deleted then
      Outcome(rows, Conflict(f.external, number, DeletedRoom), None)
    else if im.norm(row.facts.number) == im.norm(number) then
      Outcome(rows, Update(row.id, f.external, row.facts.number, f.kind), None)
    else if UsedByOther(rows, im, k, im.norm(number)) then
      Outcome(rows, Conflict(f.external, number, NumberTaken(row.facts.number)), None)
    else
      Outcome(rows[k := row.(facts := row.facts.(number := number))],
              Update(row.id, f.external, number, f.kind), None)
  }

  function DecideUnlinked(rows: seq<PlanRow>, im: Importer, f: Wanted): (out: Outcome)
    ensures |rows| <= |out.rows|
    ensures out.linked.Some? ==> out.linked.value < |out.rows|
  {
    var number := f.number;
    var matches := Matches(rows, im, im.norm(number));
    if matches == [] then
      Outcome(rows + [PlanRow(None, Facts(number, false, Some(im.me), Some(f.external)), true)],
              Insert(f.external, number, f.kind), Some(|rows|))
    else
      var k := matches[0];
      assert k in matches;
      var row := rows[k];
      if Adoptable(rows, matches) then
        Outcome(rows[k := row.(facts := row.facts.(owner := Some(im.me), external := Some(f.external)))],
                Adopt(row.id, f.external, row.facts.number, f.kind), Some(k))
      else
        var reason := if |matches| > 1 then ManyMatches(|matches|)
                      else if row.facts.deleted then DeletedRoom
                      else LinkedElsewhere;
        Outcome(rows, Conflict(f.external, number, reason), None)
  }

  // ----- the planner as the source runs it: with the index -----

  ghost predicate IndexInRange(index: map<string, nat>, rows: seq<PlanRow>) {
    forall e :: e in index ==> index[e] < |rows|
  }

  function Lookup(index: map<string, nat>, external: string): (found: Option<nat>) {
    if external in index then Some(index[external]) else None
  }

  /** by_external as first built: the first n rows of this integration with a non-empty external id. */
  function InitialIndex(rows: seq<PlanRow>, im: Importer, n: nat): (index: map<string, nat>)
    requires n <= |rows|
    ensures forall e :: e in index ==> index[e] < n && e != "" && HasLink(rows[index[e]], im, e)
    ensures forall k, e :: 0 <= k < n && e != "" && HasLink(rows[k], im, e) ==> e in index
  {
    if n == 0 then map[]
    else
      var index := InitialIndex(rows, im, n - 1);
      var facts := rows[n - 1].facts;
      if facts.owner == Some(im.me) && facts.external.Some? && facts.external.value != ""
      then index[facts.external.value := n - 1] else index
  }

  function NextIndex(index: map<string, nat>, external: string, linked: Option<nat>): map<string, nat> {
    if linked.Some? then index[external := linked.value] else index
  }

  datatype Indexed = Indexed(plan: Plan, index: map<string, nat>)

  /** The planner after its first i fetched rooms. */
  function IndexedPlan(start: seq<PlanRow>, im: Importer, fetched: seq<Wanted>, i: nat): (p: Indexed)
    requires i <= |fetched|
    ensures IndexInRange(p.index, p.plan.rows)
    ensures |start| <= |p.plan.rows|
    ensures |p.plan.actions| == i
  {
    if i == 0 then Indexed(Plan(start, []), InitialIndex(start, im, |start|))
    else
      var before := IndexedPlan(start, im, fetched, i - 1);
      var f := fetched[i - 1];
      var out := Decide(before.plan.rows, im, f, Lookup(before.index, f.external));
      Indexed(Plan(out.rows, before.plan.actions + [out.action]),
              NextIndex(before.index, f.external, out.linked))
  }

  // ----- the reference planner: a fresh scan of the rows for every room -----

  /** The first row linked to this external id, found by scanning. */
  function Scan(rows: seq<PlanRow>, im: Importer, external: string): (found: Option<nat>)
    ensures found.Some? ==> found.value < |rows| && HasLink(rows[found.value], im, external)
    ensures found.Some? ==>
              forall k {:trigger HasLink(rows[k], im, external)} :: 0 <= k < found.value ==>
                !HasLink(rows[k], im, external)
    ensures found.None? ==>
              forall k {:trigger HasLink(rows[k], im, external)} :: 0 <= k < |rows| ==>
                !HasLink(rows[k], im, external)
  {
    ScanFrom(rows, im, external, 0)
  }

  function ScanFrom(rows: seq<PlanRow>, im: Importer, external: string, k: nat): (found: Option<nat>)
    requires k <= |rows|
    ensures found.Some? ==> k <= found.value < |rows| && HasLink(rows[found.value], im, external)
    ensures found.Some? ==>
              forall j {:trigger HasLink(rows[j], im, external)} :: k <= j < found.value ==>
                !HasLink(rows[j], im, external)
    ensures found.None? ==>
              forall j {:trigger HasLink(rows[j], im, external)} :: k <= j < |rows| ==>
                !HasLink(rows[j], im, external)
    decreases |rows| - k
  {
    if k == |rows| then None
    else if HasLink(rows[k], im, external) then Some(k)
    else ScanFrom(rows, im, external, k + 1)
  }

  function ScanStep(rows: seq<PlanRow>, im: Importer, f: Wanted): Outcome {
    Decide(rows, im, f, Scan(rows, im, f.external))
  }

  function ScanPlan(start: seq<PlanRow>, im: Importer, fetched: seq<Wanted>, i: nat): (p: Plan)
    requires i <= |fetched|
    ensures |p.actions| == i
  {
    if i == 0 then Plan(start, [])
    else
      var before := ScanPlan(start, im, fetched, i - 1);
      var out := ScanStep(before.rows, im, fetched[i - 1]);
      Plan(out.rows, before.actions + [out.action])
  }

  /** Its rows before fetched room i. */
  ghost function RowsAt(start: seq<PlanRow>, im: Importer, fetched: seq<Wanted>, i: nat): seq<PlanRow>
    requires i <= |fetched|
  {
    ScanPlan(start, im, fetched, i).rows
  }

  /** What the planner needs of the provider: non-empty, pairwise distinct ids. */
  ghost predicate GoodFetch(fetched: seq<Wanted>) {
    && (forall i :: 0 <= i < |fetched| ==> fetched[i].external != "")
    && (forall i, j :: 0 <= i < j < |fetched| ==> fetched[i].external != fetched[j].external)
  }

  /** The external ids of the first i fetched rooms. */
  ghost function Seen(fetched: seq<Wanted>, i: nat): (seen: set<string>)
    requires i <= |fetched|
    ensures forall j :: 0 <= j < i ==> fetched[j].external in seen
    ensures GoodFetch(fetched) ==> forall j :: i <= j < |fetched| ==> fetched[j].external !in seen
  {
    if i == 0 then {} else Seen(fetched, i - 1) + {fetched[i - 1].external}
  }

  // ----- the rows of a run -----

  /** uq_room_number, exact comparison as in the table. */
  predicate UniqueNumbers(rows: seq<PlanRow>) {
    forall i, j :: 0 <= i < j < |rows| ==> rows[i].facts.number != rows[j].facts.number
  }

  predicate SameLink(a: Facts, b: Facts) {
    a.owner.Some? && a.external.Some? && a.owner == b.owner && a.external == b.external
  }

  /** uq_room_integration_external, rows without an external id exempt. */
  predicate UniqueLinks(rows: seq<PlanRow>) {
    forall i, j :: 0 <= i < j < |rows| ==> !SameLink(rows[i].facts, rows[j].facts)
  }

  /** The rows a run starts from: loaded from the table, this integration being live. */
  ghost predicate Loaded(rows: seq<PlanRow>, im: Importer) {
    && UniqueNumbers(rows)
    && UniqueLinks(rows)
    && !OwnedByAnother(rows, im)
    && (forall k :: 0 <= k < |rows| ==> rows[k].id.Some?)
    && (forall k :: 0 <= k < |rows| && rows[k].facts.owner == Some(im.me) ==> rows[k].ownerActive)
  }

  /** The rows a run has reached, n of them loaded and the ids in seen handled. */
  ghost predicate Planned(rows: seq<PlanRow>, im: Importer, n: nat, seen: set<string>) {
    && n <= |rows|
    && UniqueNumbers(rows)
    && UniqueLinks(rows)
    && !OwnedByAnother(rows, im)
    && (forall k :: 0 <= k < n ==> rows[k].id.Some?)
    && (forall k :: n <= k < |rows| ==> Inserted(rows[k], im, seen))
    && (forall k :: 0 <= k < |rows| && rows[k].facts.owner == Some(im.me) && !rows[k].ownerActive ==>
          rows[k].facts.external.Some? && rows[k].facts.external.value in seen)
  }

  ghost predicate Inserted(r: PlanRow, im: Importer, seen: set<string>) {
    && r.id.None?
    && r.ownerActive
    && !r.facts.deleted
    && r.facts.owner == Some(im.me)
    && r.facts.external.Some?
    && r.facts.external.value in seen
  }
}
