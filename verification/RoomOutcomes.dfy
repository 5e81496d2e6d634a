/**
 What a room import answers and writes, said of the fields of rooms, fetched rooms
 and statements alone.
 */
module RoomOutcomes {
  import opened Wrappers
  import opened RoomPlan
  import opened RoomRules
  import opened RoomTable
  import opened RoomTargets
  import opened RoomText

  // ----- reading what was fetched -----

  /** The twenty-nine white space characters of Python's str.strip, by code point. */
  const WHITE_SPACE: set<int> := {
    9, 10, 11, 12, 13, 28, 29, 30, 31, 32, 0x85, 0xA0, 0x1680, 0x2000, 0x2001, 0x2002, 0x2003, 0x2004, 0x2005,
    0x2006, 0x2007, 0x2008, 0x2009, 0x200A, 0x2028, 0x2029, 0x202F, 0x205F, 0x3000
  }

  /** Only white space. */
  predicate White(s: string) {
    forall i :: 0 <= i < |s| ==> s[i] as int in WHITE_SPACE
  }

  /** core is s without the white space around it. */
  ghost predicate Trims(s: string, core: string) {
    && (exists left: string, right: string :: White(left) && White(right) && s == left + core + right)
    && (core != "" ==> core[0] as int !in WHITE_SPACE && core[|core| - 1] as int !in WHITE_SPACE)
  }

  lemma {:induction false} SpaceIsWhite(c: char)
    ensures IsSpace(c) <==> c as int in WHITE_SPACE
  {
  }

  lemma {:induction false} BlankIsWhite(s: string)
    ensures Blank(s) <==> White(s)
  {
    forall i | 0 <= i < |s| ensures IsSpace(s[i]) <==> s[i] as int in WHITE_SPACE {
      SpaceIsWhite(s[i]);
    }
  }

  lemma {:induction false} OneMoreLeft(s: string, c: char, tail: string, left: string, core: string)
    requires s == [c] + tail && tail == left + core && IsSpace(c) && Blank(left)
    ensures Blank([c] + left) && s == [c] + left + core
  {
  }

  lemma {:induction false} StripLeftParts(s: string) returns (left: string)
    ensures Blank(left) && s == left + StripLeft(s)
  {
    if s != "" && IsSpace(s[0]) {
      var tail := s[1..];
      left := StripLeftParts(tail);
      OneMoreLeft(s, s[0], tail, left, StripLeft(tail));
      left := [s[0]] + left;
    } else {
      left := "";
    }
  }

  lemma {:induction false} OneMoreRight(s: string, front: string, c: char, core: string, right: string)
    requires s == front + [c] && front == core + right && IsSpace(c) && Blank(right)
    ensures Blank(right + [c]) && s == core + (right + [c])
  {
  }

  lemma {:induction false} StripRightParts(s: string) returns (right: string)
    ensures Blank(right) && s == StripRight(s) + right
  {
    if s != "" && IsSpace(s[|s| - 1]) {
      var front := s[..|s| - 1];
      right := StripRightParts(front);
      OneMoreRight(s, front, s[|s| - 1], StripRight(front), right);
      right := right + [s[|s| - 1]];
    } else {
      right := "";
    }
  }

  lemma {:induction false} StripParts(s: string) returns (left: string, right: string)
    ensures Blank(left) && Blank(right) && s == left + Strip(s) + right
    ensures Strip(s) != "" ==> !IsSpace(Strip(s)[0]) && !IsSpace(Strip(s)[|Strip(s)| - 1])
  {
    left := StripLeftParts(s);
    right := StripRightParts(StripLeft(s));
    StripLeftEnds(s);
    StripRightEnds(StripLeft(s));
    assert Strip(s) != "" ==> Strip(s)[0] == StripLeft(s)[0];
  }

  lemma {:induction false} PartsTrim(s: string, left: string, core: string, right: string)
    requires White(left) && White(right) && s == left + core + right
    requires core != "" ==> core[0] as int !in WHITE_SPACE && core[|core| - 1] as int !in WHITE_SPACE
    ensures Trims(s, core)
  {
  }

  lemma {:induction false} StripTrims(s: string)
    ensures Trims(s, Strip(s))
  {
    var left, right := StripParts(s);
    BlankIsWhite(left);
    BlankIsWhite(right);
    if Strip(s) != "" {
      SpaceIsWhite(Strip(s)[0]);
      SpaceIsWhite(Strip(s)[|Strip(s)| - 1]);
    }
    PartsTrim(s, left, Strip(s), right);
  }

  /** A fetched room keeps its id, and its number is the trimmed name. */
  lemma {:induction false} ReadNumber(f: Fetched)
    ensures Read(f).external == f.external
    ensures f.name.None? ==> Read(f).number == ""
    ensures f.name.Some? ==> Trims(f.name.value, Read(f).number)
  {
    if f.name.Some? {
      StripTrims(f.name.value);
    }
  }

  /** Its kind is the first 100 characters of the trimmed type, if there are any. */
  lemma {:induction false} ReadKind(f: Fetched) returns (core: string)
    ensures if f.kind.Some? then Trims(f.kind.value, core) else core == ""
    ensures Read(f).kind == if core == "" then None else Some(core[..AtMost(|core|, 100)])
  {
    core := Strip(OrEmpty(f.kind));
    if f.kind.Some? {
      StripTrims(f.kind.value);
    }
    WholeOrCut(core);
  }

  lemma {:induction false} WholeOrCut(core: string)
    ensures core[..AtMost(|core|, 100)] == if |core| > 100 then core[..100] else core
  {
  }

  // ----- one fetched room -----

  /** Row k is the first that belongs to this integration under this id. */
  ghost predicate FirstLinked(rows: seq<PlanRow>, im: Importer, external: string, k: nat) {
    && k < |rows|
    && rows[k].facts.owner == Some(im.me) && rows[k].facts.external == Some(external)
    && forall j :: 0 <= j < k ==> rows[j].facts.owner != Some(im.me) || rows[j].facts.external != Some(external)
  }

  predicate SameNumber(row: PlanRow, im: Importer, f: Wanted) {
    im.norm(row.facts.number) == im.norm(f.number)
  }

  /** What happens to a room whose id a row carries. */
  ghost predicate LinkedOutcome(rows: seq<PlanRow>, im: Importer, f: Wanted, k: nat, out: Outcome)
    requires k < |rows|
  {
    var row := rows[k];
    if row.facts.deleted then
      out.rows == rows && out.action == Conflict(f.external, f.number, DeletedRoom)
    else if SameNumber(row, im, f) then
      out.rows == rows && out.action == Update(row.id, f.external, row.facts.number, f.kind)
    else if exists j :: 0 <= j < |rows| && j != k && SameNumber(rows[j], im, f) then
      out.rows == rows && out.action == Conflict(f.external, f.number, NumberTaken(row.facts.number))
    else
      && out.rows
         == rows[k := PlanRow(row.id, Facts(f.number, false, row.facts.owner, row.facts.external), row.ownerActive)]
      && out.action == Update(row.id, f.external, f.number, f.kind)
  }

  /** What happens to one whose id no row carries, k being the only row of its number. */
  ghost predicate MatchedOutcome(rows: seq<PlanRow>, im: Importer, f: Wanted, k: nat, out: Outcome)
    requires k < |rows|
  {
    var row := rows[k];
    if row.facts.deleted then
      out.rows == rows && out.action == Conflict(f.external, f.number, DeletedRoom)
    else if row.facts.owner.Some? && row.ownerActive then
      out.rows == rows && out.action == Conflict(f.external, f.number, LinkedElsewhere)
    else
      && out.rows
         == rows[k := PlanRow(row.id, Facts(row.facts.number, false, Some(im.me), Some(f.external)), row.ownerActive)]
      && out.action == Adopt(row.id, f.external, row.facts.number, f.kind)
  }

  lemma {:induction false} FirstLinkedIsScanned(rows: seq<PlanRow>, im: Importer, external: string)
    ensures Scan(rows, im, external).Some? ==> FirstLinked(rows, im, external, Scan(rows, im, external).value)
    ensures Scan(rows, im, external).None? ==>
              forall k :: 0 <= k < |rows| ==>
                rows[k].facts.owner != Some(im.me) || rows[k].facts.external != Some(external)
  {
    assert forall k :: 0 <= k < |rows| ==>
        (HasLink(rows[k], im, external) <==>
           rows[k].facts.owner == Some(im.me) && rows[k].facts.external == Some(external));
  }

  /** A room without a usable name, of at most 50 characters, is a conflict and changes nothing. */
  lemma {:induction false} NamelessConflicts(rows: seq<PlanRow>, im: Importer, f: Wanted)
    requires f.number == "" || |f.number| > 50
    ensures ScanStep(rows, im, f).rows == rows
    ensures ScanStep(rows, im, f).action == Conflict(f.external, f.number, BadName)
  {
  }

  /** A room whose id a row carries refreshes the first such row, or is a conflict. */
  lemma {:induction false} LinkedIsRefreshed(rows: seq<PlanRow>, im: Importer, f: Wanted, k: nat)
    requires 0 < |f.number| <= 50 && FirstLinked(rows, im, f.external, k)
    ensures LinkedOutcome(rows, im, f, k, ScanStep(rows, im, f))
  {
    FirstLinkedIsScanned(rows, im, f.external);
    var found := Scan(rows, im, f.external);
    assert HasLink(rows[k], im, f.external);
    assert found == Some(k);
  }

  /** A room whose id no row carries is inserted, adopts the one row of its number, or is a conflict. */
  lemma {:induction false} UnlinkedIsPlaced(rows: seq<PlanRow>, im: Importer, f: Wanted)
    requires 0 < |f.number| <= 50
    requires forall k :: 0 <= k < |rows| ==>
               rows[k].facts.owner != Some(im.me) || rows[k].facts.external != Some(f.external)
    ensures var out, same := ScanStep(rows, im, f), SameNumbers(rows, im, f, |rows|);
            if same == {} then
              && out.rows == rows + [PlanRow(None, Facts(f.number, false, Some(im.me), Some(f.external)), true)]
              && out.action == Insert(f.external, f.number, f.kind)
            else if |same| == 1 then
              exists k :: 0 <= k < |rows| && same == {k} && MatchedOutcome(rows, im, f, k, out)
            else out.rows == rows && out.action == Conflict(f.external, f.number, ManyMatches(|same|))
  {
    FirstLinkedIsScanned(rows, im, f.external);
    var m, same := Matches(rows, im, Key(im, f)), SameNumbers(rows, im, f, |rows|);
    MatchesAreSame(rows, im, f, |rows|);
    if m != [] {
      assert m[0] in m && m[0] in same;
    }
    if |m| == 1 {
      OnlyMember(same, m[0]);
    }
  }

  /** Which of the first n rows have the number of the fetched room. */
  function SameNumbers(rows: seq<PlanRow>, im: Importer, f: Wanted, n: nat): set<int>
    requires n <= |rows|
  {
    set k | 0 <= k < n && SameNumber(rows[k], im, f)
  }

  lemma {:induction false} SameNumbersNext(rows: seq<PlanRow>, im: Importer, f: Wanted, n: nat)
    requires n < |rows|
    ensures |SameNumbers(rows, im, f, n + 1)|
         == |SameNumbers(rows, im, f, n)| + if SameNumber(rows[n], im, f) then 1 else 0
  {
    assert SameNumbers(rows, im, f, n + 1)
        == SameNumbers(rows, im, f, n) + if SameNumber(rows[n], im, f) then {n} else {};
  }

  lemma {:induction false} MatchesAreSame(rows: seq<PlanRow>, im: Importer, f: Wanted, n: nat)
    requires n <= |rows|
    ensures |MatchesBelow(rows, im, Key(im, f), n)| == |SameNumbers(rows, im, f, n)|
  {
    if n > 0 {
      MatchesAreSame(rows, im, f, n - 1);
      SameNumbersNext(rows, im, f, n - 1);
    }
  }

  lemma {:induction false} OnlyMember(s: set<int>, x: int)
    requires |s| == 1 && x in s
    ensures s == {x}
  {
    assert |s - {x}| == 0;
  }

  // ----- statements -----

  /** What one statement makes of room k, and which room it adds. */
  lemma {:induction false} StatementWrites(t: Table, im: Importer, a: Action, k: nat)
    requires k < |t.rooms| && Exec(t, im, a).Success?
    ensures var u, room := Exec(t, im, a).value, t.rooms[k];
            match a
            case Insert(external, number, kind) =>
              && u.rooms == t.rooms + [Room(t.nextId, Facts(number, false, Some(im.me), Some(external)), kind)]
              && u.nextId == t.nextId + 1
            case Adopt(id, external, number, kind) =>
              && u == t.(rooms := u.rooms) && |u.rooms| == |t.rooms|
              && u.rooms[k] == Linked(room, im, id, external, number, kind)
            case Update(id, external, number, kind) =>
              && u == t.(rooms := u.rooms) && |u.rooms| == |t.rooms|
              && u.rooms[k] == Linked(room, im, id, external, number, kind)
            case Conflict(_, _, _) => u == t
  {
  }

  /** The room with that id gets number and link, and the new kind if there is one. */
  function Linked(room: Room, im: Importer, id: Option<nat>, external: string, number: string,
                  kind: Option<string>): Room {
    if id != Some(room.id) then room
    else Room(room.id, Facts(number, room.facts.deleted, Some(im.me), Some(external)),
              match kind case Some(k) => Some(k) case None => room.kind)
  }

  /** Two rooms have one number, or one owner and one external id. */
  predicate Collide(a: Room, b: Room) {
    || a.facts.number == b.facts.number
    || (a.facts.owner.Some? && a.facts.external.Some?
        && (a.facts.owner, a.facts.external) == (b.facts.owner, b.facts.external))
  }

  /** A statement fails exactly if two rooms would collide. */
  lemma {:induction false} FailsOnCollision(t: Table, im: Importer, a: Action)
    ensures Exec(t, im, a).Failure? <==>
            var rooms := Written(t, im, a).rooms;
            exists j, k :: 0 <= j < k < |rooms| && Collide(rooms[j], rooms[k])
  {
    var rooms := Written(t, im, a).rooms;
    var rows := Load(rooms, {});
    forall j, k | 0 <= j < k < |rooms|
      ensures Collide(rooms[j], rooms[k]) <==>
              rows[j].facts.number == rows[k].facts.number || SameLink(rows[j].facts, rows[k].facts)
    {
    }
  }

  // ----- the summary -----

  /** The conflicts come in order, each with its number and reason, and each kind of action is tallied. */
  lemma {:induction false} SummaryRules(actions: seq<Action>, i: nat)
    requires i < |actions|
    ensures CountsOf(actions, 0) == Counts(0, 0, 0, 0) && ConflictsOf(actions, 0) == []
    ensures var before, after := CountsOf(actions, i), CountsOf(actions, i + 1);
            after == Counts(before.insert + if actions[i].Insert? then 1 else 0,
                            before.adopt + if actions[i].Adopt? then 1 else 0,
                            before.update + if actions[i].Update? then 1 else 0,
                            before.conflict + if actions[i].Conflict? then 1 else 0)
    ensures actions[i].Conflict? ==>
              |ConflictsOf(actions, i + 1)| == CountsOf(actions, i).conflict + 1
              && ConflictsOf(actions, i + 1)[CountsOf(actions, i).conflict] == (actions[i].number, actions[i].reason)
  {
  }

  lemma {:induction false} ConflictsStay(actions: seq<Action>, i: nat, j: nat)
    requires i <= j <= |actions|
    ensures ConflictsOf(actions, i) <= ConflictsOf(actions, j)
  {
    if i < j {
      ConflictsStay(actions, i, j - 1);
    }
  }

  // ----- adoption in a whole run -----

  /** Row r is the only one of this number, not deleted, and free. */
  ghost predicate Free(rows: seq<PlanRow>, im: Importer, r: nat, key: string, number: string) {
    && r < |rows|
    && OnlyMatch(rows, im, r, key)
    && rows[r].facts.number == number
    && FreeToAdopt(rows[r])
  }

  lemma {:induction false} FreeStays(start: seq<PlanRow>, rows: seq<PlanRow>, im: Importer, seen: set<string>,
          f: Wanted, r: nat, key: string, number: string)
    requires Reached(start, rows, im, seen) && f.external !in seen && Free(rows, im, r, key, number)
    ensures Free(ScanStep(rows, im, f).rows, im, r, key, number)
  {
    var found := Scan(rows, im, f.external);
    var matches := Matches(rows, im, Key(im, f));
    if matches != [] {
      assert matches[0] in matches;
    }
    if found.Some? {
      assert found.value != r;
      assert Key(im, f) == key ==> UsedByOther(rows, im, found.value, key);
    } else if Key(im, f) == key {
      assert r in matches;
    }
  }

  lemma {:induction false} FreeUpTo(start: seq<PlanRow>, im: Importer, fetched: seq<Wanted>, j: nat, r: nat,
          key: string, number: string)
    requires FromTable(start, im) && GoodFetch(fetched) && j <= |fetched| && Free(start, im, r, key, number)
    ensures Free(RowsAt(start, im, fetched, j), im, r, key, number)
  {
    if j > 0 {
      FreeUpTo(start, im, fetched, j - 1, r, key, number);
      PlanReaches(start, im, fetched, j - 1);
      RowsNext(start, im, fetched, j - 1);
      FreeStays(start, RowsAt(start, im, fetched, j - 1), im, Seen(fetched, j - 1), fetched[j - 1], r, key, number);
    }
  }

  /** A free row is adopted by the room of its number. */
  lemma {:induction false} FreeIsAdopted(rows: seq<PlanRow>, im: Importer, f: Wanted, r: nat, number: string)
    requires GoodName(f) && Free(rows, im, r, Key(im, f), number) && Scan(rows, im, f.external).None?
    ensures ScanStep(rows, im, f).action == Adopt(rows[r].id, f.external, number, f.kind)
    ensures ScanStep(rows, im, f).rows
         == rows[r := rows[r].(facts := rows[r].facts.(owner := Some(im.me), external := Some(f.external)))]
  {
    OneMatchIsOnly(rows, im, Key(im, f));
    assert r in Matches(rows, im, Key(im, f));
  }

  /** Row r has been given this link and keeps its number. */
  ghost predicate Given(rows: seq<PlanRow>, im: Importer, r: nat, key: string, facts: Facts) {
    && Held(rows, im, r, key)
    && rows[r].facts == facts
  }

  lemma {:induction false} GivenStays(start: seq<PlanRow>, rows: seq<PlanRow>, im: Importer, seen: set<string>,
          f: Wanted, r: nat, key: string, facts: Facts)
    requires Reached(start, rows, im, seen) && f.external !in seen && Given(rows, im, r, key, facts)
    requires Key(im, f) != key
    ensures Given(ScanStep(rows, im, f).rows, im, r, key, facts)
  {
    HeldStays(start, rows, im, seen, f, r, key);
    var matches := Matches(rows, im, Key(im, f));
    if matches != [] {
      assert matches[0] in matches;
    }
  }

  lemma {:induction false} GivenUpTo(start: seq<PlanRow>, im: Importer, fetched: seq<Wanted>, i: nat, j: nat,
          r: nat, key: string, facts: Facts)
    requires FromTable(start, im) && GoodFetch(fetched) && i <= j <= |fetched|
    requires Given(RowsAt(start, im, fetched, i), im, r, key, facts)
    requires forall n :: i <= n < j ==> Key(im, fetched[n]) != key
    ensures Given(RowsAt(start, im, fetched, j), im, r, key, facts)
  {
    if i < j {
      GivenUpTo(start, im, fetched, i, j - 1, r, key, facts);
      PlanReaches(start, im, fetched, j - 1);
      RowsNext(start, im, fetched, j - 1);
      GivenStays(start, RowsAt(start, im, fetched, j - 1), im, Seen(fetched, j - 1), fetched[j - 1], r, key, facts);
    }
  }

  /** Room k alone has f's number, is not deleted and has no live owner, and no room carries f's id. */
  ghost predicate Adoptee(t: Table, live: set<Integration>, im: Importer, f: Wanted, k: nat) {
    && 0 < |f.number| <= 50
    && k < |t.rooms|
    && (forall i :: 0 <= i < |t.rooms| ==>
          (im.norm(t.rooms[i].facts.number) == im.norm(f.number) <==> i == k)
          && (t.rooms[i].facts.owner != Some(im.me) || t.rooms[i].facts.external != Some(f.external)))
    && !t.rooms[k].facts.deleted
    && (t.rooms[k].facts.owner.Some? ==> t.rooms[k].facts.owner.value !in live)
  }

  lemma {:induction false} AdopteeIsFree(t: Table, live: set<Integration>, im: Importer, f: Wanted, k: nat)
    requires Adoptee(t, live, im, f, k)
    ensures Free(Load(t.rooms, live), im, k, Key(im, f), t.rooms[k].facts.number)
    ensures Scan(Load(t.rooms, live), im, f.external).None?
  {
    var rows := Load(t.rooms, live);
    forall i | 0 <= i < |rows| ensures rows[i].facts == t.rooms[i].facts && !HasLink(rows[i], im, f.external) {
    }
    assert rows[k].facts == t.rooms[k].facts;
  }

  /**
   When no other live integration owns a room, a run adopts every such room for
   the fetched room, whatever else it handles before.
   */
  lemma {:induction false} SoleMatchIsAdopted(t: Table, live: set<Integration>, im: Importer, fetched: seq<Wanted>,
          j: nat, k: nat)
    requires TableOk(t) && im.me in live && GoodFetch(fetched) && j < |fetched|
    requires !OthersRoom(t.rooms, live, im) && Adoptee(t, live, im, fetched[j], k)
    ensures var f, actions := fetched[j], ActionsOf(t, live, im, fetched);
            && |actions| == |fetched|
            && actions[j] == Adopt(Some(t.rooms[k].id), f.external, t.rooms[k].facts.number, f.kind)
  {
    var start := Load(t.rooms, live);
    SkippedExactly(t.rooms, live, im);
    LoadIsFromTable(t, live, im);
    SyncRefinesPlan(t, live, im, fetched);
    AdopteeIsFree(t, live, im, fetched[j], k);
    var number := t.rooms[k].facts.number;
    FreeUpTo(start, im, fetched, j, k, Key(im, fetched[j]), number);
    LinksStay(start, im, fetched, j, j);
    PlanReaches(start, im, fetched, j);
    FreeIsAdopted(RowsAt(start, im, fetched, j), im, fetched[j], k, number);
    ActionOfStep(start, im, fetched, j, |fetched|);
  }

  lemma {:induction false} GivenAtEnd(start: seq<PlanRow>, im: Importer, fetched: seq<Wanted>, j: nat, k: nat,
          number: string)
    requires FromTable(start, im) && GoodFetch(fetched) && j < |fetched| && GoodName(fetched[j])
    requires Free(start, im, k, Key(im, fetched[j]), number) && Scan(start, im, fetched[j].external).None?
    requires forall i :: j < i < |fetched| ==> Key(im, fetched[i]) != Key(im, fetched[j])
    ensures Given(RowsAt(start, im, fetched, |fetched|), im, k, Key(im, fetched[j]),
                  Facts(number, false, Some(im.me), Some(fetched[j].external)))
  {
    FreeUpTo(start, im, fetched, j, k, Key(im, fetched[j]), number);
    LinksStay(start, im, fetched, j, j);
    PlanReaches(start, im, fetched, j);
    RowsNext(start, im, fetched, j);
    FreeIsGiven(RowsAt(start, im, fetched, j), im, fetched[j], k, number);
    GivenUpTo(start, im, fetched, j + 1, |fetched|, k, Key(im, fetched[j]),
              Facts(number, false, Some(im.me), Some(fetched[j].external)));
  }

  lemma {:induction false} FreeIsGiven(rows: seq<PlanRow>, im: Importer, f: Wanted, r: nat, number: string)
    requires GoodName(f) && Free(rows, im, r, Key(im, f), number) && Scan(rows, im, f.external).None?
    requires OwnerlessInactive(rows)
    ensures Given(ScanStep(rows, im, f).rows, im, r, Key(im, f), Facts(number, false, Some(im.me), Some(f.external)))
  {
    FreeIsAdopted(rows, im, f, r, number);
  }

  /** After the run the room is this integration's under that id, unless a later fetched room has its number. */
  lemma {:induction false} AdoptedIsOwned(t: Table, live: set<Integration>, im: Importer, fetched: seq<Wanted>, j: nat,
          k: nat)
    requires TableOk(t) && im.me in live && GoodFetch(fetched) && j < |fetched|
    requires !OthersRoom(t.rooms, live, im) && Adoptee(t, live, im, fetched[j], k)
    requires forall i :: j < i < |fetched| ==> Key(im, fetched[i]) != Key(im, fetched[j])
    ensures var rooms := SyncOnce(t, live, im, fetched).rooms;
            && k < |rooms| && rooms[k].id == t.rooms[k].id
            && rooms[k].facts == Facts(t.rooms[k].facts.number, false, Some(im.me), Some(fetched[j].external))
  {
    var start := Load(t.rooms, live);
    SkippedExactly(t.rooms, live, im);
    LoadIsFromTable(t, live, im);
    SyncRefinesPlan(t, live, im, fetched);
    AdopteeIsFree(t, live, im, fetched[j], k);
    GivenAtEnd(start, im, fetched, j, k, t.rooms[k].facts.number);
    PlanReaches(start, im, fetched, |fetched|);
  }
}
