/** Cloudbeds paging: walking the pages of a list, and the room list keyed by room id. */
module Cloudbeds {
  import opened Wrappers
  import opened Dicts
  import RoomPlan
  import RoomTable

  const PAGE_SIZE := 100
  const MAX_ROOM_PAGES := 100

  datatype Error = RequestFailed

  // ----- _get_pages -----

  /** A server holding a list: it serves slices of 100, may state a total, and may fail on a page. */
  datatype ListServer<T> = ListServer(items: seq<T>, total: Option<int>, fails: nat -> bool)

  /** The walk stops on a short page, or once the stated total is collected. */
  predicate Stops<T>(s: ListServer<T>, got: nat, next: nat) {
    next - got < PAGE_SIZE || (s.total.Some? && next >= s.total.value)
  }

  /** How many items the walk from this page on ends with, None if a request fails. */
  function Walk<T>(s: ListServer<T>, page: nat, got: nat): (r: Option<nat>)
    requires got <= |s.items|
    ensures r.Some? ==> got <= r.value <= |s.items|
    decreases |s.items| - got
  {
    var next := AtMost(got + PAGE_SIZE, |s.items|);
    if s.fails(page) then None
    else if Stops(s, got, next) then Some(next)
    else Walk(s, page + 1, next)
  }

  method GetPages<T>(s: ListServer<T>) returns (r: Result<seq<T>, Error>)
    ensures r == match Walk(s, 1, 0) case None => Failure(RequestFailed) case Some(n) => Success(s.items[..n])
  {
    var items: seq<T> := [];
    var pageNumber := 1;
    while true
      invariant |items| <= |s.items| && items == s.items[..|items|]
      invariant Walk(s, 1, 0) == Walk(s, pageNumber, |items|)
      decreases |s.items| - |items|
    {
      if s.fails(pageNumber) {
        return Failure(RequestFailed);
      }
      var got := |items|;
      var page := s.items[got..AtMost(got + PAGE_SIZE, |s.items|)];
      items := items + page;
      assert items == s.items[..AtMost(got + PAGE_SIZE, |s.items|)];
      if |page| < PAGE_SIZE || (s.total.Some? && |items| >= s.total.value) {
        return Success(items);
      }
      pageNumber := pageNumber + 1;
    }
  }

  /** The last page that the walk asks for, were every request answered. */
  function LastPage<T>(s: ListServer<T>, page: nat, got: nat): (last: nat)
    requires got <= |s.items|
    ensures page <= last
    decreases |s.items| - got
  {
    var next := AtMost(got + PAGE_SIZE, |s.items|);
    if Stops(s, got, next) then page else LastPage(s, page + 1, next)
  }

  /** The walk fails exactly if one of those requests does. */
  lemma {:induction false} WalkFailsExactly<T>(s: ListServer<T>, page: nat, got: nat)
    requires got <= |s.items|
    ensures Walk(s, page, got).None? <==> exists p :: page <= p <= LastPage(s, page, got) && s.fails(p)
    decreases |s.items| - got
  {
    var next := AtMost(got + PAGE_SIZE, |s.items|);
    if !s.fails(page) && !Stops(s, got, next) {
      WalkFailsExactly(s, page + 1, next);
    }
  }

  /** The last page boundary before the end of n items: the pages hold 100 each. */
  function LastBoundary(n: nat): int {
    n - 1 - (n - 1) % 100
  }

  /** The walk returns the whole list exactly if a stated total lies beyond the last full page before the end. */
  lemma {:induction false} WalkIsComplete<T>(s: ListServer<T>, page: nat, got: nat)
    requires got <= |s.items| && got % PAGE_SIZE == 0 && forall p :: !s.fails(p)
    ensures Walk(s, page, got).Some?
    ensures Walk(s, page, got) == Some(|s.items|) <==>
            s.total.None? || |s.items| - got <= 100 || LastBoundary(|s.items|) < s.total.value
    decreases |s.items| - got
  {
    var n := |s.items|;
    var next := AtMost(got + PAGE_SIZE, n);
    if !Stops(s, got, next) {
      WalkIsComplete(s, page + 1, next);
    }
    if next < n {
      BoundaryAfter(n, next);
    }
  }

  lemma {:induction false} BoundaryAfter(n: nat, next: nat)
    requires next < n && next % PAGE_SIZE == 0
    ensures LastBoundary(n) >= next
    ensures n - next <= PAGE_SIZE ==> LastBoundary(n) == next
  {
  }

  /** With no total, or a correct one, every list comes back whole: exact multiples of 100 and the empty list too. */
  lemma {:induction false} PagesReturnTheList<T>(s: ListServer<T>)
    requires forall p :: !s.fails(p)
    requires s.total.None? || s.total == Some(|s.items|)
    ensures Walk(s, 1, 0) == Some(|s.items|)
  {
    WalkIsComplete(s, 1, 0);
    BoundaryBelow(|s.items|);
  }

  /** 150 items under a total of 100: the walk stops after the first page. */
  lemma {:induction false} SmallTotalTruncates<T>(items: seq<T>)
    requires |items| == 150
    ensures Walk(ListServer(items, Some(100), page => false), 1, 0) == Some(100)
  {
    WalkIsComplete(ListServer(items, Some(100), page => false), 1, 0);
  }

  lemma {:induction false} BoundaryBelow(n: nat)
    ensures LastBoundary(n) < n
  {
  }

  // ----- fetch_rooms -----

  /** A room as served; a missing roomID is "". */
  datatype Room = Room(id: string, name: Option<string>, kind: Option<string>, isVirtual: bool)

  datatype Response = Page(rooms: seq<Room>, total: Option<int>) | Refused

  /** The rooms with an id, keyed by it. */
  function Pairs(rooms: seq<Room>): (r: seq<Entry<string, Room>>)
    ensures forall i :: 0 <= i < |r| ==> r[i].key != "" && r[i].key == r[i].value.id
    ensures |r| <= |rooms|
  {
    if rooms == [] then []
    else
      var last := rooms[|rooms| - 1];
      var before := Pairs(rooms[..|rooms| - 1]);
      if last.id != "" then before + [Entry(last.id, last)] else before
  }

  function Keyed(rooms: seq<Room>): seq<Entry<string, Room>> {
    Stored([], Pairs(rooms))
  }

  function RoomsEnd(r: Response, all: seq<Room>, page: nat): bool
    requires r.Page?
  {
    |r.rooms| < PAGE_SIZE || (r.total.Some? && |Keyed(all)| >= r.total.value) || page >= MAX_ROOM_PAGES
  }

  /** All the rooms served from this page on, after those already got; None if a request fails. */
  function RoomWalk(server: nat -> Response, page: nat, got: seq<Room>): Option<seq<Room>>
    decreases MAX_ROOM_PAGES - page
  {
    match server(page)
    case Refused => None
    case Page(rooms, total) =>
      if RoomsEnd(server(page), got + rooms, page) then Some(got + rooms) else RoomWalk(server, page + 1, got + rooms)
  }

  /** The rooms of the pages from one to another. */
  function RoomsOfPages(server: nat -> Response, page: nat, last: nat): seq<Room>
    requires page <= last && forall p :: page <= p <= last ==> server(p).Page?
    decreases last - page
  {
    if page == last then server(page).rooms else server(page).rooms + RoomsOfPages(server, page + 1, last)
  }

  /** The walk answers with all rooms of the pages up to the first that ends it, or fails on a refused one before. */
  lemma {:induction false} RoomWalkExactly(server: nat -> Response, page: nat, got: seq<Room>) returns (last: nat)
    ensures page <= last && forall p :: page <= p < last ==> server(p).Page?
    ensures RoomWalk(server, page, got).None? <==> server(last).Refused?
    ensures RoomWalk(server, page, got).Some? ==>
              RoomWalk(server, page, got).value == got + RoomsOfPages(server, page, last)
              && RoomsEnd(server(last), RoomWalk(server, page, got).value, last)
    decreases MAX_ROOM_PAGES - page
  {
    last := page;
    if server(page).Page? && !RoomsEnd(server(page), got + server(page).rooms, page) {
      last := RoomWalkExactly(server, page + 1, got + server(page).rooms);
    }
  }

  /** The returned list: rooms that are not virtual. */
  function Export(d: seq<Entry<string, Room>>): seq<RoomPlan.Fetched> {
    if d == [] then []
    else
      var last := d[|d| - 1];
      var before := Export(d[..|d| - 1]);
      if last.value.isVirtual then before
      else before + [RoomPlan.Fetched(last.key, last.value.name, last.value.kind)]
  }

  /** The inner loop: one page into the dictionary. */
  method AddPage(d: seq<Entry<string, Room>>, ghost got: seq<Room>, page: seq<Room>)
    returns (r: seq<Entry<string, Room>>)
    requires d == Keyed(got)
    ensures r == Keyed(got + page)
  {
    r := d;
    assert got + page[..0] == got;
    for i := 0 to |page|
      invariant r == Keyed(got + page[..i])
    {
      assert (got + page[..i + 1])[..|got| + i] == got + page[..i];
      assert Pairs(got + page[..i + 1])
          == if page[i].id != "" then Pairs(got + page[..i]) + [Entry(page[i].id, page[i])] else Pairs(got + page[..i]);
      if page[i].id != "" {
        assert (Pairs(got + page[..i]) + [Entry(page[i].id, page[i])])[..|Pairs(got + page[..i])|]
            == Pairs(got + page[..i]);
        r := Put(r, page[i].id, page[i]);
      }
    }
    assert page[..|page|] == page;
  }

  /** fetch_rooms, for any server whatever. */
  method FetchRooms(server: nat -> Response) returns (r: Result<seq<RoomPlan.Fetched>, Error>)
    ensures r == match RoomWalk(server, 1, [])
                 case None => Failure(RequestFailed)
                 case Some(all) => Success(Export(Keyed(all)))
  {
    var rooms: seq<Entry<string, Room>> := [];
    ghost var got: seq<Room> := [];
    var pageNumber := 1;
    while true
      invariant 1 <= pageNumber <= MAX_ROOM_PAGES
      invariant rooms == Keyed(got)
      invariant RoomWalk(server, 1, []) == RoomWalk(server, pageNumber, got)
      decreases MAX_ROOM_PAGES - pageNumber
    {
      var response := server(pageNumber);
      if response.Refused? {
        return Failure(RequestFailed);
      }
      rooms := AddPage(rooms, got, response.rooms);
      got := got + response.rooms;
      if |response.rooms| < PAGE_SIZE || (response.total.Some? && |rooms| >= response.total.value) {
        break;
      }
      if pageNumber == MAX_ROOM_PAGES {
        break;
      }
      pageNumber := pageNumber + 1;
    }
    return Success(Export(rooms));
  }

  // ----- what the room list guarantees -----

  /** Exported rooms come from entries, in order: what their ids are, and which they are. */
  lemma {:induction false} ExportKeys(d: seq<Entry<string, Room>>, i: nat, k: string)
    requires i < |Export(d)| && !HasKey(d, k)
    ensures Export(d)[i].external != k
  {
    var n := |d| - 1;
    HasKeyLast(d, k);
    if i < |Export(d[..n])| {
      ExportKeys(d[..n], i, k);
    }
  }

  lemma {:induction false} ExportDistinct(d: seq<Entry<string, Room>>)
    requires DistinctKeys(d)
    ensures forall i, j :: 0 <= i < j < |Export(d)| ==> Export(d)[i].external != Export(d)[j].external
  {
    if d != [] {
      var n := |d| - 1;
      ExportDistinct(d[..n]);
      assert !HasKey(d[..n], d[n].key);
      forall i | 0 <= i < |Export(d[..n])| ensures Export(d[..n])[i].external != d[n].key {
        ExportKeys(d[..n], i, d[n].key);
      }
    }
  }

  lemma {:induction false} NoEmptyKey(rooms: seq<Room>)
    ensures !HasKey(Keyed(rooms), "")
  {
    StoredIsDict(Pairs(rooms));
  }

  /** Whatever the server sends, the ids are distinct and not empty, as the room planner asks. */
  lemma {:induction false} FetchedRoomsAreGood(rooms: seq<Room>)
    ensures RoomPlan.GoodFetch(RoomPlan.ReadAll(Export(Keyed(rooms))))
  {
    var d := Keyed(rooms);
    StoredIsDict(Pairs(rooms));
    ExportDistinct(d);
    NoEmptyKey(rooms);
    forall i | 0 <= i < |Export(d)| ensures Export(d)[i].external != "" {
      ExportKeys(d, i, "");
    }
  }

  /** So a room import from Cloudbeds never violates a table constraint, whatever the server sends. */
  lemma {:induction false} ImportedRoomsKeepConstraints(server: nat -> Response, t: RoomTable.Table,
          live: set<RoomPlan.Integration>, im: RoomPlan.Importer)
    requires RoomWalk(server, 1, []).Some? && RoomTable.TableOk(t) && im.me in live
    ensures var fetched := RoomPlan.ReadAll(Export(Keyed(RoomWalk(server, 1, []).value)));
            var after := RoomTable.SyncOnce(t, live, im, fetched);
            && RoomTable.TableOk(after)
            && (!RoomPlan.OwnedByAnother(RoomTable.Load(t.rooms, live), im) ==>
                  RoomTable.ExecAll(t, im, RoomTable.ActionsOf(t, live, im, fetched), |fetched|) == Success(after))
  {
    FetchedRoomsAreGood(RoomWalk(server, 1, []).value);
    RoomTable.SyncRefinesPlan(t, live, im, RoomPlan.ReadAll(Export(Keyed(RoomWalk(server, 1, []).value))));
  }

  // ----- completeness -----

  /** The rooms that page p of a list holds. */
  function Slice(rooms: seq<Room>, p: nat): seq<Room>
    requires p >= 1
  {
    rooms[AtMost(PAGE_SIZE * (p - 1), |rooms|)..AtMost(PAGE_SIZE * p, |rooms|)]
  }

  /** The server hands out the list in slices of 100, with no total or the right one. */
  ghost predicate Serves(server: nat -> Response, rooms: seq<Room>) {
    forall p: nat :: p >= 1 ==>
      && server(p).Page?
      && server(p).rooms == Slice(rooms, p)
      && (server(p).total.None? || server(p).total == Some(|rooms|))
  }

  predicate UniquelyIdentified(rooms: seq<Room>) {
    && (forall i :: 0 <= i < |rooms| ==> rooms[i].id != "")
    && (forall i, j :: 0 <= i < j < |rooms| ==> rooms[i].id != rooms[j].id)
  }

  lemma {:induction false} PairsOfIdentified(rooms: seq<Room>)
    requires UniquelyIdentified(rooms)
    ensures |Pairs(rooms)| == |rooms|
    ensures forall i :: 0 <= i < |rooms| ==> Pairs(rooms)[i] == Entry(rooms[i].id, rooms[i])
  {
    if rooms != [] {
      PairsOfIdentified(rooms[..|rooms| - 1]);
    }
  }

  /** Uniquely identified rooms are kept as they come. */
  lemma {:induction false} KeyedIsIdentity(rooms: seq<Room>)
    requires UniquelyIdentified(rooms)
    ensures Keyed(rooms) == Pairs(rooms) && |Keyed(rooms)| == |rooms|
  {
    PairsOfIdentified(rooms);
    DistinctStored(Pairs(rooms));
  }

  lemma {:induction false} Prefix(rooms: seq<Room>, p: nat)
    requires p >= 1
    ensures rooms[..AtMost(PAGE_SIZE * (p - 1), |rooms|)] + Slice(rooms, p) == rooms[..AtMost(PAGE_SIZE * p, |rooms|)]
  {
  }

  /** When the walk stops, it has the whole list or the first 10,000 rooms. */
  lemma {:induction false} EndCovers(r: Response, rooms: seq<Room>, p: nat)
    requires r.Page? && 1 <= p <= MAX_ROOM_PAGES && PAGE_SIZE * (p - 1) <= |rooms| && r.rooms == Slice(rooms, p)
    requires r.total.None? || r.total == Some(|rooms|)
    requires |Keyed(rooms[..AtMost(PAGE_SIZE * p, |rooms|)])| == AtMost(PAGE_SIZE * p, |rooms|)
    requires RoomsEnd(r, rooms[..AtMost(PAGE_SIZE * p, |rooms|)], p)
    ensures AtMost(PAGE_SIZE * p, |rooms|) == AtMost(PAGE_SIZE * MAX_ROOM_PAGES, |rooms|)
  {
  }

  lemma {:induction false} WalkReachesEnd(server: nat -> Response, rooms: seq<Room>, p: nat)
    requires Serves(server, rooms) && UniquelyIdentified(rooms) && 1 <= p <= MAX_ROOM_PAGES
    requires PAGE_SIZE * (p - 1) <= |rooms|
    ensures RoomWalk(server, p, rooms[..AtMost(PAGE_SIZE * (p - 1), |rooms|)])
         == Some(rooms[..AtMost(PAGE_SIZE * MAX_ROOM_PAGES, |rooms|)])
    decreases MAX_ROOM_PAGES - p
  {
    var all := rooms[..AtMost(PAGE_SIZE * p, |rooms|)];
    assert server(p).Page? && server(p).rooms == Slice(rooms, p);
    Prefix(rooms, p);
    KeyedIsIdentity(all);
    if RoomsEnd(server(p), all, p) {
      EndCovers(server(p), rooms, p);
    } else {
      WalkReachesEnd(server, rooms, p + 1);
    }
  }

  function AsFetched(r: Room): RoomPlan.Fetched {
    RoomPlan.Fetched(r.id, r.name, r.kind)
  }

  /** What is exported is exactly the rooms that are not virtual. */
  lemma {:induction false} ExportOfIdentified(rooms: seq<Room>, f: RoomPlan.Fetched)
    requires UniquelyIdentified(rooms)
    ensures f in Export(Pairs(rooms)) <==>
            exists i :: 0 <= i < |rooms| && !rooms[i].isVirtual && f == AsFetched(rooms[i])
  {
    if rooms != [] {
      var n := |rooms| - 1;
      ExportOfIdentified(rooms[..n], f);
      assert Pairs(rooms)[..n] == Pairs(rooms[..n]) by {
        PairsOfIdentified(rooms);
        PairsOfIdentified(rooms[..n]);
      }
      PairsOfIdentified(rooms);
      if f in Export(Pairs(rooms[..n])) {
        var i :| 0 <= i < n && !rooms[..n][i].isVirtual && f == AsFetched(rooms[..n][i]);
        assert !rooms[i].isVirtual && f == AsFetched(rooms[i]);
      }
      if i :| 0 <= i < |rooms| && !rooms[i].isVirtual && f == AsFetched(rooms[i]) {
        assert i < n ==> !rooms[..n][i].isVirtual && f == AsFetched(rooms[..n][i]);
      }
    }
  }

  /** Up to 10,000 uniquely identified rooms come back in full; of more, the first 10,000. */
  lemma {:induction false} FetchRoomsIsComplete(server: nat -> Response, rooms: seq<Room>, f: RoomPlan.Fetched)
    requires Serves(server, rooms) && UniquelyIdentified(rooms)
    ensures var all := rooms[..AtMost(10_000, |rooms|)];
            && RoomWalk(server, 1, []) == Some(all)
            && (f in Export(Keyed(all)) <==>
                  exists i :: 0 <= i < |all| && !all[i].isVirtual
                              && f == RoomPlan.Fetched(all[i].id, all[i].name, all[i].kind))
  {
    var all := rooms[..AtMost(10_000, |rooms|)];
    WalkReachesEnd(server, rooms, 1);
    assert rooms[..0] == [];
    KeyedIsIdentity(all);
    ExportOfIdentified(all, f);
  }
}
