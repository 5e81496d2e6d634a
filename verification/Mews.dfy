/** Mews reservations: cursor paging inside a walk over date windows, keyed by reservation id. */
module Mews {
  import opened Wrappers
  import opened Dicts

  /** Times are in seconds. */
  const DAY := 86400
  const PAGE_SIZE := 1000
  /** INTERVAL_DAYS of 30 */
  const INTERVAL := 30 * DAY

  datatype Error = RequestFailed

  /** A reservation with its scheduled stay. */
  datatype Stay = Stay(id: string, start: int, end: int)

  // ----- _get_all -----

  /** A server that pages through a list by cursor; after a last full page it may still hand out a cursor. */
  datatype CursorServer<T> = CursorServer(items: seq<T>, cursorAtEnd: bool, fails: nat -> bool)

  /** Whether every request from this position on is answered. */
  predicate Answered<T>(s: CursorServer<T>, got: nat)
    requires got <= |s.items|
    decreases |s.items| - got
  {
    var next := AtMost(got + PAGE_SIZE, |s.items|);
    && !s.fails(got)
    && (next - got < PAGE_SIZE || (next == |s.items| && !s.cursorAtEnd) || Answered(s, next))
  }

  /** A position that the paging asks for: the pages hold 1000 each. */
  predicate Asked<T>(s: CursorServer<T>, p: nat) {
    p % 1000 == 0 && (p == 0 || p < |s.items| || (p == |s.items| && s.cursorAtEnd))
  }

  /** All requests are answered exactly if none fails at the start of a page, or after a last full one with a cursor. */
  lemma {:induction false} AnsweredExactly<T>(s: CursorServer<T>, got: nat)
    requires got <= |s.items| && Asked(s, got)
    ensures Answered(s, got) <==> forall p: nat :: got <= p && Asked(s, p) ==> !s.fails(p)
    decreases |s.items| - got
  {
    var next := AtMost(got + PAGE_SIZE, |s.items|);
    if next - got < PAGE_SIZE || (next == |s.items| && !s.cursorAtEnd) {
      forall p: nat | got <= p && Asked(s, p) ensures p == got {
        NoneBetween(got, p);
      }
    } else {
      AnsweredExactly(s, next);
      forall p: nat | got <= p && Asked(s, p) ensures p == got || next <= p {
        NoneBetween(got, p);
      }
    }
  }

  lemma {:induction false} NoneBetween(got: nat, p: nat)
    requires got % 1000 == 0 && p % 1000 == 0 && got <= p
    ensures p == got || got + PAGE_SIZE <= p
  {
  }

  method GetAll<T>(s: CursorServer<T>) returns (r: Result<seq<T>, Error>)
    ensures r == if Answered(s, 0) then Success(s.items) else Failure(RequestFailed)
  {
    var items: seq<T> := [];
    while true
      invariant |items| <= |s.items| && items == s.items[..|items|]
      invariant Answered(s, 0) == Answered(s, |items|)
      decreases |s.items| - |items|
    {
      if s.fails(|items|) {
        return Failure(RequestFailed);
      }
      var next := if |items| + PAGE_SIZE <= |s.items| then |items| + PAGE_SIZE else |s.items|;
      var page := s.items[|items|..next];
      var cursor := next < |s.items| || (s.cursorAtEnd && |page| == PAGE_SIZE);
      ghost var got := |items|;
      items := items + page;
      assert items == s.items[..next];
      assert Answered(s, got) <==>
          |page| < PAGE_SIZE || (next == |s.items| && !s.cursorAtEnd) || Answered(s, next);
      if |page| < PAGE_SIZE || !cursor {
        assert next == |s.items| && items == s.items;
        return Success(items);
      }
    }
  }

  // ----- the windows -----

  /** What the server returns for an interval, whose end is exclusive: the stays that reach into it. */
  predicate Collides(s: Stay, from: int, to: int) {
    s.start < to && s.end > from
  }

  function Colliding(stays: seq<Stay>, from: int, to: int): (r: seq<Stay>)
    ensures forall s {:trigger s in r} :: s in r <==> s in stays && Collides(s, from, to)
  {
    if stays == [] then []
    else
      var last := stays[|stays| - 1];
      var before := Colliding(stays[..|stays| - 1], from, to);
      assert forall s :: s in stays <==> s in stays[..|stays| - 1] || s == last;
      if Collides(last, from, to) then before + [last] else before
  }

  function WindowEnd(start: int, end: int): int {
    if start + INTERVAL <= end then start + INTERVAL else end
  }

  /** The windows that the walk asks for. */
  function Windows(start: int, end: int): seq<(int, int)>
    decreases end - start
  {
    if start >= end then [] else [(start, WindowEnd(start, end))] + Windows(WindowEnd(start, end), end)
  }

  /** The reservations of all the windows, in the order of arrival. */
  function Found(stays: seq<Stay>, start: int, end: int): seq<Stay>
    decreases end - start
  {
    if start >= end then []
    else Colliding(stays, start, WindowEnd(start, end)) + Found(stays, WindowEnd(start, end), end)
  }

  function ById(stays: seq<Stay>): (r: seq<Entry<string, Stay>>)
    ensures |r| == |stays|
    ensures forall i :: 0 <= i < |r| ==> r[i] == Entry(stays[i].id, stays[i])
  {
    seq(|stays|, i requires 0 <= i < |stays| => Entry(stays[i].id, stays[i]))
  }

  function Values(d: seq<Entry<string, Stay>>): (r: seq<Stay>)
    ensures |r| == |d|
    ensures forall i :: 0 <= i < |r| ==> r[i] == d[i].value
  {
    seq(|d|, i requires 0 <= i < |d| => d[i].value)
  }

  /** The reservations, how they are paged, and which requests fail. */
  datatype Server = Server(stays: seq<Stay>, cursorAtEnd: bool, fails: (int, nat) -> bool)

  /** The server as asked for one window. */
  function WindowOf(server: Server, start: int, end: int): CursorServer<Stay> {
    CursorServer(Colliding(server.stays, start, end), server.cursorAtEnd,
                 (position: nat) => server.fails(start, position))
  }

  /** Whether the requests of all windows from start on are answered. */
  predicate AllAnswered(server: Server, start: int, end: int)
    decreases end - start
  {
    start >= end || (Answered(WindowOf(server, start, WindowEnd(start, end)), 0)
                     && AllAnswered(server, WindowEnd(start, end), end))
  }

  /** They are exactly if each window's are. */
  lemma {:induction false} AllAnsweredExactly(server: Server, start: int, end: int)
    ensures AllAnswered(server, start, end) <==>
            forall w :: w in Windows(start, end) ==> Answered(WindowOf(server, w.0, w.1), 0)
    decreases end - start
  {
    if start < end {
      var next := WindowEnd(start, end);
      AllAnsweredExactly(server, next, end);
      assert Windows(start, end) == [(start, next)] + Windows(next, end);
      assert forall w :: w in Windows(start, end) <==> w == (start, next) || w in Windows(next, end);
    }
  }

  /** The loop over one window's reservations. */
  method Keep(seen: seq<Entry<string, Stay>>, page: seq<Stay>) returns (r: seq<Entry<string, Stay>>)
    ensures r == Stored(seen, ById(page))
  {
    r := seen;
    for i := 0 to |page|
      invariant r == Stored(seen, ById(page)[..i])
    {
      assert ById(page)[..i + 1][..i] == ById(page)[..i];
      r := Put(r, page[i].id, page[i]);
    }
    assert ById(page)[..|page|] == ById(page);
  }

  /** _fetch_colliding_reservations; from and to are midnights. */
  method FetchCollidingReservations(server: Server, from: int, to: int) returns (r: Result<seq<Stay>, Error>)
    ensures r == if AllAnswered(server, from, to + DAY)
                 then Success(Values(Stored([], ById(Found(server.stays, from, to + DAY)))))
                 else Failure(RequestFailed)
  {
    var start, end := from, to + DAY;
    var seen: seq<Entry<string, Stay>> := [];
    while start < end
      invariant Stored(seen, ById(Found(server.stays, start, end))) == Stored([], ById(Found(server.stays, from, end)))
      invariant AllAnswered(server, from, end) == AllAnswered(server, start, end)
      decreases end - start
    {
      var windowEnd := if start + INTERVAL <= end then start + INTERVAL else end;
      var page := GetWindow(server, start, windowEnd);
      if page.Failure? {
        return Failure(RequestFailed);
      }
      StoredSplit(seen, page.value, Found(server.stays, windowEnd, end));
      seen := Keep(seen, page.value);
      start := windowEnd;
    }
    return Success(Values(seen));
  }

  method GetWindow(server: Server, start: int, end: int) returns (r: Result<seq<Stay>, Error>)
    ensures r == if Answered(WindowOf(server, start, end), 0) then Success(Colliding(server.stays, start, end))
                 else Failure(RequestFailed)
  {
    r := GetAll(WindowOf(server, start, end));
  }

  lemma {:induction false} StoredSplit(seen: seq<Entry<string, Stay>>, page: seq<Stay>, rest: seq<Stay>)
    ensures Stored(seen, ById(page + rest)) == Stored(Stored(seen, ById(page)), ById(rest))
  {
    assert ById(page + rest) == ById(page) + ById(rest);
    StoredAppend(seen, ById(page), ById(rest));
  }

  // ----- what the walk returns -----

  /** The windows follow each other without gap or overlap from start to end, each at most 30 days long. */
  lemma {:induction false} WindowsTile(start: int, end: int)
    requires start < end
    ensures var w := Windows(start, end);
            && w != []
            && w[0].0 == start
            && w[|w| - 1].1 == end
            && (forall i :: 0 <= i < |w| ==> w[i].0 < w[i].1 <= w[i].0 + INTERVAL)
            && (forall i :: 0 < i < |w| ==> w[i].0 == w[i - 1].1)
    decreases end - start
  {
    if WindowEnd(start, end) < end {
      WindowsTile(WindowEnd(start, end), end);
    }
  }

  /** Every window but the last is exactly 30 days long. */
  lemma {:induction false} WindowsAreFull(start: int, end: int, i: nat)
    requires i < |Windows(start, end)|
    ensures Windows(start, end)[i].1 == AtMost(Windows(start, end)[i].0 + 30 * DAY, end)
    decreases i
  {
    if i > 0 {
      WindowsAreFull(WindowEnd(start, end), end, i - 1);
    }
  }

  ghost predicate SeenBy(w: seq<(int, int)>, s: Stay) {
    exists i :: 0 <= i < |w| && Collides(s, w[i].0, w[i].1)
  }

  lemma {:induction false} SeenByCons(first: (int, int), rest: seq<(int, int)>, s: Stay)
    ensures SeenBy([first] + rest, s) <==> Collides(s, first.0, first.1) || SeenBy(rest, s)
  {
    var w := [first] + rest;
    assert w[0] == first;
    if SeenBy(rest, s) {
      var i :| 0 <= i < |rest| && Collides(s, rest[i].0, rest[i].1);
      assert w[i + 1] == rest[i];
    }
    if SeenBy(w, s) {
      var i :| 0 <= i < |w| && Collides(s, w[i].0, w[i].1);
      assert i > 0 ==> rest[i - 1] == w[i];
    }
  }

  /** A stay is found exactly if some window sees it. */
  lemma {:induction false} FoundInSomeWindow(stays: seq<Stay>, start: int, end: int, s: Stay)
    ensures s in Found(stays, start, end) <==> s in stays && SeenBy(Windows(start, end), s)
    decreases end - start
  {
    if start < end {
      var next := WindowEnd(start, end);
      FoundInSomeWindow(stays, next, end, s);
      SeenByCons((start, next), Windows(next, end), s);
    }
  }

  /** A stay of some length meets a window exactly if it meets the range: cutting the range loses nothing. */
  lemma {:induction false} StayIsFound(stays: seq<Stay>, start: int, end: int, s: Stay)
    requires s.start < s.end
    ensures s in Found(stays, start, end) <==> s in stays && start < end && Collides(s, start, end)
    decreases end - start
  {
    if start < end {
      StayIsFound(stays, WindowEnd(start, end), end, s);
    }
  }

  /** A stay without length is found unless it lies on the edge of a window. */
  lemma {:induction false} EmptyStayIsFound(stays: seq<Stay>, start: int, end: int, s: Stay)
    requires s.start == s.end
    ensures s in Found(stays, start, end) <==>
            s in stays && start < s.start < end && (s.start - start) % INTERVAL != 0
    decreases end - start
  {
    if start < end {
      EmptyStayIsFound(stays, WindowEnd(start, end), end, s);
      EdgeShift(s.start - start);
    }
  }

  lemma {:induction false} EdgeShift(x: int)
    ensures (x - INTERVAL) % INTERVAL == x % INTERVAL
    ensures 0 < x < INTERVAL ==> x % INTERVAL != 0
  {
  }

  /** A stay without length on the edge between two windows meets the range and is not found. */
  lemma {:induction false} EdgeStayIsMissed(start: int)
    ensures var s, end := Stay("x", start + INTERVAL, start + INTERVAL), start + INTERVAL + INTERVAL;
            Collides(s, start, end) && s !in Found([s], start, end)
  {
    EmptyStayIsFound([Stay("x", start + INTERVAL, start + INTERVAL)], start, start + INTERVAL + INTERVAL,
                     Stay("x", start + INTERVAL, start + INTERVAL));
  }

  predicate UniqueIds(stays: seq<Stay>) {
    forall i, j :: 0 <= i < j < |stays| ==> stays[i].id != stays[j].id
  }

  lemma {:induction false} SameIdSameStay(stays: seq<Stay>, s: Stay, t: Stay)
    requires UniqueIds(stays) && s in stays && t in stays && s.id == t.id
    ensures s == t
  {
  }

  /** No reservation is returned twice, and those found are returned. */
  lemma {:induction false} ReturnedOnce(stays: seq<Stay>, start: int, end: int, s: Stay)
    requires UniqueIds(stays)
    ensures var r := Values(Stored([], ById(Found(stays, start, end))));
            && (s in r <==> s in Found(stays, start, end))
            && forall i, j :: 0 <= i < j < |r| ==> r[i] != r[j]
  {
    var found := Found(stays, start, end);
    var pairs := ById(found);
    var d := Stored([], pairs);
    StoredIsDict(pairs);
    forall i | 0 <= i < |d| ensures d[i].value in found && d[i].key == d[i].value.id {
      var k :| 0 <= k < |pairs| && pairs[k] == d[i];
      assert found[k] == d[i].value;
    }
    if s in found {
      var k :| 0 <= k < |found| && found[k] == s;
      assert pairs[k].key == s.id;
      assert HasKey(d, s.id);
      var i :| 0 <= i < |d| && d[i].key == s.id;
      FoundInSomeWindow(stays, start, end, s);
      FoundInSomeWindow(stays, start, end, d[i].value);
      SameIdSameStay(stays, s, d[i].value);
      assert Values(d)[i] == s;
    }
  }

  /** The result holds, once each, exactly the reservations whose non-empty stay meets [from, to + 1 day). */
  lemma {:induction false} ColliderIsExact(stays: seq<Stay>, from: int, to: int, s: Stay)
    requires UniqueIds(stays) && s.start < s.end && from <= to
    ensures var r := Values(Stored([], ById(Found(stays, from, to + DAY))));
            && (s in r <==> s in stays && s.start < to + DAY && from < s.end)
            && forall i, j :: 0 <= i < j < |r| ==> r[i] != r[j]
  {
    ReturnedOnce(stays, from, to + DAY, s);
    StayIsFound(stays, from, to + DAY, s);
  }

  // ----- _chunks -----

  /** The list cut into pieces of a size, for filters that take at most that many ids. */
  function Chunks<T>(items: seq<T>, size: nat): seq<seq<T>>
    requires size > 0
  {
    if items == [] then []
    else if |items| <= size then [items]
    else [items[..size]] + Chunks(items[size..], size)
  }

  function Flat<T>(chunks: seq<seq<T>>): seq<T> {
    if chunks == [] then [] else chunks[0] + Flat(chunks[1..])
  }

  /** No id is lost, repeated or moved, and no piece is empty or too long. */
  lemma {:induction false} ChunksRejoin<T>(items: seq<T>, size: nat)
    requires size > 0
    ensures Flat(Chunks(items, size)) == items
    ensures forall c :: c in Chunks(items, size) ==> 0 < |c| <= size
  {
    if |items| > size {
      ChunksRejoin(items[size..], size);
      assert items[..size] + items[size..] == items;
    } else if items != [] {
      assert Flat([items]) == items + Flat<T>([]);
    }
  }
}
