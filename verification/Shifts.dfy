/**
 Attendance records: punch in, punch out, closing a forgotten punch-out, and the
 hours reported from them. Times are seconds on one clock; a record's id is its
 position in the table.
 */
module Shifts {
  import opened Wrappers

  const HOUR := 3600
  const STALE_SHIFT := 16 * HOUR
  const MAX_SHIFT := 12 * HOUR
  const MAX_PLAUSIBLE := 24 * HOUR
  const MAX_ACCURACY := 100.0

  datatype ShiftStatus = Active | Completed | AutoClosed

  datatype Shift = Shift(
    user: nat,
    property: nat,
    punchIn: int,
    punchOut: Option<int>,
    worked: Option<int>,
    status: ShiftStatus)

  /** A geofence of the property, if it has one, and where the GPS puts the user. */
  datatype Position = Position(radius: Option<real>, accuracy: Option<real>, distance: real)

  predicate IsInsideFence(distance: real, accuracy: Option<real>, radius: real) {
    distance - (if accuracy.Some? then accuracy.value else 0.0) <= radius
  }

  /** check_punch_location: a geofence, a good enough fix, and inside. */
  predicate PunchAllowed(p: Position) {
    && p.radius.Some?
    && !(p.accuracy.Some? && p.accuracy.value > MAX_ACCURACY)
    && IsInsideFence(p.distance, p.accuracy, p.radius.value)
  }

  predicate IsStale(s: Shift, now: int) {
    now - s.punchIn > STALE_SHIFT
  }

  function AutoClose(s: Shift): Shift {
    s.(status := AutoClosed)
  }

  predicate IsOpen(s: Shift, user: nat, property: nat) {
    s.user == user && s.property == property && s.status == Active && s.punchOut.None?
  }

  /** The open records of the user at the property among the first n, newest punch-in first. */
  function OpenRecords(shifts: seq<Shift>, user: nat, property: nat, n: nat): (open: seq<nat>)
    requires n <= |shifts|
    ensures forall k: nat {:trigger k in open} :: k in open <==> k < n && IsOpen(shifts[k], user, property)
    ensures NewestFirst(shifts, open)
  {
    if n == 0 then []
    else
      var rest := OpenRecords(shifts, user, property, n - 1);
      if IsOpen(shifts[n - 1], user, property) then Insert(shifts, rest, n - 1) else rest
  }

  ghost predicate NewestFirst(shifts: seq<Shift>, ids: seq<nat>) {
    && (forall i :: 0 <= i < |ids| ==> ids[i] < |shifts|)
    && (forall i, j :: 0 <= i < j < |ids| ==> ids[i] != ids[j] && shifts[ids[i]].punchIn >= shifts[ids[j]].punchIn)
  }

  function Insert(shifts: seq<Shift>, ids: seq<nat>, k: nat): (r: seq<nat>)
    requires k < |shifts| && k !in ids && NewestFirst(shifts, ids)
    ensures forall j: nat {:trigger j in r} :: j in r <==> j in ids || j == k
    ensures NewestFirst(shifts, r)
  {
    if ids == [] then [k]
    else if shifts[k].punchIn >= shifts[ids[0]].punchIn then
      assert forall i :: 0 <= i < |ids| ==> ids[i] in ids;
      [k] + ids
    else
      assert forall j: nat :: j in ids <==> j == ids[0] || j in ids[1..];
      var r := Insert(shifts, ids[1..], k);
      assert forall i :: 0 <= i < |r| ==> r[i] in r;
      [ids[0]] + r
  }

  /** The table with the listed records auto-closed. */
  function AllClosed(shifts: seq<Shift>, ids: seq<nat>): seq<Shift> {
    seq(|shifts|, k requires 0 <= k < |shifts| => if k in ids then AutoClose(shifts[k]) else shifts[k])
  }

  datatype PunchReply = Punched | AlreadyPunchedIn | NotPunchedIn | BadLocation | ClosedStale

  /** Some record of the user at the property is open and not stale. */
  ghost predicate HasRunning(shifts: seq<Shift>, user: nat, property: nat, now: int) {
    exists k: nat :: k < |shifts| && IsOpen(shifts[k], user, property) && !IsStale(shifts[k], now)
  }

  /** create_punch_in, as a function of the table. */
  ghost function PunchIn(shifts: seq<Shift>, user: nat, property: nat, position: Position,
          now: int): (seq<Shift>, PunchReply)
  {
    if HasRunning(shifts, user, property, now) then (shifts, AlreadyPunchedIn)
    else if !PunchAllowed(position) then (shifts, BadLocation)
    else
      (AllClosed(shifts, OpenRecords(shifts, user, property, |shifts|))
       + [Shift(user, property, now, None, None, Active)], Punched)
  }

  function Finish(s: Shift, now: int): Shift {
    s.(punchOut := Some(now), worked := Some(now - s.punchIn), status := Completed)
  }

  /** create_punch_out, as a function of the table. */
  ghost function PunchOut(shifts: seq<Shift>, user: nat, property: nat, position: Position,
          now: int): (seq<Shift>, PunchReply)
  {
    var open := OpenRecords(shifts, user, property, |shifts|);
    if open == [] then (shifts, NotPunchedIn)
    else if !PunchAllowed(position) then (shifts, BadLocation)
    else
      var newest := open[0];
      var closed := AllClosed(shifts, open[1..]);
      if IsStale(shifts[newest], now) then (closed[newest := AutoClose(shifts[newest])], ClosedStale)
      else (closed[newest := Finish(shifts[newest], now)], Punched)
  }

  // ----- the invariant over runs -----

  predicate SamePlace(a: Shift, b: Shift) {
    a.user == b.user && a.property == b.property
  }

  /** What one record may look like at a given moment. */
  ghost predicate ShiftOk(s: Shift, clock: int) {
    && s.punchIn <= clock
    && match s.status
       case Active => s.punchOut.None? && s.worked.None?
       case AutoClosed => s.punchOut.None? && s.worked.None? && s.punchIn + STALE_SHIFT < clock
       case Completed =>
         && s.punchOut.Some?
         && s.punchIn <= s.punchOut.value <= clock
         && s.punchOut.value <= s.punchIn + STALE_SHIFT
         && s.worked == Some(s.punchOut.value - s.punchIn)
  }

  /** The earlier record is over, whatever claim is still to come, before the later one starts. */
  ghost predicate Precedes(a: Shift, b: Shift) {
    && a.punchIn <= b.punchIn
    && (SamePlace(a, b) ==>
          match a.status
          case Active => false
          case AutoClosed => a.punchIn + STALE_SHIFT < b.punchIn
          case Completed => a.punchOut.Some? && a.punchOut.value <= b.punchIn)
  }

  ghost predicate ShiftsOk(shifts: seq<Shift>, clock: int) {
    && (forall k :: 0 <= k < |shifts| ==> ShiftOk(shifts[k], clock))
    && (forall i, j {:trigger Precedes(shifts[i], shifts[j])} :: 0 <= i < j < |shifts| ==>
          Precedes(shifts[i], shifts[j]))
  }

  lemma ClockMoves(shifts: seq<Shift>, clock: int, now: int)
    requires ShiftsOk(shifts, clock) && clock <= now
    ensures ShiftsOk(shifts, now)
  {
  }

  /** Two records open at once would precede each other. */
  lemma OneOpen(shifts: seq<Shift>, clock: int, i: nat, j: nat)
    requires ShiftsOk(shifts, clock) && i < |shifts| && j < |shifts|
    requires SamePlace(shifts[i], shifts[j]) && shifts[i].status == Active && shifts[j].status == Active
    ensures i == j
  {
    assert i < j ==> Precedes(shifts[i], shifts[j]);
    assert j < i ==> Precedes(shifts[j], shifts[i]);
  }

  lemma {:induction false} OnlyOpenRecord(shifts: seq<Shift>, clock: int, user: nat, property: nat, k: nat)
    requires ShiftsOk(shifts, clock) && k < |shifts| && IsOpen(shifts[k], user, property)
    ensures OpenRecords(shifts, user, property, |shifts|) == [k]
  {
    var open := OpenRecords(shifts, user, property, |shifts|);
    assert k in open && (|open| > 1 ==> open[0] != open[1]);
    forall i | 0 <= i < |open| ensures open[i] == k {
      assert open[i] in open;
      OneOpen(shifts, clock, open[i], k);
    }
  }

  lemma {:induction false} PunchInKeepsShifts(shifts: seq<Shift>, user: nat, property: nat, position: Position,
          now: int)
    requires ShiftsOk(shifts, now)
    ensures ShiftsOk(PunchIn(shifts, user, property, position, now).0, now)
  {
    var open := OpenRecords(shifts, user, property, |shifts|);
    var after := PunchIn(shifts, user, property, position, now).0;
    if after != shifts {
      forall k | 0 <= k < |shifts| ensures ShiftOk(after[k], now) && Precedes(after[k], after[|shifts|]) {
        if k in open {
          assert IsStale(shifts[k], now);
        }
      }
      forall i, j | 0 <= i < j < |shifts| ensures Precedes(after[i], after[j]) {
        assert Precedes(shifts[i], shifts[j]);
      }
    }
  }

  /** A record may be rewritten in place if it stays where it was and still ends in time. */
  lemma ReplaceKeepsShifts(shifts: seq<Shift>, k: nat, s: Shift, now: int)
    requires ShiftsOk(shifts, now) && k < |shifts| && ShiftOk(s, now)
    requires SamePlace(s, shifts[k]) && s.punchIn == shifts[k].punchIn
    requires forall j :: k < j < |shifts| ==> Precedes(s, shifts[j])
    ensures ShiftsOk(shifts[k := s], now)
  {
    var after := shifts[k := s];
    forall i, j | 0 <= i < j < |shifts| ensures Precedes(after[i], after[j]) {
      assert Precedes(shifts[i], shifts[j]);
    }
  }

  // ----- what a punch does -----

  /** A punch-in goes ahead exactly inside the fence with nothing running; otherwise nothing changes. */
  lemma {:induction false} PunchInOutcome(shifts: seq<Shift>, user: nat, property: nat, position: Position, now: int)
    ensures var (after, reply) := PunchIn(shifts, user, property, position, now);
            && (reply == Punched <==> PunchAllowed(position) && !HasRunning(shifts, user, property, now))
            && (reply != Punched ==> after == shifts)
            && (reply == Punched ==>
                  && |after| == |shifts| + 1
                  && after[|shifts|] == Shift(user, property, now, None, None, Active)
                  && forall k :: 0 <= k < |shifts| ==>
                       after[k] == if IsOpen(shifts[k], user, property) then shifts[k].(status := AutoClosed)
                                   else shifts[k])
  {
  }

  /** After it, the new record is the only open one of the user at the property. */
  lemma {:induction false} PunchInOpensOne(shifts: seq<Shift>, user: nat, property: nat, position: Position, now: int)
    requires ShiftsOk(shifts, now) && PunchAllowed(position) && !HasRunning(shifts, user, property, now)
    ensures var (after, reply) := PunchIn(shifts, user, property, position, now);
            && reply == Punched
            && OpenRecords(after, user, property, |after|) == [|shifts|]
            && after[|shifts|].punchIn == now
            && (forall k :: 0 <= k < |shifts| && !IsOpen(shifts[k], user, property) ==> after[k] == shifts[k])
            && (forall k :: 0 <= k < |shifts| && IsOpen(shifts[k], user, property) ==>
                  after[k] == shifts[k].(status := AutoClosed) && IsStale(shifts[k], now))
  {
    PunchInOutcome(shifts, user, property, position, now);
    PunchInKeepsShifts(shifts, user, property, position, now);
    OnlyOpenRecord(PunchIn(shifts, user, property, position, now).0, now, user, property, |shifts|);
  }

  lemma {:induction false} FirstPunchIn(shifts: seq<Shift>, user: nat, property: nat, position: Position, now: int)
    requires |shifts| == 0 && PunchAllowed(position)
    ensures PunchIn(shifts, user, property, position, now)
         == ([Shift(user, property, now, None, None, Active)], Punched)
  {
    PunchInOutcome(shifts, user, property, position, now);
    OnlyElement(PunchIn(shifts, user, property, position, now).0);
  }

  lemma {:induction false} OnlyElement(shifts: seq<Shift>)
    requires |shifts| == 1
    ensures shifts == [shifts[0]]
  {
  }

  lemma {:induction false} SecondPunchIn(open: Shift, position: Position, now: int)
    requires PunchAllowed(position) && IsStale(open, now) && IsOpen(open, open.user, open.property)
    ensures PunchIn([open], open.user, open.property, position, now)
         == ([AutoClose(open), Shift(open.user, open.property, now, None, None, Active)], Punched)
  {
    PunchInOutcome([open], open.user, open.property, position, now);
    var after := PunchIn([open], open.user, open.property, position, now).0;
    assert after == [after[0], after[1]];
  }

  /** A punch-out ends the one open record: with hours if it is at most 16 hours old, else without. */
  lemma {:induction false} PunchOutOutcome(shifts: seq<Shift>, user: nat, property: nat, position: Position, now: int,
          k: nat)
    requires ShiftsOk(shifts, now) && PunchAllowed(position)
    requires k < |shifts| && IsOpen(shifts[k], user, property)
    ensures PunchOut(shifts, user, property, position, now)
         == if now - shifts[k].punchIn <= STALE_SHIFT
            then (shifts[k := shifts[k].(punchOut := Some(now), worked := Some(now - shifts[k].punchIn),
                                         status := Completed)], Punched)
            else (shifts[k := shifts[k].(status := AutoClosed)], ClosedStale)
  {
    OnlyOpenRecord(shifts, now, user, property, k);
    EndsOnly(shifts, user, property, position, now, k);
  }

  lemma {:induction false} EndsOnly(shifts: seq<Shift>, user: nat, property: nat, position: Position, now: int, k: nat)
    requires k < |shifts| && OpenRecords(shifts, user, property, |shifts|) == [k] && PunchAllowed(position)
    ensures PunchOut(shifts, user, property, position, now)
         == if now - shifts[k].punchIn <= STALE_SHIFT then (shifts[k := Finish(shifts[k], now)], Punched)
            else (shifts[k := AutoClose(shifts[k])], ClosedStale)
  {
    assert AllClosed(shifts, [k][1..]) == shifts;
  }

  lemma {:induction false} PunchOutKeepsShifts(shifts: seq<Shift>, user: nat, property: nat, position: Position,
          now: int)
    requires ShiftsOk(shifts, now)
    ensures ShiftsOk(PunchOut(shifts, user, property, position, now).0, now)
  {
    var open := OpenRecords(shifts, user, property, |shifts|);
    if open != [] && PunchAllowed(position) {
      var k := open[0];
      assert k in open;
      PunchOutOutcome(shifts, user, property, position, now, k);
      EndKeepsShifts(shifts, k, now);
    }
  }

  /** Ending an open record, with hours or without, as its age asks. */
  lemma {:induction false} EndKeepsShifts(shifts: seq<Shift>, k: nat, now: int)
    requires ShiftsOk(shifts, now) && k < |shifts| && shifts[k].status == Active
    ensures var s := if now - shifts[k].punchIn <= STALE_SHIFT then Finish(shifts[k], now) else AutoClose(shifts[k]);
            ShiftsOk(shifts[k := s], now)
  {
    assert ShiftOk(shifts[k], now);
    var s := if now - shifts[k].punchIn <= STALE_SHIFT then Finish(shifts[k], now) else AutoClose(shifts[k]);
    forall j | k < j < |shifts| ensures Precedes(s, shifts[j]) {
      assert Precedes(shifts[k], shifts[j]);
    }
    ReplaceKeepsShifts(shifts, k, s, now);
  }

  lemma {:induction false} OutAfterIn(open: seq<Shift>, k: nat, user: nat, property: nat, start: int, q: Position,
          end: int)
    requires ShiftsOk(open, start) && PunchAllowed(q) && start <= end <= start + STALE_SHIFT
    requires k < |open| && open[k] == Shift(user, property, start, None, None, Active)
    ensures PunchOut(open, user, property, q, end)
         == (open[k := Shift(user, property, start, Some(end), Some(end - start), Completed)], Punched)
  {
    ClockMoves(open, start, end);
    assert IsOpen(open[k], user, property);
    PunchOutOutcome(open, user, property, q, end, k);
  }

  /** Punching in and, at most 16 hours later, out records exactly that interval. */
  lemma {:induction false} PunchInThenOut(shifts: seq<Shift>, user: nat, property: nat, p: Position, start: int,
          q: Position, end: int)
    requires ShiftsOk(shifts, start) && !HasRunning(shifts, user, property, start)
    requires PunchAllowed(p) && PunchAllowed(q) && start <= end <= start + STALE_SHIFT
    ensures var open := PunchIn(shifts, user, property, p, start).0;
            && |open| == |shifts| + 1
            && PunchOut(open, user, property, q, end)
               == (open[|shifts| := Shift(user, property, start, Some(end), Some(end - start), Completed)], Punched)
  {
    PunchInOutcome(shifts, user, property, p, start);
    PunchInKeepsShifts(shifts, user, property, p, start);
    OutAfterIn(PunchIn(shifts, user, property, p, start).0, |shifts|, user, property, start, q, end);
  }

  // ----- what the invariant means -----

  /** Worked time is a half-open interval. */
  predicate AtWork(s: Shift, t: int) {
    s.punchOut.Some? && s.punchIn <= t < s.punchOut.value
  }

  /** The completed shifts of one user at one property never overlap. */
  lemma CompletedAreDisjoint(shifts: seq<Shift>, clock: int, i: nat, j: nat)
    requires ShiftsOk(shifts, clock) && i < |shifts| && j < |shifts| && i != j
    requires SamePlace(shifts[i], shifts[j]) && shifts[i].status == Completed && shifts[j].status == Completed
    ensures forall t :: !(AtWork(shifts[i], t) && AtWork(shifts[j], t))
  {
    if i < j {
      assert Precedes(shifts[i], shifts[j]);
    } else {
      assert Precedes(shifts[j], shifts[i]);
    }
  }

  // ----- reported hours -----

  /** The countable time of a record, None if it needs review or has none. */
  function Countable(s: Shift, now: int): Option<int> {
    if s.status == Completed then
      if s.worked.None? || s.worked.value > MAX_PLAUSIBLE then None else s.worked
    else if s.status == Active && s.punchOut.None? && !IsStale(s, now) then
      var elapsed := now - s.punchIn;
      Some(if elapsed < 0 then 0 else if elapsed > MAX_SHIFT then MAX_SHIFT else elapsed)
    else None
  }

  predicate Counts(s: Shift, user: nat, property: nat, start: int) {
    s.user == user && s.property == property && s.punchIn >= start
  }

  /** get_user_totals' total(start), over the records from position k on. */
  function TotalFrom(shifts: seq<Shift>, user: nat, property: nat, start: int, now: int, k: nat): int
    requires k <= |shifts|
    decreases |shifts| - k
  {
    if k == |shifts| then 0
    else
      var rest := TotalFrom(shifts, user, property, start, now, k + 1);
      var mine := Countable(shifts[k], now);
      if Counts(shifts[k], user, property, start) && mine.Some? then mine.value + rest else rest
  }

  function Total(shifts: seq<Shift>, user: nat, property: nat, start: int, now: int): int {
    TotalFrom(shifts, user, property, start, now, 0)
  }

  /** The records from k on that count fit, one after the other, between bound and now. */
  lemma {:induction false} TotalFits(shifts: seq<Shift>, user: nat, property: nat, start: int, now: int, k: nat,
          bound: int)
    requires ShiftsOk(shifts, now) && k <= |shifts|
    requires forall j :: k <= j < |shifts| && Counts(shifts[j], user, property, start) ==> bound <= shifts[j].punchIn
    ensures TotalFrom(shifts, user, property, start, now, k) <= if bound <= now then now - bound else 0
    decreases |shifts| - k
  {
    if k < |shifts| {
      var s := shifts[k];
      if !Counts(s, user, property, start) || Countable(s, now).None? {
        TotalFits(shifts, user, property, start, now, k + 1, bound);
      } else {
        var end := if s.status == Completed then s.punchOut.value else now;
        forall j | k + 1 <= j < |shifts| && Counts(shifts[j], user, property, start)
          ensures end <= shifts[j].punchIn
        {
          assert Precedes(s, shifts[j]);
        }
        TotalFits(shifts, user, property, start, now, k + 1, end);
      }
    }
  }

  /** Hours reported since any moment never exceed the time that has passed since then. */
  lemma TotalAtMostElapsed(shifts: seq<Shift>, user: nat, property: nat, start: int, now: int)
    requires ShiftsOk(shifts, now)
    ensures Total(shifts, user, property, start, now) <= if start <= now then now - start else 0
  {
    TotalFits(shifts, user, property, start, now, 0, start);
  }

  /** Every completed shift is at most 16 hours, so the 24-hour filter drops none. */
  lemma FilterDropsNothing(shifts: seq<Shift>, clock: int, k: nat, now: int)
    requires ShiftsOk(shifts, clock) && k < |shifts| && shifts[k].status == Completed
    ensures 0 <= shifts[k].punchOut.value - shifts[k].punchIn <= STALE_SHIFT
    ensures Countable(shifts[k], now) == Some(shifts[k].punchOut.value - shifts[k].punchIn)
  {
    assert ShiftOk(shifts[k], clock);
  }

  // ----- the methods -----

  class ShiftLog {
    var shifts: seq<Shift>

    constructor ()
      ensures shifts == []
    {
      shifts := [];
    }

    /** Auto-close the listed records one after the other. */
    method CloseAll(ids: seq<nat>)
      requires forall i :: 0 <= i < |ids| ==> ids[i] < |shifts|
      modifies this
      ensures shifts == AllClosed(old(shifts), ids)
    {
      for i := 0 to |ids|
        invariant shifts == AllClosed(old(shifts), ids[..i])
      {
        assert ids[..i + 1] == ids[..i] + [ids[i]];
        shifts := shifts[ids[i] := AutoClose(shifts[ids[i]])];
      }
      assert ids[..|ids|] == ids;
    }

    /** any(not is_stale(r, now) for r in open_records) */
    method AnyRunning(open: seq<nat>, now: int) returns (running: bool)
      requires forall i :: 0 <= i < |open| ==> open[i] < |shifts|
      ensures running <==> exists k: nat :: k < |shifts| && k in open && !IsStale(shifts[k], now)
    {
      for i := 0 to |open|
        invariant forall j :: 0 <= j < i ==> IsStale(shifts[open[j]], now)
      {
        if !IsStale(shifts[open[i]], now) {
          assert open[i] in open;
          return true;
        }
      }
      return false;
    }

    /** create_punch_in */
    method CreatePunchIn(user: nat, property: nat, position: Position, now: int) returns (reply: PunchReply)
      modifies this
      ensures (shifts, reply) == PunchIn(old(shifts), user, property, position, now)
    {
      var open := OpenRecords(shifts, user, property, |shifts|);
      var running := AnyRunning(open, now);
      RunningIsOpen(shifts, user, property, now);
      if running {
        return AlreadyPunchedIn;
      }
      if !PunchAllowed(position) {
        return BadLocation;
      }
      CloseAll(open);
      shifts := shifts + [Shift(user, property, now, None, None, Active)];
      return Punched;
    }

    /** create_punch_out */
    method CreatePunchOut(user: nat, property: nat, position: Position, now: int) returns (reply: PunchReply)
      modifies this
      ensures (shifts, reply) == PunchOut(old(shifts), user, property, position, now)
    {
      var open := OpenRecords(shifts, user, property, |shifts|);
      if open == [] {
        return NotPunchedIn;
      }
      if !PunchAllowed(position) {
        return BadLocation;
      }
      var newest := open[0];
      assert newest !in open[1..];
      CloseAll(open[1..]);
      if IsStale(shifts[newest], now) {
        shifts := shifts[newest := AutoClose(shifts[newest])];
        return ClosedStale;
      }
      shifts := shifts[newest := Finish(shifts[newest], now)];
      return Punched;
    }
  }

  lemma RunningIsOpen(shifts: seq<Shift>, user: nat, property: nat, now: int)
    ensures HasRunning(shifts, user, property, now) <==>
            exists k :: k in OpenRecords(shifts, user, property, |shifts|) && !IsStale(shifts[k], now)
  {
  }
}
