/**
 What the attendance operations do and report, said of the fields of the records
 and of the GPS fix alone.
 */
module ShiftOutcomes {
  import opened Wrappers
  import opened Shifts

  /** There is a geofence, the fix is good to 100 m if it says so, and its circle reaches the fence. */
  predicate AtProperty(p: Position) {
    match (p.radius, p.accuracy)
    case (None, _) => false
    case (Some(radius), None) => p.distance <= radius
    case (Some(radius), Some(accuracy)) => accuracy <= 100.0 && p.distance <= radius + accuracy
  }

  lemma {:induction false} PunchAllowedAtProperty(p: Position)
    ensures PunchAllowed(p) <==> AtProperty(p)
  {
  }

  /** A record of the user at the property that is active and has no punch-out. */
  predicate Unfinished(s: Shift, user: nat, property: nat) {
    s == Shift(user, property, s.punchIn, None, s.worked, Active)
  }

  /** One such record is at most 16 hours old. */
  ghost predicate AtWorkAlready(shifts: seq<Shift>, user: nat, property: nat, now: int) {
    exists s :: s in shifts && Unfinished(s, user, property) && now <= s.punchIn + 16 * HOUR
  }

  lemma {:induction false} RunningIsAtWork(shifts: seq<Shift>, user: nat, property: nat, now: int)
    ensures HasRunning(shifts, user, property, now) <==> AtWorkAlready(shifts, user, property, now)
  {
    if k: nat :| k < |shifts| && IsOpen(shifts[k], user, property) && !IsStale(shifts[k], now) {
      assert shifts[k] in shifts && Unfinished(shifts[k], user, property);
    }
    if s :| s in shifts && Unfinished(s, user, property) && now <= s.punchIn + 16 * HOUR {
      var k: nat :| k < |shifts| && shifts[k] == s;
      assert IsOpen(shifts[k], user, property) && !IsStale(shifts[k], now);
    }
  }

  /**
   Punching in: refused while at work already, then away from the property, and
   then nothing changes; else unfinished records are closed without hours and a
   new one begins.
   */
  ghost predicate PunchedIn(shifts: seq<Shift>, after: seq<Shift>, reply: PunchReply, user: nat, property: nat,
          position: Position, now: int)
  {
    if AtWorkAlready(shifts, user, property, now) then reply == AlreadyPunchedIn && after == shifts
    else if !AtProperty(position) then reply == BadLocation && after == shifts
    else
      && reply == Punched
      && |after| == |shifts| + 1
      && after[|shifts|] == Shift(user, property, now, None, None, Active)
      && forall k :: 0 <= k < |shifts| ==>
           if Unfinished(shifts[k], user, property)
           then after[k] == Shift(user, property, shifts[k].punchIn, None, shifts[k].worked, AutoClosed)
           else after[k] == shifts[k]
  }

  lemma {:induction false} PunchInRules(shifts: seq<Shift>, user: nat, property: nat, position: Position, now: int)
    ensures var (after, reply) := PunchIn(shifts, user, property, position, now);
            PunchedIn(shifts, after, reply, user, property, position, now)
  {
    PunchAllowedAtProperty(position);
    RunningIsAtWork(shifts, user, property, now);
    PunchInOutcome(shifts, user, property, position, now);
  }

  /** Record k is the newest unfinished one: completed up to 16 hours after its punch-in, later closed without hours. */
  ghost predicate Ended(shifts: seq<Shift>, after: seq<Shift>, reply: PunchReply, now: int, k: nat)
    requires k < |shifts| == |after|
  {
    var begun := shifts[k].punchIn;
    if now <= begun + 16 * HOUR then
      && reply == Punched
      && after[k] == Shift(shifts[k].user, shifts[k].property, begun, Some(now), Some(now - begun), Completed)
    else reply == ClosedStale && after[k] == shifts[k].(status := AutoClosed)
  }

  /**
   Punching out: refused without an unfinished record, then away from the
   property, and then nothing changes; else the newest unfinished record ends and
   the others are closed without hours.
   */
  ghost predicate PunchedOut(shifts: seq<Shift>, after: seq<Shift>, reply: PunchReply, user: nat, property: nat,
          position: Position, now: int)
  {
    if forall s :: s in shifts ==> !Unfinished(s, user, property) then reply == NotPunchedIn && after == shifts
    else if !AtProperty(position) then reply == BadLocation && after == shifts
    else
      && |after| == |shifts|
      && exists k :: 0 <= k < |shifts| && Unfinished(shifts[k], user, property)
                     && Ended(shifts, after, reply, now, k)
                     && forall j :: 0 <= j < |shifts| && j != k ==>
                          if Unfinished(shifts[j], user, property)
                          then shifts[j].punchIn <= shifts[k].punchIn && after[j] == shifts[j].(status := AutoClosed)
                          else after[j] == shifts[j]
  }

  lemma {:induction false} PunchOutRules(shifts: seq<Shift>, user: nat, property: nat, position: Position, now: int)
    ensures var (after, reply) := PunchOut(shifts, user, property, position, now);
            PunchedOut(shifts, after, reply, user, property, position, now)
  {
    PunchAllowedAtProperty(position);
    var open := OpenRecords(shifts, user, property, |shifts|);
    var (after, reply) := PunchOut(shifts, user, property, position, now);
    if open == [] {
      forall s | s in shifts ensures !Unfinished(s, user, property) {
        var k: nat :| k < |shifts| && shifts[k] == s;
        assert k !in open;
      }
    } else {
      var k := open[0];
      assert k in open && shifts[k] in shifts && Unfinished(shifts[k], user, property);
      if AtProperty(position) {
        forall j | 0 <= j < |shifts| && j != k
          ensures if Unfinished(shifts[j], user, property)
                  then shifts[j].punchIn <= shifts[k].punchIn && after[j] == shifts[j].(status := AutoClosed)
                  else after[j] == shifts[j]
        {
          NewestOfOpen(shifts, user, property, j);
        }
        assert Ended(shifts, after, reply, now, k);
      }
    }
  }

  lemma {:induction false} NewestOfOpen(shifts: seq<Shift>, user: nat, property: nat, j: nat)
    requires j < |shifts| && OpenRecords(shifts, user, property, |shifts|) != []
    ensures var open := OpenRecords(shifts, user, property, |shifts|);
            && (j in open <==> Unfinished(shifts[j], user, property))
            && (j in open ==> shifts[j].punchIn <= shifts[open[0]].punchIn)
            && (j in open[1..] <==> j in open && j != open[0])
  {
    var open := OpenRecords(shifts, user, property, |shifts|);
    assert open == [open[0]] + open[1..];
  }

  // ----- reported hours -----

  /** What a record adds to the user's total. */
  function Reported(s: Shift, user: nat, property: nat, start: int, now: int): int {
    if s.user != user || s.property != property || s.punchIn < start then 0
    else match s.status
      case Completed => if s.worked.Some? && s.worked.value <= 24 * HOUR then s.worked.value else 0
      case Active =>
        if s.punchOut.Some? || now > s.punchIn + 16 * HOUR || now < s.punchIn then 0
        else if now > s.punchIn + 12 * HOUR then 12 * HOUR
        else now - s.punchIn
      case AutoClosed => 0
  }

  lemma {:induction false} TotalFromNext(shifts: seq<Shift>, s: Shift, user: nat, property: nat, start: int, now: int,
          k: nat)
    requires k <= |shifts|
    ensures TotalFrom(shifts + [s], user, property, start, now, k)
         == TotalFrom(shifts, user, property, start, now, k) + Reported(s, user, property, start, now)
    decreases |shifts| - k
  {
    if k < |shifts| {
      TotalFromNext(shifts, s, user, property, start, now, k + 1);
    } else {
      assert TotalFrom(shifts + [s], user, property, start, now, k + 1) == 0;
    }
  }

  /** The total is the sum of what the records report: nothing without records, and what a record adds with it. */
  lemma {:induction false} TotalIsSum(shifts: seq<Shift>, s: Shift, user: nat, property: nat, start: int, now: int)
    ensures Total([], user, property, start, now) == 0
    ensures Total(shifts + [s], user, property, start, now)
         == Total(shifts, user, property, start, now) + Reported(s, user, property, start, now)
  {
    TotalFromNext(shifts, s, user, property, start, now, 0);
  }

  /** In a table that keeps the invariant, a completed record reports the time between its punches. */
  lemma {:induction false} ReportedIsInterval(shifts: seq<Shift>, clock: int, k: nat, start: int, now: int)
    requires ShiftsOk(shifts, clock) && clock <= now && k < |shifts| && start <= shifts[k].punchIn
    ensures var s := shifts[k];
            Reported(s, s.user, s.property, start, now)
            == match s.status
               case Completed => if s.punchOut.Some? then s.punchOut.value - s.punchIn else 0
               case Active => if now - s.punchIn > 16 * HOUR then 0 else AtMost(now - s.punchIn, 12 * HOUR)
               case AutoClosed => 0
  {
    assert ShiftOk(shifts[k], clock);
  }
}
