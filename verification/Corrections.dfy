/**
 Missed punch-out corrections, together with the punches they correct, as a
 state machine under one non-decreasing clock.
 */
module Corrections {
  import opened Wrappers
  import opened Shifts
  import Inbox
  import Requests

  /** The attendance table, and the correction requests with the claimed punch-out as payload. */
  datatype Office = Office(shifts: seq<Shift>, book: Requests.Book<int>)

  datatype ClaimError = NotAfterPunchIn | TooLong | InFuture

  datatype Reply =
    | Done
    | Punch(reply: PunchReply)
    | NotFound
    | Forbidden
    | Conflict
    | ShiftChanged
    | BadClaim(why: ClaimError)

  /** Who reviews, whether the request is in their scope, and whether their stored role still allows it. */
  datatype Reviewer = Reviewer(id: nat, inScope: bool, roleHolds: bool)

  const GRACE := 60

  /** _validate_claim */
  function ClaimErrorOf(s: Shift, claimed: int, now: int): Option<ClaimError> {
    if claimed <= s.punchIn then Some(NotAfterPunchIn)
    else if claimed - s.punchIn > STALE_SHIFT then Some(TooLong)
    else if claimed > now + GRACE then Some(InFuture)
    else None
  }

  /** create_correction: why it is refused, None if it goes ahead. */
  function CreateError(o: Office, user: nat, shift: nat, claimed: int, now: int): Option<Reply> {
    if shift >= |o.shifts| || o.shifts[shift].user != user then Some(NotFound)
    else if o.shifts[shift].status != AutoClosed then Some(Conflict)
    else
      var why := ClaimErrorOf(o.shifts[shift], claimed, now);
      if why.Some? then Some(BadClaim(why.value)) else None
  }

  function Create(o: Office, user: nat, shift: nat, claimed: int, now: int): (Office, Reply) {
    var error := CreateError(o, user, shift, claimed, now);
    if error.Some? then (o, error.value)
    else (o.(book := Requests.Submitted(o.book, shift, user, claimed, now)), Done)
  }

  /** _get_locked and _ensure_reviewer, in the source's order. */
  function ReviewError(b: Requests.Book<int>, who: Reviewer, id: nat): Option<Reply> {
    if id >= |b.requests| then Some(NotFound)
    else if b.requests[id].requester == who.id then Some(Forbidden)
    else if !who.inScope then Some(NotFound)
    else if b.requests[id].status != Requests.Pending then Some(Conflict)
    else if !who.roleHolds then Some(Forbidden)
    else None
  }

  function Approve(o: Office, who: Reviewer, id: nat, now: int): (Office, Reply) {
    var error := ReviewError(o.book, who, id);
    if error.Some? then (o, error.value)
    else
      var r := o.book.requests[id];
      if r.subject >= |o.shifts| || o.shifts[r.subject].status != AutoClosed then (o, ShiftChanged)
      else
        var decided := Requests.Decided(o.book, id, Requests.Approved, who.id, now);
        (Office(o.shifts[r.subject := Finish(o.shifts[r.subject], r.payload)],
                Requests.Notified(decided, id, Inbox.ApprovedNotice)), Done)
  }

  function Reject(o: Office, who: Reviewer, id: nat, now: int): (Office, Reply) {
    var error := ReviewError(o.book, who, id);
    if error.Some? then (o, error.value)
    else
      var decided := Requests.Decided(o.book, id, Requests.Rejected, who.id, now);
      (o.(book := Requests.Notified(decided, id, Inbox.RejectedNotice)), Done)
  }

  function Cancel(o: Office, user: nat, id: nat, now: int): (Office, Reply) {
    if id >= |o.book.requests| || o.book.requests[id].requester != user then (o, NotFound)
    else if o.book.requests[id].status != Requests.Pending then (o, Conflict)
    else (o.(book := Requests.Decided(o.book, id, Requests.Cancelled, user, now)), Done)
  }

  // ----- the state machine -----

  datatype Event =
    | PunchesIn(user: nat, property: nat, position: Position)
    | PunchesOut(user: nat, property: nat, position: Position)
    | Claims(user: nat, shift: nat, claimed: int)
    | Approves(who: Reviewer, id: nat)
    | Rejects(who: Reviewer, id: nat)
    | Cancels(user: nat, id: nat)
    | ReadsItem(item: nat)
    | ClosesItem(item: nat, dismiss: bool)

  datatype Timed = Timed(at: int, event: Event)

  ghost function Step(o: Office, e: Timed): (Office, Reply) {
    match e.event
    case PunchesIn(user, property, position) =>
      var (shifts, reply) := PunchIn(o.shifts, user, property, position, e.at);
      (o.(shifts := shifts), Punch(reply))
    case PunchesOut(user, property, position) =>
      var (shifts, reply) := PunchOut(o.shifts, user, property, position, e.at);
      (o.(shifts := shifts), Punch(reply))
    case Claims(user, shift, claimed) => Create(o, user, shift, claimed, e.at)
    case Approves(who, id) => Approve(o, who, id, e.at)
    case Rejects(who, id) => Reject(o, who, id, e.at)
    case Cancels(user, id) => Cancel(o, user, id, e.at)
    case ReadsItem(k) => (o.(book := Requests.ItemRead(o.book, k)), Done)
    case ClosesItem(k, dismiss) => (o.(book := Requests.ItemClosed(o.book, k, dismiss)), Done)
  }

  ghost function After(o: Office, run: seq<Timed>): Office {
    if run == [] then o else Step(After(o, run[..|run| - 1]), run[|run| - 1]).0
  }

  ghost function ClockAfter(clock: int, run: seq<Timed>): int {
    if run == [] then clock else run[|run| - 1].at
  }

  /** Time never runs backwards. */
  ghost predicate Proper(clock: int, run: seq<Timed>) {
    run == [] ||
    (Proper(clock, run[..|run| - 1]) && ClockAfter(clock, run[..|run| - 1]) <= run[|run| - 1].at)
  }

  /** The request whose open item a user closes by hand in this step. */
  function Hit(b: Requests.Book<int>, e: Event): set<nat> {
    match e
    case ClosesItem(k, _) => Requests.HitBy(b, k)
    case _ => {}
  }

  /** The requests whose open items users closed by hand during a run. */
  ghost function Hits(o: Office, run: seq<Timed>): set<nat> {
    if run == [] then {} else Hits(o, run[..|run| - 1]) + Hit(After(o, run[..|run| - 1]).book, run[|run| - 1].event)
  }

  /** What a request says about its shift. */
  ghost predicate RequestOk(shifts: seq<Shift>, r: Requests.Request<int>) {
    && r.subject < |shifts|
    && r.requester == shifts[r.subject].user
    && shifts[r.subject].punchIn < r.payload <= shifts[r.subject].punchIn + STALE_SHIFT
    && (r.status == Requests.Pending ==> shifts[r.subject].status == AutoClosed)
    && (r.status == Requests.Approved ==>
          shifts[r.subject].status == Completed && shifts[r.subject].punchOut == Some(r.payload))
  }

  ghost predicate OneApproved(b: Requests.Book<int>) {
    forall i, j :: 0 <= i < j < |b.requests| && b.requests[i].subject == b.requests[j].subject ==>
      b.requests[i].status != Requests.Approved || b.requests[j].status != Requests.Approved
  }

  ghost predicate OfficeOk(o: Office, clock: int, hit: set<nat>) {
    && ShiftsOk(o.shifts, clock)
    && Requests.BookOk(o.book, hit)
    && OneApproved(o.book)
    && (forall id :: 0 <= id < |o.book.requests| ==> RequestOk(o.shifts, o.book.requests[id]))
  }

  /** Records are only added; who, where and when they began is fixed, and completed ones never change. */
  ghost predicate History(before: seq<Shift>, after: seq<Shift>) {
    && |before| <= |after|
    && (forall k :: 0 <= k < |before| ==>
          && SamePlace(before[k], after[k])
          && before[k].punchIn == after[k].punchIn
          && (before[k].status == AutoClosed ==> after[k].status != Active)
          && (before[k].status == Completed ==> after[k] == before[k]))
  }

  /** Punches leave every record that is not open as it was. */
  ghost predicate OnlyOpenChange(before: seq<Shift>, after: seq<Shift>) {
    forall k :: 0 <= k < |before| && before[k].status != Active ==> k < |after| && after[k] == before[k]
  }

  lemma {:induction false} PunchInChanges(shifts: seq<Shift>, user: nat, property: nat, position: Position, now: int)
    ensures var after := PunchIn(shifts, user, property, position, now).0;
            History(shifts, after) && OnlyOpenChange(shifts, after)
  {
  }

  lemma {:induction false} PunchOutChanges(shifts: seq<Shift>, user: nat, property: nat, position: Position, now: int)
    ensures var after := PunchOut(shifts, user, property, position, now).0;
            History(shifts, after) && OnlyOpenChange(shifts, after)
  {
    var open := OpenRecords(shifts, user, property, |shifts|);
    var after := PunchOut(shifts, user, property, position, now).0;
    if after != shifts {
      assert open[0] in open;
      forall k | 0 <= k < |shifts|
        ensures k !in open ==> after[k] == shifts[k]
        ensures k in open ==> shifts[k].status == Active
      {
        assert k in open[1..] ==> k in open;
      }
    }
  }

  lemma {:induction false} PunchKeepsOffice(o: Office, shifts: seq<Shift>, now: int, hit: set<nat>)
    requires OfficeOk(o, now, hit) && ShiftsOk(shifts, now)
    requires History(o.shifts, shifts) && OnlyOpenChange(o.shifts, shifts)
    ensures OfficeOk(o.(shifts := shifts), now, hit)
  {
    forall id | 0 <= id < |o.book.requests| ensures RequestOk(shifts, o.book.requests[id]) {
      assert RequestOk(o.shifts, o.book.requests[id]);
    }
  }

  lemma {:induction false} ClaimKeepsOffice(o: Office, user: nat, shift: nat, claimed: int, now: int, hit: set<nat>)
    requires OfficeOk(o, now, hit)
    ensures var after := Create(o, user, shift, claimed, now).0;
            OfficeOk(after, now, hit) && Requests.OnlyPendingChange(o.book, after.book)
  {
    var after := Create(o, user, shift, claimed, now).0;
    if CreateError(o, user, shift, claimed, now).None? {
      Requests.SubmittedKeepsBook(o.book, shift, user, claimed, now, hit);
      forall id | 0 <= id < |o.book.requests|
        ensures RequestOk(o.shifts, after.book.requests[id])
        ensures after.book.requests[id].status == Requests.Approved ==> after.book.requests[id] == o.book.requests[id]
      {
        assert RequestOk(o.shifts, o.book.requests[id]);
      }
    }
  }

  /** The claimed punch-out of a pending request still ends before the next shift begins. */
  lemma {:induction false} ApprovalKeepsShifts(o: Office, id: nat, now: int, hit: set<nat>)
    requires OfficeOk(o, now, hit) && id < |o.book.requests| && o.book.requests[id].status == Requests.Pending
    ensures var r := o.book.requests[id];
            && RequestOk(o.shifts, r)
            && ShiftsOk(o.shifts[r.subject := Finish(o.shifts[r.subject], r.payload)], now)
    ensures forall j :: 0 <= j < |o.book.requests| && j != id
                        && o.book.requests[j].subject == o.book.requests[id].subject ==>
              o.book.requests[j].status != Requests.Pending && o.book.requests[j].status != Requests.Approved
  {
    var r := o.book.requests[id];
    assert RequestOk(o.shifts, r);
    var s := Finish(o.shifts[r.subject], r.payload);
    assert ShiftOk(o.shifts[r.subject], now);
    forall j | r.subject < j < |o.shifts| ensures Precedes(s, o.shifts[j]) {
      assert Precedes(o.shifts[r.subject], o.shifts[j]);
    }
    ReplaceKeepsShifts(o.shifts, r.subject, s, now);
    forall j | 0 <= j < |o.book.requests| && j != id && o.book.requests[j].subject == r.subject
      ensures o.book.requests[j].status != Requests.Pending && o.book.requests[j].status != Requests.Approved
    {
      assert RequestOk(o.shifts, o.book.requests[j]);
    }
  }

  /** What every step keeps, and the two replies it never gives. */
  ghost predicate StepOk(o: Office, step: (Office, Reply), now: int, hit: set<nat>) {
    && OfficeOk(step.0, now, hit)
    && History(o.shifts, step.0.shifts)
    && Requests.OnlyPendingChange(o.book, step.0.book)
    && step.1 != ShiftChanged
    && step.1 != BadClaim(InFuture)
  }

  lemma {:induction false} PunchStep(o: Office, e: Timed, hit: set<nat>)
    requires OfficeOk(o, e.at, hit) && (e.event.PunchesIn? || e.event.PunchesOut?)
    ensures StepOk(o, Step(o, e), e.at, hit)
  {
    match e.event {
      case PunchesIn(user, property, position) =>
        PunchInKeepsShifts(o.shifts, user, property, position, e.at);
        PunchInChanges(o.shifts, user, property, position, e.at);
      case PunchesOut(user, property, position) =>
        PunchOutKeepsShifts(o.shifts, user, property, position, e.at);
        PunchOutChanges(o.shifts, user, property, position, e.at);
    }
    PunchKeepsOffice(o, Step(o, e).0.shifts, e.at, hit);
  }

  lemma {:induction false} ApproveStep(o: Office, who: Reviewer, id: nat, now: int, hit: set<nat>)
    requires OfficeOk(o, now, hit)
    ensures StepOk(o, Approve(o, who, id, now), now, hit)
  {
    if ReviewError(o.book, who, id).None? {
      ApprovalKeepsShifts(o, id, now, hit);
      DecidedBook(o.book, id, Requests.Approved, who.id, now, Inbox.ApprovedNotice, hit);
      var (after, _) := Approve(o, who, id, now);
      forall j | 0 <= j < |after.book.requests| ensures RequestOk(after.shifts, after.book.requests[j]) {
        assert RequestOk(o.shifts, o.book.requests[j]);
      }
    }
  }

  lemma {:induction false} RejectStep(o: Office, who: Reviewer, id: nat, now: int, hit: set<nat>)
    requires OfficeOk(o, now, hit)
    ensures StepOk(o, Reject(o, who, id, now), now, hit)
  {
    if ReviewError(o.book, who, id).None? {
      DecidedBook(o.book, id, Requests.Rejected, who.id, now, Inbox.RejectedNotice, hit);
      var (after, _) := Reject(o, who, id, now);
      forall j | 0 <= j < |after.book.requests| ensures RequestOk(after.shifts, after.book.requests[j]) {
        assert RequestOk(o.shifts, o.book.requests[j]);
      }
    }
  }

  /** A pending request decided, its item closed and its requester told. */
  lemma {:induction false} DecidedBook(b: Requests.Book<int>, id: nat, status: Requests.Status, reviewer: nat, now: int,
                                       kind: Inbox.Kind, hit: set<nat>)
    requires Requests.BookOk(b, hit) && id < |b.requests| && b.requests[id].status == Requests.Pending
    requires status != Requests.Pending && kind != Inbox.RequestItem
    ensures var after := Requests.Notified(Requests.Decided(b, id, status, reviewer, now), id, kind);
            && Requests.BookOk(after, hit)
            && Requests.OnlyPendingChange(b, after)
            && after.requests == b.requests[id := Requests.Close(b.requests[id], status, reviewer, now)]
  {
    Requests.DecidedKeepsBook(b, id, status, reviewer, now, hit);
    Requests.NotifiedKeepsBook(Requests.Decided(b, id, status, reviewer, now), id, kind, hit);
  }

  lemma {:induction false} ClaimStep(o: Office, user: nat, shift: nat, claimed: int, now: int, hit: set<nat>)
    requires OfficeOk(o, now, hit)
    ensures StepOk(o, Create(o, user, shift, claimed, now), now, hit)
  {
    ClaimKeepsOffice(o, user, shift, claimed, now, hit);
    if shift < |o.shifts| {
      assert ShiftOk(o.shifts[shift], now);
    }
  }

  lemma {:induction false} CancelStep(o: Office, user: nat, id: nat, now: int, hit: set<nat>)
    requires OfficeOk(o, now, hit)
    ensures StepOk(o, Cancel(o, user, id, now), now, hit)
  {
    if Cancel(o, user, id, now).1 == Done {
      Requests.DecidedKeepsBook(o.book, id, Requests.Cancelled, user, now, hit);
    }
  }

  lemma {:induction false} ReadStep(o: Office, k: nat, now: int, hit: set<nat>)
    requires OfficeOk(o, now, hit)
    ensures StepOk(o, (o.(book := Requests.ItemRead(o.book, k)), Done), now, hit)
  {
    Requests.ItemReadKeepsBook(o.book, k, hit);
  }

  lemma {:induction false} CloseStep(o: Office, k: nat, dismiss: bool, now: int, hit: set<nat>)
    requires OfficeOk(o, now, hit)
    ensures StepOk(o, (o.(book := Requests.ItemClosed(o.book, k, dismiss)), Done), now, hit + Requests.HitBy(o.book, k))
  {
    Requests.ItemClosedKeepsBook(o.book, k, dismiss, hit);
  }

  lemma {:induction false} StepKeepsOffice(o: Office, clock: int, e: Timed, hit: set<nat>)
    requires OfficeOk(o, clock, hit) && clock <= e.at
    ensures StepOk(o, Step(o, e), e.at, hit + Hit(o.book, e.event))
  {
    ClockMoves(o.shifts, clock, e.at);
    assert hit + {} == hit;
    match e.event {
      case PunchesIn(_, _, _) => PunchStep(o, e, hit);
      case PunchesOut(_, _, _) => PunchStep(o, e, hit);
      case Claims(user, shift, claimed) => ClaimStep(o, user, shift, claimed, e.at, hit);
      case Approves(who, id) => ApproveStep(o, who, id, e.at, hit);
      case Rejects(who, id) => RejectStep(o, who, id, e.at, hit);
      case Cancels(user, id) => CancelStep(o, user, id, e.at, hit);
      case ReadsItem(k) => ReadStep(o, k, e.at, hit);
      case ClosesItem(k, dismiss) => CloseStep(o, k, dismiss, e.at, hit);
    }
  }

  /** The invariant holds after every run of punches and correction steps. */
  lemma {:induction false} RunKeepsOffice(o: Office, clock: int, run: seq<Timed>, hit: set<nat>)
    requires OfficeOk(o, clock, hit) && Proper(clock, run)
    ensures OfficeOk(After(o, run), ClockAfter(clock, run), hit + Hits(o, run))
    ensures History(o.shifts, After(o, run).shifts)
    ensures Requests.OnlyPendingChange(o.book, After(o, run).book)
  {
    if run == [] {
      assert hit + {} == hit;
    } else {
      var before, last := run[..|run| - 1], run[|run| - 1];
      RunKeepsOffice(o, clock, before, hit);
      StepKeepsOffice(After(o, before), ClockAfter(clock, before), last, hit + Hits(o, before));
      assert hit + Hits(o, run) == hit + Hits(o, before) + Hit(After(o, before).book, last.event);
    }
  }

  // ----- the guarantees, from an empty office -----

  const EMPTY := Office([], Requests.Book([], []))

  lemma {:induction false} ReachableIsOk(clock: int, run: seq<Timed>)
    requires Proper(clock, run)
    ensures OfficeOk(After(EMPTY, run), ClockAfter(clock, run), Hits(EMPTY, run))
  {
    RunKeepsOffice(EMPTY, clock, run, {});
    assert {} + Hits(EMPTY, run) == Hits(EMPTY, run);
  }

  /** One user's completed shifts at one property are disjoint, approved claims included, and at most one is open. */
  lemma {:induction false} NoOverlap(clock: int, run: seq<Timed>, i: nat, j: nat)
    requires Proper(clock, run)
    requires var shifts := After(EMPTY, run).shifts;
             i < |shifts| && j < |shifts| && i != j && SamePlace(shifts[i], shifts[j])
    ensures var shifts := After(EMPTY, run).shifts;
            && (forall t :: !(AtWork(shifts[i], t) && AtWork(shifts[j], t)))
            && (shifts[i].status != Active || shifts[j].status != Active)
  {
    ReachableIsOk(clock, run);
    var shifts, now := After(EMPTY, run).shifts, ClockAfter(clock, run);
    assert ShiftOk(shifts[i], now) && ShiftOk(shifts[j], now);
    if shifts[i].status == Completed && shifts[j].status == Completed {
      CompletedAreDisjoint(shifts, now, i, j);
    } else if shifts[i].status == Active && shifts[j].status == Active {
      OneOpen(shifts, now, i, j);
    }
  }

  /** The hours reported since any start never exceed the time elapsed since it. */
  lemma {:induction false} HoursFitElapsed(clock: int, run: seq<Timed>, user: nat, property: nat,
                                           start: int, now: int)
    requires Proper(clock, run) && ClockAfter(clock, run) <= now
    ensures Total(After(EMPTY, run).shifts, user, property, start, now) <= if start <= now then now - start else 0
  {
    ReachableIsOk(clock, run);
    ClockMoves(After(EMPTY, run).shifts, ClockAfter(clock, run), now);
    TotalAtMostElapsed(After(EMPTY, run).shifts, user, property, start, now);
  }

  /** The claim check against the future never decides: an auto-closed shift is more than 16 hours old. */
  lemma {:induction false} FutureCheckImplied(clock: int, run: seq<Timed>, k: nat, claimed: int, now: int)
    requires Proper(clock, run) && ClockAfter(clock, run) <= now
    requires k < |After(EMPTY, run).shifts| && After(EMPTY, run).shifts[k].status == AutoClosed
    ensures var s := After(EMPTY, run).shifts[k];
            && ClaimErrorOf(s, claimed, now) != Some(InFuture)
            && (ClaimErrorOf(s, claimed, now).None? <==> s.punchIn < claimed <= s.punchIn + STALE_SHIFT)
            && (s.punchIn < claimed <= s.punchIn + STALE_SHIFT ==> claimed < now)
  {
    ReachableIsOk(clock, run);
    assert ShiftOk(After(EMPTY, run).shifts[k], ClockAfter(clock, run));
  }

  /** A record has at most one pending or approved request, never both; the approved one is its punch-out. */
  lemma {:induction false} RequestsPerShift(clock: int, run: seq<Timed>, i: nat, j: nat)
    requires Proper(clock, run)
    requires var b := After(EMPTY, run).book;
             i < |b.requests| && j < |b.requests| && i != j && b.requests[i].subject == b.requests[j].subject
    ensures var o := After(EMPTY, run);
            var live := (r: Requests.Request<int>) => r.status == Requests.Pending || r.status == Requests.Approved;
            && !(live(o.book.requests[i]) && live(o.book.requests[j]))
            && o.book.requests[i].subject < |o.shifts|
            && (o.book.requests[i].status == Requests.Approved ==>
                  o.shifts[o.book.requests[i].subject].punchOut == Some(o.book.requests[i].payload))
  {
    ReachableIsOk(clock, run);
    var o := After(EMPTY, run);
    assert RequestOk(o.shifts, o.book.requests[i]) && RequestOk(o.shifts, o.book.requests[j]);
  }

  /** Over every run, one open item points at a request exactly while it is pending and no user closed its item. */
  lemma {:induction false} PendingIffOpenItem(clock: int, run: seq<Timed>, id: nat)
    requires Proper(clock, run) && id < |After(EMPTY, run).book.requests|
    ensures var b := After(EMPTY, run).book;
            && (Inbox.OpenCount(b.items, Inbox.RequestItem, id) == 1 <==>
                  b.requests[id].status == Requests.Pending && id !in Hits(EMPTY, run))
            && Inbox.OpenCount(b.items, Inbox.RequestItem, id) <= 1
  {
    ReachableIsOk(clock, run);
  }

  const HERE := Position(Some(100.0), None, 0.0)
  const FORGOTTEN := [Timed(0, PunchesIn(1, 1, HERE)), Timed(57601, PunchesIn(1, 1, HERE))]

  lemma {:induction false} ForgottenShift()
    ensures Proper(0, FORGOTTEN)
    ensures After(EMPTY, FORGOTTEN)
         == Office([Shift(1, 1, 0, None, None, AutoClosed), Shift(1, 1, 57601, None, None, Active)],
                   Requests.Book([], []))
  {
    var first, second := FORGOTTEN[0], FORGOTTEN[1];
    assert FORGOTTEN[..1] == [first] && [first][..0] == [];
    assert After(EMPTY, []) == EMPTY && Proper(0, []) && Proper(0, [first]);
    var open := Shift(1, 1, 0, None, None, Active);
    FirstPunchIn([], 1, 1, HERE, 0);
    assert After(EMPTY, [first]) == Office([open], EMPTY.book);
    SecondPunchIn(open, HERE, 57601);
  }

  lemma {:induction false} OneMore(o: Office, run: seq<Timed>, e: Timed)
    ensures After(o, run + [e]) == Step(After(o, run), e).0
    ensures Proper(0, run + [e]) <==> Proper(0, run) && ClockAfter(0, run) <= e.at
    ensures ClockAfter(0, run + [e]) == e.at
  {
    assert (run + [e])[..|run|] == run;
  }

  /** A claim whose inbox item was dismissed is pending with no open item. */
  lemma {:induction false} DismissedIsStillPending()
    ensures var run := FORGOTTEN + [Timed(57602, Claims(1, 0, 3600))] + [Timed(57603, ClosesItem(0, true))];
            var b := After(EMPTY, run).book;
            && Proper(0, run)
            && |b.requests| == 1
            && b.requests[0].status == Requests.Pending
            && Inbox.OpenCount(b.items, Inbox.RequestItem, 0) == 0
  {
    ForgottenShift();
    var claim, close := Timed(57602, Claims(1, 0, 3600)), Timed(57603, ClosesItem(0, true));
    var asked := FORGOTTEN + [claim];
    OneMore(EMPTY, FORGOTTEN, claim);
    OneMore(EMPTY, asked, close);
    Requests.SubmittedThenDismissed(EMPTY.book, 0, 1, 3600, 57602, true, {});
    assert After(EMPTY, asked).book == Requests.Submitted(EMPTY.book, 0, 1, 3600, 57602);
    assert After(EMPTY, asked + [close]).book == Requests.ItemClosed(After(EMPTY, asked).book, 0, true);
  }

  /**
   In every state that keeps the invariant a review goes ahead exactly for a
   pending request of someone else, in the reviewer's scope, with a role that
   still holds; the shift never stands in its way. Otherwise nothing changes.
   */
  lemma {:induction false} ReviewGoesAhead(o: Office, who: Reviewer, id: nat, now: int, hit: set<nat>)
    requires OfficeOk(o, now, hit)
    ensures var allowed := && id < |o.book.requests|
                           && o.book.requests[id].status == Requests.Pending
                           && o.book.requests[id].requester != who.id
                           && who.inScope
                           && who.roleHolds;
            && (Approve(o, who, id, now).1 == Done <==> allowed)
            && (Reject(o, who, id, now).1 == Done <==> allowed)
            && (!allowed ==> Approve(o, who, id, now).0 == o && Reject(o, who, id, now).0 == o)
  {
    if id < |o.book.requests| {
      assert RequestOk(o.shifts, o.book.requests[id]);
    }
  }

  /** Over every run, no claim is approved or rejected by the one who made it, and every closed one says by whom. */
  lemma {:induction false} NoSelfReview(o: Office, run: seq<Timed>)
    requires Requests.TrailsOk(o.book)
    ensures Requests.TrailsOk(After(o, run).book)
  {
    if run != [] {
      NoSelfReview(o, run[..|run| - 1]);
      StepKeepsTrails(After(o, run[..|run| - 1]), run[|run| - 1]);
    }
  }

  lemma {:induction false} StepKeepsTrails(o: Office, e: Timed)
    requires Requests.TrailsOk(o.book)
    ensures Requests.TrailsOk(Step(o, e).0.book)
  {
    match e.event {
      case Claims(user, shift, claimed) => Requests.SubmittedKeepsTrails(o.book, shift, user, claimed, e.at);
      case _ =>
    }
  }

  /**
   The event closes the request as it stands: approved or rejected by someone
   else in scope whose role still held, cancelled by its requester, or replaced
   by a newer claim for the same shift; and the request is signed accordingly.
   */
  predicate ClosedBy(e: Timed, r: Requests.Request<int>, id: nat) {
    match e.event
    case Approves(who, i) =>
      && i == id && r.status == Requests.Approved && Requests.SignedBy(r, who.id, e.at)
      && who.inScope && who.roleHolds && who.id != r.requester
    case Rejects(who, i) =>
      && i == id && r.status == Requests.Rejected && Requests.SignedBy(r, who.id, e.at)
      && who.inScope && who.roleHolds && who.id != r.requester
    case Cancels(user, i) =>
      i == id && r.status == Requests.Cancelled && Requests.SignedBy(r, user, e.at) && user == r.requester
    case Claims(user, shift, _) =>
      shift == r.subject && r.status == Requests.Cancelled && Requests.SignedBy(r, user, e.at)
    case _ => false
  }

  /** A step closes a request only as described, never touches a closed one, and adds only pending ones. */
  lemma {:induction false} StepCloses(o: Office, e: Timed, id: nat)
    requires id < |Step(o, e).0.book.requests|
    ensures var now := Step(o, e).0.book.requests[id];
            if id >= |o.book.requests| then now.status == Requests.Pending
            else if o.book.requests[id].status != Requests.Pending then now == o.book.requests[id]
            else now.status == Requests.Pending || ClosedBy(e, now, id)
  {
    match e.event {
      case Claims(user, shift, claimed) =>
        if CreateError(o, user, shift, claimed, e.at).None? {
          Requests.SubmittedAt(o.book, shift, user, claimed, e.at, id);
        }
      case _ =>
    }
  }

  /** Every request closed in a run was closed by one of its events, which its signature names. */
  lemma {:induction false} ClosedByOneEvent(o: Office, run: seq<Timed>, id: nat) returns (k: nat)
    requires id < |After(o, run).book.requests| && After(o, run).book.requests[id].status != Requests.Pending
    requires id < |o.book.requests| ==> o.book.requests[id].status == Requests.Pending
    ensures k < |run| && ClosedBy(run[k], After(o, run).book.requests[id], id)
  {
    var n := |run| - 1;
    var was := After(o, run[..n]);
    StepCloses(was, run[n], id);
    if id < |was.book.requests| && was.book.requests[id].status != Requests.Pending {
      k := ClosedByOneEvent(o, run[..n], id);
    } else {
      k := n;
    }
  }

  /** To everyone but its requester, a request out of scope answers as one that does not exist. */
  lemma {:induction false} OutOfScopeLooksMissing(o: Office, who: Reviewer, id: nat, missing: nat, now: int)
    requires !who.inScope && |o.book.requests| <= missing
    requires id < |o.book.requests| ==> o.book.requests[id].requester != who.id
    ensures Approve(o, who, id, now) == Approve(o, who, missing, now)
    ensures Reject(o, who, id, now) == Reject(o, who, missing, now)
    ensures Cancel(o, who.id, id, now) == Cancel(o, who.id, missing, now)
  {
  }

  /** A valid claim, once someone else in scope approves it while it is pending, is the punch-out of the shift. */
  lemma {:induction false} ClaimThenApprove(o: Office, clock: int, user: nat, shift: nat, claimed: int, t: int,
                                            who: Reviewer, u: int, hit: set<nat>)
    requires OfficeOk(o, clock, hit) && clock <= t <= u
    requires shift < |o.shifts| && o.shifts[shift].user == user && o.shifts[shift].status == AutoClosed
    requires o.shifts[shift].punchIn < claimed <= o.shifts[shift].punchIn + STALE_SHIFT
    requires who.inScope && who.roleHolds && who.id != user
    ensures var (asked, made) := Create(o, user, shift, claimed, t);
            var (after, reply) := Approve(asked, who, |o.book.requests|, u);
            && made == Done
            && reply == Done
            && after.shifts == o.shifts[shift := o.shifts[shift].(
                 punchOut := Some(claimed), worked := Some(claimed - o.shifts[shift].punchIn), status := Completed)]
  {
    ClockMoves(o.shifts, clock, t);
    assert ShiftOk(o.shifts[shift], t);
    Requests.SubmittedKeepsBook(o.book, shift, user, claimed, t, hit);
  }

  // ----- the methods -----

  class CorrectionService {
    const log: ShiftLog
    const corrections: Requests.RequestBook<int>

    ghost function Now(): Office
      reads log, corrections, corrections.inbox
    {
      Office(log.shifts, corrections.Now())
    }

    constructor ()
      ensures fresh(log) && fresh(corrections) && fresh(corrections.inbox) && Now() == EMPTY
    {
      log := new ShiftLog();
      corrections := new Requests.RequestBook<int>();
    }

    /** create_correction */
    method CreateCorrection(user: nat, shift: nat, claimed: int, now: int) returns (reply: Reply)
      modifies corrections, corrections.inbox
      ensures (Now(), reply) == Create(old(Now()), user, shift, claimed, now)
    {
      if shift >= |log.shifts| || log.shifts[shift].user != user {
        return NotFound;
      }
      if log.shifts[shift].status != AutoClosed {
        return Conflict;
      }
      var why := ClaimErrorOf(log.shifts[shift], claimed, now);
      if why.Some? {
        return BadClaim(why.value);
      }
      var id := corrections.Submit(shift, user, claimed, now);
      return Done;
    }

    /** _ensure_reviewer */
    method EnsureReviewer(who: Reviewer, id: nat) returns (error: Option<Reply>)
      ensures error == ReviewError(corrections.Now(), who, id)
    {
      if id >= |corrections.requests| {
        return Some(NotFound);
      }
      var request := corrections.requests[id];
      if request.requester == who.id {
        return Some(Forbidden);
      }
      if !who.inScope {
        return Some(NotFound);
      }
      if request.status != Requests.Pending {
        return Some(Conflict);
      }
      return if who.roleHolds then None else Some(Forbidden);
    }

    /** approve_correction */
    method ApproveCorrection(who: Reviewer, id: nat, now: int) returns (reply: Reply)
      modifies log, corrections, corrections.inbox
      ensures (Now(), reply) == Approve(old(Now()), who, id, now)
    {
      var error := EnsureReviewer(who, id);
      if error.Some? {
        return error.value;
      }
      var request := corrections.requests[id];
      var k := request.subject;
      if k >= |log.shifts| || log.shifts[k].status != AutoClosed {
        return ShiftChanged;
      }
      log.shifts := log.shifts[k := Finish(log.shifts[k], request.payload)];
      corrections.Decide(id, Requests.Approved, who.id, now);
      corrections.Notify(id, Inbox.ApprovedNotice);
      return Done;
    }

    /** reject_correction */
    method RejectCorrection(who: Reviewer, id: nat, now: int) returns (reply: Reply)
      modifies corrections, corrections.inbox
      ensures (Now(), reply) == Reject(old(Now()), who, id, now)
    {
      var error := EnsureReviewer(who, id);
      if error.Some? {
        return error.value;
      }
      corrections.Decide(id, Requests.Rejected, who.id, now);
      corrections.Notify(id, Inbox.RejectedNotice);
      return Done;
    }

    /** cancel_correction */
    method CancelCorrection(user: nat, id: nat, now: int) returns (reply: Reply)
      modifies corrections, corrections.inbox
      ensures (Now(), reply) == Cancel(old(Now()), user, id, now)
    {
      if id >= |corrections.requests| || corrections.requests[id].requester != user {
        return NotFound;
      }
      if corrections.requests[id].status != Requests.Pending {
        return Conflict;
      }
      corrections.Decide(id, Requests.Cancelled, user, now);
      return Done;
    }
  }
}
