/**
 What submitting, deciding and cancelling requests answer and write, said of the
 fields of the requests, records, geofences and inbox items alone.
 */
module RequestOutcomes {
  import opened Wrappers
  import Corrections
  import Geofence
  import Inbox
  import Requests
  import ShiftOutcomes
  import Shifts

  // ----- inbox items -----

  /** An item of the record and type that is unread or read. */
  predicate Shown(item: Inbox.Item, kind: Inbox.Kind, source: nat) {
    || item == Inbox.Item(kind, source, Inbox.Unread)
    || item == Inbox.Item(kind, source, Inbox.Read)
  }

  /** Which of the first n items are shown. */
  function AllShown(items: seq<Inbox.Item>, kind: Inbox.Kind, source: nat, n: nat): set<int>
    requires n <= |items|
  {
    set k | 0 <= k < n && Shown(items[k], kind, source)
  }

  lemma {:induction false} OneMoreShown(items: seq<Inbox.Item>, kind: Inbox.Kind, source: nat, n: nat)
    requires n < |items|
    ensures |AllShown(items, kind, source, n + 1)|
         == |AllShown(items, kind, source, n)| + if Shown(items[n], kind, source) then 1 else 0
  {
    assert AllShown(items, kind, source, n + 1)
        == AllShown(items, kind, source, n) + if Shown(items[n], kind, source) then {n} else {};
  }

  lemma {:induction false} CountOfPrefix(items: seq<Inbox.Item>, kind: Inbox.Kind, source: nat, n: nat)
    requires n <= |items|
    ensures Inbox.OpenCount(items[..n], kind, source) == |AllShown(items, kind, source, n)|
  {
    if n > 0 {
      CountOfPrefix(items, kind, source, n - 1);
      OneMoreShown(items, kind, source, n - 1);
      Inbox.CountAppend(items[..n - 1], items[n - 1], kind, source);
      assert items[..n] == items[..n - 1] + [items[n - 1]];
    }
  }

  /** The count of open items is the number of shown ones. */
  lemma {:induction false} OpenCountIsSize(items: seq<Inbox.Item>, kind: Inbox.Kind, source: nat)
    ensures Inbox.OpenCount(items, kind, source) == |AllShown(items, kind, source, |items|)|
  {
    CountOfPrefix(items, kind, source, |items|);
    assert items[..|items|] == items;
  }

  lemma {:induction false} CountedIsShown(items: seq<Inbox.Item>, kind: Inbox.Kind, source: nat)
    ensures Inbox.OpenCount(items, kind, source) == 0 <==>
            forall k :: 0 <= k < |items| ==> !Shown(items[k], kind, source)
  {
    OpenCountIsSize(items, kind, source);
    var all := AllShown(items, kind, source, |items|);
    if all == {} {
      assert forall k :: 0 <= k < |items| && Shown(items[k], kind, source) ==> k in all;
    }
  }

  /** A new item appears, unread, exactly if none of its record and type is shown; nothing else changes. */
  lemma {:induction false} NewItem(items: seq<Inbox.Item>, kind: Inbox.Kind, source: nat)
    ensures Inbox.WithItem(items, kind, source)
         == if exists k :: 0 <= k < |items| && Shown(items[k], kind, source) then items
            else items + [Inbox.Item(kind, source, Inbox.Unread)]
  {
    CountedIsShown(items, kind, source);
  }

  /** The existence check raises exactly if two different rows are shown. */
  lemma {:induction false} SeveralShown(items: seq<Inbox.Item>, kind: Inbox.Kind, source: nat)
    ensures Inbox.Check(items, kind, source) == Inbox.SeveralOpen <==>
            exists j, k :: 0 <= j < k < |items| && Shown(items[j], kind, source) && Shown(items[k], kind, source)
  {
    OpenCountIsSize(items, kind, source);
    var all := AllShown(items, kind, source, |items|);
    if |all| > 1 {
      var j :| j in all;
      assert |all - {j}| == |all| - 1;
      var k :| k in all - {j};
      assert if j < k then Shown(items[j], kind, source) else Shown(items[k], kind, source);
    }
    if j, k :| 0 <= j < k < |items| && Shown(items[j], kind, source) && Shown(items[k], kind, source) {
      TwoAreMore(all, j, k);
    }
  }

  lemma {:induction false} TwoAreMore(all: set<int>, j: int, k: int)
    requires j in all && k in all && j != k
    ensures |all| > 1
  {
    assert |all - {j}| == |all| - 1 && k in all - {j};
  }

  /** Closing marks exactly the shown items of the record and type as actioned. */
  lemma {:induction false} MarkedItems(items: seq<Inbox.Item>, kind: Inbox.Kind, source: nat, k: nat)
    requires k < |items|
    ensures |Inbox.MarkedActioned(items, kind, source)| == |items|
    ensures Inbox.MarkedActioned(items, kind, source)[k]
         == if Shown(items[k], kind, source) then Inbox.Item(kind, source, Inbox.Actioned) else items[k]
  {
  }

  /** after is before but for the status of item k, if there is one. */
  predicate ItemMarked<T(==)>(before: Requests.Book<T>, after: Requests.Book<T>, k: nat, status: Inbox.ItemStatus) {
    && after.requests == before.requests
    && after.items == if k >= |before.items| then before.items
                      else before.items[k := Inbox.Item(before.items[k].kind, before.items[k].source, status)]
  }

  /** What reading item k leaves it as: an unread one as read, any other as it is. */
  function OnceRead(items: seq<Inbox.Item>, k: nat): Inbox.ItemStatus {
    if k >= |items| || items[k].status == Inbox.Unread then Inbox.Read else items[k].status
  }

  // ----- requests -----

  /** after is before with request id closed as said, none of its items shown, all others and their items kept. */
  ghost predicate ClosedAs<T(!new)>(before: Requests.Book<T>, after: Requests.Book<T>, id: nat,
          status: Requests.Status, signer: nat, at: int)
    requires id < |before.requests|
  {
    var r := before.requests[id];
    && after.requests
       == before.requests[id := Requests.Request(r.subject, r.requester, r.payload, status, Some(signer), Some(at))]
    && |before.items| <= |after.items|
    && forall k :: 0 <= k < |before.items| ==>
         after.items[k] == if Shown(before.items[k], Inbox.RequestItem, id)
                           then Inbox.Item(Inbox.RequestItem, id, Inbox.Actioned) else before.items[k]
  }

  /** Besides, the requester is shown one notice of this kind, and no other item was added. */
  ghost predicate Told<T(!new)>(before: Requests.Book<T>, after: Requests.Book<T>, id: nat, notice: Inbox.Kind) {
    && |before.items| <= |after.items|
    && (after.items[|before.items|..] == [Inbox.Item(notice, id, Inbox.Unread)]
        || (after.items[|before.items|..] == []
            && exists k :: 0 <= k < |before.items| && Shown(before.items[k], notice, id)))
  }

  lemma {:induction false} DecidedCloses<T(!new)>(b: Requests.Book<T>, id: nat, status: Requests.Status, signer: nat,
          at: int)
    requires id < |b.requests|
    ensures ClosedAs(b, Requests.Decided(b, id, status, signer, at), id, status, signer, at)
    ensures |Requests.Decided(b, id, status, signer, at).items| == |b.items|
  {
    forall k | 0 <= k < |b.items|
      ensures Requests.Decided(b, id, status, signer, at).items[k]
           == if Shown(b.items[k], Inbox.RequestItem, id) then Inbox.Item(Inbox.RequestItem, id, Inbox.Actioned)
              else b.items[k]
    {
      MarkedItems(b.items, Inbox.RequestItem, id, k);
    }
  }

  lemma {:induction false} DecidedAndTold<T(!new)>(b: Requests.Book<T>, id: nat, status: Requests.Status, signer: nat,
          at: int, notice: Inbox.Kind)
    requires id < |b.requests| && notice != Inbox.RequestItem
    ensures var after := Requests.Notified(Requests.Decided(b, id, status, signer, at), id, notice);
            ClosedAs(b, after, id, status, signer, at) && Told(b, after, id, notice)
  {
    DecidedCloses(b, id, status, signer, at);
    var decided := Requests.Decided(b, id, status, signer, at);
    var after := Requests.Notified(decided, id, notice);
    NewItem(decided.items, notice, id);
    if after.items == decided.items {
      var k :| 0 <= k < |decided.items| && Shown(decided.items[k], notice, id);
      assert Shown(b.items[k], notice, id);
      assert after.items[|b.items|..] == [];
    } else {
      assert after.items[|b.items|..] == [Inbox.Item(notice, id, Inbox.Unread)];
    }
  }

  /** A new request, pending and unsigned, with what was pending on its subject cancelled by its requester. */
  lemma {:induction false} SubmittedWrites<T(!new)>(b: Requests.Book<T>, subject: nat, signer: nat, payload: T, at: int,
          id: nat)
    requires id <= |b.requests|
    ensures var after := Requests.Submitted(b, subject, signer, payload, at);
            && |after.requests| == |b.requests| + 1
            && after.requests[id]
               == if id == |b.requests| then Requests.Request(subject, signer, payload, Requests.Pending, None, None)
                  else
                    var r := b.requests[id];
                    if r.subject == subject && r.status == Requests.Pending
                    then Requests.Request(subject, r.requester, r.payload, Requests.Cancelled, Some(signer), Some(at))
                    else r
  {
    Requests.SubmittedAt(b, subject, signer, payload, at, id);
  }

  // ----- corrections -----

  /** A punch follows the rules for records and leaves requests and items alone. */
  lemma {:induction false} PunchesInRules(o: Corrections.Office, user: nat, property: nat, position: Shifts.Position,
          now: int)
    ensures var e := Corrections.Timed(now, Corrections.PunchesIn(user, property, position));
            var (after, reply) := Corrections.Step(o, e);
            && reply.Punch? && after == o.(shifts := after.shifts)
            && ShiftOutcomes.PunchedIn(o.shifts, after.shifts, reply.reply, user, property, position, now)
  {
    ShiftOutcomes.PunchInRules(o.shifts, user, property, position, now);
  }

  lemma {:induction false} PunchesOutRules(o: Corrections.Office, user: nat, property: nat, position: Shifts.Position,
          now: int)
    ensures var e := Corrections.Timed(now, Corrections.PunchesOut(user, property, position));
            var (after, reply) := Corrections.Step(o, e);
            && reply.Punch? && after == o.(shifts := after.shifts)
            && ShiftOutcomes.PunchedOut(o.shifts, after.shifts, reply.reply, user, property, position, now)
  {
    ShiftOutcomes.PunchOutRules(o.shifts, user, property, position, now);
  }

  /** A user's own action on an inbox item changes no more than its status. */
  lemma {:induction false} ClaimItemRules(o: Corrections.Office, k: nat, dismiss: bool, now: int)
    ensures var after := Corrections.Step(o, Corrections.Timed(now, Corrections.ReadsItem(k))).0;
            after.shifts == o.shifts && ItemMarked(o.book, after.book, k, OnceRead(o.book.items, k))
    ensures var after := Corrections.Step(o, Corrections.Timed(now, Corrections.ClosesItem(k, dismiss))).0;
            && after.shifts == o.shifts
            && ItemMarked(o.book, after.book, k, if dismiss then Inbox.Dismissed else Inbox.Actioned)
  {
  }

  /** Claiming: what is answered, and when the claim is taken; a refusal changes nothing. */
  lemma {:induction false} ClaimRules(o: Corrections.Office, user: nat, shift: nat, claimed: int, now: int)
    ensures var (after, reply) := Corrections.Step(o, Corrections.Timed(now, Corrections.Claims(user, shift, claimed)));
            if shift >= |o.shifts| || o.shifts[shift].user != user then reply == Corrections.NotFound && after == o
            else if o.shifts[shift].status != Shifts.AutoClosed then reply == Corrections.Conflict && after == o
            else
              var begun := o.shifts[shift].punchIn;
              && (claimed <= begun <==> reply == Corrections.BadClaim(Corrections.NotAfterPunchIn))
              && (claimed > begun + 16 * Shifts.HOUR <==> reply == Corrections.BadClaim(Corrections.TooLong))
              && (begun < claimed <= begun + 16 * Shifts.HOUR && claimed > now + 60 <==>
                    reply == Corrections.BadClaim(Corrections.InFuture))
              && (begun < claimed <= begun + 16 * Shifts.HOUR && claimed <= now + 60 <==> reply == Corrections.Done)
              && (reply != Corrections.Done ==> after == o)
              && (reply == Corrections.Done ==>
                    after == o.(book := Requests.Submitted(o.book, shift, user, claimed, now)))
  {
  }

  /** What a reviewer is answered who may not decide. */
  predicate Refusal(b: Requests.Book<int>, who: Corrections.Reviewer, id: nat, reply: Corrections.Reply) {
    if id >= |b.requests| then reply == Corrections.NotFound
    else if b.requests[id].requester == who.id then reply == Corrections.Forbidden
    else if !who.inScope then reply == Corrections.NotFound
    else if b.requests[id].status != Requests.Pending then reply == Corrections.Conflict
    else !who.roleHolds && reply == Corrections.Forbidden
  }

  /** Approving completes the shift with the claim and closes the request; rejecting only closes it. */
  lemma {:induction false} ReviewRules(o: Corrections.Office, who: Corrections.Reviewer, id: nat, now: int)
    ensures var (after, reply) := Corrections.Step(o, Corrections.Timed(now, Corrections.Approves(who, id)));
            && (reply != Corrections.Done && reply != Corrections.ShiftChanged ==> Refusal(o.book, who, id, reply))
            && (reply != Corrections.Done ==> after == o)
            && (reply == Corrections.Done ==>
                  && id < |o.book.requests|
                  && ClosedAs(o.book, after.book, id, Requests.Approved, who.id, now)
                  && Told(o.book, after.book, id, Inbox.ApprovedNotice)
                  && var r := o.book.requests[id];
                     && r.subject < |o.shifts|
                     && var s := o.shifts[r.subject];
                        after.shifts == o.shifts[r.subject :=
                          Shifts.Shift(s.user, s.property, s.punchIn, Some(r.payload), Some(r.payload - s.punchIn),
                                       Shifts.Completed)])
    ensures var (after, reply) := Corrections.Step(o, Corrections.Timed(now, Corrections.Rejects(who, id)));
            && (reply != Corrections.Done ==> Refusal(o.book, who, id, reply) && after == o)
            && (reply == Corrections.Done ==>
                  && id < |o.book.requests|
                  && ClosedAs(o.book, after.book, id, Requests.Rejected, who.id, now)
                  && Told(o.book, after.book, id, Inbox.RejectedNotice)
                  && after.shifts == o.shifts)
  {
    if Corrections.ReviewError(o.book, who, id).None? {
      DecidedAndTold(o.book, id, Requests.Approved, who.id, now, Inbox.ApprovedNotice);
      DecidedAndTold(o.book, id, Requests.Rejected, who.id, now, Inbox.RejectedNotice);
    }
  }

  /** Cancelling goes ahead exactly for the requester's own pending request, and then closes it and its items. */
  lemma {:induction false} CancelRules(o: Corrections.Office, user: nat, id: nat, now: int)
    ensures var (after, reply) := Corrections.Step(o, Corrections.Timed(now, Corrections.Cancels(user, id)));
            && (reply == Corrections.Done <==>
                  id < |o.book.requests| && o.book.requests[id].requester == user
                  && o.book.requests[id].status == Requests.Pending)
            && (reply == Corrections.NotFound <==> id >= |o.book.requests| || o.book.requests[id].requester != user)
            && (reply == Corrections.Done || reply == Corrections.NotFound || reply == Corrections.Conflict)
            && (reply != Corrections.Done ==> after == o)
            && (reply == Corrections.Done ==>
                  && ClosedAs(o.book, after.book, id, Requests.Cancelled, user, now)
                  && |after.book.items| == |o.book.items|
                  && after.shifts == o.shifts)
  {
    if id < |o.book.requests| {
      DecidedCloses(o.book, id, Requests.Cancelled, user, now);
    }
  }

  // ----- geofence requests -----

  /** The caller works with all properties of the tenant, or with this one. */
  predicate WorksWith(c: Geofence.Caller, property: nat) {
    match c.role
    case SuperAdmin => true
    case TenantAdmin => true
    case CoAdmin => c.property.None? || c.property == Some(property)
    case Manager => c.property == Some(property)
    case Staff => c.property == Some(property)
  }

  /** Proposing: taken exactly for a live property the caller works with. */
  lemma {:induction false} ProposeRules(w: Geofence.World, c: Geofence.Caller, property: nat, live: bool,
          p: Geofence.Proposal, now: int)
    ensures var (after, reply) := Geofence.Step(w, Geofence.Timed(now, Geofence.Creates(c, property, live, p)));
            if live && WorksWith(c, property) then
              reply == Geofence.Done && after == w.(book := Requests.Submitted(w.book, property, c.id, p, now))
            else reply == Geofence.NotInScope && after == w
  {
  }

  /** A user's own action on an inbox item changes no more than its status. */
  lemma {:induction false} ItemRules(w: Geofence.World, k: nat, dismiss: bool, now: int)
    ensures var after := Geofence.Step(w, Geofence.Timed(now, Geofence.ReadsItem(k))).0;
            after.fences == w.fences && ItemMarked(w.book, after.book, k, OnceRead(w.book.items, k))
    ensures var after := Geofence.Step(w, Geofence.Timed(now, Geofence.ClosesItem(k, dismiss))).0;
            && after.fences == w.fences
            && ItemMarked(w.book, after.book, k, if dismiss then Inbox.Dismissed else Inbox.Actioned)
  {
  }

  /** The caller finds the request: a manager any, another caller those of properties they work with. */
  predicate Finds(w: Geofence.World, c: Geofence.Caller, id: nat) {
    && id < |w.book.requests|
    && (c.role == Geofence.Manager || c.property.None? || WorksWith(c, w.book.requests[id].subject))
  }

  predicate MayDecide(w: Geofence.World, c: Geofence.Caller, id: nat) {
    && Finds(w, c, id)
    && w.book.requests[id].status == Requests.Pending
    && w.book.requests[id].requester != c.id
    && c.stillAdmin
  }

  /** What a caller is answered who may not decide. */
  predicate Declined(w: Geofence.World, c: Geofence.Caller, id: nat, reply: Geofence.Reply) {
    if !Finds(w, c, id) then reply == Geofence.NotFound
    else if w.book.requests[id].status != Requests.Pending then reply == Geofence.Conflict
    else reply == Geofence.Forbidden
  }

  /** The fence an approval puts live: the proposed circle, and a blank address never over one. */
  function LiveAfter(fences: map<nat, Geofence.Fence>, property: nat, p: Geofence.Proposal): Geofence.Fence {
    if property in fences && (p.address == None || p.address == Some("")) then
      Geofence.Fence(p.lat, p.lng, p.radius, fences[property].address)
    else Geofence.Fence(p.lat, p.lng, p.radius, p.address)
  }

  /** Approving puts the proposal live and closes the request; rejecting only closes it. */
  lemma {:induction false} DecisionRules(w: Geofence.World, c: Geofence.Caller, id: nat, live: bool, now: int)
    ensures var (after, reply) := Geofence.Step(w, Geofence.Timed(now, Geofence.Approves(c, id, live)));
            if !MayDecide(w, c, id) then Declined(w, c, id, reply) && after == w
            else if !live then reply == Geofence.PropertyDeleted && after == w
            else
              var r := w.book.requests[id];
              && reply == Geofence.Done
              && ClosedAs(w.book, after.book, id, Requests.Approved, c.id, now)
              && Told(w.book, after.book, id, Inbox.ApprovedNotice)
              && after.fences == w.fences[r.subject := LiveAfter(w.fences, r.subject, r.payload)]
    ensures var (after, reply) := Geofence.Step(w, Geofence.Timed(now, Geofence.Rejects(c, id)));
            if !MayDecide(w, c, id) then Declined(w, c, id, reply) && after == w
            else
              && reply == Geofence.Done
              && ClosedAs(w.book, after.book, id, Requests.Rejected, c.id, now)
              && Told(w.book, after.book, id, Inbox.RejectedNotice)
              && after.fences == w.fences
  {
    if id < |w.book.requests| {
      DecidedAndTold(w.book, id, Requests.Approved, c.id, now, Inbox.ApprovedNotice);
      DecidedAndTold(w.book, id, Requests.Rejected, c.id, now, Inbox.RejectedNotice);
    }
  }

  /** Cancelling goes ahead exactly for the requester's own pending request that they find. */
  lemma {:induction false} WithdrawRules(w: Geofence.World, c: Geofence.Caller, id: nat, now: int)
    ensures var (after, reply) := Geofence.Step(w, Geofence.Timed(now, Geofence.Cancels(c, id)));
            if !Finds(w, c, id) then reply == Geofence.NotFound && after == w
            else if w.book.requests[id].requester != c.id then reply == Geofence.Forbidden && after == w
            else if w.book.requests[id].status != Requests.Pending then reply == Geofence.Conflict && after == w
            else
              && reply == Geofence.Done
              && ClosedAs(w.book, after.book, id, Requests.Cancelled, c.id, now)
              && |after.book.items| == |w.book.items|
              && after.fences == w.fences
  {
    if id < |w.book.requests| {
      DecidedCloses(w.book, id, Requests.Cancelled, c.id, now);
    }
  }
}
