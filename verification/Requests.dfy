/**
 The request protocol shared by punch-out corrections and geofence changes:
 submit (replacing the pending request), approve, reject and cancel, each with
 its inbox item. A subject is what the request is about: a shift or a property.
 */
module Requests {
  import opened Wrappers
  import opened Inbox

  datatype Status = Pending | Approved | Rejected | Cancelled

  datatype Request<T> = Request(
    subject: nat,
    requester: nat,
    payload: T,
    status: Status,
    reviewer: Option<nat>,
    reviewedAt: Option<int>)

  /** The request table, ids being positions, and the inbox rows of its item types. */
  datatype Book<T> = Book(requests: seq<Request<T>>, items: seq<Item>)

  function Close<T>(r: Request<T>, status: Status, reviewer: nat, at: int): Request<T> {
    r.(status := status, reviewer := Some(reviewer), reviewedAt := Some(at))
  }

  predicate PendingOn<T>(r: Request<T>, subject: nat) {
    r.status == Pending && r.subject == subject
  }

  /** Close request id and its inbox item. */
  function Decided<T>(b: Book<T>, id: nat, status: Status, reviewer: nat, at: int): Book<T>
    requires id < |b.requests|
  {
    Book(b.requests[id := Close(b.requests[id], status, reviewer, at)],
         MarkedActioned(b.items, RequestItem, id))
  }

  /** The loop that cancels the pending requests on a subject, after the first i rows. */
  function Replaced<T>(b: Book<T>, subject: nat, requester: nat, at: int, i: nat): (r: Book<T>)
    requires i <= |b.requests|
    ensures |r.requests| == |b.requests| && |r.items| == |b.items|
  {
    if i == 0 then b
    else
      var before := Replaced(b, subject, requester, at, i - 1);
      if PendingOn(b.requests[i - 1], subject) then Decided(before, i - 1, Cancelled, requester, at) else before
  }

  /** A new request with its inbox item. */
  function Added<T>(b: Book<T>, r: Request<T>): Book<T> {
    Book(b.requests + [r], WithItem(b.items, RequestItem, |b.requests|))
  }

  function Submitted<T>(b: Book<T>, subject: nat, requester: nat, payload: T, at: int): Book<T> {
    Added(Replaced(b, subject, requester, at, |b.requests|), Request(subject, requester, payload, Pending, None, None))
  }

  /** The notice that tells the requester the outcome. */
  function Notified<T>(b: Book<T>, id: nat, kind: Kind): Book<T> {
    b.(items := WithItem(b.items, kind, id))
  }

  // ----- what every step keeps -----

  ghost predicate OnePending<T>(b: Book<T>) {
    forall i, j :: 0 <= i < j < |b.requests| && b.requests[i].subject == b.requests[j].subject ==>
      b.requests[i].status != Pending || b.requests[j].status != Pending
  }

  /**
   Items point at existing requests. A request has one open item while it is
   pending, unless a user closed that item by hand (hit), and none otherwise.
   */
  ghost predicate ItemsFollow<T>(b: Book<T>, hit: set<nat>) {
    && NoDuplicates(b.items)
    && (forall id :: id in hit ==> id < |b.requests|)
    && (forall kind, id: nat :: id >= |b.requests| ==> OpenCount(b.items, kind, id) == 0)
    && (forall id: nat :: id < |b.requests| ==>
          OpenCount(b.items, RequestItem, id) == if b.requests[id].status == Pending && id !in hit then 1 else 0)
  }

  ghost predicate BookOk<T>(b: Book<T>, hit: set<nat>) {
    OnePending(b) && ItemsFollow(b, hit)
  }

  /** Requests are never deleted, what they ask never changes, and closed ones never change at all. */
  ghost predicate OnlyPendingChange<T(!new)>(before: Book<T>, after: Book<T>) {
    && |before.requests| <= |after.requests|
    && (forall id :: 0 <= id < |before.requests| ==>
          && after.requests[id].subject == before.requests[id].subject
          && after.requests[id].requester == before.requests[id].requester
          && after.requests[id].payload == before.requests[id].payload
          && (before.requests[id].status != Pending ==> after.requests[id] == before.requests[id]))
  }

  lemma {:induction false} DecidedKeepsBook<T(!new)>(b: Book<T>, id: nat, status: Status, reviewer: nat, at: int,
          hit: set<nat>)
    requires BookOk(b, hit) && id < |b.requests| && b.requests[id].status == Pending && status != Pending
    ensures BookOk(Decided(b, id, status, reviewer, at), hit)
    ensures OnlyPendingChange(b, Decided(b, id, status, reviewer, at))
  {
    forall k, s: nat
      ensures OpenCount(Decided(b, id, status, reviewer, at).items, k, s)
           == if k == RequestItem && s == id then 0 else OpenCount(b.items, k, s)
    {
      ActionedCounts(b.items, RequestItem, id, k, s);
    }
  }

  lemma {:induction false} NotifiedKeepsBook<T(!new)>(b: Book<T>, id: nat, kind: Kind, hit: set<nat>)
    requires BookOk(b, hit) && id < |b.requests| && kind != RequestItem
    ensures BookOk(Notified(b, id, kind), hit)
    ensures Check(b.items, kind, id) != SeveralOpen
  {
    forall k, s: nat
      ensures OpenCount(Notified(b, id, kind).items, k, s)
           == if k == kind && s == id && OpenCount(b.items, k, s) == 0 then 1 else OpenCount(b.items, k, s)
    {
      CreateCounts(b.items, kind, id, k, s);
    }
  }

  lemma {:induction false} ReplacedKeepsBook<T(!new)>(b: Book<T>, subject: nat, requester: nat, at: int, i: nat,
          hit: set<nat>)
    requires BookOk(b, hit) && i <= |b.requests|
    ensures var r := Replaced(b, subject, requester, at, i);
            && BookOk(r, hit)
            && OnlyPendingChange(b, r)
            && (forall id :: 0 <= id < i ==> !PendingOn(r.requests[id], subject))
            && (forall id :: i <= id < |b.requests| ==> r.requests[id] == b.requests[id])
  {
    if i > 0 {
      ReplacedKeepsBook(b, subject, requester, at, i - 1, hit);
      if PendingOn(b.requests[i - 1], subject) {
        DecidedKeepsBook(Replaced(b, subject, requester, at, i - 1), i - 1, Cancelled, requester, at, hit);
      }
    }
  }

  /** The replacing loop closes exactly the requests pending on the subject. */
  lemma {:induction false} ReplacedAt<T>(b: Book<T>, subject: nat, requester: nat, at: int, i: nat, id: nat)
    requires i <= |b.requests| && id < |b.requests|
    ensures Replaced(b, subject, requester, at, i).requests[id]
         == if id < i && PendingOn(b.requests[id], subject) then Close(b.requests[id], Cancelled, requester, at)
            else b.requests[id]
  {
    if i > 0 {
      ReplacedAt(b, subject, requester, at, i - 1, id);
      ReplacedAt(b, subject, requester, at, i - 1, i - 1);
    }
  }

  lemma {:induction false} AddedKeepsBook<T(!new)>(b: Book<T>, r: Request<T>, hit: set<nat>)
    requires BookOk(b, hit) && r.status == Pending
    requires forall id :: 0 <= id < |b.requests| ==> !PendingOn(b.requests[id], r.subject)
    ensures BookOk(Added(b, r), hit)
    ensures OpenCount(Added(b, r).items, RequestItem, |b.requests|) == 1
  {
    forall k, s: nat
      ensures OpenCount(Added(b, r).items, k, s)
           == if k == RequestItem && s == |b.requests| then 1 else OpenCount(b.items, k, s)
    {
      CreateCounts(b.items, RequestItem, |b.requests|, k, s);
    }
  }

  /** Submitting leaves exactly the new request pending on its subject, with one open item. */
  lemma {:induction false} SubmittedKeepsBook<T(!new)>(b: Book<T>, subject: nat, requester: nat, payload: T, at: int,
          hit: set<nat>)
    requires BookOk(b, hit)
    ensures var s := Submitted(b, subject, requester, payload, at);
            && BookOk(s, hit)
            && OnlyPendingChange(b, s)
            && |s.requests| == |b.requests| + 1
            && s.requests[|b.requests|] == Request(subject, requester, payload, Pending, None, None)
            && OpenCount(s.items, RequestItem, |b.requests|) == 1
    ensures forall id :: 0 <= id < |b.requests| ==>
              Submitted(b, subject, requester, payload, at).requests[id]
              == if PendingOn(b.requests[id], subject) then Close(b.requests[id], Cancelled, requester, at)
                 else b.requests[id]
  {
    ReplacedKeepsBook(b, subject, requester, at, |b.requests|, hit);
    var r := Replaced(b, subject, requester, at, |b.requests|);
    var request := Request(subject, requester, payload, Pending, None, None);
    AddedKeepsBook(r, request, hit);
    assert Submitted(b, subject, requester, payload, at) == Added(r, request);
    forall id | 0 <= id < |b.requests|
      ensures Added(r, request).requests[id]
           == if PendingOn(b.requests[id], subject) then Close(b.requests[id], Cancelled, requester, at)
              else b.requests[id]
    {
      ReplacedAt(b, subject, requester, at, |b.requests|, id);
    }
  }

  // ----- inbox actions by users, outside the protocol -----

  /** A user reads an item. */
  function ItemRead<T>(b: Book<T>, k: nat): Book<T> {
    if k < |b.items| && b.items[k].status == Unread then b.(items := b.items[k := b.items[k].(status := Read)]) else b
  }

  /** A user marks an item actioned or dismisses it, whatever its status. */
  function ItemClosed<T>(b: Book<T>, k: nat, dismiss: bool): Book<T> {
    var status := if dismiss then Dismissed else Actioned;
    if k < |b.items| then b.(items := b.items[k := b.items[k].(status := status)]) else b
  }

  /** The request whose open item that closes, if it is one. */
  function HitBy<T>(b: Book<T>, k: nat): set<nat> {
    if k < |b.items| && IsOpen(b.items[k]) && b.items[k].kind == RequestItem then {b.items[k].source} else {}
  }

  /** A request whose item was dismissed right after submitting is pending with no open item. */
  lemma {:induction false} SubmittedThenDismissed<T(!new)>(b: Book<T>, subject: nat, requester: nat, payload: T,
          at: int, dismiss: bool, hit: set<nat>)
    requires BookOk(b, hit)
    ensures var after := ItemClosed(Submitted(b, subject, requester, payload, at), |b.items|, dismiss);
            && |after.requests| == |b.requests| + 1
            && after.requests[|b.requests|].status == Pending
            && OpenCount(after.items, RequestItem, |b.requests|) == 0
            && HitBy(Submitted(b, subject, requester, payload, at), |b.items|) == {|b.requests|}
  {
    SubmittedKeepsBook(b, subject, requester, payload, at, hit);
    ReplacedKeepsBook(b, subject, requester, at, |b.requests|, hit);
    var r, s := Replaced(b, subject, requester, at, |b.requests|), Submitted(b, subject, requester, payload, at);
    assert s.items == r.items + [Item(RequestItem, |b.requests|, Unread)];
    assert HitBy(s, |b.items|) == {|b.requests|};
    ItemClosedKeepsBook(s, |b.items|, dismiss, hit);
  }

  /** Reading an item leaves the requests alone, and the same items open. */
  lemma {:induction false} ItemReadKeepsBook<T(!new)>(b: Book<T>, k: nat, hit: set<nat>)
    requires BookOk(b, hit)
    ensures BookOk(ItemRead(b, k), hit) && ItemRead(b, k).requests == b.requests
    ensures forall kind, source: nat ::
              OpenCount(ItemRead(b, k).items, kind, source) == OpenCount(b.items, kind, source)
  {
    if k < |b.items| && b.items[k].status == Unread {
      forall kind, source: nat
        ensures OpenCount(ItemRead(b, k).items, kind, source) == OpenCount(b.items, kind, source)
      {
        CountUpdate(b.items, k, b.items[k].(status := Read), kind, source);
      }
    }
  }

  /** Closing an item by hand hits exactly its request, and touches no other. */
  lemma {:induction false} ItemClosedKeepsBook<T(!new)>(b: Book<T>, k: nat, dismiss: bool, hit: set<nat>)
    requires BookOk(b, hit)
    ensures BookOk(ItemClosed(b, k, dismiss), hit + HitBy(b, k)) && ItemClosed(b, k, dismiss).requests == b.requests
    ensures forall kind, source: nat ::
              OpenCount(ItemClosed(b, k, dismiss).items, kind, source)
              == if k < |b.items| && Points(b.items[k], kind, source) then 0 else OpenCount(b.items, kind, source)
  {
    if k < |b.items| {
      var item, after := b.items[k], ItemClosed(b, k, dismiss);
      forall kind, source: nat
        ensures OpenCount(after.items, kind, source)
             == OpenCount(b.items, kind, source) - if Points(item, kind, source) then 1 else 0
      {
        CountUpdate(b.items, k, after.items[k], kind, source);
      }
      if IsOpen(item) {
        assert OpenCount(after.items, item.kind, item.source) == OpenCount(b.items, item.kind, item.source) - 1;
        assert OpenCount(b.items, item.kind, item.source) == 1;
      }
    }
  }

  /** The requests table with its inbox, updated in place. */
  class RequestBook<T(!new)> {
    var requests: seq<Request<T>>
    const inbox: InboxTable

    ghost function Now(): Book<T>
      reads this, inbox
    {
      Book(requests, inbox.items)
    }

    constructor ()
      ensures fresh(inbox) && Now() == Book([], [])
    {
      requests := [];
      inbox := new InboxTable();
    }

    method Decide(id: nat, status: Status, reviewer: nat, at: int)
      requires id < |requests|
      modifies this, inbox
      ensures Now() == Decided(old(Now()), id, status, reviewer, at)
    {
      requests := requests[id := Close(requests[id], status, reviewer, at)];
      inbox.MarkInboxItemsActioned(RequestItem, id);
    }

    /** Cancel what is pending on the subject, then add the new request and its inbox item. */
    method Submit(subject: nat, requester: nat, payload: T, at: int) returns (id: nat)
      modifies this, inbox
      ensures id == old(|requests|)
      ensures Now() == Submitted(old(Now()), subject, requester, payload, at)
    {
      ghost var start := Now();
      id := |requests|;
      for i := 0 to |requests|
        invariant |requests| == |start.requests|
        invariant Now() == Replaced(start, subject, requester, at, i)
        invariant forall j :: i <= j < |requests| ==> requests[j] == start.requests[j]
      {
        if PendingOn(requests[i], subject) {
          Decide(i, Cancelled, requester, at);
        }
      }
      requests := requests + [Request(subject, requester, payload, Pending, None, None)];
      var outcome := inbox.CreateInboxItem(RequestItem, id);
    }

    method Notify(id: nat, kind: Kind)
      modifies inbox
      ensures Now() == Notified(old(Now()), id, kind)
    {
      var outcome := inbox.CreateInboxItem(kind, id);
    }
  }

  // ----- who closed what -----

  /** Only a closed request names who closed it and when, and no one approved or rejected their own. */
  predicate TrailOk<T>(r: Request<T>) {
    && (r.status == Pending <==> r.reviewer.None?)
    && (r.status == Pending <==> r.reviewedAt.None?)
    && (r.status == Approved || r.status == Rejected ==> r.reviewer != Some(r.requester))
  }

  /** The request names who closed it and when. */
  predicate SignedBy<T>(r: Request<T>, user: nat, at: int) {
    r.reviewer == Some(user) && r.reviewedAt == Some(at)
  }

  ghost predicate TrailsOk<T>(b: Book<T>) {
    forall id :: 0 <= id < |b.requests| ==> TrailOk(b.requests[id])
  }

  /** What submitting makes of each request: replaced if pending on the subject, else kept; and the new one. */
  lemma {:induction false} SubmittedAt<T>(b: Book<T>, subject: nat, requester: nat, payload: T, at: int, id: nat)
    requires id <= |b.requests|
    ensures |Submitted(b, subject, requester, payload, at).requests| == |b.requests| + 1
    ensures Submitted(b, subject, requester, payload, at).requests[id]
         == if id == |b.requests| then Request(subject, requester, payload, Pending, None, None)
            else if PendingOn(b.requests[id], subject) then Close(b.requests[id], Cancelled, requester, at)
            else b.requests[id]
  {
    if id < |b.requests| {
      ReplacedAt(b, subject, requester, at, |b.requests|, id);
    }
  }

  lemma {:induction false} SubmittedKeepsTrails<T>(b: Book<T>, subject: nat, requester: nat, payload: T, at: int)
    requires TrailsOk(b)
    ensures TrailsOk(Submitted(b, subject, requester, payload, at))
  {
    var after := Submitted(b, subject, requester, payload, at);
    forall id | 0 <= id < |after.requests| ensures TrailOk(after.requests[id]) {
      SubmittedAt(b, subject, requester, payload, at, id);
    }
  }
}
