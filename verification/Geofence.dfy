/** Geofence change requests: proposals reach the live punch location only through an approval. */
module Geofence {
  import opened Wrappers
  import Inbox
  import Requests

  datatype Proposal = Proposal(lat: real, lng: real, radius: int, address: Option<string>)

  datatype Fence = Fence(lat: real, lng: real, radius: int, address: Option<string>)

  /** The live geofences by property, and the change requests. */
  datatype World = World(fences: map<nat, Fence>, book: Requests.Book<Proposal>)

  datatype Role = SuperAdmin | TenantAdmin | CoAdmin | Manager | Staff

  /** The token's role and property, and whether the role stored now is still a geofence admin's. */
  datatype Caller = Caller(id: nat, role: Role, property: Option<nat>, stillAdmin: bool)

  datatype Reply = Done | NotInScope | NotFound | Conflict | Forbidden | PropertyDeleted

  /** assigned_property: the one property a caller is limited to. */
  function AssignedProperty(c: Caller): Option<nat> {
    if c.role == TenantAdmin || c.role == SuperAdmin then None else c.property
  }

  /** property_in_scope, for a property that is live or not. */
  predicate PropertyInScope(c: Caller, property: nat, live: bool) {
    var limited := AssignedProperty(c);
    && !((c.role == Manager || c.role == Staff) && limited.None?)
    && (limited.Some? ==> limited.value == property)
    && live
  }

  /** The address an approval stores: a blank one never overwrites. */
  predicate Given(address: Option<string>) {
    address.Some? && address.value != ""
  }

  function Applied(fence: Option<Fence>, p: Proposal): Fence {
    Fence(p.lat, p.lng, p.radius, if fence.Some? && !Given(p.address) then fence.value.address else p.address)
  }

  function FenceOf(w: World, property: nat): Option<Fence> {
    if property in w.fences then Some(w.fences[property]) else None
  }

  // ----- the operations -----

  function Create(w: World, c: Caller, property: nat, live: bool, p: Proposal, now: int): (World, Reply) {
    if !PropertyInScope(c, property, live) then (w, NotInScope)
    else (w.(book := Requests.Submitted(w.book, property, c.id, p, now)), Done)
  }

  /** The requests a reviewer can reach: those of the one property they are limited to, if they are. */
  predicate Reaches(c: Caller, property: nat) {
    c.role == Manager || AssignedProperty(c).None? || AssignedProperty(c).value == property
  }

  /** _get_for_update */
  predicate Found(b: Requests.Book<Proposal>, c: Caller, id: nat) {
    id < |b.requests| && Reaches(c, b.requests[id].subject)
  }

  /** What an approval and a rejection check first. */
  function ReviewError(b: Requests.Book<Proposal>, c: Caller, id: nat): Option<Reply> {
    if !Found(b, c, id) then Some(NotFound)
    else if b.requests[id].status != Requests.Pending then Some(Conflict)
    else if b.requests[id].requester == c.id then Some(Forbidden)
    else if !c.stillAdmin then Some(Forbidden)
    else None
  }

  function Approve(w: World, c: Caller, id: nat, live: bool, now: int): (World, Reply) {
    var error := ReviewError(w.book, c, id);
    if error.Some? then (w, error.value)
    else if !live then (w, PropertyDeleted)
    else
      var r := w.book.requests[id];
      var decided := Requests.Decided(w.book, id, Requests.Approved, c.id, now);
      (World(w.fences[r.subject := Applied(FenceOf(w, r.subject), r.payload)],
             Requests.Notified(decided, id, Inbox.ApprovedNotice)), Done)
  }

  function Reject(w: World, c: Caller, id: nat, now: int): (World, Reply) {
    var error := ReviewError(w.book, c, id);
    if error.Some? then (w, error.value)
    else
      var decided := Requests.Decided(w.book, id, Requests.Rejected, c.id, now);
      (w.(book := Requests.Notified(decided, id, Inbox.RejectedNotice)), Done)
  }

  function Cancel(w: World, c: Caller, id: nat, now: int): (World, Reply) {
    if !Found(w.book, c, id) then (w, NotFound)
    else if w.book.requests[id].requester != c.id then (w, Forbidden)
    else if w.book.requests[id].status != Requests.Pending then (w, Conflict)
    else (w.(book := Requests.Decided(w.book, id, Requests.Cancelled, c.id, now)), Done)
  }

  // ----- the state machine -----

  /** The live flag of a step says whether the property exists, undeleted, at that moment. */
  datatype Event =
    | Creates(who: Caller, property: nat, live: bool, proposal: Proposal)
    | Approves(who: Caller, id: nat, live: bool)
    | Rejects(who: Caller, id: nat)
    | Cancels(who: Caller, id: nat)
    | ReadsItem(item: nat)
    | ClosesItem(item: nat, dismiss: bool)

  datatype Timed = Timed(at: int, event: Event)

  function Step(w: World, e: Timed): (World, Reply) {
    match e.event
    case Creates(c, property, live, p) => Create(w, c, property, live, p, e.at)
    case Approves(c, id, live) => Approve(w, c, id, live, e.at)
    case Rejects(c, id) => Reject(w, c, id, e.at)
    case Cancels(c, id) => Cancel(w, c, id, e.at)
    case ReadsItem(k) => (w.(book := Requests.ItemRead(w.book, k)), Done)
    case ClosesItem(k, dismiss) => (w.(book := Requests.ItemClosed(w.book, k, dismiss)), Done)
  }

  function After(w: World, run: seq<Timed>): World {
    if run == [] then w else Step(After(w, run[..|run| - 1]), run[|run| - 1]).0
  }

  /** The request whose open item a user closes by hand in this step. */
  function Hit(b: Requests.Book<Proposal>, e: Event): set<nat> {
    match e
    case ClosesItem(k, _) => Requests.HitBy(b, k)
    case _ => {}
  }

  /** The requests whose open items users closed by hand during a run. */
  function Hits(w: World, run: seq<Timed>): set<nat> {
    if run == [] then {} else Hits(w, run[..|run| - 1]) + Hit(After(w, run[..|run| - 1]).book, run[|run| - 1].event)
  }

  /** The proposal this step approves for the property, if it approves one. */
  function Approval(w: World, e: Timed, property: nat): Option<Proposal> {
    match e.event
    case Approves(c, id, live) =>
      if Step(w, e).1 == Done && id < |w.book.requests| && w.book.requests[id].subject == property
      then Some(w.book.requests[id].payload) else None
    case _ => None
  }

  /** The proposals for the property that a run approves, oldest first. */
  function Approvals(w: World, run: seq<Timed>, property: nat): seq<Proposal> {
    if run == [] then []
    else
      var before := run[..|run| - 1];
      var now := Approval(After(w, before), run[|run| - 1], property);
      var earlier := Approvals(w, before, property);
      if now.Some? then earlier + [now.value] else earlier
  }

  /** The address in force: the last one given, else what was there before, else what the first approval stored. */
  function AddressAfter(fence: Option<Fence>, approved: seq<Proposal>): Option<string>
    requires approved != []
  {
    var last := approved[|approved| - 1];
    if Given(last.address) then last.address
    else if |approved| > 1 then AddressAfter(fence, approved[..|approved| - 1])
    else if fence.Some? then fence.value.address
    else last.address
  }

  // ----- what every step keeps -----

  ghost predicate StepOk(w: World, e: Timed, hit: set<nat>) {
    && Requests.BookOk(Step(w, e).0.book, hit)
    && Requests.OnlyPendingChange(w.book, Step(w, e).0.book)
  }

  /** A step moves a fence only by approving a proposal for its property. */
  lemma {:induction false} StepMovesFence(w: World, e: Timed, property: nat)
    ensures var approved := Approval(w, e, property);
            FenceOf(Step(w, e).0, property)
            == if approved.Some? then Some(Applied(FenceOf(w, property), approved.value)) else FenceOf(w, property)
  {
  }

  lemma {:induction false} CreateStep(w: World, e: Timed, hit: set<nat>)
    requires Requests.BookOk(w.book, hit) && e.event.Creates?
    ensures StepOk(w, e, hit)
  {
    Requests.SubmittedKeepsBook(w.book, e.event.property, e.event.who.id, e.event.proposal, e.at, hit);
  }

  lemma {:induction false} DecidingStep(w: World, e: Timed, hit: set<nat>)
    requires Requests.BookOk(w.book, hit) && (e.event.Approves? || e.event.Rejects? || e.event.Cancels?)
    ensures StepOk(w, e, hit)
  {
    if Step(w, e).1 == Done {
      var status := if e.event.Approves? then Requests.Approved
                    else if e.event.Rejects? then Requests.Rejected
                    else Requests.Cancelled;
      var kind := if e.event.Approves? then Inbox.ApprovedNotice else Inbox.RejectedNotice;
      Requests.DecidedKeepsBook(w.book, e.event.id, status, e.event.who.id, e.at, hit);
      Requests.NotifiedKeepsBook(Requests.Decided(w.book, e.event.id, status, e.event.who.id, e.at), e.event.id, kind,
                                 hit);
    }
  }

  lemma {:induction false} ItemStep(w: World, e: Timed, hit: set<nat>)
    requires Requests.BookOk(w.book, hit) && (e.event.ReadsItem? || e.event.ClosesItem?)
    ensures StepOk(w, e, hit + Hit(w.book, e.event))
  {
    match e.event {
      case ReadsItem(k) =>
        Requests.ItemReadKeepsBook(w.book, k, hit);
        assert hit + {} == hit;
      case ClosesItem(k, dismiss) => Requests.ItemClosedKeepsBook(w.book, k, dismiss, hit);
    }
  }

  lemma {:induction false} StepKeepsBook(w: World, e: Timed, hit: set<nat>)
    requires Requests.BookOk(w.book, hit)
    ensures StepOk(w, e, hit + Hit(w.book, e.event))
  {
    if e.event.ReadsItem? || e.event.ClosesItem? {
      ItemStep(w, e, hit);
    } else {
      assert hit + {} == hit;
      if e.event.Creates? {
        CreateStep(w, e, hit);
      } else {
        DecidingStep(w, e, hit);
      }
    }
  }

  // ----- runs -----

  /** Requests stay in order over every run; a closed request never changes again. */
  lemma {:induction false} RunKeepsBook(w: World, run: seq<Timed>, hit: set<nat>)
    requires Requests.BookOk(w.book, hit)
    ensures Requests.BookOk(After(w, run).book, hit + Hits(w, run))
    ensures Requests.OnlyPendingChange(w.book, After(w, run).book)
  {
    if run == [] {
      assert hit + {} == hit;
    } else {
      var before, last := run[..|run| - 1], run[|run| - 1];
      RunKeepsBook(w, before, hit);
      StepKeepsBook(After(w, before), last, hit + Hits(w, before));
      assert hit + Hits(w, run) == hit + Hits(w, before) + Hit(After(w, before).book, last.event);
    }
  }

  /** What the live fence must be, given the fence before the run and the proposals approved since. */
  predicate Shows(fence: Option<Fence>, was: Option<Fence>, approved: seq<Proposal>) {
    if approved == [] then fence == was
    else
      var last := approved[|approved| - 1];
      fence == Some(Fence(last.lat, last.lng, last.radius, AddressAfter(was, approved)))
  }

  lemma {:induction false} ShowsNext(fence: Option<Fence>, was: Option<Fence>, approved: seq<Proposal>, p: Proposal)
    requires Shows(fence, was, approved)
    ensures Shows(Some(Applied(fence, p)), was, approved + [p])
  {
    assert (approved + [p])[..|approved|] == approved;
  }

  /** The live centre and radius are those of the last approved proposal, and no other step moves them. */
  lemma {:induction false} LiveFenceIsLastApproved(w: World, run: seq<Timed>, property: nat)
    ensures Shows(FenceOf(After(w, run), property), FenceOf(w, property), Approvals(w, run, property))
  {
    if run != [] {
      var before, last := run[..|run| - 1], run[|run| - 1];
      LiveFenceIsLastApproved(w, before, property);
      var was := After(w, before);
      StepMovesFence(was, last, property);
      var approved := Approval(was, last, property);
      if approved.Some? {
        ShowsNext(FenceOf(was, property), FenceOf(w, property), Approvals(w, before, property), approved.value);
      }
    }
  }

  /** The service before its first request. */
  function Fresh(fences: map<nat, Fence>): World {
    World(fences, Requests.Book([], []))
  }

  /**
   Over every run, one open item points at a request exactly while it is pending
   and no user closed its item by hand; and a property has one pending request.
   */
  lemma {:induction false} PendingIffOpenItem(fences: map<nat, Fence>, run: seq<Timed>, i: nat, j: nat)
    requires var b := After(Fresh(fences), run).book; i < |b.requests| && j < |b.requests|
    ensures var b := After(Fresh(fences), run).book;
            && (Inbox.OpenCount(b.items, Inbox.RequestItem, i) == 1 <==>
                  b.requests[i].status == Requests.Pending && i !in Hits(Fresh(fences), run))
            && Inbox.OpenCount(b.items, Inbox.RequestItem, i) <= 1
            && (Requests.PendingOn(b.requests[i], b.requests[j].subject) && b.requests[j].status == Requests.Pending ==>
                  i == j)
  {
    RunKeepsBook(Fresh(fences), run, {});
    assert {} + Hits(Fresh(fences), run) == Hits(Fresh(fences), run);
  }

  const OWNER := Caller(1, TenantAdmin, None, true)

  lemma {:induction false} AfterTwo(w: World, first: Timed, second: Timed)
    ensures After(w, [first, second]) == Step(Step(w, first).0, second).0
    ensures Hits(w, [first, second]) == Hit(w.book, first.event) + Hit(Step(w, first).0.book, second.event)
  {
    assert [first, second][..1] == [first] && [first][..0] == [];
    assert After(w, []) == w && Hits(w, []) == {};
    assert After(w, [first]) == Step(w, first).0 && Hits(w, [first]) == {} + Hit(w.book, first.event);
  }

  /** A request whose item was dismissed is pending with no open item. */
  lemma {:induction false} DismissedIsStillPending(fences: map<nat, Fence>, p: Proposal)
    ensures var run := [Timed(0, Creates(OWNER, 5, true, p)), Timed(1, ClosesItem(0, true))];
            var b := After(Fresh(fences), run).book;
            && |b.requests| == 1
            && b.requests[0].status == Requests.Pending
            && Inbox.OpenCount(b.items, Inbox.RequestItem, 0) == 0
            && Hits(Fresh(fences), run) == {0}
  {
    AfterTwo(Fresh(fences), Timed(0, Creates(OWNER, 5, true, p)), Timed(1, ClosesItem(0, true)));
    Requests.SubmittedThenDismissed(Fresh(fences).book, 5, 1, p, 0, true, {});
  }

  /** A request that a newer one replaced can never be approved, whatever happens in between. */
  lemma {:induction false} ReplacedIsNeverApproved(w: World, id: nat, c: Caller, p: Proposal, t: int, run: seq<Timed>,
                                                   who: Caller, live: bool, u: int, hit: set<nat>)
    requires Requests.BookOk(w.book, hit) && id < |w.book.requests|
    requires PropertyInScope(c, w.book.requests[id].subject, true)
    ensures var replaced := Create(w, c, w.book.requests[id].subject, true, p, t).0;
            var later := After(replaced, run);
            Approve(later, who, id, live, u).1 != Done && Approve(later, who, id, live, u).0 == later
  {
    var subject := w.book.requests[id].subject;
    Requests.SubmittedKeepsBook(w.book, subject, c.id, p, t, hit);
    RunKeepsBook(Create(w, c, subject, true, p, t).0, run, hit);
  }

  /**
   An approval goes ahead exactly for a pending request of someone else, within
   reach, by someone who is still a geofence admin, while the property exists; a
   rejection also after the property is gone. Otherwise nothing changes.
   */
  lemma {:induction false} ReviewGoesAhead(w: World, c: Caller, id: nat, live: bool, now: int)
    ensures var allowed := && id < |w.book.requests|
                           && Reaches(c, w.book.requests[id].subject)
                           && w.book.requests[id].status == Requests.Pending
                           && w.book.requests[id].requester != c.id
                           && c.stillAdmin;
            && (Approve(w, c, id, live, now).1 == Done <==> allowed && live)
            && (Reject(w, c, id, now).1 == Done <==> allowed)
            && (!(allowed && live) ==> Approve(w, c, id, live, now).0 == w)
            && (!allowed ==> Reject(w, c, id, now).0 == w)
  {
  }

  lemma {:induction false} StepKeepsTrails(w: World, e: Timed)
    requires Requests.TrailsOk(w.book)
    ensures Requests.TrailsOk(Step(w, e).0.book)
  {
    match e.event {
      case Creates(c, property, live, p) => Requests.SubmittedKeepsTrails(w.book, property, c.id, p, e.at);
      case _ =>
    }
  }

  /**
   The event closes the request as it stands: approved while the property exists
   or rejected, by someone else who reaches it and is still a geofence admin;
   cancelled by its requester; or replaced by a newer request for the property.
   */
  predicate ClosedBy(e: Timed, r: Requests.Request<Proposal>, id: nat) {
    match e.event
    case Approves(c, i, live) =>
      && i == id && r.status == Requests.Approved && Requests.SignedBy(r, c.id, e.at)
      && live && Reaches(c, r.subject) && c.stillAdmin && c.id != r.requester
    case Rejects(c, i) =>
      && i == id && r.status == Requests.Rejected && Requests.SignedBy(r, c.id, e.at)
      && Reaches(c, r.subject) && c.stillAdmin && c.id != r.requester
    case Cancels(c, i) =>
      && i == id && r.status == Requests.Cancelled && Requests.SignedBy(r, c.id, e.at)
      && Reaches(c, r.subject) && c.id == r.requester
    case Creates(c, property, live, _) =>
      && property == r.subject && r.status == Requests.Cancelled && Requests.SignedBy(r, c.id, e.at)
      && PropertyInScope(c, property, live)
    case _ => false
  }

  /** A step closes a request only as described, never touches a closed one, and adds only pending ones. */
  lemma {:induction false} StepCloses(w: World, e: Timed, id: nat)
    requires id < |Step(w, e).0.book.requests|
    ensures var now := Step(w, e).0.book.requests[id];
            if id >= |w.book.requests| then now.status == Requests.Pending
            else if w.book.requests[id].status != Requests.Pending then now == w.book.requests[id]
            else now.status == Requests.Pending || ClosedBy(e, now, id)
  {
    match e.event {
      case Creates(c, property, live, p) =>
        if PropertyInScope(c, property, live) {
          Requests.SubmittedAt(w.book, property, c.id, p, e.at, id);
        }
      case _ =>
    }
  }

  lemma {:induction false} ApprovalShows(w: World, e: Timed, id: nat)
    requires id < |Step(w, e).0.book.requests| && ClosedBy(e, Step(w, e).0.book.requests[id], id)
    requires id < |w.book.requests| && w.book.requests[id].status == Requests.Pending
    ensures var (after, r) := (Step(w, e).0, Step(w, e).0.book.requests[id]);
            r.status == Requests.Approved ==>
              FenceOf(after, r.subject) == Some(Applied(FenceOf(w, r.subject), r.payload))
  {
  }

  /**
   Every request closed in a run was closed by one of its events, which its
   signature names; an approval put exactly the proposal live at that moment.
   */
  lemma {:induction false} ClosedByOneEvent(w: World, run: seq<Timed>, id: nat) returns (k: nat)
    requires id < |After(w, run).book.requests| && After(w, run).book.requests[id].status != Requests.Pending
    requires id < |w.book.requests| ==> w.book.requests[id].status == Requests.Pending
    ensures k < |run| && ClosedBy(run[k], After(w, run).book.requests[id], id)
    ensures var r := After(w, run).book.requests[id];
            r.status == Requests.Approved ==>
              FenceOf(After(w, run[..k + 1]), r.subject)
              == Some(Applied(FenceOf(After(w, run[..k]), r.subject), r.payload))
  {
    var n := |run| - 1;
    var was := After(w, run[..n]);
    StepCloses(was, run[n], id);
    if id < |was.book.requests| && was.book.requests[id].status != Requests.Pending {
      k := ClosedByOneEvent(w, run[..n], id);
      assert run[..n][..k + 1] == run[..k + 1] && run[..n][..k] == run[..k];
    } else {
      k := n;
      ApprovalShows(was, run[n], id);
      assert run[..k + 1] == run;
    }
  }

  /** A request for the property that was still open at first has been approved. */
  ghost predicate ApprovedSince(w: World, after: World, property: nat) {
    exists id :: 0 <= id < |after.book.requests| && NewlyApproved(w, after, property, id)
  }

  predicate NewlyApproved(w: World, after: World, property: nat, id: nat)
    requires id < |after.book.requests|
  {
    && after.book.requests[id].subject == property
    && after.book.requests[id].status == Requests.Approved
    && (id < |w.book.requests| ==> w.book.requests[id].status == Requests.Pending)
  }

  lemma {:induction false} RequestsStay(w: World, e: Timed)
    ensures |w.book.requests| <= |Step(w, e).0.book.requests|
  {
  }

  lemma {:induction false} ApprovedStays(w: World, was: World, e: Timed, property: nat)
    requires ApprovedSince(w, was, property)
    ensures ApprovedSince(w, Step(was, e).0, property)
  {
    var id :| 0 <= id < |was.book.requests| && NewlyApproved(w, was, property, id);
    RequestsStay(was, e);
    StepCloses(was, e, id);
    assert NewlyApproved(w, Step(was, e).0, property, id);
  }

  lemma {:induction false} StillOpen(w: World, run: seq<Timed>, id: nat)
    requires id < |w.book.requests|
    ensures id < |After(w, run).book.requests|
    ensures w.book.requests[id].status != Requests.Pending ==> After(w, run).book.requests[id] == w.book.requests[id]
  {
    if run != [] {
      StillOpen(w, run[..|run| - 1], id);
      RequestsStay(After(w, run[..|run| - 1]), run[|run| - 1]);
      StepCloses(After(w, run[..|run| - 1]), run[|run| - 1], id);
    }
  }

  /** A live fence moves in a run only if a request for its property is approved in it. */
  lemma {:induction false} MovedIsApproved(w: World, run: seq<Timed>, property: nat)
    requires FenceOf(After(w, run), property) != FenceOf(w, property)
    ensures ApprovedSince(w, After(w, run), property)
  {
    var n := |run| - 1;
    var was, last := After(w, run[..n]), run[n];
    if FenceOf(was, property) != FenceOf(w, property) {
      MovedIsApproved(w, run[..n], property);
      ApprovedStays(w, was, last, property);
    } else {
      StepMovesFence(was, last, property);
      var id := last.event.id;
      if id < |w.book.requests| {
        StillOpen(w, run[..n], id);
      }
      assert NewlyApproved(w, After(w, run), property, id);
    }
  }

  /**
   Over every run, no proposal is approved or rejected by the one who made it,
   every closed one says by whom, and a live fence that has moved was proposed
   by one and approved by another.
   */
  lemma {:induction false} NoSelfReview(w: World, run: seq<Timed>, property: nat)
    requires Requests.TrailsOk(w.book)
    ensures Requests.TrailsOk(After(w, run).book)
    ensures FenceOf(After(w, run), property) != FenceOf(w, property) ==>
              var b := After(w, run).book;
              exists id :: 0 <= id < |b.requests| && NewlyApproved(w, After(w, run), property, id)
                           && b.requests[id].reviewer.Some? && b.requests[id].reviewer != Some(b.requests[id].requester)
  {
    if run != [] {
      NoSelfReview(w, run[..|run| - 1], property);
      StepKeepsTrails(After(w, run[..|run| - 1]), run[|run| - 1]);
    }
    var after := After(w, run);
    if FenceOf(after, property) != FenceOf(w, property) {
      MovedIsApproved(w, run, property);
      var id :| 0 <= id < |after.book.requests| && NewlyApproved(w, after, property, id);
      assert Requests.TrailOk(after.book.requests[id]);
    }
  }

  /** To a caller limited to another property, a request answers as one that does not exist. */
  lemma {:induction false} OutOfScopeLooksMissing(w: World, c: Caller, id: nat, missing: nat, live: bool, now: int)
    requires |w.book.requests| <= missing
    requires id < |w.book.requests| ==> !Reaches(c, w.book.requests[id].subject)
    ensures Approve(w, c, id, live, now) == Approve(w, c, missing, live, now)
    ensures Reject(w, c, id, now) == Reject(w, c, missing, now)
    ensures Cancel(w, c, id, now) == Cancel(w, c, missing, now)
  {
  }

  /** Proposing and, with the request still pending, approving puts exactly the proposed location live. */
  lemma {:induction false} ProposeThenApprove(w: World, c: Caller, property: nat, p: Proposal, t: int, who: Caller,
          u: int, hit: set<nat>)
    requires Requests.BookOk(w.book, hit) && PropertyInScope(c, property, true)
    requires who.id != c.id && who.stillAdmin && AssignedProperty(who).None?
    ensures var asked := Create(w, c, property, true, p, t).0;
            var (after, reply) := Approve(asked, who, |w.book.requests|, true, u);
            && asked.fences == w.fences
            && reply == Done
            && FenceOf(after, property) == Some(Applied(FenceOf(w, property), p))
  {
    Requests.SubmittedKeepsBook(w.book, property, c.id, p, t, hit);
  }

  // ----- the methods -----

  class GeofenceService {
    var fences: map<nat, Fence>
    const changes: Requests.RequestBook<Proposal>

    ghost function Now(): World
      reads this, changes, changes.inbox
    {
      World(fences, changes.Now())
    }

    constructor ()
      ensures fresh(changes) && fresh(changes.inbox) && Now() == World(map[], Requests.Book([], []))
    {
      fences := map[];
      changes := new Requests.RequestBook<Proposal>();
    }

    /** create_request */
    method CreateRequest(c: Caller, property: nat, live: bool, p: Proposal, now: int) returns (reply: Reply)
      modifies changes, changes.inbox
      ensures (Now(), reply) == Create(old(Now()), c, property, live, p, now)
    {
      if !PropertyInScope(c, property, live) {
        return NotInScope;
      }
      var id := changes.Submit(property, c.id, p, now);
      return Done;
    }

    /** _get_for_update */
    method GetForUpdate(c: Caller, id: nat) returns (found: bool)
      ensures found <==> Found(changes.Now(), c, id)
    {
      if id >= |changes.requests| {
        return false;
      }
      var limited := AssignedProperty(c);
      return !(c.role != Manager && limited.Some? && limited.value != changes.requests[id].subject);
    }

    /** _ensure_reviewable and the role check after it */
    method EnsureReviewable(c: Caller, id: nat) returns (error: Option<Reply>)
      ensures error == ReviewError(changes.Now(), c, id)
    {
      var found := GetForUpdate(c, id);
      if !found {
        return Some(NotFound);
      }
      if changes.requests[id].status != Requests.Pending {
        return Some(Conflict);
      }
      if changes.requests[id].requester == c.id {
        return Some(Forbidden);
      }
      return if c.stillAdmin then None else Some(Forbidden);
    }

    /** approve_request */
    method ApproveRequest(c: Caller, id: nat, live: bool, now: int) returns (reply: Reply)
      modifies this, changes, changes.inbox
      ensures (Now(), reply) == Approve(old(Now()), c, id, live, now)
    {
      var error := EnsureReviewable(c, id);
      if error.Some? {
        return error.value;
      }
      if !live {
        return PropertyDeleted;
      }
      var request := changes.requests[id];
      var p := request.payload;
      if request.subject !in fences {
        fences := fences[request.subject := Fence(p.lat, p.lng, p.radius, p.address)];
      } else {
        var geofence := fences[request.subject].(lat := p.lat, lng := p.lng, radius := p.radius);
        if p.address.Some? && p.address.value != "" {
          geofence := geofence.(address := p.address);
        }
        fences := fences[request.subject := geofence];
      }
      changes.Decide(id, Requests.Approved, c.id, now);
      changes.Notify(id, Inbox.ApprovedNotice);
      return Done;
    }

    /** reject_request */
    method RejectRequest(c: Caller, id: nat, now: int) returns (reply: Reply)
      modifies changes, changes.inbox
      ensures (Now(), reply) == Reject(old(Now()), c, id, now)
    {
      var error := EnsureReviewable(c, id);
      if error.Some? {
        return error.value;
      }
      changes.Decide(id, Requests.Rejected, c.id, now);
      changes.Notify(id, Inbox.RejectedNotice);
      return Done;
    }

    /** cancel_request */
    method CancelRequest(c: Caller, id: nat, now: int) returns (reply: Reply)
      modifies changes, changes.inbox
      ensures (Now(), reply) == Cancel(old(Now()), c, id, now)
    {
      var found := GetForUpdate(c, id);
      if !found {
        return NotFound;
      }
      if changes.requests[id].requester != c.id {
        return Forbidden;
      }
      if changes.requests[id].status != Requests.Pending {
        return Conflict;
      }
      changes.Decide(id, Requests.Cancelled, c.id, now);
      return Done;
    }
  }
}
