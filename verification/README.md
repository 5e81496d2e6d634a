# Verified model of the property back end's stateful cores

This project models the parts of the repository whose correctness spans many
operations, and proves what they promise over every input and every run.

**Room import (RoomText, RoomPlan, RoomRules, RoomIndex, RoomTable,
RoomConvergence, RoomOwnership, RoomTargets, RoomExactness, RoomOutcomes).**
`plan_room_sync` walks a provider's room list with a working copy of the
property's rows and an index by external id, and emits insert, adopt, update
and conflict actions; `sync_rooms` turns them into SQL. The planner with its
index is a method, proved equal to a function; that function is proved equal to
a reference planner that scans the rows afresh for every room. The statements,
run one by one against a table that enforces `uq_room_number` and
`uq_room_integration_external`, are proved to violate neither constraint and to
end in the planner's rows. On top of that stand convergence of repeated runs,
ownership over interleaved runs of several integrations, the exact condition
under which one run writes a row twice, and the one under which plan and table
agree. A planner row is named by its position where the source shares the
dictionary, so the aliasing between `rows` and `by_external` is kept.

**Shifts, corrections, geofence requests (Shifts, ShiftOutcomes, Inbox,
Requests, Corrections, Geofence, RequestOutcomes).** Punches, missed punch-out
claims and their review are one state machine under a non-decreasing clock in
seconds. `Requests` holds the protocol that corrections and geofence changes
share: submit replaces the pending request, a decision closes it, and the inbox
items follow. The classes `ShiftLog`, `InboxTable`, `RequestBook`,
`CorrectionService` and `GeofenceService` update their fields in place and are
proved to perform exactly one step of the model.

**Assigned tasks (Calendar, Periods, Backfill, KraTasks, KraRuns, KraOverlaps,
KraOutcomes, KraService).** The Gregorian calendar of ISO 8601:2004, section
3.2.1, counted day by day, with `date.toordinal` proved to number it; calendar
periods proved to tile time; the newest-first enumeration; the capped,
idempotent backfill with its interleavings; and the state machine over create,
edit, assign, end, deactivate, reactivate, generate, delay and complete, also
with generation calls that overlap with all the others. `KraTasks` and
`KraRuns` take the calendar as a value of `Tables` and ask of it only that its
periods tile the days; `KraRuns.GregorianIsOk` shows that the real one does.

**Ranking (KraScore, KraEvidence, OverallScore, ScoreOutcomes).** The fold of
task rows into a score, with credits in half points; when its evidence depends
on the row order; and the weighted mean over exact reals.

**Provider walks (Dicts, Mews, Cloudbeds).** Paging and date windows against a
server given as a value. `Dicts` is Python's insertion-ordered dictionary.

The modules whose names end in `Outcomes` say of every operation when it goes
ahead, what it answers and what it writes, in terms of the fields of the
records and of its inputs, without the predicates that the model itself
branches on; where such a law refers to another operation, that has its own.

Where the code and its documentation differ, the code is followed:

- `plan_room_sync` assumes distinct, non-empty external ids. A repeated id
  makes plan and table part ways (`RoomOwnership.RepeatedIdDiverges`), an empty
  one makes the run fail (`RoomOwnership.EmptyIdFails`).
  `RoomExactness.FaithfulExactly` gives the exact condition,
  `RoomExactness.SafeStepRules` says it of the rows, and
  `RoomExactness.UnsafeStepHasCause` of the fetched ids.
- The documented rule adopts live rows that nobody owns. An adopted row keeps
  its old `owner_active` flag, so a later fetched room with the same number
  adopts it again (`RoomOwnership.SameNumberAdoptsTwice`);
  `RoomTargets.TargetedTwiceExactly` says when, for every run of a live
  integration over distinct, non-empty ids.
- An inbox item that a user dismisses or marks actioned leaves its request
  pending with no open item (`Corrections.DismissedIsStillPending`,
  `Geofence.DismissedIsStillPending`); otherwise one open item points at a
  request exactly while it is pending.
- Of two rows for one task period with equal half credit, the one read first
  names the evidence category, and the query orders no rows. So the split of
  the half credits depends on the row order
  (`KraEvidence.ReassignedTwoReasons`), exactly in the case that
  `KraEvidence.OrderFreeExactly` names; the points never do.
- Before an assignment ends or a task is deactivated, its periods up to now are
  to exist. One call creates at most 400 of an assignment, and none if the
  assignee was deactivated or the task is inactive, so a gap can stay
  (`KraRuns.LongIdleLeavesGap`, `KraRuns.DeactivatedAssigneeLeavesGap`);
  `KraRuns.EndLeavesNoGap` and `KraRuns.DeactivationLeavesNoGap` say exactly when.
- The Mews walk promises the stays that intersect the range. A stay without
  length that starts on the edge of two windows is seen by neither
  (`Mews.EmptyStayIsFound`, `Mews.EdgeStayIsMissed`); this takes the server to
  report a stay for an interval exactly if it starts before the interval's end
  and ends after its start.
- A Cloudbeds `total` that is too small ends a walk early;
  `Cloudbeds.WalkIsComplete` says exactly when, `Cloudbeds.SmallTotalTruncates`
  is an input.

The clock, the GPS distance, the callers' scopes and roles, the set of active
users and the providers' answers are parameters of the operations. Each
service call is one atomic step, except the backfill, whose reading and
inserting are separate steps; in `KraOverlaps` so are the last writes of ending
and deactivating.

## Model

| member | source | states |
|---|---|---|
| RoomText.NormIgnoresPadding | app/services/sync_service.py:75-76 | whitespace around a number makes no difference to its key |
| RoomText.TrimmedTwice | app/services/sync_service.py:119-144 | trimming is idempotent, so comparing a number that was trimmed when it was read loses nothing |
| RoomText.SameKeyExactly | app/services/sync_service.py:75-76 | two numbers compare equal exactly if, once trimmed, they differ in the case of ASCII letters at most |
| RoomOutcomes.ReadNumber | app/services/sync_service.py:119-121 | a fetched room keeps its id, and its number is its name without the white space around it, "" without a name |
| RoomOutcomes.ReadKind | app/services/sync_service.py:122 | its type is the first 100 characters of the trimmed one, none if that is empty |
| RoomRules.DecisionRules | app/services/sync_service.py:94-104 | the documented rules, said of the rows alone: insert exactly without a match, adopt exactly the one live and free match, update exactly a linked live room whose number is unchanged or unused, and a conflict changes nothing |
| RoomOutcomes.NamelessConflicts | app/services/sync_service.py:124-127 | a name that is empty or longer than 50 characters once trimmed is a conflict that changes nothing |
| RoomOutcomes.LinkedIsRefreshed | app/services/sync_service.py:129-144 | a room whose id a row of this integration carries is compared with the first such row: a conflict if that is deleted; an update that keeps the number if it compares equal; a conflict if another row has the new one; else a rename |
| RoomOutcomes.UnlinkedIsPlaced | app/services/sync_service.py:146-175 | any other room is inserted if no row has its number, adopts the one row that has if that is not deleted and has no live owner, and is a conflict with its reason otherwise |
| RoomIndex.InitialIndexAgrees | app/services/sync_service.py:116 | the index as first built finds, for every non-empty external id, exactly the row a scan would find |
| RoomRules.StepKeepsPlanned | app/services/sync_service.py:119-175 | one pass of the loop keeps room numbers and links unique and lets no other live integration in |
| RoomIndex.StepKeepsAgreement | app/services/sync_service.py:128-164 | after a pass the index still answers as a scan does for every id not yet handled |
| RoomIndex.IndexRefinesScan | app/services/sync_service.py:113-177 | for distinct, non-empty ids the planner with the index plans exactly what a planner does that scans the rows for each room, and index and scan agree after every prefix |
| RoomIndex.PlanRoom | app/services/sync_service.py:119-175 | one pass of the loop: rows, index and action are those that the decision rules give |
| RoomIndex.PlanRoomSync | app/services/sync_service.py:79-177 | the loop with its in-place rows, index and actions computes that plan; when it skips is RoomTable.SkippedExactly |
| RoomTable.SafeStepExecutes | app/services/sync_service.py:203-226 | the statement of a planned action violates neither unique constraint, and the table then mirrors the planner's rows |
| RoomTable.PlanRefinesTable | app/services/sync_service.py:203-226 | at every prefix of the actions no constraint is violated and the table mirrors the planner's rows |
| RoomTable.SyncRefinesPlan | app/services/sync_service.py:188-237 | a whole run keeps both constraints and ends in exactly the rows of the reference planner |
| RoomTable.RoomStore.Execute | app/services/sync_service.py:205-226 | one statement: the new table, or a refusal that leaves the table as it was |
| RoomOutcomes.StatementWrites | app/services/sync_service.py:205-226 | what each statement writes to every field of every room: the target alone gets number, owner and id, and the new type only if there is one |
| RoomOutcomes.FailsOnCollision | app/services/sync_service.py:188-231 | a statement fails exactly if two rooms would have the same number, or the same owner and external id |
| RoomTable.RoomStore.Apply | app/services/sync_service.py:203-231 | executing the actions in order equals their fold; on a violation the table is as before the run |
| RoomTable.RoomStore.SyncRooms | app/services/sync_service.py:180-237 | the run's new table, counts and conflicts; it is skipped exactly if a live integration other than this one owns a room; with good ids and a live integration it never fails |
| RoomOutcomes.SummaryRules | app/services/sync_service.py:203-237 | each action adds one to the count of its kind, and each conflict is listed with its number and reason at its place |
| RoomOutcomes.ConflictsStay | app/services/sync_service.py:203-237 | a conflict once listed stays at its place |
| RoomTable.SkippedExactly | app/services/sync_service.py:113-114 | a run is skipped if and only if some room of the table has an owner that is live and not this integration |
| RoomOutcomes.SoleMatchIsAdopted | app/services/sync_service.py:155-167 | when no other live integration owns a room, a run adopts every undeleted room without a live owner that alone has the number of a fetched room of a new id, whatever the run handles before it |
| RoomOutcomes.AdoptedIsOwned | app/services/sync_service.py:155-167 | after the run the room is this integration's, under that id and its old number, unless a later fetched room has the same number |
| RoomConvergence.RunLowersUnlinked | app/services/sync_service.py:119-177 | a run with an insert, adopt or rename strictly lowers the number of fetched rooms not linked under their own number; any other run changes no row |
| RoomConvergence.SyncConverges | app/services/sync_service.py:119-177 | after as many runs as there are fetched rooms, every further run plans the same actions and changes no row |
| RoomConvergence.NoRenameIsFixedPoint | app/services/sync_service.py:138-145 | a run that renames nothing leaves a table on which the next run changes nothing |
| RoomOwnership.OneOwnerAlways | app/services/sync_service.py:113-114 | over any interleaving of runs of several live integrations at most one of them owns rooms |
| RoomOwnership.RunsCompose | app/services/sync_service.py:180-237 | a run of one import is that import, and runs after runs are the runs of both |
| RoomOwnership.OthersAreLockedOut | app/services/sync_service.py:95-96 | while a live integration owns a room, a run of another live one plans nothing and changes nothing |
| RoomOwnership.ActionsTargetSafely | app/services/sync_service.py:129-135 | no action names a soft-deleted room or a room of another live integration |
| RoomOwnership.RepeatedIdDiverges | app/services/sync_service.py:149-153 | a repeated id plans an update without a row id, and the table keeps the first number while the plan holds the second |
| RoomOwnership.EmptyIdFails | app/services/sync_service.py:116 | an empty external id is not indexed, so the room is inserted again and the run fails on the link constraint |
| RoomOwnership.SameNumberAdoptsTwice | app/services/sync_service.py:155-167 | an input: two fetched rooms of one number both adopt the same row, whose owner_active the first adoption left unset |
| RoomTargets.TargetedTwiceExactly | app/services/sync_service.py:155-167 | two actions of a run name the same room if and only if the earlier one adopts it and the later fetched room has a valid name, the same number and an id that no row had when the run began; the later one is then an adoption too |
| RoomTargets.DistinctNumbersTargetOnce | app/services/sync_service.py:99-102 | if no two fetched rooms with a usable name have the same number, a run writes each room at most once |
| RoomExactness.FaithfulExactly | app/services/sync_service.py:119-177 | the statements of a run follow its plan at every prefix if and only if every step of the plan is safe |
| RoomExactness.SafeStepRules | app/services/sync_service.py:128-172 | a step is safe exactly if it inserts or adopts only for an id that no row carries, renames no row inserted in this run, and updates a row found by id only if that row still carries the id |
| RoomExactness.UnsafeStepHasCause | app/services/sync_service.py:116-172 | whatever is fetched, an unsafe step has an id that an earlier room of the run linked by inserting or adopting, or an empty id linked at load |
| RoomExactness.GoodFetchIsSafe | app/services/sync_service.py:119-177 | distinct, non-empty ids meet that condition |
| Shifts.ShiftLog.CloseAll | app/services/attendance_service.py:146-147 | closing the listed records closes exactly those, without hours |
| Shifts.ShiftLog.AnyRunning | app/services/attendance_service.py:137-138 | finds out whether some listed record is not stale |
| Shifts.ShiftLog.CreatePunchIn | app/services/attendance_service.py:128-161 | performs the modelled punch-in: table and reply |
| Shifts.ShiftLog.CreatePunchOut | app/services/attendance_service.py:163-210 | performs the modelled punch-out: table and reply |
| Shifts.OpenRecords | app/services/attendance_service.py:55-68 | exactly the user's open records at the property, newest punch-in first |
| Shifts.PunchInOpensOne | app/services/attendance_service.py:135-161 | a punch-in inside the fence with nothing running leaves the new record as the only open one; every record it closes was stale, and all others are as they were |
| Shifts.PunchOutOutcome | app/services/attendance_service.py:171-210 | a punch-out completes the one open record with its hours if it is at most 16 hours old, else closes it without |
| ShiftOutcomes.PunchAllowedAtProperty | app/services/attendance_service.py:71-123 | a punch is allowed exactly if there is a geofence, the accuracy is 100 m or better if given, and the accuracy circle reaches the fence |
| ShiftOutcomes.PunchInRules | app/services/attendance_service.py:128-161 | refused while an unfinished record of at most 16 hours is there, then away from the property, and nothing changes; else exactly the unfinished records are closed without hours and a new one begins |
| ShiftOutcomes.PunchOutRules | app/services/attendance_service.py:163-210 | refused without an unfinished record, then away from the property, and nothing changes; else the newest one ends by the 16-hour rule and exactly the other unfinished ones are closed |
| RequestOutcomes.PunchesInRules | app/services/attendance_service.py:128-161 | a punch-in step of the attendance machine follows these rules and leaves requests and items alone |
| RequestOutcomes.PunchesOutRules | app/services/attendance_service.py:163-210 | so does a punch-out step |
| Shifts.PunchInThenOut | app/services/attendance_service.py:135-210 | in and, within 16 hours, out records exactly that interval |
| Shifts.PunchInKeepsShifts | app/services/attendance_service.py:135-161 | a punch-in keeps every earlier record over, claims included, before the new one begins |
| Shifts.PunchOutKeepsShifts | app/services/attendance_service.py:171-210 | a punch-out keeps the order of the records |
| Shifts.OneOpen | app/services/attendance_service.py:136-147 | at most one record of a user at a property is open |
| Shifts.CompletedAreDisjoint | app/services/attendance_service.py:181-206 | two completed shifts of a user at a property share no moment |
| Shifts.TotalAtMostElapsed | app/services/attendance_service.py:260-273 | the hours counted since any start are at most the time elapsed since it |
| ShiftOutcomes.TotalIsSum | app/services/attendance_service.py:260-273 | no records report nothing, and a record more adds exactly what it reports: its hours if completed and plausible, up to 12 hours while running and not stale, else nothing |
| ShiftOutcomes.ReportedIsInterval | app/services/attendance_service.py:260-273 | in a table that keeps the invariant a completed record reports the time between its punches, a running one the time since its punch-in up to 12 hours, one older than 16 hours nothing |
| Shifts.FilterDropsNothing | app/services/attendance_service.py:30-33 | a completed shift is at most 16 hours, so the 24-hour filter never drops it |
| Inbox.InboxTable.CreateInboxItem | app/services/inbox_service.py:52-76 | adds an item unless one is open, and raises exactly when several are |
| Inbox.InboxTable.MarkInboxItemsActioned | app/services/inbox_service.py:107-118 | flips exactly the open items of that record and type |
| Inbox.CreateCounts | app/services/inbox_service.py:42-50 | creating leaves one open item for the record, never two, and no other record touched |
| Inbox.ActionedCounts | app/services/inbox_service.py:107-118 | marking leaves no open item of that record and type and all others as they were |
| RequestOutcomes.NewItem | app/services/inbox_service.py:52-76 | an unread item appears exactly if no item of its record and type is unread or read, and nothing else changes |
| RequestOutcomes.SeveralShown | app/services/inbox_service.py:52-62 | the existence check raises exactly if two different items of the record and type are unread or read |
| RequestOutcomes.MarkedItems | app/services/inbox_service.py:107-118 | exactly the unread and read items of the record and type become actioned |
| RequestOutcomes.ClaimItemRules | app/api/v1/endpoints/inbox.py:163-207 | as a step of the attendance machine, reading turns an unread item read, closing turns the item dismissed or actioned as asked, and no other item, request or record changes |
| RequestOutcomes.ItemRules | app/api/v1/endpoints/inbox.py:163-207 | the same of the geofence machine: no other item, request or geofence changes |
| Requests.RequestBook.Decide | app/services/geofence_request_service.py:182-186 | closes one request and its inbox item |
| Requests.RequestBook.Submit | app/services/geofence_request_service.py:89-122 | the replacing loop and the new request with its item, as one function of the old book |
| Requests.ReplacedAt | app/services/attendance_correction_service.py:105-110 | the loop cancels exactly the requests pending on the subject |
| RequestOutcomes.SubmittedWrites | app/services/attendance_correction_service.py:99-131 | what submitting writes to every request: those pending on the subject are cancelled by the submitter, and a pending one with the given payload is added at the end |
| Requests.SubmittedKeepsBook | app/services/attendance_correction_service.py:99-131 | after submitting, exactly the new request is pending on its subject, with exactly one open item, and closed requests are untouched |
| Requests.DecidedKeepsBook | app/services/attendance_correction_service.py:213-217 | deciding keeps one pending request per subject and items that follow the requests |
| Requests.ItemReadKeepsBook | app/api/v1/endpoints/inbox.py:163-176 | a user reading an item changes neither requests nor which items are open |
| Requests.ItemClosedKeepsBook | app/api/v1/endpoints/inbox.py:179-207 | a user closing an item leaves its request without an open item and touches no other |
| Corrections.CorrectionService.CreateCorrection | app/services/attendance_correction_service.py:79-138 | performs the modelled claim, refusals in the source's order |
| RequestOutcomes.ClaimRules | app/services/attendance_correction_service.py:46-138 | which reply a claim gets, by owner, record status and claimed time, exactly; a refusal changes nothing |
| Corrections.ReviewGoesAhead | app/services/attendance_correction_service.py:190-210 | a review goes ahead exactly for a pending request of someone else, in scope, with a role that still holds; the shift never stands in its way; otherwise nothing changes |
| Corrections.OutOfScopeLooksMissing | app/services/attendance_correction_service.py:201-203 | to everyone but its requester, a request out of scope answers as one that does not exist |
| Corrections.NoSelfReview | app/services/attendance_correction_service.py:190-217 | over every run, no claim is approved or rejected by the one who made it, and exactly the closed ones name who closed them and when |
| Corrections.ClosedByOneEvent | app/services/attendance_correction_service.py:190-270 | every request closed in a run was closed by one event of it, which its signature names: approved or rejected by someone else in scope whose role held, cancelled by its requester, or replaced by a newer claim for its shift |
| Corrections.CorrectionService.ApproveCorrection | app/services/attendance_correction_service.py:220-243 | completes the record and closes the request in one step |
| Corrections.CorrectionService.RejectCorrection | app/services/attendance_correction_service.py:246-256 | closes the request and leaves the record alone |
| RequestOutcomes.ReviewRules | app/services/attendance_correction_service.py:190-256 | an approval writes claim, hours and status to that record, a rejection leaves every record; both sign and close that request alone, its items, and tell the requester; every refusal has its reason in the source's order and changes nothing |
| Corrections.CorrectionService.CancelCorrection | app/services/attendance_correction_service.py:259-270 | only the requester cancels, and only a pending request |
| RequestOutcomes.CancelRules | app/services/attendance_correction_service.py:259-270 | cancelling goes ahead if and only if the request is the caller's own and pending; then it is cancelled, signed and without an open item, and all else is as before; otherwise nothing changes |
| Corrections.StepKeepsOffice | app/services/attendance_correction_service.py:79-270 | every punch and correction step keeps the invariant and the history; no step ever answers that the shift has changed or that the claim lies in the future |
| Corrections.RunKeepsOffice | app/services/attendance_correction_service.py:79-270 | so does every run; completed records and closed requests never change |
| Corrections.NoOverlap | app/services/attendance_correction_service.py:53-54 | over every run, completed shifts are disjoint, those completed by an approved claim included, and at most one is open |
| Corrections.HoursFitElapsed | app/services/attendance_service.py:260-288 | over every run, the reported hours never exceed the elapsed time |
| Corrections.FutureCheckImplied | app/services/attendance_correction_service.py:46-57 | for an auto-closed shift the future check never decides, and a claim is valid exactly if it lies within 16 hours after the punch-in |
| Corrections.RequestsPerShift | app/services/attendance_correction_service.py:12-13 | a record has at most one pending or approved request, and its punch-out is the approved claim |
| Corrections.PendingIffOpenItem | app/services/attendance_correction_service.py:60-62 | over every run, one open item points at a request exactly while it is pending and no user closed its item, and never more than one |
| Corrections.DismissedIsStillPending | app/api/v1/endpoints/inbox.py:196-207 | a run in which a user dismisses the item of a claim, which stays pending with no open item |
| Corrections.ClaimThenApprove | app/services/attendance_correction_service.py:220-243 | a valid claim, approved while pending by someone else in scope, is the shift's punch-out, with the hours that follow |
| Geofence.GeofenceService.CreateRequest | app/services/geofence_request_service.py:81-131 | performs the modelled request |
| RequestOutcomes.ProposeRules | app/services/geofence_request_service.py:81-131 | a proposal is taken exactly for a property that is not deleted and that the caller's role and assignment let them work with; otherwise nothing changes |
| Geofence.OutOfScopeLooksMissing | app/services/geofence_request_service.py:156-169 | to a caller limited to another property, a request answers as one that does not exist |
| Geofence.ReviewGoesAhead | app/services/geofence_request_service.py:175-198 | a review goes ahead exactly for a pending request of someone else that the caller reaches, by someone still allowed, an approval only while the property exists; otherwise nothing changes |
| Geofence.ClosedByOneEvent | app/services/geofence_request_service.py:156-268 | every request closed in a run was closed by one event of it, which its signature names: decided by someone else who reaches it and is still a geofence admin, cancelled by its requester, or replaced by a newer request for its property; an approval put exactly its proposal live at that moment |
| Geofence.NoSelfReview | app/services/geofence_request_service.py:175-227 | over every run, no proposal is approved or rejected by the one who made it, exactly the closed ones name who closed them and when, and a live fence that has moved was proposed by one and approved by another |
| Geofence.GeofenceService.ApproveRequest | app/services/geofence_request_service.py:189-239 | creates or updates the live geofence and closes the request; a blank address is not written over one |
| Geofence.GeofenceService.RejectRequest | app/services/geofence_request_service.py:242-254 | closes the request and leaves the geofences alone |
| RequestOutcomes.DecisionRules | app/services/geofence_request_service.py:156-254 | who may decide, by role, assignment, requester and status; an approval puts exactly the proposed circle live, both sign and close that request alone, its items, and tell the requester; every refusal has its reason and changes nothing |
| Geofence.GeofenceService.CancelRequest | app/services/geofence_request_service.py:257-268 | only the requester cancels, and only a pending request |
| RequestOutcomes.WithdrawRules | app/services/geofence_request_service.py:257-268 | cancelling goes ahead exactly for a request in reach that is the caller's own and pending; then it is cancelled, signed and without an open item, and all else is as before; each refusal changes nothing |
| Geofence.LiveFenceIsLastApproved | app/services/geofence_request_service.py:216-227 | over every run, centre and radius are those of the last approved proposal, the address the last one given |
| Geofence.RunKeepsBook | app/services/geofence_request_service.py:10-13 | over every run, one pending request per property and no change to closed ones |
| Geofence.PendingIffOpenItem | app/services/geofence_request_service.py:37-40 | over every run, one open item points at a request exactly while it is pending and no user closed its item, and a property has at most one pending request |
| Geofence.DismissedIsStillPending | app/api/v1/endpoints/inbox.py:196-207 | a run in which a user dismisses the item of a proposal, which stays pending with no open item |
| Geofence.ReplacedIsNeverApproved | app/services/geofence_request_service.py:96-101 | a replaced request can never be approved, whatever happens afterwards |
| Geofence.ProposeThenApprove | app/services/geofence_request_service.py:189-239 | proposing touches nothing live; approving puts exactly the proposed location live |
| Calendar.NextOrdinal | app/services/kra_task_service.py:48-52 | the next date by the calendar's rules has the next day number |
| Calendar.DaysBeforeYearIsClosed | app/services/kra_task_service.py:48-52 | counting years one by one agrees with the closed form with leap years every 4, not 100, but 400 years |
| Calendar.OrdinalIsOrder | app/services/kra_task_service.py:62-66 | comparing dates by year, month and day is comparing their numbers |
| Calendar.OrdinalRoundTrip | app/services/kra_task_service.py:48-49 | dates and day numbers are in one-to-one correspondence |
| Calendar.MinusDays | app/services/kra_task_service.py:68 | date minus days is the date with that day number |
| Calendar.MonthTable | app/services/kra_task_service.py:50-56 | the lengths of the twelve months, and of February by the leap-year rule |
| Calendar.WeekdaysCount | app/services/kra_task_service.py:47-49 | weekdays run from Monday to Sunday and on, 1 January 2024 being a Monday |
| Periods.PeriodIsUnit | app/services/kra_task_service.py:43-57 | the days of a period are exactly those of the same day, Monday-to-Sunday week, month or quarter |
| Periods.PeriodsPartition | app/services/kra_task_service.py:43-57 | a day lies in its period, and another day lies in it exactly if it has the same period |
| Periods.PreviousPeriodEndsTheDayBefore | app/services/kra_task_service.py:67-68 | the period before a period ends on the day before it starts, year ends and leap years included |
| Periods.CalendarIsGrid | app/services/kra_task_service.py:43-57 | on day numbers the periods of each frequency tile time |
| Periods.PeriodsNewestFirst | app/services/kra_task_service.py:60-68 | the loop terminates and yields the specified enumeration |
| Periods.NewestIsExact | app/services/kra_task_service.py:60-68 | that enumeration holds exactly the periods that meet the range, adjacent and descending, from that of up_to_date to that of start_date, and nothing if the range is empty |
| KraService.QueueMissing | app/services/kra_task_service.py:144-162 | queues the newest missing periods, 400 at most, and reports whether any were left |
| KraService.QueueAll | app/services/kra_task_service.py:133-162 | queues for every assignment from one snapshot, and counts those left incomplete |
| KraService.KraTaskService.InsertBatches | app/services/kra_task_service.py:164-166 | inserting in batches of 500 equals inserting all, and the counts add up to the growth |
| KraService.KraTaskService.EnsureOccurrences | app/services/kra_task_service.py:91-170 | performs the modelled generation: tables, created and capped |
| Backfill.EnsuredAppends | app/services/kra_task_service.py:103-104 | one call only appends: exactly min(400, missing) newest missing periods of each assignment |
| Backfill.EnsuredLeaves | app/services/kra_task_service.py:36-39 | after a call exactly the older missing periods remain |
| Backfill.CappedAreIncomplete | app/services/kra_task_service.py:149-151 | an assignment is reported capped exactly if periods of it remain |
| Backfill.CallsFill | app/services/kra_task_service.py:36-39 | k calls fill 400 k missing periods of every assignment, newest first |
| Backfill.CallsNeeded | app/services/kra_task_service.py:36-39 | m missing periods are gone exactly after ceil(m / 400) calls, and the next call queues none |
| Backfill.InsertedIsUnion | app/services/kra_task_service.py:85-88 | inserting ignoring conflicts keeps the key unique, keeps old rows, and adds exactly the missing keys |
| Backfill.InterleavingIsUnion | app/services/kra_task_service.py:133-166 | however calls interleave, once each has inserted all it queued the table holds exactly the keys it held before and those that some call queued from its own snapshot |
| Backfill.InterleavingIsSafe | app/services/kra_task_service.py:133-166 | stale snapshots cause no duplicate key and change no old row; the created counts add up to the rows added; the new keys are those of the batches inserted |
| Backfill.NothingLost | app/services/kra_task_service.py:164-166 | from any state of the other calls, a queued row ends in the table or waits to be inserted by its call |
| KraService.KraTaskService.Update | app/services/kra_task_service.py:262-288 | performs the modelled edit, frequency lock, final generation and restart included |
| KraService.KraTaskService.Restart | app/services/kra_task_service.py:277-282 | moves exactly the active assignments of the definition to today |
| KraService.KraTaskService.Assign | app/services/kra_task_service.py:309-359 | performs the modelled assignment, refusals before any change |
| KraService.KraTaskService.End | app/services/kra_task_service.py:362-379 | performs the modelled ending, generation first |
| KraService.KraTaskService.Delay | app/services/kra_task_service.py:442-448 | performs the modelled delay |
| KraService.KraTaskService.Complete | app/services/kra_task_service.py:467-478 | performs the modelled completion |
| KraTasks.WorksAreEligible | app/services/kra_task_service.py:107-129 | generation works on exactly the eligible assignments, all of them, each once, each with its definition's calendar |
| KraOutcomes.GenerationAdds | app/services/kra_task_service.py:107-162 | of every assignment a call adds its newest 400 missing periods as pending occurrences, if it is active, its definition active and not deleted, its assignee active and every filter names it; otherwise it adds none |
| KraOutcomes.CappedCountsIncomplete | app/services/kra_task_service.py:144-162 | the capped count is the number of assignments worked on that still miss periods after the call |
| KraOutcomes.EndedStaysSilent | app/services/kra_task_service.py:107-114 | after an assignment has ended, no run adds an occurrence of it |
| KraOutcomes.QueryQueues | app/services/kra_task_service.py:107-162 | a call that overlaps with others queues from its snapshot what it would add at once, and changes neither the tables nor what other calls have queued |
| KraOutcomes.ActRules | app/services/kra_task_service.py:164-166 | storing takes the next 500 rows of one call, each of which has its key in the table then, and just the later ones still wait; an operation in between acts on the tables alone |
| KraOutcomes.EndedStaysSilentInOverlaps | app/services/kra_task_service.py:133-166 | nor does any run of overlapping calls, once no call has a row of the ended assignment waiting |
| KraTasks.Distinct | app/services/kra_task_service.py:318 | the same users, each once |
| KraTasks.DistinctKeepsOrder | app/services/kra_task_service.py:318 | in the order in which they are first named |
| KraTasks.GeneratedKeepsTables | app/services/kra_task_service.py:101-105 | generation keeps the invariant and changes no existing row |
| KraRuns.UpdateStep | app/services/kra_task_service.py:267-286 | editing keeps the invariant; a definition that was ever assigned keeps its frequency |
| KraOutcomes.EditWrites | app/services/kra_task_service.py:262-288 | an edit writes the given frequency and activity to that definition and to no other |
| KraOutcomes.EditRules | app/services/kra_task_service.py:262-288 | an edit is refused for a missing or deleted definition, and for a new frequency once assigned; deactivating generates for that definition up to today, reactivating moves the start of exactly its active assignments to today |
| KraOutcomes.DefinitionEvents | app/services/kra_task_service.py:240-288 | a new definition starts active; deleting one marks that one |
| KraRuns.AssignedAre | app/services/kra_task_service.py:330-341 | after assigning, exactly the wanted users and those who already had one have an active assignment, no one has two, and what is added starts today |
| KraOutcomes.AssignAnswers | app/services/kra_task_service.py:309-328 | the refusals in order: a date more than a day off, a missing, deleted or inactive definition, a user who is inactive or may not be assigned; each changes nothing |
| KraOutcomes.AssignWrites | app/services/kra_task_service.py:318-359 | exactly the named users without an active assignment of the definition get one from today on; exactly the other named ones are skipped |
| KraRuns.EndStep | app/services/kra_task_service.py:362-379 | ending keeps the invariant, and an ended assignment stays as it is |
| KraOutcomes.EndRules | app/services/kra_task_service.py:362-379 | an active assignment is filled by a generation for it alone and ended with its start kept; a missing or ended one changes nothing |
| KraOutcomes.LastWrites | app/services/kra_task_service.py:274-288 | as steps of their own, the last writes of ending and of deactivating clear one flag |
| KraOutcomes.WorkRules | app/services/kra_task_service.py:426-478 | delaying takes the caller's own pending occurrence and marks it for good; completing takes one not yet completed and keeps the mark as it was; each refusal changes nothing |
| KraRuns.StepKeepsTables | app/services/kra_task_service.py:240-481 | every operation keeps the invariant and the history |
| KraRuns.After | app/services/kra_task_service.py:240-481 | over every run: occurrences on their calendar, unique, never deleted, moving only forward; was_delayed never forgotten |
| KraRuns.RunsCompose | app/services/kra_task_service.py:240-481 | a run of one event is its step, and a run after a run is the run of both |
| KraRuns.ReachableAreDisjoint | app/services/kra_task_service.py:43-57 | in every reachable state two occurrences of one assignment share no day |
| KraOverlaps.ActKeepsShared | app/services/kra_task_service.py:133-166 | a generation call that inserts rows from a stale snapshot keeps the invariant and the history, whatever assigning, ending, deactivating, reactivating and other calls did in between; and so does each of those |
| KraOverlaps.AfterActs | app/services/kra_task_service.py:133-166 | over every run of overlapping calls and operations: occurrences on their calendar, unique, never deleted, moving only forward |
| KraOverlaps.ActsCompose | app/services/kra_task_service.py:133-166 | a run of one act is that act, and a run after a run is the run of both |
| KraOverlaps.OverlapsAreDisjoint | app/services/kra_task_service.py:43-57 | in every state such a run reaches, two occurrences of one assignment share no day |
| KraOverlaps.PeriodArrives | app/services/kra_task_service.py:144-166 | once a call has inserted all it queued, every period it queued or found has its row, whatever ran in between |
| KraOverlaps.OverlapLeavesNoGap | app/services/kra_task_service.py:373-376 | a call that finds at most 400 periods of an assignment missing leaves none missing, however it overlaps with others, unless the start date moved back meanwhile |
| KraRuns.CompleteCoversEveryDay | app/services/kra_task_service.py:7-10 | with nothing missing, every day from the start date on lies in an occurrence |
| KraRuns.EndLeavesNoGap | app/services/kra_task_service.py:373-376 | ending an active assignment leaves no gap up to today exactly if at most 400 periods were missing, or none where generation skips it because its assignee or its task is inactive |
| KraRuns.LongIdleLeavesGap | app/services/kra_task_service.py:373-376 | an input: a daily task ended on its 401st day with nothing generated before keeps a gap |
| KraRuns.DeactivatedAssigneeLeavesGap | app/services/kra_task_service.py:107-114 | an input: a daily task ended after its assignee was deactivated keeps the gap of a single missing day |
| KraRuns.DeactivationLeavesNoGap | app/services/kra_task_service.py:274-276 | deactivating a task leaves no gap in an assignment of it, ended or skipped ones included, under the same condition |
| KraRuns.ReactivationSkipsGap | app/services/kra_task_service.py:277-282 | after reactivation no period that ended before that day counts as missing |
| KraRuns.GregorianIsOk | app/services/kra_task_service.py:43-57 | the calendar of the source meets what the state machine asks of a calendar |
| KraScore.BestCredits | app/services/ranking_service.py:160-165 | the first loop keeps every task period once, with the best credit of its rows |
| KraScore.Tally | app/services/ranking_service.py:169-174 | the second loop counts the periods per category and per frequency, in any order of the entries |
| KraScore.ScoreKraOccurrences | app/services/ranking_service.py:153-175 | None for no rows; else the points are 100 (on time + half credits / 2) / counted, and both the category and the frequency counts add up to the number of task periods |
| KraScore.PointsInRange | app/services/ranking_service.py:154 | the points lie between 0 and 100 |
| ScoreOutcomes.CreditRules | app/services/ranking_service.py:142-150 | no credit exactly for a row not completed, full credit exactly for one completed without a delay mark by the day after the period's end, half for the rest; and the category of each case |
| ScoreOutcomes.PointsByPeriods | app/services/ranking_service.py:153-175 | of the task periods, half the points go by those with a completed row and half by those with a row completed in time |
| ScoreOutcomes.EvidenceByPeriods | app/services/ranking_service.py:160-172 | a period counts as on time exactly if a row of it is, as not completed exactly if no row of it is completed, and otherwise under the reason of one of its rows |
| KraScore.SameRowsSamePoints | app/services/ranking_service.py:154-159 | row order and repeated rows make no difference to the points |
| KraScore.BetterRowNeverCosts | app/services/ranking_service.py:142-150 | raising a row's credit never lowers the points |
| KraEvidence.OrderFreeExactly | app/services/ranking_service.py:160-172 | the category counts are the same for every order of the rows if and only if, for each task period whose best credit is a half, all its rows of half credit have one category |
| KraEvidence.ReassignedTwoReasons | app/services/ranking_service.py:164-165 | an input: of a task marked delayed under one assignment and completed late without a mark under the next, the row read first names the category |
| KraEvidence.FrequenciesAreOrderFree | app/services/ranking_service.py:173 | the frequency counts never depend on the order, as the rows of a definition share its frequency |
| OverallScore.Totals | app/services/ranking_service.py:363-392 | the loop adds up the weights and weighted scores of exactly the criteria that apply |
| ScoreOutcomes.NormalizedRules | app/services/ranking_service.py:374-390 | a missing score counts as 0, any other as its share of the maximum, out of 100 |
| ScoreOutcomes.SumsOfCriteria | app/services/ranking_service.py:363-392 | each criterion that applies adds its weight and its weighted score to the sums, starting from 0; KRA Completion adds nothing when there is no KRA |
| OverallScore.CalculateOverall | app/services/ranking_service.py:362-396 | the clamped weighted mean of the applicable scores, 0 when nothing applies |
| ScoreOutcomes.MeanRules | app/services/ranking_service.py:394-396 | the mean times the total weight is the weighted sum; the clamp keeps 0 to 100 and moves anything else to the nearer end |
| OverallScore.MeanBetween | app/services/ranking_service.py:394-395 | the mean lies between the smallest and the largest score |
| OverallScore.ClampChangesNothing | app/services/ranking_service.py:396 | with final points between 0 and the maximum the clamp is idle |
| OverallScore.LeavingKraOut | app/services/ranking_service.py:368-370 | leaving KRA Completion out is scoring it at the weighted mean of the others, wherever it is listed |
| Dicts.StoredIsDict | app/services/adapters/mews.py:287-300 | storing pairs keeps exactly their keys, once each, with a value each was given |
| Dicts.StoredAreLast | app/services/adapters/mews.py:287-300 | what is stored is the last pair of every key and nothing else |
| Mews.GetAll | app/services/adapters/mews.py:87-111 | cursor paging returns exactly the served list, also when its length is a multiple of the page size, and fails exactly if a request does |
| Mews.AnsweredExactly | app/services/adapters/mews.py:87-111 | all requests are answered exactly if none fails at a multiple of 1000 within the list, nor at its end if a cursor leads there |
| Mews.FetchCollidingReservations | app/services/adapters/mews.py:278-300 | the walk terminates and keys the reservations of all its windows, or fails exactly if a request of theirs does |
| Mews.WindowsTile | app/services/adapters/mews.py:285-299 | the windows run without gap or overlap from start to end, each at most 30 days long |
| Mews.WindowsAreFull | app/services/adapters/mews.py:285-299 | every window but the last is exactly 30 days long |
| Mews.AllAnsweredExactly | app/services/adapters/mews.py:285-299 | the requests of the walk are all answered exactly if those of each window are |
| Mews.FoundInSomeWindow | app/services/adapters/mews.py:288-299 | a stay is found exactly if some window sees it |
| Mews.ColliderIsExact | app/services/adapters/mews.py:281-284 | the result holds, once each, exactly the reservations whose non-empty stay meets the whole range |
| Mews.EmptyStayIsFound | app/services/adapters/mews.py:288-299 | a stay without length is found exactly if it lies inside the range and not on a window's edge |
| Mews.EdgeStayIsMissed | app/services/adapters/mews.py:288-299 | an input: a stay without length 30 days into the range meets the range and is not found |
| Mews.ChunksRejoin | app/services/adapters/mews.py:59-60 | the pieces rejoin to the list, none empty or longer than the size |
| Cloudbeds.GetPages | app/services/adapters/cloudbeds.py:187-210 | the walk terminates with the prefix that its stopping rule defines, or fails because a request did |
| Cloudbeds.WalkFailsExactly | app/services/adapters/cloudbeds.py:187-210 | the walk fails exactly if one of the requests up to its last page does |
| Cloudbeds.WalkIsComplete | app/services/adapters/cloudbeds.py:187-210 | the whole list comes back exactly if it fits one page, no total is stated, or the total lies beyond the last full page before the end |
| Cloudbeds.SmallTotalTruncates | app/services/adapters/cloudbeds.py:187-210 | an input: of 150 items under a total of 100 the walk returns 100 |
| Cloudbeds.PagesReturnTheList | app/services/adapters/cloudbeds.py:190-191 | without a total, or with the right one, every list comes back whole |
| Cloudbeds.FetchRooms | app/services/adapters/cloudbeds.py:227-256 | the page loop, for any server: the non-virtual rooms of the pages walked, keyed by id |
| Cloudbeds.RoomWalkExactly | app/services/adapters/cloudbeds.py:227-256 | the walk holds all rooms of the pages up to the first that ends it, and fails exactly if that one is refused |
| Cloudbeds.FetchedRoomsAreGood | app/services/adapters/cloudbeds.py:224-226 | whatever the server sends, the ids are distinct and not empty |
| Cloudbeds.ImportedRoomsKeepConstraints | app/services/adapters/cloudbeds.py:212-256 | so importing them violates no table constraint |
| Cloudbeds.FetchRoomsIsComplete | app/services/adapters/cloudbeds.py:229-246 | of up to 10,000 uniquely identified rooms exactly the non-virtual ones come back with id, name and type; of more, those among the first 10,000 |

## Left out

- RoomText.SameKeyExactly: tells non-ASCII letters of different case apart, because the model lower-cases ASCII letters only; the planner's own results hold for any comparison key.
- The length limit of `rooms.external_id` and the uniqueness of an integration's links across properties: the rooms of an integration lie in one property.
- `gen_random_uuid`: fresh room ids come from a counter; request, shift and task ids are positions.
- Switching an integration to or from disconnected between runs: the set of live integrations is fixed over a run of runs.
- Concurrent punch-ins, and the IntegrityError branches of submitting and approving: each call is one atomic step, which makes those branches unreachable.
- Rounding hours to two decimals: times and hours are exact seconds.
- A claim without a time zone, and notes, reasons and review notes: input checks and text that no rule reads.
- Role and scope of reviewers of corrections: two flags say whether the request is in scope and whether the stored role still allows it; geofence requests model the scope rule itself.
- Writes to a geofence outside the request protocol, `haversine_distance` and coordinate validation: the distance is a real number given with the punch.
- A notification that fails to save: `notify` skips it and the step goes on.
- Python's range of years 1 to 9999: dates run over all years.
- Titles, descriptions, value labels, completion notes and values of tasks, and the tenant, property and user copies kept in occurrence rows.
- `_check_assignable`: the set of users whom the caller may assign is a parameter of assigning.
- Conflicting concurrent assignments: assigning is one atomic step, so the insert that ignores conflicts adds every row.
- Races between the checks and the writes of one edit or one assignment: those are one step, and only their generation calls overlap with others.
- The counts of records that need review beside the hours of `get_user_totals`: counting by one test of a record.
- `summarize`, rank assignment, performance status and insights: counting and sorting without further invariants.
- The selection of task rows for a scoring window, and storing scores.
- Provider field mapping, authentication, rates, guests, and the other channel managers: input and output plumbing.
- Floating point: scores are exact reals.
