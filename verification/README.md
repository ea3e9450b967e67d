# Campus Event Manager — attendance, registration and feedback model

A Dafny model of the state at the heart of Campus Event Manager, and of the
code in its two front-ends that keeps their caches in step with that state.

- **Server (`server.js`).** The SQLite tables become one immutable `Db`
  value:
  - students and events;
  - registrations, unique per (student, event) and carrying a `verified` flag;
  - self check-ins, one per pair, in `attendance`;
  - admin marks, one per pair, in `attendance_marks`;
  - feedback, with the per-student hidden markers of `deleted_feedback`.

  Every handler is a pure function from the store and the request to the
  new store and a reply (`Ok` or an `ApiError` with its HTTP code). A
  pure resolver turns the store into an event's roster, with the
  three-way status of the SQL `CASE`. An append-only outbox of
  `(room, payload)` messages stands for the socket.io emissions.
- **Student app (`mobile-app/mobile.js`).** Models:
  - the `attendance-updated` handler: its toast, the upsert it logs, and the refetch that empties and rebuilds the `attendanceData` cache;
  - the polling rebuild `loadAttendanceData` and `getAttendanceStatus`;
  - the registration change detectors;
  - the registration and unregistered-event filters.
- **Admin portal (`admin-portal/admin.js`).** Models:
  - the attendance table with its badges, mark buttons and completion indicator;
  - the push guard;
  - the registration event filter and the select-all tri-state;
  - the local edits of the cached registration list after verify and delete.
- **Cross-module results (`sync.dfy`).** For the same store:
  - the student's push path, once its refetch finishes, ends in exactly the cache a poll builds, and its toast names the status that cache reads;
  - the admin's completion indicator is on exactly when every registered student is checked in or marked;
  - the admin's local cache edits reproduce the server's registration listing (up to the verification clock);
  - the student's Events tab offers exactly the events they are not registered for.

Modules:
- `Basics`: `Option`, `Result`, and JavaScript truthiness of ids.
- `Names`: the collation order of `ORDER BY s.name`.
- `Tables`: the store, its invariant `Valid`, and the error replies.
- `Resolver`: the status rule and the roster query.
- `Registrations`, `Attendance`, `FeedbackApi`: the handlers.
- `Seqs`: `Array.prototype.filter`.
- `Wire`: the JSON the clients see.
- `StudentClient`, `AdminClient`, `Sync`.

Where the code and its documentation disagree, the model follows the code:
- A self check-in does not clear an existing absent mark. The pair still
  resolves to attended because a check-in wins over any mark.
- The student push handler shows its toast on every snapshot in which the
  student is attended or absent, not only when the status changes.
- The push handler's upsert of the pushed status never reaches the screen.
  The handler then calls `loadAttendanceData`, which empties the cache
  before its first `await`, so the handler returns with an empty cache and
  the cache is rebuilt from the server.
- `loadAttendanceData` empties the cache before fetching, so a fetch that
  throws part-way leaves only the entries built so far.
- The `data-updated` broadcast (`broadcastUpdate`) is never called. So
  registration and feedback handlers emit nothing; only check-ins and marks
  do.

## Model

| member | source | states |
|---|---|---|
| Tables.Empty | server.js:63-119 | The freshly created tables satisfy the store invariant (ids below their counters, one registration per pair, distinct feedback ids, ratings in 1..5) and hold no registration, check-in or mark. |
| Resolver.StatusPrecedence | server.js:626-631 | A pair is attended iff it has a check-in; absent iff it has no check-in but a mark row; not marked iff it has neither. A mark recorded as attended without a check-in still resolves to absent. |
| Resolver.RosterSpec | server.js:622-648 | The roster of an event is sorted by name. It lists exactly the existing students registered for the event, once each, each with the status and timestamps the join computes for that student. |
| Resolver.OnRosterIffRegistered | server.js:634-638 | A student is on an event's roster iff the student exists and has a registration for the event. |
| Resolver.JoinRowsSound | server.js:626-637 | Every joined row comes from a registration for the event whose student exists, and is that student's resolved row. |
| Resolver.JoinRowsComplete | server.js:634-637 | Every registration for the event whose student exists contributes that student's resolved row. |
| Resolver.SortSpec | server.js:638 | Sorting by name yields an ordered list that is a permutation of its input: the same rows, each as often as before. |
| Names.Trichotomy | server.js:638 | Name collation is total: of two different names, one sorts first. |
| Names.Asymmetric | server.js:638 | A name that sorts before another is different from it and does not also sort after it. |
| Names.Transitive | server.js:638 | Name collation is transitive. |
| Registrations.Register | server.js:296-310 | A missing id or an already registered pair fails with a constraint error and no write. Otherwise one unverified row with a fresh id is appended, and the store invariant is kept. |
| Registrations.Verify | server.js:313-331 | 404 with no write iff no row has the id. Otherwise exactly the row with the id becomes verified at the given time and every other row is unchanged. |
| Registrations.VerifyAll | server.js:334-345 | Every row ends verified. The reply counts the rows that were unverified before, and rows already verified keep their timestamp. |
| Registrations.VerifyKeepsRosters | server.js:313-345 | Verifying one or all registrations leaves every event's roster unchanged. |
| Registrations.Delete | server.js:348-384 | A missing id, or a row whose student or event is gone, gives 404 with no write. Otherwise exactly that row is removed, its joined details are returned, and the invariant is kept. Under the invariant it succeeds exactly when a row with the id exists and joins to its student and event. |
| Registrations.DeleteRemovesFromRoster | server.js:348-384 | After a successful delete the student is no longer on that event's roster. |
| Registrations.DeleteAll | server.js:387-413 | Every registration is removed and the reply counts them. No pair stays registered. Each reply row is a removed registration with its own joined names, every removed registration that joins has a row, and under the invariant no registration has two. |
| Registrations.AllDetailsMembers | server.js:389-391 | Each row the joined read returns is a registration of the table with its own names, and every registration whose student and event exist has a row. |
| Registrations.AllDetailsDistinct | server.js:389-391 | With distinct registration ids the joined read returns each registration once. |
| Registrations.AllDetailsAppend | server.js:389-391 | The joined read of a concatenation is the read of each part in turn. |
| Registrations.AllDetailsSingle | server.js:389-391 | A single registration contributes its own row exactly when its student and event exist. |
| Registrations.DeleteAllEmptiesRosters | server.js:387-413 | Afterwards every event's roster is empty. Each student who was on an existing event's roster has a reply row for their registration to it, with their name, email and the event's title. |
| Attendance.SelfCheckIn | server.js:416-434 | Fails with a constraint error iff an id is missing or the pair is already checked in, and then the state is unchanged and nothing is sent. Otherwise the check-in is recorded, any mark row is left in place, the pair resolves to attended, and the broadcast is appended. |
| Attendance.AdminMark | server.js:650-717 | A falsy student, event or status, or a status other than attended/absent, gives 400 with no write and no message. Otherwise exactly one of check-in and mark exists for the pair, matching the request, the pair resolves to it, nothing else changes, and the broadcast is appended. |
| Attendance.MarkIdempotent | server.js:658-713 | Re-applying the same mark at the same time leaves the tables exactly as they were, and still sends two more messages. At a later time the same pairs hold check-ins and marks and every pair resolves as before. |
| Attendance.SuccessfulWriteBroadcasts | server.js:720-746 | Every successful check-in or mark adds exactly two messages. The event room and the admin room each receive one carrying the post-write roster; no other room receives anything. |
| Attendance.BroadcastDelivery | server.js:868-891 | A broadcast delivers one message with the event's roster to `event-<id>` and to `admin`, and nothing to any other room. |
| Attendance.CheckInOverridesAbsentMark | server.js:416-434 | A self check-in over an absent mark succeeds and keeps the mark, yet the pair resolves to attended. |
| Attendance.MarkThenCheckInConflicts | server.js:658-685 | After an admin marks a student attended, the student's own check-in fails on the unique pair and changes and sends nothing. |
| Attendance.AbsentAttendedAbsent | server.js:658-713 | Absent, attended, absent: each step resolves to the status just requested, with exactly one of check-in and mark present, and six messages are sent. |
| FeedbackApi.Submit | server.js:499-513 | A missing id or an out-of-range rating is a constraint error with no write. Otherwise one row with a fresh id is appended, nothing else in the store changes, and the invariant is kept. |
| FeedbackApi.ListSpec | server.js:457-497 | The admin listing holds all feedback whose student and event exist. A student's listing holds that student's own feedback except the ids the student has hidden. |
| FeedbackApi.SoftDelete | server.js:540-552 | Adds exactly the (student, id) marker and changes nothing else, whether or not the feedback exists. |
| FeedbackApi.SoftDeleteIdempotent | server.js:540-552 | Soft-deleting twice is the same as once. |
| FeedbackApi.SoftDeleteVisibility | server.js:462-487 | After a soft delete the row is gone from that student's listing. The admin's and every other student's listing are unchanged. |
| FeedbackApi.HardDelete | server.js:553-565 | 404 with no write iff no row has the id. Otherwise exactly the rows with that id are removed and the invariant is kept. |
| FeedbackApi.DeleteOne | server.js:536-567 | With a viewer it is the soft delete; without one it is the hard delete. |
| FeedbackApi.DeleteMany | server.js:570-619 | A missing or empty id list gives 400 with no write. A truthy student hides exactly the listed ids and the reply counts the list. Otherwise exactly the listed rows are removed and the reply counts the rows that went. |
| FeedbackApi.WithoutKeepsValid | server.js:603-617 | Removing feedback rows keeps ids distinct and ratings in range. |
| Wire.StatusTextInjective | server.js:627-630 | The three status texts are distinct, so a client reading them recovers the status. |
| Wire.RegToJson | server.js:296-331 | A client reads a registration as verified iff the store has it verified. |
| Wire.ListRows | server.js:276-294 | The registration listing holds exactly the registrations whose student and event both exist, as the client reads them. |
| Wire.ListRowsAppend | server.js:284 | Newest first: listing rows appended later puts them ahead of the earlier ones. |
| Wire.StatusBadge | admin-portal/admin.js:1582-1591 | `attended` and `absent` get their own badge, and every other text gets Not Marked. |
| StudentClient.AttendanceNotice | mobile-app/mobile.js:120-124 | A toast is shown iff the status is attended or absent; it is a success toast iff attended. |
| StudentClient.OnAttendanceUpdated | mobile-app/mobile.js:80-132 | With no truthy student, or no row for the student, the cache is unchanged, no refetch starts and no toast is shown. Otherwise the toast follows the row's status and the handler returns with an empty cache and a refetch pending. The upserted cache it logs reads back the row's status for the event and leaves other events' entries untouched, with the new entry that event's only one. |
| StudentClient.PushEndsInPoll | mobile-app/mobile.js:114-117 | A push that finds the student ends, after its refetch, in exactly the cache a poll of the same fetches builds, whatever either cache held before. A push that does not find the student leaves the cache as it was. |
| StudentClient.UpsertSpec | mobile-app/mobile.js:98-109 | Overwrite-or-append gives the new status for the event and leaves other events alone. It keeps at most one entry per event, with the new entry as that event's only one. |
| StudentClient.CollectSound | mobile-app/mobile.js:2225-2256 | Every rebuilt entry is for a registered event and holds the status that event's fetch reported for the student. |
| StudentClient.CollectAtMostOne | mobile-app/mobile.js:2229-2247 | With distinct registered events, the rebuilt cache has at most one entry per event. |
| StudentClient.CollectComplete | mobile-app/mobile.js:2229-2264 | When no fetch throws, each registered event's status is what its fetch reported. It is null when the fetch failed or listed no row for the student. |
| StudentClient.CheckForChanges | mobile-app/mobile.js:473-510 | No student means no toasts. The count toast appears iff the list grew and some entry has a new (id, event_id); its number is the count of such entries. An event gets a verification toast iff its first previous registration was unverified and a current one for it is verified (1 or true). |
| StudentClient.GrowthIsNoticed | mobile-app/mobile.js:481-491 | A list that grew with distinct (id, event_id) pairs always triggers the count toast, with a number at least the growth. |
| StudentClient.UnchangedListIsQuiet | mobile-app/mobile.js:473-510 | An unchanged list with one registration per event triggers no toast. |
| StudentClient.RemovedRegistrations | mobile-app/mobile.js:444-470 | A removal notice appears only for a truthy student whose list shrank. When the list shrank, it names exactly the previous registrations whose event has no current registration, in their order. |
| StudentClient.LoadEvents | mobile-app/mobile.js:1029-1080 | An empty event list keeps the previous registrations and shows nothing. Otherwise the student's registrations are exactly the fetched ones with their id; there are none without an id or when the registration fetch throws. The shown events are exactly those without such a registration, in order. |
| StudentClient.MyEventsBadgeAsWritten | mobile-app/mobile.js:1465-1475 | Not Marked iff the cached status is null or empty; Present iff it is `attended`; any other text reads Absent. |
| StudentClient.MyEventsBadge | mobile-app/mobile.js:1465-1475 | Present iff `attended`, Absent iff `absent`. Any other cached status gets the admin table's badge for the same text. |
| StudentClient.BadgesDisagree | mobile-app/mobile.js:1465-1475 | The card as written and the corrected card differ exactly on non-empty statuses other than attended and absent. |
| AdminClient.Actions | admin-portal/admin.js:1593-1616 | Mark buttons, for that student and event, are offered iff the status is neither attended nor absent. Marked rows show the confirmation that matches their badge. |
| AdminClient.Complete | admin-portal/admin.js:1557-1577 | When the indicator is on, no row offers mark buttons. |
| AdminClient.UpdateTable | admin-portal/admin.js:1496-1580 | A falsy event id falls back to the viewed event. If both are falsy nothing is drawn; an empty roster gives the no-students row. Otherwise one row per entry with its badge, mark buttons iff unmarked, and the indicator iff every row is marked. |
| AdminClient.OnAttendanceUpdated | admin-portal/admin.js:56-61 | A pushed snapshot redraws only when the section is attendance and the viewed event is the snapshot's. Otherwise the page is left alone. |
| AdminClient.FilterByEvent | admin-portal/admin.js:579-596 | No selected event gives every registration. A selected event gives exactly the registrations for it, in their original order. |
| AdminClient.UpdateSelection | admin-portal/admin.js:624-652 | The selection is exactly the ticked values. Select-all is unchecked iff nothing is selected, and checked iff something is selected and the selection's size equals the number of boxes. |
| AdminClient.TriStateMeaning | admin-portal/admin.js:640-649 | With one box per registration, select-all is checked iff there are boxes and all are ticked, and unchecked iff none is. |
| AdminClient.VerifyLocal | admin-portal/admin.js:856-860 | After an ok response, only the first row with the id changes: it becomes verified (1) at the given time. A failed response or an unknown id changes nothing. |
| AdminClient.VerifySelectedLocal | admin-portal/admin.js:682-730 | With a selection and no failed request, exactly the selected rows become verified and the selection is cleared. Otherwise nothing changes. |
| AdminClient.BulkVerifyIsRepeatedVerify | admin-portal/admin.js:682-730 | With distinct cached ids, verifying a non-empty selection in bulk leaves the cache as `verifyRegistration` called once per selected id would, and clears the selection. |
| AdminClient.DeleteLocal | admin-portal/admin.js:903-906 | After an ok response, exactly the rows with the id leave the cache, the order of the rest is kept, and the id leaves the selection. |
| AdminClient.DeleteSelectedLocal | admin-portal/admin.js:763-767 | With a selection and no failed request, exactly the selected rows leave the cache and the selection is cleared. Otherwise nothing changes. |
| AdminClient.BulkDeleteIsRepeatedDelete | admin-portal/admin.js:733-780 | Deleting any non-empty selection in bulk gives the same cache and selection as `deleteRegistration` called once per selected id. |
| AdminClient.DeleteEachRemoves | admin-portal/admin.js:903-906 | Deleting ids one at a time removes exactly those ids from the cache, in order, and from the selection. |
| Sync.StudentRow | server.js:622-648 | A registered student finds exactly their resolved row in the roster JSON, and anyone else finds none. |
| Sync.PushAndPollAgree | mobile-app/mobile.js:80-132 | After the event-room broadcast and its refetch against the same store, the student holds exactly the cache a poll builds. That cache reads the store's status for the event, which is also the status the toast names. |
| Sync.PushedStatus | server.js:720-746 | A registered student receiving the event-room broadcast gets the toast for the status the store resolves. The handler returns with an empty cache, and after the refetch the cache reads back that status. |
| Sync.PolledStatus | mobile-app/mobile.js:2225-2264 | The student's poll path reads back the status the store resolves for every registered event. |
| Sync.UnmarkedShownAbsent | mobile-app/mobile.js:1465-1468 | For a registered student with no check-in and no mark, the My Events card as written shows Absent on the cache the poll builds. The corrected card shows Not Marked. |
| Sync.CardMatchesAdminBadge | admin-portal/admin.js:1582-1591 | On the cache the poll builds, the corrected student card shows the same badge as the admin table row for the same store. |
| Sync.CompletionMeansAllMarked | admin-portal/admin.js:1557-1577 | The completion indicator on an event's roster is on iff the event has registered students and each has a check-in or a mark. |
| Sync.AdminViewAfterBroadcast | admin-portal/admin.js:56-61 | On the admin-room broadcast, only the attendance view of that event redraws. It shows the no-students row iff nobody is registered, and the indicator iff everyone is marked. |
| Sync.ListingDistinct | server.js:276-294 | With distinct registration ids in the table, the listing shows each id once. |
| Sync.LocalVerifyMatchesServer | admin-portal/admin.js:856-860 | After a successful server verify, the admin's local edit of the listing it fetched matches the server's new listing row for row. The only difference is `verified_at`, which holds the portal's clock locally and the server's clock on the server. When the clocks agree the two lists are equal. |
| Sync.LocalDeleteMatchesServer | admin-portal/admin.js:903-906 | After a successful server delete, the admin's local edit of the listing it fetched equals the server's new listing, and the id has left the selection. |
| Sync.OfferedIffUnregistered | mobile-app/mobile.js:1043-1080 | Given the server's listing and a non-empty event list of existing events, an existing student is offered exactly the events they hold no registration for. |

## Findings

| source | as written | input that shows it | evidently intended | confidence | as-written member | corrected member |
|---|---|---|---|---|---|---|
| mobile-app/mobile.js:1465-1468 | The My Events card shows Present when the cached status is `attended`, and Absent for any other truthy status. | A registered student not yet marked: the roster row says `not_marked`, the cache holds `"not_marked"`, and the card reads Absent. | `not_marked` reads Not Marked, like the admin table's badge for the same row. | not executed | StudentClient.MyEventsBadgeAsWritten (with Sync.UnmarkedShownAbsent) | StudentClient.MyEventsBadge (with Sync.CardMatchesAdminBadge) |

## Left out

- Express routing, body parsing, static files and the SQLite driver. Tables are abstract maps and sequences; callbacks run in order.
- A store error other than a UNIQUE, NOT NULL or CHECK violation (the generic 500 on I/O failure). It is not part of the state logic.
- Foreign keys. SQLite does not enforce them here, so a registration or mark may name a missing student; the inner joins drop such rows, as modelled.
- Ties in `ORDER BY s.name`. SQLite leaves their order unspecified; the model breaks them by student id.
- Timestamps. `CURRENT_TIMESTAMP` and `new Date()` become a `now` parameter. The broadcast payload's `timestamp` field and the `submitted_at DESC` ordering of feedback listings are not modelled.
- `GET /api/attendance/:eventId` and `GET /api/feedback/:eventId`. They are read-only listings beside the roster and feedback listings that are modelled.
- Event, student and institute CRUD, analytics with floating-point percentages, the event-type classifier, schema migration and orphan cleanup. None of them affect the attendance state.
- socket.io transport: connections, `join-event` and `join-admin` room bookkeeping. Delivery is the outbox read per room.
- The interleaving of the push handler's refetch with other events. `StudentClient.AfterPush` takes the cache once the refetch has finished; what other code sees while it is in flight (an empty or partly rebuilt cache) is not modelled beyond the empty cache the handler returns with.
- Timers, `Promise.all` and async interleaving between the two clients.
- DOM rendering, toast text for titles, `alert` and `confirm` dialogs. The model assumes every confirmation is accepted.
- StudentClient.LoadEvents: the events fetch is assumed to succeed; if it throws, the handler only logs.
- Registrations.DeleteAll: the reply lists rows in table order. The SELECT has no ORDER BY, so SQLite may list them in another order; `registered_at` is not a modelled column.
- Ties in `ORDER BY registered_at DESC`. The listing lists the table backwards, which is that order when timestamps never decrease; rows registered in the same second may come back in another order.
- Sync.LocalVerifyMatchesServer: both clocks are the abstract `Time`; the text formats of `new Date().toISOString()` and `CURRENT_TIMESTAMP` differ as well, and that difference is not modelled.
- AdminClient.VerifySelectedLocal, AdminClient.DeleteSelectedLocal: the number of failed requests is a parameter, since the requests themselves are I/O.
- StudentClient.CollectComplete: states the cache only for polls in which no fetch throws. With a throw, only `StudentClient.CollectSound` applies: every entry kept is still correct.
