/**
 * The reconciliation logic of the student app (mobile-app/mobile.js): the
 * `attendance-updated` handler, the polling rebuild `loadAttendanceData`,
 * `getAttendanceStatus`, the registration change detectors
 * `checkForChanges` and `checkForRemovedRegistrations`, and the
 * registration filters of `loadEvents` / `loadMyEvents`. The session's
 * globals become explicit arguments and results.
 */
module StudentClient {

  import opened Basics
  import opened Wire
  import opened Seqs

  /** One element of the `attendanceData` cache. */
  datatype Entry = Entry(eventId: int, status: string)

  /** A toast the app shows. */
  datatype Notification = Success(text: string) | Warning(text: string)

  /** `rows.find(att => att.id == id)`. */
  function FindRow(rows: seq<RowJson>, id: int): (r: Option<RowJson>)
    ensures r.None? <==> forall i :: 0 <= i < |rows| ==> rows[i].id != id
    ensures r.Some? ==> exists i :: 0 <= i < |rows| && rows[i] == r.value && r.value.id == id
                          && forall j :: 0 <= j < i ==> rows[j].id != id
    decreases |rows|
  {
    if rows == [] then None
    else if rows[0].id == id then Some(rows[0])
    else
      var r := FindRow(rows[1..], id);
      if r.Some? then
        var i :| 0 <= i < |rows[1..]| && rows[1..][i] == r.value && r.value.id == id
                 && forall j :: 0 <= j < i ==> rows[1..][j].id != id;
        assert rows[i + 1] == r.value;
        r
      else r
  }

  /** `attendanceData.findIndex(att => att.event_id == eventId)`. */
  function IndexOf(cache: seq<Entry>, event: int): (r: Option<nat>)
    ensures r.None? <==> forall i :: 0 <= i < |cache| ==> cache[i].eventId != event
    ensures r.Some? ==> r.value < |cache| && cache[r.value].eventId == event
                        && forall j :: 0 <= j < r.value ==> cache[j].eventId != event
    decreases |cache|
  {
    if cache == [] then None
    else if cache[0].eventId == event then Some(0)
    else match IndexOf(cache[1..], event)
      case None => None
      case Some(k) => Some(k + 1)
  }

  /** `getAttendanceStatus`: the first cached status for the event, or null. */
  function GetAttendanceStatus(cache: seq<Entry>, event: int): Option<string> {
    match IndexOf(cache, event)
    case None => None
    case Some(i) => Some(cache[i].status)
  }

  predicate AtMostOnePerEvent(cache: seq<Entry>) {
    forall i, j :: 0 <= i < j < |cache| ==> cache[i].eventId != cache[j].eventId
  }

  /** The entries for other events, in order. */
  function Others(cache: seq<Entry>, event: int): seq<Entry> {
    Filter(cache, (x: Entry) => x.eventId != event)
  }

  /** The toast for a status seen in a pushed snapshot. */
  function AttendanceNotice(status: string): (r: Option<Notification>)
    ensures r.Some? <==> status == "attended" || status == "absent"
    ensures r.Some? ==> (r.value.Success? <==> status == "attended")
  {
    if status == "attended" then Some(Success("Your attendance has been marked as present!"))
    else if status == "absent" then Some(Warning("Your attendance has been marked as absent."))
    else None
  }

  /**
   * What the push handler leaves: the cache it logs after its upsert, the
   * cache when it returns, whether a refetch is still pending, and the
   * toast it showed.
   */
  datatype Reaction = Reaction(upserted: seq<Entry>, cache: seq<Entry>, refetch: bool,
                               notice: Option<Notification>)

  /** `entry` is in the cache and no other entry is for its event. */
  predicate HoldsOnce(cache: seq<Entry>, entry: Entry) {
    exists i :: 0 <= i < |cache| && cache[i] == entry
      && forall j :: 0 <= j < |cache| && j != i ==> cache[j].eventId != entry.eventId
  }

  /** The handler's cache write: overwrite the event's first entry in place, or append. */
  function Upsert(cache: seq<Entry>, entry: Entry): seq<Entry> {
    match IndexOf(cache, entry.eventId)
    case Some(i) => cache[i := entry]
    case None => cache + [entry]
  }

  /**
   * After the write the event reads back the new status, every other
   * event's entries are untouched, and a cache with one entry per event
   * keeps that shape with the new entry as the event's only one.
   */
  lemma UpsertSpec(cache: seq<Entry>, entry: Entry)
    ensures GetAttendanceStatus(Upsert(cache, entry), entry.eventId) == Some(entry.status)
    ensures Others(Upsert(cache, entry), entry.eventId) == Others(cache, entry.eventId)
    ensures forall e :: e != entry.eventId ==>
              GetAttendanceStatus(Upsert(cache, entry), e) == GetAttendanceStatus(cache, e)
    ensures AtMostOnePerEvent(cache) ==>
              AtMostOnePerEvent(Upsert(cache, entry)) && HoldsOnce(Upsert(cache, entry), entry)
  {
    match IndexOf(cache, entry.eventId)
    case Some(i) =>
      UpsertInPlace(cache, i, entry);
    case None =>
      UpsertAppend(cache, entry);
  }

  lemma UpsertInPlace(cache: seq<Entry>, i: nat, entry: Entry)
    requires IndexOf(cache, entry.eventId) == Some(i)
    ensures GetAttendanceStatus(cache[i := entry], entry.eventId) == Some(entry.status)
    ensures Others(cache[i := entry], entry.eventId) == Others(cache, entry.eventId)
    ensures forall e :: e != entry.eventId ==>
              GetAttendanceStatus(cache[i := entry], e) == GetAttendanceStatus(cache, e)
    ensures AtMostOnePerEvent(cache) ==>
              AtMostOnePerEvent(cache[i := entry]) && HoldsOnce(cache[i := entry], entry)
  {
    var e := entry.eventId;
    var c := cache[i := entry];
    FilterUpdate(cache, i, entry, (x: Entry) => x.eventId != e);
    forall e' | e' != e
      ensures IndexOf(c, e') == IndexOf(cache, e')
    {
      IndexAfterUpdate(cache, i, entry, e');
    }
    assert c[i] == entry;
    assert forall j :: 0 <= j < i ==> c[j] == cache[j];
    if AtMostOnePerEvent(cache) {
      assert forall j :: 0 <= j < |c| && j != i ==> c[j] == cache[j];
    }
  }

  lemma UpsertAppend(cache: seq<Entry>, entry: Entry)
    requires IndexOf(cache, entry.eventId).None?
    ensures GetAttendanceStatus(cache + [entry], entry.eventId) == Some(entry.status)
    ensures Others(cache + [entry], entry.eventId) == Others(cache, entry.eventId)
    ensures forall e :: e != entry.eventId ==>
              GetAttendanceStatus(cache + [entry], e) == GetAttendanceStatus(cache, e)
    ensures AtMostOnePerEvent(cache) ==>
              AtMostOnePerEvent(cache + [entry]) && HoldsOnce(cache + [entry], entry)
  {
    var e := entry.eventId;
    var c := cache + [entry];
    FilterAppend(cache, [entry], (x: Entry) => x.eventId != e);
    forall e' | e' != e
      ensures IndexOf(c, e') == IndexOf(cache, e')
    {
      IndexAfterAppend(cache, entry, e');
    }
    assert c[|cache|] == entry;
    assert forall j :: 0 <= j < |cache| ==> c[j] == cache[j];
  }

  /**
   * The `attendance-updated` handler. With a logged-in student whose row is
   * in the snapshot, the event's entry is overwritten in place (or
   * appended) with the row's status, and the toast follows the status.
   * The handler then calls `loadAttendanceData`, whose body runs up to its
   * first `await` before the call returns. That prefix empties the cache,
   * so the upserted cache is only logged and the handler returns with an
   * empty cache and the refetch pending. Otherwise nothing changes and
   * nothing is shown. It notifies on every snapshot that shows the student
   * attended or absent, changed or not.
   */
  function OnAttendanceUpdated(me: Option<int>, cache: seq<Entry>, snap: Snapshot): (r: Reaction)
    ensures !Truthy(me) || FindRow(snap.attendanceData, me.value).None? ==>
              r == Reaction(cache, cache, false, None)
    ensures Truthy(me) && FindRow(snap.attendanceData, me.value).Some? ==>
              var status := FindRow(snap.attendanceData, me.value).value.status;
              && r.cache == [] && r.refetch
              && GetAttendanceStatus(r.upserted, snap.eventId) == Some(status)
              && Others(r.upserted, snap.eventId) == Others(cache, snap.eventId)
              && (forall e :: e != snap.eventId ==>
                    GetAttendanceStatus(r.upserted, e) == GetAttendanceStatus(cache, e))
              && (AtMostOnePerEvent(cache) ==>
                    AtMostOnePerEvent(r.upserted) && HoldsOnce(r.upserted, Entry(snap.eventId, status)))
              && r.notice == AttendanceNotice(status)
  {
    if !Truthy(me) then Reaction(cache, cache, false, None)
    else match FindRow(snap.attendanceData, me.value)
      case None => Reaction(cache, cache, false, None)
      case Some(row) =>
        var entry := Entry(snap.eventId, row.status);
        UpsertSpec(cache, entry);
        Reaction(Upsert(cache, entry), [], true, AttendanceNotice(row.status))
  }

  /**
   * The cache once the handler's refetch has finished against `fetch`,
   * with `myRegs` the student's registrations at that time.
   */
  function AfterPush(me: Option<int>, cache: seq<Entry>, snap: Snapshot, myRegs: seq<RegJson>,
                     fetch: int -> Fetch): seq<Entry>
  {
    var r := OnAttendanceUpdated(me, cache, snap);
    if r.refetch then LoadAttendanceData(me, r.cache, myRegs, fetch) else r.cache
  }

  /**
   * A push that finds the student ends in exactly the cache a poll builds
   * from the same fetches, whatever either cache held before; the pushed
   * status itself is discarded. A push that does not find the student
   * changes nothing.
   */
  lemma PushEndsInPoll(me: Option<int>, cache: seq<Entry>, cache': seq<Entry>, snap: Snapshot,
                       myRegs: seq<RegJson>, fetch: int -> Fetch)
    ensures Truthy(me) && FindRow(snap.attendanceData, me.value).Some? ==>
              AfterPush(me, cache, snap, myRegs, fetch) == LoadAttendanceData(me, cache', myRegs, fetch)
    ensures !(Truthy(me) && FindRow(snap.attendanceData, me.value).Some?) ==>
              AfterPush(me, cache, snap, myRegs, fetch) == cache
  {
  }

  lemma {:induction false} IndexAfterUpdate(cache: seq<Entry>, i: nat, entry: Entry, e: int)
    requires i < |cache| && cache[i].eventId == entry.eventId && entry.eventId != e
    ensures IndexOf(cache[i := entry], e) == IndexOf(cache, e)
    decreases |cache|
  {
    if i > 0 {
      assert cache[i := entry][1..] == cache[1..][i - 1 := entry];
      IndexAfterUpdate(cache[1..], i - 1, entry, e);
    }
  }

  lemma {:induction false} IndexAfterAppend(cache: seq<Entry>, entry: Entry, e: int)
    requires entry.eventId != e
    ensures IndexOf(cache + [entry], e) == IndexOf(cache, e)
    decreases |cache|
  {
    if cache != [] {
      assert (cache + [entry])[1..] == cache[1..] + [entry];
      IndexAfterAppend(cache[1..], entry, e);
    }
  }

  /** What one `fetch('/api/attendance/event/<id>')` of the poll gives. */
  datatype Fetch = Fetched(rows: seq<RowJson>) | NotOk | Thrown

  /**
   * The loop of `loadAttendanceData` from an empty cache: one entry per
   * event whose fetch succeeded and listed the student; a non-ok response
   * is skipped and a thrown fetch ends the loop, keeping what was built.
   */
  function Collect(me: int, events: seq<int>, fetch: int -> Fetch): seq<Entry>
    decreases |events|
  {
    if events == [] then []
    else match fetch(events[0])
      case Thrown => []
      case NotOk => Collect(me, events[1..], fetch)
      case Fetched(rows) =>
        (match FindRow(rows, me)
         case None => []
         case Some(row) => [Entry(events[0], row.status)])
        + Collect(me, events[1..], fetch)
  }

  function EventIds(regs: seq<RegJson>): (r: seq<int>)
    ensures |r| == |regs| && forall i :: 0 <= i < |regs| ==> r[i] == regs[i].eventId
  {
    seq(|regs|, i requires 0 <= i < |regs| => regs[i].eventId)
  }

  /** `loadAttendanceData`: without a student nothing happens; otherwise the cache is rebuilt. */
  function LoadAttendanceData(me: Option<int>, cache: seq<Entry>, myRegs: seq<RegJson>,
                              fetch: int -> Fetch): seq<Entry>
  {
    if me.None? then cache else Collect(me.value, EventIds(myRegs), fetch)
  }

  /** The status the poll reads for an event from its fetch. */
  function Polled(me: int, f: Fetch): Option<string> {
    if f.Fetched? && FindRow(f.rows, me).Some? then Some(FindRow(f.rows, me).value.status) else None
  }

  /** Every rebuilt entry is for one of the given events, with the status its fetch reported. */
  lemma {:induction false} CollectSound(me: int, events: seq<int>, fetch: int -> Fetch)
    ensures forall x :: x in Collect(me, events, fetch) ==>
              x.eventId in events && Polled(me, fetch(x.eventId)) == Some(x.status)
    decreases |events|
  {
    if events != [] {
      CollectSound(me, events[1..], fetch);
      assert forall e :: e in events[1..] ==> e in events;
    }
  }

  predicate Distinct(events: seq<int>) {
    forall i, j :: 0 <= i < j < |events| ==> events[i] != events[j]
  }

  lemma DistinctTail(events: seq<int>)
    requires events != [] && Distinct(events)
    ensures Distinct(events[1..]) && events[0] !in events[1..]
  {
    var tail := events[1..];
    forall i, j | 0 <= i < j < |tail|
      ensures tail[i] != tail[j]
    {
      assert tail[i] == events[i + 1] && tail[j] == events[j + 1];
    }
    forall k | 0 <= k < |tail|
      ensures tail[k] != events[0]
    {
      assert tail[k] == events[k + 1];
    }
  }

  /** With distinct events the rebuilt cache has at most one entry per event. */
  lemma {:induction false} CollectAtMostOne(me: int, events: seq<int>, fetch: int -> Fetch)
    requires Distinct(events)
    ensures AtMostOnePerEvent(Collect(me, events, fetch))
    decreases |events|
  {
    if events != [] {
      var tail := events[1..];
      DistinctTail(events);
      CollectAtMostOne(me, tail, fetch);
      CollectSound(me, tail, fetch);
      var rest := Collect(me, tail, fetch);
      var r := Collect(me, events, fetch);
      if Polled(me, fetch(events[0])).Some? {
        assert r == [Entry(events[0], Polled(me, fetch(events[0])).value)] + rest;
        forall i, j | 0 <= i < j < |r|
          ensures r[i].eventId != r[j].eventId
        {
          assert r[j] == rest[j - 1] && r[j] in rest;
          if i > 0 {
            assert r[i] == rest[i - 1];
          }
        }
      } else if fetch(events[0]).Fetched? {
        assert r == [] + rest;
      }
    }
  }

  /**
   * When no fetch throws and the events are distinct, each event's cached
   * status is exactly what its fetch reported (null when it listed no row
   * for the student or failed).
   */
  lemma {:induction false} CollectComplete(me: int, events: seq<int>, fetch: int -> Fetch)
    requires Distinct(events)
    requires forall e :: e in events ==> !fetch(e).Thrown?
    ensures forall e :: e in events ==>
              GetAttendanceStatus(Collect(me, events, fetch), e) == Polled(me, fetch(e))
    decreases |events|
  {
    if events != [] {
      var tail := events[1..];
      DistinctTail(events);
      assert forall e :: e in tail ==> e in events;
      CollectComplete(me, tail, fetch);
      CollectSound(me, tail, fetch);
      var rest := Collect(me, tail, fetch);
      var r := Collect(me, events, fetch);
      var head := events[0];
      if Polled(me, fetch(head)).Some? {
        assert r == [Entry(head, Polled(me, fetch(head)).value)] + rest;
        forall e | e in tail
          ensures GetAttendanceStatus(r, e) == GetAttendanceStatus(rest, e)
        {
          assert r[1..] == rest;
        }
      } else {
        assert r == rest by {
          if fetch(head).Fetched? {
            assert r == [] + rest;
          }
        }
        assert forall k :: 0 <= k < |rest| ==> rest[k] in rest;
      }
      forall e | e in events
        ensures GetAttendanceStatus(r, e) == Polled(me, fetch(e))
      {
        if e != head {
          assert e in tail;
        }
      }
    }
  }

  /** A registration's identity for `checkForChanges`: `(id, event_id)`. */
  function Key(r: RegJson): (int, int) {
    (r.id, r.eventId)
  }

  function Keys(regs: seq<RegJson>): set<(int, int)> {
    set r | r in regs :: Key(r)
  }

  /** The current registrations with no previous entry of equal `(id, event_id)`. */
  function NewRegistrations(prev: seq<RegJson>, curr: seq<RegJson>): seq<RegJson> {
    Filter(curr, (c: RegJson) => Key(c) !in Keys(prev))
  }

  /** The first previous registration for the event. */
  function FirstForEvent(prev: seq<RegJson>, event: int): Option<RegJson>
    decreases |prev|
  {
    if prev == [] then None
    else if prev[0].eventId == event then Some(prev[0])
    else FirstForEvent(prev[1..], event)
  }

  /** The previous registration for the event was unverified and the current one is verified. */
  predicate BecameVerified(prev: seq<RegJson>, c: RegJson) {
    var p := FirstForEvent(prev, c.eventId);
    p.Some? && !IsVerified(p.value.verified) && IsVerified(c.verified)
  }

  /** One verification toast per current registration that became verified, in order. */
  function VerifiedEvents(prev: seq<RegJson>, curr: seq<RegJson>): seq<int> {
    var changed := Filter(curr, (c: RegJson) => BecameVerified(prev, c));
    seq(|changed|, i requires 0 <= i < |changed| => changed[i].eventId)
  }

  /** The toasts `checkForChanges` shows: a count of new registrations and the newly verified events. */
  datatype Changes = Changes(newCount: Option<nat>, verifiedEvents: seq<int>)

  /**
   * `checkForChanges`: without a student nothing; the count toast only
   * when the list grew and some entry is new.
   */
  function CheckForChanges(me: Option<int>, prev: seq<RegJson>, curr: seq<RegJson>): (r: Changes)
    ensures !Truthy(me) ==> r == Changes(None, [])
    ensures r.newCount.Some? <==>
              Truthy(me) && |curr| > |prev| && exists c :: c in curr && Key(c) !in Keys(prev)
    ensures r.newCount.Some? ==> r.newCount.value == |NewRegistrations(prev, curr)| > 0
    ensures Truthy(me) ==>
              forall e :: e in r.verifiedEvents <==> exists c :: c in curr && c.eventId == e && BecameVerified(prev, c)
  {
    if !Truthy(me) then Changes(None, [])
    else
      var added := NewRegistrations(prev, curr);
      FilterSpec(curr, (c: RegJson) => Key(c) !in Keys(prev));
      FilterSpec(curr, (c: RegJson) => BecameVerified(prev, c));
      assert (exists c :: c in curr && Key(c) !in Keys(prev)) <==> |added| > 0 by {
        if exists c :: c in curr && Key(c) !in Keys(prev) {
          var c :| c in curr && Key(c) !in Keys(prev);
          assert c in added;
        }
        if |added| > 0 {
          assert added[0] in added;
        }
      }
      var changed := Filter(curr, (c: RegJson) => BecameVerified(prev, c));
      var events := VerifiedEvents(prev, curr);
      assert forall e :: e in events <==> exists c :: c in changed && c.eventId == e by {
        forall e | e in events
          ensures exists c :: c in changed && c.eventId == e
        {
          var i :| 0 <= i < |events| && events[i] == e;
          assert changed[i] in changed;
        }
        forall e | exists c :: c in changed && c.eventId == e
          ensures e in events
        {
          var c :| c in changed && c.eventId == e;
          var i :| 0 <= i < |changed| && changed[i] == c;
          assert events[i] == e;
        }
      }
      Changes(if |curr| > |prev| && |added| > 0 then Some(|added|) else None, events)
  }

  /**
   * `checkForRemovedRegistrations`: only when the list shrank, the
   * previous registrations whose event no current registration has.
   */
  function RemovedRegistrations(me: Option<int>, prev: seq<RegJson>, curr: seq<RegJson>)
    : (r: Option<seq<RegJson>>)
    ensures r.Some? ==> Truthy(me) && |curr| < |prev| && r.value != []
    ensures r.Some? ==> IsSubsequence(r.value, prev)
    ensures Truthy(me) && |curr| < |prev| ==>
              forall p :: (r.Some? && p in r.value) <==>
                p in prev && forall c :: c in curr ==> c.eventId != p.eventId
  {
    if !Truthy(me) || |curr| >= |prev| then None
    else
      var keep := (p: RegJson) => forall c :: c in curr ==> c.eventId != p.eventId;
      var gone := Filter(prev, keep);
      FilterSpec(prev, keep);
      if gone == [] then None else Some(gone)
  }

  /** `myRegistrations`: the rows whose `student_id` is the student's. */
  function MyRegistrations(all: seq<RegJson>, me: int): seq<RegJson> {
    Filter(all, (r: RegJson) => r.studentId == me)
  }

  /** The events the Events tab offers: those none of `mine` is for. */
  function UnregisteredEvents(events: seq<EventJson>, mine: seq<RegJson>): seq<EventJson> {
    Filter(events, (e: EventJson) => forall r :: r in mine ==> r.eventId != e.id)
  }

  /**
   * `loadEvents` once the events fetch succeeds: the registrations it
   * keeps for the student and the events it shows. An empty event list
   * returns early and leaves the previous registrations in place. The
   * registration fetch is `None` when it throws (or its reply is not a
   * list); the catch clears the registrations, and so does a missing id.
   */
  function LoadEvents(me: Option<int>, prev: seq<RegJson>, events: seq<EventJson>,
                      fetched: Option<seq<RegJson>>)
    : (r: (seq<RegJson>, seq<EventJson>))
    ensures events == [] ==> r == (prev, [])
    ensures events != [] && Truthy(me) && fetched.Some? ==>
              (forall x :: x in r.0 <==> x in fetched.value && x.studentId == me.value)
              && IsSubsequence(r.0, fetched.value)
    ensures events != [] && !(Truthy(me) && fetched.Some?) ==> r == ([], events)
    ensures IsSubsequence(r.1, events)
    ensures events != [] ==>
              forall e :: e in r.1 <==>
                e in events
                && !(Truthy(me) && fetched.Some?
                     && exists x :: x in fetched.value && x.studentId == me.value && x.eventId == e.id)
  {
    if events == [] then (prev, [])
    else
      var mine := if Truthy(me) && fetched.Some? then MyRegistrations(fetched.value, me.value) else [];
      var shows := (e: EventJson) => forall r :: r in mine ==> r.eventId != e.id;
      var shown := UnregisteredEvents(events, mine);
      FilterSpec(events, shows);
      if Truthy(me) && fetched.Some? then
        FilterSpec(fetched.value, (r: RegJson) => r.studentId == me.value);
        (mine, shown)
      else
        FilterAll(events, shows);
        (mine, shown)
  }

  predicate DistinctKeys(regs: seq<RegJson>) {
    forall i, j :: 0 <= i < j < |regs| ==> Key(regs[i]) != Key(regs[j])
  }

  lemma {:induction false} KeysBound(regs: seq<RegJson>)
    ensures |Keys(regs)| <= |regs|
    ensures DistinctKeys(regs) ==> |Keys(regs)| == |regs|
    decreases |regs|
  {
    if regs != [] {
      var tail := regs[1..];
      KeysBound(tail);
      assert Keys(regs) == {Key(regs[0])} + Keys(tail) by {
        assert forall r :: r in regs <==> r == regs[0] || r in tail;
      }
      if DistinctKeys(regs) {
        assert DistinctKeys(tail) by {
          forall i, j | 0 <= i < j < |tail|
            ensures Key(tail[i]) != Key(tail[j])
          {
            assert tail[i] == regs[i + 1] && tail[j] == regs[j + 1];
          }
        }
        assert Key(regs[0]) !in Keys(tail) by {
          forall r | r in tail
            ensures Key(r) != Key(regs[0])
          {
            var k :| 0 <= k < |tail| && tail[k] == r;
            assert r == regs[k + 1];
          }
        }
      }
    }
  }

  /**
   * A list that grew while its `(id, event_id)` pairs stayed distinct
   * always has a new entry, so the count notice fires, and it counts at
   * least the growth.
   */
  lemma GrowthIsNoticed(me: Option<int>, prev: seq<RegJson>, curr: seq<RegJson>)
    requires Truthy(me) && |curr| > |prev| && DistinctKeys(curr)
    ensures CheckForChanges(me, prev, curr).newCount.Some?
    ensures CheckForChanges(me, prev, curr).newCount.value >= |curr| - |prev|
  {
    KeysBound(prev);
    KeysBound(curr);
    var added := NewRegistrations(prev, curr);
    KeysBound(added);
    FilterSpec(curr, (c: RegJson) => Key(c) !in Keys(prev));
    assert Keys(curr) <= Keys(prev) + Keys(added) by {
      forall k | k in Keys(curr)
        ensures k in Keys(prev) + Keys(added)
      {
        var c :| c in curr && Key(c) == k;
        if k !in Keys(prev) {
          assert c in added;
        }
      }
    }
    CardinalityOfUnion(Keys(curr), Keys(prev), Keys(added));
  }

  lemma CardinalityOfUnion<T>(s: set<T>, a: set<T>, b: set<T>)
    requires s <= a + b
    ensures |s| <= |a| + |b|
  {
    assert |a + b| <= |a| + |b| by {
      assert a + b == a + (b - a);
      assert |b - a| <= |b| by {
        assert b - a <= b;
      }
    }
    Subset(s, a + b);
  }

  lemma Subset<T>(s: set<T>, t: set<T>)
    requires s <= t
    ensures |s| <= |t|
  {
    assert t == s + (t - s);
  }

  /**
   * Polling the same list twice shows no toast when each event appears
   * once, as it does for one student's registrations.
   */
  lemma {:induction false} UnchangedListIsQuiet(me: Option<int>, regs: seq<RegJson>)
    requires forall i, j :: 0 <= i < j < |regs| ==> regs[i].eventId != regs[j].eventId
    ensures CheckForChanges(me, regs, regs) == Changes(None, [])
  {
    var r := CheckForChanges(me, regs, regs);
    if Truthy(me) {
      forall c | c in regs
        ensures !BecameVerified(regs, c)
      {
        var k :| 0 <= k < |regs| && regs[k] == c;
        FirstForEventIs(regs, k);
      }
      FilterNone(regs, (c: RegJson) => BecameVerified(regs, c));
    }
  }

  lemma {:induction false} FirstForEventIs(regs: seq<RegJson>, k: nat)
    requires k < |regs|
    requires forall i, j :: 0 <= i < j < |regs| ==> regs[i].eventId != regs[j].eventId
    ensures FirstForEvent(regs, regs[k].eventId) == Some(regs[k])
    decreases |regs|
  {
    if k > 0 {
      assert regs[0].eventId != regs[k].eventId;
      var tail := regs[1..];
      assert tail[k - 1] == regs[k];
      forall i, j | 0 <= i < j < |tail|
        ensures tail[i].eventId != tail[j].eventId
      {
        assert tail[i] == regs[i + 1] && tail[j] == regs[j + 1];
      }
      FirstForEventIs(tail, k - 1);
    }
  }

  /**
   * The attendance badge on a My Events card as written: any truthy
   * status other than `attended` reads Absent, so `not_marked` does too.
   */
  function MyEventsBadgeAsWritten(status: Option<string>): (b: Badge)
    ensures b == NotMarkedBadge <==> status.None? || status.value == ""
    ensures b == AttendedBadge <==> status == Some("attended")
  {
    if status.Some? && status.value != "" then
      (if status.value == "attended" then AttendedBadge else AbsentBadge)
    else NotMarkedBadge
  }

  /** The evident intent: the badge the admin table shows for the same status. */
  function MyEventsBadge(status: Option<string>): (b: Badge)
    ensures b == AttendedBadge <==> status == Some("attended")
    ensures b == AbsentBadge <==> status == Some("absent")
    ensures status.Some? ==> b == StatusBadge(status.value)
  {
    if status.Some? then StatusBadge(status.value) else NotMarkedBadge
  }

  /** The two badges part exactly on truthy statuses that are neither attended nor absent. */
  lemma BadgesDisagree(status: Option<string>)
    ensures MyEventsBadgeAsWritten(status) != MyEventsBadge(status) <==>
              status.Some? && status.value !in {"", "attended", "absent"}
  {
  }
}
