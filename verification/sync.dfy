/**
 * How the server and the two clients fit together: the student's push
 * path (`attendance-updated` and the refetch it starts) ends where the
 * poll path (`loadAttendanceData`) does, the admin's completion indicator
 * tracks the attendance tables, and the admin's local cache edits after
 * verify and delete match what the server did.
 */
module Sync {

  import opened Basics
  import opened Tables
  import opened Resolver
  import Attendance
  import Registrations
  import opened Wire
  import StudentClient
  import AdminClient

  /** The roster JSON of an event, as `GET /api/attendance/event/:eventId` and the broadcasts carry it. */
  function RosterJson(db: Db, event: int): seq<RowJson> {
    RowsToJson(Roster(db, event))
  }

  /** A registered student finds exactly their resolved row in the roster JSON; anyone else finds none. */
  lemma {:induction false} StudentRow(db: Db, me: int, event: int)
    requires Valid(db)
    ensures me in db.students && IsRegistered(db, Pair(me, event)) ==>
              StudentClient.FindRow(RosterJson(db, event), me) == Some(RowToJson(RowOf(db, me, event)))
    ensures !(me in db.students && IsRegistered(db, Pair(me, event))) ==>
              StudentClient.FindRow(RosterJson(db, event), me).None?
  {
    var rows := Roster(db, event);
    var json := RosterJson(db, event);
    RosterSpec(db, event);
    OnRosterIffRegistered(db, event, me);
    var found := StudentClient.FindRow(json, me);
    if me in db.students && IsRegistered(db, Pair(me, event)) {
      var y :| y in rows && y.id == me;
      var k :| 0 <= k < |rows| && rows[k] == y;
      assert json[k].id == me;
      var i :| 0 <= i < |json| && json[i] == found.value && found.value.id == me;
      assert rows[i] in rows;
    } else {
      forall i | 0 <= i < |json|
        ensures json[i].id != me
      {
        assert rows[i] in rows;
      }
    }
  }

  /** The status text the store resolves for the pair. */
  function StoredStatus(db: Db, me: int, event: int): string {
    StatusText(StatusOf(db, Pair(me, event)))
  }

  /** The poll's fetch when every request succeeds against the store. */
  function Live(db: Db): int -> StudentClient.Fetch {
    (e: int) => StudentClient.Fetched(RosterJson(db, e))
  }

  /**
   * Poll: rebuilding from the student's registrations against the same
   * store reads back the status the store resolves for each registered event.
   */
  lemma PolledStatus(db: Db, me: int, event: int, cache: seq<StudentClient.Entry>, mine: seq<RegJson>)
    requires Valid(db) && me in db.students && IsRegistered(db, Pair(me, event))
    requires StudentClient.Distinct(StudentClient.EventIds(mine)) && event in StudentClient.EventIds(mine)
    ensures StudentClient.GetAttendanceStatus(
              StudentClient.LoadAttendanceData(Some(me), cache, mine, Live(db)), event)
            == Some(StoredStatus(db, me, event))
  {
    StudentClient.CollectComplete(me, StudentClient.EventIds(mine), Live(db));
    StudentRow(db, me, event);
  }

  /**
   * Push: a registered student receiving the `event-<id>` broadcast gets
   * the toast for the status the store resolves. The handler returns with
   * an empty cache, and once its refetch against the same store finishes
   * the cache reads back that same status.
   */
  lemma PushedStatus(db: Db, me: int, event: int, cache: seq<StudentClient.Entry>, mine: seq<RegJson>)
    requires Valid(db) && me != 0 && me in db.students && IsRegistered(db, Pair(me, event))
    requires StudentClient.Distinct(StudentClient.EventIds(mine)) && event in StudentClient.EventIds(mine)
    ensures var m := Attendance.Broadcast(db, event)[0];
            var r := StudentClient.OnAttendanceUpdated(Some(me), cache, SnapshotOf(m));
            && m.room == Attendance.EventRoom(event)
            && r.cache == [] && r.refetch
            && r.notice == StudentClient.AttendanceNotice(StoredStatus(db, me, event))
            && StudentClient.GetAttendanceStatus(
                 StudentClient.AfterPush(Some(me), cache, SnapshotOf(m), mine, Live(db)), event)
               == Some(StoredStatus(db, me, event))
  {
    StudentRow(db, me, event);
    PolledStatus(db, me, event, [], mine);
  }

  /**
   * Push and poll agree: after the broadcast and its refetch the student
   * holds exactly the cache a poll of the same store builds, whatever
   * either started from, and the toast names the status that cache holds.
   */
  lemma PushAndPollAgree(db: Db, me: int, event: int, cache: seq<StudentClient.Entry>,
                         cache': seq<StudentClient.Entry>, mine: seq<RegJson>)
    requires Valid(db) && me != 0 && me in db.students && IsRegistered(db, Pair(me, event))
    requires StudentClient.Distinct(StudentClient.EventIds(mine)) && event in StudentClient.EventIds(mine)
    ensures var snap := SnapshotOf(Attendance.Broadcast(db, event)[0]);
            var pushed := StudentClient.AfterPush(Some(me), cache, snap, mine, Live(db));
            var polled := StudentClient.LoadAttendanceData(Some(me), cache', mine, Live(db));
            && pushed == polled
            && StudentClient.GetAttendanceStatus(polled, event) == Some(StoredStatus(db, me, event))
            && StudentClient.OnAttendanceUpdated(Some(me), cache, snap).notice
               == StudentClient.AttendanceNotice(StoredStatus(db, me, event))
  {
    var snap := SnapshotOf(Attendance.Broadcast(db, event)[0]);
    StudentRow(db, me, event);
    StudentClient.PushEndsInPoll(Some(me), cache, cache', snap, mine, Live(db));
    PushedStatus(db, me, event, cache, mine);
    PolledStatus(db, me, event, cache', mine);
  }

  /**
   * The My Events badge as written shows Absent for a registered student
   * nobody has marked yet, on the cache the poll builds; the corrected
   * badge shows Not Marked.
   */
  lemma UnmarkedShownAbsent(db: Db, me: int, event: int, cache: seq<StudentClient.Entry>, mine: seq<RegJson>)
    requires Valid(db) && me in db.students && IsRegistered(db, Pair(me, event))
    requires StudentClient.Distinct(StudentClient.EventIds(mine)) && event in StudentClient.EventIds(mine)
    requires Pair(me, event) !in db.checkIns && Pair(me, event) !in db.marks
    ensures var shown := StudentClient.GetAttendanceStatus(
                           StudentClient.LoadAttendanceData(Some(me), cache, mine, Live(db)), event);
            && StudentClient.MyEventsBadgeAsWritten(shown) == AbsentBadge
            && StudentClient.MyEventsBadge(shown) == NotMarkedBadge
  {
    PolledStatus(db, me, event, cache, mine);
  }

  /**
   * On the cache the poll builds, the corrected My Events badge agrees
   * with the admin table's badge for the same store.
   */
  lemma CardMatchesAdminBadge(db: Db, me: int, event: int, cache: seq<StudentClient.Entry>, mine: seq<RegJson>)
    requires Valid(db) && me in db.students && IsRegistered(db, Pair(me, event))
    requires StudentClient.Distinct(StudentClient.EventIds(mine)) && event in StudentClient.EventIds(mine)
    ensures var shown := StudentClient.GetAttendanceStatus(
                           StudentClient.LoadAttendanceData(Some(me), cache, mine, Live(db)), event);
            var y := RowToJson(RowOf(db, me, event));
            && y in RosterJson(db, event)
            && StudentClient.MyEventsBadge(shown) == StatusBadge(y.status)
  {
    PolledStatus(db, me, event, cache, mine);
    StudentRow(db, me, event);
    var i :| 0 <= i < |RosterJson(db, event)| && RosterJson(db, event)[i] == RowToJson(RowOf(db, me, event))
             && RowToJson(RowOf(db, me, event)).id == me
             && forall j :: 0 <= j < i ==> RosterJson(db, event)[j].id != me;
  }

  /** Every registered student of the event has a check-in or a mark. */
  predicate AllMarked(db: Db, event: int) {
    forall s :: s in RegisteredStudents(db, event) ==>
      Pair(s, event) in db.checkIns || Pair(s, event) in db.marks
  }

  /**
   * The completion indicator on a roster from the store is on exactly
   * when the event has registered students and each has a check-in or a
   * mark.
   */
  lemma CompletionMeansAllMarked(db: Db, event: int)
    requires Valid(db)
    ensures AdminClient.Complete(RosterJson(db, event)) <==>
              RegisteredStudents(db, event) != {} && AllMarked(db, event)
  {
    var rows := Roster(db, event);
    var json := RosterJson(db, event);
    RosterSpec(db, event);
    forall y | y in rows
      ensures AdminClient.IsMarked(RowToJson(y)) <==>
                Pair(y.id, event) in db.checkIns || Pair(y.id, event) in db.marks
    {
      StatusPrecedence(db, Pair(y.id, event));
    }
    if AdminClient.Complete(json) {
      forall s | s in RegisteredStudents(db, event)
        ensures Pair(s, event) in db.checkIns || Pair(s, event) in db.marks
      {
        var y :| y in rows && y.id == s;
        var k :| 0 <= k < |rows| && rows[k] == y;
        assert json[k] == RowToJson(y);
      }
      assert rows[0] in rows && rows[0].id in Ids(rows);
    }
    if RegisteredStudents(db, event) != {} && AllMarked(db, event) {
      var s :| s in RegisteredStudents(db, event);
      var y :| y in rows && y.id == s;
      forall i | 0 <= i < |json|
        ensures AdminClient.IsMarked(json[i])
      {
        assert rows[i] in rows;
        assert rows[i].id in Ids(rows);
      }
    }
  }

  /**
   * An admin viewing the event in the attendance section redraws the
   * table from the `admin` broadcast, with the indicator tracking the
   * store; any other view leaves the page alone.
   */
  lemma AdminViewAfterBroadcast(db: Db, event: int, section: string, viewed: Option<int>)
    requires Valid(db) && event != 0
    ensures var m := Attendance.Broadcast(db, event)[1];
            var v := AdminClient.OnAttendanceUpdated(section, viewed, SnapshotOf(m));
            && m.room == Attendance.AdminRoom
            && (!(section == "attendance" && viewed == Some(event)) ==> v.Untouched?)
            && (section == "attendance" && viewed == Some(event) ==>
                  (v.NoStudents? <==> RegisteredStudents(db, event) == {})
                  && (v.Rendered? ==> (v.complete <==> AllMarked(db, event))))
  {
    RosterSpec(db, event);
    CompletionMeansAllMarked(db, event);
    var rows := Roster(db, event);
    if rows != [] {
      assert rows[0] in rows && rows[0].id in Ids(rows);
    } else {
      assert Ids(rows) == {};
    }
    if RegisteredStudents(db, event) != {} {
      var s :| s in RegisteredStudents(db, event);
      assert s in Ids(rows);
    }
    assert rows == [] <==> RegisteredStudents(db, event) == {};
  }

  /** Under the primary key the listing shows each registration id once. */
  lemma {:induction false} ListingDistinct(db: Db, regs: seq<Registration>)
    requires forall i, j :: 0 <= i < j < |regs| ==> regs[i].id != regs[j].id
    ensures AdminClient.DistinctRegIds(ListRows(db, regs))
    decreases |regs|
  {
    if regs != [] {
      var tail := regs[1..];
      ListingDistinct(db, tail);
      var rest := ListRows(db, tail);
      forall x | x in rest
        ensures x.id != regs[0].id
      {
        var reg :| reg in tail && Listed(db, reg) && RegToJson(reg) == x;
        var k :| 0 <= k < |tail| && tail[k] == reg;
        assert regs[k + 1] == reg;
      }
      var all := ListRows(db, regs);
      forall i, j | 0 <= i < j < |all|
        ensures all[i].id != all[j].id
      {
        if j >= |rest| {
          assert all[i] == rest[i];
          assert rest[i] in rest;
        } else {
          assert all[i] == rest[i] && all[j] == rest[j];
        }
      }
    }
  }

  /** Verifying a row in the table verifies the same row in the listing. */
  lemma {:induction false} ListRowsVerified(db: Db, regs: seq<Registration>, id: int, now: Time)
    ensures ListRows(db, Registrations.MarkVerified(regs, id, now))
            == AdminClient.MarkSet(ListRows(db, regs), {id}, now)
    decreases |regs|
  {
    if regs != [] {
      var marked := Registrations.MarkVerified(regs, id, now);
      ListRowsVerified(db, regs[1..], id, now);
      assert marked[1..] == Registrations.MarkVerified(regs[1..], id, now);
      var rest := ListRows(db, regs[1..]);
      var head := if Listed(db, regs[0]) then [RegToJson(regs[0])] else [];
      assert AdminClient.MarkSet(rest + head, {id}, now)
             == AdminClient.MarkSet(rest, {id}, now) + AdminClient.MarkSet(head, {id}, now);
    }
  }

  /**
   * After a successful verify, the admin's local edit of the listing it
   * fetched is the listing the server now sends, except for `verified_at`:
   * the portal stamps its own clock there and the server its
   * `CURRENT_TIMESTAMP`. When the two clocks agree the lists are equal.
   */
  lemma LocalVerifyMatchesServer(db: Db, id: int, clientNow: Time, serverNow: Time)
    requires Valid(db)
    ensures var r := Registrations.Verify(db, id, serverNow);
            var local := AdminClient.VerifyLocal(Listing(db), id, clientNow, true);
            var server := Listing(r.db);
            r.reply.Ok? ==>
              && |local| == |server|
              && (forall i :: 0 <= i < |local| ==>
                    && local[i].(verifiedAt := None) == server[i].(verifiedAt := None)
                    && (local[i].id != id ==> local[i] == server[i])
                    && (local[i].id == id ==>
                          IsVerified(server[i].verified)
                          && local[i].verifiedAt == Some(clientNow)
                          && server[i].verifiedAt == Some(serverNow)))
              && (clientNow == serverNow ==> local == server)
  {
    var r := Registrations.Verify(db, id, serverNow);
    if r.reply.Ok? {
      ListingDistinct(db, db.registrations);
      AdminClient.VerifyOneIsMarkSet(Listing(db), id, clientNow);
      ListRowsVerified(db, db.registrations, id, serverNow);
      ListRowsSameJoins(db, r.db, r.db.registrations);
    }
  }

  /** The listing depends on the store only through which students and events exist. */
  lemma {:induction false} ListRowsSameJoins(db: Db, db': Db, regs: seq<Registration>)
    requires db'.students == db.students && db'.events == db.events
    ensures ListRows(db', regs) == ListRows(db, regs)
    decreases |regs|
  {
    if regs != [] {
      ListRowsSameJoins(db, db', regs[1..]);
    }
  }

  /** No listed row carries an id the table does not hold. */
  lemma ListRowsWithoutAbsent(db: Db, regs: seq<Registration>, id: int)
    requires forall k :: 0 <= k < |regs| ==> regs[k].id != id
    ensures AdminClient.WithoutIds(ListRows(db, regs), {id}) == ListRows(db, regs)
  {
    var rows := ListRows(db, regs);
    forall j | 0 <= j < |rows|
      ensures rows[j].id != id
    {
      assert rows[j] in rows;
      var reg :| reg in regs && Listed(db, reg) && RegToJson(reg) == rows[j];
      var k :| 0 <= k < |regs| && regs[k] == reg;
    }
    AdminClient.WithoutAbsent(rows, {id});
  }

  /** Removing a listed row's id from the listing lists the table without that row. */
  lemma ListRowsWithoutOne(db: Db, regs: seq<Registration>, i: nat)
    requires i < |regs| && Listed(db, regs[i])
    requires forall k :: 0 <= k < |regs| && k != i ==> regs[k].id != regs[i].id
    ensures AdminClient.WithoutIds(ListRows(db, regs), {regs[i].id})
            == ListRows(db, regs[..i] + regs[i + 1..])
  {
    var id := regs[i].id;
    var before, row, after := regs[..i], regs[i], regs[i + 1..];
    var j := RegToJson(row);
    var lb, la := ListRows(db, before), ListRows(db, after);
    assert ListRows(db, [row]) == [j] by {
      assert [row][1..] == [];
    }
    assert forall k :: 0 <= k < |before| ==> before[k].id != id;
    assert forall k :: 0 <= k < |after| ==> after[k] == regs[i + 1 + k];
    ListRowsWithoutAbsent(db, before, id);
    ListRowsWithoutAbsent(db, after, id);
    calc {
      AdminClient.WithoutIds(ListRows(db, regs), {id});
      { assert regs == (before + [row]) + after;
        ListRowsAppend(db, before + [row], after);
        ListRowsAppend(db, before, [row]); }
      AdminClient.WithoutIds(la + ([j] + lb), {id});
      { assert la + ([j] + lb) == (la + [j]) + lb; }
      AdminClient.WithoutIds((la + [j]) + lb, {id});
      { AdminClient.WithoutIdsAppend(la + [j], lb, {id}); }
      AdminClient.WithoutIds(la + [j], {id}) + AdminClient.WithoutIds(lb, {id});
      { assert AdminClient.WithoutIds(la + [j], {id}) == la by {
          AdminClient.WithoutIdsAppend(la, [j], {id});
          assert AdminClient.WithoutIds([j], {id}) == [] by {
            assert [j][1..] == [];
          }
          assert la + [] == la;
        }
      }
      la + lb;
      { ListRowsAppend(db, before, after); }
      ListRows(db, before + after);
    }
  }

  /**
   * After a successful delete, the admin's local edit of the listing it
   * fetched is exactly the listing the server now sends, and the id has
   * left the selection.
   */
  lemma LocalDeleteMatchesServer(db: Db, id: int, selected: set<int>)
    requires Valid(db)
    ensures var r := Registrations.Delete(db, id);
            r.reply.Ok? ==>
              AdminClient.DeleteLocal(Listing(db), selected, id, true)
              == AdminClient.Local(Listing(r.db), selected - {id})
  {
    var r := Registrations.Delete(db, id);
    if r.reply.Ok? {
      var regs := db.registrations;
      var i :| 0 <= i < |regs| && regs[i].id == id
               && Registrations.Details(db, regs[i]) == Some(r.reply.value)
               && r.db == db.(registrations := regs[..i] + regs[i + 1..]);
      ListRowsWithoutOne(db, regs, i);
      ListRowsSameJoins(db, r.db, r.db.registrations);
    }
  }

  /**
   * Fed the server's listing, the Events tab offers a student who exists
   * exactly the events they hold no registration for.
   */
  lemma OfferedIffUnregistered(db: Db, me: int, prev: seq<RegJson>, events: seq<EventJson>)
    requires me != 0 && me in db.students
    requires events != []
    requires forall e :: e in events ==> e.id in db.events
    ensures var shown := StudentClient.LoadEvents(Some(me), prev, events, Some(Listing(db))).1;
            forall e :: e in shown <==> e in events && !IsRegistered(db, Pair(me, e.id))
  {
    var listing := Listing(db);
    forall e | e in events
      ensures (exists x :: x in listing && x.studentId == me && x.eventId == e.id)
              <==> IsRegistered(db, Pair(me, e.id))
    {
      if IsRegistered(db, Pair(me, e.id)) {
        var i :| 0 <= i < |db.registrations| && PairOf(db.registrations[i]) == Pair(me, e.id);
        var reg := db.registrations[i];
        assert Listed(db, reg) && reg in db.registrations;
        assert RegToJson(reg) in listing;
      }
      if exists x :: x in listing && x.studentId == me && x.eventId == e.id {
        var x :| x in listing && x.studentId == me && x.eventId == e.id;
        var reg :| reg in db.registrations && Listed(db, reg) && RegToJson(reg) == x;
        var i :| 0 <= i < |db.registrations| && db.registrations[i] == reg;
        assert PairOf(db.registrations[i]) == Pair(me, e.id);
      }
    }
  }
}
