/**
 * The attendance write paths of server.js, `POST /api/attendance` (a
 * student's self check-in) and `POST /api/attendance/mark` (an admin's
 * mark), with the broadcast each successful write triggers through
 * `loadAndBroadcastAttendanceData` and `broadcastAttendanceUpdate`.
 */
module Attendance {

  import opened Basics
  import opened Tables
  import opened Resolver

  /** The socket.io rooms an attendance update is emitted to. */
  datatype Room = EventRoom(event: int) | AdminRoom

  /** One `attendance-updated` emission: its room and its payload. */
  datatype Message = Message(room: Room, eventId: int, attendanceData: seq<RosterRow>)

  /** The store together with every message emitted so far, oldest first. */
  datatype State = State(db: Db, outbox: seq<Message>)

  /** A handler's effect: the state after it and its reply. */
  datatype Outcome = Outcome(state: State, reply: Result<string, ApiError>)

  /** The two emissions of one broadcast: to `event-<id>` and to `admin`. */
  function Broadcast(db: Db, event: int): seq<Message> {
    var rows := Roster(db, event);
    [Message(EventRoom(event), event, rows), Message(AdminRoom, event, rows)]
  }

  /** What a client that joined `room` receives, in order. */
  function Received(outbox: seq<Message>, room: Room): seq<Message>
    decreases |outbox|
  {
    if outbox == [] then []
    else (if outbox[0].room == room then [outbox[0]] else []) + Received(outbox[1..], room)
  }

  lemma {:induction false} ReceivedAppend(a: seq<Message>, b: seq<Message>, room: Room)
    ensures Received(a + b, room) == Received(a, room) + Received(b, room)
    decreases |a|
  {
    if a == [] {
      assert a + b == b;
    } else {
      assert (a + b)[0] == a[0];
      assert (a + b)[1..] == a[1..] + b;
      ReceivedAppend(a[1..], b, room);
    }
  }

  /**
   * One broadcast for an event reaches each client of that event's room and
   * each admin client exactly once, carrying the roster of the state it
   * was computed from, and reaches no other room.
   */
  lemma BroadcastDelivery(outbox: seq<Message>, db: Db, event: int, room: Room)
    ensures Received(outbox + Broadcast(db, event), room)
            == Received(outbox, room)
               + (if room == EventRoom(event) || room == AdminRoom
                  then [Message(room, event, Roster(db, event))] else [])
  {
    ReceivedAppend(outbox, Broadcast(db, event), room);
    var b := Broadcast(db, event);
    assert b[1..] == [b[1]];
    assert b[1..][1..] == [];
    assert Received(b[1..], room) == (if b[1].room == room then [b[1]] else []);
  }

  /**
   * `POST /api/attendance`: a plain INSERT. A missing id fails NOT NULL and
   * a second check-in for the pair fails UNIQUE; both are a 500 with no
   * write and no broadcast. An existing absent mark is left in place.
   */
  function SelfCheckIn(st: State, student: Option<int>, event: Option<int>, now: Time): (r: Outcome)
    ensures r.reply.Err? <==>
              student.None? || event.None? || Pair(student.value, event.value) in st.db.checkIns
    ensures r.reply.Err? ==> r.state == st && r.reply.error == ConstraintViolation
    ensures r.reply.Ok? ==>
              var p := Pair(student.value, event.value);
              && r.state.db == st.db.(checkIns := st.db.checkIns[p := now])
              && StatusOf(r.state.db, p) == Attended
              && r.state.outbox == st.outbox + Broadcast(r.state.db, event.value)
  {
    if student.None? || event.None? then Outcome(st, Err(ConstraintViolation))
    else
      var p := Pair(student.value, event.value);
      if p in st.db.checkIns then Outcome(st, Err(ConstraintViolation))
      else
        var db := st.db.(checkIns := st.db.checkIns[p := now]);
        Outcome(State(db, st.outbox + Broadcast(db, event.value)), Ok("Check-in successful"))
  }

  /** A status field JavaScript reads as true: present and not empty. */
  predicate TruthyText(x: Option<string>) {
    x.Some? && x.value != ""
  }

  /** The status the admin asked for, or `None` for a value the handler refuses. */
  function Requested(status: string): Option<Status> {
    if status == "attended" then Some(Attended)
    else if status == "absent" then Some(Absent)
    else None
  }

  /**
   * `POST /api/attendance/mark`. `attended` upserts the check-in (a fresh
   * `checked_in_at`) and deletes the mark; `absent` upserts an absent mark
   * and deletes the check-in. A falsy field or another status is a 400
   * with no write and no broadcast.
   */
  function AdminMark(st: State, student: Option<int>, event: Option<int>, status: Option<string>,
                     now: Time): (r: Outcome)
    ensures r.reply.Err? <==>
              !Truthy(student) || !Truthy(event) || !TruthyText(status)
              || Requested(status.value).None?
    ensures r.reply.Err? ==>
              && r.state == st && Code(r.reply.error) == 400
              && (r.reply.error == MissingFields
                  <==> !Truthy(student) || !Truthy(event) || !TruthyText(status))
    ensures r.reply.Ok? ==>
              var p := Pair(student.value, event.value);
              var db := r.state.db;
              && (p in db.checkIns <==> p !in db.marks)
              && StatusOf(db, p) == Requested(status.value).value
              && (forall q :: q != p ==>
                    (q in db.checkIns <==> q in st.db.checkIns) && (q in db.marks <==> q in st.db.marks))
              && (status.value == "attended" ==>
                    db.checkIns == st.db.checkIns[p := now] && db.marks == st.db.marks - {p})
              && (status.value == "absent" ==>
                    db.marks == st.db.marks[p := Mark(MarkedAbsent, now)] && db.checkIns == st.db.checkIns - {p})
              && db == st.db.(checkIns := db.checkIns, marks := db.marks)
              && r.state.outbox == st.outbox + Broadcast(db, event.value)
  {
    if !Truthy(student) || !Truthy(event) || !TruthyText(status) then
      Outcome(st, Err(MissingFields))
    else
      var p := Pair(student.value, event.value);
      if status.value == "attended" then
        var db := st.db.(checkIns := st.db.checkIns[p := now], marks := st.db.marks - {p});
        Outcome(State(db, st.outbox + Broadcast(db, event.value)), Ok("Student marked as attended"))
      else if status.value == "absent" then
        var db := st.db.(marks := st.db.marks[p := Mark(MarkedAbsent, now)],
                         checkIns := st.db.checkIns - {p});
        Outcome(State(db, st.outbox + Broadcast(db, event.value)), Ok("Student marked as absent"))
      else
        Outcome(st, Err(InvalidStatus))
  }

  /**
   * Re-applying a mark changes nothing at the same clock reading; at any
   * other reading only the timestamps move. It still broadcasts again.
   */
  lemma MarkIdempotent(st: State, student: Option<int>, event: Option<int>, status: Option<string>,
                       now: Time, later: Time)
    requires AdminMark(st, student, event, status, now).reply.Ok?
    ensures var once := AdminMark(st, student, event, status, now).state;
            var twice := AdminMark(once, student, event, status, now).state;
            var again := AdminMark(once, student, event, status, later).state;
            && twice.db == once.db
            && |twice.outbox| == |once.outbox| + 2
            && again.db.checkIns.Keys == once.db.checkIns.Keys
            && again.db.marks.Keys == once.db.marks.Keys
            && forall q :: StatusOf(again.db, q) == StatusOf(once.db, q)
  {
    var once := AdminMark(st, student, event, status, now).state;
    var p := Pair(student.value, event.value);
    if status.value == "attended" {
      assert once.db.checkIns[p := now] == once.db.checkIns;
      assert once.db.marks - {p} == once.db.marks;
    } else {
      assert once.db.marks[p := Mark(MarkedAbsent, now)] == once.db.marks;
      assert once.db.checkIns - {p} == once.db.checkIns;
    }
  }

  /** Every successful attendance write emits exactly two messages, with the new roster. */
  lemma SuccessfulWriteBroadcasts(st: State, student: Option<int>, event: Option<int>,
                                  status: Option<string>, now: Time, room: Room)
    ensures var r := AdminMark(st, student, event, status, now);
            r.reply.Ok? ==>
              && |r.state.outbox| == |st.outbox| + 2
              && Received(r.state.outbox, room)
                 == Received(st.outbox, room)
                    + (if room == EventRoom(event.value) || room == AdminRoom
                       then [Message(room, event.value, Roster(r.state.db, event.value))] else [])
    ensures var r := SelfCheckIn(st, student, event, now);
            r.reply.Ok? ==>
              && |r.state.outbox| == |st.outbox| + 2
              && Received(r.state.outbox, room)
                 == Received(st.outbox, room)
                    + (if room == EventRoom(event.value) || room == AdminRoom
                       then [Message(room, event.value, Roster(r.state.db, event.value))] else [])
  {
    var r := AdminMark(st, student, event, status, now);
    if r.reply.Ok? {
      BroadcastDelivery(st.outbox, r.state.db, event.value, room);
    }
    var c := SelfCheckIn(st, student, event, now);
    if c.reply.Ok? {
      BroadcastDelivery(st.outbox, c.state.db, event.value, room);
    }
  }

  /**
   * A self check-in over an absent mark keeps the mark row, yet the pair
   * resolves to attended.
   */
  lemma CheckInOverridesAbsentMark(st: State, student: int, event: int, now: Time)
    requires Pair(student, event) in st.db.marks && Pair(student, event) !in st.db.checkIns
    ensures var r := SelfCheckIn(st, Some(student), Some(event), now);
            && r.reply.Ok?
            && Pair(student, event) in r.state.db.marks
            && Pair(student, event) in r.state.db.checkIns
            && StatusOf(r.state.db, Pair(student, event)) == Attended
  {
  }

  /**
   * An admin marks a student attended; the student's own check-in then
   * fails, writes nothing, sends nothing, and the status stays attended.
   */
  lemma MarkThenCheckInConflicts(st: State, student: int, event: int, now: Time, later: Time)
    requires student != 0 && event != 0
    ensures var m := AdminMark(st, Some(student), Some(event), Some("attended"), now);
            var c := SelfCheckIn(m.state, Some(student), Some(event), later);
            && m.reply.Ok?
            && c.reply == Err(ConstraintViolation) && c.state == m.state
            && StatusOf(c.state.db, Pair(student, event)) == Attended
  {
  }

  /**
   * Absent, then attended, then absent again: the final status is the last
   * one requested and after every step exactly one of check-in and mark
   * exists for the pair.
   */
  lemma AbsentAttendedAbsent(st: State, student: int, event: int, t1: Time, t2: Time, t3: Time)
    requires student != 0 && event != 0
    ensures var p := Pair(student, event);
            var s1 := AdminMark(st, Some(student), Some(event), Some("absent"), t1).state;
            var s2 := AdminMark(s1, Some(student), Some(event), Some("attended"), t2).state;
            var s3 := AdminMark(s2, Some(student), Some(event), Some("absent"), t3).state;
            && StatusOf(s1.db, p) == Absent && (p in s1.db.checkIns <==> p !in s1.db.marks)
            && StatusOf(s2.db, p) == Attended && (p in s2.db.checkIns <==> p !in s2.db.marks)
            && StatusOf(s3.db, p) == Absent && (p in s3.db.checkIns <==> p !in s3.db.marks)
            && |s3.outbox| == |st.outbox| + 6
  {
  }
}
