/**
 * The JSON the two front-ends receive from the server: roster rows as the
 * resolver serialises them, registration rows as `GET /api/registrations`
 * sends them, and the `attendance-updated` payload.
 */
module Wire {

  import opened Basics
  import opened Tables
  import Resolver
  import Attendance

  /** The `attendance_status` text the SQL `CASE` produces. */
  function StatusText(s: Status): string {
    match s
    case Attended => "attended"
    case Absent => "absent"
    case NotMarked => "not_marked"
  }

  /** Reading the text back recovers the status: the serialisation is injective. */
  lemma StatusTextInjective(a: Status, b: Status)
    ensures StatusText(a) == StatusText(b) <==> a == b
  {
  }

  /** A roster row as a client reads it. */
  datatype RowJson = RowJson(id: int, name: string, studentId: string, email: string, status: string)

  function RowToJson(r: Resolver.RosterRow): RowJson {
    RowJson(r.id, r.name, r.code, r.email, StatusText(r.status))
  }

  function RowsToJson(rows: seq<Resolver.RosterRow>): (r: seq<RowJson>)
    ensures |r| == |rows|
    ensures forall i :: 0 <= i < |rows| ==> r[i] == RowToJson(rows[i])
  {
    seq(|rows|, i requires 0 <= i < |rows| => RowToJson(rows[i]))
  }

  /** The `attendance-updated` payload `{eventId, attendanceData}`. */
  datatype Snapshot = Snapshot(eventId: int, attendanceData: seq<RowJson>)

  function SnapshotOf(m: Attendance.Message): Snapshot {
    Snapshot(m.eventId, RowsToJson(m.attendanceData))
  }

  /**
   * A JavaScript value in a `verified` field: SQLite sends `0`/`1`, the
   * admin portal writes `1`, and the clients also accept `true`.
   */
  datatype JsValue = Num(n: int) | Bool(b: bool) | Null

  /** `verified === 1 || verified === true`. */
  predicate IsVerified(v: JsValue) {
    v == Num(1) || v == Bool(true)
  }

  /** A registration row as a client reads it. */
  datatype RegJson = RegJson(id: int, studentId: int, eventId: int, verified: JsValue,
                             verifiedAt: Option<Time>)

  function RegToJson(r: Registration): (j: RegJson)
    ensures IsVerified(j.verified) <==> r.verified
  {
    RegJson(r.id, r.student, r.event, Num(if r.verified then 1 else 0), r.verifiedAt)
  }

  /** A registration the listing's inner joins keep: its student and its event both exist. */
  predicate Listed(db: Db, reg: Registration) {
    reg.student in db.students && reg.event in db.events
  }

  /**
   * The listing of `regs`, newest first. Rows are appended in insertion
   * order with non-decreasing `registered_at`, so `ORDER BY registered_at
   * DESC` lists the table backwards.
   */
  function ListRows(db: Db, regs: seq<Registration>): (r: seq<RegJson>)
    ensures forall x :: x in r <==> exists reg :: reg in regs && Listed(db, reg) && RegToJson(reg) == x
    ensures |r| <= |regs|
    decreases |regs|
  {
    if regs == [] then []
    else
      var rest := ListRows(db, regs[1..]);
      assert forall reg :: reg in regs <==> reg == regs[0] || reg in regs[1..];
      rest + (if Listed(db, regs[0]) then [RegToJson(regs[0])] else [])
  }

  /** `GET /api/registrations`: the joined rows, newest first. */
  function Listing(db: Db): seq<RegJson> {
    ListRows(db, db.registrations)
  }

  /** Listing a concatenation lists the later part first. */
  lemma {:induction false} ListRowsAppend(db: Db, a: seq<Registration>, b: seq<Registration>)
    ensures ListRows(db, a + b) == ListRows(db, b) + ListRows(db, a)
    decreases |a|
  {
    if a == [] {
      assert a + b == b;
    } else {
      ListRowsAppend(db, a[1..], b);
      assert (a + b)[1..] == a[1..] + b;
    }
  }

  /** An `events` row as a client reads it. */
  datatype EventJson = EventJson(id: int, title: string)

  /** The badge a client shows for an attendance status. */
  datatype Badge = AttendedBadge | AbsentBadge | NotMarkedBadge

  /** `getAttendanceStatusBadge`: `attended` and `absent` have their own badge, anything else is Not Marked. */
  function StatusBadge(status: string): (b: Badge)
    ensures b == AttendedBadge <==> status == "attended"
    ensures b == AbsentBadge <==> status == "absent"
  {
    if status == "attended" then AttendedBadge
    else if status == "absent" then AbsentBadge
    else NotMarkedBadge
  }

  /** On resolver output the badge names the resolved status. */
  lemma BadgeOfStatus(s: Status)
    ensures StatusBadge(StatusText(s)) ==
              match s case Attended => AttendedBadge case Absent => AbsentBadge case NotMarked => NotMarkedBadge
  {
  }
}
