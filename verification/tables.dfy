/**
 * The server's relational state as immutable values: the `students`,
 * `events`, `registrations`, `attendance`, `attendance_marks`, `feedback`
 * and `deleted_feedback` tables, restricted to the columns the attendance,
 * registration and feedback logic reads.
 */
module Tables {

  import opened Basics

  /** A `CURRENT_TIMESTAMP` value; the clock is a parameter of every write. */
  type Time = int

  /** A (student row id, event id) pair: the key of the per-pair tables. */
  datatype Pair = Pair(student: int, event: int)

  /** A `students` row; `code` is the external `student_id` text column. */
  datatype Student = Student(code: string, name: string, email: string)

  /** An `events` row, reduced to the title the join queries read. */
  datatype EventInfo = EventInfo(title: string)

  /** A `registrations` row. */
  datatype Registration = Registration(
    id: int, student: int, event: int, verified: bool, verifiedAt: Option<Time>)

  /** The two values the `attendance_marks.status` CHECK constraint admits. */
  datatype MarkStatus = MarkedAttended | MarkedAbsent

  /** An `attendance_marks` row, keyed by its pair in `Db.marks`. */
  datatype Mark = Mark(status: MarkStatus, markedAt: Time)

  /** A `feedback` row; a NULL rating is admitted by the CHECK constraint. */
  datatype Feedback = Feedback(
    id: int, student: int, event: int, rating: Option<int>, comment: string)

  /**
   * The whole store. `registrations` and `feedback` list their rows in id
   * order; `nextRegistrationId` and `nextFeedbackId` are the AUTOINCREMENT
   * counters. `checkIns` holds the `attendance` table (pair to
   * `checked_in_at`), `marks` the `attendance_marks` table and `hidden` the
   * `deleted_feedback` table as (student, feedback id) pairs.
   */
  datatype Db = Db(
    students: map<int, Student>,
    events: map<int, EventInfo>,
    registrations: seq<Registration>,
    nextRegistrationId: int,
    checkIns: map<Pair, Time>,
    marks: map<Pair, Mark>,
    feedback: seq<Feedback>,
    nextFeedbackId: int,
    hidden: set<(int, int)>)

  /** The tri-state attendance status the resolver computes. */
  datatype Status = Attended | Absent | NotMarked

  /** The handler errors; `Code` gives the HTTP status each is sent with. */
  datatype ApiError =
    | MissingFields        // 400 from POST /api/attendance/mark
    | InvalidStatus        // 400 from POST /api/attendance/mark
    | NoFeedbackIds        // 400 from DELETE /api/feedback
    | RegistrationNotFound // 404
    | FeedbackNotFound     // 404
    | ConstraintViolation  // 500: a UNIQUE, NOT NULL or CHECK constraint failed

  function Code(e: ApiError): int {
    match e
    case MissingFields | InvalidStatus | NoFeedbackIds => 400
    case RegistrationNotFound | FeedbackNotFound => 404
    case ConstraintViolation => 500
  }

  /** A handler's effect: the store after it and the reply it sends. */
  datatype Step<+T> = Step(db: Db, reply: Result<T, ApiError>)

  function PairOf(r: Registration): Pair {
    Pair(r.student, r.event)
  }

  /** Some registration row links the pair. */
  predicate IsRegistered(db: Db, p: Pair) {
    exists i :: 0 <= i < |db.registrations| && PairOf(db.registrations[i]) == p
  }

  predicate HasRegistrationId(db: Db, id: int) {
    exists i :: 0 <= i < |db.registrations| && db.registrations[i].id == id
  }

  predicate HasFeedbackId(db: Db, id: int) {
    exists i :: 0 <= i < |db.feedback| && db.feedback[i].id == id
  }

  /** The registrations table keeps its primary key and UNIQUE(student_id, event_id). */
  predicate RegistrationsValid(regs: seq<Registration>, next: int) {
    && (forall i :: 0 <= i < |regs| ==> regs[i].id < next)
    && (forall i, j :: 0 <= i < j < |regs| ==> regs[i].id != regs[j].id)
    && (forall i, j :: 0 <= i < j < |regs| ==> PairOf(regs[i]) != PairOf(regs[j]))
  }

  predicate RatingOk(f: Feedback) {
    f.rating.None? || 1 <= f.rating.value <= 5
  }

  /** The feedback table keeps its primary key and its rating CHECK. */
  predicate FeedbackValid(rows: seq<Feedback>, next: int) {
    && (forall i :: 0 <= i < |rows| ==> rows[i].id < next && RatingOk(rows[i]))
    && DistinctFeedbackIds(rows)
  }

  predicate DistinctFeedbackIds(rows: seq<Feedback>) {
    forall i, j :: 0 <= i < j < |rows| ==> rows[i].id != rows[j].id
  }

  /** Every constraint the schema declares and the handlers rely on. */
  predicate Valid(db: Db) {
    RegistrationsValid(db.registrations, db.nextRegistrationId)
    && FeedbackValid(db.feedback, db.nextFeedbackId)
  }

  /** The empty store the schema creates. */
  function Empty(): (db: Db)
    ensures Valid(db)
    ensures forall p :: !IsRegistered(db, p) && p !in db.checkIns && p !in db.marks
  {
    Db(map[], map[], [], 1, map[], map[], [], 1, {})
  }
}
