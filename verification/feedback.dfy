/**
 * The feedback handlers of server.js: submission, the student-scoped and
 * admin listings of `GET /api/feedback`, and the soft (per student) and
 * hard (admin) deletes of `DELETE /api/feedback/:id` and
 * `DELETE /api/feedback`.
 */
module FeedbackApi {

  import opened Basics
  import opened Tables

  /**
   * `POST /api/feedback`: a missing id fails NOT NULL and a rating outside
   * 1..5 fails the CHECK, a 500 either way; a missing rating is stored.
   */
  function Submit(db: Db, student: Option<int>, event: Option<int>, rating: Option<int>,
                  comment: string): (r: Step<int>)
    ensures r.reply.Err? <==>
              student.None? || event.None? || (rating.Some? && !(1 <= rating.value <= 5))
    ensures r.reply.Err? ==> r.db == db && r.reply.error == ConstraintViolation
    ensures r.reply.Ok? ==>
              && r.db.feedback == db.feedback
                 + [Feedback(r.reply.value, student.value, event.value, rating, comment)]
              && (Valid(db) ==> !HasFeedbackId(db, r.reply.value))
              && r.db == db.(feedback := r.db.feedback, nextFeedbackId := r.db.nextFeedbackId)
    ensures Valid(db) ==> Valid(r.db)
  {
    if student.None? || event.None? || (rating.Some? && !(1 <= rating.value <= 5)) then
      Step(db, Err(ConstraintViolation))
    else
      var id := db.nextFeedbackId;
      Step(db.(feedback := db.feedback + [Feedback(id, student.value, event.value, rating, comment)],
               nextFeedbackId := id + 1),
           Ok(id))
  }

  /** The rows the listing's joins with `students` and `events` keep. */
  predicate Joined(db: Db, f: Feedback) {
    f.student in db.students && f.event in db.events
  }

  /** The student has not soft-deleted the row. */
  predicate VisibleTo(db: Db, student: int, f: Feedback) {
    f.student == student && (student, f.id) !in db.hidden
  }

  function Select(db: Db, rows: seq<Feedback>, viewer: Option<int>): seq<Feedback>
    decreases |rows|
  {
    if rows == [] then []
    else
      var keep := Joined(db, rows[0]) && (viewer.Some? ==> VisibleTo(db, viewer.value, rows[0]));
      (if keep then [rows[0]] else []) + Select(db, rows[1..], viewer)
  }

  /**
   * `GET /api/feedback`: with a `student_id` query parameter, that
   * student's own feedback minus what they soft-deleted; without one,
   * every row.
   */
  function List(db: Db, viewer: Option<int>): seq<Feedback> {
    Select(db, db.feedback, viewer)
  }

  lemma {:induction false} SelectMembers(db: Db, rows: seq<Feedback>, viewer: Option<int>)
    ensures forall f :: f in Select(db, rows, viewer) <==>
              f in rows && Joined(db, f) && (viewer.Some? ==> VisibleTo(db, viewer.value, f))
    decreases |rows|
  {
    if rows != [] {
      SelectMembers(db, rows[1..], viewer);
      assert forall f :: f in rows <==> f == rows[0] || f in rows[1..];
    }
  }

  /** Who sees which row: the admin every joined row, a student only their unhidden own. */
  lemma ListSpec(db: Db, viewer: Option<int>, f: Feedback)
    ensures f in List(db, None) <==> f in db.feedback && Joined(db, f)
    ensures viewer.Some? ==>
              (f in List(db, viewer) <==>
                 f in db.feedback && Joined(db, f) && f.student == viewer.value
                 && (viewer.value, f.id) !in db.hidden)
  {
    SelectMembers(db, db.feedback, None);
    SelectMembers(db, db.feedback, viewer);
  }

  /** `INSERT OR IGNORE INTO deleted_feedback`: the row stays, hidden from one student. */
  function SoftDelete(db: Db, student: int, id: int): (r: Step<()>)
    ensures r.reply.Ok? && (student, id) in r.db.hidden
    ensures r.db == db.(hidden := r.db.hidden) && db.hidden <= r.db.hidden
    ensures forall h :: h in r.db.hidden && h !in db.hidden ==> h == (student, id)
  {
    Step(db.(hidden := db.hidden + {(student, id)}), Ok(()))
  }

  /** The rows whose id is not in `ids`, in order. */
  function Without(rows: seq<Feedback>, ids: set<int>): (r: seq<Feedback>)
    ensures |r| <= |rows|
    ensures forall f :: f in r <==> f in rows && f.id !in ids
    decreases |rows|
  {
    if rows == [] then []
    else (if rows[0].id in ids then [] else [rows[0]]) + Without(rows[1..], ids)
  }

  /** `DELETE FROM feedback WHERE id = ?`: a 404 when nothing was deleted. */
  function HardDelete(db: Db, id: int): (r: Step<()>)
    ensures r.reply.Err? <==> !HasFeedbackId(db, id)
    ensures r.reply.Err? ==> r.db == db && r.reply.error == FeedbackNotFound
    ensures r.reply.Ok? ==>
              && !HasFeedbackId(r.db, id)
              && (forall f :: f in r.db.feedback <==> f in db.feedback && f.id != id)
              && r.db == db.(feedback := r.db.feedback)
    ensures Valid(db) ==> Valid(r.db)
  {
    if !HasFeedbackId(db, id) then Step(db, Err(FeedbackNotFound))
    else
      var rows := Without(db.feedback, {id});
      assert Valid(db) ==> FeedbackValid(rows, db.nextFeedbackId) by {
        if Valid(db) {
          WithoutKeepsValid(db.feedback, {id}, db.nextFeedbackId);
        }
      }
      Step(db.(feedback := rows), Ok(()))
  }

  /** Dropping rows keeps the primary key and the rating CHECK. */
  lemma WithoutKeepsValid(rows: seq<Feedback>, ids: set<int>, next: int)
    requires FeedbackValid(rows, next)
    ensures FeedbackValid(Without(rows, ids), next)
  {
    var r := Without(rows, ids);
    forall i | 0 <= i < |r|
      ensures r[i].id < next && RatingOk(r[i])
    {
      assert r[i] in rows;
    }
    WithoutDistinct(rows, ids);
  }

  lemma {:induction false} WithoutDistinct(rows: seq<Feedback>, ids: set<int>)
    requires DistinctFeedbackIds(rows)
    ensures DistinctFeedbackIds(Without(rows, ids))
    decreases |rows|
  {
    if rows != [] {
      var tail := rows[1..];
      assert DistinctFeedbackIds(tail) by {
        forall i, j | 0 <= i < j < |tail|
          ensures tail[i].id != tail[j].id
        {
          assert tail[i] == rows[i + 1] && tail[j] == rows[j + 1];
        }
      }
      WithoutDistinct(tail, ids);
      if rows[0].id !in ids {
        var rest := Without(tail, ids);
        forall f | f in rest
          ensures f.id != rows[0].id
        {
          var k :| 0 <= k < |tail| && tail[k] == f;
          assert rows[k + 1] == f;
        }
        PrependDistinct(rows[0], rest);
      }
    }
  }

  lemma PrependDistinct(x: Feedback, rest: seq<Feedback>)
    requires DistinctFeedbackIds(rest)
    requires forall f :: f in rest ==> f.id != x.id
    ensures DistinctFeedbackIds([x] + rest)
  {
    var r := [x] + rest;
    forall i, j | 0 <= i < j < |r|
      ensures r[i].id != r[j].id
    {
      if i == 0 {
        assert r[j] == rest[j - 1] && r[j] in rest;
      } else {
        assert r[i] == rest[i - 1] && r[j] == rest[j - 1];
      }
    }
  }

  /**
   * `DELETE /api/feedback/:id`: a soft delete when the query names a
   * student (any non-empty parameter), a hard delete otherwise.
   */
  function DeleteOne(db: Db, id: int, viewer: Option<int>): (r: Step<()>)
    ensures viewer.Some? ==> r == SoftDelete(db, viewer.value, id)
    ensures viewer.None? ==> r == HardDelete(db, id)
  {
    if viewer.Some? then SoftDelete(db, viewer.value, id) else HardDelete(db, id)
  }

  /**
   * `DELETE /api/feedback`: a 400 for a missing or empty id list. A truthy
   * `student_id` hides every listed id for that student and reports the
   * list's length; otherwise the rows are deleted and the reply counts the
   * rows that went.
   */
  function DeleteMany(db: Db, ids: Option<seq<int>>, student: Option<int>): (r: Step<nat>)
    ensures r.reply.Err? <==> ids.None? || ids.value == []
    ensures r.reply.Err? ==> r.db == db && r.reply.error == NoFeedbackIds && Code(r.reply.error) == 400
    ensures r.reply.Ok? && Truthy(student) ==>
              && r.reply.value == |ids.value|
              && r.db == db.(hidden := r.db.hidden)
              && (forall h :: h in r.db.hidden <==>
                    h in db.hidden || (h.0 == student.value && h.1 in ids.value))
    ensures r.reply.Ok? && !Truthy(student) ==>
              && r.db == db.(feedback := r.db.feedback)
              && (forall f :: f in r.db.feedback <==> f in db.feedback && f.id !in ids.value)
              && r.reply.value == |db.feedback| - |r.db.feedback|
    ensures Valid(db) ==> Valid(r.db)
  {
    if ids.None? || ids.value == [] then Step(db, Err(NoFeedbackIds))
    else if Truthy(student) then
      var marks := set k | k in ids.value :: (student.value, k);
      assert forall k :: k in ids.value ==> (student.value, k) in marks;
      Step(db.(hidden := db.hidden + marks), Ok(|ids.value|))
    else
      var doomed := set k | k in ids.value;
      var rows := Without(db.feedback, doomed);
      assert Valid(db) ==> FeedbackValid(rows, db.nextFeedbackId) by {
        if Valid(db) {
          WithoutKeepsValid(db.feedback, doomed, db.nextFeedbackId);
        }
      }
      Step(db.(feedback := rows), Ok(|db.feedback| - |rows|))
  }

  /** Soft-deleting twice is soft-deleting once. */
  lemma SoftDeleteIdempotent(db: Db, student: int, id: int)
    ensures SoftDelete(SoftDelete(db, student, id).db, student, id) == SoftDelete(db, student, id)
  {
  }

  /**
   * A soft delete removes the row from that student's listing only: the
   * admin listing and every other student's listing are unchanged.
   */
  lemma SoftDeleteVisibility(db: Db, student: int, id: int, other: int)
    requires other != student
    ensures var d := SoftDelete(db, student, id).db;
            && (forall f :: f in List(d, Some(student)) ==> f.id != id)
            && List(d, None) == List(db, None)
            && List(d, Some(other)) == List(db, Some(other))
  {
    var d := SoftDelete(db, student, id).db;
    SelectMembers(d, d.feedback, Some(student));
    SameListing(db, d, db.feedback, None);
    SameListing(db, d, db.feedback, Some(other));
  }

  /** Listings agree when the hidden markers they consult agree. */
  lemma {:induction false} SameListing(db: Db, d: Db, rows: seq<Feedback>, viewer: Option<int>)
    requires d == db.(hidden := d.hidden)
    requires viewer.Some? ==> forall k :: (viewer.value, k) in d.hidden <==> (viewer.value, k) in db.hidden
    ensures Select(d, rows, viewer) == Select(db, rows, viewer)
    decreases |rows|
  {
    if rows != [] {
      SameListing(db, d, rows[1..], viewer);
    }
  }
}
