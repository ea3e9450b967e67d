/**
 * The registration handlers of server.js: `POST /api/registrations`,
 * `PUT /api/registrations/:id/verify`, `PUT /api/registrations/verify-all`,
 * `DELETE /api/registrations/:id` and `DELETE /api/registrations`. None of
 * them broadcasts anything.
 */
module Registrations {

  import opened Basics
  import opened Tables
  import Resolver

  /**
   * `POST /api/registrations`. A missing id is NULL and fails NOT NULL; a
   * second row for the pair fails UNIQUE. Both come back as a 500 and write
   * nothing. Foreign keys are not enforced, so unknown ids are accepted.
   */
  function Register(db: Db, student: Option<int>, event: Option<int>): (r: Step<int>)
    ensures r.reply.Err? <==>
              student.None? || event.None? || IsRegistered(db, Pair(student.value, event.value))
    ensures r.reply.Err? ==> r.db == db && r.reply.error == ConstraintViolation
    ensures r.reply.Ok? ==>
              && IsRegistered(r.db, Pair(student.value, event.value))
              && r.db.registrations[|r.db.registrations| - 1]
                 == Registration(r.reply.value, student.value, event.value, false, None)
              && (Valid(db) ==> !HasRegistrationId(db, r.reply.value))
              && |r.db.registrations| == |db.registrations| + 1
              && r.db.registrations[..|db.registrations|] == db.registrations
              && r.db == db.(registrations := r.db.registrations,
                             nextRegistrationId := r.db.nextRegistrationId)
    ensures Valid(db) ==> Valid(r.db)
  {
    if student.None? || event.None? || IsRegistered(db, Pair(student.value, event.value)) then
      Step(db, Err(ConstraintViolation))
    else
      var id := db.nextRegistrationId;
      var row := Registration(id, student.value, event.value, false, None);
      var regs := db.registrations + [row];
      assert PairOf(regs[|regs| - 1]) == Pair(student.value, event.value);
      Step(db.(registrations := regs, nextRegistrationId := id + 1), Ok(id))
  }

  /** The rows with `id` set verified at `now`; every other row as it was. */
  function MarkVerified(regs: seq<Registration>, id: int, now: Time): (r: seq<Registration>)
    ensures |r| == |regs|
    ensures forall i :: 0 <= i < |regs| ==>
              (regs[i].id == id ==> r[i] == regs[i].(verified := true, verifiedAt := Some(now)))
              && (regs[i].id != id ==> r[i] == regs[i])
  {
    seq(|regs|, i requires 0 <= i < |regs| =>
      if regs[i].id == id then regs[i].(verified := true, verifiedAt := Some(now)) else regs[i])
  }

  /**
   * `PUT /api/registrations/:id/verify`: sets `verified` and `verified_at`
   * on the row with the id; a 404 when no row changed.
   */
  function Verify(db: Db, id: int, now: Time): (r: Step<()>)
    ensures r.reply.Err? <==> !HasRegistrationId(db, id)
    ensures r.reply.Err? ==> r.db == db && r.reply.error == RegistrationNotFound
    ensures r.reply.Ok? ==>
              && |r.db.registrations| == |db.registrations|
              && (forall i :: 0 <= i < |db.registrations| ==>
                    var old_ := db.registrations[i];
                    var new_ := r.db.registrations[i];
                    PairOf(new_) == PairOf(old_) && new_.id == old_.id
                    && (old_.id == id ==> new_.verified && new_.verifiedAt == Some(now))
                    && (old_.id != id ==> new_ == old_))
              && r.db == db.(registrations := r.db.registrations)
  {
    if !HasRegistrationId(db, id) then Step(db, Err(RegistrationNotFound))
    else Step(db.(registrations := MarkVerified(db.registrations, id, now)), Ok(()))
  }

  /** The rows still unverified. */
  function Unverified(regs: seq<Registration>): nat
    decreases |regs|
  {
    if regs == [] then 0 else (if regs[0].verified then 0 else 1) + Unverified(regs[1..])
  }

  /**
   * `PUT /api/registrations/verify-all`: `WHERE verified = 0`, so rows
   * already verified keep their `verified_at`. Replies with the count
   * changed.
   */
  function VerifyAll(db: Db, now: Time): (r: Step<nat>)
    ensures r.reply.Ok? && r.reply.value == Unverified(db.registrations)
    ensures |r.db.registrations| == |db.registrations|
    ensures forall i :: 0 <= i < |db.registrations| ==>
              var old_ := db.registrations[i];
              var new_ := r.db.registrations[i];
              PairOf(new_) == PairOf(old_) && new_.id == old_.id && new_.verified
              && (old_.verified ==> new_ == old_)
              && (!old_.verified ==> new_.verifiedAt == Some(now))
    ensures r.db == db.(registrations := r.db.registrations)
  {
    var regs := db.registrations;
    Step(db.(registrations := seq(|regs|, i requires 0 <= i < |regs| =>
                 if regs[i].verified then regs[i]
                 else regs[i].(verified := true, verifiedAt := Some(now)))),
         Ok(Unverified(regs)))
  }

  /** The position of the row with the id, if any. */
  function Find(regs: seq<Registration>, id: int): (r: Option<nat>)
    ensures r.None? <==> forall i :: 0 <= i < |regs| ==> regs[i].id != id
    ensures r.Some? ==> r.value < |regs| && regs[r.value].id == id
    decreases |regs|
  {
    if regs == [] then None
    else if regs[0].id == id then Some(0)
    else match Find(regs[1..], id)
      case None => None
      case Some(k) => Some(k + 1)
  }

  /** What a delete reply reports, for the student's notification. */
  datatype Deleted = Deleted(studentName: string, studentEmail: string, eventTitle: string)

  /** The joined row `SELECT r.*, s.name, s.email, e.title` reads, if the join keeps it. */
  function Details(db: Db, reg: Registration): Option<Deleted> {
    if reg.student in db.students && reg.event in db.events then
      Some(Deleted(db.students[reg.student].name, db.students[reg.student].email,
                   db.events[reg.event].title))
    else None
  }

  /**
   * `DELETE /api/registrations/:id`. The preliminary SELECT joins students
   * and events, so a row whose student or event is gone is a 404 too.
   */
  function Delete(db: Db, id: int): (r: Step<Deleted>)
    ensures r.reply.Err? ==> r.db == db && r.reply.error == RegistrationNotFound
    ensures !HasRegistrationId(db, id) ==> r.reply.Err?
    ensures r.reply.Ok? ==>
              exists i :: 0 <= i < |db.registrations| && db.registrations[i].id == id
                && Details(db, db.registrations[i]) == Some(r.reply.value)
                && r.db == db.(registrations := db.registrations[..i] + db.registrations[i + 1..])
    ensures Valid(db) ==>
              (r.reply.Ok? <==> exists i :: 0 <= i < |db.registrations| && db.registrations[i].id == id
                                  && Details(db, db.registrations[i]).Some?)
    ensures Valid(db) ==> Valid(r.db)
  {
    match Find(db.registrations, id)
    case None => Step(db, Err(RegistrationNotFound))
    case Some(i) =>
      match Details(db, db.registrations[i])
      case None =>
        assert Valid(db) ==> forall j :: 0 <= j < |db.registrations| && db.registrations[j].id == id ==> j == i;
        Step(db, Err(RegistrationNotFound))
      case Some(d) =>
        RemoveKeepsValid(db, i);
        Step(db.(registrations := db.registrations[..i] + db.registrations[i + 1..]), Ok(d))
  }

  /** Removing one row keeps the registration invariant. */
  lemma RemoveKeepsValid(db: Db, i: nat)
    requires i < |db.registrations|
    ensures Valid(db) ==> Valid(db.(registrations := db.registrations[..i] + db.registrations[i + 1..]))
  {
    var regs := db.registrations[..i] + db.registrations[i + 1..];
    forall k | 0 <= k < |regs|
      ensures regs[k] == db.registrations[if k < i then k else k + 1]
    {
    }
  }

  /** A row of the delete-all reply: the registration's own columns and its joined names. */
  datatype DeletedRow = DeletedRow(registration: Registration, details: Deleted)

  /** No two rows share an id, as the primary key guarantees. */
  predicate DistinctIds(regs: seq<Registration>) {
    forall i, j :: 0 <= i < j < |regs| ==> regs[i].id != regs[j].id
  }

  /**
   * The joined rows `SELECT r.*, s.name, s.email, e.title` reads, one per
   * registration whose student and event exist, in table order.
   */
  function AllDetails(db: Db, regs: seq<Registration>): (r: seq<DeletedRow>)
    ensures |r| <= |regs|
    decreases |regs|
  {
    if regs == [] then []
    else
      var rest := AllDetails(db, regs[1..]);
      match Details(db, regs[0])
      case None => rest
      case Some(d) => [DeletedRow(regs[0], d)] + rest
  }

  /**
   * Each reply row is a registration of the table with its own joined
   * names, and every registration that joins has a row.
   */
  lemma {:induction false} AllDetailsMembers(db: Db, regs: seq<Registration>)
    ensures forall i :: 0 <= i < |AllDetails(db, regs)| ==>
              var row := AllDetails(db, regs)[i];
              row.registration in regs && Details(db, row.registration) == Some(row.details)
    ensures forall reg :: reg in regs && Details(db, reg).Some? ==>
              exists i :: 0 <= i < |AllDetails(db, regs)| && AllDetails(db, regs)[i].registration == reg
    decreases |regs|
  {
    if regs != [] {
      var tail := regs[1..];
      AllDetailsMembers(db, tail);
      var rest := AllDetails(db, tail);
      var r := AllDetails(db, regs);
      var head: seq<DeletedRow> := if Details(db, regs[0]).Some? then [DeletedRow(regs[0], Details(db, regs[0]).value)] else [];
      assert r == head + rest;
      forall i | 0 <= i < |r|
        ensures r[i].registration in regs && Details(db, r[i].registration) == Some(r[i].details)
      {
        if i >= |head| {
          assert r[i] == rest[i - |head|];
          assert rest[i - |head|].registration in tail;
        }
      }
      forall reg | reg in regs && Details(db, reg).Some?
        ensures exists i :: 0 <= i < |r| && r[i].registration == reg
      {
        if reg == regs[0] {
          assert r[0].registration == reg;
        } else {
          assert reg in tail;
          var k :| 0 <= k < |rest| && rest[k].registration == reg;
          assert r[k + |head|] == rest[k];
        }
      }
    }
  }

  /** No two reply rows are for the same registration id. */
  predicate DistinctRows(rows: seq<DeletedRow>) {
    forall i, j :: 0 <= i < j < |rows| ==> rows[i].registration.id != rows[j].registration.id
  }

  /** Under the primary key the reply names each registration once. */
  lemma {:induction false} AllDetailsDistinct(db: Db, regs: seq<Registration>)
    ensures DistinctIds(regs) ==> DistinctRows(AllDetails(db, regs))
    decreases |regs|
  {
    if regs != [] && DistinctIds(regs) {
      var tail := regs[1..];
      DistinctTail(regs);
      AllDetailsDistinct(db, tail);
      var rest := AllDetails(db, tail);
      match Details(db, regs[0])
      case None =>
      case Some(d) =>
        assert forall i :: 0 <= i < |rest| ==> rest[i].registration.id != regs[0].id by {
          AllDetailsMembers(db, tail);
          forall i | 0 <= i < |rest|
            ensures rest[i].registration.id != regs[0].id
          {
            assert rest[i].registration in tail;
            var k :| 0 <= k < |tail| && tail[k] == rest[i].registration;
            assert regs[k + 1] == rest[i].registration;
          }
        }
        PrependDistinctRows(DeletedRow(regs[0], d), rest);
    }
  }

  lemma DistinctTail(regs: seq<Registration>)
    requires regs != [] && DistinctIds(regs)
    ensures DistinctIds(regs[1..])
  {
    var tail := regs[1..];
    forall i, j | 0 <= i < j < |tail|
      ensures tail[i].id != tail[j].id
    {
      assert tail[i] == regs[i + 1] && tail[j] == regs[j + 1];
    }
  }

  lemma PrependDistinctRows(row: DeletedRow, rest: seq<DeletedRow>)
    requires DistinctRows(rest)
    requires forall i :: 0 <= i < |rest| ==> rest[i].registration.id != row.registration.id
    ensures DistinctRows([row] + rest)
  {
    var r := [row] + rest;
    forall i, j | 0 <= i < j < |r|
      ensures r[i].registration.id != r[j].registration.id
    {
      assert r[j] == rest[j - 1];
      if i > 0 {
        assert r[i] == rest[i - 1];
      }
    }
  }

  /**
   * The reply lists the joined rows of a concatenation part by part, and a
   * single registration contributes its own row exactly when it joins:
   * together these fix the reply row for row.
   */
  lemma {:induction false} AllDetailsAppend(db: Db, a: seq<Registration>, b: seq<Registration>)
    ensures AllDetails(db, a + b) == AllDetails(db, a) + AllDetails(db, b)
    decreases |a|
  {
    if a == [] {
      assert a + b == b;
    } else {
      var ab := a + b;
      AllDetailsAppend(db, a[1..], b);
      assert ab[1..] == a[1..] + b;
      assert ab[0] == a[0];
      var tailRows := AllDetails(db, ab[1..]);
      assert tailRows == AllDetails(db, a[1..]) + AllDetails(db, b);
      match Details(db, a[0])
      case None =>
        assert AllDetails(db, ab) == tailRows;
        assert AllDetails(db, a) == AllDetails(db, a[1..]);
      case Some(d) =>
        assert AllDetails(db, ab) == [DeletedRow(a[0], d)] + tailRows;
        assert AllDetails(db, a) == [DeletedRow(a[0], d)] + AllDetails(db, a[1..]);
    }
  }

  /** A single registration contributes its own row exactly when it joins. */
  lemma AllDetailsSingle(db: Db, reg: Registration)
    ensures AllDetails(db, [reg]) == (match Details(db, reg)
                                      case None => []
                                      case Some(d) => [DeletedRow(reg, d)])
  {
    assert [reg][1..] == [];
  }

  /**
   * `DELETE /api/registrations`: empties the table and replies with the
   * number of rows deleted and the joined rows it could read.
   */
  function DeleteAll(db: Db): (r: Step<(nat, seq<DeletedRow>)>)
    ensures r.reply.Ok? && r.reply.value.0 == |db.registrations|
    ensures |r.reply.value.1| <= r.reply.value.0
    ensures forall i :: 0 <= i < |r.reply.value.1| ==>
              var row := r.reply.value.1[i];
              row.registration in db.registrations && Details(db, row.registration) == Some(row.details)
    ensures forall reg :: reg in db.registrations && Details(db, reg).Some? ==>
              exists i :: 0 <= i < |r.reply.value.1| && r.reply.value.1[i].registration == reg
    ensures Valid(db) ==> DistinctRows(r.reply.value.1)
    ensures forall p :: !IsRegistered(r.db, p)
    ensures r.db == db.(registrations := [])
  {
    AllDetailsMembers(db, db.registrations);
    AllDetailsDistinct(db, db.registrations);
    assert Valid(db) ==> DistinctIds(db.registrations);
    Step(db.(registrations := []), Ok((|db.registrations|, AllDetails(db, db.registrations))))
  }

  /**
   * The resolver reads only the (student, event) of each registration and
   * the students, check-ins and marks.
   */
  lemma {:induction false} JoinIgnoresVerification(
    db: Db, db': Db, a: seq<Registration>, b: seq<Registration>, event: int)
    requires db.students == db'.students && db.checkIns == db'.checkIns && db.marks == db'.marks
    requires |a| == |b|
    requires forall i :: 0 <= i < |a| ==> PairOf(a[i]) == PairOf(b[i])
    ensures Resolver.JoinRows(db, a, event) == Resolver.JoinRows(db', b, event)
    decreases |a|
  {
    if a != [] {
      JoinIgnoresVerification(db, db', a[1..], b[1..], event);
    }
  }

  /** Verifying one or all registrations leaves every roster as it was. */
  lemma VerifyKeepsRosters(db: Db, id: int, now: Time, event: int)
    ensures Resolver.Roster(Verify(db, id, now).db, event) == Resolver.Roster(db, event)
    ensures Resolver.Roster(VerifyAll(db, now).db, event) == Resolver.Roster(db, event)
  {
    var v := Verify(db, id, now).db;
    JoinIgnoresVerification(db, v, db.registrations, v.registrations, event);
    var w := VerifyAll(db, now).db;
    JoinIgnoresVerification(db, w, db.registrations, w.registrations, event);
  }

  /**
   * After deleting every registration each event's roster is empty, and
   * the reply names one joined row for each student who was on a roster of
   * an existing event.
   */
  lemma DeleteAllEmptiesRosters(db: Db, event: int)
    requires Valid(db)
    ensures var r := DeleteAll(db);
            && Resolver.Roster(r.db, event) == []
            && (event in db.events ==>
                  forall y :: y in Resolver.Roster(db, event) ==>
                    exists i :: 0 <= i < |r.reply.value.1|
                      && PairOf(r.reply.value.1[i].registration) == Pair(y.id, event)
                      && r.reply.value.1[i].details == Deleted(y.name, y.email, db.events[event].title))
  {
    var r := DeleteAll(db);
    var rows := r.reply.value.1;
    Resolver.RosterSpec(db, event);
    if event in db.events {
      forall y | y in Resolver.Roster(db, event)
        ensures exists i :: 0 <= i < |rows| && PairOf(rows[i].registration) == Pair(y.id, event)
                  && rows[i].details == Deleted(y.name, y.email, db.events[event].title)
      {
        assert y.id in Resolver.Ids(Resolver.Roster(db, event));
        var k :| 0 <= k < |db.registrations| && PairOf(db.registrations[k]) == Pair(y.id, event);
        var reg := db.registrations[k];
        assert reg in db.registrations;
        assert Details(db, reg) == Some(Deleted(y.name, y.email, db.events[event].title));
        var i :| 0 <= i < |rows| && rows[i].registration == reg;
      }
    }
  }

  /** Once the registration is deleted its student leaves that event's roster. */
  lemma DeleteRemovesFromRoster(db: Db, id: int, student: int, event: int)
    requires Valid(db)
    requires exists i :: 0 <= i < |db.registrations| && db.registrations[i].id == id
               && PairOf(db.registrations[i]) == Pair(student, event)
    ensures Delete(db, id).reply.Ok? ==> student !in Resolver.Ids(Resolver.Roster(Delete(db, id).db, event))
  {
    var r := Delete(db, id);
    if r.reply.Ok? {
      var i :| 0 <= i < |db.registrations| && db.registrations[i].id == id
                && r.db == db.(registrations := db.registrations[..i] + db.registrations[i + 1..]);
      var regs := db.registrations;
      assert PairOf(regs[i]) == Pair(student, event) by {
        var k :| 0 <= k < |regs| && regs[k].id == id && PairOf(regs[k]) == Pair(student, event);
        assert k == i;
      }
      assert !IsRegistered(r.db, Pair(student, event));
      Resolver.OnRosterIffRegistered(r.db, event, student);
    }
  }
}
