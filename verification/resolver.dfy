/**
 * The attendance resolver behind `GET /api/attendance/event/:eventId` and
 * `loadAndBroadcastAttendanceData` (server.js): the registered students of
 * one event, each with the tri-state status from the SQL `CASE`, ordered by
 * name.
 */
module Resolver {

  import opened Basics
  import opened Tables
  import Names

  /**
   * The `CASE` of the roster query: a check-in row wins, then any mark row
   * (whatever its stored status) reads as absent, otherwise not marked.
   */
  function StatusOf(db: Db, p: Pair): Status {
    if p in db.checkIns then Attended
    else if p in db.marks then Absent
    else NotMarked
  }

  /** The precedence rule, in both directions for each status. */
  lemma StatusPrecedence(db: Db, p: Pair)
    ensures StatusOf(db, p) == Attended <==> p in db.checkIns
    ensures StatusOf(db, p) == Absent <==> p !in db.checkIns && p in db.marks
    ensures StatusOf(db, p) == NotMarked <==> p !in db.checkIns && p !in db.marks
    ensures (p in db.marks && db.marks[p].status == MarkedAttended && p !in db.checkIns)
            ==> StatusOf(db, p) == Absent
  {
  }

  /** One row of the roster query's result. */
  datatype RosterRow = RosterRow(
    id: int, name: string, code: string, email: string, status: Status,
    checkedInAt: Option<Time>, markedAt: Option<Time>)

  /** The row the query produces for a student of the event. */
  function RowOf(db: Db, student: int, event: int): RosterRow
    requires student in db.students
  {
    var p := Pair(student, event);
    var s := db.students[student];
    RosterRow(student, s.name, s.code, s.email, StatusOf(db, p),
              if p in db.checkIns then Some(db.checkIns[p]) else None,
              if p in db.marks then Some(db.marks[p].markedAt) else None)
  }

  /** The students the `INNER JOIN` of `students` with `registrations` keeps. */
  function RegisteredStudents(db: Db, event: int): set<int> {
    set s | s in db.students && IsRegistered(db, Pair(s, event))
  }

  /** The registrations the `INNER JOIN` keeps for the event: its own rows whose student exists. */
  predicate Joins(db: Db, r: Registration, event: int) {
    r.event == event && r.student in db.students
  }

  /** The join, before sorting: one row per matching registration, in table order. */
  function JoinRows(db: Db, regs: seq<Registration>, event: int): seq<RosterRow>
    decreases |regs|
  {
    if regs == [] then []
    else if Joins(db, regs[0], event) then
      [RowOf(db, regs[0].student, event)] + JoinRows(db, regs[1..], event)
    else JoinRows(db, regs[1..], event)
  }

  /** Every joined row is the query's row for a student registered in `regs`. */
  lemma {:induction false} JoinRowsSound(db: Db, regs: seq<Registration>, event: int)
    ensures forall y :: y in JoinRows(db, regs, event) ==>
              && y.id in db.students && y == RowOf(db, y.id, event)
              && exists r :: r in regs && Joins(db, r, event) && r.student == y.id
    decreases |regs|
  {
    if regs != [] {
      JoinRowsSound(db, regs[1..], event);
      forall y | y in JoinRows(db, regs[1..], event)
        ensures exists r :: r in regs && Joins(db, r, event) && r.student == y.id
      {
        var r :| r in regs[1..] && Joins(db, r, event) && r.student == y.id;
        assert r in regs;
      }
    }
  }

  /** Every registration the join keeps yields its row. */
  lemma {:induction false} JoinRowsComplete(db: Db, regs: seq<Registration>, event: int)
    ensures forall r :: r in regs && Joins(db, r, event) ==>
              RowOf(db, r.student, event) in JoinRows(db, regs, event)
    decreases |regs|
  {
    if regs != [] {
      JoinRowsComplete(db, regs[1..], event);
      assert forall r :: r in regs ==> r == regs[0] || r in regs[1..];
    }
  }

  predicate UniquePairs(regs: seq<Registration>) {
    forall i, j :: 0 <= i < j < |regs| ==> PairOf(regs[i]) != PairOf(regs[j])
  }

  predicate DistinctIds(rows: seq<RosterRow>) {
    forall i, j :: 0 <= i < j < |rows| ==> rows[i].id != rows[j].id
  }

  /** UNIQUE(student_id, event_id) gives one joined row per student. */
  lemma {:induction false} JoinRowsDistinct(db: Db, regs: seq<Registration>, event: int)
    requires UniquePairs(regs)
    ensures DistinctIds(JoinRows(db, regs, event))
    decreases |regs|
  {
    if regs != [] {
      var tail := regs[1..];
      assert UniquePairs(tail) by {
        forall i, j | 0 <= i < j < |tail|
          ensures PairOf(tail[i]) != PairOf(tail[j])
        {
          assert tail[i] == regs[i + 1] && tail[j] == regs[j + 1];
        }
      }
      JoinRowsDistinct(db, tail, event);
      if Joins(db, regs[0], event) {
        var rest := JoinRows(db, tail, event);
        JoinRowsSound(db, tail, event);
        forall y | y in rest
          ensures y.id != regs[0].student
        {
          var r :| r in tail && Joins(db, r, event) && r.student == y.id;
          var j :| 0 <= j < |tail| && tail[j] == r;
          assert regs[j + 1] == r;
        }
        var rows := [RowOf(db, regs[0].student, event)] + rest;
        forall i, j | 0 <= i < j < |rows|
          ensures rows[i].id != rows[j].id
        {
          if i == 0 {
            assert rows[j] == rest[j - 1];
            assert rows[j] in rest;
          } else {
            assert rows[i] == rest[i - 1] && rows[j] == rest[j - 1];
          }
        }
      }
    }
  }

  /** The `ORDER BY s.name` key; SQLite leaves ties unordered, the model breaks them by id. */
  predicate RowLe(a: RosterRow, b: RosterRow) {
    Names.Less(a.name, b.name) || (a.name == b.name && a.id <= b.id)
  }

  lemma RowLeTotal(a: RosterRow, b: RosterRow)
    ensures RowLe(a, b) || RowLe(b, a)
  {
    Names.Trichotomy(a.name, b.name);
  }

  lemma RowLeTransitive(a: RosterRow, b: RosterRow, c: RosterRow)
    requires RowLe(a, b) && RowLe(b, c)
    ensures RowLe(a, c)
  {
    if Names.Less(a.name, b.name) && Names.Less(b.name, c.name) {
      Names.Transitive(a.name, b.name, c.name);
    }
  }

  predicate SortedByName(rows: seq<RosterRow>) {
    forall i, j :: 0 <= i < j < |rows| ==> RowLe(rows[i], rows[j])
  }

  function Insert(x: RosterRow, rows: seq<RosterRow>): seq<RosterRow>
    decreases |rows|
  {
    if rows == [] then [x]
    else if RowLe(x, rows[0]) then [x] + rows
    else [rows[0]] + Insert(x, rows[1..])
  }

  /** Inserting keeps every row, adds `x`, and keeps the order. */
  lemma {:induction false} InsertSpec(x: RosterRow, rows: seq<RosterRow>)
    ensures |Insert(x, rows)| == |rows| + 1
    ensures forall y :: y in Insert(x, rows) <==> y == x || y in rows
    ensures SortedByName(rows) ==> SortedByName(Insert(x, rows))
    decreases |rows|
  {
    if rows == [] {
    } else if RowLe(x, rows[0]) {
      if SortedByName(rows) {
        var r := [x] + rows;
        forall i, j | 0 <= i < j < |r|
          ensures RowLe(r[i], r[j])
        {
          if i == 0 && j > 1 {
            RowLeTransitive(x, rows[0], rows[j - 1]);
          }
        }
      }
    } else {
      var tail := rows[1..];
      InsertSpec(x, tail);
      assert rows == [rows[0]] + tail;
      RowLeTotal(x, rows[0]);
      if SortedByName(rows) {
        var rest := Insert(x, tail);
        var r := [rows[0]] + rest;
        forall i, j | 0 <= i < j < |r|
          ensures RowLe(r[i], r[j])
        {
          if i == 0 {
            assert r[j] == rest[j - 1] && r[j] in rest;
            if r[j] != x {
              var k :| 0 <= k < |tail| && tail[k] == r[j];
              assert rows[k + 1] == r[j];
            }
          } else {
            assert r[i] == rest[i - 1] && r[j] == rest[j - 1];
          }
        }
      }
    }
  }

  /** Inserting adds exactly one copy of `x`. */
  lemma {:induction false} InsertPermutes(x: RosterRow, rows: seq<RosterRow>)
    ensures multiset(Insert(x, rows)) == multiset(rows) + multiset{x}
    decreases |rows|
  {
    if rows != [] && !RowLe(x, rows[0]) {
      InsertPermutes(x, rows[1..]);
      assert rows == [rows[0]] + rows[1..];
    }
  }

  /** Sorting keeps each row as many times as it occurs. */
  lemma {:induction false} SortPermutes(rows: seq<RosterRow>)
    ensures multiset(Sort(rows)) == multiset(rows)
    decreases |rows|
  {
    if rows != [] {
      var tail := rows[1..];
      var sorted := Sort(tail);
      SortPermutes(tail);
      InsertPermutes(rows[0], sorted);
      assert Sort(rows) == Insert(rows[0], sorted);
      assert rows == [rows[0]] + tail;
      assert multiset(rows) == multiset{rows[0]} + multiset(tail);
    }
  }

  function Sort(rows: seq<RosterRow>): seq<RosterRow>
    decreases |rows|
  {
    if rows == [] then [] else Insert(rows[0], Sort(rows[1..]))
  }

  /** Sorting keeps exactly the rows it is given, one for one, in name order. */
  lemma {:induction false} SortSpec(rows: seq<RosterRow>)
    ensures |Sort(rows)| == |rows|
    ensures multiset(Sort(rows)) == multiset(rows)
    ensures forall y :: y in Sort(rows) <==> y in rows
    ensures SortedByName(Sort(rows))
    ensures DistinctIds(rows) ==> DistinctIds(Sort(rows))
    decreases |rows|
  {
    SortPermutes(rows);
    SortDistinct(rows);
    if rows != [] {
      var tail := rows[1..];
      SortSpec(tail);
      InsertSpec(rows[0], Sort(tail));
      assert rows == [rows[0]] + tail;
    }
  }

  /** Sorting rows with distinct ids keeps them distinct. */
  lemma {:induction false} SortDistinct(rows: seq<RosterRow>)
    ensures DistinctIds(rows) ==> DistinctIds(Sort(rows))
    decreases |rows|
  {
    if rows != [] && DistinctIds(rows) {
      var tail := rows[1..];
      assert DistinctIds(tail) by {
        forall i, j | 0 <= i < j < |tail|
          ensures tail[i].id != tail[j].id
        {
          assert tail[i] == rows[i + 1] && tail[j] == rows[j + 1];
        }
      }
      SortDistinct(tail);
      SortPermutes(tail);
      InsertDistinct(rows[0], Sort(tail));
      forall y | y in Sort(tail)
        ensures y.id != rows[0].id
      {
        assert y in multiset(Sort(tail));
        var k :| 0 <= k < |tail| && tail[k] == y;
        assert rows[k + 1] == y;
      }
    }
  }

  /** Inserting a row whose id is new keeps the ids distinct. */
  lemma {:induction false} InsertDistinct(x: RosterRow, rows: seq<RosterRow>)
    ensures DistinctIds(rows) && (forall y :: y in rows ==> y.id != x.id)
            ==> DistinctIds(Insert(x, rows))
    decreases |rows|
  {
    if rows != [] && DistinctIds(rows) && (forall y :: y in rows ==> y.id != x.id) {
      var tail := rows[1..];
      if !RowLe(x, rows[0]) {
        assert DistinctIds(tail) by {
          forall i, j | 0 <= i < j < |tail|
            ensures tail[i].id != tail[j].id
          {
            assert tail[i] == rows[i + 1] && tail[j] == rows[j + 1];
          }
        }
        assert forall y :: y in tail ==> y in rows;
        InsertDistinct(x, tail);
        InsertSpec(x, tail);
        var rest := Insert(x, tail);
        var r := [rows[0]] + rest;
        forall i, j | 0 <= i < j < |r|
          ensures r[i].id != r[j].id
        {
          if i == 0 {
            assert r[j] == rest[j - 1] && r[j] in rest;
            if r[j] != x {
              var k :| 0 <= k < |tail| && tail[k] == r[j];
              assert rows[k + 1] == r[j];
            }
          } else {
            assert r[i] == rest[i - 1] && r[j] == rest[j - 1];
          }
        }
      } else {
        var r := [x] + rows;
        forall i, j | 0 <= i < j < |r|
          ensures r[i].id != r[j].id
        {
          if i == 0 {
            assert r[j] == rows[j - 1] && r[j] in rows;
          } else {
            assert r[i] == rows[i - 1] && r[j] == rows[j - 1];
          }
        }
      }
    }
  }

  /** The resolver: the full roster of one event. */
  function Roster(db: Db, event: int): seq<RosterRow> {
    Sort(JoinRows(db, db.registrations, event))
  }

  /** The student ids a roster lists. */
  function Ids(rows: seq<RosterRow>): set<int> {
    set y | y in rows :: y.id
  }

  /**
   * The roster holds exactly the registered students of the event, each
   * with the row the query computes for it, once each, ordered by name.
   */
  lemma RosterSpec(db: Db, event: int)
    requires Valid(db)
    ensures var r := Roster(db, event);
      && SortedByName(r)
      && Ids(r) == RegisteredStudents(db, event)
      && (forall y :: y in r ==> y.id in db.students && y == RowOf(db, y.id, event))
      && DistinctIds(r)
  {
    var regs := db.registrations;
    var j := JoinRows(db, regs, event);
    SortSpec(j);
    JoinRowsSound(db, regs, event);
    JoinRowsComplete(db, regs, event);
    JoinRowsDistinct(db, regs, event);
    var r := Roster(db, event);
    forall s | s in RegisteredStudents(db, event)
      ensures s in Ids(r)
    {
      var i :| 0 <= i < |regs| && PairOf(regs[i]) == Pair(s, event);
      assert Joins(db, regs[i], event);
      assert RowOf(db, s, event) in r;
    }
    forall s | s in Ids(r)
      ensures s in RegisteredStudents(db, event)
    {
      var y :| y in r && y.id == s;
      var reg :| reg in regs && Joins(db, reg, event) && reg.student == s;
      var i :| 0 <= i < |regs| && regs[i] == reg;
    }
  }

  /** A student is on the roster of an event exactly when registered for it. */
  lemma OnRosterIffRegistered(db: Db, event: int, student: int)
    requires Valid(db)
    ensures student in Ids(Roster(db, event))
            <==> student in db.students && IsRegistered(db, Pair(student, event))
  {
    RosterSpec(db, event);
  }
}
