/**
 * The reconciliation logic of the admin portal (admin-portal/admin.js):
 * the live attendance table with its completion indicator, badges and
 * mark actions, the `attendance-updated` guard, the registration event
 * filter, the select-all tri-state, and the local edits of the cached
 * registration list after verify and delete requests.
 */
module AdminClient {

  import opened Basics
  import opened Wire
  import opened Seqs
  import Tables

  /** The status column's action cell. */
  datatype Action = ConfirmedAttended | ConfirmedAbsent | MarkButtons(student: int, event: int)

  /** `getAttendanceActionButtons`: marked rows are confirmed, any other status offers both buttons. */
  function Actions(student: int, event: int, status: string): (a: Action)
    ensures a.MarkButtons? <==> status != "attended" && status != "absent"
    ensures a.MarkButtons? ==> a == MarkButtons(student, event)
    ensures a == ConfirmedAttended <==> StatusBadge(status) == AttendedBadge
    ensures a == ConfirmedAbsent <==> StatusBadge(status) == AbsentBadge
  {
    if status == "attended" then ConfirmedAttended
    else if status == "absent" then ConfirmedAbsent
    else MarkButtons(student, event)
  }

  predicate IsMarked(row: RowJson) {
    row.status == "attended" || row.status == "absent"
  }

  /** The completion indicator: a non-empty roster with every row marked. */
  function Complete(rows: seq<RowJson>): (c: bool)
    ensures c ==> forall i :: 0 <= i < |rows| ==> !Actions(rows[i].id, 0, rows[i].status).MarkButtons?
  {
    |rows| > 0 && forall i :: 0 <= i < |rows| ==> IsMarked(rows[i])
  }

  /** One rendered table row. */
  datatype TableRow = TableRow(name: string, studentId: string, email: string, badge: Badge, action: Action)

  /**
   * What `updateAttendanceTable` leaves on screen: nothing touched, the
   * "No students found" row (indicators untouched), or the table with the
   * completion indicator on or off.
   */
  datatype TableView = Untouched | NoStudents | Rendered(rows: seq<TableRow>, complete: bool)

  function RenderRow(row: RowJson, event: int): TableRow {
    TableRow(row.name, row.studentId, row.email, StatusBadge(row.status), Actions(row.id, event, row.status))
  }

  /**
   * `updateAttendanceTable(data, eventId)`: a falsy `eventId` falls back to
   * the event being viewed, and a falsy result of that leaves the page
   * alone.
   */
  function UpdateTable(rows: seq<RowJson>, eventId: Option<int>, viewed: Option<int>): (v: TableView)
    ensures v.Untouched? <==> !Truthy(eventId) && !Truthy(viewed)
    ensures v.NoStudents? <==> (Truthy(eventId) || Truthy(viewed)) && rows == []
    ensures v.Rendered? ==>
              && |v.rows| == |rows|
              && (forall i :: 0 <= i < |rows| ==>
                    v.rows[i].name == rows[i].name && v.rows[i].badge == StatusBadge(rows[i].status)
                    && (v.rows[i].action.MarkButtons? <==> !IsMarked(rows[i])))
              && (v.complete <==> forall i :: 0 <= i < |rows| ==> IsMarked(rows[i]))
  {
    var event := if Truthy(eventId) then eventId else viewed;
    if !Truthy(event) then Untouched
    else if rows == [] then NoStudents
    else Rendered(seq(|rows|, i requires 0 <= i < |rows| => RenderRow(rows[i], event.value)), Complete(rows))
  }

  /** The `attendance-updated` guard: re-render only the attendance section showing that event. */
  predicate ShouldRender(section: string, viewed: Option<int>, snap: Snapshot) {
    section == "attendance" && viewed == Some(snap.eventId)
  }

  /** The admin's reaction to a pushed snapshot. */
  function OnAttendanceUpdated(section: string, viewed: Option<int>, snap: Snapshot): (v: TableView)
    ensures !v.Untouched? ==> section == "attendance" && viewed == Some(snap.eventId)
    ensures section == "attendance" && viewed == Some(snap.eventId) ==>
              v == UpdateTable(snap.attendanceData, Some(snap.eventId), viewed)
  {
    if ShouldRender(section, viewed, snap) then UpdateTable(snap.attendanceData, Some(snap.eventId), viewed)
    else Untouched
  }

  /**
   * `filterRegistrationsByEvent`: the empty selection shows every
   * registration, an event id those for that event, in their order.
   */
  function FilterByEvent(all: seq<RegJson>, selected: Option<int>): (r: seq<RegJson>)
    ensures selected.None? ==> r == all
    ensures selected.Some? ==> forall x :: x in r <==> x in all && x.eventId == selected.value
    ensures IsSubsequence(r, all)
  {
    if selected.None? then
      FilterAll(all, (x: RegJson) => true);
      FilterSpec(all, (x: RegJson) => true);
      all
    else
      FilterSpec(all, (x: RegJson) => x.eventId == selected.value);
      Filter(all, (x: RegJson) => x.eventId == selected.value)
  }

  /** One `.registration-checkbox`: its registration id and whether it is ticked. */
  datatype Checkbox = Checkbox(value: int, checked: bool)

  datatype TriState = Unchecked | Checked | Indeterminate

  /** The selection and the select-all box's state after `updateSelection`. */
  datatype Selection = Selection(selected: set<int>, selectAll: TriState)

  function Ticked(boxes: seq<Checkbox>): (r: set<int>)
    ensures forall v :: v in r <==> exists i :: 0 <= i < |boxes| && boxes[i].checked && boxes[i].value == v
  {
    set i | 0 <= i < |boxes| && boxes[i].checked :: boxes[i].value
  }

  /**
   * `updateSelection`: the selection is the ticked values; the select-all
   * box compares the selection's size with the number of boxes.
   */
  function UpdateSelection(boxes: seq<Checkbox>): (s: Selection)
    ensures forall v :: v in s.selected <==> exists b :: b in boxes && b.checked && b.value == v
    ensures s.selectAll == Unchecked <==> s.selected == {}
    ensures s.selectAll == Checked <==> s.selected != {} && |s.selected| == |boxes|
  {
    var selected := Ticked(boxes);
    var n := |selected|;
    assert forall b :: b in boxes <==> exists i :: 0 <= i < |boxes| && boxes[i] == b;
    Selection(selected,
      if n == 0 then Unchecked else if n == |boxes| then Checked else Indeterminate)
  }

  predicate DistinctValues(boxes: seq<Checkbox>) {
    forall i, j :: 0 <= i < j < |boxes| ==> boxes[i].value != boxes[j].value
  }

  /** With one box per registration the count of ticked boxes is the selection's size. */
  lemma {:induction false} TickedCount(boxes: seq<Checkbox>)
    requires DistinctValues(boxes)
    ensures |Ticked(boxes)| == |Filter(boxes, (b: Checkbox) => b.checked)|
    decreases |boxes|
  {
    if boxes != [] {
      var tail := boxes[1..];
      assert DistinctValues(tail) by {
        forall i, j | 0 <= i < j < |tail|
          ensures tail[i].value != tail[j].value
        {
          assert tail[i] == boxes[i + 1] && tail[j] == boxes[j + 1];
        }
      }
      TickedCount(tail);
      var rest := Ticked(tail);
      assert boxes[0].value !in rest by {
        forall k | 0 <= k < |tail| && tail[k].checked
          ensures tail[k].value != boxes[0].value
        {
          assert tail[k] == boxes[k + 1];
        }
      }
      TickedCons(boxes);
    }
  }

  /** The ticked values of a non-empty row of boxes: the first box's, if ticked, and the rest's. */
  lemma TickedCons(boxes: seq<Checkbox>)
    requires boxes != []
    ensures Ticked(boxes) == (if boxes[0].checked then {boxes[0].value} else {}) + Ticked(boxes[1..])
  {
    var tail := boxes[1..];
    var rest := Ticked(tail);
    var head: set<int> := if boxes[0].checked then {boxes[0].value} else {};
    forall v | v in Ticked(boxes)
      ensures v in head + rest
    {
      var i :| 0 <= i < |boxes| && boxes[i].checked && boxes[i].value == v;
      if i > 0 {
        assert tail[i - 1] == boxes[i];
      }
    }
    forall v | v in rest
      ensures v in Ticked(boxes)
    {
      var k :| 0 <= k < |tail| && tail[k].checked && tail[k].value == v;
      assert boxes[k + 1] == tail[k];
    }
  }

  lemma {:induction false} FilterAllLength<T>(xs: seq<T>, keep: T -> bool)
    requires |Filter(xs, keep)| == |xs|
    ensures forall i :: 0 <= i < |xs| ==> keep(xs[i])
    decreases |xs|
  {
    if xs != [] {
      FilterSpec(xs[1..], keep);
      FilterAllLength(xs[1..], keep);
      forall i | 0 <= i < |xs|
        ensures keep(xs[i])
      {
        if i > 0 {
          assert xs[i] == xs[1..][i - 1];
        }
      }
    }
  }

  /**
   * With one box per registration the select-all box is checked exactly
   * when there are boxes and all are ticked, unchecked when none is, and
   * indeterminate otherwise.
   */
  lemma TriStateMeaning(boxes: seq<Checkbox>)
    requires DistinctValues(boxes)
    ensures UpdateSelection(boxes).selectAll == Checked <==>
              |boxes| > 0 && forall i :: 0 <= i < |boxes| ==> boxes[i].checked
    ensures UpdateSelection(boxes).selectAll == Unchecked <==>
              forall i :: 0 <= i < |boxes| ==> !boxes[i].checked
  {
    var keep := (b: Checkbox) => b.checked;
    TickedCount(boxes);
    FilterSpec(boxes, keep);
    if |Ticked(boxes)| == |boxes| {
      FilterAllLength(boxes, keep);
    }
    if forall i :: 0 <= i < |boxes| ==> boxes[i].checked {
      FilterAll(boxes, keep);
    }
    if exists i :: 0 <= i < |boxes| && boxes[i].checked {
      var i :| 0 <= i < |boxes| && boxes[i].checked;
      assert boxes[i].value in Ticked(boxes);
    }
  }

  /** `verifyRegistration` after an ok response: the first row with the id is marked verified now. */
  function VerifyLocal(all: seq<RegJson>, id: int, now: Tables.Time, ok: bool): (r: seq<RegJson>)
    ensures |r| == |all|
    ensures !ok ==> r == all
    ensures ok && (forall i :: 0 <= i < |all| ==> all[i].id != id) ==> r == all
    ensures ok ==> forall i :: 0 <= i < |all| && all[i].id != id ==> r[i] == all[i]
    ensures ok ==> forall i :: 0 <= i < |all| && r[i] != all[i] ==>
                     r[i] == all[i].(verified := Num(1), verifiedAt := Some(now))
                     && forall j :: 0 <= j < i ==> all[j].id != id
    ensures ok && (exists i :: 0 <= i < |all| && all[i].id == id) ==>
              exists i :: 0 <= i < |all| && all[i].id == id && IsVerified(r[i].verified)
  {
    if !ok then all
    else match FirstWithId(all, id)
      case None => all
      case Some(i) => all[i := all[i].(verified := Num(1), verifiedAt := Some(now))]
  }

  /** `findIndex(reg => reg.id === id)`. */
  function FirstWithId(all: seq<RegJson>, id: int): (r: Option<nat>)
    ensures r.None? <==> forall i :: 0 <= i < |all| ==> all[i].id != id
    ensures r.Some? ==> r.value < |all| && all[r.value].id == id
                        && forall j :: 0 <= j < r.value ==> all[j].id != id
    decreases |all|
  {
    if all == [] then None
    else if all[0].id == id then Some(0)
    else match FirstWithId(all[1..], id)
      case None => None
      case Some(k) => Some(k + 1)
  }

  /** A bulk action's outcome on the cache and the selection. */
  datatype Local = Local(all: seq<RegJson>, selected: set<int>)

  /** The cached rows with every row whose id is in `ids` marked verified at `now`. */
  function MarkSet(all: seq<RegJson>, ids: set<int>, now: Tables.Time): (r: seq<RegJson>)
    ensures |r| == |all|
    ensures forall i :: 0 <= i < |all| ==> r[i].id == all[i].id
  {
    seq(|all|, i requires 0 <= i < |all| =>
      if all[i].id in ids then all[i].(verified := Num(1), verifiedAt := Some(now)) else all[i])
  }

  /**
   * `verifySelectedRegistrations`: with a selection and no failed
   * request, every selected row is verified and the selection cleared;
   * otherwise nothing changes locally.
   */
  function VerifySelectedLocal(all: seq<RegJson>, selected: set<int>, failures: nat, now: Tables.Time): (r: Local)
    ensures selected == {} || failures > 0 ==> r == Local(all, selected)
    ensures selected != {} && failures == 0 ==>
              && r.selected == {}
              && |r.all| == |all|
              && forall i :: 0 <= i < |all| ==>
                   r.all[i] == (if all[i].id in selected
                                then all[i].(verified := Num(1), verifiedAt := Some(now)) else all[i])
  {
    if selected == {} || failures > 0 then Local(all, selected)
    else Local(MarkSet(all, selected, now), {})
  }

  /** The ids listed in a sequence, as a set. */
  function Elems(ids: seq<int>): set<int> {
    set k | k in ids
  }

  /** No two cached rows share an id. */
  predicate DistinctRegIds(all: seq<RegJson>) {
    forall i, j :: 0 <= i < j < |all| ==> all[i].id != all[j].id
  }

  /** `verifyRegistration` applied to each id in turn, every request succeeding. */
  function VerifyEach(all: seq<RegJson>, ids: seq<int>, now: Tables.Time): seq<RegJson>
    decreases |ids|
  {
    if ids == [] then all else VerifyEach(VerifyLocal(all, ids[0], now, true), ids[1..], now)
  }

  /** With distinct ids, verifying one id in place is marking the singleton set. */
  lemma VerifyOneIsMarkSet(all: seq<RegJson>, id: int, now: Tables.Time)
    requires DistinctRegIds(all)
    ensures VerifyLocal(all, id, now, true) == MarkSet(all, {id}, now)
  {
    var r := VerifyLocal(all, id, now, true);
    var m := MarkSet(all, {id}, now);
    forall i | 0 <= i < |all|
      ensures r[i] == m[i]
    {
      if all[i].id == id {
        assert exists k :: 0 <= k < |all| && all[k].id == id;
        var k :| 0 <= k < |all| && all[k].id == id && IsVerified(r[k].verified);
        assert k == i;
      }
    }
  }

  /** Verifying the ids one by one marks exactly the listed ids. */
  lemma {:induction false} VerifyEachIsMarkSet(all: seq<RegJson>, ids: seq<int>, now: Tables.Time)
    requires DistinctRegIds(all)
    ensures VerifyEach(all, ids, now) == MarkSet(all, Elems(ids), now)
    decreases |ids|
  {
    if ids == [] {
      assert MarkSet(all, {}, now) == all;
    } else {
      VerifyOneIsMarkSet(all, ids[0], now);
      var once := MarkSet(all, {ids[0]}, now);
      VerifyEachIsMarkSet(once, ids[1..], now);
      assert ids == [ids[0]] + ids[1..];
      assert Elems(ids) == {ids[0]} + Elems(ids[1..]);
    }
  }

  /**
   * The bulk verification of a non-empty selection leaves the cache as
   * `verifyRegistration` would, called once per selected id.
   */
  lemma BulkVerifyIsRepeatedVerify(all: seq<RegJson>, ids: seq<int>, now: Tables.Time)
    requires DistinctRegIds(all)
    requires ids != []
    ensures VerifySelectedLocal(all, Elems(ids), 0, now) == Local(VerifyEach(all, ids, now), {})
  {
    assert ids[0] in Elems(ids);
    VerifyEachIsMarkSet(all, ids, now);
  }

  /** The cached rows whose id is not in `ids`, in order. */
  function WithoutIds(all: seq<RegJson>, ids: set<int>): (r: seq<RegJson>)
    ensures forall x :: x in r <==> x in all && x.id !in ids
    ensures IsSubsequence(r, all)
    decreases |all|
  {
    if all == [] then []
    else
      var rest := WithoutIds(all[1..], ids);
      assert forall x :: x in all <==> x == all[0] || x in all[1..];
      if all[0].id in ids then
        SubsequenceOfTail(rest, all);
        rest
      else
        assert ([all[0]] + rest)[1..] == rest;
        [all[0]] + rest
  }

  /** `deleteRegistration` after an ok response: the id leaves the cache and the selection. */
  function DeleteLocal(all: seq<RegJson>, selected: set<int>, id: int, ok: bool): (r: Local)
    ensures !ok ==> r == Local(all, selected)
    ensures ok ==> r.selected == selected - {id}
    ensures ok ==> (forall x :: x in r.all <==> x in all && x.id != id) && IsSubsequence(r.all, all)
  {
    if !ok then Local(all, selected) else Local(WithoutIds(all, {id}), selected - {id})
  }

  /**
   * `deleteSelectedRegistrations`: with a selection and no failed
   * request, exactly the selected rows leave the cache and the selection
   * is cleared; otherwise nothing changes locally.
   */
  function DeleteSelectedLocal(all: seq<RegJson>, selected: set<int>, failures: nat): (r: Local)
    ensures selected == {} || failures > 0 ==> r == Local(all, selected)
    ensures selected != {} && failures == 0 ==>
              && r.selected == {}
              && (forall x :: x in r.all <==> x in all && x.id !in selected)
              && IsSubsequence(r.all, all)
  {
    if selected == {} || failures > 0 then Local(all, selected)
    else Local(WithoutIds(all, selected), {})
  }

  /** Removing one set of ids and then another is removing their union. */
  lemma {:induction false} WithoutIdsTwice(all: seq<RegJson>, a: set<int>, b: set<int>)
    ensures WithoutIds(WithoutIds(all, a), b) == WithoutIds(all, a + b)
    decreases |all|
  {
    if all != [] {
      WithoutIdsTwice(all[1..], a, b);
      var rest := WithoutIds(all[1..], a);
      if all[0].id !in a {
        assert ([all[0]] + rest)[1..] == rest;
      }
    }
  }

  /** `deleteRegistration` applied to each id in turn, every request succeeding. */
  function DeleteEach(l: Local, ids: seq<int>): Local
    decreases |ids|
  {
    if ids == [] then l else DeleteEach(DeleteLocal(l.all, l.selected, ids[0], true), ids[1..])
  }

  /** Deleting ids one by one removes exactly those ids from the cache and the selection. */
  lemma {:induction false} DeleteEachRemoves(l: Local, ids: seq<int>)
    ensures DeleteEach(l, ids) == Local(WithoutIds(l.all, Elems(ids)), l.selected - Elems(ids))
    decreases |ids|
  {
    if ids == [] {
      assert Elems(ids) == {};
      WithoutAbsent(l.all, {});
    } else {
      var once := DeleteLocal(l.all, l.selected, ids[0], true);
      DeleteEachRemoves(once, ids[1..]);
      WithoutIdsTwice(l.all, {ids[0]}, Elems(ids[1..]));
      assert ids == [ids[0]] + ids[1..];
      assert Elems(ids) == {ids[0]} + Elems(ids[1..]);
    }
  }

  /** Removing ids no cached row carries keeps the cache. */
  lemma {:induction false} WithoutAbsent(all: seq<RegJson>, ids: set<int>)
    requires forall i :: 0 <= i < |all| ==> all[i].id !in ids
    ensures WithoutIds(all, ids) == all
    decreases |all|
  {
    if all != [] {
      WithoutAbsent(all[1..], ids);
      assert all == [all[0]] + all[1..];
    }
  }

  /** Removing ids from a concatenation removes them from each part. */
  lemma {:induction false} WithoutIdsAppend(a: seq<RegJson>, b: seq<RegJson>, ids: set<int>)
    ensures WithoutIds(a + b, ids) == WithoutIds(a, ids) + WithoutIds(b, ids)
    decreases |a|
  {
    if a == [] {
      assert a + b == b;
    } else {
      var ab := a + b;
      assert ab[0] == a[0];
      assert ab[1..] == a[1..] + b;
      WithoutIdsAppend(a[1..], b, ids);
      var head := if a[0].id in ids then [] else [a[0]];
      assert WithoutIds(ab, ids) == head + WithoutIds(ab[1..], ids);
      assert WithoutIds(a, ids) == head + WithoutIds(a[1..], ids);
      ConcatAssoc(head, WithoutIds(a[1..], ids), WithoutIds(b, ids));
    }
  }

  lemma ConcatAssoc(p: seq<RegJson>, q: seq<RegJson>, r: seq<RegJson>)
    ensures p + (q + r) == (p + q) + r
  {
  }

  /**
   * The bulk deletion of a non-empty selection leaves the same cache and
   * selection as `deleteRegistration` called once per selected id.
   */
  lemma BulkDeleteIsRepeatedDelete(all: seq<RegJson>, ids: seq<int>)
    requires ids != []
    ensures DeleteSelectedLocal(all, Elems(ids), 0) == DeleteEach(Local(all, Elems(ids)), ids)
  {
    assert ids[0] in Elems(ids);
    DeleteEachRemoves(Local(all, Elems(ids)), ids);
  }
}
