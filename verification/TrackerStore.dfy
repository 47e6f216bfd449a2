/** internal/database/tracker.go: the writes behind a checkout and behind the dashboard's done button.
    One object stands for the tables; every method is one committed or rolled back transaction. */
module TrackerStore {
  import opened Calendar
  import opened TrackerCalendar
  import opened Tracker

  datatype Attendance = Attendance(id: int, studentName: string, day: int, second: int, open: bool)

  /** A status a student or a parent sent for an item. */
  datatype Answer = Answer(item: int, done: bool)

  predicate OpenToday(a: Attendance, name: string, today: int) {
    a.studentName == name && a.day == today && a.open
  }

  function CountOpen(rows: seq<Attendance>, name: string, today: int): nat {
    if rows == [] then 0
    else CountOpen(rows[..|rows| - 1], name, today) + if OpenToday(rows[|rows| - 1], name, today) then 1 else 0
  }

  function CheckedOut(rows: seq<Attendance>, name: string, today: int): (out: seq<Attendance>)
    ensures |out| == |rows|
    ensures forall i :: 0 <= i < |rows| ==>
              out[i] == if OpenToday(rows[i], name, today) then rows[i].(open := false) else rows[i]
  {
    if rows == [] then []
    else
      var last := rows[|rows| - 1];
      CheckedOut(rows[..|rows| - 1], name, today)
      + [if OpenToday(last, name, today) then last.(open := false) else last]
  }

  /** Nobody of that name is checked in any more, so the same request again does nothing. */
  lemma {:induction false} CheckedOutIsClosed(rows: seq<Attendance>, name: string, today: int)
    ensures CountOpen(CheckedOut(rows, name, today), name, today) == 0
    ensures CheckedOut(CheckedOut(rows, name, today), name, today) == CheckedOut(rows, name, today)
  {
    if rows != [] {
      var front, out := rows[..|rows| - 1], CheckedOut(rows, name, today);
      CheckedOutIsClosed(front, name, today);
      assert out[..|out| - 1] == CheckedOut(front, name, today);
    }
  }

  lemma {:induction false} OpenRowExists(rows: seq<Attendance>, name: string, today: int)
    ensures CountOpen(rows, name, today) > 0 <==> exists a <- rows :: OpenToday(a, name, today)
  {
    if rows != [] {
      OpenRowExists(rows[..|rows| - 1], name, today);
      assert rows[|rows| - 1] in rows;
      assert forall a <- rows :: a in rows[..|rows| - 1] || a == rows[|rows| - 1];
    }
  }

  predicate LatestCheckIn(rows: seq<Attendance>, name: string, today: int, a: Attendance) {
    && a in rows && a.studentName == name && a.day == today
    && forall b <- rows :: b.studentName == name && b.day == today ==> b.second <= a.second
  }

  /** With nobody to check out the rows stay as they are; otherwise there is a check-in of today. */
  lemma NothingOpen(rows: seq<Attendance>, name: string, today: int)
    ensures CountOpen(rows, name, today) == 0 ==> CheckedOut(rows, name, today) == rows
    ensures CountOpen(rows, name, today) > 0 ==>
              exists b <- CheckedOut(rows, name, today) :: b.studentName == name && b.day == today
  {
    OpenRowExists(rows, name, today);
    var out := CheckedOut(rows, name, today);
    if CountOpen(rows, name, today) > 0 {
      var a :| a in rows && OpenToday(a, name, today);
      var k :| 0 <= k < |rows| && rows[k] == a;
      assert out[k] in out && out[k].studentName == name && out[k].day == today;
    } else {
      hide CheckedOut, CountOpen;
      assert forall k :: 0 <= k < |rows| ==> rows[k] in rows && out[k] == rows[k];
    }
  }

  function Recorded(student: string, answers: seq<Answer>, today: int, attendance: int): (rs: seq<Response>)
    ensures |rs| == |answers|
    ensures forall i :: 0 <= i < |rs| ==>
              rs[i] == Response(student, answers[i].item, answers[i].done, today, None, attendance)
  {
    seq(|answers|, i requires 0 <= i < |answers| =>
        Response(student, answers[i].item, answers[i].done, today, None, attendance))
  }

  /** The items with one marked, or unmarked, as completed. */
  function Marked(items: seq<Item>, id: int, completed: bool): (out: seq<Item>)
    ensures |out| == |items|
    ensures forall i :: 0 <= i < |items| ==>
              out[i] == if items[i].id == id then items[i].(completed := completed) else items[i]
  {
    seq(|items|, i requires 0 <= i < |items| =>
        if items[i].id == id then items[i].(completed := completed) else items[i])
  }

  /** Written by the dashboard, as far as the table can tell: no attendance row stands behind it. Late
      sign-offs look the same. */
  predicate DashboardDone(r: Response, id: int) {
    r.item == id && r.done && r.attendance == 0
  }

  function WithoutDashboard(rs: seq<Response>, id: int): (out: seq<Response>)
    ensures forall r :: r in out <==> r in rs && !DashboardDone(r, id)
    ensures |out| <= |rs|
  {
    if rs == [] then []
    else
      var last := rs[|rs| - 1];
      assert rs == rs[..|rs| - 1] + [last];
      WithoutDashboard(rs[..|rs| - 1], id) + if DashboardDone(last, id) then [] else [last]
  }

  /** The student of a personal item; other items have no student, and reading one fails. */
  function OwnerOf(items: seq<Item>, id: int): Option<string> {
    if items == [] then None
    else if items[0].id == id then (if items[0].scope.Personal? then Some(items[0].scope.student) else None)
    else OwnerOf(items[1..], id)
  }

  class Database {
    var items: seq<Item>
    var responses: seq<Response>
    var attendance: seq<Attendance>

    constructor (items: seq<Item>, responses: seq<Response>, attendance: seq<Attendance>)
      ensures this.items == items && this.responses == responses && this.attendance == attendance
    {
      this.items, this.responses, this.attendance := items, responses, attendance;
    }

    /** SaveTrackerResponses: checks the student out and records the answers under today's latest
        check-in. A student with no open check-in today records nothing. */
    method SaveTrackerResponses(student: string, name: string, answers: seq<Answer>, today: int)
      returns (affected: nat)
      modifies this`responses, this`attendance
      ensures affected == CountOpen(old(attendance), name, today)
      ensures attendance == CheckedOut(old(attendance), name, today)
      ensures affected == 0 ==> responses == old(responses) && attendance == old(attendance)
      ensures affected > 0 ==>
                exists a :: LatestCheckIn(attendance, name, today, a)
                  && responses == old(responses) + Recorded(student, answers, today, a.id)
      ensures CountOpen(attendance, name, today) == 0
    {
      hide CheckedOut, CountOpen, OpenToday, LatestCheckIn, Recorded;
      affected := CountOpen(attendance, name, today);
      CheckedOutIsClosed(attendance, name, today);
      NothingOpen(attendance, name, today);
      var out := CheckedOut(attendance, name, today);
      if affected == 0 {
        return;
      }
      attendance := out;
      var a := Latest(out, name, today);
      RecordAnswers(student, answers, today, a.id);
    }

    method RecordAnswers(student: string, answers: seq<Answer>, today: int, attendanceId: int)
      modifies this`responses
      ensures responses == old(responses) + Recorded(student, answers, today, attendanceId)
    {
      ghost var all := Recorded(student, answers, today, attendanceId);
      for i := 0 to |answers|
        invariant responses == old(responses) + all[..i]
      {
        responses := responses + [Response(student, answers[i].item, answers[i].done, today, None, attendanceId)];
        assert all[..i + 1] == all[..i] + [all[i]];
      }
      assert all[..|answers|] == all;
    }

    /** CompleteTaskItem: marks the item and records a response no attendance stands behind. */
    method CompleteTaskItem(id: int, today: int) returns (ok: bool)
      modifies this`items, this`responses
      ensures ok == OwnerOf(old(items), id).Some?
      ensures ok ==> items == Marked(old(items), id, true)
      ensures ok ==> responses == old(responses) + [Response(OwnerOf(old(items), id).value, id, true, today, None, 0)]
      ensures !ok ==> items == old(items) && responses == old(responses)
    {
      var owner := OwnerOf(items, id);
      if owner.None? {
        return false;
      }
      items := Marked(items, id, true);
      responses := responses + [Response(owner.value, id, true, today, None, 0)];
      return true;
    }

    /** UncompleteTaskItem: takes back the mark and every dashboard-made completion of the item. */
    method UncompleteTaskItem(id: int)
      modifies this`items, this`responses
      ensures items == Marked(old(items), id, false)
      ensures responses == WithoutDashboard(old(responses), id)
    {
      items := Marked(items, id, false);
      responses := WithoutDashboard(responses, id);
    }

    /** Complete, then uncomplete: back to the start exactly when the item was not completed before and
        no other completion without an attendance row, such as a late sign-off, was there to be lost. */
    method CompleteAndUndo(id: int, today: int) returns (ok: bool)
      requires DistinctIds(items)
      modifies this`items, this`responses
      ensures ok == OwnerOf(old(items), id).Some?
      ensures ok ==>
                ((items == old(items) && responses == old(responses)) <==>
                 (forall x <- old(items) :: x.id == id ==> !x.completed)
                 && (forall r <- old(responses) :: !DashboardDone(r, id)))
    {
      ghost var items0, responses0 := items, responses;
      ok := CompleteTaskItem(id, today);
      if ok {
        UncompleteTaskItem(id);
        UndoRestores(items0, responses0, OwnerOf(items0, id).value, id, today);
      }
    }
  }

  /** The latest check-in of the day; the first of several at the same second. */
  method Latest(rows: seq<Attendance>, name: string, today: int) returns (a: Attendance)
    requires exists b <- rows :: b.studentName == name && b.day == today
    ensures LatestCheckIn(rows, name, today, a)
  {
    var best: Option<Attendance> := None;
    for i := 0 to |rows|
      invariant best.Some? ==> best.value in rows && best.value.studentName == name && best.value.day == today
      invariant forall b <- rows[..i] :: b.studentName == name && b.day == today ==>
                  best.Some? && b.second <= best.value.second
    {
      if rows[i].studentName == name && rows[i].day == today && (best.None? || best.value.second < rows[i].second) {
        best := Some(rows[i]);
      }
    }
    assert rows[..|rows|] == rows;
    a := best.value;
  }

  lemma {:induction false} WithoutKeeps(rs: seq<Response>, id: int)
    ensures WithoutDashboard(rs, id) == rs <==> forall r <- rs :: !DashboardDone(r, id)
  {
    hide DashboardDone;
    if forall r <- rs :: !DashboardDone(r, id) {
      if rs != [] {
        assert rs == rs[..|rs| - 1] + [rs[|rs| - 1]];
        assert forall r <- rs[..|rs| - 1] :: r in rs;
        WithoutKeeps(rs[..|rs| - 1], id);
      }
    } else {
      hide WithoutDashboard;
      var r :| r in rs && DashboardDone(r, id);
      assert r !in WithoutDashboard(rs, id);
    }
  }

  lemma UndoRestores(items: seq<Item>, rs: seq<Response>, owner: string, id: int, today: int)
    ensures (Marked(Marked(items, id, true), id, false) == items
             && WithoutDashboard(rs + [Response(owner, id, true, today, None, 0)], id) == rs)
       <==> (forall x <- items :: x.id == id ==> !x.completed) && (forall r <- rs :: !DashboardDone(r, id))
  {
    var r := Response(owner, id, true, today, None, 0);
    assert (rs + [r])[..|rs|] == rs;
    WithoutKeeps(rs, id);
    var back := Marked(Marked(items, id, true), id, false);
    assert back == items <==> forall x <- items :: x.id == id ==> !x.completed by {
      if forall x <- items :: x.id == id ==> !x.completed {
        forall i | 0 <= i < |items| ensures back[i] == items[i] { assert items[i] in items; }
      } else {
        var x :| x in items && x.id == id && x.completed;
        var i :| 0 <= i < |items| && items[i] == x;
        assert !back[i].completed;
      }
    }
  }

  /** What a late sign-off for the day `due` leaves in the table. */
  function LateSignoff(student: string, item: int, today: int, due: int): Response {
    Response(student, item, true, today, Some(due), 0)
  }

  /** An item not completed, but signed off late before: completing and undoing loses the sign-off. */
  lemma LateSignoffExample(x: Item, student: string, today: int, due: int)
    requires !x.completed
    ensures var signed := LateSignoff(student, x.id, today, due);
            && Marked(Marked([x], x.id, true), x.id, false) == [x]
            && WithoutDashboard([signed] + [Response(student, x.id, true, today, None, 0)], x.id) == []
  {
    var signed, done := LateSignoff(student, x.id, today, due), Response(student, x.id, true, today, None, 0);
    assert Marked(Marked([x], x.id, true), x.id, false)[0] == x;
    assert ([signed] + [done])[..1] == [signed];
    assert WithoutDashboard([signed], x.id) == WithoutDashboard([], x.id);
  }
}
