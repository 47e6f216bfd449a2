/** internal/database/tracker.go, GetProgressStats: what is expected of a student against what is done. */
module TrackerProgress {
  import opened Arith
  import opened Calendar
  import opened TrackerCalendar
  import opened Tracker

  /** The sums the statistics and their theorem range over. */
  datatype Which = Global | Own | Reached

  /** Global and own items are counted without asking for the criteria, or whether a personal item is
      completed; an item is reached if it can ever be due for the student. */
  predicate Selected(w: Which, x: Item, s: Student) {
    x.todo && match w
              case Global => x.scope.Center? && x.active && !x.deleted
              case Own => x.scope == Personal(s.id) && x.active && !x.deleted
              case Reached => Concerns(x, s)
  }

  function SumExpected(w: Which, items: seq<Item>, s: Student, first: int, last: int): nat {
    if items == [] then 0
    else
      var n := |items| - 1;
      SumExpected(w, items[..n], s, first, last)
      + if Selected(w, items[n], s) then Expected(items[n], first, last) else 0
  }

  predicate TodoItem(items: seq<Item>, id: int) {
    exists x <- items :: x.id == id && x.todo
  }

  predicate IsDone(r: Response, items: seq<Item>, s: Student, first: int, last: int) {
    r.student == s.id && r.done && first <= r.date <= last && TodoItem(items, r.item)
  }

  function DoneCount(rs: seq<Response>, items: seq<Item>, s: Student, first: int, last: int): nat {
    if rs == [] then 0
    else
      var n := |rs| - 1;
      DoneCount(rs[..n], items, s, first, last) + if IsDone(rs[n], items, s, first, last) then 1 else 0
  }

  datatype Stats = Stats(student: string, total: nat, done: nat, notDone: nat)

  function Total(items: seq<Item>, s: Student, first: int, last: int): nat {
    SumExpected(Global, items, s, first, last) + SumExpected(Own, items, s, first, last)
  }

  function StatsOf(items: seq<Item>, rs: seq<Response>, s: Student, first: int, last: int): Stats {
    var total := Total(items, s, first, last);
    var done := Min(DoneCount(rs, items, s, first, last), total);
    Stats(s.id, total, done, total - done)
  }

  method SumFor(w: Which, items: seq<Item>, s: Student, first: int, last: int) returns (sum: nat)
    ensures sum == SumExpected(w, items, s, first, last)
  {
    hide Selected, Expected;
    sum := 0;
    for i := 0 to |items|
      invariant sum == SumExpected(w, items[..i], s, first, last)
    {
      assert items[..i + 1][..i] == items[..i];
      if Selected(w, items[i], s) {
        var expected := CountExpected(items[i], first, last);
        sum := sum + expected;
      }
    }
    assert items[..|items|] == items;
  }

  /** The global items are summed once for all students. */
  lemma {:induction false} GlobalIsShared(items: seq<Item>, s: Student, t: Student, first: int, last: int)
    ensures SumExpected(Global, items, s, first, last) == SumExpected(Global, items, t, first, last)
  {
    if items != [] {
      GlobalIsShared(items[..|items| - 1], s, t, first, last);
    }
  }

  method ProgressStats(items: seq<Item>, rs: seq<Response>, students: seq<Student>, first: int, last: int)
    returns (stats: seq<Stats>)
    ensures |stats| == |students|
    ensures forall i :: 0 <= i < |students| ==> stats[i] == StatsOf(items, rs, students[i], first, last)
  {
    hide SumExpected, DoneCount;
    stats := [];
    if students == [] {
      return;
    }
    var global := SumFor(Global, items, students[0], first, last);
    for i := 0 to |students|
      invariant |stats| == i
      invariant forall j :: 0 <= j < i ==> stats[j] == StatsOf(items, rs, students[j], first, last)
    {
      var own := SumFor(Own, items, students[i], first, last);
      GlobalIsShared(items, students[0], students[i], first, last);
      var total := global + own;
      var done: nat := DoneCount(rs, items, students[i], first, last);
      if done > total {
        done := total;
      }
      stats := stats + [Stats(students[i].id, total, done, total - done)];
    }
  }

  // ---------- what answering everything achieves ----------

  /** All of a student's answers lie in the range and say "done". */
  lemma {:induction false} AnswersInRange(items: seq<Item>, s: Student, rs: seq<Response>, first: int, last: int,
                                          att: int)
    requires first <= last + 1 && DistinctIds(items)
    requires forall r <- rs :: r.student != s.id
    ensures forall r <- AnswerAll(items, s, rs, first, last, att) ::
              r.student == s.id ==> r.done && first <= r.date <= last
    decreases last - first
  {
    hide Due, DueItems, DoneFor;
    if first <= last {
      AnswersInRange(items, s, rs, first, last - 1, att);
      AnswersOfDay(items, s, AnswerAll(items, s, rs, first, last - 1, att), last, att, 0);
    }
  }

  /** The responses to to-do items, item by item. */
  function TodoResponses(items: seq<Item>, rs: seq<Response>, s: Student): nat {
    if items == [] then 0
    else
      var n := |items| - 1;
      TodoResponses(items[..n], rs, s) + if items[n].todo then CountFor(rs, s, items[n].id) else 0
  }

  lemma {:induction false} OneMoreResponse(items: seq<Item>, rs: seq<Response>, s: Student)
    requires DistinctIds(items) && rs != []
    ensures var r := rs[|rs| - 1];
            TodoResponses(items, rs, s) == TodoResponses(items, rs[..|rs| - 1], s)
                                           + if r.student == s.id && TodoItem(items, r.item) then 1 else 0
  {
    var r := rs[|rs| - 1];
    if items != [] {
      var n := |items| - 1;
      OneMoreResponse(items[..n], rs, s);
      assert forall x <- items :: x in items[..n] || x == items[n];
      assert forall x <- items[..n] :: x in items && x.id != items[n].id;
      assert items[n] in items;
    }
  }

  lemma {:induction false} DoneIsPerItem(rs: seq<Response>, items: seq<Item>, s: Student, first: int, last: int)
    requires DistinctIds(items)
    requires forall r <- rs :: r.student == s.id ==> r.done && first <= r.date <= last
    ensures DoneCount(rs, items, s, first, last) == TodoResponses(items, rs, s)
  {
    if rs == [] {
      NoResponses(items, s);
    } else {
      DoneIsPerItem(rs[..|rs| - 1], items, s, first, last);
      OneMoreResponse(items, rs, s);
    }
  }

  lemma {:induction false} NoResponses(items: seq<Item>, s: Student)
    ensures TodoResponses(items, [], s) == 0
  {
    if items != [] {
      NoResponses(items[..|items| - 1], s);
    }
  }

  lemma {:induction false} ResponsesAreExpected(all: seq<Item>, n: nat, s: Student, rs: seq<Response>, first: int,
                                                last: int, att: int)
    requires DistinctIds(all) && n <= |all| && first <= last + 1
    requires forall r <- rs :: r.student != s.id
    ensures TodoResponses(all[..n], AnswerAll(all, s, rs, first, last, att), s) ==
            SumExpected(Reached, all[..n], s, first, last)
  {
    hide Concerns, Expected, AnswerAll;
    if n > 0 {
      assert all[..n][..n - 1] == all[..n - 1];
      ResponsesAreExpected(all, n - 1, s, rs, first, last, att);
      AnswersMeetExpectation(all, s, rs, first, last, att, all[n - 1]);
    }
  }

  /** Answering every due item on every day of the range does exactly what is expected of the to-do items
      that concern the student, and whatever else the total holds is what is left not done. */
  lemma AnsweringEverything(items: seq<Item>, s: Student, rs: seq<Response>, first: int, last: int, att: int)
    requires DistinctIds(items) && first <= last + 1
    requires forall r <- rs :: r.student != s.id
    ensures var all := AnswerAll(items, s, rs, first, last, att);
            var reached := SumExpected(Reached, items, s, first, last);
            && DoneCount(all, items, s, first, last) == reached
            && StatsOf(items, all, s, first, last).notDone == Max(0, Total(items, s, first, last) - reached)
  {
    hide SumExpected, AnswerAll, DoneCount;
    AnswersInRange(items, s, rs, first, last, att);
    DoneIsPerItem(AnswerAll(items, s, rs, first, last, att), items, s, first, last);
    assert items[..|items|] == items;
    ResponsesAreExpected(items, |items|, s, rs, first, last, att);
  }

  lemma {:induction false} CountedIsReached(items: seq<Item>, s: Student, first: int, last: int)
    requires forall x <- items :: Selected(Global, x, s) || Selected(Own, x, s) ==> Concerns(x, s)
    ensures Total(items, s, first, last) <= SumExpected(Reached, items, s, first, last)
  {
    hide Concerns, Expected;
    if items != [] {
      CountedIsReached(items[..|items| - 1], s, first, last);
      assert items[|items| - 1] in items;
    }
  }

  /** Nothing is left not done if every counted item concerns the student: no criteria shut them out and
      no personal item is already completed. */
  lemma EverythingDone(items: seq<Item>, s: Student, rs: seq<Response>, first: int, last: int, att: int)
    requires DistinctIds(items) && first <= last + 1
    requires forall r <- rs :: r.student != s.id
    requires forall x <- items :: Selected(Global, x, s) || Selected(Own, x, s) ==> Concerns(x, s)
    ensures StatsOf(items, AnswerAll(items, s, rs, first, last, att), s, first, last).notDone == 0
  {
    hide StatsOf, AnswerAll, SumExpected, DoneCount, Total, Selected, Concerns;
    AnsweringEverything(items, s, rs, first, last, att);
    CountedIsReached(items, s, first, last);
  }

  /** An item whose criteria shut the student out is counted all the same, and never gets done. */
  lemma ShutOutItemStaysNotDone(day: int, rs: seq<Response>, att: int)
    requires forall r <- rs :: r.student != "S"
    ensures var s := Student("S", 3, "", "", "");
            var ninth := Some(Criteria(Some(9), None, [], [], []));
            var x := Item(1, Center, true, Once, None, None, ninth, true, false, false);
            StatsOf([x], AnswerAll([x], s, rs, day, day, att), s, day, day).notDone == 1
  {
    var s := Student("S", 3, "", "", "");
    var x := Item(1, Center, true, Once, None, None, Some(Criteria(Some(9), None, [], [], [])), true, false, false);
    AnsweringEverything([x], s, rs, day, day, att);
    hide AnswerAll, DoneCount;
    assert [x][..0] == [];
    assert !Concerns(x, s) && Expected(x, day, day) == 1;
    assert SumExpected(Global, [x], s, day, day) == 1;
    assert SumExpected(Own, [x], s, day, day) == 0;
    assert SumExpected(Reached, [x], s, day, day) == 0;
  }
}
