/** internal/database/tracker.go: what is due on a day, and how many completions a range of days
    should hold. Days are day numbers. */
module Tracker {
  import opened Arith
  import opened Calendar
  import opened Text
  import opened TrackerCalendar

  datatype Criteria = Criteria(gradeMin: Option<int>, gradeMax: Option<int>, birthplace: seq<string>,
                               firstLanguage: seq<string>, school: seq<string>)

  datatype Student = Student(id: string, grade: int, birthplace: string, firstLanguage: string, school: string)

  predicate ContainsIgnoreCase(list: seq<string>, val: string) {
    exists s <- list :: ToLower(s) == ToLower(val)
  }

  predicate Allows(list: seq<string>, val: string) {
    list == [] || val == "" || ContainsIgnoreCase(list, val)
  }

  /** Absent or unreadable criteria admit everyone; unknown attributes are not held against anyone. */
  predicate MatchesCriteria(c: Option<Criteria>, s: Student) {
    c.Some? ==>
      && (c.value.gradeMin.Some? && s.grade > 0 ==> c.value.gradeMin.value <= s.grade)
      && (c.value.gradeMax.Some? && s.grade > 0 ==> s.grade <= c.value.gradeMax.value)
      && Allows(c.value.birthplace, s.birthplace)
      && Allows(c.value.firstLanguage, s.firstLanguage)
      && Allows(c.value.school, s.school)
  }

  datatype Scope = Center | Class(students: set<string>) | Personal(student: string)

  datatype Item = Item(id: int, scope: Scope, todo: bool, recurrence: Recurrence, start: Option<int>, end: Option<int>,
                       criteria: Option<Criteria>, active: bool, deleted: bool, completed: bool)

  datatype Response = Response(student: string, item: int, done: bool, date: int, due: Option<int>, attendance: int)

  function DueDay(r: Response): int {
    if r.due.Some? then r.due.value else r.date
  }

  /** `isActiveOnDate`, and the date conditions of the due query. */
  predicate ActiveOn(x: Item, day: int) {
    (x.start.Some? ==> x.start.value <= day) && (x.end.Some? ==> day <= x.end.value)
  }

  /** The item concerns the student, whatever the day. */
  predicate Concerns(x: Item, s: Student) {
    && x.active && !x.deleted
    && (match x.scope
        case Center => MatchesCriteria(x.criteria, s)
        case Class(students) => s.id in students
        case Personal(student) => student == s.id && !x.completed)
  }

  predicate Answers(r: Response, x: Item, s: Student) {
    r.student == s.id && r.item == x.id
  }

  /** The recurrence's part of the due query: nothing recorded yet for the day's period. */
  predicate Open(x: Item, s: Student, responses: seq<Response>, day: int) {
    match x.recurrence
    case Daily => forall r <- responses :: Answers(r, x, s) ==> DueDay(r) != day
    case Weekly => forall r <- responses :: Answers(r, x, s) ==> DueDay(r) < WeekStart(day)
    case Monthly => forall r <- responses :: Answers(r, x, s) ==> MonthKey(DueDay(r)) != MonthKey(day)
    case Once => forall r <- responses :: Answers(r, x, s) ==> !r.done
    case Unknown => false
  }

  predicate Due(x: Item, s: Student, responses: seq<Response>, day: int) {
    Concerns(x, s) && ActiveOn(x, day) && Open(x, s, responses, day)
  }

  function DueItems(items: seq<Item>, s: Student, responses: seq<Response>, day: int): seq<Item> {
    if items == [] then []
    else (if Due(items[0], s, responses, day) then [items[0]] else []) + DueItems(items[1..], s, responses, day)
  }

  /** The rows the due query returns: criteria are not part of it. */
  predicate QueryReturns(x: Item, s: Student, responses: seq<Response>, day: int) {
    && x.active && !x.deleted && ActiveOn(x, day)
    && (match x.scope
        case Center => true
        case Class(students) => s.id in students
        case Personal(student) => student == s.id && !x.completed)
    && Open(x, s, responses, day)
  }

  /** `GetDueItems`: the query's rows, without the center items whose criteria the student fails. */
  method GetDueItems(items: seq<Item>, s: Student, responses: seq<Response>, day: int) returns (due: seq<Item>)
    ensures due == DueItems(items, s, responses, day)
  {
    hide MatchesCriteria, Open, ActiveOn;
    due := [];
    ghost var rest := items;
    for i := 0 to |items|
      invariant rest == items[i..]
      invariant due + DueItems(rest, s, responses, day) == DueItems(items, s, responses, day)
    {
      assert rest[0] == items[i] && rest[1..] == items[i + 1..];
      if QueryReturns(items[i], s, responses, day) &&
         !(items[i].scope.Center? && !MatchesCriteria(items[i].criteria, s)) {
        due := due + [items[i]];
      }
      rest := rest[1..];
    }
  }

  predicate DistinctIds(items: seq<Item>) {
    forall i, j :: 0 <= i < j < |items| ==> items[i].id != items[j].id
  }

  // ---------- expected completions ----------

  /** The periods in which the item is active on some day of the range. */
  function Periods(x: Item, first: int, last: int): set<int> {
    set day | first <= day <= last && ActiveOn(x, day) :: Period(x.recurrence, day)
  }

  /** The range clipped to the item's dates. */
  function First(x: Item, first: int): int {
    if x.start.Some? then Max(first, x.start.value) else first
  }

  function LastDay(x: Item, last: int): int {
    if x.end.Some? then Min(last, x.end.value) else last
  }

  /** The closed form: days, calendar weeks or months touched, or 1 if the clipped range is non-empty. */
  function Expected(x: Item, first: int, last: int): nat {
    var a, b := First(x, first), LastDay(x, last);
    if x.recurrence == Unknown || a > b then 0
    else
      PeriodMonotone(x.recurrence, a, b);
      Period(x.recurrence, b) - Period(x.recurrence, a) + 1
  }

  lemma ActiveIsClipped(x: Item, first: int, last: int, day: int)
    ensures first <= day <= last && ActiveOn(x, day) <==> First(x, first) <= day <= LastDay(x, last)
  {
  }

  lemma {:induction false} PeriodReached(r: Recurrence, a: int, b: int, p: int)
    requires a <= b && Period(r, a) <= p <= Period(r, b)
    ensures exists day :: a <= day <= b && Period(r, day) == p
    decreases b - a
  {
    if Period(r, a) != p {
      assert a < b;
      PeriodStep(r, a);
      PeriodReached(r, a + 1, b, p);
    }
  }

  lemma {:induction false} IntervalSize(s: set<int>, a: int, b: int)
    requires a <= b + 1 && forall p :: p in s <==> a <= p <= b
    ensures |s| == b - a + 1
    decreases b - a
  {
    if a == b + 1 {
      assert forall p :: p !in s;
      assert s == {};
    } else {
      IntervalSize(s - {b}, a, b - 1);
      assert s == (s - {b}) + {b};
    }
  }

  /** The closed form counts the periods touched. */
  lemma ExpectedCountsPeriods(x: Item, first: int, last: int)
    requires x.recurrence != Unknown
    ensures |Periods(x, first, last)| == Expected(x, first, last)
  {
    hide Period, ActiveOn, First, LastDay;
    var a, b := First(x, first), LastDay(x, last);
    var ps := Periods(x, first, last);
    if a > b {
      forall day ensures !(first <= day <= last && ActiveOn(x, day)) { ActiveIsClipped(x, first, last, day); }
      assert ps == {};
    } else {
      forall p
        ensures p in ps <==> Period(x.recurrence, a) <= p <= Period(x.recurrence, b)
      {
        if Period(x.recurrence, a) <= p <= Period(x.recurrence, b) {
          PeriodReached(x.recurrence, a, b, p);
          var day :| a <= day <= b && Period(x.recurrence, day) == p;
          ActiveIsClipped(x, first, last, day);
          assert p in ps;
        } else if p in ps {
          var day :| first <= day <= last && ActiveOn(x, day) && Period(x.recurrence, day) == p;
          ActiveIsClipped(x, first, last, day);
          PeriodMonotone(x.recurrence, a, day);
          PeriodMonotone(x.recurrence, day, b);
        }
      }
      PeriodMonotone(x.recurrence, a, b);
      IntervalSize(ps, Period(x.recurrence, a), Period(x.recurrence, b));
    }
  }

  /** One more day adds its period if the item is active and the period is new. */
  lemma PeriodsNext(x: Item, first: int, last: int)
    requires first <= last + 1
    ensures Periods(x, first, last + 1) ==
            Periods(x, first, last) + if ActiveOn(x, last + 1) then {Period(x.recurrence, last + 1)} else {}
  {
    hide Period, ActiveOn;
  }

  /** What is remembered before day `d`: exactly the keys of the active days seen. */
  ghost predicate Remembered(x: Item, first: int, d: int, seen: set<(int, int)>) {
    && (forall day :: first <= day < d && ActiveOn(x, day) ==> SeenKey(x.recurrence, day) in seen)
    && (forall k <- seen :: exists day :: first <= day < d && ActiveOn(x, day) && SeenKey(x.recurrence, day) == k)
  }

  /** `countExpectedForItem`: day by day, remembering the weeks and months already counted. A daily item's
      key is the day itself, which is never met twice. */
  method CountExpected(x: Item, first: int, last: int) returns (count: nat)
    ensures count == Expected(x, first, last)
  {
    hide ActiveOn, Period, Expected, Periods, SeenKey, Remembered;
    count := 0;
    if x.recurrence == Unknown {
      EmptyRange(x, first, last);
      return;
    }
    if first > last {
      EmptyRange(x, first, last);
      return;
    }
    ExpectedCountsPeriods(x, first, last);
    var seen: set<(int, int)> := {};
    var d := first;
    NothingSeen(x, first);
    while d <= last
      invariant first <= d <= last + 1
      invariant count == |Periods(x, first, d - 1)|
      invariant Remembered(x, first, d, seen)
    {
      PeriodsNext(x, first, d - 1);
      KeysNamePeriods(x, first, d, seen);
      RememberNext(x, first, d, seen);
      if ActiveOn(x, d) {
        if x.recurrence == Once {
          OnePeriod(x, first, last, d);
          return 1;
        }
        if SeenKey(x.recurrence, d) !in seen {
          seen := seen + {SeenKey(x.recurrence, d)};
          count := count + 1;
        } else {
          assert seen + {SeenKey(x.recurrence, d)} == seen;
        }
      }
      d := d + 1;
    }
  }

  lemma NothingSeen(x: Item, first: int)
    ensures Remembered(x, first, first, {}) && Periods(x, first, first - 1) == {}
  {
  }

  lemma RememberNext(x: Item, first: int, d: int, seen: set<(int, int)>)
    requires first <= d && Remembered(x, first, d, seen)
    ensures !ActiveOn(x, d) ==> Remembered(x, first, d + 1, seen)
    ensures ActiveOn(x, d) ==> Remembered(x, first, d + 1, seen + {SeenKey(x.recurrence, d)})
  {
    hide ActiveOn, SeenKey;
    forall k | k in seen
      ensures exists day :: first <= day < d + 1 && ActiveOn(x, day) && SeenKey(x.recurrence, day) == k
    {
      var day :| first <= day < d && ActiveOn(x, day) && SeenKey(x.recurrence, day) == k;
    }
  }

  /** The key a day is remembered under: its ISO week, its month, or the day itself. */
  function SeenKey(r: Recurrence, day: int): (int, int) {
    match r
    case Weekly => ISOWeek(day)
    case Monthly => MonthKey(day)
    case Daily => (day, 0)
    case _ => (0, 0)
  }

  lemma KeysNamePeriods(x: Item, first: int, d: int, seen: set<(int, int)>)
    requires Remembered(x, first, d, seen)
    ensures SeenKey(x.recurrence, d) in seen <==> Period(x.recurrence, d) in Periods(x, first, d - 1)
  {
    hide ActiveOn;
    forall day
      ensures SeenKey(x.recurrence, day) == SeenKey(x.recurrence, d) <==>
              Period(x.recurrence, day) == Period(x.recurrence, d)
    {
      ISOWeekNamesWeeks(day, d);
      MonthKeyNamesMonths(day, d);
      hide ISOWeek, MonthKey, DateOf;
    }
    hide SeenKey, Period;
    if SeenKey(x.recurrence, d) in seen {
      var day :| first <= day < d && ActiveOn(x, day) && SeenKey(x.recurrence, day) == SeenKey(x.recurrence, d);
      assert Period(x.recurrence, day) in Periods(x, first, d - 1);
    }
  }

  lemma EmptyRange(x: Item, first: int, last: int)
    requires x.recurrence == Unknown || first > last
    ensures Expected(x, first, last) == 0
  {
  }

  lemma OnePeriod(x: Item, first: int, last: int, d: int)
    requires x.recurrence == Once && first <= d <= last && ActiveOn(x, d)
    ensures Expected(x, first, last) == 1
  {
  }

  // ---------- answering everything due ----------

  function DoneFor(due: seq<Item>, s: Student, day: int, attendance: int): seq<Response> {
    if due == [] then []
    else [Response(s.id, due[0].id, true, day, None, attendance)] + DoneFor(due[1..], s, day, attendance)
  }

  /** The responses after a student answers "done" to every item due on each day of a range. */
  function AnswerAll(items: seq<Item>, s: Student, responses: seq<Response>, first: int, last: int, attendance: int)
    : seq<Response>
    requires first <= last + 1
    decreases last - first + 1
  {
    if first == last + 1 then responses
    else
      var before := AnswerAll(items, s, responses, first, last - 1, attendance);
      before + DoneFor(DueItems(items, s, before, last), s, last, attendance)
  }

  function CountFor(responses: seq<Response>, s: Student, id: int): nat {
    if responses == [] then 0
    else CountFor(responses[..|responses| - 1], s, id)
         + if responses[|responses| - 1].student == s.id && responses[|responses| - 1].item == id then 1 else 0
  }

  lemma {:induction false} CountForConcat(a: seq<Response>, b: seq<Response>, s: Student, id: int)
    ensures CountFor(a + b, s, id) == CountFor(a, s, id) + CountFor(b, s, id)
  {
    if b == [] {
      assert a + b == a;
    } else {
      var n := |b| - 1;
      assert (a + b)[..|a + b| - 1] == a + b[..n];
      CountForConcat(a, b[..n], s, id);
    }
  }

  lemma CountForNone(rs: seq<Response>, s: Student, id: int)
    requires forall r <- rs :: !(r.student == s.id && r.item == id)
    ensures CountFor(rs, s, id) == 0
    decreases |rs|
  {
    if rs != [] {
      CountForNone(rs[..|rs| - 1], s, id);
    }
  }

  predicate DueById(items: seq<Item>, s: Student, responses: seq<Response>, day: int, id: int) {
    exists y <- items :: y.id == id && Due(y, s, responses, day)
  }

  lemma {:induction false} AnswersShape(due: seq<Item>, s: Student, day: int, att: int, id: int)
    ensures forall r <- DoneFor(due, s, day, att) ::
              r.student == s.id && r.done && r.date == day && r.due.None? && r.attendance == att
    ensures (exists r <- DoneFor(due, s, day, att) :: r.item == id) <==> exists y <- due :: y.id == id
  {
    if due != [] {
      AnswersShape(due[1..], s, day, att, id);
      assert forall y <- due :: y == due[0] || y in due[1..];
      assert due[0] in due && forall y <- due[1..] :: y in due;
      var r := Response(s.id, due[0].id, true, day, None, att);
      assert DoneFor(due, s, day, att) == [r] + DoneFor(due[1..], s, day, att);
      assert r in DoneFor(due, s, day, att);
    }
  }

  lemma {:induction false} DueItemsMembers(items: seq<Item>, s: Student, responses: seq<Response>, day: int)
    ensures forall y :: y in DueItems(items, s, responses, day) <==> y in items && Due(y, s, responses, day)
    ensures DistinctIds(items) ==> DistinctIds(DueItems(items, s, responses, day))
  {
    hide Due;
    if items != [] {
      DueItemsMembers(items[1..], s, responses, day);
      var rest := DueItems(items[1..], s, responses, day);
      if DistinctIds(items) {
        assert forall i, j ::
            0 <= i < j < |items[1..]| ==> items[1..][i] == items[i + 1] && items[1..][j] == items[j + 1];
        forall k | 0 <= k < |rest|
          ensures rest[k].id != items[0].id
        {
          assert rest[k] in rest;
          var m :| 0 <= m < |items[1..]| && items[1..][m] == rest[k];
        }
      }
    }
  }

  lemma {:induction false} AnswersCount(due: seq<Item>, s: Student, day: int, att: int, id: int)
    requires DistinctIds(due)
    ensures CountFor(DoneFor(due, s, day, att), s, id) == if exists y <- due :: y.id == id then 1 else 0
  {
    if due != [] {
      AnswersCount(due[1..], s, day, att, id);
      var r, rest := Response(s.id, due[0].id, true, day, None, att), DoneFor(due[1..], s, day, att);
      assert DoneFor(due, s, day, att) == [r] + rest;
      CountForConcat([r], rest, s, id);
      assert CountFor([r], s, id) == if due[0].id == id then 1 else 0 by { assert [r][..0] == []; }
      assert due[0] in due && forall y <- due :: y == due[0] || y in due[1..];
      assert forall y <- due[1..] :: y in due && y.id != due[0].id;
    }
  }

  /** Each due item is answered exactly once, on the day. */
  lemma AnswersOfDay(items: seq<Item>, s: Student, responses: seq<Response>, day: int, att: int, id: int)
    requires DistinctIds(items)
    ensures var new_ := DoneFor(DueItems(items, s, responses, day), s, day, att);
            && (forall r <- new_ :: r.student == s.id && r.done && r.date == day && r.due.None?)
            && ((exists r <- new_ :: r.item == id) <==> DueById(items, s, responses, day, id))
            && CountFor(new_, s, id) == (if DueById(items, s, responses, day, id) then 1 else 0)
  {
    hide Due;
    DueItemsMembers(items, s, responses, day);
    AnswersShape(DueItems(items, s, responses, day), s, day, att, id);
    AnswersCount(DueItems(items, s, responses, day), s, day, att, id);
  }

  /** What the answers so far look like for one item: all on active days of the range, one in every
      period touched. */
  ghost predicate Answered(x: Item, s: Student, responses: seq<Response>, first: int, last: int) {
    && (forall r <- responses :: Answers(r, x, s) ==>
          r.done && r.due.None? && first <= r.date <= last && ActiveOn(x, r.date))
    && (forall p <- Periods(x, first, last) ::
          exists r <- responses :: Answers(r, x, s) && Period(x.recurrence, r.date) == p)
    && CountFor(responses, s, x.id) == |Periods(x, first, last)|
  }

  /** After such answers, the item is open on the next day exactly when the day's period is new. */
  lemma OpenIsNewPeriod(x: Item, s: Student, responses: seq<Response>, first: int, day: int)
    requires x.recurrence != Unknown && Answered(x, s, responses, first, day - 1)
    ensures Open(x, s, responses, day) <==> Period(x.recurrence, day) !in Periods(x, first, day - 1)
  {
    hide ActiveOn;
    forall r | r in responses && Answers(r, x, s)
      ensures Period(x.recurrence, r.date) in Periods(x, first, day - 1)
      ensures x.recurrence == Weekly ==> (r.date < WeekStart(day) <==> Period(Weekly, r.date) != Period(Weekly, day))
      ensures MonthKey(r.date) != MonthKey(day) <==> Period(Monthly, r.date) != Period(Monthly, day)
    {
      WeekStartIsMonday(day);
      MonthKeyNamesMonths(r.date, day);
    }
    hide Period, WeekStart, MonthKey;
    PeriodOfOthers(x.recurrence, day);
  }

  lemma PeriodOfOthers(r: Recurrence, day: int)
    ensures r == Daily ==> forall n :: Period(r, n) == n
    ensures r == Once ==> forall n :: Period(r, n) == 0
  {
  }

  /** A student who answers every due item on each day of a range, with nothing answered for the item
      before, makes exactly the expected number of responses to an item that concerns them, and none to
      any other. */
  lemma AnswersMeetExpectation(items: seq<Item>, s: Student, responses: seq<Response>, first: int, last: int, att: int,
                               x: Item)
    requires DistinctIds(items) && x in items && first <= last + 1
    requires forall r <- responses :: !Answers(r, x, s)
    ensures CountFor(AnswerAll(items, s, responses, first, last, att), s, x.id) ==
            if Concerns(x, s) then Expected(x, first, last) else 0
  {
    hide Concerns, ActiveOn, Period, Due, AnswerAll;
    if Concerns(x, s) && x.recurrence != Unknown {
      AnswersKeepShape(items, s, responses, first, last, att, x);
      ExpectedCountsPeriods(x, first, last);
    } else {
      NeverDue(items, s, responses, first, last, att, x);
    }
  }

  lemma {:induction false} NeverDue(items: seq<Item>, s: Student, responses: seq<Response>, first: int, last: int,
                                    att: int, x: Item)
    requires DistinctIds(items) && x in items && first <= last + 1
    requires !Concerns(x, s) || x.recurrence == Unknown
    requires forall r <- responses :: !Answers(r, x, s)
    ensures CountFor(AnswerAll(items, s, responses, first, last, att), s, x.id) == 0
    decreases last - first
  {
    if first == last + 1 {
      CountForNone(responses, s, x.id);
    } else {
      NeverDue(items, s, responses, first, last - 1, att, x);
      var before := AnswerAll(items, s, responses, first, last - 1, att);
      NotDue(items, s, before, last, x);
      AnswersOfDay(items, s, before, last, att, x.id);
      hide Concerns, Due, DueById, DueItems, DoneFor, CountFor;
      CountForConcat(before, DoneFor(DueItems(items, s, before, last), s, last, att), s, x.id);
    }
  }

  lemma NotDue(items: seq<Item>, s: Student, responses: seq<Response>, day: int, x: Item)
    requires DistinctIds(items) && x in items
    requires !Concerns(x, s) || x.recurrence == Unknown
    ensures !DueById(items, s, responses, day, x.id)
  {
    hide Concerns, ActiveOn;
    assert !Due(x, s, responses, day);
    hide Due;
    assert forall y <- items :: y.id == x.id ==> y == x;
  }

  lemma {:induction false} AnswersKeepShape(items: seq<Item>, s: Student, responses: seq<Response>, first: int,
                                            last: int, att: int, x: Item)
    requires DistinctIds(items) && x in items && Concerns(x, s) && x.recurrence != Unknown && first <= last + 1
    requires forall r <- responses :: !Answers(r, x, s)
    ensures Answered(x, s, AnswerAll(items, s, responses, first, last, att), first, last)
    decreases last - first
  {
    hide Concerns, ActiveOn, Period, Open;
    if first == last + 1 {
      CountForNone(responses, s, x.id);
      assert Periods(x, first, last) == {};
    } else {
      AnswersKeepShape(items, s, responses, first, last - 1, att, x);
      var before := AnswerAll(items, s, responses, first, last - 1, att);
      AnswerDay(items, s, before, first, last, att, x);
    }
  }

  lemma AnswerDay(items: seq<Item>, s: Student, before: seq<Response>, first: int, day: int, att: int, x: Item)
    requires DistinctIds(items) && x in items && Concerns(x, s) && x.recurrence != Unknown && first <= day
    requires Answered(x, s, before, first, day - 1)
    ensures Answered(x, s, before + DoneFor(DueItems(items, s, before, day), s, day, att), first, day)
  {
    var due := ActiveOn(x, day) && Period(x.recurrence, day) !in Periods(x, first, day - 1);
    var new_ := DoneFor(DueItems(items, s, before, day), s, day, att);
    hide DueItems, DoneFor, DueById, Open, ActiveOn, Concerns, Period, Periods, Answered;
    DueIsNewPeriod(items, s, before, first, day, x);
    AnswersOfDay(items, s, before, day, att, x.id);
    AddAnswers(x, s, before, new_, first, day, due);
  }

  lemma DueIsNewPeriod(items: seq<Item>, s: Student, before: seq<Response>, first: int, day: int, x: Item)
    requires DistinctIds(items) && x in items && Concerns(x, s) && x.recurrence != Unknown
    requires Answered(x, s, before, first, day - 1)
    ensures DueById(items, s, before, day, x.id) <==>
            ActiveOn(x, day) && Period(x.recurrence, day) !in Periods(x, first, day - 1)
  {
    OpenIsNewPeriod(x, s, before, first, day);
    hide Open, ActiveOn, Concerns, Period, Periods, Answered;
    assert forall y <- items :: y.id == x.id ==> y == x;
  }

  /** The three parts of `Answered`, kept when the day's answers are added. */
  lemma AddAnswers(x: Item, s: Student, before: seq<Response>, new_: seq<Response>, first: int, day: int, due: bool)
    requires first <= day && Answered(x, s, before, first, day - 1)
    requires due == (ActiveOn(x, day) && Period(x.recurrence, day) !in Periods(x, first, day - 1))
    requires forall r <- new_ :: r.student == s.id && r.done && r.date == day && r.due.None?
    requires (exists r <- new_ :: r.item == x.id) <==> due
    requires CountFor(new_, s, x.id) == if due then 1 else 0
    ensures Answered(x, s, before + new_, first, day)
  {
    hide ActiveOn, Period, Periods, CountFor, Answers;
    PeriodsNext(x, first, day - 1);
    CountForConcat(before, new_, s, x.id);
    AnswersAreDue(x, s, before, new_, first, day, due);
    forall p | p in Periods(x, first, day)
      ensures exists r <- before + new_ :: Answers(r, x, s) && Period(x.recurrence, r.date) == p
    {
      if p in Periods(x, first, day - 1) {
        OldPeriod(x, s, before, new_, p);
      } else {
        NewPeriod(x, s, before, new_, day);
      }
    }
  }

  lemma AnswersAreDue(x: Item, s: Student, before: seq<Response>, new_: seq<Response>, first: int, day: int,
                      due: bool)
    requires forall r <- before :: Answers(r, x, s) ==>
               r.done && r.due.None? && first <= r.date <= day - 1 && ActiveOn(x, r.date)
    requires due ==> first <= day && ActiveOn(x, day)
    requires forall r <- new_ :: r.student == s.id && r.done && r.date == day && r.due.None?
    requires (exists r <- new_ :: r.item == x.id) <==> due
    ensures forall r <- before + new_ :: Answers(r, x, s) ==>
              r.done && r.due.None? && first <= r.date <= day && ActiveOn(x, r.date)
  {
    hide ActiveOn;
  }

  lemma OldPeriod(x: Item, s: Student, before: seq<Response>, new_: seq<Response>, p: int)
    requires exists r <- before :: Answers(r, x, s) && Period(x.recurrence, r.date) == p
    ensures exists r <- before + new_ :: Answers(r, x, s) && Period(x.recurrence, r.date) == p
  {
    hide Answers, Period;
    var r :| r in before && Answers(r, x, s) && Period(x.recurrence, r.date) == p;
    assert r in before + new_;
  }

  lemma NewPeriod(x: Item, s: Student, before: seq<Response>, new_: seq<Response>, day: int)
    requires forall r <- new_ :: r.student == s.id && r.date == day
    requires exists r <- new_ :: r.item == x.id
    ensures exists r <- before + new_ :: Answers(r, x, s) && Period(x.recurrence, r.date) == Period(x.recurrence, day)
  {
    hide Period;
    var r :| r in new_ && r.item == x.id;
    assert r in before + new_ && Answers(r, x, s);
  }
}
