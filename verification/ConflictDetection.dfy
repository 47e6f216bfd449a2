/** internal/scheduling/conflicts.go and engine.go: the loops that find the conflicts and materialize the
    sessions, against the sum over all unordered pairs. */
module ConflictDetection {
  import opened Calendar
  import opened Text
  import opened Conflicts

  // ---------- one pair ----------

  predicate AllBetween(cs: seq<Conflict>, a: Session, b: Session) {
    forall c <- cs :: c.first == a && c.second == b
  }

  method Compare(a: Session, b: Session) returns (cs: seq<Conflict>)
    requires a.day == b.day
    ensures Entries(cs) == Clash(a, b)
    ensures AllBetween(cs, a, b)
  {
    hide Less, Entries, SharedStudents;
    cs := [];
    NoEntries();
    if !Overlap(a, b) {
      return;
    }
    if a.room != "" && a.room == b.room {
      EntriesNext(cs, Conflict(Room, a, b, a.room));
      cs := cs + [Conflict(Room, a, b, a.room)];
    }
    assert Entries(cs) == SharedRoom(a, b);
    hide SharedRoom;
    if a.teacher != "" && a.teacher == b.teacher && a.kind == b.kind {
      EntriesNext(cs, Conflict(Teacher, a, b, a.teacher));
      cs := cs + [Conflict(Teacher, a, b, a.teacher)];
    }
    assert Entries(cs) == SharedRoom(a, b) + SharedTeacher(a, b);
    hide SharedTeacher;
    var shared := CompareStudents(a, b);
    EntriesConcat(cs, shared);
    cs := cs + shared;
  }

  lemma EntriesNext(cs: seq<Conflict>, c: Conflict)
    ensures Entries(cs + [c]) == Entries(cs) + multiset{EntryOf(c)}
  {
    assert (cs + [c])[..|cs|] == cs;
  }

  method CompareStudents(a: Session, b: Session) returns (cs: seq<Conflict>)
    ensures Entries(cs) == SharedStudents(a, b, a.students, b.students)
    ensures AllBetween(cs, a, b)
  {
    hide Entries, SharedWith;
    var xs := a.students;
    cs := [];
    NoEntries();
    for i := 0 to |xs|
      invariant Entries(cs) == SharedStudents(a, b, xs[..i], b.students)
      invariant AllBetween(cs, a, b)
    {
      assert xs[..i + 1][..i] == xs[..i];
      var more := CompareStudent(a, b, xs[i]);
      EntriesConcat(cs, more);
      cs := cs + more;
    }
    assert xs[..|xs|] == xs;
  }

  method CompareStudent(a: Session, b: Session, x: string) returns (cs: seq<Conflict>)
    ensures Entries(cs) == SharedWith(a, b, x, b.students)
    ensures AllBetween(cs, a, b)
  {
    var ys := b.students;
    cs := [];
    assert ys[..0] == [];
    assert SharedWith(a, b, x, []) == multiset{} == Entries(cs);
    hide Entries, SharedWith, Overlap, Less;
    for j := 0 to |ys|
      invariant Entries(cs) == SharedWith(a, b, x, ys[..j])
      invariant AllBetween(cs, a, b)
    {
      NextShared(a, b, x, ys, j);
      if x == ys[j] {
        EntriesNext(cs, Conflict(Student, a, b, x));
        cs := cs + [Conflict(Student, a, b, x)];
      }
    }
    assert ys[..|ys|] == ys;
  }

  lemma NextShared(a: Session, b: Session, x: string, ys: seq<string>, j: nat)
    requires j < |ys|
    ensures SharedWith(a, b, x, ys[..j + 1]) == SharedWith(a, b, x, ys[..j])
              + if x == ys[j] then multiset{EntryOf(Conflict(Student, a, b, x))} else multiset{}
  {
    assert ys[..j + 1][..j] == ys[..j];
  }

  lemma NoEntries()
    ensures Entries([]) == multiset{}
  {
  }

  // ---------- one day ----------

  predicate SortedByStart(s: seq<Session>) {
    forall i, j :: 0 <= i < j < |s| ==> !Less(s[j].start, s[i].start)
  }

  /** A sort by start time; equal starts may come in any order. */
  method SortByStart(s: seq<Session>) returns (r: seq<Session>)
    ensures multiset(r) == multiset(s) && SortedByStart(r)
  {
    hide Less, SortedByStart;
    r := [];
    NothingSorted();
    for i := 0 to |s|
      invariant multiset(r) == multiset(s[..i]) && SortedByStart(r)
    {
      assert s[..i + 1] == s[..i] + [s[i]];
      var k := |r|;
      while k > 0 && Less(s[i].start, r[k - 1].start)
        invariant 0 <= k <= |r|
        invariant forall j :: k <= j < |r| ==> Less(s[i].start, r[j].start)
      {
        k := k - 1;
      }
      InsertSorted(r, k, s[i]);
      InsertKeeps(r, k, s[i]);
      r := r[..k] + [s[i]] + r[k..];
    }
    assert s[..|s|] == s;
  }

  lemma NothingSorted()
    ensures SortedByStart([])
  {
  }

  lemma InsertKeeps(r: seq<Session>, k: nat, x: Session)
    requires k <= |r|
    ensures multiset(r[..k] + [x] + r[k..]) == multiset(r) + multiset{x}
  {
    assert r == r[..k] + r[k..];
  }

  lemma InsertSorted(r: seq<Session>, k: nat, x: Session)
    requires SortedByStart(r) && k <= |r|
    requires forall j :: k <= j < |r| ==> Less(x.start, r[j].start)
    requires k > 0 ==> !Less(x.start, r[k - 1].start)
    ensures SortedByStart(r[..k] + [x] + r[k..])
  {
    forall j | 0 <= j < k ensures !Less(x.start, r[j].start) {
      LessOrder(r[j].start, r[k - 1].start, x.start);
    }
    forall j | k <= j < |r| ensures !Less(r[j].start, x.start) {
      LessOrder(x.start, r[j].start, x.start);
      assert Less(x.start, r[j].start);
    }
    hide Less;
  }

  lemma FirstPairs(x: Session, rest: seq<Session>)
    ensures AllPairs([x] + rest) == AllPairs(rest) + With(x, rest)
  {
    hide AllPairs, With;
    PairsAround([], x, rest);
    assert [] + [x] + rest == [x] + rest && [] + rest == rest;
  }

  lemma NextWith(x: Session, s: seq<Session>, y: Session)
    ensures With(x, s + [y]) == With(x, s) + Clash(x, y)
  {
    ClashSwap(x, y);
    hide Clash;
    assert (s + [y])[..|s|] == s;
  }

  lemma NothingYet(x: Session)
    ensures With(x, []) == multiset{} && AllPairs([]) == multiset{}
  {
  }

  /** In every reported conflict the session that starts later comes second. */
  predicate InOrder(cs: seq<Conflict>) {
    forall c <- cs :: !Less(c.second.start, c.first.start)
  }

  method OneAgainstLater(s: seq<Session>, i: nat) returns (cs: seq<Conflict>)
    requires i < |s| && SortedByStart(s) && forall x <- s :: x.day == s[i].day
    ensures Entries(cs) == With(s[i], s[i + 1..]) && InOrder(cs)
  {
    hide Entries, With, Clash, Less;
    cs := [];
    NoEntries();
    NothingYet(s[i]);
    assert s[i + 1..i + 1] == [];
    for j := i + 1 to |s|
      invariant Entries(cs) == With(s[i], s[i + 1..j]) && InOrder(cs)
    {
      var more := Compare(s[i], s[j]);
      EntriesConcat(cs, more);
      assert s[i + 1..j + 1] == s[i + 1..j] + [s[j]];
      NextWith(s[i], s[i + 1..j], s[j]);
      cs := cs + more;
    }
    assert s[i + 1..|s|] == s[i + 1..];
  }

  method DayConflicts(day: seq<Session>) returns (cs: seq<Conflict>)
    requires forall x, y :: x in day && y in day ==> x.day == y.day
    ensures Entries(cs) == AllPairs(day) && InOrder(cs)
  {
    hide Entries, AllPairs, With, Clash, Less, SortedByStart;
    var s := SortByStart(day);
    PairsAnyOrder(s, day);
    SameMembers(s, day);
    cs := [];
    NoEntries();
    assert s[0..] == s;
    for i := 0 to |s|
      invariant Entries(cs) + AllPairs(s[i..]) == AllPairs(day)
      invariant InOrder(cs)
    {
      assert s[i..] == [s[i]] + s[i + 1..];
      FirstPairs(s[i], s[i + 1..]);
      var more := OneAgainstLater(s, i);
      EntriesConcat(cs, more);
      cs := cs + more;
    }
    NothingYetPairs(s);
  }

  lemma SameMembers(s: seq<Session>, t: seq<Session>)
    requires multiset(s) == multiset(t)
    ensures forall x :: x in s <==> x in t
  {
    assert forall x :: x in s <==> x in multiset(s);
  }

  lemma NothingYetPairs(s: seq<Session>)
    ensures AllPairs(s[|s|..]) == multiset{}
  {
  }

  // ---------- all days ----------

  function OnDay(s: seq<Session>, day: int): seq<Session> {
    if s == [] then []
    else
      var x := s[|s| - 1];
      OnDay(s[..|s| - 1], day) + if x.day == day then [x] else []
  }

  lemma {:induction false} OnDayCounts(s: seq<Session>, day: int, x: Session)
    ensures multiset(OnDay(s, day))[x] == if x.day == day then multiset(s)[x] else 0
  {
    if s != [] {
      OnDayCounts(s[..|s| - 1], day, x);
      assert s == s[..|s| - 1] + [s[|s| - 1]];
    }
  }

  lemma OnDayNext(s: seq<Session>, x: Session, day: int)
    ensures OnDay(s + [x], day) == OnDay(s, day) + if x.day == day then [x] else []
  {
    assert (s + [x])[..|s|] == s;
  }

  ghost predicate Grouped(groups: map<int, seq<Session>>, s: seq<Session>) {
    forall d :: OnDay(s, d) == if d in groups then groups[d] else []
  }

  method GroupByDate(sessions: seq<Session>) returns (groups: map<int, seq<Session>>)
    ensures Grouped(groups, sessions)
  {
    groups := map[];
    for i := 0 to |sessions|
      invariant Grouped(groups, sessions[..i])
    {
      var x := sessions[i];
      assert sessions[..i + 1] == sessions[..i] + [x];
      forall d ensures OnDay(sessions[..i] + [x], d) == OnDay(sessions[..i], d) + if x.day == d then [x] else [] {
        OnDayNext(sessions[..i], x, d);
      }
      hide OnDay;
      groups := groups[x.day := (if x.day in groups then groups[x.day] else []) + [x]];
    }
    assert sessions[..|sessions|] == sessions;
  }

  /** Some key of a map: they come up in no particular order. */
  method AnyKey<K(==)>(keys: set<K>) returns (d: K)
    requires keys != {}
    ensures d in keys
  {
    d :| d in keys;
  }

  /** The conflicts found, whatever the order of the map's keys and of sessions with equal starts, are
      those of all unordered pairs. */
  method DetectConflicts(sessions: seq<Session>) returns (cs: seq<Conflict>)
    ensures Entries(cs) == AllPairs(sessions) && InOrder(cs)
  {
    hide Entries, AllPairs, OnDay, Less, Grouped;
    var groups := GroupByDate(sessions);
    cs := [];
    var keys: set<int> := groups.Keys;
    ghost var done: seq<Session> := [];
    NoEntries();
    NothingYetPairs(done);
    assert done[|done|..] == done;
    while keys != {}
      invariant keys <= groups.Keys
      invariant forall x: Session ::
                  multiset(done)[x] ==
                  if x.day in groups && x.day !in keys then multiset(sessions)[x] else 0
      invariant Entries(cs) == AllPairs(done) && InOrder(cs)
      decreases |keys|
    {
      var d := AnyKey(keys);
      GroupIsDay(groups, sessions, d);
      var more := DayConflicts(groups[d]);
      EntriesConcat(cs, more);
      DoneApart(done, groups[d], keys, d);
      DaysApartAdd(done, groups[d]);
      assert multiset(done + groups[d]) == multiset(done) + multiset(groups[d]);
      cs, done, keys := cs + more, done + groups[d], keys - {d};
    }
    AllGrouped(groups, sessions);
    assert multiset(done) == multiset(sessions);
    PairsAnyOrder(done, sessions);
  }

  lemma GroupIsDay(groups: map<int, seq<Session>>, sessions: seq<Session>, d: int)
    requires Grouped(groups, sessions) && d in groups
    ensures forall x :: multiset(groups[d])[x] == if x.day == d then multiset(sessions)[x] else 0
    ensures forall x <- groups[d] :: x.day == d
  {
    forall x ensures multiset(groups[d])[x] == if x.day == d then multiset(sessions)[x] else 0 {
      OnDayCounts(sessions, d, x);
    }
    hide OnDay, Grouped;
    forall x | x in groups[d] ensures x.day == d {
      assert multiset(groups[d])[x] > 0;
    }
  }

  lemma DoneApart(done: seq<Session>, group: seq<Session>, keys: set<int>, d: int)
    requires d in keys && forall x <- group :: x.day == d
    requires forall x: Session :: x.day in keys ==> multiset(done)[x] == 0
    ensures DaysApart(done, group)
  {
    forall x | x in done ensures x.day !in keys {
      assert x in multiset(done);
    }
  }

  lemma AllGrouped(groups: map<int, seq<Session>>, sessions: seq<Session>)
    requires Grouped(groups, sessions)
    ensures forall x: Session :: x.day !in groups ==> multiset(sessions)[x] == 0
  {
    forall x: Session | x.day !in groups ensures multiset(sessions)[x] == 0 {
      OnDayCounts(sessions, x.day, x);
      assert OnDay(sessions, x.day) == [];
    }
  }

  // ---------- materializing ----------

  datatype Schedule = Schedule(id: string, weekday: string, start: string, end: string, teacher: string, room: string,
                               students: seq<string>, kind: string, from: Option<int>, until: Option<int>)

  function DayName(weekday: int): string {
    match weekday
    case 0 => "Sunday"
    case 1 => "Monday"
    case 2 => "Tuesday"
    case 3 => "Wednesday"
    case 4 => "Thursday"
    case 5 => "Friday"
    case _ => "Saturday"
  }

  /** Dates that are missing or unreadable do not limit a schedule. */
  predicate HeldOn(sc: Schedule, day: int) {
    && ToLower(sc.weekday) == ToLower(DayName(WeekdayOf(day)))
    && (sc.from.Some? ==> sc.from.value <= day)
    && (sc.until.Some? ==> day <= sc.until.value)
  }

  function SessionOn(sc: Schedule, day: int): Session {
    Session(sc.id, day, sc.start, sc.end, sc.teacher, sc.room, sc.students, sc.kind)
  }

  function OnOneDay(schedules: seq<Schedule>, day: int): seq<Session> {
    if schedules == [] then []
    else
      var sc := schedules[|schedules| - 1];
      OnOneDay(schedules[..|schedules| - 1], day) + if HeldOn(sc, day) then [SessionOn(sc, day)] else []
  }

  function Materialized(schedules: seq<Schedule>, first: int, last: int): seq<Session>
    decreases last - first
  {
    if first > last then [] else Materialized(schedules, first, last - 1) + OnOneDay(schedules, last)
  }

  method MaterializeSessions(schedules: seq<Schedule>, first: int, last: int) returns (sessions: seq<Session>)
    ensures sessions == Materialized(schedules, first, last)
  {
    hide HeldOn;
    sessions := [];
    var d := first;
    while d <= last
      invariant first <= last + 1 ==> first <= d <= last + 1
      invariant first > last ==> d == first
      invariant sessions == Materialized(schedules, first, d - 1)
      decreases last - d
    {
      ghost var before := sessions;
      for i := 0 to |schedules|
        invariant sessions == before + OnOneDay(schedules[..i], d)
      {
        assert schedules[..i + 1][..i] == schedules[..i];
        if HeldOn(schedules[i], d) {
          sessions := sessions + [SessionOn(schedules[i], d)];
        }
      }
      assert schedules[..|schedules|] == schedules;
      d := d + 1;
    }
  }

  lemma {:induction false} OnOneDayMembers(schedules: seq<Schedule>, day: int, x: Session)
    ensures x in OnOneDay(schedules, day) <==>
            exists sc <- schedules :: HeldOn(sc, day) && x == SessionOn(sc, day)
  {
    hide HeldOn;
    if schedules != [] {
      var n := |schedules| - 1;
      OnOneDayMembers(schedules[..n], day, x);
      assert schedules[n] in schedules && forall sc <- schedules[..n] :: sc in schedules;
      assert forall sc <- schedules :: sc in schedules[..n] || sc == schedules[n];
    }
  }

  /** A session is there exactly when its schedule is held on its day, and its day is in the range. */
  lemma {:induction false} MaterializedMembers(schedules: seq<Schedule>, first: int, last: int, x: Session)
    ensures x in Materialized(schedules, first, last) <==>
            first <= x.day <= last && exists sc <- schedules :: HeldOn(sc, x.day) && x == SessionOn(sc, x.day)
    decreases last - first
  {
    hide HeldOn;
    if first <= last {
      MaterializedMembers(schedules, first, last - 1, x);
      OnOneDayMembers(schedules, last, x);
    }
  }

  lemma {:induction false} RangesJoin(schedules: seq<Schedule>, a: int, b: int, c: int)
    requires a <= b + 1 && b <= c
    ensures Materialized(schedules, a, c) == Materialized(schedules, a, b) + Materialized(schedules, b + 1, c)
    decreases c - b
  {
    hide OnOneDay;
    if b < c {
      RangesJoin(schedules, a, b, c - 1);
    }
  }

  lemma DaysInRange(schedules: seq<Schedule>, first: int, last: int)
    ensures forall x <- Materialized(schedules, first, last) :: first <= x.day <= last
  {
    forall x | x in Materialized(schedules, first, last) ensures first <= x.day <= last {
      MaterializedMembers(schedules, first, last, x);
    }
  }

  /** The conflicts over a range are the disjoint union of those over its two parts. */
  lemma ConflictsJoin(schedules: seq<Schedule>, a: int, b: int, c: int)
    requires a <= b + 1 && b <= c
    ensures AllPairs(Materialized(schedules, a, c)) ==
            AllPairs(Materialized(schedules, a, b)) + AllPairs(Materialized(schedules, b + 1, c))
    ensures AllPairs(Materialized(schedules, a, b)) !! AllPairs(Materialized(schedules, b + 1, c))
  {
    var early, late := Materialized(schedules, a, b), Materialized(schedules, b + 1, c);
    RangesJoin(schedules, a, b, c);
    DaysInRange(schedules, a, b);
    DaysInRange(schedules, b + 1, c);
    DaysApartAdd(early, late);
    forall e | e in AllPairs(early) ensures e !in AllPairs(late) {
      NoCommonEntry(early, late, e);
    }
  }

  lemma PairFrom(s: seq<Session>, e: Entry) returns (x: Session)
    requires e in AllPairs(s)
    ensures x in e.pair && forall y <- e.pair :: y in s
  {
    PairsMembers(s, e);
    hide AllPairs, Overlap;
    var i, j :| 0 <= i < j < |s| && Shares(e, s[i], s[j]);
    x := s[i];
  }

  lemma NoCommonEntry(s: seq<Session>, t: seq<Session>, e: Entry)
    requires DaysApart(s, t) && e in AllPairs(s)
    ensures e !in AllPairs(t)
  {
    hide AllPairs;
    var x := PairFrom(s, e);
    if e in AllPairs(t) {
      var y := PairFrom(t, e);
    }
  }
}
