/** internal/scheduling: sessions materialized from weekly schedules, and the conflicts among them. */
module Conflicts {
  import opened Calendar
  import opened Text

  datatype Session = Session(schedule: string, day: int, start: string, end: string, teacher: string, room: string,
                             students: seq<string>, kind: string)

  datatype Kind = Room | Teacher | Student

  datatype Conflict = Conflict(kind: Kind, first: Session, second: Session, who: string)

  /** A conflict without the order of its two sessions, which depends on the sort. */
  datatype Entry = Entry(kind: Kind, pair: multiset<Session>, who: string)

  function EntryOf(c: Conflict): Entry {
    Entry(c.kind, multiset{c.first, c.second}, c.who)
  }

  function Entries(cs: seq<Conflict>): multiset<Entry> {
    if cs == [] then multiset{} else Entries(cs[..|cs| - 1]) + multiset{EntryOf(cs[|cs| - 1])}
  }

  lemma {:induction false} EntriesConcat(a: seq<Conflict>, b: seq<Conflict>)
    ensures Entries(a + b) == Entries(a) + Entries(b)
  {
    if b == [] {
      assert a + b == a;
    } else {
      assert (a + b)[..|a + b| - 1] == a + b[..|b| - 1];
      EntriesConcat(a, b[..|b| - 1]);
    }
  }

  // ---------- two sessions ----------

  /** Times are compared as text, "HH:MM". */
  predicate Overlap(a: Session, b: Session) {
    Less(a.start, b.end) && Less(b.start, a.end)
  }

  /** A minute of the day as text. */
  function Clock(m: int): string
    requires 0 <= m < 1440
  {
    [Digit(m / 600), Digit(m / 60 % 10), ':', Digit(m % 60 / 10), Digit(m % 10)]
  }

  /** Comparing clock times as text compares the minutes. */
  lemma ClockOrder(m: int, n: int)
    requires 0 <= m < 1440 && 0 <= n < 1440
    ensures Less(Clock(m), Clock(n)) <==> m < n
  {
    var a, b := Clock(m), Clock(n);
    DigitOrder(m / 600, n / 600);
    DigitOrder(m / 60 % 10, n / 60 % 10);
    DigitOrder(m % 60 / 10, n % 60 / 10);
    DigitOrder(m % 10, n % 10);
    hide Digit;
    assert a == [a[0]] + ([a[1]] + ([a[2]] + ([a[3]] + ([a[4]] + []))));
    assert b == [b[0]] + ([b[1]] + ([b[2]] + ([b[3]] + ([b[4]] + []))));
    LessFirst(a[0], a[1..], b[0], b[1..]);
    LessFirst(a[1], a[2..], b[1], b[2..]);
    LessFirst(a[2], a[3..], b[2], b[3..]);
    LessFirst(a[3], a[4..], b[3], b[4..]);
    LessFirst(a[4], [], b[4], []);
    FiveDigits(a, b);
    hide Less, Clock;
    DigitsOf(m);
    DigitsOf(n);
    DigitsCompare(m / 600, m / 60 % 10, m % 60 / 10, m % 10, n / 600, n / 60 % 10, n % 60 / 10, n % 10);
  }

  lemma FiveDigits(a: string, b: string)
    requires |a| == 5 && |b| == 5
    ensures a == [a[0]] + a[1..] && a[1..] == [a[1]] + a[2..] && a[2..] == [a[2]] + a[3..]
    ensures a[3..] == [a[3]] + a[4..] && a[4..] == [a[4]] + []
    ensures b == [b[0]] + b[1..] && b[1..] == [b[1]] + b[2..] && b[2..] == [b[2]] + b[3..]
    ensures b[3..] == [b[3]] + b[4..] && b[4..] == [b[4]] + []
  {
  }

  lemma DigitsOf(m: int)
    requires 0 <= m < 1440
    ensures m == 600 * (m / 600) + 60 * (m / 60 % 10) + 10 * (m % 60 / 10) + m % 10
  {
    assert m / 600 == m / 60 / 10;
    assert m % 60 % 10 == m % 10;
  }

  /** The order of the digits is the order of the number. */
  lemma DigitsCompare(h: int, k: int, m: int, n: int, h': int, k': int, m': int, n': int)
    requires 0 <= k <= 9 && 0 <= m <= 5 && 0 <= n <= 9 && 0 <= k' <= 9 && 0 <= m' <= 5 && 0 <= n' <= 9
    ensures (600 * h + 60 * k + 10 * m + n < 600 * h' + 60 * k' + 10 * m' + n')
       <==> (h < h' || (h == h' && (k < k' || (k == k' && (m < m' || (m == m' && n < n'))))))
  {
  }

  predicate During(m: int, start: int, end: int) {
    start <= m < end
  }

  /** For sessions that end after they start, overlapping is having a minute in common. */
  lemma OverlapIsCommonMinute(a: Session, b: Session, s: int, e: int, t: int, f: int)
    requires 0 <= s < e < 1440 && 0 <= t < f < 1440
    requires a.start == Clock(s) && a.end == Clock(e) && b.start == Clock(t) && b.end == Clock(f)
    ensures Overlap(a, b) <==> exists m :: During(m, s, e) && During(m, t, f)
  {
    ClockOrder(s, f);
    ClockOrder(t, e);
    hide Less, Clock;
    if s < f && t < e {
      assert During(if s < t then t else s, s, e) && During(if s < t then t else s, t, f);
    }
  }

  /** One conflict for every pair of equal student IDs. */
  function SharedStudents(a: Session, b: Session, xs: seq<string>, ys: seq<string>): multiset<Entry> {
    if xs == [] then multiset{}
    else SharedStudents(a, b, xs[..|xs| - 1], ys) + SharedWith(a, b, xs[|xs| - 1], ys)
  }

  function SharedWith(a: Session, b: Session, x: string, ys: seq<string>): multiset<Entry> {
    if ys == [] then multiset{}
    else
      SharedWith(a, b, x, ys[..|ys| - 1])
      + if x == ys[|ys| - 1] then multiset{Entry(Student, multiset{a, b}, x)} else multiset{}
  }

  function SharedRoom(a: Session, b: Session): multiset<Entry> {
    if a.room != "" && a.room == b.room then multiset{Entry(Room, multiset{a, b}, a.room)} else multiset{}
  }

  /** A teacher may have two sessions at once if their types differ. */
  function SharedTeacher(a: Session, b: Session): multiset<Entry> {
    if a.teacher != "" && a.teacher == b.teacher && a.kind == b.kind then
      multiset{Entry(Teacher, multiset{a, b}, a.teacher)}
    else multiset{}
  }

  /** All conflicts between two sessions. */
  function Clash(a: Session, b: Session): multiset<Entry> {
    if a.day != b.day || !Overlap(a, b) then multiset{}
    else SharedRoom(a, b) + SharedTeacher(a, b) + SharedStudents(a, b, a.students, b.students)
  }

  /** What it means for an entry to be due to two sessions. */
  predicate Shares(e: Entry, a: Session, b: Session) {
    && a.day == b.day && Overlap(a, b) && e.pair == multiset{a, b}
    && (match e.kind
        case Room => e.who != "" && a.room == e.who == b.room
        case Teacher => e.who != "" && a.teacher == e.who == b.teacher && a.kind == b.kind
        case Student => e.who in a.students && e.who in b.students)
  }

  lemma {:induction false} SharedWithMembers(a: Session, b: Session, x: string, ys: seq<string>)
    ensures forall e :: e in SharedWith(a, b, x, ys) <==> x in ys && e == Entry(Student, multiset{a, b}, x)
  {
    if ys != [] {
      SharedWithMembers(a, b, x, ys[..|ys| - 1]);
      assert forall y <- ys :: y in ys[..|ys| - 1] || y == ys[|ys| - 1];
      assert ys[|ys| - 1] in ys && forall y <- ys[..|ys| - 1] :: y in ys;
    }
  }

  lemma {:induction false} SharedMembers(a: Session, b: Session, xs: seq<string>, ys: seq<string>)
    ensures forall e :: e in SharedStudents(a, b, xs, ys) <==>
              e.kind == Student && e.pair == multiset{a, b} && e.who in xs && e.who in ys
  {
    if xs != [] {
      SharedMembers(a, b, xs[..|xs| - 1], ys);
      SharedWithMembers(a, b, xs[|xs| - 1], ys);
      assert forall x <- xs :: x in xs[..|xs| - 1] || x == xs[|xs| - 1];
      assert xs[|xs| - 1] in xs && forall x <- xs[..|xs| - 1] :: x in xs;
      hide SharedWith;
    }
  }

  lemma ClashMembers(a: Session, b: Session, e: Entry)
    ensures e in Clash(a, b) <==> Shares(e, a, b)
  {
    SharedMembers(a, b, a.students, b.students);
    hide SharedStudents, Overlap;
  }

  /** The double loop over the students does not care which session comes first. */
  lemma {:induction false} SharedSwap(a: Session, b: Session, xs: seq<string>, ys: seq<string>)
    ensures SharedStudents(a, b, xs, ys) == SharedStudents(b, a, ys, xs)
  {
    assert multiset{a, b} == multiset{b, a};
    if xs == [] {
      NoneShared(b, a, ys);
    } else {
      var n := |xs| - 1;
      SharedSwap(a, b, xs[..n], ys);
      SharedSplit(b, a, ys, xs);
    }
  }

  lemma {:induction false} NoneShared(a: Session, b: Session, xs: seq<string>)
    ensures SharedStudents(a, b, xs, []) == multiset{}
  {
    if xs != [] {
      NoneShared(a, b, xs[..|xs| - 1]);
    }
  }

  /** Taking the last student of the second session apart. */
  lemma {:induction false} SharedSplit(a: Session, b: Session, xs: seq<string>, ys: seq<string>)
    requires ys != []
    ensures SharedStudents(a, b, xs, ys) ==
            SharedStudents(a, b, xs, ys[..|ys| - 1]) + SharedWith(b, a, ys[|ys| - 1], xs)
  {
    assert multiset{a, b} == multiset{b, a};
    if xs != [] {
      SharedSplit(a, b, xs[..|xs| - 1], ys);
    }
  }

  lemma SharedPlacesSwap(a: Session, b: Session)
    ensures SharedRoom(a, b) == SharedRoom(b, a) && SharedTeacher(a, b) == SharedTeacher(b, a)
  {
    assert multiset{a, b} == multiset{b, a};
  }

  lemma ClashSwap(a: Session, b: Session)
    ensures Clash(a, b) == Clash(b, a)
  {
    SharedSwap(a, b, a.students, b.students);
    SharedPlacesSwap(a, b);
    hide SharedStudents, SharedRoom, SharedTeacher, Less;
  }

  // ---------- many sessions ----------

  function With(x: Session, s: seq<Session>): multiset<Entry> {
    if s == [] then multiset{} else With(x, s[..|s| - 1]) + Clash(s[|s| - 1], x)
  }

  /** The conflicts of every unordered pair. */
  function AllPairs(s: seq<Session>): multiset<Entry> {
    if s == [] then multiset{} else AllPairs(s[..|s| - 1]) + With(s[|s| - 1], s[..|s| - 1])
  }

  /** Between one list and another. */
  function Cross(a: seq<Session>, b: seq<Session>): multiset<Entry> {
    if b == [] then multiset{} else Cross(a, b[..|b| - 1]) + With(b[|b| - 1], a)
  }

  lemma {:induction false} WithConcat(x: Session, a: seq<Session>, b: seq<Session>)
    ensures With(x, a + b) == With(x, a) + With(x, b)
  {
    hide Clash;
    if b == [] {
      assert a + b == a;
    } else {
      assert (a + b)[..|a + b| - 1] == a + b[..|b| - 1];
      WithConcat(x, a, b[..|b| - 1]);
    }
  }

  lemma {:induction false} PairsConcat(a: seq<Session>, b: seq<Session>)
    ensures AllPairs(a + b) == AllPairs(a) + AllPairs(b) + Cross(a, b)
  {
    hide Clash, With;
    if b == [] {
      assert a + b == a;
    } else {
      var n := |b| - 1;
      assert (a + b)[..|a + b| - 1] == a + b[..n];
      PairsConcat(a, b[..n]);
      WithConcat(b[n], a, b[..n]);
    }
  }

  lemma {:induction false} CrossOne(x: Session, b: seq<Session>)
    ensures Cross([x], b) == With(x, b)
  {
    hide Clash;
    if b != [] {
      CrossOne(x, b[..|b| - 1]);
      assert [x][..0] == [];
      ClashSwap(x, b[|b| - 1]);
      assert With(b[|b| - 1], [x]) == With(b[|b| - 1], []) + Clash(x, b[|b| - 1]);
    }
  }

  lemma {:induction false} CrossConcat(a: seq<Session>, c: seq<Session>, b: seq<Session>)
    ensures Cross(a + c, b) == Cross(a, b) + Cross(c, b)
  {
    hide With;
    if b != [] {
      CrossConcat(a, c, b[..|b| - 1]);
      WithConcat(b[|b| - 1], a, c);
    }
  }

  lemma NextPairs(s: seq<Session>, x: Session)
    ensures AllPairs(s + [x]) == AllPairs(s) + With(x, s)
  {
    hide With;
    assert (s + [x])[..|s|] == s;
  }

  /** A session adds its conflicts with all others, wherever it stands. */
  lemma PairsAround(a: seq<Session>, x: Session, b: seq<Session>)
    ensures AllPairs(a + [x] + b) == AllPairs(a + b) + With(x, a + b)
  {
    hide AllPairs, With, Cross;
    NextPairs(a, x);
    PairsConcat(a + [x], b);
    PairsConcat(a, b);
    CrossConcat(a, [x], b);
    CrossOne(x, b);
    WithConcat(x, a, b);
  }

  lemma WithAround(x: Session, a: seq<Session>, y: Session, b: seq<Session>)
    ensures With(x, a + [y] + b) == With(x, a + b) + Clash(y, x)
  {
    WithConcat(x, a + [y], b);
    WithConcat(x, a, [y]);
    WithConcat(x, a, b);
    assert [y][..0] == [];
    assert With(x, [y]) == With(x, []) + Clash(y, x);
    hide Clash;
  }

  lemma SplitAt(s: seq<Session>, x: Session) returns (a: seq<Session>, b: seq<Session>)
    requires x in s
    ensures s == a + [x] + b && multiset(s) == multiset(a + b) + multiset{x}
  {
    var i :| 0 <= i < |s| && s[i] == x;
    a, b := s[..i], s[i + 1..];
    assert s == a + [x] + b;
    assert multiset(a + [x] + b) == multiset(a) + multiset{x} + multiset(b);
  }

  lemma InBoth(s: seq<Session>, t: seq<Session>, x: Session)
    requires multiset(s) == multiset(t) && s != [] && x == s[|s| - 1]
    ensures x in t
  {
    assert x in multiset(s);
  }

  lemma {:induction false} WithAnyOrder(x: Session, s: seq<Session>, t: seq<Session>)
    requires multiset(s) == multiset(t)
    ensures With(x, s) == With(x, t)
    decreases |s|
  {
    if s == [] {
      assert |multiset(t)| == |t|;
    } else {
      var y := s[|s| - 1];
      assert s == s[..|s| - 1] + [y];
      InBoth(s, t, y);
      var a, b := SplitAt(t, y);
      assert multiset(s) == multiset(s[..|s| - 1]) + multiset{y};
      assert multiset(a + b) == multiset(t) - multiset{y};
      WithAnyOrder(x, s[..|s| - 1], a + b);
      WithAround(x, a, y, b);
      hide Clash;
    }
  }

  /** The conflicts do not depend on the order of the sessions. */
  lemma {:induction false} PairsAnyOrder(s: seq<Session>, t: seq<Session>)
    requires multiset(s) == multiset(t)
    ensures AllPairs(s) == AllPairs(t)
    decreases |s|
  {
    hide Clash, With;
    if s == [] {
      assert |multiset(t)| == |t|;
    } else {
      var x := s[|s| - 1];
      assert s == s[..|s| - 1] + [x];
      InBoth(s, t, x);
      var a, b := SplitAt(t, x);
      assert multiset(s) == multiset(s[..|s| - 1]) + multiset{x};
      assert multiset(a + b) == multiset(t) - multiset{x};
      PairsAnyOrder(s[..|s| - 1], a + b);
      WithAnyOrder(x, s[..|s| - 1], a + b);
      PairsAround(a, x, b);
    }
  }

  lemma {:induction false} WithMembers(x: Session, s: seq<Session>, e: Entry)
    ensures e in With(x, s) <==> exists i :: 0 <= i < |s| && Shares(e, s[i], x)
  {
    hide Clash, Shares;
    if s != [] {
      var n := |s| - 1;
      WithMembers(x, s[..n], e);
      ClashMembers(s[n], x, e);
      assert forall i :: 0 <= i < n ==> s[..n][i] == s[i];
    }
  }

  /** Sound and complete: an entry is there exactly when two of the sessions on one day overlap and share
      what it says. */
  lemma {:induction false} PairsMembers(s: seq<Session>, e: Entry)
    ensures e in AllPairs(s) <==> exists i, j :: 0 <= i < j < |s| && Shares(e, s[i], s[j])
  {
    hide Clash, Shares, With;
    if s != [] {
      var n := |s| - 1;
      PairsMembers(s[..n], e);
      WithMembers(s[n], s[..n], e);
      assert forall i :: 0 <= i < n ==> s[..n][i] == s[i];
    }
  }

  // ---------- by date ----------

  predicate DaysApart(a: seq<Session>, b: seq<Session>) {
    forall x, y :: x in a && y in b ==> x.day != y.day
  }

  lemma {:induction false} WithNothing(x: Session, s: seq<Session>)
    requires forall y <- s :: y.day != x.day
    ensures With(x, s) == multiset{}
  {
    if s != [] {
      assert s[|s| - 1] in s;
      WithNothing(x, s[..|s| - 1]);
    }
  }

  lemma {:induction false} CrossNothing(a: seq<Session>, b: seq<Session>)
    requires DaysApart(a, b)
    ensures Cross(a, b) == multiset{}
  {
    if b != [] {
      assert b[|b| - 1] in b;
      CrossNothing(a, b[..|b| - 1]);
      WithNothing(b[|b| - 1], a);
    }
  }

  /** Sessions on different days have no conflicts with each other. */
  lemma DaysApartAdd(a: seq<Session>, b: seq<Session>)
    requires DaysApart(a, b)
    ensures AllPairs(a + b) == AllPairs(a) + AllPairs(b)
  {
    PairsConcat(a, b);
    CrossNothing(a, b);
    hide AllPairs, Cross;
  }
}
