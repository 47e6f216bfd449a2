/** internal/handlers/ratelimit.go: check-ins of different students on one device are kept apart. */
module RateLimit {
  import opened Calendar

  /** Times are in nanoseconds. */
  const SECOND: int := 1_000_000_000
  const KEEP: int := 600 * SECOND

  function Cooldown(deviceType: string): int {
    if deviceType == "kiosk" then 30 * SECOND else 120 * SECOND
  }

  datatype Rec = Rec(student: string, time: int)

  type Table = map<string, seq<Rec>>

  function Of(m: Table, key: string): seq<Rec> {
    if key in m then m[key] else []
  }

  predicate Blocks(r: Rec, student: string, deviceType: string, now: int) {
    r.time > now - Cooldown(deviceType) && r.student != student
  }

  /** `Check`: the seconds to wait for the first record in the way, or none. */
  function Check(rs: seq<Rec>, student: string, deviceType: string, now: int): (wait: Option<int>)
    ensures wait.None? <==> forall r <- rs :: !Blocks(r, student, deviceType, now)
  {
    if rs == [] then None
    else if Blocks(rs[0], student, deviceType, now) then Some((rs[0].time + Cooldown(deviceType) - now) / SECOND + 1)
    else
      assert rs == [rs[0]] + rs[1..];
      Check(rs[1..], student, deviceType, now)
  }

  /** In the way now, no more after `w` seconds, but still one second before the last. */
  predicate TightFor(r: Rec, student: string, deviceType: string, now: int, w: int) {
    && Blocks(r, student, deviceType, now) && !Blocks(r, student, deviceType, now + w * SECOND)
    && (w >= 2 ==> Blocks(r, student, deviceType, now + (w - 2) * SECOND))
  }

  lemma WaitFor(r: Rec, student: string, deviceType: string, now: int)
    requires Blocks(r, student, deviceType, now)
    ensures var w := (r.time + Cooldown(deviceType) - now) / SECOND + 1;
            w >= 1 && TightFor(r, student, deviceType, now, w)
  {
  }

  /** The seconds told are enough for a record in the way, and at most one too many. */
  lemma {:induction false} WaitIsTight(rs: seq<Rec>, student: string, deviceType: string, now: int)
    requires Check(rs, student, deviceType, now).Some?
    ensures var w := Check(rs, student, deviceType, now).value;
            w >= 1 && exists r <- rs :: TightFor(r, student, deviceType, now, w)
  {
    hide TightFor, Blocks;
    if Blocks(rs[0], student, deviceType, now) {
      WaitFor(rs[0], student, deviceType, now);
    } else {
      WaitIsTight(rs[1..], student, deviceType, now);
      assert forall r <- rs[1..] :: r in rs;
    }
  }

  function After(rs: seq<Rec>, cutoff: int): seq<Rec> {
    if rs == [] then [] else (if rs[0].time > cutoff then [rs[0]] else []) + After(rs[1..], cutoff)
  }

  /** `cleanup`: keeps the last ten minutes, and no empty lists. */
  function Cleaned(m: Table, now: int): Table {
    map k | k in m && After(m[k], now - KEEP) != [] :: After(m[k], now - KEEP)
  }

  lemma CleanedOf(m: Table, now: int, key: string)
    ensures Of(Cleaned(m, now), key) == After(Of(m, key), now - KEEP)
  {
  }

  lemma AfterCons(r: Rec, rest: seq<Rec>, cutoff: int)
    ensures After([r] + rest, cutoff) == (if r.time > cutoff then [r] else []) + After(rest, cutoff)
  {
    assert ([r] + rest)[1..] == rest;
  }

  lemma CheckCons(r: Rec, rest: seq<Rec>, student: string, deviceType: string, now: int)
    ensures Check([r] + rest, student, deviceType, now) ==
            if Blocks(r, student, deviceType, now) then Some((r.time + Cooldown(deviceType) - now) / SECOND + 1)
            else Check(rest, student, deviceType, now)
  {
    assert ([r] + rest)[1..] == rest;
  }

  lemma {:induction false} AfterTwice(rs: seq<Rec>, c: int, d: int)
    requires c <= d
    ensures After(After(rs, c), d) == After(rs, d)
  {
    if rs != [] {
      AfterTwice(rs[1..], c, d);
      assert rs == [rs[0]] + rs[1..];
      AfterCons(rs[0], rs[1..], c);
      AfterCons(rs[0], rs[1..], d);
      hide After;
      if rs[0].time > c {
        AfterCons(rs[0], After(rs[1..], c), d);
      } else {
        assert [] + After(rs[1..], c) == After(rs[1..], c) && [] + After(rs[1..], d) == After(rs[1..], d);
      }
    }
  }

  /** Only the last ten minutes matter to an answer. */
  lemma {:induction false} CheckReadsFresh(rs: seq<Rec>, student: string, deviceType: string, now: int)
    ensures Check(After(rs, now - KEEP), student, deviceType, now) == Check(rs, student, deviceType, now)
  {
    if rs != [] {
      CheckReadsFresh(rs[1..], student, deviceType, now);
      assert rs == [rs[0]] + rs[1..];
      var later := After(rs[1..], now - KEEP);
      AfterCons(rs[0], rs[1..], now - KEEP);
      CheckCons(rs[0], rs[1..], student, deviceType, now);
      hide After, Check;
      if rs[0].time > now - KEEP {
        CheckCons(rs[0], later, student, deviceType, now);
      } else {
        assert [] + later == later;
      }
    }
  }

  lemma RecordBlocks(rs: seq<Rec>, r: Rec, student: string, deviceType: string, now: int)
    requires r in rs && Blocks(r, student, deviceType, now)
    ensures Check(rs, student, deviceType, now).Some?
  {
  }

  // ---------- runs ----------

  /** A check-in asks, and is recorded at that instant if nothing is in the way. */
  datatype Event = CheckIn(key: string, student: string, deviceType: string, now: int) | Cleanup(now: int)

  function Step(m: Table, e: Event): Table {
    match e
    case Cleanup(now) => Cleaned(m, now)
    case CheckIn(k, s, d, now) => if Check(Of(m, k), s, d, now).None? then m[k := Of(m, k) + [Rec(s, now)]] else m
  }

  function Run(events: seq<Event>): Table {
    if events == [] then map[] else Step(Run(events[..|events| - 1]), events[|events| - 1])
  }

  /** What the last event of a run was answered. */
  function Answer(events: seq<Event>): Option<int>
    requires events != [] && events[|events| - 1].CheckIn?
  {
    var e := events[|events| - 1];
    Check(Of(Run(events[..|events| - 1]), e.key), e.student, e.deviceType, e.now)
  }

  predicate Accepted(events: seq<Event>, i: int)
    requires 0 <= i < |events|
  {
    events[i].CheckIn? && Answer(events[..i + 1]).None?
  }

  predicate InOrder(events: seq<Event>) {
    forall i, j :: 0 <= i <= j < |events| ==> events[i].now <= events[j].now
  }

  /** Every accepted check-in of the last ten minutes is still on record. */
  lemma {:induction false} RecentIsRecorded(events: seq<Event>, i: int)
    requires InOrder(events) && 0 <= i < |events| && Accepted(events, i)
    requires events[i].now > events[|events| - 1].now - KEEP
    ensures Rec(events[i].student, events[i].now) in Of(Run(events), events[i].key)
  {
    var n := |events| - 1;
    var r := Rec(events[i].student, events[i].now);
    if i < n {
      var front := events[..n];
      assert InOrder(front) && front[..i + 1] == events[..i + 1] && front[n - 1] == events[n - 1];
      assert events[n - 1].now <= events[n].now;
      hide Run, Step, Of, Check, InOrder;
      RecentIsRecorded(front, i);
      StaysRecorded(Run(front), events[n], events[i].key, r);
      RunFront(events);
    } else {
      assert events[..i + 1] == events;
      hide Check;
    }
  }

  lemma RunFront(events: seq<Event>)
    requires events != []
    ensures Run(events) == Step(Run(events[..|events| - 1]), events[|events| - 1])
  {
  }

  lemma StaysRecorded(m: Table, e: Event, key: string, r: Rec)
    requires r in Of(m, key) && r.time > e.now - KEEP
    ensures r in Of(Step(m, e), key)
  {
    hide Check, After;
    if e.Cleanup? {
      CleanedOf(m, e.now, key);
      AfterMembers(Of(m, key), e.now - KEEP, r);
    }
  }

  lemma {:induction false} AfterMembers(rs: seq<Rec>, cutoff: int, r: Rec)
    ensures r in After(rs, cutoff) <==> r in rs && r.time > cutoff
  {
    if rs != [] {
      AfterMembers(rs[1..], cutoff, r);
      assert rs == [rs[0]] + rs[1..];
    }
  }

  /** Two accepted check-ins of different students on one device are at least the later one's cooldown
      apart: 30 seconds on a kiosk, two minutes otherwise. */
  lemma KeptApart(events: seq<Event>, i: int, j: int)
    requires InOrder(events) && 0 <= i < j < |events| && Accepted(events, i) && Accepted(events, j)
    requires events[i].key == events[j].key && events[i].student != events[j].student
    ensures events[j].now - events[i].now >= Cooldown(events[j].deviceType)
  {
    hide Check, Run, Of, After;
    var before := events[..j];
    assert events[..j + 1][..j] == before && before[..i + 1] == events[..i + 1];
    if events[i].now > events[j].now - Cooldown(events[j].deviceType) {
      assert before[|before| - 1] == events[j - 1] && events[j - 1].now <= events[j].now;
      assert InOrder(before);
      hide InOrder;
      RecentIsRecorded(before, i);
      RecordBlocks(Of(Run(before), events[j].key), Rec(events[i].student, events[i].now), events[j].student,
                   events[j].deviceType, events[j].now);
    }
  }

  // ---------- cleanup is invisible ----------

  function CheckInsOf(events: seq<Event>): seq<Event> {
    if events == [] then []
    else CheckInsOf(events[..|events| - 1]) + if events[|events| - 1].CheckIn? then [events[|events| - 1]] else []
  }

  /** The same last ten minutes for every device. */
  ghost predicate SameSince(m: Table, n: Table, cutoff: int) {
    forall k :: After(Of(m, k), cutoff) == After(Of(n, k), cutoff)
  }

  lemma SameLater(m: Table, n: Table, c: int, d: int)
    requires SameSince(m, n, c) && c <= d
    ensures SameSince(m, n, d)
  {
    forall k ensures After(Of(m, k), d) == After(Of(n, k), d) {
      AfterTwice(Of(m, k), c, d);
      AfterTwice(Of(n, k), c, d);
    }
  }

  lemma {:induction false} AfterConcat(a: seq<Rec>, b: seq<Rec>, cutoff: int)
    ensures After(a + b, cutoff) == After(a, cutoff) + After(b, cutoff)
  {
    if a == [] {
      assert a + b == b;
    } else {
      assert (a + b)[1..] == a[1..] + b;
      AfterConcat(a[1..], b, cutoff);
    }
  }

  lemma SameAt(m: Table, n: Table, cutoff: int, key: string)
    requires SameSince(m, n, cutoff)
    ensures After(Of(m, key), cutoff) == After(Of(n, key), cutoff)
  {
  }

  lemma SameAnswerFor(rs: seq<Rec>, qs: seq<Rec>, student: string, deviceType: string, now: int)
    requires After(rs, now - KEEP) == After(qs, now - KEEP)
    ensures Check(rs, student, deviceType, now) == Check(qs, student, deviceType, now)
  {
    hide Check, After;
    CheckReadsFresh(rs, student, deviceType, now);
    CheckReadsFresh(qs, student, deviceType, now);
  }

  lemma SameAnswer(m: Table, n: Table, e: Event)
    requires e.CheckIn? && SameSince(m, n, e.now - KEEP)
    ensures Check(Of(m, e.key), e.student, e.deviceType, e.now) == Check(Of(n, e.key), e.student, e.deviceType, e.now)
  {
    hide Check, After, SameSince, Of;
    SameAt(m, n, e.now - KEEP, e.key);
    SameAnswerFor(Of(m, e.key), Of(n, e.key), e.student, e.deviceType, e.now);
  }

  lemma CheckInKeepsSame(m: Table, n: Table, e: Event)
    requires e.CheckIn? && SameSince(m, n, e.now - KEEP)
    ensures SameSince(Step(m, e), Step(n, e), e.now - KEEP)
  {
    SameAnswer(m, n, e);
    hide Check, After;
    if Check(Of(m, e.key), e.student, e.deviceType, e.now).None? {
      RecordKeepsSame(m, n, e.key, Rec(e.student, e.now), e.now - KEEP);
    }
  }

  lemma RecordKeepsSame(m: Table, n: Table, key: string, r: Rec, cutoff: int)
    requires SameSince(m, n, cutoff)
    ensures SameSince(m[key := Of(m, key) + [r]], n[key := Of(n, key) + [r]], cutoff)
  {
    AfterConcat(Of(m, key), [r], cutoff);
    AfterConcat(Of(n, key), [r], cutoff);
    hide After;
    var m', n' := m[key := Of(m, key) + [r]], n[key := Of(n, key) + [r]];
    forall k ensures After(Of(m', k), cutoff) == After(Of(n', k), cutoff) {
      SameAt(m, n, cutoff, k);
      assert k != key ==> Of(m', k) == Of(m, k) && Of(n', k) == Of(n, k);
    }
  }

  lemma CleanupKeepsSame(m: Table, n: Table, now: int)
    requires SameSince(m, n, now - KEEP)
    ensures SameSince(Cleaned(m, now), n, now - KEEP)
  {
    forall k ensures After(Of(Cleaned(m, now), k), now - KEEP) == After(Of(n, k), now - KEEP) {
      CleanedOf(m, now, k);
      AfterTwice(Of(m, k), now - KEEP, now - KEEP);
    }
  }

  lemma OrderOfFront(events: seq<Event>)
    requires InOrder(events) && events != []
    ensures var front := events[..|events| - 1];
            InOrder(front) && (front != [] ==> front[|front| - 1].now <= events[|events| - 1].now)
  {
  }

  /** A run and the same run without its cleanups agree on the last ten minutes. */
  lemma {:induction false} RunsAgree(events: seq<Event>, cutoff: int)
    requires InOrder(events)
    requires events != [] ==> events[|events| - 1].now - KEEP <= cutoff
    ensures SameSince(Run(events), Run(CheckInsOf(events)), cutoff)
    decreases |events|
  {
    hide Step, SameSince, InOrder;
    if events == [] {
      NothingRecorded(cutoff);
    } else {
      var front, e := events[..|events| - 1], events[|events| - 1];
      OrderOfFront(events);
      RunsAgree(front, e.now - KEEP);
      AfterEvent(Run(front), Run(CheckInsOf(front)), e);
      LastOf(CheckInsOf(front), e);
      assert CheckInsOf(front) + [] == CheckInsOf(front);
      SameLater(Run(events), Run(CheckInsOf(events)), e.now - KEEP, cutoff);
    }
  }

  lemma NothingRecorded(cutoff: int)
    ensures SameSince(map[], map[], cutoff)
  {
  }

  lemma LastOf(events: seq<Event>, e: Event)
    ensures Run(events + [e]) == Step(Run(events), e)
  {
    assert (events + [e])[..|events|] == events;
  }

  lemma AfterEvent(m: Table, n: Table, e: Event)
    requires SameSince(m, n, e.now - KEEP)
    ensures SameSince(Step(m, e), if e.CheckIn? then Step(n, e) else n, e.now - KEEP)
  {
    if e.CheckIn? {
      CheckInKeepsSame(m, n, e);
    } else {
      CleanupKeepsSame(m, n, e.now);
    }
  }

  /** Cleanups, however often and whenever they run, never change an answer: not whether a check-in is let
      through, nor the seconds it is told to wait. */
  lemma CleanupIsInvisible(events: seq<Event>)
    requires InOrder(events) && events != [] && events[|events| - 1].CheckIn?
    ensures CheckInsOf(events) != [] && CheckInsOf(events)[|CheckInsOf(events)| - 1] == events[|events| - 1]
    ensures Answer(events) == Answer(CheckInsOf(events))
  {
    var front, e := events[..|events| - 1], events[|events| - 1];
    OrderOfFront(events);
    hide InOrder, SameSince, Check, Run;
    RunsAgree(front, e.now - KEEP);
    SameAnswer(Run(front), Run(CheckInsOf(front)), e);
    assert CheckInsOf(events) == CheckInsOf(front) + [e];
    assert CheckInsOf(events)[..|CheckInsOf(events)| - 1] == CheckInsOf(front);
  }

  // ---------- asking and recording as two steps ----------

  /** The limiter's lock is taken once to ask and once to record, so requests may come in between. */
  datatype Half =
    | Ask(key: string, student: string, deviceType: string, now: int)
    | Write(key: string, student: string, now: int)
    | Sweep(now: int)

  function HalfStep(m: Table, h: Half): Table {
    match h
    case Ask(_, _, _, _) => m
    case Write(k, s, now) => m[k := Of(m, k) + [Rec(s, now)]]
    case Sweep(now) => Cleaned(m, now)
  }

  function HalfRun(hs: seq<Half>): Table {
    if hs == [] then map[] else HalfStep(HalfRun(hs[..|hs| - 1]), hs[|hs| - 1])
  }

  predicate LetThrough(hs: seq<Half>, i: int)
    requires 0 <= i < |hs|
  {
    hs[i].Ask? && Check(Of(HalfRun(hs[..i]), hs[i].key), hs[i].student, hs[i].deviceType, hs[i].now).None?
  }

  predicate HalvesInOrder(hs: seq<Half>) {
    forall i, j :: 0 <= i <= j < |hs| ==> hs[i].now <= hs[j].now
  }

  /** What a check-in is made of when nothing comes in between. */
  function Halves(m: Table, e: Event): seq<Half> {
    match e
    case Cleanup(now) => [Sweep(now)]
    case CheckIn(k, s, d, now) =>
      [Ask(k, s, d, now)] + if Check(Of(m, k), s, d, now).None? then [Write(k, s, now)] else []
  }

  function Halved(events: seq<Event>): seq<Half> {
    if events == [] then []
    else
      var front := events[..|events| - 1];
      Halved(front) + Halves(Run(front), events[|events| - 1])
  }

  lemma HalfRunNext(hs: seq<Half>, h: Half)
    ensures HalfRun(hs + [h]) == HalfStep(HalfRun(hs), h)
  {
    assert (hs + [h])[..|hs|] == hs;
  }

  /** Without interleaving the halves do what the whole check-ins do. */
  lemma {:induction false} HalvesAreWhole(events: seq<Event>)
    ensures HalfRun(Halved(events)) == Run(events)
  {
    hide Check, Cleaned;
    if events != [] {
      var front, e := events[..|events| - 1], events[|events| - 1];
      var hs := Halved(front);
      HalvesAreWhole(front);
      if e.Cleanup? {
        HalfRunNext(hs, Sweep(e.now));
      } else {
        var ask, write := Ask(e.key, e.student, e.deviceType, e.now), Write(e.key, e.student, e.now);
        HalfRunNext(hs, ask);
        HalfRunNext(hs + [ask], write);
        assert hs + ([ask] + [write]) == hs + [ask] + [write] && [ask] + [] == [ask];
      }
    }
  }

  lemma WriteStays(m: Table, h: Half, key: string, r: Rec)
    requires r in Of(m, key) && r.time > h.now - KEEP
    ensures r in Of(HalfStep(m, h), key)
  {
    hide Check, After;
    if h.Sweep? {
      CleanedOf(m, h.now, key);
      AfterMembers(Of(m, key), h.now - KEEP, r);
    }
  }

  /** What was written in the last ten minutes is on record. */
  lemma {:induction false} RecentWrite(hs: seq<Half>, w: int)
    requires HalvesInOrder(hs) && 0 <= w < |hs| && hs[w].Write? && hs[w].now > hs[|hs| - 1].now - KEEP
    ensures Rec(hs[w].student, hs[w].now) in Of(HalfRun(hs), hs[w].key)
  {
    var n := |hs| - 1;
    if w < n {
      var front := hs[..n];
      assert HalvesInOrder(front) && front[n - 1] == hs[n - 1] && hs[n - 1].now <= hs[n].now;
      hide HalfRun, HalfStep, Of, HalvesInOrder;
      RecentWrite(front, w);
      WriteStays(HalfRun(front), hs[n], hs[w].key, Rec(hs[w].student, hs[w].now));
      assert front + [hs[n]] == hs;
      HalfRunNext(front, hs[n]);
    }
  }

  /** A request let through after another student's check-in was written is its cooldown apart from it. */
  lemma WrittenBefore(hs: seq<Half>, w: int, j: int)
    requires HalvesInOrder(hs) && 0 <= w < j < |hs| && hs[w].Write? && LetThrough(hs, j)
    requires hs[w].key == hs[j].key && hs[w].student != hs[j].student
    ensures hs[j].now - hs[w].now >= Cooldown(hs[j].deviceType)
  {
    hide Check, HalfRun, Of, After;
    var before := hs[..j];
    if hs[w].now > hs[j].now - Cooldown(hs[j].deviceType) {
      assert before[|before| - 1] == hs[j - 1] && hs[j - 1].now <= hs[j].now && HalvesInOrder(before);
      hide HalvesInOrder;
      RecentWrite(before, w);
      RecordBlocks(Of(HalfRun(before), hs[j].key), Rec(hs[w].student, hs[w].now), hs[j].student, hs[j].deviceType,
                   hs[j].now);
    }
  }

  /** A request: it asked at i, was let through, and wrote at w. */
  predicate Request(hs: seq<Half>, i: int, w: int) {
    && 0 <= i < w < |hs| && LetThrough(hs, i) && hs[w].Write?
    && hs[w].key == hs[i].key && hs[w].student == hs[i].student
  }

  /** Requests of different students on one device, neither of which asks between the other's asking and
      writing, are kept apart by the later one's cooldown. */
  lemma RequestsKeptApart(hs: seq<Half>, i: int, w: int, j: int, v: int)
    requires HalvesInOrder(hs) && Request(hs, i, w) && Request(hs, j, v)
    requires hs[i].key == hs[j].key && hs[i].student != hs[j].student
    requires !(i < j < w) && !(j < i < v)
    ensures if i < j then hs[j].now - hs[w].now >= Cooldown(hs[j].deviceType)
            else hs[i].now - hs[v].now >= Cooldown(hs[i].deviceType)
  {
    if i < j {
      WrittenBefore(hs, w, j);
    } else {
      WrittenBefore(hs, v, i);
    }
  }

  /** Two students who both ask before either is recorded are both let through, at one instant. */
  lemma RaceExample(key: string, deviceType: string, now: int)
    ensures var hs := [Ask(key, "a", deviceType, now), Ask(key, "b", deviceType, now), Write(key, "a", now),
                       Write(key, "b", now)];
            && HalvesInOrder(hs) && Request(hs, 0, 2) && Request(hs, 1, 3)
            && Of(HalfRun(hs), key) == [Rec("a", now), Rec("b", now)]
  {
    var a, b := Ask(key, "a", deviceType, now), Ask(key, "b", deviceType, now);
    var wa, wb := Write(key, "a", now), Write(key, "b", now);
    var hs := [a, b, wa, wb];
    assert hs[..0] == [] && hs[..1] == [] + [a] && hs[..2] == [a] + [b];
    assert hs[..3] == [a, b] + [wa] && hs == [a, b, wa] + [wb];
    HalfRunNext([], a);
    HalfRunNext([a], b);
    HalfRunNext([a, b], wa);
    HalfRunNext([a, b, wa], wb);
    assert [a] + [b] == [a, b] && [a, b] + [wa] == [a, b, wa];
  }

  // ---------- the limiter ----------

  class RateLimiter {
    var records: Table

    constructor ()
      ensures records == map[]
    {
      records := map[];
    }

    method CheckDevice(key: string, student: string, deviceType: string, now: int) returns (wait: Option<int>)
      ensures wait == Check(Of(records, key), student, deviceType, now)
      ensures wait.Some? ==> wait.value >= 1
    {
      var cooldown := 120 * SECOND;
      if deviceType == "kiosk" {
        cooldown := 30 * SECOND;
      }
      var cutoff := now - cooldown;
      var rs := Of(records, key);
      ghost var rest := rs;
      for i := 0 to |rs|
        invariant rest == rs[i..]
        invariant Check(rs, student, deviceType, now) == Check(rest, student, deviceType, now)
      {
        if rs[i].time > cutoff && rs[i].student != student {
          var remaining := rs[i].time + cooldown - now;
          return Some(remaining / SECOND + 1);
        }
        rest := rest[1..];
      }
      return None;
    }

    method Record(key: string, student: string, now: int)
      modifies this
      ensures records == old(records)[key := Of(old(records), key) + [Rec(student, now)]]
    {
      records := records[key := Of(records, key) + [Rec(student, now)]];
    }

    /** How a request uses the two: it asks, and records if nothing is in the way. The check-in's own writes, which
        come between the two and may fail, are not part of it. */
    method CheckIn(key: string, student: string, deviceType: string, now: int) returns (wait: Option<int>)
      modifies this
      ensures records == Step(old(records), Event.CheckIn(key, student, deviceType, now))
      ensures wait == Check(Of(old(records), key), student, deviceType, now)
      ensures wait.Some? ==> wait.value >= 1
    {
      hide Check;
      wait := CheckDevice(key, student, deviceType, now);
      if wait.None? {
        Record(key, student, now);
      }
    }

    /** Rewrites the lists one by one, in whatever order the map's keys come up. */
    method Clean(now: int)
      modifies this
      ensures records == Cleaned(old(records), now) == Step(old(records), Cleanup(now))
    {
      hide After;
      ghost var before := records;
      var cutoff := now - KEEP;
      var keys := records.Keys;
      while keys != {}
        invariant keys <= before.Keys
        invariant forall k :: k in keys ==> k in records && records[k] == before[k]
        invariant forall k :: k !in keys ==> (k in records <==> k in before && After(before[k], cutoff) != [])
        invariant forall k :: k !in keys && k in records ==> records[k] == After(before[k], cutoff)
        decreases |keys|
      {
        var key :| key in keys;
        var kept := Recent(records[key], cutoff);
        if |kept| == 0 {
          records := records - {key};
        } else {
          records := records[key := kept];
        }
        keys := keys - {key};
      }
    }
  }

  method Recent(rs: seq<Rec>, cutoff: int) returns (kept: seq<Rec>)
    ensures kept == After(rs, cutoff)
  {
    kept := [];
    ghost var rest := rs;
    for i := 0 to |rs|
      invariant rest == rs[i..]
      invariant kept + After(rest, cutoff) == After(rs, cutoff)
    {
      if rs[i].time > cutoff {
        kept := kept + [rs[i]];
      }
      rest := rest[1..];
    }
  }
}
