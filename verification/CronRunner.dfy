/** memos/lib/cron/cron.go: the scheduler loop, one atomic event at a time. Times are nanoseconds.
    A schedule is code of its own, so what its `Next` answers at an event arrives with the event:
    a plan gives, for each entry id, that entry's next activation after `now`, or none. */
module CronRunner {
  import opened Calendar

  type Plan = map<nat, Option<int>>

  datatype Entry = Entry(id: nat, next: Option<int>, prev: Option<int>) {
    /** Neither zero nor after `now`. */
    predicate Due(now: int) {
      next.Some? && next.value <= now
    }

    function Replan(plan: Plan): Entry
      requires id in plan
    {
      this.(next := plan[id])
    }

    function Fire(plan: Plan): Entry
      requires id in plan
    {
      this.(prev := next, next := plan[id])
    }

    /** What one wake makes of the entry. */
    function Wake(now: int, plan: Plan): Entry
      requires id in plan
    {
      if Due(now) then Fire(plan) else this
    }
  }

  /** `Schedule.Next` returns a time later than the given one, or none. */
  ghost predicate Answers(plan: Plan, now: int, entries: set<Entry>) {
    forall e <- entries :: e.id in plan && (plan[e.id].Some? ==> now < plan[e.id].value)
  }

  datatype Job = Job(id: nat, at: int)

  // ---------- the specification: a set of entries, and the log of started jobs ----------

  datatype State = State(entries: set<Entry>, nextID: nat, running: bool, started: seq<Job>)

  datatype Event =
    | Add(next: Option<int>)
    | Remove(id: nat)
    | Start(now: int, plan: Plan)
    | Stop
    | Wake(now: int, plan: Plan)

  /** `batch` lists each due entry's activation once, earliest first, and nothing else. */
  ghost predicate IsBatch(entries: set<Entry>, now: int, batch: seq<Job>) {
    && (forall j <- batch :: exists e <- entries :: e.Due(now) && j == Job(e.id, e.next.value))
    && (forall e <- entries :: e.Due(now) ==> Job(e.id, e.next.value) in batch)
    && (forall i, k :: 0 <= i < k < |batch| ==> batch[i].id != batch[k].id && batch[i].at <= batch[k].at)
  }

  /** Schedules keep their contract, and a start finds the clock at or after every activation run. */
  ghost predicate Allowed(s: State, e: Event) {
    match e
    case Start(now, plan) =>
      Answers(plan, now, s.entries) && forall x <- s.entries :: x.prev.Some? ==> x.prev.value <= now
    case Wake(now, plan) => Answers(plan, now, s.entries)
    case _ => true
  }

  ghost predicate Step(s: State, e: Event, t: State)
    requires Allowed(s, e)
  {
    match e
    case Add(next) =>
      var id := s.nextID + 1;
      t == s.(nextID := id, entries := s.entries + {Entry(id, if s.running then next else None, None)})
    case Remove(id) =>
      t == s.(entries := set x <- s.entries | x.id != id)
    case Start(now, plan) =>
      if s.running then t == s
      else t == s.(running := true, entries := set x <- s.entries :: x.Replan(plan))
    case Stop =>
      t == s.(running := false)
    case Wake(now, plan) =>
      && t.running == s.running && t.nextID == s.nextID
      && (if s.running then Woken(s, now, plan, t) else t == s)
  }

  /** A wake runs exactly the due entries and replans them. */
  ghost predicate Woken(s: State, now: int, plan: Plan, t: State)
    requires Answers(plan, now, s.entries)
  {
    && t.entries == (set x <- s.entries :: x.Wake(now, plan))
    && exists batch :: IsBatch(s.entries, now, batch) && t.started == s.started + batch
  }

  /** Ids are distinct and issued in order; an entry's last activation lies before its next one. */
  ghost predicate EntriesInv(entries: set<Entry>, nextID: nat) {
    && (forall x <- entries :: 0 < x.id <= nextID)
    && (forall x, y :: x in entries && y in entries && x.id == y.id ==> x == y)
    && (forall x <- entries :: x.prev.Some? && x.next.Some? ==> x.prev.value < x.next.value)
  }

  /** No entry has an activation in the log after its last one. */
  ghost predicate LogBound(entries: set<Entry>, started: seq<Job>) {
    forall x, j :: x in entries && j in started && j.id == x.id ==> x.prev.Some? && j.at <= x.prev.value
  }

  /** The log runs every entry's activations in order. */
  ghost predicate LogOrdered(started: seq<Job>, nextID: nat) {
    && (forall i :: 0 <= i < |started| ==> started[i].id <= nextID)
    && (forall i, k :: 0 <= i < k < |started| && started[i].id == started[k].id ==> started[i].at < started[k].at)
  }

  ghost predicate Inv(s: State) {
    EntriesInv(s.entries, s.nextID) && LogBound(s.entries, s.started) && LogOrdered(s.started, s.nextID)
  }

  lemma WakeKeepsOrder(s: State, now: int, batch: seq<Job>)
    requires Inv(s) && IsBatch(s.entries, now, batch)
    ensures LogOrdered(s.started + batch, s.nextID)
  {
    var log, n := s.started + batch, |s.started|;
    forall i | 0 <= i < |log|
      ensures log[i].id <= s.nextID
    {
      if i >= n {
        assert batch[i - n] in batch;
      }
    }
    forall i, k | 0 <= i < k < |log| && log[i].id == log[k].id
      ensures log[i].at < log[k].at
    {
      if i < n <= k {
        assert s.started[i] in s.started && batch[k - n] in batch;
      }
    }
  }

  lemma WakeKeepsBound(s: State, now: int, plan: Plan, batch: seq<Job>, y: Entry, j: Job)
    requires Inv(s) && Answers(plan, now, s.entries) && IsBatch(s.entries, now, batch)
    requires y in (set x <- s.entries :: x.Wake(now, plan)) && j in s.started + batch && j.id == y.id
    ensures y.prev.Some? && j.at <= y.prev.value
  {
    var x :| x in s.entries && y == x.Wake(now, plan);
    if j in batch {
      var z :| z in s.entries && z.Due(now) && j == Job(z.id, z.next.value);
      assert z == x;
    }
  }

  lemma WakeKeepsInv(s: State, now: int, plan: Plan, t: State)
    requires Inv(s) && Answers(plan, now, s.entries) && t.nextID == s.nextID && Woken(s, now, plan, t)
    ensures Inv(t)
  {
    hide IsBatch, LogOrdered;
    var batch :| IsBatch(s.entries, now, batch) && t.started == s.started + batch;
    WakeKeepsOrder(s, now, batch);
    forall y, j | y in t.entries && j in t.started && j.id == y.id
      ensures y.prev.Some? && j.at <= y.prev.value
    {
      WakeKeepsBound(s, now, plan, batch, y, j);
    }
  }

  lemma StepKeepsInv(s: State, e: Event, t: State)
    requires Inv(s) && Allowed(s, e) && Step(s, e, t)
    ensures Inv(t)
  {
    match e
    case Wake(now, plan) =>
      if s.running {
        WakeKeepsInv(s, now, plan, t);
      }
    case Add(next) =>
      assert forall j <- s.started :: j.id <= s.nextID;
    case _ =>
  }

  ghost predicate IsRun(states: seq<State>, events: seq<Event>) {
    && |states| == |events| + 1
    && states[0] == State({}, 0, false, [])
    && forall i :: 0 <= i < |events| ==> Allowed(states[i], events[i]) && Step(states[i], events[i], states[i + 1])
  }

  lemma {:induction false} RunKeepsInv(states: seq<State>, events: seq<Event>, n: nat)
    requires IsRun(states, events) && n <= |events|
    ensures Inv(states[n])
  {
    if n > 0 {
      RunKeepsInv(states, events, n - 1);
      StepKeepsInv(states[n - 1], events[n - 1], states[n]);
    }
  }

  /** Over any run an entry's activations fire in order, so none fires twice, and live ids differ. */
  lemma NoActivationTwice(states: seq<State>, events: seq<Event>)
    requires IsRun(states, events)
    ensures var log := states[|events|].started;
            forall i, k :: 0 <= i < k < |log| ==>
              log[i] != log[k] && (log[i].id == log[k].id ==> log[i].at < log[k].at)
    ensures var live := states[|events|].entries;
            forall x, y :: x in live && y in live && x.id == y.id ==> x == y
  {
    RunKeepsInv(states, events, |events|);
  }

  /** A wake leaves nothing due, and moves forward the last activation of exactly the due entries. */
  lemma WakeAdvances(s: State, now: int, plan: Plan, t: State, x: Entry)
    requires Inv(s) && s.running && Allowed(s, Wake(now, plan)) && Step(s, Wake(now, plan), t) && x in s.entries
    ensures x.Wake(now, plan) in t.entries && forall y <- t.entries :: !y.Due(now)
    ensures var y := x.Wake(now, plan);
            if x.Due(now) then y.prev == x.next && (x.prev.Some? ==> x.prev.value < y.prev.value) else y == x
  {
  }

  // ---------- the loop's list ----------

  /** The comparator given to the sort: zero times last. */
  function Compare(a: Entry, b: Entry): int {
    if a.next.None? && b.next.None? then 0
    else if a.next.None? then 1
    else if b.next.None? then -1
    else if a.next.value < b.next.value then -1
    else if b.next.value < a.next.value then 1
    else 0
  }

  /** The comparator is a strict weak order, as the sort demands. */
  lemma CompareIsStrictWeakOrder(a: Entry, b: Entry, c: Entry)
    ensures Compare(a, a) == 0
    ensures Compare(a, b) == -Compare(b, a)
    ensures Compare(a, b) < 0 && Compare(b, c) < 0 ==> Compare(a, c) < 0
    ensures Compare(a, b) == 0 && Compare(b, c) == 0 ==> Compare(a, c) == 0
    ensures Compare(a, b) == 0 && Compare(b, c) < 0 ==> Compare(a, c) < 0
  {
  }

  ghost predicate Sorted(s: seq<Entry>) {
    forall i, j :: 0 <= i < j < |s| ==> Compare(s[i], s[j]) <= 0
  }

  ghost predicate DistinctIds(s: seq<Entry>) {
    forall i, j :: 0 <= i < j < |s| ==> s[i].id != s[j].id
  }

  ghost function Contents(s: seq<Entry>): set<Entry> {
    set e <- s
  }

  /** Some sort by the comparator: its result is ordered, and holds the same entries at other places. */
  method Sort(s: seq<Entry>) returns (t: seq<Entry>)
    requires DistinctIds(s)
    ensures Sorted(t) && DistinctIds(t) && |t| == |s|
    ensures Contents(t) == Contents(s) && forall e :: e in t <==> e in s
  {
    t := [];
    for i := 0 to |s|
      invariant Sorted(t) && DistinctIds(t) && |t| == i
      invariant forall e :: e in t <==> e in s[..i]
    {
      assert s[..i + 1] == s[..i] + [s[i]];
      assert forall e <- t :: e.id != s[i].id;
      t := Insert(t, s[i]);
    }
    assert s[..|s|] == s;
  }

  method Insert(s: seq<Entry>, e: Entry) returns (t: seq<Entry>)
    requires Sorted(s) && DistinctIds(s) && forall x <- s :: x.id != e.id
    ensures Sorted(t) && DistinctIds(t) && |t| == |s| + 1
    ensures forall x :: x in t <==> x == e || x in s
  {
    var i := 0;
    while i < |s| && Compare(s[i], e) <= 0
      invariant 0 <= i <= |s| && forall k :: 0 <= k < i ==> Compare(s[k], e) <= 0
    {
      i := i + 1;
    }
    t := s[..i] + [e] + s[i..];
    InsertedSorted(s, i, e);
    InsertedMembers(s, i, e);
  }

  lemma InsertedSorted(s: seq<Entry>, i: nat, e: Entry)
    requires Sorted(s) && i <= |s|
    requires forall k :: 0 <= k < i ==> Compare(s[k], e) <= 0
    requires i < |s| ==> Compare(s[i], e) > 0
    ensures Sorted(s[..i] + [e] + s[i..])
  {
    forall k | i <= k < |s|
      ensures Compare(e, s[k]) <= 0
    {
      assert k == i || Compare(s[i], s[k]) <= 0;
    }
    hide Compare;
    var t := s[..i] + [e] + s[i..];
    forall a, b | 0 <= a < b < |t|
      ensures Compare(t[a], t[b]) <= 0
    {
      if a == i {
        assert t[b] == s[b - 1];
      } else if b == i {
        assert t[a] == s[a];
      } else {
        assert t[a] == s[if a < i then a else a - 1] && t[b] == s[if b < i then b else b - 1];
      }
    }
  }

  lemma InsertedMembers(s: seq<Entry>, i: nat, e: Entry)
    requires DistinctIds(s) && i <= |s| && forall x <- s :: x.id != e.id
    ensures var t := s[..i] + [e] + s[i..];
            DistinctIds(t) && forall x :: x in t <==> x == e || x in s
  {
    assert s == s[..i] + s[i..];
    assert forall k :: 0 <= k < |s| ==> s[k] in s;
  }

  class Cron {
    var entries: seq<Entry>
    var running: bool
    var nextID: nat
    var started: seq<Job>

    ghost predicate Valid()
      reads this
    {
      && DistinctIds(entries)
      && (forall e <- entries :: 0 < e.id <= nextID)
      && (running ==> Sorted(entries))
    }

    ghost function Abstract(): State
      reads this
    {
      State(Contents(entries), nextID, running, started)
    }

    constructor ()
      ensures Valid() && Abstract() == State({}, 0, false, [])
    {
      entries, running, nextID, started := [], false, 0, [];
    }

    /** `Schedule`: a new entry under a fresh id, planned at once if the scheduler is running. */
    method Schedule(next: Option<int>) returns (id: nat)
      requires Valid()
      modifies this
      ensures Valid() && Step(old(Abstract()), Add(next), Abstract())
      ensures id == nextID && forall e <- old(entries) :: e.id != id
    {
      nextID := nextID + 1;
      id := nextID;
      var entry := Entry(id, if running then next else None, None);
      entries := entries + [entry];
      assert Contents(entries) == old(Contents(entries)) + {entry};
      if running {
        entries := Sort(entries);
      }
    }

    method RemoveEntry(id: nat)
      requires Valid()
      modifies this
      ensures Valid() && Step(old(Abstract()), Remove(id), Abstract())
    {
      var kept := [];
      for i := 0 to |entries|
        invariant entries == old(entries) && running == old(running) && nextID == old(nextID) && started == old(started)
        invariant DistinctIds(kept)
        invariant forall e :: e in kept <==> e in entries[..i] && e.id != id
      {
        if entries[i].id != id {
          kept := kept + [entries[i]];
        }
      }
      assert entries[..|entries|] == entries;
      assert Contents(kept) == set x <- Contents(entries) | x.id != id;
      entries := kept;
      if running {
        entries := Sort(entries);
      }
    }

    /** `Start`: plans every entry, or does nothing if already running. */
    method StartRunning(now: int, plan: Plan)
      requires Valid() && Allowed(Abstract(), Start(now, plan))
      modifies this
      ensures Valid() && Step(old(Abstract()), Start(now, plan), Abstract())
    {
      if running {
        return;
      }
      running := true;
      ghost var before := entries;
      for i := 0 to |entries|
        invariant |entries| == |before| && running && nextID == old(nextID) && started == old(started)
        invariant forall k :: 0 <= k < i ==> entries[k] == before[k].Replan(plan)
        invariant forall k :: i <= k < |entries| ==> entries[k] == before[k]
      {
        entries := entries[i := entries[i].Replan(plan)];
      }
      assert forall k :: 0 <= k < |before| ==> before[k] in Contents(before) && entries[k] in entries;
      assert Contents(entries) == set x <- Contents(before) :: x.Replan(plan);
      entries := Sort(entries);
    }

    method StopRunning()
      requires Valid()
      modifies this
      ensures Valid() && Step(old(Abstract()), Stop, Abstract())
    {
      running := false;
    }

    /** The timer fires: run entries from the front of the sorted list, and stop at the first one
        that is not due. */
    method WakeUp(now: int, plan: Plan)
      requires Valid() && running && Allowed(Abstract(), Wake(now, plan))
      modifies this
      ensures Valid() && Step(old(Abstract()), Wake(now, plan), Abstract())
    {
      hide IsBatch;
      ghost var before, log := entries, started;
      ghost var batch := [];
      var i := 0;
      while i < |entries|
        invariant 0 <= i <= |entries| == |before| && running && nextID == old(nextID)
        invariant forall k :: 0 <= k < i ==> before[k].Due(now) && entries[k] == before[k].Fire(plan)
        invariant forall k :: i <= k < |entries| ==> entries[k] == before[k]
        invariant started == log + batch && |batch| == i
        invariant forall k :: 0 <= k < i ==> batch[k] == Job(before[k].id, before[k].next.value)
      {
        var e := entries[i];
        if e.next.None? || e.next.value > now {
          break;
        }
        started := started + [Job(e.id, e.next.value)];
        batch := batch + [Job(e.id, e.next.value)];
        entries := entries[i := e.Fire(plan)];
        i := i + 1;
      }
      BreakIsExact(before, i, now);
      BatchIsExact(before, i, now, batch);
      WokenContents(before, entries, now, plan);
      entries := Sort(entries);
      assert Woken(old(Abstract()), now, plan, Abstract());
    }

    /** What the timer is set to: the earliest activation of any entry, or none if there is none. */
    function NextWake(): (at: Option<int>)
      requires Valid() && running
      reads this
      ensures at.None? ==> forall e <- entries :: e.next.None?
      ensures at.Some? ==> exists e <- entries :: e.next == at
      ensures at.Some? ==> forall e <- entries :: e.next.Some? ==> at.value <= e.next.value
    {
      if |entries| == 0 || entries[0].next.None? then
        assert forall i :: 0 < i < |entries| ==> Compare(entries[0], entries[i]) <= 0;
        None
      else
        assert forall i :: 0 < i < |entries| ==> Compare(entries[0], entries[i]) <= 0;
        assert entries[0] in entries;
        entries[0].next
    }
  }

  /** Because the list is sorted, the entries before the first one not due are all the due ones. */
  lemma BreakIsExact(s: seq<Entry>, i: nat, now: int)
    requires Sorted(s) && i <= |s|
    requires forall k :: 0 <= k < i ==> s[k].Due(now)
    requires i < |s| ==> !s[i].Due(now)
    ensures forall k :: 0 <= k < |s| ==> (s[k].Due(now) <==> k < i)
  {
    forall k | i <= k < |s|
      ensures !s[k].Due(now)
    {
      assert k == i || Compare(s[i], s[k]) <= 0;
    }
  }

  lemma WokenContents(s: seq<Entry>, t: seq<Entry>, now: int, plan: Plan)
    requires |t| == |s| && Answers(plan, now, Contents(s))
    requires forall k :: 0 <= k < |s| ==> s[k].id in plan && t[k] == s[k].Wake(now, plan)
    ensures Contents(t) == set x <- Contents(s) :: x.Wake(now, plan)
    ensures forall e <- t :: exists k :: 0 <= k < |s| && t[k] == e
  {
    assert forall k :: 0 <= k < |s| ==> s[k] in Contents(s) && t[k] in t;
  }

  lemma BatchIsExact(s: seq<Entry>, i: nat, now: int, batch: seq<Job>)
    requires Sorted(s) && DistinctIds(s) && i == |batch| <= |s|
    requires forall k :: 0 <= k < |s| ==> (s[k].Due(now) <==> k < i)
    requires forall k :: 0 <= k < i ==> s[k].Due(now) && batch[k] == Job(s[k].id, s[k].next.value)
    ensures IsBatch(Contents(s), now, batch)
  {
    forall e | e in Contents(s) && e.Due(now)
      ensures Job(e.id, e.next.value) in batch
    {
      var k :| 0 <= k < |s| && s[k] == e;
      assert batch[k] in batch;
    }
    forall j | j in batch
      ensures exists e <- Contents(s) :: e.Due(now) && j == Job(e.id, e.next.value)
    {
      var k :| 0 <= k < |batch| && batch[k] == j;
      assert s[k] in Contents(s);
    }
    forall a, b | 0 <= a < b < |batch|
      ensures batch[a].id != batch[b].id && batch[a].at <= batch[b].at
    {
      assert Compare(s[a], s[b]) <= 0;
    }
  }
}
