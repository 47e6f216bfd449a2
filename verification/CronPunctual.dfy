/** memos/lib/cron/cron.go: when the scheduler loop misses no activation, for plans that give the least
    activation after the time asked whenever there is one. `CronSchedules` says when Next's plans do. */
module CronPunctual {
  import opened Calendar
  import opened CronRunner

  /** Every activation there is, of every entry. */
  type Activations = iset<Job>

  /** When each entry was planned first; earlier activations are not asked for. */
  type Since = map<nat, int>

  /** The least activation of the entry after `now`, or none if there is none. */
  ghost predicate Least(act: Activations, id: nat, now: int, next: Option<int>) {
    && (next.Some? ==> Job(id, next.value) in act && now < next.value)
    && forall j <- act :: j.id == id && now < j.at ==> next.Some? && next.value <= j.at
  }

  /** The event's plans are least activations; what is added or started is asked for from then on. */
  ghost predicate Exact(s: State, e: Event, act: Activations, since: Since)
    requires Allowed(s, e)
  {
    match e
    case Add(next) =>
      s.running ==> s.nextID + 1 in since && Least(act, s.nextID + 1, since[s.nextID + 1], next)
    case Start(now, plan) =>
      s.running || forall x <- s.entries :: x.id in since && since[x.id] == now && Least(act, x.id, now, plan[x.id])
    case Wake(now, plan) =>
      s.running ==> forall x <- s.entries :: x.Due(now) ==> Least(act, x.id, now, plan[x.id])
    case _ => true
  }

  /** No due entry has a second activation by now. */
  ghost predicate Timely(s: State, now: int, act: Activations) {
    forall x, j :: x in s.entries && j in act && j.id == x.id && x.Due(now) && j.at <= now ==> j.at <= x.next.value
  }

  /** Every activation asked for that lies before an entry's next one is in the log. */
  ghost predicate Caught(s: State, act: Activations, since: Since) {
    && (forall x <- s.entries :: x.id in since && (x.next.Some? ==> since[x.id] < x.next.value))
    && forall x, j :: x in s.entries && j in act && j.id == x.id && Past(x, j.at, since) ==> j in s.started
  }

  /** Asked for, and before the entry's next activation. */
  predicate Past(x: Entry, at: int, since: Since)
    requires x.id in since
  {
    since[x.id] < at && (x.next.None? || at < x.next.value)
  }

  /** Every activation of a live entry asked for and due by `now` is in the log. */
  ghost predicate NoneMissed(s: State, now: int, act: Activations, since: Since) {
    forall x, j :: x in s.entries && j in act && j.id == x.id && x.id in since && since[x.id] < j.at <= now ==>
      j in s.started
  }

  lemma WakeCatches(s: State, now: int, plan: Plan, t: State, act: Activations, since: Since)
    requires Inv(s) && s.running && Allowed(s, Wake(now, plan)) && Step(s, Wake(now, plan), t)
    requires Caught(s, act, since) && Exact(s, Wake(now, plan), act, since) && Timely(s, now, act)
    ensures Caught(t, act, since)
  {
    hide Inv;
    var batch :| IsBatch(s.entries, now, batch) && t.started == s.started + batch;
    forall y, j | y in t.entries && j in act && j.id == y.id && Past(y, j.at, since)
      ensures j in t.started
    {
      var x :| x in s.entries && y == x.Wake(now, plan);
      if x.Due(now) && x.next.value <= j.at {
        assert j.at <= now;
        assert j == Job(x.id, x.next.value);
      }
    }
  }

  /** After a wake everything due is in the log exactly when the wake was timely. */
  lemma WakeExactly(s: State, now: int, plan: Plan, t: State, act: Activations, since: Since)
    requires Inv(s) && s.running && Allowed(s, Wake(now, plan)) && Step(s, Wake(now, plan), t)
    requires Caught(s, act, since) && Exact(s, Wake(now, plan), act, since)
    ensures NoneMissed(t, now, act, since) <==> Timely(s, now, act)
  {
    if Timely(s, now, act) {
      WakeCatches(s, now, plan, t, act, since);
      forall y | y in t.entries ensures !y.Due(now) && y.id in since {
        var x :| x in s.entries && y == x.Wake(now, plan);
      }
    } else {
      var x, j :| x in s.entries && j in act && j.id == x.id && x.Due(now) && j.at <= now && j.at > x.next.value;
      LateIsLost(s, now, plan, t, x, j);
    }
  }

  /** An activation a wake comes too late for is not started. */
  lemma LateIsLost(s: State, now: int, plan: Plan, t: State, x: Entry, j: Job)
    requires Inv(s) && s.running && Allowed(s, Wake(now, plan)) && Step(s, Wake(now, plan), t)
    requires x in s.entries && j.id == x.id && x.Due(now) && x.next.value < j.at
    ensures x.Wake(now, plan) in t.entries && j !in t.started
  {
    var batch :| IsBatch(s.entries, now, batch) && t.started == s.started + batch;
    forall b | b in batch && b.id == x.id ensures b.at == x.next.value {
      var z :| z in s.entries && z.Due(now) && b == Job(z.id, z.next.value);
      assert z == x;
    }
  }

  /** Every other event of a running scheduler keeps what was caught, and so does starting it. */
  lemma StepCatches(s: State, e: Event, t: State, act: Activations, since: Since)
    requires Inv(s) && Allowed(s, e) && Step(s, e, t) && Exact(s, e, act, since)
    requires if s.running then Caught(s, act, since) else e.Start?
    requires e.Wake? ==> s.running && Timely(s, e.now, act)
    ensures Caught(t, act, since)
  {
    match e
    case Wake(now, plan) => WakeCatches(s, now, plan, t, act, since);
    case _ =>
  }

  /** From its start to any wake, a scheduler that is not stopped, is always woken in time and plans exactly has
      run every activation of every live entry exactly once. */
  lemma {:induction false} ExactPlansMissNothing(states: seq<State>, events: seq<Event>, first: nat, n: nat,
                                                 act: Activations, since: Since)
    requires IsRun(states, events) && first < n <= |events|
    requires events[first].Start? && !states[first].running
    requires forall i :: first <= i < n ==> !events[i].Stop? && Exact(states[i], events[i], act, since)
    requires forall i :: first <= i < n && events[i].Wake? ==> Timely(states[i], events[i].now, act)
    ensures states[n].running && Caught(states[n], act, since)
    ensures events[n - 1].Wake? ==> NoneMissed(states[n], events[n - 1].now, act, since)
    ensures forall i, k :: 0 <= i < k < |states[n].started| ==> states[n].started[i] != states[n].started[k]
  {
    hide Inv, Caught, Timely, Exact, NoneMissed;
    RunKeepsInv(states, events, n - 1);
    RunKeepsInv(states, events, n);
    if n - 1 > first {
      ExactPlansMissNothing(states, events, first, n - 1, act, since);
    }
    NextCatches(states[n - 1], events[n - 1], states[n], act, since);
  }

  lemma NextCatches(s: State, e: Event, t: State, act: Activations, since: Since)
    requires Inv(s) && Inv(t) && Allowed(s, e) && Step(s, e, t) && Exact(s, e, act, since) && !e.Stop?
    requires if s.running then Caught(s, act, since) else e.Start?
    requires e.Wake? ==> Timely(s, e.now, act)
    ensures t.running && Caught(t, act, since)
    ensures e.Wake? ==> NoneMissed(t, e.now, act, since)
    ensures forall i, k :: 0 <= i < k < |t.started| ==> t.started[i] != t.started[k]
  {
    StepCatches(s, e, t, act, since);
    InvOrdersLog(t);
    hide Inv, Caught, Timely, Exact, NoneMissed;
    if e.Wake? {
      WakeExactly(s, e.now, e.plan, t, act, since);
    }
  }

  lemma InvOrdersLog(s: State)
    requires Inv(s)
    ensures forall i, k :: 0 <= i < k < |s.started| ==> s.started[i] != s.started[k]
  {
  }
}
