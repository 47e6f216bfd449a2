/** memos/lib/cron/cron.go with entries that carry a crontab schedule: what the scheduler loop misses when its
    plans are the answers of spec.go's Next. Times are nanoseconds since midnight of 0001-01-01. */
module CronSchedules {
  import opened Calendar
  import opened CronGaps
  import opened CronRunner
  import opened CronPunctual
  import Spec = CronSpec

  const SECOND: int := 1_000_000_000

  /** The schedule of each entry. */
  type Schedules = map<nat, Spec.SpecSchedule>

  function At(c: Civil): int
    requires c.Valid()
  {
    Seconds(c) * SECOND
  }

  function CivilAt(x: int): (c: Civil)
    ensures c.Valid() && Seconds(c) == x
  {
    var r := x % 86400;
    Civil(DateOf(x / 86400), r / 3600, r % 3600 / 60, r % 60)
  }

  function InstantAt(now: int): (t: Spec.Instant)
    ensures t.Valid() && At(t.civil) + t.nanos == now
  {
    Spec.Instant(CivilAt(now / SECOND), now % SECOND)
  }

  lemma LaterAt(now: int, c: Civil)
    requires c.Valid()
    ensures Spec.Later(InstantAt(now), c) <==> now < At(c)
  {
    CivilOrder(InstantAt(now).civil, c);
    hide Seconds, InstantAt;
  }

  ghost predicate ActivatesAt(s: Spec.SpecSchedule, at: int) {
    exists c: Civil :: c.Valid() && Spec.Matches(s, c) && At(c) == at
  }

  ghost function ActivationsOf(tab: Schedules): Activations {
    iset j: Job | j.id in tab && ActivatesAt(tab[j.id], j.at)
  }

  /** What Next answers, by its contract. */
  ghost predicate Answered(s: Spec.SpecSchedule, now: int, next: Option<int>) {
    var t := InstantAt(now);
    && (next.Some? <==> Spec.ActiveBy(s, t, Spec.YearLimit(t)))
    && (next.Some? ==> exists c: Civil :: c.Valid() && Spec.Least(s, t, c) && next.value == At(c))
  }

  method PlanNext(s: Spec.SpecSchedule, now: int) returns (next: Option<int>)
    ensures Answered(s, now, next)
  {
    hide Spec.Least, Spec.ActiveBy, InstantAt, At;
    var t := InstantAt(now);
    var c := Spec.Next(s, t);
    if c.None? {
      return None;
    }
    assert c.value.Valid() by { LeastIsValid(s, t, c.value); }
    return Some(At(c.value));
  }

  lemma LeastIsValid(s: Spec.SpecSchedule, t: Spec.Instant, c: Civil)
    requires Spec.Least(s, t, c)
    ensures c.Valid()
  {
  }

  /** Next's answer is the least activation, or none where there is none, exactly if it does not give up early. */
  lemma AnswerIsLeast(tab: Schedules, id: nat, now: int, next: Option<int>)
    requires id in tab && Answered(tab[id], now, next)
    ensures Least(ActivationsOf(tab), id, now, next) <==> NoGap(tab[id], InstantAt(now))
  {
    var s, t, act := tab[id], InstantAt(now), ActivationsOf(tab);
    hide Spec.Matches, InstantAt, At, Spec.YearLimit, Spec.Later;
    if next.Some? {
      FoundIsLeast(tab, id, now, next.value);
    } else {
      hide Spec.Least;
      forall c: Civil | c.Valid() && Spec.Matches(s, c)
        ensures Job(id, At(c)) in act && (Spec.Later(t, c) <==> now < At(c))
      {
        LaterAt(now, c);
      }
    }
  }

  lemma FoundIsLeast(tab: Schedules, id: nat, now: int, at: int)
    requires id in tab && Answered(tab[id], now, Some(at))
    ensures Least(ActivationsOf(tab), id, now, Some(at))
  {
    hide Spec.Least, InstantAt, At, Spec.YearLimit, Spec.ActiveBy, ActivatesAt;
    var c: Civil :| c.Valid() && Spec.Least(tab[id], InstantAt(now), c) && at == At(c);
    LeastActivates(tab[id], now, c);
    forall j | j in ActivationsOf(tab) && j.id == id && now < j.at ensures at <= j.at {
      NoneEarlier(tab[id], now, c, j.at);
    }
  }

  lemma LeastActivates(s: Spec.SpecSchedule, now: int, c: Civil)
    requires Spec.Least(s, InstantAt(now), c)
    ensures c.Valid() && ActivatesAt(s, At(c)) && now < At(c)
  {
    hide Spec.Matches, InstantAt, At, Spec.Later;
    LaterAt(now, c);
  }

  lemma NoneEarlier(s: Spec.SpecSchedule, now: int, c: Civil, at: int)
    requires c.Valid() && Spec.Least(s, InstantAt(now), c) && ActivatesAt(s, at) && now < at
    ensures At(c) <= at
  {
    hide Spec.Matches, InstantAt, At, Spec.Later;
    var d: Civil :| d.Valid() && Spec.Matches(s, d) && At(d) == at;
    LaterAt(now, d);
    AtOrder(c, d);
  }

  lemma AtOrder(c: Civil, d: Civil)
    requires c.Valid() && d.Valid() && c.AtOrBefore(d)
    ensures At(c) <= At(d)
  {
    CivilOrder(c, d);
    hide Seconds;
  }

  // ---------- runs ----------

  /** The event asks Next for the entry's plan, at `now`. What is added or started is asked for from then on. */
  ghost predicate Asks(s: State, e: Event, since: Since, id: nat, now: int) {
    match e
    case Add(_) => s.running && id == s.nextID + 1 && id in since && now == since[id]
    case Start(at, _) => !s.running && now == at && exists x <- s.entries :: x.id == id
    case Wake(at, _) => s.running && now == at && exists x <- s.entries :: x.id == id && x.Due(now)
    case _ => false
  }

  /** The event's plans are answers of Next. */
  ghost predicate Served(s: State, e: Event, tab: Schedules, since: Since)
    requires Allowed(s, e)
  {
    match e
    case Add(next) =>
      var id := s.nextID + 1;
      s.running ==> id in tab && id in since && Answered(tab[id], since[id], next)
    case Start(now, plan) =>
      !s.running ==>
        forall x <- s.entries ::
          x.id in tab && x.id in since && since[x.id] == now && Answered(tab[x.id], now, plan[x.id])
    case Wake(now, plan) =>
      s.running ==> forall x <- s.entries :: x.Due(now) ==> x.id in tab && Answered(tab[x.id], now, plan[x.id])
    case _ => true
  }

  /** Next is asked for the entry's plan and gives up early. */
  ghost predicate GivesUp(s: State, e: Event, tab: Schedules, since: Since, id: nat, now: int) {
    Asks(s, e, since, id, now) && id in tab && !NoGap(tab[id], InstantAt(now))
  }

  ghost predicate NoGaps(s: State, e: Event, tab: Schedules, since: Since) {
    forall id, now :: !GivesUp(s, e, tab, since, id, now)
  }

  /** The plans of Next are exact exactly if none gives up early. */
  lemma ServedIsExact(s: State, e: Event, tab: Schedules, since: Since)
    requires Allowed(s, e) && Served(s, e, tab, since)
    ensures Exact(s, e, ActivationsOf(tab), since) <==> NoGaps(s, e, tab, since)
  {
    hide Answered, Least, NoGap, InstantAt, ActivationsOf;
    match e
    case Add(next) =>
      if s.running {
        AnswerIsLeast(tab, s.nextID + 1, since[s.nextID + 1], next);
        assert Asks(s, e, since, s.nextID + 1, since[s.nextID + 1]);
        assert GivesUp(s, e, tab, since, s.nextID + 1, since[s.nextID + 1]) <==>
               !Exact(s, e, ActivationsOf(tab), since);
      }
    case Start(now, plan) =>
      if !s.running {
        forall x | x in s.entries
          ensures Least(ActivationsOf(tab), x.id, now, plan[x.id]) <==> !GivesUp(s, e, tab, since, x.id, now)
        {
          AnswerIsLeast(tab, x.id, now, plan[x.id]);
        }
      }
    case Wake(now, plan) =>
      if s.running {
        forall x | x in s.entries && x.Due(now)
          ensures Least(ActivationsOf(tab), x.id, now, plan[x.id]) <==> !GivesUp(s, e, tab, since, x.id, now)
        {
          AnswerIsLeast(tab, x.id, now, plan[x.id]);
        }
      }
    case _ =>
  }

  /** From a start, without a stop, with every wake in time and no answer given up early, every activation of
      every live entry up to the last wake has been started exactly once. */
  lemma NothingMissed(states: seq<State>, events: seq<Event>, first: nat, n: nat, tab: Schedules, since: Since)
    requires IsRun(states, events) && first < n <= |events|
    requires events[first].Start? && !states[first].running
    requires forall i :: first <= i < n ==> !events[i].Stop? && Served(states[i], events[i], tab, since)
    requires forall i :: first <= i < n ==> NoGaps(states[i], events[i], tab, since)
    requires forall i :: first <= i < n && events[i].Wake? ==> Timely(states[i], events[i].now, ActivationsOf(tab))
    ensures events[n - 1].Wake? ==> NoneMissed(states[n], events[n - 1].now, ActivationsOf(tab), since)
    ensures forall i, k :: 0 <= i < k < |states[n].started| ==> states[n].started[i] != states[n].started[k]
  {
    hide Served, NoGaps, Timely, Exact, NoneMissed, Caught, ActivationsOf;
    forall i | first <= i < n ensures Exact(states[i], events[i], ActivationsOf(tab), since) {
      ServedIsExact(states[i], events[i], tab, since);
    }
    ExactPlansMissNothing(states, events, first, n, ActivationsOf(tab), since);
  }

  /** Schedules other than those of 29 February alone never give up early, so only late wakes lose anything. */
  lemma CommonSchedulesMissNothing(states: seq<State>, events: seq<Event>, first: nat, n: nat, tab: Schedules,
                                   since: Since)
    requires forall id <- tab :: StarsAreFull(tab[id]) && !LeapDayOnly(tab[id])
    requires IsRun(states, events) && first < n <= |events|
    requires events[first].Start? && !states[first].running
    requires forall i :: first <= i < n ==> !events[i].Stop? && Served(states[i], events[i], tab, since)
    requires forall i :: first <= i < n && events[i].Wake? ==> Timely(states[i], events[i].now, ActivationsOf(tab))
    ensures events[n - 1].Wake? ==> NoneMissed(states[n], events[n - 1].now, ActivationsOf(tab), since)
  {
    hide Served, NoGaps, Timely, NoneMissed, ActivationsOf, StarsAreFull, LeapDayOnly;
    forall i | first <= i < n ensures NoGaps(states[i], events[i], tab, since) {
      CommonSchedulesHaveNoGaps(states[i], events[i], tab, since);
    }
    NothingMissed(states, events, first, n, tab, since);
  }

  lemma CommonSchedulesHaveNoGaps(s: State, e: Event, tab: Schedules, since: Since)
    requires forall id <- tab :: StarsAreFull(tab[id]) && !LeapDayOnly(tab[id])
    ensures NoGaps(s, e, tab, since)
  {
    hide Answered, NoGap, InstantAt, StarsAreFull, LeapDayOnly, Spec.YearLimit;
    forall id, now | id in tab ensures NoGap(tab[id], InstantAt(now)) {
      GivesUpExactly(tab[id]);
    }
  }

  // ---------- what giving up costs ----------

  /** No activation of the entry after `now` has been started, and none is planned. */
  ghost predicate GivenUp(s: State, id: nat, now: int) {
    && id <= s.nextID
    && (forall x <- s.entries :: x.id == id ==> x.next.None?)
    && (forall j <- s.started :: j.id == id ==> j.at <= now)
  }

  lemma StaysGivenUp(s: State, e: Event, t: State, id: nat, now: int)
    requires s.running && Allowed(s, e) && Step(s, e, t) && !e.Stop? && GivenUp(s, id, now)
    ensures t.running && GivenUp(t, id, now)
  {
    if e.Wake? {
      var batch :| IsBatch(s.entries, e.now, batch) && t.started == s.started + batch;
    }
  }

  lemma {:induction false} RemainsGivenUp(states: seq<State>, events: seq<Event>, i: nat, n: nat, id: nat, now: int)
    requires IsRun(states, events) && i <= n <= |events|
    requires states[i].running && GivenUp(states[i], id, now)
    requires forall k :: i <= k < n ==> !events[k].Stop?
    ensures states[n].running && GivenUp(states[n], id, now)
  {
    hide GivenUp, Allowed, Step;
    if i < n {
      RemainsGivenUp(states, events, i, n - 1, id, now);
      StaysGivenUp(states[n - 1], events[n - 1], states[n], id, now);
    }
  }

  lemma NoGapAnswer(s: Spec.SpecSchedule, now: int, next: Option<int>)
    requires Answered(s, now, next) && !NoGap(s, InstantAt(now))
    ensures next == None
  {
    hide InstantAt;
  }

  lemma WakeGivesUp(s: State, e: Event, t: State, tab: Schedules, since: Since, id: nat, now: int)
    requires Inv(s) && Allowed(s, e) && Step(s, e, t) && Served(s, e, tab, since) && e.Wake?
    requires GivesUp(s, e, tab, since, id, now)
    ensures t.running && GivenUp(t, id, now)
  {
    var x :| x in s.entries && x.id == id && x.Due(now);
    NoGapAnswer(tab[id], now, e.plan[id]);
    WakeKeepsInv(s, now, e.plan, t);
    hide Served, NoGap, InstantAt;
    var y := x.Wake(now, e.plan);
    assert y in t.entries && y.prev == x.next;
  }

  lemma StartGivesUp(s: State, e: Event, t: State, tab: Schedules, since: Since, id: nat, now: int)
    requires Inv(s) && Allowed(s, e) && Step(s, e, t) && Served(s, e, tab, since) && e.Start?
    requires GivesUp(s, e, tab, since, id, now)
    ensures t.running && GivenUp(t, id, now)
  {
    var x :| x in s.entries && x.id == id;
    NoGapAnswer(tab[id], now, e.plan[id]);
    hide Served, NoGap, InstantAt;
    assert x.prev.Some? ==> x.prev.value <= now;
    assert x.Replan(e.plan) in t.entries;
  }

  lemma AddGivesUp(s: State, e: Event, t: State, tab: Schedules, since: Since, id: nat, now: int)
    requires Inv(s) && Allowed(s, e) && Step(s, e, t) && Served(s, e, tab, since) && e.Add?
    requires GivesUp(s, e, tab, since, id, now)
    ensures t.running && GivenUp(t, id, now)
  {
    NoGapAnswer(tab[id], now, e.next);
    hide Served, NoGap, InstantAt;
    assert forall j <- s.started :: j.id <= s.nextID;
  }

  lemma PlanGivesUp(s: State, e: Event, t: State, tab: Schedules, since: Since, id: nat, now: int)
    requires Inv(s) && Allowed(s, e) && Step(s, e, t) && Served(s, e, tab, since)
    requires GivesUp(s, e, tab, since, id, now)
    ensures t.running && GivenUp(t, id, now)
  {
    hide Inv, Allowed, Step, Served, NoGap, InstantAt, GivenUp;
    match e
    case Add(_) => AddGivesUp(s, e, t, tab, since, id, now);
    case Start(_, _) => StartGivesUp(s, e, t, tab, since, id, now);
    case Wake(_, _) => WakeGivesUp(s, e, t, tab, since, id, now);
    case _ =>
  }

  /** An answer given up early loses what comes later: until the scheduler is stopped, no activation of the entry
      is started any more, though there is one, and however well it is woken. */
  lemma GapLoses(states: seq<State>, events: seq<Event>, i: nat, n: nat, tab: Schedules, since: Since, id: nat,
                 now: int)
    returns (c: Civil)
    requires IsRun(states, events) && i < n <= |events| && Served(states[i], events[i], tab, since)
    requires GivesUp(states[i], events[i], tab, since, id, now)
    requires forall k :: i <= k < n ==> !events[k].Stop?
    ensures c.Valid() && Spec.Matches(tab[id], c) && now < At(c)
    ensures forall at :: now < at ==> Job(id, at) !in states[n].started
  {
    hide Served, InstantAt, At, Spec.Matches, Spec.Later, Inv, Spec.ActiveBy;
    c :| c.Valid() && Spec.Matches(tab[id], c) && Spec.Later(InstantAt(now), c);
    hide NoGap, GivesUp;
    LaterAt(now, c);
    RunKeepsInv(states, events, i);
    PlanGivesUp(states[i], events[i], states[i + 1], tab, since, id, now);
    RemainsGivenUp(states, events, i + 1, n, id, now);
  }

  function LeapDayAt(y: int): int
    requires IsLeap(y)
  {
    At(LeapDay(y))
  }

  /** The expression `0 0 29 2 *`, planned on 29 February 2096 at midnight: none, though 2104 has an activation. */
  lemma LeapDayPlan(s: Spec.SpecSchedule, now: int, later: int, next: Option<int>)
    requires now == LeapDayAt(2096) && later == LeapDayAt(2104)
    requires LeapMidnights(s) && Answered(s, now, next)
    ensures next == None && ActivatesAt(s, later)
  {
    hide LeapMidnights, LeapDay, Spec.Matches, At, InstantAt, Spec.ActiveBy, Spec.YearLimit, Spec.Least, ActivatesAt;
    LeapDayExample(s);
    InstantOf(LeapDay(2096));
    Activates(s, LeapDay(2104));
  }

  lemma Activates(s: Spec.SpecSchedule, c: Civil)
    requires c.Valid() && Spec.Matches(s, c)
    ensures ActivatesAt(s, At(c))
  {
    hide Spec.Matches, At;
  }

  lemma InstantOf(c: Civil)
    requires c.Valid()
    ensures InstantAt(At(c)) == Spec.Instant(c, 0)
  {
    CivilOrder(CivilAt(Seconds(c)), c);
    hide Seconds, CivilAt;
  }
}
