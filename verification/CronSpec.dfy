/** memos/lib/cron/spec.go: the next activation of a crontab schedule, found by skipping. */
module CronSpec {
  import opened Calendar
  import opened Bits

  datatype SpecSchedule = SpecSchedule(second: bv64, minute: bv64, hour: bv64, dom: bv64, month: bv64, dow: bv64)

  /** An instant, with the nanoseconds past its second. */
  datatype Instant = Instant(civil: Civil, nanos: nat) {
    predicate Valid() {
      civil.Valid() && nanos < 1_000_000_000
    }
  }

  const STAR := 63

  function DayMatches(s: SpecSchedule, d: Date): (ok: bool)
    requires d.Valid()
  {
    var domMatch := Has(s.dom, d.day);
    var dowMatch := Has(s.dow, Weekday(d));
    if Has(s.dom, STAR) || Has(s.dow, STAR) then domMatch && dowMatch else domMatch || dowMatch
  }

  /** A time the schedule activates at. */
  predicate Matches(s: SpecSchedule, c: Civil)
    requires c.Valid()
  {
    && Has(s.month, c.date.month) && DayMatches(s, c.date)
    && Has(s.hour, c.hour) && Has(s.minute, c.minute) && Has(s.second, c.second)
  }

  /** A whole second strictly later than `t`. */
  predicate Later(t: Instant, c: Civil) {
    t.civil.Before(c)
  }

  /** No activation from `from` up to but excluding `t`. */
  ghost predicate NoneBetween(s: SpecSchedule, from: Civil, t: Civil) {
    forall c: Civil :: c.Valid() && from.AtOrBefore(c) && c.Before(t) ==> !Matches(s, c)
  }

  /** A field that does not match has nothing but zeros below it: what makes skipping it sound. */
  predicate Aligned(s: SpecSchedule, t: Civil)
    requires t.Valid()
  {
    && (!Has(s.month, t.date.month) ==> t.date.day == 1)
    && (!Has(s.month, t.date.month) || !DayMatches(s, t.date) ==> t.hour == 0)
    && (!Has(s.month, t.date.month) || !DayMatches(s, t.date) || !Has(s.hour, t.hour) ==> t.minute == 0)
    && (!Has(s.month, t.date.month) || !DayMatches(s, t.date) || !Has(s.hour, t.hour) || !Has(s.minute, t.minute)
        ==> t.second == 0)
  }

  /** What holds whenever the search restarts at WRAP. */
  ghost predicate Searching(s: SpecSchedule, from: Civil, t: Civil, added: bool) {
    && t.Valid() && from.AtOrBefore(t) && NoneBetween(s, from, t)
    && (if added then Aligned(s, t) else t == from)
  }

  /** `c` is the least activation strictly after `t`. */
  ghost predicate Least(s: SpecSchedule, t: Instant, c: Civil) {
    && c.Valid() && Matches(s, c) && Later(t, c)
    && forall d: Civil :: d.Valid() && Matches(s, d) && Later(t, d) ==> c.AtOrBefore(d)
  }

  /** Some activation after `t` falls in a year up to `limit`. */
  ghost predicate ActiveBy(s: SpecSchedule, t: Instant, limit: int) {
    exists c: Civil :: c.Valid() && Matches(s, c) && Later(t, c) && c.date.year <= limit
  }

  function YearLimit(t: Instant): int
    requires t.Valid()
  {
    t.civil.AddSecond().date.year + 5
  }

  // The five loops of Next, one method each; `wrapped` says that the loop left by `goto WRAP`.

  /** Moves to the first matching month, which may be the present one. */
  method SeekMonth(s: SpecSchedule, ghost from: Civil, t: Civil, wasAdded: bool)
    returns (now: Civil, added: bool, wrapped: bool)
    requires t.Valid() && Searching(s, from, t, wasAdded)
    ensures now.Valid() && Searching(s, from, now, added) && t.AtOrBefore(now)
    ensures wrapped ==> t.Before(now)
    ensures !wrapped ==> now.date.year == t.date.year && Has(s.month, now.date.month)
  {
    hide Has, DayMatches, Searching, Civil.AddDate, Civil.AddHour, Civil.AddMinute, Civil.AddSecond;
    now, added, wrapped := t, wasAdded, false;
    while !Has(s.month, now.date.month)
      invariant now.Valid() && Searching(s, from, now, added) && t.AtOrBefore(now) && now.date.year == t.date.year
      decreases 12 - now.date.month
    {
      ghost var was, before := now, added;
      if !added {
        added := true;
        now := Civil(Date(now.date.year, now.date.month, 1), 0, 0, 0);
      }
      now := now.AddDate(0, 1, 0);
      SkipMonth(s, from, was, before, now);
      if now.date.month == 1 {
        wrapped := true;
        return;
      }
    }
  }

  /** Moves to the first matching day of the month found. */
  method SeekDay(s: SpecSchedule, ghost from: Civil, t: Civil, wasAdded: bool)
    returns (now: Civil, added: bool, wrapped: bool)
    requires t.Valid() && Searching(s, from, t, wasAdded)
    requires Has(s.month, t.date.month)
    ensures now.Valid() && Searching(s, from, now, added) && t.AtOrBefore(now)
    ensures wrapped ==> t.Before(now)
    ensures !wrapped ==> now.date.year == t.date.year && Has(s.month, now.date.month) && DayMatches(s, now.date)
  {
    hide Has, DayMatches, Searching, Civil.AddDate, Civil.AddHour, Civil.AddMinute, Civil.AddSecond;
    now, added, wrapped := t, wasAdded, false;
    while !DayMatches(s, now.date)
      invariant now.Valid() && Searching(s, from, now, added) && t.AtOrBefore(now)
      invariant now.date.year == t.date.year && Has(s.month, now.date.month)
      decreases 31 - now.date.day
    {
      ghost var was, before := now, added;
      if !added {
        added := true;
        now := Civil(now.date, 0, 0, 0);
      }
      now := now.AddDate(0, 0, 1);
      SkipDay(s, from, was, before, now);
      if now.date.day == 1 {
        wrapped := true;
        return;
      }
    }
  }

  /** Then an hour in that day. */
  method SeekHour(s: SpecSchedule, ghost from: Civil, t: Civil, wasAdded: bool)
    returns (now: Civil, added: bool, wrapped: bool)
    requires t.Valid() && Searching(s, from, t, wasAdded)
    requires Has(s.month, t.date.month)
    requires DayMatches(s, t.date)
    ensures now.Valid() && Searching(s, from, now, added) && t.AtOrBefore(now)
    ensures wrapped ==> t.Before(now)
    ensures !wrapped ==> now.date == t.date && Has(s.month, now.date.month)
    ensures !wrapped ==> DayMatches(s, now.date) && Has(s.hour, now.hour)
  {
    hide Has, DayMatches, Searching, Civil.AddDate, Civil.AddHour, Civil.AddMinute, Civil.AddSecond;
    now, added, wrapped := t, wasAdded, false;
    while !Has(s.hour, now.hour)
      invariant now.Valid() && Searching(s, from, now, added) && t.AtOrBefore(now)
      invariant now.date == t.date && Has(s.month, now.date.month) && DayMatches(s, now.date)
      decreases 23 - now.hour
    {
      ghost var was, before := now, added;
      if !added {
        added := true;
        now := Civil(now.date, now.hour, 0, 0);
      }
      now := now.AddHour();
      SkipHour(s, from, was, before, now);
      if now.hour == 0 {
        wrapped := true;
        return;
      }
    }
  }

  /** Then a minute in that hour. */
  method SeekMinute(s: SpecSchedule, ghost from: Civil, t: Civil, wasAdded: bool)
    returns (now: Civil, added: bool, wrapped: bool)
    requires t.Valid() && Searching(s, from, t, wasAdded)
    requires Has(s.month, t.date.month)
    requires DayMatches(s, t.date)
    requires Has(s.hour, t.hour)
    ensures now.Valid() && Searching(s, from, now, added) && t.AtOrBefore(now)
    ensures wrapped ==> t.Before(now)
    ensures !wrapped ==> now.date == t.date && Has(s.month, now.date.month)
    ensures !wrapped ==> DayMatches(s, now.date) && Has(s.hour, now.hour)
    ensures !wrapped ==> Has(s.minute, now.minute)
  {
    hide Has, DayMatches, Searching, Civil.AddDate, Civil.AddHour, Civil.AddMinute, Civil.AddSecond;
    now, added, wrapped := t, wasAdded, false;
    while !Has(s.minute, now.minute)
      invariant now.Valid() && Searching(s, from, now, added) && t.AtOrBefore(now)
      invariant now.date == t.date && Has(s.month, now.date.month) && DayMatches(s, now.date)
      invariant Has(s.hour, now.hour)
      decreases 59 - now.minute
    {
      ghost var was, before := now, added;
      if !added {
        added := true;
        now := now.(second := 0);
      }
      now := now.AddMinute();
      SkipMinute(s, from, was, before, now);
      if now.minute == 0 {
        wrapped := true;
        return;
      }
    }
  }

  /** Then a second in that minute. */
  method SeekSecond(s: SpecSchedule, ghost from: Civil, t: Civil, wasAdded: bool)
    returns (now: Civil, added: bool, wrapped: bool)
    requires t.Valid() && Searching(s, from, t, wasAdded)
    requires Has(s.month, t.date.month)
    requires DayMatches(s, t.date)
    requires Has(s.hour, t.hour)
    requires Has(s.minute, t.minute)
    ensures now.Valid() && Searching(s, from, now, added) && t.AtOrBefore(now)
    ensures wrapped ==> t.Before(now)
    ensures !wrapped ==> now.date == t.date && Has(s.month, now.date.month)
    ensures !wrapped ==> DayMatches(s, now.date) && Has(s.hour, now.hour)
    ensures !wrapped ==> Has(s.minute, now.minute) && Has(s.second, now.second)
  {
    hide Has, DayMatches, Searching, Civil.AddDate, Civil.AddHour, Civil.AddMinute, Civil.AddSecond;
    now, added, wrapped := t, wasAdded, false;
    while !Has(s.second, now.second)
      invariant now.Valid() && Searching(s, from, now, added) && t.AtOrBefore(now)
      invariant now.date == t.date && Has(s.month, now.date.month) && DayMatches(s, now.date)
      invariant Has(s.hour, now.hour) && Has(s.minute, now.minute)
      decreases 59 - now.second
    {
      ghost var was, before := now, added;
      if !added {
        added := true;  // truncating changes nothing: this is a whole second already
      }
      now := now.AddSecond();
      SkipSecond(s, from, was, before, now);
      if now.second == 0 {
        wrapped := true;
        return;
      }
    }
  }

  /** The least activation strictly after `t`; none exactly when there is none up to the end of
      the fifth year after the upcoming second. */
  method Next(s: SpecSchedule, t: Instant) returns (r: Option<Civil>)
    requires t.Valid()
    ensures r.Some? ==> Least(s, t, r.value)
    ensures r.Some? <==> ActiveBy(s, t, YearLimit(t))
  {
    hide Has, DayMatches, Searching, Least, ActiveBy, Civil.AddSecond;
    // Nothing before the upcoming second can be an answer.
    var now := t.civil.AddSecond();
    ghost var from := now;
    Start(s, t);
    var added := false;
    // The search ends with the fifth year after it.
    var yearLimit := now.date.year + 5;
    label WRAP:
    while true
      invariant now.Valid() && Searching(s, from, now, added)
      decreases yearLimit - now.date.year, 12 - now.date.month, 31 - now.date.day, 23 - now.hour, 59 - now.minute,
                59 - now.second
    {
      if now.date.year > yearLimit {
        Exhausted(s, t, now, added);
        return None;
      }
      var wrapped;
      now, added, wrapped := SeekMonth(s, from, now, added);
      if wrapped { continue WRAP; }
      now, added, wrapped := SeekDay(s, from, now, added);
      if wrapped { continue WRAP; }
      now, added, wrapped := SeekHour(s, from, now, added);
      if wrapped { continue WRAP; }
      now, added, wrapped := SeekMinute(s, from, now, added);
      if wrapped { continue WRAP; }
      now, added, wrapped := SeekSecond(s, from, now, added);
      if wrapped { continue WRAP; }
      Found(s, t, now, added);
      return Some(now);
    }
  }

  lemma Start(s: SpecSchedule, t: Instant)
    requires t.Valid()
    ensures Searching(s, t.civil.AddSecond(), t.civil.AddSecond(), false)
  {
    hide Has, DayMatches;
  }

  lemma Found(s: SpecSchedule, t: Instant, r: Civil, added: bool)
    requires t.Valid() && r.Valid() && Matches(s, r) && Searching(s, t.civil.AddSecond(), r, added)
    requires r.date.year <= YearLimit(t)
    ensures Least(s, t, r) && ActiveBy(s, t, YearLimit(t))
  {
    hide Has, DayMatches;
  }

  lemma Exhausted(s: SpecSchedule, t: Instant, r: Civil, added: bool)
    requires t.Valid() && r.Valid() && Searching(s, t.civil.AddSecond(), r, added)
    requires r.date.year > YearLimit(t)
    ensures !ActiveBy(s, t, YearLimit(t))
  {
    hide Has, DayMatches;
  }

  lemma SkipMonth(s: SpecSchedule, from: Civil, t: Civil, added: bool, u: Civil)
    requires t.Valid() && Searching(s, from, t, added)
    requires !Has(s.month, t.date.month)
    requires u == (if added then t else Civil(Date(t.date.year, t.date.month, 1), 0, 0, 0)).AddDate(0, 1, 0)
    ensures u.Valid() && Searching(s, from, u, true) && t.Before(u)
    ensures u.date.month == 1 || (u.date.month == t.date.month + 1 && u.date.year == t.date.year)
  {
    hide Has, DayMatches;
    AddDateMonth(Civil(Date(t.date.year, t.date.month, 1), 0, 0, 0));
  }

  lemma SkipDay(s: SpecSchedule, from: Civil, t: Civil, added: bool, u: Civil)
    requires t.Valid() && Searching(s, from, t, added)
    requires Has(s.month, t.date.month) && !DayMatches(s, t.date)
    requires u == (if added then t else Civil(t.date, 0, 0, 0)).AddDate(0, 0, 1)
    ensures u.Valid() && Searching(s, from, u, true) && t.Before(u)
    ensures u.date.day == 1 || u.date == t.date.(day := t.date.day + 1)
  {
    hide Has, DayMatches;
    AddDateDay(Civil(t.date, 0, 0, 0));
  }

  lemma SkipHour(s: SpecSchedule, from: Civil, t: Civil, added: bool, u: Civil)
    requires t.Valid() && Searching(s, from, t, added)
    requires Has(s.month, t.date.month) && DayMatches(s, t.date) && !Has(s.hour, t.hour)
    requires u == (if added then t else Civil(t.date, t.hour, 0, 0)).AddHour()
    ensures u.Valid() && Searching(s, from, u, true) && t.Before(u)
    ensures u.hour == 0 || (u.date == t.date && u.hour == t.hour + 1)
  {
    hide Has, DayMatches;
  }

  lemma SkipMinute(s: SpecSchedule, from: Civil, t: Civil, added: bool, u: Civil)
    requires t.Valid() && Searching(s, from, t, added)
    requires Has(s.month, t.date.month) && DayMatches(s, t.date) && Has(s.hour, t.hour) && !Has(s.minute, t.minute)
    requires u == (if added then t else t.(second := 0)).AddMinute()
    ensures u.Valid() && Searching(s, from, u, true) && t.Before(u)
    ensures u.minute == 0 || (u.date == t.date && u.hour == t.hour && u.minute == t.minute + 1)
  {
    hide Has, DayMatches;
  }

  lemma SkipSecond(s: SpecSchedule, from: Civil, t: Civil, added: bool, u: Civil)
    requires t.Valid() && Searching(s, from, t, added)
    requires Has(s.month, t.date.month) && DayMatches(s, t.date) && Has(s.hour, t.hour) && Has(s.minute, t.minute)
    requires !Has(s.second, t.second)
    requires u == t.AddSecond()
    ensures u.Valid() && Searching(s, from, u, true) && t.Before(u)
    ensures u.second == 0 || u == t.(second := t.second + 1)
  {
    hide Has, DayMatches;
  }
}
