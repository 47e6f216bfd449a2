/** memos/lib/scheduler/parser.go: the brute-force twin of the cron engine, which tries every
    minute (or second) for four years. */
module Scheduler {
  import opened Calendar
  import opened Text
  import CronSpec

  datatype Matcher =
    | Wildcard
    | Exact(value: int)
    | Span(start: int, end: int)
    | OneOf(values: seq<int>)
    | Step(step: int, min: int, max: int)
  {
    predicate Matches(v: int) {
      match this
      case Wildcard => true
      case Exact(value) => v == value
      case Span(start, end) => start <= v <= end
      case OneOf(values) => v in values
      case Step(step, min, max) => min <= v <= max && step > 0 && (v - min) % step == 0
    }
  }

  function Numbers(parts: seq<string>, min: int, max: int): Option<seq<int>> {
    if parts == [] then Some([])
    else
      var v := Atoi(TrimSpace(parts[0]));
      if v.None? || !(min <= v.value <= max) then None
      else
        var rest := Numbers(parts[1..], min, max);
        if rest.None? then None else Some([v.value] + rest.value)
  }

  /** `parseField`; None where it reports an error. */
  function ParseField(field: string, min: int, max: int): Option<Matcher> {
    if field == "*" then Some(Wildcard)
    else if "*/" <= field then
      var step := Atoi(field[2..]);
      if step.None? || step.value < 1 || step.value > max then None else Some(Step(step.value, min, max))
    else if ',' in field then
      var values := Numbers(Split(field, ','), min, max);
      if values.None? then None else Some(OneOf(values.value))
    else if '-' in field then
      var parts := Split(field, '-');
      if |parts| != 2 then None
      else
        var start, end := Atoi(TrimSpace(parts[0])), Atoi(TrimSpace(parts[1]));
        if start.None? || end.None? || start.value < min || end.value > max || start.value > end.value then None
        else Some(Span(start.value, end.value))
    else
      var v := Atoi(field);
      if v.None? || !(min <= v.value <= max) then None else Some(Exact(v.value))
  }

  datatype Schedule = Schedule(seconds: Matcher, minutes: Matcher, hours: Matcher, days: Matcher, months: Matcher,
                               weekdays: Matcher, hasSecs: bool)

  /** `Schedule.matches`: the day matches by date or by weekday. */
  predicate Matches(s: Schedule, c: Civil)
    requires c.Valid()
  {
    && s.seconds.Matches(c.second) && s.minutes.Matches(c.minute) && s.hours.Matches(c.hour)
    && s.months.Matches(c.date.month)
    && (s.days.Matches(c.date.day) || s.weekdays.Matches(Weekday(c.date)))
  }

  /** `ParseCronExpression` on the whitespace-separated fields of an expression. */
  function Parse(fields: seq<string>): Option<Schedule> {
    if |fields| != 5 && |fields| != 6 then None
    else
      var hasSecs := |fields| == 6;
      var offset := if hasSecs then 1 else 0;
      var seconds := if hasSecs then ParseField(fields[0], 0, 59) else Some(Exact(0));
      var minutes := ParseField(fields[offset], 0, 59);
      var hours := ParseField(fields[offset + 1], 0, 23);
      var days := ParseField(fields[offset + 2], 1, 31);
      var months := ParseField(fields[offset + 3], 1, 12);
      var weekdays := ParseField(fields[offset + 4], 0, 7);
      if seconds.None? || minutes.None? || hours.None? || days.None? || months.None? || weekdays.None? then None
      else Some(Schedule(seconds.value, minutes.value, hours.value, days.value, months.value, weekdays.value, hasSecs))
  }

  // ---------- what it accepts ----------

  /** What a field can say, within its bounds: a list has at least two numbers. */
  predicate Proper(m: Matcher, min: int, max: int) {
    match m
    case Wildcard => true
    case Exact(value) => min <= value <= max
    case Span(start, end) => min <= start <= end <= max
    case OneOf(values) => |values| >= 2 && forall v <- values :: min <= v <= max
    case Step(step, lo, hi) => 1 <= step <= max && lo == min && hi == max
  }

  function Printed(values: seq<int>): (parts: seq<string>)
    requires forall v <- values :: v >= 0
    ensures |parts| == |values|
    ensures forall p <- parts :: ',' !in p
  {
    if values == [] then []
    else
      assert values[0] in values && forall v <- values[1..] :: v in values;
      [Itoa(values[0])] + Printed(values[1..])
  }

  function Print(m: Matcher, min: nat, max: nat): string
    requires Proper(m, min, max)
  {
    match m
    case Wildcard => "*"
    case Exact(value) => Itoa(value)
    case Span(start, end) => Itoa(start) + ['-'] + Itoa(end)
    case OneOf(values) => Join(Printed(values), ',')
    case Step(step, _, _) => "*/" + Itoa(step)
  }

  lemma {:induction false} NumbersInRange(parts: seq<string>, min: int, max: int)
    requires Numbers(parts, min, max).Some?
    ensures |Numbers(parts, min, max).value| == |parts|
    ensures forall v <- Numbers(parts, min, max).value :: min <= v <= max
  {
    hide Atoi, TrimSpace;
    if parts != [] {
      NumbersInRange(parts[1..], min, max);
    }
  }

  lemma FieldIsProper(field: string, min: int, max: int)
    requires ParseField(field, min, max).Some?
    ensures Proper(ParseField(field, min, max).value, min, max)
  {
    hide Atoi, TrimSpace, Numbers;
    if ',' in field && !("*/" <= field) {
      SplitPieces(field, ',');
      NumbersInRange(Split(field, ','), min, max);
    }
  }

  lemma DigitsOnly(n: nat)
    ensures NoSpace(Itoa(n)) && ',' !in Itoa(n) && '-' !in Itoa(n)
    ensures Itoa(n) != "*" && !("*/" <= Itoa(n))
  {
    assert Itoa(n)[0] in Itoa(n);
  }

  lemma {:induction false} NumbersPrinted(values: seq<int>, min: nat, max: nat)
    requires max <= MAX_INT && forall v <- values :: min <= v <= max
    ensures Numbers(Printed(values), min, max) == Some(values)
  {
    if values != [] {
      var v := values[0];
      assert v in values && forall w <- values[1..] :: w in values;
      DigitsOnly(v);
      TrimNothing(Itoa(v));
      AtoiItoa(v);
      hide Itoa, Atoi, TrimSpace;
      NumbersPrinted(values[1..], min, max);
      assert Printed(values)[1..] == Printed(values[1..]);
      assert [v] + values[1..] == values;
    }
  }

  lemma ListPrinted(values: seq<int>, min: nat, max: nat)
    requires max <= MAX_INT && Proper(OneOf(values), min, max)
    ensures ParseField(Print(OneOf(values), min, max), min, max) == Some(OneOf(values))
  {
    var parts := Printed(values);
    var field := Join(parts, ',');
    SplitJoin(parts, ',');
    SplitPieces(field, ',');
    DigitsOnly(values[0]);
    assert parts[0] == Itoa(values[0]) && parts[0] <= field;
    assert parts[0][0] in parts[0];
    hide Join, Split, Itoa, Printed;
    NumbersPrinted(values, min, max);
  }

  lemma SpanPrinted(start: nat, end: nat, min: nat, max: nat)
    requires max <= MAX_INT && min <= start <= end <= max
    ensures ParseField(Itoa(start) + ['-'] + Itoa(end), min, max) == Some(Span(start, end))
  {
    DigitsOnly(start);
    DigitsOnly(end);
    TrimNothing(Itoa(start));
    TrimNothing(Itoa(end));
    AtoiItoa(start);
    AtoiItoa(end);
    var a, b := Itoa(start), Itoa(end);
    hide Itoa, Atoi, TrimSpace, Split;
    SplitCons(a, b, '-');
    SplitOne(b, '-');
    var field := a + ['-'] + b;
    assert a[0] in a && field[0] == a[0] && field[|a|] == '-';
  }

  /** Whatever a field can say is read back from its text. */
  lemma PrintParses(m: Matcher, min: nat, max: nat)
    requires max <= MAX_INT && Proper(m, min, max)
    ensures ParseField(Print(m, min, max), min, max) == Some(m)
  {
    match m
    case Wildcard =>
    case Exact(value) =>
      DigitsOnly(value);
      AtoiItoa(value);
      hide Itoa, Atoi;
    case Span(start, end) => SpanPrinted(start, end, min, max);
    case OneOf(values) => ListPrinted(values, min, max);
    case Step(step, _, _) =>
      AtoiItoa(step);
      assert ("*/" + Itoa(step))[2..] == Itoa(step);
      hide Itoa, Atoi;
  }

  /** Seconds may be left out and are 0 then; weekdays go up to 7. */
  predicate ProperSchedule(s: Schedule) {
    && (if s.hasSecs then Proper(s.seconds, 0, 59) else s.seconds == Exact(0))
    && Proper(s.minutes, 0, 59) && Proper(s.hours, 0, 23) && Proper(s.days, 1, 31) && Proper(s.months, 1, 12)
    && Proper(s.weekdays, 0, 7)
  }

  function PrintAll(s: Schedule): seq<string>
    requires ProperSchedule(s)
  {
    (if s.hasSecs then [Print(s.seconds, 0, 59)] else [])
    + [Print(s.minutes, 0, 59), Print(s.hours, 0, 23), Print(s.days, 1, 31), Print(s.months, 1, 12),
       Print(s.weekdays, 0, 7)]
  }

  /** Expressions say exactly the proper schedules, and a printed schedule is read back. */
  lemma ParseExactly(s: Schedule)
    ensures (exists fields :: Parse(fields) == Some(s)) <==> ProperSchedule(s)
    ensures ProperSchedule(s) ==> Parse(PrintAll(s)) == Some(s)
  {
    hide ParseField, Proper, Print;
    if exists fields :: Parse(fields) == Some(s) {
      var fields :| Parse(fields) == Some(s);
      ParsedIsProper(fields);
    }
    if ProperSchedule(s) {
      if s.hasSecs {
        PrintParses(s.seconds, 0, 59);
      }
      PrintParses(s.minutes, 0, 59);
      PrintParses(s.hours, 0, 23);
      PrintParses(s.days, 1, 31);
      PrintParses(s.months, 1, 12);
      PrintParses(s.weekdays, 0, 7);
      assert Parse(PrintAll(s)) == Some(s);
    }
  }

  lemma ParsedIsProper(fields: seq<string>)
    requires Parse(fields).Some?
    ensures ProperSchedule(Parse(fields).value)
  {
    hide ParseField, Proper;
    var o := |fields| - 5;
    if o == 1 {
      FieldIsProper(fields[0], 0, 59);
    }
    FieldIsProper(fields[o], 0, 59);
    FieldIsProper(fields[o + 1], 0, 23);
    FieldIsProper(fields[o + 2], 1, 31);
    FieldIsProper(fields[o + 3], 1, 12);
    FieldIsProper(fields[o + 4], 0, 7);
  }

  // ---------- the search ----------

  /** The first candidate after `t`: the next second, or the next minute. */
  function FirstCandidate(s: Schedule, t: CronSpec.Instant): (c: Civil)
    requires t.Valid()
    ensures c.Valid()
  {
    if s.hasSecs then t.civil.AddSecond() else t.civil.AddMinute().(second := 0)
  }

  /** Where the search gives up: four years after the first candidate. */
  function Deadline(s: Schedule, t: CronSpec.Instant): (c: Civil)
    requires t.Valid()
    ensures c.Valid()
  {
    FirstCandidate(s, t).AddDate(4, 0, 0)
  }

  /** No match strictly after `t` and before `c`. */
  ghost predicate NoneBefore(s: Schedule, t: CronSpec.Instant, c: Civil) {
    forall d: Civil :: d.Valid() && t.civil.Before(d) && d.Before(c) ==> !Matches(s, d)
  }

  /** What a parsed schedule satisfies: without a seconds field it matches on the minute only. */
  predicate WellFormed(s: Schedule) {
    !s.hasSecs ==> s.seconds == Exact(0)
  }

  /** The least matching time strictly after `t` if one comes before the deadline, else none. */
  method Next(s: Schedule, t: CronSpec.Instant) returns (r: Option<Civil>)
    requires t.Valid() && WellFormed(s)
    ensures r.Some? ==> r.value.Valid() && Matches(s, r.value) && t.civil.Before(r.value)
    ensures r.Some? ==> NoneBefore(s, t, r.value) && r.value.Before(Deadline(s, t))
    ensures r.None? ==> NoneBefore(s, t, Deadline(s, t))
  {
    hide Matches, NoneBefore, Civil.AddDate, Civil.AddMinute, Civil.AddSecond;
    // Candidates lie on seconds or on minutes, as the fields say.
    var from := FirstCandidate(s, t);
    // A schedule that never matches stops here.
    var maxTime := Deadline(s, t);
    SearchStart(s, t);
    while from.Before(maxTime)
      invariant from.Valid() && t.civil.Before(from) && NoneBefore(s, t, from)
      invariant !s.hasSecs ==> from.second == 0
      decreases Seconds(maxTime) - Seconds(from)
    {
      CivilOrder(from, maxTime);
      if Matches(s, from) {
        return Some(from);
      }
      // No candidate lies in between.
      SearchStep(s, t, from);
      from := if s.hasSecs then from.AddSecond() else from.AddMinute();
    }
    SearchEnd(s, t, from, maxTime);
    return None;
  }

  lemma SearchStart(s: Schedule, t: CronSpec.Instant)
    requires t.Valid() && WellFormed(s)
    ensures t.civil.Before(FirstCandidate(s, t)) && NoneBefore(s, t, FirstCandidate(s, t))
    ensures !s.hasSecs ==> FirstCandidate(s, t).second == 0
  {
    hide Weekday;
  }

  lemma SearchStep(s: Schedule, t: CronSpec.Instant, c: Civil)
    requires c.Valid() && WellFormed(s) && t.civil.Before(c) && NoneBefore(s, t, c) && !Matches(s, c)
    requires !s.hasSecs ==> c.second == 0
    ensures var d := if s.hasSecs then c.AddSecond() else c.AddMinute();
            && t.civil.Before(d) && NoneBefore(s, t, d)
            && (!s.hasSecs ==> d.second == 0)
            && Seconds(c) < Seconds(d)
  {
    hide Weekday, Seconds;
    AddSecondSeconds(c);
    AddMinuteSeconds(c);
  }

  lemma SearchEnd(s: Schedule, t: CronSpec.Instant, c: Civil, maxTime: Civil)
    requires NoneBefore(s, t, c) && c.Valid() && maxTime.Valid() && !c.Before(maxTime)
    ensures NoneBefore(s, t, maxTime)
  {
    hide Matches;
    assert maxTime == c || maxTime.Before(c);
  }

  /** `listMatcher.matches`: a linear scan that finds membership. */
  method ListMatches(values: seq<int>, value: int) returns (found: bool)
    ensures found <==> OneOf(values).Matches(value)
  {
    for i := 0 to |values|
      invariant value !in values[..i]
    {
      if values[i] == value {
        return true;
      }
    }
    return false;
  }
}
