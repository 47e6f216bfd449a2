/** The skipping `Next` of memos/lib/cron computes what the minute-by-minute scheduler of memos/lib/scheduler
    computes. */
module CronRefinement {
  import opened Calendar
  import opened Text
  import opened Bits
  import opened CronField
  import opened CronSpec
  import opened CronParser
  import Scheduler

  /** The two engines read a field alike. */
  ghost predicate Agree(m: Scheduler.Matcher, field: string, r: Bounds) {
    forall v :: r.min <= v <= r.max ==> (m.Matches(v) <==> Denotes(field, r, v))
  }

  /** A leading minus sign reads as a hyphen between an empty number and another one. */
  lemma MinusRejected(s: string, r: Bounds)
    requires ValidBounds(r) && Atoi(s).Some? && '-' in s
    ensures PieceOf(s, r).Err?
  {
    hide ToLower;
    AtoiShape(s);
    SplitOne(s, '/');
    SplitCons("", s[1..], '-');
    assert "" + ['-'] + s[1..] == s;
    NotAName("", r);
  }

  /** A plain number is one value to the cron parser as well. */
  lemma NumberPiece(s: string, r: Bounds)
    requires ValidBounds(r) && Atoi(s).Some? && PieceOf(s, r).Ok?
    ensures PieceOf(s, r).value == Piece(Atoi(s).value, Atoi(s).value, 1, false)
  {
    if '-' in s {
      MinusRejected(s, r);
    } else {
      hide ToLower, Atoi;
      AtoiShape(s);
      NotAName(s, r);
      SplitOne(s, '/');
      SplitOne(s, '-');
    }
  }

  lemma NotAName(s: string, r: Bounds)
    requires ValidBounds(r) && (s == "" || IsDigit(s[0]) || s[0] == '-' || s[0] == '+')
    ensures ToLower(s) !in r.names
  {
    var t := ToLower(s);
    assert !IsName(t) by {
      if s != "" {
        assert t[0] == s[0] && t[0] in t;
      }
    }
  }

  lemma {:induction false} ListPieces(parts: seq<string>, r: Bounds, max: int)
    requires ValidBounds(r) && r.max <= max && forall p <- parts :: NoSpace(p)
    requires Scheduler.Numbers(parts, r.min, max).Some? && forall p <- NonEmpty(parts) :: PieceOf(p, r).Ok?
    ensures NonEmpty(parts) == parts
    ensures forall v :: v in Scheduler.Numbers(parts, r.min, max).value <==>
                        exists p <- parts :: PieceOf(p, r).value.Denotes(v)
  {
    hide PieceOf, Atoi;
    if parts != [] {
      assert parts[0] in parts;
      TrimNothing(parts[0]);
      AtoiShape(parts[0]);
      assert NonEmpty(parts) == [parts[0]] + NonEmpty(parts[1..]);
      ListPieces(parts[1..], r, max);
      assert parts == [parts[0]] + parts[1..];
      NumberPiece(parts[0], r);
    }
  }

  lemma AgreeOnList(field: string, r: Bounds, max: int)
    requires ValidBounds(r) && r.max <= max && NoSpace(field) && ',' in field
    requires Scheduler.Numbers(Split(field, ','), r.min, max).Some? && Accepted(field, r)
    ensures Agree(Scheduler.OneOf(Scheduler.Numbers(Split(field, ','), r.min, max).value), field, r)
    ensures !Starred(field, r)
  {
    hide PieceOf;
    var parts := Split(field, ',');
    PiecesHaveNoSpace(field, ',');
    ListPieces(parts, r, max);
    forall p | p in parts
      ensures !PieceOf(p, r).value.star
    {
      ListPieceIsNumber(parts, p, r, max);
      NumberPiece(p, r);
    }
  }

  lemma {:induction false} ListPieceIsNumber(parts: seq<string>, p: string, r: Bounds, max: int)
    requires Scheduler.Numbers(parts, r.min, max).Some? && p in parts && forall q <- parts :: NoSpace(q)
    ensures Atoi(p).Some?
  {
    if p == parts[0] {
      TrimNothing(p);
    } else {
      ListPieceIsNumber(parts[1..], p, r, max);
    }
  }

  lemma {:induction false} PiecesHaveNoSpace(s: string, c: char)
    requires NoSpace(s)
    ensures forall p <- Split(s, c) :: NoSpace(p)
  {
    if s != "" {
      PiecesHaveNoSpace(s[1..], c);
      assert s[0] in s && forall x <- s[1..] :: x in s;
      assert Split(s[1..], c)[0] in Split(s[1..], c);
    }
  }

  lemma AgreeOnStep(field: string, r: Bounds, step: int)
    requires ValidBounds(r) && "*/" <= field && Atoi(field[2..]) == Some(step) && step >= 1 && Accepted(field, r)
    ensures forall max :: r.max <= max ==> Agree(Scheduler.Step(step, r.min, max), field, r)
    ensures Starred(field, r) ==> step == 1
  {
    hide Atoi;
    AtoiShape(field[2..]);
    assert field == "*" + ['/'] + field[2..];
    SinglePiece(field, r);
    SplitCons("*", field[2..], '/');
    SplitOne(field[2..], '/');
    SplitOne("*", '-');
    assert PieceOf(field, r).value == Piece(r.min, r.max, step, step == 1);
  }

  lemma AgreeOnSpan(field: string, r: Bounds, start: int, end: int)
    requires ValidBounds(r) && ',' !in field && '-' in field && Accepted(field, r)
    requires var parts := Split(field, '-');
             |parts| == 2 && Atoi(parts[0]) == Some(start) && Atoi(parts[1]) == Some(end)
    ensures Agree(Scheduler.Span(start, end), field, r)
    ensures !Starred(field, r)
  {
    hide Atoi, ToLower, Split, Denotes, Starred, Accepted;
    var parts := Split(field, '-');
    AtoiShape(parts[0]);
    AtoiShape(parts[1]);
    NotAName(parts[0], r);
    NotAName(parts[1], r);
    JoinSplit(field, '-');
    assert field == parts[0] + ['-'] + parts[1];
    SplitOne(field, '/');
    SinglePiece(field, r);
    assert PieceOf(field, r) == PieceFrom([field], parts, r);
  }

  lemma AgreeOnNumber(field: string, r: Bounds, v: int)
    requires ValidBounds(r) && ',' !in field && Atoi(field) == Some(v) && Accepted(field, r)
    ensures Agree(Scheduler.Exact(v), field, r)
    ensures !Starred(field, r)
  {
    hide Atoi;
    AtoiShape(field);
    SinglePiece(field, r);
    NumberPiece(field, r);
  }

  lemma AgreeOnStar(r: Bounds)
    requires ValidBounds(r)
    ensures Agree(Scheduler.Wildcard, "*", r) && Starred("*", r)
  {
    SinglePiece("*", r);
    SplitOne("*", '/');
    SplitOne("*", '-');
    assert PieceOf("*", r) == Ok(Piece(r.min, r.max, 1, true));
  }

  /** Whenever both parsers accept a field, they read the same values into it; and the cron
      parser's star bit then means that every value matches. */
  lemma FieldsAgree(field: string, r: Bounds, max: int)
    requires ValidBounds(r) && r.max <= max && NoSpace(field)
    requires Scheduler.ParseField(field, r.min, max).Some? && Accepted(field, r)
    ensures Agree(Scheduler.ParseField(field, r.min, max).value, field, r)
    ensures Starred(field, r) ==> AllMatch(Scheduler.ParseField(field, r.min, max).value, r)
  {
    hide Atoi, Accepted, Denotes, Starred, Split, ValidBounds;
    if field == "*" {
      AgreeOnStar(r);
    } else if "*/" <= field {
      AgreeOnStep(field, r, Atoi(field[2..]).value);
    } else if ',' in field {
      AgreeOnList(field, r, max);
    } else if '-' in field {
      PiecesHaveNoSpace(field, '-');
      var parts := Split(field, '-');
      assert parts[0] in parts && parts[1] in parts;
      TrimNothing(parts[0]);
      TrimNothing(parts[1]);
      AgreeOnSpan(field, r, Atoi(parts[0]).value, Atoi(parts[1]).value);
    } else {
      AgreeOnNumber(field, r, Atoi(field).value);
    }
  }

  predicate AllMatch(m: Scheduler.Matcher, r: Bounds) {
    forall v :: r.min <= v <= r.max ==> m.Matches(v)
  }

  // ---------- days ----------

  /** The two day rules coincide on every date. */
  ghost predicate DaysAgree(spec: SpecSchedule, sched: Scheduler.Schedule) {
    forall d: Date :: d.Valid() ==>
      (DayMatches(spec, d) <==> sched.days.Matches(d.day) || sched.weekdays.Matches(Weekday(d)))
  }

  /** Neither day field is a wildcard, or both match everything. */
  ghost predicate DayFieldsFit(fields: seq<string>, sched: Scheduler.Schedule)
    requires |fields| == 5
  {
    || (!Starred(fields[2], DOM) && !Starred(fields[4], DOW))
    || (AllMatch(sched.days, DOM) && AllMatch(sched.weekdays, DOW))
  }

  /** Both engines accept the same five fields. */
  ghost predicate BothParse(fields: seq<string>, spec: SpecSchedule, sched: Scheduler.Schedule) {
    && AcceptedFive(fields) && Stores(spec, fields)
    && Scheduler.Parse(fields) == Some(sched)
    && forall f <- fields :: NoSpace(f)
  }

  lemma ParsedFieldsAgree(fields: seq<string>, spec: SpecSchedule, sched: Scheduler.Schedule)
    requires BothParse(fields, spec, sched)
    ensures Agree(sched.minutes, fields[0], MINUTES) && Agree(sched.hours, fields[1], HOURS)
    ensures Agree(sched.days, fields[2], DOM) && Agree(sched.months, fields[3], MONTHS)
    ensures Agree(sched.weekdays, fields[4], DOW)
    ensures Starred(fields[2], DOM) ==> AllMatch(sched.days, DOM)
    ensures Starred(fields[4], DOW) ==> AllMatch(sched.weekdays, DOW)
  {
    hide Agree, AllMatch, Scheduler.ParseField, Accepted, Starred, FieldBits, ValidBounds;
    TablesAreValid();
    FieldsAgree(fields[0], MINUTES, 59);
    FieldsAgree(fields[1], HOURS, 23);
    FieldsAgree(fields[2], DOM, 31);
    FieldsAgree(fields[3], MONTHS, 12);
    FieldsAgree(fields[4], DOW, 7);
  }

  /** The stored day sets are the scheduler's day matchers. */
  lemma DayBits(fields: seq<string>, spec: SpecSchedule, sched: Scheduler.Schedule)
    requires BothParse(fields, spec, sched)
    ensures |fields| == 5
    ensures forall v :: 1 <= v <= 31 ==> (Has(spec.dom, v) <==> sched.days.Matches(v))
    ensures forall v :: 0 <= v <= 6 ==> (Has(spec.dow, v) <==> sched.weekdays.Matches(v))
    ensures Has(spec.dom, STAR) <==> Starred(fields[2], DOM)
    ensures Has(spec.dow, STAR) <==> Starred(fields[4], DOW)
    ensures Has(spec.dom, STAR) ==> AllMatch(sched.days, DOM)
    ensures Has(spec.dow, STAR) ==> AllMatch(sched.weekdays, DOW)
  {
    hide Scheduler.Parse, Starred, Denotes, AcceptedFive, Has, NoSpace;
    ParsedFieldsAgree(fields, spec, sched);
  }

  /** The day rules differ exactly when one day field is a wildcard and the other leaves some days out. */
  lemma DayRules(fields: seq<string>, spec: SpecSchedule, sched: Scheduler.Schedule)
    requires BothParse(fields, spec, sched)
    ensures DaysAgree(spec, sched) <==> DayFieldsFit(fields, sched)
  {
    hide BothParse, Starred, Has, Weekday, Scheduler.Matcher.Matches;
    DayBits(fields, spec, sched);
    if !DayFieldsFit(fields, sched) {
      if Starred(fields[2], DOM) && !AllMatch(sched.weekdays, DOW) {
        var w :| 0 <= w <= 6 && !sched.weekdays.Matches(w);
        var d := DateWithWeekday(w);
        assert !DayMatches(spec, d) && sched.days.Matches(d.day);
      } else {
        var v :| 1 <= v <= 31 && !sched.days.Matches(v);
        var d := Date(1, 1, v);
        assert !DayMatches(spec, d) && sched.weekdays.Matches(Weekday(d));
      }
    }
  }

  /** What the brute-force scheduler makes of `0 0 1 * *`. */
  const DAILY_AFTER_ALL := Scheduler.Schedule(Scheduler.Exact(0), Scheduler.Exact(0), Scheduler.Exact(0),
                                              Scheduler.Exact(1), Scheduler.Wildcard, Scheduler.Wildcard, false)

  lemma MonthlyParses()
    ensures Scheduler.Parse(FieldsOf(Monthly)) == Some(DAILY_AFTER_ALL)
  {
    assert Atoi("0") == Some(0) && Atoi("1") == Some(1);
    hide Atoi;
    assert !("*/" <= "*") && !("*/" <= "0") && !("*/" <= "1");
  }

  lemma MonthlyFields()
    ensures FieldsOf(Monthly) == ["0", "0", "1", "*", "*"] && forall f <- FieldsOf(Monthly) :: NoSpace(f)
  {
  }

  /** The monthly expression `0 0 1 * *`: the one engine activates on the first of the month, the other every day. */
  lemma MonthlyExample()
    ensures BothParse(FieldsOf(Monthly), ScheduleOf(Monthly), DAILY_AFTER_ALL)
    ensures !DayFieldsFit(FieldsOf(Monthly), DAILY_AFTER_ALL) && !DaysAgree(ScheduleOf(Monthly), DAILY_AFTER_ALL)
    ensures forall c: Civil ::
              c.Valid() && c.hour == c.minute == c.second == 0 ==> Scheduler.Matches(DAILY_AFTER_ALL, c)
  {
    hide Accepted, FieldBits, Starred, Denotes, AcceptedFive, Stores, Scheduler.Parse, ValidBounds, Weekday, ScheduleOf,
      FieldsOf, NoSpace, DaysAgree;
    MonthlyFields();
    PredefinedIsExpression(Monthly);
    MonthlyParses();
    assert BothParse(FieldsOf(Monthly), ScheduleOf(Monthly), DAILY_AFTER_ALL);
    TablesAreValid();
    AgreeOnStar(DOW);
    assert !DAILY_AFTER_ALL.days.Matches(2);
    assert !DayFieldsFit(FieldsOf(Monthly), DAILY_AFTER_ALL);
    hide BothParse, DayFieldsFit;
    DayRules(FieldsOf(Monthly), ScheduleOf(Monthly), DAILY_AFTER_ALL);
  }

  /** Every weekday occurs: 0001-01-01 was a Monday, so day number w + 6 falls on weekday w. */
  lemma DateWithWeekday(w: int) returns (d: Date)
    requires 0 <= w <= 6
    ensures d.Valid() && Weekday(d) == w
  {
    hide DayNumber;
    d := DateOf(w + 6);
  }

  /** On five fields both parsers accept, the engines activate at the same times. */
  lemma MatchesAgree(fields: seq<string>, spec: SpecSchedule, sched: Scheduler.Schedule, c: Civil)
    requires BothParse(fields, spec, sched) && DayFieldsFit(fields, sched) && c.Valid()
    ensures Matches(spec, c) <==> Scheduler.Matches(sched, c)
  {
    hide Starred, Denotes, AcceptedFive, Has, NoSpace, Weekday, DayMatches, Scheduler.ParseField;
    ParsedFieldsAgree(fields, spec, sched);
    DayRules(fields, spec, sched);
    ZeroAccepted();
    assert Has(spec.second, c.second) <==> sched.seconds.Matches(c.second);
    assert Has(spec.minute, c.minute) <==> sched.minutes.Matches(c.minute);
    assert Has(spec.hour, c.hour) <==> sched.hours.Matches(c.hour);
    assert Has(spec.month, c.date.month) <==> sched.months.Matches(c.date.month);
  }

  lemma FourYearsOn(d: Date)
    requires d.Valid()
    ensures Normalize(d.year + 4, d.month, d.day).year == d.year + 4
  {
    hide IsLeap;
    if d.day <= DaysIn(d.year + 4, d.month) {
      AddDaysWithinMonth(d.year + 4, d.month, d.day - 1);
    } else {
      // 29 February becomes 1 March.
      assert d == Date(d.year, 2, 29) && DaysIn(d.year + 4, 2) == 28;
      AddDaysWithinMonth(d.year + 4, 2, 27);
    }
  }

  lemma DeadlineYear(sched: Scheduler.Schedule, t: Instant)
    requires t.Valid()
    ensures Scheduler.Deadline(sched, t).date.year <= YearLimit(t)
  {
    hide Normalize;
    var first := Scheduler.FirstCandidate(sched, t);
    assert first.date.year <= t.civil.AddSecond().date.year + 1;
    FourYearsOn(first.date);
  }

  /** The fast engine refines the slow one: an activation the brute-force search finds is the one
      the skipping search finds, and when the brute-force search gives up, the skipping search
      finds nothing before the deadline either. */
  method NextBoth(fields: seq<string>, spec: SpecSchedule, sched: Scheduler.Schedule, t: Instant)
    returns (fast: Option<Civil>, slow: Option<Civil>)
    requires BothParse(fields, spec, sched) && DayFieldsFit(fields, sched) && t.Valid()
    ensures slow.Some? ==> fast == slow
    ensures slow.None? && fast.Some? ==> !fast.value.Before(Scheduler.Deadline(sched, t))
  {
    fast := Next(spec, t);
    slow := Scheduler.Next(sched, t);
    Refines(fields, spec, sched, t, fast, slow);
  }

  lemma Refines(fields: seq<string>, spec: SpecSchedule, sched: Scheduler.Schedule, t: Instant,
                fast: Option<Civil>, slow: Option<Civil>)
    requires BothParse(fields, spec, sched) && DayFieldsFit(fields, sched) && t.Valid()
    requires fast.Some? ==> Least(spec, t, fast.value)
    requires fast.Some? <==> ActiveBy(spec, t, YearLimit(t))
    requires slow.Some? ==> slow.value.Valid() && Scheduler.Matches(sched, slow.value) && t.civil.Before(slow.value)
    requires slow.Some? ==> Scheduler.NoneBefore(sched, t, slow.value)
    requires slow.Some? ==> slow.value.Before(Scheduler.Deadline(sched, t))
    requires slow.None? ==> Scheduler.NoneBefore(sched, t, Scheduler.Deadline(sched, t))
    ensures slow.Some? ==> fast == slow
    ensures slow.None? && fast.Some? ==> !fast.value.Before(Scheduler.Deadline(sched, t))
  {
    hide BothParse, DayFieldsFit, Matches, Scheduler.Matches, Scheduler.Deadline, YearLimit;
    DeadlineYear(sched, t);
    if slow.Some? {
      MatchesAgree(fields, spec, sched, slow.value);
      assert Later(t, slow.value);
    }
    if fast.Some? {
      MatchesAgree(fields, spec, sched, fast.value);
    }
  }
}
