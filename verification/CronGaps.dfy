/** memos/lib/cron/spec.go, the year limit: which schedules Next gives up on although they activate again. */
module CronGaps {
  import opened Calendar
  import opened Text
  import opened Bits
  import opened CronField
  import opened CronSpec
  import opened CronParser

  ghost predicate NoneLater(s: SpecSchedule, t: Instant) {
    forall c: Civil :: c.Valid() && Matches(s, c) ==> !Later(t, c)
  }

  /** Next, asked at `t`, does not give up early: it finds an activation, or there is none left. */
  ghost predicate NoGap(s: SpecSchedule, t: Instant)
    requires t.Valid()
  {
    ActiveBy(s, t, YearLimit(t)) || NoneLater(s, t)
  }

  ghost predicate NeverGivesUp(s: SpecSchedule) {
    forall t: Instant :: t.Valid() ==> NoGap(s, t)
  }

  /** A starred day field lets every day pass, as in every parsed schedule. */
  predicate StarsAreFull(s: SpecSchedule) {
    && (Has(s.dom, STAR) ==> forall v: nat :: 1 <= v <= 31 ==> Has(s.dom, v))
    && (Has(s.dow, STAR) ==> forall v: nat :: v <= 6 ==> Has(s.dow, v))
  }

  predicate TimeOfDay(s: SpecSchedule, hour: nat, minute: nat, second: nat) {
    hour <= 23 && minute <= 59 && second <= 59 && Has(s.hour, hour) && Has(s.minute, minute) && Has(s.second, second)
  }

  predicate SomeTime(s: SpecSchedule) {
    exists hour: nat, minute: nat, second: nat | hour <= 23 && minute <= 59 && second <= 59 ::
      TimeOfDay(s, hour, minute, second)
  }

  predicate SomeWeekday(s: SpecSchedule) {
    exists w: nat | w <= 6 :: Has(s.dow, w)
  }

  /** The weekday field decides nothing: it is a wildcard, or empty next to a day-of-month field that is none. */
  predicate ByDate(s: SpecSchedule) {
    Has(s.dow, STAR) || (!Has(s.dom, STAR) && !SomeWeekday(s))
  }

  /** Month and day are in the schedule, and the day exists in common years. */
  predicate EveryYear(s: SpecSchedule, m: nat, d: nat) {
    1 <= m <= 12 && 1 <= d <= 31 && d <= DaysIn(1, m) && Has(s.month, m) && Has(s.dom, d)
  }

  /** Of all dates only 29 February is in the schedule. */
  predicate LeapDayOnly(s: SpecSchedule) {
    && SomeTime(s) && ByDate(s) && Has(s.month, 2) && Has(s.dom, 29)
    && forall m: nat, d: nat | m <= 12 && d <= 31 :: !EveryYear(s, m, d)
  }

  lemma NextYear(s: SpecSchedule, t: Instant, d: Date, hour: nat, minute: nat, second: nat)
    requires t.Valid() && d.Valid() && d.year == t.civil.AddSecond().date.year + 1
    requires TimeOfDay(s, hour, minute, second) && Has(s.month, d.month) && DayMatches(s, d)
    ensures ActiveBy(s, t, YearLimit(t))
  {
    hide Has, DayMatches;
    var c := Civil(d, hour, minute, second);
    assert t.civil.date.year < d.year;
    assert Matches(s, c) && Later(t, c);
  }

  /** A day common years have comes round within the limit. */
  lemma CommonDay(s: SpecSchedule, t: Instant, m: nat, d: nat)
    requires t.Valid() && StarsAreFull(s) && SomeTime(s) && ByDate(s) && EveryYear(s, m, d)
    ensures ActiveBy(s, t, YearLimit(t))
  {
    hide Has, Civil.AddSecond, ActiveBy, Weekday;
    var hour: nat, minute: nat, second: nat :| hour <= 23 && minute <= 59 && second <= 59
      && TimeOfDay(s, hour, minute, second);
    NextYear(s, t, Date(t.civil.AddSecond().date.year + 1, m, d), hour, minute, second);
  }

  /** Every month has every weekday. */
  lemma WeekdayInMonth(y: int, m: nat, w: nat) returns (d: Date)
    requires 1 <= m <= 12 && w <= 6
    ensures d.Valid() && d.year == y && d.month == m && Weekday(d) == w
  {
    var first := DayNumber(Date(y, m, 1));
    var k := (w - first - 1) % 7;
    d := Date(y, m, 1 + k);
    assert DayNumber(d) == first + k;
    hide DayNumber;
    WeekRound(first, w);
  }

  lemma WeekRound(first: int, w: int)
    requires 0 <= w <= 6
    ensures (first + (w - first - 1) % 7 + 1) % 7 == w
  {
    var q := (w - first - 1) / 7;
    assert first + (w - first - 1) % 7 + 1 == w - 7 * q;
  }

  /** A weekday comes round in every month of the schedule. */
  lemma Weekly(s: SpecSchedule, t: Instant, m: nat)
    requires t.Valid() && StarsAreFull(s) && SomeTime(s) && !Has(s.dow, STAR) && SomeWeekday(s)
    requires 1 <= m <= 12 && Has(s.month, m)
    ensures ActiveBy(s, t, YearLimit(t))
  {
    hide Has, Civil.AddSecond, ActiveBy, Weekday;
    var hour: nat, minute: nat, second: nat :| hour <= 23 && minute <= 59 && second <= 59
      && TimeOfDay(s, hour, minute, second);
    var w: nat :| w <= 6 && Has(s.dow, w);
    var d := WeekdayInMonth(t.civil.AddSecond().date.year + 1, m, w);
    NextYear(s, t, d, hour, minute, second);
  }

  /** What matches at all has a time of day, a month and a day; without a date common years have, it is a leap day. */
  lemma MatchingDate(s: SpecSchedule, c: Civil)
    requires c.Valid() && Matches(s, c)
    ensures SomeTime(s) && Has(s.month, c.date.month)
    ensures ByDate(s) ==> Has(s.dom, c.date.day)
    ensures ByDate(s) && !EveryYear(s, c.date.month, c.date.day) ==> c.date.month == 2 && c.date.day == 29
    ensures !ByDate(s) ==> !Has(s.dow, STAR) && SomeWeekday(s)
  {
    hide Has;
    assert TimeOfDay(s, c.hour, c.minute, c.second);
    var w := Weekday(c.date);
    assert Has(s.dow, w) ==> SomeWeekday(s);
    hide Weekday;
  }

  /** Outside leap days, what activates at all activates within the limit. */
  lemma FoundInTime(s: SpecSchedule, t: Instant, c: Civil)
    requires t.Valid() && StarsAreFull(s) && !LeapDayOnly(s) && c.Valid() && Matches(s, c)
    ensures ActiveBy(s, t, YearLimit(t))
  {
    MatchingDate(s, c);
    hide Has, ActiveBy, Matches, Civil.AddSecond, StarsAreFull, SomeTime, SomeWeekday, TimeOfDay;
    if !ByDate(s) {
      Weekly(s, t, c.date.month);
    } else if EveryYear(s, c.date.month, c.date.day) {
      CommonDay(s, t, c.date.month, c.date.day);
    } else {
      var m: nat, d: nat :| m <= 12 && d <= 31 && EveryYear(s, m, d);
      CommonDay(s, t, m, d);
    }
  }

  /** In 2096 the next leap day is eight years off: 2100 is a common year. */
  lemma LeapDayGap(s: SpecSchedule, hour: nat, minute: nat, second: nat)
    requires StarsAreFull(s) && LeapDayOnly(s) && TimeOfDay(s, hour, minute, second)
    ensures var t := Instant(Civil(Date(2096, 2, 29), 23, 59, 59), 0);
            && t.Valid() && !ActiveBy(s, t, YearLimit(t))
            && Matches(s, Civil(Date(2104, 2, 29), hour, minute, second))
  {
    hide Has;
    var t := Instant(Civil(Date(2096, 2, 29), 23, 59, 59), 0);
    assert t.civil.AddSecond() == Civil(Date(2096, 3, 1), 0, 0, 0);
    assert YearLimit(t) == 2101;
    forall c: Civil | c.Valid() && Matches(s, c) && Later(t, c) ensures c.date.year > 2101 {
      MatchingDate(s, c);
      hide LeapDayOnly, Matches;
      assert c.date.month == 2 && c.date.day == 29 && IsLeap(c.date.year);
    }
    hide Weekday;
  }

  /** Next never gives up early exactly on schedules other than those of 29 February alone. */
  lemma GivesUpExactly(s: SpecSchedule)
    requires StarsAreFull(s)
    ensures NeverGivesUp(s) <==> !LeapDayOnly(s)
  {
    hide Has, ActiveBy, Matches, Civil.AddSecond;
    if LeapDayOnly(s) {
      var hour: nat, minute: nat, second: nat :| hour <= 23 && minute <= 59 && second <= 59
        && TimeOfDay(s, hour, minute, second);
      LeapDayGap(s, hour, minute, second);
      var t, c := Instant(Civil(Date(2096, 2, 29), 23, 59, 59), 0), Civil(Date(2104, 2, 29), hour, minute, second);
      assert Later(t, c);
      assert !NoGap(s, t);
    } else {
      forall t: Instant | t.Valid() ensures NoGap(s, t) {
        if !NoneLater(s, t) {
          var c: Civil :| c.Valid() && Matches(s, c) && Later(t, c);
          FoundInTime(s, t, c);
        }
      }
    }
  }

  /** Whatever is parsed has full stars. */
  lemma ParsedIsFull(s: SpecSchedule, all: seq<string>)
    requires StoresSix(s, all) && AcceptedSix(all)
    ensures StarsAreFull(s)
  {
    TablesAreValid();
    AcceptedField(all[3], DOM);
    AcceptedField(all[5], DOW);
    hide Accepted, Denotes, Starred, Has, ValidBounds;
  }

  /** Midnight of 29 February, and nothing else. */
  predicate LeapMidnights(s: SpecSchedule) {
    && TimeOfDay(s, 0, 0, 0) && Has(s.month, 2) && Has(s.dom, 29) && !Has(s.dom, STAR) && Has(s.dow, STAR)
    && (forall v: nat | v <= 59 :: v > 0 ==> !Has(s.second, v) && !Has(s.minute, v))
    && (forall v: nat | v <= 23 :: v > 0 ==> !Has(s.hour, v))
    && (forall v: nat | v <= 31 :: v != 29 ==> !Has(s.dom, v))
    && (forall v: nat | v <= 12 :: v != 2 ==> !Has(s.month, v))
    && (forall v: nat | v <= 6 :: Has(s.dow, v))
  }

  /** It is what the expression `0 0 29 2 *` stores. */
  lemma LeapDayExpression(s: SpecSchedule)
    requires Stores(s, ["0", "0", "29", "2", "*"])
    ensures LeapMidnights(s)
  {
    hide Itoa, Accepted, Denotes, Starred, Has, ValidBounds, FieldBits;
    LeapDayDigits();
    TablesAreValid();
    OneValue(s.second, 0, "0", SECONDS);
    OneValue(s.minute, 0, "0", MINUTES);
    OneValue(s.hour, 0, "0", HOURS);
    OneValue(s.dom, 29, "29", DOM);
    OneValue(s.month, 2, "2", MONTHS);
    AllValues(s.dow, DOW);
  }

  lemma LeapDayDigits()
    ensures Itoa(0) == "0" && Itoa(2) == "2" && Itoa(29) == "29"
  {
    assert Itoa(29) == Itoa(2) + "9";
  }

  lemma OneValue(bits: bv64, n: nat, field: string, r: Bounds)
    requires ValidBounds(r) && r.min <= n <= r.max && field == Itoa(n) && FieldBits(bits, field, r)
    ensures !Has(bits, STAR) && forall v: nat :: v < 63 ==> (Has(bits, v) <==> v == n)
  {
    hide Itoa, Accepted, Denotes, Starred, Has;
    NumberField(n, field, r);
  }

  lemma AllValues(bits: bv64, r: Bounds)
    requires ValidBounds(r) && FieldBits(bits, "*", r)
    ensures Has(bits, STAR) && forall v: nat :: r.min <= v <= r.max ==> Has(bits, v)
  {
    hide Accepted, Denotes, Starred, Has;
    StarField(r);
    AcceptedField("*", r);
  }

  function LeapDay(y: int): (c: Civil)
    requires IsLeap(y)
    ensures c.Valid()
  {
    Civil(Date(y, 2, 29), 0, 0, 0)
  }

  lemma LeapMidnight(s: SpecSchedule, y: int)
    requires LeapMidnights(s) && IsLeap(y)
    ensures Matches(s, LeapDay(y))
  {
    hide Has, Weekday;
  }

  lemma OnlyLeapMidnights(s: SpecSchedule, c: Civil)
    requires LeapMidnights(s) && c.Valid() && Matches(s, c)
    ensures c.hour == 0 && c.minute == 0 && c.second == 0 && c.date.month == 2 && c.date.day == 29
    ensures IsLeap(c.date.year)
  {
    hide Has, Weekday;
  }

  lemma LeapMidnightsAreLeapDayOnly(s: SpecSchedule)
    requires LeapMidnights(s)
    ensures StarsAreFull(s) && LeapDayOnly(s)
  {
    hide Has;
    assert TimeOfDay(s, 0, 0, 0);
    assert SomeTime(s);
    hide SomeTime, TimeOfDay;
  }

  /** Asked at midnight of 29 February 2096, Next answers none, though the schedule activates in 2104. */
  lemma LeapDayExample(s: SpecSchedule)
    requires LeapMidnights(s)
    ensures StarsAreFull(s) && LeapDayOnly(s)
    ensures Matches(s, LeapDay(2096)) && Matches(s, LeapDay(2104))
    ensures var t := Instant(LeapDay(2096), 0); !ActiveBy(s, t, YearLimit(t))
  {
    LeapMidnightsAreLeapDayOnly(s);
    LeapMidnight(s, 2096);
    LeapMidnight(s, 2104);
    hide LeapMidnights, Matches, LeapDayOnly, StarsAreFull, ActiveBy;
    EightYears(s);
  }

  lemma EightYears(s: SpecSchedule)
    requires LeapMidnights(s)
    ensures var t := Instant(LeapDay(2096), 0); YearLimit(t) == 2101 && !ActiveBy(s, t, 2101)
  {
    hide LeapMidnights, Matches;
    var t := Instant(LeapDay(2096), 0);
    assert t.civil.AddSecond() == Civil(Date(2096, 2, 29), 0, 0, 1);
    forall c: Civil | c.Valid() && Matches(s, c) && Later(t, c) ensures c.date.year > 2101 {
      OnlyLeapMidnights(s, c);
      AfterLeapDay(c);
    }
  }

  lemma AfterLeapDay(c: Civil)
    requires c.date.month == 2 && c.date.day == 29 && c.hour == 0 && c.minute == 0 && c.second == 0
    requires IsLeap(c.date.year) && Civil(Date(2096, 2, 29), 0, 0, 0).Before(c)
    ensures c.date.year >= 2104
  {
  }
}
