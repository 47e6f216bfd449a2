/** memos/lib/cron/parser.go: filling in the fields an expression leaves out, parsing all six, and the
    predefined schedules. */
module CronParser {
  import opened Calendar
  import opened Text
  import opened Bits
  import opened CronField
  import opened CronSpec

  // ---------- optional and missing fields ----------

  /** Which of the six places (second to weekday) an expression has, and which one it may omit. */
  datatype Options = Options(places: set<int>, secondOptional: bool, dowOptional: bool)

  const STANDARD := Options({1, 2, 3, 4, 5}, false, false)

  const DEFAULTS := ["0", "0", "0", "*", "*", "*"]

  /** The places that take a field, the optional one included. */
  predicate Takes(o: Options, place: int) {
    place in o.places || (place == 0 && o.secondOptional) || (place == 5 && o.dowOptional)
  }

  function Count(o: Options, n: nat): nat {
    if n == 0 then 0 else Count(o, n - 1) + if Takes(o, n - 1) then 1 else 0
  }

  function Optionals(o: Options): nat {
    (if o.secondOptional then 1 else 0) + if o.dowOptional then 1 else 0
  }

  /** Too few or too many fields for the options, or options that leave open which field is missing. */
  predicate Fitting(fields: seq<string>, o: Options) {
    Optionals(o) <= 1 && Count(o, 6) <= |fields| + Optionals(o) && |fields| <= Count(o, 6)
  }

  /** The fields with the optional one filled in. */
  function Filled(fields: seq<string>, o: Options): (all: seq<string>)
    requires Fitting(fields, o)
    ensures |all| == Count(o, 6)
  {
    if |fields| == Count(o, 6) then fields
    else if o.dowOptional then fields + [DEFAULTS[5]]
    else [DEFAULTS[0]] + fields
  }

  /** What stands at the places that take a field, in order. */
  function Picked(all: seq<string>, o: Options, n: nat): (picked: seq<string>)
    requires n <= |all|
    ensures |picked| == Count(o, n)
  {
    if n == 0 then [] else Picked(all, o, n - 1) + if Takes(o, n - 1) then [all[n - 1]] else []
  }

  lemma {:induction false} PickedFront(all: seq<string>, more: seq<string>, o: Options, n: nat)
    requires n <= |all| <= |more| && forall i :: 0 <= i < n ==> all[i] == more[i]
    ensures Picked(all, o, n) == Picked(more, o, n)
  {
    if n > 0 {
      PickedFront(all, more, o, n - 1);
    }
  }

  lemma {:induction false} CountGrows(o: Options, m: nat, n: nat)
    requires m <= n
    ensures Count(o, m) <= Count(o, n)
  {
    if m < n {
      CountGrows(o, m, n - 1);
    }
  }

  /** `normalizeFields` accepts exactly the fitting numbers of fields; then the places that take a field hold
      the given ones in order, an omitted optional one and all other places their defaults. */
  method NormalizeFields(fields: seq<string>, o: Options) returns (r: Option<seq<string>>)
    ensures r.Some? <==> Fitting(fields, o)
    ensures r.Some? ==> |r.value| == 6 && Picked(r.value, o, 6) == Filled(fields, o)
    ensures r.Some? ==> forall i :: 0 <= i < 6 && !Takes(o, i) ==> r.value[i] == DEFAULTS[i]
  {
    var optionals := Optionals(o);
    if optionals > 1 {
      return None;
    }
    var max: nat := 0;
    for i := 0 to 6
      invariant max == Count(o, i)
    {
      if Takes(o, i) {
        max := max + 1;
      }
    }
    var min := max - optionals;
    if |fields| < min || |fields| > max {
      return None;
    }
    var given := fields;
    if min < max && |fields| == min {
      if o.dowOptional {
        given := given + [DEFAULTS[5]];
      } else {
        given := [DEFAULTS[0]] + given;
      }
    }
    assert given == Filled(fields, o);
    var expanded := DEFAULTS;
    var n := 0;
    for i := 0 to 6
      invariant |expanded| == 6 && n == Count(o, i) <= |given| == Count(o, 6)
      invariant Picked(expanded, o, i) == given[..n]
      invariant forall j :: i <= j < 6 ==> expanded[j] == DEFAULTS[j]
      invariant forall j :: 0 <= j < 6 && !Takes(o, j) ==> expanded[j] == DEFAULTS[j]
    {
      CountGrows(o, i + 1, 6);
      if Takes(o, i) {
        PickedFront(expanded, expanded[i := given[n]], o, i);
        expanded := expanded[i := given[n]];
        n := n + 1;
      }
    }
    return Some(expanded);
  }

  /** The six places are determined by what they hold where a field is taken. */
  lemma {:induction false} PlacesUnique(a: seq<string>, b: seq<string>, o: Options, n: nat)
    requires |a| == |b| == 6 && n <= 6 && Picked(a, o, n) == Picked(b, o, n)
    requires forall i :: 0 <= i < 6 && !Takes(o, i) ==> a[i] == b[i]
    ensures a[..n] == b[..n]
  {
    if n > 0 {
      var x, y := Picked(a, o, n - 1), Picked(b, o, n - 1);
      if Takes(o, n - 1) {
        assert (x + [a[n - 1]])[..|x|] == x && (y + [b[n - 1]])[..|y|] == y;
        assert (x + [a[n - 1]])[|x|] == a[n - 1] && (y + [b[n - 1]])[|y|] == b[n - 1];
      } else {
        assert x + [] == x && y + [] == y;
      }
      hide Takes;
      PlacesUnique(a, b, o, n - 1);
      assert a[..n] == a[..n - 1] + [a[n - 1]] && b[..n] == b[..n - 1] + [b[n - 1]];
    }
  }

  lemma StandardCount(fields: seq<string>)
    ensures Count(STANDARD, 6) == 5 && (Fitting(fields, STANDARD) <==> |fields| == 5)
  {
    assert Count(STANDARD, 2) == 1 && Count(STANDARD, 4) == 3;
  }

  /** Standard expressions have five fields, and second 0. */
  lemma StandardPlaces(fields: seq<string>, all: seq<string>)
    requires |fields| == 5 && |all| == 6 && Fitting(fields, STANDARD)
    requires Picked(all, STANDARD, 6) == Filled(fields, STANDARD)
    requires forall i :: 0 <= i < 6 && !Takes(STANDARD, i) ==> all[i] == DEFAULTS[i]
    ensures all == ["0"] + fields
  {
    StandardCount(fields);
    var b := ["0"] + fields;
    assert Picked(b, STANDARD, 2) == [b[1]] && Picked(b, STANDARD, 3) == [b[1], b[2]];
    assert Picked(b, STANDARD, 5) == [b[1], b[2], b[3], b[4]];
    assert Picked(b, STANDARD, 6) == fields;
    PlacesUnique(all, b, STANDARD, 6);
    assert all[..6] == all && b[..6] == b;
  }

  // ---------- all six fields ----------

  /** `spec` stores exactly the value sets of the six fields. */
  ghost predicate StoresSix(spec: SpecSchedule, all: seq<string>) {
    && |all| == 6
    && FieldBits(spec.second, all[0], SECONDS) && FieldBits(spec.minute, all[1], MINUTES)
    && FieldBits(spec.hour, all[2], HOURS) && FieldBits(spec.dom, all[3], DOM)
    && FieldBits(spec.month, all[4], MONTHS) && FieldBits(spec.dow, all[5], DOW)
  }

  predicate AcceptedSix(all: seq<string>) {
    && |all| == 6
    && Accepted(all[0], SECONDS) && Accepted(all[1], MINUTES) && Accepted(all[2], HOURS)
    && Accepted(all[3], DOM) && Accepted(all[4], MONTHS) && Accepted(all[5], DOW)
  }

  method ParseSix(all: seq<string>) returns (spec: Option<SpecSchedule>)
    requires |all| == 6
    ensures spec.Some? <==> AcceptedSix(all)
    ensures spec.Some? ==> StoresSix(spec.value, all)
  {
    hide Accepted, FieldBits, ValidBounds;
    TablesAreValid();
    var second := GetField(all[0], SECONDS);
    var minute := GetField(all[1], MINUTES);
    var hour := GetField(all[2], HOURS);
    var dom := GetField(all[3], DOM);
    var month := GetField(all[4], MONTHS);
    var dow := GetField(all[5], DOW);
    if second.Err? || minute.Err? || hour.Err? || dom.Err? || month.Err? || dow.Err? {
      return None;
    }
    return Some(SpecSchedule(second.value, minute.value, hour.value, dom.value, month.value, dow.value));
  }

  /** `Parse` on the whitespace-separated fields of an expression, for any options: the fields fit, each
      place's field is accepted, and the schedule stores what they say. */
  method Parse(fields: seq<string>, o: Options) returns (spec: Option<SpecSchedule>, ghost all: seq<string>)
    ensures spec.Some? <==> Fitting(fields, o) && AcceptedSix(all)
    ensures spec.Some? ==> StoresSix(spec.value, all)
    ensures Fitting(fields, o) ==> |all| == 6 && Picked(all, o, 6) == Filled(fields, o)
    ensures Fitting(fields, o) ==> forall i :: 0 <= i < 6 && !Takes(o, i) ==> all[i] == DEFAULTS[i]
  {
    hide AcceptedSix, StoresSix, Count, Picked, Filled, Fitting;
    var expanded := NormalizeFields(fields, o);
    if expanded.None? {
      all := [];
      return None, all;
    }
    all := expanded.value;
    spec := ParseSix(expanded.value);
  }

  // ---------- standard expressions ----------

  /** `spec` stores exactly the value sets of the five fields, at second 0. */
  ghost predicate Stores(spec: SpecSchedule, fields: seq<string>) {
    && |fields| == 5
    && FieldBits(spec.second, "0", SECONDS)
    && FieldBits(spec.minute, fields[0], MINUTES)
    && FieldBits(spec.hour, fields[1], HOURS)
    && FieldBits(spec.dom, fields[2], DOM)
    && FieldBits(spec.month, fields[3], MONTHS)
    && FieldBits(spec.dow, fields[4], DOW)
  }

  predicate AcceptedFive(fields: seq<string>) {
    && |fields| == 5
    && Accepted(fields[0], MINUTES) && Accepted(fields[1], HOURS) && Accepted(fields[2], DOM)
    && Accepted(fields[3], MONTHS) && Accepted(fields[4], DOW)
  }

  lemma ZeroAccepted()
    ensures Accepted("0", SECONDS)
    ensures forall v :: Denotes("0", SECONDS, v) <==> v == 0
  {
    NumberField(0, "0", SECONDS);
  }

  /** A number alone is a field of one value. */
  lemma NumberField(n: nat, field: string, r: Bounds)
    requires ValidBounds(r) && r.min <= n <= r.max && field == Itoa(n)
    ensures Accepted(field, r) && !Starred(field, r)
    ensures forall v :: Denotes(field, r, v) <==> v == n
  {
    var x := Range.Single(Num(n));
    PrintedValue(Num(n), r);
    PrintedIsPiece(x, r);
    PrintParses(x, r);
    SinglePiece(field, r);
    SplitOne(field, '/');
    SplitOne(field, '-');
    hide ToLower, Itoa, Atoi, Split, Accepted, Denotes, Starred;
    assert forall v :: Means(x, r, v) <==> v == n;
  }

  // ---------- predefined schedules ----------

  datatype Predefined = Yearly | Monthly | Weekly | Daily | Hourly

  function AllOf(r: Bounds): bv64 {
    ShiftMask(r.min, r.max) | STAR_BIT
  }

  /** `parseDescriptor`: @yearly (or @annually), @monthly, @weekly, @daily (or @midnight) and @hourly. */
  function ScheduleOf(p: Predefined): SpecSchedule {
    SpecSchedule(
      Bit(SECONDS.min), Bit(MINUTES.min),
      if p.Hourly? then AllOf(HOURS) else Bit(HOURS.min),
      if p.Yearly? || p.Monthly? then Bit(DOM.min) else AllOf(DOM),
      if p.Yearly? then Bit(MONTHS.min) else AllOf(MONTHS),
      if p.Weekly? then Bit(DOW.min) else AllOf(DOW))
  }

  /** The expressions crontab users know them by. */
  function FieldsOf(p: Predefined): seq<string> {
    match p
    case Yearly => ["0", "0", "1", "1", "*"]
    case Monthly => ["0", "0", "1", "*", "*"]
    case Weekly => ["0", "0", "*", "*", "0"]
    case Daily => ["0", "0", "*", "*", "*"]
    case Hourly => ["0", "*", "*", "*", "*"]
  }

  lemma StarField(r: Bounds)
    requires ValidBounds(r)
    ensures Accepted("*", r) && Starred("*", r) && FieldBits(AllOf(r), "*", r)
  {
    SinglePiece("*", r);
    SplitOne("*", '/');
    SplitOne("*", '-');
    assert PieceOf("*", r) == Ok(Piece(r.min, r.max, 1, true));
    ShiftMaskRepresents(r.min, r.max);
    AddExtra(ShiftMask(r.min, r.max), STAR_BIT, AllOf(r), Piece(r.min, r.max, 1, true));
    hide Accepted, Denotes, Starred, PieceOf, Has, ShiftMask;
  }

  lemma FirstField(n: nat, field: string, r: Bounds)
    requires ValidBounds(r) && n == r.min && field == Itoa(n)
    ensures Accepted(field, r) && FieldBits(Bit(n), field, r)
  {
    NumberField(n, field, r);
    forall v: nat | v < 64 ensures Has(Bit(n), v) <==> v == n {
      HasBit(n, v);
    }
    hide Accepted, Denotes, Starred, Has, Bit;
  }

  /** A predefined schedule stores what its five-field expression says. */
  lemma PredefinedIsExpression(p: Predefined)
    ensures AcceptedFive(FieldsOf(p)) && Stores(ScheduleOf(p), FieldsOf(p))
  {
    FirstFields();
    StarFields();
    hide Accepted, FieldBits, Bit, AllOf;
  }

  lemma FirstFields()
    ensures Accepted("0", SECONDS) && FieldBits(Bit(0), "0", SECONDS)
    ensures Accepted("0", MINUTES) && FieldBits(Bit(0), "0", MINUTES)
    ensures Accepted("0", HOURS) && FieldBits(Bit(0), "0", HOURS)
    ensures Accepted("1", DOM) && FieldBits(Bit(1), "1", DOM)
    ensures Accepted("1", MONTHS) && FieldBits(Bit(1), "1", MONTHS)
    ensures Accepted("0", DOW) && FieldBits(Bit(0), "0", DOW)
  {
    assert Itoa(0) == "0" && Itoa(1) == "1";
    hide Accepted, FieldBits, ValidBounds, Bit, Itoa;
    TablesAreValid();
    FirstField(0, "0", SECONDS);
    FirstField(0, "0", MINUTES);
    FirstField(0, "0", HOURS);
    FirstField(1, "1", DOM);
    FirstField(1, "1", MONTHS);
    FirstField(0, "0", DOW);
  }

  lemma StarFields()
    ensures Accepted("*", HOURS) && FieldBits(AllOf(HOURS), "*", HOURS)
    ensures Accepted("*", DOM) && FieldBits(AllOf(DOM), "*", DOM)
    ensures Accepted("*", MONTHS) && FieldBits(AllOf(MONTHS), "*", MONTHS)
    ensures Accepted("*", DOW) && FieldBits(AllOf(DOW), "*", DOW)
  {
    hide Accepted, FieldBits, ValidBounds, AllOf;
    TablesAreValid();
    StarField(HOURS);
    StarField(DOM);
    StarField(MONTHS);
    StarField(DOW);
  }
}
