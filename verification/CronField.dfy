/** The field grammar of memos/lib/cron/parser.go. */
module CronField {
  import opened Calendar
  import opened Text
  import opened Arith
  import opened Bits

  datatype Bounds = Bounds(min: nat, max: nat, names: map<string, nat>)

  const SECONDS := Bounds(0, 59, map[])
  const MINUTES := Bounds(0, 59, map[])
  const HOURS := Bounds(0, 23, map[])
  const DOM := Bounds(1, 31, map[])
  const MONTHS := Bounds(1, 12, map["jan" := 1, "feb" := 2, "mar" := 3, "apr" := 4, "may" := 5, "jun" := 6,
                                    "jul" := 7, "aug" := 8, "sep" := 9, "oct" := 10, "nov" := 11, "dec" := 12])
  const DOW := Bounds(0, 6, map["sun" := 0, "mon" := 1, "tue" := 2, "wed" := 3, "thu" := 4, "fri" := 5, "sat" := 6])

  predicate IsName(s: string) {
    s != "" && forall c <- s :: 'a' <= c <= 'z'
  }

  /** What every table above satisfies: values fit below the star bit, names are lower-case words. */
  ghost predicate ValidBounds(r: Bounds) {
    r.min <= r.max <= 59 && forall s <- r.names :: IsName(s)
  }

  lemma MonthNamesAreWords()
    ensures forall s <- MONTHS.names :: IsName(s)
  {
  }

  lemma DayNamesAreWords()
    ensures forall s <- DOW.names :: IsName(s)
  {
  }

  lemma TablesAreValid()
    ensures ValidBounds(SECONDS) && ValidBounds(MINUTES) && ValidBounds(HOURS)
    ensures ValidBounds(DOM) && ValidBounds(MONTHS) && ValidBounds(DOW)
  {
    MonthNamesAreWords();
    DayNamesAreWords();
  }

  datatype Error =
    | NotANumber | NegativeNumber | TooManyHyphens | TooManySlashes
    | BelowMinimum | AboveMaximum | StartAfterEnd | ZeroStep

  datatype Result<+T> = Ok(value: T) | Err(error: Error) {
    predicate IsFailure() { Err? }
    function PropagateFailure<U>(): Result<U> requires Err? { Err(error) }
    function Extract(): T requires Ok? { value }
  }

  /** One comma-separated piece: start, start+step, ... up to end; `star` is the piece's top bit. */
  datatype Piece = Piece(start: nat, end: nat, step: nat, star: bool) {
    predicate Denotes(v: int) {
      start <= v <= end && step > 0 && (v - start) % step == 0
    }
  }

  function ParseInt(s: string): Result<nat> {
    match Atoi(s)
    case None => Err(NotANumber)
    case Some(n) => if n < 0 then Err(NegativeNumber) else Ok(n)
  }

  function ParseIntOrName(s: string, names: map<string, nat>): Result<nat> {
    if ToLower(s) in names then Ok(names[ToLower(s)]) else ParseInt(s)
  }

  predicate IsWildcard(s: string) {
    s == "*" || s == "?"
  }

  function Low(expr: string): seq<string> {
    Split(Split(expr, '/')[0], '-')
  }

  /** The first and last value of the range part, its pieces between hyphens given. */
  function RangeOf(low: seq<string>, r: Bounds): Result<(nat, nat)>
    requires |low| >= 1
  {
    if IsWildcard(low[0]) then Ok((r.min, r.max))
    else
      var start :- ParseIntOrName(low[0], r.names);
      if |low| == 1 then Ok((start, start))
      else if |low| == 2 then
        var end :- ParseIntOrName(low[1], r.names);
        Ok((start, end))
      else Err(TooManyHyphens)
  }

  /** The progression of an expression split at its slashes and hyphens. */
  function PieceFrom(parts: seq<string>, low: seq<string>, r: Bounds): Result<Piece>
    requires |parts| >= 1 && |low| >= 1
  {
    var (start, high) :- RangeOf(low, r);
    if |parts| > 2 then Err(TooManySlashes)
    else
      var step :- if |parts| == 1 then Ok(1) else ParseInt(parts[1]);
      // A single number with a step runs from that number to the upper bound.
      var end := if |parts| == 2 && |low| == 1 then r.max else high;
      if start < r.min then Err(BelowMinimum)
      else if end > r.max then Err(AboveMaximum)
      else if start > end then Err(StartAfterEnd)
      else if step == 0 then Err(ZeroStep)
      else Ok(Piece(start, end, step, IsWildcard(low[0]) && step == 1))
  }

  /** The arithmetic progression an expression stands for, or the error that rejects it. */
  function PieceOf(expr: string, r: Bounds): Result<Piece> {
    PieceFrom(Split(expr, '/'), Low(expr), r)
  }

  /** An accepted piece lies within the bounds and holds at least its first value. */
  lemma AcceptedPiece(expr: string, r: Bounds)
    requires PieceOf(expr, r).Ok?
    ensures var p := PieceOf(expr, r).value;
            && p.Denotes(p.start)
            && (forall v :: p.Denotes(v) ==> r.min <= v <= r.max)
            && (p.star ==> forall v :: r.min <= v <= r.max ==> p.Denotes(v))
  {
  }

  /** `bits` is exactly the set a piece stands for. */
  ghost predicate Represents(bits: bv64, p: Piece) {
    && (forall v :: 0 <= v < 63 ==> (Has(bits, v) <==> p.Denotes(v)))
    && (Has(bits, 63) <==> p.star)
  }

  /** At step 1 the shift form is the progression the loop would build. */
  lemma ShiftMaskRepresents(min: nat, max: nat)
    requires min <= max < 63
    ensures Represents(ShiftMask(min, max), Piece(min, max, 1, false))
  {
    var mask := ShiftMask(min, max);
    forall v: nat | v < 64
      ensures Has(mask, v) <==> min <= v <= max
    {
      HasShiftMask(min, max, mask, v);
    }
  }

  /** The loop form of getBits, for any step. */
  method LoopBits(min: nat, max: nat, step: nat) returns (bits: bv64)
    requires min <= max < 63 && step > 0
    ensures Represents(bits, Piece(min, max, step, false))
  {
    ghost var p := Piece(min, max, step, false);
    bits := 0;
    HasNothing();
    var i := min;
    while i <= max
      invariant min <= i && (i - min) % step == 0
      invariant forall v: nat :: v < 64 ==> (Has(bits, v) <==> v < i && p.Denotes(v))
    {
      var bit := Bit(i);
      ghost var more := bits | bit;
      forall v: nat | v < 64
        ensures Has(more, v) <==> v < i + step && p.Denotes(v)
      {
        HasOr(bits, bit, v);
        HasBit(i, v);
        if i < v < i + step {
          ModBetween(v - min, i - min, step);
        }
      }
      ModPlus(i - min, step);
      bits := bits | bit;
      i := i + step;
    }
  }

  method GetBits(min: nat, max: nat, step: nat) returns (bits: bv64)
    requires min <= max < 63 && step > 0
    ensures Represents(bits, Piece(min, max, step, false))
  {
    // Consecutive values: two shifted masks.
    if step == 1 {
      ShiftMaskRepresents(min, max);
      return ShiftMask(min, max);
    }
    // A progression of any other step, bit by bit.
    bits := LoopBits(min, max, step);
  }

  /** `getRange`: the bits of one piece, or the error that rejects it. */
  method GetRange(expr: string, r: Bounds) returns (res: Result<bv64>)
    requires ValidBounds(r)
    ensures PieceOf(expr, r).Ok? ==> res.Ok? && Represents(res.value, PieceOf(expr, r).value)
    ensures PieceOf(expr, r).Err? ==> res == Err(PieceOf(expr, r).error)
  {
    var p :- PieceOf(expr, r);
    var bits := GetBits(p.start, p.end, p.step);
    var extra: bv64 := if p.star then STAR_BIT else 0;
    AddExtra(bits, extra, bits | extra, p);
    return Ok(bits | extra);
  }

  lemma AddExtra(bits: bv64, extra: bv64, all: bv64, p: Piece)
    requires Represents(bits, p.(star := false)) && all == bits | extra
    requires extra == if p.star then STAR_BIT else 0
    ensures Represents(all, p)
  {
    HasNothing();
    forall v: nat | v < 64
      ensures Has(all, v) <==> Has(bits, v) || (v == 63 && p.star)
    {
      HasOr(bits, extra, v);
      HasStar(v);
    }
    assert forall v :: p.Denotes(v) <==> p.(star := false).Denotes(v);
  }

  // ---------- whole fields ----------

  predicate Accepted(field: string, r: Bounds) {
    forall p <- FieldsBy(field, ',') :: PieceOf(p, r).Ok?
  }

  ghost predicate Denotes(field: string, r: Bounds, v: int) {
    exists p <- FieldsBy(field, ',') :: PieceOf(p, r).Ok? && PieceOf(p, r).value.Denotes(v)
  }

  ghost predicate Starred(field: string, r: Bounds) {
    exists p <- FieldsBy(field, ',') :: PieceOf(p, r).Ok? && PieceOf(p, r).value.star
  }

  /** `bits` is exactly the union of a field's pieces. */
  ghost predicate FieldBits(bits: bv64, field: string, r: Bounds) {
    && (forall v: nat :: v < 63 ==> (Has(bits, v) <==> Denotes(field, r, v)))
    && (Has(bits, 63) <==> Starred(field, r))
  }

  /** `getField` accepts exactly the fields whose pieces all parse, and then builds the union
      of their progressions; otherwise it reports the first piece's error. */
  method GetField(field: string, r: Bounds) returns (res: Result<bv64>)
    requires ValidBounds(r)
    ensures res.Ok? <==> Accepted(field, r)
    ensures res.Ok? ==> FieldBits(res.value, field, r)
    ensures res.Err? ==>
              exists i :: 0 <= i < |FieldsBy(field, ',')|
                       && PieceOf(FieldsBy(field, ',')[i], r) == Err(res.error)
                       && forall j :: 0 <= j < i ==> PieceOf(FieldsBy(field, ',')[j], r).Ok?
  {
    hide PieceOf, FieldsBy, Has;
    var bits: bv64 := 0;
    var ranges := FieldsBy(field, ',');
    HasNothing();
    for i := 0 to |ranges|
      invariant forall j :: 0 <= j < i ==> PieceOf(ranges[j], r).Ok?
      invariant UnionBits(bits, ranges[..i], r)
    {
      var bit := GetRange(ranges[i], r);
      if bit.Err? {
        return Err(bit.error);
      }
      var more := bits | bit.value;
      AddPiece(bits, ranges[..i], bit.value, ranges[i], more, r);
      assert ranges[..i + 1] == ranges[..i] + [ranges[i]];
      bits := more;
    }
    assert ranges[..|ranges|] == ranges;
    UnionIsField(bits, field, r);
    return Ok(bits);
  }

  ghost predicate PieceHas(expr: string, r: Bounds, v: nat) {
    && PieceOf(expr, r).Ok?
    && if v == 63 then PieceOf(expr, r).value.star else PieceOf(expr, r).value.Denotes(v)
  }

  ghost predicate UnionBits(bits: bv64, exprs: seq<string>, r: Bounds) {
    forall v: nat :: v < 64 ==> (Has(bits, v) <==> exists p <- exprs :: PieceHas(p, r, v))
  }

  lemma AddPiece(bits: bv64, exprs: seq<string>, bit: bv64, expr: string, all: bv64, r: Bounds)
    requires UnionBits(bits, exprs, r) && PieceOf(expr, r).Ok? && all == bits | bit
    requires Represents(bit, PieceOf(expr, r).value)
    ensures UnionBits(all, exprs + [expr], r)
  {
    forall v: nat | v < 64
      ensures Has(all, v) <==> exists p <- exprs + [expr] :: PieceHas(p, r, v)
    {
      HasOr(bits, bit, v);
      assert Has(bit, v) <==> PieceHas(expr, r, v);
      assert forall p <- exprs :: p in exprs + [expr];
      assert expr in exprs + [expr];
    }
  }

  lemma UnionIsField(bits: bv64, field: string, r: Bounds)
    requires UnionBits(bits, FieldsBy(field, ','), r)
    ensures FieldBits(bits, field, r)
  {
    assert Has(bits, 63) <==> exists p <- FieldsBy(field, ',') :: PieceHas(p, r, 63);
  }

  /** An accepted field stays within its bounds, a starred one holds every value, and the only
      accepted fields without a value are those made of commas alone. */
  lemma AcceptedField(field: string, r: Bounds)
    requires ValidBounds(r) && Accepted(field, r)
    ensures forall v :: Denotes(field, r, v) ==> r.min <= v <= r.max
    ensures Starred(field, r) ==> forall v :: r.min <= v <= r.max ==> Denotes(field, r, v)
    ensures (exists v :: Denotes(field, r, v)) <==> exists c <- field :: c != ','
  {
    var ranges := FieldsBy(field, ',');
    forall p | p in ranges
      ensures forall v :: PieceOf(p, r).value.Denotes(v) ==> r.min <= v <= r.max
      ensures PieceOf(p, r).value.star ==> forall v :: r.min <= v <= r.max ==> PieceOf(p, r).value.Denotes(v)
    {
      AcceptedPiece(p, r);
    }
    FieldsByEmpty(field, ',');
    if ranges != [] {
      assert ranges[0] in ranges;
      AcceptedPiece(ranges[0], r);
      assert Denotes(field, r, PieceOf(ranges[0], r).value.start);
    }
  }

  /** A field without commas is its only piece. */
  lemma SinglePiece(field: string, r: Bounds)
    requires field != "" && ',' !in field
    ensures Accepted(field, r) <==> PieceOf(field, r).Ok?
    ensures forall v :: Denotes(field, r, v) <==> PieceOf(field, r).Ok? && PieceOf(field, r).value.Denotes(v)
    ensures Starred(field, r) <==> PieceOf(field, r).Ok? && PieceOf(field, r).value.star
  {
    hide PieceOf;
    SplitOne(field, ',');
    NonEmptyAll([field]);
    assert FieldsBy(field, ',') == [field];
    assert field in [field];
  }

  // ---------- the syntax, written down independently of the parser ----------

  datatype Value = Num(n: nat) | Name(s: string)

  datatype Range =
    | Star
    | StarStep(n: nat)
    | Single(a: Value)
    | SingleStep(a: Value, n: nat)
    | Span(a: Value, b: Value)
    | SpanStep(a: Value, b: Value, n: nat)

  function ValueOf(x: Value, r: Bounds): int {
    match x
    case Num(n) => n
    case Name(s) => if ToLower(s) in r.names then r.names[ToLower(s)] else -1
  }

  function PrintValue(x: Value): string {
    if x.Num? then Itoa(x.n) else x.s
  }

  function Print(x: Range): string {
    match x
    case Star => "*"
    case StarStep(n) => "*" + "/" + Itoa(n)
    case Single(a) => PrintValue(a)
    case SingleStep(a, n) => PrintValue(a) + "/" + Itoa(n)
    case Span(a, b) => PrintValue(a) + "-" + PrintValue(b)
    case SpanStep(a, b, n) => PrintValue(a) + "-" + PrintValue(b) + "/" + Itoa(n)
  }

  predicate ProperValue(x: Value, r: Bounds) {
    r.min <= ValueOf(x, r) <= r.max
  }

  predicate ProperStep(n: nat) {
    1 <= n <= MAX_INT
  }

  predicate Proper(x: Range, r: Bounds) {
    match x
    case Star => true
    case StarStep(n) => ProperStep(n)
    case Single(a) => ProperValue(a, r)
    case SingleStep(a, n) => ProperValue(a, r) && ProperStep(n)
    case Span(a, b) => ProperValue(a, r) && ProperValue(b, r) && ValueOf(a, r) <= ValueOf(b, r)
    case SpanStep(a, b, n) =>
      ProperValue(a, r) && ProperValue(b, r) && ValueOf(a, r) <= ValueOf(b, r) && ProperStep(n)
  }

  /** What the crontab syntax says a range stands for. */
  predicate Means(x: Range, r: Bounds, v: int)
    requires Proper(x, r)
  {
    match x
    case Star => r.min <= v <= r.max
    case StarStep(n) => r.min <= v <= r.max && (v - r.min) % n == 0
    case Single(a) => v == ValueOf(a, r)
    case SingleStep(a, n) => ValueOf(a, r) <= v <= r.max && (v - ValueOf(a, r)) % n == 0
    case Span(a, b) => ValueOf(a, r) <= v <= ValueOf(b, r)
    case SpanStep(a, b, n) => ValueOf(a, r) <= v <= ValueOf(b, r) && (v - ValueOf(a, r)) % n == 0
  }

  lemma {:induction false} LowerFixed(s: string)
    requires forall c <- s :: !('A' <= c <= 'Z')
    ensures ToLower(s) == s
  {
    assert forall i :: 0 <= i < |s| ==> s[i] in s;
  }

  lemma PrintedValue(x: Value, r: Bounds)
    requires ValidBounds(r) && ProperValue(x, r)
    ensures ParseIntOrName(PrintValue(x), r.names) == Ok(ValueOf(x, r))
    ensures '-' !in PrintValue(x) && '/' !in PrintValue(x) && ',' !in PrintValue(x)
    ensures !IsWildcard(PrintValue(x)) && PrintValue(x) != ""
  {
    var s := PrintValue(x);
    if x.Num? {
      AtoiItoa(x.n);
      LowerFixed(s);
      assert s[0] in s;
    } else {
      assert forall i :: 0 <= i < |s| ==> ToLower(s)[i] in ToLower(s);
    }
  }

  lemma PrintedStep(head: string, n: nat)
    requires '/' !in head && ProperStep(n)
    ensures Split(head + "/" + Itoa(n), '/') == [head, Itoa(n)]
    ensures ParseInt(Itoa(n)) == Ok(n)
  {
    SplitCons(head, Itoa(n), '/');
    SplitOne(Itoa(n), '/');
    AtoiItoa(n);
    assert head + ['/'] + Itoa(n) == head + "/" + Itoa(n);
  }

  lemma PrintedSpan(a: string, b: string)
    requires '-' !in a && '-' !in b && '/' !in a && '/' !in b
    ensures Split(a + "-" + b, '-') == [a, b]
    ensures '/' !in a + "-" + b
  {
    SplitCons(a, b, '-');
    SplitOne(b, '-');
    assert a + ['-'] + b == a + "-" + b;
  }

  lemma PrintParsesPlain(x: Range, r: Bounds)
    requires ValidBounds(r) && Proper(x, r) && (x.Star? || x.Single? || x.Span?)
    ensures PieceOf(Print(x), r).Ok?
    ensures forall v :: PieceOf(Print(x), r).value.Denotes(v) <==> Means(x, r, v)
  {
    hide Split, ToLower, Itoa, Atoi;
    match x
    case Star =>
      SplitOne("*", '/');
      SplitOne("*", '-');
    case Single(a) =>
      PrintedValue(a, r);
      SplitOne(PrintValue(a), '/');
      SplitOne(PrintValue(a), '-');
    case Span(a, b) =>
      PrintedValue(a, r);
      PrintedValue(b, r);
      PrintedSpan(PrintValue(a), PrintValue(b));
      SplitOne(Print(x), '/');
  }

  lemma PrintParsesStep(x: Range, r: Bounds)
    requires ValidBounds(r) && Proper(x, r) && (x.StarStep? || x.SingleStep?)
    ensures PieceOf(Print(x), r).Ok?
    ensures forall v :: PieceOf(Print(x), r).value.Denotes(v) <==> Means(x, r, v)
  {
    hide Split, ToLower, Itoa, Atoi;
    match x
    case StarStep(n) =>
      PrintedStep("*", n);
      SplitOne("*", '-');
    case SingleStep(a, n) =>
      PrintedValue(a, r);
      PrintedStep(PrintValue(a), n);
      SplitOne(PrintValue(a), '-');
  }

  lemma PrintParsesSpanStep(x: Range, r: Bounds)
    requires ValidBounds(r) && Proper(x, r) && x.SpanStep?
    ensures PieceOf(Print(x), r).Ok?
    ensures forall v :: PieceOf(Print(x), r).value.Denotes(v) <==> Means(x, r, v)
  {
    hide Split, ToLower, Itoa, Atoi;
    var a, b := PrintValue(x.a), PrintValue(x.b);
    PrintedValue(x.a, r);
    PrintedValue(x.b, r);
    PrintedSpan(a, b);
    PrintedStep(a + "-" + b, x.n);
    assert Low(Print(x)) == [a, b];
  }

  /** Every proper range, once printed, is accepted and stands for what the syntax says. */
  lemma PrintParses(x: Range, r: Bounds)
    requires ValidBounds(r) && Proper(x, r)
    ensures PieceOf(Print(x), r).Ok?
    ensures forall v :: PieceOf(Print(x), r).value.Denotes(v) <==> Means(x, r, v)
  {
    if x.Star? || x.Single? || x.Span? {
      PrintParsesPlain(x, r);
    } else if x.SpanStep? {
      PrintParsesSpanStep(x, r);
    } else {
      PrintParsesStep(x, r);
    }
  }

  lemma DigitsHaveNoComma(n: nat)
    ensures ',' !in Itoa(n)
  {
    assert AllDigits(Itoa(n));
    hide Itoa, DigitsValue;
  }

  lemma PrintedIsPiece(x: Range, r: Bounds)
    requires ValidBounds(r) && Proper(x, r)
    ensures Print(x) != "" && ',' !in Print(x)
  {
    hide ToLower, Itoa, ParseIntOrName, ValidBounds, ValueOf, PrintValue;
    if x.Single? || x.SingleStep? || x.Span? || x.SpanStep? {
      PrintedValue(x.a, r);
    }
    if x.Span? || x.SpanStep? {
      PrintedValue(x.b, r);
    }
    if x.StarStep? || x.SingleStep? || x.SpanStep? {
      DigitsHaveNoComma(x.n);
    }
  }

  /** Printing a list of proper ranges and parsing it back loses and adds nothing. */
  lemma FieldRoundTrip(xs: seq<Range>, r: Bounds)
    requires ValidBounds(r) && xs != [] && forall x <- xs :: Proper(x, r)
    ensures var field := Join(seq(|xs|, i requires 0 <= i < |xs| => Print(xs[i])), ',');
            Accepted(field, r) && forall v :: Denotes(field, r, v) <==> exists x <- xs :: Means(x, r, v)
  {
    hide PieceOf, Split, Print;
    var parts := seq(|xs|, i requires 0 <= i < |xs| => Print(xs[i]));
    var field := Join(parts, ',');
    forall i | 0 <= i < |xs|
      ensures parts[i] != "" && ',' !in parts[i] && PieceOf(parts[i], r).Ok?
      ensures forall v :: PieceOf(parts[i], r).value.Denotes(v) <==> Means(xs[i], r, v)
    {
      PrintParses(xs[i], r);
      PrintedIsPiece(xs[i], r);
    }
    SplitJoin(parts, ',');
    NonEmptyAll(parts);
    assert FieldsBy(field, ',') == parts;
    forall v
      ensures Denotes(field, r, v) <==> exists x <- xs :: Means(x, r, v)
    {
      if Denotes(field, r, v) {
        var p :| p in parts && PieceOf(p, r).Ok? && PieceOf(p, r).value.Denotes(v);
        var i :| 0 <= i < |parts| && parts[i] == p;
        assert Means(xs[i], r, v);
      }
      if exists x <- xs :: Means(x, r, v) {
        var x :| x in xs && Means(x, r, v);
        var i :| 0 <= i < |xs| && xs[i] == x;
        assert parts[i] in parts;
      }
    }
  }
}
