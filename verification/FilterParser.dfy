/** memos/lib/filter/parser.go: from a parsed expression to a condition tree, with its numeric and boolean
    constants worked out on the way. */
module FilterParser {
  import opened Calendar
  import opened Text
  import opened FilterIR
  import Like
  import LikeExact

  type Int64 = x: int | -0x8000_0000_0000_0000 <= x <= 0x7fff_ffff_ffff_ffff
  type Uint64 = x: int | 0 <= x <= 0xffff_ffff_ffff_ffff

  datatype Const = CString(s: string) | CInt(i: Int64) | CUint(n: Uint64) | CDouble(r: real) | CBool(b: bool) | CNull
                 | COther

  /** The functions and operators by what they do; `Named` is any other. */
  datatype Fn = AndFn | OrFn | NotFn | CompareFn(op: CompareOp) | InFn | ContainsFn | SizeFn | NowFn
              | AddFn | SubFn | MulFn
              | StartsWithFn | EndsWithFn | Named(name: string)

  datatype Expr =
    | ConstE(c: Const)
    | Ident(name: string)
    | Apply(fn: Fn, target: Option<Expr>, args: seq<Expr>)
    | ListE(elements: seq<Expr>)
    | Comprehension(iterVar: string, range: Expr, accuVar: string, init: Expr, step: Expr)
    | OtherE

  // ---------- constants ----------

  /** What 64-bit arithmetic makes of a number. */
  function Wrap(x: int): Int64 {
    (x + 0x8000_0000_0000_0000) % 0x1_0000_0000_0000_0000 - 0x8000_0000_0000_0000
  }

  predicate InRange(x: int) {
    -0x8000_0000_0000_0000 <= x <= 0x7fff_ffff_ffff_ffff
  }

  function ConstValue(c: Const): Option<Literal> {
    match c
    case CString(s) => Some(LStr(s))
    case CInt(i) => Some(LInt(i))
    case CUint(n) => Some(LInt(Wrap(n)))
    case CDouble(r) => Some(LFloat(r))
    case CBool(b) => Some(LBool(b))
    case CNull => Some(LNull)
    case COther => None
  }

  /** The outcomes of trying to evaluate: a value, not that kind of expression, or an error. */
  datatype Attempt<T> = Value(v: T) | NotThat | Bad

  predicate Arithmetic(fn: Fn) {
    fn.AddFn? || fn.SubFn? || fn.MulFn?
  }

  function Operate(fn: Fn, x: int, y: int): int {
    if fn.AddFn? then x + y else if fn.SubFn? then x - y else x * y
  }

  function EvaluateNumeric(e: Expr, now: Int64): Attempt<Int64> {
    match e
    case ConstE(CInt(i)) => Value(i)
    case ConstE(CUint(n)) => Value(Wrap(n))
    case ConstE(CDouble(r)) => Value(Wrap(Truncate(r)))
    case Apply(fn, _, args) =>
      if fn.NowFn? then Value(now)
      else if !Arithmetic(fn) then NotThat
      else if |args| != 2 then Bad
      else
        var x := EvaluateNumeric(args[0], now);
        if !x.Value? then x
        else
          var y := EvaluateNumeric(args[1], now);
          if !y.Value? then y else Value(Wrap(Operate(fn, x.v, y.v)))
    case _ => NotThat
  }

  function EvaluateBool(e: Expr): Attempt<bool> {
    match e
    case ConstE(CBool(b)) => Value(b)
    case Apply(NotFn, _, args) =>
      if |args| != 1 then Bad
      else
        var x := EvaluateBool(args[0]);
        if x.Value? then Value(!x.v) else x
    case _ => NotThat
  }

  // ---------- building ----------

  function BuildValue(e: Expr, schema: Schema, now: Int64): Option<ValueExpr> {
    if e.Ident? then (if e.name in schema then Some(FieldRef(e.name)) else None)
    else if e.ConstE? && ConstValue(e.c).Some? then Some(Lit(ConstValue(e.c).value))
    else
      var n := EvaluateNumeric(e, now);
      var b := EvaluateBool(e);
      if n.Bad? then None
      else if n.Value? then Some(Lit(LInt(n.v)))
      else if b.Bad? then None
      else if b.Value? then Some(Lit(LBool(b.v)))
      else if e.Apply? && e.fn.SizeFn? && |e.args| == 1 then
        var arg := BuildValue(e.args[0], schema, now);
        if arg.Some? then Some(Call("size", [arg.value])) else None
      else None
  }

  function BuildValues(es: seq<Expr>, schema: Schema, now: Int64): Option<seq<ValueExpr>> {
    if es == [] then Some([])
    else
      var front := BuildValues(es[..|es| - 1], schema, now);
      var last := BuildValue(es[|es| - 1], schema, now);
      if front.Some? && last.Some? then Some(front.value + [last.value]) else None
  }

  /** The loop over a list's elements. */
  method CollectValues(es: seq<Expr>, schema: Schema, now: Int64) returns (values: Option<seq<ValueExpr>>)
    ensures values == BuildValues(es, schema, now)
  {
    hide BuildValue;
    var vs: seq<ValueExpr> := [];
    for i := 0 to |es|
      invariant BuildValues(es[..i], schema, now) == Some(vs)
    {
      assert es[..i + 1][..i] == es[..i];
      var v := BuildValue(es[i], schema, now);
      if v.None? {
        ValuesStop(es, i + 1, schema, now);
        return None;
      }
      vs := vs + [v.value];
    }
    assert es[..|es|] == es;
    return Some(vs);
  }

  lemma {:induction false} ValuesStop(es: seq<Expr>, n: nat, schema: Schema, now: Int64)
    requires n <= |es| && BuildValues(es[..n], schema, now).None?
    ensures BuildValues(es, schema, now).None?
  {
    hide BuildValue;
    if n == |es| {
      assert es[..n] == es;
    } else {
      assert es[..|es| - 1][..n] == es[..n];
      ValuesStop(es[..|es| - 1], n, schema, now);
    }
  }

  predicate Allowed(schema: Schema, lhs: ValueExpr, op: CompareOp) {
    lhs.FieldRef? ==>
      var f := ResolveAlias(schema, lhs.name);
      f.Some? && (f.value.allowedOps.Some? ==> op in f.value.allowedOps.value)
  }

  function BuildComparison(op: CompareOp, args: seq<Expr>, schema: Schema, now: Int64): Option<Condition> {
    if |args| != 2 then None
    else
      var l, r := BuildValue(args[0], schema, now), BuildValue(args[1], schema, now);
      if l.Some? && r.Some? && Allowed(schema, l.value, op) then Some(Comparison(l.value, op, r.value)) else None
  }

  /** `name in [...]`, or else `element in name`. */
  function BuildIn(args: seq<Expr>, schema: Schema, now: Int64): Option<Condition> {
    if |args| != 2 then None
    else if args[0].Ident? && ResolveAlias(schema, args[0].name).None? then None
    else if args[0].Ident? && args[1].ListE? then
      var values := BuildValues(args[1].elements, schema, now);
      if values.Some? then Some(In(FieldRef(args[0].name), values.value)) else None
    else if args[1].Ident? && args[1].name in schema then
      var element := BuildValue(args[0], schema, now);
      if element.Some? then Some(ElementIn(element.value, args[1].name)) else None
    else None
  }

  function BuildContains(target: Option<Expr>, args: seq<Expr>, schema: Schema): Option<Condition> {
    if target.Some? && target.value.Ident? && target.value.name in schema && schema[target.value.name].supportsContains
       && |args| == 1 && args[0].ConstE? && args[0].c.CString?
    then Some(ContainsText(target.value.name, args[0].c.s))
    else None
  }

  predicate IsVar(e: Expr, iterVar: string) {
    e.Ident? && e.name == iterVar
  }

  predicate IsString(e: Expr) {
    e.ConstE? && e.c.CString?
  }

  /** The predicate of an exists(): the second operand of the loop step. */
  function BuildPredicate(e: Expr, iterVar: string): Option<TagPredicate> {
    if !e.Apply? then None
    else if e.fn == CompareFn(Eq) then
      if |e.args| != 2 then None
      else if IsVar(e.args[0], iterVar) then (if IsString(e.args[1]) then Some(Equals(e.args[1].c.s)) else None)
      else if IsVar(e.args[1], iterVar) && IsString(e.args[0]) then Some(Equals(e.args[0].c.s))
      else None
    else if e.target.Some? && IsVar(e.target.value, iterVar) && |e.args| == 1 && IsString(e.args[0]) then
      var s := e.args[0].c.s;
      if e.fn.StartsWithFn? then Some(StartsWith(s))
      else if e.fn.EndsWithFn? then Some(EndsWith(s))
      else if e.fn.ContainsFn? then Some(Contains(s))
      else None
    else None
  }

  /** Only exists() is supported: it starts from false and steps with "or". */
  function BuildExists(iterVar: string, range: Expr, init: Expr, step: Expr, schema: Schema): Option<Condition> {
    if !(init.ConstE? && init.c != CBool(true) && step.Apply? && step.fn.OrFn?) then None
    else if !(range.Ident? && range.name in schema && schema[range.name].kind == JSONList) then None
    else if |step.args| != 2 then None
    else
      var p := BuildPredicate(step.args[1], iterVar);
      if p.Some? then Some(Exists(range.name, p.value)) else None
  }

  function Build(e: Expr, schema: Schema, now: Int64): Option<Condition> {
    match e
    case ConstE(c) => if c.CBool? then Some(Constant(c.b)) else None
    case Ident(name) => if name in schema && schema[name].typ == BoolType then Some(FieldPredicate(name)) else None
    case Comprehension(iterVar, range, _, init, step) => BuildExists(iterVar, range, init, step, schema)
    case Apply(fn, target, args) =>
      (match fn
       case AndFn =>
         if |args| != 2 then None
         else
           var l, r := Build(args[0], schema, now), Build(args[1], schema, now);
           if l.Some? && r.Some? then Some(Logical(LogicalAnd, l.value, r.value)) else None
       case OrFn =>
         if |args| != 2 then None
         else
           var l, r := Build(args[0], schema, now), Build(args[1], schema, now);
           if l.Some? && r.Some? then Some(Logical(LogicalOr, l.value, r.value)) else None
       case NotFn =>
         if |args| != 1 then None
         else
           var x := Build(args[0], schema, now);
           if x.Some? then Some(Not(x.value)) else None
       case CompareFn(op) => BuildComparison(op, args, schema, now)
       case InFn => BuildIn(args, schema, now)
       case ContainsFn => BuildContains(target, args, schema)
       case _ => None)
    case _ => None
  }

  // ---------- what an expression means ----------

  /** Values: numbers are exact here; `Missing` is a field that is NULL, `Null` the literal. */
  datatype V = VStr(s: string) | VNum(n: int) | VFrac(r: real) | VBool(b: bool) | Missing | Null | Ill

  /** A numeric expression's exact value; none if it has a fractional literal, or is no such expression. */
  function Exact(e: Expr, now: Int64): Option<int> {
    match e
    case ConstE(CInt(i)) => Some(i)
    case ConstE(CUint(n)) => Some(n)
    case ConstE(CDouble(r)) => if r.Floor as real == r then Some(r.Floor) else None
    case Apply(fn, _, args) =>
      if fn.NowFn? then Some(now)
      else if !Arithmetic(fn) || |args| != 2 then None
      else
        var x, y := Exact(args[0], now), Exact(args[1], now);
        if x.Some? && y.Some? then Some(Operate(fn, x.value, y.value)) else None
    case _ => None
  }

  function ValueOf(v: Option<FilterIR.Value>): V {
    match v
    case None => Missing
    case Some(Str(s)) => VStr(s)
    case Some(Int(i)) => VNum(i)
    case Some(Bool(b)) => VBool(b)
  }

  /** On SQLite a missing flag is false, except has_task_list. */
  function NameValue(name: string, schema: Schema, d: Dialect, row: Row): V {
    if name !in schema then Ill
    else
      var f := schema[name];
      match f.kind
      case Scalar => ValueOf(FieldValue(row, f, d))
      case BoolColumn => ValueOf(ColumnValue(row, f.column, Bare))
      case JSONBool =>
        if d == SQLite && f.name != "has_task_list" && Flag(row, f).None? then VBool(false) else ValueOf(Flag(row, f))
      case _ => Ill
  }

  function ExprValue(e: Expr, schema: Schema, d: Dialect, row: Row, now: Int64): V {
    match e
    case Ident(name) => NameValue(name, schema, d, row)
    case ConstE(CString(s)) => VStr(s)
    case ConstE(CBool(b)) => VBool(b)
    case ConstE(CNull) => Null
    case ConstE(CDouble(r)) => if r.Floor as real == r then VNum(r.Floor) else VFrac(r)
    case Apply(NotFn, _, args) =>
      if |args| != 1 then Ill
      else
        var x := ExprValue(args[0], schema, d, row, now);
        if x.VBool? then VBool(!x.b) else Ill
    case Apply(SizeFn, _, args) =>
      if |args| == 1 && args[0].Ident? && args[0].name in schema then
        var tags := Tags(row, Ref(schema[args[0].name]));
        VNum(if tags.None? then 0 else |tags.value|)
      else Ill
    case _ => if Exact(e, now).Some? then VNum(Exact(e, now).value) else Ill
  }

  /** A comparison of values in three-valued logic. */
  function Relation(op: CompareOp, a: V, b: V): TV {
    match (a, b)
    case (Ill, _) => Unknown
    case (_, Null) => if op == Eq || op == Neq then Truth((a == Missing) == (op == Eq)) else Unknown
    case (VNum(x), VNum(y)) => Truth(Holds(op, IntOrder(x, y)))
    case (VNum(x), VFrac(r)) => Truth(HoldsReal(op, x, r))
    case (VStr(x), VStr(y)) => Truth(Holds(op, StringOrder(x, y)))
    case (VBool(x), VBool(y)) => Truth(Holds(op, IntOrder(if x then 1 else 0, if y then 1 else 0)))
    case _ => Unknown
  }

  /** `name in [...]`: equal to one of them; for `tag`, some tag is one of them or below one. */
  function AmongMeans(name: string, es: seq<Expr>, schema: Schema, d: Dialect, row: Row, now: Int64): TV {
    if es == [] then False
    else
      var v := ExprValue(es[|es| - 1], schema, d, row, now);
      Or3(AmongMeans(name, es[..|es| - 1], schema, d, row, now),
          if name == "tag" then TagMeans(schema, d, row, v) else Relation(Eq, NameValue(name, schema, d, row), v))
  }

  function TagMeans(schema: Schema, d: Dialect, row: Row, v: V): TV {
    var f := ResolveAlias(schema, "tag");
    if f.None? || !v.VStr? then Unknown
    else
      var tags := Tags(row, Ref(f.value));
      if tags.None? then Unknown else Truth(IsTagOrChild(d, tags.value, v.s))
  }

  function InMeans(args: seq<Expr>, schema: Schema, d: Dialect, row: Row, now: Int64): TV {
    if |args| != 2 then Unknown
    else if args[0].Ident? && args[1].ListE? then AmongMeans(args[0].name, args[1].elements, schema, d, row, now)
    else if args[1].Ident? && args[1].name in schema then
      var v := ExprValue(args[0], schema, d, row, now);
      var tags := Tags(row, Ref(schema[args[1].name]));
      if tags.None? || !v.VStr? then Unknown else Truth(IsTag(d, tags.value, v.s))
    else Unknown
  }

  /** A text occurs in a value, up to ASCII case. */
  function Containing(v: Option<FilterIR.Value>, text: string): TV {
    match v
    case Some(Str(s)) => Truth(Like.Occurs(ToLower(text), ToLower(s)))
    case _ => Unknown
  }

  /** `field.contains(text)`. */
  function ContainsMeans(target: Option<Expr>, args: seq<Expr>, schema: Schema, d: Dialect, row: Row): TV {
    if target.Some? && target.value.Ident? && target.value.name in schema && |args| == 1 && IsString(args[0]) then
      Containing(FieldValue(row, schema[target.value.name], d), args[0].c.s)
    else Unknown
  }

  /** A string in a loop step: a literal, or the iteration variable. */
  function StepString(e: Expr, iterVar: string, t: string): Option<string> {
    match e
    case ConstE(CString(s)) => Some(s)
    case Ident(name) => if name == iterVar then Some(t) else None
    case _ => None
  }

  /** One loop step on a tag `t`, with the accumulator's value. Tags compare as the dialect compares them. */
  predicate StepHolds(e: Expr, iterVar: string, accuVar: string, d: Dialect, t: string, accu: bool) {
    match e
    case Ident(name) => name == accuVar && accu
    case Apply(OrFn, _, args) =>
      |args| == 2 &&
      (StepHolds(args[0], iterVar, accuVar, d, t, accu) || StepHolds(args[1], iterVar, accuVar, d, t, accu))
    case Apply(CompareFn(Eq), _, args) =>
      |args| == 2 &&
      var x, y := StepString(args[0], iterVar, t), StepString(args[1], iterVar, t);
      x.Some? && y.Some? && Fold(d, x.value) == Fold(d, y.value)
    case Apply(fn, target, args) =>
      target.Some? && |args| == 1 &&
      var x, y := StepString(target.value, iterVar, t), StepString(args[0], iterVar, t);
      x.Some? && y.Some? &&
      if fn.StartsWithFn? then Fold(d, y.value) <= Fold(d, x.value)
      else if fn.EndsWithFn? then Like.EndsWith(Fold(d, x.value), Fold(d, y.value))
      else fn.ContainsFn? && Like.Occurs(Fold(d, y.value), Fold(d, x.value))
    case _ => false
  }

  /** The comprehension: the step applied to tag after tag. */
  predicate Loop(step: Expr, iterVar: string, accuVar: string, d: Dialect, tags: seq<string>, accu: bool) {
    if tags == [] then accu
    else
      var n := |tags| - 1;
      StepHolds(step, iterVar, accuVar, d, tags[n], Loop(step, iterVar, accuVar, d, tags[..n], accu))
  }

  /** What an expression says of a row. A list that is NULL has no elements to loop over. */
  function Says(e: Expr, schema: Schema, d: Dialect, row: Row, now: Int64): TV {
    match e
    case ConstE(CBool(b)) => Truth(b)
    case Ident(name) => Truth(NameValue(name, schema, d, row) == VBool(true))
    case Comprehension(iterVar, range, accuVar, init, step) =>
      if range.Ident? && range.name in schema then
        var tags := Tags(row, Ref(schema[range.name]));
        Truth(Loop(step, iterVar, accuVar, d, if tags.None? then [] else tags.value, init == ConstE(CBool(true))))
      else Unknown
    case Apply(AndFn, _, args) =>
      if |args| == 2 then And3(Says(args[0], schema, d, row, now), Says(args[1], schema, d, row, now)) else Unknown
    case Apply(OrFn, _, args) =>
      if |args| == 2 then Or3(Says(args[0], schema, d, row, now), Says(args[1], schema, d, row, now)) else Unknown
    case Apply(NotFn, _, args) => if |args| == 1 then Not3(Says(args[0], schema, d, row, now)) else Unknown
    case Apply(CompareFn(op), _, args) =>
      if |args| == 2 then
        Relation(op, ExprValue(args[0], schema, d, row, now), ExprValue(args[1], schema, d, row, now))
      else Unknown
    case Apply(InFn, _, args) => InMeans(args, schema, d, row, now)
    case Apply(ContainsFn, target, args) => ContainsMeans(target, args, schema, d, row)
    case _ => Unknown
  }

  // ---------- constants are worked out right ----------

  lemma WrapShift(x: int, k: int)
    ensures Wrap(x + k * 0x1_0000_0000_0000_0000) == Wrap(x)
  {
    var m := 0x1_0000_0000_0000_0000;
    var y := x + 0x8000_0000_0000_0000;
    assert (y + k * m) % m == y % m;
  }

  lemma WrapIs(x: int) returns (k: int)
    ensures Wrap(x) == x + k * 0x1_0000_0000_0000_0000
  {
    k := -((x + 0x8000_0000_0000_0000) / 0x1_0000_0000_0000_0000);
  }

  lemma ProductShift(x: int, y: int, k: int, l: int, m: int)
    ensures (x + k * m) * (y + l * m) == x * y + (k * y + l * x + k * l * m) * m
  {
    calc {
      (x + k * m) * (y + l * m);
      x * (y + l * m) + (k * m) * (y + l * m);
      x * y + x * (l * m) + (k * m) * y + (k * m) * (l * m);
      {
        assert x * (l * m) == (l * x) * m;
        assert (k * m) * y == (k * y) * m;
        assert (k * m) * (l * m) == (k * l * m) * m;
      }
      x * y + (l * x) * m + (k * y) * m + (k * l * m) * m;
      x * y + (k * y + l * x + k * l * m) * m;
    }
  }

  /** Wrapping the operands first makes no difference. */
  lemma WrapOperate(fn: Fn, x: int, y: int)
    ensures Wrap(Operate(fn, Wrap(x), Wrap(y))) == Wrap(Operate(fn, x, y))
  {
    var m := 0x1_0000_0000_0000_0000;
    var k := WrapIs(x);
    var l := WrapIs(y);
    if fn.AddFn? {
      assert Wrap(x) + Wrap(y) == x + y + (k + l) * m;
      WrapShift(x + y, k + l);
    } else if fn.SubFn? {
      assert Wrap(x) - Wrap(y) == x - y + (k - l) * m;
      WrapShift(x - y, k - l);
    } else {
      ProductShift(x, y, k, l, m);
      WrapShift(x * y, k * y + l * x + k * l * m);
    }
  }

  lemma WholeTruncates(r: real)
    requires r.Floor as real == r
    ensures Truncate(r) == r.Floor
  {
    if r < 0.0 {
      assert (-r).Floor == -(r.Floor);
    }
  }

  /** Over whole literals the result is the exact value in 64 bits. */
  lemma {:induction false} NumericWraps(e: Expr, now: Int64)
    requires Exact(e, now).Some?
    ensures EvaluateNumeric(e, now) == Value(Wrap(Exact(e, now).value))
  {
    hide Wrap, Operate;
    match e
    case ConstE(CInt(i)) => WrapInRange(i);
    case ConstE(CDouble(r)) => WholeTruncates(r);
    case Apply(fn, _, args) =>
      if fn.NowFn? {
        WrapInRange(now);
      } else {
        NumericWraps(args[0], now);
        NumericWraps(args[1], now);
        WrapOperate(fn, Exact(args[0], now).value, Exact(args[1], now).value);
      }
    case _ =>
  }

  lemma WrapInRange(x: int)
    ensures Wrap(x) == x <==> InRange(x)
  {
  }

  /** It is right exactly when the exact value fits, however large the values in between. */
  lemma NumericExactly(e: Expr, now: Int64)
    requires Exact(e, now).Some?
    ensures EvaluateNumeric(e, now) == Value(Exact(e, now).value) <==> InRange(Exact(e, now).value)
  {
    NumericWraps(e, now);
    WrapInRange(Exact(e, now).value);
    hide Wrap;
  }

  lemma TruncatesBetween(r: real)
    requires r.Floor as real != r
    ensures if r > 0.0 then Truncate(r) as real < r < (Truncate(r) + 1) as real
            else (Truncate(r) - 1) as real < r < Truncate(r) as real
  {
    if r < 0.0 {
      assert Truncate(r) == -((-r).Floor);
    }
  }

  /** Comparing an integer with the fraction cut off toward zero is comparing it with the fraction. */
  predicate CutsRight(op: CompareOp, r: real) {
    if r > 0.0 then op == Gt || op == Lte else op == Lt || op == Gte
  }

  lemma AgreesWithin(op: CompareOp, r: real, t: int, x: int)
    requires if r > 0.0 then t as real < r < (t + 1) as real else (t - 1) as real < r < t as real
    requires CutsRight(op, r)
    ensures Holds(op, IntOrder(x, t)) == HoldsReal(op, x, r)
  {
  }

  /** An integer field compared with a fraction is compared with the truncated literal, which is the same
      only for some operators: never for equality. */
  lemma TruncationExactly(op: CompareOp, r: real)
    requires r.Floor as real != r
    ensures (forall x: int :: Holds(op, IntOrder(x, Truncate(r))) == HoldsReal(op, x, r)) <==> CutsRight(op, r)
  {
    TruncatesBetween(r);
    var t := Truncate(r);
    hide Truncate;
    if CutsRight(op, r) {
      forall x: int ensures Holds(op, IntOrder(x, t)) == HoldsReal(op, x, r) {
        AgreesWithin(op, r, t, x);
      }
    } else {
      assert Holds(op, IntOrder(t, t)) != HoldsReal(op, t, r);
    }
  }

  /** `x == 1.5` holds of 1 once the fraction is cut off. */
  lemma HalfExample()
    ensures Holds(Eq, IntOrder(1, Truncate(1.5))) && !HoldsReal(Eq, 1, 1.5)
  {
    assert 1.5.Floor == 1;
  }

  /** 9223372036854775807 + 1 comes out as -9223372036854775808. */
  lemma WrapExample(now: Int64)
    ensures var e := Apply(AddFn, None, [ConstE(CInt(0x7fff_ffff_ffff_ffff)), ConstE(CInt(1))]);
            && Exact(e, now) == Some(0x8000_0000_0000_0000)
            && EvaluateNumeric(e, now) == Value(-0x8000_0000_0000_0000)
  {
    var a, b := ConstE(CInt(0x7fff_ffff_ffff_ffff)), ConstE(CInt(1));
    assert Exact(a, now) == Some(0x7fff_ffff_ffff_ffff) && Exact(b, now) == Some(1);
    NumericWraps(Apply(AddFn, None, [a, b]), now);
  }

  predicate HoldsReal(op: CompareOp, x: int, r: real) {
    match op
    case Eq => x as real == r
    case Neq => x as real != r
    case Lt => x as real < r
    case Lte => x as real <= r
    case Gt => x as real > r
    case Gte => x as real >= r
  }

  // ---------- building preserves meaning ----------

  /** A number is used as it stands: no fraction, and within 64 bits. */
  predicate WholeNumber(e: Expr, now: Int64) {
    EvaluateNumeric(e, now).Value? ==> Exact(e, now).Some? && InRange(Exact(e, now).value)
  }

  /** A fraction that cutting off does no harm to. */
  predicate HarmlessFraction(op: CompareOp, e: Expr) {
    e.ConstE? && e.c.CDouble? && e.c.r.Floor as real != e.c.r && CutsRight(op, e.c.r)
  }

  predicate WholeNumbers(es: seq<Expr>, now: Int64) {
    es != [] ==> WholeNumbers(es[..|es| - 1], now) && WholeNumber(es[|es| - 1], now)
  }

  /** The loop step of an exists(): the accumulator, or the predicate. */
  predicate StepOfExists(iterVar: string, accuVar: string, step: Expr) {
    iterVar != accuVar && step.Apply? && |step.args| == 2 && IsVar(step.args[0], accuVar)
  }

  /** Numbers are whole, or fractions that may be cut off; LIKE takes the texts searched for as they stand, and
      comprehensions have the form the exists() macro gives them. */
  predicate Regular(e: Expr, d: Dialect, now: Int64) {
    match e
    case Comprehension(iterVar, _, accuVar, _, step) => StepOfExists(iterVar, accuVar, step)
    case Apply(fn, _, args) =>
      if fn.AndFn? || fn.OrFn? then |args| == 2 ==> Regular(args[0], d, now) && Regular(args[1], d, now)
      else if fn.NotFn? then |args| == 1 ==> Regular(args[0], d, now)
      else if fn.CompareFn? then |args| == 2 ==> WholeNumber(args[1], now) || HarmlessFraction(fn.op, args[1])
      else if fn.InFn? then |args| == 2 && args[1].ListE? ==> WholeNumbers(args[1].elements, now)
      else if fn.ContainsFn? then |args| == 1 && IsString(args[0]) ==> !Like.Wild(args[0].c.s, d != SQLite)
      else true
    case _ => true
  }

  function LiteralValue(l: Literal): V {
    match l
    case LStr(s) => VStr(s)
    case LInt(i) => VNum(i)
    case LFloat(r) => if r.Floor as real == r then VNum(r.Floor) else VFrac(r)
    case LBool(b) => VBool(b)
    case LNull => Null
  }

  lemma {:induction false} BoolPreserved(e: Expr, schema: Schema, d: Dialect, row: Row, now: Int64)
    requires EvaluateBool(e).Value?
    ensures ExprValue(e, schema, d, row, now) == VBool(EvaluateBool(e).v)
  {
    match e
    case Apply(NotFn, _, args) => BoolPreserved(args[0], schema, d, row, now);
    case _ =>
  }

  /** A literal stands for the value of the expression it was worked out from. */
  lemma LiteralPreserved(e: Expr, schema: Schema, d: Dialect, row: Row, now: Int64)
    requires BuildValue(e, schema, now).Some? && BuildValue(e, schema, now).value.Lit?
    requires WholeNumber(e, now) || (e.ConstE? && e.c.CDouble?)
    ensures ExprValue(e, schema, d, row, now) == LiteralValue(BuildValue(e, schema, now).value.value)
    ensures WholeNumber(e, now) && BuildValue(e, schema, now).value.value.LFloat? ==>
              var r := BuildValue(e, schema, now).value.value.r; r.Floor as real == r
  {
    if e.ConstE? {
      if e.c.CUint? {
        NumericExactly(e, now);
      }
      hide Wrap, Truncate;
    } else if EvaluateNumeric(e, now).Value? {
      NumericExactly(e, now);
      hide EvaluateBool, Wrap;
    } else {
      BoolPreserved(e, schema, d, row, now);
    }
  }

  lemma ScalarPreserved(schema: Schema, d: Dialect, name: string, op: CompareOp, l: Literal, row: Row)
    requires AcceptedComparison(schema, d, FieldRef(name), op, Lit(l)) && schema[name].kind == Scalar
    requires FloatFits(op, l)
    ensures ComparisonMeaning(schema, d, FieldRef(name), op, Lit(l), row) ==
            Relation(op, NameValue(name, schema, d, row), LiteralValue(l))
  {
    FloatCompares(op, l);
    hide StringOrder, Truncate, ColumnValue, Holds, HoldsReal, Flag, CutsRight;
  }

  /** A floating-point literal is whole, or may be cut off. */
  predicate FloatFits(op: CompareOp, l: Literal) {
    l.LFloat? ==> l.r.Floor as real == l.r || CutsRight(op, l.r)
  }

  lemma FloatCompares(op: CompareOp, l: Literal)
    requires FloatFits(op, l)
    ensures l.LFloat? && l.r.Floor as real == l.r ==> Truncate(l.r) == l.r.Floor
    ensures l.LFloat? && l.r.Floor as real != l.r ==>
              forall x: int :: Holds(op, IntOrder(x, Truncate(l.r))) == HoldsReal(op, x, l.r)
  {
    if l.LFloat? {
      if l.r.Floor as real == l.r {
        WholeTruncates(l.r);
      } else {
        TruncationExactly(op, l.r);
      }
    }
  }

  lemma FieldPreserved(schema: Schema, d: Dialect, name: string, op: CompareOp, l: Literal, row: Row)
    requires AcceptedComparison(schema, d, FieldRef(name), op, Lit(l)) && FloatFits(op, l)
    ensures ComparisonMeaning(schema, d, FieldRef(name), op, Lit(l), row) ==
            Relation(op, NameValue(name, schema, d, row), LiteralValue(l))
  {
    if schema[name].kind == Scalar {
      ScalarPreserved(schema, d, name, op, l, row);
      hide ComparisonMeaning, NameValue, Relation, LiteralValue;
    }
    hide StringOrder, Truncate, Converted, Comparable, HoldsReal;
  }

  lemma SizePreserved(schema: Schema, d: Dialect, arg: Expr, op: CompareOp, l: Literal, row: Row, now: Int64)
    requires arg.Ident? && AcceptedComparison(schema, d, Call("size", [FieldRef(arg.name)]), op, Lit(l))
    requires FloatFits(op, l)
    ensures ComparisonMeaning(schema, d, Call("size", [FieldRef(arg.name)]), op, Lit(l), row) ==
            Relation(op, ExprValue(Apply(SizeFn, None, [arg]), schema, d, row, now), LiteralValue(l))
  {
    FloatCompares(op, l);
    hide StringOrder, Truncate, Exact, Holds, HoldsReal, CutsRight;
  }

  lemma ComparisonPreserved(op: CompareOp, args: seq<Expr>, schema: Schema, d: Dialect, row: Row, now: Int64)
    requires BuildComparison(op, args, schema, now).Some?
    requires WholeNumber(args[1], now) || HarmlessFraction(op, args[1])
    requires Accepted(schema, d, BuildComparison(op, args, schema, now).value)
    ensures Meaning(schema, d, BuildComparison(op, args, schema, now).value, row) ==
            Relation(op, ExprValue(args[0], schema, d, row, now), ExprValue(args[1], schema, d, row, now))
  {
    var l, r := BuildValue(args[0], schema, now).value, BuildValue(args[1], schema, now).value;
    LiteralPreserved(args[1], schema, d, row, now);
    assert FloatFits(op, r.value);
    hide FloatFits, HarmlessFraction, CutsRight;
    hide WholeNumber, Exact, EvaluateNumeric, EvaluateBool, Allowed, ConstValue;
    if l.FieldRef? {
      BuiltName(args[0], schema, now);
      hide BuildValue;
      FieldPreserved(schema, d, l.name, op, r.value, row);
    } else {
      BuiltSize(args[0], schema, d, row, now);
      hide BuildValue;
      SizePreserved(schema, d, args[0].args[0], op, r.value, row, now);
    }
    hide ComparisonMeaning, AcceptedComparison, Relation, NameValue;
  }

  /** A field that may be compared with a fraction is compared right on every row exactly if cutting the
      fraction off does no harm. */
  lemma FractionExactly(schema: Schema, d: Dialect, name: string, op: CompareOp, r: real)
    requires AcceptedComparison(schema, d, FieldRef(name), op, Lit(LFloat(r))) && schema[name].kind == Scalar
    requires r.Floor as real != r
    ensures (forall row :: ComparisonMeaning(schema, d, FieldRef(name), op, Lit(LFloat(r)), row) ==
                           Relation(op, NameValue(name, schema, d, row), LiteralValue(LFloat(r))))
            <==> CutsRight(op, r)
  {
    if CutsRight(op, r) {
      forall row ensures ComparisonMeaning(schema, d, FieldRef(name), op, Lit(LFloat(r)), row) ==
                         Relation(op, NameValue(name, schema, d, row), LiteralValue(LFloat(r)))
      {
        FieldPreserved(schema, d, name, op, LFloat(r), row);
      }
    } else {
      TruncationExactly(op, r);
      hide Truncate, CutsRight;
      var x: int :| Holds(op, IntOrder(x, Truncate(r))) != HoldsReal(op, x, r);
      var row := Row(map[schema[name].column := Int(x)], map[], map[]);
      hide Holds, HoldsReal;
      assert ComparisonMeaning(schema, d, FieldRef(name), op, Lit(LFloat(r)), row) ==
             Truth(Holds(op, IntOrder(x, Truncate(r))));
      assert Relation(op, NameValue(name, schema, d, row), VFrac(r)) == Truth(HoldsReal(op, x, r));
    }
  }

  lemma BuiltName(e: Expr, schema: Schema, now: Int64)
    requires BuildValue(e, schema, now).Some? && BuildValue(e, schema, now).value.FieldRef?
    ensures e == Ident(BuildValue(e, schema, now).value.name)
  {
  }

  lemma BuiltSize(e: Expr, schema: Schema, d: Dialect, row: Row, now: Int64)
    requires BuildValue(e, schema, now).Some?
    requires BuildValue(e, schema, now).value.Call? && |BuildValue(e, schema, now).value.args| == 1
    requires BuildValue(e, schema, now).value.args[0].FieldRef?
    ensures e.Apply? && |e.args| == 1 && e.args[0].Ident?
    ensures BuildValue(e, schema, now).value == Call("size", [FieldRef(e.args[0].name)])
    ensures ExprValue(e, schema, d, row, now) == ExprValue(Apply(SizeFn, None, [e.args[0]]), schema, d, row, now)
  {
    BuiltName(e.args[0], schema, now);
  }

  lemma {:induction false} AmongPreserved(name: string, es: seq<Expr>, schema: Schema, d: Dialect, row: Row, now: Int64)
    requires BuildValues(es, schema, now).Some? && WholeNumbers(es, now)
    requires AcceptedIn(schema, FieldRef(name), BuildValues(es, schema, now).value)
    ensures Meaning(schema, d, In(FieldRef(name), BuildValues(es, schema, now).value), row) ==
            AmongMeans(name, es, schema, d, row, now)
  {
    hide BuildValue, WholeNumber, ExprValue;
    if es != [] {
      var front, last := es[..|es| - 1], es[|es| - 1];
      var vs, v := BuildValues(front, schema, now).value, BuildValue(last, schema, now).value;
      var all := BuildValues(es, schema, now).value;
      assert all == vs + [v] && all[..|all| - 1] == vs && v in all;
      assert forall w <- vs :: w in all;
      LiteralPreserved(last, schema, d, row, now);
      AmongPreserved(name, front, schema, d, row, now);
      if name == "tag" {
      } else {
        ElementPreserved(schema, d, name, v.value, row);
      }
      hide BuildValues, WholeNumbers, NameValue, Relation, TagMeans;
    }
  }

  lemma ElementPreserved(schema: Schema, d: Dialect, name: string, l: Literal, row: Row)
    requires name in schema && schema[name].kind == Scalar && Listable(schema[name].typ, Lit(l))
    requires l.LFloat? ==> l.r.Floor as real == l.r
    ensures Compare(Eq, FieldValue(row, schema[name], d), Converted(schema[name].typ, l)) ==
            Relation(Eq, NameValue(name, schema, d, row), LiteralValue(l))
  {
    if l.LFloat? {
      WholeTruncates(l.r);
    }
    hide StringOrder, Truncate;
  }

  lemma InPreserved(args: seq<Expr>, schema: Schema, d: Dialect, row: Row, now: Int64)
    requires BuildIn(args, schema, now).Some? && (args[1].ListE? ==> WholeNumbers(args[1].elements, now))
    requires Accepted(schema, d, BuildIn(args, schema, now).value)
    ensures Meaning(schema, d, BuildIn(args, schema, now).value, row) == InMeans(args, schema, d, row, now)
  {
    if args[0].Ident? && args[1].ListE? {
      hide BuildValue, BuildValues, WholeNumbers, ExprValue;
      AmongPreserved(args[0].name, args[1].elements, schema, d, row, now);
    } else {
      StringPreserved(args[0], schema, d, row, now);
      hide BuildValue, ExprValue;
    }
  }

  lemma StringPreserved(e: Expr, schema: Schema, d: Dialect, row: Row, now: Int64)
    requires BuildValue(e, schema, now).Some?
    ensures BuildValue(e, schema, now).value.Lit? && BuildValue(e, schema, now).value.value.LStr? ==>
              ExprValue(e, schema, d, row, now) == VStr(BuildValue(e, schema, now).value.value.s)
  {
  }

  lemma ContainsPattern(text: string)
    ensures ToLower("%" + text + "%") == "%" + ToLower(text) + "%"
  {
    LowerConcat("%", text);
    LowerConcat("%" + text, "%");
    assert ToLower("%") == "%";
  }

  lemma ContainsPreserved(d: Dialect, v: Option<FilterIR.Value>, text: string)
    requires !Like.Wild(text, d != SQLite)
    ensures ContainsMeaning(d, v, text) == Containing(v, text)
  {
    match v
    case Some(Str(s)) =>
      LikeExact.LowerWild(text, d != SQLite);
      ContainsPattern(text);
      hide ToLower, Like.Like, Like.Wild;
      Like.LikeInfix(ToLower(text), ToLower(s), d != SQLite);
    case _ =>
  }

  /** contains() means that the text occurs, whatever the field holds, exactly when LIKE takes the text as it
      stands: no `%` and no `_`, and outside SQLite no backslash. */
  lemma ContainsExactly(d: Dialect, text: string)
    ensures (forall v :: ContainsMeaning(d, v, text) == Containing(v, text)) <==> !Like.Wild(text, d != SQLite)
  {
    if Like.Wild(text, d != SQLite) {
      var s := WildContains(d, text);
      assert ContainsMeaning(d, Some(Str(s)), text) != Containing(Some(Str(s)), text);
    } else {
      forall v ensures ContainsMeaning(d, v, text) == Containing(v, text) {
        ContainsPreserved(d, v, text);
      }
    }
  }

  lemma WildContains(d: Dialect, text: string) returns (s: string)
    requires Like.Wild(text, d != SQLite)
    ensures s == LikeExact.Sample(ToLower(text), d != SQLite)
    ensures ContainsMeaning(d, Some(Str(s)), text) == True && Containing(Some(Str(s)), text) == False
  {
    hide Like.Like, Like.Wild, Like.Occurs, LikeExact.Sample;
    var q, escape := ToLower(text), d != SQLite;
    s := LikeExact.Sample(q, escape);
    LowerHasNoCapitals(text);
    hide ToLower;
    LikeExact.LowerWild(text, escape);
    ContainsPattern(text);
    LikeExact.SampleLower(q, escape);
    LowerFixed(s);
    LikeExact.SampleFound(q, escape);
  }

  /** `content.contains("100%")` also finds the content "100x". */
  lemma PercentExample(d: Dialect)
    ensures ContainsMeaning(d, Some(Str("100x")), "100%") == True && Containing(Some(Str("100x")), "100%") == False
  {
    hide Like.Like, Like.Occurs, ContainsMeaning, Containing;
    var text, escape := "100%", d != SQLite;
    assert text[3] == '%';
    assert ToLower(text) == text;
    var s := WildContains(d, text);
    assert text == "100" + "%";
    LikeExact.SampleConcat("100", "%", escape);
    LikeExact.SampleTame("100", escape);
    assert LikeExact.Sample("%", escape) == "x" by { assert "x" + "" == "x"; }
    assert "100" + "x" == "100x";
  }

  // ---------- exists() is its loop ----------

  predicate TagHolds(d: Dialect, p: TagPredicate, t: string) {
    match p
    case Equals(v) => Fold(d, t) == Fold(d, v)
    case StartsWith(x) => Fold(d, x) <= Fold(d, t)
    case EndsWith(x) => Like.EndsWith(Fold(d, t), Fold(d, x))
    case Contains(x) => Like.Occurs(Fold(d, x), Fold(d, t))
  }

  lemma PredicatePreserved(e: Expr, iterVar: string, accuVar: string, d: Dialect, t: string, accu: bool)
    requires BuildPredicate(e, iterVar).Some?
    ensures StepHolds(e, iterVar, accuVar, d, t, accu) == TagHolds(d, BuildPredicate(e, iterVar).value, t)
  {
    hide Fold;
  }

  lemma {:induction false} LoopPreserved(iterVar: string, accuVar: string, step: Expr, d: Dialect, tags: seq<string>)
    requires StepOfExists(iterVar, accuVar, step) && step.fn.OrFn? && BuildPredicate(step.args[1], iterVar).Some?
    ensures Loop(step, iterVar, accuVar, d, tags, false) ==
            SomeTag(d, tags, BuildPredicate(step.args[1], iterVar).value)
  {
    var p := BuildPredicate(step.args[1], iterVar).value;
    if tags != [] {
      var front, t := tags[..|tags| - 1], tags[|tags| - 1];
      var before := Loop(step, iterVar, accuVar, d, front, false);
      LoopPreserved(iterVar, accuVar, step, d, front);
      assert StepHolds(step.args[0], iterVar, accuVar, d, t, before) == before;
      PredicatePreserved(step.args[1], iterVar, accuVar, d, t, before);
      hide BuildPredicate;
      assert StepHolds(step, iterVar, accuVar, d, t, before) == (before || TagHolds(d, p, t));
      hide StepHolds;
      SomeTagNext(d, front, t, p);
      assert tags == front + [t];
      hide SomeTag, TagHolds;
    } else {
      hide StepHolds, BuildPredicate;
    }
  }

  lemma SomeTagNext(d: Dialect, tags: seq<string>, t: string, p: TagPredicate)
    ensures SomeTag(d, tags + [t], p) == (SomeTag(d, tags, p) || TagHolds(d, p, t))
  {
    hide Fold;
    assert forall u <- tags + [t] :: u in tags || u == t;
    assert t in tags + [t] && forall u <- tags :: u in tags + [t];
  }

  lemma ExistsPreserved(iterVar: string, range: Expr, accuVar: string, init: Expr, step: Expr, schema: Schema,
                        d: Dialect, row: Row, now: Int64)
    requires BuildExists(iterVar, range, init, step, schema).Some? && StepOfExists(iterVar, accuVar, step)
    ensures Accepted(schema, d, BuildExists(iterVar, range, init, step, schema).value)
    ensures Meaning(schema, d, BuildExists(iterVar, range, init, step, schema).value, row) ==
            Says(Comprehension(iterVar, range, accuVar, init, step), schema, d, row, now)
  {
    hide BuildPredicate, Loop, SomeTag;
    var tags := Tags(row, Ref(schema[range.name]));
    LoopPreserved(iterVar, accuVar, step, d, if tags.None? then [] else tags.value);
    NoTags(d, BuildPredicate(step.args[1], iterVar).value);
  }

  lemma NoTags(d: Dialect, p: TagPredicate)
    ensures !SomeTag(d, [], p)
  {
  }

  // ---------- the whole tree ----------

  /** The tree built from a regular expression means on every row what the expression says of it, wherever
      the renderer accepts the tree. */
  lemma {:induction false} BuildPreserves(e: Expr, schema: Schema, d: Dialect, row: Row, now: Int64)
    requires Build(e, schema, now).Some? && Accepted(schema, d, Build(e, schema, now).value) && Regular(e, d, now)
    ensures Meaning(schema, d, Build(e, schema, now).value, row) == Says(e, schema, d, row, now)
  {
    match e
    case Ident(name) => FlagPreserved(schema, d, name, row);
    case Comprehension(iterVar, range, accuVar, init, step) =>
      ExistsPreserved(iterVar, range, accuVar, init, step, schema, d, row, now);
    case Apply(fn, target, args) =>
      hide BuildComparison, BuildIn, BuildExists, WholeNumber, HarmlessFraction, WholeNumbers, Like.Wild, Containing,
        ContainsMeaning;
      if fn.AndFn? || fn.OrFn? {
        BuildPreserves(args[0], schema, d, row, now);
        BuildPreserves(args[1], schema, d, row, now);
      } else if fn.NotFn? {
        BuildPreserves(args[0], schema, d, row, now);
      } else if fn.CompareFn? {
        ComparisonPreserved(fn.op, args, schema, d, row, now);
      } else if fn.InFn? {
        InPreserved(args, schema, d, row, now);
      } else {
        ContainsPreserved(d, FieldValue(row, schema[target.value.name], d), args[0].c.s);
      }
    case _ =>
  }

  lemma FlagPreserved(schema: Schema, d: Dialect, name: string, row: Row)
    requires Accepted(schema, d, FieldPredicate(name))
    ensures Meaning(schema, d, FieldPredicate(name), row) == Truth(NameValue(name, schema, d, row) == VBool(true))
  {
  }
}
