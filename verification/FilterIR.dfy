/** The condition trees of memos/lib/filter/ir.go, the schema lookups of schema.go, and what a tree
    means on a row. */
module FilterIR {
  import opened Calendar
  import opened Text
  import Like

  datatype Dialect = SQLite | MySQL | Postgres

  datatype CompareOp = Eq | Neq | Lt | Lte | Gt | Gte

  datatype Literal = LStr(s: string) | LInt(i: int) | LFloat(r: real) | LBool(b: bool) | LNull

  datatype ValueExpr =
    | FieldRef(name: string)
    | Lit(value: Literal)
    | Call(function_: string, args: seq<ValueExpr>)

  datatype TagPredicate = Equals(value: string) | StartsWith(prefix: string) | EndsWith(suffix: string)
                        | Contains(substring: string)

  datatype LogicalOperator = LogicalAnd | LogicalOr

  datatype Condition =
    | Logical(operator: LogicalOperator, left: Condition, right: Condition)
    | Not(expr: Condition)
    | FieldPredicate(field: string)
    | Comparison(lhs: ValueExpr, op: CompareOp, rhs: ValueExpr)
    | In(needle: ValueExpr, values: seq<ValueExpr>)
    | ElementIn(element: ValueExpr, field: string)
    | ContainsText(field: string, text: string)
    | Exists(field: string, predicate_: TagPredicate)
    | Constant(value: bool)

  // ---------- schema ----------

  datatype FieldKind = Scalar | BoolColumn | JSONBool | JSONList | VirtualAlias
  datatype FieldType = StringType | IntType | BoolType | TimestampType
  datatype Column = Column(table: string, name: string)

  /** A schema-specific override of the column expression. */
  datatype Expression = Bare | UserPath | UnixTimestamp

  /** Without `allowedOps` every operator may be used on the field. */
  datatype Field = Field(name: string, kind: FieldKind, typ: FieldType, column: Column, path: seq<string>,
                         aliasFor: string, supportsContains: bool, expressions: map<Dialect, Expression>,
                         allowedOps: Option<set<CompareOp>>)

  type Schema = map<string, Field>

  function ResolveAlias(schema: Schema, name: string): Option<Field> {
    if name !in schema then None
    else if schema[name].kind != VirtualAlias then Some(schema[name])
    else if schema[name].aliasFor in schema then Some(schema[schema[name].aliasFor])
    else None
  }

  // ---------- rows and three-valued logic ----------

  datatype Value = Str(s: string) | Int(i: int) | Bool(b: bool)

  /** A place in a JSON column. */
  datatype JsonRef = JsonRef(column: Column, path: seq<string>)

  /** A row; what is absent is NULL. */
  datatype Row = Row(columns: map<Column, Value>, flags: map<JsonRef, bool>, lists: map<JsonRef, seq<string>>)

  /** Truth values of section 8.12 of ISO/IEC 9075:1992. */
  datatype TV = True | False | Unknown

  function And3(a: TV, b: TV): TV {
    if a == False || b == False then False else if a == True && b == True then True else Unknown
  }

  function Or3(a: TV, b: TV): TV {
    if a == True || b == True then True else if a == False && b == False then False else Unknown
  }

  function Logical3(o: LogicalOperator, a: TV, b: TV): TV {
    if o.LogicalAnd? then And3(a, b) else Or3(a, b)
  }

  function Not3(a: TV): TV {
    match a case True => False case False => True case Unknown => Unknown
  }

  function Truth(b: bool): TV {
    if b then True else False
  }

  function StringOrder(a: string, b: string): int {
    if a == b then 0 else if Less(a, b) then -1 else 1
  }

  function IntOrder(a: int, b: int): int {
    if a < b then -1 else if a == b then 0 else 1
  }

  function Holds(op: CompareOp, order: int): bool {
    match op
    case Eq => order == 0
    case Neq => order != 0
    case Lt => order < 0
    case Lte => order <= 0
    case Gt => order > 0
    case Gte => order >= 0
  }

  /** Comparison of a possibly NULL value; values of different types do not compare. */
  function Compare(op: CompareOp, a: Option<Value>, b: Value): TV {
    match (a, b)
    case (Some(Int(x)), Int(y)) => Truth(Holds(op, IntOrder(x, y)))
    case (Some(Str(x)), Str(y)) => Truth(Holds(op, StringOrder(x, y)))
    case (Some(Bool(x)), Bool(y)) => Truth(Holds(op, IntOrder(if x then 1 else 0, if y then 1 else 0)))
    case _ => Unknown
  }

  function AnyEqual(a: Option<Value>, vs: seq<Value>): TV {
    if vs == [] then False else Or3(AnyEqual(a, vs[..|vs| - 1]), Compare(Eq, a, vs[|vs| - 1]))
  }

  function ColumnValue(row: Row, column: Column, e: Expression): Option<Value> {
    if column !in row.columns then None
    else match (e, row.columns[column])
      case (UserPath, Str(s)) => Some(Str("users/" + s))
      case (_, v) => Some(v)
  }

  function FieldExpression(f: Field, d: Dialect): Expression {
    if d in f.expressions then f.expressions[d] else Bare
  }

  function FieldValue(row: Row, f: Field, d: Dialect): Option<Value> {
    ColumnValue(row, f.column, FieldExpression(f, d))
  }

  function Flag(row: Row, f: Field): Option<Value> {
    var r := JsonRef(f.column, f.path);
    if r in row.flags then Some(Bool(row.flags[r])) else None
  }

  function Tags(row: Row, r: JsonRef): Option<seq<string>> {
    if r in row.lists then Some(row.lists[r]) else None
  }

  function Ref(f: Field): JsonRef {
    JsonRef(f.column, f.path)
  }

  // ---------- literals ----------

  /** `int64(v)` of a float: toward zero. */
  function Truncate(r: real): int {
    if r >= 0.0 then r.Floor else -((-r).Floor)
  }

  predicate Numeric(v: Literal) {
    v.LInt? || v.LFloat?
  }

  function ToInt64(v: Literal): int
    requires Numeric(v)
  {
    if v.LInt? then v.i else Truncate(v.r)
  }

  /** The literal a scalar field of this type is compared with. */
  predicate Comparable(t: FieldType, v: Literal) {
    (t == StringType && v.LStr?) || ((t == IntType || t == TimestampType) && Numeric(v))
  }

  function Converted(t: FieldType, v: Literal): Value
    requires Comparable(t, v)
  {
    if t == StringType then Str(v.s) else Int(ToInt64(v))
  }

  /** IN lists are for strings and integers only. */
  predicate Listable(t: FieldType, v: ValueExpr) {
    v.Lit? && (t == StringType || t == IntType) && Comparable(t, v.value)
  }

  // ---------- the conditions the renderer accepts ----------

  predicate AcceptedComparison(schema: Schema, d: Dialect, lhs: ValueExpr, op: CompareOp, rhs: ValueExpr) {
    match lhs
    case FieldRef(name) =>
      name in schema && rhs.Lit? &&
      (match schema[name].kind
       case BoolColumn => rhs.value.LBool?
       case JSONBool => rhs.value.LBool? && (d == SQLite ==> op == Eq || op == Neq)
       case Scalar =>
         if rhs.value.LNull? then op == Eq || op == Neq else Comparable(schema[name].typ, rhs.value)
       case _ => false)
    case Call(f, args) =>
      f == "size" && |args| == 1 && args[0].FieldRef? && args[0].name in schema &&
      schema[args[0].name].kind == JSONList && rhs.Lit? && Numeric(rhs.value)
    case Lit(_) => false
  }

  predicate AcceptedIn(schema: Schema, needle: ValueExpr, values: seq<ValueExpr>) {
    needle.FieldRef? &&
    if needle.name == "tag" then
      ResolveAlias(schema, "tag").Some? && forall v <- values :: v.Lit? && v.value.LStr?
    else
      needle.name in schema && schema[needle.name].kind == Scalar &&
      forall v <- values :: Listable(schema[needle.name].typ, v)
  }

  predicate Accepted(schema: Schema, d: Dialect, c: Condition) {
    match c
    case Logical(_, l, r) => Accepted(schema, d, l) && Accepted(schema, d, r)
    case Not(e) => Accepted(schema, d, e)
    case FieldPredicate(f) => f in schema && (schema[f].kind == BoolColumn || schema[f].kind == JSONBool)
    case Comparison(lhs, op, rhs) => AcceptedComparison(schema, d, lhs, op, rhs)
    case In(needle, values) => AcceptedIn(schema, needle, values)
    case ElementIn(e, f) => e.Lit? && e.value.LStr? && f in schema && schema[f].kind == JSONList
    case ContainsText(f, _) => f in schema
    case Exists(f, _) => f in schema && schema[f].kind == JSONList
    case Constant(_) => true
  }

  // ---------- tag tests on lists ----------

  /** SQLite compares tags up to ASCII case, the others exactly. */
  function Fold(d: Dialect, s: string): string {
    if d == SQLite then ToLower(s) else s
  }

  predicate IsTag(d: Dialect, tags: seq<string>, v: string) {
    exists t <- tags :: Fold(d, t) == Fold(d, v)
  }

  predicate HasPrefix(d: Dialect, tags: seq<string>, p: string) {
    exists t <- tags :: Fold(d, p) <= Fold(d, t)
  }

  predicate HasSuffix(d: Dialect, tags: seq<string>, s: string) {
    exists t <- tags :: Like.EndsWith(Fold(d, t), Fold(d, s))
  }

  predicate HasInfix(d: Dialect, tags: seq<string>, s: string) {
    exists t <- tags :: Like.Occurs(Fold(d, s), Fold(d, t))
  }

  /** `tag in [v]`: the tag v or a tag below it, as in v/child. */
  predicate IsTagOrChild(d: Dialect, tags: seq<string>, v: string) {
    IsTag(d, tags, v) || HasPrefix(d, tags, v + "/")
  }

  predicate SomeTag(d: Dialect, tags: seq<string>, p: TagPredicate) {
    match p
    case Equals(v) => IsTag(d, tags, v)
    case StartsWith(x) => HasPrefix(d, tags, x)
    case EndsWith(x) => HasSuffix(d, tags, x)
    case Contains(x) => HasInfix(d, tags, x)
  }

  function AnyTag(d: Dialect, tags: Option<seq<string>>, vs: seq<ValueExpr>): TV
    requires forall v <- vs :: v.Lit? && v.value.LStr?
  {
    if vs == [] then False
    else
      var v := vs[|vs| - 1];
      Or3(AnyTag(d, tags, vs[..|vs| - 1]),
          if tags.None? then Unknown else Truth(IsTagOrChild(d, tags.value, v.value.s)))
  }

  // ---------- meaning ----------

  function ComparisonMeaning(schema: Schema, d: Dialect, lhs: ValueExpr, op: CompareOp, rhs: ValueExpr, row: Row): TV
    requires AcceptedComparison(schema, d, lhs, op, rhs)
  {
    match lhs
    case FieldRef(name) =>
      var f := schema[name];
      if f.kind == BoolColumn then Compare(op, ColumnValue(row, f.column, Bare), Bool(rhs.value.b))
      else if f.kind == JSONBool then
        // On SQLite a missing flag counts as false, except for has_task_list.
        if d == SQLite && f.name != "has_task_list" then
          Truth(((Flag(row, f) == Some(Bool(true))) == rhs.value.b) == (op == Eq))
        else Compare(op, Flag(row, f), Bool(rhs.value.b))
      else if rhs.value.LNull? then Truth(FieldValue(row, f, d).None? == (op == Eq))
      else Compare(op, FieldValue(row, f, d), Converted(f.typ, rhs.value))
    case Call(_, args) =>
      var tags := Tags(row, Ref(schema[args[0].name]));
      Compare(op, Some(Int(if tags.None? then 0 else |tags.value|)), Int(ToInt64(rhs.value)))
    case Lit(_) => Unknown
  }

  function ConvertedAll(t: FieldType, vs: seq<ValueExpr>): seq<Value>
    requires forall v <- vs :: Listable(t, v)
  {
    if vs == [] then []
    else
      assert vs[|vs| - 1] in vs && Listable(t, vs[|vs| - 1]);
      ConvertedAll(t, vs[..|vs| - 1]) + [Converted(t, vs[|vs| - 1].value)]
  }

  /** The pattern `%text%` against a text, up to case. */
  function ContainsMeaning(d: Dialect, v: Option<Value>, text: string): TV {
    match v
    case Some(Str(s)) => Truth(Like.Like(ToLower("%" + text + "%"), ToLower(s), d != SQLite))
    case _ => Unknown
  }

  function Meaning(schema: Schema, d: Dialect, c: Condition, row: Row): TV
    requires Accepted(schema, d, c)
  {
    match c
    case Logical(o, l, r) => Logical3(o, Meaning(schema, d, l, row), Meaning(schema, d, r, row))
    case Not(e) => Not3(Meaning(schema, d, e, row))
    case FieldPredicate(name) =>
      var f := schema[name];
      Truth((if f.kind == BoolColumn then ColumnValue(row, f.column, Bare) else Flag(row, f)) == Some(Bool(true)))
    case Comparison(lhs, op, rhs) => ComparisonMeaning(schema, d, lhs, op, rhs, row)
    case In(needle, values) =>
      if needle.name == "tag" then AnyTag(d, Tags(row, Ref(ResolveAlias(schema, "tag").value)), values)
      else
        var f := schema[needle.name];
        AnyEqual(FieldValue(row, f, d), ConvertedAll(f.typ, values))
    case ElementIn(e, f) =>
      var tags := Tags(row, Ref(schema[f]));
      if tags.None? then Unknown else Truth(IsTag(d, tags.value, e.value.s))
    case ContainsText(f, text) => ContainsMeaning(d, FieldValue(row, schema[f], d), text)
    case Exists(f, p) =>
      var tags := Tags(row, Ref(schema[f]));
      Truth(tags.Some? && SomeTag(d, tags.value, p))
    case Constant(b) => Truth(b)
  }

  // ---------- constant folding, seen from the tree ----------

  /** The constant that decides a conjunction or disjunction by itself. */
  function Deciding(o: LogicalOperator): bool {
    o.LogicalOr?
  }

  /** The constant a tree folds to, if it does. */
  function Folds(c: Condition): Option<bool> {
    match c
    case Constant(b) => Some(b)
    case Not(e) => if Folds(e).Some? then Some(!Folds(e).value) else None
    case Logical(o, l, r) =>
      if Folds(l) == Some(Deciding(o)) || Folds(r) == Some(Deciding(o)) then Some(Deciding(o))
      else if Folds(l).Some? then Folds(r)
      else if Folds(r).Some? then Folds(l)
      else None
    case _ => None
  }

  /** A folded tree has its constant's truth on every row. */
  lemma {:induction false} FoldsIsMeaning(schema: Schema, d: Dialect, c: Condition, row: Row)
    requires Accepted(schema, d, c)
    ensures Folds(c).Some? ==> Meaning(schema, d, c, row) == Truth(Folds(c).value)
  {
    match c
    case Logical(_, l, r) =>
      FoldsIsMeaning(schema, d, l, row);
      FoldsIsMeaning(schema, d, r, row);
    case Not(e) =>
      FoldsIsMeaning(schema, d, e, row);
    case _ =>
  }

  /** How many arguments a tree's literals add. */
  function ArgCount(schema: Schema, d: Dialect, c: Condition): nat {
    match c
    case Logical(_, l, r) => ArgCount(schema, d, l) + ArgCount(schema, d, r)
    case Not(e) => ArgCount(schema, d, e)
    case FieldPredicate(_) => 0
    case Comparison(lhs, op, rhs) =>
      if lhs.FieldRef? && lhs.name in schema &&
         (|| (schema[lhs.name].kind == JSONBool && d != Postgres)
          || (schema[lhs.name].kind == Scalar && rhs == Lit(LNull)))
      then 0 else 1
    case In(needle, values) => if needle == FieldRef("tag") then 2 * |values| else |values|
    case ElementIn(_, _) => 1
    case ContainsText(_, _) => 1
    case Exists(_, p) => if p.StartsWith? then 2 else 1
    case Constant(_) => 0
  }

  /** Folding throws away no side that carries arguments. */
  predicate NoDiscard(schema: Schema, d: Dialect, c: Condition) {
    match c
    case Logical(o, l, r) =>
      && NoDiscard(schema, d, l) && NoDiscard(schema, d, r)
      && (Folds(l) == Some(Deciding(o)) || Folds(r) == Some(Deciding(o)) ==> ArgCount(schema, d, c) == 0)
    case Not(e) => NoDiscard(schema, d, e)
    case _ => true
  }

  function All(n: nat, b: bool): (mask: seq<bool>)
    ensures |mask| == n && forall i :: 0 <= i < n ==> mask[i] == b
  {
    seq(n, _ => b)
  }

  /** Which of a tree's arguments keep their placeholder: folding throws whole sides away. */
  function Survivors(schema: Schema, d: Dialect, c: Condition): (mask: seq<bool>)
    ensures |mask| == ArgCount(schema, d, c)
  {
    if Folds(c).Some? then All(ArgCount(schema, d, c), false)
    else
      match c
      case Logical(_, l, r) => Survivors(schema, d, l) + Survivors(schema, d, r)
      case Not(e) => Survivors(schema, d, e)
      case _ => All(ArgCount(schema, d, c), true)
  }

  /** Nothing is discarded exactly if all survive. */
  lemma {:induction false} NoDiscardSurvivors(schema: Schema, d: Dialect, c: Condition)
    ensures NoDiscard(schema, d, c) <==> false !in Survivors(schema, d, c)
  {
    match c
    case Logical(_, l, r) =>
      NoDiscardSurvivors(schema, d, l);
      NoDiscardSurvivors(schema, d, r);
      var n := ArgCount(schema, d, c);
      assert n > 0 ==> All(n, false)[0] == false;
      assert forall b <- Survivors(schema, d, l) + Survivors(schema, d, r) ::
          b in Survivors(schema, d, l) || b in Survivors(schema, d, r);
      assert forall k: nat :: k > 0 ==> All(k, false)[0] == false;
    case Not(e) =>
      NoDiscardSurvivors(schema, d, e);
    case _ =>
  }

  /** Every argument discarded comes after every one kept. */
  predicate KeptFirst(mask: seq<bool>) {
    mask == [] || if mask[0] then KeptFirst(mask[1..]) else true !in mask
  }

  lemma {:induction false} KeptThenDropped(kept: seq<bool>, dropped: seq<bool>)
    requires false !in kept && true !in dropped
    ensures KeptFirst(kept + dropped)
  {
    if kept == [] {
      assert kept + dropped == dropped;
      assert dropped != [] ==> dropped[0] in dropped;
    } else {
      assert kept[0] in kept && forall b <- kept[1..] :: b in kept;
      assert (kept + dropped)[1..] == kept[1..] + dropped;
      KeptThenDropped(kept[1..], dropped);
    }
  }

  /** The dialect has a text for every list test folding leaves: none has one for the tags of an empty list,
      and only SQLite writes `IN ()`. */
  predicate Runnable(d: Dialect, c: Condition) {
    || Folds(c).Some?
    || match c
       case Logical(_, l, r) => Runnable(d, l) && Runnable(d, r)
       case Not(e) => Runnable(d, e)
       case In(needle, values) => values != [] || (d == SQLite && needle != FieldRef("tag"))
       case _ => true
  }
}
