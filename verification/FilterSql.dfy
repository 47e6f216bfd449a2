/** The SQL fragments memos/lib/filter/render.go writes, as trees, and what a database makes of them. */
module FilterSql {
  import opened Calendar
  import opened Text
  import opened FilterIR
  import Like

  /** A placeholder, with the number `addArg` gave it: Postgres writes `$k`, the others `?`. */
  datatype Param = Param(ordinal: nat)

  datatype Operand =
    | ColumnExpr(column: Column, expression: Expression)
    | FlagExpr(ref: JsonRef)
    | LengthExpr(ref: JsonRef)

  datatype Sql =
    | NoText                                          // the empty string
    | OneIsZero                                       // 1 = 0
    | NotOf(e: Sql)
    | AndOf(l: Sql, r: Sql)
    | OrOf(l: Sql, r: Sql)
    | NoAlternative                                   // ()
    | Cmp(x: Operand, op: CompareOp, p: Param)
    | CmpConst(x: Operand, op: CompareOp, v: Value)
    | IsNull(x: Operand)
    | IsNotNull(x: Operand)
    | IsTrue(x: Operand)
    | CoalesceIsTrue(x: Operand)                      // COALESCE(x, false) = true
    | InParams(x: Operand, ps: seq<Param>)
    | TextLike(x: Operand, p: Param)
    | ListLike(ref: JsonRef, p: Param)                // the list's JSON text LIKE p
    | ListHas(ref: JsonRef, p: Param)                 // the list has the JSON string p as an element
    | ListPresent(ref: JsonRef)                       // IS NOT NULL
    | ListNonEmpty(ref: JsonRef)

  /** A fragment the dialect can parse: `()` is no expression, and only SQLite has `IN ()`. */
  predicate WellFormed(d: Dialect, e: Sql) {
    match e
    case NoAlternative => false
    case InParams(_, ps) => ps != [] || d == SQLite
    case NotOf(a) => WellFormed(d, a)
    case AndOf(a, b) => WellFormed(d, a) && WellFormed(d, b)
    case OrOf(a, b) => WellFormed(d, a) && WellFormed(d, b)
    case _ => true
  }

  /** The placeholders of a fragment, in the order of its text. */
  function Params(e: Sql): seq<Param> {
    match e
    case NotOf(a) => Params(a)
    case AndOf(a, b) => Params(a) + Params(b)
    case OrOf(a, b) => Params(a) + Params(b)
    case Cmp(_, _, p) => [p]
    case InParams(_, ps) => ps
    case TextLike(_, p) => [p]
    case ListLike(_, p) => [p]
    case ListHas(_, p) => [p]
    case _ => []
  }

  /** SQLite stores booleans as 1 and 0. */
  function Stored(d: Dialect, v: Value): Value {
    if d == SQLite && v.Bool? then Int(if v.b then 1 else 0) else v
  }

  function StoredOption(d: Dialect, v: Option<Value>): Option<Value> {
    if v.Some? then Some(Stored(d, v.value)) else None
  }

  function OperandValue(d: Dialect, x: Operand, row: Row): Option<Value> {
    match x
    case ColumnExpr(c, e) => StoredOption(d, ColumnValue(row, c, e))
    case FlagExpr(r) => if r in row.flags then Some(Stored(d, Bool(row.flags[r]))) else None
    case LengthExpr(r) => Some(Int(if r in row.lists then |row.lists[r]| else 0))
  }

  predicate Truthy(v: Option<Value>) {
    v == Some(Bool(true)) || (v.Some? && v.value.Int? && v.value.i != 0)
  }

  // ---------- lists as text ----------

  /** A control character: `\u` and four hexadecimal digits (section 7 of RFC 8259). */
  function ControlEscape(c: char): string
    requires c < ' '
  {
    ['\\', 'u', '0', '0', if c < 16 as char then '0' else '1', "0123456789abcdef"[c as int % 16]]
  }

  function EncodeTag(t: string): string {
    if t == "" then ""
    else (if t[0] == '"' || t[0] == '\\' then ['\\', t[0]] else if t[0] < ' ' then ControlEscape(t[0]) else [t[0]])
         + EncodeTag(t[1..])
  }

  function EncodeAll(tags: seq<string>): seq<string> {
    if tags == [] then [] else [EncodeTag(tags[0])] + EncodeAll(tags[1..])
  }

  function Sep(d: Dialect): string {
    if d == SQLite then "," else ", "
  }

  function JsonText(d: Dialect, tags: seq<string>): string {
    Like.ListText(EncodeAll(tags), Sep(d))
  }

  /** LIKE over a list's text: up to ASCII case and without an escape character on SQLite. */
  predicate ListMatches(d: Dialect, pattern: string, tags: seq<string>) {
    Like.Like(Fold(d, pattern), Fold(d, JsonText(d, tags)), d != SQLite)
  }

  /** The string a JSON text stands for; only texts without escapes are understood here. */
  function DecodeJson(s: string): Option<string> {
    if |s| >= 2 && s[0] == '"' && s[|s| - 1] == '"' && Like.Plain(s[1..|s| - 1]) then Some(s[1..|s| - 1]) else None
  }

  // ---------- evaluation ----------

  /** A fragment's truth value on a row, its placeholders bound to `vals` in order. What it says of fragments
      that are not well formed means nothing: statements are promised to be well formed before they are
      promised to mean anything. */
  function Eval(d: Dialect, e: Sql, row: Row, vals: seq<Value>): TV
    requires |vals| == |Params(e)|
  {
    match e
    case NoText => True
    case OneIsZero => False
    case NoAlternative => False
    case NotOf(a) => Not3(Eval(d, a, row, vals))
    case AndOf(a, b) => And3(Eval(d, a, row, vals[..|Params(a)|]), Eval(d, b, row, vals[|Params(a)|..]))
    case OrOf(a, b) => Or3(Eval(d, a, row, vals[..|Params(a)|]), Eval(d, b, row, vals[|Params(a)|..]))
    case Cmp(x, op, _) => Compare(op, OperandValue(d, x, row), vals[0])
    case CmpConst(x, op, v) => Compare(op, OperandValue(d, x, row), v)
    case IsNull(x) => Truth(OperandValue(d, x, row).None?)
    case IsNotNull(x) => Truth(OperandValue(d, x, row).Some?)
    case IsTrue(x) => Truth(Truthy(OperandValue(d, x, row)))
    case CoalesceIsTrue(x) => Truth(Truthy(OperandValue(d, x, row)))
    case InParams(x, _) => AnyEqual(OperandValue(d, x, row), vals)
    case TextLike(x, _) =>
      (match (OperandValue(d, x, row), vals[0])
       case (Some(Str(t)), Str(p)) => Truth(Like.Like(ToLower(p), ToLower(t), d != SQLite))
       case _ => Unknown)
    case ListLike(r, _) =>
      if r in row.lists && vals[0].Str? then Truth(ListMatches(d, vals[0].s, row.lists[r])) else Unknown
    case ListHas(r, _) =>
      if r in row.lists && vals[0].Str? && DecodeJson(vals[0].s).Some?
      then Truth(DecodeJson(vals[0].s).value in row.lists[r])
      else Unknown
    case ListPresent(r) => Truth(r in row.lists)
    case ListNonEmpty(r) => if r in row.lists then Truth(row.lists[r] != []) else Unknown
  }

  // ---------- binding ----------

  /** What the database binds the placeholders to: `$k` names the k-th argument; the j-th `?` takes
      the j-th argument, and a driver refuses a different number of arguments. */
  function Bind(d: Dialect, ps: seq<Param>, args: seq<Value>): Option<seq<Value>> {
    if d == Postgres then
      if forall p <- ps :: 1 <= p.ordinal <= |args| then Some(Named(ps, args)) else None
    else if |ps| == |args| then Some(args)
    else None
  }

  /** A driver that takes as many arguments as there are `?` and ignores the rest. */
  function BindFirst(ps: seq<Param>, args: seq<Value>): Option<seq<Value>> {
    if |ps| <= |args| then Some(args[..|ps|]) else None
  }

  function Named(ps: seq<Param>, args: seq<Value>): (vals: seq<Value>)
    requires forall p <- ps :: 1 <= p.ordinal <= |args|
    ensures |vals| == |ps|
  {
    seq(|ps|, i requires 0 <= i < |ps| => assert ps[i] in ps; args[ps[i].ordinal - 1])
  }
}
