/** memos/lib/filter/render.go: the fragments of single tests, what they say of a row, and where they miss. */
module FilterLeaves {
  import opened Calendar
  import opened FilterIR
  import opened FilterSql
  import opened FilterTags
  import Like

  /** Boolean columns hold booleans, scalar columns do not. */
  ghost predicate Conforms(schema: Schema, row: Row) {
    forall name <- schema :: schema[name].column in row.columns ==>
      && (schema[name].kind == BoolColumn ==> row.columns[schema[name].column].Bool?)
      && (schema[name].kind == Scalar ==> !row.columns[schema[name].column].Bool?)
  }

  /** The row has values of the right kinds, and tags that JSON writes without escapes. */
  ghost predicate Fits(schema: Schema, row: Row) {
    Conforms(schema, row) && PlainLists(row)
  }

  /** On some row the fragment says something else than the tree. */
  ghost predicate Misses(schema: Schema, d: Dialect, c: Condition, sql: Sql, vals: seq<Value>)
    requires Accepted(schema, d, c) && |vals| == |Params(sql)|
  {
    exists row :: Fits(schema, row) && Eval(d, sql, row, vals) != Meaning(schema, d, c, row)
  }

  // ---------- columns and flags ----------

  function FieldPredicateSql(d: Dialect, f: Field): Sql {
    if f.kind == BoolColumn then IsTrue(ColumnExpr(f.column, Bare))
    else if d == MySQL then CoalesceIsTrue(FlagExpr(Ref(f)))
    else IsTrue(FlagExpr(Ref(f)))
  }

  lemma FieldPredicateRow(schema: Schema, d: Dialect, name: string, row: Row)
    requires Accepted(schema, d, FieldPredicate(name)) && Conforms(schema, row)
    ensures Eval(d, FieldPredicateSql(d, schema[name]), row, []) == Meaning(schema, d, FieldPredicate(name), row)
  {
  }

  function BoolArg(d: Dialect, b: bool): Value {
    Stored(d, Bool(b))
  }

  lemma StoredCompare(d: Dialect, op: CompareOp, x: Option<Value>, b: bool)
    requires x.Some? ==> x.value.Bool?
    ensures Compare(op, StoredOption(d, x), BoolArg(d, b)) == Compare(op, x, Bool(b))
  {
  }

  /** A boolean JSON field on SQLite and MySQL, where the literal is part of the text. */
  function JSONBoolSql(d: Dialect, f: Field, op: CompareOp, b: bool): Sql {
    var x := FlagExpr(Ref(f));
    if d == SQLite then
      if f.name == "has_task_list" then CmpConst(x, op, Int(if b then 1 else 0))
      else if (op == Eq) == b then IsTrue(x)
      else NotOf(IsTrue(x))
    else CmpConst(x, op, Bool(b))
  }

  lemma JSONBoolRow(schema: Schema, d: Dialect, name: string, op: CompareOp, b: bool, row: Row)
    requires AcceptedComparison(schema, d, FieldRef(name), op, Lit(LBool(b))) && schema[name].kind == JSONBool
    requires d != Postgres
    ensures Eval(d, JSONBoolSql(d, schema[name], op, b), row, []) ==
            ComparisonMeaning(schema, d, FieldRef(name), op, Lit(LBool(b)), row)
  {
    hide IntOrder;
    var f := schema[name];
    StoredCompare(d, op, Flag(row, f), b);
    assert OperandValue(d, FlagExpr(Ref(f)), row) == StoredOption(d, Flag(row, f));
  }

  lemma JSONBoolText(d: Dialect, f: Field, op: CompareOp, b: bool)
    ensures var sql := JSONBoolSql(d, f, op, b); WellFormed(d, sql) && sql != NoText && Params(sql) == []
  {
  }

  lemma FlagRow(schema: Schema, name: string, op: CompareOp, b: bool, p: Param, row: Row)
    requires AcceptedComparison(schema, Postgres, FieldRef(name), op, Lit(LBool(b))) && schema[name].kind == JSONBool
    ensures Eval(Postgres, Cmp(FlagExpr(Ref(schema[name])), op, p), row, [Bool(b)]) ==
            ComparisonMeaning(schema, Postgres, FieldRef(name), op, Lit(LBool(b)), row)
  {
    hide IntOrder;
  }

  function FieldOperand(d: Dialect, f: Field): Operand {
    ColumnExpr(f.column, FieldExpression(f, d))
  }

  lemma ScalarOperand(schema: Schema, d: Dialect, name: string, row: Row)
    requires name in schema && schema[name].kind == Scalar && Conforms(schema, row)
    ensures OperandValue(d, FieldOperand(d, schema[name]), row) == FieldValue(row, schema[name], d)
  {
  }

  lemma InRow(schema: Schema, d: Dialect, name: string, values: seq<ValueExpr>, ps: seq<Param>, row: Row)
    requires Accepted(schema, d, In(FieldRef(name), values)) && name != "tag" && |ps| == |values|
    requires Conforms(schema, row)
    ensures |ConvertedAll(schema[name].typ, values)| == |ps|
    ensures Eval(d, InParams(FieldOperand(d, schema[name]), ps), row, ConvertedAll(schema[name].typ, values)) ==
            Meaning(schema, d, In(FieldRef(name), values), row)
  {
    ConvertedCount(schema[name].typ, values);
    hide ConvertedAll;
    ScalarOperand(schema, d, name, row);
  }

  lemma {:induction false} ConvertedCount(t: FieldType, vs: seq<ValueExpr>)
    requires forall v <- vs :: Listable(t, v)
    ensures |ConvertedAll(t, vs)| == |vs|
  {
    if vs != [] {
      ConvertedCount(t, vs[..|vs| - 1]);
    }
  }

  lemma InText(d: Dialect, x: Operand, ps: seq<Param>, name: string, values: seq<ValueExpr>)
    requires name != "tag" && |ps| == |values|
    ensures WellFormed(d, InParams(x, ps)) <==> Runnable(d, In(FieldRef(name), values))
  {
  }

  function ScalarSql(d: Dialect, f: Field, op: CompareOp, v: Literal, p: Param): Sql {
    var x := FieldOperand(d, f);
    if !v.LNull? then Cmp(x, op, p) else if op == Eq then IsNull(x) else IsNotNull(x)
  }

  function ScalarArgs(f: Field, v: Literal): seq<Value>
    requires v.LNull? || Comparable(f.typ, v)
  {
    if v.LNull? then [] else [Converted(f.typ, v)]
  }

  lemma ComparisonIsMeaning(schema: Schema, d: Dialect, lhs: ValueExpr, op: CompareOp, rhs: ValueExpr, row: Row)
    requires Accepted(schema, d, Comparison(lhs, op, rhs))
    ensures Meaning(schema, d, Comparison(lhs, op, rhs), row) == ComparisonMeaning(schema, d, lhs, op, rhs, row)
  {
  }

  lemma ScalarRow(schema: Schema, d: Dialect, name: string, op: CompareOp, v: Literal, p: Param, row: Row)
    requires AcceptedComparison(schema, d, FieldRef(name), op, Lit(v)) && schema[name].kind == Scalar
    requires Conforms(schema, row)
    ensures |Params(ScalarSql(d, schema[name], op, v, p))| == |ScalarArgs(schema[name], v)|
    ensures Eval(d, ScalarSql(d, schema[name], op, v, p), row, ScalarArgs(schema[name], v)) ==
            ComparisonMeaning(schema, d, FieldRef(name), op, Lit(v), row)
  {
    hide Compare, Converted, Comparable;
    ScalarOperand(schema, d, name, row);
  }

  // ---------- one tag in a list ----------

  function ExactPattern(v: string): string { "%" + ("\"" + v + "\"") + "%" }

  function ChildPattern(v: string): string { "%" + ("\"" + v + "/") + "%" }

  function PrefixPattern(v: string): string { "%" + ("\"" + v) + "%" }

  function SuffixPattern(v: string): string { "%" + (v + "\"") + "%" }

  function InfixPattern(v: string): string { "%" + v + "%" }

  lemma EvalOr(d: Dialect, a: Sql, b: Sql, row: Row, v: seq<Value>, w: seq<Value>)
    requires |v| == |Params(a)| && |w| == |Params(b)|
    ensures |v + w| == |Params(OrOf(a, b))|
    ensures Eval(d, OrOf(a, b), row, v + w) == Or3(Eval(d, a, row, v), Eval(d, b, row, w))
  {
    assert (v + w)[..|v|] == v && (v + w)[|v|..] == w;
  }

  lemma EitherFound(d: Dialect, a: Sql, b: Sql, row: Row, v: seq<Value>, w: seq<Value>)
    requires |v| == |Params(a)| && |w| == |Params(b)|
    requires Eval(d, a, row, v) == True || Eval(d, b, row, w) == True
    ensures |v + w| == |Params(OrOf(a, b))| && Eval(d, OrOf(a, b), row, v + w) == True
  {
    hide Eval;
    EvalOr(d, a, b, row, v, w);
  }

  /** The argument of a membership test: a JSON string, where the dialect has such a test. */
  function ElementArg(d: Dialect, v: string): Value {
    Str(if d == SQLite then ExactPattern(v) else "\"" + v + "\"")
  }

  function ElementSql(d: Dialect, r: JsonRef, p: Param): Sql {
    if d == SQLite then ListLike(r, p) else ListHas(r, p)
  }

  lemma DecodeQuoted(v: string)
    requires Like.Plain(v)
    ensures DecodeJson("\"" + v + "\"") == Some(v)
  {
    var s := "\"" + v + "\"";
    assert s[1..|s| - 1] == v;
  }

  lemma ElementRow(d: Dialect, r: JsonRef, v: string, p: Param, row: Row)
    requires PlainLists(row) && CleanElement(d, v)
    ensures Eval(d, ElementSql(d, r, p), row, [ElementArg(d, v)]) ==
            if r in row.lists then Truth(IsTag(d, row.lists[r], v)) else Unknown
  {
    hide ListMatches, Like.Plain, Like.Wild, DecodeJson;
    if r in row.lists {
      if d == SQLite {
        MatchesTag(d, v, row.lists[r]);
      }
      DecodeQuoted(v);
    }
  }

  lemma ChildRow(d: Dialect, r: JsonRef, v: string, p: Param, row: Row)
    requires PlainLists(row) && CleanLiteral(v)
    ensures Eval(d, ListLike(r, p), row, [Str(ChildPattern(v))]) ==
            if r in row.lists then Truth(HasPrefix(d, row.lists[r], v + "/")) else Unknown
  {
    hide ListMatches, Like.Plain, Like.Wild;
    if r in row.lists {
      MatchesChild(d, v, row.lists[r]);
    }
  }

  /** One value of `tag in [...]`: the tag, or a tag below it. */
  function TagOrChildSql(d: Dialect, r: JsonRef, exact: Param, child: Param): Sql {
    OrOf(ElementSql(d, r, exact), ListLike(r, child))
  }

  lemma TagOrChildRow(d: Dialect, r: JsonRef, v: string, p: Param, q: Param, row: Row)
    requires PlainLists(row) && CleanTag(d, v)
    ensures Eval(d, TagOrChildSql(d, r, p, q), row, [ElementArg(d, v), Str(ChildPattern(v))]) ==
            if r in row.lists then Truth(IsTagOrChild(d, row.lists[r], v)) else Unknown
  {
    hide IsTag, HasPrefix, Like.Plain, Like.Wild, ListMatches, DecodeJson, ElementArg, ChildPattern;
    var vals := [ElementArg(d, v), Str(ChildPattern(v))];
    assert vals[..1] == [ElementArg(d, v)] && vals[1..] == [Str(ChildPattern(v))];
    assert Params(ElementSql(d, r, p)) == [p];
    PlainIsWild(d, v);
    ElementRow(d, r, v, p, row);
    ChildRow(d, r, v, q, row);
  }

  // ---------- `exists` over a list ----------

  /** `exists` tests on SQLite and MySQL match the text; Postgres has a membership test. */
  function ExistsSql(d: Dialect, r: JsonRef, pred: TagPredicate, p: Param, q: Param): Sql {
    match pred
    case Equals(_) => if d == Postgres then ListHas(r, p) else ListLike(r, p)
    case StartsWith(_) => OrOf(if d == Postgres then ListHas(r, p) else ListLike(r, p), ListLike(r, q))
    case EndsWith(_) => ListLike(r, p)
    case Contains(_) => ListLike(r, p)
  }

  function ExistsArgs(d: Dialect, pred: TagPredicate): seq<Value> {
    match pred
    case Equals(v) => [Str(if d == Postgres then "\"" + v + "\"" else ExactPattern(v))]
    case StartsWith(x) =>
      [Str(if d == Postgres then "\"" + x + "\"" else ExactPattern(x)), Str(PrefixPattern(x))]
    case EndsWith(x) => [Str(SuffixPattern(x))]
    case Contains(x) => [Str(InfixPattern(x))]
  }

  /** The NULL and empty-list checks around an `exists` test. */
  function NullChecked(r: JsonRef, condition: Sql): Sql {
    AndOf(AndOf(condition, ListPresent(r)), ListNonEmpty(r))
  }

  /** A missing list makes the wrapped test false, and so does an empty one. */
  lemma NullCheckedEval(d: Dialect, r: JsonRef, e: Sql, row: Row, vals: seq<Value>)
    requires |vals| == |Params(e)|
    ensures |Params(NullChecked(r, e))| == |vals|
    ensures Eval(d, NullChecked(r, e), row, vals) ==
            if r in row.lists && row.lists[r] != [] then Eval(d, e, row, vals) else False
  {
    assert vals[..|vals|] == vals && vals[|vals|..] == [];
    assert Params(AndOf(e, ListPresent(r))) == Params(e);
    var x := Eval(d, e, row, vals);
    assert Eval(d, AndOf(e, ListPresent(r)), row, vals) == And3(x, Truth(r in row.lists));
  }

  lemma ExactRow(d: Dialect, r: JsonRef, v: string, p: Param, row: Row)
    requires PlainLists(row) && Like.Plain(v) && (d != Postgres ==> TameTag(d, v)) && r in row.lists
    ensures Eval(d, if d == Postgres then ListHas(r, p) else ListLike(r, p), row,
                 [Str(if d == Postgres then "\"" + v + "\"" else ExactPattern(v))]) == Truth(IsTag(d, row.lists[r], v))
  {
    hide ListMatches, Like.Plain, Like.Wild, DecodeJson;
    if d != Postgres {
      MatchesTag(d, v, row.lists[r]);
    }
    DecodeQuoted(v);
  }

  lemma PrefixRow(d: Dialect, r: JsonRef, x: string, p: Param, q: Param, row: Row)
    requires PlainLists(row) && CleanPredicate(d, StartsWith(x)) && r in row.lists && row.lists[r] != []
    ensures Eval(d, ExistsSql(d, r, StartsWith(x), p, q), row, ExistsArgs(d, StartsWith(x))) ==
            Truth(HasPrefix(d, row.lists[r], x))
  {
    hide ListMatches, Like.Plain, Like.Wild, DecodeJson, Fold;
    var tags, vals := row.lists[r], ExistsArgs(d, StartsWith(x));
    assert vals[..1] == [vals[0]] && vals[1..] == [vals[1]];
    PlainIsWild(d, x);
    ExactRow(d, r, x, p, row);
    MatchesPrefix(d, x, tags);
    assert IsTag(d, tags, x) ==> HasPrefix(d, tags, x);
  }

  lemma SuffixRow(d: Dialect, r: JsonRef, x: string, p: Param, q: Param, row: Row)
    requires PlainLists(row) && CleanPredicate(d, EndsWith(x)) && r in row.lists && row.lists[r] != []
    ensures Eval(d, ExistsSql(d, r, EndsWith(x), p, q), row, ExistsArgs(d, EndsWith(x))) ==
            Truth(HasSuffix(d, row.lists[r], x))
  {
    hide ListMatches, Like.Plain, Like.Wild;
    MatchesSuffix(d, x, row.lists[r]);
  }

  lemma InfixRow(d: Dialect, r: JsonRef, x: string, p: Param, q: Param, row: Row)
    requires PlainLists(row) && CleanPredicate(d, Contains(x)) && r in row.lists && row.lists[r] != []
    ensures Eval(d, ExistsSql(d, r, Contains(x), p, q), row, ExistsArgs(d, Contains(x))) ==
            Truth(HasInfix(d, row.lists[r], x))
  {
    hide ListMatches, Like.Plain, Like.Wild;
    MatchesInfix(d, x, row.lists[r]);
  }

  lemma EqualsRow(d: Dialect, r: JsonRef, v: string, p: Param, q: Param, row: Row)
    requires PlainLists(row) && CleanPredicate(d, Equals(v)) && r in row.lists
    ensures Eval(d, ExistsSql(d, r, Equals(v), p, q), row, ExistsArgs(d, Equals(v))) == Truth(IsTag(d, row.lists[r], v))
  {
    hide Eval, ListMatches, Like.Plain, Like.Wild, IsTag;
    ExactRow(d, r, v, p, row);
  }

  lemma ExistsRow(d: Dialect, r: JsonRef, pred: TagPredicate, p: Param, q: Param, row: Row)
    requires PlainLists(row) && CleanPredicate(d, pred) && r in row.lists && row.lists[r] != []
    ensures |Params(ExistsSql(d, r, pred, p, q))| == |ExistsArgs(d, pred)|
    ensures Eval(d, ExistsSql(d, r, pred, p, q), row, ExistsArgs(d, pred)) == Truth(SomeTag(d, row.lists[r], pred))
  {
    hide Eval, ListMatches, Like.Plain, Like.Wild, IsTag, HasPrefix, HasSuffix, HasInfix, CleanPredicate, PlainLists;
    match pred
    case Equals(v) => EqualsRow(d, r, v, p, q, row);
    case StartsWith(x) => PrefixRow(d, r, x, p, q, row);
    case EndsWith(x) => SuffixRow(d, r, x, p, q, row);
    case Contains(x) => InfixRow(d, r, x, p, q, row);
  }

  lemma ExistsParams(d: Dialect, r: JsonRef, pred: TagPredicate, p: Param, q: Param)
    ensures Params(NullChecked(r, ExistsSql(d, r, pred, p, q))) == if |ExistsArgs(d, pred)| == 2 then [p, q] else [p]
    ensures WellFormed(d, NullChecked(r, ExistsSql(d, r, pred, p, q)))
  {
    var e := ExistsSql(d, r, pred, p, q);
    assert WellFormed(d, ListLike(r, q)) && WellFormed(d, ListHas(r, p));
    assert WellFormed(d, e);
    assert WellFormed(d, AndOf(e, ListPresent(r)));
    assert Params(e) == if |ExistsArgs(d, pred)| == 2 then [p, q] else [p];
    assert Params(AndOf(e, ListPresent(r))) == Params(e) + [];
    assert Params(NullChecked(r, e)) == Params(e) + [] + [];
  }

  lemma ExistsLeafRow(schema: Schema, d: Dialect, name: string, pred: TagPredicate, p: Param, q: Param, row: Row)
    requires Accepted(schema, d, Exists(name, pred)) && Fits(schema, row) && CleanPredicate(d, pred)
    ensures var r := Ref(schema[name]);
            |Params(NullChecked(r, ExistsSql(d, r, pred, p, q)))| == |ExistsArgs(d, pred)| &&
            Eval(d, NullChecked(r, ExistsSql(d, r, pred, p, q)), row, ExistsArgs(d, pred)) ==
            Meaning(schema, d, Exists(name, pred), row)
  {
    var r, vals := Ref(schema[name]), ExistsArgs(d, pred);
    var e := ExistsSql(d, r, pred, p, q);
    assert |Params(e)| == |vals|;
    hide Eval, ExistsSql, ExistsArgs, NullChecked, CleanPredicate;
    NullCheckedEval(d, r, e, row, vals);
    if r in row.lists && row.lists[r] != [] {
      ExistsRow(d, r, pred, p, q, row);
    }
  }

  // ---------- where tag tests miss ----------

  /** A row that holds one list and nothing else. */
  function ListRow(r: JsonRef, tags: seq<string>): Row {
    Row(map[], map[], map[r := tags])
  }

  lemma ListRowFits(schema: Schema, r: JsonRef, tags: seq<string>)
    requires Like.PlainTags(tags)
    ensures Fits(schema, ListRow(r, tags))
  {
    hide Like.PlainTags;
  }

  lemma ListLikeFound(d: Dialect, r: JsonRef, p: Param, pattern: string, tags: seq<string>)
    requires ListMatches(d, pattern, tags)
    ensures Eval(d, ListLike(r, p), ListRow(r, tags), [Str(pattern)]) == True
  {
    hide ListMatches;
  }

  lemma ElementMisses(d: Dialect, r: JsonRef, v: string, p: Param) returns (tags: seq<string>)
    requires Like.Plain(v) && !CleanElement(d, v)
    ensures Like.PlainTags(tags) && d == SQLite
    ensures Eval(d, ElementSql(d, r, p), ListRow(r, tags), [ElementArg(d, v)]) == True && !IsTag(d, tags, v)
  {
    hide ListMatches, IsTag, HasPrefix, Like.PlainTags, Like.Plain, Like.Wild, Eval;
    tags := TagMisses(d, v);
    ListLikeFound(d, r, p, ExactPattern(v), tags);
  }

  /** `v in list` as a leaf: right on every row, or wrong on some. */
  lemma ElementLeaf(schema: Schema, d: Dialect, name: string, v: string, p: Param)
    requires Accepted(schema, d, ElementIn(Lit(LStr(v)), name))
    ensures var c, sql := ElementIn(Lit(LStr(v)), name), ElementSql(d, Ref(schema[name]), p);
            && |Params(sql)| == 1
            && (Clean(d, c) ==> forall row :: Fits(schema, row) ==>
                  Eval(d, sql, row, [ElementArg(d, v)]) == Meaning(schema, d, c, row))
            && (SingleTag(c) && !Clean(d, c) ==> Misses(schema, d, c, sql, [ElementArg(d, v)]))
  {
    var r := Ref(schema[name]);
    var c, sql := ElementIn(Lit(LStr(v)), name), ElementSql(d, r, p);
    hide Eval, IsTag, ElementArg, CleanElement, Conforms, Like.Plain;
    if Clean(d, c) {
      forall row | Fits(schema, row) ensures Eval(d, sql, row, [ElementArg(d, v)]) == Meaning(schema, d, c, row) {
        ElementRow(d, r, v, p, row);
      }
    } else if SingleTag(c) {
      var tags := ElementMisses(d, r, v, p);
      ListRowFits(schema, r, tags);
      hide Fits;
      assert Meaning(schema, d, c, ListRow(r, tags)) == Truth(IsTag(d, tags, v));
    }
  }

  lemma TagOrChildMisses(d: Dialect, r: JsonRef, v: string, p: Param, q: Param) returns (tags: seq<string>)
    requires Like.Plain(v) && !CleanTag(d, v)
    ensures Like.PlainTags(tags) && |Params(TagOrChildSql(d, r, p, q))| == 2
    ensures Eval(d, TagOrChildSql(d, r, p, q), ListRow(r, tags), [ElementArg(d, v), Str(ChildPattern(v))]) == True
    ensures !IsTagOrChild(d, tags, v)
  {
    PlainIsWild(d, v);
    assert ChildPattern(v) == "%" + ("\"" + v + "/") + "%" && ExactPattern(v) == "%" + ("\"" + v + "\"") + "%";
    hide ListMatches, IsTag, HasPrefix, Like.PlainTags, CleanLiteral, Like.Wild, Like.Plain, Eval,
      ChildPattern, ExactPattern;
    if d == SQLite {
      tags := TagMisses(d, v);
      ListLikeFound(d, r, p, ExactPattern(v), tags);
      assert ElementSql(d, r, p) == ListLike(r, p) && ElementArg(d, v) == Str(ExactPattern(v));
    } else {
      tags := ChildMisses(d, v);
      ListLikeFound(d, r, q, ChildPattern(v), tags);
    }
    assert Params(ElementSql(d, r, p)) == [p];
    hide IsTagOrChild;
    EitherFound(d, ElementSql(d, r, p), ListLike(r, q), ListRow(r, tags), [ElementArg(d, v)], [Str(ChildPattern(v))]);
    assert [ElementArg(d, v)] + [Str(ChildPattern(v))] == [ElementArg(d, v), Str(ChildPattern(v))];
  }

  lemma ExistsMisses(d: Dialect, r: JsonRef, pred: TagPredicate, p: Param, q: Param) returns (tags: seq<string>)
    requires Like.Plain(TextOf(pred)) && !CleanPredicate(d, pred)
    ensures Like.PlainTags(tags) && tags != [] && |Params(ExistsSql(d, r, pred, p, q))| == |ExistsArgs(d, pred)|
    ensures Eval(d, ExistsSql(d, r, pred, p, q), ListRow(r, tags), ExistsArgs(d, pred)) == True
    ensures !SomeTag(d, tags, pred)
  {
    hide ListMatches, IsTag, HasPrefix, HasSuffix, HasInfix, Like.PlainTags, Like.Wild, Like.Plain, DecodeJson;
    match pred
    case Equals(v) => tags := TagMisses(d, v);
    case StartsWith(x) =>
      tags := PrefixMisses(d, x);
      var vals := ExistsArgs(d, pred);
      assert vals[..1] == [vals[0]] && vals[1..] == [vals[1]];
    case EndsWith(x) => tags := SuffixMisses(d, x);
    case Contains(x) => tags := InfixMisses(d, x);
  }

  /** An exists() test as a leaf: right on every row, or wrong on some. */
  lemma ExistsLeaf(schema: Schema, d: Dialect, name: string, pred: TagPredicate, p: Param, q: Param)
    requires Accepted(schema, d, Exists(name, pred))
    ensures var r, c := Ref(schema[name]), Exists(name, pred);
            var sql := NullChecked(r, ExistsSql(d, r, pred, p, q));
            && |Params(sql)| == |ExistsArgs(d, pred)|
            && (Clean(d, c) ==> forall row :: Fits(schema, row) ==>
                  Eval(d, sql, row, ExistsArgs(d, pred)) == Meaning(schema, d, c, row))
            && (SingleTag(c) && !Clean(d, c) ==> Misses(schema, d, c, sql, ExistsArgs(d, pred)))
  {
    var r, c, vals := Ref(schema[name]), Exists(name, pred), ExistsArgs(d, pred);
    var e := ExistsSql(d, r, pred, p, q);
    ExistsParams(d, r, pred, p, q);
    hide Eval, CleanPredicate, Fits, Like.Plain, ExistsSql, ExistsArgs, NullChecked, TextOf;
    if Clean(d, c) {
      forall row | Fits(schema, row) ensures Eval(d, NullChecked(r, e), row, vals) == Meaning(schema, d, c, row) {
        ExistsLeafRow(schema, d, name, pred, p, q, row);
      }
    } else if SingleTag(c) {
      var tags := ExistsMisses(d, r, pred, p, q);
      ListRowFits(schema, r, tags);
      var row := ListRow(r, tags);
      NullCheckedEval(d, r, e, row, vals);
      hide SomeTag;
      assert Meaning(schema, d, c, row) == Truth(SomeTag(d, tags, pred));
    }
  }

  // ---------- `tag in [...]` ----------

  /** The alternatives of `tag in [...]` rendered so far. */
  function AddAlternative(sql: Sql, alternative: Sql): Sql {
    if sql == NoAlternative then alternative else OrOf(sql, alternative)
  }

  ghost predicate StringLits(values: seq<ValueExpr>) {
    forall v <- values :: v.Lit? && v.value.LStr?
  }

  ghost predicate TagsRendered(d: Dialect, r: JsonRef, values: seq<ValueExpr>, sql: Sql, vals: seq<Value>)
    requires StringLits(values)
  {
    && |Params(sql)| == |vals| == 2 * |values|
    && (sql == NoAlternative <==> values == [])
    && (WellFormed(d, sql) <==> values != [])
    && (forall row :: PlainLists(row) && (forall v <- values :: CleanValue(d, v)) ==>
         Eval(d, sql, row, vals) == AnyTag(d, Tags(row, r), values))
    && (|values| == 1 && PlainValue(values[0]) && !CleanValue(d, values[0]) ==> TagMissed(d, r, values, sql, vals))
  }

  /** Some list is tested wrong. */
  ghost predicate TagMissed(d: Dialect, r: JsonRef, values: seq<ValueExpr>, sql: Sql, vals: seq<Value>)
    requires StringLits(values) && |vals| == |Params(sql)|
  {
    exists tags :: Like.PlainTags(tags) && Eval(d, sql, ListRow(r, tags), vals) != AnyTag(d, Some(tags), values)
  }

  lemma AddAlternativeParams(d: Dialect, r: JsonRef, sql: Sql, p: Param, q: Param)
    ensures var e := AddAlternative(sql, TagOrChildSql(d, r, p, q));
            && Params(e) == Params(sql) + [p, q] && e != NoAlternative
            && (WellFormed(d, e) <==> sql == NoAlternative || WellFormed(d, sql))
  {
    assert Params(TagOrChildSql(d, r, p, q)) == [p, q];
    assert sql == NoAlternative ==> Params(sql) + [p, q] == [p, q];
    assert WellFormed(d, TagOrChildSql(d, r, p, q)) by { assert WellFormed(d, ElementSql(d, r, p)); }
    hide TagOrChildSql;
  }

  lemma FirstTagMissed(d: Dialect, r: JsonRef, v: string, p: Param, q: Param)
    requires Like.Plain(v) && !CleanTag(d, v)
    ensures var vals := [ElementArg(d, v), Str(ChildPattern(v))];
            |vals| == |Params(TagOrChildSql(d, r, p, q))| &&
            TagMissed(d, r, [Lit(LStr(v))], TagOrChildSql(d, r, p, q), vals)
  {
    var tags := TagOrChildMisses(d, r, v, p, q);
    var values := [Lit(LStr(v))];
    assert |Params(TagOrChildSql(d, r, p, q))| == 2;
    hide Eval, TagOrChildSql, IsTagOrChild, ElementArg, ChildPattern;
    assert values[..0] == [];
    assert AnyTag(d, Some(tags), values) == Or3(AnyTag(d, Some(tags), []), Truth(IsTagOrChild(d, tags, v)));
  }

  lemma AddTagRow(d: Dialect, r: JsonRef, values: seq<ValueExpr>, v: string, sql: Sql, vals: seq<Value>, p: Param,
                  q: Param, row: Row)
    requires StringLits(values) && TagsRendered(d, r, values, sql, vals)
    requires PlainLists(row) && (forall x <- values + [Lit(LStr(v))] :: CleanValue(d, x))
    ensures var e := AddAlternative(sql, TagOrChildSql(d, r, p, q));
            && |Params(e)| == |vals| + 2
            && Eval(d, e, row, vals + [ElementArg(d, v), Str(ChildPattern(v))]) ==
               Or3(AnyTag(d, Tags(row, r), values),
                   if r in row.lists then Truth(IsTagOrChild(d, row.lists[r], v)) else Unknown)
  {
    hide IsTagOrChild, ElementArg, ChildPattern, PlainLists, CleanTag, TagMissed;
    var pair := [ElementArg(d, v), Str(ChildPattern(v))];
    var alternative := TagOrChildSql(d, r, p, q);
    assert |Params(alternative)| == 2;
    hide TagOrChildSql, Eval;
    assert Lit(LStr(v)) in values + [Lit(LStr(v))];
    assert forall x <- values :: x in values + [Lit(LStr(v))];
    TagOrChildRow(d, r, v, p, q, row);
    if values == [] {
      assert vals + pair == pair;
    } else {
      EvalOr(d, sql, alternative, row, vals, pair);
    }
  }

  lemma AddTagMisses(d: Dialect, r: JsonRef, values: seq<ValueExpr>, v: string, sql: Sql, vals: seq<Value>, p: Param,
                     q: Param)
    requires StringLits(values) && TagsRendered(d, r, values, sql, vals)
    ensures var more, e := values + [Lit(LStr(v))], AddAlternative(sql, TagOrChildSql(d, r, p, q));
            && |Params(e)| == |vals| + 2
            && (|more| == 1 && PlainValue(more[0]) && !CleanValue(d, more[0]) ==>
                  TagMissed(d, r, more, e, vals + [ElementArg(d, v), Str(ChildPattern(v))]))
  {
    AddAlternativeParams(d, r, sql, p, q);
    hide TagMissed, ElementArg, ChildPattern, TagOrChildSql, Eval, Params, CleanTag;
    var more, pair := values + [Lit(LStr(v))], [ElementArg(d, v), Str(ChildPattern(v))];
    if |more| == 1 && PlainValue(more[0]) && !CleanValue(d, more[0]) {
      assert more == [Lit(LStr(v))] && vals + pair == pair;
      FirstTagMissed(d, r, v, p, q);
    }
  }

  lemma AddTag(d: Dialect, r: JsonRef, values: seq<ValueExpr>, v: string, sql: Sql, vals: seq<Value>, p: Param,
               q: Param)
    requires StringLits(values) && TagsRendered(d, r, values, sql, vals)
    ensures StringLits(values + [Lit(LStr(v))])
    ensures var e := AddAlternative(sql, TagOrChildSql(d, r, p, q));
            && TagsRendered(d, r, values + [Lit(LStr(v))], e, vals + [ElementArg(d, v), Str(ChildPattern(v))])
            && Params(e) == Params(sql) + [p, q]
  {
    AddTagMisses(d, r, values, v, sql, vals, p, q);
    hide IsTagOrChild, ElementArg, ChildPattern, PlainLists, CleanValue, Eval, TagOrChildSql, AddAlternative, Params,
      WellFormed, TagMissed;
    var more := values + [Lit(LStr(v))];
    assert more[..|more| - 1] == values;
    AddAlternativeParams(d, r, sql, p, q);
    forall row | PlainLists(row) && forall x <- more :: CleanValue(d, x)
      ensures var e := AddAlternative(sql, TagOrChildSql(d, r, p, q));
              |Params(e)| == |vals| + 2 &&
              Eval(d, e, row, vals + [ElementArg(d, v), Str(ChildPattern(v))]) == AnyTag(d, Tags(row, r), more)
    {
      AddTagRow(d, r, values, v, sql, vals, p, q, row);
    }
  }

  lemma NoTags(d: Dialect, r: JsonRef)
    ensures TagsRendered(d, r, [], NoAlternative, [])
  {
  }

  lemma TagsWellFormed(d: Dialect, r: JsonRef, values: seq<ValueExpr>, sql: Sql, vals: seq<Value>)
    requires StringLits(values) && TagsRendered(d, r, values, sql, vals)
    ensures WellFormed(d, sql) <==> Runnable(d, In(FieldRef("tag"), values))
  {
  }

  /** `tag in [...]` as a leaf: right on every row, or, with one value, wrong on some. */
  lemma TagsLeaf(schema: Schema, d: Dialect, r: JsonRef, values: seq<ValueExpr>, sql: Sql, vals: seq<Value>)
    requires Accepted(schema, d, In(FieldRef("tag"), values)) && r == Ref(ResolveAlias(schema, "tag").value)
    requires StringLits(values) && TagsRendered(d, r, values, sql, vals)
    ensures var c := In(FieldRef("tag"), values);
            && (Clean(d, c) ==>
                  forall row :: Fits(schema, row) ==> Eval(d, sql, row, vals) == Meaning(schema, d, c, row))
            && (SingleTag(c) && !Clean(d, c) ==> Misses(schema, d, c, sql, vals))
  {
    hide CleanTag, Conforms, Eval, Like.Plain, Like.PlainTags, AnyTag;
    var c := In(FieldRef("tag"), values);
    if SingleTag(c) && !Clean(d, c) {
      var tags :| Like.PlainTags(tags) && Eval(d, sql, ListRow(r, tags), vals) != AnyTag(d, Some(tags), values);
      ListRowFits(schema, r, tags);
      assert Meaning(schema, d, c, ListRow(r, tags)) == AnyTag(d, Some(tags), values);
    }
  }
}
