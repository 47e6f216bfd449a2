/** memos/lib/filter/render.go: the renderer, which grows its argument list as it walks a condition tree. */
module FilterRender {
  import opened Calendar
  import opened FilterIR
  import opened FilterSql
  import opened FilterTags
  import opened FilterNumbers
  import opened FilterLeaves
  import Like

  datatype RenderResult = RenderResult(sql: Sql, trivial: bool, unsatisfiable: bool)

  function Plain(sql: Sql): RenderResult {
    RenderResult(sql, false, false)
  }

  const NOTHING := RenderResult(OneIsZero, false, true)

  const EVERYTHING := RenderResult(NoText, true, false)

  function CombineAnd(left: RenderResult, right: RenderResult): RenderResult {
    if left.unsatisfiable || right.unsatisfiable then NOTHING
    else if left.trivial then right
    else if right.trivial then left
    else Plain(AndOf(left.sql, right.sql))
  }

  function CombineOr(left: RenderResult, right: RenderResult): RenderResult {
    if left.trivial || right.trivial then EVERYTHING
    else if left.unsatisfiable then right
    else if right.unsatisfiable then left
    else Plain(OrOf(left.sql, right.sql))
  }

  // ---------- what a rendering promises ----------

  /** With every placeholder bound to its own argument, the fragment has the tree's truth value. */
  ghost predicate Means(schema: Schema, d: Dialect, c: Condition, sql: Sql, offset: nat, args: seq<Value>)
    requires Accepted(schema, d, c) && Numbered(Params(sql), offset, 0, |args|)
  {
    forall row :: Fits(schema, row) ==>
      Eval(d, sql, row, Own(Params(sql), offset, args)) == Meaning(schema, d, c, row)
  }

  /** The two flags are the tree's constant, never both set, and fix the text. */
  predicate Shaped(c: Condition, out: RenderResult) {
    && (out.trivial <==> Folds(c) == Some(true))
    && (out.unsatisfiable <==> Folds(c) == Some(false))
    && (out.trivial <==> out.sql == NoText)
    && (out.unsatisfiable ==> out.sql == OneIsZero)
  }

  ghost predicate Faithful(schema: Schema, d: Dialect, offset: nat, c: Condition, out: RenderResult, from: nat,
                           args: seq<Value>)
    requires Accepted(schema, d, c)
  {
    && |args| == from + ArgCount(schema, d, c)
    && Numbered(Params(out.sql), offset, from, |args|)
    && (Clean(d, c) ==> Means(schema, d, c, out.sql, offset, args))
    && (SingleTag(c) && Means(schema, d, c, out.sql, offset, args) ==> Clean(d, c))
    && Shaped(c, out)
    && (NoDiscard(schema, d, c) <==> |Params(out.sql)| == |args| - from)
    && Ordinals(Params(out.sql)) == Positions(Survivors(schema, d, c), offset + from)
    && (WellFormed(d, out.sql) <==> Runnable(d, c))
  }

  // ---------- combining ----------

  function Combine(o: LogicalOperator, left: RenderResult, right: RenderResult): RenderResult {
    if o.LogicalAnd? then CombineAnd(left, right) else CombineOr(left, right)
  }

  /** The side is a constant that decides, or one that leaves the other side. */
  predicate Decides(o: LogicalOperator, side: RenderResult) {
    if o.LogicalAnd? then side.unsatisfiable else side.trivial
  }

  predicate Yields(o: LogicalOperator, side: RenderResult) {
    if o.LogicalAnd? then side.trivial else side.unsatisfiable
  }

  /** The values the combination's placeholders keep. */
  function CombineVals(o: LogicalOperator, left: RenderResult, right: RenderResult, lv: seq<Value>, rv: seq<Value>)
    : seq<Value>
  {
    if Decides(o, left) || Decides(o, right) then [] else if Yields(o, left) then rv else if Yields(o, right) then lv
    else lv + rv
  }

  /** On one row, the combination of two renderings has the combination of their truth values. */
  lemma CombineRow(o: LogicalOperator, d: Dialect, row: Row, left: RenderResult, right: RenderResult, lv: seq<Value>,
                   rv: seq<Value>, lm: TV, rm: TV)
    requires |lv| == |Params(left.sql)| && |rv| == |Params(right.sql)|
    requires Eval(d, left.sql, row, lv) == lm && Eval(d, right.sql, row, rv) == rm
    requires (left.trivial ==> lm == True) && (left.unsatisfiable ==> lm == False)
    requires (right.trivial ==> rm == True) && (right.unsatisfiable ==> rm == False)
    ensures var out, vals := Combine(o, left, right), CombineVals(o, left, right, lv, rv);
            |vals| == |Params(out.sql)| && Eval(d, out.sql, row, vals) == Logical3(o, lm, rm)
  {
    assert (lv + rv)[..|lv|] == lv && (lv + rv)[|lv|..] == rv;
  }

  lemma CombineOwn(o: LogicalOperator, left: RenderResult, right: RenderResult, offset: nat, all: seq<Value>)
    requires Numbered(Params(left.sql) + Params(right.sql), offset, 0, |all|)
    ensures Numbered(Params(left.sql), offset, 0, |all|) && Numbered(Params(right.sql), offset, 0, |all|)
    ensures var out := Combine(o, left, right);
            Numbered(Params(out.sql), offset, 0, |all|) &&
            Own(Params(out.sql), offset, all) ==
              CombineVals(o, left, right, Own(Params(left.sql), offset, all), Own(Params(right.sql), offset, all))
  {
    hide Numbered;
    OwnConcat(Params(left.sql), Params(right.sql), offset, all);
    NumberedNothing(offset, 0, |all|);
  }

  lemma SomeConstant(b: Option<bool>)
    ensures b == None || b == Some(false) || b == Some(true)
  {
    if b.Some? {
      assert b == Some(if b.value then true else false);
    }
  }

  lemma CombineShaped(o: LogicalOperator, l: Condition, r: Condition, left: RenderResult, right: RenderResult)
    requires Shaped(l, left) && Shaped(r, right)
    ensures Shaped(Logical(o, l, r), Combine(o, left, right))
  {
    SomeConstant(Folds(l));
    SomeConstant(Folds(r));
  }

  lemma CombineCounts(o: LogicalOperator, schema: Schema, d: Dialect, offset: nat, l: Condition, r: Condition,
                      left: RenderResult, right: RenderResult, from: nat, mid: nat, to: nat)
    requires Shaped(l, left) && Shaped(r, right)
    requires mid == from + ArgCount(schema, d, l) && to == mid + ArgCount(schema, d, r)
    requires Numbered(Params(left.sql), offset, from, mid) && Numbered(Params(right.sql), offset, mid, to)
    requires NoDiscard(schema, d, l) <==> |Params(left.sql)| == mid - from
    requires NoDiscard(schema, d, r) <==> |Params(right.sql)| == to - mid
    ensures var c, out := Logical(o, l, r), Combine(o, left, right);
            && Numbered(Params(left.sql) + Params(right.sql), offset, from, to)
            && Numbered(Params(out.sql), offset, from, to)
            && (NoDiscard(schema, d, c) <==> |Params(out.sql)| == to - from)
  {
    hide Numbered;
    NumberedConcat(Params(left.sql), Params(right.sql), offset, from, mid, to);
    NumberedCount(Params(left.sql), offset, from, mid);
    NumberedCount(Params(right.sql), offset, mid, to);
    NumberedNothing(offset, from, to);
    NumberedWiden(Params(left.sql), offset, from, mid, from, to);
    NumberedWiden(Params(right.sql), offset, mid, to, from, to);
  }

  lemma CombineWellFormed(o: LogicalOperator, d: Dialect, l: Condition, r: Condition, left: RenderResult,
                          right: RenderResult)
    requires Shaped(l, left) && Shaped(r, right)
    requires (WellFormed(d, left.sql) <==> Runnable(d, l)) && (WellFormed(d, right.sql) <==> Runnable(d, r))
    ensures WellFormed(d, Combine(o, left, right).sql) <==> Runnable(d, Logical(o, l, r))
  {
  }

  lemma CombineMeans(o: LogicalOperator, schema: Schema, d: Dialect, offset: nat, l: Condition, r: Condition,
                     left: RenderResult, right: RenderResult, args: seq<Value>, all: seq<Value>)
    requires Accepted(schema, d, Logical(o, l, r)) && Accepted(schema, d, l) && Accepted(schema, d, r) && args <= all
    requires Shaped(l, left) && Shaped(r, right)
    requires Numbered(Params(left.sql) + Params(right.sql), offset, 0, |all|)
    requires Numbered(Params(left.sql), offset, 0, |args|) && Numbered(Params(right.sql), offset, 0, |all|)
    requires Means(schema, d, l, left.sql, offset, args) && Means(schema, d, r, right.sql, offset, all)
    ensures Numbered(Params(Combine(o, left, right).sql), offset, 0, |all|)
    ensures Means(schema, d, Logical(o, l, r), Combine(o, left, right).sql, offset, all)
  {
    hide Numbered, Own, Eval, Fits, Folds, Combine, CombineVals, Accepted;
    var c, out := Logical(o, l, r), Combine(o, left, right);
    CombineOwn(o, left, right, offset, all);
    OwnExtend(Params(left.sql), offset, args, all);
    var lv, rv := Own(Params(left.sql), offset, all), Own(Params(right.sql), offset, all);
    forall row | Fits(schema, row)
      ensures Eval(d, out.sql, row, Own(Params(out.sql), offset, all)) == Meaning(schema, d, c, row)
    {
      var lm, rm := Meaning(schema, d, l, row), Meaning(schema, d, r, row);
      assert Meaning(schema, d, c, row) == Logical3(o, lm, rm);
      hide Meaning, Logical3;
      FoldsIsMeaning(schema, d, l, row);
      FoldsIsMeaning(schema, d, r, row);
      CombineRow(o, d, row, left, right, lv, rv, lm, rm);
    }
  }

  /** A folded tree's text is its constant, whatever was in it. */
  lemma FoldedMeans(schema: Schema, d: Dialect, offset: nat, c: Condition, out: RenderResult, args: seq<Value>)
    requires Accepted(schema, d, c) && Shaped(c, out) && Folds(c).Some?
    requires Numbered(Params(out.sql), offset, 0, |args|)
    ensures Means(schema, d, c, out.sql, offset, args)
  {
    SomeConstant(Folds(c));
    hide Accepted, Numbered, Fits, Meaning, Folds;
    forall row | Fits(schema, row)
      ensures Eval(d, out.sql, row, Own(Params(out.sql), offset, args)) == Meaning(schema, d, c, row)
    {
      FoldsIsMeaning(schema, d, c, row);
    }
  }

  /** A side that has folded has no placeholder, and none of its arguments survives. */
  lemma FoldedSide(schema: Schema, d: Dialect, c: Condition, side: RenderResult, from: int)
    requires Shaped(c, side) && Folds(c).Some?
    ensures Params(side.sql) == [] && Positions(Survivors(schema, d, c), from) == []
  {
    SomeConstant(Folds(c));
    PositionsOfNone(Survivors(schema, d, c), from);
  }

  lemma CombineOrdinals(o: LogicalOperator, schema: Schema, d: Dialect, l: Condition, r: Condition, left: RenderResult,
                        right: RenderResult, from: int)
    requires Shaped(l, left) && Shaped(r, right)
    requires Ordinals(Params(left.sql)) == Positions(Survivors(schema, d, l), from)
    requires Ordinals(Params(right.sql)) == Positions(Survivors(schema, d, r), from + ArgCount(schema, d, l))
    ensures Ordinals(Params(Combine(o, left, right).sql)) == Positions(Survivors(schema, d, Logical(o, l, r)), from)
  {
    var c, out := Logical(o, l, r), Combine(o, left, right);
    CombineShaped(o, l, r, left, right);
    if Folds(c).Some? {
      FoldedSide(schema, d, c, out, from);
    } else {
      LiveSurvivors(o, schema, d, l, r, from);
      SomeConstant(Folds(l));
      SomeConstant(Folds(r));
      hide Survivors, Positions, ArgCount;
      if Folds(l).Some? {
        FoldedSide(schema, d, l, left, from);
        assert [] + Positions(Survivors(schema, d, r), from + ArgCount(schema, d, l)) ==
               Positions(Survivors(schema, d, r), from + ArgCount(schema, d, l));
        assert out == right;
      } else if Folds(r).Some? {
        FoldedSide(schema, d, r, right, from + ArgCount(schema, d, l));
        assert Positions(Survivors(schema, d, l), from) + [] == Positions(Survivors(schema, d, l), from);
        assert out == left;
      } else {
        JoinedOrdinals(o, left.sql, right.sql);
      }
    }
  }

  lemma LiveSurvivors(o: LogicalOperator, schema: Schema, d: Dialect, l: Condition, r: Condition, from: int)
    requires Folds(Logical(o, l, r)).None?
    ensures Positions(Survivors(schema, d, Logical(o, l, r)), from) ==
            Positions(Survivors(schema, d, l), from) + Positions(Survivors(schema, d, r), from + ArgCount(schema, d, l))
  {
    PositionsConcat(Survivors(schema, d, l), Survivors(schema, d, r), from);
    hide Positions;
  }

  lemma JoinedOrdinals(o: LogicalOperator, a: Sql, b: Sql)
    ensures Ordinals(Params(if o.LogicalAnd? then AndOf(a, b) else OrOf(a, b))) ==
            Ordinals(Params(a)) + Ordinals(Params(b))
  {
  }

  lemma CombineFaithful(o: LogicalOperator, schema: Schema, d: Dialect, offset: nat, l: Condition, r: Condition,
                        left: RenderResult, right: RenderResult, from: nat, args: seq<Value>, all: seq<Value>)
    requires Accepted(schema, d, Logical(o, l, r)) && Accepted(schema, d, l) && Accepted(schema, d, r) && args <= all
    requires Faithful(schema, d, offset, l, left, from, args)
    requires Faithful(schema, d, offset, r, right, |args|, all)
    ensures Faithful(schema, d, offset, Logical(o, l, r), Combine(o, left, right), from, all)
  {
    hide Numbered, Means, Folds, NoDiscard, Shaped, Runnable, WellFormed, Ordinals, Positions, Survivors;
    var c, out := Logical(o, l, r), Combine(o, left, right);
    CombineShaped(o, l, r, left, right);
    CombineCounts(o, schema, d, offset, l, r, left, right, from, |args|, |all|);
    CombineWellFormed(o, d, l, r, left, right);
    CombineOrdinals(o, schema, d, l, r, left, right, offset + from);
    NumberedWiden(Params(left.sql) + Params(right.sql), offset, from, |all|, 0, |all|);
    NumberedWiden(Params(left.sql), offset, from, |args|, 0, |args|);
    NumberedWiden(Params(right.sql), offset, |args|, |all|, 0, |all|);
    NumberedWiden(Params(out.sql), offset, from, |all|, 0, |all|);
    if Folds(c).Some? {
      FoldedMeans(schema, d, offset, c, out, all);
    } else if Clean(d, c) {
      CombineMeans(o, schema, d, offset, l, r, left, right, args, all);
    }
  }

  function Negate(child: RenderResult): RenderResult {
    if child.trivial then NOTHING else if child.unsatisfiable then EVERYTHING else Plain(NotOf(child.sql))
  }

  lemma {:induction false} SingleTagNeverFolds(c: Condition)
    requires SingleTag(c)
    ensures Folds(c).None?
  {
    if c.Not? {
      SingleTagNeverFolds(c.expr);
    }
  }

  /** A negated fragment means the negated tree exactly if the fragment means the tree. */
  lemma NegateMeans(schema: Schema, d: Dialect, offset: nat, e: Condition, sql: Sql, args: seq<Value>)
    requires Accepted(schema, d, Not(e)) && Accepted(schema, d, e) && Numbered(Params(sql), offset, 0, |args|)
    ensures Means(schema, d, Not(e), NotOf(sql), offset, args) <==> Means(schema, d, e, sql, offset, args)
  {
    hide Accepted, Numbered, Own, Fits;
    forall row | Fits(schema, row)
      ensures var vals := Own(Params(sql), offset, args);
              Eval(d, NotOf(sql), row, vals) == Meaning(schema, d, Not(e), row) <==>
              Eval(d, sql, row, vals) == Meaning(schema, d, e, row)
    {
    }
  }

  lemma NegateFaithful(schema: Schema, d: Dialect, offset: nat, e: Condition, child: RenderResult, from: nat,
                       args: seq<Value>)
    requires Accepted(schema, d, Not(e)) && Accepted(schema, d, e)
    requires Faithful(schema, d, offset, e, child, from, args)
    ensures Faithful(schema, d, offset, Not(e), Negate(child), from, args)
  {
    hide Numbered, Own, Means, Ordinals, Positions, Accepted;
    var out := Negate(child);
    NumberedNothing(offset, from, |args|);
    NumberedNothing(offset, 0, |args|);
    NumberedCount(Params(child.sql), offset, from, |args|);
    NumberedWiden(Params(child.sql), offset, from, |args|, 0, |args|);
    SomeConstant(Folds(e));
    if Folds(e).Some? {
      FoldedMeans(schema, d, offset, Not(e), out, args);
      PositionsOfNone(Survivors(schema, d, Not(e)), offset + from);
      if SingleTag(e) {
        SingleTagNeverFolds(e);
      }
    } else {
      NegateMeans(schema, d, offset, e, child.sql, args);
    }
  }

  lemma ConstantFaithful(schema: Schema, d: Dialect, offset: nat, b: bool, from: nat, args: seq<Value>)
    requires from == |args|
    ensures Faithful(schema, d, offset, Constant(b), if b then EVERYTHING else NOTHING, from, args)
  {
  }

  // ---------- leaves ----------

  predicate Leaf(c: Condition) {
    !c.Logical? && !c.Not? && !c.Constant?
  }

  /** A leaf's fragment keeps all its placeholders and means what the leaf means. */
  ghost predicate Rendered(schema: Schema, d: Dialect, offset: nat, c: Condition, sql: Sql, from: nat, args: seq<Value>)
    requires Accepted(schema, d, c)
  {
    && sql != NoText
    && |args| == from + ArgCount(schema, d, c) && |Params(sql)| == |args| - from
    && Numbered(Params(sql), offset, from, |args|)
    && (Clean(d, c) ==> Means(schema, d, c, sql, offset, args))
    && (SingleTag(c) && Means(schema, d, c, sql, offset, args) ==> Clean(d, c))
    && (WellFormed(d, sql) <==> Runnable(d, c))
  }

  lemma LeafFaithful(schema: Schema, d: Dialect, offset: nat, c: Condition, sql: Sql, from: nat, args: seq<Value>)
    requires Accepted(schema, d, c) && Leaf(c) && Rendered(schema, d, offset, c, sql, from, args)
    ensures Faithful(schema, d, offset, c, Plain(sql), from, args)
  {
    hide Means, Numbered, Ordinals, Positions, SingleTag, Clean, Survivors, WellFormed, Runnable, Accepted, ArgCount;
    LeafSurvives(schema, d, c);
    AllOrdinals(Params(sql), Survivors(schema, d, c), offset, from, |args|);
  }

  lemma LeafSurvives(schema: Schema, d: Dialect, c: Condition)
    requires Leaf(c)
    ensures false !in Survivors(schema, d, c)
  {
    hide ArgCount;
  }

  /** The last arguments, one per placeholder. */
  lemma LastArgs(sql: Sql, offset: nat, from: nat, args: seq<Value>)
    requires from <= |args| && |Params(sql)| == |args| - from
    requires forall i :: 0 <= i < |Params(sql)| ==> Params(sql)[i].ordinal == offset + from + 1 + i
    ensures Numbered(Params(sql), offset, from, |args|) && Numbered(Params(sql), offset, 0, |args|)
    ensures Own(Params(sql), offset, args) == args[from..]
  {
  }

  lemma LeafRendered(schema: Schema, d: Dialect, offset: nat, c: Condition, sql: Sql, from: nat, args: seq<Value>)
    requires Accepted(schema, d, c) && sql != NoText && (WellFormed(d, sql) <==> Runnable(d, c))
    requires |args| == from + ArgCount(schema, d, c) && |Params(sql)| == |args| - from
    requires forall i :: 0 <= i < |Params(sql)| ==> Params(sql)[i].ordinal == offset + from + 1 + i
    requires Clean(d, c) ==>
               forall row :: Fits(schema, row) ==> Eval(d, sql, row, args[from..]) == Meaning(schema, d, c, row)
    requires SingleTag(c) && !Clean(d, c) ==> Misses(schema, d, c, sql, args[from..])
    ensures Rendered(schema, d, offset, c, sql, from, args)
  {
    hide Numbered, Own, Fits, Accepted, ArgCount, WellFormed, Runnable, Clean, SingleTag;
    LastArgs(sql, offset, from, args);
  }

  // ---------- the renderer ----------

  class Renderer {
    const schema: Schema
    const dialect: Dialect
    const placeholderOffset: nat
    var placeholderCounter: nat
    var args: seq<Value>

    ghost predicate Valid()
      reads this
    {
      placeholderCounter == |args|
    }

    constructor (schema: Schema, dialect: Dialect, placeholderOffset: nat)
      ensures Valid() && args == []
      ensures this.schema == schema && this.dialect == dialect && this.placeholderOffset == placeholderOffset
    {
      this.schema, this.dialect, this.placeholderOffset := schema, dialect, placeholderOffset;
      placeholderCounter, args := 0, [];
    }

    method AddArg(value: Value) returns (p: Param)
      requires Valid()
      modifies this
      ensures Valid() && args == old(args) + [value] && p == Param(placeholderOffset + |args|)
    {
      placeholderCounter := placeholderCounter + 1;
      args := args + [value];
      return Param(placeholderOffset + placeholderCounter);
    }

    /** What every rendering method promises of its result. */
    ghost predicate Done(c: Condition, out: Option<RenderResult>, from: nat)
      reads this
    {
      && (out.Some? <==> Accepted(schema, dialect, c))
      && (out.Some? ==> Faithful(schema, dialect, placeholderOffset, c, out.value, from, args))
    }

    lemma LeafDone(c: Condition, sql: Sql, from: nat)
      requires Leaf(c) && Accepted(schema, dialect, c) && sql != NoText
      requires WellFormed(dialect, sql) <==> Runnable(dialect, c)
      requires |args| == from + ArgCount(schema, dialect, c) && |Params(sql)| == |args| - from
      requires forall i :: 0 <= i < |Params(sql)| ==> Params(sql)[i].ordinal == placeholderOffset + from + 1 + i
      requires Clean(dialect, c) ==>
                 forall row :: Fits(schema, row) ==>
                   Eval(dialect, sql, row, args[from..]) == Meaning(schema, dialect, c, row)
      requires SingleTag(c) && !Clean(dialect, c) ==> Misses(schema, dialect, c, sql, args[from..])
      ensures Done(c, Some(Plain(sql)), from)
    {
      hide Faithful, Rendered, Fits, Accepted, ArgCount, WellFormed, Runnable, Clean, SingleTag, Misses;
      LeafRendered(schema, dialect, placeholderOffset, c, sql, from, args);
      LeafFaithful(schema, dialect, placeholderOffset, c, sql, from, args);
    }

    method RenderFieldPredicate(name: string) returns (out: Option<RenderResult>)
      requires Valid()
      modifies this
      ensures Valid() && args == old(args) && Done(FieldPredicate(name), out, |args|)
    {
      if name !in schema {
        return None;
      }
      var f := schema[name];
      if f.kind != BoolColumn && f.kind != JSONBool {
        return None;
      }
      ghost var c := FieldPredicate(name);
      var sql := FieldPredicateSql(dialect, f);
      hide Faithful;
      forall row | Fits(schema, row)
        ensures Eval(dialect, sql, row, args[|args|..]) == Meaning(schema, dialect, c, row)
      {
        FieldPredicateRow(schema, dialect, name, row);
      }
      LeafDone(c, sql, |args|);
      return Some(Plain(sql));
    }

    method RenderBoolColumnComparison(name: string, op: CompareOp, rhs: ValueExpr) returns (out: Option<RenderResult>)
      requires Valid() && name in schema && schema[name].kind == BoolColumn
      modifies this
      ensures Valid() && old(args) <= args && Done(Comparison(FieldRef(name), op, rhs), out, |old(args)|)
    {
      if !rhs.Lit? || !rhs.value.LBool? {
        return None;
      }
      hide Faithful;
      var f := schema[name];
      ghost var c := Comparison(FieldRef(name), op, rhs);
      var p := AddArg(BoolArg(dialect, rhs.value.b));
      var sql := Cmp(ColumnExpr(f.column, Bare), op, p);
      forall row | Fits(schema, row)
        ensures Eval(dialect, sql, row, args[|old(args)|..]) == Meaning(schema, dialect, c, row)
      {
        StoredCompare(dialect, op, ColumnValue(row, f.column, Bare), rhs.value.b);
      }
      LeafDone(c, sql, |old(args)|);
      return Some(Plain(sql));
    }

    method RenderJSONBoolComparison(name: string, op: CompareOp, rhs: ValueExpr) returns (out: Option<RenderResult>)
      requires Valid() && name in schema && schema[name].kind == JSONBool
      modifies this
      ensures Valid() && old(args) <= args && Done(Comparison(FieldRef(name), op, rhs), out, |old(args)|)
    {
      if !rhs.Lit? || !rhs.value.LBool? {
        return None;
      }
      if dialect == SQLite && op != Eq && op != Neq {
        return None;
      }
      hide Faithful, Eval, Meaning, ComparisonMeaning, JSONBoolSql, Fits;
      var f := schema[name];
      ghost var c := Comparison(FieldRef(name), op, rhs);
      var sql;
      if dialect == Postgres {
        var p := AddArg(Bool(rhs.value.b));
        sql := Cmp(FlagExpr(Ref(f)), op, p);
        assert args[|old(args)|..] == [Bool(rhs.value.b)];
      } else {
        sql := JSONBoolSql(dialect, f, op, rhs.value.b);
        JSONBoolText(dialect, f, op, rhs.value.b);
      }
      forall row | Fits(schema, row)
        ensures Eval(dialect, sql, row, args[|old(args)|..]) == Meaning(schema, dialect, c, row)
      {
        ComparisonIsMeaning(schema, dialect, FieldRef(name), op, rhs, row);
        if dialect == Postgres {
          FlagRow(schema, name, op, rhs.value.b, sql.p, row);
        } else {
          JSONBoolRow(schema, dialect, name, op, rhs.value.b, row);
        }
      }
      LeafDone(c, sql, |old(args)|);
      return Some(Plain(sql));
    }

    method RenderScalarComparison(name: string, op: CompareOp, rhs: ValueExpr) returns (out: Option<RenderResult>)
      requires Valid() && name in schema && schema[name].kind == Scalar
      modifies this
      ensures Valid() && old(args) <= args && Done(Comparison(FieldRef(name), op, rhs), out, |old(args)|)
    {
      if !rhs.Lit? {
        return None;
      }
      hide Faithful, Eval, Meaning;
      var f := schema[name];
      ghost var c := Comparison(FieldRef(name), op, rhs);
      var p := Param(0);
      if rhs.value.LNull? {
        if op != Eq && op != Neq {
          return None;
        }
      } else {
        if !Comparable(f.typ, rhs.value) {
          return None;
        }
        p := AddArg(Converted(f.typ, rhs.value));
      }
      var sql := ScalarSql(dialect, f, op, rhs.value, p);
      assert args[|old(args)|..] == ScalarArgs(f, rhs.value);
      forall row | Fits(schema, row)
        ensures Eval(dialect, sql, row, args[|old(args)|..]) == Meaning(schema, dialect, c, row)
      {
        ScalarRow(schema, dialect, name, op, rhs.value, p, row);
        ComparisonIsMeaning(schema, dialect, FieldRef(name), op, rhs, row);
      }
      LeafDone(c, sql, |old(args)|);
      return Some(Plain(sql));
    }

    method RenderFunctionComparison(function_: string, fargs: seq<ValueExpr>, op: CompareOp, rhs: ValueExpr)
      returns (out: Option<RenderResult>)
      requires Valid()
      modifies this
      ensures Valid() && old(args) <= args && Done(Comparison(Call(function_, fargs), op, rhs), out, |old(args)|)
    {
      if function_ != "size" || |fargs| != 1 || !fargs[0].FieldRef? || fargs[0].name !in schema {
        return None;
      }
      var f := schema[fargs[0].name];
      if f.kind != JSONList || !rhs.Lit? || !Numeric(rhs.value) {
        return None;
      }
      hide Faithful;
      ghost var c := Comparison(Call(function_, fargs), op, rhs);
      var p := AddArg(Int(ToInt64(rhs.value)));
      var sql := Cmp(LengthExpr(Ref(f)), op, p);
      forall row | Fits(schema, row)
        ensures Eval(dialect, sql, row, args[|old(args)|..]) == Meaning(schema, dialect, c, row)
      {
      }
      LeafDone(c, sql, |old(args)|);
      return Some(Plain(sql));
    }

    method RenderComparison(lhs: ValueExpr, op: CompareOp, rhs: ValueExpr) returns (out: Option<RenderResult>)
      requires Valid()
      modifies this
      ensures Valid() && old(args) <= args && Done(Comparison(lhs, op, rhs), out, |old(args)|)
    {
      hide Faithful;
      match lhs
      case FieldRef(name) =>
        if name !in schema {
          return None;
        }
        match schema[name].kind {
          case BoolColumn => out := RenderBoolColumnComparison(name, op, rhs);
          case JSONBool => out := RenderJSONBoolComparison(name, op, rhs);
          case Scalar => out := RenderScalarComparison(name, op, rhs);
          case _ => return None;
        }
      case Call(f, fargs) =>
        out := RenderFunctionComparison(f, fargs, op, rhs);
      case Lit(_) =>
        return None;
    }

    method RenderElementIn(element: ValueExpr, name: string) returns (out: Option<RenderResult>)
      requires Valid()
      modifies this
      ensures Valid() && old(args) <= args && Done(ElementIn(element, name), out, |old(args)|)
    {
      if name !in schema || schema[name].kind != JSONList || !element.Lit? || !element.value.LStr? {
        return None;
      }
      hide Faithful, ElementArg;
      var r, v := Ref(schema[name]), element.value.s;
      ghost var c := ElementIn(element, name);
      var p := AddArg(ElementArg(dialect, v));
      var sql := ElementSql(dialect, r, p);
      assert Params(sql) == [p];
      assert args[|old(args)|..] == [ElementArg(dialect, v)];
      ElementLeaf(schema, dialect, name, v, p);
      LeafDone(c, sql, |old(args)|);
      return Some(Plain(sql));
    }

    method RenderContains(name: string, text: string) returns (out: Option<RenderResult>)
      requires Valid()
      modifies this
      ensures Valid() && old(args) <= args && Done(ContainsText(name, text), out, |old(args)|)
    {
      if name !in schema {
        return None;
      }
      hide Faithful;
      var x := FieldOperand(dialect, schema[name]);
      ghost var c := ContainsText(name, text);
      var p := AddArg(Str("%" + text + "%"));
      var sql := TextLike(x, p);
      forall row | Fits(schema, row)
        ensures Eval(dialect, sql, row, args[|old(args)|..]) == Meaning(schema, dialect, c, row)
      {
      }
      LeafDone(c, sql, |old(args)|);
      return Some(Plain(sql));
    }

    method RenderExists(name: string, pred: TagPredicate) returns (out: Option<RenderResult>)
      requires Valid()
      modifies this
      ensures Valid() && old(args) <= args && Done(Exists(name, pred), out, |old(args)|)
    {
      if name !in schema || schema[name].kind != JSONList {
        return None;
      }
      hide Faithful, Eval, Fits, WellFormed, Clean, SingleTag, Misses;
      var r := Ref(schema[name]);
      ghost var c := Exists(name, pred);
      ghost var from := |args|;
      var values := ExistsArgs(dialect, pred);
      var p := AddArg(values[0]);
      var q := p;
      if |values| == 2 {
        q := AddArg(values[1]);
      }
      var sql := NullChecked(r, ExistsSql(dialect, r, pred, p, q));
      assert args[from..] == values;
      ExistsParams(dialect, r, pred, p, q);
      ExistsLeaf(schema, dialect, name, pred, p, q);
      LeafDone(c, sql, from);
      return Some(Plain(sql));
    }

    method RenderScalarIn(name: string, values: seq<ValueExpr>) returns (out: Option<RenderResult>)
      requires Valid() && name in schema && schema[name].kind == Scalar && name != "tag"
      modifies this
      ensures Valid() && old(args) <= args && Done(In(FieldRef(name), values), out, |old(args)|)
    {
      hide Faithful, Eval, WellFormed, Runnable;
      var f := schema[name];
      ghost var c, from := In(FieldRef(name), values), |args|;
      var ps: seq<Param> := [];
      for i := 0 to |values|
        invariant Valid() && |ps| == i
        invariant forall v <- values[..i] :: Listable(f.typ, v)
        invariant args == old(args) + ConvertedAll(f.typ, values[..i]) && |args| == from + i
        invariant forall j :: 0 <= j < i ==> ps[j].ordinal == placeholderOffset + from + 1 + j
      {
        var v := values[i];
        if !Listable(f.typ, v) {
          return None;
        }
        var p := AddArg(Converted(f.typ, v.value));
        ps := ps + [p];
        assert values[..i + 1] == values[..i] + [v];
        assert values[..i + 1][..i] == values[..i];
      }
      assert values[..|values|] == values;
      var sql := InParams(FieldOperand(dialect, f), ps);
      assert args[from..] == ConvertedAll(f.typ, values);
      forall row | Fits(schema, row)
        ensures Eval(dialect, sql, row, args[from..]) == Meaning(schema, dialect, c, row)
      {
        hide ConvertedAll;
        InRow(schema, dialect, name, values, ps, row);
      }
      InText(dialect, FieldOperand(dialect, f), ps, name, values);
      LeafDone(c, sql, from);
      return Some(Plain(sql));
    }

    method RenderTagIn(values: seq<ValueExpr>) returns (out: Option<RenderResult>)
      requires Valid()
      modifies this
      ensures Valid() && old(args) <= args && Done(In(FieldRef("tag"), values), out, |old(args)|)
    {
      hide Faithful, TagsRendered, ElementArg, ChildPattern, WellFormed, Runnable, Clean, SingleTag, Misses;
      var field := ResolveAlias(schema, "tag");
      if field.None? {
        return None;
      }
      var r := Ref(field.value);
      ghost var c, from := In(FieldRef("tag"), values), |args|;
      var sql := NoAlternative;
      assert values[..0] == [] && args[from..] == [];
      NoTags(dialect, r);
      for i := 0 to |values|
        invariant Valid() && old(args) <= args && |args| == from + 2 * i && |Params(sql)| == 2 * i
        invariant StringLits(values[..i]) && sql != NoText
        invariant TagsRendered(dialect, r, values[..i], sql, args[from..])
        invariant forall j :: 0 <= j < |Params(sql)| ==> Params(sql)[j].ordinal == placeholderOffset + from + 1 + j
      {
        if !values[i].Lit? || !values[i].value.LStr? {
          return None;
        }
        var v := values[i].value.s;
        ghost var before := args[from..];
        var p := AddArg(ElementArg(dialect, v));
        var q := AddArg(Str(ChildPattern(v)));
        AddTag(dialect, r, values[..i], v, sql, before, p, q);
        assert values[..i + 1] == values[..i] + [Lit(LStr(v))];
        assert args[from..] == before + [ElementArg(dialect, v), Str(ChildPattern(v))];
        sql := AddAlternative(sql, TagOrChildSql(dialect, r, p, q));
      }
      assert values[..|values|] == values;
      TagsLeaf(schema, dialect, r, values, sql, args[from..]);
      TagsWellFormed(dialect, r, values, sql, args[from..]);
      LeafDone(c, sql, from);
      return Some(Plain(sql));
    }

    method RenderIn(needle: ValueExpr, values: seq<ValueExpr>) returns (out: Option<RenderResult>)
      requires Valid()
      modifies this
      ensures Valid() && old(args) <= args && Done(In(needle, values), out, |old(args)|)
    {
      hide Faithful;
      if !needle.FieldRef? {
        return None;
      }
      if needle.name == "tag" {
        out := RenderTagIn(values);
      } else if needle.name !in schema || schema[needle.name].kind != Scalar {
        return None;
      } else {
        out := RenderScalarIn(needle.name, values);
      }
    }

    /** The recursive walk: what it returns, with the arguments it added, is faithful to the tree. */
    method RenderCondition(c: Condition) returns (out: Option<RenderResult>)
      requires Valid()
      modifies this
      ensures Valid() && old(args) <= args && Done(c, out, |old(args)|)
      decreases c
    {
      hide Faithful;
      match c
      case Logical(o, l, r) =>
        var left := RenderCondition(l);
        if left.None? { return None; }
        ghost var mid := args;
        var right := RenderCondition(r);
        if right.None? { return None; }
        CombineFaithful(o, schema, dialect, placeholderOffset, l, r, left.value, right.value, |old(args)|, mid, args);
        return Some(Combine(o, left.value, right.value));
      case Not(e) =>
        var child := RenderCondition(e);
        if child.None? { return None; }
        NegateFaithful(schema, dialect, placeholderOffset, e, child.value, |old(args)|, args);
        return Some(Negate(child.value));
      case FieldPredicate(name) => out := RenderFieldPredicate(name);
      case Comparison(lhs, op, rhs) => out := RenderComparison(lhs, op, rhs);
      case In(needle, values) => out := RenderIn(needle, values);
      case ElementIn(element, name) => out := RenderElementIn(element, name);
      case ContainsText(name, text) => out := RenderContains(name, text);
      case Exists(name, pred) => out := RenderExists(name, pred);
      case Constant(b) =>
        ConstantFaithful(schema, dialect, placeholderOffset, b, |args|, args);
        return Some(if b then EVERYTHING else NOTHING);
    }
  }

  // ---------- statements ----------

  datatype Statement = Statement(sql: Sql, args: seq<Value>)

  /** With these values at its placeholders the fragment means what the tree means. */
  ghost predicate MeansWith(schema: Schema, d: Dialect, c: Condition, sql: Sql, vals: seq<Value>)
    requires Accepted(schema, d, c)
  {
    && |vals| == |Params(sql)|
    && forall row :: Fits(schema, row) ==> Eval(d, sql, row, vals) == Meaning(schema, d, c, row)
  }

  /** The dialect can parse the statement; with the arguments before it and its own it binds, and means what the
      tree means. */
  ghost predicate BindsAndMeans(schema: Schema, d: Dialect, c: Condition, sql: Sql, all: seq<Value>)
    requires Accepted(schema, d, c)
  {
    var vals := Bind(d, Params(sql), all);
    WellFormed(d, sql) && vals.Some? && MeansWith(schema, d, c, sql, vals.value)
  }

  /** The same with a driver that ignores surplus arguments. */
  ghost predicate BindsFirstAndMeans(schema: Schema, d: Dialect, c: Condition, sql: Sql, all: seq<Value>)
    requires Accepted(schema, d, c)
  {
    var vals := BindFirst(Params(sql), all);
    WellFormed(d, sql) && vals.Some? && MeansWith(schema, d, c, sql, vals.value)
  }

  /** Trees of which it is known whether their rendering means them: exactly if their literals are clean. */
  predicate Decided(d: Dialect, c: Condition) {
    Clean(d, c) || SingleTag(c)
  }

  /** What `Render` promises before its arguments are bound. */
  ghost predicate Renders(schema: Schema, d: Dialect, offset: nat, c: Condition, stmt: Statement)
    requires Accepted(schema, d, c)
  {
    var ps := Params(stmt.sql);
    && |stmt.args| == ArgCount(schema, d, c)
    && (stmt.sql == NoText <==> Folds(c) == Some(true))
    && (WellFormed(d, stmt.sql) <==> Runnable(d, c))
    && Numbered(ps, offset, 0, |stmt.args|)
    && Ordinals(ps) == Positions(Survivors(schema, d, c), offset)
    && (Clean(d, c) ==> MeansWith(schema, d, c, stmt.sql, Own(ps, offset, stmt.args)))
    && (SingleTag(c) && MeansWith(schema, d, c, stmt.sql, Own(ps, offset, stmt.args)) ==> Clean(d, c))
  }

  lemma FaithfulRenders(schema: Schema, d: Dialect, offset: nat, c: Condition, out: RenderResult, args: seq<Value>)
    requires Accepted(schema, d, c) && Faithful(schema, d, offset, c, out, 0, args)
    ensures out.sql == if out.unsatisfiable then OneIsZero else if out.trivial then NoText else out.sql
    ensures Renders(schema, d, offset, c, Statement(out.sql, args))
    ensures |Params(out.sql)| == |args| <==> NoDiscard(schema, d, c)
  {
    hide Accepted, Fits, Folds, NoDiscard, ArgCount, Eval, Meaning, WellFormed, Runnable, Clean, SingleTag, Numbered,
      Own, Ordinals, Positions, Survivors;
  }

  lemma StatementBinds(schema: Schema, d: Dialect, offset: nat, c: Condition, stmt: Statement)
    requires Accepted(schema, d, c) && Renders(schema, d, offset, c, stmt)
    requires |Params(stmt.sql)| == |stmt.args| <==> NoDiscard(schema, d, c)
    ensures d == Postgres && Decided(d, c) ==>
              forall before: seq<Value> :: |before| == offset ==>
                (BindsAndMeans(schema, d, c, stmt.sql, before + stmt.args) <==> Runnable(d, c) && Clean(d, c))
    ensures d != Postgres ==> (Bind(d, Params(stmt.sql), stmt.args).Some? <==> NoDiscard(schema, d, c))
    ensures d != Postgres && Decided(d, c) ==>
              (BindsAndMeans(schema, d, c, stmt.sql, stmt.args) <==>
               NoDiscard(schema, d, c) && Runnable(d, c) && Clean(d, c))
    ensures InStep(Params(stmt.sql), offset) <==> KeptFirst(Survivors(schema, d, c))
    ensures Decided(d, c) && KeptFirst(Survivors(schema, d, c)) ==>
              (BindsFirstAndMeans(schema, d, c, stmt.sql, stmt.args) <==> Runnable(d, c) && Clean(d, c))
  {
    hide Accepted, MeansWith, NoDiscard, WellFormed, Runnable, Clean, SingleTag, Numbered, Own, Ordinals, Positions,
      Survivors, Bind, BindFirst, InStep, KeptFirst;
    OwnBinding(d, Params(stmt.sql), offset, stmt.args);
    OrdinalsInStep(Params(stmt.sql), Survivors(schema, d, c), offset);
  }

  /** `Render`: the text parses exactly when folding leaves no empty list the dialect cannot write; with every
      placeholder on its own argument it means its tree, for one tag test exactly if the literal is clean. On
      Postgres every `$k` names its own argument, whatever arguments come before and whatever folding discards.
      With `?` the arguments bind exactly when folding discards none; a driver that ignores surplus arguments puts
      each placeholder on its own exactly when those discarded come last. */
  method Render(schema: Schema, d: Dialect, offset: nat, c: Condition) returns (stmt: Option<Statement>)
    ensures stmt.Some? <==> Accepted(schema, d, c)
    ensures stmt.Some? ==> Renders(schema, d, offset, c, stmt.value)
    ensures stmt.Some? && d == Postgres && Decided(d, c) ==>
              forall before: seq<Value> :: |before| == offset ==>
                (BindsAndMeans(schema, d, c, stmt.value.sql, before + stmt.value.args) <==>
                 Runnable(d, c) && Clean(d, c))
    ensures stmt.Some? && d != Postgres ==>
              (Bind(d, Params(stmt.value.sql), stmt.value.args).Some? <==> NoDiscard(schema, d, c))
    ensures stmt.Some? && d != Postgres && Decided(d, c) ==>
              (BindsAndMeans(schema, d, c, stmt.value.sql, stmt.value.args) <==>
               NoDiscard(schema, d, c) && Runnable(d, c) && Clean(d, c))
    ensures stmt.Some? && d != Postgres ==>
              (InStep(Params(stmt.value.sql), offset) <==> KeptFirst(Survivors(schema, d, c)))
    ensures stmt.Some? && d != Postgres && Decided(d, c) && KeptFirst(Survivors(schema, d, c)) ==>
              (BindsFirstAndMeans(schema, d, c, stmt.value.sql, stmt.value.args) <==> Runnable(d, c) && Clean(d, c))
  {
    hide Faithful, BindsAndMeans, BindsFirstAndMeans, Renders, InStep;
    var r := new Renderer(schema, d, offset);
    var out := r.RenderCondition(c);
    if out.None? {
      return None;
    }
    var res := out.value;
    var sql := if res.unsatisfiable then OneIsZero else if res.trivial then NoText else res.sql;
    FaithfulRenders(schema, d, offset, c, res, r.args);
    StatementBinds(schema, d, offset, c, Statement(sql, r.args));
    return Some(Statement(sql, r.args));
  }

  // ---------- examples ----------

  /** The smallest trees on which `?` does not bind: a constant folds away a side that has an argument. To a driver
      that ignores surplus arguments it matters whether that side comes first or last. */
  lemma DiscardExample(schema: Schema, d: Dialect, x: Condition, y: Condition)
    requires Folds(y).None? && ArgCount(schema, d, x) > 0
    ensures var side := Logical(LogicalOr, x, Constant(true));
            var first, last := Logical(LogicalAnd, side, y), Logical(LogicalAnd, y, side);
            && Folds(first).None? && !NoDiscard(schema, d, first)
            && Folds(last).None? && !NoDiscard(schema, d, last)
            && (NoDiscard(schema, d, y) && ArgCount(schema, d, y) > 0 ==>
                  !KeptFirst(Survivors(schema, d, first)) && KeptFirst(Survivors(schema, d, last)))
  {
    var side := Logical(LogicalOr, x, Constant(true));
    assert Folds(Constant(true)) == Some(true);
    assert Folds(side) == Some(true);
    assert !NoDiscard(schema, d, side);
    if NoDiscard(schema, d, y) && ArgCount(schema, d, y) > 0 {
      NoDiscardSurvivors(schema, d, y);
      hide NoDiscard, Folds, KeptFirst, ArgCount;
      var kept, dropped := Survivors(schema, d, y), Survivors(schema, d, side);
      KeptThenDropped(kept, dropped);
      DroppedThenKept(dropped, kept);
    }
  }

  lemma DroppedThenKept(dropped: seq<bool>, kept: seq<bool>)
    requires dropped != [] && kept != [] && true !in dropped && false !in kept
    ensures !KeptFirst(dropped + kept)
  {
    assert dropped[0] in dropped && kept[0] in kept;
    assert (dropped + kept)[|dropped|] == kept[0];
  }

  lemma MisbindRow(schema: Schema, d: Dialect, name: string, i: int)
    requires name in schema && schema[name].kind == Scalar && schema[name].typ == IntType
    ensures var f, n, row := schema[name], FieldRef(name), Row(map[schema[name].column := Int(i)], map[], map[]);
            var seven, eight := Comparison(n, Eq, Lit(LInt(7))), Comparison(n, Eq, Lit(LInt(8)));
            var c := Logical(LogicalAnd, Logical(LogicalOr, seven, Constant(true)), eight);
            && Accepted(schema, d, seven) && Accepted(schema, d, eight) && Accepted(schema, d, c)
            && (Meaning(schema, d, c, row) == True <==> i == 8)
            && (Eval(d, ScalarSql(d, f, Eq, LInt(8), Param(2)), row, [Int(7)]) == True <==> i == 7)
  {
    var f, n, row := schema[name], FieldRef(name), Row(map[schema[name].column := Int(i)], map[], map[]);
    var seven, eight := Comparison(n, Eq, Lit(LInt(7))), Comparison(n, Eq, Lit(LInt(8)));
    var c := Logical(LogicalAnd, Logical(LogicalOr, seven, Constant(true)), eight);
    assert Accepted(schema, d, seven) && Accepted(schema, d, eight);
    assert FieldValue(row, f, d) == Some(Int(i));
    assert Meaning(schema, d, eight, row) == Truth(i == 8);
    assert Meaning(schema, d, Logical(LogicalOr, seven, Constant(true)), row) == True;
    assert OperandValue(d, FieldOperand(d, f), row) == Some(Int(i));
  }

  /** `(n == 7 || true) && n == 8` as rendered with `?`: its one placeholder was made for the second argument, and a
      driver that ignores surplus arguments binds it to the first, so rows with 7 are found and rows with 8 are not. */
  lemma MisbindExample(schema: Schema, d: Dialect, name: string)
    requires name in schema && schema[name].kind == Scalar && schema[name].typ == IntType && d != Postgres
    ensures var f, n := schema[name], FieldRef(name);
            var seven, eight := Comparison(n, Eq, Lit(LInt(7))), Comparison(n, Eq, Lit(LInt(8)));
            var c := Logical(LogicalAnd, Logical(LogicalOr, seven, Constant(true)), eight);
            var left, right := ScalarSql(d, f, Eq, LInt(7), Param(1)), ScalarSql(d, f, Eq, LInt(8), Param(2));
            var out, args := CombineAnd(CombineOr(Plain(left), EVERYTHING), Plain(right)), [Int(7), Int(8)];
            && Accepted(schema, d, c) && args == ScalarArgs(f, LInt(7)) + ScalarArgs(f, LInt(8))
            && Params(out.sql) == [Param(2)] && Bind(d, Params(out.sql), args) == None
            && BindFirst(Params(out.sql), args) == Some([Int(7)])
            && forall i: int :: var row := Row(map[f.column := Int(i)], map[], map[]);
                 && (Meaning(schema, d, c, row) == True <==> i == 8)
                 && (Eval(d, out.sql, row, [Int(7)]) == True <==> i == 7)
  {
    var f, n := schema[name], FieldRef(name);
    var seven, eight := Comparison(n, Eq, Lit(LInt(7))), Comparison(n, Eq, Lit(LInt(8)));
    var c := Logical(LogicalAnd, Logical(LogicalOr, seven, Constant(true)), eight);
    var right := ScalarSql(d, f, Eq, LInt(8), Param(2));
    assert [Int(7), Int(8)][..1] == [Int(7)];
    assert AcceptedComparison(schema, d, n, Eq, seven.rhs) && AcceptedComparison(schema, d, n, Eq, eight.rhs);
    MisbindRow(schema, d, name, 7);
    assert right == Cmp(FieldOperand(d, f), Eq, Param(2));
    assert Params(right) == [Param(2)];
    var left := ScalarSql(d, f, Eq, LInt(7), Param(1));
    assert CombineAnd(CombineOr(Plain(left), EVERYTHING), Plain(right)) == Plain(right);
    hide Accepted, Bind, BindFirst, Meaning, Eval;
    forall i: int
      ensures var row := Row(map[f.column := Int(i)], map[], map[]);
              && (Meaning(schema, d, c, row) == True <==> i == 8)
              && (Eval(d, right, row, [Int(7)]) == True <==> i == 7)
    {
      MisbindRow(schema, d, name, i);
    }
  }

  /** An empty list: no dialect parses `tag in []`, and MySQL and Postgres do not parse `f in []` of any other
      field; negating it or joining it with a live test does not help, folding it away does. */
  lemma EmptyListExample(d: Dialect, name: string, y: Condition)
    requires name != "tag" && Folds(y).None?
    ensures !Runnable(d, In(FieldRef("tag"), []))
    ensures Runnable(d, In(FieldRef(name), [])) <==> d == SQLite
    ensures !Runnable(d, Logical(LogicalOr, y, Not(In(FieldRef("tag"), []))))
    ensures Runnable(d, Logical(LogicalAnd, In(FieldRef("tag"), []), Constant(false)))
  {
    var empty := In(FieldRef("tag"), []);
    assert Folds(empty).None?;
    assert Folds(Constant(false)) == Some(false);
    assert Folds(Not(empty)).None? && !Runnable(d, Not(empty));
  }

  /** A boolean JSON field missing from a row counts as false on SQLite and as NULL on Postgres, so the
      two agree exactly where the field is present or is has_task_list. */
  lemma MissingFlag(schema: Schema, name: string, op: CompareOp, b: bool, row: Row)
    requires name in schema && schema[name].kind == JSONBool && (op == Eq || op == Neq)
    ensures var rhs := Lit(LBool(b));
            ComparisonMeaning(schema, SQLite, FieldRef(name), op, rhs, row) ==
              ComparisonMeaning(schema, Postgres, FieldRef(name), op, rhs, row)
            <==> Ref(schema[name]) in row.flags || schema[name].name == "has_task_list"
  {
    var f := schema[name];
    if Ref(f) in row.flags {
      var x := row.flags[Ref(f)];
      assert Flag(row, f) == Some(Bool(x));
      assert Compare(op, Some(Bool(x)), Bool(b)) == Truth((x == b) == (op == Eq));
    }
  }
}
