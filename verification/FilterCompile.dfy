/** memos/lib/filter/engine.go, CompileToStatement: parser and renderer one after the other. */
module FilterCompile {
  import opened Calendar
  import opened FilterIR
  import opened FilterSql
  import opened FilterTags
  import opened FilterParser
  import FilterLeaves
  import FilterNumbers
  import FilterRender

  /** With these values at its placeholders the fragment says what the expression says. */
  ghost predicate SaysWith(schema: Schema, d: Dialect, e: Expr, now: Int64, sql: Sql, vals: seq<Value>)
    requires Build(e, schema, now).Some?
  {
    && |vals| == |Params(sql)|
    && forall row :: FilterLeaves.Fits(schema, row) ==> Eval(d, sql, row, vals) == Says(e, schema, d, row, now)
  }

  /** The dialect can parse the statement; with all the query's arguments before and its own it says of every row
      that fits the schema what the expression says. */
  ghost predicate BindsAndSays(schema: Schema, d: Dialect, e: Expr, now: Int64, sql: Sql, all: seq<Value>)
    requires Build(e, schema, now).Some?
  {
    var vals := Bind(d, Params(sql), all);
    WellFormed(d, sql) && vals.Some? && SaysWith(schema, d, e, now, sql, vals.value)
  }

  /** The same with a driver that ignores surplus arguments. */
  ghost predicate BindsFirstAndSays(schema: Schema, d: Dialect, e: Expr, now: Int64, sql: Sql, all: seq<Value>)
    requires Build(e, schema, now).Some?
  {
    var vals := BindFirst(Params(sql), all);
    WellFormed(d, sql) && vals.Some? && SaysWith(schema, d, e, now, sql, vals.value)
  }

  lemma MeansIsSays(schema: Schema, d: Dialect, e: Expr, now: Int64, sql: Sql, vals: seq<Value>)
    requires Build(e, schema, now).Some? && Accepted(schema, d, Build(e, schema, now).value) && Regular(e, d, now)
    ensures FilterRender.MeansWith(schema, d, Build(e, schema, now).value, sql, vals) <==>
            SaysWith(schema, d, e, now, sql, vals)
  {
    hide Build, Says, Meaning, Accepted, Regular, Eval, Params, FilterLeaves.Fits;
    var c := Build(e, schema, now).value;
    forall row ensures Meaning(schema, d, c, row) == Says(e, schema, d, row, now) {
      BuildPreserves(e, schema, d, row, now);
    }
  }

  lemma UnfoldMeans(schema: Schema, d: Dialect, c: Condition, sql: Sql, all: seq<Value>)
    requires Accepted(schema, d, c)
    ensures FilterRender.BindsAndMeans(schema, d, c, sql, all) <==>
              WellFormed(d, sql) && Bind(d, Params(sql), all).Some? &&
              FilterRender.MeansWith(schema, d, c, sql, Bind(d, Params(sql), all).value)
    ensures FilterRender.BindsFirstAndMeans(schema, d, c, sql, all) <==>
              WellFormed(d, sql) && BindFirst(Params(sql), all).Some? &&
              FilterRender.MeansWith(schema, d, c, sql, BindFirst(Params(sql), all).value)
  {
    hide Accepted, Bind, BindFirst, Params, WellFormed, FilterRender.MeansWith;
  }

  lemma UnfoldSays(schema: Schema, d: Dialect, e: Expr, now: Int64, sql: Sql, all: seq<Value>)
    requires Build(e, schema, now).Some?
    ensures BindsAndSays(schema, d, e, now, sql, all) <==>
              WellFormed(d, sql) && Bind(d, Params(sql), all).Some? &&
              SaysWith(schema, d, e, now, sql, Bind(d, Params(sql), all).value)
    ensures BindsFirstAndSays(schema, d, e, now, sql, all) <==>
              WellFormed(d, sql) && BindFirst(Params(sql), all).Some? &&
              SaysWith(schema, d, e, now, sql, BindFirst(Params(sql), all).value)
  {
    hide Build, Bind, BindFirst, Params, WellFormed, SaysWith;
  }

  lemma BindsIsSays(schema: Schema, d: Dialect, e: Expr, now: Int64, sql: Sql, all: seq<Value>)
    requires Build(e, schema, now).Some? && Accepted(schema, d, Build(e, schema, now).value) && Regular(e, d, now)
    ensures FilterRender.BindsAndMeans(schema, d, Build(e, schema, now).value, sql, all) <==>
            BindsAndSays(schema, d, e, now, sql, all)
    ensures FilterRender.BindsFirstAndMeans(schema, d, Build(e, schema, now).value, sql, all) <==>
            BindsFirstAndSays(schema, d, e, now, sql, all)
  {
    hide *;
    UnfoldMeans(schema, d, Build(e, schema, now).value, sql, all);
    UnfoldSays(schema, d, e, now, sql, all);
    var bound, first := Bind(d, Params(sql), all), BindFirst(Params(sql), all);
    if bound.Some? {
      MeansIsSays(schema, d, e, now, sql, bound.value);
    }
    if first.Some? {
      MeansIsSays(schema, d, e, now, sql, first.value);
    }
  }

  /** From expression to SQL: a regular expression's statement can be run, with the expression's truth value on
      every row, exactly when folding leaves no empty list the dialect cannot write and no tag literal its tests
      do not take as it stands, and, with `?`, discards no side that carries arguments. For a driver that ignores
      surplus arguments it is enough that those discarded come last. */
  method CompileToStatement(schema: Schema, d: Dialect, offset: nat, e: Expr, now: Int64)
    returns (stmt: Option<FilterRender.Statement>)
    ensures stmt.Some? <==> Build(e, schema, now).Some? && Accepted(schema, d, Build(e, schema, now).value)
    ensures stmt.Some? && Regular(e, d, now) && d == Postgres ==>
              var c := Build(e, schema, now).value;
              FilterRender.Decided(d, c) ==>
                forall before: seq<Value> :: |before| == offset ==>
                  (BindsAndSays(schema, d, e, now, stmt.value.sql, before + stmt.value.args) <==>
                   Runnable(d, c) && Clean(d, c))
    ensures stmt.Some? && Regular(e, d, now) && d != Postgres ==>
              var c := Build(e, schema, now).value;
              FilterRender.Decided(d, c) ==>
                (BindsAndSays(schema, d, e, now, stmt.value.sql, stmt.value.args) <==>
                 NoDiscard(schema, d, c) && Runnable(d, c) && Clean(d, c))
    ensures stmt.Some? && Regular(e, d, now) && d != Postgres ==>
              var c := Build(e, schema, now).value;
              FilterRender.Decided(d, c) && KeptFirst(Survivors(schema, d, c)) ==>
                (BindsFirstAndSays(schema, d, e, now, stmt.value.sql, stmt.value.args) <==>
                 Runnable(d, c) && Clean(d, c))
    ensures stmt.Some? && d != Postgres ==>
              (FilterNumbers.InStep(Params(stmt.value.sql), offset) <==>
               KeptFirst(Survivors(schema, d, Build(e, schema, now).value)))
  {
    hide Build, Regular, Accepted, NoDiscard, Runnable, Clean, BindsAndSays, BindsFirstAndSays, Bind, Params,
      FilterRender.BindsAndMeans, FilterRender.BindsFirstAndMeans, FilterRender.Renders, FilterRender.Decided,
      FilterNumbers.InStep, KeptFirst, Survivors;
    var c := Build(e, schema, now);
    if c.None? {
      return None;
    }
    stmt := FilterRender.Render(schema, d, offset, c.value);
    if stmt.Some? && Regular(e, d, now) {
      forall all
        ensures FilterRender.BindsAndMeans(schema, d, c.value, stmt.value.sql, all) <==>
                BindsAndSays(schema, d, e, now, stmt.value.sql, all)
        ensures FilterRender.BindsFirstAndMeans(schema, d, c.value, stmt.value.sql, all) <==>
                BindsFirstAndSays(schema, d, e, now, stmt.value.sql, all)
      {
        BindsIsSays(schema, d, e, now, stmt.value.sql, all);
      }
    }
  }

  /** `name in []` is built and rendered; only SQLite can run it, and none can for `tag`. */
  lemma EmptyList(schema: Schema, d: Dialect, name: string, now: Int64)
    requires ResolveAlias(schema, name).Some?
    ensures var c := Build(Apply(InFn, None, [Ident(name), ListE([])]), schema, now);
            c == Some(In(FieldRef(name), [])) && (Runnable(d, c.value) <==> d == SQLite && name != "tag")
    ensures (name in schema && schema[name].kind == Scalar) || name == "tag" ==>
              Accepted(schema, d, In(FieldRef(name), []))
  {
    assert BuildValues([], schema, now) == Some([]);
  }
}
