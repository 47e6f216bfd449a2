/** memos/lib/filter/helpers.go: rendered filters appended to a query that has conditions already. */
module FilterQuery {
  import opened Calendar
  import opened FilterIR
  import opened FilterSql
  import opened FilterTags
  import opened FilterNumbers
  import opened FilterLeaves
  import opened FilterRender

  /** The WHERE list, joined by AND. */
  function Conj(where_: seq<Sql>): Sql {
    if where_ == [] then NoText else AndOf(Conj(where_[..|where_| - 1]), where_[|where_| - 1])
  }

  function AllMean(schema: Schema, d: Dialect, filters: seq<Condition>, row: Row): TV
    requires forall c <- filters :: Accepted(schema, d, c)
  {
    if filters == [] then True
    else
      var n := |filters| - 1;
      assert filters[n] in filters;
      And3(AllMean(schema, d, filters[..n], row), Meaning(schema, d, filters[n], row))
  }

  lemma AllMeanAppended(schema: Schema, d: Dialect, filters: seq<Condition>, c: Condition)
    requires (forall x <- filters :: Accepted(schema, d, x)) && Accepted(schema, d, c)
    ensures forall x <- filters + [c] :: Accepted(schema, d, x)
  {
  }

  lemma And3True(x: TV)
    ensures And3(x, True) == x
  {
  }

  lemma And3Associates(a: TV, b: TV, c: TV)
    ensures And3(And3(a, b), c) == And3(a, And3(b, c))
  {
  }

  lemma AllMeanAppend(schema: Schema, d: Dialect, filters: seq<Condition>, c: Condition, row: Row)
    requires (forall x <- filters :: Accepted(schema, d, x)) && Accepted(schema, d, c)
    ensures forall x <- filters + [c] :: Accepted(schema, d, x)
    ensures AllMean(schema, d, filters + [c], row) == And3(AllMean(schema, d, filters, row), Meaning(schema, d, c, row))
  {
    hide Accepted, Meaning;
    var more := filters + [c];
    assert more[..|more| - 1] == filters && more[|filters|] == c;
  }

  lemma EvalAnd(d: Dialect, a: Sql, b: Sql, row: Row, v: seq<Value>, w: seq<Value>)
    requires |v| == |Params(a)| && |w| == |Params(b)|
    ensures |v + w| == |Params(AndOf(a, b))|
    ensures Eval(d, AndOf(a, b), row, v + w) == And3(Eval(d, a, row, v), Eval(d, b, row, w))
  {
    assert (v + w)[..|v|] == v && (v + w)[|v|..] == w;
  }

  lemma AppendText(d: Dialect, where_: seq<Sql>, sql: Sql)
    ensures Conj(where_ + [sql]) == AndOf(Conj(where_), sql)
    ensures Params(Conj(where_ + [sql])) == Params(Conj(where_)) + Params(sql)
    ensures Ordinals(Params(Conj(where_ + [sql]))) == Ordinals(Params(Conj(where_))) + Ordinals(Params(sql))
    ensures WellFormed(d, Conj(where_ + [sql])) <==> WellFormed(d, Conj(where_)) && WellFormed(d, sql)
  {
    assert (where_ + [sql])[..|where_|] == where_;
  }

  /** A filter that folds to true is dropped with its arguments; any other keeps all of them. */
  predicate Kept(schema: Schema, d: Dialect, c: Condition) {
    Folds(c) == Some(true) || NoDiscard(schema, d, c)
  }

  /** Which of the filters' arguments keep their placeholder. */
  function QuerySurvivors(schema: Schema, d: Dialect, filters: seq<Condition>): seq<bool> {
    if filters == [] then []
    else
      var n := |filters| - 1;
      QuerySurvivors(schema, d, filters[..n])
      + if Folds(filters[n]) == Some(true) then [] else Survivors(schema, d, filters[n])
  }

  lemma QuerySurvivorsNext(schema: Schema, d: Dialect, filters: seq<Condition>, c: Condition)
    ensures QuerySurvivors(schema, d, filters + [c]) ==
            QuerySurvivors(schema, d, filters) + if Folds(c) == Some(true) then [] else Survivors(schema, d, c)
  {
    assert (filters + [c])[..|filters|] == filters;
  }

  /** All of them do exactly if every filter keeps its own. */
  lemma {:induction false} QueryKept(schema: Schema, d: Dialect, filters: seq<Condition>)
    ensures false !in QuerySurvivors(schema, d, filters) <==> forall c <- filters :: Kept(schema, d, c)
  {
    if filters != [] {
      var n := |filters| - 1;
      var front, last := filters[..n], filters[n];
      QueryKept(schema, d, front);
      NoDiscardSurvivors(schema, d, last);
      assert Kept(schema, d, last) <==> Folds(last) == Some(true) || NoDiscard(schema, d, last);
      var a := QuerySurvivors(schema, d, front);
      var b := if Folds(last) == Some(true) then [] else Survivors(schema, d, last);
      hide NoDiscard, Survivors, Folds, Kept;
      assert QuerySurvivors(schema, d, filters) == a + b;
      assert false in a + b <==> false in a || false in b;
      assert filters == front + [last];
      assert forall c :: c in filters <==> c in front || c == last;
    }
  }

  /** With these values the query restricts the rows it restricted before to those the filters accept. */
  ghost predicate QueryMeans(schema: Schema, d: Dialect, filters: seq<Condition>, before: Sql, beforeVals: seq<Value>,
                             query: Sql, vals: seq<Value>)
    requires forall c <- filters :: Accepted(schema, d, c)
  {
    && |beforeVals| == |Params(before)| && |vals| == |Params(query)|
    && forall row :: Fits(schema, row) ==>
         Eval(d, query, row, vals) == And3(Eval(d, before, row, beforeVals), AllMean(schema, d, filters, row))
  }

  lemma Unchanged(schema: Schema, d: Dialect, sql: Sql, args: seq<Value>)
    requires Bind(d, Params(sql), args).Some?
    ensures QuerySurvivors(schema, d, []) == [] && Positions([], |args|) == []
    ensures var vals := Bind(d, Params(sql), args).value;
            QueryMeans(schema, d, [], sql, vals, sql, QueryVals(vals, [], |args|, args))
  {
    hide Eval, Bind, Params, And3, Fits, Pick;
    BindCounts(d, Params(sql), args);
    var vals := Bind(d, Params(sql), args).value;
    assert QueryVals(vals, [], |args|, args) == vals;
    hide QueryVals;
    forall x: TV ensures And3(x, True) == x {
      And3True(x);
    }
  }

  lemma SkipTrivial(schema: Schema, d: Dialect, filters: seq<Condition>, c: Condition, before: Sql,
                    beforeVals: seq<Value>, query: Sql, vals: seq<Value>)
    requires (forall x <- filters :: Accepted(schema, d, x)) && Accepted(schema, d, c) && Folds(c) == Some(true)
    requires QueryMeans(schema, d, filters, before, beforeVals, query, vals)
    ensures forall x <- filters + [c] :: Accepted(schema, d, x)
    ensures QueryMeans(schema, d, filters + [c], before, beforeVals, query, vals)
  {
    hide Eval, Params, Accepted, Folds, Meaning, Fits, AllMean, And3;
    AllMeanAppended(schema, d, filters, c);
    forall row ensures AllMean(schema, d, filters + [c], row) == AllMean(schema, d, filters, row) {
      AllMeanAppend(schema, d, filters, c, row);
      FoldsIsMeaning(schema, d, c, row);
      And3True(AllMean(schema, d, filters, row));
    }
  }

  lemma AppendMeans(schema: Schema, d: Dialect, filters: seq<Condition>, c: Condition, before: Sql,
                    beforeVals: seq<Value>, where_: seq<Sql>, vals: seq<Value>, sql: Sql, own: seq<Value>)
    requires (forall x <- filters :: Accepted(schema, d, x)) && Accepted(schema, d, c)
    requires QueryMeans(schema, d, filters, before, beforeVals, Conj(where_), vals)
    requires MeansWith(schema, d, c, sql, own)
    ensures forall x <- filters + [c] :: Accepted(schema, d, x)
    ensures QueryMeans(schema, d, filters + [c], before, beforeVals, Conj(where_ + [sql]), vals + own)
  {
    hide Accepted, Meaning, Fits, Conj, Eval, Params, And3, AllMean, WellFormed;
    AppendText(d, where_, sql);
    var more := filters + [c];
    forall row | Fits(schema, row)
      ensures Eval(d, AndOf(Conj(where_), sql), row, vals + own) ==
              And3(Eval(d, before, row, beforeVals), AllMean(schema, d, more, row))
    {
      AllMeanAppend(schema, d, filters, c, row);
      EvalAnd(d, Conj(where_), sql, row, vals, own);
      And3Associates(Eval(d, before, row, beforeVals), AllMean(schema, d, filters, row), Meaning(schema, d, c, row));
    }
    AllMeanAppended(schema, d, filters, c);
  }

  /** The values the query's placeholders were made for. */
  ghost function OwnVals(schema: Schema, d: Dialect, filters: seq<Condition>, where0: seq<Sql>, args0: seq<Value>,
                         args: seq<Value>): seq<Value>
    requires Bind(d, Params(Conj(where0)), args0).Some? && |args| == |args0| + |QuerySurvivors(schema, d, filters)|
  {
    QueryVals(Bind(d, Params(Conj(where0)), args0).value, QuerySurvivors(schema, d, filters), |args0|, args)
  }

  lemma RendersText(schema: Schema, d: Dialect, offset: nat, c: Condition, stmt: Statement)
    requires Accepted(schema, d, c) && Renders(schema, d, offset, c, stmt)
    ensures |stmt.args| == |Survivors(schema, d, c)|
    ensures stmt.sql == NoText <==> Folds(c) == Some(true)
    ensures Folds(c).Some? ==> Runnable(d, c) && Clean(d, c)
    ensures WellFormed(d, stmt.sql) <==> Runnable(d, c)
    ensures Ordinals(Params(stmt.sql)) == Positions(Survivors(schema, d, c), offset)
  {
    hide MeansWith, Numbered;
  }

  lemma NextOrdinals(schema: Schema, d: Dialect, filters: seq<Condition>, c: Condition, where_: seq<Sql>, from: nat,
                     offset: nat, ordinals0: seq<int>, sql: Sql)
    requires offset == from + |QuerySurvivors(schema, d, filters)|
    requires Ordinals(Params(Conj(where_))) == ordinals0 + Positions(QuerySurvivors(schema, d, filters), from)
    requires Ordinals(Params(sql)) == Positions(Survivors(schema, d, c), offset)
    ensures Folds(c) == Some(true) ==> QuerySurvivors(schema, d, filters + [c]) == QuerySurvivors(schema, d, filters)
    ensures Folds(c) != Some(true) ==>
              && |QuerySurvivors(schema, d, filters + [c])| ==
                 |QuerySurvivors(schema, d, filters)| + |Survivors(schema, d, c)|
              && Ordinals(Params(Conj(where_ + [sql]))) ==
                 ordinals0 + Positions(QuerySurvivors(schema, d, filters + [c]), from)
  {
    AppendText(d, where_, sql);
    QuerySurvivorsNext(schema, d, filters, c);
    PositionsConcat(QuerySurvivors(schema, d, filters), Survivors(schema, d, c), from);
    hide Positions, Ordinals, QuerySurvivors, Survivors, Conj, Params, Folds;
    var mask, more := QuerySurvivors(schema, d, filters), Survivors(schema, d, c);
    assert mask + [] == mask;
    AssociativeNumbers(ordinals0, Positions(mask, from), Positions(more, offset));
  }

  /** One more filter: its own values follow those of the query so far. */
  lemma NextVals(schema: Schema, d: Dialect, filters: seq<Condition>, c: Condition, before: Sql, vals0: seq<Value>,
                 where_: seq<Sql>, from: nat, args: seq<Value>, stmt: Statement)
    requires (forall x <- filters :: Accepted(schema, d, x)) && Accepted(schema, d, c) && Clean(d, c)
    requires |args| == from + |QuerySurvivors(schema, d, filters)| && Folds(c) != Some(true)
    requires Renders(schema, d, |args|, c, stmt)
    requires QueryMeans(schema, d, filters, before, vals0, Conj(where_),
                        QueryVals(vals0, QuerySurvivors(schema, d, filters), from, args))
    ensures forall x <- filters + [c] :: Accepted(schema, d, x)
    ensures |args + stmt.args| == from + |QuerySurvivors(schema, d, filters + [c])|
    ensures QueryMeans(schema, d, filters + [c], before, vals0, Conj(where_ + [stmt.sql]),
                       QueryVals(vals0, QuerySurvivors(schema, d, filters + [c]), from, args + stmt.args))
  {
    hide Accepted, Clean, SingleTag, Conj, Params, Eval, QuerySurvivors, Survivors, WellFormed, Runnable, Numbered,
      Pick, Ordinals, Positions, MeansWith, QueryMeans, Folds, Own, Within;
    QuerySurvivorsNext(schema, d, filters, c);
    var mask, more := QuerySurvivors(schema, d, filters), Survivors(schema, d, c);
    var own := Own(Params(stmt.sql), |args|, stmt.args);
    OwnIsPick(Params(stmt.sql), args, stmt.args);
    PositionsConcat(mask, more, from);
    PositionsWithin(mask, from);
    PickAppend(Positions(mask, from), Positions(more, |args|), args, stmt.args);
    AppendMeans(schema, d, filters, c, before, vals0, where_, QueryVals(vals0, mask, from, args), stmt.sql, own);
    Associative(vals0, Pick(Positions(mask, from), args), own);
  }

  /** What the numbers of a query's placeholders say about its binding. */
  lemma QueryBinds(schema: Schema, d: Dialect, filters: seq<Condition>, where0: seq<Sql>, args0: seq<Value>,
                   where_: seq<Sql>, args: seq<Value>)
    requires Bind(d, Params(Conj(where0)), args0).Some? && args0 <= args
    requires |args| == |args0| + |QuerySurvivors(schema, d, filters)|
    requires Ordinals(Params(Conj(where_))) ==
             Ordinals(Params(Conj(where0))) + Positions(QuerySurvivors(schema, d, filters), |args0|)
    ensures d == Postgres ==>
              Bind(d, Params(Conj(where_)), args) == Some(OwnVals(schema, d, filters, where0, args0, args))
    ensures d != Postgres ==>
              Bind(d, Params(Conj(where_)), args) ==
              if forall c <- filters :: Kept(schema, d, c)
              then Some(OwnVals(schema, d, filters, where0, args0, args)) else None
    ensures d != Postgres ==> |Params(Conj(where_))| >= |args0|
    ensures d != Postgres ==>
              (InStep(Params(Conj(where_))[|args0|..], |args0|) <==> KeptFirst(QuerySurvivors(schema, d, filters)))
    ensures d != Postgres && KeptFirst(QuerySurvivors(schema, d, filters)) ==>
              BindFirst(Params(Conj(where_)), args) == Some(OwnVals(schema, d, filters, where0, args0, args))
  {
    QueryKept(schema, d, filters);
    hide Conj, Params, QuerySurvivors, Kept, KeptFirst;
    NumbersBind(d, Params(Conj(where0)), args0, Params(Conj(where_)), args, QuerySurvivors(schema, d, filters));
  }

  /** `AppendConditions`: the query still parses exactly when every filter is runnable, and with clean filters and
      every placeholder on its own argument it means the query before and all filters. Numbering each filter from
      the arguments already there keeps every `$k` on its own; with `?` the whole query binds exactly when every
      filter kept its arguments, and a driver that ignores surplus arguments puts every placeholder on its own
      exactly when no discarded argument comes before a kept one, in whatever filter. */
  method AppendConditions(schema: Schema, d: Dialect, filters: seq<Condition>, where0: seq<Sql>, args0: seq<Value>)
    returns (r: Option<(seq<Sql>, seq<Value>)>)
    requires WellFormed(d, Conj(where0)) && Bind(d, Params(Conj(where0)), args0).Some?
    ensures r.Some? <==> forall c <- filters :: Accepted(schema, d, c)
    ensures r.Some? ==> where0 <= r.value.0 && args0 <= r.value.1
    ensures r.Some? ==> |r.value.1| == |args0| + |QuerySurvivors(schema, d, filters)|
    ensures r.Some? ==> (WellFormed(d, Conj(r.value.0)) <==> forall c <- filters :: Runnable(d, c))
    ensures r.Some? && (forall c <- filters :: Clean(d, c)) ==>
              QueryMeans(schema, d, filters, Conj(where0), Bind(d, Params(Conj(where0)), args0).value, Conj(r.value.0),
                         OwnVals(schema, d, filters, where0, args0, r.value.1))
    ensures r.Some? && d == Postgres ==>
              Bind(d, Params(Conj(r.value.0)), r.value.1) == Some(OwnVals(schema, d, filters, where0, args0, r.value.1))
    ensures r.Some? && d != Postgres ==>
              Bind(d, Params(Conj(r.value.0)), r.value.1) ==
              if forall c <- filters :: Kept(schema, d, c)
              then Some(OwnVals(schema, d, filters, where0, args0, r.value.1)) else None
    ensures r.Some? && d != Postgres ==>
              |args0| <= |Params(Conj(r.value.0))| &&
              (InStep(Params(Conj(r.value.0))[|args0|..], |args0|) <==> KeptFirst(QuerySurvivors(schema, d, filters)))
    ensures r.Some? && d != Postgres && KeptFirst(QuerySurvivors(schema, d, filters)) ==>
              BindFirst(Params(Conj(r.value.0)), r.value.1) ==
              Some(OwnVals(schema, d, filters, where0, args0, r.value.1))
  {
    hide Conj, Bind, BindFirst, QueryMeans, Renders, BindsAndMeans, BindsFirstAndMeans, Numbered, Accepted, Kept,
      Params, WellFormed, Runnable, Clean, SingleTag, QuerySurvivors, QueryVals, Ordinals, Positions, InStep, KeptFirst;
    var where_, args := where0, args0;
    ghost var vals0 := Bind(d, Params(Conj(where0)), args0).value;
    ghost var ordinals0 := Ordinals(Params(Conj(where0)));
    Unchanged(schema, d, Conj(where0), args0);
    for i := 0 to |filters|
      invariant where0 <= where_ && args0 <= args
      invariant forall j :: 0 <= j < i ==> Accepted(schema, d, filters[j])
      invariant |args| == |args0| + |QuerySurvivors(schema, d, filters[..i])|
      invariant Ordinals(Params(Conj(where_))) ==
                ordinals0 + Positions(QuerySurvivors(schema, d, filters[..i]), |args0|)
      invariant WellFormed(d, Conj(where_)) <==> forall j :: 0 <= j < i ==> Runnable(d, filters[j])
      invariant (forall j :: 0 <= j < i ==> Clean(d, filters[j])) ==>
                  QueryMeans(schema, d, filters[..i], Conj(where0), vals0, Conj(where_),
                             QueryVals(vals0, QuerySurvivors(schema, d, filters[..i]), |args0|, args))
    {
      var c := filters[i];
      var stmt := Render(schema, d, |args|, c);
      if stmt.None? {
        return None;
      }
      assert filters[..i + 1] == filters[..i] + [c];
      assert forall x <- filters[..i] :: Accepted(schema, d, x);
      RendersText(schema, d, |args|, c, stmt.value);
      NextOrdinals(schema, d, filters[..i], c, where_, |args0|, |args|, ordinals0, stmt.value.sql);
      if stmt.value.sql == NoText {
        if forall j :: 0 <= j < i ==> Clean(d, filters[j]) {
          SkipTrivial(schema, d, filters[..i], c, Conj(where0), vals0, Conj(where_),
                      QueryVals(vals0, QuerySurvivors(schema, d, filters[..i]), |args0|, args));
        }
        continue;
      }
      AppendText(d, where_, stmt.value.sql);
      if Clean(d, c) && forall j :: 0 <= j < i ==> Clean(d, filters[j]) {
        NextVals(schema, d, filters[..i], c, Conj(where0), vals0, where_, |args0|, args, stmt.value);
      }
      where_ := where_ + [stmt.value.sql];
      args := args + stmt.value.args;
    }
    assert filters[..|filters|] == filters;
    assert forall c <- filters :: exists j :: 0 <= j < |filters| && filters[j] == c;
    QueryBinds(schema, d, filters, where0, args0, where_, args);
    return Some((where_, args));
  }
}
