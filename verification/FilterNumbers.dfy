/** How the placeholders of a text are numbered, which of them survive folding, and what a database binds them to. */
module FilterNumbers {
  import opened Calendar
  import opened FilterIR
  import opened FilterSql

  /** The placeholders were numbered, in this order, by `addArg` calls after the first `from` ones. */
  ghost predicate Numbered(ps: seq<Param>, offset: nat, from: nat, to: nat) {
    && (forall i :: 0 <= i < |ps| ==> offset + from < ps[i].ordinal <= offset + to)
    && (forall i, j :: 0 <= i < j < |ps| ==> ps[i].ordinal < ps[j].ordinal)
  }

  /** The argument each placeholder was made for. */
  ghost function Own(ps: seq<Param>, offset: nat, args: seq<Value>): (vals: seq<Value>)
    requires Numbered(ps, offset, 0, |args|)
    ensures |vals| == |ps|
  {
    seq(|ps|, i requires 0 <= i < |ps| => args[ps[i].ordinal - offset - 1])
  }

  lemma OwnConcat(ps: seq<Param>, qs: seq<Param>, offset: nat, args: seq<Value>)
    requires Numbered(ps + qs, offset, 0, |args|)
    ensures Numbered(ps, offset, 0, |args|) && Numbered(qs, offset, 0, |args|)
    ensures Own(ps + qs, offset, args) == Own(ps, offset, args) + Own(qs, offset, args)
  {
    assert forall i :: 0 <= i < |ps| ==> (ps + qs)[i] == ps[i];
    assert forall i :: 0 <= i < |qs| ==> (ps + qs)[|ps| + i] == qs[i];
  }

  lemma OwnExtend(ps: seq<Param>, offset: nat, args: seq<Value>, all: seq<Value>)
    requires Numbered(ps, offset, 0, |args|) && args <= all
    ensures Numbered(ps, offset, 0, |all|) && Own(ps, offset, all) == Own(ps, offset, args)
  {
  }

  /** Increasing numbers in a range of their own count are all of them. */
  lemma {:induction false} NumberedCount(ps: seq<Param>, offset: nat, from: nat, to: nat)
    requires Numbered(ps, offset, from, to) && from <= to
    ensures |ps| <= to - from
    ensures |ps| == to - from ==> forall i :: 0 <= i < |ps| ==> ps[i].ordinal == offset + from + 1 + i
  {
    if ps != [] {
      var n := |ps| - 1;
      NumberedCount(ps[..n], offset, from, ps[n].ordinal - offset - 1);
    }
  }

  lemma NumberedConcat(ps: seq<Param>, qs: seq<Param>, offset: nat, from: nat, mid: nat, to: nat)
    requires Numbered(ps, offset, from, mid) && Numbered(qs, offset, mid, to) && from <= mid <= to
    ensures Numbered(ps + qs, offset, from, to)
  {
  }

  lemma NumberedNothing(offset: nat, from: nat, to: nat)
    ensures Numbered([], offset, from, to)
  {
  }

  lemma NumberedWiden(ps: seq<Param>, offset: nat, from: nat, to: nat, low: nat, high: nat)
    requires Numbered(ps, offset, from, to) && low <= from && to <= high
    ensures Numbered(ps, offset, low, high)
  {
  }

  // ---------- numbers in order of the text ----------

  /** The numbers of placeholders, in the order of the text. */
  function Ordinals(ps: seq<Param>): (os: seq<int>)
    ensures |os| == |ps| && forall i :: 0 <= i < |ps| ==> os[i] == ps[i].ordinal
  {
    seq(|ps|, i requires 0 <= i < |ps| => ps[i].ordinal)
  }

  /** The numbers of the surviving arguments, counted from the one after `from`. */
  function Positions(mask: seq<bool>, from: int): seq<int> {
    if mask == [] then [] else (if mask[0] then [from + 1] else []) + Positions(mask[1..], from + 1)
  }

  lemma {:induction false} PositionsConcat(a: seq<bool>, b: seq<bool>, from: int)
    ensures Positions(a + b, from) == Positions(a, from) + Positions(b, from + |a|)
  {
    if a == [] {
      assert a + b == b;
    } else {
      assert (a + b)[1..] == a[1..] + b;
      PositionsConcat(a[1..], b, from + 1);
    }
  }

  lemma {:induction false} PositionsOfNone(mask: seq<bool>, from: int)
    requires true !in mask
    ensures Positions(mask, from) == []
  {
    if mask != [] {
      assert mask[0] in mask && forall b <- mask[1..] :: b in mask;
      PositionsOfNone(mask[1..], from + 1);
    }
  }

  lemma {:induction false} PositionsOfAll(mask: seq<bool>, from: int)
    requires false !in mask
    ensures |Positions(mask, from)| == |mask|
    ensures forall i :: 0 <= i < |mask| ==> Positions(mask, from)[i] == from + 1 + i
  {
    if mask != [] {
      assert mask[0] in mask && forall b <- mask[1..] :: b in mask;
      PositionsOfAll(mask[1..], from + 1);
    }
  }

  lemma {:induction false} PositionsCount(mask: seq<bool>, from: int)
    ensures |Positions(mask, from)| <= |mask|
    ensures |Positions(mask, from)| == |mask| <==> false !in mask
  {
    if mask != [] {
      PositionsCount(mask[1..], from + 1);
      assert mask[0] in mask && forall b <- mask :: b == mask[0] || b in mask[1..];
      assert forall b <- mask[1..] :: b in mask;
    }
  }

  lemma {:induction false} PositionsWithin(mask: seq<bool>, from: nat)
    ensures Within(Positions(mask, from), from + |mask|)
  {
    if mask != [] {
      PositionsWithin(mask[1..], from + 1);
    }
  }

  predicate Consecutive(os: seq<int>, from: int) {
    forall i :: 0 <= i < |os| ==> os[i] == from + 1 + i
  }

  /** Counted without gaps exactly if the discarded ones come last. */
  lemma {:induction false} PositionsInStep(mask: seq<bool>, from: int)
    ensures KeptFirst(mask) <==> Consecutive(Positions(mask, from), from)
    ensures forall o <- Positions(mask, from) :: o > from
  {
    if mask != [] {
      var rest := Positions(mask[1..], from + 1);
      PositionsInStep(mask[1..], from + 1);
      if mask[0] {
        assert Positions(mask, from) == [from + 1] + rest;
        ConsInStep(rest, from);
      } else {
        assert Positions(mask, from) == rest;
        if true in mask {
          assert true in mask[1..];
          SomePosition(mask[1..], from + 1);
          assert rest[0] in rest;
        } else {
          PositionsOfNone(mask, from);
        }
      }
    }
  }

  lemma ConsInStep(rest: seq<int>, from: int)
    ensures Consecutive([from + 1] + rest, from) <==> Consecutive(rest, from + 1)
  {
    var os := [from + 1] + rest;
    assert forall i :: 0 <= i < |rest| ==> os[i + 1] == rest[i];
    if Consecutive(os, from) {
      forall i | 0 <= i < |rest| ensures rest[i] == from + 2 + i {
        assert os[i + 1] == from + 1 + (i + 1);
      }
    }
    if Consecutive(rest, from + 1) {
      assert forall i :: 1 <= i < |os| ==> os[i] == rest[i - 1];
    }
  }

  lemma {:induction false} SomePosition(mask: seq<bool>, from: int)
    requires true in mask
    ensures Positions(mask, from) != []
  {
    if !mask[0] {
      SomePosition(mask[1..], from + 1);
    }
  }

  lemma AllOrdinals(ps: seq<Param>, mask: seq<bool>, offset: nat, from: nat, to: nat)
    requires Numbered(ps, offset, from, to) && from <= to && |ps| == |mask| == to - from && false !in mask
    ensures Ordinals(ps) == Positions(mask, offset + from)
  {
    NumberedCount(ps, offset, from, to);
    PositionsOfAll(mask, offset + from);
    hide Positions, Numbered;
    assert forall i :: 0 <= i < |ps| ==> Ordinals(ps)[i] == Positions(mask, offset + from)[i];
  }

  // ---------- binding one text ----------

  /** The placeholders number the arguments from `offset` on without gaps, as `?` takes them. */
  predicate InStep(ps: seq<Param>, offset: int) {
    forall i :: 0 <= i < |ps| ==> ps[i].ordinal == offset + 1 + i
  }

  lemma OrdinalsInStep(ps: seq<Param>, mask: seq<bool>, offset: int)
    requires Ordinals(ps) == Positions(mask, offset)
    ensures InStep(ps, offset) <==> KeptFirst(mask)
  {
    PositionsInStep(mask, offset);
    hide Positions, KeptFirst;
    assert forall i :: 0 <= i < |ps| ==> Ordinals(ps)[i] == ps[i].ordinal;
  }

  /** Each placeholder on its own argument. */
  lemma OwnBinding(d: Dialect, ps: seq<Param>, offset: nat, args: seq<Value>)
    requires Numbered(ps, offset, 0, |args|)
    ensures |ps| <= |args|
    ensures d == Postgres ==>
              forall before: seq<Value> :: |before| == offset ==>
                Bind(d, ps, before + args) == Some(Own(ps, offset, args))
    ensures d != Postgres ==> (Bind(d, ps, args).Some? <==> |ps| == |args|)
    ensures d != Postgres && |ps| == |args| ==> Bind(d, ps, args) == Some(Own(ps, offset, args))
    ensures InStep(ps, offset) ==> BindFirst(ps, args) == Some(Own(ps, offset, args))
  {
    NumberedCount(ps, offset, 0, |args|);
    if d == Postgres {
      forall before: seq<Value> | |before| == offset
        ensures Bind(d, ps, before + args) == Some(Own(ps, offset, args))
      {
        assert forall p <- ps :: 1 <= p.ordinal <= |before + args|;
        assert Named(ps, before + args) == Own(ps, offset, args);
      }
    }
    if |ps| == |args| {
      assert Own(ps, offset, args) == args;
    }
    if InStep(ps, offset) {
      assert Own(ps, offset, args) == args[..|ps|];
    }
  }

  // ---------- binding a text after others ----------

  predicate Within(os: seq<int>, n: nat) {
    forall o <- os :: 1 <= o <= n
  }

  /** The arguments with these numbers. */
  function Pick(os: seq<int>, args: seq<Value>): (vals: seq<Value>)
    requires Within(os, |args|)
    ensures |vals| == |os|
  {
    seq(|os|, i requires 0 <= i < |os| => assert os[i] in os; args[os[i] - 1])
  }

  lemma PickAppend(a: seq<int>, b: seq<int>, args: seq<Value>, more: seq<Value>)
    requires Within(a, |args|) && Within(b, |args + more|)
    ensures Within(a + b, |args + more|) && Pick(a + b, args + more) == Pick(a, args) + Pick(b, args + more)
  {
    assert forall o <- a + b :: o in a || o in b;
    assert forall i :: 0 <= i < |a| ==> a[i] in a;
  }

  /** A statement's own values are the arguments its placeholders are numbered with. */
  lemma OwnIsPick(ps: seq<Param>, before: seq<Value>, args: seq<Value>)
    requires Numbered(ps, |before|, 0, |args|)
    ensures Within(Ordinals(ps), |before + args|)
    ensures Own(ps, |before|, args) == Pick(Ordinals(ps), before + args)
  {
    assert forall o <- Ordinals(ps) :: exists i :: 0 <= i < |ps| && ps[i].ordinal == o;
  }

  lemma PickInStep(os: seq<int>, args0: seq<Value>, args: seq<Value>)
    requires args0 <= args && Within(os, |args|) && |args0| + |os| <= |args|
    requires Consecutive(os, |args0|)
    ensures args0 + Pick(os, args) == args[..|args0| + |os|]
  {
    var vals := args0 + Pick(os, args);
    forall k | 0 <= k < |vals| ensures vals[k] == args[k] {
      assert k >= |args0| ==> os[k - |args0|] in os;
    }
  }

  /** What each placeholder of the query was made for: the values of the query before, then the surviving
      arguments of the filters. */
  function QueryVals(before: seq<Value>, mask: seq<bool>, from: nat, args: seq<Value>): (vals: seq<Value>)
    requires |args| == from + |mask|
  {
    PositionsWithin(mask, from);
    before + Pick(Positions(mask, from), args)
  }

  lemma ValsInStep(args0: seq<Value>, args: seq<Value>, mask: seq<bool>)
    requires args0 <= args && |args| == |args0| + |mask| && KeptFirst(mask)
    ensures |args0| + |Positions(mask, |args0|)| <= |args|
    ensures QueryVals(args0, mask, |args0|, args) == args[..|args0| + |Positions(mask, |args0|)|]
  {
    PositionsWithin(mask, |args0|);
    PositionsCount(mask, |args0|);
    PositionsInStep(mask, |args0|);
    hide Positions, KeptFirst, Pick, Within, Consecutive;
    PickInStep(Positions(mask, |args0|), args0, args);
  }

  lemma Associative(a: seq<Value>, b: seq<Value>, c: seq<Value>)
    ensures a + b + c == a + (b + c)
  {
  }

  lemma AssociativeNumbers(a: seq<int>, b: seq<int>, c: seq<int>)
    ensures a + b + c == a + (b + c)
  {
  }

  lemma OrdinalsAfter(ps: seq<Param>, a: seq<int>, b: seq<int>)
    requires Ordinals(ps) == a + b
    ensures |ps| == |a| + |b| && Ordinals(ps[|a|..]) == b
  {
    forall i | 0 <= i < |b| ensures Ordinals(ps[|a|..])[i] == b[i] {
      assert Ordinals(ps)[|a| + i] == b[i];
    }
  }

  lemma BindCounts(d: Dialect, ps: seq<Param>, args: seq<Value>)
    ensures d != Postgres ==> (Bind(d, ps, args).Some? <==> |ps| == |args|)
    ensures Bind(d, ps, args).Some? ==> |Bind(d, ps, args).value| == |ps|
  {
  }

  lemma CountBinds(d: Dialect, ps: seq<Param>, args: seq<Value>)
    requires d != Postgres
    ensures Bind(d, ps, args) == if |ps| == |args| then Some(args) else None
    ensures BindFirst(ps, args) == if |ps| <= |args| then Some(args[..|ps|]) else None
    ensures args[..|args|] == args
  {
  }

  lemma NamedBind(ps0: seq<Param>, args0: seq<Value>, ps: seq<Param>, args: seq<Value>, mask: seq<bool>)
    requires Bind(Postgres, ps0, args0).Some? && args0 <= args && |args| == |args0| + |mask|
    requires Ordinals(ps) == Ordinals(ps0) + Positions(mask, |args0|)
    ensures Bind(Postgres, ps, args) == Some(QueryVals(Bind(Postgres, ps0, args0).value, mask, |args0|, args))
  {
    PositionsWithin(mask, |args0|);
    hide Positions;
    assert forall p <- ps0 :: 1 <= p.ordinal <= |args0|;
    NamedPick(ps0, args0, ps, args, Positions(mask, |args0|));
  }

  lemma NamedPick(ps0: seq<Param>, args0: seq<Value>, ps: seq<Param>, args: seq<Value>, os: seq<int>)
    requires (forall p <- ps0 :: 1 <= p.ordinal <= |args0|) && args0 <= args && Within(os, |args|)
    requires Ordinals(ps) == Ordinals(ps0) + os
    ensures (forall p <- ps :: 1 <= p.ordinal <= |args|) && Named(ps, args) == Named(ps0, args0) + Pick(os, args)
  {
    var n := |ps0|;
    assert |ps| == |Ordinals(ps)| == n + |os|;
    forall k | 0 <= k < |ps|
      ensures ps[k].ordinal == if k < n then ps0[k].ordinal else os[k - n]
      ensures 1 <= ps[k].ordinal <= |args|
    {
      assert Ordinals(ps)[k] == ps[k].ordinal;
      assert k < n ==> ps0[k] in ps0;
      assert k >= n ==> os[k - n] in os;
    }
    hide Ordinals, Within;
  }

  lemma CountedBind(d: Dialect, ps0: seq<Param>, args0: seq<Value>, ps: seq<Param>, args: seq<Value>, mask: seq<bool>)
    requires d != Postgres && Bind(d, ps0, args0).Some? && args0 <= args && |args| == |args0| + |mask|
    requires Ordinals(ps) == Ordinals(ps0) + Positions(mask, |args0|)
    ensures Bind(d, ps0, args0) == Some(args0)
    ensures var own := QueryVals(args0, mask, |args0|, args);
            && Bind(d, ps, args) == (if false !in mask then Some(own) else None)
            && (KeptFirst(mask) ==> BindFirst(ps, args) == Some(own))
    ensures |ps| >= |args0| && (InStep(ps[|args0|..], |args0|) <==> KeptFirst(mask))
  {
    hide Positions, KeptFirst, Ordinals, QueryVals, InStep, Bind, BindFirst;
    var os := Positions(mask, |args0|);
    CountBinds(d, ps0, args0);
    CountBinds(d, ps, args);
    PositionsCount(mask, |args0|);
    OrdinalsAfter(ps, Ordinals(ps0), os);
    OrdinalsInStep(ps[|args0|..], mask, |args0|);
    if false !in mask {
      KeptThenDropped(mask, []);
      assert mask + [] == mask;
    }
    if KeptFirst(mask) {
      ValsInStep(args0, args, mask);
    }
  }

  lemma NumbersBind(d: Dialect, ps0: seq<Param>, args0: seq<Value>, ps: seq<Param>, args: seq<Value>, mask: seq<bool>)
    requires Bind(d, ps0, args0).Some? && args0 <= args && |args| == |args0| + |mask|
    requires Ordinals(ps) == Ordinals(ps0) + Positions(mask, |args0|)
    ensures var own := QueryVals(Bind(d, ps0, args0).value, mask, |args0|, args);
            && (d == Postgres ==> Bind(d, ps, args) == Some(own))
            && (d != Postgres ==> Bind(d, ps, args) == if false !in mask then Some(own) else None)
            && (d != Postgres && KeptFirst(mask) ==> BindFirst(ps, args) == Some(own))
    ensures d != Postgres ==> |ps| >= |args0| && (InStep(ps[|args0|..], |args0|) <==> KeptFirst(mask))
  {
    if d == Postgres {
      NamedBind(ps0, args0, ps, args, mask);
    } else {
      CountedBind(d, ps0, args0, ps, args, mask);
    }
  }
}
