/** internal/reports/timesheet.go: time off deducted from a day's scheduled time, in whole minutes.
    The deductions range over a map, so every result is stated for every order of its keys. */
module Timesheet {
  import opened Arith

  /** `kind` is the schedule type, "" for all of them; no minutes mean the whole day. */
  datatype TimeOff = TimeOff(kind: string, minutes: nat)

  type Hours = map<string, nat>

  function Get(m: Hours, t: string): nat {
    if t in m then m[t] else 0
  }

  ghost function Sum(m: Hours): nat {
    if m == map[] then 0
    else
      var t :| t in m;
      m[t] + Sum(m - {t})
  }

  lemma {:induction false} SumOf(m: Hours, t: string)
    requires t in m
    ensures Sum(m) == m[t] + Sum(m - {t})
    decreases |m|
  {
    var u :| u in m && Sum(m) == m[u] + Sum(m - {u});
    if u != t {
      SumOf(m - {u}, t);
      SumOf(m - {t}, u);
      assert m - {u} - {t} == m - {t} - {u};
    }
  }

  lemma SumSet(m: Hours, t: string, v: nat)
    ensures Sum(m[t := v]) == Sum(m) - Get(m, t) + v
  {
    SumOf(m[t := v], t);
    if t in m {
      SumOf(m, t);
      assert m[t := v] - {t} == m - {t};
    } else {
      assert m[t := v] - {t} == m;
    }
  }

  lemma {:induction false} SumZero(m: Hours)
    ensures Sum(m) == 0 <==> forall t <- m :: m[t] == 0
    decreases |m|
  {
    if m != map[] {
      var t :| t in m;
      SumOf(m, t);
      SumZero(m - {t});
      assert forall u <- m :: u == t || u in m - {t};
      assert forall u <- m - {t} :: u in m && (m - {t})[u] == m[u];
    }
  }

  /** Takes `left` minutes from the types in the given order, each down to nothing at most. */
  function Deduct(m: Hours, order: seq<string>, left: nat): (r: Hours)
    requires forall t <- order :: t in m
    ensures r.Keys == m.Keys && forall t <- m :: r[t] <= m[t]
    decreases |order|
  {
    if order == [] || left == 0 then m
    else
      var taken := Min(left, m[order[0]]);
      Deduct(m[order[0] := m[order[0]] - taken], order[1..], left - taken)
  }

  /** One way a map's keys may come up: each once. */
  ghost predicate Lists(order: seq<string>, m: Hours) {
    Distinct(order) && forall t :: t in order <==> t in m
  }

  predicate Distinct(order: seq<string>) {
    forall i, j :: 0 <= i < j < |order| ==> order[i] != order[j]
  }

  lemma {:induction false} DeductSpares(m: Hours, order: seq<string>, left: nat)
    requires forall t <- order :: t in m
    ensures forall t <- m :: t !in order ==> Deduct(m, order, left)[t] == m[t]
    decreases |order|
  {
    if order != [] && left != 0 {
      var taken := Min(left, m[order[0]]);
      DeductSpares(m[order[0] := m[order[0]] - taken], order[1..], left - taken);
    }
  }

  lemma DeductStep(m: Hours, order: seq<string>, left: nat)
    requires order != [] && left != 0 && (forall t <- order :: t in m) && Distinct(order)
    ensures var taken := Min(left, m[order[0]]);
            var m' := m[order[0] := m[order[0]] - taken];
            && Deduct(m, order, left) == Deduct(m', order[1..], left - taken)
            && Deduct(m', order[1..], left - taken)[order[0]] == m[order[0]] - taken
            && Sum(m') == Sum(m) - taken
  {
    var taken := Min(left, m[order[0]]);
    SumSet(m, order[0], m[order[0]] - taken);
    DeductSpares(m[order[0] := m[order[0]] - taken], order[1..], left - taken);
  }

  predicate Emptied(m: Hours, order: seq<string>) {
    order != [] ==> Get(m, order[0]) == 0 && Emptied(m, order[1..])
  }

  lemma {:induction false} EmptiedAll(m: Hours, order: seq<string>)
    requires Emptied(m, order)
    ensures forall t <- order :: Get(m, t) == 0
  {
    if order != [] {
      EmptiedAll(m, order[1..]);
      assert forall t <- order :: t == order[0] || t in order[1..];
    }
  }

  lemma {:induction false} DeductTakes(m: Hours, order: seq<string>, left: nat)
    requires (forall t <- order :: t in m) && Distinct(order)
    ensures var r := Deduct(m, order, left);
            Sum(r) + left == Sum(m) || (Sum(r) + left > Sum(m) && Emptied(r, order))
    decreases |order|
  {
    if order == [] || left == 0 {
    } else {
      DeductStep(m, order, left);
      var taken := Min(left, m[order[0]]);
      var m' := m[order[0] := m[order[0]] - taken];
      if taken == left {
        assert Deduct(m', order[1..], 0) == m';
      } else {
        hide Sum, Deduct;
        DeductTakes(m', order[1..], left - taken);
      }
    }
  }

  /** Whatever the order, a partial absence from all types leaves the rest of the day, or nothing. */
  lemma PartialLeavesRest(m: Hours, order: seq<string>, minutes: nat)
    requires Lists(order, m)
    ensures Sum(Deduct(m, order, minutes)) == if Sum(m) < minutes then 0 else Sum(m) - minutes
  {
    DeductTakes(m, order, minutes);
    var r := Deduct(m, order, minutes);
    hide Deduct;
    if Emptied(r, order) {
      EmptiedAll(r, order);
      assert forall t <- r :: t in order && r[t] == Get(r, t);
      SumZero(r);
    }
  }

  function ApplyOne(m: Hours, a: TimeOff, order: seq<string>): (r: Hours)
    requires forall t <- order :: t in m
    ensures r.Keys == if a.kind == "" then m.Keys else m.Keys + {a.kind}
    ensures forall t :: Get(r, t) <= Get(m, t)
  {
    if a.kind == "" then
      if a.minutes == 0 then map t | t in m :: 0 else Deduct(m, order, a.minutes)
    else if a.minutes == 0 then m[a.kind := 0]
    else m[a.kind := Get(m, a.kind) - Min(a.minutes, Get(m, a.kind))]
  }

  /** What the report books as time off for one absence: a partial one from all types in full. */
  ghost function OffOne(m: Hours, a: TimeOff): nat {
    if a.kind == "" then
      if a.minutes == 0 then Sum(m) else a.minutes
    else if a.minutes == 0 then Get(m, a.kind)
    else Min(a.minutes, Get(m, a.kind))
  }

  ghost predicate ValidOrders(m: Hours, absences: seq<TimeOff>, orders: seq<seq<string>>)
    decreases |absences|
  {
    if absences == [] then orders == []
    else
      && orders != [] && Lists(orders[0], m)
      && ValidOrders(ApplyOne(m, absences[0], orders[0]), absences[1..], orders[1..])
  }

  ghost function ApplyAll(m: Hours, absences: seq<TimeOff>, orders: seq<seq<string>>): (r: Hours)
    requires ValidOrders(m, absences, orders)
    ensures forall t :: Get(r, t) <= Get(m, t)
    ensures m.Keys <= r.Keys
    decreases |absences|
  {
    if absences == [] then m
    else ApplyAll(ApplyOne(m, absences[0], orders[0]), absences[1..], orders[1..])
  }

  ghost function OffAll(m: Hours, absences: seq<TimeOff>, orders: seq<seq<string>>): nat
    requires ValidOrders(m, absences, orders)
    decreases |absences|
  {
    if absences == [] then 0
    else OffOne(m, absences[0]) + OffAll(ApplyOne(m, absences[0], orders[0]), absences[1..], orders[1..])
  }

  /** A partial absence from all types longer than what is left of the day. */
  ghost predicate OvershootsOne(m: Hours, a: TimeOff) {
    a.kind == "" && a.minutes > Sum(m)
  }

  ghost predicate Overshoots(m: Hours, absences: seq<TimeOff>, orders: seq<seq<string>>)
    requires ValidOrders(m, absences, orders)
    decreases |absences|
  {
    absences != [] && (OvershootsOne(m, absences[0])
                       || Overshoots(ApplyOne(m, absences[0], orders[0]), absences[1..], orders[1..]))
  }

  lemma OneConserves(m: Hours, a: TimeOff, order: seq<string>)
    requires Lists(order, m)
    ensures Sum(ApplyOne(m, a, order)) + OffOne(m, a) >= Sum(m)
    ensures Sum(ApplyOne(m, a, order)) + OffOne(m, a) == Sum(m) <==> !OvershootsOne(m, a)
  {
    if a.kind == "" {
      if a.minutes == 0 {
        SumZero(ApplyOne(m, a, order));
      } else {
        PartialLeavesRest(m, order, a.minutes);
      }
    } else {
      SumSet(m, a.kind, 0);
      SumSet(m, a.kind, Get(m, a.kind) - Min(a.minutes, Get(m, a.kind)));
    }
  }

  /** Scheduled time is never less than net time plus what was really taken off; it equals net time plus
      the booked time off exactly when no partial absence from all types overshoots the rest of the day. */
  lemma {:induction false} DayConserves(m: Hours, absences: seq<TimeOff>, orders: seq<seq<string>>)
    requires ValidOrders(m, absences, orders)
    ensures Sum(ApplyAll(m, absences, orders)) + OffAll(m, absences, orders) >= Sum(m)
    ensures Sum(ApplyAll(m, absences, orders)) + OffAll(m, absences, orders) == Sum(m) <==>
            !Overshoots(m, absences, orders)
    decreases |absences|
  {
    if absences != [] {
      var m' := ApplyOne(m, absences[0], orders[0]);
      OneConserves(m, absences[0], orders[0]);
      DayConserves(m', absences[1..], orders[1..]);
      hide OvershootsOne, OffOne, ApplyOne, Lists, Sum;
    }
  }

  // ---------- when the order of the keys does not matter ----------

  predicate FullDay(absences: seq<TimeOff>) {
    absences != [] && (absences[0] == TimeOff("", 0) || FullDay(absences[1..]))
  }

  /** Some absence names the type. */
  predicate Names(absences: seq<TimeOff>, t: string) {
    absences != [] && (absences[0].kind == t || Names(absences[1..], t))
  }

  /** Every absence is from all types or from one of these. */
  predicate Within(absences: seq<TimeOff>, gone: set<string>) {
    absences != [] ==> (absences[0].kind == "" || absences[0].kind in gone) && Within(absences[1..], gone)
  }

  /** After the first partial absence from all types, only types already taken off in full (`gone`) have
      absences of their own. */
  predicate Settled(absences: seq<TimeOff>, gone: set<string>) {
    absences != [] ==>
      var a, rest := absences[0], absences[1..];
      if a.kind != "" then Settled(rest, if a.minutes == 0 then gone + {a.kind} else gone)
      else a.minutes == 0 || Within(rest, gone)
  }

  /** The day's net time is the same for every order of the keys, whatever was scheduled. */
  ghost predicate OrderFree(absences: seq<TimeOff>) {
    forall m, o, p :: ValidOrders(m, absences, o) && ValidOrders(m, absences, p) ==>
      Sum(ApplyAll(m, absences, o)) == Sum(ApplyAll(m, absences, p))
  }

  ghost predicate Zero(m: Hours, gone: set<string>) {
    forall t <- gone :: Get(m, t) == 0
  }

  lemma SumAfterOne(m: Hours, a: TimeOff, order: seq<string>, gone: set<string>)
    requires Lists(order, m) && Zero(m, gone) && (a.kind == "" || a.kind in gone)
    ensures Zero(ApplyOne(m, a, order), gone)
    ensures Sum(ApplyOne(m, a, order)) ==
            if a.kind != "" then Sum(m) else if a.minutes == 0 || Sum(m) < a.minutes then 0 else Sum(m) - a.minutes
  {
    if a.kind == "" {
      if a.minutes == 0 {
        SumZero(ApplyOne(m, a, order));
      } else {
        PartialLeavesRest(m, order, a.minutes);
      }
    } else {
      SumSet(m, a.kind, 0);
    }
  }

  lemma {:induction false} RestAgrees(m: Hours, n: Hours, absences: seq<TimeOff>, o: seq<seq<string>>,
                                      p: seq<seq<string>>, gone: set<string>)
    requires ValidOrders(m, absences, o) && ValidOrders(n, absences, p)
    requires Sum(m) == Sum(n) && Zero(m, gone) && Zero(n, gone)
    requires Within(absences, gone)
    ensures Sum(ApplyAll(m, absences, o)) == Sum(ApplyAll(n, absences, p))
    decreases |absences|
  {
    if absences != [] {
      SumAfterOne(m, absences[0], o[0], gone);
      SumAfterOne(n, absences[0], p[0], gone);
      hide ApplyOne, Lists, Zero, Sum;
      RestAgrees(ApplyOne(m, absences[0], o[0]), ApplyOne(n, absences[0], p[0]), absences[1..], o[1..], p[1..], gone);
    }
  }

  lemma {:induction false} FullDayLeavesNothing(m: Hours, absences: seq<TimeOff>, o: seq<seq<string>>)
    requires ValidOrders(m, absences, o)
    requires FullDay(absences) || forall t <- m :: m[t] == 0
    ensures Sum(ApplyAll(m, absences, o)) == 0
    decreases |absences|
  {
    if absences == [] {
      SumZero(m);
    } else {
      FullDayLeavesNothing(ApplyOne(m, absences[0], o[0]), absences[1..], o[1..]);
    }
  }

  lemma {:induction false} SettledAgrees(m: Hours, absences: seq<TimeOff>, o: seq<seq<string>>, p: seq<seq<string>>,
                                         gone: set<string>)
    requires ValidOrders(m, absences, o) && ValidOrders(m, absences, p)
    requires Settled(absences, gone) && Zero(m, gone)
    ensures Sum(ApplyAll(m, absences, o)) == Sum(ApplyAll(m, absences, p))
    decreases |absences|
  {
    if absences != [] {
      var a := absences[0];
      if a.kind != "" {
        SettledAgrees(ApplyOne(m, a, o[0]), absences[1..], o[1..], p[1..],
                      if a.minutes == 0 then gone + {a.kind} else gone);
      } else if a.minutes == 0 {
        FullDayLeavesNothing(m, absences, o);
        FullDayLeavesNothing(m, absences, p);
      } else {
        RestAgrees(m, m, absences, o, p, gone);
      }
    }
  }

  // ---------- overshooting, seen from the input ----------

  /** With this much left of the day, and no type whose own absences still take anything, some partial absence
      overshoots. */
  predicate OverRest(left: nat, absences: seq<TimeOff>) {
    absences != [] &&
    var a, rest := absences[0], absences[1..];
    if a.kind != "" then OverRest(left, rest)
    else if a.minutes == 0 then OverRest(0, rest)
    else a.minutes > left || OverRest(left - a.minutes, rest)
  }

  /** The same from the day's scheduled times: absences of one type, which name their type, then the rest. */
  ghost predicate OverDay(m: Hours, absences: seq<TimeOff>)
    decreases |absences|
  {
    absences != [] &&
    var a, rest := absences[0], absences[1..];
    if a.kind != "" then OverDay(ApplyOne(m, a, []), rest)
    else if a.minutes == 0 then OverRest(0, rest)
    else a.minutes > Sum(m) || OverRest(Sum(m) - a.minutes, rest)
  }

  lemma {:induction false} RestOvershoots(m: Hours, absences: seq<TimeOff>, o: seq<seq<string>>, gone: set<string>)
    requires ValidOrders(m, absences, o) && Zero(m, gone) && Within(absences, gone)
    ensures Overshoots(m, absences, o) <==> OverRest(Sum(m), absences)
    decreases |absences|
  {
    if absences != [] {
      SumAfterOne(m, absences[0], o[0], gone);
      hide ApplyOne, Lists, Zero, Sum;
      RestOvershoots(ApplyOne(m, absences[0], o[0]), absences[1..], o[1..], gone);
    }
  }

  /** A day without time has a partial absence exactly when one overshoots. */
  lemma {:induction false} EmptyDayOvershoots(m: Hours, absences: seq<TimeOff>, o: seq<seq<string>>)
    requires ValidOrders(m, absences, o) && forall t <- m :: m[t] == 0
    ensures Overshoots(m, absences, o) <==> OverRest(0, absences)
    decreases |absences|
  {
    if absences != [] {
      SumZero(m);
      EmptyDayOvershoots(ApplyOne(m, absences[0], o[0]), absences[1..], o[1..]);
    }
  }

  /** For a list whose net time depends on no order, overshooting depends on the input alone. */
  lemma {:induction false} SettledOvershoots(m: Hours, absences: seq<TimeOff>, o: seq<seq<string>>, gone: set<string>)
    requires ValidOrders(m, absences, o) && Settled(absences, gone) && Zero(m, gone)
    ensures Overshoots(m, absences, o) <==> OverDay(m, absences)
    decreases |absences|
  {
    if absences != [] {
      var a := absences[0];
      if a.kind != "" {
        assert ApplyOne(m, a, o[0]) == ApplyOne(m, a, []);
        SettledOvershoots(ApplyOne(m, a, o[0]), absences[1..], o[1..],
                          if a.minutes == 0 then gone + {a.kind} else gone);
      } else if a.minutes == 0 {
        EmptyDayOvershoots(ApplyOne(m, a, o[0]), absences[1..], o[1..]);
      } else {
        RestOvershoots(m, absences, o, gone);
      }
    }
  }

  /** One type of an hour and a partial absence of two: an hour less net than nothing. */
  lemma OvershootExample(t: string)
    ensures var m, absences, o: seq<seq<string>> := map[t := 60], [TimeOff("", 120)], [[t]];
            && ValidOrders(m, absences, o) && Settled(absences, {}) && OverDay(m, absences)
            && Sum(ApplyAll(m, absences, o)) == 0 && OffAll(m, absences, o) == Sum(m) + 60
  {
    var m: Hours, absences, o: seq<seq<string>> := map[t := 60], [TimeOff("", 120)], [[t]];
    assert absences[1..] == [] && o[1..] == [];
    SumOf(m, t);
    assert m - {t} == map[];
    assert Lists([t], m);
    PartialLeavesRest(m, [t], 120);
  }

  // ---------- and when it does ----------

  ghost predicate DiffersBy(m: Hours, absences: seq<TimeOff>, o: seq<seq<string>>, p: seq<seq<string>>) {
    && ValidOrders(m, absences, o) && ValidOrders(m, absences, p)
    && Sum(ApplyAll(m, absences, o)) != Sum(ApplyAll(m, absences, p))
  }

  ghost predicate Differs(m: Hours, absences: seq<TimeOff>) {
    exists o, p :: DiffersBy(m, absences, o, p)
  }

  /** The partial absences from all types, added up. */
  function Partials(absences: seq<TimeOff>): nat {
    if absences == [] then 0
    else (if absences[0].kind == "" then absences[0].minutes else 0) + Partials(absences[1..])
  }

  /** Only `t` and `u` have time, `u` enough for every partial absence. */
  ghost predicate TwoTypes(m: Hours, t: string, x: nat, u: string, enough: nat) {
    t in m && u in m && t != u && m[t] == x && m[u] >= enough && forall v <- m :: v != t && v != u ==> m[v] == 0
  }

  lemma {:induction false} SomeOrder(keys: set<string>) returns (order: seq<string>)
    ensures forall i, j :: 0 <= i < j < |order| ==> order[i] != order[j]
    ensures forall t :: t in order <==> t in keys
    decreases |keys|
  {
    if keys == {} {
      order := [];
    } else {
      var t :| t in keys;
      var rest := SomeOrder(keys - {t});
      order := [t] + rest;
    }
  }

  lemma OrderFrom(m: Hours, first: string) returns (order: seq<string>)
    requires first in m
    ensures Lists(order, m) && order[0] == first
  {
    var rest := SomeOrder(m.Keys - {first});
    order := [first] + rest;
  }

  predicate StartWith(orders: seq<seq<string>>, first: string) {
    orders != [] ==> orders[0] != [] && orders[0][0] == first && StartWith(orders[1..], first)
  }

  lemma {:induction false} OrdersFrom(m: Hours, absences: seq<TimeOff>, first: string)
    returns (orders: seq<seq<string>>)
    requires first in m
    ensures ValidOrders(m, absences, orders) && StartWith(orders, first)
    decreases |absences|
  {
    if absences == [] {
      orders := [];
    } else {
      var order := OrderFrom(m, first);
      var rest := OrdersFrom(ApplyOne(m, absences[0], order), absences[1..], first);
      orders := [order] + rest;
      assert orders[1..] == rest;
    }
  }

  /** The type the order starts with, if it has enough, bears a partial absence alone. */
  lemma FirstBears(m: Hours, order: seq<string>, minutes: nat)
    requires Lists(order, m) && order != [] && m[order[0]] >= minutes
    ensures Deduct(m, order, minutes) == m[order[0] := m[order[0]] - minutes]
  {
    if minutes > 0 {
      assert Deduct(m[order[0] := m[order[0]] - minutes], order[1..], 0) == m[order[0] := m[order[0]] - minutes];
    } else {
      assert m == m[order[0] := m[order[0]]];
    }
  }

  lemma OneBorne(m: Hours, a: TimeOff, order: seq<string>, t: string, u: string)
    requires Lists(order, m) && order != [] && order[0] == u
    requires t in m && u in m && t != u && m[u] >= Partials([a])
    requires !(a.kind == "" && a.minutes == 0) && a.kind != u
    ensures var m' := ApplyOne(m, a, order);
            && m'[u] == m[u] - Partials([a])
            && (a.kind != t || t == "" ==> m'[t] == m[t])
            && Sum(m') + Partials([a]) <= Sum(m)
            && (m[t] > 0 && t != "" && a.kind == t ==> Sum(m') + Partials([a]) < Sum(m))
  {
    assert Partials([a]) == if a.kind == "" then a.minutes else 0;
    if a.kind == "" {
      FirstBears(m, order, a.minutes);
      SumSet(m, u, m[u] - a.minutes);
    } else {
      SumSet(m, a.kind, 0);
      SumSet(m, a.kind, Get(m, a.kind) - Min(a.minutes, Get(m, a.kind)));
    }
  }

  /** With `u` bearing every partial absence, `t`'s own absences still find time to take. */
  lemma {:induction false} BorneByU(m: Hours, absences: seq<TimeOff>, o: seq<seq<string>>, t: string, u: string)
    requires ValidOrders(m, absences, o) && StartWith(o, u)
    requires t in m && u in m && t != u && m[u] >= Partials(absences)
    requires !FullDay(absences) && !Names(absences, u)
    ensures Sum(ApplyAll(m, absences, o)) + Partials(absences) <= Sum(m)
    ensures m[t] > 0 && t != "" && Names(absences, t) ==>
              Sum(ApplyAll(m, absences, o)) + Partials(absences) < Sum(m)
    decreases |absences|
  {
    if absences != [] {
      var a, rest := absences[0], absences[1..];
      var m' := ApplyOne(m, a, o[0]);
      assert Partials(absences) == Partials([a]) + Partials(rest);
      OneBorne(m, a, o[0], t, u);
      hide Sum, ApplyOne, Lists, Partials;
      BorneByU(m', rest, o[1..], t, u);
    }
  }

  /** With nothing left but `u`'s time, only the partial absences take anything. */
  lemma {:induction false} OnlyU(m: Hours, absences: seq<TimeOff>, o: seq<seq<string>>, u: string)
    requires ValidOrders(m, absences, o)
    requires u in m && m[u] >= Partials(absences) && forall v <- m :: v != u ==> m[v] == 0
    requires !FullDay(absences) && !Names(absences, u)
    ensures Sum(ApplyAll(m, absences, o)) + Partials(absences) == Sum(m)
    decreases |absences|
  {
    if absences != [] {
      var a, rest := absences[0], absences[1..];
      var m' := ApplyOne(m, a, o[0]);
      SumIsOne(m, u);
      assert forall v :: Get(m', v) <= Get(m, v);
      assert forall v <- m' :: Get(m', v) == m'[v];
      SumIsOne(m', u);
      if a.kind == "" {
        PartialLeavesRest(m, o[0], a.minutes);
      }
      OnlyU(m', rest, o[1..], u);
    }
  }

  lemma SumIsOne(m: Hours, u: string)
    requires u in m && forall v <- m :: v != u ==> m[v] == 0
    ensures Sum(m) == m[u]
  {
    SumOf(m, u);
    SumZero(m - {u});
  }

  /** At the first partial absence: charging it to `u` or to `t` makes a difference later. */
  lemma FirstPartialDiffers(m: Hours, absences: seq<TimeOff>, t: string, u: string)
    requires absences != [] && absences[0].kind == "" && absences[0].minutes > 0
    requires t != "" && Names(absences[1..], t)
    requires TwoTypes(m, t, absences[0].minutes, u, Partials(absences))
    requires !FullDay(absences) && !Names(absences, u)
    ensures Differs(m, absences)
  {
    hide Sum, Lists, ApplyOne, Deduct, Differs, ValidOrders;
    var o := OrderFrom(m, u);
    var p := OrderFrom(m, t);
    assert m[t] == absences[0].minutes && m[u] >= absences[0].minutes;
    SplitDiffers(m, absences, t, u, o, p);
  }

  lemma FirstStep(m: Hours, a: TimeOff, order: seq<string>)
    requires a.kind == "" && a.minutes > 0 && Lists(order, m) && order != [] && m[order[0]] >= a.minutes
    ensures ApplyOne(m, a, order) == m[order[0] := m[order[0]] - a.minutes]
    ensures Sum(ApplyOne(m, a, order)) == Sum(m) - a.minutes
  {
    assert order[0] in order;
    FirstBears(m, order, a.minutes);
    hide Sum, Deduct, Lists;
    SumSet(m, order[0], m[order[0]] - a.minutes);
  }

  lemma SplitDiffers(m: Hours, absences: seq<TimeOff>, t: string, u: string, o: seq<string>, p: seq<string>)
    requires absences != [] && absences[0].kind == "" && absences[0].minutes > 0
    requires t != "" && Names(absences[1..], t)
    requires TwoTypes(m, t, absences[0].minutes, u, Partials(absences))
    requires !FullDay(absences) && !Names(absences, u)
    requires Lists(o, m) && Lists(p, m) && o != [] && p != [] && o[0] == u && p[0] == t
    ensures Differs(m, absences)
  {
    var a, rest := absences[0], absences[1..];
    var mo, mp := ApplyOne(m, a, o), ApplyOne(m, a, p);
    FirstStep(m, a, o);
    FirstStep(m, a, p);
    hide Sum, Lists, ApplyOne, Deduct, Differs, ValidOrders, ApplyAll;
    RestDiffers(mo, mp, m, absences, t, u, o, p);
  }

  lemma RestDiffers(mo: Hours, mp: Hours, m: Hours, absences: seq<TimeOff>, t: string, u: string, o: seq<string>,
                    p: seq<string>)
    requires absences != [] && Lists(o, m) && Lists(p, m)
    requires mo == ApplyOne(m, absences[0], o) && mp == ApplyOne(m, absences[0], p)
    requires t in mo && u in mo && t != u && t != "" && mo[t] > 0 && mo[u] >= Partials(absences[1..])
    requires u in mp && mp[u] >= Partials(absences[1..]) && forall v <- mp :: v != u ==> mp[v] == 0
    requires Sum(mo) == Sum(mp)
    requires !FullDay(absences[1..]) && Names(absences[1..], t) && !Names(absences[1..], u)
    ensures Differs(m, absences)
  {
    hide Sum, Lists, ApplyOne, Partials;
    var os := OrdersFrom(mo, absences[1..], u);
    var ps := OrdersFrom(mp, absences[1..], u);
    hide ValidOrders, ApplyAll;
    BorneByU(mo, absences[1..], os, t, u);
    OnlyU(mp, absences[1..], ps, u);
    FirstOrder(m, absences, o, os);
    FirstOrder(m, absences, p, ps);
    assert DiffersBy(m, absences, [o] + os, [p] + ps);
  }

  lemma {:induction false} NamedOutside(absences: seq<TimeOff>, gone: set<string>) returns (t: string)
    requires !Within(absences, gone)
    ensures t != "" && t !in gone && Names(absences, t)
  {
    if absences[0].kind == "" || absences[0].kind in gone {
      t := NamedOutside(absences[1..], gone);
    } else {
      t := absences[0].kind;
    }
  }

  lemma {:induction false} UnsettledDiffers(absences: seq<TimeOff>, gone: set<string>, u: string)
    returns (t: string, x: nat)
    requires !Settled(absences, gone) && !FullDay(absences) && !Names(absences, u)
    requires u != ""
    ensures t !in gone && t != u
    ensures forall m :: TwoTypes(m, t, x, u, Partials(absences)) ==> Differs(m, absences)
    decreases |absences|
  {
    var a, rest := absences[0], absences[1..];
    if a.kind == "" {
      t := NamedOutside(rest, gone);
      x := a.minutes;
      forall m | TwoTypes(m, t, x, u, Partials(absences)) ensures Differs(m, absences) {
        FirstPartialDiffers(m, absences, t, u);
      }
    } else {
      var y: nat;
      t, y := UnsettledDiffers(rest, if a.minutes == 0 then gone + {a.kind} else gone, u);
      x := if a.kind == t then y + a.minutes else y;
      forall m | TwoTypes(m, t, x, u, Partials(absences)) ensures Differs(m, absences) {
        var order := OrderFrom(m, u);
        LaterDifference(m, absences, order);
      }
    }
  }

  lemma FirstOrder(m: Hours, absences: seq<TimeOff>, order: seq<string>, o: seq<seq<string>>)
    requires absences != [] && Lists(order, m) && ValidOrders(ApplyOne(m, absences[0], order), absences[1..], o)
    ensures ValidOrders(m, absences, [order] + o)
    ensures ApplyAll(m, absences, [order] + o) == ApplyAll(ApplyOne(m, absences[0], order), absences[1..], o)
  {
    hide Sum, Lists, ApplyOne;
    assert ([order] + o)[1..] == o;
  }

  lemma LaterDifference(m: Hours, absences: seq<TimeOff>, order: seq<string>)
    requires absences != [] && Lists(order, m) && Differs(ApplyOne(m, absences[0], order), absences[1..])
    ensures Differs(m, absences)
  {
    var m' := ApplyOne(m, absences[0], order);
    hide Lists, ApplyOne, DiffersBy;
    var o, p :| DiffersBy(m', absences[1..], o, p);
    DiffersBefore(m, absences, order, o, p);
  }

  lemma DiffersBefore(m: Hours, absences: seq<TimeOff>, order: seq<string>, o: seq<seq<string>>, p: seq<seq<string>>)
    requires absences != [] && Lists(order, m) && DiffersBy(ApplyOne(m, absences[0], order), absences[1..], o, p)
    ensures DiffersBy(m, absences, [order] + o, [order] + p)
  {
    hide Sum, Lists, ApplyOne, ValidOrders, ApplyAll;
    FirstOrder(m, absences, order, o);
    FirstOrder(m, absences, order, p);
  }

  /** Two types of an hour each, an hour off from all and then an hour off from the first type: nothing is left
      of the day, or the second hour, depending on which type the map yields first. */
  lemma OrderExample(t: string, u: string)
    requires t != u && t != ""
    ensures var m: Hours, absences := map[t := 60, u := 60], [TimeOff("", 60), TimeOff(t, 60)];
            var o, p := [[t, u], [t, u]], [[u, t], [t, u]];
            && ValidOrders(m, absences, o) && Sum(ApplyAll(m, absences, o)) == 60
            && ValidOrders(m, absences, p) && Sum(ApplyAll(m, absences, p)) == 0
  {
    var m: Hours, a, b := map[t := 60, u := 60], TimeOff("", 60), TimeOff(t, 60);
    assert m == map[u := 60, t := 60];
    FirstHour(t, u);
    FirstHour(u, t);
    ThenOwnHour(t, u, 60, 0);
    ThenOwnHour(t, u, 0, 60);
    hide ApplyOne, ApplyAll, ValidOrders, Sum, Lists;
    OneByOne(m, a, b, [t, u], [t, u]);
    OneByOne(m, a, b, [u, t], [t, u]);
  }

  lemma FirstHour(x: string, y: string)
    requires x != y
    ensures Lists([x, y], map[x := 60, y := 60])
    ensures ApplyOne(map[x := 60, y := 60], TimeOff("", 60), [x, y]) == map[x := 0, y := 60]
  {
    assert Lists([x, y], map[x := 60, y := 60]);
    FirstBears(map[x := 60, y := 60], [x, y], 60);
  }

  lemma ThenOwnHour(t: string, u: string, x: nat, y: nat)
    requires t != u && t != "" && x <= 60
    ensures Lists([t, u], map[u := y, t := x]) && map[u := y, t := x] == map[t := x, u := y]
    ensures Sum(ApplyOne(map[t := x, u := y], TimeOff(t, 60), [t, u])) == y
  {
    assert map[u := y, t := x] == map[t := x, u := y];
    var m := ApplyOne(map[t := x, u := y], TimeOff(t, 60), [t, u]);
    assert m == map[t := 0, u := y];
    SumIsOne(m, u);
  }

  lemma OneByOne(m: Hours, a: TimeOff, b: TimeOff, o: seq<string>, p: seq<string>)
    requires Lists(o, m) && Lists(p, ApplyOne(m, a, o))
    ensures ValidOrders(m, [a, b], [o, p])
    ensures ApplyAll(m, [a, b], [o, p]) == ApplyOne(ApplyOne(m, a, o), b, p)
  {
    var m1 := ApplyOne(m, a, o);
    hide Lists, ApplyOne;
    assert [a, b][1..] == [b] && [b][1..] == [] && [o] + [p] == [o, p] && [p] + [] == [p];
    FirstOrder(m1, [b], p, []);
    FirstOrder(m, [a, b], o, [p]);
  }

  function AllKinds(absences: seq<TimeOff>): (u: string)
    ensures u != ""
  {
    if absences == [] then "u" else AllKinds(absences[1..]) + absences[0].kind
  }

  lemma {:induction false} FreshKind(absences: seq<TimeOff>, u: string)
    requires |u| >= |AllKinds(absences)|
    ensures !Names(absences, u)
  {
    if absences != [] {
      FreshKind(absences[1..], u);
    }
  }

  /** The net time does not depend on the order of the keys exactly when someone is off for the whole day,
      or no absence from one type follows a partial absence from all (unless that type was already off). */
  lemma OrderFreeExactly(absences: seq<TimeOff>)
    ensures OrderFree(absences) <==> FullDay(absences) || Settled(absences, {})
  {
    if FullDay(absences) || Settled(absences, {}) {
      forall m, o, p | ValidOrders(m, absences, o) && ValidOrders(m, absences, p)
        ensures Sum(ApplyAll(m, absences, o)) == Sum(ApplyAll(m, absences, p))
      {
        if FullDay(absences) {
          FullDayLeavesNothing(m, absences, o);
          FullDayLeavesNothing(m, absences, p);
        } else {
          SettledAgrees(m, absences, o, p, {});
        }
      }
    } else {
      var u := AllKinds(absences);
      FreshKind(absences, u);
      var t, x := UnsettledDiffers(absences, {}, u);
      var m: Hours := map[t := x, u := Partials(absences)];
      assert TwoTypes(m, t, x, u, Partials(absences));
      assert Differs(m, absences);
      var o, p :| DiffersBy(m, absences, o, p);
    }
  }
}
