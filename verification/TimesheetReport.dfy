/** internal/reports/timesheet.go: the daily breakdown, the report's totals and the weekly summary. */
module TimesheetReport {
  import opened Arith
  import opened Calendar
  import opened Timesheet
  import opened TrackerCalendar

  // ---------- one day ----------

  /** The keys of a map, in whatever order they come up. */
  method Range(m: Hours) returns (order: seq<string>)
    ensures Lists(order, m)
  {
    order := [];
    var keys := m.Keys;
    while keys != {}
      invariant keys <= m.Keys
      invariant Distinct(order) && forall t :: t in order <==> t in m && t !in keys
      decreases |keys|
    {
      var t :| t in keys;
      order := order + [t];
      keys := keys - {t};
    }
  }

  /** A partial absence from all types: walks the types and takes from each what it has, until nothing
      remains to take. */
  method TakeFromAll(m: Hours, minutes: nat) returns (r: Hours, ghost order: seq<string>)
    ensures Lists(order, m) && r == Deduct(m, order, minutes)
    ensures Sum(r) == if Sum(m) < minutes then 0 else Sum(m) - minutes
    ensures r.Keys == m.Keys && forall t <- m :: r[t] <= m[t]
  {
    hide Deduct, Distinct, Sum;
    var keys := Range(m);
    order, r := keys, m;
    var remaining: nat := minutes;
    ghost var rest := keys;
    for i := 0 to |keys|
      invariant rest == keys[i..] && r.Keys == m.Keys
      invariant Deduct(r, rest, remaining) == Deduct(m, order, minutes)
    {
      NextTaken(r, rest, remaining);
      if remaining == 0 {
        PartialLeavesRest(m, order, minutes);
        return;
      }
      var t := keys[i];
      var deduct: nat := remaining;
      if deduct > r[t] {
        deduct := r[t];
      }
      r := r[t := r[t] - deduct];
      remaining := remaining - deduct;
      rest := rest[1..];
    }
    NothingLeft(r, remaining);
    PartialLeavesRest(m, order, minutes);
  }

  lemma NextTaken(m: Hours, order: seq<string>, left: nat)
    requires order != [] && forall t <- order :: t in m
    ensures left == 0 ==> Deduct(m, order, left) == m
    ensures left > 0 ==> var taken := Min(left, m[order[0]]);
              Deduct(m, order, left) == Deduct(m[order[0] := m[order[0]] - taken], order[1..], left - taken)
  {
  }

  lemma NothingLeft(m: Hours, left: nat)
    ensures Deduct(m, [], left) == m
  {
  }

  method ZeroAll(m: Hours) returns (r: Hours, off: nat)
    ensures r == map t | t in m :: 0
    ensures off == Sum(m)
  {
    r, off := m, 0;
    var keys := m.Keys;
    while keys != {}
      invariant keys <= m.Keys && r.Keys == m.Keys
      invariant forall t <- m :: r[t] == if t in keys then m[t] else 0
      invariant off + Sum(r) == Sum(m)
      decreases |keys|
    {
      var t :| t in keys;
      SumSet(r, t, 0);
      off := off + r[t];
      r := r[t := 0];
      keys := keys - {t};
    }
    SumZero(r);
  }

  method AddUp(m: Hours) returns (sum: nat)
    ensures sum == Sum(m)
  {
    sum := 0;
    var rest := m;
    while rest != map[]
      invariant sum + Sum(rest) == Sum(m)
      decreases |rest|
    {
      var t :| t in rest;
      SumOf(rest, t);
      sum := sum + rest[t];
      rest := rest - {t};
    }
  }

  method ApplyAbsence(m: Hours, a: TimeOff) returns (r: Hours, off: nat, ghost order: seq<string>)
    ensures Lists(order, m) && r == ApplyOne(m, a, order) && off == OffOne(m, a)
  {
    order := SomeOrder(m.Keys);
    if a.kind == "" {
      if a.minutes == 0 {
        r, off := ZeroAll(m);
      } else {
        off := a.minutes;
        r, order := TakeFromAll(m, a.minutes);
      }
    } else if a.minutes == 0 {
      off := Get(m, a.kind);
      r := m[a.kind := 0];
    } else {
      var deduct := a.minutes;
      if deduct > Get(m, a.kind) {
        deduct := Get(m, a.kind);
      }
      r := m[a.kind := Get(m, a.kind) - deduct];
      off := deduct;
    }
  }

  lemma {:induction false} OneMoreAbsence(m: Hours, absences: seq<TimeOff>, orders: seq<seq<string>>, a: TimeOff,
                                          order: seq<string>)
    requires ValidOrders(m, absences, orders) && Lists(order, ApplyAll(m, absences, orders))
    ensures ValidOrders(m, absences + [a], orders + [order])
    ensures var last := ApplyAll(m, absences, orders);
            && ApplyAll(m, absences + [a], orders + [order]) == ApplyOne(last, a, order)
            && OffAll(m, absences + [a], orders + [order]) == OffAll(m, absences, orders) + OffOne(last, a)
    decreases |absences|
  {
    hide Sum, OffOne;
    if absences == [] {
      assert [a][1..] == [] && [order][1..] == [];
      assert absences + [a] == [a] && orders + [order] == [order];
    } else {
      assert (absences + [a])[1..] == absences[1..] + [a] && (orders + [order])[1..] == orders[1..] + [order];
      var m' := ApplyOne(m, absences[0], orders[0]);
      hide ApplyOne, Lists;
      OneMoreAbsence(m', absences[1..], orders[1..], a, order);
    }
  }

  /** A day's scheduled time by type, with the day's absences taken off one after the other. */
  datatype Day = Day(number: int, scheduled: nat, booked: nat, net: nat, typed: Hours)

  ghost predicate IsDay(d: Day, number: int, hours: Hours, absences: seq<TimeOff>, orders: seq<seq<string>>) {
    && ValidOrders(hours, absences, orders)
    && d == Day(number, Sum(hours), OffAll(hours, absences, orders), Sum(ApplyAll(hours, absences, orders)),
                ApplyAll(hours, absences, orders))
  }

  /** No type ends up with more than was scheduled, and the day's booked time off covers the difference;
      it is the difference exactly when no partial absence from all types overshoots. */
  method Breakdown(number: int, hours: Hours, absences: seq<TimeOff>) returns (d: Day, ghost orders: seq<seq<string>>)
    ensures IsDay(d, number, hours, absences, orders)
    ensures forall t :: Get(d.typed, t) <= Get(hours, t)
    ensures d.net + d.booked >= d.scheduled
    ensures d.net + d.booked == d.scheduled <==> !Overshoots(hours, absences, orders)
  {
    hide Lists, Sum, OffOne, ApplyOne, Overshoots;
    var dayTotal := AddUp(hours);
    var typed, booked: nat := hours, 0;
    orders := [];
    for i := 0 to |absences|
      invariant ValidOrders(hours, absences[..i], orders)
      invariant typed == ApplyAll(hours, absences[..i], orders) && booked == OffAll(hours, absences[..i], orders)
    {
      hide ValidOrders, ApplyAll, OffAll;
      ghost var order;
      var off;
      ghost var before := typed;
      typed, off, order := ApplyAbsence(typed, absences[i]);
      booked := booked + off;
      OneMoreAbsence(hours, absences[..i], orders, absences[i], order);
      assert absences[..i + 1] == absences[..i] + [absences[i]];
      orders := orders + [order];
    }
    assert absences[..|absences|] == absences;
    var net := AddUp(typed);
    DayConserves(hours, absences, orders);
    d := Day(number, dayTotal, booked, net, typed);
  }

  // ---------- the report ----------

  datatype Figure = Scheduled | Booked | Net | OfType(kind: string)

  function Amount(f: Figure, d: Day): nat {
    match f
    case Scheduled => d.scheduled
    case Booked => d.booked
    case Net => d.net
    case OfType(t) => Get(d.typed, t)
  }

  function Total(f: Figure, days: seq<Day>): nat {
    if days == [] then 0 else Total(f, days[..|days| - 1]) + Amount(f, days[|days| - 1])
  }

  lemma TotalNext(f: Figure, days: seq<Day>, d: Day)
    ensures Total(f, days + [d]) == Total(f, days) + Amount(f, d)
  {
    assert (days + [d])[..|days|] == days;
  }

  /** Adds one map's times to another's. */
  function Merge(m: Hours, n: Hours): (r: Hours)
    ensures forall t :: Get(r, t) == Get(m, t) + Get(n, t)
  {
    map t | t in m.Keys + n.Keys :: Get(m, t) + Get(n, t)
  }

  datatype Report = Report(days: seq<Day>, byType: Hours, scheduled: nat, booked: nat, net: int)

  ghost predicate AllDays(days: seq<Day>, first: int, hours: seq<Hours>, absences: seq<seq<TimeOff>>,
                          runs: seq<seq<seq<string>>>)
    requires |days| == |hours| == |absences| == |runs|
  {
    forall i :: 0 <= i < |days| ==> IsDay(days[i], first + i, hours[i], absences[i], runs[i])
  }

  ghost predicate SomeOvershoot(hours: seq<Hours>, absences: seq<seq<TimeOff>>, runs: seq<seq<seq<string>>>)
    requires |hours| == |absences| == |runs|
    requires forall i :: 0 <= i < |hours| ==> ValidOrders(hours[i], absences[i], runs[i])
  {
    exists i :: 0 <= i < |hours| && Overshoots(hours[i], absences[i], runs[i])
  }

  /** The report's net hours are its scheduled less its booked time. They are never more than the daily
      net times add up to, and equal that sum exactly when no absence overshoots on any day, which the input
      decides where no day's net time depends on the order of the types. */
  method StaffTimesheet(first: int, hours: seq<Hours>, absences: seq<seq<TimeOff>>)
    returns (r: Report, ghost runs: seq<seq<seq<string>>>)
    requires |hours| == |absences|
    ensures |r.days| == |hours| == |runs| && AllDays(r.days, first, hours, absences, runs)
    ensures r.scheduled == Total(Scheduled, r.days) && r.booked == Total(Booked, r.days)
    ensures forall t :: Get(r.byType, t) == Total(OfType(t), r.days)
    ensures r.net <= Total(Net, r.days)
    ensures r.net == Total(Net, r.days) <==> !SomeOvershoot(hours, absences, runs)
    ensures (forall i :: 0 <= i < |absences| ==> Settled(absences[i], {})) ==>
              (r.net == Total(Net, r.days) <==> forall i :: 0 <= i < |hours| ==> !OverDay(hours[i], absences[i]))
  {
    hide IsDay, ValidOrders, Overshoots, Total;
    var days, byType, scheduled, booked := [], map[], 0, 0;
    runs := [];
    NoDays();
    for i := 0 to |hours|
      invariant |days| == |runs| == i
      invariant forall j :: 0 <= j < i ==> IsDay(days[j], first + j, hours[j], absences[j], runs[j])
      invariant scheduled == Total(Scheduled, days) && booked == Total(Booked, days)
      invariant forall t :: Get(byType, t) == Total(OfType(t), days)
      invariant scheduled <= Total(Net, days) + booked
      invariant forall j :: 0 <= j < i ==> ValidOrders(hours[j], absences[j], runs[j])
      invariant scheduled == Total(Net, days) + booked <==>
                forall j :: 0 <= j < i ==> !Overshoots(hours[j], absences[j], runs[j])
    {
      var d, run := Breakdown(first + i, hours[i], absences[i]);
      DayHasOrders(d, first + i, hours[i], absences[i], run);
      NextTotals(days, d);
      days, runs := days + [d], runs + [run];
      byType := Merge(byType, d.typed);
      scheduled, booked := scheduled + d.scheduled, booked + d.booked;
    }
    r := Report(days, byType, scheduled, booked, scheduled - booked);
    if forall i :: 0 <= i < |absences| ==> Settled(absences[i], {}) {
      forall i | 0 <= i < |hours|
        ensures Overshoots(hours[i], absences[i], runs[i]) <==> OverDay(hours[i], absences[i])
      {
        SettledOvershoots(hours[i], absences[i], runs[i], {});
      }
    }
  }

  lemma NoDays()
    ensures forall f :: Total(f, []) == 0
  {
  }

  lemma NextTotals(days: seq<Day>, d: Day)
    ensures forall f :: Total(f, days + [d]) == Total(f, days) + Amount(f, d)
  {
    forall f ensures Total(f, days + [d]) == Total(f, days) + Amount(f, d) { TotalNext(f, days, d); }
  }

  lemma DayHasOrders(d: Day, number: int, hours: Hours, absences: seq<TimeOff>, orders: seq<seq<string>>)
    requires IsDay(d, number, hours, absences, orders)
    ensures ValidOrders(hours, absences, orders)
  {
  }

  // ---------- the weekly summary ----------

  /** Weeks are told apart by their number alone, without the year. */
  function WeekNumber(day: int): int {
    ISOWeek(day).1
  }

  function InWeek(days: seq<Day>, week: int): seq<Day> {
    if days == [] then []
    else
      var d := days[|days| - 1];
      InWeek(days[..|days| - 1], week) + if WeekNumber(d.number) == week then [d] else []
  }

  datatype Week = Week(number: int, start: int, scheduled: nat, off: int, net: nat, byType: Hours)

  /** A week's line: the Monday of its first day, and the sums of its days. */
  predicate Sums(w: Week, days: seq<Day>) {
    && days != [] && w.start == WeekStart(days[0].number)
    && w.scheduled == Total(Scheduled, days) && w.net == Total(Net, days) && w.off == w.scheduled - w.net
  }

  ghost predicate SumsByType(w: Week, days: seq<Day>) {
    forall t :: Get(w.byType, t) == Total(OfType(t), days)
  }

  lemma NextInWeek(days: seq<Day>, d: Day, week: int)
    ensures InWeek(days + [d], week) == InWeek(days, week) + if WeekNumber(d.number) == week then [d] else []
  {
    assert (days + [d])[..|days|] == days;
  }

  /** What the summary holds after some of the days: their weeks in order of appearance, each summed up. */
  ghost predicate Summarised(order: seq<int>, weeks: map<int, Week>, days: seq<Day>) {
    && (forall i, j :: 0 <= i < j < |order| ==> order[i] != order[j])
    && (forall n :: n in order <==> n in weeks)
    && (forall n :: Line(weeks, days, n))
  }

  ghost predicate Line(weeks: map<int, Week>, days: seq<Day>, n: int) {
    if n in weeks then
      weeks[n].number == n && Sums(weeks[n], InWeek(days, n)) && SumsByType(weeks[n], InWeek(days, n))
    else InWeek(days, n) == []
  }

  method WeeklySummary(days: seq<Day>) returns (lines: seq<Week>, ghost order: seq<int>, ghost weeks: map<int, Week>)
    ensures Summarised(order, weeks, days)
    ensures |lines| == |order| && forall i :: 0 <= i < |order| ==> order[i] in weeks && lines[i] == weeks[order[i]]
    ensures forall f: Figure :: !f.Booked? ==> LinesTotal(f, lines) == Total(f, days)
  {
    hide Sums, SumsByType, InWeek, WeekNumber, Total, LinesTotal;
    var weekMap: map<int, Week>, weekOrder: seq<int> := map[], [];
    NoWeeks();
    for i := 0 to |days|
      invariant Summarised(weekOrder, weekMap, days[..i])
    {
      hide Summarised;
      var d := days[i];
      var n := WeekNumber(d.number);
      assert days[..i + 1] == days[..i] + [d];
      AddDay(weekOrder, weekMap, days[..i], d);
      if n !in weekMap {
        weekOrder := weekOrder + [n];
      }
      weekMap := weekMap[n := WithDay(weekMap, d)];
    }
    assert days[..|days|] == days;
    lines := [];
    for i := 0 to |weekOrder|
      invariant |lines| == i
      invariant forall j :: 0 <= j < i ==> weekOrder[j] in weekMap && lines[j] == weekMap[weekOrder[j]]
    {
      assert weekOrder[i] in weekOrder;
      lines := lines + [weekMap[weekOrder[i]]];
    }
    order, weeks := weekOrder, weekMap;
    forall f: Figure | !f.Booked? ensures LinesTotal(f, lines) == Total(f, days) {
      SummaryConserves(lines, order, weeks, days, f);
    }
  }

  /** A day's week with the day added; a new line if it is the first of its number. */
  function WithDay(weeks: map<int, Week>, d: Day): Week {
    var n := WeekNumber(d.number);
    var w := if n in weeks then weeks[n] else Week(n, WeekStart(d.number), 0, 0, 0, map[]);
    w.(scheduled := w.scheduled + d.scheduled, net := w.net + d.net, off := w.off + (d.scheduled - d.net),
       byType := Merge(w.byType, d.typed))
  }

  lemma NoWeeks()
    ensures Summarised([], map[], [])
  {
  }

  lemma WeekGrows(w: Week, days: seq<Day>, d: Day)
    requires if days == [] then w == Week(w.number, WeekStart(d.number), 0, 0, 0, map[])
             else Sums(w, days) && SumsByType(w, days)
    ensures var v := w.(scheduled := w.scheduled + d.scheduled, net := w.net + d.net,
                        off := w.off + (d.scheduled - d.net),
                        byType := Merge(w.byType, d.typed));
            Sums(v, days + [d]) && SumsByType(v, days + [d])
  {
    NextTotals(days, d);
    NoDays();
    hide Total, WeekStart;
  }

  lemma AddDay(order: seq<int>, weeks: map<int, Week>, days: seq<Day>, d: Day)
    requires Summarised(order, weeks, days)
    ensures var n := WeekNumber(d.number);
            Summarised(if n in weeks then order else order + [n], weeks[n := WithDay(weeks, d)], days + [d])
  {
    var n := WeekNumber(d.number);
    var after, all := weeks[n := WithDay(weeks, d)], days + [d];
    forall k ensures Line(after, all, k) {
      assert Line(weeks, days, k);
      LineGrows(weeks, days, d, k);
    }
    hide Line, WeekNumber, WithDay;
  }

  lemma LineGrows(weeks: map<int, Week>, days: seq<Day>, d: Day, k: int)
    requires Line(weeks, days, k)
    ensures Line(weeks[WeekNumber(d.number) := WithDay(weeks, d)], days + [d], k)
  {
    NextInWeek(days, d, k);
    hide SumsByType, InWeek, WeekNumber, WeekStart, Total;
    var n := WeekNumber(d.number);
    if n == k {
      WeekGrows(if n in weeks then weeks[n] else Week(n, WeekStart(d.number), 0, 0, 0, map[]), InWeek(days, n), d);
    } else {
      assert InWeek(days, k) + [] == InWeek(days, k);
    }
  }

  function TotalOver(f: Figure, days: seq<Day>, order: seq<int>): nat {
    if order == [] then 0
    else TotalOver(f, days, order[..|order| - 1]) + Total(f, InWeek(days, order[|order| - 1]))
  }

  lemma {:induction false} OneMoreDay(f: Figure, days: seq<Day>, d: Day, order: seq<int>)
    requires forall i, j :: 0 <= i < j < |order| ==> order[i] != order[j]
    ensures TotalOver(f, days + [d], order) ==
            TotalOver(f, days, order) + if WeekNumber(d.number) in order then Amount(f, d) else 0
  {
    hide WeekNumber, InWeek;
    if order != [] {
      var n := |order| - 1;
      OneMoreDay(f, days, d, order[..n]);
      NextInWeek(days, d, order[n]);
      assert InWeek(days, order[n]) + [] == InWeek(days, order[n]);
      TotalNext(f, InWeek(days, order[n]), d);
      assert forall k <- order :: k in order[..n] || k == order[n];
      assert forall k <- order[..n] :: k in order;
      hide Total;
    }
  }

  lemma {:induction false} NoDaysOver(f: Figure, order: seq<int>)
    ensures TotalOver(f, [], order) == 0
  {
    if order != [] {
      NoDaysOver(f, order[..|order| - 1]);
    }
  }

  /** Every day's week is one of these. */
  predicate Covered(days: seq<Day>, order: seq<int>) {
    days != [] ==> WeekNumber(days[|days| - 1].number) in order && Covered(days[..|days| - 1], order)
  }

  lemma {:induction false} EmptyElsewhere(days: seq<Day>, order: seq<int>)
    requires forall n :: n !in order ==> InWeek(days, n) == []
    ensures Covered(days, order)
  {
    hide WeekNumber;
    if days != [] {
      assert InWeek(days, WeekNumber(days[|days| - 1].number)) != [];
      EmptyElsewhere(days[..|days| - 1], order);
    }
  }

  lemma {:induction false} WeeksAddUp(f: Figure, days: seq<Day>, order: seq<int>)
    requires forall i, j :: 0 <= i < j < |order| ==> order[i] != order[j]
    requires Covered(days, order)
    ensures TotalOver(f, days, order) == Total(f, days)
  {
    hide WeekNumber, TotalOver, Amount, InWeek;
    if days == [] {
      NoDaysOver(f, order);
    } else {
      var n := |days| - 1;
      assert days == days[..n] + [days[n]];
      WeeksAddUp(f, days[..n], order);
      OneMoreDay(f, days[..n], days[n], order);
    }
  }

  /** The figures a week's line has. */
  function LineAmount(f: Figure, w: Week): int {
    match f
    case Scheduled => w.scheduled
    case Booked => w.off
    case Net => w.net
    case OfType(t) => Get(w.byType, t)
  }

  function LinesTotal(f: Figure, lines: seq<Week>): int {
    if lines == [] then 0 else LinesTotal(f, lines[..|lines| - 1]) + LineAmount(f, lines[|lines| - 1])
  }

  lemma {:induction false} LinesAreWeeks(f: Figure, lines: seq<Week>, order: seq<int>, weeks: map<int, Week>,
                                         days: seq<Day>)
    requires !f.Booked? && |lines| == |order|
    requires forall i :: 0 <= i < |order| ==> order[i] in weeks && lines[i] == weeks[order[i]]
    requires forall n :: Line(weeks, days, n)
    ensures LinesTotal(f, lines) == TotalOver(f, days, order)
  {
    hide InWeek, Total, WeekStart;
    if lines != [] {
      var n := |lines| - 1;
      LinesAreWeeks(f, lines[..n], order[..n], weeks, days);
      assert Line(weeks, days, order[n]);
    }
  }

  /** The weekly figures, scheduled, net or by type, add up to the daily ones, and a week's time off to
      the difference. */
  lemma SummaryConserves(lines: seq<Week>, order: seq<int>, weeks: map<int, Week>, days: seq<Day>, f: Figure)
    requires Summarised(order, weeks, days) && |lines| == |order|
    requires forall i :: 0 <= i < |order| ==> order[i] in weeks && lines[i] == weeks[order[i]]
    ensures !f.Booked? ==> LinesTotal(f, lines) == Total(f, days)
    ensures LinesTotal(Booked, lines) == Total(Scheduled, days) - Total(Net, days)
  {
    forall n | n !in order ensures InWeek(days, n) == [] { assert Line(weeks, days, n); }
    EmptyElsewhere(days, order);
    forall g: Figure | !g.Booked? ensures LinesTotal(g, lines) == Total(g, days) {
      LinesAreWeeks(g, lines, order, weeks, days);
      WeeksAddUp(g, days, order);
    }
    forall i | 0 <= i < |lines| ensures lines[i].off == lines[i].scheduled - lines[i].net {
      assert Line(weeks, days, order[i]);
    }
    hide LinesTotal, Total;
    OffIsDifference(lines);
  }

  lemma {:induction false} OffIsDifference(lines: seq<Week>)
    requires forall i :: 0 <= i < |lines| ==> lines[i].off == lines[i].scheduled - lines[i].net
    ensures LinesTotal(Booked, lines) == LinesTotal(Scheduled, lines) - LinesTotal(Net, lines)
  {
    if lines != [] {
      OffIsDifference(lines[..|lines| - 1]);
    }
  }

  lemma YearOf(t: int)
    ensures DaysBeforeYear(DateOf(t).year) <= t < DaysBeforeYear(DateOf(t).year + 1)
  {
    DayOfYearBound(DateOf(t));
    YearLength(DateOf(t).year);
  }

  /** Counting sevens from the start of two years at least 365 days apart never meets within 364 days. */
  lemma SevensApart(t: int, u: int, b: int, c: int)
    requires b + 365 <= c <= u && b <= t < c && u - t < 364 && t % 7 == u % 7
    ensures (t - b) / 7 != (u - c) / 7
  {
  }

  lemma NumbersReturn(t: int, u: int, y: int, z: int)
    requires t <= u < t + 364 && t % 7 == u % 7
    requires DaysBeforeYear(y) <= t < DaysBeforeYear(y + 1) && DaysBeforeYear(z) <= u < DaysBeforeYear(z + 1)
    requires (t - DaysBeforeYear(y)) / 7 == (u - DaysBeforeYear(z)) / 7
    ensures t == u
  {
    hide DaysBeforeYear;
    if y < z {
      YearsGrow(y, y + 1);
      YearsGrow(y + 1, z);
      SevensApart(t, u, DaysBeforeYear(y), DaysBeforeYear(z));
    } else if z < y {
      YearsGrow(z + 1, y);
    }
  }

  /** Within 358 days a number is one week. */
  lemma NumbersNameWeeks(m: int, n: int)
    requires m - n < 358 && n - m < 358
    ensures WeekNumber(m) == WeekNumber(n) <==> WeekStart(m) == WeekStart(n)
  {
    WeekStartIsMonday(m);
    WeekStartIsMonday(n);
    var t, u := WeekStart(m) + 3, WeekStart(n) + 3;
    YearOf(t);
    YearOf(u);
    hide DateOf, DaysBeforeYear, WeekStart, WeekdayOf, DayNumber;
    if WeekNumber(m) == WeekNumber(n) {
      if m <= n {
        NumbersReturn(t, u, DateOf(t).year, DateOf(u).year);
      } else {
        NumbersReturn(u, t, DateOf(u).year, DateOf(t).year);
      }
    }
  }

  lemma WeekFrom(n: int, monday: int, thursday: Date)
    requires thursday.Valid() && monday % 7 == 0 && DayNumber(thursday) == monday + 3 && monday <= n < monday + 7
    ensures WeekStart(n) == monday
    ensures WeekNumber(n) == (monday + 3 - DaysBeforeYear(thursday.year)) / 7 + 1
  {
    hide DateOf, DayNumber, DaysBeforeYear, WeekStart, WeekdayOf;
    WeekStartIsMonday(n);
    OneMonday(n, monday);
    DateOfUnique(thursday);
  }

  lemma OneMonday(n: int, monday: int)
    requires monday % 7 == 0 && monday <= n < monday + 7
    ensures n / 7 * 7 == monday
  {
  }

  /** Over a longer range two weeks share a line: the first and the last Monday of 2024, and as early as from the
      Sunday of the first of those weeks. */
  lemma YearsAreMerged()
    ensures var m, n := DayNumber(Date(2024, 1, 1)), DayNumber(Date(2024, 12, 30));
            WeekNumber(m) == WeekNumber(n) && WeekStart(m) == m && WeekStart(n) == n && m != n
    ensures var m, n := DayNumber(Date(2024, 1, 7)), DayNumber(Date(2024, 12, 30));
            WeekNumber(m) == WeekNumber(n) && WeekStart(m) != WeekStart(n) && n - m == 358
  {
    MonthsFillYear(2024);
    hide ISOWeek, WeekNumber, WeekStart;
    WeekFrom(DayNumber(Date(2024, 1, 1)), DayNumber(Date(2024, 1, 1)), Date(2024, 1, 4));
    WeekFrom(DayNumber(Date(2024, 1, 7)), DayNumber(Date(2024, 1, 1)), Date(2024, 1, 4));
    WeekFrom(DayNumber(Date(2024, 12, 30)), DayNumber(Date(2024, 12, 30)), Date(2025, 1, 2));
  }

  /** Week numbers name weeks on every range of k days after its first exactly when k is below 358. */
  lemma SpanExactly(k: nat)
    ensures (forall m, n :: 0 <= n - m <= k ==> (WeekNumber(m) == WeekNumber(n) <==> WeekStart(m) == WeekStart(n)))
            <==> k < 358
  {
    hide WeekNumber, WeekStart;
    if k < 358 {
      forall m, n | 0 <= n - m <= k
        ensures WeekNumber(m) == WeekNumber(n) <==> WeekStart(m) == WeekStart(n)
      {
        NumbersNameWeeks(m, n);
      }
    } else {
      YearsAreMerged();
    }
  }
}
