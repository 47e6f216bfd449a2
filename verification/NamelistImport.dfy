/** internal/datastore/namelist.go, ExecuteNamelistImport: inserting, merging and skipping, and the parents
    found or created on the way. */
module NamelistImport {
  import opened Calendar
  import opened Text
  import opened NamelistIds
  import opened Namelist

  datatype Result = Result(inserted: nat, merged: nat, skipped: nat, created: nat, updated: nat)

  datatype Tables = Tables(students: seq<Student>, parents: seq<Parent>, result: Result)

  function StudentIds(students: seq<Student>): (ids: seq<string>)
    ensures |ids| == |students| && forall i :: 0 <= i < |students| ==> ids[i] == students[i].id
  {
    seq(|students|, i requires 0 <= i < |students| => students[i].id)
  }

  function ParentIds(parents: seq<Parent>): (ids: seq<string>)
    ensures |ids| == |parents| && forall i :: 0 <= i < |parents| ==> ids[i] == parents[i].id
  {
    seq(|parents|, i requires 0 <= i < |parents| => parents[i].id)
  }

  // ---------- parents ----------

  /** The last word is the family name. */
  function SplitName(full: string): (string, string) {
    var parts := FieldsBy(full, ' ');
    if |parts| == 0 then ("", "")
    else if |parts| == 1 then (parts[0], "")
    else (Join(parts[..|parts| - 1], ' '), parts[|parts| - 1])
  }

  predicate SameEmail(p: Parent, email: string) {
    ToLower(p.email) == ToLower(email)
  }

  predicate SamePerson(p: Parent, first: string, last: string, email: string) {
    ToLower(p.first) == ToLower(first) && ToLower(p.last) == ToLower(last) && SameEmail(p, email)
  }

  /** The first parent with this name and address, or the end. */
  function FindPerson(parents: seq<Parent>, first: string, last: string, email: string): (i: nat)
    ensures i <= |parents| && (i < |parents| ==> SamePerson(parents[i], first, last, email))
    ensures i == |parents| ==> forall p <- parents :: !SamePerson(p, first, last, email)
  {
    if parents == [] || SamePerson(parents[0], first, last, email) then 0
    else
      assert forall p <- parents :: p == parents[0] || p in parents[1..];
      1 + FindPerson(parents[1..], first, last, email)
  }

  function FindEmail(parents: seq<Parent>, email: string): (i: nat)
    ensures i <= |parents| && (i < |parents| ==> SameEmail(parents[i], email))
    ensures i == |parents| ==> forall p <- parents :: !SameEmail(p, email)
  {
    if parents == [] || SameEmail(parents[0], email) then 0
    else
      assert forall p <- parents :: p == parents[0] || p in parents[1..];
      1 + FindEmail(parents[1..], email)
  }

  function WithPhone(p: Parent, phone: string): Parent {
    if phone != "" && p.phone == "" then p.(phone := phone) else p
  }

  datatype Upserted = Upserted(tables: Tables, id: string)

  /** `upsertParentInTx`; nothing if the new parent's ID is taken. */
  function Upsert(t: Tables, e: Entry): Option<Upserted> {
    if e.parentName == "" && e.parentEmail == "" then Some(Upserted(t, ""))
    else
      var (first, last) := SplitName(e.parentName);
      var i := if e.parentEmail != "" && first != "" then FindPerson(t.parents, first, last, e.parentEmail)
               else |t.parents|;
      var j := if e.parentEmail != "" then FindEmail(t.parents, e.parentEmail) else |t.parents|;
      if i < |t.parents| then
        Some(Upserted(Updated(t, i, WithPhone(t.parents[i], e.parentPhone)), t.parents[i].id))
      else if j < |t.parents| then
        var named := if first != "" then t.parents[j].(first := first, last := last) else t.parents[j];
        Some(Upserted(Updated(t, j, WithPhone(named, e.parentPhone)), t.parents[j].id))
      else
        var id := NextId(ParentIds(t.parents), "P");
        if id in ParentIds(t.parents) then None
        else
          var p := Parent(id, first, last, e.parentEmail, e.parentPhone);
          Some(Upserted(t.(parents := t.parents + [p], result := t.result.(created := t.result.created + 1)), id))
  }

  function Updated(t: Tables, i: nat, p: Parent): Tables
    requires i < |t.parents|
  {
    t.(parents := t.parents[i := p], result := t.result.(updated := t.result.updated + 1))
  }

  predicate UniqueEmails(parents: seq<Parent>) {
    forall i, j :: 0 <= i < j < |parents| && parents[i].email != "" && parents[j].email != "" ==>
      !SameEmail(parents[i], parents[j].email)
  }

  predicate Distinct(ids: seq<string>) {
    forall i, j :: 0 <= i < j < |ids| ==> ids[i] != ids[j]
  }

  lemma UpdateKeeps(parents: seq<Parent>, i: nat, p: Parent)
    requires i < |parents| && p.email == parents[i].email && p.id == parents[i].id
    ensures UniqueEmails(parents) ==> UniqueEmails(parents[i := p])
    ensures ParentIds(parents[i := p]) == ParentIds(parents)
  {
  }

  lemma CreateKeeps(parents: seq<Parent>, p: Parent)
    requires p.id == NextId(ParentIds(parents), "P") && p.id !in ParentIds(parents)
    requires p.email == "" || forall q <- parents :: !SameEmail(q, p.email)
    ensures UniqueEmails(parents) ==> UniqueEmails(parents + [p])
    ensures ParentIds(parents + [p]) == ParentIds(parents) + [p.id]
    ensures Distinct(ParentIds(parents)) ==> Distinct(ParentIds(parents + [p]))
    ensures Top(ParentIds(parents), "P") < 999 ==>
              Top(ParentIds(parents + [p]), "P") == Top(ParentIds(parents), "P") + 1
  {
    assert ParentIds(parents + [p]) == ParentIds(parents) + [p.id];
    hide NextId, Top, SameEmail;
    if Top(ParentIds(parents), "P") < 999 {
      NextIsFresh(ParentIds(parents), "P");
    }
  }

  /** Non-empty parent addresses stay unique without regard to case, and IDs distinct. The students and
      their counts are left alone. Only a taken ID makes it fail, so it does not below P999. */
  lemma UpsertKeeps(t: Tables, e: Entry)
    ensures var u := Upsert(t, e);
            u.Some? ==>
              && (UniqueEmails(t.parents) ==> UniqueEmails(u.value.tables.parents))
              && (Distinct(ParentIds(t.parents)) ==> Distinct(ParentIds(u.value.tables.parents)))
              && (Top(ParentIds(t.parents), "P") < 999 ==>
                    Top(ParentIds(u.value.tables.parents), "P") <= Top(ParentIds(t.parents), "P") + 1)
              && u.value.tables.students == t.students
              && u.value.tables.result.inserted == t.result.inserted && u.value.tables.result.merged == t.result.merged
              && u.value.tables.result.skipped == t.result.skipped
    ensures Top(ParentIds(t.parents), "P") < 999 ==> Upsert(t, e).Some?
  {
    hide SplitName, Top, SameEmail, SamePerson, UniqueEmails, NextId, Distinct, FindPerson, FindEmail;
    if !(e.parentName == "" && e.parentEmail == "") {
      var (first, last) := SplitName(e.parentName);
      var n := |t.parents|;
      var i := if e.parentEmail != "" && first != "" then FindPerson(t.parents, first, last, e.parentEmail) else n;
      var j := if e.parentEmail != "" then FindEmail(t.parents, e.parentEmail) else n;
      if i < n {
        UpdateKeeps(t.parents, i, WithPhone(t.parents[i], e.parentPhone));
      } else if j < n {
        var named := if first != "" then t.parents[j].(first := first, last := last) else t.parents[j];
        UpdateKeeps(t.parents, j, WithPhone(named, e.parentPhone));
      } else {
        var id := NextId(ParentIds(t.parents), "P");
        if Top(ParentIds(t.parents), "P") < 999 {
          NextIsFresh(ParentIds(t.parents), "P");
        }
        if id !in ParentIds(t.parents) {
          var p := Parent(id, first, last, e.parentEmail, e.parentPhone);
          CreateKeeps(t.parents, p);
        }
      }
    }
  }

  // ---------- students ----------

  function Action(decisions: map<int, string>, row: int): string {
    if row in decisions then decisions[row] else ""
  }

  function Over(new_: string, old_: string): string {
    if new_ != "" then new_ else old_
  }

  /** `mergeStudentInTx`: what the entry says replaces what is on file. */
  function Merged(s: Student, e: Entry, parent: string): Student {
    s.(first := Over(e.first, s.first), last := Over(e.last, s.last),
       info := seq(10, k requires 0 <= k < 10 => Over(e.info[k], s.info[k])), parent := Over(parent, s.parent))
  }

  /** After a merge nothing differs any more, and what the entry is silent about is as it was. */
  lemma MergeSettles(s: Student, e: Entry, parent: string)
    ensures !Differs(e, Merged(s, e, parent))
    ensures var t := Merged(s, e, parent);
            && t.id == s.id && t.deleted == s.deleted && (parent == "" ==> t.parent == s.parent)
            && (e.first != "" && e.last != "" ==> NameKey(t.first, t.last) == NameKey(e.first, e.last))
            && forall k :: 0 <= k < 10 && e.info[k] == "" ==> t.info[k] == s.info[k]
  {
    forall k | 0 <= k < 10 ensures !FieldDiffers(e, Merged(s, e, parent), k) {
    }
  }

  function MergeInto(students: seq<Student>, id: string, e: Entry, parent: string): (r: seq<Student>)
    ensures StudentIds(r) == StudentIds(students)
  {
    seq(|students|, i requires 0 <= i < |students| =>
        if students[i].id == id then Merged(students[i], e, parent) else students[i])
  }

  function SetParent(students: seq<Student>, id: string, parent: string): (r: seq<Student>)
    ensures StudentIds(r) == StudentIds(students)
  {
    seq(|students|, i requires 0 <= i < |students| =>
        if students[i].id == id then students[i].(parent := parent) else students[i])
  }

  function NewStudent(id: string, e: Entry, parent: string): Student {
    Student(id, e.first, e.last, e.info, parent, false)
  }

  function Insert(t: Tables, e: Entry, prefix: string): Option<Tables> {
    var id := NextId(StudentIds(t.students), prefix);
    var u := Upsert(t, e);
    if u.None? || id in StudentIds(t.students) then None
    else
      var v := u.value.tables;
      Some(v.(students := v.students + [NewStudent(id, e, u.value.id)],
              result := v.result.(inserted := v.result.inserted + 1)))
  }

  function Skip(t: Tables): Tables {
    t.(result := t.result.(skipped := t.result.skipped + 1))
  }

  function StepNew(t: Tables, e: Entry, decisions: map<int, string>, prefix: string): Option<Tables> {
    if Action(decisions, e.row) == "skip" then Some(Skip(t)) else Insert(t, e, prefix)
  }

  function StepConflict(t: Tables, c: Conflict, decisions: map<int, string>, prefix: string): Option<Tables> {
    var action := Action(decisions, c.entry.row);
    if action == "merge" then
      var u := Upsert(t, c.entry);
      if u.None? then None
      else
        var v := u.value.tables;
        Some(v.(students := MergeInto(v.students, c.student.id, c.entry, u.value.id),
                result := v.result.(merged := v.result.merged + 1)))
    else if action == "insert" then Insert(t, c.entry, prefix)
    else Some(Skip(t))
  }

  function FirstByName(existing: seq<Student>, key: string): Option<Student> {
    if existing == [] then None
    else if NameKey(existing[0].first, existing[0].last) == key then Some(existing[0])
    else FirstByName(existing[1..], key)
  }

  /** An entry that is the same still brings its parent; a parent that cannot be created is passed over. */
  function StepSame(t: Tables, e: Entry, existing: seq<Student>): Tables {
    if e.parentName == "" && e.parentEmail == "" then t
    else
      var s := FirstByName(existing, NameKey(e.first, e.last));
      var u := Upsert(t, e);
      if s.None? || u.None? then t
      else if u.value.id != "" && s.value.parent != u.value.id then
        u.value.tables.(students := SetParent(u.value.tables.students, s.value.id, u.value.id))
      else u.value.tables
  }

  function RunNews(t: Tables, es: seq<Entry>, decisions: map<int, string>, prefix: string): Option<Tables> {
    if es == [] then Some(t)
    else
      var before := RunNews(t, es[..|es| - 1], decisions, prefix);
      if before.None? then None else StepNew(before.value, es[|es| - 1], decisions, prefix)
  }

  function RunConflicts(t: Tables, cs: seq<Conflict>, decisions: map<int, string>, prefix: string): Option<Tables> {
    if cs == [] then Some(t)
    else
      var before := RunConflicts(t, cs[..|cs| - 1], decisions, prefix);
      if before.None? then None else StepConflict(before.value, cs[|cs| - 1], decisions, prefix)
  }

  function RunSames(t: Tables, es: seq<Entry>, existing: seq<Student>): Tables {
    if es == [] then t else StepSame(RunSames(t, es[..|es| - 1], existing), es[|es| - 1], existing)
  }

  /** The whole import; nothing if it fails and is rolled back. */
  function Import(students: seq<Student>, parents: seq<Parent>, entries: seq<Entry>, decisions: map<int, string>,
                  prefix: string): Option<Tables> {
    var existing := Live(students);
    var start := Tables(students, parents, Result(0, 0, 0, 0, 0));
    var a := RunNews(start, News(entries, existing), decisions, prefix);
    if a.None? then None
    else
      var b := RunConflicts(a.value, Conflicts(entries, existing), decisions, prefix);
      if b.None? then None else Some(RunSames(b.value, Sames(entries, existing), existing))
  }

  // ---------- what every step keeps ----------

  predicate Inv(t: Tables) {
    Distinct(StudentIds(t.students)) && Distinct(ParentIds(t.parents)) && UniqueEmails(t.parents)
  }

  function Handled(t: Tables): nat {
    t.result.inserted + t.result.merged + t.result.skipped
  }

  /** One handled entry: counted once; the students' IDs stay, but for the next one if it was inserted. */
  ghost predicate OneHandled(t: Tables, v: Tables, prefix: string) {
    && Handled(v) == Handled(t) + 1
    && (if v.result.inserted == t.result.inserted then StudentIds(v.students) == StudentIds(t.students)
        else v.result.inserted == t.result.inserted + 1
             && NextId(StudentIds(t.students), prefix) !in StudentIds(t.students)
             && StudentIds(v.students) == StudentIds(t.students) + [NextId(StudentIds(t.students), prefix)])
    && (Inv(t) ==> Inv(v))
    && (ParentTop(t) < 999 ==> ParentTop(v) <= ParentTop(t) + 1)
  }

  function ParentTop(t: Tables): nat {
    Top(ParentIds(t.parents), "P")
  }

  function StudentTop(t: Tables, prefix: string): nat {
    Top(StudentIds(t.students), prefix)
  }

  lemma InsertHandles(t: Tables, e: Entry, prefix: string)
    ensures Insert(t, e, prefix).Some? ==> OneHandled(t, Insert(t, e, prefix).value, prefix)
    ensures StudentTop(t, prefix) < 999 && ParentTop(t) < 999 ==> Insert(t, e, prefix).Some?
  {
    UpsertKeeps(t, e);
    hide Upsert, Top, UniqueEmails, NextId;
    if StudentTop(t, prefix) < 999 {
      NextIsFresh(StudentIds(t.students), prefix);
    }
    if Insert(t, e, prefix).Some? {
      var id := NextId(StudentIds(t.students), prefix);
      var v := Upsert(t, e).value.tables;
      var s := NewStudent(id, e, Upsert(t, e).value.id);
      assert StudentIds(v.students + [s]) == StudentIds(t.students) + [id];
    }
  }

  lemma NewHandles(t: Tables, e: Entry, decisions: map<int, string>, prefix: string)
    ensures StepNew(t, e, decisions, prefix).Some? ==> OneHandled(t, StepNew(t, e, decisions, prefix).value, prefix)
    ensures StudentTop(t, prefix) < 999 && ParentTop(t) < 999 ==> StepNew(t, e, decisions, prefix).Some?
  {
    InsertHandles(t, e, prefix);
    hide Insert, Top, NextId, UniqueEmails, Distinct;
  }

  lemma ConflictHandles(t: Tables, c: Conflict, decisions: map<int, string>, prefix: string)
    ensures StepConflict(t, c, decisions, prefix).Some? ==>
              OneHandled(t, StepConflict(t, c, decisions, prefix).value, prefix)
    ensures StudentTop(t, prefix) < 999 && ParentTop(t) < 999 ==> StepConflict(t, c, decisions, prefix).Some?
  {
    InsertHandles(t, c.entry, prefix);
    UpsertKeeps(t, c.entry);
    hide Insert, Upsert, Top, NextId, UniqueEmails, Distinct;
  }

  // ---------- whole imports ----------

  /** The IDs after a number, in order. */
  function IdsAfter(prefix: string, top: nat, k: nat): seq<string> {
    if k == 0 then [] else IdsAfter(prefix, top, k - 1) + [prefix + Padded(top + k)]
  }

  /** From `a` to `b` by `n` inserted students. */
  ghost predicate Grown(a: seq<string>, b: seq<string>, prefix: string, n: nat) {
    && b == a + IdsAfter(prefix, Top(a, prefix), n)
    && Top(b, prefix) == Top(a, prefix) + n
  }

  lemma GrownMore(a: seq<string>, b: seq<string>, prefix: string, n: nat)
    requires Grown(a, b, prefix, n) && Top(a, prefix) + n < 999
    ensures Grown(a, b + [NextId(b, prefix)], prefix, n + 1)
  {
    hide Top, Padded, NextId, StudentTop;
    NextIsOneMore(b, prefix);
    IdsNext(prefix, Top(a, prefix), n);
    hide IdsAfter;
    Associative(a, IdsAfter(prefix, Top(a, prefix), n), [NextId(b, prefix)]);
  }

  lemma IdsNext(prefix: string, top: nat, n: nat)
    ensures IdsAfter(prefix, top, n + 1) == IdsAfter(prefix, top, n) + [prefix + Padded(top + n + 1)]
  {
    hide Padded;
  }

  lemma GrownBoth(a: seq<string>, b: seq<string>, c: seq<string>, prefix: string, m: nat, n: nat)
    requires Grown(a, b, prefix, m) && Grown(b, c, prefix, n)
    ensures Grown(a, c, prefix, m + n)
  {
    hide Top, IdsAfter;
    IdsJoin(prefix, Top(a, prefix), m, n);
    Associative(a, IdsAfter(prefix, Top(a, prefix), m), IdsAfter(prefix, Top(a, prefix) + m, n));
  }

  lemma GrownNone(a: seq<string>, prefix: string)
    ensures Grown(a, a, prefix, 0)
  {
    assert a + [] == a;
  }

  ghost predicate TablesGrown(t: Tables, v: Tables, prefix: string, n: nat) {
    Grown(StudentIds(t.students), StudentIds(v.students), prefix, n)
  }

  lemma TablesGrownMore(t: Tables, u: Tables, v: Tables, prefix: string, n: nat)
    requires TablesGrown(t, u, prefix, n) && StudentTop(t, prefix) + n < 999
    requires StudentIds(v.students) == StudentIds(u.students) + [NextId(StudentIds(u.students), prefix)]
    ensures TablesGrown(t, v, prefix, n + 1)
  {
    hide Grown, Top, NextId, StudentIds;
    GrownMore(StudentIds(t.students), StudentIds(u.students), prefix, n);
  }

  lemma TablesGrownBoth(t: Tables, u: Tables, v: Tables, prefix: string, m: nat, n: nat)
    requires TablesGrown(t, u, prefix, m) && TablesGrown(u, v, prefix, n)
    ensures TablesGrown(t, v, prefix, m + n)
  {
    hide Grown, StudentIds;
    GrownBoth(StudentIds(t.students), StudentIds(u.students), StudentIds(v.students), prefix, m, n);
  }

  lemma TablesGrownMeans(t: Tables, v: Tables, prefix: string, n: nat)
    requires TablesGrown(t, v, prefix, n)
    ensures StudentIds(v.students) == StudentIds(t.students) + IdsAfter(prefix, StudentTop(t, prefix), n)
    ensures StudentTop(v, prefix) == StudentTop(t, prefix) + n
  {
    hide StudentIds, IdsAfter, Top;
  }

  /** From one state to another by `k` handled entries. */
  ghost predicate SomeHandled(t: Tables, v: Tables, prefix: string, k: nat) {
    && Handled(v) == Handled(t) + k
    && t.result.inserted <= v.result.inserted <= t.result.inserted + k
    && (Inv(t) ==> Inv(v))
    && (StudentTop(t, prefix) + k <= 999 ==>
          TablesGrown(t, v, prefix, v.result.inserted - t.result.inserted))
    && (ParentTop(t) + k <= 999 ==> ParentTop(v) <= ParentTop(t) + k)
  }

  lemma HandledNone(t: Tables, prefix: string)
    ensures SomeHandled(t, t, prefix, 0)
  {
    GrownNone(StudentIds(t.students), prefix);
  }

  lemma HandledMore(t: Tables, u: Tables, v: Tables, prefix: string, k: nat)
    requires SomeHandled(t, u, prefix, k) && OneHandled(u, v, prefix)
    ensures SomeHandled(t, v, prefix, k + 1)
  {
    hide Inv, Top, Grown, NextId, StudentIds, ParentIds, StudentTop, ParentTop, Handled;
    if StudentTop(t, prefix) + k + 1 <= 999 && v.result.inserted > u.result.inserted {
      TablesGrownMore(t, u, v, prefix, u.result.inserted - t.result.inserted);
    }
  }

  lemma Associative(a: seq<string>, b: seq<string>, c: seq<string>)
    ensures a + b + c == a + (b + c)
  {
  }

  lemma {:induction false} NewsHandled(t: Tables, es: seq<Entry>, decisions: map<int, string>, prefix: string)
    ensures RunNews(t, es, decisions, prefix).Some? ==>
              SomeHandled(t, RunNews(t, es, decisions, prefix).value, prefix, |es|)
    ensures StudentTop(t, prefix) + |es| <= 999 && ParentTop(t) + |es| <= 999 ==>
              RunNews(t, es, decisions, prefix).Some?
  {
    hide StepNew;
    if es == [] {
      HandledNone(t, prefix);
    } else {
      var n := |es| - 1;
      NewsHandled(t, es[..n], decisions, prefix);
      var u := RunNews(t, es[..n], decisions, prefix);
      if u.Some? {
        NewHandles(u.value, es[n], decisions, prefix);
        var v := StepNew(u.value, es[n], decisions, prefix);
        if v.Some? {
          HandledMore(t, u.value, v.value, prefix, n);
        }
      }
      hide OneHandled, Top, Inv, IdsAfter;
    }
  }

  lemma {:induction false} ConflictsHandled(t: Tables, cs: seq<Conflict>, decisions: map<int, string>, prefix: string)
    ensures RunConflicts(t, cs, decisions, prefix).Some? ==>
              SomeHandled(t, RunConflicts(t, cs, decisions, prefix).value, prefix, |cs|)
    ensures StudentTop(t, prefix) + |cs| <= 999 && ParentTop(t) + |cs| <= 999 ==>
              RunConflicts(t, cs, decisions, prefix).Some?
  {
    hide StepConflict;
    if cs == [] {
      HandledNone(t, prefix);
    } else {
      var n := |cs| - 1;
      ConflictsHandled(t, cs[..n], decisions, prefix);
      var u := RunConflicts(t, cs[..n], decisions, prefix);
      if u.Some? {
        ConflictHandles(u.value, cs[n], decisions, prefix);
        var v := StepConflict(u.value, cs[n], decisions, prefix);
        if v.Some? {
          HandledMore(t, u.value, v.value, prefix, n);
        }
      }
      hide OneHandled, Top, Inv, IdsAfter;
    }
  }

  lemma SameKeeps(t: Tables, e: Entry, existing: seq<Student>)
    ensures var v := StepSame(t, e, existing);
            Handled(v) == Handled(t) && v.result.inserted == t.result.inserted
            && StudentIds(v.students) == StudentIds(t.students) && (Inv(t) ==> Inv(v))
  {
    UpsertKeeps(t, e);
    hide Upsert, Top, UniqueEmails, Distinct, FirstByName;
  }

  lemma {:induction false} SamesKeep(t: Tables, es: seq<Entry>, existing: seq<Student>)
    ensures var v := RunSames(t, es, existing);
            Handled(v) == Handled(t) && v.result.inserted == t.result.inserted
            && StudentIds(v.students) == StudentIds(t.students) && (Inv(t) ==> Inv(v))
  {
    hide StepSame, Inv, Handled;
    if es != [] {
      SamesKeep(t, es[..|es| - 1], existing);
      SameKeeps(RunSames(t, es[..|es| - 1], existing), es[|es| - 1], existing);
    }
  }

  /** A successful import counts every new or conflicting entry once, as inserted, merged or skipped; IDs stay
      distinct and parents' addresses unique. While the numbers last, it succeeds, every student keeps their
      ID, and the inserted ones get the next numbers in order. */
  lemma ImportKeeps(students: seq<Student>, parents: seq<Parent>, entries: seq<Entry>, decisions: map<int, string>,
                    prefix: string)
    ensures var start := Tables(students, parents, Result(0, 0, 0, 0, 0));
            var k := |News(entries, Live(students))| + |Conflicts(entries, Live(students))|;
            var t := Import(students, parents, entries, decisions, prefix);
            && (StudentTop(start, prefix) + k <= 999 && ParentTop(start) + k <= 999 ==> t.Some?)
            && (t.Some? ==>
                  && Handled(t.value) == k
                  && (Inv(start) ==> Inv(t.value))
                  && (StudentTop(start, prefix) + k <= 999 ==>
                        StudentIds(t.value.students) ==
                        StudentIds(students) + IdsAfter(prefix, StudentTop(start, prefix), t.value.result.inserted)))
  {
    var existing := Live(students);
    var start := Tables(students, parents, Result(0, 0, 0, 0, 0));
    var news, conflicts := News(entries, existing), Conflicts(entries, existing);
    assert Handled(start) == 0;
    hide News, Conflicts, Sames, Live, RunNews, RunConflicts, RunSames, Inv, StudentTop, ParentTop, IdsAfter,
      StudentIds, SomeHandled, Handled;
    NewsHandled(start, news, decisions, prefix);
    var a := RunNews(start, news, decisions, prefix);
    if a.Some? {
      ConflictsHandled(a.value, conflicts, decisions, prefix);
      RoomLeft(start, a.value, prefix, |news|, |conflicts|);
      var b := RunConflicts(a.value, conflicts, decisions, prefix);
      if b.Some? {
        SamesKeep(b.value, Sames(entries, existing), existing);
        HandledBoth(start, a.value, b.value, prefix, |news|, |conflicts|);
        HandledMeans(start, b.value, RunSames(b.value, Sames(entries, existing), existing), prefix,
                     |news| + |conflicts|);
      }
    }
  }

  lemma RoomLeft(t: Tables, u: Tables, prefix: string, k: nat, l: nat)
    requires SomeHandled(t, u, prefix, k)
    ensures StudentTop(t, prefix) + k + l <= 999 ==> StudentTop(u, prefix) + l <= 999
    ensures ParentTop(t) + k + l <= 999 ==> ParentTop(u) + l <= 999
  {
    hide Inv, StudentTop, ParentTop, Handled, TablesGrown;
    if StudentTop(t, prefix) + k + l <= 999 {
      TablesGrownMeans(t, u, prefix, u.result.inserted - t.result.inserted);
    }
  }

  /** What the last step of an import leaves to say about the whole. */
  lemma HandledMeans(t: Tables, v: Tables, w: Tables, prefix: string, k: nat)
    requires SomeHandled(t, v, prefix, k) && Handled(t) == 0 && t.result.inserted == 0
    requires Handled(w) == Handled(v) && w.result.inserted == v.result.inserted
    requires StudentIds(w.students) == StudentIds(v.students) && (Inv(v) ==> Inv(w))
    ensures Handled(w) == k && (Inv(t) ==> Inv(w))
    ensures StudentTop(t, prefix) + k <= 999 ==>
              StudentIds(w.students) ==
              StudentIds(t.students) + IdsAfter(prefix, StudentTop(t, prefix), w.result.inserted)
  {
    hide Inv, StudentTop, ParentTop, Handled, TablesGrown, StudentIds, IdsAfter;
    if StudentTop(t, prefix) + k <= 999 {
      TablesGrownMeans(t, v, prefix, v.result.inserted);
    }
  }

  lemma {:induction false} IdsJoin(prefix: string, top: nat, m: nat, n: nat)
    ensures IdsAfter(prefix, top, m) + IdsAfter(prefix, top + m, n) == IdsAfter(prefix, top, m + n)
  {
    hide Padded;
    if n == 0 {
      assert IdsAfter(prefix, top, m) + [] == IdsAfter(prefix, top, m);
    } else {
      IdsJoin(prefix, top, m, n - 1);
      IdsNext(prefix, top + m, n - 1);
      IdsNext(prefix, top, m + n - 1);
      hide IdsAfter;
      Associative(IdsAfter(prefix, top, m), IdsAfter(prefix, top + m, n - 1), [prefix + Padded(top + m + n)]);
    }
  }

  lemma HandledBoth(t: Tables, u: Tables, v: Tables, prefix: string, k: nat, l: nat)
    requires SomeHandled(t, u, prefix, k) && SomeHandled(u, v, prefix, l)
    ensures SomeHandled(t, v, prefix, k + l)
  {
    hide Inv, StudentTop, ParentTop, Handled, TablesGrown;
    if StudentTop(t, prefix) + k + l <= 999 {
      TablesGrownMeans(t, u, prefix, u.result.inserted - t.result.inserted);
      TablesGrownBoth(t, u, v, prefix, u.result.inserted - t.result.inserted, v.result.inserted - u.result.inserted);
    }
  }

  // ---------- the transaction ----------

  class Database {
    var students: seq<Student>
    var parents: seq<Parent>
    var result: Result

    function Now(): Tables
      reads this
    {
      Tables(students, parents, result)
    }

    constructor (students: seq<Student>, parents: seq<Parent>)
      ensures Now() == Tables(students, parents, Result(0, 0, 0, 0, 0))
    {
      this.students, this.parents, result := students, parents, Result(0, 0, 0, 0, 0);
    }

    method UpsertParent(e: Entry) returns (id: Option<string>)
      modifies this
      ensures id.None? <==> Upsert(old(Now()), e).None?
      ensures id.Some? ==> Upsert(old(Now()), e) == Some(Upserted(Now(), id.value))
      ensures id.None? ==> Now() == old(Now())
    {
      hide SplitName, NextId, SameEmail, SamePerson, FindPerson, FindEmail, Top, ParentIds;
      if e.parentName == "" && e.parentEmail == "" {
        return Some("");
      }
      var (first, last) := SplitName(e.parentName);
      if e.parentEmail != "" && first != "" {
        var i := FindPerson(parents, first, last, e.parentEmail);
        if i < |parents| {
          var found := parents[i].id;
          parents := parents[i := WithPhone(parents[i], e.parentPhone)];
          result := result.(updated := result.updated + 1);
          return Some(found);
        }
      }
      if e.parentEmail != "" {
        var j := FindEmail(parents, e.parentEmail);
        if j < |parents| {
          var found := parents[j].id;
          var p := parents[j];
          if first != "" {
            p := p.(first := first, last := last);
          }
          parents := parents[j := WithPhone(p, e.parentPhone)];
          result := result.(updated := result.updated + 1);
          return Some(found);
        }
      }
      var newId := NextId(ParentIds(parents), "P");
      if newId in ParentIds(parents) {
        return None;
      }
      parents := parents + [Parent(newId, first, last, e.parentEmail, e.parentPhone)];
      result := result.(created := result.created + 1);
      return Some(newId);
    }

    method InsertEntry(e: Entry, prefix: string) returns (ok: bool)
      modifies this
      ensures ok <==> Insert(old(Now()), e, prefix).Some?
      ensures ok ==> Insert(old(Now()), e, prefix) == Some(Now())
    {
      hide Upsert, NextId;
      UpsertKeeps(Now(), e);
      var id := NextId(StudentIds(students), prefix);
      var parent := UpsertParent(e);
      if parent.None? || id in StudentIds(students) {
        return false;
      }
      students := students + [NewStudent(id, e, parent.value)];
      result := result.(inserted := result.inserted + 1);
      return true;
    }

    /** All or nothing: a failure leaves students and parents as they were. */
    method ExecuteNamelistImport(entries: seq<Entry>, decisions: map<int, string>, prefix: string) returns (ok: bool)
      modifies this
      ensures ok <==> Import(old(students), old(parents), entries, decisions, prefix).Some?
      ensures ok ==> Import(old(students), old(parents), entries, decisions, prefix) == Some(Now())
      ensures !ok ==> students == old(students) && parents == old(parents)
    {
      hide Insert, News, Conflicts, Sames, Live;
      var savedStudents, savedParents := students, parents;
      var existing := Live(students);
      var news, sames, conflicts := PreviewNamelistImport(existing, entries);
      result := Result(0, 0, 0, 0, 0);
      ghost var start := Now();
      ok := InsertNews(news, decisions, prefix);
      if ok {
        ok := ResolveConflicts(conflicts, decisions, prefix);
      }
      if !ok {
        students, parents := savedStudents, savedParents;
        return;
      }
      LinkParents(sames, existing);
    }

    method InsertNews(news: seq<Entry>, decisions: map<int, string>, prefix: string) returns (ok: bool)
      modifies this
      ensures ok <==> RunNews(old(Now()), news, decisions, prefix).Some?
      ensures ok ==> RunNews(old(Now()), news, decisions, prefix) == Some(Now())
    {
      hide Insert;
      ghost var start := Now();
      for i := 0 to |news|
        invariant RunNews(start, news[..i], decisions, prefix) == Some(Now())
      {
        assert news[..i + 1][..i] == news[..i];
        if Action(decisions, news[i].row) == "skip" {
          result := result.(skipped := result.skipped + 1);
        } else {
          var inserted := InsertEntry(news[i], prefix);
          if !inserted {
            NewsStop(start, news, i + 1, decisions, prefix);
            return false;
          }
        }
      }
      assert news[..|news|] == news;
      return true;
    }

    method ResolveConflict(c: Conflict, decisions: map<int, string>, prefix: string) returns (ok: bool)
      modifies this
      ensures ok <==> StepConflict(old(Now()), c, decisions, prefix).Some?
      ensures ok ==> StepConflict(old(Now()), c, decisions, prefix) == Some(Now())
    {
      hide Insert, Upsert, MergeInto;
      var action := Action(decisions, c.entry.row);
      if action == "merge" {
        UpsertKeeps(Now(), c.entry);
        var parent := UpsertParent(c.entry);
        if parent.None? {
          return false;
        }
        students := MergeInto(students, c.student.id, c.entry, parent.value);
        result := result.(merged := result.merged + 1);
      } else if action == "insert" {
        ok := InsertEntry(c.entry, prefix);
        return;
      } else {
        result := result.(skipped := result.skipped + 1);
      }
      return true;
    }

    method ResolveConflicts(conflicts: seq<Conflict>, decisions: map<int, string>, prefix: string) returns (ok: bool)
      modifies this
      ensures ok <==> RunConflicts(old(Now()), conflicts, decisions, prefix).Some?
      ensures ok ==> RunConflicts(old(Now()), conflicts, decisions, prefix) == Some(Now())
    {
      hide StepConflict;
      ghost var start := Now();
      for i := 0 to |conflicts|
        invariant RunConflicts(start, conflicts[..i], decisions, prefix) == Some(Now())
      {
        assert conflicts[..i + 1][..i] == conflicts[..i];
        var resolved := ResolveConflict(conflicts[i], decisions, prefix);
        if !resolved {
          ConflictsStop(start, conflicts, i + 1, decisions, prefix);
          return false;
        }
      }
      assert conflicts[..|conflicts|] == conflicts;
      return true;
    }

    method LinkParents(sames: seq<Entry>, existing: seq<Student>)
      modifies this
      ensures Now() == RunSames(old(Now()), sames, existing)
    {
      hide Upsert, FirstByName, SetParent;
      ghost var start := Now();
      for i := 0 to |sames|
        invariant Now() == RunSames(start, sames[..i], existing)
      {
        var e := sames[i];
        assert sames[..i + 1][..i] == sames[..i];
        if e.parentName != "" || e.parentEmail != "" {
          var s := FirstByName(existing, NameKey(e.first, e.last));
          if s.Some? {
            var parent := UpsertParent(e);
            if parent.Some? && parent.value != "" && s.value.parent != parent.value {
              students := SetParent(students, s.value.id, parent.value);
            }
          }
        }
      }
      assert sames[..|sames|] == sames;
    }
  }

  lemma {:induction false} NewsStop(t: Tables, es: seq<Entry>, n: nat, decisions: map<int, string>, prefix: string)
    requires n <= |es| && RunNews(t, es[..n], decisions, prefix).None?
    ensures RunNews(t, es, decisions, prefix).None?
  {
    if n == |es| {
      assert es[..n] == es;
    } else {
      assert es[..|es| - 1][..n] == es[..n];
      NewsStop(t, es[..|es| - 1], n, decisions, prefix);
    }
  }

  lemma {:induction false} ConflictsStop(t: Tables, cs: seq<Conflict>, n: nat, decisions: map<int, string>,
                                         prefix: string)
    requires n <= |cs| && RunConflicts(t, cs[..n], decisions, prefix).None?
    ensures RunConflicts(t, cs, decisions, prefix).None?
  {
    if n == |cs| {
      assert cs[..n] == cs;
    } else {
      assert cs[..|cs| - 1][..n] == cs[..n];
      ConflictsStop(t, cs[..|cs| - 1], n, decisions, prefix);
    }
  }
}
