/** internal/datastore/namelist.go: previewing a namelist against the students on file, and importing it
    with the decisions made on the preview. */
module Namelist {
  import opened Calendar
  import opened Text
  import opened NamelistIds

  /** The ten compared fields, the e-mail address first. */
  type Info = s: seq<string> | |s| == 10 witness ["", "", "", "", "", "", "", "", "", ""]

  datatype Entry = Entry(row: int, first: string, last: string, info: Info, parentName: string, parentEmail: string,
                         parentPhone: string)

  datatype Student = Student(id: string, first: string, last: string, info: Info, parent: string, deleted: bool)

  datatype Parent = Parent(id: string, first: string, last: string, email: string, phone: string)

  function NameKey(first: string, last: string): string {
    ToLower(first + " " + last)
  }

  // ---------- preview ----------

  /** The students not deleted, as the query lists them. */
  function Live(students: seq<Student>): seq<Student> {
    if students == [] then []
    else
      var s := students[|students| - 1];
      Live(students[..|students| - 1]) + if s.deleted then [] else [s]
  }

  /** Of several students with a key the last one counts. */
  function ByName(existing: seq<Student>, key: string): Option<Student> {
    if existing == [] then None
    else
      var s := existing[|existing| - 1];
      if NameKey(s.first, s.last) == key then Some(s) else ByName(existing[..|existing| - 1], key)
  }

  function ByEmail(existing: seq<Student>, email: string): Option<Student> {
    if existing == [] then None
    else
      var s := existing[|existing| - 1];
      if s.info[0] != "" && ToLower(s.info[0]) == email then Some(s) else ByEmail(existing[..|existing| - 1], email)
  }

  function Find(e: Entry, existing: seq<Student>): Option<Student> {
    var named := ByName(existing, NameKey(e.first, e.last));
    if named.Some? && NameKey(e.first, e.last) != " " then named
    else if e.info[0] != "" then ByEmail(existing, ToLower(e.info[0]))
    else None
  }

  predicate FieldDiffers(e: Entry, s: Student, k: int)
    requires 0 <= k < 10
  {
    e.info[k] != "" && ToLower(e.info[k]) != ToLower(s.info[k])
  }

  predicate Differs(e: Entry, s: Student) {
    exists k :: 0 <= k < 10 && FieldDiffers(e, s, k)
  }

  datatype Class = New | Same | Conflicting(student: Student)

  function Classify(e: Entry, existing: seq<Student>): Class {
    var s := Find(e, existing);
    if s.None? then New else if Differs(e, s.value) then Conflicting(s.value) else Same
  }

  function News(entries: seq<Entry>, existing: seq<Student>): seq<Entry> {
    if entries == [] then []
    else
      var e := entries[|entries| - 1];
      News(entries[..|entries| - 1], existing) + if Classify(e, existing).New? then [e] else []
  }

  function Sames(entries: seq<Entry>, existing: seq<Student>): seq<Entry> {
    if entries == [] then []
    else
      var e := entries[|entries| - 1];
      Sames(entries[..|entries| - 1], existing) + if Classify(e, existing).Same? then [e] else []
  }

  datatype Conflict = Conflict(entry: Entry, student: Student)

  function Conflicts(entries: seq<Entry>, existing: seq<Student>): seq<Conflict> {
    if entries == [] then []
    else
      var e := entries[|entries| - 1];
      var c := Classify(e, existing);
      Conflicts(entries[..|entries| - 1], existing) + if c.Conflicting? then [Conflict(e, c.student)] else []
  }

  function EntriesOf(cs: seq<Conflict>): seq<Entry> {
    if cs == [] then [] else EntriesOf(cs[..|cs| - 1]) + [cs[|cs| - 1].entry]
  }

  lemma EntriesOfNext(cs: seq<Conflict>, c: Conflict)
    ensures EntriesOf(cs + [c]) == EntriesOf(cs) + [c.entry]
  {
    assert (cs + [c])[..|cs|] == cs;
  }

  /** Every entry is new, the same or in conflict, and only one of them. */
  lemma {:induction false} PreviewPartitions(entries: seq<Entry>, existing: seq<Student>)
    ensures multiset(entries) == multiset(News(entries, existing)) + multiset(Sames(entries, existing))
                                 + multiset(EntriesOf(Conflicts(entries, existing)))
    ensures |entries| == |News(entries, existing)| + |Sames(entries, existing)| + |Conflicts(entries, existing)|
  {
    hide Classify, EntriesOf;
    if entries == [] {
      NoConflicts();
    } else {
      var n := |entries| - 1;
      var front, e := entries[..n], entries[n];
      PreviewPartitions(front, existing);
      var c := Classify(e, existing);
      var a, b, d := News(front, existing), Sames(front, existing), Conflicts(front, existing);
      EntriesOfNext(d, Conflict(e, if c.Conflicting? then c.student else Student("", "", "", e.info, "", false)));
      assert entries == front + [e];
      assert a + [] == a && b + [] == b && d + [] == d;
      assert News(entries, existing) == if c.New? then a + [e] else a;
      assert Sames(entries, existing) == if c.Same? then b + [e] else b;
      assert Conflicts(entries, existing) == if c.Conflicting? then d + [Conflict(e, c.student)] else d;
      hide News, Sames, Conflicts;
      OneMore(front, a, b, EntriesOf(d), e);
    }
  }

  lemma NoConflicts()
    ensures EntriesOf([]) == []
  {
  }

  lemma OneMore(all: seq<Entry>, a: seq<Entry>, b: seq<Entry>, c: seq<Entry>, e: Entry)
    requires multiset(all) == multiset(a) + multiset(b) + multiset(c)
    ensures multiset(all + [e]) == multiset(a + [e]) + multiset(b) + multiset(c)
    ensures multiset(all + [e]) == multiset(a) + multiset(b + [e]) + multiset(c)
    ensures multiset(all + [e]) == multiset(a) + multiset(b) + multiset(c + [e])
  {
  }

  ghost predicate NameIndex(byName: map<string, Student>, existing: seq<Student>) {
    forall key :: ByName(existing, key) == if key in byName then Some(byName[key]) else None
  }

  ghost predicate EmailIndex(byEmail: map<string, Student>, existing: seq<Student>) {
    forall email :: ByEmail(existing, email) == if email in byEmail then Some(byEmail[email]) else None
  }

  lemma NextNamed(existing: seq<Student>, s: Student, key: string)
    ensures ByName(existing + [s], key) == if NameKey(s.first, s.last) == key then Some(s) else ByName(existing, key)
    ensures ByEmail(existing + [s], key) ==
            if s.info[0] != "" && ToLower(s.info[0]) == key then Some(s) else ByEmail(existing, key)
  {
    assert (existing + [s])[..|existing|] == existing;
  }

  /** `computeDifferences`, of which only emptiness is used. */
  method ComputeDifferences(e: Entry, s: Student) returns (diffs: seq<int>)
    ensures diffs != [] <==> Differs(e, s)
  {
    diffs := [];
    for k := 0 to 10
      invariant diffs != [] <==> exists j :: 0 <= j < k && FieldDiffers(e, s, j)
    {
      if e.info[k] != "" && ToLower(e.info[k]) != ToLower(s.info[k]) {
        assert FieldDiffers(e, s, k);
        diffs := diffs + [k];
      }
    }
  }

  method PreviewNamelistImport(existing: seq<Student>, entries: seq<Entry>)
    returns (news: seq<Entry>, sames: seq<Entry>, conflicts: seq<Conflict>)
    ensures news == News(entries, existing) && sames == Sames(entries, existing)
    ensures conflicts == Conflicts(entries, existing)
  {
    hide NameKey, ToLower, Differs, ByName, ByEmail;
    var byName, byEmail := IndexStudents(existing);
    news, sames, conflicts := [], [], [];
    for i := 0 to |entries|
      invariant news == News(entries[..i], existing) && sames == Sames(entries[..i], existing)
      invariant conflicts == Conflicts(entries[..i], existing)
    {
      var e := entries[i];
      assert entries[..i + 1][..i] == entries[..i];
      var nameKey := NameKey(e.first, e.last);
      var found: Option<Student> := None;
      assert ByName(existing, nameKey) == if nameKey in byName then Some(byName[nameKey]) else None;
      assert ByEmail(existing, ToLower(e.info[0])) ==
             if ToLower(e.info[0]) in byEmail then Some(byEmail[ToLower(e.info[0])]) else None;
      if nameKey in byName && nameKey != " " {
        found := Some(byName[nameKey]);
      } else if e.info[0] != "" {
        if ToLower(e.info[0]) in byEmail {
          found := Some(byEmail[ToLower(e.info[0])]);
        }
      }
      assert found == Find(e, existing);
      hide Find, NameIndex, EmailIndex;
      if found.None? {
        news := news + [e];
      } else {
        var diffs := ComputeDifferences(e, found.value);
        if |diffs| == 0 {
          sames := sames + [e];
        } else {
          conflicts := conflicts + [Conflict(e, found.value)];
        }
      }
    }
    assert entries[..|entries|] == entries;
  }

  method IndexStudents(existing: seq<Student>) returns (byName: map<string, Student>, byEmail: map<string, Student>)
    ensures NameIndex(byName, existing) && EmailIndex(byEmail, existing)
  {
    hide NameKey, ToLower;
    byName, byEmail := map[], map[];
    for i := 0 to |existing|
      invariant NameIndex(byName, existing[..i]) && EmailIndex(byEmail, existing[..i])
    {
      var s := existing[i];
      assert existing[..i + 1] == existing[..i] + [s];
      forall key
        ensures ByName(existing[..i] + [s], key) ==
                if NameKey(s.first, s.last) == key then Some(s) else ByName(existing[..i], key)
        ensures ByEmail(existing[..i] + [s], key) ==
                if s.info[0] != "" && ToLower(s.info[0]) == key then Some(s) else ByEmail(existing[..i], key)
      {
        NextNamed(existing[..i], s, key);
      }
      hide ByName, ByEmail;
      byName := byName[NameKey(s.first, s.last) := s];
      if s.info[0] != "" {
        byEmail := byEmail[ToLower(s.info[0]) := s];
      }
    }
    assert existing[..|existing|] == existing;
  }
}
