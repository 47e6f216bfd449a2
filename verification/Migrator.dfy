/** memos/store/migrator.go: which migration scripts an upgrade runs, and in which order. */
module Migrator {
  import opened Calendar
  import opened Text

  // ---------- versions ----------

  /** A version without pre-release parts, ordered by section 11 of Semantic Versioning 2.0.0. */
  datatype Version = Version(major: nat, minor: nat, patch: nat)

  const ZERO: Version := Version(0, 0, 0)
  const MINIMUM: Version := Version(0, 22, 0)

  predicate Older(v: Version, w: Version) {
    v.major < w.major || (v.major == w.major && (v.minor < w.minor || (v.minor == w.minor && v.patch < w.patch)))
  }

  predicate AtMost(v: Version, w: Version) {
    !Older(w, v)
  }

  lemma VersionOrder(u: Version, v: Version, w: Version)
    ensures Older(u, v) || u == v || Older(v, u)
    ensures !(Older(u, v) && Older(v, u))
    ensures Older(u, v) && Older(v, w) ==> Older(u, w)
  {
  }

  /** A migration script: the version its directory and number name, one patch up; none if the number is
      unreadable. */
  datatype File = File(path: string, version: Option<Version>)

  // ---------- releases ----------

  predicate Sorted(files: seq<File>) {
    forall i, j :: 0 <= i < j < |files| ==> Less(files[i].path, files[j].path)
  }

  predicate Readable(files: seq<File>) {
    forall f <- files :: f.version.Some?
  }

  /** A release's scripts in path order, as its embedded directory lists them. */
  predicate Release(files: seq<File>) {
    Sorted(files) && Readable(files)
  }

  predicate Newest(v: Version, files: seq<File>) {
    && (forall f <- files :: f.version.Some? ==> AtMost(f.version.value, v))
    && (v == ZERO || exists f <- files :: f.version == Some(v))
  }

  /** The newest version among a release's scripts; nothing if some script's version cannot be read. */
  function TargetOf(files: seq<File>): (v: Option<Version>)
    ensures v.None? <==> !Readable(files)
    ensures v.Some? ==> Newest(v.value, files)
  {
    if files == [] then Some(ZERO)
    else
      var n := |files| - 1;
      var before := TargetOf(files[..n]);
      assert files == files[..n] + [files[n]];
      if before.None? || files[n].version.None? then None
      else if Older(before.value, files[n].version.value) then files[n].version
      else before
  }

  /** GetCurrentSchemaVersion: a running maximum. */
  method CurrentSchemaVersion(files: seq<File>) returns (v: Option<Version>)
    ensures v == TargetOf(files)
  {
    var best := ZERO;
    for i := 0 to |files|
      invariant TargetOf(files[..i]) == Some(best)
    {
      assert files[..i + 1][..i] == files[..i];
      if files[i].version.None? {
        assert files[i] in files && !Readable(files);
        return None;
      }
      if Older(best, files[i].version.value) {
        best := files[i].version.value;
      }
    }
    assert files[..|files|] == files;
    return Some(best);
  }

  lemma NewestIsUnique(v: Version, w: Version, files: seq<File>)
    requires Newest(v, files) && Newest(w, files)
    ensures v == w
  {
    VersionOrder(v, w, v);
    assert AtMost(ZERO, v) && AtMost(ZERO, w);
  }

  predicate ShouldApply(f: File, current: Version, target: Version) {
    f.version.Some? && Older(current, f.version.value) && AtMost(f.version.value, target)
  }

  /** The scripts an upgrade from one version to another runs. */
  function Applied(files: seq<File>, current: Version, target: Version): seq<File> {
    if files == [] then []
    else
      var n := |files| - 1;
      Applied(files[..n], current, target) + if ShouldApply(files[n], current, target) then [files[n]] else []
  }

  lemma {:induction false} AppliedMembers(files: seq<File>, current: Version, target: Version)
    ensures forall f :: f in Applied(files, current, target) <==> f in files && ShouldApply(f, current, target)
    ensures Sorted(files) ==> Sorted(Applied(files, current, target))
  {
    hide ShouldApply, Less;
    if files != [] {
      var n := |files| - 1;
      AppliedMembers(files[..n], current, target);
      assert files == files[..n] + [files[n]];
      var front := Applied(files[..n], current, target);
      if Sorted(files) {
        assert Sorted(files[..n]);
        forall i | 0 <= i < |front| ensures Less(front[i].path, files[n].path) {
          assert front[i] in files[..n];
        }
      }
    }
  }

  lemma SortedTail(s: seq<File>)
    requires Sorted(s) && s != []
    ensures Sorted(s[1..])
    ensures forall f <- s[1..] :: f != s[0] && Less(s[0].path, f.path)
  {
    forall f | f in s[1..] ensures f != s[0] && Less(s[0].path, f.path) {
      LessTotal(s[0].path, f.path);
    }
  }

  lemma EmptyTogether(s: seq<File>, t: seq<File>)
    requires forall f :: f in s <==> f in t
    ensures s == [] <==> t == []
  {
    assert s != [] ==> s[0] in s;
    assert t != [] ==> t[0] in t;
  }

  /** A sorted list is known by its members. */
  lemma {:induction false} SortedUnique(s: seq<File>, t: seq<File>)
    requires Sorted(s) && Sorted(t) && forall f :: f in s <==> f in t
    ensures s == t
  {
    EmptyTogether(s, t);
    if s != [] {
      SortedTail(s);
      SortedTail(t);
      assert s[0] in t && t[0] in s;
      LessOrder(s[0].path, t[0].path, s[0].path);
      hide Less, Sorted;
      assert s[0] == t[0];
      assert s == [s[0]] + s[1..] && t == [t[0]] + t[1..];
      assert forall f :: f in s[1..] <==> f in s && f != s[0];
      assert forall f :: f in t[1..] <==> f in t && f != t[0];
      SortedUnique(s[1..], t[1..]);
    }
  }

  lemma SortedConcat(a: seq<File>, b: seq<File>)
    requires Sorted(a) && Sorted(b)
    ensures Sorted(a + b) <==> forall f, g :: f in a && g in b ==> Less(f.path, g.path)
  {
    hide Less;
    if Sorted(a + b) {
      forall f, g | f in a && g in b ensures Less(f.path, g.path) {
        var i :| 0 <= i < |a| && a[i] == f;
        var j :| 0 <= j < |b| && b[j] == g;
        assert (a + b)[i] == f && (a + b)[|a| + j] == g;
      }
    }
  }

  // ---------- upgrades compose ----------

  /** A later release keeps the scripts of an earlier one, and its new ones lie above the earlier target. */
  predicate Extends(old_: seq<File>, new_: seq<File>, oldTarget: Version) {
    && (forall f <- old_ :: f in new_)
    && (forall f <- new_ :: f !in old_ ==> f.version.Some? && Older(oldTarget, f.version.value))
  }

  /** No script above `middle` comes before one at or below it. */
  predicate InStep(files: seq<File>, start: Version, middle: Version, end: Version) {
    forall f, g :: f in files && g in files && ShouldApply(f, start, middle) && ShouldApply(g, middle, end) ==>
      Less(f.path, g.path)
  }

  lemma SplitMembers(f: File, start: Version, middle: Version, end: Version)
    requires AtMost(start, middle) && AtMost(middle, end)
    ensures ShouldApply(f, start, end) <==> ShouldApply(f, start, middle) || ShouldApply(f, middle, end)
    ensures !(ShouldApply(f, start, middle) && ShouldApply(f, middle, end))
  {
  }

  /** Upgrading in two steps runs the same scripts in the same order as in one, exactly when no script
      of the second step comes before one of the first in path order. */
  lemma UpgradesCompose(old_: seq<File>, new_: seq<File>, start: Version, middle: Version, end: Version)
    requires Sorted(old_) && Sorted(new_) && Extends(old_, new_, middle)
    requires AtMost(start, middle) && AtMost(middle, end)
    ensures Applied(old_, start, middle) + Applied(new_, middle, end) == Applied(new_, start, end) <==>
            InStep(new_, start, middle, end)
  {
    var a, b, c := Applied(old_, start, middle), Applied(new_, middle, end), Applied(new_, start, end);
    AppliedMembers(old_, start, middle);
    AppliedMembers(new_, middle, end);
    AppliedMembers(new_, start, end);
    SortedConcat(a, b);
    forall f ensures f in c <==> f in a + b {
      SplitMembers(f, start, middle, end);
      OldEnough(old_, new_, f, start, middle);
    }
    forall f ensures f in a <==> f in new_ && ShouldApply(f, start, middle) {
      OldEnough(old_, new_, f, start, middle);
    }
    hide ShouldApply, Less, Applied, Sorted;
    if Sorted(a + b) {
      SortedUnique(a + b, c);
    }
  }

  lemma OldEnough(old_: seq<File>, new_: seq<File>, f: File, start: Version, middle: Version)
    requires Extends(old_, new_, middle)
    ensures f in old_ && ShouldApply(f, start, middle) <==> f in new_ && ShouldApply(f, start, middle)
  {
  }

  /** Each script runs once. */
  lemma AppliedOnce(files: seq<File>, current: Version, target: Version)
    requires Sorted(files)
    ensures forall i, j :: 0 <= i < j < |Applied(files, current, target)| ==>
              Applied(files, current, target)[i] != Applied(files, current, target)[j]
  {
    AppliedMembers(files, current, target);
    var s := Applied(files, current, target);
    forall i, j | 0 <= i < j < |s| ensures s[i] != s[j] {
      LessTotal(s[i].path, s[i].path);
    }
  }

  // ---------- the database ----------

  /** `version` is none if it is empty or 0.0.0. `ran` logs what was executed and committed. */
  datatype Script = Latest | Migration(file: File)
  datatype Database = Database(initialized: bool, version: Option<Version>, ran: seq<Script>)

  datatype Error = Unreadable | TooOld | Downgrade | Failed

  datatype Outcome = Ok | Err(error: Error)

  function Stored(v: Version): Option<Version> {
    if v == ZERO then None else Some(v)
  }

  function Log(files: seq<File>): seq<Script> {
    if files == [] then [] else Log(files[..|files| - 1]) + [Migration(files[|files| - 1])]
  }

  /** What `Migrate` does to a database, given its release's scripts and those the database would reject. */
  function Migrated(db: Database, files: seq<File>, rejected: set<Script>): (Database, Outcome) {
    var target := TargetOf(files);
    if !db.initialized && Latest in rejected then (db, Err(Failed))
    else if !db.initialized && target.None? then (Database(true, db.version, db.ran + [Latest]), Err(Unreadable))
    else
      var d := if db.initialized then db else Database(true, Stored(target.value), db.ran + [Latest]);
      if d.version.None? || Older(d.version.value, MINIMUM) then (d, Err(TooOld))
      else if target.None? then (d, Err(Unreadable))
      else if Older(target.value, d.version.value) then (d, Err(Downgrade))
      else if !Older(d.version.value, target.value) then (d, Ok)
      else
        var run := Applied(files, d.version.value, target.value);
        if exists f <- run :: Migration(f) in rejected then (d, Err(Failed))
        else (Database(true, Stored(target.value), d.ran + Log(run)), Ok)
  }

  class Store {
    var db: Database

    constructor (db: Database)
      ensures this.db == db
    {
      this.db := db;
    }

    /** Migrate, preMigrate and checkMinimumUpgradeVersion. */
    method Migrate(files: seq<File>, rejected: set<Script>) returns (outcome: Outcome)
      modifies this
      ensures (db, outcome) == Migrated(old(db), files, rejected)
    {
      hide Applied, Newest, Older, TargetOf;
      if !db.initialized {
        if Latest in rejected {
          return Err(Failed);
        }
        db := Database(true, db.version, db.ran + [Latest]);
        var newest := CurrentSchemaVersion(files);
        if newest.None? {
          return Err(Unreadable);
        }
        db := Database(true, Stored(newest.value), db.ran);
      }
      if db.version.None? || Older(db.version.value, MINIMUM) {
        return Err(TooOld);
      }
      var current := CurrentSchemaVersion(files);
      if current.None? {
        return Err(Unreadable);
      }
      if Older(current.value, db.version.value) {
        return Err(Downgrade);
      }
      if Older(db.version.value, current.value) {
        outcome := ApplyMigrations(files, db.version.value, current.value, rejected);
        return;
      }
      return Ok;
    }

    /** Runs the scripts between the two versions in one transaction: one that meets a rejected script
        leaves no trace of the scripts before it. */
    method ApplyMigrations(files: seq<File>, from: Version, target: Version, rejected: set<Script>)
      returns (outcome: Outcome)
      modifies this
      ensures var run := Applied(files, from, target);
              if exists f <- run :: Migration(f) in rejected then outcome == Err(Failed) && db == old(db)
              else outcome == Ok && db == Database(old(db).initialized, Stored(target), old(db).ran + Log(run))
    {
      var ran: seq<Script> := [];
      assert files[..0] == [];
      for i := 0 to |files|
        invariant db == old(db) && ran == Log(Applied(files[..i], from, target))
        invariant forall f <- Applied(files[..i], from, target) :: Migration(f) !in rejected
      {
        NextApplied(files, i, from, target);
        if ShouldApply(files[i], from, target) {
          if Migration(files[i]) in rejected {
            AppliedMembers(files, from, target);
            assert files[i] in Applied(files, from, target);
            return Err(Failed);
          }
          ran := ran + [Migration(files[i])];
        }
      }
      assert files[..|files|] == files;
      db := Database(db.initialized, Stored(target), db.ran + ran);
      return Ok;
    }
  }

  lemma NextApplied(files: seq<File>, i: nat, from: Version, target: Version)
    requires i < |files|
    ensures var front := Applied(files[..i], from, target);
            var next := Applied(files[..i + 1], from, target);
            if ShouldApply(files[i], from, target)
            then next == front + [files[i]] && Log(next) == Log(front) + [Migration(files[i])]
            else next == front
  {
    assert files[..i + 1][..i] == files[..i];
    var front := Applied(files[..i], from, target);
    assert (front + [files[i]])[..|front|] == front;
    hide ShouldApply;
  }

  /** A second `Migrate` of the same release runs nothing and changes nothing. */
  lemma SecondRunsNothing(db: Database, files: seq<File>, rejected: set<Script>)
    requires Migrated(db, files, rejected).1 == Ok
    ensures Migrated(Migrated(db, files, rejected).0, files, rejected) == (Migrated(db, files, rejected).0, Ok)
  {
    VersionOrder(TargetOf(files).value, MINIMUM, ZERO);
    hide Applied, Newest, Log, TargetOf;
  }

  /** After success the database is at the release's version; after a refusal or a failed script it is as
      it was, or freshly initialized. */
  lemma OutcomeDecides(db: Database, files: seq<File>, rejected: set<Script>)
    ensures var (after, outcome) := Migrated(db, files, rejected);
            if outcome == Ok then after.initialized && after.version == TargetOf(files)
            else after == db || (!db.initialized && after.initialized && after.ran == db.ran + [Latest])
  {
    var (after, outcome) := Migrated(db, files, rejected);
    hide Applied, Log, TargetOf, Newest;
    if outcome == Ok {
      VersionOrder(TargetOf(files).value, MINIMUM, ZERO);
      if after.version.Some? {
        VersionOrder(TargetOf(files).value, after.version.value, ZERO);
      }
    }
  }

  /** A database that was ever initialized by a release with an unreadable script can never be migrated. */
  lemma UnreadableIsFinal(db: Database, bad: seq<File>, files: seq<File>, rejected: set<Script>)
    requires !db.initialized && db.version.None? && Migrated(db, bad, rejected).1 == Err(Unreadable)
    ensures Migrated(Migrated(db, bad, rejected).0, files, rejected).1 == Err(TooOld)
  {
    hide Applied, Log, TargetOf, Newest;
  }

  // ---------- chains of upgrades ----------

  datatype Step = Step(files: seq<File>, target: Version)

  /** A history of releases, each extending the one before. */
  predicate History(steps: seq<Step>) {
    steps != [] ==>
      var n := |steps| - 1;
      && History(steps[..n])
      && Release(steps[n].files) && Newest(steps[n].target, steps[n].files)
      && (n > 0 ==> Extends(steps[n - 1].files, steps[n].files, steps[n - 1].target)
                    && AtMost(steps[n - 1].target, steps[n].target))
  }

  /** Path order agrees with version order from a version on. */
  predicate OrdersAgree(files: seq<File>, start: Version) {
    forall f, g :: f in files && g in files && BothAfter(f, g, start) ==> Less(f.path, g.path)
  }

  predicate BothAfter(f: File, g: File, start: Version) {
    && f.version.Some? && g.version.Some?
    && Older(start, f.version.value) && Older(f.version.value, g.version.value)
  }

  /** The scripts run by installing the releases one after the other. */
  function RunAll(steps: seq<Step>, start: Version): seq<File> {
    if steps == [] then []
    else
      var n := |steps| - 1;
      RunAll(steps[..n], start)
      + Applied(steps[n].files, if n == 0 then start else steps[n - 1].target, steps[n].target)
  }

  /** Going through all the releases runs the same scripts in the same order, each once, as going straight
      to the last. */
  lemma {:induction false} ChainsCompose(steps: seq<Step>, start: Version)
    requires History(steps) && steps != [] && AtMost(start, steps[0].target)
    requires OrdersAgree(steps[|steps| - 1].files, start)
    ensures RunAll(steps, start) == Applied(steps[|steps| - 1].files, start, steps[|steps| - 1].target)
    ensures AtMost(start, steps[|steps| - 1].target)
  {
    hide Applied, Newest, Less;
    var n := |steps| - 1;
    if n == 0 {
      assert RunAll(steps[..0], start) == [];
    } else {
      var front, last := steps[..n], steps[n];
      assert front[n - 1] == steps[n - 1] && History(front);
      EarlierAgrees(front[n - 1].files, last.files, start, front[n - 1].target);
      hide History, Extends, OrdersAgree;
      ChainsCompose(front, start);
      ChainStep(steps, start);
    }
  }

  lemma EarlierAgrees(old_: seq<File>, new_: seq<File>, start: Version, target: Version)
    requires Extends(old_, new_, target) && OrdersAgree(new_, start)
    ensures OrdersAgree(old_, start)
  {
    hide Less, Older;
  }

  lemma ChainStep(steps: seq<Step>, start: Version)
    requires History(steps) && |steps| > 1 && OrdersAgree(steps[|steps| - 1].files, start)
    requires AtMost(start, steps[|steps| - 2].target)
    ensures var middle, last := steps[|steps| - 2], steps[|steps| - 1];
            && Applied(middle.files, start, middle.target) + Applied(last.files, middle.target, last.target)
               == Applied(last.files, start, last.target)
            && AtMost(start, last.target)
  {
    var middle, last := steps[|steps| - 2], steps[|steps| - 1];
    assert AtMost(middle.target, last.target);
    VersionOrder(start, middle.target, last.target);
    VersionOrder(last.target, start, middle.target);
    AgreeingIsInStep(last.files, start, middle.target, last.target);
    hide Applied, Newest, Less, Older, InStep;
    UpgradesCompose(middle.files, last.files, start, middle.target, last.target);
  }

  lemma AgreeingIsInStep(files: seq<File>, start: Version, middle: Version, end: Version)
    requires OrdersAgree(files, start)
    ensures InStep(files, start, middle, end)
  {
    forall f, g | f in files && g in files && ShouldApply(f, start, middle) && ShouldApply(g, middle, end)
      ensures Less(f.path, g.path)
    {
      VersionOrder(f.version.value, middle, g.version.value);
      VersionOrder(g.version.value, f.version.value, middle);
      hide Less;
    }
  }

  lemma {:induction false} NothingBetween(files: seq<File>, v: Version)
    ensures Applied(files, v, v) == []
  {
    if files != [] {
      NothingBetween(files[..|files| - 1], v);
    }
  }

  lemma {:induction false} LogConcat(a: seq<File>, b: seq<File>)
    ensures Log(a + b) == Log(a) + Log(b)
  {
    if b == [] {
      assert a + b == a;
    } else {
      assert (a + b)[..|a + b| - 1] == a + b[..|b| - 1];
      LogConcat(a, b[..|b| - 1]);
    }
  }

  /** A database at a version the release can upgrade from ends at the release's. */
  lemma MigrateRuns(files: seq<File>, v: Version, t: Version, ran: seq<Script>)
    requires TargetOf(files) == Some(t) && AtMost(MINIMUM, v) && AtMost(v, t)
    ensures Migrated(Database(true, Some(v), ran), files, {}) ==
            (Database(true, Some(t), ran + Log(Applied(files, v, t))), Ok)
  {
    VersionOrder(v, t, ZERO);
    VersionOrder(MINIMUM, v, t);
    hide TargetOf, Applied;
    if v == t {
      NothingBetween(files, v);
      assert ran + Log([]) == ran;
    } else {
      VersionOrder(v, t, v);
      assert Older(v, t) && !Older(t, v) && t != ZERO;
    }
  }

  function InstallAll(db: Database, steps: seq<Step>): Database {
    if steps == [] then db
    else Migrated(InstallAll(db, steps[..|steps| - 1]), steps[|steps| - 1].files, {}).0
  }

  lemma {:induction false} InstallsRun(db: Database, steps: seq<Step>, start: Version)
    requires History(steps) && steps != [] && AtMost(start, steps[0].target) && AtMost(MINIMUM, start)
    requires db.initialized && db.version == Some(start)
    ensures InstallAll(db, steps) ==
            Database(true, Some(steps[|steps| - 1].target), db.ran + Log(RunAll(steps, start)))
    ensures AtMost(MINIMUM, steps[|steps| - 1].target)
  {
    hide Newest, Extends, Sorted, Readable, Migrated, Applied, Log, InstallAll, RunAll, Older;
    var n := |steps| - 1;
    TargetIs(steps[n]);
    if n == 0 {
      FirstInstall(db, steps, start);
    } else {
      var front := steps[..n];
      assert History(front) && front[n - 1] == steps[n - 1];
      InstallsRun(db, front, start);
      LaterInstall(db, steps, start, InstallAll(db, front), RunAll(front, start));
    }
  }

  lemma LaterInstall(db: Database, steps: seq<Step>, start: Version, before: Database, first: seq<File>)
    requires |steps| > 1 && History(steps) && TargetOf(steps[|steps| - 1].files) == Some(steps[|steps| - 1].target)
    requires before == InstallAll(db, steps[..|steps| - 1]) && first == RunAll(steps[..|steps| - 1], start)
    requires before == Database(true, Some(steps[|steps| - 2].target), db.ran + Log(first))
    requires AtMost(MINIMUM, steps[|steps| - 2].target)
    ensures InstallAll(db, steps) ==
            Database(true, Some(steps[|steps| - 1].target), db.ran + Log(RunAll(steps, start)))
    ensures AtMost(MINIMUM, steps[|steps| - 1].target)
  {
    var last, middle := steps[|steps| - 1], steps[|steps| - 2].target;
    hide *;
    LaterVersions(steps);
    Unfold(db, steps, start);
    MigrateRuns(last.files, middle, last.target, before.ran);
    var second := Applied(last.files, middle, last.target);
    LogConcat(first, second);
    Associative(db.ran, Log(first), Log(second));
  }

  lemma Associative(a: seq<Script>, b: seq<Script>, c: seq<Script>)
    ensures a + b + c == a + (b + c)
  {
  }

  lemma LaterVersions(steps: seq<Step>)
    requires |steps| > 1 && History(steps) && AtMost(MINIMUM, steps[|steps| - 2].target)
    ensures AtMost(steps[|steps| - 2].target, steps[|steps| - 1].target)
    ensures AtMost(MINIMUM, steps[|steps| - 1].target)
  {
    VersionOrder(MINIMUM, steps[|steps| - 2].target, steps[|steps| - 1].target);
    VersionOrder(steps[|steps| - 1].target, MINIMUM, steps[|steps| - 2].target);
    hide Release, Newest, Extends;
  }

  lemma Unfold(db: Database, steps: seq<Step>, start: Version)
    requires |steps| > 1
    ensures InstallAll(db, steps) == Migrated(InstallAll(db, steps[..|steps| - 1]), steps[|steps| - 1].files, {}).0
    ensures RunAll(steps, start) == RunAll(steps[..|steps| - 1], start)
              + Applied(steps[|steps| - 1].files, steps[|steps| - 2].target, steps[|steps| - 1].target)
  {
    hide Migrated, Applied;
  }

  lemma FirstInstall(db: Database, steps: seq<Step>, start: Version)
    requires |steps| == 1 && TargetOf(steps[0].files) == Some(steps[0].target)
    requires AtMost(start, steps[0].target) && AtMost(MINIMUM, start)
    requires db.initialized && db.version == Some(start)
    ensures InstallAll(db, steps) == Database(true, Some(steps[0].target), db.ran + Log(RunAll(steps, start)))
    ensures AtMost(MINIMUM, steps[0].target)
  {
    VersionOrder(MINIMUM, start, steps[0].target);
    VersionOrder(steps[0].target, MINIMUM, start);
    hide Newest, Migrated, TargetOf, Applied, Log;
    assert steps[..0] == [];
    assert RunAll(steps, start) == Applied(steps[0].files, start, steps[0].target);
    MigrateRuns(steps[0].files, start, steps[0].target, db.ran);
  }

  lemma TargetIs(step: Step)
    requires Release(step.files) && Newest(step.target, step.files)
    ensures TargetOf(step.files) == Some(step.target)
  {
    NewestIsUnique(TargetOf(step.files).value, step.target, step.files);
  }

  /** Installing the releases one after the other leaves the database exactly as installing the last one
      straight away: at the same version, with the same scripts run in the same order. */
  lemma InstallsCompose(db: Database, steps: seq<Step>, start: Version)
    requires History(steps) && steps != [] && AtMost(start, steps[0].target) && AtMost(MINIMUM, start)
    requires OrdersAgree(steps[|steps| - 1].files, start)
    requires db.initialized && db.version == Some(start)
    ensures InstallAll(db, steps) == Migrated(db, steps[|steps| - 1].files, {}).0
  {
    var last := steps[|steps| - 1];
    ChainsCompose(steps, start);
    InstallsRun(db, steps, start);
    TargetIs(last);
    hide InstallAll, RunAll, History, OrdersAgree, Newest, Migrated;
    MigrateRuns(last.files, start, last.target, db.ran);
  }

  // ---------- where the orders agree ----------

  function TwoDigits(n: int): string
    requires 0 <= n <= 99
  {
    [Digit(n / 10), Digit(n % 10)]
  }

  /** A script as the repository names them: its number stands for the patch version one higher. */
  function ScriptFile(base: string, minor: int, number: int, rest: string): File
    requires 10 <= minor <= 99 && 0 <= number <= 99
  {
    File(base + "0." + TwoDigits(minor) + "/" + TwoDigits(number) + "__" + rest, Some(Version(0, minor, number + 1)))
  }

  lemma TwoDigitsOrder(m: int, n: int)
    requires 0 <= m < n <= 99
    ensures Less(TwoDigits(m), TwoDigits(n))
  {
    DigitOrder(m / 10, n / 10);
    DigitOrder(m % 10, n % 10);
    hide Digit;
    LessFirst(Digit(m / 10), [Digit(m % 10)], Digit(n / 10), [Digit(n % 10)]);
    LessFirst(Digit(m % 10), [], Digit(n % 10), []);
    assert TwoDigits(m) == [Digit(m / 10)] + [Digit(m % 10)] && TwoDigits(n) == [Digit(n / 10)] + [Digit(n % 10)];
    assert [Digit(m % 10)] + [] == [Digit(m % 10)] && [Digit(n % 10)] + [] == [Digit(n % 10)];
    hide Less;
  }

  lemma {:induction false} EarlyDifference(p: string, q: string, s: string, t: string)
    requires |p| == |q| && Less(p, q)
    ensures Less(p + s, q + t)
  {
    assert (p + s)[1..] == p[1..] + s && (q + t)[1..] == q[1..] + t;
    if p[0] == q[0] {
      EarlyDifference(p[1..], q[1..], s, t);
    }
  }

  /** For minor versions of two digits, as all since 0.10, path order is version order. */
  lemma TwoDigitPathsAgree(base: string, m: int, i: int, s: string, n: int, j: int, t: string)
    requires 10 <= m <= 99 && 0 <= i <= 99 && 10 <= n <= 99 && 0 <= j <= 99
    requires Older(Version(0, m, i + 1), Version(0, n, j + 1))
    ensures Less(ScriptFile(base, m, i, s).path, ScriptFile(base, n, j, t).path)
  {
    var p, q := "/" + TwoDigits(i) + "__" + s, "/" + TwoDigits(j) + "__" + t;
    var b := base + "0.";
    assert ScriptFile(base, m, i, s).path == b + (TwoDigits(m) + p);
    assert ScriptFile(base, n, j, t).path == b + (TwoDigits(n) + q);
    CommonPrefix(b, TwoDigits(m) + p, TwoDigits(n) + q);
    if m < n {
      TwoDigitsOrder(m, n);
      hide Less, TwoDigits;
      EarlyDifference(TwoDigits(m), TwoDigits(n), p, q);
    } else {
      TwoDigitsOrder(i, j);
      hide Less, TwoDigits;
      CommonPrefix(TwoDigits(m), p, q);
      assert p == "/" + (TwoDigits(i) + ("__" + s)) && q == "/" + (TwoDigits(j) + ("__" + t));
      CommonPrefix("/", TwoDigits(i) + ("__" + s), TwoDigits(j) + ("__" + t));
      EarlyDifference(TwoDigits(i), TwoDigits(j), "__" + s, "__" + t);
    }
  }

  /** It is not once minor versions differ in length: 0.2 is older than 0.19 and comes after it. */
  lemma PathsDisagree(base: string, s: string, t: string)
    ensures Older(Version(0, 2, 1), Version(0, 19, 1))
    ensures Less(base + ("0.19/00__" + s), base + ("0.2/00__" + t))
  {
    CommonPrefix(base, "0.19/00__" + s, "0.2/00__" + t);
    assert "0.19/00__" + s == "0." + ("19/00__" + s) && "0.2/00__" + t == "0." + ("2/00__" + t);
    CommonPrefix("0.", "19/00__" + s, "2/00__" + t);
  }
}
