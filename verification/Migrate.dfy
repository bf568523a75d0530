/** sqlitex.Migrate: applies the pending *.sql files in name order, each in its own transaction together with its
    row in schema_migrations. */
module Migrate {
  import opened Decimal
  import opened Text
  import opened Wrappers

  /** `sql` is the whole script; S is whatever state scripts act on. */
  datatype File = File(name: string, sql: string)

  /** `ran` lists the files whose transaction has committed, oldest first. */
  datatype Db<+S> = Db(schema: S, versions: set<int>, ran: seq<File>)

  /** Runs one script; None when it fails. */
  type Exec<!S> = (S, string) -> Option<S>

  // ----- The file list -----

  /** The number before the first underscore of the name. */
  function ParseVersion(name: string): Option<int> {
    var i := IndexOf(name, '_');
    if i == |name| || i == 0 then None else Atoi(name[..i])
  }

  predicate IsSql(name: string) {
    |name| >= 4 && name[|name| - 4..] == ".sql"
  }

  datatype DirEntry = DirEntry(name: string, isDir: bool, sql: string)

  predicate Selected(e: DirEntry) {
    !e.isDir && IsSql(e.name)
  }

  function SqlFiles(entries: seq<DirEntry>): seq<File> {
    if entries == [] then []
    else
      var before, e := SqlFiles(entries[..|entries| - 1]), entries[|entries| - 1];
      if Selected(e) then before + [File(e.name, e.sql)] else before
  }

  predicate InNameOrder(files: seq<File>) {
    forall i, j :: 0 <= i < j < |files| ==> !Before(files[j].name, files[i].name)
  }

  lemma {:induction false} SqlFilesAre(entries: seq<DirEntry>, f: File)
    ensures f in SqlFiles(entries) <==>
            exists e :: e in entries && !e.isDir && (exists stem: string :: e.name == stem + ".sql") &&
                        f == File(e.name, e.sql)
  {
    if entries != [] {
      var before, e := entries[..|entries| - 1], entries[|entries| - 1];
      assert entries == before + [e];
      SqlFilesAre(before, f);
      SqlSuffix(e.name);
    }
  }

  lemma SqlSuffix(name: string)
    ensures IsSql(name) <==> exists stem: string :: name == stem + ".sql"
  {
    if IsSql(name) { assert name == name[..|name| - 4] + ".sql"; }
  }

  method ListSql(entries: seq<DirEntry>) returns (files: seq<File>)
    ensures InNameOrder(files) && multiset(files) == multiset(SqlFiles(entries))
  {
    files := [];
    for i := 0 to |entries|
      invariant InNameOrder(files) && multiset(files) == multiset(SqlFiles(entries[..i]))
    {
      assert entries[..i + 1][..i] == entries[..i];
      var e := entries[i];
      if e.isDir {
        continue;
      }
      if !IsSql(e.name) {
        continue;
      }
      files := InsertByName(files, File(e.name, e.sql));
    }
    assert entries[..|entries|] == entries;
  }

  method InsertByName(files: seq<File>, f: File) returns (r: seq<File>)
    requires InNameOrder(files)
    ensures InNameOrder(r) && multiset(r) == multiset(files) + multiset{f}
  {
    var n := 0;
    while n < |files| && !Before(f.name, files[n].name)
      invariant n <= |files|
      invariant forall i :: 0 <= i < n ==> !Before(f.name, files[i].name)
    {
      n := n + 1;
    }
    InsertedInOrder(files, f, n);
    assert files == files[..n] + files[n..];
    r := files[..n] + [f] + files[n..];
  }

  lemma InsertedInOrder(files: seq<File>, f: File, n: nat)
    requires InNameOrder(files) && n <= |files|
    requires forall i :: 0 <= i < n ==> !Before(f.name, files[i].name)
    requires n < |files| ==> Before(f.name, files[n].name)
    ensures InNameOrder(files[..n] + [f] + files[n..])
  {
    forall j | n <= j < |files| ensures !Before(files[j].name, f.name) {
      NotBeforeTransitive(files, f, n, j);
    }
    var r := files[..n] + [f] + files[n..];
    assert forall j :: 0 <= j < n ==> r[j] == files[j];
    assert r[n] == f && forall j :: n < j < |r| ==> r[j] == files[j - 1];
  }

  lemma NotBeforeTransitive(files: seq<File>, f: File, n: nat, j: nat)
    requires InNameOrder(files) && n <= j < |files| && Before(f.name, files[n].name)
    ensures !Before(files[j].name, f.name)
  {
    if Before(files[j].name, f.name) {
      BeforeTransitive(files[j].name, f.name, files[n].name);
      BeforeTotal(files[j].name, files[j].name);
    }
  }

  // ----- Name order and version order -----

  /** A number of the given width, then an underscore. */
  predicate Padded(name: string, width: nat) {
    0 < width < |name| && AllDigits(name[..width]) && name[width] == '_' && Value(name[..width]) <= MAX_INT64
  }

  lemma PaddedParses(name: string, width: nat)
    requires Padded(name, width)
    ensures ParseVersion(name) == Some(Value(name[..width]))
  {
    assert forall i :: 0 <= i < width ==> IsDigit(name[..width][i]);
    FirstIndex(name, '_', width);
    AtoiUnsigned(name[..width]);
  }

  /** A name has a version exactly when a number stands before its first underscore. */
  lemma ParseVersionExact(name: string, v: int)
    ensures ParseVersion(name) == Some(v) <==>
            exists d: string, rest: string :: name == d + ['_'] + rest && d != "" && '_' !in d && Atoi(d) == Some(v)
  {
    if ParseVersion(name) == Some(v) {
      var i := IndexOf(name, '_');
      var d, rest := name[..i], name[i + 1..];
      assert name == d + ['_'] + rest;
      assert d != "" && '_' !in d && Atoi(d) == Some(v);
    }
    if d: string, rest: string :| name == d + ['_'] + rest && d != "" && '_' !in d && Atoi(d) == Some(v) {
      VersionOfParts(d, rest);
    }
  }

  lemma VersionOfParts(d: string, rest: string)
    requires d != "" && '_' !in d
    ensures ParseVersion(d + ['_'] + rest) == Atoi(d)
  {
    var name := d + ['_'] + rest;
    assert name[..|d|] == d && name[|d|] == '_';
    FirstIndex(name, '_', |d|);
  }

  lemma PrefixOrder(s: string, t: string, width: nat)
    requires width <= |s| && width <= |t| && Before(s[..width], t[..width])
    ensures Before(s, t)
  {
    BeforeExtends(s[..width], t[..width], s[width..], t[width..]);
    assert s == s[..width] + s[width..] && t == t[..width] + t[width..];
  }

  lemma PaddedOrder(s: string, t: string, width: nat)
    requires Padded(s, width) && Padded(t, width) && !Before(t, s)
    ensures Value(s[..width]) <= Value(t[..width])
  {
    WidthOrder(t[..width], s[..width]);
    if Before(t[..width], s[..width]) { PrefixOrder(t, s, width); }
  }

  /** The files are applied in name order; that is version order when the numbers are padded to one width. */
  lemma VersionsAscend(files: seq<File>, width: nat, i: nat, j: nat)
    requires InNameOrder(files) && i < j < |files|
    requires Padded(files[i].name, width) && Padded(files[j].name, width)
    ensures var (v, w) := (ParseVersion(files[i].name), ParseVersion(files[j].name));
            v.Some? && w.Some? && v.value <= w.value
  {
    PaddedParses(files[i].name, width);
    PaddedParses(files[j].name, width);
    PaddedOrder(files[i].name, files[j].name, width);
  }

  /** Any 64-bit number printed in front of the underscore is the version, even a negative one. */
  lemma PrintedParses(v: Int64, rest: string)
    ensures ParseVersion(Itoa(v) + ['_'] + rest) == Some(v)
  {
    var number := Itoa(v);
    var name := number + ['_'] + rest;
    assert name[..|number|] == number;
    FirstIndex(name, '_', |number|);
    AtoiItoa(v);
  }

  lemma NumberedName(n: nat, x: string, k: nat)
    requires k <= |Digits(n)|
    ensures var name := Digits(n) + ['_'] + x;
            name[..k] == Digits(n)[..k] && name[k] == if k == |Digits(n)| then '_' else Digits(n)[k]
  {
  }

  lemma FirstDifference(s: string, t: string, k: nat)
    requires k < |s| && k < |t| && s[..k] == t[..k] && s[k] < t[k]
    ensures Before(s, t)
  {
    BeforeAfterPrefix(s[..k], s[k], t[k]);
    assert s[..k + 1] == s[..k] + [s[k]] && t[..k + 1] == t[..k] + [t[k]];
    PrefixOrder(s, t, k + 1);
  }

  lemma {:induction false} MoreDigits(a: nat, b: nat)
    requires a <= b
    ensures |Digits(a)| <= |Digits(b)|
  {
    if a >= 10 { MoreDigits(a / 10, b / 10); }
  }

  /** Printed without padding, of two numbers the smaller comes first exactly when the larger has as many digits or
      begins with more than the smaller: 2 before 30, but 10 before 2. */
  lemma NameOrderExact(a: nat, b: nat, x: string, y: string)
    requires a < b
    ensures |Digits(a)| <= |Digits(b)|
    ensures Before(Digits(a) + ['_'] + x, Digits(b) + ['_'] + y) <==>
            |Digits(a)| == |Digits(b)| || a < Value(Digits(b)[..|Digits(a)|])
  {
    MoreDigits(a, b);
    var w, s, t := |Digits(a)|, Digits(a) + ['_'] + x, Digits(b) + ['_'] + y;
    var head := Digits(b)[..w];
    NumberedName(a, x, w);
    NumberedName(b, y, w);
    ValueOfDigits(a);
    ValueOfDigits(b);
    assert Digits(a)[..w] == Digits(a) && (w == |Digits(b)| ==> head == Digits(b));
    WidthOrder(Digits(a), head);
    WidthOrder(head, Digits(a));
    if a < Value(head) {
      PrefixOrder(s, t, w);
    } else {
      if Value(head) < a { PrefixOrder(t, s, w); } else { FirstDifference(t, s, w); }
      BeforeTotal(s, t);
    }
  }

  // ----- One run -----

  const STEPS_BEFORE: nat := 3   // create schema_migrations, list the files, load the applied versions
  const STEPS_PER_FILE: nat := 5 // read, begin, run the script, record the version, commit

  /** Both or neither: the version column is a primary key, so a version already there fails the record. */
  function ApplyOne<S>(exec: Exec<S>, db: Db<S>, f: File, version: int): Option<Db<S>> {
    var schema := exec(db.schema, f.sql);
    if schema.None? || version in db.versions then None
    else Some(Db(schema.value, db.versions + {version}, db.ran + [f]))
  }

  predicate Enough(budget: Option<nat>, steps: nat) {
    budget.None? || budget.value >= steps
  }

  function Spend(budget: Option<nat>, steps: nat): Option<nat>
    requires Enough(budget, steps)
  {
    if budget.None? then None else Some(budget.value - steps)
  }

  /** The loop over the files; `applied` was loaded when the run began. The budget is the number of steps the
      storage survives, None when it never fails. */
  function RunFiles<S>(exec: Exec<S>, db: Db<S>, files: seq<File>, applied: set<int>,
      budget: Option<nat>): (Db<S>, bool)
    decreases |files|
  {
    if files == [] then (db, true)
    else
      var version := ParseVersion(files[0].name);
      if version.None? then (db, false)
      else if version.value in applied then RunFiles(exec, db, files[1..], applied, budget)
      else if !Enough(budget, STEPS_PER_FILE) then (db, false)
      else
        var next := ApplyOne(exec, db, files[0], version.value);
        if next.None? then (db, false)
        else RunFiles(exec, next.value, files[1..], applied, Spend(budget, STEPS_PER_FILE))
  }

  function Run<S>(exec: Exec<S>, db: Db<S>, files: seq<File>, budget: Option<nat>): (Db<S>, bool) {
    if !Enough(budget, STEPS_BEFORE) then (db, false)
    else RunFiles(exec, db, files, db.versions, Spend(budget, STEPS_BEFORE))
  }

  class Database<S> {
    var db: Db<S>
    var budget: Option<nat>
    const exec: Exec<S>

    constructor (db: Db<S>, budget: Option<nat>, exec: Exec<S>)
      ensures this.db == db && this.budget == budget && this.exec == exec
    {
      this.db, this.budget, this.exec := db, budget, exec;
    }

    method Steps(n: nat) returns (ok: bool)
      modifies this`budget
      ensures ok <==> Enough(old(budget), n)
      ensures ok ==> budget == Spend(old(budget), n)
    {
      ok := Enough(budget, n);
      if ok {
        budget := Spend(budget, n);
      }
    }

    method Migrate(files: seq<File>) returns (ok: bool)
      modifies this
      ensures (db, ok) == Run(exec, old(db), files, old(budget))
    {
      ok := Steps(STEPS_BEFORE);
      if !ok {
        return;
      }
      var applied := db.versions;
      for i := 0 to |files|
        invariant Run(exec, old(db), files, old(budget)) == RunFiles(exec, db, files[i..], applied, budget)
      {
        assert files[i..][0] == files[i] && files[i..][1..] == files[i + 1..];
        var version := ParseVersion(files[i].name);
        if version.None? {
          return false;
        }
        if version.value in applied {
          continue;
        }
        ok := ApplyOneTx(files[i], version.value);
        if !ok {
          return;
        }
      }
      assert files[|files|..] == [];
      return true;
    }

    /** Any failure rolls the script and its record back. */
    method ApplyOneTx(f: File, version: int) returns (ok: bool)
      modifies this
      ensures ok <==> Enough(old(budget), STEPS_PER_FILE) && ApplyOne(exec, old(db), f, version).Some?
      ensures ok ==> ApplyOne(exec, old(db), f, version) == Some(db) && budget == Spend(old(budget), STEPS_PER_FILE)
      ensures !ok ==> db == old(db)
    {
      ok := Steps(STEPS_PER_FILE);
      if !ok {
        return;
      }
      var saved := db;
      var schema := exec(db.schema, f.sql);
      if schema.None? {
        return false;
      }
      db := db.(schema := schema.value);
      if version in db.versions {
        db := saved;
        return false;
      }
      db := Db(db.schema, db.versions + {version}, db.ran + [f]);
      return true;
    }
  }

  // ----- What a run leaves behind -----

  /** The files whose version is not applied, in list order. */
  function Pending(files: seq<File>, applied: set<int>): seq<File> {
    if files == [] then []
    else
      var version, rest := ParseVersion(files[0].name), Pending(files[1..], applied);
      if version.None? || version.value in applied then rest else [files[0]] + rest
  }

  /** The first pending file of each version, in list order. */
  function Firsts(files: seq<File>, applied: set<int>): seq<File>
    decreases |files|
  {
    if files == [] then []
    else
      var version := ParseVersion(files[0].name);
      if version.None? || version.value in applied then Firsts(files[1..], applied)
      else [files[0]] + Firsts(files[1..], applied + {version.value})
  }

  /** No two files parse to the same version. */
  ghost predicate DistinctVersions(files: seq<File>) {
    forall i, j :: 0 <= i < j < |files| && ParseVersion(files[i].name).Some? ==>
      ParseVersion(files[i].name) != ParseVersion(files[j].name)
  }

  predicate AllParse(files: seq<File>) {
    forall i :: 0 <= i < |files| ==> ParseVersion(files[i].name).Some?
  }

  function VersionsOf(files: seq<File>): set<int> {
    if files == [] then {}
    else
      var version := ParseVersion(files[0].name);
      VersionsOf(files[1..]) + (if version.Some? then {version.value} else {})
  }

  /** Executing these scripts one after the other, each exactly once; None when one of them fails. */
  function ApplyAll<S>(exec: Exec<S>, db: Db<S>, files: seq<File>): Option<Db<S>>
    decreases |files|
  {
    if files == [] then Some(db)
    else
      var version := ParseVersion(files[0].name);
      if version.None? then None
      else
        var next := ApplyOne(exec, db, files[0], version.value);
        if next.None? then None else ApplyAll(exec, next.value, files[1..])
  }

  /** The record of executed scripts grows by exactly these, in order. */
  lemma {:induction false} ApplyAllRan<S>(exec: Exec<S>, db: Db<S>, files: seq<File>)
    requires ApplyAll(exec, db, files).Some?
    ensures ApplyAll(exec, db, files).value.ran == db.ran + files
    decreases |files|
  {
    if files != [] {
      ApplyAllRan(exec, ApplyOne(exec, db, files[0], ParseVersion(files[0].name).value).value, files[1..]);
      MoveHead(db.ran, files);
    }
  }

  lemma MoveHead<T>(done: seq<T>, todo: seq<T>)
    requires todo != []
    ensures done + [todo[0]] + todo[1..] == done + todo
  {
  }

  /** The recorded versions grow by exactly theirs. */
  lemma {:induction false} ApplyAllVersions<S>(exec: Exec<S>, db: Db<S>, files: seq<File>)
    requires ApplyAll(exec, db, files).Some?
    ensures ApplyAll(exec, db, files).value.versions == db.versions + VersionsOf(files)
    decreases |files|
  {
    if files != [] {
      ApplyAllVersions(exec, ApplyOne(exec, db, files[0], ParseVersion(files[0].name).value).value, files[1..]);
    }
  }

  /** The scripts executed one after the other on the schema alone, with no record kept. */
  function RunScripts<S>(exec: Exec<S>, schema: S, scripts: seq<string>): Option<S>
    decreases |scripts|
  {
    if scripts == [] then Some(schema)
    else
      var next := exec(schema, scripts[0]);
      if next.None? then None else RunScripts(exec, next.value, scripts[1..])
  }

  function Scripts(files: seq<File>): seq<string> {
    if files == [] then [] else [files[0].sql] + Scripts(files[1..])
  }

  lemma NextScript<S>(exec: Exec<S>, schema: S, sql: string, rest: seq<string>)
    requires exec(schema, sql).Some?
    ensures RunScripts(exec, schema, [sql] + rest) == RunScripts(exec, exec(schema, sql).value, rest)
  {
    assert ([sql] + rest)[1..] == rest;
  }

  /** The schema is what these scripts make of it. */
  lemma {:induction false} ApplyAllSchema<S>(exec: Exec<S>, db: Db<S>, files: seq<File>)
    requires ApplyAll(exec, db, files).Some?
    ensures RunScripts(exec, db.schema, Scripts(files)) == Some(ApplyAll(exec, db, files).value.schema)
    decreases |files|
  {
    if files != [] {
      var next := ApplyOne(exec, db, files[0], ParseVersion(files[0].name).value).value;
      ApplyAllSchema(exec, next, files[1..]);
      NextScript(exec, db.schema, files[0].sql, Scripts(files[1..]));
    }
  }

  lemma {:induction false} ApplyAllSplit<S>(exec: Exec<S>, db: Db<S>, done: seq<File>, left: seq<File>)
    requires ApplyAll(exec, db, done).Some?
    ensures ApplyAll(exec, db, done + left) == ApplyAll(exec, ApplyAll(exec, db, done).value, left)
    decreases |done|
  {
    if done == [] {
      assert done + left == left;
    } else {
      ApplyAllSplit(exec, ApplyOne(exec, db, done[0], ParseVersion(done[0].name).value).value, done[1..], left);
      TailOfSum(done, left);
    }
  }

  lemma Cons<S>(exec: Exec<S>, db: Db<S>, f: File, rest: seq<File>)
    requires ParseVersion(f.name).Some? && ApplyOne(exec, db, f, ParseVersion(f.name).value).Some?
    ensures ApplyAll(exec, db, [f] + rest)
         == ApplyAll(exec, ApplyOne(exec, db, f, ParseVersion(f.name).value).value, rest)
  {
    assert ([f] + rest)[1..] == rest;
  }

  lemma OneMoreFirst(files: seq<File>, applied: set<int>, version: int, done: seq<File>, left: seq<File>)
    requires files != [] && ParseVersion(files[0].name) == Some(version) && version !in applied
    requires Firsts(files[1..], applied + {version}) == done + left
    ensures Firsts(files, applied) == [files[0]] + done + left
  {
    Associates([files[0]], done, left);
  }

  lemma Associates<T>(x: seq<T>, y: seq<T>, z: seq<T>)
    ensures x + (y + z) == x + y + z
  {
  }

  lemma OneMoreRuns<S>(exec: Exec<S>, db: Db<S>, files: seq<File>, applied: set<int>, budget: Option<nat>, next: Db<S>)
    requires files != [] && ParseVersion(files[0].name).Some? && ParseVersion(files[0].name).value !in applied
    requires Enough(budget, STEPS_PER_FILE)
    requires ApplyOne(exec, db, files[0], ParseVersion(files[0].name).value) == Some(next)
    ensures RunFiles(exec, db, files, applied, budget)
         == RunFiles(exec, next, files[1..], applied, Spend(budget, STEPS_PER_FILE))
  {
  }

  /** Stopped anywhere, the loop has applied some first part of the first files; a successful one, all. It tests the
      versions loaded at the start, a record the versions there are now. */
  lemma {:induction false} RunFilesApplyPrefix<S>(exec: Exec<S>, db: Db<S>, files: seq<File>, applied: set<int>,
      budget: Option<nat>)
    returns (done: seq<File>, left: seq<File>)
    requires applied <= db.versions
    ensures Firsts(files, db.versions) == done + left
    ensures ApplyAll(exec, db, done) == Some(RunFiles(exec, db, files, applied, budget).0)
    ensures RunFiles(exec, db, files, applied, budget).1 ==> left == []
    decreases |files|
  {
    done, left := [], Firsts(files, db.versions);
    if files != [] && ParseVersion(files[0].name).Some? {
      var version := ParseVersion(files[0].name).value;
      if version in applied {
        done, left := RunFilesApplyPrefix(exec, db, files[1..], applied, budget);
      } else if Enough(budget, STEPS_PER_FILE) && ApplyOne(exec, db, files[0], version).Some? {
        var next := ApplyOne(exec, db, files[0], version).value;
        done, left := RunFilesApplyPrefix(exec, next, files[1..], applied, Spend(budget, STEPS_PER_FILE));
        OneMoreRuns(exec, db, files, applied, budget, next);
        OneMoreFirst(files, db.versions, version, done, left);
        Cons(exec, db, files[0], done);
        done := [files[0]] + done;
      }
    }
  }

  /** Every run, failed or not, leaves a first part of the first files applied, in order, and nothing else. */
  lemma RunAppliesPrefix<S>(exec: Exec<S>, db: Db<S>, files: seq<File>, budget: Option<nat>)
    returns (done: seq<File>, left: seq<File>)
    ensures Firsts(files, db.versions) == done + left
    ensures var (db', ok) := Run(exec, db, files, budget);
            && ApplyAll(exec, db, done) == Some(db')
            && db'.ran == db.ran + done
            && db'.versions == db.versions + VersionsOf(done)
            && RunScripts(exec, db.schema, Scripts(done)) == Some(db'.schema)
            && (ok ==> left == [])
  {
    if Enough(budget, STEPS_BEFORE) {
      done, left := RunFilesApplyPrefix(exec, db, files, db.versions, Spend(budget, STEPS_BEFORE));
    } else {
      done, left := [], Firsts(files, db.versions);
    }
    ApplyAllRan(exec, db, done);
    ApplyAllVersions(exec, db, done);
    ApplyAllSchema(exec, db, done);
  }

  // ----- Restarting -----

  /** Applying a first part of the first files leaves exactly the rest of them. */
  lemma {:induction false} FirstsAfterPrefix(files: seq<File>, applied: set<int>, done: seq<File>, left: seq<File>)
    requires Firsts(files, applied) == done + left
    ensures Firsts(files, applied + VersionsOf(done)) == left
    decreases |files|
  {
    if done == [] {
      assert applied + VersionsOf(done) == applied && done + left == left;
    } else {
      var version := ParseVersion(files[0].name);
      if version.None? || version.value in applied {
        FirstsAfterPrefix(files[1..], applied, done, left);
      } else {
        TailOfSum(done, left);
        FirstsAfterPrefix(files[1..], applied + {version.value}, done[1..], left);
        assert applied + VersionsOf(done) == applied + {version.value} + VersionsOf(done[1..]);
      }
    }
  }

  /** One run after another, each with its own point of failure. */
  function RunAll<S>(exec: Exec<S>, db: Db<S>, files: seq<File>, budgets: seq<Option<nat>>): Db<S>
    decreases |budgets|
  {
    if budgets == [] then db else RunAll(exec, Run(exec, db, files, budgets[0]).0, files, budgets[1..])
  }

  lemma OneRunLeavesRest<S>(exec: Exec<S>, db: Db<S>, files: seq<File>, budget: Option<nat>, mid: Db<S>)
    returns (done: seq<File>, left: seq<File>)
    requires mid == Run(exec, db, files, budget).0
    ensures Firsts(files, db.versions) == done + left && Firsts(files, mid.versions) == left
    ensures ApplyAll(exec, db, done) == Some(mid)
  {
    done, left := RunAppliesPrefix(exec, db, files, budget);
    FirstsAfterPrefix(files, db.versions, done, left);
  }

  /** However often the program is stopped and restarted, the first files are applied in order without a gap. */
  lemma {:induction false} RunAllAppliesPrefix<S>(exec: Exec<S>, db: Db<S>, files: seq<File>,
      budgets: seq<Option<nat>>)
    returns (done: seq<File>, left: seq<File>)
    ensures Firsts(files, db.versions) == done + left
    ensures Firsts(files, RunAll(exec, db, files, budgets).versions) == left
    ensures ApplyAll(exec, db, done) == Some(RunAll(exec, db, files, budgets))
    decreases |budgets|
  {
    if budgets == [] {
      done, left := [], Firsts(files, db.versions);
    } else {
      var mid := Run(exec, db, files, budgets[0]).0;
      var final := RunAll(exec, mid, files, budgets[1..]);
      assert RunAll(exec, db, files, budgets) == final;
      var first, rest := OneRunLeavesRest(exec, db, files, budgets[0], mid);
      done, left := RunAllAppliesPrefix(exec, mid, files, budgets[1..]);
      ApplyAllSplit(exec, db, first, done);
      Associates(first, done, left);
      done := first + done;
    }
  }

  /** What is left behind by any number of runs. */
  lemma RunAllEffects<S>(exec: Exec<S>, db: Db<S>, files: seq<File>, budgets: seq<Option<nat>>)
    returns (done: seq<File>, left: seq<File>)
    ensures Firsts(files, db.versions) == done + left
    ensures var db' := RunAll(exec, db, files, budgets);
            && db'.ran == db.ran + done
            && db'.versions == db.versions + VersionsOf(done)
            && RunScripts(exec, db.schema, Scripts(done)) == Some(db'.schema)
  {
    done, left := RunAllAppliesPrefix(exec, db, files, budgets);
    ApplyAllRan(exec, db, done);
    ApplyAllVersions(exec, db, done);
    ApplyAllSchema(exec, db, done);
  }

  lemma {:induction false} SuccessParses<S>(exec: Exec<S>, db: Db<S>, files: seq<File>, applied: set<int>,
      budget: Option<nat>)
    requires RunFiles(exec, db, files, applied, budget).1
    ensures AllParse(files)
    decreases |files|
  {
    if files != [] {
      var version := ParseVersion(files[0].name).value;
      if version in applied {
        SuccessParses(exec, db, files[1..], applied, budget);
      } else {
        var next := ApplyOne(exec, db, files[0], version).value;
        SuccessParses(exec, next, files[1..], applied, Spend(budget, STEPS_PER_FILE));
      }
      AllParseHead(files);
    }
  }

  lemma AllParseHead(files: seq<File>)
    requires files != [] && ParseVersion(files[0].name).Some? && AllParse(files[1..])
    ensures AllParse(files)
  {
    assert forall i :: 1 <= i < |files| ==> files[i] == files[1..][i - 1];
  }

  lemma AllApplied<S>(exec: Exec<S>, db: Db<S>, files: seq<File>, budgets: seq<Option<nat>>, last: Option<nat>)
    requires Run(exec, RunAll(exec, db, files, budgets), files, last).1
    ensures ApplyAll(exec, db, Firsts(files, db.versions))
         == Some(Run(exec, RunAll(exec, db, files, budgets), files, last).0)
  {
    var done, left := RunAllAppliesPrefix(exec, db, files, budgets);
    var rest, none := RunAppliesPrefix(exec, RunAll(exec, db, files, budgets), files, last);
    assert rest + none == rest;
    ApplyAllSplit(exec, db, done, left);
  }

  // ----- First files and pending files -----

  lemma DistinctHead(f: File, rest: seq<File>)
    requires ParseVersion(f.name).Some?
    ensures DistinctVersions([f] + rest) <==>
            DistinctVersions(rest) && NoneOf(rest, ParseVersion(f.name).value)
  {
    var files := [f] + rest;
    assert files[0] == f && forall i :: 0 <= i < |rest| ==> files[i + 1] == rest[i];
    assert forall i :: 0 <= i < |rest| ==> rest[i] in rest;
  }

  predicate NoneOf(files: seq<File>, version: int) {
    forall f :: f in files ==> ParseVersion(f.name) != Some(version)
  }

  lemma {:induction false} OtherVersion(files: seq<File>, applied: set<int>, version: int)
    requires NoneOf(Pending(files, applied), version)
    ensures Pending(files, applied + {version}) == Pending(files, applied)
    decreases |files|
  {
    if files != [] {
      var v := ParseVersion(files[0].name);
      if v.Some? && v.value !in applied { assert files[0] in Pending(files, applied); }
      OtherVersion(files[1..], applied, version);
    }
  }

  /** With distinct pending versions every pending file is the first of its version. */
  lemma {:induction false} AllAreFirsts(files: seq<File>, applied: set<int>)
    requires DistinctVersions(Pending(files, applied))
    ensures Firsts(files, applied) == Pending(files, applied)
    decreases |files|
  {
    if files != [] {
      var version, rest := ParseVersion(files[0].name), Pending(files[1..], applied);
      if version.None? || version.value in applied {
        AllAreFirsts(files[1..], applied);
      } else {
        DistinctHead(files[0], rest);
        OtherVersion(files[1..], applied, version.value);
        AllAreFirsts(files[1..], applied + {version.value});
      }
    }
  }

  predicate NoneApplied(files: seq<File>, applied: set<int>) {
    forall f :: f in files ==> ParseVersion(f.name).Some? && ParseVersion(f.name).value !in applied
  }

  /** First files never share a version. */
  lemma {:induction false} FirstsAreDistinct(files: seq<File>, applied: set<int>)
    ensures DistinctVersions(Firsts(files, applied)) && NoneApplied(Firsts(files, applied), applied)
    decreases |files|
  {
    if files != [] {
      var version := ParseVersion(files[0].name);
      if version.None? || version.value in applied {
        FirstsAreDistinct(files[1..], applied);
      } else {
        FirstsAreDistinct(files[1..], applied + {version.value});
        DistinctHead(files[0], Firsts(files[1..], applied + {version.value}));
      }
    }
  }

  /** All pending files are first ones exactly when no two have one version. */
  lemma FirstsIffDistinct(files: seq<File>, applied: set<int>)
    ensures Firsts(files, applied) == Pending(files, applied) <==> DistinctVersions(Pending(files, applied))
  {
    FirstsAreDistinct(files, applied);
    if DistinctVersions(Pending(files, applied)) { AllAreFirsts(files, applied); }
  }

  lemma {:induction false} UninterruptedSucceeds<S>(exec: Exec<S>, db: Db<S>, files: seq<File>, applied: set<int>)
    requires AllParse(files) && ApplyAll(exec, db, Pending(files, applied)).Some?
    ensures RunFiles(exec, db, files, applied, None) == (ApplyAll(exec, db, Pending(files, applied)).value, true)
    decreases |files|
  {
    if files != [] {
      var version := ParseVersion(files[0].name).value;
      if version in applied {
        UninterruptedSucceeds(exec, db, files[1..], applied);
      } else {
        assert Pending(files, applied)[1..] == Pending(files[1..], applied);
        UninterruptedSucceeds(exec, ApplyOne(exec, db, files[0], version).value, files[1..], applied);
      }
    }
  }

  /** Any number of runs stopped at arbitrary points, then one that succeeds: of each version the first pending file
      has been executed, exactly once and in list order, and no other. That is every pending file exactly when the
      pending versions are distinct. */
  lemma RestartsConverge<S>(exec: Exec<S>, db: Db<S>, files: seq<File>, budgets: seq<Option<nat>>, last: Option<nat>)
    requires Run(exec, RunAll(exec, db, files, budgets), files, last).1
    ensures var final := Run(exec, RunAll(exec, db, files, budgets), files, last).0;
            && ApplyAll(exec, db, Firsts(files, db.versions)) == Some(final)
            && final.ran == db.ran + Firsts(files, db.versions)
            && final.versions == db.versions + VersionsOf(Firsts(files, db.versions))
            && RunScripts(exec, db.schema, Scripts(Firsts(files, db.versions))) == Some(final.schema)
            && (final.ran == db.ran + Pending(files, db.versions) <==> DistinctVersions(Pending(files, db.versions)))
  {
    AllApplied(exec, db, files, budgets, last);
    ApplyAllRan(exec, db, Firsts(files, db.versions));
    ApplyAllVersions(exec, db, Firsts(files, db.versions));
    ApplyAllSchema(exec, db, Firsts(files, db.versions));
    FirstsIffDistinct(files, db.versions);
    SamePrefix(db.ran, Firsts(files, db.versions), Pending(files, db.versions));
  }

  lemma SamePrefix<T>(x: seq<T>, s: seq<T>, t: seq<T>)
    ensures x + s == x + t <==> s == t
  {
    if x + s == x + t { assert s == (x + s)[|x|..] == (x + t)[|x|..] == t; }
  }

  /** With distinct pending versions the database is then what one undisturbed run leaves. */
  lemma RestartsLikeOneRun<S>(exec: Exec<S>, db: Db<S>, files: seq<File>, budgets: seq<Option<nat>>, last: Option<nat>)
    requires Run(exec, RunAll(exec, db, files, budgets), files, last).1
    requires DistinctVersions(Pending(files, db.versions))
    ensures Run(exec, db, files, None) == (Run(exec, RunAll(exec, db, files, budgets), files, last).0, true)
  {
    var mid := RunAll(exec, db, files, budgets);
    RestartsConverge(exec, db, files, budgets, last);
    FirstsIffDistinct(files, db.versions);
    SuccessParses(exec, mid, files, mid.versions, Spend(last, STEPS_BEFORE));
    UninterruptedSucceeds(exec, db, files, db.versions);
  }

  // ----- Why the versions must be distinct -----

  ghost predicate NeverFails<S(!new)>(exec: Exec<S>) {
    forall s: S, sql :: exec(s, sql).Some?
  }

  lemma {:induction false} PendingNotApplied(files: seq<File>, applied: set<int>)
    ensures NoneApplied(Pending(files, applied), applied)
    decreases |files|
  {
    if files != [] {
      PendingNotApplied(files[1..], applied);
    }
  }

  lemma PendingParses(files: seq<File>, applied: set<int>)
    ensures var p := Pending(files, applied);
            AllParse(p) && forall i :: 0 <= i < |p| ==> ParseVersion(p[i].name).value !in applied
  {
    PendingNotApplied(files, applied);
    ByIndex(Pending(files, applied), applied);
  }

  lemma ByIndex(p: seq<File>, applied: set<int>)
    requires NoneApplied(p, applied)
    ensures AllParse(p) && forall i :: 0 <= i < |p| ==> ParseVersion(p[i].name).value !in applied
  {
    assert forall i :: 0 <= i < |p| ==> p[i] in p;
  }

  /** The versions are distinct and none is recorded yet. */
  ghost predicate Fresh(files: seq<File>, versions: set<int>)
    requires AllParse(files)
  {
    DistinctVersions(files) && forall f :: f in files ==> ParseVersion(f.name).value !in versions
  }

  lemma FreshHead(files: seq<File>, versions: set<int>)
    requires AllParse(files) && files != []
    ensures Fresh(files, versions) <==>
            var version := ParseVersion(files[0].name).value;
            version !in versions && Fresh(files[1..], versions + {version})
  {
    assert files == [files[0]] + files[1..];
    DistinctHead(files[0], files[1..]);
    NewHead(files, versions);
  }

  lemma NewHead(files: seq<File>, versions: set<int>)
    requires AllParse(files) && files != []
    ensures var version, rest := ParseVersion(files[0].name).value, files[1..];
            && ((forall f :: f in files ==> ParseVersion(f.name).value !in versions) <==>
                version !in versions && forall f :: f in rest ==> ParseVersion(f.name).value !in versions)
            && ((forall f :: f in rest ==> ParseVersion(f.name).value !in versions + {version}) <==>
                NoneOf(rest, version) && forall f :: f in rest ==> ParseVersion(f.name).value !in versions)
  {
    assert files == [files[0]] + files[1..];
  }

  /** What can be applied: versions not yet used, and scripts that run. */
  lemma {:induction false} ApplyAllExactly<S>(exec: Exec<S>, db: Db<S>, files: seq<File>)
    requires AllParse(files)
    ensures ApplyAll(exec, db, files).Some? <==>
            Fresh(files, db.versions) && RunScripts(exec, db.schema, Scripts(files)).Some?
    decreases |files|
  {
    if files != [] {
      FreshHead(files, db.versions);
      var next := ApplyOne(exec, db, files[0], ParseVersion(files[0].name).value);
      if next.Some? { ApplyAllExactly(exec, next.value, files[1..]); }
      if exec(db.schema, files[0].sql).Some? { NextScript(exec, db.schema, files[0].sql, Scripts(files[1..])); }
    }
  }

  lemma {:induction false} ScriptsRun<S(!new)>(exec: Exec<S>, schema: S, scripts: seq<string>)
    requires NeverFails(exec)
    ensures RunScripts(exec, schema, scripts).Some?
    decreases |scripts|
  {
    if scripts != [] { ScriptsRun(exec, exec(schema, scripts[0]).value, scripts[1..]); }
  }

  lemma {:induction false} SuccessAppliesPending<S>(exec: Exec<S>, db: Db<S>, files: seq<File>, applied: set<int>,
      budget: Option<nat>)
    requires RunFiles(exec, db, files, applied, budget).1
    ensures ApplyAll(exec, db, Pending(files, applied)) == Some(RunFiles(exec, db, files, applied, budget).0)
    decreases |files|
  {
    if files != [] {
      var version := ParseVersion(files[0].name).value;
      if version in applied {
        SuccessAppliesPending(exec, db, files[1..], applied, budget);
      } else {
        var next := ApplyOne(exec, db, files[0], version).value;
        SuccessAppliesPending(exec, next, files[1..], applied, Spend(budget, STEPS_PER_FILE));
        Cons(exec, db, files[0], Pending(files[1..], applied));
      }
    }
  }

  /** An undisturbed run succeeds exactly when every file name parses, the pending versions are distinct and the
      pending scripts run one after the other. */
  lemma SucceedsExactly<S>(exec: Exec<S>, db: Db<S>, files: seq<File>)
    ensures Run(exec, db, files, None).1 <==>
            && AllParse(files) && DistinctVersions(Pending(files, db.versions))
            && RunScripts(exec, db.schema, Scripts(Pending(files, db.versions))).Some?
  {
    PendingParses(files, db.versions);
    ApplyAllExactly(exec, db, Pending(files, db.versions));
    if RunFiles(exec, db, files, db.versions, None).1 {
      SuccessAppliesPending(exec, db, files, db.versions, None);
      SuccessParses(exec, db, files, db.versions, None);
    } else if AllParse(files) && ApplyAll(exec, db, Pending(files, db.versions)).Some? {
      UninterruptedSucceeds(exec, db, files, db.versions);
    }
  }

  /** So when no script fails, exactly when every file name parses and the pending versions are distinct. */
  lemma SucceedsIffDistinct<S(!new)>(exec: Exec<S>, db: Db<S>, files: seq<File>)
    requires NeverFails(exec)
    ensures Run(exec, db, files, None).1 <==> AllParse(files) && DistinctVersions(Pending(files, db.versions))
  {
    SucceedsExactly(exec, db, files);
    ScriptsRun(exec, db.schema, Scripts(Pending(files, db.versions)));
  }

  /** A run that fails without a storage failure has met a name that does not parse, a script that fails on the
      schema as it is then, or a version recorded since the run began. */
  lemma {:induction false} FailsForReason<S>(exec: Exec<S>, db: Db<S>, files: seq<File>, applied: set<int>)
    returns (f: File)
    requires !RunFiles(exec, db, files, applied, None).1
    ensures f in files && Stuck(exec, RunFiles(exec, db, files, applied, None).0, f, applied)
    decreases |files|
  {
    FileByFile(exec, db, files, applied);
    f := files[0];
    var next := After(exec, db, f, applied);
    if next.Some? {
      f := FailsForReason(exec, next.value, files[1..], applied);
    }
  }

  /** The file cannot be applied to the database. */
  predicate Stuck<S>(exec: Exec<S>, db: Db<S>, f: File, applied: set<int>) {
    var version := ParseVersion(f.name);
    version.None? || exec(db.schema, f.sql).None? || (version.value !in applied && version.value in db.versions)
  }

  /** The database after one file of a run that the storage does not disturb. */
  function After<S>(exec: Exec<S>, db: Db<S>, f: File, applied: set<int>): Option<Db<S>> {
    var version := ParseVersion(f.name);
    if version.None? then None
    else if version.value in applied then Some(db)
    else ApplyOne(exec, db, f, version.value)
  }

  lemma FileByFile<S>(exec: Exec<S>, db: Db<S>, files: seq<File>, applied: set<int>)
    ensures var run := RunFiles(exec, db, files, applied, None);
            if files == [] then run.1
            else
              var next := After(exec, db, files[0], applied);
              if next.None? then run == (db, false) && Stuck(exec, db, files[0], applied)
              else run == RunFiles(exec, next.value, files[1..], applied, None)
  {
  }

  // ----- Every point of failure -----

  function StepsFor(k: nat): nat {
    STEPS_PER_FILE * k
  }

  lemma StepsForOneMore(k: nat)
    requires k > 0
    ensures Enough(Some(StepsFor(k)), STEPS_PER_FILE)
    ensures Spend(Some(StepsFor(k)), STEPS_PER_FILE) == Some(StepsFor(k - 1))
  {
  }

  lemma NoStepsLeft<S>(exec: Exec<S>, db: Db<S>, files: seq<File>, applied: set<int>)
    requires files != [] && ParseVersion(files[0].name).Some? && ParseVersion(files[0].name).value !in applied
    ensures RunFiles(exec, db, files, applied, Some(StepsFor(0))) == (db, false)
  {
  }

  lemma {:induction false} StopsAfterFiles<S>(exec: Exec<S>, db: Db<S>, files: seq<File>, applied: set<int>, k: nat)
    requires AllParse(files) && k <= |Pending(files, applied)|
    requires ApplyAll(exec, db, Pending(files, applied)).Some?
    ensures RunFiles(exec, db, files, applied, Some(StepsFor(k))).0.ran == db.ran + Pending(files, applied)[..k]
    ensures RunFiles(exec, db, files, applied, Some(StepsFor(k))).1 <==> k == |Pending(files, applied)|
    decreases |files|
  {
    if files != [] {
      var version, p := ParseVersion(files[0].name).value, Pending(files, applied);
      if version in applied {
        StopsAfterFiles(exec, db, files[1..], applied, k);
      } else if k > 0 {
        var next := ApplyOne(exec, db, files[0], version).value;
        assert p[1..] == Pending(files[1..], applied);
        RunsOneMore(exec, db, files, applied, k, next);
        StopsAfterFiles(exec, next, files[1..], applied, k - 1);
        FirstOf(db.ran, p, k);
      } else {
        NoStepsLeft(exec, db, files, applied);
        assert p[..0] == [] && db.ran + [] == db.ran;
      }
    }
  }

  lemma RunsOneMore<S>(exec: Exec<S>, db: Db<S>, files: seq<File>, applied: set<int>, k: nat, next: Db<S>)
    requires files != [] && ParseVersion(files[0].name).Some? && k > 0
    requires ParseVersion(files[0].name).value !in applied
    requires ApplyOne(exec, db, files[0], ParseVersion(files[0].name).value) == Some(next)
    ensures RunFiles(exec, db, files, applied, Some(StepsFor(k)))
         == RunFiles(exec, next, files[1..], applied, Some(StepsFor(k - 1)))
    ensures next.ran == db.ran + [files[0]]
  {
    StepsForOneMore(k);
    OneMoreRuns(exec, db, files, applied, Some(StepsFor(k)), next);
  }

  lemma FirstOf<T>(done: seq<T>, p: seq<T>, k: nat)
    requires 0 < k <= |p|
    ensures done + [p[0]] + p[1..][..k - 1] == done + p[..k]
  {
  }

  /** The storage can stop a run after any number of files. */
  lemma StopsAnywhere<S>(exec: Exec<S>, db: Db<S>, files: seq<File>, k: nat)
    requires Run(exec, db, files, None).1 && k <= |Pending(files, db.versions)|
    ensures var (db', ok) := Run(exec, db, files, Some(STEPS_BEFORE + StepsFor(k)));
            db'.ran == db.ran + Pending(files, db.versions)[..k] && (ok <==> k == |Pending(files, db.versions)|)
  {
    RunIs(exec, db, files, k);
    SuccessParses(exec, db, files, db.versions, None);
    SuccessAppliesPending(exec, db, files, db.versions, None);
    StopsAfterFiles(exec, db, files, db.versions, k);
  }

  lemma RunIs<S>(exec: Exec<S>, db: Db<S>, files: seq<File>, k: nat)
    ensures Run(exec, db, files, None) == RunFiles(exec, db, files, db.versions, None)
    ensures Run(exec, db, files, Some(STEPS_BEFORE + StepsFor(k)))
         == RunFiles(exec, db, files, db.versions, Some(StepsFor(k)))
  {
  }

  // ----- A repeated version -----

  /** A run that fails only because of a repeated version has still applied something. */
  lemma {:induction false} RunProgresses<S(!new)>(exec: Exec<S>, db: Db<S>, files: seq<File>)
    requires NeverFails(exec) && AllParse(files) && !RunFiles(exec, db, files, db.versions, None).1
    ensures |RunFiles(exec, db, files, db.versions, None).0.ran| > |db.ran|
    decreases |files|
  {
    var version := ParseVersion(files[0].name).value;
    if version in db.versions {
      RunProgresses(exec, db, files[1..]);
    } else {
      var next := ApplyOne(exec, db, files[0], version).value;
      var done, left := RunFilesApplyPrefix(exec, next, files[1..], db.versions, None);
      ApplyAllRan(exec, next, done);
    }
  }

  lemma RetryLeavesFewer<S(!new)>(exec: Exec<S>, db: Db<S>, files: seq<File>)
    requires NeverFails(exec) && AllParse(files) && !Run(exec, db, files, None).1
    ensures |Firsts(files, Run(exec, db, files, None).0.versions)| < |Firsts(files, db.versions)|
  {
    var done, left := RunAppliesPrefix(exec, db, files, None);
    FirstsAfterPrefix(files, db.versions, done, left);
    RunProgresses(exec, db, files);
  }

  /** When no script and no storage step fails, retrying often enough succeeds, whatever versions are repeated. */
  lemma {:induction false} RetriesSucceed<S(!new)>(exec: Exec<S>, db: Db<S>, files: seq<File>)
    returns (budgets: seq<Option<nat>>)
    requires NeverFails(exec) && AllParse(files)
    ensures |budgets| <= |Firsts(files, db.versions)| && forall i :: 0 <= i < |budgets| ==> budgets[i].None?
    ensures Run(exec, RunAll(exec, db, files, budgets), files, None).1
    decreases |Firsts(files, db.versions)|
  {
    if Run(exec, db, files, None).1 {
      budgets := [];
    } else {
      var mid := Run(exec, db, files, None).0;
      RetryLeavesFewer(exec, db, files);
      var later := RetriesSucceed(exec, mid, files);
      budgets := [None] + later;
      assert budgets[1..] == later;
    }
  }

  /** With a repeated version among the pending files the undisturbed run fails, retries succeed, and the files
      behind the first of that version are then recorded as applied although they have never run. */
  lemma RepeatedVersionIsLost<S(!new)>(exec: Exec<S>, db: Db<S>, files: seq<File>)
    returns (budgets: seq<Option<nat>>)
    requires NeverFails(exec) && AllParse(files) && !DistinctVersions(Pending(files, db.versions))
    ensures !Run(exec, db, files, None).1
    ensures var (final, ok) := Run(exec, RunAll(exec, db, files, budgets), files, None);
            && ok && final.ran == db.ran + Firsts(files, db.versions)
            && final.ran != db.ran + Pending(files, db.versions)
            && Pending(files, final.versions) == []
  {
    SucceedsIffDistinct(exec, db, files);
    budgets := RetriesSucceed(exec, db, files);
    var mid := RunAll(exec, db, files, budgets);
    RestartsConverge(exec, db, files, budgets, None);
    var done, left := RunAppliesPrefix(exec, mid, files, None);
    FirstsAfterPrefix(files, mid.versions, done, left);
    NoneFirstNonePending(files, Run(exec, mid, files, None).0.versions);
  }

  lemma {:induction false} NoneFirstNonePending(files: seq<File>, applied: set<int>)
    requires Firsts(files, applied) == []
    ensures Pending(files, applied) == []
    decreases |files|
  {
    if files != [] { NoneFirstNonePending(files[1..], applied); }
  }
}
