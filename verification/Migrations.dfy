/** Schema migrations under crashes and concurrent starts.  What the migrations have done to the
    database is represented by the sequence of migrations whose transaction has committed. */
module Migrations {
  import opened Options

  datatype Migration = Migration(version: int, name: string, sql: string)

  predicate Ascending(ms: seq<Migration>) { forall i, j :: 0 <= i < j < |ms| ==> ms[i].version <= ms[j].version }

  predicate Distinct(ms: seq<Migration>) { forall i, j :: 0 <= i < j < |ms| ==> ms[i].version != ms[j].version }

  // ---------- Loading ----------

  datatype File = File(name: string, content: string)

  datatype Result<T> = Ok(value: T) | Bad(file: string)

  function Digits(s: string): Option<nat> {
    if s == "" then Some(0)
    else
      var d: int := s[|s| - 1] as int - '0' as int;
      var rest := Digits(s[..|s| - 1]);
      if d < 0 || d > 9 || rest.None? then None else Some(rest.value * 10 + d)
  }

  const MAX_INT: int := 0x7FFF_FFFF_FFFF_FFFF

  /** strconv.Atoi: an optional sign and at least one digit, within 64 bits. */
  function Atoi(s: string): Option<int> {
    var signed := s != "" && (s[0] == '+' || s[0] == '-');
    var n := Digits(if signed then s[1..] else s);
    if n.None? || |s| == (if signed then 1 else 0) then None
    else
      var m: int := n.value;
      var v := if signed && s[0] == '-' then -m else m;
      if -MAX_INT - 1 <= v <= MAX_INT then Some(v) else None
  }

  function Underscore(s: string): (i: nat)
    ensures i <= |s|
  {
    if s == "" || s[0] == '_' then 0 else 1 + Underscore(s[1..])
  }

  predicate IsSql(name: string) { |name| >= 4 && name[|name| - 4..] == ".sql" }

  function Parse(f: File): Option<Migration> {
    var u := Underscore(f.name);
    if u == |f.name| then None else
    var v := Atoi(f.name[..u]);
    if v.None? then None
    else Some(Migration(v.value, if IsSql(f.name) then f.name[..|f.name| - 4] else f.name, f.content))
  }

  function Parsed(files: seq<File>): seq<Migration> {
    if files == [] then []
    else
      var f := files[|files| - 1];
      Parsed(files[..|files| - 1]) + (if IsSql(f.name) && Parse(f).Some? then [Parse(f).value] else [])
  }

  function Inserted(r: seq<Migration>, p: nat, m: Migration): seq<Migration>
    requires p <= |r|
  {
    r[..p] + [m] + r[p..]
  }

  lemma InsertKeepsAll(r: seq<Migration>, p: nat, m: Migration)
    requires p <= |r|
    ensures multiset(Inserted(r, p, m)) == multiset(r) + multiset{m}
  {
    assert r == r[..p] + r[p..];
  }

  /** Everything before p is at most m, everything from p on is above it. */
  lemma InsertKeepsOrder(r: seq<Migration>, p: nat, m: Migration)
    requires p <= |r| && Ascending(r)
    requires (p > 0 ==> r[p - 1].version <= m.version) && (p < |r| ==> r[p].version > m.version)
    ensures Ascending(Inserted(r, p, m))
  {
    var s := Inserted(r, p, m);
    assert forall k :: 0 <= k < |s| ==> s[k] == if k < p then r[k] else if k == p then m else r[k - 1];
  }

  /** The position for a version in a sorted list. */
  method Position(r: seq<Migration>, version: int) returns (p: nat)
    requires Ascending(r)
    ensures p <= |r| && (p > 0 ==> r[p - 1].version <= version) && (p < |r| ==> r[p].version > version)
  {
    p := |r|;
    while p > 0 && r[p - 1].version > version
      invariant 0 <= p <= |r| && (p < |r| ==> r[p].version > version)
    {
      p := p - 1;
    }
  }

  lemma OneMore(ms: seq<Migration>, i: nat)
    requires i < |ms|
    ensures multiset(ms[..i + 1]) == multiset(ms[..i]) + multiset{ms[i]}
  {
    assert ms[..i + 1] == ms[..i] + [ms[i]];
  }

  method SortByVersion(ms: seq<Migration>) returns (r: seq<Migration>)
    ensures Ascending(r) && multiset(r) == multiset(ms)
  {
    r := [];
    for i := 0 to |ms|
      invariant Ascending(r) && multiset(r) == multiset(ms[..i])
    {
      var p := Position(r, ms[i].version);
      InsertKeepsAll(r, p, ms[i]);
      InsertKeepsOrder(r, p, ms[i]);
      OneMore(ms, i);
      r := Inserted(r, p, ms[i]);
    }
    assert ms[..|ms|] == ms;
  }

  method LoadMigrations(files: seq<File>) returns (r: Result<seq<Migration>>)
    ensures r.Ok? <==> forall f :: f in files && IsSql(f.name) ==> Parse(f).Some?
    ensures r.Ok? ==> Ascending(r.value) && multiset(r.value) == multiset(Parsed(files))
  {
    var migrations := [];
    for i := 0 to |files|
      invariant forall f :: f in files[..i] && IsSql(f.name) ==> Parse(f).Some?
      invariant migrations == Parsed(files[..i])
    {
      assert files[..i + 1][..i] == files[..i] && files[..i + 1] == files[..i] + [files[i]];
      if IsSql(files[i].name) {
        var m := Parse(files[i]);
        if m.None? {
          assert files[i] in files;
          return Bad(files[i].name);
        }
        migrations := migrations + [m.value];
      }
    }
    assert files[..|files|] == files;
    var sorted := SortByVersion(migrations);
    return Ok(sorted);
  }

  /** With distinct versions there is only one sorted order, so the sorting algorithm does not matter. */
  lemma {:induction false} SortedOrderIsUnique(a: seq<Migration>, b: seq<Migration>)
    requires Ascending(a) && Ascending(b) && Distinct(a) && Distinct(b) && forall m :: m in a <==> m in b
    ensures a == b
    decreases |a|
  {
    assert (a != [] ==> a[0] in b) && (b != [] ==> b[0] in a);
    if a != [] && b != [] {
      var i :| 0 <= i < |b| && b[i] == a[0];
      var j :| 0 <= j < |a| && a[j] == b[0];
      assert a[0] == b[0];
      TailHasTheRest(a);
      TailHasTheRest(b);
      SortedOrderIsUnique(a[1..], b[1..]);
      assert a == [a[0]] + a[1..] && b == [b[0]] + b[1..];
    }
  }

  lemma TailHasTheRest(a: seq<Migration>)
    requires Distinct(a) && a != []
    ensures forall m :: m in a[1..] <==> m in a && m != a[0]
  {
    assert a == [a[0]] + a[1..];
  }

  // ---------- Any number of starters ----------

  /** Where one start of the service stands: the migration it looks at, and whether it has found it missing. */
  datatype Runner = CreatingTable | Checking(i: nat) | Applying(i: nat) | Finished | Stopped

  datatype System = System(
    log: seq<Migration>,           // committed migrations, in commit order
    table: bool,                   // schema_migrations exists
    applied: map<int, string>,     // rows of schema_migrations
    runners: seq<Runner>)

  datatype Action =
    | Begin
    | CreateTable(r: nat)
    | Check(r: nat)
    | Commit(r: nat, acknowledged: bool)    // SQL and version row in one transaction
    | Fail(r: nat)                          // any error or crash without effect

  const EMPTY := System([], false, map[], [])

  predicate Enabled(ms: seq<Migration>, s: System, a: Action) {
    match a
    case Begin => true
    case CreateTable(r) => r < |s.runners| && s.runners[r].CreatingTable?
    case Check(r) => r < |s.runners| && s.runners[r].Checking? && s.runners[r].i < |ms| && s.table
    case Commit(r, _) => r < |s.runners| && s.runners[r].Applying? && s.runners[r].i < |ms|
    case Fail(r) => r < |s.runners|
  }

  function Next(ms: seq<Migration>, i: nat): Runner { if i < |ms| then Checking(i) else Finished }

  function Apply(ms: seq<Migration>, s: System, a: Action): System
    requires Enabled(ms, s, a)
  {
    match a
    case Begin => s.(runners := s.runners + [CreatingTable])
    case CreateTable(r) => s.(table := true, runners := s.runners[r := Next(ms, 0)])
    case Check(r) =>
      var i := s.runners[r].i;
      s.(runners := s.runners[r := if ms[i].version in s.applied then Next(ms, i + 1) else Applying(i)])
    case Commit(r, acknowledged) =>
      var i := s.runners[r].i;
      if ms[i].version in s.applied
      then s.(runners := s.runners[r := Stopped])      // the version row exists: the whole transaction rolls back
      else s.(log := s.log + [ms[i]], applied := s.applied[ms[i].version := ms[i].name],
              runners := s.runners[r := if acknowledged then Next(ms, i + 1) else Stopped])
    case Fail(r) => s.(runners := s.runners[r := Stopped])
  }

  predicate Legal(ms: seq<Migration>, s: System, acts: seq<Action>)
    decreases |acts|
  {
    acts == [] || (Enabled(ms, s, acts[0]) && Legal(ms, Apply(ms, s, acts[0]), acts[1..]))
  }

  function After(ms: seq<Migration>, s: System, acts: seq<Action>): System
    requires Legal(ms, s, acts)
    decreases |acts|
  {
    if acts == [] then s else After(ms, Apply(ms, s, acts[0]), acts[1..])
  }

  predicate RunnerOk(ms: seq<Migration>, x: Runner, n: nat) {
    match x
    case CreatingTable => true
    case Checking(i) => i <= n && i < |ms|
    case Applying(i) => i <= n && i < |ms|
    case Finished => n == |ms|
    case Stopped => true
  }

  /** The rows of schema_migrations after the first n migrations. */
  function RecordOf(ms: seq<Migration>, n: nat): map<int, string>
    requires n <= |ms|
  {
    if n == 0 then map[] else RecordOf(ms, n - 1)[ms[n - 1].version := ms[n - 1].name]
  }

  lemma {:induction false} OnRecord(ms: seq<Migration>, n: nat, i: nat)
    requires Distinct(ms) && n <= |ms| && i < |ms|
    ensures ms[i].version in RecordOf(ms, n) <==> i < n
    ensures i < n ==> RecordOf(ms, n)[ms[i].version] == ms[i].name
  {
    if n == 0 {
    } else {
      OnRecord(ms, n - 1, i);
    }
  }

  /** Exactly the first n migrations are in, in order, once each, and on record. */
  ghost predicate AtPrefix(ms: seq<Migration>, s: System, n: nat) {
    && n <= |ms| && s.log == ms[..n] && s.applied == RecordOf(ms, n)
    && (forall r :: 0 <= r < |s.runners| ==> RunnerOk(ms, s.runners[r], n))
  }

  lemma StepKeepsPrefix(ms: seq<Migration>, s: System, a: Action, n: nat) returns (n': nat)
    requires Distinct(ms) && AtPrefix(ms, s, n) && Enabled(ms, s, a)
    ensures n <= n' && AtPrefix(ms, Apply(ms, s, a), n')
  {
    n' := n;
    if a.Check? || a.Commit? {
      var i := s.runners[a.r].i;
      OnRecord(ms, n, i);
      if a.Commit? && ms[i].version !in s.applied {
        n' := n + 1;
        assert ms[..n + 1] == ms[..n] + [ms[n]];
      }
    }
  }

  lemma {:induction false} AlwaysAPrefix(ms: seq<Migration>, s: System, acts: seq<Action>, n: nat) returns (n': nat)
    requires Distinct(ms) && AtPrefix(ms, s, n) && Legal(ms, s, acts)
    ensures n <= n' && AtPrefix(ms, After(ms, s, acts), n')
    decreases |acts|
  {
    if acts == [] {
      n' := n;
    } else {
      var m := StepKeepsPrefix(ms, s, acts[0], n);
      n' := AlwaysAPrefix(ms, Apply(ms, s, acts[0]), acts[1..], m);
    }
  }

  /** Whatever stops, crashes or runs at the same time, the database is always a prefix of the sorted migrations, each
      applied once, and schema_migrations holds exactly that prefix; whoever finished finished with all of them. */
  lemma PrefixFromEmpty(ms: seq<Migration>, acts: seq<Action>)
    requires Distinct(ms) && Legal(ms, EMPTY, acts)
    ensures var t := After(ms, EMPTY, acts);
            && |t.log| <= |ms| && t.log == ms[..|t.log|] && t.applied == RecordOf(ms, |t.log|)
            && (forall i: nat :: i < |ms| ==> (ms[i].version in t.applied <==> i < |t.log|))
            && (Finished in t.runners ==> t.log == ms)
  {
    var n := AlwaysAPrefix(ms, EMPTY, acts, 0);
    var t := After(ms, EMPTY, acts);
    forall i: nat | i < |ms| ensures ms[i].version in t.applied <==> i < |t.log| { OnRecord(ms, n, i); }
    assert ms[..|ms|] == ms;
  }

  predicate StepOf(a: Action, r: nat) { a == CreateTable(r) || a == Check(r) || a == Commit(r, true) }

  function StepsLeft(ms: seq<Migration>, x: Runner): nat {
    match x
    case CreatingTable => 2 * |ms| + 2
    case Checking(i) => if i < |ms| then 2 * (|ms| - i) + 1 else 1
    case Applying(i) => if i < |ms| then 2 * (|ms| - i) else 0
    case _ => 0
  }

  /** A start that nobody disturbs completes the list, from its first step on or from wherever it is. */
  lemma {:induction false} RunnerCompletes(ms: seq<Migration>, s: System, r: nat, n: nat) returns (acts: seq<Action>)
    requires Distinct(ms) && AtPrefix(ms, s, n) && r < |s.runners|
    requires s.runners[r].CreatingTable? || (s.table && !s.runners[r].Stopped?)
    requires s.runners[r].Applying? ==> s.runners[r].i >= n
    ensures Legal(ms, s, acts) && After(ms, s, acts).log == ms && forall a :: a in acts ==> StepOf(a, r)
    decreases StepsLeft(ms, s.runners[r])
  {
    assert RunnerOk(ms, s.runners[r], n);
    if s.runners[r].Finished? {
      acts := [];
      assert ms[..|ms|] == ms;
    } else {
      var a := if s.runners[r].CreatingTable? then CreateTable(r) else if s.runners[r].Checking? then Check(r)
          else Commit(r, true);
      if !s.runners[r].CreatingTable? { OnRecord(ms, n, s.runners[r].i); }
      var m := StepKeepsPrefix(ms, s, a, n);
      var t := Apply(ms, s, a);
      var rest := RunnerCompletes(ms, t, r, m);
      acts := [a] + rest;
      assert acts[1..] == rest;
    }
  }

  /** Two migrations of one version: only the first is run, and nothing says so. */
  lemma DuplicateVersionIsSkipped(a: Migration, b: Migration)
    requires a.version == b.version
    ensures FirstOfEach([a, b], {}) == [a]
  {
    var seen := {a.version};
    assert [a, b][1..] == [b] && [b][1..] == [] && {} + seen == seen;
    assert FirstOfEach([b], seen) == FirstOfEach([b][1..], seen) == [];
  }

  // ---------- One start, as its code runs ----------

  /** The first migration of every version. */
  function FirstOfEach(ms: seq<Migration>, seen: set<int>): seq<Migration>
    decreases |ms|
  {
    if ms == [] then []
    else if ms[0].version in seen then FirstOfEach(ms[1..], seen)
    else [ms[0]] + FirstOfEach(ms[1..], seen + {ms[0].version})
  }

  /** Which commands of a start fail: the creation of the table, and for each migration its check and its
      transaction. */
  datatype Failures = Failures(create: bool, checks: seq<bool>, applies: seq<bool>) {
    predicate Covers(ms: seq<Migration>) { |checks| == |applies| == |ms| }

    predicate NoneBefore(n: nat)
      requires n <= |checks| == |applies|
    {
      !create && forall i :: 0 <= i < n ==> !checks[i] && !applies[i]
    }
  }

  class Storage {
    var log: seq<Migration>
    var table: bool
    var applied: map<int, string>

    constructor ()
      ensures log == [] && !table && applied == map[]
    {
      log, table, applied := [], false, map[];
    }

    method CreateMigrationsTable(fails: bool) returns (ok: bool)
      modifies this`table
      ensures table == (old(table) || ok) && ok == !fails
    {
      ok := !fails;
      table := table || ok;
    }

    method IsMigrationApplied(version: int, fails: bool) returns (ok: bool, present: bool)
      requires table
      ensures ok == !fails && (ok ==> present == (version in applied))
    {
      ok := !fails;
      present := ok && version in applied;
    }

    /** SQL and version row commit together, or nothing happens. */
    method ApplyMigration(m: Migration, fails: bool) returns (ok: bool)
      requires table
      modifies this
      ensures table
      ensures ok <==> !fails && m.version !in old(applied)
      ensures ok ==> log == old(log) + [m] && applied == old(applied)[m.version := m.name]
      ensures !ok ==> log == old(log) && applied == old(applied)
    {
      ok := !fails && m.version !in applied;
      if ok {
        log := log + [m];
        applied := applied[m.version := m.name];
      }
    }

    /** One round of the loop: a recorded version is passed over. */
    method ApplyIfMissing(m: Migration, checkFails: bool, applyFails: bool) returns (ok: bool)
      requires table
      modifies this
      ensures table
      ensures ok <==> !checkFails && (m.version in old(applied) || !applyFails)
      ensures ok && m.version !in old(applied) ==> log == old(log) + [m] && applied == old(applied)[m.version := m.name]
      ensures ok && m.version !in old(applied) ==> applied.Keys == old(applied.Keys) + {m.version}
      ensures !ok || m.version in old(applied) ==> log == old(log) && applied == old(applied)
    {
      var present;
      ok, present := IsMigrationApplied(m.version, checkFails);
      if ok && !present { ok := ApplyMigration(m, applyFails); }
    }

    /** Applies what is missing, in the order of the list, and stops at the first error; the records follow the log. */
    method RunMigrations(ms: seq<Migration>, f: Failures) returns (ok: bool)
      requires f.Covers(ms)
      modifies this
      ensures old(log) <= log <= old(log) + FirstOfEach(ms, old(applied.Keys))
      ensures applied.Keys == old(applied.Keys) + Versions(log[|old(log)|..])
      ensures ok ==> log == old(log) + FirstOfEach(ms, old(applied.Keys))
      ensures ok ==> forall m :: m in ms ==> m.version in applied
      // Every migration in front of the first failure has been applied, and without one the start succeeds.
      ensures forall i :: 0 <= i < |ms| && f.NoneBefore(i + 1) ==> ms[i].version in applied
      ensures f.NoneBefore(|ms|) ==> ok
      ensures ok ==> !f.create && forall i :: 0 <= i < |ms| ==> !f.checks[i]
      // A start that finds everything applied changes nothing.
      ensures (forall m :: m in ms ==> m.version in old(applied)) ==> log == old(log)
    {
      NothingMissing(ms, applied.Keys);
      UptoStart(ms, log, applied.Keys);
      ok := CreateMigrationsTable(f.create);
      if !ok { return; }
      ghost var done;
      ok, done := ApplyInOrder(ms, f);
      UptoMeans(ms, done, old(log), old(applied.Keys), log, applied.Keys);
      FrontIsApplied(ms, f, done, applied.Keys);
    }

    /** The loop: done migrations are seen to before it ends or meets a failure. */
    method ApplyInOrder(ms: seq<Migration>, f: Failures) returns (ok: bool, ghost done: nat)
      requires f.Covers(ms) && table
      modifies this
      ensures done <= |ms| && Upto(ms, done, old(log), old(applied.Keys), log, applied.Keys)
      ensures forall j :: 0 <= j < done ==> !f.checks[j]
      ensures if ok then done == |ms| else done < |ms| && (f.checks[done] || f.applies[done])
    {
      UptoStart(ms, log, applied.Keys);
      var i := 0;
      ok := true;
      while i < |ms|
        invariant ok && i <= |ms| && table && Upto(ms, i, old(log), old(applied.Keys), log, applied.Keys)
        invariant forall j :: 0 <= j < i ==> !f.checks[j]
      {
        UptoNext(ms, i, old(log), old(applied.Keys), log, applied.Keys);
        ok := ApplyIfMissing(ms[i], f.checks[i], f.applies[i]);
        if !ok { return false, i; }
        i := i + 1;
      }
      done := i;
    }
  }

  lemma FrontIsApplied(ms: seq<Migration>, f: Failures, done: nat, keys: set<int>)
    requires f.Covers(ms) && done <= |ms| && forall m :: m in ms[..done] ==> m.version in keys
    requires done < |ms| ==> f.checks[done] || f.applies[done]
    ensures forall i :: 0 <= i < |ms| && f.NoneBefore(i + 1) ==> ms[i].version in keys
    ensures done < |ms| ==> !f.NoneBefore(|ms|)
  {
    forall i | 0 <= i < |ms| && f.NoneBefore(i + 1) ensures ms[i].version in keys { assert ms[..done][i] == ms[i]; }
  }

  /** The first i migrations have been seen to: what the log and the records have become, and what is still to come. */
  ghost predicate Upto(ms: seq<Migration>, i: nat, log0: seq<Migration>, keys0: set<int>, log: seq<Migration>,
          keys: set<int>)
    requires i <= |ms|
  {
    && log0 <= log && keys == keys0 + Versions(log[|log0|..])
    && log + FirstOfEach(ms[i..], keys) == log0 + FirstOfEach(ms, keys0)
    && forall m :: m in ms[..i] ==> m.version in keys
  }

  lemma UptoMeans(ms: seq<Migration>, i: nat, log0: seq<Migration>, keys0: set<int>, log: seq<Migration>,
          keys: set<int>)
    requires i <= |ms| && Upto(ms, i, log0, keys0, log, keys)
    ensures log0 <= log <= log0 + FirstOfEach(ms, keys0) && keys == keys0 + Versions(log[|log0|..])
    ensures i == |ms| ==> log == log0 + FirstOfEach(ms, keys0) && forall m :: m in ms ==> m.version in keys
  {
    assert i == |ms| ==> ms[..i] == ms && FirstOfEach(ms[i..], keys) == [];
    assert log <= log + FirstOfEach(ms[i..], keys);
  }

  lemma UptoStart(ms: seq<Migration>, log: seq<Migration>, keys: set<int>)
    ensures Upto(ms, 0, log, keys, log, keys)
  {
    assert ms[0..] == ms && log[|log|..] == [];
  }

  lemma UptoNext(ms: seq<Migration>, i: nat, log0: seq<Migration>, keys0: set<int>, log: seq<Migration>, keys: set<int>)
    requires i < |ms| && Upto(ms, i, log0, keys0, log, keys)
    ensures ms[i].version in keys ==> Upto(ms, i + 1, log0, keys0, log, keys)
    ensures ms[i].version !in keys ==> Upto(ms, i + 1, log0, keys0, log + [ms[i]], keys + {ms[i].version})
  {
    assert ms[i..][1..] == ms[i + 1..];
    assert ms[..i + 1] == ms[..i] + [ms[i]];
    LogGrows(log, ms[i], FirstOfEach(ms[i + 1..], keys + {ms[i].version}), |log0|);
  }

  function Versions(ms: seq<Migration>): set<int> { set m | m in ms :: m.version }

  lemma LogGrows(log: seq<Migration>, m: Migration, rest: seq<Migration>, n: nat)
    requires n <= |log|
    ensures (log + [m]) + rest == log + ([m] + rest)
    ensures Versions((log + [m])[n..]) == Versions(log[n..]) + {m.version}
  {
    assert (log + [m])[n..] == log[n..] + [m];
    var a, b := Versions(log[n..] + [m]), Versions(log[n..]) + {m.version};
    forall v | v in b ensures v in a {
      if v == m.version { assert m in log[n..] + [m]; } else {
        var x :| x in log[n..] && x.version == v;
        assert x in log[n..] + [m];
      }
    }
  }

  lemma {:induction false} NothingMissing(ms: seq<Migration>, seen: set<int>)
    ensures FirstOfEach(ms, seen) == [] <==> forall m :: m in ms ==> m.version in seen
  {
    if ms == [] {
    } else {
      assert ms == [ms[0]] + ms[1..];
      if ms[0].version in seen { NothingMissing(ms[1..], seen); }
    }
  }

  lemma {:induction false} FirstOfEachIsShorter(ms: seq<Migration>, seen: set<int>)
    ensures |FirstOfEach(ms, seen)| <= |ms|
  {
    if ms == [] {
    } else {
      FirstOfEachIsShorter(ms[1..], if ms[0].version in seen then seen else seen + {ms[0].version});
    }
  }

  lemma DistinctHead(ms: seq<Migration>)
    requires ms != []
    ensures Distinct(ms) <==> Distinct(ms[1..]) && forall m :: m in ms[1..] ==> m.version != ms[0].version
  {
    var rest := ms[1..];
    if Distinct(rest) && forall m :: m in rest ==> m.version != ms[0].version {
      forall i, j | 0 <= i < j < |ms| ensures ms[i].version != ms[j].version {
        assert ms[j] == rest[j - 1];
        assert i > 0 ==> ms[i] == rest[i - 1];
      }
    }
    if Distinct(ms) {
      forall i, j | 0 <= i < j < |rest| ensures rest[i].version != rest[j].version {
        assert rest[i] == ms[i + 1] && rest[j] == ms[j + 1];
      }
    }
  }

  lemma {:induction false} AllFirst(ms: seq<Migration>, seen: set<int>)
    ensures FirstOfEach(ms, seen) == ms <==> Distinct(ms) && forall m :: m in ms ==> m.version !in seen
  {
    if ms == [] {
    } else {
      assert ms == [ms[0]] + ms[1..];
      DistinctHead(ms);
      if ms[0].version in seen {
        FirstOfEachIsShorter(ms[1..], seen);
      } else {
        AllFirst(ms[1..], seen + {ms[0].version});
      }
    }
  }

  /** A finished start on a database that holds a prefix has run exactly the rest of the list. */
  lemma {:induction false} ResumeRunsTheRest(ms: seq<Migration>, n: nat, k: nat)
    requires Distinct(ms) && k <= n <= |ms|
    ensures FirstOfEach(ms[k..], RecordOf(ms, n).Keys) == ms[n..]
    decreases n - k
  {
    if k < n {
      OnRecord(ms, n, k);
      assert ms[k..][1..] == ms[k + 1..];
      ResumeRunsTheRest(ms, n, k + 1);
    } else {
      forall m | m in ms[n..] ensures m.version !in RecordOf(ms, n) {
        var i :| n <= i < |ms| && ms[i] == m;
        OnRecord(ms, n, i);
      }
      AllFirst(ms[n..], RecordOf(ms, n).Keys);
    }
  }

  /** A finished start on an empty database has run the whole list, in order, exactly when versions are distinct. */
  lemma FreshStartRunsAllIff(ms: seq<Migration>)
    ensures FirstOfEach(ms, {}) == ms <==> Distinct(ms)
  {
    AllFirst(ms, {});
  }
}
