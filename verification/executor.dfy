/** The loops that run migrations against a database, proved against `Execution`. */
module Executor {
  import opened Wrappers
  import opened Order
  import opened Schema
  import E = Execution

  class Database {
    var schema: State
    var history: map<string, int>
    var clock: int

    constructor ()
      ensures View() == E.Db(map[], map[], 0)
    {
      schema, history, clock := map[], map[], 0;
    }

    function View(): E.Db
      reads this
    {
      E.Db(schema, history, clock)
    }
  }

  // ---------- one migration ----------

  /** Runs the statements in a transaction; only a commit reaches the database. */
  method ExecuteStatements(start: State, statements: seq<Statement>, fault: E.Fault) returns (r: Option<State>)
    ensures r == if fault.AtStatement? && fault.index < |statements| then None else Some(Run(statements, start))
  {
    var tx := start;
    for i := 0 to |statements|
      invariant tx == Run(statements[..i], start)
      invariant fault.AtStatement? ==> i <= fault.index
    {
      if fault == E.AtStatement(i) { return None; }
      tx := Apply(statements[i], tx);
      assert statements[..i + 1][..i] == statements[..i];
    }
    assert statements[..|statements|] == statements;
    return Some(tx);
  }

  method ExecuteMigration(db: Database, m: Migration, up: bool, t: E.Turn) returns (status: E.Status, ok: bool)
    modifies db
    ensures (db.View(), ok) == E.Execute(old(db.View()), m, up, t)
    ensures status == E.Status(m.version, if ok then E.Applied else E.Failed)
  {
    db.clock := db.clock + t.wait;
    if t.fault.AtBegin? { return E.Status(m.version, E.Failed), false; }
    var tx := ExecuteStatements(db.schema, if up then m.up else m.down, t.fault);
    if tx.None? { return E.Status(m.version, E.Failed), false; }
    if t.fault.AtCommit? { return E.Status(m.version, E.Failed), false; }
    db.schema := tx.value;
    if up {
      if t.fault.AtHistory? || m.version == "" || m.version in db.history {
        return E.Status(m.version, E.Failed), false;
      }
      db.history := db.history[m.version := db.clock];
    } else {
      if t.fault.AtHistory? || m.version == "" { return E.Status(m.version, E.Failed), false; }
      db.history := db.history - {m.version};
    }
    return E.Status(m.version, E.Applied), true;
  }

  /** The migrations in the order given, up to the first failure. */
  method ExecuteInOrder(db: Database, ms: seq<Migration>, up: bool, turns: seq<E.Turn>)
      returns (statuses: seq<E.Status>, ok: bool)
    modifies db
    ensures E.Report(db.View(), statuses, ok) == E.ExecuteAll(old(db.View()), ms, up, turns)
  {
    statuses, ok := [], true;
    for i := 0 to |ms|
      invariant ok && E.Report(db.View(), statuses, ok) == E.ExecuteAll(old(db.View()), ms[..i], up, turns)
    {
      assert ms[..i + 1][..i] == ms[..i];
      var status;
      status, ok := ExecuteMigration(db, ms[i], up, E.TurnAt(turns, i));
      statuses := statuses + [status];
      if !ok {
        E.FailureEnds(old(db.View()), ms, up, turns, i + 1);
        return;
      }
    }
    assert ms[..|ms|] == ms;
  }

  // ---------- up ----------

  datatype Issue = Duplicate(version: string) | MissingDependency(version: string,
                             dependency: string) | NoUpStatements(version: string)

  predicate Twice(ms: seq<Migration>, n: nat, v: string)
    requires n <= |ms|
  {
    exists j :: 0 <= j < n && ms[j].version == v && exists i :: 0 <= i < j && ms[i].version == v
  }

  /** What is wrong with a set of migrations. */
  predicate IsIssue(ms: seq<Migration>, x: Issue) {
    match x
    case Duplicate(v) => Twice(ms, |ms|, v)
    case MissingDependency(v, d) => (exists m :: m in ms && m.version == v && d in m.dependsOn)
      && forall m :: m in ms ==> m.version != d
    case NoUpStatements(v) => exists m :: m in ms && m.version == v && m.up == []
  }

  method DuplicateVersions(ms: seq<Migration>) returns (issues: seq<Issue>)
    ensures forall x :: x in issues <==> x.Duplicate? && IsIssue(ms, x)
  {
    issues := [];
    var seen: set<string> := {};
    for i := 0 to |ms|
      invariant forall v :: v in seen <==> exists j :: 0 <= j < i && ms[j].version == v
      invariant forall x :: x in issues <==> x.Duplicate? && Twice(ms, i, x.version)
    {
      forall v ensures Twice(ms, i + 1, v) <==> Twice(ms, i, v) || (v == ms[i].version && v in seen) {}
      if ms[i].version in seen { issues := issues + [Duplicate(ms[i].version)]; }
      seen := seen + {ms[i].version};
    }
  }

  /** The issues of one migration, given all versions. */
  predicate IsIssueOf(m: Migration, versions: set<string>, x: Issue) {
    match x
    case Duplicate(_) => false
    case MissingDependency(v, d) => m.version == v && d in m.dependsOn && d !in versions
    case NoUpStatements(v) => m.version == v && m.up == []
  }

  method IssuesOf(m: Migration, versions: set<string>) returns (issues: seq<Issue>)
    ensures forall x :: x in issues <==> IsIssueOf(m, versions, x)
  {
    issues := [];
    for i := 0 to |m.dependsOn|
      invariant forall x ::
        x in issues <==>
        x.MissingDependency? && m.version == x.version && x.dependency in m.dependsOn[..i] && x.dependency !in versions
    {
      if m.dependsOn[i] !in versions { issues := issues + [MissingDependency(m.version, m.dependsOn[i])]; }
    }
    assert m.dependsOn[..|m.dependsOn|] == m.dependsOn;
    if |m.up| == 0 { issues := issues + [NoUpStatements(m.version)]; }
  }

  /**
   Reports exactly what is wrong; that is nothing exactly if versions are distinct, dependencies are there and no
   migration is empty.
   */
  method ValidateMigrationSet(ms: seq<Migration>) returns (issues: seq<Issue>)
    ensures forall x :: x in issues <==> IsIssue(ms, x)
    ensures issues == [] <==> E.Valid(ms)
  {
    issues := DuplicateVersions(ms);
    var versions := set m | m in ms :: m.version;
    ghost var duplicates := issues;
    for i := 0 to |ms|
      invariant forall x :: x in issues <==> x in duplicates || exists j :: 0 <= j < i && IsIssueOf(ms[j], versions, x)
    {
      var more := IssuesOf(ms[i], versions);
      issues := issues + more;
    }
    hide E.Valid;
    forall x ensures x in issues <==> IsIssue(ms, x) { IssuesAre(ms, versions, x); }
    NoIssueIf(ms);
    if issues != [] { assert issues[0] in issues; }
  }

  lemma IssuesAre(ms: seq<Migration>, versions: set<string>, x: Issue)
    requires versions == set m | m in ms :: m.version
    ensures !x.Duplicate? ==> (IsIssue(ms, x) <==> exists j :: 0 <= j < |ms| && IsIssueOf(ms[j], versions, x))
    ensures x.Duplicate? ==> forall j :: 0 <= j < |ms| ==> !IsIssueOf(ms[j], versions, x)
  {
    if !x.Duplicate? && IsIssue(ms, x) {
      var m :| m in ms && IsIssueOf(m, versions, x);
      var j :| 0 <= j < |ms| && ms[j] == m;
    }
  }

  lemma NoIssueIf(ms: seq<Migration>)
    ensures (forall x :: !IsIssue(ms, x)) <==> E.Valid(ms)
  {
    if forall x :: !IsIssue(ms, x) {
      forall i, j | 0 <= i < j < |ms| ensures ms[i].version != ms[j].version {
        assert !IsIssue(ms, Duplicate(ms[j].version));
      }
      forall m | m in ms ensures m.up != [] { assert !IsIssue(ms, NoUpStatements(m.version)); }
      forall m, v | m in ms && v in m.dependsOn
        ensures exists n :: n in ms && n.version == v { assert !IsIssue(ms, MissingDependency(m.version, v)); }
    } else if E.Valid(ms) {
      var x :| IsIssue(ms, x);
      ValidHasNone(ms, x);
    }
  }

  lemma ValidHasNone(ms: seq<Migration>, x: Issue)
    requires E.Valid(ms)
    ensures !IsIssue(ms, x)
  {
  }

  method PendingMigrations(db: Database, disk: seq<Migration>) returns (pending: seq<Migration>)
    ensures pending == StableSort(E.Unapplied(disk, db.history), InVersionOrder())
  {
    var applied := db.history.Keys;
    pending := [];
    for i := 0 to |disk|
      invariant pending == E.Unapplied(disk[..i], db.history)
    {
      assert disk[..i + 1][..i] == disk[..i];
      if disk[i].version in applied { continue; }
      pending := pending + [disk[i]];
    }
    assert disk[..|disk|] == disk;
    pending := StableSort(pending, InVersionOrder());
  }

  method MigrateUp(db: Database, disk: seq<Migration>, o: E.Options, readable: bool, turns: seq<E.Turn>)
    returns (statuses: seq<E.Status>, ok: bool)
    modifies db
    ensures E.Report(db.View(), statuses, ok) == E.MigrateUp(old(db.View()), disk, o, readable, turns)
  {
    if o.failOnValidation {
      var issues := ValidateMigrationSet(disk);
      if |issues| > 0 { return [], false; }
    }
    hide E.Valid, E.ExecuteAll, E.Unapplied, StableSort, InVersionOrder;
    if !readable { return [], false; }
    var pending := PendingMigrations(db, disk);
    if o.steps > 0 && o.steps < |pending| { pending := pending[..o.steps]; }
    if o.dryRun {
      statuses := PendingStatuses(pending);
      ok := true;
    } else {
      statuses, ok := ExecuteInOrder(db, pending, true, turns);
    }
  }

  method PendingStatuses(pending: seq<Migration>) returns (statuses: seq<E.Status>)
    ensures |statuses| == |pending|
      && forall j :: 0 <= j < |pending| ==> statuses[j] == E.Status(pending[j].version, E.Pending)
  {
    statuses := [];
    for i := 0 to |pending|
      invariant |statuses| == i && forall j :: 0 <= j < i ==> statuses[j] == E.Status(pending[j].version, E.Pending)
    {
      statuses := statuses + [E.Status(pending[i].version, E.Pending)];
    }
  }

  // ---------- down ----------

  /** The applied versions by time and then by version. */
  method GetAppliedMigrationsOrdered(history: map<string, int>) returns (applied: seq<string>)
    ensures applied == E.Recorded(history)
  {
    applied := [];
    var left := history.Keys;
    while left != {}
      invariant left <= history.Keys && forall v :: v in applied <==> v in history.Keys - left
      invariant forall v :: v in applied ==> v in history
      invariant forall i, j :: 0 <= i < j < |applied| ==> E.Before(history, applied[i], applied[j])
      decreases left
    {
      var v :| v in left;
      left := left - {v};
      applied := InsertByTime(history, applied, v);
    }
    E.RecordedIsUnique(applied, E.Recorded(history), history);
  }

  method InsertByTime(history: map<string, int>, s: seq<string>, v: string) returns (r: seq<string>)
    requires v in history && v !in s && forall w :: w in s ==> w in history
    requires forall i, j :: 0 <= i < j < |s| ==> E.Before(history, s[i], s[j])
    ensures forall w :: w in r <==> w in s || w == v
    ensures forall i, j :: 0 <= i < j < |r| ==> E.Before(history, r[i], r[j])
  {
    var k := |s|;
    while k > 0 && E.Before(history, v, s[k - 1])
      invariant 0 <= k <= |s| && forall i :: k <= i < |s| ==> E.Before(history, v, s[i])
    {
      k := k - 1;
    }
    r := s[..k] + [v] + s[k..];
    InsertedIsOrdered(history, s, v, k);
  }

  /** A version goes behind all that it is not before. */
  lemma InsertedIsOrdered(history: map<string, int>, s: seq<string>, v: string, k: nat)
    requires v in history && v !in s && (forall w :: w in s ==> w in history) && k <= |s|
    requires forall i, j :: 0 <= i < j < |s| ==> E.Before(history, s[i], s[j])
    requires (k > 0 ==> !E.Before(history, v, s[k - 1])) && forall i :: k <= i < |s| ==> E.Before(history, v, s[i])
    ensures
      var r := s[..k] + [v] + s[k..];
      (forall w :: w in r <==> w in s || w == v) && forall i, j :: 0 <= i < j < |r| ==> E.Before(history, r[i], r[j])
  {
    if k > 0 {
      E.BeforeIsTotal(history, s[k - 1], v);
      forall i | 0 <= i < k - 1 ensures E.Before(history, s[i], v) { E.BeforeIsTransitive(history, s[i], s[k - 1], v); }
    }
    hide E.Before;
    assert s == s[..k] + s[k..];
  }

  method IndexByVersion(ms: seq<Migration>) returns (m: map<string, Migration>)
    ensures forall v :: (v in m <==> E.OnDisk(ms, v).Some?) && (v in m ==> m[v] == E.OnDisk(ms, v).value)
  {
    m := map[];
    for i := 0 to |ms|
      invariant forall v :: (v in m <==> E.OnDisk(ms[..i], v).Some?) && (v in m ==> m[v] == E.OnDisk(ms[..i], v).value)
    {
      m := m[ms[i].version := ms[i]];
      assert ms[..i + 1][..i] == ms[..i];
    }
    assert ms[..|ms|] == ms;
  }

  /** Undoes the last versions first, up to the first failure or missing file. */
  method UndoBackwards(db: Database, disk: seq<Migration>, target: seq<string>, turns: seq<E.Turn>)
      returns (statuses: seq<E.Status>, ok: bool)
    modifies db
    ensures E.Report(db.View(), statuses, ok) == E.UndoAll(old(db.View()), disk, Reversed(target), turns)
  {
    var byVersion := IndexByVersion(disk);
    ghost var all := Reversed(target);
    ReversedIs(target);
    assert target[..|target|] == target && all[..0] == [];
    statuses, ok := [], true;
    for i := |target| downto 0
      invariant |all| == |target| && all[|target| - i..] == Reversed(target[..i])
      invariant ok && E.Report(db.View(), statuses, ok) == E.UndoAll(old(db.View()), disk, all[..|target| - i], turns)
    {
      NextUndone(target, all, i);
      hide Reversed;
      var n := |target| - 1 - i;
      assert all[..n + 1][..n] == all[..n] && all[n] == target[i];
      if target[i] !in byVersion {
        ok := false;
        MissingEnds(old(db.View()), disk, all, turns, n + 1);
        return;
      }
      var status;
      status, ok := ExecuteMigration(db, byVersion[target[i]], false, E.TurnAt(turns, n));
      statuses := statuses + [status];
      if !ok {
        MissingEnds(old(db.View()), disk, all, turns, n + 1);
        return;
      }
    }
    assert all[..|target|] == all;
  }

  lemma NextUndone(target: seq<string>, all: seq<string>, i: nat)
    requires i < |target| == |all| && all[|target| - 1 - i..] == Reversed(target[..i + 1])
    ensures all[|target| - 1 - i] == target[i] && all[|target| - i..] == Reversed(target[..i])
  {
    var rest := all[|target| - 1 - i..];
    ReversedLast(target[..i + 1]);
    assert target[..i + 1][..i] == target[..i];
    assert rest[0] == target[i] && rest[1..] == all[|target| - i..];
  }

  lemma {:induction false} MissingEnds(d: E.Db, disk: seq<Migration>, vs: seq<string>, turns: seq<E.Turn>, i: nat)
    requires i <= |vs| && !E.UndoAll(d, disk, vs[..i], turns).ok
    ensures E.UndoAll(d, disk, vs, turns) == E.UndoAll(d, disk, vs[..i], turns)
    decreases |vs| - i
  {
    if i == |vs| { assert vs[..i] == vs; } else {
      assert vs[..i + 1][..i] == vs[..i];
      MissingEnds(d, disk, vs, turns, i + 1);
    }
  }

  method MigrateDown(db: Database, disk: seq<Migration>, steps: nat, readable: bool, turns: seq<E.Turn>)
    returns (statuses: seq<E.Status>, ok: bool)
    modifies db
    ensures E.Report(db.View(), statuses, ok) == E.MigrateDown(old(db.View()), disk, steps, readable, turns)
  {
    if steps == 0 { return [], false; }
    if !readable { return [], false; }
    var applied := GetAppliedMigrationsOrdered(db.history);
    if |applied| == 0 { return [], true; }
    var start := 0;
    if steps < |applied| { start := |applied| - steps; }
    assert applied[0..] == applied;
    statuses, ok := UndoBackwards(db, disk, applied[start..], turns);
  }

  // ---------- plans ----------

  method CreateRollbackPlan(db: Database, disk: seq<Migration>, target: string, readable: bool)
      returns (r: E.PlanResult)
    ensures r == E.CreateRollbackPlan(db.View(), disk, target, readable)
  {
    hide E.IsRecorded;
    if target == "" { return E.NoPlan; }
    var byVersion := IndexByVersion(disk);
    if target !in byVersion { return E.NoPlan; }
    if !readable { return E.NoPlan; }
    var applied := GetAppliedMigrationsOrdered(db.history);
    NoneRecorded(db.history);
    if |applied| == 0 { return E.NoPlan; }
    var current := applied[|applied| - 1];
    var toRollback := [];
    for i := 0 to |disk|
      invariant toRollback == E.Above(disk[..i], target, current)
    {
      assert disk[..i + 1][..i] == disk[..i];
      if Less(target, disk[i].version) && !Less(current, disk[i].version) { toRollback := toRollback + [disk[i]]; }
    }
    assert disk[..|disk|] == disk;
    r := E.Plan(current, StableSort(toRollback, E.NewestFirst()));
  }

  lemma NoneRecorded(history: map<string, int>)
    ensures E.Recorded(history) == [] <==> history == map[]
  {
    var s := E.Recorded(history);
    assert s != [] ==> s[0] in s;
    if s == [] { assert forall v :: v in history ==> v in s; }
  }

  /** Returns how many were rolled back besides whether all were. */
  method ExecuteRollback(db: Database, plan: seq<Migration>, turns: seq<E.Turn>) returns (rolledBack: nat, ok: bool)
    modifies db
    ensures
      var r := E.ExecuteRollback(old(db.View()), plan, turns);
      db.View() == r.db && ok == r.ok && rolledBack == E.Done(r)
  {
    rolledBack, ok := 0, true;
    for i := 0 to |plan|
      invariant ok
      invariant var r := E.ExecuteAll(old(db.View()), plan[..i], false, turns);
                db.View() == r.db && r.ok && rolledBack == |r.statuses| && E.Done(r) == |r.statuses|
    {
      assert plan[..i + 1][..i] == plan[..i];
      var status;
      status, ok := ExecuteMigration(db, plan[i], false, E.TurnAt(turns, i));
      if !ok {
        E.FailureEnds(old(db.View()), plan, false, turns, i + 1);
        return;
      }
      rolledBack := rolledBack + 1;
    }
    assert plan[..|plan|] == plan;
  }

  method ReverseInPlace(a: array<Migration>)
    modifies a
    ensures a[..] == Reversed(old(a[..]))
  {
    var i, j := 0, a.Length - 1;
    ghost var was := a[..];
    while i < j
      invariant 0 <= i <= j + 1 && i + j == a.Length - 1
      invariant forall k :: 0 <= k < i ==> a[k] == was[a.Length - 1 - k]
      invariant forall k :: j < k < a.Length ==> a[k] == was[a.Length - 1 - k]
      invariant forall k :: i <= k <= j ==> a[k] == was[k]
    {
      a[i], a[j] := a[j], a[i];
      i, j := i + 1, j - 1;
    }
    ReversedIs(was);
    assert a[..] == Reversed(was);
  }

  /** A plan's migrations in order going up and from last to first going down. */
  method ExecuteMigrationPlan(db: Database, ms: seq<Migration>, up: bool, turns: seq<E.Turn>)
      returns (statuses: seq<E.Status>, ok: bool)
    modifies db
    ensures E.Report(db.View(), statuses, ok)
      == E.ExecuteAll(old(db.View()), if up then ms else Reversed(ms), up, turns)
  {
    if |ms| == 0 { return [], true; }
    var ordered := new Migration[|ms|](i requires 0 <= i < |ms| => ms[i]);
    assert ordered[..] == ms;
    if !up { ReverseInPlace(ordered); }
    statuses, ok := ExecuteInOrder(db, ordered[..], up, turns);
  }
}
