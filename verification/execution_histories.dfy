/**
 What migrating and rolling back do from any history, whether or not it is a prefix of the files: files may have been
 added late, removed, or repeated, and the clock may have been set back.
 */
module ExecutionHistories {
  import opened Wrappers
  import opened Order
  import opened Schema
  import opened Squash
  import opened Execution
  import opened ExecutionSafety

  // ---------- a list of migrations, in whatever order ----------

  /** Nothing outside stops the migration before its commit. */
  predicate Commits(m: Migration, up: bool, t: Turn) {
    match t.fault
    case AtStatement(i) => i >= |Script(m, up)|
    case f => f == Fine || f == AtHistory
  }

  /**
   Migration `i` succeeds, if those before it do: nothing stops it, it has a version to record, and going up that is
   recorded neither before nor by one of them.
   */
  predicate Succeeds(d: Db, ms: seq<Migration>, up: bool, turns: seq<Turn>, i: nat)
    requires i < |ms|
  {
    var m, t := ms[i], TurnAt(turns, i);
    && Commits(m, up, t) && t.fault != AtHistory && m.version != ""
    && (up ==> m.version !in d.history && forall k :: 0 <= k < i ==> ms[k].version != m.version)
  }

  /** The first `n` migrations succeed and the next one, if there is one, does not. */
  predicate StopAt(d: Db, ms: seq<Migration>, up: bool, turns: seq<Turn>, n: nat) {
    && n <= |ms| && (forall i :: 0 <= i < n ==> Succeeds(d, ms, up, turns, i))
    && (n < |ms| ==> !Succeeds(d, ms, up, turns, n))
  }

  function Waited(turns: seq<Turn>, n: nat): int {
    if n == 0 then 0 else Waited(turns, n - 1) + TurnAt(turns, n - 1).wait
  }

  /** The first `n` are recorded at the end of their turns, or are recorded no longer; nothing else changes. */
  ghost predicate HistoryOf(d: Db, ms: seq<Migration>, up: bool, turns: seq<Turn>, n: nat, after: map<string, int>)
    requires n <= |ms|
  {
    && (forall v :: v in after <==>
      if up then v in d.history || exists i :: 0 <= i < n && ms[i].version == v
      else v in d.history && forall i :: 0 <= i < n ==> ms[i].version != v)
    && (forall v :: v in after && v in d.history ==> after[v] == d.history[v])
    && (up ==>
      forall i :: 0 <= i < n ==> ms[i].version in after && after[ms[i].version] == d.clock + Waited(turns, i + 1))
  }

  function Scripts(ms: seq<Migration>, up: bool): seq<Statement> {
    if ms == [] then [] else Scripts(ms[..|ms| - 1], up) + Script(ms[|ms| - 1], up)
  }

  /** The statements that reach the schema: those of the migrations that succeed, and of a last one that commits. */
  function Committed(ms: seq<Migration>, up: bool, turns: seq<Turn>, n: nat): seq<Statement>
    requires n <= |ms|
  {
    Scripts(ms[..n], up) + if n < |ms| && Commits(ms[n], up, TurnAt(turns, n)) then Script(ms[n], up) else []
  }

  predicate StatusesAre(ms: seq<Migration>, n: nat, statuses: seq<Status>)
    requires n <= |ms|
  {
    && |statuses| == (if n < |ms| then n + 1 else n)
    && forall i ::
      0 <= i < |statuses| ==> statuses[i] == Status(ms[i].version, if i < n then Applied else Outcome.Failed)
  }

  /** All there is to say about a run that stops at `n`. */
  ghost predicate EndsAt(d: Db, ms: seq<Migration>, up: bool, turns: seq<Turn>, n: nat, r: Report) {
    && StopAt(d, ms, up, turns, n) && (r.ok <==> n == |ms|)
    && HistoryOf(d, ms, up, turns, n, r.db.history)
    && r.db.schema == Run(Committed(ms, up, turns, n), d.schema)
    && r.db.clock == d.clock + Waited(turns, if n < |ms| then n + 1 else n)
    && StatusesAre(ms, n, r.statuses)
  }

  lemma SameBefore(d: Db, init: seq<Migration>, m: Migration, up: bool, turns: seq<Turn>)
    ensures forall i :: 0 <= i < |init| ==> (Succeeds(d, init + [m], up, turns, i) <==> Succeeds(d, init, up, turns, i))
  {
    assert forall k :: 0 <= k < |init| ==> (init + [m])[k] == init[k];
  }

  /** A run that has stopped does not go on. */
  lemma StaysStopped(d: Db, init: seq<Migration>, m: Migration, up: bool, turns: seq<Turn>, n: nat, p: Report)
    requires EndsAt(d, init, up, turns, n, p) && !p.ok
    ensures EndsAt(d, init + [m], up, turns, n, p)
  {
    var ms := init + [m];
    SameBefore(d, init, m, up, turns);
    assert ms[..n] == init[..n] && ms[n] == init[n];
    hide Succeeds, Run, Scripts, Commits, Waited;
    assert Committed(ms, up, turns, n) == Committed(init, up, turns, n);
  }

  lemma NextSucceedsIf(d: Db, init: seq<Migration>, m: Migration, up: bool, turns: seq<Turn>, p: Report)
    requires EndsAt(d, init, up, turns, |init|, p)
    ensures Execute(p.db, m, up, TurnAt(turns, |init|)).1 <==> Succeeds(d, init + [m], up, turns, |init|)
  {
    hide Run, Committed, Waited, StatusesAre;
    assert forall k :: 0 <= k < |init| ==> (init + [m])[k] == init[k];
  }

  lemma OneMoreRecorded(d: Db, init: seq<Migration>, m: Migration, turns: seq<Turn>, h: map<string, int>)
    requires HistoryOf(d, init, true, turns, |init|, h) && m.version !in h
    ensures HistoryOf(d, init + [m], true, turns, |init| + 1, h[m.version := d.clock + Waited(turns, |init| + 1)])
  {
    hide Waited;
    var ms := init + [m];
    assert forall k :: 0 <= k < |init| ==> ms[k] == init[k];
    forall k | 0 <= k < |init| ensures m.version != ms[k].version { assert init[k].version in h; }
    assert ms[|init|] == m;
  }

  lemma OneMoreUnrecorded(d: Db, init: seq<Migration>, m: Migration, turns: seq<Turn>, h: map<string, int>)
    requires HistoryOf(d, init, false, turns, |init|, h)
    ensures HistoryOf(d, init + [m], false, turns, |init| + 1, h - {m.version})
  {
    var ms, after := init + [m], h - {m.version};
    assert ms[|init|] == m;
    forall v ensures v in after <==> v in d.history && forall i :: 0 <= i < |ms| ==> ms[i].version != v {
      if forall i :: 0 <= i < |ms| ==> ms[i].version != v {
        forall i | 0 <= i < |init| ensures init[i].version != v { assert ms[i].version != v; }
      }
    }
  }

  lemma SameRecorded(d: Db, init: seq<Migration>, m: Migration, up: bool, turns: seq<Turn>, h: map<string, int>)
    requires HistoryOf(d, init, up, turns, |init|, h)
    ensures HistoryOf(d, init + [m], up, turns, |init|, h)
  {
    hide Waited;
    assert forall k :: 0 <= k < |init| ==> (init + [m])[k] == init[k];
  }

  lemma NextHistory(d: Db, init: seq<Migration>, m: Migration, up: bool, turns: seq<Turn>, p: Report)
    requires EndsAt(d, init, up, turns, |init|, p)
    ensures
      var ms, (e, ok) := init + [m], Execute(p.db, m, up, TurnAt(turns, |init|));
      && HistoryOf(d, ms, up, turns, if ok then |ms| else |init|, e.history)
      && e.clock == d.clock + Waited(turns, |ms|)
  {
    hide Run, Committed, StatusesAre, StopAt, HistoryOf;
    var ok := Execute(p.db, m, up, TurnAt(turns, |init|)).1;
    if !ok {
      SameRecorded(d, init, m, up, turns, p.db.history);
    } else if up {
      OneMoreRecorded(d, init, m, turns, p.db.history);
    } else {
      OneMoreUnrecorded(d, init, m, turns, p.db.history);
    }
  }

  lemma NextSchema(d: Db, init: seq<Migration>, m: Migration, up: bool, turns: seq<Turn>, p: Report)
    requires EndsAt(d, init, up, turns, |init|, p)
    ensures
      var ms, (e, ok) := init + [m], Execute(p.db, m, up, TurnAt(turns, |init|));
      e.schema == Run(Committed(ms, up, turns, if ok then |ms| else |init|), d.schema)
  {
    hide HistoryOf, StatusesAre, StopAt, Waited, Run;
    var ms, t := init + [m], TurnAt(turns, |init|);
    assert ms[..|init|] == init && init[..|init|] == init && ms[..|ms|] == ms && ms[..|ms| - 1] == init;
    assert Scripts(init, up) + [] == Scripts(init, up) && Scripts(ms, up) + [] == Scripts(ms, up);
    RunConcat(Scripts(init, up), Script(m, up), d.schema);
  }

  lemma StopsLater(d: Db, init: seq<Migration>, m: Migration, up: bool, turns: seq<Turn>, ok: bool)
    requires StopAt(d, init, up, turns, |init|) && (ok <==> Succeeds(d, init + [m], up, turns, |init|))
    ensures StopAt(d, init + [m], up, turns, if ok then |init| + 1 else |init|)
  {
    SameBefore(d, init, m, up, turns);
    hide Succeeds;
  }

  lemma OneMoreStatus(init: seq<Migration>, m: Migration, statuses: seq<Status>, ok: bool)
    requires StatusesAre(init, |init|, statuses)
    ensures StatusesAre(init + [m], if ok then |init| + 1 else |init|,
      statuses + [Status(m.version, if ok then Applied else Outcome.Failed)])
  {
  }

  lemma GoesOn(d: Db, init: seq<Migration>, m: Migration, up: bool, turns: seq<Turn>, p: Report)
    requires EndsAt(d, init, up, turns, |init|, p)
    ensures
      var ms, r := init + [m], Continue(p, m, up, TurnAt(turns, |init|));
      EndsAt(d, ms, up, turns, if r.ok then |ms| else |init|, r)
  {
    var ok := Execute(p.db, m, up, TurnAt(turns, |init|)).1;
    NextSucceedsIf(d, init, m, up, turns, p);
    NextHistory(d, init, m, up, turns, p);
    NextSchema(d, init, m, up, turns, p);
    hide Succeeds, Execute, HistoryOf, Committed, Run, Waited, StopAt, StatusesAre;
    StopsLater(d, init, m, up, turns, ok);
    OneMoreStatus(init, m, p.statuses, ok);
  }

  /** Every run is determined by where the first migration is that does not succeed. */
  lemma {:induction false} RunEnds(d: Db, ms: seq<Migration>, up: bool, turns: seq<Turn>) returns (n: nat)
    ensures EndsAt(d, ms, up, turns, n, ExecuteAll(d, ms, up, turns))
  {
    if ms == [] {
      n := 0;
      hide Run;
      assert Committed(ms, up, turns, 0) == [];
      assert Run([], d.schema) == d.schema by { RunNothing(d.schema); }
    } else {
      var init, m := ms[..|ms| - 1], ms[|ms| - 1];
      assert ms == init + [m];
      n := RunEnds(d, init, up, turns);
      OneMore(d, ms, up, turns);
      var p := ExecuteAll(d, init, up, turns);
      assert p.ok ==> n == |init|;
      hide EndsAt, ExecuteAll, Continue;
      if p.ok {
        GoesOn(d, init, m, up, turns, p);
        n := if ExecuteAll(d, ms, up, turns).ok then |ms| else |init|;
      } else {
        StaysStopped(d, init, m, up, turns, n, p);
        Stopped(p, m, up, TurnAt(turns, |init|));
      }
    }
  }

  lemma Stopped(p: Report, m: Migration, up: bool, t: Turn)
    requires !p.ok
    ensures Continue(p, m, up, t) == p
  {
    hide Execute;
  }

  lemma RunNothing(s: State)
    ensures Run([], s) == s
  {
  }

  // ---------- up ----------

  /** In version order, and of each version all the files, in their order, or none if it is recorded. */
  ghost predicate IsPending(disk: seq<Migration>, history: map<string, int>, ms: seq<Migration>) {
    && (forall i, j :: 0 <= i < j < |ms| ==> !Less(ms[j].version, ms[i].version))
    && (forall v :: Only(ms, OfVersion(v)) == if v in history then [] else Only(disk, OfVersion(v)))
    && (forall m :: m in ms <==> m in disk && m.version !in history)
  }

  lemma {:induction false} UnappliedAreOf(disk: seq<Migration>, history: map<string, int>, v: string)
    ensures Only(Unapplied(disk, history), OfVersion(v)) == if v in history then [] else Only(disk, OfVersion(v))
  {
    if disk != [] {
      var init, m := disk[..|disk| - 1], disk[|disk| - 1];
      assert disk == init + [m];
      var rest := Unapplied(init, history);
      assert Unapplied(disk, history) == if m.version in history then rest else rest + [m];
      UnappliedAreOf(init, history, v);
      hide Only, Unapplied;
      OnlyMore(init, m, OfVersion(v));
      OnlyMore(rest, m, OfVersion(v));
    }
  }

  lemma {:induction false} UnappliedMembers(disk: seq<Migration>, history: map<string, int>)
    ensures forall m :: m in Unapplied(disk, history) <==> m in disk && m.version !in history
  {
    if disk != [] {
      UnappliedMembers(disk[..|disk| - 1], history);
      assert disk == disk[..|disk| - 1] + [disk[|disk| - 1]];
    }
  }

  /**
   Without a number of steps, what is pending are exactly the files whose version is not recorded, in version order,
   those merged late included; with one, the first that many.
   */
  lemma PendingIsUnrecorded(disk: seq<Migration>, history: map<string, int>, steps: nat)
    ensures
      var all, ms := PendingMigrations(disk, history, 0), PendingMigrations(disk, history, steps);
      && IsPending(disk, history, all)
      && |ms| == Count(steps, |all|) <= |all| && ms == all[..|ms|]
  {
    var all := PendingMigrations(disk, history, 0);
    AllPending(disk, history);
    assert PendingMigrations(disk, history, steps) == all[..Count(steps, |all|)];
  }

  lemma AllPending(disk: seq<Migration>, history: map<string, int>)
    ensures IsPending(disk, history, PendingMigrations(disk, history, 0))
  {
    var chosen := Unapplied(disk, history);
    var all := StableSort(chosen, InVersionOrder());
    UnappliedMembers(disk, history);
    SortedByVersion(chosen);
    hide Unapplied, StableSort, Only, Less;
    forall m ensures m in all <==> m in chosen { assert m in all <==> m in multiset(all); }
    forall v ensures Only(all, OfVersion(v)) == if v in history then [] else Only(disk, OfVersion(v)) {
      UnappliedAreOf(disk, history, v);
    }
  }

  /** A set is invalid if two files share a version, a file has no statements, or one depends on a missing version. */
  lemma InvalidExactlyIf(disk: seq<Migration>)
    ensures !Valid(disk) <==>
      || (exists i, j :: 0 <= i < |disk| && 0 <= j < |disk| && i != j && disk[i].version == disk[j].version)
      || (exists i :: 0 <= i < |disk| && |disk[i].up| == 0)
      || (exists i, k :: 0 <= i < |disk| && 0 <= k < |disk[i].dependsOn| && disk[i].dependsOn[k] !in Versions(disk))
  {
    if !Valid(disk) && forall i, j :: 0 <= i < j < |disk| ==> disk[i].version != disk[j].version {
      var m :| m in disk && !(m.up != [] && forall v :: v in m.dependsOn ==> exists n :: n in disk && n.version == v);
      var i :| 0 <= i < |disk| && disk[i] == m;
      if m.up != [] {
        var v :| v in m.dependsOn && !exists n :: n in disk && n.version == v;
        var k :| 0 <= k < |m.dependsOn| && m.dependsOn[k] == v;
      }
    }
    if Valid(disk) {
      forall i, k | 0 <= i < |disk| && 0 <= k < |disk[i].dependsOn| ensures disk[i].dependsOn[k] in Versions(disk) {
        assert disk[i] in disk && disk[i].dependsOn[k] in disk[i].dependsOn;
        var n :| n in disk && n.version == disk[i].dependsOn[k];
        var j :| 0 <= j < |disk| && disk[j] == n;
        assert Versions(disk)[j] == n.version;
      }
    }
  }

  /**
   Going up runs what is pending: refused only for an invalid set that is to be refused or an unreadable database, and
   for a dry run nothing is done.
   */
  lemma UpRuns(d: Db, disk: seq<Migration>, o: Options, readable: bool, turns: seq<Turn>) returns (n: nat)
    ensures
      var r, ms := MigrateUp(d, disk, o, readable, turns), PendingMigrations(disk, d.history, o.steps);
      if (o.failOnValidation && !Valid(disk)) || !readable then r == Report(d, [], false)
      else if o.dryRun
      then r.db == d && r.ok && |r.statuses| == |ms|
        && forall i :: 0 <= i < |ms| ==> r.statuses[i] == Status(ms[i].version, Pending)
      else EndsAt(d, ms, true, turns, n, r)
  {
    hide PendingMigrations, Valid, ExecuteAll, EndsAt;
    n := RunEnds(d, PendingMigrations(disk, d.history, o.steps), true, turns);
  }

  /** After success without a number of steps, the version of every file is recorded, and nothing that was is lost. */
  lemma UpRecordsEveryFile(d: Db, disk: seq<Migration>, o: Options, readable: bool, turns: seq<Turn>)
    requires o.steps == 0 && !o.dryRun && MigrateUp(d, disk, o, readable, turns).ok
    ensures
      var after := MigrateUp(d, disk, o, readable, turns).db.history;
      && (forall v :: v in after <==> v in d.history || exists m :: m in disk && m.version == v)
      && (forall v :: v in d.history ==> after[v] == d.history[v])
  {
    var n := UpRuns(d, disk, o, readable, turns);
    PendingIsUnrecorded(disk, d.history, 0);
    var ms, after := PendingMigrations(disk, d.history, 0), MigrateUp(d, disk, o, readable, turns).db.history;
    hide PendingMigrations, MigrateUp, Run, Committed, Waited, StopAt, Only, Less, StatusesAre;
    assert n == |ms|;
    forall v ensures v in after <==> v in d.history || exists m :: m in disk && m.version == v {
      if v !in d.history {
        if m :| m in disk && m.version == v { assert m in ms; }
        if i :| 0 <= i < |ms| && ms[i].version == v { assert ms[i] in ms; }
      }
    }
  }

  // ---------- down ----------

  /** The last of the files of that version. */
  predicate IsFileOf(disk: seq<Migration>, v: string, m: Migration) {
    exists i :: 0 <= i < |disk| && disk[i] == m && m.version == v && forall j :: i < j < |disk| ==> disk[j].version != v
  }

  lemma {:induction false} FoundOnDisk(disk: seq<Migration>, v: string)
    ensures OnDisk(disk, v).Some? ==> IsFileOf(disk, v, OnDisk(disk, v).value)
  {
    if disk != [] {
      var init, last := disk[..|disk| - 1], disk[|disk| - 1];
      assert disk == init + [last];
      FoundOnDisk(init, v);
      assert OnDisk(disk, v) == if last.version == v then Some(last) else OnDisk(init, v);
      hide OnDisk;
      if last.version == v {
        assert disk[|disk| - 1] == last;
      } else if OnDisk(disk, v).Some? {
        FileStays(init, last, v, OnDisk(init, v).value);
      }
    }
  }

  lemma FileStays(init: seq<Migration>, last: Migration, v: string, m: Migration)
    requires IsFileOf(init, v, m) && last.version != v
    ensures IsFileOf(init + [last], v, m)
  {
    var i :| 0 <= i < |init| && init[i] == m && m.version == v && forall j :: i < j < |init| ==> init[j].version != v;
    assert (init + [last])[i] == m;
  }

  /** `ms` are the files of the given versions up to the first that has none. */
  predicate AreFilesOf(disk: seq<Migration>, versions: seq<string>, ms: seq<Migration>) {
    && |ms| <= |versions| && (forall q :: 0 <= q < |ms| ==> IsFileOf(disk, versions[q], ms[q]))
    && (|ms| < |versions| ==> forall m :: m in disk ==> m.version != versions[|ms|])
  }

  /** Undoing versions is undoing their files, up to the first that has none: that is a failure without a status. */
  lemma {:induction false} UndoAllRuns(d: Db, disk: seq<Migration>, versions: seq<string>, turns: seq<Turn>)
      returns (ms: seq<Migration>)
    ensures AreFilesOf(disk, versions, ms)
    ensures
      var x := ExecuteAll(d, ms, false, turns);
      UndoAll(d, disk, versions, turns) == x.(ok := x.ok && |ms| == |versions|)
  {
    hide IsFileOf;
    if versions == [] {
      ms := [];
    } else {
      var init, v := versions[..|versions| - 1], versions[|versions| - 1];
      ms := UndoAllRuns(d, disk, init, turns);
      FoundOnDisk(disk, v);
      var x := ExecuteAll(d, ms, false, turns);
      hide Execute;
      if |ms| == |init| && OnDisk(disk, v).Some? {
        var m := OnDisk(disk, v).value;
        assert (ms + [m])[..|ms|] == ms;
        ms := ms + [m];
      }
    }
  }

  /**
   Going down undoes the versions recorded last, latest first, each by the last of its files, up to the first that
   cannot be undone or has no file. It is refused only for no steps or an unreadable database.
   */
  lemma DownRuns(d: Db, disk: seq<Migration>, steps: nat, readable: bool, turns: seq<Turn>)
      returns (applied: seq<string>, ms: seq<Migration>, n: nat)
    ensures IsRecorded(applied, d.history)
    ensures
      var latest := seq(Count(steps, |applied|), q requires 0 <= q < Count(steps, |applied|) <= |applied| =>
        applied[|applied| - 1 - q]);
      var r, x := MigrateDown(d, disk, steps, readable, turns), ExecuteAll(d, ms, false, turns);
      if steps == 0 || !readable then r == Report(d, [], false)
      else
        AreFilesOf(disk, latest, ms) && r == x.(ok := x.ok && |ms| == |latest|) && EndsAt(d, ms, false, turns, n, x)
  {
    applied, ms, n := Recorded(d.history), [], 0;
    var latest := seq(Count(steps, |applied|), q requires 0 <= q < Count(steps, |applied|) <= |applied| =>
      applied[|applied| - 1 - q]);
    hide IsRecorded, UndoAll, EndsAt, ExecuteAll, AreFilesOf, OnDisk;
    if steps > 0 {
      ReversedIs(LastOf(applied, steps));
      hide Reversed;
      assert Reversed(LastOf(applied, steps)) == latest;
      ms := UndoAllRuns(d, disk, latest, turns);
      n := RunEnds(d, ms, false, turns);
    }
  }

  // ---------- back to a version ----------

  lemma {:induction false} AboveAreOf(disk: seq<Migration>, target: string, current: string, v: string)
    ensures Only(Above(disk, target, current), OfVersion(v))
      == if Less(target, v) && !Less(current, v) then Only(disk, OfVersion(v)) else []
  {
    hide Less;
    if disk != [] {
      var init, m := disk[..|disk| - 1], disk[|disk| - 1];
      assert disk == init + [m];
      var rest := Above(init, target, current);
      assert Above(disk, target, current)
        == if Less(target, m.version) && !Less(current, m.version) then rest + [m] else rest;
      AboveAreOf(init, target, current, v);
      hide Only, Above;
      OnlyMore(init, m, OfVersion(v));
      OnlyMore(rest, m, OfVersion(v));
    }
  }

  lemma NewestFirstIsPreorder(s: seq<Migration>)
    ensures IsPreorder(multiset(s), NewestFirst())
  {
    var all, le := multiset(s), NewestFirst();
    VersionOrderIsPreorder(s);
    hide Less;
    var up := InVersionOrder();
    forall a, b ensures le(a, b) <==> up(b, a) {}
  }

  /** Newest first, and of each version above the target and not above `from` all the files, recorded or not. */
  ghost predicate IsPlan(disk: seq<Migration>, target: string, from: string, ms: seq<Migration>) {
    && (forall i, j :: 0 <= i < j < |ms| ==> !Less(ms[i].version, ms[j].version))
    && forall v ::
      Only(ms, OfVersion(v)) == if Less(target, v) && !Less(from, v) then Only(disk, OfVersion(v)) else []
  }

  /**
   A plan is refused exactly without a target, a file for it, or a readable history that is not empty. It starts at the
   version recorded last and holds every file between, also one that was never applied.
   */
  lemma RollbackPlanIs(d: Db, disk: seq<Migration>, target: string, readable: bool)
    ensures
      var p := CreateRollbackPlan(d, disk, target, readable);
      && (p.NoPlan? <==>
        target == "" || (forall m :: m in disk ==> m.version != target) || !readable || d.history == map[])
      && (p.Plan? ==>
        && p.from in d.history && (forall v :: v in d.history && v != p.from ==> Before(d.history, v, p.from))
        && IsPlan(disk, target, p.from, p.migrations))
  {
    var p := CreateRollbackPlan(d, disk, target, readable);
    if p.Plan? {
      var applied := Recorded(d.history);
      assert p.from in applied;
      forall v | v in d.history && v != p.from ensures Before(d.history, v, p.from) {
        var i :| 0 <= i < |applied| && applied[i] == v;
        assert Before(d.history, applied[i], applied[|applied| - 1]);
      }
      PlanIsSorted(disk, target, p.from);
    }
    hide IsRecorded, Above, StableSort, IsPlan, Before;
  }

  lemma PlanIsSorted(disk: seq<Migration>, target: string, from: string)
    ensures IsPlan(disk, target, from, StableSort(Above(disk, target, from), NewestFirst()))
  {
    var chosen, le := Above(disk, target, from), NewestFirst();
    var ms := StableSort(chosen, le);
    NewestFirstIsPreorder(chosen);
    SortOrders(chosen, le);
    hide StableSort, Above, Only, Less;
    forall i, j | 0 <= i < j < |ms| ensures !Less(ms[i].version, ms[j].version) { assert le(ms[i], ms[j]); }
    forall v ensures Only(ms, OfVersion(v))
      == if Less(target, v) && !Less(from, v) then Only(disk, OfVersion(v)) else []
    {
      LessIsTotal(v, v);
      SortIsStable(chosen, le, OfVersion(v));
      AboveAreOf(disk, target, from, v);
    }
  }
}
