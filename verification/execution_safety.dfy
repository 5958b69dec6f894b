/** What holds after any sequence of migrations and rollbacks, whatever fails. */
module ExecutionSafety {
  import opened Wrappers
  import opened Order
  import opened Schema
  import opened Squash
  import opened Execution

  /** Migration files as discovered: ascending by version, every version non-empty. */
  ghost predicate Files(disk: seq<Migration>) {
    && (forall i, j :: 0 <= i < j < |disk| ==> Less(disk[i].version, disk[j].version))
    && (forall i :: 0 <= i < |disk| ==> disk[i].version != "")
  }

  lemma FilesAreDistinct(disk: seq<Migration>, i: nat, j: nat)
    requires Files(disk) && i < |disk| && j < |disk|
    ensures disk[i].version == disk[j].version <==> i == j
    ensures Less(disk[i].version, disk[j].version) <==> i < j
  {
    LessIsTotal(disk[i].version, disk[j].version);
  }

  predicate Steady(turns: seq<Turn>) {
    forall t :: t in turns ==> t.wait >= 0
  }

  function Names(disk: seq<Migration>, i: nat, j: nat): set<string>
    requires i <= j <= |disk|
  {
    set n | i <= n < j :: disk[n].version
  }

  /** The first `k` files are recorded and no others, at times that do not decrease from version to version. */
  ghost predicate TrackedAt(d: Db, disk: seq<Migration>, k: nat) {
    && k <= |disk|
    && d.history.Keys == Names(disk, 0, k)
    && (forall i, j :: 0 <= i <= j < k ==> Time(d, disk, i) <= Time(d, disk, j) <= d.clock)
  }

  function Time(d: Db, disk: seq<Migration>, i: nat): int
    requires i < |disk|
  {
    if disk[i].version in d.history then d.history[disk[i].version] else 0
  }

  ghost predicate Tracked(d: Db, disk: seq<Migration>) {
    exists k :: TrackedAt(d, disk, k)
  }

  // ---------- one migration ----------

  /** Recording the next file keeps the history tracked. */
  lemma RecordNext(d: Db, disk: seq<Migration>, k: nat, e: Db)
    requires Files(disk) && TrackedAt(d, disk, k) && k < |disk| && e.clock >= d.clock
    requires e.history == d.history[disk[k].version := e.clock]
    ensures TrackedAt(e, disk, k + 1)
  {
    forall i | 0 <= i < k ensures Time(d, disk, i) == Time(e, disk, i) <= d.clock {
      FilesAreDistinct(disk, i, k);
      assert Time(d, disk, i) <= Time(d, disk, i) <= d.clock;
    }
    assert Time(e, disk, k) == e.clock;
    NamesMore(disk, 0, k);
    hide Time, Files;
    assert forall i, j :: 0 <= i <= j < k ==> Time(e, disk, i) <= Time(e, disk, j);
  }

  lemma NamesMore(disk: seq<Migration>, i: nat, j: nat)
    requires i <= j < |disk|
    ensures Names(disk, i, j + 1) == Names(disk, i, j) + {disk[j].version}
  {
  }

  lemma TrackedIsBounded(d: Db, disk: seq<Migration>, k: nat)
    requires TrackedAt(d, disk, k)
    ensures k <= |disk|
  {
  }

  lemma KeepTracked(d: Db, disk: seq<Migration>, k: nat, e: Db)
    requires TrackedAt(d, disk, k) && e.clock >= d.clock && e.history == d.history
    ensures TrackedAt(e, disk, k)
  {
    forall i | 0 <= i < k ensures Time(d, disk, i) == Time(e, disk, i) {}
  }

  lemma NextIsNew(d: Db, disk: seq<Migration>, k: nat)
    requires Files(disk) && TrackedAt(d, disk, k) && k < |disk|
    ensures disk[k].version !in d.history && disk[k].version != ""
  {
    forall i | 0 <= i < k ensures disk[i].version != disk[k].version { FilesAreDistinct(disk, i, k); }
  }

  lemma StepUp(d: Db, disk: seq<Migration>, k: nat, t: Turn)
    requires Files(disk) && TrackedAt(d, disk, k) && k < |disk| && t.wait >= 0
    ensures
      var (e, ok) := Execute(d, disk[k], true, t);
      && TrackedAt(e, disk, if ok then k + 1 else k)
      && (ok <==> !StopsBeforeCommit(disk[k].up, t.fault) && !t.fault.AtHistory?)
      && e.schema == if StopsBeforeCommit(disk[k].up, t.fault) then d.schema else Run(disk[k].up, d.schema)
  {
    hide TrackedAt, Files, Run;
    NextIsNew(d, disk, k);
    var (e, ok) := Execute(d, disk[k], true, t);
    if ok { RecordNext(d, disk, k, e); } else { KeepTracked(d, disk, k, e); }
  }

  lemma StepDown(d: Db, m: Migration, t: Turn)
    requires m.version != "" && t.wait >= 0
    ensures
      var (e, ok) := Execute(d, m, false, t);
      && e.history == (if ok then d.history - {m.version} else d.history) && e.clock >= d.clock
      && (ok <==> !StopsBeforeCommit(m.down, t.fault) && !t.fault.AtHistory?)
      && e.schema == if StopsBeforeCommit(m.down, t.fault) then d.schema else Run(m.down, d.schema)
  {
  }

  // ---------- several ----------

  /** Migrations whose statements are committed: those that succeeded, and the one whose history write failed. */
  function Reached(r: Report, turns: seq<Turn>): nat {
    Done(r) + if HistoryFailed(r, turns) then 1 else 0
  }

  /** The run stopped because the history of a committed migration could not be written. */
  predicate HistoryFailed(r: Report, turns: seq<Turn>) {
    !r.ok && |r.statuses| == Done(r) + 1 && TurnAt(turns, Done(r)).fault.AtHistory?
  }

  /** A report of `n` migrations in which everything but perhaps the last entry succeeded. */
  ghost predicate WellFormed(r: Report, ms: seq<Migration>) {
    && |r.statuses| <= |ms|
    && (forall i :: 0 <= i < |r.statuses| ==> r.statuses[i].version == ms[i].version)
    && (forall i :: 0 <= i < Done(r) ==> r.statuses[i].outcome == Applied)
    && (r.ok ==> Done(r) == |ms|)
    && (!r.ok ==> |r.statuses| == Done(r) + 1)
  }

  lemma {:induction false} ReportIsWellFormed(d: Db, ms: seq<Migration>, up: bool, turns: seq<Turn>)
    ensures WellFormed(ExecuteAll(d, ms, up, turns), ms)
  {
    if ms != [] { ReportIsWellFormed(d, ms[..|ms| - 1], up, turns); }
  }

  /** What undoing or repeating one more migration does to the count of those that succeeded. */
  lemma ContinueCounts(p: Report, ms: seq<Migration>, m: Migration, up: bool, t: Turn)
    requires WellFormed(p, ms) && p.ok
    ensures Done(p) == |p.statuses| == |ms|
    ensures
      var r := Continue(p, m, up, t);
      r.ok == Execute(p.db, m, up, t).1 && r.db == Execute(p.db, m, up, t).0 && Done(r) == |ms| + if r.ok then 1 else 0
  {
  }

  ghost predicate WentUp(d: Db, disk: seq<Migration>, k: nat, n: nat, turns: seq<Turn>, r: Report)
    requires k + n <= |disk|
  {
    && Reached(r, turns) <= n
    && TrackedAt(r.db, disk, k + Done(r))
    && r.db.schema == Run(MergedUp(disk[k..k + Reached(r, turns)]), d.schema)
  }

  lemma UpOneMore(d: Db, disk: seq<Migration>, k: nat, n: nat, turns: seq<Turn>, p: Report)
    requires Files(disk) && k + n < |disk| && Steady(turns)
    requires WentUp(d, disk, k, n, turns, p) && WellFormed(p, disk[k..k + n])
    ensures WentUp(d, disk, k, n + 1, turns, Continue(p, disk[k + n], true, TurnAt(turns, n)))
  {
    hide TrackedAt, Run, MergedUp, Files, Execute;
    var t := TurnAt(turns, n);
    assert t.wait >= 0;
    if p.ok {
      ContinueCounts(p, disk[k..k + n], disk[k + n], true, t);
      hide WellFormed, Done, Continue;
      StepUp(p.db, disk, k + n, t);
      MergeOneMore(disk, k, k + n, d.schema);
      assert WentUp(d, disk, k, n + 1, turns, Continue(p, disk[k + n], true, t));
    }
  }

  lemma NothingUp(d: Db, disk: seq<Migration>, k: nat, turns: seq<Turn>)
    requires TrackedAt(d, disk, k)
    ensures WentUp(d, disk, k, 0, turns, ExecuteAll(d, disk[k..k], true, turns))
  {
    assert disk[k..k] == [];
  }

  lemma OneMore(d: Db, ms: seq<Migration>, up: bool, turns: seq<Turn>)
    requires ms != []
    ensures ExecuteAll(d, ms, up, turns)
      == Continue(ExecuteAll(d, ms[..|ms| - 1], up, turns), ms[|ms| - 1], up, TurnAt(turns, |ms| - 1))
  {
  }

  lemma {:induction false} UpAll(d: Db, disk: seq<Migration>, k: nat, n: nat, turns: seq<Turn>)
    requires Files(disk) && TrackedAt(d, disk, k) && k + n <= |disk| && Steady(turns)
    ensures WentUp(d, disk, k, n, turns, ExecuteAll(d, disk[k..k + n], true, turns))
  {
    hide TrackedAt, WentUp, WellFormed, Continue, ExecuteAll, Files;
    if n == 0 {
      NothingUp(d, disk, k, turns);
    } else {
      var ms, init := disk[k..k + n], disk[k..k + n - 1];
      assert ms[..n - 1] == init && ms[n - 1] == disk[k + n - 1];
      UpAll(d, disk, k, n - 1, turns);
      ReportIsWellFormed(d, init, true, turns);
      OneMore(d, ms, true, turns);
      UpOneMore(d, disk, k, n - 1, turns, ExecuteAll(d, init, true, turns));
    }
  }

  lemma MergeOneMore(disk: seq<Migration>, i: nat, j: nat, s: State)
    requires i <= j < |disk|
    ensures Run(MergedUp(disk[i..j + 1]), s) == Run(disk[j].up, Run(MergedUp(disk[i..j]), s))
  {
    assert disk[i..j + 1][..j - i] == disk[i..j];
    RunConcat(MergedUp(disk[i..j]), disk[j].up, s);
  }

  ghost predicate WentDown(d: Db, disk: seq<Migration>, k: nat, n: nat, turns: seq<Turn>, r: Report)
    requires n <= k <= |disk|
  {
    && Reached(r, turns) <= n
    && r.db.history == d.history - Names(disk, k - Done(r), k) && r.db.clock >= d.clock
    && r.db.schema == Run(StepwiseDown(disk[k - Reached(r, turns)..k]), d.schema)
  }

  lemma UndoOneMore(disk: seq<Migration>, j: nat, k: nat, s: State)
    requires j < k <= |disk|
    ensures Run(StepwiseDown(disk[j..k]), s) == Run(disk[j].down, Run(StepwiseDown(disk[j + 1..k]), s))
    ensures Names(disk, j, k) == Names(disk, j + 1, k) + {disk[j].version}
  {
    assert disk[j..k][1..] == disk[j + 1..k];
    RunConcat(StepwiseDown(disk[j + 1..k]), disk[j].down, s);
  }

  lemma DownOneMore(d: Db, disk: seq<Migration>, k: nat, n: nat, turns: seq<Turn>, ms: seq<Migration>, p: Report)
    requires Files(disk) && n < k <= |disk| && Steady(turns) && |ms| == n
    requires WentDown(d, disk, k, n, turns, p) && WellFormed(p, ms)
    ensures WentDown(d, disk, k, n + 1, turns, Continue(p, disk[k - n - 1], false, TurnAt(turns, n)))
  {
    hide Execute, Run, StepwiseDown, Names;
    if p.ok {
      var t, m := TurnAt(turns, n), disk[k - n - 1];
      assert m.version != "" && t.wait >= 0;
      ContinueCounts(p, ms, m, false, t);
      hide WellFormed, Continue, Files, Done;
      StepDown(p.db, m, t);
      UndoOneMore(disk, k - n - 1, k, d.schema);
      assert p.db.history - {m.version} == d.history - Names(disk, k - n - 1, k);
      assert WentDown(d, disk, k, n + 1, turns, Continue(p, m, false, t));
    }
  }

  lemma NothingDown(d: Db, disk: seq<Migration>, k: nat, turns: seq<Turn>)
    requires k <= |disk|
    ensures WentDown(d, disk, k, 0, turns, ExecuteAll(d, [], false, turns))
  {
    assert d.history == d.history - Names(disk, k, k);
    assert disk[k..k] == [];
  }

  lemma {:induction false} DownSome(d: Db, disk: seq<Migration>, i: nat, k: nat, n: nat, turns: seq<Turn>)
    requires Files(disk) && i <= k <= |disk| && n <= k - i && Steady(turns) && |Reversed(disk[i..k])| == k - i
    ensures WentDown(d, disk, k, n, turns, ExecuteAll(d, Reversed(disk[i..k])[..n], false, turns))
  {
    hide WentDown, WellFormed, Continue, ExecuteAll, Files, Reversed;
    var ms := Reversed(disk[i..k])[..n];
    if n == 0 {
      NothingDown(d, disk, k, turns);
    } else {
      var init := Reversed(disk[i..k])[..n - 1];
      ReversedIs(disk[i..k]);
      assert ms[..n - 1] == init && ms[n - 1] == disk[k - n];
      DownSome(d, disk, i, k, n - 1, turns);
      ReportIsWellFormed(d, init, false, turns);
      OneMore(d, ms, false, turns);
      DownOneMore(d, disk, k, n - 1, turns, init, ExecuteAll(d, init, false, turns));
    }
  }

  /** Undoing files `i` to `k`, newest first, whatever is recorded. */
  lemma DownAll(d: Db, disk: seq<Migration>, i: nat, k: nat, turns: seq<Turn>)
    requires Files(disk) && i <= k <= |disk| && Steady(turns)
    ensures |Reversed(disk[i..k])| == k - i
    ensures WentDown(d, disk, k, k - i, turns, ExecuteAll(d, Reversed(disk[i..k]), false, turns))
  {
    ReversedIs(disk[i..k]);
    assert Reversed(disk[i..k])[..k - i] == Reversed(disk[i..k]);
    DownSome(d, disk, i, k, k - i, turns);
  }

  /** From a tracked history, undoing the newest `n` leaves the history of the others. */
  lemma UndoneIsTracked(d: Db, disk: seq<Migration>, k: nat, done: nat, e: Db)
    requires Files(disk) && TrackedAt(d, disk, k) && done <= k
    requires e.history == d.history - Names(disk, k - done, k) && e.clock >= d.clock
    ensures TrackedAt(e, disk, k - done)
  {
    forall i, j | 0 <= i < k - done <= j < k ensures disk[i].version != disk[j].version {
      FilesAreDistinct(disk, i, j);
    }
    assert e.history.Keys == Names(disk, 0, k - done);
    forall i | 0 <= i < k - done ensures Time(e, disk, i) == Time(d, disk, i) {}
  }

  // ---------- what is pending, applied and planned ----------

  lemma IsRecordedBelow(disk: seq<Migration>, d: Db, k: nat, n: nat)
    requires Files(disk) && TrackedAt(d, disk, k) && n < |disk|
    ensures disk[n].version in d.history <==> n < k
  {
    forall i | 0 <= i < k ensures disk[i].version == disk[n].version <==> i == n { FilesAreDistinct(disk, i, n); }
  }

  function RestTo(disk: seq<Migration>, k: nat, n: nat): seq<Migration>
    requires n <= |disk|
  {
    if n <= k then [] else disk[k..n]
  }

  lemma RestMore(disk: seq<Migration>, k: nat, n: nat)
    requires n < |disk|
    ensures RestTo(disk, k, n + 1) == RestTo(disk, k, n) + if n < k then [] else [disk[n]]
    ensures RestTo(disk, k, 0) == []
  {
  }

  lemma {:induction false} UnappliedAre(disk: seq<Migration>, d: Db, k: nat, n: nat)
    requires Files(disk) && TrackedAt(d, disk, k) && n <= |disk|
    ensures Unapplied(disk[..n], d.history) == RestTo(disk, k, n)
  {
    hide Files, TrackedAt;
    if n > 0 {
      UnappliedAre(disk, d, k, n - 1);
      assert Unapplied(disk[..n], d.history) == RestTo(disk, k, n) by {
        hide RestTo;
        IsRecordedBelow(disk, d, k, n - 1);
        RestMore(disk, k, n - 1);
        assert disk[..n][..n - 1] == disk[..n - 1];
      }
    }
  }

  function Count(steps: nat, available: nat): nat {
    if 0 < steps < available then steps else available
  }

  lemma PendingIsRest(disk: seq<Migration>, d: Db, k: nat)
    requires Files(disk) && TrackedAt(d, disk, k)
    ensures k <= |disk| && StableSort(Unapplied(disk, d.history), InVersionOrder()) == disk[k..]
  {
    UnappliedAre(disk, d, k, |disk|);
    RestIsOrdered(disk, k);
    hide Files, TrackedAt, StableSort, Unapplied, InVersionOrder;
    assert disk[..|disk|] == disk && RestTo(disk, k, |disk|) == disk[k..];
  }

  lemma FirstOfRest(disk: seq<Migration>, k: nat, n: nat)
    requires k + n <= |disk|
    ensures disk[k..][..n] == disk[k..k + n] && (n == |disk| - k ==> disk[k..] == disk[k..k + n])
  {
  }

  /** The pending migrations are the next files, in order. */
  lemma PendingAre(disk: seq<Migration>, d: Db, k: nat, steps: nat)
    requires Files(disk) && TrackedAt(d, disk, k)
    ensures PendingMigrations(disk, d.history, steps) == disk[k..k + Count(steps, |disk| - k)]
  {
    PendingIsRest(disk, d, k);
    hide Files, TrackedAt, StableSort, Unapplied, InVersionOrder;
    FirstOfRest(disk, k, Count(steps, |disk| - k));
  }

  lemma RestIsOrdered(disk: seq<Migration>, k: nat)
    requires Files(disk) && k <= |disk|
    ensures StableSort(disk[k..], InVersionOrder()) == disk[k..]
    ensures k == |disk| ==> StableSort([], InVersionOrder()) == []
  {
    var rest := disk[k..];
    forall i, j | 0 <= i < j < |rest| ensures InVersionOrder()(rest[i], rest[j]) {
      FilesAreDistinct(disk, k + j, k + i);
    }
    OrderedIsUnchanged(rest, InVersionOrder());
  }

  /** The applied versions, oldest first, are the first files. */
  lemma RecordedAre(disk: seq<Migration>, d: Db, k: nat)
    requires Files(disk) && TrackedAt(d, disk, k)
    ensures Recorded(d.history) == Versions(disk[..k])
  {
    var s := Versions(disk[..k]);
    forall v ensures v in s <==> v in d.history {
      if v in d.history { var i :| 0 <= i < k && disk[i].version == v; assert s[i] == v; }
    }
    forall i, j | 0 <= i < j < k ensures Before(d.history, s[i], s[j]) {
      FilesAreDistinct(disk, i, j);
      assert Time(d, disk, i) <= Time(d, disk, j);
    }
    RecordedIsUnique(s, Recorded(d.history), d.history);
  }

  lemma {:induction false} OnDiskIs(disk: seq<Migration>, i: nat)
    requires Files(disk) && i < |disk|
    ensures OnDisk(disk, disk[i].version) == Some(disk[i])
  {
    var m := OnDisk(disk, disk[i].version).value;
    var j :| 0 <= j < |disk| && disk[j] == m;
    FilesAreDistinct(disk, i, j);
  }

  lemma {:induction false} ReversedVersions(ms: seq<Migration>)
    ensures Reversed(Versions(ms)) == Versions(Reversed(ms))
  {
    var r := Reversed(Versions(ms));
    ReversedIs(Versions(ms));
    ReversedIs(ms);
    forall i | 0 <= i < |ms| ensures r[i] == Versions(Reversed(ms))[i] {
      ReversedIs(Versions(ms));
      ReversedIs(ms);
    }
  }

  /** When every version has its file, undoing versions is undoing files. */
  lemma {:induction false} UndoAllIs(d: Db, disk: seq<Migration>, ms: seq<Migration>, turns: seq<Turn>)
    requires forall m :: m in ms ==> OnDisk(disk, m.version) == Some(m)
    ensures UndoAll(d, disk, Versions(ms), turns) == ExecuteAll(d, ms, false, turns)
  {
    if ms != [] {
      var init := ms[..|ms| - 1];
      assert Versions(ms)[..|ms| - 1] == Versions(init);
      UndoAllIs(d, disk, init, turns);
      assert ms[|ms| - 1] in ms;
    }
  }

  /** `MigrateDown` undoes the newest files that are recorded. */
  lemma DownTargets(d: Db, disk: seq<Migration>, k: nat, steps: nat, turns: seq<Turn>)
    requires Files(disk) && TrackedAt(d, disk, k) && steps > 0
    ensures MigrateDown(d, disk, steps, true, turns)
      == ExecuteAll(d, Reversed(disk[k - Count(steps, k)..k]), false, turns)
  {
    RecordedAre(disk, d, k);
    hide TrackedAt, UndoAll, ExecuteAll, OnDisk, Reversed, IsRecorded;
    var from := k - Count(steps, k);
    assert LastOf(Versions(disk[..k]), steps) == Versions(disk[from..k]);
    ReversedVersions(disk[from..k]);
    TargetsOnDisk(disk, from, k);
    UndoAllIs(d, disk, Reversed(disk[from..k]), turns);
  }

  lemma TargetsOnDisk(disk: seq<Migration>, i: nat, k: nat)
    requires Files(disk) && i <= k <= |disk|
    ensures forall m :: m in Reversed(disk[i..k]) ==> OnDisk(disk, m.version) == Some(m)
  {
    hide OnDisk, Files, Reversed;
    ReversedIs(disk[i..k]);
    forall n | 0 <= n < k - i ensures OnDisk(disk, Reversed(disk[i..k])[n].version) == Some(Reversed(disk[i..k])[n]) {
      ReversedIs(disk[i..k]);
      OnDiskIs(disk, k - 1 - n);
    }
  }

  function AboveTo(disk: seq<Migration>, j: nat, k: nat, n: nat): seq<Migration>
    requires k <= |disk| && n <= |disk|
  {
    var end := if n <= k then n else k;
    if end <= j + 1 then [] else disk[j + 1..end]
  }

  lemma AboveMore(disk: seq<Migration>, j: nat, k: nat, n: nat)
    requires k <= |disk| && n < |disk|
    ensures AboveTo(disk, j, k, n + 1) == AboveTo(disk, j, k, n) + if j < n < k then [disk[n]] else []
  {
  }

  lemma {:induction false} AboveAre(disk: seq<Migration>, j: nat, k: nat, n: nat)
    requires Files(disk) && j < |disk| && 0 < k <= |disk| && n <= |disk|
    ensures Above(disk[..n], disk[j].version, disk[k - 1].version) == AboveTo(disk, j, k, n)
  {
    hide Files, AboveTo, Less;
    if n > 0 {
      AboveAre(disk, j, k, n - 1);
      assert disk[..n][..n - 1] == disk[..n - 1];
      FilesAreDistinct(disk, j, n - 1);
      FilesAreDistinct(disk, k - 1, n - 1);
      AboveMore(disk, j, k, n - 1);
    } else {
      NothingAbove(disk, j, k);
    }
  }

  lemma NothingAbove(disk: seq<Migration>, j: nat, k: nat)
    requires k <= |disk|
    ensures AboveTo(disk, j, k, 0) == []
  {
  }

  lemma {:induction false} InsertInFront(s: seq<Migration>, m: Migration)
    requires forall i :: 0 <= i < |s| ==> !NewestFirst()(s[i], m)
    ensures InsertStable(s, m, NewestFirst()) == [m] + s
  {
    if s != [] {
      InsertInFront(s[..|s| - 1], m);
      assert s == s[..|s| - 1] + [s[|s| - 1]];
    }
  }

  lemma {:induction false} SortingReverses(ms: seq<Migration>)
    requires forall i, j :: 0 <= i < j < |ms| ==> Less(ms[i].version, ms[j].version)
    ensures StableSort(ms, NewestFirst()) == Reversed(ms)
  {
    if ms != [] {
      var init := ms[..|ms| - 1];
      ReversedLast(ms);
      SortingReverses(init);
      ReversedIs(init);
      forall i | 0 <= i < |Reversed(init)| ensures !NewestFirst()(Reversed(init)[i], ms[|ms| - 1]) { ReversedIs(init); }
      InsertInFront(Reversed(init), ms[|ms| - 1]);
    }
  }

  /** A plan to go back to file `j` holds the files after it up to the newest applied one, newest first. */
  lemma PlanIs(d: Db, disk: seq<Migration>, k: nat, j: nat)
    requires Files(disk) && TrackedAt(d, disk, k) && 0 < k && j < |disk|
    ensures CreateRollbackPlan(d, disk, disk[j].version, true)
         == Plan(disk[k - 1].version, if k <= j + 1 then [] else Reversed(disk[j + 1..k]))
  {
    assert disk[0].version in d.history && disk[j].version != "" && k <= |disk|;
    hide StableSort, Above, OnDisk, Files, TrackedAt, Reversed, IsRecorded;
    OnDiskIs(disk, j);
    RecordedAre(disk, d, k);
    assert disk[..|disk|] == disk;
    PlanSorts(disk, k, j);
  }

  lemma PlanSorts(disk: seq<Migration>, k: nat, j: nat)
    requires Files(disk) && 0 < k <= |disk| && j < |disk|
    ensures StableSort(Above(disk, disk[j].version, disk[k - 1].version), NewestFirst())
      == if k <= j + 1 then [] else Reversed(disk[j + 1..k])
  {
    hide Above;
    AboveAre(disk, j, k, |disk|);
    assert disk[..|disk|] == disk;
    SortingReverses(if k <= j + 1 then [] else disk[j + 1..k]);
  }
}
