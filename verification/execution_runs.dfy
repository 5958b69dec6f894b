/** Whole sessions of migrations and rollbacks: the history stays a prefix of the files, and what the schema is. */
module ExecutionRuns {
  import opened Order
  import opened Schema
  import opened Squash
  import opened Execution
  import opened ExecutionSafety

  datatype Command =
    | Up(options: Options, readable: bool, turns: seq<Turn>)
    | Down(steps: nat, readable: bool, turns: seq<Turn>)
    | RollbackTo(target: string, readable: bool, turns: seq<Turn>)

  ghost function Obey(d: Db, disk: seq<Migration>, c: Command): Report {
    match c
    case Up(o, readable, turns) => MigrateUp(d, disk, o, readable, turns)
    case Down(steps, readable, turns) => MigrateDown(d, disk, steps, readable, turns)
    case RollbackTo(target, readable, turns) =>
      match CreateRollbackPlan(d, disk, target, readable)
      case NoPlan => Report(d, [], false)
      case Plan(_, ms) => ExecuteRollback(d, ms, turns)
  }

  ghost function Session(d: Db, disk: seq<Migration>, cs: seq<Command>): Db {
    if cs == [] then d else Obey(Session(d, disk, cs[..|cs| - 1]), disk, cs[|cs| - 1]).db
  }

  // ---------- one command ----------

  lemma UpCommand(d: Db, disk: seq<Migration>, k: nat, o: Options, readable: bool, turns: seq<Turn>)
    requires Files(disk) && TrackedAt(d, disk, k) && Steady(turns)
    ensures
      var r := MigrateUp(d, disk, o, readable, turns);
      var n := Count(o.steps, |disk| - k);
      if readable && !o.dryRun && (o.failOnValidation ==> Valid(disk))
      then r == ExecuteAll(d, disk[k..k + n], true, turns) && WentUp(d, disk, k, n, turns, r)
      else r.db == d && Done(r) == |r.statuses|
  {
    var n := Count(o.steps, |disk| - k);
    PendingAre(disk, d, k, o.steps);
    UpAll(d, disk, k, n, turns);
    hide TrackedAt, Files, WentUp, PendingMigrations, ExecuteAll, Valid;
  }

  lemma DownCommand(d: Db, disk: seq<Migration>, k: nat, steps: nat, turns: seq<Turn>)
    requires Files(disk) && TrackedAt(d, disk, k) && Steady(turns) && steps > 0
    ensures
      var r := MigrateDown(d, disk, steps, true, turns);
      r == ExecuteAll(d, Reversed(disk[k - Count(steps, k)..k]), false, turns)
        && WentDown(d, disk, k, Count(steps, k), turns, r)
  {
    hide *;
    TrackedIsBounded(d, disk, k);
    CountIsBounded(steps, k);
    DownTargets(d, disk, k, steps, turns);
    DownAll(d, disk, k - Count(steps, k), k, turns);
  }

  /** Rolling back to file `j` undoes the files after it, or nothing. */
  lemma RollbackToFile(d: Db, disk: seq<Migration>, k: nat, j: nat, turns: seq<Turn>)
    requires Files(disk) && TrackedAt(d, disk, k) && Steady(turns) && 0 < k && j < |disk| && k <= |disk|
    ensures WentDown(d, disk, k, if k <= j + 1
      then 0 else k - (j + 1), turns, Obey(d, disk, RollbackTo(disk[j].version, true, turns)))
  {
    hide TrackedAt, Files, ExecuteAll, WentDown, CreateRollbackPlan;
    PlanIs(d, disk, k, j);
    if k <= j + 1 { NothingDown(d, disk, k, turns); } else { DownAll(d, disk, j + 1, k, turns); }
  }

  /** After a command the history is the first `now` files again, and the schema is that of `reached` files. */
  ghost predicate Moved(d: Db, disk: seq<Migration>, k: nat, c: Command, r: Report, now: nat, reached: nat) {
    && TrackedAt(r.db, disk, now) && k <= |disk|
    && (c.Up? ==> k <= now <= reached <= |disk| && r.db.schema == Run(MergedUp(disk[k..reached]), d.schema))
    && (!c.Up? ==> reached <= now <= k && r.db.schema == Run(StepwiseDown(disk[reached..k]), d.schema))
    && reached == if !HistoryFailed(r, c.turns) then now else if c.Up? then now + 1 else now - 1
  }

  lemma NothingMoved(d: Db, disk: seq<Migration>, k: nat, c: Command, r: Report)
    requires TrackedAt(d, disk, k) && r.db == d && Done(r) == |r.statuses|
    ensures Moved(d, disk, k, c, r, k, k)
  {
    assert disk[k..k] == [];
  }

  lemma DownMoves(d: Db, disk: seq<Migration>, k: nat, n: nat, c: Command, r: Report)
    requires Files(disk) && TrackedAt(d, disk, k) && n <= k <= |disk| && !c.Up? && WentDown(d, disk, k, n, c.turns, r)
    ensures Moved(d, disk, k, c, r, k - Done(r), k - Reached(r, c.turns))
  {
    UndoneIsTracked(d, disk, k, Done(r), r.db);
    hide TrackedAt, Files, Run, StepwiseDown, HistoryFailed, Done;
  }

  lemma UpIsMove(d: Db, disk: seq<Migration>, k: nat, n: nat, c: Command, r: Report)
    requires k + n <= |disk| && c.Up? && WentUp(d, disk, k, n, c.turns, r)
    ensures Moved(d, disk, k, c, r, k + Done(r), k + Reached(r, c.turns))
  {
    hide TrackedAt, Run, MergedUp, Done;
  }

  lemma UpMoves(d: Db, disk: seq<Migration>, k: nat, c: Command) returns (now: nat, reached: nat)
    requires Files(disk) && TrackedAt(d, disk, k) && Steady(c.turns) && c.Up?
    ensures Moved(d, disk, k, c, Obey(d, disk, c), now, reached)
  {
    hide *;
    TrackedIsBounded(d, disk, k);
    var r := Obey(d, disk, c);
    assert r == MigrateUp(d, disk, c.options, c.readable, c.turns) by { ObeyUp(d, disk, c); }
    UpCommand(d, disk, k, c.options, c.readable, c.turns);
    if c.readable && !c.options.dryRun && (c.options.failOnValidation ==> Valid(disk)) {
      CountIsBounded(c.options.steps, |disk| - k);
      UpIsMove(d, disk, k, Count(c.options.steps, |disk| - k), c, r);
      now, reached := k + Done(r), k + Reached(r, c.turns);
    } else {
      NothingMoved(d, disk, k, c, r);
      now, reached := k, k;
    }
  }

  lemma CountIsBounded(steps: nat, available: nat)
    ensures Count(steps, available) <= available
  {
  }

  lemma ObeyUp(d: Db, disk: seq<Migration>, c: Command)
    requires c.Up?
    ensures Obey(d, disk, c) == MigrateUp(d, disk, c.options, c.readable, c.turns)
  {
    hide MigrateUp;
  }

  lemma DownCommandMoves(d: Db, disk: seq<Migration>, k: nat, c: Command) returns (now: nat, reached: nat)
    requires Files(disk) && TrackedAt(d, disk, k) && Steady(c.turns) && c.Down? && c.steps > 0 && c.readable
    ensures Moved(d, disk, k, c, Obey(d, disk, c), now, reached)
  {
    hide Moved, TrackedAt, Files, ExecuteAll, MigrateDown, Reversed, WentDown, Run, StepwiseDown;
    TrackedIsBounded(d, disk, k);
    var r := Obey(d, disk, c);
    DownCommand(d, disk, k, c.steps, c.turns);
    CountIsBounded(c.steps, k);
    DownIsBounded(d, disk, k, Count(c.steps, k), c.turns, r);
    DownMoves(d, disk, k, Count(c.steps, k), c, r);
    now, reached := k - Done(r), k - Reached(r, c.turns);
  }

  lemma DownIsBounded(d: Db, disk: seq<Migration>, k: nat, n: nat, turns: seq<Turn>, r: Report)
    requires n <= k <= |disk| && WentDown(d, disk, k, n, turns, r)
    ensures Done(r) <= Reached(r, turns) <= n
  {
    hide Names, Run, StepwiseDown, Done;
  }

  lemma RollbackMoves(d: Db, disk: seq<Migration>, k: nat, j: nat, c: Command) returns (now: nat, reached: nat)
    requires Files(disk) && TrackedAt(d, disk, k) && Steady(c.turns) && 0 < k <= |disk| && j < |disk|
    requires c == RollbackTo(disk[j].version, true, c.turns)
    ensures Moved(d, disk, k, c, Obey(d, disk, c), now, reached)
  {
    hide *;
    var r := Obey(d, disk, c);
    RollbackToFile(d, disk, k, j, c.turns);
    DownIsBounded(d, disk, k, if k <= j + 1 then 0 else k - (j + 1), c.turns, r);
    DownMoves(d, disk, k, if k <= j + 1 then 0 else k - (j + 1), c, r);
    now, reached := k - Done(r), k - Reached(r, c.turns);
  }

  lemma CommandMoves(d: Db, disk: seq<Migration>, k: nat, c: Command) returns (now: nat, reached: nat)
    requires Files(disk) && TrackedAt(d, disk, k) && Steady(c.turns)
    ensures Moved(d, disk, k, c, Obey(d, disk, c), now, reached)
  {
    assert k <= |disk|;
    hide *;
    if c.Up? {
      now, reached := UpMoves(d, disk, k, c);
    } else if c.Down? && c.steps > 0 && c.readable {
      now, reached := DownCommandMoves(d, disk, k, c);
    } else if j :| c.RollbackTo? && c.readable && 0 <= j < |disk| && disk[j].version == c.target && k > 0 {
      now, reached := RollbackMoves(d, disk, k, j, c);
    } else {
      NothingObeyed(d, disk, k, c);
      NothingReported(d);
      NothingMoved(d, disk, k, c, Report(d, [], false));
      now, reached := k, k;
    }
  }

  lemma NothingReported(d: Db)
    ensures Done(Report(d, [], false)) == 0
  {
  }

  lemma NothingObeyed(d: Db, disk: seq<Migration>, k: nat, c: Command)
    requires TrackedAt(d, disk, k) && !c.Up?
    requires c.Down? ==> c.steps == 0 || !c.readable
    requires c.RollbackTo? ==> !c.readable || k == 0 || forall j :: 0 <= j < |disk| ==> disk[j].version != c.target
    ensures Obey(d, disk, c) == Report(d, [], false)
  {
    if c.RollbackTo? && c.readable && k == 0 { assert d.history.Keys == {}; }
  }

  // ---------- whole sessions ----------

  /**
   Whatever the commands, and wherever they fail, the recorded versions are the first files, recorded in version order.
   */
  lemma {:induction false} HistoryStaysAPrefix(d: Db, disk: seq<Migration>, cs: seq<Command>)
    requires Files(disk) && Tracked(d, disk) && forall c :: c in cs ==> Steady(c.turns)
    ensures Tracked(Session(d, disk, cs), disk)
  {
    if cs != [] {
      var init, c := cs[..|cs| - 1], cs[|cs| - 1];
      HistoryStaysAPrefix(d, disk, init);
      var before := Session(d, disk, init);
      var k :| TrackedAt(before, disk, k);
      assert c in cs;
      var now, reached := CommandMoves(before, disk, k, c);
    }
  }

  // ---------- the schema ----------

  /** What the first `k` files make of the schema. */
  function UpTo(disk: seq<Migration>, k: nat, base: State): State
    requires k <= |disk|
  {
    Run(MergedUp(disk[..k]), base)
  }

  /** Each down script undoes its up script where that ran. */
  ghost predicate DownsUndoUps(disk: seq<Migration>, i: nat, j: nat, base: State)
    requires j <= |disk|
  {
    forall n :: i <= n < j ==> Run(disk[n].down, UpTo(disk, n + 1, base)) == UpTo(disk, n, base)
  }

  lemma {:induction false} UpToStep(disk: seq<Migration>, i: nat, j: nat, base: State)
    requires i <= j <= |disk|
    ensures Run(MergedUp(disk[i..j]), UpTo(disk, i, base)) == UpTo(disk, j, base)
  {
    if i == j {
      assert disk[i..j] == [];
    } else {
      UpToStep(disk, i, j - 1, base);
      MergeOneMore(disk, i, j - 1, UpTo(disk, i, base));
      assert disk[0..j] == disk[..j] && disk[0..j - 1] == disk[..j - 1];
      MergeOneMore(disk, 0, j - 1, base);
    }
  }

  lemma {:induction false} DownToStep(disk: seq<Migration>, i: nat, j: nat, base: State)
    requires i <= j <= |disk| && DownsUndoUps(disk, i, j, base)
    ensures Run(StepwiseDown(disk[i..j]), UpTo(disk, j, base)) == UpTo(disk, i, base)
    decreases j - i
  {
    if i == j {
      assert disk[i..j] == [];
    } else {
      DownToStep(disk, i + 1, j, base);
      UndoOneMore(disk, i, j, UpTo(disk, j, base));
    }
  }

  /** The schema is that of the recorded files, or that of one file more or fewer after a failed history write. */
  lemma DriftsByAtMostOne(d: Db, disk: seq<Migration>, k: nat, base: State, c: Command) returns (now: nat, reached: nat)
    requires Files(disk) && TrackedAt(d, disk, k) && Steady(c.turns)
    requires d.schema == UpTo(disk, k, base) && (!c.Up? ==> DownsUndoUps(disk, 0, k, base))
    ensures
      var r := Obey(d, disk, c);
      && TrackedAt(r.db, disk, now)
      && reached <= |disk| && r.db.schema == UpTo(disk, reached, base)
      && reached == if !HistoryFailed(r, c.turns) then now else if c.Up? then now + 1 else now - 1
  {
    now, reached := CommandMoves(d, disk, k, c);
    hide Obey, TrackedAt, Files, UpTo, Run, MergedUp, StepwiseDown, HistoryFailed;
    if c.Up? { UpToStep(disk, k, reached, base); } else {
      assert DownsUndoUps(disk, reached, k, base);
      DownToStep(disk, reached, k, base);
    }
  }

  /** Applying some migrations and rolling as many back restores history and, if the downs undo the ups, the schema. */
  lemma UpThenDownRestores(d: Db, disk: seq<Migration>, k: nat, base: State, o: Options, there: seq<Turn>,
                           back: seq<Turn>)
    requires Files(disk) && TrackedAt(d, disk, k) && Steady(there) && Steady(back) && !o.dryRun
    ensures
      var r := MigrateUp(d, disk, o, true, there);
      var n := Done(r);
      var b := MigrateDown(r.db, disk, n, true, back);
      r.ok && n > 0 && b.ok ==>
        && b.db.history == d.history && k + n <= |disk|
        && (d.schema == UpTo(disk, k, base) && DownsUndoUps(disk, k, k + n, base) ==> b.db.schema == d.schema)
  {
    hide *;
    var r := MigrateUp(d, disk, o, true, there);
    var n := Done(r);
    var b := MigrateDown(r.db, disk, n, true, back);
    if r.ok && n > 0 && b.ok {
      UpAdds(d, disk, k, o, there);
      DownTakes(r.db, disk, k + n, n, back);
      RestoredHistory(d, disk, k, n, r.db.history);
      if d.schema == UpTo(disk, k, base) && DownsUndoUps(disk, k, k + n, base) {
        UpToStep(disk, k, k + n, base);
        DownToStep(disk, k, k + n, base);
      }
    }
  }

  /** Only the names in `names` may have changed. */
  ghost predicate AddsOnly(before: map<string, int>, after: map<string, int>, names: set<string>) {
    forall v :: v !in names ==> (v in after <==> v in before) && (v in before ==> after[v] == before[v])
  }

  lemma ContinueAddsOnly(before: map<string, int>, p: Report, m: Migration, t: Turn, names: set<string>)
    requires AddsOnly(before, p.db.history, names)
    ensures AddsOnly(before, Continue(p, m, true, t).db.history, names + {m.version})
  {
    hide Run, StopsBeforeCommit, HistoryRefuses;
  }

  lemma {:induction false} AllAdd(d: Db, disk: seq<Migration>, k: nat, n: nat, turns: seq<Turn>)
    requires k + n <= |disk|
    ensures AddsOnly(d.history, ExecuteAll(d, disk[k..k + n], true, turns).db.history, Names(disk, k, k + n))
  {
    if n == 0 {
      assert disk[k..k] == [];
    } else {
      hide *;
      var ms, m := disk[k..k + n], disk[k + n - 1];
      assert ms[..n - 1] == disk[k..k + n - 1] && ms[n - 1] == m;
      AllAdd(d, disk, k, n - 1, turns);
      OneMore(d, ms, true, turns);
      ContinueAddsOnly(d.history, ExecuteAll(d, ms[..n - 1], true, turns), m, TurnAt(turns, n - 1),
        Names(disk, k, k + n - 1));
      assert Names(disk, k, k + n) == Names(disk, k, k + n - 1) + {m.version} by { NamesMore(disk, k, k + n - 1); }
      assert AddsOnly(d.history, ExecuteAll(d, ms, true, turns).db.history, Names(disk, k, k + n));
    }
  }

  lemma UpAdds(d: Db, disk: seq<Migration>, k: nat, o: Options, turns: seq<Turn>)
    requires Files(disk) && TrackedAt(d, disk, k) && Steady(turns) && !o.dryRun && MigrateUp(d, disk, o, true, turns).ok
    ensures
      var r := MigrateUp(d, disk, o, true, turns);
      var n := Done(r);
      && k + n <= |disk| && TrackedAt(r.db, disk, k + n)
      && r.db.schema == Run(MergedUp(disk[k..k + n]), d.schema)
      && AddsOnly(d.history, r.db.history, Names(disk, k, k + n))
  {
    hide *;
    TrackedIsBounded(d, disk, k);
    var r := MigrateUp(d, disk, o, true, turns);
    var n := UpGoes(d, disk, k, o, turns);
    AllDone(d, disk[k..k + n], true, turns);
    WentUpWhole(d, disk, k, n, turns, r);
    AllAdd(d, disk, k, n, turns);
  }

  lemma UpGoes(d: Db, disk: seq<Migration>, k: nat, o: Options, turns: seq<Turn>) returns (n: nat)
    requires Files(disk) && TrackedAt(d, disk, k) && Steady(turns) && !o.dryRun && MigrateUp(d, disk, o, true, turns).ok
    ensures k + n <= |disk|
    ensures
      var r := MigrateUp(d, disk, o, true, turns);
      r == ExecuteAll(d, disk[k..k + n], true, turns) && WentUp(d, disk, k, n, turns, r)
  {
    assert k <= |disk|;
    n := Count(o.steps, |disk| - k);
    UpCommand(d, disk, k, o, true, turns);
    hide ExecuteAll, WentUp, PendingMigrations, TrackedAt, Files, Valid;
  }

  lemma WentUpWhole(d: Db, disk: seq<Migration>, k: nat, n: nat, turns: seq<Turn>, r: Report)
    requires k + n <= |disk| && WentUp(d, disk, k, n, turns, r) && r.ok && Done(r) == n
    ensures TrackedAt(r.db, disk, k + n) && r.db.schema == Run(MergedUp(disk[k..k + n]), d.schema)
  {
    hide TrackedAt, Run, MergedUp;
  }

  lemma CountsAll(n: nat, k: nat)
    requires 0 < n <= k
    ensures Count(n, k) == n
  {
  }

  lemma WentDownWhole(d: Db, disk: seq<Migration>, k: nat, n: nat, turns: seq<Turn>, r: Report)
    requires n <= k <= |disk| && WentDown(d, disk, k, n, turns, r) && r.ok && Done(r) == n
    ensures r.db.history == d.history - Names(disk, k - n, k)
      && r.db.schema == Run(StepwiseDown(disk[k - n..k]), d.schema)
  {
    hide Names, Run, StepwiseDown;
  }

  lemma DownTakes(d: Db, disk: seq<Migration>, k: nat, n: nat, turns: seq<Turn>)
    requires Files(disk) && TrackedAt(d, disk, k) && Steady(turns) && 0 < n <= k
      && MigrateDown(d, disk, n, true, turns).ok
    ensures
      var b := MigrateDown(d, disk, n, true, turns);
      b.db.history == d.history - Names(disk, k - n, k) && b.db.schema == Run(StepwiseDown(disk[k - n..k]), d.schema)
  {
    hide *;
    TrackedIsBounded(d, disk, k);
    CountsAll(n, k);
    var ms := disk[k - n..k];
    DownCommand(d, disk, k, n, turns);
    AllDone(d, Reversed(ms), false, turns);
    assert |Reversed(ms)| == n by { ReversedIs(ms); }
    WentDownWhole(d, disk, k, n, turns, MigrateDown(d, disk, n, true, turns));
  }

  lemma AllDone(d: Db, ms: seq<Migration>, up: bool, turns: seq<Turn>)
    ensures ExecuteAll(d, ms, up, turns).ok ==> Done(ExecuteAll(d, ms, up, turns)) == |ms|
  {
    hide ExecuteAll;
    ReportIsWellFormed(d, ms, up, turns);
  }

  lemma RestoredHistory(d: Db, disk: seq<Migration>, k: nat, n: nat, h: map<string, int>)
    requires Files(disk) && TrackedAt(d, disk, k) && k + n <= |disk|
    requires AddsOnly(d.history, h, Names(disk, k, k + n))
    ensures h - Names(disk, k, k + n) == d.history
  {
    forall i, j | 0 <= i < k <= j < k + n ensures disk[i].version != disk[j].version { FilesAreDistinct(disk, i, j); }
    assert forall v :: v in d.history ==> v !in Names(disk, k, k + n);
  }
}
