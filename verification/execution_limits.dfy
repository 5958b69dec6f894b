/** Where the guarantees of migrations and rollbacks end, and what brings a drifted schema back. */
module ExecutionLimits {
  import opened Order
  import opened Schema
  import opened Squash
  import opened Execution
  import opened ExecutionSafety
  import opened ExecutionRuns

  // ---------- a plan executed later ----------

  lemma PrefixWithout(d: Db, disk: seq<Migration>, now: nat, k: nat, done: nat, e: Db)
    requires Files(disk) && TrackedAt(d, disk, now) && 0 < done <= k <= |disk| && now <= k
    requires e.history == d.history - Names(disk, k - done, k) && e.clock >= d.clock
    ensures TrackedAt(e, disk, if now <= k - done then now else k - done)
  {
    var left := if now <= k - done then now else k - done;
    forall i, j | 0 <= i < left <= k - done <= j < k ensures disk[i].version != disk[j].version {
      FilesAreDistinct(disk, i, j);
    }
    assert e.history.Keys == Names(disk, 0, left);
    forall i | 0 <= i < left ensures Time(e, disk, i) == Time(d, disk, i) {}
  }

  lemma NamesAreClosed(disk: seq<Migration>, m: nat, n: nat, i: nat)
    requires Files(disk) && i <= n < |disk| && m <= |disk|
    ensures disk[n].version in Names(disk, 0, m) ==> disk[i].version in Names(disk, 0, m)
  {
    if disk[n].version in Names(disk, 0, m) {
      var j :| 0 <= j < m && disk[j].version == disk[n].version;
      FilesAreDistinct(disk, j, n);
    }
  }

  lemma GapIsNoPrefix(disk: seq<Migration>, now: nat, k: nat, done: nat, keys: set<string>, m: nat)
    requires Files(disk) && 0 < done <= k < now <= |disk| && m <= |disk|
      && keys == Names(disk, 0, now) - Names(disk, k - done, k)
    ensures keys != Names(disk, 0, m)
  {
    var newest, gone := disk[now - 1].version, disk[k - 1].version;
    forall i | k - done <= i < k ensures disk[i].version != newest { FilesAreDistinct(disk, i, now - 1); }
    assert newest in keys && gone !in keys;
    NamesAreClosed(disk, m, now - 1, k - 1);
  }

  predicate UndoFails(m: Migration, t: Turn) {
    StopsBeforeCommit(m.down, t.fault) || t.fault.AtHistory?
  }

  /** Nothing is done exactly if the first undoing fails. */
  lemma {:induction false} NothingDone(d: Db, ms: seq<Migration>, turns: seq<Turn>)
    requires ms != [] && ms[0].version != ""
    ensures Done(ExecuteAll(d, ms, false, turns)) == 0 <==> UndoFails(ms[0], TurnAt(turns, 0))
  {
    var init, m, t := ms[..|ms| - 1], ms[|ms| - 1], TurnAt(turns, |ms| - 1);
    if init == [] {
      assert ExecuteAll(d, init, false, turns) == Report(d, [], true);
      hide Run;
    } else {
      NothingDone(d, init, turns);
      var p := ExecuteAll(d, init, false, turns);
      ReportIsWellFormed(d, init, false, turns);
      OneMore(d, ms, false, turns);
      if p.ok { ContinueCounts(p, init, m, false, t); }
      hide ExecuteAll, Execute, UndoFails;
      assert Done(ExecuteAll(d, ms, false, turns)) == 0 <==> Done(p) == 0;
    }
  }

  /**
   A rollback plan made when `k` files were recorded, back to before file `i`, is executed when `now` are.
   The history stays a prefix exactly if the plan is empty, its first undoing fails, or no file newer than the
   plan has been recorded.
   */
  lemma StalePlanKeepsPrefix(d: Db, disk: seq<Migration>, now: nat, i: nat, k: nat, turns: seq<Turn>)
    requires Files(disk) && TrackedAt(d, disk, now) && i <= k <= |disk| && Steady(turns)
    ensures Tracked(ExecuteRollback(d, Reversed(disk[i..k]), turns).db, disk) <==>
      i == k || UndoFails(disk[k - 1], TurnAt(turns, 0)) || now <= k
  {
    var r := ExecuteRollback(d, Reversed(disk[i..k]), turns);
    NothingUndone(d, disk, i, k, turns);
    DownAll(d, disk, i, k, turns);
    hide ExecuteAll, Reversed, Run, StepwiseDown, Reached, Files, UndoFails, Done;
    if Done(r) == 0 {
      assert r.db.history == d.history;
      KeepTracked(d, disk, now, r.db);
    } else if now <= k {
      PrefixWithout(d, disk, now, k, Done(r), r.db);
    } else {
      forall m: nat ensures !TrackedAt(r.db, disk, m) {
        if m <= |disk| { GapIsNoPrefix(disk, now, k, Done(r), r.db.history.Keys, m); }
      }
    }
  }

  lemma NothingUndone(d: Db, disk: seq<Migration>, i: nat, k: nat, turns: seq<Turn>)
    requires Files(disk) && i <= k <= |disk|
    ensures Done(ExecuteRollback(d, Reversed(disk[i..k]), turns)) == 0 <==>
      i == k || UndoFails(disk[k - 1], TurnAt(turns, 0))
  {
    var ms := Reversed(disk[i..k]);
    ReversedIs(disk[i..k]);
    assert i < k ==> ms[0] == disk[k - 1] && disk[k - 1].version != "";
    hide Files, UndoFails, Reversed, Execute;
    if i < k { NothingDone(d, ms, turns); }
  }

  // ---------- trying again ----------

  /** Running a script again where it has just run changes nothing. */
  lemma RunAgain(script: seq<Statement>, s: State)
    ensures Run(script, Run(script, s)) == Run(script, s)
  {
    RunConcat(script, script, s);
    forall o ensures Get(Run(script + script, s), o) == Get(Run(script, s), o) {
      LastEffectDecides(script, script, s, o);
      LastEffectDecides([], script, s, o);
      assert [] + script == script;
    }
    SameObjects(Run(script + script, s), Run(script, s));
  }

  /**
   An object that statement `i` needs, and finds untouched, is there at the end of the script, if the script touches it
   at all.
   */
  predicate LeavesWhatItNeeds(script: seq<Statement>, i: nat)
    requires i < |script|
  {
    Needs(script[i]).Some? ==>
      var o := Needs(script[i]).value;
      !AnyTouches(script[..i], o) && AnyTouches(script, o) ==> LastEffect(script, o).Some?
  }

  /** A script that was accepted is accepted again where it has just run exactly if it leaves what it needs. */
  lemma AgainIsAccepted(script: seq<Statement>, s: State)
    requires Clean(script, s)
    ensures Clean(script, Run(script, s)) <==> forall i :: 0 <= i < |script| ==> LeavesWhatItNeeds(script, i)
  {
    var t := Run(script, s);
    CleanIf(script, s);
    CleanIf(script, t);
    hide Clean, Accepted, LeavesWhatItNeeds;
    forall i | 0 <= i < |script| ensures Accepted(script, {}, t, i) <==> LeavesWhatItNeeds(script, i) {
      assert Accepted(script, {}, s, i);
      AcceptedAgain(script, s, i);
    }
  }

  lemma AcceptedAgain(script: seq<Statement>, s: State, i: nat)
    requires i < |script| && Accepted(script, {}, s, i)
    ensures Accepted(script, {}, Run(script, s), i) <==> LeavesWhatItNeeds(script, i)
  {
    if Needs(script[i]).Some? {
      var o := Needs(script[i]).value;
      LastEffectDecides([], script, s, o);
      assert [] + script == script && Run([], s) == s;
      TouchedIs(script, i, o);
      hide Run, LastEffect, Needs, AnyTouches, DefinedBefore, TouchedBefore;
      DefinedIsTouched(script, i, o);
    }
  }

  lemma TouchedIs(script: seq<Statement>, i: nat, o: Object)
    requires i <= |script|
    ensures TouchedBefore(script, {}, i, o) <==> AnyTouches(script[..i], o)
  {
    if j :| 0 <= j < i && Touches(script[j], o) { assert script[..i][j] == script[j]; }
  }

  lemma DefinedIsTouched(script: seq<Statement>, i: nat, o: Object)
    requires i <= |script|
    ensures DefinedBefore(script, {}, i, o) ==> TouchedBefore(script, {}, i, o)
  {
  }

  lemma UpToOneMore(disk: seq<Migration>, k: nat, base: State)
    requires k < |disk|
    ensures UpTo(disk, k + 1, base) == Run(disk[k].up, UpTo(disk, k, base))
  {
    MergeOneMore(disk, 0, k, base);
    hide Run, MergedUp;
    assert disk[0..k + 1] == disk[..k + 1] && disk[0..k] == disk[..k];
  }

  lemma MergedNone(disk: seq<Migration>, k: nat, s: State)
    requires k <= |disk|
    ensures Run(MergedUp(disk[k..k]), s) == s
  {
    assert disk[k..k] == [];
  }

  lemma {:induction false} UpAgain(disk: seq<Migration>, k: nat, m: nat, base: State)
    requires k + m <= |disk| && m > 0
    ensures Run(MergedUp(disk[k..k + m]), UpTo(disk, k + 1, base)) == UpTo(disk, k + m, base)
  {
    hide *;
    MergeOneMore(disk, k, k + m - 1, UpTo(disk, k + 1, base));
    UpToOneMore(disk, k + m - 1, base);
    if m == 1 {
      MergedNone(disk, k, UpTo(disk, k + 1, base));
      RunAgain(disk[k].up, UpTo(disk, k, base));
    } else {
      UpAgain(disk, k, m - 1, base);
    }
  }

  lemma {:induction false} DownAgain(disk: seq<Migration>, k: nat, m: nat, base: State)
    requires 0 < m <= k <= |disk| && DownsUndoUps(disk, 0, k, base)
    ensures Run(StepwiseDown(disk[k - m..k]), UpTo(disk, k - 1, base)) == UpTo(disk, k - m, base)
  {
    UndoOneMore(disk, k - m, k, UpTo(disk, k - 1, base));
    if m == 1 {
      assert disk[k..k] == [];
      RunAgain(disk[k - 1].down, UpTo(disk, k, base));
    } else {
      DownAgain(disk, k, m - 1, base);
    }
  }

  /**
   One file is committed but not recorded; as soon as it goes through again, the schema is that of the files reached.
   */
  lemma MigratingUpAgainHeals(d: Db, disk: seq<Migration>, k: nat, base: State, o: Options, turns: seq<Turn>)
    requires Files(disk) && TrackedAt(d, disk, k) && k < |disk| && Steady(turns)
    requires d.schema == UpTo(disk, k + 1, base) && !o.dryRun && (o.failOnValidation ==> Valid(disk))
    ensures
      var r := MigrateUp(d, disk, o, true, turns);
      var reached := Reached(r, turns);
      reached > 0 ==> k + reached <= |disk| && r.db.schema == UpTo(disk, k + reached, base)
  {
    hide *;
    var r := MigrateUp(d, disk, o, true, turns);
    UpReaches(d, disk, k, o, turns);
    if Reached(r, turns) > 0 { UpAgain(disk, k, Reached(r, turns), base); }
  }

  lemma UpReaches(d: Db, disk: seq<Migration>, k: nat, o: Options, turns: seq<Turn>)
    requires Files(disk) && TrackedAt(d, disk, k) && k <= |disk| && Steady(turns)
    requires !o.dryRun && (o.failOnValidation ==> Valid(disk))
    ensures
      var r := MigrateUp(d, disk, o, true, turns);
      var reached := Reached(r, turns);
      k + reached <= |disk| && r.db.schema == Run(MergedUp(disk[k..k + reached]), d.schema)
  {
    UpCommand(d, disk, k, o, true, turns);
    hide MigrateUp, ExecuteAll, TrackedAt, Files, Run, MergedUp, Valid, Names, Reached;
  }

  lemma DownReaches(d: Db, disk: seq<Migration>, k: nat, steps: nat, turns: seq<Turn>)
    requires Files(disk) && TrackedAt(d, disk, k) && Steady(turns) && steps > 0
    ensures
      var r := MigrateDown(d, disk, steps, true, turns);
      var reached := Reached(r, turns);
      reached <= k <= |disk| && r.db.schema == Run(StepwiseDown(disk[k - reached..k]), d.schema)
  {
    DownCommand(d, disk, k, steps, turns);
    hide MigrateDown, ExecuteAll, TrackedAt, Files, Run, StepwiseDown, Names, Reached, Reversed;
    TrackedIsBounded(d, disk, k);
  }

  /** One file is undone but still recorded; as soon as it is undone again, the schema is that of the files left. */
  lemma MigratingDownAgainHeals(d: Db, disk: seq<Migration>, k: nat, base: State, steps: nat, turns: seq<Turn>)
    requires Files(disk) && TrackedAt(d, disk, k) && 0 < k <= |disk| && Steady(turns) && steps > 0
    requires d.schema == UpTo(disk, k - 1, base) && DownsUndoUps(disk, 0, k, base)
    ensures
      var r := MigrateDown(d, disk, steps, true, turns);
      var reached := Reached(r, turns);
      reached > 0 ==> reached <= k && r.db.schema == UpTo(disk, k - reached, base)
  {
    hide *;
    var r := MigrateDown(d, disk, steps, true, turns);
    DownReaches(d, disk, k, steps, turns);
    if Reached(r, turns) > 0 { DownAgain(disk, k, Reached(r, turns), base); }
  }

  /**
   One file is committed but not recorded, and older ones are undone: the schema is that of the files left
   exactly if the down scripts that run touch everything that file changed.
   */
  lemma DownAfterUnrecordedCommit(d: Db, disk: seq<Migration>, k: nat, base: State, steps: nat, turns: seq<Turn>)
    requires Files(disk) && TrackedAt(d, disk, k) && k < |disk| && Steady(turns) && steps > 0
    requires d.schema == UpTo(disk, k + 1, base) && DownsUndoUps(disk, 0, k, base)
    ensures
      var r := MigrateDown(d, disk, steps, true, turns);
      var reached := Reached(r, turns);
      && reached <= k
      && (r.db.schema == UpTo(disk, k - reached, base) <==>
            forall o ::
              AnyTouches(StepwiseDown(disk[k - reached..k]), o)
              || Get(UpTo(disk, k + 1, base), o) == Get(UpTo(disk, k, base), o))
  {
    hide *;
    var r := MigrateDown(d, disk, steps, true, turns);
    var i := k - Reached(r, turns);
    DownReaches(d, disk, k, steps, turns);
    SomeUndo(disk, i, k, base);
    DownToStep(disk, i, k, base);
    SameAfter(StepwiseDown(disk[i..k]), UpTo(disk, k + 1, base), UpTo(disk, k, base));
  }

  lemma SomeUndo(disk: seq<Migration>, i: nat, k: nat, base: State)
    requires i <= k <= |disk| && DownsUndoUps(disk, 0, k, base)
    ensures DownsUndoUps(disk, i, k, base)
  {
    hide Run, UpTo;
  }

  /** A script takes two schemas to the same one exactly if it touches all they differ in. */
  lemma SameAfter(script: seq<Statement>, s: State, t: State)
    ensures Run(script, s) == Run(script, t) <==> forall o :: AnyTouches(script, o) || Get(s, o) == Get(t, o)
  {
    assert [] + script == script && Run([], s) == s && Run([], t) == t;
    hide AnyTouches, LastEffect, Run;
    forall o
      ensures Get(Run(script, s), o) == Get(Run(script, t), o) <==> AnyTouches(script, o) || Get(s, o) == Get(t, o)
    {
      LastEffectDecides([], script, s, o);
      LastEffectDecides([], script, t, o);
    }
    if forall o :: AnyTouches(script, o) || Get(s, o) == Get(t, o) { SameObjects(Run(script, s), Run(script, t)); }
  }

  // ---------- sessions that only go up ----------

  /** The schema is that of the first `k` files, or of one more. */
  predicate IsNear(s: State, disk: seq<Migration>, k: nat, base: State)
    requires k <= |disk|
  {
    s == UpTo(disk, k, base) || (k < |disk| && s == UpTo(disk, k + 1, base))
  }

  /** `n` more files are recorded and `reached` more are committed. */
  lemma StaysNear(s: State, disk: seq<Migration>, k: nat, base: State, n: nat, reached: nat)
    requires k + reached <= |disk| && IsNear(s, disk, k, base) && (reached == n || reached == n + 1)
    ensures IsNear(Run(MergedUp(disk[k..k + reached]), s), disk, k + n, base)
  {
    UpToStep(disk, k, k + reached, base);
    if reached > 0 { UpAgain(disk, k, reached, base); } else { MergedNone(disk, k, s); }
    hide UpTo, Run, MergedUp;
  }

  lemma UpKeepsNear(d: Db, disk: seq<Migration>, k: nat, base: State, c: Command) returns (now: nat)
    requires Files(disk) && TrackedAt(d, disk, k) && Steady(c.turns) && c.Up? && IsNear(d.schema, disk, k, base)
    ensures now <= |disk|
    ensures var e := Obey(d, disk, c).db; TrackedAt(e, disk, now) && IsNear(e.schema, disk, now, base)
  {
    TrackedIsBounded(d, disk, k);
    hide *;
    ObeyUp(d, disk, c);
    UpCommand(d, disk, k, c.options, c.readable, c.turns);
    if c.readable && !c.options.dryRun && (c.options.failOnValidation ==> Valid(disk)) {
      now := UpGoesNear(d, disk, k, base, c.options, c.turns);
    } else {
      now := k;
    }
  }

  lemma UpGoesNear(d: Db, disk: seq<Migration>, k: nat, base: State, o: Options, turns: seq<Turn>) returns (now: nat)
    requires Files(disk) && TrackedAt(d, disk, k) && k <= |disk| && Steady(turns) && IsNear(d.schema, disk, k, base)
    requires !o.dryRun && (o.failOnValidation ==> Valid(disk))
    ensures now <= |disk|
    ensures var e := MigrateUp(d, disk, o, true, turns).db; TrackedAt(e, disk, now) && IsNear(e.schema, disk, now, base)
  {
    hide *;
    var r := MigrateUp(d, disk, o, true, turns);
    UpCommand(d, disk, k, o, true, turns);
    UpReaches(d, disk, k, o, turns);
    CountIsBounded(o.steps, |disk| - k);
    UpTracked(d, disk, k, Count(o.steps, |disk| - k), turns, r);
    StaysNear(d.schema, disk, k, base, Done(r), Reached(r, turns));
    now := k + Done(r);
  }

  lemma UpTracked(d: Db, disk: seq<Migration>, k: nat, n: nat, turns: seq<Turn>, r: Report)
    requires k + n <= |disk| && WentUp(d, disk, k, n, turns, r)
    ensures TrackedAt(r.db, disk, k + Done(r)) && Done(r) <= Reached(r, turns) <= Done(r) + 1
  {
    hide TrackedAt, Run, MergedUp, Done, HistoryFailed;
  }

  /** Whatever migrations up fail, and however often, the schema never gets more than one file ahead of the history. */
  lemma {:induction false} UpSessionsStayNear(d: Db, disk: seq<Migration>, k: nat, base: State, cs: seq<Command>)
      returns (now: nat)
    requires Files(disk) && TrackedAt(d, disk, k) && IsNear(d.schema, disk, k, base)
    requires forall c :: c in cs ==> c.Up? && Steady(c.turns)
    ensures now <= |disk|
    ensures var e := Session(d, disk, cs); TrackedAt(e, disk, now) && IsNear(e.schema, disk, now, base)
  {
    if cs == [] {
      now := k;
    } else {
      var init, c := cs[..|cs| - 1], cs[|cs| - 1];
      hide Obey, TrackedAt, IsNear, Files, Steady;
      var middle := UpSessionsStayNear(d, disk, k, base, init);
      now := UpKeepsNear(Session(d, disk, init), disk, middle, base, c);
    }
  }
}
