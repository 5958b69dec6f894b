/** Deploying to named environments, and undoing the deployments that succeeded when one fails. */
module Coordinator {
  import opened Wrappers
  import opened Order
  import opened Schema
  import opened Squash
  import opened Rollout
  import E = Execution
  import S = ExecutionSafety
  import R = ExecutionRuns

  type Results = map<string, DeploymentResult>

  type Registry = map<string, Environment>

  datatype Strategy = SequentialStrategy | ParallelStrategy | RollingStrategy | CanaryStrategy | UnknownStrategy

  datatype Options = Options(strategy: Strategy, batchSize: int, canaryPercentage: real, verifyHealth: bool,
                             autoRollback: bool, dryRun: bool)

  /** Environments are registered under their own names. */
  predicate Registered(registry: Registry) {
    forall n :: n in registry ==> registry[n].name == n
  }

  // ---------- results by name ----------

  function ByName(results: seq<DeploymentResult>): Results {
    if results == []
      then map[] else ByName(results[..|results| - 1])[results[|results| - 1].environment := results[|results| - 1]]
  }

  /** The last result of a name is the one kept. */
  lemma {:induction false} LastResultIsKept(results: seq<DeploymentResult>, i: nat)
    requires i < |results| && forall j :: i < j < |results| ==> results[j].environment != results[i].environment
    ensures results[i].environment in ByName(results) && ByName(results)[results[i].environment] == results[i]
  {
    if i < |results| - 1 { LastResultIsKept(results[..|results| - 1], i); }
  }

  // ---------- undoing one environment ----------

  /** Every migration in turn, whether or not the one before succeeded. */
  function UndoEach(d: E.Db, ms: seq<Migration>, turns: seq<E.Turn>): E.Db {
    if ms == [] then d
    else E.Execute(UndoEach(d, ms[..|ms| - 1], turns), ms[|ms| - 1], false, E.TurnAt(turns, |ms| - 1)).0
  }

  predicate AllFine(turns: seq<E.Turn>) {
    forall t :: t in turns ==> t.fault.Fine?
  }

  predicate Named(ms: seq<Migration>) {
    forall i :: 0 <= i < |ms| ==> ms[i].version != ""
  }

  lemma {:induction false} UndoneFrom(d: E.Db, ms: seq<Migration>, all: seq<Migration>, n: nat, turns: seq<E.Turn>)
    requires all == Reversed(ms) && |all| == |ms| && n <= |ms| && AllFine(turns) && Named(ms)
    ensures
      var e := UndoEach(d, all[..n], turns);
      && e.schema == Run(StepwiseDown(ms[|ms| - n..]), d.schema)
      && e.history == d.history - S.Names(ms, |ms| - n, |ms|)
  {
    hide UndoEach, StepwiseDown, Run, S.Names, Reversed;
    if n == 0 {
      NothingUndone(d, ms, turns);
      assert ms[|ms|..] == [];
    } else {
      UndoneFrom(d, ms, all, n - 1, turns);
      var k := |ms| - n;
      assert all[n - 1] == ms[k] by { ReversedIs(ms); }
      assert all[..n][..n - 1] == all[..n - 1];
      assert ms[k..] == ms[k..|ms|] && ms[k + 1..] == ms[k + 1..|ms|];
      S.UndoOneMore(ms, k, |ms|, d.schema);
      OneUndone(d, all[..n], turns);
      var p := UndoEach(d, all[..n - 1], turns);
      assert p.history - {ms[k].version} == d.history - S.Names(ms, k, |ms|);
    }
  }

  lemma NothingUndone(d: E.Db, ms: seq<Migration>, turns: seq<E.Turn>)
    ensures UndoEach(d, [], turns) == d && Run(StepwiseDown([]), d.schema) == d.schema
      && d.history == d.history - S.Names(ms, |ms|, |ms|)
  {
  }

  lemma OneUndone(d: E.Db, ms: seq<Migration>, turns: seq<E.Turn>)
    requires ms != [] && AllFine(turns) && ms[|ms| - 1].version != ""
    ensures
      var p, e, m := UndoEach(d, ms[..|ms| - 1], turns), UndoEach(d, ms, turns), ms[|ms| - 1];
      e.schema == Run(m.down, p.schema) && e.history == p.history - {m.version}
  {
  }

  /** `after` is `before` with the first `n` migrations recorded, none of which was before. */
  ghost predicate Recorded(before: map<string, int>, after: map<string, int>, ms: seq<Migration>, n: nat)
    requires n <= |ms|
  {
    && after.Keys == before.Keys + S.Names(ms, 0, n) && before.Keys !! S.Names(ms, 0, n)
    && (forall v :: v in before ==> after[v] == before[v])
    && (forall i :: 0 <= i < n ==> ms[i].version != "")
  }

  lemma RecordedMore(before: map<string, int>, middle: map<string, int>, ms: seq<Migration>, n: nat, now: int)
    requires n < |ms| && Recorded(before, middle, ms, n) && ms[n].version !in middle && ms[n].version != ""
    ensures Recorded(before, middle[ms[n].version := now], ms, n + 1)
  {
    S.NamesMore(ms, 0, n);
    hide S.Names;
  }

  lemma NothingRecorded(before: map<string, int>, ms: seq<Migration>)
    ensures Recorded(before, before, ms, 0)
  {
  }

  lemma Continued(p: E.Report, m: Migration, t: E.Turn)
    requires E.Continue(p, m, true, t).ok
    ensures
      var r := E.Continue(p, m, true, t);
      && p.ok && m.version !in p.db.history && m.version != ""
      && r.db.schema == Run(m.up, p.db.schema) && r.db.history == p.db.history[m.version := p.db.clock + t.wait]
  {
    hide Run;
  }

  lemma {:induction false} SucceededFrom(d: E.Db, ms: seq<Migration>, n: nat, turns: seq<E.Turn>)
    requires n <= |ms| && E.ExecuteAll(d, ms[..n], true, turns).ok
    ensures
      var e := E.ExecuteAll(d, ms[..n], true, turns).db;
      e.schema == Run(MergedUp(ms[..n]), d.schema) && Recorded(d.history, e.history, ms, n)
  {
    if n == 0 {
      assert ms[..0] == [];
      NothingRecorded(d.history, ms);
    } else {
      hide *;
      var k, t := n - 1, E.TurnAt(turns, n - 1);
      assert ms[..n][..k] == ms[..k] && ms[..n][k] == ms[k];
      S.OneMore(d, ms[..n], true, turns);
      var p := E.ExecuteAll(d, ms[..k], true, turns);
      Continued(p, ms[k], t);
      SucceededFrom(d, ms, k, turns);
      S.MergeOneMore(ms, 0, k, d.schema);
      assert ms[0..n] == ms[..n] && ms[0..k] == ms[..k];
      RecordedMore(d.history, p.db.history, ms, k, p.db.clock + t.wait);
      assert E.ExecuteAll(d, ms[..n], true, turns).db.schema == Run(MergedUp(ms[..n]), d.schema);
    }
  }

  /** Undoing a deployment that succeeded restores its database, if nothing fails and the downs undo the ups. */
  lemma RollbackRestores(d: E.Db, ms: seq<Migration>, there: seq<E.Turn>, back: seq<E.Turn>)
    requires AllFine(back) && R.DownsUndoUps(ms, 0, |ms|, d.schema)
    ensures
      var r := E.ExecuteAll(d, ms, true, there);
      var e := UndoEach(r.db, Reversed(ms), back);
      r.ok ==> e.schema == d.schema && e.history == d.history
  {
    var r := E.ExecuteAll(d, ms, true, there);
    var all := Reversed(ms);
    ReversedIs(ms);
    assert ms[..|ms|] == ms && all[..|ms|] == all && ms[0..] == ms[0..|ms|] == ms && ms[..0] == [];
    if r.ok {
      SucceededFrom(d, ms, |ms|, there);
      UndoneFrom(r.db, ms, all, |ms|, back);
      assert R.UpTo(ms, 0, d.schema) == d.schema;
      hide UndoEach, E.ExecuteAll, S.Names, StepwiseDown, MergedUp;
      R.DownToStep(ms, 0, |ms|, d.schema);
    }
  }

  // ---------- undoing all that succeeded ----------

  predicate Undoes(results: Results, env: Environment, v: Visit) {
    env.name in results && results[env.name].status == Success && v.connects
  }

  function RollbackUpTo(dbs: Databases, envs: seq<Environment>, ms: seq<Migration>, results: Results,
                        visits: seq<Visit>, n: nat): (Databases, Results)
    requires n <= |envs|
  {
    if n == 0 then (dbs, results)
    else
      var (d, r) := RollbackUpTo(dbs, envs, ms, results, visits, n - 1);
      var env, v := envs[n - 1], VisitAt(visits, n - 1);
      if Undoes(r, env, v) then
        (d[env.connection := UndoEach(DbAt(d, env.connection), Reversed(ms), v.turns)],
          r[env.name := r[env.name].(status := RolledBack)])
      else (d, r)
  }

  /** Some visit to an environment of that name connects. */
  predicate Reachable(envs: seq<Environment>, visits: seq<Visit>, n: nat, name: string)
    requires n <= |envs|
  {
    exists i :: 0 <= i < n && envs[i].name == name && VisitAt(visits, i).connects
  }

  /** Exactly the successful environments that could be reached are marked as rolled back. */
  lemma {:induction false} MarksExactlyTheReached(dbs: Databases, envs: seq<Environment>, ms: seq<Migration>,
                                                  results: Results, visits: seq<Visit>, n: nat, name: string)
    requires n <= |envs|
    ensures
      var after := RollbackUpTo(dbs, envs, ms, results, visits, n).1;
      && (name in after <==> name in results)
      && (name in results ==>
            after[name] == if results[name].status == Success && Reachable(envs, visits, n, name)
              then results[name].(status := RolledBack) else results[name])
  {
    if n > 0 {
      MarksExactlyTheReached(dbs, envs, ms, results, visits, n - 1, name);
      assert Reachable(envs, visits, n, name) <==>
        Reachable(envs, visits, n - 1, name) || (envs[n - 1].name == name && VisitAt(visits, n - 1).connects);
    }
  }

  /** With every visit connecting, no environment is left as successful. */
  lemma NoSuccessIsLeft(dbs: Databases, envs: seq<Environment>, ms: seq<Migration>, results: Results,
                        visits: seq<Visit>, name: string)
    requires forall v :: v in visits ==> v.connects
    requires name in results && exists i :: 0 <= i < |envs| && envs[i].name == name
    ensures
      var after := RollbackUpTo(dbs, envs, ms, results, visits, |envs|).1;
      name in after && after[name].status != Success
  {
    MarksExactlyTheReached(dbs, envs, ms, results, visits, |envs|, name);
    var i :| 0 <= i < |envs| && envs[i].name == name;
    assert VisitAt(visits, i).connects;
  }

  /**
   The rollback undoes environment `i`: its name stands as successful, and this is the first visit to it that connects.
   */
  predicate UndoneAt(envs: seq<Environment>, results: Results, visits: seq<Visit>, i: nat)
    requires i < |envs|
  {
    Undoes(results, envs[i], VisitAt(visits, i)) && !Reachable(envs, visits, i, envs[i].name)
  }

  /** What the first `n` visits make of the database `d` at a connection. */
  function UndoneOnly(d: E.Db, envs: seq<Environment>, ms: seq<Migration>, results: Results, visits: seq<Visit>, n: nat,
                      c: string): E.Db
    requires n <= |envs|
  {
    if n == 0 then d
    else
      var e := UndoneOnly(d, envs, ms, results, visits, n - 1, c);
      if envs[n - 1].connection == c && UndoneAt(envs, results, visits, n - 1)
        then UndoEach(e, Reversed(ms), VisitAt(visits, n - 1).turns) else e
  }

  /**
   Every database runs all down scripts, last migration first, once for each name that stands as successful and is
   reached.
   */
  lemma {:induction false} UndoesExactlyTheReached(dbs: Databases, envs: seq<Environment>, ms: seq<Migration>,
                                                   results: Results, visits: seq<Visit>, n: nat, c: string)
    requires n <= |envs|
    ensures
      var after := RollbackUpTo(dbs, envs, ms, results, visits, n).0;
      && DbAt(after, c) == UndoneOnly(DbAt(dbs, c), envs, ms, results, visits, n, c)
      && ((forall i :: 0 <= i < n && envs[i].connection == c ==> !UndoneAt(envs, results, visits, i)) ==>
        SameAt(dbs, after, c))
  {
    if n > 0 {
      UndoesExactlyTheReached(dbs, envs, ms, results, visits, n - 1, c);
      MarksExactlyTheReached(dbs, envs, ms, results, visits, n - 1, envs[n - 1].name);
      hide UndoEach, Reversed, Reachable;
    }
  }

  lemma {:induction false} UndoneOnce(d: E.Db, envs: seq<Environment>, ms: seq<Migration>, results: Results,
                                      visits: seq<Visit>, n: nat, c: string, k: nat)
    requires n <= |envs| && k < |envs|
      && forall i :: 0 <= i < n && envs[i].connection == c && UndoneAt(envs, results, visits, i) ==> i == k
    requires envs[k].connection == c && UndoneAt(envs, results, visits, k)
    ensures UndoneOnly(d, envs, ms, results, visits, n, c)
      == if k < n then UndoEach(d, Reversed(ms), VisitAt(visits, k).turns) else d
  {
    hide UndoEach, Reversed, UndoneAt;
    if n > 0 { UndoneOnce(d, envs, ms, results, visits, n - 1, c, k); }
  }

  /**
   Only this environment's name stands as successful among those that lead to its database, and all that have it do.
   */
  ghost predicate StandsAlone(envs: seq<Environment>, results: Results, i: nat)
    requires i < |envs|
  {
    && (forall j :: 0 <= j < |envs| && envs[j].name == envs[i].name ==> envs[j].connection == envs[i].connection)
    && forall j :: 0 <= j < |envs| && envs[j].connection == envs[i].connection && envs[j].name != envs[i].name
         ==> envs[j].name in results ==> results[envs[j].name].status != Success
  }

  /** The first of the `n` visits to reach `name`. */
  lemma {:induction false} FirstReached(envs: seq<Environment>, visits: seq<Visit>, n: nat, name: string)
      returns (k: nat)
    requires n <= |envs| && Reachable(envs, visits, n, name)
    ensures k < n && envs[k].name == name && VisitAt(visits, k).connects && !Reachable(envs, visits, k, name)
  {
    if Reachable(envs, visits, n - 1, name) { k := FirstReached(envs, visits, n - 1, name); } else { k := n - 1; }
  }

  lemma FirstIsUnique(envs: seq<Environment>, visits: seq<Visit>, j: nat, k: nat)
    requires j < |envs| && k < |envs| && envs[j].name == envs[k].name && VisitAt(visits, j).connects
      && VisitAt(visits, k).connects
    requires !Reachable(envs, visits, j, envs[j].name) && !Reachable(envs, visits, k, envs[k].name)
    ensures j == k
  {
  }

  /**
   A database is undone exactly if its name stands as successful and some visit to it connects; then by the first such
   visit.
   */
  lemma UndoneExactlyIfReached(dbs: Databases, envs: seq<Environment>, ms: seq<Migration>, results: Results,
                               visits: seq<Visit>, i: nat)
    requires i < |envs| && StandsAlone(envs, results, i)
    ensures
      var env, after := envs[i], RollbackUpTo(dbs, envs, ms, results, visits, |envs|).0;
      if env.name in results && results[env.name].status == Success && Reachable(envs, visits, |envs|, env.name)
      then exists k ::
        0 <= k < |envs| && envs[k].name == env.name && VisitAt(visits, k).connects
        && !Reachable(envs, visits, k, env.name)
             && DbAt(after, env.connection)
               == UndoEach(DbAt(dbs, env.connection), Reversed(ms), VisitAt(visits, k).turns)
      else SameAt(dbs, after, env.connection)
  {
    var env := envs[i];
    UndoesExactlyTheReached(dbs, envs, ms, results, visits, |envs|, env.connection);
    hide RollbackUpTo, UndoEach, Reversed;
    if env.name in results && results[env.name].status == Success && Reachable(envs, visits, |envs|, env.name) {
      var k := FirstReached(envs, visits, |envs|, env.name);
      forall j | 0 <= j < |envs| && envs[j].connection == env.connection && UndoneAt(envs, results, visits, j)
        ensures j == k
      {
        assert envs[j].name == env.name;
        FirstIsUnique(envs, visits, j, k);
      }
      UndoneOnce(DbAt(dbs, env.connection), envs, ms, results, visits, |envs|, env.connection, k);
    } else {
      forall j | 0 <= j < |envs| && envs[j].connection == env.connection ensures !UndoneAt(envs, results, visits, j) {
        if UndoneAt(envs, results, visits, j) { IsReachable(envs, visits, j); }
      }
    }
  }

  // ---------- the methods ----------

  method UndoMigrations(db: E.Db, ms: seq<Migration>, turns: seq<E.Turn>) returns (after: E.Db)
    ensures after == UndoEach(db, Reversed(ms), turns)
  {
    ReversedIs(ms);
    ghost var all := Reversed(ms);
    after := db;
    for i := |ms| downto 0
      invariant after == UndoEach(db, all[..|ms| - i], turns)
    {
      var n := |ms| - 1 - i;
      assert all[..n + 1][..n] == all[..n] && all[n] == ms[i];
      var (d, ok) := E.Execute(after, ms[i], false, E.TurnAt(turns, n));
      after := d;
    }
    assert all[..|ms|] == all;
  }

  method RollBack(fleet: Fleet, envs: seq<Environment>, ms: seq<Migration>, results: Results, visits: seq<Visit>)
      returns (after: Results)
    modifies fleet
    ensures (fleet.dbs, after) == RollbackUpTo(old(fleet.dbs), envs, ms, results, visits, |envs|)
  {
    after := results;
    for i := 0 to |envs|
      invariant (fleet.dbs, after) == RollbackUpTo(old(fleet.dbs), envs, ms, results, visits, i)
    {
      var env, v := envs[i], VisitAt(visits, i);
      if env.name !in after || after[env.name].status != Success { continue; }
      if !v.connects { continue; }
      var db := UndoMigrations(DbAt(fleet.dbs, env.connection), ms, v.turns);
      fleet.dbs := fleet.dbs[env.connection := db];
      after := after[env.name := after[env.name].(status := RolledBack)];
    }
  }

  method IndexResults(results: seq<DeploymentResult>) returns (m: Results)
    ensures m == ByName(results)
  {
    m := map[];
    for i := 0 to |results|
      invariant m == ByName(results[..i])
    {
      assert results[..i + 1][..i] == results[..i];
      m := m[results[i].environment := results[i]];
    }
    assert results[..|results|] == results;
  }

  /** The registered environments of the names, in order, unless one is not registered. */
  method Resolve(registry: Registry, names: seq<string>) returns (r: Option<seq<Environment>>)
    ensures r.None? <==> exists n :: n in names && n !in registry
    ensures r.Some? ==>
      |r.value| == |names| && forall i :: 0 <= i < |names| ==> names[i] in registry && r.value[i] == registry[names[i]]
  {
    var envs := [];
    for i := 0 to |names|
      invariant |envs| == i && forall k :: 0 <= k < i ==> names[k] in registry && envs[k] == registry[names[k]]
    {
      if names[i] !in registry { return None; }
      envs := envs + [registry[names[i]]];
    }
    return Some(envs);
  }

  function PlanOf(envs: seq<Environment>, ms: seq<Migration>, o: Options): Plan {
    Plan(envs, ms, o.batchSize, o.canaryPercentage, o.dryRun)
  }

  /** How far each strategy goes, and in which order. */
  ghost predicate StrategyDid(plan: Plan, strategy: Strategy, cancelled: set<nat>, done: seq<DeploymentResult>,
                              order: seq<nat>) {
    match strategy
    case SequentialStrategy => StopsAtFailure(plan, done) && order == Ascending(|done|)
    case ParallelStrategy => |done| == |plan.environments|
    case RollingStrategy => StopsAtBatch(plan, BatchSize(0, plan.batchSize), cancelled, done)
      && InBatches(order, BatchSize(0, plan.batchSize))
    case CanaryStrategy => StopsAtCanary(plan, 0.0, done, order)
    case UnknownStrategy => false
  }

  method Dispatch(fleet: Fleet, o: Options, plan: Plan, visits: seq<Visit>, cancelled: set<nat>)
      returns (r: Option<seq<DeploymentResult>>, ghost order: seq<nat>)
    modifies fleet
    ensures r.None? <==>
      o.strategy.UnknownStrategy? || (o.strategy.CanaryStrategy?
      && !PercentageIsValid(Percentage(0.0, plan.canaryPercentage)))
    ensures r.None? ==> fleet.dbs == old(fleet.dbs)
    ensures r.Some? ==>
      Deployed(old(fleet.dbs), fleet.dbs, plan, visits, 0, r.value, order)
      && StrategyDid(plan, o.strategy, cancelled, r.value, order)
  {
    hide Deployed, StopsAtFailure, StopsAtBatch, InBatches, StopsAtCanary;
    match o.strategy {
      case SequentialStrategy =>
        var results := Sequential(fleet, plan, visits);
        r, order := Some(results), Ascending(|results|);
      case ParallelStrategy =>
        var results, any := RunParallel(fleet, plan, 0, |plan.environments|, visits);
        r, order := Some(results), any;
      case RollingStrategy =>
        var results, any := Rolling(fleet, 0, plan, visits, cancelled);
        r, order := Some(results), any;
      case CanaryStrategy => r, order := Canary(fleet, 0.0, plan, visits);
      case UnknownStrategy => r, order := None, [];
    }
  }

  /**
   A deployment as a whole: `done` are the results of the strategy, in plan order, and `order` the order it went in.
   */
  datatype Course = Course(done: seq<DeploymentResult>, order: seq<nat>, between: Databases)

  predicate RollsBack(o: Options, done: seq<DeploymentResult>) {
    o.autoRollback && !o.dryRun && AnyFailed(done)
  }

  /** The strategy went its course; if one failed, and rollback is on, what stands as successful was undone. */
  ghost predicate Went(before: Databases, after: Databases, envs: seq<Environment>, ms: seq<Migration>, o: Options,
                       visits: seq<Visit>, cancelled: set<nat>, back: seq<Visit>, x: Course, results: Results)
  {
    && Deployed(before, x.between, PlanOf(envs, ms, o), visits, 0, x.done, x.order)
    && StrategyDid(PlanOf(envs, ms, o), o.strategy, cancelled, x.done, x.order)
    && (after, results) == if RollsBack(o, x.done)
      then RollbackUpTo(x.between, envs, ms, ByName(x.done), back, |envs|) else (x.between, ByName(x.done))
  }

  predicate Refused(registry: Registry, names: seq<string>, o: Options, healthy: set<string>) {
    || names == []
    || (exists n :: n in names && n !in registry)
    || (o.verifyHealth && !o.dryRun && exists n :: n in names && n !in healthy)
    || o.strategy.UnknownStrategy?
    || (o.strategy.CanaryStrategy? && !PercentageIsValid(Percentage(0.0, o.canaryPercentage)))
  }

  function Looked(registry: Registry, names: seq<string>): (envs: seq<Environment>)
    requires forall n :: n in names ==> n in registry
    ensures |envs| == |names| && forall i :: 0 <= i < |names| ==> envs[i] == registry[names[i]]
  {
    if names == [] then [] else Looked(registry, names[..|names| - 1]) + [registry[names[|names| - 1]]]
  }

  method DeployToEnvironments(fleet: Fleet, registry: Registry, names: seq<string>, ms: seq<Migration>, o: Options,
                              healthy: set<string>, visits: seq<Visit>, cancelled: set<nat>, back: seq<Visit>)
    returns (r: Option<Results>, ghost x: Course)
    requires Registered(registry)
    modifies fleet
    ensures r.None? <==> Refused(registry, names, o, healthy)
    ensures r.None? ==> fleet.dbs == old(fleet.dbs)
    ensures r.Some? ==>
      && (forall n :: n in names ==> n in registry)
      && Went(old(fleet.dbs), fleet.dbs, Looked(registry, names), ms, o, visits, cancelled, back, x, r.value)
  {
    x := Course([], [], fleet.dbs);
    if |names| == 0 { return None, x; }
    var resolved := Resolve(registry, names);
    if resolved.None? { return None, x; }
    var envs := resolved.value;
    if o.verifyHealth && !o.dryRun {
      for i := 0 to |names|
        invariant forall k :: 0 <= k < i ==> names[k] in healthy
      {
        if names[i] !in healthy { return None, x; }
      }
    }
    hide Deployed, StrategyDid, RollbackUpTo;
    var plan := PlanOf(envs, ms, o);
    ghost var order;
    var results;
    results, order := Dispatch(fleet, o, plan, visits, cancelled);
    if results.None? { return None, x; }
    x := Course(results.value, order, fleet.dbs);
    var m := IndexResults(results.value);
    var failure := FirstFailure(results.value);
    if o.autoRollback && !o.dryRun && failure < |results.value| {
      m := RollBack(fleet, envs, ms, m, back);
    }
    assert envs == Looked(registry, names);
    r := Some(m);
  }

  // ---------- a failed deployment ----------

  /** No other environment has this one's name or leads to its database. */
  predicate Alone(envs: seq<Environment>, i: nat)
    requires i < |envs|
  {
    forall j :: 0 <= j < |envs| && j != i ==> envs[j].name != envs[i].name && envs[j].connection != envs[i].connection
  }

  /** Where a failed deployment may leave a change although every undoing works. */
  ghost predicate MayStayChanged(plan: Plan, strategy: Strategy, done: seq<DeploymentResult>, i: nat) {
    && i < |done| && done[i].status == DeploymentStatus.Failed
    && match strategy
       case SequentialStrategy => i == |done| - 1
       case RollingStrategy => LastBatch(|done|, BatchSize(0, plan.batchSize)) <= i
       case CanaryStrategy =>
         var p, n := Percentage(0.0, plan.canaryPercentage), |plan.environments|;
         PercentageIsValid(p) && n > 0
           && (AnyFailed(done[..if CanaryCount(n, p) <= |done| then CanaryCount(n, p) else |done|]) ==>
           i < CanaryCount(n, p))
       case _ => true
  }

  lemma FailuresAreLast(plan: Plan, strategy: Strategy, cancelled: set<nat>, done: seq<DeploymentResult>,
                        order: seq<nat>, i: nat)
    requires StrategyDid(plan, strategy, cancelled, done, order) && i < |done| <= |plan.environments|
      && done[i].status == DeploymentStatus.Failed
    ensures MayStayChanged(plan, strategy, done, i)
  {
    hide IsOrder, IsBoundary, InBatches, LastBatch, Ascending;
  }

  /** The first result of a name that is given once is the one kept, and one of a name not deployed to is not there. */
  lemma {:induction false} KeptResult(done: seq<DeploymentResult>, envs: seq<Environment>, i: nat)
    requires |done| <= |envs| && i < |envs| && Alone(envs, i)
      && forall j :: 0 <= j < |done| ==> done[j].environment == envs[j].name
    ensures envs[i].name in ByName(done) <==> i < |done|
    ensures i < |done| ==> ByName(done)[envs[i].name] == done[i]
  {
    if done != [] { KeptResult(done[..|done| - 1], envs, i); }
  }

  /**
   After a failed deployment whose rollback reaches every environment, no name stands as successful, repeated names
   included.
   */
  lemma NoSuccessAfterFailure(before: Databases, after: Databases, envs: seq<Environment>, ms: seq<Migration>,
                              o: Options, visits: seq<Visit>, cancelled: set<nat>, back: seq<Visit>, x: Course,
                              results: Results, name: string)
    requires Went(before, after, envs, ms, o, visits, cancelled, back, x, results) && RollsBack(o, x.done)
    requires (forall v :: v in back ==> v.connects) && name in results
    ensures results[name].status != Success
  {
    hide *;
    WentBack(before, after, envs, ms, o, visits, cancelled, back, x, results);
    AreNamed(before, x.between, PlanOf(envs, ms, o), visits, x.done, x.order);
    MarksExactlyTheReached(x.between, envs, ms, ByName(x.done), back, |envs|, name);
    var i := KeptIsSome(x.done, name);
    assert envs[i].name == name;
    NoSuccessIsLeft(x.between, envs, ms, ByName(x.done), back, name);
  }

  lemma {:induction false} KeptIsSome(results: seq<DeploymentResult>, name: string) returns (q: nat)
    requires name in ByName(results)
    ensures q < |results| && results[q].environment == name && ByName(results)[name] == results[q]
  {
    var last := results[|results| - 1];
    if last.environment == name { q := |results| - 1; } else { q := KeptIsSome(results[..|results| - 1], name); }
  }

  /**
   A failed deployment with rollback, seen from an environment with a name and a database of its own that the
   rollback reaches: its database is as before unless the deployment failed right there, and then it is as that
   failure left it; the strategy bounds where that can be.
   */
  lemma FailedDeploymentIsUndone(before: Databases, after: Databases, envs: seq<Environment>, ms: seq<Migration>,
                                 o: Options, visits: seq<Visit>, cancelled: set<nat>, back: seq<Visit>, x: Course,
                                 results: Results, i: nat)
    requires Went(before, after, envs, ms, o, visits, cancelled, back, x, results) && RollsBack(o, x.done)
    requires i < |envs| && Alone(envs, i) && VisitAt(back, i).connects && AllFine(VisitAt(back, i).turns)
    requires R.DownsUndoUps(ms, 0, |ms|, DbAt(before, envs[i].connection).schema)
    ensures
      var env, d := envs[i], DbAt(before, envs[i].connection);
      var e := DbAt(after, env.connection);
      && (env.name in results <==> i < |x.done|)
      && (i < |x.done| ==>
        results[env.name] == if x.done[i].status == Success then x.done[i].(status := RolledBack) else x.done[i])
      && (if MayStayChanged(PlanOf(envs, ms, o), o.strategy, x.done, i)
        then e == Outcome(d, env, ms, false, VisitAt(visits, i)).0
          else e.schema == d.schema && e.history == d.history)
  {
    hide *;
    var plan, env := PlanOf(envs, ms, o), envs[i];
    var between, done := x.between, x.done;
    assert Deployed(before, between, plan, visits, 0, done, x.order)
      && StrategyDid(plan, o.strategy, cancelled, done, x.order)
      && (after, results) == RollbackUpTo(between, envs, ms, ByName(done), back, |envs|) && plan.environments == envs
        && plan.migrations == ms && !plan.dryRun by {
      WentBack(before, after, envs, ms, o, visits, cancelled, back, x, results);
    }
    AloneMeans(envs, i, |envs|);
    RolledBackAlone(before, between, plan, visits, done, x.order, back, i);
    AloneIsExact(before, between, plan, visits, done, x.order, i);
    if i < |done| && done[i].status == Success {
      NoFailureHere(plan, o.strategy, done, i);
      UndoneIsRestored(DbAt(before, env.connection), env, ms, VisitAt(visits, i), VisitAt(back, i));
    } else if i < |done| {
      FailuresAreLast(plan, o.strategy, cancelled, done, x.order, i);
    } else {
      NoFailureHere(plan, o.strategy, done, i);
    }
  }

  lemma WentBack(before: Databases, after: Databases, envs: seq<Environment>, ms: seq<Migration>, o: Options,
                 visits: seq<Visit>, cancelled: set<nat>, back: seq<Visit>, x: Course, results: Results)
    requires Went(before, after, envs, ms, o, visits, cancelled, back, x, results) && RollsBack(o, x.done)
    ensures
      var plan := PlanOf(envs, ms, o);
      && Deployed(before, x.between, plan, visits, 0, x.done, x.order)
        && StrategyDid(plan, o.strategy, cancelled, x.done, x.order)
      && plan.environments == envs && plan.migrations == ms && !plan.dryRun
      && (after, results) == RollbackUpTo(x.between, envs, ms, ByName(x.done), back, |envs|)
  {
    hide Deployed, StrategyDid, RollbackUpTo, ByName;
  }

  lemma AloneIsExact(before: Databases, after: Databases, plan: Plan, visits: seq<Visit>, done: seq<DeploymentResult>,
                     order: seq<nat>, i: nat)
    requires Deployed(before, after, plan, visits, 0, done, order) && i < |plan.environments|
      && Alone(plan.environments, i)
    ensures |done| <= |plan.environments|
    ensures
      var env := plan.environments[i];
      if i < |done|
      then (DbAt(after, env.connection), done[i])
        == Outcome(DbAt(before, env.connection), env, plan.migrations, plan.dryRun, VisitAt(visits, i))
           && done[i].status != RolledBack
      else DbAt(after, env.connection) == DbAt(before, env.connection)
  {
    hide AfterAll, Reported, IsOrder, Outcome;
    OwnDatabaseIsExact(before, after, plan, visits, 0, done, order, i);
    if i < |done| { ResultsAreNamed(before, after, plan, visits, 0, done, order, i); }
  }

  /** What the rollback does to an environment of its own. */
  lemma RolledBackAlone(before: Databases, between: Databases, plan: Plan, visits: seq<Visit>,
                        done: seq<DeploymentResult>, order: seq<nat>, back: seq<Visit>, i: nat)
    requires Deployed(before, between, plan, visits, 0, done, order)
    requires i < |plan.environments| && Alone(plan.environments, i) && VisitAt(back, i).connects
    ensures |done| <= |plan.environments|
    ensures
      var envs, env := plan.environments, plan.environments[i];
      var (after, results) := RollbackUpTo(between, envs, plan.migrations, ByName(done), back, |envs|);
      && (env.name in results <==> i < |done|)
      && (i < |done| ==>
        results[env.name] == if done[i].status == Success then done[i].(status := RolledBack) else done[i])
      && DbAt(after, env.connection)
        == if i < |done| && done[i].status == Success
        then UndoEach(DbAt(between, env.connection), Reversed(plan.migrations), VisitAt(back, i).turns)
                                        else DbAt(between, env.connection)
  {
    hide *;
    var envs := plan.environments;
    var env := envs[i];
    AreNamed(before, between, plan, visits, done, order);
    KeptResult(done, envs, i);
    AloneMeans(envs, i, |envs|);
    MarksExactlyTheReached(between, envs, plan.migrations, ByName(done), back, |envs|, env.name);
    UndoneExactlyIfReached(between, envs, plan.migrations, ByName(done), back, i);
    assert Reachable(envs, back, |envs|, env.name) by { IsReachable(envs, back, i); }
    SameDb(between, RollbackUpTo(between, envs, plan.migrations, ByName(done), back, |envs|).0, env.connection);
  }

  lemma AreNamed(before: Databases, after: Databases, plan: Plan, visits: seq<Visit>, done: seq<DeploymentResult>,
                 order: seq<nat>)
    requires Deployed(before, after, plan, visits, 0, done, order)
    ensures |done| <= |plan.environments|
      && forall j :: 0 <= j < |done| ==> done[j].environment == plan.environments[j].name
  {
    forall j | 0 <= j < |done| ensures done[j].environment == plan.environments[j].name {
      ResultsAreNamed(before, after, plan, visits, 0, done, order, j);
    }
    hide AfterAll, Reported, IsOrder;
  }

  lemma IsReachable(envs: seq<Environment>, visits: seq<Visit>, i: nat)
    requires i < |envs| && VisitAt(visits, i).connects
    ensures Reachable(envs, visits, |envs|, envs[i].name)
  {
  }

  lemma SameDb(before: Databases, after: Databases, c: string)
    ensures SameAt(before, after, c) ==> DbAt(after, c) == DbAt(before, c)
  {
  }

  lemma AloneMeans(envs: seq<Environment>, i: nat, n: nat)
    requires i < |envs| && n <= |envs| && Alone(envs, i)
    ensures HasOwnDatabase(envs, 0, n, i) && forall results :: StandsAlone(envs, results, i)
    ensures forall k :: 0 <= k < |envs| && envs[k].name == envs[i].name ==> k == i
  {
  }

  lemma NoFailureHere(plan: Plan, strategy: Strategy, done: seq<DeploymentResult>, i: nat)
    requires i < |done| ==> done[i].status == Success
    ensures !MayStayChanged(plan, strategy, done, i)
  {
  }

  lemma UndoneIsRestored(d: E.Db, env: Environment, ms: seq<Migration>, there: Visit, back: Visit)
    requires AllFine(back.turns) && R.DownsUndoUps(ms, 0, |ms|, d.schema)
      && Outcome(d, env, ms, false, there).1.status == Success
    ensures
      var e := UndoEach(Outcome(d, env, ms, false, there).0, Reversed(ms), back.turns);
      e.schema == d.schema && e.history == d.history
  {
    RollbackRestores(d, ms, there.turns, back.turns);
    hide R.DownsUndoUps, UndoEach, Reversed, E.ExecuteAll;
  }

  // ---------- environments that share a name or a database ----------

  lemma {:induction false} HistoryGrows(d: E.Db, ms: seq<Migration>, turns: seq<E.Turn>)
    ensures d.history.Keys <= E.ExecuteAll(d, ms, true, turns).db.history.Keys
  {
    hide Run;
    if ms != [] { HistoryGrows(d, ms[..|ms| - 1], turns); }
  }

  lemma {:induction false} HistoriesGrow(dbs: Databases, plan: Plan, visits: seq<Visit>, order: seq<nat>, c: string)
    requires Within(order, plan)
    ensures DbAt(dbs, c).history.Keys <= DbAt(AfterAll(dbs, plan, visits, order), c).history.Keys
  {
    if order != [] {
      var init, i := order[..|order| - 1], order[|order| - 1];
      var middle, env := AfterAll(dbs, plan, visits, init), plan.environments[i];
      HistoriesGrow(dbs, plan, visits, init, c);
      OnlyItsDatabase(middle, plan, visits, i, c);
      HistoryGrows(DbAt(middle, env.connection), plan.migrations, VisitAt(visits, i).turns);
      hide Deploy, E.ExecuteAll;
    }
  }

  lemma RecordedFails(d: E.Db, env: Environment, ms: seq<Migration>, v: Visit)
    requires ms != [] && ms[0].version in d.history
    ensures Outcome(d, env, ms, false, v).1.status == DeploymentStatus.Failed
  {
    if v.connects {
      assert ms[..1][..0] == [] && ms[..1][0] == ms[0];
      E.FailureEnds(d, ms, true, v.turns, 1);
    }
  }

  lemma SuccessIsRecorded(d: E.Db, env: Environment, ms: seq<Migration>, v: Visit)
    requires ms != [] && Outcome(d, env, ms, false, v).1.status == Success
    ensures forall i :: 0 <= i < |ms| ==> ms[i].version in Outcome(d, env, ms, false, v).0.history
  {
    assert ms[..|ms|] == ms;
    SucceededFrom(d, ms, |ms|, v.turns);
  }

  /** What a successful deployment recorded stays recorded. */
  lemma StaysRecorded(before: Databases, plan: Plan, visits: seq<Visit>, order: seq<nat>, a: nat)
    requires Within(order, plan) && a < |order| && plan.migrations != [] && !plan.dryRun
    requires ResultOf(before, plan, visits, order, a).status == Success
    ensures
      var after, c := AfterAll(before, plan, visits, order), plan.environments[order[a]].connection;
      forall i :: 0 <= i < |plan.migrations| ==> plan.migrations[i].version in DbAt(after, c).history
  {
    var i, ms := order[a], plan.migrations;
    var c := plan.environments[i].connection;
    hide *;
    var first, rest := order[..a + 1], order[a + 1..];
    assert Within(first, plan) && Within(rest, plan) && Within(order[..a], plan) by { Parts(order, plan, a); }
    assert order == first + rest && first[..a] == order[..a];
    var d, e := AfterAll(before, plan, visits, order[..a]), AfterAll(before, plan, visits, first);
    OnlyItsDatabase(d, plan, visits, i, c);
    ResultIs(before, plan, visits, order, a);
    AfterOne(before, plan, visits, first);
    SuccessIsRecorded(DbAt(d, c), plan.environments[i], ms, VisitAt(visits, i));
    AfterBoth(before, plan, visits, first, rest);
    HistoriesGrow(e, plan, visits, rest, c);
    assert DbAt(e, c).history.Keys <= DbAt(AfterAll(before, plan, visits, order), c).history.Keys;
  }

  lemma Parts(order: seq<nat>, plan: Plan, a: nat)
    requires Within(order, plan) && a < |order|
    ensures Within(order[..a], plan) && Within(order[..a + 1], plan) && Within(order[a + 1..], plan)
  {
  }

  /** Once a deployment to a database has succeeded, every later one to it fails: its migrations are recorded. */
  lemma LaterOneFails(before: Databases, plan: Plan, visits: seq<Visit>, order: seq<nat>, a: nat, b: nat)
    requires Within(order, plan) && a < b < |order| && plan.migrations != [] && !plan.dryRun
    requires plan.environments[order[a]].connection == plan.environments[order[b]].connection
    requires ResultOf(before, plan, visits, order, a).status == Success
    ensures ResultOf(before, plan, visits, order, b).status == DeploymentStatus.Failed
  {
    var j, ms, earlier := order[b], plan.migrations, order[..b];
    var c := plan.environments[j].connection;
    assert earlier[..a] == order[..a];
    StaysRecorded(before, plan, visits, earlier, a);
    var d := AfterAll(before, plan, visits, earlier);
    OnlyItsDatabase(d, plan, visits, j, c);
    hide AfterAll, Deploy, Outcome;
    RecordedFails(DbAt(d, c), plan.environments[j], ms, VisitAt(visits, j));
  }

  lemma AfterOne(before: Databases, plan: Plan, visits: seq<Visit>, order: seq<nat>)
    requires Within(order, plan) && order != []
    ensures AfterAll(before, plan, visits, order)
      == Deploy(AfterAll(before, plan, visits, order[..|order| - 1]), plan, visits, order[|order| - 1]).0
  {
    hide Deploy;
  }

  lemma ResultIs(before: Databases, plan: Plan, visits: seq<Visit>, order: seq<nat>, k: nat)
    requires Within(order, plan) && k < |order|
    ensures ResultOf(before, plan, visits, order, k)
      == Deploy(AfterAll(before, plan, visits, order[..k]), plan, visits, order[k]).1
  {
    hide AfterAll, Deploy;
  }

  /** Of the environments that lead to one database at most one is deployed to with success, whatever the order. */
  lemma OneSuccessPerDatabase(before: Databases, after: Databases, plan: Plan, visits: seq<Visit>,
                              done: seq<DeploymentResult>, order: seq<nat>, i: nat, j: nat)
    requires Deployed(before, after, plan, visits, 0, done, order) && plan.migrations != [] && !plan.dryRun
    requires i < |done| && j < |done| && i != j && plan.environments[i].connection == plan.environments[j].connection
    ensures done[i].status == Success ==> done[j].status == DeploymentStatus.Failed
  {
    hide AfterAll, ResultOf;
    assert i in order && j in order;
    var a :| 0 <= a < |order| && order[a] == i;
    var b :| 0 <= b < |order| && order[b] == j;
    assert done[order[a] - 0] == ResultOf(before, plan, visits, order, a)
      && done[order[b] - 0] == ResultOf(before, plan, visits, order, b);
    ResultIsNamed(before, plan, visits, order, b);
    if done[i].status == Success {
      if a < b { LaterOneFails(before, plan, visits, order, a, b); }
      else if done[j].status == Success { LaterOneFails(before, plan, visits, order, b, a); }
    }
  }

  /** No later result is one of the same name. */
  predicate IsLast(envs: seq<Environment>, n: nat, i: nat)
    requires i < n <= |envs|
  {
    forall j :: i < j < n ==> envs[j].name != envs[i].name
  }

  lemma {:induction false} LastOfName(envs: seq<Environment>, n: nat, i: nat) returns (k: nat)
    requires i < n <= |envs|
    ensures i <= k < n && envs[k].name == envs[i].name && IsLast(envs, n, k) && (k == i <==> IsLast(envs, n, i))
    decreases n - i
  {
    if j :| i < j < n && envs[j].name == envs[i].name { k := LastOfName(envs, n, j); } else { k := i; }
  }

  /** A name is that of one environment. */
  predicate NamesAgree(envs: seq<Environment>) {
    forall i, j :: 0 <= i < |envs| && 0 <= j < |envs| && envs[i].name == envs[j].name ==> envs[i] == envs[j]
  }

  lemma LookedAgree(registry: Registry, names: seq<string>)
    requires Registered(registry) && forall n :: n in names ==> n in registry
    ensures NamesAgree(Looked(registry, names))
  {
  }

  /** A success stands for its name exactly if it is the name's last result. */
  lemma SuccessStandsIfLast(before: Databases, after: Databases, plan: Plan, visits: seq<Visit>,
                            done: seq<DeploymentResult>, order: seq<nat>, i: nat)
    requires Deployed(before, after, plan, visits, 0, done, order) && plan.migrations != [] && !plan.dryRun
    requires i < |done| && done[i].status == Success && NamesAgree(plan.environments)
    ensures |done| <= |plan.environments|
    ensures
      var kept, name := ByName(done), plan.environments[i].name;
      name in kept && (kept[name].status == Success <==> IsLast(plan.environments, |done|, i))
  {
    AreNamed(before, after, plan, visits, done, order);
    var k := LastOfName(plan.environments, |done|, i);
    hide Deployed, ByName;
    LastResultIsKept(done, k);
    if k != i { OneSuccessPerDatabase(before, after, plan, visits, done, order, i, k); }
  }

  /** No other name that leads to its database stands as successful beside it. */
  lemma OthersDoNotStand(before: Databases, after: Databases, plan: Plan, visits: seq<Visit>,
                         done: seq<DeploymentResult>, order: seq<nat>, i: nat, j: nat)
    requires Deployed(before, after, plan, visits, 0, done, order) && plan.migrations != [] && !plan.dryRun
    requires i < |done| && done[i].status == Success && NamesAgree(plan.environments)
    requires j < |plan.environments| && i < |plan.environments|
    requires plan.environments[j].connection == plan.environments[i].connection
      && plan.environments[j].name != plan.environments[i].name
    ensures
      var kept, name := ByName(done), plan.environments[j].name;
      name in kept ==> kept[name].status != Success
  {
    var kept, name := ByName(done), plan.environments[j].name;
    AreNamed(before, after, plan, visits, done, order);
    hide Deployed;
    if name in kept {
      var q := KeptIsSome(done, name);
      OneSuccessPerDatabase(before, after, plan, visits, done, order, i, q);
    }
  }

  /**
   In a failed deployment with rollback, a database deployed to with success is undone exactly if the name it was
   deployed to by is not deployed to again and some visit to that connects; other names may lead to it as well.
   */
  lemma SuccessIsUndoneIfLast(before: Databases, after: Databases, envs: seq<Environment>, ms: seq<Migration>,
                              o: Options, visits: seq<Visit>, cancelled: set<nat>, back: seq<Visit>, x: Course,
                              results: Results, i: nat)
    requires Went(before, after, envs, ms, o, visits, cancelled, back, x, results) && RollsBack(o, x.done) && ms != []
    requires i < |x.done| && x.done[i].status == Success && i < |envs| && NamesAgree(envs)
    ensures |x.done| <= |envs|
    ensures
      var env := envs[i];
      if IsLast(envs, |x.done|, i) && Reachable(envs, back, |envs|, env.name)
      then exists k ::
        0 <= k < |envs| && envs[k].name == env.name && VisitAt(back, k).connects && !Reachable(envs, back, k, env.name)
        && DbAt(after, env.connection)
          == UndoEach(DbAt(x.between, env.connection), Reversed(ms), VisitAt(back, k).turns)
      else SameAt(x.between, after, env.connection)
  {
    hide *;
    var plan := PlanOf(envs, ms, o);
    WentBack(before, after, envs, ms, o, visits, cancelled, back, x, results);
    SuccessStandsIfLast(before, x.between, plan, visits, x.done, x.order, i);
    forall j | 0 <= j < |envs| && envs[j].connection == envs[i].connection && envs[j].name != envs[i].name
      ensures envs[j].name in ByName(x.done) ==> ByName(x.done)[envs[j].name].status != Success
    {
      OthersDoNotStand(before, x.between, plan, visits, x.done, x.order, i, j);
    }
    StandsAloneIf(envs, ByName(x.done), i);
    UndoneExactlyIfReached(x.between, envs, ms, ByName(x.done), back, i);
  }

  lemma StandsAloneIf(envs: seq<Environment>, results: Results, i: nat)
    requires i < |envs| && NamesAgree(envs)
    requires forall j :: 0 <= j < |envs| && envs[j].connection == envs[i].connection && envs[j].name != envs[i].name
               ==> envs[j].name in results ==> results[envs[j].name].status != Success
    ensures StandsAlone(envs, results, i)
  {
  }

  /** Migrations a database has not seen, with names that differ. */
  predicate AreNew(ms: seq<Migration>, d: E.Db) {
    && (forall i :: 0 <= i < |ms| ==> ms[i].version != "" && ms[i].version !in d.history)
    && forall i, j :: 0 <= i < j < |ms| ==> ms[i].version != ms[j].version
  }

  lemma {:induction false} NewOnesSucceed(d: E.Db, ms: seq<Migration>, n: nat, turns: seq<E.Turn>)
    requires n <= |ms| && AreNew(ms, d) && AllFine(turns)
    ensures E.ExecuteAll(d, ms[..n], true, turns).ok
  {
    if n > 0 {
      NewOnesSucceed(d, ms, n - 1, turns);
      SucceededFrom(d, ms, n - 1, turns);
      assert ms[..n][..n - 1] == ms[..n - 1] && ms[..n][n - 1] == ms[n - 1];
      hide Run, MergedUp;
      assert ms[n - 1].version !in E.ExecuteAll(d, ms[..n - 1], true, turns).db.history;
      S.OneMore(d, ms[..n], true, turns);
      hide E.ExecuteAll;
    }
  }

  lemma {:induction false} NothingStands(dbs: Databases, envs: seq<Environment>, ms: seq<Migration>, results: Results,
                                         visits: seq<Visit>, n: nat)
    requires n <= |envs| && forall name :: name in results ==> results[name].status != Success
    ensures RollbackUpTo(dbs, envs, ms, results, visits, n) == (dbs, results)
  {
    if n > 0 { NothingStands(dbs, envs, ms, results, visits, n - 1); }
  }

  /**
   An environment named twice: new migrations are applied, its second attempt fails, and the rollback leaves all in
   place.
   */
  lemma RepeatedNameEscapes(before: Databases, after: Databases, env: Environment, ms: seq<Migration>, o: Options,
                            visits: seq<Visit>, cancelled: set<nat>, back: seq<Visit>, x: Course, results: Results)
    requires Went(before, after, [env, env], ms, o, visits, cancelled, back, x, results)
    requires o.strategy == SequentialStrategy && !o.dryRun && ms != [] && AreNew(ms, DbAt(before, env.connection))
    requires VisitAt(visits, 0).connects && AllFine(VisitAt(visits, 0).turns)
    ensures results.Keys == {env.name} && results[env.name].status == DeploymentStatus.Failed
    ensures after == x.between && forall i :: 0 <= i < |ms| ==> ms[i].version in DbAt(after, env.connection).history
  {
    var plan, envs, done := PlanOf([env, env], ms, o), [env, env], x.done;
    hide AfterAll, Deploy, Outcome, ResultOf, RollbackUpTo, AreNew, AllFine, ByName;
    assert |done| > 0 && x.order == Ascending(|done|);
    AreNamed(before, x.between, plan, visits, done, x.order);
    FirstSucceeds(before, plan, visits, done, x.order);
    OneSuccessPerDatabase(before, x.between, plan, visits, done, x.order, 0, 1);
    OneName(done, env.name);
    LastResultIsKept(done, 1);
    NothingStands(x.between, envs, ms, ByName(done), back, 2);
    assert done[x.order[0] - 0] == ResultOf(before, plan, visits, x.order, 0);
    StaysRecorded(before, plan, visits, x.order, 0);
  }

  lemma {:induction false} OneName(results: seq<DeploymentResult>, name: string)
    requires forall i :: 0 <= i < |results| ==> results[i].environment == name
    ensures ByName(results).Keys <= {name}
  {
    if results != [] { OneName(results[..|results| - 1], name); }
  }

  lemma FirstSucceeds(before: Databases, plan: Plan, visits: seq<Visit>, done: seq<DeploymentResult>, order: seq<nat>)
    requires Reported(before, plan, visits, 0, done, order) && order != [] && order[0] == 0 && !plan.dryRun
    requires VisitAt(visits, 0).connects && AllFine(VisitAt(visits, 0).turns)
      && AreNew(plan.migrations, DbAt(before, plan.environments[0].connection))
    ensures |done| > 0 && done[0].status == Success
  {
    var d := DbAt(before, plan.environments[0].connection);
    var ms := plan.migrations;
    NewOnesSucceed(d, ms, |ms|, VisitAt(visits, 0).turns);
    assert ms[..|ms|] == ms && order[..0] == [];
    assert done[order[0] - 0] == ResultOf(before, plan, visits, order, 0);
    hide AreNew, AllFine, E.ExecuteAll;
  }
}
