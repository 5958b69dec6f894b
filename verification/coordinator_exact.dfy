/** What the options of a deployment decide: refusal, dry runs, rollback, and the sizes and shares of the strategies. */
module CoordinatorExact {
  import opened Wrappers
  import opened Schema
  import opened Rollout
  import opened RolloutExact
  import opened Coordinator

  /** A canary share that is not set is ten percent, and so never refused; health does not matter to a dry run. */
  lemma RefusedExactlyFor(registry: Registry, names: seq<string>, o: Options, healthy: set<string>)
    ensures Refused(registry, names, o, healthy) <==>
      || |names| == 0 || o.strategy == UnknownStrategy
      || (exists i :: 0 <= i < |names| && names[i] !in registry)
      || (!o.dryRun && o.verifyHealth && exists i :: 0 <= i < |names| && names[i] !in healthy)
      || (o.strategy == CanaryStrategy && (o.canaryPercentage < 1.0 || o.canaryPercentage > 50.0)
        && o.canaryPercentage != 0.0)
  {
    if n :| n in names && n !in registry { var i :| 0 <= i < |names| && names[i] == n; }
    if n :| n in names && n !in healthy { var i :| 0 <= i < |names| && names[i] == n; }
  }

  /** Results and databases stay as the strategy left them unless rollback is wanted, the run is real and one failed. */
  lemma RolledBackExactlyIf(before: Databases, after: Databases, envs: seq<Environment>, ms: seq<Migration>, o: Options,
                            visits: seq<Visit>, cancelled: set<nat>, back: seq<Visit>, x: Course, results: Results)
    requires Went(before, after, envs, ms, o, visits, cancelled, back, x, results)
    ensures
      var failed := exists i :: 0 <= i < |x.done| && x.done[i].status == Failed;
      if failed && o.autoRollback && !o.dryRun
      then (after, results) == RollbackUpTo(x.between, envs, ms, ByName(x.done), back, |envs|)
      else (after, results) == (x.between, ByName(x.done))
  {
    hide Deployed, StrategyDid, RollbackUpTo, ByName;
  }

  lemma {:induction false} DryRunsLeave(dbs: Databases, plan: Plan, visits: seq<Visit>, order: seq<nat>)
    requires Within(order, plan) && plan.dryRun
    ensures AfterAll(dbs, plan, visits, order) == dbs
  {
    if order != [] { DryRunsLeave(dbs, plan, visits, order[..|order| - 1]); }
  }

  /** A dry run changes no database, and its results say what connects. */
  lemma DryRunChangesNothing(before: Databases, after: Databases, envs: seq<Environment>, ms: seq<Migration>,
                             o: Options, visits: seq<Visit>, cancelled: set<nat>, back: seq<Visit>, x: Course,
                             results: Results)
    requires Went(before, after, envs, ms, o, visits, cancelled, back, x, results) && o.dryRun
    ensures after == before && |x.done| <= |envs|
    ensures forall i :: 0 <= i < |x.done| ==>
      x.done[i] == (if VisitAt(visits, i).connects
        then DeploymentResult(envs[i].name, Success, |ms|) else DeploymentResult(envs[i].name, Failed, 0))
  {
    hide StrategyDid, RollbackUpTo, ByName;
    var plan := PlanOf(envs, ms, o);
    DryRunsLeave(before, plan, visits, x.order);
    forall i | 0 <= i < |x.done|
      ensures x.done[i] == (if VisitAt(visits, i).connects
        then DeploymentResult(envs[i].name, Success, |ms|) else DeploymentResult(envs[i].name, Failed, 0))
    {
      DryResult(before, x.between, plan, visits, x.done, x.order, i);
    }
  }

  lemma DryResult(before: Databases, after: Databases, plan: Plan, visits: seq<Visit>, done: seq<DeploymentResult>,
                  order: seq<nat>, i: nat)
    requires Deployed(before, after, plan, visits, 0, done, order) && plan.dryRun && i < |done|
    ensures |done| <= |plan.environments|
    ensures done[i] == (if VisitAt(visits, i).connects
      then DeploymentResult(plan.environments[i].name, Success, |plan.migrations|)
      else DeploymentResult(plan.environments[i].name, Failed, 0))
  {
    hide AfterAll, IsOrder;
    assert i in order by { OrderHolds(order, |done|, i); }
    var k :| 0 <= k < |order| && order[k] == i;
    assert done[order[k] - 0] == ResultOf(before, plan, visits, order, k);
  }

  lemma OrderHolds(order: seq<nat>, n: nat, i: nat)
    requires IsOrder(order, 0, n) && i < n
    ensures i in order
  {
  }

  /** Rolling with a batch size: batches of that size in turn, every failure in the last, short only after it. */
  lemma RollingGoesInBatches(before: Databases, after: Databases, envs: seq<Environment>, ms: seq<Migration>,
                             o: Options, visits: seq<Visit>, cancelled: set<nat>, back: seq<Visit>, x: Course,
                             results: Results) returns (start: nat)
    requires Went(before, after, envs, ms, o, visits, cancelled, back, x, results)
    requires o.strategy.RollingStrategy? && o.batchSize > 0
    ensures InBatches(x.order, o.batchSize) && IsBoundary(start, o.batchSize) && |x.done| <= start + o.batchSize
    ensures forall i :: 0 <= i < |x.done| && i < start ==> x.done[i].status == Success
    ensures |x.done| < |envs| ==>
      |x.done| > 0 && IsBoundary(|x.done|, o.batchSize) && (|x.done| in cancelled || AnyFailed(x.done))
  {
    hide Deployed, RollbackUpTo, ByName, StopsAtBatch, InBatches;
    start := BatchesAreOfSize(PlanOf(envs, ms, o), 0, cancelled, x.done, x.order, o.batchSize);
  }

  /** Rolling without one: in order, one by one, not past a failure or a cancellation. */
  lemma RollingGoesOneByOne(before: Databases, after: Databases, envs: seq<Environment>, ms: seq<Migration>,
                            o: Options, visits: seq<Visit>, cancelled: set<nat>, back: seq<Visit>, x: Course,
                            results: Results)
    requires Went(before, after, envs, ms, o, visits, cancelled, back, x, results)
    requires o.strategy.RollingStrategy? && o.batchSize <= 0
    ensures x.order == Ascending(|x.done|) && forall i :: 0 <= i < |x.done| - 1 ==> x.done[i].status == Success
    ensures |x.done| < |envs| ==>
      |x.done| > 0 && (x.done[|x.done| - 1].status == Failed || |x.done| in cancelled)
    ensures cancelled == {} ==> StopsAtFailure(PlanOf(envs, ms, o), x.done)
  {
    var plan := PlanOf(envs, ms, o);
    hide RollbackUpTo, ByName, StopsAtBatch, InBatches, StopsAtFailure;
    assert |x.order| == |x.done| by { hide AfterAll, Reported; }
    hide Deployed;
    forall i | 0 <= i < |x.done| ensures x.done[i].status != RolledBack {
      ResultsAreNamed(before, x.between, plan, visits, 0, x.done, x.order, i);
    }
    UnsetSizeIsOneByOne(plan, 0, cancelled, x.done, x.order);
  }

  /** Canaries: the share that is set, or else ten percent, goes first, and the others only if none of it fails. */
  lemma CanariesGoFirst(before: Databases, after: Databases, envs: seq<Environment>, ms: seq<Migration>, o: Options,
                        visits: seq<Visit>, cancelled: set<nat>, back: seq<Visit>, x: Course, results: Results)
      returns (k: nat)
    requires Went(before, after, envs, ms, o, visits, cancelled, back, x, results) && o.strategy.CanaryStrategy?
    ensures
      var n, p := |envs|, if o.canaryPercentage != 0.0 then o.canaryPercentage else 10.0;
      if n == 0 then x.done == [] else
        && 1 <= k <= n && (n > 1 ==> 2 * k <= n)
        && (k as real + 1.0) * 100.0 > n as real * p && (k > 1 ==> k as real * 100.0 <= n as real * p)
        && k <= |x.done| && (|x.done| == n || |x.done| == k)
        && (|x.done| == n <==> k == n || forall i :: 0 <= i < k ==> x.done[i].status != Failed)
        && |x.order| >= k && IsOrder(x.order[..k], 0, k)
  {
    hide Deployed, RollbackUpTo, ByName, StopsAtCanary, IsOrder;
    k := CanariesAreTheShare(PlanOf(envs, ms, o), 0.0,
                             if o.canaryPercentage != 0.0 then o.canaryPercentage else 10.0, x.done, x.order);
  }
}
