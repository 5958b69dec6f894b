/** What the strategies do for the sizes and shares that are set, and what one deployment amounts to. */
module RolloutExact {
  import opened Wrappers
  import opened Schema
  import opened Rollout
  import E = Execution
  import H = ExecutionHistories

  // ---------- one deployment ----------

  /**
   A deployment that connects and is no dry run applies migrations up to the first that does not succeed; it is a
   success if there is none, and counts those it applied. Otherwise nothing changes.
   */
  lemma DeploymentIs(d: E.Db, env: Environment, ms: seq<Migration>, dryRun: bool, v: Visit)
      returns (n: nat, statuses: seq<E.Status>)
    ensures
      var (e, r) := Outcome(d, env, ms, dryRun, v);
      && r.environment == env.name && r.status != RolledBack
      && if dryRun || !v.connects
         then e == d && (r.status == Success <==> v.connects) && r.applied == (if v.connects then |ms| else 0)
         else H.EndsAt(d, ms, true, v.turns, n, E.Report(e, statuses, r.status == Success)) && r.applied == n
  {
    n := H.RunEnds(d, ms, true, v.turns);
    var x := E.ExecuteAll(d, ms, true, v.turns);
    statuses := x.statuses;
    hide E.ExecuteAll;
    CountsApplied(d, ms, v.turns, n, x);
  }

  lemma CountsApplied(d: E.Db, ms: seq<Migration>, turns: seq<E.Turn>, n: nat, x: E.Report)
    requires H.EndsAt(d, ms, true, turns, n, x)
    ensures E.Done(x) == n
  {
    hide H.StopAt, H.HistoryOf, H.Committed, H.Waited;
  }

  // ---------- batches ----------

  /** The size that is set: the strategy's before the plan's. */
  predicate IsSize(strategySize: int, planSize: int, k: nat) {
    k > 0 && if strategySize > 0 then k == strategySize else k == planSize
  }

  /**
   Rolling with a size set, the strategy's before the plan's: batches of that size in turn, every failure in one of
   them, the last. It stops short only at the end of a batch, after a failure or when cancelled.
   */
  lemma BatchesAreOfSize(plan: Plan, strategySize: int, cancelled: set<nat>, results: seq<DeploymentResult>,
                         order: seq<nat>, k: nat) returns (start: nat)
    requires IsSize(strategySize, plan.batchSize, k)
    requires StopsAtBatch(plan, BatchSize(strategySize, plan.batchSize), cancelled, results)
      && InBatches(order, BatchSize(strategySize, plan.batchSize))
    ensures InBatches(order, k)
    ensures IsBoundary(start, k) && |results| <= start + k
      && forall i :: 0 <= i < |results| && i < start ==> results[i].status == Success
    ensures |results| < |plan.environments| ==>
      |results| > 0 && IsBoundary(|results|, k) && (|results| in cancelled || AnyFailed(results))
  {
    start := LastBatch(|results|, k);
    hide InBatches, IsBoundary, LastBatch;
    assert BatchSize(strategySize, plan.batchSize) == k;
    if AnyFailed(results[start..]) {
      var i :| 0 <= i < |results[start..]| && results[start..][i].status == Failed;
      assert results[start + i].status == Failed;
    }
  }

  lemma {:induction false} EveryPositionIsBoundary(n: nat)
    ensures IsBoundary(n, 1)
  {
    if n > 0 { EveryPositionIsBoundary(n - 1); }
  }

  lemma NotBefore(order: seq<nat>, x: nat, y: nat)
    requires y < x < |order| && IsOrder(order[..x], 0, x) && IsOrder(order[..x + 1], 0, x + 1)
    ensures order[x] != y
  {
    assert y in order[..x];
    var z :| 0 <= z < x && order[..x][z] == y;
    assert order[..x + 1][z] == y && order[..x + 1][x] == order[x];
  }

  lemma NextIsItself(order: seq<nat>, x: nat)
    requires InBatches(order, 1) && x < |order|
    ensures order[x] == x
  {
    EveryPositionIsBoundary(x);
    EveryPositionIsBoundary(x + 1);
    assert IsOrder(order[..x], 0, x) && IsOrder(order[..x + 1], 0, x + 1);
    hide InBatches, IsBoundary;
    assert order[..x + 1][x] == order[x];
    if order[x] < x { NotBefore(order, x, order[x]); }
  }

  /** With no size set, rolling goes one by one: in order, and not past a failure or a cancellation. */
  lemma UnsetSizeIsOneByOne(plan: Plan, strategySize: int, cancelled: set<nat>, results: seq<DeploymentResult>,
                            order: seq<nat>)
    requires strategySize <= 0 && plan.batchSize <= 0 && |order| == |results|
    requires StopsAtBatch(plan, BatchSize(strategySize, plan.batchSize), cancelled, results)
      && InBatches(order, BatchSize(strategySize, plan.batchSize))
    requires forall i :: 0 <= i < |results| ==> results[i].status != RolledBack
    ensures order == Ascending(|results|)
    ensures forall i :: 0 <= i < |results| - 1 ==> results[i].status == Success
    ensures |results| < |plan.environments| ==>
      |results| > 0 && (results[|results| - 1].status == Failed || |results| in cancelled)
    ensures cancelled == {} ==> StopsAtFailure(plan, results)
  {
    var n := |results|;
    assert BatchSize(strategySize, plan.batchSize) == 1;
    forall x | 0 <= x < n ensures order[x] == x { NextIsItself(order, x); }
    hide InBatches, IsBoundary, Ascending;
    assert n > 0 ==> LastBatch(n, 1) == n - 1;
    assert order == Ascending(n);
  }

  lemma SameResults(before: Databases, plan: Plan, visits: seq<Visit>, m: nat, n: nat, k: nat)
    requires m <= |plan.environments| && n <= |plan.environments| && k < m && k < n
    ensures Within(Ascending(m), plan) && Within(Ascending(n), plan)
    ensures ResultOf(before, plan, visits, Ascending(m), k) == ResultOf(before, plan, visits, Ascending(n), k)
  {
    assert Ascending(m)[..k] == Ascending(n)[..k];
    hide AfterAll, Deploy, Ascending;
  }

  lemma ReportedInOrder(before: Databases, after: Databases, plan: Plan, visits: seq<Visit>, xs: seq<DeploymentResult>,
                        k: nat)
    requires Deployed(before, after, plan, visits, 0, xs, Ascending(|xs|)) && k < |xs|
    ensures |xs| <= |plan.environments| && Within(Ascending(|xs|), plan)
    ensures xs[k] == ResultOf(before, plan, visits, Ascending(|xs|), k)
  {
    hide AfterAll, ResultOf, Ascending, IsOrder;
    assert xs[Ascending(|xs|)[k] - 0] == ResultOf(before, plan, visits, Ascending(|xs|), k);
  }

  /**
   So, unless it is cancelled, it ends with the results and databases that deploying one by one ends with: there are no
   others that stop at the first failure.
   */
  lemma OneByOneIsUnique(before: Databases, a: Databases, b: Databases, plan: Plan, visits: seq<Visit>,
                         xs: seq<DeploymentResult>, ys: seq<DeploymentResult>)
    requires Deployed(before, a, plan, visits, 0, xs, Ascending(|xs|)) && StopsAtFailure(plan, xs)
    requires Deployed(before, b, plan, visits, 0, ys, Ascending(|ys|)) && StopsAtFailure(plan, ys)
    ensures xs == ys && a == b
  {
    hide *;
    SameDatabases(before, a, plan, visits, xs);
    SameDatabases(before, b, plan, visits, ys);
    forall k | 0 <= k < |xs| && k < |ys| ensures xs[k] == ys[k] {
      ReportedInOrder(before, a, plan, visits, xs, k);
      ReportedInOrder(before, b, plan, visits, ys, k);
      SameResults(before, plan, visits, |xs|, |ys|, k);
    }
    assert |xs| == |ys| by { SameLength(plan, xs, ys); }
  }

  lemma SameLength(plan: Plan, xs: seq<DeploymentResult>, ys: seq<DeploymentResult>)
    requires StopsAtFailure(plan, xs) && StopsAtFailure(plan, ys)
    requires |xs| <= |plan.environments| && |ys| <= |plan.environments|
    requires forall k :: 0 <= k < |xs| && k < |ys| ==> xs[k] == ys[k]
    ensures |xs| == |ys|
  {
  }

  lemma SameDatabases(before: Databases, after: Databases, plan: Plan, visits: seq<Visit>, xs: seq<DeploymentResult>)
    requires Deployed(before, after, plan, visits, 0, xs, Ascending(|xs|))
    ensures |xs| <= |plan.environments| && Within(Ascending(|xs|), plan)
      && after == AfterAll(before, plan, visits, Ascending(|xs|))
  {
    hide AfterAll, ResultOf, Ascending, IsOrder;
  }

  // ---------- canaries ----------

  /** The percentage that is set, the strategy's before the plan's, or else ten. */
  predicate IsShare(strategy: real, plan: real, p: real) {
    || (strategy != 0.0 && p == strategy)
    || (strategy == 0.0 && plan != 0.0 && p == plan)
    || (strategy == 0.0 && plan == 0.0 && p == 10.0)
  }

  /**
   The canaries are the share of the environments that is set, rounded down, but at least one and at most half of two or
   more; all others follow exactly if none of them fails, and after them.
   */
  lemma CanariesAreTheShare(plan: Plan, strategy: real, p: real, results: seq<DeploymentResult>, order: seq<nat>)
      returns (k: nat)
    requires StopsAtCanary(plan, strategy, results, order) && IsShare(strategy, plan.canaryPercentage, p)
    ensures
      var n := |plan.environments|;
      if n == 0 then results == [] else
        && 1 <= k <= n && (n > 1 ==> 2 * k <= n)
        && (k as real + 1.0) * 100.0 > n as real * p && (k > 1 ==> k as real * 100.0 <= n as real * p)
        && k <= |results| && (|results| == n || |results| == k)
        && (|results| == n <==> k == n || forall i :: 0 <= i < k ==> results[i].status != Failed)
        && |order| >= k && IsOrder(order[..k], 0, k)
  {
    hide IsOrder;
    k := if |plan.environments| == 0 then 0 else CanaryCount(|plan.environments|, p);
  }
}
