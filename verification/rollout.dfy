/** Deploying migrations to several environments: one by one, in batches, or to a canary first. */
module Rollout {
  import opened Wrappers
  import opened Schema
  import E = Execution

  /** An environment and the database its connection leads to. */
  datatype Environment = Environment(name: string, connection: string)

  datatype DeploymentStatus = Success | Failed | RolledBack

  datatype DeploymentResult = DeploymentResult(environment: string, status: DeploymentStatus, applied: nat)

  datatype Plan = Plan(environments: seq<Environment>, migrations: seq<Migration>, batchSize: int,
                       canaryPercentage: real, dryRun: bool)

  /**
   What the outside does to one deployment: whether it connects (or is left alone, in a dry run) and how each migration
   goes.
   */
  datatype Visit = Visit(connects: bool, turns: seq<E.Turn>)

  type Databases = map<string, E.Db>

  function DbAt(dbs: Databases, connection: string): E.Db {
    if connection in dbs then dbs[connection] else E.Db(map[], map[], 0)
  }

  function Outcome(d: E.Db, env: Environment, ms: seq<Migration>, dryRun: bool, v: Visit): (E.Db, DeploymentResult) {
    if dryRun then (d, if v.connects
      then DeploymentResult(env.name, Success, |ms|) else DeploymentResult(env.name, Failed, 0))
    else if !v.connects then (d, DeploymentResult(env.name, Failed, 0))
    else
      var r := E.ExecuteAll(d, ms, true, v.turns);
      (r.db, DeploymentResult(env.name, if r.ok then Success else Failed, E.Done(r)))
  }

  function VisitAt(visits: seq<Visit>, i: nat): Visit {
    if i < |visits| then visits[i] else Visit(true, [])
  }

  /** Deploying to environment `i`. In a dry run, or where nothing connects, no database changes. */
  function Deploy(dbs: Databases, plan: Plan, visits: seq<Visit>, i: nat): (Databases, DeploymentResult)
    requires i < |plan.environments|
  {
    var env, v := plan.environments[i], VisitAt(visits, i);
    var (d, r) := Outcome(DbAt(dbs, env.connection), env, plan.migrations, plan.dryRun, v);
    (if plan.dryRun || !v.connects then dbs else dbs[env.connection := d], r)
  }

  predicate Within(order: seq<nat>, plan: Plan) {
    forall k :: 0 <= k < |order| ==> order[k] < |plan.environments|
  }

  /** The databases after deploying to the environments at the given positions, one after another. */
  function AfterAll(dbs: Databases, plan: Plan, visits: seq<Visit>, order: seq<nat>): Databases
    requires Within(order, plan)
  {
    if order == [] then dbs
    else
      var before := AfterAll(dbs, plan, visits, order[..|order| - 1]);
      Deploy(before, plan, visits, order[|order| - 1]).0
  }

  /** The result of the `k`th of those deployments. */
  function ResultOf(dbs: Databases, plan: Plan, visits: seq<Visit>, order: seq<nat>, k: nat): DeploymentResult
    requires Within(order, plan) && k < |order|
  {
    Deploy(AfterAll(dbs, plan, visits, order[..k]), plan, visits, order[k]).1
  }

  /** Each position from `lo` to `hi` once. */
  ghost predicate IsOrder(order: seq<nat>, lo: nat, hi: nat) {
    && |order| == hi - lo
    && (forall k :: 0 <= k < |order| ==> lo <= order[k] < hi)
    && (forall i :: lo <= i < hi ==> i in order)
    && forall k, l :: 0 <= k < l < |order| ==> order[k] != order[l]
  }

  /** `results[i - lo]` is the result of the deployment to environment `i`. */
  ghost predicate Reported(before: Databases, plan: Plan, visits: seq<Visit>, lo: nat, results: seq<DeploymentResult>,
                           order: seq<nat>) {
    && Within(order, plan)
    && forall k ::
      0 <= k < |order| ==>
      lo <= order[k] < lo + |results| && results[order[k] - lo] == ResultOf(before, plan, visits, order, k)
  }

  /** The environments from `lo` on were deployed to in this order; the results are in plan order. */
  ghost predicate Deployed(before: Databases, after: Databases, plan: Plan, visits: seq<Visit>, lo: nat,
                           results: seq<DeploymentResult>, order: seq<nat>) {
    && lo + |results| <= |plan.environments| && IsOrder(order, lo, lo + |results|)
    && Reported(before, plan, visits, lo, results, order) && after == AfterAll(before, plan, visits, order)
  }

  predicate AnyFailed(results: seq<DeploymentResult>) {
    exists i :: 0 <= i < |results| && results[i].status == Failed
  }

  // ---------- what a deployment does, whatever the order ----------

  lemma OneMoreDeployed(dbs: Databases, plan: Plan, visits: seq<Visit>, order: seq<nat>, i: nat)
    requires Within(order, plan) && i < |plan.environments|
    ensures Within(order + [i], plan)
    ensures AfterAll(dbs, plan, visits, order + [i]) == Deploy(AfterAll(dbs, plan, visits, order), plan, visits, i).0
    ensures ResultOf(dbs, plan, visits, order + [i], |order|)
      == Deploy(AfterAll(dbs, plan, visits, order), plan, visits, i).1
    ensures forall k ::
      0 <= k < |order| ==> ResultOf(dbs, plan, visits, order + [i], k) == ResultOf(dbs, plan, visits, order, k)
  {
    var longer := order + [i];
    assert longer[..|order|] == order;
    hide Deploy;
    forall k | 0 <= k < |order|
      ensures ResultOf(dbs, plan, visits, longer, k) == ResultOf(dbs, plan, visits, order, k)
    {
      assert longer[..k] == order[..k];
    }
  }

  lemma {:induction false} AfterBoth(dbs: Databases, plan: Plan, visits: seq<Visit>, a: seq<nat>, b: seq<nat>)
    requires Within(a, plan) && Within(b, plan)
    ensures Within(a + b, plan)
    ensures AfterAll(dbs, plan, visits, a + b) == AfterAll(AfterAll(dbs, plan, visits, a), plan, visits, b)
  {
    hide Deploy;
    if b == [] {
      assert a + b == a;
    } else {
      var init := b[..|b| - 1];
      assert (a + b)[..|a + b| - 1] == a + init;
      AfterBoth(dbs, plan, visits, a, init);
    }
  }

  /** A batch after the environments before it. */
  lemma Batches(before: Databases, middle: Databases, after: Databases, plan: Plan, visits: seq<Visit>,
                results: seq<DeploymentResult>, a: seq<nat>, batch: seq<DeploymentResult>, b: seq<nat>)
    requires Deployed(before, middle, plan, visits, 0, results, a)
      && Deployed(middle, after, plan, visits, |results|, batch, b)
    ensures Deployed(before, after, plan, visits, 0, results + batch, a + b)
  {
    assert Within(a, plan) && Within(b, plan);
    OrdersJoin(a, b, |results|, |results| + |batch|);
    AfterBoth(before, plan, visits, a, b);
    hide AfterAll, Reported, IsOrder;
    ReportsJoin(before, plan, visits, results, a, batch, b);
  }

  lemma ReportsJoin(before: Databases, plan: Plan, visits: seq<Visit>, results: seq<DeploymentResult>, a: seq<nat>,
                    batch: seq<DeploymentResult>, b: seq<nat>)
    requires Within(a, plan)
    requires Reported(before, plan, visits, 0, results, a)
      && Reported(AfterAll(before, plan, visits, a), plan, visits, |results|, batch, b)
    ensures Reported(before, plan, visits, 0, results + batch, a + b)
  {
    hide AfterAll, ResultOf;
    var order, all := a + b, results + batch;
    forall k | 0 <= k < |order|
      ensures 0 <= order[k] < |all| && all[order[k]] == ResultOf(before, plan, visits, order, k)
    {
      if k < |a| {
        assert results[a[k] - 0] == ResultOf(before, plan, visits, a, k);
        SamePrefix(before, plan, visits, a, b, k);
      } else {
        SameSuffix(before, plan, visits, a, b, k - |a|);
      }
    }
  }

  lemma SamePrefix(before: Databases, plan: Plan, visits: seq<Visit>, a: seq<nat>, b: seq<nat>, k: nat)
    requires Within(a, plan) && Within(b, plan) && k < |a|
    ensures Within(a + b, plan) && ResultOf(before, plan, visits, a + b, k) == ResultOf(before, plan, visits, a, k)
  {
    assert (a + b)[..k] == a[..k];
    hide AfterAll, Deploy;
  }

  lemma SameSuffix(before: Databases, plan: Plan, visits: seq<Visit>, a: seq<nat>, b: seq<nat>, k: nat)
    requires Within(a, plan) && Within(b, plan) && k < |b|
    ensures Within(a + b, plan) && ResultOf(before, plan, visits, a + b, |a| + k)
      == ResultOf(AfterAll(before, plan, visits, a), plan, visits, b, k)
  {
    assert (a + b)[..|a| + k] == a + b[..k];
    AfterBoth(before, plan, visits, a, b[..k]);
    hide AfterAll, Deploy;
  }

  lemma OrdersJoin(a: seq<nat>, b: seq<nat>, m: nat, n: nat)
    requires m <= n && IsOrder(a, 0, m) && IsOrder(b, m, n)
    ensures IsOrder(a + b, 0, n)
  {
    var order := a + b;
    forall k, l | 0 <= k < l < |order| ensures order[k] != order[l] {
      assert order[k] in if k < |a| then a else b;
      assert order[l] in if l < |a| then a else b;
    }
  }

  lemma ResultsAreNamed(before: Databases, after: Databases, plan: Plan, visits: seq<Visit>, lo: nat,
                        results: seq<DeploymentResult>, order: seq<nat>, i: nat)
    requires Deployed(before, after, plan, visits, lo, results, order) && i < |results|
    ensures results[i].environment == plan.environments[lo + i].name && results[i].status != RolledBack
  {
    hide AfterAll, ResultOf;
    assert lo + i in order;
    var k :| 0 <= k < |order| && order[k] == lo + i;
    assert results[order[k] - lo] == ResultOf(before, plan, visits, order, k);
    ResultIsNamed(before, plan, visits, order, k);
  }

  lemma ResultIsNamed(before: Databases, plan: Plan, visits: seq<Visit>, order: seq<nat>, k: nat)
    requires Within(order, plan) && k < |order|
    ensures
      var r := ResultOf(before, plan, visits, order, k);
      r.environment == plan.environments[order[k]].name && r.status != RolledBack
  {
    hide AfterAll, E.ExecuteAll, E.Done;
  }

  predicate SameAt(before: Databases, after: Databases, connection: string) {
    (connection in before <==> connection in after)
      && (connection in before ==> before[connection] == after[connection])
  }

  lemma OnlyItsDatabase(dbs: Databases, plan: Plan, visits: seq<Visit>, i: nat, c: string)
    requires i < |plan.environments|
    ensures
      var env, (after, r) := plan.environments[i], Deploy(dbs, plan, visits, i);
      && (c != env.connection ==> SameAt(dbs, after, c))
      && (DbAt(after, env.connection), r)
        == Outcome(DbAt(dbs, env.connection), env, plan.migrations, plan.dryRun, VisitAt(visits, i))
  {
    hide E.ExecuteAll;
  }

  /** A database that none of the deployments leads to stays as it is. */
  lemma {:induction false} OthersStay(dbs: Databases, plan: Plan, visits: seq<Visit>, order: seq<nat>, c: string)
    requires Within(order, plan) && forall k :: 0 <= k < |order| ==> plan.environments[order[k]].connection != c
    ensures SameAt(dbs, AfterAll(dbs, plan, visits, order), c)
  {
    if order != [] {
      var init := order[..|order| - 1];
      OthersStay(dbs, plan, visits, init, c);
      OnlyItsDatabase(AfterAll(dbs, plan, visits, init), plan, visits, order[|order| - 1], c);
      hide Deploy;
    }
  }

  /** A deployment changes only the databases that the environments it reached lead to. */
  lemma OnlyReachedChange(before: Databases, after: Databases, plan: Plan, visits: seq<Visit>, lo: nat,
                          results: seq<DeploymentResult>, order: seq<nat>, c: string)
    requires Deployed(before, after, plan, visits, lo, results, order)
    requires forall i :: lo <= i < lo + |results| && i < |plan.environments| ==> plan.environments[i].connection != c
    ensures SameAt(before, after, c)
  {
    hide AfterAll, Reported;
    OthersStay(before, plan, visits, order, c);
  }

  /** No other environment from `lo` to `hi` leads to the database of environment `i`. */
  predicate HasOwnDatabase(envs: seq<Environment>, lo: nat, hi: nat, i: nat)
    requires lo <= hi <= |envs| && i < |envs|
  {
    forall j :: lo <= j < hi && j != i ==> envs[j].connection != envs[i].connection
  }

  /**
   An environment with a database of its own: if it was deployed to, its result and its database are those of
   one deployment from the database as it was before, whatever the order; if it was not, its database is as before.
   */
  lemma OwnDatabaseIsExact(before: Databases, after: Databases, plan: Plan, visits: seq<Visit>, lo: nat,
                           results: seq<DeploymentResult>, order: seq<nat>, i: nat)
    requires Deployed(before, after, plan, visits, lo, results, order) && i < |plan.environments|
    requires HasOwnDatabase(plan.environments, lo, lo + |results|, i)
    ensures
      var env := plan.environments[i];
      if lo <= i < lo + |results|
      then (DbAt(after, env.connection), results[i - lo])
        == Outcome(DbAt(before, env.connection), env, plan.migrations, plan.dryRun, VisitAt(visits, i))
      else SameAt(before, after, env.connection)
  {
    var c := plan.environments[i].connection;
    hide AfterAll, ResultOf, Outcome;
    if lo <= i < lo + |results| {
      assert i in order;
      var k :| 0 <= k < |order| && order[k] == i;
      forall l | 0 <= l < |order| && l != k ensures plan.environments[order[l]].connection != c {}
      OneVisitIsExact(before, plan, visits, order, k);
      assert results[order[k] - lo] == ResultOf(before, plan, visits, order, k);
    } else {
      OthersStay(before, plan, visits, order, c);
    }
  }

  lemma OneVisitIsExact(before: Databases, plan: Plan, visits: seq<Visit>, order: seq<nat>, k: nat)
    requires Within(order, plan) && k < |order|
    requires forall l ::
      0 <= l < |order| && l != k ==> plan.environments[order[l]].connection != plan.environments[order[k]].connection
    ensures
      var i := order[k];
      var env := plan.environments[i];
      (DbAt(AfterAll(before, plan, visits, order), env.connection), ResultOf(before, plan, visits, order, k))
        == Outcome(DbAt(before, env.connection), env, plan.migrations, plan.dryRun, VisitAt(visits, i))
  {
    var i := order[k];
    var c, first, rest := plan.environments[i].connection, order[..k], order[k + 1..];
    assert order == first + ([i] + rest);
    assert order == (first + [i]) + rest;
    var middle := AfterAll(before, plan, visits, first);
    hide AfterAll, Outcome;
    OthersStay(before, plan, visits, first, c);
    AfterBoth(before, plan, visits, first + [i], rest);
    OneMoreDeployed(before, plan, visits, first, i);
    OnlyItsDatabase(middle, plan, visits, i, c);
    OthersStay(AfterAll(before, plan, visits, first + [i]), plan, visits, rest, c);
  }

  // ---------- one environment ----------

  class Fleet {
    var dbs: Databases

    constructor (databases: Databases)
      ensures dbs == databases
    {
      dbs := databases;
    }
  }

  method FirstFailure(results: seq<DeploymentResult>) returns (k: nat)
    ensures k <= |results| && (k < |results| <==> AnyFailed(results))
    ensures k < |results| ==> results[k].status == Failed
    ensures forall i :: 0 <= i < k ==> results[i].status != Failed
  {
    k := 0;
    while k < |results| && results[k].status != Failed
      invariant k <= |results| && forall i :: 0 <= i < k ==> results[i].status != Failed
    {
      k := k + 1;
    }
  }

  method ExecuteOnEnvironment(fleet: Fleet, plan: Plan, visits: seq<Visit>, i: nat) returns (r: DeploymentResult)
    requires i < |plan.environments|
    modifies fleet
    ensures (fleet.dbs, r) == Deploy(old(fleet.dbs), plan, visits, i)
  {
    var env, ms, v := plan.environments[i], plan.migrations, VisitAt(visits, i);
    if plan.dryRun {
      return if v.connects then DeploymentResult(env.name, Success, |ms|) else DeploymentResult(env.name, Failed, 0);
    }
    if !v.connects { return DeploymentResult(env.name, Failed, 0); }
    var db := DbAt(fleet.dbs, env.connection);
    var applied := 0;
    for n := 0 to |ms|
      invariant var p := E.ExecuteAll(DbAt(old(fleet.dbs), env.connection), ms[..n], true, v.turns);
                p.ok && p.db == db && applied == |p.statuses| == E.Done(p)
      invariant fleet.dbs == old(fleet.dbs)
    {
      assert ms[..n + 1][..n] == ms[..n];
      var (d, ok) := E.Execute(db, ms[n], true, E.TurnAt(v.turns, n));
      db := d;
      if !ok {
        E.FailureEnds(DbAt(old(fleet.dbs), env.connection), ms, true, v.turns, n + 1);
        fleet.dbs := fleet.dbs[env.connection := db];
        return DeploymentResult(env.name, Failed, applied);
      }
      applied := applied + 1;
    }
    assert ms[..|ms|] == ms;
    fleet.dbs := fleet.dbs[env.connection := db];
    return DeploymentResult(env.name, Success, applied);
  }

  // ---------- together ----------

  /** Deploys to environments `lo` to `hi`, in any order; the results are in plan order. */
  method RunParallel(fleet: Fleet, plan: Plan, lo: nat, hi: nat, visits: seq<Visit>)
      returns (results: seq<DeploymentResult>, ghost order: seq<nat>)
    requires lo <= hi <= |plan.environments|
    modifies fleet
    ensures |results| == hi - lo && Deployed(old(fleet.dbs), fleet.dbs, plan, visits, lo, results, order)
  {
    var slots := new DeploymentResult[hi - lo](_ => DeploymentResult("", Failed, 0));
    var left := Indices(lo, hi);
    order := [];
    hide Deploy, PartlyDeployed, Deployed;
    NothingDeployed(fleet.dbs, plan, visits, lo, hi, slots[..]);
    while left != {}
      invariant PartlyDeployed(old(fleet.dbs), fleet.dbs, plan, visits, lo, hi, left, slots[..], order)
      decreases left
    {
      var i :| i in left;
      ghost var middle, were, waiting := fleet.dbs, slots[..], left;
      left := left - {i};
      PartsInRange(old(fleet.dbs), middle, plan, visits, lo, hi, waiting, were, order, i);
      var r := ExecuteOnEnvironment(fleet, plan, visits, i);
      slots[i - lo] := r;
      assert slots[..] == were[i - lo := r];
      OneDeployed(old(fleet.dbs), middle, fleet.dbs, plan, visits, lo, hi, waiting, were, order, i, r);
      order := order + [i];
    }
    results := slots[..];
    AllDeployed(old(fleet.dbs), fleet.dbs, plan, visits, lo, hi, results, order);
  }

  /** Each position from `lo` to `hi` but for those in `left`, once. */
  ghost predicate IsOrderBut(order: seq<nat>, lo: nat, hi: nat, left: set<nat>) {
    && |order| + |left| == hi - lo && (forall i :: i in left ==> lo <= i < hi)
    && (forall k :: 0 <= k < |order| ==> lo <= order[k] < hi && order[k] !in left)
    && (forall i :: lo <= i < hi && i !in left ==> i in order)
    && forall k, l :: 0 <= k < l < |order| ==> order[k] != order[l]
  }

  lemma OneLessLeft(order: seq<nat>, lo: nat, hi: nat, left: set<nat>, i: nat)
    requires IsOrderBut(order, lo, hi, left) && i in left
    ensures IsOrderBut(order + [i], lo, hi, left - {i})
  {
    var longer := order + [i];
    assert longer[|order|] == i;
    forall j | lo <= j < hi && j !in left - {i} ensures j in longer { assert j == i || j in order; }
  }

  /** Environments `lo` to `hi` but for those in `left` have been deployed to, in this order. */
  ghost predicate PartlyDeployed(before: Databases, now: Databases, plan: Plan, visits: seq<Visit>, lo: nat, hi: nat,
                                 left: set<nat>, slots: seq<DeploymentResult>, order: seq<nat>)
  {
    && lo <= hi <= |plan.environments| && |slots| == hi - lo && IsOrderBut(order, lo, hi, left)
    && Reported(before, plan, visits, lo, slots, order) && now == AfterAll(before, plan, visits, order)
  }

  lemma NothingDeployed(dbs: Databases, plan: Plan, visits: seq<Visit>, lo: nat, hi: nat, slots: seq<DeploymentResult>)
    requires lo <= hi <= |plan.environments| && |slots| == hi - lo
    ensures PartlyDeployed(dbs, dbs, plan, visits, lo, hi, Indices(lo, hi), slots, [])
  {
  }

  lemma AllDeployed(before: Databases, now: Databases, plan: Plan, visits: seq<Visit>, lo: nat, hi: nat,
                    slots: seq<DeploymentResult>, order: seq<nat>)
    requires PartlyDeployed(before, now, plan, visits, lo, hi, {}, slots, order)
    ensures |slots| == hi - lo && Deployed(before, now, plan, visits, lo, slots, order)
  {
    hide AfterAll, Reported;
  }

  lemma PartsInRange(before: Databases, now: Databases, plan: Plan, visits: seq<Visit>, lo: nat, hi: nat,
                     left: set<nat>, slots: seq<DeploymentResult>, order: seq<nat>, i: nat)
    requires PartlyDeployed(before, now, plan, visits, lo, hi, left, slots, order) && i in left
    ensures lo <= i < hi <= |plan.environments| && |slots| == hi - lo && i !in order
  {
    hide AfterAll, Reported;
  }

  lemma OneDeployed(before: Databases, middle: Databases, now: Databases, plan: Plan, visits: seq<Visit>, lo: nat,
                    hi: nat, left: set<nat>, slots: seq<DeploymentResult>, order: seq<nat>, i: nat, r: DeploymentResult)
    requires PartlyDeployed(before, middle, plan, visits, lo, hi, left, slots, order) && i in left && lo <= i < hi
    requires (now, r) == Deploy(middle, plan, visits, i)
    ensures PartlyDeployed(before, now, plan, visits, lo, hi, left - {i}, slots[i - lo := r], order + [i])
  {
    PartsInRange(before, middle, plan, visits, lo, hi, left, slots, order, i);
    OneLessLeft(order, lo, hi, left, i);
    assert Within(order, plan);
    hide Deploy, AfterAll, ResultOf, IsOrderBut, Reported;
    OneMoreDeployed(before, plan, visits, order, i);
    OneMoreReported(before, plan, visits, lo, slots, order, i, r);
  }

  lemma OneMoreReported(before: Databases, plan: Plan, visits: seq<Visit>, lo: nat, slots: seq<DeploymentResult>,
                        order: seq<nat>, i: nat, r: DeploymentResult)
    requires Reported(before, plan, visits, lo, slots, order) && lo <= i < lo + |slots| <= |plan.environments|
      && i !in order
    requires Within(order + [i], plan) && r == ResultOf(before, plan, visits, order + [i], |order|)
    requires forall k ::
      0 <= k < |order| ==> ResultOf(before, plan, visits, order + [i], k) == ResultOf(before, plan, visits, order, k)
    ensures Reported(before, plan, visits, lo, slots[i - lo := r], order + [i])
  {
    hide ResultOf;
    var longer, filled := order + [i], slots[i - lo := r];
    forall k | 0 <= k < |longer|
      ensures lo <= longer[k] < lo + |filled| && filled[longer[k] - lo] == ResultOf(before, plan, visits, longer, k)
    {
      if k < |order| {
        assert longer[k] == order[k] && order[k] in order;
        assert slots[order[k] - lo] == ResultOf(before, plan, visits, order, k);
      }
    }
  }

  function Indices(lo: nat, hi: nat): (s: set<nat>)
    requires lo <= hi
    ensures |s| == hi - lo && forall i :: i in s <==> lo <= i < hi
  {
    if lo == hi then {} else Indices(lo, hi - 1) + {hi - 1}
  }

  // ---------- one by one ----------

  function Ascending(n: nat): (s: seq<nat>)
    ensures |s| == n && forall i :: 0 <= i < n ==> s[i] == i
  {
    if n == 0 then [] else Ascending(n - 1) + [n - 1]
  }

  /** Only the last result may be a failure, and short of the end it is one. */
  predicate StopsAtFailure(plan: Plan, results: seq<DeploymentResult>) {
    && (forall i :: 0 <= i < |results| - 1 ==> results[i].status == Success)
    && (|results| < |plan.environments| ==> |results| > 0 && results[|results| - 1].status == Failed)
  }

  /** Stops after the first failure. */
  method Sequential(fleet: Fleet, plan: Plan, visits: seq<Visit>) returns (results: seq<DeploymentResult>)
    modifies fleet
    ensures Deployed(old(fleet.dbs), fleet.dbs, plan, visits, 0, results, Ascending(|results|))
    ensures StopsAtFailure(plan, results)
  {
    hide Deploy, Deployed, Ascending;
    results := [];
    var envs := plan.environments;
    NothingInOrder(fleet.dbs, plan, visits);
    for i := 0 to |envs|
      invariant |results| == i && Deployed(old(fleet.dbs), fleet.dbs, plan, visits, 0, results, Ascending(i))
      invariant forall k :: 0 <= k < i ==> results[k].status == Success
    {
      ghost var middle := fleet.dbs;
      var r := ExecuteOnEnvironment(fleet, plan, visits, i);
      DeployedAlone(middle, fleet.dbs, plan, visits, i, r);
      Batches(old(fleet.dbs), middle, fleet.dbs, plan, visits, results, Ascending(i), [r], [i]);
      ResultsAreNamed(middle, fleet.dbs, plan, visits, i, [r], [i], 0);
      assert Ascending(i) + [i] == Ascending(i + 1);
      results := results + [r];
      if r.status == Failed { break; }
    }
  }

  lemma NothingInOrder(dbs: Databases, plan: Plan, visits: seq<Visit>)
    ensures Deployed(dbs, dbs, plan, visits, 0, [], Ascending(0))
  {
  }

  lemma DeployedAlone(before: Databases, after: Databases, plan: Plan, visits: seq<Visit>, i: nat, r: DeploymentResult)
    requires i < |plan.environments| && (after, r) == Deploy(before, plan, visits, i)
    ensures Deployed(before, after, plan, visits, i, [r], [i])
  {
    OneMoreDeployed(before, plan, visits, [], i);
    assert [] + [i] == [i];
    hide Deploy;
  }

  // ---------- in batches ----------

  function BatchSize(strategy: int, plan: int): (b: nat)
    ensures b > 0
  {
    if strategy > 0 then strategy else if plan > 0 then plan else 1
  }

  /** A whole number of batches. */
  predicate IsBoundary(n: nat, b: nat)
    requires b > 0
  {
    n == 0 || (n >= b && IsBoundary(n - b, b))
  }

  /** The start of the last of the batches that hold the first `n` environments. */
  function LastBatch(n: nat, b: nat): (start: nat)
    requires b > 0
    ensures start <= n <= start + b && (n > 0 ==> start < n) && IsBoundary(start, b)
  {
    if n <= b then 0 else b + LastBatch(n - b, b)
  }

  /**
   The environments deployed to are the first ones, up to the end of a batch; every batch but the last
   succeeded. It stops short only after a batch with a failure or when it is cancelled in between.
   */
  predicate StopsAtBatch(plan: Plan, b: nat, cancelled: set<nat>, results: seq<DeploymentResult>)
    requires b > 0
  {
    var n := |results|;
    && (n == |plan.environments| || IsBoundary(n, b))
    && (forall i :: 0 <= i < LastBatch(n, b) ==> results[i].status == Success)
    && (n < |plan.environments| ==> n > 0 && (n in cancelled || AnyFailed(results[LastBatch(n, b)..])))
  }

  /** One batch after the other. */
  ghost predicate InBatches(order: seq<nat>, b: nat)
    requires b > 0
  {
    forall m :: 0 <= m <= |order| && IsBoundary(m, b) ==> IsOrder(order[..m], 0, m)
  }

  method Rolling(fleet: Fleet, strategySize: int, plan: Plan, visits: seq<Visit>, cancelled: set<nat>)
      returns (results: seq<DeploymentResult>, ghost order: seq<nat>)
    modifies fleet
    ensures Deployed(old(fleet.dbs), fleet.dbs, plan, visits, 0, results, order)
    ensures StopsAtBatch(plan, BatchSize(strategySize, plan.batchSize), cancelled, results)
      && InBatches(order, BatchSize(strategySize, plan.batchSize))
  {
    hide Deployed, IsBoundary, LastBatch, AnyFailed, InBatches, AfterAll;
    results, order := [], [];
    var b := BatchSize(strategySize, plan.batchSize);
    NothingYet(fleet.dbs, plan, visits, b);
    var total := |plan.environments|;
    var i := 0;
    BoundaryZero(b);
    while i < total
      invariant IsBoundary(i, b) && (i <= total ==> |results| == i)
        && (i > total ==> |results| == total && i - b < total)
      invariant Deployed(old(fleet.dbs), fleet.dbs, plan, visits, 0, results, order) && InBatches(order, b)
      invariant forall k :: 0 <= k < |results| ==> results[k].status == Success
    {
      var end := if i + b > total then total else i + b;
      ghost var middle := fleet.dbs;
      var batch, more := RunParallel(fleet, plan, i, end, visits);
      Batches(old(fleet.dbs), middle, fleet.dbs, plan, visits, results, order, batch, more);
      forall k | 0 <= k < |batch| ensures batch[k].status != RolledBack {
        ResultsAreNamed(middle, fleet.dbs, plan, visits, i, batch, more, k);
      }
      BatchIsNext(old(fleet.dbs), middle, fleet.dbs, plan, visits, results, order, batch, more, b);
      results, order := results + batch, order + more;
      LastBatchIs(i, end, b);
      assert results[i..] == batch;
      var failure := FirstFailure(batch);
      if failure < |batch| { break; }
      if end < total {
        if end in cancelled { return; }
      }
      i := i + b;
    }
  }

  lemma NothingYet(dbs: Databases, plan: Plan, visits: seq<Visit>, b: nat)
    requires b > 0
    ensures Deployed(dbs, dbs, plan, visits, 0, [], []) && InBatches([], b)
  {
  }

  lemma BatchIsNext(before: Databases, middle: Databases, after: Databases, plan: Plan, visits: seq<Visit>,
                    results: seq<DeploymentResult>, order: seq<nat>, batch: seq<DeploymentResult>, more: seq<nat>,
                    b: nat)
    requires b > 0 && InBatches(order, b) && IsBoundary(|results|, b) && |batch| <= b
    requires Deployed(before, middle, plan, visits, 0, results, order)
      && Deployed(middle, after, plan, visits, |results|, batch, more)
    ensures InBatches(order + more, b)
  {
    hide AfterAll, ResultOf;
    var all := order + more;
    assert |order| == |results| && |all| == |results| + |batch|;
    OrdersJoin(order, more, |results|, |all|);
    hide IsOrder;
    forall m: nat | m <= |all| && IsBoundary(m, b) ensures IsOrder(all[..m], 0, m) {
      if m <= |order| { assert all[..m] == order[..m]; } else {
        NextBoundary(|results|, m, b);
        assert all[..m] == all;
      }
    }
  }

  lemma {:induction false} NextBoundary(i: nat, m: nat, b: nat)
    requires b > 0 && IsBoundary(i, b) && IsBoundary(m, b) && i < m
    ensures i + b <= m
  {
    if i > 0 { NextBoundary(i - b, m - b, b); }
  }

  lemma BoundaryZero(b: nat)
    requires b > 0
    ensures IsBoundary(0, b) && LastBatch(0, b) == 0
  {
  }

  lemma {:induction false} LastBatchIs(i: nat, end: nat, b: nat)
    requires b > 0 && IsBoundary(i, b) && i < end <= i + b
    ensures LastBatch(end, b) == i && IsBoundary(i + b, b)
  {
    if i > 0 { LastBatchIs(i - b, end - b, b); }
  }

  // ---------- a canary first ----------

  function Percentage(strategy: real, plan: real): real {
    if strategy != 0.0 then strategy else if plan != 0.0 then plan else 10.0
  }

  /** The share of `n`, rounded down, but at least one. */
  function CanaryCount(n: nat, percentage: real): (k: nat)
    requires n > 0 && 1.0 <= percentage <= 50.0
    ensures 1 <= k <= n && (n > 1 ==> 2 * k <= n)
    ensures n as real * percentage < k as real * 100.0 + 100.0
      && (k > 1 ==> k as real * 100.0 <= n as real * percentage)
  {
    var share := n as real * percentage / 100.0;
    assert 0.0 <= share && share <= n as real / 2.0;
    var k := share.Floor;
    if k < 1 then 1 else if k > n then n else k
  }

  predicate PercentageIsValid(p: real) {
    1.0 <= p <= 50.0
  }

  /** The others are deployed to exactly if every canary succeeded, and after the canaries. */
  ghost predicate StopsAtCanary(plan: Plan, percentage: real, results: seq<DeploymentResult>, order: seq<nat>) {
    var p, n := Percentage(percentage, plan.canaryPercentage), |plan.environments|;
    && PercentageIsValid(p)
    && if n == 0 then results == [] else
         var k := CanaryCount(n, p);
         && |results| >= k && |results| == (if AnyFailed(results[..k]) then k else n)
         && |order| >= k && IsOrder(order[..k], 0, k)
  }

  method Canary(fleet: Fleet, percentage: real, plan: Plan, visits: seq<Visit>)
      returns (r: Option<seq<DeploymentResult>>, ghost order: seq<nat>)
    modifies fleet
    ensures r.None? <==> !PercentageIsValid(Percentage(percentage, plan.canaryPercentage))
    ensures r.None? ==> fleet.dbs == old(fleet.dbs)
    ensures r.Some? ==>
      Deployed(old(fleet.dbs), fleet.dbs, plan, visits, 0, r.value, order)
      && StopsAtCanary(plan, percentage, r.value, order)
  {
    var p, n := Percentage(percentage, plan.canaryPercentage), |plan.environments|;
    order := [];
    if p < 1.0 || p > 50.0 { return None, order; }
    if n == 0 { return Some([]), order; }
    var k := CanaryCount(n, p);
    var canary, first := RunParallel(fleet, plan, 0, k, visits);
    var failure := FirstFailure(canary);
    assert canary[..k] == canary && first[..k] == first;
    order := first;
    if failure < |canary| || k == n { return Some(canary), order; }
    ghost var middle := fleet.dbs;
    var rest, others := RunParallel(fleet, plan, k, n, visits);
    Batches(old(fleet.dbs), middle, fleet.dbs, plan, visits, canary, first, rest, others);
    hide AfterAll, ResultOf, CanaryCount, AnyFailed;
    order := first + others;
    assert (canary + rest)[..k] == canary && order[..k] == first;
    return Some(canary + rest), order;
  }
}
