/**
 Deployments at the same time, migration by migration. Where no two environments share a database every
 interleaving ends as any order of whole deployments does; on a shared database it may end as none does.
 */
module Interleaving {
  import opened Wrappers
  import opened Schema
  import opened Rollout
  import E = Execution
  import P = Parallel

  datatype Progress = Progress(statuses: seq<E.Status>, ok: bool)

  datatype Moment = Moment(dbs: Databases, progress: seq<Progress>)

  predicate Fits(m: Moment, plan: Plan) {
    |m.progress| == |plan.environments|
  }

  /** Environment `i` has run all its migrations, or one of them failed, or it runs none. */
  predicate IsFinished(m: Moment, plan: Plan, visits: seq<Visit>, i: nat)
    requires Fits(m, plan) && i < |plan.environments|
  {
    plan.dryRun || !VisitAt(visits, i).connects || !m.progress[i].ok || |m.progress[i].statuses| >= |plan.migrations|
  }

  /** Environment `i` runs its next migration, if there is one. */
  function RunNext(m: Moment, plan: Plan, visits: seq<Visit>, i: nat): (n: Moment)
    requires Fits(m, plan) && i < |plan.environments|
    ensures Fits(n, plan)
  {
    if IsFinished(m, plan, visits, i) then m
    else
      var c, p := plan.environments[i].connection, m.progress[i];
      var next := plan.migrations[|p.statuses|];
      var (d, ok) := E.Execute(DbAt(m.dbs, c), next, true, E.TurnAt(VisitAt(visits, i).turns, |p.statuses|));
      var status := E.Status(next.version, if ok then E.Applied else E.Failed);
      Moment(m.dbs[c := d], m.progress[i := Progress(p.statuses + [status], ok)])
  }

  function Start(dbs: Databases, plan: Plan): (m: Moment)
    ensures Fits(m, plan)
  {
    Moment(dbs, seq(|plan.environments|, _ => Progress([], true)))
  }

  /** The environments take turns as the schedule says. */
  function After(dbs: Databases, plan: Plan, visits: seq<Visit>, schedule: seq<nat>): (m: Moment)
    requires Within(schedule, plan)
    ensures Fits(m, plan)
  {
    if schedule == [] then Start(dbs, plan)
    else RunNext(After(dbs, plan, visits, schedule[..|schedule| - 1]), plan, visits, schedule[|schedule| - 1])
  }

  function ResultAt(m: Moment, plan: Plan, visits: seq<Visit>, i: nat): DeploymentResult
    requires Fits(m, plan) && i < |plan.environments|
  {
    var env, p := plan.environments[i], m.progress[i];
    if plan.dryRun then (if VisitAt(visits, i).connects
      then DeploymentResult(env.name, Success, |plan.migrations|) else DeploymentResult(env.name, Failed, 0))
    else if !VisitAt(visits, i).connects then DeploymentResult(env.name, Failed, 0)
    else DeploymentResult(env.name,
      if p.ok then Success else Failed, E.Done(E.Report(DbAt(m.dbs, env.connection), p.statuses, p.ok)))
  }

  // ---------- a database of one's own ----------

  /** Environment `i` has run its first migrations from the database as it was, as if it were alone. */
  ghost predicate IsAlone(m: Moment, dbs: Databases, plan: Plan, visits: seq<Visit>, i: nat)
    requires Fits(m, plan) && i < |plan.environments|
  {
    var c, p, n := plan.environments[i].connection, m.progress[i], |m.progress[i].statuses|;
    && n <= |plan.migrations|
    && (plan.dryRun || !VisitAt(visits, i).connects ==> n == 0)
    && E.Report(DbAt(m.dbs, c), p.statuses, p.ok)
      == E.ExecuteAll(DbAt(dbs, c), plan.migrations[..n], true, VisitAt(visits, i).turns)
  }

  lemma OwnStep(m: Moment, dbs: Databases, plan: Plan, visits: seq<Visit>, i: nat)
    requires Fits(m, plan) && i < |plan.environments| && IsAlone(m, dbs, plan, visits, i)
    ensures IsAlone(RunNext(m, plan, visits, i), dbs, plan, visits, i)
  {
    var n := |m.progress[i].statuses|;
    if !IsFinished(m, plan, visits, i) {
      var ms, turns, start := plan.migrations, VisitAt(visits, i).turns, DbAt(dbs, plan.environments[i].connection);
      assert ms[..n + 1][..n] == ms[..n] && ms[..n + 1][n] == ms[n];
      assert E.ExecuteAll(start, ms[..n + 1], true, turns)
        == E.Continue(E.ExecuteAll(start, ms[..n], true, turns), ms[n], true, E.TurnAt(turns, n));
      hide E.ExecuteAll, E.Execute;
    }
  }

  lemma OtherStep(m: Moment, dbs: Databases, plan: Plan, visits: seq<Visit>, i: nat, j: nat)
    requires Fits(m, plan) && i < |plan.environments| && j < |plan.environments| && i != j
    requires plan.environments[j].connection != plan.environments[i].connection && IsAlone(m, dbs, plan, visits, i)
    ensures IsAlone(RunNext(m, plan, visits, j), dbs, plan, visits, i)
  {
    hide E.ExecuteAll, E.Execute;
  }

  lemma {:induction false} StaysAlone(dbs: Databases, plan: Plan, visits: seq<Visit>, schedule: seq<nat>, i: nat)
    requires Within(schedule, plan) && i < |plan.environments|
      && HasOwnDatabase(plan.environments, 0, |plan.environments|, i)
    ensures IsAlone(After(dbs, plan, visits, schedule), dbs, plan, visits, i)
  {
    if schedule == [] {
      assert plan.migrations[..0] == [];
    } else {
      var init, j := schedule[..|schedule| - 1], schedule[|schedule| - 1];
      StaysAlone(dbs, plan, visits, init, i);
      var m := After(dbs, plan, visits, init);
      hide IsAlone, RunNext;
      if i == j { OwnStep(m, dbs, plan, visits, i); } else { OtherStep(m, dbs, plan, visits, i, j); }
    }
  }

  /** An environment with a database of its own that has finished ends as if it had been deployed to at once. */
  lemma FinishedIsExact(dbs: Databases, plan: Plan, visits: seq<Visit>, schedule: seq<nat>, i: nat)
    requires Within(schedule, plan) && i < |plan.environments|
      && HasOwnDatabase(plan.environments, 0, |plan.environments|, i)
    requires IsFinished(After(dbs, plan, visits, schedule), plan, visits, i)
    ensures
      var m, env := After(dbs, plan, visits, schedule), plan.environments[i];
      (DbAt(m.dbs, env.connection), ResultAt(m, plan, visits, i))
        == Outcome(DbAt(dbs, env.connection), env, plan.migrations, plan.dryRun, VisitAt(visits, i))
  {
    var m, env, ms, v := After(dbs, plan, visits, schedule), plan.environments[i], plan.migrations, VisitAt(visits, i);
    StaysAlone(dbs, plan, visits, schedule, i);
    var n := |m.progress[i].statuses|;
    hide After;
    var d := DbAt(dbs, env.connection);
    if plan.dryRun || !v.connects {
      assert ms[..0] == [] && E.ExecuteAll(d, [], true, v.turns) == E.Report(d, [], true);
    } else if m.progress[i].ok {
      assert ms[..n] == ms;
    } else {
      E.FailureEnds(d, ms, true, v.turns, n);
    }
  }

  lemma {:induction false} UnreachedStay(dbs: Databases, plan: Plan, visits: seq<Visit>, schedule: seq<nat>, c: string)
    requires Within(schedule, plan) && forall i :: 0 <= i < |plan.environments| ==> plan.environments[i].connection != c
    ensures DbAt(After(dbs, plan, visits, schedule).dbs, c) == DbAt(dbs, c)
  {
    if schedule != [] {
      UnreachedStay(dbs, plan, visits, schedule[..|schedule| - 1], c);
      hide E.Execute;
    }
  }

  /**
   Where no two environments share a database, every interleaving that finishes ends as every order of whole
   deployments does.
   */
  lemma InterleavingIsAnyOrder(dbs: Databases, plan: Plan, visits: seq<Visit>, schedule: seq<nat>, after: Databases,
                               results: seq<DeploymentResult>, order: seq<nat>)
    requires Within(schedule, plan)
      && forall i :: 0 <= i < |plan.environments| ==> HasOwnDatabase(plan.environments, 0, |plan.environments|, i)
    requires forall i ::
      0 <= i < |plan.environments| ==> IsFinished(After(dbs, plan, visits, schedule), plan, visits, i)
    requires Deployed(dbs, after, plan, visits, 0, results, order) && |results| == |plan.environments|
    ensures
      var m := After(dbs, plan, visits, schedule);
      && (forall c :: DbAt(m.dbs, c) == DbAt(after, c))
      && forall i :: 0 <= i < |plan.environments| ==> ResultAt(m, plan, visits, i) == results[i]
  {
    var m := After(dbs, plan, visits, schedule);
    hide After, Deployed, IsFinished, ResultAt, Outcome, HasOwnDatabase;
    forall i | 0 <= i < |plan.environments|
      ensures DbAt(m.dbs, plan.environments[i].connection) == DbAt(after, plan.environments[i].connection)
        && ResultAt(m, plan, visits, i) == results[i]
    {
      FinishedIsExact(dbs, plan, visits, schedule, i);
      OwnDatabaseIsExact(dbs, after, plan, visits, 0, results, order, i);
    }
    forall c ensures DbAt(m.dbs, c) == DbAt(after, c) {
      if forall i :: 0 <= i < |plan.environments| ==> plan.environments[i].connection != c {
        UnreachedStay(dbs, plan, visits, schedule, c);
        OnlyReachedChange(dbs, after, plan, visits, 0, results, order, c);
      }
    }
  }

  // ---------- a shared database ----------

  /** A migration that only defines one object, and that a database takes the first time. */
  predicate Defines(m: Migration, o: Object, b: Body) {
    m.up == [Define(o, b)] && m.version != ""
  }

  lemma DefineRuns(d: E.Db, m: Migration, o: Object, b: Body)
    requires Defines(m, o, b)
    ensures
      var (e, ok) := E.Execute(d, m, true, E.Turn(E.Fine, 0));
      && (ok <==> m.version !in d.history) && e.schema == d.schema[o := b]
      && e.history == if ok then d.history[m.version := d.clock] else d.history
  {
    RunOne(m.up[0], d.schema);
    hide Run;
  }

  /**
   Two migrations that define the same object: the first deployment leaves the second definition, another one the
   first.
   */
  lemma BothOrAgain(d: E.Db, env: Environment, ms: seq<Migration>, o: Object, a: Body, b: Body)
    requires |ms| == 2 && Defines(ms[0], o, a) && Defines(ms[1], o, b) && ms[0].version != ms[1].version
    ensures
      var e := Outcome(d, env, ms, false, Visit(true, [])).0;
      && (ms[0].version in d.history ==> e.schema == d.schema[o := a])
      && (ms[0].version !in d.history && ms[1].version !in d.history ==>
        e.schema == d.schema[o := a][o := b] && ms[0].version in e.history)
  {
    var one, two := E.ExecuteAll(d, ms[..1], true, []), E.ExecuteAll(d, ms, true, []);
    assert ms[..1][..0] == [] && ms[..1][0] == ms[0] && E.ExecuteAll(d, [], true, []) == E.Report(d, [], true);
    assert one == E.Continue(E.Report(d, [], true), ms[0], true, E.Turn(E.Fine, 0));
    assert two == E.Continue(one, ms[1], true, E.Turn(E.Fine, 0));
    DefineRuns(d, ms[0], o, a);
    hide E.ExecuteAll, E.Execute;
    DefineRuns(one.db, ms[1], o, b);
  }

  /**
   Two environments with one database and two migrations that define the same object: if the second environment
   runs its first migration between the two of the first one, the later definition stays. In either order of whole
   deployments, the second deployment puts the earlier definition back before it fails.
   */
  lemma SharedDatabaseEndsAsNoOrder(dbs: Databases, env: Environment, ms: seq<Migration>, o: Object, a: Body, b: Body,
                                    order: seq<nat>)
    requires |ms| == 2 && Defines(ms[0], o, a) && Defines(ms[1], o, b) && a != b && ms[0].version != ms[1].version
    requires DbAt(dbs, env.connection).history == map[] && IsOrder(order, 0, 2)
    ensures
      var plan := Plan([env, env], ms, 0, 0.0, false);
      var m := After(dbs, plan, [], [0, 1, 0]);
      && IsFinished(m, plan, [], 0) && IsFinished(m, plan, [], 1)
      && DbAt(m.dbs, env.connection).schema != DbAt(AfterAll(dbs, plan, [], order), env.connection).schema
  {
    var plan, c := Plan([env, env], ms, 0, 0.0, false), env.connection;
    InterleavedEnd(dbs, plan, env, ms, o, a, b);
    OrderedEnd(dbs, plan, env, ms, o, a, b, order);
    hide After, AfterAll, IsFinished;
  }

  lemma OrderedEnd(dbs: Databases, plan: Plan, env: Environment, ms: seq<Migration>, o: Object, a: Body, b: Body,
                   order: seq<nat>)
    requires plan == Plan([env, env], ms, 0, 0.0, false) && DbAt(dbs, env.connection).history == map[]
      && IsOrder(order, 0, 2)
    requires |ms| == 2 && Defines(ms[0], o, a) && Defines(ms[1], o, b) && ms[0].version != ms[1].version
    ensures Get(DbAt(AfterAll(dbs, plan, [], order), env.connection).schema, o) == Some(a)
  {
    var c := env.connection;
    assert order == ([] + [order[0]]) + [order[1]];
    hide Outcome, Defines, Deploy;
    OneMoreDeployed(dbs, plan, [], [], order[0]);
    OneMoreDeployed(dbs, plan, [], [] + [order[0]], order[1]);
    var d := AfterAll(dbs, plan, [], [] + [order[0]]);
    assert d == Deploy(dbs, plan, [], order[0]).0;
    hide AfterAll;
    OnlyItsDatabase(dbs, plan, [], order[0], c);
    OnlyItsDatabase(d, plan, [], order[1], c);
    BothOrAgain(DbAt(dbs, c), env, ms, o, a, b);
    BothOrAgain(DbAt(d, c), env, ms, o, a, b);
  }

  lemma NoneAfter(dbs: Databases, plan: Plan, visits: seq<Visit>)
    ensures After(dbs, plan, visits, []) == Start(dbs, plan)
  {
  }

  lemma AfterMore(dbs: Databases, plan: Plan, visits: seq<Visit>, schedule: seq<nat>, i: nat)
    requires Within(schedule, plan) && i < |plan.environments|
    ensures Within(schedule + [i], plan)
      && After(dbs, plan, visits, schedule + [i]) == RunNext(After(dbs, plan, visits, schedule), plan, visits, i)
  {
    hide RunNext, Start;
    assert (schedule + [i])[..|schedule|] == schedule;
  }

  lemma InterleavedEnd(dbs: Databases, plan: Plan, env: Environment, ms: seq<Migration>, o: Object, a: Body, b: Body)
    requires plan == Plan([env, env], ms, 0, 0.0, false) && DbAt(dbs, env.connection).history == map[]
    requires |ms| == 2 && Defines(ms[0], o, a) && Defines(ms[1], o, b) && ms[0].version != ms[1].version
    ensures
      var m := After(dbs, plan, [], [0, 1, 0]);
      IsFinished(m, plan, [], 0) && IsFinished(m, plan, [], 1) && Get(DbAt(m.dbs, env.connection).schema, o) == Some(b)
  {
    var c, start := env.connection, Start(dbs, plan);
    var x := RunNext(start, plan, [], 0);
    var y := RunNext(x, plan, [], 1);
    var z := RunNext(y, plan, [], 0);
    assert After(dbs, plan, [], [0, 1, 0]) == z by {
      hide RunNext, Start;
      assert [0, 1, 0] == (([] + [0]) + [1]) + [0];
      NoneAfter(dbs, plan, []);
      AfterMore(dbs, plan, [], [], 0);
      AfterMore(dbs, plan, [], [] + [0], 1);
      AfterMore(dbs, plan, [], ([] + [0]) + [1], 0);
    }
    hide After, E.Execute;
    DefineRuns(DbAt(dbs, c), ms[0], o, a);
    DefineRuns(DbAt(x.dbs, c), ms[0], o, a);
    DefineRuns(DbAt(y.dbs, c), ms[1], o, b);
  }

  // ---------- the order a parallel run takes ----------

  /** The environments in the order in which a run of the parallel strategy deploys to them. */
  function OrderOf(steps: seq<P.Step>): seq<nat> {
    if steps == [] then []
    else OrderOf(steps[..|steps| - 1]) + if steps[|steps| - 1].Deploy? then [steps[|steps| - 1].who] else []
  }

  /** `order` holds each environment that has been run, once. */
  predicate HoldsRun(order: seq<nat>, runs: seq<nat>) {
    && (forall k :: 0 <= k < |order| ==> order[k] < |runs|)
    && (forall i :: 0 <= i < |runs| ==> (i in order <==> runs[i] > 0))
    && forall a, b :: 0 <= a < b < |order| ==> order[a] != order[b]
  }

  lemma HoldsOneMore(order: seq<nat>, runs: seq<nat>, i: nat)
    requires HoldsRun(order, runs) && i < |runs| && runs[i] == 0
    ensures HoldsRun(order + [i], runs[i := 1])
  {
    assert i !in order;
    assert (order + [i])[|order|] == i;
    forall j | 0 <= j < |runs| && j != i ensures j in order + [i] <==> j in order {}
    forall k | 0 <= k < |order| ensures order[k] != i { assert order[k] in order; }
  }

  lemma {:induction false} DeployedSoFar(envs: seq<string>, limit: nat, steps: seq<P.Step>, states: seq<P.System>,
                                         k: nat)
    requires limit > 0 && P.IsRun(|envs|, envs, limit, steps, states) && k <= |steps|
    ensures P.Sized(states[k], |envs|) && HoldsRun(OrderOf(steps[..k]), states[k].runs)
  {
    P.AtMostLimitInFlight(envs, limit, steps, states, k);
    if k == 0 {
      assert steps[..0] == [];
    } else {
      var s, step := states[k - 1], steps[k - 1];
      DeployedSoFar(envs, limit, steps, states, k - 1);
      P.AtMostLimitInFlight(envs, limit, steps, states, k - 1);
      assert steps[..k][..k - 1] == steps[..k - 1] && steps[..k][k - 1] == step;
      RunsAfterStep(envs, limit, s, step);
      hide P.IsRun, P.CanStep, P.Take, HoldsRun;
      assert states[k].runs == if step.Deploy? then s.runs[step.who := s.runs[step.who] + 1] else s.runs;
      if step.Deploy? {
        assert states[k].runs[step.who] <= 1;
        HoldsOneMore(OrderOf(steps[..k - 1]), s.runs, step.who);
      } else {
        assert OrderOf(steps[..k]) == OrderOf(steps[..k - 1]);
      }
    }
  }

  lemma RunsAfterStep(envs: seq<string>, limit: nat, s: P.System, step: P.Step)
    requires P.Sized(s, |envs|) && P.CanStep(s, envs, limit, step)
    ensures
      var t := P.Take(s, envs, limit, step);
      if step.Deploy? then step.who < |envs| && t.runs == s.runs[step.who := s.runs[step.who] + 1] else t.runs == s.runs
  {
  }

  /** A run that returns has deployed to every environment once, in the order of its deploying steps. */
  lemma ParallelRunIsAnOrder(envs: seq<string>, limit: nat, steps: seq<P.Step>, states: seq<P.System>)
    requires limit > 0 && P.IsRun(|envs|, envs, limit, steps, states) && states[|steps|].returned
    ensures IsOrder(OrderOf(steps), 0, |envs|)
  {
    DeployedSoFar(envs, limit, steps, states, |steps|);
    assert steps[..|steps|] == steps;
    var runs := states[|steps|].runs;
    forall i | 0 <= i < |envs| ensures runs[i] > 0 { P.ResultsAreInPlanOrder(envs, limit, steps, states, i); }
    hide P.IsRun, OrderOf;
    AllHeld(OrderOf(steps), runs);
  }

  lemma AllHeld(order: seq<nat>, runs: seq<nat>)
    requires HoldsRun(order, runs) && forall i :: 0 <= i < |runs| ==> runs[i] > 0
    ensures IsOrder(order, 0, |runs|)
  {
    var s := set i | i in order;
    SetOfDistinct(order, s);
    assert s == Indices(0, |runs|);
  }

  lemma {:induction false} SetOfDistinct(order: seq<nat>, s: set<nat>)
    requires (s == set i | i in order) && forall a, b :: 0 <= a < b < |order| ==> order[a] != order[b]
    ensures |s| == |order|
  {
    if order != [] {
      var init, last := order[..|order| - 1], order[|order| - 1];
      SetOfDistinct(init, set i | i in init);
      assert s == (set i | i in init) + {last};
    }
  }
}
