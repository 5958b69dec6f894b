/**
 Deploying to every environment at once, with a bound on how many run: one goroutine per environment,
 a semaphore and a wait group, in every interleaving.
 */
module Parallel {
  import opened Wrappers

  /** Where a goroutine is. Its slot of the results is written between `Deployed` and `Stored`. */
  datatype Phase = Unborn | Ready | Holding | Deployed | Stored | Released | Finished

  datatype Result = Result(environment: string, outcome: string)

  /** `runs[i]` counts the deployments to environment `i`, and `outcomes[i]` is what its goroutine computed. */
  datatype System = System(
    spawned: nat, phases: seq<Phase>, tokens: nat, waiting: int, returned: bool,
    results: seq<Option<Result>>, runs: seq<nat>, outcomes: seq<Option<Result>>)

  datatype Step =
    | Spawn
    | Acquire(who: nat)
    | Deploy(who: nat, outcome: string)
    | Store(who: nat)
    | Release(who: nat)
    | Finish(who: nat)
    | Return

  /** The bound of the strategy, else that of the plan, else 5. */
  function Limit(strategy: int, plan: int): (limit: nat)
    ensures limit > 0
    ensures strategy > 0 ==> limit == strategy
    ensures strategy <= 0 && plan > 0 ==> limit == plan
    ensures strategy <= 0 && plan <= 0 ==> limit == 5
  {
    if strategy > 0 then strategy else if plan > 0 then plan else 5
  }

  function Initial(n: nat): System {
    System(0, seq(n, _ => Unborn), 0, 0, false, seq(n, _ => None), seq(n, _ => 0), seq(n, _ => None))
  }

  predicate Sized(s: System, n: nat) {
    |s.phases| == n && |s.results| == n && |s.runs| == n && |s.outcomes| == n && s.spawned <= n
  }

  predicate At(s: System, i: nat, phase: Phase) {
    i < |s.phases| && s.phases[i] == phase
  }

  /** A step the scheduler may take: a full semaphore blocks, and so does a wait group that is not down to zero. */
  predicate CanStep(s: System, envs: seq<string>, limit: nat, step: Step) {
    match step
    case Spawn => !s.returned && s.spawned < |envs|
    case Acquire(i) => At(s, i, Ready) && s.tokens < limit
    case Deploy(i, _) => At(s, i, Holding)
    case Store(i) => At(s, i, Deployed)
    case Release(i) => At(s, i, Stored)
    case Finish(i) => At(s, i, Released)
    case Return => !s.returned && s.spawned == |envs| && s.waiting == 0
  }

  function Move(s: System, i: nat, phase: Phase): System
    requires i < |s.phases|
  {
    s.(phases := s.phases[i := phase])
  }

  function Take(s: System, envs: seq<string>, limit: nat, step: Step): System
    requires Sized(s, |envs|) && CanStep(s, envs, limit, step)
  {
    match step
    case Spawn => Move(s, s.spawned, Ready).(spawned := s.spawned + 1, waiting := s.waiting + 1)
    case Acquire(i) => Move(s, i, Holding).(tokens := s.tokens + 1)
    case Deploy(i, o) => Move(s, i, Deployed).(runs := s.runs[i := s.runs[i] + 1],
      outcomes := s.outcomes[i := Some(Result(envs[i], o))])
    case Store(i) => Move(s, i, Stored).(results := s.results[i := s.outcomes[i]])
    case Release(i) => Move(s, i, Released).(tokens := if s.tokens > 0 then s.tokens - 1 else 0)
    case Finish(i) => Move(s, i, Finished).(waiting := s.waiting - 1)
    case Return => s.(returned := true)
  }

  // ---------- counting ----------

  predicate HoldsToken(p: Phase) { p == Holding || p == Deployed || p == Stored }

  predicate Alive(p: Phase) { p != Unborn && p != Finished }

  function Count(ps: seq<Phase>, which: Phase -> bool): nat {
    if ps == [] then 0 else Count(ps[..|ps| - 1], which) + if which(ps[|ps| - 1]) then 1 else 0
  }

  lemma {:induction false} CountUpdate(ps: seq<Phase>, i: nat, p: Phase, which: Phase -> bool)
    requires i < |ps|
    ensures Count(ps[i := p], which) == Count(ps, which) + (if which(p) then 1 else 0) - if which(ps[i]) then 1 else 0
  {
    if i == |ps| - 1 {
      assert ps[i := p][..i] == ps[..i];
    } else {
      CountUpdate(ps[..|ps| - 1], i, p, which);
      assert ps[i := p][..|ps| - 1] == ps[..|ps| - 1][i := p];
    }
  }

  lemma {:induction false} CountZero(ps: seq<Phase>, which: Phase -> bool)
    ensures Count(ps, which) == 0 <==> forall i :: 0 <= i < |ps| ==> !which(ps[i])
  {
    if ps != [] { CountZero(ps[..|ps| - 1], which); }
  }

  /** Steps left for a goroutine in each phase. */
  function Left(p: Phase): nat {
    match p
    case Unborn => 6
    case Ready => 5
    case Holding => 4
    case Deployed => 3
    case Stored => 2
    case Released => 1
    case Finished => 0
  }

  function LeftOf(ps: seq<Phase>): nat {
    if ps == [] then 0 else LeftOf(ps[..|ps| - 1]) + Left(ps[|ps| - 1])
  }

  lemma {:induction false} LeftUpdate(ps: seq<Phase>, i: nat, p: Phase)
    requires i < |ps|
    ensures LeftOf(ps[i := p]) == LeftOf(ps) + Left(p) - Left(ps[i])
  {
    if i == |ps| - 1 {
      assert ps[i := p][..i] == ps[..i];
    } else {
      LeftUpdate(ps[..|ps| - 1], i, p);
      assert ps[i := p][..|ps| - 1] == ps[..|ps| - 1][i := p];
    }
  }

  /** Steps left for the whole system. */
  function Measure(s: System): nat {
    LeftOf(s.phases) + if s.returned then 0 else 1
  }

  // ---------- the invariant ----------

  /**
   A goroutine before `Deployed` has not run, later it has run once; from `Stored` on its slot holds what it computed.
   */
  ghost predicate SlotIsRight(s: System, envs: seq<string>, i: nat)
    requires Sized(s, |envs|) && i < |envs|
  {
    var p := s.phases[i];
    && (p == Unborn <==> i >= s.spawned)
    && s.runs[i] == (if Left(p) <= 3 then 1 else 0)
    && (Left(p) <= 3 <==> s.outcomes[i].Some?)
    && (s.outcomes[i].Some? ==> s.outcomes[i].value.environment == envs[i])
    && s.results[i] == if Left(p) <= 2 then s.outcomes[i] else None
  }

  ghost predicate Invariant(s: System, envs: seq<string>, limit: nat) {
    && Sized(s, |envs|) && limit > 0
    && s.tokens == Count(s.phases, HoldsToken) && s.tokens <= limit
    && s.waiting == Count(s.phases, Alive)
    && (forall i :: 0 <= i < |envs| ==> SlotIsRight(s, envs, i))
    && (s.returned ==> s.spawned == |envs| && s.waiting == 0)
  }

  lemma InitialIsRight(envs: seq<string>, limit: nat)
    requires limit > 0
    ensures Invariant(Initial(|envs|), envs, limit)
  {
    var s := Initial(|envs|);
    CountZero(s.phases, HoldsToken);
    CountZero(s.phases, Alive);
  }

  function Mover(s: System, step: Step): nat {
    match step
    case Spawn => s.spawned
    case Return => 0
    case _ => step.who
  }

  lemma SlotStaysRight(s: System, envs: seq<string>, limit: nat, step: Step, j: nat)
    requires Sized(s, |envs|) && CanStep(s, envs, limit, step) && j < |envs| && SlotIsRight(s, envs, j)
    requires Mover(s, step) < |envs| ==> SlotIsRight(s, envs, Mover(s, step))
    ensures Sized(Take(s, envs, limit, step), |envs|) && SlotIsRight(Take(s, envs, limit, step), envs, j)
  {
    if step.Return? || j != Mover(s, step) {
      OtherSlotStays(s, envs, limit, step, j);
    } else {
      MovedSlotIsRight(s, envs, limit, step);
    }
    hide SlotIsRight;
  }

  lemma OtherSlotStays(s: System, envs: seq<string>, limit: nat, step: Step, j: nat)
    requires Sized(s, |envs|) && CanStep(s, envs, limit, step) && j < |envs| && SlotIsRight(s, envs, j)
      && (step.Return? || j != Mover(s, step))
    ensures Sized(Take(s, envs, limit, step), |envs|) && SlotIsRight(Take(s, envs, limit, step), envs, j)
  {
    hide Left;
  }

  lemma MovedSlotIsRight(s: System, envs: seq<string>, limit: nat, step: Step)
    requires Sized(s, |envs|) && CanStep(s, envs, limit, step) && !step.Return? && Mover(s, step) < |envs|
      && SlotIsRight(s, envs, Mover(s, step))
    ensures Sized(Take(s, envs, limit, step), |envs|) && SlotIsRight(Take(s, envs, limit, step), envs, Mover(s, step))
  {
  }

  /** The semaphore, the wait group and the measure after goroutine `i` moves to `phase`. */
  lemma CountersAfterMove(s: System, i: nat, phase: Phase)
    requires i < |s.phases|
    ensures
      var ps := s.phases[i := phase];
      && Count(ps, HoldsToken) == Count(s.phases, HoldsToken)
        + (if HoldsToken(phase) then 1 else 0) - (if HoldsToken(s.phases[i]) then 1 else 0)
      && Count(ps, Alive) == Count(s.phases, Alive)
        + (if Alive(phase) then 1 else 0) - (if Alive(s.phases[i]) then 1 else 0)
      && LeftOf(ps) == LeftOf(s.phases) + Left(phase) - Left(s.phases[i])
  {
    CountUpdate(s.phases, i, phase, HoldsToken);
    CountUpdate(s.phases, i, phase, Alive);
    LeftUpdate(s.phases, i, phase);
  }

  lemma NoneAlive(s: System, i: nat)
    requires i < |s.phases| && Count(s.phases, Alive) == 0
    ensures !Alive(s.phases[i])
  {
    CountZero(s.phases, Alive);
  }

  lemma StepKeepsInvariant(s: System, envs: seq<string>, limit: nat, step: Step)
    requires Invariant(s, envs, limit) && CanStep(s, envs, limit, step)
    ensures Invariant(Take(s, envs, limit, step), envs, limit)
    ensures Measure(Take(s, envs, limit, step)) == Measure(s) - 1
  {
    hide Count, LeftOf;
    var t := Take(s, envs, limit, step);
    if step.Return? {
      forall j | 0 <= j < |envs| ensures SlotIsRight(t, envs, j) { SlotStaysRight(s, envs, limit, step, j); }
    } else {
      var i := Mover(s, step);
      assert SlotIsRight(s, envs, i);
      CountersAfterMove(s, i, t.phases[i]);
      if s.returned { NoneAlive(s, i); }
      var moved := s.phases[i];
      assert step.Spawn? ==> moved == Unborn;
      hide SlotIsRight;
      forall j | 0 <= j < |envs| ensures SlotIsRight(t, envs, j) { SlotStaysRight(s, envs, limit, step, j); }
    }
  }

  // ---------- every interleaving ----------

  ghost predicate IsRun(n: nat, envs: seq<string>, limit: nat, steps: seq<Step>, states: seq<System>)
    requires n == |envs|
  {
    && |states| == |steps| + 1 && states[0] == Initial(n)
    && forall k ::
      0 <= k < |steps| ==>
      Sized(states[k], n) && CanStep(states[k], envs, limit, steps[k])
      && states[k + 1] == Take(states[k], envs, limit, steps[k])
  }

  /** After `k` steps of any run, exactly `6n + 1 - k` are left. */
  lemma {:induction false} EveryStateIsRight(envs: seq<string>, limit: nat, steps: seq<Step>, states: seq<System>,
                                             k: nat)
    requires limit > 0 && IsRun(|envs|, envs, limit, steps, states) && k <= |steps|
    ensures Invariant(states[k], envs, limit) && Measure(states[k]) + k == 6 * |envs| + 1
  {
    if k == 0 {
      InitialIsRight(envs, limit);
      InitialMeasure(Initial(|envs|).phases);
    } else {
      EveryStateIsRight(envs, limit, steps, states, k - 1);
      StepKeepsInvariant(states[k - 1], envs, limit, steps[k - 1]);
    }
  }

  lemma {:induction false} InitialMeasure(ps: seq<Phase>)
    requires forall i :: 0 <= i < |ps| ==> ps[i] == Unborn
    ensures LeftOf(ps) == 6 * |ps|
  {
    if ps != [] { InitialMeasure(ps[..|ps| - 1]); }
  }

  /** At no point of any run are more than `limit` deployments in flight, and no environment is deployed to twice. */
  lemma AtMostLimitInFlight(envs: seq<string>, limit: nat, steps: seq<Step>, states: seq<System>, k: nat)
    requires limit > 0 && IsRun(|envs|, envs, limit, steps, states) && k <= |steps|
    ensures Count(states[k].phases, HoldsToken) <= limit && Sized(states[k], |envs|)
    ensures forall i :: 0 <= i < |envs| ==> states[k].runs[i] <= 1
  {
    EveryStateIsRight(envs, limit, steps, states, k);
    forall i | 0 <= i < |envs| ensures states[k].runs[i] <= 1 { assert SlotIsRight(states[k], envs, i); }
  }

  /** Until the call has returned some step can be taken. */
  lemma NeverStuck(s: System, envs: seq<string>, limit: nat) returns (step: Step)
    requires Invariant(s, envs, limit) && !s.returned
    ensures CanStep(s, envs, limit, step)
  {
    if s.spawned < |envs| {
      step := Spawn;
    } else if i :| 0 <= i < |envs| && s.phases[i] == Holding {
      step := Deploy(i, "");
    } else if i :| 0 <= i < |envs| && s.phases[i] == Deployed {
      step := Store(i);
    } else if i :| 0 <= i < |envs| && s.phases[i] == Stored {
      step := Release(i);
    } else if i :| 0 <= i < |envs| && s.phases[i] == Released {
      step := Finish(i);
    } else {
      CountZero(s.phases, HoldsToken);
      if i :| 0 <= i < |envs| && s.phases[i] == Ready {
        step := Acquire(i);
      } else {
        forall i | 0 <= i < |envs| ensures !Alive(s.phases[i]) { assert SlotIsRight(s, envs, i); }
        CountZero(s.phases, Alive);
        step := Return;
      }
    }
  }

  /** A run that can go no further has returned, after exactly `6n + 1` steps. */
  lemma EveryRunReturns(envs: seq<string>, limit: nat, steps: seq<Step>, states: seq<System>)
    requires limit > 0 && IsRun(|envs|, envs, limit, steps, states)
    ensures |steps| <= 6 * |envs| + 1
    ensures (forall step :: !CanStep(states[|steps|], envs, limit, step)) <==> |steps| == 6 * |envs| + 1
    ensures states[|steps|].returned <==> |steps| == 6 * |envs| + 1
  {
    var last := states[|steps|];
    EveryStateIsRight(envs, limit, steps, states, |steps|);
    if last.returned {
      CountZero(last.phases, Alive);
      forall i | 0 <= i < |envs| ensures last.phases[i] == Finished { assert SlotIsRight(last, envs, i); }
      NothingLeft(last.phases);
    } else {
      var step := NeverStuck(last, envs, limit);
    }
    forall step | CanStep(last, envs, limit, step) ensures Measure(last) > 0 {
      StepKeepsInvariant(last, envs, limit, step);
    }
  }

  lemma {:induction false} NothingLeft(ps: seq<Phase>)
    requires forall i :: 0 <= i < |ps| ==> ps[i] == Finished
    ensures LeftOf(ps) == 0
  {
    if ps != [] { NothingLeft(ps[..|ps| - 1]); }
  }

  /** When the call returns, every environment was deployed to once and slot `i` holds the result of environment `i`. */
  lemma ResultsAreInPlanOrder(envs: seq<string>, limit: nat, steps: seq<Step>, states: seq<System>, i: nat)
    requires limit > 0 && IsRun(|envs|, envs, limit, steps, states) && i < |envs|
    requires states[|steps|].returned
    ensures
      var s := states[|steps|];
      Sized(s, |envs|) && s.runs[i] == 1 && s.results[i].Some? && s.results[i] == s.outcomes[i]
        && s.results[i].value.environment == envs[i]
  {
    var s := states[|steps|];
    EveryStateIsRight(envs, limit, steps, states, |steps|);
    CountZero(s.phases, Alive);
    assert SlotIsRight(s, envs, i);
  }
}
