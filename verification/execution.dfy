/**
 What running migrations does to the schema and to the history of applied migrations, when any call to
 the database may fail. A step is a value here; the methods of `Executor` are proved against it.
 */
module Execution {
  import opened Wrappers
  import opened Order
  import opened Schema

  /** Where a migration is stopped. A failed commit changes nothing; a failed history write leaves the commit. */
  datatype Fault = Fine | AtBegin | AtStatement(index: nat) | AtCommit | AtHistory

  /** What the outside does to one migration: where it fails and how long it takes. */
  datatype Turn = Turn(fault: Fault, wait: int)

  /** The history maps each applied version to the time it was recorded. */
  datatype Db = Db(schema: State, history: map<string, int>, clock: int)

  datatype Outcome = Applied | Failed | Pending

  datatype Status = Status(version: string, outcome: Outcome)

  datatype Report = Report(db: Db, statuses: seq<Status>, ok: bool)

  datatype Options = Options(steps: nat, dryRun: bool, failOnValidation: bool)

  function TurnAt(turns: seq<Turn>, i: nat): Turn {
    if i < |turns| then turns[i] else Turn(Fine, 0)
  }

  function Script(m: Migration, up: bool): seq<Statement> {
    if up then m.up else m.down
  }

  // ---------- one migration ----------

  predicate StopsBeforeCommit(script: seq<Statement>, fault: Fault) {
    fault.AtBegin? || fault.AtCommit? || (fault.AtStatement? && fault.index < |script|)
  }

  /** A version is recorded once, and only if it has a name. */
  predicate HistoryRefuses(d: Db, m: Migration, up: bool, fault: Fault) {
    fault.AtHistory? || m.version == "" || (up && m.version in d.history)
  }

  function Execute(d: Db, m: Migration, up: bool, t: Turn): (Db, bool) {
    var now := d.clock + t.wait;
    if StopsBeforeCommit(Script(m, up), t.fault) then (d.(clock := now), false)
    else
      var committed := Db(Run(Script(m, up), d.schema), d.history, now);
      if HistoryRefuses(d, m, up, t.fault) then (committed, false)
      else (committed.(history := if up then d.history[m.version := now] else d.history - {m.version}), true)
  }

  // ---------- several ----------

  function Continue(r: Report, m: Migration, up: bool, t: Turn): Report {
    if !r.ok then r
    else
      var (d, ok) := Execute(r.db, m, up, t);
      Report(d, r.statuses + [Status(m.version, if ok then Applied else Failed)], ok)
  }

  /** One after the other, up to the first failure. */
  function ExecuteAll(d: Db, ms: seq<Migration>, up: bool, turns: seq<Turn>): Report {
    if ms == [] then Report(d, [], true)
    else Continue(ExecuteAll(d, ms[..|ms| - 1], up, turns), ms[|ms| - 1], up, TurnAt(turns, |ms| - 1))
  }

  lemma {:induction false} FailureEnds(d: Db, ms: seq<Migration>, up: bool, turns: seq<Turn>, i: nat)
    requires i <= |ms| && !ExecuteAll(d, ms[..i], up, turns).ok
    ensures ExecuteAll(d, ms, up, turns) == ExecuteAll(d, ms[..i], up, turns)
    decreases |ms| - i
  {
    if i == |ms| { assert ms[..i] == ms; } else {
      assert ms[..i + 1][..i] == ms[..i];
      FailureEnds(d, ms, up, turns, i + 1);
    }
  }

  /** The number of migrations that succeeded. */
  function Done(r: Report): nat {
    if r.statuses != [] && r.statuses[|r.statuses| - 1].outcome == Failed then |r.statuses| - 1 else |r.statuses|
  }

  // ---------- up ----------

  predicate Valid(disk: seq<Migration>) {
    && (forall i, j :: 0 <= i < j < |disk| ==> disk[i].version != disk[j].version)
    && (forall m ::
      m in disk ==> m.up != [] && forall v :: v in m.dependsOn ==> exists n :: n in disk && n.version == v)
  }

  function Unapplied(disk: seq<Migration>, history: map<string, int>): seq<Migration> {
    if disk == [] then []
    else
      Unapplied(disk[..|disk| - 1], history)
      + (if disk[|disk| - 1].version in history then [] else [disk[|disk| - 1]])
  }

  function PendingMigrations(disk: seq<Migration>, history: map<string, int>, steps: nat): seq<Migration> {
    var pending := StableSort(Unapplied(disk, history), InVersionOrder());
    if 0 < steps < |pending| then pending[..steps] else pending
  }

  function MigrateUp(d: Db, disk: seq<Migration>, o: Options, readable: bool, turns: seq<Turn>): Report {
    if (o.failOnValidation && !Valid(disk)) || !readable then Report(d, [], false)
    else
      var ms := PendingMigrations(disk, d.history, o.steps);
      if o.dryRun then Report(d, seq(|ms|, i requires 0 <= i < |ms| => Status(ms[i].version, Pending)), true)
      else ExecuteAll(d, ms, true, turns)
  }

  // ---------- down ----------

  /** Recorded before, or at the same time with a smaller version. */
  predicate Before(history: map<string, int>, a: string, b: string)
    requires a in history && b in history
  {
    history[a] < history[b] || (history[a] == history[b] && Less(a, b))
  }

  ghost predicate IsRecorded(s: seq<string>, history: map<string, int>) {
    && (forall v :: v in s <==> v in history)
    && (forall i, j :: 0 <= i < j < |s| ==> Before(history, s[i], s[j]))
  }

  lemma BeforeIsTotal(history: map<string, int>, a: string, b: string)
    requires a in history && b in history
    ensures a != b ==> (Before(history, a, b) <==> !Before(history, b, a))
    ensures !Before(history, a, a)
  {
    LessIsTotal(a, b);
    LessIsTotal(a, a);
  }

  lemma BeforeIsTransitive(history: map<string, int>, a: string, b: string, c: string)
    requires a in history && b in history && c in history && Before(history, a, b) && Before(history, b, c)
    ensures Before(history, a, c)
  {
    if history[a] == history[c] { LessIsTransitive(a, b, c); }
  }

  /** There is only one such order. */
  lemma {:induction false} RecordedIsUnique(a: seq<string>, b: seq<string>, history: map<string, int>)
    requires IsRecorded(a, history) && IsRecorded(b, history)
    ensures a == b
  {
    OrderIsUnique(a, b, history);
  }

  lemma {:induction false} OrderIsUnique(a: seq<string>, b: seq<string>, history: map<string, int>)
    requires forall v :: v in a <==> v in b
    requires forall v :: v in a ==> v in history
    requires forall i, j :: 0 <= i < j < |a| ==> Before(history, a[i], a[j])
    requires forall i, j :: 0 <= i < j < |b| ==> Before(history, b[i], b[j])
    ensures a == b
  {
    assert (a != [] ==> a[0] in a) && (b != [] ==> b[0] in b);
    if a != [] {
      var i :| 0 <= i < |b| && b[i] == a[0];
      var j :| 0 <= j < |a| && a[j] == b[0];
      BeforeIsTotal(history, a[0], b[0]);
      assert a[0] == b[0];
      forall v ensures v in a[1..] <==> v in b[1..] {
        RestOf(a, v, history);
        RestOf(b, v, history);
      }
      OrderIsUnique(a[1..], b[1..], history);
      assert a == [a[0]] + a[1..] && b == [b[0]] + b[1..];
    }
  }

  lemma RestOf(s: seq<string>, v: string, history: map<string, int>)
    requires s != [] && (forall w :: w in s ==> w in history)
    requires forall i, j :: 0 <= i < j < |s| ==> Before(history, s[i], s[j])
    ensures v in s[1..] <==> v in s && v != s[0]
  {
    if v in s && v != s[0] {
      var i :| 0 <= i < |s| && s[i] == v;
      assert s[1..][i - 1] == v;
    }
    if v in s[1..] {
      var i :| 0 <= i < |s[1..]| && s[1..][i] == v;
      BeforeIsTotal(history, s[0], s[i + 1]);
      assert Before(history, s[0], s[i + 1]);
    }
  }

  /** The applied versions, oldest first. */
  ghost function Recorded(history: map<string, int>): (s: seq<string>)
    ensures IsRecorded(s, history)
  {
    RecordedExists(history);
    var s :| IsRecorded(s, history); s
  }

  lemma {:induction false} RecordedExists(history: map<string, int>)
    ensures exists s :: IsRecorded(s, history)
    decreases |history|
  {
    if history == map[] {
      assert IsRecorded([], history);
    } else {
      var v := Latest(history);
      var rest := history - {v};
      assert v in history && |rest| < |history|
        by { assert rest.Keys == history.Keys - {v}; assert |rest.Keys| == |rest| && |history.Keys| == |history|; }
      RecordedExists(rest);
      var s :| IsRecorded(s, rest);
      var t := s + [v];
      forall i, j | 0 <= i < j < |t| ensures t[i] in history && t[j] in history && Before(history, t[i], t[j]) {
        assert t[i] in s;
        if j < |s| { assert Before(rest, s[i], s[j]); }
      }
      assert IsRecorded(t, history);
    }
  }

  lemma {:induction false} Latest(history: map<string, int>) returns (v: string)
    requires history != map[]
    ensures v in history && forall w :: w in history && w != v ==> Before(history, w, v)
    decreases |history|
  {
    var one :| one in history;
    var rest := history - {one};
    if rest == map[] {
      v := one;
      forall w | w in history ensures w == one { assert w == one || w in rest; }
    } else {
      assert |rest| < |history| by { assert rest.Keys == history.Keys - {one}; assert |rest.Keys| == |rest|
        && |history.Keys| == |history|; }
      v := Latest(rest);
      forall w | w in rest && w != v ensures Before(history, w, v) { assert Before(rest, w, v); }
      BeforeIsTotal(history, one, v);
      if Before(history, v, one) {
        forall w | w in rest && w != v { BeforeIsTransitive(history, w, v, one); }
        v := one;
      }
    }
  }

  function OnDisk(disk: seq<Migration>, version: string): (r: Option<Migration>)
    ensures r.Some? ==> r.value in disk && r.value.version == version
    ensures r.None? ==> forall m :: m in disk ==> m.version != version
  {
    if disk == [] then None
    else if disk[|disk| - 1].version == version then Some(disk[|disk| - 1])
    else
      assert forall m :: m in disk ==> m in disk[..|disk| - 1] || m == disk[|disk| - 1];
      OnDisk(disk[..|disk| - 1], version)
  }

  /** Undoes the versions in turn, up to the first failure or missing file. */
  function UndoAll(d: Db, disk: seq<Migration>, versions: seq<string>, turns: seq<Turn>): Report {
    if versions == [] then Report(d, [], true)
    else
      var last := |versions| - 1;
      var r := UndoAll(d, disk, versions[..last], turns);
      if OnDisk(disk, versions[last]).None? then r.(ok := false)
      else Continue(r, OnDisk(disk, versions[last]).value, false, TurnAt(turns, last))
  }

  function LastOf(s: seq<string>, steps: nat): seq<string> {
    if steps < |s| then s[|s| - steps..] else s
  }

  ghost function MigrateDown(d: Db, disk: seq<Migration>, steps: nat, readable: bool, turns: seq<Turn>): Report {
    if steps == 0 || !readable then Report(d, [], false)
    else UndoAll(d, disk, Reversed(LastOf(Recorded(d.history), steps)), turns)
  }

  // ---------- rollback to a version ----------

  datatype PlanResult = Plan(from: string, migrations: seq<Migration>) | NoPlan

  /** Files above `target` and not above `current`. */
  function Above(disk: seq<Migration>, target: string, current: string): seq<Migration> {
    if disk == [] then []
    else
      var m := disk[|disk| - 1];
      Above(disk[..|disk| - 1], target, current)
        + (if Less(target, m.version) && !Less(current, m.version) then [m] else [])
  }

  function NewestFirst(): (Migration, Migration) -> bool {
    (a: Migration, b: Migration) => !Less(a.version, b.version)
  }

  ghost function CreateRollbackPlan(d: Db, disk: seq<Migration>, target: string, readable: bool): PlanResult {
    if target == "" || OnDisk(disk, target).None? || !readable || d.history == map[] then NoPlan
    else
      var applied := Recorded(d.history);
      assert applied != [] by { var v :| v in d.history; assert v in applied; }
      var current := applied[|applied| - 1];
      Plan(current, StableSort(Above(disk, target, current), NewestFirst()))
  }

  /** Every migration of the plan, in the plan's order. */
  function ExecuteRollback(d: Db, plan: seq<Migration>, turns: seq<Turn>): Report {
    ExecuteAll(d, plan, false, turns)
  }
}
