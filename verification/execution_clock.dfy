/** What is undone when the clock has been set back, and when that leaves a gap in the history. */
module ExecutionClock {
  import opened Wrappers
  import opened Order
  import opened Schema
  import opened Squash
  import opened Execution
  import opened ExecutionSafety
  import opened ExecutionRuns
  import opened ExecutionLimits

  /** The names of the first files. */
  ghost predicate IsPrefix(keys: set<string>, disk: seq<Migration>) {
    exists j :: 0 <= j <= |disk| && keys == Names(disk, 0, j)
  }

  function Elements(s: seq<string>): set<string> {
    set v | v in s
  }

  predicate AreDistinct(s: seq<string>) {
    forall i, j :: 0 <= i < j < |s| ==> s[i] != s[j]
  }

  lemma {:induction false} ElementsCount(s: seq<string>)
    requires AreDistinct(s)
    ensures |Elements(s)| == |s|
  {
    if s != [] {
      var init, last := s[..|s| - 1], s[|s| - 1];
      ElementsCount(init);
      assert Elements(s) == Elements(init) + {last} && last !in init;
    }
  }

  lemma {:induction false} NamesCount(disk: seq<Migration>, j: nat)
    requires Files(disk) && j <= |disk|
    ensures |Names(disk, 0, j)| == j
  {
    hide Files;
    if j == 0 {
      assert Names(disk, 0, 0) == {};
    } else {
      NamesMore(disk, 0, j - 1);
      NameIsNew(disk, j - 1);
      hide *;
      NamesCount(disk, j - 1);
    }
  }

  lemma NameIsNew(disk: seq<Migration>, j: nat)
    requires Files(disk) && j < |disk|
    ensures disk[j].version !in Names(disk, 0, j)
  {
    hide Files;
    forall i | 0 <= i < j ensures disk[i].version != disk[j].version { FilesAreDistinct(disk, i, j); }
  }

  // ---------- the order of recording ----------

  lemma RecordedMeans(d: Db, disk: seq<Migration>, k: nat)
    requires Files(disk) && k <= |disk| && d.history.Keys == Names(disk, 0, k)
    ensures
      var s := Recorded(d.history);
      |s| == k && AreDistinct(s) && Elements(s) == Names(disk, 0, k)
  {
    var s := Recorded(d.history);
    forall i, j | 0 <= i < j < |s| ensures s[i] != s[j] { BeforeIsTotal(d.history, s[i], s[j]); }
    assert Elements(s) == Names(disk, 0, k);
    ElementsCount(s);
    NamesCount(disk, k);
  }

  lemma PositionOf(s: seq<string>, disk: seq<Migration>, k: nat, i: nat) returns (a: nat)
    requires i < k <= |disk| && Elements(s) == Names(disk, 0, k)
    ensures a < |s| && s[a] == disk[i].version
  {
    assert disk[i].version in Elements(s);
    a :| 0 <= a < |s| && s[a] == disk[i].version;
  }

  lemma FileAt(s: seq<string>, disk: seq<Migration>, k: nat, a: nat) returns (i: nat)
    requires a < |s| && k <= |disk| && Elements(s) == Names(disk, 0, k)
    ensures i < k && s[a] == disk[i].version
  {
    assert s[a] in Elements(s);
    i :| 0 <= i < k && disk[i].version == s[a];
  }

  /** Of the first `k` files the first `m` were recorded no later than the others. */
  predicate RecordedFirst(d: Db, disk: seq<Migration>, m: nat, k: nat)
    requires k <= |disk|
  {
    forall i, j :: 0 <= i < m <= j < k ==> Time(d, disk, i) <= Time(d, disk, j)
  }

  /**
   The first `m` recorded are a prefix of the files exactly if the first `m` files were recorded no later than the
   others.
   */
  lemma FirstRecordedAre(d: Db, disk: seq<Migration>, k: nat, m: nat)
    requires Files(disk) && m <= k <= |disk| && d.history.Keys == Names(disk, 0, k) && |Recorded(d.history)| == k
    ensures IsPrefix(Elements(Recorded(d.history)[..m]), disk) <==> RecordedFirst(d, disk, m, k)
  {
    var s := Recorded(d.history);
    RecordedMeans(d, disk, k);
    ElementsCount(s[..m]);
    hide Files, IsRecorded, Names;
    if RecordedFirst(d, disk, m, k) {
      RecordedFirstIsPrefix(d, disk, k, m, s);
    } else if IsPrefix(Elements(s[..m]), disk) {
      var n :| 0 <= n <= |disk| && Elements(s[..m]) == Names(disk, 0, n);
      NamesCount(disk, n);
      forall i, j | 0 <= i < m <= j < k ensures Time(d, disk, i) <= Time(d, disk, j) {
        PrefixIsRecordedFirst(d, disk, k, m, s, i, j);
      }
    }
  }

  lemma InOrder(d: Db, s: seq<string>, a: nat, b: nat)
    requires IsRecorded(s, d.history) && a < b < |s|
    ensures s[a] in d.history && s[b] in d.history && Before(d.history, s[a], s[b])
  {
    assert s[a] in s && s[b] in s;
  }

  lemma PrefixIsRecordedFirst(d: Db, disk: seq<Migration>, k: nat, m: nat, s: seq<string>, i: nat, j: nat)
    requires Files(disk) && i < m <= j < k <= |disk| && d.history.Keys == Names(disk, 0, k) && |s| == k
    requires IsRecorded(s, d.history) && Elements(s) == Names(disk, 0, k) && Elements(s[..m]) == Names(disk, 0, m)
    ensures Time(d, disk, i) <= Time(d, disk, j)
  {
    var a := PositionOf(s[..m], disk, m, i);
    var b := PositionOf(s, disk, k, j);
    if b < m {
      var n := FileAt(s[..m], disk, m, b);
      FilesAreDistinct(disk, n, j);
    }
    InOrder(d, s, a, b);
  }

  lemma NotBefore(d: Db, disk: seq<Migration>, k: nat, m: nat, i: nat, j: nat)
    requires Files(disk) && i < m <= j < k <= |disk| && d.history.Keys == Names(disk, 0, k)
      && RecordedFirst(d, disk, m, k)
    ensures disk[i].version in d.history && disk[j].version in d.history
    ensures !Before(d.history, disk[j].version, disk[i].version)
  {
    FilesAreDistinct(disk, j, i);
    assert Time(d, disk, i) <= Time(d, disk, j);
  }

  lemma AmongFirst(s: seq<string>, m: nat)
    requires m <= |s|
    ensures forall b :: 0 <= b < m ==> s[b] in Elements(s[..m])
  {
    forall b | 0 <= b < m ensures s[b] in Elements(s[..m]) { assert s[..m][b] == s[b]; }
  }

  /** If one of the first `m` recorded were a later file, one of the first `m` files would be recorded behind it. */
  lemma FirstAreAmong(d: Db, disk: seq<Migration>, k: nat, m: nat, s: seq<string>, a: nat)
    requires Files(disk) && a < m <= k <= |disk| && d.history.Keys == Names(disk, 0, k) && |s| == k
    requires IsRecorded(s, d.history) && Elements(s) == Names(disk, 0, k) && |Elements(s[..m])| == m
      && RecordedFirst(d, disk, m, k)
    ensures s[a] in Names(disk, 0, m)
  {
    var first, names := Elements(s[..m]), Names(disk, 0, m);
    NamesCount(disk, m);
    var j := FileAt(s, disk, k, a);
    hide IsRecorded, Files, RecordedFirst, Before;
    if m <= j && s[a] !in names {
      assert s[..m][a] in first;
      if names <= first { SameSize(names, first, s[a]); }
      var w :| w in names && w !in first;
      var i :| 0 <= i < m && disk[i].version == w;
      var b := PositionOf(s, disk, k, i);
      AmongFirst(s, m);
      InOrder(d, s, a, b);
      NotBefore(d, disk, k, m, i, j);
    }
  }

  lemma RecordedFirstIsPrefix(d: Db, disk: seq<Migration>, k: nat, m: nat, s: seq<string>)
    requires Files(disk) && m <= k <= |disk| && d.history.Keys == Names(disk, 0, k) && |s| == k
    requires IsRecorded(s, d.history) && Elements(s) == Names(disk, 0, k) && |Elements(s[..m])| == m
      && RecordedFirst(d, disk, m, k)
    ensures Elements(s[..m]) == Names(disk, 0, m)
  {
    var first, names := Elements(s[..m]), Names(disk, 0, m);
    NamesCount(disk, m);
    hide IsRecorded, Files, RecordedFirst, Names;
    forall v | v in first ensures v in names {
      var a :| 0 <= a < m && s[a] == v;
      FirstAreAmong(d, disk, k, m, s, a);
    }
    if w :| w in names && w !in first { SameSize(first, names, w); }
  }

  lemma SameSize(a: set<string>, b: set<string>, x: string)
    requires a <= b && x in b && x !in a
    ensures |a| < |b|
  {
    var c := b - {x};
    assert a <= c;
    Smaller(a, c);
  }

  lemma {:induction false} Smaller(a: set<string>, b: set<string>)
    requires a <= b
    ensures |a| <= |b|
  {
    if a != {} {
      var x :| x in a;
      Smaller(a - {x}, b - {x});
    }
  }

  // ---------- what is undone ----------

  /** Each migration undone leaves the history; a failed one and those after it stay. */
  lemma {:induction false} UndoneLeave(d: Db, ms: seq<Migration>, turns: seq<Turn>)
    requires forall i :: 0 <= i < |ms| ==> ms[i].version != ""
    ensures
      var r := ExecuteAll(d, ms, false, turns);
      Done(r) <= |ms| && (r.ok ==> Done(r) == |ms|) && r.db.history == d.history - Elements(Versions(ms)[..Done(r)])
  {
    hide *;
    assert |Versions(ms)| == |ms|;
    if ms == [] {
      NothingLeaves(d, turns);
    } else {
      var init, m := ms[..|ms| - 1], ms[|ms| - 1];
      UndoneLeave(d, init, turns);
      ReportIsWellFormed(d, init, false, turns);
      OneMore(d, ms, false, turns);
      assert Versions(ms) == Versions(init) + [m.version];
      OneMoreLeaves(d.history, ExecuteAll(d, init, false, turns), init, m, TurnAt(turns, |ms| - 1));
    }
  }

  lemma NothingLeaves(d: Db, turns: seq<Turn>)
    ensures
      var r := ExecuteAll(d, [], false, turns);
      Done(r) == 0 && r.ok && r.db.history == d.history - Elements(Versions([])[..0])
  {
  }

  lemma OneMoreLeaves(h: map<string, int>, p: Report, init: seq<Migration>, m: Migration, t: Turn)
    requires WellFormed(p, init) && Done(p) <= |init| && (p.ok ==> Done(p) == |init|) && m.version != ""
    requires p.db.history == h - Elements(Versions(init)[..Done(p)])
    ensures
      var r, vs := Continue(p, m, false, t), Versions(init) + [m.version];
      Done(r) <= |vs| && (r.ok ==> Done(r) == |vs|) && r.db.history == h - Elements(vs[..Done(r)])
  {
    var r, vs := Continue(p, m, false, t), Versions(init) + [m.version];
    if p.ok {
      ContinueCounts(p, init, m, false, t);
      OneUndone(p.db, m, t);
      ElementsMore(Versions(init), m.version);
      hide Execute, Elements, Continue, Done, WellFormed;
      assert vs[..|vs|] == vs && Versions(init)[..|init|] == Versions(init);
      assert r.ok ==> p.db.history - {m.version} == h - (Elements(Versions(init)) + {m.version});
    } else {
      NothingContinued(p, m, t);
      hide Execute, Elements, Continue, WellFormed;
      assert vs[..Done(p)] == Versions(init)[..Done(p)];
    }
  }

  lemma NothingContinued(p: Report, m: Migration, t: Turn)
    requires !p.ok
    ensures Continue(p, m, false, t) == p
  {
    hide Execute;
  }

  lemma ElementsMore(s: seq<string>, v: string)
    ensures Elements(s + [v]) == Elements(s) + {v} && Elements((s + [v])[..|s|]) == Elements(s)
  {
    assert (s + [v])[..|s|] == s;
  }

  lemma OneUndone(d: Db, m: Migration, t: Turn)
    requires m.version != ""
    ensures var (e, ok) := Execute(d, m, false, t); e.history == if ok then d.history - {m.version} else d.history
  {
    hide Run;
  }

  // ---------- migrating down ----------

  function FilesNamed(disk: seq<Migration>, vs: seq<string>): (ms: seq<Migration>)
    requires forall v :: v in vs ==> OnDisk(disk, v).Some?
    ensures |ms| == |vs| && forall i :: 0 <= i < |vs| ==> ms[i] == OnDisk(disk, vs[i]).value
  {
    if vs == [] then [] else FilesNamed(disk, vs[..|vs| - 1]) + [OnDisk(disk, vs[|vs| - 1]).value]
  }

  /** The versions `MigrateDown` undoes are those recorded last, latest first. */
  lemma TargetsAre(s: seq<string>, steps: nat)
    requires steps > 0
    ensures
      var vs := Reversed(LastOf(s, steps));
      |vs| == Count(steps, |s|) && forall q :: 0 <= q < |vs| ==> vs[q] == s[|s| - 1 - q]
  {
    ReversedIs(LastOf(s, steps));
    hide Reversed;
  }

  lemma DownUndoesFiles(d: Db, disk: seq<Migration>, k: nat, steps: nat, turns: seq<Turn>) returns (ms: seq<Migration>)
    requires Files(disk) && k <= |disk| && d.history.Keys == Names(disk, 0, k) && steps > 0
    ensures MigrateDown(d, disk, steps, true, turns) == ExecuteAll(d, ms, false, turns)
    ensures Versions(ms) == Reversed(LastOf(Recorded(d.history), steps))
      && forall i :: 0 <= i < |ms| ==> ms[i].version != ""
  {
    hide *;
    var s := Recorded(d.history);
    var vs := Reversed(LastOf(s, steps));
    RecordedMeans(d, disk, k);
    TargetsAre(s, steps);
    assert steps > 0 ==>
      MigrateDown(d, disk, steps, true, turns) == UndoAll(d, disk, vs, turns) by { DownIs(d, disk, steps, turns); }
    forall v | v in vs ensures OnDisk(disk, v).Some? && v != "" {
      var q :| 0 <= q < |vs| && vs[q] == v;
      CountIsBounded(steps, |s|);
      var i := FileAt(s, disk, k, |s| - 1 - q);
      FileIsOnDisk(disk, i);
    }
    ms := FilesNamed(disk, vs);
    forall i | 0 <= i < |ms| ensures ms[i].version == vs[i] && vs[i] in vs {}
    assert Versions(ms) == vs;
    UndoAllIs(d, disk, ms, turns);
  }

  lemma DownIs(d: Db, disk: seq<Migration>, steps: nat, turns: seq<Turn>)
    requires steps > 0
    ensures MigrateDown(d, disk, steps, true, turns)
      == UndoAll(d, disk, Reversed(LastOf(Recorded(d.history), steps)), turns)
  {
    hide UndoAll, Reversed, LastOf;
  }

  lemma FileIsOnDisk(disk: seq<Migration>, i: nat)
    requires Files(disk) && i < |disk|
    ensures OnDisk(disk, disk[i].version).Some? && disk[i].version != ""
  {
    OnDiskIs(disk, i);
    hide OnDisk;
  }

  lemma KeysLeft(s: seq<string>, steps: nat, n: nat)
    requires AreDistinct(s) && steps > 0 && n <= |Reversed(LastOf(s, steps))|
    ensures n <= |s| && Elements(s) - Elements(Reversed(LastOf(s, steps))[..n]) == Elements(s[..|s| - n])
  {
    var vs := Reversed(LastOf(s, steps));
    TargetsAre(s, steps);
    hide Reversed, LastOf;
    forall v | v in Elements(s) ensures v in Elements(vs[..n]) <==> v !in Elements(s[..|s| - n]) {
      var a :| 0 <= a < |s| && s[a] == v;
      if a < |s| - n { assert s[..|s| - n][a] == v; } else { assert vs[..n][|s| - 1 - a] == v; }
    }
  }

  /**
   Migrating down undoes the versions recorded last. What is left is a prefix of the files exactly if the files
   left were recorded no later than those undone; with success as many are undone as were asked for and recorded.
   */
  lemma ClockDecidesWhatIsUndone(d: Db, disk: seq<Migration>, k: nat, steps: nat, turns: seq<Turn>)
    requires Files(disk) && k <= |disk| && d.history.Keys == Names(disk, 0, k) && steps > 0
    ensures
      var r := MigrateDown(d, disk, steps, true, turns);
      var n := Done(r);
      && n <= Count(steps, k) && (r.ok ==> n == Count(steps, k))
      && (IsPrefix(r.db.history.Keys, disk) <==> RecordedFirst(d, disk, k - n, k))
  {
    hide *;
    var s := Recorded(d.history);
    RecordedMeans(d, disk, k);
    TargetsAre(s, steps);
    var ms := DownUndoesFiles(d, disk, k, steps, turns);
    assert |Versions(ms)| == |ms|;
    UndoneLeave(d, ms, turns);
    var n := Done(ExecuteAll(d, ms, false, turns));
    KeysLeft(s, steps, n);
    assert (d.history - Elements(Versions(ms)[..n])).Keys == d.history.Keys - Elements(Versions(ms)[..n]);
    CountIsBounded(steps, k);
    FirstRecordedAre(d, disk, k, k - n);
  }

  // ---------- rolling back to a version ----------

  /** File `l` was recorded last; of several recorded at that time it is the newest. */
  predicate IsLatest(d: Db, disk: seq<Migration>, k: nat, l: nat)
    requires l < k <= |disk|
  {
    forall i :: 0 <= i < k ==> Time(d, disk, i) < Time(d, disk, l) || (Time(d, disk, i) == Time(d, disk, l) && i <= l)
  }

  lemma LatestFile(d: Db, disk: seq<Migration>, k: nat) returns (l: nat)
    requires Files(disk) && 0 < k <= |disk| && d.history.Keys == Names(disk, 0, k)
    ensures l < k && IsLatest(d, disk, k, l) && |Recorded(d.history)| == k
      && Recorded(d.history)[k - 1] == disk[l].version
  {
    var s := Recorded(d.history);
    RecordedMeans(d, disk, k);
    l := FileAt(s, disk, k, k - 1);
    hide IsRecorded, Files;
    forall i | 0 <= i < k
      ensures Time(d, disk, i) < Time(d, disk, l) || (Time(d, disk, i) == Time(d, disk, l) && i <= l)
    {
      var a := PositionOf(s, disk, k, i);
      FilesAreDistinct(disk, i, l);
      if a < k - 1 { InOrder(d, s, a, k - 1); }
    }
  }

  lemma PlanIsSorted(d: Db, disk: seq<Migration>, target: string, from: string)
    requires target != "" && OnDisk(disk, target).Some? && d.history != map[]
    requires |Recorded(d.history)| > 0 && Recorded(d.history)[|Recorded(d.history)| - 1] == from
    ensures CreateRollbackPlan(d, disk, target, true)
      == Plan(from, StableSort(Above(disk, target, from), NewestFirst()))
  {
    hide StableSort, Above, OnDisk, Recorded;
  }

  lemma PlanFollowsClock(d: Db, disk: seq<Migration>, k: nat, j: nat, l: nat)
    requires Files(disk) && l < k <= |disk| && j < |disk| && d.history.Keys == Names(disk, 0, k)
    requires |Recorded(d.history)| == k && Recorded(d.history)[k - 1] == disk[l].version
    ensures CreateRollbackPlan(d, disk, disk[j].version, true)
      == Plan(disk[l].version, if l <= j then [] else Reversed(disk[j + 1..l + 1]))
  {
    assert disk[l].version in d.history.Keys;
    hide *;
    assert d.history != map[];
    FileIsOnDisk(disk, j);
    PlanIsSorted(d, disk, disk[j].version, disk[l].version);
    PlanSorts(disk, l + 1, j);
  }

  lemma PlanNames(disk: seq<Migration>, a: nat, b: nat, n: nat)
    requires a <= b <= |disk| && n <= b - a
    ensures |Reversed(disk[a..b])| == b - a && Elements(Versions(Reversed(disk[a..b]))[..n]) == Names(disk, b - n, b)
  {
    var ms := Reversed(disk[a..b]);
    ReversedIs(disk[a..b]);
    hide Reversed;
    var vs := Versions(ms)[..n];
    forall q | 0 <= q < n ensures vs[q] == disk[b - 1 - q].version {}
    forall i | b - n <= i < b ensures disk[i].version in Elements(vs) { assert vs[b - 1 - i] == disk[i].version; }
  }

  /**
   Rolling back to file `j` undoes the files above it up to the one recorded last, `l`. The history stays a prefix
   exactly if that is not above file `j`, or is the newest recorded, or could not be undone.
   */
  lemma ClockDecidesRollback(d: Db, disk: seq<Migration>, k: nat, j: nat, turns: seq<Turn>) returns (l: nat)
    requires Files(disk) && 0 < k <= |disk| && j < |disk| && d.history.Keys == Names(disk, 0, k)
    ensures l < k && IsLatest(d, disk, k, l)
    ensures
      var r := Obey(d, disk, RollbackTo(disk[j].version, true, turns));
      IsPrefix(r.db.history.Keys, disk) <==> l <= j || l == k - 1 || UndoFails(disk[l], TurnAt(turns, 0))
  {
    l := LatestFile(d, disk, k);
    PlanFollowsClock(d, disk, k, j, l);
    hide *;
    var r := Obey(d, disk, RollbackTo(disk[j].version, true, turns));
    var ms := if l <= j then [] else Reversed(disk[j + 1..l + 1]);
    assert r == ExecuteAll(d, ms, false, turns)
      by { ObeyRollback(d, disk, disk[j].version, disk[l].version, ms, turns); }
    assert IsPrefix(d.history.Keys, disk) by { WholeIsPrefix(disk, k); }
    if l <= j {
      assert r.db == d by { NothingLeaves(d, turns); NothingExecuted(d, turns); }
    } else {
      RollbackLeaves(d, disk, k, j, l, ms, turns);
    }
  }

  lemma NothingExecuted(d: Db, turns: seq<Turn>)
    ensures ExecuteAll(d, [], false, turns).db == d
  {
  }

  lemma WholeIsPrefix(disk: seq<Migration>, k: nat)
    requires k <= |disk|
    ensures IsPrefix(Names(disk, 0, k), disk)
  {
    hide Names;
  }

  lemma ObeyRollback(d: Db, disk: seq<Migration>, target: string, from: string, ms: seq<Migration>, turns: seq<Turn>)
    requires CreateRollbackPlan(d, disk, target, true) == Plan(from, ms)
    ensures Obey(d, disk, RollbackTo(target, true, turns)) == ExecuteAll(d, ms, false, turns)
  {
    hide CreateRollbackPlan, ExecuteAll;
  }

  lemma RollbackLeaves(d: Db, disk: seq<Migration>, k: nat, j: nat, l: nat, ms: seq<Migration>, turns: seq<Turn>)
    requires Files(disk) && j < l < k <= |disk| && d.history.Keys == Names(disk, 0, k)
      && ms == Reversed(disk[j + 1..l + 1])
    ensures IsPrefix(ExecuteAll(d, ms, false, turns).db.history.Keys, disk) <==>
      l == k - 1 || UndoFails(disk[l], TurnAt(turns, 0))
  {
    hide *;
    var r := ExecuteAll(d, ms, false, turns);
    assert Done(r) == 0 <==> UndoFails(disk[l], TurnAt(turns, 0)) by {
      NothingUndone(d, disk, j + 1, l + 1, turns);
      RollbackIs(d, ms, turns);
    }
    assert |ms| == l - j by { PlanNames(disk, j + 1, l + 1, 0); }
    PlanIsNamed(disk, j + 1, l + 1);
    UndoneLeave(d, ms, turns);
    PlanNames(disk, j + 1, l + 1, Done(r));
    GapOrPrefix(disk, k, l, Done(r));
    assert (d.history - Names(disk, l + 1 - Done(r), l + 1)).Keys
      == d.history.Keys - Names(disk, l + 1 - Done(r), l + 1);
  }

  lemma RollbackIs(d: Db, ms: seq<Migration>, turns: seq<Turn>)
    ensures ExecuteRollback(d, ms, turns) == ExecuteAll(d, ms, false, turns)
  {
    hide ExecuteAll;
  }

  /**
   Of the first `k` files, those without the `n` that end with `l` are a prefix exactly if `n` is 0 or `l` is the last.
   */
  lemma GapOrPrefix(disk: seq<Migration>, k: nat, l: nat, n: nat)
    requires Files(disk) && l < k <= |disk| && n <= l + 1
    ensures IsPrefix(Names(disk, 0, k) - Names(disk, l + 1 - n, l + 1), disk) <==> n == 0 || l == k - 1
  {
    var keys := Names(disk, 0, k) - Names(disk, l + 1 - n, l + 1);
    hide Files;
    if n == 0 {
      assert keys == Names(disk, 0, k);
    } else if l == k - 1 {
      NewestGone(disk, k, n);
    } else {
      hide Names;
      forall m | 0 <= m <= |disk| ensures keys != Names(disk, 0, m) { GapIsNoPrefix(disk, k, l + 1, n, keys, m); }
    }
  }

  lemma PlanIsNamed(disk: seq<Migration>, a: nat, b: nat)
    requires Files(disk) && a <= b <= |disk|
    ensures forall i :: 0 <= i < |Reversed(disk[a..b])| ==> Reversed(disk[a..b])[i].version != ""
  {
    ReversedIs(disk[a..b]);
    hide Reversed;
  }

  lemma NewestGone(disk: seq<Migration>, k: nat, n: nat)
    requires Files(disk) && n <= k <= |disk|
    ensures Names(disk, 0, k) - Names(disk, k - n, k) == Names(disk, 0, k - n)
  {
    forall i, j | 0 <= i < k - n <= j < k ensures disk[i].version != disk[j].version { FilesAreDistinct(disk, i, j); }
  }
}
