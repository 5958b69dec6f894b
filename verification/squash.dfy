/** Squashing a range of migrations into one script each way. */
module Squash {
  import opened Wrappers
  import opened Order
  import opened Schema
  import opened Optimizer

  datatype Error = NoneFound | NoneInRange | TooFew | HighSeverity

  datatype Result = Squashed(up: seq<Statement>, down: seq<Statement>, optimizations: nat,
                             versions: seq<string>) | Failed(error: Error)

  // ---------- selection ----------

  predicate InRange(m: Migration, from: string, to: string) {
    (from == "" || !Less(m.version, from)) && (to == "" || !Less(to, m.version))
  }

  function Selected(ms: seq<Migration>, from: string, to: string): seq<Migration> {
    if ms == [] then []
    else Selected(ms[..|ms| - 1], from, to) + (if InRange(ms[|ms| - 1], from, to) then [ms[|ms| - 1]] else [])
  }

  method FilterMigrationsByVersion(ms: seq<Migration>, from: string, to: string) returns (r: seq<Migration>)
    ensures r == StableSort(Selected(ms, from, to), InVersionOrder())
  {
    r := [];
    for i := 0 to |ms|
      invariant r == Selected(ms[..i], from, to)
    {
      assert ms[..i + 1][..i] == ms[..i];
      var m := ms[i];
      if from != "" && Less(m.version, from) { continue; }
      if to != "" && Less(to, m.version) { continue; }
      r := r + [m];
    }
    assert ms[..|ms|] == ms;
    r := StableSort(r, InVersionOrder());
  }

  /** From files in version order, exactly those in the range are selected, in order. */
  lemma {:induction false} SelectionIsTheRange(ms: seq<Migration>, from: string, to: string)
    requires forall i, j :: 0 <= i < j < |ms| ==> Less(ms[i].version, ms[j].version)
    ensures StableSort(Selected(ms, from, to), InVersionOrder()) == Selected(ms, from, to)
    ensures forall m :: m in Selected(ms, from, to) <==> m in ms && InRange(m, from, to)
    ensures forall i, j ::
      0 <= i < j < |Selected(ms, from, to)| ==>
      Less(Selected(ms, from, to)[i].version, Selected(ms, from, to)[j].version)
  {
    SelectedElements(ms, from, to);
    SelectedOrder(ms, from, to);
    var s := Selected(ms, from, to);
    forall i, j | 0 <= i < j < |s| ensures InVersionOrder()(s[i], s[j]) { LessIsTotal(s[i].version, s[j].version); }
    OrderedIsUnchanged(s, InVersionOrder());
  }

  lemma {:induction false} SelectedElements(ms: seq<Migration>, from: string, to: string)
    ensures forall m :: m in Selected(ms, from, to) <==> m in ms && InRange(m, from, to)
  {
    if ms != [] {
      SelectedElements(ms[..|ms| - 1], from, to);
      assert ms == ms[..|ms| - 1] + [ms[|ms| - 1]];
    }
  }

  lemma {:induction false} SelectedOrder(ms: seq<Migration>, from: string, to: string)
    requires forall i, j :: 0 <= i < j < |ms| ==> Less(ms[i].version, ms[j].version)
    ensures forall i, j ::
      0 <= i < j < |Selected(ms, from, to)| ==>
      Less(Selected(ms, from, to)[i].version, Selected(ms, from, to)[j].version)
  {
    if ms != [] {
      var init := ms[..|ms| - 1];
      SelectedOrder(init, from, to);
      SelectedElements(init, from, to);
      forall i | 0 <= i < |Selected(init, from, to)|
        ensures Less(Selected(init, from, to)[i].version, ms[|ms| - 1].version)
      {
        assert Selected(init, from, to)[i] in init;
      }
    }
  }

  function OfVersion(v: string): Migration -> bool {
    (m: Migration) => m.version == v
  }

  /** Sorting by version loses nothing and keeps the order of files of one version. */
  lemma SortedByVersion(s: seq<Migration>)
    ensures
      var r := StableSort(s, InVersionOrder());
      && multiset(r) == multiset(s)
      && (forall i, j :: 0 <= i < j < |r| ==> !Less(r[j].version, r[i].version))
      && forall v :: Only(r, OfVersion(v)) == Only(s, OfVersion(v))
  {
    SortPermutes(s, InVersionOrder());
    VersionOrderIsPreorder(s);
    SortOrders(s, InVersionOrder());
    hide StableSort, Only;
    var r := StableSort(s, InVersionOrder());
    forall i, j | 0 <= i < j < |r| ensures !Less(r[j].version, r[i].version) { assert InVersionOrder()(r[i], r[j]); }
    forall v ensures Only(r, OfVersion(v)) == Only(s, OfVersion(v)) {
      LessIsTotal(v, v);
      SortIsStable(s, InVersionOrder(), OfVersion(v));
    }
  }

  /** A version from `from` to `to`, both included; a bound may be missing. */
  predicate Between(v: string, from: string, to: string) {
    (from == "" || v == from || Less(from, v)) && (to == "" || v == to || Less(v, to))
  }

  lemma {:induction false} SelectedAreOf(ms: seq<Migration>, from: string, to: string, v: string)
    ensures Only(Selected(ms, from, to), OfVersion(v)) == if Between(v, from, to) then Only(ms, OfVersion(v)) else []
  {
    if ms != [] {
      var init, m := ms[..|ms| - 1], ms[|ms| - 1];
      assert ms == init + [m];
      var rest := Selected(init, from, to);
      assert Selected(ms, from, to) == if InRange(m, from, to) then rest + [m] else rest;
      SelectedAreOf(init, from, to, v);
      LessIsTotal(m.version, from);
      LessIsTotal(m.version, to);
      assert InRange(m, from, to) <==> Between(m.version, from, to);
      hide Only, Selected, Less, Between, InRange;
      OnlyMore(init, m, OfVersion(v));
      OnlyMore(rest, m, OfVersion(v));
    }
  }

  /**
   What is selected is sorted by version, and holds of each version in the range, bounds included, all the files in
   their order, and none of the others.
   */
  lemma SelectionIsSorted(ms: seq<Migration>, from: string, to: string)
    ensures
      var s, r := Selected(ms, from, to), StableSort(Selected(ms, from, to), InVersionOrder());
      && multiset(r) == multiset(s)
      && (forall i, j :: 0 <= i < j < |r| ==> !Less(r[j].version, r[i].version))
      && forall v ::
        Only(r, OfVersion(v)) == Only(s, OfVersion(v))
        && Only(r, OfVersion(v)) == if Between(v, from, to) then Only(ms, OfVersion(v)) else []
  {
    SortedByVersion(Selected(ms, from, to));
    hide Selected, StableSort, Only, Between, Less;
    forall v
      ensures Only(Selected(ms, from, to), OfVersion(v)) == if Between(v, from, to) then Only(ms, OfVersion(v)) else []
    {
      SelectedAreOf(ms, from, to, v);
    }
  }

  lemma VersionOrderIsPreorder(s: seq<Migration>)
    ensures IsPreorder(multiset(s), InVersionOrder())
  {
    var all, le := multiset(s), InVersionOrder();
    hide Less;
    forall a, b | a in all && b in all ensures le(a, b) || le(b, a) { LessIsTotal(a.version, b.version); }
    forall a, b, c | a in all && b in all && c in all && le(a, b) && le(b, c) ensures le(a, c) {
      LessIsTotal(a.version, b.version);
      LessIsTotal(b.version, c.version);
      LessIsTotal(c.version, a.version);
      if Less(c.version, a.version) {
        if Less(a.version, b.version) { LessIsTransitive(c.version, a.version, b.version); }
      }
    }
  }

  // ---------- merging ----------

  function MergedUp(ms: seq<Migration>): seq<Statement> {
    if ms == [] then [] else MergedUp(ms[..|ms| - 1]) + ms[|ms| - 1].up
  }

  /** Newest migration first, and each migration's statements from last to first. */
  function MergedDown(ms: seq<Migration>): seq<Statement> {
    if ms == [] then [] else MergedDown(ms[1..]) + Reversed(ms[0].down)
  }

  /** What rolling the migrations back one by one runs: newest first, each as written. */
  function StepwiseDown(ms: seq<Migration>): seq<Statement> {
    if ms == [] then [] else StepwiseDown(ms[1..]) + ms[0].down
  }

  predicate AnyTouches(script: seq<Statement>, o: Object) {
    exists i :: 0 <= i < |script| && Touches(script[i], o)
  }

  /** What the last statement that touches `o` leaves of it. */
  function LastEffect(script: seq<Statement>, o: Object): Option<Body>
    requires AnyTouches(script, o)
  {
    if Touches(script[|script| - 1], o) then Effect(script[|script| - 1]) else
      assert forall i :: 0 <= i < |script| - 1 ==> script[..|script| - 1][i] == script[i];
      LastEffect(script[..|script| - 1], o)
  }

  function FirstEffect(script: seq<Statement>, o: Object): Option<Body>
    requires AnyTouches(script, o)
  {
    if Touches(script[0], o) then Effect(script[0]) else
      assert forall i :: 1 <= i < |script| ==> script[1..][i - 1] == script[i];
      FirstEffect(script[1..], o)
  }

  /**
   In the oldest migration that touches `o` going down, the first and the last such statement leave the same of it.
   */
  predicate EndsAgree(ms: seq<Migration>, o: Object) {
    ms != [] ==>
      if AnyTouches(ms[0].down, o) then FirstEffect(ms[0].down, o) == LastEffect(ms[0].down, o)
      else EndsAgree(ms[1..], o)
  }

  lemma {:induction false} LastEffectDecides(a: seq<Statement>, b: seq<Statement>, s: State, o: Object)
    ensures Get(Run(a + b, s), o) == if AnyTouches(b, o) then LastEffect(b, o) else Get(Run(a, s), o)
  {
    if b == [] {
      assert a + b == a;
    } else {
      var init := b[..|b| - 1];
      assert (a + b)[..|a + b| - 1] == a + init;
      LastEffectDecides(a, init, s, o);
      assert AnyTouches(b, o) <==> Touches(b[|b| - 1], o) || AnyTouches(init, o) by {
        assert forall i :: 0 <= i < |init| ==> init[i] == b[i];
      }
    }
  }

  lemma TouchesSplit(a: seq<Statement>, st: Statement, o: Object)
    ensures AnyTouches(a + [st], o) <==> AnyTouches(a, o) || Touches(st, o)
  {
    hide Touches;
    assert (a + [st])[|a|] == st;
    if i :| 0 <= i < |a| && Touches(a[i], o) { assert (a + [st])[i] == a[i]; }
  }

  lemma SplitTouches(b: seq<Statement>, o: Object)
    requires b != []
    ensures AnyTouches(b, o) <==> Touches(b[0], o) || AnyTouches(b[1..], o)
  {
    hide Touches;
    if i :| 1 <= i < |b| && Touches(b[i], o) { assert b[1..][i - 1] == b[i]; }
  }

  lemma {:induction false} ReverseSwapsEnds(b: seq<Statement>, o: Object)
    ensures AnyTouches(Reversed(b), o) <==> AnyTouches(b, o)
    ensures AnyTouches(b, o) ==> LastEffect(Reversed(b), o) == FirstEffect(b, o)
  {
    if b != [] {
      var r := Reversed(b[1..]);
      ReverseSwapsEnds(b[1..], o);
      assert Reversed(b)[..|r|] == r && Reversed(b)[|r|] == b[0];
      TouchesSplit(r, b[0], o);
      SplitTouches(b, o);
      hide AnyTouches, Touches;
    }
  }

  ghost predicate SameAfterDown(ms: seq<Migration>, s: State, o: Object) {
    Get(Run(MergedDown(ms), s), o) == Get(Run(StepwiseDown(ms), s), o)
  }

  lemma {:induction false} DownAgreesOn(ms: seq<Migration>, s: State, o: Object)
    ensures SameAfterDown(ms, s, o) <==> EndsAgree(ms, o)
  {
    if ms != [] {
      LastEffectDecides(MergedDown(ms[1..]), Reversed(ms[0].down), s, o);
      LastEffectDecides(StepwiseDown(ms[1..]), ms[0].down, s, o);
      ReverseSwapsEnds(ms[0].down, o);
      DownAgreesOn(ms[1..], s, o);
    }
  }

  /**
   The squashed down script undoes what rolling back one by one undoes exactly if, for every object, the ends agree.
   */
  lemma MergedDownIsFaithful(ms: seq<Migration>, s: State)
    ensures Run(MergedDown(ms), s) == Run(StepwiseDown(ms), s) <==> forall o :: EndsAgree(ms, o)
  {
    if o :| !EndsAgree(ms, o) {
      DownAgreesOn(ms, s, o);
    } else {
      forall o ensures Get(Run(MergedDown(ms), s), o) == Get(Run(StepwiseDown(ms), s), o) { DownAgreesOn(ms, s, o); }
      SameObjects(Run(MergedDown(ms), s), Run(StepwiseDown(ms), s));
    }
  }

  /** A rollback that removes an object and then defines its old form leaves nothing once it is reversed. */
  lemma ReversedDownIsUnsafe(m: Migration, o: Object, previous: Body)
    requires m.down == [Remove(o), Define(o, previous)]
    ensures Get(Run(StepwiseDown([m]), map[]), o) == Some(previous) && Get(Run(MergedDown([m]), map[]), o) == None
  {
    LastEffectDecides(StepwiseDown([]), m.down, map[], o);
    LastEffectDecides(MergedDown([]), Reversed(m.down), map[], o);
    ReverseSwapsEnds(m.down, o);
    assert [m][1..] == [];
    assert Touches(m.down[0], o);
  }

  // ---------- the optimiser and the squash as the tool runs them ----------

  predicate HighRisk(ms: seq<Migration>) {
    exists m, st :: m in ms && st in m.up && st.Other? && st.operation.Delete?
  }

  method SquashMigrations(all: seq<Migration>, from: string, to: string, optimize: bool) returns (r: Result)
    ensures
      var selected := StableSort(Selected(all, from, to), InVersionOrder());
      r == if all == [] then Failed(NoneFound)
           else if selected == [] then Failed(NoneInRange)
           else if |selected| < 2 then Failed(TooFew)
           else if HighRisk(selected) then Failed(HighSeverity)
           else Squashed(
             if optimize then Optimised(MergedUp(selected)) else MergedUp(selected), MergedDown(selected),
             if optimize then |Removed(MergedUp(selected))| else 0, Versions(selected))
  {
    if all == [] { return Failed(NoneFound); }
    var selected := FilterMigrationsByVersion(all, from, to);
    if selected == [] { return Failed(NoneInRange); }
    if |selected| < 2 { return Failed(TooFew); }
    var risky := AnyDelete(selected);
    if risky { return Failed(HighSeverity); }
    var up, versions := Concatenate(selected);
    var down := ConcatenateBackwards(selected);
    var optimizations := 0;
    if optimize {
      up, optimizations := OptimizeStatements(up);
    }
    r := Squashed(up, down, optimizations, versions);
  }

  function Versions(ms: seq<Migration>): (r: seq<string>)
    ensures |r| == |ms| && forall i :: 0 <= i < |ms| ==> r[i] == ms[i].version
  {
    if ms == [] then [] else Versions(ms[..|ms| - 1]) + [ms[|ms| - 1].version]
  }

  method AnyDelete(ms: seq<Migration>) returns (b: bool)
    ensures b == HighRisk(ms)
  {
    for i := 0 to |ms|
      invariant forall k, st :: 0 <= k < i && st in ms[k].up ==> !(st.Other? && st.operation.Delete?)
    {
      var up := ms[i].up;
      for j := 0 to |up|
        invariant forall k :: 0 <= k < j ==> !(up[k].Other? && up[k].operation.Delete?)
      {
        if up[j].Other? && up[j].operation.Delete? {
          assert ms[i] in ms && up[j] in ms[i].up;
          return true;
        }
      }
    }
    b := false;
  }

  method Concatenate(ms: seq<Migration>) returns (up: seq<Statement>, versions: seq<string>)
    ensures up == MergedUp(ms) && versions == Versions(ms)
  {
    up, versions := [], [];
    for i := 0 to |ms|
      invariant up == MergedUp(ms[..i]) && versions == Versions(ms[..i])
    {
      assert ms[..i + 1][..i] == ms[..i];
      up, versions := up + ms[i].up, versions + [ms[i].version];
    }
    assert ms[..|ms|] == ms;
  }

  method ConcatenateBackwards(ms: seq<Migration>) returns (down: seq<Statement>)
    ensures down == MergedDown(ms)
  {
    down := [];
    for i := |ms| downto 0
      invariant down == MergedDown(ms[i..])
    {
      assert ms[i..][1..] == ms[i + 1..];
      var stmts := ms[i].down;
      ghost var start := down;
      for j := |stmts| downto 0
        invariant down == start + Reversed(stmts[j..])
      {
        assert stmts[j..][1..] == stmts[j + 1..];
        down := down + [stmts[j]];
      }
      assert stmts[0..] == stmts;
    }
    assert ms[0..] == ms;
  }

  /** The three passes over the statement list. */
  method OptimizeStatements(statements: seq<Statement>) returns (out: seq<Statement>, optimizations: nat)
    ensures out == Optimised(statements) && optimizations == |Removed(statements)|
  {
    hide Removed, Paired, Superseded;
    var toRemove: set<nat>;
    toRemove, optimizations := CancelPairs(statements);
    toRemove, optimizations := DropDuplicates(statements, toRemove, optimizations);
    toRemove, optimizations := DropOrphans(statements, toRemove, optimizations);
    out := [];
    for i := 0 to |statements|
      invariant out == Keep(statements, toRemove, i)
    {
      if i in toRemove { continue; }
      out := out + [statements[i]];
    }
  }

  method CancelPairs(statements: seq<Statement>) returns (toRemove: set<nat>, optimizations: nat)
    ensures toRemove == Paired(statements) && optimizations == |toRemove|
  {
    toRemove, optimizations := {}, 0;
    hide Pairing, Positions, FirstFree, Matches;
    NoPairsYet(statements);
    for i := 0 to |statements|
      invariant toRemove == Positions(Pairing(statements, i)) && optimizations == |toRemove|
    {
      PairingSoFar(statements, i);
      PairingStep(statements, i);
      if i in toRemove { continue; }
      if !statements[i].Define? { continue; }
      var j := FindMatch(statements, i, toRemove);
      if j < |statements| {
        NewPair(Pairing(statements, i), i, j);
        toRemove, optimizations := toRemove + {i, j}, optimizations + 2;
      }
    }
  }

  /** The inner loop: the first later statement that matches `i` and is not removed. */
  method FindMatch(statements: seq<Statement>, i: nat, toRemove: set<nat>) returns (j: nat)
    requires i < |statements|
    ensures i < j && j == FirstFree(statements, i, i + 1, toRemove)
  {
    hide FirstFree, Matches;
    j := i + 1;
    while j < |statements|
      invariant i < j <= |statements|
      invariant FirstFree(statements, i, i + 1, toRemove) == FirstFree(statements, i, j, toRemove)
    {
      FirstFreeStep(statements, i, j, toRemove);
      if j !in toRemove && Matches(statements, i, j) { return; }
      j := j + 1;
    }
    FirstFreeEnds(statements, i, toRemove);
  }

  lemma NoPairsYet(script: seq<Statement>)
    ensures Positions(Pairing(script, 0)) == {}
  {
  }

  lemma PairingStep(script: seq<Statement>, i: nat)
    requires i < |script|
    ensures
      var p := Pairing(script, i);
      Pairing(script, i + 1) ==
        if !script[i].Define? then p
        else
          var j := FirstFree(script, i, i + 1, Positions(p));
          if j < |script| then p[i := j] else p
  {
    hide Positions, FirstFree;
  }

  lemma FirstFreeStep(script: seq<Statement>, i: nat, j: nat, removed: set<nat>)
    requires i < |script| && j < |script|
    ensures FirstFree(script, i, j, removed)
      == if j !in removed && Matches(script, i, j) then j else FirstFree(script, i, j + 1, removed)
  {
    hide Matches;
  }

  lemma FirstFreeEnds(script: seq<Statement>, i: nat, removed: set<nat>)
    requires i < |script|
    ensures FirstFree(script, i, |script|, removed) == |script|
  {
    hide Matches;
  }

  /** While the first pass looks at `i`, a removed `i` is a REMOVE. */
  lemma PairingSoFar(script: seq<Statement>, i: nat)
    requires i < |script|
    ensures i in Positions(Pairing(script, i)) ==> script[i].Remove?
  {
    PairingIsGreedy(script, i);
    var p := Pairing(script, i);
    if i in Positions(p) {
      var k :| k in p && p[k] == i;
      assert GreedyAt(script, p, k);
    }
  }

  lemma ValuesMore(p: map<nat, nat>, i: nat, j: nat)
    requires i !in p
    ensures p[i := j].Keys == p.Keys + {i} && p[i := j].Values == p.Values + {j}
  {
    var q := p[i := j];
    assert q[i] == j;
    forall x ensures x in q.Values <==> x in p.Values + {j} {
      if x in p.Values {
        var k :| k in p && p[k] == x;
        assert q[k] == x;
      }
    }
  }

  lemma PositionsMore(p: map<nat, nat>, i: nat, j: nat)
    requires i !in Positions(p)
    ensures Positions(p[i := j]) == Positions(p) + {i} + {j}
  {
    var ks, vs := p.Keys, p.Values;
    assert i !in p;
    ValuesMore(p, i, j);
    assert (ks + {i}) + (vs + {j}) == ks + vs + {i} + {j};
  }

  lemma TwoMore(s: set<nat>, i: nat, j: nat)
    requires i !in s && j !in s && i != j
    ensures s + {i} + {j} == s + {i, j} && |s + {i} + {j}| == |s| + 2
  {
    assert |s + {i}| == |s| + 1;
  }

  lemma NewPair(p: map<nat, nat>, i: nat, j: nat)
    requires i !in Positions(p) && j !in Positions(p) && i != j
    ensures Positions(p[i := j]) == Positions(p) + {i, j} && |Positions(p[i := j])| == |Positions(p)| + 2
  {
    PositionsMore(p, i, j);
    hide Positions;
    TwoMore(Positions(p), i, j);
  }

  method DropDuplicates(statements: seq<Statement>, paired: set<nat>, count: nat)
      returns (toRemove: set<nat>, optimizations: nat)
    requires paired == Paired(statements) && count == |paired|
    ensures toRemove == Paired(statements) + Superseded(statements) && optimizations == |toRemove|
  {
    hide Paired, Superseded, SupersededBefore, LatestDefines;
    toRemove, optimizations := paired, count;
    var defines: map<Object, nat> := map[];
    SupersededEnds(statements);
    for i := 0 to |statements|
      invariant toRemove == paired + SupersededBefore(statements, i) && optimizations == |toRemove|
      invariant LatestDefines(statements, i, defines)
    {
      SupersededStep(statements, i, defines);
      if i in toRemove { continue; }
      if !statements[i].Define? { continue; }
      var key := Key(statements[i].obj);
      if key in defines {
        var earlier := defines[key];
        if earlier !in toRemove {
          toRemove, optimizations := toRemove + {earlier}, optimizations + 1;
        }
      }
      defines := defines[key := i];
    }
  }

  lemma SupersededEnds(script: seq<Statement>)
    ensures SupersededBefore(script, 0) == {} && LatestDefines(script, 0, map[])
    ensures SupersededBefore(script, |script|) == Superseded(script)
  {
  }

  ghost function SupersededBefore(script: seq<Statement>, n: nat): set<nat>
    requires n <= |script|
  {
    set i | 0 <= i < n && IsSuperseded(script, i, n)
  }

  /** For every key, the last DEFINE before `n` that the first pass left. */
  ghost predicate LatestDefines(script: seq<Statement>, n: nat, defines: map<Object, nat>)
    requires n <= |script|
  {
    && (forall k :: k in defines ==> LatestDefine(script, n, k, defines[k]))
    && (forall i :: 0 <= i < n && script[i].Define? && i !in Paired(script) ==> Key(script[i].obj) in defines)
  }

  ghost predicate LatestDefine(script: seq<Statement>, n: nat, k: Object, i: nat)
    requires n <= |script|
  {
    && i < n && script[i].Define? && i !in Paired(script) && Key(script[i].obj) == k
    && forall j :: i < j < n && script[j].Define? && j !in Paired(script) ==> Key(script[j].obj) != k
  }

  lemma SupersededStep(script: seq<Statement>, n: nat, defines: map<Object, nat>)
    requires n < |script| && LatestDefines(script, n, defines)
    ensures n !in SupersededBefore(script, n)
    ensures
      var isNew := script[n].Define? && n !in Paired(script);
      var k := Key(if isNew then script[n].obj else Unrecognised(""));
      && SupersededBefore(script, n + 1)
        == SupersededBefore(script, n) + (if isNew && k in defines then {defines[k]} else {})
      && (isNew && k in defines ==> defines[k] !in Paired(script) + SupersededBefore(script, n))
      && LatestDefines(script, n + 1, if isNew then defines[k := n] else defines)
  {
  }

  method DropOrphans(statements: seq<Statement>, before: set<nat>, count: nat)
      returns (toRemove: set<nat>, optimizations: nat)
    requires before == Paired(statements) + Superseded(statements) && count == |before|
    ensures toRemove == Removed(statements) && optimizations == |toRemove|
  {
    hide Paired, Superseded, IsOrphaned, AboutField, OrphanedBefore, Orphaned;
    toRemove, optimizations := before, count;
    var removedFields := FieldsOf(statements, before);
    NothingToDrop(statements, before, removedFields);
    if removedFields != {} {
      for i := 0 to |statements|
        invariant toRemove == before + OrphanedBefore(statements, i) && optimizations == |toRemove|
      {
        OrphanedStep(statements, i, before, removedFields);
        if i in toRemove { continue; }
        if !statements[i].Update? { continue; }
        if statements[i].target.Some? && statements[i].target.value in removedFields {
          toRemove, optimizations := toRemove + {i}, optimizations + 1;
        }
      }
    }
  }

  ghost function OrphanedBefore(script: seq<Statement>, n: nat): set<nat>
    requires n <= |script|
  {
    set i | 0 <= i < n && IsOrphaned(script, i)
  }

  /** The fields that the statements at the given positions are about. */
  method FieldsOf(statements: seq<Statement>, at: set<nat>) returns (fields: set<Target>)
    ensures forall t :: t in fields <==> exists k :: k in at && k < |statements| && AboutField(statements[k], t)
  {
    fields := {};
    for k := 0 to |statements|
      invariant forall t :: t in fields <==> exists h :: h in at && h < k && AboutField(statements[h], t)
    {
      if k !in at { continue; }
      var st := statements[k];
      if (st.Define? || st.Remove?) && st.obj.Child? && st.obj.kind == Field && st.obj.table != ""
        && st.obj.name != "" {
        assert AboutField(st, Target(st.obj.table, st.obj.name));
        fields := fields + {Target(st.obj.table, st.obj.name)};
      }
    }
  }

  lemma OrphanedStep(script: seq<Statement>, n: nat, before: set<nat>, fields: set<Target>)
    requires n < |script| && before == Paired(script) + Superseded(script)
    requires forall t :: t in fields <==> exists k :: k in before && k < |script| && AboutField(script[k], t)
    ensures n !in OrphanedBefore(script, n)
    ensures
      var orphan := script[n].Update? && script[n].target.Some? && script[n].target.value in fields;
      OrphanedBefore(script, n + 1) == OrphanedBefore(script, n) + (if orphan then {n} else {})
    ensures script[n].Update? ==> n !in before
  {
    if n in Paired(script) { PairedKinds(script, n); }
  }

  lemma NothingToDrop(script: seq<Statement>, before: set<nat>, fields: set<Target>)
    requires before == Paired(script) + Superseded(script)
    requires forall t :: t in fields <==> exists k :: k in before && k < |script| && AboutField(script[k], t)
    ensures OrphanedBefore(script, 0) == {} && OrphanedBefore(script, |script|) == Orphaned(script)
    ensures fields == {} ==> Orphaned(script) == {}
  {
    if fields == {} {
      forall i | 0 <= i < |script| ensures !IsOrphaned(script, i) {
        if script[i].Update? && script[i].target.Some? { assert script[i].target.value !in fields; }
      }
    }
  }
}
