/** When an optimised script does the same to a schema as the script it came from: exactly when every object is safe. */
module SquashSafety {
  import opened Wrappers
  import opened Schema
  import opened Optimizer

  predicate LastTouch(script: seq<Statement>, o: Object, i: nat) {
    i < |script| && Touches(script[i], o) && forall j :: i < j < |script| ==> !Touches(script[j], o)
  }

  /** The REMOVE at `j` takes `o` away, stays in the script, and no DEFINE of `o` that stays comes after it. */
  ghost predicate Sticks(script: seq<Statement>, o: Object, j: nat) {
    && j < |script| && script[j].Remove? && Covers(script[j].obj, o)
    && !Surplus(script, script[j].obj, j)
    && (Surplus(script, o, |script|) ==> forall k :: j < k < |script| && script[k].Define? ==> script[k].obj != o)
  }

  predicate LaterUnrecognised(script: seq<Statement>, i: nat) {
    exists j :: i < j < |script| && script[j].Define? && script[j].obj.Unrecognised?
  }

  /** Only an object the script leaves removed, or an unrecognised one it leaves defined, can go wrong. */
  ghost predicate SafeFor(script: seq<Statement>, s: State, o: Object) {
    forall i: nat :: LastTouch(script, o, i) ==>
      if o.Unrecognised? then
        script[i].Define? && LaterUnrecognised(script, i) ==>
          Remove(o) !in script && Get(s, o) == Some(script[i].body)
      else
        script[i].Remove? ==>
          (exists j :: Sticks(script, o, j)) || (!Surplus(script, o, |script|) && o !in s)
  }

  ghost predicate Agrees(script: seq<Statement>, s: State, o: Object) {
    Get(Run(Optimised(script), s), o) == Get(Run(script, s), o)
  }

  // ---------- which statements that touch an object are dropped ----------

  lemma TouchersDropped(script: seq<Statement>, o: Object, i: nat)
    requires i < |script| && Touches(script[i], o) && !o.Unrecognised?
    ensures script[i].Remove? ==> (i in Removed(script) <==> Surplus(script, script[i].obj, i))
    ensures script[i].Define? && i in Pairing(script, |script|) ==> i in Removed(script)
    ensures
      && script[i].Define? && i !in Pairing(script, |script|)
      && (forall k :: i < k < |script| && script[k].Define? ==> script[k].obj != o) ==>
        i !in Removed(script)
  {
    if script[i].Remove? {
      CancelledIsSurplus(script, i);
      if i in Paired(script) { PairedKinds(script, i); }
    } else {
      if i in Paired(script) { PairedKinds(script, i); }
    }
  }

  lemma {:induction false} KeptRemoveWins(script: seq<Statement>, dropped: set<nat>, n: nat, s: State, o: Object,
                                          j: nat)
    requires j < n <= |script| && j !in dropped && Touches(script[j], o) && script[j].Remove?
    requires forall k :: j < k < n && Touches(script[k], o) && script[k].Define? ==> k in dropped
    ensures Get(Run(Keep(script, dropped, n), s), o) == None
  {
    RunKeep(script, dropped, n, s);
    hide Run, Keep;
    if j < n - 1 { KeptRemoveWins(script, dropped, n - 1, s, o, j); }
  }

  lemma LastDefineFrom(script: seq<Statement>, o: Object, u: nat) returns (d: nat)
    requires u < |script| && script[u].Define? && script[u].obj == o
    ensures u <= d < |script| && script[d].Define? && script[d].obj == o
    ensures forall k :: d < k < |script| && script[k].Define? ==> script[k].obj != o
    decreases |script| - u
  {
    if k :| u < k < |script| && script[k].Define? && script[k].obj == o {
      d := LastDefineFrom(script, o, k);
    } else {
      d := u;
    }
  }

  /** With a surplus of DEFINEs, the last DEFINE stays. */
  lemma LastDefineStays(script: seq<Statement>, o: Object) returns (d: nat)
    requires !o.Unrecognised? && Surplus(script, o, |script|)
    ensures d < |script| && script[d].Define? && script[d].obj == o && d !in Removed(script)
    ensures forall k :: d < k < |script| && script[k].Define? ==> script[k].obj != o
  {
    PendingIsSurplus(script, o, |script|);
    var p := Pairing(script, |script|);
    var u :| u in Defs(script, o, 0, |script|) && !(u in p && p[u] < |script|);
    if u in p { PairFacts(script, u); }
    d := LastDefineFrom(script, o, u);
    if d in p {
      PairFacts(script, d);
      PairingIsGreedy(script, |script|);
      assert GreedyAt(script, p, u) && Taken(p, u, p[d]);
      var k :| k in p && k < u && p[k] == p[d];
      PairsAreInjective(script, k, d);
    }
    TouchersDropped(script, o, d);
  }

  /** Without one, every DEFINE is cancelled. */
  lemma NoDefineStays(script: seq<Statement>, o: Object)
    requires !o.Unrecognised? && !Surplus(script, o, |script|)
    ensures forall i :: 0 <= i < |script| && script[i].Define? && script[i].obj == o ==> i in Removed(script)
  {
    PendingIsSurplus(script, o, |script|);
    forall i | 0 <= i < |script| && script[i].Define? && script[i].obj == o ensures i in Removed(script) {
      assert i in Defs(script, o, 0, |script|);
    }
  }

  // ---------- object by object ----------

  lemma RecognisedExact(script: seq<Statement>, s: State, o: Object, l: nat)
    requires !o.Unrecognised? && LastTouch(script, o, l) && script[l].Remove?
    ensures Agrees(script, s, o) <==> (exists j :: Sticks(script, o, j)) || (!Surplus(script, o, |script|) && o !in s)
  {
    hide Surplus, Removed;
    LastDecides(script, s, o, l);
    if j :| Sticks(script, o, j) {
      if !Surplus(script, o, |script|) { NoDefineStays(script, o); }
      TouchersDropped(script, o, j);
      KeptRemoveWins(script, Removed(script), |script|, s, o, j);
    } else if Surplus(script, o, |script|) {
      var d := LastDefineStays(script, o);
      forall k | d < k < |script| && Touches(script[k], o) ensures k in Removed(script) {
        TouchersDropped(script, o, k);
        assert !Sticks(script, o, k);
      }
      LastKeptDecides(script, Removed(script), |script|, s, o, d);
    } else {
      NoDefineStays(script, o);
      forall k | 0 <= k < |script| && Touches(script[k], o) ensures k in Removed(script) {
        TouchersDropped(script, o, k);
        assert !Sticks(script, o, k);
      }
      NoneKeptNoChange(script, Removed(script), |script|, s, o);
    }
  }

  lemma EndsDefined(script: seq<Statement>, s: State, o: Object, l: nat)
    requires LastTouch(script, o, l) && script[l].Define? && (o.Unrecognised? ==> !LaterUnrecognised(script, l))
    ensures Agrees(script, s, o)
  {
    LastDecides(script, s, o, l);
    if l in Paired(script) {
      PairedKinds(script, l);
      PairFacts(script, l);
    }
    LastKeptDecides(script, Removed(script), |script|, s, o, l);
  }

  lemma UnrecognisedExact(script: seq<Statement>, s: State, o: Object, l: nat)
    requires o.Unrecognised? && LastTouch(script, o, l) && script[l].Define? && LaterUnrecognised(script, l)
    ensures Agrees(script, s, o) <==> Remove(o) !in script && Get(s, o) == Some(script[l].body)
  {
    LastDecides(script, s, o, l);
    forall k | 0 <= k < |script| && script[k].Define? && Touches(script[k], o) ensures k in Removed(script) {
      assert k <= l;
      if k in Paired(script) { PairedKinds(script, k); }
      var j :| l < j < |script| && script[j].Define? && script[j].obj.Unrecognised?;
      if j in Paired(script) { PairedKinds(script, j); }
      assert IsSuperseded(script, k, |script|);
    }
    if j :| 0 <= j < |script| && script[j] == Remove(o) {
      if j in Paired(script) { PairedKinds(script, j); }
      KeptRemoveWins(script, Removed(script), |script|, s, o, j);
    } else {
      NoneKeptNoChange(script, Removed(script), |script|, s, o);
    }
  }

  lemma UnrecognisedRemoved(script: seq<Statement>, s: State, o: Object, l: nat)
    requires o.Unrecognised? && LastTouch(script, o, l) && script[l].Remove?
    ensures Agrees(script, s, o)
  {
    LastDecides(script, s, o, l);
    if l in Paired(script) { PairedKinds(script, l); }
    LastKeptDecides(script, Removed(script), |script|, s, o, l);
  }

  lemma LastTouchIsUnique(script: seq<Statement>, o: Object, i: nat, j: nat)
    requires LastTouch(script, o, i) && LastTouch(script, o, j)
    ensures i == j
  {
  }

  lemma {:induction false} FindLastTouch(script: seq<Statement>, o: Object, n: nat) returns (l: nat)
    requires n <= |script| && forall j :: n <= j < |script| ==> !Touches(script[j], o)
    requires exists j :: 0 <= j < n && Touches(script[j], o)
    ensures LastTouch(script, o, l)
  {
    if Touches(script[n - 1], o) { l := n - 1; } else { l := FindLastTouch(script, o, n - 1); }
  }

  lemma SafeIsExact(script: seq<Statement>, s: State, o: Object)
    ensures Agrees(script, s, o) <==> SafeFor(script, s, o)
  {
    hide Surplus, Sticks, Optimised, Removed, Agrees;
    if exists j :: 0 <= j < |script| && Touches(script[j], o) {
      var l := FindLastTouch(script, o, |script|);
      forall i: nat | LastTouch(script, o, i) ensures i == l { LastTouchIsUnique(script, o, i, l); }
      if script[l].Define? {
        if o.Unrecognised? && LaterUnrecognised(script, l) {
          UnrecognisedExact(script, s, o, l);
        } else {
          EndsDefined(script, s, o, l);
        }
      } else {
        if o.Unrecognised? { UnrecognisedRemoved(script, s, o, l); } else { RecognisedExact(script, s, o, l); }
      }
    } else {
      UntouchedAgrees(script, s, o);
    }
  }

  lemma UntouchedAgrees(script: seq<Statement>, s: State, o: Object)
    requires forall j :: 0 <= j < |script| ==> !Touches(script[j], o)
    ensures Agrees(script, s, o)
  {
    NoneNoChange(script, s, o);
    NoneKeptNoChange(script, Removed(script), |script|, s, o);
  }

  /** The optimised script does what the script does, from `s`, exactly if every object is safe. */
  lemma OptimisationIsFaithful(script: seq<Statement>, s: State)
    ensures Run(Optimised(script), s) == Run(script, s) <==> forall o :: SafeFor(script, s, o)
  {
    hide SafeFor, Optimised;
    forall o ensures Agrees(script, s, o) <==> SafeFor(script, s, o) { SafeIsExact(script, s, o); }
    if forall o :: SafeFor(script, s, o) {
      forall o ensures Get(Run(Optimised(script), s), o) == Get(Run(script, s), o) { assert Agrees(script, s, o); }
      SameObjects(Run(Optimised(script), s), Run(script, s));
    }
    if Run(Optimised(script), s) == Run(script, s) {
      forall o ensures SafeFor(script, s, o) { assert Agrees(script, s, o); }
    }
  }

  // ---------- scripts that are safe, and scripts that are not ----------

  /** Between two DEFINEs of an object that some REMOVE of it follows, the object is removed. */
  predicate Alternates(script: seq<Statement>, o: Object) {
    forall i, k, r :: 0 <= i < k < r < |script|
      && script[i].Define? && script[i].obj == o && script[k].Define? && script[k].obj == o && script[r] == Remove(o)
      ==> exists m :: i < m < k && script[m] == Remove(o)
  }

  /** Then every DEFINE is cancelled against the very next REMOVE. */
  lemma {:induction false} AlternatingPairs(script: seq<Statement>, o: Object, i: nat, r: nat)
    requires Alternates(script, o) && !o.Unrecognised?
    requires i < r < |script| && script[i].Define? && script[i].obj == o && script[r] == Remove(o)
    ensures var p := Pairing(script, |script|); i in p && p[i] <= r
    decreases i
  {
    var p := Pairing(script, |script|);
    PairingIsGreedy(script, |script|);
    assert GreedyAt(script, p, i);
    if !(i in p && p[i] <= r) {
      assert Matches(script, i, r) && Taken(p, i, r);
      var k :| k in p && k < i && p[k] == r;
      PairFacts(script, k);
      var m :| k < m < i && script[m] == Remove(o);
      AlternatingPairs(script, o, k, m);
    }
  }

  predicate AllRecognised(script: seq<Statement>) {
    forall i :: 0 <= i < |script| && (script[i].Define? || script[i].Remove?) ==> !script[i].obj.Unrecognised?
  }

  /** A part that the script defined before it removes the part's table has a REMOVE of its own. */
  predicate RemovesParts(script: seq<Statement>) {
    forall i, k :: 0 <= k < i < |script| && script[k].Define? && script[i].Remove? && Touches(script[i], script[k].obj)
      ==> exists r :: k < r < |script| && script[r] == Remove(script[k].obj)
  }

  predicate PartsHaveTables(s: State) {
    forall o :: o in s && o.Child? ==> Table(o.table) in s
  }

  /** Statement `i` is the first to define or remove its object. */
  predicate IsFirstOwn(script: seq<Statement>, i: nat)
    requires i < |script|
  {
    (script[i].Define? || script[i].Remove?)
    && forall k :: 0 <= k < i && (script[k].Define? || script[k].Remove?) ==> script[k].obj != script[i].obj
  }

  /** What the script first defines and later removes is not there at the start. */
  predicate StartsWithout(script: seq<Statement>, s: State) {
    forall i, j :: 0 <= i < j < |script| && Matches(script, i, j) && IsFirstOwn(script, i) ==> script[i].obj !in s
  }

  ghost predicate IsAlternating(script: seq<Statement>, s: State) {
    AllRecognised(script) && (forall o :: Alternates(script, o)) && RemovesParts(script) && StartsWithout(script, s)
      && PartsHaveTables(s)
  }

  /** Scripts of recognised objects that alternate, and that remove by itself every part they define, mean the same
      once optimised, from every state in which what they define and later remove is absent. */
  lemma AlternatingIsSafe(script: seq<Statement>, s: State)
    requires IsAlternating(script, s)
    ensures Run(Optimised(script), s) == Run(script, s)
  {
    OptimisationIsFaithful(script, s);
    forall o ensures SafeFor(script, s, o) {
      forall l: nat | LastTouch(script, o, l) && !o.Unrecognised? && script[l].Remove?
        ensures (exists j :: Sticks(script, o, j)) || (!Surplus(script, o, |script|) && o !in s)
      {
        hide Sticks, Surplus;
        assert Alternates(script, o);
        hide Alternates, RemovesParts, StartsWithout;
        AlternatingObjectIsSafe(script, s, o, l);
      }
    }
  }

  /** Every DEFINE of an object that the script leaves removed is cancelled. */
  lemma NothingIsPending(script: seq<Statement>, o: Object, l: nat)
    requires Alternates(script, o) && RemovesParts(script) && !o.Unrecognised? && LastTouch(script, o, l)
      && script[l].Remove?
    ensures !Surplus(script, o, |script|)
  {
    PendingIsSurplus(script, o, |script|);
    hide Surplus, Alternates, Pairing;
    forall u | u in Defs(script, o, 0, |script|)
      ensures u in Pairing(script, |script|) && Pairing(script, |script|)[u] < |script|
    {
      assert Touches(script[u], o) && u < l;
      var r :| u < r < |script| && script[r] == Remove(script[u].obj);
      AlternatingPairs(script, o, u, r);
      PairFacts(script, u);
    }
  }

  lemma AlternatingObjectIsSafe(script: seq<Statement>, s: State, o: Object, l: nat)
    requires Alternates(script, o) && RemovesParts(script) && !o.Unrecognised? && LastTouch(script, o, l)
      && script[l].Remove?
    requires StartsWithout(script, s) && PartsHaveTables(s)
    ensures (exists j :: Sticks(script, o, j)) || (!Surplus(script, o, |script|) && o !in s)
  {
    NothingIsPending(script, o, l);
    hide Alternates, RemovesParts;
    if o in s {
      var r := FirstRemove(script, s, l);
      assert Sticks(script, o, r);
    }
  }

  lemma {:induction false} FirstOwn(script: seq<Statement>, l: nat) returns (r: nat)
    requires l < |script| && (script[l].Define? || script[l].Remove?)
    ensures r <= l && IsFirstOwn(script, r) && script[r].obj == script[l].obj
  {
    if k :| 0 <= k < l && (script[k].Define? || script[k].Remove?) && script[k].obj == script[l].obj {
      r := FirstOwn(script, k);
    } else {
      r := l;
    }
  }

  /** What is there at the start and is removed is removed before it is defined, and that first REMOVE stays. */
  lemma FirstRemove(script: seq<Statement>, s: State, l: nat) returns (r: nat)
    requires StartsWithout(script, s) && l < |script| && script[l].Remove? && script[l].obj in s
      && !script[l].obj.Unrecognised?
    ensures r <= l && script[r] == Remove(script[l].obj) && !Surplus(script, script[l].obj, r)
  {
    r := FirstOwn(script, l);
    var o := script[l].obj;
    assert !Matches(script, r, l);
    assert Defs(script, o, 0, r) == {};
    PendingIsSurplus(script, o, r);
    hide Surplus;
  }

  const TABLE := Table("t")
  const FIELD := Child("t", Field, "f")

  lemma RunOfThree(script: seq<Statement>, s: State)
    requires |script| == 3
    ensures Run(script, s) == Apply(script[2], Apply(script[1], Apply(script[0], s)))
  {
    var two := script[..2];
    assert two[..1] == script[..1] && script[..1][..0] == [];
    assert Run(script[..1], s) == Apply(script[0], s);
    assert Run(two, s) == Apply(script[1], Run(script[..1], s));
  }

  lemma KeepOfThree(script: seq<Statement>, dropped: set<nat>)
    requires |script| == 3
    ensures Keep(script, dropped, 3) ==
            (if 0 in dropped then [] else [script[0]]) + (if 1 in dropped then [] else [script[1]])
              + (if 2 in dropped then [] else [script[2]])
  {
    assert Keep(script, dropped, 0) == [];
    assert Keep(script, dropped, 1) == Keep(script, dropped, 0) + (if 0 in dropped then [] else [script[0]]);
    assert Keep(script, dropped, 2) == Keep(script, dropped, 1) + (if 1 in dropped then [] else [script[1]]);
  }

  // Three scripts that optimising changes, one for each way of being unsafe.

  /** A DEFINE repeated before its REMOVE comes back. */
  lemma RepeatedDefineIsUnsafe(script: seq<Statement>)
    requires script == [Define(FIELD, OtherBody("a")), Define(FIELD, OtherBody("b")), Remove(FIELD)]
    ensures Run(script, map[]) == map[] && Optimised(script) == [Define(FIELD, OtherBody("b"))]
  {
    RunOfThree(script, map[]);
    assert Pairing(script, 1) == map[0 := 2]
      by { assert Pairing(script, 0) == map[]; assert FirstFree(script, 0, 1, {}) == 2; }
    assert Positions(map[0 := 2]) == {0, 2} by { assert map[0 := 2][0] == 2; }
    assert FirstFree(script, 1, 2, {0, 2}) == 3;
    assert Pairing(script, 2) == map[0 := 2];
    assert Pairing(script, 3) == map[0 := 2];
    assert Removed(script) == {0, 2};
    KeepOfThree(script, {0, 2});
  }

  /** A field outlives the table it was defined on and removed with. */
  lemma RemovedTableIsUnsafe(script: seq<Statement>)
    requires script == [Define(TABLE, OtherBody("a")), Define(FIELD, OtherBody("b")), Remove(TABLE)]
    ensures Run(script, map[]) == map[] && Optimised(script) == [Define(FIELD, OtherBody("b"))]
  {
    RunOfThree(script, map[]);
    assert Pairing(script, 1) == map[0 := 2]
      by { assert Pairing(script, 0) == map[]; assert FirstFree(script, 0, 1, {}) == 2; }
    assert Pairing(script, 2) == map[0 := 2];
    assert Pairing(script, 3) == map[0 := 2];
    assert Paired(script) == {0, 2} by { assert map[0 := 2][0] == 2; }
    assert Removed(script) == {0, 2} by { hide Pairing, Paired; }
    KeepOfThree(script, {0, 2});
  }

  /** Of several unrecognised DEFINEs only the last is kept. */
  lemma UnrecognisedDefinesAreUnsafe(script: seq<Statement>, x: Object, y: Object, b: Body)
    requires x.Unrecognised? && y.Unrecognised? && x != y && script == [Define(x, b), Define(y, b)]
    ensures x in Run(script, map[]) && x !in Run(Optimised(script), map[])
  {
    LastDecides(script, map[], x, 0);
    NoMatchNoPair(script, 2);
    assert IsSuperseded(script, 0, 2);
    NoneKeptNoChange(script, Removed(script), 2, map[], x);
  }

  // ---------- the third pass ----------

  /** The rule the comments give for dropping an UPDATE: the first pass cancelled a statement about its field. */
  predicate OrphanedAsDocumented(script: seq<Statement>, i: nat)
    requires i < |script|
  {
    && script[i].Update? && script[i].target.Some?
    && exists k :: k in Paired(script) && k < |script| && AboutField(script[k], script[i].target.value)
  }

  /** A field whose every DEFINE is kept or cancelled by the first pass. */
  predicate CancelledOrDefinedOnce(script: seq<Statement>, o: Object) {
    || (exists a, b :: 0 <= a < b < |script| && Matches(script, a, b) && script[a].obj == o)
    || (forall a, b ::
      0 <= a < b < |script| && script[a].Define? && script[b].Define? ==> !(script[a].obj == o && script[b].obj == o))
  }

  /** The code's rule is the documented one exactly for fields cancelled by the first pass or defined at most once. */
  lemma OrphanRuleExact(script: seq<Statement>, i: nat, t: Target)
    requires i < |script| && script[i].Update? && script[i].target == Some(t) && t.table != "" && t.field != ""
    ensures (IsOrphaned(script, i) <==> OrphanedAsDocumented(script, i)) <==>
      CancelledOrDefinedOnce(script, Child(t.table, Field, t.field))
  {
    var o := Child(t.table, Field, t.field);
    if a, b :| 0 <= a < b < |script| && Matches(script, a, b) && script[a].obj == o {
      NothingSkipped(script, a, b);
      var k := if a in Pairing(script, |script|) then a else b;
      assert k in Paired(script) && AboutField(script[k], t);
    } else {
      forall k | k in Paired(script) && k < |script| ensures !AboutField(script[k], t) {
        NotPairedUnmatched(script, k, o);
      }
      if a, b :|
        0 <= a < b < |script| && script[a].Define? && script[b].Define? && script[a].obj == o && script[b].obj == o
      {
        assert AboutField(script[a], t) && AboutField(script[b], t);
        assert IsSuperseded(script, a, |script|);
        assert a in Paired(script) + Superseded(script);
      }
    }
  }

  lemma NotPairedUnmatched(script: seq<Statement>, k: nat, o: Object)
    requires k in Paired(script)
    requires forall a, b :: 0 <= a < b < |script| && Matches(script, a, b) ==> script[a].obj != o
    ensures k < |script| && (script[k].Define? || script[k].Remove? ==> script[k].obj != o)
  {
    PairedKinds(script, k);
    var p := Pairing(script, |script|);
    var i := if k in p then k else var j :| j in p && p[j] == k; j;
    PairFacts(script, i);
  }
}
