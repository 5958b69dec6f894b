/**
 The peephole optimiser applied to a squashed script, as functions of the script: which DEFINE is
 cancelled against which REMOVE, which DEFINE a later one replaces, and which UPDATE is dropped.
 */
module Optimizer {
  import opened Schema

  /** A DEFINE and a later REMOVE that the first pass cancels; unrecognised objects never match. */
  predicate Matches(script: seq<Statement>, i: nat, j: nat)
    requires i < |script| && j < |script|
  {
    script[i].Define? && script[j].Remove? && !script[i].obj.Unrecognised? && script[i].obj == script[j].obj
  }

  /** The first REMOVE from `j` on that matches `i` and is not removed yet; the script's length if none is. */
  function FirstFree(script: seq<Statement>, i: nat, j: nat, removed: set<nat>): (r: nat)
    requires i < |script| && j <= |script|
    ensures j <= r <= |script|
    ensures r < |script| ==> r !in removed && Matches(script, i, r)
    ensures forall k :: j <= k < r && Matches(script, i, k) ==> k in removed
    decreases |script| - j
  {
    if j == |script| || (j !in removed && Matches(script, i, j)) then j
    else FirstFree(script, i, j + 1, removed)
  }

  function Positions(p: map<nat, nat>): set<nat> {
    p.Keys + p.Values
  }

  /** The pairs the first pass has cancelled once it has looked at the first `n` statements. */
  function Pairing(script: seq<Statement>, n: nat): map<nat, nat>
    requires n <= |script|
  {
    if n == 0 then map[]
    else
      var p := Pairing(script, n - 1);
      if script[n - 1].Define? then
        var j := FirstFree(script, n - 1, n, Positions(p));
        if j < |script| then p[n - 1 := j] else p
      else p
  }

  predicate Taken(p: map<nat, nat>, before: nat, r: nat) {
    exists i :: i in p && i < before && p[i] == r
  }

  /** Position `i` takes the first matching REMOVE behind it that no earlier position has taken, if there is one. */
  ghost predicate GreedyAt(script: seq<Statement>, p: map<nat, nat>, i: nat)
    requires i < |script|
  {
    && (i in p ==> i < p[i] < |script| && Matches(script, i, p[i]) && !Taken(p, i, p[i]))
    && forall r ::
      i < r < (if i in p then p[i] else |script|) && r < |script| && Matches(script, i, r) ==> Taken(p, i, r)
  }

  ghost predicate Greedy(script: seq<Statement>, n: nat, p: map<nat, nat>)
    requires n <= |script|
  {
    (forall i :: i in p ==> i < n) && forall i :: 0 <= i < n ==> GreedyAt(script, p, i)
  }

  lemma {:induction false} PairingIsGreedy(script: seq<Statement>, n: nat)
    requires n <= |script|
    ensures Greedy(script, n, Pairing(script, n))
  {
    if n > 0 {
      PairingIsGreedy(script, n - 1);
      GreedyStep(script, n, Pairing(script, n - 1), Pairing(script, n));
    }
  }

  lemma GreedyStep(script: seq<Statement>, n: nat, p: map<nat, nat>, p': map<nat, nat>)
    requires 0 < n <= |script| && Greedy(script, n - 1, p)
    requires
      var j := FirstFree(script, n - 1, n, Positions(p));
      p' == if script[n - 1].Define? && j < |script| then p[n - 1 := j] else p
    ensures Greedy(script, n, p')
  {
    forall i | 0 <= i < n - 1 ensures GreedyAt(script, p', i) {
      assert GreedyAt(script, p, i);
      TakenStays(p, p', n - 1, i);
    }
    TakenStays(p, p', n - 1, n - 1);
    forall r: nat | n <= r < |script| && Matches(script, n - 1, r) ensures r in Positions(p) <==> Taken(p, n - 1, r) {
      assert r !in p;
      assert r in p.Values <==> Taken(p, n - 1, r);
    }
  }

  lemma TakenStays(p: map<nat, nat>, p': map<nat, nat>, n: nat, i: nat)
    requires i <= n && (forall k :: k in p ==> k < n) && (p' == p || (n in p' && p' == p[n := p'[n]]))
    ensures forall r: nat :: Taken(p', i, r) <==> Taken(p, i, r)
  {
    forall r: nat ensures Taken(p', i, r) <==> Taken(p, i, r) {
      if Taken(p, i, r) {
        var k :| k in p && k < i && p[k] == r;
        assert k in p' && p'[k] == r;
      }
    }
  }

  /** Greediness leaves no choice: it determines the pairs. */
  lemma {:induction false} GreedyIsUnique(script: seq<Statement>, n: nat, p: map<nat, nat>, q: map<nat, nat>)
    requires n <= |script| && Greedy(script, n, p) && Greedy(script, n, q)
    ensures p == q
  {
    AgreeBelow(script, n, n, p, q);
  }

  lemma {:induction false} AgreeBelow(script: seq<Statement>, n: nat, m: nat, p: map<nat, nat>, q: map<nat, nat>)
    requires m <= n <= |script| && Greedy(script, n, p) && Greedy(script, n, q)
    ensures forall i :: 0 <= i < m ==> (i in p <==> i in q) && (i in p ==> p[i] == q[i])
  {
    if m > 0 {
      AgreeBelow(script, n, m - 1, p, q);
      var i := m - 1;
      assert GreedyAt(script, p, i) && GreedyAt(script, q, i);
      assert forall r: nat :: Taken(p, i, r) <==> Taken(q, i, r) by {
        forall r: nat ensures Taken(p, i, r) <==> Taken(q, i, r) {}
      }
    }
  }

  // ---------- the pairs of one object, and windows of the script ----------

  /** No cancelled pair spans a REMOVE of its object that is still there, and no DEFINE still there precedes one. */
  lemma NothingSkipped(script: seq<Statement>, i: nat, r: nat)
    requires i < r < |script| && Matches(script, i, r)
    ensures
      var p := Pairing(script, |script|);
      (i in p && p[i] <= r) || r in p.Values
  {
    PairingIsGreedy(script, |script|);
    var p := Pairing(script, |script|);
    assert GreedyAt(script, p, i);
    if !(i in p && p[i] <= r) {
      assert Taken(p, i, r);
      var k :| k in p && k < i && p[k] == r;
    }
  }

  function Defs(script: seq<Statement>, o: Object, a: nat, b: nat): set<nat>
    requires b <= |script|
  {
    set i | a <= i < b && script[i].Define? && script[i].obj == o
  }

  function Rems(script: seq<Statement>, o: Object, a: nat, b: nat): set<nat>
    requires b <= |script|
  {
    set i | a <= i < b && script[i].Remove? && script[i].obj == o
  }

  /** Some stretch of the script that ends just before `e` DEFINEs `o` more often than it REMOVEs it. */
  ghost predicate Surplus(script: seq<Statement>, o: Object, e: nat)
    requires e <= |script|
  {
    exists q: nat :: q <= e && |Rems(script, o, q, e)| < |Defs(script, o, q, e)|
  }

  /** Some DEFINE of `o` before `e` has no REMOVE before `e` to cancel against. */
  ghost predicate Pending(script: seq<Statement>, o: Object, e: nat)
    requires e <= |script|
  {
    var p := Pairing(script, |script|);
    exists i :: i in Defs(script, o, 0, e) && !(i in p && p[i] < e)
  }

  lemma {:induction false} InjectionBound(p: map<nat, nat>, a: set<nat>, b: set<nat>)
    requires a <= p.Keys && forall i :: i in a ==> p[i] in b
    requires forall i, k :: i in a && k in a && p[i] == p[k] ==> i == k
    ensures |a| <= |b|
  {
    if a != {} {
      var i :| i in a;
      InjectionBound(p, a - {i}, b - {p[i]});
    }
  }

  lemma {:induction false} ImageBound(p: map<nat, nat>, a: set<nat>, b: set<nat>)
    requires a <= p.Keys && forall j :: j in b ==> exists i :: i in a && p[i] == j
    ensures |b| <= |a|
  {
    if b != {} {
      var j :| j in b;
      var i :| i in a && p[i] == j;
      forall k | k in b - {j} ensures exists h :: h in a - {i} && p[h] == k {
        var h :| h in a && p[h] == k;
        assert h in a - {i};
      }
      ImageBound(p, a - {i}, b - {j});
    }
  }

  lemma SubsetBound(a: set<nat>, b: set<nat>, x: nat)
    requires a <= b && x in b && x !in a
    ensures |a| < |b|
  {
    var c := b - {x};
    CardinalityMonotone(a, c);
  }

  lemma {:induction false} CardinalityMonotone(a: set<nat>, b: set<nat>)
    requires a <= b
    ensures |a| <= |b|
  {
    if a != {} {
      var x :| x in a;
      CardinalityMonotone(a - {x}, b - {x});
    }
  }

  lemma PairFacts(script: seq<Statement>, i: nat)
    requires i in Pairing(script, |script|)
    ensures var p := Pairing(script, |script|); i < p[i] < |script| && Matches(script, i, p[i])
  {
    PairingIsGreedy(script, |script|);
    assert GreedyAt(script, Pairing(script, |script|), i);
  }

  lemma PairsAreInjective(script: seq<Statement>, i: nat, k: nat)
    requires var p := Pairing(script, |script|); i in p && k in p && i < k
    ensures var p := Pairing(script, |script|); p[i] != p[k]
  {
    PairingIsGreedy(script, |script|);
    var p := Pairing(script, |script|);
    assert GreedyAt(script, p, k);
    assert !Taken(p, k, p[k]);
  }

  lemma NoSurplusWithoutPending(script: seq<Statement>, o: Object, e: nat, q: nat)
    requires q <= e <= |script| && !Pending(script, o, e)
    ensures |Defs(script, o, q, e)| <= |Rems(script, o, q, e)|
  {
    var p, a, b := Pairing(script, |script|), Defs(script, o, q, e), Rems(script, o, q, e);
    forall i | i in a ensures i in p && p[i] in b {
      assert i in Defs(script, o, 0, e);
      PairFacts(script, i);
    }
    forall i, k | i in a && k in a && i != k ensures p[i] != p[k] {
      if i < k { PairsAreInjective(script, i, k); } else { PairsAreInjective(script, k, i); }
    }
    InjectionBound(p, a, b);
  }

  /** Just after the last REMOVE of `o` before `e` that no pair uses. */
  ghost function AfterLastLoose(script: seq<Statement>, o: Object, e: nat): (q: nat)
    requires e <= |script|
    ensures q <= e
    ensures q > 0 ==> script[q - 1] == Remove(o) && q - 1 !in Pairing(script, |script|).Values
    ensures forall j :: q <= j < e && script[j] == Remove(o) ==> j in Pairing(script, |script|).Values
  {
    if e == 0 || (script[e - 1] == Remove(o) && e - 1 !in Pairing(script, |script|).Values) then e
    else AfterLastLoose(script, o, e - 1)
  }

  lemma PendingMakesSurplus(script: seq<Statement>, o: Object, e: nat, u: nat)
    requires e <= |script| && !o.Unrecognised? && u in Defs(script, o, 0, e)
    requires var p := Pairing(script, |script|); !(u in p && p[u] < e)
    ensures Surplus(script, o, e)
  {
    var p, q := Pairing(script, |script|), AfterLastLoose(script, o, e);
    if q > 0 && u < q - 1 { NothingSkipped(script, u, q - 1); }
    var b := Rems(script, o, q, e);
    var a := set i | i in Defs(script, o, q, e) && i in p && p[i] < e;
    forall j | j in b ensures exists i :: i in a && p[i] == j {
      assert script[j] == Remove(o);
      var i :| i in p && p[i] == j;
      PairFacts(script, i);
      if q > 0 && i < q - 1 { NothingSkipped(script, i, q - 1); }
      assert i in a;
    }
    ImageBound(p, a, b);
    SubsetBound(a, Defs(script, o, q, e), u);
  }

  /** What the first pass leaves is decided by counting. */
  lemma PendingIsSurplus(script: seq<Statement>, o: Object, e: nat)
    requires e <= |script| && !o.Unrecognised?
    ensures Pending(script, o, e) <==> Surplus(script, o, e)
  {
    if Pending(script, o, e) {
      var p := Pairing(script, |script|);
      var u :| u in Defs(script, o, 0, e) && !(u in p && p[u] < e);
      PendingMakesSurplus(script, o, e, u);
    } else {
      forall q: nat | q <= e ensures |Defs(script, o, q, e)| <= |Rems(script, o, q, e)| {
        NoSurplusWithoutPending(script, o, e, q);
      }
    }
  }

  /**
   A REMOVE is cancelled exactly if some stretch ending just before it DEFINEs its object more often than it REMOVEs
   it.
   */
  lemma CancelledIsSurplus(script: seq<Statement>, j: nat)
    requires j < |script| && script[j].Remove? && !script[j].obj.Unrecognised?
    ensures j in Pairing(script, |script|).Values <==> Surplus(script, script[j].obj, j)
  {
    var p, o := Pairing(script, |script|), script[j].obj;
    PendingIsSurplus(script, o, j);
    if j in p.Values {
      var i :| i in p && p[i] == j;
      PairFacts(script, i);
      assert i in Defs(script, o, 0, j);
    } else if Pending(script, o, j) {
      var i :| i in Defs(script, o, 0, j) && !(i in p && p[i] < j);
      NothingSkipped(script, i, j);
    }
  }

  // ---------- the other two passes ----------

  /** The key under which the second pass files a DEFINE; all unrecognised objects share one. */
  function Key(o: Object): Object {
    if o.Unrecognised? then Unrecognised("") else o
  }

  function Paired(script: seq<Statement>): set<nat> {
    Positions(Pairing(script, |script|))
  }

  /** A DEFINE the first pass left, with another one it left behind it under the same key, before position `n`. */
  predicate IsSuperseded(script: seq<Statement>, i: nat, n: nat)
    requires i < |script| && n <= |script|
  {
    && script[i].Define? && i !in Paired(script)
    && exists j :: i < j < n && script[j].Define? && j !in Paired(script) && Key(script[j].obj) == Key(script[i].obj)
  }

  function Superseded(script: seq<Statement>): set<nat> {
    set i | 0 <= i < |script| && IsSuperseded(script, i, |script|)
  }

  predicate AboutField(st: Statement, t: Target) {
    t.table != "" && t.field != "" && (st.Define? || st.Remove?) && st.obj == Child(t.table, Field, t.field)
  }

  /** An UPDATE of a field that some statement removed by the first two passes is about. */
  predicate IsOrphaned(script: seq<Statement>, i: nat)
    requires i < |script|
  {
    && script[i].Update? && script[i].target.Some?
    && exists k ::
      k in Paired(script) + Superseded(script) && k < |script| && AboutField(script[k], script[i].target.value)
  }

  function Orphaned(script: seq<Statement>): set<nat> {
    set i | 0 <= i < |script| && IsOrphaned(script, i)
  }

  function Removed(script: seq<Statement>): set<nat> {
    Paired(script) + Superseded(script) + Orphaned(script)
  }

  function Optimised(script: seq<Statement>): seq<Statement> {
    Keep(script, Removed(script), |script|)
  }

  lemma PairedKinds(script: seq<Statement>, i: nat)
    requires i in Paired(script)
    ensures i < |script| && !script[i].Update? && !script[i].Other? && !script[i].obj.Unrecognised?
    ensures script[i].Define? <==> i in Pairing(script, |script|)
    ensures script[i].Remove? <==> i in Pairing(script, |script|).Values
  {
    var p := Pairing(script, |script|);
    if i in p {
      PairFacts(script, i);
    }
    if i in p.Values {
      var k :| k in p && p[k] == i;
      PairFacts(script, k);
    }
  }

  /** The reported count is the number of statements removed. */
  lemma CountIsExact(script: seq<Statement>)
    ensures |Optimised(script)| + |Removed(script)| == |script|
  {
    forall i | i in Removed(script) ensures i < |script| {
      if i in Paired(script) { PairedKinds(script, i); }
    }
    KeepCounts(script, Removed(script), |script|);
  }

  // ---------- the shape of the result ----------

  /** No DEFINE is left in front of a REMOVE of its object, and no two DEFINEs share a key. */
  ghost predicate NormalForm(script: seq<Statement>) {
    && (forall i, j :: 0 <= i < j < |script| ==> !Matches(script, i, j))
    && forall i, j ::
      0 <= i < j < |script| && script[i].Define? && script[j].Define? ==> Key(script[i].obj) != Key(script[j].obj)
  }

  lemma SurvivorsNeverMatch(script: seq<Statement>, i: nat, j: nat)
    requires i < j < |script| && i !in Removed(script) && j !in Removed(script)
    ensures !Matches(script, i, j)
    ensures script[i].Define? && script[j].Define? ==> Key(script[i].obj) != Key(script[j].obj)
  {
    if Matches(script, i, j) { NothingSkipped(script, i, j); }
  }

  lemma OptimisedIsNormal(script: seq<Statement>)
    ensures NormalForm(Optimised(script))
  {
    var out, at := Optimised(script), KeptAt(Removed(script), |script|);
    KeepIsSubsequence(script, Removed(script), |script|);
    forall a, b | 0 <= a < b < |out|
      ensures !Matches(out, a, b) && (out[a].Define? && out[b].Define? ==> Key(out[a].obj) != Key(out[b].obj))
    {
      SurvivorsNeverMatch(script, at[a], at[b]);
    }
  }

  lemma {:induction false} NoMatchNoPair(script: seq<Statement>, n: nat)
    requires n <= |script| && forall i, j :: 0 <= i < j < |script| ==> !Matches(script, i, j)
    ensures Pairing(script, n) == map[]
  {
    if n > 0 { NoMatchNoPair(script, n - 1); }
  }

  lemma NormalIsFixed(script: seq<Statement>)
    requires NormalForm(script)
    ensures Removed(script) == {} && Optimised(script) == script
  {
    NoMatchNoPair(script, |script|);
    assert Superseded(script) == {};
    assert Orphaned(script) == {};
    KeepAll(script, |script|);
    assert script[..|script|] == script;
  }

  /** Running the optimiser again changes nothing and reports nothing, whatever the script. */
  lemma OptimisingTwiceIsOptimisingOnce(script: seq<Statement>)
    ensures Optimised(Optimised(script)) == Optimised(script) && Removed(Optimised(script)) == {}
  {
    OptimisedIsNormal(script);
    NormalIsFixed(Optimised(script));
  }
}
