/**
 The shape of a version graph as a value: every version's parent, where the empty
 version says "no parent". Child lists carry no information of their own.
 */
module VersionForest {

  type Parents = map<string, string>

  const NO_PARENT := ""

  ghost predicate Ranked(p: Parents, rank: map<string, nat>) {
    && NO_PARENT !in p
    && rank.Keys == p.Keys
    && forall v :: v in p && p[v] != NO_PARENT ==> p[v] in p && rank[p[v]] < rank[v]
  }

  /** Parents exist and no version is its own ancestor. */
  ghost predicate Forest(p: Parents) {
    exists rank: map<string, nat> :: Ranked(p, rank)
  }

  ghost function Rank(p: Parents): (rank: map<string, nat>)
    requires Forest(p)
    ensures Ranked(p, rank)
  {
    var rank: map<string, nat> :| Ranked(p, rank);
    rank
  }

  // ---------- growing and contracting a forest ----------

  /** Deletes `x`; its children move up to its parent. */
  function Contract(p: Parents, x: string): Parents
    requires x in p
  {
    map v | v in p && v != x :: if p[v] == x then p[x] else p[v]
  }

  lemma ExtendKeepsForest(p: Parents, v: string, parent: string)
    requires Forest(p) && v != NO_PARENT && v !in p
    requires parent == NO_PARENT || parent in p
    ensures Forest(p[v := parent])
  {
    var rank := Rank(p);
    assert Ranked(p[v := parent], rank[v := if parent == NO_PARENT then 0 else rank[parent] + 1]);
  }

  lemma ContractKeepsForest(p: Parents, x: string)
    requires Forest(p) && x in p
    ensures Forest(Contract(p, x))
  {
    var rank := Rank(p);
    assert Ranked(Contract(p, x), rank - {x});
  }

  lemma ParentsExist(p: Parents)
    requires Forest(p)
    ensures NO_PARENT !in p
    ensures forall v :: v in p && p[v] != NO_PARENT ==> p[v] in p
  {
    var rank := Rank(p);
  }

  /** Removing what was just added undoes the addition. */
  lemma ContractUndoesExtend(p: Parents, v: string, parent: string)
    requires Forest(p) && v != NO_PARENT && v !in p
    ensures Contract(p[v := parent], v) == p
  {
    assert forall w :: w in p && p[w] != NO_PARENT ==> p[w] in p by { var rank := Rank(p); }
  }

  /** The order of two removals does not matter. */
  lemma ContractCommutes(p: Parents, x: string, y: string)
    requires Forest(p) && x in p && y in p && x != y
    ensures Contract(Contract(p, x), y) == Contract(Contract(p, y), x)
  {
    var rank := Rank(p);
    assert !(p[x] == y && p[y] == x);
  }

  // ---------- ancestors ----------

  /** Root first, immediate parent last. */
  ghost function Ancestors(p: Parents, v: string): (r: seq<string>)
    requires Forest(p) && v in p
    decreases Rank(p)[v]
  {
    if p[v] == NO_PARENT then [] else Ancestors(p, p[v]) + [p[v]]
  }

  ghost function Depth(p: Parents, v: string): nat
    requires Forest(p) && v in p
  {
    |Ancestors(p, v)|
  }

  function Without(s: seq<string>, x: string): seq<string> {
    if s == [] then []
    else Without(s[..|s| - 1], x) + (if s[|s| - 1] == x then [] else [s[|s| - 1]])
  }

  lemma WithoutAppend(s: seq<string>, y: string, x: string)
    ensures Without(s + [y], x) == Without(s, x) + (if y == x then [] else [y])
  {
    assert (s + [y])[..|s|] == s;
  }

  lemma {:induction false} WithoutAbsent(s: seq<string>, x: string)
    requires x !in s
    ensures Without(s, x) == s
  {
    if s != [] {
      WithoutAbsent(s[..|s| - 1], x);
      assert s == s[..|s| - 1] + [s[|s| - 1]];
    }
  }

  /** Removal deletes exactly the removed version from everybody else's ancestry. */
  lemma {:induction false} AncestorsAfterContract(p: Parents, x: string, v: string)
    requires Forest(p) && x in p && v in p && v != x
    ensures Forest(Contract(p, x))
    ensures Ancestors(Contract(p, x), v) == Without(Ancestors(p, v), x)
    decreases Rank(p)[v]
  {
    ContractKeepsForest(p, x);
    if p[v] == x {
      WithoutAppend(Ancestors(p, x), x, x);
      if p[x] != NO_PARENT {
        AncestorsAfterContract(p, x, p[x]);
        WithoutAppend(Ancestors(p, p[x]), p[x], x);
      }
    } else if p[v] != NO_PARENT {
      AncestorsAfterContract(p, x, p[v]);
      WithoutAppend(Ancestors(p, p[v]), p[v], x);
    }
  }

  /** A new version changes nobody else's ancestry. */
  lemma {:induction false} AncestorsAfterExtend(p: Parents, v: string, parent: string, w: string)
    requires Forest(p) && v != NO_PARENT && v !in p && w in p
    requires parent == NO_PARENT || parent in p
    ensures Forest(p[v := parent])
    ensures Ancestors(p[v := parent], w) == Ancestors(p, w)
    decreases Rank(p)[w]
  {
    ExtendKeepsForest(p, v, parent);
    if p[w] != NO_PARENT { AncestorsAfterExtend(p, v, parent, p[w]); }
  }

  /** A new version's ancestors are its parent's, and then its parent. */
  lemma AncestorsOfNew(p: Parents, v: string, parent: string)
    requires Forest(p) && v != NO_PARENT && v !in p
    requires parent == NO_PARENT || parent in p
    ensures Forest(p[v := parent])
    ensures Ancestors(p[v := parent], v) == if parent == NO_PARENT then [] else Ancestors(p, parent) + [parent]
  {
    ExtendKeepsForest(p, v, parent);
    if parent != NO_PARENT { AncestorsAfterExtend(p, v, parent, parent); }
  }

  /**
   The list really climbs: it starts at the top of the tree, each entry is the parent of the next, the last that of
   `v`.
   */
  lemma {:induction false} AncestorsClimb(p: Parents, v: string)
    requires Forest(p) && v in p
    ensures Top(p, v) == if p[v] == NO_PARENT then v else Ancestors(p, v)[0]
    ensures forall i :: 0 <= i < Depth(p, v) ==> Ancestors(p, v)[i] in p
    ensures forall i ::
      0 <= i < Depth(p, v) ==> Ancestors(p, v)[i] == p[if i + 1 < Depth(p, v) then Ancestors(p, v)[i + 1] else v]
    decreases Rank(p)[v]
  {
    if p[v] != NO_PARENT { AncestorsClimb(p, p[v]); }
  }

  lemma {:induction false} AncestorsAreDistinct(p: Parents, v: string)
    requires Forest(p) && v in p
    ensures forall a :: a in Ancestors(p, v) ==> a in p && Rank(p)[a] < Rank(p)[v]
    ensures v !in Ancestors(p, v)
    ensures forall i, j :: 0 <= i < j < Depth(p, v) ==> Ancestors(p, v)[i] != Ancestors(p, v)[j]
    decreases Rank(p)[v]
  {
    if p[v] != NO_PARENT { AncestorsAreDistinct(p, p[v]); }
  }

  /** Whatever contains a version's children, and is closed under taking children, contains all its descendants. */
  lemma {:induction false} ClosedUnderChildren(p: Parents, v: string, s: set<string>, w: string)
    requires Forest(p) && v in p && w in p && v in Ancestors(p, w)
    requires forall c :: c in p && (p[c] == v || p[c] in s) ==> c in s
    ensures w in s
    decreases Rank(p)[w]
  {
    if p[w] != v { ClosedUnderChildren(p, v, s, p[w]); }
  }

  // ---------- trees and walks ----------

  ghost function Top(p: Parents, v: string): (r: string)
    requires Forest(p) && v in p
    ensures r in p && p[r] == NO_PARENT
    decreases Rank(p)[v]
  {
    if p[v] == NO_PARENT then v else Top(p, p[v])
  }

  lemma NonEmptyHasParentless(p: Parents)
    requires Forest(p) && p != map[]
    ensures exists v :: v in p && p[v] == NO_PARENT
  {
    assert p.Keys != {};
    var v :| v in p;
    var r := Top(p, v);
  }

  ghost predicate SameTree(p: Parents, u: string, v: string)
    requires Forest(p)
  {
    u in p && v in p && Top(p, u) == Top(p, v)
  }

  predicate Adjacent(p: Parents, u: string, v: string) {
    u in p && v in p && (p[u] == v || p[v] == u)
  }

  ghost predicate Walk(p: Parents, w: seq<string>) {
    && w != []
    && (forall i :: 0 <= i < |w| ==> w[i] in p)
    && (forall i :: 0 <= i < |w| - 1 ==> Adjacent(p, w[i], w[i + 1]))
  }

  lemma {:induction false} WalkStaysInTree(p: Parents, w: seq<string>)
    requires Forest(p) && Walk(p, w)
    ensures SameTree(p, w[0], w[|w| - 1])
    decreases |w|
  {
    if |w| > 1 {
      var v := w[..|w| - 1];
      WalkStaysInTree(p, v);
      assert Adjacent(p, w[|w| - 2], w[|w| - 2 + 1]);
    }
  }

  /** The versions at most `k` steps from `from`. */
  ghost function Ball(p: Parents, from: string, k: nat): set<string> {
    if k == 0 then {from}
    else Ball(p, from, k - 1) + set v | v in p && exists u :: u in Ball(p, from, k - 1) && Adjacent(p, u, v)
  }

  lemma {:induction false} WalkEndsInBall(p: Parents, w: seq<string>)
    requires Walk(p, w)
    ensures w[|w| - 1] in Ball(p, w[0], |w| - 1)
    decreases |w|
  {
    if |w| > 1 {
      var v := w[..|w| - 1];
      WalkEndsInBall(p, v);
      assert Adjacent(p, w[|w| - 2], w[|w| - 2 + 1]);
    }
  }

  lemma {:induction false} BallsGrow(p: Parents, from: string, j: nat, k: nat)
    requires j <= k
    ensures Ball(p, from, j) <= Ball(p, from, k)
    decreases k
  {
    if j < k { BallsGrow(p, from, j, k - 1); }
  }

  /** `w` leads from `from` to `to`, visits nothing twice, and no walk between them is shorter. */
  ghost predicate ShortestPath(p: Parents, w: seq<string>, from: string, to: string) {
    && Walk(p, w) && w[0] == from && w[|w| - 1] == to
    && (forall i, j :: 0 <= i < j < |w| ==> w[i] != w[j])
    && forall o :: Walk(p, o) && o[0] == from && o[|o| - 1] == to ==> |w| <= |o|
  }

  lemma OutsideBallIsShortest(p: Parents, w: seq<string>, from: string, to: string)
    requires Walk(p, w) && w[0] == from && w[|w| - 1] == to
    requires forall i, j :: 0 <= i < j < |w| ==> w[i] != w[j]
    requires |w| >= 2 ==> to !in Ball(p, from, |w| - 2)
    ensures ShortestPath(p, w, from, to)
  {
    forall o | Walk(p, o) && o[0] == from && o[|o| - 1] == to ensures |w| <= |o| {
      if |o| < |w| {
        WalkEndsInBall(p, o);
        BallsGrow(p, from, |o| - 1, |w| - 2);
      }
    }
  }

  /** What holds a version and all neighbours of its members holds the version's whole tree. */
  lemma {:induction false} ClosedUnderNeighbours(p: Parents, s: set<string>, v: string, w: string)
    requires Forest(p) && v in s && v in p && w in p
    requires forall u, n :: u in s && Adjacent(p, u, n) ==> n in s
    requires Top(p, v) == Top(p, w)
    ensures w in s
    decreases Rank(p)[v] + Rank(p)[w]
  {
    if p[v] != NO_PARENT {
      assert Adjacent(p, v, p[v]);
      ClosedUnderNeighbours(p, s, p[v], w);
    } else if p[w] != NO_PARENT {
      ClosedUnderNeighbours(p, s, v, p[w]);
      assert Adjacent(p, p[w], w);
    }
  }
}
