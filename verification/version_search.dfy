/** What the breadth-first searches over a version graph keep true, stated on values. */
module VersionSearch {
  import opened VersionForest

  /** A queue entry of the path search: a version and the way that led to it. */
  datatype State = State(version: string, path: seq<string>)

  ghost predicate Closed(p: Parents, v: string, visited: set<string>) {
    forall n :: Adjacent(p, v, n) ==> n in visited
  }

  predicate Waiting(queue: seq<State>, v: string) {
    exists i :: 0 <= i < |queue| && queue[i].version == v
  }

  /** `s.path` leads from `from` to `s.version` in `d` steps, without repetition, and no walk does it in fewer. */
  ghost predicate Arrived(p: Parents, from: string, visited: set<string>, s: State, d: nat) {
    && |s.path| == d + 1 && Walk(p, s.path) && s.path[0] == from && s.path[d] == s.version
    && (forall i, j :: 0 <= i < j < |s.path| ==> s.path[i] != s.path[j])
    && (forall i :: 0 <= i < |s.path| ==> s.path[i] in visited)
    && (d > 0 ==> s.version !in Ball(p, from, d - 1))
  }

  /** The first `k` entries are `d` steps away, the others `d + 1`. */
  ghost predicate Levelled(p: Parents, from: string, visited: set<string>, queue: seq<State>, k: nat, d: nat) {
    && k <= |queue|
    && (forall i :: 0 <= i < k ==> Arrived(p, from, visited, queue[i], d))
    && (forall i :: k <= i < |queue| ==> Arrived(p, from, visited, queue[i], d + 1))
  }

  /** Every visited version, except possibly `open`, waits in the queue or has only visited neighbours. */
  ghost predicate Covered(p: Parents, queue: seq<State>, visited: set<string>, open: string) {
    forall v :: v in visited ==> v == open || Waiting(queue, v) || Closed(p, v, visited)
  }

  ghost predicate Searching(p: Parents, from: string, to: string, queue: seq<State>, visited: set<string>, k: nat,
                            d: nat, open: string) {
    && Forest(p) && from in visited && visited <= p.Keys && to !in visited && Ball(p, from, d) <= visited
    && Levelled(p, from, visited, queue, k, d)
    && Covered(p, queue, visited, open)
  }

  lemma StartSearch(p: Parents, from: string, to: string)
    requires Forest(p) && from in p && from != to
    ensures Searching(p, from, to, [State(from, [from])], {from}, 1, 0, NO_PARENT)
  {
    assert Waiting([State(from, [from])], from) by { assert [State(from, [from])][0].version == from; }
  }

  lemma WaitingIsFarther(p: Parents, from: string, visited: set<string>, queue: seq<State>, d: nat, v: string)
    requires Levelled(p, from, visited, queue, 0, d)
    ensures Waiting(queue, v) ==> v !in Ball(p, from, d)
  {
    if Waiting(queue, v) {
      var i :| 0 <= i < |queue| && queue[i].version == v;
      assert Arrived(p, from, visited, queue[i], d + 1);
    }
  }

  /** With nothing left at distance `d`, everything at distance `d + 1` has been visited. */
  lemma LevelDone(p: Parents, from: string, to: string, queue: seq<State>, visited: set<string>, d: nat)
    requires Searching(p, from, to, queue, visited, 0, d, NO_PARENT)
    ensures Searching(p, from, to, queue, visited, |queue|, d + 1, NO_PARENT)
  {
    ParentsExist(p);
    forall n | n in Ball(p, from, d + 1) ensures n in visited {
      if n !in Ball(p, from, d) {
        var u :| u in Ball(p, from, d) && Adjacent(p, u, n);
        WaitingIsFarther(p, from, visited, queue, d, u);
      }
    }
  }

  lemma Dequeue(p: Parents, from: string, to: string, queue: seq<State>, visited: set<string>, k: nat, d: nat)
    requires Searching(p, from, to, queue, visited, k, d, NO_PARENT) && 0 < k
    ensures Searching(p, from, to, queue[1..], visited, k - 1, d, queue[0].version)
    ensures Arrived(p, from, visited, queue[0], d)
  {
    hide Arrived, Closed, Ball;
    ParentsExist(p);
    forall v | v in visited ensures v == queue[0].version || Waiting(queue[1..], v) || Closed(p, v, visited) {
      if Waiting(queue, v) && v != queue[0].version {
        var i :| 0 <= i < |queue| && queue[i].version == v;
        assert queue[1..][i - 1].version == v;
      }
    }
  }

  lemma ArrivedStays(p: Parents, from: string, visited: set<string>, s: State, d: nat, n: string)
    requires Arrived(p, from, visited, s, d)
    ensures Arrived(p, from, visited + {n}, s, d)
  {
  }

  /** Stepping from a dequeued entry to an unvisited neighbour is a shortest way there. */
  lemma StepOut(p: Parents, from: string, visited: set<string>, cur: State, d: nat, n: string)
    requires Arrived(p, from, visited, cur, d) && Ball(p, from, d) <= visited
    requires Adjacent(p, cur.version, n) && n !in visited
    ensures Arrived(p, from, visited + {n}, State(n, cur.path + [n]), d + 1)
  {
  }

  lemma Enqueue(p: Parents, from: string, to: string, queue: seq<State>, visited: set<string>, k: nat, d: nat,
                cur: State, n: string)
    requires Searching(p, from, to, queue, visited, k, d, cur.version) && Arrived(p, from, visited, cur, d)
    requires Adjacent(p, cur.version, n) && n !in visited && n != to
    ensures Searching(p, from, to, queue + [State(n, cur.path + [n])], visited + {n}, k, d, cur.version)
    ensures Arrived(p, from, visited + {n}, cur, d)
  {
    var queue', visited' := queue + [State(n, cur.path + [n])], visited + {n};
    StepOut(p, from, visited, cur, d, n);
    ArrivedStays(p, from, visited, cur, d, n);
    hide Arrived, Ball;
    forall i | 0 <= i < |queue| ensures Arrived(p, from, visited', queue'[i], if i < k then d else d + 1) {
      ArrivedStays(p, from, visited, queue[i], if i < k then d else d + 1, n);
    }
    forall v | v in visited' ensures v == cur.version || Waiting(queue', v) || Closed(p, v, visited') {
      if v == n {
        assert queue'[|queue|].version == n;
      } else if Waiting(queue, v) {
        var i :| 0 <= i < |queue| && queue[i].version == v;
        assert queue'[i].version == v;
      }
    }
  }

  lemma Expanded(p: Parents, from: string, to: string, queue: seq<State>, visited: set<string>, k: nat, d: nat,
                 open: string)
    requires Searching(p, from, to, queue, visited, k, d, open) && Closed(p, open, visited)
    ensures Searching(p, from, to, queue, visited, k, d, NO_PARENT)
  {
    hide Levelled, Ball;
  }

  lemma FoundIsShortest(p: Parents, from: string, to: string, visited: set<string>, cur: State, d: nat)
    requires Arrived(p, from, visited, cur, d) && Ball(p, from, d) <= visited
    requires Adjacent(p, cur.version, to) && to !in visited
    ensures ShortestPath(p, cur.path + [to], from, to)
  {
    StepOut(p, from, visited, cur, d, to);
    OutsideBallIsShortest(p, cur.path + [to], from, to);
  }

  lemma ExhaustedMeansOtherTree(p: Parents, from: string, to: string, visited: set<string>, k: nat, d: nat)
    requires Searching(p, from, to, [], visited, k, d, NO_PARENT) && to in p
    ensures !SameTree(p, from, to)
  {
    ParentsExist(p);
    if SameTree(p, from, to) {
      forall u, n | u in visited && Adjacent(p, u, n) ensures n in visited {
        assert !Waiting([], u);
      }
      ClosedUnderNeighbours(p, visited, from, to);
    }
  }

  // ---------- the search for descendants ----------

  /**
   `out` and then `queue` list distinct descendants of `v`, shallow before deep; those in the queue are at depth `b` or
   `b + 1`.
   */
  ghost predicate Descending(p: Parents, v: string, out: seq<string>, queue: seq<string>, visited: set<string>,
                             b: nat) {
    var all := out + queue;
    && Forest(p) && v in p
    && (forall w :: w in visited <==> w in all)
    && (forall i :: 0 <= i < |all| ==> all[i] in p && v in Ancestors(p, all[i]))
    && (forall i, j :: 0 <= i < j < |all| ==> all[i] != all[j])
    && (forall i, j :: 0 <= i < j < |all| ==> Depth(p, all[i]) <= Depth(p, all[j]))
    && (forall i :: |out| <= i < |all| ==> b <= Depth(p, all[i]) <= b + 1)
  }

  lemma ChildOf(p: Parents, v: string, c: string)
    requires Forest(p) && v in p && c in p && p[c] == v
    ensures v in Ancestors(p, c) && Depth(p, c) == Depth(p, v) + 1
  {
    ParentsExist(p);
    assert Ancestors(p, c) == Ancestors(p, v) + [v];
    hide Ranked, Forest;
  }

  lemma StartDescent(p: Parents, v: string, children: seq<string>, visited: set<string>)
    requires Forest(p) && v in p
    requires forall c :: c in children <==> c in p && p[c] == v
    requires forall i, j :: 0 <= i < j < |children| ==> children[i] != children[j]
    requires forall c :: c in visited <==> c in children
    ensures Descending(p, v, [], children, visited, Depth(p, v) + 1) && ChildrenIn(p, v, visited)
  {
    hide Ranked, Forest, Ancestors, Depth;
    forall i | 0 <= i < |children|
      ensures children[i] in p && v in Ancestors(p, children[i]) && Depth(p, children[i]) == Depth(p, v) + 1
    {
      assert children[i] in children;
      ChildOf(p, v, children[i]);
    }
    assert [] + children == children;
  }

  lemma Emit(p: Parents, v: string, out: seq<string>, queue: seq<string>, visited: set<string>, b: nat)
    requires Descending(p, v, out, queue, visited, b) && queue != []
    ensures queue[0] in p && Descending(p, v, out + [queue[0]], queue[1..], visited, Depth(p, queue[0]))
  {
    var all := out + queue;
    assert out + [queue[0]] + queue[1..] == all;
    assert all[|out|] == queue[0];
  }

  lemma Descend(p: Parents, v: string, out: seq<string>, queue: seq<string>, visited: set<string>, cur: string,
                c: string)
    requires Forest(p) && cur in p && Descending(p, v, out, queue, visited, Depth(p, cur)) && out != []
      && out[|out| - 1] == cur
    requires c in p && p[c] == cur && c !in visited
    ensures Descending(p, v, out, queue + [c], visited + {c}, Depth(p, cur))
  {
    var all := out + queue;
    assert out + (queue + [c]) == all + [c];
    assert all[|out| - 1] == cur && Ancestors(p, c) == Ancestors(p, cur) + [cur];
  }

  ghost predicate ChildrenIn(p: Parents, v: string, s: set<string>) {
    forall c :: c in p && p[c] == v ==> c in s
  }

  /** Every descendant of `v` exactly once, shallow before deep. */
  ghost predicate ListsDescendants(p: Parents, v: string, out: seq<string>)
    requires Forest(p) && v in p
  {
    && (forall w :: w in out <==> w in p && v in Ancestors(p, w))
    && (forall i, j :: 0 <= i < j < |out| ==> out[i] != out[j])
    && (forall i, j :: 0 <= i < j < |out| ==> Depth(p, out[i]) <= Depth(p, out[j]))
  }

  lemma AllDescendantsListed(p: Parents, v: string, out: seq<string>, visited: set<string>, b: nat)
    requires Descending(p, v, out, [], visited, b)
    requires ChildrenIn(p, v, visited) && forall u :: u in out ==> ChildrenIn(p, u, visited)
    ensures ListsDescendants(p, v, out)
  {
    assert out + [] == out;
    forall w | w in p && v in Ancestors(p, w) ensures w in out {
      forall c | c in p && (p[c] == v || p[c] in visited) ensures c in visited {
        assert p[c] == v || ChildrenIn(p, p[c], visited);
      }
      ClosedUnderChildren(p, v, visited, w);
    }
  }

  // ---------- small steps of the loops ----------

  lemma VisitedAreMembers(p: Parents, v: string, out: seq<string>, queue: seq<string>, visited: set<string>, b: nat)
    requires Descending(p, v, out, queue, visited, b)
    ensures visited <= p.Keys
  {
  }

  lemma SearchedAreMembers(p: Parents, from: string, to: string, queue: seq<State>, visited: set<string>, k: nat,
                           d: nat)
    requires Searching(p, from, to, queue, visited, k, d, NO_PARENT)
    ensures visited <= p.Keys
  {
  }

  lemma KeepsGrowing(p: Parents, v: string, before: set<string>, visited: set<string>, out: seq<string>)
    requires before <= visited && out != []
    requires forall i :: 0 <= i < |out| - 1 ==> ChildrenIn(p, out[i], before)
    requires ChildrenIn(p, out[|out| - 1], visited)
    ensures forall u :: u in out ==> ChildrenIn(p, u, visited)
    ensures ChildrenIn(p, v, before) ==> ChildrenIn(p, v, visited)
  {
  }

  lemma MembersOnly(p: Parents, from: string, to: string)
    requires Forest(p) && (from !in p || to !in p)
    ensures !SameTree(p, from, to)
  {
  }

  lemma StayingIsShortest(p: Parents, v: string)
    requires Forest(p) && v in p
    ensures SameTree(p, v, v) && ShortestPath(p, [v], v, v)
  {
  }

  lemma FoundInTree(p: Parents, from: string, to: string, queue: seq<State>, visited: set<string>, k: nat, d: nat,
                    cur: State)
    requires Searching(p, from, to, queue, visited, k, d, cur.version) && Arrived(p, from, visited, cur, d)
    requires Adjacent(p, cur.version, to) && to !in visited
    ensures ShortestPath(p, cur.path + [to], from, to) && SameTree(p, from, to)
  {
    FoundIsShortest(p, from, to, visited, cur, d);
    WalkStaysInTree(p, cur.path + [to]);
  }

  lemma AllNeighboursIn(p: Parents, v: string, neighbours: seq<string>, visited: set<string>)
    requires forall n :: n in neighbours <==> Adjacent(p, v, n)
    requires forall j :: 0 <= j < |neighbours| ==> neighbours[j] in visited
    ensures Closed(p, v, visited)
  {
  }
}
