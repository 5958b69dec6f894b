/** Collecting events until they settle, and one call of the checker for each batch. */
module Watcher {
  import opened EventQueue

  function Find(es: seq<Event>, path: string): (i: int)
    ensures -1 <= i < |es|
    ensures i >= 0 ==> es[i].path == path && forall j :: 0 <= j < i ==> es[j].path != path
    ensures i < 0 ==> forall j :: 0 <= j < |es| ==> es[j].path != path
  {
    if es == [] then -1
    else
      var i := Find(es[..|es| - 1], path);
      if i >= 0 then i else if es[|es| - 1].path == path then |es| - 1 else -1
  }

  function FindLast(es: seq<Event>, path: string): (i: int)
    ensures -1 <= i < |es|
    ensures i >= 0 ==> es[i].path == path && forall j :: i < j < |es| ==> es[j].path != path
    ensures i < 0 ==> forall j :: 0 <= j < |es| ==> es[j].path != path
  {
    if es == [] then -1 else if es[|es| - 1].path == path then |es| - 1 else FindLast(es[..|es| - 1], path)
  }

  /** The place of an earlier event of the same path, or a new one at the end. */
  function Put(batch: seq<Event>, e: Event): seq<Event> {
    var i := Find(batch, e.path);
    if i >= 0 then batch[i := e] else batch + [e]
  }

  function Collapse(es: seq<Event>): seq<Event> {
    if es == [] then [] else Put(Collapse(es[..|es| - 1]), es[|es| - 1])
  }

  predicate DistinctPaths(es: seq<Event>) {
    forall i, j :: 0 <= i < j < |es| ==> es[i].path != es[j].path
  }

  /** One event for each path: the latest, in the order in which the paths first came. */
  ghost predicate IsCollapsed(c: seq<Event>, es: seq<Event>) {
    && DistinctPaths(c)
    && (forall k :: 0 <= k < |es| ==> Find(c, es[k].path) >= 0)
    && (forall i :: 0 <= i < |c| ==> FindLast(es, c[i].path) >= 0 && es[FindLast(es, c[i].path)] == c[i])
    && (forall i, j :: 0 <= i < j < |c| ==> Find(es, c[i].path) < Find(es, c[j].path))
  }

  lemma FindMore(es: seq<Event>, e: Event, path: string)
    ensures Find(es + [e], path) == if Find(es, path) >= 0 then Find(es, path) else if e.path == path then |es| else -1
    ensures FindLast(es + [e], path) == if e.path == path then |es| else FindLast(es, path)
  {
    assert (es + [e])[..|es|] == es;
  }

  lemma {:induction false} CollapseIsLatestInFirstOrder(es: seq<Event>)
    ensures IsCollapsed(Collapse(es), es)
  {
    if es != [] {
      var init, e := es[..|es| - 1], es[|es| - 1];
      var c, n := Collapse(init), Collapse(es);
      CollapseIsLatestInFirstOrder(init);
      assert es == init + [e];
      OneMore(c, init, e);
    }
  }

  /** A path of the batch has come before, and one that is not in it has not. */
  lemma CameBefore(c: seq<Event>, es: seq<Event>, path: string)
    requires IsCollapsed(c, es)
    ensures Find(c, path) >= 0 <==> Find(es, path) >= 0
  {
    var k := Find(es, path);
    if k >= 0 { assert Find(c, es[k].path) >= 0; }
    var i := Find(c, path);
    if i >= 0 { assert FindLast(es, c[i].path) >= 0; }
  }

  lemma PutLatest(c: seq<Event>, es: seq<Event>, e: Event, i: nat)
    requires IsCollapsed(c, es) && i < |Put(c, e)|
    ensures
      var n, more := Put(c, e), es + [e];
      FindLast(more, n[i].path) >= 0 && more[FindLast(more, n[i].path)] == n[i]
  {
    var n := Put(c, e);
    FindMore(es, e, n[i].path);
    hide Find, FindLast;
    if n[i].path != e.path { assert n[i] == c[i]; } else if i < |c| { assert i == Find(c, e.path); }
  }

  lemma PutKeepsPaths(c: seq<Event>, e: Event, i: nat)
    requires i < |Put(c, e)|
    ensures Put(c, e)[i].path == (if i < |c| then c[i].path else e.path) && i <= |c|
    ensures i == |c| ==> Find(c, e.path) < 0
  {
  }

  lemma PutOrder(c: seq<Event>, es: seq<Event>, e: Event, i: nat, j: nat)
    requires IsCollapsed(c, es) && i < j < |Put(c, e)|
    ensures Find(es + [e], Put(c, e)[i].path) < Find(es + [e], Put(c, e)[j].path)
  {
    PutKeepsPaths(c, e, i);
    PutKeepsPaths(c, e, j);
    CameBefore(c, es, e.path);
    CameBefore(c, es, c[i].path);
    Found(c, i);
    assert j < |c| ==> Find(es, c[i].path) < Find(es, c[j].path);
    hide *;
    var n := Put(c, e);
    FindMore(es, e, n[i].path);
    FindMore(es, e, n[j].path);
    FindInside(es, c[i].path);
  }

  lemma FindInside(es: seq<Event>, path: string)
    ensures Find(es, path) < |es|
  {
  }

  lemma Found(es: seq<Event>, i: nat)
    requires i < |es|
    ensures Find(es, es[i].path) >= 0
  {
  }

  lemma PutIsDistinct(c: seq<Event>, e: Event)
    requires DistinctPaths(c)
    ensures DistinctPaths(Put(c, e))
  {
    hide Find;
  }

  lemma PutHasAll(c: seq<Event>, es: seq<Event>, e: Event, k: nat)
    requires IsCollapsed(c, es) && k <= |es|
    ensures Find(Put(c, e), (es + [e])[k].path) >= 0
  {
    PutPlaces(c, e);
    hide Find, FindLast, Put, DistinctPaths;
    if k < |es| { assert Find(c, es[k].path) >= 0; }
  }

  lemma OneMore(c: seq<Event>, es: seq<Event>, e: Event)
    requires IsCollapsed(c, es)
    ensures IsCollapsed(Put(c, e), es + [e])
  {
    PutIsDistinct(c, e);
    hide DistinctPaths, Find, FindLast, Put;
    var n, more := Put(c, e), es + [e];
    forall k | 0 <= k < |more| ensures Find(n, more[k].path) >= 0 { PutHasAll(c, es, e, k); }
    forall i | 0 <= i < |n| ensures FindLast(more, n[i].path) >= 0 && more[FindLast(more, n[i].path)] == n[i] {
      PutLatest(c, es, e, i);
    }
    forall i, j | 0 <= i < j < |n| ensures Find(more, n[i].path) < Find(more, n[j].path) { PutOrder(c, es, e, i, j); }
  }

  // ---------- the dispatcher ----------

  function Flatten(segments: seq<seq<Event>>): seq<Event> {
    if segments == [] then [] else Flatten(segments[..|segments| - 1]) + segments[|segments| - 1]
  }

  /** The map holds exactly the events of the batch, by path. */
  ghost predicate Indexed(batch: seq<Event>, dedupe: map<string, Event>) {
    forall p :: (p in dedupe <==> Find(batch, p) >= 0) && (p in dedupe ==> dedupe[p] == batch[Find(batch, p)])
  }

  /** Each call was made with what its segment collapses to. */
  ghost predicate Covered(calls: seq<seq<Event>>, segments: seq<seq<Event>>) {
    |calls| == |segments| && forall i :: 0 <= i < |calls| ==> segments[i] != [] && calls[i] == Collapse(segments[i])
  }

  lemma IndexedMore(batch: seq<Event>, dedupe: map<string, Event>, e: Event)
    requires Indexed(batch, dedupe)
    ensures Indexed(Put(batch, e), dedupe[e.path := e])
  {
    PutPlaces(batch, e);
    hide Put, Find;
  }

  lemma CoveredMore(calls: seq<seq<Event>>, segments: seq<seq<Event>>, es: seq<Event>)
    requires Covered(calls, segments) && es != []
    ensures Covered(calls + [Collapse(es)], segments + [es])
  {
    hide Collapse;
  }

  class Dispatcher {
    var batch: seq<Event>
    var dedupe: map<string, Event>
    var armed: bool
    var stopped: bool
    /** What the checker was called with. */
    var calls: seq<seq<Event>>
    /** Every event received, those since the last call, and those before it by call. */
    ghost var received: seq<Event>
    ghost var pending: seq<Event>
    ghost var segments: seq<seq<Event>>

    ghost predicate Valid()
      reads this
    {
      && batch == Collapse(pending)
      && Indexed(batch, dedupe)
      && (armed ==> pending != []) && (pending != [] ==> armed)
      && (stopped ==> pending == [])
      && Flatten(segments) + pending == received
      && Covered(calls, segments)
    }

    constructor ()
      ensures Valid() && received == [] && calls == [] && !stopped
    {
      batch, dedupe, armed, stopped, calls := [], map[], false, false, [];
      received, pending, segments := [], [], [];
    }

    /** Events of a path that is in the batch overwrite the one that is there. */
    method Receive(e: Event)
      requires Valid() && !stopped
      modifies this
      ensures Valid() && !stopped && received == old(received) + [e] && pending == old(pending) + [e]
      ensures calls == old(calls) && segments == old(segments)
    {
      hide Collapse, Flatten, Covered;
      IndexedMore(batch, dedupe, e);
      CollapseMore(pending, e);
      ghost var next := Put(batch, e);
      assert e.path in dedupe <==> Find(batch, e.path) >= 0;
      hide Indexed, Find;
      if e.path !in dedupe {
        batch := batch + [e];
      } else {
        var i := 0;
        while i < |batch| && batch[i].path != e.path
          invariant i <= |batch| && batch == old(batch) && forall j :: 0 <= j < i ==> batch[j].path != e.path
        {
          i := i + 1;
        }
        FindIs(batch, e.path, i);
        if i < |batch| { batch := batch[i := e]; }
      }
      assert batch == next;
      dedupe := dedupe[e.path := e];
      armed := true;
      assert Flatten(segments) + (pending + [e]) == Flatten(segments) + pending + [e];
      received, pending := received + [e], pending + [e];
    }

    /** One call for what has come since the last one, if anything has. */
    method Flush()
      requires Valid()
      modifies this
      ensures Valid() && pending == [] && received == old(received) && stopped == old(stopped)
      ensures if old(pending) == [] then calls == old(calls) && segments == old(segments)
              else calls == old(calls) + [Collapse(old(pending))] && segments == old(segments) + [old(pending)]
    {
      hide Collapse, Indexed, Flatten, Covered, DistinctPaths;
      ghost var segment := pending;
      CollapseEmpty(segment);
      armed := false;
      if |batch| == 0 { return; }
      CollapseIsDistinct(segment);
      var ordered := Ordered(batch);
      CoveredMore(calls, segments, segment);
      FlattenMore(segments, segment);
      CollapseNothing();
      NothingIndexed();
      calls := calls + [ordered];
      batch, dedupe := [], map[];
      segments, pending := segments + [segment], [];
      assert Flatten(segments) + [] == Flatten(segments);
    }

    method Tick()
      requires Valid() && armed && !stopped
      modifies this
      ensures Valid() && !stopped && received == old(received) && calls == old(calls) + [Collapse(old(pending))]
        && segments == old(segments) + [old(pending)]
    {
      Flush();
    }

    /** On cancellation, on stop and when the queue is closed. */
    method Stop()
      requires Valid() && !stopped
      modifies this
      ensures Valid() && stopped && received == old(received) && Flatten(segments) == received
      ensures calls == if old(pending) == [] then old(calls) else old(calls) + [Collapse(old(pending))]
    {
      Flush();
      stopped := true;
      assert Flatten(segments) + [] == Flatten(segments);
    }
  }

  /** The batch without earlier events of a path; there are none. */
  method Ordered(batch: seq<Event>) returns (ordered: seq<Event>)
    requires DistinctPaths(batch)
    ensures ordered == batch
  {
    ordered := [];
    var seen: set<string> := {};
    for i := |batch| downto 0
      invariant ordered == batch[i..] && forall p :: p in seen <==> exists j :: i <= j < |batch| && batch[j].path == p
    {
      var e := batch[i];
      if e.path in seen { continue; }
      seen := seen + {e.path};
      ordered := [e] + ordered;
    }
  }

  lemma FindIs(es: seq<Event>, path: string, i: nat)
    requires i <= |es| && (i < |es| ==> es[i].path == path) && forall j :: 0 <= j < i ==> es[j].path != path
    ensures Find(es, path) == if i < |es| then i else -1
  {
  }

  lemma CollapseIsDistinct(es: seq<Event>)
    ensures DistinctPaths(Collapse(es))
  {
    CollapseIsLatestInFirstOrder(es);
  }

  lemma NothingIndexed()
    ensures Indexed([], map[])
  {
  }

  lemma CollapseMore(es: seq<Event>, e: Event)
    ensures Collapse(es + [e]) == Put(Collapse(es), e)
  {
    assert (es + [e])[..|es|] == es;
  }

  lemma CollapseNothing()
    ensures Collapse([]) == []
  {
  }

  lemma CollapseEmpty(es: seq<Event>)
    ensures Collapse(es) == [] <==> es == []
  {
  }

  lemma PutPlaces(batch: seq<Event>, e: Event)
    ensures forall p :: Find(Put(batch, e), p) >= 0 <==> Find(batch, p) >= 0 || p == e.path
    ensures Find(Put(batch, e), e.path) >= 0 && Put(batch, e)[Find(Put(batch, e), e.path)] == e
    ensures forall p ::
      p != e.path && Find(batch, p) >= 0 ==> Put(batch, e)[Find(Put(batch, e), p)] == batch[Find(batch, p)]
  {
    var n, at := Put(batch, e), Find(batch, e.path);
    assert n[if at >= 0 then at else |batch|] == e;
    forall p | Find(batch, p) >= 0 ensures Find(n, p) >= 0 && (p != e.path ==> n[Find(n, p)] == batch[Find(batch, p)]) {
      var k := Find(batch, p);
      assert n[k].path == p;
    }
  }

  lemma FlattenMore(segments: seq<seq<Event>>, es: seq<Event>)
    ensures Flatten(segments + [es]) == Flatten(segments) + es
  {
    assert (segments + [es])[..|segments|] == segments;
  }
}
