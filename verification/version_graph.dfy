/** The mutable graph of schema snapshots: nodes on the heap, each with its parent and its sorted child list. */
module VersionGraphs {
  import opened Order
  import opened VersionForest
  import opened VersionSearch

  /** `content` stands for the tables, edges, accesses and buckets of the snapshot. */
  datatype SchemaSnapshot = SchemaSnapshot(version: string, content: string)

  datatype Error = EmptyVersion | AlreadyExists | ParentNotFound | NotFound

  datatype Outcome = Done | Rejected(error: Error)

  /** The changing part of a node, and a graph as a value. */
  datatype Entry = Entry(parent: string, children: seq<string>)

  type Graph = map<string, Entry>

  function Shape(g: Graph): Parents {
    map v | v in g :: g[v].parent
  }

  /** `list` is sorted and holds exactly the versions whose parent is `v`. */
  ghost predicate ListsChildren(g: Graph, v: string, list: seq<string>) {
    Sorted(list) && forall c :: c in list <==> c in g && g[c].parent == v
  }

  ghost predicate ChildrenAgree(g: Graph) {
    forall v :: v in g ==> ListsChildren(g, v, g[v].children)
  }

  /** A non-empty graph has a parentless member as its root. */
  predicate RootOf(g: Graph, root: string) {
    if g == map[] then root == NO_PARENT else root in g && g[root].parent == NO_PARENT
  }

  ghost predicate WellFormed(g: Graph) {
    Forest(Shape(g)) && ChildrenAgree(g)
  }

  /** `after` is `before` with `child` inserted in order into `parent`'s list. */
  ghost predicate Inserted(before: Graph, parent: string, child: string, after: Graph)
    requires parent in before
  {
    && parent in after && after == before[parent := before[parent].(children := after[parent].children)]
    && Sorted(after[parent].children)
    && forall c :: c in after[parent].children <==> c in before[parent].children || c == child
  }

  /** `after` is `g` with a new entry that its parent, if it has one, lists. */
  ghost predicate Attached(g: Graph, version: string, parent: string, after: Graph) {
    var mid := g[version := Entry(parent, [])];
    if parent == NO_PARENT then after == mid
    else parent in g && Inserted(mid, parent, version, after)
  }

  lemma AttachedShape(g: Graph, version: string, parent: string, after: Graph)
    requires version !in g && Attached(g, version, parent, after)
    ensures Shape(after) == Shape(g)[version := parent]
  {
  }

  lemma AttachedLists(g: Graph, version: string, parent: string, after: Graph, w: string)
    requires WellFormed(g) && version !in g && version != NO_PARENT && Attached(g, version, parent, after)
    requires w in after
    ensures ListsChildren(after, w, after[w].children)
  {
    if w in g { OldListGrows(g, version, parent, after, w); } else { NewListIsEmpty(g, version, parent, after, w); }
    hide WellFormed, Attached, ListsChildren;
  }

  lemma OldListGrows(g: Graph, version: string, parent: string, after: Graph, w: string)
    requires WellFormed(g) && version !in g && version != NO_PARENT && Attached(g, version, parent, after)
    requires w in after && w in g
    ensures ListsChildren(after, w, after[w].children)
  {
    assert ListsChildren(g, w, g[w].children);
    hide Forest;
    if w == parent {
      assert forall c :: c in after[w].children <==> c in g[w].children || c == version;
    } else {
      assert after[w] == g[w];
    }
  }

  lemma NewListIsEmpty(g: Graph, version: string, parent: string, after: Graph, w: string)
    requires WellFormed(g) && version !in g && version != NO_PARENT && Attached(g, version, parent, after)
    requires w in after && w !in g
    ensures ListsChildren(after, w, after[w].children)
  {
    assert w == version && w != parent && after[w].children == [];
    ParentsExist(Shape(g));
    hide Forest;
    forall c | c in after ensures after[c].parent != w {
      if c in g { assert Shape(g)[c] == g[c].parent; }
    }
  }

  lemma AttachKeepsWellFormed(g: Graph, version: string, parent: string, after: Graph)
    requires WellFormed(g) && version != NO_PARENT && version !in g
    requires Attached(g, version, parent, after)
    ensures WellFormed(after) && Shape(after) == Shape(g)[version := parent]
  {
    ExtendKeepsForest(Shape(g), version, parent);
    AttachedShape(g, version, parent, after);
    forall w | w in after ensures ListsChildren(after, w, after[w].children) {
      AttachedLists(g, version, parent, after, w);
    }
  }

  // ---------- facts the searches use ----------

  lemma WellFormedParts(g: Graph)
    requires WellFormed(g)
    ensures Forest(Shape(g)) && Shape(g).Keys == g.Keys
  {
  }

  lemma ChildListFacts(g: Graph, v: string)
    requires WellFormed(g) && v in g
    ensures forall c :: c in g[v].children <==> c in Shape(g) && Shape(g)[c] == v
    ensures forall i, j :: 0 <= i < j < |g[v].children| ==> g[v].children[i] != g[v].children[j]
  {
    assert ListsChildren(g, v, g[v].children);
    forall i, j | 0 <= i < j < |g[v].children| ensures g[v].children[i] != g[v].children[j] {
      LessIsTotal(g[v].children[i], g[v].children[j]);
    }
  }

  lemma NeighbourList(g: Graph, v: string, neighbours: seq<string>)
    requires WellFormed(g) && v in g
    requires neighbours == g[v].children + (if g[v].parent == NO_PARENT then [] else [g[v].parent])
    ensures forall n :: n in neighbours <==> Adjacent(Shape(g), v, n)
  {
    ChildListFacts(g, v);
    ParentsExist(Shape(g));
    assert Shape(g)[v] == g[v].parent;
  }

  /** A well-formed graph is determined by its parents. */
  lemma ShapeDeterminesGraph(g: Graph, h: Graph)
    requires WellFormed(g) && WellFormed(h) && Shape(g) == Shape(h)
    ensures g == h
  {
    forall v | v in g ensures v in h && g[v] == h[v] {
      assert v in Shape(h) && Shape(g)[v] == Shape(h)[v];
      ChildListFacts(g, v);
      ChildListFacts(h, v);
      assert ListsChildren(g, v, g[v].children) && ListsChildren(h, v, h[v].children);
      SortedIsUnique(g[v].children, h[v].children);
    }
    assert forall v :: v in h ==> v in Shape(g);
  }

  // ---------- removal ----------

  /** What entry `v` of `g` becomes once `x` has left its parent's list and its first `k` children moved up. */
  ghost predicate Moved(g: Graph, x: string, k: nat, v: string, e: Entry)
    requires x in g && v in g && k <= |g[x].children|
  {
    && e.parent == (if v in g[x].children[..k] then g[x].parent else g[v].parent)
    && if v == g[x].parent then MovedList(g[v].children, x, g[x].children[..k], e.children)
      else e.children == g[v].children
  }

  ghost predicate MovedList(list: seq<string>, x: string, moved: seq<string>, after: seq<string>) {
    Sorted(after) && forall c :: c in after <==> (c in list && c != x) || c in moved
  }

  ghost predicate AllMoved(g: Graph, x: string, k: nat, after: Graph)
    requires x in g && k <= |g[x].children|
  {
    (forall v :: v in g <==> v in after) && forall v :: v in g ==> Moved(g, x, k, v, after[v])
  }

  ghost predicate Shrunk(before: Graph, parent: string, child: string, after: Graph)
    requires parent in before
  {
    && parent in after && after == before[parent := before[parent].(children := after[parent].children)]
    && Sorted(after[parent].children)
    && forall c :: c in after[parent].children <==> c in before[parent].children && c != child
  }

  lemma WellFormedFacts(g: Graph, x: string)
    requires WellFormed(g) && x in g
    ensures NO_PARENT !in g && (g[x].parent == NO_PARENT || g[x].parent in g)
    ensures ListsChildren(g, x, g[x].children)
  {
    ParentsExist(Shape(g));
    assert Shape(g)[x] == g[x].parent;
  }

  lemma SomeParentless(g: Graph)
    requires WellFormed(g)
    ensures g == map[] || exists v :: v in g && g[v].parent == NO_PARENT
  {
    if g != map[] {
      NonEmptyHasParentless(Shape(g));
      var v :| v in Shape(g) && Shape(g)[v] == NO_PARENT;
      assert v in g && g[v].parent == NO_PARENT;
    }
  }

  lemma OtherRootStays(g: Graph, x: string, after: Graph, root: string)
    requires x in g && NO_PARENT !in g && RootOf(g, root) && root != x
    requires Shape(after) == Contract(Shape(g), x)
    ensures RootOf(after, root)
  {
    assert root in Contract(Shape(g), x) && Shape(after)[root] == NO_PARENT;
  }

  lemma DetachMovesNone(g: Graph, x: string, after: Graph)
    requires WellFormed(g) && x in g
    requires
      var parent := g[x].parent;
      if parent == NO_PARENT then after == g else parent in g && Shrunk(g, parent, x, after)
    ensures AllMoved(g, x, 0, after)
  {
    WellFormedFacts(g, x);
  }

  lemma MovedSelf(g: Graph, x: string, k: nat, after: Graph)
    requires WellFormed(g) && x in g && k <= |g[x].children| && AllMoved(g, x, k, after)
    ensures after[x] == g[x]
  {
    assert Moved(g, x, k, x, after[x]);
    NotOwnParent(g, x);
    WellFormedFacts(g, x);
  }

  lemma NotOwnParent(g: Graph, x: string)
    requires WellFormed(g) && x in g
    ensures g[x].parent != x
  {
    var rank := Rank(Shape(g));
    assert Shape(g)[x] == g[x].parent;
  }

  lemma MovedParentList(g: Graph, x: string, k: nat, after: Graph)
    requires x in g && k <= |g[x].children| && AllMoved(g, x, k, after)
    ensures g[x].parent in g ==> g[x].parent in after && Sorted(after[g[x].parent].children)
  {
    assert g[x].parent in g ==> Moved(g, x, k, g[x].parent, after[g[x].parent]);
  }

  /** `after` is `before` once the `k`-th child of `x` has moved up. */
  ghost predicate StepUp(g: Graph, x: string, k: nat, before: Graph, after: Graph)
    requires x in g && k < |g[x].children|
  {
    var parent, child := g[x].parent, g[x].children[k];
    child in before &&
    var mid := before[child := before[child].(parent := parent)];
    if parent == NO_PARENT then after == mid else parent in mid && Inserted(mid, parent, child, after)
  }

  lemma StepMovesEntry(g: Graph, x: string, k: nat, before: Graph, after: Graph, v: string)
    requires NO_PARENT !in g && x in g && k < |g[x].children| && StepUp(g, x, k, before, after)
    requires v in g && v in before && Moved(g, x, k, v, before[v])
    ensures v in after && Moved(g, x, k + 1, v, after[v])
  {
    assert g[x].children[..k + 1] == g[x].children[..k] + [g[x].children[k]];
  }

  lemma StepMovesOneMore(g: Graph, x: string, k: nat, before: Graph, after: Graph)
    requires NO_PARENT !in g && x in g && k < |g[x].children| && AllMoved(g, x, k, before)
    requires StepUp(g, x, k, before, after)
    ensures AllMoved(g, x, k + 1, after)
  {
    hide Moved;
    forall v | v in g ensures Moved(g, x, k + 1, v, after[v]) {
      StepMovesEntry(g, x, k, before, after, v);
    }
  }

  lemma MovedParent(g: Graph, x: string, mid: Graph, v: string)
    requires x in g && ListsChildren(g, x, g[x].children)
    requires v in g && v != x && v in mid && Moved(g, x, |g[x].children|, v, mid[v])
    ensures mid[v].parent == Contract(Shape(g), x)[v]
  {
    assert g[x].children[..|g[x].children|] == g[x].children;
  }

  lemma MovedIsRemoved(g: Graph, x: string, mid: Graph)
    requires WellFormed(g) && x in g && AllMoved(g, x, |g[x].children|, mid)
    ensures Shape(mid - {x}) == Contract(Shape(g), x)
  {
    forall v | v in g && v != x ensures mid[v].parent == Contract(Shape(g), x)[v] {
      assert Moved(g, x, |g[x].children|, v, mid[v]);
      MovedParent(g, x, mid, v);
    }
    ShapeIs(mid - {x}, Contract(Shape(g), x));
  }

  lemma ShapeIs(g: Graph, p: Parents)
    requires forall v :: v in g <==> v in p
    requires forall v :: v in g ==> g[v].parent == p[v]
    ensures Shape(g) == p
  {
  }

  lemma MovedLists(g: Graph, x: string, mid: Graph, v: string)
    requires WellFormed(g) && x in g && AllMoved(g, x, |g[x].children|, mid)
    requires Shape(mid - {x}) == Contract(Shape(g), x) && v in mid - {x}
    ensures ListsChildren(mid - {x}, v, mid[v].children)
  {
    var after := mid - {x};
    assert ListsChildren(g, x, g[x].children) && ListsChildren(g, v, g[v].children);
    assert g[x].children[..|g[x].children|] == g[x].children;
    assert Moved(g, x, |g[x].children|, v, mid[v]);
    forall c ensures c in mid[v].children <==> c in after && after[c].parent == v {
      if c in after { assert Shape(after)[c] == Contract(Shape(g), x)[c]; }
    }
  }

  lemma RemoveKeepsWellFormed(g: Graph, x: string, mid: Graph)
    requires WellFormed(g) && x in g && AllMoved(g, x, |g[x].children|, mid)
    ensures Shape(mid - {x}) == Contract(Shape(g), x) && WellFormed(mid - {x})
  {
    MovedIsRemoved(g, x, mid);
    ContractKeepsForest(Shape(g), x);
    forall v | v in mid - {x} ensures ListsChildren(mid - {x}, v, (mid - {x})[v].children) {
      MovedLists(g, x, mid, v);
    }
  }

  class VersionNode {
    const version: string
    const snapshot: SchemaSnapshot
    var parent: string
    var children: seq<string>

    constructor (snapshot: SchemaSnapshot, parent: string)
      ensures this.version == snapshot.version && this.snapshot == snapshot
      ensures this.parent == parent && this.children == []
    {
      this.version := snapshot.version;
      this.snapshot := snapshot;
      this.parent := parent;
      this.children := [];
    }
  }

  class VersionGraph {
    var nodes: map<string, VersionNode>
    var root: string
    ghost var view: Graph  // the nodes on the heap as a value

    ghost predicate Linked()
      reads this, nodes.Values
    {
      && (forall v :: v in nodes <==> v in view)
      && forall v :: v in nodes ==>
        && nodes[v].version == v && nodes[v].snapshot.version == v
        && nodes[v].parent == view[v].parent && nodes[v].children == view[v].children
    }

    ghost predicate Valid()
      reads this, nodes.Values
    {
      Linked() && WellFormed(view) && RootOf(view, root)
    }

    constructor ()
      ensures Valid() && view == map[]
    {
      nodes := map[];
      root := NO_PARENT;
      view := map[];
      new;
      assert Ranked(Shape(view), map[]);
    }

    method Add(snapshot: SchemaSnapshot, parent: string) returns (r: Outcome)
      requires Valid()
      modifies this, nodes.Values
      ensures Valid()
      ensures r == (if snapshot.version == NO_PARENT then Rejected(EmptyVersion)
                    else if snapshot.version in old(view) then Rejected(AlreadyExists)
                    else if parent != NO_PARENT && parent !in old(view) then Rejected(ParentNotFound)
                    else Done)
      ensures r.Done? ==> Shape(view) == Shape(old(view))[snapshot.version := parent]
      ensures r.Done? ==> snapshot.version in nodes && nodes[snapshot.version].snapshot == snapshot
      ensures r.Done? ==> nodes == old(nodes)[snapshot.version := nodes[snapshot.version]]
      ensures r.Done? ==> root == if old(root) == NO_PARENT then snapshot.version else old(root)
      ensures r.Rejected? ==> nodes == old(nodes) && view == old(view) && root == old(root)
    {
      if snapshot.version == NO_PARENT { return Rejected(EmptyVersion); }
      if snapshot.version in nodes { return Rejected(AlreadyExists); }
      if parent != NO_PARENT {
        if parent !in nodes { return Rejected(ParentNotFound); }
      }
      Attach(snapshot, parent);
      AttachKeepsWellFormed(old(view), snapshot.version, parent, view);
      r := Done;
    }

    /** The part of `Add` behind its checks. */
    method Attach(snapshot: SchemaSnapshot, parent: string)
      requires Valid() && snapshot.version != NO_PARENT && snapshot.version !in nodes
      requires parent == NO_PARENT || parent in nodes
      modifies this, nodes.Values
      ensures snapshot.version in nodes && nodes[snapshot.version].snapshot == snapshot
      ensures nodes == old(nodes)[snapshot.version := nodes[snapshot.version]]
      ensures Linked() && RootOf(view, root) && Attached(old(view), snapshot.version, parent, view)
      ensures root == if old(root) == NO_PARENT then snapshot.version else old(root)
    {
      assert parent in view ==> Sorted(view[parent].children) by {
        assert parent in view ==> ListsChildren(view, parent, view[parent].children);
      }
      AddNode(snapshot, parent);
      if parent != NO_PARENT {
        AppendChild(nodes[parent], snapshot.version);
      } else if root == NO_PARENT {
        root := snapshot.version;
      }
    }

    /** A new node without children. */
    method AddNode(snapshot: SchemaSnapshot, parent: string)
      requires Linked() && snapshot.version !in nodes
      modifies `nodes, `view
      ensures Linked() && snapshot.version in nodes && fresh(nodes[snapshot.version])
      ensures nodes[snapshot.version].snapshot == snapshot
      ensures nodes == old(nodes)[snapshot.version := nodes[snapshot.version]]
      ensures view == old(view)[snapshot.version := Entry(parent, [])]
    {
      var node := new VersionNode(snapshot, parent);
      nodes := nodes[snapshot.version := node];
      view := view[snapshot.version := Entry(parent, [])];
    }

    /** The parent lists `child`, in its place. */
    method AppendChild(parentNode: VersionNode, child: string)
      requires Linked() && parentNode.version in nodes && nodes[parentNode.version] == parentNode
        && Sorted(parentNode.children)
      modifies parentNode`children, `view
      ensures Linked() && parentNode.version in view && Inserted(old(view), parentNode.version, child, view)
    {
      parentNode.children := InsertSorted(parentNode.children, child);
      view := view[parentNode.version := view[parentNode.version].(children := parentNode.children)];
    }

    method Remove(version: string) returns (r: Outcome)
      requires Valid()
      modifies this, nodes.Values
      ensures Valid()
      ensures r == (if version in old(view) then Done else Rejected(NotFound))
      ensures r.Done? ==> Shape(view) == Contract(Shape(old(view)), version)
      ensures r.Done? ==> nodes == old(nodes) - {version}
      ensures r.Done? && old(root) != version ==> root == old(root)
      ensures r.Rejected? ==> nodes == old(nodes) && view == old(view) && root == old(root)
    {
      hide WellFormed, Shape, Contract, RootOf;
      if version !in nodes { return Rejected(NotFound); }
      WellFormedFacts(view, version);
      Excise(version);
      if root == version {
        PromoteRoot();
      } else {
        OtherRootStays(old(view), version, view, root);
      }
      r := Done;
    }

    /** `Remove` without its care for the root. */
    method Excise(version: string)
      requires Linked() && WellFormed(view) && version in nodes
      modifies nodes.Values, `nodes, `view
      ensures Linked() && WellFormed(view) && version in old(view)
      ensures Shape(view) == Contract(Shape(old(view)), version)
      ensures nodes == old(nodes) - {version}
    {
      hide WellFormed, Shape, Contract, AllMoved;
      Unlink(version);
      RemoveKeepsWellFormed(old(view), version, view);
      DropNode(version);
    }

    /** Detaches `version` from its parent and moves its children up. */
    method Unlink(version: string)
      requires Linked() && WellFormed(view) && version in nodes
      modifies nodes.Values, `view
      ensures Linked() && AllMoved(old(view), version, |old(view)[version].children|, view)
    {
      hide WellFormed, Shape, Forest, Moved;
      ghost var g := view;
      WellFormedFacts(g, version);
      Detach(version);
      MovedSelf(g, version, 0, view);
      var children := nodes[version].children;
      for i := 0 to |children|
        invariant Linked() && AllMoved(g, version, i, view)
      {
        var child := children[i];
        assert child in g[version].children;
        MovedSelf(g, version, i, view);
        if child in nodes {
          MoveUp(g, version, child, i);
        }
      }
    }

    method Detach(version: string)
      requires Linked() && WellFormed(view) && version in nodes
      modifies nodes.Values, `view
      ensures Linked() && AllMoved(old(view), version, 0, view)
    {
      hide WellFormed, Shape, Forest, AllMoved, Moved;
      WellFormedFacts(view, version);
      var parent := nodes[version].parent;
      if parent != NO_PARENT {
        if parent in nodes {
          WellFormedFacts(view, parent);
          ShrinkChildren(nodes[parent], version);
        }
      }
      DetachMovesNone(old(view), version, view);
    }

    /** The node leaves the graph. */
    method DropNode(version: string)
      requires Linked() && version in nodes
      modifies `nodes, `view
      ensures Linked() && nodes == old(nodes) - {version} && view == old(view) - {version}
    {
      nodes := nodes - {version};
      view := view - {version};
    }

    /** The parent no longer lists `child`. */
    method ShrinkChildren(parentNode: VersionNode, child: string)
      requires Linked() && parentNode.version in nodes && nodes[parentNode.version] == parentNode
        && Sorted(parentNode.children)
      modifies parentNode`children, `view
      ensures Linked() && parentNode.version in view && Shrunk(old(view), parentNode.version, child, view)
    {
      parentNode.children := RemoveFromSlice(parentNode.children, child);
      view := view[parentNode.version := view[parentNode.version].(children := parentNode.children)];
    }

    /** The loop body of the removal: the `k`-th child of `version` gets the parent of `version`. */
    method MoveUp(ghost g: Graph, version: string, child: string, k: nat)
      requires Linked() && NO_PARENT !in g && version in g && k < |g[version].children| && AllMoved(g, version, k, view)
      requires child == g[version].children[k] && child in g && child in nodes
      requires g[version].parent == NO_PARENT || g[version].parent in g
      requires version in nodes && nodes[version].parent == g[version].parent
      modifies nodes.Values, `view
      ensures Linked() && AllMoved(g, version, k + 1, view)
    {
      hide AllMoved, Moved;
      var parent := nodes[version].parent;
      MovedParentList(g, version, k, view);
      SetParent(nodes[child], parent);
      if parent != NO_PARENT {
        if parent in nodes {
          AppendChild(nodes[parent], child);
        }
      }
      StepMovesOneMore(g, version, k, old(view), view);
    }

    /** The child gets another parent. */
    method SetParent(node: VersionNode, parent: string)
      requires Linked() && node.version in nodes && nodes[node.version] == node
      modifies node`parent, `view
      ensures Linked() && view == old(view)[node.version := old(view)[node.version].(parent := parent)]
    {
      node.parent := parent;
      view := view[node.version := view[node.version].(parent := parent)];
    }

    /** An arbitrary parentless member becomes the root, if there is a member at all. */
    method PromoteRoot()
      requires Linked() && WellFormed(view)
      modifies `root
      ensures RootOf(view, root)
    {
      hide WellFormed;
      root := NO_PARENT;
      if v :| v in nodes && nodes[v].parent == NO_PARENT {
        root := v;
      } else {
        SomeParentless(view);
      }
    }

    /** A copy of the node, or nothing. */
    method Get(version: string) returns (found: bool, snapshot: SchemaSnapshot, e: Entry)
      requires Valid()
      ensures found == (version in view)
      ensures found ==> e == view[version] && snapshot.version == version && snapshot == nodes[version].snapshot
    {
      found := version in nodes;
      if found {
        snapshot, e := nodes[version].snapshot, Entry(nodes[version].parent, nodes[version].children);
      } else {
        snapshot, e := SchemaSnapshot(NO_PARENT, ""), Entry(NO_PARENT, []);
      }
    }

    /** Root first, immediate parent last; the empty list for an unknown version. */
    method GetAncestors(version: string) returns (r: seq<string>)
      requires Valid()
      ensures version !in view ==> r == []
      ensures version in view ==> Forest(Shape(view)) && r == Ancestors(Shape(view), version)
    {
      hide WellFormed, RootOf, Forest;
      if version !in nodes { return []; }
      ghost var p := Shape(view);
      WellFormedParts(view);
      ParentsExist(p);
      r := [];
      var current := version;
      while current in nodes && nodes[current].parent != NO_PARENT
        invariant current in p && Ancestors(p, version) == Ancestors(p, current) + r
        decreases Rank(p)[current]
      {
        var parent := nodes[current].parent;
        assert p[current] == parent;
        r := [parent] + r;
        current := parent;
      }
    }

    /** Breadth first; the empty list for an unknown version. */
    method GetDescendants(version: string) returns (r: seq<string>)
      requires Valid()
      ensures version !in view ==> r == []
      ensures version in view ==> ListsDescendants(Shape(view), version, r)
    {
      hide WellFormed, Shape, RootOf, Descending, ChildrenIn, ListsDescendants;
      if version !in nodes { return []; }
      ghost var p := Shape(view);
      WellFormedParts(view);
      r := [];
      var queue := nodes[version].children;
      var visited := set c | c in queue;
      ghost var b: nat := Depth(p, version) + 1;
      ChildListFacts(view, version);
      StartDescent(p, version, queue, visited);
      while queue != []
        invariant Descending(p, version, r, queue, visited, b) && ChildrenIn(p, version, visited)
        invariant forall u :: u in r ==> ChildrenIn(p, u, visited)
        decreases p.Keys - visited, |queue|
      {
        var cur := queue[0];
        Emit(p, version, r, queue, visited, b);
        r, b := r + [cur], Depth(p, cur);
        ghost var before := visited;
        queue, visited := EnqueueChildren(version, r, queue[1..], visited, cur);
        KeepsGrowing(p, version, before, visited, r);
        VisitedAreMembers(p, version, r, queue, visited, b);
      }
      AllDescendantsListed(p, version, r, visited, b);
    }

    /** The inner loop: the children of `cur` not yet seen join the queue. */
    method EnqueueChildren(ghost version: string, ghost out: seq<string>, queue: seq<string>, visited: set<string>,
                           cur: string)
        returns (queue': seq<string>, visited': set<string>)
      requires Valid() && cur in view && out != [] && out[|out| - 1] == cur
      requires Descending(Shape(view), version, out, queue, visited, Depth(Shape(view), cur))
      ensures Descending(Shape(view), version, out, queue', visited', Depth(Shape(view), cur))
      ensures ChildrenIn(Shape(view), cur, visited') && visited <= visited'
      ensures visited' == visited ==> queue' == queue
    {
      hide WellFormed, Shape, RootOf, Descending;
      queue', visited' := queue, visited;
      WellFormedParts(view);
      ChildListFacts(view, cur);
      var children := nodes[cur].children;
      for i := 0 to |children|
        invariant Descending(Shape(view), version, out, queue', visited', Depth(Shape(view), cur))
        invariant visited <= visited' && (visited' == visited ==> queue' == queue)
        invariant forall j :: 0 <= j < i ==> children[j] in visited'
      {
        var c := children[i];
        assert c in children;
        if c !in visited' {
          Descend(Shape(view), version, out, queue', visited', cur, c);
          queue', visited' := queue' + [c], visited' + {c};
        }
      }
    }

    /** A shortest path, or the empty list when an end is unknown or the two lie in different trees. */
    method Path(from: string, to: string) returns (r: seq<string>)
      requires Valid()
      ensures r == [] <==> !SameTree(Shape(view), from, to)
      ensures r != [] ==> ShortestPath(Shape(view), r, from, to)
    {
      hide WellFormed, Shape, RootOf, Searching, SameTree, ShortestPath;
      ghost var p := Shape(view);
      WellFormedParts(view);
      if from !in nodes { MembersOnly(p, from, to); return []; }
      if to !in nodes { MembersOnly(p, from, to); return []; }
      if from == to { StayingIsShortest(p, from); return [from]; }
      var queue, visited := [State(from, [from])], {from};
      ghost var k: nat, d: nat := 1, 0;
      StartSearch(p, from, to);
      while queue != []
        invariant Searching(p, from, to, queue, visited, k, d, NO_PARENT)
        decreases p.Keys - visited, |queue|
      {
        if k == 0 {
          LevelDone(p, from, to, queue, visited, d);
          k, d := |queue|, d + 1;
        }
        var cur := queue[0];
        Dequeue(p, from, to, queue, visited, k, d);
        k := k - 1;
        ghost var before := visited;
        r, queue, visited := Expand(from, to, queue[1..], visited, k, d, cur);
        if r != [] { return; }
        SearchedAreMembers(p, from, to, queue, visited, k, d);
      }
      ExhaustedMeansOtherTree(p, from, to, visited, k, d);
      r := [];
    }

    /** The inner loop: the neighbours of `cur`, children first, then the parent. */
    method Expand(ghost from: string, to: string, queue: seq<State>, visited: set<string>, ghost k: nat, ghost d: nat,
                  cur: State)
        returns (r: seq<string>, queue': seq<State>, visited': set<string>)
      requires Valid() && cur.version in view
      requires Searching(Shape(view), from, to, queue, visited, k, d, cur.version)
        && Arrived(Shape(view), from, visited, cur, d)
      ensures r != [] ==> ShortestPath(Shape(view), r, from, to) && SameTree(Shape(view), from, to)
      ensures r == [] ==> Searching(Shape(view), from, to, queue', visited', k, d, NO_PARENT)
      ensures visited <= visited' && (visited' == visited ==> queue' == queue)
    {
      hide WellFormed, Shape, RootOf, Searching, Arrived, SameTree, ShortestPath, Closed, Adjacent;
      r, queue', visited' := [], queue, visited;
      var neighbours := nodes[cur.version].children;
      if nodes[cur.version].parent != NO_PARENT {
        neighbours := neighbours + [nodes[cur.version].parent];
      }
      NeighbourList(view, cur.version, neighbours);
      for i := 0 to |neighbours|
        invariant Searching(Shape(view), from, to, queue', visited', k, d, cur.version)
          && Arrived(Shape(view), from, visited', cur, d)
        invariant visited <= visited' && (visited' == visited ==> queue' == queue)
        invariant forall j :: 0 <= j < i ==> neighbours[j] in visited'
      {
        var n := neighbours[i];
        assert n in neighbours;
        if n !in visited' {
          if n == to {
            FoundInTree(Shape(view), from, to, queue', visited', k, d, cur);
            return cur.path + [n], queue', visited' + {n};
          }
          Enqueue(Shape(view), from, to, queue', visited', k, d, cur, n);
          queue', visited' := queue' + [State(n, cur.path + [n])], visited' + {n};
        }
      }
      AllNeighboursIn(Shape(view), cur.version, neighbours, visited');
      Expanded(Shape(view), from, to, queue', visited', k, d, cur.version);
    }
  }
}
