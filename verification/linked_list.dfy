/** The doubly linked ring with a sentinel that keeps the cache's entries in order of use. */
module LinkedLists {
  import opened Lru

  class Element {
    var prev: Element
    var next: Element
    var entry: Item

    constructor (entry: Item)
      ensures this.entry == entry
    {
      prev, next := this, this;
      this.entry := entry;
    }
  }

  class LinkedList {
    const root: Element
    var len: nat
    ghost var elems: seq<Element>  // front to back

    ghost predicate Valid()
      reads this, root, elems
    {
      && len == |elems|
      && (forall i :: 0 <= i < |elems| ==> elems[i] != root)
      && (forall i, j :: 0 <= i < j < |elems| ==> elems[i] != elems[j])
      && root.next == (if elems == [] then root else elems[0])
      && root.prev == (if elems == [] then root else elems[|elems| - 1])
      && (forall i {:trigger elems[i].next} ::
        0 <= i < |elems| ==> elems[i].next == if i + 1 < |elems| then elems[i + 1] else root)
      && (forall i {:trigger elems[i].prev} ::
        0 <= i < |elems| ==> elems[i].prev == if i > 0 then elems[i - 1] else root)
    }

    constructor ()
      ensures Valid() && elems == [] && fresh(root)
    {
      root := new Element(Item("", "", ZERO_TIME));
      len := 0;
      elems := [];
      new;
      root.prev, root.next := root, root;
    }

    /** Splices `e` out of the ring. */
    method Remove(e: Element, ghost k: nat)
      requires Valid() && k < |elems| && elems[k] == e
      modifies this, root`next, root`prev, (set x | x in elems)`next, (set x | x in elems)`prev
      ensures Valid() && elems == old(elems)[..k] + old(elems)[k + 1..]
    {
      ghost var was := elems;
      DistinctAt(k);
      assert e.prev == (if k > 0 then was[k - 1] else root) && e.next == if k + 1 < |was| then was[k + 1] else root;
      e.prev.next := e.next;
      e.next.prev := e.prev;
      len := len - 1;
      elems := was[..k] + was[k + 1..];
      forall i | 0 <= i < |elems|
        ensures elems[i] == was[if i < k then i else i + 1] && elems[i] != e && elems[i] != root
      {
      }
      forall i | 0 <= i < |elems| ensures elems[i].next
        == if i + 1 < |elems| then elems[i + 1] else root { if k > 0 && i != k - 1 { assert elems[i] != was[k - 1]; } }
      forall i | 0 <= i < |elems| ensures elems[i].prev
        == if i > 0 then elems[i - 1] else root { if k + 1 < |was| && i != k { assert elems[i] != was[k + 1]; } }
    }

    /** Splices `e` in behind the sentinel. */
    method PushFront(e: Element)
      requires Valid() && e != root && e !in elems
      modifies this, root`next, root`prev, (set x | x in elems)`next, (set x | x in elems)`prev, e`next, e`prev
      ensures Valid() && elems == [e] + old(elems)
    {
      e.prev := root;
      e.next := root.next;
      e.prev.next := e;
      e.next.prev := e;
      len := len + 1;
      elems := [e] + elems;
    }

    method MoveToFront(e: Element, ghost k: nat)
      requires Valid() && k < |elems| && elems[k] == e
      modifies this, root`next, root`prev, (set x | x in elems)`next, (set x | x in elems)`prev
      ensures Valid() && elems == [e] + (old(elems)[..k] + old(elems)[k + 1..])
    {
      if root.next == e { assert elems == [e] + (elems[..0] + elems[1..]); return; }
      Remove(e, k);
      PushFront(e);
    }

    lemma DistinctAt(k: nat)
      requires Valid() && k < |elems|
      ensures forall i :: 0 <= i < |elems| && i != k ==> elems[i] != elems[k]
    {
    }

    method SetEntry(e: Element, entry: Item)
      requires Valid()
      modifies e`entry
      ensures Valid() && e.entry == entry
    {
      e.entry := entry;
    }

    /** The last element; null when there is none. */
    method Back() returns (e: Element?)
      requires Valid()
      ensures e == if elems == [] then null else elems[|elems| - 1]
    {
      e := if len == 0 then null else root.prev;
    }
  }
}
