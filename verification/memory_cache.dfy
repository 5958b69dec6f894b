/** The in-memory cache: a map from keys to elements of a linked list, proved against the list of entries as a value. */
module MemoryCaches {
  import opened Wrappers
  import opened Lru
  import opened LinkedLists

  const DEFAULT_MAX_SIZE := 1000
  const DEFAULT_TTL := 300_000_000_000  // five minutes in nanoseconds

  class MemoryCache {
    const capacity: nat
    const defaultTtl: int
    var items: map<string, Element>
    var order: LinkedList
    var hits: nat
    var misses: nat
    var size: int
    var evictions: nat
    ghost var contents: Items  // the entries, most recently used first

    /** The map and the list hold the same elements, each under its own key, in the order of `contents`. */
    ghost predicate Indexed()
      reads this, order, order.elems
    {
      && Agree(contents, items, order.elems) && size == |contents|
      && forall i :: 0 <= i < |contents| ==> order.elems[i].entry == contents[i]
    }

    ghost predicate Valid()
      reads this, order, order.root, order.elems
    {
      order.Valid() && Indexed() && |contents| <= capacity && capacity > 0 && defaultTtl > 0
    }

    constructor (capacity: int, defaultTtl: int)
      ensures Valid() && contents == [] && fresh(order) && fresh(order.root)
      ensures this.capacity == if capacity <= 0 then 1000 else capacity
      ensures this.defaultTtl == if defaultTtl <= 0 then 300_000_000_000 else defaultTtl
      ensures hits == misses == evictions == 0
    {
      this.capacity := if capacity <= 0 then DEFAULT_MAX_SIZE else capacity;
      this.defaultTtl := if defaultTtl <= 0 then DEFAULT_TTL else defaultTtl;
      items := map[];
      order := new LinkedList();
      hits, misses, size, evictions := 0, 0, 0, 0;
      contents := [];
    }

    /** `elem`, the `k`-th entry, leaves the map and the list. */
    method RemoveElement(elem: Element, ghost k: nat)
      requires order.Valid() && Indexed() && k < |contents| && order.elems[k] == elem
      modifies `items, `size, `contents, order, order.root`next, order.root`prev, (set x | x in order.elems)`next,
        (set x | x in order.elems)`prev
      ensures order.Valid() && Indexed()
      ensures contents == Without(old(contents), old(contents)[k].key)
      ensures order.elems == old(order.elems)[..k] + old(order.elems)[k + 1..]
      ensures items == old(items) - {old(contents)[k].key}
    {
      hide LinkedList.Valid, Agree, Find, Without, Distinct;
      AgreeMeans(contents, items, order.elems);
      WithoutAt(contents, k);
      AgreeAfterRemoval(contents, items, order.elems, k);
      items := items - {elem.entry.key};
      order.Remove(elem, k);
      size := size - 1;
      contents := contents[..k] + contents[k + 1..];
    }

    /** `elem`, the `k`-th entry, becomes the first. */
    method MoveToFront(elem: Element, ghost k: nat)
      requires order.Valid() && Indexed() && k < |contents| && order.elems[k] == elem
      modifies `contents, order, order.root`next, order.root`prev, (set x | x in order.elems)`next,
        (set x | x in order.elems)`prev
      ensures order.Valid() && Indexed()
      ensures contents == [old(contents)[k]] + Without(old(contents), old(contents)[k].key)
    {
      hide LinkedList.Valid, Agree, Find, Without, Distinct;
      AgreeMeans(contents, items, order.elems);
      WithoutAt(contents, k);
      AgreeAfterMove(contents, items, order.elems, k);
      order.MoveToFront(elem, k);
      contents := [contents[k]] + (contents[..k] + contents[k + 1..]);
    }

    /** The `k`-th entry gets a new value and expiry. */
    method Overwrite(elem: Element, entry: Item, ghost k: nat)
      requires order.Valid() && Indexed() && k < |contents| && order.elems[k] == elem && entry.key == contents[k].key
      modifies `contents, elem`entry
      ensures order.Valid() && Indexed()
      ensures contents == old(contents)[k := entry]
    {
      hide LinkedList.Valid, Agree;
      AgreeMeans(contents, items, order.elems);
      AgreeAfterOverwrite(contents, items, order.elems, k, entry);
      order.DistinctAt(k);
      order.SetEntry(elem, entry);
      contents := contents[k := entry];
    }

    /** A new entry goes to the front. */
    method Push(entry: Item)
      requires order.Valid() && Indexed() && entry.key !in items
      modifies `items, `size, `contents, order, order.root, order.elems
      ensures order.Valid() && Indexed() && order == old(order)
      ensures contents == [entry] + old(contents)
      ensures forall e :: e in order.elems && e !in old(order.elems) ==> fresh(e)
    {
      hide LinkedList.Valid, Agree;
      var elem := new Element(entry);
      AgreeMeans(contents, items, order.elems);
      AgreeAfterPush(contents, items, order.elems, entry, elem);
      order.PushFront(elem);
      items := items[entry.key := elem];
      size := size + 1;
      contents := [entry] + contents;
    }

    /** While there are too many entries, the one at the back goes. */
    method Evict()
      requires order.Valid() && Indexed() && capacity > 0
      modifies `items, `size, `contents, `evictions, order, order.root, order.elems
      ensures order.Valid() && Indexed() && order == old(order)
      ensures contents == Truncate(old(contents), capacity)
      ensures forall e :: e in order.elems ==> e in old(order.elems)
      ensures evictions == old(evictions) + |old(contents)| - |contents|
    {
      hide LinkedList.Valid, Agree;
      ghost var all, seen := contents, order.elems;
      LengthIs();
      while order.len > capacity
        invariant order.Valid() && Indexed() && order == old(order) && order.len == |contents| <= |all|
        invariant contents == all[..|contents|] && (|contents| == |all| || |contents| >= capacity)
        invariant forall e :: e in order.elems ==> e in seen
        invariant evictions == old(evictions) + |all| - |contents|
        decreases order.len
      {
        LengthIs();
        var oldest := order.Back();
        if oldest == null { break; }
        assert forall i :: 0 <= i < |order.elems| ==> order.elems[i] in seen;
        EvictOne(oldest);
      }
    }

    lemma LengthIs()
      requires order.Valid() && Indexed()
      ensures order.len == |contents| == |order.elems|
    {
    }

    method EvictOne(oldest: Element)
      requires order.Valid() && Indexed() && contents != [] && oldest == order.elems[|order.elems| - 1]
      modifies `items, `size, `contents, `evictions, order, order.root, order.elems
      ensures order.Valid() && Indexed() && order == old(order) && order.len == |contents|
      ensures contents == old(contents)[..|old(contents)| - 1]
      ensures forall e :: e in order.elems ==> e in old(order.elems)
      ensures evictions == old(evictions) + 1
    {
      hide LinkedList.Valid, Agree;
      ghost var k := |contents| - 1;
      LengthIs();
      AgreeMeans(contents, items, order.elems);
      WithoutAt(contents, k);
      RemoveElement(oldest, k);
      evictions := evictions + 1;
      LengthIs();
    }

    method Get(key: string, now: int) returns (r: Outcome)
      requires Valid()
      modifies this, order, order.root, order.elems
      ensures Valid() && order == old(order)
      ensures (contents, r) == Step(Config(capacity, defaultTtl), Op.Get(key), now, old(contents))
      ensures hits == old(hits) + (if r.Hit? then 1 else 0) && misses == old(misses) + (if r.Hit? then 0 else 1)
    {
      hide Agree, LinkedList.Valid, Without, Find;
      AgreeMeans(contents, items, order.elems);
      if key !in items {
        NotListed(contents, items, order.elems, key);
        misses := misses + 1;
        return Miss;
      }
      ghost var k := Locate(contents, items, order.elems, key);
      var elem := items[key];
      StepKeepsBounds(Config(capacity, defaultTtl), Op.Get(key), now, contents);
      if elem.entry.expiresAt != ZERO_TIME && !(now < elem.entry.expiresAt) {
        RemoveElement(elem, k);
        misses := misses + 1;
        return Miss;
      }
      MoveToFront(elem, k);
      hits := hits + 1;
      r := Hit(elem.entry.value);
    }

    method Set(key: string, value: string, ttl: int, now: int)
      requires Valid()
      modifies this, order, order.root, order.elems
      ensures Valid() && order == old(order)
      ensures contents == Step(Config(capacity, defaultTtl), Op.Set(key, value, ttl), now, old(contents)).0
      ensures hits == old(hits) && misses == old(misses)
      ensures evictions == old(evictions) + |Without(old(contents), key)| + 1 - |contents|
    {
      hide Agree, LinkedList.Valid, Without, Find;
      var it := Item(key, value, now + if ttl <= 0 then defaultTtl else ttl);
      AgreeMeans(contents, items, order.elems);
      StepKeepsBounds(Config(capacity, defaultTtl), Op.Set(key, value, ttl), now, contents);
      PushBounds(contents, it);
      if key in items {
        ghost var k := Locate(contents, items, order.elems, key);
        var elem := items[key];
        WithoutOverwritten(contents, k, it);
        Overwrite(elem, it, k);
        MoveToFront(elem, k);
      } else {
        NotListed(contents, items, order.elems, key);
        NothingWithout(contents, key);
        Push(it);
        assert forall i :: 0 <= i < |order.elems| ==> order.elems[i] in old(order.elems) || fresh(order.elems[i]);
        Evict();
      }
    }

    method Delete(key: string)
      requires Valid()
      modifies this, order, order.root, order.elems
      ensures Valid() && order == old(order) && forall e :: e in order.elems ==> e in old(order.elems)
      ensures contents == Step(Config(capacity, defaultTtl), Op.Delete(key), 0, old(contents)).0
      ensures hits == old(hits) && misses == old(misses) && evictions == old(evictions)
    {
      hide Agree, LinkedList.Valid, Without, Find;
      AgreeMeans(contents, items, order.elems);
      StepKeepsBounds(Config(capacity, defaultTtl), Op.Delete(key), 0, contents);
      if key in items {
        ghost var k := Locate(contents, items, order.elems, key);
        RemoveElement(items[key], k);
      } else {
        NotListed(contents, items, order.elems, key);
        NothingWithout(contents, key);
      }
    }

    method Exists(key: string, now: int) returns (b: bool)
      requires Valid()
      modifies this, order, order.root, order.elems
      ensures Valid() && order == old(order)
      ensures (contents, Found(b)) == Step(Config(capacity, defaultTtl), Op.Exists(key), now, old(contents))
      ensures hits == old(hits) && misses == old(misses) && evictions == old(evictions)
    {
      hide Agree, LinkedList.Valid, Without, Find;
      AgreeMeans(contents, items, order.elems);
      StepKeepsBounds(Config(capacity, defaultTtl), Op.Exists(key), now, contents);
      if key !in items {
        NotListed(contents, items, order.elems, key);
        return false;
      }
      ghost var k := Locate(contents, items, order.elems, key);
      var elem := items[key];
      if elem.entry.expiresAt != ZERO_TIME && !(now < elem.entry.expiresAt) {
        RemoveElement(elem, k);
        return false;
      }
      b := true;
    }

    method Clear() returns (count: nat)
      requires Valid()
      modifies this
      ensures Valid() && fresh(order) && fresh(order.root)
      ensures contents == [] && count == |old(contents)|
      ensures hits == old(hits) && misses == old(misses) && evictions == old(evictions)
    {
      LengthIs();
      count := order.len;
      items := map[];
      order := new LinkedList();
      size := 0;
      contents := [];
    }

    method ClearPattern(pattern: Pattern) returns (r: Outcome)
      requires Valid()
      modifies this, order, order.root, order.elems
      ensures Valid() && order == old(order)
      ensures (contents, r) == Step(Config(capacity, defaultTtl), Op.ClearPattern(pattern), 0, old(contents))
      ensures hits == old(hits) && misses == old(misses) && evictions == old(evictions)
    {
      hide Agree, LinkedList.Valid, Find, Filter;
      AgreeMeans(contents, items, order.elems);
      StepKeepsBounds(Config(capacity, defaultTtl), Op.ClearPattern(pattern), 0, contents);
      EmptyTogether(contents, items, order.elems);
      if pattern.Malformed? {
        return if items == map[] then Count(0) else BadPattern;
      }
      var removed := ClearMatches(pattern);
      r := Count(removed);
    }

    /** The loop over the map, in whatever order it comes. */
    method ClearMatches(pattern: Pattern) returns (removed: nat)
      requires order.Valid() && Indexed() && pattern.Glob?
      modifies `items, `size, `contents, order, order.root, order.elems
      ensures order.Valid() && Indexed() && order == old(order)
      ensures contents == Filter(old(contents), Unmatched(pattern)) && removed == |old(contents)| - |contents|
    {
      hide Agree, LinkedList.Valid, Find, Filter, NotIn, Unmatched;
      removed := 0;
      ghost var all, seen, gone := contents, order.elems, {};
      var keys := items.Keys;
      EmptyTogether(contents, items, order.elems);
      FilterNothing(all);
      while keys != {}
        invariant order.Valid() && Indexed() && order == old(order) && forall e :: e in order.elems ==> e in seen
        invariant contents == Filter(all, NotIn(gone)) && removed == |all| - |contents|
        invariant keys <= items.Keys
        invariant forall k :: k in gone ==> pattern.matches(k)
        invariant forall k :: k in old(items) && pattern.matches(k) ==> k in keys || k in gone
      {
        var key :| key in keys;
        keys := keys - {key};
        if pattern.matches(key) {
          FilterOneMore(all, gone, key);
          assert forall i :: 0 <= i < |order.elems| ==> order.elems[i] in seen;
          Discard(key);
          removed, gone := removed + 1, gone + {key};
        }
      }
      ClearedAll(all, gone, pattern);
    }

    method Discard(key: string)
      requires order.Valid() && Indexed() && key in items
      modifies `items, `size, `contents, order, order.root, order.elems
      ensures order.Valid() && Indexed() && order == old(order)
        && forall e :: e in order.elems ==> e in old(order.elems)
      ensures contents == Without(old(contents), key) && |contents| == |old(contents)| - 1
      ensures items == old(items) - {key}
    {
      hide Agree, LinkedList.Valid, Find;
      AgreeMeans(contents, items, order.elems);
      ghost var k := Locate(contents, items, order.elems, key);
      WithoutAt(contents, k);
      RemoveElement(items[key], k);
    }
  }

  /** `items` finds each key at the element whose position its entry has. */
  ghost predicate Agree(s: Items, items: map<string, Element>, elems: seq<Element>) {
    && Distinct(s) && |s| == |elems|
    && (forall i :: 0 <= i < |s| ==> s[i].key in items && items[s[i].key] == elems[i])
    && (forall k :: k in items ==> Find(s, k).Some?)
  }

  lemma AgreeMeans(s: Items, items: map<string, Element>, elems: seq<Element>)
    requires Agree(s, items, elems)
    ensures Distinct(s) && |s| == |elems|
  {
  }

  lemma NotListed(s: Items, items: map<string, Element>, elems: seq<Element>, key: string)
    requires Agree(s, items, elems) && key !in items
    ensures Find(s, key) == None
  {
  }

  lemma Locate(s: Items, items: map<string, Element>, elems: seq<Element>, key: string) returns (k: nat)
    requires Agree(s, items, elems) && key in items
    ensures k < |s| && k < |elems| && s[k].key == key && items[key] == elems[k] && Find(s, key) == Some(s[k])
  {
    k :| k < |s| && s[k] == Find(s, key).value;
  }

  lemma AgreeAfterMove(s: Items, items: map<string, Element>, elems: seq<Element>, k: nat)
    requires Agree(s, items, elems) && k < |s|
    ensures Agree([s[k]] + (s[..k] + s[k + 1..]), items, [elems[k]] + (elems[..k] + elems[k + 1..]))
  {
    assert (items - {s[k].key})[s[k].key := elems[k]] == items by { hide Find; assert s[k].key in items; }
    AgreeAfterRemoval(s, items, elems, k);
    hide Agree;
    AgreeAfterPush(s[..k] + s[k + 1..], items - {s[k].key}, elems[..k] + elems[k + 1..], s[k], elems[k]);
  }

  lemma AgreeAfterOverwrite(s: Items, items: map<string, Element>, elems: seq<Element>, k: nat, it: Item)
    requires Agree(s, items, elems) && k < |s| && it.key == s[k].key
    ensures Agree(s[k := it], items, elems)
  {
    forall x | x in items ensures Find(s[k := it], x).Some? { FindOverwritten(s, k, it, x); }
    hide Find;
  }

  lemma {:induction false} FindOverwritten(s: Items, k: nat, it: Item, x: string)
    requires k < |s| && it.key == s[k].key
    ensures Find(s[k := it], x).Some? <==> Find(s, x).Some?
  {
    if k > 0 {
      FindOverwritten(s[1..], k - 1, it, x);
      assert s[k := it][1..] == s[1..][k - 1 := it];
    } else {
      assert s[k := it][1..] == s[1..];
    }
  }

  lemma AgreeAfterPush(s: Items, items: map<string, Element>, elems: seq<Element>, it: Item, e: Element)
    requires Agree(s, items, elems) && it.key !in items
    ensures Agree([it] + s, items[it.key := e], [e] + elems)
  {
    forall x | x in items[it.key := e] ensures Find([it] + s, x).Some? { FindPushed(s, it, x); }
    hide Find;
  }

  lemma FindPushed(s: Items, it: Item, x: string)
    ensures Find([it] + s, x) == if x == it.key then Some(it) else Find(s, x)
  {
    assert ([it] + s)[1..] == s;
  }

  lemma AgreeAfterRemoval(s: Items, items: map<string, Element>, elems: seq<Element>, k: nat)
    requires Agree(s, items, elems) && k < |s|
    ensures Agree(s[..k] + s[k + 1..], items - {s[k].key}, elems[..k] + elems[k + 1..])
  {
    var t := s[..k] + s[k + 1..];
    EntriesAfterRemoval(s, items, elems, k);
    WithoutAt(s, k);
    hide Find, Without, Distinct;
    forall x | x in items - {s[k].key} ensures Find(t, x).Some? { FindWithout(s, s[k].key, x); }
  }

  lemma EntriesAfterRemoval(s: Items, items: map<string, Element>, elems: seq<Element>, k: nat)
    requires Distinct(s) && |s| == |elems| && k < |s|
    requires forall i :: 0 <= i < |s| ==> s[i].key in items && items[s[i].key] == elems[i]
    ensures
      var t, rest, left := s[..k] + s[k + 1..], elems[..k] + elems[k + 1..], items - {s[k].key};
      Distinct(t) && |t| == |rest| && forall i :: 0 <= i < |t| ==> t[i].key in left && left[t[i].key] == rest[i]
  {
    var t, rest := s[..k] + s[k + 1..], elems[..k] + elems[k + 1..];
    forall i | 0 <= i < |t|
      ensures t[i] == s[if i < k then i else i + 1] && rest[i] == elems[if i < k then i else i + 1]
        && t[i].key != s[k].key
    {
    }
  }

  /** In a list with distinct keys, dropping a key drops one position. */
  lemma {:induction false} WithoutAt(s: Items, k: nat)
    requires Distinct(s) && k < |s|
    ensures Without(s, s[k].key) == s[..k] + s[k + 1..]
    ensures Find(s, s[k].key) == Some(s[k])
  {
    if k == 0 {
      WithoutAbsent(s[1..], s[0].key);
    } else {
      WithoutAt(s[1..], k - 1);
      assert s[..k] == [s[0]] + s[1..][..k - 1];
    }
  }

  lemma {:induction false} FindWithout(s: Items, k: string, x: string)
    ensures Find(Without(s, k), x) == if x == k then None else Find(s, x)
  {
    if s != [] {
      FindWithout(s[1..], k, x);
      assert ([s[0]] + Without(s[1..], k))[1..] == Without(s[1..], k);
      assert [] + Without(s[1..], k) == Without(s[1..], k);
    }
  }

  lemma NothingWithout(s: Items, k: string)
    requires Find(s, k).None?
    ensures Without(s, k) == s
  {
    WithoutAbsent(s, k);
  }

  lemma WithoutOverwritten(s: Items, k: nat, it: Item)
    requires Distinct(s) && k < |s| && s[k].key == it.key
    ensures Without(s[k := it], it.key) == Without(s, it.key) && |Without(s, it.key)| == |s| - 1
  {
    WithoutAt(s, k);
    WithoutAt(s[k := it], k);
  }

  function NotIn(gone: set<string>): string -> bool {
    (x: string) => x !in gone
  }

  lemma {:induction false} FilterSame(s: Items, f: string -> bool, g: string -> bool)
    requires forall it :: it in s ==> f(it.key) == g(it.key)
    ensures Filter(s, f) == Filter(s, g)
  {
    if s != [] { FilterSame(s[1..], f, g); }
  }

  lemma {:induction false} FilterNothing(s: Items)
    ensures Filter(s, NotIn({})) == s
  {
    if s != [] { FilterNothing(s[1..]); }
  }

  lemma {:induction false} FilterOneMore(s: Items, gone: set<string>, k: string)
    ensures Without(Filter(s, NotIn(gone)), k) == Filter(s, NotIn(gone + {k}))
  {
    if s != [] {
      FilterOneMore(s[1..], gone, k);
      var f := Filter(s[1..], NotIn(gone));
      assert ([s[0]] + f)[1..] == f && [] + f == f;
    }
  }

  lemma EmptyTogether(s: Items, items: map<string, Element>, elems: seq<Element>)
    requires Agree(s, items, elems)
    ensures s == [] <==> items == map[]
    ensures forall it :: it in s ==> it.key in items
  {
    assert s != [] ==> s[0].key in items;
    assert s == [] ==> forall k :: k in items ==> Find(s, k).Some?;
  }

  lemma ClearedAll(s: Items, gone: set<string>, pattern: Pattern)
    requires pattern.Glob? && forall it :: it in s ==> (it.key in gone <==> pattern.matches(it.key))
    ensures Filter(s, NotIn(gone)) == Filter(s, Unmatched(pattern))
  {
    FilterSame(s, NotIn(gone), Unmatched(pattern));
  }
}
