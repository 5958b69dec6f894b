/** The cache manager over an in-memory backend. */
module CacheManagers {
  import opened Lru
  import opened Invalidation
  import opened MemoryCaches

  class CacheManager {
    const settings: Settings
    const backend: MemoryCache
    /** Compiles a glob; the pattern language itself is not modelled. */
    const compile: string -> Pattern
    var tableKeys: Index
    var hits: nat
    var misses: nat

    ghost function State(): Managed
      reads this, backend
    {
      Managed(backend.contents, tableKeys)
    }

    ghost predicate Valid()
      reads this, backend, backend.order, backend.order.root, backend.order.elems
    {
      backend.Valid() && settings.backend == Config(backend.capacity, backend.defaultTtl)
    }

    constructor (enabled: bool, prefix: string, maxSize: int, defaultTtl: int, compile: string -> Pattern)
      requires maxSize > 0 && defaultTtl > 0
      ensures Valid() && State() == Managed([], map[]) && fresh(backend) && hits == misses == 0
      ensures settings == Settings(enabled, prefix, defaultTtl, Config(maxSize, defaultTtl)) && this.compile == compile
    {
      var b := new MemoryCache(maxSize, defaultTtl);
      backend := b;
      settings := Settings(enabled, prefix, defaultTtl, Config(maxSize, defaultTtl));
      this.compile := compile;
      tableKeys := map[];
      hits, misses := 0, 0;
    }

    method Get(key: string, now: int) returns (r: Outcome)
      requires Valid()
      modifies this, backend, backend.order, backend.order.root, backend.order.elems
      ensures Valid() && State() == Perform(settings, Fetch(key), now, old(State()))
      ensures r == if settings.enabled
        then Step(settings.backend, Op.Get(BuildKey(settings.prefix, [key])), now, old(State()).entries).1 else Miss
      ensures settings.enabled ==> hits + misses == old(hits) + old(misses) + 1
    {
      hide MemoryCache.Valid, Filter, Find, Without, Associate, BuildKey;
      if !settings.enabled { return Miss; }
      r := backend.Get(BuildKey(settings.prefix, [key]), now);
      if r.Hit? { hits := hits + 1; } else { misses := misses + 1; }
    }

    method Set(key: string, value: string, ttl: int, tables: seq<string>, now: int)
      requires Valid()
      modifies this, backend, backend.order, backend.order.root, backend.order.elems
      ensures Valid() && State() == Perform(settings, Store(key, value, ttl, tables), now, old(State()))
    {
      hide MemoryCache.Valid, Filter, Find, Without, Associate, BuildKey;
      if !settings.enabled { return; }
      var prefixed := BuildKey(settings.prefix, [key]);
      backend.Set(prefixed, value, if ttl <= 0 then settings.defaultTtl else ttl, now);
      Track(tables, prefixed);
    }

    /** The loop of `Set` over the table names. */
    method Track(tables: seq<string>, prefixed: string)
      modifies `tableKeys
      ensures tableKeys == Associate(old(tableKeys), tables, prefixed)
    {
      for i := 0 to |tables|
        invariant tableKeys == Associate(old(tableKeys), tables[..i], prefixed)
      {
        assert tables[..i + 1][..i] == tables[..i];
        var t := tables[i];
        if t !in tableKeys { tableKeys := tableKeys[t := {}]; }
        tableKeys := tableKeys[t := tableKeys[t] + {prefixed}];
      }
      assert tables[..|tables|] == tables;
    }

    method Delete(key: string)
      requires Valid()
      modifies this, backend, backend.order, backend.order.root, backend.order.elems
      ensures Valid() && State() == Perform(settings, Discard(key), 0, old(State()))
    {
      hide MemoryCache.Valid, Filter, Find, Without, Associate, BuildKey;
      if !settings.enabled { return; }
      var prefixed := BuildKey(settings.prefix, [key]);
      backend.Delete(prefixed);
      UntrackKey(prefixed);
    }

    /** The loop of `Delete` over the tables, in whatever order they come. */
    method UntrackKey(prefixed: string)
      modifies `tableKeys
      ensures tableKeys == Untrack(old(tableKeys), prefixed)
    {
      ghost var before := tableKeys;
      var tables := tableKeys.Keys;
      while tables != {}
        invariant tables <= tableKeys.Keys == before.Keys
        invariant forall t ::
          t in tableKeys ==> tableKeys[t] == if t in tables then before[t] else before[t] - {prefixed}
      {
        var t :| t in tables;
        tableKeys := tableKeys[t := tableKeys[t] - {prefixed}];
        tables := tables - {t};
      }
    }

    method Exists(key: string, now: int) returns (b: bool)
      requires Valid()
      modifies this, backend, backend.order, backend.order.root, backend.order.elems
      ensures Valid() && State() == Perform(settings, Check(key), now, old(State()))
      ensures settings.enabled ==>
        Found(b) == Step(settings.backend, Op.Exists(BuildKey(settings.prefix, [key])), now, old(State()).entries).1
      ensures !settings.enabled ==> !b
    {
      hide MemoryCache.Valid, Filter, Find, Without, Associate, BuildKey;
      if !settings.enabled { return false; }
      b := backend.Exists(BuildKey(settings.prefix, [key]), now);
    }

    method Clear() returns (n: nat)
      requires Valid()
      modifies this, backend
      ensures Valid() && State() == Perform(settings, ClearAll, 0, old(State()))
      ensures n == if settings.enabled then |old(State()).entries| else 0
      ensures settings.enabled ==> hits == misses == 0
    {
      if !settings.enabled { return 0; }
      n := backend.Clear();
      tableKeys := map[];
      hits, misses := 0, 0;
    }

    method InvalidateTable(table: string) returns (count: nat)
      requires Valid()
      modifies this, backend, backend.order, backend.order.root, backend.order.elems
      ensures Valid() && State() == Perform(settings, Call.InvalidateTable(table), 0, old(State()))
      ensures count == if settings.enabled then |Tracked(old(tableKeys), table)| else 0
    {
      hide MemoryCache.Valid, Filter, Find, Without, Associate, BuildKey;
      if !settings.enabled { return 0; }
      var keys := if table in tableKeys then tableKeys[table] else {};
      tableKeys := tableKeys[table := {}];
      count := DeleteKeys(keys);
    }

    /** The loop of `InvalidateTable` over the tracked keys, in whatever order they come. */
    method DeleteKeys(keys: set<string>) returns (count: nat)
      requires Valid()
      modifies backend, backend.order, backend.order.root, backend.order.elems
      ensures Valid() && backend.contents == Filter(old(backend.contents), NotAmong(keys)) && count == |keys|
    {
      hide MemoryCache.Valid, Filter, Find, Without, NotAmong;
      ghost var all, seen, order, gone := backend.contents, backend.order.elems, backend.order, {};
      count := 0;
      var rest := keys;
      KeepsAll(all);
      while rest != {}
        invariant Valid() && backend.order == order && forall e :: e in order.elems ==> e in seen
        invariant rest !! gone && keys == rest + gone && count == |gone|
          && backend.contents == Filter(all, NotAmong(gone))
      {
        var k :| k in rest;
        DropOneMore(all, gone, k);
        assert forall i :: 0 <= i < |order.elems| ==> order.elems[i] in seen;
        backend.Delete(k);
        rest, gone, count := rest - {k}, gone + {k}, count + 1;
      }
    }

    method InvalidatePattern(pattern: string) returns (r: Outcome)
      requires Valid()
      modifies this, backend, backend.order, backend.order.root, backend.order.elems
      ensures Valid()
      ensures State() == Perform(settings, Call.InvalidatePattern(compile(BuildKey(settings.prefix, [pattern]))), 0,
        old(State()))
    {
      hide MemoryCache.Valid, Filter, Find, Without, Associate, BuildKey;
      if !settings.enabled { return Count(0); }
      r := backend.ClearPattern(compile(BuildKey(settings.prefix, [pattern])));
    }

    method TrackTable(table: string, key: string)
      requires Valid()
      modifies this
      ensures Valid() && State() == Perform(settings, Call.TrackTable(table, key), 0, old(State()))
    {
      hide MemoryCache.Valid, Associate, BuildKey;
      Track([table], BuildKey(settings.prefix, [key]));
    }
  }

  lemma {:induction false} KeepsAll(s: Items)
    ensures Filter(s, NotAmong({})) == s
  {
    if s != [] { KeepsAll(s[1..]); }
  }

  lemma {:induction false} DropOneMore(s: Items, gone: set<string>, k: string)
    ensures Without(Filter(s, NotAmong(gone)), k) == Filter(s, NotAmong(gone + {k}))
  {
    if s != [] {
      DropOneMore(s[1..], gone, k);
      var f := Filter(s[1..], NotAmong(gone));
      assert ([s[0]] + f)[1..] == f && [] + f == f;
    }
  }

  function Live(s: Items, keys: set<string>): set<string> {
    set k | k in keys && Find(s, k).Some?
  }

  lemma TailLacksHead(s: Items)
    requires s != [] && Distinct(s)
    ensures Find(s[1..], s[0].key).None?
  {
    assert forall it :: it in s[1..] ==> it.key != s[0].key;
  }

  lemma {:induction false} DroppedAreLive(s: Items, keys: set<string>)
    requires Distinct(s)
    ensures |s| - |Filter(s, NotAmong(keys))| == |Live(s, keys)|
  {
    if s == [] {
      assert Live(s, keys) == {};
    } else {
      DroppedAreLive(s[1..], keys);
      LiveStep(s, keys);
      hide Live, Find, Distinct;
    }
  }

  lemma LiveStep(s: Items, keys: set<string>)
    requires s != [] && Distinct(s)
    ensures |Live(s, keys)| == |Live(s[1..], keys)| + if s[0].key in keys then 1 else 0
  {
    TailLacksHead(s);
    hide Distinct;
    if s[0].key in keys {
      assert Live(s, keys) == Live(s[1..], keys) + {s[0].key};
    } else {
      assert Live(s, keys) == Live(s[1..], keys);
    }
  }

  /**
   The count `InvalidateTable` reports is the number of entries it drops exactly if every tracked key still has one.
   */
  lemma CountIsDropped(s: Items, keys: set<string>)
    requires Distinct(s)
    ensures |s| - |Filter(s, NotAmong(keys))| <= |keys|
    ensures |s| - |Filter(s, NotAmong(keys))| == |keys| <==> forall k :: k in keys ==> Find(s, k).Some?
  {
    DroppedAreLive(s, keys);
    var live := Live(s, keys);
    assert keys == live + (keys - live) && |keys| == |live| + |keys - live|;
    if forall k :: k in keys ==> Find(s, k).Some? { assert live == keys; }
    if |live| == |keys| { assert keys - live == {}; assert forall k :: k in keys ==> k in live; }
  }
}
