/**
 The cache manager as a value: prefixed keys, the index from tables to keys, and what invalidating a
 table removes after any run.
 */
module Invalidation {
  import opened Lru
  import Text

  type Index = map<string, set<string>>

  datatype Settings = Settings(enabled: bool, prefix: string, defaultTtl: int, backend: Config)

  datatype Managed = Managed(entries: Items, index: Index)

  datatype Call =
    | Fetch(key: string)
    | Store(key: string, value: string, ttl: int, tables: seq<string>)
    | Discard(key: string)
    | Check(key: string)
    | ClearAll
    | InvalidateTable(table: string)
    | InvalidatePattern(pattern: Pattern)
    | TrackTable(table: string, key: string)

  datatype Timed = Timed(call: Call, now: int)

  function BuildKey(prefix: string, parts: seq<string>): string {
    var key := Text.Join(parts, ":");
    if prefix == "" || prefix <= key then key else prefix + key
  }

  /** A key already prefixed is not prefixed again. */
  lemma BuildKeyIsIdempotent(prefix: string, parts: seq<string>)
    ensures BuildKey(prefix, [BuildKey(prefix, parts)]) == BuildKey(prefix, parts)
    ensures prefix <= BuildKey(prefix, parts)
  {
  }

  /** The parts of a key are joined by colons, whichever parts those are. */
  lemma KeyPartsAreJoined(prefix: string, a: seq<string>, b: seq<string>)
    requires a != [] && b != []
    ensures
      var key := BuildKey("", a) + ":" + BuildKey("", b);
      BuildKey("", a + b) == key && BuildKey(prefix, a + b) == BuildKey(prefix, [key])
    ensures BuildKey("", [a[0]]) == a[0]
  {
    Text.JoinConcat(a, b, ":");
  }

  /** Two keys meet in one cache slot exactly if they are equal or one is the other with the prefix put in front. */
  lemma BuildKeyCollisions(prefix: string, a: string, b: string)
    ensures BuildKey(prefix, [a]) == BuildKey(prefix, [b]) <==>
            a == b || (!(prefix <= a) && b == prefix + a) || (!(prefix <= b) && a == prefix + b)
  {
    var ka, kb := BuildKey(prefix, [a]), BuildKey(prefix, [b]);
    if !(prefix <= a) && !(prefix <= b) {
      assert ka[|prefix|..] == a && kb[|prefix|..] == b;
    }
  }

  function Tracked(index: Index, table: string): set<string> {
    if table in index then index[table] else {}
  }

  function Associate(index: Index, tables: seq<string>, key: string): Index {
    if tables == [] then index
    else
      var before := Associate(index, tables[..|tables| - 1], key);
      var t := tables[|tables| - 1];
      before[t := Tracked(before, t) + {key}]
  }

  function Untrack(index: Index, key: string): Index {
    map t | t in index :: index[t] - {key}
  }

  function NotAmong(keys: set<string>): string -> bool {
    (x: string) => x !in keys
  }

  function Perform(c: Settings, call: Call, now: int, m: Managed): Managed {
    if call.TrackTable? then
      m.(index := Associate(m.index, [call.table], BuildKey(c.prefix, [call.key])))
    else if !c.enabled then m
    else
      match call
      case Fetch(k) => m.(entries := Step(c.backend, Get(BuildKey(c.prefix, [k])), now, m.entries).0)
      case Store(k, v, ttl, tables) =>
        Managed(
          Step(c.backend, Set(BuildKey(c.prefix, [k]), v, if ttl <= 0 then c.defaultTtl else ttl), now, m.entries).0,
          Associate(m.index, tables, BuildKey(c.prefix, [k])))
      case Discard(k) => Managed(Without(m.entries, BuildKey(c.prefix, [k])), Untrack(m.index, BuildKey(c.prefix, [k])))
      case Check(k) => m.(entries := Step(c.backend, Exists(BuildKey(c.prefix, [k])), now, m.entries).0)
      case ClearAll => Managed([], map[])
      case InvalidateTable(t) => Managed(Filter(m.entries, NotAmong(Tracked(m.index, t))), m.index[t := {}])
      case InvalidatePattern(p) => m.(entries := Step(c.backend, ClearPattern(p), now, m.entries).0)
  }

  function Replay(c: Settings, trace: seq<Timed>): Managed {
    if trace == [] then Managed([], map[])
    else Perform(c, trace[|trace| - 1].call, trace[|trace| - 1].now, Replay(c, trace[..|trace| - 1]))
  }

  // ---------- what the history says ----------

  /** The call ties the (prefixed) key to the table. */
  predicate Ties(c: Settings, call: Call, table: string, key: string) {
    || (call.TrackTable? && call.table == table && BuildKey(c.prefix, [call.key]) == key)
    || (c.enabled && call.Store? && table in call.tables && BuildKey(c.prefix, [call.key]) == key)
  }

  /** The call unties them. */
  predicate Unties(c: Settings, call: Call, table: string, key: string) {
    c.enabled && (call.ClearAll? || (call.Discard? && BuildKey(c.prefix, [call.key]) == key)
      || (call.InvalidateTable? && call.table == table))
  }

  /** Some call tied the key to the table, and none since untied them. */
  ghost predicate Associated(c: Settings, trace: seq<Timed>, table: string, key: string) {
    exists i :: 0 <= i < |trace| && Ties(c, trace[i].call, table, key)
      && forall j :: i < j < |trace| ==> !Unties(c, trace[j].call, table, key)
  }

  /** The latest call that stored the key named the table. */
  ghost predicate LatestStoreNames(c: Settings, trace: seq<Timed>, table: string, key: string) {
    exists i ::
      0 <= i < |trace| && trace[i].call.Store? && BuildKey(c.prefix, [trace[i].call.key]) == key
      && table in trace[i].call.tables
      && forall j :: i < j < |trace| ==> !(trace[j].call.Store? && BuildKey(c.prefix, [trace[j].call.key]) == key)
  }

  lemma AssociatedStep(c: Settings, trace: seq<Timed>, table: string, key: string)
    requires trace != []
    ensures
      var init, call := trace[..|trace| - 1], trace[|trace| - 1].call;
      Associated(c, trace, table, key) <==>
        Ties(c, call, table, key) || (Associated(c, init, table, key) && !Unties(c, call, table, key))
  {
    var init, call := trace[..|trace| - 1], trace[|trace| - 1].call;
    hide Ties, Unties;
    if Ties(c, call, table, key) { assert Ties(c, trace[|trace| - 1].call, table, key); }
    if Associated(c, init, table, key) && !Unties(c, call, table, key) { StaysAssociated(c, trace, table, key); }
    if Associated(c, trace, table, key) && !Ties(c, call, table, key) { WasAssociated(c, trace, table, key); }
  }

  lemma StaysAssociated(c: Settings, trace: seq<Timed>, table: string, key: string)
    requires trace != [] && Associated(c, trace[..|trace| - 1], table, key)
      && !Unties(c, trace[|trace| - 1].call, table, key)
    ensures Associated(c, trace, table, key)
  {
    hide Ties, Unties;
    var init := trace[..|trace| - 1];
    var i :| 0 <= i < |init| && Ties(c, init[i].call, table, key)
      && forall j :: i < j < |init| ==> !Unties(c, init[j].call, table, key);
    assert Ties(c, trace[i].call, table, key);
    forall j | i < j < |trace| ensures !Unties(c, trace[j].call, table, key) {
      if j < |init| { assert trace[j] == init[j]; }
    }
  }

  lemma WasAssociated(c: Settings, trace: seq<Timed>, table: string, key: string)
    requires trace != [] && Associated(c, trace, table, key) && !Ties(c, trace[|trace| - 1].call, table, key)
    ensures Associated(c, trace[..|trace| - 1], table, key) && !Unties(c, trace[|trace| - 1].call, table, key)
  {
    hide Ties, Unties;
    var init := trace[..|trace| - 1];
    var i :| 0 <= i < |trace| && Ties(c, trace[i].call, table, key)
      && forall j :: i < j < |trace| ==> !Unties(c, trace[j].call, table, key);
    assert init[i] == trace[i];
  }

  lemma {:induction false} AssociateMeans(index: Index, tables: seq<string>, key: string, t: string, k: string)
    ensures k in Tracked(Associate(index, tables, key), t) <==> k in Tracked(index, t) || (t in tables && k == key)
  {
    if tables != [] {
      AssociateMeans(index, tables[..|tables| - 1], key, t, k);
      assert tables == tables[..|tables| - 1] + [tables[|tables| - 1]];
    }
  }

  /** The index holds exactly the associations the history says are in force. */
  lemma {:induction false} IndexIsHistory(c: Settings, trace: seq<Timed>, table: string, key: string)
    ensures key in Tracked(Replay(c, trace).index, table) <==> Associated(c, trace, table, key)
  {
    if trace != [] {
      var m, call := Replay(c, trace[..|trace| - 1]), trace[|trace| - 1].call;
      IndexIsHistory(c, trace[..|trace| - 1], table, key);
      AssociatedStep(c, trace, table, key);
      if call.TrackTable? { AssociateMeans(m.index, [call.table], BuildKey(c.prefix, [call.key]), table, key); }
      if call.Store? { AssociateMeans(m.index, call.tables, BuildKey(c.prefix, [call.key]), table, key); }
    }
  }

  lemma LatestStoreStep(c: Settings, trace: seq<Timed>, table: string, key: string)
    requires trace != []
    ensures
      var init, call := trace[..|trace| - 1], trace[|trace| - 1].call;
      LatestStoreNames(c, trace, table, key) <==>
        if call.Store? && BuildKey(c.prefix, [call.key]) == key
          then table in call.tables else LatestStoreNames(c, init, table, key)
  {
    var init, call := trace[..|trace| - 1], trace[|trace| - 1].call;
    hide BuildKey;
    if LatestStoreNames(c, init, table, key) {
      var i :| 0 <= i < |init| && init[i].call.Store? && BuildKey(c.prefix, [init[i].call.key]) == key
        && table in init[i].call.tables
        && forall j :: i < j < |init| ==> !(init[j].call.Store? && BuildKey(c.prefix, [init[j].call.key]) == key);
      assert trace[i] == init[i];
    }
    if LatestStoreNames(c, trace, table, key) {
      var i :| 0 <= i < |trace| && trace[i].call.Store? && BuildKey(c.prefix, [trace[i].call.key]) == key
        && table in trace[i].call.tables
        && forall j :: i < j < |trace| ==> !(trace[j].call.Store? && BuildKey(c.prefix, [trace[j].call.key]) == key);
      if i < |init| { assert init[i] == trace[i]; }
    }
  }

  /** Entries come from Store alone. */
  lemma EntriesComeFromStores(c: Settings, call: Call, now: int, m: Managed, it: Item)
    requires it in Perform(c, call, now, m).entries
    ensures (c.enabled && call.Store? && BuildKey(c.prefix, [call.key]) == it.key) || it in m.entries
  {
    hide BuildKey;
    if c.enabled && !call.TrackTable? {
      match call
      case Fetch(k) => WithoutMeans(m.entries, BuildKey(c.prefix, [k]));
      case Store(k, v, ttl, tables) => WithoutMeans(m.entries, BuildKey(c.prefix, [k]));
      case Discard(k) => WithoutMeans(m.entries, BuildKey(c.prefix, [k]));
      case Check(k) => WithoutMeans(m.entries, BuildKey(c.prefix, [k]));
      case ClearAll =>
      case InvalidateTable(t) => FilterElements(m.entries, NotAmong(Tracked(m.index, t)));
      case InvalidatePattern(p) => if p.Glob? { FilterElements(m.entries, Unmatched(p)); }
    }
  }

  lemma {:induction false} DisabledStoresNothing(c: Settings, trace: seq<Timed>)
    requires !c.enabled
    ensures Replay(c, trace).entries == []
  {
    if trace != [] { DisabledStoresNothing(c, trace[..|trace| - 1]); }
  }

  /** Nothing live is forgotten: an entry whose latest Store named a table is still associated with it. */
  lemma {:induction false} LiveNamesAreAssociated(c: Settings, trace: seq<Timed>, table: string, it: Item)
    requires it in Replay(c, trace).entries && LatestStoreNames(c, trace, table, it.key)
    ensures Associated(c, trace, table, it.key)
  {
    var init, e := trace[..|trace| - 1], trace[|trace| - 1];
    var m := Replay(c, init);
    hide BuildKey, LatestStoreNames, Associated;
    if !c.enabled { DisabledStoresNothing(c, trace); }
    LatestStoreStep(c, trace, table, it.key);
    AssociatedStep(c, trace, table, it.key);
    EntriesComeFromStores(c, e.call, e.now, m, it);
    if !(e.call.Store? && BuildKey(c.prefix, [e.call.key]) == it.key) {
      LiveNamesAreAssociated(c, init, table, it);
      if Unties(c, e.call, table, it.key) {
        IndexIsHistory(c, init, table, it.key);
        if e.call.Discard? { WithoutMeans(m.entries, it.key); }
        if e.call.InvalidateTable? { FilterElements(m.entries, NotAmong(Tracked(m.index, table))); }
      }
    }
  }

  /** Invalidating a table removes exactly the entries associated with it... */
  lemma InvalidateTableIsExact(c: Settings, trace: seq<Timed>, table: string, now: int)
    requires c.enabled
    ensures
      var after := Replay(c, trace + [Timed(InvalidateTable(table), now)]).entries;
      forall it :: it in after <==> it in Replay(c, trace).entries && !Associated(c, trace, table, it.key)
  {
    var trace' := trace + [Timed(InvalidateTable(table), now)];
    assert trace'[..|trace'| - 1] == trace;
    var m := Replay(c, trace);
    FilterElements(m.entries, NotAmong(Tracked(m.index, table)));
    forall it | it in m.entries ensures it.key in Tracked(m.index, table) <==> Associated(c, trace, table, it.key) {
      IndexIsHistory(c, trace, table, it.key);
    }
  }

  /** ...and so leaves none whose latest Store named it. */
  lemma InvalidateTableIsComplete(c: Settings, trace: seq<Timed>, table: string, now: int, it: Item)
    requires c.enabled && it in Replay(c, trace + [Timed(InvalidateTable(table), now)]).entries
    ensures !LatestStoreNames(c, trace, table, it.key)
  {
    InvalidateTableIsExact(c, trace, table, now);
    if LatestStoreNames(c, trace, table, it.key) { LiveNamesAreAssociated(c, trace, table, it); }
  }
}
