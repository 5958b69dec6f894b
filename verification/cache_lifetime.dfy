/** How long a value stored through the cache manager can be fetched. */
module CacheLifetimes {
  import opened Lru
  import opened LruLifetimes
  import opened Invalidation

  // ---------- the manager's calls as operations of its backend ----------

  /** What call `i` does to the entries; a malformed pattern stands for nothing. */
  function OpOf(c: Settings, trace: seq<Timed>, i: nat): Op
    requires i < |trace|
  {
    var call := trace[i].call;
    if !c.enabled then ClearPattern(Malformed)
    else
      match call
      case Fetch(k) => Get(BuildKey(c.prefix, [k]))
      case Store(k, v, ttl, _) => Set(BuildKey(c.prefix, [k]), v, if ttl <= 0 then c.defaultTtl else ttl)
      case Discard(k) => Delete(BuildKey(c.prefix, [k]))
      case Check(k) => Exists(BuildKey(c.prefix, [k]))
      case ClearAll => Clear
      case InvalidateTable(t) =>
        var keys := Tracked(Replay(c, trace[..i]).index, t);
        ClearPattern(Glob((x: string) => x in keys))
      case InvalidatePattern(p) => ClearPattern(p)
      case TrackTable(_, _) => ClearPattern(Malformed)
  }

  function Events(c: Settings, trace: seq<Timed>): (r: seq<Event>)
    ensures |r| == |trace|
  {
    if trace == [] then []
    else
      Events(c, trace[..|trace| - 1]) + [Event(OpOf(c, trace, |trace| - 1), trace[|trace| - 1].now)]
  }

  lemma {:induction false} EventIs(c: Settings, trace: seq<Timed>, i: nat)
    requires i < |trace|
    ensures Events(c, trace)[i] == Event(OpOf(c, trace, i), trace[i].now)
  {
    var m := |trace| - 1;
    if i < m {
      EventIs(c, trace[..m], i);
      assert trace[..m][..i] == trace[..i];
    }
  }

  lemma {:induction false} EventsBefore(c: Settings, trace: seq<Timed>, i: nat)
    requires i <= |trace|
    ensures Events(c, trace)[..i] == Events(c, trace[..i])
  {
    hide OpOf;
    if i == |trace| {
      assert trace[..i] == trace;
    } else {
      var m := |trace| - 1;
      EventsBefore(c, trace[..m], i);
      assert trace[..m][..i] == trace[..i];
    }
  }

  lemma {:induction false} SameFilter(s: Items, f: string -> bool, g: string -> bool)
    requires forall x :: f(x) == g(x)
    ensures Filter(s, f) == Filter(s, g)
  {
    if s != [] { SameFilter(s[1..], f, g); }
  }

  lemma PerformIsStep(c: Settings, trace: seq<Timed>, m: Managed)
    requires trace != [] && m == Replay(c, trace[..|trace| - 1])
    ensures
      var last := |trace| - 1;
      Perform(c, trace[last].call, trace[last].now, m).entries
        == Step(c.backend, OpOf(c, trace, last), trace[last].now, m.entries).0
  {
    hide Replay, Associate, BuildKey, Find;
    var call := trace[|trace| - 1].call;
    if c.enabled && call.InvalidateTable? {
      var keys := Tracked(m.index, call.table);
      var g := Glob((x: string) => x in keys);
      SameFilter(m.entries, NotAmong(keys), Unmatched(g));
    }
  }

  /** The manager's entries are those of a cache that runs these operations. */
  lemma {:induction false} EntriesAreRun(c: Settings, trace: seq<Timed>)
    ensures Replay(c, trace).entries == Run(c.backend, Events(c, trace))
  {
    if trace != [] {
      var init := trace[..|trace| - 1];
      EntriesAreRun(c, init);
      EventIs(c, trace, |trace| - 1);
      EventsBefore(c, trace, |trace| - 1);
      PerformIsStep(c, trace, Replay(c, init));
      hide Perform, Step, OpOf, Events;
    }
  }

  // ---------- values through the manager ----------

  /** How long a stored value lives: as long as asked for, or else the manager's default, or else the cache's. */
  function LifeOf(c: Settings, ttl: int): int {
    if ttl > 0 then ttl else if c.defaultTtl > 0 then c.defaultTtl else c.backend.defaultTtl
  }

  /** Call `i` replaces or removes what is stored under the (prefixed) key until then, or finds it expired. */
  ghost predicate Forgets(c: Settings, trace: seq<Timed>, i: nat, key: string, end: int)
    requires i < |trace|
  {
    match trace[i].call
    case Fetch(k) => BuildKey(c.prefix, [k]) == key && !IsLive(end, trace[i].now)
    case Check(k) => BuildKey(c.prefix, [k]) == key && !IsLive(end, trace[i].now)
    case Store(k, _, _, _) => BuildKey(c.prefix, [k]) == key
    case Discard(k) => BuildKey(c.prefix, [k]) == key
    case ClearAll => true
    case InvalidateTable(t) => Associated(c, trace[..i], t, key)
    case InvalidatePattern(p) => p.Glob? && p.matches(key)
    case TrackTable(_, _) => false
  }

  ghost predicate NothingForgets(c: Settings, trace: seq<Timed>, j: nat, i: nat, key: string, end: int)
    requires i <= |trace|
  {
    forall n :: j < n < i ==> !Forgets(c, trace, n, key, end)
  }

  /** Call `j` stored a value under the key, which lives at that time, and no call from there to `i` forgot it. */
  ghost predicate Remembered(c: Settings, trace: seq<Timed>, j: nat, i: nat, key: string, now: int)
    requires i <= |trace|
  {
    && j < i && trace[j].call.Store? && BuildKey(c.prefix, [trace[j].call.key]) == key
    && var end := trace[j].now + LifeOf(c, trace[j].call.ttl);
    IsLive(end, now) && NothingForgets(c, trace, j, i, key, end)
  }

  function Fetched(c: Settings, trace: seq<Timed>, k: string, now: int): Outcome {
    Step(c.backend, Get(BuildKey(c.prefix, [k])), now, Replay(c, trace).entries).1
  }

  lemma ForgettingIsDropping(c: Settings, trace: seq<Timed>, n: nat, key: string, end: int)
    requires c.enabled && n < |trace|
    ensures Drops(Events(c, trace)[n], key, end) <==> Forgets(c, trace, n, key, end)
  {
    EventIs(c, trace, n);
    if trace[n].call.InvalidateTable? { IndexIsHistory(c, trace[..n], trace[n].call.table, key); }
    hide Events, Associated, Replay, BuildKey;
  }

  lemma StoringIsSetting(c: Settings, trace: seq<Timed>, n: nat)
    requires c.enabled && n < |trace|
    ensures
      var e, call := Events(c, trace)[n], trace[n].call;
      && (e.op.Set? <==> call.Store?)
      && (call.Store? ==>
        && e.op.key == BuildKey(c.prefix, [call.key]) && e.op.value == call.value
        && EndOf(c.backend, e) == trace[n].now + LifeOf(c, call.ttl))
  {
    EventIs(c, trace, n);
    hide Events, Replay, BuildKey;
  }

  lemma SameLosses(c: Settings, trace: seq<Timed>, j: nat, key: string, end: int)
    requires c.enabled
    ensures NothingForgets(c, trace, j, |trace|, key, end) <==> NothingDrops(Events(c, trace), j, |trace|, key, end)
  {
    hide Forgets, Drops, Events;
    var events := Events(c, trace);
    forall n | j < n < |trace| ensures Drops(events[n], key, end) <==> Forgets(c, trace, n, key, end) {
      ForgettingIsDropping(c, trace, n, key, end);
    }
  }

  lemma StandingIsRemembered(c: Settings, trace: seq<Timed>, j: nat, key: string, now: int)
    requires c.enabled && j < |trace|
    ensures
      var events := Events(c, trace);
      Remembered(c, trace, j, |trace|, key, now) <==>
        StandsSince(c.backend, events, j, |trace|, key) && IsLive(EndOf(c.backend, events[j]), now)
  {
    StoringIsSetting(c, trace, j);
    hide Events, NothingForgets, NothingDrops, BuildKey, LifeOf, EndOf, IsLive;
    if trace[j].call.Store? { SameLosses(c, trace, j, key, trace[j].now + LifeOf(c, trace[j].call.ttl)); }
  }

  /**
   Whatever is fetched was stored under the key, has not outlived what was asked for, and has not been replaced,
   discarded, cleared or invalidated since.
   */
  lemma FetchedIsRemembered(c: Settings, trace: seq<Timed>, k: string, now: int) returns (j: nat)
    requires c.enabled && Fetched(c, trace, k, now).Hit?
    ensures Remembered(c, trace, j, |trace|, BuildKey(c.prefix, [k]), now)
    ensures Fetched(c, trace, k, now) == Hit(trace[j].call.value)
  {
    var key, events := BuildKey(c.prefix, [k]), Events(c, trace);
    var longer := events + [Event(Get(key), now)];
    EntriesAreRun(c, trace);
    assert longer[..|events|] == events;
    j := HitIsLive(c.backend, longer, |events|);
    StoringIsSetting(c, trace, j);
    StandingIsRemembered(c, trace, j, key, now);
    hide Events, Drops, BuildKey, Step, Remembered;
    assert longer[j] == events[j];
    forall n | j < n < |events| ensures !Drops(events[n], key, EndOf(c.backend, events[j])) {
      assert longer[n] == events[n];
    }
  }

  /** The other keys stored or fetched from call `j` to call `i`. */
  function UsedSince(c: Settings, trace: seq<Timed>, j: nat, i: nat, key: string): set<string>
    requires i <= |trace|
  {
    set n | j < n < i && (trace[n].call.Store? || trace[n].call.Fetch?)
      && BuildKey(c.prefix, [trace[n].call.key]) != key
      :: BuildKey(c.prefix, [trace[n].call.key])
  }

  lemma TouchedAreUsed(c: Settings, trace: seq<Timed>, j: nat, key: string, longer: seq<Event>)
    requires c.enabled && |longer| == |trace| + 1 && longer[..|trace|] == Events(c, trace)
    ensures |TouchedSince(c.backend, longer, j, |trace|, key)| <= |UsedSince(c, trace, j, |trace|, key)|
  {
    var touched, used := TouchedSince(c.backend, longer, j, |trace|, key), UsedSince(c, trace, j, |trace|, key);
    forall x | x in touched ensures x in used {
      var n :| j < n < |trace| && x == KeyOf(longer[n].op) && x != key && Touches(c.backend, longer, n, x);
      EventIs(c, trace, n);
      assert longer[n] == longer[..|trace|][n];
    }
    Subset(touched, used);
  }

  /** And what is remembered is fetched, unless as many other keys have been used since as the cache holds. */
  lemma RememberedIsFetched(c: Settings, trace: seq<Timed>, k: string, now: int, j: nat)
    requires c.enabled && Remembered(c, trace, j, |trace|, BuildKey(c.prefix, [k]), now)
    requires |UsedSince(c, trace, j, |trace|, BuildKey(c.prefix, [k]))| < c.backend.capacity
    ensures Fetched(c, trace, k, now) == Hit(trace[j].call.value)
  {
    var key, events := BuildKey(c.prefix, [k]), Events(c, trace);
    var longer := events + [Event(Get(key), now)];
    EntriesAreRun(c, trace);
    assert longer[..|events|] == events;
    StoringIsSetting(c, trace, j);
    StandingIsRemembered(c, trace, j, key, now);
    TouchedAreUsed(c, trace, j, key, longer);
    hide Events, Drops, BuildKey, Step, Remembered, UsedSince, TouchedSince;
    assert longer[j] == events[j];
    forall n | j < n < |events| ensures !Drops(longer[n], key, EndOf(c.backend, longer[j])) {
      assert longer[n] == events[n];
    }
    LiveEntryHits(c.backend, longer, j, |events|);
  }
}
