/**
 The cache as a value: the entries from most to least recently used. What each operation does to the
 list, and what that means over whole runs.
 */
module Lru {
  import opened Wrappers

  /** `expiresAt` is a point in time; the zero time never expires. */
  datatype Item = Item(key: string, value: string, expiresAt: int)

  type Items = seq<Item>

  const ZERO_TIME := 0

  predicate Expired(it: Item, now: int) {
    it.expiresAt != ZERO_TIME && !(now < it.expiresAt)
  }

  predicate Distinct(s: Items) {
    forall i, j :: 0 <= i < j < |s| ==> s[i].key != s[j].key
  }

  function Find(s: Items, k: string): (r: Option<Item>)
    ensures r.Some? ==> r.value in s && r.value.key == k
    ensures r.None? ==> forall i :: 0 <= i < |s| ==> s[i].key != k
  {
    if s == [] then None else if s[0].key == k then Some(s[0]) else Find(s[1..], k)
  }

  function Filter(s: Items, keep: string -> bool): Items {
    if s == [] then [] else (if keep(s[0].key) then [s[0]] else []) + Filter(s[1..], keep)
  }

  function Other(k: string): string -> bool {
    (x: string) => x != k
  }

  function Without(s: Items, k: string): Items {
    Filter(s, Other(k))
  }

  function Truncate(s: Items, capacity: nat): Items {
    if |s| <= capacity then s else s[..capacity]
  }

  // ---------- operations ----------

  /** A glob that compiled, or one that `path.Match` rejects. */
  datatype Pattern = Glob(matches: string -> bool) | Malformed

  datatype Op =
    | Get(key: string)
    | Set(key: string, value: string, ttl: int)
    | Delete(key: string)
    | Exists(key: string)
    | Clear
    | ClearPattern(pattern: Pattern)

  datatype Outcome = Hit(value: string) | Miss | Found(present: bool) | Count(n: nat) | Done | BadPattern

  datatype Config = Config(capacity: nat, defaultTtl: int)

  function Unmatched(g: Pattern): string -> bool
    requires g.Glob?
  {
    (x: string) => !g.matches(x)
  }

  /** Entries and answer after one operation at time `now`. */
  function Step(c: Config, op: Op, now: int, s: Items): (Items, Outcome) {
    match op
    case Get(k) => (
      match Find(s, k)
      case None => (s, Miss)
      case Some(it) => if Expired(it, now) then (Without(s, k), Miss) else ([it] + Without(s, k), Hit(it.value)))
    case Set(k, v, ttl) =>
      (Truncate([Item(k, v, now + if ttl <= 0 then c.defaultTtl else ttl)] + Without(s, k), c.capacity), Done)
    case Delete(k) => (Without(s, k), Done)
    case Exists(k) => (
      match Find(s, k)
      case None => (s, Found(false))
      case Some(it) => if Expired(it, now) then (Without(s, k), Found(false)) else (s, Found(true)))
    case Clear => ([], Count(|s|))
    case ClearPattern(Malformed) => if s == [] then (s, Count(0)) else (s, BadPattern)
    case ClearPattern(g) => FilterShortens(s, Unmatched(g)); (Filter(s, Unmatched(g)),
      Count(|s| - |Filter(s, Unmatched(g))|))
  }

  datatype Event = Event(op: Op, now: int)

  function Run(c: Config, trace: seq<Event>): Items {
    if trace == [] then []
    else Step(c, trace[|trace| - 1].op, trace[|trace| - 1].now, Run(c, trace[..|trace| - 1])).0
  }

  /** The answer to the `i`-th operation of a run. */
  function Answer(c: Config, trace: seq<Event>, i: nat): Outcome
    requires i < |trace|
  {
    Step(c, trace[i].op, trace[i].now, Run(c, trace[..i])).1
  }

  // ---------- lists ----------

  lemma FilterShortens(s: Items, keep: string -> bool)
    ensures |Filter(s, keep)| <= |s|
  {
  }

  lemma {:induction false} FilterElements(s: Items, keep: string -> bool)
    ensures forall it :: it in Filter(s, keep) <==> it in s && keep(it.key)
    ensures Distinct(s) ==> Distinct(Filter(s, keep))
    ensures |Filter(s, keep)| <= |s|
  {
    if s != [] {
      FilterElements(s[1..], keep);
      assert s == [s[0]] + s[1..];
      var f := Filter(s[1..], keep);
      assert forall i :: 0 <= i < |f| ==> f[i] in f;
    }
  }

  lemma {:induction false} WithoutAbsent(s: Items, k: string)
    requires forall i :: 0 <= i < |s| ==> s[i].key != k
    ensures Without(s, k) == s
  {
    if s != [] { WithoutAbsent(s[1..], k); }
  }

  lemma {:induction false} WithoutPresent(s: Items, k: string)
    requires Distinct(s) && Find(s, k).Some?
    ensures |Without(s, k)| == |s| - 1
  {
    if s[0].key == k { WithoutAbsent(s[1..], k); } else { WithoutPresent(s[1..], k); }
  }

  lemma WithoutMeans(s: Items, k: string)
    ensures forall it :: it in Without(s, k) <==> it in s && it.key != k
    ensures Distinct(s) ==> Distinct(Without(s, k))
    ensures |Without(s, k)| <= |s|
  {
    FilterElements(s, Other(k));
  }

  /** Keys stay distinct and the capacity is never exceeded. */
  lemma StepKeepsBounds(c: Config, op: Op, now: int, s: Items)
    requires Distinct(s) && |s| <= c.capacity
    ensures Distinct(Step(c, op, now, s).0) && |Step(c, op, now, s).0| <= c.capacity
  {
    match op
    case Get(k) => WithoutMeans(s, k); if Find(s, k).Some? { WithoutPresent(s, k); }
    case Set(k, v, ttl) => WithoutMeans(s, k);
    case Delete(k) => WithoutMeans(s, k);
    case Exists(k) => WithoutMeans(s, k);
    case Clear =>
    case ClearPattern(g) => if g.Glob? { FilterElements(s, Unmatched(g)); }
  }

  lemma {:induction false} RunKeepsBounds(c: Config, trace: seq<Event>)
    ensures Distinct(Run(c, trace)) && |Run(c, trace)| <= c.capacity
  {
    if trace != [] {
      RunKeepsBounds(c, trace[..|trace| - 1]);
      StepKeepsBounds(c, trace[|trace| - 1].op, trace[|trace| - 1].now, Run(c, trace[..|trace| - 1]));
    }
  }

  // ---------- inclusion: a smaller cache inside a larger one ----------

  predicate Sub(a: Items, b: Items) {
    a == [] || (b != [] && ((a[0] == b[0] && Sub(a[1..], b[1..])) || Sub(a, b[1..])))
  }

  lemma {:induction false} SubElements(a: Items, b: Items)
    requires Sub(a, b)
    ensures |a| <= |b| && forall it :: it in a ==> it in b
  {
    if a != [] {
      if a[0] == b[0] && Sub(a[1..], b[1..]) {
        SubElements(a[1..], b[1..]);
        assert a == [a[0]] + a[1..];
      } else {
        SubElements(a, b[1..]);
      }
    }
  }

  /** Filtering keeps the one inside the other, and takes at least as much from the larger. */
  lemma {:induction false} SubFilter(a: Items, b: Items, keep: string -> bool)
    requires Sub(a, b)
    ensures Sub(Filter(a, keep), Filter(b, keep))
    ensures |a| - |Filter(a, keep)| <= |b| - |Filter(b, keep)|
  {
    if a == [] {
      FilterElements(b, keep);
    } else if a[0] == b[0] && Sub(a[1..], b[1..]) {
      SubFilter(a[1..], b[1..], keep);
      var x := if keep(a[0].key) then [a[0]] else [];
      SubPrefix(x, Filter(a[1..], keep), Filter(b[1..], keep));
    } else {
      SubFilter(a, b[1..], keep);
      var f := Filter(b[1..], keep);
      var x := if keep(b[0].key) then [b[0]] else [];
      assert (x + f)[|x|..] == f;
    }
  }

  lemma SubPrefix(x: Items, a: Items, b: Items)
    requires |x| <= 1 && Sub(a, b)
    ensures Sub(x + a, x + b)
  {
    if x == [] {
      assert x + a == a && x + b == b;
    } else {
      assert (x + a)[1..] == a && (x + b)[1..] == b;
    }
  }

  lemma {:induction false} SubInit(a: Items, b: Items)
    requires Sub(a, b) && a != []
    ensures Sub(a[..|a| - 1], b[..|b| - 1])
  {
    if a[0] == b[0] && Sub(a[1..], b[1..]) {
      if |a| > 1 {
        SubElements(a[1..], b[1..]);
        SubInit(a[1..], b[1..]);
        assert a[..|a| - 1][1..] == a[1..][..|a| - 2] && b[..|b| - 1][1..] == b[1..][..|b| - 2];
      }
    } else {
      SubElements(a, b[1..]);
      SubInit(a, b[1..]);
      assert b[..|b| - 1][1..] == b[1..][..|b| - 2];
    }
  }

  lemma {:induction false} SubDropLast(a: Items, b: Items)
    requires Sub(a, b) && a != []
    ensures Sub(a[..|a| - 1], b)
  {
    if a[0] == b[0] && Sub(a[1..], b[1..]) {
      if |a| > 1 {
        SubDropLast(a[1..], b[1..]);
        assert a[..|a| - 1][1..] == a[1..][..|a| - 2];
      }
    } else {
      SubDropLast(a, b[1..]);
    }
  }

  /**
   The smaller cache's entries stand in the larger one in the same order, and it is behind by no more than it is
   smaller.
   */
  predicate Included(small: Config, large: Config, a: Items, b: Items) {
    && small.capacity <= large.capacity && small.defaultTtl == large.defaultTtl
    && Sub(a, b) && Distinct(a) && Distinct(b)
    && |a| <= small.capacity && |b| <= large.capacity
    && |b| - |a| <= large.capacity - small.capacity
  }

  lemma SubFind(a: Items, b: Items, k: string)
    requires Sub(a, b) && Distinct(b)
    ensures Find(a, k).Some? ==> Find(b, k) == Find(a, k)
  {
    SubElements(a, b);
  }

  lemma RemovalKeepsInclusion(small: Config, large: Config, a: Items, b: Items, keep: string -> bool)
    requires Included(small, large, a, b)
    ensures Included(small, large, Filter(a, keep), Filter(b, keep))
  {
    SubFilter(a, b, keep);
    FilterElements(a, keep);
    FilterElements(b, keep);
  }

  /** The larger cache alone may also lose an entry the smaller does not have. */
  lemma ExtraRemovalKeepsInclusion(small: Config, large: Config, a: Items, b: Items, k: string)
    requires Included(small, large, a, b) && Find(a, k).None?
    ensures Included(small, large, a, Without(b, k))
  {
    WithoutAbsent(a, k);
    RemovalKeepsInclusion(small, large, a, b, Other(k));
  }

  lemma TouchKeepsInclusion(small: Config, large: Config, a: Items, b: Items, it: Item)
    requires Included(small, large, a, b) && Find(b, it.key).Some?
    ensures Find(a, it.key).Some? ==> Included(small, large, [it] + Without(a, it.key), [it] + Without(b, it.key))
    ensures Find(a, it.key).None? ==> Included(small, large, a, [it] + Without(b, it.key))
  {
    WithoutPresent(b, it.key);
    WithoutMeans(b, it.key);
    if Find(a, it.key).Some? {
      RemovalKeepsInclusion(small, large, a, b, Other(it.key));
      WithoutPresent(a, it.key);
      WithoutMeans(a, it.key);
      SubPrefix([it], Without(a, it.key), Without(b, it.key));
    } else {
      ExtraRemovalKeepsInclusion(small, large, a, b, it.key);
      assert ([it] + Without(b, it.key))[1..] == Without(b, it.key);
    }
  }

  /** Both evict, or only the smaller one does. */
  lemma EvictKeepsInclusion(small: Config, large: Config, x: Items, y: Items)
    requires small.capacity <= large.capacity && small.defaultTtl == large.defaultTtl
    requires Sub(x, y) && Distinct(x) && Distinct(y)
    requires |x| <= small.capacity + 1 && |y| <= large.capacity + 1 && |y| - |x| <= large.capacity - small.capacity
    ensures Included(small, large, Truncate(x, small.capacity), Truncate(y, large.capacity))
  {
    if |y| > large.capacity {
      SubInit(x, y);
    } else if |x| > small.capacity {
      SubDropLast(x, y);
    }
  }

  lemma PushBounds(s: Items, it: Item)
    requires Distinct(s)
    ensures Distinct([it] + Without(s, it.key))
    ensures |[it] + Without(s, it.key)| == |s| + if Find(s, it.key).Some? then 0 else 1
  {
    WithoutMeans(s, it.key);
    if Find(s, it.key).Some? { WithoutPresent(s, it.key); } else { WithoutAbsent(s, it.key); }
    forall i | 0 <= i < |Without(s, it.key)| ensures Without(s, it.key)[i].key != it.key {
      assert Without(s, it.key)[i] in Without(s, it.key);
    }
  }

  lemma SetKeepsInclusion(small: Config, large: Config, a: Items, b: Items, it: Item)
    requires Included(small, large, a, b)
    ensures Included(small, large, Truncate([it] + Without(a, it.key), small.capacity),
      Truncate([it] + Without(b, it.key), large.capacity))
  {
    PushBounds(a, it);
    PushBounds(b, it);
    SubFilter(a, b, Other(it.key));
    SubPrefix([it], Without(a, it.key), Without(b, it.key));
    SubFind(a, b, it.key);
    EvictKeepsInclusion(small, large, [it] + Without(a, it.key), [it] + Without(b, it.key));
  }

  lemma StepKeepsInclusion(small: Config, large: Config, op: Op, now: int, a: Items, b: Items)
    requires Included(small, large, a, b)
    ensures Included(small, large, Step(small, op, now, a).0, Step(large, op, now, b).0)
    ensures Step(small, op, now, a).1.Hit? ==> Step(large, op, now, b).1 == Step(small, op, now, a).1
    ensures Step(small, op, now, a).1 == Found(true) ==> Step(large, op, now, b).1 == Found(true)
  {
    match op
    case Get(k) =>
      GetKeepsInclusion(small, large, k, now, a, b);
    case Set(k, v, ttl) =>
      SetKeepsInclusion(small, large, a, b, Item(k, v, now + if ttl <= 0 then small.defaultTtl else ttl));
    case Delete(k) =>
      RemovalKeepsInclusion(small, large, a, b, Other(k));
    case Exists(k) =>
      ExistsKeepsInclusion(small, large, k, now, a, b);
    case Clear =>
    case ClearPattern(g) =>
      if g.Glob? { RemovalKeepsInclusion(small, large, a, b, Unmatched(g)); }
  }

  lemma GetKeepsInclusion(small: Config, large: Config, k: string, now: int, a: Items, b: Items)
    requires Included(small, large, a, b)
    ensures Included(small, large, Step(small, Get(k), now, a).0, Step(large, Get(k), now, b).0)
    ensures Step(small, Get(k), now, a).1.Hit? ==> Step(large, Get(k), now, b).1 == Step(small, Get(k), now, a).1
  {
    InclusionMeans(small, large, a, b);
    SubFind(a, b, k);
    hide Included, Sub, Distinct, Find, Filter;
    if Find(b, k).Some? {
      RemovalKeepsInclusion(small, large, a, b, Other(k));
      TouchKeepsInclusion(small, large, a, b, Find(b, k).value);
      if Find(a, k).None? { ExtraRemovalKeepsInclusion(small, large, a, b, k); }
    }
  }

  lemma ExistsKeepsInclusion(small: Config, large: Config, k: string, now: int, a: Items, b: Items)
    requires Included(small, large, a, b)
    ensures Included(small, large, Step(small, Exists(k), now, a).0, Step(large, Exists(k), now, b).0)
    ensures Step(small, Exists(k), now, a).1 == Found(true) ==> Step(large, Exists(k), now, b).1 == Found(true)
  {
    InclusionMeans(small, large, a, b);
    SubFind(a, b, k);
    hide Included, Sub, Distinct, Find, Filter;
    if Find(b, k).Some? {
      RemovalKeepsInclusion(small, large, a, b, Other(k));
      if Find(a, k).None? { ExtraRemovalKeepsInclusion(small, large, a, b, k); }
    }
  }

  lemma InclusionMeans(small: Config, large: Config, a: Items, b: Items)
    requires Included(small, large, a, b)
    ensures Sub(a, b) && Distinct(a) && Distinct(b)
  {
  }

  /** Over any run at any times, the smaller cache stays inside the larger. */
  lemma {:induction false} RunsStayIncluded(small: Config, large: Config, trace: seq<Event>)
    requires small.capacity <= large.capacity && small.defaultTtl == large.defaultTtl
    ensures Included(small, large, Run(small, trace), Run(large, trace))
  {
    if trace != [] {
      var init, e := trace[..|trace| - 1], trace[|trace| - 1];
      RunsStayIncluded(small, large, init);
      StepKeepsInclusion(small, large, e.op, e.now, Run(small, init), Run(large, init));
    }
  }

  /** Whatever hits in the smaller cache hits in the larger, with the same value. */
  lemma HitsStayHits(small: Config, large: Config, trace: seq<Event>, i: nat)
    requires small.capacity <= large.capacity && small.defaultTtl == large.defaultTtl && i < |trace|
    ensures Answer(small, trace, i).Hit? ==> Answer(large, trace, i) == Answer(small, trace, i)
    ensures Answer(small, trace, i) == Found(true) ==> Answer(large, trace, i) == Found(true)
  {
    RunsStayIncluded(small, large, trace[..i]);
    StepKeepsInclusion(small, large, trace[i].op, trace[i].now, Run(small, trace[..i]), Run(large, trace[..i]));
  }

  // ---------- recency, and what a hit returns ----------

  /** The `i`-th operation made `k` the most recently used key. */
  predicate Touches(c: Config, trace: seq<Event>, i: nat, k: string)
    requires i < |trace|
  {
    (trace[i].op.Set? && trace[i].op.key == k) || (trace[i].op.Get? && trace[i].op.key == k && Answer(c, trace, i).Hit?)
  }

  /** One more than the position of the last operation that touched `k`; 0 if there is none. */
  function LastTouch(c: Config, trace: seq<Event>, k: string): (n: nat)
    ensures n <= |trace|
  {
    if trace == [] then 0
    else if Touches(c, trace, |trace| - 1, k) then |trace|
    else LastTouch(c, trace[..|trace| - 1], k)
  }

  /** The entry the last Set of `k` made. */
  function LastSet(c: Config, trace: seq<Event>, k: string): Option<Item> {
    if trace == [] then None
    else
      var e := trace[|trace| - 1];
      if e.op.Set? && e.op.key == k
        then Some(Item(k, e.op.value, e.now + if e.op.ttl <= 0 then c.defaultTtl else e.op.ttl))
      else LastSet(c, trace[..|trace| - 1], k)
  }

  /** The list is in the order of last use, and holds what was last set. */
  predicate Faithful(c: Config, trace: seq<Event>, s: Items) {
    && (forall i, j :: 0 <= i < j < |s| ==> LastTouch(c, trace, s[i].key) > LastTouch(c, trace, s[j].key))
    && (forall i :: 0 <= i < |s| ==> LastTouch(c, trace, s[i].key) > 0)
    && (forall i :: 0 <= i < |s| ==> LastSet(c, trace, s[i].key) == Some(s[i]))
  }

  lemma ConsFaithful(c: Config, trace: seq<Event>, it: Item, w: Items)
    requires Faithful(c, trace, w) && LastTouch(c, trace, it.key) > 0 && LastSet(c, trace, it.key) == Some(it)
    requires forall i :: 0 <= i < |w| ==> LastTouch(c, trace, it.key) > LastTouch(c, trace, w[i].key)
    ensures Faithful(c, trace, [it] + w)
  {
    hide LastTouch, LastSet;
  }

  lemma {:induction false} FilterKeepsFaithful(c: Config, trace: seq<Event>, s: Items, keep: string -> bool)
    requires Faithful(c, trace, s)
    ensures Faithful(c, trace, Filter(s, keep))
  {
    hide LastTouch, LastSet;
    if s != [] {
      FilterKeepsFaithful(c, trace, s[1..], keep);
      FilterElements(s[1..], keep);
      var f := Filter(s[1..], keep);
      forall i | 0 <= i < |f| ensures LastTouch(c, trace, s[0].key) > LastTouch(c, trace, f[i].key) {
        assert f[i] in s[1..];
      }
      ConsFaithful(c, trace, s[0], f);
    }
  }

  /** An operation that does not touch a listed key leaves its place and its entry as they were. */
  lemma UntouchedStaysFaithful(c: Config, trace: seq<Event>, s: Items)
    requires trace != [] && Faithful(c, trace[..|trace| - 1], s)
    requires forall i :: 0 <= i < |s| ==> !Touches(c, trace, |trace| - 1, s[i].key)
    ensures Faithful(c, trace, s)
  {
  }

  lemma TouchedGoesFirst(c: Config, trace: seq<Event>, s: Items, it: Item)
    requires trace != [] && Faithful(c, trace[..|trace| - 1], s) && Distinct(s)
    requires Touches(c, trace, |trace| - 1, it.key) && LastSet(c, trace, it.key) == Some(it)
    requires trace[|trace| - 1].op.Set? || trace[|trace| - 1].op.Get?
    ensures Faithful(c, trace, [it] + Without(s, it.key))
  {
    var w := Without(s, it.key);
    FilterKeepsFaithful(c, trace[..|trace| - 1], s, Other(it.key));
    WithoutMeans(s, it.key);
    forall i | 0 <= i < |w| ensures w[i].key != it.key { assert w[i] in w; }
    UntouchedStaysFaithful(c, trace, w);
    forall i | 0 <= i < |w| ensures LastTouch(c, trace, w[i].key) < |trace| {
      assert !Touches(c, trace, |trace| - 1, w[i].key);
    }
    ConsFaithful(c, trace, it, w);
  }

  lemma TruncateStaysFaithful(c: Config, trace: seq<Event>, s: Items, n: nat)
    requires Faithful(c, trace, s)
    ensures Faithful(c, trace, Truncate(s, n))
  {
  }

  lemma {:induction false} RunIsFaithful(c: Config, trace: seq<Event>)
    ensures Faithful(c, trace, Run(c, trace))
  {
    if trace != [] {
      var init, e := trace[..|trace| - 1], trace[|trace| - 1];
      var s := Run(c, init);
      RunIsFaithful(c, init);
      RunKeepsBounds(c, init);
      assert Answer(c, trace, |trace| - 1) == Step(c, e.op, e.now, s).1;
      FaithfulStep(c, trace, s);
    }
  }

  predicate TouchesNothing(c: Config, trace: seq<Event>)
    requires trace != []
  {
    !trace[|trace| - 1].op.Set? && (trace[|trace| - 1].op.Get? ==> !Answer(c, trace, |trace| - 1).Hit?)
  }

  /** An operation that touches no key leaves what it keeps faithful. */
  lemma NothingTouched(c: Config, trace: seq<Event>, s: Items, keep: string -> bool)
    requires trace != [] && Faithful(c, trace[..|trace| - 1], s) && TouchesNothing(c, trace)
    ensures Faithful(c, trace, s) && Faithful(c, trace, Filter(s, keep))
  {
    hide Faithful, LastTouch, LastSet, Filter, Answer;
    FilterKeepsFaithful(c, trace[..|trace| - 1], s, keep);
    UntouchedStaysFaithful(c, trace, s);
    UntouchedStaysFaithful(c, trace, Filter(s, keep));
  }

  lemma FaithfulHit(c: Config, trace: seq<Event>, s: Items)
    requires trace != [] && Faithful(c, trace[..|trace| - 1], s) && Distinct(s)
    requires Answer(c, trace, |trace| - 1) == Step(c, trace[|trace| - 1].op, trace[|trace| - 1].now, s).1
    requires trace[|trace| - 1].op.Get? && Answer(c, trace, |trace| - 1).Hit?
    ensures Faithful(c, trace, Step(c, trace[|trace| - 1].op, trace[|trace| - 1].now, s).0)
  {
    var k := trace[|trace| - 1].op.key;
    var it := Find(s, k).value;
    assert LastSet(c, trace, k) == LastSet(c, trace[..|trace| - 1], k) == Some(it);
    TouchedGoesFirst(c, trace, s, it);
    hide Faithful, Without, LastTouch, LastSet, Distinct;
  }

  lemma FaithfulSet(c: Config, trace: seq<Event>, s: Items)
    requires trace != [] && Faithful(c, trace[..|trace| - 1], s) && Distinct(s) && trace[|trace| - 1].op.Set?
    ensures Faithful(c, trace, Step(c, trace[|trace| - 1].op, trace[|trace| - 1].now, s).0)
  {
    var e := trace[|trace| - 1];
    var it := Item(e.op.key, e.op.value, e.now + if e.op.ttl <= 0 then c.defaultTtl else e.op.ttl);
    TouchedGoesFirst(c, trace, s, it);
    hide Faithful, Without, LastTouch, LastSet, Distinct, Truncate;
    TruncateStaysFaithful(c, trace, [it] + Without(s, it.key), c.capacity);
  }

  lemma FaithfulOtherwise(c: Config, trace: seq<Event>, s: Items)
    requires trace != [] && Faithful(c, trace[..|trace| - 1], s) && TouchesNothing(c, trace)
    requires Answer(c, trace, |trace| - 1) == Step(c, trace[|trace| - 1].op, trace[|trace| - 1].now, s).1
    ensures Faithful(c, trace, Step(c, trace[|trace| - 1].op, trace[|trace| - 1].now, s).0)
  {
    var e := trace[|trace| - 1];
    hide Faithful, Filter, LastTouch, LastSet, Touches, Answer;
    NothingTouched(c, trace, s, if e.op.ClearPattern? && e.op.pattern.Glob?
      then Unmatched(e.op.pattern) else if e.op.Clear? || e.op.ClearPattern? then Other("") else Other(e.op.key));
    NothingFaithful(c, trace);
  }

  lemma FaithfulStep(c: Config, trace: seq<Event>, s: Items)
    requires trace != [] && Faithful(c, trace[..|trace| - 1], s) && Distinct(s)
    requires Answer(c, trace, |trace| - 1) == Step(c, trace[|trace| - 1].op, trace[|trace| - 1].now, s).1
    ensures Faithful(c, trace, Step(c, trace[|trace| - 1].op, trace[|trace| - 1].now, s).0)
  {
    var e := trace[|trace| - 1];
    assert TouchesNothing(c, trace) <==> !e.op.Set? && (e.op.Get? ==> !Answer(c, trace, |trace| - 1).Hit?);
    hide *;
    if e.op.Set? { FaithfulSet(c, trace, s); }
    else if e.op.Get? && Answer(c, trace, |trace| - 1).Hit? { FaithfulHit(c, trace, s); }
    else { FaithfulOtherwise(c, trace, s); }
  }

  lemma NothingFaithful(c: Config, trace: seq<Event>)
    ensures Faithful(c, trace, [])
  {
  }

  /** A hit returns the value last set for the key, before its time is up. */
  lemma HitReturnsLastSet(c: Config, trace: seq<Event>, i: nat)
    requires i < |trace| && Answer(c, trace, i).Hit?
    ensures trace[i].op.Get?
    ensures
      var latest := LastSet(c, trace[..i], trace[i].op.key);
      && latest.Some? && Answer(c, trace, i) == Hit(latest.value.value)
      && (latest.value.expiresAt == 0 || trace[i].now < latest.value.expiresAt)
  {
    RunIsFaithful(c, trace[..i]);
    var s := Run(c, trace[..i]);
    var it := Find(s, trace[i].op.key).value;
    assert it in s;
  }

  lemma OnlyTheLastIsCut(s: Items, k: string, first: Item, capacity: nat, it: Item)
    requires Distinct(s) && 0 < capacity && |s| <= capacity && it in s && it.key != k
    requires it !in Truncate([first] + Without(s, k), capacity)
    ensures |s| == capacity && Find(s, k).None? && s[|s| - 1] == it
  {
    hide *;
    var w := Without(s, k);
    assert it in w by { WithoutMeans(s, k); }
    var i :| 0 <= i < |w| && w[i] == it;
    assert i + 1 >= capacity by { if i + 1 < capacity { SurvivesTruncation(first, w, capacity, i); } }
    WithoutSize(s, k);
  }

  lemma WithoutSize(s: Items, k: string)
    requires Distinct(s)
    ensures if Find(s, k).Some? then |Without(s, k)| == |s| - 1 else Without(s, k) == s
  {
    if Find(s, k).Some? { WithoutPresent(s, k); } else { WithoutAbsent(s, k); }
    hide Without;
  }

  /** A Set evicts at most one entry, and only the one used longest ago. */
  lemma EvictedIsOldest(c: Config, trace: seq<Event>, k: string, v: string, ttl: int, now: int, it: Item)
    requires c.capacity > 0 && it in Run(c, trace) && it.key != k
    requires it !in Step(c, Set(k, v, ttl), now, Run(c, trace)).0
    ensures |Run(c, trace)| == c.capacity && Find(Run(c, trace), k).None?
    ensures forall other ::
      other in Run(c, trace) && other != it ==> LastTouch(c, trace, it.key) < LastTouch(c, trace, other.key)
  {
    hide LastTouch, LastSet, Run, Without, Truncate, Distinct, Find;
    var s := Run(c, trace);
    RunIsFaithful(c, trace);
    RunKeepsBounds(c, trace);
    OnlyTheLastIsCut(s, k, Item(k, v, now + if ttl <= 0 then c.defaultTtl else ttl), c.capacity, it);
  }

  lemma SurvivesTruncation(first: Item, s: Items, capacity: nat, i: nat)
    requires i < |s| && i + 1 < capacity
    ensures s[i] in Truncate([first] + s, capacity)
  {
    assert Truncate([first] + s, capacity)[i + 1] == s[i];
  }
}
