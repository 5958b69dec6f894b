/** How long an entry of the cache lives: exactly what a hit means, and when one is certain. */
module LruLifetimes {
  import opened Wrappers
  import opened Lru

  /** When a Set at that time lets its entry expire; the zero time means never. */
  function EndOf(c: Config, e: Event): int
    requires e.op.Set?
  {
    if e.op.ttl > 0 then e.now + e.op.ttl else e.now + c.defaultTtl
  }

  predicate IsLive(end: int, now: int) {
    end == 0 || now < end
  }

  /** The operation replaces or removes the entry of `k` that ends then, or finds that it has ended. */
  predicate Drops(e: Event, k: string, end: int) {
    match e.op
    case Get(x) => x == k && !IsLive(end, e.now)
    case Exists(x) => x == k && !IsLive(end, e.now)
    case Set(x, _, _) => x == k
    case Delete(x) => x == k
    case Clear => true
    case ClearPattern(Glob(matches)) => matches(k)
    case ClearPattern(Malformed) => false
  }

  predicate NothingDrops(trace: seq<Event>, j: nat, i: nat, k: string, end: int)
    requires i <= |trace|
  {
    forall n :: j < n < i ==> !Drops(trace[n], k, end)
  }

  /** Operation `j` set `k`, and no operation from there to `i` dropped the entry. */
  predicate StandsSince(c: Config, trace: seq<Event>, j: nat, i: nat, k: string)
    requires i <= |trace|
  {
    j < i && trace[j].op.Set? && trace[j].op.key == k && NothingDrops(trace, j, i, k, EndOf(c, trace[j]))
  }

  function EntryOf(c: Config, e: Event): Item
    requires e.op.Set?
  {
    Item(e.op.key, e.op.value, EndOf(c, e))
  }

  // ---------- what is there was set and not dropped ----------

  lemma StepLeaves(c: Config, op: Op, now: int, s: Items, it: Item)
    requires it in Step(c, op, now, s).0 && Distinct(s)
    ensures
      if op.Set? && op.key == it.key then it == EntryOf(c, Event(op, now))
      else it in s && !Drops(Event(op, now), it.key, it.expiresAt)
  {
    match op
    case Get(k) => FoundIs(s, k); WithoutMeans(s, k);
    case Set(k, v, ttl) => WithoutMeans(s, k);
    case Delete(k) => WithoutMeans(s, k);
    case Exists(k) => FoundIs(s, k); WithoutMeans(s, k);
    case Clear =>
    case ClearPattern(g) => if g.Glob? { FilterElements(s, Unmatched(g)); }
  }

  /** The entry found is the only one of its key. */
  lemma FoundIs(s: Items, k: string)
    requires Distinct(s)
    ensures forall it :: it in s && it.key == k ==> Find(s, k) == Some(it)
  {
    forall it | it in s && it.key == k ensures Find(s, k) == Some(it) {
      var i :| 0 <= i < |s| && s[i] == it;
      var j :| 0 <= j < |s| && s[j] == Find(s, k).value;
    }
  }

  lemma {:induction false} EveryEntryStands(c: Config, trace: seq<Event>, it: Item) returns (j: nat)
    requires it in Run(c, trace)
    ensures StandsSince(c, trace, j, |trace|, it.key) && it == EntryOf(c, trace[j])
  {
    var init, e := trace[..|trace| - 1], trace[|trace| - 1];
    var s := Run(c, init);
    RunKeepsBounds(c, init);
    StepLeaves(c, e.op, e.now, s, it);
    if e.op.Set? && e.op.key == it.key {
      j := |trace| - 1;
    } else {
      j := EveryEntryStands(c, init, it);
      hide Step, Run, Drops;
      forall n | j < n < |trace| ensures !Drops(trace[n], it.key, EndOf(c, trace[j])) {
        assert n < |init| ==> init[n] == trace[n];
      }
    }
  }

  /**
   A hit returns the value of the last Set of its key; no operation since has dropped the entry, and its time is not
   up. An Exists that finds something says the same.
   */
  lemma HitIsLive(c: Config, trace: seq<Event>, i: nat) returns (j: nat)
    requires i < |trace| && (Answer(c, trace, i).Hit? || Answer(c, trace, i) == Found(true))
    ensures trace[i].op.Get? || trace[i].op.Exists?
    ensures StandsSince(c, trace, j, i, trace[i].op.key) && IsLive(EndOf(c, trace[j]), trace[i].now)
    ensures Answer(c, trace, i) == if trace[i].op.Get? then Hit(trace[j].op.value) else Found(true)
  {
    var s, k := Run(c, trace[..i]), trace[i].op.key;
    j := EveryEntryStands(c, trace[..i], Find(s, k).value);
    hide Run;
  }

  // ---------- and what was set is there, unless others crowd it out ----------

  /** The other keys that operations from `j` to `i` made the most recently used. */
  ghost function TouchedSince(c: Config, trace: seq<Event>, j: nat, i: nat, k: string): set<string>
    requires i <= |trace|
  {
    set n, x | j < n < i && x == KeyOf(trace[n].op) && x != k && Touches(c, trace, n, x) :: x
  }

  function KeyOf(op: Op): string {
    match op
    case Clear => ""
    case ClearPattern(_) => ""
    case _ => op.key
  }

  lemma TouchesBefore(c: Config, trace: seq<Event>, m: nat, n: nat, x: string)
    requires n < m <= |trace|
    ensures Touches(c, trace[..m], n, x) <==> Touches(c, trace, n, x)
  {
    assert trace[..m][..n] == trace[..n];
    hide Step, Run;
  }

  lemma {:induction false} LastTouchIs(c: Config, trace: seq<Event>, x: string)
    ensures var n := LastTouch(c, trace, x); n > 0 ==> Touches(c, trace, n - 1, x)
    ensures forall n :: 0 <= n < |trace| && Touches(c, trace, n, x) ==> n < LastTouch(c, trace, x)
  {
    if trace != [] {
      var m := |trace| - 1;
      LastTouchIs(c, trace[..m], x);
      forall n | 0 <= n < m ensures Touches(c, trace[..m], n, x) <==> Touches(c, trace, n, x) {
        TouchesBefore(c, trace, m, n, x);
      }
      hide Touches;
    }
  }

  /** What stands before the entry in the list was touched after it was set. */
  lemma TouchedLater(c: Config, trace: seq<Event>, j: nat, k: string, p: nat, q: nat)
    requires var s := Run(c, trace); q < p < |s| && s[p].key == k
    requires j < |trace| && trace[j].op.Set? && trace[j].op.key == k
    ensures Run(c, trace)[q].key in TouchedSince(c, trace, j, |trace|, k)
  {
    var s := Run(c, trace);
    var x := s[q].key;
    RunIsFaithful(c, trace);
    RunKeepsBounds(c, trace);
    LastTouchIs(c, trace, k);
    LastTouchIs(c, trace, x);
    assert Touches(c, trace, j, k);
    assert LastTouch(c, trace, x) > LastTouch(c, trace, k) && x != k;
    var n := LastTouch(c, trace, x) - 1;
    assert Touches(c, trace, n, x) && KeyOf(trace[n].op) == x;
  }

  lemma TouchedGrows(c: Config, trace: seq<Event>, j: nat, k: string)
    requires trace != []
    ensures TouchedSince(c, trace[..|trace| - 1], j, |trace| - 1, k) <= TouchedSince(c, trace, j, |trace|, k)
    ensures
      var e := trace[|trace| - 1];
      j < |trace| - 1 && e.op.Set? && e.op.key != k ==> e.op.key in TouchedSince(c, trace, j, |trace|, k)
  {
    var m := |trace| - 1;
    forall x | x in TouchedSince(c, trace[..m], j, m, k) ensures x in TouchedSince(c, trace, j, |trace|, k) {
      var n :| j < n < m && x == KeyOf(trace[..m][n].op) && x != k && Touches(c, trace[..m], n, x);
      TouchesBefore(c, trace, m, n, x);
    }
    assert trace[m].op.Set? ==> Touches(c, trace, m, trace[m].op.key);
  }

  function KeysBefore(s: Items, n: nat): set<string>
    requires n <= |s|
  {
    if n == 0 then {} else KeysBefore(s, n - 1) + {s[n - 1].key}
  }

  lemma {:induction false} KeysBeforeHave(s: Items, n: nat, x: string)
    requires n <= |s|
    ensures x in KeysBefore(s, n) <==> exists q :: 0 <= q < n && s[q].key == x
  {
    if n > 0 { KeysBeforeHave(s, n - 1, x); }
  }

  lemma {:induction false} KeysBeforeCount(s: Items, n: nat)
    requires n <= |s| && Distinct(s)
    ensures |KeysBefore(s, n)| == n
  {
    if n > 0 {
      KeysBeforeCount(s, n - 1);
      KeysBeforeHave(s, n - 1, s[n - 1].key);
    }
  }

  lemma {:induction false} Subset(a: set<string>, b: set<string>)
    requires a <= b
    ensures |a| <= |b|
  {
    if a != {} {
      var x :| x in a;
      Subset(a - {x}, b - {x});
    }
  }

  /** A Set of another key evicts the entry only when as many keys as the cache holds have been touched since. */
  lemma NotCrowdedOut(c: Config, trace: seq<Event>, j: nat, k: string, it: Item)
    requires trace != [] && j < |trace| - 1 && trace[j].op.Set? && trace[j].op.key == k == it.key
    requires |TouchedSince(c, trace, j, |trace|, k)| < c.capacity && it in Run(c, trace[..|trace| - 1])
    requires trace[|trace| - 1].op.Set? && trace[|trace| - 1].op.key != k
    ensures
      var e := trace[|trace| - 1];
      it in Truncate([EntryOf(c, e)] + Without(Run(c, trace[..|trace| - 1]), e.op.key), c.capacity)
  {
    var init, e := trace[..|trace| - 1], trace[|trace| - 1];
    var s := Run(c, init);
    RunKeepsBounds(c, init);
    hide Run, Truncate, Without, TouchedSince, Distinct, Find;
    if it !in Truncate([EntryOf(c, e)] + Without(s, e.op.key), c.capacity) {
      OnlyTheLastIsCut(s, e.op.key, EntryOf(c, e), c.capacity, it);
      Crowd(c, trace, j, k);
    }
  }

  /** In a full cache with the entry last, a new key makes as many keys touched since as the cache holds. */
  lemma Crowd(c: Config, trace: seq<Event>, j: nat, k: string)
    requires trace != [] && j < |trace| - 1 && trace[j].op.Set? && trace[j].op.key == k
    requires trace[|trace| - 1].op.Set? && trace[|trace| - 1].op.key != k
    requires
      var s := Run(c, trace[..|trace| - 1]);
      Distinct(s) && s != [] && s[|s| - 1].key == k && Find(s, trace[|trace| - 1].op.key).None?
    ensures |TouchedSince(c, trace, j, |trace|, k)| >= |Run(c, trace[..|trace| - 1])|
  {
    var init, x := trace[..|trace| - 1], trace[|trace| - 1].op.key;
    var s, touched := Run(c, init), TouchedSince(c, trace, j, |trace|, k);
    TouchedGrows(c, trace, j, k);
    var others := KeysBefore(s, |s| - 1);
    KeysBeforeCount(s, |s| - 1);
    KeysBeforeHave(s, |s| - 1, x);
    assert x !in others && init[j] == trace[j];
    hide *;
    OthersTouched(c, init, j, k);
    Subset(others + {x}, touched);
  }

  lemma OthersTouched(c: Config, init: seq<Event>, j: nat, k: string)
    requires j < |init| && init[j].op.Set? && init[j].op.key == k
    requires var s := Run(c, init); s != [] && s[|s| - 1].key == k
    ensures KeysBefore(Run(c, init), |Run(c, init)| - 1) <= TouchedSince(c, init, j, |init|, k)
  {
    hide *;
    var s := Run(c, init);
    forall y | y in KeysBefore(s, |s| - 1) ensures y in TouchedSince(c, init, j, |init|, k) {
      KeysBeforeHave(s, |s| - 1, y);
      var q :| 0 <= q < |s| - 1 && s[q].key == y;
      TouchedLater(c, init, j, k, |s| - 1, q);
    }
  }

  lemma StepKeeps(c: Config, op: Op, now: int, s: Items, it: Item)
    requires it in s && Distinct(s) && !Drops(Event(op, now), it.key, it.expiresAt) && !op.Set?
    ensures it in Step(c, op, now, s).0
  {
    match op
    case Get(k) => FoundIs(s, k); WithoutMeans(s, k);
    case Delete(k) => WithoutMeans(s, k);
    case Exists(k) => FoundIs(s, k); WithoutMeans(s, k);
    case Clear =>
    case ClearPattern(g) => if g.Glob? { FilterElements(s, Unmatched(g)); }
  }

  lemma {:induction false} EntryStays(c: Config, trace: seq<Event>, j: nat, k: string)
    requires StandsSince(c, trace, j, |trace|, k) && |TouchedSince(c, trace, j, |trace|, k)| < c.capacity
    ensures EntryOf(c, trace[j]) in Run(c, trace)
  {
    var init, e := trace[..|trace| - 1], trace[|trace| - 1];
    var s, it := Run(c, init), EntryOf(c, trace[j]);
    assert Run(c, trace) == Step(c, e.op, e.now, s).0;
    if j == |init| {
      assert Truncate([it] + Without(s, k), c.capacity)[0] == it;
    } else {
      TouchedGrows(c, trace, j, k);
      Subset(TouchedSince(c, init, j, |init|, k), TouchedSince(c, trace, j, |trace|, k));
      hide Run, TouchedSince, Drops;
      forall n | j < n < |init| ensures !Drops(init[n], k, EndOf(c, init[j])) {
        assert !Drops(trace[n], k, EndOf(c, trace[j]));
      }
      EntryStays(c, init, j, k);
      RunKeepsBounds(c, init);
      if e.op.Set? {
        assert e.op.key != k by { assert !Drops(e, k, it.expiresAt); SetDrops(e, k, it.expiresAt); }
        NotCrowdedOut(c, trace, j, k, it);
      } else {
        assert !Drops(e, k, EndOf(c, trace[j]));
        StepKeeps(c, e.op, e.now, s, it);
      }
    }
  }

  lemma SetDrops(e: Event, k: string, end: int)
    requires e.op.Set?
    ensures Drops(e, k, end) <==> e.op.key == k
  {
  }

  /**
   A key that was set is found, with its value, as long as its time is not up, no operation has dropped the entry, and
   fewer other keys have been touched since than the cache holds.
   */
  lemma LiveEntryHits(c: Config, trace: seq<Event>, j: nat, i: nat)
    requires i < |trace| && (trace[i].op.Get? || trace[i].op.Exists?)
    requires StandsSince(c, trace, j, i, trace[i].op.key) && IsLive(EndOf(c, trace[j]), trace[i].now)
    requires |TouchedSince(c, trace, j, i, trace[i].op.key)| < c.capacity
    ensures Answer(c, trace, i) == if trace[i].op.Get? then Hit(trace[j].op.value) else Found(true)
  {
    var k, init := trace[i].op.key, trace[..i];
    forall x | x in TouchedSince(c, init, j, i, k) ensures x in TouchedSince(c, trace, j, i, k) {
      var n :| j < n < i && x == KeyOf(init[n].op) && x != k && Touches(c, init, n, x);
      TouchesBefore(c, trace, i, n, x);
    }
    Subset(TouchedSince(c, init, j, i, k), TouchedSince(c, trace, j, i, k));
    hide TouchedSince, Drops, Run;
    forall n | j < n < i ensures !Drops(init[n], k, EndOf(c, init[j])) {
      assert !Drops(trace[n], k, EndOf(c, trace[j]));
    }
    EntryStays(c, init, j, k);
    RunKeepsBounds(c, init);
    FoundIs(Run(c, init), k);
  }

  /**
   What clearing answers is how many entries went; only a malformed pattern is refused, and only by a filled cache.
   */
  lemma ClearingIsCounted(c: Config, op: Op, now: int, s: Items)
    requires op.Clear? || op.ClearPattern?
    ensures
      var (left, answer) := Step(c, op, now, s);
      && (op.Clear? ==> left == [])
      && if op.ClearPattern? && op.pattern.Malformed? && s != [] then answer == BadPattern && left == s
         else answer.Count? && answer.n + |left| == |s|
  {
    if op.ClearPattern? && op.pattern.Glob? { FilterShortens(s, Unmatched(op.pattern)); }
  }
}
