/** The order Go's `<` puts on strings, and strictly sorted lists of strings. */
module Order {

  predicate Less(a: string, b: string) {
    b != [] && (a == [] || a[0] < b[0] || (a[0] == b[0] && Less(a[1..], b[1..])))
  }

  /** The strings are the same before `k`, and there the first has ended or has the smaller character. */
  predicate IsLessAt(a: string, b: string, k: nat) {
    && k <= |a| && k < |b| && (forall i :: 0 <= i < k ==> a[i] == b[i])
    && (k == |a| || a[k] < b[k])
  }

  /** The first character in which two strings differ decides, by its code; a string comes before those it begins. */
  lemma {:induction false} LessIsLexical(a: string, b: string)
    ensures Less(a, b) <==> exists k :: IsLessAt(a, b, k)
  {
    if a != [] && b != [] && a[0] == b[0] {
      LessIsLexical(a[1..], b[1..]);
      if k: nat :| IsLessAt(a[1..], b[1..], k) { assert IsLessAt(a, b, k + 1); }
      if k: nat :| IsLessAt(a, b, k) { assert k > 0 && IsLessAt(a[1..], b[1..], k - 1); }
    } else if Less(a, b) {
      assert IsLessAt(a, b, 0);
    }
  }

  lemma LessIsTotal(a: string, b: string)
    ensures a == b <==> !Less(a, b) && !Less(b, a)
    ensures !(Less(a, b) && Less(b, a))
  {
    if a != [] && b != [] && a[0] == b[0] {
      LessIsTotal(a[1..], b[1..]);
      assert a == [a[0]] + a[1..] && b == [b[0]] + b[1..];
    }
  }

  lemma LessIsTransitive(a: string, b: string, c: string)
    requires Less(a, b) && Less(b, c)
    ensures Less(a, c)
  {
    if a != [] && a[0] == b[0] && b[0] == c[0] {
      LessIsTransitive(a[1..], b[1..], c[1..]);
    }
  }

  /** Strictly ascending, hence without duplicates. */
  predicate Sorted(s: seq<string>) {
    forall i, j :: 0 <= i < j < |s| ==> Less(s[i], s[j])
  }

  /** A strictly sorted list is determined by its elements. */
  lemma {:induction false} SortedIsUnique(a: seq<string>, b: seq<string>)
    requires Sorted(a) && Sorted(b)
    requires forall x :: x in a <==> x in b
    ensures a == b
  {
    assert (a != [] ==> a[0] in a) && (b != [] ==> b[0] in b);
    if a == [] {
    } else {
      var i :| 0 <= i < |b| && b[i] == a[0];
      var j :| 0 <= j < |a| && a[j] == b[0];
      LessIsTotal(a[0], b[0]);
      assert a[0] == b[0];
      forall x ensures x in a[1..] <==> x in b[1..] {
        TailElements(a, x);
        TailElements(b, x);
      }
      SortedIsUnique(a[1..], b[1..]);
      assert a == [a[0]] + a[1..] && b == [b[0]] + b[1..];
    }
  }

  lemma TailElements(s: seq<string>, x: string)
    requires Sorted(s) && s != []
    ensures x in s[1..] <==> x in s && x != s[0]
  {
    if x in s && x != s[0] {
      var i :| 0 <= i < |s| && s[i] == x;
      assert s[1..][i - 1] == x;
    }
    LessIsTotal(s[0], s[0]);
  }

  /** The binary search of Go's `sort.SearchStrings`: the first index whose element is not below `x`. */
  method SearchStrings(s: seq<string>, x: string) returns (k: nat)
    requires Sorted(s)
    ensures k <= |s|
    ensures forall i :: 0 <= i < k ==> Less(s[i], x)
    ensures forall i :: k <= i < |s| ==> !Less(s[i], x)
  {
    var lo, hi := 0, |s|;
    while lo < hi
      invariant 0 <= lo <= hi <= |s|
      invariant forall i :: 0 <= i < lo ==> Less(s[i], x)
      invariant forall i :: hi <= i < |s| ==> !Less(s[i], x)
    {
      var mid := (lo + hi) / 2;
      if Less(s[mid], x) {
        forall i | 0 <= i <= mid ensures Less(s[i], x) {
          if i < mid { LessIsTransitive(s[i], s[mid], x); }
        }
        lo := mid + 1;
      } else {
        forall i | mid <= i < |s| ensures !Less(s[i], x) {
          if mid < i && Less(s[i], x) { LessIsTransitive(s[mid], s[i], x); }
        }
        hi := mid;
      }
    }
    k := lo;
  }

  /** Inserts `x` in order and keeps a list without duplicates that way. */
  method InsertSorted(s: seq<string>, x: string) returns (r: seq<string>)
    requires Sorted(s)
    ensures Sorted(r)
    ensures forall y :: y in r <==> y in s || y == x
  {
    var k := SearchStrings(s, x);
    if k < |s| && s[k] == x {
      r := s;
    } else {
      r := s[..k] + [x] + s[k..];
      forall i | k <= i < |s| ensures Less(x, s[i]) {
        LessIsTotal(x, s[i]);
        LessIsTotal(x, s[k]);
      }
      assert forall y :: y in s <==> y in s[..k] || y in s[k..] by { assert s == s[..k] + s[k..]; }
    }
  }

  /** Removes the first occurrence of `x`. */
  method RemoveFromSlice(s: seq<string>, x: string) returns (r: seq<string>)
    ensures x !in s ==> r == s
    ensures x in s ==> exists i :: 0 <= i < |s| && s[i] == x && x !in s[..i] && r == s[..i] + s[i + 1..]
    ensures Sorted(s) ==> Sorted(r) && forall y :: y in r <==> y in s && y != x
  {
    for i := 0 to |s|
      invariant x !in s[..i]
    {
      if s[i] == x {
        r := s[..i] + s[i + 1..];
        if Sorted(s) { RemovedElements(s, i); }
        return;
      }
    }
    r := s;
  }

  lemma RemovedElements(s: seq<string>, i: nat)
    requires Sorted(s) && i < |s|
    ensures Sorted(s[..i] + s[i + 1..])
    ensures forall y :: y in s[..i] + s[i + 1..] <==> y in s && y != s[i]
  {
    var r := s[..i] + s[i + 1..];
    LessIsTotal(s[i], s[i]);
    forall y | y in s && y != s[i] ensures y in r {
      var k :| 0 <= k < |s| && s[k] == y;
      assert r[if k < i then k else k - 1] == y;
    }
  }

  // ---------- sorted lists of sets ----------

  function Insert(s: seq<string>, x: string): seq<string> {
    if s == [] || Less(s[|s| - 1], x) then s + [x]
    else if s[|s| - 1] == x then s
    else Insert(s[..|s| - 1], x) + [s[|s| - 1]]
  }

  lemma {:induction false} InsertMeans(s: seq<string>, x: string)
    requires Sorted(s)
    ensures Sorted(Insert(s, x)) && forall y :: y in Insert(s, x) <==> y in s || y == x
  {
    if s != [] {
      var init, last := s[..|s| - 1], s[|s| - 1];
      assert s == init + [last];
      LessIsTotal(last, x);
      if Less(last, x) {
        forall i | 0 <= i < |s| ensures Less(s[i], x) { if i < |s| - 1 { LessIsTransitive(s[i], last, x); } }
      } else if last != x {
        InsertMeans(init, x);
        forall i | 0 <= i < |Insert(init, x)| ensures Less(Insert(init, x)[i], last) {
          assert Insert(init, x)[i] in Insert(init, x);
        }
      }
    }
  }

  /** The strictly sorted list of a set's members. */
  ghost function SortedList(s: set<string>): (r: seq<string>)
    ensures Sorted(r) && forall x :: x in r <==> x in s
  {
    if s == {} then []
    else
      var x :| x in s;
      var rest := SortedList(s - {x});
      InsertMeans(rest, x);
      Insert(rest, x)
  }

  // ---------- stable sorting ----------

  /** `x` goes behind everything that may stand before it, as in a stable sort. */
  function InsertStable<T>(s: seq<T>, x: T, le: (T, T) -> bool): seq<T> {
    if s == [] || le(s[|s| - 1], x) then s + [x]
    else InsertStable(s[..|s| - 1], x, le) + [s[|s| - 1]]
  }

  /** Go's `sort.SliceStable`, where `le(a, b)` says that `b` is not less than `a`. */
  function StableSort<T>(s: seq<T>, le: (T, T) -> bool): seq<T> {
    if s == [] then [] else InsertStable(StableSort(s[..|s| - 1], le), s[|s| - 1], le)
  }

  ghost predicate Ordered<T>(s: seq<T>, le: (T, T) -> bool) {
    forall i, j :: 0 <= i < j < |s| ==> le(s[i], s[j])
  }

  lemma {:induction false} OrderedIsUnchanged<T>(s: seq<T>, le: (T, T) -> bool)
    requires Ordered(s, le)
    ensures StableSort(s, le) == s
  {
    if s != [] {
      var init, x := s[..|s| - 1], s[|s| - 1];
      assert Ordered(init, le) && (init != [] ==> le(init[|init| - 1], x));
      hide Ordered;
      OrderedIsUnchanged(init, le);
      assert s == init + [x];
    }
  }

  lemma {:induction false} InsertPermutes<T>(s: seq<T>, x: T, le: (T, T) -> bool)
    ensures multiset(InsertStable(s, x, le)) == multiset(s) + multiset{x}
  {
    if s != [] && !le(s[|s| - 1], x) {
      InsertPermutes(s[..|s| - 1], x, le);
      assert s == s[..|s| - 1] + [s[|s| - 1]];
    }
  }

  /** Sorting loses nothing and adds nothing. */
  lemma {:induction false} SortPermutes<T>(s: seq<T>, le: (T, T) -> bool)
    ensures multiset(StableSort(s, le)) == multiset(s)
  {
    if s != [] {
      var init, x := s[..|s| - 1], s[|s| - 1];
      SortPermutes(init, le);
      InsertPermutes(StableSort(init, le), x, le);
      assert s == init + [x];
    }
  }

  /** A total preorder on the elements in `all`. */
  ghost predicate IsPreorder<T>(all: multiset<T>, le: (T, T) -> bool) {
    && (forall a, b :: a in all && b in all ==> le(a, b) || le(b, a))
    && forall a, b, c :: a in all && b in all && c in all && le(a, b) && le(b, c) ==> le(a, c)
  }

  lemma AppendOrders<T>(s: seq<T>, x: T, le: (T, T) -> bool)
    requires Ordered(s, le) && forall i :: 0 <= i < |s| ==> le(s[i], x)
    ensures Ordered(s + [x], le)
  {
  }

  lemma {:induction false} InsertOrders<T>(s: seq<T>, x: T, le: (T, T) -> bool)
    requires Ordered(s, le)
    requires forall a :: a in s ==> (le(a, x) || le(x, a)) && forall b :: b in s && le(b, a) && le(a, x) ==> le(b, x)
    ensures Ordered(InsertStable(s, x, le), le)
  {
    if s != [] {
      var init, last := s[..|s| - 1], s[|s| - 1];
      assert last in s && forall i :: 0 <= i < |init| ==> init[i] in s && le(init[i], last);
      if le(last, x) {
        forall i | 0 <= i < |s| ensures le(s[i], x) { if i < |s| - 1 { assert le(s[i], last); } }
        AppendOrders(s, x, le);
      } else {
        assert Ordered(init, le);
        InsertOrders(init, x, le);
        var r := InsertStable(init, x, le);
        InsertPermutes(init, x, le);
        forall i | 0 <= i < |r| ensures le(r[i], last) { FromInsert(init, x, last, r, le, i); }
        AppendOrders(r, last, le);
      }
    }
  }

  lemma FromInsert<T>(init: seq<T>, x: T, last: T, r: seq<T>, le: (T, T) -> bool, i: nat)
    requires multiset(r) == multiset(init) + multiset{x} && i < |r| && le(x, last)
      && forall k :: 0 <= k < |init| ==> le(init[k], last)
    ensures le(r[i], last)
  {
    assert r[i] in multiset(r);
    if r[i] != x { assert r[i] in init; }
  }

  lemma {:induction false} SortOrders<T>(s: seq<T>, le: (T, T) -> bool)
    requires IsPreorder(multiset(s), le)
    ensures Ordered(StableSort(s, le), le)
  {
    if s != [] {
      var init, x := s[..|s| - 1], s[|s| - 1];
      assert s == init + [x];
      SortOrders(init, le);
      SortPermutes(init, le);
      var r := StableSort(init, le);
      forall a | a in r ensures a in multiset(s) { assert a in multiset(r); }
      InsertOrders(r, x, le);
    }
  }

  function Only<T>(s: seq<T>, p: T -> bool): seq<T> {
    if s == [] then [] else Only(s[..|s| - 1], p) + if p(s[|s| - 1]) then [s[|s| - 1]] else []
  }

  lemma OnlyMore<T>(s: seq<T>, x: T, p: T -> bool)
    ensures Only(s + [x], p) == Only(s, p) + if p(x) then [x] else []
  {
    assert (s + [x])[..|s + [x]| - 1] == s;
  }

  lemma {:induction false} InsertIsStable<T>(s: seq<T>, x: T, le: (T, T) -> bool, p: T -> bool)
    requires p(x) ==> forall a :: a in s && p(a) ==> le(a, x)
    ensures Only(InsertStable(s, x, le), p) == Only(s, p) + if p(x) then [x] else []
  {
    if s == [] || le(s[|s| - 1], x) {
      OnlyMore(s, x, p);
    } else {
      var init, last := s[..|s| - 1], s[|s| - 1];
      assert last in s && s == init + [last];
      assert InsertStable(s, x, le) == InsertStable(init, x, le) + [last];
      InsertIsStable(init, x, le, p);
      hide InsertStable, Only;
      OnlyMore(init, last, p);
      OnlyMore(InsertStable(init, x, le), last, p);
    }
  }

  /** Elements that are equal in the order keep their places among each other. */
  lemma {:induction false} SortIsStable<T>(s: seq<T>, le: (T, T) -> bool, p: T -> bool)
    requires forall a, b :: a in s && b in s && p(a) && p(b) ==> le(a, b)
    ensures Only(StableSort(s, le), p) == Only(s, p)
  {
    if s != [] {
      var init, x := s[..|s| - 1], s[|s| - 1];
      assert s == init + [x];
      SortIsStable(init, le, p);
      SortPermutes(init, le);
      forall a | a in StableSort(init, le) && p(a) && p(x) ensures le(a, x) {
        assert a in multiset(StableSort(init, le));
        assert a in init && x in s;
      }
      InsertIsStable(StableSort(init, le), x, le, p);
    }
  }

  // ---------- backwards ----------

  function Reversed<T>(s: seq<T>): seq<T> {
    if s == [] then [] else Reversed(s[1..]) + [s[0]]
  }

  lemma {:induction false} ReversedIs<T>(s: seq<T>)
    ensures |Reversed(s)| == |s| && forall k :: 0 <= k < |s| ==> Reversed(s)[k] == s[|s| - 1 - k]
  {
    if s != [] { ReversedIs(s[1..]); }
  }

  lemma {:induction false} ReversedLast<T>(s: seq<T>)
    requires s != []
    ensures Reversed(s) == [s[|s| - 1]] + Reversed(s[..|s| - 1])
  {
    if |s| > 1 {
      var init := s[..|s| - 1];
      ReversedLast(s[1..]);
      assert init[1..] == s[1..][..|s| - 2];
      assert Reversed(init) == Reversed(init[1..]) + [s[0]];
    }
  }
}
