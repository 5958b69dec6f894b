/**
 Schema objects, the statements that change them, and what a script of statements does.
 REMOVE TABLE takes the table's fields, indexes and events with it.
 */
module Schema {
  import opened Wrappers
  import opened Order

  datatype ChildKind = Field | Index | Event

  /** Identifiers are compared the way the migration tools compare them. `Unrecognised` is whatever a
      statement is about when it is none of TABLE, FIELD, INDEX, EVENT. */
  datatype Object =
    | Table(table: string)
    | Child(table: string, kind: ChildKind, name: string)
    | Unrecognised(id: string)

  datatype Body =
    | TableBody(mode: string)
    | FieldBody(typ: string, assertion: string, default: string, value: string, readOnly: bool, flexible: bool)
    | IndexBody(clauses: string)
    | EventBody(condition: string, action: string)
    | OtherBody(text: string)

  datatype Target = Target(table: string, field: string)

  datatype Operation = Insert | Delete | Create | Unknown

  /** A statement and what the tools recognise in it. An UPDATE has a target when it sets a field of a table. */
  datatype Statement =
    | Define(obj: Object, body: Body)
    | Remove(obj: Object)
    | Update(target: Option<Target>, text: string)
    | Other(operation: Operation, text: string)

  datatype Migration = Migration(version: string, up: seq<Statement>, down: seq<Statement>, dependsOn: seq<string>)

  /** `b` is not of a lower version than `a`. */
  function InVersionOrder(): (Migration, Migration) -> bool {
    (a: Migration, b: Migration) => !Less(b.version, a.version)
  }

  type State = map<Object, Body>

  predicate Covers(o: Object, x: Object) {
    o == x || (o.Table? && x.Child? && x.table == o.table)
  }

  function Apply(st: Statement, s: State): State {
    match st
    case Define(o, b) => s[o := b]
    case Remove(o) => map x | x in s && !Covers(o, x) :: s[x]
    case _ => s
  }

  function Run(script: seq<Statement>, s: State): State {
    if script == [] then s
    else Apply(script[|script| - 1], Run(script[..|script| - 1], s))
  }

  /** What the database demands before it accepts a statement: a table for a child, an object to remove. */
  predicate Enabled(st: Statement, s: State) {
    match st
    case Define(o, _) => o.Child? ==> Table(o.table) in s
    case Remove(o) => o in s
    case _ => true
  }

  /** Every statement is accepted when its turn comes. */
  predicate Clean(script: seq<Statement>, s: State) {
    script != [] ==> Clean(script[..|script| - 1], s) && Enabled(script[|script| - 1], Run(script[..|script| - 1], s))
  }

  function Get(s: State, o: Object): Option<Body> {
    if o in s then Some(s[o]) else None
  }

  predicate Touches(st: Statement, o: Object) {
    match st
    case Define(d, _) => d == o
    case Remove(r) => Covers(r, o)
    case _ => false
  }

  /** What a statement that touches `o` leaves of it. */
  function Effect(st: Statement): Option<Body> {
    if st.Define? then Some(st.body) else None
  }

  lemma {:induction false} RunConcat(a: seq<Statement>, b: seq<Statement>, s: State)
    ensures Run(a + b, s) == Run(b, Run(a, s))
  {
    if b == [] {
      assert a + b == a;
    } else {
      assert (a + b)[..|a + b| - 1] == a + b[..|b| - 1];
      RunConcat(a, b[..|b| - 1], s);
    }
  }

  lemma {:induction false} CleanConcat(a: seq<Statement>, b: seq<Statement>, s: State)
    ensures Clean(a + b, s) <==> Clean(a, s) && Clean(b, Run(a, s))
  {
    if b == [] {
      assert a + b == a;
    } else {
      assert (a + b)[..|a + b| - 1] == a + b[..|b| - 1];
      CleanConcat(a, b[..|b| - 1], s);
      RunConcat(a, b[..|b| - 1], s);
    }
  }

  lemma RunOne(st: Statement, s: State)
    ensures Run([st], s) == Apply(st, s) && (Clean([st], s) <==> Enabled(st, s))
  {
    assert [st][..0] == [];
  }

  lemma SameObjects(s: State, t: State)
    requires forall o :: Get(s, o) == Get(t, o)
    ensures s == t
  {
    forall o ensures o in s <==> o in t { assert Get(s, o) == Get(t, o); }
    forall o | o in s ensures s[o] == t[o] { assert Get(s, o) == Get(t, o); }
  }

  // ---------- running a script with some of its statements left out ----------

  /** The statements of the first `n` whose positions are not in `dropped`, in order. */
  function Keep(script: seq<Statement>, dropped: set<nat>, n: nat): seq<Statement>
    requires n <= |script|
  {
    if n == 0 then []
    else Keep(script, dropped, n - 1) + (if n - 1 in dropped then [] else [script[n - 1]])
  }

  lemma RunKeep(script: seq<Statement>, dropped: set<nat>, n: nat, s: State)
    requires 0 < n <= |script|
    ensures Run(Keep(script, dropped, n), s) ==
            if n - 1 in dropped then Run(Keep(script, dropped, n - 1), s)
            else Apply(script[n - 1], Run(Keep(script, dropped, n - 1), s))
  {
    var k := Keep(script, dropped, n - 1);
    assert k + [] == k && (k + [script[n - 1]])[..|k|] == k;
  }

  lemma ApplyDecides(st: Statement, s: State, o: Object)
    ensures Get(Apply(st, s), o) == if Touches(st, o) then Effect(st) else Get(s, o)
  {
  }

  /** The last statement kept that touches `o` decides what `o` is. */
  lemma {:induction false} LastKeptDecides(script: seq<Statement>, dropped: set<nat>, n: nat, s: State, o: Object,
                                           i: nat)
    requires i < n <= |script| && i !in dropped && Touches(script[i], o)
    requires forall j :: i < j < n && Touches(script[j], o) ==> j in dropped
    ensures Get(Run(Keep(script, dropped, n), s), o) == Effect(script[i])
  {
    RunKeep(script, dropped, n, s);
    ApplyDecides(script[n - 1], Run(Keep(script, dropped, n - 1), s), o);
    hide Run, Keep, Apply, Get, Effect, Covers;
    if i < n - 1 { LastKeptDecides(script, dropped, n - 1, s, o, i); }
  }

  lemma {:induction false} NoneKeptNoChange(script: seq<Statement>, dropped: set<nat>, n: nat, s: State, o: Object)
    requires n <= |script|
    requires forall j :: 0 <= j < n && Touches(script[j], o) ==> j in dropped
    ensures Get(Run(Keep(script, dropped, n), s), o) == Get(s, o)
  {
    if n > 0 {
      RunKeep(script, dropped, n, s);
      ApplyDecides(script[n - 1], Run(Keep(script, dropped, n - 1), s), o);
      hide Run, Keep, Apply, Effect, Covers;
      NoneKeptNoChange(script, dropped, n - 1, s, o);
    }
  }

  lemma {:induction false} KeepAll(script: seq<Statement>, n: nat)
    requires n <= |script|
    ensures Keep(script, {}, n) == script[..n]
  {
    if n > 0 {
      KeepAll(script, n - 1);
      assert script[..n] == script[..n - 1] + [script[n - 1]];
    }
  }

  lemma LastDecides(script: seq<Statement>, s: State, o: Object, i: nat)
    requires i < |script| && Touches(script[i], o)
    requires forall j :: i < j < |script| ==> !Touches(script[j], o)
    ensures Get(Run(script, s), o) == Effect(script[i])
  {
    KeepAll(script, |script|);
    LastKeptDecides(script, {}, |script|, s, o, i);
    assert script[..|script|] == script;
  }

  lemma NoneNoChange(script: seq<Statement>, s: State, o: Object)
    requires forall j :: 0 <= j < |script| ==> !Touches(script[j], o)
    ensures Get(Run(script, s), o) == Get(s, o)
  {
    KeepAll(script, |script|);
    NoneKeptNoChange(script, {}, |script|, s, o);
    assert script[..|script|] == script;
  }

  // ---------- when a script is accepted ----------

  /** The object that must be there: the table of a part that is defined, or what is removed. */
  function Needs(st: Statement): Option<Object> {
    match st
    case Define(o, _) => if o.Child? then Some(Table(o.table)) else None
    case Remove(o) => Some(o)
    case _ => None
  }

  lemma EnabledIs(st: Statement, s: State)
    ensures Enabled(st, s) <==> (Needs(st).Some? ==> Needs(st).value in s)
  {
  }

  /** The last kept statement before `n` that touches `o` is a DEFINE. */
  predicate DefinedBefore(script: seq<Statement>, dropped: set<nat>, n: nat, o: Object)
    requires n <= |script|
  {
    exists j :: 0 <= j < n && j !in dropped && script[j].Define? && Touches(script[j], o)
      && forall k :: j < k < n && Touches(script[k], o) ==> k in dropped
  }

  predicate TouchedBefore(script: seq<Statement>, dropped: set<nat>, n: nat, o: Object)
    requires n <= |script|
  {
    exists j :: 0 <= j < n && j !in dropped && Touches(script[j], o)
  }

  predicate Present(script: seq<Statement>, dropped: set<nat>, n: nat, s: State, o: Object)
    requires n <= |script|
  {
    DefinedBefore(script, dropped, n, o) || (o in s && !TouchedBefore(script, dropped, n, o))
  }

  lemma {:induction false} LastKeptToucher(script: seq<Statement>, dropped: set<nat>, n: nat, m: nat, o: Object)
      returns (i: nat)
    requires m <= n <= |script| && TouchedBefore(script, dropped, m, o)
    requires forall k :: m <= k < n && Touches(script[k], o) ==> k in dropped
    ensures i < n && i !in dropped && Touches(script[i], o)
      && forall k :: i < k < n && Touches(script[k], o) ==> k in dropped
  {
    if m - 1 !in dropped && Touches(script[m - 1], o) {
      i := m - 1;
    } else {
      i := LastKeptToucher(script, dropped, n, m - 1, o);
    }
  }

  lemma PresentIs(script: seq<Statement>, dropped: set<nat>, n: nat, s: State, o: Object)
    requires n <= |script|
    ensures Present(script, dropped, n, s, o) <==> o in Run(Keep(script, dropped, n), s)
  {
    hide Keep, Run, Touches;
    if TouchedBefore(script, dropped, n, o) {
      var i := LastKeptToucher(script, dropped, n, n, o);
      LastKeptDecides(script, dropped, n, s, o, i);
    } else {
      NoneKeptNoChange(script, dropped, n, s, o);
    }
  }

  ghost predicate Accepted(script: seq<Statement>, dropped: set<nat>, s: State, i: nat)
    requires i < |script|
  {
    i !in dropped && Needs(script[i]).Some? ==> Present(script, dropped, i, s, Needs(script[i]).value)
  }

  /**
   What is kept of a script is accepted exactly if each kept statement finds what it needs, put there by the last kept
   one before it to touch that.
   */
  lemma {:induction false} KeptIsCleanIf(script: seq<Statement>, dropped: set<nat>, n: nat, s: State)
    requires n <= |script|
    ensures Clean(Keep(script, dropped, n), s) <==> forall i :: 0 <= i < n ==> Accepted(script, dropped, s, i)
  {
    hide Accepted;
    if n > 0 {
      KeptIsCleanIf(script, dropped, n - 1, s);
      OneMoreAccepted(script, dropped, n, s);
      hide Keep, Clean;
      assert Clean(Keep(script, dropped, n), s) <==> forall i :: 0 <= i < n ==> Accepted(script, dropped, s, i);
    }
  }

  lemma OneMoreAccepted(script: seq<Statement>, dropped: set<nat>, n: nat, s: State)
    requires 0 < n <= |script|
    ensures Clean(Keep(script, dropped, n), s) <==>
      Clean(Keep(script, dropped, n - 1), s) && Accepted(script, dropped, s, n - 1)
  {
    CleanKeep(script, dropped, n, s);
    EnabledIs(script[n - 1], Run(Keep(script, dropped, n - 1), s));
    if Needs(script[n - 1]).Some? { PresentIs(script, dropped, n - 1, s, Needs(script[n - 1]).value); }
    hide Keep, Run, Clean, Present, Needs, Enabled;
  }

  lemma CleanKeep(script: seq<Statement>, dropped: set<nat>, n: nat, s: State)
    requires 0 < n <= |script|
    ensures Clean(Keep(script, dropped, n), s) <==>
      Clean(Keep(script, dropped, n - 1), s)
        && (n - 1 in dropped || Enabled(script[n - 1], Run(Keep(script, dropped, n - 1), s)))
  {
    var k := Keep(script, dropped, n - 1);
    assert k + [] == k && (k + [script[n - 1]])[..|k|] == k;
    hide Enabled, Run;
  }

  lemma CleanIf(script: seq<Statement>, s: State)
    ensures Clean(script, s) <==> forall i :: 0 <= i < |script| ==> Accepted(script, {}, s, i)
  {
    KeepAll(script, |script|);
    KeptIsCleanIf(script, {}, |script|, s);
    assert script[..|script|] == script;
  }

  // ---------- positions ----------

  /** Positions kept, ascending: where the statements of `Keep` come from. */
  function KeptAt(dropped: set<nat>, n: nat): (r: seq<nat>)
    ensures forall a :: 0 <= a < |r| ==> r[a] < n && r[a] !in dropped
    ensures forall a, b :: 0 <= a < b < |r| ==> r[a] < r[b]
    ensures forall i :: 0 <= i < n && i !in dropped ==> i in r
  {
    if n == 0 then [] else KeptAt(dropped, n - 1) + (if n - 1 in dropped then [] else [n - 1])
  }

  /** `Keep` is the subsequence of the script at the positions not dropped. */
  lemma {:induction false} KeepIsSubsequence(script: seq<Statement>, dropped: set<nat>, n: nat)
    requires n <= |script|
    ensures |Keep(script, dropped, n)| == |KeptAt(dropped, n)|
    ensures forall a :: 0 <= a < |KeptAt(dropped, n)| ==> Keep(script, dropped, n)[a] == script[KeptAt(dropped, n)[a]]
  {
    if n > 0 {
      KeepIsSubsequence(script, dropped, n - 1);
      var k, at := Keep(script, dropped, n - 1), KeptAt(dropped, n - 1);
      var x, y := if n - 1 in dropped then [] else [script[n - 1]], if n - 1 in dropped then [] else [n - 1];
      assert Keep(script, dropped, n) == k + x && KeptAt(dropped, n) == at + y;
      hide Keep, KeptAt;
      StillSubsequence(script, k, at, x, y);
    }
  }

  lemma StillSubsequence(script: seq<Statement>, k: seq<Statement>, at: seq<nat>, x: seq<Statement>, y: seq<nat>)
    requires |k| == |at| && forall a :: 0 <= a < |at| ==> at[a] < |script| && k[a] == script[at[a]]
    requires (x == [] && y == []) || (|x| == 1 && |y| == 1 && y[0] < |script| && x[0] == script[y[0]])
    ensures |k + x| == |at + y| &&
      forall a :: 0 <= a < |at + y| ==> (at + y)[a] < |script| && (k + x)[a] == script[(at + y)[a]]
  {
  }

  lemma {:induction false} KeepCounts(script: seq<Statement>, dropped: set<nat>, n: nat)
    requires n <= |script| && forall i :: i in dropped ==> i < n
    ensures |Keep(script, dropped, n)| + |dropped| == n
    decreases n
  {
    if n == 0 {
      assert dropped == {};
    } else if n - 1 in dropped {
      KeepCounts(script, dropped - {n - 1}, n - 1);
      SameBelow(script, dropped, dropped - {n - 1}, n - 1);
    } else {
      KeepCounts(script, dropped, n - 1);
    }
  }

  lemma SameBelow(script: seq<Statement>, a: set<nat>, b: set<nat>, n: nat)
    requires n <= |script| && forall i :: 0 <= i < n ==> (i in a <==> i in b)
    ensures Keep(script, a, n) == Keep(script, b, n)
  {
  }
}
