/** When the database accepts the scripts that squashing makes, statement by statement. */
module SquashAcceptance {
  import opened Wrappers
  import opened Order
  import opened Schema
  import opened Optimizer
  import opened SquashSafety
  import opened Squash

  // ---------- what the optimiser keeps ----------

  predicate IsLastDefine(script: seq<Statement>, i: nat)
    requires i < |script|
  {
    script[i].Define? && forall k :: i < k < |script| && script[k].Define? ==> script[k].obj != script[i].obj
  }

  /**
   The last DEFINE of a recognised object, if some stretch up to the end DEFINEs that more often than it REMOVEs it.
   */
  ghost predicate KeptDefine(script: seq<Statement>, i: nat)
    requires i < |script|
  {
    IsLastDefine(script, i) && !script[i].obj.Unrecognised? && Surplus(script, script[i].obj, |script|)
  }

  lemma KeptDefineIs(script: seq<Statement>, i: nat)
    requires i < |script| && script[i].Define? && !script[i].obj.Unrecognised?
    ensures i !in Removed(script) <==> KeptDefine(script, i)
  {
    var o := script[i].obj;
    hide Surplus, Removed;
    if !Surplus(script, o, |script|) {
      NoDefineStays(script, o);
    } else {
      var d := LastDefineStays(script, o);
      assert d == i || i < d;
      if i < d && i !in Removed(script) { SurvivorsNeverMatch(script, i, d); }
    }
  }

  lemma KeptRemoveIs(script: seq<Statement>, i: nat)
    requires i < |script| && script[i].Remove?
    ensures i !in Removed(script) <==> script[i].obj.Unrecognised? || !Surplus(script, script[i].obj, i)
  {
    hide Surplus;
    if script[i].obj.Unrecognised? {
      if i in Paired(script) { PairedKinds(script, i); }
    } else {
      TouchersDropped(script, script[i].obj, i);
    }
  }

  lemma KeptUnrecognisedIs(script: seq<Statement>, i: nat)
    requires i < |script| && script[i].Define? && script[i].obj.Unrecognised?
    ensures i !in Removed(script) <==> !LaterUnrecognised(script, i)
  {
    if i in Paired(script) { PairedKinds(script, i); }
    if j :| i < j < |script| && script[j].Define? && script[j].obj.Unrecognised? {
      if j in Paired(script) { PairedKinds(script, j); }
      assert IsSuperseded(script, i, |script|);
    }
  }

  /** Some DEFINE of the field has a REMOVE of it behind it, or it is defined twice. */
  predicate FieldIsDropped(script: seq<Statement>, t: Target) {
    t.table != "" && t.field != "" && exists a, b ::
      0 <= a < b < |script| && script[a].Define? && script[a].obj == Child(t.table, Field, t.field)
      && (script[b].Define? || script[b].Remove?) && script[b].obj == script[a].obj
  }

  lemma DroppedFieldIs(script: seq<Statement>, t: Target)
    ensures FieldIsDropped(script, t) <==>
      exists k :: k in Paired(script) + Superseded(script) && k < |script| && AboutField(script[k], t)
  {
    var o := Child(t.table, Field, t.field);
    forall k | 0 <= k < |script|
      ensures AboutField(script[k], t) <==>
        (t.table != "" && t.field != "" && (script[k].Define? || script[k].Remove?) && script[k].obj == o) {}
    hide AboutField, Removed;
    if FieldIsDropped(script, t) {
      var a, b :| 0 <= a < b < |script| && script[a].Define? && script[a].obj == o
        && (script[b].Define? || script[b].Remove?) && script[b].obj == o;
      FieldStatementGoes(script, a, b);
    } else if k :| k in Paired(script) + Superseded(script) && k < |script| && AboutField(script[k], t) {
      if k in Paired(script) { NotPairedUnmatched(script, k, o); }
    }
  }

  /** Of a DEFINE and a later DEFINE or REMOVE of its object, one goes in the first two passes. */
  lemma FieldStatementGoes(script: seq<Statement>, a: nat, b: nat)
    requires a < b < |script| && script[a].Define? && !script[a].obj.Unrecognised?
    requires (script[b].Define? || script[b].Remove?) && script[b].obj == script[a].obj
    ensures a in Paired(script) + Superseded(script) || b in Paired(script) + Superseded(script)
  {
    if script[b].Remove? {
      NothingSkipped(script, a, b);
    } else if a !in Paired(script) && b !in Paired(script) {
      assert IsSuperseded(script, a, |script|);
    }
  }

  lemma KeptOtherIs(script: seq<Statement>, i: nat)
    requires i < |script| && (script[i].Update? || script[i].Other?)
    ensures i !in Removed(script) <==>
      !(script[i].Update? && script[i].target.Some? && FieldIsDropped(script, script[i].target.value))
  {
    if i in Paired(script) { PairedKinds(script, i); }
    if script[i].Update? && script[i].target.Some? { DroppedFieldIs(script, script[i].target.value); }
    hide FieldIsDropped, AboutField, Paired;
  }

  /**
   What remains of a script: a REMOVE unless some stretch before it DEFINEs its object more often than it REMOVEs it;
   of each object the last DEFINE, if that is so at the end; an UPDATE unless its field is dropped; everything else.
   */
  ghost predicate Remains(script: seq<Statement>, i: nat)
    requires i < |script|
  {
    match script[i]
    case Define(o, _) => if o.Unrecognised? then !LaterUnrecognised(script, i) else KeptDefine(script, i)
    case Remove(o) => o.Unrecognised? || !Surplus(script, o, i)
    case Update(t, _) => t.Some? ==> !FieldIsDropped(script, t.value)
    case Other(_, _) => true
  }

  lemma RemainsIfKept(script: seq<Statement>, i: nat)
    requires i < |script|
    ensures i !in Removed(script) <==> Remains(script, i)
  {
    hide Removed, Surplus, KeptDefine, LaterUnrecognised, FieldIsDropped;
    match script[i]
    case Define(o, _) => if o.Unrecognised? { KeptUnrecognisedIs(script, i); } else { KeptDefineIs(script, i); }
    case Remove(o) => KeptRemoveIs(script, i);
    case _ => KeptOtherIs(script, i);
  }

  /** The optimised script holds exactly what remains, in the order of the script. */
  lemma OptimisedIsWhatRemains(script: seq<Statement>) returns (at: seq<nat>)
    ensures |at| == |Optimised(script)|
    ensures forall k :: 0 <= k < |at| ==> at[k] < |script| && Optimised(script)[k] == script[at[k]]
    ensures forall k, l :: 0 <= k < l < |at| ==> at[k] < at[l]
    ensures forall i :: 0 <= i < |script| ==> (i in at <==> Remains(script, i))
  {
    at := KeptAt(Removed(script), |script|);
    KeepIsSubsequence(script, Removed(script), |script|);
    hide Removed, Remains, KeptAt;
    forall i | 0 <= i < |script| ensures i in at <==> Remains(script, i) { RemainsIfKept(script, i); }
  }

  // ---------- what the kept statements find ----------

  /** Every REMOVE before `n` that takes `o` away is cancelled. */
  ghost predicate RemovalsCancelled(script: seq<Statement>, o: Object, n: nat)
    requires n <= |script|
  {
    forall r :: 0 <= r < n && script[r].Remove? && Covers(script[r].obj, o) ==> Surplus(script, script[r].obj, r)
  }

  /** The kept DEFINE of the table comes first, or the table is there and stays. */
  ghost predicate TableStays(script: seq<Statement>, s: State, o: Object, n: nat)
    requires n <= |script|
  {
    (exists d :: 0 <= d < n && script[d].Define? && script[d].obj == o && KeptDefine(script, d))
      || (o in s && RemovalsCancelled(script, o, n))
  }

  predicate RemovedBetween(script: seq<Statement>, o: Object, i: int, n: nat)
    requires n <= |script| && -1 <= i
  {
    exists r :: i < r < n && script[r] == Remove(o)
  }

  /**
   For an unrecognised object: the last of all unrecognised DEFINEs is its own and comes first, or it is there, and no
   REMOVE of it comes after.
   */
  ghost predicate IdStays(script: seq<Statement>, s: State, o: Object, n: nat)
    requires n <= |script|
  {
    || (exists d ::
      0 <= d < n && script[d].Define? && script[d].obj == o && !LaterUnrecognised(script, d)
      && !RemovedBetween(script, o, d, n))
    || (o in s && !RemovedBetween(script, o, -1, n))
  }

  /** If statement `i` is kept, it finds what it needs: a part its table, a REMOVE its object. */
  ghost predicate StillAccepted(script: seq<Statement>, s: State, i: nat)
    requires i < |script|
  {
    match script[i]
    case Define(o, _) => KeptDefine(script, i) && o.Child? ==> TableStays(script, s, Table(o.table), i)
    case Remove(o) => if o.Unrecognised?
      then IdStays(script, s, o, i) else !Surplus(script, o, i) ==> o in s && RemovalsCancelled(script, o, i)
    case _ => true
  }

  lemma RemovalsAre(script: seq<Statement>, o: Object, n: nat)
    requires n <= |script| && !o.Unrecognised?
    ensures RemovalsCancelled(script, o, n) <==>
      forall r :: 0 <= r < n && script[r].Remove? && Touches(script[r], o) ==> r in Removed(script)
  {
    hide Surplus, Removed;
    forall r | 0 <= r < n && script[r].Remove? && Covers(script[r].obj, o)
      ensures r in Removed(script) <==> Surplus(script, script[r].obj, r)
    {
      KeptRemoveIs(script, r);
    }
  }

  lemma TableIsFound(script: seq<Statement>, s: State, t: string, n: nat)
    requires n <= |script|
    ensures Present(script, Removed(script), n, s, Table(t)) <==> TableStays(script, s, Table(t), n)
  {
    hide Surplus, Removed, RemovalsCancelled, KeptDefine;
    var o := Table(t);
    RemovalsAre(script, o, n);
    if d :| 0 <= d < n && script[d].Define? && script[d].obj == o && d !in Removed(script) {
      KeptDefineIs(script, d);
      forall k | d < k < n && Touches(script[k], o) ensures k in Removed(script) {
        if k !in Removed(script) { SurvivorsNeverMatch(script, d, k); }
      }
      assert DefinedBefore(script, Removed(script), n, o);
    } else {
      forall d | 0 <= d < n && script[d].Define? && script[d].obj == o ensures !KeptDefine(script, d) {
        KeptDefineIs(script, d);
      }
      assert !DefinedBefore(script, Removed(script), n, o);
    }
  }

  lemma ObjectIsFound(script: seq<Statement>, s: State, i: nat)
    requires i < |script| && script[i].Remove? && !script[i].obj.Unrecognised? && i !in Removed(script)
    ensures Present(script, Removed(script), i, s, script[i].obj) <==>
      script[i].obj in s && RemovalsCancelled(script, script[i].obj, i)
  {
    hide Surplus, Removed, RemovalsCancelled;
    var o := script[i].obj;
    RemovalsAre(script, o, i);
    forall d | 0 <= d < i && script[d].Define? && Touches(script[d], o) ensures d in Removed(script) {
      if d !in Removed(script) { SurvivorsNeverMatch(script, d, i); }
    }
  }

  lemma IdIsFound(script: seq<Statement>, s: State, o: Object, n: nat)
    requires n <= |script| && o.Unrecognised?
    ensures Present(script, Removed(script), n, s, o) <==> IdStays(script, s, o, n)
  {
    hide Removed;
    forall k | 0 <= k < n && Touches(script[k], o)
      ensures k in Removed(script) <==> script[k].Define? && LaterUnrecognised(script, k)
      ensures script[k].Remove? ==> script[k] == Remove(o)
    {
      if script[k].Define? { KeptUnrecognisedIs(script, k); } else { KeptRemoveIs(script, k); }
    }
    if d :| 0 <= d < n && script[d].Define? && script[d].obj == o && !LaterUnrecognised(script, d) {
      assert Present(script, Removed(script), n, s, o) ==> IdStays(script, s, o, n);
    }
  }

  lemma AcceptedIs(script: seq<Statement>, s: State, i: nat)
    requires i < |script|
    ensures Accepted(script, Removed(script), s, i) <==> StillAccepted(script, s, i)
  {
    hide Surplus, Removed, Present, TableStays, IdStays, RemovalsCancelled, KeptDefine;
    match script[i]
    case Define(o, _) =>
      if o.Child? {
        KeptDefineIs(script, i);
        TableIsFound(script, s, o.table, i);
      }
    case Remove(o) =>
      KeptRemoveIs(script, i);
      if o.Unrecognised? { IdIsFound(script, s, o, i); } else if i !in Removed(script) { ObjectIsFound(script, s, i); }
    case _ =>
  }

  /** The optimised script is accepted from `s` exactly if every statement that is kept finds what it needs. */
  lemma OptimisedIsAccepted(script: seq<Statement>, s: State)
    ensures Clean(Optimised(script), s) <==> forall i :: 0 <= i < |script| ==> StillAccepted(script, s, i)
  {
    KeptIsCleanIf(script, Removed(script), |script|, s);
    hide Clean, Accepted, StillAccepted, Removed;
    forall i | 0 <= i < |script| ensures Accepted(script, Removed(script), s, i) <==> StillAccepted(script, s, i) {
      AcceptedIs(script, s, i);
    }
  }

  // ---------- scripts that stay accepted, and one that does not ----------

  /** No later statement defines or removes the object that statement `i` defines. */
  predicate IsFinal(script: seq<Statement>, i: nat)
    requires i < |script|
  {
    script[i].Define? && forall k ::
      i < k < |script| && (script[k].Define? || script[k].Remove?) ==> script[k].obj != script[i].obj
  }

  lemma FinalIsKept(script: seq<Statement>, i: nat)
    requires i < |script| && script[i].Define? && !script[i].obj.Unrecognised? && Alternates(script, script[i].obj)
    ensures KeptDefine(script, i) <==> IsFinal(script, i)
  {
    var o := script[i].obj;
    KeptDefineIs(script, i);
    PendingIsSurplus(script, o, |script|);
    hide Surplus, Alternates, Pairing;
    if r :| i < r < |script| && script[r] == Remove(o) {
      AlternatingPairs(script, o, i, r);
    } else if i in Pairing(script, |script|) {
      PairFacts(script, i);
    } else {
      assert i in Defs(script, o, 0, |script|);
    }
  }

  /** In an accepted alternating script, a REMOVE that is kept finds its object. */
  lemma RemoveStaysAccepted(script: seq<Statement>, s: State, i: nat)
    requires AllRecognised(script) && i < |script| && script[i].Remove? && Alternates(script, script[i].obj)
      && Accepted(script, {}, s, i)
    ensures StillAccepted(script, s, i)
  {
    var o := script[i].obj;
    CancelledIsSurplus(script, i);
    hide Alternates, Pairing, Surplus;
    if DefinedBefore(script, {}, i, o) {
      var d :| 0 <= d < i && script[d].Define? && Touches(script[d], o)
        && forall k :: d < k < i && Touches(script[k], o) ==> k in {};
      AlternatingPairs(script, o, d, i);
      PairFacts(script, d);
    }
  }

  /**
   The table of a part that stays is there for it, unless it is defined again later and was not there from the start.
   */
  predicate FindsTable(script: seq<Statement>, s: State, i: nat)
    requires i < |script| && script[i].Define?
  {
    script[i].obj.Child? && IsFinal(script, i) ==>
      var t := Table(script[i].obj.table);
      (exists k :: i < k < |script| && script[k].Define? && script[k].obj == t) ==>
        t in s && !RemovedBetween(script, t, -1, i)
  }

  lemma TableIsNotRemoved(script: seq<Statement>, i: nat, k: nat)
    requires RemovesParts(script) && i < k < |script| && IsFinal(script, i) && script[i].obj.Child?
    ensures script[k] != Remove(Table(script[i].obj.table))
  {
    if script[k] == Remove(Table(script[i].obj.table)) { assert Touches(script[k], script[i].obj); }
  }

  lemma DefineStaysAccepted(script: seq<Statement>, s: State, i: nat)
    requires IsAlternating(script, s) && i < |script| && script[i].Define? && script[i].obj.Child?
      && Accepted(script, {}, s, i)
    ensures StillAccepted(script, s, i) <==> FindsTable(script, s, i)
  {
    var t := Table(script[i].obj.table);
    assert Alternates(script, script[i].obj) && Alternates(script, t);
    FinalIsKept(script, i);
    hide Alternates, KeptDefine, IsAlternating, Surplus;
    if IsFinal(script, i) {
      if k :| i < k < |script| && script[k].Define? && script[k].obj == t {
        TableDefinedAgain(script, s, t, i, k);
      } else {
        TableDefinedBefore(script, s, t, i);
      }
    }
  }

  lemma TableDefinedAgain(script: seq<Statement>, s: State, t: Object, i: nat, k: nat)
    requires t.Table? && StartsWithout(script, s) && i < k < |script| && script[k].Define? && script[k].obj == t
    ensures TableStays(script, s, t, i) <==> t in s && !RemovedBetween(script, t, -1, i)
  {
    hide Surplus;
    if r :| t in s && 0 <= r < i && script[r] == Remove(t) {
      var first := FirstRemove(script, s, r);
      assert script[first].Remove? && Covers(script[first].obj, t);
    }
  }

  lemma TableDefinedBefore(script: seq<Statement>, s: State, t: Object, i: nat)
    requires t.Table? && Alternates(script, t) && RemovesParts(script) && i < |script| && IsFinal(script, i)
      && script[i].obj.Child? && t == Table(script[i].obj.table)
    requires Accepted(script, {}, s, i) && forall k :: i < k < |script| && script[k].Define? ==> script[k].obj != t
    ensures TableStays(script, s, t, i)
  {
    hide Alternates, KeptDefine, Surplus;
    if DefinedBefore(script, {}, i, t) {
      var d :| 0 <= d < i && script[d].Define? && Touches(script[d], t)
        && forall k :: d < k < i && Touches(script[k], t) ==> k in {};
      forall k | d < k < |script| && (script[k].Define? || script[k].Remove?) ensures script[k].obj != t {
        if k < i { assert !Touches(script[k], t); } else if i < k { TableIsNotRemoved(script, i, k); }
      }
      FinalIsKept(script, d);
    }
  }

  /**
   An accepted alternating script stays accepted exactly if no table is only defined again after a part of it that
   stays.
   */
  lemma AlternatingIsAccepted(script: seq<Statement>, s: State)
    requires IsAlternating(script, s) && Clean(script, s)
    ensures Clean(Optimised(script), s) <==>
      forall i :: 0 <= i < |script| && script[i].Define? ==> FindsTable(script, s, i)
  {
    CleanIf(script, s);
    OptimisedIsAccepted(script, s);
    forall i | 0 <= i < |script|
      ensures StillAccepted(script, s, i) <==> (script[i].Define? ==> FindsTable(script, s, i))
    {
      assert Accepted(script, {}, s, i);
      if script[i].Remove? {
        assert Alternates(script, script[i].obj);
        hide Alternates;
        RemoveStaysAccepted(script, s, i);
      } else if script[i].Define? && script[i].obj.Child? {
        DefineStaysAccepted(script, s, i);
      }
    }
  }

  /**
   A table defined again after its field: the optimised script means the same, but begins with the field and is
   refused.
   */
  lemma RedefinedTableIsRefused(script: seq<Statement>)
    requires script == [Define(TABLE, OtherBody("a")), Define(FIELD, OtherBody("b")), Define(TABLE, OtherBody("c"))]
    ensures Clean(script, map[]) && Run(Optimised(script), map[]) == Run(script, map[])
      && !Clean(Optimised(script), map[])
  {
    var a, b, c := Define(TABLE, OtherBody("a")), Define(FIELD, OtherBody("b")), Define(TABLE, OtherBody("c"));
    assert Optimised(script) == [b] + [c] by {
      NoMatchNoPair(script, 3);
      assert IsSuperseded(script, 0, 3);
      assert Removed(script) == {0};
      KeepOfThree(script, {0});
    }
    assert script == [a] + ([b] + [c]);
    hide *;
    var s: State := map[];
    var one, two := Apply(a, s), Apply(b, Apply(a, s));
    RunConcat([a], [b] + [c], s);
    RunConcat([b], [c], one);
    RunConcat([b], [c], s);
    CleanConcat([a], [b] + [c], s);
    CleanConcat([b], [c], one);
    CleanConcat([b], [c], s);
    RunOne(a, s);
    RunOne(b, one);
    RunOne(c, two);
    RunOne(b, s);
    RunOne(c, Apply(b, s));
    assert one == map[TABLE := OtherBody("a")] && two == map[TABLE := OtherBody("a"), FIELD := OtherBody("b")]
      && Apply(b, s) == map[FIELD := OtherBody("b")] && FIELD.table == "t" by { Steps(); }
    assert Enabled(a, s) && Enabled(b, one) && Enabled(c, two) && !Enabled(b, s) by { Steps(); }
    assert Apply(c, two) == Apply(c, Apply(b, s)) by { Steps(); }
  }

  lemma Steps()
    ensures
      var a, b, c := Define(TABLE, OtherBody("a")), Define(FIELD, OtherBody("b")), Define(TABLE, OtherBody("c"));
      var one: State, two: State, other: State := map[TABLE := OtherBody("a")],
        map[TABLE := OtherBody("a"), FIELD := OtherBody("b")], map[FIELD := OtherBody("b")];
      && one == Apply(a, map[]) && two == Apply(b, one) && other == Apply(b, map[]) && Apply(c, two) == Apply(c, other)
      && Enabled(a, map[]) && Enabled(b, one) && Enabled(c, two) && !Enabled(b, map[]) && FIELD.table == "t"
  {
  }

  // ---------- the squashed down script ----------

  /**
   What undoing `ms`, squashed, leaves of `o`: the oldest migration that touches it decides, by its first statement to
   do so.
   */
  function AfterUndoing(ms: seq<Migration>, s: State, o: Object): Option<Body> {
    if ms == [] then Get(s, o) else if AnyTouches(ms[0].down, o)
      then FirstEffect(ms[0].down, o) else AfterUndoing(ms[1..], s, o)
  }

  lemma {:induction false} AfterUndoingIs(ms: seq<Migration>, s: State, o: Object)
    ensures Get(Run(MergedDown(ms), s), o) == AfterUndoing(ms, s, o)
  {
    if ms != [] {
      LastEffectDecides(MergedDown(ms[1..]), Reversed(ms[0].down), s, o);
      ReverseSwapsEnds(ms[0].down, o);
      hide Run, Reversed, FirstEffect, LastEffect, AnyTouches;
      AfterUndoingIs(ms[1..], s, o);
    }
  }

  /**
   `o` is there before statement `p` of a script that runs from its end: the nearest statement behind `p` to touch `o`
   decides, or what was there.
   */
  predicate FoundBehind(script: seq<Statement>, p: nat, was: Option<Body>, o: Object)
    requires p < |script|
  {
    if AnyTouches(script[p + 1..], o) then FirstEffect(script[p + 1..], o).Some? else was.Some?
  }

  ghost predicate AcceptedFromEnd(script: seq<Statement>, s: State, p: nat)
    requires p < |script|
  {
    Needs(script[p]).Some? ==> FoundBehind(script, p, Get(s, Needs(script[p]).value), Needs(script[p]).value)
  }

  lemma FirstIsAcceptedLast(script: seq<Statement>, s: State)
    requires script != []
    ensures Clean(Reversed(script), s) <==> Clean(Reversed(script[1..]), s) && AcceptedFromEnd(script, s, 0)
  {
    var st, rest := script[0], Reversed(script[1..]);
    CleanConcat(rest, [st], s);
    RunOne(st, Run(rest, s));
    EnabledIs(st, Run(rest, s));
    if Needs(st).Some? {
      LastEffectDecides([], rest, s, Needs(st).value);
      assert [] + rest == rest;
      ReverseSwapsEnds(script[1..], Needs(st).value);
    }
    hide Clean, FirstEffect, LastEffect, AnyTouches, Enabled, Needs;
  }

  lemma {:induction false} ReversedIsAccepted(script: seq<Statement>, s: State)
    ensures Clean(Reversed(script), s) <==> forall p :: 0 <= p < |script| ==> AcceptedFromEnd(script, s, p)
  {
    if script != [] {
      var rest := script[1..];
      FirstIsAcceptedLast(script, s);
      ReversedIsAccepted(rest, s);
      hide Clean, Reversed, FirstEffect, AnyTouches, Needs;
      forall p | 0 <= p < |rest| ensures AcceptedFromEnd(rest, s, p) <==> AcceptedFromEnd(script, s, p + 1) {
        assert rest[p] == script[p + 1] && rest[p + 1..] == script[p + 2..];
      }
      hide AcceptedFromEnd;
      forall p | 0 < p < |script| ensures AcceptedFromEnd(script, s, p) <==> AcceptedFromEnd(rest, s, p - 1) {}
      assert Clean(Reversed(script), s) <==> forall p :: 0 <= p < |script| ==> AcceptedFromEnd(script, s, p);
    }
  }

  /**
   Statement `p` of migration `a`, going down squashed: what it needs is decided behind it in its own script, else by
   the nearest newer migration, else by `s`.
   */
  ghost predicate AcceptedGoingDown(ms: seq<Migration>, s: State, a: nat, p: nat)
    requires a < |ms| && p < |ms[a].down|
  {
    Needs(ms[a].down[p]).Some? ==>
      FoundBehind(ms[a].down, p, AfterUndoing(ms[a + 1..], s, Needs(ms[a].down[p]).value), Needs(ms[a].down[p]).value)
  }

  lemma OldestIsAcceptedLast(ms: seq<Migration>, s: State)
    requires ms != []
    ensures Clean(MergedDown(ms), s) <==>
      Clean(MergedDown(ms[1..]), s) && forall p :: 0 <= p < |ms[0].down| ==> AcceptedGoingDown(ms, s, 0, p)
  {
    var t := Run(MergedDown(ms[1..]), s);
    CleanConcat(MergedDown(ms[1..]), Reversed(ms[0].down), s);
    ReversedIsAccepted(ms[0].down, t);
    hide Clean, Reversed, Run, Needs, FoundBehind;
    forall p | 0 <= p < |ms[0].down| ensures AcceptedFromEnd(ms[0].down, t, p) <==> AcceptedGoingDown(ms, s, 0, p) {
      if Needs(ms[0].down[p]).Some? { AfterUndoingIs(ms[1..], s, Needs(ms[0].down[p]).value); }
    }
  }

  /** The squashed down script is accepted exactly if each of its statements finds what it needs. */
  lemma {:induction false} MergedDownIsAccepted(ms: seq<Migration>, s: State)
    ensures Clean(MergedDown(ms), s) <==>
      forall a, p :: 0 <= a < |ms| && 0 <= p < |ms[a].down| ==> AcceptedGoingDown(ms, s, a, p)
  {
    if ms != [] {
      var rest := ms[1..];
      OldestIsAcceptedLast(ms, s);
      MergedDownIsAccepted(rest, s);
      hide Clean, MergedDown, Needs, FoundBehind, AfterUndoing;
      forall a, p | 0 <= a < |rest| && 0 <= p < |rest[a].down|
        ensures AcceptedGoingDown(rest, s, a, p) <==> AcceptedGoingDown(ms, s, a + 1, p)
      {
        assert rest[a] == ms[a + 1] && rest[a + 1..] == ms[a + 2..];
      }
      hide AcceptedGoingDown;
      forall a, p | 0 < a < |ms| && 0 <= p < |ms[a].down|
        ensures ms[a] == rest[a - 1] && (AcceptedGoingDown(ms, s, a, p) <==> AcceptedGoingDown(rest, s, a - 1, p))
      {
      }
    }
  }

  /**
   So a rollback that takes a field away and then its table is accepted as written; squashed, it takes the table first
   and is refused.
   */
  lemma ReversedDownIsRefused(m: Migration, t: string, f: Object, s: State)
    requires f.Child? && f.table == t && m.down == [Remove(f), Remove(Table(t))]
    requires f in s && Table(t) in s
    ensures Clean(StepwiseDown([m]), s) && !Clean(MergedDown([m]), s)
  {
    MergedDownIsAccepted([m], s);
    assert !AcceptedGoingDown([m], s, 0, 0)
      by { assert m.down[1..] == [Remove(Table(t))] && Touches(m.down[1..][0], f); }
    assert StepwiseDown([m]) == m.down by { assert [m][1..] == [] && [] + m.down == m.down; }
    PartThenTable(m.down, t, f, s);
    hide Clean, AcceptedGoingDown, StepwiseDown, MergedDown;
  }

  lemma PartThenTable(script: seq<Statement>, t: string, f: Object, s: State)
    requires f.Child? && f.table == t && script == [Remove(f), Remove(Table(t))] && f in s && Table(t) in s
    ensures Clean(script, s)
  {
    CleanIf(script, s);
    hide Clean;
    assert Accepted(script, {}, s, 0) && Accepted(script, {}, s, 1);
  }
}
