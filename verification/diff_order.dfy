/** The order in which differences are listed. */
module DiffOrder {
  import opened Wrappers
  import opened Order
  import opened Schema
  import opened Diff
  import opened DiffStatements

  /** The table a difference is about. */
  function TableOf(d: SchemaDiff): string {
    if d.forward != [] && (d.forward[0].Define? || d.forward[0].Remove?) && !d.forward[0].obj.Unrecognised?
      then d.forward[0].obj.table else ""
  }

  function KindRank(kind: ChildKind): nat {
    match kind
    case Field => 1
    case Index => 4
    case Event => 7
  }

  /** The table itself, then its fields, indexes and events; of each what is added, dropped and modified. */
  function Rank(d: SchemaDiff): nat {
    if d.forward == [] || d.backward == [] || !(d.forward[0].Define? || d.forward[0].Remove?)
      || !d.forward[0].obj.Child?
    then 0
    else KindRank(d.forward[0].obj.kind) + if d.forward[0].Remove? then 1 else if d.backward[0].Define? then 2 else 0
  }

  ghost predicate Ranked(ds: seq<SchemaDiff>) {
    forall i, j :: 0 <= i < j < |ds| ==> Rank(ds[i]) <= Rank(ds[j])
  }

  ghost predicate AllBetween(ds: seq<SchemaDiff>, table: string, lo: nat, hi: nat) {
    forall d :: d in ds ==> TableOf(d) == table && lo <= Rank(d) <= hi
  }

  lemma RankedBoth(a: seq<SchemaDiff>, b: seq<SchemaDiff>, table: string, lo: nat, m: nat, n: nat, hi: nat)
    requires Ranked(a) && Ranked(b) && AllBetween(a, table, lo, m) && AllBetween(b, table, n, hi)
    requires lo <= m <= n <= hi
    ensures Ranked(a + b) && AllBetween(a + b, table, lo, hi)
  {
    hide Rank;
    forall i, j | 0 <= i < j < |a + b| ensures Rank((a + b)[i]) <= Rank((a + b)[j]) {
      assert (a + b)[i] in if i < |a| then a else b;
      assert (a + b)[j] in if j < |a| then a else b;
    }
  }

  lemma SameRank(ds: seq<SchemaDiff>, table: string, r: nat)
    requires AllBetween(ds, table, r, r)
    ensures Ranked(ds)
  {
    hide Rank;
    forall i | 0 <= i < |ds| ensures Rank(ds[i]) == r { assert ds[i] in ds; }
  }

  lemma AddedAreRanked(table: string, kind: ChildKind, ps: seq<Part>, others: seq<Part>)
    ensures AllBetween(Added(table, kind, ps, others), table, KindRank(kind), KindRank(kind))
    ensures Ranked(Added(table, kind, ps, others))
  {
    var ds := Added(table, kind, ps, others);
    forall d | d in ds ensures TableOf(d) == table && Rank(d) == KindRank(kind) {
      AddedHas(table, kind, ps, others, d);
      hide Added, Named;
    }
    hide Added;
    SameRank(ds, table, KindRank(kind));
  }

  lemma DroppedAreRanked(table: string, kind: ChildKind, ps: seq<Part>, others: seq<Part>)
    ensures AllBetween(Dropped(table, kind, ps, others), table, KindRank(kind) + 1, KindRank(kind) + 1)
    ensures Ranked(Dropped(table, kind, ps, others))
  {
    var ds := Dropped(table, kind, ps, others);
    forall d | d in ds ensures TableOf(d) == table && Rank(d) == KindRank(kind) + 1 {
      DroppedHas(table, kind, ps, others, d);
      hide Dropped, Named;
    }
    hide Dropped;
    SameRank(ds, table, KindRank(kind) + 1);
  }

  lemma ModifiedAreRanked(table: string, kind: ChildKind, before: seq<Part>, after: seq<Part>, names: seq<string>)
    requires forall n :: n in names ==> Named(before, n).Some? && Named(after, n).Some?
    ensures
      var ds := Modified(table, kind, before, after, names);
      AllBetween(ds, table, KindRank(kind) + 2, KindRank(kind) + 2) && Ranked(ds)
  {
    var ds := Modified(table, kind, before, after, names);
    forall d | d in ds ensures TableOf(d) == table && Rank(d) == KindRank(kind) + 2 {
      ModifiedHas(table, kind, before, after, names, d);
      hide Modified, Named;
    }
    hide Modified;
    SameRank(ds, table, KindRank(kind) + 2);
  }

  lemma PartsAreRanked(table: string, kind: ChildKind, before: seq<Part>, after: seq<Part>)
    ensures
      var ds, k := PartDiffs(table, kind, before, after), KindRank(kind);
      Ranked(ds) && AllBetween(ds, table, k, k + 2)
  {
    CommonAreNamed(before, after);
    var a, d := Added(table, kind, after, before), Dropped(table, kind, before, after);
    var names := CommonNames(before, after);
    var m := if kind == Field then Modified(table, kind, before, after, names) else [];
    assert PartDiffs(table, kind, before, after) == a + d + m;
    var k := KindRank(kind);
    AddedAreRanked(table, kind, after, before);
    DroppedAreRanked(table, kind, before, after);
    if kind == Field { ModifiedAreRanked(table, kind, before, after, names); }
    hide Added, Dropped, Modified, PartDiffs, Named, CommonNames, Rank, TableOf, KindRank;
    RankedBoth(a, d, table, k, k, k + 1, k + 1);
    RankedBoth(a + d, m, table, k, k + 1, k + 2, k + 2);
  }

  lemma TableIsRanked(before: TableDefinition, after: TableDefinition)
    ensures Ranked(TableDiffs(before, after)) && AllBetween(TableDiffs(before, after), after.name, 0, 9)
  {
    var n := after.name;
    var f, i, e := PartDiffs(n, Field, before.fields, after.fields), PartDiffs(n, Index, before.indexes, after.indexes),
      PartDiffs(n, Event, before.events, after.events);
    PartsAreRanked(n, Field, before.fields, after.fields);
    PartsAreRanked(n, Index, before.indexes, after.indexes);
    PartsAreRanked(n, Event, before.events, after.events);
    hide PartDiffs, Rank, TableOf, Ranked, AllBetween, Added;
    RankedBoth(f, i, n, 1, 3, 4, 6);
    RankedBoth(f + i, e, n, 1, 6, 7, 9);
    Wider(f + i + e, n, 1, 9);
  }

  lemma Wider(ds: seq<SchemaDiff>, table: string, lo: nat, hi: nat)
    requires AllBetween(ds, table, lo, hi)
    ensures AllBetween(ds, table, 0, hi)
  {
    hide Rank, TableOf;
  }

  lemma NewTableIsRanked(t: TableDefinition)
    ensures Ranked(NewTable(t)) && AllBetween(NewTable(t), t.name, 0, 9)
  {
    var first := [AddTable(t)];
    var f, i, e := Added(t.name, Field, t.fields, []), Added(t.name, Index, t.indexes, []),
      Added(t.name, Event, t.events, []);
    assert AllBetween(first, t.name, 0, 0) && Ranked(first);
    AddedAreRanked(t.name, Field, t.fields, []);
    AddedAreRanked(t.name, Index, t.indexes, []);
    AddedAreRanked(t.name, Event, t.events, []);
    hide PartDiffs, Rank, TableOf, Ranked, AllBetween, Added, AddTable;
    RankedBoth(first, f, t.name, 0, 0, 1, 1);
    RankedBoth(first + f, i, t.name, 0, 1, 4, 4);
    RankedBoth(first + f + i, e, t.name, 0, 4, 7, 9);
  }

  // ---------- parts ----------

  function Lacks(others: seq<Part>): Part -> bool {
    (p: Part) => Named(others, p.name).None?
  }

  /** What is added comes in the order of its list. */
  lemma {:induction false} AddedInOrder(table: string, kind: ChildKind, ps: seq<Part>, others: seq<Part>)
    ensures
      var ds, news := Added(table, kind, ps, others), Only(ps, Lacks(others));
      |ds| == |news| && forall i :: 0 <= i < |ds| ==> ds[i] == AddPart(table, kind, news[i])
  {
    hide Named, AddPart;
    if ps != [] { AddedInOrder(table, kind, ps[..|ps| - 1], others); }
  }

  /** So does what is dropped. */
  lemma {:induction false} DroppedInOrder(table: string, kind: ChildKind, ps: seq<Part>, others: seq<Part>)
    ensures
      var ds, gone := Dropped(table, kind, ps, others), Only(ps, Lacks(others));
      |ds| == |gone| && forall i :: 0 <= i < |ds| ==> ds[i] == DropPart(table, kind, gone[i])
  {
    hide Named, DropPart;
    if ps != [] { DroppedInOrder(table, kind, ps[..|ps| - 1], others); }
  }

  function PartOf(d: SchemaDiff): string {
    if d.forward != [] && d.forward[0].Define? && d.forward[0].obj.Child? then d.forward[0].obj.name else ""
  }

  /** What is modified comes by name. */
  lemma {:induction false} ModifiedInOrder(table: string, kind: ChildKind, before: seq<Part>, after: seq<Part>,
                                           names: seq<string>)
    requires forall n :: n in names ==> Named(before, n).Some? && Named(after, n).Some?
    requires Sorted(names)
    ensures
      var ds := Modified(table, kind, before, after, names);
      && (forall d :: d in ds ==> PartOf(d) in names)
      && forall i, j :: 0 <= i < j < |ds| ==> Less(PartOf(ds[i]), PartOf(ds[j]))
  {
    if names != [] {
      var init, n := names[..|names| - 1], names[|names| - 1];
      assert n in names;
      var o, w := Named(before, n).value, Named(after, n).value;
      var rest := Modified(table, kind, before, after, init);
      var ds := Modified(table, kind, before, after, names);
      assert ds == rest + if o.body == w.body then [] else [ModifyPart(table, kind, o, w)];
      ModifiedInOrder(table, kind, before, after, init);
      forall m | m in init ensures Less(m, n) { var i :| 0 <= i < |init| && init[i] == m; }
      assert PartOf(ModifyPart(table, kind, o, w)) == n;
      hide Modified, Named, ModifyPart, PartOf, Less;
      forall i, j | 0 <= i < j < |ds| ensures Less(PartOf(ds[i]), PartOf(ds[j])) {
        assert ds[i] in rest;
      }
    }
  }

  // ---------- tables ----------

  /** The first is about the table of a name not after the second's, and within a table ranks before it. */
  predicate ComesFirst(d: SchemaDiff, e: SchemaDiff) {
    Less(TableOf(d), TableOf(e)) || (TableOf(d) == TableOf(e) && Rank(d) <= Rank(e))
  }

  ghost predicate InOrder(ds: seq<SchemaDiff>, names: seq<string>) {
    && (forall d :: d in ds ==> TableOf(d) in names)
    && forall i, j :: 0 <= i < j < |ds| ==> ComesFirst(ds[i], ds[j])
  }

  lemma OneMoreTable(rest: seq<SchemaDiff>, init: seq<string>, more: seq<SchemaDiff>, n: string)
    requires InOrder(rest, init) && Ranked(more) && AllBetween(more, n, 0, 9) && forall m :: m in init ==> Less(m, n)
    ensures InOrder(rest + more, init + [n])
  {
    hide Rank, TableOf, Less;
    var ds := rest + more;
    forall i, j | 0 <= i < j < |ds| ensures ComesFirst(ds[i], ds[j]) {
      if i < |rest| { assert ds[i] in rest; } else { assert ds[i] in more; }
      if j >= |rest| { assert ds[j] in more; }
    }
  }

  lemma {:induction false} ChangedInOrder(code: seq<TableDefinition>, db: seq<TableDefinition>, names: seq<string>)
    requires forall n :: n in names ==> TableNamed(code, n).Some? && TableNamed(db, n).Some?
    requires Sorted(names)
    ensures InOrder(ChangedTables(code, db, names), names)
  {
    if names != [] {
      var init, n := names[..|names| - 1], names[|names| - 1];
      assert n in names && names == init + [n];
      var rest, more := ChangedTables(code, db, init), TableDiffs(TableNamed(db, n).value, TableNamed(code, n).value);
      assert ChangedTables(code, db, names) == rest + more;
      ChangedInOrder(code, db, init);
      TableIsRanked(TableNamed(db, n).value, TableNamed(code, n).value);
      forall m | m in init ensures Less(m, n) { var i :| 0 <= i < |init| && init[i] == m; }
      hide *;
      OneMoreTable(rest, init, more, n);
    }
  }

  /** The first is about a table listed before the second's, or within one table ranks before it. */
  ghost predicate ListedFirst(ts: seq<TableDefinition>, d: SchemaDiff, e: SchemaDiff) {
    exists a, b ::
      0 <= a <= b < |ts| && ts[a].name == TableOf(d) && ts[b].name == TableOf(e) && (a == b ==> Rank(d) <= Rank(e))
  }

  ghost predicate Listed(ds: seq<SchemaDiff>, ts: seq<TableDefinition>) {
    && (forall d :: d in ds ==> exists a :: 0 <= a < |ts| && ts[a].name == TableOf(d))
    && forall i, j :: 0 <= i < j < |ds| ==> ListedFirst(ts, ds[i], ds[j])
  }

  lemma OneMoreListed(rest: seq<SchemaDiff>, init: seq<TableDefinition>, more: seq<SchemaDiff>, t: TableDefinition)
    requires Listed(rest, init) && Ranked(more) && AllBetween(more, t.name, 0, 9)
    ensures Listed(rest + more, init + [t])
  {
    hide Rank, TableOf;
    var ds, ts := rest + more, init + [t];
    assert ts[|init|] == t;
    forall d | d in ds ensures exists a :: 0 <= a < |ts| && ts[a].name == TableOf(d) {
      if d in rest {
        var a :| 0 <= a < |init| && init[a].name == TableOf(d);
        assert ts[a] == init[a];
      }
    }
    forall i, j | 0 <= i < j < |ds| ensures ListedFirst(ts, ds[i], ds[j]) {
      if j < |rest| {
        assert ListedFirst(init, rest[i], rest[j]);
        ListedStays(init, t, rest[i], rest[j]);
      } else {
        assert ds[j] in more;
        if i < |rest| {
          assert ds[i] in rest;
          var a :| 0 <= a < |init| && init[a].name == TableOf(ds[i]);
          assert ts[a] == init[a] && ts[|init|].name == TableOf(ds[j]);
        } else {
          assert ds[i] in more;
        }
      }
    }
  }

  lemma ListedStays(init: seq<TableDefinition>, t: TableDefinition, d: SchemaDiff, e: SchemaDiff)
    requires ListedFirst(init, d, e)
    ensures ListedFirst(init + [t], d, e)
  {
    hide Rank, TableOf;
    var a, b :|
      0 <= a <= b < |init| && init[a].name == TableOf(d) && init[b].name == TableOf(e)
      && (a == b ==> Rank(d) <= Rank(e));
    assert (init + [t])[a] == init[a] && (init + [t])[b] == init[b];
  }

  lemma NothingListed(init: seq<TableDefinition>, t: TableDefinition)
    ensures Ranked([]) && AllBetween([], t.name, 0, 9)
  {
  }

  lemma {:induction false} NewInOrder(ts: seq<TableDefinition>, others: seq<TableDefinition>)
    ensures Listed(NewTables(ts, others), ts)
  {
    if ts != [] {
      var init, t := ts[..|ts| - 1], ts[|ts| - 1];
      var more := if TableNamed(others, t.name).Some? then [] else NewTable(t);
      assert ts == init + [t] && NewTables(ts, others) == NewTables(init, others) + more;
      NewInOrder(init, others);
      NewTableIsRanked(t);
      hide *;
      NothingListed(init, t);
      OneMoreListed(NewTables(init, others), init, more, t);
    }
  }

  lemma GoneIsRanked(t: TableDefinition)
    ensures Ranked([DropTable(t)]) && AllBetween([DropTable(t)], t.name, 0, 9)
  {
  }

  lemma {:induction false} GoneInOrder(ts: seq<TableDefinition>, others: seq<TableDefinition>)
    ensures Listed(GoneTables(ts, others), ts)
  {
    if ts != [] {
      var init, t := ts[..|ts| - 1], ts[|ts| - 1];
      var more := if TableNamed(others, t.name).Some? then [] else [DropTable(t)];
      assert ts == init + [t] && GoneTables(ts, others) == GoneTables(init, others) + more;
      GoneInOrder(init, others);
      GoneIsRanked(t);
      hide *;
      NothingListed(init, t);
      OneMoreListed(GoneTables(init, others), init, more, t);
    }
  }

  /**
   First the tables of the code that are new, in its order, then those of the database that are gone, in its order, then
   those of both, by name; within a table first itself, then its fields, its indexes and its events, and of each what is
   added, dropped and modified.
   */
  lemma DifferencesComeInOrder(code: seq<TableDefinition>, db: seq<TableDefinition>)
      returns (news: seq<SchemaDiff>, gone: seq<SchemaDiff>, changed: seq<SchemaDiff>, names: seq<string>)
    ensures SchemaDiffs(code, db) == news + gone + changed
    ensures Listed(news, code) && forall d :: d in news ==> TableNamed(db, TableOf(d)).None?
    ensures Listed(gone, db) && forall d :: d in gone ==> TableNamed(code, TableOf(d)).None?
    ensures InOrder(changed, names) && forall n :: n in names <==> TableNamed(code, n).Some? && TableNamed(db, n).Some?
  {
    CommonTablesAreNamed(code, db);
    names := CommonTables(code, db);
    news, gone, changed := NewTables(code, db), GoneTables(db, code), ChangedTables(code, db, names);
    NewInOrder(code, db);
    GoneInOrder(db, code);
    ChangedInOrder(code, db, names);
    hide NewTables, GoneTables, ChangedTables, Listed, InOrder, Rank, TableNamed;
    forall d | d in news ensures TableNamed(db, TableOf(d)).None? {
      NewTablesHave(code, db, d);
      var t :| IsNewTable(code, db, t) && d in NewTable(t);
      NewTableIsRanked(t);
    }
    forall d | d in gone ensures TableNamed(code, TableOf(d)).None? {
      GoneTablesHave(db, code, d);
    }
  }
}
