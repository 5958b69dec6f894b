/** Exactly which differences there are between two sets of tables, and what their statements fill in. */
module DiffStatements {
  import opened Wrappers
  import opened Order
  import opened Schema
  import opened Diff
  import opened DiffEngine
  import opened DiffMeaning

  // ---------- which differences ----------

  predicate InBoth(code: seq<TableDefinition>, db: seq<TableDefinition>, n: string) {
    TableNamed(code, n).Some? && TableNamed(db, n).Some?
  }

  predicate IsNewTable(code: seq<TableDefinition>, db: seq<TableDefinition>, t: TableDefinition) {
    t in code && TableNamed(db, t.name).None?
  }

  /** A part that is added to a list of parts, dropped from it, or, of a field, declared in another way. */
  ghost predicate IsInvolved(kind: ChildKind, before: seq<Part>, after: seq<Part>, p: Part) {
    || (p in after && Named(before, p.name).None?)
    || (p in before && Named(after, p.name).None?)
    || (kind == Field && Named(before, p.name) == Some(p) && Named(after, p.name).Some?
      && Named(after, p.name).value.body != p.body)
    || (kind == Field && Named(after, p.name) == Some(p) && Named(before, p.name).Some?
      && Named(before, p.name).value.body != p.body)
  }

  ghost predicate IsPartDiff(table: string, kind: ChildKind, before: seq<Part>, after: seq<Part>, d: SchemaDiff) {
    || (exists p :: p in after && Named(before, p.name).None? && d == AddPart(table, kind, p))
    || (exists p :: p in before && Named(after, p.name).None? && d == DropPart(table, kind, p))
    || (kind == Field && exists p: Part, q: Part ::
      Named(before, p.name) == Some(p) && Named(after, p.name) == Some(q) && p.body != q.body
      && d == ModifyPart(table, kind, p, q))
  }

  /** A difference of the parts of a table that both have. */
  ghost predicate IsChange(code: seq<TableDefinition>, db: seq<TableDefinition>, n: string, d: SchemaDiff) {
    InBoth(code, db, n) && exists kind ::
      IsPartDiff(n, kind, Parts(TableNamed(db, n).value, kind), Parts(TableNamed(code, n).value, kind), d)
  }

  ghost predicate IsDiff(code: seq<TableDefinition>, db: seq<TableDefinition>, d: SchemaDiff) {
    || (exists t :: IsNewTable(code, db, t) && d == AddTable(t))
    || (exists t, kind, p :: IsNewTable(code, db, t) && p in Parts(t, kind) && d == AddPart(t.name, kind, p))
    || (exists t :: IsNewTable(db, code, t) && d == DropTable(t))
    || (exists n :: IsChange(code, db, n, d))
  }

  lemma {:induction false} AddedHas(table: string, kind: ChildKind, ps: seq<Part>, others: seq<Part>, d: SchemaDiff)
    ensures d in Added(table, kind, ps, others) <==>
      exists p :: p in ps && Named(others, p.name).None? && d == AddPart(table, kind, p)
  {
    hide AddPart, Named;
    if ps != [] {
      AddedHas(table, kind, ps[..|ps| - 1], others, d);
      assert ps == ps[..|ps| - 1] + [ps[|ps| - 1]];
    }
  }

  lemma {:induction false} DroppedHas(table: string, kind: ChildKind, ps: seq<Part>, others: seq<Part>, d: SchemaDiff)
    ensures d in Dropped(table, kind, ps, others) <==>
      exists p :: p in ps && Named(others, p.name).None? && d == DropPart(table, kind, p)
  {
    hide DropPart, Named;
    if ps != [] {
      DroppedHas(table, kind, ps[..|ps| - 1], others, d);
      assert ps == ps[..|ps| - 1] + [ps[|ps| - 1]];
    }
  }

  lemma {:induction false} ModifiedHas(table: string, kind: ChildKind, before: seq<Part>, after: seq<Part>,
                                       names: seq<string>, d: SchemaDiff)
    requires forall n :: n in names ==> Named(before, n).Some? && Named(after, n).Some?
    ensures d in Modified(table, kind, before, after, names) <==> exists n ::
      n in names && Named(before, n).value.body != Named(after, n).value.body
      && d == ModifyPart(table, kind, Named(before, n).value, Named(after, n).value)
  {
    hide ModifyPart, Named;
    if names != [] {
      var init, n := names[..|names| - 1], names[|names| - 1];
      assert n in names;
      var o, w := Named(before, n).value, Named(after, n).value;
      var rest := Modified(table, kind, before, after, init);
      assert Modified(table, kind, before, after, names)
        == rest + if o.body == w.body then [] else [ModifyPart(table, kind, o, w)];
      ModifiedHas(table, kind, before, after, init, d);
      hide Modified;
      assert forall m :: m in names <==> m in init || m == n;
    }
  }

  lemma PartDiffsHave(table: string, kind: ChildKind, before: seq<Part>, after: seq<Part>, d: SchemaDiff)
    ensures d in PartDiffs(table, kind, before, after) <==> IsPartDiff(table, kind, before, after, d)
  {
    CommonAreNamed(before, after);
    AddedHas(table, kind, after, before, d);
    DroppedHas(table, kind, before, after, d);
    hide Added, Dropped, Modified, AddPart, DropPart, ModifyPart, Named, CommonNames;
    if kind == Field {
      var names := CommonNames(before, after);
      ModifiedHas(table, kind, before, after, names, d);
      if p: Part, q: Part :|
        Named(before, p.name) == Some(p) && Named(after, p.name) == Some(q) && p.body != q.body
        && d == ModifyPart(table, kind, p, q)
      {
        assert p.name in names;
      }
      if n :|
        n in names && Named(before, n).value.body != Named(after, n).value.body
        && d == ModifyPart(table, kind, Named(before, n).value, Named(after, n).value)
      {
        assert Named(before, n).value.name == n;
      }
    }
  }

  lemma NewTableHas(t: TableDefinition, d: SchemaDiff)
    ensures d in NewTable(t) <==>
      d == AddTable(t) || exists kind, p :: p in Parts(t, kind) && d == AddPart(t.name, kind, p)
  {
    AddedHas(t.name, Field, t.fields, [], d);
    AddedHas(t.name, Index, t.indexes, [], d);
    AddedHas(t.name, Event, t.events, [], d);
    assert forall p: Part :: Named([], p.name).None?;
    hide Added, AddPart, AddTable, Named;
    if kind, p :| p in Parts(t, kind) && d == AddPart(t.name, kind, p) {
      assert d in Added(t.name, kind, Parts(t, kind), []);
    }
    assert t.fields == Parts(t, Field) && t.indexes == Parts(t, Index) && t.events == Parts(t, Event);
  }

  lemma {:induction false} NewTablesHave(ts: seq<TableDefinition>, others: seq<TableDefinition>, d: SchemaDiff)
    ensures d in NewTables(ts, others) <==> exists t :: IsNewTable(ts, others, t) && d in NewTable(t)
  {
    hide NewTable, TableNamed;
    if ts != [] {
      NewTablesHave(ts[..|ts| - 1], others, d);
      assert ts == ts[..|ts| - 1] + [ts[|ts| - 1]];
    }
  }

  lemma {:induction false} GoneTablesHave(ts: seq<TableDefinition>, others: seq<TableDefinition>, d: SchemaDiff)
    ensures d in GoneTables(ts, others) <==> exists t :: IsNewTable(ts, others, t) && d == DropTable(t)
  {
    hide DropTable, TableNamed;
    if ts != [] {
      GoneTablesHave(ts[..|ts| - 1], others, d);
      assert ts == ts[..|ts| - 1] + [ts[|ts| - 1]];
    }
  }

  lemma {:induction false} ChangedTablesHave(code: seq<TableDefinition>, db: seq<TableDefinition>, names: seq<string>,
                                             d: SchemaDiff)
    requires forall n :: n in names ==> TableNamed(code, n).Some? && TableNamed(db, n).Some?
    ensures d in ChangedTables(code, db, names) <==> exists n :: n in names && IsChange(code, db, n, d)
  {
    if names != [] {
      var init, n := names[..|names| - 1], names[|names| - 1];
      assert n in names;
      var before, after := TableNamed(db, n).value, TableNamed(code, n).value;
      assert ChangedTables(code, db, names) == ChangedTables(code, db, init) + TableDiffs(before, after);
      TableDiffsHave(before, after, d);
      assert IsChange(code, db, n, d) <==> d in TableDiffs(before, after);
      ChangedTablesHave(code, db, init, d);
      hide TableDiffs, TableNamed, IsChange, ChangedTables;
      assert forall m :: m in names <==> m in init || m == n;
    }
  }

  lemma TableDiffsHave(before: TableDefinition, after: TableDefinition, d: SchemaDiff)
    ensures d in TableDiffs(before, after) <==>
      exists kind :: IsPartDiff(after.name, kind, Parts(before, kind), Parts(after, kind), d)
  {
    var n := after.name;
    PartDiffsHave(n, Field, before.fields, after.fields, d);
    PartDiffsHave(n, Index, before.indexes, after.indexes, d);
    PartDiffsHave(n, Event, before.events, after.events, d);
    hide PartDiffs, IsPartDiff;
    assert before.fields == Parts(before, Field) && after.fields == Parts(after, Field);
    assert before.indexes == Parts(before, Index) && after.indexes == Parts(after, Index);
    assert before.events == Parts(before, Event) && after.events == Parts(after, Event);
    forall kind ensures IsPartDiff(n, kind, Parts(before, kind), Parts(after, kind), d) ==>
      d in TableDiffs(before, after)
    {
      if kind == Field {} else if kind == Index {} else { assert kind == Event; }
    }
  }

  /** The differences of two sets of tables, one by one. */
  lemma DifferencesAre(code: seq<TableDefinition>, db: seq<TableDefinition>, d: SchemaDiff)
    ensures d in SchemaDiffs(code, db) <==> IsDiff(code, db, d)
  {
    CommonTablesAreNamed(code, db);
    var names := CommonTables(code, db);
    NewTablesHave(code, db, d);
    GoneTablesHave(db, code, d);
    ChangedTablesHave(code, db, names, d);
    assert forall n :: IsChange(code, db, n, d) ==> n in names;
    hide NewTables, GoneTables, ChangedTables, CommonTables, NewTable, AddPart, DropPart, ModifyPart, Named,
      TableNamed, AddTable, DropTable, IsChange;
    forall t ensures d in NewTable(t) <==>
      (d == AddTable(t) || exists kind, p ::
        p in Parts(t, kind) && d == AddPart(t.name, kind, p)) { NewTableHas(t, d); }
    hide IsNewTable;
  }

  // ---------- when they can be written ----------

  /** A part of a new table, or one that changes in a table of both. */
  ghost predicate IsWritten(code: seq<TableDefinition>, db: seq<TableDefinition>, p: Part) {
    || (exists t, kind :: IsNewTable(code, db, t) && p in Parts(t, kind))
    || (exists n, kind ::
      InBoth(code, db, n)
      && IsInvolved(kind, Parts(TableNamed(db, n).value, kind), Parts(TableNamed(code, n).value, kind), p))
  }

  lemma NewTableRendersIf(t: TableDefinition)
    ensures NewTableRenders(t) <==> forall kind, p :: p in Parts(t, kind) ==> p.renderable
  {
    assert t.fields == Parts(t, Field) && t.indexes == Parts(t, Index) && t.events == Parts(t, Event);
    assert forall p: Part :: Named([], p.name).None?;
    hide Named;
    if NewTableRenders(t) {
      forall kind, p | p in Parts(t, kind) ensures p.renderable {
        if kind == Field {} else if kind == Index {} else { assert kind == Event; }
      }
    }
  }

  lemma PartsRenderIf(kind: ChildKind, before: seq<Part>, after: seq<Part>)
    ensures PartsRender(kind, before, after) <==> forall p :: IsInvolved(kind, before, after, p) ==> p.renderable
  {
    hide Named;
    if kind == Field && forall p :: IsInvolved(kind, before, after, p) ==> p.renderable {
      forall m ensures ChangedRender(before, after, m) {
        if Named(before, m).Some? && Named(after, m).Some? {
          var p, q := Named(before, m).value, Named(after, m).value;
          if p.body != q.body { assert IsInvolved(kind, before, after, p) && IsInvolved(kind, before, after, q); }
        }
      }
    }
    if PartsRender(kind, before, after) {
      forall p | IsInvolved(kind, before, after, p) ensures p.renderable {
        if kind == Field { assert ChangedRender(before, after, p.name); }
      }
    }
  }

  lemma TableRendersIf(before: TableDefinition, after: TableDefinition)
    ensures TableRenders(before, after) <==>
      forall kind, p :: IsInvolved(kind, Parts(before, kind), Parts(after, kind), p) ==> p.renderable
  {
    PartsRenderIf(Field, before.fields, after.fields);
    PartsRenderIf(Index, before.indexes, after.indexes);
    PartsRenderIf(Event, before.events, after.events);
    assert before.fields == Parts(before, Field) && after.fields == Parts(after, Field);
    assert before.indexes == Parts(before, Index) && after.indexes == Parts(after, Index);
    assert before.events == Parts(before, Event) && after.events == Parts(after, Event);
    hide PartsRender, IsInvolved;
    if TableRenders(before, after) {
      forall kind, p | IsInvolved(kind, Parts(before, kind), Parts(after, kind), p) ensures p.renderable {
        if kind == Field {} else if kind == Index {} else { assert kind == Event; }
      }
    }
  }

  /** There is an error exactly if some part that is to be written does not pass validation. */
  lemma RendersIfPartsDo(code: seq<TableDefinition>, db: seq<TableDefinition>)
    ensures SchemaRenders(code, db) <==> forall p :: IsWritten(code, db, p) ==> p.renderable
  {
    hide TableNamed, NewTableRenders, TableRenders, IsInvolved;
    if SchemaRenders(code, db) {
      forall p | IsWritten(code, db, p) ensures p.renderable {
        if t, kind :| IsNewTable(code, db, t) && p in Parts(t, kind) {
          NewTableRendersIf(t);
        } else {
          var n, kind :| InBoth(code, db, n)
            && IsInvolved(kind, Parts(TableNamed(db, n).value, kind), Parts(TableNamed(code, n).value, kind), p);
          assert RendersIfCommon(code, db, n);
          TableRendersIf(TableNamed(db, n).value, TableNamed(code, n).value);
        }
      }
    }
    if forall p :: IsWritten(code, db, p) ==> p.renderable {
      forall i | 0 <= i < |code| ensures RendersIfNew(code[i], db) {
        if TableNamed(db, code[i].name).None? {
          assert IsNewTable(code, db, code[i]);
          NewTableRendersIf(code[i]);
        }
      }
      forall n ensures RendersIfCommon(code, db, n) {
        if InBoth(code, db, n) { TableRendersIf(TableNamed(db, n).value, TableNamed(code, n).value); }
      }
    }
  }

  // ---------- what their statements do besides ----------

  lemma {:induction false} StatementsOf(ds: seq<SchemaDiff>, st: Statement)
    ensures st in Up(ds) <==> exists d :: d in ds && st in d.forward
    ensures st in Down(ds) <==> exists d :: d in ds && st in d.backward
  {
    if ds != [] {
      var init, last := ds[..|ds| - 1], ds[|ds| - 1];
      StatementsOf(init, st);
      assert forall d :: d in ds <==> d in init || d == last;
      assert Up(ds) == Up(init) + last.forward && Down(ds) == last.backward + Down(init);
      hide Up, Down;
    }
  }

  /** Every UPDATE stands right behind the DEFINE of its field and sets the default of that. */
  ghost predicate Follow(script: seq<Statement>) {
    forall k :: 0 <= k < |script| && script[k].Update? ==>
      && k > 0 && script[k - 1].Define? && script[k].target.Some?
      && script[k - 1].obj == Child(script[k].target.value.table, Field, script[k].target.value.field)
      && script[k - 1].body.FieldBody? && script[k - 1].body.default == script[k].text
  }

  lemma FollowBoth(a: seq<Statement>, b: seq<Statement>)
    requires Follow(a) && Follow(b)
    ensures Follow(a + b)
  {
    assert b != [] ==> !b[0].Update?;
  }

  lemma {:induction false} AllFollow(ds: seq<SchemaDiff>)
    requires forall d :: d in ds ==> Follow(d.forward)
    ensures Follow(Up(ds))
  {
    if ds != [] {
      AllFollow(ds[..|ds| - 1]);
      hide Follow;
      FollowBoth(Up(ds[..|ds| - 1]), ds[|ds| - 1].forward);
    }
  }

  /** A field that the code declares with a default and the database lacks, in a table that may be new itself. */
  ghost predicate IsNewDefault(code: seq<TableDefinition>, db: seq<TableDefinition>, n: string, p: Part) {
    && p.body.FieldBody? && p.body.default != ""
    && ((exists t :: IsNewTable(code, db, t) && t.name == n && p in t.fields)
      || (InBoth(code, db, n) && p in TableNamed(code, n).value.fields
        && Named(TableNamed(db, n).value.fields, p.name).None?))
  }

  /** `u` sets such a field to its default. */
  ghost predicate SetsDefault(code: seq<TableDefinition>, db: seq<TableDefinition>, n: string, p: Part, u: Statement) {
    IsNewDefault(code, db, n, p) && u == Update(Some(Target(n, p.name)), p.body.default)
  }

  lemma AddUpdates(table: string, kind: ChildKind, p: Part, u: Statement)
    requires u.Update?
    ensures
      var d := AddPart(table, kind, p);
      && Follow(d.forward) && u !in d.backward
      && (u in d.forward <==>
        (kind == Field && p.body.FieldBody? && p.body.default != ""
        && u == Update(Some(Target(table, p.name)), p.body.default)))
  {
  }

  lemma OthersDoNot(d: SchemaDiff, u: Statement)
    requires u.Update? && |d.forward| == 1 && |d.backward| == 1 && !d.forward[0].Update? && !d.backward[0].Update?
    ensures Follow(d.forward) && u !in d.forward && u !in d.backward
  {
  }

  lemma ChangeUpdates(code: seq<TableDefinition>, db: seq<TableDefinition>, n: string, d: SchemaDiff, u: Statement)
    requires u.Update? && IsChange(code, db, n, d)
    ensures Follow(d.forward) && u !in d.backward
    ensures u in d.forward ==> exists p :: SetsDefault(code, db, n, p, u)
  {
    hide Named, TableNamed, Follow;
    var kind :| IsPartDiff(n, kind, Parts(TableNamed(db, n).value, kind), Parts(TableNamed(code, n).value, kind), d);
    var before, after := Parts(TableNamed(db, n).value, kind), Parts(TableNamed(code, n).value, kind);
    if p :| p in after && Named(before, p.name).None? && d == AddPart(n, kind, p) {
      AddUpdates(n, kind, p, u);
      hide AddPart;
      if u in d.forward { assert SetsDefault(code, db, n, p, u); }
    } else {
      OthersDoNot(d, u);
    }
  }

  lemma DiffUpdates(code: seq<TableDefinition>, db: seq<TableDefinition>, d: SchemaDiff, u: Statement)
    requires u.Update? && IsDiff(code, db, d)
    ensures Follow(d.forward) && u !in d.backward
    ensures u in d.forward ==> exists n, p :: SetsDefault(code, db, n, p, u)
  {
    hide IsChange, Named, TableNamed, Follow;
    if n :| IsChange(code, db, n, d) {
      ChangeUpdates(code, db, n, d, u);
    } else if t, kind, p :| IsNewTable(code, db, t) && p in Parts(t, kind) && d == AddPart(t.name, kind, p) {
      AddUpdates(t.name, kind, p, u);
      hide AddPart;
      if u in d.forward { assert SetsDefault(code, db, t.name, p, u); }
    } else {
      OthersDoNot(d, u);
    }
  }

  lemma NewDefaultIsSet(code: seq<TableDefinition>, db: seq<TableDefinition>, n: string, p: Part)
    requires IsNewDefault(code, db, n, p)
    ensures IsDiff(code, db, AddPart(n, Field, p))
    ensures Update(Some(Target(n, p.name)), p.body.default) in AddPart(n, Field, p).forward
  {
    var d := AddPart(n, Field, p);
    assert d.forward[1] == Update(Some(Target(n, p.name)), p.body.default);
    hide Named, TableNamed, AddPart;
    if t :| IsNewTable(code, db, t) && t.name == n && p in t.fields {
      assert p in Parts(t, Field);
    } else {
      var before, after := Parts(TableNamed(db, n).value, Field), Parts(TableNamed(code, n).value, Field);
      assert p in after && Named(before, p.name).None?;
      assert IsPartDiff(n, Field, before, after, d);
      assert IsChange(code, db, n, d);
    }
  }

  /**
   Going forwards, rows are filled in exactly for the new fields with a default, with that default, right behind the
   DEFINE of the field; going backwards none are.
   */
  lemma BackfillsAreNewDefaults(code: seq<TableDefinition>, db: seq<TableDefinition>, u: Statement)
    requires u.Update?
    ensures
      var ds := SchemaDiffs(code, db);
      && Follow(Up(ds)) && u !in Down(ds)
      && (u in Up(ds) <==> exists n, p :: SetsDefault(code, db, n, p, u))
  {
    var ds := SchemaDiffs(code, db);
    StatementsOf(ds, u);
    hide SchemaDiffs, IsDiff, IsNewDefault, Follow, AddPart, Up, Down;
    forall d | d in ds
      ensures Follow(d.forward) && u !in d.backward
      ensures u in d.forward ==> exists n, p :: SetsDefault(code, db, n, p, u)
    {
      DifferencesAre(code, db, d);
      DiffUpdates(code, db, d, u);
    }
    AllFollow(ds);
    if n, p :| SetsDefault(code, db, n, p, u) {
      NewDefaultIsSet(code, db, n, p);
      DifferencesAre(code, db, AddPart(n, Field, p));
    }
  }

  /** A table that the code declares without a mode is schemafull, once the database has got there. */
  lemma ModelessIsSchemafull(code: seq<TableDefinition>, db: seq<TableDefinition>, s: State, t: TableDefinition)
    requires UniqueNames(code) && UniqueNames(db) && Diffable(code, db) && Holds(s, db) && t in code
    ensures Get(Run(Up(SchemaDiffs(code, db)), s), Table(t.name))
      == Some(TableBody(if t.mode != "" then t.mode else "SCHEMAFULL"))
  {
    UpReachesCode(code, db, s);
    hide SchemaDiffs, Up, Run;
    assert Declared(code, Table(t.name)) == Some(Mode(TableNamed(code, t.name).value));
    TableIsNamed(code, t);
  }

  lemma TableIsNamed(ts: seq<TableDefinition>, t: TableDefinition)
    requires UniqueNames(ts) && t in ts
    ensures TableNamed(ts, t.name) == Some(t)
  {
    var u := TableNamed(ts, t.name).value;
    var i :| 0 <= i < |ts| && ts[i] == t;
    var j :| 0 <= j < |ts| && ts[j] == u;
    assert i == j;
  }

  /** Of parts, or tables, that share a name the last one counts. */
  lemma {:induction false} LastPartCounts(ps: seq<Part>, i: nat)
    requires i < |ps| && forall j :: i < j < |ps| ==> ps[j].name != ps[i].name
    ensures Named(ps, ps[i].name) == Some(ps[i])
  {
    if i < |ps| - 1 { LastPartCounts(ps[..|ps| - 1], i); }
  }

  lemma {:induction false} LastTableCounts(ts: seq<TableDefinition>, i: nat)
    requires i < |ts| && forall j :: i < j < |ts| ==> ts[j].name != ts[i].name
    ensures TableNamed(ts, ts[i].name) == Some(ts[i])
  {
    if i < |ts| - 1 { LastTableCounts(ts[..|ts| - 1], i); }
  }
}
