/** The database accepts every statement of the scripts, in the order the migration runs them. */
module DiffRuns {
  import opened Wrappers
  import opened Order
  import opened Schema
  import opened Diff
  import opened DiffMeaning

  /** Scripts that only define parts of one table, or update rows. */
  predicate DefinesPartsOf(script: seq<Statement>, table: string) {
    forall i ::
      0 <= i < |script| ==>
      script[i].Update? || (script[i].Define? && script[i].obj.Child? && script[i].obj.table == table)
  }

  lemma {:induction false} DefiningPartsIsClean(script: seq<Statement>, table: string, s: State)
    requires DefinesPartsOf(script, table) && Table(table) in s
    ensures Clean(script, s) && Table(table) in Run(script, s)
  {
    if script != [] {
      var init := script[..|script| - 1];
      assert DefinesPartsOf(init, table) by { assert forall i :: 0 <= i < |init| ==> init[i] == script[i]; }
      DefiningPartsIsClean(init, table, s);
    }
  }

  lemma DefinesConcat(a: seq<Statement>, b: seq<Statement>, table: string)
    requires DefinesPartsOf(a, table) && DefinesPartsOf(b, table)
    ensures DefinesPartsOf(a + b, table)
  {
  }

  lemma {:induction false} AddedDefines(table: string, kind: ChildKind, ps: seq<Part>, others: seq<Part>)
    ensures DefinesPartsOf(Up(Added(table, kind, ps, others)), table)
  {
    if ps != [] {
      AddedDefines(table, kind, ps[..|ps| - 1], others);
      var rest, last := Added(table, kind, ps[..|ps| - 1], others), AddPart(table, kind, ps[|ps| - 1]);
      if Named(others, ps[|ps| - 1].name).None? {
        UpConcat(rest, [last]);
        UpOne(last);
        DefinesConcat(Up(rest), last.forward, table);
      } else {
        assert rest + [] == rest;
      }
    }
  }

  lemma {:induction false} DroppedRedefines(table: string, kind: ChildKind, ps: seq<Part>, others: seq<Part>)
    ensures DefinesPartsOf(Down(Dropped(table, kind, ps, others)), table)
  {
    if ps != [] {
      DroppedRedefines(table, kind, ps[..|ps| - 1], others);
      var rest, last := Dropped(table, kind, ps[..|ps| - 1], others), DropPart(table, kind, ps[|ps| - 1]);
      if Named(others, ps[|ps| - 1].name).None? {
        DownConcat(rest, [last]);
        UpOne(last);
        DefinesConcat(last.backward, Down(rest), table);
      } else {
        assert rest + [] == rest;
      }
    }
  }

  lemma {:induction false} ModifiedDefines(table: string, kind: ChildKind, before: seq<Part>, after: seq<Part>,
                                           names: seq<string>)
    requires forall n :: n in names ==> Named(before, n).Some? && Named(after, n).Some?
    ensures DefinesPartsOf(Up(Modified(table, kind, before, after, names)), table)
    ensures DefinesPartsOf(Down(Modified(table, kind, before, after, names)), table)
  {
    if names != [] {
      var n := names[|names| - 1];
      var p, q := Named(before, n).value, Named(after, n).value;
      var rest, last := Modified(table, kind, before, after, names[..|names| - 1]), ModifyPart(table, kind, p, q);
      ModifiedDefines(table, kind, before, after, names[..|names| - 1]);
      if p.body != q.body {
        UpConcat(rest, [last]);
        DownConcat(rest, [last]);
        UpOne(last);
        DefinesConcat(Up(rest), last.forward, table);
        DefinesConcat(last.backward, Down(rest), table);
      } else {
        assert rest + [] == rest;
      }
    }
  }

  lemma UpOne(d: SchemaDiff)
    ensures Up([d]) == d.forward && Down([d]) == d.backward
  {
    assert [d][..0] == [] && Up([]) == [] && Down([]) == [];
  }

  /** The named parts of a table are all there. */
  ghost predicate HasParts(s: State, table: string, kind: ChildKind, ps: seq<Part>) {
    forall p :: p in ps ==> Child(table, kind, p.name) in s
  }

  lemma {:induction false} DroppingIsClean(table: string, kind: ChildKind, ps: seq<Part>, others: seq<Part>, s: State)
    requires UniqueParts(ps) && HasParts(s, table, kind, ps)
    ensures Clean(Up(Dropped(table, kind, ps, others)), s)
  {
    if ps != [] {
      var init, p := ps[..|ps| - 1], ps[|ps| - 1];
      var rest, last, o := Dropped(table, kind, init, others), DropPart(table, kind, p), Child(table, kind, p.name);
      DroppingIsClean(table, kind, init, others, s);
      if Named(others, p.name).None? {
        UpConcat(rest, [last]);
        UpOne(last);
        DroppedAims(table, kind, init, others, o);
        assert Named(init, p.name).None?;
        AimDecides(rest, o, None, None, s);
        assert p in ps && o in s;
        assert Get(Run(Up(rest), s), o) == Get(s, o);
        RunOne(Remove(o), Run(Up(rest), s));
        CleanConcat(Up(rest), last.forward, s);
      } else {
        assert rest + [] == rest;
      }
    }
  }

  lemma {:induction false} UnaddingIsClean(table: string, kind: ChildKind, ps: seq<Part>, others: seq<Part>, s: State)
    requires UniqueParts(ps) && HasParts(s, table, kind, ps)
    ensures Clean(Down(Added(table, kind, ps, others)), s)
  {
    if ps != [] {
      var init, p := ps[..|ps| - 1], ps[|ps| - 1];
      var rest, last, o := Added(table, kind, init, others), AddPart(table, kind, p), Child(table, kind, p.name);
      assert p in ps && o in s;
      if Named(others, p.name).None? {
        DownConcat(rest, [last]);
        UpOne(last);
        RunOne(Remove(o), s);
        assert HasParts(Apply(Remove(o), s), table, kind, init);
        UnaddingIsClean(table, kind, init, others, Apply(Remove(o), s));
        CleanConcat(last.backward, Down(rest), s);
      } else {
        UnaddingIsClean(table, kind, init, others, s);
        assert rest + [] == rest;
      }
    }
  }

  lemma PartsUpClean(table: string, kind: ChildKind, before: seq<Part>, after: seq<Part>, s: State)
    requires UniqueParts(before) && UniqueParts(after) && Table(table) in s && HasParts(s, table, kind, before)
    ensures Clean(Up(PartDiffs(table, kind, before, after)), s)
  {
    CommonAreNamed(before, after);
    var a, d := Added(table, kind, after, before), Dropped(table, kind, before, after);
    var m := if kind == Field then Modified(table, kind, before, after, CommonNames(before, after)) else [];
    UpConcat(a + d, m);
    UpConcat(a, d);
    AddedDefines(table, kind, after, before);
    DefiningPartsIsClean(Up(a), table, s);
    var s1 := Run(Up(a), s);
    forall p | p in before ensures Child(table, kind, p.name) in s1 {
      DefiningKeeps(Up(a), table, s, Child(table, kind, p.name));
    }
    DroppingIsClean(table, kind, before, after, s1);
    DroppedAims(table, kind, before, after, Table(table));
    AimDecides(d, Table(table), None, None, s1);
    var s2 := Run(Up(d), s1);
    if kind == Field { ModifiedDefines(table, kind, before, after, CommonNames(before, after)); }
    DefiningPartsIsClean(Up(m), table, s2);
    CleanConcat(Up(a), Up(d), s);
    RunConcat(Up(a), Up(d), s);
    CleanConcat(Up(a) + Up(d), Up(m), s);
  }

  lemma Three(a: seq<SchemaDiff>, b: seq<SchemaDiff>, c: seq<SchemaDiff>)
    ensures Up(a + b + c) == Up(a) + (Up(b) + Up(c))
    ensures Down(a + b + c) == Down(c) + (Down(b) + Down(a))
    ensures Down(a + b + c) == Down(c) + Down(b) + Down(a)
  {
    hide Up, Down;
    UpConcat(a + b, c);
    UpConcat(a, b);
    DownConcat(a + b, c);
    DownConcat(a, b);
  }

  /** Backwards, the restored and redefined parts come first and the added ones go last. */
  lemma PartsDownSplit(table: string, kind: ChildKind, before: seq<Part>, after: seq<Part>)
      returns (defines: seq<Statement>)
    ensures DefinesPartsOf(defines, table)
    ensures Down(PartDiffs(table, kind, before, after)) == defines + Down(Added(table, kind, after, before))
  {
    var a, d := Added(table, kind, after, before), Dropped(table, kind, before, after);
    var m := ModifiedParts(table, kind, before, after);
    DroppedRedefines(table, kind, before, after);
    hide Down, DefinesPartsOf, PartDiffs, Added, Dropped;
    Three(a, d, m);
    DefinesConcat(Down(m), Down(d), table);
    defines := Down(m) + Down(d);
  }

  lemma ModifiedParts(table: string, kind: ChildKind, before: seq<Part>, after: seq<Part>) returns (m: seq<SchemaDiff>)
    ensures PartDiffs(table, kind, before, after)
      == Added(table, kind, after, before) + Dropped(table, kind, before, after) + m
    ensures DefinesPartsOf(Down(m), table)
  {
    CommonAreNamed(before, after);
    hide Added, Dropped;
    if kind == Field {
      m := Modified(table, kind, before, after, CommonNames(before, after));
      ModifiedDefines(table, kind, before, after, CommonNames(before, after));
    } else {
      m := [];
    }
  }

  lemma PartsDownClean(table: string, kind: ChildKind, before: seq<Part>, after: seq<Part>, s: State)
    requires UniqueParts(before) && UniqueParts(after) && Table(table) in s && HasParts(s, table, kind, after)
    ensures Clean(Down(PartDiffs(table, kind, before, after)), s)
  {
    hide Clean, Run, Down, DefinesPartsOf, PartDiffs, Added;
    var defines := PartsDownSplit(table, kind, before, after);
    DefiningPartsIsClean(defines, table, s);
    var s1 := Run(defines, s);
    forall p | p in after ensures Child(table, kind, p.name) in s1 {
      DefiningKeeps(defines, table, s, Child(table, kind, p.name));
    }
    UnaddingIsClean(table, kind, after, before, s1);
    CleanConcat(defines, Down(Added(table, kind, after, before)), s);
  }

  lemma {:induction false} DefiningKeeps(script: seq<Statement>, table: string, s: State, o: Object)
    requires DefinesPartsOf(script, table) && o in s
    ensures o in Run(script, s)
  {
    if script != [] {
      var init := script[..|script| - 1];
      assert DefinesPartsOf(init, table) by { assert forall i :: 0 <= i < |init| ==> init[i] == script[i]; }
      DefiningKeeps(init, table, s, o);
    }
  }

  // ---------- whole tables ----------

  /** Every part a table declares is there, and the table itself. */
  ghost predicate HasTable(s: State, t: TableDefinition) {
    && Table(t.name) in s
    && HasParts(s, t.name, Field, t.fields) && HasParts(s, t.name, Index, t.indexes)
      && HasParts(s, t.name, Event, t.events)
  }

  ghost predicate UniqueInside(t: TableDefinition) {
    UniqueParts(t.fields) && UniqueParts(t.indexes) && UniqueParts(t.events)
  }

  /** The differences of parts of one kind leave the table and the parts of other kinds alone. */
  lemma PartDiffsKeep(table: string, kind: ChildKind, before: seq<Part>, after: seq<Part>, s: State, o: Object)
    requires UniqueParts(before) && UniqueParts(after) && !IsPart(o, table, kind) && o in s
    ensures o in Run(Up(PartDiffs(table, kind, before, after)), s)
      && o in Run(Down(PartDiffs(table, kind, before, after)), s)
  {
    PartDiffsAims(table, kind, before, after, o);
    AimDecides(PartDiffs(table, kind, before, after), o, None, None, s);
  }

  lemma TableUpClean(d: TableDefinition, c: TableDefinition, s: State)
    requires UniqueInside(d) && UniqueInside(c) && d.name == c.name && HasTable(s, d)
    ensures Clean(Up(TableDiffs(d, c)), s)
  {
    hide Clean, Run, Up, PartDiffs;
    var t := c.name;
    var f, i, e := PartDiffs(t, Field, d.fields, c.fields), PartDiffs(t, Index, d.indexes, c.indexes),
      PartDiffs(t, Event, d.events, c.events);
    PartsUpClean(t, Field, d.fields, c.fields, s);
    var s1 := Run(Up(f), s);
    PartDiffsKeep(t, Field, d.fields, c.fields, s, Table(t));
    forall p | p in d.indexes ensures Child(t, Index, p.name) in s1 {
      PartDiffsKeep(t, Field, d.fields, c.fields, s, Child(t, Index, p.name));
    }
    forall p | p in d.events ensures Child(t, Event, p.name) in s1 {
      PartDiffsKeep(t, Field, d.fields, c.fields, s, Child(t, Event, p.name));
    }
    PartsUpClean(t, Index, d.indexes, c.indexes, s1);
    var s2 := Run(Up(i), s1);
    PartDiffsKeep(t, Index, d.indexes, c.indexes, s1, Table(t));
    forall p | p in d.events ensures Child(t, Event, p.name) in s2 {
      PartDiffsKeep(t, Index, d.indexes, c.indexes, s1, Child(t, Event, p.name));
    }
    PartsUpClean(t, Event, d.events, c.events, s2);
    UpConcat(f, i);
    UpConcat(f + i, e);
    CleanConcat(Up(f), Up(i), s);
    RunConcat(Up(f), Up(i), s);
    CleanConcat(Up(f) + Up(i), Up(e), s);
  }

  lemma TableDownClean(d: TableDefinition, c: TableDefinition, s: State)
    requires UniqueInside(d) && UniqueInside(c) && d.name == c.name && HasTable(s, c)
    ensures Clean(Down(TableDiffs(d, c)), s)
  {
    hide Clean, Run, Down, PartDiffs;
    var t := c.name;
    var f, i, e := PartDiffs(t, Field, d.fields, c.fields), PartDiffs(t, Index, d.indexes, c.indexes),
      PartDiffs(t, Event, d.events, c.events);
    PartsDownClean(t, Event, d.events, c.events, s);
    var s1 := Run(Down(e), s);
    PartDiffsKeep(t, Event, d.events, c.events, s, Table(t));
    forall p | p in c.indexes ensures Child(t, Index, p.name) in s1 {
      PartDiffsKeep(t, Event, d.events, c.events, s, Child(t, Index, p.name));
    }
    forall p | p in c.fields ensures Child(t, Field, p.name) in s1 {
      PartDiffsKeep(t, Event, d.events, c.events, s, Child(t, Field, p.name));
    }
    PartsDownClean(t, Index, d.indexes, c.indexes, s1);
    var s2 := Run(Down(i), s1);
    PartDiffsKeep(t, Index, d.indexes, c.indexes, s1, Table(t));
    forall p | p in c.fields ensures Child(t, Field, p.name) in s2 {
      PartDiffsKeep(t, Index, d.indexes, c.indexes, s1, Child(t, Field, p.name));
    }
    PartsDownClean(t, Field, d.fields, c.fields, s2);
    DownConcat(f, i);
    DownConcat(f + i, e);
    CleanConcat(Down(i), Down(f), s1);
    CleanConcat(Down(e), Down(i) + Down(f), s);
  }

  lemma NewTableUpClean(t: TableDefinition, s: State)
    ensures Clean(Up(NewTable(t)), s)
  {
    hide DefinesPartsOf, Up, Added, Clean, Run;
    var head, tail := AddTable(t).forward, NewTableParts(t);
    UpConcat([AddTable(t)], tail);
    UpOne(AddTable(t));
    RunOne(head[0], s);
    PartsDefine(t);
    DefiningPartsIsClean(Up(tail), t.name, Run(head, s));
    CleanConcat(head, Up(tail), s);
    assert NewTable(t) == [AddTable(t)] + tail;
  }

  function NewTableParts(t: TableDefinition): seq<SchemaDiff> {
    Added(t.name, Field, t.fields, []) + Added(t.name, Index, t.indexes, []) + Added(t.name, Event, t.events, [])
  }

  lemma PartsDefine(t: TableDefinition)
    ensures DefinesPartsOf(Up(NewTableParts(t)), t.name)
  {
    var f, i, e := Added(t.name, Field, t.fields, []), Added(t.name, Index, t.indexes, []),
      Added(t.name, Event, t.events, []);
    AddedDefines(t.name, Field, t.fields, []);
    AddedDefines(t.name, Index, t.indexes, []);
    AddedDefines(t.name, Event, t.events, []);
    hide DefinesPartsOf, Up, Added;
    UpConcat(f + i, e);
    UpConcat(f, i);
    DefinesConcat(Up(f), Up(i), t.name);
    DefinesConcat(Up(f) + Up(i), Up(e), t.name);
  }

  lemma NewTableDownClean(t: TableDefinition, s: State)
    requires UniqueInside(t) && HasTable(s, t)
    ensures Clean(Down(NewTable(t)), s)
  {
    hide Clean, Run, Down, Added;
    var n := t.name;
    var f, i, e := Added(n, Field, t.fields, []), Added(n, Index, t.indexes, []), Added(n, Event, t.events, []);
    UnaddingIsClean(n, Event, t.events, [], s);
    var s1 := Run(Down(e), s);
    AddedKeeps(n, Event, t.events, s, Table(n));
    forall p | p in t.indexes ensures Child(n, Index, p.name) in s1 {
      AddedKeeps(n, Event, t.events, s, Child(n, Index, p.name));
    }
    forall p | p in t.fields ensures Child(n, Field, p.name) in s1 {
      AddedKeeps(n, Event, t.events, s, Child(n, Field, p.name));
    }
    UnaddingIsClean(n, Index, t.indexes, [], s1);
    var s2 := Run(Down(i), s1);
    AddedKeeps(n, Index, t.indexes, s1, Table(n));
    forall p | p in t.fields ensures Child(n, Field, p.name) in s2 {
      AddedKeeps(n, Index, t.indexes, s1, Child(n, Field, p.name));
    }
    UnaddingIsClean(n, Field, t.fields, [], s2);
    var s3 := Run(Down(f), s2);
    AddedKeeps(n, Field, t.fields, s2, Table(n));
    RunOne(Remove(Table(n)), s3);
    var last := AddTable(t).backward;
    UpOne(AddTable(t));
    DownConcat([AddTable(t)] + f + i, e);
    DownConcat([AddTable(t)] + f, i);
    DownConcat([AddTable(t)], f);
    CleanConcat(Down(f), last, s2);
    CleanConcat(Down(i), Down(f) + last, s1);
    CleanConcat(Down(e), Down(i) + (Down(f) + last), s);
  }

  lemma AddedKeeps(table: string, kind: ChildKind, ps: seq<Part>, s: State, o: Object)
    requires UniqueParts(ps) && !IsPart(o, table, kind) && o in s
    ensures o in Run(Down(Added(table, kind, ps, [])), s)
  {
    AddedAims(table, kind, ps, [], o);
    AimDecides(Added(table, kind, ps, []), o, None, None, s);
  }

  // ---------- whole schemas ----------

  lemma {:induction false} NewTablesUpClean(ts: seq<TableDefinition>, others: seq<TableDefinition>, s: State)
    ensures Clean(Up(NewTables(ts, others)), s)
  {
    if ts != [] {
      var init, t := ts[..|ts| - 1], ts[|ts| - 1];
      var rest, last := NewTables(init, others), NewTable(t);
      NewTablesUpClean(init, others, s);
      if TableNamed(others, t.name).None? {
        UpConcat(rest, last);
        NewTableUpClean(t, Run(Up(rest), s));
        CleanConcat(Up(rest), Up(last), s);
      } else {
        assert rest + [] == rest;
      }
    }
  }

  lemma {:induction false} GoneTablesUpClean(ts: seq<TableDefinition>, others: seq<TableDefinition>, s: State)
    requires UniqueNames(ts) && forall t :: t in ts && TableNamed(others, t.name).None? ==> Table(t.name) in s
    ensures Clean(Up(GoneTables(ts, others)), s)
  {
    if ts != [] {
      var init, t := ts[..|ts| - 1], ts[|ts| - 1];
      var rest, last := GoneTables(init, others), DropTable(t);
      GoneTablesUpClean(init, others, s);
      if TableNamed(others, t.name).None? {
        UpConcat(rest, [last]);
        UpOne(last);
        GoneTablesAims(init, others, Table(t.name));
        assert TableNamed(init, t.name).None?;
        AimDecides(rest, Table(t.name), None, None, s);
        assert t in ts;
        assert Get(Run(Up(rest), s), Table(t.name)) == Get(s, Table(t.name));
        RunOne(Remove(Table(t.name)), Run(Up(rest), s));
        CleanConcat(Up(rest), last.forward, s);
      } else {
        assert rest + [] == rest;
      }
    }
  }

  lemma {:induction false} GoneTablesDownClean(ts: seq<TableDefinition>, others: seq<TableDefinition>, s: State)
    ensures Clean(Down(GoneTables(ts, others)), s)
  {
    if ts != [] {
      var init, t := ts[..|ts| - 1], ts[|ts| - 1];
      var rest, last := GoneTables(init, others), DropTable(t);
      if TableNamed(others, t.name).None? {
        DownConcat(rest, [last]);
        UpOne(last);
        RunOne(Define(Table(t.name), Mode(t)), s);
        GoneTablesDownClean(init, others, Run(last.backward, s));
        CleanConcat(last.backward, Down(rest), s);
      } else {
        GoneTablesDownClean(init, others, s);
        assert rest + [] == rest;
      }
    }
  }

  /** The differences of a list of tables leave the objects of other tables alone. */
  lemma ChangedKeeps(code: seq<TableDefinition>, db: seq<TableDefinition>, names: seq<string>, s: State, o: Object)
    requires UniqueNames(code) && UniqueNames(db)
    requires forall n :: n in names ==> TableNamed(code, n).Some? && TableNamed(db, n).Some?
    requires forall i, j :: 0 <= i < j < |names| ==> names[i] != names[j]
    requires (o.Table? || (o.Child? && o.table !in names)) && o in s
    ensures o in Run(Up(ChangedTables(code, db, names)), s)
  {
    ChangedTablesAims(code, db, names, o);
    AimDecides(ChangedTables(code, db, names), o, None, None, s);
  }

  lemma {:induction false} ChangedUpClean(code: seq<TableDefinition>, db: seq<TableDefinition>, names: seq<string>,
                                          s: State)
    requires UniqueNames(code) && UniqueNames(db)
    requires forall n ::
      n in names ==> TableNamed(code, n).Some? && TableNamed(db, n).Some? && HasTable(s, TableNamed(db, n).value)
    requires forall i, j :: 0 <= i < j < |names| ==> names[i] != names[j]
    ensures Clean(Up(ChangedTables(code, db, names)), s)
  {
    if names != [] {
      var init, n := names[..|names| - 1], names[|names| - 1];
      assert names == init + [n];
      var rest, c, d := ChangedTables(code, db, init), TableNamed(code, n).value, TableNamed(db, n).value;
      ChangedUpClean(code, db, init, s);
      hide Clean, Run, Up, TableDiffs;
      UpConcat(rest, TableDiffs(d, c));
      KeepsTable(code, db, init, s, d);
      TableUpClean(d, c, Run(Up(rest), s));
      CleanConcat(Up(rest), Up(TableDiffs(d, c)), s);
    }
  }

  lemma KeepsTable(code: seq<TableDefinition>, db: seq<TableDefinition>, names: seq<string>, s: State,
                   d: TableDefinition)
    requires UniqueNames(code) && UniqueNames(db)
    requires forall n :: n in names ==> TableNamed(code, n).Some? && TableNamed(db, n).Some?
    requires forall i, j :: 0 <= i < j < |names| ==> names[i] != names[j]
    requires d.name !in names && HasTable(s, d)
    ensures HasTable(Run(Up(ChangedTables(code, db, names)), s), d)
  {
    ChangedKeeps(code, db, names, s, Table(d.name));
    forall p | p in d.fields { ChangedKeeps(code, db, names, s, Child(d.name, Field, p.name)); }
    forall p | p in d.indexes { ChangedKeeps(code, db, names, s, Child(d.name, Index, p.name)); }
    forall p | p in d.events { ChangedKeeps(code, db, names, s, Child(d.name, Event, p.name)); }
  }

  lemma ChangedBackKeeps(code: seq<TableDefinition>, db: seq<TableDefinition>, names: seq<string>, s: State, o: Object)
    requires UniqueNames(code) && UniqueNames(db)
    requires forall n :: n in names ==> TableNamed(code, n).Some? && TableNamed(db, n).Some?
    requires forall i, j :: 0 <= i < j < |names| ==> names[i] != names[j]
    requires (o.Table? || (o.Child? && o.table !in names)) && o in s
    ensures o in Run(Down(ChangedTables(code, db, names)), s)
  {
    ChangedTablesAims(code, db, names, o);
    AimDecides(ChangedTables(code, db, names), o, None, None, s);
  }

  /** The differences of one table leave the objects of other tables alone. */
  lemma TableDiffsKeep(d: TableDefinition, c: TableDefinition, s: State, t: TableDefinition)
    requires UniqueInside(d) && UniqueInside(c) && d.name == c.name && t.name != c.name && HasTable(s, t)
    ensures HasTable(Run(Down(TableDiffs(d, c)), s), t)
  {
    hide Run, Down, TableDiffs, Aims;
    forall o | Owned(o, t.name) && o in s ensures o in Run(Down(TableDiffs(d, c)), s) {
      TableDiffsAims(d, c, o);
      AimDecides(TableDiffs(d, c), o, None, None, s);
    }
  }

  /** Undoing what changed one table is accepted and leaves the tables of other names there. */
  lemma ChangedTableDown(code: seq<TableDefinition>, db: seq<TableDefinition>, init: seq<string>, n: string, s: State)
    requires UniqueNames(code) && UniqueNames(db) && n !in init
    requires forall m :: m in init + [n] ==> TableNamed(code, m).Some? && HasTable(s, TableNamed(code, m).value)
    requires TableNamed(db, n).Some?
    ensures
      var ds := Down(TableDiffs(TableNamed(db, n).value, TableNamed(code, n).value));
      Clean(ds, s) && forall m :: m in init ==> HasTable(Run(ds, s), TableNamed(code, m).value)
  {
    var c, d := TableNamed(code, n).value, TableNamed(db, n).value;
    hide Clean, Run, Down, TableDiffs, HasTable, TableNamed;
    assert n in init + [n];
    TableDownClean(d, c, s);
    forall m | m in init ensures HasTable(Run(Down(TableDiffs(d, c)), s), TableNamed(code, m).value) {
      assert m in init + [n];
      TableDiffsKeep(d, c, s, TableNamed(code, m).value);
    }
  }

  lemma {:induction false} ChangedDownClean(code: seq<TableDefinition>, db: seq<TableDefinition>, names: seq<string>,
                                            s: State)
    requires UniqueNames(code) && UniqueNames(db)
    requires forall n ::
      n in names ==> TableNamed(code, n).Some? && TableNamed(db, n).Some? && HasTable(s, TableNamed(code, n).value)
    requires forall i, j :: 0 <= i < j < |names| ==> names[i] != names[j]
    ensures Clean(Down(ChangedTables(code, db, names)), s)
  {
    if names != [] {
      var init, n := names[..|names| - 1], names[|names| - 1];
      assert names == init + [n];
      var rest, last := ChangedTables(code, db, init), TableDiffs(TableNamed(db, n).value, TableNamed(code, n).value);
      assert ChangedTables(code, db, names) == rest + last;
      hide Clean, Run, Down, TableDiffs, HasTable, TableNamed, ChangedTables, UniqueNames;
      ChangedTableDown(code, db, init, n, s);
      ChangedDownClean(code, db, init, Run(Down(last), s));
      DownConcat(rest, last);
      CleanConcat(Down(last), Down(rest), s);
    }
  }

  lemma NewTableKeeps(d: TableDefinition, s: State, t: TableDefinition)
    requires UniqueInside(d) && t.name != d.name && HasTable(s, t)
    ensures HasTable(Run(Down(NewTable(d)), s), t)
  {
    hide Run, Down, NewTable, Aims;
    forall o | Owned(o, t.name) && o in s ensures o in Run(Down(NewTable(d)), s) {
      NewTableAims(d, o);
      OwnDeclared(d, o);
      AimDecides(NewTable(d), o, When(DeclaredBy(d, o).Some?, DeclaredBy(d, o)), None, s);
    }
  }

  lemma NewTableDown(init: seq<TableDefinition>, t: TableDefinition, others: seq<TableDefinition>, s: State)
    requires UniqueNames(init + [t]) && HasTable(s, t)
    requires forall u :: u in init && TableNamed(others, u.name).None? ==> HasTable(s, u)
    ensures Clean(Down(NewTable(t)), s)
      && forall u :: u in init && TableNamed(others, u.name).None? ==> HasTable(Run(Down(NewTable(t)), s), u)
  {
    hide Clean, Run, Down, NewTable, HasTable, TableNamed;
    assert (init + [t])[|init|] == t;
    NewTableDownClean(t, s);
    forall u | u in init && TableNamed(others, u.name).None? ensures HasTable(Run(Down(NewTable(t)), s), u) {
      var i :| 0 <= i < |init| && init[i] == u;
      assert (init + [t])[i] == u;
      NewTableKeeps(t, s, u);
    }
  }

  lemma {:induction false} NewTablesDownClean(ts: seq<TableDefinition>, others: seq<TableDefinition>, s: State)
    requires UniqueNames(ts) && forall t :: t in ts && TableNamed(others, t.name).None? ==> HasTable(s, t)
    ensures Clean(Down(NewTables(ts, others)), s)
  {
    if ts != [] {
      var init, t := ts[..|ts| - 1], ts[|ts| - 1];
      var rest, last := NewTables(init, others), NewTable(t);
      assert ts == init + [t] && UniqueNames(init);
      assert NewTables(ts, others) == rest + if TableNamed(others, t.name).None? then last else [];
      hide Clean, Run, Down, NewTable, NewTables, HasTable, TableNamed, UniqueNames;
      if TableNamed(others, t.name).None? {
        NewTableDown(init, t, others, s);
        NewTablesDownClean(init, others, Run(Down(last), s));
        DownConcat(rest, last);
        CleanConcat(Down(last), Down(rest), s);
      } else {
        NewTablesDownClean(init, others, s);
        assert rest + [] == rest;
      }
    }
  }

  // ---------- the theorems ----------

  lemma HoldsHasTables(s: State, ts: seq<TableDefinition>, t: TableDefinition)
    requires UniqueNames(ts) && Holds(s, ts) && t in ts
    ensures HasTable(s, t)
  {
    TableNamedUnique(ts, t);
    assert Get(s, Table(t.name)) == Declared(ts, Table(t.name));
    forall kind, p | p in Parts(t, kind) ensures Child(t.name, kind, p.name) in s {
      assert Get(s, Child(t.name, kind, p.name)) == Declared(ts, Child(t.name, kind, p.name));
    }
    assert Parts(t, Field) == t.fields && Parts(t, Index) == t.indexes && Parts(t, Event) == t.events;
  }

  /** The three stretches of a schema difference. */
  lemma Stretches(code: seq<TableDefinition>, db: seq<TableDefinition>) returns (names: seq<string>)
    requires UniqueNames(code) && UniqueNames(db)
    ensures forall n :: n in names <==> TableNamed(code, n).Some? && TableNamed(db, n).Some?
    ensures forall i, j :: 0 <= i < j < |names| ==> names[i] != names[j]
    ensures
      var n, g, c := NewTables(code, db), GoneTables(db, code), ChangedTables(code, db, names);
      var ds := SchemaDiffs(code, db);
      && ds == n + g + c
      && Up(ds) == Up(n) + (Up(g) + Up(c))
      && Down(ds) == Down(c) + (Down(g) + Down(n))
  {
    CommonTablesAreNamed(code, db);
    names := CommonTables(code, db);
    forall i, j | 0 <= i < j < |names| ensures names[i] != names[j] { LessIsTotal(names[i], names[j]); }
    Three(NewTables(code, db), GoneTables(db, code), ChangedTables(code, db, names));
    hide Up, Down, NewTables, GoneTables, ChangedTables;
  }

  /** What the first two stretches leave of an object of a table of the database: gone if the table is. */
  lemma FirstStretches(code: seq<TableDefinition>, db: seq<TableDefinition>, s: State, o: Object)
    requires UniqueNames(code) && UniqueNames(db) && !o.Unrecognised? && TableNamed(db, o.table).Some? && o in s
    ensures o in Run(Up(NewTables(code, db)), s)
    ensures TableNamed(code, o.table).Some? ==> o in Run(Up(GoneTables(db, code)), Run(Up(NewTables(code, db)), s))
  {
    NewTablesAims(code, db, o);
    AimDecides(NewTables(code, db), o, None, None, s);
    if TableNamed(code, o.table).Some? {
      GoneTablesAims(db, code, o);
      AimDecides(GoneTables(db, code), o, None, None, Run(Up(NewTables(code, db)), s));
    }
  }

  lemma TablesBeforeDropping(code: seq<TableDefinition>, db: seq<TableDefinition>, s: State)
    requires UniqueNames(code) && UniqueNames(db) && Holds(s, db)
    ensures forall t :: t in db && TableNamed(code, t.name).None? ==> Table(t.name) in Run(Up(NewTables(code, db)), s)
  {
    hide Run, Up, NewTables, Holds, UniqueParts;
    forall t | t in db ensures Table(t.name) in Run(Up(NewTables(code, db)), s) {
      HoldsHasTables(s, db, t);
      TableNamedUnique(db, t);
      FirstStretches(code, db, s, Table(t.name));
    }
  }

  lemma TableBeforeChanging(code: seq<TableDefinition>, db: seq<TableDefinition>, s: State, m: string)
    requires UniqueNames(code) && UniqueNames(db) && Holds(s, db) && TableNamed(code, m).Some?
      && TableNamed(db, m).Some?
    ensures HasTable(Run(Up(GoneTables(db, code)), Run(Up(NewTables(code, db)), s)), TableNamed(db, m).value)
  {
    hide Run, Up, NewTables, GoneTables, Holds, UniqueNames;
    var t := TableNamed(db, m).value;
    HoldsHasTables(s, db, t);
    forall o | Owned(o, m) && o in s ensures o in Run(Up(GoneTables(db, code)), Run(Up(NewTables(code, db)), s)) {
      FirstStretches(code, db, s, o);
    }
  }

  /** From a database that holds its tables, every forward statement is accepted. */
  lemma UpRunsClean(code: seq<TableDefinition>, db: seq<TableDefinition>, s: State)
    requires UniqueNames(code) && UniqueNames(db) && Holds(s, db)
    ensures Clean(Up(SchemaDiffs(code, db)), s)
  {
    hide *;
    var names := Stretches(code, db);
    var n, g, c := NewTables(code, db), GoneTables(db, code), ChangedTables(code, db, names);
    var s1 := Run(Up(n), s);
    var s2 := Run(Up(g), s1);
    NewTablesUpClean(code, db, s);
    TablesBeforeDropping(code, db, s);
    GoneTablesUpClean(db, code, s1);
    forall m | m in names ensures HasTable(s2, TableNamed(db, m).value) { TableBeforeChanging(code, db, s, m); }
    ChangedUpClean(code, db, names, s2);
    CleanConcat(Up(g), Up(c), s1);
    CleanConcat(Up(n), Up(g) + Up(c), s);
  }

  /** Going up leaves every object that the code declares. */
  lemma UpLeavesDeclared(code: seq<TableDefinition>, db: seq<TableDefinition>, s: State, o: Object)
    requires UniqueNames(code) && UniqueNames(db) && Holds(s, db) && Declared(code, o).Some?
    ensures o in Run(Up(SchemaDiffs(code, db)), s)
  {
    SchemaDiffsAims(code, db, o);
    AimDecides(SchemaDiffs(code, db), o, UpAim(code, db, o), DownAim(code, db, o), s);
    DeclaredInOwn(code, o);
    DeclaredInOwn(db, o);
    assert Get(s, o) == Declared(db, o);
  }

  lemma UpLeavesTables(code: seq<TableDefinition>, db: seq<TableDefinition>, s: State, t: TableDefinition)
    requires UniqueNames(code) && UniqueNames(db) && Holds(s, db) && t in code
    ensures HasTable(Run(Up(SchemaDiffs(code, db)), s), t)
  {
    hide Holds, Run, Up, SchemaDiffs;
    var after := Run(Up(SchemaDiffs(code, db)), s);
    TableNamedUnique(code, t);
    UpLeavesDeclared(code, db, s, Table(t.name));
    forall kind, p | p in Parts(t, kind) ensures Child(t.name, kind, p.name) in after {
      UpLeavesDeclared(code, db, s, Child(t.name, kind, p.name));
    }
    assert Parts(t, Field) == t.fields && Parts(t, Index) == t.indexes && Parts(t, Event) == t.events;
  }

  /** Going back through the changed and the dropped tables leaves the objects of tables that are only in the code. */
  lemma BackStretches(code: seq<TableDefinition>, db: seq<TableDefinition>, names: seq<string>, s: State, o: Object)
    requires UniqueNames(code) && UniqueNames(db) && !o.Unrecognised? && TableNamed(db, o.table).None? && o in s
    requires forall n :: n in names <==> TableNamed(code, n).Some? && TableNamed(db, n).Some?
    requires forall i, j :: 0 <= i < j < |names| ==> names[i] != names[j]
    ensures o in Run(Down(GoneTables(db, code)), Run(Down(ChangedTables(code, db, names)), s))
  {
    ChangedBackKeeps(code, db, names, s, o);
    GoneTablesAims(db, code, o);
    AimDecides(GoneTables(db, code), o, None, None, Run(Down(ChangedTables(code, db, names)), s));
  }

  lemma TableBeforeUnadding(code: seq<TableDefinition>, db: seq<TableDefinition>, names: seq<string>, s: State,
                            t: TableDefinition)
    requires UniqueNames(code) && UniqueNames(db) && TableNamed(db, t.name).None? && HasTable(s, t)
    requires forall n :: n in names <==> TableNamed(code, n).Some? && TableNamed(db, n).Some?
    requires forall i, j :: 0 <= i < j < |names| ==> names[i] != names[j]
    ensures HasTable(Run(Down(GoneTables(db, code)), Run(Down(ChangedTables(code, db, names)), s)), t)
  {
    hide Run, Down, ChangedTables, GoneTables, UniqueNames, TableNamed;
    forall o | Owned(o, t.name) && o in s
      ensures o in Run(Down(GoneTables(db, code)), Run(Down(ChangedTables(code, db, names)), s))
    {
      BackStretches(code, db, names, s, o);
    }
  }

  /** After going up, every backward statement is accepted. */
  lemma DownRunsClean(code: seq<TableDefinition>, db: seq<TableDefinition>, s: State)
    requires UniqueNames(code) && UniqueNames(db) && Holds(s, db)
    ensures Clean(Down(SchemaDiffs(code, db)), Run(Up(SchemaDiffs(code, db)), s))
  {
    hide *;
    var names := Stretches(code, db);
    var n, g, c := NewTables(code, db), GoneTables(db, code), ChangedTables(code, db, names);
    var s0 := Run(Up(SchemaDiffs(code, db)), s);
    var s1 := Run(Down(c), s0);
    var s2 := Run(Down(g), s1);
    forall t | t in code ensures HasTable(s0, t) { UpLeavesTables(code, db, s, t); }
    forall m | m in names ensures HasTable(s0, TableNamed(code, m).value) { assert TableNamed(code, m).value in code; }
    ChangedDownClean(code, db, names, s0);
    GoneTablesDownClean(db, code, s1);
    forall t | t in code && TableNamed(db, t.name).None? ensures HasTable(s2, t) {
      TableBeforeUnadding(code, db, names, s0, t);
    }
    NewTablesDownClean(code, db, s2);
    CleanConcat(Down(g), Down(n), s1);
    CleanConcat(Down(c), Down(g) + Down(n), s0);
  }
}
