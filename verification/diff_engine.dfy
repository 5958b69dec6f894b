/** The loops that compute the differences between two sets of tables and the migration made from them. */
module DiffEngine {
  import opened Wrappers
  import opened Order
  import opened Schema
  import opened Diff

  datatype Result<+T, +E> = Ok(value: T) | Err(error: E)

  datatype DiffError = Invalid

  datatype GenerateError = BlankName | NoDiffs | NoStatements

  type Diffs = Result<seq<SchemaDiff>, DiffError>

  // ---------- when a difference cannot be written ----------

  predicate OthersRender(ps: seq<Part>, others: seq<Part>) {
    forall p :: p in ps && Named(others, p.name).None? ==> p.renderable
  }

  predicate ChangedRender(before: seq<Part>, after: seq<Part>, n: string) {
    Named(before, n).Some? && Named(after, n).Some? && Named(before, n).value.body != Named(after, n).value.body ==>
      Named(after, n).value.renderable && Named(before, n).value.renderable
  }

  /** Every part that is added, dropped or modified passes validation. */
  ghost predicate PartsRender(kind: ChildKind, before: seq<Part>, after: seq<Part>) {
    && OthersRender(after, before) && OthersRender(before, after)
    && (kind == Field ==> forall n :: ChangedRender(before, after, n))
  }

  ghost predicate TableRenders(before: TableDefinition, after: TableDefinition) {
    && PartsRender(Field, before.fields, after.fields)
    && PartsRender(Index, before.indexes, after.indexes)
    && PartsRender(Event, before.events, after.events)
  }

  predicate NewTableRenders(t: TableDefinition) {
    OthersRender(t.fields, []) && OthersRender(t.indexes, []) && OthersRender(t.events, [])
  }

  ghost predicate SchemaRenders(code: seq<TableDefinition>, db: seq<TableDefinition>) {
    (forall i :: 0 <= i < |code| ==> RendersIfNew(code[i], db)) && forall n :: RendersIfCommon(code, db, n)
  }

  predicate RendersIfNew(t: TableDefinition, others: seq<TableDefinition>) {
    TableNamed(others, t.name).None? ==> NewTableRenders(t)
  }

  ghost predicate RendersIfCommon(code: seq<TableDefinition>, db: seq<TableDefinition>, n: string) {
    TableNamed(code, n).Some? && TableNamed(db, n).Some? ==>
      TableRenders(TableNamed(db, n).value, TableNamed(code, n).value)
  }

  // ---------- parts ----------

  method IndexParts(ps: seq<Part>) returns (m: map<string, Part>)
    ensures forall n :: (n in m <==> Named(ps, n).Some?) && (n in m ==> m[n] == Named(ps, n).value)
  {
    m := map[];
    for i := 0 to |ps|
      invariant forall n :: (n in m <==> Named(ps[..i], n).Some?) && (n in m ==> m[n] == Named(ps[..i], n).value)
    {
      m := m[ps[i].name := ps[i]];
      assert ps[..i + 1][..i] == ps[..i];
    }
    assert ps[..|ps|] == ps;
  }

  /** The names in both, ascending. */
  method Intersect<T>(before: map<string, T>, after: map<string, T>) returns (names: seq<string>)
    ensures Sorted(names) && forall n :: n in names <==> n in before && n in after
  {
    names := [];
    var left := before.Keys;
    while left != {}
      invariant left <= before.Keys && Sorted(names)
      invariant forall n :: n in names <==> n in before.Keys - left && n in after
      decreases left
    {
      var n :| n in left;
      left := left - {n};
      if n in after { names := InsertSorted(names, n); }
    }
  }

  method AddParts(table: string, kind: ChildKind, ps: seq<Part>, others: seq<Part>, index: map<string, Part>)
      returns (r: Diffs)
    requires forall n :: n in index <==> Named(others, n).Some?
    ensures r == if OthersRender(ps, others) then Ok(Added(table, kind, ps, others)) else Err(Invalid)
  {
    var diffs := [];
    for i := 0 to |ps|
      invariant OthersRender(ps[..i], others) && diffs == Added(table, kind, ps[..i], others)
    {
      assert ps[..i + 1][..i] == ps[..i] && ps[..i + 1] == ps[..i] + [ps[i]];
      if ps[i].name !in index {
        if !ps[i].renderable { return Err(Invalid); }
        diffs := diffs + [AddPart(table, kind, ps[i])];
      }
    }
    assert ps[..|ps|] == ps;
    return Ok(diffs);
  }

  method DropParts(table: string, kind: ChildKind, ps: seq<Part>, others: seq<Part>, index: map<string, Part>)
      returns (r: Diffs)
    requires forall n :: n in index <==> Named(others, n).Some?
    ensures r == if OthersRender(ps, others) then Ok(Dropped(table, kind, ps, others)) else Err(Invalid)
  {
    var diffs := [];
    for i := 0 to |ps|
      invariant OthersRender(ps[..i], others) && diffs == Dropped(table, kind, ps[..i], others)
    {
      assert ps[..i + 1][..i] == ps[..i] && ps[..i + 1] == ps[..i] + [ps[i]];
      if ps[i].name !in index {
        if !ps[i].renderable { return Err(Invalid); }
        diffs := diffs + [DropPart(table, kind, ps[i])];
      }
    }
    assert ps[..|ps|] == ps;
    return Ok(diffs);
  }

  method ModifyParts(table: string, kind: ChildKind, before: seq<Part>, after: seq<Part>, names: seq<string>)
      returns (r: Diffs)
    requires forall n :: n in names ==> Named(before, n).Some? && Named(after, n).Some?
    ensures r == if forall n ::
      n in names ==>
      ChangedRender(before, after, n) then Ok(Modified(table, kind, before, after, names)) else Err(Invalid)
  {
    var diffs := [];
    for i := 0 to |names|
      invariant forall n :: n in names[..i] ==> ChangedRender(before, after, n)
      invariant diffs == Modified(table, kind, before, after, names[..i])
    {
      assert names[..i + 1][..i] == names[..i] && names[..i + 1] == names[..i] + [names[i]];
      var p, q := Named(before, names[i]).value, Named(after, names[i]).value;
      if p.body != q.body {
        if !q.renderable || !p.renderable {
          assert names[i] in names && !ChangedRender(before, after, names[i]);
          return Err(Invalid);
        }
        diffs := diffs + [ModifyPart(table, kind, p, q)];
      }
    }
    assert names[..|names|] == names;
    return Ok(diffs);
  }

  /** One kind of part of a table that is on both sides; an error if something involved does not render. */
  method DiffParts(table: string, kind: ChildKind, before: seq<Part>, after: seq<Part>) returns (r: Diffs)
    ensures r == if PartsRender(kind, before, after) then Ok(PartDiffs(table, kind, before, after)) else Err(Invalid)
  {
    CommonAreNamed(before, after);
    var olds := IndexParts(before);
    var news := IndexParts(after);
    var added := AddParts(table, kind, after, before, olds);
    if added.Err? { return added; }
    var dropped := DropParts(table, kind, before, after, news);
    if dropped.Err? { return dropped; }
    var diffs := added.value + dropped.value;
    assert diffs + [] == diffs;
    if kind == Field {
      var names := Intersect(olds, news);
      SortedIsUnique(names, CommonNames(before, after));
      var modified := ModifyParts(table, kind, before, after, names);
      assert modified.Err? ==> exists n :: n in names && !ChangedRender(before, after, n);
      if modified.Err? { return modified; }
      forall n ensures ChangedRender(before, after, n) {
        assert n in names || Named(before, n).None? || Named(after, n).None?;
      }
      diffs := diffs + modified.value;
    }
    return Ok(diffs);
  }

  // ---------- tables ----------

  method NewTableDiffs(t: TableDefinition) returns (r: Diffs)
    ensures r == if NewTableRenders(t) then Ok(NewTable(t)) else Err(Invalid)
  {
    var fields := AddParts(t.name, Field, t.fields, [], map[]);
    if fields.Err? { return fields; }
    var indexes := AddParts(t.name, Index, t.indexes, [], map[]);
    if indexes.Err? { return indexes; }
    var events := AddParts(t.name, Event, t.events, [], map[]);
    if events.Err? { return events; }
    return Ok([AddTable(t)] + fields.value + indexes.value + events.value);
  }

  method DiffTables(before: Option<TableDefinition>, after: Option<TableDefinition>) returns (r: Diffs)
    ensures before.None? && after.None? ==> r == Ok([])
    ensures before.None? && after.Some? ==>
      r == if NewTableRenders(after.value) then Ok(NewTable(after.value)) else Err(Invalid)
    ensures before.Some? && after.None? ==> r == Ok([DropTable(before.value)])
    ensures before.Some? && after.Some? ==>
            r == if TableRenders(before.value, after.value)
              then Ok(TableDiffs(before.value, after.value)) else Err(Invalid)
  {
    if before.None? && after.Some? {
      r := NewTableDiffs(after.value);
    } else if before.Some? && after.None? {
      r := Ok([DropTable(before.value)]);
    } else if before.Some? && after.Some? {
      var b, a := before.value, after.value;
      var fields := DiffParts(a.name, Field, b.fields, a.fields);
      if fields.Err? { return fields; }
      var indexes := DiffParts(a.name, Index, b.indexes, a.indexes);
      if indexes.Err? { return indexes; }
      var events := DiffParts(a.name, Event, b.events, a.events);
      if events.Err? { return events; }
      r := Ok(fields.value + indexes.value + events.value);
    } else {
      r := Ok([]);
    }
  }

  // ---------- schemas ----------

  method IndexTables(ts: seq<TableDefinition>) returns (m: map<string, TableDefinition>)
    ensures forall n :: (n in m <==> TableNamed(ts, n).Some?) && (n in m ==> m[n] == TableNamed(ts, n).value)
  {
    m := map[];
    for i := 0 to |ts|
      invariant forall n ::
        (n in m <==> TableNamed(ts[..i], n).Some?) && (n in m ==> m[n] == TableNamed(ts[..i], n).value)
    {
      m := m[ts[i].name := ts[i]];
      assert ts[..i + 1][..i] == ts[..i];
    }
    assert ts[..|ts|] == ts;
  }

  method AddTables(code: seq<TableDefinition>, db: seq<TableDefinition>, index: map<string, TableDefinition>)
      returns (r: Diffs)
    requires forall n :: n in index <==> TableNamed(db, n).Some?
    ensures r == if forall i ::
      0 <= i < |code| ==> RendersIfNew(code[i], db) then Ok(NewTables(code, db)) else Err(Invalid)
  {
    hide NewTable, NewTableRenders;
    var diffs := [];
    for i := 0 to |code|
      invariant forall k :: 0 <= k < i ==> RendersIfNew(code[k], db)
      invariant diffs == NewTables(code[..i], db)
    {
      assert code[..i + 1][..i] == code[..i];
      if code[i].name !in index {
        var added := DiffTables(None, Some(code[i]));
        if added.Err? {
          assert !RendersIfNew(code[i], db);
          return added;
        }
        diffs := diffs + added.value;
      }
    }
    assert code[..|code|] == code;
    return Ok(diffs);
  }

  method DropTables(db: seq<TableDefinition>, code: seq<TableDefinition>, index: map<string, TableDefinition>)
      returns (diffs: seq<SchemaDiff>)
    requires forall n :: n in index <==> TableNamed(code, n).Some?
    ensures diffs == GoneTables(db, code)
  {
    diffs := [];
    for i := 0 to |db|
      invariant diffs == GoneTables(db[..i], code)
    {
      assert db[..i + 1][..i] == db[..i];
      if db[i].name !in index {
        var dropped := DiffTables(Some(db[i]), None);
        diffs := diffs + dropped.value;
      }
    }
    assert db[..|db|] == db;
  }

  method ChangeTables(code: seq<TableDefinition>, db: seq<TableDefinition>, names: seq<string>) returns (r: Diffs)
    requires forall n :: n in names ==> TableNamed(code, n).Some? && TableNamed(db, n).Some?
    ensures r == if forall i ::
      0 <= i < |names| ==> RendersIfCommon(code, db, names[i]) then Ok(ChangedTables(code, db, names)) else Err(Invalid)
  {
    hide TableDiffs, TableRenders;
    var diffs := [];
    for i := 0 to |names|
      invariant forall k :: 0 <= k < i ==> RendersIfCommon(code, db, names[k])
      invariant diffs == ChangedTables(code, db, names[..i])
    {
      assert names[..i + 1][..i] == names[..i];
      var modified := DiffTables(Some(TableNamed(db, names[i]).value), Some(TableNamed(code, names[i]).value));
      if modified.Err? {
        assert !RendersIfCommon(code, db, names[i]);
        return modified;
      }
      diffs := diffs + modified.value;
    }
    assert names[..|names|] == names;
    return Ok(diffs);
  }

  /**
   Everything that takes the tables of the database to those of the code, or an error if something does not render.
   */
  method DiffSchemas(code: seq<TableDefinition>, db: seq<TableDefinition>) returns (r: Diffs)
    ensures r == if SchemaRenders(code, db) then Ok(SchemaDiffs(code, db)) else Err(Invalid)
  {
    CommonTablesAreNamed(code, db);
    var codeTables := IndexTables(code);
    var dbTables := IndexTables(db);
    hide TableDiffs, TableRenders, NewTableRenders, NewTables, GoneTables, ChangedTables;
    var added := AddTables(code, db, dbTables);
    if added.Err? { return added; }
    var dropped := DropTables(db, code, codeTables);
    var names := Intersect(dbTables, codeTables);
    SortedIsUnique(names, CommonTables(code, db));
    var changed := ChangeTables(code, db, names);
    if changed.Err? { return changed; }
    forall n ensures RendersIfCommon(code, db, n) {
      assert n in names || TableNamed(code, n).None? || TableNamed(db, n).None?;
    }
    return Ok(added.value + dropped + changed.value);
  }

  // ---------- the migration ----------

  method ForwardScript(diffs: seq<SchemaDiff>) returns (up: seq<Statement>)
    ensures up == Up(diffs)
  {
    up := [];
    for i := 0 to |diffs|
      invariant up == Up(diffs[..i])
    {
      assert diffs[..i + 1][..i] == diffs[..i];
      if diffs[i].forward != [] { up := up + diffs[i].forward; }
    }
    assert diffs[..|diffs|] == diffs;
  }

  method BackwardScript(diffs: seq<SchemaDiff>) returns (down: seq<Statement>)
    ensures down == Down(diffs)
  {
    down := [];
    assert diffs[..|diffs|] == diffs;
    for i := |diffs| downto 0
      invariant down + Down(diffs[..i]) == Down(diffs)
    {
      BackwardLast(diffs, i, down);
      hide Down;
      if diffs[i].backward != [] { down := down + diffs[i].backward; } else { assert down + diffs[i].backward == down; }
    }
    assert diffs[..0] == [] && down + [] == down;
  }

  lemma BackwardLast(diffs: seq<SchemaDiff>, i: nat, done: seq<Statement>)
    requires i < |diffs|
    ensures done + Down(diffs[..i + 1]) == done + diffs[i].backward + Down(diffs[..i])
  {
    assert diffs[..i + 1][..i] == diffs[..i];
  }

  /** The scripts of the migration file: forward in the order of the differences, backward in reverse. */
  method GenerateMigrationFromDiffs(blankName: bool, diffs: seq<SchemaDiff>)
      returns (r: Result<(seq<Statement>, seq<Statement>), GenerateError>)
    ensures r == if blankName then Err(BlankName)
                 else if diffs == [] then Err(NoDiffs)
                 else if Up(diffs) == [] && Down(diffs) == [] then Err(NoStatements)
                 else Ok((Up(diffs), Down(diffs)))
  {
    if blankName { return Err(BlankName); }
    if |diffs| == 0 { return Err(NoDiffs); }
    var up := ForwardScript(diffs);
    var down := BackwardScript(diffs);
    if |up| == 0 && |down| == 0 { return Err(NoStatements); }
    return Ok((up, down));
  }
}
