/**
 The statements that take one set of tables to another, forwards and backwards, and what running them
 does. Permissions are not part of this model.
 */
module Diff {
  import opened Wrappers
  import opened Order
  import opened Schema

  /** A field, index or event as declared. `renderable` says that its expressions pass validation. */
  datatype Part = Part(name: string, body: Body, renderable: bool)

  datatype TableDefinition = TableDefinition(name: string, mode: string, fields: seq<Part>, indexes: seq<Part>,
                                             events: seq<Part>)

  datatype SchemaDiff = SchemaDiff(forward: seq<Statement>, backward: seq<Statement>)

  const SCHEMAFULL := "SCHEMAFULL"

  function Mode(t: TableDefinition): Body {
    TableBody(if t.mode == "" then SCHEMAFULL else t.mode)
  }

  function Parts(t: TableDefinition, kind: ChildKind): seq<Part> {
    match kind
    case Field => t.fields
    case Index => t.indexes
    case Event => t.events
  }

  /** The last part of that name, as a map built from the list would have it. */
  function Named(ps: seq<Part>, name: string): (r: Option<Part>)
    ensures r.Some? ==> r.value in ps && r.value.name == name
    ensures r.None? ==> forall p :: p in ps ==> p.name != name
  {
    if ps == [] then None
    else if ps[|ps| - 1].name == name then Some(ps[|ps| - 1])
    else
      assert forall p :: p in ps ==> p in ps[..|ps| - 1] || p == ps[|ps| - 1];
      Named(ps[..|ps| - 1], name)
  }

  function TableNamed(ts: seq<TableDefinition>, name: string): (r: Option<TableDefinition>)
    ensures r.Some? ==> r.value in ts && r.value.name == name
    ensures r.None? ==> forall t :: t in ts ==> t.name != name
  {
    if ts == [] then None
    else if ts[|ts| - 1].name == name then Some(ts[|ts| - 1])
    else
      assert forall t :: t in ts ==> t in ts[..|ts| - 1] || t == ts[|ts| - 1];
      TableNamed(ts[..|ts| - 1], name)
  }

  // ---------- single differences ----------

  /** Rows that lack a new field with a default get it. */
  function Backfill(table: string, kind: ChildKind, p: Part): seq<Statement> {
    if kind == Field && p.body.FieldBody? && p.body.default != ""
      then [Update(Some(Target(table, p.name)), p.body.default)] else []
  }

  function AddPart(table: string, kind: ChildKind, p: Part): SchemaDiff {
    SchemaDiff([Define(Child(table, kind, p.name), p.body)]
      + Backfill(table, kind, p), [Remove(Child(table, kind, p.name))])
  }

  function DropPart(table: string, kind: ChildKind, p: Part): SchemaDiff {
    SchemaDiff([Remove(Child(table, kind, p.name))], [Define(Child(table, kind, p.name), p.body)])
  }

  function ModifyPart(table: string, kind: ChildKind, before: Part, after: Part): SchemaDiff {
    SchemaDiff([Define(Child(table, kind, after.name), after.body)],
      [Define(Child(table, kind, after.name), before.body)])
  }

  function AddTable(t: TableDefinition): SchemaDiff {
    SchemaDiff([Define(Table(t.name), Mode(t))], [Remove(Table(t.name))])
  }

  function DropTable(t: TableDefinition): SchemaDiff {
    SchemaDiff([Remove(Table(t.name))], [Define(Table(t.name), Mode(t))])
  }

  // ---------- lists of differences ----------

  function Added(table: string, kind: ChildKind, ps: seq<Part>, others: seq<Part>): seq<SchemaDiff> {
    if ps == [] then []
    else Added(table, kind, ps[..|ps| - 1], others) +
         (if Named(others, ps[|ps| - 1].name).Some? then [] else [AddPart(table, kind, ps[|ps| - 1])])
  }

  function Dropped(table: string, kind: ChildKind, ps: seq<Part>, others: seq<Part>): seq<SchemaDiff> {
    if ps == [] then []
    else Dropped(table, kind, ps[..|ps| - 1], others) +
         (if Named(others, ps[|ps| - 1].name).Some? then [] else [DropPart(table, kind, ps[|ps| - 1])])
  }

  ghost function CommonNames(ps: seq<Part>, qs: seq<Part>): seq<string> {
    SortedList(set p | p in ps && Named(qs, p.name).Some? :: p.name)
  }

  function Modified(table: string, kind: ChildKind, before: seq<Part>, after: seq<Part>,
                    names: seq<string>): seq<SchemaDiff>
    requires forall n :: n in names ==> Named(before, n).Some? && Named(after, n).Some?
  {
    if names == [] then []
    else
      var n := names[|names| - 1];
      var o, w := Named(before, n).value, Named(after, n).value;
      Modified(table, kind, before, after, names[..|names| - 1])
        + (if o.body == w.body then [] else [ModifyPart(table, kind, o, w)])
  }

  lemma CommonAreNamed(ps: seq<Part>, qs: seq<Part>)
    ensures Sorted(CommonNames(ps, qs))
    ensures forall n :: n in CommonNames(ps, qs) <==> Named(ps, n).Some? && Named(qs, n).Some?
  {
    forall n ensures n in CommonNames(ps, qs) <==> Named(ps, n).Some? && Named(qs, n).Some? {
      if Named(ps, n).Some? && Named(qs, n).Some? { assert Named(ps, n).value in ps; }
    }
  }

  /** Fields may be modified; indexes and events of the same name are taken to be the same. */
  ghost function PartDiffs(table: string, kind: ChildKind, before: seq<Part>, after: seq<Part>): seq<SchemaDiff> {
    CommonAreNamed(before, after);
    Added(table, kind, after, before) + Dropped(table, kind, before, after) +
    (if kind == Field then Modified(table, kind, before, after, CommonNames(before, after)) else [])
  }

  function NewTable(t: TableDefinition): seq<SchemaDiff> {
    [AddTable(t)] + Added(t.name, Field, t.fields, []) + Added(t.name, Index, t.indexes, [])
      + Added(t.name, Event, t.events, [])
  }

  ghost function TableDiffs(before: TableDefinition, after: TableDefinition): seq<SchemaDiff> {
    PartDiffs(after.name, Field, before.fields, after.fields) +
    PartDiffs(after.name, Index, before.indexes, after.indexes) +
    PartDiffs(after.name, Event, before.events, after.events)
  }

  function NewTables(ts: seq<TableDefinition>, others: seq<TableDefinition>): seq<SchemaDiff> {
    if ts == [] then []
    else
      NewTables(ts[..|ts| - 1], others)
      + (if TableNamed(others, ts[|ts| - 1].name).Some? then [] else NewTable(ts[|ts| - 1]))
  }

  function GoneTables(ts: seq<TableDefinition>, others: seq<TableDefinition>): seq<SchemaDiff> {
    if ts == [] then []
    else
      GoneTables(ts[..|ts| - 1], others)
      + (if TableNamed(others, ts[|ts| - 1].name).Some? then [] else [DropTable(ts[|ts| - 1])])
  }

  ghost function CommonTables(code: seq<TableDefinition>, db: seq<TableDefinition>): seq<string> {
    SortedList(set t | t in db && TableNamed(code, t.name).Some? :: t.name)
  }

  ghost function ChangedTables(code: seq<TableDefinition>, db: seq<TableDefinition>,
                               names: seq<string>): seq<SchemaDiff>
    requires forall n :: n in names ==> TableNamed(code, n).Some? && TableNamed(db, n).Some?
  {
    if names == [] then []
    else
      var n := names[|names| - 1];
      ChangedTables(code, db, names[..|names| - 1]) + TableDiffs(TableNamed(db, n).value, TableNamed(code, n).value)
  }

  lemma CommonTablesAreNamed(code: seq<TableDefinition>, db: seq<TableDefinition>)
    ensures Sorted(CommonTables(code, db))
    ensures forall n :: n in CommonTables(code, db) <==> TableNamed(code, n).Some? && TableNamed(db, n).Some?
  {
    forall n ensures n in CommonTables(code, db) <==> TableNamed(code, n).Some? && TableNamed(db, n).Some? {
      if TableNamed(code, n).Some? && TableNamed(db, n).Some? { assert TableNamed(db, n).value in db; }
    }
  }

  /** Everything that takes the tables of the database to those of the code. */
  ghost function SchemaDiffs(code: seq<TableDefinition>, db: seq<TableDefinition>): seq<SchemaDiff> {
    CommonTablesAreNamed(code, db);
    NewTables(code, db) + GoneTables(db, code) + ChangedTables(code, db, CommonTables(code, db))
  }

  // ---------- the scripts of a migration made from differences ----------

  function Up(ds: seq<SchemaDiff>): seq<Statement> {
    if ds == [] then [] else Up(ds[..|ds| - 1]) + ds[|ds| - 1].forward
  }

  /** Last difference first. */
  function Down(ds: seq<SchemaDiff>): seq<Statement> {
    if ds == [] then [] else ds[|ds| - 1].backward + Down(ds[..|ds| - 1])
  }

  lemma {:induction false} UpConcat(a: seq<SchemaDiff>, b: seq<SchemaDiff>)
    ensures Up(a + b) == Up(a) + Up(b)
  {
    if b == [] {
      assert a + b == a;
    } else {
      assert (a + b)[..|a + b| - 1] == a + b[..|b| - 1];
      UpConcat(a, b[..|b| - 1]);
    }
  }

  lemma {:induction false} DownConcat(a: seq<SchemaDiff>, b: seq<SchemaDiff>)
    ensures Down(a + b) == Down(b) + Down(a)
  {
    if b == [] {
      assert a + b == a;
    } else {
      assert (a + b)[..|a + b| - 1] == a + b[..|b| - 1];
      DownConcat(a, b[..|b| - 1]);
    }
  }
}
