/** What the scripts of a schema difference do, and exactly when they do what they are for. */
module DiffMeaning {
  import opened Wrappers
  import opened Order
  import opened Schema
  import opened Diff

  ghost predicate UniqueParts(ps: seq<Part>) {
    forall i, j :: 0 <= i < j < |ps| ==> ps[i].name != ps[j].name
  }

  ghost predicate UniqueNames(ts: seq<TableDefinition>) {
    && (forall i, j :: 0 <= i < j < |ts| ==> ts[i].name != ts[j].name)
    && forall t :: t in ts ==> UniqueParts(t.fields) && UniqueParts(t.indexes) && UniqueParts(t.events)
  }

  /** What the tables say about an object. */
  function Declared(ts: seq<TableDefinition>, o: Object): Option<Body> {
    match o
    case Table(t) => (match TableNamed(ts, t) case None => None case Some(d) => Some(Mode(d)))
    case Child(t, kind, n) => (
      match TableNamed(ts, t)
      case None => None
      case Some(d) => match Named(Parts(d, kind), n) case None => None case Some(p) => Some(p.body))
    case Unrecognised(_) => None
  }

  /** The schema holds what the tables declare and nothing else. */
  ghost predicate Holds(s: State, ts: seq<TableDefinition>) {
    forall o :: Get(s, o) == Declared(ts, o)
  }

  lemma AllObjects(ts: seq<TableDefinition>) returns (objects: set<Object>)
    ensures forall o :: Declared(ts, o).Some? ==> o in objects
  {
    objects := (set t | t in ts :: Table(t.name))
             + (set t, p | t in ts && p in t.fields :: Child(t.name, Field, p.name))
             + (set t, p | t in ts && p in t.indexes :: Child(t.name, Index, p.name))
             + (set t, p | t in ts && p in t.events :: Child(t.name, Event, p.name));
    forall o | Declared(ts, o).Some? ensures o in objects {
      var t := TableNamed(ts, o.table).value;
      if o.Child? { var p := Named(Parts(t, o.kind), o.name).value; assert p in Parts(t, o.kind); }
      hide TableNamed, Named;
      assert t in ts && t.name == o.table;
    }
  }

  /** Every list of tables is held by some schema. */
  lemma {:induction false} SomeSchemaHolds(ts: seq<TableDefinition>) returns (s: State)
    ensures Holds(s, ts)
  {
    hide Declared;
    var objects := AllObjects(ts);
    s := map o | o in objects && Declared(ts, o).Some? :: Declared(ts, o).value;
    forall o ensures Get(s, o) == Declared(ts, o) {}
  }

  lemma {:induction false} NamedUnique(ps: seq<Part>, p: Part)
    requires UniqueParts(ps) && p in ps
    ensures Named(ps, p.name) == Some(p)
  {
    if ps[|ps| - 1] != p {
      assert p in ps[..|ps| - 1];
      var i :| 0 <= i < |ps| - 1 && ps[i] == p;
      NamedUnique(ps[..|ps| - 1], p);
    }
  }

  lemma {:induction false} TableNamedUnique(ts: seq<TableDefinition>, t: TableDefinition)
    requires UniqueNames(ts) && t in ts
    ensures TableNamed(ts, t.name) == Some(t)
  {
    if ts[|ts| - 1] != t {
      assert t in ts[..|ts| - 1];
      var i :| 0 <= i < |ts| - 1 && ts[i] == t;
      TableNamedUnique(ts[..|ts| - 1], t);
    }
  }

  // ---------- which statements a script has ----------

  lemma {:induction false} UpSays(ds: seq<SchemaDiff>, st: Statement)
    ensures st in Up(ds) <==> exists d :: d in ds && st in d.forward
  {
    if ds != [] {
      UpSays(ds[..|ds| - 1], st);
      assert ds == ds[..|ds| - 1] + [ds[|ds| - 1]];
    }
  }

  lemma {:induction false} DownSays(ds: seq<SchemaDiff>, st: Statement)
    ensures st in Down(ds) <==> exists d :: d in ds && st in d.backward
  {
    if ds != [] {
      DownSays(ds[..|ds| - 1], st);
      assert ds == ds[..|ds| - 1] + [ds[|ds| - 1]];
    }
  }

  // ---------- what a list of differences does to one object ----------

  /** What is left of an object; `None` when it is not touched at all. */
  type Aim = Option<Option<Body>>

  /** Every statement about `o` leaves the same of it, going up and going down. */
  ghost predicate Aims(ds: seq<SchemaDiff>, o: Object, up: Aim, down: Aim) {
    && (forall d, st :: d in ds && st in d.forward && Touches(st, o) ==> up == Some(Effect(st)))
    && (forall d, st :: d in ds && st in d.backward && Touches(st, o) ==> down == Some(Effect(st)))
    && (up.Some? ==> exists d, st :: d in ds && st in d.forward && Touches(st, o))
    && (down.Some? ==> exists d, st :: d in ds && st in d.backward && Touches(st, o))
  }

  function Leaves(aim: Aim, before: Option<Body>): Option<Body> {
    if aim.Some? then aim.value else before
  }

  lemma RunByAim(script: seq<Statement>, s: State, o: Object, aim: Aim)
    requires forall st :: st in script && Touches(st, o) ==> aim == Some(Effect(st))
    requires aim.Some? ==> exists st :: st in script && Touches(st, o)
    ensures Get(Run(script, s), o) == Leaves(aim, Get(s, o))
  {
    if aim.Some? {
      var st :| st in script && Touches(st, o);
      var i :| 0 <= i < |script| && script[i] == st;
      var l := LastToucher(script, o, i);
      LastDecides(script, s, o, l);
    } else {
      NoneNoChange(script, s, o);
    }
  }

  lemma LastToucher(script: seq<Statement>, o: Object, i: nat) returns (l: nat)
    requires i < |script| && Touches(script[i], o)
    ensures l < |script| && Touches(script[l], o) && forall j :: l < j < |script| ==> !Touches(script[j], o)
    decreases |script| - i
  {
    if j :| i < j < |script| && Touches(script[j], o) { l := LastToucher(script, o, j); } else { l := i; }
  }

  lemma AimDecides(ds: seq<SchemaDiff>, o: Object, up: Aim, down: Aim, s: State)
    requires Aims(ds, o, up, down)
    ensures Get(Run(Up(ds), s), o) == Leaves(up, Get(s, o))
    ensures Get(Run(Down(ds), s), o) == Leaves(down, Get(s, o))
  {
    forall st ensures st in Up(ds) <==> exists d :: d in ds && st in d.forward { UpSays(ds, st); }
    forall st ensures st in Down(ds) <==> exists d :: d in ds && st in d.backward { DownSays(ds, st); }
    RunByAim(Up(ds), s, o, up);
    RunByAim(Down(ds), s, o, down);
  }

  function Either(a: Aim, b: Aim): Aim {
    if a.Some? then a else b
  }

  predicate Compatible(a: Aim, b: Aim) {
    a.None? || b.None? || a == b
  }

  lemma AimsConcat(a: seq<SchemaDiff>, b: seq<SchemaDiff>, o: Object, ua: Aim, da: Aim, ub: Aim, db: Aim)
    requires Aims(a, o, ua, da) && Aims(b, o, ub, db) && Compatible(ua, ub) && Compatible(da, db)
    ensures Aims(a + b, o, Either(ua, ub), Either(da, db))
  {
  }

  predicate IsPart(o: Object, table: string, kind: ChildKind) {
    o.Child? && o.table == table && o.kind == kind
  }

  function When(hit: bool, left: Option<Body>): Aim {
    if hit then Some(left) else None
  }

  /** A difference is a member of its singleton list, and its first statements are among its statements. */
  lemma FirstOnes(d: SchemaDiff, o: Object)
    requires d.forward != [] && d.backward != []
    ensures d in [d]
    ensures Touches(d.forward[0], o) ==> exists e, st :: e in [d] && st in e.forward && Touches(st, o)
    ensures Touches(d.backward[0], o) ==> exists e, st :: e in [d] && st in e.backward && Touches(st, o)
  {
    var up, down := d.forward[0], d.backward[0];
    assert d in [d] && up in d.forward && down in d.backward;
  }

  lemma AddPartAims(table: string, kind: ChildKind, p: Part, o: Object)
    ensures
      var own := o == Child(table, kind, p.name);
      Aims([AddPart(table, kind, p)], o, When(own, Some(p.body)), When(own, None))
  {
    var d := AddPart(table, kind, p);
    FirstOnes(d, o);
  }

  lemma DropPartAims(table: string, kind: ChildKind, p: Part, o: Object)
    ensures
      var own := o == Child(table, kind, p.name);
      Aims([DropPart(table, kind, p)], o, When(own, None), When(own, Some(p.body)))
  {
    var d := DropPart(table, kind, p);
    FirstOnes(d, o);
  }

  lemma ModifyPartAims(table: string, kind: ChildKind, p: Part, q: Part, o: Object)
    ensures
      var own := o == Child(table, kind, q.name);
      Aims([ModifyPart(table, kind, p, q)], o, When(own, Some(q.body)), When(own, Some(p.body)))
  {
    var d := ModifyPart(table, kind, p, q);
    FirstOnes(d, o);
  }

  /** `o` is one of `ps` and not named in `others`. */
  predicate Only(o: Object, table: string, kind: ChildKind, ps: seq<Part>, others: seq<Part>) {
    IsPart(o, table, kind) && Named(ps, o.name).Some? && Named(others, o.name).None?
  }

  function BodyIn(ps: seq<Part>, o: Object): Option<Body> {
    if o.Child? && Named(ps, o.name).Some? then Some(Named(ps, o.name).value.body) else None
  }

  lemma {:induction false} AddedAims(table: string, kind: ChildKind, ps: seq<Part>, others: seq<Part>, o: Object)
    requires UniqueParts(ps)
    ensures
      var hit := Only(o, table, kind, ps, others);
      Aims(Added(table, kind, ps, others), o, When(hit, BodyIn(ps, o)), When(hit, None))
  {
    if ps != [] {
      var init, p := ps[..|ps| - 1], ps[|ps| - 1];
      AddedAims(table, kind, init, others, o);
      if Named(others, p.name).None? {
        var hit, own := Only(o, table, kind, init, others), o == Child(table, kind, p.name);
        AddPartAims(table, kind, p, o);
        hide Aims;
        AimsConcat(Added(table, kind, init, others), [AddPart(table, kind, p)], o,
                   When(hit, BodyIn(init, o)), When(hit, None), When(own, Some(p.body)), When(own, None));
      }
    }
  }

  lemma {:induction false} DroppedAims(table: string, kind: ChildKind, ps: seq<Part>, others: seq<Part>, o: Object)
    requires UniqueParts(ps)
    ensures
      var hit := Only(o, table, kind, ps, others);
      Aims(Dropped(table, kind, ps, others), o, When(hit, None), When(hit, BodyIn(ps, o)))
  {
    if ps != [] {
      var init, p := ps[..|ps| - 1], ps[|ps| - 1];
      DroppedAims(table, kind, init, others, o);
      if Named(others, p.name).None? {
        var hit, own := Only(o, table, kind, init, others), o == Child(table, kind, p.name);
        DropPartAims(table, kind, p, o);
        hide Aims;
        AimsConcat(Dropped(table, kind, init, others), [DropPart(table, kind, p)], o,
                   When(hit, None), When(hit, BodyIn(init, o)), When(own, None), When(own, Some(p.body)));
      }
    }
  }

  predicate Differs(o: Object, table: string, kind: ChildKind, before: seq<Part>, after: seq<Part>,
                    names: seq<string>) {
    IsPart(o, table, kind) && o.name in names && BodyIn(before, o) != BodyIn(after, o)
  }

  lemma {:induction false} ModifiedAims(table: string, kind: ChildKind, before: seq<Part>, after: seq<Part>,
                                        names: seq<string>, o: Object)
    requires forall n :: n in names ==> Named(before, n).Some? && Named(after, n).Some?
    requires forall i, j :: 0 <= i < j < |names| ==> names[i] != names[j]
    ensures
      var hit := Differs(o, table, kind, before, after, names);
      Aims(Modified(table, kind, before, after, names), o, When(hit, BodyIn(after, o)), When(hit, BodyIn(before, o)))
  {
    if names != [] {
      var init, n := names[..|names| - 1], names[|names| - 1];
      assert names == init + [n];
      ModifiedAims(table, kind, before, after, init, o);
      var p, q := Named(before, n).value, Named(after, n).value;
      var hit, own := Differs(o, table, kind, before, after, init), o == Child(table, kind, n);
      ModifyPartAims(table, kind, p, q, o);
      var rest := Modified(table, kind, before, after, init);
      assert Modified(table, kind, before, after, names)
        == rest + if p.body == q.body then [] else [ModifyPart(table, kind, p, q)];
      hide Aims, Modified, ModifyPart, Named, UniqueParts;
      if p.body != q.body {
        AimsConcat(rest, [ModifyPart(table, kind, p, q)], o, When(hit, BodyIn(after, o)),
                   When(hit, BodyIn(before, o)), When(own, Some(q.body)), When(own, Some(p.body)));
      }
    }
  }

  /** What is done to a part on the way from one list of parts to another. */
  function PartAim(kind: ChildKind, before: Option<Body>, after: Option<Body>): Aim {
    if before.Some? && after.Some? then When(kind == Field && before != after, after)
    else When(before.Some? || after.Some?, after)
  }

  lemma AddedAndDroppedAims(table: string, kind: ChildKind, before: seq<Part>, after: seq<Part>, o: Object)
    requires UniqueParts(before) && UniqueParts(after)
    ensures
      var b, a := BodyIn(before, o), BodyIn(after, o);
      var ha, hd := Only(o, table, kind, after, before), Only(o, table, kind, before, after);
      Aims(Added(table, kind, after, before)
        + Dropped(table, kind, before, after), o, Either(When(ha, a), When(hd, None)),
        Either(When(ha, None), When(hd, b)))
  {
    hide Aims, UniqueParts, Added, Dropped;
    var b, a := BodyIn(before, o), BodyIn(after, o);
    var ha, hd := Only(o, table, kind, after, before), Only(o, table, kind, before, after);
    AddedAims(table, kind, after, before, o);
    DroppedAims(table, kind, before, after, o);
    AimsConcat(Added(table, kind, after, before), Dropped(table, kind, before, after), o, When(ha, a), When(ha, None),
      When(hd, None), When(hd, b));
  }

  lemma FieldDiffsAims(table: string, before: seq<Part>, after: seq<Part>, o: Object)
    requires UniqueParts(before) && UniqueParts(after)
    ensures
      var b, a := BodyIn(before, o), BodyIn(after, o);
      Aims(PartDiffs(table, Field, before, after), o,
           if IsPart(o, table, Field) then PartAim(Field, b, a)
             else None, if IsPart(o, table, Field) then PartAim(Field, a, b) else None)
  {
    var b, a, names := BodyIn(before, o), BodyIn(after, o), CommonNames(before, after);
    CommonAreNamed(before, after);
    forall i, j | 0 <= i < j < |names| ensures names[i] != names[j] { LessIsTotal(names[i], names[j]); }
    assert PartDiffs(table, Field, before, after)
      == Added(table, Field, after, before) + Dropped(table, Field, before, after)
      + Modified(table, Field, before, after, names);
    hide Aims, UniqueParts, Added, Dropped, Modified, PartDiffs, Sorted, CommonNames;
    AddedAndDroppedAims(table, Field, before, after, o);
    ModifiedAims(table, Field, before, after, names, o);
    var ha, hd, hm := Only(o, table, Field, after, before), Only(o, table, Field, before, after),
      Differs(o, table, Field, before, after, names);
    AimsConcat(Added(table, Field, after, before)
      + Dropped(table, Field, before, after), Modified(table, Field, before, after, names), o,
               Either(When(ha, a), When(hd, None)), Either(When(ha, None), When(hd, b)), When(hm, a), When(hm, b));
  }

  lemma PartDiffsAims(table: string, kind: ChildKind, before: seq<Part>, after: seq<Part>, o: Object)
    requires UniqueParts(before) && UniqueParts(after)
    ensures
      var b, a := BodyIn(before, o), BodyIn(after, o);
      Aims(PartDiffs(table, kind, before, after), o,
           if IsPart(o, table, kind) then PartAim(kind, b, a)
             else None, if IsPart(o, table, kind) then PartAim(kind, a, b) else None)
  {
    if kind == Field {
      FieldDiffsAims(table, before, after, o);
    } else {
      AddedAndDroppedAims(table, kind, before, after, o);
      assert PartDiffs(table, kind, before, after)
        == Added(table, kind, after, before) + Dropped(table, kind, before, after);
      hide Aims, PartDiffs, Added, Dropped, UniqueParts;
    }
  }

  // ---------- whole tables ----------

  predicate Owned(o: Object, table: string) {
    !o.Unrecognised? && o.table == table
  }

  function DeclaredBy(t: TableDefinition, o: Object): Option<Body> {
    match o
    case Table(n) => if n == t.name then Some(Mode(t)) else None
    case Child(n, kind, _) => if n == t.name then BodyIn(Parts(t, kind), o) else None
    case Unrecognised(_) => None
  }

  lemma AddTableAims(t: TableDefinition, o: Object)
    ensures Aims([AddTable(t)], o, When(o == Table(t.name), Some(Mode(t))), When(Owned(o, t.name), None))
  {
    FirstOnes(AddTable(t), o);
  }

  lemma DropTableAims(t: TableDefinition, o: Object)
    ensures Aims([DropTable(t)], o, When(Owned(o, t.name), None), When(o == Table(t.name), Some(Mode(t))))
  {
    FirstOnes(DropTable(t), o);
  }

  lemma NewPartsAims(table: string, kind: ChildKind, ps: seq<Part>, o: Object)
    requires UniqueParts(ps)
    ensures
      var body := if IsPart(o, table, kind) then BodyIn(ps, o) else None;
      Aims(Added(table, kind, ps, []), o, When(body.Some?, body), When(body.Some?, None))
  {
    hide Aims, UniqueParts, Added;
    AddedAims(table, kind, ps, [], o);
  }

  lemma NewTableAims(t: TableDefinition, o: Object)
    requires UniqueParts(t.fields) && UniqueParts(t.indexes) && UniqueParts(t.events)
    ensures Aims(NewTable(t), o, When(DeclaredBy(t, o).Some?, DeclaredBy(t, o)), When(Owned(o, t.name), None))
  {
    hide Aims, UniqueParts, Added, AddTable, BodyIn;
    AddTableAims(t, o);
    NewPartsAims(t.name, Field, t.fields, o);
    NewPartsAims(t.name, Index, t.indexes, o);
    NewPartsAims(t.name, Event, t.events, o);
    var a, f, i, e := [AddTable(t)], Added(t.name, Field, t.fields, []), Added(t.name, Index, t.indexes, []),
      Added(t.name, Event, t.events, []);
    var ua, da := When(o == Table(t.name), Some(Mode(t))), When(Owned(o, t.name), None);
    var bf := if IsPart(o, t.name, Field) then BodyIn(t.fields, o) else None;
    var bi := if IsPart(o, t.name, Index) then BodyIn(t.indexes, o) else None;
    var be := if IsPart(o, t.name, Event) then BodyIn(t.events, o) else None;
    AimsConcat(a, f, o, ua, da, When(bf.Some?, bf), When(bf.Some?, None));
    AimsConcat(a + f, i, o, Either(ua, When(bf.Some?, bf)), da, When(bi.Some?, bi), When(bi.Some?, None));
    AimsConcat(a + f + i, e, o, Either(Either(ua, When(bf.Some?, bf)), When(bi.Some?, bi)), da, When(be.Some?, be),
      When(be.Some?, None));
  }

  function TableAim(before: TableDefinition, after: TableDefinition, o: Object): Aim {
    if o.Child? && o.table == after.name
      then PartAim(o.kind, BodyIn(Parts(before, o.kind), o), BodyIn(Parts(after, o.kind), o)) else None
  }

  lemma TableDiffsAims(before: TableDefinition, after: TableDefinition, o: Object)
    requires UniqueParts(before.fields) && UniqueParts(before.indexes) && UniqueParts(before.events)
    requires UniqueParts(after.fields) && UniqueParts(after.indexes) && UniqueParts(after.events)
      && before.name == after.name
    ensures Aims(TableDiffs(before, after), o, TableAim(before, after, o), TableAim(after, before, o))
  {
    var t := after.name;
    PartDiffsAims(t, Field, before.fields, after.fields, o);
    PartDiffsAims(t, Index, before.indexes, after.indexes, o);
    PartDiffsAims(t, Event, before.events, after.events, o);
    hide Aims, PartDiffs, PartAim;
    var f, i, e := PartDiffs(t, Field, before.fields, after.fields), PartDiffs(t, Index, before.indexes, after.indexes),
      PartDiffs(t, Event, before.events, after.events);
    var uf := if IsPart(o, t, Field) then PartAim(Field, BodyIn(before.fields, o), BodyIn(after.fields, o)) else None;
    var df := if IsPart(o, t, Field) then PartAim(Field, BodyIn(after.fields, o), BodyIn(before.fields, o)) else None;
    var ui := if IsPart(o, t, Index) then PartAim(Index, BodyIn(before.indexes, o), BodyIn(after.indexes, o)) else None;
    var di := if IsPart(o, t, Index) then PartAim(Index, BodyIn(after.indexes, o), BodyIn(before.indexes, o)) else None;
    var ue := if IsPart(o, t, Event) then PartAim(Event, BodyIn(before.events, o), BodyIn(after.events, o)) else None;
    var de := if IsPart(o, t, Event) then PartAim(Event, BodyIn(after.events, o), BodyIn(before.events, o)) else None;
    AimsConcat(f, i, o, uf, df, ui, di);
    AimsConcat(f + i, e, o, Either(uf, ui), Either(df, di), ue, de);
  }

  // ---------- whole schemas ----------

  function DeclaredOnly(o: Object, ts: seq<TableDefinition>, others: seq<TableDefinition>): Option<TableDefinition> {
    if o.Unrecognised? || TableNamed(others, o.table).Some? then None else TableNamed(ts, o.table)
  }

  lemma {:induction false} NewTablesAims(ts: seq<TableDefinition>, others: seq<TableDefinition>, o: Object)
    requires UniqueNames(ts)
    ensures
      var t := DeclaredOnly(o, ts, others);
      Aims(NewTables(ts, others), o,
        When(t.Some? && DeclaredBy(t.value, o).Some?, if t.Some? then DeclaredBy(t.value, o) else None),
        When(t.Some?, None))
  {
    if ts != [] {
      var init, d := ts[..|ts| - 1], ts[|ts| - 1];
      NewTablesAims(init, others, o);
      if TableNamed(others, d.name).None? {
        NewTableAims(d, o);
        hide Aims, NewTable, DeclaredBy;
        OwnDeclared(d, o);
        var t := DeclaredOnly(o, init, others);
        AimsConcat(NewTables(init, others), NewTable(d), o,
                   When(t.Some? && DeclaredBy(t.value, o).Some?, if t.Some? then DeclaredBy(t.value, o) else None),
                     When(t.Some?, None),
                   When(DeclaredBy(d, o).Some?, DeclaredBy(d, o)), When(Owned(o, d.name), None));
      }
    }
  }

  lemma OwnDeclared(t: TableDefinition, o: Object)
    ensures DeclaredBy(t, o).Some? ==> Owned(o, t.name)
  {
  }

  lemma {:induction false} GoneTablesAims(ts: seq<TableDefinition>, others: seq<TableDefinition>, o: Object)
    requires UniqueNames(ts)
    ensures
      var t := DeclaredOnly(o, ts, others);
      Aims(GoneTables(ts, others), o, When(t.Some?, None),
        When(t.Some? && o.Table?, if t.Some? then Some(Mode(t.value)) else None))
  {
    if ts != [] {
      var init, d := ts[..|ts| - 1], ts[|ts| - 1];
      GoneTablesAims(init, others, o);
      if TableNamed(others, d.name).None? {
        DropTableAims(d, o);
        hide Aims;
        var t := DeclaredOnly(o, init, others);
        AimsConcat(GoneTables(init, others), [DropTable(d)], o,
                   When(t.Some?, None), When(t.Some? && o.Table?, if t.Some? then Some(Mode(t.value)) else None),
                   When(Owned(o, d.name), None), When(o == Table(d.name), Some(Mode(d))));
      }
    }
  }

  function ChangedAim(code: seq<TableDefinition>, db: seq<TableDefinition>, names: seq<string>, o: Object,
                      up: bool): Aim {
    if o.Child? && o.table in names && TableNamed(code, o.table).Some? && TableNamed(db, o.table).Some? then
      var c, d := TableNamed(code, o.table).value, TableNamed(db, o.table).value;
      if up then TableAim(d, c, o) else TableAim(c, d, o)
    else None
  }

  lemma {:induction false} ChangedTablesAims(code: seq<TableDefinition>, db: seq<TableDefinition>, names: seq<string>,
                                             o: Object)
    requires UniqueNames(code) && UniqueNames(db)
    requires forall n :: n in names ==> TableNamed(code, n).Some? && TableNamed(db, n).Some?
    requires forall i, j :: 0 <= i < j < |names| ==> names[i] != names[j]
    ensures Aims(ChangedTables(code, db, names), o, ChangedAim(code, db, names, o, true),
      ChangedAim(code, db, names, o, false))
  {
    if names != [] {
      ChangedTablesAims(code, db, names[..|names| - 1], o);
      ChangedTableAims(code, db, names, o);
    }
  }

  lemma TableIsUnique(ts: seq<TableDefinition>, n: string)
    requires UniqueNames(ts) && TableNamed(ts, n).Some?
    ensures
      var t := TableNamed(ts, n).value;
      t.name == n && UniqueParts(t.fields) && UniqueParts(t.indexes) && UniqueParts(t.events)
  {
    hide TableNamed, UniqueParts;
  }

  /** One more name aims at the parts of its own table. */
  lemma ChangedAimMore(code: seq<TableDefinition>, db: seq<TableDefinition>, init: seq<string>, n: string, o: Object,
                       up: bool)
    requires n !in init && TableNamed(code, n).Some? && TableNamed(db, n).Some?
    ensures
      var c, d := TableNamed(code, n).value, TableNamed(db, n).value;
      var a, b := ChangedAim(code, db, init, o, up), if up then TableAim(d, c, o) else TableAim(c, d, o);
      Compatible(a, b) && ChangedAim(code, db, init + [n], o, up) == Either(a, b)
  {
    hide PartAim, TableNamed;
  }

  lemma ChangedTablesMore(code: seq<TableDefinition>, db: seq<TableDefinition>, init: seq<string>, n: string)
    requires forall m :: m in init + [n] ==> TableNamed(code, m).Some? && TableNamed(db, m).Some?
    ensures TableNamed(code, n).Some? && TableNamed(db, n).Some?
      && forall m :: m in init ==> TableNamed(code, m).Some? && TableNamed(db, m).Some?
    ensures ChangedTables(code, db, init + [n])
      == ChangedTables(code, db, init) + TableDiffs(TableNamed(db, n).value, TableNamed(code, n).value)
  {
    assert n in init + [n] && (init + [n])[..|init|] == init;
    hide TableNamed, TableDiffs;
  }

  lemma ChangedTableAims(code: seq<TableDefinition>, db: seq<TableDefinition>, names: seq<string>, o: Object)
    requires UniqueNames(code) && UniqueNames(db) && names != []
    requires forall n :: n in names ==> TableNamed(code, n).Some? && TableNamed(db, n).Some?
    requires forall i, j :: 0 <= i < j < |names| ==> names[i] != names[j]
    requires
      var init := names[..|names| - 1];
      Aims(ChangedTables(code, db, init), o, ChangedAim(code, db, init, o, true), ChangedAim(code, db, init, o, false))
    ensures Aims(ChangedTables(code, db, names), o, ChangedAim(code, db, names, o, true),
      ChangedAim(code, db, names, o, false))
  {
    hide *;
    var init, n := names[..|names| - 1], names[|names| - 1];
    assert names == init + [n] && n !in init;
    ChangedTablesMore(code, db, init, n);
    var c, d := TableNamed(code, n).value, TableNamed(db, n).value;
    TableIsUnique(code, n);
    TableIsUnique(db, n);
    TableDiffsAims(d, c, o);
    ChangedAimMore(code, db, init, n, o, true);
    ChangedAimMore(code, db, init, n, o, false);
    AimsConcat(ChangedTables(code, db, init), TableDiffs(d, c), o, ChangedAim(code, db, init, o, true),
      ChangedAim(code, db, init, o, false),
               TableAim(d, c, o), TableAim(c, d, o));
  }

  /** What going up does to an object. */
  function UpAim(code: seq<TableDefinition>, db: seq<TableDefinition>, o: Object): Aim {
    if o.Unrecognised? then None
    else
      match (TableNamed(code, o.table), TableNamed(db, o.table))
      case (Some(c), None) => When(DeclaredBy(c, o).Some?, DeclaredBy(c, o))
      case (None, Some(d)) => Some(None)
      case (Some(c), Some(d)) => TableAim(d, c, o)
      case (None, None) => None
  }

  function DownAim(code: seq<TableDefinition>, db: seq<TableDefinition>, o: Object): Aim {
    if o.Unrecognised? then None
    else
      match (TableNamed(code, o.table), TableNamed(db, o.table))
      case (Some(c), None) => Some(None)
      case (None, Some(d)) => When(o.Table?, Some(Mode(d)))
      case (Some(c), Some(d)) => TableAim(c, d, o)
      case (None, None) => None
  }

  lemma SchemaDiffsAims(code: seq<TableDefinition>, db: seq<TableDefinition>, o: Object)
    requires UniqueNames(code) && UniqueNames(db)
    ensures Aims(SchemaDiffs(code, db), o, UpAim(code, db, o), DownAim(code, db, o))
  {
    CommonTablesAreNamed(code, db);
    var names := CommonTables(code, db);
    forall i, j | 0 <= i < j < |names| ensures names[i] != names[j] { LessIsTotal(names[i], names[j]); }
    NewTablesAims(code, db, o);
    GoneTablesAims(db, code, o);
    ChangedTablesAims(code, db, names, o);
    hide Aims, NewTables, GoneTables, ChangedTables, PartAim, DeclaredBy;
    var c, d := DeclaredOnly(o, code, db), DeclaredOnly(o, db, code);
    var uc, dc := When(c.Some? && DeclaredBy(c.value, o).Some?, if c.Some? then DeclaredBy(c.value, o) else None),
      When(c.Some?, None);
    var ud, dd := When(d.Some?, None), When(d.Some? && o.Table?, if d.Some? then Some(Mode(d.value)) else None);
    AimsConcat(NewTables(code, db), GoneTables(db, code), o, uc, dc, ud, dd);
    AimsConcat(NewTables(code, db)
      + GoneTables(db, code), ChangedTables(code, db, names), o, Either(uc, ud), Either(dc, dd),
               ChangedAim(code, db, names, o, true), ChangedAim(code, db, names, o, false));
  }

  // ---------- the theorems ----------

  /**
   A table on both sides differs in nothing that going up does not change: mode, or an index or event of the same name.
   */
  predicate SameDetails(c: TableDefinition, d: TableDefinition) {
    && Mode(c) == Mode(d)
    && (forall p :: p in c.indexes && Named(d.indexes, p.name).Some? ==> Named(d.indexes, p.name).value.body == p.body)
    && (forall p :: p in c.events && Named(d.events, p.name).Some? ==> Named(d.events, p.name).value.body == p.body)
  }

  predicate Diffable(code: seq<TableDefinition>, db: seq<TableDefinition>) {
    forall c :: c in code && TableNamed(db, c.name).Some? ==> SameDetails(c, TableNamed(db, c.name).value)
  }

  ghost predicate ReachesAt(code: seq<TableDefinition>, db: seq<TableDefinition>, o: Object) {
    Leaves(UpAim(code, db, o), Declared(db, o)) == Declared(code, o)
  }

  lemma DeclaredInOwn(ts: seq<TableDefinition>, o: Object)
    ensures Declared(ts, o) == if o.Unrecognised? || TableNamed(ts, o.table).None?
      then None else DeclaredBy(TableNamed(ts, o.table).value, o)
  {
  }

  /** Where `o` is the table or one of its indexes and events, both sides agree on it. */
  predicate AgreeOn(c: TableDefinition, d: TableDefinition, o: Object) {
    match o
    case Table(_) => Mode(c) == Mode(d)
    case Child(_, kind, _) =>
      var w, b := BodyIn(Parts(c, kind), o), BodyIn(Parts(d, kind), o);
      kind != Field && w.Some? && b.Some? ==> w == b
    case Unrecognised(_) => true
  }

  lemma ReachesWhereAgreed(code: seq<TableDefinition>, db: seq<TableDefinition>, c: TableDefinition, d: TableDefinition,
                           o: Object)
    requires TableNamed(code, c.name) == Some(c) && TableNamed(db, c.name) == Some(d) && Owned(o, c.name)
    ensures ReachesAt(code, db, o) <==> AgreeOn(c, d, o)
  {
    DeclaredInOwn(code, o);
    DeclaredInOwn(db, o);
  }

  lemma SameDetailsMeansAgreed(c: TableDefinition, d: TableDefinition)
    requires UniqueParts(c.indexes) && UniqueParts(c.events)
    ensures SameDetails(c, d) <==> forall o :: Owned(o, c.name) ==> AgreeOn(c, d, o)
  {
    if SameDetails(c, d) {
      forall o | Owned(o, c.name) ensures AgreeOn(c, d, o) {
        if o.Child? && Named(Parts(c, o.kind), o.name).Some? {
          assert Named(Parts(c, o.kind), o.name).value in Parts(c, o.kind);
        }
      }
    }
    if forall o :: Owned(o, c.name) ==> AgreeOn(c, d, o) {
      assert AgreeOn(c, d, Table(c.name));
      forall p | p in c.indexes && Named(d.indexes, p.name).Some?
        ensures Named(d.indexes, p.name).value.body == p.body
      {
        NamedUnique(c.indexes, p);
        assert AgreeOn(c, d, Child(c.name, Index, p.name));
      }
      forall p | p in c.events && Named(d.events, p.name).Some? ensures Named(d.events, p.name).value.body == p.body {
        NamedUnique(c.events, p);
        assert AgreeOn(c, d, Child(c.name, Event, p.name));
      }
    }
  }

  lemma ReachesIffSameDetails(code: seq<TableDefinition>, db: seq<TableDefinition>, c: TableDefinition,
                              d: TableDefinition)
    requires UniqueNames(code) && c in code && TableNamed(db, c.name) == Some(d)
    ensures SameDetails(c, d) <==> forall o :: Owned(o, c.name) ==> ReachesAt(code, db, o)
  {
    TableNamedUnique(code, c);
    SameDetailsMeansAgreed(c, d);
    hide ReachesAt, AgreeOn, SameDetails;
    forall o | Owned(o, c.name) ensures ReachesAt(code, db, o) <==> AgreeOn(c, d, o) {
      ReachesWhereAgreed(code, db, c, d, o);
    }
  }

  /**
   Going up from the database reaches the code exactly if tables on both sides agree on mode and same-named indexes and
   events.
   */
  lemma UpReachesCode(code: seq<TableDefinition>, db: seq<TableDefinition>, s: State)
    requires UniqueNames(code) && UniqueNames(db) && Holds(s, db)
    ensures Holds(Run(Up(SchemaDiffs(code, db)), s), code) <==> Diffable(code, db)
  {
    var after := Run(Up(SchemaDiffs(code, db)), s);
    forall o ensures Get(after, o) == Leaves(UpAim(code, db, o), Declared(db, o)) {
      SchemaDiffsAims(code, db, o);
      AimDecides(SchemaDiffs(code, db), o, UpAim(code, db, o), DownAim(code, db, o), s);
    }
    if Diffable(code, db) {
      forall o ensures Get(after, o) == Declared(code, o) {
        if !o.Unrecognised? && TableNamed(code, o.table).Some? && TableNamed(db, o.table).Some? {
          var c := TableNamed(code, o.table).value;
          ReachesIffSameDetails(code, db, c, TableNamed(db, c.name).value);
          assert ReachesAt(code, db, o);
        }
      }
    }
    if Holds(after, code) {
      forall c | c in code && TableNamed(db, c.name).Some? ensures SameDetails(c, TableNamed(db, c.name).value) {
        forall o | Owned(o, c.name) ensures ReachesAt(code, db, o) { assert Get(after, o) == Declared(code, o); }
        ReachesIffSameDetails(code, db, c, TableNamed(db, c.name).value);
      }
    }
  }

  predicate Childless(t: TableDefinition) {
    t.fields == [] && t.indexes == [] && t.events == []
  }

  /** Undoing restores a dropped table without its fields, indexes and events. */
  predicate DropsOnlyChildless(code: seq<TableDefinition>, db: seq<TableDefinition>) {
    forall d :: d in db && TableNamed(code, d.name).None? ==> Childless(d)
  }

  ghost predicate RestoredAt(code: seq<TableDefinition>, db: seq<TableDefinition>, o: Object) {
    Leaves(DownAim(code, db, o), Leaves(UpAim(code, db, o), Declared(db, o))) == Declared(db, o)
  }

  lemma RestoredUnlessDropped(code: seq<TableDefinition>, db: seq<TableDefinition>, o: Object)
    ensures RestoredAt(code, db, o) <==>
            !(o.Child? && TableNamed(code, o.table).None? && TableNamed(db, o.table).Some?
              && DeclaredBy(TableNamed(db, o.table).value, o).Some?)
  {
    DeclaredInOwn(db, o);
    DeclaredInOwn(code, o);
  }

  /** Going up and then down restores the database exactly if no dropped table had fields, indexes or events. */
  lemma DownUndoesUp(code: seq<TableDefinition>, db: seq<TableDefinition>, s: State)
    requires UniqueNames(code) && UniqueNames(db) && Holds(s, db)
    ensures
      var ds := SchemaDiffs(code, db);
      Run(Down(ds), Run(Up(ds), s)) == s <==> DropsOnlyChildless(code, db)
  {
    var ds := SchemaDiffs(code, db);
    var back := Run(Down(ds), Run(Up(ds), s));
    forall o ensures Get(back, o) == Get(s, o) <==> RestoredAt(code, db, o) {
      SchemaDiffsAims(code, db, o);
      AimDecides(ds, o, UpAim(code, db, o), DownAim(code, db, o), s);
      AimDecides(ds, o, UpAim(code, db, o), DownAim(code, db, o), Run(Up(ds), s));
    }
    if DropsOnlyChildless(code, db) {
      forall o ensures Get(back, o) == Get(s, o) { RestoredUnlessDropped(code, db, o); }
      SameObjects(back, s);
    }
    if back == s {
      forall d | d in db && TableNamed(code, d.name).None? ensures Childless(d) {
        TableNamedUnique(db, d);
        ChildlessIfRestored(code, db, d);
      }
    }
  }

  lemma ChildlessIfRestored(code: seq<TableDefinition>, db: seq<TableDefinition>, d: TableDefinition)
    requires TableNamed(db, d.name) == Some(d) && TableNamed(code, d.name).None?
    requires forall o :: RestoredAt(code, db, o)
    ensures Childless(d)
  {
    forall kind ensures Parts(d, kind) == [] {
      if Parts(d, kind) != [] {
        var p := Parts(d, kind)[0];
        assert p in Parts(d, kind);
        RestoredUnlessDropped(code, db, Child(d.name, kind, p.name));
      }
    }
    assert Parts(d, Field) == [] && Parts(d, Index) == [] && Parts(d, Event) == [];
  }
}
