/** `StructureMgr`: the list of table structures of one database and the step that
    enriches them with the reference map. */
module StructureMgr {
  import opened Wrappers
  import Schema

  /** `tables` is `null` until the structures have been read. */
  datatype Manager = Manager(database: string, tables: Option<seq<Schema.Structure>>)

  /** `getStructure`. */
  function GetStructure(m: Manager): Option<seq<Schema.Structure>> {
    m.tables
  }

  /** The structure a table has after the reference map is applied to it. */
  function Refer(t: Schema.Structure, refs: map<string, Schema.Reference>): Schema.Structure {
    if t.name in refs then Schema.AddReference(t, refs[t.name]) else t
  }

  /** The `forEach` over the tables, one table at a time. */
  function ReferAll(tables: seq<Schema.Structure>, refs: map<string, Schema.Reference>): (r: seq<Schema.Structure>)
    ensures |r| == |tables|
    ensures forall i | 0 <= i < |tables| :: r[i] == Refer(tables[i], refs)
  {
    if |tables| == 0 then [] else [Refer(tables[0], refs)] + ReferAll(tables[1..], refs)
  }

  /** `StructureMgr.prototype.addReference`: a no-op while no tables are loaded or
      without a reference map; otherwise every table with an entry gets
      `Structure.addReference` of it, every other table stays as it is, and the
      tables keep their number and order. */
  function AddReference(m: Manager, refs: Option<map<string, Schema.Reference>>): (r: Manager)
    ensures m.tables.None? || refs.None? ==> r == m
    ensures r.database == m.database && r.tables.Some? == m.tables.Some?
    ensures m.tables.Some? ==> |r.tables.value| == |m.tables.value|
    ensures m.tables.Some? && refs.Some? ==>
      forall i | 0 <= i < |m.tables.value| ::
        var t := m.tables.value[i];
        && (t.name in refs.value ==> r.tables.value[i] == Schema.AddReference(t, refs.value[t.name]))
        && (t.name !in refs.value ==> r.tables.value[i] == t)
  {
    if m.tables.None? || refs.None? then m
    else m.(tables := Some(ReferAll(m.tables.value, refs.value)))
  }

  /** What `getStructure` returns after the references are applied: the same tables,
      by name, in the same order, with the same fields and keys. */
  lemma AddReferenceKeepsTables(m: Manager, refs: Option<map<string, Schema.Reference>>)
    ensures var before, after := GetStructure(m), GetStructure(AddReference(m, refs));
      && after.Some? == before.Some?
      && (before.Some? ==>
            && |after.value| == |before.value|
            && forall i | 0 <= i < |before.value| ::
                 && after.value[i].name == before.value[i].name
                 && after.value[i].primary == before.value[i].primary
                 && after.value[i].fields == before.value[i].fields)
  {
  }
}
