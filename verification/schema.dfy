/** The description of one table (`Structure`): keys, field defaults, son tables and
    the cache strategy, built from `describe` columns and a reference map. */
module Schema {
  import opened Wrappers
  import opened Values

  /** The name of the only cache strategy with a model, and the default one. */
  const ListType := "list"
  const PrimaryKeyMark := "PRI"
  const AutoIncrementMark := "auto_increment"

  /** One line of `describe <table>`. */
  datatype Column = Column(field: string, default: Value, key: string, extra: string)

  /** A table's schema. `fieldOrder` is the insertion order of the keys of `fields`,
      which is the order in which JavaScript enumerates them. */
  datatype Structure = Structure(
    name: string,
    primary: Option<string>,
    autoIncrement: nat,
    foreign: Option<string>,
    sons: Option<seq<string>>,
    fieldOrder: seq<string>,
    fields: map<string, Value>,
    redisType: string)

  /** One entry of the externally supplied reference map. */
  datatype Reference = Reference(
    foreignKey: Option<string>,
    sonTables: Option<seq<string>>,
    redisType: Option<string>)

  /** `fieldOrder` lists every key of `fields` exactly once. */
  ghost predicate FieldsAgree(s: Structure) {
    && (forall i, j | 0 <= i < j < |s.fieldOrder| :: s.fieldOrder[i] != s.fieldOrder[j])
    && s.fields.Keys == set f | f in s.fieldOrder
  }

  /** A root table has no foreign field; its rows are cached under their own primary value. */
  predicate IsRoot(s: Structure) {
    !Named(s.foreign)
  }

  /** `new Structure(name)`. */
  function NewStructure(name: string): (r: Structure)
    ensures r.name == name
    ensures IsRoot(r) && r.sons.None?
    ensures r.primary.None? && r.autoIncrement == 0
    ensures FieldsAgree(r) && r.fields == map[]
    ensures r.redisType == ListType
  {
    Structure(name, None, 0, None, None, [], map[], ListType)
  }

  /** The effect of one column of `describe`. */
  function AddColumn(s: Structure, c: Column): (r: Structure)
    ensures r.name == s.name && r.foreign == s.foreign && r.sons == s.sons && r.redisType == s.redisType
    ensures r.fields == s.fields[c.field := c.default]
    ensures r.primary == (if c.key == PrimaryKeyMark then Some(c.field) else s.primary)
    ensures r.autoIncrement == (if c.extra == AutoIncrementMark then 1 else s.autoIncrement)
  {
    var withField := s.(
      fields := s.fields[c.field := c.default],
      fieldOrder := if c.field in s.fieldOrder then s.fieldOrder else s.fieldOrder + [c.field]);
    var withKey := if c.key == PrimaryKeyMark then withField.(primary := Some(c.field)) else withField;
    if c.extra == AutoIncrementMark then withKey.(autoIncrement := 1) else withKey
  }

  ghost predicate LastWithField(cols: seq<Column>, i: int)
    requires 0 <= i < |cols|
  {
    forall j | i < j < |cols| :: cols[j].field != cols[i].field
  }

  ghost predicate LastPrimary(cols: seq<Column>, i: int)
    requires 0 <= i < |cols|
  {
    cols[i].key == PrimaryKeyMark && forall j | i < j < |cols| :: cols[j].key != PrimaryKeyMark
  }

  /** The field names the columns mention. */
  function FieldSet(cols: seq<Column>): (r: set<string>)
    ensures forall i | 0 <= i < |cols| :: cols[i].field in r
  {
    if |cols| == 0 then {} else FieldSet(cols[..|cols| - 1]) + {cols[|cols| - 1].field}
  }

  /** `Structure.prototype.addColumns`, one column after the other. It leaves the
      relationship part alone; which fields it adds, which default each gets, the
      primary key and autoIncrement are stated by the lemmas below. */
  function AddColumns(s: Structure, cols: seq<Column>): (r: Structure)
    ensures r.name == s.name && r.foreign == s.foreign && r.sons == s.sons && r.redisType == s.redisType
  {
    if |cols| == 0 then s
    else AddColumn(AddColumns(s, cols[..|cols| - 1]), cols[|cols| - 1])
  }

  /** Exactly the fields the columns mention are added. */
  lemma {:induction false} AddColumnsKeys(s: Structure, cols: seq<Column>)
    ensures AddColumns(s, cols).fields.Keys == s.fields.Keys + FieldSet(cols)
  {
    if |cols| > 0 {
      AddColumnsKeys(s, cols[..|cols| - 1]);
    }
  }

  /** The field table stays well formed, and fields already present keep their position:
      new fields are only ever appended. */
  lemma {:induction false} AddColumnsKeepsOrder(s: Structure, cols: seq<Column>)
    requires FieldsAgree(s)
    ensures FieldsAgree(AddColumns(s, cols))
    ensures var r := AddColumns(s, cols);
      |s.fieldOrder| <= |r.fieldOrder| && r.fieldOrder[..|s.fieldOrder|] == s.fieldOrder
  {
    if |cols| > 0 {
      var init, c := cols[..|cols| - 1], cols[|cols| - 1];
      AddColumnsKeepsOrder(s, init);
      var mid := AddColumns(s, init);
      var r := AddColumns(s, cols);
      assert r == AddColumn(mid, c);
      if c.field in mid.fieldOrder {
        assert r.fieldOrder == mid.fieldOrder;
      } else {
        assert r.fieldOrder == mid.fieldOrder + [c.field];
        assert r.fieldOrder[..|s.fieldOrder|] == mid.fieldOrder[..|s.fieldOrder|];
      }
    }
  }

  /** Every column's field maps to the default of the last column of that name. */
  lemma {:induction false} AddColumnsDefaults(s: Structure, cols: seq<Column>)
    ensures AddColumns(s, cols).fields.Keys == s.fields.Keys + FieldSet(cols)
    ensures forall i | 0 <= i < |cols| && LastWithField(cols, i) ::
      AddColumns(s, cols).fields[cols[i].field] == cols[i].default
  {
    if |cols| > 0 {
      var init, last := cols[..|cols| - 1], cols[|cols| - 1];
      AddColumnsDefaults(s, init);
      AddColumnsKeys(s, cols);
      var mid := AddColumns(s, init);
      var r := AddColumns(s, cols);
      assert r.fields == mid.fields[last.field := last.default] by {
        assert r == AddColumn(mid, last);
      }
      forall i | 0 <= i < |cols| && LastWithField(cols, i)
        ensures r.fields[cols[i].field] == cols[i].default
      {
        if i < |init| {
          assert cols[i] == init[i];
          assert cols[i].field != last.field;
          assert LastWithField(init, i);
        }
      }
    }
  }

  /** Fields no column mentions keep their default. */
  lemma {:induction false} AddColumnsKeepsOthers(s: Structure, cols: seq<Column>)
    ensures AddColumns(s, cols).fields.Keys == s.fields.Keys + FieldSet(cols)
    ensures forall f | f in s.fields && f !in FieldSet(cols) :: AddColumns(s, cols).fields[f] == s.fields[f]
  {
    if |cols| > 0 {
      var init, last := cols[..|cols| - 1], cols[|cols| - 1];
      AddColumnsKeepsOthers(s, init);
      AddColumnsKeys(s, cols);
      var mid := AddColumns(s, init);
      assert AddColumns(s, cols).fields == mid.fields[last.field := last.default] by {
        assert AddColumns(s, cols) == AddColumn(mid, last);
      }
    }
  }

  /** The primary key is the field of the last `PRI` column. */
  lemma {:induction false} AddColumnsPrimary(s: Structure, cols: seq<Column>, i: nat)
    requires i < |cols| && LastPrimary(cols, i)
    ensures AddColumns(s, cols).primary == Some(cols[i].field)
  {
    var init, last := cols[..|cols| - 1], cols[|cols| - 1];
    assert AddColumns(s, cols).primary == AddColumn(AddColumns(s, init), last).primary;
    if i < |init| {
      assert last.key != PrimaryKeyMark;
      assert LastPrimary(init, i) by {
        assert init[i] == cols[i];
        forall j | i < j < |init| ensures init[j].key != PrimaryKeyMark {
          assert init[j] == cols[j];
        }
      }
      AddColumnsPrimary(s, init, i);
    }
  }

  /** Without a `PRI` column the primary key is left as it was. */
  lemma {:induction false} AddColumnsNoPrimary(s: Structure, cols: seq<Column>)
    requires forall i | 0 <= i < |cols| :: cols[i].key != PrimaryKeyMark
    ensures AddColumns(s, cols).primary == s.primary
  {
    if |cols| > 0 {
      var init, last := cols[..|cols| - 1], cols[|cols| - 1];
      assert AddColumns(s, cols).primary == AddColumn(AddColumns(s, init), last).primary;
      assert forall i | 0 <= i < |init| :: init[i] == cols[i];
      AddColumnsNoPrimary(s, init);
    }
  }

  /** `autoIncrement` becomes 1 as soon as one column is `auto_increment`, and is never reset. */
  lemma {:induction false} AddColumnsAutoIncrement(s: Structure, cols: seq<Column>, i: nat)
    requires i < |cols| && cols[i].extra == AutoIncrementMark
    ensures AddColumns(s, cols).autoIncrement == 1
  {
    var init, last := cols[..|cols| - 1], cols[|cols| - 1];
    assert AddColumns(s, cols).autoIncrement == AddColumn(AddColumns(s, init), last).autoIncrement;
    if i < |init| && last.extra != AutoIncrementMark {
      assert init[i] == cols[i];
      AddColumnsAutoIncrement(s, init, i);
    }
  }

  /** Without an `auto_increment` column, `autoIncrement` is left as it was. */
  lemma {:induction false} AddColumnsNoAutoIncrement(s: Structure, cols: seq<Column>)
    requires forall i | 0 <= i < |cols| :: cols[i].extra != AutoIncrementMark
    ensures AddColumns(s, cols).autoIncrement == s.autoIncrement
  {
    if |cols| > 0 {
      var init, last := cols[..|cols| - 1], cols[|cols| - 1];
      assert AddColumns(s, cols).autoIncrement == AddColumn(AddColumns(s, init), last).autoIncrement;
      assert forall i | 0 <= i < |init| :: init[i] == cols[i];
      AddColumnsNoAutoIncrement(s, init);
    }
  }

  /** `Structure.prototype.addReference`: the reference decides `foreign` and `sons`
      outright and `redisType` only when it names one. */
  function AddReference(s: Structure, ref: Reference): (r: Structure)
    ensures r.foreign == ref.foreignKey && r.sons == ref.sonTables
    ensures Named(ref.redisType) ==> r.redisType == ref.redisType.value
    ensures !Named(ref.redisType) ==> r.redisType == s.redisType
    ensures r.name == s.name && r.primary == s.primary && r.autoIncrement == s.autoIncrement
    ensures r.fields == s.fields && r.fieldOrder == s.fieldOrder
  {
    s.(foreign := ref.foreignKey,
       sons := ref.sonTables,
       redisType := if Named(ref.redisType) then ref.redisType.value else s.redisType)
  }

  /** Columns and references touch disjoint parts of a structure, so the order in which
      they are applied does not matter. */
  lemma {:induction false} ColumnsCommuteWithReference(s: Structure, cols: seq<Column>, ref: Reference)
    ensures AddColumns(AddReference(s, ref), cols) == AddReference(AddColumns(s, cols), ref)
  {
    if |cols| > 0 {
      ColumnsCommuteWithReference(s, cols[..|cols| - 1], ref);
    }
  }
}
