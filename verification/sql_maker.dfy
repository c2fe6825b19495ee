/** `SQLMaker`: the text of insert, update, delete and select statements, and the
    rows the engine keeps after filling in defaults. SQL text is a plain string built
    from the values' renderings; its exact spacing is not part of the model. */
module SqlMaker {
  import opened Wrappers
  import opened Values
  import opened Seqs
  import Schema

  /** The auto-increment primary key is never written: the store generates it. */
  predicate Skipped(s: Schema.Structure, field: string) {
    s.autoIncrement != 0 && s.primary == Some(field)
  }

  /** The fields an insert or update writes: every schema field, in field order,
      except an auto-increment primary key. */
  function WrittenFields(s: Schema.Structure): (r: seq<string>)
    ensures forall f :: f in r <==> f in s.fieldOrder && !Skipped(s, f)
    ensures (forall i | 0 <= i < |s.fieldOrder| :: !Skipped(s, s.fieldOrder[i])) ==> r == s.fieldOrder
    ensures Schema.FieldsAgree(s) ==>
      forall i | 0 <= i < |s.fieldOrder| && Skipped(s, s.fieldOrder[i]) :: r == s.fieldOrder[..i] + s.fieldOrder[i + 1..]
  {
    if s.autoIncrement != 0 && s.primary.Some? then
      var p := s.primary.value;
      assert Schema.FieldsAgree(s) ==>
        forall i | 0 <= i < |s.fieldOrder| && s.fieldOrder[i] == p :: RemoveAll(s.fieldOrder, p) == s.fieldOrder[..i] + s.fieldOrder[i + 1..]
      by {
        if Schema.FieldsAgree(s) {
          forall i | 0 <= i < |s.fieldOrder| && s.fieldOrder[i] == p
            ensures RemoveAll(s.fieldOrder, p) == s.fieldOrder[..i] + s.fieldOrder[i + 1..]
          {
            RemoveAllUnique(s.fieldOrder, i, p);
          }
        }
      }
      if p in s.fieldOrder then RemoveAll(s.fieldOrder, p)
      else
        RemoveAllAbsent(s.fieldOrder, p);
        s.fieldOrder
    else s.fieldOrder
  }

  /** The row the engine keeps for a given object: every schema field, with the given
      value when it is truthy and the field's default otherwise; properties outside
      the schema are dropped. The primary key is included even when it is skipped in
      the statement. */
  function FillRow(s: Schema.Structure, json: Row): (r: Row)
    ensures r.Keys == s.fields.Keys
    ensures forall f | f in s.fields && Truthy(Get(json, f)) :: r[f] == json[f]
    ensures forall f | f in s.fields && !Truthy(Get(json, f)) :: r[f] == s.fields[f]
  {
    map f | f in s.fields :: if Truthy(Get(json, f)) then json[f] else s.fields[f]
  }

  /** Filling is idempotent: a truthy filled value is kept, and a falsy one can only be
      the field's default, which filling picks again. */
  lemma FillRowIdempotent(s: Schema.Structure, json: Row)
    ensures FillRow(s, FillRow(s, json)) == FillRow(s, json)
  {
  }

  /** A value in an insert: numbers bare, everything `isNaN` rejects double-quoted. */
  function InsertLiteral(v: Value): string {
    if IsNumeric(v) then Render(v) else "\"" + Render(v) + "\""
  }

  /** A value in an update: strings are always quoted, as is everything `isNaN` rejects. */
  function UpdateLiteral(v: Value): string {
    if v.Str? || !IsNumeric(v) then "\"" + Render(v) + "\"" else Render(v)
  }

  /** The back-quoted written columns, comma-separated. */
  function ColumnList(s: Schema.Structure): (r: string)
    ensures WrittenFields(s) == [] ==> r == ""
    ensures WrittenFields(s) != [] ==> |r| >= 2 && r[0] == '`'
  {
    var cols := WrittenFields(s);
    Join(",", seq(|cols|, i requires 0 <= i < |cols| => "`" + cols[i] + "`"))
  }

  /** The parenthesised value group of one filled row. */
  function ValueGroup(s: Schema.Structure, row: Row): (g: string)
    ensures |g| >= 2 && g[0] == '(' && g[|g| - 1] == ')'
  {
    var cols := WrittenFields(s);
    "(" + Join(",", seq(|cols|, i requires 0 <= i < |cols| => InsertLiteral(Get(row, cols[i])))) + ")"
  }

  /** One value group per row, in order. */
  function Groups(s: Schema.Structure, rows: seq<Row>): (r: seq<string>)
    ensures |r| == |rows| && forall i | 0 <= i < |rows| :: r[i] == ValueGroup(s, rows[i])
  {
    seq(|rows|, i requires 0 <= i < |rows| => ValueGroup(s, rows[i]))
  }

  /** A statement and the rows it writes, as the engine keeps them. */
  datatype Insert = Insert(sql: string, filled: Payload)

  function FillPayload(s: Schema.Structure, data: Payload): (r: Payload)
    ensures r.Single? <==> data.Single?
    ensures |RowsOf(r)| == |RowsOf(data)|
    ensures forall i | 0 <= i < |RowsOf(data)| :: RowsOf(r)[i] == FillRow(s, RowsOf(data)[i])
  {
    match data
    case Single(row) => Single(FillRow(s, row))
    case Batch(rows) => Batch(seq(|rows|, i requires 0 <= i < |rows| => FillRow(s, rows[i])))
  }

  /** `makeInsertSql` as written: the value groups of a batch follow each other with
      nothing in between. */
  function MakeInsertSqlAsWritten(s: Schema.Structure, data: Payload): (r: Insert)
    ensures r.filled == FillPayload(s, data)
    ensures r.sql == "insert into `" + s.name + "` (" + ColumnList(s) + ") values " + Concat(Groups(s, RowsOf(r.filled)))
  {
    var filled := FillPayload(s, data);
    Insert("insert into `" + s.name + "` (" + ColumnList(s) + ") values " + Concat(Groups(s, RowsOf(filled))), filled)
  }

  /** `makeInsertSql` with the value groups separated by commas, the form a multi-row
      insert takes. */
  function MakeInsertSql(s: Schema.Structure, data: Payload): (r: Insert)
    ensures r.filled == FillPayload(s, data)
    ensures r.sql == "insert into `" + s.name + "` (" + ColumnList(s) + ") values " + Join(",", Groups(s, RowsOf(r.filled)))
  {
    var filled := FillPayload(s, data);
    Insert("insert into `" + s.name + "` (" + ColumnList(s) + ") values " + Join(",", Groups(s, RowsOf(filled))), filled)
  }

  /** With a single row both forms agree. */
  lemma InsertFormsAgreeOnOneRow(s: Schema.Structure, data: Payload)
    requires |RowsOf(data)| == 1
    ensures MakeInsertSqlAsWritten(s, data) == MakeInsertSql(s, data)
  {
    var gs := Groups(s, RowsOf(FillPayload(s, data)));
    assert Concat(gs) == gs[0] + Concat(gs[1..]);
    assert gs[1..] == [];
  }

  /** As written, two rows give `...)(...`: one group closes and the next opens with no
      separator, which is not a valid multi-row VALUES list. Joined with commas, the
      same position holds `,`. */
  lemma InsertGroupsRunTogether(s: Schema.Structure, a: Row, b: Row)
    ensures var gs := Groups(s, [a, b]);
      var n := |gs[0]|;
      && Concat(gs) == gs[0] + gs[1] && Join(",", gs) == gs[0] + "," + gs[1]
      && Concat(gs)[n - 1] == ')' && Concat(gs)[n] == '('
      && Join(",", gs)[n - 1] == ')' && Join(",", gs)[n] == ','
  {
    var gs := Groups(s, [a, b]);
    assert gs[1..][1..] == [];
    assert Concat(gs[1..]) == gs[1] + Concat(gs[1..][1..]);
    assert Join(",", gs[1..]) == gs[1];
  }

  /** An update statement and the row the engine keeps afterwards. */
  datatype Update = Update(sql: string, after: Row)

  function SetList(s: Schema.Structure, after: Row): string {
    var cols := WrittenFields(s);
    Join(",", seq(|cols|, i requires 0 <= i < |cols| => " `" + cols[i] + "` = " + UpdateLiteral(Get(after, cols[i]))))
  }

  /** An update statement around the text of its key value. `util.format` appends the
      extra primary value after a space, behind the template's own trailing space. */
  function UpdateStatement(s: Schema.Structure, after: Row, key: string): string {
    "update `" + s.name + "` set " + SetList(s, after) + " where `" + FieldName(s.primary) + "` =  " + key
  }

  /** `makeUpdateSql`: nothing without a truthy primary value; otherwise a statement
      that sets every written field of the filled row, keyed on the primary value,
      which is written bare. */
  function MakeUpdateSql(s: Schema.Structure, json: Row): (r: Option<Update>)
    ensures r.None? <==> !Truthy(Get(json, FieldName(s.primary)))
    ensures r.Some? ==> r.value.after == FillRow(s, json)
    ensures r.Some? ==>
      r.value.sql == "update `" + s.name + "` set " + SetList(s, r.value.after) + " where `" + FieldName(s.primary) + "` =  "
      + Render(Get(json, FieldName(s.primary)))
  {
    var pv := Get(json, FieldName(s.primary));
    if !Truthy(pv) then None
    else
      var after := FillRow(s, json);
      Some(Update(UpdateStatement(s, after, Render(pv)), after))
  }

  /** The update with its key value written the way a read writes a foreign value:
      bare when `isNaN` accepts it, double-quoted otherwise. It differs from the
      statement as written only in the key of a non-numeric primary value. */
  function MakeUpdateSqlQuoted(s: Schema.Structure, json: Row): (r: Option<Update>)
    ensures r.None? <==> MakeUpdateSql(s, json).None?
    ensures r.Some? ==> r.value.after == MakeUpdateSql(s, json).value.after
    ensures IsNumeric(Get(json, FieldName(s.primary))) ==> r == MakeUpdateSql(s, json)
    ensures r.Some? && !IsNumeric(Get(json, FieldName(s.primary))) ==>
      r.value.sql == UpdateStatement(s, r.value.after, "\"" + Render(Get(json, FieldName(s.primary))) + "\"")
  {
    match MakeUpdateSql(s, json)
    case None => None
    case Some(u) => Some(Update(UpdateStatement(s, u.after, InsertLiteral(Get(json, FieldName(s.primary)))), u.after))
  }

  /** A condition both builders accept: a non-empty string. */
  predicate UsableCondition(condition: Value) {
    condition.Str? && condition.s != ""
  }

  /** `makeDeleteSql`. */
  function MakeDeleteSql(tableName: string, condition: Value): (r: Option<string>)
    ensures r.None? <==> !UsableCondition(condition)
    ensures r.Some? ==> r.value == "delete from `" + tableName + "` where " + condition.s
  {
    if !UsableCondition(condition) then None else Some("delete from `" + tableName + "` where " + condition.s)
  }

  /** `makeSelectSql`. */
  function MakeSelectSql(tableName: string, condition: Value): (r: Option<string>)
    ensures r.None? <==> !UsableCondition(condition)
    ensures r.Some? ==> r.value == "select * from `" + tableName + "` where " + condition.s
  {
    if !UsableCondition(condition) then None else Some("select * from `" + tableName + "` where " + condition.s)
  }
}
