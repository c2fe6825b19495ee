/** `DataMgr`, the engine: cache-aside inserts, deletes, updates and reads over a
    relational store and the list cache. Every callback-style call becomes a function
    from the store and the cache before the call to an `Outcome`: what the callback
    receives, and the store and cache after it. */
module DataMgr {
  import opened Wrappers
  import opened Values
  import opened Seqs
  import Schema
  import SqlMaker
  import opened ListCache
  import GameRedis

  /** The relational store: the rows of each table, in insertion order. */
  type Db = map<string, seq<Row>>

  /** The parsed structures the engine looks a table up in. */
  type Directory = map<string, Schema.Structure>

  function TableRows(db: Db, table: string): seq<Row> {
    if table in db then db[table] else []
  }

  /** What a call hands its callback, and the store and cache after it. */
  datatype Outcome<T> = Outcome(reply: Result<T, Error>, db: Db, cache: Cache)

  /** What a read hands its callback: `null`, one row, or an array of rows. */
  datatype Selected = Nothing | One(row: Row) | Many(rows: seq<Row>)

  /** The store's `=` on a column, taken to be JavaScript `==`. */
  predicate FieldIs(row: Row, field: string, v: Value) {
    LooseEq(v, Get(row, field))
  }

  /** The rows for which `field = v` is `want`, in their original order: a select
      keeps the matching ones, a delete the others. */
  function Filter(rows: seq<Row>, field: string, v: Value, want: bool): seq<Row> {
    Keep(rows, row => FieldIs(row, field, v) == want)
  }

  lemma FilterMembers(rows: seq<Row>, field: string, v: Value, want: bool)
    ensures forall row :: row in Filter(rows, field, v, want) <==> row in rows && FieldIs(row, field, v) == want
  {
    KeepMembers(rows, row => FieldIs(row, field, v) == want);
  }

  // ---------------------------------------------------------------- insert

  /** What the store reports as `insertId`: the first generated key, or 0 for a table
      without an auto-increment column. */
  function ReportedInsertId(s: Schema.Structure, nextId: nat): nat {
    if s.autoIncrement != 0 then nextId else 0
  }

  /** Consecutive keys `id`, `id + 1`, ... written into `key` of each row in order, as
      a loop of `json[primary] = insertId++` does. */
  function AssignIds(rows: seq<Row>, key: string, id: int): (r: seq<Row>)
    ensures |r| == |rows|
    ensures forall i | 0 <= i < |rows| :: r[i] == rows[i][key := Num(id + i)]
  {
    if |rows| == 0 then [] else [rows[0][key := Num(id)]] + AssignIds(rows[1..], key, id + 1)
  }

  /** Different rows get different keys. */
  lemma AssignIdsDistinct(rows: seq<Row>, key: string, id: int)
    ensures var r := AssignIds(rows, key, id);
      forall i, j | 0 <= i < j < |r| :: r[i][key] != r[j][key]
  {
    var r := AssignIds(rows, key, id);
    forall i, j | 0 <= i < j < |r| ensures r[i][key] != r[j][key] {
      assert r[i][key] == Num(id + i) && r[j][key] == Num(id + j);
    }
  }

  /** How the store keeps one inserted row: an auto-increment key is generated, any
      other row is kept as written. */
  function StoredRow(s: Schema.Structure, row: Row, id: int): Row {
    if s.autoIncrement != 0 then row[FieldName(s.primary) := Num(id)] else row
  }

  /** The rows an insert adds to the store, the i-th with generated key `nextId + i`. */
  function StoredRows(s: Schema.Structure, rows: seq<Row>, nextId: nat): (r: seq<Row>)
    ensures |r| == |rows|
  {
    seq(|rows|, i requires 0 <= i < |rows| => StoredRow(s, rows[i], nextId + i))
  }

  /** The engine's copy of the inserted rows as written: the reported `insertId` goes
      into the primary key of every table, with or without auto-increment. */
  function FinalRowsAsWritten(s: Schema.Structure, filled: Payload, insertId: int): (r: Payload)
    ensures r.Single? <==> filled.Single?
    ensures RowsOf(r) == AssignIds(RowsOf(filled), FieldName(s.primary), insertId)
  {
    match filled
    case Single(row) =>
      assert AssignIds([row], FieldName(s.primary), insertId) == [row[FieldName(s.primary) := Num(insertId)]];
      Single(row[FieldName(s.primary) := Num(insertId)])
    case Batch(rows) => Batch(AssignIds(rows, FieldName(s.primary), insertId))
  }

  /** The engine's copy with the key written back only where the store generated one. */
  function FinalRows(s: Schema.Structure, filled: Payload, nextId: nat): (r: Payload)
    ensures r.Single? <==> filled.Single?
    ensures RowsOf(r) == StoredRows(s, RowsOf(filled), nextId)
  {
    if s.autoIncrement != 0 then FinalRowsAsWritten(s, filled, nextId) else filled
  }

  /** As written, a table whose key is supplied by the caller (no auto-increment) gets
      that key overwritten with the store's `insertId`, which is 0 for such tables: the
      engine then returns and caches a row the store does not hold. */
  lemma InsertKeyOverwritten()
    ensures var s := Schema.Structure("player", Some("uid"), 0, None, None, ["uid"], map["uid" := Str("")], Schema.ListType);
      var row := map["uid" := Str("u7")];
      && FinalRowsAsWritten(s, Single(row), ReportedInsertId(s, 5)) == Single(map["uid" := Num(0)])
      && StoredRows(s, [row], 5) == [row]
      && RowsOf(FinalRowsAsWritten(s, Single(row), ReportedInsertId(s, 5))) != StoredRows(s, [row], 5)
  {
    var s := Schema.Structure("player", Some("uid"), 0, None, None, ["uid"], map["uid" := Str("")], Schema.ListType);
    var row := map["uid" := Str("u7")];
    assert row["uid" := Num(0)] == map["uid" := Num(0)];
    assert map["uid" := Num(0)]["uid"] != row["uid"];
  }

  /** Whether `insertData` rejects its arguments before looking anything up: no table
      name, no data, or an empty array. A single object has no `length` and passes. */
  predicate InsertParamsNull(table: string, input: Option<Payload>) {
    table == "" || input.None? || (input.value.Batch? && input.value.rows == [])
  }

  /** `DataMgr.prototype.insertData`. The store adds the filled rows (generating keys
      from `nextId` on for an auto-increment table) or fails as a whole; the caller gets
      the rows as the store holds them, which are also appended to the cache unless
      `noCache`. A cache failure after a successful write leaves the write in place.
      This is the corrected engine: the statement is `SqlMaker.MakeInsertSql`, which
      separates value groups by commas, and `FinalRows` writes the generated key back
      only for an auto-increment table. The code as written differs in both places; see
      `SqlMaker.MakeInsertSqlAsWritten` and `FinalRowsAsWritten`. */
  function InsertData(dir: Directory, db: Db, cache: Cache, table: string, input: Option<Payload>,
                      noCache: bool, nextId: nat, storeFails: bool): (o: Outcome<Payload>)
    ensures InsertParamsNull(table, input) ==> o == Outcome(Failure(ParamsNull), db, cache)
    ensures !InsertParamsNull(table, input) && table !in dir ==> o == Outcome(Failure(NoStructure(table)), db, cache)
    ensures !InsertParamsNull(table, input) && table in dir && storeFails ==>
      o == Outcome(Failure(StoreFailed(SqlMaker.MakeInsertSql(dir[table], input.value).sql)), db, cache)
    ensures o.db != db ==> !InsertParamsNull(table, input) && table in dir && !storeFails
    ensures !InsertParamsNull(table, input) && table in dir && !storeFails ==>
      var s := dir[table];
      var added := StoredRows(s, RowsOf(SqlMaker.FillPayload(s, input.value)), nextId);
      && o.db == db[table := TableRows(db, table) + added]
      && (o.reply.Success? ==> RowsOf(o.reply.value) == added && (o.reply.value.Single? <==> input.value.Single?))
      && (noCache ==> o.reply.Success? && o.cache == cache)
      && (!noCache ==> (o.reply.Success? <==> GameRedis.HasStrategy(s)))
      && (!noCache && o.reply.Success? ==>
            var k := AddKey(s, added);
            Lrange(o.cache, k) == Lrange(cache, k) + added)
      && (!noCache ==> forall k | k != AddKey(s, added) :: Lrange(o.cache, k) == Lrange(cache, k))
      && (o.reply.Failure? ==> o.cache == cache)
  {
    if InsertParamsNull(table, input) then Outcome(Failure(ParamsNull), db, cache)
    else if table !in dir then Outcome(Failure(NoStructure(table)), db, cache)
    else
      var s := dir[table];
      var ins := SqlMaker.MakeInsertSql(s, input.value);
      if storeFails then Outcome(Failure(StoreFailed(ins.sql)), db, cache)
      else
        var rows := FinalRows(s, ins.filled, nextId);
        var db' := db[table := TableRows(db, table) + RowsOf(rows)];
        if noCache then Outcome(Success(rows), db', cache)
        else
          match GameRedis.AddRedisCache(cache, s, rows)
          case Success(c') => Outcome(Success(rows), db', c')
          case Failure(e) => Outcome(Failure(e), db', cache)
  }

  // ---------------------------------------------------------------- delete

  /** The column a delete or read by (priValue, forValue) is keyed on: the primary key
      when a primary value is given, the foreign key otherwise. */
  function KeyField(s: Schema.Structure, priValue: Value): string {
    if Truthy(priValue) then FieldName(s.primary) else FieldName(s.foreign)
  }

  function KeyValue(priValue: Value, forValue: Value): Value {
    if Truthy(priValue) then priValue else forValue
  }

  /** The where-clause of `deleteData`: `util.format` appends the extra value after a
      space, unquoted. */
  function DeleteCondition(s: Schema.Structure, priValue: Value, forValue: Value): (r: Value)
    ensures SqlMaker.UsableCondition(r)
  {
    Str("`" + KeyField(s, priValue) + "` = " + " " + Render(KeyValue(priValue, forValue)))
  }

  /** The where-clause with the key value written the way a read writes a foreign
      value: bare when `isNaN` accepts it, double-quoted otherwise, so that the store
      always reads it as a value. The corrected delete and read both use it; it is the
      text as written whenever that text already quotes or needs no quotes. */
  function KeyCondition(s: Schema.Structure, priValue: Value, forValue: Value): (r: Value)
    ensures SqlMaker.UsableCondition(r)
    ensures IsNumeric(KeyValue(priValue, forValue)) ==> r == DeleteCondition(s, priValue, forValue)
    ensures !Truthy(priValue) || IsNumeric(priValue) ==> r == SelectCondition(s, priValue, forValue)
  {
    Str("`" + KeyField(s, priValue) + "` = " + " " + SqlMaker.InsertLiteral(KeyValue(priValue, forValue)))
  }

  /** Whether the store can run a statement whose key value is written bare, as
      `util.format` appends it: MySQL reads bare text as a value only when it is a
      number; any other text is taken for a column name or breaks the syntax, and the
      statement is rejected. */
  predicate BareKeyAccepted(v: Value) {
    IsNumeric(v)
  }

  /** `DataMgr.prototype.deleteData`. Without a primary or foreign value nothing is
      looked up. Otherwise the store drops every row whose key column (primary when
      given, foreign otherwise) equals the value and keeps the rest in order; then,
      unless `noCache`, the cache entry is removed as `remCache` does. */
  function DeleteData(dir: Directory, db: Db, cache: Cache, table: string, priValue: Value, forValue: Value,
                      noCache: bool, storeFails: bool): (o: Outcome<()>)
    ensures !Truthy(priValue) && !Truthy(forValue) ==> o == Outcome(Failure(NeedKey), db, cache)
    ensures (Truthy(priValue) || Truthy(forValue)) && table !in dir ==> o == Outcome(Failure(NoStructure(table)), db, cache)
    ensures (Truthy(priValue) || Truthy(forValue)) && table in dir && storeFails ==>
      o == Outcome(Failure(StoreFailed(SqlMaker.MakeDeleteSql(table, KeyCondition(dir[table], priValue, forValue)).value)), db, cache)
    ensures o.db != db ==> (Truthy(priValue) || Truthy(forValue)) && table in dir && !storeFails
    ensures (Truthy(priValue) || Truthy(forValue)) && table in dir && !storeFails ==>
      var s := dir[table];
      var field, v := KeyField(s, priValue), KeyValue(priValue, forValue);
      && table in o.db
      && (forall row :: row in o.db[table] <==> row in TableRows(db, table) && !FieldIs(row, field, v))
      && (forall t | t != table :: TableRows(o.db, t) == TableRows(db, t))
      && (noCache ==> o.reply == Success(()) && o.cache == cache)
      && (!noCache ==> (o.reply.Success? <==> GameRedis.RemoveRedisCache(cache, s, priValue, forValue).Success?))
      && (!noCache && o.reply.Success? ==> o.cache == GameRedis.RemoveRedisCache(cache, s, priValue, forValue).value)
      && (o.reply.Failure? ==> o.cache == cache)
  {
    if !Truthy(priValue) && !Truthy(forValue) then Outcome(Failure(NeedKey), db, cache)
    else if table !in dir then Outcome(Failure(NoStructure(table)), db, cache)
    else
      var s := dir[table];
      var sql := SqlMaker.MakeDeleteSql(table, KeyCondition(s, priValue, forValue));
      if storeFails then Outcome(Failure(StoreFailed(sql.value)), db, cache)
      else
        var db' := db[table := Filter(TableRows(db, table), KeyField(s, priValue), KeyValue(priValue, forValue), false)];
        FilterMembers(TableRows(db, table), KeyField(s, priValue), KeyValue(priValue, forValue), false);
        if noCache then Outcome(Success(()), db', cache)
        else
          match GameRedis.RemoveRedisCache(cache, s, priValue, forValue)
          case Success(c') => Outcome(Success(()), db', c')
          case Failure(e) => Outcome(Failure(e), db', cache)
  }

  /** `deleteData` as written: the key value goes into the statement bare, so the
      store rejects it for a non-numeric key and nothing is deleted, from the store or
      from the cache. With a numeric key the statement is the corrected one. */
  function DeleteDataAsWritten(dir: Directory, db: Db, cache: Cache, table: string, priValue: Value, forValue: Value,
                               noCache: bool, storeFails: bool): (o: Outcome<()>)
    ensures (Truthy(priValue) || Truthy(forValue)) && table in dir && !BareKeyAccepted(KeyValue(priValue, forValue)) ==>
      o == Outcome(Failure(StoreFailed(SqlMaker.MakeDeleteSql(table, DeleteCondition(dir[table], priValue, forValue)).value)), db, cache)
    ensures BareKeyAccepted(KeyValue(priValue, forValue)) ==> o == DeleteData(dir, db, cache, table, priValue, forValue, noCache, storeFails)
    ensures o.db != db ==> BareKeyAccepted(KeyValue(priValue, forValue))
  {
    if (Truthy(priValue) || Truthy(forValue)) && table in dir && !BareKeyAccepted(KeyValue(priValue, forValue)) then
      Outcome(Failure(StoreFailed(SqlMaker.MakeDeleteSql(table, DeleteCondition(dir[table], priValue, forValue)).value)), db, cache)
    else DeleteData(dir, db, cache, table, priValue, forValue, noCache, storeFails)
  }

  // ---------------------------------------------------------------- update

  /** A stored row after `update ... set`: the written columns take the new values. */
  function Overlay(row: Row, after: Row, cols: seq<string>): (r: Row)
    ensures forall f | f in cols && f in after :: f in r && r[f] == after[f]
    ensures forall f | f in row && !(f in cols && f in after) :: f in r && r[f] == row[f]
    ensures forall f | f in r :: f in row || (f in cols && f in after)
  {
    map f | f in row.Keys + (set c | c in cols && c in after) :: if f in cols && f in after then after[f] else row[f]
  }

  /** `after` is `before` with `update ... set cols where key = pv` applied: the same
      number of rows, rows without that key value untouched, and in the others every
      written column carrying its new value, every other column keeping its old one,
      and no column appearing that is neither. */
  predicate Updated(before: seq<Row>, after: seq<Row>, key: string, pv: Value, cols: seq<string>, values: Row) {
    && |after| == |before|
    && (forall i | 0 <= i < |before| && !FieldIs(before[i], key, pv) :: after[i] == before[i])
    && (forall i, f | 0 <= i < |before| && FieldIs(before[i], key, pv) && f in cols && f in values ::
          f in after[i] && after[i][f] == values[f])
    && (forall i, f | 0 <= i < |before| && FieldIs(before[i], key, pv) && f in before[i] && !(f in cols && f in values) ::
          f in after[i] && after[i][f] == before[i][f])
    && (forall i, f | 0 <= i < |before| && FieldIs(before[i], key, pv) && f in after[i] ::
          f in before[i] || (f in cols && f in values))
  }

  function UpdateRows(rows: seq<Row>, s: Schema.Structure, pv: Value, after: Row): (r: seq<Row>)
    ensures Updated(rows, r, FieldName(s.primary), pv, SqlMaker.WrittenFields(s), after)
  {
    seq(|rows|, i requires 0 <= i < |rows| =>
      if FieldIs(rows[i], FieldName(s.primary), pv) then Overlay(rows[i], after, SqlMaker.WrittenFields(s)) else rows[i])
  }

  /** `DataMgr.prototype.updateData`. The object must carry a truthy primary value.
      The store overwrites the written columns of the rows with that primary value by
      the filled object, and the cache entry is replaced as `updCache` does. Without
      the cache the callback gets the filled object; with it, only the cache's status. */
  function UpdateData(dir: Directory, db: Db, cache: Cache, table: string, json: Row,
                      noCache: bool, storeFails: bool): (o: Outcome<Option<Row>>)
    ensures table !in dir ==> o == Outcome(Failure(NoStructure(table)), db, cache)
    ensures table in dir && !Truthy(Get(json, FieldName(dir[table].primary))) ==>
      o == Outcome(Failure(NoPrimaryValue(table)), db, cache)
    ensures table in dir && Truthy(Get(json, FieldName(dir[table].primary))) && storeFails ==>
      o == Outcome(Failure(StoreFailed(SqlMaker.MakeUpdateSqlQuoted(dir[table], json).value.sql)), db, cache)
    ensures o.db != db ==> table in dir && Truthy(Get(json, FieldName(dir[table].primary))) && !storeFails
    ensures table in dir && Truthy(Get(json, FieldName(dir[table].primary))) && !storeFails ==>
      var s := dir[table];
      var pv, after := Get(json, FieldName(s.primary)), SqlMaker.FillRow(s, json);
      && Updated(TableRows(db, table), TableRows(o.db, table), FieldName(s.primary), pv, SqlMaker.WrittenFields(s), after)
      && (forall t | t != table :: TableRows(o.db, t) == TableRows(db, t))
      && (o.reply.Failure? ==> o.cache == cache)
      && (noCache ==> o.reply == Success(Some(after)) && o.cache == cache)
      && (!noCache ==> (o.reply.Success? <==> GameRedis.HasStrategy(s)))
      && (!noCache && o.reply.Success? ==> o.reply.value == None && o.cache == UpdCache(cache, s, after))
  {
    if table !in dir then Outcome(Failure(NoStructure(table)), db, cache)
    else
      var s := dir[table];
      match SqlMaker.MakeUpdateSqlQuoted(s, json)
      case None => Outcome(Failure(NoPrimaryValue(table)), db, cache)
      case Some(u) =>
        if storeFails then Outcome(Failure(StoreFailed(u.sql)), db, cache)
        else
          var pv := Get(json, FieldName(s.primary));
          var db' := db[table := UpdateRows(TableRows(db, table), s, pv, u.after)];
          if noCache then Outcome(Success(Some(u.after)), db', cache)
          else
            match GameRedis.UpdateRedisCache(cache, s, u.after)
            case Success(c') => Outcome(Success(None), db', c')
            case Failure(e) => Outcome(Failure(e), db', cache)
  }

  /** `updateData` as written: the primary value goes into the statement bare, so the
      store rejects it for a non-numeric value and nothing changes. With a numeric one
      the statement is the corrected one. */
  function UpdateDataAsWritten(dir: Directory, db: Db, cache: Cache, table: string, json: Row,
                               noCache: bool, storeFails: bool): (o: Outcome<Option<Row>>)
    ensures table in dir && Truthy(Get(json, FieldName(dir[table].primary))) && !BareKeyAccepted(Get(json, FieldName(dir[table].primary))) ==>
      o == Outcome(Failure(StoreFailed(SqlMaker.MakeUpdateSql(dir[table], json).value.sql)), db, cache)
    ensures table !in dir || BareKeyAccepted(Get(json, FieldName(dir[table].primary))) ==>
      o == UpdateData(dir, db, cache, table, json, noCache, storeFails)
    ensures o.db != db ==> table in dir && BareKeyAccepted(Get(json, FieldName(dir[table].primary)))
  {
    if table in dir && Truthy(Get(json, FieldName(dir[table].primary))) && !BareKeyAccepted(Get(json, FieldName(dir[table].primary))) then
      Outcome(Failure(StoreFailed(SqlMaker.MakeUpdateSql(dir[table], json).value.sql)), db, cache)
    else UpdateData(dir, db, cache, table, json, noCache, storeFails)
  }

  // ---------------------------------------------------------------- reads

  /** The where-clause of a read: the primary value as given, or the foreign value,
      double-quoted when `isNaN` rejects it. */
  function SelectCondition(s: Schema.Structure, priValue: Value, forValue: Value): (r: Value)
    ensures SqlMaker.UsableCondition(r)
  {
    var v := if Truthy(priValue) then Render(priValue) else SqlMaker.InsertLiteral(forValue);
    Str("`" + KeyField(s, priValue) + "` = " + " " + v)
  }

  /** `_selectFromDB`. Reading by primary value yields the first stored row with that
      value, or `null`; reading by foreign value yields every row with that value, in
      store order, possibly none. */
  function SelectFromDB(s: Schema.Structure, db: Db, priValue: Value, forValue: Value, storeFails: bool): (r: Result<Selected, Error>)
    ensures !Truthy(priValue) && !Truthy(forValue) ==> r == Failure(NeedKey)
    ensures r.Failure? <==> (!Truthy(priValue) && !Truthy(forValue)) || storeFails
    ensures r.Success? && Truthy(priValue) ==> r.value.Nothing? || r.value.One?
    ensures r.Success? && Truthy(priValue) ==>
      (r.value.Nothing? <==> forall i | 0 <= i < |TableRows(db, s.name)| :: !FieldIs(TableRows(db, s.name)[i], FieldName(s.primary), priValue))
    ensures r.Success? && r.value.One? ==>
      exists i | 0 <= i < |TableRows(db, s.name)| ::
        && TableRows(db, s.name)[i] == r.value.row && FieldIs(r.value.row, FieldName(s.primary), priValue)
        && forall j | 0 <= j < i :: !FieldIs(TableRows(db, s.name)[j], FieldName(s.primary), priValue)
    ensures r.Success? && !Truthy(priValue) ==>
      r.value.Many? && forall row :: row in r.value.rows <==> row in TableRows(db, s.name) && FieldIs(row, FieldName(s.foreign), forValue)
  {
    if !Truthy(priValue) && !Truthy(forValue) then Failure(NeedKey)
    else
      var sql := SqlMaker.MakeSelectSql(s.name, KeyCondition(s, priValue, forValue));
      if storeFails then Failure(StoreFailed(sql.value))
      else
        var rows := TableRows(db, s.name);
        if !Truthy(priValue) then
          FilterMembers(rows, FieldName(s.foreign), forValue, true);
          Success(Many(Filter(rows, FieldName(s.foreign), forValue, true)))
        else
          match FirstMatch(rows, s.primary, priValue)
          case None => Success(Nothing)
          case Some(i) => Success(One(rows[i]))
  }

  /** What a non-empty store result is written back to the cache as: its rows appended
      to the list of the first row's key, and nothing for an empty answer. */
  function Backfill(c: Cache, s: Schema.Structure, d: Selected): (r: Result<Cache, Error>)
    ensures SelectedRows(d) == [] ==> r == Success(c)
    ensures SelectedRows(d) != [] ==> (r.Success? <==> GameRedis.HasStrategy(s))
    ensures SelectedRows(d) != [] && r.Success? ==>
      var k := AddKey(s, SelectedRows(d));
      && Lrange(r.value, k) == Lrange(c, k) + SelectedRows(d)
      && forall k' | k' != k :: Lrange(r.value, k') == Lrange(c, k')
  {
    match d
    case Nothing => Success(c)
    case One(row) => GameRedis.AddRedisCache(c, s, Single(row))
    case Many(rows) => if rows == [] then Success(c) else GameRedis.AddRedisCache(c, s, Batch(rows))
  }

  /** `_selectFromDB` as written: a primary value goes into the statement bare, so the
      store rejects a read by a non-numeric primary value. A foreign value is quoted
      when it needs it, and such reads are the corrected ones. */
  function SelectFromDBAsWritten(s: Schema.Structure, db: Db, priValue: Value, forValue: Value, storeFails: bool): (r: Result<Selected, Error>)
    ensures Truthy(priValue) && !BareKeyAccepted(priValue) ==>
      r == Failure(StoreFailed(SqlMaker.MakeSelectSql(s.name, SelectCondition(s, priValue, forValue)).value))
    ensures !Truthy(priValue) || BareKeyAccepted(priValue) ==> r == SelectFromDB(s, db, priValue, forValue, storeFails)
  {
    if Truthy(priValue) && !BareKeyAccepted(priValue) then
      Failure(StoreFailed(SqlMaker.MakeSelectSql(s.name, SelectCondition(s, priValue, forValue)).value))
    else SelectFromDB(s, db, priValue, forValue, storeFails)
  }

  /** `_selectFromRedis`: a cached row or list is returned as is; on a miss (or a list
      without the row) the store is read and a non-empty answer is appended to the
      cache before it is returned. */
  function SelectFromRedis(s: Schema.Structure, db: Db, cache: Cache, priValue: Value, forValue: Value,
                           storeFails: bool): (o: Outcome<Selected>)
    ensures o.db == db
    ensures !GameRedis.HasStrategy(s) ==> o == Outcome(Failure(UnknownStrategy(s.redisType)), db, cache)
    ensures GameRedis.HasStrategy(s) ==>
      match GetCache(cache, s, priValue, forValue)
      case Hit(row) => o == Outcome(Success(One(row)), db, cache)
      case All(rows) => o == Outcome(Success(Many(rows)), db, cache)
      case _ =>
        var d := SelectFromDB(s, db, priValue, forValue, storeFails);
        && o.reply == d
        && (d.Success? ==> Backfill(cache, s, d.value).Success? && o.cache == Backfill(cache, s, d.value).value)
        && (d.Failure? ==> o.cache == cache)
  {
    match GameRedis.GetRedisCache(cache, s, priValue, forValue)
    case Failure(e) => Outcome(Failure(e), db, cache)
    case Success(Hit(row)) => Outcome(Success(One(row)), db, cache)
    case Success(All(rows)) => Outcome(Success(Many(rows)), db, cache)
    case Success(_) =>
      match SelectFromDB(s, db, priValue, forValue, storeFails)
      case Failure(e) => Outcome(Failure(e), db, cache)
      case Success(d) =>
        match Backfill(cache, s, d)
        case Success(c') => Outcome(Success(d), db, c')
        case Failure(e) => Outcome(Failure(e), db, cache)
  }

  /** `_selectData`: through the cache unless `noCache`. */
  function SelectVia(s: Schema.Structure, db: Db, cache: Cache, priValue: Value, forValue: Value,
                     noCache: bool, storeFails: bool): (o: Outcome<Selected>)
    ensures o.db == db
    ensures noCache ==> o == Outcome(SelectFromDB(s, db, priValue, forValue, storeFails), db, cache)
    ensures !noCache ==> o == SelectFromRedis(s, db, cache, priValue, forValue, storeFails)
  {
    if noCache then Outcome(SelectFromDB(s, db, priValue, forValue, storeFails), db, cache)
    else SelectFromRedis(s, db, cache, priValue, forValue, storeFails)
  }

  /** `DataMgr.prototype.selectData`: a table name and a primary or foreign value are
      required before anything is looked up. */
  function SelectData(dir: Directory, db: Db, cache: Cache, table: string, priValue: Value, forValue: Value,
                      noCache: bool, storeFails: bool): (o: Outcome<Selected>)
    ensures o.db == db
    ensures table == "" || (!Truthy(priValue) && !Truthy(forValue)) ==> o == Outcome(Failure(ParamsNull), db, cache)
    ensures table != "" && (Truthy(priValue) || Truthy(forValue)) && table !in dir ==>
      o == Outcome(Failure(NoStructure(table)), db, cache)
    ensures table != "" && (Truthy(priValue) || Truthy(forValue)) && table in dir ==>
      o == SelectVia(dir[table], db, cache, priValue, forValue, noCache, storeFails)
  {
    if table == "" || (!Truthy(priValue) && !Truthy(forValue)) then Outcome(Failure(ParamsNull), db, cache)
    else if table !in dir then Outcome(Failure(NoStructure(table)), db, cache)
    else SelectVia(dir[table], db, cache, priValue, forValue, noCache, storeFails)
  }

  // ---------------------------------------------------------------- reads by condition

  /** Whether a row agrees (`==`) with every property of the condition object. */
  predicate InCondition(row: Row, condition: Row) {
    forall k | k in condition :: LooseEq(condition[k], Get(row, k))
  }

  /** The rows meeting the condition, in their original order. */
  function KeepMatching(rows: seq<Row>, condition: Row): (r: seq<Row>)
    ensures forall row :: row in r <==> row in rows && InCondition(row, condition)
  {
    KeepMembers(rows, row => InCondition(row, condition));
    Keep(rows, row => InCondition(row, condition))
  }

  function SelectedRows(d: Selected): seq<Row> {
    match d
    case Nothing => []
    case One(row) => [row]
    case Many(rows) => rows
  }

  /** `selectDataByCondition` as written: the read's answer is iterated with
      `forEach`, which a single row (a read by primary value) does not have, so the
      callback throws there. The read's cache write-back has already happened. */
  function SelectDataByConditionAsWritten(dir: Directory, db: Db, cache: Cache, table: string, condition: Row,
                                          noCache: bool, storeFails: bool): (o: Outcome<Option<seq<Row>>>)
    ensures o.db == db
    ensures table !in dir ==> o == Outcome(Failure(NoStructure(table)), db, cache)
    ensures table in dir ==>
      var s := dir[table];
      var d := SelectVia(s, db, cache, Get(condition, FieldName(s.primary)), Get(condition, FieldName(s.foreign)), noCache, storeFails);
      && o.cache == d.cache
      && (o.reply.Failure? <==> d.reply.Failure? || (d.reply.Success? && d.reply.value.One?))
      && (o.reply == Failure(NotAList) <==> d.reply.Success? && d.reply.value.One?)
      && (d.reply.Failure? ==> o.reply == Failure(d.reply.error))
      && (o.reply == Success(None) <==> d.reply == Success(Nothing))
      && (o.reply.Success? && o.reply.value.Some? ==>
            && d.reply.Success? && d.reply.value.Many?
            && forall row :: row in o.reply.value.value <==> row in d.reply.value.rows && InCondition(row, condition))
  {
    if table !in dir then Outcome(Failure(NoStructure(table)), db, cache)
    else
      var s := dir[table];
      var d := SelectVia(s, db, cache, Get(condition, FieldName(s.primary)), Get(condition, FieldName(s.foreign)), noCache, storeFails);
      match d.reply
      case Failure(e) => Outcome(Failure(e), db, d.cache)
      case Success(Nothing) => Outcome(Success(None), db, d.cache)
      case Success(One(_)) => Outcome(Failure(NotAList), db, d.cache)
      case Success(Many(rows)) => Outcome(Success(Some(KeepMatching(rows, condition))), db, d.cache)
  }

  /** `selectDataByCondition` with a single row treated as a one-row answer: the
      callback gets exactly the rows of the read's answer that meet the condition. */
  function SelectDataByCondition(dir: Directory, db: Db, cache: Cache, table: string, condition: Row,
                                 noCache: bool, storeFails: bool): (o: Outcome<Option<seq<Row>>>)
    ensures o.db == db
    ensures table !in dir ==> o == Outcome(Failure(NoStructure(table)), db, cache)
    ensures table in dir ==>
      var s := dir[table];
      var d := SelectVia(s, db, cache, Get(condition, FieldName(s.primary)), Get(condition, FieldName(s.foreign)), noCache, storeFails);
      && o.cache == d.cache
      && (o.reply.Failure? <==> d.reply.Failure?)
      && (d.reply.Failure? ==> o.reply.error == d.reply.error)
      && (o.reply == Success(None) <==> d.reply == Success(Nothing))
      && (o.reply.Success? && o.reply.value.Some? ==>
            forall row :: row in o.reply.value.value <==> row in SelectedRows(d.reply.value) && InCondition(row, condition))
  {
    if table !in dir then Outcome(Failure(NoStructure(table)), db, cache)
    else
      var s := dir[table];
      var d := SelectVia(s, db, cache, Get(condition, FieldName(s.primary)), Get(condition, FieldName(s.foreign)), noCache, storeFails);
      match d.reply
      case Failure(e) => Outcome(Failure(e), db, d.cache)
      case Success(Nothing) => Outcome(Success(None), db, d.cache)
      case Success(found) => Outcome(Success(Some(KeepMatching(SelectedRows(found), condition))), db, d.cache)
  }

  // ---------------------------------------------------------------- existence

  /** The clause for one property: the value bare when `isNaN` accepts it, quoted otherwise. */
  function ExistTerm(k: string, v: Value): string {
    "`" + k + "` = " + SqlMaker.InsertLiteral(v)
  }

  function ExistTerms(condition: seq<(string, Value)>): (r: seq<string>)
    ensures |r| == |condition|
  {
    seq(|condition|, i requires 0 <= i < |condition| => ExistTerm(condition[i].0, condition[i].1))
  }

  /** The where-clause `isExist` builds: every clause followed by ` and`, then the last
      four characters cut off (`substr` with a negative length gives the empty string).
      The result is the clauses joined by ` and`. */
  function ExistCondition(condition: seq<(string, Value)>): (r: string)
    ensures |condition| > 0 ==> r == Join(" and", ExistTerms(condition))
    ensures |condition| == 0 ==> r == ""
  {
    var acc := Terminated(" and", ExistTerms(condition));
    if |condition| > 0 then
      TerminatedIsJoin(" and", ExistTerms(condition));
      acc[..|acc| - 4]
    else ""
  }

  predicate MeetsAll(row: Row, condition: seq<(string, Value)>) {
    forall i | 0 <= i < |condition| :: FieldIs(row, condition[i].0, condition[i].1)
  }

  /** `DataMgr.prototype.isExist`: true exactly when some stored row meets every
      property of the condition. An empty condition leaves the where-clause empty,
      which the store rejects. */
  function IsExist(db: Db, table: string, condition: Option<seq<(string, Value)>>, storeFails: bool): (r: Result<bool, Error>)
    ensures table == "" || condition.None? ==> r == Failure(ParamsNull)
    ensures table != "" && condition == Some([]) ==> r == Failure(StoreFailed("select * from `" + table + "` where "))
    ensures r.Success? <==> table != "" && condition.Some? && condition.value != [] && !storeFails
    ensures r.Success? ==> (r.value <==> exists row | row in TableRows(db, table) :: MeetsAll(row, condition.value))
  {
    if table == "" || condition.None? then Failure(ParamsNull)
    else
      var prefix := "select * from `" + table + "` where ";
      var sql := prefix + ExistCondition(condition.value);
      assert condition.value == [] ==> sql == prefix by {
        assert prefix + "" == prefix;
      }
      if condition.value == [] || storeFails then Failure(StoreFailed(sql))
      else Success(exists row | row in TableRows(db, table) :: MeetsAll(row, condition.value))
  }

  // ---------------------------------------------------------------- cascade entry point

  /** `DataMgr.prototype.deleteRedisCacheByFather`: the stored structures must be
      readable; the cascade itself is `removeCacheByFather`. */
  function DeleteRedisCacheByFather(structures: Option<GameRedis.Structures>, table: string, priValue: Value,
                                    forValue: Option<Value>, ghost rank: map<string, nat>, cache: Cache,
                                    failing: set<(string, Value)>): (r: Result<Cache, Error>)
    requires structures.Some? ==> GameRedis.Ranked(structures.value, rank)
    ensures structures.None? ==> r == Failure(NoStructure(table))
    ensures structures.Some? ==> r == GameRedis.RemoveCacheByFather(table, structures, priValue, forValue, rank, cache, failing)
  {
    if structures.None? then Failure(NoStructure(table))
    else GameRedis.RemoveCacheByFather(table, structures, priValue, forValue, rank, cache, failing)
  }

  // ---------------------------------------------------------------- properties across calls

  /** In a list whose last entry has primary value `v`, a read by `v` finds that entry. */
  lemma HitOnLastEntry(c: Cache, s: Schema.Structure, priValue: Value, forValue: Value, row: Row)
    requires Truthy(priValue) && Matches(row, s.primary, priValue)
    requires var l := Lrange(c, ReadKey(s, priValue, forValue)); l != [] && l[|l| - 1] == row
    ensures GetCache(c, s, priValue, forValue) == Hit(row)
  {
    var l := Lrange(c, ReadKey(s, priValue, forValue));
    var r := GetCache(c, s, priValue, forValue);
    assert !r.NoMatch? by {
      assert Matches(l[|l| - 1], s.primary, priValue);
    }
    var i :| 0 <= i < |l| && l[i] == r.row && Matches(l[i], s.primary, priValue)
      && forall j | i < j < |l| :: !Matches(l[j], s.primary, priValue);
    assert Matches(l[|l| - 1], s.primary, priValue);
    assert i == |l| - 1;
  }

  /** Round trip: after inserting one row into an auto-increment table through the
      cache, reading it back by its generated key returns exactly the row the insert
      reported, straight from the cache, whatever the cache held before and whether
      or not the store could answer the read. */
  lemma InsertThenSelect(dir: Directory, db: Db, cache: Cache, table: string, row: Row, nextId: nat, readFails: bool)
    requires table != "" && table in dir
    requires GameRedis.HasStrategy(dir[table]) && dir[table].autoIncrement != 0 && nextId > 0
    ensures var ins := InsertData(dir, db, cache, table, Some(Single(row)), false, nextId, false);
      && ins.reply.Success? && ins.reply.value.Single?
      && var s := dir[table];
      var stored := ins.reply.value.row;
      && stored == SqlMaker.FillRow(s, row)[FieldName(s.primary) := Num(nextId)]
      && SelectData(dir, ins.db, ins.cache, table, Num(nextId), Get(stored, FieldName(s.foreign)), false, readFails).reply
         == Success(One(stored))
  {
    var s := dir[table];
    var stored := SqlMaker.FillRow(s, row)[FieldName(s.primary) := Num(nextId)];
    InsertOneRow(dir, db, cache, table, row, nextId);
    var ins := InsertData(dir, db, cache, table, Some(Single(row)), false, nextId, false);
    HitOnLastEntry(ins.cache, s, Num(nextId), Get(stored, FieldName(s.foreign)), stored);
  }

  /** The write half of the round trip: the one row is stored with its generated key,
      reported, and becomes the last entry of the list a read by that key looks at. */
  lemma InsertOneRow(dir: Directory, db: Db, cache: Cache, table: string, row: Row, nextId: nat)
    requires table != "" && table in dir
    requires GameRedis.HasStrategy(dir[table]) && dir[table].autoIncrement != 0
    ensures var s := dir[table];
      var stored := SqlMaker.FillRow(s, row)[FieldName(s.primary) := Num(nextId)];
      var ins := InsertData(dir, db, cache, table, Some(Single(row)), false, nextId, false);
      && ins.reply == Success(Single(stored))
      && var l := Lrange(ins.cache, ReadKey(s, Num(nextId), Get(stored, FieldName(s.foreign))));
      l != [] && l[|l| - 1] == stored
  {
    var s := dir[table];
    var stored := SqlMaker.FillRow(s, row)[FieldName(s.primary) := Num(nextId)];
    assert StoredRows(s, RowsOf(SqlMaker.FillPayload(s, Single(row))), nextId) == [stored];
    assert AddKey(s, [stored]) == ReadKey(s, Num(nextId), Get(stored, FieldName(s.foreign)));
  }

  /** A read through the cache by primary value that neither the cached list nor the
      store can answer yields `null`. */
  lemma ReadOfAbsentRow(s: Schema.Structure, db: Db, cache: Cache, priValue: Value, forValue: Value)
    requires GameRedis.HasStrategy(s) && Truthy(priValue)
    requires var l := Lrange(cache, ReadKey(s, priValue, forValue));
      forall i | 0 <= i < |l| :: !Matches(l[i], s.primary, priValue)
    requires var rows := TableRows(db, s.name);
      forall i | 0 <= i < |rows| :: !FieldIs(rows[i], FieldName(s.primary), priValue)
    ensures SelectFromRedis(s, db, cache, priValue, forValue, false).reply == Success(Nothing)
  {
    var g := GetCache(cache, s, priValue, forValue);
    assert g.Miss? || g.NoMatch?;
    assert SelectFromDB(s, db, priValue, forValue, false) == Success(Nothing);
  }

  /** After a successful delete by primary value, no stored row of the table has it. */
  lemma DeleteClearsStore(dir: Directory, db: Db, cache: Cache, table: string, priValue: Value, forValue: Value, noCache: bool)
    requires table in dir && Truthy(priValue)
    ensures var o := DeleteData(dir, db, cache, table, priValue, forValue, noCache, false);
      var rows := TableRows(o.db, table);
      forall i | 0 <= i < |rows| :: !FieldIs(rows[i], FieldName(dir[table].primary), priValue)
  {
    var o := DeleteData(dir, db, cache, table, priValue, forValue, noCache, false);
    var rows := TableRows(o.db, table);
    forall i | 0 <= i < |rows| ensures !FieldIs(rows[i], FieldName(dir[table].primary), priValue) {
      assert rows[i] in rows;
    }
  }

  /** A delete by primary value through the cache is not undone by the next read:
      provided the cached list held that primary value only in copies of one row, a
      read by the same values finds it neither in the cache nor in the store. */
  lemma DeleteThenSelect(dir: Directory, db: Db, cache: Cache, table: string, priValue: Value, forValue: Value)
    requires table != "" && table in dir && dir[table].name == table
    requires GameRedis.HasStrategy(dir[table]) && Truthy(priValue)
    requires var s := dir[table];
      var l := Lrange(cache, ReadKey(s, priValue, forValue));
      forall i, j | 0 <= i < |l| && 0 <= j < |l| && Matches(l[i], s.primary, priValue) && Matches(l[j], s.primary, priValue) ::
        l[i] == l[j]
    ensures var del := DeleteData(dir, db, cache, table, priValue, forValue, false, false);
      del.reply.Success? ==> SelectData(dir, del.db, del.cache, table, priValue, forValue, false, false).reply == Success(Nothing)
  {
    var s := dir[table];
    var del := DeleteData(dir, db, cache, table, priValue, forValue, false, false);
    if del.reply.Success? {
      var c1 := RemCache(cache, s, priValue, forValue);
      assert c1.Success? && del.cache == c1.value;
      var l := Lrange(del.cache, ReadKey(s, priValue, forValue));
      assert forall i | 0 <= i < |l| :: !Matches(l[i], s.primary, priValue) by {
        RemCacheClearsPrimary(cache, s, priValue, forValue);
        forall i | 0 <= i < |l| ensures !Matches(l[i], s.primary, priValue) {
          assert l[i] in l;
        }
      }
      DeleteClearsStore(dir, db, cache, table, priValue, forValue, false);
      ReadOfAbsentRow(s, del.db, del.cache, priValue, forValue);
    }
  }

  /** An update keeps every updated row findable by its primary value: the primary
      column is either written with the very value it was matched on or left alone. */
  lemma UpdateKeepsKey(rows: seq<Row>, s: Schema.Structure, json: Row, i: nat)
    requires Truthy(Get(json, FieldName(s.primary)))
    requires i < |rows| && FieldIs(rows[i], FieldName(s.primary), Get(json, FieldName(s.primary)))
    ensures var after := UpdateRows(rows, s, Get(json, FieldName(s.primary)), SqlMaker.FillRow(s, json));
      FieldIs(after[i], FieldName(s.primary), Get(json, FieldName(s.primary)))
  {
    var key, pv, values := FieldName(s.primary), Get(json, FieldName(s.primary)), SqlMaker.FillRow(s, json);
    var after := UpdateRows(rows, s, pv, values);
    var cols := SqlMaker.WrittenFields(s);
    assert Updated(rows, after, key, pv, cols, values);
    if key in cols && key in values {
      assert values[key] == json[key];
      assert Get(after[i], key) == pv;
    } else if key in rows[i] {
      assert Get(after[i], key) == Get(rows[i], key);
    } else {
      assert key !in after[i];
    }
  }

  /** Round trip: after an update straight to the store, a read of the store by the
      object's primary value finds a row holding every written column's new value,
      provided the table held a row with that value. */
  lemma UpdateThenSelect(dir: Directory, db: Db, cache: Cache, table: string, json: Row, i: nat)
    requires table in dir && dir[table].name == table
    requires Truthy(Get(json, FieldName(dir[table].primary)))
    requires i < |TableRows(db, table)| && FieldIs(TableRows(db, table)[i], FieldName(dir[table].primary), Get(json, FieldName(dir[table].primary)))
    ensures var s := dir[table];
      var pv, values := Get(json, FieldName(s.primary)), SqlMaker.FillRow(s, json);
      var u := UpdateData(dir, db, cache, table, json, true, false);
      var d := SelectFromDB(s, u.db, pv, Undefined, false);
      && d.Success? && d.value.One?
      && forall f | f in SqlMaker.WrittenFields(s) && f in values :: f in d.value.row && d.value.row[f] == values[f]
  {
    var s := dir[table];
    var key, pv, values := FieldName(s.primary), Get(json, FieldName(s.primary)), SqlMaker.FillRow(s, json);
    var cols := SqlMaker.WrittenFields(s);
    var u := UpdateData(dir, db, cache, table, json, true, false);
    var before, after := TableRows(db, table), TableRows(u.db, table);
    assert after == UpdateRows(before, s, pv, values);
    assert Updated(before, after, key, pv, cols, values);
    UpdateKeepsKey(before, s, json, i);
    var d := SelectFromDB(s, u.db, pv, Undefined, false);
    assert !d.value.Nothing?;
    var j :| 0 <= j < |after| && after[j] == d.value.row && FieldIs(d.value.row, key, pv)
      && forall j' | 0 <= j' < j :: !FieldIs(after[j'], key, pv);
    assert FieldIs(before[j], key, pv);
  }

  /** A row read by primary value and appended to the cache is what the next read
      by that value finds, for a root table. */
  lemma ReadBackByPrimary(s: Schema.Structure, cache: Cache, priValue: Value, forValue: Value, row: Row)
    requires Schema.IsRoot(s) && Truthy(priValue) && FieldIs(row, FieldName(s.primary), priValue)
    ensures AddCache(cache, s, Single(row)).Success?
    ensures GetCache(AddCache(cache, s, Single(row)).value, s, priValue, forValue) == Hit(row)
  {
    assert Get(row, FieldName(s.primary)) == priValue;
    assert AddKey(s, [row]) == ReadKey(s, priValue, forValue);
    HitOnLastEntry(AddCache(cache, s, Single(row)).value, s, priValue, forValue, row);
  }

  /** Rows read by foreign value and written to an empty list are what the next read
      by that value finds, for a table with a foreign key. */
  lemma ReadBackByForeign(s: Schema.Structure, cache: Cache, priValue: Value, forValue: Value, rows: seq<Row>)
    requires Named(s.foreign) && !Truthy(priValue) && Truthy(forValue) && rows != []
    requires forall row | row in rows :: FieldIs(row, FieldName(s.foreign), forValue)
    requires Lrange(cache, ReadKey(s, priValue, forValue)) == []
    ensures AddCache(cache, s, Batch(rows)).Success?
    ensures GetCache(AddCache(cache, s, Batch(rows)).value, s, priValue, forValue) == All(rows)
  {
    assert rows[0] in rows;
    assert Get(rows[0], FieldName(s.foreign)) == forValue;
    assert AddKey(s, rows) == ReadKey(s, priValue, forValue);
    assert Lrange(AddCache(cache, s, Batch(rows)).value, ReadKey(s, priValue, forValue)) == [] + rows;
  }

  /** Write-back then hit: once a cache miss has been answered from the store and the
      answer written back, the same read is answered from the cache, with the same
      answer, whatever the store holds or does by then. This holds for reads by primary
      value of a root table and for reads by foreign value of a table with a foreign
      key, the two shapes whose write-back key is the key the read looks at. */
  lemma SecondReadHits(s: Schema.Structure, db: Db, cache: Cache, priValue: Value, forValue: Value, storeFails: bool,
                       db2: Db, storeFails2: bool)
    requires GameRedis.HasStrategy(s)
    requires Truthy(priValue) ==> Schema.IsRoot(s)
    requires !Truthy(priValue) ==> Named(s.foreign)
    ensures var first := SelectFromRedis(s, db, cache, priValue, forValue, storeFails);
      first.reply.Success? && first.reply.value != Nothing && first.reply.value != Many([]) ==>
        SelectFromRedis(s, db2, first.cache, priValue, forValue, storeFails2).reply == first.reply
  {
    var first := SelectFromRedis(s, db, cache, priValue, forValue, storeFails);
    var g := GetCache(cache, s, priValue, forValue);
    if first.reply.Success? && first.reply.value != Nothing && first.reply.value != Many([]) && (g.Miss? || g.NoMatch?) {
      var d := SelectFromDB(s, db, priValue, forValue, storeFails);
      assert first.reply == d && first.cache == Backfill(cache, s, d.value).value;
      var c1 := first.cache;
      if Truthy(priValue) {
        assert GetCache(c1, s, priValue, forValue) == Hit(d.value.row) by {
          ReadBackByPrimary(s, cache, priValue, forValue, d.value.row);
        }
      } else {
        assert GetCache(c1, s, priValue, forValue) == All(d.value.rows) by {
          ReadBackByForeign(s, cache, priValue, forValue, d.value.rows);
        }
      }
      CachedReply(s, db2, c1, priValue, forValue, storeFails2);
    }
  }

  /** A read the cache can answer does not depend on the store. */
  lemma CachedReply(s: Schema.Structure, db: Db, cache: Cache, priValue: Value, forValue: Value, storeFails: bool)
    requires GameRedis.HasStrategy(s)
    ensures GetCache(cache, s, priValue, forValue).Hit? ==>
      SelectFromRedis(s, db, cache, priValue, forValue, storeFails).reply == Success(One(GetCache(cache, s, priValue, forValue).row))
    ensures GetCache(cache, s, priValue, forValue).All? ==>
      SelectFromRedis(s, db, cache, priValue, forValue, storeFails).reply == Success(Many(GetCache(cache, s, priValue, forValue).rows))
  {
  }

  /** The hero table of a small game: `id` is an auto-increment primary key. */
  function HeroTable(): Schema.Structure {
    Schema.Structure("hero", Some("id"), 1, None, None, ["id", "lv"], map["id" := Num(0), "lv" := Num(0)], Schema.ListType)
  }

  function HeroRow(): Row {
    map["id" := Num(1), "lv" := Num(3)]
  }

  /** As written, a condition naming the primary value makes the read return one row,
      and iterating it fails; with the single row treated as a list, the call returns it. */
  lemma ConditionOnPrimaryValue()
    ensures SelectDataByConditionAsWritten(map["hero" := HeroTable()], map["hero" := [HeroRow()]], map[], "hero",
                                           map["id" := Num(1)], true, false).reply == Failure(NotAList)
    ensures SelectDataByCondition(map["hero" := HeroTable()], map["hero" := [HeroRow()]], map[], "hero",
                                  map["id" := Num(1)], true, false).reply == Success(Some([HeroRow()]))
  {
    var db := map["hero" := [HeroRow()]];
    var rows := [HeroRow()];
    assert Filter(rows, "id", Num(1), true) == [HeroRow()] by {
      assert rows[1..] == [];
    }
    assert SelectFromDB(HeroTable(), db, Num(1), Undefined, false) == Success(One(HeroRow()));
    assert InCondition(HeroRow(), map["id" := Num(1)]);
    assert KeepMatching([HeroRow()], map["id" := Num(1)]) == [HeroRow()] by {
      assert [HeroRow()][1..] == [];
    }
  }

  /** The player table: `uid` is a primary key the caller supplies, and it is a word. */
  function PlayerTable(): Schema.Structure {
    Schema.Structure("player", Some("uid"), 0, None, None, ["uid", "lv"], map["uid" := Str(""), "lv" := Num(0)], Schema.ListType)
  }

  function PlayerRow(): Row {
    map["uid" := Str("u7"), "lv" := Num(3)]
  }

  lemma WordKeyIsNotNumeric()
    ensures !BareKeyAccepted(Str("u7"))
  {
    assert "u7"[0] == 'u';
  }

  /** As written, deleting player `u7` puts `u7` bare into the statement, which the store
      rejects, so the row stays; the corrected delete quotes it and removes the row. */
  lemma DeleteByWordKey()
    ensures var dir, db := map["player" := PlayerTable()], map["player" := [PlayerRow()]];
      var asWritten := DeleteDataAsWritten(dir, db, map[], "player", Str("u7"), Undefined, true, false);
      var corrected := DeleteData(dir, db, map[], "player", Str("u7"), Undefined, true, false);
      && asWritten.reply.Failure? && asWritten.db == db
      && corrected.reply.Success? && TableRows(corrected.db, "player") == []
  {
    WordKeyIsNotNumeric();
    var dir, db := map["player" := PlayerTable()], map["player" := [PlayerRow()]];
    var corrected := DeleteData(dir, db, map[], "player", Str("u7"), Undefined, true, false);
    assert FieldIs(PlayerRow(), "uid", Str("u7"));
  }

  /** As written, reading player `u7` from the store is rejected for the same reason;
      the corrected read returns the row. */
  lemma ReadByWordKey()
    ensures SelectFromDBAsWritten(PlayerTable(), map["player" := [PlayerRow()]], Str("u7"), Undefined, false).Failure?
    ensures SelectFromDB(PlayerTable(), map["player" := [PlayerRow()]], Str("u7"), Undefined, false) == Success(One(PlayerRow()))
  {
    WordKeyIsNotNumeric();
    assert FieldIs(PlayerRow(), "uid", Str("u7"));
  }

  /** As written, updating player `u7` is rejected and nothing changes; the corrected
      update writes the new level. */
  lemma UpdateByWordKey()
    ensures var dir, db, json := map["player" := PlayerTable()], map["player" := [PlayerRow()]], map["uid" := Str("u7"), "lv" := Num(4)];
      var asWritten := UpdateDataAsWritten(dir, db, map[], "player", json, true, false);
      var corrected := UpdateData(dir, db, map[], "player", json, true, false);
      && asWritten.reply.Failure? && asWritten.db == db
      && corrected.reply.Success?
      && |TableRows(corrected.db, "player")| == 1 && Get(TableRows(corrected.db, "player")[0], "lv") == Num(4)
  {
    WordKeyIsNotNumeric();
    var json := map["uid" := Str("u7"), "lv" := Num(4)];
    assert Get(json, "uid") == Str("u7");
    assert SqlMaker.WrittenFields(PlayerTable()) == ["uid", "lv"];
    assert "lv" in SqlMaker.FillRow(PlayerTable(), json) && SqlMaker.FillRow(PlayerTable(), json)["lv"] == Num(4);
    assert FieldIs(PlayerRow(), "uid", Str("u7"));
  }

  /** Removing by primary value from a list holding two different versions of the
      row drops only the first. */
  lemma RemovalKeepsLaterCopy(c: Cache, s: Schema.Structure, priValue: Value, forValue: Value, a: Row, b: Row)
    requires Truthy(priValue) && a != b && Matches(a, s.primary, priValue)
    requires Lrange(c, ReadKey(s, priValue, forValue)) == [a, b]
    ensures var r := RemCache(c, s, priValue, forValue);
      r.Success? && Lrange(r.value, ReadKey(s, priValue, forValue)) == [b]
  {
    assert FirstMatch([a, b], s.primary, priValue) == Some(0);
    assert RemoveAll([a, b], a) == [b] by {
      assert [a, b] == [a] + [b];
      RemoveAllAppend([a], [b], a);
      assert [a][1..] == [] && [b][1..] == [];
    }
  }

  /** The stale read: when the cached list holds two different versions of a row, a
      delete by its primary value removes only the first (the removal matches the first
      entry, a read returns the last), so the next read still returns the second from
      the cache, although the store no longer holds the row. */
  lemma DeleteLeavesLaterCopy(dir: Directory, db: Db, cache: Cache, table: string, priValue: Value, forValue: Value,
                              a: Row, b: Row, readFails: bool)
    requires table != "" && table in dir && GameRedis.HasStrategy(dir[table]) && Truthy(priValue)
    requires var s := dir[table];
      && Lrange(cache, ReadKey(s, priValue, forValue)) == [a, b]
      && a != b && Matches(a, s.primary, priValue) && Matches(b, s.primary, priValue)
    ensures var s := dir[table];
      var del := DeleteData(dir, db, cache, table, priValue, forValue, false, false);
      && del.reply.Success?
      && (forall row | row in TableRows(del.db, table) :: !FieldIs(row, FieldName(s.primary), priValue))
      && SelectData(dir, del.db, del.cache, table, priValue, forValue, false, readFails).reply == Success(One(b))
  {
    var s := dir[table];
    RemovalKeepsLaterCopy(cache, s, priValue, forValue, a, b);
    var del := DeleteData(dir, db, cache, table, priValue, forValue, false, false);
    assert del.cache == RemCache(cache, s, priValue, forValue).value;
    assert Lrange(del.cache, ReadKey(s, priValue, forValue)) == [b];
    HitOnLastEntry(del.cache, s, priValue, forValue, b);
    CachedReply(s, del.db, del.cache, priValue, forValue, readFails);
  }

  /** Round trip through the cache: an update whose list holds the row once is seen by
      the next cached read of that list, whatever the store does by then. */
  lemma UpdateThenCachedRead(dir: Directory, db: Db, cache: Cache, table: string, json: Row, forValue: Value, i: nat,
                             readFails: bool)
    requires table != "" && table in dir && GameRedis.HasStrategy(dir[table])
    requires FieldName(dir[table].primary) in dir[table].fields && Truthy(Get(json, FieldName(dir[table].primary)))
    requires var s := dir[table];
      ReadKey(s, Get(json, FieldName(s.primary)), forValue) == UpdKey(s, SqlMaker.FillRow(s, json))
    requires var s, pv := dir[table], Get(json, FieldName(dir[table].primary));
      var l := Lrange(cache, ReadKey(s, pv, forValue));
      i < |l| && Matches(l[i], s.primary, pv) && forall j | 0 <= j < |l| && j != i :: !Matches(l[j], s.primary, pv)
    ensures var s, pv := dir[table], Get(json, FieldName(dir[table].primary));
      var u := UpdateData(dir, db, cache, table, json, false, false);
      && u.reply.Success?
      && SelectData(dir, u.db, u.cache, table, pv, forValue, false, readFails).reply == Success(One(SqlMaker.FillRow(s, json)))
  {
    var s, pv := dir[table], Get(json, FieldName(dir[table].primary));
    var after := SqlMaker.FillRow(s, json);
    var u := UpdateData(dir, db, cache, table, json, false, false);
    assert u.cache == UpdCache(cache, s, after);
    assert Get(after, FieldName(s.primary)) == pv;
    UpdThenGet(cache, s, after, forValue, i);
    CachedReply(s, u.db, u.cache, pv, forValue, readFails);
  }
}
