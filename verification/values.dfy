/** JavaScript values, rows and the error kinds the callbacks report. */
module Values {
  import opened Wrappers

  /** A value stored in a row or passed as an argument. JavaScript numbers are
      modelled as integers. */
  datatype Value = Undefined | Null | Bool(b: bool) | Num(n: int) | Str(s: string)

  /** JavaScript truthiness, `!!v`. */
  predicate Truthy(v: Value) {
    match v
    case Undefined => false
    case Null => false
    case Bool(b) => b
    case Num(n) => n != 0
    case Str(s) => s != ""
  }

  predicate Nullish(v: Value) {
    v.Undefined? || v.Null?
  }

  /** JavaScript loose equality `==`: `null == undefined`, otherwise values of the
      model compare structurally (number/string coercion is not modelled). */
  predicate LooseEq(a: Value, b: Value) {
    a == b || (Nullish(a) && Nullish(b))
  }

  /** `String(v)`: the text `+` and `util.format('%s')` produce. */
  function Render(v: Value): string {
    match v
    case Undefined => "undefined"
    case Null => "null"
    case Bool(b) => if b then "true" else "false"
    case Num(n) => IntToString(n)
    case Str(s) => s
  }

  function IntToString(n: int): string {
    if n < 0 then "-" + NatToString(-n) else NatToString(n)
  }

  function NatToString(n: nat): (r: string)
    ensures |r| > 0
    decreases n
  {
    if n < 10 then ["0123456789"[n]] else NatToString(n / 10) + ["0123456789"[n % 10]]
  }

  /** `!isNaN(v)`: whether `Number(v)` is a number. A string counts as numeric when it
      is made of decimal digits only (the empty string converts to 0). */
  predicate IsNumeric(v: Value) {
    match v
    case Undefined => false
    case Null => true
    case Bool(_) => true
    case Num(_) => true
    case Str(s) => forall i | 0 <= i < |s| :: '0' <= s[i] <= '9'
  }

  /** A row: field name to value. A missing field reads as `undefined`. */
  type Row = map<string, Value>

  function Get(row: Row, field: string): Value {
    if field in row then row[field] else Undefined
  }

  /** The property name JavaScript uses for `obj[name]`; a `null` name reads the
      property called "null". */
  function FieldName(name: Option<string>): string {
    match name
    case None => "null"
    case Some(f) => f
  }

  /** `!!name` for a field name that may be `null`. */
  predicate Named(name: Option<string>) {
    name.Some? && name.value != ""
  }

  /** The row argument of insert and cache-append: one object or an array of them. */
  datatype Payload = Single(row: Row) | Batch(rows: seq<Row>)

  function RowsOf(p: Payload): seq<Row> {
    match p
    case Single(row) => [row]
    case Batch(rows) => rows
  }

  /** The errors the callbacks of the layer report. A JavaScript exception thrown
      inside a callback is modelled as the failure that stops the operation. */
  datatype Error =
    | ParamsNull                        // a required argument is missing
    | NoStructure(table: string)        // the schema directory has no such table
    | NoTable(table: string)            // the cascade root is not in the structures map
    | MissingTable(table: string)       // a declared son table has no schema (TypeError)
    | UnknownStrategy(redisType: string) // no modelled cache strategy of that name
    | EmptyBatch                        // appending an empty array (TypeError)
    | NoCache(table: string, key: string) // removing a cache entry that is not there
    | NeedKey                           // neither a primary nor a foreign value
    | NoPrimaryValue(table: string)     // update without a primary value
    | StoreFailed(sql: string)          // the relational store rejected the statement
    | NotAList                          // `forEach` called on a single row (TypeError)
}
