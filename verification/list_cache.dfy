/** The "list" cache strategy: the rows of one table that share a parent are kept,
    in insertion order, in one Redis list whose key is `table:parentId`. */
module ListCache {
  import opened Wrappers
  import opened Values
  import opened Seqs
  import Schema

  /** The key-value store as the strategy sees it: key to list of (serialized) rows.
      Serialization is taken to be injective, so rows stand for their JSON text. */
  type Cache = map<string, seq<Row>>

  /** Redis drops a list when its last element goes: no key holds an empty list. */
  ghost predicate Canonical(c: Cache) {
    forall k | k in c :: c[k] != []
  }

  /** `LRANGE key 0 -1`: the whole list, empty when the key is absent. */
  function Lrange(c: Cache, key: string): seq<Row> {
    if key in c then c[key] else []
  }

  /** Writes a whole list back; an empty list removes the key. */
  function Store(c: Cache, key: string, rows: seq<Row>): (r: Cache)
    ensures Lrange(r, key) == rows
    ensures forall k | k != key :: Lrange(r, k) == Lrange(c, k)
    ensures Canonical(c) ==> Canonical(r)
  {
    if rows == [] then c - {key} else c[key := rows]
  }

  /** `List.makeKey`: a table with a foreign field is keyed by the parent's value, a
      root table by the row's own primary value. */
  function MakeKey(tableName: string, foreign: Option<string>, priValue: Value, forValue: Value): (k: string)
    ensures Named(foreign) ==> k == tableName + ":" + Render(forValue)
    ensures !Named(foreign) ==> k == tableName + ":" + Render(priValue)
  {
    tableName + ":" + Render(if Named(foreign) then forValue else priValue)
  }

  /** Keys of two different tables never collide, as long as table names contain no colon. */
  lemma KeysOfDistinctTablesDiffer(t1: string, f1: Option<string>, p1: Value, v1: Value,
                                   t2: string, f2: Option<string>, p2: Value, v2: Value)
    requires ':' !in t1 && ':' !in t2 && t1 != t2
    ensures MakeKey(t1, f1, p1, v1) != MakeKey(t2, f2, p2, v2)
  {
    var k1, k2 := MakeKey(t1, f1, p1, v1), MakeKey(t2, f2, p2, v2);
    assert k1[..|t1|] == t1 && k1[|t1|] == ':';
    assert k2[..|t2|] == t2 && k2[|t2|] == ':';
    if |t1| < |t2| {
      assert k2[|t1|] == t2[|t1|];
    } else if |t2| < |t1| {
      assert k1[|t2|] == t1[|t2|];
    }
  }

  /** A read command built but not yet executed, so that many can go in one batch. */
  datatype CacheOrder = LRangeOrder(key: string, start: int, stop: int)

  /** Redis `LRANGE` index semantics: negative indices count from the end, both ends
      are inclusive and out-of-range ends are clamped. */
  function Slice<T>(l: seq<T>, start: int, stop: int): (r: seq<T>)
    ensures |r| <= |l|
  {
    var n := |l|;
    var a := if start >= 0 then start else if n + start < 0 then 0 else n + start;
    var b := if stop < 0 then n + stop else if stop >= n then n - 1 else stop;
    if a > b || a >= n then [] else l[a..b + 1]
  }

  /** What the store answers to one read command. */
  function Exec(c: Cache, o: CacheOrder): seq<Row> {
    Slice(Lrange(c, o.key), o.start, o.stop)
  }

  /** `List.getCacheOrder`: a command that, whenever it runs, reads the whole list. */
  function GetCacheOrder(key: string): (o: CacheOrder)
    ensures o.key == key
    ensures forall c :: Exec(c, o) == Lrange(c, key)
  {
    var o := LRangeOrder(key, 0, -1);
    assert forall c :: Slice(Lrange(c, key), 0, -1) == Lrange(c, key)[0..|Lrange(c, key)|];
    o
  }

  /** Whether a cached row is the one with primary value `v` (JavaScript `==`). */
  predicate Matches(row: Row, primary: Option<string>, v: Value) {
    LooseEq(v, Get(row, FieldName(primary)))
  }

  /** The index of the last row with primary value `v`, as a forward scan that
      overwrites its answer on every match finds it. */
  function LastMatch(rows: seq<Row>, primary: Option<string>, v: Value): (r: Option<nat>)
    ensures r.None? ==> forall i | 0 <= i < |rows| :: !Matches(rows[i], primary, v)
    ensures r.Some? ==> r.value < |rows| && Matches(rows[r.value], primary, v)
    ensures r.Some? ==> forall j | r.value < j < |rows| :: !Matches(rows[j], primary, v)
  {
    if |rows| == 0 then None
    else if Matches(rows[|rows| - 1], primary, v) then Some(|rows| - 1)
    else LastMatch(rows[..|rows| - 1], primary, v)
  }

  /** The index of the first row with primary value `v`, as a scan that stops at the
      first match finds it. */
  function FirstMatch(rows: seq<Row>, primary: Option<string>, v: Value): (r: Option<nat>)
    ensures r.None? ==> forall i | 0 <= i < |rows| :: !Matches(rows[i], primary, v)
    ensures r.Some? ==> r.value < |rows| && Matches(rows[r.value], primary, v)
    ensures r.Some? ==> forall j | 0 <= j < r.value :: !Matches(rows[j], primary, v)
  {
    if |rows| == 0 then None
    else if Matches(rows[0], primary, v) then Some(0)
    else
      var rest := FirstMatch(rows[1..], primary, v);
      if rest.None? then None else Some(rest.value + 1)
  }

  /** What `getCache` hands its callback: nothing (a miss), `null` (the list exists but
      holds no row with that primary value), one row, or the whole list. */
  datatype Lookup = Miss | NoMatch | Hit(row: Row) | All(rows: seq<Row>)

  /** The key a read for (priValue, forValue) looks at. */
  function ReadKey(s: Schema.Structure, priValue: Value, forValue: Value): string {
    MakeKey(s.name, s.foreign, priValue, forValue)
  }

  /** `List.getCache`. */
  function GetCache(c: Cache, s: Schema.Structure, priValue: Value, forValue: Value): (r: Lookup)
    ensures var l := Lrange(c, ReadKey(s, priValue, forValue));
      && (r.Miss? <==> l == [])
      && (r.All? <==> l != [] && !Truthy(priValue))
      && (r.All? ==> r.rows == l)
      && (r.NoMatch? <==> l != [] && Truthy(priValue) && forall i | 0 <= i < |l| :: !Matches(l[i], s.primary, priValue))
      && (r.Hit? ==> exists i | 0 <= i < |l| ::
            && l[i] == r.row && Matches(l[i], s.primary, priValue)
            && forall j | i < j < |l| :: !Matches(l[j], s.primary, priValue))
  {
    var l := Lrange(c, ReadKey(s, priValue, forValue));
    if |l| == 0 then Miss
    else if !Truthy(priValue) then All(l)
    else
      match LastMatch(l, s.primary, priValue)
      case None => NoMatch
      case Some(i) => Hit(l[i])
  }

  /** The key an append goes to: derived from the first row only. */
  function AddKey(s: Schema.Structure, rows: seq<Row>): string
    requires |rows| > 0
  {
    MakeKey(s.name, s.foreign, Get(rows[0], FieldName(s.primary)), Get(rows[0], FieldName(s.foreign)))
  }

  /** `List.addCache`: appends every given row, in order, to the end of the list of the
      first row's key; other lists are untouched. An empty array has no first row
      (the source throws reading its key). */
  function AddCache(c: Cache, s: Schema.Structure, data: Payload): (r: Result<Cache, Error>)
    ensures r.Failure? <==> RowsOf(data) == []
    ensures r.Failure? ==> r.error == EmptyBatch
    ensures r.Success? ==>
      var k := AddKey(s, RowsOf(data));
      && Lrange(r.value, k) == Lrange(c, k) + RowsOf(data)
      && forall k' | k' != k :: Lrange(r.value, k') == Lrange(c, k')
    ensures r.Success? && Canonical(c) ==> Canonical(r.value)
  {
    var rows := RowsOf(data);
    if |rows| == 0 then Failure(EmptyBatch)
    else
      var k := AddKey(s, rows);
      Success(Store(c, k, Lrange(c, k) + rows))
  }

  /** The key an update goes to: derived from the new row itself. */
  function UpdKey(s: Schema.Structure, json: Row): string {
    MakeKey(s.name, s.foreign, Get(json, FieldName(s.primary)), Get(json, FieldName(s.foreign)))
  }

  /** `List.updCache`: replaces the first entry with the same primary value by the new
      row. A missing list or a list without such an entry is left alone and the call
      still succeeds. */
  function UpdCache(c: Cache, s: Schema.Structure, json: Row): (r: Cache)
    ensures var k, pv := UpdKey(s, json), Get(json, FieldName(s.primary));
      var l := Lrange(c, k);
      && (forall k' | k' != k :: Lrange(r, k') == Lrange(c, k'))
      && |Lrange(r, k)| == |l|
      && ((forall i | 0 <= i < |l| :: !Matches(l[i], s.primary, pv)) ==> r == c)
      && (forall i | 0 <= i < |l| && Matches(l[i], s.primary, pv) && (forall j | 0 <= j < i :: !Matches(l[j], s.primary, pv)) ::
            Lrange(r, k) == l[i := json])
    ensures Canonical(c) ==> Canonical(r)
  {
    var k, pv := UpdKey(s, json), Get(json, FieldName(s.primary));
    var l := Lrange(c, k);
    if |l| == 0 then c
    else
      match FirstMatch(l, s.primary, pv)
      case None => c
      case Some(i) => Store(c, k, l[i := json])
  }

  /** `List.remCache`. Without a primary value the whole list goes. With one, the first
      entry with that primary value is found and every entry equal to it is removed
      (`LREM key 0`); a missing list or no such entry is an error. */
  function RemCache(c: Cache, s: Schema.Structure, priValue: Value, forValue: Value): (r: Result<Cache, Error>)
    ensures var k := ReadKey(s, priValue, forValue);
      var l := Lrange(c, k);
      && (!Truthy(priValue) ==> r.Success? && Lrange(r.value, k) == [])
      && (Truthy(priValue) ==> (r.Failure? <==> forall i | 0 <= i < |l| :: !Matches(l[i], s.primary, priValue)))
      && (r.Failure? ==> r.error == NoCache(s.name, k))
      && (r.Success? ==> forall k' | k' != k :: Lrange(r.value, k') == Lrange(c, k'))
      && (r.Success? && Truthy(priValue) ==>
            var i := FirstMatch(l, s.primary, priValue);
            i.Some? && Lrange(r.value, k) == RemoveAll(l, l[i.value]))
    ensures r.Success? && Canonical(c) ==> Canonical(r.value)
  {
    var k := ReadKey(s, priValue, forValue);
    if !Truthy(priValue) then Success(Store(c, k, []))
    else
      var l := Lrange(c, k);
      if |l| == 0 then Failure(NoCache(s.name, k))
      else
        match FirstMatch(l, s.primary, priValue)
        case None => Failure(NoCache(s.name, k))
        case Some(i) => Success(Store(c, k, RemoveAll(l, l[i])))
  }

  /** When all entries with a given primary value are the same row, removing by that
      value leaves none with it behind. */
  lemma RemCacheClearsPrimary(c: Cache, s: Schema.Structure, priValue: Value, forValue: Value)
    requires Truthy(priValue)
    requires var l := Lrange(c, ReadKey(s, priValue, forValue));
      forall i, j | 0 <= i < |l| && 0 <= j < |l| && Matches(l[i], s.primary, priValue) && Matches(l[j], s.primary, priValue) ::
        l[i] == l[j]
    ensures var r := RemCache(c, s, priValue, forValue);
      r.Success? ==> forall row | row in Lrange(r.value, ReadKey(s, priValue, forValue)) :: !Matches(row, s.primary, priValue)
  {
    var r := RemCache(c, s, priValue, forValue);
    var k := ReadKey(s, priValue, forValue);
    var l := Lrange(c, k);
    if r.Success? {
      var i := FirstMatch(l, s.primary, priValue).value;
      forall row | row in Lrange(r.value, k) ensures !Matches(row, s.primary, priValue) {
        assert row in l && row != l[i];
        var j :| 0 <= j < |l| && l[j] == row;
      }
    }
  }

  /** An update is seen by the next read of its list: when the list holds the row with
      that primary value once, a read by the value returns the new row. */
  lemma UpdThenGet(c: Cache, s: Schema.Structure, json: Row, forValue: Value, i: nat)
    requires Truthy(Get(json, FieldName(s.primary)))
    requires ReadKey(s, Get(json, FieldName(s.primary)), forValue) == UpdKey(s, json)
    requires var pv := Get(json, FieldName(s.primary));
      var l := Lrange(c, UpdKey(s, json));
      i < |l| && Matches(l[i], s.primary, pv) && forall j | 0 <= j < |l| && j != i :: !Matches(l[j], s.primary, pv)
    ensures GetCache(UpdCache(c, s, json), s, Get(json, FieldName(s.primary)), forValue) == Hit(json)
  {
    var k, pv := UpdKey(s, json), Get(json, FieldName(s.primary));
    var l := Lrange(c, k);
    var l' := Lrange(UpdCache(c, s, json), k);
    assert l' == l[i := json];
    assert Matches(json, s.primary, pv);
    var r := GetCache(UpdCache(c, s, json), s, pv, forValue);
    assert !r.NoMatch? by {
      assert Matches(l'[i], s.primary, pv);
    }
    var idx :| 0 <= idx < |l'| && l'[idx] == r.row && Matches(l'[idx], s.primary, pv)
      && forall j | idx < j < |l'| :: !Matches(l'[j], s.primary, pv);
    assert idx == i;
  }
}
