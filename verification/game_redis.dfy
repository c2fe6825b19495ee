/** `GameRedis`: dispatch of the cache operations to the strategy a table names, and
    the cascade that drops the cache of a row and of everything below it. */
module GameRedis {
  import opened Wrappers
  import opened Values
  import Schema
  import opened ListCache

  /** Whether the strategy the structure names has a model (only "list" does). */
  predicate HasStrategy(s: Schema.Structure) {
    s.redisType == Schema.ListType
  }

  /** `addRedisCache`: delegates to the structure's strategy. */
  function AddRedisCache(c: Cache, s: Schema.Structure, data: Payload): (r: Result<Cache, Error>)
    ensures HasStrategy(s) ==> r == AddCache(c, s, data)
    ensures !HasStrategy(s) ==> r == Failure(UnknownStrategy(s.redisType))
  {
    if HasStrategy(s) then AddCache(c, s, data) else Failure(UnknownStrategy(s.redisType))
  }

  /** `getRedisCache`: delegates to the structure's strategy. */
  function GetRedisCache(c: Cache, s: Schema.Structure, priValue: Value, forValue: Value): (r: Result<Lookup, Error>)
    ensures HasStrategy(s) ==> r == Success(GetCache(c, s, priValue, forValue))
    ensures !HasStrategy(s) ==> r == Failure(UnknownStrategy(s.redisType))
  {
    if HasStrategy(s) then Success(GetCache(c, s, priValue, forValue)) else Failure(UnknownStrategy(s.redisType))
  }

  /** `updateRedisCache`: delegates to the structure's strategy. */
  function UpdateRedisCache(c: Cache, s: Schema.Structure, json: Row): (r: Result<Cache, Error>)
    ensures HasStrategy(s) ==> r == Success(UpdCache(c, s, json))
    ensures !HasStrategy(s) ==> r == Failure(UnknownStrategy(s.redisType))
  {
    if HasStrategy(s) then Success(UpdCache(c, s, json)) else Failure(UnknownStrategy(s.redisType))
  }

  /** `removeRedisCache`: delegates to the structure's strategy. */
  function RemoveRedisCache(c: Cache, s: Schema.Structure, priValue: Value, forValue: Value): (r: Result<Cache, Error>)
    ensures HasStrategy(s) ==> r == RemCache(c, s, priValue, forValue)
    ensures !HasStrategy(s) ==> r == Failure(UnknownStrategy(s.redisType))
  {
    if HasStrategy(s) then RemCache(c, s, priValue, forValue) else Failure(UnknownStrategy(s.redisType))
  }

  // ---------------------------------------------------------------------------
  // Cascade invalidation (`removeCacheByFather`)
  // ---------------------------------------------------------------------------

  /** The parsed structures of all tables, by table name. */
  type Structures = map<string, Schema.Structure>

  /** A witness that the sons graph has no cycle: every son with a schema sits strictly
      lower than its father. The source does not check this; on a cyclic graph with
      matching cached rows it would not terminate. */
  ghost predicate Ranked(st: Structures, rank: map<string, nat>) {
    forall t | t in st :: t in rank && SonsBelow(st, rank, t)
  }

  ghost predicate SonsBelow(st: Structures, rank: map<string, nat>, t: string)
    requires t in st && t in rank
  {
    st[t].sons.Some? ==> forall s | s in st[t].sons.value && s in st :: s in rank && rank[s] < rank[t]
  }

  /** A son table the cascade can handle: it has a schema and a modelled strategy. */
  predicate Usable(st: Structures, s: string) {
    s in st && HasStrategy(st[s])
  }

  /** The cache key of the rows of `son` under a father row with primary value `pv`:
      the father's primary value is the son's foreign value. */
  function SonKey(st: Structures, son: string, pv: Value): (k: string)
    requires son in st
    ensures Named(st[son].foreign) ==> k == son + ":" + Render(pv)
    ensures !Named(st[son].foreign) ==> k == son + ":0"
  {
    MakeKey(son, st[son].foreign, Num(0), pv)
  }

  /** The keys of all sons, computed (and added to the delete list) before the batch
      read. A son without a schema, or with a strategy without a model, throws. */
  function SonKeys(st: Structures, sons: seq<string>, pv: Value): (r: Result<seq<string>, Error>)
    ensures r.Success? <==> forall i | 0 <= i < |sons| :: Usable(st, sons[i])
    ensures r.Success? ==> |r.value| == |sons| && forall i | 0 <= i < |sons| :: r.value[i] == SonKey(st, sons[i], pv)
  {
    if |sons| == 0 then Success([])
    else if sons[0] !in st then Failure(MissingTable(sons[0]))
    else if !HasStrategy(st[sons[0]]) then Failure(UnknownStrategy(st[sons[0]].redisType))
    else
      match SonKeys(st, sons[1..], pv)
      case Failure(e) => Failure(e)
      case Success(rest) => Success([SonKey(st, sons[0], pv)] + rest)
  }

  /** Joins two branches: any failure stops the whole cascade. */
  function Combine(a: Result<set<string>, Error>, b: Result<set<string>, Error>): (r: Result<set<string>, Error>)
    ensures r.Success? <==> a.Success? && b.Success?
    ensures r.Success? ==> r.value == a.value + b.value
  {
    if a.Failure? then a else if b.Failure? then b else Success(a.value + b.value)
  }

  /** The primary value of a cached son row, which becomes the father value one level down. */
  function RowPrimary(st: Structures, son: string, row: Row): Value
    requires son in st
  {
    Get(row, FieldName(st[son].primary))
  }

  /** Whether the key `k` lies below the row of table `t` with primary value `pv`, as
      the cascade means to find it: it is the list key of one of `t`'s sons under `pv`,
      or, when the batch read at this row goes through, it lies below one of the rows
      cached in such a list. */
  ghost predicate Below(st: Structures, rank: map<string, nat>, c: Cache, failing: set<(string, Value)>,
                        t: string, pv: Value, k: string)
    requires Ranked(st, rank) && t in st
    decreases rank[t]
  {
    && st[t].sons.Some?
    && ((exists s | s in st[t].sons.value && s in st :: k == SonKey(st, s, pv))
        || ((t, pv) !in failing
            && exists s, row | s in st[t].sons.value && s in st && row in Lrange(c, SonKey(st, s, pv)) ::
                 Below(st, rank, c, failing, s, RowPrimary(st, s, row), k)))
  }

  /** `k` lies below one of the rows `rows` of table `s`. */
  ghost predicate BelowRows(st: Structures, rank: map<string, nat>, c: Cache, failing: set<(string, Value)>,
                            s: string, rows: seq<Row>, k: string)
    requires Ranked(st, rank) && s in st
  {
    exists row | row in rows :: Below(st, rank, c, failing, s, RowPrimary(st, s, row), k)
  }

  /** `k` lies below one of the rows cached for the sons `sons` under the father value `pv`. */
  ghost predicate BelowSons(st: Structures, rank: map<string, nat>, c: Cache, failing: set<(string, Value)>,
                            sons: seq<string>, pv: Value, k: string)
    requires Ranked(st, rank) && forall s | s in sons :: s in st
  {
    exists s, row | s in sons && row in Lrange(c, SonKey(st, s, pv)) :: Below(st, rank, c, failing, s, RowPrimary(st, s, row), k)
  }

  lemma BelowRowsCons(st: Structures, rank: map<string, nat>, c: Cache, failing: set<(string, Value)>,
                      s: string, rows: seq<Row>)
    requires Ranked(st, rank) && s in st && |rows| > 0
    ensures forall k :: BelowRows(st, rank, c, failing, s, rows, k) <==>
      Below(st, rank, c, failing, s, RowPrimary(st, s, rows[0]), k) || BelowRows(st, rank, c, failing, s, rows[1..], k)
  {
    forall k ensures BelowRows(st, rank, c, failing, s, rows, k) <==>
      Below(st, rank, c, failing, s, RowPrimary(st, s, rows[0]), k) || BelowRows(st, rank, c, failing, s, rows[1..], k)
    {
      if BelowRows(st, rank, c, failing, s, rows, k) {
        var row :| row in rows && Below(st, rank, c, failing, s, RowPrimary(st, s, row), k);
        if row != rows[0] {
          assert row in rows[1..];
        }
      }
      if BelowRows(st, rank, c, failing, s, rows[1..], k) {
        var row :| row in rows[1..] && Below(st, rank, c, failing, s, RowPrimary(st, s, row), k);
        assert row in rows;
      }
    }
  }

  lemma BelowSonsCons(st: Structures, rank: map<string, nat>, c: Cache, failing: set<(string, Value)>,
                      sons: seq<string>, pv: Value)
    requires Ranked(st, rank) && |sons| > 0 && forall s | s in sons :: s in st
    ensures forall k :: BelowSons(st, rank, c, failing, sons, pv, k) <==>
      BelowRows(st, rank, c, failing, sons[0], Lrange(c, SonKey(st, sons[0], pv)), k) || BelowSons(st, rank, c, failing, sons[1..], pv, k)
  {
    forall k ensures BelowSons(st, rank, c, failing, sons, pv, k) <==>
      BelowRows(st, rank, c, failing, sons[0], Lrange(c, SonKey(st, sons[0], pv)), k) || BelowSons(st, rank, c, failing, sons[1..], pv, k)
    {
      if BelowSons(st, rank, c, failing, sons, pv, k) {
        var s, row :| s in sons && row in Lrange(c, SonKey(st, s, pv)) && Below(st, rank, c, failing, s, RowPrimary(st, s, row), k);
        if s != sons[0] {
          assert s in sons[1..];
        }
      }
      if BelowSons(st, rank, c, failing, sons[1..], pv, k) {
        var s, row :| s in sons[1..] && row in Lrange(c, SonKey(st, s, pv)) && Below(st, rank, c, failing, s, RowPrimary(st, s, row), k);
        assert s in sons;
      }
    }
  }

  /** Whether the walk below the row of `t` with primary value `pv` completes: every
      son table it meets has a schema and a modelled strategy (otherwise the source
      throws a `TypeError`), all the way down through the cached rows it reads. */
  ghost predicate WalkOk(st: Structures, rank: map<string, nat>, c: Cache, failing: set<(string, Value)>,
                         t: string, pv: Value)
    requires Ranked(st, rank) && t in st
    decreases rank[t]
  {
    st[t].sons.Some? ==>
      && (forall s | s in st[t].sons.value :: Usable(st, s))
      && ((t, pv) !in failing ==>
            forall s, row | s in st[t].sons.value && s in st && row in Lrange(c, SonKey(st, s, pv)) ::
              WalkOk(st, rank, c, failing, s, RowPrimary(st, s, row)))
  }

  /** `getSonOrder(t, pv)`: the keys collected below the row of table `t` with primary
      value `pv`. `failing` holds the (table, value) pairs whose batch read fails. */
  function Explore(st: Structures, ghost rank: map<string, nat>, c: Cache, failing: set<(string, Value)>,
                   t: string, pv: Value): (r: Result<set<string>, Error>)
    requires Ranked(st, rank) && t in st
    ensures r.Success? <==> WalkOk(st, rank, c, failing, t, pv)
    ensures r.Success? ==> forall k | k in r.value :: Below(st, rank, c, failing, t, pv, k)
    ensures st[t].sons.None? ==> r == Success({})
    ensures r.Success? && st[t].sons.Some? ==>
      forall s | s in st[t].sons.value :: s in st && SonKey(st, s, pv) in r.value
    ensures r.Success? && st[t].sons.Some? && (t, pv) in failing ==>
      r.value == set s | s in st[t].sons.value && s in st :: SonKey(st, s, pv)
    decreases rank[t], 2, 0
  {
    match st[t].sons
    case None => Success({})
    case Some(sons) =>
      match SonKeys(st, sons, pv)
      case Failure(e) => Failure(e)
      case Success(keys) =>
        var own := set s | s in sons && s in st :: SonKey(st, s, pv);
        assert forall s | s in sons :: s in st by {
          forall s | s in sons ensures s in st {
            var i :| 0 <= i < |sons| && sons[i] == s;
          }
        }
        if (t, pv) in failing then Success(own)
        else Combine(Success(own), ExploreSons(st, rank, c, failing, rank[t], sons, pv))
  }

  /** The rows of every son under the father value `pv`, each explored in turn. */
  function ExploreSons(st: Structures, ghost rank: map<string, nat>, c: Cache, failing: set<(string, Value)>,
                       ghost bound: nat, sons: seq<string>, pv: Value): (r: Result<set<string>, Error>)
    requires Ranked(st, rank)
    requires forall s | s in sons :: s in st && rank[s] < bound
    ensures r.Success? <==>
      forall s, row | s in sons && row in Lrange(c, SonKey(st, s, pv)) ::
        WalkOk(st, rank, c, failing, s, RowPrimary(st, s, row))
    ensures r.Success? ==> forall k | k in r.value :: BelowSons(st, rank, c, failing, sons, pv, k)
    ensures r.Success? ==>
      forall s, row | s in sons && row in Lrange(c, SonKey(st, s, pv)) ::
        var below := Explore(st, rank, c, failing, s, RowPrimary(st, s, row));
        below.Success? && below.value <= r.value
    decreases bound, 1, |sons|
  {
    if |sons| == 0 then Success({})
    else
      var s := sons[0];
      var rows := Exec(c, GetCacheOrder(SonKey(st, s, pv)));
      BelowSonsCons(st, rank, c, failing, sons, pv);
      Combine(ExploreRows(st, rank, c, failing, s, rows), ExploreSons(st, rank, c, failing, bound, sons[1..], pv))
  }

  /** Every cached row of one son, explored with its own primary value. */
  function ExploreRows(st: Structures, ghost rank: map<string, nat>, c: Cache, failing: set<(string, Value)>,
                       s: string, rows: seq<Row>): (r: Result<set<string>, Error>)
    requires Ranked(st, rank) && s in st
    ensures r.Success? <==> forall row | row in rows :: WalkOk(st, rank, c, failing, s, RowPrimary(st, s, row))
    ensures r.Success? ==> forall k | k in r.value :: BelowRows(st, rank, c, failing, s, rows, k)
    ensures r.Success? ==>
      forall row | row in rows ::
        var below := Explore(st, rank, c, failing, s, RowPrimary(st, s, row));
        below.Success? && below.value <= r.value
    decreases rank[s], 3, |rows|
  {
    if |rows| == 0 then Success({})
    else
      var first := Explore(st, rank, c, failing, s, RowPrimary(st, s, rows[0]));
      var rest := ExploreRows(st, rank, c, failing, s, rows[1..]);
      BelowRowsCons(st, rank, c, failing, s, rows);
      Combine(first, rest)
  }

  /** A row's cached son rows are all explored, each with its own primary value, and
      everything found below them is deleted too, unless the batch read at that row
      failed. */
  lemma ExploreReachesCachedRows(st: Structures, rank: map<string, nat>, c: Cache, failing: set<(string, Value)>,
                                 t: string, pv: Value, s: string, row: Row)
    requires Ranked(st, rank) && t in st && s in st
    requires st[t].sons.Some? && s in st[t].sons.value
    ensures var top := Explore(st, rank, c, failing, t, pv);
      top.Success? && (t, pv) !in failing && row in Lrange(c, SonKey(st, s, pv)) ==>
        var below := Explore(st, rank, c, failing, s, RowPrimary(st, s, row));
        below.Success? && below.value <= top.value
  {
    var top := Explore(st, rank, c, failing, t, pv);
    if top.Success? && (t, pv) !in failing && row in Lrange(c, SonKey(st, s, pv)) {
      var sons := st[t].sons.value;
      assert SonKeys(st, sons, pv).Success?;
      assert forall x | x in sons :: x in st by {
        forall x | x in sons ensures x in st {
          var i :| 0 <= i < |sons| && sons[i] == x;
        }
      }
    }
  }

  /** When no son list under `pv` is cached, exploring the sons finds nothing more. */
  lemma {:induction false} ExploreSonsUncached(st: Structures, rank: map<string, nat>, c: Cache,
                                              failing: set<(string, Value)>, bound: nat, sons: seq<string>, pv: Value)
    requires Ranked(st, rank)
    requires forall s | s in sons :: s in st && rank[s] < bound
    requires forall s | s in sons :: SonKey(st, s, pv) !in c
    ensures ExploreSons(st, rank, c, failing, bound, sons, pv) == Success({})
  {
    if |sons| > 0 {
      ExploreSonsUncached(st, rank, c, failing, bound, sons[1..], pv);
      assert Exec(c, GetCacheOrder(SonKey(st, sons[0], pv))) == [];
      var empty: set<string> := {};
      assert empty + empty == empty;
    }
  }

  /** When the cascade succeeds: the parameters pass the checks made up front, the
      father table has a schema, and the walk below the father row completes. */
  ghost predicate CascadeRuns(fatherName: string, structures: Option<Structures>, priValue: Value,
                              rank: map<string, nat>, c: Cache, failing: set<(string, Value)>)
    requires structures.Some? ==> Ranked(structures.value, rank)
  {
    && fatherName != "" && Truthy(priValue) && structures.Some? && fatherName in structures.value
    && WalkOk(structures.value, rank, c, failing, fatherName, priValue)
  }

  /** The checks `removeCacheByFather` makes before anything else, then the keys found
      below the father row. */
  function CascadeKeys(fatherName: string, structures: Option<Structures>, priValue: Value,
                       ghost rank: map<string, nat>, c: Cache, failing: set<(string, Value)>): (r: Result<set<string>, Error>)
    requires structures.Some? ==> Ranked(structures.value, rank)
    ensures fatherName == "" || !Truthy(priValue) || structures.None? ==> r == Failure(ParamsNull)
    ensures fatherName != "" && Truthy(priValue) && structures.Some? && fatherName !in structures.value ==>
      r == Failure(NoTable(fatherName))
    ensures r.Success? <==> CascadeRuns(fatherName, structures, priValue, rank, c, failing)
    ensures r.Success? ==> forall k | k in r.value :: Below(structures.value, rank, c, failing, fatherName, priValue, k)
  {
    if fatherName == "" || !Truthy(priValue) || structures.None? then Failure(ParamsNull)
    else if fatherName !in structures.value then Failure(NoTable(fatherName))
    else Explore(structures.value, rank, c, failing, fatherName, priValue)
  }

  /** The foreign value the caller gave, or the literal `'*'` when it was omitted. */
  function ForValueOrWildcard(forValue: Option<Value>): (v: Value)
    ensures forValue.None? ==> v == Str("*")
    ensures forValue.Some? ==> v == forValue.value
  {
    if forValue.Some? then forValue.value else Str("*")
  }

  /** The root key exactly as the source builds it: `fatherName:forValue`. */
  function RootKeyAsWritten(fatherName: string, forValue: Option<Value>): string {
    fatherName + ":" + Render(ForValueOrWildcard(forValue))
  }

  /** `removeCacheByFather` as written: the root key plus everything found below,
      deleted in one bulk delete; on any error nothing is deleted. */
  function RemoveCacheByFatherAsWritten(fatherName: string, structures: Option<Structures>, priValue: Value,
                                        forValue: Option<Value>, ghost rank: map<string, nat>, c: Cache,
                                        failing: set<(string, Value)>): (r: Result<Cache, Error>)
    requires structures.Some? ==> Ranked(structures.value, rank)
    ensures r.Success? <==> CascadeRuns(fatherName, structures, priValue, rank, c, failing)
    ensures r.Success? ==> RootKeyAsWritten(fatherName, forValue) !in r.value
    ensures r.Success? ==> forall k | k in r.value :: k in c && r.value[k] == c[k]
    ensures r.Success? ==>
      forall k | k in c && k != RootKeyAsWritten(fatherName, forValue)
                 && !Below(structures.value, rank, c, failing, fatherName, priValue, k) ::
        k in r.value && r.value[k] == c[k]
  {
    match CascadeKeys(fatherName, structures, priValue, rank, c, failing)
    case Failure(e) => Failure(e)
    case Success(keys) => Success(c - ({RootKeyAsWritten(fatherName, forValue)} + keys))
  }

  /** Once the up-front checks pass, the keys are those the walk below the father row
      collects. */
  lemma CascadeKeysOfTable(fatherName: string, st: Structures, priValue: Value, rank: map<string, nat>,
                           c: Cache, failing: set<(string, Value)>)
    requires Ranked(st, rank) && fatherName != "" && Truthy(priValue) && fatherName in st
    ensures CascadeKeys(fatherName, Some(st), priValue, rank, c, failing) == Explore(st, rank, c, failing, fatherName, priValue)
  {
  }

  /** As written, what survives a cascade whose walk succeeds: every list except the key
      `fatherName:forValue` and the collected ones. */
  lemma AsWrittenSurvivors(fatherName: string, st: Structures, priValue: Value, forValue: Option<Value>,
                           rank: map<string, nat>, c: Cache, failing: set<(string, Value)>)
    requires Ranked(st, rank) && fatherName != "" && Truthy(priValue) && fatherName in st
    ensures var keys := Explore(st, rank, c, failing, fatherName, priValue);
      var r := RemoveCacheByFatherAsWritten(fatherName, Some(st), priValue, forValue, rank, c, failing);
      keys.Success? ==>
        r.Success? && forall k :: k in r.value <==> k in c && k != RootKeyAsWritten(fatherName, forValue) && k !in keys.value
  {
    CascadeKeysOfTable(fatherName, st, priValue, rank, c, failing);
  }

  /** The cache key of the father row itself, as every other operation derives it. */
  function RootKey(st: Structures, fatherName: string, priValue: Value, forValue: Option<Value>): (k: string)
    requires fatherName in st
    ensures Schema.IsRoot(st[fatherName]) ==> k == fatherName + ":" + Render(priValue)
  {
    MakeKey(fatherName, st[fatherName].foreign, priValue, ForValueOrWildcard(forValue))
  }

  /** `removeCacheByFather` with the root key derived the way the father row is cached,
      so that the row's own list goes too. Everything else is as written. */
  function RemoveCacheByFather(fatherName: string, structures: Option<Structures>, priValue: Value,
                               forValue: Option<Value>, ghost rank: map<string, nat>, c: Cache,
                               failing: set<(string, Value)>): (r: Result<Cache, Error>)
    requires structures.Some? ==> Ranked(structures.value, rank)
    ensures fatherName == "" || !Truthy(priValue) || structures.None? ==> r == Failure(ParamsNull)
    ensures fatherName != "" && Truthy(priValue) && structures.Some? && fatherName !in structures.value ==>
      r == Failure(NoTable(fatherName))
    ensures r.Success? ==> structures.Some? && fatherName in structures.value
    ensures r.Success? <==> CascadeRuns(fatherName, structures, priValue, rank, c, failing)
    ensures r.Success? ==> RootKey(structures.value, fatherName, priValue, forValue) !in r.value
    ensures r.Success? ==> forall k | k in r.value :: k in c && r.value[k] == c[k]
    ensures r.Success? ==>
      forall k | k in c && k != RootKey(structures.value, fatherName, priValue, forValue)
                 && !Below(structures.value, rank, c, failing, fatherName, priValue, k) ::
        k in r.value && r.value[k] == c[k]
  {
    match CascadeKeys(fatherName, structures, priValue, rank, c, failing)
    case Failure(e) => Failure(e)
    case Success(keys) => Success(c - ({RootKey(structures.value, fatherName, priValue, forValue)} + keys))
  }

  /** The other half of the exact characterisation: everything below the row is
      collected when the walk succeeds. */
  lemma {:induction false} ExploreCollectsBelow(st: Structures, rank: map<string, nat>, c: Cache,
                                                failing: set<(string, Value)>, t: string, pv: Value, k: string)
    requires Ranked(st, rank) && t in st
    ensures Explore(st, rank, c, failing, t, pv).Success? && Below(st, rank, c, failing, t, pv, k) ==>
      k in Explore(st, rank, c, failing, t, pv).value
    decreases rank[t]
  {
    var r := Explore(st, rank, c, failing, t, pv);
    if r.Success? && Below(st, rank, c, failing, t, pv, k) {
      var sons := st[t].sons.value;
      if s :| s in sons && s in st && k == SonKey(st, s, pv) {
      } else {
        var s, row :| s in sons && s in st && row in Lrange(c, SonKey(st, s, pv))
          && Below(st, rank, c, failing, s, RowPrimary(st, s, row), k);
        ExploreReachesCachedRows(st, rank, c, failing, t, pv, s, row);
        ExploreCollectsBelow(st, rank, c, failing, s, RowPrimary(st, s, row), k);
      }
    }
  }

  /** After a successful cascade, no key below the father row is left. Together with
      the contract of `RemoveCacheByFather` this says exactly which lists remain:
      those of the cache other than the row's own key and the keys below it. */
  lemma CascadeDeletesBelow(fatherName: string, st: Structures, priValue: Value, forValue: Option<Value>,
                            rank: map<string, nat>, c: Cache, failing: set<(string, Value)>, k: string)
    requires Ranked(st, rank) && fatherName in st
    ensures var r := RemoveCacheByFather(fatherName, Some(st), priValue, forValue, rank, c, failing);
      r.Success? && Below(st, rank, c, failing, fatherName, priValue, k) ==> k !in r.value
  {
    var r := RemoveCacheByFather(fatherName, Some(st), priValue, forValue, rank, c, failing);
    if r.Success? && Below(st, rank, c, failing, fatherName, priValue, k) {
      assert CascadeKeys(fatherName, Some(st), priValue, rank, c, failing) == Explore(st, rank, c, failing, fatherName, priValue);
      ExploreCollectsBelow(st, rank, c, failing, fatherName, priValue, k);
    }
  }

  /** Every direct son list of the father row is gone after a successful cascade, and
      so is every list found below a cached son row. */
  lemma CascadeDropsSonLists(fatherName: string, st: Structures, priValue: Value, forValue: Option<Value>,
                             rank: map<string, nat>, c: Cache, failing: set<(string, Value)>, s: string)
    requires Ranked(st, rank)
    requires RemoveCacheByFather(fatherName, Some(st), priValue, forValue, rank, c, failing).Success?
    requires st[fatherName].sons.Some? && s in st[fatherName].sons.value
    ensures s in st
    ensures SonKey(st, s, priValue) !in RemoveCacheByFather(fatherName, Some(st), priValue, forValue, rank, c, failing).value
  {
  }

  /** Two levels down: for a cached son row, every list of that row's own sons is gone
      after a successful cascade too, unless the batch read at the father failed. */
  lemma CascadeDropsGrandsonLists(fatherName: string, st: Structures, priValue: Value, forValue: Option<Value>,
                                  rank: map<string, nat>, c: Cache, failing: set<(string, Value)>,
                                  s: string, row: Row, g: string)
    requires Ranked(st, rank)
    requires fatherName in st && st[fatherName].sons.Some? && s in st[fatherName].sons.value && s in st
    requires st[s].sons.Some? && g in st[s].sons.value
    ensures var r := RemoveCacheByFather(fatherName, Some(st), priValue, forValue, rank, c, failing);
      r.Success? && (fatherName, priValue) !in failing && row in Lrange(c, SonKey(st, s, priValue)) ==>
        g in st && SonKey(st, g, RowPrimary(st, s, row)) !in r.value
  {
    var r := RemoveCacheByFather(fatherName, Some(st), priValue, forValue, rank, c, failing);
    if r.Success? && (fatherName, priValue) !in failing && row in Lrange(c, SonKey(st, s, priValue)) {
      assert CascadeKeys(fatherName, Some(st), priValue, rank, c, failing) == Explore(st, rank, c, failing, fatherName, priValue);
      ExploreReachesCachedRows(st, rank, c, failing, fatherName, priValue, s, row);
    }
  }

  /** Below a row whose son lists are no longer cached, the cascade only collects the
      (absent) son keys themselves. */
  lemma ExploreOnCleared(st: Structures, rank: map<string, nat>, c: Cache, failing: set<(string, Value)>,
                         t: string, pv: Value)
    requires Ranked(st, rank) && t in st
    requires st[t].sons.Some? ==> forall s | s in st[t].sons.value :: Usable(st, s) && SonKey(st, s, pv) !in c
    ensures Explore(st, rank, c, failing, t, pv).Success?
    ensures forall k | k in Explore(st, rank, c, failing, t, pv).value :: k !in c
  {
    if st[t].sons.Some? {
      var sons := st[t].sons.value;
      assert SonKeys(st, sons, pv).Success?;
      if (t, pv) !in failing {
        ExploreSonsUncached(st, rank, c, failing, rank[t], sons, pv);
      }
    }
  }

  /** Running the cascade a second time on what the first left behind succeeds and
      changes nothing. */
  lemma CascadeIdempotent(fatherName: string, st: Structures, priValue: Value, forValue: Option<Value>,
                          rank: map<string, nat>, c: Cache, failing: set<(string, Value)>,
                          failing2: set<(string, Value)>)
    requires Ranked(st, rank)
    requires RemoveCacheByFather(fatherName, Some(st), priValue, forValue, rank, c, failing).Success?
    ensures var c1 := RemoveCacheByFather(fatherName, Some(st), priValue, forValue, rank, c, failing).value;
      RemoveCacheByFather(fatherName, Some(st), priValue, forValue, rank, c1, failing2) == Success(c1)
  {
    var c1 := RemoveCacheByFather(fatherName, Some(st), priValue, forValue, rank, c, failing).value;
    if st[fatherName].sons.Some? {
      var sons := st[fatherName].sons.value;
      assert SonKeys(st, sons, priValue).Success?;
    }
    ExploreOnCleared(st, rank, c1, failing2, fatherName, priValue);
    var k2 := Explore(st, rank, c1, failing2, fatherName, priValue).value;
    var root := RootKey(st, fatherName, priValue, forValue);
    assert c1 - ({root} + k2) == c1;
  }

  // A guild with one member: `guild` (root, primary `id`, son `guildMember`) and
  // `guildMember` (primary `id`, foreign `guildId`), each with one cached row.

  function GuildTables(): Structures {
    map[
      "guild" := Schema.Structure("guild", Some("id"), 1, None, Some(["guildMember"]), [], map[], Schema.ListType),
      "guildMember" := Schema.Structure("guildMember", Some("id"), 1, Some("guildId"), None, [], map[], Schema.ListType)]
  }

  function GuildRanks(): map<string, nat> {
    map["guild" := 1, "guildMember" := 0]
  }

  function GuildCache(): Cache {
    map["guild:1" := [map["id" := Num(1)]],
        "guildMember:1" := [map["id" := Num(10), "guildId" := Num(1)]]]
  }

  lemma GuildRanked()
    ensures Ranked(GuildTables(), GuildRanks())
  {
    var st, rank := GuildTables(), GuildRanks();
    assert SonsBelow(st, rank, "guild");
    assert SonsBelow(st, rank, "guildMember");
  }

  lemma RenderOne()
    ensures Render(Num(1)) == "1"
  {
    assert NatToString(1) == "1";
  }

  /** What exploring below guild 1 collects: the member list key only. */
  lemma GuildExplore()
    ensures Ranked(GuildTables(), GuildRanks())
    ensures Explore(GuildTables(), GuildRanks(), GuildCache(), {}, "guild", Num(1)) == Success({"guildMember:1"})
  {
    GuildRanked();
    var st, rank, c := GuildTables(), GuildRanks(), GuildCache();
    var member := map["id" := Num(10), "guildId" := Num(1)];
    var empty: set<string> := {};
    assert SonKey(st, "guildMember", Num(1)) == "guildMember:1" by {
      RenderOne();
    }
    assert ExploreRows(st, rank, c, {}, "guildMember", [member]) == Success({}) by {
      assert Explore(st, rank, c, {}, "guildMember", RowPrimary(st, "guildMember", member)) == Success({});
      assert [member][1..] == [];
      assert empty + empty == empty;
    }
    assert ExploreSons(st, rank, c, {}, 1, ["guildMember"], Num(1)) == Success({}) by {
      assert Exec(c, GetCacheOrder("guildMember:1")) == [member];
      assert ["guildMember"][1..] == [];
      assert empty + empty == empty;
    }
    assert (set x | x in ["guildMember"] && x in st :: SonKey(st, x, Num(1))) == {"guildMember:1"};
    assert {"guildMember:1"} + empty == {"guildMember:1"};
  }

  /** The keys the cascade from guild 1 collects below the root. */
  lemma GuildCascadeKeys()
    ensures Ranked(GuildTables(), GuildRanks())
    ensures CascadeKeys("guild", Some(GuildTables()), Num(1), GuildRanks(), GuildCache(), {}) == Success({"guildMember:1"})
  {
    GuildExplore();
    CascadeKeysOfTable("guild", GuildTables(), Num(1), GuildRanks(), GuildCache(), {});
  }

  /** As written, cascading from guild 1 deletes `guild:*` and `guildMember:1`, but the
      guild row's own list `guild:1` survives. */
  lemma GuildCascadeAsWrittenKeepsRoot()
    ensures Ranked(GuildTables(), GuildRanks())
    ensures var r := RemoveCacheByFatherAsWritten("guild", Some(GuildTables()), Num(1), None, GuildRanks(), GuildCache(), {});
      r.Success? && "guild:1" in r.value && "guildMember:1" !in r.value
  {
    GuildExplore();
    AsWrittenSurvivors("guild", GuildTables(), Num(1), None, GuildRanks(), GuildCache(), {});
    GuildRootKeyAsWritten();
    var c := GuildCache();
    var keys: set<string> := {"guildMember:1"};
    assert "guild:1" in c;
    assert "guild:1" !in keys by {
      assert |"guild:1"| != |"guildMember:1"|;
    }
  }

  lemma GuildRootKeyAsWritten()
    ensures RootKeyAsWritten("guild", None) != "guild:1"
  {
    var root := RootKeyAsWritten("guild", None);
    assert root[6] == '*' by {
      assert Render(ForValueOrWildcard(None)) == "*";
    }
    assert "guild:1"[6] != root[6];
  }

  lemma GuildRootKey()
    ensures RootKey(GuildTables(), "guild", Num(1), None) == "guild:1"
  {
    RenderOne();
  }

  /** With the root key derived as the row is cached, both lists are gone. */
  lemma GuildCascadeClearsBoth()
    ensures Ranked(GuildTables(), GuildRanks())
    ensures var r := RemoveCacheByFather("guild", Some(GuildTables()), Num(1), None, GuildRanks(), GuildCache(), {});
      r.Success? && "guild:1" !in r.value && "guildMember:1" !in r.value
  {
    GuildCascadeKeys();
    GuildRootKey();
  }
}
