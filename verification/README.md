# game-data-mgr, the cache-aside core, in Dafny

`game-data-mgr` keeps the rows of a MySQL database in Redis for a game server. The
model covers:

- **Table structures.** `Structure` records are built from `describe` columns and completed by an external reference map. A reference gives the foreign key, the son tables and the Redis strategy.
- **The "list" strategy.** The rows of one table that share a parent live in one Redis list under `table:parentId`. `List.makeKey/getCache/addCache/updCache/remCache/getCacheOrder` are modelled as pure transitions over `map<string, seq<Row>>`.
- **`GameRedis`.** It dispatches each cache call to the table's strategy and runs the cascade `removeCacheByFather`. The cascade collects the list keys of every son below a row, recursing on every cached son row, and deletes them in one bulk delete.
- **`SQLMaker`.** It builds the insert, update, delete and select statements, and the rows filled with schema defaults.
- **The engine `DataMgr`.** This covers `insertData`, `deleteData`, `updateData`, `selectData` with its cache-hit / miss / backfill path, `selectDataByCondition`, `isExist` and `deleteRedisCacheByFather`.

Every asynchronous call is modelled as one function. It takes the store (`Db`, rows per table) and the cache as they are before the call. It returns an `Outcome`: what the callback receives, and the store and cache afterwards. Errors passed to a callback, and exceptions a callback would throw, become `Failure` values. A failure of the relational store is a `storeFails` argument. A failing batch read in the cascade is a set `failing` of (table, primary value) pairs.

Files: `wrappers.dfy` (Option, Result), `values.dfy` (JavaScript values, truthiness, `==`, `String()`, `isNaN`), `seqs.dfy` (sequence helpers), `schema.dfy` (`lib/structure/structure.js`), `structure_mgr.dfy` (`lib/structure/index.js`), `list_cache.dfy` (`lib/game-redis/list.js`), `game_redis.dfy` (`lib/game-redis/index.js`), `sql_maker.dfy` (`lib/sql-maker/index.js`), `data_mgr.dfy` (`index.js`).

Notes on the code, each stated as the lines show it:

- **The cascade's root key.** The doc comment of `removeCacheByFather` (lib/game-redis/index.js:82) says it deletes the caches of the root row and of everything below it. The comment at line 107 says the row's own data goes on the delete list. Line 109 then pushes `fatherName:forValue`, which is not that row's key (see Findings). `GameRedis.RemoveCacheByFatherAsWritten` keeps the key as written; `GameRedis.RemoveCacheByFather` uses the row's own key.
- **A failed batch read in the cascade.** Lines 131-134 end that branch of the walk and still complete it, so the keys collected so far are deleted all the same. The set `failing` models which batch reads fail.
- **Cycles.** Nothing checks the sons graph for cycles (lines 110-159); on a cycle with cached rows the walk would not end. The model takes an acyclicity witness, a rank per table, as a precondition.
- **Which cached row a read returns.** A read by primary value keeps the last entry of the list that matches (lib/game-redis/list.js:22-27).
- **Which entries a cache removal drops.** Removal finds the first matching entry and passes it to `LREM key 0`, which drops every entry equal to it (lib/game-redis/list.js:109-118).
- **A read after removing one of two versions of a row.** Removal and update act on the first matching entry (lib/game-redis/list.js:73-79, 108-118), while a read returns the last (lines 22-27). When a list holds two different versions of a row, a delete by primary value removes the first, and the next read returns the second from the cache although the store no longer holds the row (`DataMgr.DeleteLeavesLaterCopy`). Such a list arises when a row whose primary value is already in the list is appended again, by an insert or a backfill.
- **Key values in where clauses.** The delete (index.js:137), the read by primary value (index.js:316) and the update (lib/sql-maker/index.js:106) append the key value to the where clause without quotes. Only the read by foreign value quotes a non-numeric value (index.js:318). MySQL reads a bare `u7` as a column name, so such a statement is rejected (see Findings). `DataMgr.BareKeyAccepted` models which bare values the store accepts: numeric ones.
- **The engine is built from the corrected pieces.** Where the Findings table shows a defect, the code as written is kept in its own member, and the engine uses the corrected one:
  - `DataMgr.InsertData` uses the comma-separated `SqlMaker.MakeInsertSql` and `DataMgr.FinalRows`;
  - `DataMgr.DeleteRedisCacheByFather` uses `GameRedis.RemoveCacheByFather`;
  - `DataMgr.SelectDataByCondition` treats a single row as a one-row list;
  - `DataMgr.DeleteData`, `DataMgr.SelectFromDB` and `DataMgr.UpdateData` quote a non-numeric key value (`DataMgr.KeyCondition`, `SqlMaker.MakeUpdateSqlQuoted`), as line 318 does for the foreign value. `DataMgr.DeleteDataAsWritten`, `DataMgr.SelectFromDBAsWritten` and `DataMgr.UpdateDataAsWritten` keep the bare value.

## Model

| member | source | states |
|---|---|---|
| `Schema.NewStructure` | lib/structure/structure.js:6-14 | a fresh structure is a root table with the given name, no sons, no primary key, autoIncrement 0, no fields and the "list" strategy |
| `Schema.AddColumn` | lib/structure/structure.js:23-29 | one column sets its field's default. It makes that field the primary key exactly when Key is PRI, and sets autoIncrement to 1 exactly when Extra is auto_increment. Otherwise primary and autoIncrement are kept, and name, foreign, sons and strategy are never touched |
| `Schema.AddColumns` | lib/structure/structure.js:22-30 | adding columns never changes a structure's name, foreign key, sons or strategy |
| `Schema.AddColumnsKeys` | lib/structure/structure.js:23-24 | the fields afterwards are exactly the fields before plus the Field of every column |
| `Schema.AddColumnsDefaults` | lib/structure/structure.js:23-24 | every column's field ends up with the Default of the last column of that name |
| `Schema.AddColumnsKeepsOthers` | lib/structure/structure.js:23-24 | fields that no column names keep their old default |
| `Schema.AddColumnsKeepsOrder` | lib/structure/structure.js:23-24 | the enumeration order of the fields stays duplicate-free and in step with the field map; fields already present keep their position, and new ones are appended |
| `Schema.AddColumnsPrimary` | lib/structure/structure.js:25-26 | the primary key is the Field of the last PRI column |
| `Schema.AddColumnsNoPrimary` | lib/structure/structure.js:25-26 | without a PRI column the primary key is left as it was |
| `Schema.AddColumnsAutoIncrement` | lib/structure/structure.js:27-28 | one auto_increment column anywhere sets autoIncrement to 1, whatever columns follow it |
| `Schema.AddColumnsNoAutoIncrement` | lib/structure/structure.js:27-28 | without an auto_increment column, autoIncrement is left as it was |
| `Schema.AddReference` | lib/structure/structure.js:36-40 | foreign and sons are taken from the reference outright, even when it leaves them out. redisType is replaced only when the reference names one. Name, keys and fields are unchanged |
| `Schema.ColumnsCommuteWithReference` | lib/structure/structure.js:22-40 | columns and references change disjoint parts of a structure, so applying them in either order gives the same structure |
| `StructureMgr.ReferAll` | lib/structure/index.js:88-95 | one result per table, in the same order, each with its own reference applied (or unchanged when it has none) |
| `StructureMgr.AddReference` | lib/structure/index.js:84-96 | a no-op while no tables are loaded or without a reference map. Otherwise a table with an entry gets that entry applied and every other table is unchanged. The number and order of tables are kept |
| `StructureMgr.AddReferenceKeepsTables` | lib/structure/index.js:24-26 | what getStructure returns after references are applied has the same tables, in the same order, with the same names, primary keys and fields |
| `ListCache.MakeKey` | lib/game-redis/list.js:7-12 | the key is `table:forValue` for a table with a foreign field and `table:priValue` otherwise |
| `ListCache.KeysOfDistinctTablesDiffer` | lib/game-redis/list.js:7-12 | keys of two different tables never collide when table names hold no colon |
| `ListCache.GetCacheOrder` | lib/game-redis/list.js:3-5 | the batched command reads back the whole list under its key whenever it is executed, on any cache state |
| `ListCache.LastMatch` | lib/game-redis/list.js:22-27 | the index found is the last entry whose primary value equals (`==`) the one sought, or none when no entry does |
| `ListCache.FirstMatch` | lib/game-redis/list.js:73-79 | the index found is the first entry whose primary value equals the one sought, or none when no entry does |
| `ListCache.GetCache` | lib/game-redis/list.js:14-34 | a missing list is a miss, not an error. Without a primary value the whole list comes back. With one, the result is the last entry with that primary value, or null exactly when no entry has it |
| `ListCache.AddCache` | lib/game-redis/list.js:41-52 | all given rows are appended, in order, behind the existing entries of the key derived from the first row; every other list is unchanged; an empty array fails |
| `ListCache.UpdCache` | lib/game-redis/list.js:60-95 | a missing list, or one without the primary value, is left alone. Otherwise exactly the first matching index is replaced by the new row. The list length and every other list are unchanged |
| `ListCache.RemCache` | lib/game-redis/list.js:97-121 | without a primary value the whole list goes. With one, the call fails exactly when no entry matches. Otherwise every entry equal to the first match is removed and every other entry stays. Other lists are unchanged |
| `ListCache.UpdThenGet` | lib/game-redis/list.js:60-95 | when exactly one entry of the list has the primary value, a read by that value after updCache returns the new row |
| `ListCache.RemCacheClearsPrimary` | lib/game-redis/list.js:108-118 | when all entries with the primary value are copies of one row, none is left after removal |
| `GameRedis.AddRedisCache` | lib/game-redis/index.js:36-38 | the call is the list strategy's addCache when the table names "list", and an unknown-strategy failure otherwise |
| `GameRedis.GetRedisCache` | lib/game-redis/index.js:50-52 | the call is the list strategy's getCache when the table names "list", and an unknown-strategy failure otherwise |
| `GameRedis.UpdateRedisCache` | lib/game-redis/index.js:64-66 | the call is the list strategy's updCache when the table names "list", and an unknown-strategy failure otherwise |
| `GameRedis.RemoveRedisCache` | lib/game-redis/index.js:78-80 | the call is the list strategy's remCache when the table names "list", and an unknown-strategy failure otherwise |
| `GameRedis.SonKey` | lib/game-redis/index.js:122-125 | the father's primary value is the son's foreign value, so the key is `son:fatherPrimary`; a son without a foreign field gets `son:0` |
| `GameRedis.SonKeys` | lib/game-redis/index.js:121-129 | computing the son keys succeeds exactly when every son has a structure with a known strategy; it yields one key per son, in order |
| `GameRedis.Explore` | lib/game-redis/index.js:110-159 | the walk succeeds exactly when every son table met below the row, through the cached rows read, has a structure and a known strategy. On success it collects every son key, cached or not, and nothing that is not below the row (`Below`). When the batch read fails, it collects exactly the son keys. A table without sons adds nothing |
| `GameRedis.ExploreSons` | lib/game-redis/index.js:150-157 | succeeds exactly when the walk below every cached row of every son succeeds; then it holds everything found below each of those rows and nothing else |
| `GameRedis.ExploreRows` | lib/game-redis/index.js:153-156 | succeeds exactly when the walk below every given son row, explored with its own primary value, succeeds; then it holds what is found below each of them and nothing else |
| `GameRedis.ExploreReachesCachedRows` | lib/game-redis/index.js:137-157 | below a row whose batch read succeeded, each cached son row is explored, and what it finds is collected for the father too |
| `GameRedis.ExploreSonsUncached` | lib/game-redis/index.js:137-144 | when no son list is cached, the branch ends with nothing more collected |
| `GameRedis.ExploreCollectsBelow` | lib/game-redis/index.js:110-159 | when the walk succeeds, every key below the row is collected: with the contract of `Explore`, the collected keys are exactly those below the row |
| `GameRedis.CascadeKeys` | lib/game-redis/index.js:96-104 | a missing father name, primary value or structure map is a "params is null" failure; a father without a structure is a "can not find table" failure. It succeeds exactly when those checks pass and the walk completes, and then holds only keys below the father row |
| `GameRedis.CascadeKeysOfTable` | lib/game-redis/index.js:96-110 | once the father name, primary value and structure pass the checks, the keys are exactly those the walk from the father row collects |
| `GameRedis.ForValueOrWildcard` | lib/game-redis/index.js:91-94 | an omitted foreign value becomes `'*'`; a given one is kept |
| `GameRedis.RemoveCacheByFatherAsWritten` | lib/game-redis/index.js:90-163 | succeeds exactly when the checks pass and the walk completes, and then deletes `father:forValue`. Every list that survives is unchanged, and every cached list other than `father:forValue` and not below the row survives |
| `GameRedis.AsWrittenSurvivors` | lib/game-redis/index.js:109-162 | as written, when the walk succeeds the lists left are exactly the cached ones other than `father:forValue` and the collected keys |
| `GameRedis.RootKey` | lib/game-redis/list.js:7-12 | the root row's own list key, derived as for every other read; for a root table it is `father:priValue` |
| `GameRedis.RemoveCacheByFather` | lib/game-redis/index.js:90-163 | the same checks and failures as written, and it succeeds exactly when the walk completes. On success the father row's own list is gone, every surviving list is unchanged, and every cached list that is neither the row's own nor below it survives |
| `GameRedis.CascadeDeletesBelow` | lib/game-redis/index.js:90-163 | after a successful cascade no key below the father row is left; with the contract of `RemoveCacheByFather` the lists left are exactly the cached ones that are neither the row's own nor below it |
| `GameRedis.CascadeDropsSonLists` | lib/game-redis/index.js:160-162 | after a successful cascade, no direct son list of the father row is left |
| `GameRedis.CascadeDropsGrandsonLists` | lib/game-redis/index.js:150-157 | two levels down: after a successful cascade, the lists of the sons of every cached son row are gone as well, unless the father's batch read failed |
| `GameRedis.ExploreOnCleared` | lib/game-redis/index.js:137-144 | below a row whose son lists are gone, the cascade succeeds and only collects keys that are not cached |
| `GameRedis.CascadeIdempotent` | lib/game-redis/index.js:90-163 | a second cascade on what the first left succeeds and changes nothing, whatever batch reads fail the second time |
| `GameRedis.GuildExplore` | lib/game-redis/index.js:110-159 | below guild 1 with one cached member, the cascade collects exactly `guildMember:1` |
| `GameRedis.GuildCascadeAsWrittenKeepsRoot` | lib/game-redis/index.js:109 | as written, cascading from guild 1 removes `guildMember:1` but leaves the guild's own list `guild:1` in the cache |
| `GameRedis.GuildRootKeyAsWritten` | lib/game-redis/index.js:91-94 | with the foreign value omitted, the as-written root key of guild 1 is `guild:*`, not the row's key `guild:1` |
| `GameRedis.GuildCascadeClearsBoth` | lib/game-redis/index.js:90-163 | with the root key derived as the row is cached, both `guild:1` and `guildMember:1` are gone |
| `SqlMaker.WrittenFields` | lib/sql-maker/index.js:19-26 | the written columns are exactly the schema fields, in field order, minus an auto-increment primary key. When nothing is skipped that is the whole field order; otherwise it is the field order with that one position cut out |
| `SqlMaker.FillRow` | lib/sql-maker/index.js:31-35 | the kept row has exactly the schema fields. Each field holds the given value when it is truthy and the default otherwise. Properties outside the schema are dropped |
| `SqlMaker.FillRowIdempotent` | lib/sql-maker/index.js:34 | filling an already filled row changes nothing |
| `SqlMaker.ColumnList` | lib/sql-maker/index.js:16-26 | the column list is empty exactly when no column is written (an auto-increment primary key is skipped); otherwise it starts with a back-quoted name |
| `SqlMaker.ValueGroup` | lib/sql-maker/index.js:51 | each row's values are wrapped in one pair of parentheses |
| `SqlMaker.Groups` | lib/sql-maker/index.js:47-53 | one value group per input row, in input order |
| `SqlMaker.FillPayload` | lib/sql-maker/index.js:47-58 | an array gives one filled row per input row, in order; a single object gives one filled object |
| `SqlMaker.MakeInsertSqlAsWritten` | lib/sql-maker/index.js:15-61 | the statement names the written columns and lists the value groups back to back; the rows it returns are the filled rows |
| `SqlMaker.MakeInsertSql` | lib/sql-maker/index.js:15-61 | as written, but with the value groups separated by commas |
| `SqlMaker.InsertFormsAgreeOnOneRow` | lib/sql-maker/index.js:54-58 | for a single row, both forms give the same statement and the same row |
| `SqlMaker.InsertGroupsRunTogether` | lib/sql-maker/index.js:47-53 | for two rows, the as-written text has `)(` where one group ends and the next begins; the corrected text has `),` there |
| `SqlMaker.MakeUpdateSql` | lib/sql-maker/index.js:88-108 | there is no statement exactly when the primary value is not truthy. Otherwise the after-row is the filled row, and the statement sets the written fields keyed on the primary value |
| `SqlMaker.MakeDeleteSql` | lib/sql-maker/index.js:69-74 | null exactly for an empty or non-string condition; otherwise `delete from` the table `where` the condition |
| `SqlMaker.MakeSelectSql` | lib/sql-maker/index.js:116-121 | null exactly for an empty or non-string condition; otherwise `select * from` the table `where` the condition |
| `DataMgr.AssignIds` | index.js:97-100 | the i-th row of a batch gets primary value `insertId + i`, and nothing else changes |
| `DataMgr.AssignIdsDistinct` | index.js:97-100 | different rows of one batch get different keys |
| `DataMgr.FinalRowsAsWritten` | index.js:96-102 | as written, every returned row carries the reported insertId (plus its position) as primary key, whatever the table |
| `DataMgr.FinalRows` | index.js:96-102 | the returned rows are exactly the rows the store holds: generated keys for an auto-increment table, the caller's keys otherwise |
| `DataMgr.InsertKeyOverwritten` | index.js:96-102 | for a table with a caller-supplied key, the as-written rows carry key 0 where the store holds "u7" |
| `DataMgr.InsertData` | index.js:73-111 | the corrected insert (see Left out): no table name, no data or an empty array is rejected before the lookup, and an unknown table is rejected too. A store failure changes nothing. Otherwise the store gains exactly the filled rows, with generated keys only for an auto-increment table; the caller gets those rows; unless noCache the cache list of the first row gains them at its end and every other list is unchanged. A failure leaves the cache as it was, but a cache failure does not undo the write |
| `DataMgr.DeleteCondition` | index.js:137 | the delete condition is always a non-empty string, so a statement is always built |
| `DataMgr.KeyCondition` | index.js:314-319 | the corrected key condition names the primary field when a primary value is given and the foreign field otherwise, and quotes a non-numeric value as line 318 does. For a numeric value it is exactly the delete condition as written. For a read by foreign value, or by a numeric primary value, it is exactly the read's condition as written. It is always a usable condition |
| `DataMgr.DeleteDataAsWritten` | index.js:137-139 | as written, a delete whose key value is not numeric fails in the store with the unquoted statement and changes nothing. With a numeric key value it is the corrected delete. The store changes only when the key value is numeric |
| `DataMgr.DeleteData` | index.js:121-148 | the corrected delete (key value quoted when not numeric, see Findings): a call with neither primary nor foreign value, or with an unknown table, changes nothing, and so does a store failure. Otherwise the store keeps exactly the rows whose key column (primary when given, foreign otherwise) differs from the value. Other tables are unchanged. Unless noCache the cache entry is removed as remCache does; a failure leaves the cache as it was |
| `DataMgr.UpdateRows` | lib/sql-maker/index.js:95-106 | the update changes only the rows with that primary value. In them every written column takes the filled value, every other column keeps its value, and no other column appears |
| `SqlMaker.MakeUpdateSqlQuoted` | lib/sql-maker/index.js:95-106 | the corrected update statement: it exists exactly when the as-written one does, with the same filled row. For a numeric primary value it is the as-written statement; otherwise its where clause has the value in double quotes |
| `DataMgr.UpdateDataAsWritten` | lib/sql-maker/index.js:106 | as written, an update whose primary value is not numeric fails in the store with the unquoted statement and changes nothing. Otherwise it is the corrected update. The store changes only for a known table and a numeric primary value |
| `DataMgr.UpdateData` | index.js:157-183 | the corrected update (primary value quoted when not numeric, see Findings): an unknown table, or no truthy primary value, changes nothing, and neither does a store failure. Otherwise the rows with that primary value get the filled row's written columns and keep the rest, and other tables are unchanged. With noCache the caller gets the filled row and the cache is untouched; without it, the cache entry is replaced as updCache does, and a failure leaves the cache as it was |
| `DataMgr.UpdateKeepsKey` | lib/sql-maker/index.js:95-106 | an updated row is still found by the primary value it was matched on |
| `DataMgr.UpdateThenSelect` | index.js:157-183 | round trip: after an update straight to the store of a row that exists, a read by its primary value finds a row holding every written column's new value |
| `DataMgr.SelectCondition` | index.js:314-319 | a read always builds a non-empty condition, so a statement is always built |
| `DataMgr.SelectFromDBAsWritten` | index.js:313-319 | as written, a read by a primary value that is not numeric fails in the store with the unquoted statement. A read by a numeric primary value, or by foreign value, is the corrected read |
| `DataMgr.SelectFromDB` | index.js:313-334 | the corrected read (primary value quoted when not numeric, see Findings): by primary value: the first stored row with it, or null exactly when there is none. By foreign value: an array of exactly the rows with it, possibly empty. Neither value is an error |
| `DataMgr.Backfill` | index.js:346-351 | an empty store answer leaves the cache alone. A non-empty one succeeds exactly when the table's strategy is known, and then appends the answer's rows to the list of the first row's key and leaves every other list unchanged |
| `DataMgr.SelectFromRedis` | index.js:340-356 | a cached row or list is returned as is and touches nothing. On a miss the store answers, and a non-empty answer is appended to the cache |
| `DataMgr.SelectVia` | index.js:303-307 | noCache reads the store directly; otherwise the read goes through the cache |
| `DataMgr.SelectData` | index.js:193-210 | no table name, or neither value truthy, fails before the lookup; an unknown table fails; the store is never changed |
| `DataMgr.KeepMatching` | index.js:237-248 | a row is kept exactly when it agrees with every property of the condition |
| `DataMgr.SelectDataByConditionAsWritten` | index.js:219-252 | fails exactly when the narrowing read fails or returns a single row. A list answer is filtered to exactly the rows meeting the condition |
| `DataMgr.SelectDataByCondition` | index.js:219-252 | with a single row treated as a one-row list, the caller gets exactly the rows of the read's answer that meet the condition |
| `DataMgr.ExistCondition` | index.js:265-272 | appending ` and` to every clause and cutting the last four characters gives the clauses joined by ` and`; an empty condition gives an empty clause |
| `DataMgr.IsExist` | index.js:260-277 | a missing table or condition is rejected. An empty condition gives an invalid statement. Otherwise the answer is true exactly when some stored row meets every property |
| `DataMgr.DeleteRedisCacheByFather` | index.js:287-296 | unreadable structures fail; otherwise the call is exactly the cascade |
| `DataMgr.HitOnLastEntry` | lib/game-redis/list.js:22-29 | when the last entry of the list has the primary value, a read by that value returns it |
| `DataMgr.InsertOneRow` | index.js:96-106 | one row inserted into an auto-increment table is reported with its generated key and becomes the last entry of the list a read by that key looks at |
| `DataMgr.InsertThenSelect` | index.js:73-111 | round trip: a row inserted through the cache reads back by its generated key as exactly the row the insert reported, whatever the cache held and whether or not the store can answer |
| `DataMgr.ReadOfAbsentRow` | index.js:340-347 | a read that neither the cached list nor the store can answer returns null |
| `DataMgr.DeleteClearsStore` | index.js:137-139 | after a delete by primary value, no stored row of the table has that value |
| `DataMgr.DeleteThenSelect` | index.js:121-148 | when every cached entry with that primary value is the same row (for two different versions see `DataMgr.DeleteLeavesLaterCopy`): after a delete by primary value through the cache, the next cached read by that value returns null, so the row is not resurrected from either place |
| `DataMgr.ReadBackByPrimary` | index.js:349-351 | a row backfilled after a read by primary value of a root table is what the next read by that value finds |
| `DataMgr.ReadBackByForeign` | index.js:349-351 | rows backfilled into an empty list after a read by foreign value are what the next read by that value finds |
| `DataMgr.SecondReadHits` | index.js:340-356 | for a root table read by primary value, or a table with a foreign field read by foreign value: once a miss has been answered with a non-empty answer and backfilled, the same read gives the same answer from the cache, whatever the store holds by then |
| `DataMgr.UpdateThenCachedRead` | index.js:157-183 | round trip through the cache: when the list holds exactly one entry with the primary value, an update followed by a cached read by that value returns the filled row the update wrote |
| `DataMgr.RemovalKeepsLaterCopy` | lib/game-redis/list.js:108-118 | from a list holding two different versions of a row, removal by primary value drops the first and leaves the second |
| `DataMgr.DeleteLeavesLaterCopy` | lib/game-redis/list.js:22-27 | when the list holds two different versions of a row, a delete by primary value succeeds and leaves no stored row with it, yet the next read returns the second version from the cache |
| `DataMgr.WordKeyIsNotNumeric` | index.js:318 | the key `"u7"` is not numeric, so the store does not accept it bare |
| `DataMgr.DeleteByWordKey` | index.js:137 | table `player` keyed by `uid`, row `{uid: "u7", lv: 3}`: the as-written delete by `"u7"` fails and leaves the store as it was; the corrected delete succeeds and leaves no player row |
| `DataMgr.ReadByWordKey` | index.js:316 | same row: the as-written read by `"u7"` fails; the corrected read returns the row |
| `DataMgr.UpdateByWordKey` | lib/sql-maker/index.js:106 | same row, updated with `{uid: "u7", lv: 4}`: the as-written update fails and leaves the store as it was; the corrected update leaves one player row, with `lv` 4 |
| `DataMgr.ConditionOnPrimaryValue` | index.js:245 | a condition naming the primary value makes the as-written call fail, while the corrected call returns the matching row |
| `Seqs.RemoveAll` | lib/game-redis/list.js:118 | `LREM key 0`: the result holds no copy of the entry and every other entry with its multiplicity |
| `Seqs.RemoveAllAppend` | lib/game-redis/list.js:118 | removal distributes over concatenation, so the entries left keep their relative order |
| `Seqs.KeepAppend` | index.js:244-248 | filtering distributes over concatenation, so the kept rows stay in their original order |
| `Seqs.TerminatedIsJoin` | index.js:266-272 | clauses each followed by a separator are the clauses joined by it, plus one trailing separator |

## Left out

- Redis and MySQL I/O are not modelled. Connection errors, JSON text and reply parsing are absent. A store failure is an argument; a Redis error is modelled only where a callback turns it into a result.
- Expiry (the `expire` argument of `addCache` and `updCache`) is left out: it is time-based Redis behaviour.
- The hash, set and zset strategies are not part of this model; their files are not in the repository. A table naming them gets an unknown-strategy failure.
- `StructureMgr.readStructure`, `getSign`, `loadTableStructure` and `destroy` are left out. They are `show tables` / `describe` I/O and startup or teardown plumbing. `StructureMgr.GetStructure` is a plain getter.
- `lib/db-mgr/index.js` and `lib/structure-redis/index.js` are not part of this model: they pass calls through to the database pool and to Redis hashes. The cascade takes parsed structures, as its doc comment declares. The caller in `index.js:289-294` actually passes the raw `hgetall` reply.
- JavaScript `==` between numbers and strings is not modelled. `LooseEq` is structural equality plus `null == undefined`. The store's `=` is taken to be the same relation.
- Numbers are integers. `isNaN` is abstracted as "a number, or a string of decimal digits". `String()` of a number is its decimal rendering.
- `util.format` is modelled only by the extra-argument rule that the delete and read conditions rely on (the value is appended after a space). SQL text is otherwise a plain concatenation.
- Property enumeration order is modelled by `fieldOrder` in insertion order. Integer-like field names, which JavaScript enumerates first, are not treated specially.
- JSON serialization is taken to be injective, so comparing serialized rows (`LREM`) is comparing rows.
- Concurrency, callback interleaving and `multi` pipelining are left out. Each call is one step. The cascade's completion counting is modelled by its result: the union of everything found below.
- The number of round trips a cascade issues is not modelled.
- Termination of the cascade assumes an acyclic sons graph, given as a rank per table. The source has no such check and would recurse forever on a cycle with cached rows.
- DataMgr.InsertData: models the corrected insert, not the code as written. It builds the statement with comma-separated value groups (`SqlMaker.MakeInsertSql`) and writes the generated key back only for an auto-increment table (`DataMgr.FinalRows`). The as-written pieces are modelled separately, `SqlMaker.MakeInsertSqlAsWritten` and `DataMgr.FinalRowsAsWritten`, and `SqlMaker.InsertGroupsRunTogether` and `DataMgr.InsertKeyOverwritten` show where they differ (see Findings).
- DataMgr.UpdateData: on the cache path the callback receives Redis's status reply; the model gives `None` there.
- DataMgr.BareKeyAccepted: a bare key value is accepted exactly when it is numeric. A bare word that happens to name a column of the table is also accepted by MySQL (`where uid = lv`) and compares two columns; the model treats it as rejected. Numeric literal forms beyond decimal digits are not modelled.
- DataMgr.KeyCondition and SqlMaker.MakeUpdateSqlQuoted: a value holding a double quote is put between quotes unescaped, as line 318 does; the resulting SQL text is not modelled further.
- DataMgr.IsExist: on a store failure the source calls back `(err, false)`; the model returns the failure alone.
- DataMgr.KeepMatching: its contract states which rows are kept, not their order; order is stated separately by `Seqs.KeepAppend`.
- ListCache.GetCache, ListCache.UpdCache and ListCache.RemCache: the read-failure branch of `lrange` (`err`) is not modelled. The cache is a map that always answers.

## Findings

| source | as written | input that shows it | evidently intended | confidence | as-written member | corrected member |
|---|---|---|---|---|---|---|
| lib/game-redis/index.js:109 | the root key put on the delete list is `father:forValue`, with `forValue` defaulting to `'*'` | cascade from root table `guild`, primary value 1, no foreign value, with `guild:1` cached: `guild:*` is deleted and `guild:1` survives | the father row's own key as the list strategy derives it (`guild:1` for a root table) | not executed | `GameRedis.GuildCascadeAsWrittenKeepsRoot` | `GameRedis.RemoveCacheByFather` |
| lib/sql-maker/index.js:51 | value groups of an array are concatenated with no separator | two rows give `values (..)(..)`, which is not a valid multi-row insert | groups separated by commas, `values (..),(..)` | not executed | `SqlMaker.InsertGroupsRunTogether` | `SqlMaker.MakeInsertSql` |
| index.js:96-102 | `insertId` is written into the primary key of every inserted row, also for tables without auto-increment, for which MySQL reports `insertId` 0 | table `player` with caller-supplied key `uid`, inserting `{uid: "u7"}`: the engine returns and caches `{uid: 0}` | write the generated key back only for an auto-increment table | not executed | `DataMgr.InsertKeyOverwritten` | `DataMgr.FinalRows` |
| index.js:137 | the key value is appended to `where` without quotes, for the primary and the foreign value alike | table `player` keyed by `uid`, deleting `"u7"`: the statement ends `` `uid` =  u7``, which MySQL reads as a column name, so the delete fails | quote a non-numeric value, as line 318 does | not executed | `DataMgr.DeleteByWordKey` | `DataMgr.DeleteData` |
| index.js:316 | the primary value is appended to `where` without quotes (line 318 quotes only the foreign value) | reading `player` by `"u7"`: the statement is rejected, so the read fails although the row is stored | quote a non-numeric primary value too | not executed | `DataMgr.ReadByWordKey` | `DataMgr.SelectFromDB` |
| lib/sql-maker/index.js:106 | the primary value is appended to `where` without quotes, although the set list quotes strings (line 102) | updating `player` with `{uid: "u7", lv: 4}`: the statement is rejected and the row keeps `lv` 3 | quote a non-numeric primary value, as line 102 does for the set list | not executed | `DataMgr.UpdateByWordKey` | `DataMgr.UpdateData` |
| index.js:245 | `data.forEach` is called on the read's answer, which is a single row object when the condition names the primary value | table `hero` (primary `id`), stored row `{id: 1, lv: 3}`, condition `{id: 1}`: the callback throws | treat the single row as a one-row list and filter it | not executed | `DataMgr.ConditionOnPrimaryValue` | `DataMgr.SelectDataByCondition` |
