/** The row-store engine: tables, indexes, counters and the store, and the statements that change
    them. */
module Engine {
  import opened Wrappers
  import opened Json
  import opened Catalog
  import opened StorageFormat
  import opened Storage
  import opened UniqueKeys
  import opened Indexes
  import opened ForeignKeys
  import opened ParentUpdate
  import opened DeleteIntegrity
  import opened DeleteClosure
  import opened DeleteCycles
  import IgnoredDeletes
  import opened Inserting
  import opened UpdateSteps

  /** The index of one table is the one a rebuild would make, or missing while there are no rows. */
  ghost predicate IndexOk(lib: Library, schemas: Schemas, rows: Database, indexes: map<string, TableIndex>, t: string) {
    t in schemas ==> if t in indexes then t in rows && indexes[t] == IndexOf(lib, schemas[t], rows[t]) else RowsOf(rows, t) == map[]
  }

  ghost predicate IndexesOk(lib: Library, schemas: Schemas, rows: Database, indexes: map<string, TableIndex>) {
    forall t :: IndexOk(lib, schemas, rows, indexes, t)
  }

  /** One table and its index are written. */
  lemma IndexesAfterWrite(lib: Library, schemas: Schemas, rows: Database, indexes: map<string, TableIndex>,
                          table: string, written: TableRows, indexes': map<string, TableIndex>)
    requires IndexesOk(lib, schemas, rows, indexes)
    requires indexes' == if table in schemas then indexes[table := IndexOf(lib, schemas[table], written)] else indexes
    ensures IndexesOk(lib, schemas, rows[table := written], indexes')
  {
    hide IndexOf;
    var rows' := rows[table := written];
    forall t ensures IndexOk(lib, schemas, rows', indexes', t) {
      assert IndexOk(lib, schemas, rows, indexes, t);
    }
  }

  /** One row is replaced and the indexes are left alone. */
  lemma StaleIndexesIff(lib: Library, schemas: Schemas, rows: Database, indexes: map<string, TableIndex>, table: string, k: string, row: StoredRow)
    requires IndexesOk(lib, schemas, rows, indexes) && k in RowsOf(rows, table)
    ensures var rows' := rows[table := RowsOf(rows, table)[k := row]];
            IndexesOk(lib, schemas, rows', indexes)
            <==> (table in schemas ==> FiledAlike(lib, schemas[table], RowsOf(rows, table), RowsOf(rows', table)))
  {
    hide IndexOf, FiledAlike;
    var rows' := rows[table := RowsOf(rows, table)[k := row]];
    assert IndexOk(lib, schemas, rows, indexes, table);
    if table in schemas { SameIndexIff(lib, schemas[table], RowsOf(rows, table), RowsOf(rows', table)); }
    assert IndexOk(lib, schemas, rows', indexes, table) <==> (table in schemas ==> FiledAlike(lib, schemas[table], RowsOf(rows, table), RowsOf(rows', table)));
    if IndexOk(lib, schemas, rows', indexes, table) {
      forall t ensures IndexOk(lib, schemas, rows', indexes, t) {
        assert IndexOk(lib, schemas, rows, indexes, t);
      }
    }
  }

  /** The index written is that of `filed`, the rows written are `next`. */
  lemma IndexedAsFiled(lib: Library, schemas: Schemas, rows: Database, indexes: map<string, TableIndex>, table: string,
                       filed: TableRows, next: TableRows, indexes': map<string, TableIndex>)
    requires IndexesOk(lib, schemas, rows, indexes) && table in schemas
    requires indexes' == indexes[table := IndexOf(lib, schemas[table], filed)]
    ensures next.Keys == filed.Keys ==> (IndexesOk(lib, schemas, rows[table := next], indexes') <==> FiledAlike(lib, schemas[table], filed, next))
  {
    hide IndexOf, FiledAlike;
    if next.Keys == filed.Keys {
      SameIndexIff(lib, schemas[table], filed, next);
      var rows' := rows[table := next];
      assert IndexOk(lib, schemas, rows', indexes', table) <==> FiledAlike(lib, schemas[table], filed, next);
      if FiledAlike(lib, schemas[table], filed, next) {
        forall t ensures IndexOk(lib, schemas, rows', indexes', t) {
          assert IndexOk(lib, schemas, rows, indexes, t);
        }
      }
    }
  }

  lemma NothingFiled(lib: Library, schema: Schema, filed: TableRows, next: TableRows)
    requires next == map[]
    ensures FiledAlike(lib, schema, filed, next)
  {
  }

  /** `left` has some of the rows of `rows`. */
  ghost predicate Part(left: TableRows, rows: TableRows) { forall k :: k in left ==> k in rows && rows[k] == left[k] }

  /** The index written is that of `left`, the rows written are `written`. */
  lemma IndexesAfterRemoval(lib: Library, schemas: Schemas, rows: Database, indexes: map<string, TableIndex>, table: string,
                            left: TableRows, written: TableRows, indexes': map<string, TableIndex>)
    requires IndexesOk(lib, schemas, rows, indexes) && Part(left, written)
    requires RowsOf(rows, table) == map[] ==> left == map[]
    requires indexes' == if table in schemas && table in indexes then indexes[table := IndexOf(lib, schemas[table], left)] else indexes
    ensures left == written ==> IndexesOk(lib, schemas, rows[table := written], indexes')
    ensures table in schemas && IndexedColumns(schemas[table].indexes) != {} && IndexesOk(lib, schemas, rows[table := written], indexes') ==> left == written
  {
    hide IndexOf, IndexedColumns;
    var rows' := rows[table := written];
    assert IndexOk(lib, schemas, rows, indexes, table);
    if left == written {
      forall t ensures IndexOk(lib, schemas, rows', indexes', t) { assert IndexOk(lib, schemas, rows, indexes, t); }
    }
    if table in schemas && IndexedColumns(schemas[table].indexes) != {} && IndexOk(lib, schemas, rows', indexes', table) && table in indexes {
      SameIndexSameKeys(lib, schemas[table], left, written);
    }
  }

  lemma UnchangedFiledAlike(lib: Library, schema: Schema, rows: TableRows)
    ensures FiledAlike(lib, schema, rows, rows)
  {
  }

  /** The store reloads to the rows in memory. */
  ghost predicate StoreOk(lib: Library, rows: Database, s: Store) {
    forall t :: LoadRows(lib, s, t) == ReloadedRows(lib, RowsOf(rows, t))
  }

  /** `rows` is `base` without the rows to delete and with the rows to persist. */
  ghost predicate Tracks(base: TableRows, rows: TableRows, deleted: set<string>, persist: TableRows) {
    rows == (base - deleted) + persist
  }

  lemma TracksPut(base: TableRows, rows: TableRows, deleted: set<string>, persist: TableRows, key: string, row: StoredRow)
    requires Tracks(base, rows, deleted, persist)
    ensures Tracks(base, rows[key := row], deleted, persist[key := row])
  {
  }

  lemma TracksDrop(base: TableRows, rows: TableRows, deleted: set<string>, persist: TableRows, key: string)
    requires Tracks(base, rows, deleted, persist)
    ensures Tracks(base, rows - {key}, deleted + {key}, persist - {key})
  {
  }

  /** One batch brings the store level with the rows it tracks. */
  lemma BatchLevels(lib: Library, base: TableRows, rows: TableRows, deleted: set<string>, persist: TableRows)
    requires Tracks(base, rows, deleted, persist)
    ensures (ReloadedRows(lib, base) - deleted) + ReloadedRows(lib, persist) == ReloadedRows(lib, rows)
  {
    hide Reloaded;
  }

  class Engine {
    const lib: Library
    const schemas: Schemas
    const order: seq<string>
    const settings: Settings
    const persistent: bool
    const store: RedisStore
    var rows: Database
    var indexes: map<string, TableIndex>
    var autoInc: Counters
    /** The table states that foreign-key actions and deletions have stored, oldest first. */
    ghost var stored: seq<Database>

    constructor (lib: Library, schemas: Schemas, order: seq<string>, settings: Settings, persistent: bool)
      requires forall t :: t in order <==> t in schemas
      ensures Coherent() && rows == map[] && autoInc == map[] && fresh(store)
      ensures this.lib == lib && this.schemas == schemas && this.settings == settings && this.persistent == persistent
    {
      this.lib, this.schemas, this.order, this.settings, this.persistent := lib, schemas, order, settings, persistent;
      store := new RedisStore();
      rows, indexes, autoInc, stored := map[], map[], map[], [];
      new;
    }

    function Env(): Env { ForeignKeys.Env.Env(lib, schemas, order) }

    ghost predicate IndexesMatch()
      reads this
    {
      IndexesOk(lib, schemas, rows, indexes)
    }

    ghost predicate StoreMatches()
      reads this, store
    {
      StoreOk(lib, rows, store.Contents())
    }

    /** The indexes are those of the table as it was: they match exactly if both are filed alike. */
    ghost predicate IndexesLag(table: string, was: TableRows)
      reads this
    {
      IndexesMatch() <==> (table in schemas ==> FiledAlike(lib, schemas[table], was, RowsOf(rows, table)))
    }

    /** Every derived structure agrees with the rows. */
    ghost predicate Coherent()
      reads this, store
    {
      ValidEnv(Env()) && IndexesMatch() && (persistent ==> StoreMatches())
    }

    // ---------- the row check ----------

    method ValidateForeignKeyRow(table: string, data: Row) returns (ok: bool)
      ensures ok <==> ForeignKeysAccept(Env(), rows, table, data)
    {
      hide View, ViewMatches, NoneNull;
      if table !in schemas { return true; }
      var keys := schemas[table].foreignKeys;
      for i := 0 to |keys|
        invariant forall j :: 0 <= j < i ==> KeyAccepts(Env(), rows, keys[j], data)
      {
        var key := keys[i];
        var locals := Values(data, key.columns);
        LocalNulls(data, key.columns);
        if Null !in locals {
          var parents := RowsOf(rows, key.referencedTable);
          var matched := exists p :: p in parents && ViewMatches(lib, View(Env(), key.referencedTable, parents[p].data), key, data);
          if !matched {
            assert !KeyAccepts(Env(), rows, key, data);
            return false;
          }
        }
      }
      return true;
    }

    // ---------- indexes ----------

    method RebuildIndexes(table: string)
      modifies this`indexes
      ensures indexes == if table in schemas && table in rows then old(indexes)[table := IndexOf(lib, schemas[table], rows[table])] else old(indexes)
    {
      if table !in schemas || table !in rows { return; }
      var index := RebuildIndex(lib, schemas[table], rows[table]);
      indexes := indexes[table := index];
    }

    /** A new row in the table, the lookup and the index. */
    method PutRow(table: string, key: string, row: StoredRow, lookup: UniqueLookup) returns (r: UniqueLookup)
      requires IndexesMatch() && key !in RowsOf(rows, table)
      requires Stands(lib, SchemaOf(schemas, table), lookup, RowsOf(rows, table))
      modifies this`rows, this`indexes
      ensures rows == old(rows)[table := RowsOf(old(rows), table)[key := row]]
      ensures IndexesMatch()
      ensures Stands(lib, SchemaOf(schemas, table), r, RowsOf(rows, table))
    {
      hide Stands, Filed;
      assert IndexOk(lib, schemas, rows, indexes, table);
      ghost var before := RowsOf(rows, table);
      var tableRows := if table in rows then rows[table] else map[];
      rows := rows[table := tableRows[key := row]];
      r := AddToUniqueLookup(lib, SchemaOf(schemas, table), lookup, key, row.data);
      AddKeepsStanding(lib, SchemaOf(schemas, table), lookup, r, before, key, row);
      if table in schemas {
        var schema := schemas[table];
        FilingKeepsIndex(lib, schema, before, key, row);
        FilingFirstRow(lib, schema, key, row);
        assert map[][key := row] == map[key := row];
        var index := AddRowToIndexes(lib, schema, if table in indexes then indexes[table] else map[], key, row.data);
        indexes := indexes[table := index];
      }
      IndexesAfterWrite(lib, schemas, old(rows), old(indexes), table, rows[table], indexes);
    }

    /** A row taken out of the table, the lookup and the index. */
    method DropRow(table: string, key: string, lookup: UniqueLookup) returns (r: UniqueLookup)
      requires IndexesMatch() && key in RowsOf(rows, table)
      requires Stands(lib, SchemaOf(schemas, table), lookup, RowsOf(rows, table))
      modifies this`rows, this`indexes
      ensures rows == old(rows)[table := RowsOf(old(rows), table) - {key}]
      ensures IndexesMatch()
      ensures Stands(lib, SchemaOf(schemas, table), r, RowsOf(rows, table))
    {
      hide Stands, Unfiled;
      assert IndexOk(lib, schemas, rows, indexes, table);
      var before := rows[table];
      var data := before[key].data;
      rows := rows[table := before - {key}];
      r := RemoveFromUniqueLookup(lib, SchemaOf(schemas, table), lookup, key, data);
      RemoveKeepsStanding(lib, SchemaOf(schemas, table), lookup, r, before, key);
      if table in schemas && table in indexes {
        UnfilingKeepsIndex(lib, schemas[table], before, key, data);
        var index := RemoveRowFromIndexes(lib, schemas[table], indexes[table], key, data);
        indexes := indexes[table := index];
      }
      IndexesAfterWrite(lib, schemas, old(rows), old(indexes), table, rows[table], indexes);
    }

    // ---------- INSERT ----------

    method NextAutoIncrement(table: string, column: string) returns (next: int)
      modifies this`autoInc
      ensures Identity(Num(next), true, autoInc) == NextAutoInc(table, column, old(autoInc))
      ensures var key := table + ":" + column;
              var n := if key in old(autoInc) then old(autoInc)[key] else 0;
              next == (if n == I64_MAX then I64_MIN else n + 1) && autoInc == old(autoInc)[key := next]
    {
      var key := CounterKey(table, column);
      if key !in autoInc { autoInc := autoInc[key := 0]; }
      autoInc := autoInc[key := Incremented(autoInc[key])];
      next := autoInc[key];
      assert autoInc == old(autoInc)[key := next];
    }

    method ResolveId(table: string, data: Row, uuid: string) returns (id: Value, generated: bool)
      modifies this`autoInc
      ensures Identity(id, generated, autoInc) == ResolveRowId(settings, SchemaOf(schemas, table), table, data, old(autoInc), uuid)
    {
      var schema := SchemaOf(schemas, table);
      if |schema.primaryKey| > 1 { return Arr(Values(data, schema.primaryKey)), false; }
      var column := KeyColumn(schema);
      if column.Some? {
        var auto := schema.autoColumn == Some(column.value);
        if column.value in data {
          var v := data[column.value];
          if auto && (Defaultish(v) || (!settings.noAutoValueOnZero && ExactInt(v) == Some(0))) {
            var next := NextAutoIncrement(table, column.value);
            return Num(next), true;
          }
          return v, false;
        }
        if auto || column.value == "id" {
          var next := NextAutoIncrement(table, column.value);
          return Num(next), true;
        }
      }
      return Str(uuid), false;
    }

    method RaiseCounter(table: string, id: Value, generated: bool)
      modifies this`autoInc
      ensures autoInc == Raised(SchemaOf(schemas, table), table, Identity(id, generated, old(autoInc)))
      ensures forall k :: CounterOf(autoInc, k) != CounterOf(old(autoInc), k) ==> k in autoInc && (k in old(autoInc) ==> autoInc[k] > old(autoInc)[k])
      ensures var auto, explicitId := SchemaOf(schemas, table).autoColumn, ExactInt(id);
              !generated && auto.Some? && explicitId.Some? && I64_MIN <= explicitId.value <= I64_MAX ==>
                CounterKey(table, auto.value) in autoInc && autoInc[CounterKey(table, auto.value)] >= explicitId.value
    {
      var auto := SchemaOf(schemas, table).autoColumn;
      var explicitId := ExactInt(id);
      if !generated && auto.Some? && explicitId.Some? && I64_MIN <= explicitId.value <= I64_MAX {
        var key := CounterKey(table, auto.value);
        if key in autoInc {
          autoInc := autoInc[key := if autoInc[key] >= explicitId.value then autoInc[key] else explicitId.value];
        } else {
          autoInc := autoInc[key := explicitId.value];
        }
      }
    }

    /** Take the conflicting rows out of the table, the lookup, the index and the batch. */
    method RemoveConflicts(table: string, conflicts: set<string>, lookup: UniqueLookup, deleted: set<string>, persist: TableRows, ghost base: TableRows)
      returns (lookup': UniqueLookup, deleted': set<string>, persist': TableRows)
      requires IndexesMatch() && conflicts <= RowsOf(rows, table).Keys
      requires Stands(lib, SchemaOf(schemas, table), lookup, RowsOf(rows, table))
      requires Tracks(base, RowsOf(rows, table), deleted, persist)
      modifies this`rows, this`indexes
      ensures RowsOf(rows, table) == RowsOf(old(rows), table) - conflicts
      ensures rows == if conflicts == {} then old(rows) else old(rows)[table := RowsOf(old(rows), table) - conflicts]
      ensures IndexesMatch()
      ensures Stands(lib, SchemaOf(schemas, table), lookup', RowsOf(rows, table))
      ensures Tracks(base, RowsOf(rows, table), deleted', persist')
    {
      hide Stands, Tracks, IndexesOk;
      ghost var start := rows;
      ghost var was := RowsOf(rows, table);
      lookup', deleted', persist' := lookup, deleted, persist;
      var todo := conflicts;
      ghost var gone: set<string> := {};
      while todo != {}
        invariant todo <= conflicts && gone == conflicts - todo
        invariant rows == if gone == {} then start else start[table := was - gone]
        invariant RowsOf(rows, table) == was - gone
        invariant IndexesMatch()
        invariant Stands(lib, SchemaOf(schemas, table), lookup', was - gone)
        invariant Tracks(base, was - gone, deleted', persist')
        decreases |todo|
      {
        var k :| k in todo;
        TracksDrop(base, was - gone, deleted', persist', k);
        WithoutOneMore(was, gone, k);
        lookup' := DropRow(table, k, lookup');
        deleted', persist' := deleted' + {k}, persist' - {k};
        todo, gone := todo - {k}, gone + {k};
      }
      assert gone == conflicts;
    }

    /** The row, placed among the rows of the table, with everything kept beside them. */
    method PlaceRow(table: string, id: Value, data: Row, options: Options, lookup: UniqueLookup, deleted: set<string>, persist: TableRows,
                    ghost base: TableRows, ghost identity: Identity)
      returns (lookup': UniqueLookup, deleted': set<string>, persist': TableRows, affected: nat, error: Option<InsertError>)
      requires IndexesMatch() && identity.id == id && identity.counters == autoInc
      requires Stands(lib, SchemaOf(schemas, table), lookup, RowsOf(rows, table))
      requires Tracks(base, RowsOf(rows, table), deleted, persist)
      modifies this`rows, this`indexes
      ensures var step := Place(Env(), settings, options, table, RowsOf(old(rows), table), autoInc, identity, data);
              Step(RowsOf(rows, table), autoInc, affected, error) == step
      ensures rows == old(rows) || rows == old(rows)[table := RowsOf(rows, table)]
      ensures error == Some(BadExpression) ==> IndexesLag(table, RowsOf(old(rows), table))
      ensures error != Some(BadExpression) ==>
                IndexesMatch()
                && Stands(lib, SchemaOf(schemas, table), lookup', RowsOf(rows, table))
                && Tracks(base, RowsOf(rows, table), deleted', persist')
    {
      hide Stands, Tracks, IndexesMatch, IndexesLag, Conflicts;
      var schema := SchemaOf(schemas, table);
      var key := lib.text(id);
      var was := RowsOf(rows, table);
      lookup', deleted', persist', affected, error := lookup, deleted, persist, 0, None;
      var conflicts := FindConflictKeysWithLookup(lib, schema, key, data, was, lookup);
      ConflictsExist(lib, schema, key, data, was);
      if conflicts != {} {
        if options.ignore { return; }
        if options.onDuplicate.Some? {
          lookup', persist', affected, error := MergeInto(table, conflicts, data, options.onDuplicate.value, lookup, deleted, persist, base);
          return;
        }
        if options.replace || !settings.enforcesUniqueness {
          lookup', deleted', persist' := RemoveConflicts(table, conflicts, lookup, deleted, persist, base);
          if options.replace { affected := |conflicts|; }
        } else {
          error := Some(if key in conflicts then KeyConflict else UniqueConflict);
          return;
        }
      }
      var row := StoredRow(id, table, Undotted(data));
      assert was - {} == was;
      TracksPut(base, RowsOf(rows, table), deleted', persist', key, row);
      lookup' := PutRow(table, key, row, lookup');
      persist', affected := persist'[key := row], affected + 1;
    }

    /** ON DUPLICATE KEY UPDATE of the first conflicting row. */
    method MergeInto(table: string, conflicts: set<string>, data: Row, merge: OnDuplicate, lookup: UniqueLookup, deleted: set<string>,
                     persist: TableRows, ghost base: TableRows)
      returns (lookup': UniqueLookup, persist': TableRows, affected: nat, error: Option<InsertError>)
      requires IndexesMatch()
      requires Stands(lib, SchemaOf(schemas, table), lookup, RowsOf(rows, table))
      requires Tracks(base, RowsOf(rows, table), deleted, persist)
      modifies this`rows, this`indexes
      ensures var was, hit := RowsOf(old(rows), table), lib.first(conflicts);
              if hit !in was then rows == old(rows) && affected == 0 && error == Some(BadExpression)
              else
                var merged := merge(was[hit].data, data);
                RowsOf(rows, table) == was[hit := was[hit].(data := merged.data)]
                && affected == (if !merged.ok || merged.data == was[hit].data then 0 else 2)
                && error == if merged.ok then None else Some(BadExpression)
      ensures rows == old(rows) || rows == old(rows)[table := RowsOf(rows, table)]
      ensures error == Some(BadExpression) ==> IndexesLag(table, RowsOf(old(rows), table))
      ensures error != Some(BadExpression) ==>
                IndexesMatch()
                && Stands(lib, SchemaOf(schemas, table), lookup', RowsOf(rows, table))
                && Tracks(base, RowsOf(rows, table), deleted, persist')
    {
      hide Stands, Tracks, IndexesOk, FiledAlike;
      var was := RowsOf(rows, table);
      var hit := lib.first(conflicts);
      lookup', persist', affected, error := lookup, persist, 0, None;
      UnchangedFiledAlike(lib, SchemaOf(schemas, table), was);
      if hit !in was { error := Some(BadExpression); return; }
      var merged := merge(was[hit].data, data);
      var row := was[hit].(data := merged.data);
      if !merged.ok {
        StaleIndexesIff(lib, schemas, rows, indexes, table, hit, row);
        rows := rows[table := was[hit := row]];
        error := Some(BadExpression);
        return;
      }
      if merged.data == was[hit].data {
        assert was[hit := row] == was;
        return;
      }
      TracksPut(base, was, deleted, persist, hit, row);
      lookup' := DropRow(table, hit, lookup);
      lookup' := PutRow(table, hit, row, lookup');
      assert (was - {hit})[hit := row] == was[hit := row];
      persist', affected := persist[hit := row], 2;
    }

    /** One prepared row: the row check, its identity, its place. */
    method InsertOne(table: string, prepared: Prepared, options: Options, uuid: string, lookup: UniqueLookup, deleted: set<string>,
                     persist: TableRows, ghost base: TableRows)
      returns (lookup': UniqueLookup, deleted': set<string>, persist': TableRows, affected: nat, error: Option<InsertError>)
      requires IndexesMatch()
      requires Stands(lib, SchemaOf(schemas, table), lookup, RowsOf(rows, table))
      requires Tracks(base, RowsOf(rows, table), deleted, persist)
      modifies this`rows, this`indexes, this`autoInc
      ensures Step(RowsOf(rows, table), autoInc, affected, error)
           == InsertRow(Env(), settings, options, old(rows), table, old(autoInc), prepared, uuid)
      ensures rows == old(rows) || rows == old(rows)[table := RowsOf(rows, table)]
      ensures error == Some(BadExpression) ==> IndexesLag(table, RowsOf(old(rows), table))
      ensures error != Some(BadExpression) ==>
                IndexesMatch()
                && Stands(lib, SchemaOf(schemas, table), lookup', RowsOf(rows, table))
                && Tracks(base, RowsOf(rows, table), deleted', persist')
    {
      hide Stands, Tracks, IndexesOk, FiledAlike, Place, ForeignKeysAccept, ResolveRowId, Raised, WithIdentity;
      lookup', deleted', persist', affected, error := lookup, deleted, persist, 0, None;
      if prepared.Rejected? { error := Some(BadRow); return; }
      var data := prepared.data;
      var accepted := ValidateForeignKeyRow(table, data);
      if !accepted {
        if !options.ignore { error := Some(NoParent); }
        return;
      }
      var id, generated := ResolveId(table, data, uuid);
      var identity := Identity(id, generated, autoInc);
      RaiseCounter(table, id, generated);
      data := WithIdentity(SchemaOf(schemas, table), data, identity);
      PlaceIgnoresCounters(Env(), settings, options, table, RowsOf(rows, table), autoInc, identity, data);
      lookup', deleted', persist', affected, error :=
        PlaceRow(table, id, data, options, lookup, deleted, persist, base, identity.(counters := autoInc));
    }

    /** The rows of an INSERT one after the other, and the batch to store them. */
    method InsertLoop(table: string, prepared: seq<Prepared>, options: Options, uuids: nat -> string)
      returns (deleted: set<string>, persist: TableRows, affected: nat, error: Option<InsertError>)
      requires IndexesMatch()
      modifies this`rows, this`indexes, this`autoInc
      ensures Step(RowsOf(rows, table), autoInc, affected, error)
           == InsertRows(Env(), settings, options, old(rows), table, old(autoInc), prepared, uuids)
      ensures rows == old(rows) || rows == old(rows)[table := RowsOf(rows, table)]
      ensures error == Some(BadExpression) ==>
                IndexesLag(table, BeforeFailure(Env(), settings, options, old(rows), table, old(autoInc), prepared, uuids))
      ensures error != Some(BadExpression) ==> IndexesMatch() && Tracks(RowsOf(old(rows), table), RowsOf(rows, table), deleted, persist)
    {
      hide Stands, Tracks, IndexesOk, FiledAlike, InsertRow, InsertRows, BeforeFailure;
      ghost var start, base := rows, RowsOf(rows, table);
      var lookup: UniqueLookup := map[];
      if table in rows {
        lookup := BuildUniqueLookup(lib, SchemaOf(schemas, table), rows[table]);
      } else {
        EmptyLookupStands(lib, SchemaOf(schemas, table));
      }
      deleted, persist, affected, error := {}, map[], 0, None;
      TracksStart(base);
      NoRowsInserted(Env(), settings, options, rows, table, autoInc, prepared[..0], uuids);
      for i := 0 to |prepared|
        invariant error.None?
        invariant Step(RowsOf(rows, table), autoInc, affected, error)
               == InsertRows(Env(), settings, options, start, table, old(autoInc), prepared[..i], uuids)
        invariant rows == start || rows == start[table := RowsOf(rows, table)]
        invariant IndexesMatch()
        invariant Stands(lib, SchemaOf(schemas, table), lookup, RowsOf(rows, table))
        invariant Tracks(base, RowsOf(rows, table), deleted, persist)
      {
        OneMoreRow(Env(), settings, options, start, rows, table, old(autoInc), prepared, i, uuids);
        var more;
        lookup, deleted, persist, more, error := InsertOne(table, prepared[i], options, uuids(i), lookup, deleted, persist, base);
        affected := affected + more;
        if error.Some? {
          FailedHere(Env(), settings, options, start, table, old(autoInc), prepared, i, uuids);
          StoppedEarly(Env(), settings, options, start, table, old(autoInc), prepared, i + 1, uuids);
          return;
        }
      }
      assert prepared[..|prepared|] == prepared;
    }

    /** INSERT of prepared rows, in the mode of the options. The rows that result are those of the
        simple form; the indexes are those a rebuild would make; after success the store reloads
        to the rows; after a failure nothing has been stored, although earlier rows stay in memory,
        so the store is level exactly if the table reloads as before, and after a merge that failed
        midway the indexes match exactly if the merged row is filed as before; unique keys stay
        unique unless rows are merged. */
    method InsertPreparedRows(table: string, prepared: seq<Prepared>, options: Options, uuids: nat -> string)
      returns (affected: nat, error: Option<InsertError>)
      requires Coherent()
      modifies this`rows, this`indexes, this`autoInc, store
      ensures Step(RowsOf(rows, table), autoInc, affected, error)
           == InsertRows(Env(), settings, options, old(rows), table, old(autoInc), prepared, uuids)
      ensures forall t :: t != table ==> RowsOf(rows, t) == RowsOf(old(rows), t)
      ensures error != Some(BadExpression) ==> IndexesMatch()
      ensures error == Some(BadExpression) ==>
                IndexesLag(table, BeforeFailure(Env(), settings, options, old(rows), table, old(autoInc), prepared, uuids))
      ensures error.None? ==> Coherent()
      ensures error.Some? ==> store.Contents() == old(store.Contents())
      ensures error.Some? && persistent ==>
                (StoreMatches() <==> ReloadedRows(lib, RowsOf(rows, table)) == ReloadedRows(lib, RowsOf(old(rows), table)))
      ensures options.onDuplicate.None? ==>
                (Unique(lib, SchemaOf(schemas, table), RowsOf(old(rows), table)) ==> Unique(lib, SchemaOf(schemas, table), RowsOf(rows, table)))
    {
      hide Tracks, IndexesOk, FiledAlike, Unique, InsertRows, StoreOk, BeforeFailure, ReloadedRows;
      ghost var start, base, was := rows, RowsOf(rows, table), store.Contents();
      if options.onDuplicate.None? && Unique(lib, SchemaOf(schemas, table), base) {
        InsertRowsKeepUnique(Env(), settings, options, rows, table, autoInc, prepared, uuids);
      }
      var deleted, persist;
      deleted, persist, affected, error := InsertLoop(table, prepared, options, uuids);
      if error.Some? && persistent { UnwrittenStoreIff(lib, start, rows, table, was); }
      if error.None? && persistent {
        BatchLevels(lib, base, RowsOf(rows, table), deleted, persist);
        store.PersistRowBatch(lib, table, deleted, persist);
        StoreAfterBatch(lib, start, was, table, deleted, persist, rows, store.Contents());
      }
    }

    // ---------- DELETE ----------

    method ReferencesTo(parent: string) returns (refs: seq<Reference>)
      ensures refs == References(Env(), parent)
    {
      refs := [];
      assert order[0..] == order;
      for i := 0 to |order|
        invariant References(Env(), parent) == refs + ReferencesFrom(schemas, order[i..], parent)
      {
        assert order[i..][1..] == order[i + 1..];
        if order[i] in schemas {
          var keys := schemas[order[i]].foreignKeys;
          ghost var before := refs;
          assert keys[0..] == keys;
          for j := 0 to |keys|
            invariant before + Matching(order[i], keys, parent) == refs + Matching(order[i], keys[j..], parent)
          {
            assert keys[j..][1..] == keys[j + 1..];
            if EqIgnoreAsciiCase(keys[j].referencedTable, parent) {
              refs := refs + [Reference(order[i], keys[j])];
            }
          }
          assert keys[|keys|..] == [] && refs + [] == refs;
          assert before + (Matching(order[i], keys, parent) + ReferencesFrom(schemas, order[i + 1..], parent))
              == refs + ReferencesFrom(schemas, order[i + 1..], parent);
        }
      }
    }

    /** Remove rows of one table from the store, one by one. */
    method DeleteFromStorage(table: string, keys: set<string>)
      modifies store
      ensures forall t :: LoadRows(lib, store.Contents(), t)
                == if t == table then LoadRows(lib, old(store.Contents()), t) - keys else LoadRows(lib, old(store.Contents()), t)
    {
      hide LoadRows;
      ghost var was := store.Contents();
      var todo := keys;
      ghost var gone: set<string> := {};
      while todo != {}
        invariant todo <= keys && gone == keys - todo
        invariant forall t :: LoadRows(lib, store.Contents(), t) == if t == table then LoadRows(lib, was, t) - gone else LoadRows(lib, was, t)
        decreases |todo|
      {
        var k :| k in todo;
        store.DeleteRowFromStorage(lib, table, k);
        todo, gone := todo - {k}, gone + {k};
      }
      assert gone == keys;
    }

    /** Store some rows of one table, one by one. */
    method PersistRows(table: string, written: TableRows)
      modifies store
      ensures forall t :: LoadRows(lib, store.Contents(), t)
                == if t == table then LoadRows(lib, old(store.Contents()), t) + ReloadedRows(lib, written) else LoadRows(lib, old(store.Contents()), t)
    {
      hide LoadRows, Among, ReloadedRows;
      ghost var was := store.Contents();
      ghost var base := LoadRows(lib, was, table);
      AmongEnds(lib, base, written);
      var todo := written.Keys;
      ghost var done: set<string> := {};
      while todo != {}
        invariant todo <= written.Keys && done == written.Keys - todo
        invariant forall t :: LoadRows(lib, store.Contents(), t) == if t == table then base + Among(lib, written, done) else LoadRows(lib, was, t)
        decreases |todo|
      {
        var k :| k in todo;
        AmongOneMore(lib, base, written, done, k);
        store.PersistRow(lib, table, k, written[k]);
        todo, done := todo - {k}, done + {k};
      }
      assert done == written.Keys;
    }

    /** The rows of `keys` in `parent` are about to go: act on everything that references them.
        The recursion ends on every graph of foreign keys. */
    method ApplyParentDeleteActions(parent: string, keys: set<string>, visited: set<RowId>, ghost universe: set<RowId>, ghost rank: Option<string -> nat>)
      returns (visited': set<RowId>, error: Option<Error>)
      requires Within(rows, universe) && ActionState(parent, visited, rank)
      modifies this`rows, this`indexes, this`stored, store
      ensures ActionResult(Actions(Env(), old(rows), parent, keys, visited, universe), visited, old(store.Contents()), visited', error, old(stored), rank)
      decreases |universe - visited|, |keys|, 2, 0
    {
      hide Each, IndexesOk, StoreOk, Dropped;
      visited', error := visited, None;
      DroppedNothing(lib, store.Contents(), visited);
      var parents := Chosen(RowsOf(rows, parent), keys);
      if parents == map[] {
        assert stored + [] == stored;
        return;
      }
      assert keys != {};
      var refs := ReferencesTo(parent);
      forall ref { ReferencesAre(Env(), parent, ref); }
      visited', error := ActOnEach(parent, keys, parents, refs, visited, universe, rank);
    }

    /** What the actions rely on: indexes are those of the rows; on a ranked graph the store is
        level and visited rows of later tables are gone. */
    ghost predicate ActionState(parent: string, visited: set<RowId>, rank: Option<string -> nat>)
      reads this, store
    {
      && ValidEnv(Env()) && IndexesMatch()
      && (rank.Some? ==> Ranked(schemas, rank.value) && Settled(rows, visited, rank.value, rank.value(parent))
                         && (persistent ==> StoreMatches()))
    }

    /** What the actions come to. Without SET NULL the store has lost exactly the newly visited
        rows when they succeed. */
    ghost predicate ActionResult(o: Outcome, visited: set<RowId>, was: Store, visited': set<RowId>, error: Option<Error>, before: seq<Database>,
                                 rank: Option<string -> nat>)
      reads this, store
    {
      && rows == o.db && visited' == o.visited && error == o.error && stored == before + o.writes
      && IndexesMatch() && (rank.Some? && persistent ==> StoreMatches())
      && (NoSetNull(schemas) && error.None? ==> Dropped(lib, was, store.Contents(), visited' - visited))
    }

    method ActOnEach(parent: string, keys: set<string>, parents: TableRows, refs: seq<Reference>, visited: set<RowId>,
                     ghost universe: set<RowId>, ghost rank: Option<string -> nat>)
      returns (visited': set<RowId>, error: Option<Error>)
      requires Within(rows, universe) && keys != {} && ActionState(parent, visited, rank)
      requires forall ref :: ref in refs ==> Refers(schemas, ref, parent)
      modifies this`rows, this`indexes, this`stored, store
      ensures ActionResult(Each(Env(), refs, old(rows), parent, keys, parents, visited, universe), visited, old(store.Contents()), visited', error, old(stored), rank)
      decreases |universe - visited|, |keys|, 1, |refs|
    {
      hide One, IndexesOk, StoreOk, Settled, Ranked, Refers, NoSetNull, Dropped;
      visited', error := visited, None;
      DroppedNothing(lib, store.Contents(), visited);
      if refs == [] {
        assert stored + [] == stored;
        return;
      }
      ghost var start := rows;
      visited', error := ActOnOne(parent, keys, parents, refs[0], visited, universe, rank);
      if error.Some? { return; }
      ghost var o := One(Env(), refs[0], start, parent, keys, parents, visited, universe);
      if rank.Some? { FrameOne(Env(), refs[0], start, parent, keys, parents, visited, universe, rank.value); }
      FewerUnvisited(universe, visited, visited');
      ghost var mid := store.Contents();
      visited', error := ActOnEach(parent, keys, parents, refs[1..], visited', universe, rank);
      if NoSetNull(schemas) && error.None? { DroppedThen(lib, old(store.Contents()), mid, store.Contents(), visited, o.visited, visited'); }
      ghost var rest := Each(Env(), refs[1..], o.db, parent, keys, parents, o.visited, universe);
      assert old(stored) + o.writes + rest.writes == old(stored) + (o.writes + rest.writes);
    }

    method ActOnOne(parent: string, keys: set<string>, parents: TableRows, ref: Reference, visited: set<RowId>,
                    ghost universe: set<RowId>, ghost rank: Option<string -> nat>)
      returns (visited': set<RowId>, error: Option<Error>)
      requires Within(rows, universe) && keys != {} && ActionState(parent, visited, rank)
      requires Refers(schemas, ref, parent)
      modifies this`rows, this`indexes, this`stored, store
      ensures ActionResult(One(Env(), ref, old(rows), parent, keys, parents, visited, universe), visited, old(store.Contents()), visited', error, old(stored), rank)
      decreases |universe - visited|, |keys|, 0, 1
    {
      assert NoSetNull(schemas) ==> !ref.key.onDelete.SetNull?;
      hide One, Actions, ChildrenOf, IndexesOk, StoreOk, Settled, Ranked, Refers, NoSetNull, Dropped;
      visited', error := visited, None;
      DroppedNothing(lib, store.Contents(), visited);
      var children := RowsOf(rows, ref.table);
      var matching := ChildrenOf(lib, ref, parent, keys, parents, children);
      OneElsewise(Env(), ref, rows, parent, keys, parents, visited, universe);
      ChildrenExist(lib, ref, parent, keys, parents, children);
      assert stored + [] == stored;
      if matching == {} { return; }
      match ref.key.onDelete {
        case Cascade =>
          visited', error := CascadeTo(parent, keys, parents, ref, visited, matching, universe, rank);
        case SetNull =>
          WriteNulled(ref, matching);
        case Restrict =>
          error := Some(Restricted(ref.key.name));
        case Unsupported =>
          error := Some(UnsupportedAction);
      }
    }

    /** Store a table that an action has changed, and rebuild its index. */
    method WriteTable(table: string, written: TableRows)
      requires IndexesMatch()
      modifies this`rows, this`indexes, this`stored
      ensures rows == old(rows)[table := written] && stored == old(stored) + [rows] && IndexesMatch()
    {
      hide IndexOf;
      rows := rows[table := written];
      stored := stored + [rows];
      RebuildIndexes(table);
      IndexesAfterWrite(lib, schemas, old(rows), old(indexes), table, written, indexes);
    }

    method WriteNulled(ref: Reference, matching: set<string>)
      requires IndexesMatch() && matching != {}
      requires matching <= RowsOf(rows, ref.table).Keys
      modifies this`rows, this`indexes, this`stored, store
      ensures rows == old(rows)[ref.table := NullRows(RowsOf(old(rows), ref.table), matching, ref.key.columns)]
      ensures stored == old(stored) + [rows] && IndexesMatch()
      ensures old(StoreMatches()) ==> StoreMatches()
    {
      hide IndexesOk, LoadRows;
      var children := RowsOf(rows, ref.table);
      var nulled := NullRows(children, matching, ref.key.columns);
      PersistRows(ref.table, map k | k in matching && k in nulled :: nulled[k]);
      WriteTable(ref.table, nulled);
      NulledStoreOk(lib, children, nulled, matching, ref.key.columns);
    }

    method CascadeTo(parent: string, keys: set<string>, parents: TableRows, ref: Reference, visited: set<RowId>, matching: set<string>,
                     ghost universe: set<RowId>, ghost rank: Option<string -> nat>)
      returns (visited': set<RowId>, error: Option<Error>)
      requires Within(rows, universe) && keys != {} && ActionState(parent, visited, rank)
      requires Refers(schemas, ref, parent)
      requires ref.key.onDelete.Cascade? && matching != {}
      requires matching == ChildrenOf(lib, ref, parent, keys, parents, RowsOf(rows, ref.table))
      modifies this`rows, this`indexes, this`stored, store
      ensures ActionResult(One(Env(), ref, old(rows), parent, keys, parents, visited, universe), visited, old(store.Contents()), visited', error, old(stored), rank)
      decreases |universe - visited|, |keys|, 0, 0
    {
      hide One, Actions, ChildrenOf, IndexesOk, StoreOk, Settled, Ranked, Refers, LoadRows, NoSetNull, Dropped;
      ghost var start := rows;
      var children := RowsOf(rows, ref.table);
      var unseen := set k | k in matching && RowId(ref.table, k) !in visited;
      visited' := visited + RowIds(ref.table, unseen);
      ghost var entered := visited';
      OneCascadeUnseen(Env(), ref, rows, parent, keys, parents, visited, universe, unseen);
      if rank.Some? {
        RankGrows(schemas, ref, parent, rank.value);
        SettledAbove(rows, visited, ref.table, unseen, rank.value, rank.value(parent));
        FrameActions(Env(), rows, ref.table, unseen, visited', universe, rank.value);
      }
      visited', error := ApplyParentDeleteActions(ref.table, unseen, visited', universe, rank);
      if error.Some? { return; }
      ghost var o := Actions(Env(), start, ref.table, unseen, entered, universe);
      ghost var below, was := rows, store.Contents();
      DeleteFromStorage(ref.table, unseen);
      WriteTable(ref.table, children - unseen);
      if NoSetNull(schemas) { DroppedWith(lib, old(store.Contents()), was, store.Contents(), visited, ref.table, unseen, visited'); }
      assert old(stored) + o.writes + [rows] == old(stored) + (o.writes + [rows]);
      if rank.Some? && persistent {
        assert RowsOf(below, ref.table) == children;
        DroppedStoreOk(lib, below, was, ref.table, unseen, store.Contents());
      }
    }

    /** DELETE of the selected rows, all at once, on any graph of foreign keys. Without a cycle
        the store reloads to the rows, the indexes are those a rebuild would make, and integrity is
        kept in every stored state. With cycles, of CASCADE and RESTRICT keys, a DELETE that succeeds
        always takes the least closed set out of the store, and leaves everything level exactly if
        it is calm. */
    method DeleteSelected(table: string, keys: set<string>) returns (error: Option<Error>)
      requires Coherent() && keys <= RowsOf(rows, table).Keys
      modifies this`rows, this`indexes, this`stored, store
      ensures var o := DeleteRows(Env(), old(rows), table, keys);
              error == o.error && stored == old(stored) + o.writes && forall t :: RowsOf(rows, t) == RowsOf(o.db, t)
      ensures Acyclic(schemas) ==> Coherent()
      ensures Acyclic(schemas) && NullsUnreferenced(schemas) && Integrity(Env(), old(rows)) ==>
                Integrity(Env(), rows) && AllIntact(Env(), stored[|old(stored)|..])
      ensures GoodGraph(Env(), table) && error.None? ==> DeletedCalmly(table, keys, old(rows), old(store.Contents()))
    {
      hide Actions, IndexesOk, StoreOk, Acyclic, Universe, LoadRows, Integrity, NullsUnreferenced, AllIntact, NoSetNull, NamesApart, Dropped, DeletedCalmly, IndexedColumns;
      ghost var rank := RankOf(schemas);
      var current := RowsOf(rows, table);
      ghost var start, startStore := rows, store.Contents();
      if rank.Some? {
        DeletedIsIntact(Env(), start, table, keys, rank.value);
        NothingVisited(start, rank.value, rank.value(table));
      }
      if keys == {} {
        if GoodGraph(Env(), table) { NothingIsCalm(table); }
        return None;
      }
      var visited;
      visited, error := ApplyParentDeleteActions(table, keys, {}, Universe(rows), rank);
      if error.Some? { return; }
      ghost var below, was := rows, store.Contents();
      if rank.Some? { FrameActions(Env(), start, table, keys, {}, Universe(start), rank.value); }
      RemoveRows(table, current, keys);
      stored := stored + [below[table := current - keys]];
      ghost var o := Actions(Env(), start, table, keys, {}, Universe(start));
      assert old(stored) + o.writes + [below[table := current - keys]] == old(stored) + (o.writes + [below[table := current - keys]]);
      if persistent {
        store.PersistRowBatch(lib, table, keys, map[]);
        NothingReloads(lib, LoadRows(lib, was, table) - keys);
        if rank.Some? { DroppedStoreOk(lib, below, was, table, keys, store.Contents()); }
      }
      if GoodGraph(Env(), table) {
        OnlySome(Env(), start, table, keys);
        assert visited - {} == visited;
        CalmOrNot(table, keys, start, startStore, was);
      }
    }
    /** How a DELETE on a graph of CASCADE and RESTRICT keys, cycles allowed, leaves the engine. */
    ghost predicate DeletedCalmly(table: string, keys: set<string>, start: Database, was: Store)
      reads this, store
    {
      && (persistent ==> Dropped(lib, was, store.Contents(), Visited(Env(), start, table, keys)))
      && (persistent ==> (Coherent() <==> CalmDelete(Env(), start, table, keys)))
      && (CalmDelete(Env(), start, table, keys) ==> Coherent() && (Integrity(Env(), start) ==> Integrity(Env(), rows)))
      && (table in schemas && IndexedColumns(schemas[table].indexes) != {} ==>
            (IndexesMatch() <==> OwnRowsLeftAlone(Env(), start, table, keys)))
    }

    lemma NothingIsCalm(table: string)
      requires Coherent()
      ensures DeletedCalmly(table, {}, rows, store.Contents())
    {
      hide IndexesOk, StoreOk, Integrity, CalmDelete, OwnRowsLeftAlone, Visited;
      DroppedNothing(lib, store.Contents(), {});
      NothingDeleted(Env(), rows, table);
    }

    lemma CalmOrNot(table: string, keys: set<string>, start: Database, startStore: Store, was: Store)
      requires GoodGraph(Env(), table) && DeleteRows(Env(), start, table, keys).error.None? && keys <= RowsOf(start, table).Keys
      requires forall t :: RowsOf(rows, t) == RowsOf(DeleteRows(Env(), start, table, keys).db, t)
      requires persistent ==> StoreOk(lib, start, startStore) && Dropped(lib, startStore, was, DeleteRows(Env(), start, table, keys).visited)
                              && forall t :: LoadRows(lib, store.Contents(), t) == if t == table then LoadRows(lib, was, t) - keys else LoadRows(lib, was, t)
      requires OwnRowsLeftAlone(Env(), start, table, keys) ==> IndexesMatch()
      requires table in schemas && IndexedColumns(schemas[table].indexes) != {} && IndexesMatch() ==> OwnRowsLeftAlone(Env(), start, table, keys)
      ensures DeletedCalmly(table, keys, start, startStore)
    {
      hide IndexesOk, StoreOk, LoadRows, Integrity, CalmDelete, OwnRowsLeftAlone, Visited, DeleteRows, NoSetNull, NamesApart, Dropped, IndexedColumns;
      if persistent { StoreAfterDelete(Env(), start, table, keys, startStore, was, store.Contents(), rows); }
      if CalmDelete(Env(), start, table, keys) {
        CalmLeavesOwnRows(Env(), start, table, keys);
        CalmStaysIntact(Env(), start, table, keys, rows);
      }
    }

    /** DELETE IGNORE of the rows in `keys`, one after the other: the table loses exactly those whose
        actions nothing stops at their turn, and so does the store. */
    method DeletePassingOver(table: string, keys: seq<string>) returns (deleted: set<string>)
      requires Coherent() && forall k :: k in keys ==> k in RowsOf(rows, table)
      modifies this`rows, this`indexes, this`stored, store
      ensures var i := DeleteIgnoring(Env(), old(rows), table, keys);
              deleted == i.deletable && stored == old(stored) + i.writes && forall t :: RowsOf(rows, t) == RowsOf(i.db, t)
      ensures forall k :: k in deleted <==> IgnoredDeletes.LetGo(Env(), old(rows), table, keys, k)
      ensures forall k :: k in RowsOf(old(rows), table) ==> (k !in RowsOf(rows, table) <==> k in deleted)
      ensures Part(RowsOf(rows, table), RowsOf(old(rows), table))
      ensures persistent ==> forall k :: k in deleted ==> k !in LoadRows(lib, store.Contents(), table)
      ensures Acyclic(schemas) ==> Coherent()
      ensures Acyclic(schemas) && NullsUnreferenced(schemas) && Integrity(Env(), old(rows)) ==>
                Integrity(Env(), rows) && AllIntact(Env(), stored[|old(stored)|..])
    {
      hide Actions, IndexesOk, StoreOk, Acyclic, Ranked, Universe, LoadRows, IgnoreActions, Integrity, NullsUnreferenced, AllIntact, IgnoredDeletes.LetGo;
      IgnoredDeletes.IgnoredDeleteRemoves(Env(), rows, table, keys);
      ghost var rank := RankOf(schemas);
      if rank.Some? { IgnoredIsIntact(Env(), rows, table, keys, rank.value); }
      if keys == [] {
        assert stored + [] == stored;
        return {};
      }
      var current := RowsOf(rows, table);
      ghost var before := stored;
      ghost var i := IgnoreActions(Env(), rows, table, keys);
      deleted := PassOver(table, keys, rank);
      ghost var below, was := rows, store.Contents();
      RemoveRows(table, current, deleted);
      stored := stored + [below[table := current - deleted]];
      assert before + i.writes + [below[table := current - deleted]] == before + (i.writes + [below[table := current - deleted]]);
      if persistent {
        store.PersistRowBatch(lib, table, deleted, map[]);
        NothingReloads(lib, LoadRows(lib, was, table) - deleted);
        if rank.Some? { DroppedStoreOk(lib, below, was, table, deleted, store.Contents()); }
      }
    }

    /** The actions of the rows in `keys`, one after the other; `deleted` are those nothing stopped. */
    method PassOver(table: string, keys: seq<string>, ghost rank: Option<string -> nat>) returns (deleted: set<string>)
      requires ValidEnv(Env()) && IndexesMatch()
      requires rank.Some? ==> Ranked(schemas, rank.value) && (persistent ==> StoreMatches())
      modifies this`rows, this`indexes, this`stored, store
      ensures var i := IgnoreActions(Env(), old(rows), table, keys);
              rows == i.db && deleted == i.deletable && stored == old(stored) + i.writes
      ensures IndexesMatch()
      ensures rank.Some? ==> RowsOf(rows, table) == RowsOf(old(rows), table) && (persistent ==> StoreMatches())
    {
      hide Actions, IndexesOk, StoreOk, Ranked, Universe, LoadRows, IgnoreActions;
      ghost var start, before := rows, stored;
      deleted := {};
      IgnoreNothing(Env(), rows, table, keys[..0]);
      assert before + [] == before;
      for n := 0 to |keys|
        invariant var so := IgnoreActions(Env(), start, table, keys[..n]); so.db == rows && so.deletable == deleted && stored == before + so.writes
        invariant IndexesMatch()
        invariant rank.Some? ==> RowsOf(rows, table) == RowsOf(start, table) && (persistent ==> StoreMatches())
      {
        IgnoreOneMore(Env(), start, table, keys, n);
        if rank.Some? {
          NothingVisited(rows, rank.value, rank.value(table));
          FrameActions(Env(), rows, table, {keys[n]}, {}, Universe(rows), rank.value);
        }
        ghost var so := IgnoreActions(Env(), start, table, keys[..n]);
        ghost var o := Actions(Env(), rows, table, {keys[n]}, {}, Universe(rows));
        var visited, error := ApplyParentDeleteActions(table, {keys[n]}, {}, Universe(rows), rank);
        assert before + so.writes + o.writes == before + (so.writes + o.writes);
        if error.None? { deleted := deleted + {keys[n]}; } else { assert deleted + {} == deleted; }
      }
      assert keys[..|keys|] == keys;
    }

    /** The table as it was without the selected rows, and the index with their entries taken out.
        The actions may have left fewer rows in the table, and in the index. */
    method RemoveRows(table: string, current: TableRows, keys: set<string>)
      requires IndexesMatch()
      modifies this`rows, this`indexes
      ensures rows == old(rows)[table := current - keys]
      ensures var left := RowsOf(old(rows), table);
              Part(left, current) ==>
                (left - keys == current - keys ==> IndexesMatch())
                && (table in schemas && IndexedColumns(schemas[table].indexes) != {} && IndexesMatch() ==> left - keys == current - keys)
    {
      hide IndexOf, Unfiled;
      assert IndexOk(lib, schemas, rows, indexes, table);
      ghost var start, startIndexes, left := rows, indexes, RowsOf(rows, table);
      rows := rows[table := current - keys];
      if table in schemas && table in indexes {
        var index := UnfileRows(lib, schemas[table], indexes[table], current, left, keys);
        indexes := indexes[table := index];
      }
      if Part(left, current) {
        assert forall k :: k in keys ==> AgreeAt(current, left, k);
        IndexesAfterRemoval(lib, schemas, start, startIndexes, table, left - keys, current - keys, indexes);
      }
    }

    // ---------- UPDATE: the actions on children ----------

    method PushActions(table: string, keys: set<string>, columns: seq<string>, values: seq<Value>, before: seq<ChildAction>)
      returns (actions: seq<ChildAction>)
      ensures ActsFurther(before, actions, table, keys, columns, values)
      ensures forall a :: a in actions ==> a in before || (a.table == table && a.key in keys)
    {
      hide ActsFurther;
      actions := before;
      NothingPushed(before, table, columns, values);
      var todo := keys;
      ghost var done: set<string> := {};
      while todo != {}
        invariant todo <= keys && done == keys - todo
        invariant ActsFurther(before, actions, table, done, columns, values)
        invariant forall a :: a in actions ==> a in before || (a.table == table && a.key in keys)
        decreases |todo|
      {
        var k :| k in todo;
        ActsOneFurther(before, actions, table, done, columns, values, k);
        actions := actions + [ChildAction(table, k, columns, values)];
        todo, done := todo - {k}, done + {k};
      }
      assert done == keys;
    }

    /** The actions of one key, or the error when it forbids a change. */
    method GatherForKey(ref: Reference, changes: seq<Change>, before: seq<ChildAction>) returns (actions: seq<ChildAction>, error: Option<Error>)
      requires forall a :: a in before ==> a.key in RowsOf(rows, a.table)
      ensures error.Some? <==> Forbids(lib, rows, ref, changes)
      ensures error.None? ==> ActsForKey(lib, rows, before, actions, ref, changes)
      ensures error.None? ==> forall a :: a in actions ==> a.key in RowsOf(rows, a.table)
    {
      hide ActsForKey, ActsFurther, ChildMatches, NewValues;
      var children := RowsOf(rows, ref.table);
      actions, error := before, None;
      NothingActsYet(lib, rows, before, ref);
      for i := 0 to |changes|
        invariant !Forbids(lib, rows, ref, changes[..i])
        invariant ActsForKey(lib, rows, before, actions, ref, changes[..i])
        invariant forall a :: a in actions ==> a.key in RowsOf(rows, a.table)
      {
        ghost var so := actions;
        var oldValues := Values(changes[i].before, ref.key.referencedColumns);
        var newValues := Values(changes[i].after, ref.key.referencedColumns);
        var matching := if oldValues == newValues then {}
                        else set k | k in children && ChildMatches(lib, children[k].data, ref.key.columns, oldValues);
        assert matching == HitRows(lib, ref, changes[i], children);
        ForbidsOneMore(lib, rows, ref, changes, i);
        if matching != {} {
          match ref.key.onUpdate {
            case Restrict =>
              error := Some(Restricted(ref.key.name));
              ForbidsPrefix(lib, rows, ref, changes, i + 1);
              return;
            case Unsupported =>
              error := Some(UnsupportedAction);
              ForbidsPrefix(lib, rows, ref, changes, i + 1);
              return;
            case Cascade =>
              ValuesGiven(ref.key, changes[i]);
              actions := PushActions(ref.table, matching, ref.key.columns, newValues, actions);
            case SetNull =>
              ValuesGiven(ref.key, changes[i]);
              actions := PushActions(ref.table, matching, ref.key.columns, seq(|ref.key.columns|, _ => Null), actions);
          }
        } else {
          NothingHit(lib, ref, changes[i], children, actions);
        }
        ActsForOneMoreChange(lib, rows, before, so, actions, ref, changes, i);
      }
      assert changes[..|changes|] == changes;
    }

    /** All child actions of the changes, computed from the children as they are now. */
    method GatherActions(parent: string, changes: seq<Change>) returns (actions: seq<ChildAction>, error: Option<Error>)
      ensures error.Some? <==> Blocked(Env(), rows, parent, changes)
      ensures error.None? ==> ActsForKeys(lib, rows, actions, OtherReferences(Env(), parent), changes)
      ensures error.None? ==> forall a :: a in actions ==> a.key in RowsOf(rows, a.table)
    {
      hide ActsForKey, ActsForKeys, Forbids, EqIgnoreAsciiCase, References, Blocked;
      var refs := ReferencesTo(parent);
      actions, error := [], None;
      NothingActsAtAll(lib, rows, changes);
      BlockedBySome(Env(), rows, parent, changes);
      assert OtherReferences(Env(), parent) == Others(refs, parent);
      for i := 0 to |refs|
        invariant error.None?
        invariant forall ref :: ref in Others(refs[..i], parent) ==> !Forbids(lib, rows, ref, changes)
        invariant ActsForKeys(lib, rows, actions, Others(refs[..i], parent), changes)
        invariant forall a :: a in actions ==> a.key in RowsOf(rows, a.table)
      {
        ghost var so := actions;
        assert refs[..i + 1] == refs[..i] + [refs[i]];
        OthersSnoc(refs[..i], refs[i], parent);
        if EqIgnoreAsciiCase(refs[i].table, parent) {
          assert Others(refs[..i], parent) + [] == Others(refs[..i], parent);
        } else {
          actions, error := GatherForKey(refs[i], changes, actions);
          if error.Some? {
            OthersAre(refs, parent, refs[i]);
            return;
          }
          ActsForOneMoreKey(lib, rows, so, actions, Others(refs[..i], parent), refs[i], changes);
        }
      }
      assert refs[..|refs|] == refs;
    }

    /** The tables that the actions change, with the changed rows. */
    method GroupActions(actions: seq<ChildAction>) returns (byTable: Database)
      requires forall a :: a in actions ==> a.key in RowsOf(rows, a.table)
      ensures forall t :: t in byTable <==> exists a :: a in actions && a.table == t
      ensures forall t :: t in byTable ==> byTable[t] == ActedRows(actions, t, RowsOf(rows, t))
    {
      hide Assigned, ActedRows;
      byTable := map[];
      for i := 0 to |actions|
        invariant forall t :: t in byTable <==> exists a :: a in actions[..i] && a.table == t
        invariant forall t :: t in byTable ==> byTable[t] == ActedRows(actions[..i], t, RowsOf(rows, t))
      {
        var a := actions[i];
        assert a in actions;
        assert actions[..i + 1] == actions[..i] + [a];
        if a.table !in byTable { UntouchedTable(actions[..i], a.table, RowsOf(rows, a.table)); }
        forall t { ActedRowsSnoc(actions[..i], a, t, RowsOf(rows, t)); }
        var children := if a.table in byTable then byTable[a.table] else RowsOf(rows, a.table);
        assert children == ActedRows(actions[..i], a.table, RowsOf(rows, a.table));
        byTable := byTable[a.table := children[a.key := children[a.key].(data := Assigned(children[a.key].data, a.columns, a.values))]];
      }
      assert actions[..|actions|] == actions;
    }

    /** CASCADE, SET NULL and RESTRICT of an UPDATE of the parent. Nothing is written unless all
        of it is allowed. */
    method ApplyParentUpdateActions(parent: string, changes: seq<Change>) returns (error: Option<Error>)
      requires IndexesMatch()
      modifies this`rows, this`indexes, this`stored, store
      ensures error.Some? <==> Blocked(Env(), old(rows), parent, changes)
      ensures error.Some? ==> rows == old(rows) && indexes == old(indexes) && store.Contents() == old(store.Contents())
      ensures error.None? ==> forall t :: RowsOf(rows, t) == RowsOf(ChildrenAfter(Env(), old(rows), parent, changes), t)
      ensures IndexesMatch() && (persistent && old(StoreMatches()) ==> StoreMatches())
    {
      hide IndexesOk, StoreOk, Blocked, ActsForKeys, OtherReferences, ActedRows;
      NoChangesNoActions(Env(), rows, parent);
      if changes == [] { return None; }
      var actions;
      actions, error := GatherActions(parent, changes);
      if error.Some? { return; }
      var byTable := GroupActions(actions);
      ghost var start, startStore := rows, store.Contents();
      WriteTables(byTable);
      forall t ensures RowsOf(rows, t) == RowsOf(ChildrenAfter(Env(), start, parent, changes), t) {
        ActionsMakeChildren(Env(), start, parent, changes, actions, t);
        if t !in byTable { UntouchedTable(actions, t, RowsOf(start, t)); }
      }
    }

    /** Store whole tables, row by row, and rebuild their indexes. */
    method WriteTables(tables: Database)
      requires IndexesMatch() && forall t :: t in tables ==> tables[t].Keys == RowsOf(rows, t).Keys
      modifies this`rows, this`indexes, this`stored, store
      ensures forall t :: RowsOf(rows, t) == if t in tables then tables[t] else RowsOf(old(rows), t)
      ensures IndexesMatch() && (persistent && old(StoreMatches()) ==> StoreMatches())
    {
      hide IndexesOk, StoreOk;
      ghost var start := rows;
      var todo := tables.Keys;
      while todo != {}
        invariant todo <= tables.Keys
        invariant forall t :: RowsOf(rows, t) == if t in tables && t !in todo then tables[t] else RowsOf(start, t)
        invariant IndexesMatch() && (persistent && old(StoreMatches()) ==> StoreMatches())
        decreases |todo|
      {
        var t :| t in todo;
        WriteWholeTable(t, tables[t]);
        todo := todo - {t};
      }
    }

    method WriteWholeTable(table: string, written: TableRows)
      requires IndexesMatch() && written.Keys == RowsOf(rows, table).Keys
      modifies this`rows, this`indexes, this`stored, store
      ensures rows == old(rows)[table := written]
      ensures IndexesMatch() && (old(StoreMatches()) ==> StoreMatches())
    {
      hide IndexesOk, LoadRows, ReloadedRows;
      WholeTableReloads(lib, RowsOf(rows, table), written);
      PersistRows(table, written);
      WriteTable(table, written);
    }

    // ---------- UPDATE ----------

    /** The loop over the rows: the rows as they will be, those to store, those to delete, and the
        changes of data. */
    method WalkRows(table: string, keys: seq<string>, given: map<string, Prepared>, ignore: bool)
      returns (next: TableRows, changed: TableRows, deleted: set<string>, changes: seq<Change>, error: Option<UpdateError>)
      requires Lists(keys, RowsOf(rows, table))
      ensures Walk(Update(Env(), settings, rows, table, given, ignore), keys)
           == if error.Some? then Failed(error.value) else Going(next, changed, deleted, changes)
    {
      hide Lists, Conflicts, ForeignKeysAccept, Walk, Visit;
      var current := RowsOf(rows, table);
      ghost var u := Update(Env(), settings, rows, table, given, ignore);
      assert forall k :: k in keys <==> k in current by { ListsAll(keys, current); }
      next, changed, deleted, changes, error := map[], map[], {}, [], None;
      WalkNothing(u);
      assert keys[..0] == [];
      for i := 0 to |keys|
        invariant error.None?
        invariant Walk(u, keys[..i]) == Going(next, changed, deleted, changes)
      {
        WalkOneMore(u, keys, i);
        VisitCases(u, Going(next, changed, deleted, changes), keys[i]);
        var k := keys[i];
        var accepted := true;
        if k in given && given[k].Ready? { accepted := ValidateForeignKeyRow(table, given[k].data); }
        if !settings.enforcesUniqueness && k in deleted {
          // Overwritten by an earlier row.
        } else if k !in given {
          next := next[k := current[k]];
        } else if given[k].Rejected? {
          error := Some(BadAssignment);
        } else if !accepted {
          if ignore { next := next[k := current[k]]; } else { error := Some(MissingParent); }
        } else {
          next, changed, deleted, changes, error := MoveRow(table, k, current[k], given[k].data, next, changed, deleted, changes, u);
        }
        if error.Some? {
          WalkStops(u, keys, i + 1);
          return;
        }
      }
      assert keys[..|keys|] == keys;
    }

    /** A matched row gives up its old key and takes its new one. */
    method MoveRow(table: string, oldKey: string, row: StoredRow, data: Row, next: TableRows, changed: TableRows, deleted: set<string>,
                   changes: seq<Change>, ghost u: Update)
      returns (next': TableRows, changed': TableRows, deleted': set<string>, changes': seq<Change>, error: Option<UpdateError>)
      requires u.env == Env() && u.settings == settings && u.table == table && oldKey in Old(u) && Old(u)[oldKey] == row
      requires Touched(u, oldKey) && u.given[oldKey].data == data
      ensures Move(u, Going(next, changed, deleted, changes), oldKey)
           == if error.Some? then Failed(error.value) else Going(next', changed', deleted', changes')
    {
      hide ForeignKeysAccept, Conflicts;
      var schema := SchemaOf(schemas, table);
      var id := NewId(schema, row, data);
      var newKey := lib.text(id);
      var moved := StoredRow(id, row.table, data);
      next', changed', deleted', changes', error := next, changed, deleted, changes, None;
      if row.data != data { changes' := changes' + [Change(row.data, data)]; }
      next' := next' - {oldKey};
      if newKey != oldKey {
        deleted', changed' := deleted' + {oldKey}, changed' - {oldKey};
      }
      if !settings.enforcesUniqueness {
        var conflicts := FindConflictKeys(lib, schema, newKey, data, next');
        next', deleted', changed' := next' - conflicts, deleted' + conflicts, changed' - conflicts;
      } else if newKey in next' {
        error := Some(KeyTaken);
        return;
      }
      next', changed' := next'[newKey := moved], changed'[newKey := moved];
    }

    /** UPDATE of the matched rows, visited in the order `keys`. One that fails changes nothing.
        One that succeeds leaves the indexes level with the rows exactly if the hidden rows are
        filed like the rows the batch has in their place, and the store exactly if they are read
        back the same. When no row moves to the key of a later row, nothing is hidden. */
    method UpdateRows(table: string, keys: seq<string>, given: map<string, Prepared>, ignore: bool) returns (error: Option<UpdateError>)
      requires Coherent() && Lists(keys, RowsOf(rows, table))
      modifies this`rows, this`indexes, this`stored, store
      ensures error.Some? ==> rows == old(rows) && indexes == old(indexes) && store.Contents() == old(store.Contents())
      ensures table !in schemas ==> error == Some(UnknownTable)
      ensures table in schemas ==>
                var u := Update(Env(), settings, old(rows), table, given, ignore);
                error == Verdict(u, Walk(u, keys)) && (error.None? ==> UpdateDone(u, keys))
    {
      hide IndexesOk, StoreOk, Lists, Walk, Blocked, ChildrenAfter, ConstraintsHold, Hidden, StoredAlike, IndexedAlike, NoneOvertakes, FiledAlike;
      if table !in schemas { return Some(UnknownTable); }
      var current := RowsOf(rows, table);
      ghost var u := Update(Env(), settings, rows, table, given, ignore);
      ghost var start := rows;
      ListsAll(keys, current);
      var next, changed, deleted, changes;
      next, changed, deleted, changes, error := WalkRows(table, keys, given, ignore);
      if error.Some? { return; }
      if settings.enforcesUniqueness {
        var unique := ValidateUniqueConstraints(lib, schemas[table], next);
        if !unique { return Some(DuplicateKey); }
      }
      var blocked := ApplyParentUpdateActions(table, changes);
      if blocked.Some? { return Some(StillReferenced); }
      ParentIsNoChild(Env(), start, table, changes);
      NothingToWalk(u, keys);
      ghost var mid, midStore := rows, store.Contents();
      ReplaceRows(table, current, next, changed, deleted);
      if persistent {
        store.PersistRowBatch(lib, table, deleted, changed);
        UpdatedStore(u, keys, mid, midStore, store.Contents());
      }
      UpdateTracks(u, keys);
      BatchFilesIff(u, keys);
      if NoneOvertakes(u, keys) { NoneOvertakesNoneHidden(u, keys); }
      forall t ensures RowsOf(rows, t) == RowsOf(Updated(Env(), start, table, next, changes), t) {
        RowsAfterUpdate(Env(), start, mid, table, next, changes, t);
      }
    }

    ghost predicate UpdateDone(u: Update, keys: seq<string>)
      reads this, store
    {
      && (forall k :: k in keys ==> k in Old(u)) && Walk(u, keys).Going?
      && (forall t :: RowsOf(rows, t) == RowsOf(Updated(u.env, u.db, u.table, Walk(u, keys).next, Walk(u, keys).changes), t))
      && (IndexesMatch() <==> IndexedAlike(u, Hidden(u, keys), Walk(u, keys).changed))
      && (persistent ==> (StoreMatches() <==> StoredAlike(u, Hidden(u, keys), Walk(u, keys).changed)))
      && (NoneOvertakes(u, keys) ==> Coherent())
    }

    /** The new rows of the table, and its index moved along with the changes. */
    method ReplaceRows(table: string, current: TableRows, next: TableRows, changed: TableRows, deleted: set<string>)
      requires IndexesMatch() && table in schemas && RowsOf(rows, table) == current
      requires current == map[] ==> next == map[] && changed == map[]
      modifies this`rows, this`indexes
      ensures rows == old(rows)[table := next]
      ensures var filed := (current - deleted) + changed;
              next.Keys == filed.Keys ==> (IndexesMatch() <==> FiledAlike(lib, schemas[table], filed, next))
    {
      hide IndexOf, FiledAlike;
      assert IndexOk(lib, schemas, rows, indexes, table);
      ghost var start, startIndexes := rows, indexes;
      rows := rows[table := next];
      if table in indexes {
        var index := UnfileRows(lib, schemas[table], indexes[table], current, current, deleted);
        index := RefileRows(lib, schemas[table], index, current, current - deleted, changed);
        indexes := indexes[table := index];
        IndexedAsFiled(lib, schemas, start, startIndexes, table, (current - deleted) + changed, next, indexes);
      } else {
        assert forall t :: IndexOk(lib, schemas, start, startIndexes, t) ==> IndexOk(lib, schemas, rows, indexes, t);
        if next.Keys == ((current - deleted) + changed).Keys { NothingFiled(lib, schemas[table], (current - deleted) + changed, next); }
      }
    }

    // ---------- TRUNCATE ----------

    /** The rows, the counters and the stored rows of one table go together. */
    method TruncateTable(table: string)
      requires Coherent() && table in schemas
      modifies this`rows, this`indexes, this`autoInc, store
      ensures rows == old(rows)[table := map[]] && autoInc == ClearedCounters(old(autoInc), table)
      ensures Coherent()
    {
      hide IndexesOk, LoadRows, IndexOf;
      ghost var start, startIndexes := rows, indexes;
      rows := rows[table := map[]];
      indexes := indexes - {table};
      autoInc := ClearedCounters(autoInc, table);
      RebuildIndexes(table);
      assert indexes == startIndexes[table := IndexOf(lib, schemas[table], map[])];
      IndexesAfterWrite(lib, schemas, start, startIndexes, table, map[], indexes);
      store.DeleteTableRowsFromStorage(lib, table);
      NoRowsReload(lib);
    }

    /** TRUNCATE. Unknown tables are passed over, or in strict mode end the statement; the tables
        before stay truncated. */
    method TruncateTables(tables: seq<string>, strict: bool) returns (ok: bool)
      requires Coherent()
      modifies this`rows, this`indexes, this`autoInc, store
      ensures ok <==> !strict || forall t :: t in tables ==> t in schemas
      ensures forall t :: RowsOf(rows, t) == if t in Reached(schemas, tables, strict) then map[] else RowsOf(old(rows), t)
      ensures autoInc == ClearedFor(old(autoInc), Reached(schemas, tables, strict))
      ensures Coherent()
    {
      hide IndexesOk, StoreOk, ClearedFor, ClearedCounters, Reached;
      ghost var start, counters := rows, autoInc;
      ghost var done: set<string> := {};
      NoneCleared(autoInc);
      for i := 0 to |tables|
        invariant strict ==> forall j :: 0 <= j < i ==> tables[j] in schemas
        invariant forall t :: t in done <==> t in tables[..i] && t in schemas
        invariant forall t :: RowsOf(rows, t) == if t in done then map[] else RowsOf(start, t)
        invariant autoInc == ClearedFor(counters, done)
        invariant Coherent()
      {
        OneMoreTable(tables, i);
        if tables[i] in schemas {
          OneMoreCleared(counters, done, tables[i]);
          TruncateTable(tables[i]);
          done := done + {tables[i]};
        } else if strict {
          ReachedAre(schemas, tables, strict, i);
          assert done == Reached(schemas, tables, strict);
          return false;
        }
      }
      assert tables[..|tables|] == tables;
      ReachedAre(schemas, tables, strict, |tables|);
      assert done == Reached(schemas, tables, strict);
      return true;
    }
  }

  /** The counters left when several tables have been truncated. */
  function ClearedFor(counters: Counters, tables: set<string>): Counters {
    map c | c in counters && (forall t :: t in tables ==> !(t + ":" <= c)) :: counters[c]
  }

  lemma NoneCleared(counters: Counters)
    ensures ClearedFor(counters, {}) == counters
  {
  }

  lemma OneMoreCleared(counters: Counters, tables: set<string>, t: string)
    ensures ClearedCounters(ClearedFor(counters, tables), t) == ClearedFor(counters, tables + {t})
  {
  }

  lemma OneMoreTable(tables: seq<string>, i: nat)
    requires i < |tables|
    ensures forall t :: t in tables[..i + 1] <==> t in tables[..i] || t == tables[i]
  {
    assert tables[..i + 1] == tables[..i] + [tables[i]];
  }

  /** The tables a TRUNCATE gets to. */
  function Reached(schemas: Schemas, tables: seq<string>, strict: bool): set<string> {
    if tables == [] || (strict && tables[0] !in schemas) then {}
    else (if tables[0] in schemas then {tables[0]} else {}) + Reached(schemas, tables[1..], strict)
  }

  lemma {:induction false} ReachedAre(schemas: Schemas, tables: seq<string>, strict: bool, n: nat)
    requires n <= |tables| && (strict ==> forall j :: 0 <= j < n ==> tables[j] in schemas)
    requires n == |tables| || (strict && tables[n] !in schemas)
    ensures forall t :: t in Reached(schemas, tables, strict) <==> t in tables[..n] && t in schemas
    decreases n
  {
    if n > 0 {
      ReachedAre(schemas, tables[1..], strict, n - 1);
      assert tables[..n] == [tables[0]] + tables[1..][..n - 1];
    }
  }

  lemma NoRowsReload(lib: Library)
    ensures ReloadedRows(lib, map[]) == map[]
  {
  }

  lemma {:induction false} IgnoreNothing(env: Env, db: Database, table: string, keys: seq<string>)
    requires keys == []
    ensures IgnoreActions(env, db, table, keys) == Ignored(db, {}, [])
  {
  }

  lemma {:induction false} IgnoreOneMore(env: Env, db: Database, table: string, keys: seq<string>, n: nat)
    requires n < |keys|
    ensures var so := IgnoreActions(env, db, table, keys[..n]);
            var o := Actions(env, so.db, table, {keys[n]}, {}, Universe(so.db));
            var i := IgnoreActions(env, db, table, keys[..n + 1]);
            i.db == o.db && i.writes == so.writes + o.writes && i.deletable == so.deletable + if o.error.None? then {keys[n]} else {}
  {
    hide Actions, Universe;
    assert keys[..n + 1][..n] == keys[..n];
  }

  /** The hidden rows and the rows that are in the batch in their place are read back the same. */
  ghost predicate StoredAlike(u: Update, hidden: set<string>, changed: TableRows) {
    forall n :: n in hidden && n in changed && n in Old(u) ==> Reloaded(u.env.lib, changed[n]) == Reloaded(u.env.lib, Old(u)[n])
  }

  /** The hidden rows and the rows that are in the batch in their place are filed alike under
      every indexed column. */
  ghost predicate IndexedAlike(u: Update, hidden: set<string>, changed: TableRows) {
    forall n, c :: n in hidden && n in changed && n in Old(u) && c in IndexedColumns(SchemaOfUpdate(u).indexes) ==>
      IndexText(u.env.lib, SchemaOfUpdate(u), changed[n].data, c) == IndexText(u.env.lib, SchemaOfUpdate(u), Old(u)[n].data, c)
  }

  lemma {:induction false} NothingToWalk(u: Update, keys: seq<string>)
    requires Lists(keys, Old(u))
    ensures Old(u) == map[] ==> Walk(u, keys) == Going(map[], map[], {}, [])
  {
    if keys != [] { assert keys[0] in keys; }
  }

  lemma ParentIsNoChild(env: Env, db: Database, parent: string, changes: seq<Change>)
    ensures RowsOf(ChildrenAfter(env, db, parent, changes), parent) == RowsOf(db, parent)
  {
    var refs := OtherReferences(env, parent);
    forall ref | ref in refs ensures ref.table != parent {
      OthersAre(References(env, parent), parent, ref);
      EqIgnoreRefl(parent);
    }
    hide OtherReferences;
    forall d { OtherTablesKeys(env.lib, refs, changes, parent, d, d); }
    hide AfterKeys;
  }

  lemma {:induction false} OtherTablesKeys(lib: Library, refs: seq<Reference>, changes: seq<Change>, table: string, before: Row, data: Row)
    requires forall ref :: ref in refs ==> ref.table != table
    ensures AfterKeys(lib, refs, changes, table, before, data) == data
    decreases |refs|
  {
    hide AfterKey;
    if refs != [] {
      assert refs[|refs| - 1] in refs;
      OtherTablesKeys(lib, refs[..|refs| - 1], changes, table, before, data);
    }
  }

  lemma RowsAfterUpdate(env: Env, db: Database, mid: Database, table: string, next: TableRows, changes: seq<Change>, t: string)
    requires RowsOf(mid, t) == RowsOf(ChildrenAfter(env, db, table, changes), t)
    ensures RowsOf(mid[table := next], t) == RowsOf(Updated(env, db, table, next, changes), t)
  {
    hide ChildrenAfter;
  }

  /** The rows an UPDATE makes are those its batch accounts for, but for the hidden ones. */
  lemma {:induction false} UpdateTracks(u: Update, keys: seq<string>)
    requires Lists(keys, Old(u)) && Walk(u, keys).Going?
    ensures var w := Walk(u, keys);
            var batch := (Old(u) - w.deleted) + w.changed;
            && Hidden(u, keys) <= w.changed.Keys && Hidden(u, keys) <= Old(u).Keys && w.next.Keys == batch.Keys
            && (forall n :: n in w.next ==> if n in Hidden(u, keys) then batch[n] == w.changed[n] && w.next[n] == Old(u)[n] else w.next[n] == batch[n])
  {
    hide Walk, Hidden;
    WalkTracks(u, keys);
    AllListed(u, keys);
    ChosenHas(Old(u), Hidden(u, keys));
  }

  lemma BatchReloads(lib: Library, rows: TableRows, deleted: set<string>, changed: TableRows)
    ensures (ReloadedRows(lib, rows) - deleted) + ReloadedRows(lib, changed) == ReloadedRows(lib, (rows - deleted) + changed)
  {
    hide Reloaded;
  }

  /** The batch of an UPDATE brings the store level exactly when the hidden rows are stored like
      the rows in their place. */
  lemma {:induction false} BatchLevelsIff(u: Update, keys: seq<string>)
    requires Lists(keys, Old(u)) && Walk(u, keys).Going?
    ensures var w := Walk(u, keys);
            ReloadedRows(u.env.lib, (Old(u) - w.deleted) + w.changed) == ReloadedRows(u.env.lib, w.next) <==> StoredAlike(u, Hidden(u, keys), Walk(u, keys).changed)
  {
    hide Walk, Hidden, Reloaded, Lists;
    ListsAll(keys, Old(u));
    var w := Walk(u, keys);
    var lib, batch := u.env.lib, (Old(u) - w.deleted) + w.changed;
    UpdateTracks(u, keys);
    if ReloadedRows(lib, batch) == ReloadedRows(lib, w.next) {
      forall n | n in Hidden(u, keys) ensures Reloaded(lib, w.changed[n]) == Reloaded(lib, Old(u)[n]) {
        assert n in batch;
        assert ReloadedRows(lib, batch)[n] == ReloadedRows(lib, w.next)[n];
      }
    }
  }

  /** The index that follows the batch is that of the rows exactly when the hidden rows are filed
      like the rows in their place. */
  lemma {:induction false} BatchFilesIff(u: Update, keys: seq<string>)
    requires Lists(keys, Old(u)) && Walk(u, keys).Going?
    ensures var w := Walk(u, keys);
            FiledAlike(u.env.lib, SchemaOfUpdate(u), (Old(u) - w.deleted) + w.changed, w.next) <==> IndexedAlike(u, Hidden(u, keys), Walk(u, keys).changed)
  {
    hide Walk, Hidden, IndexText, IndexedColumns, Lists;
    ListsAll(keys, Old(u));
    var w := Walk(u, keys);
    var lib, schema, batch := u.env.lib, SchemaOfUpdate(u), (Old(u) - w.deleted) + w.changed;
    UpdateTracks(u, keys);
    if FiledAlike(lib, schema, batch, w.next) {
      forall n, c | n in Hidden(u, keys) && c in IndexedColumns(schema.indexes)
        ensures IndexText(lib, schema, w.changed[n].data, c) == IndexText(lib, schema, Old(u)[n].data, c)
      {
        assert n in batch && n in w.next;
      }
    }
  }

  /** When no row moves to the key of a later row, nothing is hidden. */
  lemma {:induction false} NoneOvertakesNoneHidden(u: Update, keys: seq<string>)
    requires Lists(keys, Old(u)) && Walk(u, keys).Going? && NoneOvertakes(u, keys)
    ensures StoredAlike(u, Hidden(u, keys), Walk(u, keys).changed) && IndexedAlike(u, Hidden(u, keys), Walk(u, keys).changed)
  {
    hide Walk, Hidden, NoneOvertakes, Clobbered;
    NoneOvertakesNoneClobbers(u, keys);
    HiddenIsClobbered(u, keys);
  }

  lemma {:induction false} UpdatedStore(u: Update, keys: seq<string>, mid: Database, midStore: Store, after: Store)
    requires Lists(keys, Old(u)) && Walk(u, keys).Going? && StoreOk(u.env.lib, mid, midStore) && RowsOf(mid, u.table) == Old(u)
    requires var w := Walk(u, keys);
             forall t :: LoadRows(u.env.lib, after, t)
               == if t == u.table then (LoadRows(u.env.lib, midStore, t) - w.deleted) + ReloadedRows(u.env.lib, w.changed)
                  else LoadRows(u.env.lib, midStore, t)
    ensures StoreOk(u.env.lib, mid[u.table := Walk(u, keys).next], after) <==> StoredAlike(u, Hidden(u, keys), Walk(u, keys).changed)
  {
    hide Walk, LoadRows, ReloadedRows, StoredAlike, Lists;
    ListsAll(keys, Old(u));
    var w := Walk(u, keys);
    BatchReloads(u.env.lib, Old(u), w.deleted, w.changed);
    BatchLevelsIff(u, keys);
    var db := mid[u.table := w.next];
    assert forall t :: t != u.table ==> RowsOf(db, t) == RowsOf(mid, t);
    assert StoreOk(u.env.lib, db, after) <==> LoadRows(u.env.lib, after, u.table) == ReloadedRows(u.env.lib, w.next);
  }

  lemma ListsAll(keys: seq<string>, rows: TableRows)
    requires Lists(keys, rows)
    ensures forall k :: k in keys <==> k in rows
  {
  }

  lemma {:induction false} WalkNothing(u: Update)
    ensures Walk(u, []) == Going(map[], map[], {}, [])
  {
  }

  lemma VisitCases(u: Update, w: Walked, k: string)
    requires w.Going? && k in Old(u)
    ensures Visit(u, w, k)
         == if !u.settings.enforcesUniqueness && k in w.deleted then w
            else if k !in u.given then w.(next := w.next[k := Old(u)[k]])
            else if u.given[k].Rejected? then Failed(BadAssignment)
            else if !ForeignKeysAccept(u.env, u.db, u.table, u.given[k].data) then
              (if u.ignore then w.(next := w.next[k := Old(u)[k]]) else Failed(MissingParent))
            else Move(u, w, k)
  {
    hide ForeignKeysAccept, Move;
  }

  /** The key is RESTRICT or has an unknown action, and a change hits a row. */
  ghost predicate Forbids(lib: Library, db: Database, ref: Reference, changes: seq<Change>) {
    (ref.key.onUpdate.Restrict? || ref.key.onUpdate.Unsupported?)
    && exists i :: 0 <= i < |changes| && HitRows(lib, ref, changes[i], RowsOf(db, ref.table)) != {}
  }

  lemma ForbidsOneMore(lib: Library, db: Database, ref: Reference, changes: seq<Change>, i: nat)
    requires i < |changes|
    ensures Forbids(lib, db, ref, changes[..i + 1])
       <==> Forbids(lib, db, ref, changes[..i])
            || ((ref.key.onUpdate.Restrict? || ref.key.onUpdate.Unsupported?) && HitRows(lib, ref, changes[i], RowsOf(db, ref.table)) != {})
  {
    hide HitRows;
    var before, after := changes[..i], changes[..i + 1];
    assert after[i] == changes[i];
    forall j | 0 <= j < i ensures after[j] == before[j] {}
  }

  lemma ForbidsPrefix(lib: Library, db: Database, ref: Reference, changes: seq<Change>, i: nat)
    requires i <= |changes| && Forbids(lib, db, ref, changes[..i])
    ensures Forbids(lib, db, ref, changes)
  {
    hide HitRows;
    var j :| 0 <= j < i && HitRows(lib, ref, changes[..i][j], RowsOf(db, ref.table)) != {};
    assert changes[j] == changes[..i][j];
  }

  lemma BlockedBySome(env: Env, db: Database, parent: string, changes: seq<Change>)
    ensures Blocked(env, db, parent, changes) <==> exists ref :: ref in OtherReferences(env, parent) && Forbids(env.lib, db, ref, changes)
  {
    hide Hit, OtherReferences;
    if ref, i, k :| ref in OtherReferences(env, parent) && 0 <= i < |changes| && k in RowsOf(db, ref.table)
                    && (ref.key.onUpdate.Restrict? || ref.key.onUpdate.Unsupported?)
                    && Hit(env.lib, ref.key, changes[i], RowsOf(db, ref.table)[k].data) {
      assert k in HitRows(env.lib, ref, changes[i], RowsOf(db, ref.table));
      assert Forbids(env.lib, db, ref, changes);
    }
    if ref :| ref in OtherReferences(env, parent) && Forbids(env.lib, db, ref, changes) {
      var i :| 0 <= i < |changes| && HitRows(env.lib, ref, changes[i], RowsOf(db, ref.table)) != {};
      var k :| k in HitRows(env.lib, ref, changes[i], RowsOf(db, ref.table));
      assert Hit(env.lib, ref.key, changes[i], RowsOf(db, ref.table)[k].data);
    }
  }

  lemma NothingPushed(before: seq<ChildAction>, table: string, columns: seq<string>, values: seq<Value>)
    ensures ActsFurther(before, before, table, {}, columns, values)
  {
    hide Acted;
  }

  lemma NothingActsAtAll(lib: Library, db: Database, changes: seq<Change>)
    ensures ActsForKeys(lib, db, [], [], changes)
  {
  }

  lemma ValuesGiven(key: ForeignKey, change: Change)
    ensures key.onUpdate.Cascade? ==> NewValues(key, change) == Values(change.after, key.referencedColumns)
    ensures key.onUpdate.SetNull? ==> NewValues(key, change) == seq(|key.columns|, _ => Null)
  {
  }

  lemma UntouchedTable(actions: seq<ChildAction>, table: string, rows: TableRows)
    requires forall a :: a in actions ==> a.table != table
    ensures ActedRows(actions, table, rows) == rows
  {
    hide Acted;
    forall k | k in rows { ActedElsewhere(actions, table, k, rows[k].data); }
  }

  lemma ActedRowsSnoc(actions: seq<ChildAction>, a: ChildAction, table: string, rows: TableRows)
    ensures ActedRows(actions + [a], table, rows)
         == (var so := ActedRows(actions, table, rows);
             if a.table == table && a.key in rows then so[a.key := so[a.key].(data := Assigned(so[a.key].data, a.columns, a.values))] else so)
  {
    hide Acted, Assigned;
    forall k | k in rows { ActedSnoc(actions, a, table, k, rows[k].data); }
  }

  lemma ActionsMakeChildren(env: Env, db: Database, parent: string, changes: seq<Change>, actions: seq<ChildAction>, t: string)
    requires ActsForKeys(env.lib, db, actions, OtherReferences(env, parent), changes)
    ensures ActedRows(actions, t, RowsOf(db, t)) == RowsOf(ChildrenAfter(env, db, parent, changes), t)
  {
    hide Acted, AfterKeys, OtherReferences;
  }

  lemma WholeTableReloads(lib: Library, before: TableRows, after: TableRows)
    requires after.Keys == before.Keys
    ensures ReloadedRows(lib, before) + ReloadedRows(lib, after) == ReloadedRows(lib, after)
  {
    hide Reloaded;
  }

  function KeysOf(gone: set<RowId>, table: string): set<string> { set v | v in gone && v.table == table :: v.key }

  /** The store has lost the rows in `gone`, and nothing else. */
  ghost predicate Dropped(lib: Library, was: Store, s: Store, gone: set<RowId>) {
    forall t :: LoadRows(lib, s, t) == LoadRows(lib, was, t) - KeysOf(gone, t)
  }

  lemma DroppedNothing(lib: Library, s: Store, visited: set<RowId>)
    ensures Dropped(lib, s, s, visited - visited) && Dropped(lib, s, s, {})
  {
    hide LoadRows;
    forall t ensures LoadRows(lib, s, t) - KeysOf(visited - visited, t) == LoadRows(lib, s, t) {}
  }

  lemma DroppedThen(lib: Library, a: Store, b: Store, c: Store, u: set<RowId>, v: set<RowId>, w: set<RowId>)
    requires u <= v <= w && Dropped(lib, a, b, v - u) && Dropped(lib, b, c, w - v)
    ensures Dropped(lib, a, c, w - u)
  {
    hide LoadRows;
    forall t ensures LoadRows(lib, c, t) == LoadRows(lib, a, t) - KeysOf(w - u, t) {
      KeysOfMore(w - u, v - u, w - v, t);
      WithoutBoth(LoadRows(lib, a, t), KeysOf(v - u, t), KeysOf(w - v, t));
    }
  }

  lemma KeysOfMore(all: set<RowId>, some: set<RowId>, more: set<RowId>, t: string)
    requires all == some + more
    ensures KeysOf(all, t) == KeysOf(some, t) + KeysOf(more, t)
  {
  }

  lemma WithoutBoth(rows: TableRows, a: set<string>, b: set<string>)
    ensures (rows - a) - b == rows - (a + b)
  {
  }

  /** The rows of one table go after those below them. */
  lemma DroppedWith(lib: Library, was: Store, mid: Store, s: Store, visited: set<RowId>, table: string, unseen: set<string>, visited': set<RowId>)
    requires visited + RowIds(table, unseen) <= visited' && forall k :: k in unseen ==> RowId(table, k) !in visited
    requires Dropped(lib, was, mid, visited' - (visited + RowIds(table, unseen)))
    requires forall t :: LoadRows(lib, s, t) == if t == table then LoadRows(lib, mid, t) - unseen else LoadRows(lib, mid, t)
    ensures Dropped(lib, was, s, visited' - visited)
  {
    hide LoadRows;
    var ids := RowIds(table, unseen);
    var rest := visited' - (visited + ids);
    assert visited' - visited == rest + ids;
    forall t ensures LoadRows(lib, s, t) == LoadRows(lib, was, t) - KeysOf(visited' - visited, t) {
      KeysOfMore(visited' - visited, rest, ids, t);
      KeysOfIds(table, unseen, t);
      WithoutBoth(LoadRows(lib, was, t), KeysOf(rest, t), KeysOf(ids, t));
    }
  }

  lemma KeysOfIds(table: string, keys: set<string>, t: string)
    ensures KeysOf(RowIds(table, keys), t) == if t == table then keys else {}
  {
    forall k | k in keys ensures RowId(table, k) in RowIds(table, keys) {}
  }

  ghost predicate Acyclic(schemas: Schemas) { exists rank: string -> nat :: Ranked(schemas, rank) }

  /** Some rank, if there is one. */
  ghost function RankOf(schemas: Schemas): (r: Option<string -> nat>)
    ensures r.Some? <==> Acyclic(schemas)
    ensures r.Some? ==> Ranked(schemas, r.value)
  {
    if Acyclic(schemas) then
      var rank: string -> nat :| Ranked(schemas, rank);
      Some(rank)
    else None
  }

  /** The store without some rows is level with a table state exactly if those rows are the ones
      removed. */
  lemma LevelIff(lib: Library, db: Database, db': Database, s: Store, gone: set<RowId>)
    requires Sub(db, db') && Removed(db, db') <= gone <= Universe(db)
    requires forall t :: LoadRows(lib, s, t) == ReloadedRows(lib, RowsOf(db, t)) - KeysOf(gone, t)
    ensures StoreOk(lib, db', s) <==> Removed(db, db') == gone
  {
    hide LoadRows, Reloaded, Universe;
    forall r { InUniverse(db, r); }
    if StoreOk(lib, db', s) {
      forall v | v in gone ensures v.key !in RowsOf(db', v.table) {
        assert v.key in KeysOf(gone, v.table);
        assert LoadRows(lib, s, v.table) == ReloadedRows(lib, RowsOf(db', v.table));
      }
    }
    if Removed(db, db') == gone {
      forall t ensures LoadRows(lib, s, t) == ReloadedRows(lib, RowsOf(db', t)) { RowsLeft(lib, db, db', gone, t); }
    }
  }

  lemma RowsLeft(lib: Library, db: Database, db': Database, gone: set<RowId>, t: string)
    requires Sub(db, db') && Removed(db, db') == gone
    ensures ReloadedRows(lib, RowsOf(db, t)) - KeysOf(gone, t) == ReloadedRows(lib, RowsOf(db', t))
  {
    hide Reloaded, Universe;
    forall k ensures k in RowsOf(db', t) <==> k in RowsOf(db, t) && k !in KeysOf(gone, t) {
      InUniverse(db, RowId(t, k));
      if k in KeysOf(gone, t) { assert RowId(t, k) in gone; }
      if RowId(t, k) in gone { assert k in KeysOf(gone, t); }
    }
  }

  /** The store after a successful DELETE on a graph of CASCADE and RESTRICT keys. */
  lemma StoreAfterDelete(env: Env, start: Database, table: string, keys: set<string>, startStore: Store, was: Store, end: Store, after: Database)
    requires GoodGraph(env, table) && DeleteRows(env, start, table, keys).error.None? && keys <= RowsOf(start, table).Keys
    requires StoreOk(env.lib, start, startStore) && forall t :: RowsOf(after, t) == RowsOf(DeleteRows(env, start, table, keys).db, t)
    requires Dropped(env.lib, startStore, was, DeleteRows(env, start, table, keys).visited)
    requires forall t :: LoadRows(env.lib, end, t) == if t == table then LoadRows(env.lib, was, t) - keys else LoadRows(env.lib, was, t)
    ensures Dropped(env.lib, startStore, end, Visited(env, start, table, keys))
    ensures StoreOk(env.lib, after, end) <==> CalmDelete(env, start, table, keys)
  {
    hide LoadRows, Universe, CalmDelete, GoodGraph, ReloadedRows, LeastClosed, Swept, DeleteRows;
    var lib, s := env.lib, Visited(env, start, table, keys);
    var visited := DeleteRows(env, start, table, keys).visited;
    assert Chosen(RowsOf(start, table), keys).Keys == keys;
    forall t ensures LoadRows(lib, end, t) == LoadRows(lib, startStore, t) - KeysOf(s, t) {
      KeysOfMore(s, visited, RowIds(table, keys), t);
      KeysOfIds(table, keys, t);
      WithoutBoth(LoadRows(lib, startStore, t), KeysOf(visited, t), KeysOf(RowIds(table, keys), t));
    }
    DeleteVisitsLeastClosedSet(env, start, table, keys);
    VisitedExist(env, start, table, keys);
    DeleteRemovesThemIffCalm(env, start, table, keys);
    SameRowsSameRemoved(start, DeleteRows(env, start, table, keys).db, after);
    forall t ensures LoadRows(lib, end, t) == ReloadedRows(lib, RowsOf(start, t)) - KeysOf(s, t) {
      assert LoadRows(lib, startStore, t) == ReloadedRows(lib, RowsOf(start, t));
    }
    LevelIff(lib, start, after, end, s);
  }

  lemma SameRowsSameRemoved(db: Database, a: Database, b: Database)
    requires forall t :: RowsOf(a, t) == RowsOf(b, t)
    ensures Removed(db, a) == Removed(db, b) && (Sub(db, a) ==> Sub(db, b))
  {
    hide Universe;
  }

  /** What the actions leave of the table is part of it. */
  lemma {:induction false} OnlySome(env: Env, db: Database, table: string, keys: set<string>)
    requires GoodGraph(env, table)
    ensures Part(RowsOf(Actions(env, db, table, keys, {}, Universe(db)).db, table), RowsOf(db, table))
  {
    hide Actions, Universe, NoSetNull, NamesApart;
    ActionsOnlyRemove(env, db, table, keys, {}, Universe(db));
  }

  lemma CalmStaysIntact(env: Env, db: Database, table: string, keys: set<string>, after: Database)
    requires GoodGraph(env, table) && DeleteRows(env, db, table, keys).error.None? && CalmDelete(env, db, table, keys)
    requires forall t :: RowsOf(after, t) == RowsOf(DeleteRows(env, db, table, keys).db, t)
    ensures Integrity(env, db) ==> Integrity(env, after)
  {
    hide Integrity, DeleteRows, CalmDelete, GoodGraph;
    if Integrity(env, db) {
      CalmDeleteKeepsIntegrity(env, db, table, keys);
      SameRowsStayIntact(env, DeleteRows(env, db, table, keys).db, after);
    }
  }

  lemma NothingDeleted(env: Env, db: Database, table: string)
    ensures CalmDelete(env, db, table, {}) && Visited(env, db, table, {}) == {} && OwnRowsLeftAlone(env, db, table, {})
  {
    hide Universe;
    assert Chosen(RowsOf(db, table), {}) == map[];
  }

  /** For any tables with the rows a DELETE leaves. */
  lemma DeletedIsIntact(env: Env, db: Database, table: string, keys: set<string>, rank: string -> nat)
    requires ValidEnv(env) && Ranked(env.schemas, rank)
    ensures NullsUnreferenced(env.schemas) && Integrity(env, db) ==>
              var o := DeleteRows(env, db, table, keys);
              AllIntact(env, o.writes) && forall db' :: (forall t :: RowsOf(db', t) == RowsOf(o.db, t)) ==> Integrity(env, db')
  {
    hide Integrity, NullsUnreferenced, Ranked, DeleteRows, AllIntact;
    if NullsUnreferenced(env.schemas) && Integrity(env, db) {
      DeleteKeepsIntegrity(env, db, table, keys, rank);
      var o := DeleteRows(env, db, table, keys);
      forall db' | (forall t :: RowsOf(db', t) == RowsOf(o.db, t)) ensures Integrity(env, db') {
        SameRowsStayIntact(env, o.db, db');
      }
    }
  }

  lemma IgnoredIsIntact(env: Env, db: Database, table: string, keys: seq<string>, rank: string -> nat)
    requires ValidEnv(env) && Ranked(env.schemas, rank)
    ensures NullsUnreferenced(env.schemas) && Integrity(env, db) ==>
              var i := DeleteIgnoring(env, db, table, keys);
              AllIntact(env, i.writes) && forall db' :: (forall t :: RowsOf(db', t) == RowsOf(i.db, t)) ==> Integrity(env, db')
  {
    hide Integrity, NullsUnreferenced, Ranked, DeleteIgnoring, AllIntact;
    if NullsUnreferenced(env.schemas) && Integrity(env, db) {
      DeleteIgnoringKeepsIntegrity(env, db, table, keys, rank);
      var i := DeleteIgnoring(env, db, table, keys);
      forall db' | (forall t :: RowsOf(db', t) == RowsOf(i.db, t)) ensures Integrity(env, db') {
        SameRowsStayIntact(env, i.db, db');
      }
    }
  }

  lemma NothingVisited(db: Database, rank: string -> nat, r: nat)
    ensures Settled(db, {}, rank, r)
  {
  }

  lemma NothingReloads(lib: Library, base: TableRows)
    ensures base + ReloadedRows(lib, map[]) == base
  {
  }

  /** Rows of one table are dropped from memory and from the store. */
  lemma DroppedStoreOk(lib: Library, db: Database, s: Store, table: string, keys: set<string>, s': Store)
    requires StoreOk(lib, db, s)
    requires forall t :: LoadRows(lib, s', t) == if t == table then LoadRows(lib, s, t) - keys else LoadRows(lib, s, t)
    ensures StoreOk(lib, db[table := RowsOf(db, table) - keys], s')
  {
    hide LoadRows, Reloaded;
    var db' := db[table := RowsOf(db, table) - keys];
    forall t ensures LoadRows(lib, s', t) == ReloadedRows(lib, RowsOf(db', t)) {
      assert LoadRows(lib, s, t) == ReloadedRows(lib, RowsOf(db, t));
    }
  }

  lemma NulledStoreOk(lib: Library, children: TableRows, nulled: TableRows, matching: set<string>, columns: seq<string>)
    requires nulled == NullRows(children, matching, columns) && matching <= children.Keys
    ensures ReloadedRows(lib, children) + ReloadedRows(lib, map k | k in matching && k in nulled :: nulled[k]) == ReloadedRows(lib, nulled)
  {
    hide Reloaded, NullColumns;
  }

  lemma ConflictsExist(lib: Library, schema: Schema, key: string, data: Row, rows: TableRows)
    ensures Conflicts(lib, schema, key, data, rows) <= rows.Keys
    ensures key !in Conflicts(lib, schema, key, data, rows) ==> key !in rows
  {
  }

  lemma EmptyLookupStands(lib: Library, schema: Schema)
    ensures Stands(lib, schema, map[], map[])
  {
    forall i | 0 <= i < |schema.unique| { GroupedNothing(lib, schema, schema.unique[i]); }
  }

  lemma TracksStart(base: TableRows)
    ensures Tracks(base, base, {}, map[])
  {
  }

  /** The store after one statement's batch. */
  lemma StoreAfterBatch(lib: Library, before: Database, s: Store, table: string, deleted: set<string>, persist: TableRows,
                        after: Database, s': Store)
    requires StoreOk(lib, before, s)
    requires forall t :: t != table ==> RowsOf(after, t) == RowsOf(before, t)
    requires (ReloadedRows(lib, RowsOf(before, table)) - deleted) + ReloadedRows(lib, persist) == ReloadedRows(lib, RowsOf(after, table))
    requires forall t :: LoadRows(lib, s', t)
               == if t == table then (LoadRows(lib, s, t) - deleted) + ReloadedRows(lib, persist) else LoadRows(lib, s, t)
    ensures StoreOk(lib, after, s')
  {
    hide LoadRows, ReloadedRows;
  }

  /** A step depends on the rows of the tables only. */
  lemma SameRowsSameStep(env: Env, settings: Settings, options: Options, db: Database, db': Database, table: string, counters: Counters,
                         row: Prepared, uuid: string)
    requires forall t :: RowsOf(db', t) == RowsOf(db, t)
    ensures InsertRow(env, settings, options, db', table, counters, row, uuid) == InsertRow(env, settings, options, db, table, counters, row, uuid)
  {
    if row.Ready? && table in env.schemas {
      forall key ensures KeyAccepts(env, db', key, row.data) == KeyAccepts(env, db, key, row.data) {}
    }
    hide Place, ResolveRowId, KeyAccepts;
  }

  lemma {:induction false} NoRowsInserted(env: Env, settings: Settings, options: Options, db: Database, table: string, counters: Counters,
                                          rows: seq<Prepared>, uuids: nat -> string)
    requires rows == []
    ensures InsertRows(env, settings, options, db, table, counters, rows, uuids) == Step(RowsOf(db, table), counters, 0, None)
  {
  }

  lemma {:induction false} OneMoreRow(env: Env, settings: Settings, options: Options, db: Database, db': Database, table: string, counters: Counters,
                                      rows: seq<Prepared>, i: nat, uuids: nat -> string)
    requires i < |rows|
    requires var before := InsertRows(env, settings, options, db, table, counters, rows[..i], uuids);
             before.error.None? && forall t :: RowsOf(db', t) == if t == table then before.rows else RowsOf(db, t)
    ensures var before := InsertRows(env, settings, options, db, table, counters, rows[..i], uuids);
            var step := InsertRow(env, settings, options, db', table, before.counters, rows[i], uuids(i));
            InsertRows(env, settings, options, db, table, counters, rows[..i + 1], uuids)
            == step.(affected := before.affected + step.affected)
  {
    hide InsertRow;
    var before := InsertRows(env, settings, options, db, table, counters, rows[..i], uuids);
    assert rows[..i + 1][..i] == rows[..i];
    SameRowsSameStep(env, settings, options, db', db[table := before.rows], table, before.counters, rows[i], uuids(i));
  }

  /** After a failed row the rest is not looked at. */
  lemma {:induction false} StoppedEarly(env: Env, settings: Settings, options: Options, db: Database, table: string, counters: Counters,
                                        rows: seq<Prepared>, n: nat, uuids: nat -> string)
    requires n <= |rows| && InsertRows(env, settings, options, db, table, counters, rows[..n], uuids).error.Some?
    ensures InsertRows(env, settings, options, db, table, counters, rows, uuids)
         == InsertRows(env, settings, options, db, table, counters, rows[..n], uuids)
    decreases |rows|
  {
    hide InsertRow;
    if n == |rows| {
      assert rows[..n] == rows;
    } else {
      assert rows[..|rows| - 1][..n] == rows[..n];
      StoppedEarly(env, settings, options, db, table, counters, rows[..|rows| - 1], n, uuids);
    }
  }

  lemma UnwrittenStoreIff(lib: Library, before: Database, after: Database, table: string, s: Store)
    requires StoreOk(lib, before, s) && forall t :: t != table ==> RowsOf(after, t) == RowsOf(before, t)
    ensures StoreOk(lib, after, s) <==> ReloadedRows(lib, RowsOf(after, table)) == ReloadedRows(lib, RowsOf(before, table))
  {
    hide LoadRows, ReloadedRows;
    assert LoadRows(lib, s, table) == ReloadedRows(lib, RowsOf(before, table));
  }

  lemma {:induction false} FailedHere(env: Env, settings: Settings, options: Options, db: Database, table: string, counters: Counters,
                                      rows: seq<Prepared>, n: nat, uuids: nat -> string)
    requires n < |rows| && InsertRows(env, settings, options, db, table, counters, rows[..n], uuids).error.None?
    requires InsertRows(env, settings, options, db, table, counters, rows[..n + 1], uuids).error.Some?
    ensures BeforeFailure(env, settings, options, db, table, counters, rows, uuids)
         == InsertRows(env, settings, options, db, table, counters, rows[..n], uuids).rows
    decreases |rows|
  {
    hide InsertRow, InsertRows;
    var m := |rows| - 1;
    if n == m {
      assert rows[..m + 1] == rows;
    } else {
      assert rows[..m][..n] == rows[..n] && rows[..m][..n + 1] == rows[..n + 1];
      FailedHere(env, settings, options, db, table, counters, rows[..m], n, uuids);
      StoppedEarly(env, settings, options, db, table, counters, rows[..m], n + 1, uuids);
    }
  }

  lemma PlaceIgnoresCounters(env: Env, settings: Settings, options: Options, table: string, rows: TableRows, counters: Counters,
                             identity: Identity, data: Row)
    ensures Place(env, settings, options, table, rows, counters, identity, data)
         == Place(env, settings, options, table, rows, counters, identity.(counters := counters), data)
  {
    hide Conflicts;
  }

  lemma LocalNulls(data: Row, columns: seq<string>)
    ensures Null !in Values(data, columns) <==> NoneNull(data, columns)
  {
    var values := Values(data, columns);
    if Null !in values {
      forall i | 0 <= i < |columns| ensures ValueOf(data, columns[i]) != Null { assert values[i] in values; }
    }
  }
}
