/** Referential integrity over whole runs of statements. */
module RunIntegrity {
  import opened Wrappers
  import opened Json
  import opened Catalog
  import opened UniqueKeys
  import opened ForeignKeys
  import opened ParentUpdate
  import opened DeleteIntegrity
  import opened Inserting
  import opened UpdateSteps
  import opened Runs

  // ---------- what the schema shows ----------

  predicate TakesIdentity(schema: Schema, column: string) {
    if |schema.primaryKey| == 1 then column == schema.primaryKey[0] else schema.autoColumn == Some("id") && column == "id"
  }

  /** A referenced column is shown by the schema as that column alone determines. */
  ghost predicate LocalViews(env: Env) {
    forall t, a, b, c :: RefColumn(env.schemas, t, c) && SameAt(a, b, c) ==> ValueOf(View(env, t, a), c) == ValueOf(View(env, t, b), c)
  }

  /** An identity written into a referenced column is shown as it is. */
  ghost predicate ShowsIdentity(env: Env, t: string, id: Value) {
    forall c, data :: RefColumn(env.schemas, t, c) && TakesIdentity(SchemaOf(env.schemas, t), c) && c in data && data[c] == id
      ==> ValueOf(View(env, t, data), c) == id
  }

  ghost predicate SoundViews(env: Env) {
    LocalViews(env) && (forall t, n :: ShowsIdentity(env, t, Num(n))) && forall t, c :: RefColumn(env.schemas, t, c) ==> '.' !in c
  }

  lemma ShownByColumns(env: Env, t: string, a: Row, b: Row)
    requires LocalViews(env) && ShownRow(env, t, a) && forall c :: RefColumn(env.schemas, t, c) ==> SameAt(a, b, c)
    ensures ShownRow(env, t, b)
  {
    hide View, RefColumn;
    forall c | RefColumn(env.schemas, t, c) ensures ValueOf(View(env, t, b), c) == ValueOf(b, c) {
      assert SameAt(a, b, c) && ValueOf(View(env, t, a), c) == ValueOf(a, c);
    }
  }

  /** DELETE does not touch what is referenced. */
  lemma DeleteKeepsShown(env: Env, db: Database, table: string, keys: set<string>)
    requires LocalViews(env) && NullsUnreferenced(env.schemas) && Shown(env, db)
    ensures Shown(env, DeleteRows(env, db, table, keys).db)
  {
    hide DeleteRows, ShownRow, View, LocalViews;
    var db' := DeleteRows(env, db, table, keys).db;
    DeleteWears(env, db, table, keys);
    forall t, k | k in RowsOf(db', t) ensures ShownRow(env, t, RowsOf(db', t)[k].data) {
      assert Worn(env.schemas, t, RowsOf(db, t)[k], RowsOf(db', t)[k]);
      forall c | RefColumn(env.schemas, t, c) ensures SameAt(RowsOf(db, t)[k].data, RowsOf(db', t)[k].data, c) {
        NullableIsUnreferenced(env.schemas, t, c);
      }
      ShownByColumns(env, t, RowsOf(db, t)[k].data, RowsOf(db', t)[k].data);
    }
  }

  lemma NullableIsUnreferenced(schemas: Schemas, t: string, c: string)
    requires NullsUnreferenced(schemas) && RefColumn(schemas, t, c)
    ensures !Nullable(schemas, t, c)
  {
    var r, key :| r in schemas && key in schemas[r].foreignKeys && key.referencedTable == t && c in key.referencedColumns;
    EqIgnoreRefl(t);
    assert Refers(schemas, Reference(r, key), t);
  }

  /** Neither does an UPDATE touch what is referenced in its children. */
  lemma ChildrenStayShown(env: Env, db: Database, parent: string, changes: seq<Change>, rank: string -> nat)
    requires LocalViews(env) && GoodSchemas(env, parent, rank) && Shown(env, db)
    ensures Shown(env, ChildrenAfter(env, db, parent, changes))
  {
    hide ShownRow, View, LocalViews, AfterKeys, OtherReferences;
    var db' := ChildrenAfter(env, db, parent, changes);
    forall t, k | k in RowsOf(db', t) ensures ShownRow(env, t, RowsOf(db', t)[k].data) {
      var data := RowsOf(db, t)[k].data;
      forall c | RefColumn(env.schemas, t, c)
        ensures SameAt(AfterKeys(env.lib, OtherReferences(env, parent), changes, t, data, data), data, c)
      {
        ReferencedIsNoChildColumn(env.schemas, parent, t, c);
        ColumnUnchanged(env, parent, changes, t, data, c, rank);
      }
      ShownByColumns(env, t, data, AfterKeys(env.lib, OtherReferences(env, parent), changes, t, data, data));
    }
  }

  lemma ReferencedIsNoChildColumn(schemas: Schemas, parent: string, t: string, c: string)
    requires ChildColumnsUnreferenced(schemas, parent) && RefColumn(schemas, t, c)
    ensures forall ref :: Refers(schemas, ref, parent) && ref.table == t ==> c !in ref.key.columns
  {
    var r, key :| r in schemas && key in schemas[r].foreignKeys && key.referencedTable == t && c in key.referencedColumns;
    EqIgnoreRefl(t);
    assert Refers(schemas, Reference(r, key), t);
  }

  /** The data an UPDATE assigns are shown as they are. */
  ghost predicate GivenShown(env: Env, table: string, given: map<string, Prepared>) {
    forall k :: k in given && given[k].Ready? ==> ShownRow(env, table, given[k].data)
  }

  lemma MovedRowsAreShown(u: Update, keys: seq<string>, next: TableRows)
    requires (forall k :: k in keys ==> k in Old(u)) && AllMoved(u, keys, next)
    requires Shown(u.env, u.db) && GivenShown(u.env, u.table, u.given)
    ensures forall n :: n in next ==> ShownRow(u.env, u.table, next[n].data)
  {
    hide ShownRow, ForeignKeysAccept, NewKey;
    forall n | n in next ensures ShownRow(u.env, u.table, next[n].data) {
      var i :| 0 <= i < |keys| && NewKey(u, keys[i]) == n;
      assert next[n] == NewRow(u, keys[i]);
    }
  }

  lemma OneTableShown(env: Env, db: Database, table: string, rows: TableRows)
    requires Shown(env, db) && forall k :: k in rows ==> ShownRow(env, table, rows[k].data)
    ensures Shown(env, db[table := rows])
  {
    hide ShownRow;
    var db' := db[table := rows];
    forall t, k | k in RowsOf(db', t) ensures ShownRow(env, t, RowsOf(db', t)[k].data) {
      assert RowsOf(db', t) == if t == table then rows else RowsOf(db, t);
    }
  }

  // ---------- INSERT ----------

  /** The data stored of a row that comes in. */
  function StoredData(settings: Settings, schema: Schema, table: string, data: Row, counters: Counters, uuid: string): Row {
    Undotted(WithIdentity(schema, data, ResolveRowId(settings, schema, table, data, counters, uuid)))
  }

  /** The row and all identities it may be given are shown as they are. */
  ghost predicate RowShown(env: Env, table: string, row: Prepared, uuid: string) {
    row.Ready? ==> ShownRow(env, table, row.data) && ShowsIdentity(env, table, Str(uuid))
                   && ShowsIdentity(env, table, Arr(Values(row.data, SchemaOf(env.schemas, table).primaryKey)))
  }

  /** Where the identity is written, it is generated, the given text, the array of a composite
      key, or what was there. */
  lemma WrittenIdentity(settings: Settings, schema: Schema, table: string, data: Row, counters: Counters, uuid: string, c: string)
    ensures var id := ResolveRowId(settings, schema, table, data, counters, uuid).id;
            var data' := WithIdentity(schema, data, ResolveRowId(settings, schema, table, data, counters, uuid));
            SameAt(data', data, c)
            || (TakesIdentity(schema, c) && data' == data[c := id] && (id.Num? || id == Str(uuid) || id == Arr(Values(data, schema.primaryKey))))
  {
  }

  lemma StoredRowIsShown(env: Env, settings: Settings, table: string, data: Row, counters: Counters, uuid: string)
    requires SoundViews(env) && RowShown(env, table, Ready(data), uuid)
    ensures ShownRow(env, table, StoredData(settings, SchemaOf(env.schemas, table), table, data, counters, uuid))
  {
    hide ResolveRowId, WithIdentity, View, RefColumn, TakesIdentity;
    var schema := SchemaOf(env.schemas, table);
    var id := ResolveRowId(settings, schema, table, data, counters, uuid).id;
    var data' := WithIdentity(schema, data, ResolveRowId(settings, schema, table, data, counters, uuid));
    var stored := Undotted(data');
    forall c | RefColumn(env.schemas, table, c) ensures ValueOf(View(env, table, stored), c) == ValueOf(stored, c) {
      assert SameAt(stored, data', c);
      assert ValueOf(View(env, table, stored), c) == ValueOf(View(env, table, data'), c);
      WrittenIdentity(settings, schema, table, data, counters, uuid, c);
      if SameAt(data', data, c) {
        assert ValueOf(View(env, table, data'), c) == ValueOf(View(env, table, data), c);
      } else {
        assert ShowsIdentity(env, table, id);
      }
    }
  }

  /** Rows are only added: plain INSERT and INSERT IGNORE with keys enforced. */
  predicate OnlyAdds(settings: Settings, options: Options) {
    settings.enforcesUniqueness && !options.replace && options.onDuplicate.None?
  }

  lemma PlaceOnlyAdds(env: Env, settings: Settings, options: Options, table: string, rows: TableRows, counters: Counters, identity: Identity, data: Row)
    requires OnlyAdds(settings, options)
    ensures var key := env.lib.text(identity.id);
            var rows' := Place(env, settings, options, table, rows, counters, identity, data).rows;
            rows' == rows || (key !in rows && rows' == rows[key := StoredRow(identity.id, table, Undotted(data))])
  {
    var conflicts := Conflicts(env.lib, SchemaOf(env.schemas, table), env.lib.text(identity.id), data, rows);
    assert env.lib.text(identity.id) in rows ==> env.lib.text(identity.id) in conflicts;
    hide Conflicts;
  }

  /** A foreign key of the table contains the column that takes the identity. */
  ghost predicate WithIdentityColumn(schema: Schema, key: ForeignKey) {
    exists c :: TakesIdentity(schema, c) && c in key.columns
  }

  /** For each key with the identity column whose columns are all non-null there is a parent, which
      may be the row itself. */
  ghost predicate IdentityFindsParents(env: Env, db: Database, table: string, stored: Row) {
    var schema := SchemaOf(env.schemas, table);
    forall key :: key in schema.foreignKeys && WithIdentityColumn(schema, key) && NoneNull(stored, key.columns) ==>
      HasParent(env.lib, db, key, stored) || (key.referencedTable == table && KeyMatches(env.lib, stored, key, stored))
  }

  /** The column that takes the identity belongs to no foreign key of its table. */
  ghost predicate IdentityApart(schema: Schema) {
    forall key :: key in schema.foreignKeys ==> !WithIdentityColumn(schema, key)
  }

  lemma ApartFindsParents(env: Env, db: Database, table: string, stored: Row)
    requires IdentityApart(SchemaOf(env.schemas, table))
    ensures IdentityFindsParents(env, db, table, stored)
  {
  }

  lemma AddedRowKeepsIntegrityIff(env: Env, db: Database, table: string, k: string, row: StoredRow)
    requires Integrity(env, db) && k !in RowsOf(db, table)
    ensures Integrity(env, db[table := RowsOf(db, table)[k := row]])
       <==> forall key :: key in SchemaOf(env.schemas, table).foreignKeys ==>
              RowIntact(env.lib, db[table := RowsOf(db, table)[k := row]], key, row.data)
  {
    hide KeyMatches, NoneNull;
    var db' := db[table := RowsOf(db, table)[k := row]];
    assert k in RowsOf(db', table) && RowsOf(db', table)[k].data == row.data;
    if forall key :: key in SchemaOf(env.schemas, table).foreignKeys ==> RowIntact(env.lib, db', key, row.data) {
      forall t, key, j | t in env.schemas && key in env.schemas[t].foreignKeys && j in RowsOf(db', t)
        ensures RowIntact(env.lib, db', key, RowsOf(db', t)[j].data)
      {
        if t == table && j == k {
          assert RowIntact(env.lib, db', key, row.data);
        } else {
          assert RowIntact(env.lib, db, key, RowsOf(db, t)[j].data);
          ParentsStay(env, db, table, k, row, key, RowsOf(db, t)[j].data);
        }
      }
    }
  }

  lemma ParentsStay(env: Env, db: Database, table: string, k: string, row: StoredRow, key: ForeignKey, child: Row)
    requires k !in RowsOf(db, table)
    ensures HasParent(env.lib, db[table := RowsOf(db, table)[k := row]], key, child)
       <==> HasParent(env.lib, db, key, child) || (key.referencedTable == table && KeyMatches(env.lib, child, key, row.data))
  {
    hide KeyMatches;
    var db' := db[table := RowsOf(db, table)[k := row]];
    var parents, parents' := RowsOf(db, key.referencedTable), RowsOf(db', key.referencedTable);
    if p :| p in parents && KeyMatches(env.lib, child, key, parents[p].data) { assert p in parents' && parents'[p] == parents[p]; }
    if key.referencedTable == table { assert k in parents' && parents'[k] == row; }
    if p :| p in parents' && KeyMatches(env.lib, child, key, parents'[p].data) {
      assert (p in parents && parents[p] == parents'[p]) || (key.referencedTable == table && p == k);
    }
  }

  /** A key without the identity column holds of the stored row what was checked of the incoming one. */
  lemma StoredRowIsIntact(env: Env, db: Database, settings: Settings, table: string, key: ForeignKey, data: Row, counters: Counters, uuid: string)
    requires SqlEquality(env.lib) && Shown(env, db) && KeyAccepts(env, db, key, data)
    requires table in env.schemas && key in env.schemas[table].foreignKeys && !WithIdentityColumn(env.schemas[table], key)
    requires |key.columns| == |key.referencedColumns| && key.columns != []
    ensures RowIntact(env.lib, db, key, StoredData(settings, env.schemas[table], table, data, counters, uuid))
  {
    hide KeyAccepts, Shown, SqlEquality, ResolveRowId, WithIdentity, KeyMatches;
    AcceptedHasParent(env, db, table, key, data);
    var schema := env.schemas[table];
    var stored := StoredData(settings, schema, table, data, counters, uuid);
    if NoneNull(stored, key.columns) {
      forall i | 0 <= i < |key.columns| ensures ValueOf(stored, key.columns[i]) == ValueOf(data, key.columns[i]) {
        WrittenIdentity(settings, schema, table, data, counters, uuid, key.columns[i]);
        assert key.columns[i] in key.columns && ValueOf(stored, key.columns[i]) != Null;
      }
      forall c | c in key.columns ensures ValueOf(stored, c) == ValueOf(data, c) {
        var i :| 0 <= i < |key.columns| && key.columns[i] == c;
      }
      var p :| p in RowsOf(db, key.referencedTable) && KeyMatches(env.lib, data, key, RowsOf(db, key.referencedTable)[p].data);
      KeyMatchesByColumns(env.lib, data, stored, key, RowsOf(db, key.referencedTable)[p].data, RowsOf(db, key.referencedTable)[p].data);
    }
  }

  /** INSERT of one row that is added keeps integrity exactly when the identity written into it
      finds its parents; that is not checked, since the row check comes first. */
  lemma InsertRowKeepsIntegrityIff(env: Env, settings: Settings, options: Options, db: Database, table: string, counters: Counters, row: Prepared, uuid: string)
    requires SqlEquality(env.lib) && KeysWellFormed(env.schemas) && OnlyAdds(settings, options) && Shown(env, db) && Integrity(env, db)
    ensures var rows := InsertRow(env, settings, options, db, table, counters, row, uuid).rows;
            Integrity(env, db[table := rows])
            <==> rows == RowsOf(db, table)
                 || IdentityFindsParents(env, db, table, StoredData(settings, SchemaOf(env.schemas, table), table, row.data, counters, uuid))
  {
    hide Integrity, Shown, SqlEquality, RowIntact, KeyAccepts, ResolveRowId, Raised, WithIdentity, Place, Undotted, WithIdentityColumn, HasParent, NoneNull, KeyMatches;
    var step := InsertRow(env, settings, options, db, table, counters, row, uuid);
    if step.rows == RowsOf(db, table) {
      SameRowsStayIntact(env, db, db[table := step.rows]);
    } else {
      var schema := SchemaOf(env.schemas, table);
      var identity := ResolveRowId(settings, schema, table, row.data, counters, uuid);
      var stored := StoredData(settings, schema, table, row.data, counters, uuid);
      PlaceOnlyAdds(env, settings, options, table, RowsOf(db, table), Raised(schema, table, identity), identity, WithIdentity(schema, row.data, identity));
      var k, added := env.lib.text(identity.id), StoredRow(identity.id, table, stored);
      assert step.rows == RowsOf(db, table)[k := added];
      AddedRowKeepsIntegrityIff(env, db, table, k, added);
      forall key | key in schema.foreignKeys
        ensures RowIntact(env.lib, db[table := RowsOf(db, table)[k := added]], key, stored)
           <==> (WithIdentityColumn(schema, key) && NoneNull(stored, key.columns) ==>
                  HasParent(env.lib, db, key, stored) || (key.referencedTable == table && KeyMatches(env.lib, stored, key, stored)))
      {
        KeyAfterInsert(env, settings, db, table, k, added, key, row.data, counters, uuid);
      }
    }
  }

  lemma KeyAfterInsert(env: Env, settings: Settings, db: Database, table: string, k: string, added: StoredRow, key: ForeignKey, data: Row, counters: Counters, uuid: string)
    requires SqlEquality(env.lib) && KeysWellFormed(env.schemas) && Shown(env, db) && k !in RowsOf(db, table)
    requires key in SchemaOf(env.schemas, table).foreignKeys && ForeignKeysAccept(env, db, table, data)
    requires added.data == StoredData(settings, SchemaOf(env.schemas, table), table, data, counters, uuid)
    ensures RowIntact(env.lib, db[table := RowsOf(db, table)[k := added]], key, added.data)
       <==> (WithIdentityColumn(SchemaOf(env.schemas, table), key) && NoneNull(added.data, key.columns) ==>
              HasParent(env.lib, db, key, added.data) || (key.referencedTable == table && KeyMatches(env.lib, added.data, key, added.data)))
  {
    hide Shown, SqlEquality, KeyAccepts, StoredData, HasParent, NoneNull, KeyMatches, WithIdentityColumn;
    ParentsStay(env, db, table, k, added, key, added.data);
    if !WithIdentityColumn(SchemaOf(env.schemas, table), key) {
      StoredRowIsIntact(env, db, settings, table, key, data, counters, uuid);
    }
  }

  lemma InsertRowKeepsShown(env: Env, settings: Settings, options: Options, db: Database, table: string, counters: Counters, row: Prepared, uuid: string)
    requires SoundViews(env) && OnlyAdds(settings, options) && Shown(env, db) && RowShown(env, table, row, uuid)
    ensures Shown(env, db[table := InsertRow(env, settings, options, db, table, counters, row, uuid).rows])
  {
    hide SoundViews, ShownRow, ResolveRowId, Raised, WithIdentity, Place, Undotted, ForeignKeysAccept, ShowsIdentity;
    var rows := InsertRow(env, settings, options, db, table, counters, row, uuid).rows;
    if rows != RowsOf(db, table) {
      var schema := SchemaOf(env.schemas, table);
      var identity := ResolveRowId(settings, schema, table, row.data, counters, uuid);
      PlaceOnlyAdds(env, settings, options, table, RowsOf(db, table), Raised(schema, table, identity), identity, WithIdentity(schema, row.data, identity));
      StoredRowIsShown(env, settings, table, row.data, counters, uuid);
    }
    OneTableShown(env, db, table, rows);
  }

  /** Each row, at its turn, is not added or finds the parents of its identity. */
  ghost predicate EachFindsParents(env: Env, settings: Settings, options: Options, db: Database, table: string, counters: Counters,
                                   rows: seq<Prepared>, uuids: nat -> string) {
    forall i :: 0 <= i < |rows| ==> RowFindsParents(env, settings, options, db, table, counters, rows, uuids, i)
  }

  ghost predicate RowFindsParents(env: Env, settings: Settings, options: Options, db: Database, table: string, counters: Counters,
                                  rows: seq<Prepared>, uuids: nat -> string, i: nat)
    requires i < |rows|
  {
    var before := InsertRows(env, settings, options, db, table, counters, rows[..i], uuids);
    var db' := db[table := before.rows];
    InsertRow(env, settings, options, db', table, before.counters, rows[i], uuids(i)).rows == before.rows
    || IdentityFindsParents(env, db', table, StoredData(settings, SchemaOf(env.schemas, table), table, rows[i].data, before.counters, uuids(i)))
  }

  lemma ApartFindsAll(env: Env, settings: Settings, options: Options, db: Database, table: string, counters: Counters, rows: seq<Prepared>, uuids: nat -> string)
    requires IdentityApart(SchemaOf(env.schemas, table))
    ensures EachFindsParents(env, settings, options, db, table, counters, rows, uuids)
  {
    hide InsertRows, StoredData, IdentityFindsParents, IdentityApart, ForeignKeysAccept, Place;
    forall i | 0 <= i < |rows| ensures RowFindsParents(env, settings, options, db, table, counters, rows, uuids, i) {
      var before := InsertRows(env, settings, options, db, table, counters, rows[..i], uuids);
      if rows[i].Ready? {
        ApartFindsParents(env, db[table := before.rows], table,
          StoredData(settings, SchemaOf(env.schemas, table), table, rows[i].data, before.counters, uuids(i)));
      }
    }
  }

  lemma {:induction false} InsertRowsKeepIntegrity(env: Env, settings: Settings, options: Options, db: Database, table: string, counters: Counters,
                                                   rows: seq<Prepared>, uuids: nat -> string)
    requires SqlEquality(env.lib) && KeysWellFormed(env.schemas) && SoundViews(env) && OnlyAdds(settings, options)
    requires Shown(env, db) && Integrity(env, db) && forall i :: 0 <= i < |rows| ==> RowShown(env, table, rows[i], uuids(i))
    requires EachFindsParents(env, settings, options, db, table, counters, rows, uuids)
    ensures var db' := db[table := InsertRows(env, settings, options, db, table, counters, rows, uuids).rows]; Integrity(env, db') && Shown(env, db')
    decreases |rows|
  {
    hide Integrity, Shown, SqlEquality, KeysWellFormed, InsertRow, SoundViews, RowShown, IdentityFindsParents, StoredData;
    if rows == [] {
      SameRowsStayIntact(env, db, db[table := RowsOf(db, table)]);
      SameRowsStayShown(env, db, table);
    } else {
      var n := |rows| - 1;
      forall i | 0 <= i < n ensures RowFindsParents(env, settings, options, db, table, counters, rows[..n], uuids, i) {
        assert rows[..n][..i] == rows[..i] && RowFindsParents(env, settings, options, db, table, counters, rows, uuids, i);
      }
      InsertRowsKeepIntegrity(env, settings, options, db, table, counters, rows[..n], uuids);
      var before := InsertRows(env, settings, options, db, table, counters, rows[..n], uuids);
      if before.error.None? {
        var db' := db[table := before.rows];
        assert RowsOf(db', table) == before.rows;
        assert RowFindsParents(env, settings, options, db, table, counters, rows, uuids, n);
        InsertRowKeepsIntegrityIff(env, settings, options, db', table, before.counters, rows[n], uuids(n));
        InsertRowKeepsShown(env, settings, options, db', table, before.counters, rows[n], uuids(n));
        var after := InsertRow(env, settings, options, db', table, before.counters, rows[n], uuids(n)).rows;
        assert db'[table := after] == db[table := after];
      }
    }
  }

  lemma SameRowsStayShown(env: Env, db: Database, table: string)
    requires Shown(env, db)
    ensures Shown(env, db[table := RowsOf(db, table)])
  {
    hide ShownRow;
    OneTableShown(env, db, table, RowsOf(db, table));
  }

  // ---------- a generated id can be an orphan ----------

  /** The key `id` of `child` references `parent`. */
  const ID_KEY := ForeignKey("fk", ["id"], "parent", ["id"], Restrict, Restrict)

  const PARENT := Schema(["id"], None, [], [], [])

  const CHILD := Schema(["id"], Some("id"), [], [], [ID_KEY])

  /** The incoming id is null, so there is nothing to check; then the id 1 is generated, and no
      row of the empty parent table has it. */
  lemma GeneratedIdIsOrphan(lib: Library, uuid: string)
    ensures var env := Env(lib, map["parent" := PARENT, "child" := CHILD], ["parent", "child"]);
            var step := InsertRow(env, Settings(true, false), Options(false, false, None), map[], "child", map[], Ready(map["id" := Null]), uuid);
            Integrity(env, map[]) && step.error.None? && !Integrity(env, map["child" := step.rows])
  {
    var env := Env(lib, map["parent" := PARENT, "child" := CHILD], ["parent", "child"]);
    var data: Row := map["id" := Null];
    assert ValueOf(data, ID_KEY.columns[0]) == Null;
    assert ForeignKeysAccept(env, map[], "child", data);
    var identity := ResolveRowId(Settings(true, false), CHILD, "child", data, map[], uuid);
    assert identity.generated && identity.id == Num(1);
    var stored := Undotted(WithIdentity(CHILD, data, identity));
    assert stored == map["id" := Num(1)];
    var step := InsertRow(env, Settings(true, false), Options(false, false, None), map[], "child", map[], Ready(data), uuid);
    var k := lib.text(Num(1));
    assert Conflicts(lib, CHILD, k, WithIdentity(CHILD, data, identity), map[]) == {};
    assert step.rows == map[k := StoredRow(Num(1), "child", stored)];
    assert !RowIntact(lib, map["child" := step.rows], ID_KEY, stored);
    assert k in RowsOf(map["child" := step.rows], "child");
  }

  // ---------- runs ----------

  /** What the statement must be like for integrity to be kept. */
  ghost predicate GuardsIntegrity(env: Env, settings: Settings, s: State, e: Statement, rank: string -> nat) {
    match e
    case Insert(table, prepared, options, uuids) =>
      OnlyAdds(settings, options) && (forall i :: 0 <= i < |prepared| ==> RowShown(env, table, prepared[i], uuids(i)))
      && EachFindsParents(env, settings, options, s.db, table, s.counters, prepared, uuids)
    case Delete(_, _) => true
    case Modify(table, order, given, _) =>
      settings.enforcesUniqueness && GoodSchemas(env, table, rank) && GivenShown(env, table, given)
      && Possible(s, e) && NoneOvertakes(TheUpdate(env, settings, s, e), order)
    case Truncate(table) => forall ref :: !Refers(env.schemas, ref, table)
  }

  /** An acyclic graph of well-formed keys; columns that are nulled on DELETE are not referenced,
      and referenced columns are shown one by one. */
  ghost predicate SoundKeys(env: Env, rank: string -> nat) {
    ValidEnv(env) && SqlEquality(env.lib) && KeysWellFormed(env.schemas) && Ranked(env.schemas, rank) && NullsUnreferenced(env.schemas) && SoundViews(env)
  }

  ghost predicate Sound(env: Env, db: Database) { Integrity(env, db) && Shown(env, db) }

  lemma StepKeepsIntegrity(env: Env, settings: Settings, s: State, e: Statement, rank: string -> nat)
    requires SoundKeys(env, rank) && Possible(s, e) && GuardsIntegrity(env, settings, s, e, rank) && Sound(env, s.db)
    ensures Sound(env, Execute(env, settings, s, e).db)
  {
    hide Integrity, GoodSchemas, Shown, NoneOvertakes, Walk, InsertRows, DeleteRows, Updated, SqlEquality, Ranked, KeysWellFormed, NullsUnreferenced,
      LocalViews, ShowsIdentity, EachFindsParents, RowShown, GivenShown;
    match e {
      case Insert(table, prepared, options, uuids) =>
        InsertRowsKeepIntegrity(env, settings, options, s.db, table, s.counters, prepared, uuids);
      case Delete(table, keys) =>
        DeleteKeepsIntegrity(env, s.db, table, keys, rank);
        DeleteKeepsShown(env, s.db, table, keys);
      case Modify(table, order, _, _) =>
        var u := TheUpdate(env, settings, s, e);
        if table in env.schemas && Verdict(u, Walk(u, order)).None? {
          UpdateStatementKeepsIntegrity(u, order, rank);
          UpdateKeepsShown(u, order, rank);
        }
      case Truncate(table) =>
        UnreferencedTableClears(env, s.db, table);
        OneTableShown(env, s.db, table, map[]);
    }
  }

  lemma {:induction false} UpdateKeepsShown(u: Update, keys: seq<string>, rank: string -> nat)
    requires Lists(keys, Old(u)) && u.settings.enforcesUniqueness && NoneOvertakes(u, keys) && Walk(u, keys).Going?
    requires GoodSchemas(u.env, u.table, rank) && LocalViews(u.env) && Shown(u.env, u.db) && GivenShown(u.env, u.table, u.given)
    ensures Shown(u.env, Updated(u.env, u.db, u.table, Walk(u, keys).next, Walk(u, keys).changes))
  {
    hide Walk, GoodSchemas, LocalViews, Shown, GivenShown, NoneOvertakes, AllMoved, ChildrenAfter, ShownRow;
    NoneIsLost(u, keys);
    MovedRowsAreShown(u, keys, Walk(u, keys).next);
    ChildrenStayShown(u.env, u.db, u.table, Walk(u, keys).changes, rank);
    OneTableShown(u.env, ChildrenAfter(u.env, u.db, u.table, Walk(u, keys).changes), u.table, Walk(u, keys).next);
  }

  lemma UnreferencedTableClears(env: Env, db: Database, table: string)
    requires Integrity(env, db) && forall ref :: !Refers(env.schemas, ref, table)
    ensures Integrity(env, db[table := map[]])
  {
    hide Refers;
    RemovalKeepsIntegrity(env, db, table, RowsOf(db, table).Keys);
    assert RowsOf(db, table) - RowsOf(db, table).Keys == map[];
  }

  /** Over every such run every row whose foreign-key columns are all non-null has a parent. Only
      the first state and the rows that come in are taken to be shown as they are stored. */
  lemma {:induction false} RunKeepsIntegrity(env: Env, settings: Settings, states: seq<State>, statements: seq<Statement>, rank: string -> nat, n: nat)
    requires SoundKeys(env, rank) && IsRun(env, settings, states, statements) && n <= |statements|
    requires forall i :: 0 <= i < |statements| ==> GuardsIntegrity(env, settings, states[i], statements[i], rank)
    requires Sound(env, states[0].db)
    ensures Sound(env, states[n].db)
    decreases n
  {
    hide Sound, Execute, GuardsIntegrity, SoundKeys;
    if n > 0 {
      RunKeepsIntegrity(env, settings, states, statements, rank, n - 1);
      assert states[n - 1 + 1] == Execute(env, settings, states[n - 1], statements[n - 1]);
      StepKeepsIntegrity(env, settings, states[n - 1], statements[n - 1], rank);
    }
  }
}
