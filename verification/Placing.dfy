/** What INSERT does to the rows of a table, mode by mode, and which identity a row is given. */
module Placing {
  import opened Wrappers
  import opened Json
  import opened Text
  import opened Catalog
  import opened UniqueKeys
  import opened ForeignKeys
  import opened ParentUpdate
  import opened StorageFormat
  import opened Inserting

  /** The row under `k` cannot stand beside the data under `key`: it has the same key, or an equal
      unique key that is not null. */
  ghost predicate Clashes(lib: Library, schema: Schema, key: string, data: Row, rows: TableRows, k: string) {
    k in rows && (k == key || exists columns :: columns in schema.unique && SameUniqueKey(lib, schema, data, rows[k].data, columns))
  }

  ghost function Clashing(lib: Library, schema: Schema, key: string, data: Row, rows: TableRows): set<string> {
    set k | k in rows && Clashes(lib, schema, key, data, rows, k)
  }

  lemma ConflictsClash(lib: Library, schema: Schema, key: string, data: Row, rows: TableRows, k: string)
    ensures k in Conflicts(lib, schema, key, data, rows) <==> Clashes(lib, schema, key, data, rows, k)
  {
    hide UniqueKey;
    if k in rows {
      forall i | 0 <= i < |schema.unique| ensures schema.unique[i] in schema.unique {}
    }
  }

  /** The row stored for the data: the identity, and the columns that are not qualified. */
  ghost predicate StoredAs(row: StoredRow, table: string, id: Value, data: Row) {
    row.id == id && row.table == table && forall c :: if '.' in c then c !in row.data else SameAt(row.data, data, c)
  }

  /** The row is there; the rows it clashes with are gone, and all others are untouched. */
  ghost predicate Replaces(lib: Library, schema: Schema, rows: TableRows, rows': TableRows, key: string, table: string, id: Value, data: Row) {
    && key in rows' && StoredAs(rows'[key], table, id, data)
    && forall k :: k != key ==> (k in rows' <==> k in rows && !Clashes(lib, schema, key, data, rows, k)) && (k in rows' ==> k in rows && rows'[k] == rows[k])
  }

  lemma ConflictsAreClashing(lib: Library, schema: Schema, key: string, data: Row, rows: TableRows)
    ensures Conflicts(lib, schema, key, data, rows) == Clashing(lib, schema, key, data, rows)
  {
    hide Conflicts, Clashes;
    forall k { ConflictsClash(lib, schema, key, data, rows, k); }
    ConflictsAreRows(lib, schema, key, data, rows);
  }

  lemma ConflictsAreRows(lib: Library, schema: Schema, key: string, data: Row, rows: TableRows)
    ensures Conflicts(lib, schema, key, data, rows) <= rows.Keys
    ensures key in rows ==> key in Conflicts(lib, schema, key, data, rows)
  {
    hide UniqueKey;
  }

  lemma UndottedIsStored(table: string, id: Value, data: Row)
    ensures StoredAs(StoredRow(id, table, Undotted(data)), table, id, data)
  {
  }

  /** A row that is neither passed over nor merged: it is placed, in every mode, unless it clashes
      and clashes are refused, which leaves everything as it was. REPLACE reports the rows
      replaced as well. */
  lemma PlacedRow(env: Env, settings: Settings, options: Options, table: string, rows: TableRows, counters: Counters,
                  identity: Identity, data: Row)
    requires var key := env.lib.text(identity.id);
             Clashing(env.lib, SchemaOf(env.schemas, table), key, data, rows) == {} || (!options.ignore && options.onDuplicate.None?)
    ensures var schema, key := SchemaOf(env.schemas, table), env.lib.text(identity.id);
            var clashing := Clashing(env.lib, schema, key, data, rows);
            var step := Place(env, settings, options, table, rows, counters, identity, data);
            && (step.error.Some? <==> clashing != {} && !options.replace && settings.enforcesUniqueness)
            && (step.error.Some? ==> step.rows == rows && step.affected == 0
                                     && step.error == Some(if key in rows then KeyConflict else UniqueConflict))
            && (step.error.None? ==> Replaces(env.lib, schema, rows, step.rows, key, table, identity.id, data)
                                     && step.affected == 1 + if options.replace then |clashing| else 0)
  {
    var schema, key := SchemaOf(env.schemas, table), env.lib.text(identity.id);
    ConflictsAreClashing(env.lib, schema, key, data, rows);
    ConflictsAreRows(env.lib, schema, key, data, rows);
    UndottedIsStored(table, identity.id, data);
    hide Conflicts, Clashes, StoredAs;
    assert forall k :: k in Clashing(env.lib, schema, key, data, rows) <==> k in rows && Clashes(env.lib, schema, key, data, rows, k);
  }

  /** A row that clashes under IGNORE is passed over. */
  lemma PassedOverRow(env: Env, settings: Settings, options: Options, table: string, rows: TableRows, counters: Counters,
                      identity: Identity, data: Row)
    requires options.ignore && Clashing(env.lib, SchemaOf(env.schemas, table), env.lib.text(identity.id), data, rows) != {}
    ensures Place(env, settings, options, table, rows, counters, identity, data) == Step(rows, counters, 0, None)
  {
    ConflictsAreClashing(env.lib, SchemaOf(env.schemas, table), env.lib.text(identity.id), data, rows);
    hide Conflicts, Clashing;
  }

  /** A row that clashes under ON DUPLICATE KEY UPDATE changes the data of one row it clashes with,
      as the assignments say, and nothing else. */
  lemma MergedRow(env: Env, settings: Settings, options: Options, table: string, rows: TableRows, counters: Counters,
                  identity: Identity, data: Row)
    requires PicksMembers(env.lib) && !options.ignore && options.onDuplicate.Some?
    requires Clashing(env.lib, SchemaOf(env.schemas, table), env.lib.text(identity.id), data, rows) != {}
    ensures var step := Place(env, settings, options, table, rows, counters, identity, data);
            exists hit :: Clashes(env.lib, SchemaOf(env.schemas, table), env.lib.text(identity.id), data, rows, hit)
              && var merge := options.onDuplicate.value(rows[hit].data, data);
                 && step.rows == rows[hit := StoredRow(rows[hit].id, rows[hit].table, merge.data)]
                 && step.error == (if merge.ok then None else Some(BadExpression))
                 && step.affected == if merge.ok && merge.data != rows[hit].data then 2 else 0
  {
    var schema, key := SchemaOf(env.schemas, table), env.lib.text(identity.id);
    ConflictsAreClashing(env.lib, schema, key, data, rows);
    var hit := env.lib.first(Conflicts(env.lib, schema, key, data, rows));
    assert hit in Clashing(env.lib, schema, key, data, rows);
    hide Conflicts;
    assert Clashes(env.lib, schema, key, data, rows, hit);
    hide Clashes, Clashing;
    var merge := options.onDuplicate.value(rows[hit].data, data);
    assert rows[hit].(data := merge.data) == StoredRow(rows[hit].id, rows[hit].table, merge.data);
  }

  // ---------- one row of the statement ----------

  /** A row that is rejected, or that has no parent, does not reach the table. */
  lemma RefusedRow(env: Env, settings: Settings, options: Options, db: Database, table: string, counters: Counters, row: Prepared, uuid: string)
    requires row.Rejected? || !ForeignKeysAccept(env, db, table, row.data)
    ensures InsertRow(env, settings, options, db, table, counters, row, uuid)
         == Step(RowsOf(db, table), counters, 0, if row.Rejected? then Some(BadRow) else if options.ignore then None else Some(NoParent))
  {
    hide ForeignKeysAccept;
  }

  /** The data of a row once it has its identity: other columns are as they came in. */
  ghost predicate Identified(schema: Schema, data: Row, data': Row, id: Value) {
    forall c :: SameAt(data', data, c)
                || ((schema.primaryKey == [c] || (|schema.primaryKey| != 1 && c == "id" && schema.autoColumn == Some("id"))) && c in data' && data'[c] == id)
  }

  /** An accepted row is given an identity and placed with it. */
  lemma AcceptedRow(env: Env, settings: Settings, options: Options, db: Database, table: string, counters: Counters, row: Prepared, uuid: string)
    requires row.Ready? && ForeignKeysAccept(env, db, table, row.data)
    ensures exists identity, data, counters' ::
              identity == ResolveRowId(settings, SchemaOf(env.schemas, table), table, row.data, counters, uuid)
              && Identified(SchemaOf(env.schemas, table), row.data, data, identity.id)
              && InsertRow(env, settings, options, db, table, counters, row, uuid)
              == Place(env, settings, options, table, RowsOf(db, table), counters', identity, data)
  {
    hide ForeignKeysAccept, Place, ResolveRowId;
    var schema := SchemaOf(env.schemas, table);
    var identity := ResolveRowId(settings, schema, table, row.data, counters, uuid);
    var data := WithIdentity(schema, row.data, identity);
    assert Identified(schema, row.data, data, identity.id);
    assert InsertRow(env, settings, options, db, table, counters, row, uuid)
        == Place(env, settings, options, table, RowsOf(db, table), Raised(schema, table, identity), identity, data);
  }

  // ---------- the whole statement, plain ----------

  /** A plain INSERT that succeeds adds one row for each that comes in, and leaves the others. */
  lemma {:induction false} PlainInsertAddsAll(env: Env, settings: Settings, options: Options, db: Database, table: string, counters: Counters,
                                              rows: seq<Prepared>, uuids: nat -> string)
    requires !options.ignore && !options.replace && options.onDuplicate.None? && settings.enforcesUniqueness
    ensures var step := InsertRows(env, settings, options, db, table, counters, rows, uuids);
            step.error.None? ==>
              && step.affected == |rows| && |step.rows| == |RowsOf(db, table)| + |rows|
              && (forall k :: k in RowsOf(db, table) ==> k in step.rows && step.rows[k] == RowsOf(db, table)[k])
              && (forall i :: 0 <= i < |rows| ==> rows[i].Ready? && ComesIn(env, RowsOf(db, table), table, step.rows, rows[i].data))
    decreases |rows|
  {
    hide InsertRow, ComesIn;
    if rows != [] {
      var n := |rows| - 1;
      var before := InsertRows(env, settings, options, db, table, counters, rows[..n], uuids);
      PlainInsertAddsAll(env, settings, options, db, table, counters, rows[..n], uuids);
      if before.error.None? {
        hide InsertRows;
        PlainRowIsAdded(env, settings, options, db[table := before.rows], table, before.counters, rows[n], uuids(n));
        var step := InsertRow(env, settings, options, db[table := before.rows], table, before.counters, rows[n], uuids(n));
        if step.error.None? {
          forall i | 0 <= i < |rows| ensures rows[i].Ready? && ComesIn(env, RowsOf(db, table), table, step.rows, rows[i].data) {
            if i < n {
              assert rows[..n][i] == rows[i];
              StillIn(env, RowsOf(db, table), table, before.rows, step.rows, rows[i].data);
            }
          }
        }
      }
    }
  }

  lemma StillIn(env: Env, start: TableRows, table: string, rows: TableRows, more: TableRows, data: Row)
    requires ComesIn(env, start, table, rows, data) && forall k :: k in rows ==> k in more && more[k] == rows[k]
    ensures ComesIn(env, start, table, more, data)
  {
    hide Identified, StoredAs;
  }

  /** Some new row has the data that came in, but for the column of its identity. */
  ghost predicate ComesIn(env: Env, before: TableRows, table: string, after: TableRows, data: Row) {
    exists k, d :: k in after && k !in before && Identified(SchemaOf(env.schemas, table), data, d, after[k].id) && StoredAs(after[k], table, after[k].id, d)
  }

  lemma PlainRowIsAdded(env: Env, settings: Settings, options: Options, db: Database, table: string, counters: Counters, row: Prepared, uuid: string)
    requires !options.ignore && !options.replace && options.onDuplicate.None? && settings.enforcesUniqueness
    ensures var rows, step := RowsOf(db, table), InsertRow(env, settings, options, db, table, counters, row, uuid);
            step.error.None? ==>
              && row.Ready? && step.affected == 1 && |step.rows| == |rows| + 1
              && (forall k :: k in rows ==> k in step.rows && step.rows[k] == rows[k])
              && forall before :: (forall k :: k in before ==> k in rows) ==> ComesIn(env, before, table, step.rows, row.data)
  {
    hide ForeignKeysAccept, Place, ResolveRowId;
    var rows, step := RowsOf(db, table), InsertRow(env, settings, options, db, table, counters, row, uuid);
    if step.error.None? {
      var schema := SchemaOf(env.schemas, table);
      var identity := ResolveRowId(settings, schema, table, row.data, counters, uuid);
      var data := WithIdentity(schema, row.data, identity);
      var key := env.lib.text(identity.id);
      assert step == Place(env, settings, options, table, rows, Raised(schema, table, identity), identity, data);
      PlacedRow(env, settings, options, table, rows, Raised(schema, table, identity), identity, data);
      assert Identified(schema, row.data, data, identity.id);
      hide WithIdentity, Identified, StoredAs, Clashes;
      NoneIsReplaced(env.lib, schema, rows, step.rows, key, table, identity.id, data);
      forall before: TableRows | (forall k :: k in before ==> k in rows) ensures ComesIn(env, before, table, step.rows, row.data) {
        assert key in step.rows && key !in before && step.rows[key].id == identity.id by { StoredHasId(step.rows[key], table, identity.id, data); }
        assert Identified(schema, row.data, data, step.rows[key].id) && StoredAs(step.rows[key], table, step.rows[key].id, data);
      }
    }
  }

  lemma StoredHasId(row: StoredRow, table: string, id: Value, data: Row)
    requires StoredAs(row, table, id, data)
    ensures row.id == id
  {
  }

  lemma NoneIsReplaced(lib: Library, schema: Schema, rows: TableRows, rows': TableRows, key: string, table: string, id: Value, data: Row)
    requires Replaces(lib, schema, rows, rows', key, table, id, data) && Clashing(lib, schema, key, data, rows) == {}
    ensures key !in rows && rows' == rows[key := rows'[key]] && |rows'| == |rows| + 1
  {
    hide StoredAs;
    assert key in rows ==> Clashes(lib, schema, key, data, rows, key);
    hide Clashes;
    assert forall k :: k in rows ==> k !in Clashing(lib, schema, key, data, rows);
  }

  // ---------- the identity ----------

  /** The one column whose value identifies a row. */
  ghost predicate Identifies(schema: Schema, column: string) {
    schema.primaryKey == [column] || (schema.primaryKey == [] && column == "id" && schema.autoColumn == Some("id"))
  }

  /** The counter goes up by one, from zero when there is none, and from the 64-bit maximum to the
      minimum; the number is the new counter. */
  lemma NextIsOneMore(table: string, column: string, counters: Counters)
    ensures var key := table + ":" + column;
            var n := if key in counters then counters[key] else 0;
            var next := if n == I64_MAX then I64_MIN else n + 1;
            NextAutoInc(table, column, counters) == Identity(Num(next), true, counters[key := next])
  {
  }

  /** An explicit zero in the auto-increment column generates an id exactly when
      NO_AUTO_VALUE_ON_ZERO is off. */
  lemma ZeroGeneratesIff(settings: Settings, schema: Schema, table: string, data: Row, counters: Counters, uuid: string, column: string)
    requires Identifies(schema, column) && schema.autoColumn == Some(column) && column in data && ExactInt(data[column]) == Some(0)
    ensures var identity := ResolveRowId(settings, schema, table, data, counters, uuid);
            && (identity.generated <==> !settings.noAutoValueOnZero)
            && (settings.noAutoValueOnZero ==> identity.id == data[column] && identity.counters == counters)
  {
  }

  /** Which identity a row is given. */
  lemma IdentityOfRow(settings: Settings, schema: Schema, table: string, data: Row, counters: Counters, uuid: string)
    ensures var identity := ResolveRowId(settings, schema, table, data, counters, uuid);
            && (|schema.primaryKey| > 1 ==> identity == Identity(Arr(Values(data, schema.primaryKey)), false, counters))
            && (schema.primaryKey == [] && schema.autoColumn != Some("id") ==> identity == Identity(Str(uuid), false, counters))
            && forall column :: Identifies(schema, column) ==>
                 var auto := schema.autoColumn == Some(column);
                 var given := column in data && !(auto && (data[column] == Null || data[column] == SQL_DEFAULT
                                                           || (ExactInt(data[column]) == Some(0) && !settings.noAutoValueOnZero)));
                 identity == if given then Identity(data[column], false, counters)
                             else if auto || column == "id" then NextAutoInc(table, column, counters)
                             else Identity(Str(uuid), false, counters)
  {
    hide NextAutoInc, ExactInt;
  }

  /** The identity is stored in its column. */
  lemma IdentityIsStored(settings: Settings, schema: Schema, table: string, data: Row, counters: Counters, uuid: string, column: string)
    requires Identifies(schema, column)
    ensures var identity := ResolveRowId(settings, schema, table, data, counters, uuid);
            var data' := WithIdentity(schema, data, identity);
            column in data' && data'[column] == identity.id
  {
    hide ExactInt;
  }

  /** The id generated after an explicit one: one more than the greater of it and the counter, if
      there is a counter yet. Counters of other columns stay. */
  lemma NextAfterExplicit(schema: Schema, table: string, id: Value, counters: Counters, auto: string)
    requires schema.autoColumn == Some(auto) && ExactInt(id).Some? && I64_MIN <= ExactInt(id).value < I64_MAX
    ensures var key, n := table + ":" + auto, ExactInt(id).value;
            var raised := Raised(schema, table, Identity(id, false, counters));
            && (key in counters ==> counters[key] < I64_MAX ==>
                  NextAutoInc(table, auto, raised).id == Num((if counters[key] < n then n else counters[key]) + 1))
            && (key !in counters ==> NextAutoInc(table, auto, raised).id == Num(n + 1))
            && (forall k :: k != key ==> (k in raised <==> k in counters) && (k in counters ==> raised[k] == counters[k]))
  {
  }
}
