/** INSERT row by row in its simple form: conflicts by full scan, no lookup, no index, no batch. */
module Inserting {
  import opened Wrappers
  import opened Json
  import opened Text
  import opened Catalog
  import opened StorageFormat
  import opened UniqueKeys
  import opened ForeignKeys
  import opened ParentUpdate

  // ---------- row identity and auto-increment ----------

  type Counters = map<string, int>

  function CounterKey(table: string, column: string): string { table + ":" + column }

  function CounterOf(counters: Counters, key: string): int { if key in counters then counters[key] else 0 }

  /** The counter is a signed 64-bit integer and wraps around. */
  function Incremented(n: int): int { if n == I64_MAX then I64_MIN else n + 1 }

  /** TRUNCATE clears every counter whose key begins with the table name and a colon. */
  function ClearedCounters(counters: Counters, table: string): Counters {
    map k | k in counters && !(table + ":" <= k) :: counters[k]
  }

  const SQL_DEFAULT := Str("\0my_sqweel_sql_default")

  predicate Defaultish(v: Value) { v == Null || v == SQL_DEFAULT }

  const I128_LIMIT: int := 0x8000_0000_0000_0000_0000_0000_0000_0000

  function ExactInt(v: Value): Option<int> {
    match v
    case Num(n) => Some(n)
    case Bool(b) => Some(if b then 1 else 0)
    case Str(s) => (match ParseInt(Trim(s))
                    case None => None
                    case Some(n) => if -I128_LIMIT <= n < I128_LIMIT then Some(n) else None)
    case _ => None
  }

  datatype Settings = Settings(enforcesUniqueness: bool, noAutoValueOnZero: bool)

  datatype Identity = Identity(id: Value, generated: bool, counters: Counters)

  function NextAutoInc(table: string, column: string, counters: Counters): Identity {
    var key := CounterKey(table, column);
    var next := Incremented(CounterOf(counters, key));
    Identity(Num(next), true, counters[key := next])
  }

  /** The column whose value identifies a row, for keys of at most one column. */
  function KeyColumn(schema: Schema): Option<string> {
    if schema.primaryKey != [] then Some(schema.primaryKey[0])
    else if schema.autoColumn == Some("id") then Some("id")
    else None
  }

  function ResolveRowId(settings: Settings, schema: Schema, table: string, data: Row, counters: Counters, uuid: string): Identity {
    if |schema.primaryKey| > 1 then Identity(Arr(Values(data, schema.primaryKey)), false, counters)
    else
      match KeyColumn(schema)
      case None => Identity(Str(uuid), false, counters)
      case Some(column) =>
        var auto := schema.autoColumn == Some(column);
        if column in data then
          var v := data[column];
          if auto && (Defaultish(v) || (!settings.noAutoValueOnZero && ExactInt(v) == Some(0))) then NextAutoInc(table, column, counters)
          else Identity(v, false, counters)
        else if auto || column == "id" then NextAutoInc(table, column, counters)
        else Identity(Str(uuid), false, counters)
  }

  /** An explicit id raises the counter of the auto-increment column to itself. */
  function Raised(schema: Schema, table: string, identity: Identity): Counters {
    var id := ExactInt(identity.id);
    if identity.generated || schema.autoColumn.None? || id.None? || !(I64_MIN <= id.value <= I64_MAX) then identity.counters
    else
      var key := CounterKey(table, schema.autoColumn.value);
      identity.counters[key := if key in identity.counters && identity.counters[key] >= id.value then identity.counters[key] else id.value]
  }

  /** The identity is written into its column when it was generated or the column is open. */
  function WithIdentity(schema: Schema, data: Row, identity: Identity): Row {
    var column := if |schema.primaryKey| == 1 then Some(schema.primaryKey[0])
                  else if schema.autoColumn == Some("id") then Some("id") else None;
    if column.None? then data
    else if identity.generated || column.value !in data || Defaultish(data[column.value]) then data[column.value := identity.id]
    else data
  }

  /** Qualified columns are not stored. */
  function Undotted(data: Row): Row { map c | c in data && '.' !in c :: data[c] }

  // ---------- one row ----------

  /** A row after defaults, generated columns and type coercion, or the error of one of these. */
  datatype Prepared = Ready(data: Row) | Rejected

  /** What ON DUPLICATE KEY UPDATE makes of the existing row: its data as far as the assignments
      went, and whether all of them could be evaluated. */
  datatype Merge = Merge(data: Row, ok: bool)

  /** From the existing and the incoming data. */
  type OnDuplicate = (Row, Row) -> Merge

  datatype Options = Options(ignore: bool, replace: bool, onDuplicate: Option<OnDuplicate>)

  datatype InsertError = BadRow | NoParent | KeyConflict | UniqueConflict | BadExpression

  datatype Step = Step(rows: TableRows, counters: Counters, affected: nat, error: Option<InsertError>)

  const NO_SCHEMA := Schema([], None, [], [], [])

  function SchemaOf(schemas: Schemas, table: string): Schema {
    if table in schemas then schemas[table] else NO_SCHEMA
  }

  /** The row, placed among `rows` under its key. */
  function Place(env: Env, settings: Settings, options: Options, table: string, rows: TableRows, counters: Counters,
                 identity: Identity, data: Row): Step {
    var schema := SchemaOf(env.schemas, table);
    var key := env.lib.text(identity.id);
    var conflicts := Conflicts(env.lib, schema, key, data, rows);
    var stored := StoredRow(identity.id, table, Undotted(data));
    if conflicts == {} then Step(rows[key := stored], counters, 1, None)
    else if options.ignore then Step(rows, counters, 0, None)
    else if options.onDuplicate.Some? then
      var hit := env.lib.first(conflicts);
      if hit !in rows then Step(rows, counters, 0, Some(BadExpression))
      else
        var merge := options.onDuplicate.value(rows[hit].data, data);
        var rows' := rows[hit := rows[hit].(data := merge.data)];
        if !merge.ok then Step(rows', counters, 0, Some(BadExpression))
        else Step(rows', counters, if merge.data == rows[hit].data then 0 else 2, None)
    else if options.replace || !settings.enforcesUniqueness then
      Step((rows - conflicts)[key := stored], counters, 1 + if options.replace then |conflicts| else 0, None)
    else Step(rows, counters, 0, Some(if key in conflicts then KeyConflict else UniqueConflict))
  }

  function InsertRow(env: Env, settings: Settings, options: Options, db: Database, table: string, counters: Counters,
                     row: Prepared, uuid: string): Step {
    var rows := RowsOf(db, table);
    if row.Rejected? then Step(rows, counters, 0, Some(BadRow))
    else if !ForeignKeysAccept(env, db, table, row.data) then Step(rows, counters, 0, if options.ignore then None else Some(NoParent))
    else
      var schema := SchemaOf(env.schemas, table);
      var identity := ResolveRowId(settings, schema, table, row.data, counters, uuid);
      Place(env, settings, options, table, rows, Raised(schema, table, identity), identity, WithIdentity(schema, row.data, identity))
  }

  /** Rows are inserted in order until one fails. */
  function InsertRows(env: Env, settings: Settings, options: Options, db: Database, table: string, counters: Counters,
                      rows: seq<Prepared>, uuids: nat -> string): Step {
    if rows == [] then Step(RowsOf(db, table), counters, 0, None)
    else
      var before := InsertRows(env, settings, options, db, table, counters, rows[..|rows| - 1], uuids);
      if before.error.Some? then before
      else
        var step := InsertRow(env, settings, options, db[table := before.rows], table, before.counters, rows[|rows| - 1], uuids(|rows| - 1));
        step.(affected := before.affected + step.affected)
  }

  /** The rows of the table before the row at which the statement failed, or before the last one. */
  function BeforeFailure(env: Env, settings: Settings, options: Options, db: Database, table: string, counters: Counters,
                         rows: seq<Prepared>, uuids: nat -> string): TableRows
    decreases |rows|
  {
    if rows == [] then RowsOf(db, table)
    else
      var front := rows[..|rows| - 1];
      var before := InsertRows(env, settings, options, db, table, counters, front, uuids);
      if before.error.Some? then BeforeFailure(env, settings, options, db, table, counters, front, uuids) else before.rows
  }

  // ---------- uniqueness ----------

  lemma {:induction false} NulledParts(lib: Library, data: Row, data': Row, columns: seq<string>, prefixLengths: seq<Option<nat>>, i: nat)
    requires Nulled(data, data') && i <= |columns|
    ensures Parts(lib, data', columns, prefixLengths, i).None?
            || Parts(lib, data', columns, prefixLengths, i) == Parts(lib, data, columns, prefixLengths, i)
    decreases |columns| - i
  {
    if i < |columns| { NulledParts(lib, data, data', columns, prefixLengths, i + 1); }
  }

  /** Nulling columns can only drop a unique key. */
  lemma NulledKey(lib: Library, schema: Schema, data: Row, data': Row, columns: seq<string>)
    requires Nulled(data, data')
    ensures UniqueKey(lib, schema, data', columns).None?
            || UniqueKey(lib, schema, data', columns) == UniqueKey(lib, schema, data, columns)
  {
    NulledParts(lib, data, data', columns, PrefixesFor(schema.indexes, columns), 0);
  }

  lemma UndottedConflicts(lib: Library, schema: Schema, key: string, data: Row, rows: TableRows)
    ensures Conflicts(lib, schema, key, Undotted(data), rows) <= Conflicts(lib, schema, key, data, rows)
  {
    hide UniqueKey;
    forall columns { NulledKey(lib, schema, data, Undotted(data), columns); }
  }

  /** Placing a row keeps unique keys unique in every mode but ON DUPLICATE KEY UPDATE. */
  lemma PlaceKeepsUnique(env: Env, settings: Settings, options: Options, table: string, rows: TableRows, counters: Counters,
                         identity: Identity, data: Row)
    requires Unique(env.lib, SchemaOf(env.schemas, table), rows) && options.onDuplicate.None?
    ensures Unique(env.lib, SchemaOf(env.schemas, table), Place(env, settings, options, table, rows, counters, identity, data).rows)
  {
    hide UniqueKey;
    var schema := SchemaOf(env.schemas, table);
    var key := env.lib.text(identity.id);
    var conflicts := Conflicts(env.lib, schema, key, data, rows);
    var left := rows - conflicts;
    FewerRowsStayUnique(env.lib, schema, rows, left);
    UndottedConflicts(env.lib, schema, key, data, left);
    hide Unique;
    assert Conflicts(env.lib, schema, key, data, left) == {};
    PutKeepsUniqueIff(env.lib, schema, left, key, StoredRow(identity.id, table, Undotted(data)));
    assert conflicts == {} ==> left == rows;
  }

  lemma {:induction false} InsertRowsKeepUnique(env: Env, settings: Settings, options: Options, db: Database, table: string,
                                                counters: Counters, rows: seq<Prepared>, uuids: nat -> string)
    requires Unique(env.lib, SchemaOf(env.schemas, table), RowsOf(db, table)) && options.onDuplicate.None?
    ensures Unique(env.lib, SchemaOf(env.schemas, table), InsertRows(env, settings, options, db, table, counters, rows, uuids).rows)
    decreases |rows|
  {
    hide Unique, Place, ForeignKeysAccept, ResolveRowId;
    if rows != [] {
      var n := |rows| - 1;
      InsertRowsKeepUnique(env, settings, options, db, table, counters, rows[..n], uuids);
      var before := InsertRows(env, settings, options, db, table, counters, rows[..n], uuids);
      if before.error.None? && rows[n].Ready? {
        var schema := SchemaOf(env.schemas, table);
        var identity := ResolveRowId(settings, schema, table, rows[n].data, before.counters, uuids(n));
        PlaceKeepsUnique(env, settings, options, table, before.rows, Raised(schema, table, identity), identity, WithIdentity(schema, rows[n].data, identity));
      }
    }
  }

  /** ON DUPLICATE KEY UPDATE keeps unique keys unique exactly when the merged row conflicts with
      no other row, which the program does not check. */
  lemma OnDuplicateKeepsUniqueIff(env: Env, settings: Settings, options: Options, table: string, rows: TableRows, counters: Counters,
                                  identity: Identity, data: Row)
    requires Unique(env.lib, SchemaOf(env.schemas, table), rows) && options.onDuplicate.Some? && !options.ignore && PicksMembers(env.lib)
    requires Conflicts(env.lib, SchemaOf(env.schemas, table), env.lib.text(identity.id), data, rows) != {}
    ensures var schema := SchemaOf(env.schemas, table);
            var hit := env.lib.first(Conflicts(env.lib, schema, env.lib.text(identity.id), data, rows));
            hit in rows && var merged := options.onDuplicate.value(rows[hit].data, data).data;
            Unique(env.lib, schema, Place(env, settings, options, table, rows, counters, identity, data).rows)
            <==> Conflicts(env.lib, schema, hit, merged, rows) <= {hit}
  {
    var schema := SchemaOf(env.schemas, table);
    var hit := env.lib.first(Conflicts(env.lib, schema, env.lib.text(identity.id), data, rows));
    var merged := options.onDuplicate.value(rows[hit].data, data).data;
    PutKeepsUniqueIff(env.lib, schema, rows, hit, rows[hit].(data := merged));
    hide Unique, UniqueKey;
  }
}
