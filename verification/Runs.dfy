/** Whole runs of statements: what every one of them keeps. */
module Runs {
  import opened Wrappers
  import opened Json
  import opened Catalog
  import opened UniqueKeys
  import opened ForeignKeys
  import opened ParentUpdate
  import opened DeleteIntegrity
  import opened Inserting
  import opened UpdateSteps

  datatype Statement =
    | Insert(table: string, prepared: seq<Prepared>, options: Options, uuids: nat -> string)
    | Delete(table: string, keys: set<string>)
    | Modify(table: string, order: seq<string>, given: map<string, Prepared>, ignore: bool)
    | Truncate(table: string)

  datatype State = State(db: Database, counters: Counters)

  function TheUpdate(env: Env, settings: Settings, s: State, e: Statement): Update
    requires e.Modify?
  {
    Update(env, settings, s.db, e.table, e.given, e.ignore)
  }

  /** An UPDATE visits every row of its table once. */
  ghost predicate Possible(s: State, e: Statement) { e.Modify? ==> Lists(e.order, RowsOf(s.db, e.table)) }

  /** The state after one statement, in its simple form. */
  ghost function Execute(env: Env, settings: Settings, s: State, e: Statement): State
    requires Possible(s, e)
  {
    match e
    case Insert(table, prepared, options, uuids) =>
      var step := InsertRows(env, settings, options, s.db, table, s.counters, prepared, uuids);
      State(s.db[table := step.rows], step.counters)
    case Delete(table, keys) => s.(db := DeleteRows(env, s.db, table, keys).db)
    case Modify(table, order, _, _) =>
      var u := TheUpdate(env, settings, s, e);
      if table !in env.schemas || Verdict(u, Walk(u, order)).Some? then s
      else s.(db := Updated(env, s.db, table, Walk(u, order).next, Walk(u, order).changes))
    case Truncate(table) => State(s.db[table := map[]], ClearedCounters(s.counters, table))
  }

  // ---------- DELETE only removes rows and nulls columns ----------

  /** A SET NULL key of the table contains the column. */
  ghost predicate Nullable(schemas: Schemas, t: string, c: string) {
    t in schemas && exists key :: key in schemas[t].foreignKeys && key.onDelete.SetNull? && c in key.columns
  }

  /** The row is as it was, except that columns of SET NULL keys may have become null. */
  ghost predicate Worn(schemas: Schemas, t: string, row: StoredRow, row': StoredRow) {
    row'.id == row.id
    && forall c :: SameAt(row'.data, row.data, c) || (Nullable(schemas, t, c) && ValueOf(row'.data, c) == Null)
  }

  ghost predicate OnlyWorn(schemas: Schemas, db: Database, db': Database) {
    forall t, k :: k in RowsOf(db', t) ==> k in RowsOf(db, t) && Worn(schemas, t, RowsOf(db, t)[k], RowsOf(db', t)[k])
  }

  lemma OnlyWornIsShrunk(schemas: Schemas, db: Database, db': Database)
    requires OnlyWorn(schemas, db, db')
    ensures Shrunk(db, db')
  {
    forall t, k | k in RowsOf(db', t) ensures k in RowsOf(db, t) && Nulled(RowsOf(db, t)[k].data, RowsOf(db', t)[k].data) {
      assert Worn(schemas, t, RowsOf(db, t)[k], RowsOf(db', t)[k]);
    }
  }

  lemma NothingWorn(schemas: Schemas, db: Database)
    ensures OnlyWorn(schemas, db, db)
  {
  }

  lemma WornTwice(schemas: Schemas, a: Database, b: Database, c: Database)
    requires OnlyWorn(schemas, a, b) && OnlyWorn(schemas, b, c)
    ensures OnlyWorn(schemas, a, c)
  {
    hide Worn;
    forall t, k | k in RowsOf(c, t) ensures k in RowsOf(a, t) && Worn(schemas, t, RowsOf(a, t)[k], RowsOf(c, t)[k]) {
      WornOnce(schemas, t, RowsOf(a, t)[k], RowsOf(b, t)[k], RowsOf(c, t)[k]);
    }
  }

  lemma WornOnce(schemas: Schemas, t: string, a: StoredRow, b: StoredRow, c: StoredRow)
    requires Worn(schemas, t, a, b) && Worn(schemas, t, b, c)
    ensures Worn(schemas, t, a, c)
  {
    hide Nullable;
  }

  lemma NullRowsWear(schemas: Schemas, db: Database, ref: Reference, keys: set<string>, parent: string)
    requires Refers(schemas, ref, parent) && ref.key.onDelete.SetNull?
    ensures OnlyWorn(schemas, db, db[ref.table := NullRows(RowsOf(db, ref.table), keys, ref.key.columns)])
  {
    hide EqIgnoreAsciiCase;
    forall c | c in ref.key.columns ensures Nullable(schemas, ref.table, c) {}
    hide Nullable;
  }

  lemma {:induction false} ActionsWear(env: Env, db: Database, parent: string, keys: set<string>, visited: set<RowId>, universe: set<RowId>)
    requires Within(db, universe)
    ensures OnlyWorn(env.schemas, db, Actions(env, db, parent, keys, visited, universe).db)
    decreases |universe - visited|, |keys|, 2, 0
  {
    hide OnlyWorn;
    NothingWorn(env.schemas, db);
    var parents := Chosen(RowsOf(db, parent), keys);
    if parents != map[] {
      assert keys != {};
      forall ref { ReferencesFromAre(env.schemas, env.order, parent, ref); }
      EachWears(env, References(env, parent), db, parent, keys, parents, visited, universe);
    }
  }

  lemma {:induction false} EachWears(env: Env, refs: seq<Reference>, db: Database, parent: string, keys: set<string>, parents: TableRows,
                                     visited: set<RowId>, universe: set<RowId>)
    requires Within(db, universe) && keys != {} && forall ref :: ref in refs ==> Refers(env.schemas, ref, parent)
    ensures OnlyWorn(env.schemas, db, Each(env, refs, db, parent, keys, parents, visited, universe).db)
    decreases |universe - visited|, |keys|, 1, |refs|
  {
    hide OnlyWorn, One, Refers;
    NothingWorn(env.schemas, db);
    if refs != [] {
      var o := One(env, refs[0], db, parent, keys, parents, visited, universe);
      OneWears(env, refs[0], db, parent, keys, parents, visited, universe);
      if o.error.None? {
        FewerUnvisited(universe, visited, o.visited);
        EachWears(env, refs[1..], o.db, parent, keys, parents, o.visited, universe);
        WornTwice(env.schemas, db, o.db, Each(env, refs[1..], o.db, parent, keys, parents, o.visited, universe).db);
      }
    }
  }

  lemma {:induction false} OneWears(env: Env, ref: Reference, db: Database, parent: string, keys: set<string>, parents: TableRows,
                                    visited: set<RowId>, universe: set<RowId>)
    requires Within(db, universe) && keys != {} && Refers(env.schemas, ref, parent)
    ensures OnlyWorn(env.schemas, db, One(env, ref, db, parent, keys, parents, visited, universe).db)
    decreases |universe - visited|, |keys|, 0, 0
  {
    hide OnlyWorn, Actions, ChildrenOf, Refers;
    NothingWorn(env.schemas, db);
    var children := RowsOf(db, ref.table);
    var matching := ChildrenOf(env.lib, ref, parent, keys, parents, children);
    ChildrenExist(env.lib, ref, parent, keys, parents, children);
    if matching != {} && ref.key.onDelete.Cascade? {
      var unseen := set k | k in matching && RowId(ref.table, k) !in visited;
      var visited' := visited + RowIds(ref.table, unseen);
      FewerUnvisited(universe, visited, visited');
      UnseenMeasure(universe, visited, ref.table, unseen, keys);
      var below := Actions(env, db, ref.table, unseen, visited', universe);
      ActionsWear(env, db, ref.table, unseen, visited', universe);
      WriteBackWears(env.schemas, db, below.db, ref.table, unseen);
    } else if ref.key.onDelete.SetNull? {
      NullRowsWear(env.schemas, db, ref, matching, parent);
    }
  }

  lemma WriteBackWears(schemas: Schemas, db: Database, below: Database, table: string, keys: set<string>)
    requires OnlyWorn(schemas, db, below)
    ensures OnlyWorn(schemas, db, below[table := RowsOf(db, table) - keys])
  {
    hide Nullable;
  }

  /** On any graph of foreign keys a DELETE only removes rows and nulls columns of SET NULL keys. */
  lemma DeleteWears(env: Env, db: Database, table: string, keys: set<string>)
    ensures OnlyWorn(env.schemas, db, DeleteRows(env, db, table, keys).db)
  {
    hide OnlyWorn, Actions, Universe;
    NothingWorn(env.schemas, db);
    if keys != {} {
      ActionsWear(env, db, table, keys, {}, Universe(db));
      WriteBackWears(env.schemas, db, Actions(env, db, table, keys, {}, Universe(db)).db, table, keys);
    }
  }

  // ---------- unique keys ----------

  ghost predicate UniqueEverywhere(env: Env, db: Database) {
    forall t :: Unique(env.lib, SchemaOf(env.schemas, t), RowsOf(db, t))
  }

  lemma ShrunkStaysUnique(env: Env, db: Database, db': Database)
    requires UniqueEverywhere(env, db) && Shrunk(db, db')
    ensures UniqueEverywhere(env, db')
  {
    hide Nulled, UniqueKey;
    forall t ensures Unique(env.lib, SchemaOf(env.schemas, t), RowsOf(db', t)) {
      var schema, rows, rows' := SchemaOf(env.schemas, t), RowsOf(db, t), RowsOf(db', t);
      assert Unique(env.lib, schema, rows);
      forall i, j, k | 0 <= i < |schema.unique| && j in rows' && k in rows' && j != k
        ensures !SameUniqueKey(env.lib, schema, rows'[j].data, rows'[k].data, schema.unique[i])
      {
        assert !SameUniqueKey(env.lib, schema, rows[j].data, rows[k].data, schema.unique[i]);
        NulledKey(env.lib, schema, rows[j].data, rows'[j].data, schema.unique[i]);
        NulledKey(env.lib, schema, rows[k].data, rows'[k].data, schema.unique[i]);
      }
    }
  }

  /** No foreign key copies new values into its table on UPDATE. */
  ghost predicate NoUpdateCascade(env: Env) {
    forall t, key :: t in env.schemas && key in env.schemas[t].foreignKeys ==> !key.onUpdate.Cascade?
  }

  lemma {:induction false} AssignedNulls(data: Row, so: Row, columns: seq<string>, values: seq<Value>)
    requires Nulled(data, so) && forall i :: 0 <= i < |values| ==> values[i] == Null
    ensures Nulled(data, Assigned(so, columns, values))
    decreases |columns|
  {
    if columns != [] && values != [] {
      AssignedNulls(data, so[columns[0] := values[0]], columns[1..], values[1..]);
    }
  }

  lemma {:induction false} AfterKeyNulls(lib: Library, key: ForeignKey, changes: seq<Change>, before: Row, data: Row, so: Row)
    requires !key.onUpdate.Cascade? && Nulled(data, so)
    ensures Nulled(data, AfterKey(lib, key, changes, before, so))
    decreases |changes|
  {
    hide Nulled, Hit, Assigned;
    if changes != [] {
      var n := |changes| - 1;
      AfterKeyNulls(lib, key, changes[..n], before, data, so);
      AssignedNulls(data, AfterKey(lib, key, changes[..n], before, so), key.columns, NewValues(key, changes[n]));
    }
  }

  lemma {:induction false} AfterKeysNull(lib: Library, refs: seq<Reference>, changes: seq<Change>, table: string, data: Row)
    requires forall ref :: ref in refs ==> !ref.key.onUpdate.Cascade?
    ensures Nulled(data, AfterKeys(lib, refs, changes, table, data, data))
    decreases |refs|
  {
    hide AfterKey;
    if refs != [] {
      var n := |refs| - 1;
      assert refs[n] in refs;
      AfterKeysNull(lib, refs[..n], changes, table, data);
      if refs[n].table == table {
        AfterKeyNulls(lib, refs[n].key, changes, data, data, AfterKeys(lib, refs[..n], changes, table, data, data));
      }
    }
  }

  /** The children of an UPDATE only have columns nulled. */
  lemma ChildrenShrink(env: Env, db: Database, parent: string, changes: seq<Change>)
    requires ValidEnv(env) && NoUpdateCascade(env)
    ensures Shrunk(db, ChildrenAfter(env, db, parent, changes))
  {
    hide Nulled, AfterKeys;
    var refs := OtherReferences(env, parent);
    forall ref | ref in refs ensures !ref.key.onUpdate.Cascade? {
      OthersAre(References(env, parent), parent, ref);
      ReferencesAre(env, parent, ref);
    }
    hide OtherReferences;
    forall t, d { AfterKeysNull(env.lib, refs, changes, t, d); }
  }

  lemma OneTableStaysUnique(env: Env, db: Database, table: string, rows: TableRows)
    requires UniqueEverywhere(env, db) && Unique(env.lib, SchemaOf(env.schemas, table), rows)
    ensures UniqueEverywhere(env, db[table := rows])
  {
    hide Unique;
  }

  /** INSERT without ON DUPLICATE KEY UPDATE; UPDATE with keys enforced. */
  predicate GuardsKeys(settings: Settings, e: Statement) {
    match e
    case Insert(_, _, options, _) => options.onDuplicate.None?
    case Modify(_, _, _, _) => settings.enforcesUniqueness
    case _ => true
  }

  lemma StepKeepsUnique(env: Env, settings: Settings, s: State, e: Statement)
    requires ValidEnv(env) && NoUpdateCascade(env) && UniqueEverywhere(env, s.db) && Possible(s, e) && GuardsKeys(settings, e)
    ensures UniqueEverywhere(env, Execute(env, settings, s, e).db)
  {
    hide Unique, Shrunk, OnlyWorn, InsertRows, Walk, NoUpdateCascade, UniqueEverywhere;
    match e {
      case Insert(table, prepared, options, uuids) =>
        assert Unique(env.lib, SchemaOf(env.schemas, table), RowsOf(s.db, table)) by { TableIsUnique(env, s.db, table); }
        InsertRowsKeepUnique(env, settings, options, s.db, table, s.counters, prepared, uuids);
        OneTableStaysUnique(env, s.db, table, InsertRows(env, settings, options, s.db, table, s.counters, prepared, uuids).rows);
      case Delete(table, keys) =>
        DeleteWears(env, s.db, table, keys);
        OnlyWornIsShrunk(env.schemas, s.db, DeleteRows(env, s.db, table, keys).db);
        ShrunkStaysUnique(env, s.db, DeleteRows(env, s.db, table, keys).db);
      case Modify(table, order, _, _) =>
        var u := TheUpdate(env, settings, s, e);
        var w := Walk(u, order);
        if table in env.schemas && Verdict(u, w).None? {
          ConstraintsMakeUnique(env.lib, SchemaOfUpdate(u), w.next);
          ChildrenShrink(env, s.db, table, w.changes);
          ShrunkStaysUnique(env, s.db, ChildrenAfter(env, s.db, table, w.changes));
          OneTableStaysUnique(env, ChildrenAfter(env, s.db, table, w.changes), table, w.next);
        }
      case Truncate(table) =>
        NoRowsUnique(env.lib, SchemaOf(env.schemas, table));
        OneTableStaysUnique(env, s.db, table, map[]);
    }
  }

  lemma TableIsUnique(env: Env, db: Database, table: string)
    requires UniqueEverywhere(env, db)
    ensures Unique(env.lib, SchemaOf(env.schemas, table), RowsOf(db, table))
  {
  }

  lemma NoRowsUnique(lib: Library, schema: Schema)
    ensures Unique(lib, schema, map[])
  {
  }

  // ---------- runs ----------

  /** `states` are the states of a run of the statements. */
  ghost predicate IsRun(env: Env, settings: Settings, states: seq<State>, statements: seq<Statement>) {
    |states| == |statements| + 1
    && forall i :: 0 <= i < |statements| ==> Possible(states[i], statements[i]) && states[i + 1] == Execute(env, settings, states[i], statements[i])
  }

  /** Over every run, whatever fails on the way, no two rows of a table share a unique key. */
  lemma {:induction false} RunKeepsUnique(env: Env, settings: Settings, states: seq<State>, statements: seq<Statement>, n: nat)
    requires ValidEnv(env) && NoUpdateCascade(env) && IsRun(env, settings, states, statements) && n <= |statements|
    requires forall e :: e in statements ==> GuardsKeys(settings, e)
    requires UniqueEverywhere(env, states[0].db)
    ensures UniqueEverywhere(env, states[n].db)
    decreases n
  {
    hide UniqueEverywhere, Execute, NoUpdateCascade, GuardsKeys;
    if n > 0 {
      RunKeepsUnique(env, settings, states, statements, n - 1);
      assert states[n - 1 + 1] == Execute(env, settings, states[n - 1], statements[n - 1]);
      StepKeepsUnique(env, settings, states[n - 1], statements[n - 1]);
    }
  }
}
