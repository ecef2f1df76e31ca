/** DELETE with its foreign-key actions: integrity after every write, and the rows it removes. */
module DeleteIntegrity {
  import opened Wrappers
  import opened Json
  import opened Catalog
  import opened ForeignKeys

  /** Columns that a SET NULL key nulls are not referenced by any key. */
  ghost predicate NullsUnreferenced(schemas: Schemas) {
    forall t, key, ref :: t in schemas && key in schemas[t].foreignKeys && key.onDelete.SetNull? && Refers(schemas, ref, t)
      ==> forall c :: c in key.columns ==> c !in ref.key.referencedColumns
  }

  ghost predicate AllIntact(env: Env, writes: seq<Database>) {
    forall i :: 0 <= i < |writes| ==> Integrity(env, writes[i])
  }

  lemma SameRowsStayIntact(env: Env, db: Database, db': Database)
    requires Integrity(env, db) && forall t :: RowsOf(db', t) == RowsOf(db, t)
    ensures Integrity(env, db')
  {
    hide KeyMatches, NoneNull;
    forall t, key, k | t in env.schemas && key in env.schemas[t].foreignKeys && k in RowsOf(db', t)
      ensures RowIntact(env.lib, db', key, RowsOf(db', t)[k].data)
    {
      assert RowIntact(env.lib, db, key, RowsOf(db, t)[k].data);
    }
  }

  /** Rows that nothing references can be removed. */
  lemma RemovalKeepsIntegrity(env: Env, db: Database, table: string, keys: set<string>)
    requires Integrity(env, db)
    requires forall ref :: Refers(env.schemas, ref, table) ==>
               Unreferenced(env.lib, db, ref, Chosen(RowsOf(db, table), keys))
    ensures Integrity(env, db[table := RowsOf(db, table) - keys])
  {
    hide KeyMatches, EqIgnoreAsciiCase;
    var db' := db[table := RowsOf(db, table) - keys];
    forall t, key, k | t in env.schemas && key in env.schemas[t].foreignKeys && k in RowsOf(db', t)
      ensures RowIntact(env.lib, db', key, RowsOf(db', t)[k].data)
    {
      var child := RowsOf(db, t)[k].data;
      assert RowIntact(env.lib, db, key, child);
      if NoneNull(child, key.columns) {
        var parents := RowsOf(db, key.referencedTable);
        var p :| p in parents && KeyMatches(env.lib, child, key, parents[p].data);
        if key.referencedTable == table {
          EqIgnoreRefl(table);
          assert Refers(env.schemas, Reference(t, key), table);
          assert p in keys ==> p in Chosen(RowsOf(db, table), keys);
        }
        assert p in RowsOf(db', key.referencedTable) && RowsOf(db', key.referencedTable)[p] == parents[p];
      }
    }
  }

  lemma NullingChangesOnly(data: Row, columns: seq<string>, c: string)
    ensures ValueOf(NullColumns(data, columns), c) == if c in columns then Null else ValueOf(data, c)
  {
  }

  lemma NulledRowIntact(env: Env, db: Database, ref: Reference, keys: set<string>, t: string, key: ForeignKey, k: string)
    requires NullsUnreferenced(env.schemas)
    requires ref.table in env.schemas && ref.key in env.schemas[ref.table].foreignKeys && ref.key.onDelete.SetNull?
    requires t in env.schemas && key in env.schemas[t].foreignKeys && k in RowsOf(db, t)
    requires RowIntact(env.lib, db, key, RowsOf(db, t)[k].data)
    ensures var db' := db[ref.table := NullRows(RowsOf(db, ref.table), keys, ref.key.columns)];
            RowIntact(env.lib, db', key, RowsOf(db', t)[k].data)
  {
    hide KeyMatches, EqIgnoreAsciiCase, NullColumns;
    var db' := db[ref.table := NullRows(RowsOf(db, ref.table), keys, ref.key.columns)];
    var child, child' := RowsOf(db, t)[k].data, RowsOf(db', t)[k].data;
    if NoneNull(child', key.columns) {
      forall c | c in key.columns ensures ValueOf(child', c) == ValueOf(child, c) {
        NullingChangesOnly(child, ref.key.columns, c);
      }
      var parents, parents' := RowsOf(db, key.referencedTable), RowsOf(db', key.referencedTable);
      var p :| p in parents && KeyMatches(env.lib, child, key, parents[p].data);
      forall c | c in key.referencedColumns ensures ValueOf(parents'[p].data, c) == ValueOf(parents[p].data, c) {
        if key.referencedTable == ref.table {
          EqIgnoreRefl(ref.table);
          assert Refers(env.schemas, Reference(t, key), ref.table);
          NullingChangesOnly(parents[p].data, ref.key.columns, c);
        }
      }
      KeyMatchesByColumns(env.lib, child, child', key, parents[p].data, parents'[p].data);
    }
  }

  /** Nulling the columns of a SET NULL key can be done anywhere. */
  lemma NullingKeepsIntegrity(env: Env, db: Database, ref: Reference, keys: set<string>)
    requires Integrity(env, db) && NullsUnreferenced(env.schemas)
    requires ref.table in env.schemas && ref.key in env.schemas[ref.table].foreignKeys && ref.key.onDelete.SetNull?
    ensures Integrity(env, db[ref.table := NullRows(RowsOf(db, ref.table), keys, ref.key.columns)])
  {
    hide RowIntact, NullsUnreferenced, NullColumns;
    var db' := db[ref.table := NullRows(RowsOf(db, ref.table), keys, ref.key.columns)];
    forall t, key, k | t in env.schemas && key in env.schemas[t].foreignKeys && k in RowsOf(db', t)
      ensures RowIntact(env.lib, db', key, RowsOf(db', t)[k].data)
    {
      NulledRowIntact(env, db, ref, keys, t, key, k);
    }
  }

  // ---------- every write keeps integrity ----------

  ghost predicate Intact(env: Env, o: Outcome) { AllIntact(env, o.writes) && Integrity(env, o.db) }

  lemma {:induction false} ActionsKeepIntegrity(env: Env, db: Database, parent: string, keys: set<string>, visited: set<RowId>,
                                                universe: set<RowId>, rank: string -> nat)
    requires ValidEnv(env) && Ranked(env.schemas, rank) && NullsUnreferenced(env.schemas) && Within(db, universe)
    requires Settled(db, visited, rank, rank(parent)) && Integrity(env, db)
    ensures Intact(env, Actions(env, db, parent, keys, visited, universe))
    decreases |universe - visited|, |keys|, 2, 0
  {
    var parents := Chosen(RowsOf(db, parent), keys);
    if parents != map[] {
      var refs := References(env, parent);
      forall ref { ReferencesAre(env, parent, ref); }
      assert keys != {};
      EachKeepsIntegrity(env, refs, db, parent, keys, parents, visited, universe, rank);
    }
  }

  lemma NoWritesIntact(env: Env)
    ensures AllIntact(env, [])
  {
  }

  lemma MoreWritesIntact(env: Env, a: seq<Database>, b: seq<Database>)
    requires AllIntact(env, a) && AllIntact(env, b)
    ensures AllIntact(env, a + b)
  {
  }

  lemma OneWriteIntact(env: Env, db: Database)
    requires Integrity(env, db)
    ensures AllIntact(env, [db])
  {
  }

  lemma {:induction false} EachKeepsIntegrity(env: Env, refs: seq<Reference>, db: Database, parent: string, keys: set<string>,
                                              parents: TableRows, visited: set<RowId>, universe: set<RowId>, rank: string -> nat)
    requires ValidEnv(env) && Ranked(env.schemas, rank) && NullsUnreferenced(env.schemas) && Within(db, universe) && keys != {}
    requires Settled(db, visited, rank, rank(parent)) && Integrity(env, db)
    requires forall ref :: ref in refs ==> Refers(env.schemas, ref, parent)
    ensures Intact(env, Each(env, refs, db, parent, keys, parents, visited, universe))
    decreases |universe - visited|, |keys|, 1, |refs|
  {
    hide Integrity, AllIntact, NullsUnreferenced, Refers, Ranked, One;
    NoWritesIntact(env);
    if refs != [] {
      var o := One(env, refs[0], db, parent, keys, parents, visited, universe);
      OneKeepsIntegrity(env, refs[0], db, parent, keys, parents, visited, universe, rank);
      FrameOne(env, refs[0], db, parent, keys, parents, visited, universe, rank);
      if o.error.None? {
        FewerUnvisited(universe, visited, o.visited);
        var rest := Each(env, refs[1..], o.db, parent, keys, parents, o.visited, universe);
        EachKeepsIntegrity(env, refs[1..], o.db, parent, keys, parents, o.visited, universe, rank);
        MoreWritesIntact(env, o.writes, rest.writes);
      }
    }
  }

  lemma {:induction false} OneKeepsIntegrity(env: Env, ref: Reference, db: Database, parent: string, keys: set<string>,
                                             parents: TableRows, visited: set<RowId>, universe: set<RowId>, rank: string -> nat)
    requires ValidEnv(env) && Ranked(env.schemas, rank) && NullsUnreferenced(env.schemas) && Within(db, universe) && keys != {}
    requires Settled(db, visited, rank, rank(parent)) && Integrity(env, db) && Refers(env.schemas, ref, parent)
    ensures Intact(env, One(env, ref, db, parent, keys, parents, visited, universe))
    decreases |universe - visited|, |keys|, 0, 1
  {
    hide Integrity, AllIntact, NullsUnreferenced, Ranked, ChildrenOf, Actions, One, Within, Unreferenced;
    var matching := ChildrenOf(env.lib, ref, parent, keys, parents, RowsOf(db, ref.table));
    RankGrows(env.schemas, ref, parent, rank);
    OneElsewise(env, ref, db, parent, keys, parents, visited, universe);
    NoWritesIntact(env);
    if matching != {} && ref.key.onDelete.Cascade? {
      CascadeKeepsIntegrity(env, ref, db, parent, keys, parents, visited, universe, rank, matching);
    } else if matching != {} && ref.key.onDelete.SetNull? {
      NullingKeepsIntegrity(env, db, ref, matching);
      OneWriteIntact(env, db[ref.table := NullRows(RowsOf(db, ref.table), matching, ref.key.columns)]);
    }
  }

  lemma {:induction false} CascadeKeepsIntegrity(env: Env, ref: Reference, db: Database, parent: string, keys: set<string>,
                                                 parents: TableRows, visited: set<RowId>, universe: set<RowId>,
                                                 rank: string -> nat, matching: set<string>)
    requires ValidEnv(env) && Ranked(env.schemas, rank) && NullsUnreferenced(env.schemas) && Within(db, universe) && keys != {}
    requires Settled(db, visited, rank, rank(parent)) && Integrity(env, db)
    requires rank(parent) < rank(ref.table) && ref.key.onDelete.Cascade? && matching != {}
    requires matching == ChildrenOf(env.lib, ref, parent, keys, parents, RowsOf(db, ref.table))
    ensures Intact(env, One(env, ref, db, parent, keys, parents, visited, universe))
    decreases |universe - visited|, |keys|, 0, 0
  {
    ChildrenExist(env.lib, ref, parent, keys, parents, RowsOf(db, ref.table));
    hide Integrity, AllIntact, NullsUnreferenced, Ranked, ChildrenOf, Actions, One, Within, Unreferenced;
    forall k | k in matching ensures RowId(ref.table, k) !in visited {}
    OneCascade(env, ref, db, parent, keys, parents, visited, universe, matching);
    var visited' := visited + RowIds(ref.table, matching);
    var below := Actions(env, db, ref.table, matching, visited', universe);
    SettledAbove(db, visited, ref.table, matching, rank, rank(parent));
    ActionsKeepIntegrity(env, db, ref.table, matching, visited', universe, rank);
    FrameActions(env, db, ref.table, matching, visited', universe, rank);
    if below.error.None? {
      assert RowsOf(below.db, ref.table) == RowsOf(db, ref.table);
      RemovalKeepsIntegrity(env, below.db, ref.table, matching);
      var db' := below.db[ref.table := RowsOf(db, ref.table) - matching];
      OneWriteIntact(env, db');
      MoreWritesIntact(env, below.writes, [db']);
    }
  }

  lemma RankGrows(schemas: Schemas, ref: Reference, parent: string, rank: string -> nat)
    requires Ranked(schemas, rank) && Refers(schemas, ref, parent)
    ensures rank(parent) < rank(ref.table)
  {
  }

  lemma ChildrenExist(lib: Library, ref: Reference, parent: string, keys: set<string>, parents: TableRows, children: TableRows)
    ensures forall k :: k in ChildrenOf(lib, ref, parent, keys, parents, children) ==> k in children
  {
  }

  // ---------- the statement ----------

  ghost function Universe(db: Database): (u: set<RowId>)
    ensures Within(db, u)
  {
    set t, k | t in db && k in db[t] :: RowId(t, k)
  }

  /** DELETE of the selected rows: the actions first, then the rows themselves, taken out of the
      table as it was when the statement began. */
  ghost function DeleteRows(env: Env, db: Database, table: string, keys: set<string>): Outcome {
    if keys == {} then Outcome(db, {}, None, [])
    else
      var o := Actions(env, db, table, keys, {}, Universe(db));
      if o.error.Some? then o
      else
        var db' := o.db[table := RowsOf(db, table) - keys];
        Outcome(db', o.visited, None, o.writes + [db'])
  }

  /** On a ranked graph every state a DELETE stores keeps integrity, whether it succeeds or is
      stopped by a RESTRICT midway. */
  lemma DeleteKeepsIntegrity(env: Env, db: Database, table: string, keys: set<string>, rank: string -> nat)
    requires ValidEnv(env) && Ranked(env.schemas, rank) && NullsUnreferenced(env.schemas) && Integrity(env, db)
    ensures var o := DeleteRows(env, db, table, keys);
            AllIntact(env, o.writes) && Integrity(env, o.db)
  {
    hide Integrity, NullsUnreferenced, Ranked, Actions, Universe;
    var o := Actions(env, db, table, keys, {}, Universe(db));
    ActionsKeepIntegrity(env, db, table, keys, {}, Universe(db), rank);
    if o.error.None? {
      FrameActions(env, db, table, keys, {}, Universe(db), rank);
      assert RowsOf(o.db, table) == RowsOf(db, table);
      RemovalKeepsIntegrity(env, o.db, table, keys);
    }
  }

  // ---------- DELETE IGNORE ----------

  /** State after the actions of the rows so far; `deletable` are those whose actions succeeded. */
  datatype Ignored = Ignored(db: Database, deletable: set<string>, writes: seq<Database>)

  /** One row at a time. Actions that fail midway keep what they have done. */
  ghost function IgnoreActions(env: Env, db: Database, table: string, keys: seq<string>): Ignored {
    if keys == [] then Ignored(db, {}, [])
    else
      var n := |keys| - 1;
      var so := IgnoreActions(env, db, table, keys[..n]);
      var o := Actions(env, so.db, table, {keys[n]}, {}, Universe(so.db));
      Ignored(o.db, so.deletable + if o.error.None? then {keys[n]} else {}, so.writes + o.writes)
  }

  /** The rows that nothing forbids to delete, taken out of the table as it was at the beginning. */
  ghost function DeleteIgnoring(env: Env, db: Database, table: string, keys: seq<string>): Ignored {
    if keys == [] then Ignored(db, {}, [])
    else
      var i := IgnoreActions(env, db, table, keys);
      var db' := i.db[table := RowsOf(db, table) - i.deletable];
      Ignored(db', i.deletable, i.writes + [db'])
  }

  /** Nothing references the rows that may be deleted, and the table is as it was. */
  ghost predicate Cleared(env: Env, db: Database, table: string, i: Ignored) {
    && RowsOf(i.db, table) == RowsOf(db, table)
    && forall ref :: Refers(env.schemas, ref, table) ==> Unreferenced(env.lib, i.db, ref, Chosen(RowsOf(db, table), i.deletable))
  }

  lemma MoreUnreferenced(lib: Library, db: Database, ref: Reference, rows: TableRows, keys: set<string>, k: string)
    requires Unreferenced(lib, db, ref, Chosen(rows, keys)) && Unreferenced(lib, db, ref, Chosen(rows, {k}))
    ensures Unreferenced(lib, db, ref, Chosen(rows, keys + {k}))
  {
    hide KeyMatches;
    forall j, p | j in RowsOf(db, ref.table) && p in Chosen(rows, keys + {k})
      ensures !KeyMatches(lib, RowsOf(db, ref.table)[j].data, ref.key, Chosen(rows, keys + {k})[p].data)
    {
      if p in keys { assert p in Chosen(rows, keys); } else { assert p in Chosen(rows, {k}); }
    }
  }

  lemma {:induction false} IgnoreKeepsIntegrity(env: Env, db: Database, table: string, keys: seq<string>, rank: string -> nat)
    requires ValidEnv(env) && Ranked(env.schemas, rank) && NullsUnreferenced(env.schemas) && Integrity(env, db)
    ensures var i := IgnoreActions(env, db, table, keys);
            AllIntact(env, i.writes) && Integrity(env, i.db) && Cleared(env, db, table, i)
    decreases |keys|
  {
    hide Integrity, AllIntact, NullsUnreferenced, Ranked, Actions, Universe, Unreferenced, Shrunk, Refers, Chosen;
    NoWritesIntact(env);
    if keys == [] {
      forall ref { NothingChosen(env.lib, db, ref, RowsOf(db, table)); }
    } else {
      var n := |keys| - 1;
      var so := IgnoreActions(env, db, table, keys[..n]);
      var o := Actions(env, so.db, table, {keys[n]}, {}, Universe(so.db));
      IgnoreKeepsIntegrity(env, db, table, keys[..n], rank);
      ActionsKeepIntegrity(env, so.db, table, {keys[n]}, {}, Universe(so.db), rank);
      FrameActions(env, so.db, table, {keys[n]}, {}, Universe(so.db), rank);
      MoreWritesIntact(env, so.writes, o.writes);
      assert so.deletable + {} == so.deletable;
      forall ref | Refers(env.schemas, ref, table)
        ensures Unreferenced(env.lib, o.db, ref, Chosen(RowsOf(db, table), so.deletable + if o.error.None? then {keys[n]} else {}))
      {
        StaysUnreferenced(env.lib, so.db, o.db, ref, Chosen(RowsOf(db, table), so.deletable));
        if o.error.None? { MoreUnreferenced(env.lib, o.db, ref, RowsOf(db, table), so.deletable, keys[n]); }
      }
    }
  }

  lemma NothingChosen(lib: Library, db: Database, ref: Reference, rows: TableRows)
    ensures Unreferenced(lib, db, ref, Chosen(rows, {}))
  {
  }

  /** On a ranked graph DELETE IGNORE keeps integrity, although a row it passes over may have lost
      children to actions that ran before the one that failed. */
  lemma DeleteIgnoringKeepsIntegrity(env: Env, db: Database, table: string, keys: seq<string>, rank: string -> nat)
    requires ValidEnv(env) && Ranked(env.schemas, rank) && NullsUnreferenced(env.schemas) && Integrity(env, db)
    ensures var i := DeleteIgnoring(env, db, table, keys);
            AllIntact(env, i.writes) && Integrity(env, i.db)
  {
    hide Integrity, NullsUnreferenced, Ranked, IgnoreActions;
    var i := IgnoreActions(env, db, table, keys);
    IgnoreKeepsIntegrity(env, db, table, keys, rank);
    RemovalKeepsIntegrity(env, i.db, table, i.deletable);
  }
}
