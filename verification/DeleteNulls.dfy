/** What a DELETE with SET NULL keys removes and nulls. */
module DeleteNulls {
  import opened Wrappers
  import opened Json
  import opened Catalog
  import opened ForeignKeys
  import opened DeleteIntegrity
  import opened DeleteClosure
  import opened DeleteCycles

  // ---------- nothing is removed or nulled without a reason ----------

  /** A SET NULL key with the column leads from the row to a row of `s`, and its columns are all
      null now. */
  ghost predicate Explained(env: Env, base: Database, s: set<RowId>, t: string, k: string, data: Row, c: string) {
    exists r, ref :: r in s && KeyTo(env, base, r, ref, k) && ref.table == t && ref.key.onDelete.SetNull? && c in ref.key.columns
                     && forall x :: x in ref.key.columns ==> ValueOf(data, x) == Null
  }

  /** The row has its identity, and each column that has changed is null for a reason. */
  ghost predicate WornRow(env: Env, base: Database, s: set<RowId>, t: string, k: string, row: StoredRow)
    requires k in RowsOf(base, t)
  {
    row.id == RowsOf(base, t)[k].id && row.table == RowsOf(base, t)[k].table
    && forall c :: SameAt(row.data, RowsOf(base, t)[k].data, c) || (ValueOf(row.data, c) == Null && Explained(env, base, s, t, k, row.data, c))
  }

  /** Rows are gone only if they are in `s`, and the others are worn for a reason. */
  ghost predicate Reasoned(env: Env, base: Database, s: set<RowId>, db: Database) {
    && RemovedWithin(base, db, s)
    && forall t, k :: k in RowsOf(db, t) ==> k in RowsOf(base, t) && WornRow(env, base, s, t, k, RowsOf(db, t)[k])
  }

  /** No RESTRICT key and none with an unknown action matches a row of `s`. */
  ghost predicate Unrestricted(env: Env, base: Database, s: set<RowId>) {
    forall r, ref, c :: r in s && KeyTo(env, base, r, ref, c) ==> ref.key.onDelete.Cascade? || ref.key.onDelete.SetNull?
  }

  /** A key on a row of `s` that forbids the DELETE, with the error that says so. */
  ghost predicate Blamed(env: Env, base: Database, s: set<RowId>, error: Error) {
    exists r, ref, c :: r in s && KeyTo(env, base, r, ref, c) && Forbids(ref.key, error)
  }

  predicate Forbids(key: ForeignKey, error: Error) {
    match error
    case Restricted(name) => key.onDelete.Restrict? && key.name == name
    case UnsupportedAction => key.onDelete.Unsupported?
  }

  ghost predicate AllReasoned(env: Env, base: Database, s: set<RowId>, o: Outcome, visited: set<RowId>) {
    Reasoned(env, base, s, o.db) && (forall v :: v in o.visited && v !in visited ==> v in s) && (o.error.Some? ==> Blamed(env, base, s, o.error.value))
  }

  /** The parent rows are worn rows of `s`. */
  ghost predicate ParentsWorn(base: Database, parent: string, parents: TableRows, s: set<RowId>) {
    forall p :: p in parents ==> p in RowsOf(base, parent) && Nulled(RowsOf(base, parent)[p].data, parents[p].data) && RowId(parent, p) in s
  }

  lemma WornIsNulled(env: Env, base: Database, s: set<RowId>, t: string, k: string, row: StoredRow)
    requires k in RowsOf(base, t) && WornRow(env, base, s, t, k, row)
    ensures Nulled(RowsOf(base, t)[k].data, row.data)
  {
    hide Explained;
    forall c ensures ValueOf(row.data, c) == ValueOf(RowsOf(base, t)[k].data, c) || ValueOf(row.data, c) == Null {
      assert SameAt(row.data, RowsOf(base, t)[k].data, c) || ValueOf(row.data, c) == Null;
    }
  }

  /** What matches now matched at the beginning. */
  lemma NulledBothMatch(lib: Library, child: Row, child': Row, key: ForeignKey, parent: Row, parent': Row)
    requires Nulled(child, child') && Nulled(parent, parent') && KeyMatches(lib, child', key, parent')
    ensures KeyMatches(lib, child, key, parent)
  {
    forall i | 0 <= i < |key.columns|
      ensures ValueOf(child', key.columns[i]) == ValueOf(child, key.columns[i])
              && ValueOf(parent', key.referencedColumns[i]) == ValueOf(parent, key.referencedColumns[i])
    {
    }
  }

  lemma MatchedAreKeyed(env: Env, base: Database, s: set<RowId>, ref: Reference, db: Database, parent: string, keys: set<string>, parents: TableRows, c: string)
    requires Reasoned(env, base, s, db) && ParentsWorn(base, parent, parents, s) && Refers(env.schemas, ref, parent)
    requires c in ChildrenOf(env.lib, ref, parent, keys, parents, RowsOf(db, ref.table))
    ensures c in RowsOf(db, ref.table) && exists r :: r in s && KeyTo(env, base, r, ref, c)
  {
    hide KeyMatches, EqIgnoreAsciiCase, Refers, WornRow, Nulled;
    var p :| p in parents && KeyMatches(env.lib, RowsOf(db, ref.table)[c].data, ref.key, parents[p].data);
    WornIsNulled(env, base, s, ref.table, c, RowsOf(db, ref.table)[c]);
    NulledBothMatch(env.lib, RowsOf(base, ref.table)[c].data, RowsOf(db, ref.table)[c].data, ref.key, RowsOf(base, parent)[p].data, parents[p].data);
    assert KeyTo(env, base, RowId(parent, p), ref, c);
  }

  lemma NulledRowIsWorn(env: Env, base: Database, s: set<RowId>, ref: Reference, k: string, row: StoredRow, r: RowId)
    requires k in RowsOf(base, ref.table) && WornRow(env, base, s, ref.table, k, row)
    requires r in s && KeyTo(env, base, r, ref, k) && ref.key.onDelete.SetNull?
    ensures WornRow(env, base, s, ref.table, k, row.(data := NullColumns(row.data, ref.key.columns)))
  {
    hide KeyTo;
    var before, data := RowsOf(base, ref.table)[k].data, NullColumns(row.data, ref.key.columns);
    forall x ensures ValueOf(data, x) == (if x in ref.key.columns then Null else ValueOf(row.data, x)) { NullingChangesOnly(row.data, ref.key.columns, x); }
    forall c ensures SameAt(data, before, c) || (ValueOf(data, c) == Null && Explained(env, base, s, ref.table, k, data, c)) {
      if c in ref.key.columns {
        assert Explained(env, base, s, ref.table, k, data, c);
      } else if !SameAt(row.data, before, c) {
        var q, other :| q in s && KeyTo(env, base, q, other, k) && other.table == ref.table && other.key.onDelete.SetNull? && c in other.key.columns
                        && forall x :: x in other.key.columns ==> ValueOf(row.data, x) == Null;
        assert Explained(env, base, s, ref.table, k, data, c);
      }
    }
  }

  lemma NullingIsReasoned(env: Env, base: Database, s: set<RowId>, ref: Reference, db: Database, matching: set<string>)
    requires Reasoned(env, base, s, db) && ref.key.onDelete.SetNull?
    requires forall c :: c in matching ==> c in RowsOf(db, ref.table) && exists r :: r in s && KeyTo(env, base, r, ref, c)
    ensures Reasoned(env, base, s, db[ref.table := NullRows(RowsOf(db, ref.table), matching, ref.key.columns)])
  {
    hide WornRow, KeyTo, NullColumns;
    var rows := RowsOf(db, ref.table);
    var db' := db[ref.table := NullRows(rows, matching, ref.key.columns)];
    forall t, k | k in RowsOf(db', t) ensures k in RowsOf(base, t) && WornRow(env, base, s, t, k, RowsOf(db', t)[k]) {
      if t == ref.table && k in matching {
        var r :| r in s && KeyTo(env, base, r, ref, k);
        NulledRowIsWorn(env, base, s, ref, k, rows[k], r);
      }
    }
  }

  lemma WriteBackIsReasoned(env: Env, base: Database, s: set<RowId>, db: Database, below: Database, table: string, unseen: set<string>)
    requires Reasoned(env, base, s, db) && Reasoned(env, base, s, below) && forall k :: k in unseen ==> RowId(table, k) in s
    ensures Reasoned(env, base, s, below[table := RowsOf(db, table) - unseen])
  {
    hide WornRow;
  }

  lemma {:induction false} ActionsAreReasoned(env: Env, base: Database, s: set<RowId>, db: Database, parent: string, keys: set<string>,
                                              visited: set<RowId>, universe: set<RowId>)
    requires ValidEnv(env) && Within(db, universe) && Closed(env, base, s)
    requires Reasoned(env, base, s, db) && Seeded(db, parent, keys, s)
    ensures AllReasoned(env, base, s, Actions(env, db, parent, keys, visited, universe), visited)
    decreases |universe - visited|, |keys|, 2, 0
  {
    hide Closed, Blamed, WornRow, Nulled;
    var parents := Chosen(RowsOf(db, parent), keys);
    if parents != map[] {
      var refs := References(env, parent);
      forall ref { ReferencesAre(env, parent, ref); }
      assert keys != {};
      forall p | p in parents ensures Nulled(RowsOf(base, parent)[p].data, parents[p].data) { WornIsNulled(env, base, s, parent, p, parents[p]); }
      EachIsReasoned(env, base, s, refs, db, parent, keys, parents, visited, universe);
    }
  }

  lemma {:induction false} EachIsReasoned(env: Env, base: Database, s: set<RowId>, refs: seq<Reference>, db: Database, parent: string,
                                          keys: set<string>, parents: TableRows, visited: set<RowId>, universe: set<RowId>)
    requires ValidEnv(env) && Within(db, universe) && Closed(env, base, s) && keys != {}
    requires Reasoned(env, base, s, db) && ParentsWorn(base, parent, parents, s)
    requires forall ref :: ref in refs ==> Refers(env.schemas, ref, parent)
    ensures AllReasoned(env, base, s, Each(env, refs, db, parent, keys, parents, visited, universe), visited)
    decreases |universe - visited|, |keys|, 1, |refs|
  {
    hide Closed, Blamed, One, Refers, ParentsWorn, Reasoned;
    if refs != [] {
      var o := One(env, refs[0], db, parent, keys, parents, visited, universe);
      OneIsReasoned(env, base, s, refs[0], db, parent, keys, parents, visited, universe);
      if o.error.None? {
        FewerUnvisited(universe, visited, o.visited);
        EachIsReasoned(env, base, s, refs[1..], o.db, parent, keys, parents, o.visited, universe);
      }
    }
  }

  lemma {:induction false} OneIsReasoned(env: Env, base: Database, s: set<RowId>, ref: Reference, db: Database, parent: string,
                                         keys: set<string>, parents: TableRows, visited: set<RowId>, universe: set<RowId>)
    requires ValidEnv(env) && Within(db, universe) && Closed(env, base, s) && keys != {}
    requires Reasoned(env, base, s, db) && ParentsWorn(base, parent, parents, s) && Refers(env.schemas, ref, parent)
    ensures AllReasoned(env, base, s, One(env, ref, db, parent, keys, parents, visited, universe), visited)
    decreases |universe - visited|, |keys|, 0, 1
  {
    var matching := ChildrenOf(env.lib, ref, parent, keys, parents, RowsOf(db, ref.table));
    OneElsewise(env, ref, db, parent, keys, parents, visited, universe);
    forall c | c in matching { MatchedAreKeyed(env, base, s, ref, db, parent, keys, parents, c); }
    hide ParentsWorn, Within, Reasoned, KeyTo, Refers, ChildrenOf, One, NullRows, Closed;
    if matching != {} && ref.key.onDelete.Cascade? {
      CascadeIsReasoned(env, base, s, ref, db, parent, keys, parents, visited, universe, matching);
    } else if matching != {} && ref.key.onDelete.SetNull? {
      NullingIsReasoned(env, base, s, ref, db, matching);
    } else if matching != {} {
      var c :| c in matching;
      var r :| r in s && KeyTo(env, base, r, ref, c);
      var error := if ref.key.onDelete.Restrict? then Restricted(ref.key.name) else UnsupportedAction;
      assert Forbids(ref.key, error);
      assert Blamed(env, base, s, error);
    }
  }

  lemma {:induction false} CascadeIsReasoned(env: Env, base: Database, s: set<RowId>, ref: Reference, db: Database, parent: string, keys: set<string>,
                                             parents: TableRows, visited: set<RowId>, universe: set<RowId>, matching: set<string>)
    requires ValidEnv(env) && Within(db, universe) && Closed(env, base, s) && keys != {} && Reasoned(env, base, s, db)
    requires matching == ChildrenOf(env.lib, ref, parent, keys, parents, RowsOf(db, ref.table)) && matching != {} && ref.key.onDelete.Cascade?
    requires forall c :: c in matching ==> exists r :: r in s && KeyTo(env, base, r, ref, c)
    ensures AllReasoned(env, base, s, One(env, ref, db, parent, keys, parents, visited, universe), visited)
    decreases |universe - visited|, |keys|, 0, 0
  {
    hide Within, Reasoned, KeyTo, ChildrenOf, One, Blamed;
    forall c | c in matching ensures RowId(ref.table, c) in s {}
    hide Closed;
    var unseen := set k | k in matching && RowId(ref.table, k) !in visited;
    var visited' := visited + RowIds(ref.table, unseen);
    OneCascadeUnseen(env, ref, db, parent, keys, parents, visited, universe, unseen);
    var below := Actions(env, db, ref.table, unseen, visited', universe);
    ActionsAreReasoned(env, base, s, db, ref.table, unseen, visited', universe);
    WriteBackIsReasoned(env, base, s, db, below.db, ref.table, unseen);
  }

  lemma NothingIsReasoned(env: Env, db: Database, s: set<RowId>)
    ensures Reasoned(env, db, s, db)
  {
    hide Explained;
  }

  /** On any graph, whether it succeeds or not: a DELETE removes only rows of any closed set around
      the selected rows, and nulls a column only together with all columns of a SET NULL key that
      leads to such a row. If it is stopped, it is by a RESTRICT key or an unknown action that leads
      there; so with CASCADE and SET NULL keys only, it succeeds. */
  lemma DeleteIsReasoned(env: Env, db: Database, table: string, keys: set<string>, s: set<RowId>)
    requires ValidEnv(env) && Seeded(db, table, keys, s) && Closed(env, db, s)
    ensures Reasoned(env, db, s, DeleteRows(env, db, table, keys).db)
    ensures var error := DeleteRows(env, db, table, keys).error; error.Some? ==> Blamed(env, db, s, error.value)
    ensures Unrestricted(env, db, s) ==> DeleteRows(env, db, table, keys).error.None?
  {
    NothingIsReasoned(env, db, s);
    hide Actions, Universe, Closed, Reasoned, Unrestricted, Seeded, Blamed;
    var o := Actions(env, db, table, keys, {}, Universe(db));
    ActionsAreReasoned(env, db, s, db, table, keys, {}, Universe(db));
    SelectedGo(env, db, s, o.db, table, keys);
    if o.error.Some? { BlamedIsRestricted(env, db, s, o.error.value); }
  }

  lemma BlamedIsRestricted(env: Env, base: Database, s: set<RowId>, error: Error)
    requires Blamed(env, base, s, error)
    ensures !Unrestricted(env, base, s)
  {
    hide KeyTo;
  }

  lemma SelectedGo(env: Env, db: Database, s: set<RowId>, below: Database, table: string, keys: set<string>)
    requires Reasoned(env, db, s, db) && Reasoned(env, db, s, below) && Seeded(db, table, keys, s)
    ensures Reasoned(env, db, s, below[table := RowsOf(db, table) - keys])
  {
    hide WornRow;
  }

  // ---------- acyclic graphs: nothing is left undone ----------

  /** No row that is left matches a row that is gone. */
  ghost predicate Gone(env: Env, base: Database, db: Database) {
    forall t, k, ref, c :: k in RowsOf(base, t) && k !in RowsOf(db, t) && Refers(env.schemas, ref, t) && c in RowsOf(db, ref.table)
      ==> !KeyMatches(env.lib, RowsOf(db, ref.table)[c].data, ref.key, RowsOf(base, t)[k].data)
  }

  /** Rows only disappear or have columns nulled, and referenced columns are as they were. */
  ghost predicate Faded(env: Env, base: Database, db: Database) {
    Shrunk(base, db)
    && forall t, k, ref, c :: k in RowsOf(db, t) && Refers(env.schemas, ref, t) && c in ref.key.referencedColumns
         ==> ValueOf(RowsOf(db, t)[k].data, c) == ValueOf(RowsOf(base, t)[k].data, c)
  }

  ghost predicate Thorough(env: Env, base: Database, db: Database) { Faded(env, base, db) && Gone(env, base, db) }

  lemma FewerMatches(lib: Library, child: Row, child': Row, key: ForeignKey, parent: Row, parent': Row)
    requires Nulled(child, child') && !KeyMatches(lib, child, key, parent)
    requires forall c :: c in key.referencedColumns ==> ValueOf(parent', c) == ValueOf(parent, c)
    ensures !KeyMatches(lib, child', key, parent')
  {
    if KeyMatches(lib, child', key, parent') {
      NulledMatchesLess(lib, child, child', key, parent');
      KeyMatchesByColumns(lib, child, child, key, parent', parent);
    }
  }

  /** Rows that nothing references are removed. */
  lemma RemovalIsThorough(env: Env, base: Database, db: Database, table: string, keys: set<string>)
    requires Thorough(env, base, db)
    requires forall ref :: Refers(env.schemas, ref, table) ==> Unreferenced(env.lib, db, ref, Chosen(RowsOf(db, table), keys))
    ensures Thorough(env, base, db[table := RowsOf(db, table) - keys])
  {
    hide KeyMatches, Refers, Nulled;
    var db' := db[table := RowsOf(db, table) - keys];
    forall t, k, ref, c | k in RowsOf(base, t) && k !in RowsOf(db', t) && Refers(env.schemas, ref, t) && c in RowsOf(db', ref.table)
      ensures !KeyMatches(env.lib, RowsOf(db', ref.table)[c].data, ref.key, RowsOf(base, t)[k].data)
    {
      var child := RowsOf(db, ref.table)[c].data;
      assert c in RowsOf(db, ref.table) && RowsOf(db', ref.table)[c].data == child;
      if k in RowsOf(db, t) {
        assert k in Chosen(RowsOf(db, table), keys) && !KeyMatches(env.lib, child, ref.key, RowsOf(db, t)[k].data);
        SameRow(child);
        FewerMatches(env.lib, child, child, ref.key, RowsOf(db, t)[k].data, RowsOf(base, t)[k].data);
      }
    }
  }

  lemma SameRow(data: Row)
    ensures Nulled(data, data)
  {
  }

  lemma NullingIsThorough(env: Env, base: Database, ref: Reference, db: Database, parent: string, matching: set<string>)
    requires Thorough(env, base, db) && NullsUnreferenced(env.schemas) && Refers(env.schemas, ref, parent) && ref.key.onDelete.SetNull?
    ensures Thorough(env, base, db[ref.table := NullRows(RowsOf(db, ref.table), matching, ref.key.columns)])
  {
    var rows := RowsOf(db, ref.table);
    var rows' := NullRows(rows, matching, ref.key.columns);
    var db' := db[ref.table := rows'];
    NullRowsShrink(db, ref.table, matching, ref.key.columns);
    ShrunkTransitive(base, db, db');
    forall r | Refers(env.schemas, r, ref.table) ensures forall c :: c in r.key.referencedColumns ==> c !in ref.key.columns {}
    hide KeyMatches, Refers, NullColumns, NullsUnreferenced;
    forall t, k, r, c | k in RowsOf(db', t) && Refers(env.schemas, r, t) && c in r.key.referencedColumns
      ensures ValueOf(RowsOf(db', t)[k].data, c) == ValueOf(RowsOf(base, t)[k].data, c)
    {
      assert k in RowsOf(db, t);
      if t == ref.table { NullingChangesOnly(rows[k].data, ref.key.columns, c); }
    }
    forall t, k, r, c | k in RowsOf(base, t) && k !in RowsOf(db', t) && Refers(env.schemas, r, t) && c in RowsOf(db', r.table)
      ensures !KeyMatches(env.lib, RowsOf(db', r.table)[c].data, r.key, RowsOf(base, t)[k].data)
    {
      assert Nulled(RowsOf(db, r.table)[c].data, RowsOf(db', r.table)[c].data);
      FewerMatches(env.lib, RowsOf(db, r.table)[c].data, RowsOf(db', r.table)[c].data, r.key, RowsOf(base, t)[k].data, RowsOf(base, t)[k].data);
    }
  }

  lemma {:induction false} ActionsAreThorough(env: Env, base: Database, db: Database, parent: string, keys: set<string>,
                                              visited: set<RowId>, universe: set<RowId>, rank: string -> nat)
    requires ValidEnv(env) && Ranked(env.schemas, rank) && NullsUnreferenced(env.schemas) && Within(db, universe)
    requires Settled(db, visited, rank, rank(parent)) && Thorough(env, base, db)
    ensures var o := Actions(env, db, parent, keys, visited, universe); o.error.None? ==> Thorough(env, base, o.db)
    decreases |universe - visited|, |keys|, 2, 0
  {
    hide Thorough, NullsUnreferenced;
    var parents := Chosen(RowsOf(db, parent), keys);
    if parents != map[] {
      var refs := References(env, parent);
      forall ref { ReferencesAre(env, parent, ref); }
      assert keys != {};
      EachIsThorough(env, base, refs, db, parent, keys, parents, visited, universe, rank);
    }
  }

  lemma {:induction false} EachIsThorough(env: Env, base: Database, refs: seq<Reference>, db: Database, parent: string, keys: set<string>,
                                          parents: TableRows, visited: set<RowId>, universe: set<RowId>, rank: string -> nat)
    requires ValidEnv(env) && Ranked(env.schemas, rank) && NullsUnreferenced(env.schemas) && Within(db, universe) && keys != {}
    requires Settled(db, visited, rank, rank(parent)) && Thorough(env, base, db)
    requires forall ref :: ref in refs ==> Refers(env.schemas, ref, parent)
    ensures var o := Each(env, refs, db, parent, keys, parents, visited, universe); o.error.None? ==> Thorough(env, base, o.db)
    decreases |universe - visited|, |keys|, 1, |refs|
  {
    hide Thorough, NullsUnreferenced, Refers, Ranked, One;
    if refs != [] {
      var o := One(env, refs[0], db, parent, keys, parents, visited, universe);
      OneIsThorough(env, base, refs[0], db, parent, keys, parents, visited, universe, rank);
      FrameOne(env, refs[0], db, parent, keys, parents, visited, universe, rank);
      if o.error.None? {
        FewerUnvisited(universe, visited, o.visited);
        EachIsThorough(env, base, refs[1..], o.db, parent, keys, parents, o.visited, universe, rank);
      }
    }
  }

  lemma {:induction false} OneIsThorough(env: Env, base: Database, ref: Reference, db: Database, parent: string, keys: set<string>,
                                         parents: TableRows, visited: set<RowId>, universe: set<RowId>, rank: string -> nat)
    requires ValidEnv(env) && Ranked(env.schemas, rank) && NullsUnreferenced(env.schemas) && Within(db, universe) && keys != {}
    requires Settled(db, visited, rank, rank(parent)) && Thorough(env, base, db) && Refers(env.schemas, ref, parent)
    ensures var o := One(env, ref, db, parent, keys, parents, visited, universe); o.error.None? ==> Thorough(env, base, o.db)
    decreases |universe - visited|, |keys|, 0, 0
  {
    RankGrows(env.schemas, ref, parent, rank);
    ChildrenExist(env.lib, ref, parent, keys, parents, RowsOf(db, ref.table));
    OneElsewise(env, ref, db, parent, keys, parents, visited, universe);
    hide Thorough, NullsUnreferenced, Refers, Ranked, One, ChildrenOf, Actions, Unreferenced, Within, NullRows;
    var matching := ChildrenOf(env.lib, ref, parent, keys, parents, RowsOf(db, ref.table));
    if matching != {} && ref.key.onDelete.Cascade? {
      forall k | k in matching ensures RowId(ref.table, k) !in visited {}
      OneCascade(env, ref, db, parent, keys, parents, visited, universe, matching);
      var visited' := visited + RowIds(ref.table, matching);
      var below := Actions(env, db, ref.table, matching, visited', universe);
      SettledAbove(db, visited, ref.table, matching, rank, rank(parent));
      FrameActions(env, db, ref.table, matching, visited', universe, rank);
      ActionsAreThorough(env, base, db, ref.table, matching, visited', universe, rank);
      if below.error.None? {
        assert RowsOf(below.db, ref.table) == RowsOf(db, ref.table);
        RemovalIsThorough(env, base, below.db, ref.table, matching);
      }
    } else if matching != {} && ref.key.onDelete.SetNull? {
      NullingIsThorough(env, base, ref, db, parent, matching);
    }
  }

  lemma NothingIsThorough(env: Env, db: Database)
    ensures Thorough(env, db, db)
  {
    ShrunkRefl(db);
  }

  /** On an acyclic graph in which no nulled column is referenced, after a DELETE that succeeds no row
      left matches a row gone. */
  lemma DeleteIsThorough(env: Env, db: Database, table: string, keys: set<string>, rank: string -> nat)
    requires ValidEnv(env) && Ranked(env.schemas, rank) && NullsUnreferenced(env.schemas)
    requires DeleteRows(env, db, table, keys).error.None?
    ensures Thorough(env, db, DeleteRows(env, db, table, keys).db)
    ensures forall k :: k in keys ==> k !in RowsOf(DeleteRows(env, db, table, keys).db, table)
  {
    NothingIsThorough(env, db);
    hide Thorough, NullsUnreferenced, Ranked, Actions, Universe;
    if keys != {} {
      var o := Actions(env, db, table, keys, {}, Universe(db));
      FrameActions(env, db, table, keys, {}, Universe(db), rank);
      ActionsAreThorough(env, db, db, table, keys, {}, Universe(db), rank);
      assert RowsOf(o.db, table) == RowsOf(db, table);
      RemovalIsThorough(env, db, o.db, table, keys);
    }
  }

  /** The key shares no column with a SET NULL key of its table. */
  ghost predicate OwnColumns(schemas: Schemas, ref: Reference) {
    forall key :: ref.table in schemas && key in schemas[ref.table].foreignKeys && key.onDelete.SetNull? && key != ref.key ==>
      forall c :: c in ref.key.columns ==> c !in key.columns
  }

  lemma LeftRowWasNulled(env: Env, db: Database, s: set<RowId>, db': Database, r: RowId, ref: Reference, c: string)
    requires Reasoned(env, db, s, db') && Thorough(env, db, db') && OwnColumns(env.schemas, ref)
    requires KeyTo(env, db, r, ref, c) && r.key !in RowsOf(db', r.table) && c in RowsOf(db', ref.table)
    ensures ref.key.onDelete.SetNull? && forall x :: x in ref.key.columns ==> ValueOf(RowsOf(db', ref.table)[c].data, x) == Null
  {
    var before, after := RowsOf(db, ref.table)[c].data, RowsOf(db', ref.table)[c].data;
    var parent := RowsOf(db, r.table)[r.key].data;
    assert !KeyMatches(env.lib, after, ref.key, parent);
    if forall x :: x in ref.key.columns ==> SameAt(after, before, x) {
      KeyMatchesByColumns(env.lib, before, after, ref.key, parent, parent);
    }
    var x :| x in ref.key.columns && !SameAt(after, before, x);
    assert WornRow(env, db, s, ref.table, c, RowsOf(db', ref.table)[c]);
    hide KeyMatches, Refers;
    var q, other :| q in s && KeyTo(env, db, q, other, c) && other.table == ref.table && other.key.onDelete.SetNull? && x in other.key.columns
                    && forall y :: y in other.key.columns ==> ValueOf(after, y) == Null;
    KeyIsDeclared(env, db, q, other, c);
    assert other.key == ref.key;
  }

  lemma KeyIsDeclared(env: Env, db: Database, r: RowId, ref: Reference, c: string)
    requires KeyTo(env, db, r, ref, c)
    ensures ref.table in env.schemas && ref.key in env.schemas[ref.table].foreignKeys
  {
  }

  /** A DELETE that succeeds, on an acyclic graph in which no nulled column is referenced and no
      column belongs to a SET NULL key and another key: it removes exactly the least closed set
      around the selected rows; of the rows left, those with a SET NULL key on a row of the set have
      all columns of that key null, and every other column is as it was. */
  lemma DeleteRemovesAndNulls(env: Env, db: Database, table: string, keys: set<string>, rank: string -> nat)
    requires ValidEnv(env) && Ranked(env.schemas, rank) && NullsUnreferenced(env.schemas) && (forall ref, t :: Refers(env.schemas, ref, t) ==> OwnColumns(env.schemas, ref))
    requires DeleteRows(env, db, table, keys).error.None?
    ensures var db' := DeleteRows(env, db, table, keys).db;
            var s := Removed(db, db');
            && LeastClosed(env, db, table, keys, s) && Reasoned(env, db, s, db')
            && forall r, ref, c :: r in s && KeyTo(env, db, r, ref, c) && c in RowsOf(db', ref.table) ==>
                 ref.key.onDelete.SetNull? && forall x :: x in ref.key.columns ==> ValueOf(RowsOf(db', ref.table)[c].data, x) == Null
  {
    var db' := DeleteRows(env, db, table, keys).db;
    var s := Removed(db, db');
    DeleteIsThorough(env, db, table, keys, rank);
    AllRowsAreClosed(env, db);
    forall r { InUniverse(db, r); }
    hide DeleteRows, Universe, NullsUnreferenced, Ranked, Closed, Thorough, Reasoned, OwnColumns, KeyTo;
    assert Seeded(db, table, keys, Universe(db)) && Seeded(db, table, keys, s);
    DeleteIsReasoned(env, db, table, keys, Universe(db));
    LeftoversClose(env, db, db', s);
    DeleteIsReasoned(env, db, table, keys, s);
    forall s' | Seeded(db, table, keys, s') && Closed(env, db, s') ensures s <= s' {
      DeleteIsReasoned(env, db, table, keys, s');
      RemovedAreIn(env, db, s', db');
    }
    forall r, ref, c | r in s && KeyTo(env, db, r, ref, c) && c in RowsOf(db', ref.table)
      ensures ref.key.onDelete.SetNull? && forall x :: x in ref.key.columns ==> ValueOf(RowsOf(db', ref.table)[c].data, x) == Null
    {
      KeyRefers(env, db, r, ref, c);
      LeftRowWasNulled(env, db, s, db', r, ref, c);
    }
  }

  lemma KeyRefers(env: Env, db: Database, r: RowId, ref: Reference, c: string)
    requires KeyTo(env, db, r, ref, c)
    ensures Refers(env.schemas, ref, r.table) && c in RowsOf(db, ref.table)
  {
  }

  lemma RemovedAreIn(env: Env, db: Database, s: set<RowId>, db': Database)
    requires Reasoned(env, db, s, db')
    ensures Removed(db, db') <= s
  {
    forall r { InUniverse(db, r); }
    hide Universe, WornRow;
  }

  /** The rows gone are a closed set. */
  lemma LeftoversClose(env: Env, db: Database, db': Database, s: set<RowId>)
    requires Reasoned(env, db, Universe(db), db') && Thorough(env, db, db') && (forall ref, t :: Refers(env.schemas, ref, t) ==> OwnColumns(env.schemas, ref))
    requires s == Removed(db, db')
    ensures Closed(env, db, s)
  {
    forall r { InUniverse(db, r); }
    hide Universe, Reasoned, Thorough, KeyTo, OwnColumns;
    forall r, ref, c | r in s && KeyTo(env, db, r, ref, c) && ref.key.onDelete.Cascade? ensures RowId(ref.table, c) in s {
      KeyRefers(env, db, r, ref, c);
      if c in RowsOf(db', ref.table) { LeftRowWasNulled(env, db, Universe(db), db', r, ref, c); }
    }
  }
}
