/** Which rows a cascading DELETE visits, on any graph of foreign keys: the least closed set, in
    whatever order keys are met. */
module DeleteClosure {
  import opened Wrappers
  import opened Json
  import opened Catalog
  import opened ForeignKeys
  import opened DeleteIntegrity

  ghost predicate NoSetNull(schemas: Schemas) {
    forall t, key :: t in schemas && key in schemas[t].foreignKeys ==> !key.onDelete.SetNull?
  }

  /** A table that references a name which is its own but for the case references itself. */
  ghost predicate NamesApart(schemas: Schemas, table: string) {
    forall ref, t :: Refers(schemas, ref, t) && Known(schemas, table, t) && EqIgnoreAsciiCase(ref.table, t) ==> ref.table == t
  }

  predicate Known(schemas: Schemas, table: string, t: string) { t in schemas || t == table }

  /** `db'` has some of the rows of `db`, unchanged. */
  ghost predicate Sub(db: Database, db': Database) {
    forall t, k :: k in RowsOf(db', t) ==> k in RowsOf(db, t) && RowsOf(db', t)[k] == RowsOf(db, t)[k]
  }

  ghost predicate Seeded(db: Database, table: string, keys: set<string>, s: set<RowId>) {
    forall k :: k in keys && k in RowsOf(db, table) ==> RowId(table, k) in s
  }

  /** Row `c` of the declaring table has a key that matches the row `r`. */
  ghost predicate KeyTo(env: Env, db: Database, r: RowId, ref: Reference, c: string) {
    && r.key in RowsOf(db, r.table) && c in RowsOf(db, ref.table) && Refers(env.schemas, ref, r.table)
    && KeyMatches(env.lib, RowsOf(db, ref.table)[c].data, ref.key, RowsOf(db, r.table)[r.key].data)
  }

  /** With a row, `s` contains every row that has a CASCADE key matching it. */
  ghost predicate Closed(env: Env, db: Database, s: set<RowId>) {
    forall r, ref, c :: r in s && KeyTo(env, db, r, ref, c) && ref.key.onDelete.Cascade? ==> RowId(ref.table, c) in s
  }

  /** Only CASCADE keys match rows of `s`. */
  ghost predicate OnlyCascades(env: Env, db: Database, s: set<RowId>) {
    forall r, ref, c :: r in s && KeyTo(env, db, r, ref, c) ==> ref.key.onDelete.Cascade?
  }

  /** Every row that is in `db` but not in `db'` is in `s`. */
  ghost predicate RemovedWithin(db: Database, db': Database, s: set<RowId>) {
    forall t, k :: k in RowsOf(db, t) && k !in RowsOf(db', t) ==> RowId(t, k) in s
  }

  lemma SubTransitive(a: Database, b: Database, c: Database)
    requires Sub(a, b) && Sub(b, c)
    ensures Sub(a, c)
  {
  }

  lemma RemovedTransitive(a: Database, b: Database, c: Database, s: set<RowId>)
    requires Sub(a, b) && RemovedWithin(a, b, s) && RemovedWithin(b, c, s)
    ensures RemovedWithin(a, c, s)
  {
  }

  // ---------- nothing outside a closed set is visited or removed ----------

  ghost predicate Sound(db: Database, o: Outcome, visited: set<RowId>, s: set<RowId>) {
    Sub(db, o.db) && RemovedWithin(db, o.db, s) && forall v :: v in o.visited && v !in visited ==> v in s
  }

  /** And if only CASCADE keys match rows of the set, nothing stops the actions. */
  lemma {:induction false} ActionsAreSound(env: Env, base: Database, s: set<RowId>, db: Database, parent: string,
                                           keys: set<string>, visited: set<RowId>, universe: set<RowId>)
    requires ValidEnv(env) && NoSetNull(env.schemas) && Within(db, universe)
    requires Sub(base, db) && Closed(env, base, s) && Seeded(db, parent, keys, s)
    ensures var o := Actions(env, db, parent, keys, visited, universe);
            Sound(db, o, visited, s) && (OnlyCascades(env, base, s) ==> o.error.None?)
    decreases |universe - visited|, |keys|, 2, 0
  {
    hide Closed, NoSetNull, OnlyCascades;
    var parents := Chosen(RowsOf(db, parent), keys);
    if parents != map[] {
      var refs := References(env, parent);
      forall ref { ReferencesAre(env, parent, ref); }
      assert keys != {};
      EachIsSound(env, base, s, refs, db, parent, keys, parents, visited, universe);
    }
  }

  lemma SoundThen(db: Database, o: Outcome, visited: set<RowId>, rest: Outcome, s: set<RowId>)
    requires Sound(db, o, visited, s) && Sound(o.db, rest, o.visited, s)
    ensures Sound(db, rest, visited, s) && Sound(db, rest.(writes := o.writes + rest.writes), visited, s)
  {
    SubTransitive(db, o.db, rest.db);
    RemovedTransitive(db, o.db, rest.db, s);
    hide Sub, RemovedWithin;
  }

  lemma {:induction false} EachIsSound(env: Env, base: Database, s: set<RowId>, refs: seq<Reference>, db: Database, parent: string,
                                       keys: set<string>, parents: TableRows, visited: set<RowId>, universe: set<RowId>)
    requires ValidEnv(env) && NoSetNull(env.schemas) && Within(db, universe) && keys != {}
    requires Sub(base, db) && Closed(env, base, s) && ParentsIn(base, parent, parents, s)
    requires forall ref :: ref in refs ==> Refers(env.schemas, ref, parent)
    ensures var o := Each(env, refs, db, parent, keys, parents, visited, universe);
            Sound(db, o, visited, s) && (OnlyCascades(env, base, s) ==> o.error.None?)
    decreases |universe - visited|, |keys|, 1, |refs|
  {
    hide Closed, NoSetNull, OnlyCascades, One, Refers, ParentsIn;
    NothingIsSound(db, visited, s);
    if refs != [] {
      var o := One(env, refs[0], db, parent, keys, parents, visited, universe);
      OneIsSound(env, base, s, refs[0], db, parent, keys, parents, visited, universe);
      hide Sub, RemovedWithin;
      if o.error.None? {
        FewerUnvisited(universe, visited, o.visited);
        var rest := Each(env, refs[1..], o.db, parent, keys, parents, o.visited, universe);
        SubTransitive(base, db, o.db);
        EachIsSound(env, base, s, refs[1..], o.db, parent, keys, parents, o.visited, universe);
        SoundThen(db, o, visited, rest, s);
      }
    }
  }

  /** The parent rows are rows of the base state and in `s`. */
  ghost predicate ParentsIn(base: Database, parent: string, parents: TableRows, s: set<RowId>) {
    forall p :: p in parents ==> p in RowsOf(base, parent) && parents[p] == RowsOf(base, parent)[p] && RowId(parent, p) in s
  }

  /** The rows an action finds match a parent row in the base state. */
  lemma MatchingAreKeyed(env: Env, base: Database, s: set<RowId>, ref: Reference, db: Database, parent: string, keys: set<string>, parents: TableRows)
    requires Sub(base, db) && ParentsIn(base, parent, parents, s) && Refers(env.schemas, ref, parent)
    ensures forall c :: c in ChildrenOf(env.lib, ref, parent, keys, parents, RowsOf(db, ref.table)) ==>
              c in RowsOf(db, ref.table) && exists r :: r in s && KeyTo(env, base, r, ref, c)
  {
    hide KeyMatches, EqIgnoreAsciiCase, Refers;
    forall c | c in ChildrenOf(env.lib, ref, parent, keys, parents, RowsOf(db, ref.table)) ensures exists r :: r in s && KeyTo(env, base, r, ref, c) {
      var p :| p in parents && KeyMatches(env.lib, RowsOf(db, ref.table)[c].data, ref.key, parents[p].data);
      assert KeyTo(env, base, RowId(parent, p), ref, c);
    }
  }

  lemma {:induction false} OneIsSound(env: Env, base: Database, s: set<RowId>, ref: Reference, db: Database, parent: string,
                                      keys: set<string>, parents: TableRows, visited: set<RowId>, universe: set<RowId>)
    requires ValidEnv(env) && NoSetNull(env.schemas) && Within(db, universe) && keys != {}
    requires Sub(base, db) && Closed(env, base, s) && ParentsIn(base, parent, parents, s)
    requires Refers(env.schemas, ref, parent)
    ensures var o := One(env, ref, db, parent, keys, parents, visited, universe);
            Sound(db, o, visited, s) && (OnlyCascades(env, base, s) ==> o.error.None?)
    decreases |universe - visited|, |keys|, 0, 0
  {
    assert !ref.key.onDelete.SetNull?;
    var children := RowsOf(db, ref.table);
    var matching := ChildrenOf(env.lib, ref, parent, keys, parents, children);
    OneElsewise(env, ref, db, parent, keys, parents, visited, universe);
    MatchingAreKeyed(env, base, s, ref, db, parent, keys, parents);
    hide ParentsIn, Within, Sub, RemovedWithin, KeyTo, Refers, ChildrenOf, One, NoSetNull;
    if matching != {} && ref.key.onDelete.Cascade? {
      forall c | c in matching ensures RowId(ref.table, c) in s {}
      hide Closed, OnlyCascades;
      var unseen := set k | k in matching && RowId(ref.table, k) !in visited;
      var visited' := visited + RowIds(ref.table, unseen);
      OneCascadeUnseen(env, ref, db, parent, keys, parents, visited, universe, unseen);
      var below := Actions(env, db, ref.table, unseen, visited', universe);
      ActionsAreSound(env, base, s, db, ref.table, unseen, visited', universe);
      WriteBackIsSound(db, below, visited, s, ref.table, unseen);
    } else {
      NothingIsSound(db, visited, s);
    }
  }

  lemma NothingIsSound(db: Database, visited: set<RowId>, s: set<RowId>)
    ensures Sub(db, db) && RemovedWithin(db, db, s)
  {
  }

  /** Writing back the snapshot of a table without some rows of the set. */
  lemma WriteBackIsSound(db: Database, below: Outcome, visited: set<RowId>, s: set<RowId>, table: string, unseen: set<string>)
    requires Sound(db, below, visited + RowIds(table, unseen), s) && Seeded(db, table, unseen, s) && unseen <= RowsOf(db, table).Keys
    ensures var db' := below.db[table := RowsOf(db, table) - unseen];
            Sound(db, below, visited, s) && Sound(db, Outcome(db', below.visited, None, below.writes + [db']), visited, s)
  {
  }

  lemma InUniverse(db: Database, r: RowId)
    ensures r in Universe(db) <==> r.key in RowsOf(db, r.table)
  {
  }

  lemma AllRowsAreClosed(env: Env, db: Database)
    ensures Closed(env, db, Universe(db)) && Sub(db, db)
  {
    forall r { InUniverse(db, r); }
    hide Universe, KeyMatches, Refers;
  }

  /** Without SET NULL the actions only remove rows. */
  lemma {:induction false} ActionsOnlyRemove(env: Env, db: Database, parent: string, keys: set<string>, visited: set<RowId>, universe: set<RowId>)
    requires ValidEnv(env) && NoSetNull(env.schemas) && Within(db, universe)
    ensures Sub(db, Actions(env, db, parent, keys, visited, universe).db)
  {
    forall r { InUniverse(db, r); }
    hide Universe, Closed, NoSetNull, Actions;
    AllRowsAreClosed(env, db);
    ActionsAreSound(env, db, Universe(db), db, parent, keys, visited, universe);
  }

  // ---------- everything that references a visited row is visited ----------

  /** Every row with a key on a row of `rows` is in `s`. */
  ghost predicate Swept(env: Env, base: Database, rows: set<RowId>, s: set<RowId>) {
    forall r, ref, c :: r in rows && KeyTo(env, base, r, ref, c) ==> RowId(ref.table, c) in s
  }

  ghost predicate SweptThrough(env: Env, base: Database, parent: string, parents: TableRows, ref: Reference, s: set<RowId>) {
    forall p, c :: p in parents && KeyTo(env, base, RowId(parent, p), ref, c) ==> RowId(ref.table, c) in s
  }

  ghost predicate Sweeps(env: Env, base: Database, o: Outcome, visited: set<RowId>) {
    Sub(base, o.db) && RemovedWithin(base, o.db, o.visited) && Swept(env, base, o.visited - visited, o.visited)
  }

  lemma {:induction false} ActionsSweep(env: Env, table: string, base: Database, db: Database, parent: string, keys: set<string>,
                                        visited: set<RowId>, universe: set<RowId>)
    requires ValidEnv(env) && NoSetNull(env.schemas) && NamesApart(env.schemas, table) && Known(env.schemas, table, parent) && Within(db, universe)
    requires Sub(base, db) && RemovedWithin(base, db, visited)
    ensures var o := Actions(env, db, parent, keys, visited, universe);
            o.error.None? ==>
              Sweeps(env, base, o, visited) && Swept(env, base, RowIds(parent, Chosen(RowsOf(db, parent), keys).Keys), o.visited + RowIds(parent, keys))
    decreases |universe - visited|, |keys|, 2, 0
  {
    var parents := Chosen(RowsOf(db, parent), keys);
    if parents != map[] {
      var refs := References(env, parent);
      forall ref { ReferencesAre(env, parent, ref); }
      assert keys != {};
      hide NoSetNull, NamesApart;
      EachSweeps(env, table, base, refs, db, parent, keys, parents, visited, universe);
      var o := Each(env, refs, db, parent, keys, parents, visited, universe);
      if o.error.None? { ThroughAll(env, base, parent, keys, parents, refs, o.visited + RowIds(parent, keys)); }
    }
  }

  lemma ThroughAll(env: Env, base: Database, parent: string, keys: set<string>, parents: TableRows, refs: seq<Reference>, s: set<RowId>)
    requires forall ref :: ref in refs <==> Refers(env.schemas, ref, parent)
    requires forall ref :: ref in refs ==> SweptThrough(env, base, parent, parents, ref, s)
    ensures Swept(env, base, RowIds(parent, parents.Keys), s)
  {
    hide KeyMatches, Refers;
  }

  lemma SweepsThen(env: Env, base: Database, o: Outcome, visited: set<RowId>, rest: Outcome)
    requires Swept(env, base, o.visited - visited, o.visited) && Sweeps(env, base, rest, o.visited) && o.visited <= rest.visited
    ensures Sweeps(env, base, rest, visited) && Sweeps(env, base, rest.(writes := o.writes + rest.writes), visited)
  {
    hide Sub, RemovedWithin, KeyTo;
  }

  lemma ThroughMore(env: Env, base: Database, parent: string, parents: TableRows, ref: Reference, s: set<RowId>, s': set<RowId>)
    requires SweptThrough(env, base, parent, parents, ref, s) && s <= s'
    ensures SweptThrough(env, base, parent, parents, ref, s')
  {
    hide KeyTo;
  }

  lemma {:induction false} EachSweeps(env: Env, table: string, base: Database, refs: seq<Reference>, db: Database, parent: string, keys: set<string>,
                                      parents: TableRows, visited: set<RowId>, universe: set<RowId>)
    requires ValidEnv(env) && NoSetNull(env.schemas) && NamesApart(env.schemas, table) && Known(env.schemas, table, parent) && Within(db, universe) && keys != {}
    requires Sub(base, db) && RemovedWithin(base, db, visited)
    requires forall p :: p in parents ==> p in RowsOf(base, parent) && parents[p] == RowsOf(base, parent)[p]
    requires forall ref :: ref in refs ==> Refers(env.schemas, ref, parent)
    ensures var o := Each(env, refs, db, parent, keys, parents, visited, universe);
            o.error.None? ==>
              Sweeps(env, base, o, visited) && forall ref :: ref in refs ==> SweptThrough(env, base, parent, parents, ref, o.visited + RowIds(parent, keys))
    decreases |universe - visited|, |keys|, 1, |refs|
  {
    hide NoSetNull, NamesApart, One, Refers, SweptThrough, Sub, RemovedWithin;
    if refs != [] {
      var o := One(env, refs[0], db, parent, keys, parents, visited, universe);
      OneSweeps(env, table, base, refs[0], db, parent, keys, parents, visited, universe);
      if o.error.None? {
        FewerUnvisited(universe, visited, o.visited);
        var rest := Each(env, refs[1..], o.db, parent, keys, parents, o.visited, universe);
        EachSweeps(env, table, base, refs[1..], o.db, parent, keys, parents, o.visited, universe);
        if rest.error.None? {
          SweepsThen(env, base, o, visited, rest);
          ThroughMore(env, base, parent, parents, refs[0], o.visited + RowIds(parent, keys), rest.visited + RowIds(parent, keys));
          assert refs == [refs[0]] + refs[1..];
        }
      }
    }
  }

  /** A row with a key on a parent row is found, or is being deleted itself, or is gone. */
  lemma MatchedOrGone(env: Env, table: string, base: Database, ref: Reference, db: Database, parent: string, keys: set<string>, parents: TableRows,
                      visited: set<RowId>)
    requires NamesApart(env.schemas, table) && Known(env.schemas, table, parent) && Refers(env.schemas, ref, parent)
    requires Sub(base, db) && RemovedWithin(base, db, visited)
    requires forall p :: p in parents ==> p in RowsOf(base, parent) && parents[p] == RowsOf(base, parent)[p]
    ensures SweptThrough(env, base, parent, parents, ref,
                         visited + RowIds(parent, keys) + RowIds(ref.table, ChildrenOf(env.lib, ref, parent, keys, parents, RowsOf(db, ref.table))))
  {
    hide KeyMatches, EqIgnoreAsciiCase;
    var matching := ChildrenOf(env.lib, ref, parent, keys, parents, RowsOf(db, ref.table));
    forall p, c | p in parents && KeyTo(env, base, RowId(parent, p), ref, c)
      ensures RowId(ref.table, c) in visited + RowIds(parent, keys) + RowIds(ref.table, matching)
    {
      if c in RowsOf(db, ref.table) {
        assert KeyMatches(env.lib, RowsOf(db, ref.table)[c].data, ref.key, parents[p].data);
        if EqIgnoreAsciiCase(ref.table, parent) && c in keys {
          assert ref.table == parent;
        } else {
          assert c in matching;
        }
      }
    }
  }

  lemma {:induction false} OneSweeps(env: Env, table: string, base: Database, ref: Reference, db: Database, parent: string, keys: set<string>,
                                     parents: TableRows, visited: set<RowId>, universe: set<RowId>)
    requires ValidEnv(env) && NoSetNull(env.schemas) && NamesApart(env.schemas, table) && Known(env.schemas, table, parent) && Within(db, universe) && keys != {}
    requires Sub(base, db) && RemovedWithin(base, db, visited) && Refers(env.schemas, ref, parent)
    requires forall p :: p in parents ==> p in RowsOf(base, parent) && parents[p] == RowsOf(base, parent)[p]
    ensures var o := One(env, ref, db, parent, keys, parents, visited, universe);
            o.error.None? ==> Sweeps(env, base, o, visited) && SweptThrough(env, base, parent, parents, ref, o.visited + RowIds(parent, keys))
    decreases |universe - visited|, |keys|, 0, 1
  {
    assert !ref.key.onDelete.SetNull?;
    var matching := ChildrenOf(env.lib, ref, parent, keys, parents, RowsOf(db, ref.table));
    OneElsewise(env, ref, db, parent, keys, parents, visited, universe);
    MatchedOrGone(env, table, base, ref, db, parent, keys, parents, visited);
    NothingSweeps(env, base, db, visited);
    hide Within, Sub, RemovedWithin, Refers, ChildrenOf, One, NoSetNull, NamesApart, SweptThrough, Sweeps;
    if matching == {} {
      ThroughMore(env, base, parent, parents, ref, visited + RowIds(parent, keys) + RowIds(ref.table, matching), visited + RowIds(parent, keys));
    } else if ref.key.onDelete.Cascade? {
      CascadeSweeps(env, table, base, ref, db, parent, keys, parents, visited, universe, matching);
    }
  }

  lemma {:induction false} CascadeSweeps(env: Env, table: string, base: Database, ref: Reference, db: Database, parent: string, keys: set<string>,
                                         parents: TableRows, visited: set<RowId>, universe: set<RowId>, matching: set<string>)
    requires ValidEnv(env) && NoSetNull(env.schemas) && NamesApart(env.schemas, table) && Within(db, universe) && keys != {}
    requires Sub(base, db) && RemovedWithin(base, db, visited) && ref.key.onDelete.Cascade? && ref.table in env.schemas
    requires matching == ChildrenOf(env.lib, ref, parent, keys, parents, RowsOf(db, ref.table)) && matching != {}
    requires SweptThrough(env, base, parent, parents, ref, visited + RowIds(parent, keys) + RowIds(ref.table, matching))
    ensures var o := One(env, ref, db, parent, keys, parents, visited, universe);
            o.error.None? ==> Sweeps(env, base, o, visited) && SweptThrough(env, base, parent, parents, ref, o.visited + RowIds(parent, keys))
    decreases |universe - visited|, |keys|, 0, 0
  {
    ChildrenExist(env.lib, ref, parent, keys, parents, RowsOf(db, ref.table));
    hide Within, Sub, RemovedWithin, ChildrenOf, One, NoSetNull, NamesApart, Actions, SweptThrough, Sweeps, Swept;
    var unseen := set k | k in matching && RowId(ref.table, k) !in visited;
    var visited' := visited + RowIds(ref.table, unseen);
    OneCascadeUnseen(env, ref, db, parent, keys, parents, visited, universe, unseen);
    var below := Actions(env, db, ref.table, unseen, visited', universe);
    RemovedWithinMore(base, db, visited, visited');
    ActionsSweep(env, table, base, db, ref.table, unseen, visited', universe);
    if below.error.None? {
      assert Chosen(RowsOf(db, ref.table), unseen).Keys == unseen;
      WriteBackSweeps(env, base, db, below, visited, ref.table, unseen);
      var found := visited + RowIds(parent, keys) + RowIds(ref.table, matching);
      assert found <= below.visited + RowIds(parent, keys);
      ThroughMore(env, base, parent, parents, ref, found, below.visited + RowIds(parent, keys));
    }
  }

  lemma NothingSweeps(env: Env, base: Database, db: Database, visited: set<RowId>)
    requires Sub(base, db) && RemovedWithin(base, db, visited)
    ensures Sweeps(env, base, Outcome(db, visited, None, []), visited)
  {
  }

  lemma RemovedWithinMore(base: Database, db: Database, s: set<RowId>, s': set<RowId>)
    requires RemovedWithin(base, db, s) && s <= s'
    ensures RemovedWithin(base, db, s')
  {
  }

  lemma WriteBackSweeps(env: Env, base: Database, db: Database, below: Outcome, visited: set<RowId>, table: string, unseen: set<string>)
    requires Sub(base, db) && RemovedWithin(base, db, visited)
    requires visited + RowIds(table, unseen) <= below.visited && Sweeps(env, base, below, visited + RowIds(table, unseen))
    requires Swept(env, base, RowIds(table, unseen), below.visited + RowIds(table, unseen))
    ensures var db' := below.db[table := RowsOf(db, table) - unseen];
            Sweeps(env, base, Outcome(db', below.visited, None, below.writes + [db']), visited)
  {
    hide KeyTo;
  }

  // ---------- the statement ----------

  ghost predicate LeastClosed(env: Env, db: Database, table: string, keys: set<string>, s: set<RowId>) {
    && Seeded(db, table, keys, s) && Closed(env, db, s)
    && forall s' :: Seeded(db, table, keys, s') && Closed(env, db, s') ==> s <= s'
  }

  ghost predicate GoodGraph(env: Env, table: string) { ValidEnv(env) && NoSetNull(env.schemas) && NamesApart(env.schemas, table) }

  lemma {:induction false} DeleteActs(env: Env, db: Database, table: string, keys: set<string>)
    ensures var o := Actions(env, db, table, keys, {}, Universe(db));
            var d := DeleteRows(env, db, table, keys);
            d.error == o.error && d.visited == o.visited
            && (o.error.None? ==> forall t :: RowsOf(d.db, t) == if t == table then RowsOf(db, table) - keys else RowsOf(o.db, t))
  {
    hide Each, Universe;
    if keys == {} { assert RowsOf(db, table) - keys == RowsOf(db, table); }
  }

  /** The selected rows and those the actions visit. */
  ghost function Visited(env: Env, db: Database, table: string, keys: set<string>): set<RowId> {
    RowIds(table, Chosen(RowsOf(db, table), keys).Keys) + DeleteRows(env, db, table, keys).visited
  }

  lemma SelectedOrSwept(env: Env, db: Database, table: string, keys: set<string>, visited: set<RowId>)
    requires Swept(env, db, visited - {}, visited)
    requires Swept(env, db, RowIds(table, Chosen(RowsOf(db, table), keys).Keys), visited + RowIds(table, keys))
    ensures var s := RowIds(table, Chosen(RowsOf(db, table), keys).Keys) + visited; Swept(env, db, s, s)
  {
    var s := RowIds(table, Chosen(RowsOf(db, table), keys).Keys) + visited;
    forall r, ref, c | r in s && KeyTo(env, db, r, ref, c) ensures RowId(ref.table, c) in s {
      assert r in visited ==> r in visited - {};
      assert c in RowsOf(db, ref.table);
    }
  }

  lemma SweptIsClosed(env: Env, db: Database, s: set<RowId>)
    requires Swept(env, db, s, s)
    ensures Closed(env, db, s)
  {
    hide KeyTo;
  }

  /** On any graph with CASCADE and RESTRICT only, a successful DELETE visits exactly the least
      closed set that contains the selected rows, and nothing outside it references it. */
  lemma DeleteVisitsLeastClosedSet(env: Env, db: Database, table: string, keys: set<string>)
    requires GoodGraph(env, table) && DeleteRows(env, db, table, keys).error.None?
    ensures var s := Visited(env, db, table, keys); LeastClosed(env, db, table, keys, s) && Swept(env, db, s, s)
  {
    DeleteActs(env, db, table, keys);
    hide Actions, Universe, Sub, RemovedWithin, KeyTo, NoSetNull, NamesApart, DeleteRows, Closed;
    var o := Actions(env, db, table, keys, {}, Universe(db));
    var chosen := Chosen(RowsOf(db, table), keys).Keys;
    var s := RowIds(table, chosen) + o.visited;
    NothingIsSound(db, {}, {});
    ActionsSweep(env, table, db, db, table, keys, {}, Universe(db));
    SelectedOrSwept(env, db, table, keys, o.visited);
    SweptIsClosed(env, db, s);
    forall s' | Seeded(db, table, keys, s') && Closed(env, db, s') ensures s <= s' {
      ActionsAreSound(env, db, s', db, table, keys, {}, Universe(db));
    }
  }

  lemma VisitedExist(env: Env, db: Database, table: string, keys: set<string>)
    requires LeastClosed(env, db, table, keys, Visited(env, db, table, keys))
    ensures Visited(env, db, table, keys) <= Universe(db)
  {
    forall r { InUniverse(db, r); }
    AllRowsAreClosed(env, db);
    hide Universe, Closed, DeleteRows;
    assert Seeded(db, table, keys, Universe(db));
  }

  lemma SameClosedSets(env: Env, env': Env, db: Database, s: set<RowId>)
    requires env'.lib == env.lib && env'.schemas == env.schemas
    ensures Closed(env, db, s) <==> Closed(env', db, s)
  {
    forall r, ref, c ensures KeyTo(env, db, r, ref, c) <==> KeyTo(env', db, r, ref, c) {}
    hide KeyTo;
  }

  /** When only CASCADE keys match rows of a closed set around the selected rows, the DELETE
      succeeds, in whatever order the keys are met. */
  lemma DeleteSucceeds(env: Env, db: Database, table: string, keys: set<string>, s: set<RowId>)
    requires GoodGraph(env, table) && Seeded(db, table, keys, s) && Closed(env, db, s) && OnlyCascades(env, db, s)
    ensures DeleteRows(env, db, table, keys).error.None?
  {
    DeleteActs(env, db, table, keys);
    hide Actions, Universe, Closed, OnlyCascades, NoSetNull, NamesApart, DeleteRows;
    NothingIsSound(db, {}, {});
    ActionsAreSound(env, db, s, db, table, keys, {}, Universe(db));
  }

  lemma {:induction false} NothingMore(env: Env, db: Database, parent: string, keys: set<string>, parents: TableRows, visited: set<RowId>, universe: set<RowId>)
    requires Within(db, universe) && keys != {}
    ensures Each(env, [], db, parent, keys, parents, visited, universe) == Outcome(db, visited, None, [])
  {
  }

  /** A child row with two keys on its parent row. */
  function TwoKeys(first: Action, second: Action): seq<ForeignKey> {
    [ForeignKey("x", ["pid"], "p", ["id"], first, Restrict), ForeignKey("y", ["pid"], "p", ["id"], second, Restrict)]
  }

  function TwoKeysEnv(lib: Library, first: Action, second: Action): Env {
    Env(lib, map["p" := Schema(["id"], None, [], [], []), "c" := Schema(["id"], None, [], [], TwoKeys(first, second))], ["p", "c"])
  }

  function ParentAndChild(one: Value): Database {
    map["p" := map["a" := StoredRow(one, "p", map["id" := one])], "c" := map["b" := StoredRow(one, "c", map["id" := one, "pid" := one])]]
  }

  lemma TwoKeysReferences(lib: Library, first: Action, second: Action)
    ensures var keys := TwoKeys(first, second);
            References(TwoKeysEnv(lib, first, second), "p") == [Reference("c", keys[0]), Reference("c", keys[1])]
    ensures References(TwoKeysEnv(lib, first, second), "c") == []
  {
    var env, keys := TwoKeysEnv(lib, first, second), TwoKeys(first, second);
    EqIgnoreRefl("p");
    assert !EqIgnoreAsciiCase("p", "c") by { assert "c"[0] == 'c' && "p"[0] == 'p'; }
    hide EqIgnoreAsciiCase;
    assert keys[1..][1..] == [] && keys[1..][0] == keys[1];
    assert Matching("c", keys[1..], "p") == [Reference("c", keys[1])] && Matching("c", keys[1..], "c") == [];
    assert env.order[1..] == ["c"] && ["c"][1..] == [];
    assert ReferencesFrom(env.schemas, [], "p") == [] && ReferencesFrom(env.schemas, [], "c") == [];
    assert ReferencesFrom(env.schemas, ["c"], "p") == Matching("c", keys, "p") && ReferencesFrom(env.schemas, ["c"], "c") == Matching("c", keys, "c");
  }

  /** Whether a RESTRICT stops a DELETE depends on the order of the keys: here the cascade takes
      the child away before the RESTRICT looks for it, or not. */
  lemma RestrictDependsOnOrder(lib: Library, one: Value)
    requires SqlEquality(lib) && one != Null
    ensures DeleteRows(TwoKeysEnv(lib, Cascade, Restrict), ParentAndChild(one), "p", {"a"}).error.None?
    ensures DeleteRows(TwoKeysEnv(lib, Restrict, Cascade), ParentAndChild(one), "p", {"a"}).error == Some(Restricted("x"))
  {
    var db := ParentAndChild(one);
    var cascading, restricting := TwoKeysEnv(lib, Cascade, Restrict), TwoKeysEnv(lib, Restrict, Cascade);
    TwoKeysReferences(lib, Cascade, Restrict);
    TwoKeysReferences(lib, Restrict, Cascade);
    ChildIsFound(lib, one, TwoKeys(Cascade, Restrict)[0], {"a"});
    ChildIsFound(lib, one, TwoKeys(Restrict, Cascade)[0], {"a"});
    DeleteActs(cascading, db, "p", {"a"});
    DeleteActs(restricting, db, "p", {"a"});
    hide DeleteRows, Actions, References, Universe, ChildrenOf;
    CascadeThenRestrict(cascading, db, Universe(db));
    RestrictAtOnce(restricting, db, Universe(db));
  }

  lemma ChildIsFound(lib: Library, one: Value, key: ForeignKey, keys: set<string>)
    requires SqlEquality(lib) && one != Null && key.columns == ["pid"] && key.referencedColumns == ["id"] && keys == {"a"}
    ensures var db := ParentAndChild(one);
            ChildrenOf(lib, Reference("c", key), "p", keys, Chosen(RowsOf(db, "p"), keys), RowsOf(db, "c")) == {"b"}
  {
    var db := ParentAndChild(one);
    var child, parents := map["id" := one, "pid" := one], Chosen(RowsOf(db, "p"), keys);
    assert !EqIgnoreAsciiCase("c", "p") by { assert "c"[0] == 'c' && "p"[0] == 'p'; }
    assert KeyMatches(lib, child, key, map["id" := one]);
    assert "a" in parents && parents["a"].data == map["id" := one] && RowsOf(db, "c")["b"].data == child;
    hide KeyMatches, EqIgnoreAsciiCase;
  }

  lemma {:induction false} RestrictAtOnce(env: Env, db: Database, universe: set<RowId>)
    requires Within(db, universe) && |References(env, "p")| == 2 && References(env, "p")[0].table == "c"
    requires References(env, "p")[0].key.onDelete.Restrict?
    requires ChildrenOf(env.lib, References(env, "p")[0], "p", {"a"}, Chosen(RowsOf(db, "p"), {"a"}), RowsOf(db, "c")) == {"b"}
    requires "a" in RowsOf(db, "p")
    ensures Actions(env, db, "p", {"a"}, {}, universe).error == Some(Restricted(References(env, "p")[0].key.name))
  {
    var parents, refs := Chosen(RowsOf(db, "p"), {"a"}), References(env, "p");
    assert "a" in parents;
    var none: set<RowId> := {};
    OneElsewise(env, refs[0], db, "p", {"a"}, parents, none, universe);
    hide ChildrenOf, References, Within, One;
    assert Each(env, refs, db, "p", {"a"}, parents, none, universe) == One(env, refs[0], db, "p", {"a"}, parents, none, universe);
  }

  lemma {:induction false} CascadeThenRestrict(env: Env, db: Database, universe: set<RowId>)
    requires Within(db, universe) && |References(env, "p")| == 2 && References(env, "p")[0].table == References(env, "p")[1].table == "c"
    requires References(env, "p")[0].key.onDelete.Cascade? && References(env, "c") == []
    requires ChildrenOf(env.lib, References(env, "p")[0], "p", {"a"}, Chosen(RowsOf(db, "p"), {"a"}), RowsOf(db, "c")) == {"b"}
    requires "a" in RowsOf(db, "p") && RowsOf(db, "c").Keys == {"b"}
    ensures Actions(env, db, "p", {"a"}, {}, universe).error.None?
  {
    var parents, refs := Chosen(RowsOf(db, "p"), {"a"}), References(env, "p");
    assert "a" in parents;
    hide Actions, One, ChildrenOf, References, Within, Chosen;
    var none: set<RowId> := {};
    TakesTheChild(env, db, universe, parents, refs[0]);
    var o := One(env, refs[0], db, "p", {"a"}, parents, none, universe);
    FindsNothing(env, o.db, universe, parents, refs[1], o.visited);
    TwoReferencesAct(env, db, "p", {"a"}, universe, refs[0], refs[1]);
  }

  lemma {:induction false} TwoReferencesAct(env: Env, db: Database, parent: string, keys: set<string>, universe: set<RowId>, first: Reference, second: Reference)
    requires Within(db, universe) && keys != {} && References(env, parent) == [first, second] && Chosen(RowsOf(db, parent), keys) != map[]
    ensures var parents := Chosen(RowsOf(db, parent), keys);
            var o := One(env, first, db, parent, keys, parents, {}, universe);
            o.error.None? && One(env, second, o.db, parent, keys, parents, o.visited, universe).error.None? ==>
              Actions(env, db, parent, keys, {}, universe).error.None?
  {
    hide One, References, Within, Chosen;
    var parents := Chosen(RowsOf(db, parent), keys);
    var o := One(env, first, db, parent, keys, parents, {}, universe);
    var p := One(env, second, o.db, parent, keys, parents, o.visited, universe);
    if o.error.None? && p.error.None? {
      assert [first, second][1..] == [second] && [second][1..] == [];
      FewerUnvisited(universe, {}, o.visited);
      FewerUnvisited(universe, o.visited, p.visited);
      NothingMore(env, p.db, parent, keys, parents, p.visited, universe);
      assert Each(env, [second], o.db, parent, keys, parents, o.visited, universe).error.None?;
    }
  }

  lemma {:induction false} TakesTheChild(env: Env, db: Database, universe: set<RowId>, parents: TableRows, ref: Reference)
    requires Within(db, universe) && ref.table == "c" && ref.key.onDelete.Cascade? && References(env, "c") == []
    requires ChildrenOf(env.lib, ref, "p", {"a"}, parents, RowsOf(db, "c")) == {"b"} && RowsOf(db, "c").Keys == {"b"}
    ensures var o := One(env, ref, db, "p", {"a"}, parents, {}, universe); o.error.None? && RowsOf(o.db, "c") == map[]
  {
    hide One, ChildrenOf;
    var none: set<RowId> := {};
    var unseen := set k | k in ChildrenOf(env.lib, ref, "p", {"a"}, parents, RowsOf(db, "c")) && RowId("c", k) !in none;
    OneCascadeUnseen(env, ref, db, "p", {"a"}, parents, none, universe, unseen);
    assert unseen == {"b"};
    assert Actions(env, db, "c", unseen, none + RowIds("c", unseen), universe) == Outcome(db, none + RowIds("c", unseen), None, []);
  }

  lemma {:induction false} FindsNothing(env: Env, db: Database, universe: set<RowId>, parents: TableRows, ref: Reference, visited: set<RowId>)
    requires Within(db, universe) && ref.table == "c" && RowsOf(db, "c") == map[]
    ensures One(env, ref, db, "p", {"a"}, parents, visited, universe) == Outcome(db, visited, None, [])
  {
    ChildrenExist(env.lib, ref, "p", {"a"}, parents, RowsOf(db, "c"));
    OneElsewise(env, ref, db, "p", {"a"}, parents, visited, universe);
    hide One, ChildrenOf;
  }
}
