/** When the rows a DELETE visits are the rows that are gone in the end. A table that is taken up
    again while it is being dealt with is written back from a snapshot, and rows come back. */
module DeleteCycles {
  import opened Wrappers
  import opened Json
  import opened Catalog
  import opened ForeignKeys
  import opened DeleteIntegrity
  import opened DeleteClosure

  // ---------- which visited rows are still there ----------

  /** No table is taken up again, with rows not visited before, while rows of the same table are
      still being dealt with. `open` are the tables being dealt with; the rows in `spared` do no
      harm. */
  ghost predicate Calm(env: Env, db: Database, parent: string, keys: set<string>, visited: set<RowId>, universe: set<RowId>,
                       open: set<string>, spared: set<RowId>)
    requires Within(db, universe)
    decreases |universe - visited|, |keys|, 2, 0
  {
    var parents := Chosen(RowsOf(db, parent), keys);
    parents == map[] || CalmEach(env, References(env, parent), db, parent, keys, parents, visited, universe, open, spared)
  }

  ghost predicate CalmEach(env: Env, refs: seq<Reference>, db: Database, parent: string, keys: set<string>, parents: TableRows,
                           visited: set<RowId>, universe: set<RowId>, open: set<string>, spared: set<RowId>)
    requires Within(db, universe) && keys != {}
    decreases |universe - visited|, |keys|, 1, |refs|
  {
    if refs == [] then true
    else
      var o := One(env, refs[0], db, parent, keys, parents, visited, universe);
      FewerUnvisited(universe, visited, o.visited);
      CalmOne(env, refs[0], db, parent, keys, parents, visited, universe, open, spared)
      && (o.error.None? ==> CalmEach(env, refs[1..], o.db, parent, keys, parents, o.visited, universe, open, spared))
  }

  ghost predicate CalmOne(env: Env, ref: Reference, db: Database, parent: string, keys: set<string>, parents: TableRows,
                          visited: set<RowId>, universe: set<RowId>, open: set<string>, spared: set<RowId>)
    requires Within(db, universe) && keys != {}
    decreases |universe - visited|, |keys|, 0, 0
  {
    var matching := ChildrenOf(env.lib, ref, parent, keys, parents, RowsOf(db, ref.table));
    if matching == {} || !ref.key.onDelete.Cascade? then true
    else
      var unseen := set k | k in matching && RowId(ref.table, k) !in visited;
      FewerUnvisited(universe, visited, visited + RowIds(ref.table, unseen));
      UnseenMeasure(universe, visited, ref.table, unseen, keys);
      (ref.table in open ==> RowIds(ref.table, unseen) <= spared)
      && Calm(env, db, ref.table, unseen, visited + RowIds(ref.table, unseen), universe, open + {ref.table}, spared)
  }

  lemma {:induction false} CalmOneCascade(env: Env, ref: Reference, db: Database, parent: string, keys: set<string>, parents: TableRows,
                                          visited: set<RowId>, universe: set<RowId>, open: set<string>, spared: set<RowId>, unseen: set<string>)
    requires Within(db, universe) && keys != {} && ref.key.onDelete.Cascade?
    requires ChildrenOf(env.lib, ref, parent, keys, parents, RowsOf(db, ref.table)) != {}
    requires unseen == set k | k in ChildrenOf(env.lib, ref, parent, keys, parents, RowsOf(db, ref.table)) && RowId(ref.table, k) !in visited
    ensures CalmOne(env, ref, db, parent, keys, parents, visited, universe, open, spared)
       <==> (ref.table in open ==> RowIds(ref.table, unseen) <= spared)
            && Calm(env, db, ref.table, unseen, visited + RowIds(ref.table, unseen), universe, open + {ref.table}, spared)
  {
    hide Calm, ChildrenOf, Within;
  }

  /** Rows that were visited before stay as they are. After a calm run the newly visited rows are
      gone, up to the spared ones; otherwise one of them is there, or will be back when the rows
      of its table have been dealt with. */
  ghost predicate Settles(db: Database, o: Outcome, visited: set<RowId>, open: set<string>, spared: set<RowId>, calm: bool) {
    && Sub(db, o.db)
    && (forall v :: v in visited && v.key in RowsOf(db, v.table) ==> v.key in RowsOf(o.db, v.table))
    && (calm ==> forall v :: v in o.visited && v !in visited && v !in spared ==> v.table !in open && v.key !in RowsOf(o.db, v.table))
    && (!calm ==> exists v :: v in o.visited && v !in visited && v !in spared && v.key in RowsOf(db, v.table)
                              && (v.table in open || v.key in RowsOf(o.db, v.table)))
  }

  lemma {:induction false} ActionsSettle(env: Env, db: Database, parent: string, keys: set<string>, visited: set<RowId>,
                                         universe: set<RowId>, open: set<string>, spared: set<RowId>)
    requires ValidEnv(env) && NoSetNull(env.schemas) && Within(db, universe)
    ensures var o := Actions(env, db, parent, keys, visited, universe);
            o.error.None? ==> Settles(db, o, visited, open, spared, Calm(env, db, parent, keys, visited, universe, open, spared))
    decreases |universe - visited|, |keys|, 2, 0
  {
    hide NoSetNull;
    var parents := Chosen(RowsOf(db, parent), keys);
    if parents != map[] {
      var refs := References(env, parent);
      forall ref { ReferencesAre(env, parent, ref); }
      assert keys != {};
      EachSettles(env, refs, db, parent, keys, parents, visited, universe, open, spared);
    }
  }

  lemma SettlesThen(db: Database, o: Outcome, visited: set<RowId>, rest: Outcome, open: set<string>, spared: set<RowId>, a: bool, b: bool)
    requires Settles(db, o, visited, open, spared, a) && Settles(o.db, rest, o.visited, open, spared, b)
    requires visited <= o.visited <= rest.visited
    ensures Settles(db, rest.(writes := o.writes + rest.writes), visited, open, spared, a && b)
  {
    SubTransitive(db, o.db, rest.db);
    if !a {
      var v :| v in o.visited && v !in visited && v !in spared && v.key in RowsOf(db, v.table) && (v.table in open || v.key in RowsOf(o.db, v.table));
      assert v.key in RowsOf(o.db, v.table) ==> v.key in RowsOf(rest.db, v.table);
      assert v in rest.visited;
    } else if !b {
      var v :| v in rest.visited && v !in o.visited && v !in spared && v.key in RowsOf(o.db, v.table) && (v.table in open || v.key in RowsOf(rest.db, v.table));
      assert v.key in RowsOf(db, v.table) && v !in visited;
    }
  }

  lemma {:induction false} EachSettles(env: Env, refs: seq<Reference>, db: Database, parent: string, keys: set<string>, parents: TableRows,
                                       visited: set<RowId>, universe: set<RowId>, open: set<string>, spared: set<RowId>)
    requires ValidEnv(env) && NoSetNull(env.schemas) && Within(db, universe) && keys != {}
    requires forall ref :: ref in refs ==> Refers(env.schemas, ref, parent)
    ensures var o := Each(env, refs, db, parent, keys, parents, visited, universe);
            o.error.None? ==> Settles(db, o, visited, open, spared, CalmEach(env, refs, db, parent, keys, parents, visited, universe, open, spared))
    decreases |universe - visited|, |keys|, 1, |refs|
  {
    hide NoSetNull, One, CalmOne, Refers;
    NothingIsSound(db, visited, {});
    if refs != [] {
      hide Settles;
      var o := One(env, refs[0], db, parent, keys, parents, visited, universe);
      OneSettles(env, refs[0], db, parent, keys, parents, visited, universe, open, spared);
      if o.error.None? {
        FewerUnvisited(universe, visited, o.visited);
        var rest := Each(env, refs[1..], o.db, parent, keys, parents, o.visited, universe);
        EachSettles(env, refs[1..], o.db, parent, keys, parents, o.visited, universe, open, spared);
        if rest.error.None? {
          SettlesThen(db, o, visited, rest, open, spared, CalmOne(env, refs[0], db, parent, keys, parents, visited, universe, open, spared),
                      CalmEach(env, refs[1..], o.db, parent, keys, parents, o.visited, universe, open, spared));
        }
      }
    }
  }

  lemma {:induction false} OneSettles(env: Env, ref: Reference, db: Database, parent: string, keys: set<string>, parents: TableRows,
                                      visited: set<RowId>, universe: set<RowId>, open: set<string>, spared: set<RowId>)
    requires ValidEnv(env) && NoSetNull(env.schemas) && Within(db, universe) && keys != {} && Refers(env.schemas, ref, parent)
    ensures var o := One(env, ref, db, parent, keys, parents, visited, universe);
            o.error.None? ==> Settles(db, o, visited, open, spared, CalmOne(env, ref, db, parent, keys, parents, visited, universe, open, spared))
    decreases |universe - visited|, |keys|, 0, 0
  {
    assert !ref.key.onDelete.SetNull?;
    var matching := ChildrenOf(env.lib, ref, parent, keys, parents, RowsOf(db, ref.table));
    OneElsewise(env, ref, db, parent, keys, parents, visited, universe);
    ChildrenExist(env.lib, ref, parent, keys, parents, RowsOf(db, ref.table));
    NothingIsSound(db, visited, {});
    if matching != {} && ref.key.onDelete.Cascade? {
      hide Within, Refers, ChildrenOf, One, CalmOne, NoSetNull, Actions, Calm, Settles;
      var unseen := set k | k in matching && RowId(ref.table, k) !in visited;
      var visited' := visited + RowIds(ref.table, unseen);
      OneCascadeUnseen(env, ref, db, parent, keys, parents, visited, universe, unseen);
      CalmOneCascade(env, ref, db, parent, keys, parents, visited, universe, open, spared, unseen);
      var below := Actions(env, db, ref.table, unseen, visited', universe);
      ActionsSettle(env, db, ref.table, unseen, visited', universe, open + {ref.table}, spared);
      if below.error.None? {
        SettlesAfterCascade(db, below, visited, ref.table, unseen, open, spared,
                            Calm(env, db, ref.table, unseen, visited', universe, open + {ref.table}, spared));
      }
    }
  }

  lemma NotAmong(v: RowId, keys: set<string>)
    requires v !in RowIds(v.table, keys)
    ensures v.key !in keys
  {
    assert v == RowId(v.table, v.key);
  }

  lemma SettlesAfterCascade(db: Database, below: Outcome, visited: set<RowId>, table: string, unseen: set<string>, open: set<string>,
                            spared: set<RowId>, calm: bool)
    requires Settles(db, below, visited + RowIds(table, unseen), open + {table}, spared, calm)
    requires visited + RowIds(table, unseen) <= below.visited
    requires forall k :: k in unseen ==> RowId(table, k) !in visited && k in RowsOf(db, table)
    ensures var db' := below.db[table := RowsOf(db, table) - unseen];
            Settles(db, Outcome(db', below.visited, None, below.writes + [db']), visited, open, spared,
                    (table in open ==> RowIds(table, unseen) <= spared) && calm)
  {
    var db' := below.db[table := RowsOf(db, table) - unseen];
    if table in open && !(RowIds(table, unseen) <= spared) {
      var v :| v in RowIds(table, unseen) && v !in spared;
      assert v in below.visited && v !in visited && v.table in open && v.key in RowsOf(db, v.table);
    } else if !calm {
      var v :| v in below.visited && v !in visited + RowIds(table, unseen) && v !in spared && v.key in RowsOf(db, v.table)
               && (v.table in open + {table} || v.key in RowsOf(below.db, v.table));
      if v.table == table {
        NotAmong(v, unseen);
        assert v.key in RowsOf(db', v.table);
      } else {
        assert v.table in open || v.key in RowsOf(db', v.table);
      }
    }
  }

  // ---------- the statement ----------

  ghost function Removed(db: Database, db': Database): set<RowId> {
    set r | r in Universe(db) && r.key !in RowsOf(db', r.table)
  }

  /** The DELETE as a whole is calm; the selected rows go last, so visiting one of them does no
      harm. */
  ghost predicate CalmDelete(env: Env, db: Database, table: string, keys: set<string>) {
    Calm(env, db, table, keys, {}, Universe(db), {table}, RowIds(table, keys))
  }

  /** Of those rows a successful DELETE leaves some in memory, unless it is calm. Nothing else
      goes, and the rows that stay are what they were. */
  lemma DeleteRemovesThemIffCalm(env: Env, db: Database, table: string, keys: set<string>)
    requires GoodGraph(env, table) && DeleteRows(env, db, table, keys).error.None?
    ensures var db' := DeleteRows(env, db, table, keys).db;
            && Sub(db, db') && Removed(db, db') <= Visited(env, db, table, keys)
            && (Removed(db, db') == Visited(env, db, table, keys) <==> CalmDelete(env, db, table, keys))
  {
    DeleteRemovesOnlyThem(env, db, table, keys);
    hide Calm, Visited, DeleteRows, Universe, NoSetNull, NamesApart;
    if CalmDelete(env, db, table, keys) { CalmDeleteRemoves(env, db, table, keys); } else { RestlessDeleteLeaves(env, db, table, keys); }
  }

  lemma DeleteRemovesOnlyThem(env: Env, db: Database, table: string, keys: set<string>)
    requires GoodGraph(env, table) && DeleteRows(env, db, table, keys).error.None?
    ensures var db' := DeleteRows(env, db, table, keys).db; Sub(db, db') && Removed(db, db') <= Visited(env, db, table, keys)
  {
    DeleteActs(env, db, table, keys);
    DeleteVisitsLeastClosedSet(env, db, table, keys);
    hide Actions, Universe, NoSetNull, NamesApart, DeleteRows, Closed, Swept, Visited, OnlyCascades, Sound, Removed, Sub;
    NothingIsSound(db, {}, {});
    var s := Visited(env, db, table, keys);
    ActionsAreSound(env, db, s, db, table, keys, {}, Universe(db));
    RemovedInAll(db, Actions(env, db, table, keys, {}, Universe(db)), DeleteRows(env, db, table, keys).db, table, keys, s);
  }

  lemma RemovedInAll(db: Database, o: Outcome, db': Database, table: string, keys: set<string>, s: set<RowId>)
    requires Sound(db, o, {}, s) && Seeded(db, table, keys, s)
    requires forall t :: RowsOf(db', t) == if t == table then RowsOf(db, table) - keys else RowsOf(o.db, t)
    ensures Sub(db, db') && Removed(db, db') <= s
  {
    forall r { InUniverse(db, r); }
    hide Universe;
  }

  lemma CalmDeleteRemoves(env: Env, db: Database, table: string, keys: set<string>)
    requires GoodGraph(env, table) && DeleteRows(env, db, table, keys).error.None? && CalmDelete(env, db, table, keys)
    ensures Visited(env, db, table, keys) <= Removed(db, DeleteRows(env, db, table, keys).db)
  {
    DeleteActs(env, db, table, keys);
    DeleteVisitsLeastClosedSet(env, db, table, keys);
    VisitedExist(env, db, table, keys);
    hide Actions, Universe, Calm, NoSetNull, NamesApart, DeleteRows, LeastClosed, Swept;
    ActionsSettle(env, db, table, keys, {}, Universe(db), {table}, RowIds(table, keys));
  }

  /** A row that is visited and still there in the end. */
  lemma RestlessDeleteLeaves(env: Env, db: Database, table: string, keys: set<string>)
    requires GoodGraph(env, table) && DeleteRows(env, db, table, keys).error.None? && !CalmDelete(env, db, table, keys)
    ensures exists v :: v in Visited(env, db, table, keys) && v.key in RowsOf(DeleteRows(env, db, table, keys).db, v.table)
  {
    DeleteActs(env, db, table, keys);
    hide Actions, Universe, Calm, NoSetNull, NamesApart, DeleteRows;
    ActionsSettle(env, db, table, keys, {}, Universe(db), {table}, RowIds(table, keys));
    var o := Actions(env, db, table, keys, {}, Universe(db));
    var v :| v in o.visited && v !in RowIds(table, keys) && v.key in RowsOf(db, v.table) && (v.table in {table} || v.key in RowsOf(o.db, v.table));
    if v.table == table { NotAmong(v, keys); }
  }

  /** The actions have left the unselected rows of the table alone. */
  ghost predicate OwnRowsLeftAlone(env: Env, db: Database, table: string, keys: set<string>) {
    RowsOf(Actions(env, db, table, keys, {}, Universe(db)).db, table) - keys == RowsOf(db, table) - keys
  }

  lemma CalmLeavesOwnRows(env: Env, db: Database, table: string, keys: set<string>)
    requires GoodGraph(env, table) && DeleteRows(env, db, table, keys).error.None? && CalmDelete(env, db, table, keys)
    ensures OwnRowsLeftAlone(env, db, table, keys)
  {
    DeleteActs(env, db, table, keys);
    hide Actions, Universe, Calm, NoSetNull, NamesApart, DeleteRows, Swept;
    var o := Actions(env, db, table, keys, {}, Universe(db));
    NothingIsSound(db, {}, {});
    ActionsSweep(env, table, db, db, table, keys, {}, Universe(db));
    ActionsSettle(env, db, table, keys, {}, Universe(db), {table}, RowIds(table, keys));
    forall k | k in RowsOf(db, table) && k !in keys ensures k in RowsOf(o.db, table) {
      assert RowId(table, k) !in RowIds(table, keys);
      assert RowId(table, k) in o.visited ==> RowId(table, k).table !in {table};
    }
  }

  /** A calm DELETE keeps referential integrity on any graph. */
  lemma CalmDeleteKeepsIntegrity(env: Env, db: Database, table: string, keys: set<string>)
    requires GoodGraph(env, table) && DeleteRows(env, db, table, keys).error.None?
    requires CalmDelete(env, db, table, keys) && Integrity(env, db)
    ensures Integrity(env, DeleteRows(env, db, table, keys).db)
  {
    DeleteVisitsLeastClosedSet(env, db, table, keys);
    DeleteRemovesThemIffCalm(env, db, table, keys);
    hide DeleteRows, Universe, Closed, Calm, NoSetNull, NamesApart, Visited;
    SweptRemovalKeepsIntegrity(env, db, DeleteRows(env, db, table, keys).db, Visited(env, db, table, keys));
  }

  lemma SweptRemovalKeepsIntegrity(env: Env, db: Database, db': Database, s: set<RowId>)
    requires Integrity(env, db) && Sub(db, db') && Removed(db, db') == s && Swept(env, db, s, s)
    ensures Integrity(env, db')
  {
    forall r { InUniverse(db, r); }
    hide Universe, KeyMatches, EqIgnoreAsciiCase;
    forall t, key, k | t in env.schemas && key in env.schemas[t].foreignKeys && k in RowsOf(db', t)
      ensures RowIntact(env.lib, db', key, RowsOf(db', t)[k].data)
    {
      var child := RowsOf(db, t)[k].data;
      assert RowIntact(env.lib, db, key, child);
      if NoneNull(child, key.columns) {
        var p :| p in RowsOf(db, key.referencedTable) && KeyMatches(env.lib, child, key, RowsOf(db, key.referencedTable)[p].data);
        var r := RowId(key.referencedTable, p);
        EqIgnoreRefl(key.referencedTable);
        assert KeyTo(env, db, r, Reference(t, key), k);
        assert RowId(t, k) !in s;
        assert p in RowsOf(db', key.referencedTable);
      }
    }
  }

  /** The order in which the referencing keys are visited does not matter: two successful runs
      visit the same rows, and two calm ones leave the same rows. */
  lemma OrderDoesNotMatter(env: Env, env': Env, db: Database, table: string, keys: set<string>)
    requires GoodGraph(env, table) && GoodGraph(env', table) && env'.lib == env.lib && env'.schemas == env.schemas
    requires DeleteRows(env, db, table, keys).error.None? && DeleteRows(env', db, table, keys).error.None?
    ensures Visited(env, db, table, keys) == Visited(env', db, table, keys)
    ensures CalmDelete(env, db, table, keys) && CalmDelete(env', db, table, keys) ==>
              forall t :: RowsOf(DeleteRows(env, db, table, keys).db, t) == RowsOf(DeleteRows(env', db, table, keys).db, t)
  {
    DeleteVisitsLeastClosedSet(env, db, table, keys);
    DeleteVisitsLeastClosedSet(env', db, table, keys);
    DeleteRemovesThemIffCalm(env, db, table, keys);
    DeleteRemovesThemIffCalm(env', db, table, keys);
    hide DeleteRows, Universe, NoSetNull, NamesApart, Closed, Calm, Swept, Visited;
    var s, s' := Visited(env, db, table, keys), Visited(env', db, table, keys);
    SameClosedSets(env, env', db, s);
    SameClosedSets(env, env', db, s');
    assert s == s';
    var a, b := DeleteRows(env, db, table, keys).db, DeleteRows(env', db, table, keys).db;
    if Removed(db, a) == Removed(db, b) {
      forall t ensures RowsOf(a, t) == RowsOf(b, t) { SameRemovedSameRows(db, a, b, t); }
    }
  }

  lemma SameRemovedSameRows(db: Database, a: Database, b: Database, t: string)
    requires Sub(db, a) && Sub(db, b) && Removed(db, a) == Removed(db, b)
    ensures RowsOf(a, t) == RowsOf(b, t)
  {
    hide Universe;
    forall k ensures k in RowsOf(a, t) <==> k in RowsOf(b, t) {
      InUniverse(db, RowId(t, k));
      assert RowId(t, k) in Removed(db, a) <==> RowId(t, k) in Removed(db, b);
    }
  }

  // ---------- graphs whose only cycles are those of the table with itself ----------

  /** `rank` grows along every key, except along those of `table` on itself. */
  ghost predicate OnlyOwnCycles(schemas: Schemas, table: string, rank: string -> nat) {
    forall ref, t :: Refers(schemas, ref, t) && Known(schemas, table, t) ==> (ref.table == t == table) || rank(t) < rank(ref.table)
  }

  /** The actions stay away from `table`. */
  ghost predicate Away(db: Database, o: Outcome, visited: set<RowId>, table: string) {
    RowsOf(o.db, table) == RowsOf(db, table) && forall v :: v in o.visited && v !in visited ==> v.table != table
  }

  ghost predicate OpenBelow(open: set<string>, rank: string -> nat, r: nat) { forall t :: t in open ==> rank(t) <= r }

  lemma {:induction false} ActionsAreAway(env: Env, db: Database, parent: string, keys: set<string>, visited: set<RowId>, universe: set<RowId>,
                                          open: set<string>, spared: set<RowId>, table: string, rank: string -> nat)
    requires ValidEnv(env) && NoSetNull(env.schemas) && OnlyOwnCycles(env.schemas, table, rank) && Within(db, universe)
    requires rank(table) < rank(parent) && OpenBelow(open, rank, rank(parent)) && Known(env.schemas, table, parent)
    ensures Calm(env, db, parent, keys, visited, universe, open, spared)
    ensures Away(db, Actions(env, db, parent, keys, visited, universe), visited, table)
    decreases |universe - visited|, |keys|, 2, 0
  {
    hide NoSetNull;
    var parents := Chosen(RowsOf(db, parent), keys);
    if parents != map[] {
      var refs := References(env, parent);
      forall ref { ReferencesAre(env, parent, ref); }
      assert keys != {};
      assert forall ref :: ref in refs ==> rank(parent) < rank(ref.table);
      hide OnlyOwnCycles, OpenBelow;
      EachIsAway(env, refs, db, parent, keys, parents, visited, universe, open, spared, table, rank);
    }
  }

  lemma {:induction false} EachIsAway(env: Env, refs: seq<Reference>, db: Database, parent: string, keys: set<string>, parents: TableRows,
                                      visited: set<RowId>, universe: set<RowId>, open: set<string>, spared: set<RowId>, table: string, rank: string -> nat)
    requires ValidEnv(env) && NoSetNull(env.schemas) && OnlyOwnCycles(env.schemas, table, rank) && Within(db, universe) && keys != {}
    requires rank(table) <= rank(parent) && OpenBelow(open, rank, rank(parent)) && Known(env.schemas, table, parent)
    requires forall ref :: ref in refs ==> Refers(env.schemas, ref, parent) && ref.table != table
    ensures CalmEach(env, refs, db, parent, keys, parents, visited, universe, open, spared)
    ensures Away(db, Each(env, refs, db, parent, keys, parents, visited, universe), visited, table)
    decreases |universe - visited|, |keys|, 1, |refs|
  {
    hide NoSetNull, OnlyOwnCycles, One, CalmOne, Refers, OpenBelow;
    if refs != [] {
      var o := One(env, refs[0], db, parent, keys, parents, visited, universe);
      OneIsAway(env, refs[0], db, parent, keys, parents, visited, universe, open, spared, table, rank);
      FewerUnvisited(universe, visited, o.visited);
      if o.error.None? {
        EachIsAway(env, refs[1..], o.db, parent, keys, parents, o.visited, universe, open, spared, table, rank);
      }
    }
  }

  lemma {:induction false} OneIsAway(env: Env, ref: Reference, db: Database, parent: string, keys: set<string>, parents: TableRows,
                                     visited: set<RowId>, universe: set<RowId>, open: set<string>, spared: set<RowId>, table: string, rank: string -> nat)
    requires ValidEnv(env) && NoSetNull(env.schemas) && OnlyOwnCycles(env.schemas, table, rank) && Within(db, universe) && keys != {}
    requires rank(table) <= rank(parent) && OpenBelow(open, rank, rank(parent)) && Known(env.schemas, table, parent)
    requires Refers(env.schemas, ref, parent) && ref.table != table
    ensures CalmOne(env, ref, db, parent, keys, parents, visited, universe, open, spared)
    ensures Away(db, One(env, ref, db, parent, keys, parents, visited, universe), visited, table)
    decreases |universe - visited|, |keys|, 0, 0
  {
    assert !ref.key.onDelete.SetNull?;
    assert rank(parent) < rank(ref.table);
    assert ref.table !in open;
    assert OpenBelow(open + {ref.table}, rank, rank(ref.table));
    var matching := ChildrenOf(env.lib, ref, parent, keys, parents, RowsOf(db, ref.table));
    OneElsewise(env, ref, db, parent, keys, parents, visited, universe);
    hide Within, Refers, ChildrenOf, One, NoSetNull, Actions, Calm, OnlyOwnCycles, OpenBelow;
    if matching != {} && ref.key.onDelete.Cascade? {
      hide CalmOne;
      var unseen := set k | k in matching && RowId(ref.table, k) !in visited;
      var visited' := visited + RowIds(ref.table, unseen);
      OneCascadeUnseen(env, ref, db, parent, keys, parents, visited, universe, unseen);
      CalmOneCascade(env, ref, db, parent, keys, parents, visited, universe, open, spared, unseen);
      ActionsAreAway(env, db, ref.table, unseen, visited', universe, open + {ref.table}, spared, table, rank);
    }
  }

  /** No CASCADE key of the table on itself leads from a selected row to one not selected. */
  ghost predicate OwnChildrenSelected(env: Env, db: Database, table: string, keys: set<string>) {
    forall p, ref, c :: p in keys && KeyTo(env, db, RowId(table, p), ref, c) && ref.table == table && ref.key.onDelete.Cascade? ==> c in keys
  }

  ghost predicate OwnUnmatched(env: Env, refs: seq<Reference>, table: string, keys: set<string>, parents: TableRows, rows: TableRows) {
    forall ref :: ref in refs && ref.table == table && ref.key.onDelete.Cascade? ==> ChildrenOf(env.lib, ref, table, keys, parents, rows) == {}
  }

  lemma OwnUnmatchedStep(env: Env, refs: seq<Reference>, table: string, keys: set<string>, parents: TableRows, rows: TableRows)
    requires refs != []
    ensures OwnUnmatched(env, refs, table, keys, parents, rows)
       <==> OwnUnmatched(env, refs[1..], table, keys, parents, rows)
            && (refs[0].table == table && refs[0].key.onDelete.Cascade? ==> ChildrenOf(env.lib, refs[0], table, keys, parents, rows) == {})
  {
    hide ChildrenOf;
    assert refs == [refs[0]] + refs[1..];
  }

  lemma {:induction false} EachIsCalmIff(env: Env, refs: seq<Reference>, db: Database, rows: TableRows, table: string, keys: set<string>,
                                         parents: TableRows, visited: set<RowId>, universe: set<RowId>, rank: string -> nat)
    requires ValidEnv(env) && NoSetNull(env.schemas) && OnlyOwnCycles(env.schemas, table, rank) && Within(db, universe) && keys != {}
    requires forall ref :: ref in refs ==> Refers(env.schemas, ref, table)
    requires RowsOf(db, table) == rows && forall v :: v in visited ==> v.table != table
    requires Each(env, refs, db, table, keys, parents, visited, universe).error.None?
    ensures CalmEach(env, refs, db, table, keys, parents, visited, universe, {table}, RowIds(table, keys))
       <==> OwnUnmatched(env, refs, table, keys, parents, rows)
    decreases |refs|
  {
    hide NoSetNull, OnlyOwnCycles, One, CalmOne, Refers, OwnUnmatched, ChildrenOf, Within;
    if refs == [] {
      NothingUnmatched(env, table, keys, parents, rows);
    } else {
      var ref := refs[0];
      var o := One(env, ref, db, table, keys, parents, visited, universe);
      OwnUnmatchedStep(env, refs, table, keys, parents, rows);
      FewerUnvisited(universe, visited, o.visited);
      if ref.table == table {
        OwnKeyIsCalmIff(env, ref, db, table, keys, parents, visited, universe);
        if o.visited == visited && o.db == db { EachIsCalmIff(env, refs[1..], o.db, rows, table, keys, parents, o.visited, universe, rank); }
      } else {
        OpenItself(table, rank);
        OneIsAway(env, ref, db, table, keys, parents, visited, universe, {table}, RowIds(table, keys), table, rank);
        EachIsCalmIff(env, refs[1..], o.db, rows, table, keys, parents, o.visited, universe, rank);
      }
    }
  }

  lemma NothingUnmatched(env: Env, table: string, keys: set<string>, parents: TableRows, rows: TableRows)
    ensures OwnUnmatched(env, [], table, keys, parents, rows)
  {
  }

  lemma OpenItself(table: string, rank: string -> nat)
    ensures OpenBelow({table}, rank, rank(table))
  {
  }

  /** A key of the table on itself either finds nothing or, with CASCADE, takes the table up again. */
  lemma {:induction false} OwnKeyIsCalmIff(env: Env, ref: Reference, db: Database, table: string, keys: set<string>, parents: TableRows, visited: set<RowId>,
                                           universe: set<RowId>)
    requires Within(db, universe) && keys != {} && ref.table == table && NoSetNull(env.schemas) && Refers(env.schemas, ref, table)
    requires forall v :: v in visited ==> v.table != table
    requires One(env, ref, db, table, keys, parents, visited, universe).error.None?
    ensures var matching := ChildrenOf(env.lib, ref, table, keys, parents, RowsOf(db, table));
            var o := One(env, ref, db, table, keys, parents, visited, universe);
            && (CalmOne(env, ref, db, table, keys, parents, visited, universe, {table}, RowIds(table, keys)) <==> matching == {})
            && (matching != {} ==> ref.key.onDelete.Cascade?)
            && (matching == {} ==> o == Outcome(db, visited, None, []))
  {
    assert !ref.key.onDelete.SetNull?;
    var matching := ChildrenOf(env.lib, ref, table, keys, parents, RowsOf(db, table));
    OneElsewise(env, ref, db, table, keys, parents, visited, universe);
    EqIgnoreRefl(table);
    assert matching !! keys;
    hide ChildrenOf, One, Calm, Within, NoSetNull, Refers;
    if matching != {} {
      var unseen := set k | k in matching && RowId(table, k) !in visited;
      CalmOneCascade(env, ref, db, table, keys, parents, visited, universe, {table}, RowIds(table, keys), unseen);
      var c :| c in matching;
      assert RowId(table, c) in RowIds(table, unseen) && RowId(table, c) !in RowIds(table, keys);
    }
  }

  /** There a successful DELETE is calm exactly when the selected rows are closed under the CASCADE
      keys of the table on itself. */
  lemma CalmIffOwnChildrenSelected(env: Env, db: Database, table: string, keys: set<string>, rank: string -> nat)
    requires ValidEnv(env) && NoSetNull(env.schemas) && OnlyOwnCycles(env.schemas, table, rank)
    requires DeleteRows(env, db, table, keys).error.None?
    ensures CalmDelete(env, db, table, keys) <==> OwnChildrenSelected(env, db, table, keys)
  {
    DeleteActs(env, db, table, keys);
    var parents := Chosen(RowsOf(db, table), keys);
    var refs := References(env, table);
    hide Universe, NoSetNull, OnlyOwnCycles, KeyMatches, Each, CalmEach, Refers, EqIgnoreAsciiCase, DeleteRows;
    if parents == map[] {
      forall p | p in keys ensures p !in RowsOf(db, table) { assert p in RowsOf(db, table) ==> p in parents; }
    } else {
      forall ref { ReferencesAre(env, table, ref); }
      EachIsCalmIff(env, refs, db, RowsOf(db, table), table, keys, parents, {}, Universe(db), rank);
      OwnUnmatchedMeans(env, db, table, keys);
    }
  }

  lemma OwnKey(env: Env, db: Database, table: string, keys: set<string>, p: string, ref: Reference, c: string)
    requires OwnChildrenSelected(env, db, table, keys) && p in keys && KeyTo(env, db, RowId(table, p), ref, c)
    requires ref.table == table && ref.key.onDelete.Cascade?
    ensures c in keys
  {
  }

  lemma OwnUnmatchedMeans(env: Env, db: Database, table: string, keys: set<string>)
    requires ValidEnv(env)
    ensures OwnUnmatched(env, References(env, table), table, keys, Chosen(RowsOf(db, table), keys), RowsOf(db, table))
       <==> OwnChildrenSelected(env, db, table, keys)
  {
    forall ref { ReferencesAre(env, table, ref); }
    EqIgnoreRefl(table);
    hide References, Refers, KeyMatches, EqIgnoreAsciiCase;
    var refs, rows, parents := References(env, table), RowsOf(db, table), Chosen(RowsOf(db, table), keys);
    if OwnUnmatched(env, refs, table, keys, parents, rows) {
      forall p, ref, c | p in keys && KeyTo(env, db, RowId(table, p), ref, c) && ref.table == table && ref.key.onDelete.Cascade? ensures c in keys {
        assert p in parents && ref in refs;
        assert c !in ChildrenOf(env.lib, ref, table, keys, parents, rows);
      }
    }
    if OwnChildrenSelected(env, db, table, keys) {
      forall ref, c | ref in refs && ref.table == table && ref.key.onDelete.Cascade? ensures c !in ChildrenOf(env.lib, ref, table, keys, parents, rows) {
        if c in ChildrenOf(env.lib, ref, table, keys, parents, rows) {
          var p :| p in parents && KeyMatches(env.lib, rows[c].data, ref.key, parents[p].data);
          OwnKey(env, db, table, keys, p, ref, c);
        }
      }
    }
  }

  lemma RankedIsGood(env: Env, table: string, rank: string -> nat)
    requires ValidEnv(env) && Ranked(env.schemas, rank) && NoSetNull(env.schemas)
    ensures GoodGraph(env, table) && OnlyOwnCycles(env.schemas, table, rank)
  {
    hide EqIgnoreAsciiCase, Refers, NoSetNull;
    forall ref, t | Refers(env.schemas, ref, t) ensures !EqIgnoreAsciiCase(ref.table, t) { NoSelfReference(env.schemas, ref, t, rank); }
  }

  /** On a ranked graph a successful DELETE removes exactly the least closed set that contains the
      selected rows, and leaves the other rows as they were. */
  lemma DeleteRemovesLeastClosedSet(env: Env, db: Database, table: string, keys: set<string>, rank: string -> nat)
    requires ValidEnv(env) && Ranked(env.schemas, rank) && NoSetNull(env.schemas)
    requires DeleteRows(env, db, table, keys).error.None?
    ensures var db' := DeleteRows(env, db, table, keys).db;
            Sub(db, db') && LeastClosed(env, db, table, keys, Removed(db, db'))
  {
    RankedIsGood(env, table, rank);
    forall ref | Refers(env.schemas, ref, table) ensures ref.table != table {
      NoSelfReference(env.schemas, ref, table, rank);
      EqIgnoreRefl(table);
    }
    assert OwnChildrenSelected(env, db, table, keys);
    hide NoSetNull, Ranked, OnlyOwnCycles, NamesApart, DeleteRows, Universe, Calm, Closed, Visited, OwnChildrenSelected;
    CalmIffOwnChildrenSelected(env, db, table, keys, rank);
    DeleteVisitsLeastClosedSet(env, db, table, keys);
    DeleteRemovesThemIffCalm(env, db, table, keys);
  }

  /** On any graph, an unselected row that a CASCADE key of the table on itself leads to is visited
      and yet still there. */
  lemma OwnChildComesBack(env: Env, db: Database, table: string, keys: set<string>, p: string, ref: Reference, c: string)
    requires GoodGraph(env, table) && DeleteRows(env, db, table, keys).error.None?
    requires p in keys && KeyTo(env, db, RowId(table, p), ref, c) && ref.table == table && ref.key.onDelete.Cascade? && c !in keys
    ensures RowId(table, c) in Visited(env, db, table, keys) && c in RowsOf(DeleteRows(env, db, table, keys).db, table)
    ensures !CalmDelete(env, db, table, keys)
  {
    DeleteActs(env, db, table, keys);
    DeleteVisitsLeastClosedSet(env, db, table, keys);
    DeleteRemovesThemIffCalm(env, db, table, keys);
    InUniverse(db, RowId(table, c));
    hide DeleteRows, Universe, Calm, Actions, KeyMatches, Refers, NoSetNull, NamesApart, Visited;
    assert RowId(table, p) in Visited(env, db, table, keys);
  }

  /** One table with a key on itself, and two rows, the second the child of the first. */
  function OwnKeyEnv(lib: Library): Env {
    Env(lib, map["t" := Schema(["id"], None, [], [], [ForeignKey("own", ["parent"], "t", ["id"], Cascade, Restrict)])], ["t"])
  }

  function TwoRows(one: Value, two: Value): Database {
    map["t" := map["a" := StoredRow(one, "t", map["id" := one]), "b" := StoredRow(two, "t", map["id" := two, "parent" := one])]]
  }

  lemma TwoAreKeyed(lib: Library, one: Value, two: Value)
    requires SqlEquality(lib) && one != Null && two != Null && !lib.eq(one, two)
    ensures var env, db := OwnKeyEnv(lib), TwoRows(one, two);
            GoodGraph(env, "t") && OnlyCascades(env, db, Universe(db))
            && KeyTo(env, db, RowId("t", "a"), Reference("t", env.schemas["t"].foreignKeys[0]), "b")
  {
    var key := ForeignKey("own", ["parent"], "t", ["id"], Cascade, Restrict);
    EqIgnoreRefl("t");
    assert KeyMatches(lib, map["id" := two, "parent" := one], key, map["id" := one]);
    hide KeyMatches, EqIgnoreAsciiCase, Universe;
    assert OwnKeyEnv(lib).schemas["t"].foreignKeys == [key];
  }

  lemma {:induction false} OneReferenceActs(env: Env, db: Database, parent: string, keys: set<string>, universe: set<RowId>, ref: Reference)
    requires Within(db, universe) && References(env, parent) == [ref] && Chosen(RowsOf(db, parent), keys) != map[] && keys != {}
    requires Actions(env, db, parent, keys, {}, universe).error.None?
    ensures var o := One(env, ref, db, parent, keys, Chosen(RowsOf(db, parent), keys), {}, universe);
            o.error.None? && Actions(env, db, parent, keys, {}, universe).db == o.db
  {
    hide One, Within, Chosen, References;
    assert [ref][1..] == [];
    var o := One(env, ref, db, parent, keys, Chosen(RowsOf(db, parent), keys), {}, universe);
    FewerUnvisited(universe, {}, o.visited);
    NothingMore(env, o.db, parent, keys, Chosen(RowsOf(db, parent), keys), o.visited, universe);
    assert Actions(env, db, parent, keys, {}, universe)
        == Each(env, [ref], db, parent, keys, Chosen(RowsOf(db, parent), keys), {}, universe);
    assert o.error.None?;
  }

  lemma OwnKeyReferences(lib: Library)
    ensures References(OwnKeyEnv(lib), "t") == [Reference("t", OwnKeyEnv(lib).schemas["t"].foreignKeys[0])]
  {
    var env := OwnKeyEnv(lib);
    var keys := env.schemas["t"].foreignKeys;
    EqIgnoreRefl("t");
    assert keys[1..] == [] && Matching("t", keys, "t") == [Reference("t", keys[0])];
    assert env.order[1..] == [] && ReferencesFrom(env.schemas, [], "t") == [];
  }

  /** The cascade takes the second row out of the table and its index before the snapshot puts the
      row back. */
  lemma {:induction false} SecondIsTakenOut(env: Env, db: Database, ref: Reference)
    requires References(env, "t") == [ref] && ref.table == "t" && ref.key.onDelete.Cascade?
    requires RowsOf(db, "t").Keys == {"a", "b"} && KeyTo(env, db, RowId("t", "a"), ref, "b")
    requires Actions(env, db, "t", {"a"}, {}, Universe(db)).error.None?
    ensures !OwnRowsLeftAlone(env, db, "t", {"a"})
  {
    var parents := Chosen(RowsOf(db, "t"), {"a"});
    assert "a" in parents;
    var none: set<RowId> := {};
    var unseen := set k | k in ChildrenOf(env.lib, ref, "t", {"a"}, parents, RowsOf(db, "t")) && RowId("t", k) !in none;
    assert "b" in unseen;
    hide Actions, One, ChildrenOf, Universe, References, Chosen, Within, KeyTo;
    OneReferenceActs(env, db, "t", {"a"}, Universe(db), ref);
    OneCascadeUnseen(env, ref, db, "t", {"a"}, parents, none, Universe(db), unseen);
    hide OwnRowsLeftAlone;
    assert "b" !in RowsOf(Actions(env, db, "t", {"a"}, {}, Universe(db)).db, "t");
    NotLeftAlone(env, db, "t", {"a"}, "b");
  }

  lemma {:induction false} NotLeftAlone(env: Env, db: Database, table: string, keys: set<string>, k: string)
    requires k in RowsOf(db, table) && k !in keys && k !in RowsOf(Actions(env, db, table, keys, {}, Universe(db)).db, table)
    ensures !OwnRowsLeftAlone(env, db, table, keys)
  {
    hide Actions, Universe;
    assert k in RowsOf(db, table) - keys;
  }

  /** Deleting the first row leaves the second, although the least closed set has both and the
      store and the index have lost both. */
  lemma SecondOfTwoComesBack(lib: Library, one: Value, two: Value)
    requires SqlEquality(lib) && one != Null && two != Null && !lib.eq(one, two)
    ensures var env, db := OwnKeyEnv(lib), TwoRows(one, two);
            var d := DeleteRows(env, db, "t", {"a"});
            d.error.None? && LeastClosed(env, db, "t", {"a"}, Visited(env, db, "t", {"a"}))
            && RowId("t", "b") in Visited(env, db, "t", {"a"}) && RowsOf(d.db, "t").Keys == {"b"} && !OwnRowsLeftAlone(env, db, "t", {"a"})
  {
    var env, db := OwnKeyEnv(lib), TwoRows(one, two);
    var ref := Reference("t", env.schemas["t"].foreignKeys[0]);
    TwoAreKeyed(lib, one, two);
    OwnKeyReferences(lib);
    AllRowsAreClosed(env, db);
    forall r { InUniverse(db, r); }
    DeleteActs(env, db, "t", {"a"});
    hide DeleteRows, Actions, KeyTo, Universe, OnlyCascades, Closed, GoodGraph, Visited, References, OwnRowsLeftAlone;
    DeleteSucceeds(env, db, "t", {"a"}, Universe(db));
    DeleteVisitsLeastClosedSet(env, db, "t", {"a"});
    OwnChildComesBack(env, db, "t", {"a"}, "a", ref, "b");
    SecondIsTakenOut(env, db, ref);
  }

  /** A chain of three rows in two tables, the child table with a key on itself. */
  function ChainKeys(): seq<ForeignKey> {
    [ForeignKey("up", ["pid"], "p", ["id"], Cascade, Restrict), ForeignKey("own", ["parent"], "c", ["id"], Cascade, Restrict)]
  }

  function ChainEnv(lib: Library): Env {
    Env(lib, map["p" := Schema(["id"], None, [], [], []), "c" := Schema(["id"], None, [], [], ChainKeys())], ["p", "c"])
  }

  function ChainRows(one: Value, two: Value): Database {
    map["p" := map["a" := StoredRow(one, "p", map["id" := one])],
        "c" := map["b" := StoredRow(one, "c", map["id" := one, "pid" := one]),
                   "d" := StoredRow(two, "c", map["id" := two, "parent" := one])]]
  }

  lemma ChainReferences(lib: Library)
    ensures References(ChainEnv(lib), "p") == [Reference("c", ChainKeys()[0])]
  {
    var env, keys := ChainEnv(lib), ChainKeys();
    EqIgnoreRefl("p");
    assert !EqIgnoreAsciiCase("c", "p") by { assert LowerChar('c') != LowerChar('p'); assert "c"[0] == 'c'; }
    assert keys[1..][1..] == [] && keys[1..][0] == keys[1];
    assert Matching("c", keys[1..], "p") == [];
    assert Matching("c", keys, "p") == [Reference("c", keys[0])];
    assert env.order[1..] == ["c"] && ["c"][1..] == [];
    assert ReferencesFrom(env.schemas, [], "p") == [] && ReferencesFrom(env.schemas, ["c"], "p") == [Reference("c", keys[0])];
  }

  /** A selection closed under the keys of the table on itself is not enough when a table further
      down references itself: the grandchild comes back there. */
  lemma GrandchildComesBack(lib: Library, one: Value, two: Value)
    requires SqlEquality(lib) && one != Null && two != Null && !lib.eq(one, two)
    ensures var env, db := ChainEnv(lib), ChainRows(one, two);
            OwnChildrenSelected(env, db, "p", {"a"}) && DeleteRows(env, db, "p", {"a"}).error.None?
            && RowId("c", "d") in Visited(env, db, "p", {"a"}) && "d" in RowsOf(DeleteRows(env, db, "p", {"a"}).db, "c")
  {
    var env, db := ChainEnv(lib), ChainRows(one, two);
    ChainReferences(lib);
    NotTheGrandchild(lib, one, two);
    ChainIsKeyed(lib, one, two);
    ChainIsGood(lib);
    ChainOnlyCascades(lib, db, Universe(db), {"a"});
    DeleteActs(env, db, "p", {"a"});
    AllRowsAreClosed(env, db);
    forall r { InUniverse(db, r); }
    hide DeleteRows, KeyMatches, EqIgnoreAsciiCase, Actions, Universe, KeyTo, ChildrenOf, References, OnlyCascades, Closed, GoodGraph, OwnChildrenSelected;
    DeleteSucceeds(env, db, "p", {"a"}, Universe(db));
    DeleteVisitsLeastClosedSet(env, db, "p", {"a"});
    ChainStops(env, db, Reference("c", ChainKeys()[0]));
    assert RowId("p", "a") in Visited(env, db, "p", {"a"});
    hide Visited;
    assert RowId("c", "b") in Visited(env, db, "p", {"a"});
  }

  lemma ChainIsKeyed(lib: Library, one: Value, two: Value)
    requires SqlEquality(lib) && one != Null && two != Null && !lib.eq(one, two)
    ensures var env, db := ChainEnv(lib), ChainRows(one, two);
            && KeyTo(env, db, RowId("p", "a"), Reference("c", ChainKeys()[0]), "b")
            && KeyTo(env, db, RowId("c", "b"), Reference("c", ChainKeys()[1]), "d")
  {
    EqIgnoreRefl("p");
    EqIgnoreRefl("c");
    assert KeyMatches(lib, map["id" := one, "pid" := one], ChainKeys()[0], map["id" := one]);
    assert KeyMatches(lib, map["id" := two, "parent" := one], ChainKeys()[1], map["id" := one, "pid" := one]);
    hide KeyMatches, EqIgnoreAsciiCase;
  }

  lemma ChainIsGood(lib: Library)
    ensures GoodGraph(ChainEnv(lib), "p")
  {
    assert !EqIgnoreAsciiCase("c", "p") by { assert "c"[0] == 'c' && "p"[0] == 'p'; }
    hide EqIgnoreAsciiCase;
  }

  /** The graph has CASCADE keys only, and none of `p`. */
  lemma ChainOnlyCascades(lib: Library, db: Database, s: set<RowId>, keys: set<string>)
    ensures OnlyCascades(ChainEnv(lib), db, s) && OwnChildrenSelected(ChainEnv(lib), db, "p", keys)
  {
    hide KeyMatches, EqIgnoreAsciiCase;
  }

  lemma NotTheGrandchild(lib: Library, one: Value, two: Value)
    ensures var db := ChainRows(one, two);
            "d" !in ChildrenOf(lib, Reference("c", ChainKeys()[0]), "p", {"a"}, Chosen(RowsOf(db, "p"), {"a"}), RowsOf(db, "c"))
  {
    var d := StoredRow(two, "c", map["id" := two, "parent" := one]);
    assert RowsOf(ChainRows(one, two), "c")["d"] == d;
    forall p: Row ensures !KeyMatches(lib, d.data, ChainKeys()[0], p) { assert ValueOf(d.data, ChainKeys()[0].columns[0]) == Null; }
    hide KeyMatches, EqIgnoreAsciiCase;
  }

  lemma {:induction false} ChainStops(env: Env, db: Database, up: Reference)
    requires References(env, "p") == [up] && up.table == "c" && up.key.onDelete.Cascade?
    requires "a" in RowsOf(db, "p") && "d" in RowsOf(db, "c")
    requires "d" !in ChildrenOf(env.lib, up, "p", {"a"}, Chosen(RowsOf(db, "p"), {"a"}), RowsOf(db, "c"))
    requires Actions(env, db, "p", {"a"}, {}, Universe(db)).error.None?
    ensures "d" in RowsOf(Actions(env, db, "p", {"a"}, {}, Universe(db)).db, "c")
  {
    var parents := Chosen(RowsOf(db, "p"), {"a"});
    assert "a" in parents;
    hide Actions, One, ChildrenOf, Universe, References, Chosen, Within;
    OneReferenceActs(env, db, "p", {"a"}, Universe(db), up);
    OneElsewise(env, up, db, "p", {"a"}, parents, {}, Universe(db));
    var matching := ChildrenOf(env.lib, up, "p", {"a"}, parents, RowsOf(db, "c"));
    if matching != {} {
      var none: set<RowId> := {};
      var unseen := set k | k in matching && RowId("c", k) !in none;
      OneCascadeUnseen(env, up, db, "p", {"a"}, parents, none, Universe(db), unseen);
    }
  }
}
