/** Foreign keys: what they require, and the actions a parent DELETE sets off. */
module ForeignKeys {
  import opened Wrappers
  import opened Json
  import opened Catalog

  /** `order` is the order in which the schema table is iterated; it is arbitrary. */
  datatype Env = Env(lib: Library, schemas: Schemas, order: seq<string>)

  ghost predicate ValidEnv(env: Env) { forall t :: t in env.order <==> t in env.schemas }

  /** A foreign key together with the table that declares it. */
  datatype Reference = Reference(table: string, key: ForeignKey)

  function Matching(table: string, keys: seq<ForeignKey>, parent: string): seq<Reference> {
    if keys == [] then []
    else (if EqIgnoreAsciiCase(keys[0].referencedTable, parent) then [Reference(table, keys[0])] else []) + Matching(table, keys[1..], parent)
  }

  function ReferencesFrom(schemas: Schemas, order: seq<string>, parent: string): seq<Reference> {
    if order == [] then []
    else (if order[0] in schemas then Matching(order[0], schemas[order[0]].foreignKeys, parent) else []) + ReferencesFrom(schemas, order[1..], parent)
  }

  /** The foreign keys that reference `parent`, in iteration order. */
  function References(env: Env, parent: string): seq<Reference> { ReferencesFrom(env.schemas, env.order, parent) }

  predicate Refers(schemas: Schemas, ref: Reference, parent: string) {
    ref.table in schemas && ref.key in schemas[ref.table].foreignKeys && EqIgnoreAsciiCase(ref.key.referencedTable, parent)
  }

  lemma {:induction false} MatchingAre(table: string, keys: seq<ForeignKey>, parent: string, ref: Reference)
    ensures ref in Matching(table, keys, parent)
       <==> ref.table == table && ref.key in keys && EqIgnoreAsciiCase(ref.key.referencedTable, parent)
  {
    if keys != [] {
      MatchingAre(table, keys[1..], parent, ref);
      assert keys == [keys[0]] + keys[1..];
    }
  }

  lemma {:induction false} ReferencesFromAre(schemas: Schemas, order: seq<string>, parent: string, ref: Reference)
    ensures ref in ReferencesFrom(schemas, order, parent) <==> ref.table in order && Refers(schemas, ref, parent)
  {
    if order != [] {
      ReferencesFromAre(schemas, order[1..], parent, ref);
      if order[0] in schemas { MatchingAre(order[0], schemas[order[0]].foreignKeys, parent, ref); }
      assert order == [order[0]] + order[1..];
    }
  }

  lemma ReferencesAre(env: Env, parent: string, ref: Reference)
    requires ValidEnv(env)
    ensures ref in References(env, parent) <==> Refers(env.schemas, ref, parent)
  {
    ReferencesFromAre(env.schemas, env.order, parent, ref);
  }

  // ---------- matching and integrity ----------

  /** The match that deletes act on: all columns equal and not null. */
  predicate RowMatches(lib: Library, child: Row, childColumns: seq<string>, parent: Row, parentColumns: seq<string>) {
    |childColumns| == |parentColumns| && childColumns != []
    && forall i :: 0 <= i < |childColumns| ==>
         var c, p := ValueOf(child, childColumns[i]), ValueOf(parent, parentColumns[i]);
         c != Null && p != Null && lib.eq(c, p)
  }

  predicate KeyMatches(lib: Library, child: Row, key: ForeignKey, parent: Row) {
    RowMatches(lib, child, key.columns, parent, key.referencedColumns)
  }

  predicate NoneNull(data: Row, columns: seq<string>) {
    forall i :: 0 <= i < |columns| ==> ValueOf(data, columns[i]) != Null
  }

  ghost predicate HasParent(lib: Library, db: Database, key: ForeignKey, child: Row) {
    exists p :: p in RowsOf(db, key.referencedTable) && KeyMatches(lib, child, key, RowsOf(db, key.referencedTable)[p].data)
  }

  ghost predicate RowIntact(lib: Library, db: Database, key: ForeignKey, child: Row) {
    NoneNull(child, key.columns) ==> HasParent(lib, db, key, child)
  }

  /** Every row whose foreign-key columns are all non-null matches a live parent. */
  ghost predicate Integrity(env: Env, db: Database) {
    forall t, key, k :: t in env.schemas && key in env.schemas[t].foreignKeys && k in RowsOf(db, t)
      ==> RowIntact(env.lib, db, key, RowsOf(db, t)[k].data)
  }

  /** `rank` grows from parent to child, so the foreign-key graph has no cycle. */
  ghost predicate Ranked(schemas: Schemas, rank: string -> nat) {
    forall ref, t :: Refers(schemas, ref, t) ==> rank(t) < rank(ref.table)
  }

  /** A match depends on the columns of the key only. */
  lemma KeyMatchesByColumns(lib: Library, child: Row, child': Row, key: ForeignKey, parent: Row, parent': Row)
    requires KeyMatches(lib, child, key, parent)
    requires forall c :: c in key.columns ==> ValueOf(child', c) == ValueOf(child, c)
    requires forall c :: c in key.referencedColumns ==> ValueOf(parent', c) == ValueOf(parent, c)
    ensures KeyMatches(lib, child', key, parent')
  {
    forall i | 0 <= i < |key.columns|
      ensures ValueOf(child', key.columns[i]) == ValueOf(child, key.columns[i])
              && ValueOf(parent', key.referencedColumns[i]) == ValueOf(parent, key.referencedColumns[i])
    {
      assert key.columns[i] in key.columns && key.referencedColumns[i] in key.referencedColumns;
    }
  }

  lemma EqIgnoreRefl(t: string)
    ensures EqIgnoreAsciiCase(t, t)
  {
  }

  // ---------- the delete actions ----------

  datatype RowId = RowId(table: string, key: string)

  function RowIds(table: string, keys: set<string>): set<RowId> { set k | k in keys :: RowId(table, k) }

  /** The rows that exist are among `universe`. */
  ghost predicate Within(db: Database, universe: set<RowId>) {
    forall t, k :: k in RowsOf(db, t) ==> RowId(t, k) in universe
  }

  datatype Error = Restricted(name: string) | UnsupportedAction

  /** State after the actions; `writes` are the table states stored on the way. */
  datatype Outcome = Outcome(db: Database, visited: set<RowId>, error: Option<Error>, writes: seq<Database>)

  function Chosen(rows: TableRows, keys: set<string>): TableRows { map k | k in keys && k in rows :: rows[k] }

  /** Rows of the child table that a deleted parent row is matched by. Rows being deleted in the
      same step are passed over when the table references itself. */
  function ChildrenOf(lib: Library, ref: Reference, parent: string, keys: set<string>, parents: TableRows, children: TableRows): set<string> {
    set k | k in children && !(EqIgnoreAsciiCase(ref.table, parent) && k in keys)
            && exists p :: p in parents && KeyMatches(lib, children[k].data, ref.key, parents[p].data)
  }

  function NullColumns(data: Row, columns: seq<string>): Row {
    data + map c | c in columns :: Null
  }

  function NullRows(rows: TableRows, keys: set<string>, columns: seq<string>): TableRows {
    map k | k in rows :: if k in keys then rows[k].(data := NullColumns(rows[k].data, columns)) else rows[k]
  }

  lemma FewerUnvisited(universe: set<RowId>, visited: set<RowId>, more: set<RowId>)
    requires visited <= more
    ensures |universe - more| <= |universe - visited|
    ensures (exists r :: r in more && r !in visited && r in universe) ==> |universe - more| < |universe - visited|
  {
    var a, b := universe - more, universe - visited;
    assert a <= b;
    Subset(a, b);
    if r :| r in more && r !in visited && r in universe { Subset(a, b - {r}); }
  }

  lemma {:induction false} Subset<T>(a: set<T>, b: set<T>)
    requires a <= b
    ensures |a| <= |b|
    decreases a
  {
    if a != {} {
      var x :| x in a;
      Subset(a - {x}, b - {x});
    }
  }

  /** The rows of `keys` in `parent` are about to go: act on everything that references them. */
  ghost function Actions(env: Env, db: Database, parent: string, keys: set<string>, visited: set<RowId>, universe: set<RowId>): (o: Outcome)
    requires Within(db, universe)
    ensures visited <= o.visited && Within(o.db, universe)
    decreases |universe - visited|, |keys|, 2, 0
  {
    var parents := Chosen(RowsOf(db, parent), keys);
    if parents == map[] then Outcome(db, visited, None, [])
    else Each(env, References(env, parent), db, parent, keys, parents, visited, universe)
  }

  ghost function Each(env: Env, refs: seq<Reference>, db: Database, parent: string, keys: set<string>, parents: TableRows,
                      visited: set<RowId>, universe: set<RowId>): (o: Outcome)
    requires Within(db, universe) && keys != {}
    ensures visited <= o.visited && Within(o.db, universe)
    decreases |universe - visited|, |keys|, 1, |refs|
  {
    if refs == [] then Outcome(db, visited, None, [])
    else
      var o := One(env, refs[0], db, parent, keys, parents, visited, universe);
      if o.error.Some? then o
      else
        FewerUnvisited(universe, visited, o.visited);
        var rest := Each(env, refs[1..], o.db, parent, keys, parents, o.visited, universe);
        rest.(writes := o.writes + rest.writes)
  }

  ghost function One(env: Env, ref: Reference, db: Database, parent: string, keys: set<string>, parents: TableRows,
                     visited: set<RowId>, universe: set<RowId>): (o: Outcome)
    requires Within(db, universe) && keys != {}
    ensures visited <= o.visited && Within(o.db, universe)
    decreases |universe - visited|, |keys|, 0, 0
  {
    var children := RowsOf(db, ref.table);
    var matching := ChildrenOf(env.lib, ref, parent, keys, parents, children);
    if matching == {} then Outcome(db, visited, None, [])
    else
      match ref.key.onDelete
      case Cascade =>
        var unseen := set k | k in matching && RowId(ref.table, k) !in visited;
        var visited' := visited + RowIds(ref.table, unseen);
        FewerUnvisited(universe, visited, visited');
        UnseenMeasure(universe, visited, ref.table, unseen, keys);
        var below := Actions(env, db, ref.table, unseen, visited', universe);
        if below.error.Some? then below
        else
          WithinAfterWrite(db, below.db, ref.table, children - unseen, universe);
          var db' := below.db[ref.table := children - unseen];
          Outcome(db', below.visited, None, below.writes + [db'])
      case SetNull =>
        WithinAfterWrite(db, db, ref.table, NullRows(children, matching, ref.key.columns), universe);
        var db' := db[ref.table := NullRows(children, matching, ref.key.columns)];
        Outcome(db', visited, None, [db'])
      case Restrict => Outcome(db, visited, Some(Restricted(ref.key.name)), [])
      case Unsupported => Outcome(db, visited, Some(UnsupportedAction), [])
  }

  lemma WithinAfterWrite(db: Database, below: Database, table: string, rows: TableRows, universe: set<RowId>)
    requires Within(db, universe) && Within(below, universe) && rows.Keys <= RowsOf(db, table).Keys
    ensures Within(below[table := rows], universe)
  {
  }

  /** Either some row is newly visited, or the next key set is empty while this one is not. */
  lemma UnseenMeasure(universe: set<RowId>, visited: set<RowId>, table: string, unseen: set<string>, keys: set<string>)
    requires keys != {} && forall k :: k in unseen ==> RowId(table, k) in universe && RowId(table, k) !in visited
    ensures |universe - (visited + RowIds(table, unseen))| < |universe - visited| || |unseen| < |keys|
  {
    if unseen != {} {
      var k :| k in unseen;
      FewerUnvisited(universe, visited, visited + RowIds(table, unseen));
      assert RowId(table, k) in RowIds(table, unseen);
    }
  }

  // ---------- what the actions leave alone ----------

  ghost predicate Untouched(db: Database, db': Database, rank: string -> nat, r: nat) {
    forall t :: rank(t) <= r ==> RowsOf(db', t) == RowsOf(db, t)
  }

  ghost predicate Nulled(data: Row, data': Row) {
    forall c :: ValueOf(data', c) == ValueOf(data, c) || ValueOf(data', c) == Null
  }

  /** Rows only disappear or have columns nulled. */
  ghost predicate Shrunk(db: Database, db': Database) {
    forall t, k :: k in RowsOf(db', t) ==> k in RowsOf(db, t) && Nulled(RowsOf(db, t)[k].data, RowsOf(db', t)[k].data)
  }

  ghost predicate NewAbove(visited: set<RowId>, visited': set<RowId>, rank: string -> nat, r: nat) {
    forall v :: v in visited' && v !in visited ==> rank(v.table) > r
  }

  /** Visited rows of tables above rank `r` are gone already. */
  ghost predicate Settled(db: Database, visited: set<RowId>, rank: string -> nat, r: nat) {
    forall v :: v in visited && rank(v.table) > r ==> v.key !in RowsOf(db, v.table)
  }

  /** No row references any of `parents` through this key. */
  ghost predicate Unreferenced(lib: Library, db: Database, ref: Reference, parents: TableRows) {
    forall k, p :: k in RowsOf(db, ref.table) && p in parents ==> !KeyMatches(lib, RowsOf(db, ref.table)[k].data, ref.key, parents[p].data)
  }

  ghost predicate Framed(db: Database, o: Outcome, visited: set<RowId>, rank: string -> nat, r: nat) {
    && Untouched(db, o.db, rank, r) && Shrunk(db, o.db) && NewAbove(visited, o.visited, rank, r)
    && (o.error.None? ==> Settled(o.db, o.visited, rank, r))
  }

  lemma NulledMatchesLess(lib: Library, data: Row, data': Row, key: ForeignKey, parent: Row)
    requires Nulled(data, data') && KeyMatches(lib, data', key, parent)
    ensures KeyMatches(lib, data, key, parent)
  {
    forall i | 0 <= i < |key.columns| ensures ValueOf(data', key.columns[i]) == ValueOf(data, key.columns[i]) {}
  }

  lemma StaysUnreferenced(lib: Library, db: Database, db': Database, ref: Reference, parents: TableRows)
    requires Unreferenced(lib, db, ref, parents) && Shrunk(db, db')
    ensures Unreferenced(lib, db', ref, parents)
  {
    hide KeyMatches;
    forall k, p | k in RowsOf(db', ref.table) && p in parents
      ensures !KeyMatches(lib, RowsOf(db', ref.table)[k].data, ref.key, parents[p].data)
    {
      if KeyMatches(lib, RowsOf(db', ref.table)[k].data, ref.key, parents[p].data) {
        NulledMatchesLess(lib, RowsOf(db, ref.table)[k].data, RowsOf(db', ref.table)[k].data, ref.key, parents[p].data);
      }
    }
  }

  lemma ShrunkTransitive(a: Database, b: Database, c: Database)
    requires Shrunk(a, b) && Shrunk(b, c)
    ensures Shrunk(a, c)
  {
    hide Nulled;
    forall t, k | k in RowsOf(c, t) ensures k in RowsOf(a, t) && Nulled(RowsOf(a, t)[k].data, RowsOf(c, t)[k].data) {
      NulledTransitive(RowsOf(a, t)[k].data, RowsOf(b, t)[k].data, RowsOf(c, t)[k].data);
    }
  }

  lemma NulledTransitive(a: Row, b: Row, c: Row)
    requires Nulled(a, b) && Nulled(b, c)
    ensures Nulled(a, c)
  {
  }

  lemma ShrunkRefl(db: Database)
    ensures Shrunk(db, db)
  {
  }

  lemma NullRowsShrink(db: Database, t: string, keys: set<string>, columns: seq<string>)
    ensures Shrunk(db, db[t := NullRows(RowsOf(db, t), keys, columns)])
  {
  }

  lemma {:induction false} FrameActions(env: Env, db: Database, parent: string, keys: set<string>, visited: set<RowId>,
                                        universe: set<RowId>, rank: string -> nat)
    requires ValidEnv(env) && Ranked(env.schemas, rank) && Within(db, universe)
    requires Settled(db, visited, rank, rank(parent))
    ensures var o := Actions(env, db, parent, keys, visited, universe);
            Framed(db, o, visited, rank, rank(parent))
            && (o.error.None? ==> forall ref :: Refers(env.schemas, ref, parent) ==>
                  Unreferenced(env.lib, o.db, ref, Chosen(RowsOf(db, parent), keys)))
    decreases |universe - visited|, |keys|, 2, 0
  {
    var parents := Chosen(RowsOf(db, parent), keys);
    if parents == map[] {
      ShrunkRefl(db);
    } else {
      var refs := References(env, parent);
      forall ref { ReferencesAre(env, parent, ref); }
      assert keys != {};
      FrameEach(env, refs, db, parent, keys, parents, visited, universe, rank);
    }
  }

  lemma FramedThen(db: Database, o: Outcome, visited: set<RowId>, rest: Outcome, rank: string -> nat, r: nat)
    requires Framed(db, o, visited, rank, r) && Framed(o.db, rest, o.visited, rank, r)
    ensures Framed(db, rest, visited, rank, r) && Framed(db, rest.(writes := o.writes + rest.writes), visited, rank, r)
  {
    hide Shrunk;
    ShrunkTransitive(db, o.db, rest.db);
  }

  lemma {:induction false} FrameEach(env: Env, refs: seq<Reference>, db: Database, parent: string, keys: set<string>,
                                     parents: TableRows, visited: set<RowId>, universe: set<RowId>, rank: string -> nat)
    requires ValidEnv(env) && Ranked(env.schemas, rank) && Within(db, universe) && keys != {}
    requires Settled(db, visited, rank, rank(parent))
    requires forall ref :: ref in refs ==> Refers(env.schemas, ref, parent)
    ensures var o := Each(env, refs, db, parent, keys, parents, visited, universe);
            Framed(db, o, visited, rank, rank(parent))
            && (o.error.None? ==> forall ref :: ref in refs ==> Unreferenced(env.lib, o.db, ref, parents))
    decreases |universe - visited|, |keys|, 1, |refs|
  {
    hide Unreferenced, Refers, Ranked, One, Within;
    ShrunkRefl(db);
    hide Shrunk;
    if refs != [] {
      hide Settled, Untouched, NewAbove;
      var o := One(env, refs[0], db, parent, keys, parents, visited, universe);
      FrameOne(env, refs[0], db, parent, keys, parents, visited, universe, rank);
      if o.error.None? {
        FewerUnvisited(universe, visited, o.visited);
        var rest := Each(env, refs[1..], o.db, parent, keys, parents, o.visited, universe);
        FrameEach(env, refs[1..], o.db, parent, keys, parents, o.visited, universe, rank);
        FramedThen(db, o, visited, rest, rank, rank(parent));
        if rest.error.None? {
          StaysUnreferenced(env.lib, o.db, rest.db, refs[0], parents);
          assert refs == [refs[0]] + refs[1..];
        }
      }
    }
  }

  lemma {:induction false} FrameOne(env: Env, ref: Reference, db: Database, parent: string, keys: set<string>,
                                    parents: TableRows, visited: set<RowId>, universe: set<RowId>, rank: string -> nat)
    requires ValidEnv(env) && Ranked(env.schemas, rank) && Within(db, universe) && keys != {}
    requires Settled(db, visited, rank, rank(parent)) && Refers(env.schemas, ref, parent)
    ensures var o := One(env, ref, db, parent, keys, parents, visited, universe);
            Framed(db, o, visited, rank, rank(parent))
            && (o.error.None? ==> Unreferenced(env.lib, o.db, ref, parents))
    decreases |universe - visited|, |keys|, 0, 1
  {
    var children := RowsOf(db, ref.table);
    var matching := ChildrenOf(env.lib, ref, parent, keys, parents, children);
    assert rank(parent) < rank(ref.table);
    NoSelfReference(env.schemas, ref, parent, rank);
    ShrunkRefl(db);
    if matching == {} {
      UnmatchedIsUnreferenced(env.lib, ref, parent, keys, parents, db, db, matching);
    } else if ref.key.onDelete.Cascade? {
      FrameCascade(env, ref, db, parent, keys, parents, visited, universe, rank, matching);
    } else if ref.key.onDelete.SetNull? {
      var db' := db[ref.table := NullRows(children, matching, ref.key.columns)];
      NullRowsShrink(db, ref.table, matching, ref.key.columns);
      NulledIsUnreferenced(env.lib, ref, parent, keys, parents, db);
    }
  }

  /** On a ranked graph a key never references its own table. */
  lemma NoSelfReference(schemas: Schemas, ref: Reference, parent: string, rank: string -> nat)
    requires Ranked(schemas, rank) && Refers(schemas, ref, parent)
    ensures !EqIgnoreAsciiCase(ref.table, parent)
  {
    if EqIgnoreAsciiCase(ref.table, parent) {
      assert Refers(schemas, ref, ref.table);
    }
  }

  lemma UnmatchedIsUnreferenced(lib: Library, ref: Reference, parent: string, keys: set<string>, parents: TableRows,
                                db: Database, db': Database, matching: set<string>)
    requires !EqIgnoreAsciiCase(ref.table, parent)
    requires matching == ChildrenOf(lib, ref, parent, keys, parents, RowsOf(db, ref.table))
    requires forall k :: k in RowsOf(db', ref.table) ==>
               k in RowsOf(db, ref.table) && k !in matching && RowsOf(db', ref.table)[k].data == RowsOf(db, ref.table)[k].data
    ensures Unreferenced(lib, db', ref, parents)
  {
    hide KeyMatches;
  }

  lemma NulledIsUnreferenced(lib: Library, ref: Reference, parent: string, keys: set<string>, parents: TableRows, db: Database)
    requires !EqIgnoreAsciiCase(ref.table, parent)
    ensures var children := RowsOf(db, ref.table);
            var matching := ChildrenOf(lib, ref, parent, keys, parents, children);
            Unreferenced(lib, db[ref.table := NullRows(children, matching, ref.key.columns)], ref, parents)
  {
    var children := RowsOf(db, ref.table);
    var matching := ChildrenOf(lib, ref, parent, keys, parents, children);
    var rows' := NullRows(children, matching, ref.key.columns);
    forall k, p | k in rows' && p in parents ensures !KeyMatches(lib, rows'[k].data, ref.key, parents[p].data) {
      if k in matching && ref.key.columns != [] {
        assert ref.key.columns[0] in ref.key.columns;
        assert ValueOf(rows'[k].data, ref.key.columns[0]) == Null;
      }
    }
  }

  lemma {:induction false} FrameCascade(env: Env, ref: Reference, db: Database, parent: string, keys: set<string>,
                                        parents: TableRows, visited: set<RowId>, universe: set<RowId>, rank: string -> nat,
                                        matching: set<string>)
    requires ValidEnv(env) && Ranked(env.schemas, rank) && Within(db, universe) && keys != {}
    requires Settled(db, visited, rank, rank(parent)) && Refers(env.schemas, ref, parent)
    requires rank(parent) < rank(ref.table) && !EqIgnoreAsciiCase(ref.table, parent)
    requires matching == ChildrenOf(env.lib, ref, parent, keys, parents, RowsOf(db, ref.table))
    requires matching != {} && ref.key.onDelete.Cascade?
    ensures var o := One(env, ref, db, parent, keys, parents, visited, universe);
            Framed(db, o, visited, rank, rank(parent))
            && (o.error.None? ==> Unreferenced(env.lib, o.db, ref, parents))
    decreases |universe - visited|, |keys|, 0, 0
  {
    forall k | k in matching ensures RowId(ref.table, k) !in visited {}
    OneCascade(env, ref, db, parent, keys, parents, visited, universe, matching);
    hide One, Framed, Settled, Unreferenced, Refers, Ranked, ChildrenOf;
    var visited' := visited + RowIds(ref.table, matching);
    var below := Actions(env, db, ref.table, matching, visited', universe);
    assert Settled(db, visited', rank, rank(ref.table)) by {
      SettledAbove(db, visited, ref.table, matching, rank, rank(parent));
    }
    FrameActions(env, db, ref.table, matching, visited', universe, rank);
    FrameBelow(env.lib, ref, db, parent, keys, parents, visited, rank, matching, below);
  }

  lemma SettledAbove(db: Database, visited: set<RowId>, table: string, keys: set<string>, rank: string -> nat, r: nat)
    requires Settled(db, visited, rank, r) && r < rank(table)
    ensures Settled(db, visited + RowIds(table, keys), rank, rank(table))
  {
  }

  /** The cascade step: recur on the rows not visited yet, then remove them from the snapshot of
      the child table taken before. */
  lemma {:induction false} OneCascadeUnseen(env: Env, ref: Reference, db: Database, parent: string, keys: set<string>, parents: TableRows,
                                            visited: set<RowId>, universe: set<RowId>, unseen: set<string>)
    requires Within(db, universe) && keys != {} && ref.key.onDelete.Cascade?
    requires ChildrenOf(env.lib, ref, parent, keys, parents, RowsOf(db, ref.table)) != {}
    requires unseen == set k | k in ChildrenOf(env.lib, ref, parent, keys, parents, RowsOf(db, ref.table)) && RowId(ref.table, k) !in visited
    ensures |universe - (visited + RowIds(ref.table, unseen))| <= |universe - visited|
    ensures |universe - (visited + RowIds(ref.table, unseen))| < |universe - visited| || |unseen| < |keys|
    ensures var below := Actions(env, db, ref.table, unseen, visited + RowIds(ref.table, unseen), universe);
            One(env, ref, db, parent, keys, parents, visited, universe)
            == if below.error.Some? then below
               else var db' := below.db[ref.table := RowsOf(db, ref.table) - unseen];
                    Outcome(db', below.visited, None, below.writes + [db'])
  {
    FewerUnvisited(universe, visited, visited + RowIds(ref.table, unseen));
    UnseenMeasure(universe, visited, ref.table, unseen, keys);
    hide Actions, ChildrenOf, Within;
  }

  lemma {:induction false} OneCascade(env: Env, ref: Reference, db: Database, parent: string, keys: set<string>, parents: TableRows,
                                      visited: set<RowId>, universe: set<RowId>, matching: set<string>)
    requires Within(db, universe) && keys != {} && ref.key.onDelete.Cascade? && matching != {}
    requires matching == ChildrenOf(env.lib, ref, parent, keys, parents, RowsOf(db, ref.table))
    requires forall k :: k in matching ==> RowId(ref.table, k) !in visited
    ensures |universe - (visited + RowIds(ref.table, matching))| < |universe - visited|
    ensures var below := Actions(env, db, ref.table, matching, visited + RowIds(ref.table, matching), universe);
            One(env, ref, db, parent, keys, parents, visited, universe)
            == if below.error.Some? then below
               else var db' := below.db[ref.table := RowsOf(db, ref.table) - matching];
                    Outcome(db', below.visited, None, below.writes + [db'])
  {
    hide Actions, One;
    assert (set j | j in matching && RowId(ref.table, j) !in visited) == matching;
    OneCascadeUnseen(env, ref, db, parent, keys, parents, visited, universe, matching);
    var k :| k in matching;
    assert RowId(ref.table, k) in RowIds(ref.table, matching) && RowId(ref.table, k) in universe;
    FewerUnvisited(universe, visited, visited + RowIds(ref.table, matching));
  }

  /** The actions that stop at the child table. */
  lemma {:induction false} OneElsewise(env: Env, ref: Reference, db: Database, parent: string, keys: set<string>, parents: TableRows,
                                       visited: set<RowId>, universe: set<RowId>)
    requires Within(db, universe) && keys != {}
    ensures var matching := ChildrenOf(env.lib, ref, parent, keys, parents, RowsOf(db, ref.table));
            var o := One(env, ref, db, parent, keys, parents, visited, universe);
            var db' := db[ref.table := NullRows(RowsOf(db, ref.table), matching, ref.key.columns)];
            && (matching == {} ==> o == Outcome(db, visited, None, []))
            && (matching != {} && ref.key.onDelete.SetNull? ==> o == Outcome(db', visited, None, [db']))
            && (matching != {} && ref.key.onDelete.Restrict? ==> o == Outcome(db, visited, Some(Restricted(ref.key.name)), []))
            && (matching != {} && ref.key.onDelete.Unsupported? ==> o == Outcome(db, visited, Some(UnsupportedAction), []))
  {
    hide Actions, ChildrenOf, NullRows;
  }

  lemma FrameBelow(lib: Library, ref: Reference, db: Database, parent: string, keys: set<string>, parents: TableRows,
                   visited: set<RowId>, rank: string -> nat, matching: set<string>, below: Outcome)
    requires rank(parent) < rank(ref.table) && !EqIgnoreAsciiCase(ref.table, parent)
    requires matching == ChildrenOf(lib, ref, parent, keys, parents, RowsOf(db, ref.table))
    requires Settled(db, visited, rank, rank(parent))
    requires Framed(db, below, visited + RowIds(ref.table, matching), rank, rank(ref.table))
    requires visited + RowIds(ref.table, matching) <= below.visited
    ensures var db' := below.db[ref.table := RowsOf(db, ref.table) - matching];
            var o := if below.error.Some? then below else Outcome(db', below.visited, None, below.writes + [db']);
            Framed(db, o, visited, rank, rank(parent)) && (o.error.None? ==> Unreferenced(lib, o.db, ref, parents))
  {
    if below.error.None? {
      CascadeStep(lib, ref, db, parent, keys, parents, visited, rank, matching, below);
    }
    hide Shrunk, Unreferenced, ChildrenOf;
  }

  /** After the rows below the matching ones are dealt with, the matching ones go too. */
  lemma CascadeStep(lib: Library, ref: Reference, db: Database, parent: string, keys: set<string>, parents: TableRows,
                    visited: set<RowId>, rank: string -> nat, matching: set<string>, below: Outcome)
    requires rank(parent) < rank(ref.table) && !EqIgnoreAsciiCase(ref.table, parent)
    requires matching == ChildrenOf(lib, ref, parent, keys, parents, RowsOf(db, ref.table))
    requires Settled(db, visited, rank, rank(parent))
    requires Framed(db, below, visited + RowIds(ref.table, matching), rank, rank(ref.table)) && below.error.None?
    requires visited + RowIds(ref.table, matching) <= below.visited
    ensures var db' := below.db[ref.table := RowsOf(db, ref.table) - matching];
            Untouched(db, db', rank, rank(parent)) && Shrunk(db, db') && NewAbove(visited, below.visited, rank, rank(parent))
            && Settled(db', below.visited, rank, rank(parent)) && Unreferenced(lib, db', ref, parents)
  {
    var children := RowsOf(db, ref.table);
    var db' := below.db[ref.table := children - matching];
    assert RowsOf(below.db, ref.table) == children;
    ShrinkRows(below.db, ref.table, matching);
    ShrunkTransitive(db, below.db, db');
    hide Shrunk;
    UnmatchedIsUnreferenced(lib, ref, parent, keys, parents, db, db', matching);
    hide ChildrenOf;
    forall v | v in below.visited && rank(v.table) > rank(parent) ensures v.key !in RowsOf(db', v.table) {
      if v.table == ref.table {
        if v in visited {} else { assert v in RowIds(ref.table, matching); }
      } else if rank(v.table) <= rank(ref.table) {
        assert v in visited;
      }
    }
  }

  lemma ShrinkRows(db: Database, t: string, keys: set<string>)
    ensures Shrunk(db, db[t := RowsOf(db, t) - keys])
  {
  }
}
