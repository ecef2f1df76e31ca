/** The actions a parent UPDATE sets off, and integrity after it. */
module ParentUpdate {
  import opened Wrappers
  import opened Json
  import opened Catalog
  import opened ForeignKeys

  /** The data of an updated parent row before and after. */
  datatype Change = Change(before: Row, after: Row)

  function MinLen(a: nat, b: nat): nat { if a <= b then a else b }

  /** The columns, as far as there are values, hold values equal to them and not null. */
  predicate ChildMatches(lib: Library, child: Row, columns: seq<string>, values: seq<Value>) {
    forall i :: 0 <= i < MinLen(|columns|, |values|) ==>
      ValueOf(child, columns[i]) != Null && lib.eq(ValueOf(child, columns[i]), values[i])
  }

  /** The change alters the referenced values, and this child row refers to the old ones. */
  predicate Hit(lib: Library, key: ForeignKey, change: Change, child: Row) {
    && Values(change.before, key.referencedColumns) != Values(change.after, key.referencedColumns)
    && ChildMatches(lib, child, key.columns, Values(change.before, key.referencedColumns))
  }

  function NewValues(key: ForeignKey, change: Change): seq<Value> {
    if key.onUpdate.Cascade? then Values(change.after, key.referencedColumns)
    else seq(|key.columns|, _ => Null)
  }

  function Assigned(data: Row, columns: seq<string>, values: seq<Value>): Row
    decreases |columns|
  {
    if columns == [] || values == [] then data
    else Assigned(data[columns[0] := values[0]], columns[1..], values[1..])
  }

  /** One key's changes to a row, in order; whether they apply is decided by the row before. */
  function AfterKey(lib: Library, key: ForeignKey, changes: seq<Change>, before: Row, data: Row): Row {
    if changes == [] then data
    else
      var so := AfterKey(lib, key, changes[..|changes| - 1], before, data);
      if Hit(lib, key, changes[|changes| - 1], before) then Assigned(so, key.columns, NewValues(key, changes[|changes| - 1])) else so
  }

  /** All keys' changes to a row of `table`. */
  function AfterKeys(lib: Library, refs: seq<Reference>, changes: seq<Change>, table: string, before: Row, data: Row): Row {
    if refs == [] then data
    else
      var so := AfterKeys(lib, refs[..|refs| - 1], changes, table, before, data);
      if refs[|refs| - 1].table == table then AfterKey(lib, refs[|refs| - 1].key, changes, before, so) else so
  }

  /** The keys of other tables that reference the parent. */
  function OtherReferences(env: Env, parent: string): seq<Reference> { Others(References(env, parent), parent) }

  function Others(refs: seq<Reference>, parent: string): seq<Reference> {
    if refs == [] then []
    else (if EqIgnoreAsciiCase(refs[0].table, parent) then [] else [refs[0]]) + Others(refs[1..], parent)
  }

  lemma {:induction false} OthersAre(refs: seq<Reference>, parent: string, ref: Reference)
    ensures ref in Others(refs, parent) <==> ref in refs && !EqIgnoreAsciiCase(ref.table, parent)
  {
    if refs != [] {
      OthersAre(refs[1..], parent, ref);
      assert refs == [refs[0]] + refs[1..];
    }
  }

  /** A RESTRICT key, or one with an unknown action, refers to old values. */
  ghost predicate Blocked(env: Env, db: Database, parent: string, changes: seq<Change>) {
    exists ref, i, k :: ref in OtherReferences(env, parent) && 0 <= i < |changes| && k in RowsOf(db, ref.table)
      && (ref.key.onUpdate.Restrict? || ref.key.onUpdate.Unsupported?)
      && Hit(env.lib, ref.key, changes[i], RowsOf(db, ref.table)[k].data)
  }

  function RowsAfter(env: Env, rows: TableRows, parent: string, changes: seq<Change>, table: string): TableRows {
    map k | k in rows :: rows[k].(data := AfterKeys(env.lib, OtherReferences(env, parent), changes, table, rows[k].data, rows[k].data))
  }

  /** The children after the actions; everything is computed from the children before. */
  function ChildrenAfter(env: Env, db: Database, parent: string, changes: seq<Change>): Database {
    map t | t in db :: RowsAfter(env, db[t], parent, changes, t)
  }

  // ---------- the row check of INSERT and UPDATE ----------

  function View(env: Env, table: string, data: Row): Row {
    if table in env.schemas then env.lib.view(env.schemas[table], data) else data
  }

  predicate ViewMatches(lib: Library, parent: Row, key: ForeignKey, child: Row) {
    forall i :: 0 <= i < MinLen(|key.referencedColumns|, |key.columns|) ==>
      key.referencedColumns[i] in parent && lib.eq(parent[key.referencedColumns[i]], ValueOf(child, key.columns[i]))
  }

  predicate KeyAccepts(env: Env, db: Database, key: ForeignKey, data: Row) {
    NoneNull(data, key.columns) ==>
      exists p :: p in RowsOf(db, key.referencedTable)
                  && ViewMatches(env.lib, View(env, key.referencedTable, RowsOf(db, key.referencedTable)[p].data), key, data)
  }

  predicate ForeignKeysAccept(env: Env, db: Database, table: string, data: Row) {
    table in env.schemas ==> forall key :: key in env.schemas[table].foreignKeys ==> KeyAccepts(env, db, key, data)
  }

  // ---------- schemas on which UPDATE keeps integrity ----------

  predicate Distinct(columns: seq<string>) { forall i, j :: 0 <= i < j < |columns| ==> columns[i] != columns[j] }

  predicate DisjointColumns(a: seq<string>, b: seq<string>) { forall c :: c in a ==> c !in b }

  ghost predicate KeysWellFormed(schemas: Schemas) {
    forall t, key :: t in schemas && key in schemas[t].foreignKeys ==>
      |key.columns| == |key.referencedColumns| && key.columns != [] && Distinct(key.columns)
  }

  ghost predicate KeysDisjoint(schemas: Schemas) {
    forall t, key, key' :: t in schemas && key in schemas[t].foreignKeys && key' in schemas[t].foreignKeys && key != key'
      ==> DisjointColumns(key.columns, key'.columns)
  }

  /** Columns of a key on `parent` are not referenced themselves. */
  ghost predicate ChildColumnsUnreferenced(schemas: Schemas, parent: string) {
    forall ref, ref' :: Refers(schemas, ref, parent) && Refers(schemas, ref', ref.table)
      ==> DisjointColumns(ref.key.columns, ref'.key.referencedColumns)
  }

  /** Keys name their table exactly: no other spelling of the parent's name is referenced. */
  ghost predicate NamesExact(schemas: Schemas, parent: string) {
    forall ref :: Refers(schemas, ref, parent) ==> ref.key.referencedTable == parent
  }

  /** Some foreign key references this column. */
  ghost predicate RefColumn(schemas: Schemas, t: string, c: string) {
    exists r, key :: r in schemas && key in schemas[r].foreignKeys && key.referencedTable == t && c in key.referencedColumns
  }

  /** The current schema shows the referenced columns of the row as they are stored. */
  ghost predicate ShownRow(env: Env, t: string, data: Row) {
    forall c :: RefColumn(env.schemas, t, c) ==> ValueOf(View(env, t, data), c) == ValueOf(data, c)
  }

  ghost predicate Shown(env: Env, db: Database) {
    forall t, k :: k in RowsOf(db, t) ==> ShownRow(env, t, RowsOf(db, t)[k].data)
  }

  ghost predicate GoodSchemas(env: Env, parent: string, rank: string -> nat) {
    && ValidEnv(env) && SqlEquality(env.lib) && Ranked(env.schemas, rank)
    && KeysWellFormed(env.schemas) && KeysDisjoint(env.schemas)
    && ChildColumnsUnreferenced(env.schemas, parent) && NamesExact(env.schemas, parent)
  }

  // ---------- what the actions do to a row ----------

  lemma {:induction false} AssignedElsewhere(data: Row, columns: seq<string>, values: seq<Value>, c: string)
    requires c !in columns
    ensures SameAt(Assigned(data, columns, values), data, c)
    decreases |columns|
  {
    if columns != [] && values != [] {
      assert columns == [columns[0]] + columns[1..];
      AssignedElsewhere(data[columns[0] := values[0]], columns[1..], values[1..], c);
    }
  }

  lemma {:induction false} AssignedThere(data: Row, columns: seq<string>, values: seq<Value>, i: nat)
    requires Distinct(columns) && |columns| == |values| && i < |columns|
    ensures ValueOf(Assigned(data, columns, values), columns[i]) == values[i]
    decreases |columns|
  {
    var data' := data[columns[0] := values[0]];
    if i == 0 {
      assert columns[0] !in columns[1..];
      AssignedElsewhere(data', columns[1..], values[1..], columns[0]);
    } else {
      AssignedThere(data', columns[1..], values[1..], i - 1);
    }
  }

  lemma {:induction false} AfterKeyElsewhere(lib: Library, key: ForeignKey, changes: seq<Change>, before: Row, data: Row, c: string)
    requires c !in key.columns
    ensures SameAt(AfterKey(lib, key, changes, before, data), data, c)
    decreases |changes|
  {
    hide Hit, Assigned, NewValues;
    if changes != [] {
      var n := |changes| - 1;
      AfterKeyElsewhere(lib, key, changes[..n], before, data, c);
      AssignedElsewhere(AfterKey(lib, key, changes[..n], before, data), key.columns, NewValues(key, changes[n]), c);
    }
  }

  /** The row is hit by change `i` and by none after it. */
  ghost predicate LastHit(lib: Library, key: ForeignKey, changes: seq<Change>, before: Row, i: int) {
    0 <= i < |changes| && Hit(lib, key, changes[i], before) && forall j :: i < j < |changes| ==> !Hit(lib, key, changes[j], before)
  }

  ghost predicate NoHit(lib: Library, key: ForeignKey, changes: seq<Change>, before: Row) {
    forall i :: 0 <= i < |changes| ==> !Hit(lib, key, changes[i], before)
  }

  /** The key's columns are as they were if no change hits the row, and else as the last change
      that hits it says. */
  ghost predicate Settles(lib: Library, key: ForeignKey, changes: seq<Change>, before: Row, data: Row) {
    if NoHit(lib, key, changes, before)
    then forall c :: c in key.columns ==> ValueOf(data, c) == ValueOf(before, c)
    else exists i :: LastHit(lib, key, changes, before, i) && Holds(key, changes[i], data)
  }

  ghost predicate Holds(key: ForeignKey, change: Change, data: Row) {
    |NewValues(key, change)| == |key.columns| && forall j :: 0 <= j < |key.columns| ==> ValueOf(data, key.columns[j]) == NewValues(key, change)[j]
  }

  lemma HitSettles(lib: Library, key: ForeignKey, changes: seq<Change>, before: Row, so: Row)
    requires |key.columns| == |key.referencedColumns| && Distinct(key.columns)
    requires changes != [] && Hit(lib, key, changes[|changes| - 1], before)
    ensures Settles(lib, key, changes, before, Assigned(so, key.columns, NewValues(key, changes[|changes| - 1])))
  {
    hide Hit, Assigned;
    var n := |changes| - 1;
    var values := NewValues(key, changes[n]);
    forall j | 0 <= j < |key.columns| ensures ValueOf(Assigned(so, key.columns, values), key.columns[j]) == values[j] {
      AssignedThere(so, key.columns, values, j);
    }
    assert LastHit(lib, key, changes, before, n) && Holds(key, changes[n], Assigned(so, key.columns, values));
  }

  lemma MissSettles(lib: Library, key: ForeignKey, changes: seq<Change>, before: Row, so: Row)
    requires changes != [] && !Hit(lib, key, changes[|changes| - 1], before)
    requires Settles(lib, key, changes[..|changes| - 1], before, so)
    ensures Settles(lib, key, changes, before, so)
  {
    hide Hit, Holds;
    var front := changes[..|changes| - 1];
    forall i | 0 <= i < |front| ensures front[i] == changes[i] {}
    if i :| LastHit(lib, key, front, before, i) && Holds(key, front[i], so) {
      assert LastHit(lib, key, changes, before, i) && Holds(key, changes[i], so);
    }
  }

  /** Where some change hits, it does not matter what the columns were. */
  lemma {:induction false} AfterKeySettles(lib: Library, key: ForeignKey, changes: seq<Change>, before: Row, data: Row)
    requires |key.columns| == |key.referencedColumns| && Distinct(key.columns)
    requires NoHit(lib, key, changes, before) ==> forall c :: c in key.columns ==> ValueOf(data, c) == ValueOf(before, c)
    ensures Settles(lib, key, changes, before, AfterKey(lib, key, changes, before, data))
    decreases |changes|
  {
    if changes != [] {
      var n := |changes| - 1;
      if Hit(lib, key, changes[n], before) {
        HitSettles(lib, key, changes, before, AfterKey(lib, key, changes[..n], before, data));
      } else {
        FrontHits(lib, key, changes, before);
        hide Hit, Assigned, NewValues, Settles, Distinct, NoHit;
        AfterKeySettles(lib, key, changes[..n], before, data);
        MissSettles(lib, key, changes, before, AfterKey(lib, key, changes[..n], before, data));
      }
    }
  }

  lemma FrontHits(lib: Library, key: ForeignKey, changes: seq<Change>, before: Row)
    requires changes != [] && !Hit(lib, key, changes[|changes| - 1], before)
    ensures NoHit(lib, key, changes[..|changes| - 1], before) ==> NoHit(lib, key, changes, before)
  {
    hide Hit;
    var front := changes[..|changes| - 1];
    forall i | 0 <= i < |front| ensures front[i] == changes[i] {}
  }

  /** Columns that no key in the list assigns are left alone. */
  lemma {:induction false} AfterKeysElsewhere(lib: Library, refs: seq<Reference>, changes: seq<Change>, table: string, before: Row, data: Row, c: string)
    requires forall ref :: ref in refs && ref.table == table ==> c !in ref.key.columns
    ensures SameAt(AfterKeys(lib, refs, changes, table, before, data), data, c)
    decreases |refs|
  {
    hide AfterKey;
    if refs != [] {
      var n := |refs| - 1;
      var so := AfterKeys(lib, refs[..n], changes, table, before, data);
      assert refs[n] in refs;
      AfterKeysElsewhere(lib, refs[..n], changes, table, before, data, c);
      if refs[n].table == table { AfterKeyElsewhere(lib, refs[n].key, changes, before, so, c); }
    }
  }

  lemma SettlesByColumns(lib: Library, key: ForeignKey, changes: seq<Change>, before: Row, data: Row, data': Row)
    requires Settles(lib, key, changes, before, data)
    requires forall c :: c in key.columns ==> ValueOf(data', c) == ValueOf(data, c)
    ensures Settles(lib, key, changes, before, data')
  {
    hide Hit, NewValues;
    if !NoHit(lib, key, changes, before) {
      var i :| LastHit(lib, key, changes, before, i) && Holds(key, changes[i], data);
      assert Holds(key, changes[i], data');
    }
  }

  lemma {:induction false} AfterSettling(lib: Library, key: ForeignKey, changes: seq<Change>, before: Row, so: Row, settled: bool)
    requires |key.columns| == |key.referencedColumns| && Distinct(key.columns)
    requires if settled then Settles(lib, key, changes, before, so) else forall c :: c in key.columns ==> ValueOf(so, c) == ValueOf(before, c)
    ensures Settles(lib, key, changes, before, AfterKey(lib, key, changes, before, so))
  {
    AfterKeySettles(lib, key, changes, before, so);
  }

  /** Whatever the other keys of the table do, each key's columns settle. */
  lemma {:induction false} EveryKeySettles(lib: Library, refs: seq<Reference>, changes: seq<Change>, ref: Reference, before: Row)
    requires |ref.key.columns| == |ref.key.referencedColumns| && Distinct(ref.key.columns)
    requires forall r :: r in refs && r.table == ref.table && r.key != ref.key ==> DisjointColumns(ref.key.columns, r.key.columns)
    ensures var after := AfterKeys(lib, refs, changes, ref.table, before, before);
            if ref in refs then Settles(lib, ref.key, changes, before, after)
            else forall c :: c in ref.key.columns ==> ValueOf(after, c) == ValueOf(before, c)
    decreases |refs|
  {
    hide AfterKey, Settles, Distinct;
    if refs != [] {
      var n := |refs| - 1;
      var so := AfterKeys(lib, refs[..n], changes, ref.table, before, before);
      assert refs == refs[..n] + [refs[n]];
      EveryKeySettles(lib, refs[..n], changes, ref, before);
      if refs[n].table == ref.table {
        if refs[n].key == ref.key {
          assert refs[n] == ref;
          AfterSettling(lib, ref.key, changes, before, so, ref in refs[..n]);
        } else {
          var after := AfterKey(lib, refs[n].key, changes, before, so);
          forall c | c in ref.key.columns ensures ValueOf(after, c) == ValueOf(so, c) {
            AfterKeyElsewhere(lib, refs[n].key, changes, before, so, c);
          }
          if ref in refs[..n] { SettlesByColumns(lib, ref.key, changes, before, so, after); }
        }
      }
    }
  }

  // ---------- integrity after the update ----------

  ghost predicate Kept(data: Row, rows: TableRows) { exists k :: k in rows && rows[k].data == data }

  /** `rows'` replaces `rows`: every row is kept with its data, or a change records what became of
      it; every new row has the data of an old one or passes the row check. */
  ghost predicate Replaces(env: Env, db: Database, parent: string, rows': TableRows, changes: seq<Change>) {
    var rows := RowsOf(db, parent);
    && (forall p :: p in rows ==> Kept(rows[p].data, rows') || exists i :: 0 <= i < |changes| && changes[i].before == rows[p].data)
    && (forall i :: 0 <= i < |changes| ==> Kept(changes[i].after, rows'))
    && (forall k :: k in rows' ==> Kept(rows'[k].data, rows) || ForeignKeysAccept(env, db, parent, rows'[k].data))
  }

  /** The tables after a successful parent update. */
  ghost function Updated(env: Env, db: Database, parent: string, rows': TableRows, changes: seq<Change>): Database {
    ChildrenAfter(env, db, parent, changes)[parent := rows']
  }

  lemma UpdatedRows(env: Env, db: Database, parent: string, rows': TableRows, changes: seq<Change>, t: string)
    ensures RowsOf(Updated(env, db, parent, rows', changes), t)
         == if t == parent then rows' else RowsAfter(env, RowsOf(db, t), parent, changes, t)
  {
    hide AfterKeys;
  }

  lemma OtherReferencesAre(env: Env, parent: string, ref: Reference, rank: string -> nat)
    requires ValidEnv(env) && Ranked(env.schemas, rank)
    ensures ref in OtherReferences(env, parent) <==> Refers(env.schemas, ref, parent)
  {
    OthersAre(References(env, parent), parent, ref);
    ReferencesAre(env, parent, ref);
    if Refers(env.schemas, ref, parent) { NoSelfReference(env.schemas, ref, parent, rank); }
  }

  /** Columns that no key on the parent contains are unchanged in the children. */
  lemma {:induction false} ColumnUnchanged(env: Env, parent: string, changes: seq<Change>, t: string, data: Row, c: string, rank: string -> nat)
    requires ValidEnv(env) && Ranked(env.schemas, rank)
    requires forall ref :: Refers(env.schemas, ref, parent) && ref.table == t ==> c !in ref.key.columns
    ensures SameAt(AfterKeys(env.lib, OtherReferences(env, parent), changes, t, data, data), data, c)
  {
    var refs := OtherReferences(env, parent);
    forall ref | ref in refs && ref.table == t ensures c !in ref.key.columns { OtherReferencesAre(env, parent, ref, rank); }
    AfterKeysElsewhere(env.lib, refs, changes, t, data, data, c);
  }

  /** A key on a table other than the updated one keeps its parents. */
  lemma OtherParentsStay(env: Env, db: Database, parent: string, rows': TableRows, changes: seq<Change>, t: string, key: ForeignKey,
                         child: Row, child': Row, rank: string -> nat)
    requires GoodSchemas(env, parent, rank) && t in env.schemas && key in env.schemas[t].foreignKeys
    requires key.referencedTable != parent && HasParent(env.lib, db, key, child)
    requires forall c :: c in key.columns ==> ValueOf(child', c) == ValueOf(child, c)
    ensures HasParent(env.lib, Updated(env, db, parent, rows', changes), key, child')
  {
    hide KeyMatches, AfterKeys, OtherReferences, SqlEquality, KeysWellFormed, KeysDisjoint, Updated;
    var u := key.referencedTable;
    var db' := Updated(env, db, parent, rows', changes);
    var p :| p in RowsOf(db, u) && KeyMatches(env.lib, child, key, RowsOf(db, u)[p].data);
    UpdatedRows(env, db, parent, rows', changes, u);
    var data, data' := RowsOf(db, u)[p].data, RowsOf(db', u)[p].data;
    EqIgnoreRefl(u);
    assert Refers(env.schemas, Reference(t, key), u);
    forall c | c in key.referencedColumns ensures ValueOf(data', c) == ValueOf(data, c) {
      forall ref | Refers(env.schemas, ref, parent) && ref.table == u ensures c !in ref.key.columns {
        assert DisjointColumns(ref.key.columns, key.referencedColumns);
      }
      ColumnUnchanged(env, parent, changes, u, data, c, rank);
    }
    KeyMatchesByColumns(env.lib, child, child', key, data, data');
  }

  /** A referenced row that matches the child is one the change's old values describe. */
  lemma MatchMeansHit(lib: Library, key: ForeignKey, change: Change, child: Row)
    requires KeyMatches(lib, child, key, change.before)
    requires Values(change.before, key.referencedColumns) != Values(change.after, key.referencedColumns)
    ensures Hit(lib, key, change, child)
  {
  }

  lemma SameValuesMatch(lib: Library, key: ForeignKey, before: Row, after: Row, child: Row)
    requires KeyMatches(lib, child, key, before) && Values(before, key.referencedColumns) == Values(after, key.referencedColumns)
    ensures KeyMatches(lib, child, key, after)
  {
    forall i | 0 <= i < |key.referencedColumns|
      ensures ValueOf(after, key.referencedColumns[i]) == ValueOf(before, key.referencedColumns[i])
    {
      assert Values(after, key.referencedColumns)[i] == Values(before, key.referencedColumns)[i];
    }
  }

  /** A child that took over the new values matches the new row. */
  lemma CascadedValuesMatch(lib: Library, key: ForeignKey, change: Change, child: Row)
    requires SqlEquality(lib) && |key.columns| == |key.referencedColumns| && key.columns != []
    requires Holds(key, change, child) && NoneNull(child, key.columns)
    ensures key.onUpdate.Cascade? && KeyMatches(lib, child, key, change.after)
  {
    assert ValueOf(child, key.columns[0]) == NewValues(key, change)[0];
    forall i | 0 <= i < |key.columns|
      ensures ValueOf(child, key.columns[i]) == ValueOf(change.after, key.referencedColumns[i]) && ValueOf(child, key.columns[i]) != Null
    {
      assert ValueOf(child, key.columns[i]) == NewValues(key, change)[i];
    }
  }

  /** A child of the updated table still has a parent, or has been nulled. */
  lemma ChildOfUpdatedStays(env: Env, db: Database, parent: string, rows': TableRows, changes: seq<Change>, ref: Reference, k: string, rank: string -> nat)
    requires GoodSchemas(env, parent, rank) && Replaces(env, db, parent, rows', changes) && !Blocked(env, db, parent, changes)
    requires Refers(env.schemas, ref, parent) && ref.table != parent && k in RowsOf(db, ref.table)
    requires RowIntact(env.lib, db, ref.key, RowsOf(db, ref.table)[k].data)
    ensures var db' := Updated(env, db, parent, rows', changes);
            RowIntact(env.lib, db', ref.key, RowsOf(db', ref.table)[k].data)
  {
    var before := RowsOf(db, ref.table)[k].data;
    var db' := Updated(env, db, parent, rows', changes);
    UpdatedRows(env, db, parent, rows', changes, ref.table);
    UpdatedRows(env, db, parent, rows', changes, parent);
    var after := RowsOf(db', ref.table)[k].data;
    var refs := OtherReferences(env, parent);
    forall r { OtherReferencesAre(env, parent, r, rank); }
    EveryKeySettles(env.lib, refs, changes, ref, before);
    hide AfterKeys, Updated, OtherReferences, ChildColumnsUnreferenced, KeysDisjoint, Ranked;
    if NoneNull(after, ref.key.columns) {
      SettledChildHasParent(env, db, parent, rows', changes, ref, before, after);
    }
  }

  lemma SettledChildHasParent(env: Env, db: Database, parent: string, rows': TableRows, changes: seq<Change>, ref: Reference, before: Row, after: Row)
    requires SqlEquality(env.lib) && |ref.key.columns| == |ref.key.referencedColumns| && ref.key.columns != []
    requires Replaces(env, db, parent, rows', changes) && ref.key.referencedTable == parent
    requires RowIntact(env.lib, db, ref.key, before) && Settles(env.lib, ref.key, changes, before, after) && NoneNull(after, ref.key.columns)
    ensures exists p :: p in rows' && KeyMatches(env.lib, after, ref.key, rows'[p].data)
  {
    hide KeyMatches, ForeignKeysAccept, SqlEquality, Hit;
    var rows := RowsOf(db, parent);
    if NoHit(env.lib, ref.key, changes, before) {
      forall i | 0 <= i < |ref.key.columns| ensures ValueOf(before, ref.key.columns[i]) == ValueOf(after, ref.key.columns[i]) {
        assert ref.key.columns[i] in ref.key.columns;
      }
      var p :| p in rows && KeyMatches(env.lib, before, ref.key, rows[p].data);
      KeyMatchesByColumns(env.lib, before, after, ref.key, rows[p].data, rows[p].data);
      if !Kept(rows[p].data, rows') {
        var i :| 0 <= i < |changes| && changes[i].before == rows[p].data;
        if Values(changes[i].before, ref.key.referencedColumns) != Values(changes[i].after, ref.key.referencedColumns) {
          MatchMeansHit(env.lib, ref.key, changes[i], before);
        }
        SameValuesMatch(env.lib, ref.key, changes[i].before, changes[i].after, after);
      }
    } else {
      var i :| LastHit(env.lib, ref.key, changes, before, i) && Holds(ref.key, changes[i], after);
      CascadedValuesMatch(env.lib, ref.key, changes[i], after);
    }
  }

  /** The row check, on rows as they are shown, is the match that deletes act on. */
  lemma AcceptedHasParent(env: Env, db: Database, t: string, key: ForeignKey, data: Row)
    requires SqlEquality(env.lib) && Shown(env, db) && KeyAccepts(env, db, key, data)
    requires t in env.schemas && key in env.schemas[t].foreignKeys
    requires |key.columns| == |key.referencedColumns| && key.columns != []
    ensures RowIntact(env.lib, db, key, data)
  {
    if NoneNull(data, key.columns) {
      hide View;
      var parents := RowsOf(db, key.referencedTable);
      var p :| p in parents && ViewMatches(env.lib, View(env, key.referencedTable, parents[p].data), key, data);
      assert ShownRow(env, key.referencedTable, parents[p].data);
      forall i | 0 <= i < |key.columns|
        ensures ValueOf(View(env, key.referencedTable, parents[p].data), key.referencedColumns[i]) == ValueOf(parents[p].data, key.referencedColumns[i])
      {
        assert key.referencedColumns[i] in key.referencedColumns;
        assert RefColumn(env.schemas, key.referencedTable, key.referencedColumns[i]);
      }
      assert KeyMatches(env.lib, data, key, parents[p].data);
    }
  }

  /** CASCADE, SET NULL and RESTRICT keep integrity through a parent update, also when parents
      swap or chain their referenced values. */
  lemma UpdateKeepsIntegrity(env: Env, db: Database, parent: string, rows': TableRows, changes: seq<Change>, rank: string -> nat)
    requires GoodSchemas(env, parent, rank) && Shown(env, db)
    requires Integrity(env, db) && Replaces(env, db, parent, rows', changes) && !Blocked(env, db, parent, changes)
    ensures Integrity(env, Updated(env, db, parent, rows', changes))
  {
    hide RowIntact, AfterKeys, OtherReferences, Updated, Blocked;
    var db' := Updated(env, db, parent, rows', changes);
    forall t, key, k | t in env.schemas && key in env.schemas[t].foreignKeys && k in RowsOf(db', t)
      ensures RowIntact(env.lib, db', key, RowsOf(db', t)[k].data)
    {
      UpdatedRows(env, db, parent, rows', changes, t);
      if t == parent {
        OwnRowStays(env, db, parent, rows', changes, key, k, rank);
      } else if key.referencedTable == parent {
        EqIgnoreRefl(parent);
        assert Refers(env.schemas, Reference(t, key), parent);
        ChildOfUpdatedStays(env, db, parent, rows', changes, Reference(t, key), k, rank);
      } else {
        ForeignRowStays(env, db, parent, rows', changes, t, key, k, rank);
      }
    }
  }

  /** Rows of the updated table keep or find their own parents. */
  lemma OwnRowStays(env: Env, db: Database, parent: string, rows': TableRows, changes: seq<Change>, key: ForeignKey, k: string, rank: string -> nat)
    requires GoodSchemas(env, parent, rank) && Shown(env, db) && Integrity(env, db)
    requires Replaces(env, db, parent, rows', changes) && k in rows'
    requires parent in env.schemas && key in env.schemas[parent].foreignKeys
    ensures RowIntact(env.lib, Updated(env, db, parent, rows', changes), key, rows'[k].data)
  {
    OwnRowIntactBefore(env, db, parent, rows', changes, key, k);
    EqIgnoreRefl(key.referencedTable);
    assert Refers(env.schemas, Reference(parent, key), key.referencedTable);
    assert key.referencedTable != parent;
    hide Updated, HasParent, Refers, Integrity, Shown, Replaces, GoodSchemas;
    if NoneNull(rows'[k].data, key.columns) {
      OtherParentsStay(env, db, parent, rows', changes, parent, key, rows'[k].data, rows'[k].data, rank);
    }
  }

  lemma OwnRowIntactBefore(env: Env, db: Database, parent: string, rows': TableRows, changes: seq<Change>, key: ForeignKey, k: string)
    requires SqlEquality(env.lib) && KeysWellFormed(env.schemas) && Shown(env, db) && Integrity(env, db)
    requires Replaces(env, db, parent, rows', changes) && k in rows'
    requires parent in env.schemas && key in env.schemas[parent].foreignKeys
    ensures RowIntact(env.lib, db, key, rows'[k].data)
  {
    hide RowIntact, KeyAccepts, SqlEquality, Shown;
    if Kept(rows'[k].data, RowsOf(db, parent)) {
      var p :| p in RowsOf(db, parent) && RowsOf(db, parent)[p].data == rows'[k].data;
      assert RowIntact(env.lib, db, key, RowsOf(db, parent)[p].data);
    } else {
      AcceptedHasParent(env, db, parent, key, rows'[k].data);
    }
  }

  /** Rows of other tables keep the parents they have in other tables. */
  lemma ForeignRowStays(env: Env, db: Database, parent: string, rows': TableRows, changes: seq<Change>, t: string, key: ForeignKey, k: string, rank: string -> nat)
    requires GoodSchemas(env, parent, rank) && Integrity(env, db)
    requires t in env.schemas && key in env.schemas[t].foreignKeys && t != parent && key.referencedTable != parent
    requires k in RowsOf(db, t)
    ensures var db' := Updated(env, db, parent, rows', changes);
            k in RowsOf(db', t) && RowIntact(env.lib, db', key, RowsOf(db', t)[k].data)
  {
    hide Updated, HasParent, AfterKeys, OtherReferences, ChildColumnsUnreferenced;
    var db' := Updated(env, db, parent, rows', changes);
    UpdatedRows(env, db, parent, rows', changes, t);
    var before, after := RowsOf(db, t)[k].data, RowsOf(db', t)[k].data;
    forall c | c in key.columns ensures ValueOf(after, c) == ValueOf(before, c) {
      forall ref | Refers(env.schemas, ref, parent) && ref.table == t ensures c !in ref.key.columns {
        assert ref.key.referencedTable == parent && ref.key != key;
        assert DisjointColumns(key.columns, ref.key.columns);
      }
      ColumnUnchanged(env, parent, changes, t, before, c, rank);
    }
    if NoneNull(after, key.columns) {
      forall i | 0 <= i < |key.columns| ensures ValueOf(before, key.columns[i]) != Null {
        assert key.columns[i] in key.columns;
      }
      assert RowIntact(env.lib, db, key, before);
      OtherParentsStay(env, db, parent, rows', changes, t, key, before, after, rank);
    }
  }
}
