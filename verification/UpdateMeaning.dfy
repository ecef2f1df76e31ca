/** What an UPDATE does to the rows of its table and to the children, told without its machinery. */
module UpdateMeaning {
  import opened Wrappers
  import opened Json
  import opened Catalog
  import opened UniqueKeys
  import opened ForeignKeys
  import opened ParentUpdate
  import opened Inserting
  import opened UpdateSteps
  import P = Placing

  // ---------- children ----------

  /** The change gives some referenced column another value. */
  ghost predicate Alters(key: ForeignKey, change: Change) {
    exists c :: c in key.referencedColumns && ValueOf(change.before, c) != ValueOf(change.after, c)
  }

  /** The child row refers to the parent row: its key columns are not null, and equal to the
      referenced columns one by one. */
  ghost predicate RefersTo(lib: Library, key: ForeignKey, child: Row, parent: Row) {
    forall i :: 0 <= i < |key.columns| && i < |key.referencedColumns| ==>
      ValueOf(child, key.columns[i]) != Null && lib.eq(ValueOf(child, key.columns[i]), ValueOf(parent, key.referencedColumns[i]))
  }

  lemma HitIff(lib: Library, key: ForeignKey, change: Change, child: Row)
    ensures Hit(lib, key, change, child) <==> Alters(key, change) && RefersTo(lib, key, child, change.before)
  {
    var columns := key.referencedColumns;
    var a, b := Values(change.before, columns), Values(change.after, columns);
    if a != b {
      var i :| 0 <= i < |columns| && a[i] != b[i];
      assert columns[i] in columns;
    }
    if c :| c in columns && ValueOf(change.before, c) != ValueOf(change.after, c) {
      var i :| 0 <= i < |columns| && columns[i] == c;
      assert a[i] != b[i];
    }
  }

  /** A key of another table on the parent. */
  ghost predicate KeyOn(env: Env, ref: Reference, parent: string) {
    Refers(env.schemas, ref, parent) && !EqIgnoreAsciiCase(ref.table, parent)
  }

  lemma OtherReferencesAre(env: Env, parent: string)
    requires ValidEnv(env)
    ensures forall ref :: ref in OtherReferences(env, parent) <==> KeyOn(env, ref, parent)
  {
    forall ref ensures ref in OtherReferences(env, parent) <==> KeyOn(env, ref, parent) {
      ReferencesAre(env, parent, ref);
      OthersAre(References(env, parent), parent, ref);
    }
  }

  /** The child row, through this key, refers to a parent row whose referenced values change. */
  ghost predicate Concerns(lib: Library, key: ForeignKey, changes: seq<Change>, child: Row, i: int) {
    0 <= i < |changes| && Alters(key, changes[i]) && RefersTo(lib, key, child, changes[i].before)
  }

  ghost predicate Unconcerned(lib: Library, key: ForeignKey, changes: seq<Change>, child: Row) {
    forall i :: !Concerns(lib, key, changes, child, i)
  }

  lemma UnconcernedIff(lib: Library, key: ForeignKey, changes: seq<Change>, child: Row)
    ensures NoHit(lib, key, changes, child) <==> Unconcerned(lib, key, changes, child)
    ensures forall i :: LastHit(lib, key, changes, child, i)
              <==> Concerns(lib, key, changes, child, i) && forall j :: i < j < |changes| ==> !Concerns(lib, key, changes, child, j)
  {
    forall i | 0 <= i < |changes| ensures Hit(lib, key, changes[i], child) <==> Concerns(lib, key, changes, child, i) {
      HitIff(lib, key, changes[i], child);
    }
    hide Hit, Alters, RefersTo;
  }

  lemma {:induction false} KeyLeavesRow(lib: Library, key: ForeignKey, changes: seq<Change>, before: Row, data: Row)
    requires NoHit(lib, key, changes, before)
    ensures AfterKey(lib, key, changes, before, data) == data
    decreases |changes|
  {
    hide Hit;
    if changes != [] {
      var n := |changes| - 1;
      forall i | 0 <= i < n ensures !Hit(lib, key, changes[..n][i], before) { assert changes[..n][i] == changes[i]; }
      KeyLeavesRow(lib, key, changes[..n], before, data);
    }
  }

  /** A column of a child row changes only through a key that contains it, of which the row refers
      to a parent row whose referenced values change. */
  lemma {:induction false} ColumnKeptByKeys(lib: Library, refs: seq<Reference>, changes: seq<Change>, table: string, before: Row, data: Row, c: string)
    requires forall ref :: ref in refs && ref.table == table && c in ref.key.columns ==> NoHit(lib, ref.key, changes, before)
    ensures SameAt(AfterKeys(lib, refs, changes, table, before, data), data, c)
    decreases |refs|
  {
    hide AfterKey, NoHit;
    if refs != [] {
      var n := |refs| - 1;
      var so := AfterKeys(lib, refs[..n], changes, table, before, data);
      assert refs[n] in refs;
      ColumnKeptByKeys(lib, refs[..n], changes, table, before, data, c);
      if refs[n].table == table {
        if c in refs[n].key.columns {
          KeyLeavesRow(lib, refs[n].key, changes, before, so);
        } else {
          AfterKeyElsewhere(lib, refs[n].key, changes, before, so, c);
        }
      }
    }
  }

  lemma ChildColumnKept(env: Env, db: Database, parent: string, changes: seq<Change>, t: string, k: string, c: string)
    requires ValidEnv(env) && k in RowsOf(db, t)
    requires forall ref :: KeyOn(env, ref, parent) && ref.table == t && c in ref.key.columns ==> Unconcerned(env.lib, ref.key, changes, RowsOf(db, t)[k].data)
    ensures k in RowsOf(ChildrenAfter(env, db, parent, changes), t)
    ensures SameAt(RowsOf(ChildrenAfter(env, db, parent, changes), t)[k].data, RowsOf(db, t)[k].data, c)
  {
    var before := RowsOf(db, t)[k].data;
    OtherReferencesAre(env, parent);
    hide AfterKeys, OtherReferences, KeyOn;
    forall ref | ref in OtherReferences(env, parent) && ref.table == t && c in ref.key.columns ensures NoHit(env.lib, ref.key, changes, before) {
      UnconcernedIff(env.lib, ref.key, changes, before);
    }
    hide Unconcerned, NoHit;
    ColumnKeptByKeys(env.lib, OtherReferences(env, parent), changes, t, before, before, c);
  }

  /** A child row that refers to no parent row whose referenced values change stays as it is. */
  lemma ChildKept(env: Env, db: Database, parent: string, changes: seq<Change>, t: string, k: string)
    requires ValidEnv(env) && k in RowsOf(db, t)
    requires forall ref :: KeyOn(env, ref, parent) && ref.table == t ==> Unconcerned(env.lib, ref.key, changes, RowsOf(db, t)[k].data)
    ensures k in RowsOf(ChildrenAfter(env, db, parent, changes), t)
    ensures RowsOf(ChildrenAfter(env, db, parent, changes), t)[k] == RowsOf(db, t)[k]
  {
    hide KeyOn, Unconcerned, AfterKeys, OtherReferences;
    var after := RowsOf(ChildrenAfter(env, db, parent, changes), t);
    assert k in after && after[k] == RowsOf(db, t)[k].(data := after[k].data);
    forall c ensures SameAt(after[k].data, RowsOf(db, t)[k].data, c) { ChildColumnKept(env, db, parent, changes, t, k, c); }
    SameEverywhere(after[k].data, RowsOf(db, t)[k].data);
  }

  lemma SameEverywhere(a: Row, b: Row)
    requires forall c :: SameAt(a, b, c)
    ensures a == b
  {
    forall c ensures c in a <==> c in b { assert SameAt(a, b, c); }
    forall c | c in a ensures a[c] == b[c] { assert SameAt(a, b, c); }
  }

  /** Of a key whose columns no other key of the table has: with no change of a parent row it refers
      to, a child keeps the columns; else they take what the last such change says, the new
      referenced values with CASCADE and nulls with SET NULL. */
  lemma ChildFollowsParent(env: Env, db: Database, parent: string, changes: seq<Change>, ref: Reference, k: string)
    requires ValidEnv(env) && KeyOn(env, ref, parent) && k in RowsOf(db, ref.table)
    requires |ref.key.columns| == |ref.key.referencedColumns| && Distinct(ref.key.columns)
    requires forall r :: KeyOn(env, r, parent) && r.table == ref.table && r.key != ref.key ==> DisjointColumns(ref.key.columns, r.key.columns)
    requires ref.key.onUpdate.Cascade? || ref.key.onUpdate.SetNull?
    ensures k in RowsOf(ChildrenAfter(env, db, parent, changes), ref.table)
    ensures var before, after := RowsOf(db, ref.table)[k].data, RowsOf(ChildrenAfter(env, db, parent, changes), ref.table)[k].data;
            && (Unconcerned(env.lib, ref.key, changes, before) ==> forall c :: c in ref.key.columns ==> ValueOf(after, c) == ValueOf(before, c))
            && forall i :: Concerns(env.lib, ref.key, changes, before, i) && (forall j :: i < j < |changes| ==> !Concerns(env.lib, ref.key, changes, before, j)) ==>
                 forall j :: 0 <= j < |ref.key.columns| ==>
                   ValueOf(after, ref.key.columns[j])
                   == if ref.key.onUpdate.Cascade? then ValueOf(changes[i].after, ref.key.referencedColumns[j]) else Null
  {
    var before, after := RowsOf(db, ref.table)[k].data, RowsOf(ChildrenAfter(env, db, parent, changes), ref.table)[k].data;
    OtherReferencesAre(env, parent);
    hide AfterKeys, OtherReferences, KeyOn, Concerns, Distinct, Unconcerned, Settles;
    assert after == AfterKeys(env.lib, OtherReferences(env, parent), changes, ref.table, before, before);
    hide ChildrenAfter;
    EveryKeySettles(env.lib, OtherReferences(env, parent), changes, ref, before);
    SettledMeans(env.lib, ref.key, changes, before, after);
  }

  /** The last change that concerns the row decides. */
  lemma SettledMeans(lib: Library, key: ForeignKey, changes: seq<Change>, before: Row, after: Row)
    requires Settles(lib, key, changes, before, after) && |key.columns| == |key.referencedColumns|
    requires key.onUpdate.Cascade? || key.onUpdate.SetNull?
    ensures Unconcerned(lib, key, changes, before) ==> forall c :: c in key.columns ==> ValueOf(after, c) == ValueOf(before, c)
    ensures forall i :: Concerns(lib, key, changes, before, i) && (forall j :: i < j < |changes| ==> !Concerns(lib, key, changes, before, j)) ==>
              forall j :: 0 <= j < |key.columns| ==>
                ValueOf(after, key.columns[j]) == if key.onUpdate.Cascade? then ValueOf(changes[i].after, key.referencedColumns[j]) else Null
  {
    UnconcernedIff(lib, key, changes, before);
    hide Alters, RefersTo, Holds, LastHit;
    if !Unconcerned(lib, key, changes, before) {
      var i :| LastHit(lib, key, changes, before, i) && Holds(key, changes[i], after);
      forall n | LastHit(lib, key, changes, before, n) ensures n == i { OneLastHit(lib, key, changes, before, i, n); }
      WhatHolds(key, changes[i], after);
    }
  }

  lemma OneLastHit(lib: Library, key: ForeignKey, changes: seq<Change>, before: Row, i: int, n: int)
    requires LastHit(lib, key, changes, before, i) && LastHit(lib, key, changes, before, n)
    ensures i == n
  {
    hide Hit;
  }

  lemma WhatHolds(key: ForeignKey, change: Change, data: Row)
    requires Holds(key, change, data) && (key.onUpdate.Cascade? || key.onUpdate.SetNull?) && |key.columns| == |key.referencedColumns|
    ensures forall j :: 0 <= j < |key.columns| ==>
              ValueOf(data, key.columns[j]) == if key.onUpdate.Cascade? then ValueOf(change.after, key.referencedColumns[j]) else Null
  {
  }

  /** The UPDATE is refused exactly when a row refers, through a RESTRICT key or one with an
      unknown action, to a parent row whose referenced values change. */
  lemma RefusedIff(env: Env, db: Database, parent: string, changes: seq<Change>)
    requires ValidEnv(env)
    ensures Blocked(env, db, parent, changes)
       <==> exists ref, k, i :: KeyOn(env, ref, parent) && (ref.key.onUpdate.Restrict? || ref.key.onUpdate.Unsupported?)
              && k in RowsOf(db, ref.table) && Concerns(env.lib, ref.key, changes, RowsOf(db, ref.table)[k].data, i)
  {
    OtherReferencesAre(env, parent);
    hide OtherReferences, KeyOn, Hit, Alters, RefersTo;
    if ref, i, k :| ref in OtherReferences(env, parent) && 0 <= i < |changes| && k in RowsOf(db, ref.table)
                    && (ref.key.onUpdate.Restrict? || ref.key.onUpdate.Unsupported?) && Hit(env.lib, ref.key, changes[i], RowsOf(db, ref.table)[k].data) {
      HitIff(env.lib, ref.key, changes[i], RowsOf(db, ref.table)[k].data);
      assert Concerns(env.lib, ref.key, changes, RowsOf(db, ref.table)[k].data, i);
    }
    if ref, k, i :| KeyOn(env, ref, parent) && (ref.key.onUpdate.Restrict? || ref.key.onUpdate.Unsupported?)
                    && k in RowsOf(db, ref.table) && Concerns(env.lib, ref.key, changes, RowsOf(db, ref.table)[k].data, i) {
      HitIff(env.lib, ref.key, changes[i], RowsOf(db, ref.table)[k].data);
      assert Hit(env.lib, ref.key, changes[i], RowsOf(db, ref.table)[k].data);
    }
  }

  // ---------- the rows of the table ----------

  /** The row is matched, and the data its assignments give are acceptable. */
  ghost predicate Updates(u: Update, k: string) {
    k in u.given && u.given[k].Ready? && ForeignKeysAccept(u.env, u.db, u.table, u.given[k].data)
  }

  /** The id of a row with new data: the value of the first primary-key column, or of an
      auto-increment column `id`, when it is there; else the id stays. */
  function IdWith(schema: Schema, row: StoredRow, data: Row): Value {
    if schema.primaryKey != [] then if schema.primaryKey[0] in data then data[schema.primaryKey[0]] else row.id
    else if schema.autoColumn == Some("id") && "id" in data then data["id"]
    else row.id
  }

  function RowWith(u: Update, k: string): StoredRow
    requires k in Old(u) && k in u.given && u.given[k].Ready?
  {
    StoredRow(IdWith(SchemaOf(u.env.schemas, u.table), Old(u)[k], u.given[k].data), Old(u)[k].table, u.given[k].data)
  }

  lemma NewRowIs(u: Update, k: string)
    requires k in Old(u)
    ensures Touched(u, k) <==> Updates(u, k)
    ensures Updates(u, k) ==> NewRow(u, k) == RowWith(u, k) && NewKey(u, k) == u.env.lib.text(RowWith(u, k).id)
    ensures !Updates(u, k) ==> NewRow(u, k) == Old(u)[k] && NewKey(u, k) == k
  {
    hide ForeignKeysAccept;
  }

  /** The key a row is found under afterwards. */
  ghost function PlaceOf(u: Update, k: string): string
    requires k in Old(u)
  {
    if Updates(u, k) then u.env.lib.text(RowWith(u, k).id) else k
  }

  /** Every matched row is found under the text of its id with the data given, every other row is
      where and as it was, and there are no other rows. */
  ghost predicate RowsUpdated(u: Update, next: TableRows) {
    && (forall k :: k in Old(u) && Updates(u, k) ==> u.env.lib.text(RowWith(u, k).id) in next && next[u.env.lib.text(RowWith(u, k).id)] == RowWith(u, k))
    && (forall k :: k in Old(u) && !Updates(u, k) ==> k in next && next[k] == Old(u)[k])
    && forall n :: n in next ==> exists k :: k in Old(u) && n == PlaceOf(u, k)
  }

  lemma EachIsMoved(u: Update, keys: seq<string>, next: TableRows, k: string)
    requires Lists(keys, Old(u)) && AllMoved(u, keys, next) && k in Old(u)
    ensures Updates(u, k) ==> u.env.lib.text(RowWith(u, k).id) in next && next[u.env.lib.text(RowWith(u, k).id)] == RowWith(u, k)
    ensures !Updates(u, k) ==> k in next && next[k] == Old(u)[k]
  {
    NewRowIs(u, k);
    hide NewRow, NewKey, Updates, RowWith;
    var i :| 0 <= i < |keys| && keys[i] == k;
    assert NewKey(u, keys[i]) in next;
  }

  lemma EachIsPlaced(u: Update, keys: seq<string>, next: TableRows, n: string)
    requires Lists(keys, Old(u)) && AllMoved(u, keys, next) && n in next
    ensures exists k :: k in Old(u) && n == PlaceOf(u, k)
  {
    hide NewRow, NewKey, Updates, RowWith;
    var i :| 0 <= i < |keys| && NewKey(u, keys[i]) == n;
    NewRowIs(u, keys[i]);
    assert keys[i] in Old(u) && n == PlaceOf(u, keys[i]);
  }

  /** An UPDATE with keys enforced in which no row moves onto a later one. */
  lemma {:induction false} UpdatedRowsAre(u: Update, keys: seq<string>)
    requires Lists(keys, Old(u)) && u.settings.enforcesUniqueness && NoneOvertakes(u, keys) && Walk(u, keys).Going?
    ensures RowsUpdated(u, Walk(u, keys).next)
  {
    hide Walk, NoneOvertakes, AllMoved;
    NoneIsLost(u, keys);
    hide Lists, Updates, RowWith, PlaceOf, Old;
    var next := Walk(u, keys).next;
    forall k | k in Old(u) { EachIsMoved(u, keys, next, k); }
    forall n | n in next { EachIsPlaced(u, keys, next, n); }
  }

  /** Why the loop over the rows stops, in either mode. */
  ghost predicate Stops(u: Update, keys: seq<string>, error: UpdateError) {
    match error
    case BadAssignment => exists k :: k in keys && k in u.given && u.given[k].Rejected?
    case MissingParent => !u.ignore && exists k :: k in keys && k in u.given && u.given[k].Ready? && !Updates(u, k)
    case KeyTaken => u.settings.enforcesUniqueness && exists k :: k in keys && Updates(u, k)
    case _ => false
  }

  lemma {:induction false} WhyItStops(u: Update, keys: seq<string>)
    requires forall k :: k in keys ==> k in Old(u)
    ensures Walk(u, keys).Failed? ==> Stops(u, keys, Walk(u, keys).error)
    ensures Walk(u, keys).Going? && u.settings.enforcesUniqueness ==>
              forall k :: k in keys && k in u.given ==> u.given[k].Ready? && (Updates(u, k) || u.ignore)
    decreases |keys|
  {
    hide ForeignKeysAccept, Move, NewRow, NewKey;
    if keys != [] {
      var n := |keys| - 1;
      assert keys[n] in keys && keys == keys[..n] + [keys[n]];
      WhyItStops(u, keys[..n]);
      NewRowIs(u, keys[n]);
      MoveFailsWith(u, Walk(u, keys[..n]), keys[n]);
    }
  }

  lemma MoveFailsWith(u: Update, w: Walked, k: string)
    requires k in Old(u)
    ensures w.Going? && Move(u, w, k).Failed? ==> u.settings.enforcesUniqueness && Move(u, w, k).error == KeyTaken
  {
    hide Conflicts, NewRow, NewKey;
  }

  /** One matched row in overwrite mode: it is there with the data given, under the text of its id;
      its old place and the rows it clashes with are gone, and all others are untouched. */
  lemma OverwritingMove(u: Update, w: Walked, k: string)
    requires w.Going? && k in Old(u) && !u.settings.enforcesUniqueness && Updates(u, k) && k !in w.deleted
    ensures Visit(u, w, k).Going?
    ensures var row := RowWith(u, k);
            var key, next := u.env.lib.text(row.id), Visit(u, w, k).next;
            && key in next && next[key] == row
            && forall n :: n != key ==>
                 (n in next <==> n in w.next && n != k && !P.Clashes(u.env.lib, SchemaOf(u.env.schemas, u.table), key, row.data, w.next - {k}, n))
                 && (n in next ==> next[n] == w.next[n])
  {
    NewRowIs(u, k);
    var row := RowWith(u, k);
    var key := u.env.lib.text(row.id);
    forall n { P.ConflictsClash(u.env.lib, SchemaOf(u.env.schemas, u.table), key, row.data, w.next - {k}, n); }
    hide ForeignKeysAccept, Conflicts, NewRow, NewKey, IdWith, NewId;
  }

  // ---------- children of the statement ----------

  /** After an UPDATE with keys enforced, a column of a row in another table has changed only if the
      row referred, through a key with this column, to a matched row whose referenced values the
      UPDATE changes. */
  lemma {:induction false} ChildChangedByParent(u: Update, keys: seq<string>, t: string, k: string, c: string)
    requires ValidEnv(u.env) && Lists(keys, Old(u)) && u.settings.enforcesUniqueness && Walk(u, keys).Going?
    requires t != u.table && k in RowsOf(u.db, t)
    ensures var after := Updated(u.env, u.db, u.table, Walk(u, keys).next, Walk(u, keys).changes);
            k in RowsOf(after, t)
            && (!SameAt(RowsOf(after, t)[k].data, RowsOf(u.db, t)[k].data, c) ==>
                  exists ref, p :: KeyOn(u.env, ref, u.table) && ref.table == t && c in ref.key.columns && p in Old(u) && Updates(u, p)
                    && Alters(ref.key, Change(Old(u)[p].data, u.given[p].data)) && RefersTo(u.env.lib, ref.key, RowsOf(u.db, t)[k].data, Old(u)[p].data))
  {
    var changes, child := Walk(u, keys).changes, RowsOf(u.db, t)[k].data;
    ChangesAreRecorded(u, keys);
    hide Walk, AfterKeys, OtherReferences, KeyOn, Alters, RefersTo, Updates, NewRow;
    if forall ref :: KeyOn(u.env, ref, u.table) && ref.table == t && c in ref.key.columns ==> Unconcerned(u.env.lib, ref.key, changes, child) {
      ChildColumnKept(u.env, u.db, u.table, changes, t, k, c);
    } else {
      var ref :| KeyOn(u.env, ref, u.table) && ref.table == t && c in ref.key.columns && !Unconcerned(u.env.lib, ref.key, changes, child);
      var i :| Concerns(u.env.lib, ref.key, changes, child, i);
      assert changes[i] in changes;
      var j :| 0 <= j < |keys| && changes[i] == Change(Old(u)[keys[j]].data, NewRow(u, keys[j]).data);
      NewRowIs(u, keys[j]);
      ChangedIsUpdated(u, keys[j], ref.key);
    }
  }

  lemma ChangedIsUpdated(u: Update, p: string, key: ForeignKey)
    requires p in Old(u) && Alters(key, Change(Old(u)[p].data, NewRow(u, p).data))
    ensures Updates(u, p) && NewRow(u, p).data == u.given[p].data
  {
    NewRowIs(u, p);
    hide NewRow;
  }

  // ---------- the row check ----------

  /** DELETE and UPDATE agree on which rows refer to a parent. */
  lemma DeleteMatchIff(lib: Library, key: ForeignKey, child: Row, parent: Row)
    requires SqlEquality(lib) && |key.columns| == |key.referencedColumns| && key.columns != []
    ensures KeyMatches(lib, child, key, parent) <==> RefersTo(lib, key, child, parent)
  {
  }

  /** The row check passes exactly when each key has a null column or refers to a parent row, where
      the schema shows referenced columns as they are stored. */
  lemma AcceptedIff(env: Env, db: Database, table: string, data: Row)
    requires SqlEquality(env.lib) && Shown(env, db) && table in env.schemas
    requires forall key :: key in env.schemas[table].foreignKeys ==> |key.columns| == |key.referencedColumns|
    ensures ForeignKeysAccept(env, db, table, data)
       <==> forall key :: key in env.schemas[table].foreignKeys ==>
              (exists c :: c in key.columns && ValueOf(data, c) == Null)
              || (exists p :: p in RowsOf(db, key.referencedTable) && RefersTo(env.lib, key, data, RowsOf(db, key.referencedTable)[p].data))
  {
    hide KeyAccepts, RefersTo, Shown;
    forall key | key in env.schemas[table].foreignKeys
      ensures KeyAccepts(env, db, key, data)
         <==> (exists c :: c in key.columns && ValueOf(data, c) == Null)
              || (exists p :: p in RowsOf(db, key.referencedTable) && RefersTo(env.lib, key, data, RowsOf(db, key.referencedTable)[p].data))
    {
      KeyAcceptsIff(env, db, table, key, data);
    }
  }

  lemma KeyAcceptsIff(env: Env, db: Database, table: string, key: ForeignKey, data: Row)
    requires SqlEquality(env.lib) && Shown(env, db) && table in env.schemas
    requires key in env.schemas[table].foreignKeys && |key.columns| == |key.referencedColumns|
    ensures KeyAccepts(env, db, key, data)
       <==> (exists c :: c in key.columns && ValueOf(data, c) == Null)
            || (exists p :: p in RowsOf(db, key.referencedTable) && RefersTo(env.lib, key, data, RowsOf(db, key.referencedTable)[p].data))
  {
    hide View, SqlEquality, ViewMatches, RefersTo;
    NoneNullIff(data, key.columns);
    if NoneNull(data, key.columns) {
      forall p | p in RowsOf(db, key.referencedTable)
        ensures ViewMatches(env.lib, View(env, key.referencedTable, RowsOf(db, key.referencedTable)[p].data), key, data)
           <==> RefersTo(env.lib, key, data, RowsOf(db, key.referencedTable)[p].data)
      {
        ViewMatchesIff(env, table, key, data, RowsOf(db, key.referencedTable)[p].data);
      }
    }
  }

  lemma NoneNullIff(data: Row, columns: seq<string>)
    ensures NoneNull(data, columns) <==> !exists c :: c in columns && ValueOf(data, c) == Null
  {
    forall i | 0 <= i < |columns| ensures columns[i] in columns {}
  }

  lemma ViewMatchesIff(env: Env, table: string, key: ForeignKey, data: Row, parent: Row)
    requires SqlEquality(env.lib) && table in env.schemas && key in env.schemas[table].foreignKeys && |key.columns| == |key.referencedColumns|
    requires NoneNull(data, key.columns) && ShownRow(env, key.referencedTable, parent)
    ensures ViewMatches(env.lib, View(env, key.referencedTable, parent), key, data) <==> RefersTo(env.lib, key, data, parent)
  {
    hide View;
    forall i | 0 <= i < |key.columns|
      ensures ValueOf(View(env, key.referencedTable, parent), key.referencedColumns[i]) == ValueOf(parent, key.referencedColumns[i])
    {
      assert key.referencedColumns[i] in key.referencedColumns;
      assert RefColumn(env.schemas, key.referencedTable, key.referencedColumns[i]);
    }
  }
}
