/** The list of child actions of a parent UPDATE, and the rows an UPDATE makes. */
module UpdateSteps {
  import opened Wrappers
  import opened Json
  import opened Catalog
  import opened ForeignKeys
  import opened ParentUpdate
  import opened Inserting
  import opened UniqueKeys

  // ---------- child actions ----------

  /** Assign these values to the columns of one child row. */
  datatype ChildAction = ChildAction(table: string, key: string, columns: seq<string>, values: seq<Value>)

  /** What the actions, in order, make of the row `key` of `table`. */
  function Acted(actions: seq<ChildAction>, table: string, key: string, data: Row): Row {
    if actions == [] then data
    else
      var so := Acted(actions[..|actions| - 1], table, key, data);
      var last := actions[|actions| - 1];
      if last.table == table && last.key == key then Assigned(so, last.columns, last.values) else so
  }

  lemma {:induction false} ActedSnoc(actions: seq<ChildAction>, a: ChildAction, table: string, key: string, data: Row)
    ensures Acted(actions + [a], table, key, data)
         == if a.table == table && a.key == key then Assigned(Acted(actions, table, key, data), a.columns, a.values)
            else Acted(actions, table, key, data)
  {
    assert (actions + [a])[..|actions|] == actions;
  }

  /** Actions on other rows leave a row alone. */
  lemma {:induction false} ActedElsewhere(actions: seq<ChildAction>, table: string, key: string, data: Row)
    requires forall a :: a in actions ==> a.table != table
    ensures Acted(actions, table, key, data) == data
    decreases |actions|
  {
    if actions != [] {
      assert actions[|actions| - 1] in actions;
      ActedElsewhere(actions[..|actions| - 1], table, key, data);
    }
  }

  /** `actions` do to every row what `so` do and then, to the rows in `keys` of `table`, assign the values. */
  ghost predicate ActsFurther(so: seq<ChildAction>, actions: seq<ChildAction>, table: string, keys: set<string>, columns: seq<string>, values: seq<Value>) {
    forall t, k, d :: Acted(actions, t, k, d)
                   == if t == table && k in keys then Assigned(Acted(so, t, k, d), columns, values) else Acted(so, t, k, d)
  }

  lemma ActsOneFurther(so: seq<ChildAction>, actions: seq<ChildAction>, table: string, keys: set<string>, columns: seq<string>, values: seq<Value>, k: string)
    requires ActsFurther(so, actions, table, keys, columns, values) && k !in keys
    ensures ActsFurther(so, actions + [ChildAction(table, k, columns, values)], table, keys + {k}, columns, values)
  {
    hide Acted, Assigned;
    var a := ChildAction(table, k, columns, values);
    forall t, j, d ensures Acted(actions + [a], t, j, d)
                        == if t == table && j in keys + {k} then Assigned(Acted(so, t, j, d), columns, values) else Acted(so, t, j, d) {
      ActedSnoc(actions, a, t, j, d);
    }
  }

  /** After `so`, the changes of one key are done to every row of `db`. */
  ghost predicate ActsForKey(lib: Library, db: Database, so: seq<ChildAction>, actions: seq<ChildAction>, ref: Reference, changes: seq<Change>) {
    forall t, k :: k in RowsOf(db, t) ==>
      var d := RowsOf(db, t)[k].data;
      Acted(actions, t, k, d) == if t == ref.table then AfterKey(lib, ref.key, changes, d, Acted(so, t, k, d)) else Acted(so, t, k, d)
  }

  /** The changes of all keys are done to every row of `db`. */
  ghost predicate ActsForKeys(lib: Library, db: Database, actions: seq<ChildAction>, refs: seq<Reference>, changes: seq<Change>) {
    forall t, k :: k in RowsOf(db, t) ==>
      Acted(actions, t, k, RowsOf(db, t)[k].data) == AfterKeys(lib, refs, changes, t, RowsOf(db, t)[k].data, RowsOf(db, t)[k].data)
  }

  lemma NothingActsYet(lib: Library, db: Database, so: seq<ChildAction>, ref: Reference)
    ensures ActsForKey(lib, db, so, so, ref, []) && ActsForKeys(lib, db, [], [], [])
  {
    hide Acted;
    forall t, k | k in RowsOf(db, t) ensures Acted([], t, k, RowsOf(db, t)[k].data) == RowsOf(db, t)[k].data { NoAction(t, k, RowsOf(db, t)[k].data); }
  }

  lemma {:induction false} NoAction(t: string, k: string, d: Row)
    ensures Acted([], t, k, d) == d
  {
  }

  /** The rows of the child table that the change hits. */
  ghost function HitRows(lib: Library, ref: Reference, change: Change, children: TableRows): set<string> {
    set k | k in children && Hit(lib, ref.key, change, children[k].data)
  }

  lemma ActsForOneMoreChange(lib: Library, db: Database, so: seq<ChildAction>, mid: seq<ChildAction>, actions: seq<ChildAction>, ref: Reference,
                             changes: seq<Change>, i: nat)
    requires i < |changes| && ActsForKey(lib, db, so, mid, ref, changes[..i])
    requires ActsFurther(mid, actions, ref.table, HitRows(lib, ref, changes[i], RowsOf(db, ref.table)), ref.key.columns, NewValues(ref.key, changes[i]))
    ensures ActsForKey(lib, db, so, actions, ref, changes[..i + 1])
  {
    hide Acted, Hit, Assigned, NewValues, AfterKey;
    forall t, k | k in RowsOf(db, t)
      ensures var d := RowsOf(db, t)[k].data;
              Acted(actions, t, k, d) == if t == ref.table then AfterKey(lib, ref.key, changes[..i + 1], d, Acted(so, t, k, d)) else Acted(so, t, k, d)
    {
      AfterKeySnoc(lib, ref.key, changes, i, RowsOf(db, t)[k].data, Acted(so, t, k, RowsOf(db, t)[k].data));
    }
  }

  /** A change that alters nothing the key refers to hits no row. */
  lemma NothingHit(lib: Library, ref: Reference, change: Change, children: TableRows, so: seq<ChildAction>)
    requires HitRows(lib, ref, change, children) == {}
    ensures ActsFurther(so, so, ref.table, HitRows(lib, ref, change, children), ref.key.columns, NewValues(ref.key, change))
  {
    hide Hit, NewValues, Acted;
  }

  lemma ActsForOneMoreKey(lib: Library, db: Database, so: seq<ChildAction>, actions: seq<ChildAction>, refs: seq<Reference>, ref: Reference, changes: seq<Change>)
    requires ActsForKeys(lib, db, so, refs, changes) && ActsForKey(lib, db, so, actions, ref, changes)
    ensures ActsForKeys(lib, db, actions, refs + [ref], changes)
  {
    hide Acted, AfterKey, AfterKeys;
    forall t, k | k in RowsOf(db, t)
      ensures Acted(actions, t, k, RowsOf(db, t)[k].data) == AfterKeys(lib, refs + [ref], changes, t, RowsOf(db, t)[k].data, RowsOf(db, t)[k].data)
    {
      AfterKeysSnoc(lib, refs, ref, changes, t, RowsOf(db, t)[k].data, RowsOf(db, t)[k].data);
    }
  }

  /** With no changes there is nothing to do and nothing to forbid. */
  lemma NoChangesNoActions(env: Env, db: Database, parent: string)
    ensures !Blocked(env, db, parent, [])
    ensures forall t :: RowsOf(ChildrenAfter(env, db, parent, []), t) == RowsOf(db, t)
  {
    hide OtherReferences, Hit;
    forall t ensures RowsOf(ChildrenAfter(env, db, parent, []), t) == RowsOf(db, t) {
      forall d { NoChangesKeepRow(env.lib, OtherReferences(env, parent), t, d); }
      hide AfterKeys;
    }
  }

  lemma {:induction false} NoChangesKeepRow(lib: Library, refs: seq<Reference>, table: string, data: Row)
    ensures AfterKeys(lib, refs, [], table, data, data) == data
    decreases |refs|
  {
    if refs != [] { NoChangesKeepRow(lib, refs[..|refs| - 1], table, data); }
  }

  function ActedRows(actions: seq<ChildAction>, table: string, rows: TableRows): (r: TableRows)
    ensures r.Keys == rows.Keys
  {
    map k | k in rows :: rows[k].(data := Acted(actions, table, k, rows[k].data))
  }

  lemma {:induction false} OthersSnoc(refs: seq<Reference>, ref: Reference, parent: string)
    ensures Others(refs + [ref], parent) == Others(refs, parent) + if EqIgnoreAsciiCase(ref.table, parent) then [] else [ref]
  {
    hide EqIgnoreAsciiCase;
    if refs == [] {
      assert refs + [ref] == [ref] && [ref][1..] == [];
    } else {
      assert (refs + [ref])[1..] == refs[1..] + [ref];
      OthersSnoc(refs[1..], ref, parent);
    }
  }

  lemma {:induction false} AfterKeysSnoc(lib: Library, refs: seq<Reference>, ref: Reference, changes: seq<Change>, table: string, before: Row, data: Row)
    ensures AfterKeys(lib, refs + [ref], changes, table, before, data)
         == var so := AfterKeys(lib, refs, changes, table, before, data);
            if ref.table == table then AfterKey(lib, ref.key, changes, before, so) else so
  {
    hide AfterKey;
    assert (refs + [ref])[..|refs|] == refs;
  }

  lemma {:induction false} AfterKeySnoc(lib: Library, key: ForeignKey, changes: seq<Change>, j: nat, before: Row, data: Row)
    requires j < |changes|
    ensures AfterKey(lib, key, changes[..j + 1], before, data)
         == var so := AfterKey(lib, key, changes[..j], before, data);
            if Hit(lib, key, changes[j], before) then Assigned(so, key.columns, NewValues(key, changes[j])) else so
  {
    hide Hit, Assigned, NewValues;
    assert changes[..j + 1][..j] == changes[..j];
  }

  // ---------- the rows of the updated table ----------

  /** The identity of an updated row. For a composite primary key it is the first column alone. */
  function NewId(schema: Schema, row: StoredRow, data: Row): Value {
    var column := KeyColumn(schema);
    if column.Some? && column.value in data then data[column.value] else row.id
  }

  datatype UpdateError = UnknownTable | BadAssignment | MissingParent | KeyTaken | DuplicateKey | StillReferenced

  /** An UPDATE of `table`: for each row the selection matches, the data its assignments give. */
  datatype Update = Update(env: Env, settings: Settings, db: Database, table: string, given: map<string, Prepared>, ignore: bool)

  function Old(u: Update): TableRows { RowsOf(u.db, u.table) }

  function SchemaOfUpdate(u: Update): Schema { SchemaOf(u.env.schemas, u.table) }

  /** The row is matched and its new data passes the foreign-key check. */
  predicate Touched(u: Update, k: string) {
    k in u.given && u.given[k].Ready? && ForeignKeysAccept(u.env, u.db, u.table, u.given[k].data)
  }

  function NewKey(u: Update, k: string): string
    requires k in Old(u)
  {
    if Touched(u, k) then u.env.lib.text(NewId(SchemaOfUpdate(u), Old(u)[k], u.given[k].data)) else k
  }

  function NewRow(u: Update, k: string): StoredRow
    requires k in Old(u)
  {
    if Touched(u, k) then StoredRow(NewId(SchemaOfUpdate(u), Old(u)[k], u.given[k].data), Old(u)[k].table, u.given[k].data) else Old(u)[k]
  }

  /** What the loop over the rows carries along. */
  datatype Walked =
    | Failed(error: UpdateError)
    | Going(next: TableRows, changed: TableRows, deleted: set<string>, changes: seq<Change>)

  /** The row gives up its old key and takes its new one. */
  function Move(u: Update, w: Walked, k: string): Walked
    requires w.Going? && k in Old(u)
  {
    var key, row := NewKey(u, k), NewRow(u, k);
    var next := w.next - {k};
    var changed := if key != k then w.changed - {k} else w.changed;
    var deleted := if key != k then w.deleted + {k} else w.deleted;
    var changes := if row.data != Old(u)[k].data then w.changes + [Change(Old(u)[k].data, row.data)] else w.changes;
    if u.settings.enforcesUniqueness then
      if key in next then Failed(KeyTaken) else Going(next[key := row], changed[key := row], deleted, changes)
    else
      var conflicts := Conflicts(u.env.lib, SchemaOfUpdate(u), key, row.data, next);
      Going((next - conflicts)[key := row], (changed - conflicts)[key := row], deleted + conflicts, changes)
  }

  function Visit(u: Update, w: Walked, k: string): Walked
    requires w.Going? && k in Old(u)
  {
    if !u.settings.enforcesUniqueness && k in w.deleted then w
    else if Touched(u, k) then Move(u, w, k)
    else if k in u.given && u.given[k].Rejected? then Failed(BadAssignment)
    else if k in u.given && !u.ignore then Failed(MissingParent)
    else w.(next := w.next[k := Old(u)[k]])
  }

  /** Every key of the table once, in the order of the table. */
  ghost predicate Lists(keys: seq<string>, rows: TableRows) {
    && (forall k :: k in keys <==> k in rows)
    && (forall i, j :: 0 <= i < j < |keys| ==> keys[i] != keys[j])
  }

  function Walk(u: Update, keys: seq<string>): Walked
    requires forall k :: k in keys ==> k in Old(u)
  {
    if keys == [] then Going(map[], map[], {}, [])
    else
      var w := Walk(u, keys[..|keys| - 1]);
      if w.Failed? then w else Visit(u, w, keys[|keys| - 1])
  }

  /** What an UPDATE says, given how the loop over the rows went. */
  ghost function Verdict(u: Update, w: Walked): Option<UpdateError> {
    match w
    case Failed(e) => Some(e)
    case Going(next, _, _, changes) =>
      if u.settings.enforcesUniqueness && !ConstraintsHold(u.env.lib, SchemaOfUpdate(u), next) then Some(DuplicateKey)
      else if Blocked(u.env, u.db, u.table, changes) then Some(StillReferenced)
      else None
  }

  lemma {:induction false} WalkOneMore(u: Update, keys: seq<string>, i: nat)
    requires (forall k :: k in keys ==> k in Old(u)) && i < |keys|
    ensures Walk(u, keys[..i + 1]) == var w := Walk(u, keys[..i]); if w.Failed? then w else Visit(u, w, keys[i])
  {
    hide Visit;
    assert keys[..i + 1][..i] == keys[..i];
  }

  /** After a failed row the rest is not looked at. */
  lemma {:induction false} WalkStops(u: Update, keys: seq<string>, n: nat)
    requires (forall k :: k in keys ==> k in Old(u)) && n <= |keys| && Walk(u, keys[..n]).Failed?
    ensures Walk(u, keys) == Walk(u, keys[..n])
    decreases |keys|
  {
    hide Visit;
    if n == |keys| {
      assert keys[..n] == keys;
    } else {
      assert keys[..|keys| - 1][..n] == keys[..n];
      WalkStops(u, keys[..|keys| - 1], n);
    }
  }

  // ---------- what becomes of the rows ----------

  /** Row `i` moves to the key that the later row `j` still has. */
  ghost predicate Overtakes(u: Update, keys: seq<string>, i: int, j: int)
    requires forall k :: k in keys ==> k in Old(u)
  {
    0 <= i < j < |keys| && NewKey(u, keys[i]) == keys[j]
  }

  ghost predicate NoneOvertakes(u: Update, keys: seq<string>)
    requires forall k :: k in keys ==> k in Old(u)
  {
    forall i, j :: !Overtakes(u, keys, i, j)
  }

  /** When rows keep their keys or move to keys that no row has, none overtakes another. */
  lemma FreshKeysOvertakeNone(u: Update, keys: seq<string>)
    requires Lists(keys, Old(u))
    requires forall k :: k in Old(u) ==> NewKey(u, k) == k || NewKey(u, k) !in Old(u)
    ensures NoneOvertakes(u, keys)
  {
    hide NewKey;
  }

  /** One step, when keys are enforced: the same for rows that move and rows that stay. */
  lemma EnforcedStep(u: Update, w: Walked, k: string)
    requires w.Going? && k in Old(u) && u.settings.enforcesUniqueness && Visit(u, w, k).Going?
    ensures Visit(u, w, k).next == (w.next - {k})[NewKey(u, k) := NewRow(u, k)] && NewKey(u, k) !in w.next - {k}
    ensures Visit(u, w, k).changes == if NewRow(u, k).data != Old(u)[k].data then w.changes + [Change(Old(u)[k].data, NewRow(u, k).data)] else w.changes
  {
    hide Conflicts, ForeignKeysAccept;
  }

  /** A key not visited yet is taken exactly if an earlier row has moved there. */
  lemma {:induction false} TakenKeys(u: Update, keys: seq<string>, n: string)
    requires (forall k :: k in keys ==> k in Old(u)) && u.settings.enforcesUniqueness && Walk(u, keys).Going? && n !in keys
    ensures n in Walk(u, keys).next <==> exists i :: 0 <= i < |keys| && NewKey(u, keys[i]) == n
    decreases |keys|
  {
    hide Visit, NewKey, NewRow;
    if keys != [] {
      var m := |keys| - 1;
      TakenKeys(u, keys[..m], n);
      EnforcedStep(u, Walk(u, keys[..m]), keys[m]);
      assert keys[m] in keys;
      forall i | 0 <= i < m ensures keys[..m][i] == keys[i] {}
    }
  }

  lemma OvertakesOneMore(u: Update, keys: seq<string>)
    requires (forall k :: k in keys ==> k in Old(u)) && keys != []
    ensures var m := |keys| - 1;
            NoneOvertakes(u, keys) <==> NoneOvertakes(u, keys[..m]) && forall i :: 0 <= i < m ==> NewKey(u, keys[..m][i]) != keys[m]
  {
    hide NewKey;
    var m := |keys| - 1;
    var front := keys[..m];
    forall i, j | 0 <= i < j < m ensures Overtakes(u, keys, i, j) <==> Overtakes(u, front, i, j) {}
    if i :| 0 <= i < m && NewKey(u, front[i]) == keys[m] { assert Overtakes(u, keys, i, m); }
    if i, j :| Overtakes(u, keys, i, j) {
      if j == m { assert front[i] == keys[i]; } else { assert Overtakes(u, front, i, j); }
    }
  }

  lemma CountOneStep(next: TableRows, k: string, key: string, row: StoredRow)
    requires key !in next - {k}
    ensures |(next - {k})[key := row]| == if k in next then |next| else |next| + 1
  {
    var left := next - {k};
    assert |left[key := row]| == |left| + 1;
    if k in next { assert next == left[k := next[k]]; } else { assert left == next; }
  }

  /** An UPDATE that succeeds with keys enforced keeps the number of rows exactly when no row
      moves to the key of a later row. It loses a row, without an error, otherwise. */
  lemma {:induction false} RowCountKeptIff(u: Update, keys: seq<string>)
    requires (forall k :: k in keys ==> k in Old(u)) && (forall i, j :: 0 <= i < j < |keys| ==> keys[i] != keys[j])
    requires u.settings.enforcesUniqueness && Walk(u, keys).Going?
    ensures |Walk(u, keys).next| <= |keys|
    ensures |Walk(u, keys).next| == |keys| <==> NoneOvertakes(u, keys)
    decreases |keys|
  {
    hide Visit, NewKey, NewRow;
    if keys != [] {
      var m := |keys| - 1;
      var front, k := keys[..m], keys[m];
      var w := Walk(u, front);
      RowCountKeptIff(u, front);
      EnforcedStep(u, w, k);
      assert k !in front;
      TakenKeys(u, front, k);
      OvertakesOneMore(u, keys);
      CountOneStep(w.next, k, NewKey(u, k), NewRow(u, k));
    }
  }

  /** When no row overtakes another, every row is found under its new key, and nothing else is. */
  ghost predicate AllMoved(u: Update, keys: seq<string>, next: TableRows)
    requires forall k :: k in keys ==> k in Old(u)
  {
    && (forall i :: 0 <= i < |keys| ==> NewKey(u, keys[i]) in next && next[NewKey(u, keys[i])] == NewRow(u, keys[i]))
    && (forall n :: n in next ==> exists i :: 0 <= i < |keys| && NewKey(u, keys[i]) == n)
  }

  lemma {:induction false} NoneIsLost(u: Update, keys: seq<string>)
    requires (forall k :: k in keys ==> k in Old(u)) && (forall i, j :: 0 <= i < j < |keys| ==> keys[i] != keys[j])
    requires u.settings.enforcesUniqueness && Walk(u, keys).Going? && NoneOvertakes(u, keys)
    ensures AllMoved(u, keys, Walk(u, keys).next)
    decreases |keys|
  {
    hide Visit, NewKey, NewRow;
    if keys != [] {
      var m := |keys| - 1;
      var front, k := keys[..m], keys[m];
      FrontOvertakesNone(u, keys);
      NoneIsLost(u, front);
      var w := Walk(u, front);
      EnforcedStep(u, w, k);
      NotTakenYet(u, keys, w.next);
      assert w.next - {k} == w.next;
      OneMoreMoved(u, keys, w.next);
    }
  }

  lemma NotTakenYet(u: Update, keys: seq<string>, next: TableRows)
    requires (forall k :: k in keys ==> k in Old(u)) && keys != [] && NoneOvertakes(u, keys)
    requires AllMoved(u, keys[..|keys| - 1], next)
    ensures keys[|keys| - 1] !in next
  {
    hide NewKey, AllMoved;
    if keys[|keys| - 1] in next { TakenMeansOvertaken(u, keys, next); }
  }

  lemma TakenMeansOvertaken(u: Update, keys: seq<string>, next: TableRows)
    requires (forall k :: k in keys ==> k in Old(u)) && keys != []
    requires AllMoved(u, keys[..|keys| - 1], next) && keys[|keys| - 1] in next
    ensures exists i, j :: Overtakes(u, keys, i, j)
  {
    hide NewKey, NewRow;
    var m := |keys| - 1;
    var i :| 0 <= i < m && NewKey(u, keys[..m][i]) == keys[m];
    assert Overtakes(u, keys, i, m);
  }

  lemma OneMoreMoved(u: Update, keys: seq<string>, next: TableRows)
    requires (forall k :: k in keys ==> k in Old(u)) && keys != []
    requires AllMoved(u, keys[..|keys| - 1], next) && NewKey(u, keys[|keys| - 1]) !in next
    ensures AllMoved(u, keys, next[NewKey(u, keys[|keys| - 1]) := NewRow(u, keys[|keys| - 1])])
  {
    hide NewKey, NewRow;
    var m := |keys| - 1;
    var front := keys[..m];
    var next' := next[NewKey(u, keys[m]) := NewRow(u, keys[m])];
    forall i | 0 <= i < |keys| ensures NewKey(u, keys[i]) in next' && next'[NewKey(u, keys[i])] == NewRow(u, keys[i]) {
      if i < m { assert front[i] == keys[i]; }
    }
    forall n | n in next' ensures exists i :: 0 <= i < |keys| && NewKey(u, keys[i]) == n {
      if n in next {
        var i :| 0 <= i < |front| && NewKey(u, front[i]) == n;
        assert NewKey(u, keys[i]) == n;
      } else {
        assert NewKey(u, keys[m]) == n;
      }
    }
  }

  lemma FrontOvertakesNone(u: Update, keys: seq<string>)
    requires (forall k :: k in keys ==> k in Old(u)) && keys != [] && NoneOvertakes(u, keys)
    ensures NoneOvertakes(u, keys[..|keys| - 1])
  {
    hide NewKey;
    var front := keys[..|keys| - 1];
    forall i, j ensures !Overtakes(u, front, i, j) {
      assert !Overtakes(u, keys, i, j);
    }
  }

  /** Two rows are to have the same key. */
  ghost predicate KeysMeet(u: Update, keys: seq<string>)
    requires forall k :: k in keys ==> k in Old(u)
  {
    exists i, j :: 0 <= i < j < |keys| && NewKey(u, keys[i]) == NewKey(u, keys[j])
  }

  /** When no row overtakes another and every row is acceptable or passed over, an UPDATE with
      keys enforced fails exactly if two rows are to have the same key. */
  lemma {:induction false} FailsIffKeysMeet(u: Update, keys: seq<string>)
    requires (forall k :: k in keys ==> k in Old(u)) && (forall i, j :: 0 <= i < j < |keys| ==> keys[i] != keys[j])
    requires u.settings.enforcesUniqueness && NoneOvertakes(u, keys)
    requires forall k :: k in u.given ==> u.given[k].Ready? && (Touched(u, k) || u.ignore)
    ensures Walk(u, keys).Failed? <==> KeysMeet(u, keys)
    decreases |keys|
  {
    hide NewKey, NewRow, Visit, Touched, AllMoved, KeysMeet;
    if keys == [] {
      assert !KeysMeet(u, keys) by { NothingMeets(u); }
    } else {
      var m := |keys| - 1;
      var front, k := keys[..m], keys[m];
      FrontOvertakesNone(u, keys);
      FailsIffKeysMeet(u, front);
      var w := Walk(u, front);
      MeetOneMore(u, keys);
      if w.Going? {
        NoneIsLost(u, front);
        NotTakenYet(u, keys, w.next);
        StepFailsIff(u, w, k);
        TakenByMoved(u, front, w.next, NewKey(u, k));
      }
    }
  }

  lemma NothingMeets(u: Update)
    ensures !KeysMeet(u, [])
  {
  }

  lemma MeetOneMore(u: Update, keys: seq<string>)
    requires (forall k :: k in keys ==> k in Old(u)) && keys != []
    ensures var m := |keys| - 1;
            KeysMeet(u, keys) <==> KeysMeet(u, keys[..m]) || exists i :: 0 <= i < m && NewKey(u, keys[..m][i]) == NewKey(u, keys[m])
  {
    hide NewKey;
    var m := |keys| - 1;
    var front := keys[..m];
    forall i | 0 <= i < m ensures keys[i] == front[i] {}
    if i, j :| 0 <= i < j < m && NewKey(u, front[i]) == NewKey(u, front[j]) { assert NewKey(u, keys[i]) == NewKey(u, keys[j]); }
    if i :| 0 <= i < m && NewKey(u, front[i]) == NewKey(u, keys[m]) { assert NewKey(u, keys[i]) == NewKey(u, keys[m]); }
    if i, j :| 0 <= i < j < |keys| && NewKey(u, keys[i]) == NewKey(u, keys[j]) {
      assert NewKey(u, front[i]) == NewKey(u, keys[j]);
      assert j < m ==> NewKey(u, front[i]) == NewKey(u, front[j]);
    }
  }

  lemma TakenByMoved(u: Update, keys: seq<string>, next: TableRows, n: string)
    requires (forall k :: k in keys ==> k in Old(u)) && AllMoved(u, keys, next)
    ensures n in next <==> exists i :: 0 <= i < |keys| && NewKey(u, keys[i]) == n
  {
    hide NewKey, NewRow;
  }

  lemma StepFailsIff(u: Update, w: Walked, k: string)
    requires w.Going? && k in Old(u) && u.settings.enforcesUniqueness && k !in w.next
    requires k in u.given ==> u.given[k].Ready? && (Touched(u, k) || u.ignore)
    ensures Visit(u, w, k).Failed? <==> NewKey(u, k) in w.next
  {
    hide NewRow, Conflicts, ForeignKeysAccept;
    assert w.next - {k} == w.next;
  }

  /** No value is an array that starts with it. */
  lemma ArrayIsNotItsFirst(items: seq<Value>)
    requires items != []
    ensures items[0] != Arr(items)
  {
    var whole := Arr(items);
    assert whole.items[0] == items[0];
  }

  /** An UPDATE that leaves the data of a row as INSERT stored them keeps the id of the row, except
      with a composite primary key: there the id becomes the value of the first key column alone,
      unless that column is missing or has been given the whole id itself. */
  lemma UpdateKeepsIdIff(settings: Settings, schema: Schema, table: string, data: Row, counters: Counters, uuid: string, row: StoredRow)
    requires row.id == ResolveRowId(settings, schema, table, data, counters, uuid).id
    requires row.data == Undotted(WithIdentity(schema, data, ResolveRowId(settings, schema, table, data, counters, uuid)))
    ensures NewId(schema, row, row.data) == row.id
       <==> |schema.primaryKey| <= 1 || schema.primaryKey[0] !in row.data
            || (schema.primaryKey[0] == "id" && schema.autoColumn == Some("id") && ("id" !in data || Defaultish(data["id"])))
  {
    hide ExactInt;
    assert '.' !in "id";
    if |schema.primaryKey| > 1 {
      var first := schema.primaryKey[0];
      ArrayIsNotItsFirst(Values(data, schema.primaryKey));
      assert row.id == Arr(Values(data, schema.primaryKey)) && Values(data, schema.primaryKey)[0] == ValueOf(data, first);
      var open := first == "id" && schema.autoColumn == Some("id") && ("id" !in data || Defaultish(data["id"]));
      if open {
        assert WithIdentity(schema, data, ResolveRowId(settings, schema, table, data, counters, uuid))["id"] == row.id;
        assert "id" in row.data && row.data["id"] == row.id;
      } else if first in row.data {
        assert first in data && row.data[first] == data[first];
      }
    }
  }

  /** On a table with a composite primary key the new id is the value of its first column alone, not
      the id that INSERT gives such a row, and two updated rows that agree there meet. */
  lemma CompositeKeysMeet(u: Update, keys: seq<string>, i: nat, j: nat)
    requires (forall k :: k in keys ==> k in Old(u)) && i < j < |keys|
    requires |SchemaOfUpdate(u).primaryKey| > 1 && Touched(u, keys[i]) && Touched(u, keys[j])
    requires var first := SchemaOfUpdate(u).primaryKey[0];
             first in u.given[keys[i]].data && first in u.given[keys[j]].data
             && u.given[keys[i]].data[first] == u.given[keys[j]].data[first]
    ensures KeysMeet(u, keys)
    ensures forall counters, uuid :: NewRow(u, keys[i]).id
              != ResolveRowId(u.settings, SchemaOfUpdate(u), u.table, u.given[keys[i]].data, counters, uuid).id
  {
    hide ForeignKeysAccept;
    ArrayIsNotItsFirst(Values(u.given[keys[i]].data, SchemaOfUpdate(u).primaryKey));
    assert NewKey(u, keys[i]) == NewKey(u, keys[j]);
  }

  // ---------- what is deleted and what is stored ----------

  /** Row `i` moves to the key of a later row that stays, and is overwritten there. */
  ghost predicate Clobbers(u: Update, keys: seq<string>, i: int, j: int)
    requires forall k :: k in keys ==> k in Old(u)
  {
    Overtakes(u, keys, i, j) && !Touched(u, keys[j])
  }

  ghost function Clobbered(u: Update, keys: seq<string>): set<string>
    requires forall k :: k in keys ==> k in Old(u)
  {
    set j | 0 <= j < |keys| && exists i :: Clobbers(u, keys, i, j) :: keys[j]
  }

  lemma NoneOvertakesNoneClobbers(u: Update, keys: seq<string>)
    requires (forall k :: k in keys ==> k in Old(u)) && NoneOvertakes(u, keys)
    ensures Clobbered(u, keys) == {}
  {
    hide NewKey, Touched;
    assert forall i, j :: !Clobbers(u, keys, i, j);
  }

  function KeySet(keys: seq<string>): set<string> { set k | k in keys }

  lemma ClobberedOneMore(u: Update, keys: seq<string>)
    requires (forall k :: k in keys ==> k in Old(u)) && keys != []
    ensures var m := |keys| - 1;
            Clobbered(u, keys) == Clobbered(u, keys[..m]) + if exists i :: Clobbers(u, keys, i, m) then {keys[m]} else {}
  {
    hide NewKey, Touched;
    var m := |keys| - 1;
    var front := keys[..m];
    forall i, j | j < m ensures Clobbers(u, keys, i, j) <==> Clobbers(u, front, i, j) {}
    forall k | k in Clobbered(u, front) ensures k in Clobbered(u, keys) {
      var j :| 0 <= j < |front| && (exists i :: Clobbers(u, front, i, j)) && front[j] == k;
      var i :| Clobbers(u, front, i, j);
      assert Clobbers(u, keys, i, j) && keys[j] == k;
    }
    forall k | k in Clobbered(u, keys) && !(k == keys[m] && exists i :: Clobbers(u, keys, i, m)) ensures k in Clobbered(u, front) {
      var j :| 0 <= j < |keys| && (exists i :: Clobbers(u, keys, i, j)) && keys[j] == k;
      var i :| Clobbers(u, keys, i, j);
      assert Clobbers(u, front, i, j) && front[j] == k;
    }
  }

  /** Keys in play are those of rows visited and those moved to. */
  lemma {:induction false} KeysInPlay(u: Update, keys: seq<string>, n: string)
    requires (forall k :: k in keys ==> k in Old(u)) && Walk(u, keys).Going? && n !in keys
    requires n in Walk(u, keys).next || n in Walk(u, keys).changed || n in Walk(u, keys).deleted
    ensures exists i :: 0 <= i < |keys| && NewKey(u, keys[i]) == n
    decreases |keys|
  {
    hide NewKey, NewRow, ForeignKeysAccept;
    if keys != [] {
      var m := |keys| - 1;
      var front, k := keys[..m], keys[m];
      assert k in keys;
      var w := Walk(u, front);
      if n in w.next || n in w.changed || n in w.deleted {
        KeysInPlay(u, front, n);
        var i :| 0 <= i < |front| && NewKey(u, front[i]) == n;
        assert NewKey(u, keys[i]) == n;
      } else {
        assert NewKey(u, keys[m]) == n;
      }
    }
  }

  /** The rows that stayed when another row had just moved onto them, and that no later row has
      taken the place of: memory has the row that stayed, the batch the one that moved. */
  ghost function Hidden(u: Update, keys: seq<string>): set<string>
    requires forall k :: k in keys ==> k in Old(u)
  {
    if keys == [] then {}
    else
      var front := keys[..|keys| - 1];
      if Walk(u, front).Failed? then {} else HiddenAfter(u, Walk(u, front), keys[|keys| - 1], Hidden(u, front))
  }

  ghost function HiddenAfter(u: Update, w: Walked, k: string, hidden: set<string>): set<string>
    requires w.Going? && k in Old(u)
  {
    if !u.settings.enforcesUniqueness && k in w.deleted then hidden
    else if Touched(u, k) then
      if u.settings.enforcesUniqueness then hidden
      else hidden - Conflicts(u.env.lib, SchemaOfUpdate(u), NewKey(u, k), NewRow(u, k).data, w.next - {k})
    else if k in w.next then hidden + {k}
    else hidden
  }

  /** The rows made are the old ones less those to delete, with those to store, except for the
      hidden rows, which stay what they were. */
  ghost predicate Accounted(u: Update, w: Walked, keys: set<string>, hidden: set<string>)
    requires w.Going?
  {
    && w.next == ((Chosen(Old(u), keys) - w.deleted) + w.changed) + Chosen(Old(u), hidden)
    && hidden <= keys && hidden <= w.changed.Keys
    && (u.settings.enforcesUniqueness ==> w.deleted <= keys)
  }

  /** In either mode, and whatever overtakes what. */
  lemma {:induction false} WalkTracks(u: Update, keys: seq<string>)
    requires (forall k :: k in keys ==> k in Old(u)) && (forall i, j :: 0 <= i < j < |keys| ==> keys[i] != keys[j])
    requires Walk(u, keys).Going?
    ensures Accounted(u, Walk(u, keys), KeySet(keys), Hidden(u, keys))
    decreases |keys|
  {
    hide Visit, HiddenAfter, Accounted;
    if keys == [] {
      NothingAccounted(u);
    } else {
      var m := |keys| - 1;
      var front, k := keys[..m], keys[m];
      WalkTracks(u, front);
      assert KeySet(keys) == KeySet(front) + {k};
      assert k !in front;
      VisitTracks(u, Walk(u, front), k, KeySet(front), Hidden(u, front));
    }
  }

  lemma {:induction false} NothingAccounted(u: Update)
    ensures Accounted(u, Walk(u, []), KeySet([]), Hidden(u, []))
  {
  }

  lemma VisitTracks(u: Update, w: Walked, k: string, keys: set<string>, hidden: set<string>)
    requires w.Going? && k in Old(u) && Visit(u, w, k).Going? && k !in keys
    requires Accounted(u, w, keys, hidden)
    ensures Accounted(u, Visit(u, w, k), keys + {k}, HiddenAfter(u, w, k, hidden))
  {
    hide NewKey, NewRow, Touched, Conflicts, Chosen;
    var base := Chosen(Old(u), keys);
    ChosenHas(Old(u), keys);
    ChosenHas(Old(u), hidden);
    ChosenPlus(Old(u), keys, k);
    if !u.settings.enforcesUniqueness && k in w.deleted {
      assert base[k := Old(u)[k]] - w.deleted == base - w.deleted;
    } else if Touched(u, k) {
      var key, row := NewKey(u, k), NewRow(u, k);
      if u.settings.enforcesUniqueness {
        EnforcedMaps(base, w.next, w.changed, w.deleted, Chosen(Old(u), hidden), k, Old(u)[k], key, row);
      } else {
        var conflicts := Conflicts(u.env.lib, SchemaOfUpdate(u), key, row.data, w.next - {k});
        ConflictsCover(u.env.lib, SchemaOfUpdate(u), key, row.data, w.next - {k});
        ChosenMinus(Old(u), hidden, conflicts);
        OverwritingMaps(base, w.next, w.changed, w.deleted, Chosen(Old(u), hidden), k, Old(u)[k], key, row, conflicts);
      }
    } else if k in w.next {
      ChosenPlus(Old(u), hidden, k);
      StayOver(base, w.next, w.changed, w.deleted, Chosen(Old(u), hidden), k, Old(u)[k]);
    } else {
      StayApart(base, w.next, w.changed, w.deleted, Chosen(Old(u), hidden), k, Old(u)[k]);
    }
  }

  lemma ConflictsCover(lib: Library, schema: Schema, key: string, data: Row, rows: TableRows)
    ensures key in rows ==> key in Conflicts(lib, schema, key, data, rows)
  {
  }

  lemma StayOver(base: TableRows, next: TableRows, changed: TableRows, deleted: set<string>, over: TableRows, k: string, was: StoredRow)
    requires next == ((base - deleted) + changed) + over && k !in base && k !in over && k in next
    ensures k in changed && next[k := was] == ((base[k := was] - deleted) + changed) + over[k := was]
  {
  }

  lemma StayApart(base: TableRows, next: TableRows, changed: TableRows, deleted: set<string>, over: TableRows, k: string, was: StoredRow)
    requires next == ((base - deleted) + changed) + over && k !in base && k !in over && k !in next && k !in deleted
    ensures next[k := was] == ((base[k := was] - deleted) + changed) + over
  {
  }

  lemma ChosenHas(rows: TableRows, keys: set<string>)
    ensures forall k :: k in Chosen(rows, keys) <==> k in rows && k in keys
  {
  }

  lemma ChosenPlus(rows: TableRows, keys: set<string>, k: string)
    requires k in rows
    ensures Chosen(rows, keys + {k}) == Chosen(rows, keys)[k := rows[k]]
  {
  }

  lemma ChosenMinus(rows: TableRows, keys: set<string>, gone: set<string>)
    ensures Chosen(rows, keys - gone) == Chosen(rows, keys) - gone
  {
  }

  lemma EnforcedMaps(base: TableRows, next: TableRows, changed: TableRows, deleted: set<string>, over: TableRows, k: string, was: StoredRow, key: string, row: StoredRow)
    requires next == ((base - deleted) + changed) + over && k !in base && k !in over && key !in next - {k}
    ensures var deleted' := if key != k then deleted + {k} else deleted;
            var changed' := (if key != k then changed - {k} else changed)[key := row];
            (next - {k})[key := row] == ((base[k := was] - deleted') + changed') + over
  {
  }

  lemma OverwritingMaps(base: TableRows, next: TableRows, changed: TableRows, deleted: set<string>, over: TableRows, k: string, was: StoredRow,
                        key: string, row: StoredRow, conflicts: set<string>)
    requires next == ((base - deleted) + changed) + over && k !in base && k !in over
    requires key in next - {k} ==> key in conflicts
    ensures var deleted' := (if key != k then deleted + {k} else deleted) + conflicts;
            var changed' := ((if key != k then changed - {k} else changed) - conflicts)[key := row];
            ((next - {k}) - conflicts)[key := row] == ((base[k := was] - deleted') + changed') + (over - conflicts)
  {
    var batch := (base - deleted) + changed;
    WithoutOver(batch, over, k, conflicts);
    assert key in over ==> key in next - {k};
    PutUnder((batch - {k}) - conflicts, over - conflicts, key, row);
    if key != k {
      MovingMaps(base, changed, deleted, k, was, key, row, conflicts);
    } else {
      StayingMaps(base, changed, deleted, k, was, row, conflicts);
    }
  }

  lemma WithoutOver(batch: TableRows, over: TableRows, k: string, conflicts: set<string>)
    requires k !in over
    ensures ((batch + over) - {k}) - conflicts == ((batch - {k}) - conflicts) + (over - conflicts)
  {
  }

  lemma PutUnder(batch: TableRows, over: TableRows, key: string, row: StoredRow)
    requires key !in over
    ensures (batch + over)[key := row] == batch[key := row] + over
  {
  }

  lemma MovingMaps(base: TableRows, changed: TableRows, deleted: set<string>, k: string, was: StoredRow, key: string, row: StoredRow, conflicts: set<string>)
    requires k !in base && key != k
    ensures (base[k := was] - (deleted + {k} + conflicts)) + ((changed - {k}) - conflicts)[key := row]
         == ((((base - deleted) + changed) - {k}) - conflicts)[key := row]
  {
  }

  lemma StayingMaps(base: TableRows, changed: TableRows, deleted: set<string>, k: string, was: StoredRow, row: StoredRow, conflicts: set<string>)
    requires k !in base
    ensures (base[k := was] - (deleted + conflicts)) + (changed - conflicts)[k := row]
         == ((((base - deleted) + changed) - {k}) - conflicts)[k := row]
  {
  }

  lemma NothingClobbered(u: Update)
    ensures Clobbered(u, []) == {}
  {
  }

  /** Only a row that another one moves onto before it is visited can be hidden; with keys
      enforced every such row is. */
  lemma {:induction false} HiddenIsClobbered(u: Update, keys: seq<string>)
    requires (forall k :: k in keys ==> k in Old(u)) && (forall i, j :: 0 <= i < j < |keys| ==> keys[i] != keys[j])
    requires Walk(u, keys).Going?
    ensures Hidden(u, keys) <= Clobbered(u, keys)
    ensures u.settings.enforcesUniqueness ==> Hidden(u, keys) == Clobbered(u, keys)
    decreases |keys|
  {
    hide Visit, Clobbered, NewKey, NewRow, Touched, Conflicts;
    if keys == [] {
      NothingClobbered(u);
    } else {
      var m := |keys| - 1;
      var front, k := keys[..m], keys[m];
      HiddenIsClobbered(u, front);
      ClobberedOneMore(u, keys);
      assert k !in front;
      if k in Walk(u, front).next { KeysInPlay(u, front, k); }
      if u.settings.enforcesUniqueness { TakenKeys(u, front, k); }
      forall i | 0 <= i < m && NewKey(u, front[i]) == k ensures !Touched(u, k) ==> Clobbers(u, keys, i, m) {}
    }
  }

  /** A row moved to a key not visited yet is due to be stored there. */
  lemma {:induction false} LandedIsChanged(u: Update, keys: seq<string>, i: nat, n: string)
    requires (forall k :: k in keys ==> k in Old(u)) && i < |keys| && NewKey(u, keys[i]) == n && n !in keys
    requires u.settings.enforcesUniqueness && Walk(u, keys).Going?
    ensures n in Walk(u, keys).changed && Walk(u, keys).changed[n] == NewRow(u, keys[i])
    decreases |keys|
  {
    hide NewKey, NewRow, ForeignKeysAccept;
    var m := |keys| - 1;
    var front, k := keys[..m], keys[m];
    assert k in keys;
    if i == m {
      StaysUntouched(u, k);
    } else {
      LandedIsChanged(u, front, i, n);
      assert NewKey(u, front[i]) == n;
      TakenKeys(u, front, n);
    }
  }

  lemma StaysUntouched(u: Update, k: string)
    requires k in Old(u) && NewKey(u, k) != k
    ensures Touched(u, k)
  {
  }

  /** A row that was overwritten in memory is still due to be stored. */
  lemma {:induction false} ClobberedIsChanged(u: Update, keys: seq<string>, i: nat, j: nat)
    requires (forall k :: k in keys ==> k in Old(u)) && (forall a, b :: 0 <= a < b < |keys| ==> keys[a] != keys[b])
    requires u.settings.enforcesUniqueness && Walk(u, keys).Going? && Clobbers(u, keys, i, j)
    ensures var w := Walk(u, keys);
            keys[j] in w.changed && w.changed[keys[j]] == NewRow(u, keys[i]) && keys[j] in w.next && w.next[keys[j]] == Old(u)[keys[j]]
    decreases |keys|
  {
    hide NewKey, NewRow, ForeignKeysAccept;
    var m := |keys| - 1;
    var front, k := keys[..m], keys[m];
    assert front[i] == keys[i];
    if j == m {
      assert k !in front;
      LandedIsChanged(u, front, i, k);
    } else {
      assert front[j] == keys[j] && Clobbers(u, front, i, j);
      ClobberedIsChanged(u, front, i, j);
    }
  }

  /** Of two rows, the first moved onto the second, only the second is left; the first is still
      due to be stored in its place. */
  lemma {:induction false} SecondRowSwallowsFirst(u: Update, a: string, b: string)
    requires Old(u).Keys == {a, b} && u.settings.enforcesUniqueness
    requires Touched(u, a) && NewKey(u, a) == b && b !in u.given
    ensures a != b && Walk(u, [a, b]).Going?
    ensures Walk(u, [a, b]).next == map[b := Old(u)[b]] && Walk(u, [a, b]).changed == map[b := NewRow(u, a)]
  {
    hide ForeignKeysAccept, NewRow, NewKey;
    assert [a, b][..1] == [a] && [a][..0] == [];
    assert Walk(u, []) == Going(map[], map[], {}, []);
    assert Walk(u, [a]).next == map[b := NewRow(u, a)] && Walk(u, [a]).changed == map[b := NewRow(u, a)];
  }

  lemma AllListed(u: Update, keys: seq<string>)
    requires Lists(keys, Old(u))
    ensures Chosen(Old(u), KeySet(keys)) == Old(u)
  {
  }

  // ---------- integrity ----------

  /** The recorded changes are those of the rows whose data changed. */
  ghost predicate RecordsChanges(u: Update, keys: seq<string>, changes: seq<Change>)
    requires forall k :: k in keys ==> k in Old(u)
  {
    && (forall i :: 0 <= i < |keys| && NewRow(u, keys[i]).data != Old(u)[keys[i]].data
          ==> Change(Old(u)[keys[i]].data, NewRow(u, keys[i]).data) in changes)
    && (forall c :: c in changes ==> exists i :: 0 <= i < |keys| && c == Change(Old(u)[keys[i]].data, NewRow(u, keys[i]).data))
  }

  lemma {:induction false} ChangesAreRecorded(u: Update, keys: seq<string>)
    requires (forall k :: k in keys ==> k in Old(u)) && u.settings.enforcesUniqueness && Walk(u, keys).Going?
    ensures RecordsChanges(u, keys, Walk(u, keys).changes)
    decreases |keys|
  {
    hide Visit, NewRow, NewKey;
    if keys != [] {
      var m := |keys| - 1;
      ChangesAreRecorded(u, keys[..m]);
      EnforcedStep(u, Walk(u, keys[..m]), keys[m]);
      OneMoreChange(u, keys, Walk(u, keys[..m]).changes);
    }
  }

  lemma OneMoreChange(u: Update, keys: seq<string>, changes: seq<Change>)
    requires (forall k :: k in keys ==> k in Old(u)) && keys != []
    requires RecordsChanges(u, keys[..|keys| - 1], changes)
    ensures var k := keys[|keys| - 1];
            var c := Change(Old(u)[k].data, NewRow(u, k).data);
            RecordsChanges(u, keys, if NewRow(u, k).data != Old(u)[k].data then changes + [c] else changes)
  {
    hide NewRow;
    var m := |keys| - 1;
    var front, k := keys[..m], keys[m];
    var changes' := if NewRow(u, k).data != Old(u)[k].data then changes + [Change(Old(u)[k].data, NewRow(u, k).data)] else changes;
    forall i | 0 <= i < |keys| && NewRow(u, keys[i]).data != Old(u)[keys[i]].data
      ensures Change(Old(u)[keys[i]].data, NewRow(u, keys[i]).data) in changes'
    {
      if i < m { assert front[i] == keys[i]; }
    }
    forall c | c in changes' ensures exists i :: 0 <= i < |keys| && c == Change(Old(u)[keys[i]].data, NewRow(u, keys[i]).data) {
      if c in changes {
        var i :| 0 <= i < |front| && c == Change(Old(u)[front[i]].data, NewRow(u, front[i]).data);
        assert c == Change(Old(u)[keys[i]].data, NewRow(u, keys[i]).data);
      } else {
        assert c == Change(Old(u)[keys[m]].data, NewRow(u, keys[m]).data);
      }
    }
  }

  lemma MovedReplaces(u: Update, keys: seq<string>, next: TableRows, changes: seq<Change>)
    requires Lists(keys, Old(u)) && AllMoved(u, keys, next) && RecordsChanges(u, keys, changes)
    ensures Replaces(u.env, u.db, u.table, next, changes)
  {
    hide NewKey, NewRow, ForeignKeysAccept;
    var rows := Old(u);
    forall p | p in rows ensures Kept(rows[p].data, next) || exists i :: 0 <= i < |changes| && changes[i].before == rows[p].data {
      var i :| 0 <= i < |keys| && keys[i] == p;
      assert next[NewKey(u, keys[i])] == NewRow(u, keys[i]);
      if NewRow(u, p).data != rows[p].data { assert Change(rows[p].data, NewRow(u, p).data) in changes; }
    }
    forall c | 0 <= c < |changes| ensures Kept(changes[c].after, next) {
      assert changes[c] in changes;
      var i :| 0 <= i < |keys| && changes[c] == Change(rows[keys[i]].data, NewRow(u, keys[i]).data);
      assert next[NewKey(u, keys[i])] == NewRow(u, keys[i]);
    }
    forall n | n in next ensures Kept(next[n].data, rows) || ForeignKeysAccept(u.env, u.db, u.table, next[n].data) {
      var i :| 0 <= i < |keys| && NewKey(u, keys[i]) == n;
      assert next[n] == NewRow(u, keys[i]);
      AcceptedOrKept(u, keys[i]);
    }
  }

  lemma AcceptedOrKept(u: Update, k: string)
    requires k in Old(u)
    ensures NewRow(u, k).data == Old(u)[k].data || ForeignKeysAccept(u.env, u.db, u.table, NewRow(u, k).data)
  {
    hide ForeignKeysAccept;
  }

  /** An UPDATE with keys enforced in which no row overtakes another keeps referential integrity,
      on schemas whose keys do not overlap or chain. */
  lemma {:induction false} UpdateStatementKeepsIntegrity(u: Update, keys: seq<string>, rank: string -> nat)
    requires Lists(keys, Old(u)) && u.settings.enforcesUniqueness && NoneOvertakes(u, keys)
    requires Walk(u, keys).Going? && !Blocked(u.env, u.db, u.table, Walk(u, keys).changes)
    requires GoodSchemas(u.env, u.table, rank) && Shown(u.env, u.db) && Integrity(u.env, u.db)
    ensures Integrity(u.env, Updated(u.env, u.db, u.table, Walk(u, keys).next, Walk(u, keys).changes))
  {
    hide Integrity, Walk, Blocked, Updated, GoodSchemas, Shown, AllMoved, RecordsChanges, NoneOvertakes;
    NoneIsLost(u, keys);
    ChangesAreRecorded(u, keys);
    MovedReplaces(u, keys, Walk(u, keys).next, Walk(u, keys).changes);
    UpdateKeepsIntegrity(u.env, u.db, u.table, Walk(u, keys).next, Walk(u, keys).changes, rank);
  }
}
