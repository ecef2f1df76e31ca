/** Generated ids over whole runs of statements on all tables. */
module AutoIncrement {
  import opened Wrappers
  import opened Json
  import opened Catalog
  import opened StorageFormat
  import opened UniqueKeys
  import opened ForeignKeys
  import opened ParentUpdate
  import opened DeleteIntegrity
  import opened Inserting
  import opened UpdateSteps
  import opened Runs

  /** A table and its auto-increment column. */
  datatype Numbered = Numbered(env: Env, settings: Settings, table: string, column: string)

  /** The column is the primary key. */
  predicate AutoKeyed(at: Numbered) {
    var schema := SchemaOf(at.env.schemas, at.table);
    schema.primaryKey == [at.column] && schema.autoColumn == Some(at.column) && '.' !in at.column
  }

  function CounterName(at: Numbered): string { CounterKey(at.table, at.column) }

  /** The id that is generated next. */
  function NextId(at: Numbered, s: State): int { Incremented(CounterOf(s.counters, CounterName(at))) }

  /** The integer id is at most the counter, which exists. */
  predicate Counted(at: Numbered, counters: Counters, id: int) { CounterName(at) in counters && id <= counters[CounterName(at)] }

  /** Every live integer id and every issued id is at most the counter. */
  ghost predicate Bounded(at: Numbered, s: State, issued: set<int>) {
    && (CounterName(at) in s.counters ==> I64_MIN <= s.counters[CounterName(at)] <= I64_MAX)
    && LiveCounted(at, RowsOf(s.db, at.table), s.counters) && forall n :: n in issued ==> Counted(at, s.counters, n)
  }

  ghost predicate LiveCounted(at: Numbered, rows: TableRows, counters: Counters) {
    forall k :: k in rows && rows[k].id.Num? ==> Counted(at, counters, rows[k].id.n)
  }

  /** The next id is larger than every live integer id, and was not issued. */
  ghost predicate Fresh(at: Numbered, s: State, issued: set<int>) {
    (forall k :: k in RowsOf(s.db, at.table) && RowsOf(s.db, at.table)[k].id.Num? ==> RowsOf(s.db, at.table)[k].id.n < NextId(at, s))
    && NextId(at, s) !in issued
  }

  /** Below the maximum of the counter. */
  predicate Room(at: Numbered, s: State) { CounterOf(s.counters, CounterName(at)) < I64_MAX }

  lemma BoundedIsFresh(at: Numbered, s: State, issued: set<int>)
    requires Bounded(at, s, issued) && Room(at, s)
    ensures Fresh(at, s, issued)
  {
  }

  /** At its maximum the counter wraps: on a table with a live 64-bit id the next id is larger than
      every live id exactly when the counter is below the maximum. */
  lemma FreshIffRoom(at: Numbered, s: State, issued: set<int>, k: string)
    requires Bounded(at, s, issued) && k in RowsOf(s.db, at.table)
    requires RowsOf(s.db, at.table)[k].id.Num? && RowsOf(s.db, at.table)[k].id.n >= I64_MIN
    ensures Fresh(at, s, issued) <==> Room(at, s)
  {
    if Room(at, s) { BoundedIsFresh(at, s, issued); }
  }

  // ---------- one row of an INSERT ----------

  /** The identity an insertion resolves, when it gets that far. */
  function Resolved(env: Env, settings: Settings, db: Database, table: string, counters: Counters, row: Prepared, uuid: string): Option<Identity> {
    if row.Rejected? || !ForeignKeysAccept(env, db, table, row.data) then None
    else Some(ResolveRowId(settings, SchemaOf(env.schemas, table), table, row.data, counters, uuid))
  }

  predicate Generates(env: Env, settings: Settings, db: Database, table: string, counters: Counters, row: Prepared, uuid: string) {
    var id := Resolved(env, settings, db, table, counters, row, uuid);
    id.Some? && id.value.generated
  }

  /** Generated ids are the next numbers of the counter of the key column. */
  lemma ResolvedIdentity(settings: Settings, schema: Schema, table: string, data: Row, counters: Counters, uuid: string)
    ensures var identity := ResolveRowId(settings, schema, table, data, counters, uuid);
            if identity.generated then
              KeyColumn(schema).Some? && identity == NextAutoInc(table, KeyColumn(schema).value, counters)
            else identity.counters == counters
  {
  }

  /** No counter wraps at this row. */
  predicate NoWrap(env: Env, settings: Settings, db: Database, table: string, counters: Counters, row: Prepared, uuid: string) {
    var column := KeyColumn(SchemaOf(env.schemas, table));
    Generates(env, settings, db, table, counters, row, uuid) && column.Some? ==> CounterOf(counters, CounterKey(table, column.value)) < I64_MAX
  }

  /** A counter only goes up, whichever table the row is for. */
  lemma CountersGrow(env: Env, settings: Settings, options: Options, db: Database, table: string, counters: Counters, row: Prepared, uuid: string, c: string)
    requires NoWrap(env, settings, db, table, counters, row, uuid)
    ensures var counters' := InsertRow(env, settings, options, db, table, counters, row, uuid).counters;
            (c in counters ==> c in counters' && counters[c] <= counters'[c])
            && (c in counters && I64_MIN <= counters[c] <= I64_MAX ==> I64_MIN <= counters'[c] <= I64_MAX)
            && (c !in counters && c in counters' ==> I64_MIN <= counters'[c] <= I64_MAX)
  {
    if row.Ready? && ForeignKeysAccept(env, db, table, row.data) {
      var schema := SchemaOf(env.schemas, table);
      ResolvedIdentity(settings, schema, table, row.data, counters, uuid);
      var identity := ResolveRowId(settings, schema, table, row.data, counters, uuid);
      PlacedIds(env, settings, options, table, RowsOf(db, table), Raised(schema, table, identity), identity, WithIdentity(schema, row.data, identity));
      hide ForeignKeysAccept, ResolveRowId, Place, WithIdentity, ExactInt;
    }
  }

  /** In every mode of INSERT a row of the table keeps its id, or has the new identity; the counters
      are not touched any more. */
  lemma PlacedIds(env: Env, settings: Settings, options: Options, table: string, rows: TableRows, counters: Counters, identity: Identity, data: Row)
    ensures var step := Place(env, settings, options, table, rows, counters, identity, data);
            step.counters == counters
            && forall k :: k in step.rows ==> (k in rows && step.rows[k].id == rows[k].id) || step.rows[k].id == identity.id
  {
    hide Conflicts;
  }

  /** An explicit integer id fits the counter. */
  predicate FitsCounter(row: Prepared, column: string) {
    row.Ready? && column in row.data && row.data[column].Num? ==> I64_MIN <= row.data[column].n <= I64_MAX
  }

  /** Whatever becomes of the row, its integer identity is counted. */
  lemma IdentityIsCounted(at: Numbered, s: State, row: Prepared, uuid: string)
    requires AutoKeyed(at) && FitsCounter(row, at.column) && row.Ready?
    requires CounterName(at) in s.counters ==> I64_MIN <= s.counters[CounterName(at)] <= I64_MAX
    ensures var schema := SchemaOf(at.env.schemas, at.table);
            var identity := ResolveRowId(at.settings, schema, at.table, row.data, s.counters, uuid);
            (identity.generated ==> identity.id == Num(NextId(at, s)))
            && (identity.id.Num? ==> Counted(at, Raised(schema, at.table, identity), identity.id.n))
  {
  }

  lemma InsertRowKeepsBounded(at: Numbered, options: Options, s: State, issued: set<int>, row: Prepared, uuid: string)
    requires AutoKeyed(at) && Bounded(at, s, issued) && FitsCounter(row, at.column)
    requires NoWrap(at.env, at.settings, s.db, at.table, s.counters, row, uuid)
    ensures var step := InsertRow(at.env, at.settings, options, s.db, at.table, s.counters, row, uuid);
            Bounded(at, State(s.db[at.table := step.rows], step.counters), issued + NewlyIssued(at, s, row, uuid))
  {
    CountersGrow(at.env, at.settings, options, s.db, at.table, s.counters, row, uuid, CounterName(at));
    if Resolved(at.env, at.settings, s.db, at.table, s.counters, row, uuid).Some? {
      IdentityIsCounted(at, s, row, uuid);
      var schema := SchemaOf(at.env.schemas, at.table);
      var identity := ResolveRowId(at.settings, schema, at.table, row.data, s.counters, uuid);
      PlacedIds(at.env, at.settings, options, at.table, RowsOf(s.db, at.table), Raised(schema, at.table, identity), identity, WithIdentity(schema, row.data, identity));
      hide ForeignKeysAccept, ResolveRowId, Place, WithIdentity, Raised, NoWrap;
    }
  }

  /** The id that inserting the row issues. */
  function NewlyIssued(at: Numbered, s: State, row: Prepared, uuid: string): set<int> {
    if Generates(at.env, at.settings, s.db, at.table, s.counters, row, uuid) then {NextId(at, s)} else {}
  }

  // ---------- the rows of an INSERT ----------

  /** Before row `i` of an INSERT. */
  function Before(env: Env, settings: Settings, options: Options, s: State, table: string, rows: seq<Prepared>, uuids: nat -> string, i: nat): State
    requires i <= |rows|
  {
    var step := InsertRows(env, settings, options, s.db, table, s.counters, rows[..i], uuids);
    State(s.db[table := step.rows], step.counters)
  }

  /** No counter wraps during the INSERT. */
  ghost predicate NeverWraps(env: Env, settings: Settings, options: Options, s: State, table: string, rows: seq<Prepared>, uuids: nat -> string) {
    forall i :: 0 <= i < |rows| ==>
      var b := Before(env, settings, options, s, table, rows, uuids, i);
      NoWrap(env, settings, b.db, table, b.counters, rows[i], uuids(i))
  }

  /** The ids an INSERT into the table issues. */
  function IssuedBy(at: Numbered, options: Options, s: State, rows: seq<Prepared>, uuids: nat -> string): set<int>
    decreases |rows|
  {
    if rows == [] then {}
    else
      var n := |rows| - 1;
      var before := InsertRows(at.env, at.settings, options, s.db, at.table, s.counters, rows[..n], uuids);
      IssuedBy(at, options, s, rows[..n], uuids)
      + if before.error.Some? then {} else NewlyIssued(at, State(s.db[at.table := before.rows], before.counters), rows[n], uuids(n))
  }

  lemma {:induction false} InsertKeepsBounded(at: Numbered, options: Options, s: State, issued: set<int>, rows: seq<Prepared>, uuids: nat -> string)
    requires AutoKeyed(at) && Bounded(at, s, issued) && forall i :: 0 <= i < |rows| ==> FitsCounter(rows[i], at.column)
    requires NeverWraps(at.env, at.settings, options, s, at.table, rows, uuids)
    ensures var step := InsertRows(at.env, at.settings, options, s.db, at.table, s.counters, rows, uuids);
            Bounded(at, State(s.db[at.table := step.rows], step.counters), issued + IssuedBy(at, options, s, rows, uuids))
    decreases |rows|
  {
    hide InsertRow, NewlyIssued, NoWrap, FitsCounter, Counted;
    if rows == [] {
      assert issued + {} == issued;
    } else {
      var n := |rows| - 1;
      FrontNeverWraps(at.env, at.settings, options, s, at.table, rows, uuids);
      InsertKeepsBounded(at, options, s, issued, rows[..n], uuids);
      var before := InsertRows(at.env, at.settings, options, s.db, at.table, s.counters, rows[..n], uuids);
      var so := issued + IssuedBy(at, options, s, rows[..n], uuids);
      if before.error.None? {
        var b := State(s.db[at.table := before.rows], before.counters);
        assert b == Before(at.env, at.settings, options, s, at.table, rows, uuids, n);
        InsertRowKeepsBounded(at, options, b, so, rows[n], uuids(n));
        assert so + NewlyIssued(at, b, rows[n], uuids(n)) == issued + IssuedBy(at, options, s, rows, uuids);
      } else {
        assert issued + IssuedBy(at, options, s, rows, uuids) == so;
      }
    }
  }

  lemma FrontNeverWraps(env: Env, settings: Settings, options: Options, s: State, table: string, rows: seq<Prepared>, uuids: nat -> string)
    requires rows != [] && NeverWraps(env, settings, options, s, table, rows, uuids)
    ensures NeverWraps(env, settings, options, s, table, rows[..|rows| - 1], uuids)
  {
    hide NoWrap, InsertRows;
    var front := rows[..|rows| - 1];
    forall i | 0 <= i < |front|
      ensures var b := Before(env, settings, options, s, table, front, uuids, i); NoWrap(env, settings, b.db, table, b.counters, front[i], uuids(i))
    {
      assert front[..i] == rows[..i] && Before(env, settings, options, s, table, rows, uuids, i) == Before(env, settings, options, s, table, front, uuids, i);
    }
  }

  lemma OtherRowKeepsBounded(at: Numbered, options: Options, s: State, issued: set<int>, table: string, row: Prepared, uuid: string)
    requires table != at.table && Bounded(at, s, issued) && NoWrap(at.env, at.settings, s.db, table, s.counters, row, uuid)
    ensures var step := InsertRow(at.env, at.settings, options, s.db, table, s.counters, row, uuid);
            Bounded(at, State(s.db[table := step.rows], step.counters), issued)
  {
    CountersGrow(at.env, at.settings, options, s.db, table, s.counters, row, uuid, CounterName(at));
    hide InsertRow, NoWrap;
  }

  /** An INSERT into another table, even one that shares the counter, only lets it grow. */
  lemma {:induction false} OtherInsertKeepsBounded(at: Numbered, options: Options, s: State, issued: set<int>, table: string, rows: seq<Prepared>, uuids: nat -> string)
    requires table != at.table && Bounded(at, s, issued) && NeverWraps(at.env, at.settings, options, s, table, rows, uuids)
    ensures var step := InsertRows(at.env, at.settings, options, s.db, table, s.counters, rows, uuids);
            Bounded(at, State(s.db[table := step.rows], step.counters), issued)
    decreases |rows|
  {
    if rows == [] {
      SameRowsStayBounded(at, s, issued, table);
    } else {
      hide InsertRow, NoWrap, Bounded;
      var n := |rows| - 1;
      FrontNeverWraps(at.env, at.settings, options, s, table, rows, uuids);
      OtherInsertKeepsBounded(at, options, s, issued, table, rows[..n], uuids);
      var before := InsertRows(at.env, at.settings, options, s.db, table, s.counters, rows[..n], uuids);
      if before.error.None? {
        var b := State(s.db[table := before.rows], before.counters);
        assert b == Before(at.env, at.settings, options, s, table, rows, uuids, n);
        hide NeverWraps;
        OtherRowKeepsBounded(at, options, b, issued, table, rows[n], uuids(n));
        WrittenTwice(s.db, table, before.rows, InsertRow(at.env, at.settings, options, b.db, table, b.counters, rows[n], uuids(n)).rows);
      }
    }
  }

  lemma WrittenTwice(db: Database, table: string, a: TableRows, b: TableRows)
    ensures db[table := a][table := b] == db[table := b]
  {
  }

  lemma SameRowsStayBounded(at: Numbered, s: State, issued: set<int>, table: string)
    requires Bounded(at, s, issued)
    ensures Bounded(at, State(s.db[table := RowsOf(s.db, table)], s.counters), issued)
  {
  }

  // ---------- DELETE, UPDATE, TRUNCATE ----------

  lemma DeleteKeepsBounded(at: Numbered, s: State, issued: set<int>, table: string, keys: set<string>)
    requires Bounded(at, s, issued)
    ensures Bounded(at, s.(db := DeleteRows(at.env, s.db, table, keys).db), issued)
  {
    hide DeleteRows, Counted;
    DeleteWears(at.env, s.db, table, keys);
    var rows, rows' := RowsOf(s.db, at.table), RowsOf(DeleteRows(at.env, s.db, table, keys).db, at.table);
    forall k | k in rows' && rows'[k].id.Num? ensures Counted(at, s.counters, rows'[k].id.n) {
      assert Worn(at.env.schemas, at.table, rows[k], rows'[k]);
    }
  }

  /** In either mode every row an UPDATE makes is the new row of an old one. */
  lemma {:induction false} RowsAreNew(u: Update, keys: seq<string>, n: string)
    requires (forall k :: k in keys ==> k in Old(u)) && Walk(u, keys).Going? && n in Walk(u, keys).next
    ensures exists k :: k in keys && Walk(u, keys).next[n] == NewRow(u, k)
    decreases |keys|
  {
    hide NewKey, ForeignKeysAccept, Conflicts;
    var m := |keys| - 1;
    var w := Walk(u, keys[..m]);
    assert keys[m] in keys;
    if n in w.next && Walk(u, keys).next[n] == w.next[n] {
      RowsAreNew(u, keys[..m], n);
      var k :| k in keys[..m] && w.next[n] == NewRow(u, k);
      assert k in keys;
    } else {
      assert Walk(u, keys).next[n] == NewRow(u, keys[m]);
    }
  }

  /** The new integer ids of an UPDATE are at most the counter. */
  ghost predicate NewIdsCounted(at: Numbered, s: State, u: Update) {
    forall k :: k in Old(u) && NewRow(u, k).id.Num? ==> Counted(at, s.counters, NewRow(u, k).id.n)
  }

  lemma UpdateKeepsBounded(at: Numbered, s: State, issued: set<int>, e: Statement)
    requires Bounded(at, s, issued) && e.Modify? && e.table == at.table && Possible(s, e)
    requires NewIdsCounted(at, s, TheUpdate(at.env, at.settings, s, e))
    ensures Bounded(at, Execute(at.env, at.settings, s, e), issued)
  {
    hide Walk, NewRow, Counted, ChildrenAfter, Blocked, ConstraintsHold;
    var u := TheUpdate(at.env, at.settings, s, e);
    var w := Walk(u, e.order);
    if w.Going? {
      forall n | n in w.next && w.next[n].id.Num? ensures Counted(at, s.counters, w.next[n].id.n) {
        RowsAreNew(u, e.order, n);
      }
    }
  }

  /** An UPDATE with keys enforced in which no row moves onto a later one leaves the next id fresh
      exactly when every new integer id is at most the counter, which the UPDATE does not raise. */
  lemma UpdateKeepsFreshIff(at: Numbered, s: State, issued: set<int>, e: Statement)
    requires Bounded(at, s, issued) && Room(at, s) && e.Modify? && e.table == at.table && at.table in at.env.schemas && Possible(s, e)
    requires var u := TheUpdate(at.env, at.settings, s, e);
             at.settings.enforcesUniqueness && NoneOvertakes(u, e.order) && Verdict(u, Walk(u, e.order)).None?
    ensures var u := TheUpdate(at.env, at.settings, s, e);
            Fresh(at, Execute(at.env, at.settings, s, e), issued)
            <==> forall k :: k in Old(u) && NewRow(u, k).id.Num? ==> NewRow(u, k).id.n <= CounterOf(s.counters, CounterName(at))
  {
    hide Walk, NewRow, NewKey, ChildrenAfter, Blocked, ConstraintsHold, NoneOvertakes, AllMoved;
    var u := TheUpdate(at.env, at.settings, s, e);
    var next := Walk(u, e.order).next;
    var s' := Execute(at.env, at.settings, s, e);
    NoneIsLost(u, e.order);
    assert RowsOf(s'.db, at.table) == next && s'.counters == s.counters && NextId(at, s') == NextId(at, s) && NextId(at, s) !in issued;
    NewIdsBelow(u, e.order, next, CounterOf(s.counters, CounterName(at)));
  }

  lemma NewIdsBelow(u: Update, keys: seq<string>, next: TableRows, n: int)
    requires Lists(keys, Old(u)) && AllMoved(u, keys, next)
    ensures (forall k :: k in next && next[k].id.Num? ==> next[k].id.n <= n)
       <==> (forall k :: k in Old(u) && NewRow(u, k).id.Num? ==> NewRow(u, k).id.n <= n)
  {
    hide NewRow, NewKey;
    if forall k :: k in next && next[k].id.Num? ==> next[k].id.n <= n {
      forall k | k in Old(u) && NewRow(u, k).id.Num? ensures NewRow(u, k).id.n <= n {
        var i :| 0 <= i < |keys| && keys[i] == k;
        assert NewKey(u, keys[i]) in next && next[NewKey(u, keys[i])] == NewRow(u, keys[i]);
      }
    }
    if forall k :: k in Old(u) && NewRow(u, k).id.Num? ==> NewRow(u, k).id.n <= n {
      forall k | k in next && next[k].id.Num? ensures next[k].id.n <= n {
        var i :| 0 <= i < |keys| && NewKey(u, keys[i]) == k;
        assert keys[i] in Old(u) && next[k] == NewRow(u, keys[i]);
      }
    }
  }

  /** An UPDATE of another table leaves the ids of this one alone. */
  lemma OtherUpdateKeepsBounded(at: Numbered, s: State, issued: set<int>, e: Statement)
    requires Bounded(at, s, issued) && e.Modify? && e.table != at.table && Possible(s, e)
    ensures Bounded(at, Execute(at.env, at.settings, s, e), issued)
  {
    hide Walk, AfterKeys, OtherReferences, Blocked, ConstraintsHold, Counted;
  }

  /** TRUNCATE of another table leaves the next id fresh exactly when the name of that table and a
      colon do not begin the name of the counter, or nothing stands against the id 1. */
  lemma TruncateKeepsFreshIff(at: Numbered, s: State, issued: set<int>, table: string)
    requires Bounded(at, s, issued) && Room(at, s) && table != at.table
    ensures Fresh(at, Execute(at.env, at.settings, s, Truncate(table)), issued)
       <==> !(table + ":" <= CounterName(at))
            || (1 !in issued && forall k :: k in RowsOf(s.db, at.table) && RowsOf(s.db, at.table)[k].id.Num? ==> RowsOf(s.db, at.table)[k].id.n < 1)
  {
    var s' := Execute(at.env, at.settings, s, Truncate(table));
    assert RowsOf(s'.db, at.table) == RowsOf(s.db, at.table);
    if !(table + ":" <= CounterName(at)) {
      assert NextId(at, s') == NextId(at, s);
      BoundedIsFresh(at, s, issued);
    } else {
      assert NextId(at, s') == 1;
    }
  }

  lemma TruncateKeepsBounded(at: Numbered, s: State, issued: set<int>, table: string)
    requires Bounded(at, s, issued) && (table == at.table || !(table + ":" <= CounterName(at)))
    ensures Bounded(at, Execute(at.env, at.settings, s, Truncate(table)), if table == at.table then {} else issued)
  {
    assert table == at.table ==> table + ":" <= CounterName(at);
  }

  // ---------- runs ----------

  /** What keeps the ids at most the counter: no counter wraps; explicit ids fit it; an UPDATE gives
      no larger ids; no TRUNCATE takes the counter of this table away with that of another. */
  ghost predicate GuardsIds(at: Numbered, s: State, e: Statement) {
    match e
    case Insert(table, prepared, options, uuids) =>
      NeverWraps(at.env, at.settings, options, s, table, prepared, uuids)
      && (table == at.table ==> forall i :: 0 <= i < |prepared| ==> FitsCounter(prepared[i], at.column))
    case Delete(_, _) => true
    case Modify(table, _, _, _) => table == at.table ==> NewIdsCounted(at, s, TheUpdate(at.env, at.settings, s, e))
    case Truncate(table) => table == at.table || !(table + ":" <= CounterName(at))
  }

  /** The ids issued since the last TRUNCATE of the table, after the statement. */
  function IssuedAfter(at: Numbered, s: State, e: Statement, issued: set<int>): set<int> {
    match e
    case Insert(table, prepared, options, uuids) => if table == at.table then issued + IssuedBy(at, options, s, prepared, uuids) else issued
    case Truncate(table) => if table == at.table then {} else issued
    case _ => issued
  }

  function Issued(at: Numbered, states: seq<State>, statements: seq<Statement>, n: nat): set<int>
    requires n <= |statements| < |states|
  {
    if n == 0 then {} else IssuedAfter(at, states[n - 1], statements[n - 1], Issued(at, states, statements, n - 1))
  }

  lemma StepKeepsBounded(at: Numbered, s: State, e: Statement, issued: set<int>)
    requires AutoKeyed(at) && Bounded(at, s, issued) && Possible(s, e) && GuardsIds(at, s, e)
    ensures Bounded(at, Execute(at.env, at.settings, s, e), IssuedAfter(at, s, e, issued))
  {
    hide Bounded, NeverWraps, FitsCounter, NewIdsCounted, InsertRows, DeleteRows, Walk, Blocked, ConstraintsHold, Updated, AutoKeyed;
    match e {
      case Insert(table, prepared, options, uuids) =>
        if table == at.table {
          InsertKeepsBounded(at, options, s, issued, prepared, uuids);
        } else {
          OtherInsertKeepsBounded(at, options, s, issued, table, prepared, uuids);
        }
      case Delete(table, keys) =>
        DeleteKeepsBounded(at, s, issued, table, keys);
      case Modify(table, _, _, _) =>
        if table == at.table { UpdateKeepsBounded(at, s, issued, e); } else { OtherUpdateKeepsBounded(at, s, issued, e); }
      case Truncate(table) =>
        TruncateKeepsBounded(at, s, issued, table);
    }
  }

  /** Over every run of statements on all tables the live and the issued ids stay at or below the
      counter. */
  lemma {:induction false} RunKeepsBounded(at: Numbered, states: seq<State>, statements: seq<Statement>, n: nat)
    requires AutoKeyed(at) && IsRun(at.env, at.settings, states, statements) && n <= |statements|
    requires forall i :: 0 <= i < |statements| ==> GuardsIds(at, states[i], statements[i])
    requires Bounded(at, states[0], {})
    ensures Bounded(at, states[n], Issued(at, states, statements, n))
    decreases n
  {
    hide Bounded, Execute, GuardsIds, AutoKeyed, IssuedAfter;
    if n > 0 {
      RunKeepsBounded(at, states, statements, n - 1);
      assert states[n - 1 + 1] == Execute(at.env, at.settings, states[n - 1], statements[n - 1]);
      StepKeepsBounded(at, states[n - 1], statements[n - 1], Issued(at, states, statements, n - 1));
    }
  }

  /** So at every point of the run the id generated next is larger than every live integer id and
      was not issued since the last TRUNCATE of the table. */
  lemma {:induction false} GeneratedIdIsFresh(at: Numbered, states: seq<State>, statements: seq<Statement>, n: nat, row: Prepared, uuid: string)
    requires AutoKeyed(at) && IsRun(at.env, at.settings, states, statements) && n <= |statements|
    requires forall i :: 0 <= i < |statements| ==> GuardsIds(at, states[i], statements[i])
    requires Bounded(at, states[0], {}) && Room(at, states[n])
    requires Generates(at.env, at.settings, states[n].db, at.table, states[n].counters, row, uuid)
    ensures Resolved(at.env, at.settings, states[n].db, at.table, states[n].counters, row, uuid).value.id == Num(NextId(at, states[n]))
    ensures Fresh(at, states[n], Issued(at, states, statements, n))
  {
    RunKeepsBounded(at, states, statements, n);
    BoundedIsFresh(at, states[n], Issued(at, states, statements, n));
    ResolvedIdentity(at.settings, SchemaOf(at.env.schemas, at.table), at.table, row.data, states[n].counters, uuid);
    hide IsRun, GuardsIds, Issued, ForeignKeysAccept, ResolveRowId;
  }

  // ---------- two runs that fail ----------

  const NUMBERED := Schema(["id"], Some("id"), [], [], [])

  const ENFORCING := Settings(true, false)

  function OneTable(lib: Library, table: string): Env { Env(lib, map[table := NUMBERED], [table]) }

  /** A row without an id goes into an empty table: it gets the id 1. */
  lemma FirstRow(lib: Library, env: Env, table: string, uuids: nat -> string)
    requires env.lib == lib && SchemaOf(env.schemas, table) == NUMBERED
    ensures Execute(env, ENFORCING, State(map[], map[]), Insert(table, [Ready(map[])], Options(false, false, None), uuids))
         == State(map[table := map[lib.text(Num(1)) := StoredRow(Num(1), table, map["id" := Num(1)])]], map[CounterKey(table, "id") := 1])
  {
    var rows, options := [Ready(map[])], Options(false, false, None);
    assert rows[..0] == [];
    var db: Database := map[table := map[]];
    assert RowsOf(map[], table) == map[] && RowsOf(db, table) == map[];
    var data: Row := map[];
    assert ForeignKeysAccept(env, db, table, data);
    var identity := ResolveRowId(ENFORCING, NUMBERED, table, data, map[], uuids(0));
    assert identity == Identity(Num(1), true, map[CounterKey(table, "id") := 1]);
    assert WithIdentity(NUMBERED, data, identity) == map["id" := Num(1)];
    assert Undotted(map["id" := Num(1)]) == map["id" := Num(1)];
    assert Conflicts(lib, NUMBERED, lib.text(Num(1)), map["id" := Num(1)], map[]) == {};
    var step := InsertRow(env, ENFORCING, options, db, table, map[], rows[0], uuids(0));
    assert step == Step(map[lib.text(Num(1)) := StoredRow(Num(1), table, map["id" := Num(1)])], map[CounterKey(table, "id") := 1], 1, None);
    var none: Database := map[];
    assert none[table := map[]] == db;
    assert InsertRows(env, ENFORCING, options, none, table, map[], rows[..0], uuids) == Step(map[], map[], 0, None);
    assert InsertRows(env, ENFORCING, options, none, table, map[], rows, uuids) == step;
    assert none[table := step.rows] == map[table := step.rows];
  }

  /** The row with the generated id 1 is updated to the id 5: the next id is 2, below a live one. */
  lemma UpdatedIdIsOvertaken(lib: Library, uuids: nat -> string)
    ensures var env := OneTable(lib, "t");
            var at := Numbered(env, ENFORCING, "t", "id");
            var s := Execute(env, ENFORCING, State(map[], map[]), Insert("t", [Ready(map[])], Options(false, false, None), uuids));
            var e := Modify("t", [lib.text(Num(1))], map[lib.text(Num(1)) := Ready(map["id" := Num(5)])], false);
            Bounded(at, s, {1}) && Possible(s, e) && NextId(at, Execute(env, ENFORCING, s, e)) == 2 && !Fresh(at, Execute(env, ENFORCING, s, e), {1})
  {
    var env := OneTable(lib, "t");
    var at := Numbered(env, ENFORCING, "t", "id");
    FirstRow(lib, env, "t", uuids);
    var k := lib.text(Num(1));
    var row := StoredRow(Num(1), "t", map["id" := Num(1)]);
    var s := State(map["t" := map[k := row]], map[CounterKey("t", "id") := 1]);
    var e := Modify("t", [k], map[k := Ready(map["id" := Num(5)])], false);
    var u := TheUpdate(env, ENFORCING, s, e);
    var next: TableRows := map[lib.text(Num(5)) := StoredRow(Num(5), "t", map["id" := Num(5)])];
    OneRowMoves(u, k, row);
    OneRowIsStored(lib, s, e, next);
    hide Execute, Walk;
    assert next[lib.text(Num(5))].id == Num(5);
  }

  lemma OneRowIsStored(lib: Library, s: State, e: Statement, next: TableRows)
    requires e.Modify? && e.table == "t" && Possible(s, e) && forall j, k :: j in next && k in next ==> j == k
    requires var w := Walk(TheUpdate(OneTable(lib, "t"), ENFORCING, s, e), e.order); w.Going? && w.next == next
    ensures var s' := Execute(OneTable(lib, "t"), ENFORCING, s, e); RowsOf(s'.db, "t") == next && s'.counters == s.counters
  {
    var env := OneTable(lib, "t");
    OneRowHolds(lib, NUMBERED, next);
    NoKeysBlockNothing(env, s.db, "t", Walk(TheUpdate(env, ENFORCING, s, e), e.order).changes);
    hide Walk, Blocked, ConstraintsHold;
  }

  /** The only row of a table without foreign keys is given the id 5. */
  lemma {:induction false} OneRowMoves(u: Update, k: string, row: StoredRow)
    requires Old(u) == map[k := row] && u.settings.enforcesUniqueness && SchemaOfUpdate(u).foreignKeys == [] && KeyColumn(SchemaOfUpdate(u)) == Some("id")
    requires u.given == map[k := Ready(map["id" := Num(5)])]
    ensures var moved := StoredRow(Num(5), row.table, map["id" := Num(5)]);
            Walk(u, [k]).Going? && Walk(u, [k]).next == map[u.env.lib.text(Num(5)) := moved]
  {
    hide Conflicts;
    assert [k][..0] == [];
    assert ForeignKeysAccept(u.env, u.db, u.table, map["id" := Num(5)]);
    assert Touched(u, k) && NewRow(u, k) == StoredRow(Num(5), row.table, map["id" := Num(5)]);
    hide ForeignKeysAccept, NewRow;
    assert Walk(u, []) == Going(map[], map[], {}, []);
  }

  lemma OneRowHolds(lib: Library, schema: Schema, rows: TableRows)
    requires forall j, k :: j in rows && k in rows ==> j == k
    ensures ConstraintsHold(lib, schema, rows)
  {
  }

  lemma NoKeysBlockNothing(env: Env, db: Database, table: string, changes: seq<Change>)
    requires forall t :: t in env.schemas ==> env.schemas[t].foreignKeys == []
    ensures !Blocked(env, db, table, changes)
  {
    forall ref ensures ref !in OtherReferences(env, table) {
      OthersAre(References(env, table), table, ref);
      ReferencesFromAre(env.schemas, env.order, table, ref);
    }
  }

  /** The table `a:b` has a row with the id 1; TRUNCATE of `a` takes its counter away, and the next
      id is 1 again. */
  lemma TruncatedPrefixRepeatsId(lib: Library, uuids: nat -> string)
    ensures var env := OneTable(lib, "a:b");
            var at := Numbered(env, ENFORCING, "a:b", "id");
            var s := Execute(env, ENFORCING, State(map[], map[]), Insert("a:b", [Ready(map[])], Options(false, false, None), uuids));
            Bounded(at, s, {1}) && NextId(at, Execute(env, ENFORCING, s, Truncate("a"))) == 1 && !Fresh(at, Execute(env, ENFORCING, s, Truncate("a")), {1})
  {
    var env := OneTable(lib, "a:b");
    FirstRow(lib, env, "a:b", uuids);
    var s := State(map["a:b" := map[lib.text(Num(1)) := StoredRow(Num(1), "a:b", map["id" := Num(1)])]], map[CounterKey("a:b", "id") := 1]);
    assert "a:" <= "a:b:id" && CounterKey("a:b", "id") == "a:b:id";
    assert CounterKey("a:b", "id") !in ClearedCounters(s.counters, "a");
    assert 1 in {1};
  }

  // ---------- the stored column ----------

  /** ON DUPLICATE KEY UPDATE keeps the id of the row; its column still shows the id exactly when
      the merge keeps it. */
  lemma MergedColumnIsIdIff(env: Env, settings: Settings, options: Options, table: string, rows: TableRows, counters: Counters,
                            identity: Identity, data: Row, column: string)
    requires options.onDuplicate.Some? && !options.ignore
    requires var conflicts := Conflicts(env.lib, SchemaOf(env.schemas, table), env.lib.text(identity.id), data, rows);
             conflicts != {} && env.lib.first(conflicts) in rows
             && ValueOf(rows[env.lib.first(conflicts)].data, column) == rows[env.lib.first(conflicts)].id
    ensures var hit := env.lib.first(Conflicts(env.lib, SchemaOf(env.schemas, table), env.lib.text(identity.id), data, rows));
            var row := Place(env, settings, options, table, rows, counters, identity, data).rows[hit];
            row.id == rows[hit].id
            && (ValueOf(row.data, column) == row.id
                <==> ValueOf(options.onDuplicate.value(rows[hit].data, data).data, column) == ValueOf(rows[hit].data, column))
  {
    hide Conflicts;
  }
}
