/** Two INSERTs that fail midway and leave memory, store and indexes apart. */
module FailedInserts {
  import opened Wrappers
  import opened Json
  import opened Catalog
  import opened UniqueKeys
  import opened Indexes
  import opened Storage
  import opened ForeignKeys
  import opened ParentUpdate
  import opened Inserting
  import opened Runs
  import opened AutoIncrement

  /** The second row is rejected: the first stays in memory, and no batch is written. */
  lemma FirstRowStaysInMemory(lib: Library, uuids: nat -> string)
    ensures var step := InsertRows(OneTable(lib, "t"), ENFORCING, Options(false, false, None), map[], "t", map[], [Ready(map[]), Rejected], uuids);
            step.error == Some(BadRow) && ReloadedRows(lib, step.rows) != ReloadedRows(lib, RowsOf(map[], "t"))
  {
    var env, options, rows := OneTable(lib, "t"), Options(false, false, None), [Ready(map[]), Rejected];
    assert rows[..1] == [Ready(map[])];
    FirstRow(lib, env, "t", uuids);
    var none: Database := map[];
    var first := InsertRows(env, ENFORCING, options, none, "t", map[], rows[..1], uuids);
    var k := lib.text(Num(1));
    assert none["t" := first.rows]["t"] == map["t" := map[k := StoredRow(Num(1), "t", map["id" := Num(1)])]]["t"];
    assert k in first.rows;
    FirstRowSucceeds(lib, env, uuids);
    assert k in ReloadedRows(lib, first.rows) && k !in ReloadedRows(lib, RowsOf(none, "t"));
  }

  lemma {:induction false} FirstRowSucceeds(lib: Library, env: Env, uuids: nat -> string)
    requires env == OneTable(lib, "t")
    ensures InsertRows(env, ENFORCING, Options(false, false, None), map[], "t", map[], [Ready(map[])], uuids).error.None?
  {
    var rows: seq<Prepared> := [Ready(map[])];
    var options := Options(false, false, None);
    assert rows[..0] == [];
    var none: Database := map[];
    assert InsertRows(env, ENFORCING, options, none, "t", map[], rows[..0], uuids) == Step(map[], map[], 0, None);
    var db := none["t" := map[]];
    var data: Row := map[];
    assert ForeignKeysAccept(env, db, "t", data) && RowsOf(db, "t") == map[];
    var identity := ResolveRowId(ENFORCING, NUMBERED, "t", data, map[], uuids(0));
    assert Conflicts(lib, NUMBERED, lib.text(identity.id), WithIdentity(NUMBERED, data, identity), map[]) == {};
  }

  const INDEXED := Schema(["id"], None, [], [IndexHint("by_c", ["c"], false, [])], [])

  function Stored(c: int): Row { map["id" := Num(1), "c" := Num(c)] }

  /** Assigns the indexed column and then fails. */
  function HalfMerge(before: Row, incoming: Row): Merge { Merge(Stored(2), false) }

  /** The merge has changed the indexed column when it fails: the row is filed under the old value,
      if the two values are written differently. */
  lemma MergedRowIsFiledUnderOldValue(lib: Library, counters: Counters)
    requires PicksMembers(lib) && IndexText(lib, INDEXED, Stored(1), "c") != IndexText(lib, INDEXED, Stored(2), "c")
    ensures var k := lib.text(Num(1));
            var rows := map[k := StoredRow(Num(1), "t", Stored(1))];
            var step := Place(Env(lib, map["t" := INDEXED], ["t"]), ENFORCING, Options(false, false, Some(HalfMerge)), "t", rows, counters,
                              Identity(Num(1), false, counters), Stored(3));
            step.error == Some(BadExpression) && step.rows.Keys == rows.Keys && !FiledAlike(lib, INDEXED, rows, step.rows)
  {
    hide IndexText;
    var k := lib.text(Num(1));
    var rows := map[k := StoredRow(Num(1), "t", Stored(1))];
    var conflicts := Conflicts(lib, INDEXED, k, Stored(3), rows);
    assert k in conflicts && lib.first(conflicts) in conflicts;
    assert lib.first(conflicts) == k;
    assert INDEXED.indexes[0].columns[0] == "c";
    assert "c" in IndexedColumns(INDEXED.indexes);
    var rows' := rows[k := rows[k].(data := Stored(2))];
    assert rows[k].data == Stored(1) && rows'[k].data == Stored(2);
  }
}
