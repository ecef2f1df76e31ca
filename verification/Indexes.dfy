/** Single-column secondary indexes: kept row by row, and rebuilt from scratch. */
module Indexes {
  import opened Wrappers
  import opened Json
  import opened Catalog
  import opened Grouping

  /** Column, then text of the value, then the keys of the rows that have it. */
  type TableIndex = map<string, map<string, set<string>>>

  /** The text a row is filed under; the row is read through the current schema. */
  function IndexText(lib: Library, schema: Schema, data: Row, column: string): string {
    lib.text(ValueOf(lib.view(schema, data), column))
  }

  function ColumnLabels(lib: Library, schema: Schema, rows: TableRows, column: string): map<string, string> {
    map k | k in rows :: IndexText(lib, schema, rows[k].data, column)
  }

  /** The indexed columns: those of one-column indexes. */
  function IndexedColumns(indexes: seq<IndexHint>): set<string> {
    set i | 0 <= i < |indexes| && |indexes[i].columns| == 1 :: indexes[i].columns[0]
  }

  /** What the index of a table with these rows is. */
  function IndexOf(lib: Library, schema: Schema, rows: TableRows): TableIndex {
    map c | c in IndexedColumns(schema.indexes) :: Grouped(ColumnLabels(lib, schema, rows, c))
  }

  function ColumnGroups(index: TableIndex, column: string): map<string, set<string>> {
    if column in index then index[column] else map[]
  }

  /** `index` with the row filed under the columns in `columns`. */
  function Filed(lib: Library, schema: Schema, index: TableIndex, columns: set<string>, key: string, data: Row): TableIndex {
    map c | c in index.Keys + columns ::
      if c in columns then AddTo(ColumnGroups(index, c), IndexText(lib, schema, data, c), key) else index[c]
  }

  function Unfiled(lib: Library, schema: Schema, index: TableIndex, columns: set<string>, key: string, data: Row): TableIndex {
    map c | c in index ::
      if c in columns then RemoveFrom(index[c], IndexText(lib, schema, data, c), key) else index[c]
  }

  lemma FileOneMore(lib: Library, schema: Schema, index: TableIndex, columns: set<string>, c: string, key: string, data: Row)
    ensures Filed(lib, schema, index, columns + {c}, key, data)
         == Filed(lib, schema, index, columns, key, data)[c := AddTo(ColumnGroups(Filed(lib, schema, index, columns, key, data), c), IndexText(lib, schema, data, c), key)]
  {
    AddTwice(ColumnGroups(index, c), IndexText(lib, schema, data, c), key);
    hide AddTo, IndexText;
  }

  lemma UnfileOneMore(lib: Library, schema: Schema, index: TableIndex, columns: set<string>, c: string, key: string, data: Row)
    ensures var before := Unfiled(lib, schema, index, columns, key, data);
            Unfiled(lib, schema, index, columns + {c}, key, data)
            == if c in before then before[c := RemoveFrom(before[c], IndexText(lib, schema, data, c), key)] else before
  {
    if c in index { RemoveTwice(index[c], IndexText(lib, schema, data, c), key); }
    hide RemoveFrom, IndexText;
  }

  method AddRowToIndexes(lib: Library, schema: Schema, index: TableIndex, key: string, data: Row) returns (r: TableIndex)
    ensures r == Filed(lib, schema, index, IndexedColumns(schema.indexes), key, data)
  {
    hide Filed, IndexText, AddTo;
    r := index;
    FiledNowhere(lib, schema, index, key, data);
    for i := 0 to |schema.indexes|
      invariant r == Filed(lib, schema, index, IndexedColumns(schema.indexes[..i]), key, data)
    {
      OneMoreIndex(schema.indexes, i);
      if |schema.indexes[i].columns| == 1 {
        var column := schema.indexes[i].columns[0];
        FileOneMore(lib, schema, index, IndexedColumns(schema.indexes[..i]), column, key, data);
        var groups := if column in r then r[column] else map[];
        r := r[column := AddTo(groups, IndexText(lib, schema, data, column), key)];
      }
    }
    assert schema.indexes[..|schema.indexes|] == schema.indexes;
  }

  method RemoveRowFromIndexes(lib: Library, schema: Schema, index: TableIndex, key: string, data: Row) returns (r: TableIndex)
    ensures r == Unfiled(lib, schema, index, IndexedColumns(schema.indexes), key, data)
  {
    hide Unfiled, IndexText, RemoveFrom;
    r := index;
    FiledNowhere(lib, schema, index, key, data);
    for i := 0 to |schema.indexes|
      invariant r == Unfiled(lib, schema, index, IndexedColumns(schema.indexes[..i]), key, data)
    {
      OneMoreIndex(schema.indexes, i);
      if |schema.indexes[i].columns| == 1 {
        var column := schema.indexes[i].columns[0];
        UnfileOneMore(lib, schema, index, IndexedColumns(schema.indexes[..i]), column, key, data);
        if column in r {
          r := r[column := RemoveFrom(r[column], IndexText(lib, schema, data, column), key)];
        }
      }
    }
    assert schema.indexes[..|schema.indexes|] == schema.indexes;
  }

  lemma FiledNowhere(lib: Library, schema: Schema, index: TableIndex, key: string, data: Row)
    ensures Filed(lib, schema, index, IndexedColumns(schema.indexes[..0]), key, data) == index
    ensures Unfiled(lib, schema, index, IndexedColumns(schema.indexes[..0]), key, data) == index
  {
  }

  lemma OneMoreIndex(indexes: seq<IndexHint>, i: nat)
    requires i < |indexes|
    ensures IndexedColumns(indexes[..i + 1])
         == if |indexes[i].columns| == 1 then IndexedColumns(indexes[..i]) + {indexes[i].columns[0]} else IndexedColumns(indexes[..i])
  {
    var before, after := indexes[..i], indexes[..i + 1];
    forall c | c in IndexedColumns(before) ensures c in IndexedColumns(after) {
      var j :| 0 <= j < |before| && |before[j].columns| == 1 && before[j].columns[0] == c;
      assert after[j] == before[j];
    }
    if |indexes[i].columns| == 1 { assert after[i] == indexes[i]; }
    forall c | c in IndexedColumns(after) && !(|indexes[i].columns| == 1 && c == indexes[i].columns[0])
      ensures c in IndexedColumns(before)
    {
      var j :| 0 <= j < |after| && |after[j].columns| == 1 && after[j].columns[0] == c;
      assert before[j] == after[j];
    }
  }

  lemma ColumnFiled(lib: Library, schema: Schema, rows: TableRows, key: string, row: StoredRow, c: string)
    requires key !in rows
    ensures Grouped(ColumnLabels(lib, schema, rows[key := row], c))
         == AddTo(Grouped(ColumnLabels(lib, schema, rows, c)), IndexText(lib, schema, row.data, c), key)
  {
    hide IndexText, AddTo, Grouped;
    GroupedAdd(ColumnLabels(lib, schema, rows, c), key, IndexText(lib, schema, row.data, c));
    assert ColumnLabels(lib, schema, rows[key := row], c)
        == ColumnLabels(lib, schema, rows, c)[key := IndexText(lib, schema, row.data, c)];
  }

  lemma ColumnUnfiled(lib: Library, schema: Schema, rows: TableRows, key: string, data: Row, c: string)
    requires key in rows ==> rows[key].data == data
    ensures Grouped(ColumnLabels(lib, schema, rows - {key}, c))
         == RemoveFrom(Grouped(ColumnLabels(lib, schema, rows, c)), IndexText(lib, schema, data, c), key)
  {
    hide IndexText, RemoveFrom, Grouped;
    assert ColumnLabels(lib, schema, rows - {key}, c) == ColumnLabels(lib, schema, rows, c) - {key};
    if key in rows {
      GroupedRemove(ColumnLabels(lib, schema, rows, c), key);
    } else {
      RemoveAbsent(ColumnLabels(lib, schema, rows, c), key, IndexText(lib, schema, data, c));
      assert rows - {key} == rows;
    }
  }

  lemma NoRowsNoGroups(lib: Library, schema: Schema, c: string)
    ensures Grouped(ColumnLabels(lib, schema, map[], c)) == map[]
  {
  }

  /** Filing a row that is not there yet keeps the index that of the rows. */
  lemma FilingKeepsIndex(lib: Library, schema: Schema, rows: TableRows, key: string, row: StoredRow)
    requires key !in rows
    ensures Filed(lib, schema, IndexOf(lib, schema, rows), IndexedColumns(schema.indexes), key, row.data)
         == IndexOf(lib, schema, rows[key := row])
  {
    hide IndexText, AddTo, Grouped, ColumnLabels, IndexedColumns;
    forall c { ColumnFiled(lib, schema, rows, key, row, c); }
  }

  /** The first row of a table that has no index yet makes the index complete. */
  lemma FilingFirstRow(lib: Library, schema: Schema, key: string, row: StoredRow)
    ensures Filed(lib, schema, map[], IndexedColumns(schema.indexes), key, row.data)
         == IndexOf(lib, schema, map[key := row])
  {
    hide IndexText, AddTo, Grouped, ColumnLabels, IndexedColumns;
    forall c { ColumnFiled(lib, schema, map[], key, row, c); }
    forall c { NoRowsNoGroups(lib, schema, c); }
  }

  /** Taking a row's entries out keeps the index that of the remaining rows; a row that is not
      there has none. */
  lemma UnfilingKeepsIndex(lib: Library, schema: Schema, rows: TableRows, key: string, data: Row)
    requires key in rows ==> rows[key].data == data
    ensures Unfiled(lib, schema, IndexOf(lib, schema, rows), IndexedColumns(schema.indexes), key, data)
         == IndexOf(lib, schema, rows - {key})
  {
    hide IndexText, RemoveFrom, Grouped, ColumnLabels, IndexedColumns;
    forall c { ColumnUnfiled(lib, schema, rows, key, data, c); }
  }

  /** Under every indexed column the rows of the two tables are filed alike. */
  ghost predicate FiledAlike(lib: Library, schema: Schema, a: TableRows, b: TableRows) {
    forall c, k :: c in IndexedColumns(schema.indexes) && k in a && k in b ==> IndexText(lib, schema, a[k].data, c) == IndexText(lib, schema, b[k].data, c)
  }

  /** Two tables with the same keys have the same index exactly when their rows are filed alike. */
  lemma SameIndexIff(lib: Library, schema: Schema, a: TableRows, b: TableRows)
    requires a.Keys == b.Keys
    ensures IndexOf(lib, schema, a) == IndexOf(lib, schema, b) <==> FiledAlike(lib, schema, a, b)
  {
    hide IndexText, Grouped, IndexedColumns;
    var x, y := IndexOf(lib, schema, a), IndexOf(lib, schema, b);
    if FiledAlike(lib, schema, a, b) {
      forall c | c in IndexedColumns(schema.indexes) ensures ColumnLabels(lib, schema, a, c) == ColumnLabels(lib, schema, b, c) {}
      assert x == y;
    }
    if x == y {
      forall c | c in IndexedColumns(schema.indexes) ensures ColumnLabels(lib, schema, a, c) == ColumnLabels(lib, schema, b, c) {
        assert x[c] == y[c];
        GroupedTellsLabels(ColumnLabels(lib, schema, a, c), ColumnLabels(lib, schema, b, c));
      }
      forall c, k | c in IndexedColumns(schema.indexes) && k in a && k in b
        ensures IndexText(lib, schema, a[k].data, c) == IndexText(lib, schema, b[k].data, c)
      {
        assert ColumnLabels(lib, schema, a, c)[k] == ColumnLabels(lib, schema, b, c)[k];
      }
    }
  }

  /** When some column is indexed, the index tells which rows there are. */
  lemma SameIndexSameKeys(lib: Library, schema: Schema, a: TableRows, b: TableRows)
    requires IndexedColumns(schema.indexes) != {} && IndexOf(lib, schema, a) == IndexOf(lib, schema, b)
    ensures a.Keys == b.Keys
  {
    hide IndexText, Grouped, IndexedColumns;
    var c :| c in IndexedColumns(schema.indexes);
    assert IndexOf(lib, schema, a)[c] == IndexOf(lib, schema, b)[c];
    GroupedTellsLabels(ColumnLabels(lib, schema, a, c), ColumnLabels(lib, schema, b, c));
    assert ColumnLabels(lib, schema, a, c).Keys == a.Keys;
  }

  lemma GroupedEmpty()
    ensures Grouped<string, string>(map[]) == map[]
  {
  }

  method RebuildIndex(lib: Library, schema: Schema, rows: TableRows) returns (index: TableIndex)
    ensures index == IndexOf(lib, schema, rows)
  {
    hide Grouped;
    index := map[];
    for i := 0 to |schema.indexes|
      invariant index == map c | c in IndexedColumns(schema.indexes[..i]) :: Grouped(ColumnLabels(lib, schema, rows, c))
    {
      OneMoreIndex(schema.indexes, i);
      if |schema.indexes[i].columns| == 1 {
        var column := schema.indexes[i].columns[0];
        var groups := GroupColumn(lib, schema, rows, column);
        index := index[column := groups];
      }
    }
    assert schema.indexes[..|schema.indexes|] == schema.indexes;
  }

  method GroupColumn(lib: Library, schema: Schema, rows: TableRows, column: string) returns (groups: map<string, set<string>>)
    ensures groups == Grouped(ColumnLabels(lib, schema, rows, column))
  {
    hide IndexText, AddTo, Grouped;
    groups := map[];
    var todo := rows.Keys;
    ghost var labels: map<string, string> := map[];
    GroupedEmpty();
    while todo != {}
      invariant labels.Keys == rows.Keys - todo && todo <= rows.Keys
      invariant forall k :: k in labels ==> labels[k] == IndexText(lib, schema, rows[k].data, column)
      invariant groups == Grouped(labels)
      decreases |todo|
    {
      var k :| k in todo;
      var text := IndexText(lib, schema, rows[k].data, column);
      GroupedAdd(labels, k, text);
      groups := AddTo(groups, text, k);
      todo, labels := todo - {k}, labels[k := text];
    }
    assert labels == ColumnLabels(lib, schema, rows, column);
  }

  lemma WithoutOneMore(rows: TableRows, gone: set<string>, k: string)
    ensures (rows - gone) - {k} == rows - (gone + {k})
  {
  }

  /** `rows` has the row under the key as `current` has it, if at all. */
  ghost predicate AgreeAt(current: TableRows, rows: TableRows, key: string) { key in rows ==> key in current && current[key] == rows[key] }

  /** The entries that the rows of `current` have are taken out; keys that no row has are passed
      over. */
  method UnfileRows(lib: Library, schema: Schema, index: TableIndex, current: TableRows, ghost rows: TableRows, keys: set<string>) returns (r: TableIndex)
    requires index == IndexOf(lib, schema, rows)
    ensures (forall k :: k in keys ==> AgreeAt(current, rows, k)) ==> r == IndexOf(lib, schema, rows - keys)
  {
    hide IndexOf, Unfiled;
    r := index;
    var todo := keys;
    ghost var done: set<string> := {};
    ghost var agree := forall k :: k in keys ==> AgreeAt(current, rows, k);
    assert rows - {} == rows;
    while todo != {}
      invariant todo <= keys && done == keys - todo
      invariant agree ==> r == IndexOf(lib, schema, rows - done)
      decreases |todo|
    {
      var k :| k in todo;
      WithoutOneMore(rows, done, k);
      r := UnfileRow(lib, schema, r, current, rows - done, k);
      todo, done := todo - {k}, done + {k};
    }
    assert done == keys;
  }

  /** The entries of the row that `current` has under the key are taken out, if they are there. */
  method UnfileRow(lib: Library, schema: Schema, index: TableIndex, current: TableRows, ghost rows: TableRows, key: string)
    returns (r: TableIndex)
    ensures index == IndexOf(lib, schema, rows) && AgreeAt(current, rows, key) ==> r == IndexOf(lib, schema, rows - {key})
  {
    hide IndexOf, Unfiled;
    r := index;
    if key in current {
      if AgreeAt(current, rows, key) { UnfilingKeepsIndex(lib, schema, rows, key, current[key].data); }
      r := RemoveRowFromIndexes(lib, schema, r, key, current[key].data);
    } else {
      assert AgreeAt(current, rows, key) ==> rows - {key} == rows;
    }
  }

  method RefileRow(lib: Library, schema: Schema, index: TableIndex, old': TableRows, ghost rows: TableRows, key: string, row: StoredRow)
    returns (r: TableIndex)
    requires index == IndexOf(lib, schema, rows) && (key in rows ==> key in old' && old'[key] == rows[key])
    ensures r == IndexOf(lib, schema, rows[key := row])
  {
    hide IndexOf, Filed;
    r := UnfileRow(lib, schema, index, old', rows, key);
    FilingKeepsIndex(lib, schema, rows - {key}, key, row);
    r := AddRowToIndexes(lib, schema, r, key, row.data);
    assert (rows - {key})[key := row] == rows[key := row];
  }

  lemma OneMoreRefiled(rows: TableRows, so: TableRows, k: string, row: StoredRow)
    ensures (rows + so)[k := row] == rows + so[k := row]
  {
  }

  /** Changed rows are filed; the entries of the rows they replace are taken out first. */
  method RefileRows(lib: Library, schema: Schema, index: TableIndex, old': TableRows, rows: TableRows, changed: TableRows) returns (r: TableIndex)
    requires index == IndexOf(lib, schema, rows)
    requires forall k :: k in rows ==> k in old' && old'[k] == rows[k]
    ensures r == IndexOf(lib, schema, rows + changed)
  {
    hide IndexOf, Unfiled, Filed;
    r := index;
    var todo := changed.Keys;
    ghost var so: TableRows := map[];
    assert rows + map[] == rows;
    while todo != {}
      invariant todo <= changed.Keys && so.Keys == changed.Keys - todo && forall k :: k in so ==> so[k] == changed[k]
      invariant r == IndexOf(lib, schema, rows + so)
      decreases |todo|
    {
      var k :| k in todo;
      r := RefileRow(lib, schema, r, old', rows + so, k, changed[k]);
      OneMoreRefiled(rows, so, k, changed[k]);
      todo, so := todo - {k}, so[k := changed[k]];
    }
    assert so == changed;
  }

  /** What an index is for: a column is indexed exactly when some index has it alone, and under a
      text are filed exactly the rows that show this text in the column; no group is empty. */
  lemma FiledUnderText(lib: Library, schema: Schema, rows: TableRows, column: string)
    ensures var index := IndexOf(lib, schema, rows);
            && (column in index <==> exists i :: 0 <= i < |schema.indexes| && schema.indexes[i].columns == [column])
            && (column in index ==> forall text ::
                  (text in index[column] <==> exists k :: k in rows && lib.text(ValueOf(lib.view(schema, rows[k].data), column)) == text)
                  && (text in index[column] ==> forall k ::
                        k in index[column][text] <==> k in rows && lib.text(ValueOf(lib.view(schema, rows[k].data), column)) == text))
  {
    if i :| 0 <= i < |schema.indexes| && schema.indexes[i].columns == [column] {
      assert |schema.indexes[i].columns| == 1 && schema.indexes[i].columns[0] == column;
    }
    if column in IndexedColumns(schema.indexes) {
      var i :| 0 <= i < |schema.indexes| && |schema.indexes[i].columns| == 1 && schema.indexes[i].columns[0] == column;
      assert schema.indexes[i].columns == [column];
      var labels := ColumnLabels(lib, schema, rows, column);
      forall text ensures text in labels.Values <==> exists k :: k in rows && lib.text(ValueOf(lib.view(schema, rows[k].data), column)) == text {
        if k :| k in rows && lib.text(ValueOf(lib.view(schema, rows[k].data), column)) == text { assert labels[k] == text; }
      }
    }
  }
}
