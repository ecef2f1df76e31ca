/** The hash-and-set store, its write batches, and the rows a table reloads from it. */
module Storage {
  import opened Wrappers
  import opened Json
  import opened Catalog
  import opened StorageFormat

  datatype StorageWrite =
    | HSet(key: StoreKey, field: string, value: string)
    | HDel(key: StoreKey, field: string)
    | SAdd(key: StoreKey, member: string)
    | SRem(key: StoreKey, member: string)
    | Del(key: StoreKey)

  /** A missing key reads as an empty hash and an empty set. */
  datatype Store = Store(hashes: map<StoreKey, Fields>, sets: map<StoreKey, set<string>>)

  function FieldsAt(s: Store, key: StoreKey): Fields { if key in s.hashes then s.hashes[key] else map[] }

  function MembersAt(s: Store, key: StoreKey): set<string> { if key in s.sets then s.sets[key] else {} }

  function Apply(s: Store, w: StorageWrite): Store {
    match w
    case HSet(key, field, value) => s.(hashes := s.hashes[key := FieldsAt(s, key)[field := value]])
    case HDel(key, field) => s.(hashes := s.hashes[key := FieldsAt(s, key) - {field}])
    case SAdd(key, member) => s.(sets := s.sets[key := MembersAt(s, key) + {member}])
    case SRem(key, member) => s.(sets := s.sets[key := MembersAt(s, key) - {member}])
    case Del(key) => Store(s.hashes - {key}, s.sets - {key})
  }

  function ApplyAll(s: Store, writes: seq<StorageWrite>): Store {
    if writes == [] then s else Apply(ApplyAll(s, writes[..|writes| - 1]), writes[|writes| - 1])
  }

  lemma {:induction false} ApplyOneMore(s: Store, writes: seq<StorageWrite>, w: StorageWrite)
    ensures ApplyAll(s, writes + [w]) == Apply(ApplyAll(s, writes), w)
  {
    assert (writes + [w])[..|writes|] == writes;
  }

  // ---------- the rows of a table ----------

  /** The hash of each listed row key that is not empty, decoded. */
  function LoadRows(lib: Library, s: Store, table: string): TableRows {
    map pk | pk in MembersAt(s, TablePksKey(table)) && FieldsAt(s, RowKey(table, pk)) != map[] ::
      DecodeRow(lib, FieldsAt(s, RowKey(table, pk)))
  }

  /** From `s` to `s'` only the row `(table, pk)` changes: it is listed and has these fields. */
  ghost predicate RowWritten(s: Store, s': Store, table: string, pk: string, fields: Fields) {
    && (forall t :: MembersAt(s', TablePksKey(t)) == MembersAt(s, TablePksKey(t)) + if t == table then {pk} else {})
    && (forall t, k :: FieldsAt(s', RowKey(t, k)) == if t == table && k == pk then fields else FieldsAt(s, RowKey(t, k)))
  }

  ghost predicate RowDropped(s: Store, s': Store, table: string, pk: string) {
    && (forall t :: MembersAt(s', TablePksKey(t)) == MembersAt(s, TablePksKey(t)) - if t == table then {pk} else {})
    && (forall t, k :: FieldsAt(s', RowKey(t, k)) == if t == table && k == pk then map[] else FieldsAt(s, RowKey(t, k)))
  }

  /** A row as it comes back from the store. */
  function Reloaded(lib: Library, row: StoredRow): StoredRow { DecodeRow(lib, EncodeRow(lib, row)) }

  function ReloadedRows(lib: Library, rows: TableRows): TableRows { map k | k in rows :: Reloaded(lib, rows[k]) }

  /** Rows of storable values come back unchanged. */
  lemma StorableRowsReload(lib: Library, rows: TableRows)
    requires forall k :: k in rows ==> StorableRow(lib, rows[k])
    ensures ReloadedRows(lib, rows) == rows
  {
    hide StorableRow, DecodeRow, EncodeRow;
    forall k | k in rows { RowRoundTrip(lib, rows[k]); }
  }

  lemma WrittenRowLoadsAt(lib: Library, s: Store, s': Store, table: string, pk: string, row: StoredRow, t: string, k: string)
    requires RowWritten(s, s', table, pk, EncodeRow(lib, row))
    ensures k in LoadRows(lib, s', t) <==> k in LoadRows(lib, s, t) || (t == table && k == pk)
    ensures k in LoadRows(lib, s', t) ==>
              LoadRows(lib, s', t)[k] == if t == table && k == pk then Reloaded(lib, row) else LoadRows(lib, s, t)[k]
  {
    assert "_id" in EncodeRow(lib, row);
    hide DecodeRow, EncodeRow, RowKey, TablePksKey, MembersAt, FieldsAt;
    assert FieldsAt(s', RowKey(t, k)) == if t == table && k == pk then EncodeRow(lib, row) else FieldsAt(s, RowKey(t, k));
  }

  lemma WrittenRowLoads(lib: Library, s: Store, s': Store, table: string, pk: string, row: StoredRow, t: string)
    requires RowWritten(s, s', table, pk, EncodeRow(lib, row))
    ensures LoadRows(lib, s', t) == if t == table then LoadRows(lib, s, t)[pk := Reloaded(lib, row)] else LoadRows(lib, s, t)
  {
    hide RowWritten, LoadRows, EncodeRow, Reloaded;
    forall k { WrittenRowLoadsAt(lib, s, s', table, pk, row, t, k); }
    if t == table {
      assert LoadRows(lib, s', t) == LoadRows(lib, s, t)[pk := Reloaded(lib, row)];
    } else {
      assert LoadRows(lib, s', t) == LoadRows(lib, s, t);
    }
  }

  lemma DroppedRowIsGone(lib: Library, s: Store, s': Store, table: string, pk: string, t: string)
    requires RowDropped(s, s', table, pk)
    ensures LoadRows(lib, s', t) == if t == table then LoadRows(lib, s, t) - {pk} else LoadRows(lib, s, t)
  {
    hide DecodeRow, RowKey, TablePksKey;
  }

  lemma KeysAreDistinct()
    ensures forall t, k, t', k' :: RowKey(t, k) == RowKey(t', k') ==> t == t' && k == k'
    ensures forall t, t' :: TablePksKey(t) == TablePksKey(t') ==> t == t'
    ensures forall t, k, t' :: RowKey(t, k) != TablePksKey(t')
  {
    forall t, k, t', k' | RowKey(t, k) == RowKey(t', k') ensures t == t' && k == k' {
      RowKeyInjective(t, k, t', k');
    }
    forall t, t' | TablePksKey(t) == TablePksKey(t') ensures t == t' { TablePksKeyInjective(t, t'); }
    forall t, k, t' ensures RowKey(t, k) != TablePksKey(t') { RowKeyIsNoPksKey(t, k, t'); }
  }

  lemma ListAndClear(s: Store, table: string, pk: string)
    ensures RowWritten(s, Apply(Apply(s, SAdd(TablePksKey(table), pk)), Del(RowKey(table, pk))), table, pk, map[])
  {
    KeysAreDistinct();
    hide RowKey, TablePksKey;
  }

  lemma WriteField(s: Store, s': Store, table: string, pk: string, fields: Fields, field: string, value: string)
    requires RowWritten(s, s', table, pk, fields)
    ensures RowWritten(s, Apply(s', HSet(RowKey(table, pk), field, value)), table, pk, fields[field := value])
  {
    KeysAreDistinct();
    hide RowKey, TablePksKey;
  }

  lemma UnlistAndClear(s: Store, table: string, pk: string)
    ensures RowDropped(s, Apply(Apply(s, SRem(TablePksKey(table), pk)), Del(RowKey(table, pk))), table, pk)
  {
    KeysAreDistinct();
    hide RowKey, TablePksKey;
  }

  /** Only some of the columns. */
  function Partial(data: Row, columns: set<string>): Row {
    map c | c in columns && c in data :: data[c]
  }

  lemma PartialOneMore(data: Row, columns: set<string>, c: string)
    requires c in data
    ensures Partial(data, columns + {c}) == Partial(data, columns)[c := data[c]]
  {
  }

  /** One more column is one more field. */
  lemma EncodePut(lib: Library, data: Row, c: string, v: Value)
    ensures EncodeData(lib, data[c := v]) == EncodeData(lib, data)[DataField(c) := EncodeValue(lib, v)]
  {
    hide EncodeValue, EncodeData, DataField;
    var fields, more := EncodeData(lib, data)[DataField(c) := EncodeValue(lib, v)], EncodeData(lib, data[c := v]);
    forall f ensures (f in more <==> f in fields) && (f in more ==> more[f] == fields[f]) {
      EncodedAt(lib, data, f, c);
      EncodedAt(lib, data[c := v], f, c);
    }
  }

  lemma EncodeOneMore(lib: Library, data: Row, columns: set<string>, c: string)
    requires c in data
    ensures EncodeData(lib, Partial(data, columns + {c}))
         == EncodeData(lib, Partial(data, columns))[DataField(c) := EncodeValue(lib, data[c])]
  {
    PartialOneMore(data, columns, c);
    EncodePut(lib, Partial(data, columns), c, data[c]);
  }

  /** A field of the encoding belongs to the column its name ends in. */
  lemma EncodedAt(lib: Library, data: Row, f: string, c: string)
    ensures f in EncodeData(lib, data) <==> 5 <= |f| && f == DataField(f[5..]) && f[5..] in data
    ensures f in EncodeData(lib, data) ==> EncodeData(lib, data)[f] == EncodeValue(lib, data[f[5..]])
    ensures f == DataField(c) <==> 5 <= |f| && f == DataField(f[5..]) && f[5..] == c
  {
    hide EncodeValue;
    assert forall d :: DataField(d)[5..] == d;
  }

  /** The fields of a row, as far as they are written. */
  function FieldsSoFar(lib: Library, row: StoredRow, columns: set<string>): Fields {
    EncodeData(lib, Partial(row.data, columns)) + map["_id" := EncodeValue(lib, row.id), "_table" := row.table]
  }

  lemma OneMoreField(lib: Library, row: StoredRow, columns: set<string>, c: string)
    requires c in row.data
    ensures FieldsSoFar(lib, row, columns + {c})
         == FieldsSoFar(lib, row, columns)[DataField(c) := EncodeValue(lib, row.data[c])]
  {
    EncodeOneMore(lib, row.data, columns, c);
    assert DataField(c)[0] == 'd' && DataField(c) != "_id" && DataField(c) != "_table";
    hide EncodeData, EncodeValue, Partial, DataField;
    PutUnder(EncodeData(lib, Partial(row.data, columns)), map["_id" := EncodeValue(lib, row.id), "_table" := row.table], DataField(c), EncodeValue(lib, row.data[c]));
  }

  lemma PutUnder(fields: Fields, over: Fields, f: string, v: string)
    requires f !in over
    ensures fields[f := v] + over == (fields + over)[f := v]
  {
  }

  lemma NoFieldsYet(lib: Library, row: StoredRow)
    ensures FieldsSoFar(lib, row, {}) == map["_id" := EncodeValue(lib, row.id), "_table" := row.table]
  {
    assert Partial(row.data, {}) == map[];
    EncodeNothing(lib);
    hide EncodeValue, Partial, EncodeData;
  }

  lemma AllFieldsWritten(lib: Library, row: StoredRow)
    ensures FieldsSoFar(lib, row, row.data.Keys) == EncodeRow(lib, row)
  {
    assert Partial(row.data, row.data.Keys) == row.data;
    hide EncodeValue, Partial, EncodeData;
  }

  lemma EncodeNothing(lib: Library)
    ensures EncodeData(lib, map[]) == map[]
  {
    forall f { EncodedAt(lib, map[], f, ""); }
    hide EncodeData;
  }

  class RedisStore {
    var hashes: map<StoreKey, Fields>
    var sets: map<StoreKey, set<string>>

    function Contents(): Store
      reads this
    {
      Store(hashes, sets)
    }

    constructor ()
      ensures hashes == map[] && sets == map[]
    {
      hashes, sets := map[], map[];
    }

    method Write(w: StorageWrite)
      modifies this
      ensures Contents() == Apply(old(Contents()), w)
    {
      match w {
        case HSet(key, field, value) =>
          var fields := if key in hashes then hashes[key] else map[];
          hashes := hashes[key := fields[field := value]];
        case HDel(key, field) =>
          var fields := if key in hashes then hashes[key] else map[];
          hashes := hashes[key := fields - {field}];
        case SAdd(key, member) =>
          var members := if key in sets then sets[key] else {};
          sets := sets[key := members + {member}];
        case SRem(key, member) =>
          var members := if key in sets then sets[key] else {};
          sets := sets[key := members - {member}];
        case Del(key) =>
          hashes, sets := hashes - {key}, sets - {key};
      }
    }

    method WriteBatch(writes: seq<StorageWrite>)
      modifies this
      ensures Contents() == ApplyAll(old(Contents()), writes)
    {
      for i := 0 to |writes|
        invariant Contents() == ApplyAll(old(Contents()), writes[..i])
      {
        Write(writes[i]);
        ApplyOneMore(old(Contents()), writes[..i], writes[i]);
        assert writes[..i + 1] == writes[..i] + [writes[i]];
      }
      assert writes[..|writes|] == writes;
    }

    /** The writes that store one row, appended to a batch. */
    method RowWrites(lib: Library, table: string, pk: string, row: StoredRow, before: seq<StorageWrite>, ghost s: Store)
      returns (writes: seq<StorageWrite>)
      ensures RowWritten(ApplyAll(s, before), ApplyAll(s, writes), table, pk, EncodeRow(lib, row))
    {
      hide RowWritten, EncodeRow, EncodeValue, FieldsSoFar, DataField, RowKey, TablePksKey, Apply, ApplyAll;
      var key := RowKey(table, pk);
      ghost var e := ApplyAll(s, before);
      writes := before + [SAdd(TablePksKey(table), pk)];
      ApplyOneMore(s, before, SAdd(TablePksKey(table), pk));
      ApplyOneMore(s, writes, Del(key));
      writes := writes + [Del(key)];
      ListAndClear(e, table, pk);
      ghost var fields: Fields := map[];
      AppendField(e, s, writes, table, pk, fields, "_id", EncodeValue(lib, row.id));
      writes, fields := writes + [HSet(key, "_id", EncodeValue(lib, row.id))], fields["_id" := EncodeValue(lib, row.id)];
      AppendField(e, s, writes, table, pk, fields, "_table", row.table);
      writes, fields := writes + [HSet(key, "_table", row.table)], fields["_table" := row.table];
      var todo := row.data.Keys;
      ghost var done: set<string> := {};
      NoFieldsYet(lib, row);
      AllFieldsWritten(lib, row);
      while todo != {}
        invariant todo <= row.data.Keys && done == row.data.Keys - todo
        invariant fields == FieldsSoFar(lib, row, done)
        invariant RowWritten(e, ApplyAll(s, writes), table, pk, fields)
        decreases |todo|
      {
        var c :| c in todo;
        OneMoreField(lib, row, done, c);
        AppendField(e, s, writes, table, pk, fields, DataField(c), EncodeValue(lib, row.data[c]));
        writes := writes + [HSet(key, DataField(c), EncodeValue(lib, row.data[c]))];
        fields := fields[DataField(c) := EncodeValue(lib, row.data[c])];
        todo, done := todo - {c}, done + {c};
      }
      assert done == row.data.Keys;
    }

    method PersistRow(lib: Library, table: string, pk: string, row: StoredRow)
      modifies this
      ensures forall t :: LoadRows(lib, Contents(), t)
                == if t == table then LoadRows(lib, old(Contents()), t)[pk := Reloaded(lib, row)] else LoadRows(lib, old(Contents()), t)
    {
      hide LoadRows, RowWritten, Apply, Reloaded;
      NothingApplied(Contents());
      var writes := RowWrites(lib, table, pk, row, [], Contents());
      WriteBatch(writes);
      ghost var before, after := old(Contents()), Contents();
      forall t ensures LoadRows(lib, after, t) == if t == table then LoadRows(lib, before, t)[pk := Reloaded(lib, row)] else LoadRows(lib, before, t) {
        WrittenRowLoads(lib, before, after, table, pk, row, t);
      }
    }

    method DeleteRowFromStorage(lib: Library, table: string, pk: string)
      modifies this
      ensures forall t :: LoadRows(lib, Contents(), t)
                == if t == table then LoadRows(lib, old(Contents()), t) - {pk} else LoadRows(lib, old(Contents()), t)
    {
      hide LoadRows, RowDropped, Apply;
      UnlistAndClear(Contents(), table, pk);
      Write(SRem(TablePksKey(table), pk));
      Write(Del(RowKey(table, pk)));
      ghost var before, after := old(Contents()), Contents();
      forall t ensures LoadRows(lib, after, t) == if t == table then LoadRows(lib, before, t) - {pk} else LoadRows(lib, before, t) {
        DroppedRowIsGone(lib, before, after, table, pk, t);
      }
    }

    /** The writes that drop the given rows. */
    method DropWrites(lib: Library, table: string, deleted: set<string>, ghost s: Store) returns (writes: seq<StorageWrite>)
      ensures forall t :: LoadRows(lib, ApplyAll(s, writes), t)
                == if t == table then LoadRows(lib, s, t) - deleted else LoadRows(lib, s, t)
    {
      hide LoadRows, Apply, ApplyAll, RowDropped, RowKey, TablePksKey;
      writes := [];
      var todo := deleted;
      NothingApplied(s);
      ghost var gone: set<string> := {};
      while todo != {}
        invariant todo <= deleted && gone == deleted - todo
        invariant forall t :: LoadRows(lib, ApplyAll(s, writes), t)
                    == if t == table then LoadRows(lib, s, t) - gone else LoadRows(lib, s, t)
        decreases |todo|
      {
        var pk :| pk in todo;
        ghost var e := ApplyAll(s, writes);
        UnlistAndClear(e, table, pk);
        ApplyOneMore(s, writes, SRem(TablePksKey(table), pk));
        writes := writes + [SRem(TablePksKey(table), pk)];
        ApplyOneMore(s, writes, Del(RowKey(table, pk)));
        writes := writes + [Del(RowKey(table, pk))];
        forall t { DroppedRowIsGone(lib, e, ApplyAll(s, writes), table, pk, t); }
        todo, gone := todo - {pk}, gone + {pk};
      }
      assert gone == deleted;
    }

    /** The writes that store the given rows, appended to a batch. */
    method SaveWrites(lib: Library, table: string, rows: TableRows, before: seq<StorageWrite>, ghost s: Store)
      returns (writes: seq<StorageWrite>)
      ensures LoadRows(lib, ApplyAll(s, writes), table) == LoadRows(lib, ApplyAll(s, before), table) + ReloadedRows(lib, rows)
      ensures forall t :: t != table ==> LoadRows(lib, ApplyAll(s, writes), t) == LoadRows(lib, ApplyAll(s, before), t)
    {
      hide LoadRows, ApplyAll, RowWritten, EncodeRow, Among, Reloaded, ReloadedRows;
      writes := before;
      ghost var base := LoadRows(lib, ApplyAll(s, before), table);
      ghost var done: set<string> := {};
      AmongEnds(lib, base, rows);
      var left := rows.Keys;
      while left != {}
        invariant left <= rows.Keys && done == rows.Keys - left
        invariant LoadRows(lib, ApplyAll(s, writes), table) == base + Among(lib, rows, done)
        invariant forall t :: t != table ==> LoadRows(lib, ApplyAll(s, writes), t) == LoadRows(lib, ApplyAll(s, before), t)
        decreases |left|
      {
        var pk :| pk in left;
        ghost var e := ApplyAll(s, writes);
        writes := RowWrites(lib, table, pk, rows[pk], writes, s);
        ghost var e' := ApplyAll(s, writes);
        forall t ensures LoadRows(lib, e', t) == if t == table then LoadRows(lib, e, t)[pk := Reloaded(lib, rows[pk])] else LoadRows(lib, e, t) {
          WrittenRowLoads(lib, e, e', table, pk, rows[pk], t);
        }
        AmongOneMore(lib, base, rows, done, pk);
        left, done := left - {pk}, done + {pk};
      }
      assert done == rows.Keys;
    }

    /** One batch for a statement: all deletions, then all rows. */
    method PersistRowBatch(lib: Library, table: string, deleted: set<string>, rows: TableRows)
      modifies this
      ensures forall t :: LoadRows(lib, Contents(), t)
                == if t == table then (LoadRows(lib, old(Contents()), t) - deleted) + ReloadedRows(lib, rows) else LoadRows(lib, old(Contents()), t)
    {
      hide LoadRows, ApplyAll, ReloadedRows;
      ghost var s := Contents();
      var writes := DropWrites(lib, table, deleted, s);
      writes := SaveWrites(lib, table, rows, writes, s);
      WriteBatch(writes);
    }

    /** Drop every row of a table, found by the key pattern. */
    method DeleteTableRowsFromStorage(lib: Library, table: string)
      modifies this
      ensures LoadRows(lib, Contents(), table) == map[]
      ensures forall t :: t != table ==> LoadRows(lib, Contents(), t) == LoadRows(lib, old(Contents()), t)
    {
      hide RowKey, TablePksKey, RowPrefix, RowPattern;
      ghost var s := Contents();
      PrefixIsPlain(table);
      var todo := hashes.Keys;
      while todo != {}
        invariant todo <= s.hashes.Keys
        invariant forall key :: key in hashes <==> key in s.hashes && (key in todo || !(RowPrefix(table) <= key))
        invariant forall key :: key in hashes ==> hashes[key] == s.hashes[key]
        invariant forall t :: MembersAt(Contents(), TablePksKey(t)) == MembersAt(s, TablePksKey(t))
        decreases |todo|
      {
        var key :| key in todo;
        PrefixPattern(RowPrefix(table), key);
        var matched := GlobMatches(RowPattern(table), key);
        if matched {
          NoPksKeyIsOwnRow(table, key);
          Write(Del(key));
        }
        todo := todo - {key};
      }
      ghost var swept := Contents();
      Write(Del(TablePksKey(table)));
      ClearedTableLoads(lib, s, swept, Contents(), table);
    }
  }

  /** Some of the rows, as they come back from the store. */
  function Among(lib: Library, rows: TableRows, keys: set<string>): TableRows {
    map k | k in keys && k in rows :: Reloaded(lib, rows[k])
  }

  lemma AmongEnds(lib: Library, base: TableRows, rows: TableRows)
    ensures base + Among(lib, rows, {}) == base && Among(lib, rows, rows.Keys) == ReloadedRows(lib, rows)
  {
    hide Reloaded;
  }

  lemma AmongOneMore(lib: Library, base: TableRows, rows: TableRows, done: set<string>, pk: string)
    requires pk in rows
    ensures base + Among(lib, rows, done + {pk}) == (base + Among(lib, rows, done))[pk := Reloaded(lib, rows[pk])]
  {
    hide Reloaded;
  }

  lemma {:induction false} NothingApplied(s: Store)
    ensures ApplyAll(s, []) == s
  {
  }

  lemma {:induction false} AppendField(e: Store, s: Store, writes: seq<StorageWrite>, table: string, pk: string, fields: Fields, field: string, value: string)
    requires RowWritten(e, ApplyAll(s, writes), table, pk, fields)
    ensures RowWritten(e, ApplyAll(s, writes + [HSet(RowKey(table, pk), field, value)]), table, pk, fields[field := value])
  {
    hide RowWritten, RowKey, Apply;
    WriteField(e, ApplyAll(s, writes), table, pk, fields, field, value);
    ApplyOneMore(s, writes, HSet(RowKey(table, pk), field, value));
  }

  lemma PrefixIsPlain(table: string)
    ensures '*' !in RowPrefix(table) && '?' !in RowPrefix(table) && RowPattern(table) == RowPrefix(table) + "*"
  {
    RowPatternIsOwn(table, table, "");
  }

  lemma NoPksKeyIsOwnRow(table: string, key: string)
    requires RowPrefix(table) <= key
    ensures forall t :: key != TablePksKey(t)
  {
    forall t ensures key != TablePksKey(t) {
      assert key[10] == 'r' && TablePksKey(t)[10] == 't';
    }
  }

  lemma ClearedTableLoads(lib: Library, s: Store, swept: Store, s': Store, table: string)
    requires forall t :: MembersAt(swept, TablePksKey(t)) == MembersAt(s, TablePksKey(t))
    requires forall key :: key in swept.hashes <==> key in s.hashes && !(RowPrefix(table) <= key)
    requires forall key :: key in swept.hashes ==> swept.hashes[key] == s.hashes[key]
    requires s' == Apply(swept, Del(TablePksKey(table)))
    ensures LoadRows(lib, s', table) == map[]
    ensures forall t :: t != table ==> LoadRows(lib, s', t) == LoadRows(lib, s, t)
  {
    forall t | t != table ensures LoadRows(lib, s', t) == LoadRows(lib, s, t) {
      forall k { ClearedFields(s, swept, s', table, t, k); }
      ClearedMembers(s, swept, s', table, t);
      SameFieldsSameRows(lib, s, s', t);
    }
    hide RowKey, TablePksKey, DecodeRow;
  }

  lemma ClearedFields(s: Store, swept: Store, s': Store, table: string, t: string, k: string)
    requires forall key :: key in swept.hashes <==> key in s.hashes && !(RowPrefix(table) <= key)
    requires forall key :: key in swept.hashes ==> swept.hashes[key] == s.hashes[key]
    requires s' == Apply(swept, Del(TablePksKey(table))) && t != table
    ensures FieldsAt(s', RowKey(t, k)) == FieldsAt(s, RowKey(t, k))
  {
    RowPatternIsOwn(table, t, k);
    RowKeyIsNoPksKey(t, k, table);
    hide RowKey, TablePksKey, RowPrefix;
  }

  lemma ClearedMembers(s: Store, swept: Store, s': Store, table: string, t: string)
    requires MembersAt(swept, TablePksKey(t)) == MembersAt(s, TablePksKey(t))
    requires s' == Apply(swept, Del(TablePksKey(table))) && t != table
    ensures MembersAt(s', TablePksKey(t)) == MembersAt(s, TablePksKey(t))
  {
    if TablePksKey(t) == TablePksKey(table) { TablePksKeyInjective(t, table); }
    hide TablePksKey;
  }

  lemma SameFieldsSameRows(lib: Library, s: Store, s': Store, t: string)
    requires MembersAt(s', TablePksKey(t)) == MembersAt(s, TablePksKey(t))
    requires forall k :: FieldsAt(s', RowKey(t, k)) == FieldsAt(s, RowKey(t, k))
    ensures LoadRows(lib, s', t) == LoadRows(lib, s, t)
  {
    hide RowKey, TablePksKey, DecodeRow, MembersAt, FieldsAt;
  }
}
