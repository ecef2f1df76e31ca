/** Rows, tables and schemas, and the library functions the engine takes as given. */
module Catalog {
  import opened Wrappers
  import opened Json

  type Row = map<string, Value>

  datatype StoredRow = StoredRow(id: Value, table: string, data: Row)

  /** The rows of one table by row key. */
  type TableRows = map<string, StoredRow>

  /** All tables by name. */
  type Database = map<string, TableRows>

  function RowsOf(db: Database, table: string): TableRows { if table in db then db[table] else map[] }

  datatype Action = Cascade | SetNull | Restrict | Unsupported

  datatype ForeignKey = ForeignKey(
    name: string,
    columns: seq<string>,
    referencedTable: string,
    referencedColumns: seq<string>,
    onDelete: Action,
    onUpdate: Action)

  datatype IndexHint = IndexHint(name: string, columns: seq<string>, unique: bool, prefixLengths: seq<Option<nat>>)

  /** A table has at most one auto-increment column. */
  datatype Schema = Schema(
    primaryKey: seq<string>,
    autoColumn: Option<string>,
    unique: seq<seq<string>>,
    indexes: seq<IndexHint>,
    foreignKeys: seq<ForeignKey>)

  type Schemas = map<string, Schema>

  /** Code outside the model: SQL equality, JSON writing and reading, reading of a float (null when
      it is none), the view of a stored row through the current schema, and the first key of an
      ordered set. */
  datatype Library = Library(
    eq: (Value, Value) -> bool,
    text: Value -> string,
    parse: string -> Option<Value>,
    float: string -> Value,
    view: (Schema, Row) -> Row,
    first: set<string> -> string)

  ghost predicate PicksMembers(lib: Library) { forall s :: s != {} ==> lib.first(s) in s }

  /** SQL equality never holds of a null; it is symmetric, and reflexive on everything else. */
  ghost predicate SqlEquality(lib: Library) {
    && (forall v :: !lib.eq(v, Null) && !lib.eq(Null, v))
    && (forall v, w :: lib.eq(v, w) ==> lib.eq(w, v))
    && (forall v :: v != Null ==> lib.eq(v, v))
  }

  function LowerChar(c: char): char { if 'A' <= c <= 'Z' then c - 'A' + 'a' else c }

  predicate EqIgnoreAsciiCase(a: string, b: string) {
    |a| == |b| && forall i :: 0 <= i < |a| ==> LowerChar(a[i]) == LowerChar(b[i])
  }

  function ValueOf(data: Row, column: string): Value { if column in data then data[column] else Null }

  /** Both have the column with the same value, or neither has it. */
  predicate SameAt(a: Row, b: Row, column: string) {
    (column in a <==> column in b) && (column in a ==> a[column] == b[column])
  }

  function Values(data: Row, columns: seq<string>): (r: seq<Value>)
    ensures |r| == |columns| && forall i :: 0 <= i < |r| ==> r[i] == ValueOf(data, columns[i])
  {
    seq(|columns|, i requires 0 <= i < |columns| => ValueOf(data, columns[i]))
  }
}
