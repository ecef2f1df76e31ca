/** Unique keys of rows, the full scan for conflicts, and the lookup that stands in for it. */
module UniqueKeys {
  import opened Wrappers
  import opened Json
  import opened Text
  import opened Catalog
  import opened StorageFormat
  import opened Grouping

  // ---------- the key text ----------

  const UNIQUE_SEPARATOR := "\U{1f}"

  function Join(parts: seq<string>, separator: string): string {
    if parts == [] then "" else if |parts| == 1 then parts[0] else parts[0] + separator + Join(parts[1..], separator)
  }

  function Truncated(v: Value, prefixLengths: seq<Option<nat>>, i: nat): Value {
    if v.Str? && i < |prefixLengths| && prefixLengths[i].Some? && prefixLengths[i].value < |v.s|
    then Str(v.s[..prefixLengths[i].value]) else v
  }

  /** The encoded values from column `i` on, unless one is missing or null. */
  function Parts(lib: Library, data: Row, columns: seq<string>, prefixLengths: seq<Option<nat>>, i: nat): Option<seq<string>>
    requires i <= |columns|
    decreases |columns| - i
  {
    if i == |columns| then Some([])
    else if ValueOf(data, columns[i]) == Null then None
    else
      match Parts(lib, data, columns, prefixLengths, i + 1)
      case None => None
      case Some(rest) => Some([EncodeValue(lib, Truncated(data[columns[i]], prefixLengths, i))] + rest)
  }

  method UniqueKeyWithPrefixes(lib: Library, data: Row, columns: seq<string>, prefixLengths: seq<Option<nat>>)
    returns (key: Option<string>)
    ensures key == KeyText(lib, data, columns, prefixLengths)
  {
    if columns == [] { return None; }
    var parts: seq<string> := [];
    assert forall rest: seq<string> :: [] + rest == rest;
    for i := 0 to |columns|
      invariant Parts(lib, data, columns, prefixLengths, 0)
             == match Parts(lib, data, columns, prefixLengths, i)
                case None => None
                case Some(rest) => Some(parts + rest)
    {
      if columns[i] !in data || data[columns[i]] == Null { return None; }
      var part := EncodeValue(lib, Truncated(data[columns[i]], prefixLengths, i));
      assert forall rest: seq<string> :: parts + ([part] + rest) == (parts + [part]) + rest;
      parts := parts + [part];
    }
    assert parts + [] == parts;
    return Some(Join(parts, UNIQUE_SEPARATOR));
  }

  function KeyText(lib: Library, data: Row, columns: seq<string>, prefixLengths: seq<Option<nat>>): Option<string> {
    if columns == [] then None
    else
      match Parts(lib, data, columns, prefixLengths, 0)
      case None => None
      case Some(parts) => Some(Join(parts, UNIQUE_SEPARATOR))
  }

  /** Prefix lengths of the first unique index on exactly these columns. */
  function PrefixesFor(indexes: seq<IndexHint>, columns: seq<string>): seq<Option<nat>> {
    if indexes == [] then []
    else if indexes[0].unique && indexes[0].columns == columns then indexes[0].prefixLengths
    else PrefixesFor(indexes[1..], columns)
  }

  /** The unique key of a row, unless one of its columns is null. */
  function UniqueKey(lib: Library, schema: Schema, data: Row, columns: seq<string>): Option<string> {
    KeyText(lib, data, columns, PrefixesFor(schema.indexes, columns))
  }

  // ---------- what equal keys mean ----------

  /** A key is missing exactly when there are no columns or one of them is missing or null. */
  lemma KeyMissingIff(lib: Library, data: Row, columns: seq<string>, prefixLengths: seq<Option<nat>>)
    ensures KeyText(lib, data, columns, prefixLengths).None?
       <==> columns == [] || exists i :: 0 <= i < |columns| && ValueOf(data, columns[i]) == Null
  {
    PartsAre(lib, data, columns, prefixLengths, 0);
  }

  lemma {:induction false} PartsAre(lib: Library, data: Row, columns: seq<string>, prefixLengths: seq<Option<nat>>, i: nat)
    requires i <= |columns|
    ensures var parts := Parts(lib, data, columns, prefixLengths, i);
            (parts.None? <==> exists j :: i <= j < |columns| && ValueOf(data, columns[j]) == Null)
            && (parts.Some? ==> |parts.value| == |columns| - i && forall j :: i <= j < |columns| ==>
                  parts.value[j - i] == EncodeValue(lib, Truncated(ValueOf(data, columns[j]), prefixLengths, j)))
    decreases |columns| - i
  {
    hide EncodeValue, Truncated;
    if i < |columns| { PartsAre(lib, data, columns, prefixLengths, i + 1); }
  }

  /** The stretches of text between separators; always at least one. */
  function Atoms(s: string): (r: seq<string>)
    ensures r != []
  {
    if s == [] then [""]
    else
      var rest := Atoms(s[1..]);
      if [s[0]] == UNIQUE_SEPARATOR then [""] + rest else [[s[0]] + rest[0]] + rest[1..]
  }

  function AllAtoms(parts: seq<string>): seq<string> { if parts == [] then [] else Atoms(parts[0]) + AllAtoms(parts[1..]) }

  lemma {:induction false} GluedAtoms(s: string)
    ensures Join(Atoms(s), UNIQUE_SEPARATOR) == s
  {
    if s != [] {
      var rest := Atoms(s[1..]);
      GluedAtoms(s[1..]);
      if [s[0]] == UNIQUE_SEPARATOR {
        assert ([""] + rest)[1..] == rest;
        assert "" + UNIQUE_SEPARATOR + s[1..] == s;
      } else {
        var atoms := [[s[0]] + rest[0]] + rest[1..];
        assert atoms[1..] == rest[1..];
        assert [s[0]] + s[1..] == s;
        if |rest| > 1 {
          var more := Join(rest[1..], UNIQUE_SEPARATOR);
          assert ([s[0]] + rest[0]) + UNIQUE_SEPARATOR + more == [s[0]] + (rest[0] + UNIQUE_SEPARATOR + more);
        }
      }
    }
  }

  lemma {:induction false} AtomsStep(c: char, s: string)
    ensures Atoms([c] + s) == if [c] == UNIQUE_SEPARATOR then [""] + Atoms(s) else [[c] + Atoms(s)[0]] + Atoms(s)[1..]
  {
    assert ([c] + s)[1..] == s;
  }

  lemma {:induction false} AtomsBehindSeparator(a: string, b: string)
    ensures Atoms(a + UNIQUE_SEPARATOR + b) == Atoms(a) + Atoms(b)
  {
    if a == [] {
      assert a + UNIQUE_SEPARATOR + b == UNIQUE_SEPARATOR + b;
      AtomsStep(UNIQUE_SEPARATOR[0], b);
    } else {
      AtomsBehindSeparator(a[1..], b);
      assert a == [a[0]] + a[1..] && a + UNIQUE_SEPARATOR + b == [a[0]] + (a[1..] + UNIQUE_SEPARATOR + b);
      AtomsStep(a[0], a[1..]);
      AtomsStep(a[0], a[1..] + UNIQUE_SEPARATOR + b);
      hide Atoms;
      AtomsInFront(Atoms(a[1..]), Atoms(b), [a[0]]);
    }
  }

  lemma AtomsInFront(x: seq<string>, y: seq<string>, c: string)
    requires x != []
    ensures [c + (x + y)[0]] + (x + y)[1..] == ([c + x[0]] + x[1..]) + y
    ensures [""] + (x + y) == ([""] + x) + y
  {
  }

  lemma {:induction false} AtomsOfJoined(parts: seq<string>)
    requires parts != []
    ensures Atoms(Join(parts, UNIQUE_SEPARATOR)) == AllAtoms(parts)
  {
    if |parts| == 1 {
      assert AllAtoms(parts[1..]) == [] && Atoms(parts[0]) + [] == Atoms(parts[0]);
    } else {
      AtomsOfJoined(parts[1..]);
      AtomsBehindSeparator(parts[0], Join(parts[1..], UNIQUE_SEPARATOR));
    }
  }

  /** Joined texts are equal exactly when the stretches are, wherever the parts begin and end. */
  lemma {:induction false} JoinedIff(a: seq<string>, b: seq<string>)
    requires a != [] && b != []
    ensures Join(a, UNIQUE_SEPARATOR) == Join(b, UNIQUE_SEPARATOR) <==> AllAtoms(a) == AllAtoms(b)
  {
    hide Join, Atoms, AllAtoms;
    var x, y := Join(a, UNIQUE_SEPARATOR), Join(b, UNIQUE_SEPARATOR);
    AtomsOfJoined(a);
    AtomsOfJoined(b);
    GluedAtoms(x);
    GluedAtoms(y);
  }

  /** When each part has as many stretches as its counterpart, the parts themselves are equal. */
  lemma {:induction false} SameAtomsSameParts(a: seq<string>, b: seq<string>)
    requires |a| == |b| && AllAtoms(a) == AllAtoms(b)
    requires forall i :: 0 <= i < |a| ==> |Atoms(a[i])| == |Atoms(b[i])|
    ensures a == b
  {
    hide Atoms;
    if a != [] {
      var n := |Atoms(a[0])|;
      assert AllAtoms(a)[..n] == Atoms(a[0]) && AllAtoms(b)[..n] == Atoms(b[0]);
      assert AllAtoms(a)[n..] == AllAtoms(a[1..]) && AllAtoms(b)[n..] == AllAtoms(b[1..]);
      SameAtomsSameParts(a[1..], b[1..]);
      GluedAtoms(a[0]);
      GluedAtoms(b[0]);
      assert a == [a[0]] + a[1..] && b == [b[0]] + b[1..];
    }
  }

  /** How often the separator occurs in a text. */
  function Separators(s: string): nat {
    if s == [] then 0 else (if [s[0]] == UNIQUE_SEPARATOR then 1 else 0) + Separators(s[1..])
  }

  lemma {:induction false} AtomsCounted(s: string)
    ensures |Atoms(s)| == Separators(s) + 1
  {
    if s != [] { AtomsCounted(s[1..]); }
  }

  /** How many characters of a column count. */
  function Limit(prefixLengths: seq<Option<nat>>, i: nat): Option<nat> { if i < |prefixLengths| then prefixLengths[i] else None }

  function CharAt(s: string, j: nat): Option<char> { if j < |s| then Some(s[j]) else None }

  /** Equal values; of texts, only the characters that count are compared. */
  predicate AgreeUpTo(x: Value, y: Value, limit: Option<nat>) {
    if x.Str? && y.Str? && limit.Some? then forall j: nat :: j < limit.value ==> CharAt(x.s, j) == CharAt(y.s, j)
    else x == y
  }

  /** How many separators the written value has, as far as it counts. */
  function SeparatorsIn(lib: Library, v: Value, limit: Option<nat>): nat {
    match v
    case Str(s) => Separators(if limit.Some? && limit.value < |s| then s[..limit.value] else s)
    case Arr(_) => Separators(lib.text(v))
    case Obj(_) => Separators(lib.text(v))
    case _ => 0
  }

  lemma CutAgree(x: string, y: string, n: nat)
    ensures (if n < |x| then x[..n] else x) == (if n < |y| then y[..n] else y) <==> forall j: nat :: j < n ==> CharAt(x, j) == CharAt(y, j)
  {
    var a, b := if n < |x| then x[..n] else x, if n < |y| then y[..n] else y;
    forall j: nat | j < n ensures CharAt(a, j) == CharAt(x, j) && CharAt(b, j) == CharAt(y, j) {}
    if forall j: nat :: j < n ==> CharAt(x, j) == CharAt(y, j) {
      assert |a| < n ==> CharAt(x, |a|) == CharAt(y, |a|);
      assert |b| < n ==> CharAt(x, |b|) == CharAt(y, |b|);
      assert |a| == |b|;
      forall j | 0 <= j < |a| ensures a[j] == b[j] { assert CharAt(x, j) == CharAt(y, j); }
    }
  }

  lemma TruncatedAgree(x: Value, y: Value, prefixLengths: seq<Option<nat>>, i: nat)
    ensures Truncated(x, prefixLengths, i) == Truncated(y, prefixLengths, i) <==> AgreeUpTo(x, y, Limit(prefixLengths, i))
  {
    if x.Str? && y.Str? && Limit(prefixLengths, i).Some? { CutAgree(x.s, y.s, Limit(prefixLengths, i).value); }
    hide CharAt;
  }

  /** Values that are read back from their encoding are encoded apart. */
  lemma EncodedApart(lib: Library, x: Value, y: Value)
    requires Storable(lib, x) && Storable(lib, y)
    ensures EncodeValue(lib, x) == EncodeValue(lib, y) <==> x == y
  {
    hide EncodeValue, DecodeValue, Storable;
    DecodeEncoded(lib, x);
    DecodeEncoded(lib, y);
  }

  lemma {:induction false} NoSeparators(s: string)
    requires forall j :: 0 <= j < |s| ==> [s[j]] != UNIQUE_SEPARATOR
    ensures Separators(s) == 0
  {
    if s != [] { NoSeparators(s[1..]); }
  }

  lemma IntTextHasNoSeparators(n: int)
    ensures Separators(IntText(n)) == 0
  {
    NoSeparators(IntText(n));
  }

  lemma {:induction false} SeparatorsBehindKind(kind: string, raw: string)
    requires |kind| == 2 && [kind[0]] != UNIQUE_SEPARATOR && [kind[1]] != UNIQUE_SEPARATOR
    ensures Separators(kind + raw) == Separators(raw)
  {
    assert (kind + raw)[1..][1..] == raw && (kind + raw)[1..][0] == kind[1];
  }

  lemma SeparatorsEncoded(lib: Library, v: Value, prefixLengths: seq<Option<nat>>, i: nat)
    ensures Separators(EncodeValue(lib, Truncated(v, prefixLengths, i))) == SeparatorsIn(lib, v, Limit(prefixLengths, i))
  {
    hide IntText;
    match v
    case Null => SeparatorsBehindKind("n:", "");
    case Bool(b) =>
      NoSeparators(if b then "1" else "0");
      SeparatorsBehindKind("b:", if b then "1" else "0");
    case Num(n) =>
      IntTextHasNoSeparators(n);
      SeparatorsBehindKind("i:", IntText(n));
      SeparatorsBehindKind("u:", IntText(n));
      SeparatorsBehindKind("f:", IntText(n));
    case Str(_) => SeparatorsBehindKind("s:", Truncated(v, prefixLengths, i).s);
    case Arr(_) => SeparatorsBehindKind("j:", lib.text(v));
    case Obj(_) => SeparatorsBehindKind("j:", lib.text(v));
  }

  ghost predicate StorableColumns(lib: Library, data: Row, columns: seq<string>) {
    forall i :: 0 <= i < |columns| ==> Storable(lib, ValueOf(data, columns[i]))
  }

  /** The rows agree on the columns, value by value, as far as the values count. */
  predicate ColumnsAgree(a: Row, b: Row, columns: seq<string>, prefixLengths: seq<Option<nat>>) {
    forall i :: 0 <= i < |columns| ==> AgreeUpTo(ValueOf(a, columns[i]), ValueOf(b, columns[i]), Limit(prefixLengths, i))
  }

  /** Column by column the values have the same number of separators. */
  predicate SeparatorsAgree(lib: Library, a: Row, b: Row, columns: seq<string>, prefixLengths: seq<Option<nat>>) {
    forall i :: 0 <= i < |columns| ==>
      SeparatorsIn(lib, ValueOf(a, columns[i]), Limit(prefixLengths, i)) == SeparatorsIn(lib, ValueOf(b, columns[i]), Limit(prefixLengths, i))
  }

  lemma TruncatedStaysStorable(lib: Library, v: Value, prefixLengths: seq<Option<nat>>, i: nat)
    requires Storable(lib, v)
    ensures Storable(lib, Truncated(v, prefixLengths, i))
  {
  }

  lemma ColumnPart(lib: Library, x: Value, y: Value, prefixLengths: seq<Option<nat>>, i: nat)
    requires Storable(lib, x) && Storable(lib, y)
    ensures var p, q := EncodeValue(lib, Truncated(x, prefixLengths, i)), EncodeValue(lib, Truncated(y, prefixLengths, i));
            && (p == q <==> AgreeUpTo(x, y, Limit(prefixLengths, i)))
            && (|Atoms(p)| == |Atoms(q)| <==> SeparatorsIn(lib, x, Limit(prefixLengths, i)) == SeparatorsIn(lib, y, Limit(prefixLengths, i)))
  {
    hide EncodeValue, Storable, Truncated, AgreeUpTo, SeparatorsIn, Atoms, Separators;
    TruncatedStaysStorable(lib, x, prefixLengths, i);
    TruncatedStaysStorable(lib, y, prefixLengths, i);
    TruncatedAgree(x, y, prefixLengths, i);
    EncodedApart(lib, Truncated(x, prefixLengths, i), Truncated(y, prefixLengths, i));
    SeparatorsEncoded(lib, x, prefixLengths, i);
    SeparatorsEncoded(lib, y, prefixLengths, i);
    AtomsCounted(EncodeValue(lib, Truncated(x, prefixLengths, i)));
    AtomsCounted(EncodeValue(lib, Truncated(y, prefixLengths, i)));
  }

  /** For values that are stored and read back: two rows with a key agree column by column exactly
      when their keys are equal and each column has as many separators in the one as in the other. */
  lemma EqualKeysIff(lib: Library, a: Row, b: Row, columns: seq<string>, prefixLengths: seq<Option<nat>>)
    requires StorableColumns(lib, a, columns) && StorableColumns(lib, b, columns)
    requires KeyText(lib, a, columns, prefixLengths).Some? && KeyText(lib, b, columns, prefixLengths).Some?
    ensures ColumnsAgree(a, b, columns, prefixLengths)
       <==> KeyText(lib, a, columns, prefixLengths) == KeyText(lib, b, columns, prefixLengths) && SeparatorsAgree(lib, a, b, columns, prefixLengths)
  {
    PartsAre(lib, a, columns, prefixLengths, 0);
    PartsAre(lib, b, columns, prefixLengths, 0);
    hide EncodeValue, Storable, Truncated, AgreeUpTo, SeparatorsIn, Atoms, AllAtoms, Join;
    var p, q := Parts(lib, a, columns, prefixLengths, 0).value, Parts(lib, b, columns, prefixLengths, 0).value;
    forall i | 0 <= i < |columns|
      ensures p[i] == q[i] <==> AgreeUpTo(ValueOf(a, columns[i]), ValueOf(b, columns[i]), Limit(prefixLengths, i))
      ensures |Atoms(p[i])| == |Atoms(q[i])| <==>
                SeparatorsIn(lib, ValueOf(a, columns[i]), Limit(prefixLengths, i)) == SeparatorsIn(lib, ValueOf(b, columns[i]), Limit(prefixLengths, i))
    {
      assert p[i] == p[i - 0] && q[i] == q[i - 0];
      ColumnPart(lib, ValueOf(a, columns[i]), ValueOf(b, columns[i]), prefixLengths, i);
    }
    if p == q { assert ColumnsAgree(a, b, columns, prefixLengths); }
    if ColumnsAgree(a, b, columns, prefixLengths) {
      assert p == q;
    }
    JoinedIff(p, q);
    if AllAtoms(p) == AllAtoms(q) && SeparatorsAgree(lib, a, b, columns, prefixLengths) { SameAtomsSameParts(p, q); }
  }

  /** The two rows have equal keys on the columns: both keys exist, and the values agree column by
      column when none of them holds the separator. */
  lemma {:induction false} SameUniqueKeyIff(lib: Library, schema: Schema, a: Row, b: Row, columns: seq<string>)
    requires StorableColumns(lib, a, columns) && StorableColumns(lib, b, columns)
    requires SeparatorsAgree(lib, a, b, columns, PrefixesFor(schema.indexes, columns))
    ensures SameUniqueKey(lib, schema, a, b, columns)
       <==> columns != [] && (forall i :: 0 <= i < |columns| ==> ValueOf(a, columns[i]) != Null && ValueOf(b, columns[i]) != Null)
            && ColumnsAgree(a, b, columns, PrefixesFor(schema.indexes, columns))
  {
    var prefixLengths := PrefixesFor(schema.indexes, columns);
    KeyMissingIff(lib, a, columns, prefixLengths);
    KeyMissingIff(lib, b, columns, prefixLengths);
    hide KeyText, ColumnsAgree, SeparatorsAgree, StorableColumns;
    if KeyText(lib, a, columns, prefixLengths).Some? && KeyText(lib, b, columns, prefixLengths).Some? {
      EqualKeysIff(lib, a, b, columns, prefixLengths);
    }
  }

  predicate SeparatorFree(v: Value) {
    match v
    case Num(n) => I64_MIN <= n <= I64_MAX
    case Str(s) => forall j :: 0 <= j < |s| ==> [s[j]] != UNIQUE_SEPARATOR
    case Arr(_) => false
    case Obj(_) => false
    case _ => true
  }

  lemma SeparatorFreeHasNone(lib: Library, v: Value, limit: Option<nat>)
    requires SeparatorFree(v)
    ensures Storable(lib, v) && SeparatorsIn(lib, v, limit) == 0
  {
    if v.Str? { NoSeparators(if limit.Some? && limit.value < |v.s| then v.s[..limit.value] else v.s); }
  }

  /** Nulls, booleans, 64-bit integers and texts without the separator: two rows have equal keys
      exactly when no column is missing or null and all agree. */
  lemma {:induction false} SeparatorFreeKeysIff(lib: Library, schema: Schema, a: Row, b: Row, columns: seq<string>)
    requires forall i :: 0 <= i < |columns| ==> SeparatorFree(ValueOf(a, columns[i])) && SeparatorFree(ValueOf(b, columns[i]))
    ensures SameUniqueKey(lib, schema, a, b, columns)
       <==> columns != [] && (forall i :: 0 <= i < |columns| ==> ValueOf(a, columns[i]) != Null && ValueOf(b, columns[i]) != Null)
            && ColumnsAgree(a, b, columns, PrefixesFor(schema.indexes, columns))
  {
    hide SeparatorFree, SeparatorsIn, Storable, SameUniqueKey, ColumnsAgree, PrefixesFor;
    var prefixLengths := PrefixesFor(schema.indexes, columns);
    forall i | 0 <= i < |columns|
      ensures Storable(lib, ValueOf(a, columns[i])) && SeparatorsIn(lib, ValueOf(a, columns[i]), Limit(prefixLengths, i)) == 0
      ensures Storable(lib, ValueOf(b, columns[i])) && SeparatorsIn(lib, ValueOf(b, columns[i]), Limit(prefixLengths, i)) == 0
    {
      SeparatorFreeHasNone(lib, ValueOf(a, columns[i]), Limit(prefixLengths, i));
      SeparatorFreeHasNone(lib, ValueOf(b, columns[i]), Limit(prefixLengths, i));
    }
    SameUniqueKeyIff(lib, schema, a, b, columns);
  }

  /** A separator inside a value: the texts `x`, U+001F, `s:y` and `z` in two columns have the key
      of `x` and `y`, U+001F, `s:z`. */
  lemma SeparatorMovesValues(lib: Library, x: string, y: string, z: string)
    ensures var u := UNIQUE_SEPARATOR;
            var a: Row, b: Row := map["c" := Str(x + u + "s:" + y), "d" := Str(z)], map["c" := Str(x), "d" := Str(y + u + "s:" + z)];
            KeyText(lib, a, ["c", "d"], []).Some? && KeyText(lib, a, ["c", "d"], []) == KeyText(lib, b, ["c", "d"], []) && !ColumnsAgree(a, b, ["c", "d"], [])
  {
    var u := UNIQUE_SEPARATOR;
    var a: Row, b: Row := map["c" := Str(x + u + "s:" + y), "d" := Str(z)], map["c" := Str(x), "d" := Str(y + u + "s:" + z)];
    var columns := ["c", "d"];
    PartsAre(lib, a, columns, [], 0);
    PartsAre(lib, b, columns, [], 0);
    var p, q := Parts(lib, a, columns, [], 0).value, Parts(lib, b, columns, [], 0).value;
    assert p[0] == p[0 - 0] == "s:" + (x + u + "s:" + y) && p[1] == p[1 - 0] == "s:" + z;
    assert q[0] == q[0 - 0] == "s:" + x && q[1] == q[1 - 0] == "s:" + (y + u + "s:" + z);
    assert p[1..] == [p[1]] && q[1..] == [q[1]];
    assert Join(p, u) == p[0] + u + p[1] && Join(q, u) == q[0] + u + q[1];
    assert p[0] + u + p[1] == q[0] + u + q[1];
    assert |x + u + "s:" + y| > |x|;
    assert ValueOf(a, columns[0]) != ValueOf(b, columns[0]) && Limit([], 0) == None;
  }

  /** The prefix lengths are those of the first unique index on exactly these columns; without one
      all characters count. */
  lemma {:induction false} PrefixesAreOfFirstIndex(indexes: seq<IndexHint>, columns: seq<string>, n: nat)
    requires n <= |indexes| && forall j :: 0 <= j < n ==> !(indexes[j].unique && indexes[j].columns == columns)
    ensures n < |indexes| && indexes[n].unique && indexes[n].columns == columns ==> PrefixesFor(indexes, columns) == indexes[n].prefixLengths
    ensures n == |indexes| ==> forall i :: Limit(PrefixesFor(indexes, columns), i) == None
  {
    if n > 0 {
      forall j | 0 <= j < n - 1 ensures !(indexes[1..][j].unique && indexes[1..][j].columns == columns) { assert indexes[1..][j] == indexes[j + 1]; }
      PrefixesAreOfFirstIndex(indexes[1..], columns, n - 1);
    }
  }

  // ---------- conflicts, by full scan ----------

  predicate SameUniqueKey(lib: Library, schema: Schema, a: Row, b: Row, columns: seq<string>) {
    UniqueKey(lib, schema, a, columns).Some? && UniqueKey(lib, schema, a, columns) == UniqueKey(lib, schema, b, columns)
  }

  /** The rows that the row `data` under `key` cannot stand beside. */
  function Conflicts(lib: Library, schema: Schema, key: string, data: Row, rows: TableRows): set<string> {
    set k | k in rows && (k == key || exists i :: 0 <= i < |schema.unique| && SameUniqueKey(lib, schema, data, rows[k].data, schema.unique[i]))
  }

  method FindConflictKeys(lib: Library, schema: Schema, key: string, data: Row, rows: TableRows) returns (conflicts: set<string>)
    ensures conflicts == Conflicts(lib, schema, key, data, rows)
  {
    hide UniqueKey;
    conflicts := if key in rows then {key} else {};
    for i := 0 to |schema.unique|
      invariant conflicts == set k | k in rows &&
                  (k == key || exists j :: 0 <= j < i && SameUniqueKey(lib, schema, data, rows[k].data, schema.unique[j]))
    {
      var incoming := UniqueKey(lib, schema, data, schema.unique[i]);
      if incoming.Some? {
        conflicts := conflicts + set k | k in rows && UniqueKey(lib, schema, rows[k].data, schema.unique[i]) == incoming;
      }
    }
  }

  // ---------- the lookup ----------

  type UniqueLookup = map<seq<string>, map<string, set<string>>>

  /** Which row keys carry which unique key. */
  function Labels(lib: Library, schema: Schema, rows: TableRows, columns: seq<string>): map<string, string> {
    map k | k in rows && UniqueKey(lib, schema, rows[k].data, columns).Some? :: UniqueKey(lib, schema, rows[k].data, columns).value
  }

  function GroupsOf(lookup: UniqueLookup, columns: seq<string>): map<string, set<string>> {
    if columns in lookup then lookup[columns] else map[]
  }

  /** The lookup is the one built from these rows, up to empty entries. */
  ghost predicate Stands(lib: Library, schema: Schema, lookup: UniqueLookup, rows: TableRows) {
    forall i :: 0 <= i < |schema.unique| ==> GroupsOf(lookup, schema.unique[i]) == Grouped(Labels(lib, schema, rows, schema.unique[i]))
  }

  lemma LabelsWith(lib: Library, schema: Schema, rows: TableRows, key: string, row: StoredRow, columns: seq<string>)
    requires key !in rows
    ensures key !in Labels(lib, schema, rows, columns)
    ensures Labels(lib, schema, rows[key := row], columns)
         == match UniqueKey(lib, schema, row.data, columns)
            case None => Labels(lib, schema, rows, columns)
            case Some(u) => Labels(lib, schema, rows, columns)[key := u]
  {
    hide UniqueKey;
  }

  lemma LabelsWithout(lib: Library, schema: Schema, rows: TableRows, key: string, columns: seq<string>)
    ensures Labels(lib, schema, rows - {key}, columns) == Labels(lib, schema, rows, columns) - {key}
  {
    hide UniqueKey;
  }

  method AddToUniqueLookup(lib: Library, schema: Schema, lookup: UniqueLookup, key: string, data: Row) returns (r: UniqueLookup)
    ensures forall columns :: GroupsOf(r, columns) == if columns in schema.unique && UniqueKey(lib, schema, data, columns).Some?
                then AddTo(GroupsOf(lookup, columns), UniqueKey(lib, schema, data, columns).value, key) else GroupsOf(lookup, columns)
  {
    hide UniqueKey, AddTo;
    r := lookup;
    for i := 0 to |schema.unique|
      invariant forall columns :: GroupsOf(r, columns) == if columns in schema.unique[..i] && UniqueKey(lib, schema, data, columns).Some?
                  then AddTo(GroupsOf(lookup, columns), UniqueKey(lib, schema, data, columns).value, key) else GroupsOf(lookup, columns)
    {
      var columns := schema.unique[i];
      assert schema.unique[..i + 1] == schema.unique[..i] + [columns];
      var value := UniqueKey(lib, schema, data, columns);
      if value.Some? {
        var groups := if columns in r then r[columns] else map[];
        AddTwice(GroupsOf(lookup, columns), value.value, key);
        r := r[columns := AddTo(groups, value.value, key)];
      }
    }
    assert schema.unique[..|schema.unique|] == schema.unique;
  }

  method RemoveFromUniqueLookup(lib: Library, schema: Schema, lookup: UniqueLookup, key: string, data: Row) returns (r: UniqueLookup)
    ensures forall columns :: GroupsOf(r, columns) == if columns in schema.unique && UniqueKey(lib, schema, data, columns).Some?
                then RemoveFrom(GroupsOf(lookup, columns), UniqueKey(lib, schema, data, columns).value, key) else GroupsOf(lookup, columns)
  {
    hide UniqueKey, RemoveFrom;
    r := lookup;
    for i := 0 to |schema.unique|
      invariant forall columns :: GroupsOf(r, columns) == if columns in schema.unique[..i] && UniqueKey(lib, schema, data, columns).Some?
                  then RemoveFrom(GroupsOf(lookup, columns), UniqueKey(lib, schema, data, columns).value, key) else GroupsOf(lookup, columns)
    {
      var columns := schema.unique[i];
      assert schema.unique[..i + 1] == schema.unique[..i] + [columns];
      var value := UniqueKey(lib, schema, data, columns);
      if value.Some? {
        RemoveTwice(GroupsOf(lookup, columns), value.value, key);
        if columns in r {
          r := r[columns := RemoveFrom(r[columns], value.value, key)];
        } else {
          NothingToRemove(value.value, key);
        }
      }
    }
    assert schema.unique[..|schema.unique|] == schema.unique;
  }

  lemma NothingToRemove(t: string, k: string)
    ensures RemoveFrom(map[], t, k) == map[]
  {
  }

  /** After a row is added to both, the lookup still stands for the rows. */
  lemma AddKeepsStanding(lib: Library, schema: Schema, lookup: UniqueLookup, r: UniqueLookup, rows: TableRows, key: string, row: StoredRow)
    requires Stands(lib, schema, lookup, rows) && key !in rows
    requires forall columns :: GroupsOf(r, columns) == if columns in schema.unique && UniqueKey(lib, schema, row.data, columns).Some?
                then AddTo(GroupsOf(lookup, columns), UniqueKey(lib, schema, row.data, columns).value, key) else GroupsOf(lookup, columns)
    ensures Stands(lib, schema, r, rows[key := row])
  {
    hide UniqueKey, AddTo, Grouped, GroupsOf;
    forall i | 0 <= i < |schema.unique|
      ensures GroupsOf(r, schema.unique[i]) == Grouped(Labels(lib, schema, rows[key := row], schema.unique[i]))
    {
      var columns := schema.unique[i];
      LabelsWith(lib, schema, rows, key, row, columns);
      if UniqueKey(lib, schema, row.data, columns).Some? {
        GroupedAdd(Labels(lib, schema, rows, columns), key, UniqueKey(lib, schema, row.data, columns).value);
      }
    }
  }

  lemma RemoveKeepsStanding(lib: Library, schema: Schema, lookup: UniqueLookup, r: UniqueLookup, rows: TableRows, key: string)
    requires Stands(lib, schema, lookup, rows) && key in rows
    requires forall columns :: GroupsOf(r, columns) == if columns in schema.unique && UniqueKey(lib, schema, rows[key].data, columns).Some?
                then RemoveFrom(GroupsOf(lookup, columns), UniqueKey(lib, schema, rows[key].data, columns).value, key) else GroupsOf(lookup, columns)
    ensures Stands(lib, schema, r, rows - {key})
  {
    hide UniqueKey, RemoveFrom, Grouped, GroupsOf;
    forall i | 0 <= i < |schema.unique|
      ensures GroupsOf(r, schema.unique[i]) == Grouped(Labels(lib, schema, rows - {key}, schema.unique[i]))
    {
      var columns := schema.unique[i];
      var labels := Labels(lib, schema, rows, columns);
      LabelsWithout(lib, schema, rows, key, columns);
      if key in labels { GroupedRemove(labels, key); } else { assert labels - {key} == labels; }
    }
  }

  method BuildUniqueLookup(lib: Library, schema: Schema, rows: TableRows) returns (lookup: UniqueLookup)
    ensures Stands(lib, schema, lookup, rows)
    ensures lookup.Keys == set i | 0 <= i < |schema.unique| :: schema.unique[i]
  {
    lookup := map[];
    for i := 0 to |schema.unique|
      invariant lookup.Keys == set j | 0 <= j < i :: schema.unique[j]
      invariant forall j :: 0 <= j < i ==> lookup[schema.unique[j]] == Grouped(Labels(lib, schema, rows, schema.unique[j]))
    {
      var values := GroupColumn(lib, schema, rows, schema.unique[i]);
      lookup := lookup[schema.unique[i] := values];
    }
  }

  method GroupColumn(lib: Library, schema: Schema, rows: TableRows, columns: seq<string>) returns (values: map<string, set<string>>)
    ensures values == Grouped(Labels(lib, schema, rows, columns))
  {
    hide UniqueKey, AddTo, Grouped, Labels;
    values := map[];
    var todo := rows.Keys;
    ghost var done: TableRows := map[];
    GroupedNothing(lib, schema, columns);
    while todo != {}
      invariant todo <= rows.Keys && done.Keys == rows.Keys - todo
      invariant forall k :: k in done ==> done[k] == rows[k]
      invariant values == Grouped(Labels(lib, schema, done, columns))
      decreases |todo|
    {
      var k :| k in todo;
      var value := UniqueKey(lib, schema, rows[k].data, columns);
      LabelsWith(lib, schema, done, k, rows[k], columns);
      if value.Some? {
        GroupedAdd(Labels(lib, schema, done, columns), k, value.value);
        values := AddTo(values, value.value, k);
      }
      todo, done := todo - {k}, done[k := rows[k]];
    }
    assert done == rows;
  }

  lemma GroupedNothing(lib: Library, schema: Schema, columns: seq<string>)
    ensures Grouped(Labels(lib, schema, map[], columns)) == map[]
  {
    assert Labels(lib, schema, map[], columns) == map[];
  }

  /** Looking a key up in its group finds the rows a scan would find. */
  lemma LookupFindsScan(lib: Library, schema: Schema, rows: TableRows, columns: seq<string>, u: string, k: string)
    ensures var groups := Grouped(Labels(lib, schema, rows, columns));
            (u in groups && k in groups[u]) <==> k in rows && UniqueKey(lib, schema, rows[k].data, columns) == Some(u)
  {
    hide UniqueKey;
    var labels := Labels(lib, schema, rows, columns);
    if k in labels && labels[k] == u { assert u in labels.Values; }
  }

  /** The fast form refines the slow one. */
  method FindConflictKeysWithLookup(lib: Library, schema: Schema, key: string, data: Row, rows: TableRows, lookup: UniqueLookup)
    returns (conflicts: set<string>)
    requires Stands(lib, schema, lookup, rows)
    ensures conflicts == Conflicts(lib, schema, key, data, rows)
  {
    hide UniqueKey, Grouped, Labels;
    conflicts := if key in rows then {key} else {};
    for i := 0 to |schema.unique|
      invariant conflicts == set k | k in rows &&
                  (k == key || exists j :: 0 <= j < i && SameUniqueKey(lib, schema, data, rows[k].data, schema.unique[j]))
    {
      var columns := schema.unique[i];
      var value := UniqueKey(lib, schema, data, columns);
      if value.Some? {
        forall k { LookupFindsScan(lib, schema, rows, columns, value.value, k); }
        assert GroupsOf(lookup, columns) == Grouped(Labels(lib, schema, rows, columns));
        if columns in lookup && value.value in lookup[columns] {
          conflicts := conflicts + lookup[columns][value.value];
        }
      }
    }
  }

  // ---------- uniqueness ----------

  /** No two rows share a unique key that is not null. */
  ghost predicate Unique(lib: Library, schema: Schema, rows: TableRows) {
    forall i, j, k :: 0 <= i < |schema.unique| && j in rows && k in rows && j != k
      ==> !SameUniqueKey(lib, schema, rows[j].data, rows[k].data, schema.unique[i])
  }

  lemma FewerRowsStayUnique(lib: Library, schema: Schema, rows: TableRows, rows': TableRows)
    requires Unique(lib, schema, rows)
    requires forall k :: k in rows' ==> k in rows && rows'[k].data == rows[k].data
    ensures Unique(lib, schema, rows')
  {
    hide SameUniqueKey;
  }

  /** A row may be put in place exactly when no other row conflicts with it. */
  lemma PutKeepsUniqueIff(lib: Library, schema: Schema, rows: TableRows, key: string, row: StoredRow)
    requires Unique(lib, schema, rows)
    ensures Unique(lib, schema, rows[key := row]) <==> Conflicts(lib, schema, key, row.data, rows) <= {key}
  {
    hide UniqueKey;
    var rows' := rows[key := row];
    if Conflicts(lib, schema, key, row.data, rows) <= {key} {
      forall i, j, k | 0 <= i < |schema.unique| && j in rows' && k in rows' && j != k
        ensures !SameUniqueKey(lib, schema, rows'[j].data, rows'[k].data, schema.unique[i])
      {
        if j == key { assert k !in Conflicts(lib, schema, key, row.data, rows); }
        if k == key { assert j !in Conflicts(lib, schema, key, row.data, rows); }
      }
    }
    if Unique(lib, schema, rows') {
      assert rows'[key].data == row.data;
      forall k | k in rows && k != key ensures k !in Conflicts(lib, schema, key, row.data, rows) {
        assert rows'[k] == rows[k];
      }
    }
  }

  /** No two rows share a key on these columns that is not null. */
  ghost predicate DistinctOn(lib: Library, schema: Schema, rows: TableRows, columns: seq<string>) {
    forall j, k :: j in rows && k in rows && j != k ==> !SameUniqueKey(lib, schema, rows[j].data, rows[k].data, columns)
  }

  /** The column lists an UPDATE checks: the unique keys and the primary key. */
  function Constraints(schema: Schema): seq<seq<string>> {
    schema.unique + if schema.primaryKey == [] then [] else [schema.primaryKey]
  }

  ghost predicate ConstraintsHold(lib: Library, schema: Schema, rows: TableRows) {
    forall columns :: columns in Constraints(schema) ==> DistinctOn(lib, schema, rows, columns)
  }

  lemma ConstraintsMakeUnique(lib: Library, schema: Schema, rows: TableRows)
    requires ConstraintsHold(lib, schema, rows)
    ensures Unique(lib, schema, rows)
  {
    hide SameUniqueKey;
    forall i | 0 <= i < |schema.unique| ensures DistinctOn(lib, schema, rows, schema.unique[i]) {
      assert Constraints(schema)[i] == schema.unique[i];
    }
  }

  /** A table without constraints on its columns always passes. */
  method ValidateUniqueConstraints(lib: Library, schema: Schema, rows: TableRows) returns (ok: bool)
    ensures ok <==> ConstraintsHold(lib, schema, rows)
  {
    hide DistinctOn;
    var constraints := Constraints(schema);
    for i := 0 to |constraints|
      invariant forall j :: 0 <= j < i ==> DistinctOn(lib, schema, rows, constraints[j])
    {
      var fine := NoneShared(lib, schema, rows, constraints[i]);
      if !fine { return false; }
    }
    return true;
  }

  method NoneShared(lib: Library, schema: Schema, rows: TableRows, columns: seq<string>) returns (ok: bool)
    ensures ok <==> DistinctOn(lib, schema, rows, columns)
  {
    hide UniqueKey;
    var seen: map<string, string> := map[];
    var todo := rows.Keys;
    while todo != {}
      invariant todo <= rows.Keys
      invariant forall j, k :: j in rows.Keys - todo && k in rows.Keys - todo && j != k
                  ==> !SameUniqueKey(lib, schema, rows[j].data, rows[k].data, columns)
      invariant forall u :: u in seen ==> seen[u] in rows.Keys - todo && UniqueKey(lib, schema, rows[seen[u]].data, columns) == Some(u)
      invariant forall k :: k in rows.Keys - todo && UniqueKey(lib, schema, rows[k].data, columns).Some?
                  ==> UniqueKey(lib, schema, rows[k].data, columns).value in seen
      decreases |todo|
    {
      var k :| k in todo;
      var key := UniqueKey(lib, schema, rows[k].data, columns);
      if key.Some? {
        if key.value in seen {
          assert SameUniqueKey(lib, schema, rows[k].data, rows[seen[key.value]].data, columns);
          return false;
        }
        seen := seen[key.value := k];
      }
      todo := todo - {k};
    }
    return true;
  }
}
