/** JSON values, and reading, writing and removing at a path. */
module Json {
  import opened Wrappers

  /** A JSON document; numbers are integers here. */
  datatype Value =
    | Null
    | Bool(b: bool)
    | Num(n: int)
    | Str(s: string)
    | Arr(items: seq<Value>)
    | Obj(fields: map<string, Value>)

  /** The marker string that stands for a JSON null inside a document. */
  const JSON_NULL := Str("\0my_sqweel_json_null")

  datatype Token =
    | Key(key: string)
    | Index(index: nat)
    | Wildcard
    | Recursive

  predicate Concrete(tokens: seq<Token>) {
    forall i :: 0 <= i < |tokens| ==> tokens[i].Key? || tokens[i].Index?
  }

  /** The node a wildcard-free path denotes. */
  function Get(doc: Value, tokens: seq<Token>): Option<Value> {
    if tokens == [] then Some(doc)
    else
      match tokens[0]
      case Key(k) => if doc.Obj? && k in doc.fields then Get(doc.fields[k], tokens[1..]) else None
      case Index(i) => if doc.Arr? && i < |doc.items| then Get(doc.items[i], tokens[1..]) else None
      case Wildcard => None
      case Recursive => None
  }

  function FieldsOf(doc: Value): map<string, Value> { if doc.Obj? then doc.fields else map[] }

  function ItemsOf(doc: Value): seq<Value> { if doc.Arr? then doc.items else [] }

  function Pad(items: seq<Value>, length: nat, filler: Value): (r: seq<Value>)
    ensures |r| == if |items| >= length then |items| else length
    ensures forall i :: 0 <= i < |r| ==> r[i] == if i < |items| then items[i] else filler
  {
    if |items| >= length then items else items + seq(length - |items|, _ => filler)
  }

  /** Arrays are filled with JSON nulls on the way down and with SQL nulls at the last token. */
  function Filler(rest: seq<Token>): Value { if rest == [] then Null else JSON_NULL }

  /** The child a path goes on to, created when it is missing. */
  function Child(doc: Value, token: Token, rest: seq<Token>): Value
    requires token.Key? || token.Index?
  {
    match token
    case Key(k) => if k in FieldsOf(doc) then FieldsOf(doc)[k] else Obj(map[])
    case Index(i) => Pad(ItemsOf(doc), i + 1, Filler(rest))[i]
  }

  /** `doc` with that child replaced, coerced to the container the token asks for. */
  function WithChild(doc: Value, token: Token, rest: seq<Token>, child: Value): Value
    requires token.Key? || token.Index?
  {
    match token
    case Key(k) => Obj(FieldsOf(doc)[k := child])
    case Index(i) => Arr(Pad(ItemsOf(doc), i + 1, Filler(rest))[i := child])
  }

  /** The document after a write, and whether the write took place. A wildcard stops the walk, but
      containers created above it stay. */
  function SetAt(doc: Value, tokens: seq<Token>, value: Value): (Value, bool)
    decreases |tokens|
  {
    if tokens == [] then (value, true)
    else if tokens[0].Wildcard? || tokens[0].Recursive? then (doc, false)
    else
      var below := SetAt(Child(doc, tokens[0], tokens[1..]), tokens[1..], value);
      (WithChild(doc, tokens[0], tokens[1..], below.0), below.1)
  }

  function RemoveAt(doc: Value, tokens: seq<Token>): (Value, bool)
    decreases |tokens|
  {
    if tokens == [] then (JSON_NULL, true)
    else
      match tokens[0]
      case Key(k) =>
        if !(doc.Obj? && k in doc.fields) then (doc, false)
        else if |tokens| == 1 then (Obj(doc.fields - {k}), true)
        else
          var below := RemoveAt(doc.fields[k], tokens[1..]);
          (Obj(doc.fields[k := below.0]), below.1)
      case Index(i) =>
        if !(doc.Arr? && i < |doc.items|) then (doc, false)
        else if |tokens| == 1 then (Arr(doc.items[..i] + doc.items[i + 1..]), true)
        else
          var below := RemoveAt(doc.items[i], tokens[1..]);
          (Arr(doc.items[i := below.0]), below.1)
      case Wildcard => (doc, false)
      case Recursive => (doc, false)
  }

  // ---------- lens laws ----------

  lemma {:induction false} GetAfterSet(doc: Value, path: seq<Token>, v: Value)
    requires Concrete(path)
    ensures SetAt(doc, path, v).1
    ensures Get(SetAt(doc, path, v).0, path) == Some(v)
    decreases |path|
  {
    if path != [] { GetAfterSet(Child(doc, path[0], path[1..]), path[1..], v); }
  }

  /** Writing back what was read changes nothing. */
  lemma {:induction false} SetWhatWasRead(doc: Value, path: seq<Token>)
    requires Concrete(path) && Get(doc, path).Some?
    ensures SetAt(doc, path, Get(doc, path).value) == (doc, true)
    decreases |path|
  {
    if path != [] {
      var child := Child(doc, path[0], path[1..]);
      SetWhatWasRead(child, path[1..]);
      assert WithChild(doc, path[0], path[1..], child) == doc;
    }
  }

  lemma ChildOfWithChild(doc: Value, token: Token, rest: seq<Token>, c: Value, d: Value)
    requires token.Key? || token.Index?
    ensures Child(WithChild(doc, token, rest, c), token, rest) == c
    ensures WithChild(WithChild(doc, token, rest, c), token, rest, d) == WithChild(doc, token, rest, d)
  {
    if token.Index? {
      var padded := Pad(ItemsOf(doc), token.index + 1, Filler(rest));
      var written := padded[token.index := c];
      assert Pad(written, token.index + 1, Filler(rest)) == written;
      assert written[token.index := d] == padded[token.index := d];
    } else {
      assert FieldsOf(doc)[token.key := c][token.key := d] == FieldsOf(doc)[token.key := d];
    }
  }

  /** The later of two writes at one path wins. */
  lemma {:induction false} SecondSetWins(doc: Value, path: seq<Token>, v: Value, w: Value)
    requires Concrete(path)
    ensures SetAt(SetAt(doc, path, v).0, path, w) == SetAt(doc, path, w)
    decreases |path|
  {
    hide Child, WithChild;
    if path != [] {
      var t, rest := path[0], path[1..];
      var child := Child(doc, t, rest);
      SecondSetWins(child, rest, v, w);
      ChildOfWithChild(doc, t, rest, SetAt(child, rest, v).0, SetAt(child, rest, w).0);
    }
  }

  /** The two paths part at a position where both step into the same kind of container. */
  predicate Diverge(p: seq<Token>, q: seq<Token>)
  {
    p != [] && q != [] &&
    if p[0] == q[0] then Diverge(p[1..], q[1..])
    else (p[0].Key? && q[0].Key?) || (p[0].Index? && q[0].Index?)
  }

  /** A write leaves alone every value read at a diverging path. */
  lemma {:induction false} SetKeepsDivergingPaths(doc: Value, p: seq<Token>, v: Value, q: seq<Token>)
    requires Concrete(p) && Diverge(p, q) && Get(doc, q).Some?
    ensures Get(SetAt(doc, p, v).0, q) == Get(doc, q)
    decreases |p|
  {
    if p[0] == q[0] {
      SetKeepsDivergingPaths(Child(doc, p[0], p[1..]), p[1..], v, q[1..]);
    }
  }

  predicate SameKind(t: Token, u: Token) { (t.Key? && u.Key?) || (t.Index? && u.Index?) }

  /** What a write at `common + p` leaves to be read at `common + q`, where the paths part: what was
      there; or, of an array filled up to the written index, the filler, an SQL null if the index is
      the last token of the write and a JSON null if not; or nothing, also when the write has put
      the other kind of container there. */
  lemma {:induction false} ReadBesideWrite(doc: Value, common: seq<Token>, p: seq<Token>, q: seq<Token>, v: Value)
    requires Concrete(common + p) && p != [] && q != [] && p[0] != q[0]
    ensures Get(SetAt(doc, common + p, v).0, common + q)
         == if SameKind(p[0], q[0]) && Get(doc, common + q).Some? then Get(doc, common + q)
            else if |q| == 1 && p[0].Index? && q[0].Index? && q[0].index < p[0].index then Some(if |p| == 1 then Null else JSON_NULL)
            else None
    decreases |common|
  {
    if common == [] {
      assert common + p == p && common + q == q;
      ReadBesideFirst(doc, p, q, v);
    } else {
      var t, rest := common[0], common[1..];
      assert (common + p)[1..] == rest + p && (common + q)[1..] == rest + q;
      assert (common + p)[0] == t && (common + q)[0] == t;
      ReadBesideWrite(Child(doc, t, rest + p), rest, p, q, v);
      if t.Index? && !(doc.Arr? && t.index < |doc.items|) { NothingInside(Filler(rest + p), rest + q); }
      if t.Key? && t.key !in FieldsOf(doc) { NothingInside(Obj(map[]), rest + q); }
    }
  }

  lemma {:induction false} ReadBesideFirst(doc: Value, p: seq<Token>, q: seq<Token>, v: Value)
    requires Concrete(p) && p != [] && q != [] && p[0] != q[0]
    ensures Get(SetAt(doc, p, v).0, q)
         == if SameKind(p[0], q[0]) && Get(doc, q).Some? then Get(doc, q)
            else if |q| == 1 && p[0].Index? && q[0].Index? && q[0].index < p[0].index then Some(if |p| == 1 then Null else JSON_NULL)
            else None
  {
    var child := SetAt(Child(doc, p[0], p[1..]), p[1..], v).0;
    assert p[0].Key? || p[0].Index?;
    assert SetAt(doc, p, v).0 == WithChild(doc, p[0], p[1..], child);
    hide SetAt, Get, Child;
    if p[0].Key? { BesideMember(doc, p[0].key, child, q); } else { BesideElement(doc, p[0].index, Filler(p[1..]), child, q); }
  }

  lemma BesideMember(doc: Value, k: string, child: Value, q: seq<Token>)
    requires q != [] && q[0] != Key(k)
    ensures Get(Obj(FieldsOf(doc)[k := child]), q) == if q[0].Key? && Get(doc, q).Some? then Get(doc, q) else None
  {
  }

  lemma BesideElement(doc: Value, i: nat, filler: Value, child: Value, q: seq<Token>)
    requires q != [] && q[0] != Index(i) && (filler == Null || filler == JSON_NULL)
    ensures Get(Arr(Pad(ItemsOf(doc), i + 1, filler)[i := child]), q)
         == if q[0].Index? && Get(doc, q).Some? then Get(doc, q)
            else if |q| == 1 && q[0].Index? && q[0].index < i then Some(filler)
            else None
  {
    if q[0].Index? && |ItemsOf(doc)| <= q[0].index < i && |q| > 1 { NothingInside(filler, q[1..]); }
  }

  /** Fillers and new objects are empty. */
  lemma {:induction false} NothingInside(v: Value, path: seq<Token>)
    requires path != [] && (v == Null || v == JSON_NULL || v == Obj(map[]))
    ensures Get(v, path).None?
  {
  }

  /** A write is read at a longer path as the value written is. */
  lemma {:induction false} ReadBelowWrite(doc: Value, p: seq<Token>, q: seq<Token>, v: Value)
    requires Concrete(p)
    ensures Get(SetAt(doc, p, v).0, p + q) == Get(v, q)
    decreases |p|
  {
    if p == [] {
      assert p + q == q;
    } else {
      assert (p + q)[1..] == p[1..] + q;
      ReadBelowWrite(Child(doc, p[0], p[1..]), p[1..], q, v);
    }
  }

  /** Removal succeeds exactly where there was something, and changes nothing otherwise. */
  lemma {:induction false} RemoveSucceedsIffPresent(doc: Value, path: seq<Token>)
    requires path != []
    ensures RemoveAt(doc, path).1 <==> Get(doc, path).Some?
    ensures !RemoveAt(doc, path).1 ==> RemoveAt(doc, path).0 == doc
    decreases |path|
  {
    if |path| > 1 {
      match path[0]
      case Key(k) =>
        if doc.Obj? && k in doc.fields {
          RemoveSucceedsIffPresent(doc.fields[k], path[1..]);
          assert doc.fields[k := doc.fields[k]] == doc.fields;
        }
      case Index(i) =>
        if doc.Arr? && i < |doc.items| {
          RemoveSucceedsIffPresent(doc.items[i], path[1..]);
          assert doc.items[i := doc.items[i]] == doc.items;
        }
      case Wildcard =>
      case Recursive =>
    }
  }

  /** What removal leaves at the parent: the object without the key, the array closed up. */
  lemma {:induction false} RemoveEditsParent(doc: Value, parent: seq<Token>, last: Token)
    requires Concrete(parent) && Get(doc, parent + [last]).Some?
    ensures Get(doc, parent).Some?
    ensures Get(RemoveAt(doc, parent + [last]).0, parent)
         == Some(RemoveAt(Get(doc, parent).value, [last]).0)
    decreases |parent|
  {
    var path := parent + [last];
    if parent == [] {
      assert path == [last];
    } else {
      assert path[1..] == parent[1..] + [last];
      var child := if path[0].Key? then doc.fields[path[0].key] else doc.items[path[0].index];
      RemoveEditsParent(child, parent[1..], last);
    }
  }

  /** The path under which a node at `q` is found once the node at `p` has been removed: later
      elements of the same array move up by one. */
  function AfterRemoval(p: seq<Token>, q: seq<Token>): seq<Token>
    requires Diverge(p, q)
  {
    if p[0] == q[0] then [q[0]] + AfterRemoval(p[1..], q[1..])
    else if |p| == 1 && p[0].Index? && q[0].index > p[0].index then [Index(q[0].index - 1)] + q[1..]
    else q
  }

  /** Removal keeps every value read at a diverging path; after the removal of a member of an
      object it is found at the same path. */
  lemma {:induction false} RemoveKeepsDivergingPaths(doc: Value, p: seq<Token>, q: seq<Token>)
    requires Concrete(p) && Diverge(p, q) && Get(doc, p).Some?
    ensures Get(RemoveAt(doc, p).0, AfterRemoval(p, q)) == Get(doc, q)
    ensures p[|p| - 1].Key? ==> AfterRemoval(p, q) == q
    decreases |p|
  {
    if p[0] == q[0] {
      var child := if p[0].Key? then doc.fields[p[0].key] else doc.items[p[0].index];
      assert |p| > 1;
      RemoveKeepsDivergingPaths(child, p[1..], q[1..]);
      assert AfterRemoval(p, q)[1..] == AfterRemoval(p[1..], q[1..]);
      assert [q[0]] + q[1..] == q;
    } else if |p| == 1 && p[0].Index? && q[0].index > p[0].index {
      assert AfterRemoval(p, q)[1..] == q[1..];
    }
  }

  /** Removing a member that a write has just added restores the document: a new key of an
      object, or the element one past the end of an array. */
  lemma {:induction false} RemoveUndoesAdd(doc: Value, parent: seq<Token>, last: Token, v: Value)
    requires Concrete(parent) && Get(doc, parent).Some?
    requires var at := Get(doc, parent).value;
             (last.Key? && at.Obj? && last.key !in at.fields)
             || (last.Index? && at.Arr? && last.index == |at.items|)
    ensures RemoveAt(SetAt(doc, parent + [last], v).0, parent + [last]) == (doc, true)
    decreases |parent|
  {
    var path := parent + [last];
    if parent == [] {
      assert path == [last];
      var added := SetAt(doc, path, v).0;
      assert added == WithChild(doc, last, [], v);
      if last.Key? {
        assert added.fields - {last.key} == doc.fields;
      } else {
        assert added.items[..last.index] + added.items[last.index + 1..] == doc.items;
      }
    } else {
      assert path[1..] == parent[1..] + [last];
      var child := Child(doc, path[0], path[1..]);
      var below := SetAt(child, path[1..], v).0;
      RemoveUndoesAdd(child, parent[1..], last, v);
      ChildOfWithChild(doc, path[0], path[1..], below, child);
      assert WithChild(doc, path[0], path[1..], child) == doc;
      assert SetAt(doc, path, v).0 == WithChild(doc, path[0], path[1..], below);
    }
  }

  // ---------- the walks ----------

  /** A container that the walk has entered, with the place it entered through. */
  datatype Frame =
    | InObj(fields: map<string, Value>, key: string)
    | InArr(items: seq<Value>, index: nat)

  predicate Open(frame: Frame) { frame.InArr? ==> frame.index < |frame.items| }

  function Close(frame: Frame, v: Value): Value
    requires Open(frame)
  {
    match frame
    case InObj(fields, k) => Obj(fields[k := v])
    case InArr(items, i) => Arr(items[i := v])
  }

  /** The whole document, when `v` stands where the walk is. */
  function Plug(spine: seq<Frame>, v: Value): Value
    requires forall f :: f in spine ==> Open(f)
    decreases |spine|
  {
    if spine == [] then v else Plug(spine[..|spine| - 1], Close(spine[|spine| - 1], v))
  }

  lemma {:induction false} PlugSnoc(spine: seq<Frame>, frame: Frame, v: Value)
    requires (forall f :: f in spine ==> Open(f)) && Open(frame)
    ensures Plug(spine + [frame], v) == Plug(spine, Close(frame, v))
  {
    assert (spine + [frame])[..|spine|] == spine;
  }

  method PadInPlace(items: seq<Value>, index: nat, filler: Value) returns (padded: seq<Value>)
    ensures padded == Pad(items, index + 1, filler)
  {
    padded := items;
    while |padded| <= index
      invariant padded == Pad(items, |padded|, filler)
      invariant |padded| <= index + 1 || padded == items
    {
      padded := padded + [filler];
    }
  }

  /** One step of a write: the container at `current`, coerced and padded for `token`. */
  method Enter(current: Value, token: Token, rest: seq<Token>) returns (frame: Frame, child: Value)
    requires token.Key? || token.Index?
    ensures Open(frame) && child == Child(current, token, rest)
    ensures forall v :: Close(frame, v) == WithChild(current, token, rest, v)
  {
    match token
    case Key(k) =>
      var fields := if current.Obj? then current.fields else map[];
      frame := InObj(fields, k);
      child := if k in fields then fields[k] else Obj(map[]);
    case Index(n) =>
      var items := PadInPlace(if current.Arr? then current.items else [], n, Filler(rest));
      frame := InArr(items, n);
      child := items[n];
  }

  method SetTokens(document: Value, tokens: seq<Token>, value: Value) returns (result: Value, ok: bool)
    ensures (result, ok) == SetAt(document, tokens, value)
  {
    hide Child, WithChild, Close, Plug;
    if tokens == [] { return value, true; }
    assert Plug([], SetAt(document, tokens, value).0) == SetAt(document, tokens, value).0 by { PlugNothing(SetAt(document, tokens, value).0); }
    var current, spine := document, [];
    assert tokens[0..] == tokens;
    for i := 0 to |tokens|
      invariant forall f :: f in spine ==> Open(f)
      invariant SetAt(document, tokens, value)
             == (Plug(spine, SetAt(current, tokens[i..], value).0), SetAt(current, tokens[i..], value).1)
    {
      var rest := tokens[i + 1..];
      assert tokens[i..][1..] == rest;
      if tokens[i].Wildcard? || tokens[i].Recursive? {
        return Plug(spine, current), false;
      }
      var frame, child := Enter(current, tokens[i], rest);
      PlugSnoc(spine, frame, SetAt(child, rest, value).0);
      spine, current := spine + [frame], child;
    }
    result, ok := Plug(spine, value), true;
  }

  lemma {:induction false} PlugNothing(v: Value)
    ensures Plug([], v) == v
  {
  }

  method RemoveTokens(document: Value, tokens: seq<Token>) returns (result: Value, ok: bool)
    ensures (result, ok) == RemoveAt(document, tokens)
  {
    if tokens == [] { return JSON_NULL, true; }
    var current, spine := document, [];
    assert tokens[0..] == tokens;
    RemoveSucceedsIffPresent(document, tokens);
    for i := 0 to |tokens| - 1
      invariant forall f :: f in spine ==> Open(f)
      invariant Plug(spine, current) == document
      invariant RemoveAt(document, tokens)
             == (Plug(spine, RemoveAt(current, tokens[i..]).0), RemoveAt(current, tokens[i..]).1)
    {
      assert tokens[i..][1..] == tokens[i + 1..];
      var frame;
      match tokens[i] {
        case Key(k) =>
          if !(current.Obj? && k in current.fields) { return document, false; }
          frame := InObj(current.fields, k);
          assert current.fields[k := current.fields[k]] == current.fields;
          PlugSnoc(spine, frame, current.fields[k]);
          current := current.fields[k];
        case Index(n) =>
          if !(current.Arr? && n < |current.items|) { return document, false; }
          frame := InArr(current.items, n);
          assert current.items[n := current.items[n]] == current.items;
          PlugSnoc(spine, frame, current.items[n]);
          current := current.items[n];
        case _ =>
          return document, false;
      }
      PlugSnoc(spine, frame, RemoveAt(current, tokens[i + 1..]).0);
      spine := spine + [frame];
    }
    assert tokens[|tokens| - 1..] == [tokens[|tokens| - 1]];
    match tokens[|tokens| - 1] {
      case Key(k) =>
        if !(current.Obj? && k in current.fields) { return document, false; }
        result, ok := Plug(spine, Obj(current.fields - {k})), true;
      case Index(n) =>
        if !(current.Arr? && n < |current.items|) { return document, false; }
        result, ok := Plug(spine, Arr(current.items[..n] + current.items[n + 1..])), true;
      case _ =>
        return document, false;
    }
  }
}
