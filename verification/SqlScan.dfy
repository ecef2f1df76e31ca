/** The SQL text scanners: parameter binding, parameter counting and statement splitting are
    three separate quote-state machines, written as three loops. */
module SqlScan {
  import opened Wrappers
  import opened Json
  import opened Text

  /** Where a scanner stands: outside quotes, inside them, or after a backslash inside them. Only
      the statement splitter knows backticks. */
  datatype Mode = Out | Single | Double | SingleEscape | DoubleEscape | Backtick

  /** Binding and counting. */
  function BindStep(m: Mode, c: char): Mode {
    match m
    case Out => if c == '\'' then Single else if c == '"' then Double else Out
    case Single => if c == '\'' then Out else if c == '\\' then SingleEscape else Single
    case Double => if c == '"' then Out else if c == '\\' then DoubleEscape else Double
    case SingleEscape => Single
    case DoubleEscape => Double
    case Backtick => Backtick
  }

  /** Splitting. */
  function SplitStep(m: Mode, c: char): Mode {
    if m.Out? && c == '`' then Backtick
    else if m.Backtick? then if c == '`' then Out else Backtick
    else BindStep(m, c)
  }

  function Count(m: Mode, s: string): nat
    decreases |s|
  {
    if s == [] then 0 else (if m.Out? && s[0] == '?' then 1 else 0) + Count(BindStep(m, s[0]), s[1..])
  }

  // ---------- literals ----------

  function Replaced(s: string, c: char, to: string): string {
    if s == [] then [] else (if s[0] == c then to else [s[0]]) + Replaced(s[1..], c, to)
  }

  function Quoted(s: string): string { "'" + Replaced(Replaced(s, '\\', "\\\\"), '\'', "''") + "'" }

  /** `text` writes arrays and objects as JSON. */
  function Literal(text: Value -> string, v: Value): string {
    match v
    case Null => "NULL"
    case Bool(b) => if b then "TRUE" else "FALSE"
    case Num(n) => IntText(n)
    case Str(s) => Quoted(s)
    case _ => Quoted(text(v))
  }

  // ---------- binding ----------

  /** `s` with its parameter marks replaced in order; marks beyond the parameters stay. */
  function Bind(text: Value -> string, m: Mode, s: string, params: seq<Value>): string
    decreases |s|
  {
    if s == [] then []
    else if m.Out? && s[0] == '?' && params != [] then Literal(text, params[0]) + Bind(text, m, s[1..], params[1..])
    else [s[0]] + Bind(text, BindStep(m, s[0]), s[1..], params)
  }

  datatype BindResult = Bound(sql: string) | NotEnough | TooMany

  /** The mode that a pair of quote flags stands for. */
  function FlagMode(inSingle: bool, inDouble: bool): Mode {
    if inSingle then Single else if inDouble then Double else Out
  }

  lemma {:induction false} StepAgain(text: Value -> string, s: string, i: nat, m: Mode, params: seq<Value>)
    requires i < |s| && !(m.Out? && s[i] == '?')
    ensures Count(m, s[i..]) == Count(BindStep(m, s[i]), s[i + 1..])
    ensures Bind(text, m, s[i..], params) == [s[i]] + Bind(text, BindStep(m, s[i]), s[i + 1..], params)
  {
    assert s[i..][1..] == s[i + 1..];
  }

  lemma {:induction false} StepMark(text: Value -> string, s: string, i: nat, params: seq<Value>)
    requires i < |s| && s[i] == '?'
    ensures Count(Out, s[i..]) == 1 + Count(Out, s[i + 1..])
    ensures params != [] ==>
              Bind(text, Out, s[i..], params) == Literal(text, params[0]) + Bind(text, Out, s[i + 1..], params[1..])
  {
    assert s[i..][1..] == s[i + 1..];
  }

  method SubstituteParams(text: Value -> string, sql: string, params: seq<Value>) returns (r: BindResult)
    ensures |params| < Count(Out, sql) ==> r == NotEnough
    ensures |params| > Count(Out, sql) ==> r == TooMany
    ensures |params| == Count(Out, sql) ==> r == Bound(Bind(text, Out, sql, params))
  {
    hide Count, Bind, Literal;
    var out, used: nat, inSingle, inDouble, i: nat := "", 0, false, false, 0;
    assert sql[0..] == sql && params[0..] == params;
    while i < |sql|
      invariant i <= |sql| && used <= |params| && !(inSingle && inDouble)
      invariant Count(Out, sql) == used + Count(FlagMode(inSingle, inDouble), sql[i..])
      invariant Bind(text, Out, sql, params) == out + Bind(text, FlagMode(inSingle, inDouble), sql[i..], params[used..])
    {
      var ch := sql[i];
      ghost var m := FlagMode(inSingle, inDouble);
      if ch == '?' && !inSingle && !inDouble {
        StepMark(text, sql, i, params[used..]);
        if used == |params| {
          return NotEnough;
        }
        assert params[used..][1..] == params[used + 1..];
        out, used, i := out + Literal(text, params[used]), used + 1, i + 1;
      } else {
        StepAgain(text, sql, i, m, params[used..]);
        out, i := out + [ch], i + 1;
        if ch == '\'' && !inDouble {
          inSingle := !inSingle;
        } else if ch == '"' && !inSingle {
          inDouble := !inDouble;
        } else if ch == '\\' && (inSingle || inDouble) && i < |sql| {
          StepAgain(text, sql, i, BindStep(m, ch), params[used..]);
          out, i := out + [sql[i]], i + 1;
        } else if ch == '\\' && (inSingle || inDouble) {
          assert sql[i..] == [];
          NothingLeft(text, BindStep(m, ch), params[used..]);
          NothingLeft(text, m, params[used..]);
        }
      }
    }
    assert sql[i..] == [];
    NothingLeft(text, FlagMode(inSingle, inDouble), params[used..]);
    if used < |params| { return TooMany; }
    return Bound(out);
  }

  lemma {:induction false} NothingLeft(text: Value -> string, m: Mode, params: seq<Value>)
    ensures Count(m, []) == 0 && Bind(text, m, [], params) == []
  {
  }

  method CountQueryParams(query: string) returns (count: nat)
    ensures count == Count(Out, query)
  {
    hide Count, Bind;
    var inSingle, inDouble, i: nat := false, false, 0;
    count := 0;
    assert query[0..] == query;
    ghost var text: Value -> string := (v: Value) => "";
    while i < |query|
      invariant i <= |query| && !(inSingle && inDouble)
      invariant Count(Out, query) == count + Count(FlagMode(inSingle, inDouble), query[i..])
    {
      var ch := query[i];
      ghost var m := FlagMode(inSingle, inDouble);
      if ch == '?' && m.Out? { StepMark(text, query, i, []); } else { StepAgain(text, query, i, m, []); }
      i := i + 1;
      if ch == '\'' && !inDouble {
        inSingle := !inSingle;
      } else if ch == '"' && !inSingle {
        inDouble := !inDouble;
      } else if ch == '\\' && (inSingle || inDouble) {
        if i < |query| {
          StepAgain(text, query, i, BindStep(m, ch), []);
          i := i + 1;
        } else {
          assert query[i..] == [];
          NothingLeft(text, BindStep(m, ch), []);
          NothingLeft(text, m, []);
        }
      } else if ch == '?' && !inSingle && !inDouble {
        count := count + 1;
      }
    }
    assert query[i..] == [];
    NothingLeft(text, FlagMode(inSingle, inDouble), []);
  }

  // ---------- splitting ----------

  /** `w` written in front of the first piece. */
  function Prepend(w: string, pieces: seq<string>): seq<string>
    requires pieces != []
  {
    [w + pieces[0]] + pieces[1..]
  }

  /** The text cut at every semicolon outside quotes; always at least one piece. */
  function Pieces(m: Mode, s: string): (r: seq<string>)
    ensures r != []
    decreases |s|
  {
    if s == [] then [""]
    else if m.Out? && s[0] == ';' then [""] + Pieces(Out, s[1..])
    else Prepend([s[0]], Pieces(SplitStep(m, s[0]), s[1..]))
  }

  /** The trimmed pieces that are not empty. */
  function Statements(pieces: seq<string>): seq<string> {
    if pieces == [] then []
    else (if Trim(pieces[0]) == "" then [] else [Trim(pieces[0])]) + Statements(pieces[1..])
  }

  lemma {:induction false} StatementsSnoc(pieces: seq<string>, p: string)
    ensures Statements(pieces + [p]) == Statements(pieces) + if Trim(p) == "" then [] else [Trim(p)]
  {
    if pieces == [] {
      assert pieces + [p] == [p] && [p][1..] == [];
    } else {
      assert (pieces + [p])[1..] == pieces[1..] + [p];
      StatementsSnoc(pieces[1..], p);
    }
  }

  function SplitMode(inSingle: bool, inDouble: bool, inBacktick: bool): Mode {
    if inBacktick then Backtick else FlagMode(inSingle, inDouble)
  }

  lemma {:induction false} PiecesStep(s: string, i: nat, m: Mode)
    requires i < |s|
    ensures Pieces(m, s[i..]) == if m.Out? && s[i] == ';' then [""] + Pieces(Out, s[i + 1..])
                                 else Prepend([s[i]], Pieces(SplitStep(m, s[i]), s[i + 1..]))
  {
    assert s[i..][1..] == s[i + 1..];
  }

  lemma PrependTwice(a: string, b: string, pieces: seq<string>)
    requires pieces != []
    ensures Prepend(a, Prepend(b, pieces)) == Prepend(a + b, pieces)
  {
    assert a + (b + pieces[0]) == a + b + pieces[0];
  }

  method SplitSqlStatements(sql: string) returns (out: seq<string>)
    ensures out == Statements(Pieces(Out, sql))
  {
    hide Pieces, Statements, Trim, Prepend;
    out := [];
    var current, inSingle, inDouble, inBacktick, i: nat := "", false, false, false, 0;
    ghost var done: seq<string> := [];
    assert sql[0..] == sql;
    PrependNothing(Pieces(Out, sql));
    NoStatements();
    while i < |sql|
      invariant i <= |sql|
      invariant !(inSingle && inDouble) && !(inBacktick && (inSingle || inDouble))
      invariant out == Statements(done)
      invariant Pieces(Out, sql)
             == done + Prepend(current, Pieces(SplitMode(inSingle, inDouble, inBacktick), sql[i..]))
    {
      var ch := sql[i];
      ghost var m := SplitMode(inSingle, inDouble, inBacktick);
      PiecesStep(sql, i, m);
      i := i + 1;
      if ch == ';' && !inSingle && !inDouble && !inBacktick {
        var statement := Trim(current);
        StatementsSnoc(done, current);
        if statement != "" { out := out + [statement]; }
        PrependBeforeCut(done, current, Pieces(Out, sql[i..]));
        done, current := done + [current], "";
      } else {
        PrependTwice(current, [ch], Pieces(SplitStep(m, ch), sql[i..]));
        current := current + [ch];
        if (ch == '\\' && (inSingle || inDouble)) || (ch == '\'' && inSingle && i < |sql| && sql[i] == '\'') {
          if i < |sql| {
            // an escaped character, or the second quote of a doubled one
            PiecesStep(sql, i, SplitStep(m, ch));
            PrependTwice(current, [sql[i]], Pieces(SplitStep(SplitStep(m, ch), sql[i]), sql[i + 1..]));
            current, i := current + [sql[i]], i + 1;
          } else {
            assert sql[i..] == [];
            PiecesOfNothing(SplitStep(m, ch));
            PiecesOfNothing(m);
          }
        } else if ch == '\'' && !inDouble && !inBacktick {
          inSingle := !inSingle;
        } else if ch == '"' && !inSingle && !inBacktick {
          inDouble := !inDouble;
        } else if ch == '`' && !inSingle && !inDouble {
          inBacktick := !inBacktick;
        }
      }
    }
    assert sql[i..] == [];
    PiecesOfNothing(SplitMode(inSingle, inDouble, inBacktick));
    PrependLast(current);
    StatementsSnoc(done, current);
    var statement := Trim(current);
    if statement != "" { out := out + [statement]; }
  }

  lemma PrependNothing(pieces: seq<string>)
    requires pieces != []
    ensures Prepend("", pieces) == pieces
  {
    assert "" + pieces[0] == pieces[0];
  }

  lemma PrependLast(w: string)
    ensures Prepend(w, [""]) == [w]
  {
    assert w + "" == w && [""][1..] == [];
  }

  lemma PrependBeforeCut(done: seq<string>, w: string, rest: seq<string>)
    requires rest != []
    ensures done + Prepend(w, [""] + rest) == (done + [w]) + Prepend("", rest)
  {
    assert w + "" == w && ([""] + rest)[1..] == rest;
    PrependNothing(rest);
  }

  lemma {:induction false} PiecesOfNothing(m: Mode)
    ensures Pieces(m, []) == [""]
  {
  }

  lemma NoStatements()
    ensures Statements([]) == []
  {
  }

  // ---------- the machines agree ----------

  /** Names in backticks hold no quote and no question mark. */
  predicate PlainNames(m: Mode, s: string)
    decreases |s|
  {
    s == [] || (!(m.Backtick? && (s[0] == '\'' || s[0] == '"' || s[0] == '?')) && PlainNames(SplitStep(m, s[0]), s[1..]))
  }

  /** Where the binder stands when the splitter stands at `m`: it does not know backticks. */
  function Seen(m: Mode): Mode { if m.Backtick? then Out else m }

  lemma {:induction false} MachinesAgree(m: Mode, s: string)
    requires s != [] && PlainNames(m, s)
    ensures Seen(SplitStep(m, s[0])) == BindStep(Seen(m), s[0])
    ensures Seen(m).Out? && s[0] == '?' ==> m.Out?
  {
  }

  /** The mode after scanning `w`. */
  function After(m: Mode, w: string): Mode
    decreases |w|
  {
    if w == [] then m else After(SplitStep(m, w[0]), w[1..])
  }

  /** Scanning `w` meets no semicolon outside quotes. */
  predicate Uncut(m: Mode, w: string)
    decreases |w|
  {
    w == [] || (!(m.Out? && w[0] == ';') && Uncut(SplitStep(m, w[0]), w[1..]))
  }

  lemma {:induction false} UncutTextStaysTogether(m: Mode, w: string, t: string)
    requires Uncut(m, w)
    ensures Pieces(m, w + t) == Prepend(w, Pieces(After(m, w), t))
    decreases |w|
  {
    if w == [] {
      assert w + t == t;
      PrependNothing(Pieces(m, t));
    } else {
      assert (w + t)[1..] == w[1..] + t;
      UncutTextStaysTogether(SplitStep(m, w[0]), w[1..], t);
      PrependTwice([w[0]], w[1..], Pieces(After(m, w), t));
      assert [w[0]] + w[1..] == w;
    }
  }

  lemma {:induction false} ScanConcat(m: Mode, v: string, w: string)
    ensures After(m, v + w) == After(After(m, v), w)
    ensures Uncut(m, v + w) <==> Uncut(m, v) && Uncut(After(m, v), w)
    decreases |v|
  {
    if v == [] {
      assert v + w == w;
    } else {
      assert (v + w)[1..] == v[1..] + w;
      ScanConcat(SplitStep(m, v[0]), v[1..], w);
    }
  }

  /** Both escapes at once. */
  function Escaped(s: string): string {
    if s == [] then []
    else (if s[0] == '\\' then "\\\\" else if s[0] == '\'' then "''" else [s[0]]) + Escaped(s[1..])
  }

  lemma {:induction false} ReplacedConcat(a: string, b: string, c: char, to: string)
    ensures Replaced(a + b, c, to) == Replaced(a, c, to) + Replaced(b, c, to)
    decreases |a|
  {
    if a == [] {
      assert a + b == b;
    } else {
      assert (a + b)[1..] == a[1..] + b;
      ReplacedConcat(a[1..], b, c, to);
    }
  }

  /** The quotes are doubled after the backslashes; neither replacement sees the other's output. */
  lemma {:induction false} TwoReplacementsEscape(s: string)
    ensures Replaced(Replaced(s, '\\', "\\\\"), '\'', "''") == Escaped(s)
  {
    if s != [] {
      TwoReplacementsEscape(s[1..]);
      var first := if s[0] == '\\' then "\\\\" else [s[0]];
      ReplacedConcat(first, Replaced(s[1..], '\\', "\\\\"), '\'', "''");
      assert first[1..] == if s[0] == '\\' then "\\" else [];
      assert Replaced(first, '\'', "''") == if s[0] == '\\' then "\\\\" else if s[0] == '\'' then "''" else [s[0]];
    }
  }

  lemma {:induction false} TwoCharScan(m: Mode, a: char, b: char)
    ensures After(m, [a, b]) == SplitStep(SplitStep(m, a), b)
    ensures Uncut(m, [a, b]) <==> !(m.Out? && a == ';') && !(SplitStep(m, a).Out? && b == ';')
  {
    assert [a, b][1..] == [b] && [b][1..] == [];
    var m' := SplitStep(m, a);
    assert After(m', [b]) == SplitStep(m', b) && (Uncut(m', [b]) <==> !(m'.Out? && b == ';'));
  }

  lemma {:induction false} EscapedStaysInside(s: string)
    ensures Uncut(Single, Escaped(s)) && After(Single, Escaped(s)) == Single
  {
    if s != [] {
      EscapedStaysInside(s[1..]);
      var first := if s[0] == '\\' then "\\\\" else if s[0] == '\'' then "''" else [s[0]];
      TwoCharScan(Single, s[0], s[0]);
      assert first == [s[0], s[0]] || (first == [s[0]] && first[1..] == []);
      assert Uncut(Single, first) && After(Single, first) == Single;
      ScanConcat(Single, first, Escaped(s[1..]));
    }
  }

  predicate Inert(c: char) { c != '\'' && c != '"' && c != '`' && c != ';' && c != '?' && !IsWhitespace(c) }

  lemma {:induction false} InertTextIsUncut(w: string)
    requires forall i :: 0 <= i < |w| ==> Inert(w[i])
    ensures Uncut(Out, w) && After(Out, w) == Out
  {
    if w != [] { InertTextIsUncut(w[1..]); }
  }

  lemma QuotedIsSelfContained(s: string)
    ensures Uncut(Out, Quoted(s)) && After(Out, Quoted(s)) == Out
  {
    TwoReplacementsEscape(s);
    EscapedStaysInside(s);
    assert Quoted(s) == ['\''] + (Escaped(s) + ['\'']);
    assert ['\''][1..] == [];
    ScanConcat(Single, Escaped(s), ['\'']);
    ScanConcat(Out, ['\''], Escaped(s) + ['\'']);
  }

  /** A literal is one unit to the splitter, whatever the value holds, and trimming leaves it. */
  lemma LiteralIsSelfContained(text: Value -> string, v: Value)
    ensures Uncut(Out, Literal(text, v)) && After(Out, Literal(text, v)) == Out
    ensures Literal(text, v) != []
    ensures !IsWhitespace(Literal(text, v)[0]) && !IsWhitespace(Literal(text, v)[|Literal(text, v)| - 1])
  {
    match v
    case Null => InertTextIsUncut("NULL");
    case Bool(b) => InertTextIsUncut(if b then "TRUE" else "FALSE");
    case Num(n) => InertTextIsUncut(IntText(n));
    case Str(s) => QuotedIsSelfContained(s);
    case Arr(_) => QuotedIsSelfContained(text(v));
    case Obj(_) => QuotedIsSelfContained(text(v));
  }

  // ---------- binding commutes with splitting ----------

  function CountAll(m: Mode, pieces: seq<string>): nat
    decreases |pieces|
  {
    if pieces == [] then 0 else Count(m, pieces[0]) + CountAll(Out, pieces[1..])
  }

  /** Each piece bound with its own slice of the parameters. */
  function BindAll(text: Value -> string, m: Mode, pieces: seq<string>, params: seq<Value>): seq<string>
    requires |params| == CountAll(m, pieces)
    decreases |pieces|
  {
    if pieces == [] then []
    else
      var n := Count(m, pieces[0]);
      [Bind(text, m, pieces[0], params[..n])] + BindAll(text, Out, pieces[1..], params[n..])
  }

  lemma {:induction false} BindAllOneMore(text: Value -> string, m: Mode, c: char, rest: seq<string>, params: seq<Value>)
    requires rest != [] && !(m.Out? && c == '?')
    requires |params| == CountAll(BindStep(m, c), rest)
    ensures CountAll(m, Prepend([c], rest)) == |params|
    ensures BindAll(text, m, Prepend([c], rest), params) == Prepend([c], BindAll(text, BindStep(m, c), rest, params))
  {
    var r := Prepend([c], rest);
    assert r[1..] == rest[1..] && r[0][1..] == rest[0];
  }

  lemma {:induction false} BindAllOneMark(text: Value -> string, rest: seq<string>, params: seq<Value>)
    requires rest != [] && |params| == 1 + CountAll(Out, rest)
    ensures CountAll(Out, Prepend("?", rest)) == |params|
    ensures BindAll(text, Out, Prepend("?", rest), params)
         == Prepend(Literal(text, params[0]), BindAll(text, Out, rest, params[1..]))
  {
    var r := Prepend("?", rest);
    assert r[1..] == rest[1..] && r[0][1..] == rest[0];
    var n := Count(Out, rest[0]);
    assert params[..n + 1][1..] == params[1..][..n];
    assert params[n + 1..] == params[1..][n..];
  }

  // ---------- when they commute ----------

  /** Values written without quotes. */
  predicate Bare(v: Value) { v.Null? || v.Bool? || v.Num? }

  /** Where the splitter stands after a literal that does not cut. */
  function AfterLiteral(n: Mode, v: Value): Mode { if n.SingleEscape? && Bare(v) then Single else Out }

  /** One pass over the text with four machines: `m` splits the text and `n` the bound text, `w`
      binds the whole text and `b` the pieces one by one. A mark must be one to both binders or to
      neither; where it is one, the bound text must stand outside quotes, or just after a backslash
      in single quotes, where it makes a difference whether the value is quoted; and a semicolon
      must cut both texts or neither. */
  predicate Commutes(m: Mode, n: Mode, w: Mode, b: Mode, s: string)
    decreases |s|
  {
    if s == [] then true
    else
      var c, rest, m' := s[0], s[1..], SplitStep(m, s[0]);
      if c == '?' && (w.Out? || b.Out?) then
        w.Out? && b.Out? && (n.Out? || n.SingleEscape?)
        && Commutes(m', Out, Out, Out, rest) && (n.SingleEscape? ==> Commutes(m', Single, Out, Out, rest))
      else if c == ';' && (m.Out? || n.Out?) then m.Out? && n.Out? && Commutes(Out, Out, BindStep(w, c), Out, rest)
      else Commutes(m', SplitStep(n, c), BindStep(w, c), BindStep(b, c), rest)
  }

  /** Text in which the splitter and the binder see the same quotes. */
  lemma {:induction false} PlainNamesCommute(m: Mode, s: string)
    requires PlainNames(m, s)
    ensures Commutes(m, m, Seen(m), Seen(m), s)
    decreases |s|
  {
    if s != [] {
      MachinesAgree(m, s);
      PlainNamesCommute(SplitStep(m, s[0]), s[1..]);
    }
  }

  lemma BareIsInert(text: Value -> string, v: Value)
    requires Bare(v)
    ensures Literal(text, v) != [] && forall i :: 0 <= i < |Literal(text, v)| ==> Inert(Literal(text, v)[i])
  {
  }

  lemma {:induction false} InertInSingle(w: string)
    requires forall i :: 0 <= i < |w| ==> Inert(w[i]) && w[i] != '\\'
    ensures Uncut(Single, w) && After(Single, w) == Single
  {
    if w != [] { InertInSingle(w[1..]); }
  }

  lemma BareHasNoBackslash(text: Value -> string, v: Value)
    requires Bare(v)
    ensures forall i :: 0 <= i < |Literal(text, v)| ==> Literal(text, v)[i] != '\\'
  {
  }

  /** A literal is not cut outside quotes, and not after a backslash in single quotes. */
  lemma {:induction false} LiteralStays(text: Value -> string, n: Mode, v: Value)
    requires n.Out? || n.SingleEscape?
    ensures Uncut(n, Literal(text, v)) && After(n, Literal(text, v)) == AfterLiteral(n, v)
  {
    LiteralIsSelfContained(text, v);
    if n.SingleEscape? {
      if Bare(v) {
        BareIsInert(text, v);
        BareHasNoBackslash(text, v);
        InertInSingle(Literal(text, v)[1..]);
      } else {
        QuotedAfterBackslash(if v.Str? then v.s else text(v));
      }
    }
  }

  lemma QuotedAfterBackslash(s: string)
    ensures Uncut(SingleEscape, Quoted(s)) && After(SingleEscape, Quoted(s)) == Out
  {
    TwoReplacementsEscape(s);
    EscapedStaysInside(s);
    assert Quoted(s) == ['\''] + (Escaped(s) + ['\'']);
    assert ['\''][1..] == [];
    ScanConcat(Single, Escaped(s), ['\'']);
    ScanConcat(SingleEscape, ['\''], Escaped(s) + ['\'']);
  }

  lemma {:induction false} CountAllPrepend(b: Mode, c: char, pieces: seq<string>)
    requires pieces != []
    ensures CountAll(b, Prepend([c], pieces)) == (if b.Out? && c == '?' then 1 else 0) + CountAll(BindStep(b, c), pieces)
  {
    var r := Prepend([c], pieces);
    assert r[1..] == pieces[1..] && r[0][1..] == pieces[0];
  }

  lemma {:induction false} CountAllCut(b: Mode, pieces: seq<string>)
    ensures CountAll(b, [""] + pieces) == CountAll(Out, pieces)
  {
    assert ([""] + pieces)[1..] == pieces;
  }

  lemma {:induction false} CountPieces(m: Mode, n: Mode, w: Mode, b: Mode, s: string)
    requires Commutes(m, n, w, b, s)
    ensures CountAll(b, Pieces(m, s)) == Count(w, s)
    decreases |s|
  {
    hide CountAll;
    if s == [] {
      CountNothing(b);
    } else {
      var c, rest, m' := s[0], s[1..], SplitStep(m, s[0]);
      if c == ';' && m.Out? {
        CountPieces(Out, Out, BindStep(w, c), Out, rest);
        CountAllCut(b, Pieces(Out, rest));
      } else {
        CountAllPrepend(b, c, Pieces(m', rest));
        if c == '?' && w.Out? {
          CountPieces(m', Out, Out, Out, rest);
        } else {
          CountPieces(m', SplitStep(n, c), BindStep(w, c), BindStep(b, c), rest);
        }
      }
    }
  }

  lemma {:induction false} CountNothing(b: Mode)
    ensures CountAll(b, [""]) == 0
  {
    assert [""][1..] == [];
  }

  lemma {:induction false} BindAllCut(text: Value -> string, b: Mode, pieces: seq<string>, params: seq<Value>)
    requires |params| == CountAll(Out, pieces)
    ensures CountAll(b, [""] + pieces) == |params|
    ensures BindAll(text, b, [""] + pieces, params) == [""] + BindAll(text, Out, pieces, params)
  {
    assert ([""] + pieces)[1..] == pieces && params[0..] == params;
  }

  lemma {:induction false} BindAllNothing(text: Value -> string, b: Mode)
    ensures CountAll(b, [""]) == 0 && BindAll(text, b, [""], []) == [""]
  {
    assert [""][1..] == [];
  }

  lemma {:induction false} PiecesOfChar(n: Mode, c: char, t: string)
    ensures Pieces(n, [c] + t) == if n.Out? && c == ';' then [""] + Pieces(Out, t) else Prepend([c], Pieces(SplitStep(n, c), t))
  {
    assert ([c] + t)[1..] == t;
  }

  /** Cutting the bound text gives the pieces of the template, each bound on its own. */
  lemma {:induction false} BoundPieces(text: Value -> string, m: Mode, n: Mode, w: Mode, b: Mode, s: string, params: seq<Value>)
    requires Commutes(m, n, w, b, s) && |params| == Count(w, s)
    ensures |params| == CountAll(b, Pieces(m, s))
    ensures Pieces(n, Bind(text, w, s, params)) == BindAll(text, b, Pieces(m, s), params)
    decreases |s|
  {
    hide CountAll, BindAll, Literal;
    CountPieces(m, n, w, b, s);
    if s == [] {
      BindAllNothing(text, b);
    } else {
      var c, rest, m' := s[0], s[1..], SplitStep(m, s[0]);
      if c == '?' && w.Out? {
        var n' := AfterLiteral(n, params[0]);
        CountPieces(m', n', Out, Out, rest);
        BoundPieces(text, m', n', Out, Out, rest, params[1..]);
        LiteralStays(text, n, params[0]);
        UncutTextStaysTogether(n, Literal(text, params[0]), Bind(text, Out, rest, params[1..]));
        BindAllOneMark(text, Pieces(m', rest), params);
      } else if c == ';' && m.Out? {
        CountPieces(Out, Out, BindStep(w, c), Out, rest);
        BoundPieces(text, Out, Out, BindStep(w, c), Out, rest, params);
        PiecesOfChar(n, c, Bind(text, BindStep(w, c), rest, params));
        BindAllCut(text, b, Pieces(Out, rest), params);
      } else {
        CountPieces(m', SplitStep(n, c), BindStep(w, c), BindStep(b, c), rest);
        BoundPieces(text, m', SplitStep(n, c), BindStep(w, c), BindStep(b, c), rest, params);
        PiecesOfChar(n, c, Bind(text, BindStep(w, c), rest, params));
        BindAllOneMore(text, b, c, Pieces(m', rest), params);
      }
    }
  }

  lemma {:induction false} BindConcat(text: Value -> string, m: Mode, s: string, c: char, params: seq<Value>)
    requires IsWhitespace(c)
    ensures Bind(text, m, s + [c], params) == Bind(text, m, s, params) + [c] && Count(m, s + [c]) == Count(m, s)
    decreases |s|
  {
    if s == [] {
      assert s + [c] == [c] && [c][1..] == [];
    } else {
      assert (s + [c])[1..] == s[1..] + [c];
      if m.Out? && s[0] == '?' && params != [] {
        BindConcat(text, Out, s[1..], c, params[1..]);
      } else {
        BindConcat(text, BindStep(m, s[0]), s[1..], c, params);
      }
    }
  }

  lemma {:induction false} BindKeepsLast(text: Value -> string, m: Mode, s: string, params: seq<Value>)
    requires s != [] && !IsWhitespace(s[|s| - 1])
    ensures var b := Bind(text, m, s, params); b != [] && !IsWhitespace(b[|b| - 1])
    decreases |s|
  {
    if m.Out? && s[0] == '?' && params != [] {
      LiteralIsSelfContained(text, params[0]);
      if |s| > 1 { BindKeepsLast(text, Out, s[1..], params[1..]); }
      assert |s| == 1 ==> Bind(text, Out, s[1..], params[1..]) == [];
    } else {
      if |s| > 1 { BindKeepsLast(text, BindStep(m, s[0]), s[1..], params); }
    }
  }

  lemma {:induction false} TrimEndCommutes(text: Value -> string, m: Mode, s: string, params: seq<Value>)
    ensures TrimEnd(Bind(text, m, s, params)) == Bind(text, m, TrimEnd(s), params)
    ensures Count(m, TrimEnd(s)) == Count(m, s)
    decreases |s|
  {
    if s != [] {
      if IsWhitespace(s[|s| - 1]) {
        var front, c := s[..|s| - 1], s[|s| - 1];
        assert s == front + [c];
        BindConcat(text, m, front, c, params);
        var b := Bind(text, m, front, params);
        assert (b + [c])[..|b|] == b;
        TrimEndCommutes(text, m, front, params);
      } else {
        BindKeepsLast(text, m, s, params);
      }
    }
  }

  lemma {:induction false} TrimStartCommutes(text: Value -> string, s: string, params: seq<Value>)
    ensures TrimStart(Bind(text, Out, s, params)) == Bind(text, Out, TrimStart(s), params)
    ensures Count(Out, TrimStart(s)) == Count(Out, s)
    decreases |s|
  {
    if s != [] {
      if IsWhitespace(s[0]) {
        TrimStartCommutes(text, s[1..], params);
        assert ([s[0]] + Bind(text, Out, s[1..], params))[1..] == Bind(text, Out, s[1..], params);
      } else if s[0] == '?' && params != [] {
        LiteralIsSelfContained(text, params[0]);
      }
    }
  }

  lemma {:induction false} TrimCommutes(text: Value -> string, s: string, params: seq<Value>)
    ensures Trim(Bind(text, Out, s, params)) == Bind(text, Out, Trim(s), params)
    ensures Count(Out, Trim(s)) == Count(Out, s)
    ensures Trim(Bind(text, Out, s, params)) == "" <==> Trim(s) == ""
  {
    TrimStartCommutes(text, s, params);
    TrimEndCommutes(text, Out, TrimStart(s), params);
    BindIsNotEmpty(text, Trim(s), params);
  }

  lemma {:induction false} BindIsNotEmpty(text: Value -> string, s: string, params: seq<Value>)
    ensures Bind(text, Out, s, params) == [] <==> s == []
  {
    if s != [] && s[0] == '?' && params != [] { LiteralIsSelfContained(text, params[0]); }
  }

  lemma {:induction false} BoundStatements(text: Value -> string, pieces: seq<string>, params: seq<Value>)
    requires |params| == CountAll(Out, pieces)
    ensures CountAll(Out, Statements(pieces)) == |params|
    ensures Statements(BindAll(text, Out, pieces, params)) == BindAll(text, Out, Statements(pieces), params)
    decreases |pieces|
  {
    if pieces != [] {
      var p, n := pieces[0], Count(Out, pieces[0]);
      BoundStatements(text, pieces[1..], params[n..]);
      TrimCommutes(text, p, params[..n]);
      var bound := BindAll(text, Out, pieces, params);
      assert bound[1..] == BindAll(text, Out, pieces[1..], params[n..]);
      if Trim(p) != "" {
        assert ([Trim(p)] + Statements(pieces[1..]))[1..] == Statements(pieces[1..]);
      } else {
        assert Count(Out, "") == 0 && n == 0;
        assert params[n..] == params;
        assert [] + Statements(pieces[1..]) == Statements(pieces[1..]);
        assert [] + Statements(bound[1..]) == Statements(bound[1..]);
      }
    }
  }

  // ---------- when they do not ----------

  lemma {:induction false} TrimStartConcat(u: string, c: char, x: string)
    requires !IsWhitespace(c)
    ensures TrimStart(u + [c] + x) == TrimStart(u) + [c] + x
  {
    if u == [] {
      assert u + [c] + x == [c] + x;
    } else {
      assert (u + [c] + x)[1..] == u[1..] + [c] + x;
      TrimStartConcat(u[1..], c, x);
    }
  }

  lemma {:induction false} TrimEndConcat(u: string, c: char, x: string)
    requires !IsWhitespace(c)
    ensures u + [c] <= TrimEnd(u + [c] + x)
    decreases |x|
  {
    if x == [] {
      assert u + [c] + x == u + [c];
    } else {
      assert (u + [c] + x)[..|u + [c] + x| - 1] == u + [c] + x[..|x| - 1];
      TrimEndConcat(u, c, x[..|x| - 1]);
    }
  }

  /** What stands in front of a visible character is only trimmed at its start. */
  lemma {:induction false} TrimKeeps(u: string, c: char, x: string)
    requires !IsWhitespace(c)
    ensures TrimStart(u) + [c] <= Trim(u + [c] + x)
  {
    TrimStartConcat(u, c, x);
    TrimEndConcat(TrimStart(u), c, x);
  }

  lemma {:induction false} OtherCharacter(u: string, c: char, x: string, d: char, y: string, xs: seq<string>, ys: seq<string>)
    requires c != d && !IsWhitespace(c) && !IsWhitespace(d)
    ensures Statements([u + [c] + x] + xs) != Statements([u + [d] + y] + ys)
  {
    TrimKeeps(u, c, x);
    TrimKeeps(u, d, y);
    hide Trim, TrimStart;
    assert Trim(u + [c] + x)[|TrimStart(u)|] == c && Trim(u + [d] + y)[|TrimStart(u)|] == d;
    assert Statements([u + [c] + x] + xs)[0] == Trim(u + [c] + x);
    assert Statements([u + [d] + y] + ys)[0] == Trim(u + [d] + y);
  }

  predicate StartsWithCut(p: string) { TrimStart(p) != [] && TrimStart(p)[0] == ';' }

  predicate NoneStartsWithCut(pieces: seq<string>) { forall i :: 0 <= i < |pieces| ==> !StartsWithCut(pieces[i]) }

  lemma {:induction false} BlankStart(p: string)
    ensures TrimStart(p) != [] ==> !IsWhitespace(TrimStart(p)[0])
  {
    if p != [] && IsWhitespace(p[0]) { BlankStart(p[1..]); }
  }

  lemma {:induction false} TrimHead(p: string)
    ensures Trim(p) == "" <==> TrimStart(p) == ""
    ensures Trim(p) != "" ==> Trim(p)[0] == TrimStart(p)[0]
    ensures |Trim(p)| <= |TrimStart(p)|
  {
    BlankStart(p);
    var t := TrimStart(p);
    if t != [] {
      assert [] + [t[0]] + t[1..] == t;
      TrimEndConcat([], t[0], t[1..]);
    }
  }

  lemma {:induction false} StatementsStart(pieces: seq<string>)
    requires NoneStartsWithCut(pieces)
    ensures Statements(pieces) != [] ==> Statements(pieces)[0] != "" && Statements(pieces)[0][0] != ';'
  {
    if pieces != [] {
      TrimHead(pieces[0]);
      hide Trim;
      forall i | 0 <= i < |pieces| - 1 ensures !StartsWithCut(pieces[1..][i]) { assert pieces[1..][i] == pieces[i + 1]; }
      StatementsStart(pieces[1..]);
    }
  }

  /** One list goes on with a semicolon where the other cuts. */
  lemma {:induction false} CutShort(u: string, xs: seq<string>, y: string, ys: seq<string>)
    requires NoneStartsWithCut(xs)
    ensures Statements([u] + xs) != Statements([u + ";" + y] + ys)
  {
    TrimKeeps(u, ';', y);
    TrimHead(u);
    StatementsStart(xs);
    hide Trim, TrimStart, NoneStartsWithCut;
    var long := Trim(u + ";" + y);
    assert ([u] + xs)[1..] == xs;
    assert Statements([u + ";" + y] + ys)[0] == long && long[|TrimStart(u)|] == ';';
    if Trim(u) != "" {
      assert Statements([u] + xs)[0] == Trim(u);
    } else {
      assert Statements([u] + xs) == [] + Statements(xs) == Statements(xs);
    }
  }

  /** No piece starts with a semicolon, except the first when the text starts inside quotes. */
  lemma {:induction false} PiecesStart(m: Mode, s: string)
    ensures forall i :: 0 <= i < |Pieces(m, s)| && (i > 0 || m.Out?) ==> !StartsWithCut(Pieces(m, s)[i])
    decreases |s|
  {
    if s != [] {
      if m.Out? && s[0] == ';' {
        PiecesStart(Out, s[1..]);
      } else {
        var rest := Pieces(SplitStep(m, s[0]), s[1..]);
        PiecesStart(SplitStep(m, s[0]), s[1..]);
        assert ([s[0]] + rest[0])[1..] == rest[0];
        var r := Prepend([s[0]], rest);
        forall i | 0 < i < |r| ensures r[i] == rest[i] {}
      }
    }
  }

  lemma {:induction false} BoundStart(text: Value -> string, p: string, params: seq<Value>)
    requires !StartsWithCut(p)
    ensures !StartsWithCut(Bind(text, Out, p, params))
  {
    TrimStartCommutes(text, p, params);
    var t := TrimStart(p);
    if t != [] && t[0] == '?' && params != [] { LiteralStart(text, params[0]); }
  }

  lemma LiteralStart(text: Value -> string, v: Value)
    ensures Literal(text, v) != [] && Literal(text, v)[0] != ';'
  {
    if Bare(v) { BareIsInert(text, v); }
  }

  lemma {:induction false} BoundPiecesStart(text: Value -> string, pieces: seq<string>, params: seq<Value>)
    requires |params| == CountAll(Out, pieces) && NoneStartsWithCut(pieces)
    ensures NoneStartsWithCut(BindAll(text, Out, pieces, params))
    decreases |pieces|
  {
    hide Bind, StartsWithCut;
    if pieces != [] {
      var n := Count(Out, pieces[0]);
      forall i | 0 <= i < |pieces| - 1 ensures !StartsWithCut(pieces[1..][i]) { assert pieces[1..][i] == pieces[i + 1]; }
      BoundStart(text, pieces[0], params[..n]);
      BoundPiecesStart(text, pieces[1..], params[n..]);
    }
  }

  /** A value whose literal ends the quotes it is put into and goes on with a semicolon. */
  function Breaker(n: Mode): Value { Str(if n.Single? then ";" else if n.Backtick? then "`;" else "\";") }

  /** The part of that literal before the semicolon. */
  function BreakerHead(n: Mode): string { if n.Single? then "'" else if n.Backtick? then "'`" else "'\"" }

  lemma {:induction false} BreakerBreaks(text: Value -> string, n: Mode)
    requires n.Single? || n.Double? || n.DoubleEscape? || n.Backtick?
    ensures Literal(text, Breaker(n)) == BreakerHead(n) + ";" + "'" && Uncut(n, BreakerHead(n)) && After(n, BreakerHead(n)) == Out
  {
    var v, w := Breaker(n).s, BreakerHead(n);
    TwoReplacementsEscape(v);
    if n.Single? {
      assert ";"[1..] == "" && Escaped(";") == ";";
      assert "'"[1..] == [];
    } else {
      assert w == ['\'', v[0]];
      assert v == [v[0], ';'] && v[1..] == ";" && ";"[1..] == "";
      assert Escaped(";") == ";" && Escaped(v) == [v[0]] + ";";
      TwoCharScan(n, '\'', v[0]);
    }
  }

  /** Two results, each written behind what both have so far. */
  ghost predicate Apart(cur: string, xs: seq<string>, ys: seq<string>)
    requires xs != [] && ys != []
  {
    Statements(Prepend(cur, xs)) != Statements(Prepend(cur, ys))
  }

  lemma ApartBehind(cur: string, more: string, xs: seq<string>, ys: seq<string>)
    requires xs != [] && ys != [] && Apart(cur + more, xs, ys)
    ensures Apart(cur, Prepend(more, xs), Prepend(more, ys))
  {
    PrependTwice(cur, more, xs);
    PrependTwice(cur, more, ys);
  }

  lemma ApartBeyond(cur: string, xs: seq<string>, ys: seq<string>)
    requires xs != [] && ys != [] && Apart("", xs, ys)
    ensures Apart(cur, [""] + xs, [""] + ys)
  {
    hide Trim;
    PrependNothing(xs);
    PrependNothing(ys);
    assert cur + "" == cur && ([""] + xs)[1..] == xs && ([""] + ys)[1..] == ys;
    assert ([cur] + xs)[1..] == xs && ([cur] + ys)[1..] == ys;
    assert Prepend(cur, [""] + xs) == [cur] + xs && Prepend(cur, [""] + ys) == [cur] + ys;
    var head := if Trim(cur) == "" then [] else [Trim(cur)];
    assert (head + Statements(xs))[|head|..] == Statements(xs);
    assert (head + Statements(ys))[|head|..] == Statements(ys);
  }

  lemma ApartAtOnce(cur: string, c: char, xs: seq<string>, d: char, ys: seq<string>)
    requires xs != [] && ys != [] && c != d && !IsWhitespace(c) && !IsWhitespace(d)
    requires xs[0] != [] && xs[0][0] == c && ys[0] != [] && ys[0][0] == d
    ensures Apart(cur, xs, ys) && Apart(cur, ys, xs)
  {
    hide Statements, IsWhitespace;
    assert cur + xs[0] == cur + [c] + xs[0][1..];
    assert cur + ys[0] == cur + [d] + ys[0][1..];
    OtherCharacter(cur, c, xs[0][1..], d, ys[0][1..], xs[1..], ys[1..]);
  }

  lemma ApartByCut(cur: string, w: string, xs: seq<string>, y: string, ys: seq<string>)
    requires NoneStartsWithCut(xs) && ys != [] && ys[0] == w + ";" + y
    ensures Apart(cur, [w] + xs, ys) && Apart(cur, ys, [w] + xs)
  {
    hide Statements;
    assert ([w] + xs)[1..] == xs;
    assert cur + ys[0] == cur + w + ";" + y;
    CutShort(cur + w, xs, y, ys[1..]);
  }

  function Nulls(n: nat): (r: seq<Value>)
    ensures |r| == n
  {
    seq(n, _ => Null)
  }

  lemma {:induction false} FirstBound(text: Value -> string, b: Mode, c: char, pieces: seq<string>, params: seq<Value>)
    requires pieces != [] && |params| == CountAll(b, Prepend([c], pieces))
    ensures var bound := BindAll(text, b, Prepend([c], pieces), params);
            bound != [] && bound[0] != []
            && (!(b.Out? && c == '?') ==> bound[0][0] == c)
            && (b.Out? && c == '?' ==> params != [] && bound[0][0] == Literal(text, params[0])[0])
  {
    hide Literal;
    CountAllPrepend(b, c, pieces);
    if b.Out? && c == '?' {
      BindAllOneMark(text, pieces, params);
      LiteralStart(text, params[0]);
    } else {
      BindAllOneMore(text, b, c, pieces, params);
    }
  }

  /** A semicolon that cuts one of the two texts only. */
  lemma {:induction false} CutHere(text: Value -> string, m: Mode, n: Mode, w: Mode, b: Mode, s: string, cur: string, params: seq<Value>)
    requires s != [] && |params| == Count(w, s) == CountAll(b, Pieces(m, s)) && s[0] == ';' && m.Out? != n.Out?
    ensures Apart(cur, Pieces(n, Bind(text, w, s, params)), BindAll(text, b, Pieces(m, s), params))
  {
    hide Apart, CountAll, BindAll, Literal, StartsWithCut;
    var c, rest, m' := s[0], s[1..], SplitStep(m, s[0]);
    var bound := Bind(text, BindStep(w, c), rest, params);
    PiecesOfChar(n, c, bound);
    if m.Out? {
      CountAllCut(b, Pieces(Out, rest));
      BindAllCut(text, b, Pieces(Out, rest), params);
      PiecesStart(Out, rest);
      BoundPiecesStart(text, Pieces(Out, rest), params);
      ApartByCut(cur, "", BindAll(text, Out, Pieces(Out, rest), params), Pieces(SplitStep(n, c), bound)[0], Pieces(n, [c] + bound));
    } else {
      FirstBound(text, b, c, Pieces(m', rest), params);
      var ys := BindAll(text, b, Pieces(m, s), params);
      PiecesStart(Out, bound);
      assert ys[0] == "" + ";" + ys[0][1..];
      ApartByCut(cur, "", Pieces(Out, bound), ys[0][1..], ys);
    }
  }

  /** A mark of both binders where a literal can end the quotes around it. */
  lemma {:induction false} BrokenHere(text: Value -> string, m: Mode, n: Mode, s: string, cur: string, params: seq<Value>)
    requires s != [] && |params| == Count(Out, s) == CountAll(Out, Pieces(m, s)) && s[0] == '?' && !n.Out? && !n.SingleEscape?
    requires params[0] == Breaker(n)
    ensures Apart(cur, Pieces(n, Bind(text, Out, s, params)), BindAll(text, Out, Pieces(m, s), params))
  {
    hide Apart, CountAll, BindAll, Literal, StartsWithCut, Breaker, BreakerHead;
    var rest, m' := s[1..], SplitStep(m, s[0]);
    CountAllPrepend(Out, '?', Pieces(m', rest));
    var bound := Bind(text, Out, rest, params[1..]);
    var cut := BreakerHead(n);
    BreakerBreaks(text, n);
    BindAllOneMark(text, Pieces(m', rest), params);
    var behind := BindAll(text, Out, Pieces(m', rest), params[1..]);
    BindAllIsNotEmpty(text, Out, Pieces(m', rest), params[1..]);
    var xs := Pieces(Out, "'" + bound);
    BrokenPieces(n, cut, bound);
    PiecesStart(Out, "'" + bound);
    assert (cut + ";" + "'") + behind[0] == cut + ";" + ("'" + behind[0]);
    ApartByCut(cur, cut, xs, "'" + behind[0], Prepend(Literal(text, Breaker(n)), behind));
  }

  lemma {:induction false} BrokenPieces(n: Mode, cut: string, bound: string)
    requires Uncut(n, cut) && After(n, cut) == Out
    ensures Pieces(n, cut + ";" + "'" + bound) == [cut] + Pieces(Out, "'" + bound)
  {
    var xs := Pieces(Out, "'" + bound);
    assert cut + ";" + "'" + bound == cut + (";" + ("'" + bound));
    UncutTextStaysTogether(n, cut, ";" + ("'" + bound));
    PiecesOfChar(Out, ';', "'" + bound);
    assert Prepend(cut, [""] + xs) == [cut] + xs by { assert cut + "" == cut && ([""] + xs)[1..] == xs; }
  }

  /** A mark of one binder only. */
  lemma {:induction false} MarkHere(text: Value -> string, m: Mode, n: Mode, w: Mode, b: Mode, s: string, cur: string, params: seq<Value>)
    requires s != [] && |params| == Count(w, s) == CountAll(b, Pieces(m, s)) && s[0] == '?' && w.Out? != b.Out?
    requires params == Nulls(Count(w, s))
    ensures Apart(cur, Pieces(n, Bind(text, w, s, params)), BindAll(text, b, Pieces(m, s), params))
  {
    hide Apart, CountAll, BindAll, Literal;
    var rest, m' := s[1..], SplitStep(m, s[0]);
    FirstBound(text, b, s[0], Pieces(m', rest), params);
    FirstOfWhole(text, n, w, s, params);
    NullStarts(text);
    CountAllPrepend(b, s[0], Pieces(m', rest));
    var xs, ys := Pieces(n, Bind(text, w, s, params)), BindAll(text, b, Pieces(m, s), params);
    ApartAtOnce(cur, xs[0][0], xs, ys[0][0], ys);
  }

  /** The two results differ for these parameters. */
  ghost predicate Shows(text: Value -> string, m: Mode, n: Mode, w: Mode, b: Mode, s: string, cur: string, params: seq<Value>) {
    |params| == Count(w, s) == CountAll(b, Pieces(m, s)) && BindAll(text, b, Pieces(m, s), params) != []
    && Apart(cur, Pieces(n, Bind(text, w, s, params)), BindAll(text, b, Pieces(m, s), params))
  }

  /** When the machines part at this very character. */
  lemma {:induction false} PartHere(text: Value -> string, m: Mode, n: Mode, w: Mode, b: Mode, s: string, cur: string)
    requires s != [] && Count(w, s) == CountAll(b, Pieces(m, s))
    requires var mark := s[0] == '?' && (w.Out? || b.Out?);
             (mark && !(w.Out? && b.Out? && (n.Out? || n.SingleEscape?))) || (s[0] == ';' && m.Out? != n.Out?)
    ensures exists params :: Shows(text, m, n, w, b, s, cur, params)
  {
    hide Apart, CountAll, BindAll, Bind, Pieces, Breaker, Shows;
    var params := Nulls(Count(w, s));
    if s[0] == ';' {
      CutHere(text, m, n, w, b, s, cur, params);
    } else if w.Out? && b.Out? {
      params := [Breaker(n)] + Nulls(Count(Out, s[1..]));
      BrokenHere(text, m, n, s, cur, params);
    } else {
      MarkHere(text, m, n, w, b, s, cur, params);
    }
    BindAllIsNotEmpty(text, b, Pieces(m, s), params);
    ApartShows(text, m, n, w, b, s, cur, params);
  }

  lemma {:induction false} ApartShows(text: Value -> string, m: Mode, n: Mode, w: Mode, b: Mode, s: string, cur: string, params: seq<Value>)
    requires |params| == Count(w, s) == CountAll(b, Pieces(m, s)) && BindAll(text, b, Pieces(m, s), params) != []
    requires Apart(cur, Pieces(n, Bind(text, w, s, params)), BindAll(text, b, Pieces(m, s), params))
    ensures Shows(text, m, n, w, b, s, cur, params)
  {
  }

  lemma NullStarts(text: Value -> string)
    ensures Literal(text, Null) == "NULL"
  {
  }

  lemma {:induction false} BindAllIsNotEmpty(text: Value -> string, b: Mode, pieces: seq<string>, params: seq<Value>)
    requires pieces != [] && |params| == CountAll(b, pieces)
    ensures BindAll(text, b, pieces, params) != []
  {
  }

  lemma {:induction false} FirstOfWhole(text: Value -> string, n: Mode, w: Mode, s: string, params: seq<Value>)
    requires s != [] && s[0] == '?' && params == Nulls(Count(w, s))
    ensures var xs := Pieces(n, Bind(text, w, s, params));
            xs[0] != [] && xs[0][0] == if w.Out? then 'N' else '?'
  {
    if w.Out? {
      var bound := Bind(text, Out, s[1..], params[1..]);
      assert Bind(text, w, s, params) == "NULL" + bound;
      assert "NULL" + bound == ['N'] + ("ULL" + bound);
      PiecesOfChar(n, 'N', "ULL" + bound);
    } else {
      PiecesOfChar(n, '?', Bind(text, BindStep(w, '?'), s[1..], params));
    }
  }

  /** A literal first, and the same parameters behind it. */
  lemma ShowsBehindMark(text: Value -> string, m: Mode, n: Mode, s: string, cur: string, v: Value, behind: seq<Value>)
    requires s != [] && s[0] == '?' && (n.Out? || n.SingleEscape?)
    requires Shows(text, SplitStep(m, '?'), AfterLiteral(n, v), Out, Out, s[1..], cur + Literal(text, v), behind)
    ensures Shows(text, m, n, Out, Out, s, cur, [v] + behind)
  {
    hide Apart, CountAll, BindAll, Literal;
    var rest, m', params := s[1..], SplitStep(m, s[0]), [v] + behind;
    assert params[1..] == behind;
    CountAllPrepend(Out, '?', Pieces(m', rest));
    LiteralStays(text, n, v);
    UncutTextStaysTogether(n, Literal(text, v), Bind(text, Out, rest, behind));
    BindAllOneMark(text, Pieces(m', rest), params);
    ApartBehind(cur, Literal(text, v), Pieces(AfterLiteral(n, v), Bind(text, Out, rest, behind)), BindAll(text, Out, Pieces(m', rest), behind));
  }

  lemma ShowsBeyondCut(text: Value -> string, w: Mode, b: Mode, s: string, cur: string, params: seq<Value>)
    requires s != [] && s[0] == ';' && Shows(text, Out, Out, BindStep(w, ';'), Out, s[1..], "", params)
    ensures Shows(text, Out, Out, w, b, s, cur, params)
  {
    hide Apart, CountAll, BindAll;
    var rest := s[1..];
    CountAllCut(b, Pieces(Out, rest));
    PiecesOfChar(Out, ';', Bind(text, BindStep(w, ';'), rest, params));
    BindAllCut(text, b, Pieces(Out, rest), params);
    ApartBeyond(cur, Pieces(Out, Bind(text, BindStep(w, ';'), rest, params)), BindAll(text, Out, Pieces(Out, rest), params));
  }

  lemma ShowsBehindChar(text: Value -> string, m: Mode, n: Mode, w: Mode, b: Mode, s: string, cur: string, params: seq<Value>)
    requires s != [] && !(s[0] == '?' && (w.Out? || b.Out?)) && !(s[0] == ';' && (m.Out? || n.Out?))
    requires Shows(text, SplitStep(m, s[0]), SplitStep(n, s[0]), BindStep(w, s[0]), BindStep(b, s[0]), s[1..], cur + [s[0]], params)
    ensures Shows(text, m, n, w, b, s, cur, params)
  {
    hide Apart, CountAll, BindAll;
    var c, rest, m' := s[0], s[1..], SplitStep(m, s[0]);
    CountAllPrepend(b, c, Pieces(m', rest));
    PiecesOfChar(n, c, Bind(text, BindStep(w, c), rest, params));
    BindAllOneMore(text, b, c, Pieces(m', rest), params);
    ApartBehind(cur, [c], Pieces(SplitStep(n, c), Bind(text, BindStep(w, c), rest, params)), BindAll(text, BindStep(b, c), Pieces(m', rest), params));
  }

  /** If the machines part anywhere, there are parameters for which the results differ. */
  lemma {:induction false} PartingShows(text: Value -> string, m: Mode, n: Mode, w: Mode, b: Mode, s: string, cur: string)
    requires !Commutes(m, n, w, b, s) && Count(w, s) == CountAll(b, Pieces(m, s))
    ensures exists params :: Shows(text, m, n, w, b, s, cur, params)
    decreases |s|
  {
    hide CountAll, Literal, Shows;
    var c, rest, m' := s[0], s[1..], SplitStep(m, s[0]);
    var mark := c == '?' && (w.Out? || b.Out?);
    if (mark && !(w.Out? && b.Out? && (n.Out? || n.SingleEscape?))) || (c == ';' && m.Out? != n.Out?) {
      PartHere(text, m, n, w, b, s, cur);
    } else if mark {
      var v := if !Commutes(m', Out, Out, Out, rest) && n.SingleEscape? then Str("") else Null;
      CountAllPrepend(b, c, Pieces(m', rest));
      PartingShows(text, m', AfterLiteral(n, v), Out, Out, rest, cur + Literal(text, v));
      var behind :| Shows(text, m', AfterLiteral(n, v), Out, Out, rest, cur + Literal(text, v), behind);
      ShowsBehindMark(text, m, n, s, cur, v, behind);
    } else if c == ';' && m.Out? {
      CountAllCut(b, Pieces(Out, rest));
      PartingShows(text, Out, Out, BindStep(w, c), Out, rest, "");
      var params :| Shows(text, Out, Out, BindStep(w, c), Out, rest, "", params);
      ShowsBeyondCut(text, w, b, s, cur, params);
    } else {
      CountAllPrepend(b, c, Pieces(m', rest));
      PartingShows(text, m', SplitStep(n, c), BindStep(w, c), BindStep(b, c), rest, cur + [c]);
      var params :| Shows(text, m', SplitStep(n, c), BindStep(w, c), BindStep(b, c), rest, cur + [c], params);
      ShowsBehindChar(text, m, n, w, b, s, cur, params);
    }
  }

  /** The statements of the bound text are the statements of the text, each bound with its own
      consecutive slice of the parameters. */
  ghost predicate BindsPiecewise(text: Value -> string, sql: string, params: seq<Value>) {
    && CountAll(Out, Statements(Pieces(Out, sql))) == |params|
    && Statements(Pieces(Out, Bind(text, Out, sql, params))) == BindAll(text, Out, Statements(Pieces(Out, sql)), params)
  }

  /** Binding commutes with splitting for all parameters exactly when the four machines never
      part on the text. */
  lemma {:induction false} BindingCommutesIff(text: Value -> string, sql: string)
    ensures (forall params :: |params| == Count(Out, sql) ==> BindsPiecewise(text, sql, params)) <==> Commutes(Out, Out, Out, Out, sql)
  {
    hide Commutes, Pieces, Bind, BindAll, Statements, Count, CountAll;
    var pieces := Pieces(Out, sql);
    if Commutes(Out, Out, Out, Out, sql) {
      forall params | |params| == Count(Out, sql) ensures BindsPiecewise(text, sql, params) {
        BoundPieces(text, Out, Out, Out, Out, sql, params);
        BoundStatements(text, pieces, params);
      }
    } else {
      CountOfStatements(text, pieces);
      var params := Nulls(Count(Out, sql));
      if CountAll(Out, pieces) == Count(Out, sql) {
        PartingShows(text, Out, Out, Out, Out, sql, "");
        params :| Shows(text, Out, Out, Out, Out, sql, "", params);
        PrependNothing(Pieces(Out, Bind(text, Out, sql, params)));
        BindAllIsNotEmpty(text, Out, pieces, params);
        PrependNothing(BindAll(text, Out, pieces, params));
        BoundStatements(text, pieces, params);
      }
      assert !BindsPiecewise(text, sql, params);
    }
  }

  /** The splitter need not stand outside quotes at every mark: here the mark follows a backslash
      inside them, and every literal may stand there. */
  lemma MarkAfterBackslashCommutes()
    ensures Commutes(Out, Out, Out, Out, "`'`'\\?") && After(Out, "`'`'\\") == SingleEscape
  {
    var s := "`'`'\\?";
    assert s[1..] == "'`'\\?" && s[1..][1..] == "`'\\?" && s[1..][1..][1..] == "'\\?" && "'\\?"[1..] == "\\?" && "\\?"[1..] == "?" && "?"[1..] == "";
    assert Commutes(SingleEscape, SingleEscape, Out, Out, "?");
    assert Commutes(Single, Single, Out, Out, "\\?") && Commutes(Out, Out, Single, Single, "'\\?") && Commutes(Backtick, Backtick, Single, Single, "`'\\?");
    var w := "`'`'\\";
    assert w[1..] == "'`'\\" && w[1..][1..] == "`'\\" && w[1..][1..][1..] == "'\\" && "'\\"[1..] == "\\" && "\\"[1..] == "";
    assert After(Single, "\\") == SingleEscape && After(Out, "'\\") == SingleEscape;
    assert After(Backtick, "`'\\") == SingleEscape && After(Backtick, "'`'\\") == SingleEscape;
  }

  lemma {:induction false} CountOfStatements(text: Value -> string, pieces: seq<string>)
    ensures CountAll(Out, Statements(pieces)) == CountAll(Out, pieces)
  {
    BoundStatements(text, pieces, Nulls(CountAll(Out, pieces)));
  }

  /** The binder does not know backticks: to it the quote in the name opens a string, so it counts
      no parameter in a text whose second statement consists of one. */
  lemma BackticksDivideTheMachines()
    ensures Count(Out, "`'`;?") == 0
    ensures Statements(Pieces(Out, "`'`;?")) == ["`'`", "?"]
    ensures Count(Out, "?") == 1
  {
    assert "`'`;?"[1..] == "'`;?" && "'`;?"[1..] == "`;?" && "`;?"[1..] == ";?" && ";?"[1..] == "?" && "?"[1..] == "";
    assert Pieces(Out, "?") == ["?"] by { PrependLast("?"); }
    assert Pieces(Out, ";?") == ["", "?"];
    assert ["", "?"][1..] == ["?"] && ["`", "?"][1..] == ["?"] && ["'`", "?"][1..] == ["?"];
    assert ['`'] + "" == "`" && ['\''] + "`" == "'`" && ['`'] + "'`" == "`'`";
    assert Pieces(Backtick, "`;?") == ["`", "?"];
    assert Pieces(Backtick, "'`;?") == ["'`", "?"];
    assert Pieces(Out, "`'`;?") == ["`'`", "?"];
    TrimKeepsTight("`'`");
    TrimKeepsTight("?");
    assert ["`'`", "?"][1..] == ["?"] && ["?"][1..] == [];
  }
}
