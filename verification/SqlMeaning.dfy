/** What literals, quotes and marks mean: a reader of literals, and the scanners on quoted text. */
module SqlMeaning {
  import opened Wrappers
  import opened Json
  import opened Text
  import opened SqlScan

  // ---------- reading a literal back ----------

  /** The text up to the closing quote at the very end: a doubled quote stands for one, a backslash
      for the character behind it. */
  function ReadQuoted(s: string): Option<string>
    decreases |s|
  {
    if s == [] then None
    else if s[0] == '\'' then
      if |s| == 1 then Some("")
      else if s[1] == '\'' then Prefixed('\'', ReadQuoted(s[2..]))
      else None
    else if s[0] == '\\' then
      if |s| == 1 then None else Prefixed(s[1], ReadQuoted(s[2..]))
    else Prefixed(s[0], ReadQuoted(s[1..]))
  }

  function Prefixed(c: char, rest: Option<string>): Option<string> {
    match rest
    case None => None
    case Some(r) => Some([c] + r)
  }

  function ReadInteger(s: string): Option<int> {
    if s != [] && s[0] == '-' then
      match ParseDigits(s[1..])
      case None => None
      case Some(n) => Some(0 - n as int)
    else
      match ParseDigits(s)
      case None => None
      case Some(n) => Some(n as int)
  }

  /** The value of a literal of SQL: a keyword, a quoted text or a decimal integer. */
  function ReadLiteral(s: string): Option<Value> {
    if s == "NULL" then Some(Null)
    else if s == "TRUE" then Some(Bool(true))
    else if s == "FALSE" then Some(Bool(false))
    else if s != [] && s[0] == '\'' then
      match ReadQuoted(s[1..])
      case None => None
      case Some(t) => Some(Str(t))
    else
      match ReadInteger(s)
      case None => None
      case Some(n) => Some(Num(n))
  }

  lemma {:induction false} EscapedReadsBack(s: string)
    ensures ReadQuoted(Escaped(s) + "'") == Some(s)
  {
    if s == [] {
      assert Escaped(s) + "'" == "'";
    } else {
      EscapedReadsBack(s[1..]);
      var rest := Escaped(s[1..]) + "'";
      assert [s[0]] + s[1..] == s;
      if s[0] == '\\' || s[0] == '\'' {
        var w := [s[0], s[0]] + rest;
        assert Escaped(s) + "'" == w && w[2..] == rest;
      } else {
        var w := [s[0]] + rest;
        assert Escaped(s) + "'" == w && w[1..] == rest;
      }
    }
  }

  lemma QuotedReadsBack(s: string)
    ensures ReadLiteral(Quoted(s)) == Some(Str(s))
  {
    TwoReplacementsEscape(s);
    EscapedReadsBack(s);
    assert Quoted(s) == "'" + (Escaped(s) + "'");
    assert Quoted(s)[0] == '\'' && Quoted(s)[1..] == Escaped(s) + "'";
  }

  lemma IntegerReadsBack(n: int)
    ensures ReadLiteral(IntText(n)) == Some(Num(n))
  {
    ParseDigitsOfNatText(if n < 0 then -n else n);
    var s := IntText(n);
    assert s[0] == '-' || IsDigit(s[0]);
    if n < 0 { assert s[1..] == NatText(-n); }
  }

  /** Every literal is read back as the value it was written for; arrays and objects as the text of
      their JSON. */
  lemma LiteralReadsBack(text: Value -> string, v: Value)
    ensures ReadLiteral(Literal(text, v)) == Some(if v.Arr? || v.Obj? then Str(text(v)) else v)
  {
    hide ReadLiteral;
    match v
    case Null => KeywordsRead();
    case Bool(_) => KeywordsRead();
    case Num(n) => IntegerReadsBack(n);
    case Str(s) => QuotedReadsBack(s);
    case Arr(_) => QuotedReadsBack(text(v));
    case Obj(_) => QuotedReadsBack(text(v));
  }

  lemma KeywordsRead()
    ensures ReadLiteral("NULL") == Some(Null) && ReadLiteral("TRUE") == Some(Bool(true)) && ReadLiteral("FALSE") == Some(Bool(false))
  {
    assert "TRUE"[0] == 'T' && "FALSE"[0] == 'F';
  }

  // ---------- quoted text ----------

  predicate IsQuoteMark(q: char) { q == '\'' || q == '"' }

  /** Text inside the quotes `q`: a backslash goes with the character behind it, and no quote stands
      alone. */
  predicate Inside(q: char, body: string)
    decreases |body|
  {
    body == []
    || (body[0] == '\\' && |body| > 1 && Inside(q, body[2..]))
    || (body[0] != '\\' && body[0] != q && Inside(q, body[1..]))
  }

  /** Where the scanners stand inside the quotes. */
  function QuoteMode(q: char): Mode { if q == '\'' then Single else Double }

  lemma {:induction false} CountStep(m: Mode, c: char, s: string)
    ensures Count(m, [c] + s) == (if m.Out? && c == '?' then 1 else 0) + Count(BindStep(m, c), s)
  {
    assert ([c] + s)[1..] == s;
  }

  lemma {:induction false} BindOneStep(text: Value -> string, m: Mode, c: char, s: string, params: seq<Value>)
    ensures Bind(text, m, [c] + s, params)
         == if m.Out? && c == '?' && params != [] then Literal(text, params[0]) + Bind(text, m, s, params[1..])
            else [c] + Bind(text, BindStep(m, c), s, params)
  {
    assert ([c] + s)[1..] == s;
  }

  /** The three machines pass over `w` as it is, from mode `m` to mode `n`. */
  ghost predicate Passes(text: Value -> string, m: Mode, w: string, n: Mode, rest: string, params: seq<Value>) {
    && Count(m, w + rest) == Count(n, rest)
    && Bind(text, m, w + rest, params) == w + Bind(text, n, rest, params)
    && Pieces(m, w + rest) == Prepend(w, Pieces(n, rest))
  }

  lemma NothingPasses(text: Value -> string, m: Mode, rest: string, params: seq<Value>)
    ensures Passes(text, m, "", m, rest, params)
  {
    assert "" + rest == rest;
    PrependNothing(Pieces(m, rest));
  }

  lemma CharPasses(text: Value -> string, m: Mode, c: char, rest: string, params: seq<Value>)
    requires !m.Backtick? && (m.Out? ==> c != '?' && c != ';' && c != '`')
    ensures Passes(text, m, [c], BindStep(m, c), rest, params)
  {
    hide Count, Bind, Pieces;
    CountStep(m, c, rest);
    BindOneStep(text, m, c, rest, params);
    PiecesOfChar(m, c, rest);
  }

  lemma BothPass(text: Value -> string, m: Mode, v: string, n: Mode, w: string, o: Mode, rest: string, params: seq<Value>)
    requires Passes(text, m, v, n, w + rest, params) && Passes(text, n, w, o, rest, params)
    ensures Passes(text, m, v + w, o, rest, params)
  {
    hide Count, Bind, Pieces;
    var bound := Bind(text, o, rest, params);
    assert v + w + rest == v + (w + rest) && v + w + bound == v + (w + bound);
    PrependTwice(v, w, Pieces(o, rest));
  }

  /** The three scanners pass over the text inside quotes. */
  lemma {:induction false} InsideIsPassedOver(text: Value -> string, q: char, body: string, rest: string, params: seq<Value>)
    requires IsQuoteMark(q) && Inside(q, body)
    ensures Passes(text, QuoteMode(q), body, QuoteMode(q), rest, params)
    decreases |body|
  {
    hide Passes;
    var m := QuoteMode(q);
    if body == [] {
      NothingPasses(text, m, rest, params);
    } else {
      var c, n := body[0], if body[0] == '\\' then 2 else 1;
      var more := body[n..];
      InsideIsPassedOver(text, q, more, rest, params);
      if n == 2 {
        CharPasses(text, m, c, [body[1]] + (more + rest), params);
        CharPasses(text, BindStep(m, c), body[1], more + rest, params);
        BothPass(text, m, [c], BindStep(m, c), [body[1]], m, more + rest, params);
        assert body[..2] == [c] + [body[1]];
      } else {
        CharPasses(text, m, c, more + rest, params);
        assert body[..1] == [c];
      }
      BothPass(text, m, body[..n], m, more, m, rest, params);
      assert body == body[..n] + more;
    }
  }

  /** A quoted text, closed: no mark in it counts, no semicolon in it cuts, and it stays as it is. */
  lemma {:induction false} QuotedTextStays(text: Value -> string, q: char, body: string, rest: string, params: seq<Value>)
    requires IsQuoteMark(q) && Inside(q, body)
    ensures var w := [q] + body + [q];
            && Count(Out, w + rest) == Count(Out, rest)
            && Bind(text, Out, w + rest, params) == w + Bind(text, Out, rest, params)
            && Pieces(Out, w + rest) == Prepend(w, Pieces(Out, rest))
  {
    hide Inside;
    var m := QuoteMode(q);
    assert Passes(text, Out, [q] + body + [q], Out, rest, params) by {
      hide Passes;
      CharPasses(text, Out, q, body + ([q] + rest), params);
      InsideIsPassedOver(text, q, body, [q] + rest, params);
      BothPass(text, Out, [q], m, body, m, [q] + rest, params);
      CharPasses(text, m, q, rest, params);
      BothPass(text, Out, [q] + body, m, [q], Out, rest, params);
    }
  }

  /** A quoted text that is never closed, with or without a backslash at its end. */
  lemma UnclosedTextStays(text: Value -> string, q: char, body: string, params: seq<Value>)
    requires IsQuoteMark(q) && Inside(q, body)
    ensures forall end :: end == "" || end == "\\" ==>
              var w := [q] + body + end; Count(Out, w) == 0 && Bind(text, Out, w, params) == w && Pieces(Out, w) == [w]
  {
    hide Count, Bind, Pieces;
    forall end | end == "" || end == "\\"
      ensures var w := [q] + body + end; Count(Out, w) == 0 && Bind(text, Out, w, params) == w && Pieces(Out, w) == [w]
    {
      var m := QuoteMode(q);
      assert [q] + body + end == [q] + (body + end);
      InsideIsPassedOver(text, q, body, end, params);
      CountStep(Out, q, body + end);
      BindOneStep(text, Out, q, body + end, params);
      PiecesOfChar(Out, q, body + end);
      EndOfText(text, m, params);
      EndOfText(text, BindStep(m, '\\'), params);
      if end == "\\" {
        assert end == ['\\'] + "";
        CountStep(m, '\\', "");
        BindOneStep(text, m, '\\', "", params);
        PiecesOfChar(m, '\\', "");
        PrependLast("\\");
        assert Pieces(m, end) == ["\\"];
        assert Prepend(body, ["\\"]) == [body + end] by { assert ["\\"][1..] == []; }
      } else {
        PrependLast(body);
        assert body + end == body;
      }
      assert Prepend([q], [body + end]) == [[q] + (body + end)] by { assert [body + end][1..] == []; }
    }
  }

  lemma {:induction false} EndOfText(text: Value -> string, m: Mode, params: seq<Value>)
    ensures Count(m, "") == 0 && Bind(text, m, "", params) == "" && Pieces(m, "") == [""]
  {
  }

  /** A name in backticks: the splitter passes over it. */
  lemma {:induction false} BacktickedNameStays(name: string, rest: string)
    requires '`' !in name
    ensures Pieces(Out, "`" + name + "`" + rest) == Prepend("`" + name + "`", Pieces(Out, rest))
  {
    hide Pieces;
    assert "`" + name + "`" + rest == ['`'] + (name + (['`'] + rest));
    PiecesOfChar(Out, '`', name + (['`'] + rest));
    NameIsPassedOver(name, ['`'] + rest);
    PiecesOfChar(Backtick, '`', rest);
    PrependTwice(name, ['`'], Pieces(Out, rest));
    PrependTwice(['`'], name + ['`'], Pieces(Out, rest));
    assert ['`'] + (name + ['`']) == "`" + name + "`";
  }

  lemma {:induction false} NameIsPassedOver(name: string, rest: string)
    requires '`' !in name
    ensures Pieces(Backtick, name + rest) == Prepend(name, Pieces(Backtick, rest))
  {
    hide Pieces;
    if name == [] {
      assert name + rest == rest;
      PrependNothing(Pieces(Backtick, rest));
    } else {
      NameIsPassedOver(name[1..], rest);
      assert name == [name[0]] + name[1..] && name + rest == [name[0]] + (name[1..] + rest);
      PiecesOfChar(Backtick, name[0], name[1..] + rest);
      PrependTwice([name[0]], name[1..], Pieces(Backtick, rest));
    }
  }

  /** Outside quotes a question mark is a mark, a semicolon cuts, and other characters stay. */
  lemma {:induction false} OutsideQuotes(text: Value -> string, c: char, rest: string, params: seq<Value>)
    requires !IsQuoteMark(c)
    ensures Count(Out, [c] + rest) == (if c == '?' then 1 else 0) + Count(Out, rest)
    ensures c == '?' && params != [] ==> Bind(text, Out, [c] + rest, params) == Literal(text, params[0]) + Bind(text, Out, rest, params[1..])
    ensures c != '?' ==> Bind(text, Out, [c] + rest, params) == [c] + Bind(text, Out, rest, params)
    ensures c == ';' ==> Pieces(Out, [c] + rest) == [""] + Pieces(Out, rest)
    ensures c != ';' && c != '`' ==> Pieces(Out, [c] + rest) == Prepend([c], Pieces(Out, rest))
  {
    hide Count, Bind, Pieces;
    CountStep(Out, c, rest);
    BindOneStep(text, Out, c, rest, params);
    PiecesOfChar(Out, c, rest);
  }

  ghost predicate Closes(q: char, s: string, body: string, rest: string) { Inside(q, body) && s == body + [q] + rest }

  ghost predicate Trails(q: char, s: string, body: string) { Inside(q, body) && (s == body || s == body + "\\") }

  /** These cases cover every text: behind an opening quote it is closed or it is not. */
  lemma {:induction false} QuotesCloseOrDoNot(q: char, s: string)
    requires IsQuoteMark(q)
    ensures (exists body, rest :: Closes(q, s, body, rest)) || (exists body :: Trails(q, s, body))
    decreases |s|
  {
    if s == [] {
      assert Trails(q, s, []);
    } else if s[0] == q {
      assert s == [] + [q] + s[1..];
      assert Closes(q, s, [], s[1..]);
    } else if s == "\\" {
      assert Trails(q, s, []);
    } else {
      var n := if s[0] == '\\' then 2 else 1;
      var front := s[..n];
      assert s == front + s[n..];
      QuotesCloseOrDoNot(q, s[n..]);
      if body, rest :| Closes(q, s[n..], body, rest) {
        InsideLonger(q, front, body);
        assert s == (front + body) + [q] + rest;
        assert Closes(q, s, front + body, rest);
      } else {
        var body :| Trails(q, s[n..], body);
        InsideLonger(q, front, body);
        assert s[n..] == body + "\\" ==> s == (front + body) + "\\";
        assert Trails(q, s, front + body);
      }
    }
  }

  lemma {:induction false} InsideLonger(q: char, front: string, body: string)
    requires Inside(q, body)
    requires (|front| == 1 && front[0] != '\\' && front[0] != q) || (|front| == 2 && front[0] == '\\')
    ensures Inside(q, front + body)
  {
    assert (front + body)[|front|..] == body;
  }

  // ---------- the bound text ----------

  /** The stretches with one filling between each two. */
  function Woven(stretches: seq<string>, fillings: seq<string>): string
    requires |stretches| == |fillings| + 1
  {
    if fillings == [] then stretches[0] else stretches[0] + fillings[0] + Woven(stretches[1..], fillings[1..])
  }

  function Marks(n: nat): (r: seq<string>)
    ensures |r| == n
  {
    seq(n, _ => "?")
  }

  function Literals(text: Value -> string, params: seq<Value>): (r: seq<string>)
    ensures |r| == |params|
  {
    seq(|params|, i requires 0 <= i < |params| => Literal(text, params[i]))
  }

  lemma {:induction false} WovenLonger(c: string, stretches: seq<string>, fillings: seq<string>)
    requires |stretches| == |fillings| + 1
    ensures Woven([c + stretches[0]] + stretches[1..], fillings) == c + Woven(stretches, fillings)
  {
    var longer := [c + stretches[0]] + stretches[1..];
    assert longer[1..] == stretches[1..];
    if fillings != [] {
      var rest := Woven(stretches[1..], fillings[1..]);
      assert (c + stretches[0]) + fillings[0] + rest == c + (stretches[0] + fillings[0] + rest);
    }
  }

  /** The text is these stretches with the marks between them, the bound text the same stretches
      with the literals between them. */
  ghost predicate Weaves(text: Value -> string, m: Mode, s: string, params: seq<Value>, stretches: seq<string>) {
    |stretches| == |params| + 1 && s == Woven(stretches, Marks(|params|)) && Bind(text, m, s, params) == Woven(stretches, Literals(text, params))
  }

  lemma WeavesBehindMark(text: Value -> string, rest: string, params: seq<Value>, stretches: seq<string>)
    requires params != [] && Weaves(text, Out, rest, params[1..], stretches)
    ensures Weaves(text, Out, "?" + rest, params, [""] + stretches)
  {
    hide Woven, Literal;
    BindOneStep(text, Out, '?', rest, params);
    WovenBehind("?", stretches, Marks(|params| - 1));
    WovenBehind(Literal(text, params[0]), stretches, Literals(text, params[1..]));
    assert ["?"] + Marks(|params| - 1) == Marks(|params|);
    assert [Literal(text, params[0])] + Literals(text, params[1..]) == Literals(text, params);
  }

  lemma WeavesBehindChar(text: Value -> string, m: Mode, c: char, rest: string, params: seq<Value>, stretches: seq<string>)
    requires !(m.Out? && c == '?') && Weaves(text, BindStep(m, c), rest, params, stretches)
    ensures Weaves(text, m, [c] + rest, params, [[c] + stretches[0]] + stretches[1..])
  {
    hide Woven, Literal;
    BindOneStep(text, m, c, rest, params);
    WovenLonger([c], stretches, Marks(|params|));
    WovenLonger([c], stretches, Literals(text, params));
  }

  /** Binding puts the literals of the parameters, in order, in place of as many marks; nothing else
      of the text changes. */
  lemma {:induction false} BoundIsWoven(text: Value -> string, m: Mode, s: string, params: seq<Value>)
    requires |params| == Count(m, s)
    ensures exists stretches :: Weaves(text, m, s, params, stretches)
    decreases |s|
  {
    hide Weaves;
    if s == [] {
      NothingWeaves(text, m);
    } else {
      assert s == [s[0]] + s[1..];
      CountStep(m, s[0], s[1..]);
      if m.Out? && s[0] == '?' {
        BoundIsWoven(text, m, s[1..], params[1..]);
        var stretches :| Weaves(text, m, s[1..], params[1..], stretches);
        WeavesBehindMark(text, s[1..], params, stretches);
      } else {
        BoundIsWoven(text, BindStep(m, s[0]), s[1..], params);
        var stretches :| Weaves(text, BindStep(m, s[0]), s[1..], params, stretches);
        LengthOfWoven(text, BindStep(m, s[0]), s[1..], params, stretches);
        WeavesBehindChar(text, m, s[0], s[1..], params, stretches);
      }
    }
  }

  lemma NothingWeaves(text: Value -> string, m: Mode)
    ensures Weaves(text, m, "", [], [""])
  {
    WovenAlone("");
  }

  lemma LengthOfWoven(text: Value -> string, m: Mode, s: string, params: seq<Value>, stretches: seq<string>)
    requires Weaves(text, m, s, params, stretches)
    ensures |stretches| == |params| + 1
  {
  }

  lemma WovenAlone(w: string)
    ensures Woven([w], Marks(0)) == w && forall fillings :: fillings == [] ==> Woven([w], fillings) == w
  {
  }

  lemma {:induction false} WovenBehind(f: string, stretches: seq<string>, fillings: seq<string>)
    requires |stretches| == |fillings| + 1
    ensures Woven([""] + stretches, [f] + fillings) == f + Woven(stretches, fillings)
  {
    assert ([""] + stretches)[1..] == stretches && ([f] + fillings)[1..] == fillings;
    assert "" + f == f;
  }

  // ---------- statements ----------

  /** The statements are what is left of the pieces, in order: piece `at[i]`, trimmed, is statement
      `i`, and the other pieces are blank. */
  ghost predicate AreStatements(pieces: seq<string>, statements: seq<string>, at: seq<nat>) {
    && |at| == |statements|
    && (forall i, j :: 0 <= i < j < |at| ==> at[i] < at[j])
    && (forall i :: 0 <= i < |at| ==> at[i] < |pieces| && Trim(pieces[at[i]]) == statements[i] && statements[i] != "")
    && forall j: nat :: j < |pieces| && j !in at ==> Trim(pieces[j]) == ""
  }

  lemma {:induction false} StatementsAre(pieces: seq<string>) returns (at: seq<nat>)
    ensures AreStatements(pieces, Statements(pieces), at)
    decreases |pieces|
  {
    hide Trim;
    at := [];
    if pieces != [] {
      var n := |pieces| - 1;
      var front, p := pieces[..n], pieces[n];
      assert pieces == front + [p];
      at := StatementsAre(front);
      StatementsSnoc(front, p);
      if Trim(p) != "" { at := OneMoreStatement(front, p, Statements(front), at); }
    }
  }

  lemma OneMoreStatement(front: seq<string>, p: string, statements: seq<string>, at: seq<nat>) returns (more: seq<nat>)
    requires AreStatements(front, statements, at) && Trim(p) != ""
    ensures AreStatements(front + [p], statements + [Trim(p)], more)
  {
    hide Trim;
    more := at + [|front|];
    assert more[|at|] == |front|;
    forall j: nat | j < |front + [p]| && j !in more ensures Trim((front + [p])[j]) == "" {
      assert j !in at;
    }
  }
}
