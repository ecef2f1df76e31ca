/** JSON path text: the parser, the printer, and when a printed path reads back. */
module JsonPath {
  import opened Wrappers
  import opened Json
  import opened Text

  // ---------- grammar of one path ----------

  predicate IsQuote(c: char) { c == '"' || c == '\'' }

  /** Length of the unquoted key at the front of `s`. */
  function PlainLength(s: string): (n: nat)
    ensures n <= |s|
    ensures forall i :: 0 <= i < n ==> s[i] != '.' && s[i] != '['
    ensures n < |s| ==> s[n] == '.' || s[n] == '['
  {
    if s == [] || s[0] == '.' || s[0] == '[' then 0 else 1 + PlainLength(s[1..])
  }

  /** Length of the text before the first closing bracket. */
  function BracketLength(s: string): (n: nat)
    ensures n <= |s|
    ensures forall i :: 0 <= i < n ==> s[i] != ']'
    ensures n < |s| ==> s[n] == ']'
  {
    if s == [] || s[0] == ']' then 0 else 1 + BracketLength(s[1..])
  }

  /** The text up to the closing quote, with backslash escapes undone, and how much was consumed. */
  function QuotedBody(s: string, quote: char): (r: Option<(string, nat)>)
    ensures r.Some? ==> 1 <= r.value.1 <= |s|
    decreases |s|
  {
    if s == [] then None
    else if s[0] == quote then Some(("", 1))
    else if s[0] == '\\' then
      if |s| == 1 then None
      else
        match QuotedBody(s[2..], quote)
        case None => None
        case Some(r) => Some(([s[1]] + r.0, r.1 + 2))
    else
      match QuotedBody(s[1..], quote)
      case None => None
      case Some(r) => Some(([s[0]] + r.0, r.1 + 1))
  }

  /** The token after a dot, and the length consumed including the dot. */
  function DotToken(s: string): (r: Option<(Token, nat)>)
    requires s != [] && s[0] == '.'
    ensures r.Some? ==> 1 <= r.value.1 <= |s|
  {
    if |s| > 1 && s[1] == '*' then
      if |s| > 2 && s[2] == '*' then Some((Recursive, 3)) else Some((Wildcard, 2))
    else if |s| > 1 && IsQuote(s[1]) then
      match QuotedBody(s[2..], s[1])
      case None => None
      case Some(r) => Some((Key(r.0), r.1 + 2))
    else
      var n := PlainLength(s[1..]);
      if n == 0 then None else Some((Key(s[1..1 + n]), 1 + n))
  }

  /** `token`, provided a closing bracket stands at `at`. */
  function Closed(s: string, at: nat, token: Token): Option<(Token, nat)> {
    if at < |s| && s[at] == ']' then Some((token, at + 1)) else None
  }

  function BracketToken(s: string): (r: Option<(Token, nat)>)
    requires s != [] && s[0] == '['
    ensures r.Some? ==> 1 <= r.value.1 <= |s|
  {
    if |s| > 1 && s[1] == '*' then
      if |s| > 2 && s[2] == '*' then Closed(s, 3, Recursive) else Closed(s, 2, Wildcard)
    else if |s| > 1 && IsQuote(s[1]) then
      match QuotedBody(s[2..], s[1])
      case None => None
      case Some(r) => Closed(s, r.1 + 2, Key(r.0))
    else
      var n := BracketLength(s[1..]);
      if 1 + n == |s| then None
      else
        match ParseUsize(Trim(s[1..1 + n]))
        case None => None
        case Some(i) => Some((Index(i), n + 2))
  }

  function NextToken(s: string): (r: Option<(Token, nat)>)
    requires s != []
    ensures r.Some? ==> 1 <= r.value.1 <= |s|
  {
    if s[0] == '.' then DotToken(s) else if s[0] == '[' then BracketToken(s) else None
  }

  function ParseTokens(s: string): Option<seq<Token>>
    decreases |s|
  {
    if s == [] then Some([])
    else
      match NextToken(s)
      case None => None
      case Some(t) =>
        match ParseTokens(s[t.1..])
        case None => None
        case Some(rest) => Some([t.0] + rest)
  }

  function ParsePath(path: string): Option<seq<Token>> {
    var s := Trim(path);
    if s == [] || s[0] != '$' then None else ParseTokens(s[1..])
  }

  // ---------- the parser's loops ----------

  method TakeQuoted(s: string, start: nat) returns (r: Option<(string, nat)>)
    requires start < |s|
    ensures r == match QuotedBody(s[start + 1..], s[start])
                 case None => None
                 case Some(q) => Some((q.0, start + 1 + q.1))
  {
    var quote, out, at := s[start], "", start + 1;
    ghost var goal := QuotedBody(s[at..], quote);
    assert forall t: string :: [] + t == t;
    hide QuotedBody;
    while at < |s|
      invariant start + 1 <= at <= |s|
      invariant goal == match QuotedBody(s[at..], quote)
                        case None => None
                        case Some(q) => Some((out + q.0, at - start - 1 + q.1))
      decreases |s| - at
    {
      QuotedCases(s, at, quote);
      var ch := s[at];
      at := at + 1;
      if ch == quote {
        assert out + "" == out;
        return Some((out, at));
      }
      if ch == '\\' {
        if at < |s| {
          assert forall t: string :: out + ([s[at]] + t) == (out + [s[at]]) + t;
          out := out + [s[at]];
          at := at + 1;
        } else {
          out := out + ['\\'];
        }
      } else {
        assert forall t: string :: out + ([ch] + t) == (out + [ch]) + t;
        out := out + [ch];
      }
    }
    assert QuotedBody(s[|s|..], quote).None? by { QuotedNothing(s, quote); }
    return None;
  }

  lemma {:induction false} QuotedNothing(s: string, quote: char)
    ensures QuotedBody(s[|s|..], quote).None?
  {
  }

  lemma {:induction false} QuotedCases(s: string, at: nat, quote: char)
    requires at < |s|
    ensures QuotedBody(s[at..], quote)
         == if s[at] == quote then Some(("", 1))
            else if s[at] == '\\' then
              (if at + 1 == |s| then None
               else match QuotedBody(s[at + 2..], quote) case None => None case Some(r) => Some(([s[at + 1]] + r.0, r.1 + 2)))
            else match QuotedBody(s[at + 1..], quote) case None => None case Some(r) => Some(([s[at]] + r.0, r.1 + 1))
    ensures s[at] == '\\' && s[at] != quote && at + 1 == |s| ==> QuotedBody(s[at + 1..], quote).None?
  {
    assert s[at..][1..] == s[at + 1..];
    if at + 2 <= |s| { assert s[at..][2..] == s[at + 2..]; }
  }

  /** The end of the run of characters from `start` that stay clear of `stop1` and `stop2`. */
  method ScanTo(s: string, start: nat, stop1: char, stop2: char) returns (at: nat)
    requires start <= |s|
    ensures start <= at <= |s| && forall i :: start <= i < at ==> s[i] != stop1 && s[i] != stop2
    ensures at < |s| ==> s[at] == stop1 || s[at] == stop2
  {
    at := start;
    while at < |s| && s[at] != stop1 && s[at] != stop2
      invariant start <= at <= |s| && forall i :: start <= i < at ==> s[i] != stop1 && s[i] != stop2
    {
      at := at + 1;
    }
  }

  lemma {:induction false} PlainLengthIs(s: string, n: nat)
    requires n <= |s| && (forall i :: 0 <= i < n ==> s[i] != '.' && s[i] != '[')
    requires n < |s| ==> s[n] == '.' || s[n] == '['
    ensures PlainLength(s) == n
  {
    if n > 0 { PlainLengthIs(s[1..], n - 1); }
  }

  lemma {:induction false} BracketLengthIs(s: string, n: nat)
    requires n <= |s| && (forall i :: 0 <= i < n ==> s[i] != ']')
    requires n < |s| ==> s[n] == ']'
    ensures BracketLength(s) == n
  {
    if n > 0 { BracketLengthIs(s[1..], n - 1); }
  }

  /** `t` was read from `s[at..]`: counted from the start of `s`. */
  function Shifted(t: Option<(Token, nat)>, at: nat): Option<(Token, nat)> {
    match t
    case None => None
    case Some(t) => Some((t.0, at + t.1))
  }

  method TakeStar(s: string, at: nat) returns (r: Option<(Token, nat)>)
    requires at + 1 < |s| && (s[at] == '.' || s[at] == '[') && s[at + 1] == '*'
    ensures r == Shifted(NextToken(s[at..]), at)
  {
    var token, after := Wildcard, at + 2;
    if after < |s| && s[after] == '*' { token, after := Recursive, after + 1; }
    if s[at] == '[' {
      if after == |s| || s[after] != ']' { return None; }
      after := after + 1;
    }
    return Some((token, after));
  }

  method TakeQuotedKey(s: string, at: nat) returns (r: Option<(Token, nat)>)
    requires at + 1 < |s| && (s[at] == '.' || s[at] == '[') && IsQuote(s[at + 1])
    ensures r == Shifted(NextToken(s[at..]), at)
  {
    hide QuotedBody;
    assert s[at..][2..] == s[at + 2..];
    var part := TakeQuoted(s, at + 1);
    if part.None? { return None; }
    var after := part.value.1;
    if s[at] == '[' {
      if after == |s| || s[after] != ']' { return None; }
      after := after + 1;
    }
    return Some((Key(part.value.0), after));
  }

  method TakePlainKey(s: string, at: nat) returns (r: Option<(Token, nat)>)
    requires at < |s| && s[at] == '.' && (at + 1 < |s| ==> s[at + 1] != '*' && !IsQuote(s[at + 1]))
    ensures r == Shifted(NextToken(s[at..]), at)
  {
    var next := at + 1;
    var end := ScanTo(s, next, '.', '[');
    assert s[at..][1..] == s[next..];
    PlainLengthIs(s[next..], end - next);
    hide PlainLength, QuotedBody, BracketToken;
    if end == next { return None; }
    assert s[at..][1..1 + (end - next)] == s[next..end];
    return Some((Key(s[next..end]), end));
  }

  method TakeIndex(s: string, at: nat) returns (r: Option<(Token, nat)>)
    requires at < |s| && s[at] == '[' && (at + 1 < |s| ==> s[at + 1] != '*' && !IsQuote(s[at + 1]))
    ensures r == Shifted(NextToken(s[at..]), at)
  {
    var next := at + 1;
    var end := ScanTo(s, next, ']', ']');
    assert s[at..][1..] == s[next..];
    BracketLengthIs(s[next..], end - next);
    hide BracketLength, QuotedBody, DotToken, ParseUsize, Trim;
    if end == |s| { return None; }
    assert s[at..][1..1 + (end - next)] == s[next..end];
    var index := ParseUsize(Trim(s[next..end]));
    if index.None? { return None; }
    return Some((Index(index.value), end + 1));
  }

  /** One token of `s` at `at`, and where the next one starts. */
  method TakeToken(s: string, at: nat) returns (r: Option<(Token, nat)>)
    requires at < |s|
    ensures r == Shifted(NextToken(s[at..]), at)
  {
    hide DotToken, BracketToken;
    if s[at] != '.' && s[at] != '[' { return None; }
    if at + 1 < |s| && s[at + 1] == '*' {
      r := TakeStar(s, at);
    } else if at + 1 < |s| && IsQuote(s[at + 1]) {
      r := TakeQuotedKey(s, at);
    } else if s[at] == '.' {
      r := TakePlainKey(s, at);
    } else {
      r := TakeIndex(s, at);
    }
  }

  method ParseJsonPath(path: string) returns (r: Option<seq<Token>>)
    ensures r == ParsePath(path)
  {
    hide NextToken;
    var s := Trim(path);
    if s == [] || s[0] != '$' { return None; }
    var tokens: seq<Token> := [];
    var at: nat := 1;
    ghost var goal := ParseTokens(s[1..]);
    assert forall rest: seq<Token> :: [] + rest == rest;
    while at < |s|
      invariant 1 <= at <= |s|
      invariant goal == match ParseTokens(s[at..])
                        case None => None
                        case Some(rest) => Some(tokens + rest)
    {
      var token := TakeToken(s, at);
      if token.None? { return None; }
      assert s[at..][token.value.1 - at..] == s[token.value.1..];
      assert forall rest: seq<Token> :: tokens + ([token.value.0] + rest) == (tokens + [token.value.0]) + rest;
      tokens, at := tokens + [token.value.0], token.value.1;
    }
    assert s[at..] == [] && tokens + [] == tokens;
    return Some(tokens);
  }

  // ---------- the printer ----------

  function PrintToken(token: Token): (r: string)
    ensures r != [] && (r[0] == '.' || r[0] == '[')
  {
    match token
    case Key(k) => "." + k
    case Index(i) => "[" + NatText(i) + "]"
    case Wildcard => "[*]"
    case Recursive => ".**"
  }

  function PrintTokens(tokens: seq<Token>): (r: string)
    ensures r == [] || r[0] == '.' || r[0] == '['
  {
    if tokens == [] then "" else PrintToken(tokens[0]) + PrintTokens(tokens[1..])
  }

  function Print(tokens: seq<Token>): string { "$" + PrintTokens(tokens) }

  /** A key that reads back as itself when written without quotes. */
  predicate PlainKey(k: string) {
    k != [] && k[0] != '*' && !IsQuote(k[0]) && forall i :: 0 <= i < |k| ==> k[i] != '.' && k[i] != '['
  }

  predicate PrintableToken(token: Token) {
    match token
    case Key(k) => PlainKey(k)
    case Index(i) => i < USIZE_LIMIT
    case Wildcard => true
    case Recursive => true
  }

  predicate EndsInWhitespace(tokens: seq<Token>) {
    tokens != [] && tokens[|tokens| - 1].Key?
    && tokens[|tokens| - 1].key != [] && IsWhitespace(tokens[|tokens| - 1].key[|tokens[|tokens| - 1].key| - 1])
  }

  /** Every token reads back, and trimming the path takes nothing away. */
  predicate Printable(tokens: seq<Token>) {
    (forall i :: 0 <= i < |tokens| ==> PrintableToken(tokens[i])) && !EndsInWhitespace(tokens)
  }

  lemma NextOfPrintedKey(k: string, rest: string)
    requires PlainKey(k) && (rest == [] || rest[0] == '.' || rest[0] == '[')
    ensures NextToken("." + k + rest) == Some((Key(k), 1 + |k|))
  {
    var s := "." + k + rest;
    assert s[1..] == k + rest && s[1] == k[0];
    PlainLengthIs(s[1..], |k|);
    assert s[1..1 + |k|] == k;
  }

  lemma BracketedText(digits: string, rest: string)
    requires digits != [] && forall i :: 0 <= i < |digits| ==> digits[i] != ']'
    ensures var s := "[" + digits + "]" + rest;
            s[1] == digits[0] && BracketLength(s[1..]) == |digits| && s[1..1 + |digits|] == digits
  {
    var s := "[" + digits + "]" + rest;
    assert s[1..] == digits + "]" + rest;
    BracketLengthIs(s[1..], |digits|);
  }

  lemma {:induction false} NextOfPrintedIndex(i: nat, rest: string)
    ensures var digits := NatText(i);
            NextToken("[" + digits + "]" + rest) == if i < USIZE_LIMIT then Some((Index(i), |digits| + 2)) else None
  {
    var digits := NatText(i);
    ParseUsizeOfNatText(i);
    hide QuotedBody, NatText, BracketLength, ParseUsize, Trim;
    BracketedText(digits, rest);
    var s := "[" + digits + "]" + rest;
    assert !IsQuote(s[1]) && s[1] != '*' by { assert IsDigit(digits[0]); }
  }

  lemma NextOfPrinted(token: Token, rest: string)
    requires PrintableToken(token) && (rest == [] || rest[0] == '.' || rest[0] == '[')
    ensures NextToken(PrintToken(token) + rest) == Some((token, |PrintToken(token)|))
  {
    match token
    case Key(k) => NextOfPrintedKey(k, rest);
    case Index(i) => NextOfPrintedIndex(i, rest);
    case Wildcard => 
    case Recursive =>
  }

  lemma {:induction false} ParsePrintedTokens(tokens: seq<Token>)
    requires forall i :: 0 <= i < |tokens| ==> PrintableToken(tokens[i])
    ensures ParseTokens(PrintTokens(tokens)) == Some(tokens)
  {
    if tokens != [] {
      var rest := PrintTokens(tokens[1..]);
      ParsePrintedTokens(tokens[1..]);
      NextOfPrinted(tokens[0], rest);
      assert [tokens[0]] + tokens[1..] == tokens;
      assert (PrintToken(tokens[0]) + rest)[|PrintToken(tokens[0])|..] == rest;
    }
  }

  lemma {:induction false} PrintTokensSnoc(tokens: seq<Token>)
    requires tokens != []
    ensures PrintTokens(tokens) == PrintTokens(tokens[..|tokens| - 1]) + PrintToken(tokens[|tokens| - 1])
    decreases |tokens|
  {
    if |tokens| > 1 {
      PrintTokensSnoc(tokens[1..]);
      assert tokens[1..][..|tokens| - 2] == tokens[..|tokens| - 1][1..];
    }
  }

  lemma LastOfPrinted(tokens: seq<Token>)
    requires tokens != []
    requires tokens[|tokens| - 1].Key? ==> tokens[|tokens| - 1].key != []
    ensures |Print(tokens)| > 1
    ensures IsWhitespace(Print(tokens)[|Print(tokens)| - 1]) <==> EndsInWhitespace(tokens)
  {
    var last := PrintToken(tokens[|tokens| - 1]);
    PrintTokensSnoc(tokens);
    assert Print(tokens)[|Print(tokens)| - 1] == last[|last| - 1];
  }

  /** Parsing a printed path returns its tokens. */
  lemma ParsePrinted(tokens: seq<Token>)
    requires Printable(tokens)
    ensures ParsePath(Print(tokens)) == Some(tokens)
  {
    if tokens != [] { LastOfPrinted(tokens); }
    TrimKeepsTight(Print(tokens));
    assert Print(tokens)[1..] == PrintTokens(tokens);
    ParsePrintedTokens(tokens);
  }

  predicate LeadingQuote(token: Token) { token.Key? && token.key != [] && IsQuote(token.key[0]) }

  lemma OnlyPlainKeysReadBack(k: string, rest: string, s: string)
    requires s != [] && s <= "." + k + rest && !LeadingQuote(Key(k))
    requires rest == [] || rest[0] == '.' || rest[0] == '['
    requires NextToken(s).Some? && NextToken(s).value.0 == Key(k)
    ensures PlainKey(k) && NextToken(s).value.1 == 1 + |k| <= |s|
  {
    var full := "." + k + rest;
    assert full[1..] == k + rest;
    if |s| > 1 { assert s[1] == full[1] == (k + rest)[0]; }
    assert k == s[1..1 + PlainLength(s[1..])];
  }

  lemma CutIndexDoesNotRead(digits: string, full: string, s: string)
    requires digits != [] && forall i :: 0 <= i < |digits| ==> IsDigit(digits[i])
    requires s != [] && s <= full && "[" + digits <= full && |s| < |digits| + 2
    ensures NextToken(s).None?
  {
    forall j | 1 <= j < |s| ensures IsDigit(s[j]) {
      assert s[j] == full[j] == ("[" + digits)[j];
    }
    BracketLengthIs(s[1..], |s| - 1);
  }

  lemma {:induction false} OnlyWholeIndexesReadBack(i: nat, rest: string, s: string)
    requires s != [] && s <= "[" + NatText(i) + "]" + rest
    requires NextToken(s).Some? && NextToken(s).value.0 == Index(i)
    ensures i < USIZE_LIMIT && NextToken(s).value.1 == |NatText(i)| + 2 <= |s|
  {
    var digits := NatText(i);
    var full := "[" + digits + "]" + rest;
    if |s| < |digits| + 2 { CutIndexDoesNotRead(digits, full, s); }
    var tail := s[|digits| + 2..];
    assert s == "[" + digits + "]" + tail by { assert s == full[..|s|]; }
    NextOfPrintedIndex(i, tail);
  }

  predicate QuoteOrSlash(c: char, quote: char) { c == quote || c == '\\' }

  /** In a quoted body a quote or a backslash takes an escape, so two characters each. */
  lemma {:induction false} EscapesInFront(w: string, quote: char, m: nat)
    requires IsQuote(quote) && QuotedBody(w, quote).Some? && m <= |QuotedBody(w, quote).value.0|
    requires forall i :: 0 <= i < m ==> QuoteOrSlash(QuotedBody(w, quote).value.0[i], quote)
    ensures 2 * m <= |w| && forall j :: 0 <= j < 2 * m ==> QuoteOrSlash(w[j], quote)
    decreases m
  {
    if m > 0 {
      var body := QuotedBody(w, quote).value.0;
      assert QuoteOrSlash(body[0], quote);
      assert w[0] == '\\' && w[1] == body[0];
      assert body[1..] == QuotedBody(w[2..], quote).value.0;
      forall i | 0 <= i < m - 1 ensures QuoteOrSlash(body[1..][i], quote) { assert body[1..][i] == body[i + 1]; }
      EscapesInFront(w[2..], quote, m - 1);
      forall j | 0 <= j < 2 * m ensures QuoteOrSlash(w[j], quote) {
        if j >= 2 { assert w[j] == w[2..][j - 2]; }
      }
    }
  }

  /** A key that is its own quoted text, less the first quote, would have to consist of quotes and
      backslashes only. */
  lemma {:induction false} OnlyQuotesAndSlashes(k: string, w: string, rest: string, m: nat)
    requires LeadingQuote(Key(k)) && w <= k[1..] + rest && m <= |k|
    requires QuotedBody(w, k[0]).Some? && QuotedBody(w, k[0]).value.0 == k
    ensures forall i :: 0 <= i < m ==> QuoteOrSlash(k[i], k[0])
    decreases m
  {
    if m > 1 {
      OnlyQuotesAndSlashes(k, w, rest, m - 1);
      EscapesInFront(w, k[0], m - 1);
      assert w[m - 2] == (k[1..] + rest)[m - 2] == k[m - 1];
    }
  }

  /** Its escapes would run on beyond the key. */
  lemma {:induction false} EscapesRunOn(k: string, w: string, rest: string)
    requires LeadingQuote(Key(k)) && w <= k[1..] + rest
    requires QuotedBody(w, k[0]).Some? && QuotedBody(w, k[0]).value.0 == k
    ensures rest != [] && QuoteOrSlash(rest[0], k[0])
  {
    OnlyQuotesAndSlashes(k, w, rest, |k|);
    EscapesInFront(w, k[0], |k|);
    assert w[|k| - 1] == (k[1..] + rest)[|k| - 1];
  }

  /** A key with a leading quote never reads back as itself. */
  lemma QuotedKeysDoNotReadBack(k: string, rest: string, s: string)
    requires s != [] && s <= "." + k + rest && LeadingQuote(Key(k))
    requires rest == [] || rest[0] == '.' || rest[0] == '['
    ensures NextToken(s).None? || NextToken(s).value.0 != Key(k)
  {
    var full := "." + k + rest;
    assert full[1] == k[0] && full[2..] == k[1..] + rest;
    if |s| > 1 {
      var w := s[2..];
      assert s == full[..|s|];
      assert w <= k[1..] + rest;
      if QuotedBody(w, k[0]).Some? && QuotedBody(w, k[0]).value.0 == k { EscapesRunOn(k, w, rest); }
    }
  }

  /** One token read back from a prefix of its own printed form was printed as a readable token,
      and the prefix contains all of it. */
  lemma OnlyReadableTokensReadBack(token: Token, rest: string, s: string)
    requires s != [] && s <= PrintToken(token) + rest
    requires rest == [] || rest[0] == '.' || rest[0] == '['
    requires NextToken(s).Some? && NextToken(s).value.0 == token
    ensures PrintableToken(token) && NextToken(s).value.1 == |PrintToken(token)| <= |s|
  {
    match token
    case Key(k) =>
      if LeadingQuote(token) { QuotedKeysDoNotReadBack(k, rest, s); }
      OnlyPlainKeysReadBack(k, rest, s);
    case Index(i) => OnlyWholeIndexesReadBack(i, rest, s);
    case Wildcard =>
      var full := "[*]" + rest;
      assert s == full[..|s|];
    case Recursive =>
      var full := ".**" + rest;
      assert s == full[..|s|];
  }

  lemma {:induction false} OnlyPrintableReadsBack(tokens: seq<Token>, s: string)
    requires s <= PrintTokens(tokens) && ParseTokens(s) == Some(tokens)
    ensures s == PrintTokens(tokens) && forall i :: 0 <= i < |tokens| ==> PrintableToken(tokens[i])
    decreases |tokens|
  {
    if tokens != [] {
      var rest := PrintTokens(tokens[1..]);
      var next := NextToken(s).value;
      assert tokens == [next.0] + ParseTokens(s[next.1..]).value;
      OnlyReadableTokensReadBack(tokens[0], rest, s);
      var tail := s[next.1..];
      assert tail <= rest by {
        assert s == (PrintToken(tokens[0]) + rest)[..|s|];
        assert tail == rest[..|tail|];
      }
      OnlyPrintableReadsBack(tokens[1..], tail);
      assert s == PrintToken(tokens[0]) + tail;
    }
  }

  /** A printed path reads back exactly when it is printable. */
  lemma RoundTripIffPrintable(tokens: seq<Token>)
    ensures ParsePath(Print(tokens)) == Some(tokens) <==> Printable(tokens)
  {
    if Printable(tokens) { ParsePrinted(tokens); }
    if ParsePath(Print(tokens)) == Some(tokens) {
      var path := Print(tokens);
      assert TrimStart(path) == path;
      var s := Trim(path);
      assert s == path[..|s|];
      assert s[1..] <= path[1..] && path[1..] == PrintTokens(tokens);
      OnlyPrintableReadsBack(tokens, s[1..]);
      assert s == path;
      if tokens != [] {
        LastOfPrinted(tokens);
        assert !IsWhitespace(path[|path| - 1]);
      }
    }
  }
}
