/** Which texts are JSON paths, and what they mean: the spellings of each token, one after the other. */
module PathSpelling {
  import opened Wrappers
  import opened Json
  import opened Text
  import opened JsonPath

  /** One character inside quotes, as it is or behind a backslash. */
  datatype Unit = Bare(c: char) | Escaped(c: char)

  function UnitText(u: Unit): string { if u.Bare? then [u.c] else ['\\', u.c] }

  function UnitsText(units: seq<Unit>): string { if units == [] then "" else UnitText(units[0]) + UnitsText(units[1..]) }

  function UnitsMean(units: seq<Unit>): string { if units == [] then "" else [units[0].c] + UnitsMean(units[1..]) }

  /** The quote and the backslash do not stand bare. */
  predicate Quotable(units: seq<Unit>, quote: char) {
    forall i :: 0 <= i < |units| && units[i].Bare? ==> units[i].c != quote && units[i].c != '\\'
  }

  /** The ways to write one step of a path. */
  datatype Step =
    | DotKey(key: string)
    | DotStar
    | DotStars
    | DotQuoted(quote: char, units: seq<Unit>)
    | BracketStar
    | BracketStars
    | BracketQuoted(quote: char, units: seq<Unit>)
    | BracketIndex(digits: string)

  function StepText(step: Step): string {
    match step
    case DotKey(k) => "." + k
    case DotStar => ".*"
    case DotStars => ".**"
    case DotQuoted(q, units) => "." + [q] + UnitsText(units) + [q]
    case BracketStar => "[*]"
    case BracketStars => "[**]"
    case BracketQuoted(q, units) => "[" + [q] + UnitsText(units) + [q] + "]"
    case BracketIndex(digits) => "[" + digits + "]"
  }

  /** The step may be written so, with `next` behind it. */
  predicate Spells(step: Step, next: string) {
    match step
    case DotKey(k) => PlainKey(k) && (next == [] || next[0] == '.' || next[0] == '[')
    case DotStar => next == [] || next[0] != '*'
    case DotStars => true
    case DotQuoted(q, units) => IsQuote(q) && Quotable(units, q)
    case BracketStar => true
    case BracketStars => true
    case BracketQuoted(q, units) => IsQuote(q) && Quotable(units, q)
    case BracketIndex(digits) =>
      digits != [] && digits[0] != '*' && !IsQuote(digits[0]) && ']' !in digits && ParseUsize(Trim(digits)).Some?
  }

  function Meaning(step: Step, next: string): Token
    requires Spells(step, next)
  {
    match step
    case DotKey(k) => Key(k)
    case DotStar => Wildcard
    case DotStars => Recursive
    case DotQuoted(_, units) => Key(UnitsMean(units))
    case BracketStar => Wildcard
    case BracketStars => Recursive
    case BracketQuoted(_, units) => Key(UnitsMean(units))
    case BracketIndex(digits) => Index(ParseUsize(Trim(digits)).value)
  }

  function StepsText(steps: seq<Step>): string { if steps == [] then "" else StepText(steps[0]) + StepsText(steps[1..]) }

  predicate Spelled(steps: seq<Step>) { steps == [] || (Spells(steps[0], StepsText(steps[1..])) && Spelled(steps[1..])) }

  function Meanings(steps: seq<Step>): seq<Token>
    requires Spelled(steps)
  {
    if steps == [] then [] else [Meaning(steps[0], StepsText(steps[1..]))] + Meanings(steps[1..])
  }

  // ---------- spelled steps are read ----------

  lemma {:induction false} UnitsAreRead(units: seq<Unit>, quote: char, rest: string)
    requires IsQuote(quote) && Quotable(units, quote)
    ensures QuotedBody(UnitsText(units) + [quote] + rest, quote) == Some((UnitsMean(units), |UnitsText(units)| + 1))
  {
    var s := UnitsText(units) + [quote] + rest;
    if units != [] {
      var more := UnitsText(units[1..]) + [quote] + rest;
      UnitsAreRead(units[1..], quote, rest);
      assert s == UnitText(units[0]) + more;
      assert units[0].Bare? ==> s[1..] == more;
      assert units[0].Escaped? ==> s[2..] == more;
    }
  }

  lemma QuotedToken(s: string, k: string, n: nat)
    requires |s| > 1 && IsQuote(s[1]) && QuotedBody(s[2..], s[1]) == Some((k, n))
    ensures s[0] == '.' ==> NextToken(s) == Some((Key(k), n + 2))
    ensures s[0] == '[' ==> NextToken(s) == if n + 2 < |s| && s[n + 2] == ']' then Some((Key(k), n + 3)) else None
  {
    hide QuotedBody;
  }

  lemma {:induction false} QuotedPartOf(c: char, quote: char, units: seq<Unit>, next: string)
    requires IsQuote(quote) && Quotable(units, quote)
    ensures var s := [c, quote] + (UnitsText(units) + [quote] + next);
            QuotedBody(s[2..], quote) == Some((UnitsMean(units), |UnitsText(units)| + 1)) && s[2 + |UnitsText(units)| + 1..] == next
  {
    UnitsAreRead(units, quote, next);
    hide QuotedBody, UnitsText, UnitsMean, Quotable;
    var body := UnitsText(units) + [quote] + next;
    assert ([c, quote] + body)[2..] == body;
  }

  lemma {:induction false} DotQuotedIsRead(quote: char, units: seq<Unit>, next: string)
    requires IsQuote(quote) && Quotable(units, quote)
    ensures NextToken(StepText(DotQuoted(quote, units)) + next) == Some((Key(UnitsMean(units)), |UnitsText(units)| + 3))
  {
    hide QuotedBody, UnitsText, UnitsMean, Quotable, NextToken;
    var s := ['.', quote] + (UnitsText(units) + [quote] + next);
    assert StepText(DotQuoted(quote, units)) + next == s;
    hide StepText;
    QuotedPartOf('.', quote, units, next);
    QuotedToken(s, UnitsMean(units), |UnitsText(units)| + 1);
  }

  lemma {:induction false} BracketQuotedIsRead(quote: char, units: seq<Unit>, next: string)
    requires IsQuote(quote) && Quotable(units, quote)
    ensures NextToken(StepText(BracketQuoted(quote, units)) + next) == Some((Key(UnitsMean(units)), |UnitsText(units)| + 4))
  {
    hide QuotedBody, UnitsText, UnitsMean, Quotable, NextToken;
    var s := ['[', quote] + (UnitsText(units) + [quote] + ("]" + next));
    assert StepText(BracketQuoted(quote, units)) + next == s;
    hide StepText;
    QuotedPartOf('[', quote, units, "]" + next);
    assert s[|UnitsText(units)| + 3] == ']';
    QuotedToken(s, UnitsMean(units), |UnitsText(units)| + 1);
  }

  lemma IndexStepIsRead(digits: string, next: string)
    requires Spells(BracketIndex(digits), next)
    ensures NextToken(StepText(BracketIndex(digits)) + next) == Some((Meaning(BracketIndex(digits), next), |digits| + 2))
  {
    hide ParseUsize, Trim, QuotedBody;
    var s := "[" + digits + "]" + next;
    assert s[1..] == digits + "]" + next && s[1] == digits[0];
    BracketLengthIs(s[1..], |digits|);
    assert s[1..1 + |digits|] == digits;
  }

  lemma StarIsRead(step: Step, next: string)
    requires Spells(step, next) && (step.DotStar? || step.DotStars? || step.BracketStar? || step.BracketStars?)
    ensures NextToken(StepText(step) + next) == Some((Meaning(step, next), |StepText(step)|))
  {
  }

  lemma StepIsRead(step: Step, next: string)
    requires Spells(step, next)
    ensures NextToken(StepText(step) + next) == Some((Meaning(step, next), |StepText(step)|))
  {
    hide NextToken;
    match step {
      case DotKey(k) => NextOfPrintedKey(k, next);
      case DotQuoted(q, units) => DotQuotedIsRead(q, units, next);
      case BracketQuoted(q, units) => BracketQuotedIsRead(q, units, next);
      case BracketIndex(digits) => IndexStepIsRead(digits, next);
      case _ => StarIsRead(step, next);
    }
  }

  lemma {:induction false} StepsAreRead(steps: seq<Step>)
    requires Spelled(steps)
    ensures ParseTokens(StepsText(steps)) == Some(Meanings(steps))
  {
    hide NextToken, StepText, Spells;
    if steps != [] {
      var next := StepsText(steps[1..]);
      StepsAreRead(steps[1..]);
      StepIsRead(steps[0], next);
      assert (StepText(steps[0]) + next)[|StepText(steps[0])|..] == next;
    }
  }

  // ---------- what is read is spelled ----------

  lemma {:induction false} ReadUnits(s: string, quote: char) returns (units: seq<Unit>)
    requires IsQuote(quote) && QuotedBody(s, quote).Some?
    ensures var (body, n) := QuotedBody(s, quote).value;
            Quotable(units, quote) && UnitsMean(units) == body && n == |UnitsText(units)| + 1 && s[..n] == UnitsText(units) + [quote]
    decreases |s|
  {
    if s[0] == quote { return []; }
    var unit, left := ReadUnit(s, quote);
    var more := ReadUnits(left, quote);
    hide QuotedBody;
    units := MoreUnits(unit, more, quote);
    var m := QuotedBody(left, quote).value.1;
    assert (UnitText(unit) + left)[..|UnitText(unit)| + m] == UnitText(unit) + left[..m];
  }

  lemma ReadUnit(s: string, quote: char) returns (unit: Unit, left: string)
    requires IsQuote(quote) && s != [] && s[0] != quote && QuotedBody(s, quote).Some?
    ensures s == UnitText(unit) + left && (unit.Bare? ==> unit.c != quote && unit.c != '\\')
    ensures QuotedBody(left, quote).Some?
    ensures QuotedBody(s, quote).value.0 == [unit.c] + QuotedBody(left, quote).value.0
    ensures QuotedBody(s, quote).value.1 == |UnitText(unit)| + QuotedBody(left, quote).value.1
  {
    unit := if s[0] == '\\' then Escaped(s[1]) else Bare(s[0]);
    left := if s[0] == '\\' then s[2..] else s[1..];
  }

  lemma MoreUnits(unit: Unit, more: seq<Unit>, quote: char) returns (units: seq<Unit>)
    requires Quotable(more, quote) && (unit.Bare? ==> unit.c != quote && unit.c != '\\')
    ensures Quotable(units, quote) && UnitsText(units) == UnitText(unit) + UnitsText(more) && UnitsMean(units) == [unit.c] + UnitsMean(more)
  {
    units := [unit] + more;
    assert units[1..] == more;
  }

  lemma ReadStar(s: string) returns (step: Step)
    requires |s| > 1 && (s[0] == '.' || s[0] == '[') && s[1] == '*' && NextToken(s).Some?
    ensures var (token, n) := NextToken(s).value;
            s[..n] == StepText(step) && Spells(step, s[n..]) && Meaning(step, s[n..]) == token
  {
    var n := NextToken(s).value.1;
    step := if s[0] == '.' then if n == 3 then DotStars else DotStar else if n == 4 then BracketStars else BracketStar;
  }

  lemma ReadQuotedStep(s: string) returns (step: Step)
    requires |s| > 1 && (s[0] == '.' || s[0] == '[') && IsQuote(s[1]) && NextToken(s).Some?
    ensures var (token, n) := NextToken(s).value;
            s[..n] == StepText(step) && Spells(step, s[n..]) && Meaning(step, s[n..]) == token
  {
    QuotedPartIsRead(s);
    var units := ReadUnits(s[2..], s[1]);
    hide QuotedBody, Quotable, NextToken, UnitsText, UnitsMean;
    var m := |UnitsText(units)| + 1;
    QuotedToken(s, UnitsMean(units), m);
    QuotedStepText(s, units, m);
    hide StepText;
    step := if s[0] == '.' then DotQuoted(s[1], units) else BracketQuoted(s[1], units);
  }

  lemma QuotedPartIsRead(s: string)
    requires |s| > 1 && (s[0] == '.' || s[0] == '[') && IsQuote(s[1]) && NextToken(s).Some?
    ensures QuotedBody(s[2..], s[1]).Some?
  {
    hide QuotedBody;
  }

  lemma {:induction false} QuotedStepText(s: string, units: seq<Unit>, m: nat)
    requires |s| >= 2 + m && s[2..][..m] == UnitsText(units) + [s[1]]
    ensures s[0] == '.' ==> s[..2 + m] == StepText(DotQuoted(s[1], units))
    ensures s[0] == '[' && |s| > 2 + m && s[2 + m] == ']' ==> s[..3 + m] == StepText(BracketQuoted(s[1], units))
  {
    hide UnitsText;
    assert s[..2 + m] == [s[0]] + [s[1]] + s[2..][..m];
    if |s| > 2 + m { assert s[..3 + m] == s[..2 + m] + [s[2 + m]]; }
  }

  lemma ReadBareStep(s: string) returns (step: Step)
    requires s != [] && (|s| > 1 ==> s[1] != '*' && !IsQuote(s[1])) && NextToken(s).Some?
    ensures var (token, n) := NextToken(s).value;
            s[..n] == StepText(step) && Spells(step, s[n..]) && Meaning(step, s[n..]) == token
  {
    if s[0] == '.' {
      var n := BareKey(s);
      hide NextToken, PlainKey;
      step := DotKey(s[1..n]);
      assert s[..n] == "." + s[1..n];
    } else {
      var n := BareIndex(s);
      hide NextToken, Trim, ParseUsize;
      step := BracketIndex(s[1..n - 1]);
      assert s[..n] == "[" + s[1..n - 1] + "]";
    }
  }

  lemma BareKey(s: string) returns (n: nat)
    requires s != [] && s[0] == '.' && (|s| > 1 ==> s[1] != '*' && !IsQuote(s[1])) && NextToken(s).Some?
    ensures 1 < n <= |s| && NextToken(s) == Some((Key(s[1..n]), n)) && PlainKey(s[1..n]) && (n < |s| ==> s[n] == '.' || s[n] == '[')
  {
    hide QuotedBody;
    n := 1 + PlainLength(s[1..]);
  }

  lemma BareIndex(s: string) returns (n: nat)
    requires s != [] && s[0] == '[' && (|s| > 1 ==> s[1] != '*' && !IsQuote(s[1])) && NextToken(s).Some?
    ensures 2 < n <= |s| && s[n - 1] == ']' && ']' !in s[1..n - 1]
    ensures ParseUsize(Trim(s[1..n - 1])).Some? && NextToken(s) == Some((Index(ParseUsize(Trim(s[1..n - 1])).value), n))
  {
    EmptyIsNoIndex();
    hide QuotedBody, Trim, ParseUsize;
    var m := BracketLength(s[1..]);
    n := m + 2;
    assert s[1..n - 1] == s[1..1 + m];
  }

  lemma EmptyIsNoIndex()
    ensures ParseUsize(Trim([])).None?
  {
  }

  lemma ReadStep(s: string) returns (step: Step)
    requires s != [] && NextToken(s).Some?
    ensures var (token, n) := NextToken(s).value;
            s[..n] == StepText(step) && Spells(step, s[n..]) && Meaning(step, s[n..]) == token
  {
    hide Spells, StepText, DotToken, BracketToken;
    if |s| > 1 && s[1] == '*' {
      step := ReadStar(s);
    } else if |s| > 1 && IsQuote(s[1]) {
      step := ReadQuotedStep(s);
    } else {
      step := ReadBareStep(s);
    }
  }

  lemma {:induction false} ReadSteps(s: string) returns (steps: seq<Step>)
    requires ParseTokens(s).Some?
    ensures Spelled(steps) && StepsText(steps) == s && Meanings(steps) == ParseTokens(s).value
    decreases |s|
  {
    hide NextToken, StepText, Spells;
    if s == [] { return []; }
    var n := NextToken(s).value.1;
    var step := ReadStep(s);
    var more := ReadSteps(s[n..]);
    steps := [step] + more;
    assert steps[1..] == more && s == s[..n] + s[n..];
  }

  /** A text is a JSON path exactly when it is, trimmed, a dollar sign and spelled steps; and the
      tokens are what the steps mean. */
  lemma PathIsSpelled(path: string, tokens: seq<Token>)
    ensures ParsePath(path) == Some(tokens) <==> exists steps :: Spelled(steps) && Trim(path) == "$" + StepsText(steps) && Meanings(steps) == tokens
  {
    hide Trim, Spelled, StepsText, Meanings, ParseTokens;
    var s := Trim(path);
    if ParsePath(path) == Some(tokens) {
      var steps := ReadSteps(s[1..]);
      assert s == "$" + s[1..];
    }
    if steps :| Spelled(steps) && s == "$" + StepsText(steps) && Meanings(steps) == tokens {
      assert s[1..] == StepsText(steps);
      StepsAreRead(steps);
    }
  }
}
