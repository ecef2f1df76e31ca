/** Wildcard and recursive matching, and the path functions by path text. */
module JsonMatch {
  import opened Wrappers
  import opened Json
  import opened Text
  import opened JsonPath

  /** A match: the wildcard-free path of the node and the node. */
  datatype Found = Found(steps: seq<Token>, value: Value)

  /** In how many ways the pattern reads as this wildcard-free path: a recursive token stands for
      any number of steps, a wildcard for exactly one. */
  function Ways(pattern: seq<Token>, steps: seq<Token>): nat
    decreases |pattern|, |steps|
  {
    if pattern == [] then if steps == [] then 1 else 0
    else
      match pattern[0]
      case Recursive =>
        Ways(pattern[1..], steps) + if steps == [] then 0 else Ways(pattern, steps[1..])
      case Wildcard => if steps == [] then 0 else Ways(pattern[1..], steps[1..])
      case Key(_) => if steps == [] || steps[0] != pattern[0] then 0 else Ways(pattern[1..], steps[1..])
      case Index(_) => if steps == [] || steps[0] != pattern[0] then 0 else Ways(pattern[1..], steps[1..])
  }

  /** How often `m` belongs in the matches of `pattern` below the node at `prefix`. */
  ghost function Hits(node: Value, pattern: seq<Token>, prefix: seq<Token>, m: Found): nat {
    if prefix <= m.steps && Get(node, m.steps[|prefix|..]) == Some(m.value)
    then Ways(pattern, m.steps[|prefix|..]) else 0
  }

  /** The part of that contributed through the given child steps. */
  ghost function Through(node: Value, pattern: seq<Token>, prefix: seq<Token>, done: set<Token>, m: Found): nat {
    if |prefix| < |m.steps| && prefix <= m.steps && m.steps[|prefix|] in done && Get(node, [m.steps[|prefix|]]).Some?
    then Hits(Get(node, [m.steps[|prefix|]]).value, pattern, prefix + [m.steps[|prefix|]], m)
    else 0
  }

  function ChildSteps(node: Value): set<Token> {
    match node
    case Arr(items) => set i: nat | i < |items| :: Index(i)
    case Obj(fields) => set k | k in fields :: Key(k)
    case _ => {}
  }

  lemma {:induction false} GetStep(node: Value, steps: seq<Token>)
    requires steps != []
    ensures Get(node, steps)
         == match Get(node, [steps[0]])
            case None => None
            case Some(child) => Get(child, steps[1..])
    ensures Get(node, [steps[0]]).Some? <==> steps[0] in ChildSteps(node)
  {
  }

  lemma {:induction false} GetOneStep(node: Value, t: Token)
    ensures Get(node, [t])
         == match t
            case Key(k) => if node.Obj? && k in node.fields then Some(node.fields[k]) else None
            case Index(i) => if node.Arr? && i < |node.items| then Some(node.items[i]) else None
            case Wildcard => None
            case Recursive => None
  {
    assert [t][1..] == [];
  }

  lemma SplitSteps(prefix: seq<Token>, steps: seq<Token>)
    requires |prefix| < |steps| && prefix <= steps
    ensures prefix + [steps[|prefix|]] <= steps
    ensures steps[|prefix|..] == [steps[|prefix|]] + steps[|prefix| + 1..]
  {
  }

  lemma {:induction false} ThroughOneMore(node: Value, pattern: seq<Token>, prefix: seq<Token>, done: set<Token>, t: Token, m: Found)
    requires t !in done && Get(node, [t]).Some?
    ensures Through(node, pattern, prefix, done + {t}, m)
         == Through(node, pattern, prefix, done, m) + Hits(Get(node, [t]).value, pattern, prefix + [t], m)
  {
    if |prefix| < |m.steps| && prefix <= m.steps {
      SplitSteps(prefix, m.steps);
      if m.steps[|prefix|] != t { assert !(prefix + [t] <= m.steps) by { assert (prefix + [t])[|prefix|] == t; } }
    }
  }

  lemma {:induction false} HitsOfChild(node: Value, pattern: seq<Token>, prefix: seq<Token>, m: Found)
    requires pattern != [] && (pattern[0].Key? || pattern[0].Index?)
    ensures Hits(node, pattern, prefix, m)
         == match Get(node, [pattern[0]])
            case None => 0
            case Some(child) => Hits(child, pattern[1..], prefix + [pattern[0]], m)
  {
    var t := pattern[0];
    if |prefix| < |m.steps| && prefix <= m.steps {
      SplitSteps(prefix, m.steps);
      GetStep(node, m.steps[|prefix|..]);
      if m.steps[|prefix|] != t { assert !(prefix + [t] <= m.steps) by { assert (prefix + [t])[|prefix|] == t; } }
    }
  }

  lemma HitsOfWildcard(node: Value, pattern: seq<Token>, prefix: seq<Token>, m: Found)
    requires pattern != [] && pattern[0].Wildcard?
    ensures Hits(node, pattern, prefix, m) == Through(node, pattern[1..], prefix, ChildSteps(node), m)
  {
    if |prefix| < |m.steps| && prefix <= m.steps {
      SplitSteps(prefix, m.steps);
      GetStep(node, m.steps[|prefix|..]);
    }
  }

  lemma HitsOfRecursive(node: Value, pattern: seq<Token>, prefix: seq<Token>, m: Found)
    requires pattern != [] && pattern[0].Recursive?
    ensures Hits(node, pattern, prefix, m)
         == Hits(node, pattern[1..], prefix, m) + Through(node, pattern, prefix, ChildSteps(node), m)
  {
    if |prefix| < |m.steps| && prefix <= m.steps {
      SplitSteps(prefix, m.steps);
      GetStep(node, m.steps[|prefix|..]);
    }
  }

  lemma HitsOfEnd(node: Value, prefix: seq<Token>, m: Found)
    ensures Hits(node, [], prefix, m) == multiset{Found(prefix, node)}[m]
  {
    if prefix <= m.steps && m.steps[|prefix|..] == [] { assert m.steps == prefix; }
  }

  /** Everything the pattern matches below `node`, each match as often as the pattern reads as
      its path. Members of an object are visited in no particular order. */
  method Collect(node: Value, pattern: seq<Token>, prefix: seq<Token>) returns (found: seq<Found>)
    ensures forall m :: multiset(found)[m] == Hits(node, pattern, prefix, m)
    decreases node, |pattern|, 2
  {
    hide Hits, Through;
    if pattern == [] {
      forall m { HitsOfEnd(node, prefix, m); }
      return [Found(prefix, node)];
    }
    var rest := pattern[1..];
    GetOneStep(node, pattern[0]);
    match pattern[0] {
      case Key(k) =>
        forall m { HitsOfChild(node, pattern, prefix, m); }
        if node.Obj? && k in node.fields {
          found := Collect(node.fields[k], rest, prefix + [Key(k)]);
        } else {
          found := [];
        }
      case Index(i) =>
        forall m { HitsOfChild(node, pattern, prefix, m); }
        if node.Arr? && i < |node.items| {
          found := Collect(node.items[i], rest, prefix + [Index(i)]);
        } else {
          found := [];
        }
      case Wildcard =>
        forall m { HitsOfWildcard(node, pattern, prefix, m); }
        found := CollectChildren(node, rest, prefix);
      case Recursive =>
        forall m { HitsOfRecursive(node, pattern, prefix, m); }
        found := Collect(node, rest, prefix);
        var below := CollectChildren(node, pattern, prefix);
        assert multiset(found + below) == multiset(found) + multiset(below);
        found := found + below;
    }
  }

  method CollectChildren(node: Value, pattern: seq<Token>, prefix: seq<Token>) returns (found: seq<Found>)
    ensures forall m :: multiset(found)[m] == Through(node, pattern, prefix, ChildSteps(node), m)
    decreases node, |pattern|, 1
  {
    match node {
      case Arr(items) => found := CollectItems(node, pattern, prefix);
      case Obj(fields) => found := CollectFields(node, pattern, prefix);
      case _ => found := [];
    }
  }

  method CollectItems(node: Value, pattern: seq<Token>, prefix: seq<Token>) returns (found: seq<Found>)
    requires node.Arr?
    ensures forall m :: multiset(found)[m] == Through(node, pattern, prefix, ChildSteps(node), m)
    decreases node, |pattern|, 0
  {
    found := [];
    ghost var done: set<Token> := {};
    assert forall m :: Through(node, pattern, prefix, done, m) == 0;
    hide Hits, Through;
    for i := 0 to |node.items|
      invariant done == set j: nat | j < i :: Index(j)
      invariant forall m :: multiset(found)[m] == Through(node, pattern, prefix, done, m)
    {
      var below := Collect(node.items[i], pattern, prefix + [Index(i)]);
      assert Get(node, [Index(i)]) == Some(node.items[i]) by { GetOneStep(node, Index(i)); }
      forall m { ThroughOneMore(node, pattern, prefix, done, Index(i), m); }
      assert multiset(found + below) == multiset(found) + multiset(below);
      found, done := found + below, done + {Index(i)};
    }
  }

  method CollectFields(node: Value, pattern: seq<Token>, prefix: seq<Token>) returns (found: seq<Found>)
    requires node.Obj?
    ensures forall m :: multiset(found)[m] == Through(node, pattern, prefix, ChildSteps(node), m)
    decreases node, |pattern|, 0
  {
    found := [];
    var todo := node.fields.Keys;
    ghost var done: set<Token> := {};
    assert forall m :: Through(node, pattern, prefix, done, m) == 0;
    hide Hits, Through;
    while todo != {}
      invariant todo <= node.fields.Keys
      invariant done == set k | k in node.fields && k !in todo :: Key(k)
      invariant forall m :: multiset(found)[m] == Through(node, pattern, prefix, done, m)
      decreases |todo|
    {
      var k :| k in todo;
      var below := Collect(node.fields[k], pattern, prefix + [Key(k)]);
      assert Get(node, [Key(k)]) == Some(node.fields[k]) by { GetOneStep(node, Key(k)); }
      forall m { ThroughOneMore(node, pattern, prefix, done, Key(k), m); }
      assert multiset(found + below) == multiset(found) + multiset(below);
      found, done, todo := found + below, done + {Key(k)}, todo - {k};
    }
  }

  // ---------- what the counts mean ----------

  /** The pattern matches the path. */
  ghost predicate Matches(pattern: seq<Token>, steps: seq<Token>)
    decreases |pattern|
  {
    if pattern == [] then steps == []
    else
      match pattern[0]
      case Recursive => exists n: nat :: n <= |steps| && Matches(pattern[1..], steps[n..])
      case Wildcard => steps != [] && Matches(pattern[1..], steps[1..])
      case Key(_) => steps != [] && steps[0] == pattern[0] && Matches(pattern[1..], steps[1..])
      case Index(_) => steps != [] && steps[0] == pattern[0] && Matches(pattern[1..], steps[1..])
  }

  lemma {:induction false} SomeWayIffMatches(pattern: seq<Token>, steps: seq<Token>)
    ensures Ways(pattern, steps) > 0 <==> Matches(pattern, steps)
    decreases |pattern|, |steps|
  {
    if pattern != [] {
      SomeWayIffMatches(pattern[1..], steps);
      if steps != [] { SomeWayIffMatches(pattern[1..], steps[1..]); }
      if pattern[0].Recursive? {
        assert steps[0..] == steps;
        if steps != [] { SomeWayIffMatches(pattern, steps[1..]); }
        if Matches(pattern, steps) {
          var n: nat :| n <= |steps| && Matches(pattern[1..], steps[n..]);
          if n > 0 { assert steps[1..][n - 1..] == steps[n..]; }
        }
        if steps != [] && Matches(pattern, steps[1..]) {
          var n: nat :| n <= |steps[1..]| && Matches(pattern[1..], steps[1..][n..]);
          assert steps[n + 1..] == steps[1..][n..];
        }
      }
    }
  }

  function Recursives(pattern: seq<Token>): nat {
    if pattern == [] then 0 else (if pattern[0].Recursive? then 1 else 0) + Recursives(pattern[1..])
  }

  /** Without a recursive token, only paths of the pattern's own length match. */
  lemma {:induction false} NoRecursiveFixesLength(pattern: seq<Token>, steps: seq<Token>)
    requires Recursives(pattern) == 0
    ensures Ways(pattern, steps) <= 1 && (Ways(pattern, steps) == 1 ==> |steps| == |pattern|)
  {
    if pattern != [] && steps != [] { NoRecursiveFixesLength(pattern[1..], steps[1..]); }
  }

  /** With one recursive token, paths shorter than the other tokens do not match. */
  lemma {:induction false} OneRecursiveNeedsLength(pattern: seq<Token>, steps: seq<Token>)
    requires Recursives(pattern) == 1 && |steps| < |pattern| - 1
    ensures Ways(pattern, steps) == 0
    decreases |pattern|, |steps|
  {
    if pattern[0].Recursive? {
      NoRecursiveFixesLength(pattern[1..], steps);
      if steps != [] { OneRecursiveNeedsLength(pattern, steps[1..]); }
    } else if steps != [] {
      OneRecursiveNeedsLength(pattern[1..], steps[1..]);
    }
  }

  lemma {:induction false} OneRecursiveMatchesOnce(pattern: seq<Token>, steps: seq<Token>)
    requires Recursives(pattern) <= 1
    ensures Ways(pattern, steps) <= 1
    decreases |pattern|, |steps|
  {
    if pattern != [] {
      if pattern[0].Recursive? {
        NoRecursiveFixesLength(pattern[1..], steps);
        if steps != [] {
          OneRecursiveMatchesOnce(pattern, steps[1..]);
          if |steps| == |pattern| - 1 { OneRecursiveNeedsLength(pattern, steps[1..]); }
        }
      } else if steps != [] {
        OneRecursiveMatchesOnce(pattern[1..], steps[1..]);
      }
    }
  }

  lemma {:induction false} ConcreteMatchesItself(pattern: seq<Token>, steps: seq<Token>)
    requires Concrete(pattern)
    ensures Ways(pattern, steps) == if steps == pattern then 1 else 0
  {
    if pattern != [] && steps != [] {
      ConcreteMatchesItself(pattern[1..], steps[1..]);
      assert pattern == [pattern[0]] + pattern[1..] && steps == [steps[0]] + steps[1..];
    }
  }

  // ---------- duplicates ----------

  /** A wildcard-free reading of a token. */
  function Reading(t: Token): seq<Token> {
    match t
    case Wildcard => [Key("")]
    case Recursive => []
    case _ => [t]
  }

  /** A path the pattern matches, every recursive token standing for no step. */
  function Sample(pattern: seq<Token>): (steps: seq<Token>)
    ensures Concrete(steps)
  {
    if pattern == [] then [] else Reading(pattern[0]) + Sample(pattern[1..])
  }

  /** The part of the sample that is read before the first recursive token. */
  function Before(pattern: seq<Token>): (steps: seq<Token>)
    ensures Concrete(steps)
  {
    if pattern == [] || pattern[0].Recursive? then [] else Reading(pattern[0]) + Before(pattern[1..])
  }

  function Behind(pattern: seq<Token>): (steps: seq<Token>)
    ensures Concrete(steps)
  {
    if pattern == [] then [] else if pattern[0].Recursive? then Sample(pattern[1..]) else Behind(pattern[1..])
  }

  lemma {:induction false} SampleIsBoth(pattern: seq<Token>)
    ensures Sample(pattern) == Before(pattern) + Behind(pattern)
  {
    if pattern != [] && !pattern[0].Recursive? { SampleIsBoth(pattern[1..]); }
  }

  lemma {:induction false} SampleMatches(pattern: seq<Token>)
    ensures Ways(pattern, Sample(pattern)) >= 1
  {
    if pattern != [] {
      SampleMatches(pattern[1..]);
      if pattern[0].Recursive? {
        assert Sample(pattern) == Sample(pattern[1..]);
      } else {
        assert Sample(pattern)[1..] == Sample(pattern[1..]);
      }
    }
  }

  /** A leading recursive token takes any further steps in front. */
  lemma {:induction false} RecursiveTakesMore(pattern: seq<Token>, more: seq<Token>, steps: seq<Token>)
    requires pattern != [] && pattern[0].Recursive?
    ensures Ways(pattern, more + steps) >= Ways(pattern, steps)
    decreases |more|
  {
    if more == [] {
      assert more + steps == steps;
    } else {
      RecursiveTakesMore(pattern, more[1..], steps);
      assert (more + steps)[1..] == more[1..] + steps;
    }
  }

  /** The first recursive token takes whatever steps stand at its place. */
  lemma {:induction false} StretchedMatches(pattern: seq<Token>, more: seq<Token>)
    requires Recursives(pattern) >= 1
    ensures Ways(pattern, Before(pattern) + more + Behind(pattern)) >= 1
  {
    var steps := Before(pattern) + more + Behind(pattern);
    if pattern[0].Recursive? {
      SampleMatches(pattern[1..]);
      RecursiveTakesMore(pattern, more, Behind(pattern));
      assert steps == more + Behind(pattern);
    } else {
      StretchedMatches(pattern[1..], more);
      assert steps[1..] == Before(pattern[1..]) + more + Behind(pattern[1..]);
    }
  }

  /** A path that a pattern with two recursive tokens reads in two ways. */
  function TwoWays(pattern: seq<Token>): (steps: seq<Token>)
    ensures Concrete(steps)
  {
    if pattern == [] then []
    else if pattern[0].Recursive? then Before(pattern[1..]) + [Key("")] + Sample(pattern[1..])
    else Reading(pattern[0]) + TwoWays(pattern[1..])
  }

  /** The first recursive token stands for nothing, and the second for what was put in; or the first
      stands for that, and the second for nothing. */
  lemma {:induction false} RecursiveMatchesTwice(pattern: seq<Token>)
    requires pattern != [] && pattern[0].Recursive? && Recursives(pattern[1..]) >= 1
    ensures Ways(pattern, Before(pattern[1..]) + [Key("")] + Sample(pattern[1..])) >= 2
  {
    hide Before, Behind, Sample, Recursives;
    var rest := pattern[1..];
    var more := Before(rest) + [Key("")];
    var steps := more + Sample(rest);
    SampleMatches(rest);
    SampleIsBoth(rest);
    StretchedMatches(rest, [Key("")] + Before(rest));
    assert steps == Before(rest) + ([Key("")] + Before(rest)) + Behind(rest);
    RecursiveTakesMore(pattern, more[1..], Sample(rest));
    assert steps[1..] == more[1..] + Sample(rest);
    assert Ways(pattern, Sample(rest)) >= Ways(rest, Sample(rest));
  }

  lemma {:induction false} TwoRecursivesMatchTwice(pattern: seq<Token>)
    requires Recursives(pattern) >= 2
    ensures Ways(pattern, TwoWays(pattern)) >= 2
  {
    if pattern[0].Recursive? {
      RecursiveMatchesTwice(pattern);
    } else {
      TwoRecursivesMatchTwice(pattern[1..]);
      assert TwoWays(pattern)[1..] == TwoWays(pattern[1..]);
    }
  }

  /** A document that has nothing but a node at this path. */
  function DocAt(path: seq<Token>, node: Value): Value
    requires Concrete(path)
  {
    if path == [] then node
    else
      match path[0]
      case Index(i) => Arr(seq(i, _ => Null) + [DocAt(path[1..], node)])
      case Key(k) => Obj(map[k := DocAt(path[1..], node)])
  }

  lemma {:induction false} GetDocAt(path: seq<Token>, node: Value, n: nat)
    requires Concrete(path) && n <= |path|
    ensures Get(DocAt(path, node), path[..n]) == Some(DocAt(path[n..], node))
    decreases n
  {
    if n > 0 {
      GetDocAt(path[1..], node, n - 1);
      assert path[..n][1..] == path[1..][..n - 1] && path[1..][n - 1..] == path[n..];
    } else {
      assert path[0..] == path;
    }
  }

  /** Some document has a node that the pattern yields more than once exactly when the pattern
      has two recursive tokens. */
  lemma {:induction false} YieldsTwiceIff(pattern: seq<Token>)
    ensures (exists document: Value, steps: seq<Token> :: Get(document, steps).Some? && Ways(pattern, steps) >= 2) <==> Recursives(pattern) >= 2
  {
    hide Ways, TwoWays, Get, DocAt;
    if Recursives(pattern) >= 2 {
      var steps := TwoWays(pattern);
      TwoRecursivesMatchTwice(pattern);
      GetDocAt(steps, Null, |steps|);
      assert steps[..|steps|] == steps;
      assert Get(DocAt(steps, Null), steps).Some?;
    } else {
      forall steps { OneRecursiveMatchesOnce(pattern, steps); }
    }
  }

  // ---------- extraction by path text ----------

  predicate Simple(tokens: seq<Token>) {
    forall i :: 0 <= i < |tokens| ==> !tokens[i].Wildcard? && !tokens[i].Recursive?
  }

  /** Each node of the document is listed as often as the pattern reads as its path. */
  ghost predicate AllFound(document: Value, pattern: seq<Token>, found: seq<Found>) {
    forall m :: multiset(found)[m] == if Get(document, m.steps) == Some(m.value) then Ways(pattern, m.steps) else 0
  }

  function ValuesOf(found: seq<Found>): seq<Value> { seq(|found|, i requires 0 <= i < |found| => found[i].value) }

  method ExtractMatches(document: Value, path: string) returns (found: seq<Found>)
    ensures ParsePath(path).None? ==> found == []
    ensures ParsePath(path).Some? ==> AllFound(document, ParsePath(path).value, found)
  {
    var tokens := ParseJsonPath(path);
    if tokens.None? { return []; }
    found := Collect(document, tokens.value, []);
    forall m: Found ensures m.steps[0..] == m.steps {}
  }

  /** A node is found exactly when the pattern matches its path, and with at most one recursive
      token it is found once. */
  lemma {:induction false} FoundIffMatched(document: Value, pattern: seq<Token>, found: seq<Found>, m: Found)
    requires AllFound(document, pattern, found)
    ensures m in found <==> Get(document, m.steps) == Some(m.value) && Matches(pattern, m.steps)
    ensures Recursives(pattern) <= 1 ==> multiset(found)[m] <= 1
  {
    assert m in found <==> multiset(found)[m] > 0;
    SomeWayIffMatches(pattern, m.steps);
    if Recursives(pattern) <= 1 { OneRecursiveMatchesOnce(pattern, m.steps); }
  }

  /** On a path without wildcards, matching finds what direct extraction finds. */
  lemma {:induction false} MatchingAgreesWithGet(document: Value, path: seq<Token>, found: seq<Found>)
    requires Concrete(path)
    requires AllFound(document, path, found)
    ensures found == match Get(document, path)
                     case None => []
                     case Some(v) => [Found(path, v)]
  {
    forall n: Found { ConcreteMatchesItself(path, n.steps); }
    var expected := match Get(document, path) case None => [] case Some(v) => [Found(path, v)];
    forall n: Found ensures multiset(found)[n] == multiset(expected)[n] {}
    assert multiset(found) == multiset(expected);
    assert |found| == |multiset(found)|;
    if found != [] { assert found[0] in multiset(found); }
  }

  method JsonExtractPath(document: Value, path: string) returns (r: Option<Value>)
    ensures ParsePath(path).None? ==> r.None?
    ensures ParsePath(path).Some? && Simple(ParsePath(path).value) ==> r == Get(document, ParsePath(path).value)
    ensures ParsePath(path).Some? && !Simple(ParsePath(path).value) ==>
              (r.None? <==> forall s :: !(Get(document, s).Some? && Matches(ParsePath(path).value, s)))
              && (r.Some? ==> exists found :: AllFound(document, ParsePath(path).value, found) && r.value == Arr(ValuesOf(found)))
  {
    var tokens := ParseJsonPath(path);
    if tokens.None? { return None; }
    if exists i :: 0 <= i < |tokens.value| && (tokens.value[i].Wildcard? || tokens.value[i].Recursive?) {
      var found := ExtractMatches(document, path);
      forall m { FoundIffMatched(document, tokens.value, found, m); }
      if found == [] {
        forall s | Get(document, s).Some? ensures !Matches(tokens.value, s) {
          assert Found(s, Get(document, s).value) !in found;
        }
        return None;
      }
      assert found[0] in found && Matches(tokens.value, found[0].steps);
      return Some(Arr(ValuesOf(found)));
    }
    var current := document;
    for i := 0 to |tokens.value|
      invariant Get(document, tokens.value) == Get(current, tokens.value[i..])
    {
      match tokens.value[i] {
        case Key(k) =>
          if !(current.Obj? && k in current.fields) { return None; }
          current := current.fields[k];
        case Index(n) =>
          if !(current.Arr? && n < |current.items|) { return None; }
          current := current.items[n];
        case _ => return None;
      }
    }
    return Some(current);
  }

  // ---------- writing by path text ----------

  method JsonSetPath(document: Value, path: string, value: Value) returns (result: Value, ok: bool)
    ensures ParsePath(path).None? ==> !ok && result == document
    ensures ParsePath(path).Some? ==> (result, ok) == SetAt(document, ParsePath(path).value, value)
  {
    var tokens := ParseJsonPath(path);
    if tokens.None? { return document, false; }
    result, ok := SetTokens(document, tokens.value, value);
  }

  method JsonRemovePath(document: Value, path: string) returns (result: Value, ok: bool)
    ensures ParsePath(path).None? ==> !ok && result == document
    ensures ParsePath(path).Some? ==> (result, ok) == RemoveAt(document, ParsePath(path).value)
  {
    var tokens := ParseJsonPath(path);
    if tokens.None? { return document, false; }
    result, ok := RemoveTokens(document, tokens.value);
  }

  function InsertedAt(items: seq<Value>, i: nat, v: Value): seq<Value>
    requires i <= |items|
  {
    items[..i] + [v] + items[i..]
  }

  /** The array that an insertion path names, when it takes the new element. */
  predicate TakesInsert(document: Value, tokens: seq<Token>) {
    tokens != [] && tokens[|tokens| - 1].Index?
    && var at := Get(document, tokens[..|tokens| - 1]);
       at.Some? && at.value.Arr? && tokens[|tokens| - 1].index <= |at.value.items|
  }

  /** What array insertion is for: the element is inserted at exactly the node the path names. */
  function InsertAt(document: Value, tokens: seq<Token>, value: Value): (Value, bool) {
    if !TakesInsert(document, tokens) then (document, false)
    else
      var parent := tokens[..|tokens| - 1];
      var items := Get(document, parent).value.items;
      (SetAt(document, parent, Arr(InsertedAt(items, tokens[|tokens| - 1].index, value))).0, true)
  }

  /** The element is read at its index, those before it stay, and those behind it move up by one;
      nothing is inserted unless there is an array with room up to the index. */
  lemma {:induction false} InsertShifts(document: Value, parent: seq<Token>, i: nat, value: Value, j: nat)
    requires Concrete(parent)
    ensures var (after, ok) := InsertAt(document, parent + [Index(i)], value);
            var items := Get(document, parent);
            && (ok <==> items.Some? && items.value.Arr? && i <= |items.value.items|)
            && (!ok ==> after == document)
            && (ok ==> Get(after, parent).Some? && Get(after, parent).value.Arr? && |Get(after, parent).value.items| == |items.value.items| + 1)
            && (ok ==> Get(after, parent + [Index(j)])
                       == if j < i then Get(document, parent + [Index(j)])
                          else if j == i then Some(value)
                          else Get(document, parent + [Index(j - 1)]))
  {
    hide SetAt, Get, Concrete;
    var tokens := parent + [Index(i)];
    assert tokens[..|tokens| - 1] == parent;
    var (after, ok) := InsertAt(document, tokens, value);
    if ok {
      var items := Get(document, parent).value.items;
      GetAfterSet(document, parent, Arr(InsertedAt(items, i, value)));
      GetLast(after, parent, j);
      GetLast(document, parent, j);
      if j > 0 { GetLast(document, parent, j - 1); }
    }
  }

  lemma {:induction false} GetLast(document: Value, parent: seq<Token>, j: nat)
    requires Get(document, parent).Some? && Get(document, parent).value.Arr?
    ensures var items := Get(document, parent).value.items;
            Get(document, parent + [Index(j)]) == if j < |items| then Some(items[j]) else None
    decreases |parent|
  {
    var path := parent + [Index(j)];
    if parent == [] {
      assert path == [Index(j)] && path[1..] == [];
    } else {
      assert path[1..] == parent[1..] + [Index(j)];
      match parent[0]
      case Key(k) => GetLast(document.fields[k], parent[1..], j);
      case Index(n) => GetLast(document.items[n], parent[1..], j);
    }
  }

  /** What the program does: it prints the path of the array and reads it again. */
  function InsertVia(document: Value, tokens: seq<Token>, value: Value): (Value, bool) {
    if tokens == [] || !tokens[|tokens| - 1].Index? then (document, false)
    else
      match ParsePath(Print(tokens[..|tokens| - 1]))
      case None => (document, false)
      case Some(parent) =>
        if Simple(parent) then InsertAt(document, parent + [tokens[|tokens| - 1]], value) else (document, false)
  }

  /** The element goes where it is meant to go when the path of the array reads back. */
  lemma PrintableParentsTakeInserts(document: Value, tokens: seq<Token>, value: Value)
    requires Concrete(tokens) && (tokens != [] ==> Printable(tokens[..|tokens| - 1]))
    ensures InsertVia(document, tokens, value) == InsertAt(document, tokens, value)
  {
    if tokens != [] && tokens[|tokens| - 1].Index? {
      var parent := tokens[..|tokens| - 1];
      assert parent + [tokens[|tokens| - 1]] == tokens;
      SimpleParent(tokens);
      hide InsertAt, ParsePath, Print, Printable, Concrete, Simple;
      ParsePrinted(parent);
    }
  }

  /** In such a document only the nodes on the way are arrays. */
  lemma {:induction false} ArraysOnTheWay(path: seq<Token>, n: nat, q: seq<Token>)
    requires Concrete(path) && Get(DocAt(path, Arr(seq(n, _ => Null))), q).Some? && Get(DocAt(path, Arr(seq(n, _ => Null))), q).value.Arr?
    ensures q <= path
    decreases |q|
  {
    if q != [] {
      var doc := DocAt(path, Arr(seq(n, _ => Null)));
      if path != [] && q[0] == path[0] {
        ArraysOnTheWay(path[1..], n, q[1..]);
      }
    }
  }

  lemma {:induction false} SetInDocAt(path: seq<Token>, node: Value, v: Value)
    requires Concrete(path)
    ensures SetAt(DocAt(path, node), path, v).0 == DocAt(path, v)
    decreases |path|
  {
    if path != [] {
      SetInDocAt(path[1..], node, v);
      var doc := DocAt(path, node);
      match path[0]
      case Key(k) => assert doc.fields[k := DocAt(path[1..], v)] == map[k := DocAt(path[1..], v)];
      case Index(i) =>
        assert Child(doc, path[0], path[1..]) == DocAt(path[1..], node);
        assert doc.items[i := DocAt(path[1..], v)] == DocAt(path, v).items;
    }
  }

  /** An array on the way is as long whatever the node at the end is. */
  lemma {:induction false} LengthOnTheWay(path: seq<Token>, n: nat, a: Value, b: Value)
    requires Concrete(path) && n < |path| && Get(DocAt(path, a), path[..n]).Some? && Get(DocAt(path, a), path[..n]).value.Arr?
    ensures Get(DocAt(path, b), path[..n]).Some? && Get(DocAt(path, b), path[..n]).value.Arr?
    ensures |Get(DocAt(path, b), path[..n]).value.items| == |Get(DocAt(path, a), path[..n]).value.items|
  {
    GetDocAt(path, a, n);
    GetDocAt(path, b, n);
  }

  /** An array of the right length at `parent`, where the program takes another path for it. */
  lemma {:induction false} OtherPathDiffers(parent: seq<Token>, last: Token, again: seq<Token>)
    requires Concrete(parent) && Simple(again) && again != parent && last.Index?
    ensures var document := DocAt(parent, Arr(seq(last.index, _ => Null)));
            InsertAt(document, again + [last], Null) != InsertAt(document, parent + [last], Null)
  {
    hide InsertAt, SetAt, DocAt, Get;
    var items := seq(last.index, _ => Null);
    var document := DocAt(parent, Arr(items));
    assert parent[..|parent|] == parent && parent[|parent|..] == [];
    GetDocAt(parent, Arr(items), |parent|);
    NodeItself(Arr(items));
    ElementInserted(document, parent, last, Null);
    ElementInserted(document, again, last, Null);
    GetAfterSet(document, parent, Arr(InsertedAt(items, last.index, Null)));
    SetInDocAt(parent, Arr(items), Arr(InsertedAt(items, last.index, Null)));
    var at := Get(document, again);
    if at.Some? && at.value.Arr? && last.index <= |at.value.items| {
      ArraysOnTheWay(parent, last.index, again);
      assert again == parent[..|again|];
      LengthOnTheWay(parent, |again|, Arr(items), Arr(InsertedAt(items, last.index, Null)));
      GetAfterSet(document, again, Arr(InsertedAt(at.value.items, last.index, Null)));
    }
  }

  lemma {:induction false} NodeItself(node: Value)
    ensures DocAt([], node) == node
  {
  }

  /** For a path that names an array element, the element goes where it is meant to go in every
      document exactly when the path of the array reads back. */
  lemma InsertGoesHomeIff(tokens: seq<Token>)
    requires Concrete(tokens) && tokens != [] && tokens[|tokens| - 1].Index?
    ensures (forall document: Value, value: Value :: InsertVia(document, tokens, value) == InsertAt(document, tokens, value))
            <==> Printable(tokens[..|tokens| - 1])
  {
    var parent, last := tokens[..|tokens| - 1], tokens[|tokens| - 1];
    assert parent + [last] == tokens;
    SimpleParent(tokens);
    RoundTripIffPrintable(parent);
    hide InsertAt, SetAt, DocAt, Get, Print, ParsePath, Printable;
    if Printable(parent) {
      forall document, value { PrintableParentsTakeInserts(document, tokens, value); }
    } else {
      var document := DocAt(parent, Arr(seq(last.index, _ => Null)));
      InsertMeant(parent, last);
      var again := ParsePath(Print(parent));
      if again.Some? && Simple(again.value) { OtherPathDiffers(parent, last, again.value); }
      assert InsertVia(document, tokens, Null) != InsertAt(document, tokens, Null);
    }
  }

  lemma {:induction false} InsertMeant(parent: seq<Token>, last: Token)
    requires Concrete(parent) && Simple(parent) && last.Index?
    ensures InsertAt(DocAt(parent, Arr(seq(last.index, _ => Null))), parent + [last], Null).1
  {
    var items := seq(last.index, _ => Null);
    assert (parent + [last])[..|parent|] == parent && parent[..|parent|] == parent && parent[|parent|..] == [];
    GetDocAt(parent, Arr(items), |parent|);
  }

  lemma SimpleParent(tokens: seq<Token>)
    requires Concrete(tokens) && tokens != []
    ensures Simple(tokens[..|tokens| - 1])
  {
  }

  /** A write through wildcards changes nothing where they match something. */
  lemma {:induction false} StoppedWriteChangesNothing(doc: Value, tokens: seq<Token>, value: Value, s: seq<Token>)
    requires !Simple(tokens) && Matches(tokens, s) && Get(doc, s).Some?
    ensures SetAt(doc, tokens, value) == (doc, false)
    decreases |tokens|
  {
    match tokens[0]
    case Key(k) =>
      StoppedWriteChangesNothing(doc.fields[k], tokens[1..], value, s[1..]);
      assert doc.fields[k := doc.fields[k]] == doc.fields;
    case Index(i) =>
      StoppedWriteChangesNothing(doc.items[i], tokens[1..], value, s[1..]);
      assert doc.items[i := doc.items[i]] == doc.items;
    case Wildcard =>
    case Recursive =>
  }

  lemma {:induction false} ElementInserted(document: Value, parent: seq<Token>, last: Token, value: Value)
    requires Simple(parent) && last.Index?
    ensures var at := Get(document, parent);
            InsertAt(document, parent + [last], value)
            == if at.Some? && at.value.Arr? && last.index <= |at.value.items|
               then SetAt(document, parent, Arr(InsertedAt(at.value.items, last.index, value))) else (document, false)
  {
    assert (parent + [last])[..|parent|] == parent;
    var at := Get(document, parent);
    if at.Some? && at.value.Arr? && last.index <= |at.value.items| {
      assert Concrete(parent);
      GetAfterSet(document, parent, Arr(InsertedAt(at.value.items, last.index, value)));
    }
  }

  method JsonArrayInsertPath(document: Value, path: string, value: Value) returns (result: Value, ok: bool)
    ensures ParsePath(path).None? ==> !ok && result == document
    ensures ParsePath(path).Some? ==> (result, ok) == InsertVia(document, ParsePath(path).value, value)
  {
    hide ParsePath, Print, InsertAt, SetAt, Get, Matches;
    var parsed := ParseJsonPath(path);
    if parsed.None? { return document, false; }
    var tokens := parsed.value;
    if tokens == [] || !tokens[|tokens| - 1].Index? { return document, false; }
    var last := tokens[|tokens| - 1];
    var parent := tokens[..|tokens| - 1];
    if |tokens| == 1 {
      RootInserted(document, last, value);
      assert parent == [];
      if document.Arr? && last.index <= |document.items| {
        return Arr(InsertedAt(document.items, last.index, value)), true;
      }
      return document, false;
    }
    var parentPath := Print(parent);
    ghost var again := ParsePath(parentPath);
    if again.Some? && Simple(again.value) { ElementInserted(document, again.value, last, value); }
    var at := JsonExtractPath(document, parentPath);
    if at.None? || !at.value.Arr? { return document, false; }
    var items := at.value.items;
    if last.index > |items| { return document, false; }
    if !Simple(again.value) {
      var s :| Get(document, s).Some? && Matches(again.value, s);
      StoppedWriteChangesNothing(document, again.value, Arr(InsertedAt(items, last.index, value)), s);
    }
    result, ok := JsonSetPath(document, parentPath, Arr(InsertedAt(items, last.index, value)));
  }

  lemma RootInserted(document: Value, last: Token, value: Value)
    requires last.Index?
    ensures InsertVia(document, [last], value)
         == if document.Arr? && last.index <= |document.items| then (Arr(InsertedAt(document.items, last.index, value)), true) else (document, false)
  {
    assert [last][..0] == [] && [] + [last] == [last];
    ParsePrinted([]);
  }

  lemma {:induction false} QuotedBodyReads(k: string, rest: string)
    requires forall i :: 0 <= i < |k| ==> k[i] != '"' && k[i] != '\\'
    ensures QuotedBody(k + "\"" + rest, '"') == Some((k, |k| + 1))
  {
    if k == [] {
      assert k + "\"" + rest == "\"" + rest;
    } else {
      QuotedBodyReads(k[1..], rest);
      assert (k + "\"" + rest)[1..] == k[1..] + "\"" + rest;
      assert [k[0]] + k[1..] == k;
    }
  }

  lemma NextOfQuoted(k: string, tail: string)
    requires forall j :: 0 <= j < |k| ==> k[j] != '"' && k[j] != '\\'
    ensures NextToken(".\"" + k + "\"" + tail) == Some((Key(k), |k| + 3))
  {
    hide QuotedBody;
    var s := ".\"" + k + "\"" + tail;
    assert s[2..] == k + "\"" + tail;
    QuotedBodyReads(k, tail);
  }

  /** The text of a path with one quoted key and an index. */
  function QuotedPath(k: string, i: nat): string { "$" + (".\"" + k + "\"" + PrintToken(Index(i))) }

  lemma QuotedPathParses(k: string, i: nat)
    requires forall j :: 0 <= j < |k| ==> k[j] != '"' && k[j] != '\\'
    requires i < USIZE_LIMIT
    ensures ParsePath(QuotedPath(k, i)) == Some([Key(k), Index(i)])
  {
    hide NextToken, NatText;
    var tail := PrintToken(Index(i));
    var s := ".\"" + k + "\"" + tail;
    var path := QuotedPath(k, i);
    assert path == "$" + s;
    TrimKeepsTight(path);
    assert path[0] == '$' && path[1..] == s;
    NextOfQuoted(k, tail);
    assert s[|k| + 3..] == tail;
    assert PrintTokens([Index(i)]) == tail by { assert [Index(i)][1..] == [] && tail + [] == tail; }
    ParsePrintedTokens([Index(i)]);
    assert ParseTokens(path[1..]) == Some([Key(k)] + [Index(i)]);
    assert [Key(k)] + [Index(i)] == [Key(k), Index(i)];
  }

  lemma SplitKeyPrintsAlike(a: string, b: string)
    ensures Print([Key(a + "." + b)]) == Print([Key(a), Key(b)])
  {
    var k := a + "." + b;
    assert [Key(k)][1..] == [] && [Key(a), Key(b)][1..] == [Key(b)] && [Key(b)][1..] == [];
    assert PrintTokens([Key(b)]) == "." + b;
    assert PrintTokens([Key(k)]) == "." + k == "." + a + ("." + b);
  }

  /** The key has no character that starts the next step of a printed path. */
  predicate OneStep(k: string) {
    forall i :: 0 <= i < |k| ==> k[i] != '.' && k[i] != '['
  }

  predicate Undivided(steps: seq<Token>) {
    forall i :: 0 <= i < |steps| && steps[i].Key? ==> OneStep(steps[i].key)
  }

  predicate StartsStep(s: string) { s == [] || s[0] == '.' || s[0] == '[' }

  lemma KeyIsPrinted(k: string, rest: string, l: string, others: string)
    requires OneStep(k) && OneStep(l) && StartsStep(rest) && StartsStep(others) && k + rest == l + others
    ensures k == l && rest == others
  {
    var s := k + rest;
    PlainLengthIs(s, |k|);
    PlainLengthIs(s, |l|);
    assert s[..|k|] == k && s[|k|..] == rest;
    assert s == l + others && s[..|l|] == l && s[|l|..] == others;
  }

  lemma {:induction false} IndexIsPrinted(i: nat, rest: string, j: nat, others: string)
    requires NatText(i) + "]" + rest == NatText(j) + "]" + others
    ensures i == j && rest == others
  {
    hide NatText, ParseDigits;
    var m, n := NatText(i), NatText(j);
    var s := m + "]" + rest;
    BracketLengthIs(s, |m|);
    BracketLengthIs(s, |n|);
    assert s[..|m|] == m && s[|m| + 1..] == rest;
    assert s == n + "]" + others && s[..|n|] == n && s[|n| + 1..] == others;
    ParseDigitsOfNatText(i);
    ParseDigitsOfNatText(j);
  }

  lemma FirstKeyIsPrinted(k: string, rest: string, l: string, others: string)
    requires OneStep(k) && OneStep(l) && StartsStep(rest) && StartsStep(others) && "." + k + rest == "." + l + others
    ensures k == l && rest == others
  {
    hide OneStep, StartsStep;
    assert ("." + k + rest)[1..] == k + rest && ("." + l + others)[1..] == l + others;
    KeyIsPrinted(k, rest, l, others);
  }

  lemma {:induction false} FirstIndexIsPrinted(i: nat, rest: string, j: nat, others: string)
    requires "[" + NatText(i) + "]" + rest == "[" + NatText(j) + "]" + others
    ensures i == j && rest == others
  {
    hide NatText;
    assert ("[" + NatText(i) + "]" + rest)[1..] == NatText(i) + "]" + rest;
    assert ("[" + NatText(j) + "]" + others)[1..] == NatText(j) + "]" + others;
    IndexIsPrinted(i, rest, j, others);
  }

  lemma FirstStepIsPrinted(t: Token, rest: string, u: Token, others: string)
    requires (t.Key? && OneStep(t.key)) || t.Index?
    requires (u.Key? && OneStep(u.key)) || u.Index?
    requires StartsStep(rest) && StartsStep(others) && PrintToken(t) + rest == PrintToken(u) + others
    ensures t == u && rest == others
  {
    hide NatText, OneStep, StartsStep;
    assert (PrintToken(t) + rest)[0] == PrintToken(t)[0] && (PrintToken(u) + others)[0] == PrintToken(u)[0];
    if t.Key? { FirstKeyIsPrinted(t.key, rest, u.key, others); } else { FirstIndexIsPrinted(t.index, rest, u.index, others); }
  }

  /** Different paths are printed differently, unless a key has a dot or an opening bracket. */
  lemma {:induction false} UndividedPathsPrintApart(p: seq<Token>, q: seq<Token>)
    requires Concrete(p) && Concrete(q) && Undivided(p) && Undivided(q)
    requires PrintTokens(p) == PrintTokens(q)
    ensures p == q
  {
    if p != [] && q != [] {
      hide OneStep, PrintToken;
      FirstStepIsPrinted(p[0], PrintTokens(p[1..]), q[0], PrintTokens(q[1..]));
      UndividedPathsPrintApart(p[1..], q[1..]);
      assert p == [p[0]] + p[1..] && q == [q[0]] + q[1..];
    }
  }

  /** The matches of a pattern with at most one recursive token, in a document whose keys have
      neither dots nor opening brackets, are reported under different path texts. */
  lemma {:induction false} ReportedPathsDiffer(document: Value, pattern: seq<Token>, found: seq<Found>, i: nat, j: nat)
    requires AllFound(document, pattern, found) && Recursives(pattern) <= 1 && i < j < |found|
    requires Undivided(found[i].steps) && Undivided(found[j].steps)
    ensures Print(found[i].steps) != Print(found[j].steps)
  {
    var a, b := found[i], found[j];
    assert a in multiset(found) && b in multiset(found);
    hide Get, Ways, PrintTokens, Undivided;
    assert Get(document, a.steps) == Some(a.value) && Get(document, b.steps) == Some(b.value);
    OneRecursiveMatchesOnce(pattern, a.steps);
    StepsAreConcrete(document, a.steps);
    StepsAreConcrete(document, b.steps);
    if Print(a.steps) == Print(b.steps) {
      assert Print(a.steps)[1..] == PrintTokens(a.steps) && Print(b.steps)[1..] == PrintTokens(b.steps);
      UndividedPathsPrintApart(a.steps, b.steps);
      assert a == b;
      TwicePresent(found, i, j);
      assert false;
    }
  }

  lemma TwicePresent(found: seq<Found>, i: nat, j: nat)
    requires i < j < |found| && found[i] == found[j]
    ensures multiset(found)[found[i]] >= 2
  {
    assert found == found[..j] + [found[j]] + found[j + 1..];
    assert found[..j][i] == found[i];
  }

  lemma {:induction false} StepsAreConcrete(document: Value, steps: seq<Token>)
    requires Get(document, steps).Some?
    ensures Concrete(steps)
    decreases |steps|
  {
    if steps != [] {
      var child := if steps[0].Key? then document.fields[steps[0].key] else document.items[steps[0].index];
      StepsAreConcrete(child, steps[1..]);
      forall i | 0 < i < |steps| ensures steps[i] == steps[1..][i - 1] {}
    }
  }

  lemma EmptyArrayIsThere(k: string)
    ensures TakesInsert(Obj(map[k := Arr([])]), [Key(k), Index(0)])
  {
    var document := Obj(map[k := Arr([])]);
    assert [Key(k), Index(0)][..1] == [Key(k)];
    GetOneStep(document, Key(k));
  }

  /** A key that needs its quotes defeats the round trip: `$."a.b"[0]` names an array that
      exists, but its parent path is printed as `$.a.b`, which names something else. */
  lemma QuotedParentIsLost(a: string, b: string, value: Value)
    requires Printable([Key(a), Key(b)])
    ensures ParsePath(Print([Key(a + "." + b)])) == Some([Key(a), Key(b)])
    ensures var document := Obj(map[a + "." + b := Arr([])]);
            InsertVia(document, [Key(a + "." + b), Index(0)], value) == (document, false) && InsertAt(document, [Key(a + "." + b), Index(0)], value).1
  {
    var k := a + "." + b;
    var document, tokens := Obj(map[k := Arr([])]), [Key(k), Index(0)];
    SplitKeyPrintsAlike(a, b);
    ParsePrinted([Key(a), Key(b)]);
    hide ParsePath, Print, Printable;
    EmptyArrayIsThere(k);
    assert tokens[..1] == [Key(k)];
    assert [Key(a), Key(b)][0] == Key(a);
    assert |a| < |k|;
    ElementInserted(document, [Key(a), Key(b)], Index(0), value);
  }
}
