/** Bounded Levenshtein distance: the two-row dynamic program of the typo-tolerant search.

    The reference meaning is given by edit scripts: sequences of single-character edits, each
    applied at any position of the current string. */
module EditDistance {

  datatype Edit =
    | Insert(at: nat, ch: char)
    | Delete(at: nat)
    | Substitute(at: nat, ch: char)

  predicate Applicable(e: Edit, s: string) {
    if e.Insert? then e.at <= |s| else e.at < |s|
  }

  function ApplyEdit(e: Edit, s: string): string
    requires Applicable(e, s)
  {
    match e
    case Insert(at, ch) => s[..at] + [ch] + s[at..]
    case Delete(at) => s[..at] + s[at + 1..]
    case Substitute(at, ch) => s[..at] + [ch] + s[at + 1..]
  }

  /** `script`, applied from left to right, turns `a` into `b`. */
  ghost predicate Turns(script: seq<Edit>, a: string, b: string)
    decreases |script|
  {
    if script == [] then a == b
    else Applicable(script[0], a) && Turns(script[1..], ApplyEdit(script[0], a), b)
  }

  ghost predicate WithinEdits(a: string, b: string, bound: nat) {
    exists script :: |script| <= bound && Turns(script, a, b)
  }

  function Min(x: nat, y: nat): nat { if x <= y then x else y }

  function Cost(x: char, y: char): nat { if x == y then 0 else 1 }

  /** The recurrence the program tabulates, on prefixes. */
  function Dist(a: string, b: string): nat
    decreases |a| + |b|
  {
    if a == [] then |b|
    else if b == [] then |a|
    else
      var a', b' := a[..|a| - 1], b[..|b| - 1];
      Min(Min(Dist(a', b) + 1, Dist(a, b') + 1), Dist(a', b') + Cost(a[|a| - 1], b[|b| - 1]))
  }

  lemma {:induction false} DistSelf(a: string)
    ensures Dist(a, a) == 0
  {
    if a != [] { DistSelf(a[..|a| - 1]); }
  }

  /** The length prefilter is sound. */
  lemma {:induction false} DistAtLeastLengthGap(a: string, b: string)
    ensures |a| <= |b| + Dist(a, b) && |b| <= |a| + Dist(a, b)
    decreases |a| + |b|
  {
    if a != [] && b != [] {
      DistAtLeastLengthGap(a[..|a| - 1], b);
      DistAtLeastLengthGap(a, b[..|b| - 1]);
      DistAtLeastLengthGap(a[..|a| - 1], b[..|b| - 1]);
    }
  }

  /** The early exit is sound: every row of the table has an entry not above the final distance. */
  lemma {:induction false} SomeEntryOfEachRowIsBelow(a: string, b: string, i: nat)
    requires i <= |a|
    ensures exists j :: 0 <= j <= |b| && Dist(a[..i], b[..j]) <= Dist(a, b)
    decreases |a| + |b|
  {
    if i == |a| {
      assert a[..i] == a && b[..|b|] == b;
    } else if b == [] {
      assert Dist(a[..i], b[..0]) <= Dist(a, b);
    } else {
      var a', b' := a[..|a| - 1], b[..|b| - 1];
      assert a'[..i] == a[..i];
      if Dist(a, b) == Dist(a', b) + 1 {
        SomeEntryOfEachRowIsBelow(a', b, i);
      } else {
        var shorter := if Dist(a, b) == Dist(a, b') + 1 then a else a';
        SomeEntryOfEachRowIsBelow(shorter, b', i);
        var j :| 0 <= j <= |b'| && Dist(shorter[..i], b'[..j]) <= Dist(shorter, b');
        assert b'[..j] == b[..j];
      }
    }
  }

  // ---------- one edit changes the distance to any target by at most one ----------

  lemma Snoc(p: string, x: char)
    ensures (p + [x])[..|p + [x]| - 1] == p && (p + [x])[|p + [x]| - 1] == x
  {
  }

  /** Dropping the last character of the target costs at most one more edit. */
  lemma {:induction false} DistDropTarget(p: string, c: string)
    requires c != []
    ensures Dist(p, c) <= Dist(p, c[..|c| - 1]) + 1
  {
  }

  lemma {:induction false} EditAtEnd(p: string, m: string, m': string, c: string)
    requires |m| <= 1 && |m'| <= 1
    ensures Dist(p + m, c) <= Dist(p + m', c) + 1
    decreases |c|
  {
    assert m == [] ==> p + m == p;
    assert m' == [] ==> p + m' == p;
    if m != [] { Snoc(p, m[0]); assert m == [m[0]]; }
    if m' != [] { Snoc(p, m'[0]); assert m' == [m'[0]]; }
    if c != [] {
      var c' := c[..|c| - 1];
      EditAtEnd(p, m, m', c');
      DistDropTarget(p, c);
      DistDropTarget(p + m, c);
    }
  }

  lemma {:induction false} EditInside(p: string, m: string, m': string, q: string, c: string)
    requires |m| <= 1 && |m'| <= 1
    ensures Dist(p + m + q, c) <= Dist(p + m' + q, c) + 1
    decreases |q| + |c|
  {
    if q == [] {
      assert p + m + q == p + m && p + m' + q == p + m';
      EditAtEnd(p, m, m', c);
    } else {
      var q', x := q[..|q| - 1], q[|q| - 1];
      assert p + m + q == (p + m + q') + [x];
      assert p + m' + q == (p + m' + q') + [x];
      Snoc(p + m + q', x);
      Snoc(p + m' + q', x);
      EditInside(p, m, m', q', c);
      if c != [] {
        EditInside(p, m, m', q, c[..|c| - 1]);
        EditInside(p, m, m', q', c[..|c| - 1]);
      }
    }
  }

  lemma {:induction false} OneEdit(e: Edit, a: string, c: string)
    requires Applicable(e, a)
    ensures Dist(a, c) <= Dist(ApplyEdit(e, a), c) + 1
  {
    match e
    case Insert(at, ch) =>
      assert a == a[..at] + [] + a[at..];
      EditInside(a[..at], [], [ch], a[at..], c);
    case Delete(at) =>
      assert a == a[..at] + [a[at]] + a[at + 1..];
      assert ApplyEdit(e, a) == a[..at] + [] + a[at + 1..];
      EditInside(a[..at], [a[at]], [], a[at + 1..], c);
    case Substitute(at, ch) =>
      assert a == a[..at] + [a[at]] + a[at + 1..];
      EditInside(a[..at], [a[at]], [ch], a[at + 1..], c);
  }

  lemma {:induction false} NoScriptIsShorter(script: seq<Edit>, a: string, b: string)
    requires Turns(script, a, b)
    ensures Dist(a, b) <= |script|
    decreases |script|
  {
    if script == [] {
      DistSelf(a);
    } else {
      OneEdit(script[0], a, b);
      NoScriptIsShorter(script[1..], ApplyEdit(script[0], a), b);
    }
  }

  // ---------- a script of exactly that length exists ----------

  lemma EditUnderTail(e: Edit, a: string, t: string)
    requires Applicable(e, a)
    ensures Applicable(e, a + t) && ApplyEdit(e, a + t) == ApplyEdit(e, a) + t
  {
  }

  /** A script for prefixes works in front of any common tail. */
  lemma {:induction false} ScriptUnderTail(script: seq<Edit>, a: string, b: string, t: string)
    requires Turns(script, a, b)
    ensures Turns(script, a + t, b + t)
    decreases |script|
  {
    if script != [] {
      var e := script[0];
      EditUnderTail(e, a, t);
      hide ApplyEdit;
      ScriptUnderTail(script[1..], ApplyEdit(e, a), b, t);
    }
  }

  lemma {:induction false} ScriptThenScript(s1: seq<Edit>, s2: seq<Edit>, a: string, b: string, c: string)
    requires Turns(s1, a, b) && Turns(s2, b, c)
    ensures Turns(s1 + s2, a, c)
    decreases |s1|
  {
    if s1 == [] {
      assert s1 + s2 == s2;
    } else {
      assert (s1 + s2)[0] == s1[0] && (s1 + s2)[1..] == s1[1..] + s2;
      ScriptThenScript(s1[1..], s2, ApplyEdit(s1[0], a), b, c);
    }
  }

  /** One edit on the last character, then a script for the prefixes. */
  lemma {:induction false} EditThenScript(e: Edit, rest: seq<Edit>, a: string, b: string)
    requires Applicable(e, a) && Turns(rest, ApplyEdit(e, a), b)
    ensures Turns([e] + rest, a, b)
  {
    assert ([e] + rest)[1..] == rest;
  }

  lemma {:induction false} AppendInsert(rest: seq<Edit>, a: string, b: string, y: char)
    requires Turns(rest, a, b)
    ensures Turns(rest + [Insert(|b|, y)], a, b + [y])
  {
    var e := Insert(|b|, y);
    assert ApplyEdit(e, b) == b + [y];
    EditThenScript(e, [], b, b + [y]);
    assert [e] + [] == [e];
    ScriptThenScript(rest, [e], a, b, b + [y]);
  }

  lemma {:induction false} PrependDelete(rest: seq<Edit>, a: string, x: char, b: string)
    requires Turns(rest, a, b)
    ensures Turns([Delete(|a|)] + rest, a + [x], b)
  {
    assert ApplyEdit(Delete(|a|), a + [x]) == a;
    EditThenScript(Delete(|a|), rest, a + [x], b);
  }

  lemma PrependSubstitute(rest: seq<Edit>, a: string, x: char, b: string, y: char)
    requires Turns(rest, a, b)
    ensures Turns(if x == y then rest else [Substitute(|a|, y)] + rest, a + [x], b + [y])
  {
    ScriptUnderTail(rest, a, b, [y]);
    if x != y {
      assert ApplyEdit(Substitute(|a|, y), a + [x]) == a + [y];
      EditThenScript(Substitute(|a|, y), rest, a + [x], b + [y]);
    }
  }

  lemma NothingToEdit()
    ensures Turns([], [], [])
  {
  }

  lemma {:induction false} OptimalScript(a: string, b: string)
    ensures exists script :: |script| == Dist(a, b) && Turns(script, a, b)
    decreases |a| + |b|
  {
    NothingToEdit();
    hide Turns;
    if a == [] && b == [] {
      var script: seq<Edit> := [];
      assert |script| == Dist(a, b) && Turns(script, a, b);
    } else if a == [] || (b != [] && Dist(a, b) == Dist(a, b[..|b| - 1]) + 1) {
      OptimalScript(a, b[..|b| - 1]);
      var rest :| |rest| == Dist(a, b[..|b| - 1]) && Turns(rest, a, b[..|b| - 1]);
      assert b == b[..|b| - 1] + [b[|b| - 1]];
      AppendInsert(rest, a, b[..|b| - 1], b[|b| - 1]);
    } else if b == [] || Dist(a, b) == Dist(a[..|a| - 1], b) + 1 {
      OptimalScript(a[..|a| - 1], b);
      var rest :| |rest| == Dist(a[..|a| - 1], b) && Turns(rest, a[..|a| - 1], b);
      assert a == a[..|a| - 1] + [a[|a| - 1]];
      PrependDelete(rest, a[..|a| - 1], a[|a| - 1], b);
    } else {
      OptimalScript(a[..|a| - 1], b[..|b| - 1]);
      var rest :| |rest| == Dist(a[..|a| - 1], b[..|b| - 1]) && Turns(rest, a[..|a| - 1], b[..|b| - 1]);
      assert a == a[..|a| - 1] + [a[|a| - 1]];
      assert b == b[..|b| - 1] + [b[|b| - 1]];
      PrependSubstitute(rest, a[..|a| - 1], a[|a| - 1], b[..|b| - 1], b[|b| - 1]);
    }
  }

  /** The tabulated number is the least number of single-character edits. */
  lemma {:induction false} DistIsEditDistance(a: string, b: string, bound: nat)
    ensures WithinEdits(a, b, bound) <==> Dist(a, b) <= bound
  {
    if WithinEdits(a, b, bound) {
      var script :| |script| <= bound && Turns(script, a, b);
      NoScriptIsShorter(script, a, b);
    }
    if Dist(a, b) <= bound {
      OptimalScript(a, b);
    }
  }

  // ---------- the two-row program ----------

  lemma RowStart(a: string, b: string, i: nat)
    requires i <= |a|
    ensures Dist(a[..i], b[..0]) == i
  {
  }

  lemma Cell(a: string, b: string, i: nat, j: nat)
    requires i < |a| && j < |b|
    ensures Dist(a[..i + 1], b[..j + 1])
         == Min(Min(Dist(a[..i], b[..j + 1]) + 1, Dist(a[..i + 1], b[..j]) + 1),
                Dist(a[..i], b[..j]) + Cost(a[i], b[j]))
  {
    var x, y := a[..i + 1], b[..j + 1];
    assert x[..|x| - 1] == a[..i] && y[..|y| - 1] == b[..j];
  }

  ghost predicate IsRow(row: array<nat>, a: string, b: string, i: nat, upTo: nat)
    reads row
    requires i <= |a| && upTo <= |b| + 1 <= row.Length
  {
    forall j :: 0 <= j < upTo ==> row[j] == Dist(a[..i], b[..j])
  }

  method LevenshteinAtMost(left: string, right: string, maxDistance: nat) returns (within: bool)
    ensures within <==> WithinEdits(left, right, maxDistance)
  {
    DistIsEditDistance(left, right, maxDistance);
    DistAtLeastLengthGap(left, right);
    hide WithinEdits;
    if |left| > |right| + maxDistance || |right| > |left| + maxDistance {
      return false;
    }
    var previous := new nat[|right| + 1](j => j);
    var current := new nat[|right| + 1](_ => 0);
    assert IsRow(previous, left, right, 0, |right| + 1);
    hide Dist;
    for i := 0 to |left|
      invariant previous != current && fresh(previous) && fresh(current)
      invariant previous.Length == current.Length == |right| + 1
      invariant IsRow(previous, left, right, i, |right| + 1)
    {
      var rowMin := FillRow(left, right, i, previous, current);
      if rowMin > maxDistance {
        SomeEntryOfEachRowIsBelow(left, right, i + 1);
        ghost var j :| 0 <= j <= |right| && Dist(left[..i + 1], right[..j]) <= Dist(left, right);
        assert current[j] == Dist(left[..i + 1], right[..j]);
        return false;
      }
      previous, current := current, previous;
    }
    assert left[..|left|] == left && right[..|right|] == right;
    return previous[|right|] <= maxDistance;
  }

  /** The inner loop: one row of the table from the row above it, and the least entry of the row. */
  method FillRow(left: string, right: string, i: nat, previous: array<nat>, current: array<nat>)
    returns (rowMin: nat)
    requires i < |left| && previous != current
    requires previous.Length == current.Length == |right| + 1
    requires IsRow(previous, left, right, i, |right| + 1)
    modifies current
    ensures IsRow(current, left, right, i + 1, |right| + 1)
    ensures forall j :: 0 <= j <= |right| ==> rowMin <= current[j]
    ensures exists j :: 0 <= j <= |right| && rowMin == current[j]
  {
    hide Dist;
    current[0] := i + 1;
    RowStart(left, right, i + 1);
    rowMin := current[0];
    ghost var arg := 0;
    for j := 0 to |right|
      invariant IsRow(current, left, right, i + 1, j + 1)
      invariant IsRow(previous, left, right, i, |right| + 1)
      invariant forall k :: 0 <= k <= j ==> rowMin <= current[k]
      invariant 0 <= arg <= j && rowMin == current[arg]
    {
      var cost := Cost(left[i], right[j]);
      var cell := Min(Min(previous[j + 1] + 1, current[j] + 1), previous[j] + cost);
      assert cell == Dist(left[..i + 1], right[..j + 1]) by { Cell(left, right, i, j); }
      current[j + 1] := cell;
      if current[j + 1] < rowMin {
        rowMin := current[j + 1];
        arg := j + 1;
      }
    }
  }
}
