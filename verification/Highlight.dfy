/** Match ranges and highlighting of search hits, over the UTF-8 bytes of the text. */
module Highlight {
  import opened Wrappers
  import opened Utf8

  /** The half-open byte interval `start..end`. */
  datatype Range = Range(start: nat, end: nat)

  function LowerByte(b: byte): byte { if 65 <= b <= 90 then b + 32 else b }

  function Lower(s: Bytes): (r: Bytes)
    ensures |r| == |s|
    ensures forall i :: 0 <= i < |s| ==> r[i] == LowerByte(s[i])
  {
    seq(|s|, i requires 0 <= i < |s| => LowerByte(s[i]))
  }

  predicate IsCharBoundary(s: Bytes, i: nat) {
    i == 0 || i == |s| || (i < |s| && !Continuation(s[i]))
  }

  predicate OccursAt(s: Bytes, term: Bytes, i: nat) {
    i + |term| <= |s| && s[i..i + |term|] == term
  }

  /** The first occurrence of `term` at or after `from`. */
  function Find(s: Bytes, term: Bytes, from: nat): (r: Option<nat>)
    ensures r.Some? ==> from <= r.value && OccursAt(s, term, r.value)
    ensures forall i :: from <= i && (r.Some? ==> i < r.value) ==> !OccursAt(s, term, i)
    decreases |s| - from
  {
    if from + |term| > |s| then None
    else if OccursAt(s, term, from) then Some(from)
    else Find(s, term, from + 1)
  }

  /** Starts of the occurrences met by scanning left to right, resuming after each one. */
  function Greedy(s: Bytes, term: Bytes, from: nat): seq<nat>
    requires term != []
    decreases |s| - from
  {
    match Find(s, term, from)
    case None => []
    case Some(i) => [i] + Greedy(s, term, i + |term|)
  }

  /** The greedy occurrences are occurrences, in order and disjoint. */
  lemma {:induction false} GreedyIsDisjoint(s: Bytes, term: Bytes, from: nat)
    requires term != []
    ensures forall k :: 0 <= k < |Greedy(s, term, from)|
              ==> from <= Greedy(s, term, from)[k] && OccursAt(s, term, Greedy(s, term, from)[k])
    ensures forall j, k :: 0 <= j < k < |Greedy(s, term, from)|
              ==> Greedy(s, term, from)[j] + |term| <= Greedy(s, term, from)[k]
    decreases |s| - from
  {
    hide OccursAt;
    var r := Find(s, term, from);
    if r.Some? {
      GreedyIsDisjoint(s, term, r.value + |term|);
      var rest := Greedy(s, term, r.value + |term|);
      forall k | 0 < k < |Greedy(s, term, from)| ensures Greedy(s, term, from)[k] == rest[k - 1] {}
    }
  }

  /** Every occurrence overlaps a greedy one, so the greedy family is maximal. */
  lemma {:induction false} GreedyIsMaximal(s: Bytes, term: Bytes, from: nat, i: nat) returns (g: nat)
    requires term != [] && from <= i && OccursAt(s, term, i)
    ensures g in Greedy(s, term, from) && g <= i < g + |term|
    decreases |s| - from
  {
    hide OccursAt;
    var r := Find(s, term, from);
    if i < r.value + |term| {
      g := r.value;
    } else {
      g := GreedyIsMaximal(s, term, r.value + |term|, i);
    }
  }

  // ---------- what the ranges cover ----------

  predicate Covers(ranges: seq<Range>, p: nat) {
    exists k :: 0 <= k < |ranges| && ranges[k].start <= p < ranges[k].end
  }

  /** The occurrence of `term` at `g` starts and ends on character boundaries of `text`. */
  predicate OnBoundaries(text: Bytes, term: Bytes, g: nat) {
    IsCharBoundary(text, g) && IsCharBoundary(text, g + |term|)
  }

  ghost predicate TermCovers(text: Bytes, term: Bytes, p: nat) {
    term != [] && exists g :: g in Greedy(Lower(text), term, 0) && OnBoundaries(text, term, g) && g <= p < g + |term|
  }

  ghost predicate HitAt(text: Bytes, terms: seq<Bytes>, p: nat) {
    exists k :: 0 <= k < |terms| && TermCovers(text, terms[k], p)
  }

  /** The two bytes are the same capital and small letter, the `n`th of the alphabet. */
  predicate CapitalOf(b: byte, t: byte, n: int) { 0 <= n < 26 && b as int == 'A' as int + n && t as int == 'a' as int + n }

  /** A capital folds to its small letter, any other byte to itself. */
  ghost predicate FoldsTo(b: byte, t: byte) {
    (exists n :: CapitalOf(b, t, n)) || (b == t && forall u, n :: !CapitalOf(b, u, n))
  }

  /** A term is found exactly where the bytes of the text fold to those of the term. */
  lemma OccursIff(text: Bytes, term: Bytes, i: nat)
    ensures OccursAt(Lower(text), term, i) <==> i + |term| <= |text| && forall j :: 0 <= j < |term| ==> FoldsTo(text[i + j], term[j])
  {
    hide FoldsTo, LowerByte;
    forall b, t ensures LowerByte(b) == t <==> FoldsTo(b, t) { LowerIff(b, t); }
    if i + |term| <= |text| {
      var part := Lower(text)[i..i + |term|];
      assert forall j :: 0 <= j < |term| ==> part[j] == LowerByte(text[i + j]);
    }
  }

  lemma LowerIff(b: byte, t: byte)
    ensures LowerByte(b) == t <==> FoldsTo(b, t)
  {
    if 65 <= b <= 90 { assert CapitalOf(b, b + 32, b as int - 65); }
  }

  /** Non-empty ranges in bounds, in order, with a gap between neighbours. */
  predicate Separated(ranges: seq<Range>, length: nat) {
    && (forall k :: 0 <= k < |ranges| ==> ranges[k].start < ranges[k].end <= length)
    && (forall j, k :: 0 <= j < k < |ranges| ==> ranges[j].end < ranges[k].start)
  }

  ghost predicate SameCover(a: seq<Range>, b: seq<Range>) {
    forall p: nat :: Covers(a, p) <==> Covers(b, p)
  }

  lemma FirstRangesAgree(a: seq<Range>, b: seq<Range>, length: nat)
    requires Separated(a, length) && Separated(b, length) && SameCover(a, b)
    requires a != [] && b != []
    ensures a[0].start <= b[0].start && a[0].end <= b[0].end
  {
    assert Covers(b, b[0].start);
    assert Covers(a, b[0].start);
    assert !Covers(b, b[0].end);
    var gap: nat := b[0].end;
    assert a[0].start <= gap < a[0].end ==> Covers(a, gap);
  }

  /** A separated list is determined by the positions it covers. */
  lemma {:induction false} SeparatedListIsCanonical(a: seq<Range>, b: seq<Range>, length: nat)
    requires Separated(a, length) && Separated(b, length) && SameCover(a, b)
    ensures a == b
    decreases |a|
  {
    if a == [] || b == [] {
      if a != [] { assert Covers(a, a[0].start); }
      if b != [] { assert Covers(b, b[0].start); }
    } else {
      FirstRangesAgree(a, b, length);
      FirstRangesAgree(b, a, length);
      assert a[0] == b[0];
      forall p: nat ensures Covers(a[1..], p) <==> Covers(b[1..], p) {
        CoversTail(a, p, length);
        CoversTail(b, p, length);
      }
      SeparatedListIsCanonical(a[1..], b[1..], length);
      assert a == [a[0]] + a[1..] && b == [b[0]] + b[1..];
    }
  }

  lemma CoversTail(a: seq<Range>, p: nat, length: nat)
    requires a != [] && Separated(a, length)
    ensures Covers(a[1..], p) <==> Covers(a, p) && !(a[0].start <= p < a[0].end)
  {
    if Covers(a, p) {
      var k :| 0 <= k < |a| && a[k].start <= p < a[k].end;
      if k > 0 { assert a[1..][k - 1] == a[k]; }
    }
  }

  // ---------- match_ranges ----------

  ghost predicate IsMatchRanges(text: Bytes, terms: seq<Bytes>, ranges: seq<Range>) {
    Separated(ranges, |text|) && forall p: nat :: Covers(ranges, p) <==> HitAt(text, terms, p)
  }

  /** The result depends on the positions hit only, not on the order or repetition of terms. */
  lemma MatchRangesAreUnique(text: Bytes, terms: seq<Bytes>, terms': seq<Bytes>, a: seq<Range>, b: seq<Range>)
    requires IsMatchRanges(text, terms, a) && IsMatchRanges(text, terms', b)
    requires forall t :: t in terms <==> t in terms'
    ensures a == b
  {
    forall p: nat ensures Covers(a, p) <==> Covers(b, p) {
      if HitAt(text, terms, p) {
        var k :| 0 <= k < |terms| && TermCovers(text, terms[k], p);
        assert terms[k] in terms';
      }
      if HitAt(text, terms', p) {
        var k :| 0 <= k < |terms'| && TermCovers(text, terms'[k], p);
        assert terms'[k] in terms;
      }
    }
    SeparatedListIsCanonical(a, b, |text|);
  }

  predicate InBounds(ranges: seq<Range>, length: nat) {
    forall k :: 0 <= k < |ranges| ==> ranges[k].start < ranges[k].end <= length
  }

  lemma CoversAppend(ranges: seq<Range>, r: Range, p: nat)
    ensures Covers(ranges + [r], p) <==> Covers(ranges, p) || r.start <= p < r.end
  {
    if Covers(ranges, p) {
      var k :| 0 <= k < |ranges| && ranges[k].start <= p < ranges[k].end;
      assert (ranges + [r])[k] == ranges[k];
    }
    if r.start <= p < r.end { assert (ranges + [r])[|ranges|] == r; }
  }

  /** The position is covered by one of the occurrences at `hits`. */
  ghost predicate CoveredBy(text: Bytes, term: Bytes, hits: seq<nat>, p: nat) {
    exists g :: g in hits && OnBoundaries(text, term, g) && g <= p < g + |term|
  }

  lemma CoveredByCons(text: Bytes, term: Bytes, g: nat, rest: seq<nat>, p: nat)
    ensures CoveredBy(text, term, [g] + rest, p)
       <==> (OnBoundaries(text, term, g) && g <= p < g + |term|) || CoveredBy(text, term, rest, p)
  {
    hide OnBoundaries;
    assert g in [g] + rest;
    forall h | h in rest ensures h in [g] + rest {}
  }

  /** Positions covered by the greedy occurrences not yet scanned. */
  ghost predicate RestCovers(text: Bytes, term: Bytes, from: nat, p: nat)
    requires term != []
  {
    CoveredBy(text, term, Greedy(Lower(text), term, from), p)
  }

  lemma RestCoversStep(text: Bytes, term: Bytes, from: nat, p: nat)
    requires term != []
    ensures var r := Find(Lower(text), term, from);
            RestCovers(text, term, from, p) <==>
            r.Some? && ((OnBoundaries(text, term, r.value) && r.value <= p < r.value + |term|)
                        || RestCovers(text, term, r.value + |term|, p))
  {
    var r := Find(Lower(text), term, from);
    GreedyStep(Lower(text), term, from);
    if r.Some? { CoveredByCons(text, term, r.value, Greedy(Lower(text), term, r.value + |term|), p); }
    hide Find, Greedy, OnBoundaries;
  }

  lemma GreedyStep(text: Bytes, term: Bytes, from: nat)
    requires term != []
    ensures var r := Find(text, term, from);
            Greedy(text, term, from) == if r.None? then [] else [r.value] + Greedy(text, term, r.value + |term|)
  {
  }

  method ScanTerm(text: Bytes, term: Bytes, before: seq<Range>) returns (ranges: seq<Range>)
    requires term != [] && InBounds(before, |text|)
    ensures InBounds(ranges, |text|)
    ensures forall p: nat :: Covers(ranges, p) <==> Covers(before, p) || TermCovers(text, term, p)
  {
    hide Covers, Greedy;
    var lower := Lower(text);
    ranges := before;
    var offset := 0;
    while true
      invariant InBounds(ranges, |text|) && offset <= |text|
      invariant forall p: nat ::
        Covers(ranges, p) || RestCovers(text, term, offset, p) <==> Covers(before, p) || RestCovers(text, term, 0, p)
      decreases |text| - offset
    {
      var found := Find(lower, term, offset);
      forall p: nat { RestCoversStep(text, term, offset, p); }
      if found.None? { break; }
      var start := found.value;
      var end := start + |term|;
      if IsCharBoundary(text, start) && IsCharBoundary(text, end) {
        forall p: nat { CoversAppend(ranges, Range(start, end), p); }
        ranges := ranges + [Range(start, end)];
      }
      offset := end;
      forall p: nat { RestCoversStep(text, term, offset, p); }
      if offset >= |lower| { break; }
    }
  }

  /** By start; of two that start together the longer one first. */
  predicate Before(a: Range, b: Range) {
    a.start < b.start || (a.start == b.start && a.end >= b.end)
  }

  predicate Ordered(ranges: seq<Range>) {
    forall j, k :: 0 <= j < k < |ranges| ==> Before(ranges[j], ranges[k])
  }

  function InsertInOrder(r: Range, sorted: seq<Range>): seq<Range> {
    if sorted == [] || Before(r, sorted[0]) then [r] + sorted
    else [sorted[0]] + InsertInOrder(r, sorted[1..])
  }

  /** The library sort: by start, longer ranges first. */
  function Sort(ranges: seq<Range>): seq<Range> {
    if ranges == [] then [] else InsertInOrder(ranges[0], Sort(ranges[1..]))
  }

  lemma {:induction false} InsertKeepsElements(r: Range, sorted: seq<Range>)
    ensures multiset(InsertInOrder(r, sorted)) == multiset(sorted) + multiset{r}
  {
    if sorted != [] && !Before(r, sorted[0]) {
      InsertKeepsElements(r, sorted[1..]);
      assert sorted == [sorted[0]] + sorted[1..];
    }
  }

  lemma {:induction false} InsertKeepsOrder(r: Range, sorted: seq<Range>)
    requires Ordered(sorted)
    ensures Ordered(InsertInOrder(r, sorted))
  {
    if sorted != [] && !Before(r, sorted[0]) {
      var rest := InsertInOrder(r, sorted[1..]);
      InsertKeepsOrder(r, sorted[1..]);
      InsertKeepsElements(r, sorted[1..]);
      forall k | 0 <= k < |rest| ensures Before(sorted[0], rest[k]) {
        assert rest[k] in multiset(rest);
      }
    }
  }

  lemma {:induction false} SortSorts(ranges: seq<Range>)
    ensures Ordered(Sort(ranges)) && multiset(Sort(ranges)) == multiset(ranges)
  {
    if ranges != [] {
      SortSorts(ranges[1..]);
      InsertKeepsOrder(ranges[0], Sort(ranges[1..]));
      InsertKeepsElements(ranges[0], Sort(ranges[1..]));
      assert ranges == [ranges[0]] + ranges[1..];
    }
  }

  lemma SameMultisetSameCover(a: seq<Range>, b: seq<Range>)
    requires multiset(a) == multiset(b)
    ensures SameCover(a, b)
  {
    forall p: nat ensures Covers(a, p) <==> Covers(b, p) {
      if Covers(a, p) {
        var k :| 0 <= k < |a| && a[k].start <= p < a[k].end;
        assert a[k] in multiset(b);
      }
      if Covers(b, p) {
        var k :| 0 <= k < |b| && b[k].start <= p < b[k].end;
        assert b[k] in multiset(a);
      }
    }
  }

  /** Widening the last range to take in one that touches it. */
  lemma CoversWiden(merged: seq<Range>, r: Range, p: nat)
    requires merged != [] && merged[|merged| - 1].start <= r.start <= merged[|merged| - 1].end
    ensures var last := merged[|merged| - 1];
            var wide := Range(last.start, if last.end >= r.end then last.end else r.end);
            Covers(merged[..|merged| - 1] + [wide], p) <==> Covers(merged, p) || r.start <= p < r.end
  {
    var last := merged[|merged| - 1];
    var wide := Range(last.start, if last.end >= r.end then last.end else r.end);
    CoversAppend(merged[..|merged| - 1], wide, p);
    CoversAppend(merged[..|merged| - 1], last, p);
    assert merged == merged[..|merged| - 1] + [last];
  }

  lemma NothingCovered()
    ensures SameCover([], [])
  {
  }

  /** The last range, widened to take in `r`. */
  function Widened(merged: seq<Range>, r: Range): seq<Range>
    requires merged != []
  {
    var last := merged[|merged| - 1];
    merged[..|merged| - 1] + [Range(last.start, if last.end >= r.end then last.end else r.end)]
  }

  lemma WidenedIsSeparated(merged: seq<Range>, r: Range, length: nat)
    requires Separated(merged, length) && r.start < r.end <= length && merged != []
    ensures Separated(Widened(merged, r), length)
  {
  }

  lemma WidenedCover(merged: seq<Range>, before: seq<Range>, r: Range)
    requires SameCover(merged, before)
    requires merged != [] && merged[|merged| - 1].start <= r.start <= merged[|merged| - 1].end
    ensures SameCover(Widened(merged, r), before + [r])
  {
    hide Covers;
    forall p: nat ensures Covers(Widened(merged, r), p) <==> Covers(before + [r], p) {
      CoversWiden(merged, r, p);
      CoversAppend(before, r, p);
    }
  }

  lemma AppendedCover(merged: seq<Range>, before: seq<Range>, r: Range)
    requires SameCover(merged, before)
    ensures SameCover(merged + [r], before + [r])
  {
    hide Covers;
    forall p: nat { CoversAppend(merged, r, p); }
    forall p: nat { CoversAppend(before, r, p); }
  }

  method MergeRanges(ranges: seq<Range>, ghost length: nat) returns (merged: seq<Range>)
    requires Ordered(ranges) && InBounds(ranges, length)
    ensures Separated(merged, length) && SameCover(merged, ranges)
  {
    hide Covers, SameCover;
    merged := [];
    NothingCovered();
    assert ranges[..0] == [];
    for i := 0 to |ranges|
      invariant Separated(merged, length)
      invariant merged != [] ==> i > 0 && merged[|merged| - 1].start <= ranges[i - 1].start
      invariant SameCover(merged, ranges[..i])
    {
      var range := ranges[i];
      assert ranges[..i + 1] == ranges[..i] + [range];
      if merged != [] && range.start <= merged[|merged| - 1].end {
        WidenedIsSeparated(merged, range, length);
        WidenedCover(merged, ranges[..i], range);
        var last := merged[|merged| - 1];
        merged := merged[..|merged| - 1] + [Range(last.start, if last.end >= range.end then last.end else range.end)];
      } else {
        AppendedCover(merged, ranges[..i], range);
        merged := merged + [range];
      }
    }
    assert ranges[..|ranges|] == ranges;
  }

  method MatchRanges(text: Bytes, terms: seq<Bytes>) returns (merged: seq<Range>)
    ensures IsMatchRanges(text, terms, merged)
  {
    var ranges: seq<Range> := [];
    assert forall p: nat :: !Covers([], p) && !HitAt(text, terms[..0], p);
    hide Covers, TermCovers;
    for k := 0 to |terms|
      invariant InBounds(ranges, |text|)
      invariant forall p: nat :: Covers(ranges, p) <==> HitAt(text, terms[..k], p)
    {
      forall p: nat { HitAppend(text, terms, k, p); }
      if terms[k] != [] {
        ranges := ScanTerm(text, terms[k], ranges);
      }
    }
    assert terms[..|terms|] == terms;
    var sorted := Sort(ranges);
    SortSorts(ranges);
    forall k | 0 <= k < |sorted| ensures sorted[k].start < sorted[k].end <= |text| {
      assert sorted[k] in multiset(ranges);
    }
    SameMultisetSameCover(sorted, ranges);
    merged := MergeRanges(sorted, |text|);
  }

  lemma HitAppend(text: Bytes, terms: seq<Bytes>, k: nat, p: nat)
    requires k < |terms|
    ensures HitAt(text, terms[..k + 1], p) <==> HitAt(text, terms[..k], p) || TermCovers(text, terms[k], p)
    ensures terms[k] == [] ==> !TermCovers(text, terms[k], p)
  {
    if HitAt(text, terms[..k], p) {
      var j :| 0 <= j < k && TermCovers(text, terms[..k][j], p);
      assert terms[..k + 1][j] == terms[..k][j];
    }
    if TermCovers(text, terms[k], p) { assert terms[..k + 1][k] == terms[k]; }
  }

  // ---------- highlight_text ----------

  /** `text` from `cursor` on, with a tag pair around each range. */
  function Tagged(text: Bytes, ranges: seq<Range>, cursor: nat, pre: Bytes, post: Bytes): Bytes
    requires cursor <= |text| && Separated(ranges, |text|)
    requires ranges != [] ==> cursor <= ranges[0].start
  {
    if ranges == [] then text[cursor..]
    else
      var r := ranges[0];
      text[cursor..r.start] + pre + text[r.start..r.end] + post + Tagged(text, ranges[1..], r.end, pre, post)
  }

  /** Take the tags out of `output` again, at the places the ranges put them. */
  function Erased(output: Bytes, ranges: seq<Range>, cursor: nat, pre: nat, post: nat): Option<Bytes> {
    if ranges == [] then Some(output)
    else
      var r := ranges[0];
      if !(cursor <= r.start <= r.end && r.end - cursor + pre + post <= |output|) then None
      else
        match Erased(output[r.end - cursor + pre + post..], ranges[1..], r.end, pre, post)
        case None => None
        case Some(rest) => Some(output[..r.start - cursor] + output[r.start - cursor + pre..r.end - cursor + pre] + rest)
  }

  lemma {:induction false} ErasingTagsRestoresText(text: Bytes, ranges: seq<Range>, cursor: nat, pre: Bytes, post: Bytes)
    requires cursor <= |text| && Separated(ranges, |text|)
    requires ranges != [] ==> cursor <= ranges[0].start
    ensures Erased(Tagged(text, ranges, cursor, pre, post), ranges, cursor, |pre|, |post|) == Some(text[cursor..])
    decreases |ranges|
  {
    if ranges != [] {
      var r := ranges[0];
      var rest := Tagged(text, ranges[1..], r.end, pre, post);
      var output := Tagged(text, ranges, cursor, pre, post);
      var gap, hit := text[cursor..r.start], text[r.start..r.end];
      PiecesOfOutput(gap, pre, hit, post, rest);
      assert |gap| == r.start - cursor && |gap| + |hit| == r.end - cursor;
      assert output == gap + pre + hit + post + rest;
      RestSeparated(ranges, |text|);
      hide Separated, Tagged;
      ErasingTagsRestoresText(text, ranges[1..], r.end, pre, post);
      assert text[cursor..] == gap + hit + text[r.end..];
    }
  }

  /** The bytes of `k` tag pairs. */
  function TagBytes(k: nat, pre: Bytes, post: Bytes): nat { k * (|pre| + |post|) }

  lemma MoreTagBytes(k: nat, pre: Bytes, post: Bytes)
    ensures TagBytes(0, pre, post) == 0 && TagBytes(k + 1, pre, post) == TagBytes(k, pre, post) + |pre| + |post|
  {
  }

  predicate StandsAt(output: Bytes, at: int, part: Bytes) { 0 <= at <= |output| && part <= output[at..] }

  /** Around the text of each range stand exactly the two tags, behind those of the ranges before it. */
  lemma {:induction false} TagsStandAround(text: Bytes, ranges: seq<Range>, cursor: nat, pre: Bytes, post: Bytes, k: nat)
    requires cursor <= |text| && Separated(ranges, |text|)
    requires ranges != [] ==> cursor <= ranges[0].start
    requires k < |ranges|
    ensures var r := ranges[k];
            StandsAt(Tagged(text, ranges, cursor, pre, post), r.start - cursor + TagBytes(k, pre, post), pre + text[r.start..r.end] + post)
    decreases |ranges|
  {
    var r := ranges[0];
    TaggedFront(text, ranges, cursor, pre, post);
    var gap, tagged, rest := text[cursor..r.start], pre + text[r.start..r.end] + post, Tagged(text, ranges[1..], r.end, pre, post);
    hide Tagged, Separated, TagBytes, StandsAt;
    MoreTagBytes(if k == 0 then 0 else k - 1, pre, post);
    if k == 0 {
      InFront(gap, tagged, rest);
    } else {
      TagsStandAround(text, ranges[1..], r.end, pre, post, k - 1);
      var again := ranges[1..][k - 1];
      BehindFront(gap + tagged, rest, again.start - r.end + TagBytes(k - 1, pre, post), pre + text[again.start..again.end] + post);
    }
  }

  lemma {:induction false} TaggedFront(text: Bytes, ranges: seq<Range>, cursor: nat, pre: Bytes, post: Bytes)
    requires cursor <= |text| && ranges != [] && Separated(ranges, |text|) && cursor <= ranges[0].start
    ensures var r := ranges[0];
            var gap, tagged := text[cursor..r.start], pre + text[r.start..r.end] + post;
            && Separated(ranges[1..], |text|) && (ranges[1..] != [] ==> r.end <= ranges[1..][0].start) && r.start < r.end <= |text|
            && |gap| == r.start - cursor && |gap + tagged| == r.end - cursor + |pre| + |post|
            && Tagged(text, ranges, cursor, pre, post) == gap + tagged + Tagged(text, ranges[1..], r.end, pre, post)
    ensures forall k :: 0 <= k < |ranges| ==> ranges[k].start < ranges[k].end <= |text|
  {
    RestSeparated(ranges, |text|);
    var r := ranges[0];
    var gap, hit, rest := text[cursor..r.start], text[r.start..r.end], Tagged(text, ranges[1..], r.end, pre, post);
    assert Tagged(text, ranges, cursor, pre, post) == gap + pre + hit + post + rest;
    hide Tagged, Separated;
    assert gap + pre + hit + post + rest == gap + (pre + hit + post) + rest;
  }

  lemma RestSeparated(ranges: seq<Range>, length: nat)
    requires ranges != [] && Separated(ranges, length)
    ensures Separated(ranges[1..], length) && (ranges[1..] != [] ==> ranges[0].end <= ranges[1..][0].start)
    ensures forall k :: 0 <= k < |ranges| ==> ranges[k].start < ranges[k].end <= length
  {
  }

  lemma InFront(gap: Bytes, tagged: Bytes, rest: Bytes)
    ensures StandsAt(gap + tagged + rest, |gap|, tagged)
  {
    assert (gap + tagged + rest)[|gap|..] == tagged + rest;
  }

  lemma BehindFront(front: Bytes, rest: Bytes, at: int, part: Bytes)
    requires StandsAt(rest, at, part)
    ensures StandsAt(front + rest, |front| + at, part)
  {
    assert (front + rest)[|front| + at..] == rest[at..];
  }

  /** One tag pair per range. */
  lemma {:induction false} OneTagPairPerRange(text: Bytes, ranges: seq<Range>, cursor: nat, pre: Bytes, post: Bytes)
    requires cursor <= |text| && Separated(ranges, |text|)
    requires ranges != [] ==> cursor <= ranges[0].start
    ensures |Tagged(text, ranges, cursor, pre, post)| == |text| - cursor + |ranges| * (|pre| + |post|)
    decreases |ranges|
  {
    if ranges != [] {
      OneMoreTagged(text, ranges, cursor, pre, post);
      hide Separated, Tagged;
      OneTagPairPerRange(text, ranges[1..], ranges[0].end, pre, post);
      OneMorePair(|ranges[1..]|, |pre| + |post|);
    }
  }

  lemma {:induction false} OneMoreTagged(text: Bytes, ranges: seq<Range>, cursor: nat, pre: Bytes, post: Bytes)
    requires cursor <= |text| && ranges != [] && Separated(ranges, |text|) && cursor <= ranges[0].start
    ensures ranges[0].end <= |text| && Separated(ranges[1..], |text|) && (ranges[1..] != [] ==> ranges[0].end <= ranges[1..][0].start)
    ensures |Tagged(text, ranges, cursor, pre, post)|
         == ranges[0].end - cursor + |pre| + |post| + |Tagged(text, ranges[1..], ranges[0].end, pre, post)|
  {
  }

  lemma OneMorePair(n: nat, pair: nat)
    ensures (n + 1) * pair == n * pair + pair
  {
  }

  lemma PiecesOfOutput(gap: Bytes, pre: Bytes, hit: Bytes, post: Bytes, rest: Bytes)
    ensures var output := gap + pre + hit + post + rest;
            && output[..|gap|] == gap
            && output[|gap| + |pre|..|gap| + |pre| + |hit|] == hit
            && output[|gap| + |hit| + |pre| + |post|..] == rest
  {
  }

  lemma {:induction false} TagOneMore(text: Bytes, ranges: seq<Range>, cursor: nat, pre: Bytes, post: Bytes, output: Bytes)
    requires cursor <= |text| && ranges != [] && Separated(ranges, |text|) && cursor <= ranges[0].start
    ensures output + Tagged(text, ranges, cursor, pre, post)
         == output + text[cursor..ranges[0].start] + pre + text[ranges[0].start..ranges[0].end] + post
            + Tagged(text, ranges[1..], ranges[0].end, pre, post)
  {
    hide Separated;
  }

  lemma TagNothing(text: Bytes, pre: Bytes, post: Bytes)
    ensures forall cursor: nat :: cursor <= |text| ==> Tagged(text, [], cursor, pre, post) == text[cursor..]
  {
  }

  method HighlightText(text: Bytes, terms: seq<Bytes>, preTag: Bytes, postTag: Bytes)
    returns (output: Bytes)
    ensures exists ranges :: IsMatchRanges(text, terms, ranges) && output == Tagged(text, ranges, 0, preTag, postTag)
  {
    var found := MatchRanges(text, terms);
    assert Separated(found, |text|);
    hide Tagged, IsMatchRanges;
    TagNothing(text, preTag, postTag);
    if found == [] {
      assert text[0..] == text;
      return text;
    }
    output := [];
    var cursor: nat := 0;
    assert found[0..] == found;
    for k := 0 to |found|
      invariant cursor <= |text| && (k < |found| ==> cursor <= found[k].start)
      invariant Separated(found[k..], |text|)
      invariant Tagged(text, found, 0, preTag, postTag) == output + Tagged(text, found[k..], cursor, preTag, postTag)
    {
      var range := found[k];
      if range.start < cursor {
        assert false;  // the ranges are separated, so no range is ever skipped
      } else {
        assert found[k..][0] == range && found[k..][1..] == found[k + 1..];
        TagOneMore(text, found[k..], cursor, preTag, postTag, output);
        output := output + text[cursor..range.start];
        output := output + preTag;
        output := output + text[range.start..range.end];
        output := output + postTag;
        cursor := range.end;
      }
    }
    assert found[|found|..] == [];
    output := output + text[cursor..];
  }

  // ---------- UTF-8: the boundary test never drops an occurrence ----------

  lemma {:induction false} LowerKeepsUtf8(s: Bytes)
    requires WellFormed(s)
    ensures WellFormed(Lower(s))
  {
    if s != [] {
      var w := Width(s[0]);
      LowerKeepsUtf8(s[w..]);
      assert Lower(s)[w..] == Lower(s[w..]);
    }
  }

  /** On well-formed text and terms the boundary test of the scan is always passed. */
  lemma {:induction false} OccurrencesAreOnBoundaries(text: Bytes, term: Bytes, i: nat)
    requires WellFormed(text) && WellFormed(term) && term != [] && OccursAt(Lower(text), term, i)
    ensures OnBoundaries(text, term, i)
  {
    var lower := Lower(text);
    LowerKeepsUtf8(text);
    assert lower[i] == term[0];
    SuffixAtLeadIsWellFormed(lower, i);
    assert lower[i..] == term + lower[i + |term|..];
    RestIsWellFormed(term, lower[i + |term|..]);
    if i + |term| < |text| {
      assert lower[i + |term|..][0] == LowerByte(text[i + |term|]);
    }
  }
}
