/** Storage keys and the encoding of values and rows. */
module StorageFormat {
  import opened Utf8
  import opened Wrappers
  import opened Json
  import opened Text
  import opened Catalog

  // ---------- key parts ----------

  predicate Plain(b: byte) {
    48 <= b <= 57 || 65 <= b <= 90 || 97 <= b <= 122 || b == 95 || b == 45 || b == 46
  }

  function HexDigit(d: nat): char
    requires d < 16
  {
    if d < 10 then '0' + d as char else 'A' + (d - 10) as char
  }

  function BytePart(b: byte): string {
    if Plain(b) then [b as char] else ['%', HexDigit((b / 16) as nat), HexDigit((b % 16) as nat)]
  }

  function BytesPart(s: Bytes): string {
    if s == [] then [] else BytePart(s[0]) + BytesPart(s[1..])
  }

  lemma PartOneMore(bytes: Bytes, i: nat, out: string)
    requires i < |bytes|
    ensures out + BytesPart(bytes[i..]) == (out + BytePart(bytes[i])) + BytesPart(bytes[i + 1..])
  {
    assert bytes[i..][1..] == bytes[i + 1..];
    hide BytePart;
  }

  method StorageKeyPart(value: string) returns (out: string)
    ensures out == BytesPart(Encode(value))
  {
    hide Encode;
    var bytes := Encode(value);
    out := [];
    assert bytes[0..] == bytes;
    for i := 0 to |bytes|
      invariant BytesPart(bytes) == out + BytesPart(bytes[i..])
    {
      PartOneMore(bytes, i, out);
      var b := bytes[i];
      if Plain(b) {
        out := out + [b as char];
      } else {
        out := out + ['%', HexDigit((b / 16) as nat), HexDigit((b % 16) as nat)];
      }
    }
  }

  function KeyPart(value: string): string { BytesPart(Encode(value)) }

  /** Letters, digits and `_-.%`: nothing that separates key fields or means something in a pattern. */
  predicate PartChar(c: char) {
    '0' <= c <= '9' || 'A' <= c <= 'Z' || 'a' <= c <= 'z' || c == '_' || c == '-' || c == '.' || c == '%'
  }

  lemma {:induction false} PartChars(s: Bytes)
    ensures forall i :: 0 <= i < |BytesPart(s)| ==> PartChar(BytesPart(s)[i])
  {
    if s != [] { PartChars(s[1..]); }
  }

  lemma BytePartInjective(a: byte, b: byte, s: string, t: string)
    requires BytePart(a) + s == BytePart(b) + t
    ensures a == b && s == t
  {
    var u := BytePart(a) + s;
    assert u[0] == BytePart(a)[0] == BytePart(b)[0];
    if !Plain(a) {
      assert u[1] == BytePart(a)[1] == BytePart(b)[1] && u[2] == BytePart(a)[2] == BytePart(b)[2];
      assert a / 16 == b / 16 && a % 16 == b % 16;
    }
    assert a == b;
    assert s == u[|BytePart(a)|..] && t == u[|BytePart(b)|..];
  }

  lemma {:induction false} BytesPartInjective(s: Bytes, t: Bytes)
    requires BytesPart(s) == BytesPart(t)
    ensures s == t
  {
    hide BytePart;
    BytePartsAreNotEmpty(s);
    BytePartsAreNotEmpty(t);
    if s != [] && t != [] {
      BytePartInjective(s[0], t[0], BytesPart(s[1..]), BytesPart(t[1..]));
      BytesPartInjective(s[1..], t[1..]);
      assert s == [s[0]] + s[1..] && t == [t[0]] + t[1..];
    }
  }

  lemma {:induction false} BytePartsAreNotEmpty(s: Bytes)
    ensures s != [] ==> BytesPart(s) != []
  {
  }

  /** The value of an upper-case hexadecimal digit. */
  function HexValue(c: char): Option<nat> {
    if '0' <= c <= '9' then Some(c as nat - '0' as nat) else if 'A' <= c <= 'F' then Some(c as nat - 'A' as nat + 10) else None
  }

  /** A percent sign and two digits stand for a byte, any other character for itself. */
  function ReadPart(s: string): Option<Bytes> {
    if s == [] then Some([])
    else if s[0] != '%' then
      match ReadPart(s[1..])
      case None => None
      case Some(rest) => if s[0] as int < 256 then Some([s[0] as byte] + rest) else None
    else if |s| < 3 || HexValue(s[1]).None? || HexValue(s[2]).None? then None
    else
      match ReadPart(s[3..])
      case None => None
      case Some(rest) => Some([(HexValue(s[1]).value * 16 + HexValue(s[2]).value) as byte] + rest)
  }

  /** A key part is percent-encoded: reading it gives the bytes back. */
  lemma {:induction false} PartReadsBack(s: Bytes)
    ensures ReadPart(BytesPart(s)) == Some(s)
  {
    if s != [] {
      PartReadsBack(s[1..]);
      assert s == [s[0]] + s[1..];
      ReadOnePart(s[0], BytesPart(s[1..]));
    }
  }

  lemma {:induction false} ReadOnePart(b: byte, rest: string)
    requires ReadPart(rest).Some?
    ensures ReadPart(BytePart(b) + rest) == Some([b] + ReadPart(rest).value)
  {
    var s := BytePart(b) + rest;
    if Plain(b) {
      assert s[1..] == rest && s[0] as byte == b;
    } else {
      assert s[3..] == rest && s[1] == HexDigit((b / 16) as nat) && s[2] == HexDigit((b % 16) as nat);
      assert HexValue(s[1]) == Some((b / 16) as nat) && HexValue(s[2]) == Some((b % 16) as nat);
    }
  }

  /** Letters, digits and `_-.` are not encoded. */
  lemma {:induction false} PlainPartStays(s: Bytes)
    requires forall i :: 0 <= i < |s| ==> PartChar(s[i] as char) && s[i] as char != '%'
    ensures |BytesPart(s)| == |s| && forall i :: 0 <= i < |s| ==> BytesPart(s)[i] == s[i] as char
  {
    if s != [] { PlainPartStays(s[1..]); }
  }

  /** Distinct names have distinct key parts. */
  lemma KeyPartInjective(a: string, b: string)
    requires KeyPart(a) == KeyPart(b)
    ensures a == b
  {
    BytesPartInjective(Encode(a), Encode(b));
    EncodeInjective(a, b);
  }

  // ---------- keys ----------

  function RowPrefix(table: string): string { "my-sqweel:row:" + KeyPart(table) + ":" }

  /** Keys of the store hold no star, so that patterns never meet one. */
  type StoreKey = key: string | '*' !in key

  function RowKey(table: string, pk: string): StoreKey {
    PartHasNoColon(table);
    PartHasNoColon(pk);
    RowPrefix(table) + KeyPart(pk)
  }

  function RowPattern(table: string): string { RowPrefix(table) + "*" }

  function TablePksKey(table: string): StoreKey {
    PartHasNoColon(table);
    "my-sqweel:table_pks:" + KeyPart(table)
  }

  lemma {:induction false} SplitAtColon(p: string, q: string, s: string, t: string)
    requires ':' !in p && ':' !in q && p + ":" + s == q + ":" + t
    ensures p == q && s == t
  {
    if p == [] || q == [] {
      assert (p + ":" + s)[0] == (q + ":" + t)[0];
      assert (p + ":" + s)[1..] == (q + ":" + t)[1..];
      assert p == [] ==> (p + ":" + s)[1..] == s;
      assert q == [] ==> (q + ":" + t)[1..] == t;
    } else {
      assert (p + ":" + s)[0] == (q + ":" + t)[0];
      assert (p + ":" + s)[1..] == p[1..] + ":" + s && (q + ":" + t)[1..] == q[1..] + ":" + t;
      SplitAtColon(p[1..], q[1..], s, t);
      assert p == [p[0]] + p[1..] && q == [q[0]] + q[1..];
    }
  }

  /** Distinct (table, row) pairs never share a storage key. */
  lemma RowKeyInjective(t: string, pk: string, t': string, pk': string)
    requires RowKey(t, pk) == RowKey(t', pk')
    ensures t == t' && pk == pk'
  {
    hide KeyPart;
    var n := |"my-sqweel:row:"|;
    assert RowKey(t, pk)[n..] == KeyPart(t) + ":" + KeyPart(pk);
    assert RowKey(t', pk')[n..] == KeyPart(t') + ":" + KeyPart(pk');
    PartHasNoColon(t);
    PartHasNoColon(t');
    SplitAtColon(KeyPart(t), KeyPart(t'), KeyPart(pk), KeyPart(pk'));
    KeyPartInjective(t, t');
    KeyPartInjective(pk, pk');
  }

  lemma PartHasNoColon(name: string)
    ensures ':' !in KeyPart(name) && '*' !in KeyPart(name) && '?' !in KeyPart(name)
  {
    PartChars(Encode(name));
  }

  lemma TablePksKeyInjective(t: string, t': string)
    requires TablePksKey(t) == TablePksKey(t')
    ensures t == t'
  {
    hide KeyPart;
    var n := |"my-sqweel:table_pks:"|;
    assert TablePksKey(t)[n..] == KeyPart(t) && TablePksKey(t')[n..] == KeyPart(t');
    KeyPartInjective(t, t');
  }

  lemma RowKeyIsNoPksKey(t: string, pk: string, t': string)
    ensures RowKey(t, pk) != TablePksKey(t')
  {
    assert RowKey(t, pk)[10] == 'r' && TablePksKey(t')[10] == 't';
  }

  // ---------- patterns ----------

  /** What a pattern means: `?` is any character, `*` any run of characters. */
  ghost predicate Glob(pattern: string, s: string)
    decreases |pattern|
  {
    if pattern == [] then s == []
    else if pattern[0] == '*' then exists n: nat :: n <= |s| && Glob(pattern[1..], s[n..])
    else s != [] && (pattern[0] == '?' || pattern[0] == s[0]) && Glob(pattern[1..], s[1..])
  }

  /** A pattern that begins with a star and matches a later part of the text matches from earlier on. */
  lemma {:induction false} StarReachesBack(pattern: string, s: string, early: nat, late: nat)
    requires pattern != [] && pattern[0] == '*' && early <= late <= |s| && Glob(pattern, s[late..])
    ensures Glob(pattern, s[early..])
  {
    var n: nat :| n <= |s[late..]| && Glob(pattern[1..], s[late..][n..]);
    assert s[late..][n..] == s[early..][late - early + n..];
  }

  predicate Fits(c: char, d: char) { c != '*' && (c == '?' || c == d) }

  /** The characters, none of the pattern's a star, fit one by one. */
  predicate AllFit(p: string, t: string) { |p| == |t| && forall i :: 0 <= i < |p| ==> Fits(p[i], t[i]) }

  /** Fixed characters that fit are taken off both sides. */
  lemma {:induction false} FittingPrefix(p: string, t: string, pattern: string, s: string)
    requires AllFit(p, t)
    ensures Glob(p + pattern, t + s) <==> Glob(pattern, s)
    decreases |p|
  {
    if p == [] {
      assert p + pattern == pattern && t + s == s;
    } else {
      assert (p + pattern)[1..] == p[1..] + pattern && (t + s)[1..] == t[1..] + s;
      assert Fits(p[0], t[0]);
      FittingPrefix(p[1..], t[1..], pattern, s);
    }
  }

  /** Wherever fixed characters match, they take as many characters of the text. */
  lemma {:induction false} PrefixTakes(p: string, pattern: string, s: string)
    requires '*' !in p && Glob(p + pattern, s)
    ensures |p| <= |s| && Glob(pattern, s[|p|..])
    decreases |p|
  {
    if p == [] {
      assert p + pattern == pattern && s[0..] == s;
    } else {
      assert (p + pattern)[1..] == p[1..] + pattern && p[0] in p;
      PrefixTakes(p[1..], pattern, s[1..]);
      assert s[1..][|p| - 1..] == s[|p|..];
    }
  }

  lemma FittingHasNoStar(p: string, t: string)
    requires AllFit(p, t)
    ensures '*' !in p
  {
  }

  /** The pattern between the two places fits the text from `at` on. */
  predicate FitsFrom(pattern: string, from: nat, to: nat, s: string, at: nat) {
    from <= to <= |pattern| && at + (to - from) <= |s| && AllFit(pattern[from..to], s[at..at + (to - from)])
  }

  lemma FitsOneMore(pattern: string, from: nat, to: nat, s: string, at: nat)
    requires FitsFrom(pattern, from, to, s, at) && to < |pattern| && at + (to - from) < |s| && Fits(pattern[to], s[at + (to - from)])
    ensures FitsFrom(pattern, from, to + 1, s, at)
  {
    var p, t := pattern[from..to], s[at..at + (to - from)];
    assert pattern[from..to + 1] == p + [pattern[to]] && s[at..at + (to + 1 - from)] == t + [s[at + (to - from)]];
  }

  lemma TakeFitting(pattern: string, from: nat, to: nat, s: string, at: nat)
    requires FitsFrom(pattern, from, to, s, at)
    ensures Glob(pattern[from..], s[at..]) <==> Glob(pattern[to..], s[at + (to - from)..])
  {
    var si := at + (to - from);
    assert pattern[from..] == pattern[from..to] + pattern[to..] && s[at..] == s[at..si] + s[si..];
    FittingPrefix(pattern[from..to], s[at..si], pattern[to..], s[si..]);
  }

  /** A star is a choice of where to go on. */
  lemma StarSplits(pattern: string, at: nat, s: string, from: nat)
    requires at < |pattern| && pattern[at] == '*' && from <= |s|
    ensures Glob(pattern[at..], s[from..]) <==> Glob(pattern[at + 1..], s[from..]) || (from < |s| && Glob(pattern[at..], s[from + 1..]))
  {
    assert pattern[at..][1..] == pattern[at + 1..];
    if Glob(pattern[at + 1..], s[from..]) { assert s[from..][0..] == s[from..]; }
    if from < |s| && Glob(pattern[at..], s[from + 1..]) { StarReachesBack(pattern[at..], s, from, from + 1); }
    if Glob(pattern[at..], s[from..]) {
      var n: nat :| n <= |s[from..]| && Glob(pattern[at..][1..], s[from..][n..]);
      if n > 0 { assert s[from..][n..] == s[from + 1..][n - 1..]; } else { assert s[from..][0..] == s[from..]; }
    }
  }

  /** If the star takes `n` characters, the rest of the pattern is met that much later. */
  lemma StarTakes(pattern: string, star: nat, pi: nat, s: string, starSi: nat) returns (n: nat)
    requires star < |pattern| && pattern[star] == '*' && FitsFrom(pattern, star + 1, pi, s, starSi) && Glob(pattern[star..], s[starSi..])
    ensures starSi + (pi - star - 1) + n <= |s| && Glob(pattern[pi..], s[starSi + (pi - star - 1) + n..])
  {
    assert pattern[star..][1..] == pattern[star + 1..];
    n :| n <= |s[starSi..]| && Glob(pattern[star + 1..], s[starSi..][n..]);
    var p := pattern[star + 1..pi];
    assert pattern[star + 1..] == p + pattern[pi..];
    FittingHasNoStar(p, s[starSi..starSi + (pi - star - 1)]);
    PrefixTakes(p, pattern[pi..], s[starSi..][n..]);
    assert s[starSi..][n..][|p|..] == s[starSi + (pi - star - 1) + n..];
  }

  /** Meeting the next star, nothing is lost by keeping the earliest place reached. */
  lemma NextStar(pattern: string, star: nat, starSi: nat, pi: nat, s: string)
    requires star < |pattern| && pattern[star] == '*' && pi < |pattern| && pattern[pi] == '*'
    requires FitsFrom(pattern, star + 1, pi, s, starSi)
    ensures Glob(pattern[star..], s[starSi..]) <==> Glob(pattern[pi..], s[starSi + (pi - star - 1)..])
  {
    var si := starSi + (pi - star - 1);
    TakeFitting(pattern, star + 1, pi, s, starSi);
    StarSplits(pattern, star, s, starSi);
    if Glob(pattern[star..], s[starSi..]) {
      var n := StarTakes(pattern, star, pi, s, starSi);
      StarReachesBack(pattern[pi..], s, si, si + n);
    }
  }

  /** Where the pattern stops fitting, the last star has to take one more character. */
  lemma OneMoreForStar(pattern: string, star: nat, starSi: nat, pi: nat, s: string)
    requires star < |pattern| && pattern[star] == '*' && FitsFrom(pattern, star + 1, pi, s, starSi)
    requires var si := starSi + (pi - star - 1); si < |s| && (pi < |pattern| ==> pattern[pi] != '*' && !Fits(pattern[pi], s[si]))
    ensures Glob(pattern[star..], s[starSi..]) <==> Glob(pattern[star..], s[starSi + 1..])
  {
    TakeFitting(pattern, star + 1, pi, s, starSi);
    StarSplits(pattern, star, s, starSi);
    var si := starSi + (pi - star - 1);
    NothingFits(pattern[pi..], s[si..]);
  }

  /** At the end of the text only stars may be left. */
  lemma {:induction false} OnlyStarsLeft(pattern: string, pi: nat)
    requires pi <= |pattern|
    ensures Glob(pattern[pi..], []) <==> forall i :: pi <= i < |pattern| ==> pattern[i] == '*'
    decreases |pattern| - pi
  {
    if pi < |pattern| {
      assert pattern[pi..][1..] == pattern[pi + 1..];
      OnlyStarsLeft(pattern, pi + 1);
      assert ""[0..] == "";
      if pattern[pi] == '*' && Glob(pattern[pi..], []) {
        var n: nat :| n <= |""| && Glob(pattern[pi..][1..], ""[n..]);
      }
    }
  }

  /** The store's matcher goes back to the last star only. On text without a star it decides the
      meaning of the pattern. */
  method GlobMatches(pattern: string, s: string) returns (r: bool)
    ensures '*' !in s ==> (r <==> Glob(pattern, s))
  {
    hide Glob, FitsFrom, Fits;
    assert pattern[0..] == pattern && s[0..] == s;
    FitsNothing(pattern, 0, s, 0);
    if pattern == "*" {
      StarMatchesAll(s);
      return true;
    }
    var pi: nat, si: nat, star: Option<nat>, starSi: nat := 0, 0, None, 0;
    while si < |s|
      invariant pi <= |pattern| && starSi <= si <= |s|
      invariant star.Some? ==> star.value < pi && pattern[star.value] == '*'
      invariant '*' !in s ==> match star
                              case None => FitsFrom(pattern, 0, pi, s, 0) && pi == si && starSi == 0
                              case Some(k) => FitsFrom(pattern, k + 1, pi, s, starSi) && si == starSi + (pi - k - 1)
                                              && (Glob(pattern, s) <==> Glob(pattern[k..], s[starSi..]))
      decreases |s| - starSi, |s| - si, |pattern| - pi
    {
      if pi < |pattern| && (pattern[pi] == '?' || pattern[pi] == s[si]) {
        if '*' !in s {
          assert s[si] in s;
          StarsDoNotFit(pattern[pi], s[si]);
          FitsOneMore(pattern, if star.Some? then star.value + 1 else 0, pi, s, starSi);
        }
        pi, si := pi + 1, si + 1;
      } else if pi < |pattern| && pattern[pi] == '*' {
        if '*' !in s {
          if star.Some? { NextStar(pattern, star.value, starSi, pi, s); } else { TakeFitting(pattern, 0, pi, s, 0); }
        }
        star, starSi, pi := Some(pi), si, pi + 1;
        FitsNothing(pattern, pi, s, si);
      } else if star.Some? {
        if pi < |pattern| { StarsDoNotFit(pattern[pi], s[si]); }
        FitsNothing(pattern, star.value + 1, s, starSi + 1);
        if '*' !in s { OneMoreForStar(pattern, star.value, starSi, pi, s); }
        pi, starSi := star.value + 1, starSi + 1;
        si := starSi;
      } else {
        if pi < |pattern| { StarsDoNotFit(pattern[pi], s[si]); }
        if '*' !in s {
          TakeFitting(pattern, 0, pi, s, 0);
          NothingFits(pattern[pi..], s[si..]);
        }
        return false;
      }
    }
    assert s[si..] == [];
    if '*' !in s {
      if star.Some? { LastStar(pattern, star.value, starSi, pi, s); } else { TakeFitting(pattern, 0, pi, s, 0); }
      assert Glob(pattern, s) <==> Glob(pattern[pi..], []);
    }
    OnlyStarsLeft(pattern, pi);
    ghost var stop := pi;
    while pi < |pattern| && pattern[pi] == '*'
      invariant stop <= pi <= |pattern| && forall i :: stop <= i < pi ==> pattern[i] == '*'
    {
      pi := pi + 1;
    }
    return pi == |pattern|;
  }

  lemma FitsNothing(pattern: string, from: nat, s: string, at: nat)
    requires from <= |pattern| && at <= |s|
    ensures FitsFrom(pattern, from, from, s, at)
  {
  }

  lemma StarsDoNotFit(c: char, d: char)
    ensures Fits(c, d) <==> c != '*' && (c == '?' || c == d)
  {
  }

  lemma {:induction false} StarMatchesAll(s: string)
    ensures Glob("*", s)
  {
    assert "*"[1..] == [] && s[|s|..] == [];
  }

  lemma {:induction false} NothingFits(pattern: string, s: string)
    requires s != [] && (pattern != [] ==> pattern[0] != '*' && !Fits(pattern[0], s[0]))
    ensures !Glob(pattern, s)
  {
  }

  /** The text has ended: what is left of the pattern decides, since with the star taking more
      the fixed characters would no longer fit in. */
  lemma LastStar(pattern: string, star: nat, starSi: nat, pi: nat, s: string)
    requires star < |pattern| && pattern[star] == '*' && FitsFrom(pattern, star + 1, pi, s, starSi)
    requires starSi + (pi - star - 1) == |s|
    ensures Glob(pattern[star..], s[starSi..]) <==> Glob(pattern[pi..], [])
  {
    TakeFitting(pattern, star + 1, pi, s, starSi);
    StarSplits(pattern, star, s, starSi);
    assert s[|s|..] == [];
    if Glob(pattern[star..], s[starSi..]) { var n := StarTakes(pattern, star, pi, s, starSi); }
  }

  /** A plain prefix and a star match exactly the texts with that prefix. */
  lemma {:induction false} PrefixPattern(prefix: string, s: string)
    requires '*' !in prefix && '?' !in prefix
    ensures Glob(prefix + "*", s) <==> prefix <= s
  {
    var pattern := prefix + "*";
    assert pattern[|prefix|..] == "*" && pattern[0..] == pattern && s[0..] == s;
    if prefix <= s {
      forall i | 0 <= i < |prefix| ensures Fits(prefix[i], prefix[i]) { assert prefix[i] in prefix; }
      FittingPrefix(prefix, prefix, "*", s[|prefix|..]);
      assert s == prefix + s[|prefix|..];
      StarMatchesAll(s[|prefix|..]);
    }
    if Glob(pattern, s) { PrefixIsRead(prefix, "*", s); }
  }

  lemma {:induction false} PrefixIsRead(prefix: string, rest: string, s: string)
    requires '*' !in prefix && '?' !in prefix && Glob(prefix + rest, s)
    ensures prefix <= s
  {
    if prefix != [] {
      assert (prefix + rest)[1..] == prefix[1..] + rest && (prefix + rest)[0] == prefix[0];
      PrefixIsRead(prefix[1..], rest, s[1..]);
      assert prefix == [prefix[0]] + prefix[1..] && s == [s[0]] + s[1..];
    }
  }

  /** A table's row pattern matches exactly the keys of its own rows, among all row keys. */
  lemma RowPatternIsOwn(table: string, t: string, pk: string)
    ensures RowPrefix(table) <= RowKey(t, pk) <==> t == table
    ensures '*' !in RowPrefix(table) && '?' !in RowPrefix(table) && '*' !in RowKey(t, pk)
  {
    hide KeyPart;
    PartHasNoColon(t);
    PartHasNoColon(table);
    PartHasNoColon(pk);
    if t == table {
      assert RowKey(t, pk)[..|RowPrefix(table)|] == RowPrefix(table);
    }
    if RowPrefix(table) <= RowKey(t, pk) {
      var n := |"my-sqweel:row:"|;
      var rest := RowKey(t, pk)[|RowPrefix(table)|..];
      assert RowKey(t, pk) == RowPrefix(table) + rest;
      assert RowKey(t, pk)[n..] == KeyPart(t) + ":" + KeyPart(pk);
      assert (RowPrefix(table) + rest)[n..] == KeyPart(table) + ":" + rest;
      SplitAtColon(KeyPart(t), KeyPart(table), KeyPart(pk), rest);
      KeyPartInjective(t, table);
    }
  }

  // ---------- values ----------

  const I64_MIN: int := -0x8000_0000_0000_0000
  const I64_MAX: int := 0x7fff_ffff_ffff_ffff
  const U64_MAX: int := 0xffff_ffff_ffff_ffff

  function EncodeValue(lib: Library, v: Value): string {
    match v
    case Null => "n:"
    case Bool(b) => "b:" + if b then "1" else "0"
    case Num(n) =>
      if I64_MIN <= n <= I64_MAX then "i:" + IntText(n)
      else if 0 <= n <= U64_MAX then "u:" + IntText(n)
      else "f:" + IntText(n)
    case Str(s) => "s:" + s
    case _ => "j:" + lib.text(v)
  }

  /** A decimal integer with an optional sign. */
  function ParseInt(s: string): Option<int> {
    if s != [] && s[0] == '-' then
      match ParseDigits(s[1..])
      case None => None
      case Some(n) => Some(0 - n as int)
    else
      match ParseDigits(if s != [] && s[0] == '+' then s[1..] else s)
      case None => None
      case Some(n) => Some(n as int)
  }

  function IntegerOrNull(n: Option<int>, low: int, high: int): Value {
    if n.Some? && low <= n.value <= high then Num(n.value) else Null
  }

  /** The kind letters are one character long, so the split at the first colon is at position 1. */
  function DecodeValue(lib: Library, s: string): Value {
    if ':' !in s then Str(s)
    else if |s| < 2 || s[1] != ':' then Str(s)
    else
      var raw := s[2..];
      match s[0]
      case 'n' => Null
      case 'b' => Bool(raw == "1" || EqIgnoreAsciiCase(raw, "true"))
      case 'i' => IntegerOrNull(ParseInt(raw), I64_MIN, I64_MAX)
      case 'u' => IntegerOrNull(ParseInt(raw), 0, U64_MAX)
      case 'f' => lib.float(raw)
      case 's' => Str(raw)
      case 'j' => (match lib.parse(raw) case Some(v) => v case None => Str(raw))
      case _ => Str(s)
  }

  /** Integers of the wire format, and documents that the JSON library reads back. */
  predicate Storable(lib: Library, v: Value) {
    match v
    case Num(n) => I64_MIN <= n <= U64_MAX
    case Arr(_) => lib.parse(lib.text(v)) == Some(v)
    case Obj(_) => lib.parse(lib.text(v)) == Some(v)
    case _ => true
  }

  lemma ParseIntOfIntText(n: int)
    ensures ParseInt(IntText(n)) == Some(n)
  {
    ParseDigitsOfNatText(if n < 0 then -n else n);
    if n < 0 { assert IntText(n)[1..] == NatText(-n); }
  }

  lemma DecodeEncoded(lib: Library, v: Value)
    requires Storable(lib, v)
    ensures DecodeValue(lib, EncodeValue(lib, v)) == v
  {
    hide IntText, ParseInt, ParseDigits;
    var s := EncodeValue(lib, v);
    assert s[1] == ':';
    match v
    case Num(n) =>
      assert s[2..] == IntText(n);
      ParseIntOfIntText(n);
    case Bool(b) => assert s[2..] == if b then "1" else "0";
    case Str(t) => assert s[2..] == t;
    case Arr(_) => assert s[2..] == lib.text(v);
    case Obj(_) => assert s[2..] == lib.text(v);
    case Null =>
  }

  // ---------- rows ----------

  type Fields = map<string, string>

  function DataField(column: string): (field: string)
    ensures "data:" <= field && field[5..] == column
  {
    "data:" + column
  }

  /** The columns that have a data field. */
  function DataColumns(fields: Fields): set<string> {
    set f | f in fields && "data:" <= f :: f[5..]
  }

  lemma DataColumnsAre(fields: Fields, c: string)
    ensures c in DataColumns(fields) <==> DataField(c) in fields
  {
    if c in DataColumns(fields) {
      var f :| f in fields && "data:" <= f && f[5..] == c;
      assert f == DataField(c);
    }
  }

  function EncodeData(lib: Library, data: Row): Fields {
    map f | f in (set c | c in data :: DataField(c)) :: EncodeValue(lib, data[f[5..]])
  }

  function EncodeRow(lib: Library, row: StoredRow): Fields {
    EncodeData(lib, row.data) + map["_id" := EncodeValue(lib, row.id), "_table" := row.table]
  }

  function DecodeData(lib: Library, fields: Fields): Row {
    map c | c in DataColumns(fields) :: DecodeValue(lib, if DataField(c) in fields then fields[DataField(c)] else "")
  }

  function DecodeRow(lib: Library, fields: Fields): StoredRow {
    StoredRow(
      if "_id" in fields then DecodeValue(lib, fields["_id"]) else Null,
      if "_table" in fields then fields["_table"] else "",
      DecodeData(lib, fields))
  }

  predicate StorableRow(lib: Library, row: StoredRow) {
    Storable(lib, row.id) && forall c :: c in row.data ==> Storable(lib, row.data[c])
  }

  lemma EncodedField(lib: Library, row: StoredRow, c: string)
    ensures DataField(c) in EncodeRow(lib, row) <==> c in row.data
    ensures c in row.data ==> EncodeRow(lib, row)[DataField(c)] == EncodeValue(lib, row.data[c])
  {
    hide EncodeValue;
    var f := DataField(c);
    assert f[0] == 'd' && f != "_id" && f != "_table";
    if f in EncodeRow(lib, row) {
      assert f in (set d | d in row.data :: DataField(d));
    }
  }

  lemma DataRoundTrip(lib: Library, row: StoredRow)
    requires StorableRow(lib, row)
    ensures DecodeData(lib, EncodeRow(lib, row)) == row.data
  {
    hide DecodeValue, EncodeValue, Storable, EncodeRow, DataColumns, DataField;
    var fields := EncodeRow(lib, row);
    var data := DecodeData(lib, fields);
    forall c ensures c in data <==> c in row.data {
      DataColumnsAre(fields, c);
      EncodedField(lib, row, c);
    }
    forall c | c in row.data ensures data[c] == row.data[c] {
      EncodedField(lib, row, c);
      DecodeEncoded(lib, row.data[c]);
    }
    assert data == row.data;
  }

  /** A stored row reads back as it was written. */
  lemma RowRoundTrip(lib: Library, row: StoredRow)
    requires StorableRow(lib, row)
    ensures DecodeRow(lib, EncodeRow(lib, row)) == row
  {
    hide DecodeValue, EncodeValue, Storable, DecodeData;
    DecodeEncoded(lib, row.id);
    DataRoundTrip(lib, row);
  }
}
