/** Whitespace trimming and decimal numbers, as the standard library treats them. */
module Text {
  import opened Wrappers
  import opened Json

  /** Unicode White_Space. */
  predicate IsWhitespace(c: char) {
    var n := c as int;
    9 <= n <= 13 || n == 0x20 || n == 0x85 || n == 0xA0 || n == 0x1680 || 0x2000 <= n <= 0x200A
    || n == 0x2028 || n == 0x2029 || n == 0x202F || n == 0x205F || n == 0x3000
  }

  function TrimStart(s: string): string {
    if s != [] && IsWhitespace(s[0]) then TrimStart(s[1..]) else s
  }

  function TrimEnd(s: string): (r: string)
    ensures r <= s
  {
    if s != [] && IsWhitespace(s[|s| - 1]) then TrimEnd(s[..|s| - 1]) else s
  }

  function Trim(s: string): string { TrimEnd(TrimStart(s)) }

  predicate IsDigit(c: char) { '0' <= c <= '9' }

  function Digit(d: nat): char
    requires d < 10
  {
    '0' + d as char
  }

  function NatText(n: nat): (r: string)
    ensures r != [] && forall i :: 0 <= i < |r| ==> IsDigit(r[i])
  {
    if n < 10 then [Digit(n)] else NatText(n / 10) + [Digit(n % 10)]
  }

  function IntText(n: int): string { if n < 0 then "-" + NatText(-n) else NatText(n) }

  /** Decimal digits only, at least one. */
  function ParseDigits(s: string): Option<nat> {
    if s == [] || !IsDigit(s[|s| - 1]) then None
    else
      var d := s[|s| - 1] as int - '0' as int;
      if |s| == 1 then Some(d)
      else
        match ParseDigits(s[..|s| - 1])
        case None => None
        case Some(n) => Some(10 * n + d)
  }

  const USIZE_LIMIT: nat := 0x1_0000_0000_0000_0000

  /** An unsigned 64-bit integer, with an optional plus sign. */
  function ParseUsize(s: string): Option<nat> {
    var digits := if s != [] && s[0] == '+' then s[1..] else s;
    match ParseDigits(digits)
    case None => None
    case Some(n) => if n < USIZE_LIMIT then Some(n) else None
  }

  lemma {:induction false} ParseDigitsOfNatText(n: nat)
    ensures ParseDigits(NatText(n)) == Some(n)
  {
    if n >= 10 {
      ParseDigitsOfNatText(n / 10);
      assert NatText(n)[..|NatText(n)| - 1] == NatText(n / 10);
    }
  }

  lemma TrimKeepsTight(s: string)
    requires s != [] && !IsWhitespace(s[0]) && !IsWhitespace(s[|s| - 1])
    ensures Trim(s) == s
  {
  }

  lemma {:induction false} ParseUsizeOfNatText(n: nat)
    ensures ParseUsize(Trim(NatText(n))) == if n < USIZE_LIMIT then Some(n) else None
  {
    TrimKeepsTight(NatText(n));
    ParseDigitsOfNatText(n);
  }

  predicate AllWhitespace(s: string) { forall i :: 0 <= i < |s| ==> IsWhitespace(s[i]) }

  predicate Tight(s: string) { s == "" || (!IsWhitespace(s[0]) && !IsWhitespace(s[|s| - 1])) }

  /** Trimming takes whitespace from both ends until none stands there. */
  lemma TrimIs(s: string)
    ensures Tight(Trim(s)) && exists a, b :: AllWhitespace(a) && AllWhitespace(b) && s == a + Trim(s) + b
  {
    var middle := TrimStart(s);
    var a := StartTaken(s);
    var b := EndTaken(middle);
    assert a + (Trim(s) + b) == a + Trim(s) + b;
  }

  lemma {:induction false} StartTaken(s: string) returns (a: string)
    ensures AllWhitespace(a) && s == a + TrimStart(s) && (TrimStart(s) == "" || !IsWhitespace(TrimStart(s)[0]))
    decreases |s|
  {
    a := "";
    if s != [] && IsWhitespace(s[0]) {
      var more := StartTaken(s[1..]);
      a := [s[0]] + more;
      assert s == [s[0]] + s[1..];
    }
  }

  lemma {:induction false} EndTaken(s: string) returns (b: string)
    ensures AllWhitespace(b) && s == TrimEnd(s) + b && (TrimEnd(s) == "" || !IsWhitespace(TrimEnd(s)[|TrimEnd(s)| - 1]))
    decreases |s|
  {
    b := "";
    if s != [] && IsWhitespace(s[|s| - 1]) {
      var more := EndTaken(s[..|s| - 1]);
      b := more + [s[|s| - 1]];
      assert s == s[..|s| - 1] + [s[|s| - 1]];
    }
  }

  /** A text is a number exactly when it has digits only, at least one; leading zeros do not count. */
  lemma {:induction false} ParseDigitsIff(s: string)
    ensures ParseDigits(s).Some? <==> s != [] && forall i :: 0 <= i < |s| ==> IsDigit(s[i])
    decreases |s|
  {
    if |s| > 1 { ParseDigitsIff(s[..|s| - 1]); }
  }

  lemma {:induction false} LeadingZerosDoNotCount(zeros: nat, n: nat)
    ensures ParseDigits(seq(zeros, _ => '0') + NatText(n)) == Some(n)
    decreases n, zeros
  {
    var z := seq(zeros, _ => '0');
    var s := z + NatText(n);
    if n >= 10 {
      LeadingZerosDoNotCount(zeros, n / 10);
      assert s[..|s| - 1] == z + NatText(n / 10);
    } else if zeros > 0 {
      LeadingZerosDoNotCount(zeros - 1, 0);
      assert s[..|s| - 1] == seq(zeros - 1, _ => '0') + NatText(0);
    }
  }
}
