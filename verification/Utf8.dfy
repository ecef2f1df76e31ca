/** UTF-8: the bytes of a text, and their shape. */
module Utf8 {

  newtype byte = x: int | 0 <= x < 256

  type Bytes = seq<byte>

  predicate Continuation(b: byte) { 128 <= b < 192 }

  /** Length of the sequence a lead byte announces. */
  function Width(lead: byte): nat {
    if lead < 128 then 1 else if lead < 224 then 2 else if lead < 240 then 3 else 4
  }

  /** Lead bytes followed by as many continuation bytes as they announce. */
  predicate WellFormed(s: Bytes) {
    s == [] || (!Continuation(s[0]) && Width(s[0]) <= |s|
                && (forall i :: 1 <= i < Width(s[0]) ==> Continuation(s[i]))
                && WellFormed(s[Width(s[0])..]))
  }

  function EncodeChar(c: char): (r: Bytes)
    ensures r != [] && !Continuation(r[0]) && |r| == Width(r[0])
    ensures forall i :: 1 <= i < |r| ==> Continuation(r[i])
  {
    var n := c as int;
    if n < 0x80 then [n as byte]
    else if n < 0x800 then [(192 + n / 64) as byte, (128 + n % 64) as byte]
    else if n < 0x10000 then [(224 + n / 4096) as byte, (128 + n / 64 % 64) as byte, (128 + n % 64) as byte]
    else [(240 + n / 262144) as byte, (128 + n / 4096 % 64) as byte, (128 + n / 64 % 64) as byte, (128 + n % 64) as byte]
  }

  function Encode(s: string): Bytes {
    if s == [] then [] else EncodeChar(s[0]) + Encode(s[1..])
  }

  lemma SixBits(n: nat)
    ensures n == n / 64 * 64 + n % 64
    ensures n / 4096 == n / 64 / 64 && n / 262144 == n / 64 / 64 / 64
  {
  }

  /** The code point of an encoded character. */
  function DecodeChar(r: Bytes): int
    requires r != [] && |r| == Width(r[0])
  {
    var v := seq(|r|, i requires 0 <= i < |r| => r[i] as int);
    if |r| == 1 then v[0]
    else if |r| == 2 then (v[0] - 192) * 64 + v[1] - 128
    else if |r| == 3 then ((v[0] - 224) * 64 + v[1] - 128) * 64 + v[2] - 128
    else (((v[0] - 240) * 64 + v[1] - 128) * 64 + v[2] - 128) * 64 + v[3] - 128
  }

  lemma DecodeEncoded(c: char)
    ensures DecodeChar(EncodeChar(c)) == c as int
  {
    var n := c as int;
    SixBits(n);
    SixBits(n / 64);
    SixBits(n / 64 / 64);
  }

  lemma EncodeCharInjective(c: char, d: char)
    requires EncodeChar(c) == EncodeChar(d)
    ensures c == d
  {
    DecodeEncoded(c);
    DecodeEncoded(d);
  }

  /** Different texts have different bytes. */
  lemma {:induction false} EncodeInjective(s: string, t: string)
    requires Encode(s) == Encode(t)
    ensures s == t
  {
    hide EncodeChar;
    if s != [] && t != [] {
      var a, b := EncodeChar(s[0]), EncodeChar(t[0]);
      assert Encode(s)[0] == a[0] && Encode(t)[0] == b[0];
      assert |a| == |b|;
      assert a == Encode(s)[..|a|] && b == Encode(t)[..|b|];
      EncodeCharInjective(s[0], t[0]);
      assert Encode(s[1..]) == Encode(s)[|a|..] && Encode(t[1..]) == Encode(t)[|b|..];
      EncodeInjective(s[1..], t[1..]);
      assert s == [s[0]] + s[1..] && t == [t[0]] + t[1..];
    }
  }

  lemma {:induction false} EncodeIsWellFormed(s: string)
    ensures WellFormed(Encode(s))
  {
    hide EncodeChar;
    if s != [] {
      EncodeIsWellFormed(s[1..]);
      assert Encode(s)[|EncodeChar(s[0])|..] == Encode(s[1..]);
    }
  }

  lemma {:induction false} SuffixAtLeadIsWellFormed(s: Bytes, i: nat)
    requires WellFormed(s) && i < |s| && !Continuation(s[i])
    ensures WellFormed(s[i..])
  {
    if i == 0 {
      assert s[i..] == s;
    } else {
      var w := Width(s[0]);
      SuffixAtLeadIsWellFormed(s[w..], i - w);
      assert s[w..][i - w..] == s[i..];
    }
  }

  lemma {:induction false} RestIsWellFormed(front: Bytes, rest: Bytes)
    requires WellFormed(front) && WellFormed(front + rest)
    ensures WellFormed(rest)
  {
    if front == [] {
      assert front + rest == rest;
    } else {
      var w := Width(front[0]);
      assert (front + rest)[w..] == front[w..] + rest;
      RestIsWellFormed(front[w..], rest);
    }
  }
}
