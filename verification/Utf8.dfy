/**
 Well-formed UTF-8 (Table 3-7 of the Unicode Standard): what the fatal TextDecoder of the
 source accepts. Text is a list of Unicode scalar values.
 */
module Utf8 {
  import opened Wrappers
  import opened Octets

  predicate IsScalar(c: nat) {
    c < 0xD800 || 0xE000 <= c < 0x110000
  }

  predicate Trail(b: byte) {
    0x80 <= b <= 0xBF
  }

  /** The bits so far, followed by the six bits of a trailing octet. */
  function Join(high: nat, b: byte): nat
    requires Trail(b)
  {
    var low: nat := b - 0x80;
    high * 64 + low
  }

  /** The first scalar value of a string and the count of its octets. */
  function First(s: bytes): (r: Option<(nat, nat)>)
    ensures r.Some? ==> 1 <= r.value.1 <= |s|
  {
    if s == [] then None
    else
      var b: nat := s[0];
      if b < 0x80 then Some((b, 1))
      else if 0xC2 <= b <= 0xDF then
        if |s| >= 2 && Trail(s[1]) then Some((Join(b - 0xC0, s[1]), 2)) else None
      else if 0xE0 <= b <= 0xEF then
        if |s| >= 3 && Trail(s[1]) && Trail(s[2]) && (b == 0xE0 ==> s[1] >= 0xA0) && (b == 0xED ==> s[1] <= 0x9F)
        then Some((Join(Join(b - 0xE0, s[1]), s[2]), 3)) else None
      else if 0xF0 <= b <= 0xF4 then
        if |s| >= 4 && Trail(s[1]) && Trail(s[2]) && Trail(s[3]) && (b == 0xF0 ==> s[1] >= 0x90) &&
            (b == 0xF4 ==> s[1] <= 0x8F)
        then Some((Join(Join(Join(b - 0xF0, s[1]), s[2]), s[3]), 4)) else None
      else None
  }

  /** The octets of a scalar value. */
  function EncodeScalar(c: nat): (r: bytes)
    requires IsScalar(c)
    ensures 1 <= |r| <= 4
  {
    if c < 0x80 then [c]
    else if c < 0x800 then [0xC0 + c / 64, 0x80 + c % 64]
    else if c < 0x10000 then [0xE0 + c / 4096, 0x80 + c / 64 % 64, 0x80 + c % 64]
    else [0xF0 + c / 262144, 0x80 + c / 4096 % 64, 0x80 + c / 64 % 64, 0x80 + c % 64]
  }

  lemma JoinParts(high: nat, b: byte)
    requires Trail(b)
    ensures Join(high, b) / 64 == high && 0x80 + Join(high, b) % 64 == b
  {
  }

  /** The first scalar read is the one whose octets stand at the front. */
  lemma FirstSound(s: bytes)
    requires First(s).Some?
    ensures var (c, k) := First(s).value;
      IsScalar(c) && s[..k] == EncodeScalar(c)
  {
    var b: nat := s[0];
    var c := First(s).value.0;
    DivTwice(c);
    if b < 0x80 {
    } else if b <= 0xDF {
      JoinParts(b - 0xC0, s[1]);
    } else if b <= 0xEF {
      JoinParts(b - 0xE0, s[1]);
      JoinParts(Join(b - 0xE0, s[1]), s[2]);
    } else {
      JoinParts(b - 0xF0, s[1]);
      JoinParts(Join(b - 0xF0, s[1]), s[2]);
      JoinParts(Join(Join(b - 0xF0, s[1]), s[2]), s[3]);
    }
  }

  lemma DivTwice(c: nat)
    ensures c / 4096 == c / 64 / 64 && c / 262144 == c / 64 / 64 / 64
  {
  }

  lemma FirstComplete(c: nat, rest: bytes)
    requires IsScalar(c)
    ensures First(EncodeScalar(c) + rest) == Some((c, |EncodeScalar(c)|))
  {
    DivTwice(c);
    var q, r := c / 64, c % 64;
    assert c == q * 64 + r;
    var q2, r2 := q / 64, q % 64;
    assert q == q2 * 64 + r2;
    var q3, r3 := q2 / 64, q2 % 64;
    assert q2 == q3 * 64 + r3;
  }

  /** Decoding a whole string, none when it is not well formed. */
  function Decode(s: bytes): Option<seq<nat>>
    decreases |s|
  {
    if s == [] then Some([])
    else
      match First(s)
      case None => None
      case Some((c, k)) =>
        match Decode(s[k..])
        case None => None
        case Some(cs) => Some([c] + cs)
  }

  predicate AllScalars(cs: seq<nat>) {
    forall i :: 0 <= i < |cs| ==> IsScalar(cs[i])
  }

  function Encode(cs: seq<nat>): bytes
    requires AllScalars(cs)
  {
    if cs == [] then [] else EncodeScalar(cs[0]) + Encode(cs[1..])
  }

  /** UTF-8 is one-to-one: a string decodes to a text exactly when it is the encoding of that text. */
  lemma {:induction false} Utf8Exactly(s: bytes, cs: seq<nat>)
    ensures Decode(s) == Some(cs) <==> AllScalars(cs) && Encode(cs) == s
    decreases |s| + |cs|
  {
    hide First, EncodeScalar, IsScalar;
    if Decode(s) == Some(cs) && s != [] {
      FirstSound(s);
      var (c, k) := First(s).value;
      Utf8Exactly(s[k..], cs[1..]);
      assert cs == [c] + cs[1..] && s == s[..k] + s[k..];
    }
    if AllScalars(cs) && Encode(cs) == s && cs != [] {
      var rest := Encode(cs[1..]);
      FirstComplete(cs[0], rest);
      var k := |EncodeScalar(cs[0])|;
      assert s[k..] == rest;
      Utf8Exactly(rest, cs[1..]);
      assert cs == [cs[0]] + cs[1..];
    }
  }
}
