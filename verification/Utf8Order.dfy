/**
 The octets of UTF-8, bit group by bit group as Table 3-6 of the Unicode Standard lays them
 out, and the order they keep: texts compare by octets as they do by scalar values.
 */
module Utf8Order {
  import opened Octets
  import opened OctetOrder
  import opened Utf8

  lemma SixBits(q: nat, r: nat)
    requires r < 64
    ensures (64 * q + r) / 64 == q && (64 * q + r) % 64 == r
  {
  }

  /** A scalar value given by its groups of six bits, the lowest last. */
  function Grouped(w: nat, z: nat, y: nat, x: nat): nat {
    262144 * w + 4096 * z + 64 * y + x
  }

  lemma Groups(w: nat, z: nat, y: nat, x: nat)
    requires x < 64 && y < 64 && z < 64
    ensures var c := Grouped(w, z, y, x);
      && c / 64 == 4096 * w + 64 * z + y && c % 64 == x
      && c / 4096 == 64 * w + z && c / 64 % 64 == y
      && c / 262144 == w && c / 4096 % 64 == z
  {
    var c := Grouped(w, z, y, x);
    DivTwice(c);
    SixBits(w, z);
    SixBits(64 * w + z, y);
    SixBits(4096 * w + 64 * z + y, x);
  }

  /** The octets of a scalar value given by its groups of six bits. */
  lemma BitGroups(w: nat, z: nat, y: nat, x: nat)
    requires x < 64 && y < 64 && z < 64
    ensures var c := Grouped(w, z, y, x);
      && (w == 0 && z == 0 && y < 2 ==> IsScalar(c) && EncodeScalar(c) == [64 * y + x])
      && (w == 0 && z == 0 && 2 <= y < 32 ==> IsScalar(c) && EncodeScalar(c) == [0xC0 + y, 0x80 + x])
      && (w == 0 && z < 16 && (z > 0 || y >= 32) && !(z == 13 && y >= 32) ==>
            IsScalar(c) && EncodeScalar(c) == [0xE0 + z, 0x80 + y, 0x80 + x])
      && ((w == 0 && z >= 16) || 0 < w < 4 || (w == 4 && z < 16) ==>
            IsScalar(c) && EncodeScalar(c) == [0xF0 + w, 0x80 + z, 0x80 + y, 0x80 + x])
  {
    var c := Grouped(w, z, y, x);
    Groups(w, z, y, x);
    GroupRange(w, z, y, x);
    hide Grouped;
  }

  lemma GroupRange(w: nat, z: nat, y: nat, x: nat)
    requires x < 64 && y < 64 && z < 64
    ensures var c := Grouped(w, z, y, x);
      && (c < 0x80 <==> w == 0 && z == 0 && y < 2) && (c < 0x800 <==> w == 0 && z == 0 && y < 32)
      && (c < 0x10000 <==> w == 0 && z < 16) && (c < 0x110000 <==> w < 4 || (w == 4 && z < 16))
      && (0xD800 <= c < 0xE000 <==> w == 0 && z == 13 && y >= 32)
  {
  }

  /** Every scalar value is one of these. */
  lemma GroupsOf(c: nat) returns (w: nat, z: nat, y: nat, x: nat)
    ensures x < 64 && y < 64 && z < 64 && c == Grouped(w, z, y, x)
  {
    DivTwice(c);
    w, z, y, x := c / 262144, c / 4096 % 64, c / 64 % 64, c % 64;
  }

  /** One character of each length: $, the cent sign, the euro sign, and one past the first plane. */
  lemma OneOfEachLength()
    ensures EncodeScalar(0x24) == [0x24] && EncodeScalar(0xA2) == [0xC2, 0xA2]
    ensures EncodeScalar(0x20AC) == [0xE2, 0x82, 0xAC] && EncodeScalar(0x10348) == [0xF0, 0x90, 0x8D, 0x88]
  {
  }

  /** Scalar values compared from the front, a proper prefix first. */
  predicate TextLess(cs: seq<nat>, ds: seq<nat>) {
    ds != [] && (cs == [] || cs[0] < ds[0] || (cs[0] == ds[0] && TextLess(cs[1..], ds[1..])))
  }

  lemma {:induction false} LessBehind(p: bytes, x: bytes, y: bytes)
    ensures Less(p + x, p + y) <==> Less(x, y)
  {
    if p == [] {
      assert p + x == x && p + y == y;
    } else {
      LessBehind(p[1..], x, y);
      assert (p + x)[1..] == p[1..] + x && (p + y)[1..] == p[1..] + y;
    }
  }

  /** The highest group in which two numbers differ decides. */
  lemma GroupsCompare(w: nat, z: nat, y: nat, x: nat, w': nat, z': nat, y': nat, x': nat)
    requires x < 64 && y < 64 && z < 64 && x' < 64 && y' < 64 && z' < 64
    requires 262144 * w + 4096 * z + 64 * y + x < 262144 * w' + 4096 * z' + 64 * y' + x'
    ensures w < w' || (w == w' && (z < z' || (z == z' && (y < y' || (y == y' && x < x')))))
  {
  }

  lemma LongerLead(c: nat, d: nat)
    requires IsScalar(c) && IsScalar(d) && c < d
    ensures |EncodeScalar(c)| == |EncodeScalar(d)| || EncodeScalar(c)[0] < EncodeScalar(d)[0]
  {
  }

  /** Where the encodings of two scalar values first differ the lower one has the lower octet. */
  lemma FirstDifference(c: nat, d: nat) returns (k: nat)
    requires IsScalar(c) && IsScalar(d) && c < d
    ensures k < |EncodeScalar(c)| && k < |EncodeScalar(d)| && EncodeScalar(c)[..k] == EncodeScalar(d)[..k]
    ensures EncodeScalar(c)[k] < EncodeScalar(d)[k]
  {
    LongerLead(c, d);
    var a, b := EncodeScalar(c), EncodeScalar(d);
    if |a| != |b| {
      hide EncodeScalar;
      k := 0;
    } else {
      k := SameLengthDifference(c, d);
    }
  }

  lemma SameLengthDifference(c: nat, d: nat) returns (k: nat)
    requires IsScalar(c) && IsScalar(d) && c < d && |EncodeScalar(c)| == |EncodeScalar(d)|
    ensures k < |EncodeScalar(c)| && EncodeScalar(c)[..k] == EncodeScalar(d)[..k]
    ensures EncodeScalar(c)[k] < EncodeScalar(d)[k]
  {
    var w, z, y, x := GroupsOf(c);
    var w', z', y', x' := GroupsOf(d);
    GroupsCompare(w, z, y, x, w', z', y', x');
    var i := if w < w' then 0 else if z < z' then 1 else if y < y' then 2 else 3;
    BehindLead(w, z, y, x);
    BehindLead(w', z', y', x');
    hide EncodeScalar, IsScalar;
    k := if |EncodeScalar(c)| == 1 then 0 else i - (4 - |EncodeScalar(c)|);
  }

  /** The octets of a scalar value by its length alone. */
  lemma BehindLead(w: nat, z: nat, y: nat, x: nat)
    requires x < 64 && y < 64 && z < 64 && IsScalar(Grouped(w, z, y, x))
    ensures var e := EncodeScalar(Grouped(w, z, y, x));
      && (|e| == 1 ==> w == 0 && z == 0 && e == [64 * y + x] && y < 2)
      && (|e| == 2 ==> w == 0 && z == 0 && e == [0xC0 + y, 0x80 + x])
      && (|e| == 3 ==> w == 0 && e == [0xE0 + z, 0x80 + y, 0x80 + x])
      && (|e| == 4 ==> e == [0xF0 + w, 0x80 + z, 0x80 + y, 0x80 + x])
  {
    BitGroups(w, z, y, x);
    hide EncodeScalar;
  }

  lemma ScalarLess(c: nat, d: nat, x: bytes, y: bytes)
    requires IsScalar(c) && IsScalar(d) && c < d
    ensures Less(EncodeScalar(c) + x, EncodeScalar(d) + y)
  {
    var k := FirstDifference(c, d);
    hide EncodeScalar, IsScalar, Less;
    var a, b := EncodeScalar(c), EncodeScalar(d);
    assert (a + x)[..k] == a[..k] && (b + y)[..k] == b[..k];
    LessAt(a + x, b + y, k);
  }

  lemma {:induction false} TextLessKept(cs: seq<nat>, ds: seq<nat>)
    requires AllScalars(cs) && AllScalars(ds) && TextLess(cs, ds)
    ensures Less(Encode(cs), Encode(ds))
  {
    hide EncodeScalar, IsScalar;
    if cs != [] {
      if cs[0] < ds[0] {
        ScalarLess(cs[0], ds[0], Encode(cs[1..]), Encode(ds[1..]));
      } else {
        TextLessKept(cs[1..], ds[1..]);
        LessBehind(EncodeScalar(cs[0]), Encode(cs[1..]), Encode(ds[1..]));
      }
    }
  }

  lemma {:induction false} TextsCompare(cs: seq<nat>, ds: seq<nat>)
    ensures TextLess(cs, ds) || TextLess(ds, cs) || cs == ds
  {
    if cs != [] && ds != [] && cs[0] == ds[0] {
      TextsCompare(cs[1..], ds[1..]);
      assert cs == [cs[0]] + cs[1..] && ds == [ds[0]] + ds[1..];
    }
  }

  /** Encodings compare by octets exactly as their texts do by scalar values. */
  lemma OrderKept(cs: seq<nat>, ds: seq<nat>)
    requires AllScalars(cs) && AllScalars(ds)
    ensures Less(Encode(cs), Encode(ds)) <==> TextLess(cs, ds)
  {
    hide AllScalars, Encode, Less;
    TextsCompare(cs, ds);
    LessTrichotomy(Encode(cs), Encode(ds));
    if TextLess(cs, ds) { TextLessKept(cs, ds); }
    if TextLess(ds, cs) { TextLessKept(ds, cs); }
  }
}
