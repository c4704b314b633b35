/**
 What the contents of OBJECT IDENTIFIER, INTEGER and BIT STRING mean, octet by octet, and a
 known encoding of each.
 */
module DerValues {
  import opened Wrappers
  import opened Octets
  import opened Radix
  import opened Base128
  import opened DerTables
  import opened DerOid
  import I = DerInteger
  import B = DerBitString

  // ---------------------------------------------------------------- OBJECT IDENTIFIER

  /** One sub-identifier of up to 28 bits: seven bits to an octet, all but the last with the high bit set. */
  lemma SubidOctets(v: nat)
    requires v < 0x1000_0000
    ensures SubidBytes(v) ==
            if v < 128 then [v]
            else if v < 16384 then [128 + v / 128, v % 128]
            else if v < 2097152 then [128 + v / 16384, 128 + v / 128 % 128, v % 128]
            else [128 + v / 2097152, 128 + v / 16384 % 128, 128 + v / 128 % 128, v % 128]
  {
    FourDigits(v);
    hide Digits;
  }

  /** Seven bits more are one octet more. */
  lemma LongerSubid(v: nat, low: nat)
    requires v > 0 && low < 128
    ensures var s := SubidBytes(v);
      SubidBytes(v * 128 + low) == s[..|s| - 1] + [128 + s[|s| - 1], low]
  {
    MoreDigits(v, low);
    hide Digits;
  }

  lemma MoreDigits(v: nat, low: nat)
    requires v > 0 && low < 128
    ensures Digits(v * 128 + low, 128) == Digits(v, 128) + [low]
  {
    var m := v * 128 + low;
    DigitsOf(m, 128);
    DivModUnique(v, 128, low);
    hide Digits;
  }

  lemma {:induction false} SubidsInOrder(vs: seq<nat>, ws: seq<nat>)
    ensures SubidsBytes(vs + ws) == SubidsBytes(vs) + SubidsBytes(ws)
  {
    hide SubidBytes;
    if vs == [] {
      assert vs + ws == ws;
    } else {
      SubidsInOrder(vs[1..], ws);
      var us := vs + ws;
      assert us[1..] == vs[1..] + ws && us[0] == vs[0];
    }
  }

  lemma OneSubid(v: nat)
    ensures SubidsBytes([v]) == SubidBytes(v)
  {
  }

  /** No sub-identifier takes more octets. */
  predicate NoLonger(vs: seq<nat>, most: nat) {
    forall i :: 0 <= i < |vs| ==> |SubidBytes(vs[i])| <= most
  }

  lemma NoLongerSplit(vs: seq<nat>, ws: seq<nat>, most: nat)
    ensures NoLonger(vs + ws, most) <==> NoLonger(vs, most) && NoLonger(ws, most)
  {
    hide SubidBytes;
    var us := vs + ws;
    if NoLonger(us, most) {
      forall i | 0 <= i < |vs| ensures |SubidBytes(vs[i])| <= most { assert us[i] == vs[i]; }
      forall i | 0 <= i < |ws| ensures |SubidBytes(ws[i])| <= most { assert us[|vs| + i] == ws[i]; }
    }
  }

  lemma FitExactly(vs: seq<nat>, limits: OidLimits)
    ensures SubidsFit(vs, limits) <==> |vs| <= limits.maxCount && NoLonger(vs, limits.maxBytes)
  {
    forall i | 0 <= i < |vs| ensures |SubidBytes(vs[i])| == |Digits(vs[i], 128)| {
      assert |Low7(SubidBytes(vs[i]))| == |SubidBytes(vs[i])|;
    }
  }

  /**
   An identifier is encoded exactly when it begins 0 or 1 and then a number up to 39, or 2 and any number, and no
   sub-identifier, the first being 40 a + b, is past the caps; the sub-identifiers then follow one another.
   */
  lemma EncodesExactly(a: nat, b: nat, rest: seq<nat>, limits: OidLimits)
    ensures var r := EncodeOid([a, b] + rest, limits);
      && (r.Ok? <==> (a == 2 || (a <= 1 && b <= 39)) && |rest| + 1 <= limits.maxCount &&
                     |SubidBytes(40 * a + b)| <= limits.maxBytes && NoLonger(rest, limits.maxBytes))
      && (r.Ok? ==> r.value == SubidBytes(40 * a + b) + SubidsBytes(rest))
  {
    PackOf(a, b, rest);
    PackedFit(40 * a + b, rest, limits);
    hide SubidBytes, SubidsFit, SubidsBytes, NoLonger, Pack, Canonical;
  }

  lemma PackOf(a: nat, b: nat, rest: seq<nat>)
    ensures var arcs := [a, b] + rest;
      Pack(arcs) == [40 * a + b] + rest && (Canonical(arcs) <==> a == 2 || (a <= 1 && b <= 39))
  {
    assert ([a, b] + rest)[2..] == rest;
  }

  lemma PackedFit(first: nat, rest: seq<nat>, limits: OidLimits)
    ensures SubidsFit([first] + rest, limits) <==>
            && |rest| + 1 <= limits.maxCount && |SubidBytes(first)| <= limits.maxBytes
            && NoLonger(rest, limits.maxBytes)
    ensures SubidsBytes([first] + rest) == SubidBytes(first) + SubidsBytes(rest)
  {
    FitExactly([first] + rest, limits);
    NoLongerSplit([first], rest, limits.maxBytes);
    OneNoLonger(first, limits.maxBytes);
    hide SubidBytes, SubidsFit, NoLonger;
    assert ([first] + rest)[1..] == rest;
  }

  lemma OneNoLonger(v: nat, most: nat)
    ensures NoLonger([v], most) <==> |SubidBytes(v)| <= most
  {
    hide SubidBytes;
    if NoLonger([v], most) { assert [v][0] == v; }
  }

  /** Two sub-identifiers in a row: 840 and 113549 in two octets and three. */
  lemma KnownSubids()
    ensures SubidBytes(42) == [0x2A] && |SubidBytes(840)| == 2 && |SubidBytes(113549)| == 3
    ensures SubidsBytes([840, 113549]) == [0x86, 0x48, 0x86, 0xF7, 0x0D]
  {
    SubidOctets(42);
    SubidOctets(840);
    SubidOctets(113549);
    SubidsInOrder([840], [113549]);
    OneSubid(840);
    OneSubid(113549);
    hide SubidBytes, SubidsBytes;
    assert [840, 113549] == [840] + [113549];
  }

  /** The identifier 1.2.840.113549 of RSA Data Security. */
  lemma KnownIdentifier(limits: OidLimits)
    requires limits.maxBytes >= 3 && limits.maxCount >= 3
    ensures EncodeOid([1, 2, 840, 113549], limits) == Ok([0x2A, 0x86, 0x48, 0x86, 0xF7, 0x0D])
  {
    KnownSubids();
    assert NoLonger([840, 113549], limits.maxBytes) by {
      hide SubidBytes;
      assert [840, 113549][0] == 840 && [840, 113549][1] == 113549;
    }
    EncodesExactly(1, 2, [840, 113549], limits);
    hide SubidBytes, EncodeOid, SubidsBytes, NoLonger;
    assert [1, 2] + [840, 113549] == [1, 2, 840, 113549];
    assert [0x2A] + [0x86, 0x48, 0x86, 0xF7, 0x0D] == [0x2A, 0x86, 0x48, 0x86, 0xF7, 0x0D];
  }

  // ---------------------------------------------------------------- INTEGER

  /** One octet is a number from -128 to 127; an octet more multiplies by 256 and adds it, whatever the sign. */
  lemma SignedGrows(c: bytes, b: byte)
    ensures I.Signed([b]) == if b < 128 then b else b - 256
    ensures c != [] ==> I.Signed(c + [b]) == 256 * I.Signed(c) + b
  {
    assert [b][..0] == [] && Pow(256, 1) == 256 * Pow(256, 0);
    ValueAppend(c, 256, b);
    assert Value([b], 256) == b;
    assert Pow(256, |c + [b]|) == 256 * Pow(256, |c|);
    hide Value, Pow;
  }

  lemma KnownInteger(v: int, c: bytes)
    requires I.Minimal(c) && I.Signed(c) == v
    ensures I.IntegerBytes(v) == c
  {
    hide I.IntegerBytes, I.Signed;
    I.BytesOfSigned(c);
  }

  /** The integers around the lengths of one octet and of two. */
  lemma KnownIntegers()
    ensures I.IntegerBytes(0) == [0] && I.IntegerBytes(127) == [0x7F] && I.IntegerBytes(128) == [0, 0x80]
    ensures I.IntegerBytes(256) == [1, 0] && I.IntegerBytes(-1) == [0xFF] && I.IntegerBytes(-128) == [0x80]
    ensures I.IntegerBytes(-129) == [0xFF, 0x7F] && I.IntegerBytes(-32768) == [0x80, 0]
  {
    hide I.Signed, I.IntegerBytes;
    forall b: byte ensures I.IntegerBytes(I.Signed([b])) == [b] { KnownInteger(I.Signed([b]), [b]); }
    OneOctet();
    TwoOctets(0, 0x80);
    TwoOctets(1, 0);
    TwoOctets(0xFF, 0x7F);
    TwoOctets(0x80, 0);
  }

  lemma OneOctet()
    ensures forall b: byte :: I.Signed([b]) == if b < 128 then b else b - 256
  {
    forall b: byte ensures I.Signed([b]) == if b < 128 then b else b - 256 { SignedGrows([], b); }
  }

  lemma TwoOctets(a: byte, b: byte)
    requires !(a == 0 && b < 128) && !(a == 255 && b >= 128)
    ensures I.IntegerBytes(256 * (if a < 128 then a else a - 256) + b) == [a, b]
  {
    hide I.Signed, I.IntegerBytes;
    SignedGrows([], a);
    SignedGrows([a], b);
    assert [a] + [b] == [a, b];
    KnownInteger(I.Signed([a, b]), [a, b]);
  }

  // ---------------------------------------------------------------- BIT STRING

  /** Bits are counted from the most significant one, and the unused ones are the lowest. */
  lemma BitsCounted(b: bv8, k: nat)
    requires k < 8
    ensures B.Has(b, k) <==> (b << k) & 0x80 == 0x80
    ensures b & B.LowBits(k) == 0 <==> (b >> k) << k == b
  {
  }

  /** keyCertSign and cRLSign, the bits 5 and 6 of a key usage: one unused bit, then 06. */
  lemma KnownBits()
    ensures B.ReadContent([1, 0x06]) == Ok(B.Bits(1, [0x06])) && B.Minimal(B.Bits(1, [0x06]))
    ensures B.NamesBits(B.Bits(1, [0x06]), [5, 6])
  {
    forall i: nat ensures B.BitSet([0x06], i) <==> i in [5, 6] {
      if i < 8 { assert i == 0 || i == 1 || i == 2 || i == 3 || i == 4 || i == 5 || i == 6 || i == 7; }
    }
    assert B.UnusedClear(B.Bits(1, [0x06]));
  }
}
