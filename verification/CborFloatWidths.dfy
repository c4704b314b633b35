/**
 How the three float formats lie in one another, in the numbers of section 3.4 of IEEE 754:
 a half is a single and a single is a double of the same value, and which values the
 narrower ones hold.
 */
module CborFloatWidths {
  import opened Radix
  import opened CborFloat

  lemma {:induction false} PowAdd(b: nat, i: nat, j: nat)
    ensures Pow(b, i + j) == Pow(b, i) * Pow(b, j)
    decreases i
  {
    if i > 0 {
      PowAdd(b, i - 1, j);
      Reassociate(b, Pow(b, i - 1), Pow(b, j));
    }
  }

  lemma Reassociate(a: nat, b: nat, c: nat)
    ensures a * (b * c) == (a * b) * c
  {
  }

  /** The powers of two that the formats are made of. */
  lemma Powers()
    ensures Pow(2, 10) == 1024 && Pow(2, 13) == 8192 && Pow(2, 23) == 0x80_0000
    ensures Pow(2, 29) == 0x2000_0000 && Pow(2, 52) == 0x10_0000_0000_0000
  {
    TwoToTheTen();
    assert Pow(2, 3) == 2 * Pow(2, 2) && Pow(2, 2) == 2 * Pow(2, 1) && Pow(2, 1) == 2 * Pow(2, 0);
    PowAdd(2, 10, 3);
    PowAdd(2, 10, 13);
    PowAdd(2, 6, 23);
    PowAdd(2, 3, 3);
    PowAdd(2, 23, 29);
  }

  // ---------------------------------------------------------------- values

  /** A number of units of 2^e. */
  function Times(n: nat, e: nat): nat {
    n * Pow(2, e)
  }

  /** A sign, an exponent and a mantissa as the bits of each format. */
  function HalfBits(s: nat, e: nat, m: nat): nat {
    s * 0x8000 + e * 0x400 + m
  }

  function SingleBits(s: nat, e: nat, m: nat): nat {
    s * 0x8000_0000 + e * 0x80_0000 + m
  }

  function DoubleBits(s: nat, e: nat, m: nat): nat {
    s * 0x8000_0000_0000_0000 + e * 0x10_0000_0000_0000 + m
  }

  lemma Block(e: nat, p: nat, m: nat)
    requires m < p
    ensures (e * p + m) / p == e && (e * p + m) % p == m
  {
    DivModUnique(e, p, m);
  }

  /** The value of bits below infinity, with or without the sign. */
  lemma FieldsValue(f: Format, s: nat, e: nat, m: nat)
    requires f.exponents >= 2 && s <= 1 && e < f.exponents - 1 && m < Pow(2, f.mantissa)
    ensures var x := e * Pow(2, f.mantissa) + m;
      && IsBits(f, s * Unsigned(f) + x)
      && ValueOf(f, s * Unsigned(f) + x) == Finite(s == 1, Times(Scaled(Pow(2, f.mantissa), e, m), f.unit))
  {
    var p := Pow(2, f.mantissa);
    var x := e * p + m;
    hide Scaled, Pow;
    Block(e, p, m);
    InfinityFits(f);
    NextBlock(e, p);
    MulMono(e + 1, f.exponents - 1, p);
    SignedValue(f, s == 1, x);
    hide ValueOf;
    assert s * Unsigned(f) + x == if s == 1 then Unsigned(f) + x else x;
  }

  lemma Subnormal(p: nat, m: nat)
    ensures Scaled(p, 0, m) == m
  {
  }

  lemma HalfValue(s: nat, e: nat, m: nat)
    requires s <= 1 && e < 31 && m < 0x400
    ensures IsBits(HALF, HalfBits(s, e, m)) &&
            ValueOf(HALF, HalfBits(s, e, m)) == Finite(s == 1, Times(Scaled(0x400, e, m), 1050))
  {
    Powers();
    hide Scaled, ValueOf, Pow;
    FieldsValue(HALF, s, e, m);
  }

  lemma SingleValue(s: nat, e: nat, m: nat)
    requires s <= 1 && e < 255 && m < 0x80_0000
    ensures IsBits(SINGLE, SingleBits(s, e, m)) &&
            ValueOf(SINGLE, SingleBits(s, e, m)) == Finite(s == 1, Times(Scaled(0x80_0000, e, m), 925))
  {
    Powers();
    hide Scaled, ValueOf, Pow;
    FieldsValue(SINGLE, s, e, m);
  }

  lemma DoubleValue(s: nat, e: nat, m: nat)
    requires s <= 1 && e < 2047 && m < 0x10_0000_0000_0000
    ensures IsBits(DOUBLE, DoubleBits(s, e, m)) &&
            ValueOf(DOUBLE, DoubleBits(s, e, m)) == Finite(s == 1, Scaled(0x10_0000_0000_0000, e, m))
  {
    Powers();
    assert Pow(2, 0) == 1;
    hide Scaled, ValueOf, Pow;
    FieldsValue(DOUBLE, s, e, m);
  }

  /** A mantissa and its scale, moved to a wider format. */
  lemma Widened(p: nat, m: nat, k: nat, e: nat, u: nat, e': nat, u': nat)
    requires e >= 1 && e' >= 1 && e - 1 + u == k + (e' - 1) + u'
    ensures (p + m) * Pow(2, e - 1) * Pow(2, u) ==
            (p * Pow(2, k) + m * Pow(2, k)) * Pow(2, e' - 1) * Pow(2, u')
  {
    PowAdd(2, e - 1, u);
    PowAdd(2, k, e' - 1 + u');
    PowAdd(2, e' - 1, u');
    var a, b, c := Pow(2, k), Pow(2, e' - 1), Pow(2, u');
    hide Pow;
    Products(p + m, Pow(2, e - 1), Pow(2, u), a, b, c);
    Distribute(p, m, a);
  }

  lemma Distribute(p: nat, m: nat, a: nat)
    ensures (p + m) * a == p * a + m * a
  {
  }

  lemma Products(n: nat, x: nat, y: nat, a: nat, b: nat, c: nat)
    requires x * y == a * (b * c)
    ensures n * x * y == n * a * b * c
  {
    Reassociate(n, x, y);
    Reassociate(n, a, b * c);
    Reassociate(n * a, b, c);
  }

  lemma HalfScale(e: nat, m: nat)
    requires e >= 1
    ensures Scaled(0x400, e, m) * Pow(2, 1050) == Scaled(0x80_0000, e + 112, m * 0x2000) * Pow(2, 925)
  {
    Widened(0x400, m, 13, e, 1050, e + 112, 925);
    Powers();
    hide Pow;
  }

  lemma SingleScale(e: nat, m: nat)
    requires e >= 1
    ensures Scaled(0x80_0000, e, m) * Pow(2, 925) == Scaled(0x10_0000_0000_0000, e + 896, m * 0x2000_0000)
  {
    Widened(0x80_0000, m, 29, e, 925, e + 896, 0);
    Powers();
    assert Pow(2, 0) == 1;
    hide Pow;
  }

  /** Every normal half is the single with its exponent 112 higher and its mantissa 13 places further left. */
  lemma HalfIsSingle(s: nat, e: nat, m: nat)
    requires s <= 1 && 1 <= e <= 30 && m < 0x400
    ensures IsBits(HALF, HalfBits(s, e, m)) && IsBits(SINGLE, SingleBits(s, e + 112, m * 0x2000))
    ensures ValueOf(HALF, HalfBits(s, e, m)) == ValueOf(SINGLE, SingleBits(s, e + 112, m * 0x2000)) != NaN
  {
    hide ValueOf, Pow, HalfBits, SingleBits, Scaled;
    HalfValue(s, e, m);
    SingleValue(s, e + 112, m * 0x2000);
    HalfScale(e, m);
  }

  /** Every normal single is the double with its exponent 896 higher and its mantissa 29 places further left. */
  lemma SingleIsDouble(s: nat, e: nat, m: nat)
    requires s <= 1 && 1 <= e <= 254 && m < 0x80_0000
    ensures IsBits(SINGLE, SingleBits(s, e, m)) && IsBits(DOUBLE, DoubleBits(s, e + 896, m * 0x2000_0000))
    ensures ValueOf(SINGLE, SingleBits(s, e, m)) == ValueOf(DOUBLE, DoubleBits(s, e + 896, m * 0x2000_0000)) != NaN
  {
    hide ValueOf, Pow, DoubleBits, SingleBits, Scaled;
    SingleValue(s, e, m);
    DoubleValue(s, e + 896, m * 0x2000_0000);
    SingleScale(e, m);
  }

  /** Subnormals count up from the least float of each format: 2^-24, 2^-149 and 2^-1074. */
  lemma HalfSubnormal(s: nat, m: nat)
    requires s <= 1 && m < 0x400
    ensures IsBits(HALF, HalfBits(s, 0, m)) &&
            ValueOf(HALF, HalfBits(s, 0, m)) == Finite(s == 1, Times(m, 1074 - 24))
  {
    hide ValueOf, Pow;
    Subnormal(0x400, m);
    hide Scaled;
    HalfValue(s, 0, m);
  }

  lemma SingleSubnormal(s: nat, m: nat)
    requires s <= 1 && m < 0x80_0000
    ensures IsBits(SINGLE, SingleBits(s, 0, m)) &&
            ValueOf(SINGLE, SingleBits(s, 0, m)) == Finite(s == 1, Times(m, 1074 - 149))
  {
    hide ValueOf, Pow;
    Subnormal(0x80_0000, m);
    hide Scaled;
    SingleValue(s, 0, m);
  }

  lemma DoubleSubnormal(s: nat, m: nat)
    requires s <= 1 && m < 0x10_0000_0000_0000
    ensures IsBits(DOUBLE, DoubleBits(s, 0, m)) && ValueOf(DOUBLE, DoubleBits(s, 0, m)) == Finite(s == 1, m)
  {
    hide ValueOf, Pow;
    Subnormal(0x10_0000_0000_0000, m);
    hide Scaled;
    DoubleValue(s, 0, m);
  }

  /** A normal double, in units of the least: 1.0 is 2^1074 of them. */
  lemma NormalDouble(s: nat, e: nat, m: nat)
    requires s <= 1 && 1 <= e <= 2046 && m < 0x10_0000_0000_0000
    ensures IsBits(DOUBLE, DoubleBits(s, e, m)) &&
            ValueOf(DOUBLE, DoubleBits(s, e, m)) == Finite(s == 1, Times(0x10_0000_0000_0000 + m, e - 1))
  {
    DoubleValue(s, e, m);
    hide ValueOf, Pow, DoubleBits;
  }

  /** 1.0 in the three widths. */
  lemma OnePointZero()
    ensures IsBits(HALF, 0x3c00) && ValueOf(HALF, 0x3c00) == Finite(false, Pow(2, 1074))
    ensures IsBits(SINGLE, 0x3f80_0000) && ValueOf(SINGLE, 0x3f80_0000) == Finite(false, Pow(2, 1074))
    ensures IsBits(DOUBLE, 0x3ff0_0000_0000_0000)
    ensures ValueOf(DOUBLE, 0x3ff0_0000_0000_0000) == Finite(false, Pow(2, 1074))
  {
    hide ValueOf, Pow, IsBits;
    HalfIsSingle(0, 15, 0);
    SingleIsDouble(0, 127, 0);
    NormalDouble(0, 1023, 0);
    OneInUnits();
    assert HalfBits(0, 15, 0) == 0x3c00 && SingleBits(0, 127, 0) == 0x3f80_0000;
    assert DoubleBits(0, 1023, 0) == 0x3ff0_0000_0000_0000;
  }

  lemma OneInUnits()
    ensures 0x10_0000_0000_0000 * Pow(2, 1022) == Pow(2, 1074)
  {
    Powers();
    PowAdd(2, 52, 1022);
  }

  /** Exponent bits all set: infinity when the mantissa is zero, else no number. */
  lemma HalfSpecial(s: nat, m: nat)
    requires s <= 1 && m < 0x400
    ensures IsBits(HALF, HalfBits(s, 31, m)) &&
            ValueOf(HALF, HalfBits(s, 31, m)) == if m == 0 then Infinite(s == 1) else NaN
  {
    Powers();
    hide ValueOf, Pow;
    TopValue(HALF, s, m);
  }

  lemma SingleSpecial(s: nat, m: nat)
    requires s <= 1 && m < 0x80_0000
    ensures IsBits(SINGLE, SingleBits(s, 255, m)) &&
            ValueOf(SINGLE, SingleBits(s, 255, m)) == if m == 0 then Infinite(s == 1) else NaN
  {
    Powers();
    hide ValueOf, Pow;
    TopValue(SINGLE, s, m);
  }

  lemma DoubleSpecial(s: nat, m: nat)
    requires s <= 1 && m < 0x10_0000_0000_0000
    ensures IsBits(DOUBLE, DoubleBits(s, 2047, m)) &&
            ValueOf(DOUBLE, DoubleBits(s, 2047, m)) == if m == 0 then Infinite(s == 1) else NaN
  {
    Powers();
    hide ValueOf, Pow;
    TopValue(DOUBLE, s, m);
  }

  lemma TopValue(f: Format, s: nat, m: nat)
    requires f.exponents >= 2 && s <= 1 && m < Pow(2, f.mantissa)
    ensures var x := (f.exponents - 1) * Pow(2, f.mantissa) + m;
      && IsBits(f, s * Unsigned(f) + x)
      && ValueOf(f, s * Unsigned(f) + x) == if m == 0 then Infinite(s == 1) else NaN
  {
    hide Pow, Magnitude;
    Block(f.exponents - 1, Pow(2, f.mantissa), m);
    InfinityFits(f);
  }

  // ---------------------------------------------------------------- what the decoder accepts

  /** A single in the range of normal halves is a half exactly when the last 13 bits of its mantissa are zero. */
  lemma HalfHolds(s: nat, e: nat, m: nat)
    requires s <= 1 && 113 <= e <= 142 && m < 0x80_0000
    ensures IsBits(SINGLE, SingleBits(s, e, m))
    ensures FloatOk(26, SingleBits(s, e, m)) <==> m % 0x2000 != 0
  {
    SingleValue(s, e, m);
    var v := ValueOf(SINGLE, SingleBits(s, e, m));
    hide ValueOf;
    if m % 0x2000 == 0 {
      HalfIsSingle(s, e - 112, m / 0x2000);
      assert m / 0x2000 * 0x2000 == m;
      assert Roundtrips(HALF, v);
    } else if Roundtrips(HALF, v) {
      var bits :| 0 <= bits < 2 * Unsigned(HALF) && ValueOf(HALF, bits) == v;
      NoHalf(s, e, m, bits);
    }
  }

  /** The bits of a half are a sign, an exponent and a mantissa. */
  lemma HalfParts(bits: nat) returns (s: nat, e: nat, m: nat)
    requires bits < 0x1_0000
    ensures s <= 1 && e < 32 && m < 0x400 && bits == HalfBits(s, e, m)
  {
    s, e, m := bits / 0x8000, bits % 0x8000 / 0x400, bits % 0x400;
  }

  lemma NoHalf(s: nat, e: nat, m: nat, bits: nat)
    requires s <= 1 && 113 <= e <= 254 && m < 0x80_0000 && IsBits(HALF, bits)
    requires IsBits(SINGLE, SingleBits(s, e, m))
    requires ValueOf(HALF, bits) == ValueOf(SINGLE, SingleBits(s, e, m))
    ensures e <= 142 && m % 0x2000 == 0
  {
    Powers();
    hide ValueOf, Pow;
    SingleValue(s, e, m);
    assert Unsigned(HALF) == 0x8000;
    var s', e', m' := HalfParts(bits);
    if e' == 31 {
      HalfSpecial(s', m');
    } else if e' == 0 {
      HalfSubnormal(s', m');
      SmallBelow(e, m, m');
    } else {
      HalfIsSingle(s', e', m');
      ValueInjective(SINGLE, SingleBits(s', e' + 112, m' * 0x2000), SingleBits(s, e, m));
      PartsUnique(s', e' + 112, m' * 0x2000, s, e, m);
    }
  }

  lemma PartsUnique(s: nat, e: nat, m: nat, s': nat, e': nat, m': nat)
    requires s <= 1 && s' <= 1 && e < 256 && e' < 256 && m < 0x80_0000 && m' < 0x80_0000
    requires SingleBits(s, e, m) == SingleBits(s', e', m')
    ensures s == s' && e == e' && m == m'
  {
  }

  /** A single from exponent 113 on is at least the least normal half. */
  lemma SmallBelow(e: nat, m: nat, m': nat)
    requires 113 <= e && m' < 0x400
    ensures m' * Pow(2, 1050) < Scaled(0x80_0000, e, m) * Pow(2, 925)
  {
    var d, c := Pow(2, 125), Pow(2, 925);
    LeastNormal();
    PowMono(2, 112, e - 1);
    PowPositive(2, 925);
    PowPositive(2, 125);
    PowAdd(2, 125, 925);
    hide Pow;
    Above(0x80_0000 + m, Pow(2, 112), Pow(2, e - 1), m', d);
    LessScaled(m' * d, (0x80_0000 + m) * Pow(2, e - 1), c);
    Reassociate(m', d, c);
  }

  lemma LeastNormal()
    ensures 0x80_0000 * Pow(2, 112) == 0x400 * Pow(2, 125)
  {
    Powers();
    PowAdd(2, 23, 112);
    PowAdd(2, 10, 125);
  }

  lemma Above(n: nat, a: nat, b: nat, m: nat, d: nat)
    requires n >= 0x80_0000 && a <= b && m < 0x400 && d >= 1 && 0x80_0000 * a == 0x400 * d
    ensures m * d < n * b
  {
    MulMono(0x80_0000, n, b);
    MulMono(a, b, 0x80_0000);
    MulMono(m + 1, 0x400, d);
    assert (m + 1) * d == m * d + d;
  }

  /** From 65536 on no single is a half: it is accepted as a single. */
  lemma BeyondHalf(s: nat, e: nat, m: nat)
    requires s <= 1 && 143 <= e <= 254 && m < 0x80_0000
    ensures IsBits(SINGLE, SingleBits(s, e, m)) && FloatOk(26, SingleBits(s, e, m))
  {
    SingleValue(s, e, m);
    var v := ValueOf(SINGLE, SingleBits(s, e, m));
    hide ValueOf;
    if Roundtrips(HALF, v) {
      var bits :| 0 <= bits < 2 * Unsigned(HALF) && ValueOf(HALF, bits) == v;
      NoHalf(s, e, m, bits);
    }
  }

  /** 65504.0 is the greatest half; the single of that value is refused and that of 65536.0 is not. */
  lemma GreatestHalf()
    ensures IsBits(SINGLE, 0x477f_e000) && !FloatOk(26, 0x477f_e000)
    ensures IsBits(SINGLE, 0x4780_0000) && FloatOk(26, 0x4780_0000)
  {
    hide FloatOk, IsBits;
    HalfHolds(0, 142, 0x7f_e000);
    BeyondHalf(0, 143, 0);
    assert SingleBits(0, 142, 0x7f_e000) == 0x477f_e000 && SingleBits(0, 143, 0) == 0x4780_0000;
  }
}
