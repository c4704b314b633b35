/**
 The values of half, single and double floats, and the rule that a value is carried by the
 narrowest of the three that holds it. A magnitude is counted in units of 2^-1074, the
 least double. The decoder rounds to a narrower width and back; that gives the value again
 exactly when some float of that width has it, which is how the rule is stated.
 */
module CborFloat {
  import opened Radix

  datatype FloatValue = NaN | Infinite(negative: bool) | Finite(negative: bool, magnitude: nat)

  /** Mantissa bits, exponent values, and the exponent of the format's own unit over 2^-1074. */
  datatype Format = Format(mantissa: nat, exponents: nat, unit: nat)

  const HALF := Format(10, 32, 1050)
  const SINGLE := Format(23, 256, 925)
  const DOUBLE := Format(52, 2048, 0)

  /** The magnitude of an exponent and mantissa, in the format's own unit. */
  function Magnitude(f: Format, x: nat): nat {
    var p := Pow(2, f.mantissa);
    PowPositive(2, f.mantissa);
    Scaled(p, x / p, x % p)
  }

  /** Exponent zero is subnormal; above it the leading one of the mantissa is implied. */
  function Scaled(p: nat, e: nat, m: nat): nat {
    if e == 0 then m else (p + m) * Pow(2, e - 1)
  }

  function Unsigned(f: Format): nat {
    f.exponents * Pow(2, f.mantissa)
  }

  predicate IsBits(f: Format, bits: nat) {
    bits < 2 * Unsigned(f)
  }

  /** The value of the bits of a float. */
  function ValueOf(f: Format, bits: nat): FloatValue
    requires IsBits(f, bits) && f.exponents >= 1
  {
    var p := Pow(2, f.mantissa);
    PowPositive(2, f.mantissa);
    var negative := bits >= Unsigned(f);
    var x := if negative then bits - Unsigned(f) else bits;
    if x / p == f.exponents - 1 then
      if x % p == 0 then Infinite(negative) else NaN
    else Finite(negative, Magnitude(f, x) * Pow(2, f.unit))
  }

  lemma NextMantissa(p: nat, e: nat, m: nat)
    ensures Scaled(p, e, m) < Scaled(p, e, m + 1)
  {
    if e > 0 {
      PowPositive(2, e - 1);
      Grow(p + m, Pow(2, e - 1));
    }
  }

  lemma NextExponent(p: nat, e: nat)
    requires p >= 1
    ensures Scaled(p, e, p - 1) < Scaled(p, e + 1, 0)
  {
    if e == 0 {
      assert Pow(2, 0) == 1;
    } else {
      PowPositive(2, e - 1);
      Doubled(p, Pow(2, e - 1));
      assert Pow(2, e) == 2 * Pow(2, e - 1);
    }
  }

  lemma NextIsGreater(f: Format, x: nat)
    ensures Magnitude(f, x) < Magnitude(f, x + 1)
  {
    hide Scaled, Pow;
    var p := Pow(2, f.mantissa);
    PowPositive(2, f.mantissa);
    var e, m := x / p, x % p;
    QuotientRemainderOf(x, p);
    if m + 1 < p {
      DivModUnique(e, p, m + 1);
      NextMantissa(p, e, m);
    } else {
      NextBlock(e, p);
      DivModUnique(e + 1, p, 0);
      NextExponent(p, e);
    }
  }

  lemma QuotientRemainderOf(x: nat, p: nat)
    requires p >= 1
    ensures x == (x / p) * p + x % p && x % p < p
  {
  }

  lemma NextBlock(e: nat, p: nat)
    ensures e * p + p == (e + 1) * p + 0
  {
  }

  lemma Grow(a: nat, k: nat)
    requires k >= 1
    ensures a * k < (a + 1) * k
  {
  }

  lemma Doubled(p: nat, k: nat)
    requires p >= 1 && k >= 1
    ensures (p + (p - 1)) * k < (p + 0) * (2 * k)
  {
    assert (p + (p - 1)) * k == 2 * (p * k) - k;
    assert (p + 0) * (2 * k) == 2 * (p * k);
  }

  lemma {:induction false} MagnitudeIncreases(f: Format, x: nat, y: nat)
    requires x < y
    ensures Magnitude(f, x) < Magnitude(f, y)
    decreases y
  {
    NextIsGreater(f, y - 1);
    if x < y - 1 { MagnitudeIncreases(f, x, y - 1); }
  }

  lemma LessScaled(a: nat, b: nat, k: nat)
    requires a < b && k >= 1
    ensures a * k < b * k
  {
    MulMono(a + 1, b, k);
  }

  lemma ScaleInjective(a: nat, b: nat, k: nat)
    requires k >= 1 && a * k == b * k
    ensures a == b
  {
    if a < b { LessScaled(a, b, k); }
    if b < a { LessScaled(b, a, k); }
  }

  /** Within one width, a value other than NaN has one bit pattern. */
  lemma ValueInjective(f: Format, a: nat, b: nat)
    requires f.exponents >= 1 && IsBits(f, a) && IsBits(f, b)
    requires ValueOf(f, a) == ValueOf(f, b) != NaN
    ensures a == b
  {
    var p := Pow(2, f.mantissa);
    PowPositive(2, f.mantissa);
    var u := Unsigned(f);
    var x, y := if a >= u then a - u else a, if b >= u then b - u else b;
    match ValueOf(f, a)
    case Infinite(_) =>
      QuotientRemainderOf(x, p);
      QuotientRemainderOf(y, p);
    case Finite(_, _) =>
      PowPositive(2, f.unit);
      ScaleInjective(Magnitude(f, x), Magnitude(f, y), Pow(2, f.unit));
      if x < y { MagnitudeIncreases(f, x, y); }
      if y < x { MagnitudeIncreases(f, y, x); }
  }

  // ---------------------------------------------------------------- the width rule

  /** The format an additional-information value of 25, 26 or 27 selects. */
  function FormatOf(ai: nat): (f: Format)
    ensures f.exponents >= 1
  {
    if ai == 25 then HALF else if ai == 26 then SINGLE else DOUBLE
  }

  /** A value some float of the format has: what survives a round trip through that width. */
  predicate Roundtrips(f: Format, v: FloatValue)
    requires f.exponents >= 1
  {
    exists bits :: 0 <= bits < 2 * Unsigned(f) && ValueOf(f, bits) == v
  }

  // ---------------------------------------------------------------- rounding

  /** The bits of the format's infinity, without a sign; the finite floats are those below. */
  function InfinityBits(f: Format): nat
    requires f.exponents >= 2
  {
    (f.exponents - 1) * Pow(2, f.mantissa)
  }

  /** What unsigned bits stand for in units of 2^-1074, infinity taken as the power of two after the greatest float. */
  function Units(f: Format, x: nat): nat {
    Magnitude(f, x) * Pow(2, f.unit)
  }

  /** The greatest float up to x that is not above a magnitude. */
  function FloorBits(f: Format, m: nat, x: nat): (r: nat)
    ensures r <= x && Units(f, r) <= m && (r < x ==> m < Units(f, r + 1))
  {
    UnitsOfZero(f);
    if x == 0 || Units(f, x) <= m then x else FloorBits(f, m, x - 1)
  }

  /** The nearest float to a magnitude, the even one of two as near, infinity from half a step above the greatest. */
  function NearestBits(f: Format, m: nat): (r: nat)
    requires f.exponents >= 2
    ensures r <= InfinityBits(f)
  {
    PowPositive(2, f.mantissa);
    var x := FloorBits(f, m, InfinityBits(f));
    if x == InfinityBits(f) then x
    else
      var below, above := m - Units(f, x), Units(f, x + 1) - m;
      if below < above || (below == above && x % 2 == 0) then x else x + 1
  }

  lemma UnitsIncrease(f: Format, x: nat, y: nat)
    ensures x < y ==> Units(f, x) < Units(f, y)
  {
    if x < y {
      MagnitudeIncreases(f, x, y);
      PowPositive(2, f.unit);
      LessScaled(Magnitude(f, x), Magnitude(f, y), Pow(2, f.unit));
    }
  }

  function Distance(a: int, b: int): nat {
    if a <= b then b - a else a - b
  }

  /** No float of the format is nearer to a magnitude, and of two as near the even one is taken. */
  lemma NearestIsNearest(f: Format, m: nat, y: nat)
    requires f.exponents >= 2 && y <= InfinityBits(f)
    ensures var r := NearestBits(f, m);
      && Distance(m, Units(f, r)) <= Distance(m, Units(f, y))
      && (Distance(m, Units(f, r)) == Distance(m, Units(f, y)) && y != r ==> r % 2 == 0)
  {
    hide Units;
    var x := FloorBits(f, m, InfinityBits(f));
    UnitsIncrease(f, y, x);
    UnitsIncrease(f, x + 1, y);
  }

  /** A value other than NaN written into a format and read back, as setFloat16 and fround do. */
  function Rounded(f: Format, v: FloatValue): FloatValue
    requires f.exponents >= 2 && v != NaN
  {
    InfinityFits(f);
    var x := if v.Infinite? then InfinityBits(f) else NearestBits(f, v.magnitude);
    ValueOf(f, if v.negative then Unsigned(f) + x else x)
  }

  lemma InfinityFits(f: Format)
    requires f.exponents >= 2
    ensures InfinityBits(f) + Pow(2, f.mantissa) == Unsigned(f) && Pow(2, f.mantissa) >= 1
  {
    PowPositive(2, f.mantissa);
    NextBlock(f.exponents - 1, Pow(2, f.mantissa));
  }

  lemma UnitsOfZero(f: Format)
    ensures Units(f, 0) == 0
  {
    PowPositive(2, f.mantissa);
  }

  /** Below infinity, bits with a sign stand for their units; infinity stands for itself. */
  lemma SignedValue(f: Format, negative: bool, x: nat)
    requires f.exponents >= 2 && x <= InfinityBits(f)
    ensures var bits := if negative then Unsigned(f) + x else x;
      && IsBits(f, bits)
      && ValueOf(f, bits) == if x == InfinityBits(f) then Infinite(negative) else Finite(negative, Units(f, x))
  {
    var p := Pow(2, f.mantissa);
    InfinityFits(f);
    if x == InfinityBits(f) {
      DivModUnique(f.exponents - 1, p, 0);
    } else if x / p >= f.exponents - 1 {
      QuotientRemainderOf(x, p);
      MulMono(f.exponents - 1, x / p, p);
    }
    hide Magnitude;
  }

  /** A float's magnitude is its own nearest float. */
  lemma NearestOfFloat(f: Format, x: nat)
    requires f.exponents >= 2 && x < InfinityBits(f)
    ensures NearestBits(f, Units(f, x)) == x
  {
    var y := FloorBits(f, Units(f, x), InfinityBits(f));
    if y < x { UnitsIncrease(f, y + 1, x); }
    if x < y { UnitsIncrease(f, x, y); }
    UnitsIncrease(f, x, x + 1);
  }

  /** Rounding to a format gives a value back exactly when some float of the format has it. */
  lemma RoundsBackExactly(f: Format, v: FloatValue)
    requires f.exponents >= 2 && v != NaN
    ensures Rounded(f, v) == v <==> Roundtrips(f, v)
  {
    InfinityFits(f);
    hide ValueOf, Units, NearestBits;
    var x := if v.Infinite? then InfinityBits(f) else NearestBits(f, v.magnitude);
    SignedValue(f, v.negative, x);
    if Roundtrips(f, v) {
      var bits :| 0 <= bits < 2 * Unsigned(f) && ValueOf(f, bits) == v;
      var y := UnsignedBits(f, bits);
      if v.Finite? {
        SignedValue(f, v.negative, y);
        NearestOfFloat(f, y);
      }
    }
  }

  lemma InBlocks(q: nat, m: nat, p: nat, e: nat)
    requires m < p && e >= 1 && q * p + m < e * p
    ensures q < e && (q < e - 1 ==> q * p + m < (e - 1) * p)
  {
    if q >= e { MulMono(e, q, p); }
    if q < e - 1 {
      NextBlock(q, p);
      MulMono(q + 1, e - 1, p);
    }
  }

  /** Unsigned bits below infinity, at it, or above it, by exponent and mantissa. */
  lemma BlockOf(f: Format, x: nat)
    requires f.exponents >= 2 && x < Unsigned(f)
    ensures var p := Pow(2, f.mantissa);
      && p >= 1 && x / p <= f.exponents - 1
      && (x / p < f.exponents - 1 ==> x < InfinityBits(f))
      && (x / p == f.exponents - 1 && x % p == 0 ==> x == InfinityBits(f))
  {
    var p := Pow(2, f.mantissa);
    PowPositive(2, f.mantissa);
    hide Pow;
    QuotientRemainderOf(x, p);
    InBlocks(x / p, x % p, p, f.exponents);
  }

  /** The bits of a float without its sign: they are no greater than infinity's, or the float is a NaN. */
  lemma UnsignedBits(f: Format, bits: nat) returns (x: nat)
    requires f.exponents >= 2 && IsBits(f, bits) && ValueOf(f, bits) != NaN
    ensures x <= InfinityBits(f) && bits == if ValueOf(f, bits).negative then Unsigned(f) + x else x
    ensures ValueOf(f, bits).Finite? ==> x < InfinityBits(f)
  {
    hide Magnitude, Pow, Unsigned, InfinityBits;
    x := if bits >= Unsigned(f) then bits - Unsigned(f) else bits;
    BlockOf(f, x);
  }

  // ---------------------------------------------------------------- one form

  const CANONICAL_NAN := 0x7e00

  /** The decoder's rule on a float: one NaN, and no value a narrower width holds. */
  predicate FloatOk(ai: nat, bits: nat)
    requires 25 <= ai <= 27 && IsBits(FormatOf(ai), bits)
  {
    var v := ValueOf(FormatOf(ai), bits);
    if v == NaN then ai == 25 && bits == CANONICAL_NAN
    else (ai >= 26 ==> !Roundtrips(HALF, v)) && (ai == 27 ==> !Roundtrips(SINGLE, v))
  }

  /** Two accepted floats of one value are the same float, NaN included. */
  lemma OneFloatForm(ai: nat, bits: nat, ai': nat, bits': nat)
    requires 25 <= ai <= 27 && IsBits(FormatOf(ai), bits) && FloatOk(ai, bits)
    requires 25 <= ai' <= 27 && IsBits(FormatOf(ai'), bits') && FloatOk(ai', bits')
    requires ValueOf(FormatOf(ai), bits) == ValueOf(FormatOf(ai'), bits')
    ensures ai == ai' && bits == bits'
  {
    hide ValueOf;
    var v := ValueOf(FormatOf(ai), bits);
    if v != NaN {
      assert Roundtrips(FormatOf(ai), v) && Roundtrips(FormatOf(ai'), v);
      if ai == ai' { ValueInjective(FormatOf(ai), bits, bits'); }
    }
  }

  lemma CanonicalIsNaN()
    ensures IsBits(HALF, CANONICAL_NAN) && ValueOf(HALF, CANONICAL_NAN) == NaN
  {
    TwoToTheTen();
    hide Pow;
    assert CANONICAL_NAN / 1024 == 31 && CANONICAL_NAN % 1024 == 512;
  }

  lemma TwoToTheTen()
    ensures Pow(2, 10) == 1024
  {
    assert Pow(2, 10) == 4 * Pow(2, 8) && Pow(2, 8) == 4 * Pow(2, 6) && Pow(2, 6) == 4 * Pow(2, 4);
    assert Pow(2, 4) == 4 * Pow(2, 2) && Pow(2, 2) == 4 * Pow(2, 0);
  }

  /** The canonical half-width NaN is accepted, and no other float that is not a number is. */
  lemma OneNaN(ai: nat, bits: nat)
    requires 25 <= ai <= 27 && IsBits(FormatOf(ai), bits)
    ensures ValueOf(FormatOf(ai), bits) == NaN && FloatOk(ai, bits) <==> ai == 25 && bits == CANONICAL_NAN
  {
    CanonicalIsNaN();
    hide ValueOf;
  }

  /** Every double other than a NaN is accepted in some width, with the same value. */
  lemma EveryDoubleHasAForm(d: nat) returns (ai: nat, bits: nat)
    requires IsBits(DOUBLE, d) && ValueOf(DOUBLE, d) != NaN
    ensures 25 <= ai <= 27 && IsBits(FormatOf(ai), bits) && FloatOk(ai, bits)
    ensures ValueOf(FormatOf(ai), bits) == ValueOf(DOUBLE, d)
  {
    hide ValueOf;
    var v := ValueOf(DOUBLE, d);
    if Roundtrips(HALF, v) {
      ai := 25;
      bits :| 0 <= bits < 2 * Unsigned(HALF) && ValueOf(HALF, bits) == v;
    } else if Roundtrips(SINGLE, v) {
      ai := 26;
      bits :| 0 <= bits < 2 * Unsigned(SINGLE) && ValueOf(SINGLE, bits) == v;
    } else {
      ai, bits := 27, d;
    }
  }
}
