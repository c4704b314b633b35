/**
 Positional numerals, most significant digit first. DER length octets, high tag numbers,
 OBJECT IDENTIFIER sub-identifiers, INTEGER magnitudes, CBOR arguments and bignums are
 all numerals in base 128 or 256.
 */
module Radix {

  function Pow(b: nat, e: nat): nat {
    if e == 0 then 1 else b * Pow(b, e - 1)
  }

  ghost predicate AreDigits(ds: seq<nat>, b: nat) {
    forall i :: 0 <= i < |ds| ==> ds[i] < b
  }

  /** The number a numeral names. */
  function Value(ds: seq<nat>, b: nat): nat {
    if ds == [] then 0 else Value(ds[..|ds| - 1], b) * b + ds[|ds| - 1]
  }

  /** The shortest numeral of a number; zero is the single digit 0. */
  function Digits(n: nat, b: nat): (ds: seq<nat>)
    requires b >= 2
    ensures |ds| >= 1
    decreases n
  {
    if n < b then [n] else QuotientShrinks(n, b); Digits(n / b, b) + [n % b]
  }

  /** The numeral of a number in exactly w digits, most significant first. */
  function Fixed(n: nat, b: nat, w: nat): (ds: seq<nat>)
    requires b >= 2
    ensures |ds| == w
    decreases w
  {
    if w == 0 then [] else Fixed(n / b, b, w - 1) + [n % b]
  }

  lemma QuotientShrinks(n: nat, b: nat)
    requires 2 <= b <= n
    ensures 0 < n / b < n
  {
    var q, r := n / b, n % b;
    assert n == b * q + r;
    assert b * q >= 2 * q by { MulMono(2, b, q); }
  }

  lemma MulMono(x: nat, y: nat, k: nat)
    requires x <= y
    ensures x * k <= y * k
  {
    assert (y - x) * k >= 0;
  }

  lemma DivModUnique(q: nat, b: nat, d: nat)
    requires d < b
    ensures (q * b + d) / b == q && (q * b + d) % b == d
  {
    var n := q * b + d;
    var q', r' := n / b, n % b;
    assert n == b * q' + r' && 0 <= r' < b;
    assert (q - q') * b == r' - d;
    if q > q' { MulMono(1, q - q', b); }
    if q < q' { MulMono(1, q' - q, b); }
  }

  lemma ValueNil(b: nat)
    ensures Value([], b) == 0
  {
  }

  lemma {:induction false} ValueAppend(ds: seq<nat>, b: nat, d: nat)
    ensures Value(ds + [d], b) == Value(ds, b) * b + d
  {
    assert (ds + [d])[..|ds|] == ds;
  }

  lemma QuotientRemainder(n: nat, b: nat)
    requires b >= 2
    ensures n == (n / b) * b + n % b && 0 <= n % b < b
  {
  }

  lemma {:induction false} DigitsValue(n: nat, b: nat)
    requires b >= 2
    ensures Value(Digits(n, b), b) == n
    decreases n
  {
    if n < b {
      assert Digits(n, b)[..0] == [];
    } else {
      QuotientShrinks(n, b);
      DigitsValue(n / b, b);
      ValueAppend(Digits(n / b, b), b, n % b);
      QuotientRemainder(n, b);
    }
  }

  lemma {:induction false} DigitsShape(n: nat, b: nat)
    requires b >= 2
    ensures AreDigits(Digits(n, b), b)
    ensures Digits(n, b)[0] != 0 || (n == 0 && |Digits(n, b)| == 1)
    decreases n
  {
    if n >= b {
      QuotientShrinks(n, b);
      QuotientRemainder(n, b);
      DigitsShape(n / b, b);
    }
  }

  /** Reading the shortest numeral gives the number back. */
  lemma ValueOfDigits(n: nat, b: nat)
    requires b >= 2
    ensures Value(Digits(n, b), b) == n
    ensures AreDigits(Digits(n, b), b)
    ensures |Digits(n, b)| == 1 || Digits(n, b)[0] != 0
  {
    DigitsValue(n, b);
    DigitsShape(n, b);
  }

  lemma {:induction false} ValuePositive(ds: seq<nat>, b: nat)
    requires b >= 2 && ds != [] && ds[0] != 0
    ensures Value(ds, b) >= 1
  {
    if |ds| == 1 {
      assert ds[..0] == [];
    } else {
      ValuePositive(ds[..|ds| - 1], b);
      MulMono(1, Value(ds[..|ds| - 1], b), b);
    }
  }

  /** A numeral with no leading zero is the shortest one of its value. */
  lemma {:induction false} DigitsOfValue(ds: seq<nat>, b: nat)
    requires b >= 2 && ds != [] && AreDigits(ds, b)
    requires |ds| == 1 || ds[0] != 0
    ensures Digits(Value(ds, b), b) == ds
  {
    var init, last := ds[..|ds| - 1], ds[|ds| - 1];
    assert ds == init + [last];
    if |ds| == 1 {
      assert init == [];
    } else {
      DigitsOfValue(init, b);
      ValuePositive(init, b);
      MulMono(1, Value(init, b), b);
      DivModUnique(Value(init, b), b, last);
    }
  }

  lemma PowPositive(b: nat, e: nat)
    requires b >= 1
    ensures Pow(b, e) >= 1
  {
  }

  lemma MulAdd(x: nat, b: nat, d: nat, bound: nat)
    requires x < bound && d < b
    ensures x * b + d < b * bound
  {
    MulMono(x + 1, bound, b);
    assert (x + 1) * b == x * b + b;
  }

  /** A numeral of k digits names a number below b^k. */
  lemma {:induction false} ValueBelow(ds: seq<nat>, b: nat)
    requires b >= 2 && AreDigits(ds, b)
    ensures Value(ds, b) < Pow(b, |ds|)
  {
    if ds != [] {
      var init, last := ds[..|ds| - 1], ds[|ds| - 1];
      ValueBelow(init, b);
      MulAdd(Value(init, b), b, last, Pow(b, |init|));
    }
  }

  /** A nonzero first digit bounds the number from below. */
  lemma {:induction false} ValueAtLeast(ds: seq<nat>, b: nat)
    requires b >= 2 && ds != [] && ds[0] != 0
    ensures Value(ds, b) >= Pow(b, |ds| - 1)
  {
    var init := ds[..|ds| - 1];
    if init != [] {
      ValueAtLeast(init, b);
      MulMono(Pow(b, |init| - 1), Value(init, b), b);
    }
  }

  lemma ValueBound(ds: seq<nat>, b: nat)
    requires b >= 2 && AreDigits(ds, b)
    ensures Value(ds, b) < Pow(b, |ds|)
    ensures ds != [] && ds[0] != 0 ==> Value(ds, b) >= Pow(b, |ds| - 1)
  {
    ValueBelow(ds, b);
    if ds != [] && ds[0] != 0 { ValueAtLeast(ds, b); }
  }

  lemma {:induction false} PowMono(b: nat, i: nat, j: nat)
    requires b >= 1 && i <= j
    ensures Pow(b, i) <= Pow(b, j)
    decreases j
  {
    if i < j {
      PowMono(b, i, j - 1);
      PowPositive(b, j - 1);
      MulMono(1, b, Pow(b, j - 1));
    }
  }

  /** The shortest numeral of n has exactly k digits when b^(k-1) <= n < b^k. */
  lemma {:induction false} DigitsLength(n: nat, b: nat, k: nat)
    requires b >= 2 && k >= 1 && n < Pow(b, k)
    ensures |Digits(n, b)| <= k
    ensures k > 1 && Pow(b, k - 1) <= n ==> |Digits(n, b)| == k
  {
    var ds := Digits(n, b);
    ValueOfDigits(n, b);
    ValueBound(ds, b);
    if |ds| > k {
      PowMono(b, k, |ds| - 1);
    }
    if |ds| < k {
      PowMono(b, |ds|, k - 1);
    }
  }

  lemma {:induction false} FixedOfValue(ds: seq<nat>, b: nat)
    requires b >= 2 && AreDigits(ds, b)
    ensures Fixed(Value(ds, b), b, |ds|) == ds
  {
    if ds != [] {
      var init, last := ds[..|ds| - 1], ds[|ds| - 1];
      FixedOfValue(init, b);
      DivModUnique(Value(init, b), b, last);
      assert ds == init + [last];
    }
  }

  lemma QuotientBelow(n: nat, b: nat, k: nat)
    requires b >= 2 && n < b * k
    ensures n / b < k
  {
    QuotientRemainder(n, b);
    if n / b >= k {
      MulMono(k, n / b, b);
    }
  }

  lemma FixedStep(n: nat, b: nat, w: nat)
    requires b >= 2 && w > 0
    ensures Fixed(n, b, w) == Fixed(n / b, b, w - 1) + [n % b]
  {
  }

  lemma PowQuotient(n: nat, b: nat, w: nat)
    requires b >= 2 && w > 0 && n < Pow(b, w)
    ensures n / b < Pow(b, w - 1)
  {
    QuotientBelow(n, b, Pow(b, w - 1));
  }

  lemma AreDigitsAppend(ds: seq<nat>, b: nat, d: nat)
    requires AreDigits(ds, b) && d < b
    ensures AreDigits(ds + [d], b)
  {
  }

  /** Appending the remainder to a numeral of the quotient. */
  lemma ValueOfQuotient(ds: seq<nat>, n: nat, b: nat)
    requires b >= 2 && Value(ds, b) == n / b && AreDigits(ds, b)
    ensures Value(ds + [n % b], b) == n && AreDigits(ds + [n % b], b)
  {
    hide Value;
    QuotientRemainder(n, b);
    ValueAppend(ds, b, n % b);
    AreDigitsAppend(ds, b, n % b);
  }

  lemma {:induction false} ValueOfFixed(n: nat, b: nat, w: nat)
    requires b >= 2 && n < Pow(b, w)
    ensures Value(Fixed(n, b, w), b) == n
    ensures AreDigits(Fixed(n, b, w), b)
    decreases w
  {
    if w > 0 {
      FixedStep(n, b, w);
      PowQuotient(n, b, w);
      hide Fixed, Pow, Value, AreDigits;
      ValueOfFixed(n / b, b, w - 1);
      ValueOfQuotient(Fixed(n / b, b, w - 1), n, b);
    }
  }
}
