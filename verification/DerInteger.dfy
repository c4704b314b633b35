/**
 INTEGER contents: intToDer writes the one shortest two's-complement form of an integer,
 and the reader accepts that form only.
 */
module DerInteger {
  import opened Wrappers
  import opened Octets
  import opened Radix
  import opened BigEndian
  import DerEncoder

  datatype IntegerError = Empty | TooLarge | NonMinimalPositive | NonMinimalNegative

  /** Two's complement, most significant octet first. */
  function Signed(c: bytes): int
    requires c != []
  {
    if c[0] >= 128 then Value(c, 256) - Pow(256, |c|) else Value(c, 256)
  }

  /** No first octet that only repeats the sign of the second (section 8.3.2 of X.690). */
  predicate Minimal(c: bytes) {
    c != [] && (|c| > 1 ==> !(c[0] == 0 && c[1] < 128) && !(c[0] == 255 && c[1] >= 128))
  }

  /** _readIntegerLikeContent on a primitive content; maxBytes is DER_MAX_INTEGER_BYTES. */
  function ReadInteger(c: bytes, maxBytes: nat): Result<int, IntegerError> {
    if |c| == 0 then Err(Empty)
    else if |c| > maxBytes + 1 then Err(TooLarge)
    else if |c| > 1 && c[0] == 0 && c[1] < 128 then Err(NonMinimalPositive)
    else if |c| > 1 && c[0] == 255 && c[1] >= 128 then Err(NonMinimalNegative)
    else
      var mag := Value(c, 256);
      Ok(if c[0] >= 128 then mag - Pow(256, |c|) else mag)
  }

  /** 2^(8n-1): the magnitude of the least integer n octets hold. */
  function Half(n: nat): (h: int)
    requires n >= 1
    ensures h >= 128
  {
    PowPositive(256, n - 1);
    128 * Pow(256, n - 1)
  }

  lemma HalfGrows(n: nat)
    requires n >= 1
    ensures Half(n + 1) == 256 * Half(n)
  {
  }

  /** The first length from n on that holds a negative integer. */
  function NegativeLength(v: int, n: nat): (r: nat)
    requires n >= 1
    ensures r >= n
    decreases -v - Half(n)
  {
    HalfGrows(n);
    if v < -Half(n) then NegativeLength(v, n + 1) else n
  }

  lemma {:induction false} NegativeLengthLeast(v: int, n: nat)
    requires n >= 1
    ensures v >= -Half(NegativeLength(v, n))
    ensures forall k :: n <= k < NegativeLength(v, n) ==> v < -Half(k)
    decreases -v - Half(n)
  {
    HalfGrows(n);
    if v < -Half(n) { NegativeLengthLeast(v, n + 1); }
  }

  /** The content octets intToDer writes. */
  function IntegerBytes(v: int): (r: bytes)
    ensures r != []
  {
    if v == 0 then [0]
    else if v > 0 then
      ValueOfDigits(v, 256);
      var ds: bytes := Digits(v, 256);
      if ds[0] >= 128 then [0] + ds else ds
    else
      var n := NegativeLength(v, 1);
      NegativeLengthLeast(v, 1);
      PowPositive(256, n - 1);
      ValueOfFixed(Pow(256, n) + v, 256, n);
      Fixed(Pow(256, n) + v, 256, n)
  }

  // ---------------------------------------------------------------- leading octets

  lemma {:induction false} ValueCons(d: nat, rest: seq<nat>, b: nat)
    ensures Value([d] + rest, b) == d * Pow(b, |rest|) + Value(rest, b)
    decreases |rest|
  {
    if rest == [] {
      assert [d] + rest == [] + [d];
      ValueAppend([], b, d);
    } else {
      var init, last := rest[..|rest| - 1], rest[|rest| - 1];
      ValueCons(d, init, b);
      assert [d] + rest == [d] + init + [last] && rest == init + [last];
      ValueAppend([d] + init, b, last);
      ValueAppend(init, b, last);
      Distribute(d, Pow(b, |init|), Value(init, b), b);
    }
  }

  lemma Distribute(d: nat, p: nat, v: nat, b: nat)
    ensures (d * p + v) * b == d * (b * p) + v * b
  {
  }

  /** The first octet decides the value up to a block of 256^(n-1). */
  lemma LeadingOctet(c: bytes)
    requires c != []
    ensures c[0] * Pow(256, |c| - 1) <= Value(c, 256) < c[0] * Pow(256, |c| - 1) + Pow(256, |c| - 1)
    ensures |c| > 1 ==> Value(c, 256) == c[0] * Pow(256, |c| - 1) + Value(c[1..], 256)
  {
    assert c == [c[0]] + c[1..];
    ValueCons(c[0], c[1..], 256);
    ValueBelow(c[1..], 256);
  }

  /** The range of a content of n octets, by sign. */
  lemma SignedRange(c: bytes)
    requires c != []
    ensures c[0] >= 128 ==> -Half(|c|) <= Signed(c) < 0
    ensures c[0] < 128 ==> 0 <= Signed(c) < Half(|c|)
  {
    LeadingOctet(c);
    var p := Pow(256, |c| - 1);
    assert Pow(256, |c|) == 256 * p;
    if c[0] >= 128 {
      MulMono(128, c[0], p);
      MulMono(c[0], 255, p);
    } else {
      MulMono(c[0], 127, p);
    }
  }

  /** A minimal content is not in the range of a shorter one. */
  lemma MinimalIsLong(c: bytes)
    requires Minimal(c) && |c| > 1
    ensures c[0] >= 128 ==> Signed(c) < -Half(|c| - 1)
    ensures c[0] < 128 ==> Signed(c) >= Half(|c| - 1)
  {
    LeadingOctet(c);
    LeadingOctet(c[1..]);
    var p, q := Pow(256, |c| - 1), Pow(256, |c| - 2);
    assert p == 256 * q && Pow(256, |c|) == 256 * p && c[1..][0] == c[1];
    PowPositive(256, |c| - 2);
    if c[0] >= 128 {
      if c[0] == 255 {
        MulMono(c[1], 127, q);
      } else {
        MulMono(c[0], 254, p);
      }
    } else {
      if c[0] == 0 {
        MulMono(128, c[1], q);
      } else {
        MulMono(1, c[0], p);
      }
    }
  }

  // ---------------------------------------------------------------- the round trips

  /** Of a positive integer: its digits, behind a zero octet when their top bit is set. */
  lemma PositiveBytes(v: int)
    requires v > 0
    ensures var ds := Digits(v, 256);
      IntegerBytes(v) == if ds[0] >= 128 then [0] + ds else ds
  {
    hide Digits, NegativeLength, Fixed, Value;
  }

  /** A content that starts with the digits themselves. */
  lemma PlainRoundTrip(c: bytes)
    requires c != [] && 0 < c[0] < 128
    ensures Signed(c) > 0 && IntegerBytes(Signed(c)) == c
  {
    hide Digits, Value, IntegerBytes;
    ValuePositive(c, 256);
    DigitsOfValue(c, 256);
    PositiveBytes(Value(c, 256));
  }

  /** A content whose digits have their top bit set, behind a zero octet. */
  lemma PaddedRoundTrip(c: bytes)
    requires |c| > 1 && c[0] == 0 && c[1] >= 128
    ensures Signed(c) > 0 && IntegerBytes(Signed(c)) == c
  {
    hide Digits, Value, IntegerBytes, Pow;
    var ds := c[1..];
    assert c == [0] + ds;
    ValueCons(0, ds, 256);
    ValuePositive(ds, 256);
    DigitsOfValue(ds, 256);
    PositiveBytes(Value(ds, 256));
  }

  lemma PositiveRoundTrip(c: bytes)
    requires Minimal(c) && c[0] < 128 && c != [0]
    ensures Signed(c) > 0 && IntegerBytes(Signed(c)) == c
  {
    hide IntegerBytes, Value, Pow;
    if c[0] == 0 {
      assert |c| == 1 ==> c == [0];
      PaddedRoundTrip(c);
    } else {
      PlainRoundTrip(c);
    }
  }

  lemma HalfMono(i: nat, j: nat)
    requires 1 <= i <= j
    ensures Half(i) <= Half(j)
  {
    PowMono(256, i - 1, j - 1);
  }

  lemma NegativeRoundTrip(c: bytes)
    requires Minimal(c) && c[0] >= 128
    ensures Signed(c) < 0 && IntegerBytes(Signed(c)) == c
  {
    hide Fixed, Half, Value, Pow;
    var v, n := Signed(c), NegativeLength(Signed(c), 1);
    SignedRange(c);
    NegativeLengthLeast(v, 1);
    if n < |c| {
      MinimalIsLong(c);
      HalfMono(n, |c| - 1);
    }
    FixedOfValue(c, 256);
  }

  /** Minimal contents are determined by their value. */
  lemma BytesOfSigned(c: bytes)
    requires Minimal(c)
    ensures IntegerBytes(Signed(c)) == c
  {
    hide IntegerBytes;
    if c == [0] {
      ZeroBytes();
    } else if c[0] < 128 {
      PositiveRoundTrip(c);
    } else {
      NegativeRoundTrip(c);
    }
  }

  lemma ZeroBytes()
    ensures Signed([0]) == 0 && IntegerBytes(0) == [0]
  {
    assert Value([0], 256) == Value([], 256) * 256 + 0;
  }

  /** intToDer writes a minimal content of the integer it is given. */
  lemma SignedOfBytes(v: int)
    ensures Minimal(IntegerBytes(v)) && Signed(IntegerBytes(v)) == v
  {
    if v == 0 {
      ZeroBytes();
    } else if v > 0 {
      ValueOfDigits(v, 256);
      DigitsShape(v, 256);
      var ds: bytes := Digits(v, 256);
      hide Value, Digits;
      ValueCons(0, ds, 256);
    } else {
      NegativeBytes(v);
    }
  }

  lemma NegativeBytes(v: int)
    requires v < 0
    ensures Minimal(IntegerBytes(v)) && Signed(IntegerBytes(v)) == v
  {
    hide Fixed, Value, NegativeLength;
    var n := NegativeLength(v, 1);
    NegativeLengthLeast(v, 1);
    assert n > 1 ==> v < -Half(n - 1);
    var p := Pow(256, n - 1);
    PowPositive(256, n - 1);
    assert Pow(256, n) == 256 * p;
    ValueOfFixed(256 * p + v, 256, n);
    var c: bytes := Fixed(256 * p + v, 256, n);
    LeadingOctet(c);
    if c[0] <= 127 { MulMono(c[0], 127, p); }
    if n > 1 && c[0] == 255 && c[1] >= 128 {
      LeadingOctet(c[1..]);
      var q := Pow(256, n - 2);
      assert p == 256 * q;
      MulMono(128, c[1], q);
    }
  }

  /** The reader accepts exactly the octets intToDer writes, up to the cap, and returns their integer. */
  lemma ReadsExactly(c: bytes, v: int, maxBytes: nat)
    ensures ReadInteger(c, maxBytes) == Ok(v) <==> c == IntegerBytes(v) && |c| <= maxBytes + 1
  {
    hide IntegerBytes, Value;
    SignedOfBytes(v);
    if Minimal(c) { BytesOfSigned(c); }
  }

  /** No content of the same integer is shorter than what intToDer writes. */
  lemma WritesShortest(c: bytes, v: int)
    requires c != [] && Signed(c) == v
    ensures |IntegerBytes(v)| <= |c|
  {
    hide IntegerBytes, Value, Half;
    var w := IntegerBytes(v);
    SignedOfBytes(v);
    SignedRange(c);
    SignedRange(w);
    if |w| > |c| {
      MinimalIsLong(w);
      HalfMono(|c|, |w| - 1);
    }
  }

  // ---------------------------------------------------------------- the encoder

  /** intToDer: one octet for zero, else by sign. */
  method IntToDer(v: int) returns (r: bytes)
    ensures r == IntegerBytes(v)
  {
    hide Digits, Fixed, NegativeLength, Value, Pow;
    if v == 0 { return [0]; }
    if v > 0 { r := PositiveToDer(v); } else { r := NegativeToDer(v); }
  }

  /** The least length whose range holds v, then v modulo 2^(8*len) written from the end. */
  method NegativeToDer(v: int) returns (r: bytes)
    requires v < 0
    ensures r == IntegerBytes(v)
  {
    hide Digits, Fixed, NegativeLength, Value, Pow, Half;
    var len: nat, bound: int := 1, 128;
    HalfOne();
    while v < -bound
      invariant len >= 1 && bound == Half(len)
      invariant NegativeLength(v, 1) == NegativeLength(v, len)
      decreases -v - bound
    {
      NegativeLengthStep(v, len);
      HalfGrows(len);
      HalfNext(len);
      len := len + 1;
      bound := bound * 256;
    }
    NegativeLengthStep(v, len);
    HalfIsHalf(len);
    var tc: nat := 2 * bound + v;
    NegativeLengthLeast(v, 1);
    var out := new byte[len](_ => 0);
    WriteBigEndian(out, 0, tc);
    assert out[0..] == out[..];
    r := out[..];
  }

  lemma HalfNext(n: nat)
    requires n >= 1
    ensures Half(n + 1) == Half(n) * 256
  {
  }

  lemma HalfOne()
    ensures Half(1) == 128
  {
  }

  lemma HalfIsHalf(n: nat)
    requires n >= 1
    ensures 2 * Half(n) == Pow(256, n)
  {
  }

  lemma NegativeLengthStep(v: int, n: nat)
    requires n >= 1
    ensures NegativeLength(v, n) == if v < -Half(n) then NegativeLength(v, n + 1) else n
  {
  }

  method PositiveToDer(v: int) returns (r: bytes)
    requires v > 0
    ensures r == IntegerBytes(v)
  {
    hide Digits, Fixed, NegativeLength, Value, Pow;
    var n := 0;
    var t: nat := v;
    var top: nat := 0;
    ghost var ds := Digits(v, 256);
    ValueOfDigits(v, 256);
    assert ds[..|ds|] == ds;
    while t > 0
      invariant n <= |ds| && (t > 0 <==> n < |ds|)
      invariant t > 0 ==> Digits(t, 256) == ds[..|ds| - n]
      invariant t == 0 ==> top == ds[0]
    {
      if t >= 256 { DerEncoder.DigitsStep(t, 256); } else { DerEncoder.ShortDigits(t, 256); }
      assert ds[..|ds| - n][..|ds| - n - 1] == ds[..|ds| - n - 1];
      top := t % 256;
      t := t / 256;
      n := n + 1;
    }
    var pad := if top >= 0x80 then 1 else 0;
    var out := new byte[n + pad](_ => 0);
    var tp: nat := v;
    var i := n + pad;
    assert ds[..n] == ds;
    while i > pad
      invariant pad <= i <= n + pad
      invariant i > pad ==> Digits(tp, 256) == ds[..i - pad]
      invariant forall k :: 0 <= k < pad ==> out[k] == 0
      invariant forall k :: i <= k < n + pad ==> out[k] == ds[k - pad]
    {
      if tp >= 256 { DerEncoder.DigitsStep(tp, 256); } else { DerEncoder.ShortDigits(tp, 256); }
      assert ds[..i - pad][i - pad - 1] == tp % 256;
      assert ds[..i - pad][..i - pad - 1] == ds[..i - pad - 1];
      out[i - 1] := tp % 256;
      tp := tp / 256;
      i := i - 1;
    }
    assert out[pad..] == ds && out[..pad] == (if pad == 1 then [0] else []);
    assert out[..] == out[..pad] + out[pad..];
    r := out[..];
  }
}
