/**
 BIT STRING contents and named-bit lists. Bits are numbered from the most significant bit
 of the first octet. build.namedBitString sets the bits named and no other, in the one
 content without trailing zero bits (section 11.2.2 of X.690).
 */
module DerBitString {
  import opened Wrappers

  datatype BitError = BadBitString

  datatype Bits = Bits(unused: nat, body: seq<bv8>)

  /** The octet with bit k of eight set, counted from the most significant. */
  function Mask(k: nat): bv8
    requires k < 8
  {
    if k == 0 then 0x80 else if k == 1 then 0x40 else if k == 2 then 0x20 else if k == 3 then 0x10
    else if k == 4 then 0x08 else if k == 5 then 0x04 else if k == 6 then 0x02 else 0x01
  }

  /** The low u bits of an octet. */
  function LowBits(u: nat): bv8
    requires u < 8
  {
    if u == 0 then 0 else if u == 1 then 0x01 else if u == 2 then 0x03 else if u == 3 then 0x07
    else if u == 4 then 0x0F else if u == 5 then 0x1F else if u == 6 then 0x3F else 0x7F
  }

  predicate Has(b: bv8, k: nat)
    requires k < 8
  {
    b & Mask(k) != 0
  }

  predicate BitSet(body: seq<bv8>, i: nat) {
    i < 8 * |body| && Has(body[i / 8], i % 8)
  }

  lemma SetOne(b: bv8, k: nat, j: nat)
    requires k < 8 && j < 8
    ensures Has(b | Mask(k), j) <==> j == k || Has(b, j)
  {
  }

  lemma SameBits(a: bv8, b: bv8)
    requires forall k :: 0 <= k < 8 ==> Has(a, k) == Has(b, k)
    ensures a == b
  {
    assert Has(a, 0) == Has(b, 0) && Has(a, 1) == Has(b, 1) && Has(a, 2) == Has(b, 2) && Has(a, 3) == Has(b, 3);
    assert Has(a, 4) == Has(b, 4) && Has(a, 5) == Has(b, 5) && Has(a, 6) == Has(b, 6) && Has(a, 7) == Has(b, 7);
  }

  /** One more low bit. */
  lemma LowBitsStep(b: bv8, u: nat)
    requires 0 < u < 8
    ensures b & LowBits(u) == 0 <==> b & LowBits(u - 1) == 0 && !Has(b, 8 - u)
  {
  }

  lemma {:induction false} LowBitsClear(b: bv8, u: nat)
    requires u < 8
    ensures b & LowBits(u) == 0 <==> forall k :: 8 - u <= k < 8 ==> !Has(b, k)
  {
    if u == 0 {
      assert b & LowBits(0) == 0;
    } else {
      LowBitsStep(b, u);
      hide LowBits, Has;
      LowBitsClear(b, u - 1);
    }
  }

  /** The bits past the used ones are zero, and an empty body has none unused. */
  predicate UnusedClear(x: Bits) {
    && x.unused <= 7 && (x.body == [] ==> x.unused == 0)
    && (x.body != [] ==> x.body[|x.body| - 1] & LowBits(x.unused) == 0)
  }

  /** Content octets: the count of unused bits, then the bits. */
  function ReadContent(c: seq<bv8>): Result<Bits, BitError> {
    if c == [] then Err(BadBitString)
    else
      var unused := c[0] as nat;
      if unused > 7 then Err(BadBitString)
      else if unused > 0 && |c| == 1 then Err(BadBitString)
      else if unused > 0 && c[|c| - 1] & LowBits(unused) != 0 then Err(BadBitString)
      else Ok(Bits(unused, c[1..]))
  }

  /** build.bitString: refused when a bit past the used ones is set. */
  function WriteContent(x: Bits): Result<seq<bv8>, BitError> {
    if x.unused > 7 then Err(BadBitString)
    else if x.unused > 0 && x.body == [] then Err(BadBitString)
    else if x.unused > 0 && x.body[|x.body| - 1] & LowBits(x.unused) != 0 then Err(BadBitString)
    else Ok([x.unused as bv8] + x.body)
  }

  /** Reading and writing BIT STRING contents are inverse, on exactly the strings whose unused bits are zero. */
  lemma BitStringExactly(c: seq<bv8>, x: Bits)
    ensures ReadContent(c) == Ok(x) <==> WriteContent(x) == Ok(c)
    ensures WriteContent(x).Ok? <==> UnusedClear(x)
  {
    if WriteContent(x) == Ok(c) { assert c[1..] == x.body; }
    if ReadContent(c) == Ok(x) {
      assert c == [c[0]] + c[1..];
      if x.body != [] { assert x.body[|x.body| - 1] == c[|c| - 1]; }
    }
    if x.unused <= 7 && x.body != [] {
      if x.unused > 0 { assert ([x.unused as bv8] + x.body)[|x.body|] == x.body[|x.body| - 1]; }
    }
  }

  /** A named-bit list: the bits used end in a bit that is set. */
  predicate Minimal(x: Bits) {
    UnusedClear(x) && (x.body != [] ==> BitSet(x.body, 8 * |x.body| - 1 - x.unused))
  }

  /** A non-negative integer of 31 bits. */
  predicate Position(p: int) {
    0 <= p < 0x8000_0000
  }

  ghost predicate NamesBits(x: Bits, positions: seq<int>) {
    forall i: nat :: BitSet(x.body, i) <==> i in positions
  }

  /** build.namedBitString: the highest position sizes the buffer, then each position sets its bit. */
  method NamedBitString(positions: seq<int>) returns (r: Result<seq<bv8>, BitError>)
    ensures r.Ok? <==> forall i :: 0 <= i < |positions| ==> Position(positions[i])
    ensures r.Ok? ==>
              && ReadContent(r.value).Ok? && Minimal(ReadContent(r.value).value)
              && NamesBits(ReadContent(r.value).value, positions)
  {
    var hi := -1;
    for i := 0 to |positions|
      invariant -1 <= hi < 0x8000_0000 && (hi >= 0 ==> hi in positions[..i])
      invariant forall j :: 0 <= j < i ==> Position(positions[j]) && positions[j] <= hi
    {
      var p := positions[i];
      if p < 0 || p >= 0x8000_0000 { return Err(BadBitString); }
      if p > hi { hi := p; }
    }
    if hi < 0 {
      BitStringExactly([0], Bits(0, []));
      return Ok([0]);
    }
    var buf := new bv8[hi / 8 + 1](_ => 0);
    NoneSet(buf[..]);
    for i := 0 to |positions|
      invariant forall b: nat :: BitSet(buf[..], b) <==> b in positions[..i]
    {
      var p := positions[i];
      ghost var before := buf[..];
      buf[p / 8] := buf[p / 8] | Mask(p % 8);
      assert buf[..] == before[p / 8 := before[p / 8] | Mask(p % 8)];
      SetBit(before, p);
      assert positions[..i + 1] == positions[..i] + [p];
    }
    assert positions[..|positions|] == positions;
    var body := buf[..];
    LastOctetClear(body, positions, hi);
    var x := Bits(7 - hi % 8, body);
    BitStringExactly([x.unused as bv8] + body, x);
    r := Ok([x.unused as bv8] + body);
  }

  lemma NoneSet(body: seq<bv8>)
    requires forall k :: 0 <= k < |body| ==> body[k] == 0
    ensures forall i: nat :: !BitSet(body, i)
  {
    forall i: nat | i < 8 * |body| ensures !Has(body[i / 8], i % 8) {
      assert body[i / 8] == 0;
      ZeroHas(i % 8);
    }
  }

  lemma ZeroHas(k: nat)
    requires k < 8
    ensures !Has(0, k)
  {
  }

  lemma SetBit(body: seq<bv8>, p: nat)
    requires p < 8 * |body|
    ensures var after := body[p / 8 := body[p / 8] | Mask(p % 8)];
      forall i: nat :: BitSet(after, i) <==> i == p || BitSet(body, i)
  {
    var after := body[p / 8 := body[p / 8] | Mask(p % 8)];
    forall i: nat ensures BitSet(after, i) <==> i == p || BitSet(body, i) {
      if i < 8 * |body| {
        SetOne(body[p / 8], p % 8, i % 8);
        assert i == p <==> i / 8 == p / 8 && i % 8 == p % 8;
      }
    }
  }

  lemma LastOctetClear(body: seq<bv8>, positions: seq<int>, hi: nat)
    requires |body| == hi / 8 + 1 && hi in positions
    requires forall j :: 0 <= j < |positions| ==> positions[j] <= hi
    requires forall b: nat :: BitSet(body, b) <==> b in positions
    ensures Minimal(Bits(7 - hi % 8, body))
  {
    var u, last := 7 - hi % 8, body[|body| - 1];
    forall k | 8 - u <= k < 8 ensures !Has(last, k) {
      var b := 8 * (|body| - 1) + k;
      assert b / 8 == |body| - 1 && b % 8 == k;
      assert BitSet(body, b) <==> b in positions;
      assert b > hi;
    }
    LowBitsClear(last, u);
    assert 8 * |body| - 1 - u == hi;
    assert BitSet(body, hi);
  }

  /** There is one minimal list of named bits: content octets are equal exactly when they name the same bits. */
  lemma NamedBitsUnique(x: Bits, y: Bits)
    requires Minimal(x) && Minimal(y)
    ensures x == y <==> forall i: nat :: BitSet(x.body, i) == BitSet(y.body, i)
  {
    if forall i: nat :: BitSet(x.body, i) == BitSet(y.body, i) {
      SameLength(x, y);
      forall n | 0 <= n < |x.body| ensures x.body[n] == y.body[n] {
        forall k | 0 <= k < 8 ensures Has(x.body[n], k) == Has(y.body[n], k) {
          var i := 8 * n + k;
          assert i / 8 == n && i % 8 == k;
          assert BitSet(x.body, i) == BitSet(y.body, i);
        }
        SameBits(x.body[n], y.body[n]);
      }
    }
  }

  /** The number of the last bit used, -1 when there is none. */
  function Last(x: Bits): int {
    8 * |x.body| - 1 - x.unused
  }

  /** Past the last bit used there is nothing. */
  lemma NothingPast(x: Bits, i: nat)
    requires Minimal(x) && i > Last(x)
    ensures !BitSet(x.body, i)
  {
    if i < 8 * |x.body| {
      LowBitsClear(x.body[|x.body| - 1], x.unused);
      assert i / 8 == |x.body| - 1 && i % 8 >= 8 - x.unused;
    }
  }

  lemma NotShorter(x: Bits, y: Bits)
    requires Minimal(x) && Minimal(y) && forall i: nat :: BitSet(x.body, i) == BitSet(y.body, i)
    ensures Last(x) <= Last(y)
  {
    hide BitSet, Has, LowBits;
    if x.body != [] && Last(x) > Last(y) {
      assert BitSet(x.body, Last(x));
      NothingPast(y, Last(x));
    }
  }

  lemma SameLength(x: Bits, y: Bits)
    requires Minimal(x) && Minimal(y) && forall i: nat :: BitSet(x.body, i) == BitSet(y.body, i)
    ensures |x.body| == |y.body| && x.unused == y.unused
  {
    hide BitSet, LowBits;
    NotShorter(x, y);
    NotShorter(y, x);
  }
}
