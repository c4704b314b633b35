/**
 Typed readers of cbor-det.js over decoded nodes: integers and bignums. Each number has one
 accepted item, so reading is the inverse of encoding.
 */
module CborRead {
  import opened Wrappers
  import opened Octets
  import opened Radix
  import opened CborSyntax
  import opened CborDecoder
  import opened CborParse
  import opened CborBuild
  import opened CborBuildTheorems

  datatype ReadError = UnexpectedMajor | UnexpectedTag | BadTagContent | BiguintTooBig | NonMinimalBiguint

  // ---------------------------------------------------------------- numbers

  function ReadUint(n: Node): Result<nat, ReadError> {
    if n.mt != 0 then Err(UnexpectedMajor) else Ok(n.arg)
  }

  function ReadInt(n: Node): Result<int, ReadError> {
    if n.mt == 0 then Ok(n.arg) else if n.mt == 1 then Ok(-1 - n.arg) else Err(UnexpectedMajor)
  }

  /** A decoded tag has its inner item as its one child. */
  predicate TagHasInner(n: Node) {
    n.mt == 6 ==> |n.children| == 1
  }

  /** Tag 2 around a byte string of more than eight octets, none leading and zero, within the cap. */
  function ReadBiguint(n: Node, maxBiguint: nat): Result<nat, ReadError>
    requires TagHasInner(n)
  {
    if n.mt != 6 || n.arg != 2 then Err(UnexpectedTag)
    else
      var inner := n.children[0];
      if inner.mt != 2 then Err(BadTagContent)
      else if |inner.content| > maxBiguint then Err(BiguintTooBig)
      else if |inner.content| > 0 && inner.content[0] == 0 then Err(NonMinimalBiguint)
      else if |inner.content| <= 8 then Err(NonMinimalBiguint)
      else Ok(Value(inner.content, 256))
  }

  lemma DecodedTag(x: Item, at: nat)
    ensures TagHasInner(NodeOf(x, at))
  {
  }

  /** One item reads as a given integer: that integer's own encoding. */
  lemma OneIntForm(x: Item, at: nat, v: int)
    requires WellFormed(x)
    ensures ReadInt(NodeOf(x, at)) == Ok(v) <==> x == IntItem(v) && -TWO_64 <= v < TWO_64
  {
    hide Enc, HeadBytes;
  }

  /** The one item of a non-negative integer: a head argument below 2^64, a bignum from there up. */
  function NumberItem(v: nat): Item {
    ValueOfDigits(v, 256);
    if v < TWO_64 then UInt(v) else Tag(2, Bytes(Digits(v, 256)))
  }

  ghost predicate ReadsAs(x: Item, at: nat, v: nat, maxBiguint: nat) {
    DecodedTag(x, at);
    ReadUint(NodeOf(x, at)) == Ok(v) || ReadBiguint(NodeOf(x, at), maxBiguint) == Ok(v)
  }

  /** Digits of a magnitude that needs more than eight octets. */
  lemma LongMagnitude(c: bytes)
    requires |c| > 8 && c[0] != 0
    ensures Digits(Value(c, 256), 256) == c && Value(c, 256) >= TWO_64
  {
    hide Digits, Value, Pow;
    DigitsOfValue(c, 256);
    ValueAtLeast(c, 256);
    PowMono(256, 8, |c| - 1);
    Widths();
  }

  lemma LongNumber(v: nat, k: nat)
    requires v >= TWO_64
    ensures var ds := Digits(v, 256);
      |ds| > 8 && ds[0] != 0 && AreDigits(ds, 256) && Value(ds, 256) == v && (|ds| <= k <==> v < Pow(256, k))
  {
    hide Digits, Value, Pow;
    ValueOfDigits(v, 256);
    var ds := Digits(v, 256);
    Widths();
    ValueBound(ds, 256);
    if |ds| <= 8 { PowMono(256, |ds|, 8); }
    if |ds| <= k { PowMono(256, |ds|, k); }
    if |ds| > k { PowMono(256, k, |ds| - 1); }
  }

  /**
   Each non-negative integer is read from exactly one item, by read.uint below 2^64 and by read.biguint from there up
   to the cap.
   */
  lemma {:induction false} OneNumberForm(x: Item, at: nat, v: nat, maxBiguint: nat)
    requires WellFormed(x)
    ensures ReadsAs(x, at, v, maxBiguint) <==> x == NumberItem(v) && (v < TWO_64 || v < Pow(256, maxBiguint))
    ensures ReadUint(NodeOf(x, at)).Err? || (DecodedTag(x, at); ReadBiguint(NodeOf(x, at), maxBiguint).Err?)
  {
    hide Enc, Digits, Value, Pow;
    DecodedTag(x, at);
    if x.Tag? { assert NodeOf(x, at).children == [NodeOf(x.inner, BodyStart(x, at))]; }
    if x.Tag? && x.inner.Bytes? {
      var c := x.inner.content;
      if |c| > 8 && c[0] != 0 { LongMagnitude(c); }
    }
    if v >= TWO_64 { LongNumber(v, maxBiguint); }
  }

  /** build.biguint gives the one item of every integer from 2^64 up to the cap, and of no other. */
  lemma BiguintBuilt(n: int, maxBiguint: nat, limits: Limits)
    requires maxBiguint + 10 <= limits.maxBytes < TWO_64 && limits.maxDepth >= 1 && limits.maxItems >= 2
    ensures BiguintBytes(n, maxBiguint, limits).Ok? <==> TWO_64 <= n < Pow(256, maxBiguint)
    ensures TWO_64 <= n < Pow(256, maxBiguint) ==>
            && BiguintBytes(n, maxBiguint, limits) == Ok(Enc(NumberItem(n)))
            && Reads(Enc(NumberItem(n)), limits, NumberItem(n))
  {
    hide Parse, Digits, Value, Pow, HeadBytes, Capped;
    if n >= TWO_64 {
      LongNumber(n, maxBiguint);
      var magnitude: bytes := Digits(n, 256);
      if |magnitude| <= maxBiguint {
        BignumSizes(magnitude);
        ByteStringBuilt(magnitude, limits);
        TagOfItem(2, Bytes(magnitude), limits);
        assert Enc(NumberItem(n)) == Enc(Tag(2, Bytes(magnitude)));
      }
    } else if n >= 0 {
      ShortNumber(n);
    }
  }

  lemma ShortNumber(n: nat)
    requires n < TWO_64
    ensures |Digits(n, 256)| <= 8
  {
    hide Digits, Pow;
    Widths();
    DigitsLength(n, 256, 8);
  }

  lemma BignumSizes(c: bytes)
    requires |c| < TWO_64
    ensures |Enc(Bytes(c))| <= |c| + 9 && |Enc(Tag(2, Bytes(c)))| <= |c| + 10
    ensures Height(Tag(2, Bytes(c))) == 1 && Count(Tag(2, Bytes(c))) == 2 && WellFormed(Tag(2, Bytes(c)))
  {
    Widths();
  }
}
