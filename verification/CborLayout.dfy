/**
 The octets of every kind of CBOR item, written out as section 3 of RFC 8949 lays them out,
 examples from its Appendix A, and what the caps on depth and items admit.
 */
module CborLayout {
  import opened Wrappers
  import opened Octets
  import opened Radix
  import opened BigEndian
  import opened OctetOrder
  import opened CborFloat
  import opened CborSyntax
  import opened CborParse
  import opened CborBijection
  import opened CborBuildTheorems
  import opened CborRead
  import Utf8

  // ---------------------------------------------------------------- heads

  /** The argument of an additional information from 24 to 27, in one octet, two, four or eight. */
  function Argument(ai: nat, a: nat): (r: seq<int>) {
    if ai == 24 then [a]
    else if ai == 25 then [a / 0x100, a % 256]
    else if ai == 26 then [a / 0x100_0000, a / 0x1_0000 % 256, a / 0x100 % 256, a % 256]
    else [a / 0x100_0000_0000_0000, a / 0x1_0000_0000_0000 % 256, a / 0x100_0000_0000 % 256, a / 0x1_0000_0000 % 256,
          a / 0x100_0000 % 256, a / 0x1_0000 % 256, a / 0x100 % 256, a % 256]
  }

  lemma ArgumentOctets(ai: nat, a: nat)
    requires 24 <= ai <= 27 && a < Pow(256, ArgWidth(ai))
    ensures FixedBytes(a, ArgWidth(ai)) == Argument(ai, a)
  {
    Widths();
    hide Pow;
    if ai == 24 {
      FixedUnfolds(a, 1);
    } else if ai == 25 {
      FixedUnfolds(a, 2);
      FixedUnfolds(a / 256, 1);
    } else if ai == 26 {
      FourOctets(a);
    } else {
      EightOctets(a);
    }
    hide Fixed;
  }

  /** Three bits of major type, then the argument itself or its width, then the argument. */
  function Laid(major: nat, a: nat): seq<int> {
    if a < 24 then [32 * major + a]
    else if a < 0x100 then [32 * major + 24] + Argument(24, a)
    else if a < 0x1_0000 then [32 * major + 25] + Argument(25, a)
    else if a < 0x1_0000_0000 then [32 * major + 26] + Argument(26, a)
    else [32 * major + 27] + Argument(27, a)
  }

  lemma HeadOctets(mt: nat, a: nat)
    requires mt < 8 && a < 0x1_0000_0000_0000_0000
    ensures HeadBytes(mt, a) == Laid(mt, a)
  {
    Widths();
    hide Pow, Argument, FixedBytes;
    if a >= 24 { ArgumentOctets(ArgInfo(a), a); }
  }

  // ---------------------------------------------------------------- items

  /** The octets of an item: its head and what follows it. */
  function Layout(x: Item): seq<int>
    decreases x, 0
  {
    match x
    case UInt(n) => Laid(0, n)
    case NInt(n) => Laid(1, n)
    case Bytes(content) => Laid(2, |content|) + content
    case Text(content) => Laid(3, |content|) + content
    case Array(items) => Laid(4, |items|) + Layouts(items)
    case Map(pairs) => Laid(5, |pairs|) + PairLayouts(pairs)
    case Tag(num, inner) => Laid(6, num) + Layout(inner)
    case Simple(v) => if v < 24 then [0xE0 + v] else [0xF8, v]
    case Float(ai, bits) => [0xE0 + ai] + Argument(ai, bits)
  }

  function Layouts(xs: seq<Item>): seq<int>
    decreases xs, 1
  {
    if xs == [] then [] else Layout(xs[0]) + Layouts(xs[1..])
  }

  /** Each key with its value behind it. */
  function PairLayouts(ps: seq<Pair>): seq<int>
    decreases ps, 1
  {
    if ps == [] then [] else PairLayout(ps[0]) + PairLayouts(ps[1..])
  }

  function PairLayout(p: Pair): seq<int>
    decreases p, 0
  {
    Layout(p.key) + Layout(p.val)
  }

  lemma FloatFits(ai: nat, bits: nat)
    requires WellFormed(Float(ai, bits))
    ensures 25 <= ai <= 27 && bits < Pow(256, ArgWidth(ai))
  {
    hide FloatOk, IsBits, Pow;
    FloatBitsFit(ai, bits);
  }

  lemma FloatLayout(ai: nat, bits: nat)
    requires 25 <= ai <= 27 && bits < Pow(256, ArgWidth(ai))
    ensures FloatBytes(ai, bits) == [0xE0 + ai] + Argument(ai, bits)
  {
    FloatHead(ai, bits);
    ArgumentOctets(ai, bits);
    hide Pow, FixedBytes, Argument, FloatBytes;
  }

  lemma FloatHead(ai: nat, bits: nat)
    requires 25 <= ai <= 27 && bits < Pow(256, ArgWidth(ai))
    ensures FloatBytes(ai, bits) == RawHead(7, ai, bits)
  {
    Widths();
    hide Pow, RawHead;
  }

  lemma SimpleLayout(v: nat)
    requires v <= 23 || 32 <= v < 256
    ensures HeadBytes(7, v % 256) == if v < 24 then [0xE0 + v] else [0xF8, v]
  {
    HeadOctets(7, v);
    hide HeadBytes;
  }

  /** The encoder follows this layout on every item of the profile, at every level. */
  lemma {:induction false} EncodedAsLaid(x: Item)
    requires WellFormed(x)
    ensures Enc(x) == Layout(x)
    decreases x, 0
  {
    hide HeadBytes, FloatBytes, Argument, Laid, EncAll, EncPairs, Layouts, PairLayouts, AllWellFormed, PairsWellFormed;
    match x
    case UInt(n) => HeadOctets(0, n);
    case NInt(n) => HeadOctets(1, n);
    case Bytes(content) => HeadOctets(2, |content|);
    case Text(content) => HeadOctets(3, |content|);
    case Array(items) =>
      HeadOctets(4, |items|);
      AllAsLaid(items);
    case Map(pairs) =>
      HeadOctets(5, |pairs|);
      PairsAsLaid(pairs);
    case Tag(num, inner) =>
      HeadOctets(6, num);
      EncodedAsLaid(inner);
    case Simple(v) => SimpleLayout(v);
    case Float(ai, bits) =>
      FloatFits(ai, bits);
      FloatLayout(ai, bits);
  }

  lemma {:induction false} AllAsLaid(xs: seq<Item>)
    requires AllWellFormed(xs)
    ensures EncAll(xs) == Layouts(xs)
    decreases xs, 1
  {
    hide Enc, Layout, WellFormed;
    if xs != [] {
      EncodedAsLaid(xs[0]);
      AllAsLaid(xs[1..]);
    }
  }

  lemma {:induction false} PairsAsLaid(ps: seq<Pair>)
    requires PairsWellFormed(ps)
    ensures EncPairs(ps) == PairLayouts(ps)
    decreases ps, 1
  {
    hide Enc, Layout, WellFormed;
    if ps != [] {
      PairAsLaid(ps[0]);
      PairsAsLaid(ps[1..]);
    }
  }

  lemma {:induction false} PairAsLaid(p: Pair)
    requires PairWellFormed(p)
    ensures EncPair(p) == PairLayout(p)
    decreases p, 0
  {
    hide Enc, Layout, WellFormed;
    EncodedAsLaid(p.key);
    EncodedAsLaid(p.val);
  }

  // ---------------------------------------------------------------- examples

  /** Examples of Appendix A of RFC 8949: positive integers. */
  lemma IntegerExamples()
    ensures Enc(UInt(0)) == [0x00] && Enc(UInt(23)) == [0x17] && Enc(UInt(24)) == [0x18, 0x18]
    ensures Enc(UInt(1000)) == [0x19, 0x03, 0xE8]
  {
    hide HeadBytes;
    HeadOctets(0, 0);
    HeadOctets(0, 23);
    HeadOctets(0, 24);
    HeadOctets(0, 1000);
  }

  /** In four octets and in eight. */
  lemma WideExamples()
    ensures Enc(UInt(1000000)) == [0x1A, 0x00, 0x0F, 0x42, 0x40]
    ensures Enc(UInt(1000000000000)) == [0x1B, 0x00, 0x00, 0x00, 0xE8, 0xD4, 0xA5, 0x10, 0x00]
  {
    WideArguments();
    hide Argument;
    EncodedAsLaid(UInt(1000000));
    EncodedAsLaid(UInt(1000000000000));
    hide Enc;
  }

  lemma WideArguments()
    ensures Argument(26, 1000000) == [0x00, 0x0F, 0x42, 0x40]
    ensures Argument(27, 1000000000000) == [0x00, 0x00, 0x00, 0xE8, 0xD4, 0xA5, 0x10, 0x00]
  {
  }

  /** Negative integers: -1 minus the argument. */
  lemma NegativeExamples()
    ensures Enc(IntItem(-1)) == [0x20] && Enc(IntItem(-100)) == [0x38, 0x63]
    ensures Enc(IntItem(-1000)) == [0x39, 0x03, 0xE7]
  {
    hide HeadBytes;
    HeadOctets(1, 0);
    HeadOctets(1, 99);
    HeadOctets(1, 999);
  }

  /** The least bignum, 2^64: tag 2 around nine octets. */
  lemma LeastBignum()
    ensures NumberItem(0x1_0000_0000_0000_0000) == Tag(2, Bytes([1, 0, 0, 0, 0, 0, 0, 0, 0]))
    ensures Enc(NumberItem(0x1_0000_0000_0000_0000)) == [0xC2, 0x49, 1, 0, 0, 0, 0, 0, 0, 0, 0]
  {
    TwoTo64Digits();
    HeadOctets(6, 2);
    HeadOctets(2, 9);
    hide HeadBytes, Digits;
  }

  lemma TwoTo64Digits()
    ensures Digits(0x1_0000_0000_0000_0000, 256) == [1, 0, 0, 0, 0, 0, 0, 0, 0]
  {
    hide Digits;
    LastDigit(1);
    LastDigit(0x100);
    LastDigit(0x1_0000);
    LastDigit(0x100_0000);
    assert Digits(0x100_0000, 256) == [1, 0, 0, 0];
    LastDigit(0x1_0000_0000);
    LastDigit(0x100_0000_0000);
    LastDigit(0x1_0000_0000_0000);
    assert Digits(0x1_0000_0000_0000, 256) == [1, 0, 0, 0, 0, 0, 0];
    LastDigit(0x100_0000_0000_0000);
    LastDigit(0x1_0000_0000_0000_0000);
    assert Digits(0x1_0000_0000_0000_0000, 256) == [1, 0, 0, 0, 0, 0, 0, 0, 0];
  }

  lemma LastDigit(n: nat)
    ensures Digits(n, 256) == if n < 256 then [n] else Digits(n / 256, 256) + [n % 256]
  {
  }

  lemma OneOctetHeads()
    ensures forall mt: nat, a: nat :: mt < 8 && a < 24 ==> HeadBytes(mt, a) == [32 * mt + a]
  {
    forall mt: nat, a: nat | mt < 8 && a < 24 ensures HeadBytes(mt, a) == [32 * mt + a] { HeadOctets(mt, a); }
  }

  // ---------------------------------------------------------------- one octet

  /**
   The one-octet inputs: integers from -24 to 23, the empty string, text, array and map, and the simple values from 0
   to 23. No other single octet is accepted.
   */
  lemma OneOctetExactly(b: byte, limits: Limits)
    requires limits.maxBytes >= 1 && limits.maxItems >= 1
    ensures Parse([b], false, limits).Ok? <==>
            b <= 0x17 || 0x20 <= b <= 0x37 || b in {0x40, 0x60, 0x80, 0xA0} || 0xE0 <= b <= 0xF7
  {
    hide ParseHead, ParseContent;
    OneHead(b);
    if b % 32 <= 23 { OneContent(b, limits); }
  }

  lemma OneHead(b: byte)
    ensures b % 32 <= 23 ==> ParseHead([b], 0, 1) == Ok(Head(b / 32, b % 32, b % 32, 1))
    ensures b % 32 > 23 ==> ParseHead([b], 0, 1).Err?
  {
  }

  lemma OneContent(b: byte, limits: Limits)
    requires b % 32 <= 23
    ensures var r := ParseContent([b], Head(b / 32, b % 32, b % 32, 1), 1, 0, 1, limits);
      && (r.Ok? <==> b < 64 || b >= 224 || b in {0x40, 0x60, 0x80, 0xA0})
      && (r.Ok? ==> r.value.end == 1)
  {
    NothingFollows(b, limits);
    assert [b][1..1] == [] && Utf8.Decode([]) == Some([]);
    hide ParseItems, ParsePairs, ParseItem, Utf8.Decode;
  }

  /** Behind a single octet there is no item, so no list of items but the empty one. */
  lemma NothingFollows(b: byte, limits: Limits)
    ensures ParseItem([b], 1, 1, 1, 1, limits).Err?
    ensures forall n: nat :: ParseItems([b], 1, 1, n, 1, 1, limits).Ok? <==> n == 0
    ensures forall n: nat :: ParsePairs([b], 1, 1, n, None, 1, 1, limits).Ok? <==> n == 0
    ensures ParseItems([b], 1, 1, 0, 1, 1, limits) == Ok(Read([], 1, 1))
    ensures ParsePairs([b], 1, 1, 0, None, 1, 1, limits) == Ok(Read([], 1, 1))
  {
    assert ParseHead([b], 1, 1).Err?;
    hide ParseHead, ParseContent;
  }

  /** Of the simple values written in two octets those from 32 on are accepted. */
  lemma TwoOctetSimple(v: byte, limits: Limits)
    requires limits.maxBytes >= 2 && limits.maxItems >= 1
    ensures Parse([0xF8, v], false, limits).Ok? <==> v >= 32
  {
    SingleOctetNumber(v);
  }

  lemma SingleOctetNumber(v: byte)
    ensures NumberAt([0xF8, v], 1, 1) == v
  {
    assert [0xF8, v][1..2] == [v] && [v][..0] == [];
  }

  // ---------------------------------------------------------------- nesting

  /** So many arrays of one item, or tags, each in the one before, around null. */
  function Nested(tagged: bool, d: nat): Item {
    if d == 0 then Simple(22) else if tagged then Tag(1, Nested(tagged, d - 1)) else Array([Nested(tagged, d - 1)])
  }

  lemma OneItem(x: Item)
    ensures EncAll([x]) == Enc(x) && CountAll([x]) == Count(x) && HeightAll([x]) == 1 + Height(x)
    ensures AllWellFormed([x]) <==> WellFormed(x)
  {
    assert [x] + [] == [x];
    ListOf(x, []);
    EmptyMeasures();
  }

  lemma {:induction false} NestedMeasures(tagged: bool, d: nat)
    ensures var x := Nested(tagged, d);
      WellFormed(x) && Height(x) == d && Count(x) == d + 1
  {
    if d > 0 {
      NestedMeasures(tagged, d - 1);
      OneItem(Nested(tagged, d - 1));
      hide AllWellFormed, CountAll, HeightAll;
    }
  }

  /** The octets of the nest: 81, or C1, for each level, and F6. */
  lemma {:induction false} NestedOctets(tagged: bool, d: nat)
    ensures Enc(Nested(tagged, d)) == seq(d, _ => if tagged then 0xC1 else 0x81) + [0xF6]
  {
    if d == 0 {
      OneOctetHeads();
    } else {
      var inner := Nested(tagged, d - 1);
      NestedOctets(tagged, d - 1);
      OneLevel(tagged, inner);
      hide Enc;
      var b: byte := if tagged then 0xC1 else 0x81;
      assert seq(d, _ => b) == [b] + seq(d - 1, _ => b);
    }
  }

  lemma OneLevel(tagged: bool, inner: Item)
    ensures Enc(if tagged then Tag(1, inner) else Array([inner])) == [if tagged then 0xC1 else 0x81] + Enc(inner)
  {
    OneOctetHeads();
    OneItem(inner);
    hide HeadBytes, EncAll;
  }

  /** d nested arrays, or tags, are accepted exactly when d is within the depth cap and d + 1 within the item cap. */
  lemma NestedExactly(tagged: bool, d: nat, limits: Limits)
    requires limits.maxBytes < TWO_64
    ensures var buf := seq(d, _ => if tagged then 0xC1 else 0x81) + [0xF6];
      Parse(buf, false, limits) == Ok(Read(Nested(tagged, d), d + 1, d + 1)) <==>
      d + 1 <= limits.maxBytes && d <= limits.maxDepth && d + 1 <= limits.maxItems
  {
    NestedMeasures(tagged, d);
    NestedOctets(tagged, d);
    AcceptsExactly(Enc(Nested(tagged, d)), false, limits, Nested(tagged, d));
    hide Parse, WellFormed, Enc, Count, Height, Nested;
  }
}
