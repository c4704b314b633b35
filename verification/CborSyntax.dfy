/**
 Deterministic CBOR items (section 4.2 of RFC 8949): the trees the decoder of cbor-det.js
 returns, their one encoding, and the rules an accepted item meets.
 */
module CborSyntax {
  import opened Octets
  import opened Radix
  import opened BigEndian
  import opened CborFloat
  import opened Wrappers
  import Utf8

  datatype Item =
    | UInt(n: nat)
    | NInt(n: nat)              // the integer -1 - n
    | Bytes(content: bytes)
    | Text(content: bytes)
    | Array(items: seq<Item>)
    | Map(pairs: seq<Pair>)
    | Tag(num: nat, inner: Item)
    | Simple(v: nat)
    | Float(ai: nat, bits: nat)

  datatype Pair = Pair(key: Item, val: Item)

  const TWO_64 := 0x1_0000_0000_0000_0000

  /** Octets of the argument after an initial octet with this additional information. */
  function ArgWidth(ai: nat): nat {
    if ai == 24 then 1 else if ai == 25 then 2 else if ai == 26 then 4 else 8
  }

  /** The additional information that carries an argument in the fewest octets. */
  function ArgInfo(a: nat): (ai: nat)
    ensures ai <= 27
  {
    if a <= 23 then a else if a < 256 then 24 else if a < 65536 then 25 else if a < 0x1_0000_0000 then 26 else 27
  }

  lemma Widths()
    ensures Pow(256, 1) == 256 && Pow(256, 2) == 65536 && Pow(256, 4) == 0x1_0000_0000 && Pow(256, 8) == TWO_64
  {
    assert Pow(256, 1) == 256 * Pow(256, 0);
    assert Pow(256, 2) == 256 * Pow(256, 1);
    assert Pow(256, 4) == 256 * 256 * Pow(256, 2);
    assert Pow(256, 8) == 256 * 256 * 256 * 256 * Pow(256, 4);
  }

  /** Major type and additional information in one octet, then the argument in the width that follows from it. */
  function RawHead(mt: nat, ai: nat, a: nat): (r: bytes)
    requires mt < 8 && ai <= 27 && (ai >= 24 ==> a < Pow(256, ArgWidth(ai)))
    ensures |r| == if ai <= 23 then 1 else 1 + ArgWidth(ai)
  {
    if ai <= 23 then [mt * 32 + ai] else [mt * 32 + ai] + FixedBytes(a, ArgWidth(ai))
  }

  /** The head of an item: the argument in the shortest form. */
  function HeadBytes(mt: nat, a: nat): (r: bytes)
    requires mt < 8 && a < TWO_64
    ensures |r| >= 1
  {
    Widths();
    RawHead(mt, ArgInfo(a), a)
  }

  /** An argument that always fits a head. */
  function Fit(n: nat): nat {
    n % TWO_64
  }

  /** The octets of an item. */
  function Enc(x: Item): (r: bytes)
    ensures |r| >= 1
    decreases x, 0
  {
    match x
    case UInt(n) => HeadBytes(0, Fit(n))
    case NInt(n) => HeadBytes(1, Fit(n))
    case Bytes(content) => HeadBytes(2, Fit(|content|)) + content
    case Text(content) => HeadBytes(3, Fit(|content|)) + content
    case Array(items) => HeadBytes(4, Fit(|items|)) + EncAll(items)
    case Map(pairs) => HeadBytes(5, Fit(|pairs|)) + EncPairs(pairs)
    case Tag(num, inner) => HeadBytes(6, Fit(num)) + Enc(inner)
    case Simple(v) => HeadBytes(7, v % 256)
    case Float(ai, bits) => FloatBytes(ai, bits)
  }

  function FloatBytes(ai: nat, bits: nat): (r: bytes)
    ensures |r| >= 1
  {
    Widths();
    if ai == 25 then RawHead(7, 25, bits % 65536)
    else if ai == 26 then RawHead(7, 26, bits % 0x1_0000_0000)
    else RawHead(7, 27, bits % TWO_64)
  }

  function EncAll(xs: seq<Item>): bytes
    decreases xs, 1
  {
    if xs == [] then [] else Enc(xs[0]) + EncAll(xs[1..])
  }

  function EncPairs(ps: seq<Pair>): bytes
    decreases ps, 1
  {
    if ps == [] then [] else EncPair(ps[0]) + EncPairs(ps[1..])
  }

  function EncPair(p: Pair): (r: bytes)
    ensures |r| >= 2
    decreases p, 0
  {
    Enc(p.key) + Enc(p.val)
  }

  // ---------------------------------------------------------------- rules

  /** Map keys in ascending bytewise order, each above the one before. */
  predicate KeysAscend(ps: seq<Pair>) {
    forall i :: 0 <= i < |ps| - 1 ==> Less(Enc(ps[i].key), Enc(ps[i + 1].key))
  }

  lemma FloatBitsFit(ai: nat, bits: nat)
    requires 25 <= ai <= 27
    ensures IsBits(FormatOf(ai), bits) <==> bits < Pow(256, ArgWidth(ai))
  {
    Widths();
    Pow2Values();
  }

  lemma Pow2Values()
    ensures Pow(2, 10) == 1024 && Pow(2, 23) == 0x80_0000 && Pow(2, 52) == 0x10_0000_0000_0000
  {
    assert Pow(2, 5) == 32 * Pow(2, 0);
    assert Pow(2, 10) == 32 * Pow(2, 5);
    assert Pow(2, 15) == 32 * Pow(2, 10);
    assert Pow(2, 20) == 32 * Pow(2, 15);
    assert Pow(2, 23) == 8 * Pow(2, 20);
    assert Pow(2, 27) == 16 * Pow(2, 23);
    assert Pow(2, 32) == 32 * Pow(2, 27);
    assert Pow(2, 37) == 32 * Pow(2, 32);
    assert Pow(2, 42) == 32 * Pow(2, 37);
    assert Pow(2, 47) == 32 * Pow(2, 42);
    assert Pow(2, 52) == 32 * Pow(2, 47);
  }

  /** The rules of the deterministic profile, at every level of an item. */
  predicate WellFormed(x: Item)
    decreases x, 0
  {
    match x
    case UInt(n) => n < TWO_64
    case NInt(n) => n < TWO_64
    case Bytes(content) => |content| < TWO_64
    case Text(content) => |content| < TWO_64 && Utf8.Decode(content).Some?
    case Array(items) => |items| < TWO_64 && AllWellFormed(items)
    case Map(pairs) => |pairs| < TWO_64 && PairsWellFormed(pairs) && KeysAscend(pairs)
    case Tag(num, inner) => num < TWO_64 && WellFormed(inner)
    case Simple(v) => v <= 23 || 32 <= v < 256
    case Float(ai, bits) => 25 <= ai <= 27 && IsBits(FormatOf(ai), bits) && FloatOk(ai, bits)
  }

  predicate AllWellFormed(xs: seq<Item>)
    decreases xs, 1
  {
    xs == [] || (WellFormed(xs[0]) && AllWellFormed(xs[1..]))
  }

  predicate PairsWellFormed(ps: seq<Pair>)
    decreases ps, 1
  {
    ps == [] || (PairWellFormed(ps[0]) && PairsWellFormed(ps[1..]))
  }

  predicate PairWellFormed(p: Pair)
    decreases p, 0
  {
    WellFormed(p.key) && WellFormed(p.val)
  }

  // ---------------------------------------------------------------- measures

  function Max(a: nat, b: nat): nat {
    if a >= b then a else b
  }

  function Height(x: Item): nat
    decreases x, 0
  {
    match x
    case Array(items) => HeightAll(items)
    case Map(pairs) => HeightPairs(pairs)
    case Tag(_, inner) => 1 + Height(inner)
    case _ => 0
  }

  function HeightAll(xs: seq<Item>): nat
    decreases xs, 1
  {
    if xs == [] then 0 else Max(1 + Height(xs[0]), HeightAll(xs[1..]))
  }

  function HeightPairs(ps: seq<Pair>): nat
    decreases ps, 1
  {
    if ps == [] then 0 else Max(1 + HeightPair(ps[0]), HeightPairs(ps[1..]))
  }

  function HeightPair(p: Pair): nat
    decreases p, 0
  {
    Max(Height(p.key), Height(p.val))
  }

  function Count(x: Item): nat
    decreases x, 0
  {
    match x
    case Array(items) => 1 + CountAll(items)
    case Map(pairs) => 1 + CountPairs(pairs)
    case Tag(_, inner) => 1 + Count(inner)
    case _ => 1
  }

  function CountAll(xs: seq<Item>): nat
    decreases xs, 1
  {
    if xs == [] then 0 else Count(xs[0]) + CountAll(xs[1..])
  }

  function CountPairs(ps: seq<Pair>): nat
    decreases ps, 1
  {
    if ps == [] then 0 else CountPair(ps[0]) + CountPairs(ps[1..])
  }

  function CountPair(p: Pair): nat
    decreases p, 0
  {
    Count(p.key) + Count(p.val)
  }
}
