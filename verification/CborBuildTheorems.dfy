/**
 What the strict decoder reads back from the builders: the parts given, when each part is
 one encoded item; the same octets for every order of a map's pairs; one octet string for
 each integer.
 */
module CborBuildTheorems {
  import opened Wrappers
  import opened Octets
  import opened BigEndian
  import opened CborSyntax
  import opened CborParse
  import opened CborBijection
  import opened CborBuild
  import opened Sorting
  import Utf8

  /** What decoding the output of a builder says about the item x. */
  ghost predicate Reads(out: bytes, limits: Limits, x: Item) {
    Parse(out, false, limits) == Ok(Read(x, |out|, Count(x)))
  }

  /** The final decode accepts the octets of a well-formed item exactly when they are within the limits. */
  lemma {:induction false} ChecksItem(x: Item, limits: Limits)
    requires WellFormed(x) && limits.maxBytes < TWO_64
    ensures AssertDecodes(Enc(x), limits).Ok? <==> |Enc(x)| <= limits.maxBytes && Within(x, 0, 0, limits)
    ensures AssertDecodes(Enc(x), limits).Ok? ==>
            AssertDecodes(Enc(x), limits) == Ok(Enc(x)) && Reads(Enc(x), limits, x)
  {
    hide ParseItem, Enc, WellFormed, Within, Count, Height;
    var out := Enc(x);
    AcceptsExactly(out, false, limits, x);
    if Parse(out, false, limits).Ok? {
      EncodeOfDecode(out, limits);
      var y := Parse(out, false, limits).value.item;
      PrefixFree(y, x);
      ItemSound(out, 0, |out|, 0, 0, limits);
    }
  }

  // ---------------------------------------------------------------- arrays

  function Encodings(xs: seq<Item>): (r: seq<bytes>)
    ensures |r| == |xs|
  {
    seq(|xs|, i requires 0 <= i < |xs| => Enc(xs[i]))
  }

  lemma {:induction false} ConcatEncodings(xs: seq<Item>)
    ensures Concat(Encodings(xs)) == EncAll(xs)
  {
    hide Enc;
    if xs != [] {
      ConcatEncodings(xs[1..]);
      assert Encodings(xs)[1..] == Encodings(xs[1..]);
    }
  }

  lemma {:induction false} ItemsHaveOctets(xs: seq<Item>)
    ensures |EncAll(xs)| >= |xs|
  {
    hide Enc;
    if xs != [] { ItemsHaveOctets(xs[1..]); }
  }

  /**
   For parts that are items build.array gives the array of those items, exactly when it is within the limits of the
   decoder, and decoding it gives the items back.
   */
  lemma {:induction false} ArrayOfItems(items: seq<Item>, limits: Limits)
    requires AllWellFormed(items) && limits.maxBytes < TWO_64
    ensures var x := Array(items);
      var r := ArrayBytes(Encodings(items), limits);
      && (r.Ok? <==> |Enc(x)| <= limits.maxBytes && Within(x, 0, 0, limits))
      && (r.Ok? ==> r == Ok(Enc(x)) && Reads(Enc(x), limits, x))
  {
    hide Parse, EncAll, Encodings, AllWellFormed, HeadBytes, Within;
    ConcatEncodings(items);
    ItemsHaveOctets(items);
    if |items| < TWO_64 { ChecksItem(Array(items), limits); }
  }

  ghost predicate IsItem(p: bytes) {
    exists x :: WellFormed(x) && Enc(x) == p
  }

  lemma {:induction false} ItemsOf(parts: seq<bytes>) returns (xs: seq<Item>)
    requires forall p :: p in parts ==> IsItem(p)
    ensures Encodings(xs) == parts && AllWellFormed(xs)
  {
    hide Enc, WellFormed;
    if parts == [] {
      xs := [];
    } else {
      assert parts[0] in parts;
      var x :| WellFormed(x) && Enc(x) == parts[0];
      var rest := ItemsOf(parts[1..]);
      xs := [x] + rest;
      ListOf(x, rest);
      assert Encodings(xs) == [parts[0]] + Encodings(rest);
    }
  }

  /**
   Whatever build.array accepts decodes to an array of as many items, and those items are the parts exactly when each
   part is one item.
   */
  lemma {:induction false} ArrayReadsParts(parts: seq<bytes>, limits: Limits) returns (items: seq<Item>)
    requires limits.maxBytes < TWO_64 && ArrayBytes(parts, limits).Ok?
    ensures Reads(ArrayBytes(parts, limits).value, limits, Array(items))
    ensures |items| == |parts| && EncAll(items) == Concat(parts)
    ensures Encodings(items) == parts <==> forall p :: p in parts ==> IsItem(p)
  {
    hide ParseItem, Enc, EncAll, Encodings, AllWellFormed, Within, Count, HeadBytes;
    var out := ArrayBytes(parts, limits).value;
    ItemSound(out, 0, |out|, 0, 0, limits);
    EncodeOfDecode(out, limits);
    var x := Parse(out, false, limits).value.item;
    ArrayByHead(x, |parts|, Concat(parts));
    items := x.items;
    ItemsAreWellFormed(x);
    if forall p :: p in parts ==> IsItem(p) {
      var ts := ItemsOf(parts);
      ConcatEncodings(ts);
      ArraysOfSameOctets(ts, items);
    }
    if Encodings(items) == parts {
      forall p | p in parts ensures IsItem(p) {
        var i :| 0 <= i < |parts| && parts[i] == p;
        EncodingAt(items, i);
      }
    }
  }

  lemma {:induction false} EncodingAt(xs: seq<Item>, i: nat)
    requires AllWellFormed(xs) && i < |xs|
    ensures WellFormed(xs[i]) && Enc(xs[i]) == Encodings(xs)[i]
  {
    hide WellFormed, Enc;
    if i > 0 {
      EncodingAt(xs[1..], i - 1);
    }
  }

  lemma ItemsAreWellFormed(x: Item)
    requires WellFormed(x) && x.Array?
    ensures AllWellFormed(x.items) && |x.items| < TWO_64
  {
  }

  lemma ArraysOfSameOctets(xs: seq<Item>, ys: seq<Item>)
    requires AllWellFormed(xs) && AllWellFormed(ys) && |xs| == |ys| < TWO_64
    requires EncAll(xs) == EncAll(ys) && |Enc(Array(ys))| < TWO_64
    ensures xs == ys
  {
    hide EncAll, AllWellFormed, HeadBytes;
    PrefixFree(Array(xs), Array(ys));
  }

  /** Octets that start with the head of an array are the octets of an array. */
  lemma ArrayByHead(x: Item, n: nat, content: bytes)
    requires WellFormed(x) && n < TWO_64 && Enc(x) == HeadBytes(4, n) + content
    ensures x.Array? && |x.items| == n && EncAll(x.items) == content
  {
    hide EncAll, FixedBytes;
    FirstOctet(x);
    Widths();
    assert Enc(x)[0] == HeadBytes(4, n)[0];
    assert x.Array?;
    HeadBytesFree(4, n, content, |x.items|, EncAll(x.items));
  }

  /** Major type of the first octet. */
  lemma FirstOctet(x: Item)
    requires WellFormed(x)
    ensures Enc(x)[0] / 32 == (match x
      case UInt(_) => 0 case NInt(_) => 1 case Bytes(_) => 2 case Text(_) => 3 case Array(_) => 4
      case Map(_) => 5 case Tag(_, _) => 6 case Simple(_) => 7 case Float(_, _) => 7)
  {
    hide FixedBytes, EncAll, EncPairs;
    Widths();
  }

  lemma HeadBytesFree(mt: nat, a: nat, x: bytes, b: nat, y: bytes)
    requires mt < 7 && a < TWO_64 && b < TWO_64 && HeadBytes(mt, a) + x == HeadBytes(mt, b) + y
    ensures a == b && x == y
  {
    hide ParseHead;
    var buf := HeadBytes(mt, a) + x;
    Widths();
    HeadIsRaw(mt, a);
    HeadIsRaw(mt, b);
    RawHeadComplete(buf, 0, |buf|, mt, ArgInfo(a), a);
    RawHeadComplete(buf, 0, |buf|, mt, ArgInfo(b), b);
  }

  /** Parts that are not items can be regrouped: one part of two items and one empty part decode to two items. */
  lemma ArrayRegroups(limits: Limits)
    requires 3 <= limits.maxBytes < TWO_64 && limits.maxDepth >= 1 && limits.maxItems >= 3
    ensures ArrayBytes([[1, 2], []], limits) == Ok([0x82, 1, 2])
    ensures Reads([0x82, 1, 2], limits, Array([UInt(1), UInt(2)])) && Encodings([UInt(1), UInt(2)]) != [[1, 2], []]
  {
    hide Parse, HeadBytes, Enc, EncAll, Height, Count, Encodings;
    TwoSmallItems();
    HeadOfTwo();
    var parts: seq<bytes> := [[1, 2], []];
    assert parts[1..] == [[]] && Concat(parts[1..]) == [] + Concat(parts[1..][1..]);
    assert Concat(parts) == [1, 2];
    assert [0x82] + [1, 2] == [0x82, 1, 2];
    ChecksItem(Array([UInt(1), UInt(2)]), limits);
  }

  lemma HeadOfTwo()
    ensures HeadBytes(4, 2) == [0x82] && HeadBytes(0, 1) == [1] && HeadBytes(0, 2) == [2]
  {
  }

  lemma TwoSmallItems()
    ensures var x := Array([UInt(1), UInt(2)]);
      Enc(x) == [0x82, 1, 2] && WellFormed(x) && Height(x) == 1 && Count(x) == 3
    ensures Encodings([UInt(1), UInt(2)]) != [[1, 2], []]
  {
    hide HeadBytes;
    HeadOfTwo();
    var xs := [UInt(1), UInt(2)];
    assert xs[1..] == [UInt(2)] && xs[1..][1..] == [];
    assert EncAll(xs) == Enc(UInt(1)) + EncAll(xs[1..]);
    assert EncAll(xs[1..]) == Enc(UInt(2)) + EncAll(xs[1..][1..]);
    assert EncAll(xs[1..]) == [2];
    assert HeightAll(xs[1..]) == 1 && CountAll(xs[1..]) == 1;
    assert Encodings(xs)[0] == [1];
  }

  // ---------------------------------------------------------------- tags

  /** For one item build.tag gives that item under the tag, exactly when it is within the limits. */
  lemma TagOfItem(num: nat, inner: Item, limits: Limits)
    requires WellFormed(inner) && num < TWO_64 && limits.maxBytes < TWO_64
    ensures var x := Tag(num, inner);
      var r := TagBytes(num, Enc(inner), limits);
      && (r.Ok? <==> |Enc(x)| <= limits.maxBytes && Within(x, 0, 0, limits))
      && (r.Ok? ==> r == Ok(Enc(x)) && Reads(Enc(x), limits, x))
  {
    hide Parse, HeadBytes, Within;
    ChecksItem(Tag(num, inner), limits);
  }

  /** build.tag accepts nothing but one item, and decoding gives it back under its tag. */
  lemma {:induction false} TagReadsInner(num: int, inner: bytes, limits: Limits) returns (x: Item)
    requires limits.maxBytes < TWO_64 && TagBytes(num, inner, limits).Ok?
    ensures 0 <= num < TWO_64 && WellFormed(x) && Enc(x) == inner
    ensures Reads(TagBytes(num, inner, limits).value, limits, Tag(num, x))
  {
    hide ParseItem, Enc, WellFormed, Within, Count, HeadBytes;
    var out := TagBytes(num, inner, limits).value;
    ItemSound(out, 0, |out|, 0, 0, limits);
    EncodeOfDecode(out, limits);
    var whole := Parse(out, false, limits).value.item;
    TagByHead(whole, num, inner);
    x := whole.inner;
  }

  lemma TagByHead(x: Item, num: nat, content: bytes)
    requires WellFormed(x) && num < TWO_64 && Enc(x) == HeadBytes(6, num) + content
    ensures x.Tag? && x.num == num && Enc(x.inner) == content && WellFormed(x.inner)
  {
    hide FixedBytes;
    FirstOctet(x);
    Widths();
    assert Enc(x)[0] == HeadBytes(6, num)[0];
    assert x.Tag?;
    HeadBytesFree(6, num, content, x.num, Enc(x.inner));
  }

  // ---------------------------------------------------------------- maps

  function PairKey(p: Pair): bytes {
    Enc(p.key)
  }

  function EncodedPair(p: Pair): Entry {
    (Enc(p.key), Enc(p.val))
  }

  function EncodedPairs(ps: seq<Pair>): (r: seq<Entry>)
    ensures |r| == |ps|
  {
    seq(|ps|, i requires 0 <= i < |ps| => EncodedPair(ps[i]))
  }

  lemma {:induction false} FlatEncoded(ps: seq<Pair>)
    ensures Flat(EncodedPairs(ps)) == EncPairs(ps) && |EncPairs(ps)| >= |ps|
  {
    hide Enc;
    if ps != [] {
      FlatEncoded(ps[1..]);
      assert EncodedPairs(ps)[1..] == EncodedPairs(ps[1..]);
    }
  }

  lemma {:induction false} InsertEncoded(p: Pair, ps: seq<Pair>)
    ensures EncodedPairs(Insert(p, ps, PairKey)) == Insert(EncodedPair(p), EncodedPairs(ps), KeyOctets)
  {
    hide Enc, Less;
    if ps != [] {
      assert EncodedPairs(ps)[1..] == EncodedPairs(ps[1..]);
      InsertEncoded(p, ps[1..]);
    }
  }

  /** Sorting pairs of items by key and then encoding is encoding and then sorting. */
  lemma {:induction false} SortedEncoded(ps: seq<Pair>)
    ensures EncodedPairs(SortedCopy(ps, PairKey)) == SortedCopy(EncodedPairs(ps), KeyOctets)
  {
    hide Enc, Insert;
    if ps != [] {
      var n := |ps| - 1;
      SortedEncoded(ps[..n]);
      InsertEncoded(ps[n], SortedCopy(ps[..n], PairKey));
      assert EncodedPairs(ps)[..n] == EncodedPairs(ps[..n]);
    }
  }

  /** A repeated key is found by comparing neighbours after sorting, and only then. */
  lemma RepeatsExactly(ps: seq<Entry>)
    ensures AdjacentDuplicate(SortedCopy(ps, KeyOctets)) <==> KeyRepeated(ps, KeyOctets)
  {
    hide SortedCopy;
    var sorted := SortedCopy(ps, KeyOctets);
    SortedCopyCorrect(ps, KeyOctets);
    if KeyRepeated(ps, KeyOctets) {
      RepeatedPermutation(ps, sorted, KeyOctets);
      var i := RepeatedIsAdjacent(sorted, KeyOctets);
      assert SameKeyAt(sorted, i);
    }
    if AdjacentDuplicate(sorted) {
      var i :| 0 < i < |sorted| && SameKeyAt(sorted, i);
      assert KeyOctets(sorted[i - 1]) == KeyOctets(sorted[i]);
      RepeatedPermutation(sorted, ps, KeyOctets);
    }
  }

  lemma RepeatsOfPairs(ps: seq<Pair>)
    ensures KeyRepeated(EncodedPairs(ps), KeyOctets) <==> KeyRepeated(ps, PairKey)
  {
    hide Enc;
    var es := EncodedPairs(ps);
    if KeyRepeated(es, KeyOctets) {
      var i, j :| 0 <= i < j < |es| && KeyOctets(es[i]) == KeyOctets(es[j]);
      assert PairKey(ps[i]) == PairKey(ps[j]);
    }
    if KeyRepeated(ps, PairKey) {
      var i, j :| 0 <= i < j < |ps| && PairKey(ps[i]) == PairKey(ps[j]);
      assert KeyOctets(es[i]) == KeyOctets(es[j]);
    }
  }

  lemma {:induction false} PairsWellFormedIff(ps: seq<Pair>)
    ensures PairsWellFormed(ps) <==> forall p :: p in ps ==> PairWellFormed(p)
  {
    hide PairWellFormed;
    if ps != [] {
      PairsWellFormedIff(ps[1..]);
      assert ps[0] in ps;
      forall p | p in ps ensures p == ps[0] || p in ps[1..] {
        assert ps == [ps[0]] + ps[1..];
      }
      forall p | p in ps[1..] ensures p in ps {
        assert ps == [ps[0]] + ps[1..];
      }
    }
  }

  lemma PairsWellFormedPermutation(ps: seq<Pair>, qs: seq<Pair>)
    requires multiset(ps) == multiset(qs) && PairsWellFormed(ps)
    ensures PairsWellFormed(qs)
  {
    hide PairWellFormed;
    PairsWellFormedIff(ps);
    PairsWellFormedIff(qs);
    forall q | q in qs ensures PairWellFormed(q) { SameElements(ps, qs, q); }
  }

  /** Sorted pairs whose keys are all different ascend. */
  lemma SortedKeysAscend(ps: seq<Pair>)
    requires Ascending(ps, PairKey) && !KeyRepeated(ps, PairKey)
    ensures KeysAscend(ps)
  {
    hide Enc, Less;
    forall i | 0 <= i < |ps| - 1 ensures Less(Enc(ps[i].key), Enc(ps[i + 1].key)) {
      LessTrichotomy(Enc(ps[i].key), Enc(ps[i + 1].key));
      assert !Less(PairKey(ps[i + 1]), PairKey(ps[i]));
      assert PairKey(ps[i]) != PairKey(ps[i + 1]);
    }
  }

  /** Sorting well-formed pairs whose keys differ gives the pairs of a well-formed map. */
  lemma SortedPairs(ps: seq<Pair>)
    requires PairsWellFormed(ps) && !KeyRepeated(ps, PairKey)
    ensures var sorted := SortedCopy(ps, PairKey);
      && multiset(sorted) == multiset(ps) && |sorted| == |ps| && PairsWellFormed(sorted) && KeysAscend(sorted)
  {
    hide SortedCopy, Enc, PairWellFormed, PairsWellFormed, Less;
    var sorted := SortedCopy(ps, PairKey);
    SortedCopyCorrect(ps, PairKey);
    assert |multiset(sorted)| == |multiset(ps)|;
    PairsWellFormedPermutation(ps, sorted);
    if KeyRepeated(sorted, PairKey) { RepeatedPermutation(sorted, ps, PairKey); }
    SortedKeysAscend(sorted);
  }

  /**
   For pairs of items build.map refuses a repeated key and nothing else that is within the limits; what it gives
   decodes to the same pairs in ascending key order.
   */
  lemma {:induction false} MapOfPairs(pairs: seq<Pair>, limits: Limits)
    requires PairsWellFormed(pairs) && limits.maxBytes < TWO_64
    ensures var sorted := SortedCopy(pairs, PairKey);
      var x := Map(sorted);
      var r := MapBytes(EncodedPairs(pairs), limits);
      && (r == Err(DuplicateKey) <==> KeyRepeated(pairs, PairKey))
      && (r.Ok? <==> !KeyRepeated(pairs, PairKey) && |Enc(x)| <= limits.maxBytes && Within(x, 0, 0, limits))
      && (r.Ok? ==> r == Ok(Enc(x)) && multiset(sorted) == multiset(pairs))
      && (r.Ok? ==> KeysAscend(sorted) && Reads(Enc(x), limits, x))
  {
    hide Parse, SortedCopy, EncPairs, EncodedPairs, PairsWellFormed, HeadBytes, Within, KeysAscend;
    var es := EncodedPairs(pairs);
    var sorted := SortedCopy(pairs, PairKey);
    RepeatsExactly(es);
    RepeatsOfPairs(pairs);
    SortedEncoded(pairs);
    if !KeyRepeated(pairs, PairKey) {
      SortedPairs(pairs);
      FlatEncoded(sorted);
      if |pairs| < TWO_64 { ChecksItem(Map(sorted), limits); }
    }
  }

  /** build.map gives the same octets, or the same refusal, for every order of its pairs. */
  lemma {:induction false} MapIgnoresOrder(xs: seq<Entry>, ys: seq<Entry>, limits: Limits)
    requires multiset(xs) == multiset(ys)
    ensures MapBytes(xs, limits) == MapBytes(ys, limits)
  {
    hide Parse, SortedCopy, AdjacentDuplicate, HeadBytes;
    RepeatsExactly(xs);
    RepeatsExactly(ys);
    assert |multiset(xs)| == |multiset(ys)|;
    if KeyRepeated(xs, KeyOctets) {
      RepeatedPermutation(xs, ys, KeyOctets);
    } else {
      if KeyRepeated(ys, KeyOctets) { RepeatedPermutation(ys, xs, KeyOctets); }
      forall a, b | a in xs && b in xs && KeyOctets(a) == KeyOctets(b) ensures a == b {
        var i :| 0 <= i < |xs| && xs[i] == a;
        var j :| 0 <= j < |xs| && xs[j] == b;
        if i < j { assert KeyOctets(xs[i]) == KeyOctets(xs[j]); }
        if j < i { assert KeyOctets(xs[j]) == KeyOctets(xs[i]); }
      }
      SortedCopyCanonical(xs, ys, KeyOctets);
    }
  }

  // ---------------------------------------------------------------- scalars and strings

  /** The item an integer is built as. */
  function IntItem(n: int): Item {
    if n >= 0 then UInt(n) else NInt(-1 - n)
  }

  /** build.int covers exactly the integers from -2^64 to 2^64 - 1, and what it gives decodes to the integer. */
  lemma {:induction false} IntBuilt(n: int, limits: Limits)
    requires 9 <= limits.maxBytes < TWO_64 && limits.maxItems >= 1
    ensures IntBytes(n).Ok? <==> -TWO_64 <= n < TWO_64
    ensures IntBytes(n).Ok? ==> IntBytes(n).value == Enc(IntItem(n)) && Reads(IntBytes(n).value, limits, IntItem(n))
  {
    hide Parse, HeadBytes;
    if -TWO_64 <= n < TWO_64 {
      var x := IntItem(n);
      HeadLength(x);
      ChecksItem(x, limits);
    }
  }

  lemma HeadLength(x: Item)
    requires WellFormed(x) && (x.UInt? || x.NInt?)
    ensures |Enc(x)| <= 9
  {
    Widths();
  }

  /** A byte string is built exactly when its encoding is within the size cap, and decodes to its content. */
  lemma {:induction false} ByteStringBuilt(content: bytes, limits: Limits)
    requires limits.maxBytes < TWO_64 && limits.maxItems >= 1
    ensures var r := ByteStringBytes(content, limits);
      && (r.Ok? <==> |Enc(Bytes(content))| <= limits.maxBytes)
      && (r.Ok? ==> r.value == Enc(Bytes(content)) && Reads(r.value, limits, Bytes(content)))
  {
    hide Parse, HeadBytes;
    if |content| < TWO_64 { ChecksItem(Bytes(content), limits); }
  }

  /** A text string is built exactly when it is well-formed text within the size cap, and decodes to that text. */
  lemma {:induction false} TextStringBuilt(text: seq<nat>, limits: Limits)
    requires limits.maxBytes < TWO_64 && limits.maxItems >= 1
    ensures var r := TextStringBytes(text, limits);
      && (r.Ok? <==> Utf8.AllScalars(text) && |Enc(Text(Utf8.Encode(text)))| <= limits.maxBytes)
      && (r.Ok? ==>
            && r.value == Enc(Text(Utf8.Encode(text))) && Reads(r.value, limits, Text(Utf8.Encode(text)))
            && Utf8.Decode(Utf8.Encode(text)) == Some(text))
  {
    hide Parse, HeadBytes, Utf8.Encode, Utf8.Decode, Utf8.AllScalars;
    if Utf8.AllScalars(text) {
      var content := Utf8.Encode(text);
      Utf8.Utf8Exactly(content, text);
      if |content| < TWO_64 { ChecksItem(Text(content), limits); }
    }
  }
}
