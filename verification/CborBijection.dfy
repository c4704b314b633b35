/**
 decode accepts exactly the encodings of items that obey the deterministic profile and the
 limits, and each accepted input is the encoding of one item.
 */
module CborBijection {
  import opened Wrappers
  import opened Octets
  import opened Radix
  import opened BigEndian
  import opened CborFloat
  import opened CborSyntax
  import opened CborParse

  // ---------------------------------------------------------------- heads

  /** The octets a head was read from. */
  lemma RawHeadSound(buf: bytes, start: nat, limit: nat)
    requires start <= limit <= |buf| && ParseHead(buf, start, limit).Ok?
    ensures var h := ParseHead(buf, start, limit).value;
      && buf[start..h.contentStart] == RawHead(h.mt, h.ai, h.arg)
      && (h.mt != 7 ==> h.ai == ArgInfo(h.arg) && h.arg < TWO_64)
  {
    hide Value, Fixed, Pow;
    var h := ParseHead(buf, start, limit).value;
    var ib := buf[start];
    Widths();
    assert ib == h.mt * 32 + h.ai;
    if h.ai <= 23 {
      assert buf[start..start + 1] == [ib];
    } else {
      var w := ArgWidth(h.ai);
      var ds := buf[start + 1..start + 1 + w];
      FixedOfValue(ds, 256);
      assert buf[start..h.contentStart] == [ib] + ds;
    }
  }

  lemma RawHeadComplete(buf: bytes, start: nat, limit: nat, mt: nat, ai: nat, a: nat)
    requires mt < 8 && ai <= 27 && (if ai <= 23 then a == ai else a < Pow(256, ArgWidth(ai)))
    requires mt != 7 ==> ai == ArgInfo(a)
    requires HasAt(buf, start, RawHead(mt, ai, a)) && start + |RawHead(mt, ai, a)| <= limit <= |buf|
    ensures ParseHead(buf, start, limit) == Ok(Head(mt, ai, a, start + |RawHead(mt, ai, a)|))
  {
    hide Value, Fixed, Pow;
    var raw := RawHead(mt, ai, a);
    assert buf[start] == raw[0];
    InitialOctet(mt, ai, buf[start]);
    if ai >= 24 {
      var w := ArgWidth(ai);
      var fb := FixedBytes(a, w);
      HasAtSplit(buf, start, [mt * 32 + ai], fb);
      NumberAtFixed(buf, start + 1, a, w);
      hide NumberAt, FixedBytes;
    }
  }

  lemma InitialOctet(mt: nat, ai: nat, ib: byte)
    requires mt < 8 && ai < 32 && ib == mt * 32 + ai
    ensures ib / 32 == mt && ib % 32 == ai
  {
  }

  // ---------------------------------------------------------------- limits

  predicate Within(x: Item, depth: nat, count: nat, limits: Limits) {
    depth + Height(x) <= limits.maxDepth && count + Count(x) <= limits.maxItems
  }

  predicate WithinAll(xs: seq<Item>, depth: nat, count: nat, limits: Limits) {
    xs != [] ==> depth + HeightAll(xs) <= limits.maxDepth + 1 && count + CountAll(xs) <= limits.maxItems
  }

  predicate WithinPairs(ps: seq<Pair>, depth: nat, count: nat, limits: Limits) {
    ps != [] ==> depth + HeightPairs(ps) <= limits.maxDepth + 1 && count + CountPairs(ps) <= limits.maxItems
  }

  /** The list functions on a list known by its head and tail. */
  lemma ListOf(x: Item, xs: seq<Item>)
    ensures EncAll([x] + xs) == Enc(x) + EncAll(xs)
    ensures CountAll([x] + xs) == Count(x) + CountAll(xs)
    ensures HeightAll([x] + xs) == Max(1 + Height(x), HeightAll(xs))
    ensures AllWellFormed([x] + xs) <==> WellFormed(x) && AllWellFormed(xs)
  {
    assert ([x] + xs)[1..] == xs;
  }

  lemma PairsOf(p: Pair, ps: seq<Pair>)
    ensures EncPairs([p] + ps) == Enc(p.key) + Enc(p.val) + EncPairs(ps)
    ensures CountPairs([p] + ps) == Count(p.key) + Count(p.val) + CountPairs(ps)
    ensures HeightPairs([p] + ps) == Max(1 + Max(Height(p.key), Height(p.val)), HeightPairs(ps))
    ensures PairsWellFormed([p] + ps) <==> WellFormed(p.key) && WellFormed(p.val) && PairsWellFormed(ps)
  {
    assert ([p] + ps)[1..] == ps;
  }

  lemma EmptyMeasures()
    ensures HeightAll([]) == 0 && CountAll([]) == 0 && HeightPairs([]) == 0 && CountPairs([]) == 0
    ensures EncAll([]) == [] && EncPairs([]) == []
  {
  }

  lemma WithinCons(x: Item, xs: seq<Item>, depth: nat, count: nat, limits: Limits)
    ensures WithinAll([x] + xs, depth, count, limits) <==>
            Within(x, depth, count, limits) && WithinAll(xs, depth, count + Count(x), limits)
  {
    hide Height, Count, HeightAll, CountAll;
    ListOf(x, xs);
    EmptyMeasures();
  }

  lemma WithinPair(p: Pair, ps: seq<Pair>, depth: nat, count: nat, limits: Limits)
    ensures WithinPairs([p] + ps, depth, count, limits) <==>
            Within(p.key, depth, count, limits) && Within(p.val, depth, count + Count(p.key), limits) &&
            WithinPairs(ps, depth, count + Count(p.key) + Count(p.val), limits)
  {
    hide Height, Count, HeightPairs, CountPairs;
    PairsOf(p, ps);
    EmptyMeasures();
  }

  /** Keys ascend from the key before the list, if there is one. */
  predicate AscendFrom(last: Option<bytes>, ps: seq<Pair>) {
    KeysAscend(ps) && (ps != [] && last.Some? ==> Less(last.value, Enc(ps[0].key)))
  }

  lemma AscendCons(last: Option<bytes>, p: Pair, ps: seq<Pair>)
    ensures AscendFrom(last, [p] + ps) <==>
            (last.Some? ==> Less(last.value, Enc(p.key))) && AscendFrom(Some(Enc(p.key)), ps)
  {
    hide Enc, Less;
    var all := [p] + ps;
    if AscendFrom(last, all) {
      forall i | 0 <= i < |ps| - 1 ensures Less(Enc(ps[i].key), Enc(ps[i + 1].key)) {
        assert all[i + 1] == ps[i] && all[i + 2] == ps[i + 1];
        assert Less(Enc(all[i + 1].key), Enc(all[i + 1 + 1].key));
      }
      if ps != [] { assert Less(Enc(all[0].key), Enc(all[0 + 1].key)); }
    }
    if (last.Some? ==> Less(last.value, Enc(p.key))) && AscendFrom(Some(Enc(p.key)), ps) {
      forall i | 0 <= i < |all| - 1 ensures Less(Enc(all[i].key), Enc(all[i + 1].key)) {
        if i > 0 {
          assert all[i] == ps[i - 1] && all[i + 1] == ps[i];
          assert Less(Enc(ps[i - 1].key), Enc(ps[i - 1 + 1].key));
        }
      }
    }
  }

  // ---------------------------------------------------------------- soundness

  lemma SimpleSound(h: Head)
    requires HeadOk(h) && h.mt == 7 && h.ai <= 24 && ParseMajor7(h).Ok?
    ensures var x := ParseMajor7(h).value;
      WellFormed(x) && Enc(x) == RawHead(7, h.ai, h.arg) && Height(x) == 0 && Count(x) == 1
  {
    hide FixedBytes, Pow;
    Widths();
  }

  lemma FloatSound(h: Head)
    requires HeadOk(h) && h.mt == 7 && h.ai >= 25 && ParseMajor7(h).Ok?
    ensures var x := ParseMajor7(h).value;
      WellFormed(x) && Enc(x) == RawHead(7, h.ai, h.arg) && Height(x) == 0 && Count(x) == 1
  {
    hide ValueOf, FixedBytes, Pow, Roundtrips, FormatOf, RawHead;
    Widths();
    FloatBitsFit(h.ai, h.arg);
  }

  lemma Major7Sound(h: Head)
    requires HeadOk(h) && h.mt == 7 && ParseMajor7(h).Ok?
    ensures var x := ParseMajor7(h).value;
      WellFormed(x) && Enc(x) == RawHead(7, h.ai, h.arg) && Height(x) == 0 && Count(x) == 1
  {
    hide ParseMajor7, WellFormed, Enc, RawHead;
    if h.ai <= 24 { SimpleSound(h); } else { FloatSound(h); }
  }

  lemma {:induction false} ItemSound(buf: bytes, start: nat, limit: nat, depth: nat, count: nat, limits: Limits)
    requires start <= limit <= |buf| < TWO_64
    requires ParseItem(buf, start, limit, depth, count, limits).Ok?
    ensures var r := ParseItem(buf, start, limit, depth, count, limits).value;
      && WellFormed(r.item) && Within(r.item, depth, count, limits)
      && buf[start..r.end] == Enc(r.item) && r.count == count + Count(r.item)
    decreases limit - start, 0
  {
    hide ParseHead, ParseContent, RawHead, Enc, WellFormed, Height, Count;
    RawHeadSound(buf, start, limit);
    var h := ParseHead(buf, start, limit).value;
    var r := ParseItem(buf, start, limit, depth, count, limits).value;
    ContentSound(buf, h, limit, depth, count, limits);
    assert buf[start..r.end] == buf[start..h.contentStart] + buf[h.contentStart..r.end];
  }

  lemma HeadIsRaw(mt: nat, a: nat)
    requires mt < 8 && a < TWO_64
    ensures ArgInfo(a) >= 24 ==> a < Pow(256, ArgWidth(ArgInfo(a)))
    ensures HeadBytes(mt, Fit(a)) == RawHead(mt, ArgInfo(a), a)
  {
    hide RawHead, Pow;
    Widths();
  }

  /** Integers, strings, simple values and floats. */
  lemma LeafSound(buf: bytes, h: Head, limit: nat, depth: nat, count: nat, limits: Limits)
    requires h.contentStart <= limit <= |buf| < TWO_64 && HeadOk(h) && (h.mt <= 3 || h.mt == 7)
    requires h.mt != 7 ==> h.ai == ArgInfo(h.arg) && h.arg < TWO_64
    requires ParseContent(buf, h, limit, depth, count + 1, limits).Ok?
    ensures var r := ParseContent(buf, h, limit, depth, count + 1, limits).value;
      && WellFormed(r.item) && Height(r.item) == 0 && Count(r.item) == 1 && r.count == count + 1
      && RawHead(h.mt, h.ai, h.arg) + buf[h.contentStart..r.end] == Enc(r.item)
  {
    hide ParseItem, ParseItems, ParsePairs, RawHead, HeadBytes, ParseMajor7, Fit;
    var p := h.contentStart;
    var head := RawHead(h.mt, h.ai, h.arg);
    assert buf[p..p] == [] && head + [] == head;
    if h.mt == 7 {
      Major7Sound(h);
    } else {
      HeadIsRaw(h.mt, h.arg);
    }
  }

  lemma {:induction false} ArraySound(buf: bytes, h: Head, limit: nat, depth: nat, count: nat, limits: Limits)
    requires h.mt == 4
    requires h.contentStart <= limit <= |buf| < TWO_64 && HeadOk(h)
    requires h.mt != 7 ==> h.ai == ArgInfo(h.arg) && h.arg < TWO_64
    requires depth <= limits.maxDepth && count + 1 <= limits.maxItems
    requires ParseContent(buf, h, limit, depth, count + 1, limits).Ok?
    ensures var r := ParseContent(buf, h, limit, depth, count + 1, limits).value;
      && WellFormed(r.item) && Within(r.item, depth, count, limits)
      && RawHead(h.mt, h.ai, h.arg) + buf[h.contentStart..r.end] == Enc(r.item) && r.count == count + Count(r.item)
    decreases limit - h.contentStart, 2
  {
    hide ParseItem, ParseItems, ParsePairs, RawHead, HeadBytes, Fit, ParseString, ParseMajor7, EncAll, HeightAll,
         CountAll, AllWellFormed;
    HeadIsRaw(h.mt, h.arg);
    EmptyMeasures();
    ItemsSound(buf, h.contentStart, limit, h.arg, depth + 1, count + 1, limits);
  }

  lemma {:induction false} MapSound(buf: bytes, h: Head, limit: nat, depth: nat, count: nat, limits: Limits)
    requires h.mt == 5
    requires h.contentStart <= limit <= |buf| < TWO_64 && HeadOk(h)
    requires h.mt != 7 ==> h.ai == ArgInfo(h.arg) && h.arg < TWO_64
    requires depth <= limits.maxDepth && count + 1 <= limits.maxItems
    requires ParseContent(buf, h, limit, depth, count + 1, limits).Ok?
    ensures var r := ParseContent(buf, h, limit, depth, count + 1, limits).value;
      && WellFormed(r.item) && Within(r.item, depth, count, limits)
      && RawHead(h.mt, h.ai, h.arg) + buf[h.contentStart..r.end] == Enc(r.item) && r.count == count + Count(r.item)
    decreases limit - h.contentStart, 2
  {
    hide ParseItem, ParseItems, ParsePairs, RawHead, HeadBytes, Fit, ParseString, ParseMajor7, EncPairs, HeightPairs,
         CountPairs, PairsWellFormed, KeysAscend;
    HeadIsRaw(h.mt, h.arg);
    EmptyMeasures();
    PairsSound(buf, h.contentStart, limit, h.arg, None, depth + 1, count + 1, limits);
  }

  lemma {:induction false} TagSound(buf: bytes, h: Head, limit: nat, depth: nat, count: nat, limits: Limits)
    requires h.mt == 6
    requires h.contentStart <= limit <= |buf| < TWO_64 && HeadOk(h)
    requires h.mt != 7 ==> h.ai == ArgInfo(h.arg) && h.arg < TWO_64
    requires depth <= limits.maxDepth && count + 1 <= limits.maxItems
    requires ParseContent(buf, h, limit, depth, count + 1, limits).Ok?
    ensures var r := ParseContent(buf, h, limit, depth, count + 1, limits).value;
      && WellFormed(r.item) && Within(r.item, depth, count, limits)
      && RawHead(h.mt, h.ai, h.arg) + buf[h.contentStart..r.end] == Enc(r.item) && r.count == count + Count(r.item)
    decreases limit - h.contentStart, 2
  {
    hide ParseItem, ParseItems, ParsePairs, RawHead, HeadBytes, Fit, ParseString, ParseMajor7;
    HeadIsRaw(h.mt, h.arg);
    EmptyMeasures();
    ItemSound(buf, h.contentStart, limit, depth + 1, count + 1, limits);
  }

  /** The octets after a head complete it to the encoding of the item read. */
  lemma {:induction false} ContentSound(buf: bytes, h: Head, limit: nat, depth: nat, count: nat, limits: Limits)
    requires h.contentStart <= limit <= |buf| < TWO_64 && HeadOk(h)
    requires h.mt != 7 ==> h.ai == ArgInfo(h.arg) && h.arg < TWO_64
    requires depth <= limits.maxDepth && count + 1 <= limits.maxItems
    requires ParseContent(buf, h, limit, depth, count + 1, limits).Ok?
    ensures var r := ParseContent(buf, h, limit, depth, count + 1, limits).value;
      && WellFormed(r.item) && Within(r.item, depth, count, limits)
      && RawHead(h.mt, h.ai, h.arg) + buf[h.contentStart..r.end] == Enc(r.item) && r.count == count + Count(r.item)
    decreases limit - h.contentStart, 3
  {
    hide ParseContent, RawHead, Enc, WellFormed, Height, Count;
    if h.mt == 4 {
      ArraySound(buf, h, limit, depth, count, limits);
    } else if h.mt == 5 {
      MapSound(buf, h, limit, depth, count, limits);
    } else if h.mt == 6 {
      TagSound(buf, h, limit, depth, count, limits);
    } else {
      LeafSound(buf, h, limit, depth, count, limits);
    }
  }

  lemma {:induction false} ItemsSound(buf: bytes, cp: nat, limit: nat, n: nat, depth: nat, count: nat, limits: Limits)
    requires cp <= limit <= |buf| < TWO_64
    requires ParseItems(buf, cp, limit, n, depth, count, limits).Ok?
    ensures var r := ParseItems(buf, cp, limit, n, depth, count, limits).value;
      && AllWellFormed(r.item) && WithinAll(r.item, depth, count, limits)
      && buf[cp..r.end] == EncAll(r.item) && r.count == count + CountAll(r.item)
    decreases limit - cp, 1
  {
    hide ParseItem, Enc, WellFormed, Height, Count, Within, WithinAll, EncAll, AllWellFormed, CountAll;
    if n == 0 {
      EmptyItems(depth, count, limits);
      assert buf[cp..cp] == [];
    } else {
      ItemSound(buf, cp, limit, depth, count, limits);
      var first := ParseItem(buf, cp, limit, depth, count, limits).value;
      ItemsSound(buf, first.end, limit, n - 1, depth, first.count, limits);
      var rest := ParseItems(buf, first.end, limit, n - 1, depth, first.count, limits).value;
      ListOf(first.item, rest.item);
      WithinCons(first.item, rest.item, depth, count, limits);
      assert buf[cp..rest.end] == buf[cp..first.end] + buf[first.end..rest.end];
    }
  }

  lemma EmptyItems(depth: nat, count: nat, limits: Limits)
    ensures AllWellFormed([]) && WithinAll([], depth, count, limits) && EncAll([]) == [] && CountAll([]) == 0
    ensures PairsWellFormed([]) && WithinPairs([], depth, count, limits) && EncPairs([]) == [] && CountPairs([]) == 0
  {
  }

  lemma {:induction false} PairsSound(buf: bytes, mp: nat, limit: nat, n: nat, last: Option<bytes>, depth: nat,
      count: nat, limits: Limits)
    requires mp <= limit <= |buf| < TWO_64
    requires ParsePairs(buf, mp, limit, n, last, depth, count, limits).Ok?
    ensures var r := ParsePairs(buf, mp, limit, n, last, depth, count, limits).value;
      && PairsWellFormed(r.item) && WithinPairs(r.item, depth, count, limits) && AscendFrom(last, r.item)
      && buf[mp..r.end] == EncPairs(r.item) && r.count == count + CountPairs(r.item)
    decreases limit - mp, 1
  {
    hide ParseItem, Enc, WellFormed, Height, Count, Within, WithinPairs, EncPairs, PairsWellFormed, CountPairs, Less;
    if n == 0 {
      EmptyItems(depth, count, limits);
      assert buf[mp..mp] == [];
    } else {
      ItemSound(buf, mp, limit, depth, count, limits);
      var k := ParseItem(buf, mp, limit, depth, count, limits).value;
      ItemSound(buf, k.end, limit, depth, k.count, limits);
      var v := ParseItem(buf, k.end, limit, depth, k.count, limits).value;
      var key := buf[mp..k.end];
      PairsSound(buf, v.end, limit, n - 1, Some(key), depth, v.count, limits);
      var rest := ParsePairs(buf, v.end, limit, n - 1, Some(key), depth, v.count, limits).value;
      var p := Pair(k.item, v.item);
      PairsOf(p, rest.item);
      WithinPair(p, rest.item, depth, count, limits);
      AscendCons(last, p, rest.item);
      assert buf[mp..rest.end] == buf[mp..k.end] + buf[k.end..v.end] + buf[v.end..rest.end];
    }
  }

  // ---------------------------------------------------------------- completeness

  lemma Major7Complete(x: Item)
    requires WellFormed(x) && (x.Simple? || x.Float?)
    ensures var ai := if x.Float? then x.ai else ArgInfo(x.v);
      var arg := if x.Float? then x.bits else x.v;
      && HeadOk(Head(7, ai, arg, 0)) && RawHead(7, ai, arg) == Enc(x)
      && forall at :: ParseMajor7(Head(7, ai, arg, at)) == Ok(x)
  {
    hide ValueOf, FixedBytes, Pow;
    Widths();
    if x.Float? { FloatBitsFit(x.ai, x.bits); }
  }

  /** Reading an item is reading its head and then its content. */
  lemma ItemFromHead(buf: bytes, start: nat, limit: nat, depth: nat, count: nat, limits: Limits, mt: nat, ai: nat,
      a: nat, rest: bytes)
    requires mt < 8 && ai <= 27 && (if ai <= 23 then a == ai else a < Pow(256, ArgWidth(ai)))
    requires mt != 7 ==> ai == ArgInfo(a)
    requires HasAt(buf, start, RawHead(mt, ai, a) + rest) && start + |RawHead(mt, ai, a) + rest| <= limit <= |buf|
    requires depth <= limits.maxDepth && count + 1 <= limits.maxItems
    ensures var h := Head(mt, ai, a, start + |RawHead(mt, ai, a)|);
      && HasAt(buf, h.contentStart, rest) && HeadOk(h) && h.contentStart <= limit
      && ParseItem(buf, start, limit, depth, count, limits) == ParseContent(buf, h, limit, depth, count + 1, limits)
  {
    hide ParseHead, ParseContent, RawHead;
    HasAtSplit(buf, start, RawHead(mt, ai, a), rest);
    RawHeadComplete(buf, start, limit, mt, ai, a);
  }

  /** An item is its head in shortest form followed by its content. */
  lemma EncByHead(x: Item)
    requires WellFormed(x) && !x.Simple? && !x.Float?
    ensures var (mt, a, content) := Parts(x);
      && a < TWO_64 && (ArgInfo(a) >= 24 ==> a < Pow(256, ArgWidth(ArgInfo(a))))
      && Enc(x) == RawHead(mt, ArgInfo(a), a) + content
  {
    hide RawHead, HeadBytes, Fit;
    var (mt, a, content) := Parts(x);
    HeadIsRaw(mt, a);
    assert RawHead(mt, ArgInfo(a), a) + [] == RawHead(mt, ArgInfo(a), a);
  }

  /** Major type, argument and content octets. */
  function Parts(x: Item): (r: (nat, nat, bytes))
    requires !x.Simple? && !x.Float?
    ensures r.0 < 7
  {
    match x
    case UInt(n) => (0, n, [])
    case NInt(n) => (1, n, [])
    case Bytes(content) => (2, |content|, content)
    case Text(content) => (3, |content|, content)
    case Array(items) => (4, |items|, EncAll(items))
    case Map(pairs) => (5, |pairs|, EncPairs(pairs))
    case Tag(num, inner) => (6, num, Enc(inner))
  }

  lemma {:induction false} ItemComplete(buf: bytes, start: nat, limit: nat, depth: nat, count: nat, limits: Limits,
      x: Item)
    requires WellFormed(x) && Within(x, depth, count, limits)
    requires HasAt(buf, start, Enc(x)) && start + |Enc(x)| <= limit <= |buf| < TWO_64
    ensures ParseItem(buf, start, limit, depth, count, limits) == Ok(Read(x, start + |Enc(x)|, count + Count(x)))
    decreases x, 0
  {
    if x.Simple? || x.Float? {
      hide ParseItem, ParseItems, ParsePairs, RawHead, ParseMajor7, Enc;
      Major7Complete(x);
      var ai, arg := if x.Float? then x.ai else ArgInfo(x.v), if x.Float? then x.bits else x.v;
      var raw := RawHead(7, ai, arg);
      assert raw + [] == raw;
      ItemFromHead(buf, start, limit, depth, count, limits, 7, ai, arg, []);
      assert ParseMajor7(Head(7, ai, arg, start + |raw|)) == Ok(x);
    } else {
      hide ParseItem, ParseContent, RawHead, Enc;
      EncByHead(x);
      var (mt, a, content) := Parts(x);
      ItemFromHead(buf, start, limit, depth, count, limits, mt, ArgInfo(a), a, content);
      ContentComplete(buf, Head(mt, ArgInfo(a), a, start + |RawHead(mt, ArgInfo(a), a)|), limit, depth, count,
          limits, x);
    }
  }

  lemma {:induction false} ContentComplete(buf: bytes, h: Head, limit: nat, depth: nat, count: nat, limits: Limits,
      x: Item)
    requires WellFormed(x) && Within(x, depth, count, limits) && !x.Simple? && !x.Float? && HeadOk(h)
    requires h.mt == Parts(x).0 && h.arg == Parts(x).1
    requires HasAt(buf, h.contentStart, Parts(x).2) && h.contentStart + |Parts(x).2| <= limit <= |buf| < TWO_64
    ensures ParseContent(buf, h, limit, depth, count + 1, limits) ==
            Ok(Read(x, h.contentStart + |Parts(x).2|, count + Count(x)))
    decreases x, 0, 0
  {
    hide ParseItem, ParseItems, ParsePairs, EncAll, HeightAll, CountAll, AllWellFormed, EncPairs, HeightPairs,
         CountPairs, PairsWellFormed, KeysAscend;
    var p := h.contentStart;
    EmptyMeasures();
    if x.Array? {
      ItemsComplete(buf, p, limit, depth + 1, count + 1, limits, x.items);
    } else if x.Map? {
      PairsComplete(buf, p, limit, None, depth + 1, count + 1, limits, x.pairs);
    } else if x.Tag? {
      hide Enc;
      ItemComplete(buf, p, limit, depth + 1, count + 1, limits, x.inner);
    }
  }

  lemma {:induction false} ItemsComplete(buf: bytes, cp: nat, limit: nat, depth: nat, count: nat, limits: Limits,
      xs: seq<Item>)
    requires AllWellFormed(xs) && WithinAll(xs, depth, count, limits)
    requires HasAt(buf, cp, EncAll(xs)) && cp + |EncAll(xs)| <= limit <= |buf| < TWO_64
    ensures ParseItems(buf, cp, limit, |xs|, depth, count, limits) ==
            Ok(Read(xs, cp + |EncAll(xs)|, count + CountAll(xs)))
    decreases xs, 1
  {
    hide ParseItem, Enc, WellFormed, Height, Count, Within, WithinAll, EncAll, AllWellFormed, CountAll;
    EmptyItems(depth, count, limits);
    if xs != [] {
      assert xs == [xs[0]] + xs[1..];
      ListOf(xs[0], xs[1..]);
      WithinCons(xs[0], xs[1..], depth, count, limits);
      HasAtSplit(buf, cp, Enc(xs[0]), EncAll(xs[1..]));
      ItemComplete(buf, cp, limit, depth, count, limits, xs[0]);
      ItemsComplete(buf, cp + |Enc(xs[0])|, limit, depth, count + Count(xs[0]), limits, xs[1..]);
    }
  }

  lemma {:induction false} PairComplete(buf: bytes, mp: nat, limit: nat, depth: nat, count: nat, limits: Limits,
      p: Pair)
    requires PairWellFormed(p) && Within(p.key, depth, count, limits)
    requires Within(p.val, depth, count + Count(p.key), limits)
    requires HasAt(buf, mp, Enc(p.key)) && HasAt(buf, mp + |Enc(p.key)|, Enc(p.val))
    requires mp + |Enc(p.key)| + |Enc(p.val)| <= limit <= |buf| < TWO_64
    ensures ParseItem(buf, mp, limit, depth, count, limits) == Ok(Read(p.key, mp + |Enc(p.key)|, count + Count(p.key)))
    ensures ParseItem(buf, mp + |Enc(p.key)|, limit, depth, count + Count(p.key), limits) ==
            Ok(Read(p.val, mp + |Enc(p.key)| + |Enc(p.val)|, count + Count(p.key) + Count(p.val)))
    decreases p, 0
  {
    hide ParseItem, Enc, WellFormed, Height, Count, Within;
    ItemComplete(buf, mp, limit, depth, count, limits, p.key);
    ItemComplete(buf, mp + |Enc(p.key)|, limit, depth, count + Count(p.key), limits, p.val);
  }

  lemma {:induction false} PairsComplete(buf: bytes, mp: nat, limit: nat, last: Option<bytes>, depth: nat,
      count: nat, limits: Limits, ps: seq<Pair>)
    requires PairsWellFormed(ps) && WithinPairs(ps, depth, count, limits) && AscendFrom(last, ps)
    requires HasAt(buf, mp, EncPairs(ps)) && mp + |EncPairs(ps)| <= limit <= |buf| < TWO_64
    ensures ParsePairs(buf, mp, limit, |ps|, last, depth, count, limits) ==
            Ok(Read(ps, mp + |EncPairs(ps)|, count + CountPairs(ps)))
    decreases ps, 1
  {
    hide ParseItem, Enc, WellFormed, Height, Count, Within, WithinPairs, EncPairs, PairsWellFormed, CountPairs, Less,
         AscendFrom;
    EmptyItems(depth, count, limits);
    if ps != [] {
      var p := ps[0];
      assert ps == [p] + ps[1..];
      PairsOf(p, ps[1..]);
      WithinPair(p, ps[1..], depth, count, limits);
      AscendCons(last, p, ps[1..]);
      HasAtSplit(buf, mp, Enc(p.key) + Enc(p.val), EncPairs(ps[1..]));
      HasAtSplit(buf, mp, Enc(p.key), Enc(p.val));
      PairComplete(buf, mp, limit, depth, count, limits, p);
      PairsComplete(buf, mp + |Enc(p.key)| + |Enc(p.val)|, limit, Some(Enc(p.key)), depth,
          count + Count(p.key) + Count(p.val), limits, ps[1..]);
    }
  }

  // ---------------------------------------------------------------- the bijection

  /**
   decode accepts an input as an item exactly when the item obeys the profile and the limits and encodes to the input,
   or to a prefix of it when trailing octets are allowed.
   */
  lemma {:induction false} AcceptsExactly(buf: bytes, allowTrailing: bool, limits: Limits, x: Item)
    requires limits.maxBytes < TWO_64
    ensures Parse(buf, allowTrailing, limits) == Ok(Read(x, |Enc(x)|, Count(x))) <==>
            && |buf| <= limits.maxBytes && WellFormed(x) && Within(x, 0, 0, limits)
            && (if allowTrailing then Enc(x) <= buf else Enc(x) == buf)
  {
    hide ParseItem, Enc, WellFormed, Within, Count;
    if |buf| <= limits.maxBytes {
      if ParseItem(buf, 0, |buf|, 0, 0, limits).Ok? { ItemSound(buf, 0, |buf|, 0, 0, limits); }
      if WellFormed(x) && Within(x, 0, 0, limits) && Enc(x) <= buf {
        ItemComplete(buf, 0, |buf|, 0, 0, limits, x);
      }
    }
  }

  /** Re-encoding an accepted item gives the octets it was read from. */
  lemma {:induction false} EncodeOfDecode(buf: bytes, limits: Limits)
    requires limits.maxBytes < TWO_64 && Parse(buf, false, limits).Ok?
    ensures var x := Parse(buf, false, limits).value.item;
      Enc(x) == buf && WellFormed(x) && Height(x) <= limits.maxDepth && Count(x) <= limits.maxItems
  {
    hide ParseItem, Enc, WellFormed, Height, Count;
    ItemSound(buf, 0, |buf|, 0, 0, limits);
    assert buf[0..|buf|] == buf;
  }

  /** No encoding is a proper prefix of another, and no two items share one. */
  lemma {:induction false} PrefixFree(x: Item, y: Item)
    requires WellFormed(x) && WellFormed(y) && |Enc(y)| < TWO_64
    ensures Enc(x) <= Enc(y) <==> x == y
  {
    hide ParseItem, Enc, WellFormed, Height, Count;
    if Enc(x) <= Enc(y) {
      var wide := Limits(TWO_64, Max(Height(x), Height(y)), Max(Count(x), Count(y)));
      ItemComplete(Enc(y), 0, |Enc(y)|, 0, 0, wide, x);
      ItemComplete(Enc(y), 0, |Enc(y)|, 0, 0, wide, y);
    }
  }
}
