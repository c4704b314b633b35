/**
 _decodeItem as the source runs it: a cursor, a shared item count, children appended in
 loops. Each method computes what the function of CborParse.dfy says and builds the node of
 the item read.
 */
module CborDecoder {
  import opened Wrappers
  import opened Octets
  import opened Radix
  import opened BigEndian
  import opened CborFloat
  import opened CborSyntax
  import opened CborParse
  import opened CborBijection
  import Utf8

  /**
   A decoded node: head fields, content, children or key/value pairs, where its head and its content start and where
   it ends, and its own octets.
   */
  datatype Node = Node(mt: nat, ai: nat, arg: nat, content: bytes, children: seq<Node>, pairs: seq<NodePair>,
      start: nat, contentStart: nat, end: nat, octets: bytes)

  datatype NodePair = NodePair(key: Node, val: Node)

  /** The octets of an item behind its head. */
  function BodyOf(x: Item): (r: bytes)
    ensures |r| <= |Enc(x)|
  {
    match x
    case Bytes(content) => content
    case Text(content) => content
    case Array(items) => EncAll(items)
    case Map(pairs) => EncPairs(pairs)
    case Tag(_, inner) => Enc(inner)
    case _ => []
  }

  /** Where the content of an item starts that starts at an offset. */
  function BodyStart(x: Item, at: nat): (r: nat)
    ensures r + |BodyOf(x)| == at + |Enc(x)|
  {
    at + |Enc(x)| - |BodyOf(x)|
  }

  /** The node of an item that starts at an offset. */
  function NodeOf(x: Item, at: nat): Node
    decreases x, 0
  {
    var p, end := BodyStart(x, at), at + |Enc(x)|;
    match x
    case UInt(n) => Node(0, ArgInfo(n), n, [], [], [], at, p, end, Enc(x))
    case NInt(n) => Node(1, ArgInfo(n), n, [], [], [], at, p, end, Enc(x))
    case Bytes(content) => Node(2, ArgInfo(|content|), |content|, content, [], [], at, p, end, Enc(x))
    case Text(content) => Node(3, ArgInfo(|content|), |content|, content, [], [], at, p, end, Enc(x))
    case Array(items) => Node(4, ArgInfo(|items|), |items|, [], NodesOf(items, p), [], at, p, end, Enc(x))
    case Map(pairs) => Node(5, ArgInfo(|pairs|), |pairs|, [], [], PairNodes(pairs, p), at, p, end, Enc(x))
    case Tag(num, inner) => Node(6, ArgInfo(num), num, [], [NodeOf(inner, p)], [], at, p, end, Enc(x))
    case Simple(v) => Node(7, ArgInfo(v), v, [], [], [], at, p, end, Enc(x))
    case Float(ai, bits) => Node(7, ai, bits, [], [], [], at, p, end, Enc(x))
  }

  function NodesOf(xs: seq<Item>, at: nat): (r: seq<Node>)
    ensures |r| == |xs|
    decreases xs, 1
  {
    if xs == [] then [] else [NodeOf(xs[0], at)] + NodesOf(xs[1..], at + |Enc(xs[0])|)
  }

  function PairNode(p: Pair, at: nat): NodePair
    decreases p, 0
  {
    NodePair(NodeOf(p.key, at), NodeOf(p.val, at + |Enc(p.key)|))
  }

  function PairNodes(ps: seq<Pair>, at: nat): (r: seq<NodePair>)
    ensures |r| == |ps|
    decreases ps, 1
  {
    if ps == [] then [] else [PairNode(ps[0], at)] + PairNodes(ps[1..], at + |EncPair(ps[0])|)
  }

  lemma NoNodes(at: nat)
    ensures NodesOf([], at) == [] && EncAll([]) == [] && PairNodes([], at) == [] && EncPairs([]) == []
  {
  }

  lemma NodesFirst(xs: seq<Item>, at: nat)
    requires xs != []
    ensures NodesOf(xs, at) == [NodeOf(xs[0], at)] + NodesOf(xs[1..], at + |Enc(xs[0])|)
    ensures |EncAll(xs)| == |Enc(xs[0])| + |EncAll(xs[1..])|
  {
    hide NodeOf, Enc;
  }

  lemma PairNodesFirst(ps: seq<Pair>, at: nat)
    requires ps != []
    ensures PairNodes(ps, at) == [PairNode(ps[0], at)] + PairNodes(ps[1..], at + |EncPair(ps[0])|)
    ensures |EncPairs(ps)| == |EncPair(ps[0])| + |EncPairs(ps[1..])|
  {
    hide PairNode, EncPair;
  }

  lemma {:induction false} NodesAppend(xs: seq<Item>, x: Item, at: nat)
    ensures NodesOf(xs + [x], at) == NodesOf(xs, at) + [NodeOf(x, at + |EncAll(xs)|)]
    ensures |EncAll(xs + [x])| == |EncAll(xs)| + |Enc(x)|
    decreases |xs|
  {
    hide NodeOf, Enc, NodesOf, EncAll;
    var ys := xs + [x];
    NodesFirst(ys, at);
    NoNodes(at);
    if xs == [] {
      assert ys[0] == x && ys[1..] == [];
      NoNodes(at + |Enc(x)|);
    } else {
      assert ys[0] == xs[0] && ys[1..] == xs[1..] + [x];
      NodesFirst(xs, at);
      NodesAppend(xs[1..], x, at + |Enc(xs[0])|);
    }
  }

  lemma {:induction false} PairNodesAppend(ps: seq<Pair>, p: Pair, at: nat)
    ensures PairNodes(ps + [p], at) == PairNodes(ps, at) + [PairNode(p, at + |EncPairs(ps)|)]
    ensures |EncPairs(ps + [p])| == |EncPairs(ps)| + |EncPair(p)|
    decreases |ps|
  {
    hide PairNode, EncPair, PairNodes, EncPairs;
    var qs := ps + [p];
    PairNodesFirst(qs, at);
    NoNodes(at);
    if ps == [] {
      assert qs[0] == p && qs[1..] == [];
      NoNodes(at + |EncPair(p)|);
    } else {
      assert qs[0] == ps[0] && qs[1..] == ps[1..] + [p];
      PairNodesFirst(ps, at);
      PairNodesAppend(ps[1..], p, at + |EncPair(ps[0])|);
    }
  }

  /** The count of items decoded so far, and its cap. */
  class State {
    var n: nat
    const max: nat

    constructor (max: nat)
      ensures n == 0 && this.max == max
    {
      n := 0;
      this.max := max;
    }
  }

  /** The initial octet and the argument after it. */
  method ReadHead(buf: bytes, start: nat, limit: nat) returns (r: Result<Head, CborError>)
    requires start <= limit <= |buf|
    ensures r == ParseHead(buf, start, limit)
  {
    var p := start;
    if p >= limit { return Err(Truncated); }
    var ib := buf[p];
    p := p + 1;
    var mt, ai := ib / 32, ib % 32;
    if ib == 0xFF { return Err(UnexpectedBreak); }
    if ai == 28 || ai == 29 || ai == 30 { return Err(ReservedAi); }
    if ai == 31 {
      if mt == 2 || mt == 3 || mt == 4 || mt == 5 { return Err(IndefiniteLength); }
      return Err(ReservedAi);
    }
    if ai <= 23 { return Ok(Head(mt, ai, ai, p)); }
    var nBytes := if ai == 24 then 1 else if ai == 25 then 2 else if ai == 26 then 4 else 8;
    if p + nBytes > limit { return Err(Truncated); }
    var argument := ReadBigEndian(buf, p, nBytes);
    p := p + nBytes;
    if mt != 7 {
      var minForWidth := if nBytes == 1 then 24 else if nBytes == 2 then 256 else if nBytes == 4 then 65536
          else 4294967296;
      if argument < minForWidth { return Err(NonMinimalArgument); }
    }
    r := Ok(Head(mt, ai, argument, p));
  }

  /** What remains to be read, put after the items already read. */
  ghost function After<T>(xs: seq<T>, rest: Result<Read<seq<T>>, CborError>): Result<Read<seq<T>>, CborError> {
    match rest
    case Err(e) => Err(e)
    case Ok(r) => Ok(Read(xs + r.item, r.end, r.count))
  }

  lemma AfterStep<T>(xs: seq<T>, x: T, rest: Result<Read<seq<T>>, CborError>)
    ensures After(xs, After([x], rest)) == After(xs + [x], rest)
  {
    match rest
    case Err(_) =>
    case Ok(r) => assert xs + ([x] + r.item) == xs + [x] + r.item;
  }

  lemma AfterNothing<T>(rest: Result<Read<seq<T>>, CborError>)
    ensures After([], rest) == rest
  {
    if rest.Ok? { assert [] + rest.value.item == rest.value.item; }
  }

  lemma ItemEnds(buf: bytes, start: nat, limit: nat, depth: nat, count: nat, limits: Limits)
    requires start <= limit <= |buf| < TWO_64 && ParseItem(buf, start, limit, depth, count, limits).Ok?
    ensures var r := ParseItem(buf, start, limit, depth, count, limits).value;
      buf[start..r.end] == Enc(r.item) && r.end == start + |Enc(r.item)|
  {
    ItemSound(buf, start, limit, depth, count, limits);
  }

  /** The elements of an array, one after another. */
  method DecodeItems(buf: bytes, start: nat, limit: nat, argument: nat, depth: nat, limits: Limits, state: State)
    returns (r: Result<(seq<Node>, nat), CborError>, ghost xs: seq<Item>)
    requires start <= limit <= |buf| < TWO_64 && state.max == limits.maxItems
    modifies state
    ensures match ParseItems(buf, start, limit, argument, depth, old(state.n), limits)
      case Err(e) => r == Err(e)
      case Ok(x) => xs == x.item && r == Ok((NodesOf(xs, start), x.end)) && state.n == x.count
    decreases limit - start, 1
  {
    hide ParseItem, NodeOf, Enc, WellFormed;
    ghost var whole := ParseItems(buf, start, limit, argument, depth, state.n, limits);
    var children: seq<Node> := [];
    var cp := start;
    var i := 0;
    xs := [];
    AfterNothing(whole);
    while i < argument
      invariant 0 <= i <= argument && start <= cp <= limit && children == NodesOf(xs, start)
      invariant cp == start + |EncAll(xs)|
      invariant whole == After(xs, ParseItems(buf, cp, limit, argument - i, depth, state.n, limits))
      decreases argument - i
    {
      ghost var before := state.n;
      var el := DecodeItem(buf, cp, limit, depth, limits, state);
      if el.Err? { return Err(el.error), xs; }
      ghost var first := ParseItem(buf, cp, limit, depth, before, limits).value;
      AfterStep(xs, first.item, ParseItems(buf, first.end, limit, argument - i - 1, depth, first.count, limits));
      ItemEnds(buf, cp, limit, depth, before, limits);
      NodesAppend(xs, first.item, start);
      children := children + [el.value.0];
      cp := el.value.1;
      xs := xs + [first.item];
      i := i + 1;
    }
    assert xs + [] == xs;
    r := Ok((children, cp));
  }

  /** A key and its value, one after the other. */
  function ParsePair(buf: bytes, mp: nat, limit: nat, depth: nat, count: nat,
      limits: Limits): (r: Result<Read<Pair>, CborError>)
    requires mp <= limit <= |buf|
    ensures r.Ok? ==> mp <= r.value.end <= limit
  {
    match ParseItem(buf, mp, limit, depth, count, limits)
    case Err(e) => Err(e)
    case Ok(k) =>
      match ParseItem(buf, k.end, limit, depth, k.count, limits)
      case Err(e) => Err(e)
      case Ok(v) => Ok(Read(Pair(k.item, v.item), v.end, v.count))
  }

  lemma PairsStep(buf: bytes, mp: nat, limit: nat, n: nat, last: Option<bytes>, depth: nat, count: nat, limits: Limits)
    requires mp <= limit <= |buf| < TWO_64 && n > 0
    ensures ParsePairs(buf, mp, limit, n, last, depth, count, limits) ==
      match ParsePair(buf, mp, limit, depth, count, limits)
      case Err(e) => Err(e)
      case Ok(p) =>
        match KeyOrder(last, Enc(p.item.key))
        case Some(e) => Err(e)
        case None =>
          var key := Some(Enc(p.item.key));
          After([p.item], ParsePairs(buf, p.end, limit, n - 1, key, depth, p.count, limits))
  {
    hide ParseItem, KeyOrder, Enc;
    if ParseItem(buf, mp, limit, depth, count, limits).Ok? { ItemEnds(buf, mp, limit, depth, count, limits); }
  }

  method DecodePair(buf: bytes, mp: nat, limit: nat, depth: nat, limits: Limits, state: State)
    returns (r: Result<(NodePair, nat), CborError>)
    requires mp <= limit <= |buf| < TWO_64 && state.max == limits.maxItems
    modifies state
    ensures match ParsePair(buf, mp, limit, depth, old(state.n), limits)
      case Err(e) => r == Err(e)
      case Ok(p) => r == Ok((PairNode(p.item, mp), p.end)) && state.n == p.count && p.end == mp + |EncPair(p.item)|
    decreases limit - mp, 1
  {
    hide ParseItem, NodeOf, Enc;
    ghost var before := state.n;
    var k := DecodeItem(buf, mp, limit, depth, limits, state);
    if k.Err? { return Err(k.error); }
    ItemEnds(buf, mp, limit, depth, before, limits);
    before := state.n;
    var v := DecodeItem(buf, k.value.1, limit, depth, limits, state);
    if v.Err? { return Err(v.error); }
    ItemEnds(buf, k.value.1, limit, depth, before, limits);
    r := Ok((NodePair(k.value.0, v.value.0), v.value.1));
  }

  /** The pairs of a map, each key compared with the one before it. */
  method DecodePairs(buf: bytes, start: nat, limit: nat, argument: nat, depth: nat, limits: Limits, state: State)
    returns (r: Result<(seq<NodePair>, nat), CborError>, ghost ps: seq<Pair>)
    requires start <= limit <= |buf| < TWO_64 && state.max == limits.maxItems
    modifies state
    ensures match ParsePairs(buf, start, limit, argument, None, depth, old(state.n), limits)
      case Err(e) => r == Err(e)
      case Ok(x) => ps == x.item && r == Ok((PairNodes(ps, start), x.end)) && state.n == x.count
    decreases limit - start, 2
  {
    hide ParsePair, ParsePairs, NodeOf, PairNodes, Enc, EncPairs, EncPair, WellFormed, Less, KeyOrder;
    ghost var whole := ParsePairs(buf, start, limit, argument, None, depth, state.n, limits);
    var children: seq<NodePair> := [];
    var last: Option<bytes> := None;
    var mp := start;
    var j := 0;
    ps := [];
    AfterNothing(whole);
    NoNodes(start);
    while j < argument
      invariant 0 <= j <= argument && start <= mp <= limit && children == PairNodes(ps, start)
      invariant mp == start + |EncPairs(ps)|
      invariant whole == After(ps, ParsePairs(buf, mp, limit, argument - j, last, depth, state.n, limits))
      decreases argument - j
    {
      ghost var before := state.n;
      PairsStep(buf, mp, limit, argument - j, last, depth, before, limits);
      var pair := DecodePair(buf, mp, limit, depth, limits, state);
      if pair.Err? { return Err(pair.error), ps; }
      ghost var p := ParsePair(buf, mp, limit, depth, before, limits).value;
      NodeOctets(p.item.key, mp);
      var key := pair.value.0.key.octets;
      if last.Some? {
        OrderOfKeys(last.value, key);
        if Less(key, last.value) { return Err(UnsortedMapKeys), ps; }
        if key == last.value { return Err(DuplicateMapKey), ps; }
      }
      FirstKeyInOrder(key);
      AfterStep(ps, p.item, ParsePairs(buf, p.end, limit, argument - j - 1, Some(key), depth, p.count, limits));
      PairNodesAppend(ps, p.item, start);
      children := children + [pair.value.0];
      last := Some(key);
      mp := pair.value.1;
      ps := ps + [p.item];
      j := j + 1;
    }
    NoPairs(buf, mp, limit, last, depth, state.n, limits);
    assert ps + [] == ps;
    r := Ok((children, mp));
  }

  lemma NoPairs(buf: bytes, mp: nat, limit: nat, last: Option<bytes>, depth: nat, count: nat, limits: Limits)
    requires mp <= limit <= |buf|
    ensures ParsePairs(buf, mp, limit, 0, last, depth, count, limits) == Ok(Read([], mp, count))
  {
  }

  lemma OrderOfKeys(last: bytes, key: bytes)
    ensures KeyOrder(Some(last), key) ==
            if Less(key, last) then Some(UnsortedMapKeys) else if key == last then Some(DuplicateMapKey) else None
  {
    LessTrichotomy(last, key);
  }

  lemma FirstKeyInOrder(key: bytes)
    ensures KeyOrder(None, key) == None
  {
  }

  lemma NodeOctets(x: Item, at: nat)
    ensures NodeOf(x, at).octets == Enc(x)
  {
  }

  /** Simple values and floats; the width checks round to each narrower width and back. */
  method CheckMajor7(h: Head) returns (r: Result<(), CborError>)
    requires HeadOk(h)
    ensures r == match ParseMajor7(h) case Err(e) => Err(e) case Ok(_) => Ok(())
  {
    hide ValueOf, Pow;
    if h.ai <= 23 { return Ok(()); }
    if h.ai == 24 {
      if h.arg < 32 { return Err(ReservedSimple); }
      return Ok(());
    }
    FloatBitsFit(h.ai, h.arg);
    var d := ValueOf(FormatOf(h.ai), h.arg);
    if d == NaN {
      if !(h.ai == 25 && h.arg == 0x7e00) { return Err(NonCanonicalNaN); }
      return Ok(());
    }
    RoundsBackExactly(HALF, d);
    RoundsBackExactly(SINGLE, d);
    hide Rounded, Roundtrips, FormatOf;
    if h.ai == 26 {
      if Rounded(HALF, d) == d { return Err(NonMinimalFloat); }
    } else if h.ai == 27 {
      if Rounded(HALF, d) == d || Rounded(SINGLE, d) == d { return Err(NonMinimalFloat); }
    }
    r := Ok(());
  }

  /** One item: head, then content by major type, then the node. */
  method DecodeItem(buf: bytes, start: nat, limit: nat, depth: nat, limits: Limits, state: State)
    returns (r: Result<(Node, nat), CborError>)
    requires start <= limit <= |buf| < TWO_64 && state.max == limits.maxItems
    modifies state
    ensures match ParseItem(buf, start, limit, depth, old(state.n), limits)
      case Err(e) => r == Err(e)
      case Ok(x) => r == Ok((NodeOf(x.item, start), x.end)) && state.n == x.count
    decreases limit - start, 0
  {
    hide ParseHead, ParseContent;
    if depth > limits.maxDepth { return Err(TooDeep); }
    state.n := state.n + 1;
    if state.n > state.max { return Err(TooManyItems); }
    var head := ReadHead(buf, start, limit);
    if head.Err? { return Err(head.error); }
    var h := head.value;
    RawHeadSound(buf, start, limit);
    r := DecodeContent(buf, start, h, limit, depth, limits, state);
  }

  /** What was read behind a head is the body of the item read. */
  lemma BodyRead(buf: bytes, h: Head, limit: nat, depth: nat, count: nat, limits: Limits)
    requires h.contentStart <= limit <= |buf| < TWO_64 && HeadOk(h)
    requires ParseContent(buf, h, limit, depth, count, limits).Ok?
    ensures var r := ParseContent(buf, h, limit, depth, count, limits).value;
      buf[h.contentStart..r.end] == BodyOf(r.item)
  {
    hide ParseItem, ParseItems, ParsePairs, Enc, WellFormed, EncAll, EncPairs, Utf8.Decode;
    if h.mt == 4 {
      ItemsSound(buf, h.contentStart, limit, h.arg, depth + 1, count, limits);
    } else if h.mt == 5 {
      PairsSound(buf, h.contentStart, limit, h.arg, None, depth + 1, count, limits);
    } else if h.mt == 6 {
      ItemSound(buf, h.contentStart, limit, depth + 1, count, limits);
    }
  }

  /** The node of an item just read, in the fields of its head. */
  lemma NodeOfContent(buf: bytes, start: nat, h: Head, limit: nat, depth: nat, count: nat, limits: Limits)
    requires start < h.contentStart <= limit <= |buf| < TWO_64 && HeadOk(h)
    requires h.mt != 7 ==> h.ai == ArgInfo(h.arg) && h.arg < TWO_64
    requires buf[start..h.contentStart] == RawHead(h.mt, h.ai, h.arg)
    requires depth <= limits.maxDepth && 1 <= count <= limits.maxItems
    requires ParseContent(buf, h, limit, depth, count, limits).Ok?
    ensures var r := ParseContent(buf, h, limit, depth, count, limits).value;
      var x := r.item;
      NodeOf(x, start) == Node(h.mt, h.ai, h.arg,
        if x.Bytes? || x.Text? then x.content else [],
        if x.Array? then NodesOf(x.items, h.contentStart)
        else if x.Tag? then [NodeOf(x.inner, h.contentStart)] else [],
        if x.Map? then PairNodes(x.pairs, h.contentStart) else [],
        start, h.contentStart, r.end, buf[start..r.end])
      && (h.mt == 7 ==> x.Simple? || x.Float?)
  {
    hide ParseItem, ParseItems, ParsePairs, RawHead, Enc, WellFormed, Height, Count, NodesOf, PairNodes, ParseMajor7,
         Utf8.Decode, EncAll, EncPairs;
    BodyRead(buf, h, limit, depth, count, limits);
    hide BodyOf;
    ContentSound(buf, h, limit, depth, count - 1, limits);
    var r := ParseContent(buf, h, limit, depth, count, limits).value;
    assert buf[start..r.end] == buf[start..h.contentStart] + buf[h.contentStart..r.end];
    if h.mt == 7 {
      Major7Node(h, start);
      assert r.item == ParseMajor7(h).value;
    }
  }

  /** The content of an item whose head has been read. */
  method DecodeContent(buf: bytes, start: nat, h: Head, limit: nat, depth: nat, limits: Limits, state: State)
    returns (r: Result<(Node, nat), CborError>)
    requires start < h.contentStart <= limit <= |buf| < TWO_64 && HeadOk(h) && state.max == limits.maxItems
    requires h.mt != 7 ==> h.ai == ArgInfo(h.arg) && h.arg < TWO_64
    requires buf[start..h.contentStart] == RawHead(h.mt, h.ai, h.arg)
    requires depth <= limits.maxDepth && 1 <= state.n <= limits.maxItems
    modifies state
    ensures match ParseContent(buf, h, limit, depth, old(state.n), limits)
      case Err(e) => r == Err(e)
      case Ok(x) => r == Ok((NodeOf(x.item, start), x.end)) && state.n == x.count
    decreases limit - h.contentStart, 3
  {
    hide ParseItem, ParseItems, ParsePairs, RawHead, Enc, WellFormed, NodesOf, NodeOf, PairNodes, ParseMajor7,
         Utf8.Decode;
    if ParseContent(buf, h, limit, depth, state.n, limits).Ok? {
      NodeOfContent(buf, start, h, limit, depth, state.n, limits);
    }
    var p := h.contentStart;
    if h.mt == 0 || h.mt == 1 {
      r := Ok((Node(h.mt, h.ai, h.arg, [], [], [], start, p, p, buf[start..p]), p));
    } else if h.mt == 2 || h.mt == 3 {
      if p + h.arg > limit { return Err(Truncated); }
      var content := buf[p..p + h.arg];
      if h.mt == 3 && Utf8.Decode(content).None? { return Err(BadUtf8); }
      r := Ok((Node(h.mt, h.ai, h.arg, content, [], [], start, p, p + h.arg, buf[start..p + h.arg]), p + h.arg));
    } else if h.mt == 4 {
      var items;
      ghost var xs;
      items, xs := DecodeItems(buf, p, limit, h.arg, depth + 1, limits, state);
      if items.Err? { return Err(items.error); }
      var (nodes, end) := items.value;
      r := Ok((Node(4, h.ai, h.arg, [], nodes, [], start, p, end, buf[start..end]), end));
    } else if h.mt == 5 {
      var pairs;
      ghost var ps;
      pairs, ps := DecodePairs(buf, p, limit, h.arg, depth + 1, limits, state);
      if pairs.Err? { return Err(pairs.error); }
      var (nodes, end) := pairs.value;
      r := Ok((Node(5, h.ai, h.arg, [], [], nodes, start, p, end, buf[start..end]), end));
    } else if h.mt == 6 {
      var inner := DecodeItem(buf, p, limit, depth + 1, limits, state);
      if inner.Err? { return inner; }
      var (node, end) := inner.value;
      r := Ok((Node(6, h.ai, h.arg, [], [node], [], start, p, end, buf[start..end]), end));
    } else {
      var checked := CheckMajor7(h);
      if checked.Err? { return Err(checked.error); }
      r := Ok((Node(7, h.ai, h.arg, [], [], [], start, p, p, buf[start..p]), p));
    }
  }

  lemma Major7Node(h: Head, at: nat)
    requires HeadOk(h) && h.mt == 7 && ParseMajor7(h).Ok?
    ensures var x := ParseMajor7(h).value;
      NodeOf(x, at) == Node(7, h.ai, h.arg, [], [], [], at, at + |Enc(x)|, at + |Enc(x)|, Enc(x))
      && (x.Simple? || x.Float?)
  {
    hide ValueOf, Enc, Pow;
    Widths();
  }

  /** The root node of what was parsed. */
  function Root(parsed: Result<Read<Item>, CborError>): Result<Node, CborError> {
    match parsed
    case Err(e) => Err(e)
    case Ok(x) => Ok(NodeOf(x.item, 0))
  }

  /** decode: size cap, one item, trailing octets refused unless allowed. */
  method Decode(buf: bytes, allowTrailing: bool, limits: Limits) returns (r: Result<Node, CborError>)
    requires limits.maxBytes < TWO_64
    ensures r == Root(Parse(buf, allowTrailing, limits))
  {
    hide ParseItem, NodeOf;
    if |buf| > limits.maxBytes { return Err(TooLarge); }
    var state := new State(limits.maxItems);
    var one := DecodeItem(buf, 0, |buf|, 0, limits, state);
    if one.Err? { return Err(one.error); }
    if !allowTrailing && one.value.1 != |buf| { return Err(TrailingBytes); }
    r := Ok(one.value.0);
  }
}
