/** Where the nodes of a decoded CBOR item lie in the input: children fill their parent's content, in order. */
module CborSpans {
  import opened Octets
  import opened CborSyntax
  import opened CborParse
  import opened CborDecoder

  /** Nodes that follow one another from an offset to another. */
  predicate Tile(ns: seq<Node>, from: nat, to: nat) {
    if ns == [] then from == to else ns[0].start == from && Tile(ns[1..], ns[0].end, to)
  }

  /** Keys and values in turn. */
  function Flat(ps: seq<NodePair>): seq<Node> {
    if ps == [] then [] else [ps[0].key, ps[0].val] + Flat(ps[1..])
  }

  /** A node's octets and content are those of its span, its parts fill its content, and so for each part. */
  predicate Spans(n: Node, buf: bytes)
    decreases n, 0
  {
    && n.start < n.end <= |buf| && n.start <= n.contentStart <= n.end
    && n.octets == buf[n.start..n.end]
    && (n.mt == 2 || n.mt == 3 ==> n.content == buf[n.contentStart..n.end])
    && (n.mt == 4 || n.mt == 6 ==> Tile(n.children, n.contentStart, n.end))
    && (n.mt == 5 ==> Tile(Flat(n.pairs), n.contentStart, n.end))
    && AllSpan(n.children, buf) && PairsSpan(n.pairs, buf)
  }

  predicate AllSpan(ns: seq<Node>, buf: bytes)
    decreases ns, 1
  {
    ns == [] || (Spans(ns[0], buf) && AllSpan(ns[1..], buf))
  }

  predicate PairsSpan(ps: seq<NodePair>, buf: bytes)
    decreases ps, 1
  {
    ps == [] || (PairSpans(ps[0], buf) && PairsSpan(ps[1..], buf))
  }

  predicate PairSpans(p: NodePair, buf: bytes)
    decreases p, 0
  {
    Spans(p.key, buf) && Spans(p.val, buf)
  }

  lemma BodyIsLast(x: Item)
    ensures Enc(x)[|Enc(x)| - |BodyOf(x)|..] == BodyOf(x)
  {
    hide HeadBytes, FloatBytes, EncAll, EncPairs;
  }

  lemma NodeEnds(x: Item, at: nat)
    ensures var n := NodeOf(x, at);
      n.start == at && n.contentStart == BodyStart(x, at) && n.end == at + |Enc(x)| && n.octets == Enc(x)
  {
    hide Enc, BodyOf;
  }

  /** The parts of an item's node are the nodes of its parts, from the start of its content on. */
  lemma NodeParts(x: Item, at: nat)
    ensures var n, p := NodeOf(x, at), BodyStart(x, at);
      match x
      case Bytes(content) => n.mt == 2 && n.content == content && n.children == [] && n.pairs == []
      case Text(content) => n.mt == 3 && n.content == content && n.children == [] && n.pairs == []
      case Array(items) => n.mt == 4 && n.children == NodesOf(items, p) && n.pairs == []
      case Map(pairs) => n.mt == 5 && n.children == [] && n.pairs == PairNodes(pairs, p)
      case Tag(_, inner) => n.mt == 6 && n.children == [NodeOf(inner, p)] && n.pairs == []
      case _ => (n.mt <= 1 || n.mt == 7) && n.children == [] && n.pairs == []
  {
    hide Enc, BodyOf, BodyStart, NodesOf, PairNodes;
  }

  /** An item in a buffer has its body there, behind its head. */
  lemma BodyInside(x: Item, at: nat, buf: bytes)
    requires HasAt(buf, at, Enc(x))
    ensures at <= BodyStart(x, at) && HasAt(buf, BodyStart(x, at), BodyOf(x))
  {
    BodyIsLast(x);
    hide Enc, BodyOf;
    var head := Enc(x)[..|Enc(x)| - |BodyOf(x)|];
    assert Enc(x) == head + BodyOf(x);
    HasAtSplit(buf, at, head, BodyOf(x));
  }

  lemma NodeOctetsAt(x: Item, at: nat, buf: bytes)
    requires HasAt(buf, at, Enc(x))
    ensures var n := NodeOf(x, at);
      && n.start == at && n.start < n.end <= |buf| && n.start <= n.contentStart <= n.end
      && n.octets == buf[n.start..n.end] && BodyOf(x) == buf[n.contentStart..n.end]
      && n.contentStart == BodyStart(x, at) && n.end == n.contentStart + |BodyOf(x)|
  {
    NodeEnds(x, at);
    BodyInside(x, at, buf);
    hide NodeOf, BodyOf;
  }

  lemma LeafSpans(x: Item, at: nat, buf: bytes)
    requires HasAt(buf, at, Enc(x)) && !x.Array? && !x.Map? && !x.Tag?
    ensures Spans(NodeOf(x, at), buf)
  {
    NodeParts(x, at);
    NodeOctetsAt(x, at, buf);
    NothingSpans(buf);
    hide Enc, NodeOf, Tile, AllSpan, PairsSpan, HasAt;
  }

  lemma ListSpans(x: Item, at: nat, buf: bytes)
    requires HasAt(buf, at, Enc(x)) && (x.Array? || x.Tag?)
    requires var n := NodeOf(x, at);
      AllSpan(n.children, buf) && Tile(n.children, n.contentStart, n.contentStart + |BodyOf(x)|)
    ensures Spans(NodeOf(x, at), buf)
  {
    NodeParts(x, at);
    NodeOctetsAt(x, at, buf);
    NothingSpans(buf);
    hide Enc, BodyOf, BodyStart, NodeOf, NodesOf, PairNodes, Tile, AllSpan, PairsSpan, HasAt;
  }

  lemma MapSpans(x: Item, at: nat, buf: bytes)
    requires HasAt(buf, at, Enc(x)) && x.Map?
    requires var n := NodeOf(x, at);
      PairsSpan(n.pairs, buf) && Tile(Flat(n.pairs), n.contentStart, n.contentStart + |BodyOf(x)|)
    ensures Spans(NodeOf(x, at), buf)
  {
    NodeParts(x, at);
    NodeOctetsAt(x, at, buf);
    NothingSpans(buf);
    hide Enc, BodyOf, BodyStart, NodeOf, NodesOf, PairNodes, Tile, Flat, AllSpan, PairsSpan, HasAt;
  }

  lemma {:induction false} NodeSpans(x: Item, at: nat, buf: bytes)
    requires HasAt(buf, at, Enc(x))
    ensures Spans(NodeOf(x, at), buf)
    decreases x, 0
  {
    hide Enc, EncAll, EncPairs, NodesOf, PairNodes, NodeOf, Tile, AllSpan, PairsSpan, Flat, HasAt, Spans, BodyStart;
    var p := BodyStart(x, at);
    NodeEnds(x, at);
    BodyInside(x, at, buf);
    if x.Array? {
      NodeParts(x, at);
      NodesSpan(x.items, p, buf);
      ListSpans(x, at, buf);
    } else if x.Map? {
      NodeParts(x, at);
      PairNodesSpan(x.pairs, p, buf);
      MapSpans(x, at, buf);
    } else if x.Tag? {
      NodeParts(x, at);
      OneSpans(x.inner, p, buf);
      ListSpans(x, at, buf);
    } else {
      LeafSpans(x, at, buf);
    }
  }

  lemma NothingSpans(buf: bytes)
    ensures AllSpan([], buf) && PairsSpan([], buf)
  {
  }

  lemma {:induction false} OneSpans(x: Item, at: nat, buf: bytes)
    requires HasAt(buf, at, Enc(x))
    ensures AllSpan([NodeOf(x, at)], buf) && Tile([NodeOf(x, at)], at, at + |Enc(x)|)
    decreases x, 1
  {
    NodeSpans(x, at, buf);
    NodeEnds(x, at);
    hide NodeOf, Spans, Enc;
    var ns := [NodeOf(x, at)];
    assert ns[1..] == [];
  }

  lemma {:induction false} NodesSpan(xs: seq<Item>, at: nat, buf: bytes)
    requires HasAt(buf, at, EncAll(xs))
    ensures AllSpan(NodesOf(xs, at), buf) && Tile(NodesOf(xs, at), at, at + |EncAll(xs)|)
    decreases xs, 1
  {
    hide NodeOf, Spans, Enc;
    if xs != [] {
      HasAtSplit(buf, at, Enc(xs[0]), EncAll(xs[1..]));
      NodeSpans(xs[0], at, buf);
      NodeEnds(xs[0], at);
      NodesSpan(xs[1..], at + |Enc(xs[0])|, buf);
      assert NodesOf(xs, at)[1..] == NodesOf(xs[1..], at + |Enc(xs[0])|);
    }
  }

  lemma {:induction false} PairNodeSpans(p: Pair, at: nat, buf: bytes)
    requires HasAt(buf, at, EncPair(p))
    ensures PairSpans(PairNode(p, at), buf)
    decreases p, 0
  {
    hide Enc, NodeOf, Spans;
    HasAtSplit(buf, at, Enc(p.key), Enc(p.val));
    NodeSpans(p.key, at, buf);
    NodeSpans(p.val, at + |Enc(p.key)|, buf);
  }

  lemma {:induction false} PairNodesSpan(ps: seq<Pair>, at: nat, buf: bytes)
    requires HasAt(buf, at, EncPairs(ps))
    ensures PairsSpan(PairNodes(ps, at), buf) && Tile(Flat(PairNodes(ps, at)), at, at + |EncPairs(ps)|)
    decreases ps, 1
  {
    hide NodeOf, PairSpans, Enc, EncPairs, PairNodes;
    if ps == [] {
      NoNodes(at);
    } else {
      var next := at + |EncPair(ps[0])|;
      PairNodesFirst(ps, at);
      EncPairsFirst(ps);
      HasAtSplit(buf, at, EncPair(ps[0]), EncPairs(ps[1..]));
      PairNodeSpans(ps[0], at, buf);
      PairNodesSpan(ps[1..], next, buf);
      var first, rest := PairNode(ps[0], at), PairNodes(ps[1..], next);
      NodeEnds(ps[0].key, at);
      NodeEnds(ps[0].val, at + |Enc(ps[0].key)|);
      TileTwo(first.key, first.val, Flat(rest), next, at + |EncPairs(ps)|);
      assert PairNodes(ps, at)[1..] == rest;
    }
  }

  lemma EncPairsFirst(ps: seq<Pair>)
    requires ps != []
    ensures EncPairs(ps) == EncPair(ps[0]) + EncPairs(ps[1..])
  {
  }

  lemma TileTwo(a: Node, b: Node, rest: seq<Node>, next: nat, to: nat)
    requires b.start == a.end && b.end == next && Tile(rest, next, to)
    ensures Tile([a, b] + rest, a.start, to)
  {
    var ns := [a, b] + rest;
    assert ns[1..] == [b] + rest && ns[1..][1..] == rest;
  }

  /** The nodes of an accepted input tile it: the root from its start, to its end unless more may follow. */
  lemma DecodedSpans(buf: bytes, allowTrailing: bool, limits: Limits)
    requires limits.maxBytes < TWO_64 && Root(Parse(buf, allowTrailing, limits)).Ok?
    ensures var n := Root(Parse(buf, allowTrailing, limits)).value;
      Spans(n, buf) && n.start == 0 && (allowTrailing || n.end == |buf|)
  {
    hide NodeOf, Enc, Spans, ParseItem;
    var r := Parse(buf, allowTrailing, limits).value;
    ItemEnds(buf, 0, |buf|, 0, 0, limits);
    NodeSpans(r.item, 0, buf);
    NodeEnds(r.item, 0);
  }
}
