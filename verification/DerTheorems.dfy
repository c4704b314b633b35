/**
 What the DER codec promises, stated over every input: strict decoding and encoding are
 mutually inverse, BER mode conservatively extends it and reassembles OCTET STRINGs, and the
 spans of the decoded nodes account for every octet.
 */
module DerTheorems {
  import opened Wrappers
  import opened Octets
  import opened DerSyntax
  import opened DerParse
  import opened DerNode
  import opened DerBijection

  // ---------------------------------------------------------------- values and octets

  /** The value a node carries: class, tag, and content or children; offsets and octets forgotten. */
  function ValueOf(n: Node): Tlv
    decreases n, 0
  {
    if n.constructed then Cons(n.cls, n.tag, false, ValuesOf(n.children)) else Prim(n.cls, n.tag, n.content)
  }

  function ValuesOf(ns: seq<Node>): seq<Tlv>
    decreases ns, 1
  {
    if ns == [] then [] else [ValueOf(ns[0])] + ValuesOf(ns[1..])
  }

  /** Strictly well-formed trees are recovered from their nodes. */
  lemma {:induction false} ValueOfNode(t: Tlv, at: nat)
    requires WellFormed(t, false)
    ensures ValueOf(NodeOf(t, at, false)) == t
    decreases t, 0
  {
    hide HeaderBytes, Enc;
    match t
    case Prim(_, _, _) =>
    case Cons(cls, tag, indefinite, kids) =>
      ValuesOfNodes(kids, at + |HeaderBytes(cls, true, tag, KidsLength(indefinite, kids))|);
  }

  lemma {:induction false} ValuesOfNodes(ts: seq<Tlv>, at: nat)
    requires AllWellFormed(ts, false)
    ensures ValuesOf(NodesOf(ts, at, false)) == ts
    decreases ts, 1
  {
    hide HeaderBytes, Enc, ValueOf, NodeOf, WellFormed;
    if ts != [] {
      var rest := NodesOf(ts[1..], at + |Enc(ts[0])|, false);
      ValueOfNode(ts[0], at);
      ValuesOfNodes(ts[1..], at + |Enc(ts[0])|);
      assert NodesOf(ts, at, false)[1..] == rest;
      assert ts == [ts[0]] + ts[1..];
    }
  }

  /** Decoding the encoding of a value gives a node carrying that value. */
  lemma {:induction false} DecodeOfEncode(t: Tlv, limits: Limits)
    requires WellFormed(t, false) && Within(t, 0, 0, 0, limits)
    requires |Enc(t)| <= limits.maxBytes < TWO_48
    ensures Parse(Enc(t), false, false, limits).Ok?
    ensures ValueOf(NodeOf(Parse(Enc(t), false, false, limits).value.item, 0, false)) == t
  {
    AcceptsExactly(Enc(t), false, false, limits, t);
    ValueOfNode(t, 0);
  }

  /** Encoding the value of an accepted input gives that input, octet for octet. */
  lemma {:induction false} EncodeOfDecode(buf: bytes, limits: Limits)
    requires Parse(buf, false, false, limits).Ok?
    ensures Enc(ValueOf(NodeOf(Parse(buf, false, false, limits).value.item, 0, false))) == buf
  {
    hide ParseTlv, Enc, WellFormed, Within;
    TlvSound(buf, 0, |buf|, 0, false, 0, 0, limits);
    ValueOfNode(Parse(buf, false, false, limits).value.item, 0);
    assert buf[0..|buf|] == buf;
  }

  /** No value has two accepted encodings. */
  lemma {:induction false} OneEncodingPerValue(a: bytes, b: bytes, la: Limits, lb: Limits)
    requires Parse(a, false, false, la).Ok? && Parse(b, false, false, lb).Ok?
    requires ValueOf(NodeOf(Parse(a, false, false, la).value.item, 0, false)) ==
             ValueOf(NodeOf(Parse(b, false, false, lb).value.item, 0, false))
    ensures a == b
  {
    hide Parse, NodeOf, ValueOf, Enc;
    EncodeOfDecode(a, la);
    EncodeOfDecode(b, lb);
  }

  /** No accepted input is a proper prefix of another, in either mode. */
  lemma {:induction false} AcceptedPrefixFree(a: bytes, b: bytes, ber: bool, la: Limits, lb: Limits)
    requires Parse(a, ber, false, la).Ok? && Parse(b, ber, false, lb).Ok?
    requires |b| < TWO_48
    ensures a <= b ==> a == b
  {
    hide ParseTlv, Enc, WellFormed, Within;
    TlvSound(a, 0, |a|, 0, ber, 0, 0, la);
    TlvSound(b, 0, |b|, 0, ber, 0, 0, lb);
    assert a[0..|a|] == a && b[0..|b|] == b;
    PrefixFree(Parse(a, ber, false, la).value.item, Parse(b, ber, false, lb).value.item, ber);
  }

  // ---------------------------------------------------------------- BER mode

  lemma {:induction false} StrictIsBer(t: Tlv)
    requires WellFormed(t, false)
    ensures WellFormed(t, true)
    decreases t, 0
  {
    if t.Cons? { AllStrictIsBer(t.kids); }
  }

  lemma {:induction false} AllStrictIsBer(ts: seq<Tlv>)
    requires AllWellFormed(ts, false)
    ensures AllWellFormed(ts, true)
    decreases ts, 1
  {
    hide WellFormed;
    if ts != [] {
      StrictIsBer(ts[0]);
      AllStrictIsBer(ts[1..]);
    }
  }

  /** A node without its BER marks. */
  function Unmarked(n: Node): Node
    decreases n, 0
  {
    n.(ber := false, children := AllUnmarked(n.children))
  }

  function AllUnmarked(ns: seq<Node>): (r: seq<Node>)
    decreases ns, 1
  {
    if ns == [] then [] else [Unmarked(ns[0])] + AllUnmarked(ns[1..])
  }

  lemma {:induction false} UnmarkedNode(t: Tlv, at: nat)
    requires WellFormed(t, false)
    ensures Unmarked(NodeOf(t, at, true)) == NodeOf(t, at, false)
    decreases t, 0
  {
    hide HeaderBytes, Enc;
    match t
    case Prim(_, _, _) =>
    case Cons(cls, tag, indefinite, kids) =>
      AllUnmarkedNodes(kids, at + |HeaderBytes(cls, true, tag, KidsLength(indefinite, kids))|);
  }

  lemma {:induction false} AllUnmarkedNodes(ts: seq<Tlv>, at: nat)
    requires AllWellFormed(ts, false)
    ensures AllUnmarked(NodesOf(ts, at, true)) == NodesOf(ts, at, false)
    decreases ts, 1
  {
    hide HeaderBytes, Enc, Unmarked, NodeOf, WellFormed;
    if ts != [] {
      UnmarkedNode(ts[0], at);
      AllUnmarkedNodes(ts[1..], at + |Enc(ts[0])|);
      assert NodesOf(ts, at, true)[1..] == NodesOf(ts[1..], at + |Enc(ts[0])|, true);
    }
  }

  /** What strict mode accepts, BER mode accepts with the same node up to the BER marks. */
  lemma {:induction false} BerExtendsStrict(buf: bytes, allowTrailing: bool, limits: Limits)
    requires limits.maxBytes < TWO_48
    requires Parse(buf, false, allowTrailing, limits).Ok?
    ensures Parse(buf, true, allowTrailing, limits) == Parse(buf, false, allowTrailing, limits)
    ensures var t := Parse(buf, false, allowTrailing, limits).value.item;
      Unmarked(NodeOf(t, 0, true)) == NodeOf(t, 0, false)
  {
    hide ParseTlv, Enc, WellFormed, Within, Count;
    TlvSound(buf, 0, |buf|, 0, false, 0, 0, limits);
    var t := Parse(buf, false, allowTrailing, limits).value.item;
    StrictIsBer(t);
    AcceptsExactly(buf, false, allowTrailing, limits, t);
    AcceptsExactly(buf, true, allowTrailing, limits, t);
    UnmarkedNode(t, 0);
  }

  /** The primitive contents below an element, in order. */
  function Leaves(t: Tlv): bytes
    decreases t, 0
  {
    match t
    case Prim(_, _, content) => content
    case Cons(_, _, _, kids) => AllLeaves(kids)
  }

  function AllLeaves(ts: seq<Tlv>): bytes
    decreases ts, 1
  {
    if ts == [] then [] else Leaves(ts[0]) + AllLeaves(ts[1..])
  }

  /** An OCTET STRING of any nesting and any mix of length forms reads as its leaves in order. */
  lemma {:induction false} OctetStringContent(t: Tlv, at: nat)
    requires WellFormed(t, true) && IsOctetString(t)
    ensures !NodeOf(t, at, true).constructed && NodeOf(t, at, true).content == Leaves(t)
    decreases t, 0
  {
    hide HeaderBytes, Enc;
    match t
    case Prim(_, _, _) =>
    case Cons(cls, tag, indefinite, kids) =>
      SegmentContents(kids, at + |HeaderBytes(cls, true, tag, KidsLength(indefinite, kids))|);
  }

  lemma {:induction false} SegmentContents(ts: seq<Tlv>, at: nat)
    requires AllWellFormed(ts, true) && AllOctetStrings(ts)
    ensures Contents(NodesOf(ts, at, true)) == AllLeaves(ts)
    decreases ts, 1
  {
    hide HeaderBytes, Enc, WellFormed, NodeOf, Leaves;
    if ts != [] {
      OctetStringContent(ts[0], at);
      SegmentContents(ts[1..], at + |Enc(ts[0])|);
      assert NodesOf(ts, at, true)[1..] == NodesOf(ts[1..], at + |Enc(ts[0])|, true);
    }
  }

  /** Every constructed OCTET STRING encoding within the limits decodes, in BER mode, to its leaves. */
  lemma {:induction false} BerOctetStringRead(t: Tlv, limits: Limits)
    requires WellFormed(t, true) && IsOctetString(t) && Within(t, 0, 0, 0, limits)
    requires |Enc(t)| <= limits.maxBytes < TWO_48
    ensures Parse(Enc(t), true, false, limits).Ok?
    ensures NodeOf(Parse(Enc(t), true, false, limits).value.item, 0, true).content == Leaves(t)
  {
    AcceptsExactly(Enc(t), true, false, limits, t);
    OctetStringContent(t, 0);
  }

  datatype ReadError = UnexpectedTag | ExpectedPrimitive | BadSegment

  predicate IsPlainSegment(n: Node) {
    n.cls == Universal && n.tag == OCTET_STRING && !n.constructed
  }

  /** readOctetStringImplicit: a context-tagged OCTET STRING, reassembled when it was read as BER. */
  method ReadOctetStringImplicit(node: Node, tag: nat) returns (r: Result<bytes, ReadError>)
    ensures node.cls != Context || node.tag != tag ==> r == Err(UnexpectedTag)
    ensures node.cls == Context && node.tag == tag ==>
      r == if !node.constructed then Ok(node.content)
           else if !node.ber then Err(ExpectedPrimitive)
           else if forall i :: 0 <= i < |node.children| ==> IsPlainSegment(node.children[i]) then
             Ok(Contents(node.children))
           else Err(BadSegment)
  {
    if node.cls != Context || node.tag != tag { return Err(UnexpectedTag); }
    if node.constructed && node.ber {
      var joined: bytes := [];
      assert node.children[0..] == node.children;
      for s := 0 to |node.children|
        invariant forall i :: 0 <= i < s ==> IsPlainSegment(node.children[i])
        invariant joined + Contents(node.children[s..]) == Contents(node.children)
      {
        if !IsPlainSegment(node.children[s]) { return Err(BadSegment); }
        assert node.children[s..][1..] == node.children[s + 1..];
        joined := joined + node.children[s].content;
      }
      assert joined + [] == joined;
      return Ok(joined);
    }
    if node.constructed { return Err(ExpectedPrimitive); }
    r := Ok(node.content);
  }

  lemma {:induction false} PlainSegments(ts: seq<Tlv>, at: nat, i: nat)
    requires AllWellFormed(ts, true) && AllOctetStrings(ts) && i < |ts|
    ensures IsPlainSegment(NodesOf(ts, at, true)[i])
  {
    hide HeaderBytes, Enc, WellFormed, NodeOf;
    NodesOfIndex(ts, at, true, i);
    AllWellFormedAt(ts, true, i);
    OctetStringContent(ts[i], at + |EncAll(ts[..i])|);
    NodeKind(ts[i], at + |EncAll(ts[..i])|, true);
  }

  lemma {:induction false} AllWellFormedAt(ts: seq<Tlv>, ber: bool, i: nat)
    requires AllWellFormed(ts, ber) && i < |ts|
    ensures WellFormed(ts[i], ber)
  {
    hide WellFormed;
    if i > 0 { AllWellFormedAt(ts[1..], ber, i - 1); }
  }

  /**
   An IMPLICIT tag over a constructed OCTET STRING reads as its leaves: the children pass every check of the reader.
   */
  lemma {:induction false} ImplicitOctetStringContent(t: Tlv, at: nat)
    requires WellFormed(t, true) && t.Cons? && t.cls == Context && AllOctetStrings(t.kids)
    ensures var n := NodeOf(t, at, true);
      && n.constructed && n.ber && Contents(n.children) == Leaves(t)
      && forall i :: 0 <= i < |n.children| ==> IsPlainSegment(n.children[i])
  {
    hide HeaderBytes, Enc, NodesOf, IsPlainSegment;
    var n := NodeOf(t, at, true);
    SegmentContents(t.kids, n.contentStart);
    forall i | 0 <= i < |n.children| ensures IsPlainSegment(n.children[i]) {
      PlainSegments(t.kids, n.contentStart, i);
    }
  }

  // ---------------------------------------------------------------- spans

  /** Every element takes at least two octets of its own. */
  lemma {:induction false} TwoOctetsEach(t: Tlv)
    ensures 2 * Count(t) <= |Enc(t)|
    decreases t, 0
  {
    hide HeaderBytes;
    match t
    case Prim(cls, tag, content) =>
    case Cons(cls, tag, indefinite, kids) =>
      EncOfCons(cls, tag, indefinite, kids);
      hide Enc;
      TwoOctetsEachOf(kids);
  }

  lemma {:induction false} TwoOctetsEachOf(ts: seq<Tlv>)
    ensures 2 * CountAll(ts) <= |EncAll(ts)|
    decreases ts, 1
  {
    hide Enc, Count;
    if ts != [] {
      TwoOctetsEach(ts[0]);
      TwoOctetsEachOf(ts[1..]);
    }
  }

  /** Decoded elements are at most half the octets and at most the item cap; nesting is at most the depth cap. */
  lemma {:induction false} DecodedSize(buf: bytes, ber: bool, limits: Limits)
    requires Parse(buf, ber, false, limits).Ok?
    ensures var r := Parse(buf, ber, false, limits).value;
      && r.count == Count(r.item) && 2 * r.count <= |buf| && r.count <= limits.maxItems
      && Height(r.item) <= limits.maxDepth
  {
    hide ParseTlv, Enc, WellFormed, Count, Height;
    TlvSound(buf, 0, |buf|, 0, ber, 0, 0, limits);
    TwoOctetsEach(Parse(buf, ber, false, limits).value.item);
  }

  function NodeEnd(n: Node): nat {
    n.start + |n.octets|
  }

  /** Nodes that follow one another without gap or overlap from one offset to another. */
  predicate Tile(ns: seq<Node>, from: nat, to: nat) {
    if ns == [] then from == to else ns[0].start == from && Tile(ns[1..], NodeEnd(ns[0]), to)
  }

  /** A node's octets and content are the ranges its offsets give; its children tile its content. */
  predicate SpansOk(n: Node, buf: bytes)
    decreases n, 0
  {
    && n.start + 2 <= n.contentStart <= n.contentEnd <= NodeEnd(n) <= |buf|
    && n.octets == buf[n.start..NodeEnd(n)]
    && NodeEnd(n) == n.contentEnd
    && (n.constructed ==> Tile(n.children, n.contentStart, n.contentEnd) && AllSpansOk(n.children, buf))
    && (!n.constructed ==> n.content == buf[n.contentStart..n.contentEnd])
  }

  predicate AllSpansOk(ns: seq<Node>, buf: bytes)
    decreases ns, 1
  {
    ns == [] || (SpansOk(ns[0], buf) && AllSpansOk(ns[1..], buf))
  }

  lemma {:induction false} NodesTile(ts: seq<Tlv>, at: nat)
    ensures Tile(NodesOf(ts, at, false), at, at + |EncAll(ts)|)
  {
    hide Enc, NodeOf;
    if ts != [] {
      NodeKind(ts[0], at, false);
      NodesTile(ts[1..], at + |Enc(ts[0])|);
      assert NodesOf(ts, at, false)[1..] == NodesOf(ts[1..], at + |Enc(ts[0])|, false);
    }
  }

  lemma PrimSpans(cls: Class, tag: nat, content: bytes, at: nat, buf: bytes)
    requires HasAt(buf, at, Enc(Prim(cls, tag, content)))
    ensures SpansOk(NodeOf(Prim(cls, tag, content), at, false), buf)
  {
    hide HeaderBytes, Tile, AllSpansOk;
    HasAtSplit(buf, at, HeaderBytes(cls, false, tag, Definite(|content|)), content);
  }

  /** A constructed node whose children tile its content and are right themselves is right. */
  lemma ConsSpans(t: Tlv, at: nat, buf: bytes)
    requires t.Cons? && !t.indefinite && HasAt(buf, at, Enc(t))
    requires var from := at + |HeaderBytes(t.cls, true, t.tag, KidsLength(false, t.kids))|;
      var nodes := NodesOf(t.kids, from, false);
      Tile(nodes, from, from + |EncAll(t.kids)|) && AllSpansOk(nodes, buf)
    ensures SpansOk(NodeOf(t, at, false), buf)
  {
    hide HeaderBytes, Enc, NodesOf, EncAll, AllSpansOk, Tile, Contents;
    EncOfCons(t.cls, t.tag, t.indefinite, t.kids);
    assert EncAll(t.kids) + [] == EncAll(t.kids);
  }

  lemma {:induction false} StrictSpans(t: Tlv, at: nat, buf: bytes)
    requires WellFormed(t, false) && HasAt(buf, at, Enc(t))
    ensures SpansOk(NodeOf(t, at, false), buf)
    decreases t, 0
  {
    if t.Prim? {
      PrimSpans(t.cls, t.tag, t.content, at, buf);
    } else {
      hide WellFormed, HasAt, HeaderBytes, Enc, NodeOf, NodesOf, EncAll, AllWellFormed, AllSpansOk, Tile, SpansOk;
      ConsStrict(t);
      var from := at + |HeaderBytes(t.cls, true, t.tag, KidsLength(false, t.kids))|;
      ConsContent(t, at, buf);
      NodesTile(t.kids, from);
      StrictSpansOf(t.kids, from, buf);
      ConsSpans(t, at, buf);
    }
  }

  /** The children of an element stand right after its header. */
  lemma ConsContent(t: Tlv, at: nat, buf: bytes)
    requires t.Cons? && !t.indefinite && HasAt(buf, at, Enc(t))
    ensures HasAt(buf, at + |HeaderBytes(t.cls, true, t.tag, KidsLength(false, t.kids))|, EncAll(t.kids))
  {
    hide HasAt, HeaderBytes, Enc, EncAll;
    EncOfCons(t.cls, t.tag, t.indefinite, t.kids);
    assert EncAll(t.kids) + [] == EncAll(t.kids);
    HasAtSplit(buf, at, HeaderBytes(t.cls, true, t.tag, KidsLength(false, t.kids)), EncAll(t.kids));
  }

  lemma ConsStrict(t: Tlv)
    requires WellFormed(t, false) && t.Cons?
    ensures !t.indefinite && AllWellFormed(t.kids, false) && t == Cons(t.cls, t.tag, false, t.kids)
  {
    hide AllWellFormed, FormOk;
  }

  lemma {:induction false} StrictSpansOf(ts: seq<Tlv>, at: nat, buf: bytes)
    requires AllWellFormed(ts, false) && HasAt(buf, at, EncAll(ts))
    ensures AllSpansOk(NodesOf(ts, at, false), buf)
    decreases ts, 1
  {
    hide Enc, NodeOf, SpansOk, WellFormed;
    if ts != [] {
      HasAtSplit(buf, at, Enc(ts[0]), EncAll(ts[1..]));
      StrictSpans(ts[0], at, buf);
      StrictSpansOf(ts[1..], at + |Enc(ts[0])|, buf);
      assert NodesOf(ts, at, false)[1..] == NodesOf(ts[1..], at + |Enc(ts[0])|, false);
    }
  }

  /** Header octets of a node and of everything below it. */
  function HeaderOctets(n: Node): int
    decreases n, 0
  {
    n.contentStart - n.start + HeaderOctetsOf(n.children)
  }

  function HeaderOctetsOf(ns: seq<Node>): int
    decreases ns, 1
  {
    if ns == [] then 0 else HeaderOctets(ns[0]) + HeaderOctetsOf(ns[1..])
  }

  /** Content octets of the primitive nodes. */
  function ContentOctets(n: Node): nat
    decreases n, 0
  {
    |n.content| + ContentOctetsOf(n.children)
  }

  function ContentOctetsOf(ns: seq<Node>): nat
    decreases ns, 1
  {
    if ns == [] then 0 else ContentOctets(ns[0]) + ContentOctetsOf(ns[1..])
  }

  lemma {:induction false} OctetsAccounted(t: Tlv, at: nat)
    requires WellFormed(t, false)
    ensures HeaderOctets(NodeOf(t, at, false)) + ContentOctets(NodeOf(t, at, false)) == |Enc(t)|
    decreases t, 0
  {
    hide HeaderBytes, FormOk;
    match t
    case Prim(cls, tag, content) =>
    case Cons(cls, tag, indefinite, kids) =>
      EncOfCons(cls, tag, indefinite, kids);
      hide Enc, NodesOf;
      OctetsAccountedOf(kids, at + |HeaderBytes(cls, true, tag, KidsLength(indefinite, kids))|);
  }

  lemma {:induction false} OctetsAccountedOf(ts: seq<Tlv>, at: nat)
    requires AllWellFormed(ts, false)
    ensures HeaderOctetsOf(NodesOf(ts, at, false)) + ContentOctetsOf(NodesOf(ts, at, false)) == |EncAll(ts)|
    decreases ts, 1
  {
    hide Enc, NodeOf, HeaderOctets, ContentOctets, WellFormed;
    if ts != [] {
      OctetsAccounted(ts[0], at);
      OctetsAccountedOf(ts[1..], at + |Enc(ts[0])|);
      assert NodesOf(ts, at, false)[1..] == NodesOf(ts[1..], at + |Enc(ts[0])|, false);
    }
  }

  /** In strict mode the spans of the decoded nodes account for every octet of the input. */
  lemma {:induction false} DecodedSpans(buf: bytes, limits: Limits)
    requires Parse(buf, false, false, limits).Ok?
    ensures var n := NodeOf(Parse(buf, false, false, limits).value.item, 0, false);
      && n.start == 0 && NodeEnd(n) == |buf| && SpansOk(n, buf)
      && HeaderOctets(n) + ContentOctets(n) == |buf|
  {
    hide ParseTlv, Enc, WellFormed, NodeOf, SpansOk, HeaderOctets, ContentOctets;
    TlvSound(buf, 0, |buf|, 0, false, 0, 0, limits);
    var t := Parse(buf, false, false, limits).value.item;
    StrictSpans(t, 0, buf);
    OctetsAccounted(t, 0);
    NodeKind(t, 0, false);
  }
}
