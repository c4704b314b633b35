/**
 The decoder as the source runs it: cursors advanced over the input, children appended in
 loops, an item counter ticked at every element. Each method computes what the function of
 the same name in DerParse.dfy says, and the nodes built are the nodes of the tree read.
 */
module DerDecoder {
  import opened Wrappers
  import opened Octets
  import opened DerSyntax
  import opened DerParse
  import opened DerNode
  import opened DerBijection
  import opened DerHeaders

  /** The shared cap on decoded elements. */
  class Counter {
    const max: nat
    var n: nat

    constructor (max: nat)
      ensures this.max == max && n == 0
    {
      this.max := max;
      n := 0;
    }

    /** Counts one element; false is the source's throw. */
    method Tick() returns (ok: bool)
      modifies this
      ensures n == old(n) + 1 && ok == (n <= max)
    {
      n := n + 1;
      ok := n <= max;
    }
  }

  method ReadTag(buf: bytes, start: nat, limit: nat) returns (r: Result<(nat, nat), DerError>)
    requires start < limit <= |buf|
    ensures r == ParseTag(buf, start, limit)
  {
    var p := start + 1;
    var tagNumber: nat := buf[start] % 32;
    if tagNumber == 31 {
      tagNumber := 0;
      var seen := 0;
      while true
        invariant start < p <= limit
        invariant ParseHighTag(buf, start + 1, limit, 0, 0) == ParseHighTag(buf, p, limit, tagNumber, seen)
        decreases limit - p
      {
        if p >= limit { return Err(Truncated); }
        var tb := buf[p];
        p := p + 1;
        if seen == 0 && tb == 0x80 { return Err(NonMinimalTag); }
        tagNumber := tagNumber * 128 + tb % 128;
        seen := seen + 1;
        if seen > 4 { return Err(TagTooLarge); }
        if tb < 128 { break; }
      }
      if tagNumber < 31 { return Err(NonMinimalTag); }
    }
    r := Ok((tagNumber, p));
  }

  method ReadLength(buf: bytes, start: nat, limit: nat, indefiniteAllowed: bool)
    returns (r: Result<(Length, nat), DerError>)
    requires start <= limit <= |buf|
    ensures r == ParseLength(buf, start, limit, indefiniteAllowed)
  {
    if start >= limit { return Err(Truncated); }
    var lenByte := buf[start];
    var p := start + 1;
    if lenByte < 0x80 { return Ok((Definite(lenByte), p)); }
    if lenByte == 0x80 {
      if !indefiniteAllowed { return Err(IndefiniteLength); }
      return Ok((Indefinite, p));
    }
    var numLenBytes := lenByte - 128;
    if numLenBytes > 6 { return Err(LengthTooLarge); }
    if p + numLenBytes > limit { return Err(Truncated); }
    if buf[p] == 0 { return Err(NonMinimalLength); }
    var length: nat := 0;
    for i := 0 to numLenBytes
      invariant length == ParseLongLength(buf, p, i)
    {
      length := length * 256 + buf[p + i];
    }
    p := p + numLenBytes;
    if length < 128 { return Err(NonMinimalLength); }
    r := Ok((Definite(length), p));
  }

  method ReadHeader(buf: bytes, start: nat, limit: nat, ber: bool, strDepth: nat, limits: Limits)
    returns (r: Result<Header, DerError>)
    requires start <= limit <= |buf|
    ensures r == ParseHeader(buf, start, limit, ber, strDepth, limits)
  {
    hide ParseTag, ParseLength;
    if start >= limit { return Err(Truncated); }
    var cls := ClassOf(buf[start]);
    var constructed := buf[start] / 32 % 2 == 1;
    var tagAndEnd := ReadTag(buf, start, limit);
    if tagAndEnd.Err? { return Err(tagAndEnd.error); }
    var (tag, p) := tagAndEnd.value;
    if cls == Universal && Reserved(tag) { return Err(ReservedTag); }
    if cls == Universal && ConstructedOnly(tag) && !constructed { return Err(BadTlv); }
    var strDepth' := strDepth;
    if cls == Universal && constructed && !ConstructedOnly(tag) {
      if !(ber && tag == OCTET_STRING) { return Err(ConstructedPrimitiveType); }
      strDepth' := strDepth + 1;
      if strDepth' > limits.maxStringNesting { return Err(BadConstructedString); }
    }
    var lenAndEnd := ReadLength(buf, p, limit, ber && constructed);
    if lenAndEnd.Err? { return Err(lenAndEnd.error); }
    var (len, contentStart) := lenAndEnd.value;
    if len.Definite? && contentStart + len.n > limit { return Err(Truncated); }
    r := Ok(Header(cls, constructed, tag, strDepth', len, contentStart));
  }

  /** What remains to be read, put after the trees already read. */
  ghost function After(ts: seq<Tlv>, rest: Result<Read<seq<Tlv>>, DerError>): Result<Read<seq<Tlv>>, DerError> {
    match rest
    case Err(e) => Err(e)
    case Ok(r) => Ok(Read(ts + r.item, r.end, r.count))
  }

  lemma AfterStep(ts: seq<Tlv>, u: Tlv, rest: Result<Read<seq<Tlv>>, DerError>)
    ensures After(ts, After([u], rest)) == After(ts + [u], rest)
  {
    match rest
    case Err(_) =>
    case Ok(r) => assert ts + ([u] + r.item) == ts + [u] + r.item;
  }

  /** The elements of a definite-length constructed value, appended one by one. */
  method DecodeKids(buf: bytes, contentStart: nat, contentEnd: nat, depth: nat, ber: bool, strDepth: nat,
      limits: Limits, ctr: Counter)
    returns (r: Result<seq<Node>, DerError>, ghost ts: seq<Tlv>)
    requires contentStart <= contentEnd <= |buf| && ctr.max == limits.maxItems
    modifies ctr
    ensures match ParseKids(buf, contentStart, contentEnd, depth, ber, strDepth, old(ctr.n), limits)
      case Err(e) => r == Err(e)
      case Ok(x) => ts == x.item && r == Ok(NodesOf(ts, contentStart, ber)) && ctr.n == x.count
    decreases contentEnd - contentStart, 1
  {
    hide ParseTlv, NodeOf, Enc;
    ghost var whole := ParseKids(buf, contentStart, contentEnd, depth, ber, strDepth, ctr.n, limits);
    var children: seq<Node> := [];
    var cp := contentStart;
    ts := [];
    assert whole == After(ts, whole) by {
      if whole.Ok? { assert [] + whole.value.item == whole.value.item; }
    }
    while cp < contentEnd
      invariant contentStart <= cp <= contentEnd && cp == contentStart + |EncAll(ts)|
      invariant children == NodesOf(ts, contentStart, ber)
      invariant whole == After(ts, ParseKids(buf, cp, contentEnd, depth, ber, strDepth, ctr.n, limits))
    {
      ghost var before := ctr.n;
      var child := DecodeTlv(buf, cp, contentEnd, depth, ber, strDepth, limits, ctr);
      if child.Err? { return Err(child.error), ts; }
      ghost var first := ParseTlv(buf, cp, contentEnd, depth, ber, strDepth, before, limits).value;
      TlvSound(buf, cp, contentEnd, depth, ber, strDepth, before, limits);
      NodesOfAppend(ts, first.item, contentStart, ber);
      AfterStep(ts, first.item, ParseKids(buf, first.end, contentEnd, depth, ber, strDepth, first.count, limits));
      children := children + [child.value.0];
      cp := child.value.1;
      ts := ts + [first.item];
    }
    assert ts + [] == ts;
    r := Ok(children);
  }

  /** The elements of an indefinite-length value; the offset returned is that of the end-of-contents pair. */
  method DecodeUntilEnd(buf: bytes, contentStart: nat, limit: nat, depth: nat, ber: bool, strDepth: nat,
      limits: Limits, ctr: Counter)
    returns (r: Result<(seq<Node>, nat), DerError>, ghost ts: seq<Tlv>)
    requires contentStart <= limit <= |buf| && ctr.max == limits.maxItems
    modifies ctr
    ensures match ParseUntilEnd(buf, contentStart, limit, depth, ber, strDepth, old(ctr.n), limits)
      case Err(e) => r == Err(e)
      case Ok(x) => ts == x.item && r == Ok((NodesOf(ts, contentStart, ber), x.end)) && ctr.n == x.count
    decreases limit - contentStart, 1
  {
    hide ParseTlv, NodeOf, Enc;
    ghost var whole := ParseUntilEnd(buf, contentStart, limit, depth, ber, strDepth, ctr.n, limits);
    var children: seq<Node> := [];
    var cp := contentStart;
    ts := [];
    assert whole == After(ts, whole) by {
      if whole.Ok? { assert [] + whole.value.item == whole.value.item; }
    }
    while true
      invariant contentStart <= cp <= limit && cp == contentStart + |EncAll(ts)|
      invariant children == NodesOf(ts, contentStart, ber)
      invariant whole == After(ts, ParseUntilEnd(buf, cp, limit, depth, ber, strDepth, ctr.n, limits))
      decreases limit - cp
    {
      if cp + 2 > limit { return Err(Truncated), ts; }
      if buf[cp] == 0 && buf[cp + 1] == 0 { break; }
      ghost var before := ctr.n;
      var child := DecodeTlv(buf, cp, limit, depth, ber, strDepth, limits, ctr);
      if child.Err? { return Err(child.error), ts; }
      ghost var first := ParseTlv(buf, cp, limit, depth, ber, strDepth, before, limits).value;
      TlvSound(buf, cp, limit, depth, ber, strDepth, before, limits);
      NodesOfAppend(ts, first.item, contentStart, ber);
      AfterStep(ts, first.item, ParseUntilEnd(buf, first.end, limit, depth, ber, strDepth, first.count, limits));
      children := children + [child.value.0];
      cp := child.value.1;
      ts := ts + [first.item];
    }
    assert ts + [] == ts;
    r := Ok((children, cp));
  }

  predicate IsSegment(n: Node) {
    n.cls == Universal && n.tag == OCTET_STRING
  }

  /** The segments of a constructed OCTET STRING: an error unless all are OCTET STRINGs, else their contents joined. */
  method Reassemble(children: seq<Node>) returns (r: Result<bytes, DerError>)
    ensures r == if AllSegments(children) then Ok(Contents(children)) else Err(BadConstructedString)
  {
    var joined: bytes := [];
    assert children[0..] == children;
    for s := 0 to |children|
      invariant forall i :: 0 <= i < s ==> IsSegment(children[i])
      invariant joined + Contents(children[s..]) == Contents(children)
    {
      if !IsSegment(children[s]) { return Err(BadConstructedString); }
      assert children[s..][1..] == children[s + 1..];
      joined := joined + children[s].content;
    }
    assert joined + [] == joined;
    r := Ok(joined);
  }

  predicate AllSegments(nodes: seq<Node>) {
    forall i :: 0 <= i < |nodes| ==> IsSegment(nodes[i])
  }

  lemma SegmentAt(ts: seq<Tlv>, at: nat, ber: bool, i: nat)
    requires i < |ts|
    ensures IsSegment(NodesOf(ts, at, ber)[i]) <==> IsOctetString(ts[i])
  {
    hide NodesOf, NodeOf, Enc, EncAll;
    NodesOfIndex(ts, at, ber, i);
    NodeKind(ts[i], at + |EncAll(ts[..i])|, ber);
  }

  lemma SegmentsCheck(ts: seq<Tlv>, at: nat, ber: bool)
    ensures AllOctetStrings(ts) <==> AllSegments(NodesOf(ts, at, ber))
  {
    hide NodesOf, IsSegment, IsOctetString;
    forall i | 0 <= i < |ts|
      ensures IsSegment(NodesOf(ts, at, ber)[i]) <==> IsOctetString(ts[i])
    {
      SegmentAt(ts, at, ber, i);
    }
  }

  /** The node of an element just read, in the offsets its header gives. */
  lemma NodeOfRead(buf: bytes, start: nat, limit: nat, depth: nat, ber: bool, strDepth: nat, count: nat, limits: Limits)
    requires start <= limit <= |buf|
    requires ParseTlv(buf, start, limit, depth, ber, strDepth, count, limits).Ok?
    ensures var h := ParseHeader(buf, start, limit, ber, strDepth, limits).value;
      var r := ParseTlv(buf, start, limit, depth, ber, strDepth, count, limits).value;
      && Enc(r.item) == buf[start..r.end]
      && NodeOf(r.item, start, ber) ==
         (if !h.constructed then
            var end := h.contentStart + h.len.n;
            Node(h.cls, false, h.tag, start, h.contentStart, end, buf[h.contentStart..end], [],
                buf[start..r.end], false)
          else
            var kids := ParseBody(buf, h, limit, depth + 1, ber, count + 1, limits).value;
            var nodes := NodesOf(kids.item, h.contentStart, ber);
            if ber && IsOctetString(r.item) then
              Node(h.cls, false, h.tag, start, h.contentStart, kids.end, Contents(nodes), [], buf[start..r.end], false)
            else
              Node(h.cls, true, h.tag, start, h.contentStart, kids.end, [], nodes, buf[start..r.end],
                  ber && h.cls == Context))
  {
    hide ParseHeader, HeaderBytes, FormOk, ParseKids, ParseUntilEnd, NodesOf, EncAll, Enc, WellFormed;
    HeaderSound(buf, start, limit, ber, strDepth, limits);
    TlvSound(buf, start, limit, depth, ber, strDepth, count, limits);
    var h := ParseHeader(buf, start, limit, ber, strDepth, limits).value;
    if h.constructed {
      BodySound(buf, h, limit, depth + 1, ber, count + 1, limits);
    }
  }

  /** One element: header, then content or children, then the node. */
  method DecodeTlv(buf: bytes, start: nat, limit: nat, depth: nat, ber: bool, strDepth: nat, limits: Limits,
      ctr: Counter)
    returns (r: Result<(Node, nat), DerError>)
    requires start <= limit <= |buf| && ctr.max == limits.maxItems
    modifies ctr
    ensures match ParseTlv(buf, start, limit, depth, ber, strDepth, old(ctr.n), limits)
      case Err(e) => r == Err(e)
      case Ok(x) => r == Ok((NodeOf(x.item, start, ber), x.end)) && ctr.n == x.count
    decreases limit - start, 0
  {
    hide ParseHeader, HeaderBytes, ParseKids, ParseUntilEnd, NodesOf, NodeOf, EncAll, Enc, Contents, AllOctetStrings,
         AllSegments;
    if depth > limits.maxDepth { return Err(TooDeep); }
    var ok := ctr.Tick();
    if !ok { return Err(TooManyItems); }
    var header := ReadHeader(buf, start, limit, ber, strDepth, limits);
    if header.Err? { return Err(header.error); }
    var h := header.value;
    if !h.constructed {
      var end := h.contentStart + h.len.n;
      if ParseTlv(buf, start, limit, depth, ber, strDepth, old(ctr.n), limits).Ok? {
        NodeOfRead(buf, start, limit, depth, ber, strDepth, old(ctr.n), limits);
      }
      return Ok((Node(h.cls, false, h.tag, start, h.contentStart, end, buf[h.contentStart..end], [], buf[start..end],
          false), end));
    }
    r := DecodeConstructed(buf, start, h, limit, depth, ber, strDepth, limits, ctr);
  }

  /** The children of a constructed element whose header has been read and counted, then its node. */
  method DecodeConstructed(buf: bytes, start: nat, h: Header, limit: nat, depth: nat, ber: bool, strDepth: nat,
      limits: Limits, ctr: Counter)
    returns (r: Result<(Node, nat), DerError>)
    requires start < h.contentStart <= limit <= |buf| && ctr.max == limits.maxItems && h.constructed
    requires depth <= limits.maxDepth && 1 <= ctr.n <= limits.maxItems
    requires ParseHeader(buf, start, limit, ber, strDepth, limits) == Ok(h)
    modifies ctr
    ensures match ParseTlv(buf, start, limit, depth, ber, strDepth, old(ctr.n) - 1, limits)
      case Err(e) => r == Err(e)
      case Ok(x) => r == Ok((NodeOf(x.item, start, ber), x.end)) && ctr.n == x.count
    decreases limit - h.contentStart, 2
  {
    hide ParseHeader, HeaderBytes, ParseKids, ParseUntilEnd, NodesOf, NodeOf, EncAll, Enc, Contents, AllOctetStrings,
         AllSegments;
    if ParseTlv(buf, start, limit, depth, ber, strDepth, ctr.n - 1, limits).Ok? {
      NodeOfRead(buf, start, limit, depth, ber, strDepth, ctr.n - 1, limits);
    }
    var node, end;
    var contentEnd, children;
    ghost var ts;
    if h.len.Indefinite? {
      var kids;
      kids, ts := DecodeUntilEnd(buf, h.contentStart, limit, depth + 1, ber, h.strDepth, limits, ctr);
      if kids.Err? { return Err(kids.error); }
      children, contentEnd := kids.value.0, kids.value.1;
      end := contentEnd + 2;
    } else {
      contentEnd := h.contentStart + h.len.n;
      var kids;
      kids, ts := DecodeKids(buf, h.contentStart, contentEnd, depth + 1, ber, h.strDepth, limits, ctr);
      if kids.Err? { return Err(kids.error); }
      children := kids.value;
      end := contentEnd;
    }
    SegmentsCheck(ts, h.contentStart, ber);
    if ber && h.cls == Universal && h.tag == OCTET_STRING {
      var content := Reassemble(children);
      if content.Err? { return Err(content.error); }
      node := Node(h.cls, false, h.tag, start, h.contentStart, contentEnd, content.value, [], buf[start..end], false);
    } else {
      node := Node(h.cls, true, h.tag, start, h.contentStart, contentEnd, [], children, buf[start..end],
          ber && h.cls == Context);
    }
    r := Ok((node, end));
  }

  /** The root node of what was parsed. */
  function Root(parsed: Result<Read<Tlv>, DerError>, ber: bool): Result<Node, DerError> {
    match parsed
    case Err(e) => Err(e)
    case Ok(x) => Ok(NodeOf(x.item, 0, ber))
  }

  /** decode: size cap, one element, trailing octets refused unless allowed. */
  method Decode(buf: bytes, ber: bool, allowTrailing: bool, limits: Limits) returns (r: Result<Node, DerError>)
    ensures r == Root(Parse(buf, ber, allowTrailing, limits), ber)
  {
    hide ParseTlv, NodeOf;
    if |buf| > limits.maxBytes { return Err(TooLarge); }
    var ctr := new Counter(limits.maxItems);
    var one := DecodeTlv(buf, 0, |buf|, 0, ber, 0, limits, ctr);
    if one.Err? { return Err(one.error); }
    if !allowTrailing && one.value.1 != |buf| { return Err(TrailingBytes); }
    r := Ok(one.value.0);
  }
}
