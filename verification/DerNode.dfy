/**
 The node tree decode returns: spans and octets of every element, constructed OCTET STRINGs
 reassembled into one primitive content in BER mode, and what these nodes say about the input.
 */
module DerNode {
  import opened Octets
  import opened DerSyntax
  import DerBijection

  /**
   One decoded node. content is null in the source when the node is constructed and children
   is null when it is primitive; both are empty here.
   */
  datatype Node = Node(
    cls: Class,
    constructed: bool,
    tag: nat,
    start: nat,
    contentStart: nat,
    contentEnd: nat,
    content: bytes,
    children: seq<Node>,
    octets: bytes,
    ber: bool)

  /** The contents of a list of nodes, joined in order. */
  function Contents(nodes: seq<Node>): bytes {
    if nodes == [] then [] else nodes[0].content + Contents(nodes[1..])
  }

  /** The node of a constructed element with these children. */
  function ConsNode(t: Tlv, at: nat, nodes: seq<Node>, ber: bool): Node
    requires t.Cons?
  {
    var contentStart := at + |HeaderBytes(t.cls, true, t.tag, DerBijection.KidsLength(t.indefinite, t.kids))|;
    var contentEnd := contentStart + |EncAll(t.kids)|;
    if ber && IsOctetString(t) then
      Node(t.cls, false, t.tag, at, contentStart, contentEnd, Contents(nodes), [], Enc(t), false)
    else
      Node(t.cls, true, t.tag, at, contentStart, contentEnd, [], nodes, Enc(t), ber && t.cls == Context)
  }

  /** The node of an element found at an offset. */
  function NodeOf(t: Tlv, at: nat, ber: bool): Node
    decreases t, 0
  {
    match t
    case Prim(cls, tag, content) =>
      var contentStart := at + |HeaderBytes(cls, false, tag, Definite(|content|))|;
      Node(cls, false, tag, at, contentStart, contentStart + |content|, content, [], Enc(t), false)
    case Cons(cls, tag, indefinite, kids) =>
      var contentStart := at + |HeaderBytes(cls, true, tag, DerBijection.KidsLength(indefinite, kids))|;
      ConsNode(t, at, NodesOf(kids, contentStart, ber), ber)
  }

  /** The nodes of elements that follow one another from an offset on. */
  function NodesOf(ts: seq<Tlv>, at: nat, ber: bool): (r: seq<Node>)
    ensures |r| == |ts|
    decreases ts, 1
  {
    if ts == [] then [] else [NodeOf(ts[0], at, ber)] + NodesOf(ts[1..], at + |Enc(ts[0])|, ber)
  }

  lemma {:induction false} NodesOfAppend(ts: seq<Tlv>, u: Tlv, at: nat, ber: bool)
    ensures EncAll(ts + [u]) == EncAll(ts) + Enc(u)
    ensures NodesOf(ts + [u], at, ber) == NodesOf(ts, at, ber) + [NodeOf(u, at + |EncAll(ts)|, ber)]
  {
    hide Enc, NodeOf;
    if ts == [] {
      assert ts + [u] == [u];
      assert EncAll([u]) == Enc(u) + EncAll([]);
      assert NodesOf([u], at, ber) == [NodeOf(u, at, ber)] + NodesOf([], at + |Enc(u)|, ber);
    } else {
      NodesOfAppend(ts[1..], u, at + |Enc(ts[0])|, ber);
      assert (ts + [u])[0] == ts[0] && (ts + [u])[1..] == ts[1..] + [u];
      assert EncAll(ts + [u]) == Enc(ts[0]) + EncAll(ts[1..] + [u]);
    }
  }

  lemma {:induction false} NodesOfIndex(ts: seq<Tlv>, at: nat, ber: bool, i: nat)
    requires i < |ts|
    ensures NodesOf(ts, at, ber)[i] == NodeOf(ts[i], at + |EncAll(ts[..i])|, ber)
  {
    hide Enc, NodeOf;
    if i == 0 {
      assert ts[..0] == [];
    } else {
      NodesOfIndex(ts[1..], at + |Enc(ts[0])|, ber, i - 1);
      assert ts[1..][..i - 1] == ts[..i][1..];
    }
  }

  lemma NodeKind(t: Tlv, at: nat, ber: bool)
    ensures NodeOf(t, at, ber).cls == t.cls && NodeOf(t, at, ber).tag == t.tag
    ensures NodeOf(t, at, ber).start == at && NodeOf(t, at, ber).octets == Enc(t)
  {
  }
}
