/**
 read.mapGet: the keyed lookup over a decoded map. A decoded map is a finite map from
 integers and texts: comparing neighbouring keys while decoding makes every key unique, and
 the scan returns what that finite map holds.
 */
module CborMap {
  import opened Wrappers
  import opened Octets
  import opened CborSyntax
  import opened CborDecoder
  import opened CborRead
  import Utf8

  datatype Key = IntKey(n: int) | TextKey(text: seq<nat>)

  /** The integer or text a key node names; no other node names a key. */
  function KeyOfNode(k: Node): Option<Key> {
    if k.mt == 3 then
      match Utf8.Decode(k.content)
      case None => None
      case Some(text) => Some(TextKey(text))
    else
      match ReadInt(k)
      case Err(_) => None
      case Ok(n) => Some(IntKey(n))
  }

  function KeyOf(x: Item): Option<Key> {
    KeyOfNode(NodeOf(x, 0))
  }

  /** A key names the same integer or text wherever it stands. */
  lemma KeyAnywhere(x: Item, at: nat)
    ensures KeyOfNode(NodeOf(x, at)) == KeyOf(x)
  {
    hide Enc, Utf8.Decode;
  }

  /** The value of the first pair whose key is the one wanted. */
  function FirstMatch(pairs: seq<NodePair>, key: Key): Option<Node> {
    if pairs == [] then None
    else if KeyOfNode(pairs[0].key) == Some(key) then Some(pairs[0].val)
    else FirstMatch(pairs[1..], key)
  }

  /** mapGet: a scan of the pairs; a node that is not a map is an error, not an absent key. */
  method MapGet(node: Node, key: Key) returns (r: Result<Option<Node>, ReadError>)
    ensures r == if node.mt != 5 then Err(UnexpectedMajor) else Ok(FirstMatch(node.pairs, key))
  {
    if node.mt != 5 { return Err(UnexpectedMajor); }
    assert node.pairs[0..] == node.pairs;
    for i := 0 to |node.pairs|
      invariant FirstMatch(node.pairs, key) == FirstMatch(node.pairs[i..], key)
    {
      var k := node.pairs[i].key;
      assert node.pairs[i..][1..] == node.pairs[i + 1..];
      if key.TextKey? {
        if k.mt == 3 && Utf8.Decode(k.content) == Some(key.text) { return Ok(Some(node.pairs[i].val)); }
      } else if k.mt == 0 || k.mt == 1 {
        var n := ReadInt(k);
        if n == Ok(key.n) { return Ok(Some(node.pairs[i].val)); }
      }
    }
    r := Ok(None);
  }

  // ---------------------------------------------------------------- the abstract map

  /** The finite map the pairs describe. */
  function AbstractMap(ps: seq<Pair>): map<Key, Item> {
    if ps == [] then map[]
    else
      var m := AbstractMap(ps[..|ps| - 1]);
      match KeyOf(ps[|ps| - 1].key)
      case None => m
      case Some(k) => m[k := ps[|ps| - 1].val]
  }

  /** Well-formed items that name the same key are the same item. */
  lemma KeyNamesItem(x: Item, y: Item)
    requires WellFormed(x) && WellFormed(y) && KeyOf(x).Some? && KeyOf(x) == KeyOf(y)
    ensures x == y
  {
    hide Enc, Utf8.Decode, Utf8.Encode;
    if x.Text? {
      var text := Utf8.Decode(x.content).value;
      Utf8.Utf8Exactly(x.content, text);
      Utf8.Utf8Exactly(y.content, text);
    }
  }

  /** Each key above its neighbour is above every key before it. */
  lemma {:induction false} KeysAscendApart(ps: seq<Pair>, i: nat, j: nat)
    requires KeysAscend(ps) && i < j < |ps|
    ensures Less(Enc(ps[i].key), Enc(ps[j].key))
    decreases j
  {
    hide Less, Enc;
    assert Less(Enc(ps[j - 1].key), Enc(ps[j - 1 + 1].key));
    if i < j - 1 {
      KeysAscendApart(ps, i, j - 1);
      LessTransitive(Enc(ps[i].key), Enc(ps[j - 1].key), Enc(ps[j].key));
    }
  }

  lemma {:induction false} PairAt(ps: seq<Pair>, i: nat)
    requires PairsWellFormed(ps) && i < |ps|
    ensures PairWellFormed(ps[i])
  {
    hide PairWellFormed;
    if i > 0 { PairAt(ps[1..], i - 1); }
  }

  /** In a decoded map at most one pair has a given integer or text as its key. */
  lemma AtMostOneMatch(ps: seq<Pair>, i: nat, j: nat)
    requires WellFormed(Map(ps)) && i < |ps| && j < |ps|
    requires KeyOf(ps[i].key).Some? && KeyOf(ps[i].key) == KeyOf(ps[j].key)
    ensures i == j
  {
    hide Less, Enc, KeyOf;
    PairAt(ps, i);
    PairAt(ps, j);
    KeyNamesItem(ps[i].key, ps[j].key);
    LessTrichotomy(Enc(ps[i].key), Enc(ps[j].key));
    if i < j { KeysAscendApart(ps, i, j); }
    if j < i { KeysAscendApart(ps, j, i); }
  }

  /** A key is in the finite map exactly when some pair has it, and then the value is that of the last such pair. */
  lemma {:induction false} AbstractMapHolds(ps: seq<Pair>, key: Key) returns (i: int)
    ensures -1 <= i < |ps| && (key in AbstractMap(ps) <==> i >= 0)
    ensures i >= 0 ==> KeyOf(ps[i].key) == Some(key) && AbstractMap(ps)[key] == ps[i].val
    ensures i < 0 ==> forall j :: 0 <= j < |ps| ==> KeyOf(ps[j].key) != Some(key)
  {
    hide KeyOf;
    if ps == [] {
      i := -1;
    } else {
      var n := |ps| - 1;
      i := AbstractMapHolds(ps[..n], key);
      if KeyOf(ps[n].key) == Some(key) {
        i := n;
      } else if i < 0 {
        forall j | 0 <= j < |ps| ensures KeyOf(ps[j].key) != Some(key) {
          if j < n { assert ps[..n][j] == ps[j]; }
        }
      }
    }
  }

  /** Where the value of a pair starts. */
  function ValueAt(ps: seq<Pair>, at: nat, i: nat): nat
    requires i < |ps|
  {
    at + |EncPairs(ps[..i])| + |Enc(ps[i].key)|
  }

  lemma ValueAtRest(ps: seq<Pair>, at: nat, i: nat)
    requires 0 < i < |ps|
    ensures ValueAt(ps, at, i) == ValueAt(ps[1..], at + |EncPair(ps[0])|, i - 1)
  {
    hide Enc, EncPair;
    assert ps[..i][0] == ps[0] && ps[..i][1..] == ps[1..][..i - 1];
  }

  /** The scan stops at the first pair with the key. */
  lemma {:induction false} FirstMatchAt(ps: seq<Pair>, at: nat, key: Key, i: int)
    requires -1 <= i < |ps|
    requires i >= 0 ==> KeyOf(ps[i].key) == Some(key)
    requires forall j :: 0 <= j < |ps| && (i < 0 || j < i) ==> KeyOf(ps[j].key) != Some(key)
    ensures FirstMatch(PairNodes(ps, at), key) ==
            if i < 0 then None else Some(NodeOf(ps[i].val, ValueAt(ps, at, i)))
    decreases |ps|
  {
    hide NodeOf, KeyOfNode, Enc, EncPair, KeyOf;
    if ps != [] {
      assert PairNodes(ps, at)[0] == PairNode(ps[0], at);
      assert PairNodes(ps, at)[1..] == PairNodes(ps[1..], at + |EncPair(ps[0])|);
      KeyAnywhere(ps[0].key, at);
      if i == 0 {
        assert ps[..0] == [] && EncPairs([]) == [];
      } else {
        forall j | 0 <= j < |ps[1..]| && (i < 0 || j < i - 1) ensures KeyOf(ps[1..][j].key) != Some(key) {
          assert ps[1..][j] == ps[j + 1];
        }
        if i > 0 { ValueAtRest(ps, at, i); }
        FirstMatchAt(ps[1..], at + |EncPair(ps[0])|, key, if i < 0 then -1 else i - 1);
      }
    }
  }

  /**
   On a decoded map the lookup is that of the finite map: the node of the value it holds, or null exactly when the key
   is absent.
   */
  lemma MapGetIsLookup(ps: seq<Pair>, at: nat, key: Key)
    requires WellFormed(Map(ps))
    ensures match FirstMatch(NodeOf(Map(ps), at).pairs, key)
      case None => key !in AbstractMap(ps)
      case Some(n) => key in AbstractMap(ps) && n == NodeOf(AbstractMap(ps)[key], n.start)
  {
    hide KeyOf, AbstractMap, FirstMatch, WellFormed, Enc;
    var i := AbstractMapHolds(ps, key);
    var p := BodyStart(Map(ps), at);
    assert NodeOf(Map(ps), at).pairs == PairNodes(ps, p);
    if i >= 0 {
      NodeStart(ps[i].val, ValueAt(ps, p, i));
      forall j | 0 <= j < i ensures KeyOf(ps[j].key) != Some(key) {
        if KeyOf(ps[j].key) == Some(key) { AtMostOneMatch(ps, i, j); }
      }
    }
    hide NodeOf;
    FirstMatchAt(ps, p, key, i);
  }

  lemma NodeStart(x: Item, at: nat)
    ensures NodeOf(x, at).start == at
  {
  }
}
