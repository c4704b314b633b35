/**
 Building the preimage from a decoded structure: the octets of every kept node are copied
 and three headers are written. The result is the encoding of the tree AltSig.dfy describes,
 so what the octets keep and forget is what that tree keeps and forgets.
 */
module AltSigPreimage {
  import opened Wrappers
  import opened Octets
  import opened Radix
  import opened DerSyntax
  import opened DerNode
  import opened DerBijection
  import opened DerOid
  import opened AltSig
  import DerEncoder
  import DerHeaders
  import DerSetOf

  // ---------------------------------------------------------------- nodes and trees

  /** A node strict decoding makes of a tree, at some offset. */
  ghost predicate NodeFor(n: Node, t: Tlv) {
    exists at: nat :: n == NodeOf(t, at, false)
  }

  lemma NodeShape(t: Tlv, at: nat)
    ensures var n := NodeOf(t, at, false);
      && n.constructed == t.Cons? && |n.children| == |KidsOf(t)| && (t.Prim? ==> n.content == t.content)
      && n.children == NodesOf(KidsOf(t), n.contentStart, false)
  {
    hide HeaderBytes, Enc;
  }

  lemma NodeFacts(n: Node, t: Tlv)
    requires NodeFor(n, t)
    ensures n.cls == t.cls && n.tag == t.tag && n.octets == Enc(t) && n.constructed == t.Cons?
    ensures t.Prim? ==> n.content == t.content
    ensures |n.children| == |KidsOf(t)|
    ensures forall i :: 0 <= i < |n.children| ==> NodeFor(n.children[i], KidsOf(t)[i])
  {
    hide NodeOf, Enc, NodesOf;
    var at: nat :| n == NodeOf(t, at, false);
    NodeKind(t, at, false);
    NodeShape(t, at);
    forall i | 0 <= i < |n.children| ensures NodeFor(n.children[i], KidsOf(t)[i]) {
      NodesOfIndex(KidsOf(t), n.contentStart, false, i);
      assert n.children[i] == NodeOf(KidsOf(t)[i], n.contentStart + |EncAll(KidsOf(t)[..i])|, false);
    }
  }

  /** _extOid */
  method ReadExtOid(n: Node, limits: OidLimits, ghost x: Tlv) returns (r: Option<seq<nat>>)
    requires NodeFor(n, x)
    ensures r == ExtOid(x, limits)
  {
    hide NodeOf, DecodeOid, NodeFor;
    NodeFacts(n, x);
    if !n.constructed || |n.children| < 2 { return None; }
    var id := n.children[0];
    NodeFacts(id, x.kids[0]);
    if id.cls != Universal || id.tag != OBJECT_IDENTIFIER || id.constructed { return None; }
    var arcs := DecodeOidContent(id.content, limits);
    r := if arcs.Ok? then Some(arcs.value) else None;
  }

  method NodeIsWrapper(n: Node, extTag: nat, ghost k: Tlv) returns (r: bool)
    requires NodeFor(n, k) && WellFormed(k, false)
    ensures r == IsWrapper(k, extTag)
  {
    hide NodeOf, NodeFor, WellFormed;
    NodeFacts(n, k);
    if n.cls != Context || n.tag != extTag || !n.constructed || |n.children| != 1 { return false; }
    NodeFacts(n.children[0], k.kids[0]);
    r := n.children[0].cls == Universal && n.children[0].tag == SEQUENCE;
  }

  /** _extensionsNode: the extension block found from the last component back. */
  method FindBlock(tbs: Node, extTag: nat, ghost t: Tlv) returns (r: Option<nat>)
    requires NodeFor(tbs, t) && WellFormed(t, false)
    ensures r == BlockIndex(KidsOf(t), extTag, |KidsOf(t)|)
  {
    hide NodeOf, NodeFor, IsWrapper;
    NodeFacts(tbs, t);
    var kids := tbs.children;
    var i := |kids|;
    while i > 0
      invariant 0 <= i <= |kids|
      invariant BlockIndex(KidsOf(t), extTag, |KidsOf(t)|) == BlockIndex(KidsOf(t), extTag, i)
    {
      KidWellFormed(t, i - 1);
      var found := NodeIsWrapper(kids[i - 1], extTag, KidsOf(t)[i - 1]);
      if found { return Some(i - 1); }
      i := i - 1;
    }
    r := None;
  }

  lemma KidWellFormed(t: Tlv, i: nat)
    requires WellFormed(t, false) && i < |KidsOf(t)|
    ensures WellFormed(KidsOf(t)[i], false)
  {
    DerSetOf.WellFormedAt(t.kids, false, i);
  }

  /** The extension nodes of a toBeSigned, with the place of their block. */
  method ExtensionList(tbs: Node, kind: Kind, ghost t: Tlv) returns (block: Option<nat>, items: seq<Node>)
    requires NodeFor(tbs, t) && WellFormed(t, false)
    ensures block == BlockIndex(KidsOf(t), ExtTag(kind), |KidsOf(t)|)
    ensures |items| == |Extensions(kind, t)|
    ensures forall i :: 0 <= i < |items| ==> NodeFor(items[i], Extensions(kind, t)[i])
  {
    hide NodeOf, NodeFor;
    block := FindBlock(tbs, ExtTag(kind), t);
    if block.None? { return block, []; }
    NodeFacts(tbs, t);
    var wrapper := tbs.children[block.value];
    NodeFacts(wrapper, KidsOf(t)[block.value]);
    NodeFacts(wrapper.children[0], KidsOf(t)[block.value].kids[0]);
    items := wrapper.children[0].children;
  }

  /** _findExt: whether an extension carries an OID. */
  method FindExt(items: seq<Node>, oid: seq<nat>, limits: OidLimits, ghost exts: seq<Tlv>) returns (found: bool)
    requires |items| == |exts| && forall i :: 0 <= i < |items| ==> NodeFor(items[i], exts[i])
    ensures found == HasExt(exts, oid, limits)
  {
    hide NodeOf, NodeFor, ExtOid;
    for i := 0 to |items|
      invariant forall j :: 0 <= j < i ==> ExtOid(exts[j], limits) != Some(oid)
    {
      var id := ReadExtOid(items[i], limits, exts[i]);
      if id == Some(oid) { return true; }
    }
    found := false;
  }

  lemma {:induction false} KeptExtsAppend(exts: seq<Tlv>, x: Tlv, limits: OidLimits)
    ensures KeptExts(exts + [x], limits) ==
            KeptExts(exts, limits) + if ExtOid(x, limits) != Some(ALT_SIGNATURE_VALUE) then [x] else []
  {
    hide ExtOid;
    if exts == [] {
      assert exts + [x] == [x];
      assert KeptExts([x], limits) ==
             (if ExtOid(x, limits) != Some(ALT_SIGNATURE_VALUE) then [x] else []) + KeptExts([], limits);
    } else {
      KeptExtsAppend(exts[1..], x, limits);
      assert (exts + [x])[0] == exts[0] && (exts + [x])[1..] == exts[1..] + [x];
    }
  }

  lemma EncAllAppend(ts: seq<Tlv>, u: Tlv)
    ensures EncAll(ts + [u]) == EncAll(ts) + Enc(u)
  {
    NodesOfAppend(ts, u, 0, false);
  }

  /** The octets of the extensions kept, joined in order, and how many they are. */
  method KeepExts(items: seq<Node>, limits: OidLimits, ghost exts: seq<Tlv>) returns (kept: bytes, count: nat)
    requires |items| == |exts| && forall i :: 0 <= i < |items| ==> NodeFor(items[i], exts[i])
    ensures kept == EncAll(KeptExts(exts, limits)) && count == |KeptExts(exts, limits)|
  {
    hide NodeOf, NodeFor, ExtOid, Enc;
    kept, count := [], 0;
    assert exts[..0] == [];
    for i := 0 to |items|
      invariant kept == EncAll(KeptExts(exts[..i], limits)) && count == |KeptExts(exts[..i], limits)|
    {
      assert exts[..i + 1] == exts[..i] + [exts[i]];
      KeptExtsAppend(exts[..i], exts[i], limits);
      var id := ReadExtOid(items[i], limits, exts[i]);
      if id != Some(ALT_SIGNATURE_VALUE) {
        NodeFacts(items[i], exts[i]);
        EncAllAppend(KeptExts(exts[..i], limits), exts[i]);
        kept := kept + items[i].octets;
        count := count + 1;
      }
      assert id == Some(ALT_SIGNATURE_VALUE) ==> KeptExts(exts[..i + 1], limits) == KeptExts(exts[..i], limits);
    }
    assert exts[..|items|] == exts;
  }

  /** The octets of the components kept: all but the signature field and the extension block. */
  method KeepFields(kids: seq<Node>, sig: nat, block: nat, ghost ts: seq<Tlv>) returns (kept: bytes)
    requires |kids| == |ts| && forall i :: 0 <= i < |kids| ==> NodeFor(kids[i], ts[i])
    ensures kept == EncAll(KeptFields(ts, |ts|, sig, block))
  {
    hide NodeOf, NodeFor, Enc;
    kept := [];
    for i := 0 to |kids|
      invariant kept == EncAll(KeptFields(ts, i, sig, block))
    {
      if i != sig && i != block {
        NodeFacts(kids[i], ts[i]);
        EncAllAppend(KeptFields(ts, i, sig, block), ts[i]);
        kept := kept + kids[i].octets;
      } else {
        assert KeptFields(ts, i + 1, sig, block) == KeptFields(ts, i, sig, block);
      }
    }
  }

  // ---------------------------------------------------------------- sizes

  lemma {:induction false} KeptExtsSize(exts: seq<Tlv>, limits: OidLimits)
    ensures |EncAll(KeptExts(exts, limits))| <= |EncAll(exts)|
  {
    hide ExtOid, Enc;
    if exts != [] {
      KeptExtsSize(exts[1..], limits);
      var rest := KeptExts(exts[1..], limits);
      assert ([exts[0]] + rest)[1..] == rest && [] + rest == rest;
    }
  }

  lemma {:induction false} KeptFieldsSize(kids: seq<Tlv>, n: nat, sig: nat, block: nat)
    requires n <= |kids|
    ensures |EncAll(KeptFields(kids, n, sig, block))| <= |EncAll(kids[..n])|
  {
    hide Enc;
    if n > 0 {
      KeptFieldsSize(kids, n - 1, sig, block);
      assert kids[..n] == kids[..n - 1] + [kids[n - 1]];
      EncAllAppend(kids[..n - 1], kids[n - 1]);
      EncAllAppend(KeptFields(kids, n - 1, sig, block), kids[n - 1]);
      assert KeptFields(kids, n - 1, sig, block) + [] == KeptFields(kids, n - 1, sig, block);
    }
  }

  lemma KidsSmaller(t: Tlv)
    ensures |EncAll(KidsOf(t))| <= |Enc(t)|
  {
  }

  lemma ExtensionsSize(kind: Kind, t: Tlv)
    requires WellFormed(t, false)
    ensures |EncAll(Extensions(kind, t))| <= |Enc(t)|
  {
    hide Enc, EncAll;
    KidsSmaller(t);
    var kids := KidsOf(t);
    match BlockIndex(kids, ExtTag(kind), |kids|)
    case None => EncAllNil();
    case Some(i) =>
      DerSetOf.WellFormedAt(kids, false, i);
      KidsSmaller(kids[i]);
      KidWellFormed(kids[i], 0);
      DerSetOf.WellFormedAt(kids[i].kids, false, 0);
      KidsSmaller(kids[i].kids[0]);
  }

  lemma EncAllNil()
    ensures EncAll([]) == []
  {
  }

  lemma ShortLength(n: nat)
    requires n < 0x10_0000_0000_0000
    ensures |Digits(n, 256)| <= 7
  {
    DerHeaders.Pow256_6();
    assert Pow(256, 7) == 256 * Pow(256, 6);
    DigitsLength(n, 256, 7);
  }

  /** The headers written here are at most nine octets. */
  lemma ShortHeader(cls: Class, tag: nat, n: nat)
    requires tag < 31 && n < 0x10_0000_0000_0000
    ensures |HeaderBytes(cls, true, tag, Definite(n))| <= 9
    ensures !(cls == Universal && Reserved(tag)) ==>
      DerEncoder.HeaderOrError(ClassBits(cls), true, tag, n) == Ok(HeaderBytes(cls, true, tag, Definite(n)))
  {
    ShortLength(n);
  }

  lemma EncOfSequence(cls: Class, tag: nat, kids: seq<Tlv>)
    ensures Enc(Cons(cls, tag, false, kids)) == HeaderBytes(cls, true, tag, Definite(|EncAll(kids)|)) + EncAll(kids)
  {
  }

  lemma EncAllOne(t: Tlv)
    ensures EncAll([t]) == Enc(t)
  {
    assert EncAll([t]) == Enc(t) + EncAll([]);
  }

  // ---------------------------------------------------------------- the preimage

  /** Wraps the kept extensions in their SEQUENCE and tag, after the kept fields, in the toBeSigned SEQUENCE. */
  method Rebuild(kind: Kind, fields: bytes, exts: bytes, ghost ft: seq<Tlv>, ghost et: seq<Tlv>) returns (r: bytes)
    requires fields == EncAll(ft) && exts == EncAll(et)
    requires |fields| < TWO_48 && |exts| < TWO_48
    ensures r == Enc(Rebuilt(kind, ft, et))
  {
    hide HeaderBytes, EncAll, Enc, DerEncoder.HeaderOrError;
    ghost var list := Cons(Universal, SEQUENCE, false, et);
    ghost var block := Cons(Context, ExtTag(kind), false, [list]);
    ShortHeader(Universal, SEQUENCE, |exts|);
    EncOfSequence(Universal, SEQUENCE, et);
    assert Concat([exts]) == exts + Concat([]);
    var s := DerEncoder.EncodeConstructed(0, SEQUENCE, [exts]);
    assert s.value == Enc(list);
    ShortHeader(Context, ExtTag(kind), |s.value|);
    EncOfSequence(Context, ExtTag(kind), [list]);
    EncAllOne(list);
    var w := DerEncoder.EncodeTlv(128, true, ExtTag(kind), s.value);
    assert w.value == Enc(block);
    var content := fields + w.value;
    EncAllAppend(ft, block);
    ShortHeader(Universal, SEQUENCE, |content|);
    EncOfSequence(Universal, SEQUENCE, ft + [block]);
    assert Concat([content]) == content + Concat([]);
    var out := DerEncoder.EncodeConstructed(0, SEQUENCE, [content]);
    r := out.value;
  }

  /** The octets of a tree, or the refusal. */
  function Encoded(p: Result<Tlv, AltSigError>): Result<bytes, AltSigError> {
    match p
    case Err(e) => Err(e)
    case Ok(t) => Ok(Enc(t))
  }

  /** _preimage on the decoded root of a structure whose toBeSigned has a component. */
  method Preimage(kind: Kind, root: Node, limits: OidLimits, ghost t: Tlv) returns (r: Result<bytes, AltSigError>)
    requires WellFormed(t, false) && root == NodeOf(t, 0, false) && |Enc(t)| < TWO_48
    requires KidsOf(t) != [] && KidsOf(KidsOf(t)[0]) != []
    ensures r == Encoded(PreTbs(kind, KidsOf(t)[0], limits))
  {
    hide NodeOf, ExtOid, Enc, WellFormed, Rebuilt, HasExt, BlockIndex, IsWrapper, KeptExts, KeptFields, Extensions;
    assert NodeFor(root, t);
    hide NodeFor;
    NodeFacts(root, t);
    KidWellFormed(t, 0);
    var tbs := root.children[0];
    ghost var tbsTree := KidsOf(t)[0];
    NodeFacts(tbs, tbsTree);
    var block, items := ExtensionList(tbs, kind, tbsTree);
    ghost var exts := Extensions(kind, tbsTree);
    var stated := FindExt(items, ALT_SIGNATURE_ALGORITHM, limits, exts);
    if !stated { return Err(Absent); }
    NodeFacts(tbs.children[0], KidsOf(tbsTree)[0]);
    var first := tbs.children[0];
    var sig := match kind
      case Certificate => if first.cls == Context && first.tag == 0 then 2 else 1
      case Crl => if first.cls == Universal && first.tag == INTEGER then 1 else 0;
    if sig >= |tbs.children| { return Err(BadSignatureField); }
    NodeFacts(tbs.children[sig], KidsOf(tbsTree)[sig]);
    if tbs.children[sig].cls != Universal || tbs.children[sig].tag != SEQUENCE { return Err(BadSignatureField); }
    var keptExts, count := KeepExts(items, limits, exts);
    if count == 0 { return Err(EmptyExtensions); }
    var blockAt := if block.Some? then block.value else |tbs.children|;
    var kept := KeepFields(tbs.children, sig, blockAt, KidsOf(tbsTree));
    PreimageSize(kind, t, sig, blockAt, limits);
    var out := Rebuild(kind, kept, keptExts, KeptFields(KidsOf(tbsTree), |KidsOf(tbsTree)|, sig, blockAt),
        KeptExts(exts, limits));
    r := Ok(out);
  }

  lemma PreimageSize(kind: Kind, t: Tlv, sig: nat, block: nat, limits: OidLimits)
    requires WellFormed(t, false) && KidsOf(t) != [] && |Enc(t)| < TWO_48
    ensures var tbs := KidsOf(t)[0];
      && |EncAll(KeptFields(KidsOf(tbs), |KidsOf(tbs)|, sig, block))| < TWO_48
      && |EncAll(KeptExts(Extensions(kind, tbs), limits))| < TWO_48
  {
    hide Enc, EncAll, WellFormed;
    var tbs := KidsOf(t)[0];
    KidsSmaller(t);
    DerSetOf.WellFormedAt(KidsOf(t), false, 0) by { KidsWellFormed(t); }
    KidsSmaller(tbs);
    KeptFieldsSize(KidsOf(tbs), |KidsOf(tbs)|, sig, block);
    assert KidsOf(tbs)[..|KidsOf(tbs)|] == KidsOf(tbs);
    ExtensionsSize(kind, tbs);
    KeptExtsSize(Extensions(kind, tbs), limits);
  }

  lemma KidsWellFormed(t: Tlv)
    requires WellFormed(t, false)
    ensures AllWellFormed(KidsOf(t), false)
  {
  }

  // ---------------------------------------------------------------- what the octets cover

  /** The tree a preimage encodes is well formed, so strict decoding reads it back. */
  lemma {:induction false} PreTbsWellFormed(kind: Kind, t: Tlv, limits: OidLimits)
    requires WellFormed(t, false) && KidsOf(t) != [] && KidsOf(KidsOf(t)[0]) != []
    requires PreTbs(kind, KidsOf(t)[0], limits).Ok?
    ensures WellFormed(PreTbs(kind, KidsOf(t)[0], limits).value, false)
  {
    hide WellFormed, ExtOid, HasExt, IsWrapper, FormOk;
    var tbs := KidsOf(t)[0];
    KidWellFormed(t, 0);
    var kids := KidsOf(tbs);
    KidsWellFormed(tbs);
    ExtensionsWellFormed(kind, tbs);
    KeptExtsWellFormed(Extensions(kind, tbs), limits);
    var block := BlockIndex(kids, ExtTag(kind), |kids|);
    var sig, at := SignatureIndex(kind, kids[0]), if block.Some? then block.value else |kids|;
    KeptFieldsWellFormed(kids, |kids|, sig, at);
    RebuiltWellFormed(kind, KeptFields(kids, |kids|, sig, at), KeptExts(Extensions(kind, tbs), limits));
  }

  lemma ExtensionsWellFormed(kind: Kind, tbs: Tlv)
    requires WellFormed(tbs, false)
    ensures AllWellFormed(Extensions(kind, tbs), false)
  {
    hide WellFormed, AllWellFormed;
    var kids := KidsOf(tbs);
    match BlockIndex(kids, ExtTag(kind), |kids|)
    case None => KidsWellFormed(Prim(Universal, 5, []));
    case Some(i) =>
      KidWellFormed(tbs, i);
      KidWellFormed(kids[i], 0);
      KidsWellFormed(kids[i].kids[0]);
  }

  lemma {:induction false} KeptExtsWellFormed(exts: seq<Tlv>, limits: OidLimits)
    requires AllWellFormed(exts, false)
    ensures AllWellFormed(KeptExts(exts, limits), false)
  {
    hide WellFormed, ExtOid;
    if exts != [] {
      KeptExtsWellFormed(exts[1..], limits);
      var rest := KeptExts(exts[1..], limits);
      assert ([exts[0]] + rest)[1..] == rest && [] + rest == rest;
    }
  }

  lemma {:induction false} AppendWellFormed(ts: seq<Tlv>, u: Tlv)
    ensures AllWellFormed(ts + [u], false) <==> AllWellFormed(ts, false) && WellFormed(u, false)
  {
    hide WellFormed;
    if ts == [] {
      assert ts + [u] == [u] && [u][1..] == [];
    } else {
      AppendWellFormed(ts[1..], u);
      assert (ts + [u])[0] == ts[0] && (ts + [u])[1..] == ts[1..] + [u];
    }
  }

  lemma {:induction false} KeptFieldsWellFormed(kids: seq<Tlv>, n: nat, sig: nat, block: nat)
    requires AllWellFormed(kids, false) && n <= |kids|
    ensures AllWellFormed(KeptFields(kids, n, sig, block), false)
  {
    hide WellFormed, AllWellFormed;
    if n == 0 {
      KidsWellFormed(Prim(Universal, 5, []));
    } else {
      KeptFieldsWellFormed(kids, n - 1, sig, block);
      DerSetOf.WellFormedAt(kids, false, n - 1);
      var before := KeptFields(kids, n - 1, sig, block);
      AppendWellFormed(before, kids[n - 1]);
      assert before + [] == before;
    }
  }

  /** A SEQUENCE, or a constructed element of another class than universal, is well formed when its children are. */
  lemma BlockWellFormed(cls: Class, tag: nat, kids: seq<Tlv>)
    requires AllWellFormed(kids, false) && tag <= MAX_TAG && (cls == Universal ==> tag == SEQUENCE)
    ensures WellFormed(Cons(cls, tag, false, kids), false)
  {
    hide AllWellFormed, AllOctetStrings;
    var t := Cons(cls, tag, false, kids);
    assert !IsOctetString(t);
    assert FormOk(cls, true, tag, false);
  }

  lemma OneWellFormed(t: Tlv)
    requires WellFormed(t, false)
    ensures AllWellFormed([t], false)
  {
    hide WellFormed;
    assert [t][1..] == [];
  }

  lemma RebuiltWellFormed(kind: Kind, fields: seq<Tlv>, exts: seq<Tlv>)
    requires AllWellFormed(fields, false) && AllWellFormed(exts, false)
    ensures WellFormed(Rebuilt(kind, fields, exts), false)
  {
    hide WellFormed, AllWellFormed;
    var list := Cons(Universal, SEQUENCE, false, exts);
    var block := Cons(Context, ExtTag(kind), false, [list]);
    BlockWellFormed(Universal, SEQUENCE, exts);
    OneWellFormed(list);
    BlockWellFormed(Context, ExtTag(kind), [list]);
    AppendWellFormed(fields, block);
    BlockWellFormed(Universal, SEQUENCE, fields + [block]);
  }

  /**
   The octets covered determine, and are determined by, everything but the signature field,
   the altSignatureValue extension and what follows the toBeSigned: two structures of one kind
   have equal preimages exactly when they agree on all other components and extensions, in order.
   */
  lemma {:induction false} PreimageCoversExactly(kind: Kind, a: Tlv, b: Tlv, limits: OidLimits)
    requires WellFormed(a, false) && KidsOf(a) != [] && LaidOut(kind, KidsOf(a)[0])
    requires WellFormed(b, false) && KidsOf(b) != [] && LaidOut(kind, KidsOf(b)[0])
    requires PreTbs(kind, KidsOf(a)[0], limits).Ok? && PreTbs(kind, KidsOf(b)[0], limits).Ok?
    requires |Enc(PreTbs(kind, KidsOf(b)[0], limits).value)| < TWO_48
    ensures Enc(PreTbs(kind, KidsOf(a)[0], limits).value) == Enc(PreTbs(kind, KidsOf(b)[0], limits).value) <==>
            SameApart(kind, KidsOf(a)[0], KidsOf(b)[0], limits)
  {
    hide WellFormed, Enc, PreTbs;
    PreTbsExactly(kind, KidsOf(a)[0], KidsOf(b)[0], limits);
    PreTbsWellFormed(kind, a, limits);
    PreTbsWellFormed(kind, b, limits);
    PrefixFree(PreTbs(kind, KidsOf(a)[0], limits).value, PreTbs(kind, KidsOf(b)[0], limits).value, false);
  }

  /** What is refused is decided by the same parts: a structure differing only there is refused or not alike. */
  lemma RefusalIgnoresSignatures(kind: Kind, a: Tlv, b: Tlv, limits: OidLimits)
    requires LaidOut(kind, a) && LaidOut(kind, b) && SameApart(kind, a, b, limits)
    ensures PreTbs(kind, a, limits).Ok? <==> PreTbs(kind, b, limits).Ok?
  {
    hide ExtOid, KeptExts, Extensions;
    NeverEmpty(kind, a, limits);
    NeverEmpty(kind, b, limits);
    KeptStates(Extensions(kind, a), limits);
    KeptStates(Extensions(kind, b), limits);
  }

  lemma KeptStates(exts: seq<Tlv>, limits: OidLimits)
    ensures HasExt(KeptExts(exts, limits), ALT_SIGNATURE_ALGORITHM, limits) <==>
            HasExt(exts, ALT_SIGNATURE_ALGORITHM, limits)
  {
    if HasExt(exts, ALT_SIGNATURE_ALGORITHM, limits) { AlgorithmIsKept(exts, limits); }
    if HasExt(KeptExts(exts, limits), ALT_SIGNATURE_ALGORITHM, limits) { KeptAreThere(exts, limits); }
  }

  lemma {:induction false} KeptAreThere(exts: seq<Tlv>, limits: OidLimits)
    ensures forall x :: x in KeptExts(exts, limits) ==> x in exts
  {
    hide ExtOid;
    if exts != [] { KeptAreThere(exts[1..], limits); }
  }
}
