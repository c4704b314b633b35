/**
 The bytes an alternative signature covers (alt-sig.js): the toBeSigned of a certificate or
 CRL without its signature field and without the altSignatureValue extension.
 */
module AltSig {
  import opened Wrappers
  import opened DerSyntax
  import opened DerOid

  datatype Kind = Certificate | Crl

  /** The context tag of the extension block. */
  function ExtTag(kind: Kind): nat {
    if kind.Certificate? then 3 else 0
  }

  const INTEGER := 2
  const OBJECT_IDENTIFIER := 6
  const ALT_SIGNATURE_ALGORITHM: seq<nat> := [2, 5, 29, 73]
  const ALT_SIGNATURE_VALUE: seq<nat> := [2, 5, 29, 74]

  datatype AltSigError = Absent | BadSignatureField | EmptyExtensions

  // ---------------------------------------------------------------- on trees

  /** The OID of an extension, or none where the reader fails. */
  function ExtOid(x: Tlv, limits: OidLimits): Option<seq<nat>> {
    if x.Prim? || |x.kids| < 2 then None
    else
      var id := x.kids[0];
      if id.Prim? && id.cls == Universal && id.tag == OBJECT_IDENTIFIER then
        match DecodeOid(id.content, limits)
        case Ok(arcs) => Some(arcs)
        case Err(_) => None
      else None
  }

  /** The place of the signature field, told by the element before it. */
  function SignatureIndex(kind: Kind, first: Tlv): nat {
    match kind
    case Certificate => if first.cls == Context && first.tag == 0 then 2 else 1
    case Crl => if first.cls == Universal && first.tag == INTEGER then 1 else 0
  }

  predicate IsWrapper(k: Tlv, extTag: nat) {
    k.cls == Context && k.tag == extTag && k.Cons? && |k.kids| == 1 && IsSequence(k.kids[0])
  }

  predicate IsSequence(t: Tlv) {
    t.cls == Universal && t.tag == SEQUENCE
  }

  /** The last extension block among the first n components. */
  function BlockIndex(kids: seq<Tlv>, extTag: nat, n: nat): (r: Option<nat>)
    requires n <= |kids|
    ensures r.Some? ==> r.value < n && IsWrapper(kids[r.value], extTag)
  {
    if n == 0 then None
    else if IsWrapper(kids[n - 1], extTag) then Some(n - 1)
    else BlockIndex(kids, extTag, n - 1)
  }

  function KidsOf(t: Tlv): seq<Tlv> {
    if t.Cons? then t.kids else []
  }

  /** The extensions of a toBeSigned, in order. */
  function Extensions(kind: Kind, tbs: Tlv): seq<Tlv> {
    var kids := KidsOf(tbs);
    match BlockIndex(kids, ExtTag(kind), |kids|)
    case None => []
    case Some(i) => KidsOf(kids[i].kids[0])
  }

  predicate HasExt(exts: seq<Tlv>, oid: seq<nat>, limits: OidLimits) {
    exists i :: 0 <= i < |exts| && ExtOid(exts[i], limits) == Some(oid)
  }

  /** The extensions other than altSignatureValue. */
  function KeptExts(exts: seq<Tlv>, limits: OidLimits): seq<Tlv> {
    if exts == [] then []
    else (if ExtOid(exts[0], limits) != Some(ALT_SIGNATURE_VALUE) then [exts[0]] else []) + KeptExts(exts[1..], limits)
  }

  /** The components other than those at two places. */
  function KeptFields(kids: seq<Tlv>, n: nat, sig: nat, block: nat): seq<Tlv>
    requires n <= |kids|
  {
    if n == 0 then []
    else KeptFields(kids, n - 1, sig, block) + if n - 1 == sig || n - 1 == block then [] else [kids[n - 1]]
  }

  function Rebuilt(kind: Kind, fields: seq<Tlv>, exts: seq<Tlv>): Tlv {
    Cons(Universal, SEQUENCE, false,
        fields + [Cons(Context, ExtTag(kind), false, [Cons(Universal, SEQUENCE, false, exts)])])
  }

  /** The PreTBSCertificate or PreTBSCertList of a toBeSigned with at least one component. */
  function PreTbs(kind: Kind, tbs: Tlv, limits: OidLimits): Result<Tlv, AltSigError>
    requires KidsOf(tbs) != []
  {
    var kids := KidsOf(tbs);
    var exts := Extensions(kind, tbs);
    if !HasExt(exts, ALT_SIGNATURE_ALGORITHM, limits) then Err(Absent)
    else
      var sig := SignatureIndex(kind, kids[0]);
      if sig >= |kids| || !IsSequence(kids[sig]) then Err(BadSignatureField)
      else
        var kept := KeptExts(exts, limits);
        if kept == [] then Err(EmptyExtensions)
        else
          var block := BlockIndex(kids, ExtTag(kind), |kids|);
          Ok(Rebuilt(kind, KeptFields(kids, |kids|, sig, if block.Some? then block.value else |kids|), kept))
  }

  // ---------------------------------------------------------------- what is kept and forgotten

  lemma {:induction false} AlgorithmIsKept(exts: seq<Tlv>, limits: OidLimits)
    requires HasExt(exts, ALT_SIGNATURE_ALGORITHM, limits)
    ensures HasExt(KeptExts(exts, limits), ALT_SIGNATURE_ALGORITHM, limits)
  {
    hide ExtOid;
    var i :| 0 <= i < |exts| && ExtOid(exts[i], limits) == Some(ALT_SIGNATURE_ALGORITHM);
    assert ALT_SIGNATURE_ALGORITHM[3] != ALT_SIGNATURE_VALUE[3];
    if i == 0 {
      assert KeptExts(exts, limits)[0] == exts[0];
    } else {
      assert ExtOid(exts[1..][i - 1], limits) == Some(ALT_SIGNATURE_ALGORITHM);
      AlgorithmIsKept(exts[1..], limits);
      var rest := KeptExts(exts[1..], limits);
      var j :| 0 <= j < |rest| && ExtOid(rest[j], limits) == Some(ALT_SIGNATURE_ALGORITHM);
      var k := |KeptExts(exts, limits)| - |rest| + j;
      assert KeptExts(exts, limits)[k] == rest[j];
    }
  }

  /** The refusal of an empty extension list is never reached: the algorithm extension stays. */
  lemma NeverEmpty(kind: Kind, tbs: Tlv, limits: OidLimits)
    requires KidsOf(tbs) != []
    ensures PreTbs(kind, tbs, limits) != Err(EmptyExtensions)
  {
    var exts := Extensions(kind, tbs);
    if HasExt(exts, ALT_SIGNATURE_ALGORITHM, limits) { AlgorithmIsKept(exts, limits); }
  }

  /** The layout the certificate and CRL parsers hold: signature, then the issuer Name, and the extension block last. */
  predicate LaidOut(kind: Kind, tbs: Tlv) {
    var kids := KidsOf(tbs);
    && kids != []
    && var sig := SignatureIndex(kind, kids[0]);
    && sig + 2 < |kids| && IsSequence(kids[sig]) && IsSequence(kids[sig + 1])
    && IsWrapper(kids[|kids| - 1], ExtTag(kind))
  }

  /** Equal but for the signature field and the altSignatureValue extension. */
  ghost predicate SameApart(kind: Kind, a: Tlv, b: Tlv, limits: OidLimits)
    requires LaidOut(kind, a) && LaidOut(kind, b)
  {
    var ka, kb := KidsOf(a), KidsOf(b);
    && |ka| == |kb|
    && SignatureIndex(kind, ka[0]) == SignatureIndex(kind, kb[0])
    && (forall i :: 0 <= i < |ka| - 1 && i != SignatureIndex(kind, ka[0]) ==> ka[i] == kb[i])
    && KeptExts(Extensions(kind, a), limits) == KeptExts(Extensions(kind, b), limits)
  }

  /** The fields kept are those before the signature and those between it and the block. */
  lemma {:induction false} KeptFieldsAre(kids: seq<Tlv>, n: nat, sig: nat)
    requires sig < |kids| - 1 && n <= |kids|
    ensures KeptFields(kids, n, sig, |kids| - 1) ==
            if n <= sig then kids[..n]
            else kids[..sig] + kids[sig + 1..if n < |kids| then n else |kids| - 1]
    decreases n
  {
    if n > 0 { KeptFieldsAre(kids, n - 1, sig); }
  }

  lemma PreTbsOf(kind: Kind, tbs: Tlv, limits: OidLimits)
    requires LaidOut(kind, tbs) && HasExt(Extensions(kind, tbs), ALT_SIGNATURE_ALGORITHM, limits)
    ensures var kids := KidsOf(tbs); var sig := SignatureIndex(kind, kids[0]);
      PreTbs(kind, tbs, limits) ==
      Ok(Rebuilt(kind, kids[..sig] + kids[sig + 1..|kids| - 1], KeptExts(Extensions(kind, tbs), limits)))
  {
    hide ExtOid, HasExt;
    NeverEmpty(kind, tbs, limits);
    var kids := KidsOf(tbs);
    KeptFieldsAre(kids, |kids|, SignatureIndex(kind, kids[0]));
  }

  /** A list with one place taken out determines the list, but for that place. */
  lemma CutAt(x: seq<Tlv>, y: seq<Tlv>, i: nat)
    requires i < |x| - 1 && i < |y| - 1
    ensures x[..i] + x[i + 1..|x| - 1] == y[..i] + y[i + 1..|y| - 1] <==>
            |x| == |y| && forall j :: 0 <= j < |x| - 1 && j != i ==> x[j] == y[j]
  {
    var cx, cy := x[..i] + x[i + 1..|x| - 1], y[..i] + y[i + 1..|y| - 1];
    if cx == cy {
      assert |cx| == |x| - 2 && |cy| == |y| - 2;
      forall j | 0 <= j < |x| - 1 && j != i ensures x[j] == y[j] {
        var k := if j < i then j else j - 1;
        assert cx[k] == x[j] && cy[k] == y[j];
      }
    }
  }

  lemma RebuiltInjective(kind: Kind, f: seq<Tlv>, e: seq<Tlv>, f': seq<Tlv>, e': seq<Tlv>)
    ensures Rebuilt(kind, f, e) == Rebuilt(kind, f', e') <==> f == f' && e == e'
  {
    var w := Cons(Context, ExtTag(kind), false, [Cons(Universal, SEQUENCE, false, e)]);
    var w' := Cons(Context, ExtTag(kind), false, [Cons(Universal, SEQUENCE, false, e')]);
    var r, r' := Rebuilt(kind, f, e), Rebuilt(kind, f', e');
    if r == r' {
      assert r.kids[|r.kids| - 1] == w && r'.kids[|r'.kids| - 1] == w';
      assert r.kids[..|r.kids| - 1] == f && r'.kids[..|r'.kids| - 1] == f';
      assert w.kids[0] == w'.kids[0];
    }
  }

  /** The first kept component tells where the signature field was. */
  lemma SamePlace(kind: Kind, ka: seq<Tlv>, kb: seq<Tlv>)
    requires ka != [] && kb != []
    requires var sa, sb := SignatureIndex(kind, ka[0]), SignatureIndex(kind, kb[0]);
      && sa + 2 < |ka| && IsSequence(ka[sa + 1]) && sb + 2 < |kb| && IsSequence(kb[sb + 1])
      && ka[..sa] + ka[sa + 1..|ka| - 1] == kb[..sb] + kb[sb + 1..|kb| - 1]
    ensures SignatureIndex(kind, ka[0]) == SignatureIndex(kind, kb[0])
  {
    var sa, sb := SignatureIndex(kind, ka[0]), SignatureIndex(kind, kb[0]);
    var ca, cb := ka[..sa] + ka[sa + 1..|ka| - 1], kb[..sb] + kb[sb + 1..|kb| - 1];
    assert ca[0] == (if sa == 0 then ka[1] else ka[0]);
    assert cb[0] == (if sb == 0 then kb[1] else kb[0]);
  }

  /**
   Two structures that state an alternative signature have the same preimage tree exactly when
   they agree on every component and extension but the signature field and altSignatureValue.
   */
  lemma PreTbsExactly(kind: Kind, a: Tlv, b: Tlv, limits: OidLimits)
    requires LaidOut(kind, a) && LaidOut(kind, b)
    requires PreTbs(kind, a, limits).Ok? && PreTbs(kind, b, limits).Ok?
    ensures PreTbs(kind, a, limits) == PreTbs(kind, b, limits) <==> SameApart(kind, a, b, limits)
  {
    hide ExtOid, HasExt, KeptExts, Extensions, SignatureIndex, IsSequence, IsWrapper, Rebuilt;
    PreTbsOf(kind, a, limits);
    PreTbsOf(kind, b, limits);
    var ka, kb := KidsOf(a), KidsOf(b);
    var sa, sb := SignatureIndex(kind, ka[0]), SignatureIndex(kind, kb[0]);
    RebuiltInjective(kind, ka[..sa] + ka[sa + 1..|ka| - 1], KeptExts(Extensions(kind, a), limits),
                     kb[..sb] + kb[sb + 1..|kb| - 1], KeptExts(Extensions(kind, b), limits));
    if ka[..sa] + ka[sa + 1..|ka| - 1] == kb[..sb] + kb[sb + 1..|kb| - 1] { SamePlace(kind, ka, kb); }
    if sa == sb { CutAt(ka, kb, sa); }
  }
}
