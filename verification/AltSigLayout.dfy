/**
 Which components of a toBeSigned the preimage leaves out, stated on the layouts of
 TBSCertificate and TBSCertList (section 4.1 and section 5.1 of RFC 5280): tags and object
 identifiers are written out.
 */
module AltSigLayout {
  import opened Wrappers
  import opened Octets
  import opened DerSyntax
  import opened DerOid
  import opened AltSig

  /** An extension whose identifier has these content octets. */
  predicate Carries(x: Tlv, oid: bytes) {
    x.Cons? && |x.kids| >= 2 && x.kids[0] == Prim(Universal, 6, oid)
  }

  /** 2.5.29.73 and 2.5.29.74 */
  const ALGORITHM_OCTETS: bytes := [0x55, 0x1D, 0x49]
  const VALUE_OCTETS: bytes := [0x55, 0x1D, 0x4A]

  /** Caps that let an identifier of four arcs below 128 through. */
  predicate Admits(limits: OidLimits) {
    limits.maxBytes >= 1 && limits.maxCount >= 3
  }

  lemma {:induction false} ShortSubids(a: byte, b: byte, c: byte)
    requires a < 128 && b < 128 && c < 128
    ensures SubidsBytes([a, b, c]) == [a, b, c]
  {
    var s: seq<nat> := [a, b, c];
    assert s[1..] == [b, c] && s[1..][1..] == [c] && s[1..][1..][1..] == [];
    assert SubidBytes(a) == [a] && SubidBytes(b) == [b] && SubidBytes(c) == [c];
    hide SubidBytes;
    assert SubidsBytes(s) == SubidBytes(a) + SubidsBytes(s[1..]);
    assert SubidsBytes(s[1..]) == SubidBytes(b) + SubidsBytes(s[1..][1..]);
    assert SubidsBytes(s[1..][1..]) == SubidBytes(c) + SubidsBytes([]);
  }

  /** Under 2.5.29 an arc below 128 is read from three octets and from no others. */
  lemma IdExtension(n: byte, content: bytes, limits: OidLimits)
    requires n < 128 && Admits(limits)
    ensures DecodeOid(content, limits) == Ok([2, 5, 29, n]) <==> content == [0x55, 0x1D, n]
  {
    var arcs: seq<nat> := [2, 5, 29, n];
    assert Pack(arcs) == [85, 29, n];
    ShortSubids(85, 29, n);
    hide DecodeOid, SubidsBytes;
    OidRoundTrip(arcs, content, limits);
  }

  lemma ExtOidExactly(x: Tlv, n: byte, limits: OidLimits)
    requires n < 128 && Admits(limits)
    ensures ExtOid(x, limits) == Some([2, 5, 29, n]) <==> Carries(x, [0x55, 0x1D, n])
  {
    if x.Cons? && |x.kids| >= 2 && x.kids[0].Prim? { IdExtension(n, x.kids[0].content, limits); }
    hide DecodeOid;
  }

  lemma StatedExactly(exts: seq<Tlv>, limits: OidLimits)
    requires Admits(limits)
    ensures HasExt(exts, ALT_SIGNATURE_ALGORITHM, limits) <==>
            exists i :: 0 <= i < |exts| && Carries(exts[i], ALGORITHM_OCTETS)
  {
    hide ExtOid, Carries;
    forall i | 0 <= i < |exts|
      ensures ExtOid(exts[i], limits) == Some(ALT_SIGNATURE_ALGORITHM) <==> Carries(exts[i], ALGORITHM_OCTETS)
    {
      ExtOidExactly(exts[i], 73, limits);
    }
  }

  lemma {:induction false} NothingLeftOut(exts: seq<Tlv>, limits: OidLimits)
    requires Admits(limits) && forall x :: x in exts ==> !Carries(x, VALUE_OCTETS)
    ensures KeptExts(exts, limits) == exts
    decreases |exts|
  {
    hide ExtOid, Carries;
    if exts != [] {
      assert exts[0] in exts;
      ExtOidExactly(exts[0], 74, limits);
      NothingLeftOut(exts[1..], limits);
      assert exts == [exts[0]] + exts[1..];
    }
  }

  lemma {:induction false} KeptJoin(xs: seq<Tlv>, ys: seq<Tlv>, limits: OidLimits)
    ensures KeptExts(xs + ys, limits) == KeptExts(xs, limits) + KeptExts(ys, limits)
    decreases |xs|
  {
    hide ExtOid;
    if xs == [] {
      assert xs + ys == ys;
    } else {
      assert (xs + ys)[0] == xs[0] && (xs + ys)[1..] == xs[1..] + ys;
      KeptJoin(xs[1..], ys, limits);
    }
  }

  lemma OneLeftOut(x: Tlv, limits: OidLimits)
    requires Admits(limits) && Carries(x, VALUE_OCTETS)
    ensures KeptExts([x], limits) == []
  {
    ExtOidExactly(x, 74, limits);
    hide ExtOid, Carries;
    assert [x][1..] == [];
  }

  /** The value extensions, one at most, left out of a list. */
  lemma ValueLeftOut(before: seq<Tlv>, value: seq<Tlv>, after: seq<Tlv>, limits: OidLimits)
    requires Admits(limits) && |value| <= 1 && (forall x :: x in value ==> Carries(x, VALUE_OCTETS))
    requires forall x :: x in before + after ==> !Carries(x, VALUE_OCTETS)
    ensures KeptExts(before + value + after, limits) == before + after
  {
    hide ExtOid, Carries, KeptExts;
    KeptJoin(before + value, after, limits);
    KeptJoin(before, value, limits);
    NothingLeftOut(before, limits);
    NothingLeftOut(after, limits);
    if value == [] {
      NothingLeftOut(value, limits);
    } else {
      assert value[0] in value && value == [value[0]];
      OneLeftOut(value[0], limits);
    }
    assert before + [] + after == before + after;
  }

  /** A list that states an alternative signature, with its value extension, if any, in the middle. */
  ghost predicate States(before: seq<Tlv>, value: seq<Tlv>, after: seq<Tlv>) {
    && |value| <= 1 && (forall x :: x in value ==> Carries(x, VALUE_OCTETS))
    && (forall x :: x in before + after ==> !Carries(x, VALUE_OCTETS))
    && exists x :: x in before + after && Carries(x, ALGORITHM_OCTETS)
  }

  lemma StatedInside(before: seq<Tlv>, value: seq<Tlv>, after: seq<Tlv>, limits: OidLimits)
    requires Admits(limits) && States(before, value, after)
    ensures HasExt(before + value + after, ALT_SIGNATURE_ALGORITHM, limits)
    ensures KeptExts(before + value + after, limits) == before + after
  {
    hide Carries, ExtOid, HasExt;
    var exts := before + value + after;
    var x :| x in before + after && Carries(x, ALGORITHM_OCTETS);
    assert x in exts;
    var i :| 0 <= i < |exts| && exts[i] == x;
    StatedExactly(exts, limits);
    ValueLeftOut(before, value, after, limits);
  }

  /** The components around the signature field, the block last. */
  lemma FieldsAround(kids: seq<Tlv>, head: seq<Tlv>, sig: Tlv, rest: seq<Tlv>, block: Tlv)
    requires kids == head + [sig] + rest + [block]
    ensures KeptFields(kids, |kids|, |head|, |kids| - 1) == head + rest
    ensures kids[|head|] == sig && kids[|kids| - 1] == block
  {
    KeptFieldsAre(kids, |kids|, |head|);
    assert kids[..|head|] == head && kids[|head| + 1..|kids| - 1] == rest;
  }

  lemma LastBlock(kids: seq<Tlv>, extTag: nat)
    requires kids != [] && IsWrapper(kids[|kids| - 1], extTag)
    ensures BlockIndex(kids, extTag, |kids|) == Some(|kids| - 1)
  {
  }

  /** The extension block of a kind of structure, with its tag and the tag of the list written out. */
  function Block(tag: nat, exts: seq<Tlv>): Tlv {
    Cons(Context, tag, false, [Cons(Universal, 16, false, exts)])
  }

  /**
   A certificate: an optional [0] version, the serial number, the signature field, whatever comes next, and the
   extensions under [3]. Exactly the signature field and the value extension are left out.
   */
  lemma CertificateLayout(version: seq<Tlv>, serial: Tlv, sig: Tlv, rest: seq<Tlv>, before: seq<Tlv>,
      value: seq<Tlv>, after: seq<Tlv>, limits: OidLimits)
    requires |version| <= 1 && forall v :: v in version ==> v.cls == Context && v.tag == 0
    requires serial.cls == Universal && serial.tag == 2 && sig.cls == Universal && sig.tag == 16
    requires Admits(limits) && States(before, value, after)
    ensures PreTbs(Certificate,
                   Cons(Universal, 16, false,
                        version + [serial, sig] + rest + [Block(3, before + value + after)]), limits) ==
            Ok(Cons(Universal, 16, false, version + [serial] + rest + [Block(3, before + after)]))
  {
    hide Carries, ExtOid, HasExt, KeptExts, States, KeptFields, BlockIndex;
    var block := Block(3, before + value + after);
    var kids := version + [serial, sig] + rest + [block];
    var head := version + [serial];
    assert kids == head + [sig] + rest + [block];
    if version != [] { assert version[0] in version; }
    StatedInside(before, value, after, limits);
    LastBlock(kids, 3);
    FieldsAround(kids, head, sig, rest, block);
    NeverEmpty(Certificate, Cons(Universal, 16, false, kids), limits);
    assert version + [serial] + rest == head + rest;
  }

  /** A CRL: an optional INTEGER version, the signature field, whatever comes next, and the extensions under [0]. */
  lemma CrlLayout(version: seq<Tlv>, sig: Tlv, rest: seq<Tlv>, before: seq<Tlv>, value: seq<Tlv>, after: seq<Tlv>,
      limits: OidLimits)
    requires |version| <= 1 && forall v :: v in version ==> v.cls == Universal && v.tag == 2
    requires sig.cls == Universal && sig.tag == 16
    requires Admits(limits) && States(before, value, after)
    ensures PreTbs(Crl,
                   Cons(Universal, 16, false, version + [sig] + rest + [Block(0, before + value + after)]),
                   limits) ==
            Ok(Cons(Universal, 16, false, version + rest + [Block(0, before + after)]))
  {
    hide Carries, ExtOid, HasExt, KeptExts, States, KeptFields, BlockIndex;
    var block := Block(0, before + value + after);
    var kids := version + [sig] + rest + [block];
    if version != [] { assert version[0] in version; }
    StatedInside(before, value, after, limits);
    LastBlock(kids, 0);
    FieldsAround(kids, version, sig, rest, block);
    NeverEmpty(Crl, Cons(Universal, 16, false, kids), limits);
  }

  /** Without an algorithm extension there is no preimage. */
  lemma NotStated(kind: Kind, tbs: Tlv, limits: OidLimits)
    requires KidsOf(tbs) != [] && Admits(limits)
    ensures PreTbs(kind, tbs, limits) == Err(Absent) <==>
            forall x :: x in Extensions(kind, tbs) ==> !Carries(x, ALGORITHM_OCTETS)
  {
    hide Carries, ExtOid, HasExt, KeptExts, KeptFields, BlockIndex, Extensions;
    StatedExactly(Extensions(kind, tbs), limits);
  }
}
