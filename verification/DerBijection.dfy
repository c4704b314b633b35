/**
 The accepted octet strings are exactly the encodings of well-formed trees within the
 limits, and each has one tree. In strict mode each tree has one encoding too: DER is a
 bijection between trees and accepted inputs.
 */
module DerBijection {
  import opened Wrappers
  import opened Octets
  import opened DerSyntax
  import opened DerParse
  import opened DerHeaders

  const TWO_48 := 0x1_0000_0000_0000

  /** A tree met at this depth, string nesting and element count stays within the limits. */
  predicate Within(t: Tlv, depth: nat, strDepth: nat, count: nat, limits: Limits) {
    && depth + Height(t) <= limits.maxDepth
    && count + Count(t) <= limits.maxItems
    && (StringNesting(t) > 0 ==> strDepth + StringNesting(t) <= limits.maxStringNesting)
  }

  predicate WithinAll(ts: seq<Tlv>, depth: nat, strDepth: nat, count: nat, limits: Limits) {
    ts != [] ==>
      && depth + HeightAll(ts) <= limits.maxDepth + 1
      && count + CountAll(ts) <= limits.maxItems
      && (StringNestingAll(ts) > 0 ==> strDepth + StringNestingAll(ts) <= limits.maxStringNesting)
  }

  /** The list functions on a list known by its head and tail. */
  lemma ListOf(t: Tlv, ts: seq<Tlv>, ber: bool)
    ensures EncAll([t] + ts) == Enc(t) + EncAll(ts)
    ensures CountAll([t] + ts) == Count(t) + CountAll(ts)
    ensures HeightAll([t] + ts) == Max(1 + Height(t), HeightAll(ts))
    ensures StringNestingAll([t] + ts) == Max(StringNesting(t), StringNestingAll(ts))
    ensures AllWellFormed([t] + ts, ber) <==> WellFormed(t, ber) && AllWellFormed(ts, ber)
  {
    assert ([t] + ts)[1..] == ts;
  }

  lemma WithinCons(t: Tlv, ts: seq<Tlv>, depth: nat, strDepth: nat, count: nat, limits: Limits)
    ensures WithinAll([t] + ts, depth, strDepth, count, limits) <==>
            Within(t, depth, strDepth, count, limits) && WithinAll(ts, depth, strDepth, count + Count(t), limits)
  {
    ListOf(t, ts, true);
    if ts == [] {
      assert HeightAll(ts) == 0 && CountAll(ts) == 0 && StringNestingAll(ts) == 0;
    }
  }

  lemma WithinParent(t: Tlv, depth: nat, strDepth: nat, count: nat, limits: Limits)
    requires t.Cons? && depth <= limits.maxDepth && count + 1 <= limits.maxItems
    requires IsOctetString(t) ==> strDepth + 1 <= limits.maxStringNesting
    ensures Within(t, depth, strDepth, count, limits) <==>
            WithinAll(t.kids, depth + 1, strDepth + (if IsOctetString(t) then 1 else 0), count + 1, limits)
  {
    if t.kids == [] {
      assert HeightAll(t.kids) == 0 && CountAll(t.kids) == 0 && StringNestingAll(t.kids) == 0;
    }
  }

  function KidsLength(indefinite: bool, kids: seq<Tlv>): Length {
    if indefinite then Indefinite else Definite(|EncAll(kids)|)
  }

  function Trailer(indefinite: bool): bytes {
    if indefinite then END_OF_CONTENTS else []
  }

  lemma EncOfCons(cls: Class, tag: nat, indefinite: bool, kids: seq<Tlv>)
    ensures Enc(Cons(cls, tag, indefinite, kids)) ==
            HeaderBytes(cls, true, tag, KidsLength(indefinite, kids)) + (EncAll(kids) + Trailer(indefinite))
  {
    var hb := HeaderBytes(cls, true, tag, KidsLength(indefinite, kids));
    assert hb + (EncAll(kids) + END_OF_CONTENTS) == hb + EncAll(kids) + END_OF_CONTENTS;
    assert EncAll(kids) + [] == EncAll(kids);
  }

  // ---------------------------------------------------------------- soundness

  /** What a successful read says about the octets it consumed. */
  lemma {:induction false} TlvSound(buf: bytes, start: nat, limit: nat, depth: nat, ber: bool, strDepth: nat,
      count: nat, limits: Limits)
    requires start <= limit <= |buf|
    requires ParseTlv(buf, start, limit, depth, ber, strDepth, count, limits).Ok?
    ensures var r := ParseTlv(buf, start, limit, depth, ber, strDepth, count, limits).value;
      && WellFormed(r.item, ber) && Within(r.item, depth, strDepth, count, limits)
      && buf[start..r.end] == Enc(r.item) && r.count == count + Count(r.item)
    decreases limit - start, 0
  {
    hide ParseHeader, HeaderBytes, LengthBytes, IdentBytes, FormOk, ParseBody, ParseKids, ParseUntilEnd, EncAll,
         HeightAll, CountAll, StringNestingAll, WithinAll, KidsLength, Trailer;
    var r := ParseTlv(buf, start, limit, depth, ber, strDepth, count, limits).value;
    HeaderSound(buf, start, limit, ber, strDepth, limits);
    var h := ParseHeader(buf, start, limit, ber, strDepth, limits).value;
    assert buf[start..r.end] == buf[start..h.contentStart] + buf[h.contentStart..r.end];
    if h.constructed {
      var kids := ParseBody(buf, h, limit, depth + 1, ber, count + 1, limits).value;
      BodySound(buf, h, limit, depth + 1, ber, count + 1, limits);
      WithinParent(r.item, depth, strDepth, count, limits);
      EncOfCons(h.cls, h.tag, h.len.Indefinite?, kids.item);
    }
  }

  lemma {:induction false} BodySound(buf: bytes, h: Header, limit: nat, depth: nat, ber: bool, count: nat,
      limits: Limits)
    requires h.contentStart <= limit <= |buf|
    requires h.len.Definite? ==> h.contentStart + h.len.n <= limit
    requires ParseBody(buf, h, limit, depth, ber, count, limits).Ok?
    ensures var r := ParseBody(buf, h, limit, depth, ber, count, limits).value;
      var end := r.end + if h.len.Indefinite? then 2 else 0;
      && AllWellFormed(r.item, ber) && WithinAll(r.item, depth, h.strDepth, count, limits)
      && buf[h.contentStart..end] == EncAll(r.item) + Trailer(h.len.Indefinite?)
      && h.len == KidsLength(h.len.Indefinite?, r.item) && r.count == count + CountAll(r.item)
    decreases limit - h.contentStart, 2
  {
    hide ParseHeader, HeaderBytes, LengthBytes, IdentBytes, FormOk, ParseTlv, ParseKids, ParseUntilEnd, Enc, EncAll,
         HeightAll, CountAll, StringNestingAll, WithinAll, AllWellFormed, Assemble;
    var r := ParseBody(buf, h, limit, depth, ber, count, limits).value;
    match h.len
    case Indefinite =>
      UntilEndSound(buf, h.contentStart, limit, depth, ber, h.strDepth, count, limits);
      assert buf[h.contentStart..r.end + 2] == buf[h.contentStart..r.end] + buf[r.end..r.end + 2];
    case Definite(n) =>
      KidsSound(buf, h.contentStart, h.contentStart + n, depth, ber, h.strDepth, count, limits);
      assert buf[h.contentStart..r.end] + [] == buf[h.contentStart..r.end];
  }

  lemma {:induction false} KidsSound(buf: bytes, cp: nat, end: nat, depth: nat, ber: bool, strDepth: nat, count: nat,
      limits: Limits)
    requires cp <= end <= |buf|
    requires ParseKids(buf, cp, end, depth, ber, strDepth, count, limits).Ok?
    ensures var r := ParseKids(buf, cp, end, depth, ber, strDepth, count, limits).value;
      && AllWellFormed(r.item, ber) && WithinAll(r.item, depth, strDepth, count, limits)
      && buf[cp..end] == EncAll(r.item) && r.count == count + CountAll(r.item)
    decreases end - cp, 1
  {
    hide ParseHeader, HeaderBytes, LengthBytes, IdentBytes, FormOk, ParseTlv, ParseBody, ParseUntilEnd, Assemble,
         Enc, WellFormed, Height, Count, StringNesting, Within;
    if cp < end {
      TlvSound(buf, cp, end, depth, ber, strDepth, count, limits);
      var first := ParseTlv(buf, cp, end, depth, ber, strDepth, count, limits).value;
      KidsSound(buf, first.end, end, depth, ber, strDepth, first.count, limits);
      var rest := ParseKids(buf, first.end, end, depth, ber, strDepth, first.count, limits).value;
      WithinCons(first.item, rest.item, depth, strDepth, count, limits);
      ListOf(first.item, rest.item, ber);
      assert buf[cp..end] == buf[cp..first.end] + buf[first.end..end];
    }
  }

  lemma {:induction false} UntilEndSound(buf: bytes, cp: nat, limit: nat, depth: nat, ber: bool, strDepth: nat,
      count: nat, limits: Limits)
    requires cp <= limit <= |buf|
    requires ParseUntilEnd(buf, cp, limit, depth, ber, strDepth, count, limits).Ok?
    ensures var r := ParseUntilEnd(buf, cp, limit, depth, ber, strDepth, count, limits).value;
      && AllWellFormed(r.item, ber) && WithinAll(r.item, depth, strDepth, count, limits)
      && buf[cp..r.end] == EncAll(r.item) && HasAt(buf, r.end, END_OF_CONTENTS)
      && r.count == count + CountAll(r.item)
    decreases limit - cp, 1
  {
    hide ParseHeader, HeaderBytes, LengthBytes, IdentBytes, FormOk, ParseTlv, ParseBody, ParseKids, Assemble, Enc,
         WellFormed, Height, Count, StringNesting, Within;
    if buf[cp] == 0 && buf[cp + 1] == 0 {
      assert buf[cp..cp + 2] == [buf[cp], buf[cp + 1]];
    } else {
      TlvSound(buf, cp, limit, depth, ber, strDepth, count, limits);
      var first := ParseTlv(buf, cp, limit, depth, ber, strDepth, count, limits).value;
      UntilEndSound(buf, first.end, limit, depth, ber, strDepth, first.count, limits);
      var rest := ParseUntilEnd(buf, first.end, limit, depth, ber, strDepth, first.count, limits).value;
      WithinCons(first.item, rest.item, depth, strDepth, count, limits);
      ListOf(first.item, rest.item, ber);
      assert buf[cp..rest.end] == buf[cp..first.end] + buf[first.end..rest.end];
    }
  }

  // ---------------------------------------------------------------- completeness

  /** No element starts with the octet of an end-of-contents pair. */
  lemma FirstOctetNonzero(t: Tlv, ber: bool)
    requires WellFormed(t, ber)
    ensures Enc(t)[0] != 0
  {
  }

  lemma {:induction false} TlvComplete(buf: bytes, start: nat, limit: nat, depth: nat, ber: bool, strDepth: nat,
      count: nat, limits: Limits, t: Tlv)
    requires WellFormed(t, ber) && Within(t, depth, strDepth, count, limits)
    requires HasAt(buf, start, Enc(t)) && start + |Enc(t)| <= limit <= |buf| < TWO_48
    ensures ParseTlv(buf, start, limit, depth, ber, strDepth, count, limits) ==
            Ok(Read(t, start + |Enc(t)|, count + Count(t)))
    decreases t, 0
  {
    hide ParseHeader, HeaderBytes, LengthBytes, IdentBytes, FormOk, ParseKids, ParseUntilEnd, EncAll, HeightAll,
         CountAll, StringNestingAll, WithinAll, AllWellFormed;
    match t
    case Prim(cls, tag, content) =>
      var hb := HeaderBytes(cls, false, tag, Definite(|content|));
      HasAtSplit(buf, start, hb, content);
      HeaderComplete(buf, start, limit, ber, strDepth, limits,
          Header(cls, false, tag, strDepth, Definite(|content|), start + |hb|));
    case Cons(cls, tag, indefinite, kids) =>
      var h := ConsHeader(t, start, strDepth);
      ConsHeaderComplete(buf, start, limit, depth, ber, strDepth, count, limits, t);
      if indefinite {
        UntilEndComplete(buf, h.contentStart, limit, depth + 1, ber, h.strDepth, count + 1, limits, kids);
      } else {
        KidsComplete(buf, h.contentStart, h.contentStart + |EncAll(kids)|, depth + 1, ber, h.strDepth, count + 1,
            limits, kids);
      }
  }

  /** The header the encoding of a constructed element starts with. */
  function ConsHeader(t: Tlv, start: nat, strDepth: nat): Header
    requires t.Cons?
  {
    var len := KidsLength(t.indefinite, t.kids);
    Header(t.cls, true, t.tag, strDepth + (if IsOctetString(t) then 1 else 0), len,
        start + |HeaderBytes(t.cls, true, t.tag, len)|)
  }

  lemma ConsHeaderComplete(buf: bytes, start: nat, limit: nat, depth: nat, ber: bool, strDepth: nat, count: nat,
      limits: Limits, t: Tlv)
    requires t.Cons? && WellFormed(t, ber) && Within(t, depth, strDepth, count, limits)
    requires HasAt(buf, start, Enc(t)) && start + |Enc(t)| <= limit <= |buf| < TWO_48
    ensures var h := ConsHeader(t, start, strDepth);
      && ParseHeader(buf, start, limit, ber, strDepth, limits) == Ok(h)
      && HasAt(buf, h.contentStart, EncAll(t.kids))
      && HasAt(buf, h.contentStart + |EncAll(t.kids)|, Trailer(t.indefinite))
      && start + |Enc(t)| == h.contentStart + |EncAll(t.kids)| + |Trailer(t.indefinite)|
      && WithinAll(t.kids, depth + 1, h.strDepth, count + 1, limits)
  {
    hide ParseHeader, HeaderBytes, FormOk;
    var h := ConsHeader(t, start, strDepth);
    var hb := HeaderBytes(t.cls, true, t.tag, h.len);
    EncOfCons(t.cls, t.tag, t.indefinite, t.kids);
    WithinParent(t, depth, strDepth, count, limits);
    hide WellFormed, Within, Enc, EncAll;
    HasAtSplit(buf, start, hb, EncAll(t.kids) + Trailer(t.indefinite));
    HasAtSplit(buf, start + |hb|, EncAll(t.kids), Trailer(t.indefinite));
    HeaderComplete(buf, start, limit, ber, strDepth, limits, h);
  }

  lemma {:induction false} KidsComplete(buf: bytes, cp: nat, end: nat, depth: nat, ber: bool, strDepth: nat,
      count: nat, limits: Limits, ts: seq<Tlv>)
    requires AllWellFormed(ts, ber) && WithinAll(ts, depth, strDepth, count, limits)
    requires HasAt(buf, cp, EncAll(ts)) && cp + |EncAll(ts)| == end <= |buf| < TWO_48
    ensures ParseKids(buf, cp, end, depth, ber, strDepth, count, limits) == Ok(Read(ts, end, count + CountAll(ts)))
    decreases ts, 1
  {
    hide ParseHeader, HeaderBytes, LengthBytes, IdentBytes, FormOk, ParseTlv, ParseBody, ParseUntilEnd, Assemble,
         Enc, WellFormed, Height, Count, StringNesting, Within, WithinAll;
    if ts != [] {
      assert ts == [ts[0]] + ts[1..];
      ListOf(ts[0], ts[1..], ber);
      WithinCons(ts[0], ts[1..], depth, strDepth, count, limits);
      HasAtSplit(buf, cp, Enc(ts[0]), EncAll(ts[1..]));
      TlvComplete(buf, cp, end, depth, ber, strDepth, count, limits, ts[0]);
      KidsComplete(buf, cp + |Enc(ts[0])|, end, depth, ber, strDepth, count + Count(ts[0]), limits, ts[1..]);
    }
  }

  lemma PairAt(buf: bytes, cp: nat)
    requires HasAt(buf, cp, END_OF_CONTENTS)
    ensures buf[cp] == 0 && buf[cp + 1] == 0
  {
    assert buf[cp] == END_OF_CONTENTS[0] && buf[cp + 1] == END_OF_CONTENTS[1];
  }

  lemma {:induction false} UntilEndComplete(buf: bytes, cp: nat, limit: nat, depth: nat, ber: bool, strDepth: nat,
      count: nat, limits: Limits, ts: seq<Tlv>)
    requires AllWellFormed(ts, ber) && WithinAll(ts, depth, strDepth, count, limits)
    requires HasAt(buf, cp, EncAll(ts)) && HasAt(buf, cp + |EncAll(ts)|, END_OF_CONTENTS)
    requires cp + |EncAll(ts)| + 2 <= limit <= |buf| < TWO_48
    ensures ParseUntilEnd(buf, cp, limit, depth, ber, strDepth, count, limits) ==
            Ok(Read(ts, cp + |EncAll(ts)|, count + CountAll(ts)))
    decreases ts, 1
  {
    hide ParseHeader, HeaderBytes, LengthBytes, IdentBytes, FormOk, ParseTlv, ParseBody, ParseKids, Assemble, Enc,
         WellFormed, Height, Count, StringNesting, Within, WithinAll;
    if ts == [] {
      PairAt(buf, cp);
    } else {
      assert ts == [ts[0]] + ts[1..];
      ListOf(ts[0], ts[1..], ber);
      WithinCons(ts[0], ts[1..], depth, strDepth, count, limits);
      HasAtSplit(buf, cp, Enc(ts[0]), EncAll(ts[1..]));
      FirstOctetNonzero(ts[0], ber);
      assert buf[cp] == Enc(ts[0])[0];
      TlvComplete(buf, cp, limit, depth, ber, strDepth, count, limits, ts[0]);
      UntilEndComplete(buf, cp + |Enc(ts[0])|, limit, depth, ber, strDepth, count + Count(ts[0]), limits, ts[1..]);
    }
  }

  // ---------------------------------------------------------------- the bijection

  /**
   decode accepts an input with a given tree exactly when the tree is well formed, within
   the limits, and its encoding is the input, or a prefix of it when trailing octets are allowed.
   */
  lemma {:induction false} AcceptsExactly(buf: bytes, ber: bool, allowTrailing: bool, limits: Limits, t: Tlv)
    requires limits.maxBytes < TWO_48
    ensures Parse(buf, ber, allowTrailing, limits) == Ok(Read(t, |Enc(t)|, Count(t))) <==>
            && |buf| <= limits.maxBytes && WellFormed(t, ber) && Within(t, 0, 0, 0, limits)
            && (if allowTrailing then Enc(t) <= buf else Enc(t) == buf)
  {
    hide ParseTlv, Enc, WellFormed, Within, Count;
    if |buf| <= limits.maxBytes {
      if ParseTlv(buf, 0, |buf|, 0, ber, 0, 0, limits).Ok? {
        TlvSound(buf, 0, |buf|, 0, ber, 0, 0, limits);
      }
      if WellFormed(t, ber) && Within(t, 0, 0, 0, limits) && Enc(t) <= buf {
        TlvComplete(buf, 0, |buf|, 0, ber, 0, 0, limits, t);
      }
    }
  }

  /** An input is accepted exactly when it is the encoding of some well-formed tree within the limits. */
  lemma {:induction false} AcceptedInputs(buf: bytes, ber: bool, limits: Limits)
    requires limits.maxBytes < TWO_48
    ensures Parse(buf, ber, false, limits).Ok? <==>
            |buf| <= limits.maxBytes && exists t :: WellFormed(t, ber) && Within(t, 0, 0, 0, limits) && Enc(t) == buf
  {
    hide ParseTlv, Enc, WellFormed, Within, Count;
    if Parse(buf, ber, false, limits).Ok? {
      TlvSound(buf, 0, |buf|, 0, ber, 0, 0, limits);
      assert buf[0..|buf|] == buf;
    }
    if |buf| <= limits.maxBytes && exists t :: WellFormed(t, ber) && Within(t, 0, 0, 0, limits) && Enc(t) == buf {
      var t :| WellFormed(t, ber) && Within(t, 0, 0, 0, limits) && Enc(t) == buf;
      AcceptsExactly(buf, ber, false, limits, t);
    }
  }

  /** No encoding is a proper prefix of another, and no two trees share one. */
  lemma {:induction false} PrefixFree(t: Tlv, u: Tlv, ber: bool)
    requires WellFormed(t, ber) && WellFormed(u, ber)
    requires |Enc(u)| < TWO_48
    ensures Enc(t) <= Enc(u) <==> t == u
  {
    hide ParseTlv, Enc, WellFormed, Height, Count, StringNesting;
    if Enc(t) <= Enc(u) {
      var wide := Limits(TWO_48, Max(Height(t), Height(u)), Max(Count(t), Count(u)),
          Max(StringNesting(t), StringNesting(u)));
      TlvComplete(Enc(u), 0, |Enc(u)|, 0, ber, 0, 0, wide, t);
      TlvComplete(Enc(u), 0, |Enc(u)|, 0, ber, 0, 0, wide, u);
    }
  }

  lemma EncAllEmpty(ts: seq<Tlv>)
    ensures EncAll(ts) == [] <==> ts == []
  {
    if ts != [] { assert |EncAll(ts)| >= |Enc(ts[0])|; }
  }

  /** Lists of encodings split in one way only. */
  lemma {:induction false} UniqueSplit(ts: seq<Tlv>, us: seq<Tlv>, ber: bool)
    requires AllWellFormed(ts, ber) && AllWellFormed(us, ber)
    requires EncAll(ts) == EncAll(us) && |EncAll(us)| < TWO_48
    ensures ts == us
  {
    hide Enc, WellFormed;
    EncAllEmpty(ts);
    EncAllEmpty(us);
    if ts != [] && us != [] {
      var a, b := Enc(ts[0]), Enc(us[0]);
      if |a| <= |b| {
        assert a == EncAll(ts)[..|a|] && b[..|a|] == EncAll(us)[..|a|];
        PrefixFree(ts[0], us[0], ber);
      } else {
        assert b == EncAll(us)[..|b|] && a[..|b|] == EncAll(ts)[..|b|];
        PrefixFree(us[0], ts[0], ber);
      }
      assert EncAll(ts)[|a|..] == EncAll(ts[1..]) && EncAll(us)[|a|..] == EncAll(us[1..]);
      UniqueSplit(ts[1..], us[1..], ber);
      assert ts == [ts[0]] + ts[1..] && us == [us[0]] + us[1..];
    }
  }
}
