/**
 The tables of asn1-der.js in octets: which leading octets open an element, how tag numbers
 and lengths are written, and what the caps on nesting and elements admit. Every law is
 stated in octets and numbers.
 */
module DerTables {
  import opened Wrappers
  import opened Octets
  import opened Radix
  import opened DerSyntax
  import opened DerParse
  import opened DerBijection

  // ---------------------------------------------------------------- leading octets

  /** The primitive universal types: X.680 assigns each of these numbers to one that is not constructed. */
  const PRIMITIVES: set<nat> :=
    {1, 2, 3, 4, 5, 6, 7, 9, 10, 12, 13, 14, 18, 19, 20, 21, 22, 23, 24, 25, 26, 27, 28, 30}

  /** EXTERNAL, EMBEDDED PDV, SEQUENCE, SET and CHARACTER STRING, with the constructed bit. */
  const CONSTRUCTED: set<nat> := {40, 43, 48, 49, 61}

  /** The leading octets of one octet that open an element in strict mode. */
  predicate Opens(b: byte) {
    if b < 64 then b in PRIMITIVES + CONSTRUCTED else b % 32 != 31
  }

  /** The element an empty content makes under a leading octet. */
  function EmptyElement(b: byte): Tlv {
    var cls := if b < 64 then Universal else if b < 128 then Application else if b < 192 then Context else Private;
    if b / 32 % 2 == 1 then Cons(cls, b % 32, false, []) else Prim(cls, b % 32, [])
  }

  lemma LeadsTo(b: byte, ber: bool, limits: Limits)
    ensures var r := ParseHeader([b, 0], 0, 2, ber, 0, limits);
      && (r.Ok? <==> Opens(b) || (ber && b == 36 && limits.maxStringNesting >= 1))
      && (r.Ok? ==> r.value.contentStart == 2 && r.value.len == Definite(0) && r.value.tag == b % 32)
      && (r.Ok? ==> r.value.cls == EmptyElement(b).cls && r.value.constructed == EmptyElement(b).Cons?)
  {
    TagOf(b);
    FormOf(b);
    hide ParseTag, Reserved, ConstructedOnly, Opens;
  }

  /** The tag number of [b, 0]: none when b announces more octets of it, for those name 0. */
  lemma TagOf(b: byte)
    ensures ParseTag([b, 0], 0, 2) == if b % 32 == 31 then Err(NonMinimalTag) else Ok((b % 32, 1))
  {
    assert ParseHighTag([b, 0], 1, 2, 0, 0) == Ok((0, 2));
  }

  lemma FormOf(b: byte)
    ensures b % 32 != 31 ==>
              (Opens(b) <==>
               (b < 64 ==> !Reserved(b % 32) && (ConstructedOnly(b % 32) <==> b / 32 % 2 == 1)))
    ensures b % 32 == 31 ==> !Opens(b)
    ensures b == 36 ==> !Reserved(b % 32) && !ConstructedOnly(b % 32) && !Opens(b)
  {
  }

  lemma TwoOctets(b: byte, ber: bool, limits: Limits)
    requires limits.maxBytes >= 2 && limits.maxItems >= 1
    ensures Parse([b, 0], ber, false, limits).Ok? <==>
            Opens(b) || (ber && b == 36 && limits.maxStringNesting >= 1)
    ensures Parse([b, 0], ber, false, limits).Ok? ==>
              Parse([b, 0], ber, false, limits) == Ok(Read(EmptyElement(b), 2, 1))
  {
    LeadsTo(b, ber, limits);
    hide Opens, ParseHeader;
    assert [b, 0][2..2] == [];
    var h := ParseHeader([b, 0], 0, 2, ber, 0, limits);
    if h.Ok? { EmptyBody([b, 0], h.value, ber, limits); }
    hide ParseBody;
  }

  lemma EmptyBody(buf: bytes, h: Header, ber: bool, limits: Limits)
    requires |buf| == 2 && h.contentStart == 2 && h.len == Definite(0)
    ensures ParseBody(buf, h, 2, 1, ber, 1, limits) == Ok(Read([], 2, 1))
  {
  }

  /**
   Of two octets [b, 0] strict decoding accepts those whose first is listed: the types X.680 names, each in its own
   form, and any octet of another class with a low tag number. BER mode adds the constructed OCTET STRING, octet 36.
   */
  lemma TwoOctetsExactly(b: byte, limits: Limits)
    requires limits.maxBytes >= 2 && limits.maxItems >= 1
    ensures Parse([b, 0], false, false, limits).Ok? <==> Opens(b)
    ensures Parse([b, 0], true, false, limits).Ok? <==> Opens(b) || (b == 36 && limits.maxStringNesting >= 1)
    ensures forall ber :: Parse([b, 0], ber, false, limits).Ok? ==>
                            Parse([b, 0], ber, false, limits) == Ok(Read(EmptyElement(b), 2, 1))
  {
    TwoOctets(b, true, limits);
    TwoOctets(b, false, limits);
    hide Parse, Opens;
  }

  /**
   Of three octets [b, t, 0] whose first announces a tag number in the second those are accepted that name a number of
   31 or more, and among the universal types the primitive ones up to 36.
   */
  lemma HighTagsExactly(b: byte, t: byte, limits: Limits)
    requires b % 32 == 31 && t < 128 && limits.maxBytes >= 3 && limits.maxItems >= 1
    ensures Parse([b, t, 0], false, false, limits).Ok? <==> t >= 31 && (b < 64 ==> b == 31 && t <= 36)
  {
    HighTagOf(b, t);
    HighLeads(b, t, limits);
    hide ParseHeader, ParseTag;
    var h := ParseHeader([b, t, 0], 0, 3, false, 0, limits);
    if h.Ok? { NoKids([b, t, 0], h.value, limits); }
    hide ParseBody;
  }

  lemma HighTagOf(b: byte, t: byte)
    requires b % 32 == 31 && t < 128
    ensures ParseTag([b, t, 0], 0, 3) == if t < 31 then Err(NonMinimalTag) else Ok((t, 2))
  {
    assert ParseHighTag([b, t, 0], 1, 3, 0, 0) == Ok((t, 2));
  }

  lemma HighLeads(b: byte, t: byte, limits: Limits)
    requires b % 32 == 31 && t < 128
    ensures var r := ParseHeader([b, t, 0], 0, 3, false, 0, limits);
      && (r.Ok? <==> t >= 31 && (b < 64 ==> b == 31 && t <= 36))
      && (r.Ok? ==> r.value.contentStart == 3 && r.value.len == Definite(0))
  {
    HighTagOf(b, t);
    hide ParseTag;
  }

  lemma NoKids(buf: bytes, h: Header, limits: Limits)
    requires |buf| == 3 && h.contentStart == 3 && h.len == Definite(0)
    ensures ParseBody(buf, h, 3, 1, false, 1, limits) == Ok(Read([], 3, 1))
  {
  }

  // ---------------------------------------------------------------- identifiers and lengths

  lemma DigitsOf(n: nat, b: nat)
    requires b >= 2
    ensures Digits(n, b) == if n < b then [n] else Digits(n / b, b) + [n % b]
  {
  }

  /** The octets that name a class, a form and a tag number, for every number the decoder accepts. */
  lemma IdentifierOctets(cls: Class, constructed: bool, tag: nat)
    requires tag < 0x1000_0000
    ensures var lead: nat := (match cls case Universal => 0 case Application => 64 case Context => 128
                              case Private => 192) + if constructed then 32 else 0;
      IdentBytes(cls, constructed, tag) ==
      if tag < 31 then [lead + tag]
      else if tag < 128 then [lead + 31, tag]
      else if tag < 16384 then [lead + 31, 128 + tag / 128, tag % 128]
      else if tag < 2097152 then [lead + 31, 128 + tag / 16384, 128 + tag / 128 % 128, tag % 128]
      else [lead + 31, 128 + tag / 2097152, 128 + tag / 16384 % 128, 128 + tag / 128 % 128, tag % 128]
  {
    FourDigits(tag);
    hide Digits;
  }

  lemma FourDigits(n: nat)
    requires n < 0x1000_0000
    ensures Digits(n, 128) ==
            if n < 128 then [n]
            else if n < 16384 then [n / 128, n % 128]
            else if n < 2097152 then [n / 16384, n / 128 % 128, n % 128]
            else [n / 2097152, n / 16384 % 128, n / 128 % 128, n % 128]
  {
    DigitsOf(n, 128);
    DigitsOf(n / 128, 128);
    DigitsOf(n / 128 / 128, 128);
    DigitsOf(n / 128 / 128 / 128, 128);
    hide Digits;
    assert n / 16384 == n / 128 / 128 && n / 2097152 == n / 128 / 128 / 128;
  }

  /** A short length is its own octet; a long one is written behind a count, shortest form first. */
  lemma LengthOctets(n: nat)
    requires n < 65536
    ensures LengthBytes(Definite(n)) ==
            if n < 128 then [n] else if n < 256 then [0x81, n] else [0x82, n / 256, n % 256]
    ensures LengthBytes(Indefinite) == [0x80]
  {
    DigitsOf(n, 256);
    DigitsOf(n / 256, 256);
    hide Digits;
  }

  /** Each octet more of a length adds one to the count and its own octet behind the others. */
  lemma LongerLength(n: nat, low: byte)
    requires 128 <= n && |LengthBytes(Definite(n))| <= 126
    ensures var ls := LengthBytes(Definite(n));
      LengthBytes(Definite(n * 256 + low)) == [ls[0] + 1] + ls[1..] + [low]
  {
    DigitsLonger(n, low);
    hide Digits;
  }

  lemma DigitsLonger(n: nat, low: byte)
    requires 128 <= n
    ensures Digits(n * 256 + low, 256) == Digits(n, 256) + [low]
  {
    var m := n * 256 + low;
    DigitsOf(m, 256);
    DivModUnique(n, 256, low);
    hide Digits;
  }

  // ---------------------------------------------------------------- nesting

  /** So many elements of a tag, each in the one before, around a NULL or an empty OCTET STRING. */
  function Nested(tag: nat, leaf: nat, d: nat): Tlv {
    if d == 0 then Prim(Universal, leaf, []) else Cons(Universal, tag, false, [Nested(tag, leaf, d - 1)])
  }

  lemma OneKid(t: Tlv, ber: bool)
    ensures EncAll([t]) == Enc(t) && CountAll([t]) == Count(t) && HeightAll([t]) == 1 + Height(t)
    ensures StringNestingAll([t]) == StringNesting(t) && (AllWellFormed([t], ber) <==> WellFormed(t, ber))
  {
    assert [t] + [] == [t];
    ListOf(t, [], ber);
    assert EncAll([]) == [] && CountAll([]) == 0 && HeightAll([]) == 0 && StringNestingAll([]) == 0;
  }

  lemma {:induction false} NestedMeasures(tag: nat, leaf: nat, d: nat, ber: bool)
    requires (tag == 16 && leaf == 5) || (tag == 4 && leaf == 4 && ber)
    ensures var t := Nested(tag, leaf, d);
      && WellFormed(t, ber) && Height(t) == d && Count(t) == d + 1
      && StringNesting(t) == (if tag == 4 then d else 0) && t.cls == Universal
      && t.tag == (if d == 0 then leaf else tag)
  {
    if d > 0 {
      var inner := Nested(tag, leaf, d - 1);
      NestedMeasures(tag, leaf, d - 1, ber);
      OneKid(inner, ber);
      assert FormOk(Universal, true, tag, ber);
      assert AllOctetStrings([inner]) || tag == 16;
      hide Enc, EncAll, CountAll, HeightAll, StringNestingAll, AllWellFormed, FormOk, AllOctetStrings, Nested;
      assert Nested(tag, leaf, d) == Cons(Universal, tag, false, [inner]) by { Unfolded(tag, leaf, d); }
    } else {
      assert FormOk(Universal, false, leaf, ber);
    }
  }

  lemma Unfolded(tag: nat, leaf: nat, d: nat)
    requires d > 0
    ensures Nested(tag, leaf, d) == Cons(Universal, tag, false, [Nested(tag, leaf, d - 1)])
  {
  }

  /** d nested SEQUENCEs are accepted exactly when d is within the depth cap and d + 1 elements within the item cap. */
  lemma NestedSequences(d: nat, limits: Limits)
    requires limits.maxBytes < TWO_48
    ensures var buf := Enc(Nested(16, 5, d));
      Parse(buf, false, false, limits) == Ok(Read(Nested(16, 5, d), |buf|, d + 1)) <==>
      |buf| <= limits.maxBytes && d <= limits.maxDepth && d + 1 <= limits.maxItems
  {
    NestedMeasures(16, 5, d, false);
    AcceptsExactly(Enc(Nested(16, 5, d)), false, false, limits, Nested(16, 5, d));
    hide Parse, WellFormed, Height, Count, StringNesting;
  }

  /** In BER mode d nested constructed OCTET STRINGs must also be within the cap on string nesting. */
  lemma NestedStrings(d: nat, limits: Limits)
    requires limits.maxBytes < TWO_48
    ensures var buf := Enc(Nested(4, 4, d));
      Parse(buf, true, false, limits) == Ok(Read(Nested(4, 4, d), |buf|, d + 1)) <==>
      && |buf| <= limits.maxBytes && d <= limits.maxDepth && d + 1 <= limits.maxItems
      && d <= limits.maxStringNesting
  {
    NestedMeasures(4, 4, d, true);
    AcceptsExactly(Enc(Nested(4, 4, d)), true, false, limits, Nested(4, 4, d));
    hide Parse, WellFormed, Height, Count, StringNesting;
  }

  /** Their octets: 30, the length of the rest, and the rest, down to 05 00; 24 and 04 00 for strings. */
  lemma NestedOctets(d: nat)
    ensures Enc(Nested(16, 5, 0)) == [0x05, 0] && Enc(Nested(4, 4, 0)) == [0x04, 0]
    ensures d > 0 ==> var inner := Enc(Nested(16, 5, d - 1));
      Enc(Nested(16, 5, d)) == [0x30] + LengthBytes(Definite(|inner|)) + inner
    ensures d > 0 ==> var inner := Enc(Nested(4, 4, d - 1));
      Enc(Nested(4, 4, d)) == [0x24] + LengthBytes(Definite(|inner|)) + inner
  {
    if d > 0 {
      OneKid(Nested(16, 5, d - 1), false);
      OneKid(Nested(4, 4, d - 1), true);
    }
    hide LengthBytes;
    LengthOctets(0);
  }

  /** A string of indefinite length in BER mode: 24 80, its segments, 00 00. */
  lemma IndefiniteString(x: byte, limits: Limits)
    requires 7 <= limits.maxBytes < TWO_48
    ensures var buf := [0x24, 0x80, 0x04, 1, x, 0, 0];
      Parse(buf, true, false, limits) ==
      Ok(Read(Cons(Universal, 4, true, [Prim(Universal, 4, [x])]), 7, 2)) <==>
      limits.maxDepth >= 1 && limits.maxItems >= 2 && limits.maxStringNesting >= 1
  {
    var inner := Prim(Universal, 4, [x]);
    OneKid(inner, true);
    LengthOctets(1);
    assert Enc(inner) == [0x04, 1, x];
    hide Parse, AllOctetStrings, LengthBytes;
    var t := Cons(Universal, 4, true, [inner]);
    assert AllOctetStrings([inner]) by { StringsOnly(inner); }
    IndefiniteOctets(inner);
    AcceptsExactly([0x24, 0x80, 0x04, 1, x, 0, 0], true, false, limits, t);
  }

  lemma StringsOnly(t: Tlv)
    requires IsOctetString(t)
    ensures AllOctetStrings([t])
  {
  }

  lemma IndefiniteOctets(t: Tlv)
    ensures Enc(Cons(Universal, 4, true, [t])) == [0x24, 0x80] + Enc(t) + [0, 0]
  {
    OneKid(t, true);
    LengthOctets(0);
    hide LengthBytes;
  }
}
