/**
 The concrete syntax of the encodings the decoder of asn1-der.js reads: trees of primitive
 and constructed elements, their octets, and the form rules an accepted tree meets.
 Definite-length trees that meet the strict rules are DER; the scoped BER mode adds
 indefinite lengths and constructed OCTET STRINGs.
 */
module DerSyntax {
  import opened Octets
  import opened Radix
  import opened Base128

  datatype Class = Universal | Application | Context | Private

  function ClassBits(c: Class): byte {
    match c
    case Universal => 0
    case Application => 64
    case Context => 128
    case Private => 192
  }

  function ClassOf(octet: byte): (c: Class)
    ensures ClassBits(c) == octet / 64 * 64
  {
    match octet / 64
    case 0 => Universal
    case 1 => Application
    case 2 => Context
    case _ => Private
  }

  const OCTET_STRING := 4
  const SEQUENCE := 16
  const SET := 17
  const MAX_TAG := 0x0fff_ffff

  /** The tag numbers X.680 Table 1 assigns to no type. */
  predicate Reserved(tag: nat) {
    tag == 0 || tag == 15 || tag >= 37
  }

  /** EXTERNAL, EMBEDDED PDV, SEQUENCE, SET and CHARACTER STRING. */
  predicate ConstructedOnly(tag: nat) {
    tag == 8 || tag == 11 || tag == 16 || tag == 17 || tag == 29
  }

  datatype Length = Definite(n: nat) | Indefinite

  /** One element. A constructed element has a definite or an indefinite length. */
  datatype Tlv =
    | Prim(cls: Class, tag: nat, content: bytes)
    | Cons(cls: Class, tag: nat, indefinite: bool, kids: seq<Tlv>)

  // ---------------------------------------------------------------- octets

  /** Identifier octets: one octet below tag 31, else the high-tag-number form. */
  function IdentBytes(cls: Class, constructed: bool, tag: nat): (r: bytes)
    ensures |r| >= 1
  {
    var lead := ClassBits(cls) + if constructed then 32 else 0;
    if tag < 31 then [lead + tag]
    else
      ValueOfDigits(tag, 128);
      [lead + 31] + Continued(Digits(tag, 128))
  }

  /**
   Length octets: one octet below 128, else a count octet and the shortest numeral. A count
   past 126 does not fit the count octet; 255 stands there, which every reader refuses.
   */
  function LengthBytes(len: Length): (r: bytes)
    ensures |r| >= 1
  {
    match len
    case Indefinite => [128]
    case Definite(n) =>
      if n < 128 then [n]
      else
        ValueOfDigits(n, 256);
        var ds := Digits(n, 256);
        [if |ds| <= 126 then 128 + |ds| else 255] + ds
  }

  function HeaderBytes(cls: Class, constructed: bool, tag: nat, len: Length): (r: bytes)
    ensures |r| >= 2
  {
    IdentBytes(cls, constructed, tag) + LengthBytes(len)
  }

  const END_OF_CONTENTS: bytes := [0, 0]

  /** The octets of an element. */
  function Enc(t: Tlv): (r: bytes)
    ensures |r| >= 2
    decreases t, 0
  {
    match t
    case Prim(cls, tag, content) => HeaderBytes(cls, false, tag, Definite(|content|)) + content
    case Cons(cls, tag, indefinite, kids) =>
      var body := EncAll(kids);
      if indefinite then HeaderBytes(cls, true, tag, Indefinite) + body + END_OF_CONTENTS
      else HeaderBytes(cls, true, tag, Definite(|body|)) + body
  }

  /** The octets of a list of elements, one after another. */
  function EncAll(ts: seq<Tlv>): bytes
    decreases ts, 1
  {
    if ts == [] then [] else Enc(ts[0]) + EncAll(ts[1..])
  }

  // ---------------------------------------------------------------- form rules

  /** The rules on class, tag number and form, in DER and in the scoped BER mode. */
  predicate FormOk(cls: Class, constructed: bool, tag: nat, ber: bool) {
    tag <= MAX_TAG &&
    (cls == Universal ==>
       !Reserved(tag) &&
       (ConstructedOnly(tag) ==> constructed) &&
       (constructed ==> ConstructedOnly(tag) || (ber && tag == OCTET_STRING)))
  }

  predicate IsOctetString(t: Tlv) {
    t.cls == Universal && t.tag == OCTET_STRING
  }

  /** Every element obeys the form rules; a constructed OCTET STRING holds OCTET STRINGs only. */
  predicate WellFormed(t: Tlv, ber: bool)
    decreases t, 0
  {
    match t
    case Prim(cls, tag, _) => FormOk(cls, false, tag, ber)
    case Cons(cls, tag, indefinite, kids) =>
      FormOk(cls, true, tag, ber) && (indefinite ==> ber) && AllWellFormed(kids, ber) &&
      (IsOctetString(t) ==> AllOctetStrings(kids))
  }

  predicate AllWellFormed(ts: seq<Tlv>, ber: bool)
    decreases ts, 1
  {
    ts == [] || (WellFormed(ts[0], ber) && AllWellFormed(ts[1..], ber))
  }

  predicate AllOctetStrings(ts: seq<Tlv>) {
    forall i :: 0 <= i < |ts| ==> IsOctetString(ts[i])
  }

  // ---------------------------------------------------------------- measures

  function Max(a: nat, b: nat): nat {
    if a >= b then a else b
  }

  /** Levels of nesting below an element. */
  function Height(t: Tlv): nat
    decreases t, 0
  {
    match t
    case Prim(_, _, _) => 0
    case Cons(_, _, _, kids) => HeightAll(kids)
  }

  function HeightAll(ts: seq<Tlv>): nat
    decreases ts, 1
  {
    if ts == [] then 0 else Max(1 + Height(ts[0]), HeightAll(ts[1..]))
  }

  /** Elements in a tree. */
  function Count(t: Tlv): nat
    decreases t, 0
  {
    match t
    case Prim(_, _, _) => 1
    case Cons(_, _, _, kids) => 1 + CountAll(kids)
  }

  function CountAll(ts: seq<Tlv>): nat
    decreases ts, 1
  {
    if ts == [] then 0 else Count(ts[0]) + CountAll(ts[1..])
  }

  /** Constructed OCTET STRINGs on the deepest path: what the string nesting cap counts. */
  function StringNesting(t: Tlv): nat
    decreases t, 0
  {
    match t
    case Prim(_, _, _) => 0
    case Cons(_, _, _, kids) => (if IsOctetString(t) then 1 else 0) + StringNestingAll(kids)
  }

  function StringNestingAll(ts: seq<Tlv>): nat
    decreases ts, 1
  {
    if ts == [] then 0 else Max(StringNesting(ts[0]), StringNestingAll(ts[1..]))
  }
}
