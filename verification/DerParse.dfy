/**
 What decode of asn1-der.js accepts, as functions of the input: the same branches in the
 same order with the same errors, reading octets into a concrete syntax tree. The method
 in DerDecoder.dfy is proved to follow these functions.
 */
module DerParse {
  import opened Wrappers
  import opened Octets
  import opened DerSyntax

  datatype DerError =
    | TooLarge | TooDeep | TooManyItems | Truncated | NonMinimalTag | TagTooLarge | ReservedTag
    | BadTlv | ConstructedPrimitiveType | BadConstructedString | IndefiniteLength
    | LengthTooLarge | NonMinimalLength | TrailingBytes

  datatype Limits = Limits(maxBytes: nat, maxDepth: nat, maxItems: nat, maxStringNesting: nat)

  /** A value read, the offset after it, and the count of elements read so far. */
  datatype Read<+T> = Read(item: T, end: nat, count: nat)

  datatype Header = Header(cls: Class, constructed: bool, tag: nat, strDepth: nat, len: Length, contentStart: nat)

  /** The high-tag-number octets from p on; acc and seen describe the octets before p. */
  function ParseHighTag(buf: bytes, p: nat, limit: nat, acc: nat, seen: nat): (r: Result<(nat, nat), DerError>)
    requires p <= limit <= |buf|
    ensures r.Ok? ==> p < r.value.1 <= limit
    decreases limit - p
  {
    if p >= limit then Err(Truncated)
    else if seen == 0 && buf[p] == 0x80 then Err(NonMinimalTag)
    else if seen + 1 > 4 then Err(TagTooLarge)
    else if buf[p] < 128 then Ok((acc * 128 + buf[p] % 128, p + 1))
    else ParseHighTag(buf, p + 1, limit, acc * 128 + buf[p] % 128, seen + 1)
  }

  /** The tag number named by the first identifier octet and whatever follows it. */
  function ParseTag(buf: bytes, p: nat, limit: nat): (r: Result<(nat, nat), DerError>)
    requires p < limit <= |buf|
    ensures r.Ok? ==> p < r.value.1 <= limit
  {
    if buf[p] % 32 != 31 then Ok((buf[p] % 32, p + 1))
    else
      match ParseHighTag(buf, p + 1, limit, 0, 0)
      case Err(e) => Err(e)
      case Ok(tagAndEnd) => if tagAndEnd.0 < 31 then Err(NonMinimalTag) else Ok(tagAndEnd)
  }

  /** The numeral of a long-form length: its k octets from p on. */
  function ParseLongLength(buf: bytes, p: nat, k: nat): nat
    requires p + k <= |buf|
    decreases k
  {
    if k == 0 then 0 else ParseLongLength(buf, p, k - 1) * 256 + buf[p + k - 1]
  }

  function ParseLength(buf: bytes, p: nat, limit: nat, indefiniteAllowed: bool): (r: Result<(Length, nat), DerError>)
    requires p <= limit <= |buf|
    ensures r.Ok? ==> p < r.value.1 <= limit
  {
    if p >= limit then Err(Truncated)
    else if buf[p] < 0x80 then Ok((Definite(buf[p]), p + 1))
    else if buf[p] == 0x80 then
      if indefiniteAllowed then Ok((Indefinite, p + 1)) else Err(IndefiniteLength)
    else
      var k := buf[p] - 128;
      if k > 6 then Err(LengthTooLarge)
      else if p + 1 + k > limit then Err(Truncated)
      else if buf[p + 1] == 0 then Err(NonMinimalLength)
      else
        var n := ParseLongLength(buf, p + 1, k);
        if n < 128 then Err(NonMinimalLength) else Ok((Definite(n), p + 1 + k))
  }

  /** Identifier and length octets, with every rule that can be decided on them. */
  function ParseHeader(buf: bytes, start: nat, limit: nat, ber: bool, strDepth: nat,
      limits: Limits): (r: Result<Header, DerError>)
    requires start <= limit <= |buf|
    ensures r.Ok? ==> start + 2 <= r.value.contentStart <= limit
    ensures r.Ok? && r.value.len.Definite? ==> r.value.contentStart + r.value.len.n <= limit
    ensures r.Ok? && r.value.len.Indefinite? ==> r.value.constructed
  {
    if start >= limit then Err(Truncated)
    else
      var cls := ClassOf(buf[start]);
      var constructed := buf[start] / 32 % 2 == 1;
      match ParseTag(buf, start, limit)
      case Err(e) => Err(e)
      case Ok((tag, p)) =>
        if cls == Universal && Reserved(tag) then Err(ReservedTag)
        else if cls == Universal && ConstructedOnly(tag) && !constructed then Err(BadTlv)
        else
          var primitiveType := cls == Universal && constructed && !ConstructedOnly(tag);
          if primitiveType && !(ber && tag == OCTET_STRING) then Err(ConstructedPrimitiveType)
          else
            var strDepth' := if primitiveType then strDepth + 1 else strDepth;
            if primitiveType && strDepth' > limits.maxStringNesting then Err(BadConstructedString)
            else
              match ParseLength(buf, p, limit, ber && constructed)
              case Err(e) => Err(e)
              case Ok((len, contentStart)) =>
                if len.Definite? && contentStart + len.n > limit then Err(Truncated)
                else Ok(Header(cls, constructed, tag, strDepth', len, contentStart))
  }

  /** The constructed element a header and its children make. */
  function Assemble(h: Header, kids: Read<seq<Tlv>>, ber: bool): (r: Result<Read<Tlv>, DerError>)
    ensures r.Ok? ==> r.value.end == if h.len.Indefinite? then kids.end + 2 else kids.end
  {
    var t := Cons(h.cls, h.tag, h.len.Indefinite?, kids.item);
    if ber && IsOctetString(t) && !AllOctetStrings(kids.item) then Err(BadConstructedString)
    else Ok(Read(t, if h.len.Indefinite? then kids.end + 2 else kids.end, kids.count))
  }

  /** One element at start, reading no octet at or past limit. */
  function ParseTlv(buf: bytes, start: nat, limit: nat, depth: nat, ber: bool, strDepth: nat, count: nat,
      limits: Limits): (r: Result<Read<Tlv>, DerError>)
    requires start <= limit <= |buf|
    ensures r.Ok? ==> start + 2 <= r.value.end <= limit
    decreases limit - start, 0
  {
    if depth > limits.maxDepth then Err(TooDeep)
    else if count + 1 > limits.maxItems then Err(TooManyItems)
    else
      match ParseHeader(buf, start, limit, ber, strDepth, limits)
      case Err(e) => Err(e)
      case Ok(h) =>
        if !h.constructed then
          var end := h.contentStart + h.len.n;
          Ok(Read(Prim(h.cls, h.tag, buf[h.contentStart..end]), end, count + 1))
        else
          match ParseBody(buf, h, limit, depth + 1, ber, count + 1, limits)
          case Err(e) => Err(e)
          case Ok(kids) => Assemble(h, kids, ber)
  }

  /** The children of a constructed element. */
  function ParseBody(buf: bytes, h: Header, limit: nat, depth: nat, ber: bool, count: nat,
      limits: Limits): (r: Result<Read<seq<Tlv>>, DerError>)
    requires h.contentStart <= limit <= |buf|
    requires h.len.Definite? ==> h.contentStart + h.len.n <= limit
    ensures r.Ok? ==> h.contentStart <= r.value.end
    ensures r.Ok? ==> r.value.end + (if h.len.Indefinite? then 2 else 0) <= limit
    decreases limit - h.contentStart, 2
  {
    match h.len
    case Indefinite => ParseUntilEnd(buf, h.contentStart, limit, depth, ber, h.strDepth, count, limits)
    case Definite(n) => ParseKids(buf, h.contentStart, h.contentStart + n, depth, ber, h.strDepth, count, limits)
  }

  /** Elements filling the octets from cp up to end. */
  function ParseKids(buf: bytes, cp: nat, end: nat, depth: nat, ber: bool, strDepth: nat, count: nat,
      limits: Limits): (r: Result<Read<seq<Tlv>>, DerError>)
    requires cp <= end <= |buf|
    ensures r.Ok? ==> r.value.end == end
    decreases end - cp, 1
  {
    if cp >= end then Ok(Read([], cp, count))
    else
      match ParseTlv(buf, cp, end, depth, ber, strDepth, count, limits)
      case Err(e) => Err(e)
      case Ok(first) =>
        match ParseKids(buf, first.end, end, depth, ber, strDepth, first.count, limits)
        case Err(e) => Err(e)
        case Ok(rest) => Ok(Read([first.item] + rest.item, rest.end, rest.count))
  }

  /** Elements up to an end-of-contents pair; the offset returned is that of the pair. */
  function ParseUntilEnd(buf: bytes, cp: nat, limit: nat, depth: nat, ber: bool, strDepth: nat, count: nat,
      limits: Limits): (r: Result<Read<seq<Tlv>>, DerError>)
    requires cp <= limit <= |buf|
    ensures r.Ok? ==> cp <= r.value.end && r.value.end + 2 <= limit
    decreases limit - cp, 1
  {
    if cp + 2 > limit then Err(Truncated)
    else if buf[cp] == 0 && buf[cp + 1] == 0 then Ok(Read([], cp, count))
    else
      match ParseTlv(buf, cp, limit, depth, ber, strDepth, count, limits)
      case Err(e) => Err(e)
      case Ok(first) =>
        match ParseUntilEnd(buf, first.end, limit, depth, ber, strDepth, first.count, limits)
        case Err(e) => Err(e)
        case Ok(rest) => Ok(Read([first.item] + rest.item, rest.end, rest.count))
  }

  /** decode: the whole input is one element, unless trailing octets are allowed. */
  function Parse(buf: bytes, ber: bool, allowTrailing: bool, limits: Limits): (r: Result<Read<Tlv>, DerError>)
  {
    if |buf| > limits.maxBytes then Err(TooLarge)
    else
      match ParseTlv(buf, 0, |buf|, 0, ber, 0, 0, limits)
      case Err(e) => Err(e)
      case Ok(r) => if !allowTrailing && r.end != |buf| then Err(TrailingBytes) else Ok(r)
  }
}
