/**
 What decode of cbor-det.js accepts, as functions of the input: the branches of _decodeItem
 in order, with its errors.
 */
module CborParse {
  import opened Wrappers
  import opened Octets
  import opened Radix
  import opened BigEndian
  import opened CborFloat
  import opened CborSyntax
  import Utf8

  datatype CborError =
    | TooLarge | TooDeep | TooManyItems | Truncated | UnexpectedBreak | ReservedAi | IndefiniteLength
    | NonMinimalArgument | BadUtf8 | UnsortedMapKeys | DuplicateMapKey | ReservedSimple
    | NonCanonicalNaN | NonMinimalFloat | TrailingBytes

  datatype Limits = Limits(maxBytes: nat, maxDepth: nat, maxItems: nat)

  datatype Head = Head(mt: nat, ai: nat, arg: nat, contentStart: nat)

  datatype Read<+T> = Read(item: T, end: nat, count: nat)

  /** The argument of a head is the additional information, or fits the octets it was read from. */
  predicate HeadOk(h: Head) {
    h.mt < 8 && h.ai <= 27 && (if h.ai <= 23 then h.arg == h.ai else h.arg < Pow(256, ArgWidth(h.ai)))
  }

  /** The least argument that needs this additional information. */
  function LeastFor(ai: nat): nat {
    if ai == 24 then 24 else if ai == 25 then 256 else if ai == 26 then 65536 else 0x1_0000_0000
  }

  function ParseHead(buf: bytes, start: nat, limit: nat): (r: Result<Head, CborError>)
    requires start <= limit <= |buf|
    ensures r.Ok? ==> start < r.value.contentStart <= limit && HeadOk(r.value)
  {
    if start >= limit then Err(Truncated)
    else
      var ib := buf[start];
      var mt, ai := ib / 32, ib % 32;
      if ib == 0xFF then Err(UnexpectedBreak)
      else if 28 <= ai <= 30 then Err(ReservedAi)
      else if ai == 31 then (if 2 <= mt <= 5 then Err(IndefiniteLength) else Err(ReservedAi))
      else if ai <= 23 then Ok(Head(mt, ai, ai, start + 1))
      else
        var w := ArgWidth(ai);
        if start + 1 + w > limit then Err(Truncated)
        else
          var arg := NumberAt(buf, start + 1, w);
          if mt != 7 && arg < LeastFor(ai) then Err(NonMinimalArgument)
          else Ok(Head(mt, ai, arg, start + 1 + w))
  }

  /** The content octets of a string of the given length. */
  function ParseString(buf: bytes, p: nat, limit: nat, len: nat): (r: Result<bytes, CborError>)
    requires p <= limit <= |buf|
    ensures r.Ok? ==> p + |r.value| <= limit && |r.value| == len
  {
    if p + len > limit then Err(Truncated) else Ok(buf[p..p + len])
  }

  /** Simple values and floats. */
  function ParseMajor7(h: Head): (r: Result<Item, CborError>)
    requires HeadOk(h)
  {
    if h.ai <= 23 then Ok(Simple(h.ai))
    else if h.ai == 24 then (if h.arg < 32 then Err(ReservedSimple) else Ok(Simple(h.arg)))
    else
      FloatBitsFit(h.ai, h.arg);
      var v := ValueOf(FormatOf(h.ai), h.arg);
      if v == NaN then
        if h.ai == 25 && h.arg == CANONICAL_NAN then Ok(Float(h.ai, h.arg)) else Err(NonCanonicalNaN)
      else if h.ai >= 26 && Roundtrips(HALF, v) then Err(NonMinimalFloat)
      else if h.ai == 27 && Roundtrips(SINGLE, v) then Err(NonMinimalFloat)
      else Ok(Float(h.ai, h.arg))
  }

  function ParseItem(buf: bytes, start: nat, limit: nat, depth: nat, count: nat,
      limits: Limits): (r: Result<Read<Item>, CborError>)
    requires start <= limit <= |buf|
    ensures r.Ok? ==> start < r.value.end <= limit
    decreases limit - start, 0
  {
    if depth > limits.maxDepth then Err(TooDeep)
    else if count + 1 > limits.maxItems then Err(TooManyItems)
    else
      match ParseHead(buf, start, limit)
      case Err(e) => Err(e)
      case Ok(h) => ParseContent(buf, h, limit, depth, count + 1, limits)
  }

  function ParseContent(buf: bytes, h: Head, limit: nat, depth: nat, count: nat,
      limits: Limits): (r: Result<Read<Item>, CborError>)
    requires h.contentStart <= limit <= |buf| && HeadOk(h)
    ensures r.Ok? ==> h.contentStart <= r.value.end <= limit
    decreases limit - h.contentStart, 2
  {
    var p := h.contentStart;
    if h.mt == 0 then Ok(Read(UInt(h.arg), p, count))
    else if h.mt == 1 then Ok(Read(NInt(h.arg), p, count))
    else if h.mt == 2 then
      match ParseString(buf, p, limit, h.arg)
      case Err(e) => Err(e)
      case Ok(s) => Ok(Read(Bytes(s), p + |s|, count))
    else if h.mt == 3 then
      match ParseString(buf, p, limit, h.arg)
      case Err(e) => Err(e)
      case Ok(s) => if Utf8.Decode(s).None? then Err(BadUtf8) else Ok(Read(Text(s), p + |s|, count))
    else if h.mt == 4 then
      match ParseItems(buf, p, limit, h.arg, depth + 1, count, limits)
      case Err(e) => Err(e)
      case Ok(r) => Ok(Read(Array(r.item), r.end, r.count))
    else if h.mt == 5 then
      match ParsePairs(buf, p, limit, h.arg, None, depth + 1, count, limits)
      case Err(e) => Err(e)
      case Ok(r) => Ok(Read(Map(r.item), r.end, r.count))
    else if h.mt == 6 then
      match ParseItem(buf, p, limit, depth + 1, count, limits)
      case Err(e) => Err(e)
      case Ok(r) => Ok(Read(Tag(h.arg, r.item), r.end, r.count))
    else
      match ParseMajor7(h)
      case Err(e) => Err(e)
      case Ok(x) => Ok(Read(x, p, count))
  }

  function ParseItems(buf: bytes, cp: nat, limit: nat, n: nat, depth: nat, count: nat,
      limits: Limits): (r: Result<Read<seq<Item>>, CborError>)
    requires cp <= limit <= |buf|
    ensures r.Ok? ==> cp <= r.value.end <= limit && |r.value.item| == n
    decreases limit - cp, 1
  {
    if n == 0 then Ok(Read([], cp, count))
    else
      match ParseItem(buf, cp, limit, depth, count, limits)
      case Err(e) => Err(e)
      case Ok(first) =>
        match ParseItems(buf, first.end, limit, n - 1, depth, first.count, limits)
        case Err(e) => Err(e)
        case Ok(rest) => Ok(Read([first.item] + rest.item, rest.end, rest.count))
  }

  /** The comparison of a key with the one before it. */
  function KeyOrder(last: Option<bytes>, key: bytes): Option<CborError> {
    if last.None? || Less(last.value, key) then None
    else if last.value == key then Some(DuplicateMapKey)
    else Some(UnsortedMapKeys)
  }

  function ParsePairs(buf: bytes, mp: nat, limit: nat, n: nat, last: Option<bytes>, depth: nat, count: nat,
      limits: Limits): (r: Result<Read<seq<Pair>>, CborError>)
    requires mp <= limit <= |buf|
    ensures r.Ok? ==> mp <= r.value.end <= limit && |r.value.item| == n
    decreases limit - mp, 1
  {
    if n == 0 then Ok(Read([], mp, count))
    else
      match ParseItem(buf, mp, limit, depth, count, limits)
      case Err(e) => Err(e)
      case Ok(k) =>
        match ParseItem(buf, k.end, limit, depth, k.count, limits)
        case Err(e) => Err(e)
        case Ok(v) =>
          var key := buf[mp..k.end];
          match KeyOrder(last, key)
          case Some(e) => Err(e)
          case None =>
            match ParsePairs(buf, v.end, limit, n - 1, Some(key), depth, v.count, limits)
            case Err(e) => Err(e)
            case Ok(rest) => Ok(Read([Pair(k.item, v.item)] + rest.item, rest.end, rest.count))
  }

  function Parse(buf: bytes, allowTrailing: bool, limits: Limits): Result<Read<Item>, CborError> {
    if |buf| > limits.maxBytes then Err(TooLarge)
    else
      match ParseItem(buf, 0, |buf|, 0, 0, limits)
      case Err(e) => Err(e)
      case Ok(r) => if !allowTrailing && r.end != |buf| then Err(TrailingBytes) else Ok(r)
  }
}
