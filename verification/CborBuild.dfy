/**
 The builders of cbor-det.js. Heads are written octet by octet into a buffer; array, map and
 tag join pre-encoded parts and have the strict decoder check the result.
 */
module CborBuild {
  import opened Wrappers
  import opened Octets
  import opened Radix
  import opened BigEndian
  import opened CborSyntax
  import opened CborParse
  import opened Sorting
  import CborDecoder
  import Utf8

  datatype BuildError =
    | BadArgument | BadItem(cause: CborError) | DuplicateKey | TooLong | BiguintTooLarge | IllFormedText

  // ---------------------------------------------------------------- heads

  function HeadOrError(mt: nat, a: int): Result<bytes, BuildError>
    requires mt < 8
  {
    if 0 <= a < TWO_64 then Ok(HeadBytes(mt, a)) else Err(BadArgument)
  }

  /** _head: major type and argument in the shortest form, or an error for an argument no head can carry. */
  method Head(mt: nat, a: int) returns (r: Result<bytes, BuildError>)
    requires mt < 8
    ensures r == HeadOrError(mt, a)
  {
    hide Pow, FixedBytes;
    if a < 0 { return Err(BadArgument); }
    if a > 0xFFFF_FFFF_FFFF_FFFF { return Err(BadArgument); }
    if a <= 23 { return Ok([mt * 32 + a]); }
    Widths();
    var width := if a < 256 then 1 else if a < 65536 then 2 else if a < 4294967296 then 4 else 8;
    var info := if a < 256 then 24 else if a < 65536 then 25 else if a < 4294967296 then 26 else 27;
    var b := new byte[1 + width](_ => 0);
    b[0] := mt * 32 + info;
    assert b[..1] == [mt * 32 + info];
    WriteBigEndian(b, 1, a);
    assert b[..] == b[..1] + b[1..];
    r := Ok(b[..]);
  }

  // ---------------------------------------------------------------- scalars and strings

  /** build.int: a non-negative integer is its own argument, a negative one is -1 minus its argument. */
  function IntBytes(n: int): Result<bytes, BuildError> {
    if n >= 0 then HeadOrError(0, n) else HeadOrError(1, -1 - n)
  }

  function Capped(out: bytes, limits: Limits): Result<bytes, BuildError> {
    if |out| > limits.maxBytes then Err(TooLong) else Ok(out)
  }

  function ByteStringBytes(content: bytes, limits: Limits): Result<bytes, BuildError> {
    match HeadOrError(2, |content|)
    case Err(e) => Err(e)
    case Ok(head) => Capped(head + content, limits)
  }

  /** A text of Unicode code points; an unpaired surrogate is refused. */
  function TextStringBytes(text: seq<nat>, limits: Limits): Result<bytes, BuildError> {
    if !Utf8.AllScalars(text) then Err(IllFormedText)
    else
      var content := Utf8.Encode(text);
      match HeadOrError(3, |content|)
      case Err(e) => Err(e)
      case Ok(head) => Capped(head + content, limits)
  }

  // ---------------------------------------------------------------- containers

  function AssertDecodes(out: bytes, limits: Limits): Result<bytes, BuildError> {
    match Parse(out, false, limits)
    case Err(e) => Err(BadItem(e))
    case Ok(_) => Ok(out)
  }

  function ArrayBytes(parts: seq<bytes>, limits: Limits): Result<bytes, BuildError> {
    match HeadOrError(4, |parts|)
    case Err(e) => Err(e)
    case Ok(head) => AssertDecodes(head + Concat(parts), limits)
  }

  function TagBytes(num: int, inner: bytes, limits: Limits): Result<bytes, BuildError> {
    match HeadOrError(6, num)
    case Err(e) => Err(e)
    case Ok(head) => AssertDecodes(head + inner, limits)
  }

  /** build.biguint: the shortest magnitude of a number that needs more than eight octets, under tag 2. */
  function BiguintBytes(n: int, maxBiguint: nat, limits: Limits): Result<bytes, BuildError> {
    if n < 0 then Err(BadArgument)
    else
      ValueOfDigits(n, 256);
      var magnitude: bytes := if n == 0 then [] else Digits(n, 256);
      if |magnitude| <= 8 then Err(BadArgument)
      else if |magnitude| > maxBiguint then Err(BiguintTooLarge)
      else
        match ByteStringBytes(magnitude, limits)
        case Err(e) => Err(e)
        case Ok(inner) => TagBytes(2, inner, limits)
  }

  type Entry = (bytes, bytes)

  function KeyOctets(p: Entry): bytes { p.0 }

  /** Keys and values in turn. */
  function Flat(ps: seq<Entry>): bytes {
    if ps == [] then [] else ps[0].0 + ps[0].1 + Flat(ps[1..])
  }

  predicate AdjacentDuplicate(ps: seq<Entry>) {
    exists i :: 0 < i < |ps| && SameKeyAt(ps, i)
  }

  predicate SameKeyAt(ps: seq<Entry>, i: nat)
    requires 0 < i < |ps|
  {
    ps[i - 1].0 == ps[i].0
  }

  function MapBytes(pairs: seq<Entry>, limits: Limits): Result<bytes, BuildError> {
    var sorted := SortedCopy(pairs, KeyOctets);
    if AdjacentDuplicate(sorted) then Err(DuplicateKey)
    else
      match HeadOrError(5, |pairs|)
      case Err(e) => Err(e)
      case Ok(head) => AssertDecodes(head + Flat(sorted), limits)
  }

  lemma {:induction false} FlatAppend(ps: seq<Entry>, p: Entry)
    ensures Flat(ps + [p]) == Flat(ps) + p.0 + p.1
  {
    if ps == [] {
      assert ps + [p] == [p];
      assert Flat([p]) == p.0 + p.1 + Flat([]);
    } else {
      FlatAppend(ps[1..], p);
      assert (ps + [p])[0] == ps[0] && (ps + [p])[1..] == ps[1..] + [p];
    }
  }

  /** Adjacent keys compared, in order. */
  method RepeatsKey(sorted: seq<Entry>) returns (repeats: bool)
    ensures repeats == AdjacentDuplicate(sorted)
  {
    var i := 1;
    while i < |sorted|
      invariant 1 <= i
      invariant forall j :: 0 < j < i && j < |sorted| ==> !SameKeyAt(sorted, j)
    {
      if sorted[i - 1].0 == sorted[i].0 {
        assert SameKeyAt(sorted, i);
        return true;
      }
      i := i + 1;
    }
    repeats := false;
  }

  /** The head, then each key and value pushed in turn, then everything joined. */
  method JoinEntries(head: bytes, sorted: seq<Entry>) returns (out: bytes)
    ensures out == head + Flat(sorted)
  {
    var flat := [head];
    assert Concat(flat) == head + Concat([]);
    for i := 0 to |sorted|
      invariant Concat(flat) == head + Flat(sorted[..i])
    {
      var p := sorted[i];
      ConcatAppend(flat, p.0);
      ConcatAppend(flat + [p.0], p.1);
      FlatAppend(sorted[..i], p);
      assert sorted[..i + 1] == sorted[..i] + [p];
      flat := flat + [p.0];
      flat := flat + [p.1];
    }
    assert sorted[..|sorted|] == sorted;
    out := Concat(flat);
  }

  /** build.map: sort by key, refuse a repeated key, join head, keys and values, decode the result. */
  method BuildMap(pairs: seq<Entry>, limits: Limits) returns (r: Result<bytes, BuildError>)
    requires limits.maxBytes < TWO_64
    ensures r == MapBytes(pairs, limits)
  {
    hide SortedCopy, HeadBytes, Parse, AdjacentDuplicate, Flat;
    var sorted := SortedCopy(pairs, KeyOctets);
    var repeats := RepeatsKey(sorted);
    if repeats { return Err(DuplicateKey); }
    var head := Head(5, |pairs|);
    if head.Err? { return head; }
    var out := JoinEntries(head.value, sorted);
    var decoded := CborDecoder.Decode(out, false, limits);
    r := match decoded case Err(e) => Err(BadItem(e)) case Ok(_) => Ok(out);
  }
}
