/**
 The encoders: octets counted, a buffer allocated, and the buffer filled from its end. Each
 is proved to write the octets DerSyntax.dfy gives the header and the element.
 */
module DerEncoder {
  import opened Wrappers
  import opened Octets
  import opened Radix
  import opened Base128
  import opened DerSyntax

  datatype EncodeError = LengthTooLarge | BadTag | TagTooLarge | ReservedTag

  lemma DigitsStep(n: nat, b: nat)
    requires 2 <= b <= n
    ensures Digits(n, b) == Digits(n / b, b) + [n % b] && n / b > 0
  {
    QuotientShrinks(n, b);
  }

  /** encodeLength: the short form below 128, else a count octet and the octets of n. */
  method EncodeLength(n: nat) returns (r: Result<bytes, EncodeError>)
    ensures r == if n >= 128 && |Digits(n, 256)| > 126 then Err(LengthTooLarge) else Ok(LengthBytes(Definite(n)))
  {
    hide Digits, Pow;
    if n < 0x80 { return Ok([n]); }
    var count := 0;
    var probe: nat := n;
    while probe > 0
      invariant probe > 0 ==> count + |Digits(probe, 256)| == |Digits(n, 256)|
      invariant probe == 0 ==> count == |Digits(n, 256)|
      decreases probe
    {
      if probe >= 256 { DigitsStep(probe, 256); } else { ShortDigits(probe, 256); }
      count := count + 1;
      probe := probe / 256;
    }
    if count > 126 { return Err(LengthTooLarge); }
    ghost var ds := Digits(n, 256);
    ValueOfDigits(n, 256);
    var out := new byte[count + 1](_ => 0);
    out[0] := 128 + count;
    var v: nat := n;
    var i := count;
    assert ds[..count] == ds;
    while i >= 1
      invariant 0 <= i <= count
      invariant i > 0 ==> Digits(v, 256) == ds[..i]
      invariant out[0] == 128 + count
      invariant forall k :: i < k <= count ==> out[k] == ds[k - 1]
    {
      if v >= 256 { DigitsStep(v, 256); } else { ShortDigits(v, 256); }
      assert ds[..i][i - 1] == v % 256;
      out[i] := v % 256;
      assert ds[..i][..i - 1] == ds[..i - 1];
      v := v / 256;
      i := i - 1;
    }
    assert out[1..] == ds;
    assert out[..] == [out[0]] + out[1..];
    r := Ok(out[..]);
  }

  lemma ShortDigits(n: nat, b: nat)
    requires n < b && b >= 2
    ensures Digits(n, b) == [n] && n % b == n && n / b == 0
  {
  }

  /** The class octets a caller may pass: a class, optionally with the constructed bit. */
  predicate ClassArgument(classBits: int) {
    0 <= classBits < 256 && classBits % 32 == 0
  }

  /** The high-tag-number form: groups counted, then written from the end with their continuation bits. */
  method EncodeHighTag(lead: byte, tag: nat) returns (r: bytes)
    requires lead <= 224
    ensures AreDigits(Digits(tag, 128), 128) && r == [lead + 31] + Continued(Digits(tag, 128))
  {
    hide Digits, Continued;
    var count := 0;
    var probe: nat := tag;
    while true
      invariant count + |Digits(probe, 128)| == |Digits(tag, 128)|
      decreases probe
    {
      count := count + 1;
      if probe < 128 { ShortDigits(probe, 128); break; }
      DigitsStep(probe, 128);
      probe := probe / 128;
    }
    ghost var ds := Digits(tag, 128);
    ValueOfDigits(tag, 128);
    var out := new byte[count + 1](_ => 0);
    out[0] := lead + 31;
    var v: nat := tag;
    var i := count;
    assert ds[..count] == ds;
    while i >= 1
      invariant 0 <= i <= count
      invariant i > 0 ==> Digits(v, 128) == ds[..i]
      invariant out[0] == lead + 31
      invariant forall k :: i < k <= count ==> out[k] == if k == count then ds[k - 1] else 128 + ds[k - 1]
    {
      if v >= 128 { DigitsStep(v, 128); } else { ShortDigits(v, 128); }
      assert ds[..i][i - 1] == v % 128;
      out[i] := v % 128 + if i == count then 0 else 128;
      assert ds[..i][..i - 1] == ds[..i - 1];
      v := v / 128;
      i := i - 1;
    }
    ContinuedAt(ds, out[1..]);
    assert out[..] == [out[0]] + out[1..];
    r := out[..];
  }

  lemma ContinuedAt(ds: seq<nat>, s: bytes)
    requires AreDigits(ds, 128) && |s| == |ds|
    requires forall k :: 0 <= k < |s| ==> s[k] == if k == |s| - 1 then ds[k] else 128 + ds[k]
    ensures s == Continued(ds)
  {
  }

  /** encodeIdentifier: refusals first, then the single octet or the high-tag-number form. */
  method EncodeIdentifier(classBits: int, constructed: bool, tag: nat) returns (r: Result<bytes, EncodeError>)
    ensures !ClassArgument(classBits) ==> r == Err(BadTag)
    ensures ClassArgument(classBits) ==>
      r == if tag > MAX_TAG then Err(TagTooLarge)
           else if ClassOf(classBits) == Universal && Reserved(tag) then Err(ReservedTag)
           else Ok(IdentBytes(ClassOf(classBits), constructed || classBits / 32 % 2 == 1, tag))
  {
    if !(0 <= classBits < 256 && classBits % 32 == 0) { return Err(BadTag); }
    if tag > 0x0fff_ffff { return Err(TagTooLarge); }
    if ClassOf(classBits) == Universal && Reserved(tag) { return Err(ReservedTag); }
    var folded := classBits / 32 % 2 == 1;
    LeadOctet(classBits);
    var lead := if constructed && !folded then classBits + 32 else classBits;
    if tag < 31 { return Ok([lead + tag]); }
    hide Digits, Continued;
    var out := EncodeHighTag(lead, tag);
    r := Ok(out);
  }

  lemma LeadOctet(classBits: byte)
    requires classBits % 32 == 0
    ensures classBits == ClassBits(ClassOf(classBits)) + if classBits / 32 % 2 == 1 then 32 else 0
  {
    var q := classBits / 32;
    assert classBits == 32 * q && classBits / 64 == q / 2;
  }

  /** What the identifier and length encoders say of a header. */
  function HeaderOrError(classBits: int, constructed: bool, tag: nat, n: nat): Result<bytes, EncodeError> {
    if !ClassArgument(classBits) then Err(BadTag)
    else if tag > MAX_TAG then Err(TagTooLarge)
    else if ClassOf(classBits) == Universal && Reserved(tag) then Err(ReservedTag)
    else if n >= 128 && |Digits(n, 256)| > 126 then Err(LengthTooLarge)
    else Ok(HeaderBytes(ClassOf(classBits), constructed || classBits / 32 % 2 == 1, tag, Definite(n)))
  }

  /** encodeTLV: header, then the content unchanged. */
  method EncodeTlv(classBits: int, constructed: bool, tag: nat, content: bytes) returns (r: Result<bytes, EncodeError>)
    ensures r == match HeaderOrError(classBits, constructed, tag, |content|)
                 case Err(e) => Err(e)
                 case Ok(header) => Ok(header + content)
  {
    hide IdentBytes, LengthBytes;
    var id := EncodeIdentifier(classBits, constructed, tag);
    if id.Err? { return id; }
    var len := EncodeLength(|content|);
    if len.Err? { return len; }
    r := Ok(id.value + len.value + content);
  }

  function TotalLength(parts: seq<bytes>): nat {
    if parts == [] then 0 else |parts[0]| + TotalLength(parts[1..])
  }

  lemma {:induction false} TotalLengthOfConcat(parts: seq<bytes>)
    ensures TotalLength(parts) == |Concat(parts)|
  {
    if parts != [] { TotalLengthOfConcat(parts[1..]); }
  }

  /** Copies src into dst at an offset. */
  method CopyInto(dst: array<byte>, at: nat, src: bytes)
    requires at + |src| <= dst.Length
    modifies dst
    ensures dst[..] == old(dst[..at]) + src + old(dst[at + |src|..])
  {
    for i := 0 to |src|
      invariant dst[..at] == old(dst[..at]) && dst[at + |src|..] == old(dst[at + |src|..])
      invariant dst[at..at + i] == src[..i]
    {
      dst[at + i] := src[i];
    }
    assert dst[..] == dst[..at] + dst[at..at + |src|] + dst[at + |src|..];
  }

  /** Writes the parts one after another from an offset to the end of the buffer. */
  method CopyParts(out: array<byte>, from: nat, parts: seq<bytes>)
    requires from + TotalLength(parts) == out.Length
    modifies out
    ensures out[..] == old(out[..from]) + Concat(parts)
  {
    var at := from;
    assert parts[..0] == [] && parts[0..] == parts;
    assert out[..from] + [] == out[..from];
    for j := 0 to |parts|
      invariant from <= at && at + TotalLength(parts[j..]) == out.Length
      invariant out[..at] == old(out[..from]) + Concat(parts[..j])
    {
      assert parts[j..][0] == parts[j] && parts[j..][1..] == parts[j + 1..];
      assert parts[..j + 1] == parts[..j] + [parts[j]];
      ConcatAppend(parts[..j], parts[j]);
      ghost var before := out[..at];
      CopyInto(out, at, parts[j]);
      at := at + |parts[j]|;
      assert out[..at] == before + parts[j];
    }
    assert parts[..|parts|] == parts && out[..at] == out[..];
  }

  /** encodeConstructed: one allocation, the header, then every part in order. */
  method EncodeConstructed(classBits: int, tag: nat, parts: seq<bytes>) returns (r: Result<bytes, EncodeError>)
    ensures r == match HeaderOrError(classBits, true, tag, |Concat(parts)|)
                 case Err(e) => Err(e)
                 case Ok(header) => Ok(header + Concat(parts))
  {
    hide IdentBytes, LengthBytes, Concat;
    var total := 0;
    assert parts[0..] == parts;
    for i := 0 to |parts|
      invariant total + TotalLength(parts[i..]) == TotalLength(parts)
    {
      assert parts[i..][1..] == parts[i + 1..];
      total := total + |parts[i]|;
    }
    TotalLengthOfConcat(parts);
    var id := EncodeIdentifier(classBits, true, tag);
    if id.Err? { return id; }
    var len := EncodeLength(total);
    if len.Err? { return len; }
    ghost var header := id.value + len.value;
    var out := new byte[|id.value| + |len.value| + total](_ => 0);
    CopyInto(out, 0, id.value);
    CopyInto(out, |id.value|, len.value);
    assert out[..|header|] == header;
    CopyParts(out, |id.value| + |len.value|, parts);
    r := Ok(out[..]);
  }
}
