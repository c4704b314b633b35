/**
 OBJECT IDENTIFIER contents. Arcs are lists of numbers; the source's dotted text is those
 numbers in decimal, joined with points. Both caps are parameters.
 */
module DerOid {
  import opened Wrappers
  import opened Octets
  import opened Radix
  import opened Base128
  import DerEncoder

  datatype OidError =
    | Empty | NonMinimal | SubidentifierTooLarge | TooManySubidentifiers | Truncated | BadInput | BadArcs

  /** OID_MAX_SUBIDENTIFIER_BYTES and OID_MAX_SUBIDENTIFIERS. */
  datatype OidLimits = OidLimits(maxBytes: nat, maxCount: nat)

  // ---------------------------------------------------------------- sub-identifiers

  /** The octets of one sub-identifier. */
  function SubidBytes(v: nat): (r: bytes)
    ensures IsGroup(r) && Low7(r) == Digits(v, 128) && r[0] != 128
  {
    ValueOfDigits(v, 128);
    ContinuedIsGroup(Digits(v, 128));
    Continued(Digits(v, 128))
  }

  function SubidsBytes(vs: seq<nat>): bytes {
    if vs == [] then [] else SubidBytes(vs[0]) + SubidsBytes(vs[1..])
  }

  /** Every sub-identifier, and their number, is within the caps. */
  predicate SubidsFit(vs: seq<nat>, limits: OidLimits) {
    |vs| <= limits.maxCount && forall i :: 0 <= i < |vs| ==> |Digits(vs[i], 128)| <= limits.maxBytes
  }

  /** The scan of decodeOidContent from octet i on: the open group starts at arcStart, subs are read. */
  function ScanSubids(buf: bytes, i: nat, arcStart: nat, subs: seq<nat>, limits: OidLimits): Result<seq<nat>, OidError>
    requires arcStart <= i <= |buf|
    decreases |buf| - i
  {
    if i == |buf| then (if arcStart != |buf| then Err(Truncated) else Ok(subs))
    else if i == arcStart && buf[i] == 0x80 then Err(NonMinimal)
    else if i - arcStart >= limits.maxBytes then Err(SubidentifierTooLarge)
    else if buf[i] < 128 then
      if |subs| >= limits.maxCount then Err(TooManySubidentifiers)
      else ScanSubids(buf, i + 1, i + 1, subs + [Value(Low7(buf[arcStart..i + 1]), 128)], limits)
    else ScanSubids(buf, i + 1, arcStart, subs, limits)
  }

  /** An open group: continuation octets only, the first not 0x80. */
  predicate IsOpen(s: bytes) {
    (forall i :: 0 <= i < |s| ==> s[i] >= 128) && (s != [] ==> s[0] != 128)
  }

  lemma OpenStep(buf: bytes, arcStart: nat, i: nat)
    requires arcStart <= i < |buf| && IsOpen(buf[arcStart..i]) && !(i == arcStart && buf[i] == 128)
    ensures buf[i] >= 128 ==> IsOpen(buf[arcStart..i + 1])
    ensures buf[i] < 128 ==> IsGroup(buf[arcStart..i + 1]) && buf[arcStart..i + 1][0] != 128
  {
    assert buf[arcStart..i + 1] == buf[arcStart..i] + [buf[i]];
  }

  /** A closed group is the octets of its own value. */
  lemma GroupIsSubid(s: bytes)
    requires IsGroup(s) && s[0] != 128
    ensures SubidBytes(Value(Low7(s), 128)) == s && |Digits(Value(Low7(s), 128), 128)| == |s|
  {
    var ds := Low7(s);
    if |ds| > 1 { assert ds[0] == s[0] - 128; }
    DigitsOfValue(ds, 128);
    GroupIsContinued(s);
  }

  /** The value of the group closed at octet i. */
  function Closed(buf: bytes, arcStart: nat, i: nat): nat
    requires arcStart <= i < |buf|
  {
    Value(Low7(buf[arcStart..i + 1]), 128)
  }

  /** What an accepted scan read: its octets are those of the sub-identifiers it returns. */
  lemma {:induction false} ScanSound(buf: bytes, i: nat, arcStart: nat, subs: seq<nat>, limits: OidLimits)
    returns (rest: seq<nat>)
    requires arcStart <= i <= |buf| && IsOpen(buf[arcStart..i])
    requires |subs| <= limits.maxCount
    requires ScanSubids(buf, i, arcStart, subs, limits).Ok?
    ensures ScanSubids(buf, i, arcStart, subs, limits).value == subs + rest
    ensures buf[arcStart..] == SubidsBytes(rest)
    ensures |subs| + |rest| <= limits.maxCount
    ensures forall k :: 0 <= k < |rest| ==> |Digits(rest[k], 128)| <= limits.maxBytes
    decreases |buf| - i
  {
    hide Value, Low7, SubidBytes, IsGroup, IsOpen, Digits;
    if i == |buf| {
      rest := [];
      assert subs + [] == subs;
    } else {
      OpenStep(buf, arcStart, i);
      if buf[i] < 128 {
        var s, v := buf[arcStart..i + 1], Closed(buf, arcStart, i);
        GroupIsSubid(s);
        EmptyIsOpen(buf, i + 1);
        var tail := ScanSound(buf, i + 1, i + 1, subs + [v], limits);
        rest := [v] + tail;
        assert subs + rest == subs + [v] + tail && rest[1..] == tail;
        assert buf[arcStart..] == s + buf[i + 1..];
      } else {
        rest := ScanSound(buf, i + 1, arcStart, subs, limits);
      }
    }
  }

  lemma EmptyIsOpen(buf: bytes, i: nat)
    requires i <= |buf|
    ensures IsOpen(buf[i..i])
  {
  }

  /** The scan reads every octet of a group and closes it with its value. */
  lemma {:induction false} ScanGroup(buf: bytes, i: nat, arcStart: nat, subs: seq<nat>, limits: OidLimits, end: nat)
    requires arcStart <= i < end <= |buf|
    requires IsGroup(buf[arcStart..end]) && buf[arcStart..end][0] != 128
    requires end - arcStart <= limits.maxBytes && |subs| < limits.maxCount
    ensures ScanSubids(buf, i, arcStart, subs, limits) ==
            ScanSubids(buf, end, end, subs + [Value(Low7(buf[arcStart..end]), 128)], limits)
    decreases end - i
  {
    hide Value, Low7;
    assert buf[i] == buf[arcStart..end][i - arcStart];
    if i + 1 < end {
      ScanGroup(buf, i + 1, arcStart, subs, limits, end);
    }
  }

  lemma {:induction false} ScanComplete(buf: bytes, at: nat, subs: seq<nat>, limits: OidLimits, rest: seq<nat>)
    requires at <= |buf| && buf[at..] == SubidsBytes(rest)
    requires |subs| + |rest| <= limits.maxCount
    requires forall k :: 0 <= k < |rest| ==> |Digits(rest[k], 128)| <= limits.maxBytes
    ensures ScanSubids(buf, at, at, subs, limits) == Ok(subs + rest)
    decreases |rest|
  {
    hide Value, Low7, SubidBytes, IsGroup, Digits;
    if rest == [] {
      assert subs + rest == subs;
    } else {
      var s := SubidBytes(rest[0]);
      var end := at + |s|;
      assert buf[at..][..|s|] == s && buf[at..][|s|..] == SubidsBytes(rest[1..]);
      assert buf[at..end] == s && buf[end..] == SubidsBytes(rest[1..]);
      ScanGroup(buf, at, at, subs, limits, end);
      ValueOfDigits(rest[0], 128);
      ScanComplete(buf, end, subs + [rest[0]], limits, rest[1..]);
      assert subs + [rest[0]] + rest[1..] == subs + rest;
    }
  }

  // ---------------------------------------------------------------- arcs

  /** What assertCanonicalOid asks of the arcs, and what every decoded identifier meets. */
  predicate Canonical(arcs: seq<nat>) {
    |arcs| >= 2 && arcs[0] <= 2 && (arcs[0] < 2 ==> arcs[1] <= 39)
  }

  function Pack(arcs: seq<nat>): (r: seq<nat>)
    requires |arcs| >= 2
    ensures |r| == |arcs| - 1
  {
    [arcs[0] * 40 + arcs[1]] + arcs[2..]
  }

  function Unpack(subs: seq<nat>): (r: seq<nat>)
    requires subs != []
    ensures |r| == |subs| + 1
  {
    var first := subs[0];
    (if first < 40 then [0, first] else if first < 80 then [1, first - 40] else [2, first - 80]) + subs[1..]
  }

  lemma PackUnpack(subs: seq<nat>)
    requires subs != []
    ensures Canonical(Unpack(subs)) && Pack(Unpack(subs)) == subs
  {
    assert Unpack(subs)[2..] == subs[1..];
  }

  lemma UnpackPack(arcs: seq<nat>)
    requires Canonical(arcs)
    ensures Unpack(Pack(arcs)) == arcs
  {
    assert Pack(arcs)[1..] == arcs[2..];
  }

  function DecodeOid(buf: bytes, limits: OidLimits): Result<seq<nat>, OidError> {
    if buf == [] then Err(Empty)
    else
      match ScanSubids(buf, 0, 0, [], limits)
      case Err(e) => Err(e)
      // an accepted scan of a nonempty content has read a sub-identifier
      case Ok(subs) => if subs == [] then Err(Truncated) else Ok(Unpack(subs))
  }

  function EncodeOid(arcs: seq<nat>, limits: OidLimits): Result<bytes, OidError> {
    if |arcs| < 2 then Err(BadInput)
    else if |arcs| - 1 > limits.maxCount then Err(TooManySubidentifiers)
    else if !Canonical(arcs) then Err(BadArcs)
    else if !SubidsFit(Pack(arcs), limits) then Err(SubidentifierTooLarge)
    else Ok(SubidsBytes(Pack(arcs)))
  }

  lemma EmptySubids(vs: seq<nat>)
    ensures SubidsBytes(vs) == [] <==> vs == []
  {
    if vs != [] { assert |SubidsBytes(vs)| >= |SubidBytes(vs[0])|; }
  }

  /** Encoding and decoding of identifiers are mutually inverse, on exactly the inputs each accepts. */
  lemma OidRoundTrip(arcs: seq<nat>, content: bytes, limits: OidLimits)
    ensures EncodeOid(arcs, limits) == Ok(content) <==> DecodeOid(content, limits) == Ok(arcs)
  {
    hide SubidBytes, ScanSubids, Value, SubidsBytes;
    assert content[0..] == content && content[0..0] == [];
    if DecodeOid(content, limits) == Ok(arcs) {
      EmptyIsOpen(content, 0);
      var subs := ScanSound(content, 0, 0, [], limits);
      assert [] + subs == subs;
      PackUnpack(subs);
    }
    if EncodeOid(arcs, limits) == Ok(content) {
      EmptySubids(Pack(arcs));
      ScanComplete(content, 0, [], limits, Pack(arcs));
      assert [] + Pack(arcs) == Pack(arcs);
      UnpackPack(arcs);
    }
  }

  // ---------------------------------------------------------------- the loops

  /** decodeOidContent: one pass over the octets, each sub-identifier summed when its group closes. */
  method DecodeOidContent(buf: bytes, limits: OidLimits) returns (r: Result<seq<nat>, OidError>)
    ensures r == DecodeOid(buf, limits)
  {
    if |buf| == 0 { return Err(Empty); }
    var arcs: seq<nat> := [];
    var arcStart := 0;
    var i := 0;
    while i < |buf|
      invariant arcStart <= i <= |buf|
      invariant ScanSubids(buf, 0, 0, [], limits) == ScanSubids(buf, i, arcStart, arcs, limits)
      invariant arcStart > 0 <==> arcs != []
    {
      hide Low7;
      var b := buf[i];
      if i == arcStart && b == 0x80 { return Err(NonMinimal); }
      if i - arcStart >= limits.maxBytes { return Err(SubidentifierTooLarge); }
      if b < 128 {
        if |arcs| >= limits.maxCount { return Err(TooManySubidentifiers); }
        var value := SumGroup(buf, arcStart, i);
        arcs := arcs + [value];
        arcStart := i + 1;
      }
      i := i + 1;
    }
    if arcStart != |buf| { return Err(Truncated); }
    var first := arcs[0];
    var a1, a2;
    if first < 40 { a1, a2 := 0, first; }
    else if first < 80 { a1, a2 := 1, first - 40; }
    else { a1, a2 := 2, first - 80; }
    r := Ok([a1, a2] + arcs[1..]);
  }

  method SumGroup(buf: bytes, arcStart: nat, i: nat) returns (value: nat)
    requires arcStart <= i < |buf|
    ensures value == Closed(buf, arcStart, i)
  {
    value := 0;
    for k := arcStart to i + 1
      invariant value == Value(Low7(buf[arcStart..k]), 128)
    {
      ValueAppend(Low7(buf[arcStart..k]), 128, buf[k] % 128);
      assert Low7(buf[arcStart..k + 1]) == Low7(buf[arcStart..k]) + [buf[k] % 128];
      value := value * 128 + buf[k] % 128;
    }
  }

  /** One sub-identifier: groups counted, then written most significant first. */
  method WriteSubid(v: nat, limits: OidLimits) returns (r: Result<bytes, OidError>)
    ensures r == if |Digits(v, 128)| > limits.maxBytes then Err(SubidentifierTooLarge) else Ok(SubidBytes(v))
  {
    hide Digits;
    var count := 1;
    var probe: nat := v / 128;
    if v >= 128 { DerEncoder.DigitsStep(v, 128); } else { DerEncoder.ShortDigits(v, 128); }
    while probe > 0
      invariant probe > 0 ==> count + |Digits(probe, 128)| == |Digits(v, 128)|
      invariant probe == 0 ==> count == |Digits(v, 128)|
    {
      if probe >= 128 { DerEncoder.DigitsStep(probe, 128); } else { DerEncoder.ShortDigits(probe, 128); }
      count := count + 1;
      probe := probe / 128;
    }
    if count > limits.maxBytes { return Err(SubidentifierTooLarge); }
    ghost var ds := Digits(v, 128);
    ValueOfDigits(v, 128);
    var out: bytes := [];
    var k := count;
    while k > 0
      invariant 0 <= k <= count && |out| == count - k
      invariant forall j :: 0 <= j < |out| ==> out[j] == if j == count - 1 then ds[j] else 128 + ds[j]
    {
      var octet := GroupAt(v, k - 1);
      out := out + [if k == 1 then octet else 128 + octet];
      k := k - 1;
    }
    DerEncoder.ContinuedAt(ds, out);
    r := Ok(out);
  }

  /** The seven bits of a number above its lowest 7k. */
  method GroupAt(v: nat, k: nat) returns (octet: nat)
    requires k < |Digits(v, 128)|
    ensures octet == Digits(v, 128)[|Digits(v, 128)| - 1 - k]
  {
    hide Digits;
    ghost var ds := Digits(v, 128);
    var shifted: nat := v;
    var left := k;
    assert ds[..|ds|] == ds;
    while left > 0
      invariant 0 <= left <= k
      invariant Digits(shifted, 128) == ds[..|ds| - (k - left)]
    {
      if shifted >= 128 { DerEncoder.DigitsStep(shifted, 128); } else { DerEncoder.ShortDigits(shifted, 128); }
      assert ds[..|ds| - (k - left)][..|ds| - (k - left) - 1] == ds[..|ds| - (k - left) - 1];
      shifted := shifted / 128;
      left := left - 1;
    }
    if shifted >= 128 { DerEncoder.DigitsStep(shifted, 128); } else { DerEncoder.ShortDigits(shifted, 128); }
    octet := shifted % 128;
  }

  lemma {:induction false} SubidsAppend(vs: seq<nat>, v: nat)
    ensures SubidsBytes(vs + [v]) == SubidsBytes(vs) + SubidBytes(v)
  {
    hide SubidBytes;
    if vs == [] {
      assert vs + [v] == [v];
      assert SubidsBytes([v]) == SubidBytes(v) + SubidsBytes([]);
    } else {
      SubidsAppend(vs[1..], v);
      assert (vs + [v])[1..] == vs[1..] + [v];
    }
  }

  method WriteSubids(subids: seq<nat>, limits: OidLimits) returns (r: Result<bytes, OidError>)
    requires |subids| <= limits.maxCount
    ensures r == if SubidsFit(subids, limits) then Ok(SubidsBytes(subids)) else Err(SubidentifierTooLarge)
  {
    hide SubidBytes, Digits;
    var out: bytes := [];
    for s := 0 to |subids|
      invariant forall i :: 0 <= i < s ==> |Digits(subids[i], 128)| <= limits.maxBytes
      invariant out == SubidsBytes(subids[..s])
    {
      var one := WriteSubid(subids[s], limits);
      if one.Err? { return Err(one.error); }
      SubidsAppend(subids[..s], subids[s]);
      assert subids[..s + 1] == subids[..s] + [subids[s]];
      out := out + one.value;
    }
    assert subids[..|subids|] == subids;
    r := Ok(out);
  }

  /** encodeOidContent: the first two arcs packed, then one sub-identifier after another. */
  method EncodeOidContent(arcs: seq<nat>, limits: OidLimits) returns (r: Result<bytes, OidError>)
    ensures r == EncodeOid(arcs, limits)
  {
    hide SubidsFit, SubidsBytes;
    if |arcs| < 2 { return Err(BadInput); }
    if |arcs| - 1 > limits.maxCount { return Err(TooManySubidentifiers); }
    if arcs[0] > 2 { return Err(BadArcs); }
    if arcs[0] < 2 && arcs[1] > 39 { return Err(BadArcs); }
    r := WriteSubids([arcs[0] * 40 + arcs[1]] + arcs[2..], limits);
  }
}
