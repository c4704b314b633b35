/** A header is accepted exactly when its octets are the header octets of what it states. */
module DerHeaders {
  import opened Wrappers
  import opened Octets
  import opened Radix
  import opened Base128
  import opened DerSyntax
  import opened DerParse

  // ---------------------------------------------------------------- high tag numbers

  lemma GroupCons(b: byte, rest: bytes)
    requires b >= 128 && IsGroup(rest)
    ensures IsGroup([b] + rest) && Low7([b] + rest) == [b % 128] + Low7(rest)
  {
  }

  /** Reading octets of a group continues the numeral already read. */
  lemma {:induction false} HighTagSound(buf: bytes, p: nat, limit: nat, before: seq<nat>)
    requires p <= limit <= |buf| && AreDigits(before, 128)
    requires ParseHighTag(buf, p, limit, Value(before, 128), |before|).Ok?
    ensures var (v, end) := ParseHighTag(buf, p, limit, Value(before, 128), |before|).value;
      var s := buf[p..end];
      && IsGroup(s) && v == Value(before + Low7(s), 128)
      && |before| + |s| <= 4 && (before == [] ==> s[0] != 128)
    decreases limit - p
  {
    hide Value;
    var d := buf[p] % 128;
    ValueAppend(before, 128, d);
    if buf[p] < 128 {
      assert buf[p..p + 1] == [buf[p]];
      assert Low7([buf[p]]) == [d];
    } else {
      hide IsGroup, Low7;
      HighTagSound(buf, p + 1, limit, before + [d]);
      var (v, end) := ParseHighTag(buf, p + 1, limit, Value(before + [d], 128), |before| + 1).value;
      var rest := buf[p + 1..end];
      GroupCons(buf[p], rest);
      assert buf[p..end] == [buf[p]] + rest;
      assert before + ([d] + Low7(rest)) == before + [d] + Low7(rest);
    }
  }

  lemma GroupTail(s: bytes)
    requires IsGroup(s)
    ensures |s| == 1 <==> s[0] < 128
    ensures |s| > 1 ==> IsGroup(s[1..])
    ensures Low7(s) == [s[0] % 128] + Low7(s[1..])
  {
  }

  lemma {:induction false} HighTagComplete(buf: bytes, p: nat, limit: nat, before: seq<nat>, s: bytes)
    requires p + |s| <= limit <= |buf| && AreDigits(before, 128)
    requires HasAt(buf, p, s) && IsGroup(s)
    requires |before| + |s| <= 4 && (before == [] ==> s[0] != 128)
    ensures ParseHighTag(buf, p, limit, Value(before, 128), |before|) == Ok((Value(before + Low7(s), 128), p + |s|))
    decreases |s|
  {
    hide Value, Low7;
    var d, rest := s[0] % 128, s[1..];
    GroupTail(s);
    HasAtSplit(buf, p, [s[0]], rest);
    HasAtByte(buf, p, s[0]);
    assert s == [s[0]] + rest;
    ValueAppend(before, 128, d);
    assert before + Low7(s) == before + [d] + Low7(rest);
    if |s| == 1 {
      assert before + [d] + Low7(rest) == before + [d];
    } else {
      HighTagComplete(buf, p + 1, limit, before + [d], rest);
    }
  }

  /** The tag numbers above 30 within four groups of seven bits. */
  lemma HighTagRange(ds: seq<nat>)
    requires AreDigits(ds, 128) && 1 <= |ds| <= 4
    ensures Value(ds, 128) <= MAX_TAG
  {
    ValueBound(ds, 128);
    PowMono(128, |ds|, 4);
    Pow128_4();
  }

  lemma Pow128_4()
    ensures Pow(128, 4) == MAX_TAG + 1
  {
    assert Pow(128, 4) == 128 * 128 * 128 * 128 * Pow(128, 0);
  }

  /** The first identifier octet is its class bits, its form bit and its low five bits. */
  lemma LeadOctetParts(b: byte)
    ensures b == ClassBits(ClassOf(b)) + (if b / 32 % 2 == 1 then 32 else 0) + b % 32
  {
    var q := b / 32;
    assert b / 64 == q / 2;
    assert b == 32 * q + b % 32;
  }

  lemma LeadOctetOf(cls: Class, constructed: bool, low: nat, b: byte)
    requires low < 32 && b == ClassBits(cls) + (if constructed then 32 else 0) + low
    ensures ClassOf(b) == cls && (b / 32 % 2 == 1) == constructed && b % 32 == low
  {
  }

  lemma HighTagLength(tag: nat)
    requires tag <= MAX_TAG
    ensures |Digits(tag, 128)| <= 4
  {
    Pow128_4();
    DigitsLength(tag, 128, 4);
  }

  lemma GroupDigits(s: bytes)
    requires IsGroup(s) && s[0] != 128 && Value(Low7(s), 128) >= 1
    ensures Digits(Value(Low7(s), 128), 128) == Low7(s)
  {
    var ds := Low7(s);
    if |ds| > 1 { assert ds[0] == s[0] - 128; }
    DigitsOfValue(ds, 128);
  }

  lemma HighTagDigits(buf: bytes, p: nat, limit: nat, v: nat, end: nat)
    requires p <= limit <= |buf| && ParseHighTag(buf, p, limit, 0, 0) == Ok((v, end))
    ensures v <= MAX_TAG && AreDigits(Digits(v, 128), 128)
    ensures p < end <= limit && (v >= 1 ==> buf[p..end] == Continued(Digits(v, 128)))
  {
    var none: seq<nat> := [];
    assert Value(none, 128) == 0;
    HighTagSound(buf, p, limit, none);
    var s := buf[p..end];
    assert none + Low7(s) == Low7(s);
    HighTagRange(Low7(s));
    if v >= 1 {
      GroupIsContinued(s);
      GroupDigits(s);
    }
    DigitsShape(v, 128);
  }

  lemma ContinuedLeads(ds: seq<nat>)
    requires AreDigits(ds, 128) && ds != [] && (|ds| == 1 || ds[0] != 0)
    ensures Continued(ds)[0] != 128
  {
  }

  lemma HighTagOfDigits(buf: bytes, p: nat, limit: nat, tag: nat)
    requires tag <= MAX_TAG && AreDigits(Digits(tag, 128), 128)
    requires HasAt(buf, p, Continued(Digits(tag, 128)))
    requires p + |Digits(tag, 128)| <= limit <= |buf|
    ensures ParseHighTag(buf, p, limit, 0, 0) == Ok((tag, p + |Digits(tag, 128)|))
  {
    hide Value, Continued, Digits, IsGroup, Low7, ParseHighTag;
    var ds := Digits(tag, 128);
    var none: seq<nat> := [];
    ValueNil(128);
    ValueOfDigits(tag, 128);
    HighTagLength(tag);
    ContinuedIsGroup(ds);
    ContinuedLeads(ds);
    assert none + ds == ds;
    HighTagComplete(buf, p, limit, none, Continued(ds));
  }

  lemma TagSound(buf: bytes, p: nat, limit: nat)
    requires p < limit <= |buf| && ParseTag(buf, p, limit).Ok?
    ensures var (tag, end) := ParseTag(buf, p, limit).value;
      tag <= MAX_TAG && buf[p..end] == IdentBytes(ClassOf(buf[p]), buf[p] / 32 % 2 == 1, tag)
  {
    var (tag, end) := ParseTag(buf, p, limit).value;
    var b := buf[p];
    LeadOctetParts(b);
    if b % 32 != 31 {
      assert buf[p..p + 1] == [b];
    } else {
      HighTagDigits(buf, p + 1, limit, tag, end);
      assert buf[p..end] == [b] + buf[p + 1..end];
    }
  }

  lemma TagComplete(buf: bytes, p: nat, limit: nat, cls: Class, constructed: bool, tag: nat)
    requires tag <= MAX_TAG
    requires HasAt(buf, p, IdentBytes(cls, constructed, tag))
    requires p + |IdentBytes(cls, constructed, tag)| <= limit <= |buf|
    ensures p < limit && ClassOf(buf[p]) == cls && (buf[p] / 32 % 2 == 1) == constructed
    ensures ParseTag(buf, p, limit) == Ok((tag, p + |IdentBytes(cls, constructed, tag)|))
  {
    var id := IdentBytes(cls, constructed, tag);
    assert buf[p] == id[0];
    LeadOctetOf(cls, constructed, if tag < 31 then tag else 31, id[0]);
    if tag >= 31 {
      ValueOfDigits(tag, 128);
      var s := Continued(Digits(tag, 128));
      assert id == [id[0]] + s;
      HasAtSplit(buf, p, [id[0]], s);
      HighTagOfDigits(buf, p + 1, limit, tag);
    }
  }

  // ---------------------------------------------------------------- lengths

  lemma {:induction false} LongLengthValue(buf: bytes, p: nat, k: nat)
    requires p + k <= |buf|
    ensures ParseLongLength(buf, p, k) == Value(buf[p..p + k], 256)
  {
    if k > 0 {
      LongLengthValue(buf, p, k - 1);
      ValueAppend(buf[p..p + k - 1], 256, buf[p + k - 1]);
      assert buf[p..p + k] == buf[p..p + k - 1] + [buf[p + k - 1]];
    }
  }

  lemma LengthSound(buf: bytes, p: nat, limit: nat, indefiniteAllowed: bool)
    requires p <= limit <= |buf| && ParseLength(buf, p, limit, indefiniteAllowed).Ok?
    ensures var (len, end) := ParseLength(buf, p, limit, indefiniteAllowed).value;
      buf[p..end] == LengthBytes(len) && (len.Indefinite? ==> indefiniteAllowed)
  {
    hide Value, Pow, Digits, ParseLongLength;
    var (len, end) := ParseLength(buf, p, limit, indefiniteAllowed).value;
    if buf[p] > 128 {
      var k := buf[p] - 128;
      var ds := buf[p + 1..p + 1 + k];
      LongLengthValue(buf, p + 1, k);
      DigitsOfValue(ds, 256);
      assert buf[p..end] == [buf[p]] + ds;
    }
  }

  lemma LengthComplete(buf: bytes, p: nat, limit: nat, len: Length, indefiniteAllowed: bool)
    requires HasAt(buf, p, LengthBytes(len)) && p + |LengthBytes(len)| <= limit <= |buf|
    requires len.Indefinite? ==> indefiniteAllowed
    requires len.Definite? ==> len.n < 0x1_0000_0000_0000
    ensures ParseLength(buf, p, limit, indefiniteAllowed) == Ok((len, p + |LengthBytes(len)|))
  {
    hide Value, Pow, Digits;
    var lb := LengthBytes(len);
    assert buf[p] == lb[0];
    if len.Definite? && len.n >= 128 {
      var ds := Digits(len.n, 256);
      ValueOfDigits(len.n, 256);
      Pow256_6();
      DigitsLength(len.n, 256, 6);
      var dsb: bytes := ds;
      assert lb == [lb[0]] + dsb;
      HasAtSplit(buf, p, [lb[0]], dsb);
      LongLengthValue(buf, p + 1, |ds|);
      assert buf[p + 1] == ds[0];
      if |ds| == 1 { assert ds[..0] == []; }
    }
  }

  lemma Pow256_6()
    ensures Pow(256, 6) == 0x1_0000_0000_0000
  {
    assert Pow(256, 3) == 256 * 256 * 256 * Pow(256, 0);
    assert Pow(256, 6) == 256 * 256 * 256 * Pow(256, 3);
  }

  // ---------------------------------------------------------------- headers

  lemma HeaderSound(buf: bytes, start: nat, limit: nat, ber: bool, strDepth: nat, limits: Limits)
    requires start <= limit <= |buf| && ParseHeader(buf, start, limit, ber, strDepth, limits).Ok?
    ensures var h := ParseHeader(buf, start, limit, ber, strDepth, limits).value;
      && FormOk(h.cls, h.constructed, h.tag, ber) && (h.len.Indefinite? ==> ber)
      && buf[start..h.contentStart] == HeaderBytes(h.cls, h.constructed, h.tag, h.len)
      && h.strDepth == strDepth + (if h.constructed && h.cls == Universal && h.tag == OCTET_STRING then 1 else 0)
      && (h.strDepth > strDepth ==> ber && h.strDepth <= limits.maxStringNesting)
  {
    hide ParseTag, ParseLength, IdentBytes, LengthBytes, ParseHighTag, Reserved;
    var h := ParseHeader(buf, start, limit, ber, strDepth, limits).value;
    TagSound(buf, start, limit);
    var p := ParseTag(buf, start, limit).value.1;
    LengthSound(buf, p, limit, ber && h.constructed);
    assert buf[start..h.contentStart] == buf[start..p] + buf[p..h.contentStart];
  }

  lemma HeaderComplete(buf: bytes, start: nat, limit: nat, ber: bool, strDepth: nat, limits: Limits, h: Header)
    requires FormOk(h.cls, h.constructed, h.tag, ber) && (h.len.Indefinite? ==> ber && h.constructed)
    requires HasAt(buf, start, HeaderBytes(h.cls, h.constructed, h.tag, h.len))
    requires h.contentStart == start + |HeaderBytes(h.cls, h.constructed, h.tag, h.len)| <= limit <= |buf|
    requires h.len.Definite? ==> h.contentStart + h.len.n <= limit && h.len.n < 0x1_0000_0000_0000
    requires h.strDepth == strDepth + (if h.constructed && h.cls == Universal && h.tag == OCTET_STRING then 1 else 0)
    requires h.strDepth > strDepth ==> h.strDepth <= limits.maxStringNesting
    ensures ParseHeader(buf, start, limit, ber, strDepth, limits) == Ok(h)
  {
    hide ParseTag, ParseLength, IdentBytes, LengthBytes, ParseHighTag, Reserved;
    var id := IdentBytes(h.cls, h.constructed, h.tag);
    HasAtSplit(buf, start, id, LengthBytes(h.len));
    TagComplete(buf, start, limit, h.cls, h.constructed, h.tag);
    LengthComplete(buf, start + |id|, limit, h.len, ber && h.constructed);
  }
}
