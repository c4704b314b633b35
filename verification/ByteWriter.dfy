/**
 The growable octet sink of byte-writer.js. Every integer is checked against its width and
 every vector against its bounds before an octet is committed, so a rejected write leaves
 the writer as it was.
 */
module ByteWriter {
  import opened Wrappers
  import opened Octets
  import opened Radix
  import opened BigEndian

  /** The largest integer a JavaScript number holds exactly with all below it. */
  const MAX_SAFE := 0x1F_FFFF_FFFF_FFFF

  /** An integer a field of this many octets can hold. */
  predicate FitsUint(v: int, width: int) {
    1 <= width <= 4 && 0 <= v < Pow(256, width)
  }

  predicate FitsU64(v: int) {
    0 <= v < Pow(256, 8)
  }

  /** Bounds a vector may be given, and a body within them. */
  predicate BoundsAdmit(min: int, max: Option<int>, length: nat) {
    && 0 <= min <= MAX_SAFE && min <= length
    && (max.Some? ==> min <= max.value <= MAX_SAFE && length <= max.value)
  }

  predicate FitsVector(lenWidth: int, min: int, max: Option<int>, body: bytes) {
    BoundsAdmit(min, max, |body|) && FitsUint(|body|, lenWidth)
  }

  lemma WidthLimits(width: nat)
    requires 1 <= width <= 4
    ensures Pow(256, width) ==
            if width == 1 then 0x100 else if width == 2 then 0x1_0000 else if width == 3 then 0x100_0000
            else 0x1_0000_0000
    ensures Pow(256, 8) == 0x1_0000_0000_0000_0000
  {
    assert Pow(256, 1) == 256 * Pow(256, 0);
    assert Pow(256, 2) == 256 * Pow(256, 1);
    assert Pow(256, 3) == 256 * Pow(256, 2);
    assert Pow(256, 4) == 256 * Pow(256, 3);
    assert Pow(256, 8) == 256 * 256 * 256 * 256 * Pow(256, 4);
  }

  /** The octets of buffers one after another, as they are now. */
  ghost function Joined(parts: seq<array<byte>>): bytes
    reads parts
  {
    if parts == [] then [] else Joined(parts[..|parts| - 1]) + parts[|parts| - 1][..]
  }

  function Lengths(parts: seq<array<byte>>): nat {
    if parts == [] then 0 else Lengths(parts[..|parts| - 1]) + parts[|parts| - 1].Length
  }

  lemma {:induction false} JoinedLength(parts: seq<array<byte>>)
    ensures |Joined(parts)| == Lengths(parts)
  {
    if parts != [] { JoinedLength(parts[..|parts| - 1]); }
  }

  lemma JoinedAppend(parts: seq<array<byte>>, buf: array<byte>)
    ensures Joined(parts + [buf]) == Joined(parts) + buf[..]
    ensures Lengths(parts + [buf]) == Lengths(parts) + buf.Length
  {
    assert (parts + [buf])[..|parts|] == parts;
  }

  class ByteWriter {
    var parts: seq<array<byte>>
    var len: nat

    ghost predicate Valid()
      reads this
    {
      len == Lengths(parts)
    }

    /** Everything written so far, as its buffers hold it now. */
    ghost function Written(): bytes
      reads this, parts
    {
      Joined(parts)
    }

    constructor ()
      ensures Valid() && parts == [] && Written() == []
    {
      parts := [];
      len := 0;
    }

    /** The buffer itself is kept: a later change to it is a change to what is written. */
    method Push(buf: array<byte>)
      requires Valid()
      modifies this
      ensures Valid() && parts == old(parts) + [buf]
      ensures Written() == old(Written()) + buf[..]
    {
      JoinedAppend(parts, buf);
      parts := parts + [buf];
      len := len + buf.Length;
    }

    /** The octets of a number in a buffer of the writer's own. */
    method PushNumber(v: nat, width: nat)
      requires Valid() && v < Pow(256, width)
      modifies this
      ensures Valid() && |parts| == |old(parts)| + 1
      ensures parts[..|old(parts)|] == old(parts) && fresh(parts[|old(parts)|])
      ensures Written() == old(Written()) + FixedBytes(v, width)
    {
      hide Pow, FixedBytes;
      var b := new byte[width](_ => 0);
      WriteBigEndian(b, 0, v);
      assert b[0..] == b[..];
      Push(b);
    }

    /** u8, u16, u24 and u32 are this with a width of 1 to 4; false is the source's throw. */
    method Uint(v: int, width: int) returns (ok: bool)
      requires Valid()
      modifies this
      ensures Valid() && ok == FitsUint(v, width)
      ensures ok ==> Written() == old(Written()) + FixedBytes(v, width)
      ensures ok ==> |parts| == |old(parts)| + 1 && parts[..|old(parts)|] == old(parts) && fresh(parts[|old(parts)|])
      ensures !ok ==> parts == old(parts) && len == old(len)
    {
      hide Pow, FixedBytes;
      if width < 1 || width > 4 { return false; }
      WidthLimits(width);
      var max := if width == 4 then 0xFFFF_FFFF else if width == 3 then 0xFF_FFFF else if width == 2 then 0xFFFF
          else 0xFF;
      if v < 0 || v > max { return false; }
      PushNumber(v, width);
      ok := true;
    }

    method U64(v: int) returns (ok: bool)
      requires Valid()
      modifies this
      ensures Valid() && ok == FitsU64(v)
      ensures ok ==> Written() == old(Written()) + FixedBytes(v, 8)
      ensures ok ==> |parts| == |old(parts)| + 1 && parts[..|old(parts)|] == old(parts) && fresh(parts[|old(parts)|])
      ensures !ok ==> parts == old(parts) && len == old(len)
    {
      hide Pow, FixedBytes;
      WidthLimits(4);
      if v < 0 || v > 0xFFFF_FFFF_FFFF_FFFF { return false; }
      PushNumber(v, 8);
      ok := true;
    }

    /**
     A copy of the body behind its length; both bounds and the width are checked before the length is written. The
     caller's buffer is not kept.
     */
    method Vector(lenWidth: int, min: int, max: Option<int>, body: array<byte>) returns (ok: bool)
      requires Valid()
      modifies this
      ensures Valid() && ok == FitsVector(lenWidth, min, max, body[..])
      ensures ok ==> Written() == old(Written()) + FixedBytes(body.Length, lenWidth) + body[..]
      ensures ok ==> |parts| == |old(parts)| + 2 && parts[..|old(parts)|] == old(parts)
      ensures ok ==> forall i :: |old(parts)| <= i < |parts| ==> fresh(parts[i])
      ensures !ok ==> parts == old(parts) && len == old(len)
    {
      hide FixedBytes, Pow, Joined, Lengths;
      var copy := CopyOf(body);
      if min < 0 || min > MAX_SAFE { return false; }
      if max.Some? && (max.value > MAX_SAFE || max.value < min) { return false; }
      if copy.Length < min { return false; }
      if max.Some? && copy.Length > max.value { return false; }
      ok := Uint(copy.Length, lenWidth);
      if ok { Push(copy); }
    }

    /** The parts copied one after another into a new buffer. */
    method Build() returns (out: bytes)
      requires Valid()
      ensures out == Written() && |out| == len
    {
      out := [];
      for i := 0 to |parts|
        invariant out == Joined(parts[..i])
      {
        JoinedAppend(parts[..i], parts[i]);
        assert parts[..i + 1] == parts[..i] + [parts[i]];
        out := out + parts[i][..];
      }
      assert parts[..|parts|] == parts;
      JoinedLength(parts);
    }
  }

  method CopyOf(view: array<byte>) returns (copy: array<byte>)
    ensures fresh(copy) && copy[..] == view[..]
  {
    copy := new byte[view.Length](i requires 0 <= i < view.Length reads view => view[i]);
  }
}
