/** Unsigned integers in a fixed number of octets, most significant first. */
module BigEndian {
  import opened Octets
  import opened Radix

  function FixedBytes(n: nat, w: nat): (r: bytes)
    requires n < Pow(256, w)
    ensures |r| == w
  {
    ValueOfFixed(n, 256, w);
    Fixed(n, 256, w)
  }

  /** The number the w octets at p name. */
  function NumberAt(buf: bytes, p: nat, w: nat): (a: nat)
    requires p + w <= |buf|
    ensures a < Pow(256, w)
  {
    ValueBelow(buf[p..p + w], 256);
    Value(buf[p..p + w], 256)
  }

  /** Reading back what was written. */
  lemma NumberAtFixed(buf: bytes, p: nat, n: nat, w: nat)
    requires n < Pow(256, w) && HasAt(buf, p, FixedBytes(n, w))
    ensures p + w <= |buf| && NumberAt(buf, p, w) == n
  {
    ValueOfFixed(n, 256, w);
  }

  /** Writes n into a buffer from an offset to its end. */
  method WriteBigEndian(b: array<byte>, from: nat, n: nat)
    requires from <= b.Length && n < Pow(256, b.Length - from)
    modifies b
    ensures b[..from] == old(b[..from]) && b[from..] == FixedBytes(n, b.Length - from)
  {
    hide Pow;
    var w := b.Length - from;
    ghost var whole := FixedBytes(n, w);
    var rest: nat := n;
    var i := w;
    assert whole + [] == whole;
    while i > 0
      invariant 0 <= i <= w && rest < Pow(256, i) && b[..from] == old(b[..from])
      invariant whole == FixedBytes(rest, i) + b[from + i..]
    {
      PowQuotient(rest, 256, i);
      ValueOfFixed(rest / 256, 256, i - 1);
      assert FixedBytes(rest, i) == FixedBytes(rest / 256, i - 1) + [rest % 256];
      ghost var tail := b[from + i..];
      b[from + i - 1] := rest % 256;
      assert b[from + i - 1..] == [rest % 256] + tail;
      rest := rest / 256;
      i := i - 1;
    }
  }

  /** Reads the w octets at p. */
  method ReadBigEndian(buf: bytes, p: nat, w: nat) returns (v: nat)
    requires p + w <= |buf|
    ensures v == NumberAt(buf, p, w)
  {
    v := 0;
    for i := 0 to w
      invariant v == Value(buf[p..p + i], 256)
    {
      ValueAppend(buf[p..p + i], 256, buf[p + i]);
      assert buf[p..p + i + 1] == buf[p..p + i] + [buf[p + i]];
      v := v * 256 + buf[p + i];
    }
  }
}
