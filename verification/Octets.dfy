/** Octets, octet strings, their bytewise comparison and the prefix relation. */
module Octets {

  type byte = b: int | 0 <= b < 256

  type bytes = seq<byte>

  /** The concatenation of a list of octet strings, in order. */
  function Concat(parts: seq<bytes>): bytes {
    if parts == [] then [] else parts[0] + Concat(parts[1..])
  }

  lemma {:induction false} ConcatAppend(parts: seq<bytes>, last: bytes)
    ensures Concat(parts + [last]) == Concat(parts) + last
  {
    if parts == [] {
      assert parts + [last] == [last];
      assert Concat([last]) == last + Concat([]);
    } else {
      ConcatAppend(parts[1..], last);
      assert (parts + [last])[1..] == parts[1..] + [last];
    }
  }

  lemma ConcatCons(first: bytes, rest: seq<bytes>)
    ensures Concat([first] + rest) == first + Concat(rest)
  {
    assert ([first] + rest)[1..] == rest;
  }

  lemma {:induction false} ConcatJoin(xs: seq<bytes>, ys: seq<bytes>)
    ensures Concat(xs + ys) == Concat(xs) + Concat(ys)
  {
    if xs == [] {
      assert xs + ys == ys;
      assert Concat(xs) == [];
    } else {
      hide Concat;
      ConcatJoin(xs[1..], ys);
      ConcatCons(xs[0], xs[1..]);
      ConcatCons(xs[0], xs[1..] + ys);
      assert [xs[0]] + xs[1..] == xs;
      assert [xs[0]] + (xs[1..] + ys) == xs + ys;
    }
  }

  /** One octet string holds another at a given offset. */
  predicate HasAt(buf: bytes, at: nat, part: bytes) {
    at + |part| <= |buf| && buf[at..at + |part|] == part
  }

  lemma HasAtSplit(buf: bytes, at: nat, x: bytes, y: bytes)
    ensures HasAt(buf, at, x + y) <==> HasAt(buf, at, x) && HasAt(buf, at + |x|, y)
  {
    if HasAt(buf, at, x + y) {
      var w := buf[at..at + |x| + |y|];
      assert w == x + y;
      assert buf[at..at + |x|] == w[..|x|];
      assert buf[at + |x|..at + |x| + |y|] == w[|x|..];
    }
    if HasAt(buf, at, x) && HasAt(buf, at + |x|, y) {
      assert buf[at..at + |x| + |y|] == buf[at..at + |x|] + buf[at + |x|..at + |x| + |y|];
    }
  }

  lemma HasAtByte(buf: bytes, at: nat, b: byte)
    ensures HasAt(buf, at, [b]) <==> at < |buf| && buf[at] == b
  {
    if at < |buf| {
      assert buf[at..at + 1] == [buf[at]];
    }
  }

  /** Bytewise lexicographic order with a proper prefix first: what Buffer.compare decides. */
  predicate Less(a: bytes, b: bytes) {
    b != [] && (a == [] || a[0] < b[0] || (a[0] == b[0] && Less(a[1..], b[1..])))
  }

  lemma {:induction false} LessTrichotomy(a: bytes, b: bytes)
    ensures Less(a, b) || Less(b, a) || a == b
    ensures !(Less(a, b) && Less(b, a))
    ensures Less(a, b) || Less(b, a) ==> a != b
  {
    if a != [] && b != [] && a[0] == b[0] {
      LessTrichotomy(a[1..], b[1..]);
      assert a == [a[0]] + a[1..] && b == [b[0]] + b[1..];
    }
  }

  lemma {:induction false} LessTransitive(a: bytes, b: bytes, c: bytes)
    requires Less(a, b) && Less(b, c)
    ensures Less(a, c)
  {
    if a != [] && a[0] == b[0] == c[0] {
      LessTransitive(a[1..], b[1..], c[1..]);
    }
  }
}
