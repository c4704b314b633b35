/** The order of octet strings and the octets of numbers of fixed width, place by place. */
module OctetOrder {
  import opened Octets
  import opened Radix
  import opened BigEndian

  /** The first place at which two strings differ decides. */
  lemma {:induction false} LessAt(a: bytes, b: bytes, k: nat)
    requires k < |a| && k < |b| && a[..k] == b[..k] && a[k] < b[k]
    ensures Less(a, b)
  {
    if k > 0 {
      assert a[0] == a[..k][0] && b[0] == b[..k][0];
      assert a[1..][..k - 1] == a[..k][1..] && b[1..][..k - 1] == b[..k][1..];
      LessAt(a[1..], b[1..], k - 1);
    }
  }

  /** Strings that agree up to a place at which the first has ended, or has the lower octet. */
  predicate PartsAt(a: bytes, b: bytes, k: nat) {
    k <= |a| && k < |b| && a[..k] == b[..k] && (k == |a| || a[k] < b[k])
  }

  lemma {:induction false} PartingPlace(a: bytes, b: bytes) returns (k: nat)
    requires Less(a, b)
    ensures PartsAt(a, b, k)
  {
    if a == [] || a[0] < b[0] {
      k := 0;
    } else {
      k := PartingPlace(a[1..], b[1..]);
      assert a[..k + 1] == [a[0]] + a[1..][..k] && b[..k + 1] == [b[0]] + b[1..][..k];
      k := k + 1;
    }
  }

  lemma {:induction false} PrefixLess(a: bytes, b: bytes)
    requires a <= b && a != b
    ensures Less(a, b)
  {
    if a != [] {
      assert a[1..] <= b[1..];
      assert a == [a[0]] + a[1..] && b == [b[0]] + b[1..];
      PrefixLess(a[1..], b[1..]);
    }
  }

  /** One string is below another exactly when they part at some place: it ends there, or has the lower octet. */
  lemma LessExactly(a: bytes, b: bytes)
    ensures Less(a, b) <==> exists k: nat :: PartsAt(a, b, k)
  {
    hide Less;
    if Less(a, b) { var k := PartingPlace(a, b); }
    forall k: nat | PartsAt(a, b, k) ensures Less(a, b) {
      if k == |a| {
        assert a[..k] == a;
        PrefixLess(a, b);
      } else {
        LessAt(a, b, k);
      }
    }
  }

  // ---------------------------------------------------------------- fixed widths

  /** One octet is the number itself; each further octet takes the lowest eight bits behind those of the rest. */
  lemma WidthGrows(n: nat, w: nat)
    requires w > 0 && n < Pow(256, w)
    ensures w == 1 ==> FixedBytes(n, w) == [n]
    ensures w > 1 ==> (PowQuotient(n, 256, w); FixedBytes(n, w) == FixedBytes(n / 256, w - 1) + [n % 256])
  {
    PowQuotient(n, 256, w);
    FixedUnfolds(n, w);
    if w == 1 { assert Pow(256, 1) == 256 * Pow(256, 0); }
    hide Fixed;
  }

  lemma FixedUnfolds(n: nat, w: nat)
    requires w > 0
    ensures Fixed(n, 256, w) == Fixed(n / 256, 256, w - 1) + [n % 256]
  {
  }

  lemma FourMore(n: nat, w: nat)
    ensures Fixed(n, 256, w + 4) ==
            Fixed(n / 0x1_0000_0000, 256, w) +
            [n / 0x100_0000 % 256, n / 0x1_0000 % 256, n / 0x100 % 256, n % 256]
  {
    FixedUnfolds(n, w + 4);
    FixedUnfolds(n / 256, w + 3);
    FixedUnfolds(n / 256 / 256, w + 2);
    FixedUnfolds(n / 256 / 256 / 256, w + 1);
    hide Fixed;
    assert n / 256 / 256 == n / 0x1_0000 && n / 0x1_0000 / 256 == n / 0x100_0000;
    assert n / 0x100_0000 / 256 == n / 0x1_0000_0000;
  }

  /** Four octets, the most significant first. */
  lemma FourOctets(n: nat)
    requires n < 0x1_0000_0000
    ensures Fixed(n, 256, 4) == [n / 0x100_0000, n / 0x1_0000 % 256, n / 0x100 % 256, n % 256]
  {
    FourMore(n, 0);
    assert Fixed(0, 256, 0) == [];
    hide Fixed;
  }

  /** Eight octets. */
  lemma EightOctets(n: nat)
    requires n < 0x1_0000_0000_0000_0000
    ensures Fixed(n, 256, 8) ==
            [n / 0x100_0000_0000_0000, n / 0x1_0000_0000_0000 % 256, n / 0x100_0000_0000 % 256,
             n / 0x1_0000_0000 % 256, n / 0x100_0000 % 256, n / 0x1_0000 % 256, n / 0x100 % 256, n % 256]
  {
    var hi := n / 0x1_0000_0000;
    FourMore(n, 4);
    FourOctets(hi);
    hide Fixed;
    assert hi / 0x100_0000 == n / 0x100_0000_0000_0000 && hi / 0x1_0000 == n / 0x1_0000_0000_0000;
    assert hi / 0x100 == n / 0x100_0000_0000;
  }
}
