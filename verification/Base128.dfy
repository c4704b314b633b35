/**
 Base-128 groups with a continuation bit on every octet but the last: the high-tag-number
 form of a DER identifier and the sub-identifiers of an OBJECT IDENTIFIER.
 */
module Base128 {
  import opened Octets
  import opened Radix

  /** The octets of a base-128 numeral: every digit but the last carries the continuation bit. */
  function Continued(ds: seq<nat>): (r: bytes)
    requires AreDigits(ds, 128)
    ensures |r| == |ds|
  {
    seq(|ds|, i requires 0 <= i < |ds| => if i == |ds| - 1 then ds[i] else 128 + ds[i])
  }

  /** The low seven bits of each octet. */
  function Low7(s: bytes): (ds: seq<nat>)
    ensures |ds| == |s| && AreDigits(ds, 128)
  {
    seq(|s|, i requires 0 <= i < |s| => s[i] % 128)
  }

  /** A run of octets that ends at its first octet without a continuation bit. */
  predicate IsGroup(s: bytes) {
    s != [] && s[|s| - 1] < 128 && forall i :: 0 <= i < |s| - 1 ==> s[i] >= 128
  }

  lemma ContinuedIsGroup(ds: seq<nat>)
    requires AreDigits(ds, 128) && ds != []
    ensures IsGroup(Continued(ds)) && Low7(Continued(ds)) == ds
  {
  }

  lemma GroupIsContinued(s: bytes)
    requires IsGroup(s)
    ensures Continued(Low7(s)) == s
  {
  }
}
