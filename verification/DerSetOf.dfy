/**
 build.setOf: members sorted by their octets. For members that are elements this is the
 order section 11.6 of X.690 asks for, and the octets do not depend on the order given.
 */
module DerSetOf {
  import opened Wrappers
  import opened Octets
  import opened DerSyntax
  import opened DerBijection
  import opened DerEncoder
  import opened Sorting
  import DerHeaders
  import Radix

  function Itself(s: bytes): bytes { s }

  /** An octet at a position, with zero octets past the end. */
  function Padded(s: bytes, i: nat): byte {
    if i < |s| then s[i] else 0
  }

  /** The order of section 11.6 of X.690: the shorter string is padded with trailing zero octets. */
  ghost predicate PaddedLess(a: bytes, b: bytes) {
    exists i: nat :: PaddedLessAt(a, b, i)
  }

  /** The padded strings first differ at position i, and there a is below b. */
  ghost predicate PaddedLessAt(a: bytes, b: bytes, i: nat) {
    Padded(a, i) < Padded(b, i) && forall j: nat :: j < i ==> Padded(a, j) == Padded(b, j)
  }

  /** Strings of which neither starts the other differ first at a common position. */
  lemma {:induction false} LessAtPosition(a: bytes, b: bytes) returns (i: nat)
    requires Less(a, b) && !(a <= b)
    ensures i < |a| && i < |b| && a[i] < b[i] && a[..i] == b[..i]
  {
    if a[0] < b[0] {
      i := 0;
    } else {
      assert !(a[1..] <= b[1..]) by {
        assert a == [a[0]] + a[1..] && b == [b[0]] + b[1..];
      }
      i := LessAtPosition(a[1..], b[1..]);
      assert a[..i + 1] == [a[0]] + a[1..][..i] && b[..i + 1] == [b[0]] + b[1..][..i];
      i := i + 1;
    }
  }

  lemma LessIsPadded(a: bytes, b: bytes)
    requires Less(a, b) && !(a <= b)
    ensures PaddedLess(a, b) && !PaddedLess(b, a)
  {
    var i := LessAtPosition(a, b);
    forall j: nat | j < i ensures Padded(a, j) == Padded(b, j) {
      assert a[..i][j] == b[..i][j];
    }
    assert PaddedLessAt(a, b, i);
    forall k: nat ensures !PaddedLessAt(b, a, k) {
      if k < i { assert Padded(a, k) == Padded(b, k); }
      assert Padded(a, i) < Padded(b, i);
    }
  }

  /** On encodings the bytewise order and the order of section 11.6 of X.690 are the same. */
  lemma OrdersAgree(t: Tlv, u: Tlv, ber: bool)
    requires WellFormed(t, ber) && WellFormed(u, ber) && |Enc(t)| < TWO_48 && |Enc(u)| < TWO_48
    ensures Less(Enc(t), Enc(u)) <==> PaddedLess(Enc(t), Enc(u))
  {
    hide Enc, Less, WellFormed;
    PrefixFree(t, u, ber);
    PrefixFree(u, t, ber);
    LessTrichotomy(Enc(t), Enc(u));
    if Less(Enc(t), Enc(u)) { LessIsPadded(Enc(t), Enc(u)); }
    if Less(Enc(u), Enc(t)) { LessIsPadded(Enc(u), Enc(t)); }
  }

  /** setOf: the members sorted by their octets, in one universal SET. */
  method SetOf(children: seq<bytes>) returns (r: Result<bytes, EncodeError>)
    ensures r == SetOfBytes(children)
  {
    hide HeaderOrError, SortedCopy;
    var sorted := SortedCopy(children, Itself);
    r := EncodeConstructed(0, SET, sorted);
  }

  function SetOfBytes(children: seq<bytes>): Result<bytes, EncodeError> {
    var content := Concat(SortedCopy(children, Itself));
    match HeaderOrError(0, true, SET, |content|)
    case Err(e) => Err(e)
    case Ok(header) => Ok(header + content)
  }

  function Encodings(ts: seq<Tlv>): (r: seq<bytes>)
    ensures |r| == |ts|
  {
    seq(|ts|, i requires 0 <= i < |ts| => Enc(ts[i]))
  }

  lemma {:induction false} ConcatEncodings(ts: seq<Tlv>)
    ensures Concat(Encodings(ts)) == EncAll(ts)
  {
    hide Enc;
    if ts != [] {
      ConcatEncodings(ts[1..]);
      assert Encodings(ts)[1..] == Encodings(ts[1..]);
    }
  }

  ghost predicate IsEncoding(p: bytes, ber: bool) {
    exists t :: WellFormed(t, ber) && Enc(t) == p
  }

  /** Octet strings that are all encodings are the encodings of a list of trees. */
  lemma {:induction false} TreesOf(parts: seq<bytes>, ber: bool) returns (ts: seq<Tlv>)
    requires forall p :: p in parts ==> IsEncoding(p, ber)
    ensures Encodings(ts) == parts && AllWellFormed(ts, ber)
  {
    hide Enc, WellFormed;
    if parts == [] {
      ts := [];
    } else {
      assert parts[0] in parts;
      var t :| WellFormed(t, ber) && Enc(t) == parts[0];
      var rest := TreesOf(parts[1..], ber);
      ts := [t] + rest;
      ListOf(t, rest, ber);
      assert Encodings(ts) == [parts[0]] + Encodings(rest);
    }
  }

  /** Ascending in the order of section 11.6 of X.690. */
  ghost predicate CanonicalOrder(ts: seq<Tlv>) {
    forall i, j :: 0 <= i < j < |ts| ==> !PaddedLess(Enc(ts[j]), Enc(ts[i]))
  }

  /** The SET a list of well-formed members is built into holds those members in the standard's order. */
  lemma {:induction false} SetOfIsCanonical(members: seq<Tlv>) returns (sorted: seq<Tlv>)
    requires AllWellFormed(members, false) && |EncAll(members)| < TWO_48
    ensures multiset(Encodings(sorted)) == multiset(Encodings(members))
    ensures AllWellFormed(sorted, false) && CanonicalOrder(sorted)
    ensures SetOfBytes(Encodings(members)) == Ok(Enc(Cons(Universal, 17, false, sorted)))
    ensures WellFormed(Cons(Universal, 17, false, sorted), false)
  {
    var parts := SortedCopy(Encodings(members), Itself);
    SortedCopyCorrect(Encodings(members), Itself);
    forall p | p in parts ensures IsEncoding(p, false) {
      SameElements(parts, Encodings(members), p);
      var i :| 0 <= i < |members| && Encodings(members)[i] == p;
      WellFormedAt(members, false, i);
    }
    sorted := TreesOf(parts, false);
    ConcatEncodings(sorted);
    ConcatEncodings(members);
    ConcatPermutation(parts, Encodings(members));
    SortedMembersCanonical(sorted);
    SetHeader(sorted);
  }

  lemma {:induction false} WellFormedAt(ts: seq<Tlv>, ber: bool, i: nat)
    requires AllWellFormed(ts, ber) && i < |ts|
    ensures WellFormed(ts[i], ber) && |Enc(ts[i])| <= |EncAll(ts)|
  {
    hide WellFormed, Enc;
    if i > 0 { WellFormedAt(ts[1..], ber, i - 1); }
  }

  lemma SortedMembersCanonical(sorted: seq<Tlv>)
    requires AllWellFormed(sorted, false) && |EncAll(sorted)| < TWO_48
    requires Ascending(Encodings(sorted), Itself)
    ensures CanonicalOrder(sorted)
  {
    hide Enc, Less, WellFormed, PaddedLess;
    forall i, j | 0 <= i < j < |sorted| ensures !PaddedLess(Enc(sorted[j]), Enc(sorted[i])) {
      WellFormedAt(sorted, false, i);
      WellFormedAt(sorted, false, j);
      OrdersAgree(sorted[j], sorted[i], false);
      assert !Less(Itself(Encodings(sorted)[j]), Itself(Encodings(sorted)[i]));
    }
  }

  lemma SetHeader(sorted: seq<Tlv>)
    requires AllWellFormed(sorted, false) && |EncAll(sorted)| < TWO_48
    ensures HeaderOrError(0, true, SET, |EncAll(sorted)|) ==
            Ok(HeaderBytes(Universal, true, SET, Definite(|EncAll(sorted)|)))
    ensures Enc(Cons(Universal, SET, false, sorted)) ==
            HeaderBytes(Universal, true, SET, Definite(|EncAll(sorted)|)) + EncAll(sorted)
    ensures WellFormed(Cons(Universal, SET, false, sorted), false)
  {
    hide HeaderBytes, EncAll;
    LengthFits(|EncAll(sorted)|);
  }

  lemma LengthFits(n: nat)
    requires n < TWO_48
    ensures |Radix.Digits(n, 256)| <= 126
  {
    DerHeaders.Pow256_6();
    Radix.DigitsLength(n, 256, 6);
  }

  lemma {:induction false} ConcatPermutation(xs: seq<bytes>, ys: seq<bytes>)
    requires multiset(xs) == multiset(ys)
    ensures |Concat(xs)| == |Concat(ys)|
  {
    if xs == [] {
      assert |multiset(ys)| == 0;
    } else {
      SameElements(xs, ys, xs[0]);
      var k :| 0 <= k < |ys| && ys[k] == xs[0];
      var rest := ys[..k] + ys[k + 1..];
      assert ys == ys[..k] + ([ys[k]] + ys[k + 1..]);
      ConcatJoin(ys[..k], [ys[k]] + ys[k + 1..]);
      ConcatJoin(ys[..k], ys[k + 1..]);
      assert ([ys[k]] + ys[k + 1..])[1..] == ys[k + 1..];
      var moved := [xs[0]] + rest;
      assert multiset(moved) == multiset(ys);
      SameTails(xs, moved);
      assert moved[1..] == rest;
      ConcatPermutation(xs[1..], rest);
    }
  }

  /** setOf gives the same octets, or the same refusal, for every order of the members. */
  lemma {:induction false} SetOfIgnoresOrder(xs: seq<bytes>, ys: seq<bytes>)
    requires multiset(xs) == multiset(ys)
    ensures SetOfBytes(xs) == SetOfBytes(ys)
  {
    SortedCopyCanonical(xs, ys, Itself);
  }
}
