/**
 Sorting by the octets of a key. The source sorts with a comparator on octet strings; any
 stable sort gives what SortedCopy gives, and where keys tell the elements apart the result
 depends on the elements alone.
 */
module Sorting {
  import opened Octets

  ghost predicate Ascending<T(!new)>(xs: seq<T>, key: T -> bytes) {
    forall i, j :: 0 <= i < j < |xs| ==> !Less(key(xs[j]), key(xs[i]))
  }

  /** Puts x before the first element whose key is above its own. */
  function Insert<T>(x: T, xs: seq<T>, key: T -> bytes): seq<T> {
    if xs == [] || Less(key(x), key(xs[0])) then [x] + xs
    else [xs[0]] + Insert(x, xs[1..], key)
  }

  function SortedCopy<T>(xs: seq<T>, key: T -> bytes): seq<T> {
    if xs == [] then [] else Insert(xs[|xs| - 1], SortedCopy(xs[..|xs| - 1], key), key)
  }

  lemma {:induction false} InsertElements<T>(x: T, xs: seq<T>, key: T -> bytes)
    ensures multiset(Insert(x, xs, key)) == multiset{x} + multiset(xs)
  {
    if xs != [] && !Less(key(x), key(xs[0])) {
      InsertElements(x, xs[1..], key);
      assert xs == [xs[0]] + xs[1..];
    }
  }

  lemma {:induction false} InsertAscending<T(!new)>(x: T, xs: seq<T>, key: T -> bytes)
    requires Ascending(xs, key)
    ensures Ascending(Insert(x, xs, key), key)
  {
    if xs == [] {
    } else if Less(key(x), key(xs[0])) {
      forall j | 0 <= j < |xs| ensures !Less(key(xs[j]), key(x)) {
        if Less(key(xs[j]), key(x)) {
          LessTransitive(key(xs[j]), key(x), key(xs[0]));
          LessTrichotomy(key(xs[j]), key(xs[0]));
        }
      }
    } else {
      var rest := Insert(x, xs[1..], key);
      InsertAscending(x, xs[1..], key);
      InsertElements(x, xs[1..], key);
      forall j | 0 <= j < |rest| ensures !Less(key(rest[j]), key(xs[0])) {
        assert rest[j] in multiset(rest);
        if rest[j] != x {
          assert rest[j] in xs[1..];
        }
      }
    }
  }

  lemma InsertCorrect<T(!new)>(x: T, xs: seq<T>, key: T -> bytes, of: multiset<T>)
    requires Ascending(xs, key) && multiset(xs) == of
    ensures Ascending(Insert(x, xs, key), key) && multiset(Insert(x, xs, key)) == of + multiset{x}
  {
    hide Insert, Less, Ascending;
    InsertAscending(x, xs, key);
    InsertElements(x, xs, key);
  }

  lemma {:induction false} SortedCopyCorrect<T(!new)>(xs: seq<T>, key: T -> bytes)
    ensures Ascending(SortedCopy(xs, key), key)
    ensures multiset(SortedCopy(xs, key)) == multiset(xs)
  {
    if xs != [] {
      hide Insert, Less, Ascending;
      var init, last := xs[..|xs| - 1], xs[|xs| - 1];
      SortedCopyCorrect(init, key);
      InsertCorrect(last, SortedCopy(init, key), key, multiset(init));
      assert xs == init + [last];
      assert multiset(xs) == multiset(init) + multiset{last};
    }
  }

  /** Keys tell the elements apart. */
  ghost predicate KeyedApart<T(!new)>(xs: seq<T>, key: T -> bytes) {
    forall x, y :: x in xs && y in xs && key(x) == key(y) ==> x == y
  }

  lemma AscendingTail<T(!new)>(xs: seq<T>, key: T -> bytes)
    requires Ascending(xs, key) && KeyedApart(xs, key) && xs != []
    ensures Ascending(xs[1..], key) && KeyedApart(xs[1..], key)
    ensures forall x :: x in xs ==> !Less(key(x), key(xs[0]))
  {
    hide Less;
    LessTrichotomy(key(xs[0]), key(xs[0]));
    forall a, b | a in xs[1..] && b in xs[1..] && key(a) == key(b) ensures a == b {
      assert a in xs && b in xs;
    }
  }

  lemma SameElements<T>(xs: seq<T>, ys: seq<T>, x: T)
    requires multiset(xs) == multiset(ys)
    ensures |xs| == |ys| && (x in xs <==> x in ys)
  {
    assert |multiset(xs)| == |multiset(ys)|;
    assert x in xs <==> x in multiset(xs);
    assert x in ys <==> x in multiset(ys);
  }

  lemma SameTails<T>(xs: seq<T>, ys: seq<T>)
    requires multiset(xs) == multiset(ys) && xs != [] && ys != [] && xs[0] == ys[0]
    ensures multiset(xs[1..]) == multiset(ys[1..])
  {
    assert xs == [xs[0]] + xs[1..] && ys == [ys[0]] + ys[1..];
    assert multiset(xs) == multiset{xs[0]} + multiset(xs[1..]);
    assert multiset(ys) == multiset{ys[0]} + multiset(ys[1..]);
    assert multiset(xs[1..]) == multiset(xs) - multiset{xs[0]};
    assert multiset(ys[1..]) == multiset(ys) - multiset{ys[0]};
  }

  /** There is one ascending order of elements told apart by their keys. */
  lemma {:induction false} AscendingUnique<T(!new)>(xs: seq<T>, ys: seq<T>, key: T -> bytes)
    requires Ascending(xs, key) && Ascending(ys, key) && KeyedApart(xs, key) && KeyedApart(ys, key)
    requires multiset(xs) == multiset(ys)
    ensures xs == ys
  {
    hide Less, Ascending;
    if xs == [] {
      assert |multiset(ys)| == 0;
    } else {
      SameElements(xs, ys, xs[0]);
      SameElements(xs, ys, ys[0]);
      AscendingTail(xs, key);
      AscendingTail(ys, key);
      LessTrichotomy(key(xs[0]), key(ys[0]));
      assert xs[0] == ys[0];
      SameTails(xs, ys);
      AscendingUnique(xs[1..], ys[1..], key);
      assert xs == [xs[0]] + xs[1..] && ys == [ys[0]] + ys[1..];
    }
  }

  lemma KeyedApartPermutation<T(!new)>(xs: seq<T>, ys: seq<T>, key: T -> bytes)
    requires multiset(xs) == multiset(ys) && KeyedApart(xs, key)
    ensures KeyedApart(ys, key)
  {
    forall a, b | a in ys && b in ys && key(a) == key(b) ensures a == b {
      SameElements(xs, ys, a);
      SameElements(xs, ys, b);
    }
  }

  /** Sorting gives the same list for every order of the same elements. */
  lemma SortedCopyCanonical<T(!new)>(xs: seq<T>, ys: seq<T>, key: T -> bytes)
    requires multiset(xs) == multiset(ys) && KeyedApart(xs, key)
    ensures SortedCopy(xs, key) == SortedCopy(ys, key)
  {
    SortedCopyCorrect(xs, key);
    SortedCopyCorrect(ys, key);
    KeyedApartPermutation(xs, SortedCopy(xs, key), key);
    KeyedApartPermutation(xs, SortedCopy(ys, key), key);
    AscendingUnique(SortedCopy(xs, key), SortedCopy(ys, key), key);
  }

  // ---------------------------------------------------------------- repeated keys

  /** Two positions hold the same key. */
  ghost predicate KeyRepeated<T>(xs: seq<T>, key: T -> bytes) {
    exists i, j :: 0 <= i < j < |xs| && key(xs[i]) == key(xs[j])
  }

  lemma TwoAmong<T>(xs: seq<T>, i: nat, j: nat)
    requires i < j < |xs| && xs[i] == xs[j]
    ensures multiset(xs)[xs[i]] >= 2
  {
    assert xs == xs[..j] + ([xs[j]] + xs[j + 1..]);
    assert xs[..j][i] == xs[i];
  }

  lemma TwoPlaces<T>(xs: seq<T>, x: T) returns (i: nat, j: nat)
    requires multiset(xs)[x] >= 2
    ensures i < j < |xs| && xs[i] == xs[j] == x
  {
    assert x in multiset(xs);
    i :| 0 <= i < |xs| && xs[i] == x;
    var rest := xs[..i] + xs[i + 1..];
    assert xs == xs[..i] + ([xs[i]] + xs[i + 1..]);
    assert multiset(xs) == multiset(rest) + multiset{x};
    assert x in multiset(rest);
    var k :| 0 <= k < |rest| && rest[k] == x;
    if k < i { i, j := k, i; } else { j := k + 1; }
  }

  /** Whether a key is repeated depends on the elements alone. */
  lemma RepeatedPermutation<T>(xs: seq<T>, ys: seq<T>, key: T -> bytes)
    requires multiset(xs) == multiset(ys) && KeyRepeated(xs, key)
    ensures KeyRepeated(ys, key)
  {
    var i, j :| 0 <= i < j < |xs| && key(xs[i]) == key(xs[j]);
    if xs[i] == xs[j] {
      TwoAmong(xs, i, j);
      var k, l := TwoPlaces(ys, xs[i]);
    } else {
      SameElements(xs, ys, xs[i]);
      SameElements(xs, ys, xs[j]);
      var k :| 0 <= k < |ys| && ys[k] == xs[i];
      var l :| 0 <= l < |ys| && ys[l] == xs[j];
      if k < l { assert key(ys[k]) == key(ys[l]); } else { assert key(ys[l]) == key(ys[k]); }
    }
  }

  /** In ascending order a repeated key shows in two neighbours. */
  lemma RepeatedIsAdjacent<T(!new)>(xs: seq<T>, key: T -> bytes) returns (i: nat)
    requires Ascending(xs, key) && KeyRepeated(xs, key)
    ensures 0 < i < |xs| && key(xs[i - 1]) == key(xs[i])
  {
    hide Less;
    var a, b :| 0 <= a < b < |xs| && key(xs[a]) == key(xs[b]);
    i := a + 1;
    LessTrichotomy(key(xs[a]), key(xs[i]));
    if i < b { assert !Less(key(xs[b]), key(xs[i])); }
    assert !Less(key(xs[i]), key(xs[a]));
  }
}
