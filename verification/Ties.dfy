/** Stable sorting by a key: what depends on the given order of a list, and what does not. */
module Ties {
  import opened Sorting

  ghost predicate LinearOrder<K(!new)>(le: (K, K) -> bool) {
    TotalPreorder(le) && forall a, b :: le(a, b) && le(b, a) ==> a == b
  }

  function OrderBy<T, K>(key: T -> K, le: (K, K) -> bool): (T, T) -> bool {
    (a: T, b: T) => le(key(a), key(b))
  }

  lemma OrderByOrders<T(!new), K(!new)>(key: T -> K, le: (K, K) -> bool)
    requires LinearOrder(le)
    ensures TotalPreorder(OrderBy(key, le))
  {
  }

  function KeysOf<T, K>(xs: seq<T>, key: T -> K): (keys: seq<K>)
    ensures |keys| == |xs| && forall i :: 0 <= i < |xs| ==> keys[i] == key(xs[i])
  {
    seq(|xs|, i requires 0 <= i < |xs| => key(xs[i]))
  }

  lemma {:induction false} KeysPermute<T, K>(p: seq<T>, q: seq<T>, key: T -> K)
    requires multiset(p) == multiset(q)
    ensures multiset(KeysOf(p, key)) == multiset(KeysOf(q, key))
    decreases |p|
  {
    assert |p| == |multiset(p)| == |multiset(q)| == |q|;
    if p != [] {
      assert p[0] in multiset(q);
      var j :| 0 <= j < |q| && q[j] == p[0];
      TailMultiset(p);
      WithoutAt(q, j);
      KeysPermute(p[1..], q[..j] + q[j + 1..], key);
      KeysWithoutAt(q, j, key);
      assert KeysOf(p, key) == [key(p[0])] + KeysOf(p[1..], key);
    }
  }

  lemma WithoutAt<T>(q: seq<T>, j: nat)
    requires j < |q|
    ensures multiset(q[..j] + q[j + 1..]) == multiset(q) - multiset{q[j]}
  {
    assert q == q[..j] + [q[j]] + q[j + 1..];
  }

  lemma KeysWithoutAt<T, K>(q: seq<T>, j: nat, key: T -> K)
    requires j < |q|
    ensures multiset(KeysOf(q, key)) == multiset(KeysOf(q[..j] + q[j + 1..], key)) + multiset{key(q[j])}
  {
    var keys := KeysOf(q, key);
    assert KeysOf(q[..j] + q[j + 1..], key) == keys[..j] + keys[j + 1..];
    WithoutAt(keys, j);
  }

  /** Reorderings of a list have the same keys at the same places once sorted. */
  lemma SortedKeysAgree<T(!new), K(!new)>(p: seq<T>, q: seq<T>, key: T -> K, le: (K, K) -> bool)
    requires LinearOrder(le) && multiset(p) == multiset(q)
    ensures KeysOf(SortBy(p, OrderBy(key, le)), key) == KeysOf(SortBy(q, OrderBy(key, le)), key)
  {
    var xs, ys := SortBy(p, OrderBy(key, le)), SortBy(q, OrderBy(key, le));
    OrderByOrders(key, le);
    SortSorts(p, OrderBy(key, le));
    SortSorts(q, OrderBy(key, le));
    KeysPermute(xs, ys, key);
    SortedUnique(KeysOf(xs, key), KeysOf(ys, key), le);
  }

  function HasKey<T, K(==)>(key: T -> K, k: K): T -> bool {
    (x: T) => key(x) == k
  }

  /** The sort keeps elements of equal key in their given order. */
  lemma EqualKeysKeepOrder<T(!new), K(!new)>(xs: seq<T>, key: T -> K, le: (K, K) -> bool, k: K)
    requires LinearOrder(le)
    ensures Filter(SortBy(xs, OrderBy(key, le)), HasKey(key, k)) == Filter(xs, HasKey(key, k))
  {
    OrderByOrders(key, le);
    FilterSort(xs, OrderBy(key, le), HasKey(key, k));
    var same := Filter(xs, HasKey(key, k));
    forall i, j | 0 <= i < j < |same|
      ensures OrderBy(key, le)(same[i], same[j])
    {
      assert same[i] in same && same[j] in same;
    }
    SortOfSorted(same, OrderBy(key, le));
  }

  // ----- the place of an element among those that pass a filter

  function Place<T(!new)>(xs: seq<T>, p: T -> bool, i: nat): nat
    requires i <= |xs|
  {
    |Filter(xs[..i], p)|
  }

  lemma PlaceInFilter<T(!new)>(xs: seq<T>, p: T -> bool, i: nat)
    requires i < |xs| && p(xs[i])
    ensures Place(xs, p, i) < |Filter(xs, p)| && Filter(xs, p)[Place(xs, p, i)] == xs[i]
  {
    assert xs == xs[..i] + xs[i..];
    FilterAppend(xs[..i], xs[i..], p);
  }

  lemma {:induction false} SamePlace<T(!new)>(xs: seq<T>, ys: seq<T>, p: T -> bool)
    requires |xs| == |ys| && forall i :: 0 <= i < |xs| ==> p(xs[i]) == p(ys[i])
    ensures |Filter(xs, p)| == |Filter(ys, p)|
  {
    if xs != [] {
      SamePlace(xs[1..], ys[1..], p);
    }
  }

  // ----- a relation that must hold between equal keys

  ghost predicate ListsAgree<T>(xs: seq<T>, ys: seq<T>, agree: (T, T) -> bool) {
    |xs| == |ys| && forall i :: 0 <= i < |xs| ==> agree(xs[i], ys[i])
  }

  /** Elements of equal key agree with each other, and with themselves. */
  ghost predicate TiesAgree<T, K>(xs: seq<T>, key: T -> K, agree: (T, T) -> bool) {
    forall a, b :: a in xs && b in xs && key(a) == key(b) ==> agree(a, b)
  }

  lemma TiesAgreeMeansListsAgree<T(!new), K(!new)>(p: seq<T>, q: seq<T>, key: T -> K, le: (K, K) -> bool, agree: (T, T) -> bool)
    requires LinearOrder(le) && multiset(p) == multiset(q) && TiesAgree(p, key, agree)
    ensures ListsAgree(SortBy(p, OrderBy(key, le)), SortBy(q, OrderBy(key, le)), agree)
  {
    var xs, ys := SortBy(p, OrderBy(key, le)), SortBy(q, OrderBy(key, le));
    SortedKeysAgree(p, q, key, le);
    MultisetMembers(xs, p);
    MultisetMembers(ys, p);
    assert |KeysOf(xs, key)| == |KeysOf(ys, key)|;
    forall i | 0 <= i < |xs|
      ensures agree(xs[i], ys[i])
    {
      assert KeysOf(xs, key)[i] == KeysOf(ys, key)[i];
      assert xs[i] in xs && ys[i] in ys;
    }
  }

  /** Lists that agree and have the same keys agree among the elements of each key. */
  lemma {:induction false} ClassesAgree<T(!new), K(!new)>(xs: seq<T>, ys: seq<T>, key: T -> K, agree: (T, T) -> bool, k: K)
    requires KeysOf(xs, key) == KeysOf(ys, key) && ListsAgree(xs, ys, agree)
    ensures ListsAgree(Filter(xs, HasKey(key, k)), Filter(ys, HasKey(key, k)), agree)
  {
    if xs != [] {
      assert KeysOf(xs, key)[0] == KeysOf(ys, key)[0];
      assert KeysOf(xs[1..], key) == KeysOf(xs, key)[1..] && KeysOf(ys[1..], key) == KeysOf(ys, key)[1..];
      ClassesAgree(xs[1..], ys[1..], key, agree, k);
    }
  }

  function Swapped<T>(xs: seq<T>, i: nat, j: nat): seq<T>
    requires i < |xs| && j < |xs|
  {
    xs[i := xs[j]][j := xs[i]]
  }

  /** If sorting a list and sorting it with two elements of one key swapped agree, the two agree. */
  lemma SwapShowsAgreement<T(!new), K(!new)>(xs: seq<T>, key: T -> K, le: (K, K) -> bool, agree: (T, T) -> bool, i: nat, j: nat)
    requires LinearOrder(le) && i < |xs| && j < |xs| && key(xs[i]) == key(xs[j])
    requires AgreesWhenReordered(xs, key, le, agree)
    ensures agree(xs[i], xs[j])
  {
    var ys := Swapped(xs, i, j);
    SwapReorders(xs, i, j);
    assert forall k :: 0 <= k < |xs| ==> key(ys[k]) == key(xs[k]);
    GivenClassesAgree(xs, ys, key, le, agree, key(xs[i]));
    AgreeInPlace(xs, ys, HasKey(key, key(xs[i])), agree, i);
  }

  lemma SwapReorders<T>(xs: seq<T>, i: nat, j: nat)
    requires i < |xs| && j < |xs|
    ensures multiset(Swapped(xs, i, j)) == multiset(xs)
  {
  }

  /** Rows of one key agree in their given order, if the sorted lists agree. */
  lemma GivenClassesAgree<T(!new), K(!new)>(xs: seq<T>, ys: seq<T>, key: T -> K, le: (K, K) -> bool, agree: (T, T) -> bool, k: K)
    requires LinearOrder(le) && multiset(ys) == multiset(xs)
    requires ListsAgree(SortBy(xs, OrderBy(key, le)), SortBy(ys, OrderBy(key, le)), agree)
    ensures ListsAgree(Filter(xs, HasKey(key, k)), Filter(ys, HasKey(key, k)), agree)
  {
    SortedKeysAgree(xs, ys, key, le);
    ClassesAgree(SortBy(xs, OrderBy(key, le)), SortBy(ys, OrderBy(key, le)), key, agree, k);
    EqualKeysKeepOrder(xs, key, le, k);
    EqualKeysKeepOrder(ys, key, le, k);
  }

  lemma AgreeInPlace<T(!new)>(xs: seq<T>, ys: seq<T>, p: T -> bool, agree: (T, T) -> bool, i: nat)
    requires |xs| == |ys| && (forall k :: 0 <= k < |xs| ==> p(xs[k]) == p(ys[k])) && i < |xs| && p(xs[i])
    requires ListsAgree(Filter(xs, p), Filter(ys, p), agree)
    ensures agree(xs[i], ys[i])
  {
    SamePlaces(xs, ys, p, i);
    PlaceInFilter(xs, p, i);
    PlaceInFilter(ys, p, i);
    AgreeAt(Filter(xs, p), Filter(ys, p), agree, Place(xs, p, i));
  }

  lemma AgreeAt<T>(xs: seq<T>, ys: seq<T>, agree: (T, T) -> bool, m: nat)
    requires ListsAgree(xs, ys, agree) && m < |xs|
    ensures agree(xs[m], ys[m])
  {
  }

  lemma SamePlaces<T(!new)>(xs: seq<T>, ys: seq<T>, p: T -> bool, i: nat)
    requires |xs| == |ys| && (forall k :: 0 <= k < |xs| ==> p(xs[k]) == p(ys[k])) && i < |xs|
    ensures Place(xs, p, i) == Place(ys, p, i)
  {
    SamePlace(xs[..i], ys[..i], p);
  }

  /** The sorted list agrees with every reordering of it, sorted. */
  ghost predicate AgreesWhenReordered<T(!new), K>(xs: seq<T>, key: T -> K, le: (K, K) -> bool, agree: (T, T) -> bool) {
    forall ys :: multiset(ys) == multiset(xs) ==> ListsAgree(SortBy(xs, OrderBy(key, le)), SortBy(ys, OrderBy(key, le)), agree)
  }

  /** A sorted list agrees with all its reorderings exactly when elements of equal key agree. */
  lemma AgreesWhenReorderedExactly<T(!new), K(!new)>(xs: seq<T>, key: T -> K, le: (K, K) -> bool, agree: (T, T) -> bool)
    requires LinearOrder(le)
    ensures AgreesWhenReordered(xs, key, le, agree) <==> TiesAgree(xs, key, agree)
  {
    if TiesAgree(xs, key, agree) {
      forall ys | multiset(ys) == multiset(xs)
        ensures ListsAgree(SortBy(xs, OrderBy(key, le)), SortBy(ys, OrderBy(key, le)), agree)
      {
        TiesAgreeMeansListsAgree(xs, ys, key, le, agree);
      }
    }
    if AgreesWhenReordered(xs, key, le, agree) {
      forall a, b | a in xs && b in xs && key(a) == key(b)
        ensures agree(a, b)
      {
        var i :| 0 <= i < |xs| && xs[i] == a;
        var j :| 0 <= j < |xs| && xs[j] == b;
        SwapShowsAgreement(xs, key, le, agree, i, j);
      }
    }
  }

  // ----- when the given order does not matter at all

  function Same<T(==)>(): (T, T) -> bool {
    (a: T, b: T) => a == b
  }

  /** All reorderings are sorted alike. */
  ghost predicate OrderIgnored<T(!new), K>(xs: seq<T>, key: T -> K, le: (K, K) -> bool) {
    forall p, q :: multiset(p) == multiset(xs) && multiset(q) == multiset(xs) ==>
      SortBy(p, OrderBy(key, le)) == SortBy(q, OrderBy(key, le))
  }

  /** Equal keys mean equal elements. */
  ghost predicate KeysIdentify<T, K>(xs: seq<T>, key: T -> K) {
    forall a, b :: a in xs && b in xs && key(a) == key(b) ==> a == b
  }

  /** Sorting by key ignores the given order exactly when equal keys mean equal elements. */
  lemma OrderIgnoredExactly<T(!new), K(!new)>(xs: seq<T>, key: T -> K, le: (K, K) -> bool)
    requires LinearOrder(le)
    ensures OrderIgnored(xs, key, le) <==> KeysIdentify(xs, key)
  {
    AgreesWhenReorderedExactly(xs, key, le, Same());
    assert TiesAgree(xs, key, Same()) <==> KeysIdentify(xs, key);
    if AgreesWhenReordered(xs, key, le, Same()) {
      forall p, q | multiset(p) == multiset(xs) && multiset(q) == multiset(xs)
        ensures SortBy(p, OrderBy(key, le)) == SortBy(q, OrderBy(key, le))
      {
        SameLists(SortBy(xs, OrderBy(key, le)), SortBy(p, OrderBy(key, le)));
        SameLists(SortBy(xs, OrderBy(key, le)), SortBy(q, OrderBy(key, le)));
      }
    }
    if OrderIgnored(xs, key, le) {
      forall ys | multiset(ys) == multiset(xs)
        ensures ListsAgree(SortBy(xs, OrderBy(key, le)), SortBy(ys, OrderBy(key, le)), Same())
      {
        SameLists(SortBy(xs, OrderBy(key, le)), SortBy(ys, OrderBy(key, le)));
      }
    }
  }

  lemma SameLists<T>(xs: seq<T>, ys: seq<T>)
    ensures ListsAgree(xs, ys, Same()) <==> xs == ys
  {
  }
}
