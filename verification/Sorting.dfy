/** Python's `sorted` and `list.sort`: a stable sort by a total preorder, with the facts that the
    other modules need about permutation, order, uniqueness and filtering. */
module Sorting {

  predicate SortedBy<T>(xs: seq<T>, le: (T, T) -> bool) {
    forall i, j :: 0 <= i < j < |xs| ==> le(xs[i], xs[j])
  }

  ghost predicate TotalPreorder<T(!new)>(le: (T, T) -> bool) {
    && (forall a, b :: le(a, b) || le(b, a))
    && (forall a, b, c :: le(a, b) && le(b, c) ==> le(a, c))
  }

  function Insert<T>(x: T, ys: seq<T>, le: (T, T) -> bool): (r: seq<T>)
    ensures multiset(r) == multiset(ys) + multiset{x}
  {
    if ys == [] || (assert ys == [ys[0]] + ys[1..]; le(x, ys[0])) then [x] + ys
    else
      assert ys == [ys[0]] + ys[1..];
      [ys[0]] + Insert(x, ys[1..], le)
  }

  function SortBy<T>(xs: seq<T>, le: (T, T) -> bool): (r: seq<T>)
    ensures multiset(r) == multiset(xs)
  {
    if xs == [] then []
    else
      assert xs == [xs[0]] + xs[1..];
      Insert(xs[0], SortBy(xs[1..], le), le)
  }

  lemma MultisetMembers<T>(xs: seq<T>, ys: seq<T>)
    requires multiset(xs) == multiset(ys)
    ensures |xs| == |ys| && forall x :: x in xs <==> x in ys
  {
    assert |multiset(xs)| == |xs| && |multiset(ys)| == |ys|;
    forall x
      ensures x in xs <==> x in ys
    {
      assert x in xs <==> x in multiset(xs);
      assert x in ys <==> x in multiset(ys);
    }
  }

  lemma {:induction false} InsertSorted<T(!new)>(x: T, ys: seq<T>, le: (T, T) -> bool)
    requires TotalPreorder(le) && SortedBy(ys, le)
    ensures SortedBy(Insert(x, ys, le), le)
  {
    if ys == [] {
    } else if le(x, ys[0]) {
    } else {
      var rest := Insert(x, ys[1..], le);
      InsertSorted(x, ys[1..], le);
      forall j | 0 <= j < |rest|
        ensures le(ys[0], rest[j])
      {
        assert rest[j] in multiset(rest);
        if rest[j] != x {
          assert rest[j] in ys[1..];
        }
      }
    }
  }

  lemma {:induction false} SortSorts<T(!new)>(xs: seq<T>, le: (T, T) -> bool)
    requires TotalPreorder(le)
    ensures SortedBy(SortBy(xs, le), le)
  {
    if xs != [] {
      SortSorts(xs[1..], le);
      InsertSorted(xs[0], SortBy(xs[1..], le), le);
    }
  }

  /** Elements that compare equal both ways are equal: no ties. */
  ghost predicate NoTies<T>(xs: seq<T>, le: (T, T) -> bool) {
    forall a, b :: a in xs && b in xs && le(a, b) && le(b, a) ==> a == b
  }

  /** Without ties there is only one sorted order. */
  lemma {:induction false} SortedUnique<T(!new)>(xs: seq<T>, ys: seq<T>, le: (T, T) -> bool)
    requires SortedBy(xs, le) && SortedBy(ys, le) && NoTies(xs, le)
    requires multiset(xs) == multiset(ys)
    ensures xs == ys
  {
    assert |xs| == |multiset(xs)| == |multiset(ys)| == |ys|;
    if xs != [] {
      SortedFirst(xs, ys, le);
      TailMultiset(xs);
      TailMultiset(ys);
      SortedUnique(xs[1..], ys[1..], le);
      assert xs == [xs[0]] + xs[1..] && ys == [ys[0]] + ys[1..];
    }
  }

  lemma TailMultiset<T>(xs: seq<T>)
    requires xs != []
    ensures multiset(xs[1..]) == multiset(xs) - multiset{xs[0]}
  {
    assert xs == [xs[0]] + xs[1..];
  }

  lemma SortedFirst<T(!new)>(xs: seq<T>, ys: seq<T>, le: (T, T) -> bool)
    requires SortedBy(xs, le) && SortedBy(ys, le) && NoTies(xs, le)
    requires multiset(xs) == multiset(ys) && xs != [] && ys != []
    ensures xs[0] == ys[0]
  {
    MultisetMembers(xs, ys);
    assert xs[0] in ys && ys[0] in xs;
  }

  /** A list already in order is left alone. */
  lemma {:induction false} SortOfSorted<T>(xs: seq<T>, le: (T, T) -> bool)
    requires SortedBy(xs, le)
    ensures SortBy(xs, le) == xs
  {
    if xs != [] {
      SortOfSorted(xs[1..], le);
    }
  }

  // ----- filtering

  function Filter<T(!new)>(xs: seq<T>, p: T -> bool): (r: seq<T>)
    ensures forall x :: x in r <==> x in xs && p(x)
  {
    if xs == [] then []
    else if p(xs[0]) then [xs[0]] + Filter(xs[1..], p)
    else Filter(xs[1..], p)
  }

  lemma {:induction false} FilterAppend<T(!new)>(xs: seq<T>, ys: seq<T>, p: T -> bool)
    ensures Filter(xs + ys, p) == Filter(xs, p) + Filter(ys, p)
  {
    if xs == [] {
      assert xs + ys == ys;
    } else {
      assert (xs + ys)[1..] == xs[1..] + ys;
      FilterAppend(xs[1..], ys, p);
    }
  }

  lemma {:induction false} FilterInsert<T(!new)>(x: T, ys: seq<T>, le: (T, T) -> bool, p: T -> bool)
    requires TotalPreorder(le) && SortedBy(ys, le)
    ensures Filter(Insert(x, ys, le), p) == if p(x) then Insert(x, Filter(ys, p), le) else Filter(ys, p)
  {
    if ys == [] {
    } else if le(x, ys[0]) {
      assert ([x] + ys)[1..] == ys;
      var kept := Filter(ys, p);
      if kept != [] {
        assert kept[0] in ys;
        assert le(x, kept[0]);
      }
    } else {
      FilterInsert(x, ys[1..], le, p);
    }
  }

  /** A stable sort commutes with filtering. */
  lemma {:induction false} FilterSort<T(!new)>(xs: seq<T>, le: (T, T) -> bool, p: T -> bool)
    requires TotalPreorder(le)
    ensures Filter(SortBy(xs, le), p) == SortBy(Filter(xs, p), le)
  {
    if xs != [] {
      FilterSort(xs[1..], le, p);
      SortSorts(xs[1..], le);
      FilterInsert(xs[0], SortBy(xs[1..], le), le, p);
    }
  }

  // ----- lists without repetition

  ghost predicate NoRepeats<T>(xs: seq<T>) {
    forall i, j :: 0 <= i < j < |xs| ==> xs[i] != xs[j]
  }

  lemma {:induction false} CountNoRepeats<T>(xs: seq<T>, x: T)
    requires NoRepeats(xs)
    ensures multiset(xs)[x] == if x in xs then 1 else 0
  {
    if xs != [] {
      assert xs == [xs[0]] + xs[1..];
      CountNoRepeats(xs[1..], x);
    }
  }

  lemma {:induction false} FilterNoRepeats<T(!new)>(xs: seq<T>, p: T -> bool)
    requires NoRepeats(xs)
    ensures NoRepeats(Filter(xs, p))
  {
    if xs != [] {
      FilterNoRepeats(xs[1..], p);
      assert xs[0] !in Filter(xs[1..], p);
    }
  }

  lemma PermutationNoRepeats<T>(xs: seq<T>, ys: seq<T>)
    requires NoRepeats(xs) && multiset(ys) == multiset(xs)
    ensures NoRepeats(ys)
  {
    forall i, j | 0 <= i < j < |ys|
      ensures ys[i] != ys[j]
    {
      var x := ys[i];
      assert ys == ys[..i] + [x] + ys[i + 1..j] + [ys[j]] + ys[j + 1..];
      CountNoRepeats(xs, x);
      assert x == ys[j] ==> multiset(ys)[x] >= 2;
    }
  }

  /** Sorting a list without repetition. */
  lemma SortDistinct<T(!new)>(xs: seq<T>, le: (T, T) -> bool)
    requires TotalPreorder(le) && NoRepeats(xs)
    ensures var r := SortBy(xs, le);
            SortedBy(r, le) && NoRepeats(r) && |r| == |xs| && forall x :: x in r <==> x in xs
  {
    SortSorts(xs, le);
    MultisetMembers(SortBy(xs, le), xs);
    PermutationNoRepeats(xs, SortBy(xs, le));
  }

  lemma SameMembersSameMultiset<T>(xs: seq<T>, ys: seq<T>)
    requires NoRepeats(xs) && NoRepeats(ys) && forall x :: x in xs <==> x in ys
    ensures multiset(xs) == multiset(ys)
  {
    forall x
      ensures multiset(xs)[x] == multiset(ys)[x]
    {
      CountNoRepeats(xs, x);
      CountNoRepeats(ys, x);
    }
  }

  // ----- ascending integers

  predicate Ascending(xs: seq<int>) {
    forall i, j :: 0 <= i < j < |xs| ==> xs[i] < xs[j]
  }

  function Least(s: set<int>): (m: int)
    requires s != {}
    ensures m in s && forall x :: x in s ==> m <= x
  {
    LeastExists(s);
    var m :| m in s && forall x :: x in s ==> m <= x;
    m
  }

  lemma LeastExists(s: set<int>)
    requires s != {}
    ensures exists m :: m in s && forall x :: x in s ==> m <= x
  {
    var m := FindLeast(s);
  }

  lemma {:induction false} FindLeast(s: set<int>) returns (m: int)
    requires s != {}
    ensures m in s && forall x :: x in s ==> m <= x
    decreases |s|
  {
    assert (forall x :: x !in s) ==> s == {};
    var y :| y in s;
    m := y;
    var rest := s - {y};
    if rest != {} {
      var r := FindLeast(rest);
      m := if r < y then r else y;
    }
    forall x | x in s
      ensures m <= x
    {
      assert x == y || x in rest;
    }
  }

  /** `sorted` of a set or of dictionary keys. */
  function SortedKeys(s: set<int>): (r: seq<int>)
    ensures Ascending(r)
    ensures forall x :: x in r <==> x in s
    decreases |s|
  {
    if s == {} then []
    else
      var m := Least(s);
      [m] + SortedKeys(s - {m})
  }

  lemma {:induction false} AscendingUnique(xs: seq<int>, ys: seq<int>)
    requires Ascending(xs) && Ascending(ys)
    requires forall x :: x in xs <==> x in ys
    ensures xs == ys
  {
    if xs == [] && ys == [] {
    } else {
      assert xs != [] ==> xs[0] in xs;
      assert ys != [] ==> ys[0] in ys;
      assert xs[0] == ys[0];
      forall x
        ensures x in xs[1..] <==> x in ys[1..]
      {
        assert x in xs[1..] <==> x in xs && x != xs[0];
        assert x in ys[1..] <==> x in ys && x != ys[0];
      }
      AscendingUnique(xs[1..], ys[1..]);
    }
  }
}
