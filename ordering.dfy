/**
  Three-way comparators as `vec_sort` receives them: `cmp(x, y)` is negative when `x`
  orders before `y`, zero when they are equivalent and positive when `x` orders after `y`.
*/
module Ordering {

  /** `x` may stand before `y` in a sorted sequence. */
  predicate Le<T>(cmp: (T, T) -> int, x: T, y: T) {
    cmp(x, y) <= 0
  }

  /**
    What a caller of `qsort` must supply for the elements `xs` being sorted: any two of
    them compare, the two argument orders give opposite signs, and the order is transitive.
  */
  ghost predicate TotalPreorder<T>(cmp: (T, T) -> int, xs: set<T>) {
    && (forall x, y :: x in xs && y in xs ==> Le(cmp, x, y) || Le(cmp, y, x))
    && (forall x, y :: x in xs && y in xs ==> (cmp(x, y) < 0 <==> cmp(y, x) > 0))
    && (forall x, y, z :: x in xs && y in xs && z in xs && Le(cmp, x, y) && Le(cmp, y, z) ==> Le(cmp, x, z))
  }

  /** A preorder on `xs` in which only equal values compare as equivalent. */
  ghost predicate TotalOrder<T>(cmp: (T, T) -> int, xs: set<T>) {
    && TotalPreorder(cmp, xs)
    && (forall x, y :: x in xs && y in xs && Le(cmp, x, y) && Le(cmp, y, x) ==> x == y)
  }

  /** The set of values a sequence holds. */
  ghost function Elements<T>(s: seq<T>): set<T> {
    set x | x in s
  }

  ghost predicate SortedBy<T>(cmp: (T, T) -> int, s: seq<T>) {
    forall i, j :: 0 <= i < j < |s| ==> Le(cmp, s[i], s[j])
  }

  /** The head of a sorted sequence orders before every one of its elements. */
  lemma SortedHeadIsLeast<T>(cmp: (T, T) -> int, s: seq<T>, x: T)
    requires TotalPreorder(cmp, Elements(s)) && SortedBy(cmp, s)
    requires x in s
    ensures Le(cmp, s[0], x)
  {
  }

  /**
    Under a total order a sequence has exactly one sorted permutation, so any sort that
    meets "sorted and a permutation" computes the same result, and sorting a sorted
    sequence leaves it as it is.
  */
  lemma {:induction false} SortedPermutationUnique<T>(cmp: (T, T) -> int, a: seq<T>, b: seq<T>)
    requires TotalOrder(cmp, Elements(a))
    requires SortedBy(cmp, a) && SortedBy(cmp, b)
    requires multiset(a) == multiset(b)
    ensures a == b
  {
    if a == [] {
      assert |b| == |multiset(b)| == 0;
    } else {
      HeadsAgree(cmp, a, b);
      SortedPermutationUnique(cmp, a[1..], b[1..]);
      assert a == [a[0]] + a[1..];
      assert b == [b[0]] + b[1..];
    }
  }

  /** Two sorted permutations start with the same element, and what follows is again two. */
  lemma HeadsAgree<T>(cmp: (T, T) -> int, a: seq<T>, b: seq<T>)
    requires a != []
    requires TotalOrder(cmp, Elements(a))
    requires SortedBy(cmp, a) && SortedBy(cmp, b)
    requires multiset(a) == multiset(b)
    ensures b != [] && a[0] == b[0]
    ensures TotalOrder(cmp, Elements(a[1..]))
    ensures SortedBy(cmp, a[1..]) && SortedBy(cmp, b[1..])
    ensures multiset(a[1..]) == multiset(b[1..])
  {
    SameElements(a, b);
    assert a[0] in Elements(b);
    SortedHeadIsLeast(cmp, a, b[0]);
    SortedHeadIsLeast(cmp, b, a[0]);
    TailMultiset(a);
    TailMultiset(b);
    SortedTail(cmp, a);
    SortedTail(cmp, b);
    assert Elements(a[1..]) <= Elements(a);
  }

  lemma SameElements<T>(a: seq<T>, b: seq<T>)
    requires multiset(a) == multiset(b)
    ensures Elements(a) == Elements(b)
  {
    forall x ensures x in a <==> x in b {
      assert x in a <==> x in multiset(a);
      assert x in b <==> x in multiset(b);
    }
  }

  lemma TailMultiset<T>(a: seq<T>)
    requires a != []
    ensures multiset(a[1..]) == multiset(a) - multiset{a[0]}
  {
    assert a == [a[0]] + a[1..];
  }

  lemma SortedTail<T>(cmp: (T, T) -> int, a: seq<T>)
    requires a != [] && SortedBy(cmp, a)
    ensures SortedBy(cmp, a[1..])
  {
    forall i, j | 0 <= i < j < |a| - 1 ensures Le(cmp, a[1..][i], a[1..][j]) {
      assert Le(cmp, a[i + 1], a[j + 1]);
    }
  }

  /** `compare_ints` of the demonstration program: the sign of the difference, as -1, 0 or 1. */
  function CompareInts(a: int, b: int): (r: int)
    ensures r < 0 <==> a < b
    ensures r == 0 <==> a == b
    ensures r > 0 <==> a > b
    ensures -1 <= r <= 1
  {
    (if a > b then 1 else 0) - (if a < b then 1 else 0)
  }

  lemma CompareIntsIsTotalOrder(xs: set<int>)
    ensures TotalOrder(CompareInts, xs)
  {
    assert forall x: int, y: int :: Le(CompareInts, x, y) <==> x <= y;
  }
}
