/**
  The value model of one `vec_T` from zvec.h: the live elements `data[0..length)` as a
  sequence together with `capacity`. Every operation of the `DEFINE_VEC_TYPE` family is a
  function on this value; the array-backed class in module `ZVec` is proved to follow them.
  Allocation by `calloc`/`realloc` is a boolean `allocOk`: true when it succeeds.
*/
module VecSpec {
  import opened Ordering

  /** `VEC_OK` (0) and `VEC_ERR` (-1). */
  datatype Status = Ok | Err

  datatype VecValue<T> = VecValue(items: seq<T>, capacity: nat)

  /** What an operation that reports a status leaves behind. */
  datatype Step<T> = Step(vec: VecValue<T>, status: Status)

  /** The struct invariant `length <= capacity`. */
  predicate Wf<T>(v: VecValue<T>) {
    |v.items| <= v.capacity
  }

  /** `(vec_T){0}`: no data, length 0, capacity 0. */
  function Empty<T>(): VecValue<T> {
    VecValue([], 0)
  }

  /** `vec_init_capacity_T`. */
  function InitCapacity<T>(cap: nat, allocOk: bool): (r: VecValue<T>)
    ensures Wf(r) && r.items == []
    ensures r.capacity == (if allocOk then cap else 0)
  {
    if cap > 0 && allocOk then VecValue([], cap) else Empty()
  }

  /** `vec_reserve_T`. */
  function Reserve<T>(v: VecValue<T>, newCap: nat, allocOk: bool): (r: Step<T>)
    requires Wf(v)
    ensures Wf(r.vec) && r.vec.items == v.items
    ensures newCap <= v.capacity ==> r == Step(v, Ok)
    ensures newCap > v.capacity ==> (r.status == Ok <==> allocOk)
    ensures r.status == Ok ==> r.vec.capacity >= newCap && r.vec.capacity >= v.capacity
    ensures r.status == Ok && newCap > v.capacity ==> r.vec.capacity == newCap
    ensures r.status == Err ==> r.vec == v
  {
    if newCap <= v.capacity then Step(v, Ok)
    else if !allocOk then Step(v, Err)
    else Step(VecValue(v.items, newCap), Ok)
  }

  /** Where `vec_push_T` grows a full vector to: 8 from empty, else twice the capacity. */
  function GrowTarget(cap: nat): (r: nat)
    ensures r > cap
  {
    if cap == 0 then 8 else cap * 2
  }

  /** `vec_push_T`. */
  function Push<T>(v: VecValue<T>, x: T, allocOk: bool): (r: Step<T>)
    requires Wf(v)
    ensures Wf(r.vec)
    ensures r.status == Ok <==> |v.items| < v.capacity || allocOk
    ensures r.status == Ok ==> r.vec.items == v.items + [x]
    ensures r.status == Ok && |v.items| < v.capacity ==> r.vec.capacity == v.capacity
    ensures r.status == Ok && |v.items| == v.capacity ==> r.vec.capacity == GrowTarget(v.capacity)
    ensures r.status == Err ==> r.vec == v
  {
    if |v.items| >= v.capacity then
      var grown := Reserve(v, GrowTarget(v.capacity), allocOk);
      if grown.status != Ok then Step(v, Err)
      else Step(VecValue(grown.vec.items + [x], grown.vec.capacity), Ok)
    else
      Step(VecValue(v.items + [x], v.capacity), Ok)
  }

  /** `vec_pop_T`. */
  function Pop<T>(v: VecValue<T>): (r: VecValue<T>)
    requires Wf(v)
    ensures Wf(r) && r.capacity == v.capacity
    ensures v.items == [] ==> r == v
    ensures v.items != [] ==> r.items + [v.items[|v.items| - 1]] == v.items
  {
    if |v.items| > 0 then VecValue(v.items[..|v.items| - 1], v.capacity) else v
  }

  /** `vec_shrink_to_fit_T`. */
  function ShrinkToFit<T>(v: VecValue<T>, allocOk: bool): (r: VecValue<T>)
    requires Wf(v)
    ensures Wf(r) && r.items == v.items
    ensures v.items == [] ==> r == Empty()
    ensures v.items != [] ==> r.capacity == (if allocOk then |v.items| else v.capacity)
  {
    if |v.items| == 0 then Empty()
    else if |v.items| == v.capacity then v
    else if !allocOk then v
    else VecValue(v.items, |v.items|)
  }

  /** `vec_remove_T`: order-preserving removal of the element at `i`. */
  function Remove<T>(v: VecValue<T>, i: nat): (r: VecValue<T>)
    requires Wf(v)
    ensures Wf(r) && r.capacity == v.capacity
    ensures i >= |v.items| ==> r == v
    ensures i < |v.items| ==> |r.items| == |v.items| - 1
    ensures i < |v.items| ==> forall k :: 0 <= k < i ==> r.items[k] == v.items[k]
    ensures i < |v.items| ==> forall k :: i <= k < |r.items| ==> r.items[k] == v.items[k + 1]
    ensures i < |v.items| ==> multiset(r.items) + multiset{v.items[i]} == multiset(v.items)
  {
    if i >= |v.items| then v
    else
      assert v.items == v.items[..i] + [v.items[i]] + v.items[i + 1..];
      VecValue(v.items[..i] + v.items[i + 1..], v.capacity)
  }

  /** `vec_swap_remove_T`: the last element takes the place of the one at `i`. */
  function SwapRemove<T>(v: VecValue<T>, i: nat): (r: VecValue<T>)
    requires Wf(v)
    ensures Wf(r) && r.capacity == v.capacity
    ensures i >= |v.items| ==> r == v
    ensures i < |v.items| ==> |r.items| == |v.items| - 1
    ensures i < |r.items| ==> r.items[i] == v.items[|v.items| - 1]
    ensures i < |v.items| ==> forall k :: 0 <= k < |r.items| && k != i ==> r.items[k] == v.items[k]
    ensures i < |v.items| ==> multiset(r.items) + multiset{v.items[i]} == multiset(v.items)
  {
    if i >= |v.items| then v
    else
      var n := |v.items| - 1;
      var moved := v.items[i := v.items[n]];
      SwapRemoveMultiset(v.items, i);
      VecValue(moved[..n], v.capacity)
  }

  /** Overwriting slot `i` with the last element and dropping the last slot loses `s[i]`. */
  lemma SwapRemoveMultiset<T>(s: seq<T>, i: nat)
    requires i < |s|
    ensures multiset(s[i := s[|s| - 1]][..|s| - 1]) + multiset{s[i]} == multiset(s)
  {
    var n := |s| - 1;
    if i == n {
      assert s[i := s[n]] == s;
      assert s == s[..n] + [s[n]];
    } else {
      assert s[i := s[n]][..n] == s[..i] + [s[n]] + s[i + 1..n];
      assert s == s[..i] + [s[i]] + s[i + 1..n] + [s[n]];
    }
  }

  /** `vec_clear_T`: no live elements, allocation kept. */
  function Clear<T>(v: VecValue<T>): (r: VecValue<T>)
    requires Wf(v)
    ensures Wf(r) && r.items == [] && r.capacity == v.capacity
  {
    VecValue([], v.capacity)
  }

  /** `vec_free_T`: back to the empty state whatever the vector held. */
  function Free<T>(v: VecValue<T>): (r: VecValue<T>)
    ensures r.items == [] && r.capacity == 0
  {
    Empty()
  }

  /**
    `vec_sort_T`: with more than one element the live elements are rearranged into an
    order sorted under `cmp`; otherwise nothing happens. No particular order is chosen
    among elements the comparator calls equivalent.
  */
  ghost predicate IsSortOf<T>(v: VecValue<T>, r: VecValue<T>, cmp: (T, T) -> int) {
    if |v.items| <= 1 then r == v
    else
      && r.capacity == v.capacity
      && multiset(r.items) == multiset(v.items)
      && SortedBy(cmp, r.items)
  }

  /** What `vec_foreach` visits, in order: a left fold over the live elements. */
  function Fold<A, T>(visit: (A, T) -> A, init: A, s: seq<T>): A {
    if s == [] then init else visit(Fold(visit, init, s[..|s| - 1]), s[|s| - 1])
  }

  /** `vec_foreach` whose body writes `update(*iter)` through the iterator. */
  function Update<T>(v: VecValue<T>, update: T -> T): (r: VecValue<T>)
    requires Wf(v)
    ensures Wf(r) && r.capacity == v.capacity && |r.items| == |v.items|
    ensures forall k :: 0 <= k < |v.items| ==> r.items[k] == update(v.items[k])
  {
    VecValue(seq(|v.items|, k requires 0 <= k < |v.items| => update(v.items[k])), v.capacity)
  }

  // ---------------------------------------------------------------------------
  // Properties of several operations together.

  /** `n` pushes of the elements of `xs`, every allocation succeeding. */
  function PushAll<T>(v: VecValue<T>, xs: seq<T>): (r: VecValue<T>)
    requires Wf(v)
    ensures Wf(r)
    decreases |xs|
  {
    if xs == [] then v
    else Push(PushAll(v, xs[..|xs| - 1]), xs[|xs| - 1], true).vec
  }

  /** How many of those pushes grew the allocation. */
  function Reallocations<T>(v: VecValue<T>, xs: seq<T>): nat
    requires Wf(v)
    decreases |xs|
  {
    if xs == [] then 0
    else
      var before := PushAll(v, xs[..|xs| - 1]);
      Reallocations(v, xs[..|xs| - 1]) + (if |before.items| >= before.capacity then 1 else 0)
  }

  /** `n` pops. */
  function PopN<T>(v: VecValue<T>, n: nat): (r: VecValue<T>)
    requires Wf(v)
    ensures Wf(r)
    decreases n
  {
    if n == 0 then v else PopN(Pop(v), n - 1)
  }

  function Pow2(n: nat): nat {
    if n == 0 then 1 else 2 * Pow2(n - 1)
  }

  /**
    Pushing `xs` appends them in order: afterwards the vector holds the old elements followed
    by `xs`, so "at(i)" of a vector built from empty returns the i-th pushed value, and the
    capacity never shrinks and covers the length.
  */
  lemma {:induction false} PushAllAppends<T>(v: VecValue<T>, xs: seq<T>)
    requires Wf(v)
    ensures PushAll(v, xs).items == v.items + xs
    ensures PushAll(v, xs).capacity >= v.capacity
    ensures |PushAll(v, xs).items| <= PushAll(v, xs).capacity
    decreases |xs|
  {
    if xs != [] {
      var init := xs[..|xs| - 1];
      PushAllAppends(v, init);
      assert xs == init + [xs[|xs| - 1]];
    }
  }

  /** Popping `n` times removes the last `min(n, length)` elements and keeps the capacity. */
  lemma {:induction false} PopNTruncates<T>(v: VecValue<T>, n: nat)
    requires Wf(v)
    ensures PopN(v, n).capacity == v.capacity
    ensures n <= |v.items| ==> PopN(v, n).items == v.items[..|v.items| - n]
    ensures n >= |v.items| ==> PopN(v, n).items == []
    decreases n
  {
    if n > 0 {
      PopNTruncates(Pop(v), n - 1);
      if v.items != [] {
        assert Pop(v).items == v.items[..|v.items| - 1];
      }
    }
  }

  /** N pushes from empty followed by N pops: no elements, the grown capacity kept. */
  lemma PushesThenPops<T>(xs: seq<T>)
    ensures PopN(PushAll(Empty(), xs), |xs|) == VecValue([], PushAll(Empty(), xs).capacity)
    ensures xs != [] ==> PushAll(Empty(), xs).capacity >= 8
  {
    PushAllAppends(Empty(), xs);
    var full := PushAll(Empty(), xs);
    PopNTruncates(full, |xs|);
    if xs != [] {
      PushAllCapacity(xs);
    }
  }

  /**
    The growth rule from empty: the capacity after N pushes is `8 * 2^(g-1)` where g is the
    number of reallocations, it covers N, and before the last reallocation the capacity had
    been filled. Hence `2^g <= N + 1`: g is at most log2(N + 1), the amortised bound.
  */
  lemma {:induction false} PushAllCapacity<T>(xs: seq<T>)
    ensures var v, g := PushAll(Empty(), xs), Reallocations(Empty(), xs);
      && (xs == [] ==> g == 0 && v.capacity == 0)
      && (xs != [] ==> g >= 1 && v.capacity == 8 * Pow2(g - 1))
      && (g >= 2 ==> 4 * Pow2(g - 1) < |xs|)
      && Pow2(g) <= |xs| + 1
    decreases |xs|
  {
    PushAllAppends(Empty(), xs);
    if xs != [] {
      var init := xs[..|xs| - 1];
      PushAllCapacity(init);
      PushAllAppends(Empty(), init);
      var before := PushAll(Empty(), init);
      var g0 := Reallocations(Empty(), init);
      var g := Reallocations(Empty(), xs);
      assert |before.items| == |init|;
      if |init| >= before.capacity {
        assert g == g0 + 1;
        if init != [] {
          assert Pow2(g - 1) == 2 * Pow2(g0 - 1);
          assert Pow2(g) == 2 * Pow2(g - 1);
        }
      }
    }
  }

  /** A swap-remove of the last element is a pop. */
  lemma SwapRemoveLastIsPop<T>(v: VecValue<T>)
    requires Wf(v) && v.items != []
    ensures SwapRemove(v, |v.items| - 1) == Pop(v)
  {
  }

  /** Pop undoes a successful push, leaving the (possibly grown) capacity. */
  lemma PopUndoesPush<T>(v: VecValue<T>, x: T, allocOk: bool)
    requires Wf(v)
    requires Push(v, x, allocOk).status == Ok
    ensures Pop(Push(v, x, allocOk).vec) == VecValue(v.items, Push(v, x, allocOk).vec.capacity)
  {
    var pushed := Push(v, x, allocOk).vec;
    assert pushed.items[..|pushed.items| - 1] == v.items;
  }

  /** Releasing is idempotent and always ends in the empty state. */
  lemma FreeIdempotent<T>(v: VecValue<T>)
    requires Wf(v)
    ensures Free(Free(v)) == Free(v) == Empty()
  {
  }

  /** Shrinking an empty vector is the same as releasing it, whatever the allocator does. */
  lemma ShrinkEmptyIsFree<T>(v: VecValue<T>)
    requires Wf(v) && v.items == []
    ensures ShrinkToFit(v, false) == ShrinkToFit(v, true) == Free(v)
  {
  }

  /**
    Sorting is idempotent under a total order: a vector whose elements are already sorted
    is its own (and only) sort.
  */
  lemma SortIdempotent<T>(v: VecValue<T>, r: VecValue<T>, cmp: (T, T) -> int)
    requires TotalOrder(cmp, Elements(v.items))
    requires SortedBy(cmp, v.items)
    requires IsSortOf(v, r, cmp)
    ensures r == v
  {
    if |v.items| > 1 {
      SortedPermutationUnique(cmp, v.items, r.items);
    }
  }

  /** A visitor that records each element it is shown. */
  function Append<T>(acc: seq<T>, x: T): seq<T> {
    acc + [x]
  }

  /** A fold that records each visited element rebuilds the live elements in index order. */
  lemma {:induction false} FoldVisitsInOrder<T>(s: seq<T>)
    ensures Fold(Append, [], s) == s
  {
    if s != [] {
      var init := s[..|s| - 1];
      FoldVisitsInOrder(init);
      assert Fold(Append, [], s) == Fold(Append, [], init) + [s[|s| - 1]];
      assert s == init + [s[|s| - 1]];
    }
  }
}
