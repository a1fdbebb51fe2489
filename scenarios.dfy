/**
  The integer part of `main` in examples/example_2.c and the empty-vector cases, written as
  clients of `ZVec.Vec` that can rely on its contracts alone. Every allocation is taken to
  succeed.
*/
module Scenarios {
  import opened Options
  import opened Ordering
  import VecSpec
  import opened ZVec

  /** The only ascending arrangement of 42, 7, 19, 1 under `compare_ints`. */
  lemma OnlyAscendingOrder(r: seq<int>)
    requires SortedBy(CompareInts, r) && multiset(r) == multiset([42, 7, 19, 1])
    ensures r == [1, 7, 19, 42]
  {
    var sorted := [1, 7, 19, 42];
    AscendingIsSorted(sorted);
    assert multiset(sorted) == multiset([42, 7, 19, 1]);
    SortedIntsUnique(sorted, r);
  }

  /** Sorting integers with `compare_ints` has exactly one outcome. */
  lemma SortedIntsUnique(a: seq<int>, b: seq<int>)
    requires SortedBy(CompareInts, a) && SortedBy(CompareInts, b)
    requires multiset(a) == multiset(b)
    ensures a == b
  {
    CompareIntsIsTotalOrder(Elements(a));
    SortedPermutationUnique(CompareInts, a, b);
  }

  /** Integers in ascending order are sorted under `compare_ints`. */
  lemma AscendingIsSorted(s: seq<int>)
    requires forall k :: 0 <= k < |s| - 1 ==> s[k] < s[k + 1]
    ensures SortedBy(CompareInts, s)
  {
    forall i, j | 0 <= i < j < |s| ensures Le(CompareInts, s[i], s[j]) {
      AscendingBetween(s, i, j);
    }
  }

  lemma {:induction false} AscendingBetween(s: seq<int>, i: nat, j: nat)
    requires forall k :: 0 <= k < |s| - 1 ==> s[k] < s[k + 1]
    requires i < j < |s|
    ensures s[i] < s[j]
    decreases j - i
  {
    if i + 1 < j {
      AscendingBetween(s, i + 1, j);
    }
  }

  /** Any sort of the vector built by pushing 42, 7, 19, 1 holds 1, 7, 19, 42. */
  lemma IntSortResult(r: VecSpec.VecValue<int>)
    requires VecSpec.IsSortOf(VecSpec.PushAll(VecSpec.Empty(), [42, 7, 19, 1]), r, CompareInts)
    ensures r.items == [1, 7, 19, 42]
  {
    VecSpec.PushAllAppends(VecSpec.Empty(), [42, 7, 19, 1]);
    OnlyAscendingOrder(r.items);
  }

  /** The four pushes of the demonstration program, from `vec_init(int)`. */
  method PushDemoInts() returns (nums: Vec<int>)
    ensures fresh(nums) && fresh(nums.data) && nums.Valid()
    ensures nums.State() == VecSpec.PushAll(VecSpec.Empty(), [42, 7, 19, 1])
  {
    nums := new Vec<int>();
    var st := nums.Push(42, true);
    assert nums.State() == VecSpec.PushAll(VecSpec.Empty(), [42]);
    st := nums.Push(7, true);
    assert [42, 7][..1] == [42];
    assert nums.State() == VecSpec.PushAll(VecSpec.Empty(), [42, 7]);
    st := nums.Push(19, true);
    assert [42, 7, 19][..2] == [42, 7];
    assert nums.State() == VecSpec.PushAll(VecSpec.Empty(), [42, 7, 19]);
    st := nums.Push(1, true);
    assert [42, 7, 19, 1][..3] == [42, 7, 19];
  }

  /** List the pushed integers, sort them with `compare_ints`, list them again, release. */
  method IntScenario() returns (before: seq<int>, after: seq<int>)
    ensures before == [42, 7, 19, 1]
    ensures after == [1, 7, 19, 42]
  {
    var nums := PushDemoInts();
    VecSpec.PushAllAppends(VecSpec.Empty(), [42, 7, 19, 1]);
    VecSpec.FoldVisitsInOrder(nums.Contents());
    before := nums.ForEach(VecSpec.Append, []);
    CompareIntsIsTotalOrder(Elements(nums.Contents()));
    nums.Sort(CompareInts);
    IntSortResult(nums.State());
    VecSpec.FoldVisitsInOrder(nums.Contents());
    after := nums.ForEach(VecSpec.Append, []);
    nums.Free();
  }

  /** `at` on an empty vector is absent, and releasing twice leaves it empty both times. */
  method EmptyScenario() returns (first: Option<int>, last: Option<int>, empty: bool)
    ensures first == None && last == None && empty
  {
    var v := new Vec<int>();
    first := v.At(0);
    last := v.Last();
    v.Free();
    v.Free();
    empty := v.IsEmpty();
  }
}
