/**
  The `vec_T` struct of zvec.h and the functions `DEFINE_VEC_TYPE(T)` generates for it, as
  a generic class over an array. `data` is the buffer of `capacity` slots and `length` the
  number of live elements; every method is proved to take the vector to the value that the
  matching function of `VecSpec` computes from the value it started from.
  A generic `Vec<T>` replaces the per-type expansion and the `_Generic` dispatch.
*/
module ZVec {
  import opened Options
  import opened Ordering
  import VecSpec

  class Vec<T(0)> {
    var data: array<T>
    var length: nat
    var capacity: nat

    /** `length <= capacity`, and the buffer has exactly `capacity` slots. */
    ghost predicate Valid()
      reads this
    {
      length <= capacity && data.Length == capacity
    }

    /** The live elements `data[0..length)`. */
    ghost function Contents(): seq<T>
      reads this, data
      requires Valid()
    {
      data[..length]
    }

    ghost function State(): (v: VecSpec.VecValue<T>)
      reads this, data
      requires Valid()
      ensures VecSpec.Wf(v)
    {
      VecSpec.VecValue(Contents(), capacity)
    }

    /** `vec_init(T)`: the empty state. */
    constructor ()
      ensures Valid() && fresh(data) && State() == VecSpec.Empty()
    {
      data := new T[0];
      length, capacity := 0, 0;
    }

    /** `vec_init_capacity_T(cap)`; `allocOk` says whether `calloc` succeeds. */
    constructor InitCapacity(cap: nat, allocOk: bool)
      ensures Valid() && fresh(data) && State() == VecSpec.InitCapacity(cap, allocOk)
    {
      length := 0;
      if cap > 0 && allocOk {
        data := new T[cap];
        capacity := cap;
      } else {
        data := new T[0];
        capacity := 0;
      }
    }

    /**
      A successful `realloc` to `newCap` slots: a fresh buffer holding the old slots that
      fit, in particular every live element.
    */
    method Realloc(newCap: nat) returns (newData: array<T>)
      requires Valid() && length <= newCap
      ensures fresh(newData) && newData.Length == newCap
      ensures newData[..length] == data[..length]
    {
      newData := new T[newCap];
      var kept := if newCap < capacity then newCap else capacity;
      var k := 0;
      while k < kept
        invariant 0 <= k <= kept
        invariant forall j :: 0 <= j < k ==> newData[j] == data[j]
      {
        newData[k] := data[k];
        k := k + 1;
      }
      assert newData[..length] == data[..length] by {
        assert length <= kept;
      }
    }

    /** `vec_reserve_T`. */
    method Reserve(newCap: nat, allocOk: bool) returns (st: VecSpec.Status)
      requires Valid()
      modifies this
      ensures Valid() && (data == old(data) || fresh(data))
      ensures newCap <= old(capacity) || !allocOk ==> data == old(data)
      ensures VecSpec.Step(State(), st) == VecSpec.Reserve(old(State()), newCap, allocOk)
    {
      if newCap <= capacity {
        return VecSpec.Ok;
      }
      if !allocOk {
        return VecSpec.Err;
      }
      var newData := Realloc(newCap);
      data := newData;
      capacity := newCap;
      return VecSpec.Ok;
    }

    /** `vec_is_empty_T`. */
    function IsEmpty(): (r: bool)
      reads this, data
      requires Valid()
      ensures r <==> Contents() == []
    {
      length == 0
    }

    /** `vec_push_T`; `allocOk` says whether the growing `realloc`, if any, succeeds. */
    method Push(value: T, allocOk: bool) returns (st: VecSpec.Status)
      requires Valid()
      modifies this, data
      ensures Valid() && (data == old(data) || fresh(data))
      ensures old(length) < old(capacity) || !allocOk ==> data == old(data)
      ensures VecSpec.Step(State(), st) == VecSpec.Push(old(State()), value, allocOk)
    {
      if length >= capacity {
        st := Reserve(VecSpec.GrowTarget(capacity), allocOk);
        if st != VecSpec.Ok {
          return VecSpec.Err;
        }
      }
      data[length] := value;
      length := length + 1;
      return VecSpec.Ok;
    }

    /** `vec_pop_T`. */
    method Pop()
      requires Valid()
      modifies this
      ensures Valid() && data == old(data)
      ensures State() == VecSpec.Pop(old(State()))
    {
      if length > 0 {
        length := length - 1;
      }
    }

    /** `vec_shrink_to_fit_T`; `allocOk` says whether the shrinking `realloc` succeeds. */
    method ShrinkToFit(allocOk: bool)
      requires Valid()
      modifies this
      ensures Valid() && (data == old(data) || fresh(data))
      ensures old(length) > 0 && (old(length) == old(capacity) || !allocOk) ==> data == old(data)
      ensures State() == VecSpec.ShrinkToFit(old(State()), allocOk)
    {
      if length == 0 {
        data := new T[0];
        length, capacity := 0, 0;
        return;
      }
      if length == capacity {
        return;
      }
      if !allocOk {
        return;
      }
      var newData := Realloc(length);
      data := newData;
      capacity := length;
    }

    /** `vec_at_T`: the element at `index`, or nothing (NULL) out of range. */
    function At(index: nat): (r: Option<T>)
      reads this, data
      requires Valid()
      ensures r.Some? <==> index < |Contents()|
      ensures r.Some? ==> r.value == Contents()[index]
    {
      if index < length then Some(data[index]) else None
    }

    /** `vec_last_T`: the final element, or nothing (NULL) when empty. */
    function Last(): (r: Option<T>)
      reads this, data
      requires Valid()
      ensures r.Some? <==> Contents() != []
      ensures r.Some? ==> r.value == Contents()[|Contents()| - 1]
    {
      if length > 0 then Some(data[length - 1]) else None
    }

    /** `vec_remove_T`: shift the elements after `index` one slot left (the `memmove`). */
    method Remove(index: nat)
      requires Valid()
      modifies this, data
      ensures Valid() && data == old(data)
      ensures State() == VecSpec.Remove(old(State()), index)
    {
      if index >= length {
        return;
      }
      ghost var s := data[..length];
      assert data[..index] == s[..index] && data[index + 1..length] == s[index + 1..];
      ShiftLeft(data, index, length);
      length := length - 1;
      assert Contents() == s[..index] + s[index + 1..];
    }

    /** `vec_swap_remove_T`: the last element overwrites the one at `index`. */
    method SwapRemove(index: nat)
      requires Valid()
      modifies this, data
      ensures Valid() && data == old(data)
      ensures State() == VecSpec.SwapRemove(old(State()), index)
    {
      if index >= length {
        return;
      }
      ghost var s := data[..length];
      length := length - 1;
      data[index] := data[length];
      assert data[..length] == s[index := s[length]][..length];
    }

    /** `vec_clear_T`. */
    method Clear()
      requires Valid()
      modifies this
      ensures Valid() && data == old(data)
      ensures State() == VecSpec.Clear(old(State()))
    {
      length := 0;
    }

    /** `vec_free_T`. */
    method Free()
      requires Valid()
      modifies this
      ensures Valid() && fresh(data)
      ensures State() == VecSpec.Free(old(State()))
    {
      data := new T[0];
      length, capacity := 0, 0;
    }

    /**
      `vec_sort_T`: with more than one live element, sort them in place under `cmp`, which
      must then be a consistent three-way comparator on those elements.
    */
    method Sort(cmp: (T, T) -> int)
      requires Valid()
      requires length > 1 ==> TotalPreorder(cmp, Elements(Contents()))
      modifies data
      ensures Valid() && data == old(data)
      ensures VecSpec.IsSortOf(old(State()), State(), cmp)
    {
      if length > 1 {
        SortPrefix(data, length, cmp);
      }
    }

    /** `vec_foreach` reading each live element in index order into `visit`. */
    method ForEach<A>(visit: (A, T) -> A, init: A) returns (acc: A)
      requires Valid()
      ensures acc == VecSpec.Fold(visit, init, Contents())
    {
      acc := init;
      var i := 0;
      while i < length
        invariant 0 <= i <= length
        invariant acc == VecSpec.Fold(visit, init, data[..i])
      {
        assert data[..i + 1][..i] == data[..i];
        acc := visit(acc, data[i]);
        i := i + 1;
      }
      assert data[..i] == Contents();
    }

    /** `vec_foreach` writing `update(*iter)` through the iterator at each live element. */
    method ForEachUpdate(update: T -> T)
      requires Valid()
      modifies data
      ensures Valid() && data == old(data)
      ensures State() == VecSpec.Update(old(State()), update)
    {
      ghost var s := data[..length];
      var i := 0;
      while i < length
        invariant 0 <= i <= length
        invariant forall j :: 0 <= j < i ==> data[j] == update(s[j])
        invariant forall j :: i <= j < length ==> data[j] == s[j]
      {
        data[i] := update(data[i]);
        i := i + 1;
      }
    }
  }

  /** The `memmove` of `vec_remove_T`: slots `index + 1 .. n` move one to the left. */
  method ShiftLeft<T>(a: array<T>, index: nat, n: nat)
    requires index < n <= a.Length
    modifies a
    ensures a[..n - 1] == old(a[..index]) + old(a[index + 1..n])
  {
    ghost var s := a[..n];
    var k := index;
    while k + 1 < n
      invariant index <= k < n
      invariant forall j :: 0 <= j < index ==> a[j] == s[j]
      invariant forall j :: index <= j < k ==> a[j] == s[j + 1]
      invariant forall j :: k <= j < n ==> a[j] == s[j]
    {
      a[k] := a[k + 1];
      k := k + 1;
    }
    assert a[..n - 1] == s[..index] + s[index + 1..] by {
      forall j | 0 <= j < n - 1 ensures a[j] == (s[..index] + s[index + 1..])[j] {}
    }
  }

  /**
    The in-place sort behind `vec_sort_T`: insertion sort of `a[0..n)` by adjacent swaps.
    `qsort`'s algorithm itself is not modelled, only what it guarantees.
  */
  method SortPrefix<T>(a: array<T>, n: nat, cmp: (T, T) -> int)
    requires n <= a.Length
    requires TotalPreorder(cmp, Elements(a[..n]))
    modifies a
    ensures SortedBy(cmp, a[..n])
    ensures multiset(a[..n]) == multiset(old(a[..n]))
  {
    ghost var orig := a[..n];
    var i := 0;
    while i < n
      invariant 0 <= i <= n
      invariant SortedBelow(cmp, a[..n], i)
      invariant multiset(a[..n]) == multiset(orig)
      invariant AllIn(a[..n], orig)
    {
      Insert(a, n, i, cmp, orig);
      i := i + 1;
    }
  }

  /** One pass of the insertion: move `a[i]` left until `a[..i + 1]` is sorted. */
  method Insert<T>(a: array<T>, n: nat, i: nat, cmp: (T, T) -> int, ghost orig: seq<T>)
    requires i < n <= a.Length
    requires TotalPreorder(cmp, Elements(orig)) && AllIn(a[..n], orig)
    requires SortedBelow(cmp, a[..n], i)
    modifies a
    ensures SortedBelow(cmp, a[..n], i + 1)
    ensures multiset(a[..n]) == multiset(old(a[..n]))
    ensures AllIn(a[..n], orig)
  {
    var j := i;
    while j > 0 && cmp(a[j - 1], a[j]) > 0
      invariant 0 <= j <= i
      invariant SortedExcept(cmp, a[..n], i + 1, j) && BeforeRest(cmp, a[..n], i + 1, j)
      invariant multiset(a[..n]) == multiset(old(a[..n]))
      invariant AllIn(a[..n], orig)
    {
      SwapDown(a, n, i, j, cmp, orig);
      j := j - 1;
    }
    InsertedIsSorted(cmp, a[..n], i + 1, j, orig);
  }

  /** One step of the insertion: swap `a[j]` with the left neighbour that orders after it. */
  method SwapDown<T>(a: array<T>, n: nat, i: nat, j: nat, cmp: (T, T) -> int, ghost orig: seq<T>)
    requires 0 < j <= i < n <= a.Length
    requires TotalPreorder(cmp, Elements(orig)) && AllIn(a[..n], orig)
    requires SortedExcept(cmp, a[..n], i + 1, j) && BeforeRest(cmp, a[..n], i + 1, j)
    requires cmp(a[j - 1], a[j]) > 0
    modifies a
    ensures SortedExcept(cmp, a[..n], i + 1, j - 1) && BeforeRest(cmp, a[..n], i + 1, j - 1)
    ensures multiset(a[..n]) == multiset(old(a[..n]))
    ensures AllIn(a[..n], orig)
  {
    ghost var s := a[..n];
    SwapStep(cmp, s, i + 1, j, orig);
    a[j - 1], a[j] := a[j], a[j - 1];
    assert a[..n] == s[j - 1 := s[j]][j := s[j - 1]];
  }

  /** Every element of `s` is one of `orig`. */
  ghost predicate AllIn<T>(s: seq<T>, orig: seq<T>) {
    forall k :: 0 <= k < |s| ==> s[k] in orig
  }

  /** `s[..hi]` is sorted. */
  ghost predicate SortedBelow<T>(cmp: (T, T) -> int, s: seq<T>, hi: nat) {
    forall k, m :: 0 <= k < m < hi && m < |s| ==> Le(cmp, s[k], s[m])
  }

  /** `s[..hi]` is sorted apart from whatever stands at position `j`. */
  ghost predicate SortedExcept<T>(cmp: (T, T) -> int, s: seq<T>, hi: nat, j: nat) {
    forall k, m :: 0 <= k < m < hi && m < |s| && k != j && m != j ==> Le(cmp, s[k], s[m])
  }

  /** The element at `j` orders before everything after it in `s[..hi]`. */
  ghost predicate BeforeRest<T>(cmp: (T, T) -> int, s: seq<T>, hi: nat, j: nat) {
    forall m :: j < m < hi && m < |s| ==> Le(cmp, s[j], s[m])
  }

  /**
    Swapping the element at `j` with a left neighbour that orders after it moves the
    unsorted position one to the left and keeps the elements.
  */
  lemma SwapStep<T>(cmp: (T, T) -> int, s: seq<T>, hi: nat, j: nat, orig: seq<T>)
    requires 0 < j < hi <= |s|
    requires TotalPreorder(cmp, Elements(orig)) && AllIn(s, orig)
    requires SortedExcept(cmp, s, hi, j) && BeforeRest(cmp, s, hi, j)
    requires !Le(cmp, s[j - 1], s[j])
    ensures var t := s[j - 1 := s[j]][j := s[j - 1]];
      && SortedExcept(cmp, t, hi, j - 1) && BeforeRest(cmp, t, hi, j - 1)
      && multiset(t) == multiset(s) && AllIn(t, orig)
  {
    var t := s[j - 1 := s[j]][j := s[j - 1]];
    assert s[j] in orig && s[j - 1] in orig;
    assert Le(cmp, s[j], s[j - 1]);
    forall k, m | 0 <= k < m < hi && k != j - 1 && m != j - 1
      ensures Le(cmp, t[k], t[m])
    {
      if k == j {
        assert Le(cmp, s[j - 1], s[m]);
      } else if m == j {
        assert Le(cmp, s[k], s[j - 1]);
      } else {
        assert Le(cmp, s[k], s[m]);
      }
    }
    forall m | j - 1 < m < hi
      ensures Le(cmp, t[j - 1], t[m])
    {
      if m > j {
        assert Le(cmp, s[j], s[m]);
      }
    }
  }

  /**
    The step that closes one pass of the insertion: `s[..hi]` was sorted apart from
    position `j`, and the element at `j` orders before everything after it and after its
    left neighbour.
  */
  lemma InsertedIsSorted<T>(cmp: (T, T) -> int, s: seq<T>, hi: nat, j: nat, orig: seq<T>)
    requires j < hi <= |s|
    requires TotalPreorder(cmp, Elements(orig)) && AllIn(s, orig)
    requires SortedExcept(cmp, s, hi, j) && BeforeRest(cmp, s, hi, j)
    requires j > 0 ==> Le(cmp, s[j - 1], s[j])
    ensures SortedBelow(cmp, s, hi)
  {
    forall k, m | 0 <= k < m < hi ensures Le(cmp, s[k], s[m]) {
      if m == j && k < j - 1 {
        assert Le(cmp, s[k], s[j - 1]);
      }
    }
  }
}
