# zvec: a verified model of a generic growable vector

zvec.h is a header-only C library. `DEFINE_VEC_TYPE(T)` expands, for each element type,
into a struct `vec_T { T *data; size_t length; size_t capacity; }` and a family of
functions on it:
- construction, with or without reserved capacity;
- `reserve`, and `push` with its growth rule (8 from empty, otherwise doubling);
- `pop` and `is_empty`;
- the bounds-checked `at` and `last`;
- the order-preserving `remove` and the O(1) `swap_remove`;
- `shrink_to_fit`, `clear` and `free`;
- an in-place `sort` with a caller-supplied three-way comparator.

The `vec_foreach` macro visits each live element in index order.

The model has two layers:

- `VecSpec` (vec_spec.dfy) is the value model: a vector is its live elements
  `data[0..length)` as a sequence, plus its capacity.
  - Every operation is a function on that value. Its contract states the source's promise:
    - the no-op cases;
    - the error path, where `VEC_ERR` leaves the vector unchanged;
    - the new contents, index by index and as a multiset;
    - the capacity.
  - Lemmas relate several operations:
    - N pushes append in order;
    - N pushes followed by N pops keep the grown capacity;
    - after N pushes from empty with g reallocations the capacity is `8 * 2^(g-1)`, and
      `2^g <= N + 1`;
    - pop undoes push;
    - a swap-remove of the last element is a pop;
    - free is idempotent;
    - sorting a sorted vector under a total order returns it unchanged;
    - a recording `foreach` visits exactly the live elements, in order.
- `ZVec` (zvec.dfy) is the imperative model.
  - `Vec<T>` is a class whose fields are `data: array<T>`, `length` and `capacity`, with
    one method per C function.
  - Every state-changing method except `Sort` is proved to take `State()` to the `VecSpec`
    function of `old(State())`. `Sort` is proved to reach a state that `VecSpec.IsSortOf`
    relates to the old one.
  - Where the C code leaves `v->data` alone, the method keeps the same buffer: a no-op or
    failed `reserve`, a `push` into a free slot or with failed growth, and a `shrink_to_fit`
    of a full vector or with a failed `realloc`.
  - The `memmove` of `remove` is a shifting loop, `ShiftLeft`.
  - `realloc` is a copying loop into a fresh buffer, `Realloc`.
  - `sort` permutes the buffer in place. It uses an insertion sort by adjacent swaps,
    proved sorted and a permutation.
  - `vec_foreach` is an index loop. There are two forms: `ForEach` folds over the
    elements it reads, and `ForEachUpdate` writes through the iterator.

The other files:
- `Ordering` (ordering.dfy) defines comparators, sortedness and the uniqueness of a sorted
  permutation under a total order. It also has `compare_ints` from the demonstration
  program.
- `Scenarios` (scenarios.dfy) states the integer part of `main` in examples/example_2.c as a
  client of the class: pushing 42, 7, 19, 1 lists them in that order, and after the sort they list
  as 1, 7, 19, 42. It also covers the empty-vector cases of `at`, `last` and a double
  `free`.

Modelling choices:
- A successful `calloc`/`realloc` is the argument `allocOk: bool`. The caller chooses it,
  so both outcomes are covered for every operation that allocates.
- `size_t` is modelled as the unbounded `nat`.
- `VEC_OK`/`VEC_ERR` are the datatype `VecSpec.Status`.
- A returned pointer or `NULL` becomes `Options.Option`.
- One generic class `Vec<T>` replaces the per-type expansion and the `_Generic` dispatch.

## Model

| member | source | states |
|---|---|---|
| `VecSpec.InitCapacity` | zvec.h:19-26 | no elements; capacity `cap` when the allocation succeeds, 0 when it fails or `cap` is 0 |
| `ZVec.Vec.InitCapacity` | zvec.h:19-26 | the new buffer-backed vector is valid, owns a fresh buffer, and is in the state `VecSpec.InitCapacity` gives |
| `ZVec.Vec.constructor` | zvec.h:127 | `vec_init(T)` yields the empty state: no elements, capacity 0 |
| `VecSpec.Reserve` | zvec.h:28-35 | the elements never change; `newCap <= capacity` is a no-op returning Ok; otherwise Ok exactly when the allocation succeeds, in which case capacity becomes `newCap`; Err leaves the vector unchanged |
| `ZVec.Vec.Realloc` | zvec.h:30 | a successful `realloc`: a fresh buffer of the new size holding every live element |
| `ZVec.Vec.Reserve` | zvec.h:28-35 | the status and new state are those of `VecSpec.Reserve` on the old state; the buffer is the old one or a fresh one, and the old one on the no-op and failure paths |
| `ZVec.Vec.IsEmpty` | zvec.h:37-39 | true exactly when there are no live elements |
| `VecSpec.GrowTarget` | zvec.h:43 | the growth target exceeds the current capacity (8 from 0, otherwise double) |
| `VecSpec.Push` | zvec.h:41-48 | Ok exactly when there is a free slot or the growth succeeds; on Ok the elements are the old ones followed by `value`, and capacity is kept if there was room and grows to 8 or double otherwise; on Err nothing changes; `length <= capacity` holds afterwards |
| `ZVec.Vec.Push` | zvec.h:41-48 | the status and new state are those of `VecSpec.Push` on the old state; the buffer is kept when there was a free slot or the growth failed |
| `VecSpec.Pop` | zvec.h:50-52 | capacity is kept; empty is a no-op; otherwise the new elements followed by the old last element are the old elements |
| `ZVec.Vec.Pop` | zvec.h:50-52 | new state is `VecSpec.Pop` of the old; the buffer is untouched |
| `VecSpec.ShrinkToFit` | zvec.h:54-65 | elements are kept; an empty vector becomes the empty state; a non-empty one gets capacity equal to its length when the reallocation succeeds and keeps its capacity when it fails (or was already full) |
| `ZVec.Vec.ShrinkToFit` | zvec.h:54-65 | new state is `VecSpec.ShrinkToFit` of the old; a non-empty vector keeps its buffer when it was full or the `realloc` failed |
| `ZVec.Vec.At` | zvec.h:67-69 | present exactly when `index < length`, and then the element at `index` |
| `ZVec.Vec.Last` | zvec.h:71-73 | present exactly when the vector is non-empty, and then its final element |
| `VecSpec.Remove` | zvec.h:75-80 | `i >= length` is a no-op; otherwise length drops by one, elements before `i` stay, those after move one slot left, and the removed element is the only one lost; capacity is kept |
| `ZVec.ShiftLeft` | zvec.h:77-78 | after the loop the first `n - 1` slots hold the old slots before `index` followed by those after it |
| `ZVec.Vec.Remove` | zvec.h:75-80 | new state is `VecSpec.Remove` of the old, in the same buffer |
| `VecSpec.SwapRemove` | zvec.h:82-85 | `i >= length` is a no-op; otherwise length drops by one, slot `i` holds the former last element, every other live slot is unchanged, and only the removed element is lost |
| `VecSpec.SwapRemoveMultiset` | zvec.h:84 | overwriting slot `i` with the last element and dropping the last slot loses exactly the element at `i` |
| `ZVec.Vec.SwapRemove` | zvec.h:82-85 | new state is `VecSpec.SwapRemove` of the old, in the same buffer |
| `VecSpec.SwapRemoveLastIsPop` | zvec.h:82-85 | swap-removing the last element is exactly a pop |
| `VecSpec.Clear` | zvec.h:87-89 | no live elements; capacity kept |
| `ZVec.Vec.Clear` | zvec.h:87-89 | new state is `VecSpec.Clear` of the old, in the same buffer |
| `VecSpec.Free` | zvec.h:91-94 | whatever the vector held, no elements and capacity 0 |
| `ZVec.Vec.Free` | zvec.h:91-94 | new state is `VecSpec.Free` of the old |
| `VecSpec.FreeIdempotent` | zvec.h:91-94 | freeing twice equals freeing once and gives the empty state |
| `VecSpec.ShrinkEmptyIsFree` | zvec.h:54-59 | shrinking an empty vector equals freeing it, whether or not allocation would succeed |
| `ZVec.Vec.Sort` | zvec.h:95-99 | with more than one element the live elements become a permutation of the old ones sorted under `cmp`, capacity and length kept; otherwise no change (`VecSpec.IsSortOf`) |
| `ZVec.SortPrefix` | zvec.h:97 | the in-place sort of `a[0..n)`: sorted under `cmp` and a permutation of the old prefix |
| `ZVec.Insert` | zvec.h:97 | one insertion pass: if `a[..i]` was sorted, `a[..i + 1]` is sorted, with the same multiset of elements |
| `ZVec.SwapDown` | zvec.h:97 | one adjacent swap moves the element being inserted one place left, keeps the elements, and keeps the pass's invariant |
| `ZVec.SwapStep` | zvec.h:97 | the same step on sequences: the out-of-place position moves left, and the multiset and the sortedness of the rest are kept |
| `ZVec.InsertedIsSorted` | zvec.h:97 | an insertion pass that has stopped leaves the prefix sorted |
| `Ordering.SortedPermutationUnique` | zvec.h:95-99 | under a total order two sorted permutations of the same elements are equal, so every correct sort computes one result |
| `Ordering.HeadsAgree` | zvec.h:95-99 | two sorted permutations start with the same element, and their tails are again sorted permutations |
| `VecSpec.SortIdempotent` | zvec.h:95-99 | under a total order, sorting an already sorted vector leaves it unchanged |
| `VecSpec.Update` | zvec.h:133-136 | a write through the iterator at each live element: same length and capacity, slot `k` becomes `update` of the old slot `k` |
| `ZVec.Vec.ForEach` | zvec.h:133-136 | the loop visits the live elements at indices 0, 1, …, length - 1 in that order: the result is the left fold of `visit` over them |
| `ZVec.Vec.ForEachUpdate` | zvec.h:133-136 | new state is `VecSpec.Update` of the old, in the same buffer |
| `VecSpec.FoldVisitsInOrder` | zvec.h:133-136 | a visitor that records each element it is shown records the live elements, in index order |
| `VecSpec.PushAllAppends` | zvec.h:41-48 | a run of successful pushes appends the pushed values in order, never shrinks the capacity, and keeps `length <= capacity` |
| `VecSpec.PopNTruncates` | zvec.h:50-52 | `n` pops remove the last `min(n, length)` elements and keep the capacity |
| `VecSpec.PushesThenPops` | zvec.h:41-52 | N pushes from empty then N pops leave no elements and keep the grown capacity, which is at least 8 |
| `VecSpec.PushAllCapacity` | zvec.h:41-48 | after N pushes from empty with g reallocations the capacity is `8 * 2^(g-1)` and `2^g <= N + 1`, so there are at most log2(N + 1) reallocations |
| `VecSpec.PopUndoesPush` | zvec.h:41-52 | a pop after a successful push restores the elements, keeping the possibly grown capacity |
| `Ordering.SortedHeadIsLeast` | zvec.h:95-99 | under a total preorder the head of a sorted sequence orders before each of its elements |
| `Ordering.CompareInts` | examples/example_2.c:5-10 | negative, zero or positive exactly when `a < b`, `a == b` or `a > b`, always within -1..1 |
| `Ordering.CompareIntsIsTotalOrder` | examples/example_2.c:5-10 | `compare_ints` is a total order on any set of integers, so `qsort` may use it |
| `Scenarios.PushDemoInts` | examples/example_2.c:23-27 | after `vec_init(int)` and pushes of 42, 7, 19, 1, the vector is in the state those four pushes give |
| `Scenarios.IntSortResult` | examples/example_2.c:34 | any sort of that vector under `compare_ints` holds 1, 7, 19, 42 |
| `Scenarios.OnlyAscendingOrder` | examples/example_2.c:34 | 1, 7, 19, 42 is the only arrangement of 42, 7, 19, 1 sorted under `compare_ints` |
| `Scenarios.IntScenario` | examples/example_2.c:23-38 | the first `vec_foreach` lists 42, 7, 19, 1, and after `vec_sort` the second lists 1, 7, 19, 42 |
| `Scenarios.EmptyScenario` | zvec.h:67-73 | on a new vector `at(0)` and `last` are absent, and after freeing it twice it is still empty |

## Left out

- Memory: pointer identity, `calloc`'s zero-fill, where `realloc` moves the buffer, and
  `sizeof` byte counts are not modelled. A reallocation is a fresh array that holds the live
  elements. Stale values in slots `[length, capacity)` are not modelled either: the
  abstraction hides them, and the API cannot reach them.
- A `calloc`/`realloc` failure is only the boolean outcome `allocOk`. Out-of-memory is not
  modelled as a condition of the machine.
- `size_t` is `nat`. A wrap-around of `capacity * 2` or `new_cap * sizeof(T)` is not modelled.
- `ZVec.Vec.At` and `ZVec.Vec.Last` return the element value and do not return a pointer
  into the buffer, so a write through the returned pointer is not modelled.
- `vec_foreach`'s body is abstracted as a pure `visit` (reading) or `update` (writing the
  current element) function. A body that pushes, removes or frees during the loop is not modelled.
- `ZVec.Vec.Sort`: this contract is what `qsort` promises, not `qsort` itself. It is
  implemented by an insertion sort, so the particular order `qsort` gives elements the
  comparator calls equivalent is not modelled. Like `qsort`, the contract promises no such
  order. The comparator must be a total preorder on the elements being sorted: any
  two compare, swapping the arguments flips the sign (so an element compares equal to
  itself), and the order is transitive. Those are the conditions under which `qsort` has a
  defined result. Other comparators are excluded.
- The amortised cost of `push` is stated only as a count of reallocations
  (`VecSpec.PushAllCapacity`). Running time is not modelled.
- The `_Generic` dispatch macros, the `*_ENTRY` tables and `REGISTER_TYPES` (zvec.h:101-125,
  examples/my_vectors.h) select a function by type at compile time. Dafny's generic `Vec<T>`
  takes their place. The `default:` fallbacks are compile-time only.
- The `Point` vector of examples/example_2.c and `compare_points_x` are not modelled. They
  compare `float` fields, and floating point is outside this model. The `printf` output of
  the demonstration program is not modelled either; what it prints is the sequence
  `ForEach` returns.
