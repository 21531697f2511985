# Binary min-heap of <element, priority> pairs

This project models the `Heap` class of `heap.h`. The class is a
fixed-capacity, array-backed binary min-heap of pairs of ints. Its state is:

- a `Pair` array `A`;
- the number of live entries `hSize`;
- the array length `hCapacity`.

The live prefix `A[0..hSize)` is an implicit binary tree. The parent of node
`i` is `(i-1)/2` and its children are `2i+1` and `2i+2`. Heap order says that
no child has a smaller priority than its parent.

The model has three Dafny modules.

- `HeapSpec` (`heap_spec.dfy`) is the pure part. It holds:
  - the `Pair` datatype;
  - the heap-order predicates, including heap order restricted to the
    subtree under a node;
  - the three repair algorithms written as functions on sequences: `SiftUp`
    for `trickleUp`, `SiftDown` for `trickleDown`, and `BuildFrom`/`Heapified`
    for the `heapify` loop;
  - the lemmas about them: frames, permutation of the live prefix, repair of
    heap order, and the minimum at the root.
- `MinHeap` (`heap.dfy`) is the class `Heap`. It has fields `A`, `hCapacity`
  and `hSize`, the four constructors, the accessors and the modifiers. Each
  modifier runs the algorithm of heap.h in place on the array, and its
  contract ties the new array contents to the matching `HeapSpec` function.
  - `Valid()` is the object invariant: `0 <= hSize <= hCapacity == A.Length`
    plus heap order on `A[0..hSize)`.
  - `Contents()` is the multiset of live pairs.
  - `CopyInto` models the two `std::copy` calls of the merge constructor.
- `Scenarios` (`scenarios.dfy`) holds client scenarios, proved from the
  contracts alone.
  - `Drain` extracts from any heap until it is empty: the pairs come out in
    non-decreasing priority and are exactly the pairs that were stored, and
    the returned elements are theirs, in that order.
  - Insert <a,5>, <b,3>, <c,8>, <d,1>, then peek and extract: the results are
    1, d, d, then 3.
  - Build the same pairs from parallel arrays and drain the heap: the
    elements come out as d, b, a, c.
  - The elements a, b, c, d are written as 10, 20, 30, 40.

Notes on how the model relates to the code:

- **The array constructor starts `hSize` at 0.** The code reads `hSize`
  before it ever writes it (heap.h:92-99), but inserting one by one from an
  empty heap is evidently what is meant. `MinHeap.Heap.FromArrays` therefore
  sets it to 0 first. `Priorities` and `Elements` are taken as sequences of
  at least `s` values.
- **The lone-child branch of `trickleDown`.** A node whose only child is the
  last live entry swaps with that child exactly when the parent's priority is
  strictly larger (heap.h:166-169). The model follows this test. It is the
  correct one: `SiftDownOrders` proves that sift-down repairs the subtree in
  every branch.
- **Unchecked calls.** The code checks neither the capacity on `insert` nor
  emptiness on `extractMin`, `peekMin` and `peekMinPriority`, and it never
  grows the array. The model turns these into preconditions:
  - `hSize < hCapacity` for `Insert`;
  - `0 < hSize` for `ExtractMin`, `PeekMin` and `PeekMinPriority`;
  - `0 <= c` and `0 <= s` for the sizes passed to the constructors.

  In heap.h, insert on a full heap writes past the array, and extract on an
  empty heap reads `A[-1]`: both are undefined behaviour. Peek on an empty
  heap reads `A[0]` unchecked and returns whatever pair that slot last held
  (after `insert(7, 1); extractMin();` it still holds <7,1>, so `peekMin()`
  returns 7); it is undefined only when slot 0 was never written or the
  capacity is 0. The model does not describe that leftover value. A negative
  array size is different: `new Pair[c]` with `c < 0`
  (heap.h:85-86), or with `s + c < 0` (heap.h:93), throws
  `std::bad_array_new_length` since C++11. That is a defined error, which the
  model does not represent; `0 <= c` and `0 <= s` rule it out.

## Model

| member | source | states |
|---|---|---|
| MinHeap.Heap.Valid | heap.h:59-61 | the object invariant: 0 <= hSize <= hCapacity == A.Length, and heap order on A[0..hSize) |
| MinHeap.Heap.Contents | heap.h:59-61 | the abstract value: the multiset of the live pairs A[0..hSize), of size hSize |
| MinHeap.Heap.constructor | heap.h:78-82 | a fresh empty heap: size 0, capacity 10, no entries, invariant holds |
| MinHeap.Heap.WithCapacity | heap.h:84-88 | a fresh empty heap of capacity c, invariant holds |
| MinHeap.Heap.FromArrays | heap.h:92-99 | capacity s + c, size s, and the entries are exactly the pairs <Elements[i], Priorities[i]> for i < s; heap order holds (loop of inserts with its invariant) |
| HeapSpec.Pairs | heap.h:24-28 | the i-th pair built from the parallel arrays is <Elements[i], Priorities[i]>, for exactly s pairs |
| MinHeap.Heap.Merge | heap.h:102-110 | size is the sum of the argument sizes, capacity is size + c, the entries are the multiset union of both heaps' entries, heap order holds |
| MinHeap.CopyInto | heap.h:107-108 | target receives source[0..count) at offset; the slots before and after are unchanged |
| MinHeap.Heap.Empty | heap.h:39 | true iff the heap holds no entry |
| MinHeap.Heap.Size | heap.h:40 | the number of stored entries |
| MinHeap.Heap.Capacity | heap.h:41 | the array length, which bounds the number of entries |
| MinHeap.Heap.PeekMin | heap.h:42 | the element of some stored entry whose priority is minimal |
| MinHeap.Heap.PeekMinPriority | heap.h:43 | a priority that some entry has and that is at most every stored priority |
| MinHeap.Heap.Insert | heap.h:119-124 | size grows by one, the entries gain exactly <element, priority>, heap order still holds, and the array is the sift-up of the old array with the pair written at slot hSize |
| HeapSpec.InsertOrders | heap.h:119-124 | writing a pair just past a heap of n entries and sifting it up gives a heap of n + 1 entries |
| HeapSpec.SiftUp | heap.h:128-135 | trickleUp on a sequence: same length; stops at the root or when the parent is no larger, else swaps with the parent and recurses there (its properties are SiftUpFrame, SiftUpPermutes and SiftUpOrders) |
| MinHeap.Heap.TrickleUp | heap.h:128-135 | the in-place recursion computes SiftUp of the old array from slot i |
| HeapSpec.SiftUpFrame | heap.h:128-135 | sift-up changes only slots on the path from i to the root |
| HeapSpec.SiftUpPermutes | heap.h:128-135 | sift-up permutes the live prefix that contains i |
| HeapSpec.SiftUpOrders | heap.h:128-135 | if the live prefix is a heap except at the new node j (and j's parent is no larger than j's children), sift-up makes it a heap |
| MinHeap.Heap.Swap | heap.h:137-141 | the array becomes the old one with slots i and j exchanged; with both slots live, the entries are unchanged |
| HeapSpec.Swapped | heap.h:137-141 | slots i and j exchanged, every other slot equal, same multiset |
| HeapSpec.SwappedPrefix | heap.h:137-141 | swapping two live slots keeps the multiset of the live prefix |
| MinHeap.Heap.ExtractMin | heap.h:145-151 | returns the old root's element; the old root is a stored entry of minimum priority; size drops by one; the entries lose exactly the old root; heap order holds; the array is the sift-down from 0 after the last entry moved to the root |
| HeapSpec.MinAtRoot | heap.h:42-43 | the root of a heap has a priority no larger than that of any live entry |
| HeapSpec.RemoveRoot | heap.h:146-148 | moving the last live entry onto the root and shrinking drops exactly the old root from the multiset |
| HeapSpec.ExtractOrders | heap.h:145-151 | after moving the last entry to the root, sift-down from 0 restores heap order on the smaller prefix |
| HeapSpec.ExtractionIsSorted | heap.h:143-151 | the next minimum after an extraction is no smaller than the one extracted |
| HeapSpec.SiftDown | heap.h:157-188 | trickleDown on a sequence over the live prefix: same length; the leaf, lone-child and two-child cases of heap.h:162-186 (its properties are SiftDownFrame, SiftDownPermutes, SiftDownOrders and SiftDownTieGoesLeft) |
| MinHeap.Heap.TrickleDown | heap.h:157-188 | the in-place recursion computes SiftDown of the old array from slot i over the live prefix |
| HeapSpec.SiftDownRepairs | heap.h:66-69 | if every edge in the subtree under i except those out of i is in order, sift-down at i makes the whole subtree a heap |
| HeapSpec.SiftDownOrders | heap.h:157-188 | the same for a hole j inside the subtree under r, one branch of trickleDown per case, given that j's parent is no larger than j's children |
| HeapSpec.SiftDownFrame | heap.h:153-155 | sift-down at i changes no slot past the live prefix and none outside the subtree rooted at i |
| HeapSpec.SiftDownPermutes | heap.h:157-188 | sift-down permutes the live prefix |
| HeapSpec.SiftDownTieGoesLeft | heap.h:177-185 | when both children have equal priority smaller than the parent's, the left child moves up and the right child stays |
| HeapSpec.BuildFrom | heap.h:192 | the heapify loop from k-1 down to 0 on a sequence: same length (its properties are BuildFromOrders and BuildFromPermutes) |
| HeapSpec.Heapified | heap.h:190-193 | heapify on a sequence, sift-down at n/2-1 down to 0: same length (its properties are in HeapifiedIsHeap) |
| MinHeap.Heap.Heapify | heap.h:190-193 | the array becomes Heapified of the old one (sift-down at hSize/2-1 down to 0), heap order holds, and the entries are unchanged |
| HeapSpec.SiftDownExtends | heap.h:192 | one loop step: if the edges below nodes i+1 and up are in order, after sift-down at i the edges below nodes i and up are in order |
| HeapSpec.BuildFromOrders | heap.h:192 | sifting down k-1, ..., 0 turns a prefix whose edges below k and up are in order into a heap |
| HeapSpec.BuildFromPermutes | heap.h:192 | the loop only permutes the live prefix |
| HeapSpec.HeapifiedIsHeap | heap.h:190-193 | heapify turns any live prefix into a heap with the same multiset of entries |
| Scenarios.InsertPair | heap.h:119-124 | a client's view of insert: size plus one, the entries gain the pair, the invariant holds |
| Scenarios.ExtractExpecting | heap.h:145-151 | extracting from a heap that holds w and otherwise only strictly larger priorities returns w's element and leaves the rest |
| Scenarios.ExtractRoot | heap.h:145-151 | a client's view of extractMin: a stored pair of least priority leaves the heap and its element is returned |
| Scenarios.Drain | heap.h:143-151 | extracting until empty yields exactly the stored pairs (as a multiset), in non-decreasing priority, and the returned elements are those pairs' elements in the same order |
| Scenarios.DrainStep | heap.h:145-151 | one extraction extends a sorted output that lies below the heap, keeping it sorted and below what is left, and appends the returned element |
| Scenarios.SortedExtends | heap.h:143-151 | appending a least remaining pair to a sorted output below the remaining pairs keeps it sorted, below the rest, and loses no pair |
| Scenarios.InsertFour | heap.h:119-124 | four inserts into an empty heap of capacity 10 store exactly those four pairs |

## Left out

- `printHeap` (heap.h:196-200) writes to the console. It is I/O with no effect on the heap.
- The destructor, `new[]`/`delete[]` and the `friend class Heap` declaration (heap.h:13, 36, 113-115) are C++ memory management and access control. `A` is a Dafny array, and discarding it needs no code.
- The `<math.h>` include and `using namespace std` (heap.h:8-10) have no behaviour.
- 32-bit `int` overflow is not modelled: the index arithmetic `2*i+2`, the sizes `s + c` and `hSize + c`, and the priorities are unbounded integers. Priorities are only ever compared, never computed. Overflow shows up in two places in heap.h. First, the capacity sums `s + c` (heap.h:93-94) and `hSize + c` (heap.h:104) overflow even for a tiny heap with a large spare capacity: `Heap(P, E, 1, INT_MAX)` asks `new` for a negative size, while the model builds a heap of capacity 2^31. Second, the child index `2*i+2` (heap.h:159) overflows once `i` nears `INT_MAX/2`.
- The slots from `hSize` on start with indeterminate values in C++ (`new Pair[n]` does not initialise them). The code reads them only through a peek on an empty heap. In the model they hold arbitrary pairs, and no contract relies on their values.
- Calls that the code leaves undefined are excluded by preconditions instead of being modelled:
  - insert when full (a write past the array);
  - extract when empty (a read of `A[-1]`).
- Peek on an empty heap is excluded by `0 < hSize`. In heap.h it is a defined read of the pair slot 0 last held, undefined only if slot 0 was never written or the capacity is 0; the model does not describe that leftover value.
- A negative `c`, or `s + c < 0`, makes `new Pair[...]` throw `std::bad_array_new_length` (heap.h:86, 93); `0 <= c` and `0 <= s` exclude it, and the model has no exception path.
- MinHeap.Heap.Merge: the contract states size, capacity, contents and heap order, but not the exact array layout that heapify leaves.
- MinHeap.Heap.FromArrays: the contract states contents and heap order, but not the exact array layout after the inserts.
