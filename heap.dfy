// The Heap class of heap.h: a fixed-capacity array A of <element, priority>
// pairs whose first hSize slots hold a binary min-heap. Each method runs the
// algorithm of heap.h (trickleUp, trickleDown, heapify) in place and is
// proved to compute the matching function of HeapSpec; heap order and the
// multiset of stored pairs follow from the lemmas proved there.

module MinHeap {
  import opened HeapSpec

  class Heap {
    var A: array<Pair>   // heap contents; A.Length is the capacity
    var hCapacity: int   // maximum number of entries
    var hSize: int       // current number of entries

    /** The size invariant: 0 <= hSize <= hCapacity == A.Length. */
    ghost predicate Shaped()
      reads this
    {
      A.Length == hCapacity && 0 <= hSize <= hCapacity
    }

    /** The object invariant: well shaped and heap-ordered over A[0..hSize). */
    ghost predicate Valid()
      reads this, A
    {
      Shaped() && Ordered(A[..], hSize)
    }

    /** The entries currently stored. */
    ghost function Contents(): (m: multiset<Pair>)
      reads this, A
      requires Shaped()
      ensures |m| == hSize
    {
      multiset(A[..hSize])
    }

    // Constructors

    /** New empty heap with the default capacity 10. */
    constructor ()
      ensures Valid() && fresh(A)
      ensures hSize == 0 && hCapacity == 10 && Contents() == multiset{}
    {
      hCapacity := 10;
      A := new Pair[10];
      hSize := 0;
    }

    /** New empty heap with capacity c. */
    constructor WithCapacity(c: int)
      requires 0 <= c
      ensures Valid() && fresh(A)
      ensures hSize == 0 && hCapacity == c && Contents() == multiset{}
    {
      hCapacity := c;
      A := new Pair[c];
      hSize := 0;
    }

    /**
     * New heap holding <elements[i], priorities[i]> for 0 <= i < s, built by
     * inserting the pairs one at a time; the capacity is s plus the spare c.
     */
    constructor FromArrays(priorities: seq<int>, elements: seq<int>, s: int, c: int)
      requires 0 <= s && 0 <= c && s <= |priorities| && s <= |elements|
      ensures Valid() && fresh(A)
      ensures hSize == s && hCapacity == s + c
      ensures Contents() == multiset(Pairs(priorities, elements, s))
    {
      A := new Pair[s + c];
      hCapacity := s + c;
      hSize := 0;
      new;
      for i := 0 to s
        invariant Valid() && fresh(A)
        invariant hSize == i && hCapacity == s + c
        invariant Contents() == multiset(Pairs(priorities, elements, i))
      {
        Insert(elements[i], priorities[i]);
      }
    }

    /**
     * New heap holding the entries of both arguments: heap1's entries then
     * heap2's are copied into a fresh array, which is then heapified. The
     * capacity is the combined size plus the spare c.
     */
    constructor Merge(heap1: Heap, heap2: Heap, c: int)
      requires heap1.Valid() && heap2.Valid() && 0 <= c
      ensures Valid() && fresh(A)
      ensures hSize == heap1.hSize + heap2.hSize && hCapacity == hSize + c
      ensures Contents() == heap1.Contents() + heap2.Contents()
    {
      var n1, n2 := heap1.hSize, heap2.hSize;
      var arr := new Pair[n1 + n2 + c];
      CopyInto(heap1.A, n1, arr, 0);
      CopyInto(heap2.A, n2, arr, n1);
      assert arr[..n1 + n2] == heap1.A[..n1] + heap2.A[..n2];
      assert multiset(arr[..n1 + n2]) == heap1.Contents() + heap2.Contents();
      hSize := n1 + n2;
      hCapacity := n1 + n2 + c;
      A := arr;
      new;
      Heapify();
    }

    // Accessors

    /** True iff the heap holds no entry. */
    function Empty(): (b: bool)
      reads this, A
      requires Shaped()
      ensures b <==> Contents() == multiset{}
    {
      assert hSize == 0 <==> |Contents()| == 0;
      hSize == 0
    }

    /** The number of entries. */
    function Size(): (n: int)
      reads this, A
      requires Shaped()
      ensures n == |Contents()|
    {
      hSize
    }

    /** The number of slots. */
    function Capacity(): (cap: int)
      reads this, A
      requires Shaped()
      ensures cap == A.Length && |Contents()| <= cap
    {
      hCapacity
    }

    /** The element of a minimum-priority entry. */
    function PeekMin(): (e: int)
      reads this, A
      requires Valid() && 0 < hSize
      ensures exists q :: q in Contents() && q.element == e &&
                (forall q' :: q' in Contents() ==> q.priority <= q'.priority)
    {
      MinAtRoot(A[..], hSize);
      assert A[..][0] in Contents() by { assert A[..hSize][0] == A[0]; }
      A[0].element
    }

    /** The minimum priority. */
    function PeekMinPriority(): (p: int)
      reads this, A
      requires Valid() && 0 < hSize
      ensures forall q :: q in Contents() ==> p <= q.priority
      ensures exists q :: q in Contents() && q.priority == p
    {
      MinAtRoot(A[..], hSize);
      assert A[..][0] in Contents() by { assert A[..hSize][0] == A[0]; }
      A[0].priority
    }

    // Modifiers

    /** Inserts <element, priority>; the slot after the last entry must exist. */
    method Insert(element: int, priority: int)
      requires Valid() && hSize < hCapacity
      modifies this`hSize, A
      ensures Valid()
      ensures hSize == old(hSize) + 1
      ensures Contents() == old(Contents()) + multiset{Pair(element, priority)}
      ensures A[..] == SiftUp(old(A[..])[old(hSize) := Pair(element, priority)], old(hSize))
    {
      ghost var s := A[..];
      A[hSize] := Pair(element, priority);
      assert A[..] == s[hSize := Pair(element, priority)];
      TrickleUp(hSize);
      hSize := hSize + 1;
      InsertOrders(s, hSize - 1, Pair(element, priority));
      SiftUpPermutes(s[hSize - 1 := Pair(element, priority)], hSize - 1, hSize);
      assert s[hSize - 1 := Pair(element, priority)][..hSize] == s[..hSize - 1] + [Pair(element, priority)];
    }

    /** Sift-up from slot i: swaps A[i] with its parent while strictly smaller. */
    method TrickleUp(i: int)
      requires 0 <= i < A.Length
      modifies A
      ensures A[..] == SiftUp(old(A[..]), i)
      decreases i
    {
      if i == 0 || A[i].priority >= A[(i - 1) / 2].priority {
        return;
      }
      Swap(i, (i - 1) / 2);
      TrickleUp((i - 1) / 2);
    }

    /** Exchanges A[i] and A[j]. */
    method Swap(i: int, j: int)
      requires 0 <= i < A.Length && 0 <= j < A.Length
      modifies A
      ensures A[..] == Swapped(old(A[..]), i, j)
      ensures Shaped() && i < hSize && j < hSize ==> Contents() == old(Contents())
    {
      ghost var s := A[..];
      var temp := A[i];
      A[i] := A[j];
      A[j] := temp;
      assert A[..] == Swapped(s, i, j);
      if Shaped() && i < hSize && j < hSize {
        SwappedPrefix(s, hSize, i, j);
      }
    }

    /**
     * Removes an entry of minimum priority and returns its element: the
     * last entry moves to the root and is sifted down.
     */
    method ExtractMin() returns (min: int)
      requires Valid() && 0 < hSize
      modifies this`hSize, A
      ensures Valid()
      ensures hSize == old(hSize) - 1
      ensures min == old(A[0]).element && old(A[0]) in old(Contents())
      ensures forall q :: q in old(Contents()) ==> old(A[0]).priority <= q.priority
      ensures Contents() == old(Contents()) - multiset{old(A[0])}
      ensures A[..] == SiftDown(old(A[..])[0 := old(A[hSize - 1])], hSize, 0)
    {
      ghost var s := A[..];
      MinAtRoot(s, hSize);
      min := A[0].element;
      A[0] := A[hSize - 1];
      assert A[..] == s[0 := s[hSize - 1]];
      hSize := hSize - 1;
      TrickleDown(0);
      ExtractOrders(s, hSize + 1);
      SiftDownPermutes(s[0 := s[hSize]], hSize, 0);
      RemoveRoot(s, hSize + 1);
    }

    /**
     * Sift-down from slot i over A[0..hSize): repairs the subtree rooted at
     * i when the subtrees of its children are already heaps.
     */
    method TrickleDown(i: int)
      requires 0 <= i && Shaped()
      modifies A
      ensures A[..] == SiftDown(old(A[..]), hSize, i)
      decreases hSize - i
    {
      SiftDownUnfold(A[..], hSize, i);
      var left := 2 * i + 1;
      var right := 2 * i + 2;
      if left > hSize - 1 && right > hSize - 1 {
        return;
      } else if right > hSize - 1 && A[i].priority > A[left].priority {
        Swap(i, left);
        return;
      } else if left < hSize && right < hSize {
        if A[i].priority <= A[left].priority && A[i].priority <= A[right].priority {
          return;
        }
        if A[left].priority > A[right].priority {
          Swap(i, right);
          TrickleDown(right);
        } else {
          Swap(i, left);
          TrickleDown(left);
        }
      }
    }

    /** Turns A[0..hSize) into a heap: sift-down at hSize/2-1 down to 0. */
    method Heapify()
      requires Shaped()
      modifies A
      ensures Valid()
      ensures Contents() == old(Contents())
      ensures A[..] == Heapified(old(A[..]), hSize)
    {
      ghost var s := A[..];
      for i := hSize / 2 downto 0
        invariant BuildFrom(A[..], hSize, i) == Heapified(s, hSize)
      {
        BuildFromStep(A[..], hSize, i + 1);
        TrickleDown(i);
      }
      HeapifiedIsHeap(s, hSize);
    }
  }

  /** Copies source[0..count) into target[offset..offset+count), like std::copy. */
  method CopyInto(source: array<Pair>, count: int, target: array<Pair>, offset: int)
    requires source != target
    requires 0 <= count <= source.Length && 0 <= offset && offset + count <= target.Length
    modifies target
    ensures target[..] == old(target[..offset]) + source[..count] + old(target[offset + count..])
  {
    for k := 0 to count
      invariant target[..offset] == old(target[..offset])
      invariant target[offset..offset + k] == source[..k]
      invariant target[offset + count..] == old(target[offset + count..])
    {
      target[offset + k] := source[k];
    }
  }
}
