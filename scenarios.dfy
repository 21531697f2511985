// Client scenarios of the heap, proved from the contracts alone: what a
// caller may conclude about peeks and extractions from the stored pairs, and
// that draining any heap yields its entries in priority order.
// Elements 10, 20, 30 and 40 stand for the payloads a, b, c and d.

module Scenarios {
  import opened HeapSpec
  import opened MinHeap

  /**
   * Extracting from a heap that holds w plus entries of strictly larger
   * priority yields w's element and leaves the others.
   */
  method ExtractExpecting(h: Heap, ghost w: Pair, ghost rest: multiset<Pair>) returns (x: int)
    requires h.Valid() && h.Contents() == rest + multiset{w}
    requires forall q :: q in rest ==> w.priority < q.priority
    modifies h`hSize, h.A
    ensures h.Valid() && x == w.element && h.Contents() == rest
  {
    assert 0 < |h.Contents()|;
    x := h.ExtractMin();
  }

  /**
   * Insertion as a client sees it: the new pair joins the contents (the
   * array-layout equation of Insert is left behind, as clients reason about
   * contents only).
   */
  method InsertPair(h: Heap, element: int, priority: int)
    requires h.Valid() && h.hSize < h.hCapacity
    modifies h`hSize, h.A
    ensures h.Valid() && h.hSize == old(h.hSize) + 1
    ensures h.Contents() == old(h.Contents()) + multiset{Pair(element, priority)}
  {
    h.Insert(element, priority);
  }

  /**
   * Extraction as a client sees it: some stored pair of least priority
   * leaves the heap and its element is returned (the array-layout equation
   * of ExtractMin is left behind).
   */
  method ExtractRoot(h: Heap) returns (ghost top: Pair, x: int)
    requires h.Valid() && 0 < h.hSize
    modifies h`hSize, h.A
    ensures h.Valid() && h.hSize == old(h.hSize) - 1
    ensures top in old(h.Contents()) && x == top.element
    ensures forall q :: q in old(h.Contents()) ==> top.priority <= q.priority
    ensures h.Contents() == old(h.Contents()) - multiset{top}
  {
    top := h.A[0];
    x := h.ExtractMin();
  }

  /** Entries in non-decreasing priority. */
  ghost predicate SortedByPriority(out: seq<Pair>)
  {
    forall i, j :: 0 <= i < j < |out| ==> out[i].priority <= out[j].priority
  }

  /** Every entry of out has a priority no larger than any entry of m. */
  ghost predicate Below(out: seq<Pair>, m: multiset<Pair>)
  {
    forall i, q :: 0 <= i < |out| && q in m ==> out[i].priority <= q.priority
  }

  /** elems lists the elements of the pairs in out, in the same order. */
  ghost predicate ElementsOf(elems: seq<int>, out: seq<Pair>)
  {
    |elems| == |out| && forall i :: 0 <= i < |out| ==> elems[i] == out[i].element
  }

  /**
   * Extracting until the heap is empty yields exactly the stored pairs, in
   * non-decreasing priority; elems are the values extractMin returned.
   */
  method Drain(h: Heap) returns (ghost out: seq<Pair>, elems: seq<int>)
    requires h.Valid()
    modifies h`hSize, h.A
    ensures h.Valid() && h.hSize == 0
    ensures multiset(out) == old(h.Contents())
    ensures forall i, j :: 0 <= i < j < |out| ==> out[i].priority <= out[j].priority
    ensures |elems| == |out| && forall i :: 0 <= i < |out| ==> elems[i] == out[i].element
  {
    ghost var orig := h.Contents();
    out, elems := [], [];
    while h.hSize > 0
      invariant h.Valid()
      invariant multiset(out) + h.Contents() == orig
      invariant SortedByPriority(out) && Below(out, h.Contents())
      invariant ElementsOf(elems, out)
      decreases h.hSize
    {
      out, elems := DrainStep(h, out, elems);
    }
  }

  /**
   * One extraction of Drain: the extracted pair extends the sorted output
   * and its element, as returned, extends elems.
   */
  method DrainStep(h: Heap, ghost prev: seq<Pair>, prevElems: seq<int>)
    returns (ghost out: seq<Pair>, elems: seq<int>)
    requires h.Valid() && 0 < h.hSize
    requires SortedByPriority(prev) && Below(prev, h.Contents())
    requires ElementsOf(prevElems, prev)
    modifies h`hSize, h.A
    ensures h.Valid() && h.hSize == old(h.hSize) - 1
    ensures multiset(out) + h.Contents() == multiset(prev) + old(h.Contents())
    ensures SortedByPriority(out) && Below(out, h.Contents())
    ensures ElementsOf(elems, out)
  {
    ghost var before := h.Contents();
    ghost var top;
    var e;
    top, e := ExtractRoot(h);
    out := prev + [top];
    elems := prevElems + [e];
    SortedExtends(prev, top, h.Contents(), before);
  }

  /**
   * Appending a least entry of `before` to a sorted output that lies below
   * `before` keeps it sorted and below what is left.
   */
  lemma SortedExtends(prev: seq<Pair>, top: Pair, rest: multiset<Pair>, before: multiset<Pair>)
    requires SortedByPriority(prev) && Below(prev, before)
    requires before == rest + multiset{top}
    requires forall q :: q in before ==> top.priority <= q.priority
    ensures SortedByPriority(prev + [top]) && Below(prev + [top], rest)
    ensures multiset(prev + [top]) + rest == multiset(prev) + before
  {
    var out := prev + [top];
    forall i, q | 0 <= i < |out| && q in rest
      ensures out[i].priority <= q.priority
    {
      assert q in before;
    }
    forall i, j | 0 <= i < j < |out|
      ensures out[i].priority <= out[j].priority
    {
      if j < |prev| {
        assert out[i] == prev[i] && out[j] == prev[j];
      } else {
        assert out[i] == prev[i] && out[j] == top;
      }
    }
    assert multiset(out) == multiset(prev) + multiset{top};
  }

  /** Insert four pairs, peek, extract once, peek again. */
  method InsertPeekExtract() {
    var h := new Heap();
    InsertFour(h);
    PeekExtractPeek(h);
  }

  /** Insert <a, 5>, <b, 3>, <c, 8> and <d, 1> into an empty heap with room for them. */
  method InsertFour(h: Heap)
    requires h.Valid() && h.hSize == 0 && h.hCapacity == 10
    modifies h`hSize, h.A
    ensures h.Valid() && h.Contents() == multiset{Pair(10, 5), Pair(20, 3), Pair(30, 8), Pair(40, 1)}
  {
    InsertPair(h, 10, 5);
    assert h.Contents() == multiset{Pair(10, 5)};
    InsertPair(h, 20, 3);
    assert h.Contents() == multiset{Pair(10, 5), Pair(20, 3)};
    InsertPair(h, 30, 8);
    assert h.Contents() == multiset{Pair(10, 5), Pair(20, 3), Pair(30, 8)};
    InsertPair(h, 40, 1);
  }

  /** The minimum is <d, 1>; after removing it the minimum priority is 3. */
  method PeekExtractPeek(h: Heap)
    requires h.Valid() && h.Contents() == multiset{Pair(10, 5), Pair(20, 3), Pair(30, 8), Pair(40, 1)}
    modifies h`hSize, h.A
  {
    assert 0 < |h.Contents()|;
    var p := h.PeekMinPriority();
    assert p == 1;
    var e := h.PeekMin();
    assert e == 40;
    var x := ExtractExpecting(h, Pair(40, 1), multiset{Pair(10, 5), Pair(20, 3), Pair(30, 8)});
    assert x == 40;
    assert 0 < |h.Contents()|;
    p := h.PeekMinPriority();
    assert p == 3;
  }

  /** Build from parallel arrays, then extract everything in priority order. */
  method BuildThenDrain() {
    var h := new Heap.FromArrays([5, 3, 8, 1], [10, 20, 30, 40], 4, 0);
    assert Pairs([5, 3, 8, 1], [10, 20, 30, 40], 4) == [Pair(10, 5), Pair(20, 3), Pair(30, 8), Pair(40, 1)];
    DrainFour(h);
  }

  /** The first two extractions yield d then b. */
  method DrainFour(h: Heap)
    requires h.Valid() && h.Contents() == multiset{Pair(10, 5), Pair(20, 3), Pair(30, 8), Pair(40, 1)}
    modifies h`hSize, h.A
  {
    var x := ExtractExpecting(h, Pair(40, 1), multiset{Pair(10, 5), Pair(20, 3), Pair(30, 8)});
    assert x == 40;
    x := ExtractExpecting(h, Pair(20, 3), multiset{Pair(10, 5), Pair(30, 8)});
    assert x == 20;
    DrainTwo(h);
  }

  /** The last two extractions yield a then c, leaving the heap empty. */
  method DrainTwo(h: Heap)
    requires h.Valid() && h.Contents() == multiset{Pair(10, 5), Pair(30, 8)}
    modifies h`hSize, h.A
  {
    var x := ExtractExpecting(h, Pair(10, 5), multiset{Pair(30, 8)});
    assert x == 10;
    x := ExtractExpecting(h, Pair(30, 8), multiset{});
    assert x == 30;
    assert h.Empty();
  }
}
