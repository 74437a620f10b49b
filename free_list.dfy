/**
 * The free list of the memory heap. Freed cells are chained through their `referenceCount`
 * field: `lastFreePosition` names the first free cell, each free cell stores the position of the
 * next one, and the last one stores the heap size (analyzer/memory/BigNode.kt:277-314,
 * analyzer/memory/BigNodeCell.kt:61-81). The chain is described by a ghost sequence of positions.
 */
module FreeLists {
  import opened Wrappers
  import opened Values
  import opened Cells

  /** The cumulative heap counters of a generation. */
  datatype HeapCounters = HeapCounters(heapSize: int, usedCellCount: int, lastFreePosition: int)

  /** The resolved heap has exactly the positions `[0, heapSize)`. */
  ghost predicate Covers(view: map<int, CellState>, heapSize: int) {
    && 0 <= heapSize
    && forall p :: p in view <==> 0 <= p < heapSize
  }

  /** The link stored in the `k`-th free cell. */
  function Link(chain: seq<int>, k: nat, heapSize: int): int {
    if k + 1 < |chain| then chain[k + 1] else heapSize
  }

  /**
   * `chain` lists the freed positions in free-list order: each is freed, each links to the next,
   * the last links to the heap size, no position repeats, every freed position is on it, the head
   * is its first element, and the used count is the number of the other cells.
   */
  ghost predicate FreeListOk(view: map<int, CellState>, chain: seq<int>, c: HeapCounters) {
    && Linked(view, chain, c.heapSize)
    && Distinct(chain)
    && Complete(view, chain)
    && c.lastFreePosition == (if chain == [] then c.heapSize else chain[0])
    && c.usedCellCount == c.heapSize - |chain|
  }

  /** Every position on the chain is a freed cell holding the link to the next one. */
  ghost predicate Linked(view: map<int, CellState>, chain: seq<int>, heapSize: int) {
    && (forall k :: 0 <= k < |chain| ==> chain[k] in view && view[chain[k]].value.None?)
    && (forall k {:trigger Link(chain, k, heapSize)} :: 0 <= k < |chain| ==>
          view[chain[k]].referenceCount == Link(chain, k, heapSize))
  }

  ghost predicate Distinct(chain: seq<int>) {
    forall j, k :: 0 <= j < k < |chain| ==> chain[j] != chain[k]
  }

  /** Every freed cell is on the chain. */
  ghost predicate Complete(view: map<int, CellState>, chain: seq<int>) {
    forall p :: p in view && view[p].value.None? ==> p in chain
  }

  /** Taking the head off the chain and making it live keeps the rest of the chain intact. */
  lemma {:induction false} PopHead(view: map<int, CellState>, chain: seq<int>, heapSize: int, s: CellState)
    requires chain != [] && Linked(view, chain, heapSize) && Distinct(chain) && Complete(view, chain)
    requires s.value.Some?
    ensures Linked(view[chain[0] := s], chain[1..], heapSize)
    ensures Distinct(chain[1..])
    ensures Complete(view[chain[0] := s], chain[1..])
  {
    var view', rest := view[chain[0] := s], chain[1..];
    forall k | 0 <= k < |rest|
      ensures rest[k] in view' && view'[rest[k]].value.None?
      ensures view'[rest[k]].referenceCount == Link(rest, k, heapSize)
    {
      assert rest[k] == chain[k + 1] != chain[0];
      assert Link(rest, k, heapSize) == Link(chain, k + 1, heapSize);
    }
    forall j, k | 0 <= j < k < |rest|
      ensures rest[j] != rest[k]
    {
      assert rest[j] == chain[j + 1] && rest[k] == chain[k + 1];
    }
    forall q | q in view' && view'[q].value.None?
      ensures q in rest
    {
      assert q != chain[0] && q in chain;
      assert chain == [chain[0]] + rest;
    }
  }

  /** Every resolved cell knows its own position. */
  ghost predicate Positioned(view: map<int, CellState>) {
    forall p | p in view :: view[p].position == p
  }

  /** The heap invariant: exactly the positions `[0, heapSize)`, each cell in place, the free list intact. */
  ghost predicate HeapOk(view: map<int, CellState>, chain: seq<int>, c: HeapCounters) {
    Covers(view, c.heapSize) && Positioned(view) && FreeListOk(view, chain, c)
  }

  /** The heap of the first generation. */
  lemma {:induction false} EmptyHeap()
    ensures HeapOk(map[], [], HeapCounters(0, 0, 0))
  {
  }

  /** With no free cell the head equals the heap size, and with some it is a freed position inside the heap. */
  lemma {:induction false} HeadInHeap(view: map<int, CellState>, chain: seq<int>, c: HeapCounters)
    requires HeapOk(view, chain, c)
    ensures chain == [] <==> c.lastFreePosition == c.heapSize
    ensures chain != [] ==> 0 <= c.lastFreePosition < c.heapSize && IsFreed(view[c.lastFreePosition])
  {
    if chain != [] {
      assert chain[0] in view;
    }
  }

  /** `alloc` with no free cell appends a new live cell at the end of the heap. */
  lemma {:induction false} AllocAtEnd(view: map<int, CellState>, chain: seq<int>, c: HeapCounters, value: Referenced)
    requires HeapOk(view, chain, c)
    requires c.lastFreePosition == c.heapSize
    ensures var p := c.heapSize;
            HeapOk(view[p := NewCell(p, Some(value))], chain, HeapCounters(p + 1, c.usedCellCount + 1, p + 1))
  {
    HeadInHeap(view, chain, c);
    var p := c.heapSize;
    var view' := view[p := NewCell(p, Some(value))];
    forall q
      ensures q in view' <==> 0 <= q < p + 1
    {
      assert q in view <==> 0 <= q < c.heapSize;
      assert q in view' <==> q in view || q == p;
    }
  }

  /**
   * `alloc` with a free cell reuses the head of the list: the rest of the chain remains, and the
   * new head is the link the reused cell stored.
   */
  lemma {:induction false} AllocReuse(view: map<int, CellState>, chain: seq<int>, c: HeapCounters, value: Referenced)
    requires HeapOk(view, chain, c)
    requires c.lastFreePosition != c.heapSize
    ensures chain != [] && chain[0] == c.lastFreePosition
    ensures var p := c.lastFreePosition;
            HeapOk(view[p := Realloc(view[p], value)], chain[1..],
                   HeapCounters(c.heapSize, c.usedCellCount + 1, view[p].referenceCount))
  {
    HeadInHeap(view, chain, c);
    var p := c.lastFreePosition;
    PopHead(view, chain, c.heapSize, Realloc(view[p], value));
    assert view[p].referenceCount == Link(chain, 0, c.heapSize);
  }

  /** `free` of a live cell pushes it on the list: it stores the old head and becomes the head. */
  lemma {:induction false} FreeLive(view: map<int, CellState>, chain: seq<int>, c: HeapCounters, p: int)
    requires HeapOk(view, chain, c)
    requires p in view && !IsFreed(view[p])
    ensures HeapOk(view[p := view[p].(value := None, referenceCount := c.lastFreePosition)], [p] + chain,
                   HeapCounters(c.heapSize, c.usedCellCount - 1, p))
  {
    var view' := view[p := view[p].(value := None, referenceCount := c.lastFreePosition)];
    var chain' := [p] + chain;
    forall k | 0 <= k < |chain'|
      ensures chain'[k] in view' && view'[chain'[k]].value.None?
      ensures view'[chain'[k]].referenceCount == Link(chain', k, c.heapSize)
    {
      if k > 0 {
        assert chain'[k] == chain[k - 1] != p;
        assert Link(chain', k, c.heapSize) == Link(chain, k - 1, c.heapSize);
      }
    }
  }

  /** Changing a live cell into another live cell in place (a new value, a new reference count) keeps the list. */
  lemma {:induction false} UpdateLive(view: map<int, CellState>, chain: seq<int>, c: HeapCounters, p: int, s: CellState)
    requires HeapOk(view, chain, c)
    requires p in view && !IsFreed(view[p]) && !IsFreed(s) && s.position == p
    ensures HeapOk(view[p := s], chain, c)
  {
  }

  /**
   * Freeing a live cell and then allocating gives the same position back, and the list, the head
   * and the used count return to what they were.
   */
  lemma {:induction false} FreeThenAlloc(view: map<int, CellState>, chain: seq<int>, c: HeapCounters, p: int, value: Referenced)
    requires HeapOk(view, chain, c)
    requires p in view && !IsFreed(view[p])
    ensures var freed := view[p := view[p].(value := None, referenceCount := c.lastFreePosition)];
            var c' := HeapCounters(c.heapSize, c.usedCellCount - 1, p);
            && c'.lastFreePosition != c'.heapSize
            && freed[p].referenceCount == c.lastFreePosition
            && HeapOk(freed[p := Realloc(freed[p], value)], chain, c)
  {
    var freed := view[p := view[p].(value := None, referenceCount := c.lastFreePosition)];
    var c' := HeapCounters(c.heapSize, c.usedCellCount - 1, p);
    FreeLive(view, chain, c, p);
    AllocReuse(freed, [p] + chain, c', value);
    assert ([p] + chain)[1..] == chain;
  }
}
