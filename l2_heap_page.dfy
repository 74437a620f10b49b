/**
 * `BigNodeL2HeapPage`: a second-level page table. Each position is filed under the level-1 page
 * whose index is `position and mask`; level-1 pages are created on the first write and dropped
 * once they hold no cell. Positions are 32-bit Kotlin `Int`s, modelled as their bit patterns.
 */
module L2HeapPages {
  import opened Wrappers
  import opened Errors
  import opened Cells

  /** A level-1 page: the cells it holds, by position. */
  type L1Page = map<int, CellState>

  /** The mask that keeps all but the low `k` bits, the form `heapPageL3Mask` has. */
  function PageMask(k: bv32): bv32
    requires k < 32
  {
    !((1 << k) - 1)
  }

  /** `lastIndex` (line 26): the bitwise complement of the mask plus one, wrapping at 32 bits. */
  function LastIndex(mask: bv32): (r: bv32)
    ensures mask == 0 ==> r == 0
    ensures mask == 0xFFFF_FFFF ==> r == 1
  {
    !mask + 1
  }

  /** For a mask `PageMask(k)`, `lastIndex` is the page span `2^k`. */
  lemma {:induction false} LastIndexIsSpan(k: bv32)
    requires k < 32
    ensures LastIndex(PageMask(k)) == 1 << k
  {
  }

  /**
   * On 32-bit patterns, `position and PageMask(k)` clears the low `k` bits: it rounds the position
   * down to a multiple of `1 << k`. That this agrees with the integer `PageIndex` is not proved.
   */
  lemma {:induction false} MaskRoundsDown(position: bv32, k: bv32)
    requires k < 32
    ensures position & PageMask(k) == (position >> k) << k
  {
  }

  /** The page span `2^k`. */
  function Span(k: nat): (r: nat)
    ensures r >= 1
  {
    if k == 0 then 1 else 2 * Span(k - 1)
  }

  /**
   * The page index of a position, modelling `position and PageMask(k)` on integers: the position
   * rounded down to a multiple of the span (Euclidean `%` rounds negative positions down too, as
   * the two's-complement mask does).
   */
  function PageIndex(position: int, k: nat): (r: int)
  {
    position - position % Span(k)
  }

  /** A position lies in the span that starts at its page index. */
  lemma {:induction false} PageIndexBounds(position: int, k: nat)
    ensures PageIndex(position, k) <= position < PageIndex(position, k) + Span(k)
  {
  }

  /** Every stored page holds a cell, and only cells whose page index is its own. */
  predicate PagesValid(pages: map<int, L1Page>, k: nat) {
    forall i :: i in pages ==> |pages[i]| > 0 && forall p :: p in pages[i] ==> PageIndex(p, k) == i
  }

  /** The cell a page table holds at a position, looked up in the page its index names. */
  function Lookup(pages: map<int, L1Page>, k: nat, position: int): Option<CellState> {
    var index := PageIndex(position, k);
    if index in pages && position in pages[index] then Some(pages[index][position]) else None
  }

  /** A page either is empty or holds some position. */
  lemma {:induction false} EmptyOrHolds<T>(page: map<int, T>)
    ensures page == map[] || exists p :: p in page
  {
    if !(exists p :: p in page) {
      assert page == map[];
    }
  }

  /** A valid table has no page exactly when it holds no cell. */
  lemma {:induction false} NoPagesNoCells(pages: map<int, L1Page>, k: nat)
    requires PagesValid(pages, k)
    ensures |pages| == 0 <==> forall p :: Lookup(pages, k, p).None?
  {
    if pages != map[] {
      EmptyOrHolds(pages);
      var i :| i in pages;
      EmptyOrHolds(pages[i]);
      var p :| p in pages[i];
      assert Lookup(pages, k, p).Some?;
    }
  }

  class L2HeapPage {
    /** The first position of this page (only reported by `toString`). */
    const position: int
    /** The page bits of `Consts.Memory.heapPageL3Mask`, a parameter of the model (mask `PageMask(k)`). */
    const k: nat
    /** The level-1 pages, by page index. */
    var pages: map<int, L1Page>

    predicate Valid()
      reads this
    {
      PagesValid(pages, k)
    }

    /** The cell held at a position. */
    function Cell(position: int): Option<CellState>
      reads this
    {
      Lookup(pages, k, position)
    }

    constructor (position: int, k: nat)
      ensures this.position == position && this.k == k
      ensures Valid() && forall p :: Cell(p).None?
    {
      this.position := position;
      this.k := k;
      pages := map[];
    }

    /** `size` (line 16): the number of level-1 pages, zero exactly when no cell is held. */
    function Size(): (r: nat)
      reads this
      requires Valid()
      ensures r == |pages|
      ensures r == 0 <==> forall p :: Cell(p).None?
    {
      NoPagesNoCells(pages, k);
      assert forall p :: Cell(p) == Lookup(pages, k, p);
      |pages|
    }

    /**
     * `getCell` (lines 33-39): a position whose level-1 page is absent is a segmentation fault;
     * otherwise the level-1 page is asked for the position.
     */
    method GetCell(position: int) returns (r: Result<Option<CellState>, AnalyzerError>)
      requires Valid()
      ensures PageIndex(position, k) !in pages <==> r == Failure(HeapSegmentationFault)
      ensures PageIndex(position, k) in pages <==> r == Success(Cell(position))
    {
      var index := PageIndex(position, k);
      if index !in pages {
        return Failure(HeapSegmentationFault);
      }
      var page := pages[index];
      r := Success(if position in page then Some(page[position]) else None);
    }

    /**
     * `setCell` (lines 45-54): the cell is stored in its level-1 page, which is created first when
     * missing; the result says whether the position was new. No other position changes, and only
     * the position's own page.
     */
    method SetCell(position: int, cell: CellState) returns (added: bool)
      requires Valid()
      modifies this
      ensures Valid()
      ensures Cell(position) == Some(cell)
      ensures forall p :: p != position ==> Cell(p) == old(Cell(p))
      ensures added <==> old(Cell(position)).None?
      ensures PageIndex(position, k) in pages
      ensures forall i :: i != PageIndex(position, k) ==>
                (i in pages <==> i in old(pages)) && (i in pages ==> pages[i] == old(pages)[i])
    {
      var index := PageIndex(position, k);
      var page := if index in pages then pages[index] else map[];
      added := position !in page;
      pages := pages[index := page[position := cell]];
    }

    /**
     * `removeCell` (lines 59-68): a position whose level-1 page is absent is a segmentation fault;
     * otherwise the cell is removed and the page dropped once empty. No other position changes,
     * and only the position's own page.
     */
    method RemoveCell(position: int) returns (r: Outcome<AnalyzerError>)
      requires Valid()
      modifies this
      ensures Valid()
      ensures old(PageIndex(position, k) !in pages) <==> r == Fail(HeapSegmentationFault)
      ensures r.Fail? ==> pages == old(pages)
      ensures Cell(position).None?
      ensures forall p :: p != position ==> Cell(p) == old(Cell(p))
      ensures forall i :: i != PageIndex(position, k) ==>
                (i in pages <==> i in old(pages)) && (i in pages ==> pages[i] == old(pages)[i])
    {
      var index := PageIndex(position, k);
      if index !in pages {
        return Fail(HeapSegmentationFault);
      }
      var page := pages[index] - {position};
      if |page| == 0 {
        pages := pages - {index};
      } else {
        pages := pages[index := page];
      }
      r := Pass;
    }
  }
}
