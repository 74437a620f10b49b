/**
 * A heap cell of a memory generation (analyzer/memory/BigNodeCell.kt). A cell whose value is
 * absent is freed; a freed cell's `referenceCount` holds the position of the next free cell, so
 * the free list is threaded through the freed cells themselves.
 */
module Cells {
  import opened Wrappers
  import opened Values
  import opened Errors

  /** A snapshot of a cell's fields. */
  datatype CellState = CellState(position: int, referenceCount: int, value: Option<Referenced>)

  /** `isFreed`: the cell holds no value. */
  predicate IsFreed(s: CellState) {
    s.value.None?
  }

  /** The cell `new(position, value)` yields: that position and value, no references. */
  function NewCell(position: int, value: Option<Referenced>): (r: CellState)
    ensures r.position == position && r.value == value && r.referenceCount == 0
  {
    CellState(position, 0, value)
  }

  /** `reallocCell`: the cell holds `value` again, with no references. */
  function Realloc(s: CellState, value: Referenced): (r: CellState)
    ensures !IsFreed(r) && r.value.value == value && r.referenceCount == 0 && r.position == s.position
  {
    s.(referenceCount := 0, value := Some(value))
  }

  /**
   * `freeCell`: the freed cell, whose reference count now holds the free-list head `freeHead`.
   * Outside garbage-collection mode, freeing a freed cell is a segmentation fault and freeing a
   * referenced cell is an error; inside it, both are allowed and a freed cell stays as it is.
   */
  function FreeState(s: CellState, gcMode: bool, freeHead: int): (r: Result<CellState, AnalyzerError>)
    ensures r.Failure? <==> !gcMode && (IsFreed(s) || s.referenceCount > 0)
    ensures r.Failure? ==> r.error == if IsFreed(s) then HeapSegmentationFault else ReferencedHeapCellFreed
    ensures r.Success? ==> IsFreed(r.value) && r.value.position == s.position
    ensures r.Success? && !IsFreed(s) ==> r.value.referenceCount == freeHead
    ensures r.Success? && IsFreed(s) ==> r.value == s
  {
    if IsFreed(s) then
      if gcMode then Success(s) else Failure(HeapSegmentationFault)
    else if s.referenceCount > 0 && !gcMode then
      Failure(ReferencedHeapCellFreed)
    else
      Success(s.(value := None, referenceCount := freeHead))
  }

  /** `increaseReferences`: `count` more references to a live cell; a freed cell is a segmentation fault. */
  function Increase(s: CellState, count: int): (r: Result<CellState, AnalyzerError>)
    ensures r.Failure? <==> IsFreed(s)
    ensures r.Failure? ==> r.error == HeapSegmentationFault
    ensures r.Success? ==> (&& r.value.referenceCount - s.referenceCount == count
                            && r.value.value == s.value && r.value.position == s.position)
  {
    if IsFreed(s) then Failure(HeapSegmentationFault) else Success(s.(referenceCount := s.referenceCount + count))
  }

  /**
   * `decreaseReferences`: the cell after dropping `count` references, and whether the count
   * reached exactly zero (the caller then frees the cell). A freed cell is left alone, silently in
   * garbage-collection mode and with a segmentation fault outside it. Going below zero is an
   * underflow, raised after the new count has been written.
   */
  function Decrease(s: CellState, gcMode: bool, count: int): (r: (CellState, Result<bool, AnalyzerError>))
    ensures IsFreed(s) ==> r.0 == s && r.1 == if gcMode then Success(false) else Failure(HeapSegmentationFault)
    ensures !IsFreed(s) ==> (&& r.0.referenceCount == s.referenceCount - count
                             && r.0.value == s.value && r.0.position == s.position)
    ensures !IsFreed(s) ==> (r.1 == Failure(ReferenceCountUnderflow) <==> r.0.referenceCount < 0)
    ensures !IsFreed(s) ==> (r.1 == Success(true) <==> r.0.referenceCount == 0)
  {
    if IsFreed(s) then
      (s, if gcMode then Success(false) else Failure(HeapSegmentationFault))
    else
      var t := s.(referenceCount := s.referenceCount - count);
      (t, if t.referenceCount < 0 then Failure(ReferenceCountUnderflow) else Success(t.referenceCount == 0))
  }

  /** A cell object: its fields are rewritten in place by the operations below. */
  class BigNodeCell {
    var position: int
    var referenceCount: int
    var value: Option<Referenced>

    function State(): CellState
      reads this
    {
      CellState(position, referenceCount, value)
    }

    /** `new`: a cell for `position` holding `value`, with no references. */
    constructor New(position: int, value: Option<Referenced>)
      ensures State() == NewCell(position, value)
    {
      this.position := position;
      this.referenceCount := 0;
      this.value := value;
    }

    /** `destroy`: the cell forgets its position, references and value before going back to the pool. */
    method Destroy()
      modifies this
      ensures State() == CellState(-1, 0, None)
    {
      position := -1;
      referenceCount := 0;
      value := None;
    }

    /** `shiftCell`: a distinct copy of this cell, with the same position, reference count and value. */
    method ShiftCell() returns (cell: BigNodeCell)
      ensures fresh(cell) && cell.State() == State()
    {
      cell := new BigNodeCell.New(position, value);
      cell.referenceCount := referenceCount;
    }

    /** `reallocCell`: reuse this cell for `value`, with no references. */
    method ReallocCell(value: Referenced)
      modifies this
      ensures State() == Realloc(old(State()), value)
    {
      referenceCount := 0;
      this.value := Some(value);
    }

    /** `setValue`, used by the generation's `setCell`: install `value`, keeping the references. */
    method SetValue(value: Referenced)
      modifies this
      ensures State() == old(State()).(value := Some(value))
    {
      this.value := Some(value);
    }

    /** `freeCell`, with `freeHead` the current generation's `lastFreePosition`. */
    method FreeCell(gcMode: bool, freeHead: int) returns (r: Outcome<AnalyzerError>)
      modifies this
      ensures FreeState(old(State()), gcMode, freeHead).Failure? ==>
                unchanged(this) && r == Fail(FreeState(old(State()), gcMode, freeHead).error)
      ensures FreeState(old(State()), gcMode, freeHead).Success? ==>
                r == Pass && State() == FreeState(old(State()), gcMode, freeHead).value
    {
      if value.None? {
        if gcMode {
          return Pass;
        }
        return Fail(HeapSegmentationFault);
      }
      if referenceCount > 0 && !gcMode {
        return Fail(ReferencedHeapCellFreed);
      }
      value := None;
      referenceCount := freeHead;
      r := Pass;
    }

    /** `increaseReferences`. */
    method IncreaseReferences(count: int) returns (r: Outcome<AnalyzerError>)
      modifies this
      ensures Increase(old(State()), count).Failure? ==>
                unchanged(this) && r == Fail(Increase(old(State()), count).error)
      ensures Increase(old(State()), count).Success? ==>
                r == Pass && State() == Increase(old(State()), count).value
    {
      if value.None? {
        return Fail(HeapSegmentationFault);
      }
      referenceCount := referenceCount + count;
      r := Pass;
    }

    /** `decreaseReferences`; the freeing of a cell whose count reaches zero is left to the caller. */
    method DecreaseReferences(gcMode: bool, count: int) returns (r: Result<bool, AnalyzerError>)
      modifies this
      ensures (State(), r) == Decrease(old(State()), gcMode, count)
    {
      if value.None? {
        if gcMode {
          return Success(false);
        }
        return Failure(HeapSegmentationFault);
      }
      referenceCount := referenceCount - count;
      if referenceCount < 0 {
        return Failure(ReferenceCountUnderflow);
      }
      r := Success(referenceCount == 0);
    }
  }
}
