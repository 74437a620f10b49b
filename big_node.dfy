/**
 * A memory generation (analyzer/memory/BigNode.kt): a differential snapshot of the heap and
 * the stack. Each generation stores only the cells and stack levels changed since its
 * predecessor; reads fall through `previous`, writes first copy ("shift") the cell or level into
 * the newest generation. The cumulative counters describe the whole resolved memory.
 */
module BigNodes {
  import opened Wrappers
  import opened Values
  import opened Errors
  import opened StackLevels
  import opened Cells
  import opened FreeLists

  /**
   * Memory constants that are parameters of the model: the hop distance from which a read copies
   * the cell forward, the initial collection threshold, and the threshold growth factor as a fraction.
   */
  datatype Config = Config(maxDistanceToShift: int, initialThreshold: int, growthNumerator: int, growthDenominator: int)
  {
    predicate Valid() {
      initialThreshold > 0 && 0 < growthDenominator < growthNumerator
    }
  }

  /**
   * `freeSpacePercentage >= minimumFreeSpace`: at least 20% of `max(heapSize, threshold)` cells
   * are not in use, compared exactly rather than in floating point.
   */
  predicate EnoughFreeSpace(c: HeapCounters, threshold: int) {
    5 * c.usedCellCount <= 4 * (if c.heapSize >= threshold then c.heapSize else threshold)
  }

  /** The grown collection threshold: the factor applied and the result truncated. */
  function Grow(threshold: int, config: Config): int
    requires config.Valid()
  {
    threshold * config.growthNumerator / config.growthDenominator
  }

  lemma {:induction false} Distribute(a: int, b: int, c: int)
    ensures a * (b - c) == a * b - a * c
  {
  }

  lemma {:induction false} ProductNonNegative(a: int, b: int)
    requires a >= 0 && b >= 0
    ensures a * b >= 0
  {
  }

  /** Growing never lowers the threshold, so it stays positive. */
  lemma {:induction false} GrowKeepsPositive(threshold: int, config: Config)
    requires config.Valid() && threshold > 0
    ensures Grow(threshold, config) >= threshold
  {
    var n, d := config.growthNumerator, config.growthDenominator;
    var q, r := threshold * n / d, threshold * n % d;
    assert threshold * n == d * q + r && r < d;
    Distribute(threshold, n, d);
    ProductNonNegative(threshold, n - d);
    if q < threshold {
      Distribute(d, threshold, q + 1);
      ProductNonNegative(d, threshold - (q + 1));
      assert false;
    }
  }

  /**
   * After sweeping the positions below `i` of a heap of `heapSize` cells: below `i`, exactly the
   * unmarked and the already freed cells are freed, and every cell not freed by the sweep is as it
   * was; from `i` on, nothing has changed.
   */
  ghost predicate Swept(original: map<int, CellState>, swept: map<int, CellState>, marked: set<int>, i: int, heapSize: int) {
    && 0 <= i <= heapSize
    && (forall p :: 0 <= p < heapSize ==> p in original && p in swept)
    && (forall p :: 0 <= p < i ==> (IsFreed(swept[p]) <==> p !in marked || IsFreed(original[p])))
    && (forall p :: 0 <= p < i && (p in marked || IsFreed(original[p])) ==> swept[p] == original[p])
    && (forall p :: i <= p < heapSize ==> swept[p] == original[p])
  }

  /** One step of the sweep: position `i` is freed when unmarked and left alone when marked. */
  lemma {:induction false} SweepStep(original: map<int, CellState>, before: map<int, CellState>, after: map<int, CellState>,
                  marked: set<int>, i: int, heapSize: int)
    requires 0 <= i < heapSize && Swept(original, before, marked, i, heapSize)
    requires i in marked || IsFreed(before[i]) ==> after == before
    requires i !in marked ==> i in after && IsFreed(after[i]) && after == before[i := after[i]]
    ensures Swept(original, after, marked, i + 1, heapSize)
  {
  }

  /** All the cumulative counters and flags of a generation. */
  datatype Counters = Counters(stackLevelSize: int, stackSize: int, heap: HeapCounters,
                               garbageThreshold: int, garbageCollectorMark: bool)

  /** Writing into the overriding layer is writing into the union. */
  lemma {:induction false} OverrideUpdate<T>(base: map<int, T>, local: map<int, T>, p: int, v: T)
    ensures (base + local)[p := v] == base + local[p := v]
  {
  }

  /** Writing back the value a map already holds leaves it unchanged. */
  lemma {:induction false} UpdateSame<T>(m: map<int, T>, k: int)
    requires k in m
    ensures m[k := m[k]] == m
  {
  }

  /** The first `count` levels of a level map, as a stack. */
  function Resolve(levels: map<int, Level>, count: int): (r: Levels)
    requires forall i :: 0 <= i < count ==> i in levels
    ensures |r| == if count < 0 then 0 else count
    ensures forall i :: 0 <= i < |r| ==> r[i] == levels[i]
    decreases count
  {
    if count <= 0 then [] else Resolve(levels, count - 1) + [levels[count - 1]]
  }

  /** Level maps that agree below `count` resolve to the same stack. */
  lemma {:induction false} ResolveAgree(a: map<int, Level>, b: map<int, Level>, count: int)
    requires forall i :: 0 <= i < count ==> i in a && i in b && a[i] == b[i]
    ensures Resolve(a, count) == Resolve(b, count)
  {
    var ra, rb := Resolve(a, count), Resolve(b, count);
    assert |ra| == |rb|;
    forall i | 0 <= i < |ra|
      ensures ra[i] == rb[i]
    {
    }
  }

  /** Rewriting a level below `count` rewrites that element of the resolved stack. */
  lemma {:induction false} ResolveSet(levels: map<int, Level>, count: int, i: int, level: Level)
    requires forall j :: 0 <= j < count ==> j in levels
    requires 0 <= i < count
    ensures Resolve(levels[i := level], count) == Resolve(levels, count)[i := level]
  {
    var a, b := Resolve(levels[i := level], count), Resolve(levels, count)[i := level];
    assert |a| == |b|;
    forall j | 0 <= j < |a|
      ensures a[j] == b[j]
    {
    }
  }

  /** Writing the level at index `count` and counting it pushes it on the resolved stack. */
  lemma {:induction false} ResolveExtend(levels: map<int, Level>, count: int, level: Level)
    requires forall j :: 0 <= j < count ==> j in levels
    requires 0 <= count
    ensures Resolve(levels[count := level], count + 1) == Resolve(levels, count) + [level]
  {
    var a, b := Resolve(levels[count := level], count + 1), Resolve(levels, count) + [level];
    assert |a| == |b|;
    forall j | 0 <= j < |a|
      ensures a[j] == b[j]
    {
    }
  }

  /**
   * The resolved stack is well formed: the first `count` levels are all present, the top one is
   * not empty, and `size` counts their bindings.
   */
  ghost predicate StackOk(levels: map<int, Level>, count: int, size: int) {
    && 0 <= count
    && (forall i :: 0 <= i < count ==> i in levels)
    && WellFormed(Resolve(levels, count))
    && size == Size(Resolve(levels, count))
  }

  /** The level `addToStack` writes, at the index it picks, resolves to `Push`. */
  lemma {:induction false} PushLevel(levels: map<int, Level>, count: int, size: int, name: string, value: Primitive,
                  index: int, level: Level, levelCount: int)
    requires StackOk(levels, count, size)
    requires count == 0 ==> index == 0 && level == map[name := value] && levelCount == 1
    requires count > 0 && name in levels[count - 1] ==>
               index == count && level == map[name := value] && levelCount == count + 1
    requires count > 0 && name !in levels[count - 1] ==>
               index == count - 1 && level == levels[count - 1][name := value] && levelCount == count
    ensures StackOk(levels[index := level], levelCount, size + 1)
    ensures Resolve(levels[index := level], levelCount) == Push(Resolve(levels, count), name, value)
  {
    var after := levels[index := level];
    if count == 0 || name in levels[count - 1] {
      ResolveOnTop(levels, count, name, value, index, level, levelCount);
    } else {
      ResolveIntoTop(levels, count, name, value, index, level, levelCount);
    }
    var pushed := Push(Resolve(levels, count), name, value);
    PushSpec(Resolve(levels, count), name, value, name);
    LevelsPresent(levels, after, count, index, level, levelCount);
    StackOkOf(after, levelCount, size + 1, pushed);
  }

  /** A level map is a well-formed stack when its first `count` levels are present and resolve to one. */
  lemma {:induction false} StackOkOf(levels: map<int, Level>, count: int, size: int, view: Levels)
    requires 0 <= count && forall i :: 0 <= i < count ==> i in levels
    requires Resolve(levels, count) == view && WellFormed(view) && Size(view) == size
    ensures StackOk(levels, count, size)
  {
  }

  /** Writing level `index`, at most one past the present ones, keeps the first `levelCount` levels present. */
  lemma {:induction false} LevelsPresent(levels: map<int, Level>, after: map<int, Level>, count: int, index: int,
                                         level: Level, levelCount: int)
    requires forall i :: 0 <= i < count ==> i in levels
    requires after == levels[index := level]
    requires levelCount <= count + 1 && (levelCount == count + 1 ==> index == count)
    ensures forall i :: 0 <= i < levelCount ==> i in after
  {
  }

  /** With no level, or a top level already binding the name, a new level holding the binding is pushed. */
  lemma {:induction false} ResolveOnTop(levels: map<int, Level>, count: int, name: string, value: Primitive,
                                        index: int, level: Level, levelCount: int)
    requires 0 <= count && forall i :: 0 <= i < count ==> i in levels
    requires count == 0 || name in levels[count - 1]
    requires index == count && level == map[name := value] && levelCount == count + 1
    ensures Resolve(levels[index := level], levelCount) == Push(Resolve(levels, count), name, value)
  {
    var view := Resolve(levels, count);
    if count > 0 {
      assert Top(view) == levels[count - 1];
    }
    ResolveExtend(levels, count, level);
  }

  /** Binding a name the top level lacks, in that level, pushes it on the resolved stack. */
  lemma {:induction false} ResolveIntoTop(levels: map<int, Level>, count: int, name: string, value: Primitive,
                                          index: int, level: Level, levelCount: int)
    requires 0 < count && (forall i :: 0 <= i < count ==> i in levels) && name !in levels[count - 1]
    requires index == count - 1 && level == levels[count - 1][name := value] && levelCount == count
    ensures Resolve(levels[index := level], levelCount) == Push(Resolve(levels, count), name, value)
  {
    var view := Resolve(levels, count);
    assert Top(view) == levels[count - 1];
    ResolveSet(levels, count, index, level);
    assert view[index := level] == Below(view) + [level];
  }

  /**
   * The cells after `getCell(position, forceShift = true).increaseReferences(count)`: a
   * segmentation fault at or past the heap size, an unreachable position below it, or the cell's
   * own `increaseReferences`.
   */
  function IncreaseAt(cells: map<int, CellState>, heapSize: int, position: int, count: int)
    : (r: Result<map<int, CellState>, AnalyzerError>)
    ensures r.Success? <==> 0 <= position < heapSize && position in cells && !IsFreed(cells[position])
    ensures r.Success? ==> r.value.Keys == cells.Keys
    ensures r.Success? ==> forall p | p in cells && p != position :: r.value[p] == cells[p]
  {
    if position >= heapSize then Failure(HeapSegmentationFault)
    else if position < 0 || position !in cells then Failure(Unreachable)
    else match Increase(cells[position], count)
      case Failure(e) => Failure(e)
      case Success(s) => Success(cells[position := s])
  }

  /** Popping empty levels stops below the first non-empty one. */
  lemma {:induction false} PopEmptyLevelsTo(levels: Levels, n: int)
    requires 0 <= n <= |levels|
    requires forall k :: n <= k < |levels| ==> levels[k] == map[]
    requires n == 0 || levels[n - 1] != map[]
    ensures PopEmptyLevels(levels) == levels[..n]
    decreases |levels|
  {
    if n < |levels| {
      assert Top(levels) == map[];
      PopEmptyLevelsTo(Below(levels), n);
      assert Below(levels)[..n] == levels[..n];
    } else {
      assert levels[..n] == levels;
    }
  }

  /**
   * The levels `removeFromStack` keeps once level `i` of `updated` has lost a binding: when that
   * emptied the top level, it and the empty levels below it are popped.
   */
  function Trim(updated: Levels, i: int): (r: Levels)
    ensures |r| <= |updated| && r == updated[..|r|]
  {
    if 0 <= i == |updated| - 1 && updated[i] == map[] then PopEmptyLevels(updated) else updated
  }

  /**
   * Levels that agree with what `Remove` leaves behind satisfy the stack invariant with one
   * binding fewer, and resolve to it.
   */
  lemma {:induction false} RemoveLevels(view: Levels, name: string, i: int, levels: map<int, Level>, levelCount: int, size: int)
    requires WellFormed(view) && size == Size(view) && FindLevel(view, name) == Some(i)
    requires levelCount == |Trim(view[i := view[i] - {name}], i)|
    requires forall k :: 0 <= k < levelCount ==> k in levels && levels[k] == Trim(view[i := view[i] - {name}], i)[k]
    ensures Remove(view, name).Success?
    ensures StackOk(levels, levelCount, size - 1)
    ensures Resolve(levels, levelCount) == Remove(view, name).value.0
  {
    RemoveSpec(view, name, name);
    var after := Remove(view, name).value.0;
    assert after == Trim(view[i := view[i] - {name}], i);
    var resolved := Resolve(levels, levelCount);
    assert |resolved| == |after|;
    forall k | 0 <= k < levelCount
      ensures resolved[k] == after[k]
    {
    }
    assert resolved == after;
    assert WellFormed(after) && Size(after) == size - 1;
  }

  /** The level `replaceStackCell` writes resolves to `Replace`, with the same counters. */
  lemma {:induction false} ReplaceLevel(levels: map<int, Level>, count: int, size: int, name: string, value: Primitive, i: int)
    requires StackOk(levels, count, size)
    requires FindLevel(Resolve(levels, count), name) == Some(i)
    ensures StackOk(levels[i := levels[i][name := value]], count, size)
    ensures Resolve(levels[i := levels[i][name := value]], count)
            == Replace(Resolve(levels, count), name, value).value.0
  {
    var view := Resolve(levels, count);
    ResolveSet(levels, count, i, levels[i][name := value]);
    ReplaceSpec(view, name, value, name);
  }

  class BigNode {
    var previous: BigNode?
    /** The cells written in this generation. */
    var heap: map<int, CellState>
    /** The stack levels written in this generation, by level index. */
    var stackLevels: map<int, Level>
    var actualStackLevelSize: int
    var actualStackSize: int
    var actualHeapSize: int
    var actualUsedCellCount: int
    var lastFreePosition: int
    var garbageThreshold: int
    var garbageCollectorMark: bool
    const config: Config
    ghost var Repr: set<object>
    /** The resolved heap: this generation's cells over its predecessor's resolved heap. */
    ghost var cells: map<int, CellState>
    /** The resolved stack levels: this generation's levels over its predecessor's. */
    ghost var levels: map<int, Level>
    /** The free positions in free-list order. */
    ghost var freeChain: seq<int>

    ghost function HeapBase(): map<int, CellState>
      reads this`previous, previous
    {
      if previous == null then map[] else previous.cells
    }

    ghost function LevelBase(): map<int, Level>
      reads this`previous, previous
    {
      if previous == null then map[] else previous.levels
    }

    /**
     * The object structure: an acyclic chain of generations, each resolving its views as its own
     * entries over those of its predecessor.
     */
    ghost predicate Struct()
      reads this, Repr
      decreases Repr
    {
      && this in Repr
      && (previous != null ==>
            && previous in Repr && previous.Repr < Repr && this !in previous.Repr
            && previous.Struct())
      && cells == HeapBase() + heap
      && levels == LevelBase() + stackLevels
    }

    function HeapCounts(): HeapCounters
      reads this
    {
      HeapCounters(actualHeapSize, actualUsedCellCount, lastFreePosition)
    }

    function Counts(): Counters
      reads this
    {
      Counters(actualStackLevelSize, actualStackSize, HeapCounts(), garbageThreshold, garbageCollectorMark)
    }

    /** Everything a stack operation leaves alone: the chain, the heap and the collector state. */
    ghost function HeapSide(): (BigNode?, set<object>, map<int, CellState>, map<int, CellState>, HeapCounters, seq<int>, int, bool)
      reads this
    {
      (previous, Repr, heap, cells, HeapCounts(), freeChain, garbageThreshold, garbageCollectorMark)
    }

    /**
     * The invariant of the newest generation: the resolved heap is exactly `[0, actualHeapSize)`
     * with every cell in place, the free list threads exactly the freed cells, and the stack
     * counters agree with the resolved stack, whose top level is not empty.
     */
    ghost predicate Valid()
      reads this, Repr
    {
      && Struct()
      && config.Valid()
      && garbageThreshold > 0
      && HeapOk(cells, freeChain, HeapCounts())
      && StackOk(levels, actualStackLevelSize, actualStackSize)
    }

    /** The resolved stack: the first `actualStackLevelSize` resolved levels. */
    ghost function StackView(): Levels
      reads this, Repr
      requires Valid()
    {
      Resolve(levels, actualStackLevelSize)
    }

    /** The first generation (`BigNode(null, null)`): an empty heap and an empty stack. */
    constructor Root(config: Config)
      requires config.Valid()
      ensures Valid() && previous == null && this.config == config
      ensures heap == map[] && stackLevels == map[]
      ensures Counts() == Counters(0, 0, HeapCounters(0, 0, 0), config.initialThreshold, false)
      ensures cells == map[] && StackView() == [] && freeChain == []
    {
      this.previous := null;
      this.config := config;
      heap := map[];
      stackLevels := map[];
      garbageThreshold := config.initialThreshold;
      garbageCollectorMark := false;
      actualStackLevelSize := 0;
      actualStackSize := 0;
      actualHeapSize := 0;
      actualUsedCellCount := 0;
      lastFreePosition := 0;
      freeChain := [];
      cells := map[];
      levels := map[];
      Repr := {this};
      new;
      assert HeapBase() + heap == map[];
      assert LevelBase() + stackLevels == map[];
      EmptyHeap();
    }

    /**
     * A new generation on top of `previous`, with no local cells or levels, that inherits the
     * cumulative counters of `previous` (the collection threshold and mark start afresh) and so
     * resolves to the same heap and stack.
     */
    constructor Next(previous: BigNode, config: Config)
      requires previous.Valid()
      requires config.Valid()
      ensures Valid() && this.previous == previous && this.config == config
      ensures heap == map[] && stackLevels == map[]
      ensures Counts() == previous.Counts().(garbageThreshold := config.initialThreshold, garbageCollectorMark := false)
      ensures cells == previous.cells && StackView() == previous.StackView() && freeChain == previous.freeChain
    {
      this.previous := previous;
      this.config := config;
      heap := map[];
      stackLevels := map[];
      garbageThreshold := config.initialThreshold;
      garbageCollectorMark := false;
      actualStackLevelSize := previous.actualStackLevelSize;
      actualStackSize := previous.actualStackSize;
      actualHeapSize := previous.actualHeapSize;
      actualUsedCellCount := previous.actualUsedCellCount;
      lastFreePosition := previous.lastFreePosition;
      freeChain := previous.freeChain;
      cells := previous.cells;
      levels := previous.levels;
      Repr := {this} + previous.Repr;
      new;
      assert HeapBase() + heap == cells;
      assert LevelBase() + stackLevels == levels;
    }

    /** `getCellRecursive`: the nearest generation holding `position`, with the number of hops to it. */
    function GetCellRecursive(position: int, distance: int): (r: Option<(int, CellState)>)
      reads this, Repr
      requires Struct()
      decreases Repr
      ensures r.None? <==> position !in cells
      ensures r.Some? ==> r.value.1 == cells[position] && distance <= r.value.0
    {
      if position in heap then Some((distance, heap[position]))
      else if previous == null then None
      else previous.GetCellRecursive(position, distance + 1)
    }

    /** `getStackLevelRecursively`: the level at index `i` in the nearest generation holding one. */
    function GetStackLevelRecursively(i: int): (r: Option<Level>)
      reads this, Repr
      requires Struct()
      decreases Repr
      ensures r.None? <==> i !in levels
      ensures r.Some? ==> r.value == levels[i]
    {
      if i in stackLevels then Some(stackLevels[i])
      else if previous == null then None
      else previous.GetStackLevelRecursively(i)
    }

    /** Write one resolved cell into this generation. */
    method PutCell(position: int, s: CellState)
      requires Struct()
      modifies this
      ensures Struct() && heap == old(heap)[position := s] && cells == old(cells)[position := s]
      ensures previous == old(previous) && Repr == old(Repr) && Counts() == old(Counts())
      ensures stackLevels == old(stackLevels) && levels == old(levels) && freeChain == old(freeChain)
    {
      OverrideUpdate(HeapBase(), heap, position, s);
      heap := heap[position := s];
      cells := cells[position := s];
    }

    /** Overwrite the heap counters and the free list; the object structure does not read them. */
    method SetHeapCounts(c: HeapCounters, ghost chain: seq<int>)
      requires Struct()
      modifies this`actualHeapSize, this`actualUsedCellCount, this`lastFreePosition, this`freeChain
      ensures Struct() && HeapCounts() == c && freeChain == chain
    {
      actualHeapSize, actualUsedCellCount, lastFreePosition := c.heapSize, c.usedCellCount, c.lastFreePosition;
      freeChain := chain;
    }

    /**
     * Write one resolved cell and the heap counters together, given that the result satisfies the
     * heap invariant with free list `chain`.
     */
    method Commit(position: int, s: CellState, c: HeapCounters, ghost chain: seq<int>)
      requires Valid()
      requires HeapOk(cells[position := s], chain, c)
      modifies this
      ensures Valid() && heap == old(heap)[position := s] && cells == old(cells)[position := s]
      ensures HeapCounts() == c && freeChain == chain
      ensures previous == old(previous) && Repr == old(Repr) && stackLevels == old(stackLevels) && levels == old(levels)
      ensures Counts() == old(Counts()).(heap := c)
    {
      PutCell(position, s);
      SetHeapCounts(c, chain);
    }

    /**
     * `getCell`: the resolved cell at `position`. Positions at or past the heap size are a
     * segmentation fault; negative ones are found in no generation (AngmarUnreachableException).
     * A cell found in a predecessor is copied into this generation, unchanged, when `forceShift`
     * holds or it is at least `maxDistanceToShift` hops away; the resolved heap stays the same.
     */
    method GetCell(position: int, forceShift: bool) returns (r: Result<CellState, AnalyzerError>)
      requires Valid()
      modifies this
      ensures Valid() && cells == old(cells) && Counts() == old(Counts()) && freeChain == old(freeChain)
      ensures previous == old(previous) && Repr == old(Repr) && stackLevels == old(stackLevels) && levels == old(levels)
      ensures position >= actualHeapSize ==> r == Failure(HeapSegmentationFault) && heap == old(heap)
      ensures position < 0 ==> r == Failure(Unreachable) && heap == old(heap)
      ensures 0 <= position < actualHeapSize ==> r == Success(cells[position])
      ensures position in old(heap) ==> heap == old(heap)
      ensures r.Success? && position !in old(heap) ==>
                && previous != null
                && var (distance, _) := old(previous.GetCellRecursive(position, 1)).value;
                   heap == if forceShift || distance >= config.maxDistanceToShift
                           then old(heap)[position := r.value] else old(heap)
    {
      if position >= actualHeapSize {
        return Failure(HeapSegmentationFault);
      }
      if position in heap {
        return Success(heap[position]);
      }
      var found := if previous == null then None else previous.GetCellRecursive(position, 1);
      if found.None? {
        assert position !in cells;
        return Failure(Unreachable);
      }
      var (distance, cell) := found.value;
      if forceShift || distance >= config.maxDistanceToShift {
        PutCell(position, cell);
        assert cells == old(cells);
      }
      r := Success(cell);
    }

    /**
     * `setCell`: install `value` in the cell at `position`, shifted into this generation, keeping
     * its references. The invariant is kept when the cell was live.
     */
    method SetCell(position: int, value: Referenced) returns (r: Outcome<AnalyzerError>)
      requires Valid()
      modifies this
      ensures previous == old(previous) && Repr == old(Repr) && stackLevels == old(stackLevels) && levels == old(levels)
      ensures Struct() && Counts() == old(Counts()) && freeChain == old(freeChain)
      ensures position >= old(actualHeapSize) ==> r == Fail(HeapSegmentationFault) && cells == old(cells)
      ensures position < 0 ==> r == Fail(Unreachable) && cells == old(cells)
      ensures 0 <= position < old(actualHeapSize) ==>
                r == Pass && cells == old(cells)[position := old(cells)[position].(value := Some(value))]
      ensures r.Fail? || !IsFreed(old(cells)[position]) ==> Valid()
    {
      if position >= actualHeapSize {
        return Fail(HeapSegmentationFault);
      }
      var got := GetCell(position, true);
      if got.Failure? {
        return Fail(got.error);
      }
      var cell := got.value;
      if !IsFreed(cell) {
        UpdateLive(cells, freeChain, HeapCounts(), position, cell.(value := Some(value)));
        Commit(position, cell.(value := Some(value)), HeapCounts(), freeChain);
      } else {
        PutCell(position, cell.(value := Some(value)));
      }
      r := Pass;
    }

    /**
     * `alloc`: a cell holding `value`. With no free cell it is a new one at the end of the heap
     * (and the collector is requested when the heap has reached the threshold); otherwise the
     * head of the free list is reused, and the link it stored becomes the new head.
     */
    method Alloc(value: Referenced) returns (position: int)
      requires Valid()
      modifies this
      ensures Valid()
      ensures previous == old(previous) && Repr == old(Repr) && stackLevels == old(stackLevels) && levels == old(levels)
      ensures actualStackLevelSize == old(actualStackLevelSize) && actualStackSize == old(actualStackSize)
      ensures garbageThreshold == old(garbageThreshold)
      ensures old(lastFreePosition == actualHeapSize) ==>
                && position == old(actualHeapSize)
                && cells == old(cells)[position := NewCell(position, Some(value))]
                && HeapCounts() == HeapCounters(old(actualHeapSize) + 1, old(actualUsedCellCount) + 1, old(actualHeapSize) + 1)
                && garbageCollectorMark == (old(garbageCollectorMark) || old(actualHeapSize == garbageThreshold))
                && freeChain == old(freeChain)
      ensures old(lastFreePosition != actualHeapSize) ==>
                && position == old(lastFreePosition) && 0 <= position < actualHeapSize
                && IsFreed(old(cells)[position])
                && cells == old(cells)[position := Realloc(old(cells)[position], value)]
                && HeapCounts() == HeapCounters(old(actualHeapSize), old(actualUsedCellCount) + 1,
                                                old(cells)[position].referenceCount)
                && garbageCollectorMark == old(garbageCollectorMark)
                && freeChain == old(freeChain)[1..]
    {
      if lastFreePosition == actualHeapSize {
        if actualHeapSize == garbageThreshold {
          garbageCollectorMark := true;
        }
        position := lastFreePosition;
        AllocAtEnd(cells, freeChain, HeapCounts(), value);
        Commit(position, NewCell(position, Some(value)),
               HeapCounters(actualHeapSize + 1, actualUsedCellCount + 1, lastFreePosition + 1), freeChain);
        return;
      }
      position := lastFreePosition;
      HeadInHeap(cells, freeChain, HeapCounts());
      AllocReuse(cells, freeChain, HeapCounts(), value);
      var got := GetCell(position, true);
      if got.Failure? {
        assert false;
        return;
      }
      var cell := got.value;
      Commit(position, Realloc(cell, value), HeapCounters(actualHeapSize, actualUsedCellCount + 1, cell.referenceCount),
             freeChain[1..]);
    }

    /**
     * `free`: push the live cell at `position` on the free list; it stores the old head and
     * becomes the head. A freed cell is left alone. The cell's own checks apply: outside
     * garbage-collection mode a referenced cell cannot be freed.
     */
    method Free(position: int, gcMode: bool) returns (r: Outcome<AnalyzerError>)
      requires Valid()
      modifies this
      ensures previous == old(previous) && Repr == old(Repr) && stackLevels == old(stackLevels) && levels == old(levels)
      ensures Valid() && Counts().(heap := old(HeapCounts())) == old(Counts())
      ensures !(0 <= position < old(actualHeapSize)) ==>
                && r == Fail(if position < 0 then Unreachable else HeapSegmentationFault)
                && cells == old(cells) && HeapCounts() == old(HeapCounts())
      ensures 0 <= position < old(actualHeapSize) && IsFreed(old(cells)[position]) ==>
                r == Pass && cells == old(cells) && HeapCounts() == old(HeapCounts()) && freeChain == old(freeChain)
      ensures 0 <= position < old(actualHeapSize) && !IsFreed(old(cells)[position])
              && old(cells)[position].referenceCount > 0 && !gcMode ==>
                r == Fail(ReferencedHeapCellFreed) && cells == old(cells) && HeapCounts() == old(HeapCounts())
                && freeChain == old(freeChain)
      ensures 0 <= position < old(actualHeapSize) && !IsFreed(old(cells)[position])
              && (old(cells)[position].referenceCount <= 0 || gcMode) ==>
                && r == Pass
                && cells == old(cells)[position := old(cells)[position].(value := None, referenceCount := old(lastFreePosition))]
                && HeapCounts() == HeapCounters(old(actualHeapSize), old(actualUsedCellCount) - 1, position)
                && freeChain == [position] + old(freeChain)
      ensures gcMode && 0 <= position < old(actualHeapSize) ==>
                r == Pass && IsFreed(cells[position]) && cells == old(cells)[position := cells[position]]
    {
      var got := GetCell(position, false);
      if got.Failure? {
        return Fail(got.error);
      }
      if IsFreed(got.value) {
        return Pass;
      }
      got := GetCell(position, true);
      var freed := FreeState(got.value, gcMode, lastFreePosition);
      if freed.Failure? {
        return Fail(freed.error);
      }
      FreeLive(cells, freeChain, HeapCounts(), position);
      Commit(position, freed.value, HeapCounters(actualHeapSize, actualUsedCellCount - 1, freed.value.position),
             [position] + freeChain);
      r := Pass;
    }

    /** `increaseReferences` on the cell at `position`, shifted into this generation. */
    method IncreaseReferences(position: int, count: int) returns (r: Outcome<AnalyzerError>)
      requires Valid()
      modifies this
      ensures previous == old(previous) && Repr == old(Repr) && stackLevels == old(stackLevels) && levels == old(levels)
      ensures Valid() && Counts() == old(Counts()) && freeChain == old(freeChain)
      ensures match IncreaseAt(old(cells), old(actualHeapSize), position, count)
              case Failure(e) => r == Fail(e) && cells == old(cells)
              case Success(after) => r == Pass && cells == after
    {
      var got := GetCell(position, true);
      if got.Failure? {
        return Fail(got.error);
      }
      var increased := Increase(got.value, count);
      if increased.Failure? {
        return Fail(increased.error);
      }
      UpdateLive(cells, freeChain, HeapCounts(), position, increased.value);
      Commit(position, increased.value, HeapCounts(), freeChain);
      r := Pass;
    }

    /**
     * `decreaseReferences` on the cell at `position`, shifted into this generation; when the count
     * reaches exactly zero the cell is freed in this generation.
     */
    method DecreaseReferences(position: int, gcMode: bool, count: int) returns (r: Outcome<AnalyzerError>)
      requires Valid()
      modifies this
      ensures previous == old(previous) && Repr == old(Repr) && stackLevels == old(stackLevels) && levels == old(levels)
      ensures Valid() && Counts().(heap := old(HeapCounts())) == old(Counts())
      ensures !(0 <= position < old(actualHeapSize)) ==> r.Fail? && cells == old(cells) && HeapCounts() == old(HeapCounts())
      ensures 0 <= position < old(actualHeapSize) ==>
                var (s, outcome) := Decrease(old(cells)[position], gcMode, count);
                match outcome
                case Failure(e) =>
                  r == Fail(e) && cells == old(cells)[position := s] && HeapCounts() == old(HeapCounts())
                case Success(false) =>
                  r == Pass && cells == old(cells)[position := s] && HeapCounts() == old(HeapCounts())
                  && freeChain == old(freeChain)
                case Success(true) =>
                  && r == Pass
                  && cells == old(cells)[position := s.(value := None, referenceCount := old(lastFreePosition))]
                  && HeapCounts() == HeapCounters(old(actualHeapSize), old(actualUsedCellCount) - 1, position)
                  && freeChain == [position] + old(freeChain)
    {
      var outcome := DecreaseCell(position, gcMode, count);
      if outcome.Failure? {
        return Fail(outcome.error);
      }
      if outcome.value {
        assert 0 <= position < actualHeapSize && !IsFreed(cells[position]) && cells[position].referenceCount == 0;
        r := Free(position, gcMode);
      } else {
        r := Pass;
      }
    }

    /** The reference-count update of `decreaseReferences`, before any freeing. */
    method DecreaseCell(position: int, gcMode: bool, count: int) returns (outcome: Result<bool, AnalyzerError>)
      requires Valid()
      modifies this
      ensures previous == old(previous) && Repr == old(Repr) && stackLevels == old(stackLevels) && levels == old(levels)
      ensures Valid() && Counts() == old(Counts()) && freeChain == old(freeChain)
      ensures !(0 <= position < old(actualHeapSize)) ==> outcome.Failure? && cells == old(cells)
      ensures 0 <= position < old(actualHeapSize) ==>
                && (cells[position], outcome) == Decrease(old(cells)[position], gcMode, count)
                && cells == old(cells)[position := cells[position]]
    {
      var got := GetCell(position, true);
      if got.Failure? {
        return Failure(got.error);
      }
      var (after, o) := Decrease(got.value, gcMode, count);
      outcome := o;
      if !IsFreed(got.value) {
        UpdateLive(cells, freeChain, HeapCounts(), position, after);
        Commit(position, after, HeapCounts(), freeChain);
      } else {
        assert cells == old(cells)[position := after];
      }
    }

    // -------------------------------------------------------------------------
    // The stack

    /** Write one resolved stack level into this generation. */
    method PutLevel(i: int, level: Level)
      requires Struct()
      modifies this
      ensures Struct() && stackLevels == old(stackLevels)[i := level] && levels == old(levels)[i := level]
      ensures HeapSide() == old(HeapSide()) && Counts() == old(Counts())
    {
      OverrideUpdate(LevelBase(), stackLevels, i, level);
      stackLevels := stackLevels[i := level];
      levels := levels[i := level];
    }

    /** Remove this generation's own level `i`; every other resolved level stays as it was. */
    method DropLevel(i: int)
      requires Struct()
      modifies this
      ensures Struct() && stackLevels == old(stackLevels) - {i}
      ensures HeapSide() == old(HeapSide()) && Counts() == old(Counts())
      ensures forall j | j != i && j in old(levels) :: j in levels && levels[j] == old(levels)[j]
    {
      stackLevels := stackLevels - {i};
      levels := LevelBase() + stackLevels;
    }

    /** Overwrite the stack counters; the object structure does not read them. */
    method SetStackCounts(levelCount: int, size: int)
      requires Struct()
      modifies this
      ensures Struct() && actualStackLevelSize == levelCount && actualStackSize == size
      ensures HeapSide() == old(HeapSide()) && stackLevels == old(stackLevels) && levels == old(levels)
    {
      actualStackLevelSize, actualStackSize := levelCount, size;
    }

    /**
     * The downward search shared by `getFromStack`, `removeFromStack` and `replaceStackCell`:
     * the index of the topmost resolved level binding `name`.
     */
    method FindStackLevel(name: string) returns (r: Option<int>)
      requires Valid()
      ensures r == FindLevel(StackView(), name)
    {
      ghost var view := StackView();
      var i := actualStackLevelSize - 1;
      while i >= 0
        invariant -1 <= i < |view|
        invariant forall j :: i < j < |view| ==> name !in view[j]
      {
        var level := GetStackLevelRecursively(i).value;
        assert level == view[i];
        if name in level {
          FindLevelAt(view, name, i);
          return Some(i);
        }
        i := i - 1;
      }
      assert FindLevel(view, name).None?;
      return None;
    }

    /**
     * `getFromStack`: the topmost binding of `name` in the resolved stack, or StackNotFoundElement.
     * (This is the corrected reading; the source's fallback into the predecessor is
     * `GetFromStackAsWritten`.)
     */
    method GetFromStack(name: string) returns (r: Result<Primitive, AnalyzerError>)
      requires Valid()
      ensures r == match Lookup(StackView(), name)
                   case Some(v) => Success(v)
                   case None => Failure(StackNotFoundElement)
    {
      var found := FindStackLevel(name);
      if found.None? {
        return Failure(StackNotFoundElement);
      }
      var level := GetStackLevelRecursively(found.value).value;
      r := Success(level[name]);
    }

    /**
     * `addToStack`: bind `name` to `value` in the top level (copied into this generation), or in a
     * new level when the top level already binds `name`; with no level at all, level 0 is opened.
     */
    method AddToStack(name: string, value: Primitive)
      requires Valid()
      modifies this
      ensures Valid() && StackView() == Push(old(StackView()), name, value)
      ensures actualStackSize == old(actualStackSize) + 1
      ensures previous == old(previous) && Repr == old(Repr) && heap == old(heap) && cells == old(cells)
      ensures HeapCounts() == old(HeapCounts()) && freeChain == old(freeChain)
      ensures garbageThreshold == old(garbageThreshold) && garbageCollectorMark == old(garbageCollectorMark)
    {
      var (index, level, levelCount) := PlanPush(name, value);
      PushLevel(levels, actualStackLevelSize, actualStackSize, name, value, index, level, levelCount);
      PutLevel(index, level);
      SetStackCounts(levelCount, actualStackSize + 1);
    }

    /**
     * The level `addToStack` writes and where: the top level extended with the binding, or a new
     * level holding only it when the top level already binds `name` (or there is no level).
     */
    function PlanPush(name: string, value: Primitive): (r: (int, Level, int))
      reads this, Repr
      requires Struct() && StackOk(levels, actualStackLevelSize, actualStackSize)
      ensures actualStackLevelSize == 0 ==> r == (0, map[name := value], 1)
      ensures actualStackLevelSize > 0 && name in levels[actualStackLevelSize - 1] ==>
                r == (actualStackLevelSize, map[name := value], actualStackLevelSize + 1)
      ensures actualStackLevelSize > 0 && name !in levels[actualStackLevelSize - 1] ==>
                r == (actualStackLevelSize - 1, levels[actualStackLevelSize - 1][name := value], actualStackLevelSize)
    {
      var count := actualStackLevelSize;
      // No resolved level has a negative index, so the source's lookup of level -1 on an empty
      // stack always misses; it is not performed.
      var top := if count == 0 then None else GetStackLevelRecursively(count - 1);
      if top.None? then (0, map[name := value], count + 1)
      else if name in top.value then (count, map[name := value], count + 1)
      else (count - 1, top.value[name := value], count)
    }

    /**
     * `removeFromStack`: remove the topmost binding of `name`, copying its level into this
     * generation; when that empties the top level, it and the empty levels below it are dropped.
     */
    method RemoveFromStack(name: string) returns (r: Outcome<AnalyzerError>)
      requires Valid()
      modifies this
      ensures Valid()
      ensures previous == old(previous) && Repr == old(Repr) && heap == old(heap) && cells == old(cells)
      ensures HeapCounts() == old(HeapCounts()) && freeChain == old(freeChain)
      ensures garbageThreshold == old(garbageThreshold) && garbageCollectorMark == old(garbageCollectorMark)
      ensures match Remove(old(StackView()), name)
              case Failure(e) =>
                && r == Fail(e) && stackLevels == old(stackLevels) && levels == old(levels)
                && actualStackLevelSize == old(actualStackLevelSize) && actualStackSize == old(actualStackSize)
              case Success((after, _)) =>
                r == Pass && StackView() == after && actualStackSize == old(actualStackSize) - 1
    {
      var found := FindStackLevel(name);
      if found.None? {
        return Fail(StackNotFoundElement);
      }
      RemoveAt(name, found.value);
      r := Pass;
    }

    /** `removeFromStack` once the search has found the topmost binding of `name` in level `i`. */
    method RemoveAt(name: string, i: int)
      requires Valid() && FindLevel(StackView(), name) == Some(i)
      modifies this
      ensures Valid()
      ensures previous == old(previous) && Repr == old(Repr) && heap == old(heap) && cells == old(cells)
      ensures HeapCounts() == old(HeapCounts()) && freeChain == old(freeChain)
      ensures garbageThreshold == old(garbageThreshold) && garbageCollectorMark == old(garbageCollectorMark)
      ensures Remove(old(StackView()), name).Success?
      ensures StackView() == Remove(old(StackView()), name).value.0 && actualStackSize == old(actualStackSize) - 1
    {
      ghost var view := StackView();
      var level := GetStackLevelRecursively(i).value - {name};
      ResolveSet(levels, actualStackLevelSize, i, level);
      PutLevel(i, level);
      var levelCount := TrimLevels(view[i := level], i, level, actualStackLevelSize);
      RemoveLevels(view, name, i, levels, levelCount, actualStackSize);
      SetStackCounts(levelCount, actualStackSize - 1);
      assert Struct();
      assert HeapOk(cells, freeChain, HeapCounts());
      assert StackOk(levels, actualStackLevelSize, actualStackSize);
    }

    /**
     * `replaceStackCell`: rebind the topmost binding of `name` to `newValue` in place (its level
     * copied into this generation). A reference gains one reference on its heap cell first; if that
     * fails the stack is left as it was.
     */
    method ReplaceStackCell(name: string, newValue: Primitive) returns (r: Outcome<AnalyzerError>)
      requires Valid()
      modifies this
      ensures Valid()
      ensures previous == old(previous) && Repr == old(Repr) && Counts() == old(Counts()) && freeChain == old(freeChain)
      ensures Lookup(old(StackView()), name).None? ==> r == Fail(StackNotFoundElement)
      ensures Lookup(old(StackView()), name).Some? && newValue.Reference?
              && IncreaseAt(old(cells), old(actualHeapSize), newValue.position, 1).Failure? ==>
                r == Fail(IncreaseAt(old(cells), old(actualHeapSize), newValue.position, 1).error)
      ensures r.Fail? ==> cells == old(cells) && StackView() == old(StackView())
      ensures r.Pass? <==> Lookup(old(StackView()), name).Some?
                           && (newValue.Reference? ==> IncreaseAt(old(cells), old(actualHeapSize), newValue.position, 1).Success?)
      ensures r.Pass? ==>
                && StackView() == Replace(old(StackView()), name, newValue).value.0
                && cells == if newValue.Reference?
                            then IncreaseAt(old(cells), old(actualHeapSize), newValue.position, 1).value
                            else old(cells)
    {
      ghost var view := StackView();
      ReplaceSpec(view, name, newValue, name);
      var found := FindStackLevel(name);
      if found.None? {
        return Fail(StackNotFoundElement);
      }
      var i := found.value;
      var level := GetStackLevelRecursively(i).value;
      if i !in stackLevels {
        UpdateSame(levels, i);
        PutLevel(i, level);
      }
      if newValue.Reference? {
        var increased := IncreaseReferences(newValue.position, 1);
        if increased.Fail? {
          return Fail(increased.error);
        }
      }
      ReplaceLevel(levels, actualStackLevelSize, actualStackSize, name, newValue, i);
      PutLevel(i, level[name := newValue]);
      r := Pass;
    }

    /**
     * The loop of `removeFromStack` that drops the empty levels from the top of the first
     * `levelCount` levels (as far as this generation holds them) and counts what is left.
     */
    method DropEmptyLevels(ghost updated: Levels, levelCount: int) returns (count: int)
      requires Struct()
      requires 0 <= levelCount <= |updated|
      requires forall k :: 0 <= k < levelCount ==> k in levels && levels[k] == updated[k]
      modifies this
      ensures Struct() && 0 <= count <= levelCount
      ensures HeapSide() == old(HeapSide()) && Counts() == old(Counts())
      ensures forall k :: 0 <= k < count ==> k in levels && levels[k] == updated[k]
      ensures forall k :: count <= k < levelCount ==> updated[k] == map[]
      ensures count == 0 || updated[count - 1] != map[]
    {
      count := levelCount;
      var j := count - 1;
      while j >= 0 && GetStackLevelRecursively(j).value == map[]
        invariant Struct() && HeapSide() == old(HeapSide()) && Counts() == old(Counts())
        invariant j == count - 1 && 0 <= count <= levelCount
        invariant forall k :: 0 <= k < count ==> k in levels && levels[k] == updated[k]
        invariant forall k :: count <= k < levelCount ==> updated[k] == map[]
      {
        if j in stackLevels {
          DropLevel(j);
        }
        count := count - 1;
        j := j - 1;
      }
    }

    /**
     * The end of `removeFromStack`, once level `i` of the first `count` levels has lost a binding
     * (they are now `updated`): when that emptied the top level, drop it and the empty levels below
     * it. The levels kept are `Trim(updated, i)`.
     */
    method TrimLevels(ghost updated: Levels, i: int, level: Level, count: int) returns (levelCount: int)
      requires Struct()
      requires count == |updated| && 0 <= i < count && level == updated[i]
      requires (forall k :: 0 <= k < count ==> k in levels) && Resolve(levels, count) == updated
      modifies this
      ensures Struct() && HeapSide() == old(HeapSide()) && Counts() == old(Counts())
      ensures levelCount == |Trim(updated, i)|
      ensures forall k :: 0 <= k < levelCount ==> k in levels && levels[k] == Trim(updated, i)[k]
    {
      assert forall k :: 0 <= k < count ==> levels[k] == updated[k];
      if level == map[] && i == count - 1 {
        // The removal of the emptied top level is the first round of the loop.
        levelCount := DropEmptyLevels(updated, count);
        PopEmptyLevelsTo(updated, levelCount);
      } else {
        levelCount := count;
        assert updated[..count] == updated;
      }
    }

    // -------------------------------------------------------------------------
    // Destruction and garbage collection

    /**
     * `destroy`: this generation forgets its predecessor, its cells and its levels, and its
     * cumulative counters go back to zero; the collection threshold and mark are left as they were.
     */
    method Destroy()
      requires config.Valid() && garbageThreshold > 0
      modifies this
      ensures Valid() && previous == null && Repr == {this}
      ensures heap == map[] && stackLevels == map[]
      ensures cells == map[] && StackView() == [] && freeChain == []
      ensures Counts() == Counters(0, 0, HeapCounters(0, 0, 0), old(garbageThreshold), old(garbageCollectorMark))
    {
      ClearStack();
      ClearHeap();
      Emptied();
    }

    /** The stack half of `destroy`: no stack levels and zero stack counters. */
    method ClearStack()
      modifies this
      ensures stackLevels == map[] && levels == map[] && actualStackSize == 0 && actualStackLevelSize == 0
      ensures HeapSide() == old(HeapSide()) && previous == old(previous)
    {
      actualStackSize, actualStackLevelSize := 0, 0;
      stackLevels, levels := map[], map[];
    }

    /** The heap half of `destroy`: no predecessor, no cells and zero heap counters. */
    method ClearHeap()
      modifies this
      ensures previous == null && Repr == {this} && heap == map[] && cells == map[] && freeChain == []
      ensures HeapCounts() == HeapCounters(0, 0, 0)
      ensures stackLevels == old(stackLevels) && levels == old(levels)
      ensures actualStackSize == old(actualStackSize) && actualStackLevelSize == old(actualStackLevelSize)
      ensures garbageThreshold == old(garbageThreshold) && garbageCollectorMark == old(garbageCollectorMark)
    {
      actualHeapSize, actualUsedCellCount, lastFreePosition := 0, 0, 0;
      heap, previous := map[], null;
      Repr, cells, freeChain := {this}, map[], [];
    }

    /** A generation with no predecessor, no cells, no levels and zero counters is a valid empty memory. */
    lemma {:induction false} Emptied()
      requires config.Valid() && garbageThreshold > 0
      requires previous == null && Repr == {this}
      requires heap == map[] && stackLevels == map[] && cells == map[] && levels == map[] && freeChain == []
      requires actualStackSize == 0 && actualStackLevelSize == 0
      requires actualHeapSize == 0 && actualUsedCellCount == 0 && lastFreePosition == 0
      ensures Valid() && StackView() == []
    {
      assert HeapBase() + heap == map[];
      assert LevelBase() + stackLevels == map[];
      EmptyHeap();
    }

    /**
     * The cleaning loop of `spatialGarbageCollect`: every cell of the heap not in `marked` is
     * freed in garbage-collection mode. Afterwards exactly the unmarked and the already freed
     * cells are freed, and every cell that was not freed here is as it was.
     */
    method Sweep(marked: set<int>)
      requires Valid()
      modifies this
      ensures Valid() && previous == old(previous) && Repr == old(Repr)
      ensures stackLevels == old(stackLevels) && levels == old(levels)
      ensures Counts().(heap := old(HeapCounts())) == old(Counts()) && actualHeapSize == old(actualHeapSize)
      ensures Swept(old(cells), cells, marked, actualHeapSize, actualHeapSize)
    {
      var i := 0;
      while i < actualHeapSize
        invariant Valid() && previous == old(previous) && Repr == old(Repr)
        invariant stackLevels == old(stackLevels) && levels == old(levels)
        invariant Counts().(heap := old(HeapCounts())) == old(Counts()) && actualHeapSize == old(actualHeapSize)
        invariant 0 <= i <= actualHeapSize
        invariant Swept(old(cells), cells, marked, i, actualHeapSize)
      {
        ghost var before := cells;
        var got := GetCell(i, false);
        if i !in marked {
          var freed := Free(i, true);
        }
        SweepStep(old(cells), before, cells, marked, i, actualHeapSize);
        i := i + 1;
      }
    }

    /**
     * `spatialGarbageCollect`: unless forced, nothing happens while the free space is at least the
     * minimum. Otherwise every cell the marking phase did not reach (`marked` holds the positions
     * it reached) is freed; then, if the free space is still under the minimum, the threshold
     * grows by the configured factor; finally the collector request is withdrawn.
     */
    method SpatialGarbageCollect(marked: set<int>, forced: bool)
      requires Valid()
      modifies this
      ensures Valid() && previous == old(previous) && Repr == old(Repr)
      ensures stackLevels == old(stackLevels) && levels == old(levels)
      ensures actualStackLevelSize == old(actualStackLevelSize) && actualStackSize == old(actualStackSize)
      ensures actualHeapSize == old(actualHeapSize)
      ensures !forced && EnoughFreeSpace(old(HeapCounts()), old(garbageThreshold)) ==>
                cells == old(cells) && Counts() == old(Counts()) && freeChain == old(freeChain)
      ensures forced || !EnoughFreeSpace(old(HeapCounts()), old(garbageThreshold)) ==>
                && Swept(old(cells), cells, marked, actualHeapSize, actualHeapSize)
                && garbageThreshold == (if EnoughFreeSpace(HeapCounts(), old(garbageThreshold)) then old(garbageThreshold)
                                        else Grow(old(garbageThreshold), config))
                && !garbageCollectorMark
    {
      if !forced && EnoughFreeSpace(HeapCounts(), garbageThreshold) {
        return;
      }
      Collect(marked);
    }

    /**
     * The collection proper: the sweep, then the threshold grown when the sweep still leaves too
     * little free space, and the mark cleared.
     */
    method Collect(marked: set<int>)
      requires Valid()
      modifies this
      ensures Valid() && previous == old(previous) && Repr == old(Repr)
      ensures stackLevels == old(stackLevels) && levels == old(levels)
      ensures actualStackLevelSize == old(actualStackLevelSize) && actualStackSize == old(actualStackSize)
      ensures actualHeapSize == old(actualHeapSize)
      ensures Swept(old(cells), cells, marked, actualHeapSize, actualHeapSize)
      ensures garbageThreshold == (if EnoughFreeSpace(HeapCounts(), old(garbageThreshold)) then old(garbageThreshold)
                                   else Grow(old(garbageThreshold), config))
      ensures !garbageCollectorMark
    {
      Sweep(marked);
      var threshold := garbageThreshold;
      if !EnoughFreeSpace(HeapCounts(), garbageThreshold) {
        GrowKeepsPositive(garbageThreshold, config);
        threshold := Grow(garbageThreshold, config);
      }
      SetCollectorState(threshold, false);
    }

    /** Overwrite the collection threshold and mark, which no invariant but positivity constrains. */
    method SetCollectorState(threshold: int, mark: bool)
      requires Valid() && threshold > 0
      modifies this`garbageThreshold, this`garbageCollectorMark
      ensures Valid() && garbageThreshold == threshold && garbageCollectorMark == mark
    {
      garbageThreshold, garbageCollectorMark := threshold, mark;
    }
  }
}
