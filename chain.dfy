/**
 * A generation chain as a value, oldest generation first, and the two operations of
 * analyzer/memory/BigNode.kt that act on more than the newest generation: `collapseTo`
 * (lines 319-385), which merges the generations after a destination into it, and the
 * predecessor fallback of `getFromStack` (lines 108-122).
 *
 * Each generation keeps only the cells and stack levels it changed; the memory seen from the
 * newest generation is the overlay of those layers. `CollapseTo` is the merge the source sets
 * out to perform and keeps that memory; the `...AsWritten` functions follow the source line by
 * line, and the lemmas beside them exhibit chains on which it does not.
 */
module Chains {
  import opened Wrappers
  import opened Values
  import opened Errors
  import opened StackLevels
  import opened Cells
  import opened FreeLists
  import opened Overlays
  import opened BigNodes

  /** What one generation holds: its own cells and stack levels, and the cumulative counters. */
  datatype Generation = Generation(heap: map<int, CellState>, stackLevels: map<int, Level>, counts: Counters)

  /** Generations, oldest (the one without `previousNode`) first and `lastNode` last. */
  type Chain = seq<Generation>

  function Tail(chain: Chain): Generation
    requires chain != []
  {
    chain[|chain| - 1]
  }

  function HeapLayers(chain: Chain): (r: seq<map<int, CellState>>)
    ensures |r| == |chain| && forall k :: 0 <= k < |chain| ==> r[k] == chain[k].heap
  {
    seq(|chain|, k requires 0 <= k < |chain| => chain[k].heap)
  }

  function LevelLayers(chain: Chain): (r: seq<map<int, Level>>)
    ensures |r| == |chain| && forall k :: 0 <= k < |chain| ==> r[k] == chain[k].stackLevels
  {
    seq(|chain|, k requires 0 <= k < |chain| => chain[k].stackLevels)
  }

  /** The resolved heap seen from the newest generation (`getCellRecursive`). */
  function HeapView(chain: Chain): map<int, CellState> {
    Overlay(HeapLayers(chain))
  }

  /** The resolved stack levels seen from the newest generation (`getStackLevelRecursively`). */
  function LevelView(chain: Chain): map<int, Level> {
    Overlay(LevelLayers(chain))
  }

  /** Every level below the newest generation's level count resolves to some generation's level. */
  predicate Resolvable(chain: Chain) {
    && chain != []
    && 0 <= Tail(chain).counts.stackLevelSize
    && forall i :: 0 <= i < Tail(chain).counts.stackLevelSize ==> i in LevelView(chain)
  }

  /** The resolved stack seen from the newest generation. */
  function StackOf(chain: Chain): Levels
    requires Resolvable(chain)
  {
    Resolve(LevelView(chain), Tail(chain).counts.stackLevelSize)
  }

  /** The counters `destroy` leaves (lines 400-404); the threshold and the flag are not reset. */
  function Destroyed(c: Counters): (r: Counters)
    ensures r.stackLevelSize == 0 && r.stackSize == 0 && r.heap == HeapCounters(0, 0, 0)
    ensures r.garbageThreshold == c.garbageThreshold && r.garbageCollectorMark == c.garbageCollectorMark
  {
    Counters(0, 0, HeapCounters(0, 0, 0), c.garbageThreshold, c.garbageCollectorMark)
  }

  // ---------------------------------------------------------------------------------------------
  // Searching the layers
  // ---------------------------------------------------------------------------------------------

  /** The newest generation in `[low, k]` that holds level `i` (the inner loop at lines 344-354). */
  function NewestHolder<T>(layers: seq<map<int, T>>, i: int, low: int, k: int): (r: Option<int>)
    requires 0 <= low && k < |layers|
    ensures r.Some? ==> low <= r.value <= k && i in layers[r.value]
    ensures r.Some? ==> forall j :: r.value < j <= k ==> i !in layers[j]
    ensures r.None? ==> forall j :: low <= j <= k ==> i !in layers[j]
    decreases k - low
  {
    if k < low then None
    else if i in layers[k] then Some(k)
    else NewestHolder(layers, i, low, k - 1)
  }

  /** The overlay of the layers `[low, k]` holds `i` exactly when some layer there does, and then the newest one's entry. */
  lemma {:induction false} OverlayNewest<T>(layers: seq<map<int, T>>, i: int, low: int, k: int)
    requires 0 <= low <= k + 1 <= |layers|
    ensures i in Overlay(layers[low..k + 1]) <==> NewestHolder(layers, i, low, k).Some?
    ensures NewestHolder(layers, i, low, k).Some? ==>
              Overlay(layers[low..k + 1])[i] == layers[NewestHolder(layers, i, low, k).value][i]
    decreases k - low
  {
    var s := layers[low..k + 1];
    if k >= low {
      assert s[..|s| - 1] == layers[low..k];
      assert s[|s| - 1] == layers[k];
      OverlayNewest(layers, i, low, k - 1);
    } else {
      assert s == [];
    }
  }

  /** Searching from one layer lower finds the same newer holder, or else the lower layer itself. */
  lemma {:induction false} NewestHolderLower<T>(layers: seq<map<int, T>>, i: int, low: int, k: int)
    requires 0 <= low && k < |layers|
    ensures NewestHolder(layers, i, low, k) ==
              match NewestHolder(layers, i, low + 1, k)
              case Some(n) => Some(n)
              case None => if low <= k && i in layers[low] then Some(low) else None
    decreases k - low
  {
    if k >= low && i !in layers[k] {
      NewestHolderLower(layers, i, low, k - 1);
    }
  }

  // ---------------------------------------------------------------------------------------------
  // Collapse as intended
  // ---------------------------------------------------------------------------------------------

  /** The destination's own levels a collapse keeps: those below the level count. */
  function PruneLevels(levels: map<int, Level>, counts: Counters): (r: map<int, Level>)
    ensures forall i :: i in r ==> i < counts.stackLevelSize
  {
    KeysBelow(levels, counts.stackLevelSize)
  }

  /**
   * The loop at lines 343-356, stopping at the destination: for each level index `i` below
   * `count`, the newest copy above the destination `d`, if any, replaces the destination's own.
   */
  function MovedLevels(layers: seq<map<int, Level>>, d: int, dest: map<int, Level>, i: int, count: int)
    : map<int, Level>
    requires 0 <= d < |layers|
    decreases count - i
  {
    if i >= count then dest
    else
      var next := match NewestHolder(layers, i, d + 1, |layers| - 1)
                  case None => dest
                  case Some(n) => dest[i := layers[n][i]];
      MovedLevels(layers, d, next, i + 1, count)
  }

  /**
   * The moved levels are the overlay of the destination's and its successors' levels, cut at
   * the level count.
   */
  lemma {:induction false} MovedLevelsOverlay(layers: seq<map<int, Level>>, d: int, dest: map<int, Level>,
                                              i: int, count: int)
    requires 0 <= d < |layers| && 0 <= i
    requires forall j :: j in dest ==> j < count
    requires forall j :: 0 <= j < i && j < count ==>
               (j in dest <==> j in Overlay(layers[d..])) && (j in dest ==> dest[j] == Overlay(layers[d..])[j])
    requires forall j :: i <= j < count ==>
               (j in dest <==> j in layers[d]) && (j in dest ==> dest[j] == layers[d][j])
    ensures var r := MovedLevels(layers, d, dest, i, count);
            && (forall j :: j in r ==> j < count)
            && forall j :: 0 <= j < count ==>
                 (j in r <==> j in Overlay(layers[d..])) && (j in r ==> r[j] == Overlay(layers[d..])[j])
    decreases count - i
  {
    if i < count {
      var top := |layers| - 1;
      assert layers[d..] == layers[d..top + 1];
      OverlayNewest(layers, i, d, top);
      NewestHolderLower(layers, i, d, top);
      var next := match NewestHolder(layers, i, d + 1, top)
                  case None => dest
                  case Some(n) => dest[i := layers[n][i]];
      MovedLevelsOverlay(layers, d, next, i + 1, count);
    }
  }

  /**
   * `collapseToRecursively` (lines 360-385), stopping at the destination: from the newest
   * generation down, each generation's cells move into the destination (the first layer of
   * `segment`) and the older copies of those positions in between are dropped.
   */
  function CollapseHeaps(segment: seq<map<int, CellState>>): (r: map<int, CellState>)
    requires |segment| >= 1
    ensures r == Overlay(segment)
    decreases |segment|
  {
    if |segment| == 1 then
      OverlaySingle(segment[0]);
      assert segment == [segment[0]];
      segment[0]
    else
      MoveTopDownKeepsOverlay(segment);
      CollapseHeaps(MoveTopDown(segment))
  }

  /**
   * `collapseTo(destination)` where the destination is generation `d`: the destination takes the
   * newest generation's counters, keeps its own levels below the level count, receives the newest
   * copy of every level and every cell from the generations after it, and becomes the newest
   * generation.
   */
  function CollapseTo(chain: Chain, d: int): (r: Chain)
    requires 0 <= d < |chain|
    ensures |r| == d + 1 && r[..d] == chain[..d]
    ensures d == |chain| - 1 ==> r == chain
    ensures Tail(r).counts == Tail(chain).counts
  {
    if d == |chain| - 1 then chain
    else
      var counts := Tail(chain).counts;
      var levels := MovedLevels(LevelLayers(chain), d, PruneLevels(chain[d].stackLevels, counts), 0,
                                counts.stackLevelSize);
      var heap := CollapseHeaps(HeapLayers(chain)[d..]);
      chain[..d] + [Generation(heap, levels, counts)]
  }

  /** Splitting the layers at `d` splits the overlay. */
  lemma {:induction false} OverlaySplit<T>(layers: seq<map<int, T>>, d: int)
    requires 0 <= d <= |layers|
    ensures Overlay(layers) == Overlay(layers[..d]) + Overlay(layers[d..])
  {
    assert layers == layers[..d] + layers[d..];
    OverlayAppend(layers[..d], layers[d..]);
  }

  /** Replacing the layers from `d` on by their overlay keeps the overlay. */
  lemma {:induction false} OverlayFold<T>(layers: seq<map<int, T>>, d: int, folded: map<int, T>)
    requires 0 <= d <= |layers|
    ensures Overlay(layers[..d] + [folded]) == Overlay(layers[..d]) + folded
  {
    OverlayAppend(layers[..d], [folded]);
    OverlaySingle(folded);
  }

  /** Collapse transparency for the heap: the destination resolves every position as the newest generation did. */
  lemma {:induction false} CollapseToKeepsHeap(chain: Chain, d: int)
    requires 0 <= d < |chain|
    ensures HeapView(CollapseTo(chain, d)) == HeapView(chain)
  {
    if d < |chain| - 1 {
      var heaps := HeapLayers(chain);
      assert HeapLayers(CollapseTo(chain, d)) == heaps[..d] + [CollapseHeaps(heaps[d..])];
      OverlaySplit(heaps, d);
      OverlayFold(heaps, d, CollapseHeaps(heaps[d..]));
    }
  }

  /** Overriding with maps that agree below `count` gives maps that agree below `count`. */
  lemma {:induction false} AgreeBelow<T>(base: map<int, T>, o: map<int, T>, m: map<int, T>, count: int)
    requires forall j :: 0 <= j < count ==> (j in m <==> j in o) && (j in m ==> m[j] == o[j])
    ensures forall j :: 0 <= j < count ==> (j in base + m <==> j in base + o) && (j in base + m ==> (base + m)[j] == (base + o)[j])
  {
  }

  /**
   * Collapse transparency for the stack: the destination resolves every level below the level
   * count as the newest generation did, so the resolved stack is unchanged.
   */
  lemma {:induction false} CollapseToKeepsStack(chain: Chain, d: int)
    requires 0 <= d < |chain| && Resolvable(chain)
    ensures Resolvable(CollapseTo(chain, d)) && StackOf(CollapseTo(chain, d)) == StackOf(chain)
  {
    if d < |chain| - 1 {
      CollapsedLevelView(chain, d);
      ResolveAgree(LevelView(CollapseTo(chain, d)), LevelView(chain), Tail(chain).counts.stackLevelSize);
    }
  }

  /** Below the level count, the collapsed chain resolves every level as the chain did. */
  lemma {:induction false} CollapsedLevelView(chain: Chain, d: int)
    requires 0 <= d < |chain| - 1 && Resolvable(chain)
    ensures var before, after := LevelView(chain), LevelView(CollapseTo(chain, d));
            forall j :: 0 <= j < Tail(chain).counts.stackLevelSize ==> j in after && after[j] == before[j]
  {
    var counts := Tail(chain).counts;
    var count := counts.stackLevelSize;
    var layers := LevelLayers(chain);
    var dest := PruneLevels(chain[d].stackLevels, counts);
    var levels := MovedLevels(layers, d, dest, 0, count);
    CollapsedLayers(chain, d);
    OverlaySplit(layers, d);
    MovedLevelsOverlay(layers, d, dest, 0, count);
    var base := Overlay(layers[..d]);
    AgreeBelow(base, Overlay(layers[d..]), levels, count);
    var before, after := LevelView(chain), LevelView(CollapseTo(chain, d));
    assert before == base + Overlay(layers[d..]) && after == base + levels;
    forall j | 0 <= j < count
      ensures j in after && after[j] == before[j]
    {
      assert j in before;
    }
  }

  /** The collapsed chain's levels are the older generations' levels, then the moved levels. */
  lemma {:induction false} CollapsedLayers(chain: Chain, d: int)
    requires 0 <= d < |chain| - 1
    ensures var counts := Tail(chain).counts;
            var layers := LevelLayers(chain);
            LevelView(CollapseTo(chain, d))
              == Overlay(layers[..d])
                 + MovedLevels(layers, d, PruneLevels(chain[d].stackLevels, counts), 0, counts.stackLevelSize)
  {
    var counts := Tail(chain).counts;
    var layers := LevelLayers(chain);
    var levels := MovedLevels(layers, d, PruneLevels(chain[d].stackLevels, counts), 0, counts.stackLevelSize);
    assert LevelLayers(CollapseTo(chain, d)) == layers[..d] + [levels];
    OverlayFold(layers, d, levels);
  }

  // ---------------------------------------------------------------------------------------------
  // Collapse as written
  // ---------------------------------------------------------------------------------------------

  /** Lines 334-340 as written: the destination's levels at or above `actualStackSize`, the number of bindings, are removed. */
  function PruneLevelsAsWritten(levels: map<int, Level>, counts: Counters): (r: map<int, Level>)
    ensures forall i :: i in r ==> i < counts.stackSize
  {
    KeysBelow(levels, counts.stackSize)
  }

  /**
   * One round of the loop at lines 343-356 as written: the search for level `i` runs down to the
   * oldest generation, and the level found is removed from the generation holding it after being
   * stored into the destination, even when that generation is the destination.
   */
  function MoveLevelAsWritten(layers: seq<map<int, Level>>, d: int, i: int): (r: seq<map<int, Level>>)
    requires 0 <= d < |layers|
    ensures |r| == |layers|
  {
    match NewestHolder(layers, i, 0, |layers| - 1)
    case None => layers
    case Some(n) => layers[d := layers[d][i := layers[n][i]]][n := layers[n] - {i}]
  }

  function MoveLevelsAsWritten(layers: seq<map<int, Level>>, d: int, i: int, count: int): (r: seq<map<int, Level>>)
    requires 0 <= d < |layers|
    ensures |r| == |layers|
    decreases count - i
  {
    if i >= count then layers else MoveLevelsAsWritten(MoveLevelAsWritten(layers, d, i), d, i + 1, count)
  }

  /**
   * `collapseToRecursively` as written, on generation `k` and then its predecessors down to the
   * oldest: each cell of generation `k` is removed from every older generation, stored into the
   * destination and removed from generation `k`, also when `k` is the destination itself.
   */
  function CollapseHeapsAsWritten(heaps: seq<map<int, CellState>>, k: int, d: int): (r: seq<map<int, CellState>>)
    requires 0 <= d < |heaps| && -1 <= k < |heaps|
    ensures |r| == |heaps|
    decreases k + 1
  {
    if k < 0 then heaps
    else
      var moved := heaps[k].Keys;
      var cleared := seq(|heaps|, j requires 0 <= j < |heaps| => if j < k then heaps[j] - moved else heaps[j]);
      var stored := cleared[d := cleared[d] + heaps[k]];
      CollapseHeapsAsWritten(stored[k := stored[k] - moved], k - 1, d)
  }

  /**
   * `collapseTo(destination)` as written (lines 319-385): counters, level pruning by binding
   * count, the unbounded level search, the unbounded heap recursion, and `destroy()` on the oldest
   * generation at its end (its `nextNode` cascade is not modelled). The chain then ends at the
   * destination.
   */
  function CollapseToAsWritten(chain: Chain, d: int): (r: Chain)
    requires 0 <= d < |chain|
    ensures |r| == d + 1
  {
    if d == |chain| - 1 then chain
    else
      var counts := Tail(chain).counts;
      var layers := LevelLayers(chain);
      var pruned := layers[d := PruneLevelsAsWritten(layers[d], counts)];
      var levels := MoveLevelsAsWritten(pruned, d, 0, counts.stackLevelSize);
      var heaps := CollapseHeapsAsWritten(HeapLayers(chain), |chain| - 1, d);
      var after := seq(|chain|, k requires 0 <= k < |chain| =>
                         Generation(heaps[k], levels[k], if k == d then counts else chain[k].counts));
      var destroyed := after[0 := Generation(map[], map[], Destroyed(after[0].counts))];
      destroyed[..d + 1]
  }

  /** Every generation of the chain, seen as the newest one, resolves its stack. */
  predicate AllResolvable(chain: Chain)
    decreases |chain|
  {
    Resolvable(chain) && (|chain| > 1 ==> AllResolvable(chain[..|chain| - 1]))
  }

  /** `getFromStack` as written (lines 108-122): on a miss, the predecessor's stack is searched. */
  function GetFromStackAsWritten(chain: Chain, name: string): (r: Result<Primitive, AnalyzerError>)
    requires AllResolvable(chain)
    ensures r.Failure? ==> r.error == StackNotFoundElement
    decreases |chain|
  {
    match Lookup(StackOf(chain), name)
    case Some(v) => Success(v)
    case None =>
      if |chain| == 1 then Failure(StackNotFoundElement) else GetFromStackAsWritten(chain[..|chain| - 1], name)
  }

  // ---------------------------------------------------------------------------------------------
  // Chains on which the code as written loses or resurrects data
  // ---------------------------------------------------------------------------------------------

  /** Counters with the given stack counts and nothing else. */
  function StackCounts(levelCount: int, size: int): Counters {
    Counters(levelCount, size, HeapCounters(0, 0, 0), 1, false)
  }

  /**
   * A middle level emptied by `removeFromStack` is not popped, so the level count can exceed the
   * binding count; pruning the destination by the binding count then drops a level still in use,
   * which pruning by the level count keeps.
   */
  lemma {:induction false} PruneAsWrittenDropsLiveLevel()
    ensures var levels := map[0 := map[], 1 := map["y" := Integer(2)]];
            var counts := StackCounts(2, 1);
            && WellFormed([levels[0], levels[1]]) && Size([levels[0], levels[1]]) == counts.stackSize
            && 1 < counts.stackLevelSize
            && 1 !in PruneLevelsAsWritten(levels, counts)
            && 1 in PruneLevels(levels, counts) && PruneLevels(levels, counts)[1] == levels[1]
  {
    var levels: map<int, Level> := map[0 := map[], 1 := map["y" := Integer(2)]];
    var stack := [levels[0], levels[1]];
    assert Below(stack) == [levels[0]] && Below([levels[0]]) == [];
    assert |levels[1]| == 1 && |levels[0]| == 0;
    assert Top([levels[0]]) == levels[0] && Size([levels[0]]) == 0;
  }

  /** The chain of the level counterexample: level 0 written in the destination, generation 1. */
  function LevelChain(): Chain {
    [Generation(map[], map[], StackCounts(0, 0)),
     Generation(map[], map[0 := map["x" := Integer(1)]], StackCounts(1, 1)),
     Generation(map[], map[], StackCounts(1, 1))]
  }

  /** The chain of the level counterexample resolves to a stack of one level binding `x`. */
  lemma {:induction false} LevelChainStack()
    ensures Resolvable(LevelChain()) && StackOf(LevelChain()) == [map["x" := Integer(1)]]
  {
    var chain := LevelChain();
    var level: Level := map["x" := Integer(1)];
    var layers := LevelLayers(chain);
    assert layers == [map[], map[0 := level], map[]];
    assert layers[..2][..1] == [map[]];
    assert layers[..2] == [map[], map[0 := level]];
    OverlaySingle<Level>(map[]);
    assert LevelView(chain) == map[0 := level];
    assert Resolve(map[0 := level], 1) == [level];
  }

  /**
   * Lines 343-355 as written: a level found in the destination itself is stored and then removed,
   * so collapsing onto the generation that wrote level 0 leaves level 0 unresolvable
   * (`CollapseToKeepsStack` shows the intended collapse keeps the stack `LevelChainStack` states).
   */
  lemma {:induction false} CollapseAsWrittenLosesLevel()
    ensures Resolvable(LevelChain())
    ensures !Resolvable(CollapseToAsWritten(LevelChain(), 1))
  {
    LevelChainStack();
    var chain := LevelChain();
    var level: Level := map["x" := Integer(1)];
    var layers := LevelLayers(chain);
    assert layers == [map[], map[0 := level], map[]];
    assert KeysBelow(layers[1], 1) == layers[1];
    var pruned := layers[1 := PruneLevelsAsWritten(layers[1], StackCounts(1, 1))];
    assert pruned == layers;
    assert NewestHolder(layers, 0, 0, 2) == Some(1) by {
      assert NewestHolder(layers, 0, 0, 1) == Some(1);
    }
    var once := MoveLevelAsWritten(pruned, 1, 0);
    assert once == [map[], map[], map[]] by {
      assert once == layers[1 := layers[1]][1 := layers[1] - {0}];
      assert layers[1] - {0} == map[];
    }
    assert MoveLevelsAsWritten(pruned, 1, 0, 1) == once by {
      assert MoveLevelsAsWritten(once, 1, 1, 1) == once;
    }
    var r := CollapseToAsWritten(chain, 1);
    assert r[1].stackLevels == map[] && r[0].stackLevels == map[];
    var after := LevelLayers(r);
    assert after == [map[], map[]];
    assert after[..1] == [map[]];
    OverlaySingle<Level>(map[]);
    assert LevelView(r) == map[];
    assert Tail(r).counts.stackLevelSize == 1;
  }

  /** A cell used by the heap counterexample. */
  const SomeCell := CellState(0, 1, Some(OtherReferenced(0)))

  /** The chain of the heap counterexample: a cell written in the destination, generation 1. */
  function HeapChain(): Chain {
    [Generation(map[], map[], StackCounts(0, 0)),
     Generation(map[0 := SomeCell], map[], StackCounts(0, 0)),
     Generation(map[], map[], StackCounts(0, 0))]
  }

  /** On layers that are all empty, the heap recursion as written changes nothing. */
  lemma {:induction false} CollapseHeapsAsWrittenEmpty(heaps: seq<map<int, CellState>>, k: int, d: int)
    requires 0 <= d < |heaps| && -1 <= k < |heaps|
    requires forall j :: 0 <= j < |heaps| ==> heaps[j] == map[]
    ensures CollapseHeapsAsWritten(heaps, k, d) == heaps
    decreases k + 1
  {
    if k >= 0 {
      var cleared := seq(|heaps|, j requires 0 <= j < |heaps| => if j < k then heaps[j] - heaps[k].Keys else heaps[j]);
      forall j | 0 <= j < |heaps|
        ensures cleared[j] == heaps[j]
      {
        assert (heaps[j] - heaps[k].Keys).Keys == {};
      }
      assert cleared == heaps;
      assert heaps[d] + heaps[k] == heaps[d] && heaps[k] - heaps[k].Keys == heaps[k];
      var stored := cleared[d := cleared[d] + heaps[k]];
      assert stored == heaps;
      assert stored[k := stored[k] - heaps[k].Keys] == heaps;
      CollapseHeapsAsWrittenEmpty(heaps, k - 1, d);
    }
  }

  /** The intended collapse of the heap chain keeps its one cell. */
  lemma {:induction false} HeapChainView()
    ensures HeapView(HeapChain()) == map[0 := SomeCell]
  {
    var heaps := HeapLayers(HeapChain());
    assert heaps == [map[], map[0 := SomeCell], map[]];
    OverlaySingle<CellState>(map[]);
    assert heaps[..2][..1] == [map[]];
    assert heaps[..2] == [map[], map[0 := SomeCell]];
  }

  /**
   * Lines 360-385 as written: the recursion does not stop at the destination, whose own cells
   * are then stored into itself and removed, so the cell at position 0 is lost
   * (`CollapseToKeepsHeap` shows the intended collapse keeps the view `HeapChainView` states).
   */
  lemma {:induction false} CollapseAsWrittenLosesCell()
    ensures HeapView(HeapChain()) == map[0 := SomeCell]
    ensures HeapView(CollapseToAsWritten(HeapChain(), 1)) == map[]
  {
    HeapChainView();
    var chain := HeapChain();
    var heaps := HeapLayers(chain);
    assert heaps == [map[], map[0 := SomeCell], map[]];
    var empty: seq<map<int, CellState>> := [map[], map[], map[]];
    assert CollapseHeapsAsWritten(heaps, 2, 1) == CollapseHeapsAsWritten(heaps, 1, 1) by {
      var cleared := seq(3, j requires 0 <= j < 3 => if j < 2 then heaps[j] - heaps[2].Keys else heaps[j]);
      assert heaps[0] - heaps[2].Keys == heaps[0] && heaps[1] - heaps[2].Keys == heaps[1];
      assert cleared[0] == heaps[0] && cleared[1] == heaps[1] && cleared[2] == heaps[2];
      assert cleared == heaps;
      assert heaps[1] + heaps[2] == heaps[1] && heaps[2] - heaps[2].Keys == heaps[2];
      var stored := cleared[1 := cleared[1] + heaps[2]];
      assert stored == heaps;
      assert stored[2 := stored[2] - heaps[2].Keys] == heaps;
    }
    assert CollapseHeapsAsWritten(heaps, 1, 1) == CollapseHeapsAsWritten(empty, 0, 1) by {
      var cleared := seq(3, j requires 0 <= j < 3 => if j < 1 then heaps[j] - heaps[1].Keys else heaps[j]);
      assert (heaps[0] - heaps[1].Keys).Keys == {};
      assert cleared[0] == heaps[0];
      assert cleared == heaps;
      assert (heaps[1] + heaps[1]) - heaps[1].Keys == map[];
    }
    CollapseHeapsAsWrittenEmpty(empty, 0, 1);
    var r := CollapseToAsWritten(chain, 1);
    assert r[1].heap == map[] && r[0].heap == map[];
    var after := HeapLayers(r);
    assert after == [map[], map[]];
    assert after[..1] == [map[]];
    OverlaySingle<CellState>(map[]);
  }

  /**
   * Lines 380-381 as written: collapsing onto the oldest generation ends by destroying it, so
   * the destination loses every cell, every level and its counters.
   */
  lemma {:induction false} CollapseAsWrittenOntoOldestDestroys(chain: Chain)
    requires |chain| >= 2
    ensures CollapseToAsWritten(chain, 0) == [Generation(map[], map[], Destroyed(Tail(chain).counts))]
  {
  }

  /** The chain of the lookup counterexample: `x` bound in generation 0 and removed in generation 1. */
  function RemovedChain(): Chain {
    [Generation(map[], map[0 := map["x" := Integer(1)]], StackCounts(1, 1)),
     Generation(map[], map[], StackCounts(0, 0))]
  }

  /**
   * Lines 108-122 as written: after `removeFromStack("x")` popped the only level, the newest
   * generation's stack does not bind `x`, yet the fallback to the predecessor returns the removed
   * binding.
   */
  lemma {:induction false} GetFromStackAsWrittenResurrects()
    ensures AllResolvable(RemovedChain())
    ensures StackOf(RemovedChain()) == [] && Lookup(StackOf(RemovedChain()), "x").None?
    ensures GetFromStackAsWritten(RemovedChain(), "x") == Success(Integer(1))
  {
    var chain := RemovedChain();
    var level: Level := map["x" := Integer(1)];
    var older := chain[..1];
    assert LevelLayers(older) == [map[0 := level]];
    OverlaySingle(map[0 := level]);
    assert LevelView(older) == map[0 := level];
    assert Resolve(map[0 := level], 1) == [level];
    assert Lookup([level], "x") == Some(Integer(1)) by {
      assert Top([level]) == level;
    }
  }
}
