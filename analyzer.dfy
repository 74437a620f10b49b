/**
 * The part of the lexem analyzer that the node analyzers drive: the memory as the newest
 * generation sees it (resolved stack and heap), the rollback points frozen in older generations,
 * the node and signal to run next, and the direction of the process.
 *
 * `LexemMemory`, `LexemAnalyzer` and the `Lxm...` value classes are not part of this model; their
 * operations appear here as the effect the node analyzers rely on, stated on the resolved views
 * of `StackLevels` (which analyzer/memory/BigNode.kt is proved against in `BigNodes`).
 */
module Analyzers {
  import opened Wrappers
  import opened Values
  import opened Errors
  import opened StackLevels

  /** A compiled node of the program being analyzed. */
  type NodeId = int

  /**
   * The signals a node analyzer receives. The own signals of the modelled analyzers are
   * `signalStart + 1`, `signalStart + 2`, ... in the source, hence distinct; the control signals
   * come from `AnalyzerNodesCommons`; any other code is `Other`.
   */
  datatype Signal =
    | Start
    | EndDataCapturing | EndLexem | EndQuantifier | StartLexemeForLazy | ExitForGreedy
    | EndLeft | EndRight
    | ExitControl | NextControl | RedoControl | RestartControl | ReturnControl
    | Other(code: int)

  /** The stack names (`AnalyzerCommons.Identifiers`) the modelled analyzers use; only their distinctness matters. */
  const AtomicFirstIndex: string := "AtomicFirstIndex"
  const LexemeDataCapturingName: string := "LexemeDataCapturingName"
  const LexemeDataCapturingList: string := "LexemeDataCapturingList"
  const LexemeUnion: string := "LexemeUnion"
  const Last: string := "Last"
  const Left: string := "Left"
  const Accumulator: string := "Accumulator"

  /** A frozen copy: where `restoreCopy` resumes (`LxmRollbackCodePoint` without the text cursor). */
  datatype RollbackPoint = RollbackPoint(node: NodeId, signal: Signal)

  /** What `nextNode(node, signal)` records: the node to run next (null is `None`) and its signal. */
  datatype Jump = Jump(node: Option<NodeId>, signal: Signal)

  /**
   * The analyzer as the node analyzers see it. Generation `k` of the memory chain holds rollback
   * point `rollbackPoints[k]`; the newest generation (`memory.lastNode`) is `|rollbackPoints|`.
   * `captured` is what data-capturing setters have written, by target.
   */
  datatype Machine = Machine(
    stack: Levels,
    heap: map<int, Referenced>,
    nextFree: int,
    rollbackPoints: seq<RollbackPoint>,
    next: Jump,
    backward: bool,
    captured: map<string, Primitive>)

  /** Every heap position in use lies below the next position `add` hands out. */
  predicate HeapBounded(m: Machine) {
    forall p :: p in m.heap ==> p < m.nextFree
  }

  // ---------------------------------------------------------------------------
  // The memory and analyzer operations, on values

  function Pushed(m: Machine, name: string, value: Primitive): Machine {
    m.(stack := Push(m.stack, name, value))
  }

  /**
   * `getFromStack(name)` as intended: the topmost binding of the resolved stack, or
   * StackNotFoundElement. The fallback to the predecessor generation is reported under Findings
   * (`Chains.GetFromStackAsWrittenResurrects`) and not used here.
   */
  function Got(m: Machine, name: string): Result<Primitive, AnalyzerError> {
    match Lookup(m.stack, name)
    case None => Failure(StackNotFoundElement)
    case Some(v) => Success(v)
  }

  /** `removeFromStack(name)`. */
  function Removed(m: Machine, name: string): Result<Machine, AnalyzerError> {
    match Remove(m.stack, name)
    case Failure(e) => Failure(e)
    case Success((levels, _)) => Success(m.(stack := levels))
  }

  /** `replaceStackCell(name, value)`. */
  function Replaced(m: Machine, name: string, value: Primitive): Result<Machine, AnalyzerError> {
    match Replace(m.stack, name, value)
    case Failure(e) => Failure(e)
    case Success((levels, _)) => Success(m.(stack := levels))
  }

  /** `renameLastStackCell(name)`: the value bound to `Last` is rebound to `name`. */
  function Renamed(m: Machine, name: string): Result<Machine, AnalyzerError> {
    var v :- Got(m, Last);
    var m1 :- Removed(m, Last);
    Success(Pushed(m1, name, v))
  }

  /** `add(value)`: the value is stored in a new heap cell; yields the reference to it. */
  function Added(m: Machine, value: Referenced): (Machine, Primitive) {
    (m.(heap := m.heap[m.nextFree := value], nextFree := m.nextFree + 1), Reference(m.nextFree))
  }

  /** `dereference(memory)`: the heap cell a reference points to, with its position. */
  function Deref(m: Machine, p: Primitive): Result<(int, Referenced), AnalyzerError> {
    if !p.Reference? then Failure(CastFailure)
    else if p.position !in m.heap then Failure(HeapSegmentationFault)
    else Success((p.position, m.heap[p.position]))
  }

  /** A referenced value updated in place in its heap cell. */
  function Stored(m: Machine, position: int, value: Referenced): Machine {
    m.(heap := m.heap[position := value])
  }

  /** `freezeMemoryCopy(node, signal)`: the newest generation is frozen with a rollback point. */
  function Frozen(m: Machine, node: NodeId, signal: Signal): Machine {
    m.(rollbackPoints := m.rollbackPoints + [RollbackPoint(node, signal)])
  }

  /**
   * `collapseTo(generation)` as intended: the generations after `generation` are merged into it
   * and the rollback points frozen from `generation` on are dropped. The resolved memory is kept,
   * as the corrected collapse promises (`Chains.CollapseToKeepsHeap`, `Chains.CollapseToKeepsStack`);
   * the collapse as written can lose levels and cells (Findings). A handle on no generation of the
   * chain is an error.
   */
  function Collapsed(m: Machine, generation: int): Result<Machine, AnalyzerError> {
    if 0 <= generation <= |m.rollbackPoints| then Success(m.(rollbackPoints := m.rollbackPoints[..generation]))
    else Failure(Unreachable)
  }

  /** `nextNode(node, signal)`. */
  function Jumped(m: Machine, node: Option<NodeId>, signal: Signal): Machine {
    m.(next := Jump(node, signal))
  }

  /** `initBacktracking()`: the process turns backward. */
  function Backtracked(m: Machine): Machine {
    m.(backward := true)
  }

  /** `setPrimitive` on a setter: the value is written to the setter's target. */
  function Assigned(m: Machine, target: string, value: Primitive): Machine {
    m.(captured := m.captured[target := value])
  }

  /** The relation between a method's outcome and final state and what its specification yields. */
  predicate Agrees(r: Outcome<AnalyzerError>, spec: Result<Machine, AnalyzerError>, now: Machine) {
    && (r.Fail? <==> spec.Failure?)
    && (r.Fail? ==> r.error == spec.error)
    && (r.Pass? ==> now == spec.value)
  }

  // ---------------------------------------------------------------------------
  // Properties of the operations

  /** The stack names are pairwise distinct. */
  lemma {:induction false} NamesDistinct()
    ensures AtomicFirstIndex != LexemeDataCapturingName && AtomicFirstIndex != LexemeDataCapturingList
    ensures AtomicFirstIndex != LexemeUnion && LexemeDataCapturingName != LexemeDataCapturingList
    ensures LexemeDataCapturingName != LexemeUnion && LexemeDataCapturingList != LexemeUnion
    ensures Last != AtomicFirstIndex && Last != LexemeUnion && Last != LexemeDataCapturingList
    ensures Last != LexemeDataCapturingName && Last != Left && Left != Accumulator && Last != Accumulator
  {
  }

  /** The errors the stack operations raise are StackNotFoundElement and, for a wrong kind of value, CastFailure. */
  lemma {:induction false} StackErrors(m: Machine, name: string, value: Primitive)
    ensures Got(m, name).Failure? ==> Got(m, name).error == StackNotFoundElement
    ensures Removed(m, name).Failure? ==> Removed(m, name).error == StackNotFoundElement
    ensures Replaced(m, name, value).Failure? ==> Replaced(m, name, value).error == StackNotFoundElement
    ensures Renamed(m, name).Failure? ==> Renamed(m, name).error == StackNotFoundElement
  {
    RemoveSpec(m.stack, name, name);
    RemoveSpec(m.stack, Last, Last);
  }

  /** `add` hands out a position no cell uses, and keeps every other cell. */
  lemma {:induction false} AddedFresh(m: Machine, value: Referenced)
    requires HeapBounded(m)
    ensures var (after, ref) := Added(m, value);
            && ref.Reference? && ref.position !in m.heap
            && Deref(after, ref) == Success((ref.position, value))
            && (forall p :: p in m.heap ==> p in after.heap && after.heap[p] == m.heap[p])
            && HeapBounded(after)
  {
  }

  /** Renaming `Last` binds its value to the new name and leaves every other name but `Last` as it was. */
  lemma {:induction false} RenamedSpec(m: Machine, name: string, other: string)
    requires name != Last && other != Last && other != name
    ensures Renamed(m, name).Failure? <==> Lookup(m.stack, Last).None?
    ensures Renamed(m, name).Success? ==>
              && Lookup(Renamed(m, name).value.stack, name) == Lookup(m.stack, Last)
              && Lookup(Renamed(m, name).value.stack, other) == Lookup(m.stack, other)
              && Size(Renamed(m, name).value.stack) == Size(m.stack)
  {
    RemoveSpec(m.stack, Last, other);
    RemoveSpec(m.stack, Last, name);
    if Lookup(m.stack, Last).Some? {
      var (levels, _) := Remove(m.stack, Last).value;
      PushSpec(levels, name, Lookup(m.stack, Last).value, other);
    }
  }

  /** Collapsing onto the newest generation changes nothing; collapsing onto an older one only drops rollback points. */
  lemma {:induction false} CollapsedSpec(m: Machine, generation: int)
    requires 0 <= generation <= |m.rollbackPoints|
    ensures Collapsed(m, generation).Success?
    ensures Collapsed(m, generation).value.rollbackPoints + m.rollbackPoints[generation..] == m.rollbackPoints
    ensures generation == |m.rollbackPoints| ==> Collapsed(m, generation).value == m
    ensures Collapsed(m, generation).value.(rollbackPoints := m.rollbackPoints) == m
  {
  }

  // ---------------------------------------------------------------------------
  // The analyzer object

  class Analyzer {
    var stack: Levels
    var heap: map<int, Referenced>
    var nextFree: int
    var rollbackPoints: seq<RollbackPoint>
    var next: Jump
    var backward: bool
    var captured: map<string, Primitive>

    function Snapshot(): Machine
      reads this
    {
      Machine(stack, heap, nextFree, rollbackPoints, next, backward, captured)
    }

    constructor (m: Machine)
      ensures Snapshot() == m
    {
      stack := m.stack;
      heap := m.heap;
      nextFree := m.nextFree;
      rollbackPoints := m.rollbackPoints;
      next := m.next;
      backward := m.backward;
      captured := m.captured;
    }

    method AddToStack(name: string, value: Primitive)
      modifies this
      ensures Snapshot() == Pushed(old(Snapshot()), name, value)
    {
      stack := Push(stack, name, value);
    }

    method GetFromStack(name: string) returns (r: Result<Primitive, AnalyzerError>)
      ensures r == Got(Snapshot(), name)
    {
      var found := Lookup(stack, name);
      if found.None? {
        return Failure(StackNotFoundElement);
      }
      r := Success(found.value);
    }

    method RemoveFromStack(name: string) returns (r: Outcome<AnalyzerError>)
      modifies this
      ensures Agrees(r, Removed(old(Snapshot()), name), Snapshot())
    {
      var removed := Remove(stack, name);
      if removed.Failure? {
        return Fail(removed.error);
      }
      stack := removed.value.0;
      r := Pass;
    }

    method ReplaceStackCell(name: string, value: Primitive) returns (r: Outcome<AnalyzerError>)
      modifies this
      ensures Agrees(r, Replaced(old(Snapshot()), name, value), Snapshot())
    {
      var replaced := Replace(stack, name, value);
      if replaced.Failure? {
        return Fail(replaced.error);
      }
      stack := replaced.value.0;
      r := Pass;
    }

    method RenameLastStackCell(name: string) returns (r: Outcome<AnalyzerError>)
      modifies this
      ensures Agrees(r, Renamed(old(Snapshot()), name), Snapshot())
    {
      var v := GetFromStack(Last);
      if v.Failure? {
        return Fail(v.error);
      }
      r := RemoveFromStack(Last);
      if r.Fail? {
        return;
      }
      AddToStack(name, v.value);
    }

    method Add(value: Referenced) returns (ref: Primitive)
      modifies this
      ensures (Snapshot(), ref) == Added(old(Snapshot()), value)
    {
      ref := Reference(nextFree);
      heap := heap[nextFree := value];
      nextFree := nextFree + 1;
    }

    method Dereference(p: Primitive) returns (r: Result<(int, Referenced), AnalyzerError>)
      ensures r == Deref(Snapshot(), p)
    {
      if !p.Reference? {
        return Failure(CastFailure);
      }
      if p.position !in heap {
        return Failure(HeapSegmentationFault);
      }
      r := Success((p.position, heap[p.position]));
    }

    method Store(position: int, value: Referenced)
      modifies this
      ensures Snapshot() == Stored(old(Snapshot()), position, value)
    {
      heap := heap[position := value];
    }

    method FreezeMemoryCopy(node: NodeId, signal: Signal)
      modifies this
      ensures Snapshot() == Frozen(old(Snapshot()), node, signal)
    {
      rollbackPoints := rollbackPoints + [RollbackPoint(node, signal)];
    }

    method CollapseTo(generation: int) returns (r: Outcome<AnalyzerError>)
      modifies this
      ensures Agrees(r, Collapsed(old(Snapshot()), generation), Snapshot())
    {
      if !(0 <= generation <= |rollbackPoints|) {
        return Fail(Unreachable);
      }
      rollbackPoints := rollbackPoints[..generation];
      r := Pass;
    }

    method NextNode(node: Option<NodeId>, signal: Signal)
      modifies this
      ensures Snapshot() == Jumped(old(Snapshot()), node, signal)
    {
      next := Jump(node, signal);
    }

    method InitBacktracking()
      modifies this
      ensures Snapshot() == Backtracked(old(Snapshot()))
    {
      backward := true;
    }

    method SetPrimitive(target: string, value: Primitive)
      modifies this
      ensures Snapshot() == Assigned(old(Snapshot()), target, value)
    {
      captured := captured[target := value];
    }
  }
}
