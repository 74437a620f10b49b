/**
 * `UnicodeIntervalElementAnalyzer` (analyzer/nodes/literals/UnicodeIntervalElementAnalyzer.kt):
 * one element of a unicode interval literal, a single code point or a range `left..right`, added
 * to the interval under construction bound to `Accumulator`. An element the compiler could
 * evaluate carries its range as a constant; otherwise the left and right expressions run first
 * and leave their values under `Last`.
 */
module UnicodeIntervalElementAnalyzer {
  import opened Wrappers
  import opened Values
  import opened Errors
  import opened StackLevels
  import opened Analyzers

  /** A compiled element: its left expression, its optional right one, its constant range if any. */
  datatype UnicodeIntervalElementNode = UnicodeIntervalElementNode(
    left: NodeId,
    right: Option<NodeId>,
    constantValue: Option<(int, int)>,
    parent: Option<NodeId>,
    parentSignal: Signal)

  /** The code points of `IntegerRange.new(left, right)`. */
  function Range(left: int, right: int): set<int>
    decreases right - left
  {
    if left > right then {} else {left} + Range(left + 1, right)
  }

  /** `operate` (lines 113-119): the accumulated interval is replaced by its union with `[left, right]`. */
  function Operated(m: Machine, left: int, right: int): Result<Machine, AnalyzerError> {
    var itv :- Got(m, Accumulator);
    if !itv.Interval? then Failure(CastFailure)
    else Replaced(m, Accumulator, Interval(itv.points + Range(left, right)))
  }

  /** `stateMachine` (lines 23-108): what the element does on a signal. */
  function Step(m: Machine, signal: Signal, node: UnicodeIntervalElementNode): Result<Machine, AnalyzerError> {
    match signal
    case Start =>
      if node.constantValue.None? then Success(Jumped(m, Some(node.left), Start))
      else
        var m1 :- Operated(m, node.constantValue.value.0, node.constantValue.value.1);
        Success(Jumped(m1, node.parent, node.parentSignal))
    case EndLeft =>
      var left :- Got(m, Last);
      if !left.Integer? then Failure(IncompatibleType)
      else if node.right.Some? then
        var m1 :- Renamed(m, Left);
        Success(Jumped(m1, node.right, Start))
      else
        var m1 :- Operated(m, left.value, left.value);
        var m2 :- Removed(m1, Last);
        Success(Jumped(m2, node.parent, node.parentSignal))
    case EndRight =>
      var m1 :- RightEnded(m);
      Success(Jumped(m1, node.parent, node.parentSignal))
    case _ => Success(Jumped(m, node.parent, node.parentSignal))
  }

  /** The `signalEndRight` branch (lines 65-103) up to the return to the parent. */
  function RightEnded(m: Machine): Result<Machine, AnalyzerError> {
    var right :- Got(m, Last);
    if !right.Integer? then Failure(IncompatibleType)
    else
      var left :- Got(m, Left);
      if !left.Integer? then Failure(CastFailure)
      else if left.value > right.value then Failure(IncorrectRangeBounds)
      else
        var m1 :- Operated(m, left.value, right.value);
        var m2 :- Removed(m1, Left);
        Removed(m2, Last)
  }

  // ---------------------------------------------------------------------------
  // The analyzer, step by step

  /** `operate`. */
  method Operate(a: Analyzer, left: int, right: int) returns (r: Outcome<AnalyzerError>)
    modifies a
    ensures Agrees(r, Operated(old(a.Snapshot()), left, right), a.Snapshot())
  {
    var itv := a.GetFromStack(Accumulator);
    if itv.Failure? {
      return Fail(itv.error);
    }
    if !itv.value.Interval? {
      return Fail(CastFailure);
    }
    r := a.ReplaceStackCell(Accumulator, Interval(itv.value.points + Range(left, right)));
  }

  /** `stateMachine`: the element handles a signal. */
  method StateMachine(a: Analyzer, signal: Signal, node: UnicodeIntervalElementNode) returns (r: Outcome<AnalyzerError>)
    modifies a
    ensures Agrees(r, Step(old(a.Snapshot()), signal, node), a.Snapshot())
  {
    match signal {
      case Start =>
        if node.constantValue.None? {
          a.NextNode(Some(node.left), Start);
          return Pass;
        }
        r := Operate(a, node.constantValue.value.0, node.constantValue.value.1);
        if r.Fail? {
          return;
        }
      case EndLeft =>
        var left := a.GetFromStack(Last);
        if left.Failure? {
          return Fail(left.error);
        }
        if !left.value.Integer? {
          return Fail(IncompatibleType);
        }
        if node.right.Some? {
          r := a.RenameLastStackCell(Left);
          if r.Fail? {
            return;
          }
          a.NextNode(node.right, Start);
          return;
        }
        r := Operate(a, left.value.value, left.value.value);
        if r.Fail? {
          return;
        }
        r := a.RemoveFromStack(Last);
        if r.Fail? {
          return;
        }
      case EndRight =>
        r := EndRightSide(a);
        if r.Fail? {
          return;
        }
      case _ =>
        r := Pass;
    }
    a.NextNode(node.parent, node.parentSignal);
  }

  /** The `signalEndRight` branch of `stateMachine`, up to the return to the parent. */
  method EndRightSide(a: Analyzer) returns (r: Outcome<AnalyzerError>)
    modifies a
    ensures Agrees(r, RightEnded(old(a.Snapshot())), a.Snapshot())
  {
    var right := a.GetFromStack(Last);
    if right.Failure? {
      return Fail(right.error);
    }
    if !right.value.Integer? {
      return Fail(IncompatibleType);
    }
    var left := a.GetFromStack(Left);
    if left.Failure? {
      return Fail(left.error);
    }
    if !left.value.Integer? {
      return Fail(CastFailure);
    }
    if left.value.value > right.value.value {
      return Fail(IncorrectRangeBounds);
    }
    r := Operate(a, left.value.value, right.value.value);
    if r.Fail? {
      return;
    }
    r := a.RemoveFromStack(Left);
    if r.Fail? {
      return;
    }
    r := a.RemoveFromStack(Last);
  }

  // ---------------------------------------------------------------------------
  // Properties

  /** A single code point is the range from it to itself; a range whose left bound exceeds its right is empty. */
  lemma {:induction false} RangeSpec(left: int, right: int, x: int)
    ensures x in Range(left, right) <==> left <= x <= right
    ensures Range(x, x) == {x}
    ensures left > right ==> Range(left, right) == {}
    decreases right - left
  {
    assert Range(x + 1, x) == {};
    if left <= right {
      RangeSpec(left + 1, right, x);
    }
  }

  /**
   * `operate` succeeds exactly when `Accumulator` is bound to an interval; it then rebinds it to the
   * union with `[left, right]` in place, and no other name, and nothing but the stack, changes.
   */
  lemma {:induction false} OperatedSpec(m: Machine, left: int, right: int, other: string)
    ensures Operated(m, left, right).Success? <==> Lookup(m.stack, Accumulator).Some? && Lookup(m.stack, Accumulator).value.Interval?
    ensures Operated(m, left, right).Success? ==>
              var after := Operated(m, left, right).value;
              && Lookup(after.stack, Accumulator) == Some(Interval(Lookup(m.stack, Accumulator).value.points + Range(left, right)))
              && (other != Accumulator ==> Lookup(after.stack, other) == Lookup(m.stack, other))
              && Size(after.stack) == Size(m.stack)
              && (WellFormed(m.stack) ==> WellFormed(after.stack))
              && after.(stack := m.stack) == m
  {
    if Lookup(m.stack, Accumulator).Some? && Lookup(m.stack, Accumulator).value.Interval? {
      ReplaceSpec(m.stack, Accumulator, Interval(Lookup(m.stack, Accumulator).value.points + Range(left, right)), other);
    }
  }

  /** An element with a constant range adds it to the accumulated interval at once and returns to its parent. */
  lemma {:induction false} ConstantValueSpec(m: Machine, node: UnicodeIntervalElementNode, points: set<int>)
    requires node.constantValue.Some?
    requires Lookup(m.stack, Accumulator) == Some(Interval(points))
    ensures var (from, to) := node.constantValue.value;
            && Step(m, Start, node).Success?
            && Lookup(Step(m, Start, node).value.stack, Accumulator) == Some(Interval(points + Range(from, to)))
            && Step(m, Start, node).value.next == Jump(node.parent, node.parentSignal)
  {
    OperatedSpec(m, node.constantValue.value.0, node.constantValue.value.1, Accumulator);
  }

  /** Without a constant range, the element first runs its left expression. */
  lemma {:induction false} NoConstantSpec(m: Machine, node: UnicodeIntervalElementNode)
    requires node.constantValue.None?
    ensures Step(m, Start, node) == Success(m.(next := Jump(Some(node.left), Start)))
  {
  }

  /** The errors `operate` raises: Accumulator unbound, or bound to something other than an interval. */
  lemma {:induction false} OperatedErrors(m: Machine, left: int, right: int)
    ensures Operated(m, left, right).Failure? ==>
              Operated(m, left, right).error == StackNotFoundElement || Operated(m, left, right).error == CastFailure
  {
    var itv := Got(m, Accumulator);
    StackErrors(m, Accumulator, Nil);
    if itv.Success? && itv.value.Interval? {
      StackErrors(m, Accumulator, Interval(itv.value.points + Range(left, right)));
    }
  }

  /** A left value that is not an integer is an IncompatibleType error, and only such a value is. */
  lemma {:induction false} LeftIncompatible(m: Machine, node: UnicodeIntervalElementNode, v: Primitive)
    requires Lookup(m.stack, Last) == Some(v)
    ensures Step(m, EndLeft, node) == Failure(IncompatibleType) <==> !v.Integer?
  {
    if v.Integer? {
      StackErrors(m, Left, Nil);
      OperatedErrors(m, v.value, v.value);
      if Operated(m, v.value, v.value).Success? {
        StackErrors(Operated(m, v.value, v.value).value, Last, Nil);
      }
    }
  }

  /** A right value that is not an integer is an IncompatibleType error, and only such a value is. */
  lemma {:induction false} RightIncompatible(m: Machine, v: Primitive)
    requires Lookup(m.stack, Last) == Some(v)
    ensures RightEnded(m) == Failure(IncompatibleType) <==> !v.Integer?
  {
    if v.Integer? {
      StackErrors(m, Left, Nil);
      var left := Got(m, Left);
      if left.Success? && left.value.Integer? && left.value.value <= v.value {
        OperatedErrors(m, left.value.value, v.value);
        var m1 := Operated(m, left.value.value, v.value);
        if m1.Success? {
          StackErrors(m1.value, Left, Nil);
          if Removed(m1.value, Left).Success? {
            StackErrors(Removed(m1.value, Left).value, Last, Nil);
          }
        }
      }
    }
  }

  /** With integer bounds, a range fails with IncorrectRangeBounds exactly when its left bound exceeds its right. */
  lemma {:induction false} IncorrectRangeBoundsSpec(m: Machine, left: int, right: int)
    requires Lookup(m.stack, Last) == Some(Integer(right)) && Lookup(m.stack, Left) == Some(Integer(left))
    ensures RightEnded(m) == Failure(IncorrectRangeBounds) <==> left > right
  {
    if left <= right {
      OperatedErrors(m, left, right);
      var m1 := Operated(m, left, right);
      if m1.Success? {
        StackErrors(m1.value, Left, Nil);
        if Removed(m1.value, Left).Success? {
          StackErrors(Removed(m1.value, Left).value, Last, Nil);
        }
      }
    }
  }

  /** A left value with a right expression to come is kept as `Left`, and the right expression runs. */
  lemma {:induction false} LeftThenRightSpec(m: Machine, node: UnicodeIntervalElementNode, v: int, other: string)
    requires node.right.Some? && Lookup(m.stack, Last) == Some(Integer(v))
    requires other != Left && other != Last
    ensures Step(m, EndLeft, node).Success?
    ensures var after := Step(m, EndLeft, node).value;
            && Lookup(after.stack, Left) == Some(Integer(v))
            && Lookup(after.stack, other) == Lookup(m.stack, other)
            && Size(after.stack) == Size(m.stack)
            && after.next == Jump(node.right, Start)
  {
    RenamedSpec(m, Left, other);
    var r := Renamed(m, Left);
    assert r.Success?;
    assert Step(m, EndLeft, node) == Success(Jumped(r.value, node.right, Start));
  }

  /**
   * A single value `v` adds the range `[v, v]` to the accumulated interval, drops `Last` and
   * returns to the parent; no other name changes.
   */
  lemma {:induction false} SingleValueSpec(m: Machine, node: UnicodeIntervalElementNode, v: int, points: set<int>, other: string)
    requires node.right.None?
    requires Lookup(m.stack, Last) == Some(Integer(v)) && Lookup(m.stack, Accumulator) == Some(Interval(points))
    requires other != Last && other != Accumulator
    ensures Step(m, EndLeft, node).Success?
    ensures var after := Step(m, EndLeft, node).value;
            && Lookup(after.stack, Accumulator) == Some(Interval(points + {v}))
            && Lookup(after.stack, other) == Lookup(m.stack, other)
            && Size(after.stack) == Size(m.stack) - 1
            && after.next == Jump(node.parent, node.parentSignal)
  {
    OperatedSpec(m, v, v, Last);
    OperatedSpec(m, v, v, other);
    var m1 := Operated(m, v, v).value;
    RemoveSpec(m1.stack, Last, Accumulator);
    RemoveSpec(m1.stack, Last, other);
    RangeSpec(v, v, v);
    var m2 := Removed(m1, Last);
    assert m2.Success?;
    assert Step(m, EndLeft, node) == Success(Jumped(m2.value, node.parent, node.parentSignal));
  }

  /**
   * A range `[left, right]` with `left <= right` is added to the accumulated interval and `Left`
   * and `Last` are both dropped; no other name changes.
   */
  lemma {:induction false} RangeValueSpec(m: Machine, left: int, right: int, points: set<int>, other: string)
    requires left <= right
    requires Lookup(m.stack, Last) == Some(Integer(right)) && Lookup(m.stack, Left) == Some(Integer(left))
    requires Lookup(m.stack, Accumulator) == Some(Interval(points))
    requires other != Last && other != Left && other != Accumulator
    ensures RightEnded(m).Success?
    ensures var after := RightEnded(m).value;
            && Lookup(after.stack, Accumulator) == Some(Interval(points + Range(left, right)))
            && Lookup(after.stack, other) == Lookup(m.stack, other)
            && Size(after.stack) == Size(m.stack) - 2
            && after.(stack := m.stack) == m
  {
    OperatedSpec(m, left, right, Left);
    OperatedSpec(m, left, right, Last);
    OperatedSpec(m, left, right, other);
    var m1 := Operated(m, left, right);
    assert m1.Success?;
    DropLeftAndLast(m1.value, other);
  }

  /**
   * After a right bound the element returns to its parent with its parent's signal when the range
   * is added, and the handling fails exactly when adding the range fails.
   */
  lemma {:induction false} EndRightReturns(m: Machine, node: UnicodeIntervalElementNode)
    ensures Step(m, EndRight, node).Success? <==> RightEnded(m).Success?
    ensures Step(m, EndRight, node).Success? ==>
              Step(m, EndRight, node).value == RightEnded(m).value.(next := Jump(node.parent, node.parentSignal))
    ensures Step(m, EndRight, node).Failure? ==> Step(m, EndRight, node).error == RightEnded(m).error
  {
  }

  /** Removing `Left`, then `Last`, releases two bindings and no other name. */
  lemma {:induction false} DropLeftAndLast(m: Machine, other: string)
    requires Lookup(m.stack, Last).Some? && Lookup(m.stack, Left).Some?
    requires other != Last && other != Left
    ensures Removed(m, Left).Success? && Removed(Removed(m, Left).value, Last).Success?
    ensures var after := Removed(Removed(m, Left).value, Last).value;
            && Lookup(after.stack, Accumulator) == Lookup(m.stack, Accumulator)
            && Lookup(after.stack, other) == Lookup(m.stack, other)
            && Size(after.stack) == Size(m.stack) - 2
            && after.(stack := m.stack) == m
  {
    RemoveSpec(m.stack, Left, Last);
    RemoveSpec(m.stack, Left, Accumulator);
    RemoveSpec(m.stack, Left, other);
    var m1 := Removed(m, Left).value;
    RemoveSpec(m1.stack, Last, Accumulator);
    RemoveSpec(m1.stack, Last, other);
  }
}
