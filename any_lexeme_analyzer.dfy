/**
 * `AnyLexemeAnalyzer` (analyzer/nodes/descriptive/AnyLexemeAnalyzer.kt): the state machine that
 * runs a lexeme, optionally capturing its results into a variable and optionally repeating it
 * under a quantifier that is lazy or greedy, atomic or not.
 *
 * The functions give what each signal does to the analyzer; the methods perform it on an
 * `Analyzer` object and are proved to agree with them; the lemmas state the rules the analyzer
 * follows.
 */
module AnyLexemeAnalyzer {
  import opened Wrappers
  import opened Values
  import opened Errors
  import opened StackLevels
  import opened Analyzers

  /** A compiled lexeme node: its optional data capturing and quantifier, its lexeme and where it returns. */
  datatype AnyLexemeNode = AnyLexemeNode(
    self: NodeId,
    dataCapturing: Option<NodeId>,
    quantifier: Option<NodeId>,
    lexeme: NodeId,
    parent: Option<NodeId>,
    parentSignal: Signal)

  /** The control signals that make the node finish and pass the signal on to its parent. */
  predicate IsControl(signal: Signal) {
    signal.ExitControl? || signal.NextControl? || signal.RedoControl? || signal.RestartControl? || signal.ReturnControl?
  }

  // ---------------------------------------------------------------------------
  // The lazy and greedy decision

  /** What the loop does at an iteration index. */
  datatype Decision =
    /** Freeze a rollback point that resumes iterating, then leave the loop (lazy). */
    | ExitKeepingIteration
    /** Run the lexeme once more. */
    | Iterate
    /** Freeze a rollback point that leaves the loop, then run the lexeme once more (greedy). */
    | IterateKeepingExit
    /** Leave the loop. */
    | Exit
    /** Neither leaving nor iterating is allowed: backtrack. */
    | Backtrack

  /** `evaluateCondition` (lines 127-172), as a decision on the quantifier and the index. */
  function Decide(q: Quantifier, index: int): Decision {
    if q.isLazy then
      if q.IsFinished(index) then ExitKeepingIteration
      else if q.CanHaveANextIteration(index) then Iterate
      else Backtrack
    else
      if q.CanHaveANextIteration(index) then
        if q.IsFinished(index) then IterateKeepingExit else Iterate
      else if q.IsFinished(index) then Exit
      else Backtrack
  }

  /** Both kinds of quantifier backtrack exactly when the index neither satisfies them nor allows one more iteration. */
  lemma {:induction false} DecideBacktracks(q: Quantifier, index: int)
    ensures Decide(q, index) == Backtrack <==> !q.IsFinished(index) && !q.CanHaveANextIteration(index)
  {
  }

  /**
   * A lazy quantifier leaves the loop as soon as it is satisfied, keeping the further iteration as
   * a rollback point, and iterates only while it is not yet satisfied.
   */
  lemma {:induction false} DecideLazy(q: Quantifier, index: int)
    requires q.isLazy
    ensures Decide(q, index) == ExitKeepingIteration <==> q.IsFinished(index)
    ensures Decide(q, index) == Iterate <==> !q.IsFinished(index) && q.CanHaveANextIteration(index)
    ensures Decide(q, index) != IterateKeepingExit && Decide(q, index) != Exit
  {
  }

  /**
   * A greedy quantifier iterates whenever it may, keeping the exit as a rollback point exactly
   * when it is already satisfied, and leaves the loop only when it may not iterate.
   */
  lemma {:induction false} DecideGreedy(q: Quantifier, index: int)
    requires !q.isLazy
    ensures Decide(q, index) in {Iterate, IterateKeepingExit} <==> q.CanHaveANextIteration(index)
    ensures Decide(q, index) == IterateKeepingExit <==> q.CanHaveANextIteration(index) && q.IsFinished(index)
    ensures Decide(q, index) == Exit <==> !q.CanHaveANextIteration(index) && q.IsFinished(index)
    ensures Decide(q, index) != ExitKeepingIteration
  {
  }

  // ---------------------------------------------------------------------------
  // What each step does

  /** The lexeme union bound to `LexemeUnion`, with its heap position. */
  function Union(m: Machine): Result<(int, Referenced), AnalyzerError> {
    var ref :- Got(m, LexemeUnion);
    var (position, value) :- Deref(m, ref);
    if value.PatternUnion? then Success((position, value)) else Failure(CastFailure)
  }

  /** The names `finish` removes, in its order. */
  function FinishNames(node: AnyLexemeNode): seq<string> {
    [AtomicFirstIndex]
    + (if node.dataCapturing.Some? then [LexemeDataCapturingName, LexemeDataCapturingList] else [])
    + (if node.quantifier.Some? then [LexemeUnion] else [])
  }

  /** Each name removed in turn. */
  function RemovedAll(m: Machine, names: seq<string>): Result<Machine, AnalyzerError>
    decreases |names|
  {
    if names == [] then Success(m)
    else
      var m1 :- Removed(m, names[0]);
      RemovedAll(m1, names[1..])
  }

  /** `finish` (lines 225-236). */
  function Finished(m: Machine, node: AnyLexemeNode): Result<Machine, AnalyzerError> {
    var m1 :- Removed(m, AtomicFirstIndex);
    var m2 :- if node.dataCapturing.Some? then
                var a :- Removed(m1, LexemeDataCapturingName);
                Removed(a, LexemeDataCapturingList)
              else Success(m1);
    if node.quantifier.Some? then Removed(m2, LexemeUnion) else Success(m2)
  }

  /** `setDataCapturing` (lines 196-210). */
  function Captured(m: Machine, node: AnyLexemeNode): Result<Machine, AnalyzerError> {
    if node.dataCapturing.None? then Success(m)
    else
      var setter :- Got(m, LexemeDataCapturingName);
      if !setter.Setter? then Failure(CastFailure)
      else
        var listRef :- Got(m, LexemeDataCapturingList);
        var (_, list) :- Deref(m, listRef);
        if !list.ListValue? then Failure(CastFailure)
        else if node.quantifier.None? then
          if |list.items| == 0 then Failure(Unreachable) else Success(Assigned(m, setter.target, list.items[0]))
        else Success(Assigned(m, setter.target, listRef))
  }

  /** `finalization` (lines 177-191). */
  function Finalized(m: Machine, node: AnyLexemeNode, isAtomic: bool): Result<Machine, AnalyzerError> {
    var m1 :- if isAtomic then
                var handle :- Got(m, AtomicFirstIndex);
                if handle.GenerationHandle? then Collapsed(m, handle.generation) else Failure(CastFailure)
              else Success(m);
    var m2 :- Captured(m1, node);
    var m3 :- Finished(m2, node);
    Success(Jumped(m3, node.parent, node.parentSignal))
  }

  /** `evaluateCondition` (lines 127-172). */
  function Condition(m: Machine, node: AnyLexemeNode): Result<Machine, AnalyzerError> {
    var (_, union) :- Union(m);
    match Decide(union.quantifier, union.index)
    case ExitKeepingIteration =>
      Finalized(Frozen(m, node.self, StartLexemeForLazy), node, union.quantifier.isAtomic)
    case Iterate => Success(Jumped(m, Some(node.lexeme), Start))
    case IterateKeepingExit => Success(Jumped(Frozen(m, node.self, ExitForGreedy), Some(node.lexeme), Start))
    case Exit => Finalized(m, node, union.quantifier.isAtomic)
    case Backtrack => Success(Backtracked(m))
  }

  /** `incrementIterationIndex` (lines 215-220): the union's index grows by one, in its heap cell. */
  function Incremented(m: Machine): Result<Machine, AnalyzerError> {
    var (position, union) :- Union(m);
    Success(Stored(m, position, union.(index := union.index + 1)))
  }

  /** The lexeme's result appended to the data-capturing list (lines 71-75). */
  function Appended(m: Machine, result: Primitive): Result<Machine, AnalyzerError> {
    var listRef :- Got(m, LexemeDataCapturingList);
    var (position, list) :- Deref(m, listRef);
    if list.ListValue? then Success(Stored(m, position, ListValue(list.items + [result]))) else Failure(CastFailure)
  }

  /** `stateMachine` (lines 24-122): what the node does on a signal. */
  function Step(m: Machine, signal: Signal, node: AnyLexemeNode): Result<Machine, AnalyzerError> {
    match signal
    case Start =>
      var m1 := Pushed(m, AtomicFirstIndex, GenerationHandle(|m.rollbackPoints|));
      var first := if node.dataCapturing.Some? then node.dataCapturing
                   else if node.quantifier.Some? then node.quantifier
                   else Some(node.lexeme);
      Success(Jumped(m1, first, Start))
    case EndDataCapturing =>
      var m1 :- Renamed(m, LexemeDataCapturingName);
      var (m2, listRef) := Added(m1, ListValue([]));
      var m3 := Pushed(m2, LexemeDataCapturingList, listRef);
      Success(Jumped(m3, if node.quantifier.Some? then node.quantifier else Some(node.lexeme), Start))
    case EndQuantifier =>
      var last :- Got(m, Last);
      if !last.QuantifierValue? then Failure(CastFailure)
      else
        var (m1, unionRef) := Added(m, PatternUnion(last.quantifier, 0));
        var m2 := Pushed(m1, LexemeUnion, unionRef);
        var m3 :- Removed(m2, Last);
        Condition(m3, node)
    case EndLexem =>
      var result :- Got(m, Last);
      var m1 :- if node.dataCapturing.Some? then Appended(m, result) else Success(m);
      var m2 :- Removed(m1, Last);
      if node.quantifier.Some? then
        var m3 :- Incremented(m2);
        Condition(m3, node)
      else Finalized(m2, node, false)
    case StartLexemeForLazy =>
      var (_, union) :- Union(m);
      if union.quantifier.CanHaveANextIteration(union.index) then Success(Jumped(m, Some(node.lexeme), Start))
      else Success(Backtracked(m))
    case ExitForGreedy =>
      var (_, union) :- Union(m);
      Finalized(m, node, union.quantifier.isAtomic)
    case ExitControl | NextControl | RedoControl | RestartControl | ReturnControl =>
      var m1 :- Finished(m, node);
      Success(Jumped(m1, node.parent, signal))
    case _ => Success(Jumped(m, node.parent, node.parentSignal))
  }

  // ---------------------------------------------------------------------------
  // The analyzer, step by step

  /** `incrementIterationIndex`. */
  method IncrementIterationIndex(a: Analyzer) returns (r: Outcome<AnalyzerError>)
    modifies a
    ensures Agrees(r, Incremented(old(a.Snapshot())), a.Snapshot())
  {
    var ref := a.GetFromStack(LexemeUnion);
    if ref.Failure? {
      return Fail(ref.error);
    }
    var found := a.Dereference(ref.value);
    if found.Failure? {
      return Fail(found.error);
    }
    var (position, union) := found.value;
    if !union.PatternUnion? {
      return Fail(CastFailure);
    }
    a.Store(position, union.(index := union.index + 1));
    r := Pass;
  }

  /** `finish`. */
  method Finish(a: Analyzer, node: AnyLexemeNode) returns (r: Outcome<AnalyzerError>)
    modifies a
    ensures Agrees(r, Finished(old(a.Snapshot()), node), a.Snapshot())
  {
    r := a.RemoveFromStack(AtomicFirstIndex);
    if r.Fail? {
      return;
    }
    if node.dataCapturing.Some? {
      r := a.RemoveFromStack(LexemeDataCapturingName);
      if r.Fail? {
        return;
      }
      r := a.RemoveFromStack(LexemeDataCapturingList);
      if r.Fail? {
        return;
      }
    }
    if node.quantifier.Some? {
      r := a.RemoveFromStack(LexemeUnion);
    }
  }

  /** `setDataCapturing`. */
  method SetDataCapturing(a: Analyzer, node: AnyLexemeNode) returns (r: Outcome<AnalyzerError>)
    modifies a
    ensures Agrees(r, Captured(old(a.Snapshot()), node), a.Snapshot())
  {
    if node.dataCapturing.None? {
      return Pass;
    }
    var setter := a.GetFromStack(LexemeDataCapturingName);
    if setter.Failure? {
      return Fail(setter.error);
    }
    if !setter.value.Setter? {
      return Fail(CastFailure);
    }
    var listRef := a.GetFromStack(LexemeDataCapturingList);
    if listRef.Failure? {
      return Fail(listRef.error);
    }
    var list := a.Dereference(listRef.value);
    if list.Failure? {
      return Fail(list.error);
    }
    var items := list.value.1;
    if !items.ListValue? {
      return Fail(CastFailure);
    }
    if node.quantifier.None? {
      if |items.items| == 0 {
        return Fail(Unreachable);
      }
      a.SetPrimitive(setter.value.target, items.items[0]);
    } else {
      a.SetPrimitive(setter.value.target, listRef.value);
    }
    r := Pass;
  }

  /** `finalization`. */
  method Finalization(a: Analyzer, node: AnyLexemeNode, isAtomic: bool) returns (r: Outcome<AnalyzerError>)
    modifies a
    ensures Agrees(r, Finalized(old(a.Snapshot()), node, isAtomic), a.Snapshot())
  {
    if isAtomic {
      var handle := a.GetFromStack(AtomicFirstIndex);
      if handle.Failure? {
        return Fail(handle.error);
      }
      if !handle.value.GenerationHandle? {
        return Fail(CastFailure);
      }
      r := a.CollapseTo(handle.value.generation);
      if r.Fail? {
        return;
      }
    }
    r := SetDataCapturing(a, node);
    if r.Fail? {
      return;
    }
    r := Finish(a, node);
    if r.Fail? {
      return;
    }
    a.NextNode(node.parent, node.parentSignal);
  }

  /** `evaluateCondition`. */
  method EvaluateCondition(a: Analyzer, node: AnyLexemeNode) returns (r: Outcome<AnalyzerError>)
    modifies a
    ensures Agrees(r, Condition(old(a.Snapshot()), node), a.Snapshot())
  {
    var ref := a.GetFromStack(LexemeUnion);
    if ref.Failure? {
      return Fail(ref.error);
    }
    var found := a.Dereference(ref.value);
    if found.Failure? {
      return Fail(found.error);
    }
    var union := found.value.1;
    if !union.PatternUnion? {
      return Fail(CastFailure);
    }
    var quantifier := union.quantifier;
    var index := union.index;
    if quantifier.isLazy {
      if quantifier.IsFinished(index) {
        a.FreezeMemoryCopy(node.self, StartLexemeForLazy);
        r := Finalization(a, node, quantifier.isAtomic);
      } else if quantifier.CanHaveANextIteration(index) {
        a.NextNode(Some(node.lexeme), Start);
        r := Pass;
      } else {
        a.InitBacktracking();
        r := Pass;
      }
    } else {
      if quantifier.CanHaveANextIteration(index) {
        if quantifier.IsFinished(index) {
          a.FreezeMemoryCopy(node.self, ExitForGreedy);
        }
        a.NextNode(Some(node.lexeme), Start);
        r := Pass;
      } else if quantifier.IsFinished(index) {
        r := Finalization(a, node, quantifier.isAtomic);
      } else {
        a.InitBacktracking();
        r := Pass;
      }
    }
  }

  /** `stateMachine`: the node handles a signal. */
  method StateMachine(a: Analyzer, signal: Signal, node: AnyLexemeNode) returns (r: Outcome<AnalyzerError>)
    modifies a
    ensures Agrees(r, Step(old(a.Snapshot()), signal, node), a.Snapshot())
  {
    match signal {
      case Start =>
        a.AddToStack(AtomicFirstIndex, GenerationHandle(|a.rollbackPoints|));
        if node.dataCapturing.Some? {
          a.NextNode(node.dataCapturing, Start);
        } else if node.quantifier.Some? {
          a.NextNode(node.quantifier, Start);
        } else {
          a.NextNode(Some(node.lexeme), Start);
        }
        r := Pass;
      case EndDataCapturing =>
        r := EndDataCapture(a, node);
      case EndQuantifier =>
        r := EndQuantification(a, node);
      case EndLexem =>
        r := EndLexeme(a, node);
      case StartLexemeForLazy =>
        var found := FindUnion(a);
        if found.Failure? {
          return Fail(found.error);
        }
        var union := found.value.1;
        if union.quantifier.CanHaveANextIteration(union.index) {
          a.NextNode(Some(node.lexeme), Start);
        } else {
          a.InitBacktracking();
        }
        r := Pass;
      case ExitForGreedy =>
        var found := FindUnion(a);
        if found.Failure? {
          return Fail(found.error);
        }
        r := Finalization(a, node, found.value.1.quantifier.isAtomic);
      case ExitControl | NextControl | RedoControl | RestartControl | ReturnControl =>
        r := Finish(a, node);
        if r.Fail? {
          return;
        }
        a.NextNode(node.parent, signal);
      case _ =>
        a.NextNode(node.parent, node.parentSignal);
        r := Pass;
    }
  }

  /** The `signalEndDataCapturing` branch of `stateMachine` (lines 41-54). */
  method EndDataCapture(a: Analyzer, node: AnyLexemeNode) returns (r: Outcome<AnalyzerError>)
    modifies a
    ensures Agrees(r, Step(old(a.Snapshot()), EndDataCapturing, node), a.Snapshot())
  {
    r := a.RenameLastStackCell(LexemeDataCapturingName);
    if r.Fail? {
      return;
    }
    var listRef := a.Add(ListValue([]));
    a.AddToStack(LexemeDataCapturingList, listRef);
    if node.quantifier.Some? {
      a.NextNode(node.quantifier, Start);
    } else {
      a.NextNode(Some(node.lexeme), Start);
    }
  }

  /** The `signalEndQuantifier` branch of `stateMachine` (lines 55-66). */
  method EndQuantification(a: Analyzer, node: AnyLexemeNode) returns (r: Outcome<AnalyzerError>)
    modifies a
    ensures Agrees(r, Step(old(a.Snapshot()), EndQuantifier, node), a.Snapshot())
  {
    var last := a.GetFromStack(Last);
    if last.Failure? {
      return Fail(last.error);
    }
    if !last.value.QuantifierValue? {
      return Fail(CastFailure);
    }
    var unionRef := a.Add(PatternUnion(last.value.quantifier, 0));
    a.AddToStack(LexemeUnion, unionRef);
    r := a.RemoveFromStack(Last);
    if r.Fail? {
      return;
    }
    r := EvaluateCondition(a, node);
  }

  /** The `signalEndLexem` branch of `stateMachine` (lines 67-89). */
  method EndLexeme(a: Analyzer, node: AnyLexemeNode) returns (r: Outcome<AnalyzerError>)
    modifies a
    ensures Agrees(r, Step(old(a.Snapshot()), EndLexem, node), a.Snapshot())
  {
    var result := a.GetFromStack(Last);
    if result.Failure? {
      return Fail(result.error);
    }
    if node.dataCapturing.Some? {
      var listRef := a.GetFromStack(LexemeDataCapturingList);
      if listRef.Failure? {
        return Fail(listRef.error);
      }
      var list := a.Dereference(listRef.value);
      if list.Failure? {
        return Fail(list.error);
      }
      var (position, items) := list.value;
      if !items.ListValue? {
        return Fail(CastFailure);
      }
      a.Store(position, ListValue(items.items + [result.value]));
    }
    r := a.RemoveFromStack(Last);
    if r.Fail? {
      return;
    }
    if node.quantifier.Some? {
      r := IncrementIterationIndex(a);
      if r.Fail? {
        return;
      }
      r := EvaluateCondition(a, node);
    } else {
      r := Finalization(a, node, false);
    }
  }

  /** The lexeme union on the stack, dereferenced and cast. */
  method FindUnion(a: Analyzer) returns (r: Result<(int, Referenced), AnalyzerError>)
    ensures r == Union(a.Snapshot())
  {
    var ref := a.GetFromStack(LexemeUnion);
    if ref.Failure? {
      return Failure(ref.error);
    }
    r := a.Dereference(ref.value);
    if r.Success? && !r.value.1.PatternUnion? {
      r := Failure(CastFailure);
    }
  }

  // ---------------------------------------------------------------------------
  // Properties

  /**
   * On start the node binds `AtomicFirstIndex` to the newest generation, shadowing nothing else,
   * and hands over to its data capturing, else its quantifier, else its lexeme.
   */
  lemma {:induction false} StartSpec(m: Machine, node: AnyLexemeNode, other: string)
    ensures Step(m, Start, node).Success?
    ensures var after := Step(m, Start, node).value;
            && Lookup(after.stack, AtomicFirstIndex) == Some(GenerationHandle(|m.rollbackPoints|))
            && (other != AtomicFirstIndex ==> Lookup(after.stack, other) == Lookup(m.stack, other))
            && Size(after.stack) == Size(m.stack) + 1
            && after.next.signal == Start
            && (node.dataCapturing.Some? ==> after.next.node == node.dataCapturing)
            && (node.dataCapturing.None? && node.quantifier.Some? ==> after.next.node == node.quantifier)
            && (node.dataCapturing.None? && node.quantifier.None? ==> after.next.node == Some(node.lexeme))
            && after.(stack := m.stack, next := m.next) == m
  {
    PushSpec(m.stack, AtomicFirstIndex, GenerationHandle(|m.rollbackPoints|), other);
  }

  /** Every name of `names` is bound, and the names are distinct. */
  predicate AllBound(levels: Levels, names: seq<string>) {
    forall i :: 0 <= i < |names| ==> Lookup(levels, names[i]).Some?
  }

  predicate Distinct(names: seq<string>) {
    forall i, j :: 0 <= i < j < |names| ==> names[i] != names[j]
  }

  /**
   * Removing distinct names one by one succeeds exactly when each is bound; it then releases one
   * binding per name and leaves every other name, and everything but the stack, as it was.
   */
  lemma {:induction false} RemovedAllSpec(m: Machine, names: seq<string>, other: string)
    requires Distinct(names)
    ensures RemovedAll(m, names).Success? <==> AllBound(m.stack, names)
    ensures RemovedAll(m, names).Success? ==>
              var after := RemovedAll(m, names).value;
              && Size(after.stack) == Size(m.stack) - |names|
              && (other !in names ==> Lookup(after.stack, other) == Lookup(m.stack, other))
              && (WellFormed(m.stack) ==> WellFormed(after.stack))
              && after.(stack := m.stack) == m
    decreases |names|
  {
    if names != [] {
      RemoveSpec(m.stack, names[0], other);
      if Removed(m, names[0]).Success? {
        var m1 := Removed(m, names[0]).value;
        forall j | 0 < j < |names|
          ensures Lookup(m1.stack, names[j]) == Lookup(m.stack, names[j])
        {
          RemoveSpec(m.stack, names[0], names[j]);
        }
        RemovedAllSpec(m1, names[1..], other);
        if AllBound(m.stack, names) {
          assert AllBound(m1.stack, names[1..]);
        }
        if AllBound(m1.stack, names[1..]) {
          assert forall j :: 0 < j < |names| ==> names[j] == names[1..][j - 1];
        }
      } else {
        assert Lookup(m.stack, names[0]).None?;
      }
    }
  }

  /** Removing a first name, then the rest. */
  lemma {:induction false} RemovedAllCons(m: Machine, name: string, rest: seq<string>)
    ensures RemovedAll(m, [name] + rest)
              == if Removed(m, name).Failure? then Failure(Removed(m, name).error)
                 else RemovedAll(Removed(m, name).value, rest)
  {
    assert ([name] + rest)[1..] == rest;
  }

  /** `finish` removes, one by one, the names the node pushed. */
  lemma {:induction false} FinishedRemovesAll(m: Machine, node: AnyLexemeNode)
    ensures Finished(m, node) == RemovedAll(m, FinishNames(node))
  {
    var tail := if node.quantifier.Some? then [LexemeUnion] else [];
    var names := if node.dataCapturing.Some? then [LexemeDataCapturingName, LexemeDataCapturingList] + tail else tail;
    assert FinishNames(node) == [AtomicFirstIndex] + names;
    RemovedAllCons(m, AtomicFirstIndex, names);
    var m1 := Removed(m, AtomicFirstIndex);
    if m1.Success? {
      var m2 := m1;
      if node.dataCapturing.Some? {
        assert names == [LexemeDataCapturingName] + ([LexemeDataCapturingList] + tail);
        RemovedAllCons(m1.value, LexemeDataCapturingName, [LexemeDataCapturingList] + tail);
        var a := Removed(m1.value, LexemeDataCapturingName);
        if a.Success? {
          RemovedAllCons(a.value, LexemeDataCapturingList, tail);
          m2 := Removed(a.value, LexemeDataCapturingList);
        } else {
          m2 := a;
        }
      }
      if m2.Success? && node.quantifier.Some? {
        RemovedAllCons(m2.value, LexemeUnion, []);
      }
    }
  }

  /**
   * `finish` removes exactly the names the node pushed: `AtomicFirstIndex`, the data-capturing
   * name and list when it captures, `LexemeUnion` when it has a quantifier. It succeeds exactly
   * when they are all bound, and no other name and nothing but the stack changes.
   */
  lemma {:induction false} FinishSpec(m: Machine, node: AnyLexemeNode, other: string)
    ensures Finished(m, node).Success? <==> AllBound(m.stack, FinishNames(node))
    ensures Finished(m, node).Success? ==>
              var after := Finished(m, node).value;
              && Size(after.stack) == Size(m.stack) - |FinishNames(node)|
              && (other !in FinishNames(node) ==> Lookup(after.stack, other) == Lookup(m.stack, other))
              && after.(stack := m.stack) == m
  {
    FinishedRemovesAll(m, node);
    RemovedAllSpec(m, FinishNames(node), other);
  }

  /** A control signal makes the node finish and passes the same signal on to its parent. */
  lemma {:induction false} ControlSpec(m: Machine, signal: Signal, node: AnyLexemeNode)
    requires IsControl(signal)
    ensures Step(m, signal, node).Success? <==> Finished(m, node).Success?
    ensures Step(m, signal, node).Success? ==>
              && Step(m, signal, node).value.next == Jump(node.parent, signal)
              && Step(m, signal, node).value.(next := m.next) == Finished(m, node).value.(next := m.next)
  {
  }

  /** Any other signal returns to the parent with the node's parent signal, changing nothing else. */
  lemma {:induction false} OtherSignalSpec(m: Machine, code: int, node: AnyLexemeNode)
    ensures Step(m, Other(code), node) == Success(m.(next := Jump(node.parent, node.parentSignal)))
  {
  }

  /** The union's index grows by one and nothing else changes. */
  lemma {:induction false} IncrementedSpec(m: Machine)
    ensures Incremented(m).Success? <==> Union(m).Success?
    ensures Incremented(m).Success? ==>
              var (position, union) := Union(m).value;
              && Union(Incremented(m).value) == Success((position, PatternUnion(union.quantifier, union.index + 1)))
              && Incremented(m).value.(heap := m.heap) == m
              && forall p :: p != position ==> (p in m.heap <==> p in Incremented(m).value.heap)
  {
  }

  /**
   * With a quantifier, the end of an iteration removes its result and increments the union's
   * index before the condition is evaluated again, so the decision is taken on the next index.
   */
  lemma {:induction false} EndLexemWithQuantifier(m: Machine, node: AnyLexemeNode, position: int, q: Quantifier, index: int)
    requires node.quantifier.Some? && node.dataCapturing.None?
    requires Lookup(m.stack, Last).Some?
    requires Union(m) == Success((position, PatternUnion(q, index)))
    ensures var removed := Removed(m, Last).value;
            Step(m, EndLexem, node) == Condition(Stored(removed, position, PatternUnion(q, index + 1)), node)
    ensures var removed := Removed(m, Last).value;
            Union(Stored(removed, position, PatternUnion(q, index + 1))) == Success((position, PatternUnion(q, index + 1)))
  {
    RemovedKeepsUnion(m, Last);
    var removed := Removed(m, Last).value;
    assert Incremented(removed) == Success(Stored(removed, position, PatternUnion(q, index + 1)));
  }

  /** Removing another name leaves the union where it was. */
  lemma {:induction false} RemovedKeepsUnion(m: Machine, name: string)
    requires name != LexemeUnion && Lookup(m.stack, name).Some?
    ensures Removed(m, name).Success? && Union(Removed(m, name).value) == Union(m)
  {
    RemoveSpec(m.stack, name, LexemeUnion);
  }

  /** Without a quantifier, the end of the lexeme removes its result and finalizes, never atomically. */
  lemma {:induction false} EndLexemWithoutQuantifier(m: Machine, node: AnyLexemeNode)
    requires node.quantifier.None? && node.dataCapturing.None?
    ensures Step(m, EndLexem, node).Success? ==>
              && Step(m, EndLexem, node) == Finalized(Removed(m, Last).value, node, false)
              && Step(m, EndLexem, node).value.rollbackPoints == m.rollbackPoints
  {
    if Removed(m, Last).Success? {
      FinalizedKeepsRollback(Removed(m, Last).value, node);
    }
  }

  /** The data capture changes nothing but the captured targets. */
  lemma {:induction false} CapturedKeeps(m: Machine, node: AnyLexemeNode)
    ensures Captured(m, node).Success? ==> Captured(m, node).value.(captured := m.captured) == m
  {
  }

  /** A non-atomic finalization keeps the rollback points. */
  lemma {:induction false} FinalizedKeepsRollback(m: Machine, node: AnyLexemeNode)
    ensures Finalized(m, node, false).Success? ==> Finalized(m, node, false).value.rollbackPoints == m.rollbackPoints
  {
    CapturedKeeps(m, node);
    if Captured(m, node).Success? {
      FinishSpec(Captured(m, node).value, node, Last);
    }
  }

  /**
   * An atomic finalization collapses the memory onto the generation saved in `AtomicFirstIndex`,
   * dropping the rollback points frozen since.
   */
  lemma {:induction false} FinalizedAtomic(m: Machine, node: AnyLexemeNode, g: int)
    requires Lookup(m.stack, AtomicFirstIndex) == Some(GenerationHandle(g))
    ensures Finalized(m, node, true).Success? ==>
              0 <= g <= |m.rollbackPoints| && Finalized(m, node, true).value.rollbackPoints == m.rollbackPoints[..g]
  {
    if 0 <= g <= |m.rollbackPoints| {
      FinalizedKeepsRollback(Collapsed(m, g).value, node);
      assert Finalized(m, node, true) == Finalized(Collapsed(m, g).value, node, false);
    }
  }

  /**
   * An atomic lexeme leaves no rollback point behind: whatever was frozen after it started is
   * dropped when it finalizes atomically, and the rollback points are those it started with.
   */
  lemma {:induction false} AtomicLeavesNoRollbackPoint(m0: Machine, m: Machine, node: AnyLexemeNode)
    requires m0.rollbackPoints <= m.rollbackPoints
    requires Lookup(m.stack, AtomicFirstIndex) == Lookup(Step(m0, Start, node).value.stack, AtomicFirstIndex)
    ensures Finalized(m, node, true).Success? ==> Finalized(m, node, true).value.rollbackPoints == m0.rollbackPoints
  {
    StartSpec(m0, node, AtomicFirstIndex);
    FinalizedAtomic(m, node, |m0.rollbackPoints|);
  }

  /**
   * The data capture stores the first captured element when the lexeme has no quantifier and the
   * list itself otherwise; nothing but the captured target changes.
   */
  lemma {:induction false} CapturedSpec(m: Machine, node: AnyLexemeNode, target: string, listRef: Primitive, position: int,
                     items: seq<Primitive>)
    requires node.dataCapturing.Some?
    requires Lookup(m.stack, LexemeDataCapturingName) == Some(Setter(target))
    requires Lookup(m.stack, LexemeDataCapturingList) == Some(listRef)
    requires Deref(m, listRef) == Success((position, ListValue(items)))
    ensures Captured(m, node).Success? <==> node.quantifier.Some? || |items| > 0
    ensures Captured(m, node).Success? ==>
              var after := Captured(m, node).value;
              && after.captured[target] == (if node.quantifier.None? then items[0] else listRef)
              && after.(captured := m.captured) == m
              && forall t :: t != target ==> (t in after.captured <==> t in m.captured)
  {
  }

  /** Each lexeme result is appended to the end of the data-capturing list. */
  lemma {:induction false} AppendedSpec(m: Machine, result: Primitive, listRef: Primitive, position: int, items: seq<Primitive>)
    requires Lookup(m.stack, LexemeDataCapturingList) == Some(listRef)
    requires Deref(m, listRef) == Success((position, ListValue(items)))
    ensures Appended(m, result).Success?
    ensures Deref(Appended(m, result).value, listRef) == Success((position, ListValue(items + [result])))
    ensures Appended(m, result).value.(heap := m.heap) == m
  {
  }

  /**
   * A plain lexeme (no data capturing, no quantifier) leaves the stack as it found it: started, then
   * ending with its result bound to `Last`, it returns to its parent with the original stack and
   * nothing else changed but the next node.
   */
  lemma {:induction false} PlainLexemeRestoresStack(m: Machine, node: AnyLexemeNode, result: Primitive)
    requires WellFormed(m.stack)
    requires node.dataCapturing.None? && node.quantifier.None?
    ensures var started := Step(m, Start, node).value;
            Step(Pushed(started, Last, result), EndLexem, node)
              == Success(m.(next := Jump(node.parent, node.parentSignal)))
  {
    var started := Step(m, Start, node).value;
    PushSpec(started.stack, Last, result, Last);
    RemoveAfterPush(started.stack, Last, result);
    RemoveAfterPush(m.stack, AtomicFirstIndex, GenerationHandle(|m.rollbackPoints|));
  }
}
