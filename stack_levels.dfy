/**
 * The resolved stack of a memory generation: a sequence of name-to-primitive levels,
 * level 0 first and the top level last. These functions state what `addToStack`,
 * `getFromStack`, `removeFromStack` and `replaceStackCell` do to that resolved view
 * (analyzer/memory/BigNode.kt:75-219); the class BigNode is proved against them.
 */
module StackLevels {
  import opened Wrappers
  import opened Values
  import opened Errors

  type Level = map<string, Primitive>
  type Levels = seq<Level>

  function Top(levels: Levels): Level
    requires levels != []
  {
    levels[|levels| - 1]
  }

  /** Levels without the top one. */
  function Below(levels: Levels): Levels
    requires levels != []
  {
    levels[..|levels| - 1]
  }

  /** The invariant the memory keeps: the top level is never empty. */
  predicate WellFormed(levels: Levels) {
    levels == [] || Top(levels) != map[]
  }

  /** Number of bindings over all levels (the source's actualStackSize). */
  function Size(levels: Levels): nat {
    if levels == [] then 0 else Size(Below(levels)) + |Top(levels)|
  }

  /** The topmost level binding `name`, found by the downward search the source performs. */
  function FindLevel(levels: Levels, name: string): (r: Option<nat>)
    ensures r.None? ==> forall i :: 0 <= i < |levels| ==> name !in levels[i]
    ensures r.Some? ==> r.value < |levels| && name in levels[r.value]
    ensures r.Some? ==> forall j :: r.value < j < |levels| ==> name !in levels[j]
  {
    if levels == [] then None
    else if name in Top(levels) then Some(|levels| - 1)
    else FindLevel(Below(levels), name)
  }

  /** The downward search finds level `i` when it binds the name and no level above it does. */
  lemma {:induction false} FindLevelAt(levels: Levels, name: string, i: int)
    requires 0 <= i < |levels| && name in levels[i]
    requires forall j :: i < j < |levels| ==> name !in levels[j]
    ensures FindLevel(levels, name) == Some(i)
  {
    var r := FindLevel(levels, name);
    assert r.Some?;
    assert !(r.value < i) && !(r.value > i);
  }

  /** The value `getFromStack(name)` returns: the topmost binding, if any. */
  function Lookup(levels: Levels, name: string): Option<Primitive> {
    match FindLevel(levels, name)
    case None => None
    case Some(i) => Some(levels[i][name])
  }

  /** `getFromStack(name)` finds a binding exactly when some level binds `name`, and then it is the topmost one. */
  lemma {:induction false} LookupSpec(levels: Levels, name: string)
    ensures Lookup(levels, name).None? <==> forall i :: 0 <= i < |levels| ==> name !in levels[i]
    ensures Lookup(levels, name).Some? ==>
              exists i :: 0 <= i < |levels| && name in levels[i] && levels[i][name] == Lookup(levels, name).value
                          && forall j :: i < j < |levels| ==> name !in levels[j]
  {
    match FindLevel(levels, name)
    case None =>
    case Some(i) =>
  }

  /**
   * `addToStack`: bind `name` in the top level, or open a new level when the top level already
   * binds it, so that the older binding survives underneath.
   */
  function Push(levels: Levels, name: string, value: Primitive): (r: Levels)
    ensures |r| == if levels != [] && name !in Top(levels) then |levels| else |levels| + 1
    ensures forall i :: 0 <= i < |levels| - 1 ==> r[i] == levels[i]
    ensures WellFormed(r)
  {
    var single := map[name := value];
    assert name in single;
    if levels == [] then [single]
    else if name in Top(levels) then levels + [single]
    else
      var top := Top(levels)[name := value];
      assert name in top;
      Below(levels) + [top]
  }

  /** Drop empty levels from the top, as `removeFromStack` does after emptying the top level. */
  function PopEmptyLevels(levels: Levels): (r: Levels)
    ensures |r| <= |levels| && r == levels[..|r|]
    ensures WellFormed(r)
    ensures forall i :: |r| <= i < |levels| ==> levels[i] == map[]
  {
    if levels != [] && Top(levels) == map[] then PopEmptyLevels(Below(levels)) else levels
  }

  /**
   * `removeFromStack`: remove the topmost binding of `name`, popping the top level (and the empty
   * levels below it) when it becomes empty; yields the removed value, whose references are released.
   */
  function Remove(levels: Levels, name: string): Result<(Levels, Primitive), AnalyzerError> {
    match FindLevel(levels, name)
    case None => Failure(StackNotFoundElement)
    case Some(i) =>
      var level := levels[i] - {name};
      var updated := levels[i := level];
      Success((if level == map[] && i == |levels| - 1 then PopEmptyLevels(updated) else updated, levels[i][name]))
  }

  /** `replaceStackCell`: rebind the topmost binding of `name` in place; yields the replaced value. */
  function Replace(levels: Levels, name: string, value: Primitive): Result<(Levels, Primitive), AnalyzerError> {
    match FindLevel(levels, name)
    case None => Failure(StackNotFoundElement)
    case Some(i) => Success((levels[i := levels[i][name := value]], levels[i][name]))
  }

  // ---------------------------------------------------------------------------
  // Properties

  lemma {:induction false} LookupOnTop(levels: Levels, top: Level, name: string)
    ensures Lookup(levels + [top], name) == if name in top then Some(top[name]) else Lookup(levels, name)
  {
    assert Below(levels + [top]) == levels;
  }

  lemma {:induction false} SizeAppend(levels: Levels, top: Level)
    ensures Size(levels + [top]) == Size(levels) + |top|
  {
    assert Below(levels + [top]) == levels;
  }

  lemma {:induction false} SizeUpdate(levels: Levels, i: nat, level: Level)
    requires i < |levels|
    ensures Size(levels[i := level]) + |levels[i]| == Size(levels) + |level|
    decreases |levels|
  {
    if i < |levels| - 1 {
      assert Below(levels[i := level]) == Below(levels)[i := level];
      SizeUpdate(Below(levels), i, level);
    } else {
      assert Below(levels[i := level]) == Below(levels);
    }
  }

  /** Popping empty levels loses no binding and no lookup. */
  lemma {:induction false} PopEmptyLevelsKeepsBindings(levels: Levels, name: string)
    ensures Lookup(PopEmptyLevels(levels), name) == Lookup(levels, name)
    ensures Size(PopEmptyLevels(levels)) == Size(levels)
    decreases |levels|
  {
    if levels != [] && Top(levels) == map[] {
      PopEmptyLevelsKeepsBindings(Below(levels), name);
      LookupOnTop(Below(levels), Top(levels), name);
      SizeAppend(Below(levels), Top(levels));
      assert Below(levels) + [Top(levels)] == levels;
    }
  }

  /** After `addToStack(name, v)`, `getFromStack(name)` yields `v`; every other name is unaffected; one more binding. */
  lemma {:induction false} PushSpec(levels: Levels, name: string, value: Primitive, other: string)
    ensures Lookup(Push(levels, name, value), name) == Some(value)
    ensures other != name ==> Lookup(Push(levels, name, value), other) == Lookup(levels, other)
    ensures Size(Push(levels, name, value)) == Size(levels) + 1
  {
    if levels == [] {
      LookupOnTop([], map[name := value], name);
      LookupOnTop([], map[name := value], other);
      SizeAppend([], map[name := value]);
    } else if name in Top(levels) {
      LookupOnTop(levels, map[name := value], name);
      LookupOnTop(levels, map[name := value], other);
      SizeAppend(levels, map[name := value]);
    } else {
      PushIntoTop(levels, name, value, other);
    }
  }

  /** `PushSpec` where the top level does not bind the name yet, so the binding joins it. */
  lemma {:induction false} PushIntoTop(levels: Levels, name: string, value: Primitive, other: string)
    requires levels != [] && name !in Top(levels)
    ensures Lookup(Push(levels, name, value), name) == Some(value)
    ensures other != name ==> Lookup(Push(levels, name, value), other) == Lookup(levels, other)
    ensures Size(Push(levels, name, value)) == Size(levels) + 1
  {
    var top := Top(levels)[name := value];
    assert Push(levels, name, value) == Below(levels) + [top];
    LookupOnTop(Below(levels), top, name);
    LookupOnTop(Below(levels), top, other);
    LookupOnTop(Below(levels), Top(levels), other);
    assert Below(levels) + [Top(levels)] == levels;
    SizeAppend(Below(levels), top);
    SizeAppend(Below(levels), Top(levels));
    BindingAdded(Top(levels), name, value);
  }

  /** Binding a new name adds one binding to a level. */
  lemma {:induction false} BindingAdded(level: Level, name: string, value: Primitive)
    requires name !in level
    ensures |level[name := value]| == |level| + 1
  {
    assert level[name := value].Keys == level.Keys + {name};
  }

  /** Pushing a name the top level already binds keeps every existing level intact (the shadowed binding survives). */
  lemma {:induction false} PushShadows(levels: Levels, name: string, value: Primitive)
    requires levels != [] && name in Top(levels)
    ensures Push(levels, name, value) == levels + [map[name := value]]
    ensures Push(levels, name, value)[..|levels|] == levels
  {
  }

  /**
   * `removeFromStack(name)` fails with StackNotFoundElement exactly when `getFromStack(name)` would,
   * otherwise releases the topmost binding, keeps every other name and the well-formedness of the stack.
   */
  lemma {:induction false} RemoveSpec(levels: Levels, name: string, other: string)
    ensures Remove(levels, name).Failure? <==> Lookup(levels, name).None?
    ensures Remove(levels, name).Failure? ==> Remove(levels, name).error == StackNotFoundElement
    ensures Remove(levels, name).Success? ==>
              var (after, removed) := Remove(levels, name).value;
              && Some(removed) == Lookup(levels, name)
              && Size(after) == Size(levels) - 1
              && (other != name ==> Lookup(after, other) == Lookup(levels, other))
              && Lookup(after, name) == Lookup(levels[..FindLevel(levels, name).value], name)
              && (WellFormed(levels) ==> WellFormed(after))
  {
    if FindLevel(levels, name).Some? {
      RemovedAt(levels, name, FindLevel(levels, name).value, other);
    }
  }

  /** `RemoveSpec` where the topmost binding of the name is in level `i`. */
  lemma {:induction false} RemovedAt(levels: Levels, name: string, i: nat, other: string)
    requires FindLevel(levels, name) == Some(i)
    ensures Remove(levels, name).Success?
    ensures var (after, removed) := Remove(levels, name).value;
            && Some(removed) == Lookup(levels, name)
            && Size(after) == Size(levels) - 1
            && (other != name ==> Lookup(after, other) == Lookup(levels, other))
            && Lookup(after, name) == Lookup(levels[..i], name)
            && (WellFormed(levels) ==> WellFormed(after))
  {
    var level := levels[i] - {name};
    var updated := levels[i := level];
    BindingRemoved(levels[i], name);
    SizeUpdate(levels, i, level);
    if other != name {
      LookupUpdateOther(levels, i, level, other);
    }
    LookupBelow(updated, name, i);
    assert updated[..i] == levels[..i];
    if level == map[] && i == |levels| - 1 {
      PopEmptyLevelsKeepsBindings(updated, other);
      PopEmptyLevelsKeepsBindings(updated, name);
    }
  }

  /** When no level from `i` up binds `name`, the lookup falls to the levels below `i`. */
  lemma {:induction false} LookupBelow(levels: Levels, name: string, i: nat)
    requires i <= |levels|
    requires forall j :: i <= j < |levels| ==> name !in levels[j]
    ensures Lookup(levels, name) == Lookup(levels[..i], name)
    decreases |levels|
  {
    if i < |levels| {
      LookupOnTop(Below(levels), Top(levels), name);
      assert Below(levels) + [Top(levels)] == levels;
      assert Below(levels)[..i] == levels[..i];
      LookupBelow(Below(levels), name, i);
    } else {
      assert levels[..i] == levels;
    }
  }

  /** Unbinding a bound name removes one binding from a level. */
  lemma {:induction false} BindingRemoved(level: Level, name: string)
    requires name in level
    ensures |level - {name}| == |level| - 1
  {
    assert (level - {name}).Keys + {name} == level.Keys;
  }

  /** Rewriting one level without touching `other` leaves the lookup of `other` unchanged. */
  lemma {:induction false} LookupUpdateOther(levels: Levels, i: nat, level: Level, other: string)
    requires i < |levels|
    requires other in level <==> other in levels[i]
    requires other in level ==> level[other] == levels[i][other]
    ensures Lookup(levels[i := level], other) == Lookup(levels, other)
    decreases |levels|
  {
    var updated := levels[i := level];
    LookupOnTop(Below(levels), Top(levels), other);
    LookupOnTop(Below(updated), Top(updated), other);
    assert Below(levels) + [Top(levels)] == levels;
    assert Below(updated) + [Top(updated)] == updated;
    if i < |levels| - 1 {
      assert Below(updated) == Below(levels)[i := level];
      LookupUpdateOther(Below(levels), i, level, other);
    } else {
      assert Below(updated) == Below(levels);
    }
  }

  /** Removing a binding right after pushing it restores the stack exactly (push and remove are inverses). */
  lemma {:induction false} RemoveAfterPush(levels: Levels, name: string, value: Primitive)
    requires WellFormed(levels)
    ensures Remove(Push(levels, name, value), name) == Success((levels, value))
  {
    if levels != [] && name !in Top(levels) {
      RemoveAfterPushIntoTop(levels, name, value);
    } else {
      var pushed := Push(levels, name, value);
      assert FindLevel(pushed, name) == Some(|pushed| - 1);
      if levels == [] {
        assert map[name := value] - {name} == map[];
        assert pushed[0 := pushed[0] - {name}] == [map[]];
        assert PopEmptyLevels([map[]]) == PopEmptyLevels([]);
      } else {
        var updated := pushed[|levels| := map[]];
        assert updated == levels + [map[]];
        assert Below(updated) == levels;
      }
    }
  }

  /** `RemoveAfterPush` where the binding joined the top level: removing it gives the top level back. */
  lemma {:induction false} RemoveAfterPushIntoTop(levels: Levels, name: string, value: Primitive)
    requires WellFormed(levels) && levels != [] && name !in Top(levels)
    ensures Remove(Push(levels, name, value), name) == Success((levels, value))
  {
    var top := Top(levels)[name := value];
    var pushed := Below(levels) + [top];
    assert Push(levels, name, value) == pushed;
    assert FindLevel(pushed, name) == Some(|levels| - 1);
    assert top - {name} == Top(levels);
    assert pushed[|levels| - 1 := Top(levels)] == levels;
  }

  /**
   * `replaceStackCell(name, v)` fails exactly when `name` is unbound; otherwise `name` now yields `v`,
   * the number of levels and of bindings is unchanged, and other names are unaffected.
   */
  lemma {:induction false} ReplaceSpec(levels: Levels, name: string, value: Primitive, other: string)
    ensures Replace(levels, name, value).Failure? <==> Lookup(levels, name).None?
    ensures Replace(levels, name, value).Success? ==>
              var (after, replaced) := Replace(levels, name, value).value;
              && Some(replaced) == Lookup(levels, name)
              && Lookup(after, name) == Some(value)
              && |after| == |levels|
              && Size(after) == Size(levels)
              && (other != name ==> Lookup(after, other) == Lookup(levels, other))
              && (WellFormed(levels) ==> WellFormed(after))
  {
    match FindLevel(levels, name)
    case None =>
    case Some(i) =>
      var level := levels[i][name := value];
      var after := levels[i := level];
      assert level.Keys == levels[i].Keys;
      SizeUpdate(levels, i, level);
      if other != name {
        LookupUpdateOther(levels, i, level, other);
      }
      ReplaceLookupSame(levels, i, level, name);
  }

  lemma {:induction false} ReplaceLookupSame(levels: Levels, i: nat, level: Level, name: string)
    requires i < |levels| && name in level
    requires forall j :: i < j < |levels| ==> name !in levels[j]
    ensures Lookup(levels[i := level], name) == Some(level[name])
  {
    var after := levels[i := level];
    assert forall j :: i < j < |after| ==> name !in after[j];
    assert name in after[i];
    match FindLevel(after, name)
    case None =>
    case Some(k) =>
  }
}
