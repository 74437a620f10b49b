/**
 * The values the memory stores. Primitives live in stack cells and inside referenced values;
 * referenced values live in heap cells and are reached through `Reference` primitives.
 * Only the shapes the modelled code distinguishes are spelled out.
 */
module Values {
  import opened Wrappers

  /** A lexeme quantifier: bounds on the iteration index plus the lazy and atomic flags. */
  datatype Quantifier = Quantifier(min: int, max: Option<int>, isLazy: bool, isAtomic: bool)
  {
    /** The quantifier is satisfied at iteration `index`. */
    predicate IsFinished(index: int) { min <= index }

    /** One more iteration is allowed after `index`. */
    predicate CanHaveANextIteration(index: int) { max.None? || index < max.value }
  }

  datatype Primitive =
    | Nil
    | Integer(value: int)
    /** A set of code points (LxmInterval). */
    | Interval(points: set<int>)
    /** A pointer into the heap (LxmReference). */
    | Reference(position: int)
    /** A handle on a memory generation (LxmBigNode), identified by its depth in the chain. */
    | GenerationHandle(generation: int)
    | QuantifierValue(quantifier: Quantifier)
    /** A place a value can be assigned to (LexemSetter). */
    | Setter(target: string)
    | OtherPrimitive(tag: int)

  datatype Referenced =
    | ListValue(items: seq<Primitive>)
    /** LxmPatternUnion: a quantifier and the current iteration index. */
    | PatternUnion(quantifier: Quantifier, index: int)
    | OtherReferenced(tag: int)
}
