/** The exception kinds raised by the modelled code; only the kind is modelled, not the report. */
module Errors {
  /** Kinds of AngmarAnalyzerException, plus the JVM failures the analyzers can run into. */
  datatype AnalyzerError =
    | HeapSegmentationFault
    | ReferenceCountUnderflow
    | ReferencedHeapCellFreed
    | StackNotFoundElement
    | IncompatibleType
    | IncorrectRangeBounds
    /** AngmarUnreachableException, or a failed `!!` on a value the code assumes present. */
    | Unreachable
    /** A failed Kotlin `as` cast (ClassCastException). */
    | CastFailure

  /** Kinds of AngmarParserException raised by the modelled parsers. */
  datatype ParserError =
    | NumberWithSequenceStartedWithADigitSeparator
    | NumberWithSequenceEndedWithADigitSeparator
    | NumberWithoutDigitAfterPrefix
    | NumberIntegerWithoutDigitAfterPrefix
    | NumberWithoutDigitAfterDecimalSeparator
    | NumberWithoutDigitAfterExponentSeparator
    | QuotedIdentifiersEmpty
    | QuotedIdentifiersMultilineNotAllowed
    | QuotedIdentifiersWithoutEndQuote
}
