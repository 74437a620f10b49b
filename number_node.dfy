/**
 * The number literal reader of `NumberNode`: digit sequences with `_` separators, radix prefixes,
 * a decimal part and an exponent. The reader is the input text and a cursor; reading advances the
 * cursor, and a parse that yields nothing leaves it where it was.
 */
module Numbers {
  import opened Wrappers
  import opened Errors

  const DigitSeparator: char := '_'
  const DecimalSeparator: char := '.'
  const BinaryPrefix: string := "0b"
  const OctalPrefix: string := "0o"
  const DecimalPrefix: string := "0d"
  const HexadecimalPrefix: string := "0x"
  const BinaryExponentSeparator: string := "eEpP"
  const OctalExponentSeparator: string := "eEpP"
  const DecimalExponentSeparator: string := "eEpP"
  const HexadecimalExponentSeparator: string := "pP"
  const ExponentPositiveSign: char := '+'
  const ExponentNegativeSign: char := '-'

  /** The digit ranges of each radix (`binaryDigits` … `hexadecimalDigits`). */
  predicate IsDigit(c: char, radix: int) {
    if radix == 2 then '0' <= c <= '1'
    else if radix == 8 then '0' <= c <= '7'
    else if radix == 10 then '0' <= c <= '9'
    else if radix == 16 then '0' <= c <= '9' || 'A' <= c <= 'F' || 'a' <= c <= 'f'
    else false
  }

  /** A number node: its radix and the digit strings read, separators removed. */
  datatype NumberLiteral = NumberLiteral(radix: int, integer: string, decimal: Option<string>,
                                         exponentSign: bool, exponent: Option<string>)

  /** `readText`: the text at the cursor starts with `s`. */
  predicate At(text: string, pos: nat, s: string) {
    pos + |s| <= |text| && text[pos..pos + |s|] == s
  }

  // ---------------------------------------------------------------------------------------------
  // Digit sequences
  // ---------------------------------------------------------------------------------------------

  /** The text with its digit separators removed. */
  function Strip(s: string): (r: string)
    ensures |r| <= |s|
  {
    if s == [] then [] else Strip(s[..|s| - 1]) + (if s[|s| - 1] == DigitSeparator then [] else [s[|s| - 1]])
  }

  predicate DigitsOnly(s: string, radix: int) {
    forall k :: 0 <= k < |s| ==> IsDigit(s[k], radix)
  }

  /** What may follow the first digit of a sequence: digits, each optionally preceded by one separator. */
  predicate RestRun(t: string, radix: int)
    decreases |t|
  {
    || t == []
    || (IsDigit(t[0], radix) && RestRun(t[1..], radix))
    || (|t| >= 2 && t[0] == DigitSeparator && IsDigit(t[1], radix) && RestRun(t[2..], radix))
  }

  /** A digit sequence: a digit, then digits each optionally preceded by one separator. */
  predicate DigitRun(s: string, radix: int) {
    |s| >= 1 && IsDigit(s[0], radix) && RestRun(s[1..], radix)
  }

  /** Reading stops here: the input ends, or neither a separator nor a digit follows. */
  predicate Stops(text: string, i: nat, radix: int) {
    i >= |text| || (text[i] != DigitSeparator && !IsDigit(text[i], radix))
  }

  /** A separator here is not followed by a digit. */
  predicate Dangling(text: string, i: nat, radix: int) {
    i < |text| && text[i] == DigitSeparator && (i + 1 == |text| || !IsDigit(text[i + 1], radix))
  }

  /** The loop of lines 334-361 from cursor `i`: the cursor where it stops, or the error it raises. */
  function ScanRest(text: string, i: nat, radix: int): (r: Result<nat, ParserError>)
    requires i <= |text|
    ensures r.Success? ==> i <= r.value <= |text|
    ensures r.Failure? ==> r.error == NumberWithSequenceEndedWithADigitSeparator
    decreases |text| - i
  {
    var separator := i < |text| && text[i] == DigitSeparator;
    var j := if separator then i + 1 else i;
    if j < |text| && IsDigit(text[j], radix) then ScanRest(text, j + 1, radix)
    else if separator then Failure(NumberWithSequenceEndedWithADigitSeparator)
    else Success(i)
  }

  /**
   * `readInteger` (lines 312-365): a leading separator is an error; no digit yields nothing;
   * otherwise the digits read, separators removed, and the cursor after them.
   */
  function ScanInteger(text: string, pos: nat, radix: int): (r: Result<Option<(string, nat)>, ParserError>)
    requires pos <= |text|
    ensures r.Failure? ==> r.error in {NumberWithSequenceStartedWithADigitSeparator, NumberWithSequenceEndedWithADigitSeparator}
    ensures r.Success? && r.value.Some? ==>
              pos < r.value.value.1 <= |text| && |r.value.value.0| >= 1 && DigitsOnly(r.value.value.0, radix)
  {
    if pos < |text| && text[pos] == DigitSeparator then Failure(NumberWithSequenceStartedWithADigitSeparator)
    else if pos < |text| && IsDigit(text[pos], radix) then
      match ScanRest(text, pos + 1, radix)
      case Failure(e) => Failure(e)
      case Success(end) =>
        ScanRestSound(text, pos + 1, radix);
        StripRun(text[pos..end], radix);
        Success(Some((Strip(text[pos..end]), end)))
    else Success(None)
  }

  /** `readInteger` as the source writes it: a `while (true)` loop appending to a string builder. */
  method ReadInteger(text: string, pos: nat, radix: int) returns (r: Result<Option<(string, nat)>, ParserError>)
    requires pos <= |text|
    ensures r == ScanInteger(text, pos, radix)
  {
    if pos < |text| && text[pos] == DigitSeparator {
      return Failure(NumberWithSequenceStartedWithADigitSeparator);
    }
    if !(pos < |text| && IsDigit(text[pos], radix)) {
      return Success(None);
    }
    var sb := [text[pos]];
    var i := pos + 1;
    assert text[pos..i] == [text[pos]];
    while true
      invariant pos < i <= |text|
      invariant sb == Strip(text[pos..i])
      invariant ScanRest(text, i, radix) == ScanRest(text, pos + 1, radix)
      decreases |text| - i
    {
      var separator := i < |text| && text[i] == DigitSeparator;
      var j := if separator then i + 1 else i;
      if !(j < |text| && IsDigit(text[j], radix)) {
        if separator {
          return Failure(NumberWithSequenceEndedWithADigitSeparator);
        }
        break;
      }
      StripStep(text, pos, i, j);
      sb := sb + [text[j]];
      i := j + 1;
    }
    return Success(Some((sb, i)));
  }

  /** One round of the loop appends the digit read, and not the separator before it. */
  lemma {:induction false} StripStep(text: string, pos: nat, i: nat, j: nat)
    requires pos <= i <= j < |text| && (j == i || (j == i + 1 && text[i] == DigitSeparator))
    requires text[j] != DigitSeparator
    ensures Strip(text[pos..j + 1]) == Strip(text[pos..i]) + [text[j]]
  {
    assert text[pos..j + 1][..j - pos] == text[pos..j];
    if j == i + 1 {
      assert text[pos..j][..i - pos] == text[pos..i];
    }
  }

  /** Removing separators from digits changes nothing. */
  lemma {:induction false} StripDigits(s: string, radix: int)
    requires DigitsOnly(s, radix)
    ensures Strip(s) == s
    decreases |s|
  {
    if s != [] {
      StripDigits(s[..|s| - 1], radix);
      assert s[..|s| - 1] + [s[|s| - 1]] == s;
    }
  }

  /** Removing separators distributes over concatenation. */
  lemma {:induction false} StripAppend(a: string, b: string)
    ensures Strip(a + b) == Strip(a) + Strip(b)
    decreases |b|
  {
    if b == [] {
      assert a + b == a;
    } else {
      assert (a + b)[..|a + b| - 1] == a + b[..|b| - 1];
      StripAppend(a, b[..|b| - 1]);
    }
  }

  /** After a run's first digit, the stripped run is digits only. */
  lemma {:induction false} RestRunStrip(t: string, radix: int)
    requires RestRun(t, radix)
    ensures DigitsOnly(Strip(t), radix)
    decreases |t|
  {
    if t != [] {
      if IsDigit(t[0], radix) && RestRun(t[1..], radix) {
        RestRunStrip(t[1..], radix);
        assert t == [t[0]] + t[1..];
        StripAppend([t[0]], t[1..]);
        assert Strip([t[0]]) == [t[0]] by { assert [t[0]][..0] == []; }
      } else {
        RestRunStrip(t[2..], radix);
        assert t == [t[0], t[1]] + t[2..];
        StripAppend([t[0], t[1]], t[2..]);
        assert Strip([t[0], t[1]]) == [t[1]] by {
          assert [t[0], t[1]][..1] == [t[0]] && [t[0]][..0] == [];
        }
      }
    }
  }

  /** A stripped run is a non-empty string of digits. */
  lemma {:induction false} StripRun(s: string, radix: int)
    requires |s| >= 1 && IsDigit(s[0], radix) && RestRun(s[1..], radix)
    ensures |Strip(s)| >= 1 && DigitsOnly(Strip(s), radix) && Strip(s)[0] == s[0]
  {
    RestRunStrip(s[1..], radix);
    assert s == [s[0]] + s[1..];
    StripAppend([s[0]], s[1..]);
    assert Strip([s[0]]) == [s[0]] by { assert [s[0]][..0] == []; }
  }

  /** A string of digits is a run after its first digit. */
  lemma {:induction false} DigitsRestRun(t: string, radix: int)
    requires DigitsOnly(t, radix)
    ensures RestRun(t, radix)
    decreases |t|
  {
    if t != [] {
      DigitsRestRun(t[1..], radix);
    }
  }

  /** Where the loop stops or fails, from what it read. */
  lemma {:induction false} ScanRestSound(text: string, i: nat, radix: int)
    requires i <= |text|
    ensures ScanRest(text, i, radix).Success? ==>
              var end := ScanRest(text, i, radix).value;
              i <= end <= |text| && RestRun(text[i..end], radix) && Stops(text, end, radix)
    ensures ScanRest(text, i, radix).Failure? ==>
              && ScanRest(text, i, radix).error == NumberWithSequenceEndedWithADigitSeparator
              && exists end :: i <= end <= |text| && RestRun(text[i..end], radix) && Dangling(text, end, radix)
    decreases |text| - i
  {
    var separator := i < |text| && text[i] == DigitSeparator;
    var j := if separator then i + 1 else i;
    if j < |text| && IsDigit(text[j], radix) {
      ScanRestSound(text, j + 1, radix);
      if ScanRest(text, j + 1, radix).Success? {
        RunExtends(text, i, j, ScanRest(text, j + 1, radix).value, radix);
      } else {
        var end :| j + 1 <= end <= |text| && RestRun(text[j + 1..end], radix) && Dangling(text, end, radix);
        RunExtends(text, i, j, end, radix);
      }
    } else {
      assert text[i..i] == [];
    }
  }

  /** A digit, or a separator and a digit, before a run makes a longer run. */
  lemma {:induction false} RunExtends(text: string, i: nat, j: nat, end: nat, radix: int)
    requires i <= j < end <= |text| && IsDigit(text[j], radix)
    requires j == i || (j == i + 1 && text[i] == DigitSeparator)
    requires RestRun(text[j + 1..end], radix)
    ensures RestRun(text[i..end], radix)
  {
    var t := text[i..end];
    assert t[j + 1 - i..] == text[j + 1..end];
    assert t[j - i] == text[j];
  }

  /** The loop runs through a whole run: from its start it ends where it would from its end. */
  lemma {:induction false} ScanRestThrough(text: string, i: nat, end: nat, radix: int)
    requires i <= end <= |text| && RestRun(text[i..end], radix)
    ensures ScanRest(text, i, radix) == ScanRest(text, end, radix)
    decreases end - i
  {
    var t := text[i..end];
    if t != [] {
      if IsDigit(t[0], radix) && RestRun(t[1..], radix) {
        assert t[1..] == text[i + 1..end];
        ScanRestThrough(text, i + 1, end, radix);
      } else {
        assert t[2..] == text[i + 2..end];
        ScanRestThrough(text, i + 2, end, radix);
      }
    }
  }

  /**
   * `readInteger` against the grammar of digit sequences: it fails on a leading separator,
   * yields nothing without a leading digit, and otherwise yields the stripped maximal run, whose
   * characters are digits of the radix; a run ending in a dangling separator is an error.
   */
  lemma {:induction false} ScanIntegerSound(text: string, pos: nat, radix: int)
    requires pos <= |text|
    ensures ScanInteger(text, pos, radix) == Failure(NumberWithSequenceStartedWithADigitSeparator) <==>
              pos < |text| && text[pos] == DigitSeparator
    ensures ScanInteger(text, pos, radix) == Success(None) <==>
              !(pos < |text| && (text[pos] == DigitSeparator || IsDigit(text[pos], radix)))
    ensures ScanInteger(text, pos, radix).Success? && ScanInteger(text, pos, radix).value.Some? ==>
              var (digits, end) := ScanInteger(text, pos, radix).value.value;
              && pos < end <= |text| && DigitRun(text[pos..end], radix) && Stops(text, end, radix)
              && digits == Strip(text[pos..end]) && |digits| >= 1 && DigitsOnly(digits, radix)
    ensures ScanInteger(text, pos, radix) == Failure(NumberWithSequenceEndedWithADigitSeparator) ==>
              exists end :: pos < end <= |text| && DigitRun(text[pos..end], radix) && Dangling(text, end, radix)
  {
    if pos < |text| && text[pos] != DigitSeparator && IsDigit(text[pos], radix) {
      ScanRestSound(text, pos + 1, radix);
      match ScanRest(text, pos + 1, radix)
      case Success(end) =>
        assert text[pos..end][1..] == text[pos + 1..end];
      case Failure(_) =>
        var end :| pos + 1 <= end <= |text| && RestRun(text[pos + 1..end], radix) && Dangling(text, end, radix);
        assert text[pos..end][1..] == text[pos + 1..end];
    }
  }

  /** Conversely, a maximal run is read in full, and a run ending in a dangling separator fails. */
  lemma {:induction false} ScanIntegerComplete(text: string, pos: nat, end: nat, radix: int)
    requires pos < end <= |text| && DigitRun(text[pos..end], radix)
    ensures Stops(text, end, radix) ==>
              ScanInteger(text, pos, radix) == Success(Some((Strip(text[pos..end]), end)))
    ensures Dangling(text, end, radix) ==>
              ScanInteger(text, pos, radix) == Failure(NumberWithSequenceEndedWithADigitSeparator)
  {
    assert text[pos..end][1..] == text[pos + 1..end];
    ScanRestThrough(text, pos + 1, end, radix);
  }

  // ---------------------------------------------------------------------------------------------
  // Number literals
  // ---------------------------------------------------------------------------------------------

  /** The exponent part (lines 217-258), read from cursor `p` after the integer or decimal part. */
  function ParseExponent(text: string, p: nat, radix: int, exponentSeparator: string, node: NumberLiteral)
    : (r: Result<Option<(NumberLiteral, nat)>, ParserError>)
    requires p <= |text| && node.exponent.None?
    ensures r.Success? ==> r.value.Some? && p <= r.value.value.1 <= |text|
    ensures r.Success? && r.value.value.1 > p ==>
              && text[p] in exponentSeparator
              && r.value.value.0.exponent.Some?
              && (r.value.value.0.exponentSign <==> !(p + 1 < |text| && text[p + 1] == ExponentNegativeSign))
    ensures r.Success? && r.value.value.1 == p ==> r.value.value.0 == node
    ensures r.Success? ==>
              var n := r.value.value.0;
              && n.radix == node.radix && n.integer == node.integer && n.decimal == node.decimal
              && (n.exponent.Some? ==> |n.exponent.value| >= 1 && DigitsOnly(n.exponent.value, radix))
              && (n.exponent.None? ==> n.exponent == node.exponent)
    ensures r == Failure(NumberWithoutDigitAfterExponentSeparator) ==> p < |text| && text[p] in exponentSeparator
    ensures !(p < |text| && text[p] in exponentSeparator) ==> r == Success(Some((node, p)))
    ensures p < |text| && text[p] in exponentSeparator ==>
              var q := if p + 1 < |text| && text[p + 1] in [ExponentPositiveSign, ExponentNegativeSign] then p + 2 else p + 1;
              (Stops(text, q, radix) <==> r == Failure(NumberWithoutDigitAfterExponentSeparator))
  {
    if p < |text| && text[p] in exponentSeparator then
      var hasSign := p + 1 < |text| && text[p + 1] in [ExponentPositiveSign, ExponentNegativeSign];
      var q := if hasSign then p + 2 else p + 1;
      match ScanInteger(text, q, radix)
      case Failure(e) => Failure(e)
      case Success(None) => Failure(NumberWithoutDigitAfterExponentSeparator)
      case Success(Some((value, end))) =>
        Success(Some((node.(exponentSign := !(hasSign && text[p + 1] == ExponentNegativeSign),
                            exponent := Some(value)), end)))
    else Success(Some((node, p)))
  }

  /**
   * `parseDecimal` (lines 136-261): optional or compulsory prefix, integer part, decimal part and
   * exponent. `checkIdentifier` is `Commons.checkIdentifier` at a cursor, which is not part of
   * this model. A result of nothing leaves the cursor unmoved.
   */
  function ParseDecimal(text: string, pos: nat, radix: int, prefix: string, isPrefixCompulsory: bool,
                        exponentSeparator: string, checkIdentifier: (string, nat) -> bool)
    : (r: Result<Option<(NumberLiteral, nat)>, ParserError>)
    requires pos <= |text|
    ensures !At(text, pos, prefix) && isPrefixCompulsory ==> r == Success(None)
    ensures r == Failure(NumberWithoutDigitAfterPrefix) ==> At(text, pos, prefix)
    ensures At(text, pos, prefix) && Stops(text, pos + |prefix|, radix) ==> r == Failure(NumberWithoutDigitAfterPrefix)
    ensures !At(text, pos, prefix) && !isPrefixCompulsory && Stops(text, pos, radix) ==> r == Success(None)
    ensures r.Success? && r.value.Some? ==>
              var scanned := ScanInteger(text, if At(text, pos, prefix) then pos + |prefix| else pos, radix);
              scanned.Success? && scanned.value.Some? && scanned.value.value.0 == r.value.value.0.integer
    ensures r.Success? && r.value.Some? ==>
              var (node, end) := r.value.value;
              && node.radix == radix && pos < end <= |text|
              && |node.integer| >= 1 && DigitsOnly(node.integer, radix)
              && (node.decimal.Some? ==> |node.decimal.value| >= 1 && DigitsOnly(node.decimal.value, radix))
              && (node.exponent.Some? ==> |node.exponent.value| >= 1 && DigitsOnly(node.exponent.value, radix))
  {
    var hasPrefix := At(text, pos, prefix);
    if !hasPrefix && isPrefixCompulsory then Success(None)
    else
      var p := if hasPrefix then pos + |prefix| else pos;
      match ScanInteger(text, p, radix)
      case Failure(e) => Failure(e)
      case Success(None) => if hasPrefix then Failure(NumberWithoutDigitAfterPrefix) else Success(None)
      case Success(Some((integer, afterInteger))) =>
        ParseFraction(text, afterInteger, radix, exponentSeparator, checkIdentifier,
                      NumberLiteral(radix, integer, None, true, None))
  }

  /**
   * The decimal part and the exponent of `parseDecimal` (lines 183-260), from the cursor after the
   * integer part. A separator without digits is an error unless an identifier follows, and then
   * the cursor goes back before the separator and no exponent is read.
   */
  function ParseFraction(text: string, afterInteger: nat, radix: int, exponentSeparator: string,
                         checkIdentifier: (string, nat) -> bool, node: NumberLiteral)
    : (r: Result<Option<(NumberLiteral, nat)>, ParserError>)
    requires afterInteger <= |text| && node.decimal.None? && node.exponent.None?
    ensures r.Success? ==> r.value.Some?
    ensures r.Success? && r.value.Some? ==>
              var (n, end) := r.value.value;
              && afterInteger <= end <= |text|
              && n.radix == node.radix && n.integer == node.integer
              && (n.decimal.Some? ==> |n.decimal.value| >= 1 && DigitsOnly(n.decimal.value, radix))
              && (n.exponent.Some? ==> |n.exponent.value| >= 1 && DigitsOnly(n.exponent.value, radix))
    ensures r == Failure(NumberWithoutDigitAfterDecimalSeparator) ==>
              At(text, afterInteger, [DecimalSeparator]) && !checkIdentifier(text, afterInteger + 1)
    ensures At(text, afterInteger, [DecimalSeparator]) && Stops(text, afterInteger + 1, radix) ==>
              r == if checkIdentifier(text, afterInteger + 1) then Success(Some((node, afterInteger)))
                   else Failure(NumberWithoutDigitAfterDecimalSeparator)
  {
    if At(text, afterInteger, [DecimalSeparator]) then
      match ScanInteger(text, afterInteger + 1, radix)
      case Failure(e) => Failure(e)
      case Success(None) =>
        if !checkIdentifier(text, afterInteger + 1) then Failure(NumberWithoutDigitAfterDecimalSeparator)
        else Success(Some((node, afterInteger)))
      case Success(Some((decimal, afterDecimal))) =>
        ParseExponent(text, afterDecimal, radix, exponentSeparator, node.(decimal := Some(decimal)))
    else ParseExponent(text, afterInteger, radix, exponentSeparator, node)
  }

  /** `parseInteger` (lines 263-310): prefix and integer part only. */
  function ParseInteger(text: string, pos: nat, radix: int, prefix: string, isPrefixCompulsory: bool)
    : (r: Result<Option<(NumberLiteral, nat)>, ParserError>)
    requires pos <= |text|
    ensures !At(text, pos, prefix) && isPrefixCompulsory ==> r == Success(None)
    ensures r == Failure(NumberIntegerWithoutDigitAfterPrefix) ==> At(text, pos, prefix)
    ensures At(text, pos, prefix) && Stops(text, pos + |prefix|, radix) ==> r == Failure(NumberIntegerWithoutDigitAfterPrefix)
    ensures !At(text, pos, prefix) && !isPrefixCompulsory && Stops(text, pos, radix) ==> r == Success(None)
    ensures r.Success? && r.value.Some? ==>
              ScanInteger(text, if At(text, pos, prefix) then pos + |prefix| else pos, radix)
                == Success(Some((r.value.value.0.integer, r.value.value.1)))
    ensures r.Success? && r.value.Some? ==>
              var (node, end) := r.value.value;
              && node == NumberLiteral(radix, node.integer, None, true, None) && pos < end <= |text|
              && |node.integer| >= 1 && DigitsOnly(node.integer, radix)
  {
    var hasPrefix := At(text, pos, prefix);
    if !hasPrefix && isPrefixCompulsory then Success(None)
    else
      var p := if hasPrefix then pos + |prefix| else pos;
      match ScanInteger(text, p, radix)
      case Failure(e) => Failure(e)
      case Success(None) => if hasPrefix then Failure(NumberIntegerWithoutDigitAfterPrefix) else Success(None)
      case Success(Some((integer, end))) => Success(Some((NumberLiteral(radix, integer, None, true, None), end)))
  }

  /** The first alternative that does not yield nothing: errors and successes both stop the search. */
  function OrElse<T>(first: Result<Option<T>, ParserError>, second: Result<Option<T>, ParserError>)
    : (r: Result<Option<T>, ParserError>)
    ensures first != Success(None) ==> r == first
    ensures first == Success(None) ==> r == second
  {
    if first == Success(None) then second else first
  }

  /** `parseAnyNumberDefaultDecimal` (lines 90-100): binary, octal, hexadecimal, then decimal. */
  function ParseAnyNumberDefaultDecimal(text: string, pos: nat, checkIdentifier: (string, nat) -> bool)
    : (r: Result<Option<(NumberLiteral, nat)>, ParserError>)
    requires pos <= |text|
    ensures r.Success? && r.value.Some? ==> r.value.value.0.radix in {2, 8, 10, 16}
    ensures r.Success? && r.value.Some? && r.value.value.0.radix != 10 ==>
              At(text, pos, PrefixOf(r.value.value.0.radix))
  {
    OrElse(ParseDecimal(text, pos, 2, BinaryPrefix, true, BinaryExponentSeparator, checkIdentifier),
    OrElse(ParseDecimal(text, pos, 8, OctalPrefix, true, OctalExponentSeparator, checkIdentifier),
    OrElse(ParseDecimal(text, pos, 16, HexadecimalPrefix, true, HexadecimalExponentSeparator, checkIdentifier),
           ParseDecimal(text, pos, 10, DecimalPrefix, false, DecimalExponentSeparator, checkIdentifier))))
  }

  /** `parseAnyIntegerDefaultDecimal` (lines 105-114): the same order, integers only. */
  function ParseAnyIntegerDefaultDecimal(text: string, pos: nat): (r: Result<Option<(NumberLiteral, nat)>, ParserError>)
    requires pos <= |text|
    ensures r.Success? && r.value.Some? ==>
              && r.value.value.0.radix in {2, 8, 10, 16}
              && r.value.value.0.decimal.None? && r.value.value.0.exponent.None?
    ensures r.Success? && r.value.Some? && r.value.value.0.radix != 10 ==>
              At(text, pos, PrefixOf(r.value.value.0.radix))
  {
    OrElse(ParseInteger(text, pos, 2, BinaryPrefix, true),
    OrElse(ParseInteger(text, pos, 8, OctalPrefix, true),
    OrElse(ParseInteger(text, pos, 16, HexadecimalPrefix, true),
           ParseInteger(text, pos, 10, DecimalPrefix, false))))
  }

  /** The prefix of a radix. */
  function PrefixOf(radix: int): string
    requires radix in {2, 8, 10, 16}
  {
    if radix == 2 then BinaryPrefix else if radix == 8 then OctalPrefix
    else if radix == 10 then DecimalPrefix else HexadecimalPrefix
  }

  /** The exponent separators of a radix. */
  function ExponentSeparatorOf(radix: int): string
    requires radix in {2, 8, 10, 16}
  {
    if radix == 2 then BinaryExponentSeparator else if radix == 8 then OctalExponentSeparator
    else if radix == 10 then DecimalExponentSeparator else HexadecimalExponentSeparator
  }

  /** `toString` (lines 22-48); a radix other than 2, 8, 10 and 16 is unreachable. */
  function ToString(n: NumberLiteral): (r: Result<string, AnalyzerError>)
    ensures r.Failure? <==> n.radix !in {2, 8, 10, 16}
    ensures r.Success? ==> At(r.value, 0, PrefixOf(n.radix))
  {
    if n.radix !in {2, 8, 10, 16} then Failure(Unreachable)
    else
      Success(PrefixOf(n.radix) + n.integer + FractionText(n))
  }

  /** The nodes the parser can build. */
  predicate WellFormed(n: NumberLiteral) {
    && n.radix in {2, 8, 10, 16}
    && |n.integer| >= 1 && DigitsOnly(n.integer, n.radix)
    && (n.decimal.Some? ==> |n.decimal.value| >= 1 && DigitsOnly(n.decimal.value, n.radix))
    && (n.exponent.Some? ==> |n.exponent.value| >= 1 && DigitsOnly(n.exponent.value, n.radix))
    && (n.exponent.None? ==> n.exponentSign)
  }

  /** In hexadecimal, `e` and `E` are digits and not exponent separators; `p` and `P` are never digits. */
  lemma {:induction false} HexadecimalExponentLetters()
    ensures IsDigit('e', 16) && IsDigit('E', 16)
    ensures 'e' !in HexadecimalExponentSeparator && 'E' !in HexadecimalExponentSeparator
    ensures forall radix :: radix in {2, 8, 10, 16} ==> HexadecimalExponentSeparator[0] in ExponentSeparatorOf(radix)
    ensures forall radix :: !IsDigit('p', radix) && !IsDigit('P', radix)
  {
  }

  /** The exponent part `toString` writes: the letter `p`, the sign, the digits. */
  function ExponentText(n: NumberLiteral): string
    requires n.exponent.Some?
  {
    [HexadecimalExponentSeparator[0]]
    + [if n.exponentSign then ExponentPositiveSign else ExponentNegativeSign]
    + n.exponent.value
  }

  /** The exponent part starts with the letter `p`. */
  lemma {:induction false} ExponentStart(n: NumberLiteral)
    requires n.exponent.Some?
    ensures |ExponentText(n)| >= 2 && ExponentText(n)[0] == 'p'
  {
  }

  /** A suffix of the text that is not empty starts at a character of the text. */
  lemma {:induction false} SuffixHead(text: string, i: nat, s: string)
    requires i <= |text| && text[i..] == s && |s| > 0
    ensures i < |text| && text[i] == s[0]
  {
    assert text[i..][0] == text[i];
  }

  /** What `toString` writes after the integer part: the decimal part, then the exponent. */
  function FractionText(n: NumberLiteral): string {
    (if n.decimal.Some? then [DecimalSeparator] + n.decimal.value else "")
    + (if n.exponent.Some? then ExponentText(n) else "")
  }

  /** A digit string in the text, followed by neither a digit nor a separator, is read in full. */
  lemma {:induction false} ScanWritten(text: string, q: nat, digits: string, radix: int)
    requires q + |digits| <= |text| && text[q..q + |digits|] == digits
    requires |digits| >= 1 && DigitsOnly(digits, radix)
    requires Stops(text, q + |digits|, radix)
    ensures ScanInteger(text, q, radix) == Success(Some((digits, q + |digits|)))
  {
    DigitsRestRun(digits[1..], radix);
    StripDigits(digits, radix);
    ScanIntegerComplete(text, q, q + |digits|, radix);
  }

  /** The exponent `toString` writes is read back with its sign and digits. */
  lemma {:induction false} ParseExponentWritten(text: string, p: nat, n: NumberLiteral, node: NumberLiteral)
    requires WellFormed(n) && p <= |text|
    requires node == n.(exponentSign := true, exponent := None)
    requires n.exponent.Some? ==> text[p..] == ExponentText(n)
    requires n.exponent.None? ==> p == |text|
    ensures ParseExponent(text, p, n.radix, ExponentSeparatorOf(n.radix), node) == Success(Some((n, |text|)))
  {
    if n.exponent.Some? {
      var e := n.exponent.value;
      ExponentParts(text, p, n);
      ScanWritten(text, p + 2, e, n.radix);
      assert 'p' in ExponentSeparatorOf(n.radix);
      ExponentStep(text, p, n.radix, ExponentSeparatorOf(n.radix), node, e, |text|);
    }
  }

  /** Where the exponent part is written, its letter, sign and digits follow one another. */
  lemma {:induction false} ExponentParts(text: string, p: nat, n: NumberLiteral)
    requires n.exponent.Some? && p <= |text| && text[p..] == ExponentText(n)
    ensures |text| == p + 2 + |n.exponent.value| && text[p] == 'p'
    ensures text[p + 1] == if n.exponentSign then ExponentPositiveSign else ExponentNegativeSign
    ensures text[p + 2..p + 2 + |n.exponent.value|] == n.exponent.value
  {
    assert text[p..][0] == text[p] && text[p..][1] == text[p + 1];
    assert text[p..][2..] == text[p + 2..];
    assert ExponentText(n)[2..] == n.exponent.value;
  }

  /** A separator, a sign and digits make the exponent, signed by the sign read. */
  lemma {:induction false} ExponentStep(text: string, p: nat, radix: int, exponentSeparator: string, node: NumberLiteral,
                                        e: string, end: nat)
    requires p + 1 < |text| && node.exponent.None?
    requires text[p] in exponentSeparator && text[p + 1] in [ExponentPositiveSign, ExponentNegativeSign]
    requires ScanInteger(text, p + 2, radix) == Success(Some((e, end)))
    ensures ParseExponent(text, p, radix, exponentSeparator, node)
              == Success(Some((node.(exponentSign := text[p + 1] == ExponentPositiveSign, exponent := Some(e)), end)))
  {
  }

  /** A text whose tail is `a + b` holds `a` and then `b` from that point. */
  lemma {:induction false} SplitTail(text: string, i: nat, a: string, b: string)
    requires i <= |text| && text[i..] == a + b
    ensures i + |a| <= |text| && text[i..i + |a|] == a && text[i + |a|..] == b
  {
    assert text[i..][..|a|] == text[i..i + |a|];
    assert text[i..][|a|..] == text[i + |a|..];
  }

  /** The decimal part and exponent `toString` writes are read back. */
  lemma {:induction false} ParseFractionWritten(text: string, afterInteger: nat, n: NumberLiteral, checkIdentifier: (string, nat) -> bool)
    requires WellFormed(n) && afterInteger <= |text|
    requires text[afterInteger..] == FractionText(n)
    ensures ParseFraction(text, afterInteger, n.radix, ExponentSeparatorOf(n.radix), checkIdentifier,
                          NumberLiteral(n.radix, n.integer, None, true, None)) == Success(Some((n, |text|)))
  {
    var exponentText := if n.exponent.Some? then ExponentText(n) else "";
    if n.decimal.Some? {
      DecimalWritten(text, afterInteger, n, checkIdentifier);
    } else {
      assert text[afterInteger..] == exponentText;
      NoDecimalWritten(text, afterInteger, n, checkIdentifier);
    }
  }

  /** With a decimal part, the separator, the digits and the exponent follow one another. */
  lemma {:induction false} DecimalWritten(text: string, afterInteger: nat, n: NumberLiteral, checkIdentifier: (string, nat) -> bool)
    requires WellFormed(n) && n.decimal.Some? && afterInteger <= |text|
    requires text[afterInteger..] == [DecimalSeparator] + n.decimal.value + (if n.exponent.Some? then ExponentText(n) else "")
    ensures ParseFraction(text, afterInteger, n.radix, ExponentSeparatorOf(n.radix), checkIdentifier,
                          NumberLiteral(n.radix, n.integer, None, true, None)) == Success(Some((n, |text|)))
  {
    var d := n.decimal.value;
    var exponentText := if n.exponent.Some? then ExponentText(n) else "";
    assert text[afterInteger..] == [DecimalSeparator] + (d + exponentText);
    SplitTail(text, afterInteger, [DecimalSeparator], d + exponentText);
    SplitTail(text, afterInteger + 1, d, exponentText);
    ScanExponentWritten(text, afterInteger, n, checkIdentifier);
  }

  /** Without a decimal part, the exponent is read from the cursor after the integer part. */
  lemma {:induction false} NoDecimalWritten(text: string, afterInteger: nat, n: NumberLiteral, checkIdentifier: (string, nat) -> bool)
    requires WellFormed(n) && n.decimal.None? && afterInteger <= |text|
    requires text[afterInteger..] == (if n.exponent.Some? then ExponentText(n) else "")
    ensures ParseFraction(text, afterInteger, n.radix, ExponentSeparatorOf(n.radix), checkIdentifier,
                          NumberLiteral(n.radix, n.integer, None, true, None)) == Success(Some((n, |text|)))
  {
    assert !At(text, afterInteger, [DecimalSeparator]) by {
      if n.exponent.Some? {
        ExponentStart(n);
        SuffixHead(text, afterInteger, ExponentText(n));
      }
    }
    ParseExponentWritten(text, afterInteger, n, NumberLiteral(n.radix, n.integer, None, true, None));
  }

  /** After the decimal separator, the decimal digits and then the exponent are read back. */
  lemma {:induction false} ScanExponentWritten(text: string, afterInteger: nat, n: NumberLiteral, checkIdentifier: (string, nat) -> bool)
    requires WellFormed(n) && n.decimal.Some?
    requires afterInteger + 1 + |n.decimal.value| <= |text|
    requires At(text, afterInteger, [DecimalSeparator])
    requires text[afterInteger + 1..afterInteger + 1 + |n.decimal.value|] == n.decimal.value
    requires text[afterInteger + 1 + |n.decimal.value|..] == (if n.exponent.Some? then ExponentText(n) else "")
    ensures ParseFraction(text, afterInteger, n.radix, ExponentSeparatorOf(n.radix), checkIdentifier,
                          NumberLiteral(n.radix, n.integer, None, true, None)) == Success(Some((n, |text|)))
  {
    var d := n.decimal.value;
    var afterDecimal := afterInteger + 1 + |d|;
    assert Stops(text, afterDecimal, n.radix) by {
      if afterDecimal < |text| {
        ExponentStart(n);
        SuffixHead(text, afterDecimal, ExponentText(n));
      }
    }
    ScanWritten(text, afterInteger + 1, d, n.radix);
    var node := NumberLiteral(n.radix, n.integer, None, true, None);
    FractionThroughDecimal(text, afterInteger, n.radix, ExponentSeparatorOf(n.radix), checkIdentifier, node, d, afterDecimal);
    assert node.(decimal := Some(d)) == NumberLiteral(n.radix, n.integer, Some(d), true, None);
    ParseExponentWritten(text, afterDecimal, n, NumberLiteral(n.radix, n.integer, Some(d), true, None));
  }

  /** After a separator and decimal digits, the fraction is what the exponent reader makes of the rest. */
  lemma {:induction false} FractionThroughDecimal(text: string, afterInteger: nat, radix: int, exponentSeparator: string,
                                                  checkIdentifier: (string, nat) -> bool, node: NumberLiteral,
                                                  d: string, afterDecimal: nat)
    requires afterInteger <= |text| && node.decimal.None? && node.exponent.None?
    requires At(text, afterInteger, [DecimalSeparator])
    requires ScanInteger(text, afterInteger + 1, radix) == Success(Some((d, afterDecimal)))
    ensures afterDecimal <= |text|
    ensures ParseFraction(text, afterInteger, radix, exponentSeparator, checkIdentifier, node)
              == ParseExponent(text, afterDecimal, radix, exponentSeparator, node.(decimal := Some(d)))
  {
  }

  /** A text made of three parts holds each of them where it belongs. */
  lemma {:induction false} SplitThree(text: string, a: string, b: string, c: string)
    requires text == a + b + c
    ensures At(text, 0, a) && text[|a|..|a| + |b|] == b && text[|a| + |b|..] == c
  {
    assert text[0..] == a + (b + c);
    SplitTail(text, 0, a, b + c);
    SplitTail(text, |a|, b, c);
  }

  /** What `toString` writes after the integer part starts with neither a digit nor a separator. */
  lemma {:induction false} FractionStops(text: string, i: nat, n: NumberLiteral)
    requires i <= |text| && text[i..] == FractionText(n)
    ensures Stops(text, i, n.radix)
  {
    if i < |text| {
      assert text[i] == FractionText(n)[0];
      assert FractionText(n)[0] in [DecimalSeparator, 'p'];
    }
  }

  /** The number `toString` writes, read with its own radix's parameters, is the number written. */
  lemma {:induction false} ParseDecimalWritten(text: string, n: NumberLiteral, checkIdentifier: (string, nat) -> bool)
    requires WellFormed(n) && text == PrefixOf(n.radix) + n.integer + FractionText(n)
    ensures ParseDecimal(text, 0, n.radix, PrefixOf(n.radix), n.radix != 10, ExponentSeparatorOf(n.radix), checkIdentifier)
              == Success(Some((n, |text|)))
  {
    SplitThree(text, PrefixOf(n.radix), n.integer, FractionText(n));
    ParseDecimalParts(text, n, checkIdentifier);
  }

  /** The prefix, the integer digits and the fraction, where they belong in the text, are read back. */
  lemma {:induction false} ParseDecimalParts(text: string, n: NumberLiteral, checkIdentifier: (string, nat) -> bool)
    requires WellFormed(n) && At(text, 0, PrefixOf(n.radix))
    requires |PrefixOf(n.radix)| + |n.integer| <= |text|
    requires text[|PrefixOf(n.radix)|..|PrefixOf(n.radix)| + |n.integer|] == n.integer
    requires text[|PrefixOf(n.radix)| + |n.integer|..] == FractionText(n)
    ensures ParseDecimal(text, 0, n.radix, PrefixOf(n.radix), n.radix != 10, ExponentSeparatorOf(n.radix), checkIdentifier)
              == Success(Some((n, |text|)))
  {
    var prefix := PrefixOf(n.radix);
    var afterInteger := |prefix| + |n.integer|;
    FractionStops(text, afterInteger, n);
    ScanWritten(text, |prefix|, n.integer, n.radix);
    DecimalThroughInteger(text, 0, n.radix, prefix, n.radix != 10, ExponentSeparatorOf(n.radix), checkIdentifier,
                          n.integer, afterInteger);
    ParseFractionWritten(text, afterInteger, n, checkIdentifier);
  }

  /** After the prefix and the integer digits, the number is what the fraction reader makes of the rest. */
  lemma {:induction false} DecimalThroughInteger(text: string, pos: nat, radix: int, prefix: string, isPrefixCompulsory: bool,
                                                 exponentSeparator: string, checkIdentifier: (string, nat) -> bool,
                                                 integer: string, afterInteger: nat)
    requires pos <= |text| && At(text, pos, prefix)
    requires ScanInteger(text, pos + |prefix|, radix) == Success(Some((integer, afterInteger)))
    ensures afterInteger <= |text|
    ensures ParseDecimal(text, pos, radix, prefix, isPrefixCompulsory, exponentSeparator, checkIdentifier)
              == ParseFraction(text, afterInteger, radix, exponentSeparator, checkIdentifier,
                               NumberLiteral(radix, integer, None, true, None))
  {
  }

  /**
   * `toString` always writes the prefix and writes the exponent with `p`, so re-reading what it
   * writes recovers the radix, the integer and decimal digits, the sign and the exponent digits,
   * and consumes the whole text.
   */
  lemma {:induction false} ParseToString(n: NumberLiteral, checkIdentifier: (string, nat) -> bool)
    requires WellFormed(n)
    ensures ToString(n).Success?
    ensures ParseAnyNumberDefaultDecimal(ToString(n).value, 0, checkIdentifier)
              == Success(Some((n, |ToString(n).value|)))
  {
    var text := ToString(n).value;
    ParseDecimalWritten(text, n, checkIdentifier);
    assert text[..2] == PrefixOf(n.radix);
    var prefixLetter := PrefixOf(n.radix)[1];
    assert text[1] == prefixLetter;
    if n.radix != 2 {
      assert prefixLetter != 'b' && !At(text, 0, BinaryPrefix);
    }
    if n.radix != 2 && n.radix != 8 {
      assert prefixLetter != 'o' && !At(text, 0, OctalPrefix);
    }
    if n.radix == 10 {
      assert prefixLetter != 'x' && !At(text, 0, HexadecimalPrefix);
    }
  }
}
