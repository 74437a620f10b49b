/**
 * `QuotedIdentifierNode`: identifiers written between backticks, made of text sections separated
 * by escapes. The reader is a text with a movable cursor. Every step of the parser depends only on
 * the text from the cursor on, so the specification is written over that remaining text and gives
 * the number of characters consumed. The escape parser, the end-of-line characters, the escape
 * start token and the closing bracket of Unicode escapes belong to other parsers and are
 * parameters here.
 */
module QuotedIdentifiers {
  import opened Wrappers
  import opened Errors

  /** `startQuote` and `endQuote` (lines 45-46). */
  const StartQuote: char := '`'
  const EndQuote: char := '`'

  /**
   * What the parser borrows from other nodes: the start token of `EscapeNode`, the end-of-line
   * characters of `WhitespaceNode` and `UnicodeEscapeNode.endBracket`.
   */
  datatype Lexicon = Lexicon(escapeStart: char, endOfLine: set<char>, endBracket: string)

  /** `notAllowedChars` (line 47): the backtick and the escape start. */
  predicate NotAllowed(c: char, lex: Lexicon) {
    c == EndQuote || c == lex.escapeStart
  }

  /** A character a section may hold: allowed, and not an end-of-line. */
  predicate Plain(c: char, lex: Lexicon) {
    !NotAllowed(c, lex) && c !in lex.endOfLine
  }

  predicate PlainText(s: string, lex: Lexicon) {
    forall k :: 0 <= k < |s| ==> Plain(s[k], lex)
  }

  /**
   * `Commons.parseSimpleEscape`, given the text from the cursor on: nothing, an escape (given by
   * the text its node prints) with the number of characters it takes, or an error.
   */
  type EscapeParser = string -> Result<Option<(string, nat)>, ParserError>

  /** An escape, when one is read, is not empty and lies inside the text. */
  ghost predicate Advances(escape: EscapeParser) {
    forall rest: string {:trigger escape(rest)} ::
      escape(rest).Success? && escape(rest).value.Some? ==> 0 < escape(rest).value.value.1 <= |rest|
  }

  // ---------------------------------------------------------------------------------------------
  // Specification of the parser, over the text from the cursor on
  // ---------------------------------------------------------------------------------------------

  /**
   * The length of the run of characters that continues a section: it stops at the first
   * character that is not allowed or at the end of the text; an end-of-line before that makes the
   * identifier multiline.
   */
  function RunLength(rest: string, lex: Lexicon): (r: Result<nat, ParserError>)
    ensures r.Success? ==> r.value <= |rest|
    ensures r.Failure? ==> r.error == QuotedIdentifiersMultilineNotAllowed
  {
    if |rest| == 0 || NotAllowed(rest[0], lex) then Success(0)
    else if rest[0] in lex.endOfLine then Failure(QuotedIdentifiersMultilineNotAllowed)
    else
      match RunLength(rest[1..], lex)
      case Failure(e) => Failure(e)
      case Success(n) => Success(n + 1)
  }

  /**
   * `readStringSection` (lines 115-145): nothing when the first character is missing, not
   * allowed or an end-of-line (the cursor stays where it was); otherwise the length of the
   * section, its first character and the run after it.
   */
  function Section(rest: string, lex: Lexicon): (r: Result<Option<nat>, ParserError>)
    ensures r.Success? && r.value.Some? ==> 0 < r.value.value <= |rest|
  {
    if |rest| == 0 || NotAllowed(rest[0], lex) || rest[0] in lex.endOfLine then Success(None)
    else
      match RunLength(rest[1..], lex)
      case Failure(e) => Failure(e)
      case Success(n) => Success(Some(n + 1))
  }

  /** The number of characters a section takes; nothing takes none and yields `""` (lines 62, 66). */
  function Taken(section: Option<nat>): nat {
    if section.Some? then section.value else 0
  }

  /**
   * One round of the loop of lines 64-67: nothing when the escape parser yields nothing;
   * otherwise the escape, the section after it and the number of characters both take.
   */
  function Round(rest: string, lex: Lexicon, escape: EscapeParser)
    : (r: Result<Option<(string, string, nat)>, ParserError>)
    requires Advances(escape)
    ensures r.Success? && r.value.Some? ==> 0 < r.value.value.2 <= |rest|
  {
    match escape(rest)
    case Failure(e) => Failure(e)
    case Success(None) => Success(None)
    case Success(Some((e, length))) =>
      var afterEscape := rest[length..];
      match Section(afterEscape, lex)
      case Failure(err) => Failure(err)
      case Success(section) =>
        var taken := Taken(section);
        Success(Some((e, afterEscape[..taken], length + taken)))
  }

  /**
   * The loop of lines 64-67, from the end of a section: rounds until the escape parser yields
   * nothing. The result holds the sections after the first, the escapes and the number of
   * characters the loop consumed.
   */
  function SectionsFrom(rest: string, lex: Lexicon, escape: EscapeParser)
    : (r: Result<(seq<string>, seq<string>, nat), ParserError>)
    requires Advances(escape)
    ensures r.Success? ==> |r.value.0| == |r.value.1| && r.value.2 <= |rest|
    decreases |rest|
  {
    match Round(rest, lex, escape)
    case Failure(e) => Failure(e)
    case Success(None) => Success(([], [], 0))
    case Success(Some((e, t, n))) =>
      match SectionsFrom(rest[n..], lex, escape)
      case Failure(err) => Failure(err)
      case Success((ts, es, m)) => Success(([t] + ts, [e] + es, n + m))
  }

  /**
   * What lines 62-67 read after the leading backtick: a section (`""` when there is none), then
   * the loop. The result holds all the sections, the escapes and the number of characters read.
   */
  function Sections(body: string, lex: Lexicon, escape: EscapeParser)
    : (r: Result<(seq<string>, seq<string>, nat), ParserError>)
    requires Advances(escape)
    ensures r.Success? ==> |r.value.0| == |r.value.1| + 1 && r.value.2 <= |body|
  {
    match Section(body, lex)
    case Failure(e) => Failure(e)
    case Success(section) =>
      var taken := Taken(section);
      match SectionsFrom(body[taken..], lex, escape)
      case Failure(e) => Failure(e)
      case Success((ts, es, n)) => Success(([body[..taken]] + ts, es, taken + n))
  }

  /**
   * `parse` (lines 54-110): nothing without the leading backtick; otherwise the sections and
   * escapes read and the number of characters up to the end quote (or `endBracket`) included,
   * or an error: an identifier with no character, or one without its end.
   */
  function ParseSpec(rest: string, lex: Lexicon, escape: EscapeParser)
    : (r: Result<Option<(seq<string>, seq<string>, nat)>, ParserError>)
    requires Advances(escape)
    ensures r == Success(None) <==> |rest| == 0 || rest[0] != StartQuote
    ensures r.Success? && r.value.Some? ==>
              var (texts, escapes, n) := r.value.value;
              && |texts| == |escapes| + 1
              && texts != [""]
              && 0 < n <= |rest|
  {
    if |rest| == 0 || rest[0] != StartQuote then Success(None)
    else
      match Sections(rest[1..], lex, escape)
      case Failure(e) => Failure(e)
      case Success((texts, escapes, n)) =>
        var end := 1 + n;
        if texts == [""] then Failure(QuotedIdentifiersEmpty)
        else if [EndQuote] <= rest[end..] then Success(Some((texts, escapes, end + 1)))
        else if lex.endBracket <= rest[end..] then Success(Some((texts, escapes, end + |lex.endBracket|)))
        else Failure(QuotedIdentifiersWithoutEndQuote)
  }

  // ---------------------------------------------------------------------------------------------
  // Properties of sections
  // ---------------------------------------------------------------------------------------------

  /**
   * A run holds neither an end-of-line nor a character that is not allowed, and stops at the
   * first character that is not allowed (or the end of the text).
   */
  lemma {:induction false} RunPlain(rest: string, lex: Lexicon)
    requires RunLength(rest, lex).Success?
    ensures var n := RunLength(rest, lex).value;
            PlainText(rest[..n], lex) && (n == |rest| || NotAllowed(rest[n], lex))
  {
    if |rest| > 0 && !NotAllowed(rest[0], lex) {
      RunPlain(rest[1..], lex);
      var n := RunLength(rest, lex).value;
      assert rest[..n] == [rest[0]] + rest[1..][..n - 1];
    }
  }

  /**
   * A run fails as multiline exactly when an end-of-line comes before the first character that is
   * not allowed.
   */
  lemma {:induction false} RunMultiline(rest: string, lex: Lexicon)
    ensures RunLength(rest, lex).Failure? <==>
              exists j :: 0 <= j < |rest| && rest[j] in lex.endOfLine && !NotAllowed(rest[j], lex)
                && forall k :: 0 <= k < j ==> Plain(rest[k], lex)
  {
    if |rest| > 0 && Plain(rest[0], lex) {
      var tail := rest[1..];
      RunMultiline(tail, lex);
      if RunLength(rest, lex).Failure? {
        var j :| 0 <= j < |tail| && tail[j] in lex.endOfLine && !NotAllowed(tail[j], lex)
                 && forall k :: 0 <= k < j ==> Plain(tail[k], lex);
        assert rest[j + 1] in lex.endOfLine && !NotAllowed(rest[j + 1], lex);
        assert forall k :: 0 <= k < j + 1 ==> Plain(rest[k], lex) by {
          forall k | 1 <= k < j + 1 ensures Plain(rest[k], lex) {
            assert rest[k] == tail[k - 1];
          }
        }
      }
      if exists j :: 0 <= j < |rest| && rest[j] in lex.endOfLine && !NotAllowed(rest[j], lex)
                     && forall k :: 0 <= k < j ==> Plain(rest[k], lex) {
        var j :| 0 <= j < |rest| && rest[j] in lex.endOfLine && !NotAllowed(rest[j], lex)
                 && forall k :: 0 <= k < j ==> Plain(rest[k], lex);
        assert 0 < j;
        assert tail[j - 1] in lex.endOfLine && !NotAllowed(tail[j - 1], lex);
        assert forall k :: 0 <= k < j - 1 ==> Plain(tail[k], lex) by {
          forall k | 0 <= k < j - 1 ensures Plain(tail[k], lex) {
            assert tail[k] == rest[k + 1];
          }
        }
      }
    }
  }

  /**
   * What `readStringSection` reads holds neither a backtick, nor the escape start, nor an
   * end-of-line, and stops before a character that is not allowed.
   */
  lemma {:induction false} SectionPlain(rest: string, lex: Lexicon)
    requires Section(rest, lex).Success? && Section(rest, lex).value.Some?
    ensures var n := Section(rest, lex).value.value;
            && PlainText(rest[..n], lex)
            && (n == |rest| || NotAllowed(rest[n], lex))
  {
    RunPlain(rest[1..], lex);
    var n := Section(rest, lex).value.value;
    assert rest[..n] == [rest[0]] + rest[1..][..n - 1];
  }

  /**
   * A section yields nothing exactly when its first character is missing, not allowed or an
   * end-of-line.
   */
  lemma {:induction false} SectionNothing(rest: string, lex: Lexicon)
    ensures Section(rest, lex) == Success(None) <==>
              |rest| == 0 || NotAllowed(rest[0], lex) || rest[0] in lex.endOfLine
  {
  }

  /**
   * An end-of-line after the first character of a section, before any character that is not
   * allowed, makes the identifier multiline; nothing else does.
   */
  lemma {:induction false} SectionMultiline(rest: string, lex: Lexicon)
    ensures Section(rest, lex) == Failure(QuotedIdentifiersMultilineNotAllowed) <==>
              && |rest| > 0 && Plain(rest[0], lex)
              && exists j :: 1 <= j < |rest| && rest[j] in lex.endOfLine && !NotAllowed(rest[j], lex)
                   && forall k :: 1 <= k < j ==> Plain(rest[k], lex)
  {
    if |rest| > 0 && Plain(rest[0], lex) {
      var tail := rest[1..];
      RunMultiline(tail, lex);
      if Section(rest, lex).Failure? {
        var j :| 0 <= j < |tail| && tail[j] in lex.endOfLine && !NotAllowed(tail[j], lex)
                 && forall k :: 0 <= k < j ==> Plain(tail[k], lex);
        assert rest[j + 1] in lex.endOfLine && !NotAllowed(rest[j + 1], lex);
        assert forall k :: 1 <= k < j + 1 ==> Plain(rest[k], lex) by {
          forall k | 1 <= k < j + 1 ensures Plain(rest[k], lex) {
            assert rest[k] == tail[k - 1];
          }
        }
      }
      if exists j :: 1 <= j < |rest| && rest[j] in lex.endOfLine && !NotAllowed(rest[j], lex)
                     && forall k :: 1 <= k < j ==> Plain(rest[k], lex) {
        var j :| 1 <= j < |rest| && rest[j] in lex.endOfLine && !NotAllowed(rest[j], lex)
                 && forall k :: 1 <= k < j ==> Plain(rest[k], lex);
        assert tail[j - 1] in lex.endOfLine && !NotAllowed(tail[j - 1], lex);
        assert forall k :: 0 <= k < j - 1 ==> Plain(tail[k], lex) by {
          forall k | 0 <= k < j - 1 ensures Plain(tail[k], lex) {
            assert tail[k] == rest[k + 1];
          }
        }
      }
    }
  }

  // ---------------------------------------------------------------------------------------------
  // Properties of the parser
  // ---------------------------------------------------------------------------------------------

  /** Two backticks with no escape between them are an empty identifier. */
  lemma {:induction false} EmptyIdentifier(rest: string, lex: Lexicon, escape: EscapeParser)
    requires Advances(escape) && |rest| >= 2 && rest[0] == StartQuote && rest[1] == EndQuote
    requires escape(rest[1..]) == Success(None)
    ensures ParseSpec(rest, lex, escape) == Failure(QuotedIdentifiersEmpty)
  {
    var body := rest[1..];
    assert body[0..] == body && body[..0] == "";
    assert Round(body, lex, escape) == Success(None);
    assert SectionsFrom(body, lex, escape) == Success(([], [], 0));
    assert [body[..0]] + [] == [""];
  }

  /**
   * When something was read but neither the end quote nor `endBracket` follows it, the identifier
   * is missing its end quote.
   */
  lemma {:induction false} WithoutEndQuote(rest: string, lex: Lexicon, escape: EscapeParser)
    requires Advances(escape) && |rest| > 0 && rest[0] == StartQuote
    requires Sections(rest[1..], lex, escape).Success?
    requires var (texts, _, n) := Sections(rest[1..], lex, escape).value;
             && texts != [""] && !([EndQuote] <= rest[1 + n..]) && !(lex.endBracket <= rest[1 + n..])
    ensures ParseSpec(rest, lex, escape) == Failure(QuotedIdentifiersWithoutEndQuote)
  {
  }

  // ---------------------------------------------------------------------------------------------
  // Writing an identifier and reading it back
  // ---------------------------------------------------------------------------------------------

  /**
   * Escapes, each followed by the section after it, written one after the other and then `tail`
   * (the end quote, in what `toString` writes).
   */
  function ChainThen(escapes: seq<string>, texts: seq<string>, tail: string): string
    requires |texts| == |escapes|
  {
    if |escapes| == 0 then tail else escapes[0] + (texts[0] + ChainThen(escapes[1..], texts[1..], tail))
  }

  /**
   * The text `toString` writes (lines 22-30): the start quote, the first section, each escape
   * followed by the section after it, and the end quote.
   */
  function Written(texts: seq<string>, escapes: seq<string>): string
    requires |texts| == |escapes| + 1
  {
    [StartQuote] + (texts[0] + ChainThen(escapes, texts[1..], [EndQuote]))
  }

  /** The escape parser reads nothing where no escape starts. */
  ghost predicate EscapeNeedsStart(escape: EscapeParser, lex: Lexicon) {
    forall rest: string {:trigger escape(rest)} ::
      (|rest| == 0 || rest[0] != lex.escapeStart) ==> escape(rest) == Success(None)
  }

  /** The escape parser reads back the escape `e` wherever its printed text stands. */
  ghost predicate ReadsBack(escape: EscapeParser, e: string) {
    forall rest: string {:trigger e + rest} :: escape(e + rest) == Success(Some((e, |e|)))
  }

  /** Every section is plain text, one section at a time. */
  ghost predicate AllPlain(texts: seq<string>, lex: Lexicon)
    decreases |texts|
  {
    |texts| == 0 || (PlainText(texts[0], lex) && AllPlain(texts[1..], lex))
  }

  /** Every escape is read back, one escape at a time. */
  ghost predicate AllReadBack(escape: EscapeParser, escapes: seq<string>)
    decreases |escapes|
  {
    |escapes| == 0 || (ReadsBack(escape, escapes[0]) && AllReadBack(escape, escapes[1..]))
  }

  lemma {:induction false} AllPlainSpec(texts: seq<string>, lex: Lexicon)
    ensures AllPlain(texts, lex) <==> forall i :: 0 <= i < |texts| ==> PlainText(texts[i], lex)
    decreases |texts|
  {
    if |texts| > 0 {
      AllPlainSpec(texts[1..], lex);
      assert forall i :: 1 <= i < |texts| ==> texts[i] == texts[1..][i - 1];
    }
  }

  lemma {:induction false} AllReadBackSpec(escape: EscapeParser, escapes: seq<string>)
    ensures AllReadBack(escape, escapes) <==> forall i :: 0 <= i < |escapes| ==> ReadsBack(escape, escapes[i])
    decreases |escapes|
  {
    if |escapes| > 0 {
      AllReadBackSpec(escape, escapes[1..]);
      assert forall i :: 1 <= i < |escapes| ==> escapes[i] == escapes[1..][i - 1];
    }
  }

  /** The nodes `parse` can build from what `toString` writes. */
  ghost predicate Writable(texts: seq<string>, escapes: seq<string>, lex: Lexicon, escape: EscapeParser) {
    && |texts| == |escapes| + 1
    && texts != [""]
    && AllPlain(texts, lex)
    && AllReadBack(escape, escapes)
  }

  /**
   * A node `parse` can build has one section more than escapes, is not the empty identifier, holds
   * plain text in every section and an escape the escape parser reads back in every escape.
   */
  lemma {:induction false} WritableSpec(texts: seq<string>, escapes: seq<string>, lex: Lexicon, escape: EscapeParser)
    ensures Writable(texts, escapes, lex, escape) <==>
              && |texts| == |escapes| + 1
              && texts != [""]
              && (forall i :: 0 <= i < |texts| ==> PlainText(texts[i], lex))
              && (forall i :: 0 <= i < |escapes| ==> ReadsBack(escape, escapes[i]))
  {
    AllPlainSpec(texts, lex);
    AllReadBackSpec(escape, escapes);
  }

  /** An escape that is read back starts with the escape start token. */
  lemma {:induction false} EscapeStart(escape: EscapeParser, lex: Lexicon, e: string)
    requires Advances(escape) && EscapeNeedsStart(escape, lex) && ReadsBack(escape, e)
    ensures |e| >= 1 && e[0] == lex.escapeStart
  {
    assert e + [] == e;
    var r := escape(e + []);
    assert r == Success(Some((e, |e|)));
  }

  /** The two parts of a text made of two parts. */
  lemma {:induction false} Split(a: string, b: string)
    ensures (a + b)[..|a|] == a && (a + b)[|a|..] == b
  {
  }

  /** A plain run followed by a character that is not allowed is read in full. */
  lemma {:induction false} RunWritten(t: string, tail: string, lex: Lexicon)
    requires PlainText(t, lex) && |tail| > 0 && NotAllowed(tail[0], lex)
    ensures RunLength(t + tail, lex) == Success(|t|)
  {
    if |t| > 0 {
      assert (t + tail)[1..] == t[1..] + tail;
      RunWritten(t[1..], tail, lex);
    } else {
      assert t + tail == tail;
    }
  }

  /** A written section, followed by a character that is not allowed, is read in full. */
  lemma {:induction false} SectionWritten(t: string, tail: string, lex: Lexicon)
    requires PlainText(t, lex) && |tail| > 0 && NotAllowed(tail[0], lex)
    ensures Section(t + tail, lex) == if t == "" then Success(None) else Success(Some(|t|))
  {
    if |t| > 0 {
      assert (t + tail)[1..] == t[1..] + tail;
      RunWritten(t[1..], tail, lex);
    } else {
      assert t + tail == tail;
    }
  }

  /** Written escapes and sections, then the end quote, start with a character that is not allowed. */
  lemma {:induction false} ChainStart(escapes: seq<string>, texts: seq<string>, lex: Lexicon, escape: EscapeParser)
    requires |texts| == |escapes|
    requires Advances(escape) && EscapeNeedsStart(escape, lex) && AllReadBack(escape, escapes)
    ensures var rest := ChainThen(escapes, texts, [EndQuote]);
            |rest| > 0 && NotAllowed(rest[0], lex) && rest[|rest| - 1] == EndQuote
  {
    if |escapes| > 0 {
      EscapeStart(escape, lex, escapes[0]);
      ChainStart(escapes[1..], texts[1..], lex, escape);
    }
  }

  /** At the end quote, the loop reads no further escape. */
  lemma {:induction false} NoMoreEscapes(rest: string, lex: Lexicon, escape: EscapeParser)
    requires Advances(escape) && EscapeNeedsStart(escape, lex) && lex.escapeStart != EndQuote
    requires |rest| > 0 && rest[0] == EndQuote
    ensures SectionsFrom(rest, lex, escape) == Success(([], [], 0))
  {
    assert escape(rest) == Success(None);
  }

  /** A round that reads something is followed by the rest of the loop. */
  lemma {:induction false} SectionsStep(rest: string, lex: Lexicon, escape: EscapeParser)
    requires Advances(escape) && Round(rest, lex, escape).Success? && Round(rest, lex, escape).value.Some?
    ensures var (e, t, n) := Round(rest, lex, escape).value.value;
            SectionsFrom(rest, lex, escape) == Prepend([t], [e], n, SectionsFrom(rest[n..], lex, escape))
  {
  }

  /** An escape read, then a written section, is what a round reads. */
  lemma {:induction false} RoundRead(rest: string, e: string, t: string, more: string, lex: Lexicon, escape: EscapeParser)
    requires Advances(escape) && escape(rest) == Success(Some((e, |e|))) && rest[|e|..] == t + more
    requires PlainText(t, lex) && |more| > 0 && NotAllowed(more[0], lex)
    ensures Round(rest, lex, escape) == Success(Some((e, t, |e| + |t|))) && rest[|e| + |t|..] == more
  {
    Split(t, more);
    SectionWritten(t, more, lex);
    assert rest[|e|..][|t|..] == rest[|e| + |t|..];
  }

  /** An escape read, then a written section, is one round of the loop. */
  lemma {:induction false} StepRead(rest: string, e: string, t: string, more: string, lex: Lexicon, escape: EscapeParser)
    requires Advances(escape) && escape(rest) == Success(Some((e, |e|))) && rest[|e|..] == t + more
    requires PlainText(t, lex) && |more| > 0 && NotAllowed(more[0], lex)
    ensures SectionsFrom(rest, lex, escape) == Prepend([t], [e], |e| + |t|, SectionsFrom(more, lex, escape))
  {
    RoundRead(rest, e, t, more, lex, escape);
    SectionsStep(rest, lex, escape);
  }

  /** A written escape, then a written section, is one round of the loop. */
  lemma {:induction false} StepWritten(e: string, t: string, more: string, lex: Lexicon, escape: EscapeParser)
    requires Advances(escape) && ReadsBack(escape, e) && PlainText(t, lex)
    requires |more| > 0 && NotAllowed(more[0], lex)
    ensures SectionsFrom(e + (t + more), lex, escape)
            == Prepend([t], [e], |e| + |t|, SectionsFrom(more, lex, escape))
  {
    Split(e, t + more);
    StepRead(e + (t + more), e, t, more, lex, escape);
  }

  /** The written escapes and sections after the first section are read back, up to the end quote. */
  lemma {:induction false} SectionsWritten(escapes: seq<string>, texts: seq<string>, lex: Lexicon,
                                           escape: EscapeParser)
    requires |texts| == |escapes|
    requires Advances(escape) && EscapeNeedsStart(escape, lex) && lex.escapeStart != EndQuote
    requires AllPlain(texts, lex) && AllReadBack(escape, escapes)
    ensures var rest := ChainThen(escapes, texts, [EndQuote]);
            SectionsFrom(rest, lex, escape) == Success((texts, escapes, |rest| - 1))
  {
    var rest := ChainThen(escapes, texts, [EndQuote]);
    if |escapes| == 0 {
      NoMoreEscapes(rest, lex, escape);
    } else {
      var e := escapes[0];
      var t := texts[0];
      var more := ChainThen(escapes[1..], texts[1..], [EndQuote]);
      ChainStart(escapes[1..], texts[1..], lex, escape);
      StepWritten(e, t, more, lex, escape);
      SectionsWritten(escapes[1..], texts[1..], lex, escape);
      PrependOne(SectionsFrom(rest, lex, escape), SectionsFrom(more, lex, escape), t, e, |e| + |t|,
                 texts[1..], escapes[1..], |more| - 1);
      ConsTail(texts);
      ConsTail(escapes);
    }
  }

  lemma {:induction false} PrependOne(whole: Result<(seq<string>, seq<string>, nat), ParserError>,
                                      rest: Result<(seq<string>, seq<string>, nat), ParserError>,
                                      t: string, e: string, k: nat, texts: seq<string>, escapes: seq<string>, m: nat)
    requires whole == Prepend([t], [e], k, rest) && rest == Success((texts, escapes, m))
    ensures whole == Success(([t] + texts, [e] + escapes, k + m))
  {
  }

  lemma {:induction false} ConsTail<T>(s: seq<T>)
    requires |s| > 0
    ensures [s[0]] + s[1..] == s
  {
  }

  /** A written section, followed by a character that is not allowed, is read in full. */
  lemma {:induction false} FirstRead(body: string, t: string, more: string, lex: Lexicon)
    requires PlainText(t, lex) && |more| > 0 && NotAllowed(more[0], lex) && body == t + more
    ensures Section(body, lex) == (if t == "" then Success(None) else Success(Some(|t|)))
    ensures body[..|t|] == t && body[|t|..] == more
  {
    Split(t, more);
    SectionWritten(t, more, lex);
  }

  /** A section read, then what the loop reads after it, is the body of an identifier. */
  lemma {:induction false} BodyRead(body: string, t: string, more: string, ts: seq<string>, es: seq<string>, n: nat,
                 lex: Lexicon, escape: EscapeParser)
    requires Advances(escape)
    requires Section(body, lex) == (if t == "" then Success(None) else Success(Some(|t|)))
    requires body[..|t|] == t && body[|t|..] == more
    requires SectionsFrom(more, lex, escape) == Success((ts, es, n))
    ensures Sections(body, lex, escape) == Success(([t] + ts, es, |t| + n))
  {
  }

  /** A written section, then what the loop reads after it, is read as the body of an identifier. */
  lemma {:induction false} BodyWritten(t: string, more: string, ts: seq<string>, es: seq<string>, n: nat,
                    lex: Lexicon, escape: EscapeParser)
    requires Advances(escape) && PlainText(t, lex) && |more| > 0 && NotAllowed(more[0], lex)
    requires SectionsFrom(more, lex, escape) == Success((ts, es, n))
    ensures Sections(t + more, lex, escape) == Success(([t] + ts, es, |t| + n))
  {
    FirstRead(t + more, t, more, lex);
    BodyRead(t + more, t, more, ts, es, n, lex, escape);
  }

  /** A backtick, then a body read in full, then the end quote, is read as an identifier. */
  lemma {:induction false} ParseFirst(rest: string, body: string, texts: seq<string>, escapes: seq<string>, n: nat,
                   lex: Lexicon, escape: EscapeParser)
    requires Advances(escape) && texts != [""]
    requires |rest| > 0 && rest[0] == StartQuote && body == rest[1..]
    requires Sections(body, lex, escape) == Success((texts, escapes, n))
    requires 1 + n + 1 == |rest| && rest[|rest| - 1] == EndQuote
    ensures ParseSpec(rest, lex, escape) == Success(Some((texts, escapes, |rest|)))
  {
    assert rest[|rest| - 1..][0] == EndQuote;
  }

  /** What `toString` writes: the start quote, the body and the end quote. */
  lemma {:induction false} WrittenShape(texts: seq<string>, escapes: seq<string>)
    requires |texts| == |escapes| + 1
    ensures var text := Written(texts, escapes);
            var more := ChainThen(escapes, texts[1..], [EndQuote]);
            && |text| == 1 + |texts[0]| + |more| && text[0] == StartQuote && text[1..] == texts[0] + more
            && (|more| > 0 && more[|more| - 1] == EndQuote ==> text[|text| - 1] == EndQuote)
  {
    var more := ChainThen(escapes, texts[1..], [EndQuote]);
    Split([StartQuote], texts[0] + more);
  }

  /** Written escapes and sections, then the end quote, are read back up to the end quote. */
  lemma {:induction false} ChainRead(ts: seq<string>, es: seq<string>, more: string, lex: Lexicon, escape: EscapeParser)
    requires Advances(escape) && EscapeNeedsStart(escape, lex) && lex.escapeStart != EndQuote
    requires |ts| == |es|
    requires AllPlain(ts, lex) && AllReadBack(escape, es)
    requires more == ChainThen(es, ts, [EndQuote])
    ensures |more| > 0 && NotAllowed(more[0], lex)
    ensures SectionsFrom(more, lex, escape) == Success((ts, es, |more| - 1))
  {
    ChainStart(es, ts, lex, escape);
    SectionsWritten(es, ts, lex, escape);
  }

  /** A plain section, then written escapes and sections and the end quote, is read back as a body. */
  lemma {:induction false} BodyChain(t: string, ts: seq<string>, es: seq<string>, more: string, lex: Lexicon, escape: EscapeParser)
    requires Advances(escape) && EscapeNeedsStart(escape, lex) && lex.escapeStart != EndQuote
    requires |ts| == |es| && PlainText(t, lex)
    requires AllPlain(ts, lex) && AllReadBack(escape, es)
    requires more == ChainThen(es, ts, [EndQuote])
    ensures |more| > 0
    ensures Sections(t + more, lex, escape) == Success(([t] + ts, es, |t| + |more| - 1))
  {
    ChainRead(ts, es, more, lex, escape);
    BodyWritten(t, more, ts, es, |more| - 1, lex, escape);
  }

  /** The body `toString` writes, up to the end quote, is read back as the same sections and escapes. */
  lemma {:induction false} BodyOfWritten(more: string, texts: seq<string>, escapes: seq<string>, lex: Lexicon, escape: EscapeParser)
    requires Advances(escape) && EscapeNeedsStart(escape, lex) && lex.escapeStart != EndQuote
    requires |texts| == |escapes| + 1 && more == ChainThen(escapes, texts[1..], [EndQuote])
    requires PlainText(texts[0], lex) && AllPlain(texts[1..], lex) && AllReadBack(escape, escapes)
    ensures |more| > 0
    ensures Sections(texts[0] + more, lex, escape) == Success((texts, escapes, |texts[0]| + |more| - 1))
  {
    BodyChain(texts[0], texts[1..], escapes, more, lex, escape);
    ConsTail(texts);
  }

  /**
   * What `toString` writes is read back by `parse` as the same sections and escapes, taking the
   * whole text.
   */
  lemma {:induction false} ParseWritten(texts: seq<string>, escapes: seq<string>, lex: Lexicon, escape: EscapeParser)
    requires Advances(escape) && EscapeNeedsStart(escape, lex) && lex.escapeStart != EndQuote
    requires Writable(texts, escapes, lex, escape)
    ensures ParseSpec(Written(texts, escapes), lex, escape)
              == Success(Some((texts, escapes, |Written(texts, escapes)|)))
  {
    WrittenParts(texts, escapes, lex, escape);
    var body := texts[0] + ChainThen(escapes, texts[1..], [EndQuote]);
    ParseQuotedBody(body, texts, escapes, lex, escape);
  }

  /** A start quote, then a body read back up to its last character, an end quote, is parsed whole. */
  lemma {:induction false} ParseQuotedBody(body: string, texts: seq<string>, escapes: seq<string>,
                                           lex: Lexicon, escape: EscapeParser)
    requires Advances(escape) && texts != [""]
    requires |body| > 0 && body[|body| - 1] == EndQuote
    requires Sections(body, lex, escape) == Success((texts, escapes, |body| - 1))
    ensures ParseSpec([StartQuote] + body, lex, escape) == Success(Some((texts, escapes, |body| + 1)))
  {
    Quoted(body);
    ParseFirst([StartQuote] + body, body, texts, escapes, |body| - 1, lex, escape);
  }

  /** What `toString` writes is the start quote, then a body read back as the node up to its end quote. */
  lemma {:induction false} WrittenParts(texts: seq<string>, escapes: seq<string>, lex: Lexicon, escape: EscapeParser)
    requires Advances(escape) && EscapeNeedsStart(escape, lex) && lex.escapeStart != EndQuote
    requires Writable(texts, escapes, lex, escape)
    ensures var body := texts[0] + ChainThen(escapes, texts[1..], [EndQuote]);
            && Written(texts, escapes) == [StartQuote] + body
            && |body| > 0 && body[|body| - 1] == EndQuote
            && Sections(body, lex, escape) == Success((texts, escapes, |body| - 1))
  {
    var more := ChainThen(escapes, texts[1..], [EndQuote]);
    ChainStart(escapes, texts[1..], lex, escape);
    BodyOfWritten(more, texts, escapes, lex, escape);
    LastOfAppend(texts[0], more);
  }

  lemma {:induction false} LastOfAppend<T>(a: seq<T>, b: seq<T>)
    requires |b| > 0
    ensures |a + b| > 0 && (a + b)[|a + b| - 1] == b[|b| - 1]
  {
  }

  /** A text made of a start quote and a body. */
  lemma {:induction false} Quoted(body: string)
    requires |body| > 0
    ensures var text := [StartQuote] + body;
            && |text| == |body| + 1 && text[0] == StartQuote && text[1..] == body
            && text[|text| - 1] == body[|body| - 1]
  {
    var text := [StartQuote] + body;
    assert text[1..] == body;
  }

  /** The sections and escapes already read, and the characters they took, put in front of the rest. */
  function Prepend(texts: seq<string>, escapes: seq<string>, taken: nat,
                   rest: Result<(seq<string>, seq<string>, nat), ParserError>)
    : (r: Result<(seq<string>, seq<string>, nat), ParserError>)
  {
    match rest
    case Failure(e) => Failure(e)
    case Success((ts, es, n)) => Success((texts + ts, escapes + es, taken + n))
  }

  lemma {:induction false} Associative(a: seq<string>, b: seq<string>, c: seq<string>)
    ensures a + b + c == a + (b + c)
  {
  }

  lemma {:induction false} PrependNothing(rest: Result<(seq<string>, seq<string>, nat), ParserError>)
    ensures Prepend([], [], 0, rest) == rest
  {
    if rest.Success? {
      assert [] + rest.value.0 == rest.value.0;
      assert [] + rest.value.1 == rest.value.1;
    }
  }

  lemma {:induction false} PrependTwice(a: seq<string>, b: seq<string>, m: nat, c: seq<string>, d: seq<string>, n: nat,
                     rest: Result<(seq<string>, seq<string>, nat), ParserError>)
    ensures Prepend(a, b, m, Prepend(c, d, n, rest)) == Prepend(a + c, b + d, m + n, rest)
  {
    if rest.Success? {
      assert a + (c + rest.value.0) == a + c + rest.value.0;
      assert b + (d + rest.value.1) == b + d + rest.value.1;
    }
  }

  // ---------------------------------------------------------------------------------------------
  // The imperative parser
  // ---------------------------------------------------------------------------------------------

  /**
   * The text from position `n` on, dropped one character at a time; it is `s[n..]` (`SuffixIs`).
   * The reader's rest is written this way so that proofs about the cursor see `s[n..]` only where
   * they ask for it.
   */
  function Suffix(s: string, n: nat): (r: string)
    requires n <= |s|
    ensures |r| == |s| - n
    decreases n
  {
    if n == 0 then s else Suffix(s[1..], n - 1)
  }

  lemma {:induction false} SuffixIs(s: string, n: nat)
    requires n <= |s|
    ensures Suffix(s, n) == s[n..]
    decreases n
  {
    if n > 0 {
      SuffixIs(s[1..], n - 1);
      assert s[1..][n - 1..] == s[n..];
    }
  }

  /** Dropping `k - i` more characters from the text at `i` gives the text at `k`. */
  lemma {:induction false} SuffixTwice(s: string, i: nat, k: nat)
    requires i <= k <= |s|
    ensures Suffix(s, i)[k - i..] == Suffix(s, k)
  {
    SuffixIs(s, i);
    SuffixIs(s, k);
    assert s[i..][k - i..] == s[k..];
  }

  /** The text reader: the text and a cursor into it. */
  class Reader {
    const text: string
    var position: nat

    predicate Valid()
      reads this
    {
      position <= |text|
    }

    /** The text from the cursor on. */
    function Rest(): string
      reads this
      requires Valid()
    {
      Suffix(text, position)
    }

    constructor (text: string)
      ensures this.text == text && position == 0 && Valid()
    {
      this.text := text;
      position := 0;
    }

    /** `readText`: moves past `s` when the text from the cursor starts with it. */
    method ReadText(s: string) returns (found: bool)
      requires Valid()
      modifies this
      ensures Valid()
      ensures found <==> s <= old(Rest())
      ensures position == if found then old(position) + |s| else old(position)
    {
      SuffixIs(text, position);
      found := s <= text[position..];
      if found {
        position := position + |s|;
      }
    }

    /** `readNegativeAnyChar(notAllowedChars)`: reads one character that is not excluded. */
    method ReadNegativeAnyChar(lex: Lexicon) returns (c: Option<char>)
      requires Valid()
      modifies this
      ensures Valid()
      ensures (old(position) < |text| && !NotAllowed(text[old(position)], lex)) ==>
                c == Some(text[old(position)]) && position == old(position) + 1
      ensures (old(position) == |text| || NotAllowed(text[old(position)], lex)) ==>
                c.None? && position == old(position)
    {
      if position < |text| && !NotAllowed(text[position], lex) {
        c := Some(text[position]);
        position := position + 1;
      } else {
        c := None;
      }
    }
  }

  /**
   * `readStringSection` (lines 115-145), reading the text character by character: the result and
   * the cursor are those `Section` gives for the text from the cursor on.
   */
  method ReadStringSection(reader: Reader, lex: Lexicon) returns (r: Result<Option<string>, ParserError>)
    requires reader.Valid()
    modifies reader
    ensures reader.Valid()
    ensures r.Failure? ==> Section(old(reader.Rest()), lex) == Failure(r.error)
    ensures r.Success? ==>
              && Section(old(reader.Rest()), lex).Success?
              && var taken := Taken(Section(old(reader.Rest()), lex).value);
                 && reader.position == old(reader.position) + taken
                 && r.value == (if taken == 0 then None else Some(reader.text[old(reader.position)..reader.position]))
  {
    var init := reader.position;
    ghost var rest := reader.text[init..];
    SuffixIs(reader.text, init);
    var ch := reader.ReadNegativeAnyChar(lex);
    if ch.None? {
      return Success(None);
    }
    if ch.value in lex.endOfLine {
      reader.position := init;
      return Success(None);
    }
    assert rest[1..] == reader.text[reader.position..];
    SuffixIs(reader.text, reader.position);
    var result := [ch.value];
    while true
      invariant reader.Valid() && init < reader.position
      invariant result == reader.text[init..reader.position]
      invariant RunLength(rest[1..], lex).Failure? ==> RunLength(reader.Rest(), lex).Failure?
      invariant RunLength(rest[1..], lex).Success? ==>
                  && RunLength(reader.Rest(), lex).Success?
                  && reader.position + RunLength(reader.Rest(), lex).value == init + 1 + RunLength(rest[1..], lex).value
      decreases |reader.text| - reader.position
    {
      ghost var before := reader.position;
      SuffixIs(reader.text, before);
      if before < |reader.text| {
        assert reader.text[before..][1..] == reader.text[before + 1..];
      }
      ch := reader.ReadNegativeAnyChar(lex);
      SuffixIs(reader.text, reader.position);
      if ch.None? {
        return Success(Some(result));
      }
      if ch.value in lex.endOfLine {
        return Failure(QuotedIdentifiersMultilineNotAllowed);
      }
      result := result + [ch.value];
    }
  }

  /** A quoted identifier: its sections and the escapes between them (`texts` and `escapes`). */
  class QuotedIdentifierNode {
    var texts: seq<string>
    var escapes: seq<string>

    /** `toString` relies on one more section than escapes. */
    predicate Valid()
      reads this
    {
      |texts| == |escapes| + 1
    }

    constructor ()
      ensures texts == [] && escapes == []
    {
      texts := [];
      escapes := [];
    }

    /** `toString` (lines 22-30): the sections and escapes alternated, between quotes. */
    method ToString() returns (s: string)
      requires Valid()
      ensures s == Written(texts, escapes)
    {
      s := [StartQuote];
      for i := 0 to |texts| - 1
        invariant s + texts[i] + ChainThen(escapes[i..], texts[i + 1..], [EndQuote]) == Written(texts, escapes)
      {
        assert escapes[i..][1..] == escapes[i + 1..];
        assert texts[i + 1..][1..] == texts[i + 2..];
        s := s + texts[i] + escapes[i];
      }
      s := s + texts[|texts| - 1] + [EndQuote];
    }
  }

  /**
   * One round of the loop of `parse` (lines 64-67): an escape, then a section, appended to the
   * node; `false` when no escape is read (the `break`). The result, the node and the cursor are
   * those `Round` gives for the text from the cursor on.
   */
  method ReadRound(reader: Reader, node: QuotedIdentifierNode, lex: Lexicon, escape: EscapeParser)
    returns (r: Result<bool, ParserError>)
    requires reader.Valid() && Advances(escape)
    modifies reader, node
    ensures reader.Valid()
    ensures var spec := Round(old(reader.Rest()), lex, escape);
            && (r.Failure? ==> spec == Failure(r.error))
            && (r == Success(false) ==>
                  && spec == Success(None) && reader.position == old(reader.position)
                  && node.texts == old(node.texts) && node.escapes == old(node.escapes))
            && (r == Success(true) ==>
                  && spec.Success? && spec.value.Some?
                  && node.escapes == old(node.escapes) + [spec.value.value.0]
                  && node.texts == old(node.texts) + [spec.value.value.1]
                  && reader.position == old(reader.position) + spec.value.value.2
                  && reader.Rest() == old(reader.Rest())[spec.value.value.2..])
  {
    ghost var before := reader.position;
    ghost var rest := reader.Rest();
    SuffixIs(reader.text, before);
    var e := escape(reader.Rest());
    if e.Failure? {
      return Failure(e.error);
    }
    if e.value.None? {
      return Success(false);
    }
    var (printed, length) := e.value.value;
    node.escapes := node.escapes + [printed];
    reader.position := reader.position + length;
    SuffixIs(reader.text, reader.position);
    assert rest[length..] == reader.Rest();
    var section := ReadStringSection(reader, lex);
    if section.Failure? {
      return Failure(section.error);
    }
    var t := if section.value.Some? then section.value.value else "";
    ghost var taken := reader.position - before - length;
    assert rest[length..][..taken] == t;
    node.texts := node.texts + [t];
    SuffixTwice(reader.text, before, reader.position);
    r := Success(true);
  }

  /**
   * The loop of `parse` (lines 64-67): rounds until no escape is read. What is appended to the
   * node and the cursor are those `SectionsFrom` gives for the text from the cursor on.
   */
  method ReadSections(reader: Reader, node: QuotedIdentifierNode, lex: Lexicon, escape: EscapeParser)
    returns (r: Outcome<ParserError>)
    requires reader.Valid() && Advances(escape)
    modifies reader, node
    ensures reader.Valid()
    ensures var spec := SectionsFrom(old(reader.Rest()), lex, escape);
            && (spec.Failure? ==> r == Fail(spec.error))
            && (spec.Success? ==>
                  && r == Pass
                  && node.texts == old(node.texts) + spec.value.0 && node.escapes == old(node.escapes) + spec.value.1
                  && reader.position == old(reader.position) + spec.value.2)
  {
    ghost var start := reader.position;
    ghost var whole := reader.Rest();
    ghost var texts0 := node.texts;
    ghost var escapes0 := node.escapes;
    while true
      invariant reader.Valid()
      invariant Prepend(texts0, escapes0, start, SectionsFrom(whole, lex, escape))
                == Prepend(node.texts, node.escapes, reader.position, SectionsFrom(reader.Rest(), lex, escape))
      decreases |reader.text| - reader.position
    {
      ghost var before := reader.position;
      ghost var rest := reader.Rest();
      ghost var texts1 := node.texts;
      ghost var escapes1 := node.escapes;
      var more := ReadRound(reader, node, lex, escape);
      if more.Failure? {
        RoundFails(texts1, escapes1, before, rest, more.error, lex, escape);
        PrependFails(texts0, escapes0, start, SectionsFrom(whole, lex, escape));
        return Fail(more.error);
      }
      if !more.value {
        RoundEnds(texts1, escapes1, before, rest, lex, escape);
        return Pass;
      }
      RoundMoves(texts1, escapes1, before, rest, node.texts, node.escapes, reader.position, reader.Rest(), lex, escape);
    }
  }

  /** A round that fails at `rest` fails what the loop of `ReadSections` reads from `rest`. */
  lemma {:induction false} RoundFails(texts: seq<string>, escapes: seq<string>, position: nat, rest: string,
                                      error: ParserError, lex: Lexicon, escape: EscapeParser)
    requires Advances(escape) && Round(rest, lex, escape) == Failure(error)
    ensures Prepend(texts, escapes, position, SectionsFrom(rest, lex, escape)) == Failure(error)
  {
  }

  /** When no round is read at `rest`, the loop of `ReadSections` adds nothing to what was read. */
  lemma {:induction false} RoundEnds(texts: seq<string>, escapes: seq<string>, position: nat, rest: string,
                                     lex: Lexicon, escape: EscapeParser)
    requires Advances(escape) && Round(rest, lex, escape) == Success(None)
    ensures Prepend(texts, escapes, position, SectionsFrom(rest, lex, escape)) == Success((texts, escapes, position))
  {
    assert SectionsFrom(rest, lex, escape) == Success(([], [], 0));
    assert texts + [] == texts && escapes + [] == escapes;
  }

  /**
   * A round read at `rest`, appended to what was read, leaves what the loop of `ReadSections`
   * reads in all unchanged: the loop invariant carries over to the text after the round.
   */
  lemma {:induction false} RoundMoves(texts: seq<string>, escapes: seq<string>, position: nat, rest: string,
                                      texts': seq<string>, escapes': seq<string>, position': nat, rest': string,
                                      lex: Lexicon, escape: EscapeParser)
    requires Advances(escape)
    requires Round(rest, lex, escape).Success? && Round(rest, lex, escape).value.Some?
    requires texts' == texts + [Round(rest, lex, escape).value.value.1]
    requires escapes' == escapes + [Round(rest, lex, escape).value.value.0]
    requires position' == position + Round(rest, lex, escape).value.value.2
    requires rest' == rest[Round(rest, lex, escape).value.value.2..]
    ensures Prepend(texts, escapes, position, SectionsFrom(rest, lex, escape))
            == Prepend(texts', escapes', position', SectionsFrom(rest', lex, escape))
  {
    var (e, t, n) := Round(rest, lex, escape).value.value;
    SectionsStep(rest, lex, escape);
    PrependTwice(texts, escapes, position, [t], [e], n, SectionsFrom(rest', lex, escape));
  }

  /** A failure is failed whatever was read before it. */
  lemma {:induction false} PrependFails(texts: seq<string>, escapes: seq<string>, position: nat,
                                        rest: Result<(seq<string>, seq<string>, nat), ParserError>)
    ensures Prepend(texts, escapes, position, rest).Failure? <==> rest.Failure?
    ensures rest.Failure? ==> Prepend(texts, escapes, position, rest).error == rest.error
  {
  }

  /**
   * Lines 62-67 of `parse`: the first section, then the loop, appended to the node. What is
   * appended and the cursor are those `Sections` gives for the text from the cursor on.
   */
  method ReadBody(reader: Reader, node: QuotedIdentifierNode, lex: Lexicon, escape: EscapeParser)
    returns (r: Outcome<ParserError>)
    requires reader.Valid() && Advances(escape)
    modifies reader, node
    ensures reader.Valid()
    ensures match Sections(old(reader.Rest()), lex, escape)
            case Failure(e) => r == Fail(e)
            case Success((ts, es, n)) =>
              && r == Pass
              && node.texts == old(node.texts) + ts && node.escapes == old(node.escapes) + es
              && reader.position == old(reader.position) + n
  {
    ghost var start := reader.position;
    ghost var body := reader.Rest();
    ghost var texts0 := node.texts;
    var section := ReadStringSection(reader, lex);
    if section.Failure? {
      return Fail(section.error);
    }
    var t := if section.value.Some? then section.value.value else "";
    node.texts := node.texts + [t];
    SuffixIs(reader.text, start);
    SuffixTwice(reader.text, start, reader.position);
    FirstSection(body, t, reader.position - start, reader.Rest(), lex, escape);
    ghost var texts1 := node.texts;
    r := ReadSections(reader, node, lex, escape);
    if r.Pass? {
      Associative(texts0, [t], node.texts[|texts1|..]);
    }
  }

  /** The first section of a body, then the rounds after it, are what `Sections` reads. */
  lemma {:induction false} FirstSection(body: string, t: string, taken: nat, rest: string, lex: Lexicon,
                                        escape: EscapeParser)
    requires Advances(escape) && Section(body, lex).Success? && taken == Taken(Section(body, lex).value)
    requires taken <= |body| && t == body[..taken] && rest == body[taken..]
    ensures Sections(body, lex, escape) == Prepend([t], [], taken, SectionsFrom(rest, lex, escape))
  {
    var after := SectionsFrom(rest, lex, escape);
    if after.Success? {
      var (ts, es, n) := after.value;
      assert Sections(body, lex, escape) == Success(([t] + ts, es, taken + n));
      assert [] + es == es;
    }
  }

  /**
   * `parse` (lines 54-110): the result and the cursor are those `ParseSpec` gives for the text from
   * the cursor on.
   */
  method Parse(reader: Reader, lex: Lexicon, escape: EscapeParser)
    returns (r: Result<Option<QuotedIdentifierNode>, ParserError>)
    requires reader.Valid() && Advances(escape)
    modifies reader
    ensures reader.Valid()
    ensures match ParseSpec(old(reader.Rest()), lex, escape)
            case Failure(e) => r == Failure(e)
            case Success(None) => r == Success(None) && reader.position == old(reader.position)
            case Success(Some((texts, escapes, n))) =>
              && r.Success? && r.value.Some? && fresh(r.value.value)
              && r.value.value.texts == texts && r.value.value.escapes == escapes
              && reader.position == old(reader.position) + n
  {
    ghost var init := reader.position;
    ghost var rest := reader.Rest();
    var result := new QuotedIdentifierNode();
    var quoted := reader.ReadText([StartQuote]);
    if !quoted {
      return Success(None);
    }
    SuffixTwice(reader.text, init, reader.position);
    ghost var body := reader.Rest();
    var read := ReadBody(reader, result, lex, escape);
    if read.Fail? {
      return Failure(read.error);
    }
    ghost var texts, escapes, n := Sections(body, lex, escape).value.0, Sections(body, lex, escape).value.1,
                                   Sections(body, lex, escape).value.2;
    assert [] + texts == texts && [] + escapes == escapes;
    if |result.texts| == 1 && result.texts[0] == "" {
      assert texts == [""];
      return Failure(QuotedIdentifiersEmpty);
    }
    SuffixTwice(reader.text, init, reader.position);
    ParseQuoted(rest, body, texts, escapes, n, reader.Rest(), lex, escape);
    var closed := reader.ReadText([EndQuote]);
    if !closed {
      closed := reader.ReadText(lex.endBracket);
      if !closed {
        return Failure(QuotedIdentifiersWithoutEndQuote);
      }
    }
    r := Success(Some(result));
  }

  /** After the opening backtick and a body with some text, the closing quote decides `ParseSpec`. */
  lemma {:induction false} ParseQuoted(rest: string, body: string, texts: seq<string>, escapes: seq<string>, n: nat,
                                       after: string, lex: Lexicon, escape: EscapeParser)
    requires Advances(escape) && |rest| > 0 && rest[0] == StartQuote && body == rest[1..]
    requires Sections(body, lex, escape) == Success((texts, escapes, n)) && texts != [""] && after == rest[1 + n..]
    ensures ParseSpec(rest, lex, escape)
            == if [EndQuote] <= after then Success(Some((texts, escapes, n + 2)))
               else if lex.endBracket <= after then Success(Some((texts, escapes, 1 + n + |lex.endBracket|)))
               else Failure(QuotedIdentifiersWithoutEndQuote)
  {
  }
}

