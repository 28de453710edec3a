/**
 * What `GenericTokenParser.parse` promises, proved about its specification
 * `Scan` (and so, through `TokenParser.Parse`'s postcondition, about the
 * parser's loops).
 */
module TokenParserProperties {
  import opened Wrappers
  import opened Strings
  import opened TokenParser

  /** An empty text yields the empty string, and the handler is not called. */
  lemma ParseEmpty(openToken: string, closeToken: string, handler: string -> string)
    requires |openToken| > 0
    ensures Parsed(openToken, closeToken, handler, "") == Some("")
    ensures HandlerCalls(openToken, closeToken, handler, "") == Some([])
  {
    assert OpenStepAt("", openToken, closeToken, 0) == OpenMissing;
  }

  /** A text without the open token is returned unchanged, and the handler is not called. */
  lemma ParseWithoutOpenToken(openToken: string, closeToken: string, handler: string -> string, text: string)
    requires |openToken| > 0 && !Contains(text, openToken)
    ensures Parsed(openToken, closeToken, handler, text) == Some(text)
    ensures HandlerCalls(openToken, closeToken, handler, text) == Some([])
  {
    assert OpenStepAt(text, openToken, closeToken, 0) == OpenMissing;
    SubstringIsSlice(text, 0, |text|);
    assert text[0..|text|] == text;
  }

  /** An expression that `ScanClose` finds ends just before an occurrence of the close token. */
  lemma {:induction false} ScanCloseEndsAtCloseToken(text: string, closeToken: string, from: nat)
    requires from <= |text|
    ensures ScanClose(text, closeToken, from).Closed? ==>
      OccursAt(text, closeToken, ScanClose(text, closeToken, from).next - |closeToken|)
    decreases |text| - from
  {
    IndexOfFirst(text, closeToken, from);
    match CloseStepAt(text, closeToken, from)
    case CloseMissing =>
    case CloseEscaped(_, next) => ScanCloseEndsAtCloseToken(text, closeToken, next);
    case CloseFound(_, _) =>
  }

  /** A token that is not empty and does not end in a backslash. */
  predicate NoTrailingBackslash(token: string)
  {
    |token| > 0 && token[|token| - 1] != Backslash
  }

  /**
   * The parser throws only when the character before an open token is a
   * backslash that it has already consumed as the last character of a token;
   * with tokens that do not end in a backslash that cannot happen.
   */
  lemma {:induction false} ScanNeverThrows(text: string, openToken: string, closeToken: string,
                                           handler: string -> string, offset: nat)
    requires NoTrailingBackslash(openToken) && NoTrailingBackslash(closeToken) && offset <= |text|
    requires offset == 0 || text[offset - 1] != Backslash
    ensures Scan(text, openToken, closeToken, handler, offset).Some?
    decreases |text| - offset
  {
    var start := IndexOf(text, openToken, offset);
    IndexOfFirst(text, openToken, offset);
    match OpenStepAt(text, openToken, closeToken, offset)
    case OpenEscaped(_, next) =>
      OccursAtSlice(text, openToken, start);
      assert text[next - 1] == text[start..next][|openToken| - 1];
      ScanNeverThrows(text, openToken, closeToken, handler, next);
    case OpenToken(_, _, next) =>
      ScanCloseEndsAtCloseToken(text, closeToken, start + |openToken|);
      var end := next - |closeToken|;
      OccursAtSlice(text, closeToken, end);
      assert text[next - 1] == text[end..next][|closeToken| - 1];
      ScanNeverThrows(text, openToken, closeToken, handler, next);
    case OpenMissing =>
    case OpenUnclosed =>
    case EscapeThrows =>
  }

  lemma ParseNeverThrows(openToken: string, closeToken: string, handler: string -> string, text: string)
    requires NoTrailingBackslash(openToken) && NoTrailingBackslash(closeToken)
    ensures Parsed(openToken, closeToken, handler, text).Some?
  {
    ScanNeverThrows(text, openToken, closeToken, handler, 0);
  }

  /**
   * The scan throws only on a text that holds a backslash, and it hands at
   * most one expression to the handler per character still to scan.
   */
  lemma {:induction false} ScanThrowsOnlyOnBackslash(text: string, openToken: string, closeToken: string,
                                                     handler: string -> string, offset: nat)
    requires |openToken| > 0 && offset <= |text|
    ensures Scan(text, openToken, closeToken, handler, offset).None? ==> Backslash in text
    ensures Scan(text, openToken, closeToken, handler, offset).Some? ==>
      |Scan(text, openToken, closeToken, handler, offset).value.calls| <= |text| - offset
    decreases |text| - offset
  {
    match OpenStepAt(text, openToken, closeToken, offset)
    case OpenEscaped(_, next) => ScanThrowsOnlyOnBackslash(text, openToken, closeToken, handler, next);
    case OpenToken(_, _, next) => ScanThrowsOnlyOnBackslash(text, openToken, closeToken, handler, next);
    case OpenMissing =>
    case OpenUnclosed =>
    case EscapeThrows =>
      var start := IndexOf(text, openToken, offset);
      assert text[start - 1] == Backslash;
  }

  /**
   * `parse` throws only on a text that holds a backslash; the handler calls
   * exist exactly when it returns, and there are no more of them than
   * characters in the text.
   */
  lemma ParseThrowsOnlyOnBackslash(openToken: string, closeToken: string, handler: string -> string, text: string)
    requires |openToken| > 0
    ensures Parsed(openToken, closeToken, handler, text).None? ==> Backslash in text
    ensures HandlerCalls(openToken, closeToken, handler, text).None? <==> Parsed(openToken, closeToken, handler, text).None?
    ensures HandlerCalls(openToken, closeToken, handler, text).Some? ==>
      |HandlerCalls(openToken, closeToken, handler, text).value| <= |text|
  {
    ScanThrowsOnlyOnBackslash(text, openToken, closeToken, handler, 0);
  }

  /** Which expressions reach the handler does not depend on what the handler answers. */
  lemma {:induction false} ScanCallsIgnoreHandler(text: string, openToken: string, closeToken: string,
                                                  h1: string -> string, h2: string -> string, offset: nat)
    requires |openToken| > 0 && offset <= |text|
    ensures Scan(text, openToken, closeToken, h1, offset).None? <==> Scan(text, openToken, closeToken, h2, offset).None?
    ensures Scan(text, openToken, closeToken, h1, offset).Some? ==>
      Scan(text, openToken, closeToken, h1, offset).value.calls == Scan(text, openToken, closeToken, h2, offset).value.calls
    decreases |text| - offset
  {
    match OpenStepAt(text, openToken, closeToken, offset)
    case OpenEscaped(_, next) => ScanCallsIgnoreHandler(text, openToken, closeToken, h1, h2, next);
    case OpenToken(_, _, next) => ScanCallsIgnoreHandler(text, openToken, closeToken, h1, h2, next);
    case OpenMissing =>
    case OpenUnclosed =>
    case EscapeThrows =>
  }

  lemma HandlerCallsIgnoreHandler(openToken: string, closeToken: string, h1: string -> string, h2: string -> string, text: string)
    requires |openToken| > 0
    ensures HandlerCalls(openToken, closeToken, h1, text) == HandlerCalls(openToken, closeToken, h2, text)
    ensures Parsed(openToken, closeToken, h1, text).None? <==> Parsed(openToken, closeToken, h2, text).None?
  {
    ScanCallsIgnoreHandler(text, openToken, closeToken, h1, h2, 0);
  }

  /** The handler that puts the tokens back around the expression. */
  function Reassemble(openToken: string, closeToken: string): (handler: string -> string)
  {
    e => openToken + e + closeToken
  }

  /** Without backslashes, an expression runs from `from` to the first close token. */
  lemma ScanCloseWithoutBackslash(text: string, closeToken: string, from: nat)
    requires from <= |text| && Backslash !in text
    ensures var end := IndexOf(text, closeToken, from);
      ScanClose(text, closeToken, from) ==
        if end == -1 then Unclosed else Closed(Substring(text, from, end), end + |closeToken|)
  {
    var end := IndexOf(text, closeToken, from);
    if end > from {
      assert text[end - 1] in text;
    }
  }

  /** One replaced token: the literal before it, the open token, the expression and the close token are the text they span. */
  lemma TokenSpan(text: string, openToken: string, closeToken: string, offset: nat, start: nat, end: nat)
    requires offset <= start && OccursAt(text, openToken, start)
    requires start + |openToken| <= end && OccursAt(text, closeToken, end)
    ensures Substring(text, offset, start) + Reassemble(openToken, closeToken)(Substring(text, start + |openToken|, end))
            == Substring(text, offset, end + |closeToken|)
  {
    var inner := start + |openToken|;
    OccursAtSubstring(text, openToken, start);
    OccursAtSubstring(text, closeToken, end);
    SubstringSplit(text, offset, start, inner);
    SubstringSplit(text, offset, inner, end);
    SubstringSplit(text, offset, end, end + |closeToken|);
    assert Reassemble(openToken, closeToken)(Substring(text, inner, end))
        == openToken + Substring(text, inner, end) + closeToken;
  }

  /**
   * Without backslashes, each step of the outer loop either finds no open
   * token, finds no close token after it, or replaces the span from one open
   * token to the next close token.
   */
  lemma OpenStepWithoutBackslash(text: string, openToken: string, closeToken: string, offset: nat)
    requires |openToken| > 0 && offset <= |text| && Backslash !in text
    ensures var start := IndexOf(text, openToken, offset);
      start != -1 ==>
        var end := IndexOf(text, closeToken, start + |openToken|);
        end != -1 ==>
          OccursAt(text, openToken, start) && OccursAt(text, closeToken, end) &&
          OpenStepAt(text, openToken, closeToken, offset)
            == OpenToken(Substring(text, offset, start), Substring(text, start + |openToken|, end), end + |closeToken|)
    ensures var s := OpenStepAt(text, openToken, closeToken, offset);
      s.OpenMissing? || s.OpenUnclosed? || s.OpenToken?
  {
    var start := IndexOf(text, openToken, offset);
    IndexOfFirst(text, openToken, offset);
    if start != -1 {
      if start > 0 {
        assert text[start - 1] in text;
      }
      var from := start + |openToken|;
      ScanCloseWithoutBackslash(text, closeToken, from);
      IndexOfFirst(text, closeToken, from);
    }
  }

  /**
   * In a text without backslashes, handing each expression back between its
   * tokens reproduces the text: `parse` takes the text apart exactly at its
   * tokens and copies everything else unchanged.
   */
  lemma {:induction false} ScanReassembles(text: string, openToken: string, closeToken: string, offset: nat)
    requires |openToken| > 0 && offset <= |text| && Backslash !in text
    ensures Scan(text, openToken, closeToken, Reassemble(openToken, closeToken), offset).Some?
    ensures Scan(text, openToken, closeToken, Reassemble(openToken, closeToken), offset).value.text
            == Substring(text, offset, |text|)
    decreases |text| - offset
  {
    OpenStepWithoutBackslash(text, openToken, closeToken, offset);
    match OpenStepAt(text, openToken, closeToken, offset)
    case OpenToken(literal, e, next) =>
      var start := IndexOf(text, openToken, offset);
      TokenSpan(text, openToken, closeToken, offset, start, next - |closeToken|);
      ScanReassembles(text, openToken, closeToken, next);
      SubstringSplit(text, offset, next, |text|);
    case OpenMissing =>
    case OpenUnclosed =>
  }

  lemma ParseReassembles(openToken: string, closeToken: string, text: string)
    requires |openToken| > 0 && Backslash !in text
    ensures Parsed(openToken, closeToken, Reassemble(openToken, closeToken), text) == Some(text)
  {
    ScanReassembles(text, openToken, closeToken, 0);
    SubstringIsSlice(text, 0, |text|);
    assert text[0..|text|] == text;
  }
}
