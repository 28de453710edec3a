/**
 * `GenericTokenParser.parse`: replaces every unescaped `open expr close` span
 * of a text by `handler(expr)`.
 *
 * The specification is `Scan`, which follows the text from one open token to
 * the next and yields the output text and the expressions handed to the
 * handler; `Parse` is the parser's two nested loops over a `builder` and an
 * `expression` buffer, proved to produce exactly what `Scan` yields.
 */
module TokenParser {
  import opened Wrappers
  import opened Strings

  /** The escape character of both tokens. */
  const Backslash: char := '\\'

  /** What the parser has produced: the output text and the handler's arguments, in order. */
  datatype Output = Output(text: string, calls: seq<string>)

  /** What the search for a close token finds: the expression and the index after the close token. */
  datatype Closing = Closed(expression: string, next: nat) | Unclosed

  /** One iteration of the inner loop: what the next close token at or after `offset` is. */
  datatype CloseStep =
    | CloseMissing
    | CloseEscaped(part: string, next: nat)
    | CloseFound(part: string, next: nat)

  /**
   * A close token preceded by a backslash counts as escaped only when the
   * backslash lies at or after `offset`; the backslash itself is dropped.
   */
  function CloseStepAt(text: string, closeToken: string, offset: nat): (s: CloseStep)
    requires offset <= |text|
    ensures s.CloseEscaped? ==> offset < s.next <= |text|
    ensures s.CloseFound? ==> offset + |closeToken| <= s.next <= |text|
  {
    var end := IndexOf(text, closeToken, offset);
    if end == -1 then CloseMissing
    else if end > offset && text[end - 1] == Backslash then
      CloseEscaped(Substring(text, offset, end - 1) + closeToken, end + |closeToken|)
    else CloseFound(Substring(text, offset, end), end + |closeToken|)
  }

  /** `e` in front of the expression of a closing. */
  function PrefixExpression(e: string, c: Closing): (r: Closing)
  {
    match c
    case Unclosed => Unclosed
    case Closed(e', next) => Closed(e + e', next)
  }

  /**
   * The inner loop: the expression that starts at `offset` and ends at the
   * first close token not escaped by a backslash; each escaped close token
   * becomes part of the expression without its backslash.
   */
  function ScanClose(text: string, closeToken: string, offset: nat): (c: Closing)
    requires offset <= |text|
    ensures c.Closed? ==> offset + |closeToken| <= c.next <= |text|
    decreases |text| - offset
  {
    match CloseStepAt(text, closeToken, offset)
    case CloseMissing => Unclosed
    case CloseEscaped(part, next) => PrefixExpression(part, ScanClose(text, closeToken, next))
    case CloseFound(part, next) => Closed(part, next)
  }

  /** One iteration of the outer loop: what the parser does with the next open token at or after `offset`. */
  datatype OpenStep =
    | OpenMissing
    | OpenEscaped(piece: string, next: nat)
    | EscapeThrows
    | OpenUnclosed
    | OpenToken(literal: string, expression: string, next: nat)

  /**
   * The escape test looks at the character before the open token even when
   * that character lies before `offset`. When it is a backslash there, the
   * parser appends a range of length -1 and `StringBuilder.append` throws.
   */
  function OpenStepAt(text: string, openToken: string, closeToken: string, offset: nat): (s: OpenStep)
    requires |openToken| > 0 && offset <= |text|
    ensures s.OpenEscaped? ==> offset < s.next <= |text|
    ensures s.OpenToken? ==> offset < s.next <= |text|
  {
    var start := IndexOf(text, openToken, offset);
    if start == -1 then OpenMissing
    else if start > 0 && text[start - 1] == Backslash then
      if start == offset then EscapeThrows
      else OpenEscaped(Substring(text, offset, start - 1) + openToken, start + |openToken|)
    else
      match ScanClose(text, closeToken, start + |openToken|)
      case Unclosed => OpenUnclosed
      case Closed(e, next) => OpenToken(Substring(text, offset, start), e, next)
  }

  /** `text` and `calls` in front of an output that may have failed. */
  function Emit(text: string, calls: seq<string>, rest: Option<Output>): (r: Option<Output>)
    ensures rest.None? <==> r.None?
  {
    match rest
    case None => None
    case Some(o) => Some(Output(text + o.text, calls + o.calls))
  }

  lemma EmitTwice(a: string, c: seq<string>, b: string, d: seq<string>, rest: Option<Output>)
    ensures Emit(a, c, Emit(b, d, rest)) == Emit(a + b, c + d, rest)
  {
    if rest.Some? {
      assert a + (b + rest.value.text) == (a + b) + rest.value.text;
      assert c + (d + rest.value.calls) == (c + d) + rest.value.calls;
    }
  }

  /**
   * The outer loop from `offset`: what the parser appends to its output and
   * the handler calls it makes, or `None` where it throws.
   */
  function Scan(text: string, openToken: string, closeToken: string, handler: string -> string, offset: nat): (r: Option<Output>)
    requires |openToken| > 0 && offset <= |text|
    decreases |text| - offset
  {
    match OpenStepAt(text, openToken, closeToken, offset)
    case OpenMissing => Some(Output(Substring(text, offset, |text|), []))
    case EscapeThrows => None
    case OpenEscaped(piece, next) => Emit(piece, [], Scan(text, openToken, closeToken, handler, next))
    case OpenUnclosed => Some(Output(Substring(text, offset, |text|), []))
    case OpenToken(literal, e, next) =>
      Emit(literal + handler(e), [e], Scan(text, openToken, closeToken, handler, next))
  }

  /** What `parse` returns: `None` where it throws. */
  function Parsed(openToken: string, closeToken: string, handler: string -> string, text: string): (r: Option<string>)
    requires |openToken| > 0
  {
    match Scan(text, openToken, closeToken, handler, 0)
    case None => None
    case Some(o) => Some(o.text)
  }

  /** The arguments of the handler calls `parse` makes, in order. */
  function HandlerCalls(openToken: string, closeToken: string, handler: string -> string, text: string): (r: Option<seq<string>>)
    requires |openToken| > 0
  {
    match Scan(text, openToken, closeToken, handler, 0)
    case None => None
    case Some(o) => Some(o.calls)
  }

  lemma PrefixExpressionTwice(a: string, b: string, c: Closing)
    ensures PrefixExpression(a, PrefixExpression(b, c)) == PrefixExpression(a + b, c)
  {
    if c.Closed? {
      assert a + (b + c.expression) == (a + b) + c.expression;
    }
  }

  // Each iteration of the parser's loops, as one step of `ScanClose` or `Scan`.

  /** The inner loop's invariant: what is still to be scanned completes the expression collected so far. */
  predicate InnerInvariant(text: string, closeToken: string, from: nat, expression: string, offset: nat)
    requires from <= offset <= |text|
  {
    ScanClose(text, closeToken, from) == PrefixExpression(expression, ScanClose(text, closeToken, offset))
  }

  lemma InnerEscapedStep(text: string, closeToken: string, from: nat, expression: string, offset: nat, end: int)
    requires from <= offset <= |text| && end == IndexOf(text, closeToken, offset)
    requires end > offset && text[end - 1] == Backslash
    requires InnerInvariant(text, closeToken, from, expression, offset)
    ensures end + |closeToken| <= |text|
    ensures InnerInvariant(text, closeToken, from, expression + Substring(text, offset, end - 1) + closeToken, end + |closeToken|)
  {
    var piece := Substring(text, offset, end - 1) + closeToken;
    assert CloseStepAt(text, closeToken, offset) == CloseEscaped(piece, end + |closeToken|);
    PrefixExpressionTwice(expression, piece, ScanClose(text, closeToken, end + |closeToken|));
    assert expression + piece == expression + Substring(text, offset, end - 1) + closeToken;
  }

  lemma InnerFoundStep(text: string, closeToken: string, from: nat, expression: string, offset: nat, end: int)
    requires from <= offset <= |text| && end == IndexOf(text, closeToken, offset)
    requires end != -1 && !(end > offset && text[end - 1] == Backslash)
    requires InnerInvariant(text, closeToken, from, expression, offset)
    ensures ScanClose(text, closeToken, from) == Closed(expression + Substring(text, offset, end), end + |closeToken|)
  {
    assert CloseStepAt(text, closeToken, offset) == CloseFound(Substring(text, offset, end), end + |closeToken|);
  }

  lemma InnerMissingStep(text: string, closeToken: string, from: nat, expression: string, offset: nat)
    requires from <= offset <= |text| && IndexOf(text, closeToken, offset) == -1
    requires InnerInvariant(text, closeToken, from, expression, offset)
    ensures ScanClose(text, closeToken, from) == Unclosed
  {
    assert CloseStepAt(text, closeToken, offset) == CloseMissing;
  }

  /**
   * The outer loop's invariant: the output built so far, followed by what is
   * still to be scanned, is the whole scan.
   */
  predicate OuterInvariant(whole: Option<Output>, text: string, openToken: string, closeToken: string,
                           handler: string -> string, builder: string, calls: seq<string>, offset: nat)
    requires |openToken| > 0 && offset <= |text|
  {
    whole == Emit(builder, calls, Scan(text, openToken, closeToken, handler, offset))
  }

  /** `start` is the next open token at or after `offset`, and no backslash precedes it. */
  predicate UnescapedOpenAt(text: string, openToken: string, offset: nat, start: int)
    requires offset <= |text|
  {
    start == IndexOf(text, openToken, offset) && start != -1 &&
    !(start > 0 && text[start - 1] == Backslash)
  }

  lemma OuterThrowsStep(whole: Option<Output>, text: string, openToken: string, closeToken: string,
                        handler: string -> string, builder: string, calls: seq<string>, offset: nat)
    requires |openToken| > 0 && 0 < offset <= |text| && offset == IndexOf(text, openToken, offset)
    requires text[offset - 1] == Backslash
    requires OuterInvariant(whole, text, openToken, closeToken, handler, builder, calls, offset)
    ensures whole == None
  {
    assert OpenStepAt(text, openToken, closeToken, offset) == EscapeThrows;
  }

  lemma OuterEscapedStep(whole: Option<Output>, text: string, openToken: string, closeToken: string,
                         handler: string -> string, builder: string, calls: seq<string>, offset: nat, start: int)
    requires |openToken| > 0 && offset <= |text| && start == IndexOf(text, openToken, offset)
    requires offset < start && text[start - 1] == Backslash
    requires OuterInvariant(whole, text, openToken, closeToken, handler, builder, calls, offset)
    ensures start + |openToken| <= |text|
    ensures OuterInvariant(whole, text, openToken, closeToken, handler,
                           builder + Substring(text, offset, start - 1) + openToken, calls, start + |openToken|)
  {
    var piece := Substring(text, offset, start - 1) + openToken;
    var next := start + |openToken|;
    assert OpenStepAt(text, openToken, closeToken, offset) == OpenEscaped(piece, next);
    EmitTwice(builder, calls, piece, [], Scan(text, openToken, closeToken, handler, next));
    assert calls + [] == calls;
    assert builder + piece == builder + Substring(text, offset, start - 1) + openToken;
  }

  lemma OuterUnclosedStep(whole: Option<Output>, text: string, openToken: string, closeToken: string,
                          handler: string -> string, builder: string, calls: seq<string>, offset: nat, start: int)
    requires |openToken| > 0 && offset <= |text| && UnescapedOpenAt(text, openToken, offset, start)
    requires ScanClose(text, closeToken, start + |openToken|) == Unclosed
    requires OuterInvariant(whole, text, openToken, closeToken, handler, builder, calls, offset)
    ensures start <= |text|
    ensures OuterInvariant(whole, text, openToken, closeToken, handler,
                           builder + Substring(text, offset, start) + Substring(text, start, |text|), calls, |text|)
  {
    assert OpenStepAt(text, openToken, closeToken, offset) == OpenUnclosed;
    SubstringSplit(text, offset, start, |text|);
    var rest := Substring(text, offset, |text|);
    assert builder + Substring(text, offset, start) + Substring(text, start, |text|) + [] == builder + rest;
    assert OpenStepAt(text, openToken, closeToken, |text|) == OpenMissing;
    assert calls + [] == calls;
  }

  lemma OuterTokenStep(whole: Option<Output>, text: string, openToken: string, closeToken: string,
                       handler: string -> string, builder: string, calls: seq<string>, offset: nat, start: int,
                       expression: string, next: nat)
    requires |openToken| > 0 && offset <= |text| && UnescapedOpenAt(text, openToken, offset, start)
    requires ScanClose(text, closeToken, start + |openToken|) == Closed(expression, next)
    requires OuterInvariant(whole, text, openToken, closeToken, handler, builder, calls, offset)
    ensures next <= |text|
    ensures OuterInvariant(whole, text, openToken, closeToken, handler,
                           builder + Substring(text, offset, start) + handler(expression), calls + [expression], next)
  {
    var literal := Substring(text, offset, start);
    assert OpenStepAt(text, openToken, closeToken, offset) == OpenToken(literal, expression, next);
    EmitTwice(builder, calls, literal + handler(expression), [expression], Scan(text, openToken, closeToken, handler, next));
    assert builder + (literal + handler(expression)) == builder + literal + handler(expression);
  }

  lemma OuterMissingStep(whole: Option<Output>, text: string, openToken: string, closeToken: string,
                         handler: string -> string, builder: string, calls: seq<string>, offset: nat)
    requires |openToken| > 0 && offset <= |text| && IndexOf(text, openToken, offset) == -1
    requires OuterInvariant(whole, text, openToken, closeToken, handler, builder, calls, offset)
    ensures whole == Some(Output(builder + Substring(text, offset, |text|), calls))
  {
    assert OpenStepAt(text, openToken, closeToken, offset) == OpenMissing;
    assert calls + [] == calls;
  }

  /**
   * The inner loop of `parse`: from just after an open token, collects the
   * expression up to the first unescaped close token. `end` is the index of
   * that close token, or -1 when there is none.
   */
  method ScanExpression(text: string, closeToken: string, from: nat)
    returns (end: int, expression: string, offset: nat)
    requires from <= |text|
    ensures end == -1 ==> ScanClose(text, closeToken, from) == Unclosed
    ensures end != -1 ==> ScanClose(text, closeToken, from) == Closed(expression, offset)
    ensures end != -1 ==> offset == end + |closeToken|
  {
    expression := "";
    offset := from;
    end := IndexOf(text, closeToken, offset);
    assert PrefixExpression("", ScanClose(text, closeToken, from)) == ScanClose(text, closeToken, from);
    while end > -1
      invariant from <= offset <= |text|
      invariant end == IndexOf(text, closeToken, offset)
      invariant InnerInvariant(text, closeToken, from, expression, offset)
      decreases |text| - offset
    {
      if end > offset && text[end - 1] == Backslash {
        // an escaped close token: drop the backslash, keep the token
        InnerEscapedStep(text, closeToken, from, expression, offset, end);
        expression := expression + Substring(text, offset, end - 1) + closeToken;
        offset := end + |closeToken|;
        end := IndexOf(text, closeToken, offset);
      } else {
        InnerFoundStep(text, closeToken, from, expression, offset, end);
        expression := expression + Substring(text, offset, end);
        offset := end + |closeToken|;
        return;
      }
    }
    InnerMissingStep(text, closeToken, from, expression, offset);
  }

  /**
   * The branch of `parse` for an open token that is not escaped: appends the
   * text before it, collects the expression, and appends either the
   * handler's answer or, when no close token follows, the rest of the text
   * unchanged.
   */
  method ReplaceToken(openToken: string, closeToken: string, handler: string -> string, text: string,
                      offset: nat, start: int, builder: string, calls: seq<string>, ghost whole: Option<Output>)
    returns (offset': nat, builder': string, calls': seq<string>)
    requires |openToken| > 0 && offset <= |text| && UnescapedOpenAt(text, openToken, offset, start)
    requires OuterInvariant(whole, text, openToken, closeToken, handler, builder, calls, offset)
    ensures offset < offset' <= |text|
    ensures OuterInvariant(whole, text, openToken, closeToken, handler, builder', calls', offset')
  {
    var literal := Substring(text, offset, start);
    // the expression starts just after the open token
    var end, expression, next := ScanExpression(text, closeToken, start + |openToken|);
    if end == -1 {
      // no close token: the rest of the text is copied from the open token on
      OuterUnclosedStep(whole, text, openToken, closeToken, handler, builder, calls, offset, start);
      builder', calls', offset' := builder + literal + Substring(text, start, |text|), calls, |text|;
    } else {
      OuterTokenStep(whole, text, openToken, closeToken, handler, builder, calls, offset, start, expression, next);
      builder', calls', offset' := builder + literal + handler(expression), calls + [expression], end + |closeToken|;
    }
  }

  /**
   * `GenericTokenParser.parse` with the parser's tokens and handler as
   * parameters. `result` is `None` where the parser throws; `calls` lists
   * the arguments of the handler calls made, in order.
   */
  method Parse(openToken: string, closeToken: string, handler: string -> string, text: string)
    returns (result: Option<string>, calls: seq<string>)
    requires |openToken| > 0
    ensures result == Parsed(openToken, closeToken, handler, text)
    ensures result.Some? ==> Some(calls) == HandlerCalls(openToken, closeToken, handler, text)
  {
    ghost var whole := Scan(text, openToken, closeToken, handler, 0);
    var builder: string := "";
    calls := [];
    var offset: nat := 0;
    assert Emit("", [], whole) == whole by {
      if whole.Some? {
        assert "" + whole.value.text == whole.value.text;
        assert [] + whole.value.calls == whole.value.calls;
      }
    }
    if |text| > 0 {
      var start := IndexOf(text, openToken, offset);
      while start > -1
        invariant offset <= |text|
        invariant start == IndexOf(text, openToken, offset)
        invariant OuterInvariant(whole, text, openToken, closeToken, handler, builder, calls, offset)
        decreases |text| - offset
      {
        if start > 0 && text[start - 1] == Backslash {
          if start == offset {
            // the append of a range of length -1 throws
            OuterThrowsStep(whole, text, openToken, closeToken, handler, builder, calls, offset);
            return None, calls;
          }
          // an escaped open token: drop the backslash, keep the token
          OuterEscapedStep(whole, text, openToken, closeToken, handler, builder, calls, offset, start);
          builder := builder + Substring(text, offset, start - 1) + openToken;
          offset := start + |openToken|;
        } else {
          offset, builder, calls := ReplaceToken(openToken, closeToken, handler, text, offset, start, builder, calls, whole);
        }
        start := IndexOf(text, openToken, offset);
      }
      OuterMissingStep(whole, text, openToken, closeToken, handler, builder, calls, offset);
      if offset < |text| {
        builder := builder + Substring(text, offset, |text|);
      } else {
        assert builder + Substring(text, offset, |text|) == builder;
      }
    } else {
      OuterMissingStep(whole, text, openToken, closeToken, handler, builder, calls, offset);
    }
    result := Some(builder);
  }
}
