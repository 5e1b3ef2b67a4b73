/** The error paths of `nextString` and `nextRawString`: where each error
    is raised and which one it is. */
module ParseErrors {
  import opened Text
  import opened Cursors
  import opened Grammar
  import opened RoundTrip

  /** A unit the loop of `nextString` copies as it is. */
  predicate Plain(u: CodeUnit)
  {
    u != LF && u != CR && u != BACKSLASH && u != QUOTE
  }

  /** A raw `\n` or `\r` before the closing quote is "Unterminated string",
      raised right after the line break. */
  lemma {:induction false} BreakUnterminated(c: Cursor, acc: Text, j: int)
    requires Valid(c) && c.index <= j < |c.input| && (c.input[j] == LF || c.input[j] == CR)
    requires forall k | c.index <= k < j :: Plain(c.input[k])
    ensures StringBody(c, acc).result.Err?
    ensures StringBody(c, acc).result.failure.SyntaxError?
    ensures StringBody(c, acc).result.failure.kind == UnterminatedString
    ensures StringBody(c, acc).cursor.index == j + 1
    decreases j - c.index
  {
    if c.index < j {
      assert Ahead(c, [c.input[c.index]]);
      PlainStep(c, acc, c.input[c.index]);
      BreakUnterminated(Next(c).cursor, acc + [c.input[c.index]], j);
    }
  }

  /** A backslash followed by a letter that is no escape is "Illegal
      escape", raised right after the letter. */
  lemma {:induction false} EscapeIllegal(c: Cursor, acc: Text, j: int)
    requires Valid(c) && c.index <= j && j + 1 < |c.input| && c.input[j] == BACKSLASH
    requires c.input[j + 1] != LETTER_U && Unescape(c.input[j + 1]).None?
    requires forall k | c.index <= k < j :: Plain(c.input[k])
    ensures StringBody(c, acc).result.Err?
    ensures StringBody(c, acc).result.failure.SyntaxError?
    ensures StringBody(c, acc).result.failure.kind == IllegalEscape
    ensures StringBody(c, acc).cursor.index == j + 2
    decreases j - c.index
  {
    if c.index < j {
      assert Ahead(c, [c.input[c.index]]);
      PlainStep(c, acc, c.input[c.index]);
      EscapeIllegal(Next(c).cursor, acc + [c.input[c.index]], j);
    }
  }

  /** Input that ends before the closing quote is "Unexpected end of
      file", raised at the end of the input. */
  lemma {:induction false} EndUnterminated(c: Cursor, acc: Text)
    requires Valid(c)
    requires forall k | c.index <= k < |c.input| :: Plain(c.input[k])
    ensures StringBody(c, acc).result.Err?
    ensures StringBody(c, acc).result.failure.SyntaxError?
    ensures StringBody(c, acc).result.failure.kind == UnexpectedEof
    ensures StringBody(c, acc).cursor.index == |c.input|
    decreases |c.input| - c.index
  {
    if c.index < |c.input| {
      assert Ahead(c, [c.input[c.index]]);
      PlainStep(c, acc, c.input[c.index]);
      EndUnterminated(Next(c).cursor, acc + [c.input[c.index]]);
    }
  }

  /** `nextString` fails, pushing the unit back, when the first non-blank
      unit is not `"`. */
  lemma NotAString(c: Cursor, i: int)
    requires Valid(c) && c.index <= i < |c.input| && c.input[i] > SPACE && c.input[i] != QUOTE
    requires forall k | c.index <= k < i :: c.input[k] <= SPACE
    ensures NextString(c).result.Err?
    ensures NextString(c).result.failure.SyntaxError?
    ensures NextString(c).result.failure.kind == InvalidString
    ensures NextString(c).cursor.index == i
  {
    NextCleanSkips(c, i);
  }

  /** An empty token is never "Unexpected end of file": `back()` clears the
      end flag before the flag is tested, so it is "Missing value", unless
      the input is empty, where `back()` itself fails because nothing was
      ever delivered. */
  lemma EmptyToken(c: Cursor, doubleOf: DoubleParser)
    requires Valid(c) && (c.index == |c.input| || !InToken(c.input[c.index] as int))
    ensures NextRawString(c, doubleOf).result.Err?
    ensures |c.input| == 0 ==> NextRawString(c, doubleOf).result.failure == IllegalState
    ensures |c.input| > 0 ==>
      && NextRawString(c, doubleOf).result.failure.SyntaxError?
      && NextRawString(c, doubleOf).result.failure.kind == MissingValue
  {
    RawRunStops(c);
  }
}
