/** The parser reads back the scalars and strings the writer writes:
    `nextItem`, started on what `writeJsonValue` wrote for a literal, a
    number or a string, returns that value. After a string it stops right
    after the closing quote. After a literal or a number it has pushed back
    the unit that ended the token, so it is right after the text; when the
    text ends the input, `back()` after the end pushes back the token's
    last unit, so it is one unit short of the end. A number needs to be one
    the parser can produce: a `long` outside the `int` range (one inside it
    reads back as an `Integer`), and a double whose text `Double.valueOf`
    maps back to it. */
module Reparse {
  import opened Wrappers
  import opened Text
  import opened Numbers
  import opened JsonValues
  import opened Cursors
  import opened Grammar
  import opened Rendering
  import opened RoundTrip

  /** A double whose text is a raw token that reads back as that double. */
  predicate DoubleToken(d: DoubleRepr, doubleOf: DoubleParser)
  {
    && |d.text| > 0 && d.text[0] > SPACE && d.text[0] != QUOTE
    && d.text[0] != LBRACE && d.text[0] != LBRACKET
    && (forall k | 0 <= k < |d.text| :: InToken(d.text[k] as int))
    && Classify(d.text, doubleOf) == Some(Num(Double(d)))
  }

  /** A literal or a number that `nextRawString` can return for its own
      text. */
  predicate ReadableScalar(v: Value, doubleOf: DoubleParser)
  {
    match v
    case Null => true
    case Bool(_) => true
    case Num(n) =>
      && (n.Long? ==> !(INT_MIN <= n.l <= INT_MAX))
      && (n.Double? ==> n.d.finite && DoubleToken(n.d, doubleOf))
    case _ => false
  }

  /** The unit after the next `n` is there and ends a raw token. */
  predicate Terminated(c: Cursor, n: nat)
  {
    0 <= c.index && c.index + n < |c.input| && !InToken(c.input[c.index + n] as int)
  }

  /** The next `n` units are the last of the input. */
  predicate AtEnd(c: Cursor, n: nat)
  {
    0 <= c.index && c.index + n == |c.input|
  }

  /** `t` is a non-empty raw token that `nextItem` hands to
      `nextRawString`: its first unit is above the space and opens neither
      a string, an object nor an array. */
  predicate RawToken(t: Text)
  {
    && |t| > 0 && t[0] > SPACE
    && t[0] != QUOTE && t[0] != LBRACE && t[0] != LBRACKET
    && forall k | 0 <= k < |t| :: InToken(t[k] as int)
  }

  /** The three words are raw tokens, and each is classified as its own
      literal and as no other. */
  lemma WordsClassify(doubleOf: DoubleParser)
    ensures RawToken(NULL_WORD) && RawToken(TRUE_WORD) && RawToken(FALSE_WORD)
    ensures Classify(NULL_WORD, doubleOf) == Some(Null)
    ensures Classify(TRUE_WORD, doubleOf) == Some(Bool(true))
    ensures Classify(FALSE_WORD, doubleOf) == Some(Bool(false))
  {
    assert !FoldsTo(NULL_WORD[0], TRUE_WORD[0]) && !FoldsTo(NULL_WORD[0], FALSE_WORD[0]);
    assert !FoldsTo(FALSE_WORD[0], TRUE_WORD[0]);
  }

  /** The decimal text of an integer is a raw token; it is classified as an
      `Integer` when it fits in an `int`, else as a `Long` when it fits in a
      `long`. */
  lemma DecimalClassify(n: int, doubleOf: DoubleParser)
    requires LONG_MIN <= n <= LONG_MAX
    ensures RawToken(DecimalText(n))
    ensures INT_MIN <= n <= INT_MAX ==> Classify(DecimalText(n), doubleOf) == Some(Num(Integer(n)))
    ensures !(INT_MIN <= n <= INT_MAX) ==> Classify(DecimalText(n), doubleOf) == Some(Num(Long(n)))
  {
    var t := DecimalText(n);
    DecimalTextShape(n);
    DecimalRoundTrip(n);
    assert !FoldsTo(t[0], TRUE_WORD[0]) && !FoldsTo(t[0], FALSE_WORD[0]) && !FoldsTo(t[0], NULL_WORD[0]);
  }

  /** What `writeJsonValue` writes for a readable literal or number is a
      raw token that `nextRawString` classifies as that value. */
  lemma ScalarToken(v: Value, doubleOf: DoubleParser)
    requires ReadableScalar(v, doubleOf)
    ensures RenderValue(v, 0, 0).complete
    ensures RawToken(RenderValue(v, 0, 0).text)
    ensures Classify(RenderValue(v, 0, 0).text, doubleOf) == Some(v)
  {
    match v
    case Num(n) =>
      if n.Integer? {
        DecimalClassify(n.i as int, doubleOf);
      } else if n.Long? {
        DecimalClassify(n.l as int, doubleOf);
      }
    case _ => WordsClassify(doubleOf);
  }

  /** The raw run at `c` is exactly the token `t` when the unit after it
      ends the token or the input ends with it; the cursor stops after
      that unit, or at the end with the end flag set. */
  lemma {:induction false} TokenRun(c: Cursor, t: Text)
    requires Valid(c) && Ahead(c, t) && (Terminated(c, |t|) || AtEnd(c, |t|))
    requires forall k | 0 <= k < |t| :: InToken(t[k] as int)
    ensures RawRun(c).0 == t
    ensures Terminated(c, |t|) ==> RawRun(c).1.index == c.index + |t| + 1
    ensures AtEnd(c, |t|) ==> RawRun(c).1.index == |c.input| && RawRun(c).1.reachedEof
    decreases |t|
  {
    var d := Read(c);
    if |t| > 0 {
      assert c.input[c.index] == t[0];
      assert [t[0]] + t[1..] == t;
      AheadShift(c, d.cursor, [t[0]], t[1..]);
      TokenRun(d.cursor, t[1..]);
    } else if Terminated(c, 0) {
      assert d.code == c.input[c.index] as int;
    }
    RawRunStops(c);
  }

  /** `nextRawString` reads a literal or a number back from its text and
      pushes back the unit that ended it, or, when the text ends the input,
      the text's last unit. */
  lemma ScalarReads(c: Cursor, v: Value, doubleOf: DoubleParser)
    requires Valid(c) && ReadableScalar(v, doubleOf)
    requires var t := RenderValue(v, 0, 0).text; Ahead(c, t) && (Terminated(c, |t|) || AtEnd(c, |t|))
    ensures NextRawString(c, doubleOf).result == Ok(v)
    ensures NextRawString(c, doubleOf).cursor.usePrevious
    ensures var t := RenderValue(v, 0, 0).text;
      NextRawString(c, doubleOf).cursor.index == c.index + |t| - (if AtEnd(c, |t|) then 1 else 0)
  {
    ScalarToken(v, doubleOf);
    TokenRun(c, RenderValue(v, 0, 0).text);
  }

  /** `nextItem` on a cursor whose next unit is `"`: it pushes the quote
      back and reads a string. */
  lemma StringItemUnfold(c: Cursor, doubleOf: DoubleParser) returns (b: Cursor)
    requires Valid(c) && c.index < |c.input| && c.input[c.index] == QUOTE
    ensures Valid(b) && b.input == c.input && b.index == c.index
    ensures NextString(b).result.Ok? ==>
      NextItem(c, doubleOf) == Step(Ok(Str(NextString(b).result.value)), NextString(b).cursor)
  {
    NextCleanSkips(c, c.index);
    b := Back(NextClean(c).cursor).cursor;
  }

  /** `nextItem` on a cursor whose next unit is any other non-blank unit
      that opens neither an object nor an array: it pushes the unit back
      and reads a raw token. */
  lemma RawItemUnfold(c: Cursor, doubleOf: DoubleParser) returns (b: Cursor)
    requires Valid(c) && c.index < |c.input| && c.input[c.index] > SPACE
    requires c.input[c.index] != QUOTE && c.input[c.index] != LBRACE && c.input[c.index] != LBRACKET
    ensures Valid(b) && b.input == c.input && b.index == c.index
    ensures NextItem(c, doubleOf) == NextRawString(b, doubleOf)
  {
    NextCleanSkips(c, c.index);
    b := Back(NextClean(c).cursor).cursor;
  }

  /** `nextItem` reads back the string `writeString(s)` wrote. */
  lemma StringItemReads(c: Cursor, s: Text, doubleOf: DoubleParser)
    requires Valid(c) && Ahead(c, Quote(s))
    ensures NextItem(c, doubleOf).result == Ok(Str(s))
    ensures NextItem(c, doubleOf).cursor.index == c.index + |Quote(s)|
  {
    assert c.input[c.index] == Quote(s)[0];
    var b := StringItemUnfold(c, doubleOf);
    StringRoundTrip(b, s);
  }

  /** What is ahead of a cursor is ahead of any cursor at the same place. */
  lemma AheadMoved(c: Cursor, b: Cursor, t: Text)
    requires Ahead(c, t)
    requires b.input == c.input && b.index == c.index
    ensures Ahead(b, t)
    ensures Terminated(b, |t|) == Terminated(c, |t|) && AtEnd(b, |t|) == AtEnd(c, |t|)
  {
  }

  /** `nextItem` reads back a literal or a number from its text, pushing
      back the unit after it, or its last unit when it ends the input. */
  lemma ScalarItemReads(c: Cursor, v: Value, doubleOf: DoubleParser)
    requires Valid(c) && ReadableScalar(v, doubleOf)
    requires var t := RenderValue(v, 0, 0).text; Ahead(c, t) && (Terminated(c, |t|) || AtEnd(c, |t|))
    ensures NextItem(c, doubleOf).result == Ok(v)
    ensures NextItem(c, doubleOf).cursor.usePrevious
    ensures var t := RenderValue(v, 0, 0).text;
      NextItem(c, doubleOf).cursor.index == c.index + |t| - (if AtEnd(c, |t|) then 1 else 0)
  {
    ScalarToken(v, doubleOf);
    assert c.input[c.index] == RenderValue(v, 0, 0).text[0];
    var b := RawItemUnfold(c, doubleOf);
    AheadMoved(c, b, RenderValue(v, 0, 0).text);
    ScalarReads(b, v, doubleOf);
  }

  /** What `writeJsonValue` writes for a string, or for a readable literal
      or number at the end of the input or followed by a unit that ends a
      raw token, a new parser's `nextItem` reads back as that value. It
      stops right after a string. After a literal or a number it has the
      unit after the text pushed back, or, at the end of the input, the
      text's last unit. The layout arguments do not matter here. */
  lemma WriteThenRead(v: Value, factor: Int32, indent: Int32, tail: Text, doubleOf: DoubleParser)
    requires v.Str? || ReadableScalar(v, doubleOf)
    requires !v.Str? && tail != [] ==> !InToken(tail[0] as int)
    ensures RenderValue(v, factor, indent).complete
    ensures var t := RenderValue(v, factor, indent).text;
      && NextItem(Start(t + tail), doubleOf).result == Ok(v)
      && NextItem(Start(t + tail), doubleOf).cursor.usePrevious == !v.Str?
      && NextItem(Start(t + tail), doubleOf).cursor.index == if !v.Str? && tail == [] then |t| - 1 else |t|
  {
    var t := RenderValue(v, factor, indent).text;
    assert t == RenderValue(v, 0, 0).text;
    var c := Start(t + tail);
    assert Ahead(c, t) by {
      forall j | 0 <= j < |t|
        ensures c.input[j] == t[j]
      {
        assert (t + tail)[j] == t[j];
      }
    }
    if v.Str? {
      StringItemReads(c, v.s, doubleOf);
    } else {
      ScalarToken(v, doubleOf);
      if tail != [] {
        assert c.input[|t|] == tail[0];
      }
      ScalarItemReads(c, v, doubleOf);
    }
  }
}
