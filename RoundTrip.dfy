/** What the writer and the parser promise about each other: `nextString`
    reads back exactly the string `writeString` wrote, and stops right after
    its closing quote. */
module RoundTrip {
  import opened Wrappers
  import opened Text
  import opened Numbers
  import opened Cursors
  import opened Grammar
  import opened Rendering

  /** `input` continues with `t` from `i` on. */
  predicate Occurs(input: Text, i: int, t: Text)
  {
    0 <= i && i + |t| <= |input|
    && input[i..i + |t|] == t
  }

  /** The cursor's input continues with `t` from `index` on. */
  predicate Ahead(c: Cursor, t: Text)
  {
    Occurs(c.input, c.index, t)
  }

  /** What is ahead begins with any prefix of it. */
  lemma AheadPrefix(c: Cursor, e: Text, t: Text)
    requires Ahead(c, e + t)
    ensures Ahead(c, e)
  {
    forall j | c.index <= j < c.index + |e|
      ensures c.input[j] == e[j - c.index]
    {
      assert (e + t)[j - c.index] == e[j - c.index];
    }
  }

  /** Reading past a prefix `e` leaves the rest of the text ahead. */
  lemma AheadShift(c: Cursor, d: Cursor, e: Text, t: Text)
    requires Ahead(c, e + t)
    requires d.input == c.input && d.index == c.index + |e|
    ensures Ahead(d, t)
  {
    forall j | d.index <= j < d.index + |t|
      ensures d.input[j] == t[j - d.index]
    {
      assert (e + t)[j - c.index] == t[j - d.index];
    }
  }

  /** Each two-unit escape the writer produces is one the parser decodes
      back to the unit it stands for. */
  lemma ControlLetterUnescapes(u: CodeUnit)
    requires ControlLetter(u).Some?
    ensures ControlLetter(u).value != LETTER_U
    ensures Unescape(ControlLetter(u).value) == Some(u)
  {
  }

  lemma UnitRemainder(v: int)
    requires 0 <= v < 0x1_0000
    ensures v % 0x1_0000 == v
  {
  }

  lemma ConsSlice(acc: Text, s: Text, i: nat)
    requires i < |s|
    ensures acc + [s[i]] + s[i + 1..] == acc + s[i..]
  {
    assert s[i..] == [s[i]] + s[i + 1..];
  }

  /** A unit that needs no escape is copied into the result. */
  lemma PlainStep(c: Cursor, acc: Text, u: CodeUnit)
    requires Valid(c) && Ahead(c, [u])
    requires u != LF && u != CR && u != BACKSLASH && u != QUOTE
    ensures StringBody(c, acc) == StringBody(Next(c).cursor, acc + [u])
  {
    assert c.input[c.index] == u;
  }

  /** A backslash and the letter `x` stand for `u`. */
  lemma PairStep(c: Cursor, acc: Text, x: CodeUnit, u: CodeUnit)
    requires Valid(c) && Ahead(c, [BACKSLASH, x])
    requires x != LETTER_U && Unescape(x) == Some(u)
    ensures Next(Next(c).cursor).result == Ok(x)
    ensures StringBody(c, acc) == StringBody(Next(Next(c).cursor).cursor, acc + [u])
  {
    assert c.input[c.index] == BACKSLASH;
    assert c.input[c.index + 1] == x;
  }

  /** `next(4)` reads the four digits of a `\u` escape. */
  lemma HexDigitsRead(c: Cursor, u: CodeUnit)
    requires Valid(c) && Ahead(c, HexEscape(u))
    ensures NextN(c, 4).result == Ok(HexEscape(u)) && NextN(c, 4).cursor.index == c.index + 4
  {
    NextNReads(c, 4);
    TakeUnits(c, 4);
    var h := NextN(c, 4).result.value;
    forall k | 0 <= k < 4
      ensures h[k] == HexEscape(u)[k]
    {
      assert h[k] == c.input[c.index + k];
    }
    assert h == HexEscape(u);
  }

  /** A backslash, `u` and four hexadecimal digits stand for `u`. */
  lemma HexStep(c: Cursor, acc: Text, u: CodeUnit)
    requires Valid(c) && Ahead(c, [BACKSLASH, LETTER_U] + HexEscape(u))
    ensures var h := NextN(Next(Next(c).cursor).cursor, 4);
      && h.result.Ok? && h.cursor.index == c.index + 6
      && StringBody(c, acc) == StringBody(h.cursor, acc + [u])
  {
    var e := [BACKSLASH, LETTER_U] + HexEscape(u);
    assert c.input[c.index] == e[0];
    assert c.input[c.index + 1] == e[1];
    var c2 := Next(Next(c).cursor).cursor;
    AheadShift(c, c2, [BACKSLASH, LETTER_U], HexEscape(u));
    HexDigitsRead(c2, u);
    HexEscapeParses(u);
    UnitRemainder(u as int);
  }

  /** Whatever `writeString` wrote for the unit `u` after `p`, the loop of
      `nextString` reads it as `u` and moves past it. */
  lemma UnitStep(c: Cursor, acc: Text, u: CodeUnit, p: CodeUnit, rest: Text) returns (d: Cursor)
    requires Valid(c) && Ahead(c, EscapeUnit(u, p) + rest)
    ensures Valid(d) && d.input == c.input && d.index == c.index + |EscapeUnit(u, p)|
    ensures StringBody(c, acc) == StringBody(d, acc + [u])
  {
    var e := EscapeUnit(u, p);
    AheadPrefix(c, e, rest);
    if u == BACKSLASH || u == QUOTE || (u == SLASH && p == LESS) {
      PairStep(c, acc, u, u);
      d := Next(Next(c).cursor).cursor;
    } else if ControlLetter(u).Some? {
      ControlLetterUnescapes(u);
      PairStep(c, acc, ControlLetter(u).value, u);
      d := Next(Next(c).cursor).cursor;
    } else if NeedsHex(u) {
      HexStep(c, acc, u);
      d := NextN(Next(Next(c).cursor).cursor, 4).cursor;
    } else {
      PlainStep(c, acc, u);
      d := Next(c).cursor;
    }
  }

  /** The closing quote ends the string. */
  lemma CloseStep(c: Cursor, acc: Text)
    requires Valid(c) && Ahead(c, [QUOTE])
    ensures StringBody(c, acc) == Step(Ok(acc), Next(c).cursor)
  {
    assert c.input[c.index] == QUOTE;
  }

  /** The loop of `nextString`, started on what the loop of `writeString`
      wrote for `s[i..]` followed by the closing quote, decodes `s[i..]` and
      stops right after the quote. */
  lemma {:induction false} EscapedRoundTrip(c: Cursor, acc: Text, s: Text, i: nat)
    requires Valid(c) && i <= |s|
    requires Ahead(c, Escaped(s, i) + [QUOTE])
    ensures StringBody(c, acc).result == Ok(acc + s[i..])
    ensures StringBody(c, acc).cursor.index == c.index + |Escaped(s, i)| + 1
    decreases |s| - i
  {
    if i == |s| {
      CloseStep(c, acc);
      assert acc + s[i..] == acc;
    } else {
      var u, p := s[i], PreviousChar(s, i);
      var e := EscapeUnit(u, p);
      var rest := Escaped(s, i + 1) + [QUOTE];
      EscapedStep(s, i);
      AppendAssociates(e, Escaped(s, i + 1), [QUOTE]);
      var d := UnitStep(c, acc, u, p, rest);
      AheadShift(c, d, e, rest);
      EscapedRoundTrip(d, acc + [u], s, i + 1);
      ConsSlice(acc, s, i);
    }
  }

  /** `nextString`, started where `writeString(s)` was written, returns `s`
      and stops right after the closing quote. */
  lemma StringRoundTrip(c: Cursor, s: Text)
    requires Valid(c) && Ahead(c, Quote(s))
    ensures NextString(c).result == Ok(s)
    ensures NextString(c).cursor.index == c.index + |Quote(s)|
  {
    var body := Escaped(s, 0) + [QUOTE];
    AppendAssociates([QUOTE], Escaped(s, 0), [QUOTE]);
    assert c.input[c.index] == Quote(s)[0] == QUOTE;
    assert NextClean(c) == Next(c);
    AheadShift(c, Next(c).cursor, [QUOTE], body);
    EscapedRoundTrip(Next(c).cursor, [], s, 0);
    assert [] + s[0..] == s;
  }
}
