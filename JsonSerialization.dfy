/** The static methods of `JsonSerialization`, writing to a `Writer` that
    collects the text. Each method is proved to append exactly what the
    matching function of `Rendering` prescribes, and to report whether it
    finished (a JsonException for a non-finite number stops it part-way). */
module JsonSerialization {
  import opened Text
  import opened Numbers
  import opened JsonValues
  import opened Rendering

  /** A `java.io.Writer`: the text written to it so far. */
  class Writer {
    var text: Text

    constructor()
      ensures text == []
    {
      text := [];
    }

    /** `write(c)` / `write(s)`. */
    method Write(t: Text)
      modifies this
      ensures text == old(text) + t
    {
      text := text + t;
    }
  }

  /** `writeNumber(writer, n)`. */
  method WriteNumber(w: Writer, n: Number) returns (ok: bool)
    modifies w
    ensures w.text == old(w.text) + RenderNumber(n).text && ok == RenderNumber(n).complete
  {
    if n.Double? && !n.d.finite {
      return false;
    }
    w.Write(NumberText(n));
    return true;
  }

  /** `writeString(writer, s)`. */
  method WriteString(w: Writer, s: Text)
    modifies w
    ensures w.text == old(w.text) + Quote(s)
  {
    w.Write([QUOTE]);
    ghost var goal := w.text + Escaped(s, 0);
    var previousChar: CodeUnit := 0;
    for i := 0 to |s|
      invariant previousChar == PreviousChar(s, i)
      invariant w.text + Escaped(s, i) == goal
    {
      ghost var before := w.text;
      var c := s[i];
      WriteEscaped(w, c, previousChar);
      EscapedStep(s, i);
      AppendAssociates(before, EscapeUnit(c, previousChar), Escaped(s, i + 1));
      previousChar := c;
    }
    assert w.text == goal;
    w.Write([QUOTE]);
  }

  /** The `switch` in the loop of `writeString`: one unit `c`, the unit
      before it being `previousChar`. */
  method WriteEscaped(w: Writer, c: CodeUnit, previousChar: CodeUnit)
    modifies w
    ensures w.text == old(w.text) + EscapeUnit(c, previousChar)
  {
    if c == BACKSLASH || c == QUOTE {
      w.Write([BACKSLASH]);
      w.Write([c]);
    } else if c == SLASH {
      if previousChar == LESS {
        w.Write([BACKSLASH]);
      }
      w.Write([c]);
    } else if c == BACKSPACE {
      w.Write([BACKSLASH, LETTER_B]);
    } else if c == TAB {
      w.Write([BACKSLASH, LETTER_T]);
    } else if c == LF {
      w.Write([BACKSLASH, LETTER_N]);
    } else if c == FORMFEED {
      w.Write([BACKSLASH, LETTER_F]);
    } else if c == CR {
      w.Write([BACKSLASH, LETTER_R]);
    } else if c < SPACE || (0x80 <= c < 0xa0) || (0x2000 <= c < 0x2100) {
      w.Write([BACKSLASH, LETTER_U]);
      WriteHex(w, c);
    } else {
      w.Write([c]);
    }
  }

  /** The `\u` escape's four digits: `Integer.toHexString(c)`, padded on
      the left with zeros from the constant `"0000"`. */
  method WriteHex(w: Writer, c: CodeUnit)
    modifies w
    ensures w.text == old(w.text) + HexEscape(c)
  {
    var hex := HexText(c as nat);
    HexTextShort(c as nat);
    w.Write([ZERO, ZERO, ZERO, ZERO][..4 - |hex|]);
    w.Write(hex);
    assert [ZERO, ZERO, ZERO, ZERO][..4 - |hex|] == Repeat(ZERO, 4 - |hex|);
    HexEscapePadded(c);
  }

  /** `writeIndent(writer, n)`: `n` spaces, none when `n` is negative. */
  method WriteIndent(w: Writer, n: Int32)
    modifies w
    ensures w.text == old(w.text) + Spaces(n)
  {
    var i := 0;
    while i < n
      invariant 0 <= i <= if n < 0 then 0 else n as int
      invariant w.text == old(w.text) + Spaces(i)
    {
      w.Write([SPACE]);
      i := i + 1;
      assert Spaces(i) == Spaces(i - 1) + [SPACE];
    }
    assert |Spaces(n)| == |Spaces(i)|;
  }

  /** `writeJsonValue(writer, v, factor, indent)`. */
  method WriteJsonValue(w: Writer, v: Value, factor: Int32, indent: Int32) returns (ok: bool)
    modifies w
    ensures w.text == old(w.text) + RenderValue(v, factor, indent).text
    ensures ok == RenderValue(v, factor, indent).complete
    decreases v, 2
  {
    match v
    case Null =>
      w.Write(NULL_WORD);
      ok := true;
    case Obj(ms) =>
      ok := WriteJsonObject(w, ms, indent, indent);
    case Arr(es) =>
      ok := WriteJsonArray(w, es, factor, indent);
    case Num(n) =>
      ok := WriteNumber(w, n);
    case Bool(b) =>
      w.Write(if b then TRUE_WORD else FALSE_WORD);
      ok := true;
    case Str(s) =>
      WriteString(w, s);
      ok := true;
  }

  /** `writeJsonObject(writer, ms, factor, indent)`. */
  method WriteJsonObject(w: Writer, ms: Entries, factor: Int32, indent: Int32) returns (ok: bool)
    modifies w
    ensures w.text == old(w.text) + RenderObject(ms, factor, indent).text
    ensures ok == RenderObject(ms, factor, indent).complete
    decreases Obj(ms), 1
  {
    w.Write([LBRACE]);
    if |ms| == 1 {
      assert ms[0] in ms;
      WriteString(w, ms[0].0);
      w.Write([COLON]);
      if factor > 0 {
        w.Write([SPACE]);
      }
      ok := WriteJsonValue(w, ms[0].1, factor, indent);
      SingleMemberEnds(ms, factor, indent, old(w.text), w.text);
      if !ok {
        return;
      }
    } else if |ms| != 0 {
      var newIndent := Wrap32(indent + factor);
      var commanate := false;
      var i := 0;
      ghost var goal := Then(Done(w.text), RenderMembers(ms, 0, factor, newIndent));
      while i < |ms|
        invariant 0 <= i <= |ms| && commanate == (i > 0)
        invariant Then(Done(w.text), RenderMembers(ms, i, factor, newIndent)) == goal
      {
        ghost var before := w.text;
        assert ms[i] in ms;
        ok := WriteMember(w, commanate, ms[i].0, ms[i].1, factor, newIndent);
        MembersAdvance(ms, i, factor, newIndent, before, w.text);
        if !ok {
          ObjectEnds(ms, factor, indent, old(w.text), w.text);
          return;
        }
        commanate := true;
        i := i + 1;
      }
      ghost var members := w.text;
      ObjectEnds(ms, factor, indent, old(w.text), members);
      if factor > 0 {
        w.Write([LF]);
      }
      assert w.text == members + Newline(factor);
      WriteIndent(w, indent);
    }
    w.Write([RBRACE]);
    return true;
  }

  /** One pass of the loop in `writeJsonObject`: the separator, the indent,
      the key, the colon and the value of one member. */
  method WriteMember(w: Writer, commanate: bool, key: Text, v: Value, factor: Int32, indent: Int32) returns (ok: bool)
    modifies w
    ensures w.text == old(w.text) + MemberHead(commanate, factor, indent, key) + RenderValue(v, factor, indent).text
    ensures ok == RenderValue(v, factor, indent).complete
    decreases v, 3
  {
    if commanate {
      w.Write([COMMA]);
    }
    assert w.text == old(w.text) + Comma(commanate);
    if factor > 0 {
      w.Write([LF]);
    }
    WriteIndent(w, indent);
    WriteString(w, key);
    w.Write([COLON]);
    if factor > 0 {
      w.Write([SPACE]);
    }
    MemberHeadAppend(old(w.text), commanate, factor, indent, key);
    assert w.text == old(w.text) + MemberHead(commanate, factor, indent, key);
    ok := WriteJsonValue(w, v, factor, indent);
  }

  /** `writeJsonArray(writer, es, factor, indent)`. */
  method WriteJsonArray(w: Writer, es: seq<Value>, factor: Int32, indent: Int32) returns (ok: bool)
    modifies w
    ensures w.text == old(w.text) + RenderArray(es, factor, indent).text
    ensures ok == RenderArray(es, factor, indent).complete
    decreases Arr(es), 1
  {
    var alreadyDeclaredValue := false;
    w.Write([LBRACKET]);
    var newIndent := Wrap32(indent + factor);
    ghost var goal := Then(Done(w.text), RenderElements(es, 0, factor, newIndent));
    for i := 0 to |es|
      invariant alreadyDeclaredValue == (i > 0)
      invariant Then(Done(w.text), RenderElements(es, i, factor, newIndent)) == goal
    {
      ghost var before := w.text;
      if alreadyDeclaredValue {
        w.Write([COMMA]);
      }
      assert w.text == before + Comma(i > 0);
      if factor > 0 {
        w.Write([LF]);
      }
      assert w.text == before + Comma(i > 0) + Newline(factor);
      WriteIndent(w, newIndent);
      assert w.text == before + ElementHead(i > 0, factor, newIndent);
      ok := WriteJsonValue(w, es[i], factor, newIndent);
      ElementsAdvance(es, i, factor, newIndent, before, w.text);
      if !ok {
        ArrayEnds(es, factor, indent, old(w.text), w.text);
        return;
      }
      alreadyDeclaredValue := true;
    }
    ghost var elements := w.text;
    ArrayEnds(es, factor, indent, old(w.text), elements);
    if factor > 0 {
      w.Write([LF]);
    }
    assert w.text == elements + Newline(factor);
    WriteIndent(w, indent);
    w.Write([RBRACKET]);
    return true;
  }
}
