/** What the static methods of `JsonSerialization` write, as functions of
    the value, the indent factor and the current indent. The methods of the
    module `JsonSerialization` are proved to write exactly this. */
module Rendering {
  import opened Wrappers
  import opened Text
  import opened Numbers
  import opened JsonValues

  /** What a write leaves in the writer, and whether it got to the end. A
      non-finite number raises JsonException part-way through; the text
      written before it stays in the writer. */
  datatype Rendered = Rendered(text: Text, complete: bool)

  /** A write that always finishes. */
  function Done(t: Text): Rendered
  {
    Rendered(t, true)
  }

  /** `a`, followed by `b` if `a` got to the end. */
  function Then(a: Rendered, b: Rendered): Rendered
  {
    if a.complete then Rendered(a.text + b.text, b.complete) else a
  }

  /** Units `writeString` escapes as `\u` and four hexadecimal digits: the
      remaining controls, U+0080 to U+009F and U+2000 to U+20FF. */
  predicate NeedsHex(u: CodeUnit)
  {
    u < SPACE || (0x80 <= u < 0xa0) || (0x2000 <= u < 0x2100)
  }

  /** The four lower-case hexadecimal digits of `u`. */
  function HexEscape(u: CodeUnit): (t: Text)
    ensures |t| == 4
  {
    [DigitUnit(u as int / 0x1000, 16), DigitUnit(u as int / 0x100 % 16, 16),
     DigitUnit(u as int / 0x10 % 16, 16), DigitUnit(u as int % 16, 16)]
  }

  /** They are what `writeString` writes: `Integer.toHexString(u)` padded on
      the left with zeros to four digits. */
  lemma HexEscapePadded(u: CodeUnit)
    ensures HexEscape(u) == Repeat(ZERO, 4 - |HexText(u as nat)|) + HexText(u as nat)
  {
    var n := u as nat;
    var d0, d1, d2, d3 := DigitUnit(n / 0x1000, 16), DigitUnit(n / 0x100 % 16, 16),
      DigitUnit(n / 0x10 % 16, 16), DigitUnit(n % 16, 16);
    assert n / 16 / 16 == n / 0x100 && n / 0x100 / 16 == n / 0x1000;
    if n < 0x10 {
      assert HexText(n) == [d3];
    } else if n < 0x100 {
      assert HexText(n) == Digits(n / 16, 16) + [d3];
      assert Digits(n / 16, 16) == [d2];
    } else if n < 0x1000 {
      assert HexText(n) == Digits(n / 16, 16) + [d3];
      assert Digits(n / 16, 16) == Digits(n / 0x100, 16) + [d2];
      assert Digits(n / 0x100, 16) == [d1];
    } else {
      assert HexText(n) == Digits(n / 16, 16) + [d3];
      assert Digits(n / 16, 16) == Digits(n / 0x100, 16) + [d2];
      assert Digits(n / 0x100, 16) == Digits(n / 0x1000, 16) + [d1];
      assert Digits(n / 0x1000, 16) == [d0];
    }
  }

  /** `Integer.parseInt(_, 16)` reads the four digits back as `u`. */
  lemma HexEscapeParses(u: CodeUnit)
    ensures ParseInt(HexEscape(u), 16) == Some(u as int)
  {
    HexEscapePadded(u);
    PaddedHexRoundTrip(u as nat);
  }

  /** The letter of the two-unit escape of a control unit, if it has one:
      `\b`, `\t`, `\n`, `\f`, `\r`. */
  function ControlLetter(u: CodeUnit): Option<CodeUnit>
  {
    if u == BACKSPACE then Some(LETTER_B)
    else if u == TAB then Some(LETTER_T)
    else if u == LF then Some(LETTER_N)
    else if u == FORMFEED then Some(LETTER_F)
    else if u == CR then Some(LETTER_R)
    else None
  }

  /** What one pass of the `writeString` loop writes for `u`, when the
      unit before it was `previous`: a backslash before `\`, `"` and a `/`
      that follows `<`; a letter escape for five controls; `\u` and four
      digits for the units `NeedsHex` names; otherwise the unit itself. */
  function EscapeUnit(u: CodeUnit, previous: CodeUnit): Text
  {
    if u == BACKSLASH || u == QUOTE || (u == SLASH && previous == LESS) then [BACKSLASH, u]
    else if ControlLetter(u).Some? then [BACKSLASH, ControlLetter(u).value]
    else if NeedsHex(u) then [BACKSLASH, LETTER_U] + HexEscape(u)
    else [u]
  }

  /** The unit `writeString` remembers as `previousChar` when it comes to
      `s[i]`. */
  function PreviousChar(s: Text, i: nat): CodeUnit
    requires i <= |s|
  {
    if i == 0 then 0 else s[i - 1]
  }

  /** The escaped form of `s[i..]`, as the loop of `writeString` writes it. */
  function Escaped(s: Text, i: nat): Text
    requires i <= |s|
    decreases |s| - i, 1
  {
    if i == |s| then [] else EscapedFrom(s, i)
  }

  /** One pass of the loop on `s[i]`, then the rest of the loop. */
  function EscapedFrom(s: Text, i: nat): Text
    requires i < |s|
    decreases |s| - i, 0
  {
    EscapeUnit(s[i], PreviousChar(s, i)) + Escaped(s, i + 1)
  }

  lemma EscapedStep(s: Text, i: nat)
    requires i < |s|
    ensures Escaped(s, i) == EscapeUnit(s[i], PreviousChar(s, i)) + Escaped(s, i + 1)
  {
  }

  /** `writeString(s)`: the escaped units between double quotes. */
  function Quote(s: Text): Text
  {
    [QUOTE] + Escaped(s, 0) + [QUOTE]
  }

  /** `writeIndent(n)`. */
  function Spaces(n: int): Text
  {
    Repeat(SPACE, n)
  }

  /** A line break, written only when the indent factor is positive. */
  function Newline(factor: Int32): Text
  {
    if factor > 0 then [LF] else []
  }

  /** The space after a colon, written only when the factor is positive. */
  function Gap(factor: Int32): Text
  {
    if factor > 0 then [SPACE] else []
  }

  function Comma(needed: bool): Text
  {
    if needed then [COMMA] else []
  }

  /** `writeNumber`: fails on a non-finite double. */
  function RenderNumber(n: Number): Rendered
  {
    match n
    case Double(d) => if d.finite then Done(d.text) else Rendered([], false)
    case _ => Done(NumberText(n))
  }

  /** `writeJsonValue(writer, v, factor, indent)`. An object is written
      with `indent` as its factor. */
  function RenderValue(v: Value, factor: Int32, indent: Int32): Rendered
    decreases v, 2
  {
    match v
    case Null => Done(NULL_WORD)
    case Obj(ms) => RenderObject(ms, indent, indent)
    case Arr(es) => RenderArray(es, factor, indent)
    case Num(n) => RenderNumber(n)
    case Bool(b) => Done(if b then TRUE_WORD else FALSE_WORD)
    case Str(s) => Done(Quote(s))
  }

  /** `writeJsonObject(writer, ms, factor, indent)`: `{}` when empty, one
      member inline, more members one per line. */
  function RenderObject(ms: Entries, factor: Int32, indent: Int32): Rendered
    decreases Obj(ms), 1
  {
    if |ms| == 0 then Done([LBRACE, RBRACE])
    else if |ms| == 1 then
      assert ms[0] in ms;
      Then(Done([LBRACE] + Quote(ms[0].0) + [COLON] + Gap(factor)),
        Then(RenderValue(ms[0].1, factor, indent), Done([RBRACE])))
    else
      Then(Done([LBRACE]),
        Then(RenderMembers(ms, 0, factor, Wrap32(indent + factor)),
          Done(Newline(factor) + Spaces(indent) + [RBRACE])))
  }

  /** The loop of `writeJsonObject` from member `j` on. */
  function RenderMembers(ms: Entries, j: nat, factor: Int32, indent: Int32): Rendered
    requires j <= |ms|
    decreases Obj(ms), 0, |ms| - j
  {
    if j == |ms| then Done([])
    else
      assert ms[j] in ms;
      Then(Done(MemberHead(j > 0, factor, indent, ms[j].0)),
        Then(RenderValue(ms[j].1, factor, indent), RenderMembers(ms, j + 1, factor, indent)))
  }

  lemma MembersStep(ms: Entries, j: nat, factor: Int32, indent: Int32)
    requires j < |ms|
    ensures RenderMembers(ms, j, factor, indent) ==
      Then(Done(MemberHead(j > 0, factor, indent, ms[j].0)),
        Then(RenderValue(ms[j].1, factor, indent), RenderMembers(ms, j + 1, factor, indent)))
  {
  }

  /** What a pass of the `writeJsonObject` loop writes before the value. */
  function MemberHead(comma: bool, factor: Int32, indent: Int32, key: Text): Text
  {
    Comma(comma) + Newline(factor) + Spaces(indent) + Quote(key) + [COLON] + Gap(factor)
  }

  /** Appending a member head piece by piece appends the whole head. */
  lemma MemberHeadAppend(before: Text, comma: bool, factor: Int32, indent: Int32, key: Text)
    ensures before + MemberHead(comma, factor, indent, key)
      == before + Comma(comma) + Newline(factor) + Spaces(indent) + Quote(key) + [COLON] + Gap(factor)
  {
    var c, n, s, q := Comma(comma), Newline(factor), Spaces(indent), Quote(key);
    AppendAssociates(before, c + n + s + q + [COLON], Gap(factor));
    AppendAssociates(before, c + n + s + q, [COLON]);
    AppendAssociates(before, c + n + s, q);
    AppendAssociates(before, c + n, s);
    AppendAssociates(before, c, n);
  }

  /** `writeJsonArray(writer, es, factor, indent)`. */
  function RenderArray(es: seq<Value>, factor: Int32, indent: Int32): Rendered
    decreases Arr(es), 1
  {
    Then(Done([LBRACKET]),
      Then(RenderElements(es, 0, factor, Wrap32(indent + factor)),
        Done(Newline(factor) + Spaces(indent) + [RBRACKET])))
  }

  /** The loop of `writeJsonArray` from element `j` on. */
  function RenderElements(es: seq<Value>, j: nat, factor: Int32, indent: Int32): Rendered
    requires j <= |es|
    decreases Arr(es), 0, |es| - j
  {
    if j == |es| then Done([])
    else
      Then(Done(ElementHead(j > 0, factor, indent)),
        Then(RenderValue(es[j], factor, indent), RenderElements(es, j + 1, factor, indent)))
  }

  lemma ElementsStep(es: seq<Value>, j: nat, factor: Int32, indent: Int32)
    requires j < |es|
    ensures RenderElements(es, j, factor, indent) ==
      Then(Done(ElementHead(j > 0, factor, indent)),
        Then(RenderValue(es[j], factor, indent), RenderElements(es, j + 1, factor, indent)))
  {
  }

  /** What a pass of the `writeJsonArray` loop writes before the value. */
  function ElementHead(comma: bool, factor: Int32, indent: Int32): Text
  {
    Comma(comma) + Newline(factor) + Spaces(indent)
  }

  /** `t`, then a head, then `r`, then the rest: the rest is only reached
      when `r` finishes. */
  lemma ThenSteps(t: Text, head: Text, r: Rendered, rest: Rendered)
    ensures Then(Done(t), Then(Done(head), Then(r, rest))) ==
      if r.complete then Then(Done(t + head + r.text), rest) else Rendered(t + head + r.text, false)
  {
    assert t + (head + r.text) == t + head + r.text;
    if r.complete {
      assert t + (head + (r.text + rest.text)) == t + head + r.text + rest.text;
    }
  }

  /** An opening text, `r`, and a closing text that is written only when
      `r` finishes. */
  lemma Enclosed(open: Text, r: Rendered, close: Text)
    ensures Then(Done(open), Then(r, Done(close))) ==
      if r.complete then Done(open + r.text + close) else Rendered(open + r.text, false)
  {
    assert open + (r.text + close) == open + r.text + close;
  }

  /** A pass of the `writeJsonArray` loop: after the head and element `i`
      are written, the rest of the loop is what remains to be written, or,
      when the element did not finish, nothing more is. */
  lemma ElementsAdvance(es: seq<Value>, i: nat, factor: Int32, indent: Int32, before: Text, after: Text)
    requires i < |es|
    requires after == before + ElementHead(i > 0, factor, indent) + RenderValue(es[i], factor, indent).text
    ensures RenderValue(es[i], factor, indent).complete ==>
      Then(Done(after), RenderElements(es, i + 1, factor, indent)) == Then(Done(before), RenderElements(es, i, factor, indent))
    ensures !RenderValue(es[i], factor, indent).complete ==>
      Then(Done(before), RenderElements(es, i, factor, indent)) == Rendered(after, false)
  {
    ElementsStep(es, i, factor, indent);
    ThenSteps(before, ElementHead(i > 0, factor, indent), RenderValue(es[i], factor, indent), RenderElements(es, i + 1, factor, indent));
  }

  /** How `writeJsonArray` ends: when an element does not finish, the
      writer holds `[` and the elements so far; otherwise the closing line
      follows them. */
  lemma ArrayEnds(es: seq<Value>, factor: Int32, indent: Int32, start: Text, t: Text)
    ensures var r := RenderElements(es, 0, factor, Wrap32(indent + factor));
      Then(Done(start + [LBRACKET]), r) == Rendered(t, false) ==>
        t == start + RenderArray(es, factor, indent).text && !RenderArray(es, factor, indent).complete
    ensures var r := RenderElements(es, 0, factor, Wrap32(indent + factor));
      Then(Done(start + [LBRACKET]), r) == Then(Done(t), RenderElements(es, |es|, factor, Wrap32(indent + factor))) ==>
        t + Newline(factor) + Spaces(indent) + [RBRACKET] == start + RenderArray(es, factor, indent).text
        && RenderArray(es, factor, indent).complete
  {
    var r := RenderElements(es, 0, factor, Wrap32(indent + factor));
    var close := Newline(factor) + Spaces(indent) + [RBRACKET];
    Enclosed([LBRACKET], r, close);
    AppendAssociates(start, [LBRACKET], r.text);
    AppendAssociates(start + [LBRACKET], r.text, close);
    AppendAssociates(start, [LBRACKET] + r.text, close);
    AppendAssociates(t, Newline(factor) + Spaces(indent), [RBRACKET]);
    AppendAssociates(t, Newline(factor), Spaces(indent));
    assert t + [] == t;
  }

  /** The counterpart of `ElementsAdvance` for the `writeJsonObject` loop. */
  lemma MembersAdvance(ms: Entries, i: nat, factor: Int32, indent: Int32, before: Text, after: Text)
    requires i < |ms|
    requires after == before + MemberHead(i > 0, factor, indent, ms[i].0) + RenderValue(ms[i].1, factor, indent).text
    ensures RenderValue(ms[i].1, factor, indent).complete ==>
      Then(Done(after), RenderMembers(ms, i + 1, factor, indent)) == Then(Done(before), RenderMembers(ms, i, factor, indent))
    ensures !RenderValue(ms[i].1, factor, indent).complete ==>
      Then(Done(before), RenderMembers(ms, i, factor, indent)) == Rendered(after, false)
  {
    MembersStep(ms, i, factor, indent);
    ThenSteps(before, MemberHead(i > 0, factor, indent, ms[i].0), RenderValue(ms[i].1, factor, indent), RenderMembers(ms, i + 1, factor, indent));
  }

  /** How `writeJsonObject` ends when it has two or more members. */
  lemma ObjectEnds(ms: Entries, factor: Int32, indent: Int32, start: Text, t: Text)
    requires |ms| >= 2
    ensures var r := RenderMembers(ms, 0, factor, Wrap32(indent + factor));
      Then(Done(start + [LBRACE]), r) == Rendered(t, false) ==>
        t == start + RenderObject(ms, factor, indent).text && !RenderObject(ms, factor, indent).complete
    ensures var r := RenderMembers(ms, 0, factor, Wrap32(indent + factor));
      Then(Done(start + [LBRACE]), r) == Then(Done(t), RenderMembers(ms, |ms|, factor, Wrap32(indent + factor))) ==>
        t + Newline(factor) + Spaces(indent) + [RBRACE] == start + RenderObject(ms, factor, indent).text
        && RenderObject(ms, factor, indent).complete
  {
    var r := RenderMembers(ms, 0, factor, Wrap32(indent + factor));
    var close := Newline(factor) + Spaces(indent) + [RBRACE];
    Enclosed([LBRACE], r, close);
    AppendAssociates(start, [LBRACE], r.text);
    AppendAssociates(start + [LBRACE], r.text, close);
    AppendAssociates(start, [LBRACE] + r.text, close);
    AppendAssociates(t, Newline(factor) + Spaces(indent), [RBRACE]);
    AppendAssociates(t, Newline(factor), Spaces(indent));
    assert t + [] == t;
  }

  /** How `writeJsonObject` ends with one member, written inline. */
  lemma SingleMemberEnds(ms: Entries, factor: Int32, indent: Int32, start: Text, t: Text)
    requires |ms| == 1
    requires t == start + [LBRACE] + Quote(ms[0].0) + [COLON] + Gap(factor) + RenderValue(ms[0].1, factor, indent).text
    ensures RenderValue(ms[0].1, factor, indent).complete ==>
      t + [RBRACE] == start + RenderObject(ms, factor, indent).text && RenderObject(ms, factor, indent).complete
    ensures !RenderValue(ms[0].1, factor, indent).complete ==>
      t == start + RenderObject(ms, factor, indent).text && !RenderObject(ms, factor, indent).complete
  {
    var head := [LBRACE] + Quote(ms[0].0) + [COLON] + Gap(factor);
    var r := RenderValue(ms[0].1, factor, indent);
    Enclosed(head, r, [RBRACE]);
    AppendAssociates(start, head, r.text);
    AppendAssociates(start, head + r.text, [RBRACE]);
    AppendAssociates(start, [LBRACE] + Quote(ms[0].0), [COLON]);
    AppendAssociates(start, [LBRACE], Quote(ms[0].0));
    AppendAssociates(start, [LBRACE] + Quote(ms[0].0) + [COLON], Gap(factor));
  }
}
