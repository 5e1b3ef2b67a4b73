/** The parser of `JsonParser` (`nextString`, `nextRawString`, `nextItem`,
    `parseJsonObject`, `parseJsonArray`) as functions of the cursor state.
    Each returns the result the Java method returns or throws, together with
    the cursor it leaves behind. */
module Grammar {
  import opened Wrappers
  import opened Text
  import opened Numbers
  import opened JsonValues
  import opened Cursors

  /** `Double.valueOf`, which this model does not interpret: `None` stands
      for NumberFormatException. */
  type DoubleParser = Text -> Option<DoubleRepr>

  const LONG_S: CodeUnit := 0x17f

  /** The unit that a backslash followed by `x` stands for, for every escape
      letter except `u`; `None` for an illegal escape. */
  function Unescape(x: CodeUnit): (r: Option<CodeUnit>)
    ensures r.Some? <==> x in {LETTER_B, LETTER_T, LETTER_N, LETTER_F, LETTER_R, QUOTE, APOSTROPHE, BACKSLASH, SLASH}
  {
    if x == LETTER_B then Some(BACKSPACE)
    else if x == LETTER_T then Some(TAB)
    else if x == LETTER_N then Some(LF)
    else if x == LETTER_F then Some(FORMFEED)
    else if x == LETTER_R then Some(CR)
    else if x == QUOTE || x == APOSTROPHE || x == BACKSLASH || x == SLASH then Some(x)
    else None
  }

  /** `nextString()`: the first non-blank unit must be `"`; the units up to
      the closing `"` are decoded. */
  function NextString(c: Cursor): (s: Step<Text>)
    requires Valid(c)
    ensures Valid(s.cursor) && s.cursor.input == c.input
    ensures s.result.Ok? ==> c.index + 2 <= s.cursor.index && !s.cursor.usePrevious
  {
    var o := NextClean(c);
    if o.result.Err? then Step(Err(o.result.failure), o.cursor)
    else if o.result.value != QUOTE then
      var b := Back(o.cursor);
      Step(Err(SyntaxError(InvalidString, At(b.cursor))), b.cursor)
    else StringBody(o.cursor, [])
  }

  /** The loop of `nextString` after the opening quote, with the units
      decoded so far in `acc`. */
  function StringBody(c: Cursor, acc: Text): (s: Step<Text>)
    requires Valid(c)
    ensures Valid(s.cursor) && s.cursor.input == c.input
    ensures s.result.Ok? ==> c.index < s.cursor.index && !s.cursor.usePrevious
    decreases Remaining(c), 0
  {
    var n := Next(c);
    if n.result.Err? then Step(Err(n.result.failure), n.cursor)
    else StringUnit(n.cursor, acc, n.result.value)
  }

  /** One pass of the `nextString` loop once it has read the unit `x`. */
  function StringUnit(c: Cursor, acc: Text, x: CodeUnit): (s: Step<Text>)
    requires Valid(c)
    ensures Valid(s.cursor) && s.cursor.input == c.input
    ensures s.result.Ok? ==> c.index <= s.cursor.index && (!c.usePrevious ==> !s.cursor.usePrevious)
    decreases Remaining(c), 1
  {
    if x == LF || x == CR then Step(Err(SyntaxError(UnterminatedString, At(c))), c)
    else if x == BACKSLASH then
      var e := Next(c);
      if e.result.Err? then Step(Err(e.result.failure), e.cursor)
      else if e.result.value == LETTER_U then
        var h := NextN(e.cursor, 4);
        if h.result.Err? then Step(Err(h.result.failure), h.cursor)
        else match ParseInt(h.result.value, 16)
          case None => Step(Err(NumberFormat), h.cursor)
          case Some(v) => StringBody(h.cursor, acc + [(v % 0x1_0000) as CodeUnit])
      else match Unescape(e.result.value)
        case None => Step(Err(SyntaxError(IllegalEscape, At(e.cursor))), e.cursor)
        case Some(z) => StringBody(e.cursor, acc + [z])
    else if x == QUOTE then Step(Ok(acc), c)
    else StringBody(c, acc + [x])
  }

  /** A unit (or `EOF`) that continues a raw token: at least a space and none
      of the structural characters `[]{},:=#`. */
  predicate InToken(code: int)
  {
    && code >= SPACE as int
    && code != LBRACKET as int && code != RBRACKET as int
    && code != LBRACE as int && code != RBRACE as int
    && code != COMMA as int && code != COLON as int
    && code != EQUALS as int && code != HASH as int
  }

  /** The loop of `nextRawString`: reads units while they continue the
      token, and returns the token and the cursor after the unit (or end of
      input) that stopped it. */
  function RawRun(c: Cursor): (r: (Text, Cursor))
    requires Valid(c)
    ensures Valid(r.1) && r.1.input == c.input && !r.1.usePrevious
    ensures r.1.index >= c.index + |r.0|
    decreases Remaining(c)
  {
    var d := Read(c);
    if InToken(d.code) then
      var r := RawRun(d.cursor);
      ([d.code as CodeUnit] + r.0, r.1)
    else ([], d.cursor)
  }

  /** The token is the run of units at the cursor. */
  lemma {:induction false} RawRunToken(c: Cursor)
    requires Valid(c)
    ensures c.index + |RawRun(c).0| <= |c.input|
    ensures forall k :: 0 <= k < |RawRun(c).0| ==> RawRun(c).0[k] == c.input[c.index + k]
    decreases Remaining(c)
  {
    var d := Read(c);
    if InToken(d.code) {
      RawRunToken(d.cursor);
    }
  }

  /** Every unit of the token continues a token. */
  lemma {:induction false} RawRunUnits(c: Cursor)
    requires Valid(c)
    ensures forall k :: 0 <= k < |RawRun(c).0| ==> InToken(RawRun(c).0[k] as int)
    decreases Remaining(c)
  {
    var d := Read(c);
    if InToken(d.code) {
      RawRunUnits(d.cursor);
    }
  }

  /** The run is the longest one: it ends at a unit that does not continue
      the token, and the cursor stops just after that unit, or it ends at
      the end of the input, where the cursor has met the end. */
  lemma {:induction false} RawRunStops(c: Cursor)
    requires Valid(c)
    ensures var (t, e) := RawRun(c);
      && (c.index + |t| < |c.input| ==>
            !InToken(c.input[c.index + |t|] as int) && e.index == c.index + |t| + 1)
      && (c.index + |t| >= |c.input| ==> e.index == |c.input| && e.reachedEof)
    decreases Remaining(c)
  {
    var d := Read(c);
    if InToken(d.code) {
      RawRunStops(d.cursor);
    }
  }

  /** `u` equals the lower-case ASCII letter `w` under `equalsIgnoreCase`:
      `w` itself, its upper case, or, for `s`, the long s that upper-cases
      to `S`. */
  predicate FoldsTo(u: CodeUnit, w: CodeUnit)
  {
    u == w || (0x61 <= w <= 0x7a && u as int == w as int - 0x20) || (w == 0x73 && u == LONG_S)
  }

  /** `t.equalsIgnoreCase(word)` for a lower-case ASCII word. */
  predicate MatchesIgnoringCase(t: Text, word: Text)
  {
    |t| == |word| && forall k :: 0 <= k < |t| ==> FoldsTo(t[k], word[k])
  }

  /** What a non-empty raw token stands for: a literal, else the first of
      `Integer.valueOf`, `Long.valueOf`, `Double.valueOf` that accepts it. */
  function Classify(t: Text, doubleOf: DoubleParser): (v: Option<Value>)
    ensures v.Some? && v.value.Num? && v.value.n.Integer? ==> ParseInt(t, 10) == Some(v.value.n.i)
    ensures v.Some? && v.value.Num? && v.value.n.Long? ==>
      ParseInt(t, 10).None? && ParseLong(t, 10) == Some(v.value.n.l)
    ensures v.None? ==> ParseLong(t, 10).None? && doubleOf(t).None?
    ensures v.Some? ==> v.value.Null? || v.value.Bool? || v.value.Num?
  {
    if MatchesIgnoringCase(t, TRUE_WORD) then Some(Bool(true))
    else if MatchesIgnoringCase(t, FALSE_WORD) then Some(Bool(false))
    else if MatchesIgnoringCase(t, NULL_WORD) then Some(Null)
    else match ParseInt(t, 10)
      case Some(i) => Some(Num(Integer(i)))
      case None => match ParseLong(t, 10)
        case Some(l) => Some(Num(Long(l)))
        case None => match doubleOf(t)
          case Some(d) => Some(Num(Double(d)))
          case None => None
  }

  /** The token is `true`, `false` or `null` in any case. */
  predicate Literal(t: Text)
  {
    MatchesIgnoringCase(t, TRUE_WORD) || MatchesIgnoringCase(t, FALSE_WORD) || MatchesIgnoringCase(t, NULL_WORD)
  }

  /** Both directions of the classification: each literal exactly when the
      token matches its word ignoring case; any other token is an `Integer`
      exactly when `Integer.valueOf` accepts it, else a `Long` exactly when
      `Long.valueOf` does, else a `Double` exactly when `Double.valueOf`
      does, and invalid exactly when all three refuse it. */
  lemma ClassifyCases(t: Text, doubleOf: DoubleParser)
    ensures Classify(t, doubleOf) == Some(Bool(true)) <==> MatchesIgnoringCase(t, TRUE_WORD)
    ensures Classify(t, doubleOf) == Some(Bool(false)) <==> MatchesIgnoringCase(t, FALSE_WORD)
    ensures Classify(t, doubleOf) == Some(Null) <==> MatchesIgnoringCase(t, NULL_WORD)
    ensures var v := Classify(t, doubleOf);
      !Literal(t) ==>
        && (v.Some? && v.value.Num? && v.value.n.Integer? <==> ParseInt(t, 10).Some?)
        && (v.Some? && v.value.Num? && v.value.n.Long? <==> ParseInt(t, 10).None? && ParseLong(t, 10).Some?)
        && (v.Some? && v.value.Num? && v.value.n.Double? <==>
              ParseInt(t, 10).None? && ParseLong(t, 10).None? && doubleOf(t).Some?)
        && (v.Some? && v.value.Num? && v.value.n.Double? ==> v.value.n.d == doubleOf(t).value)
        && (v.None? <==> ParseInt(t, 10).None? && ParseLong(t, 10).None? && doubleOf(t).None?)
  {
    if MatchesIgnoringCase(t, NULL_WORD) {
      assert !FoldsTo(t[0], TRUE_WORD[0]);
    }
  }

  /** Tokens the writer never produces are read too: a word in capitals, a
      leading `+`, leading zeros, and `-0`. */
  lemma ClassifyExamples(doubleOf: DoubleParser)
    ensures Classify([0x54, 0x52, 0x55, 0x45], doubleOf) == Some(Bool(true))
    ensures Classify([0x4e, 0x75, 0x4c, 0x4c], doubleOf) == Some(Null)
    ensures Classify([PLUS, 0x35], doubleOf) == Some(Num(Integer(5)))
    ensures Classify([0x30, 0x30, 0x37], doubleOf) == Some(Num(Integer(7)))
    ensures Classify([MINUS, 0x30], doubleOf) == Some(Num(Integer(0)))
  {
    var t := [0x30, 0x30, 0x37];
    assert DigitsValue(t[..2], 10) == Some(0) by {
      assert t[..2][..1] == [0x30];
    }
    assert [MINUS, 0x30][1..] == [0x30];
  }

  /** `nextRawString()`: the token is read, its stopping unit pushed back,
      and the token classified. */
  function NextRawString(c: Cursor, doubleOf: DoubleParser): (s: Step<Value>)
    requires Valid(c)
    ensures Valid(s.cursor) && s.cursor.input == c.input
    ensures s.result.Ok? ==> c.index <= s.cursor.index
  {
    var (token, e) := RawRun(c);
    var b := Back(e);
    if b.result.Err? then Step(Err(b.result.failure), b.cursor)
    else if token == [] then
      Step(Err(SyntaxError(if b.cursor.reachedEof then UnexpectedEof else MissingValue, At(b.cursor))), b.cursor)
    else match Classify(token, doubleOf)
      case Some(v) => Step(Ok(v), b.cursor)
      case None => Step(Err(SyntaxError(InvalidItem, At(b.cursor))), b.cursor)
  }

  /** `nextItem()`: dispatches on the first non-blank unit, which it pushes
      back first. */
  function NextItem(c: Cursor, doubleOf: DoubleParser): (s: Step<Value>)
    requires Valid(c)
    ensures Valid(s.cursor) && s.cursor.input == c.input
    ensures s.result.Ok? ==> c.index <= s.cursor.index
    decreases Remaining(c), 1
  {
    var o := NextClean(c);
    if o.result.Err? then Step(Err(o.result.failure), o.cursor)
    else
      var b := Back(o.cursor).cursor;
      var u := o.result.value;
      if u == QUOTE then
        var r := NextString(b);
        Step(if r.result.Ok? then Ok(Str(r.result.value)) else Err(r.result.failure), r.cursor)
      else if u == LBRACE then
        var r := ParseObject(b, doubleOf);
        Step(if r.result.Ok? then Ok(Obj(r.result.value)) else Err(r.result.failure), r.cursor)
      else if u == LBRACKET then
        var r := ParseArray(b, doubleOf);
        Step(if r.result.Ok? then Ok(Arr(r.result.value)) else Err(r.result.failure), r.cursor)
      else NextRawString(b, doubleOf)
  }

  /** The value bound to `k`, if any (the first binding, as a map has one). */
  function Lookup(ms: Entries, k: Text): Option<Value>
  {
    if ms == [] then None else if ms[0].0 == k then Some(ms[0].1) else Lookup(ms[1..], k)
  }

  /** A key is bound exactly when it is one of the keys. */
  lemma {:induction false} LookupKeys(ms: Entries, k: Text)
    ensures Lookup(ms, k).Some? <==> k in Keys(ms)
  {
    if ms != [] {
      LookupKeys(ms[1..], k);
      assert Keys(ms) == [ms[0].0] + Keys(ms[1..]);
    }
  }

  /** `LinkedHashMap.put`: binds `k` to `v` in place when `k` is present,
      else appends the binding; returns the previous value. */
  function Put(ms: Entries, k: Text, v: Value): (r: (Entries, Option<Value>))
    ensures r.1 == Lookup(ms, k)
    ensures Lookup(r.0, k) == Some(v)
    ensures forall k' :: k' != k ==> Lookup(r.0, k') == Lookup(ms, k')
  {
    if ms == [] then ([(k, v)], None)
    else if ms[0].0 == k then ([(k, v)] + ms[1..], Some(ms[0].1))
    else
      var (rest, previous) := Put(ms[1..], k, v);
      ([ms[0]] + rest, previous)
  }

  /** `put` keeps the keys in their order: a key already present keeps its
      place, a new key is appended after all the others. */
  lemma {:induction false} PutKeys(ms: Entries, k: Text, v: Value)
    ensures Keys(Put(ms, k, v).0) == if k in Keys(ms) then Keys(ms) else Keys(ms) + [k]
  {
    if ms != [] {
      var r := Put(ms, k, v).0;
      assert Keys(ms) == [ms[0].0] + Keys(ms[1..]);
      assert r[1..] == if ms[0].0 == k then ms[1..] else Put(ms[1..], k, v).0;
      assert Keys(r) == [ms[0].0] + Keys(r[1..]);
      if ms[0].0 != k {
        PutKeys(ms[1..], k, v);
        assert k in Keys(ms) <==> k in Keys(ms[1..]);
        if k !in Keys(ms) {
          assert [ms[0].0] + (Keys(ms[1..]) + [k]) == Keys(ms) + [k];
        }
      }
    }
  }

  /** `parseJsonObject()`. */
  function ParseObject(c: Cursor, doubleOf: DoubleParser): (s: Step<Entries>)
    requires Valid(c)
    ensures Valid(s.cursor) && s.cursor.input == c.input
    ensures s.result.Ok? ==> c.index < s.cursor.index
    decreases Remaining(c), 0
  {
    var o := NextClean(c);
    if o.result.Err? then Step(Err(o.result.failure), o.cursor)
    else if o.result.value != LBRACE then
      var b := Back(o.cursor);
      Step(Err(SyntaxError(InvalidObject, At(b.cursor))), b.cursor)
    else Members(o.cursor, doubleOf, [])
  }

  /** The loop of `parseJsonObject`, with the members read so far in `acc`. */
  function Members(c: Cursor, doubleOf: DoubleParser, acc: Entries): (s: Step<Entries>)
    requires Valid(c)
    ensures Valid(s.cursor) && s.cursor.input == c.input
    ensures s.result.Ok? ==> c.index < s.cursor.index
    decreases Remaining(c), 2
  {
    var o := NextClean(c);
    if o.result.Err? then Step(Err(o.result.failure), o.cursor)
    else if o.result.value == RBRACE then Step(Ok(acc), o.cursor)
    else
      var k := NextItem(Back(o.cursor).cursor, doubleOf);
      if k.result.Err? then Step(Err(k.result.failure), k.cursor)
      else match KeyText(k.result.value)
        case None => Step(Err(NullPointer), k.cursor)
        case Some(key) => Member(k.cursor, doubleOf, acc, key)
  }

  /** The rest of one iteration of the `parseJsonObject` loop, once the key
      has been read. */
  function Member(c: Cursor, doubleOf: DoubleParser, acc: Entries, key: Text): (s: Step<Entries>)
    requires Valid(c)
    ensures Valid(s.cursor) && s.cursor.input == c.input
    ensures s.result.Ok? ==> c.index < s.cursor.index
    decreases Remaining(c), 1
  {
    var colon := NextClean(c);
    if colon.result.Err? then Step(Err(colon.result.failure), colon.cursor)
    else if colon.result.value != COLON then
      Step(Err(SyntaxError(MissingColon, At(colon.cursor))), colon.cursor)
    else
      var v := NextItem(colon.cursor, doubleOf);
      if v.result.Err? then Step(Err(v.result.failure), v.cursor)
      else
        var (acc', previous) := Put(acc, key, v.result.value);
        if previous.Some? && !previous.value.Null? then
          Step(Err(SyntaxError(DuplicateKey, At(v.cursor))), v.cursor)
        else
          var sep := NextClean(v.cursor);
          if sep.result.Err? then Step(Err(sep.result.failure), sep.cursor)
          else if sep.result.value == COMMA then
            var t := NextClean(sep.cursor);
            if t.result.Err? then Step(Err(t.result.failure), t.cursor)
            else if t.result.value == RBRACE then Step(Ok(acc'), t.cursor)
            else Members(Back(t.cursor).cursor, doubleOf, acc')
          else if sep.result.value == RBRACE then Step(Ok(acc'), sep.cursor)
          else Step(Err(SyntaxError(ObjectSeparator, At(sep.cursor))), sep.cursor)
  }

  /** `parseJsonArray()`. */
  function ParseArray(c: Cursor, doubleOf: DoubleParser): (s: Step<seq<Value>>)
    requires Valid(c)
    ensures Valid(s.cursor) && s.cursor.input == c.input
    ensures s.result.Ok? ==> c.index < s.cursor.index
    decreases Remaining(c), 0
  {
    var o := NextClean(c);
    if o.result.Err? then Step(Err(o.result.failure), o.cursor)
    else if o.result.value != LBRACKET then
      var b := Back(o.cursor);
      Step(Err(SyntaxError(InvalidArray, At(b.cursor))), b.cursor)
    else
      var e := NextClean(o.cursor);
      if e.result.Err? then Step(Err(e.result.failure), e.cursor)
      else if e.result.value != RBRACKET then Elements(Back(e.cursor).cursor, doubleOf, [])
      else Step(Ok([]), e.cursor)
  }

  /** The loop of `parseJsonArray`, with the elements read so far in `acc`. */
  function Elements(c: Cursor, doubleOf: DoubleParser, acc: seq<Value>): (s: Step<seq<Value>>)
    requires Valid(c)
    ensures Valid(s.cursor) && s.cursor.input == c.input
    ensures s.result.Ok? ==> c.index < s.cursor.index
    decreases Remaining(c), 2
  {
    var o := NextClean(c);
    if o.result.Err? then Step(Err(o.result.failure), o.cursor)
    else if o.result.value == COMMA then
      Step(Err(SyntaxError(ArrayLeadingComma, At(o.cursor))), o.cursor)
    else
      var v := NextItem(Back(o.cursor).cursor, doubleOf);
      if v.result.Err? then Step(Err(v.result.failure), v.cursor)
      else
        var acc' := acc + [v.result.value];
        var sep := NextClean(v.cursor);
        if sep.result.Err? then Step(Err(sep.result.failure), sep.cursor)
        else if sep.result.value == COMMA then
          var t := NextClean(sep.cursor);
          if t.result.Err? then Step(Err(t.result.failure), t.cursor)
          else if t.result.value == RBRACKET then Step(Ok(acc'), t.cursor)
          else Elements(Back(t.cursor).cursor, doubleOf, acc')
        else if sep.result.value == RBRACKET then Step(Ok(acc'), sep.cursor)
        else Step(Err(SyntaxError(ArraySeparator, At(sep.cursor))), sep.cursor)
  }
}
