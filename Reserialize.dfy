/** The parser reads back whole documents the writer writes: `nextItem`,
    started on what `writeJsonValue(v, 0, 0)` wrote, returns `v` itself,
    arrays and objects included, and stops right after the closing bracket
    or brace. The value must be one the parser can produce: its literals and
    numbers readable (see `Reparse`), and no key written twice in one
    object, since the parser would merge or reject the repeated key. */
module Reserialize {
  import opened Text
  import opened JsonValues
  import opened Cursors
  import opened Grammar
  import opened Rendering
  import opened Layout
  import opened RoundTrip
  import opened Reparse
  import opened Containers

  /** No key occurs twice among the members. */
  predicate UniqueKeys(ms: Entries)
  {
    forall a, b | 0 <= a < b < |ms| :: ms[a].0 != ms[b].0
  }

  /** A value the parser can produce from its compact text. */
  predicate Readable(v: Value, doubleOf: DoubleParser)
    decreases v, 1
  {
    match v
    case Str(_) => true
    case Arr(es) => forall k | 0 <= k < |es| :: ReadableAt(es, k, doubleOf)
    case Obj(ms) => UniqueKeys(ms) && forall k | 0 <= k < |ms| :: ReadableAt(Values(ms), k, doubleOf)
    case _ => ReadableScalar(v, doubleOf)
  }

  /** Element `k` is readable. */
  predicate ReadableAt(es: seq<Value>, k: int, doubleOf: DoubleParser)
    requires 0 <= k < |es|
    decreases es[k], 2
  {
    Readable(es[k], doubleOf)
  }

  /** The values of the members, in order. */
  function Values(ms: Entries): (vs: seq<Value>)
    ensures |vs| == |ms|
    ensures forall k | 0 <= k < |ms| :: vs[k] == ms[k].1
  {
    if ms == [] then [] else [ms[0].1] + Values(ms[1..])
  }

  /** A literal or a number: written as a raw token. */
  predicate Scalar(v: Value)
  {
    v.Null? || v.Bool? || v.Num?
  }

  /** A readable value holds no non-finite double. */
  lemma {:induction false} ReadableFinite(v: Value, doubleOf: DoubleParser)
    requires Readable(v, doubleOf)
    ensures Finite(v)
    decreases v
  {
    match v
    case Arr(es) =>
      forall e | e in es
        ensures Finite(e)
      {
        var k :| 0 <= k < |es| && es[k] == e;
        assert ReadableAt(es, k, doubleOf);
        ReadableFinite(e, doubleOf);
      }
    case Obj(ms) =>
      forall m | m in ms
        ensures Finite(m.1)
      {
        var k :| 0 <= k < |ms| && ms[k] == m;
        assert ReadableAt(Values(ms), k, doubleOf);
        ReadableFinite(m.1, doubleOf);
      }
    case _ =>
  }

  /** `t` starts with a unit that `nextClean` stops on and that neither
      separates nor closes. */
  predicate Opens(t: Text)
  {
    |t| > 0 && t[0] > SPACE && t[0] != COMMA && t[0] != RBRACKET && t[0] != RBRACE
  }

  /** The compact text of a readable value opens. */
  lemma Opening(v: Value, doubleOf: DoubleParser)
    requires Readable(v, doubleOf)
    ensures Opens(Compact(v))
  {
    if Scalar(v) {
      ScalarToken(v, doubleOf);
      assert Compact(v) == RenderValue(v, 0, 0).text;
    }
  }

  /** `input` continues with `a + b` exactly where it continues with `a` and
      then with `b`. */
  lemma OccursSplit(input: Text, i: int, a: Text, b: Text)
    requires Occurs(input, i, a + b)
    ensures Occurs(input, i, a) && Occurs(input, i + |a|, b)
  {
    forall k | i <= k < i + |a|
      ensures input[k] == a[k - i]
    {
      assert (a + b)[k - i] == a[k - i];
    }
    forall k | i + |a| <= k < i + |a| + |b|
      ensures input[k] == b[k - i - |a|]
    {
      assert (a + b)[k - i] == b[k - i - |a|];
    }
  }

  lemma OccursJoin(input: Text, i: int, a: Text, b: Text)
    requires Occurs(input, i, a) && Occurs(input, i + |a|, b)
    ensures Occurs(input, i, a + b)
  {
    forall k | i <= k < i + |a| + |b|
      ensures input[k] == (a + b)[k - i]
    {
      if k < i + |a| {
        assert (a + b)[k - i] == a[k - i];
      } else {
        assert (a + b)[k - i] == b[k - i - |a|];
      }
    }
  }

  /** `input` continues with `x`, then `rest` and then `u`, where `rest` is
      empty or is `,` and then `next`. */
  lemma Separated(input: Text, i: int, x: Text, rest: Text, next: Text, u: CodeUnit)
    requires Occurs(input, i, (x + rest) + [u])
    requires rest == [] || rest == [COMMA] + next
    ensures Occurs(input, i, x) && i + |x| < |input|
    ensures rest == [] ==> input[i + |x|] == u
    ensures rest != [] ==>
      && input[i + |x|] == COMMA
      && Occurs(input, i + |x| + 1, next + [u])
      && (|next| > 0 ==> input[i + |x| + 1] == next[0])
  {
    OccursSplit(input, i, x + rest, [u]);
    OccursSplit(input, i, x, rest);
    if rest != [] {
      OccursSplit(input, i + |x|, [COMMA], next);
      OccursJoin(input, i + |x| + 1, next, [u]);
    }
  }

  /** `input` continues with `k`, then `:`, then `x + rest` and then `u`. */
  lemma MemberParts(input: Text, i: int, k: Text, x: Text, rest: Text, u: CodeUnit)
    requires Occurs(input, i, (k + ([COLON] + (x + rest))) + [u])
    ensures Occurs(input, i, k) && input[i + |k|] == COLON
    ensures Occurs(input, i + |k| + 1, (x + rest) + [u])
  {
    OccursSplit(input, i, k + ([COLON] + (x + rest)), [u]);
    OccursSplit(input, i, k, [COLON] + (x + rest));
    OccursSplit(input, i + |k|, [COLON], x + rest);
    OccursJoin(input, i + |k| + 1, x + rest, [u]);
  }

  /** Element `j` and the rest of the elements after it. */
  function ElementText(es: seq<Value>, j: nat): Text
    requires j < |es|
  {
    Compact(es[j]) + CompactElements(es, j + 1)
  }

  lemma ElementsText(es: seq<Value>, j: nat)
    requires j < |es|
    ensures CompactElements(es, j) == Comma(j > 0) + ElementText(es, j)
  {
    AppendAssociates(Comma(j > 0), Compact(es[j]), CompactElements(es, j + 1));
  }

  /** Member `j`, as `"key":value`, and the rest of the members after it. */
  function MemberText(ms: Entries, j: nat): Text
    requires j < |ms|
  {
    Quote(ms[j].0) + ([COLON] + (Compact(ms[j].1) + CompactMembers(ms, j + 1)))
  }

  lemma MembersText(ms: Entries, j: nat)
    requires j < |ms|
    ensures CompactMembers(ms, j) == Comma(j > 0) + MemberText(ms, j)
  {
    var a, k, x, r := Comma(j > 0), Quote(ms[j].0), Compact(ms[j].1), CompactMembers(ms, j + 1);
    assert CompactMembers(ms, j) == a + k + [COLON] + x + r;
    AppendAssociates(a + k + [COLON], x, r);
    AppendAssociates(a + k, [COLON], x + r);
    AppendAssociates(a, k, [COLON] + (x + r));
  }

  /** Collecting item `j` after `acc` and then the rest collects `s[j..]`. */
  lemma Collected<T>(acc: seq<T>, s: seq<T>, j: nat)
    requires j < |s|
    ensures acc + [s[j]] + s[j + 1..] == acc + s[j..]
    ensures j + 1 == |s| ==> acc + [s[j]] == acc + s[j..]
  {
  }

  /** `put` of a key not yet present appends the member. */
  lemma {:induction false} PutNew(ms: Entries, k: Text, v: Value)
    requires k !in Keys(ms)
    ensures Put(ms, k, v).0 == ms + [(k, v)]
  {
    if ms != [] {
      assert Keys(ms) == [ms[0].0] + Keys(ms[1..]);
      PutNew(ms[1..], k, v);
      assert [ms[0]] + (ms[1..] + [(k, v)]) == ms + [(k, v)];
    }
  }

  /** With unique keys, the members before `j` leave `j`'s key free, and
      binding it appends member `j`. */
  lemma KeyFree(ms: Entries, j: nat)
    requires j < |ms| && UniqueKeys(ms)
    ensures Free(ms[..j], ms[j].0)
    ensures Put(ms[..j], ms[j].0, ms[j].1).0 == ms[..j + 1]
  {
    var key := ms[j].0;
    assert key !in Keys(ms[..j]) by {
      forall a | 0 <= a < j
        ensures Keys(ms[..j])[a] != key
      {
        assert ms[..j][a] == ms[a];
      }
    }
    LookupKeys(ms[..j], key);
    PutNew(ms[..j], key, ms[j].1);
    assert ms[..j] + [(key, ms[j].1)] == ms[..j + 1];
  }

  /** `nextItem` on a cursor whose next unit is `[`: it pushes it back and
      reads an array. */
  lemma ArrayItemUnfold(c: Cursor, doubleOf: DoubleParser) returns (b: Cursor)
    requires Valid(c) && c.index < |c.input| && c.input[c.index] == LBRACKET
    ensures Valid(b) && b.input == c.input && b.index == c.index
    ensures ParseArray(b, doubleOf).result.Ok? ==>
      NextItem(c, doubleOf) == Step(Ok(Arr(ParseArray(b, doubleOf).result.value)), ParseArray(b, doubleOf).cursor)
  {
    NextCleanSkips(c, c.index);
    b := Back(NextClean(c).cursor).cursor;
  }

  /** `nextItem` on a cursor whose next unit is `{`: it pushes it back and
      reads an object. */
  lemma ObjectItemUnfold(c: Cursor, doubleOf: DoubleParser) returns (b: Cursor)
    requires Valid(c) && c.index < |c.input| && c.input[c.index] == LBRACE
    ensures Valid(b) && b.input == c.input && b.index == c.index
    ensures ParseObject(b, doubleOf).result.Ok? ==>
      NextItem(c, doubleOf) == Step(Ok(Obj(ParseObject(b, doubleOf).result.value)), ParseObject(b, doubleOf).cursor)
  {
    NextCleanSkips(c, c.index);
    b := Back(NextClean(c).cursor).cursor;
  }

  /** `nextItem` reads a readable value back from its compact text and
      stops right after it; a literal or a number needs a unit after it
      that ends the token. */
  lemma {:induction false} ReadValue(c: Cursor, v: Value, doubleOf: DoubleParser)
    requires Valid(c) && Readable(v, doubleOf) && Ahead(c, Compact(v))
    requires Scalar(v) ==> Terminated(c, |Compact(v)|)
    ensures NextItem(c, doubleOf).result == Ok(v)
    ensures NextItem(c, doubleOf).cursor.index == c.index + |Compact(v)|
    decreases v, 2
  {
    match v
    case Str(s) => StringItemReads(c, s, doubleOf);
    case Arr(es) => ReadArray(c, es, doubleOf);
    case Obj(ms) => ReadObject(c, ms, doubleOf);
    case _ =>
      assert RenderValue(v, 0, 0).text == Compact(v);
      ScalarItemReads(c, v, doubleOf);
  }

  /** `nextItem` reads an array back from its compact text. */
  lemma {:induction false} ReadArray(c: Cursor, es: seq<Value>, doubleOf: DoubleParser)
    requires Valid(c) && Readable(Arr(es), doubleOf) && Ahead(c, Compact(Arr(es)))
    ensures NextItem(c, doubleOf).result == Ok(Arr(es))
    ensures NextItem(c, doubleOf).cursor.index == c.index + |Compact(Arr(es))|
    decreases Arr(es), 1
  {
    ArrayText(c.input, c.index, es, doubleOf);
    var a := ArrayItemUnfold(c, doubleOf);
    ArrayParsed(a, es, doubleOf);
  }

  /** `parseJsonArray` on the compact text of an array: an empty array is
      read at once, and otherwise the loop reads the elements. */
  lemma ArrayParsed(a: Cursor, es: seq<Value>, doubleOf: DoubleParser)
    requires Valid(a) && Readable(Arr(es), doubleOf) && ArrayLaid(a.input, a.index, es)
    requires es != [] ==> Occurs(a.input, a.index + 1, ElementText(es, 0) + [RBRACKET])
    ensures ParseArray(a, doubleOf).result == Ok(es)
    ensures es == [] ==> ParseArray(a, doubleOf).cursor.index == a.index + 2
    ensures es != [] ==> ParseArray(a, doubleOf).cursor.index == a.index + |ElementText(es, 0)| + 2
    decreases Arr(es), 0, |es| + 1
  {
    var i := a.index;
    if es == [] {
      EmptyArray(a, doubleOf, i, i + 1);
    } else {
      var b := ArrayOpens(a, doubleOf, i, i + 1);
      ReadElements(b, es, 0, [], doubleOf);
      assert [] + es[0..] == es;
    }
  }

  /** The compact text of an array: `[`, then `]` at once or the first
      element, which starts with a unit that neither is blank nor closes. */
  lemma ArrayText(input: Text, i: int, es: seq<Value>, doubleOf: DoubleParser)
    requires Readable(Arr(es), doubleOf) && Occurs(input, i, Compact(Arr(es)))
    ensures ArrayLaid(input, i, es)
    ensures es == [] ==> |Compact(Arr(es))| == 2
    ensures es != [] ==>
      && Occurs(input, i + 1, ElementText(es, 0) + [RBRACKET])
      && |Compact(Arr(es))| == |ElementText(es, 0)| + 2
  {
    if es != [] {
      assert ReadableAt(es, 0, doubleOf);
      Opening(es[0], doubleOf);
    }
    var body := CompactElements(es, 0);
    assert Compact(Arr(es)) == [LBRACKET] + body + [RBRACKET];
    Bracketed(input, i, LBRACKET, body, RBRACKET);
    if es != [] {
      ElementsText(es, 0);
    }
  }

  /** An array lies at `i` in `input`: `[`, then `]` at once when it is
      empty, and otherwise a unit that neither is blank nor closes. */
  predicate ArrayLaid(input: Text, i: int, es: seq<Value>)
  {
    && 0 <= i && i + 1 < |input| && input[i] == LBRACKET
    && (es == [] ==> input[i + 1] == RBRACKET)
    && (es != [] ==> input[i + 1] > SPACE && input[i + 1] != RBRACKET)
  }

  /** `input` continues with `open`, `body` and `close`. */
  lemma Bracketed(input: Text, i: int, open: CodeUnit, body: Text, close: CodeUnit)
    requires Occurs(input, i, [open] + body + [close])
    ensures i + 1 + |body| < |input| && input[i] == open
    ensures Occurs(input, i + 1, body + [close])
    ensures body == [] ==> input[i + 1] == close
    ensures body != [] ==> input[i + 1] == body[0]
  {
    OccursSplit(input, i, [open] + body, [close]);
    OccursSplit(input, i, [open], body);
    assert input[i] == ([open] + body + [close])[0];
    OccursJoin(input, i + 1, body, [close]);
    assert input[i + 1] == (body + [close])[0];
  }

  /** The loop of `parseJsonArray`, started on element `j` of the compact
      text, collects the elements from `j` on and stops right after `]`. */
  lemma {:induction false} ReadElements(c: Cursor, es: seq<Value>, j: nat, acc: seq<Value>, doubleOf: DoubleParser)
    requires Valid(c) && j < |es| && Readable(Arr(es), doubleOf)
    requires Ahead(c, ElementText(es, j) + [RBRACKET])
    ensures Elements(c, doubleOf, acc).result == Ok(acc + es[j..])
    ensures Elements(c, doubleOf, acc).cursor.index == c.index + |ElementText(es, j)| + 1
    decreases Arr(es), 0, |es| - j, 2
  {
    assert ReadableAt(es, j, doubleOf);
    if j + 1 < |es| {
      assert ReadableAt(es, j + 1, doubleOf);
    }
    var m := ElementAt(c.input, c.index, es, j, doubleOf);
    Collected(acc, es, j);
    if j + 1 == |es| {
      LastElement(c, es, j, m, acc, doubleOf);
    } else {
      var b := NextElement(c, es, j, m, acc, doubleOf);
      ReadElements(b, es, j + 1, acc + [es[j]], doubleOf);
    }
  }

  /** A pass of the loop of `parseJsonArray` on the last element: it reads
      the element, then `]`, and returns. */
  lemma LastElement(c: Cursor, es: seq<Value>, j: nat, m: int, acc: seq<Value>, doubleOf: DoubleParser)
    requires Valid(c) && j + 1 == |es| && ReadableAt(es, j, doubleOf) && ElementLaid(c.input, c.index, es, j, m)
    ensures Elements(c, doubleOf, acc).result == Ok(acc + [es[j]])
    ensures Elements(c, doubleOf, acc).cursor.index == m + 1
    decreases Arr(es), 0, |es| - j, 1
  {
    ElementRead(c, es, j, m, doubleOf);
    ElementThenClose(c, doubleOf, acc, c.index, m);
  }

  /** A pass of the loop of `parseJsonArray` on an element that is not the
      last: it reads the element and `,`, and the loop goes on at the next
      element with the element collected. */
  lemma NextElement(c: Cursor, es: seq<Value>, j: nat, m: int, acc: seq<Value>, doubleOf: DoubleParser) returns (b: Cursor)
    requires Valid(c) && j + 1 < |es| && ReadableAt(es, j, doubleOf) && ElementLaid(c.input, c.index, es, j, m)
    ensures Valid(b) && b.input == c.input && b.index == m + 1
    ensures Elements(c, doubleOf, acc) == Elements(b, doubleOf, acc + [es[j]])
    decreases Arr(es), 0, |es| - j, 1
  {
    ElementRead(c, es, j, m, doubleOf);
    b := ElementThenMore(c, doubleOf, acc, c.index, m, m + 1);
  }

  /** Element `j` in the compact text of an array: it starts with a unit
      that is neither blank nor `,`, and after it comes `]` for the last
      element and `,` and the next element otherwise. */
  lemma ElementAt(input: Text, i: int, es: seq<Value>, j: nat, doubleOf: DoubleParser) returns (m: int)
    requires j < |es| && ReadableAt(es, j, doubleOf) && (j + 1 < |es| ==> ReadableAt(es, j + 1, doubleOf))
    requires Occurs(input, i, ElementText(es, j) + [RBRACKET])
    ensures ElementLaid(input, i, es, j, m)
    ensures j + 1 == |es| ==> m == i + |ElementText(es, j)|
    ensures j + 1 < |es| ==>
      && Occurs(input, m + 1, ElementText(es, j + 1) + [RBRACKET])
      && m + 1 + |ElementText(es, j + 1)| == i + |ElementText(es, j)|
  {
    Opening(es[j], doubleOf);
    if j + 1 < |es| {
      Opening(es[j + 1], doubleOf);
    }
    var x, rest := Compact(es[j]), CompactElements(es, j + 1);
    var next := if j + 1 < |es| then ElementText(es, j + 1) else [];
    if j + 1 < |es| {
      ElementsText(es, j + 1);
    }
    Separated(input, i, x, rest, next, RBRACKET);
    m := i + |x|;
    assert input[i] == x[0];
  }

  /** Element `j` of the compact text, read by the loop of
      `parseJsonArray`: the item is the element, and after it comes `]` for
      the last element and `,` and the next element otherwise. */
  lemma {:induction false} ElementRead(c: Cursor, es: seq<Value>, j: nat, m: int, doubleOf: DoubleParser)
    requires Valid(c) && j < |es| && ReadableAt(es, j, doubleOf) && ElementLaid(c.input, c.index, es, j, m)
    ensures NonBlankAt(c.input, c.index, c.index) && c.input[c.index] != COMMA
    ensures NextItem(PushedBack(c), doubleOf).result == Ok(es[j])
    ensures NextItem(PushedBack(c), doubleOf).cursor.index == m
    ensures NonBlankAt(c.input, m, m)
    ensures j + 1 < |es| ==> NonBlankAt(c.input, m + 1, m + 1)
    decreases Arr(es), 0, |es| - j, 0
  {
    Skip(c, c.index);
    ReadValue(PushedBack(c), es[j], doubleOf);
  }

  /** Element `j` lies at `i` in `input` and ends at `m`: it starts with a
      unit that is neither blank nor `,`, and after it comes `]` for the
      last element and `,` and a unit that neither is blank nor closes
      otherwise. */
  predicate ElementLaid(input: Text, i: int, es: seq<Value>, j: nat, m: int)
  {
    && j < |es| && Occurs(input, i, Compact(es[j])) && m == i + |Compact(es[j])| && m < |input|
    && input[i] > SPACE && input[i] != COMMA
    && (j + 1 == |es| ==> input[m] == RBRACKET)
    && (j + 1 < |es| ==> m + 1 < |input| && input[m] == COMMA && input[m + 1] > SPACE && input[m + 1] != RBRACKET)
  }

  /** `nextItem` reads an object back from its compact text. */
  lemma {:induction false} ReadObject(c: Cursor, ms: Entries, doubleOf: DoubleParser)
    requires Valid(c) && Readable(Obj(ms), doubleOf)
    requires Ahead(c, Compact(Obj(ms)))
    ensures NextItem(c, doubleOf).result == Ok(Obj(ms))
    ensures NextItem(c, doubleOf).cursor.index == c.index + |Compact(Obj(ms))|
    decreases Obj(ms), 1
  {
    var b := ObjectEntry(c, ms, doubleOf);
    if ms != [] {
      assert ms[..0] == [];
      ReadMembers(b, ms, 0, [], doubleOf);
    }
  }

  /** The opening `{` of an object: an empty object is read at once, and
      otherwise the loop starts on the first member. */
  lemma ObjectEntry(c: Cursor, ms: Entries, doubleOf: DoubleParser) returns (b: Cursor)
    requires Valid(c) && Ahead(c, Compact(Obj(ms)))
    ensures ms == [] ==> NextItem(c, doubleOf).result == Ok(Obj([]))
    ensures ms == [] ==> NextItem(c, doubleOf).cursor.index == c.index + |Compact(Obj(ms))|
    ensures ms != [] ==>
      && Valid(b) && b.input == c.input && b.index == c.index + 1
      && Ahead(b, MemberText(ms, 0) + [RBRACE])
      && |Compact(Obj(ms))| == |MemberText(ms, 0)| + 2
      && (Members(b, doubleOf, []).result.Ok? ==>
           NextItem(c, doubleOf) == Step(Ok(Obj(Members(b, doubleOf, []).result.value)), Members(b, doubleOf, []).cursor))
  {
    var i := c.index;
    ObjectText(c.input, i, ms);
    var a := ObjectItemUnfold(c, doubleOf);
    b := ObjectOpens(a, doubleOf, i);
    if ms == [] {
      MembersClose(b, doubleOf, [], i + 1);
    }
  }

  /** The compact text of an object: `{`, then `}` at once or the first
      member, which starts with `"`. */
  lemma ObjectText(input: Text, i: int, ms: Entries)
    requires Occurs(input, i, Compact(Obj(ms)))
    ensures i + 1 < |input| && input[i] == LBRACE
    ensures ms == [] ==> input[i + 1] == RBRACE && |Compact(Obj(ms))| == 2
    ensures ms != [] ==>
      && input[i + 1] == QUOTE
      && Occurs(input, i + 1, MemberText(ms, 0) + [RBRACE])
      && |Compact(Obj(ms))| == |MemberText(ms, 0)| + 2
  {
    var body := CompactMembers(ms, 0);
    assert Compact(Obj(ms)) == [LBRACE] + body + [RBRACE];
    Bracketed(input, i, LBRACE, body, RBRACE);
    if ms != [] {
      MembersText(ms, 0);
      assert body[0] == QUOTE;
    }
  }

  /** The loop of `parseJsonObject`, started on member `j` of the compact
      text with the members before it collected, collects them all and
      stops right after `}`. */
  lemma {:induction false} ReadMembers(c: Cursor, ms: Entries, j: nat, acc: Entries, doubleOf: DoubleParser)
    requires Valid(c) && j < |ms| && Readable(Obj(ms), doubleOf)
    requires acc == ms[..j]
    requires Ahead(c, MemberText(ms, j) + [RBRACE])
    ensures Members(c, doubleOf, acc).result == Ok(ms)
    ensures Members(c, doubleOf, acc).cursor.index == c.index + |MemberText(ms, j)| + 1
    decreases Obj(ms), 0, |ms| - j, 3
  {
    assert ReadableAt(Values(ms), j, doubleOf);
    if j + 1 == |ms| {
      LastMember(c, ms, j, acc, doubleOf);
    } else {
      var b := NextMember(c, ms, j, acc, doubleOf);
      ReadMembers(b, ms, j + 1, ms[..j + 1], doubleOf);
    }
  }

  /** The last member of the compact text is read and closes the object. */
  lemma LastMember(c: Cursor, ms: Entries, j: nat, acc: Entries, doubleOf: DoubleParser)
    requires Valid(c) && j + 1 == |ms| && UniqueKeys(ms) && ReadableAt(Values(ms), j, doubleOf)
    requires acc == ms[..j] && Ahead(c, MemberText(ms, j) + [RBRACE])
    ensures Members(c, doubleOf, acc).result == Ok(ms)
    ensures Members(c, doubleOf, acc).cursor.index == c.index + |MemberText(ms, j)| + 1
    decreases Obj(ms), 0, |ms| - j, 2
  {
    var n, m := MemberAt(c.input, c.index, ms, j);
    ReadLast(c, ms, j, acc, n, m, doubleOf);
  }

  /** A member of the compact text that is not the last is read, and the
      loop goes on with the next one. */
  lemma NextMember(c: Cursor, ms: Entries, j: nat, acc: Entries, doubleOf: DoubleParser) returns (b: Cursor)
    requires Valid(c) && j + 1 < |ms| && UniqueKeys(ms) && ReadableAt(Values(ms), j, doubleOf)
    requires acc == ms[..j] && Ahead(c, MemberText(ms, j) + [RBRACE])
    ensures Valid(b) && b.input == c.input && Ahead(b, MemberText(ms, j + 1) + [RBRACE])
    ensures b.index + |MemberText(ms, j + 1)| == c.index + |MemberText(ms, j)|
    ensures Members(c, doubleOf, acc) == Members(b, doubleOf, ms[..j + 1])
    decreases Obj(ms), 0, |ms| - j, 2
  {
    var n, m := MemberAt(c.input, c.index, ms, j);
    b := ReadMore(c, ms, j, acc, n, m, doubleOf);
  }

  /** The last member read from its parts: the quoted key, `:` at `n`, the
      value, and `}` at `m`. */
  lemma ReadLast(c: Cursor, ms: Entries, j: nat, acc: Entries, n: int, m: int, doubleOf: DoubleParser)
    requires Valid(c) && j + 1 == |ms| && UniqueKeys(ms) && ReadableAt(Values(ms), j, doubleOf) && acc == ms[..j]
    requires MemberLaid(c.input, c.index, ms, j, n, m)
    ensures Members(c, doubleOf, acc).result == Ok(ms)
    ensures Members(c, doubleOf, acc).cursor.index == m + 1
    decreases Obj(ms), 0, |ms| - j, 1
  {
    var q := KeyRead(c, ms[j].0, acc, doubleOf);
    ValueRead(q, ms, j, n, m, doubleOf);
    MemberLast(q, ms, j, n, m, doubleOf);
  }

  /** A member that is not the last read from its parts: the quoted key,
      `:` at `n`, the value, `,` at `m` and the next key after it. */
  lemma ReadMore(c: Cursor, ms: Entries, j: nat, acc: Entries, n: int, m: int, doubleOf: DoubleParser) returns (b: Cursor)
    requires Valid(c) && j + 1 < |ms| && UniqueKeys(ms) && ReadableAt(Values(ms), j, doubleOf) && acc == ms[..j]
    requires MemberLaid(c.input, c.index, ms, j, n, m)
    ensures Valid(b) && b.input == c.input && b.index == m + 1
    ensures Members(c, doubleOf, acc) == Members(b, doubleOf, ms[..j + 1])
    decreases Obj(ms), 0, |ms| - j, 1
  {
    var q := KeyRead(c, ms[j].0, acc, doubleOf);
    ValueRead(q, ms, j, n, m, doubleOf);
    b := MemberNext(q, ms, j, n, m, doubleOf);
  }

  /** The last member, with unique keys, is added to the members before it
      and closes the object. */
  lemma MemberLast(q: Cursor, ms: Entries, j: nat, n: int, m: int, doubleOf: DoubleParser)
    requires Valid(q) && j + 1 == |ms| && UniqueKeys(ms)
    requires q.index == n && n < |q.input| && q.input[n] == COLON
    requires ValueAt(q, ms[j].1, m, doubleOf) && m < |q.input| && q.input[m] == RBRACE
    ensures Member(q, doubleOf, ms[..j], ms[j].0).result == Ok(ms)
    ensures Member(q, doubleOf, ms[..j], ms[j].0).cursor.index == m + 1
  {
    KeyFree(ms, j);
    MemberThenClose(q, doubleOf, ms[..j], ms[j].0, n, m);
    assert ms[..j + 1] == ms;
  }

  /** A member that is not the last, with unique keys, is added to the
      members before it and the loop goes on with the next member. */
  lemma MemberNext(q: Cursor, ms: Entries, j: nat, n: int, m: int, doubleOf: DoubleParser) returns (b: Cursor)
    requires Valid(q) && j < |ms| && UniqueKeys(ms)
    requires q.index == n && n < |q.input| && q.input[n] == COLON
    requires ValueAt(q, ms[j].1, m, doubleOf) && m + 1 < |q.input|
    requires q.input[m] == COMMA && q.input[m + 1] == QUOTE
    ensures Valid(b) && b.input == q.input && b.index == m + 1
    ensures Member(q, doubleOf, ms[..j], ms[j].0) == Members(b, doubleOf, ms[..j + 1])
  {
    KeyFree(ms, j);
    b := MemberThenMore(q, doubleOf, ms[..j], ms[j].0, n, m, m + 1);
  }

  /** Member `j` in the compact text of an object: its quoted key, `:`, its
      value, and after it `}` for the last member and `,` and the next
      member otherwise. */
  lemma MemberAt(input: Text, i: int, ms: Entries, j: nat) returns (n: int, m: int)
    requires j < |ms| && Occurs(input, i, MemberText(ms, j) + [RBRACE])
    ensures MemberLaid(input, i, ms, j, n, m)
    ensures j + 1 == |ms| ==> m == i + |MemberText(ms, j)|
    ensures j + 1 < |ms| ==>
      && Occurs(input, m + 1, MemberText(ms, j + 1) + [RBRACE])
      && m + 1 + |MemberText(ms, j + 1)| == i + |MemberText(ms, j)|
  {
    var kq, x, rest := Quote(ms[j].0), Compact(ms[j].1), CompactMembers(ms, j + 1);
    if j + 1 < |ms| {
      var next := MemberText(ms, j + 1);
      MembersText(ms, j + 1);
      assert next[0] == QUOTE;
      n, m := MemberLayout(input, i, kq, x, rest, next);
    } else {
      n, m := MemberLayout(input, i, kq, x, rest, []);
    }
  }

  /** Member `j` lies at `i` in `input`: its quoted key, `:` at `n`, its
      value ending at `m`, then `}` for the last member and `,` and the
      opening quote of the next key otherwise. */
  predicate MemberLaid(input: Text, i: int, ms: Entries, j: nat, n: int, m: int)
  {
    && j < |ms| && n == i + |Quote(ms[j].0)| && m == n + 1 + |Compact(ms[j].1)| && m < |input|
    && Occurs(input, i, Quote(ms[j].0)) && input[n] == COLON && Occurs(input, n + 1, Compact(ms[j].1))
    && (j + 1 == |ms| ==> input[m] == RBRACE)
    && (j + 1 < |ms| ==> m + 1 < |input| && input[m] == COMMA && input[m + 1] == QUOTE)
  }

  /** `input` continues with `k`, `:`, `x`, `rest` and `}`, where `rest` is
      empty or is `,` and then `next`, which starts with `"`. */
  lemma MemberLayout(input: Text, i: int, k: Text, x: Text, rest: Text, next: Text) returns (n: int, m: int)
    requires Occurs(input, i, (k + ([COLON] + (x + rest))) + [RBRACE])
    requires rest == [] || (rest == [COMMA] + next && |next| > 0 && next[0] == QUOTE)
    ensures n == i + |k| && m == n + 1 + |x|
    ensures Occurs(input, i, k) && input[n] == COLON && Occurs(input, n + 1, x) && m < |input|
    ensures rest == [] ==> input[m] == RBRACE && m == i + |k + ([COLON] + (x + rest))|
    ensures rest != [] ==>
      && input[m] == COMMA && input[m + 1] == QUOTE
      && Occurs(input, m + 1, next + [RBRACE])
      && m + 1 + |next| == i + |k + ([COLON] + (x + rest))|
  {
    MemberParts(input, i, k, x, rest, RBRACE);
    n := i + |k|;
    m := n + 1 + |x|;
    Separated(input, n + 1, x, rest, next, RBRACE);
  }

  /** After the key, `nextClean()` then `nextItem()` read `v`, which ends at
      `m`. */
  predicate ValueAt(q: Cursor, v: Value, m: int, doubleOf: DoubleParser)
    requires Valid(q)
  {
    var w := NextItem(NextClean(q).cursor, doubleOf);
    w.result == Ok(v) && w.cursor.index == m
  }

  /** The value of a member of the compact text, read by the loop of
      `parseJsonObject` once the key is read: `:` at `n`, then an item that
      is the value, ending at `m` before a `,` or `}`. */
  lemma {:induction false} ValueRead(q: Cursor, ms: Entries, j: nat, n: int, m: int, doubleOf: DoubleParser)
    requires Valid(q) && j < |ms| && ReadableAt(Values(ms), j, doubleOf)
    requires q.index == n && n < |q.input| && q.input[n] == COLON
    requires Occurs(q.input, n + 1, Compact(ms[j].1)) && m == n + 1 + |Compact(ms[j].1)| && m < |q.input|
    requires q.input[m] == COMMA || q.input[m] == RBRACE
    ensures ValueAt(q, ms[j].1, m, doubleOf)
    decreases Obj(ms), 0, |ms| - j, 0
  {
    Skip(q, n);
    ReadValue(NextClean(q).cursor, ms[j].1, doubleOf);
  }

  /** The key of a member: `nextItem` reads the quoted key back, and the
      loop goes on with the rest of the member. */
  lemma KeyRead(c: Cursor, key: Text, acc: Entries, doubleOf: DoubleParser) returns (q: Cursor)
    requires Valid(c) && Ahead(c, Quote(key))
    ensures Valid(q) && q.input == c.input && q.index == c.index + |Quote(key)|
    ensures Members(c, doubleOf, acc) == Member(q, doubleOf, acc, key)
  {
    var i := c.index;
    assert c.input[i] == Quote(key)[0];
    Skip(c, i);
    var p := PushedBack(c);
    StringItemReads(p, key, doubleOf);
    MembersKey(c, doubleOf, acc, i);
    q := NextItem(p, doubleOf).cursor;
  }

  /** What `writeJsonValue(v, 0, 0)` writes for a readable value, at the
      end of the input or before anything that ends a raw token, a new
      parser's `nextItem` reads back as `v`: strings, arrays and objects
      stopping right after their text, a literal or a number pushing back
      the unit after it, or its own last unit at the end of the input. */
  lemma CompactThenRead(v: Value, tail: Text, doubleOf: DoubleParser)
    requires Readable(v, doubleOf)
    requires Scalar(v) && tail != [] ==> !InToken(tail[0] as int)
    ensures RenderValue(v, 0, 0) == Done(Compact(v))
    ensures var t := Compact(v);
      && NextItem(Start(t + tail), doubleOf).result == Ok(v)
      && NextItem(Start(t + tail), doubleOf).cursor.index == if Scalar(v) && tail == [] then |t| - 1 else |t|
  {
    ReadableFinite(v, doubleOf);
    CompactRendering(v, 0);
    if Scalar(v) || v.Str? {
      WriteThenRead(v, 0, 0, tail, doubleOf);
    } else {
      var c := Start(Compact(v) + tail);
      assert Occurs(c.input, 0, c.input);
      OccursSplit(c.input, 0, Compact(v), tail);
      ReadValue(c, v, doubleOf);
    }
  }
}
