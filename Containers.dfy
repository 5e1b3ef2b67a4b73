/** What `parseJsonObject` and `parseJsonArray` accept, one pass of their
    loops at a time, in terms of the input text: the first non-blank unit
    must open the container; `{}` and `[]` are empty; members and elements
    are collected in input order; a `,` before the closer is allowed, a `,`
    where an element is expected is not; a key may be bound again only
    while its earlier value is `null`; and the cursor stops right after the
    closer, consuming nothing beyond it. */
module Containers {
  import opened Wrappers
  import opened Text
  import opened JsonValues
  import opened Cursors
  import opened Grammar

  /** The first unit above the space in `input[from..]` is at `j`. */
  predicate NonBlankAt(input: Text, from: int, j: int)
  {
    0 <= from <= j < |input| && input[j] > SPACE
    && forall k :: from <= k < j ==> input[k] <= SPACE
  }

  /** The cursor a loop pass hands to `nextItem`: the first non-blank unit
      read by `nextClean()` and pushed back by `back()`. */
  function PushedBack(c: Cursor): (b: Cursor)
    requires Valid(c)
    ensures Valid(b) && b.input == c.input
  {
    Back(NextClean(c).cursor).cursor
  }

  /** `nextClean()` finds the unit at `j` and stops after it; pushing it
      back leaves the cursor on it. */
  lemma Skip(c: Cursor, j: int)
    requires Valid(c) && NonBlankAt(c.input, c.index, j)
    ensures NextClean(c).result == Ok(c.input[j]) && NextClean(c).cursor.index == j + 1
    ensures PushedBack(c).index == j
  {
    NextCleanSkips(c, j);
  }

  /** `parseJsonArray` fails, pushing the unit back, when the first
      non-blank unit is not `[`. */
  lemma ArrayRejects(c: Cursor, doubleOf: DoubleParser, i: int)
    requires Valid(c) && NonBlankAt(c.input, c.index, i) && c.input[i] != LBRACKET
    ensures ParseArray(c, doubleOf).result.Err?
    ensures ParseArray(c, doubleOf).result.failure.SyntaxError?
    ensures ParseArray(c, doubleOf).result.failure.kind == InvalidArray
    ensures ParseArray(c, doubleOf).cursor.index == i
  {
    Skip(c, i);
  }

  /** `[` and then `]` is the empty array; the cursor stops after `]`. */
  lemma EmptyArray(c: Cursor, doubleOf: DoubleParser, i: int, j: int)
    requires Valid(c) && NonBlankAt(c.input, c.index, i) && c.input[i] == LBRACKET
    requires NonBlankAt(c.input, i + 1, j) && c.input[j] == RBRACKET
    ensures ParseArray(c, doubleOf).result == Ok([])
    ensures ParseArray(c, doubleOf).cursor.index == j + 1
  {
    Skip(c, i);
    Skip(NextClean(c).cursor, j);
  }

  /** `[` and then any other non-blank unit starts the loop on that unit
      with no elements yet. */
  lemma ArrayOpens(c: Cursor, doubleOf: DoubleParser, i: int, j: int) returns (b: Cursor)
    requires Valid(c) && NonBlankAt(c.input, c.index, i) && c.input[i] == LBRACKET
    requires NonBlankAt(c.input, i + 1, j) && c.input[j] != RBRACKET
    ensures Valid(b) && b.input == c.input && b.index == j
    ensures ParseArray(c, doubleOf) == Elements(b, doubleOf, [])
  {
    Skip(c, i);
    Skip(NextClean(c).cursor, j);
    b := PushedBack(NextClean(c).cursor);
  }

  /** A `,` where an element is expected is an error: right after `[`, or
      after another `,`. */
  lemma ElementsLeadingComma(c: Cursor, doubleOf: DoubleParser, acc: seq<Value>, i: int)
    requires Valid(c) && NonBlankAt(c.input, c.index, i) && c.input[i] == COMMA
    ensures Elements(c, doubleOf, acc).result.Err?
    ensures Elements(c, doubleOf, acc).result.failure.SyntaxError?
    ensures Elements(c, doubleOf, acc).result.failure.kind == ArrayLeadingComma
    ensures Elements(c, doubleOf, acc).cursor.index == i + 1
  {
    Skip(c, i);
  }

  /** An element read at `i` and followed by `]` ends the array with the
      element appended after those before it. */
  lemma ElementThenClose(c: Cursor, doubleOf: DoubleParser, acc: seq<Value>, i: int, j: int)
    requires Valid(c) && NonBlankAt(c.input, c.index, i) && c.input[i] != COMMA
    requires NextItem(PushedBack(c), doubleOf).result.Ok?
    requires NonBlankAt(c.input, NextItem(PushedBack(c), doubleOf).cursor.index, j) && c.input[j] == RBRACKET
    ensures Elements(c, doubleOf, acc).result == Ok(acc + [NextItem(PushedBack(c), doubleOf).result.value])
    ensures Elements(c, doubleOf, acc).cursor.index == j + 1
  {
    Skip(c, i);
    Skip(NextItem(PushedBack(c), doubleOf).cursor, j);
  }

  /** An element followed by `,` and then `]` also ends the array: the
      trailing comma is accepted. */
  lemma ElementThenTrailingComma(c: Cursor, doubleOf: DoubleParser, acc: seq<Value>, i: int, j: int, k: int)
    requires Valid(c) && NonBlankAt(c.input, c.index, i) && c.input[i] != COMMA
    requires NextItem(PushedBack(c), doubleOf).result.Ok?
    requires NonBlankAt(c.input, NextItem(PushedBack(c), doubleOf).cursor.index, j) && c.input[j] == COMMA
    requires NonBlankAt(c.input, j + 1, k) && c.input[k] == RBRACKET
    ensures Elements(c, doubleOf, acc).result == Ok(acc + [NextItem(PushedBack(c), doubleOf).result.value])
    ensures Elements(c, doubleOf, acc).cursor.index == k + 1
  {
    Skip(c, i);
    var w := NextItem(PushedBack(c), doubleOf).cursor;
    Skip(w, j);
    Skip(NextClean(w).cursor, k);
  }

  /** An element followed by `,` and another non-blank unit goes round the
      loop again from that unit, with the element appended. */
  lemma ElementThenMore(c: Cursor, doubleOf: DoubleParser, acc: seq<Value>, i: int, j: int, k: int) returns (b: Cursor)
    requires Valid(c) && NonBlankAt(c.input, c.index, i) && c.input[i] != COMMA
    requires NextItem(PushedBack(c), doubleOf).result.Ok?
    requires NonBlankAt(c.input, NextItem(PushedBack(c), doubleOf).cursor.index, j) && c.input[j] == COMMA
    requires NonBlankAt(c.input, j + 1, k) && c.input[k] != RBRACKET
    ensures Valid(b) && b.input == c.input && b.index == k
    ensures Elements(c, doubleOf, acc) == Elements(b, doubleOf, acc + [NextItem(PushedBack(c), doubleOf).result.value])
  {
    Skip(c, i);
    var w := NextItem(PushedBack(c), doubleOf).cursor;
    Skip(w, j);
    Skip(NextClean(w).cursor, k);
    b := PushedBack(NextClean(w).cursor);
  }

  /** An element followed by anything but `,` or `]` is an error. */
  lemma ElementThenOther(c: Cursor, doubleOf: DoubleParser, acc: seq<Value>, i: int, j: int)
    requires Valid(c) && NonBlankAt(c.input, c.index, i) && c.input[i] != COMMA
    requires NextItem(PushedBack(c), doubleOf).result.Ok?
    requires NonBlankAt(c.input, NextItem(PushedBack(c), doubleOf).cursor.index, j)
    requires c.input[j] != COMMA && c.input[j] != RBRACKET
    ensures Elements(c, doubleOf, acc).result.Err?
    ensures Elements(c, doubleOf, acc).result.failure.SyntaxError?
    ensures Elements(c, doubleOf, acc).result.failure.kind == ArraySeparator
    ensures Elements(c, doubleOf, acc).cursor.index == j + 1
  {
    Skip(c, i);
    Skip(NextItem(PushedBack(c), doubleOf).cursor, j);
  }

  /** `parseJsonObject` fails, pushing the unit back, when the first
      non-blank unit is not `{`. */
  lemma ObjectRejects(c: Cursor, doubleOf: DoubleParser, i: int)
    requires Valid(c) && NonBlankAt(c.input, c.index, i) && c.input[i] != LBRACE
    ensures ParseObject(c, doubleOf).result.Err?
    ensures ParseObject(c, doubleOf).result.failure.SyntaxError?
    ensures ParseObject(c, doubleOf).result.failure.kind == InvalidObject
    ensures ParseObject(c, doubleOf).cursor.index == i
  {
    Skip(c, i);
  }

  /** `{` starts the loop right after it with no members yet. */
  lemma ObjectOpens(c: Cursor, doubleOf: DoubleParser, i: int) returns (b: Cursor)
    requires Valid(c) && NonBlankAt(c.input, c.index, i) && c.input[i] == LBRACE
    ensures Valid(b) && b.input == c.input && b.index == i + 1
    ensures ParseObject(c, doubleOf) == Members(b, doubleOf, [])
  {
    Skip(c, i);
    b := NextClean(c).cursor;
  }

  /** A `}` where a key is expected ends the object with the members read
      so far: right after `{` this is the empty object, after a `,` it is a
      trailing comma. */
  lemma MembersClose(c: Cursor, doubleOf: DoubleParser, acc: Entries, i: int)
    requires Valid(c) && NonBlankAt(c.input, c.index, i) && c.input[i] == RBRACE
    ensures Members(c, doubleOf, acc).result == Ok(acc)
    ensures Members(c, doubleOf, acc).cursor.index == i + 1
  {
    Skip(c, i);
  }

  /** `{` and then `}` is the empty object; the cursor stops after `}`. */
  lemma EmptyObject(c: Cursor, doubleOf: DoubleParser, i: int, j: int)
    requires Valid(c) && NonBlankAt(c.input, c.index, i) && c.input[i] == LBRACE
    requires NonBlankAt(c.input, i + 1, j) && c.input[j] == RBRACE
    ensures ParseObject(c, doubleOf).result == Ok([])
    ensures ParseObject(c, doubleOf).cursor.index == j + 1
  {
    var b := ObjectOpens(c, doubleOf, i);
    MembersClose(b, doubleOf, [], j);
  }

  /** Any other unit where a key is expected starts a member: the key is
      the text of the item read there, and a `null` key is an error. */
  lemma MembersKey(c: Cursor, doubleOf: DoubleParser, acc: Entries, i: int)
    requires Valid(c) && NonBlankAt(c.input, c.index, i) && c.input[i] != RBRACE
    requires NextItem(PushedBack(c), doubleOf).result.Ok?
    ensures var k := NextItem(PushedBack(c), doubleOf);
      match KeyText(k.result.value)
      case None => Members(c, doubleOf, acc) == Step(Err(NullPointer), k.cursor)
      case Some(key) => Members(c, doubleOf, acc) == Member(k.cursor, doubleOf, acc, key)
  {
    Skip(c, i);
  }

  /** A key not followed by `:` is an error. */
  lemma MemberMissingColon(c: Cursor, doubleOf: DoubleParser, acc: Entries, key: Text, i: int)
    requires Valid(c) && NonBlankAt(c.input, c.index, i) && c.input[i] != COLON
    ensures Member(c, doubleOf, acc, key).result.Err?
    ensures Member(c, doubleOf, acc, key).result.failure.SyntaxError?
    ensures Member(c, doubleOf, acc, key).result.failure.kind == MissingColon
    ensures Member(c, doubleOf, acc, key).cursor.index == i + 1
  {
    Skip(c, i);
  }

  /** `key` is free to be bound: unbound so far, or bound to `null`. */
  predicate Free(acc: Entries, key: Text)
  {
    Lookup(acc, key).None? || Lookup(acc, key) == Some(Null)
  }

  /** Binding a free key finds nothing but `null` bound to it before. */
  lemma FreePut(acc: Entries, key: Text, v: Value)
    requires Free(acc, key)
    ensures Put(acc, key, v).1.None? || Put(acc, key, v).1.value.Null?
  {
  }

  /** A key already bound to a value other than `null` is an error once the
      new value has been read. */
  lemma MemberDuplicate(c: Cursor, doubleOf: DoubleParser, acc: Entries, key: Text, i: int)
    requires Valid(c) && NonBlankAt(c.input, c.index, i) && c.input[i] == COLON
    requires NextItem(NextClean(c).cursor, doubleOf).result.Ok?
    requires !Free(acc, key)
    ensures Member(c, doubleOf, acc, key).result.Err?
    ensures Member(c, doubleOf, acc, key).result.failure.SyntaxError?
    ensures Member(c, doubleOf, acc, key).result.failure.kind == DuplicateKey
    ensures Member(c, doubleOf, acc, key).cursor == NextItem(NextClean(c).cursor, doubleOf).cursor
  {
    Skip(c, i);
  }

  /** A free key, its value and `}` end the object with the key bound to
      the value: appended when new, in its old place when it was `null`. */
  lemma MemberThenClose(c: Cursor, doubleOf: DoubleParser, acc: Entries, key: Text, i: int, j: int)
    requires Valid(c) && NonBlankAt(c.input, c.index, i) && c.input[i] == COLON
    requires NextItem(NextClean(c).cursor, doubleOf).result.Ok? && Free(acc, key)
    requires NonBlankAt(c.input, NextItem(NextClean(c).cursor, doubleOf).cursor.index, j) && c.input[j] == RBRACE
    ensures Member(c, doubleOf, acc, key).result ==
      Ok(Put(acc, key, NextItem(NextClean(c).cursor, doubleOf).result.value).0)
    ensures Member(c, doubleOf, acc, key).cursor.index == j + 1
  {
    Skip(c, i);
    var v := NextItem(NextClean(c).cursor, doubleOf);
    FreePut(acc, key, v.result.value);
    Skip(v.cursor, j);
  }

  /** A free key, its value, `,` and `}` end the object too: the trailing
      comma is accepted. */
  lemma MemberThenTrailingComma(c: Cursor, doubleOf: DoubleParser, acc: Entries, key: Text, i: int, j: int, k: int)
    requires Valid(c) && NonBlankAt(c.input, c.index, i) && c.input[i] == COLON
    requires NextItem(NextClean(c).cursor, doubleOf).result.Ok? && Free(acc, key)
    requires NonBlankAt(c.input, NextItem(NextClean(c).cursor, doubleOf).cursor.index, j) && c.input[j] == COMMA
    requires NonBlankAt(c.input, j + 1, k) && c.input[k] == RBRACE
    ensures Member(c, doubleOf, acc, key).result ==
      Ok(Put(acc, key, NextItem(NextClean(c).cursor, doubleOf).result.value).0)
    ensures Member(c, doubleOf, acc, key).cursor.index == k + 1
  {
    Skip(c, i);
    var w := NextItem(NextClean(c).cursor, doubleOf).cursor;
    Skip(w, j);
    Skip(NextClean(w).cursor, k);
  }

  /** A free key, its value, `,` and another non-blank unit go round the
      loop again from that unit, with the key bound. */
  lemma MemberThenMore(c: Cursor, doubleOf: DoubleParser, acc: Entries, key: Text, i: int, j: int, k: int)
    returns (b: Cursor)
    requires Valid(c) && NonBlankAt(c.input, c.index, i) && c.input[i] == COLON
    requires NextItem(NextClean(c).cursor, doubleOf).result.Ok? && Free(acc, key)
    requires NonBlankAt(c.input, NextItem(NextClean(c).cursor, doubleOf).cursor.index, j) && c.input[j] == COMMA
    requires NonBlankAt(c.input, j + 1, k) && c.input[k] != RBRACE
    ensures Valid(b) && b.input == c.input && b.index == k
    ensures Member(c, doubleOf, acc, key) ==
      Members(b, doubleOf, Put(acc, key, NextItem(NextClean(c).cursor, doubleOf).result.value).0)
  {
    Skip(c, i);
    var w := NextItem(NextClean(c).cursor, doubleOf).cursor;
    Skip(w, j);
    Skip(NextClean(w).cursor, k);
    b := PushedBack(NextClean(w).cursor);
  }

  /** A member followed by anything but `,` or `}` is an error. */
  lemma MemberThenOther(c: Cursor, doubleOf: DoubleParser, acc: Entries, key: Text, i: int, j: int)
    requires Valid(c) && NonBlankAt(c.input, c.index, i) && c.input[i] == COLON
    requires NextItem(NextClean(c).cursor, doubleOf).result.Ok? && Free(acc, key)
    requires NonBlankAt(c.input, NextItem(NextClean(c).cursor, doubleOf).cursor.index, j)
    requires c.input[j] != COMMA && c.input[j] != RBRACE
    ensures Member(c, doubleOf, acc, key).result.Err?
    ensures Member(c, doubleOf, acc, key).result.failure.SyntaxError?
    ensures Member(c, doubleOf, acc, key).result.failure.kind == ObjectSeparator
    ensures Member(c, doubleOf, acc, key).cursor.index == j + 1
  {
    Skip(c, i);
    Skip(NextItem(NextClean(c).cursor, doubleOf).cursor, j);
  }
}
