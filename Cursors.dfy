/** The state of `JsonParser`'s character cursor as a value, and the cursor
    operations `nextAllowingEof`, `back`, `next`, `next(int)` and `nextClean`
    as functions of that state. The class `JsonParser.Parser` holds the same
    fields and its methods are proved to behave as these functions say. */
module Cursors {
  import opened Text

  /** `input` and `pos` stand for the underlying `Reader`: the characters it
      will ever deliver and how many it has delivered so far. The remaining
      fields are the parser's own bookkeeping, with the Java field names. */
  datatype Source = Source(units: Text)

  datatype Cursor = Cursor(
    source: Source,
    pos: nat,
    index: int,
    characterNumber: int,
    lineNumber: int,
    previous: CodeUnit,
    usePrevious: bool,
    reachedEof: bool)
  {
    const input: Text := source.units
  }

  /** What `getPositionString` reports. */
  datatype Position = Position(index: int, character: int, line: int)

  /** The syntax errors the parser raises as `JsonException`. */
  datatype Syntax =
    | UnexpectedEof       // input ended where a character was required
    | InvalidString       // a string did not start with `"`
    | UnterminatedString  // a raw line break inside a string
    | IllegalEscape       // a backslash followed by an unknown letter
    | MissingValue        // a raw token with no characters
    | InvalidItem         // a raw token that is no literal and no number
    | InvalidObject       // an object did not start with `{`
    | MissingColon        // a key not followed by `:`
    | DuplicateKey        // a key already bound to a non-null value
    | ObjectSeparator     // a member not followed by `,` or `}`
    | InvalidArray        // an array did not start with `[`
    | ArrayLeadingComma   // a `,` where an element was expected
    | ArraySeparator      // an element not followed by `,` or `]`

  /** Every way a parser call ends abnormally. */
  datatype Failure =
    | SyntaxError(kind: Syntax, at: Position)  // JsonException
    | IllegalState                             // from back()
    | NumberFormat                             // a bad \u escape
    | NegativeArraySize                        // next(n) with n < 0
    | NullPointer                              // a null object key

  datatype Result<+T> = Ok(value: T) | Err(failure: Failure)

  /** The outcome of a parser call together with the cursor it leaves. */
  datatype Step<+T> = Step(result: Result<T>, cursor: Cursor)

  /** What `nextAllowingEof` returns (a unit, or `EOF`) and the cursor after. */
  datatype Delivered = Delivered(code: int, cursor: Cursor)

  const EOF: int := -1

  /** The state the constructor sets up. */
  function Start(input: Text): (c: Cursor)
    ensures Valid(c) && c.input == input && c.index == 0 && !c.usePrevious
  {
    Cursor(Source(input), 0, 0, 1, 1, 0, false, false)
  }

  /** The invariant every reachable cursor keeps. `index` counts the units
      handed out, so it is one less than the reader's position while a unit
      is pushed back; `previous` is the last unit the reader gave; the end
      flag is only set once the reader is exhausted. Together these make the
      cursor deliver exactly `input[index..]`. */
  predicate Valid(c: Cursor)
  {
    && c.pos <= |c.input|
    && 0 <= c.index
    && c.index == c.pos - (if c.usePrevious then 1 else 0)
    && (c.pos > 0 ==> c.previous == c.input[c.pos - 1])
    && (c.reachedEof ==> !c.usePrevious && c.pos == |c.input|)
  }

  /** How many units the cursor will still deliver. */
  function Remaining(c: Cursor): nat
    requires Valid(c)
  {
    |c.input| - c.index
  }

  function At(c: Cursor): Position
  {
    Position(c.index, c.characterNumber, c.lineNumber)
  }

  /** `nextAllowingEof`: the next unit, or `EOF` once the reader is
      exhausted. The pushed-back unit is delivered first; after the end is
      reached, the cursor stays as it is. */
  function Read(c: Cursor): (d: Delivered)
    requires Valid(c)
    ensures Valid(d.cursor) && d.cursor.input == c.input && !d.cursor.usePrevious
    ensures d.code == if c.index < |c.input| then c.input[c.index] as int else EOF
    ensures d.cursor.index == if c.index < |c.input| then c.index + 1 else c.index
  {
    if c.reachedEof then Delivered(EOF, c)
    else if c.usePrevious then Deliver(c.(usePrevious := false), c.previous)
    else if c.pos == |c.input| then Delivered(EOF, c.(reachedEof := true))
    else Deliver(c.(pos := c.pos + 1), c.input[c.pos])
  }

  /** The bookkeeping for a delivered unit `x`. */
  function Deliver(c: Cursor, x: CodeUnit): Delivered
  {
    var line, column :=
      if c.previous == CR then c.lineNumber + 1 else if x == LF then c.lineNumber + 1 else c.lineNumber,
      if c.previous == CR then (if x == LF then 0 else 1) else if x == LF then 0 else c.characterNumber + 1;
    Delivered(x as int, c.(index := c.index + 1, lineNumber := line, characterNumber := column, previous := x))
  }

  /** `back()`: push the last delivered unit back. It fails when a unit is
      already pushed back or nothing has been delivered; otherwise it moves
      `index` and the column back by one, leaves the line alone and clears
      the end flag. */
  function Back(c: Cursor): (s: Step<()>)
    requires Valid(c)
    ensures Valid(s.cursor) && s.cursor.input == c.input
    ensures s.result.Ok? <==> !c.usePrevious && c.index > 0
    ensures s.result.Ok? ==>
      && s.cursor.index == c.index - 1
      && s.cursor.characterNumber == c.characterNumber - 1
      && s.cursor.lineNumber == c.lineNumber
      && s.cursor.usePrevious && !s.cursor.reachedEof
    ensures s.result.Err? ==> s == Step(Err(IllegalState), c)
  {
    if c.usePrevious || c.index <= 0 then Step(Err(IllegalState), c)
    else Step(Ok(()), c.(index := c.index - 1, characterNumber := c.characterNumber - 1,
                         usePrevious := true, reachedEof := false))
  }

  /** `next()`: the next unit, or "Unexpected end of file". */
  function Next(c: Cursor): (s: Step<CodeUnit>)
    requires Valid(c)
    ensures Valid(s.cursor) && s.cursor.input == c.input
    ensures s.result.Ok? <==> c.index < |c.input|
    ensures s.result.Ok? ==> s.result.value == c.input[c.index] && s.cursor.index == c.index + 1
    ensures s.result.Err? ==>
      && s.result.failure == SyntaxError(UnexpectedEof, At(s.cursor))
      && s.cursor.index == |c.input| && s.cursor.reachedEof
    ensures !s.cursor.usePrevious
  {
    var d := Read(c);
    if d.code < 0 then Step(Err(SyntaxError(UnexpectedEof, At(d.cursor))), d.cursor)
    else Step(Ok(d.code as CodeUnit), d.cursor)
  }

  /** `next(n)`: exactly `n` units. Zero reads nothing; a negative count
      cannot allocate its buffer. */
  function NextN(c: Cursor, n: int): (s: Step<Text>)
    requires Valid(c)
    ensures Valid(s.cursor) && s.cursor.input == c.input
    ensures s.result.Ok? ==> s.cursor.index == c.index + n
  {
    if n == 0 then Step(Ok([]), c)
    else if n < 0 then Step(Err(NegativeArraySize), c)
    else Take(c, n)
  }

  /** The loop of `next(n)`: `k` more calls of `next()`. */
  function Take(c: Cursor, k: nat): (s: Step<Text>)
    requires Valid(c)
    ensures Valid(s.cursor) && s.cursor.input == c.input
    ensures s.result.Ok? ==> s.cursor.index == c.index + k
    decreases k
  {
    if k == 0 then Step(Ok([]), c)
    else
      var x := Next(c);
      if x.result.Err? then Step(Err(x.result.failure), x.cursor)
      else Prepend([x.result.value], Take(x.cursor, k - 1))
  }

  /** `next(n)` succeeds exactly when `n` is not negative and `n` units
      remain; it then returns those units. A negative count fails before
      reading anything. */
  lemma NextNReads(c: Cursor, n: int)
    requires Valid(c)
    ensures n < 0 ==> NextN(c, n) == Step(Err(NegativeArraySize), c)
    ensures n == 0 ==> NextN(c, n) == Step(Ok([]), c)
    ensures n >= 0 ==> (NextN(c, n).result.Ok? <==> c.index + n <= |c.input|)
    ensures NextN(c, n).result.Ok? ==> NextN(c, n).result.value == c.input[c.index..c.index + n]
  {
    if n > 0 {
      TakeSucceeds(c, n);
      if Take(c, n).result.Ok? {
        TakeValue(c, n);
      }
    }
  }

  /** When too few units remain, `next(n)` reads to the end of the input and
      reports "Unexpected end of file" there. */
  lemma NextNFails(c: Cursor, n: int)
    requires Valid(c) && n > 0
    ensures NextN(c, n).result.Err? ==>
      && NextN(c, n).result.failure == SyntaxError(UnexpectedEof, At(NextN(c, n).cursor))
      && NextN(c, n).cursor.index == |c.input|
  {
    TakeFails(c, n);
  }

  lemma {:induction false} TakeSucceeds(c: Cursor, k: nat)
    requires Valid(c)
    ensures Take(c, k).result.Ok? <==> c.index + k <= |c.input|
    decreases k
  {
    if k > 0 && Next(c).result.Ok? {
      TakeSucceeds(Next(c).cursor, k - 1);
    }
  }

  lemma TakeValue(c: Cursor, k: nat)
    requires Valid(c) && Take(c, k).result.Ok?
    ensures c.index + k <= |c.input|
    ensures Take(c, k).result.value == c.input[c.index..c.index + k]
  {
    TakeUnits(c, k);
  }

  /** The units a successful `Take` returns, one by one. */
  lemma {:induction false} TakeUnits(c: Cursor, k: nat)
    requires Valid(c) && Take(c, k).result.Ok?
    ensures c.index + k <= |c.input| && |Take(c, k).result.value| == k
    ensures forall j | 0 <= j < k :: Take(c, k).result.value[j] == c.input[c.index + j]
    decreases k
  {
    if k > 0 {
      var d := TakeStep(c, k);
      TakeUnits(d, k - 1);
      UnitsCons(c.input, c.index, Take(d, k - 1).result.value);
    }
  }

  /** `t[i]` followed by the units of `t` from `i + 1` on is the units of
      `t` from `i` on. */
  lemma UnitsCons(t: Text, i: nat, w: Text)
    requires i + |w| < |t|
    requires forall j | 0 <= j < |w| :: w[j] == t[i + 1 + j]
    ensures forall j | 0 <= j < |w| + 1 :: ([t[i]] + w)[j] == t[i + j]
  {
    forall j | 0 <= j < |w| + 1
      ensures ([t[i]] + w)[j] == t[i + j]
    {
      if j > 0 {
        assert ([t[i]] + w)[j] == w[j - 1];
      }
    }
  }

  /** A successful `Take` of `k > 0` units is the next unit followed by a
      successful `Take` of `k - 1` units from the cursor after it. */
  lemma TakeStep(c: Cursor, k: nat) returns (d: Cursor)
    requires Valid(c) && k > 0 && Take(c, k).result.Ok?
    ensures Valid(d) && d.input == c.input && d.index == c.index + 1 && c.index < |c.input|
    ensures Take(d, k - 1).result.Ok?
    ensures Take(c, k).result.value == [c.input[c.index]] + Take(d, k - 1).result.value
  {
    d := Next(c).cursor;
  }

  lemma {:induction false} TakeFails(c: Cursor, k: nat)
    requires Valid(c)
    ensures Take(c, k).result.Err? ==>
      Take(c, k).result.failure == SyntaxError(UnexpectedEof, At(Take(c, k).cursor))
      && Take(c, k).cursor.index == |c.input|
    decreases k
  {
    if k > 0 && Next(c).result.Ok? {
      TakeFails(Next(c).cursor, k - 1);
    }
  }

  /** Puts the units `p` in front of a successful result. */
  function Prepend(p: Text, s: Step<Text>): Step<Text>
  {
    match s.result
    case Ok(t) => Step(Ok(p + t), s.cursor)
    case Err(_) => s
  }

  lemma PrependTwice(p: Text, q: Text, s: Step<Text>)
    ensures Prepend(p, Prepend(q, s)) == Prepend(p + q, s)
    ensures Prepend([], s) == s
  {
    if s.result.Ok? {
      assert p + (q + s.result.value) == p + q + s.result.value;
      assert [] + s.result.value == s.result.value;
    }
  }

  /** `nextClean()`: skips every unit up to and including the space and
      returns the first unit above it; fails at the end of the input. */
  function NextClean(c: Cursor): (s: Step<CodeUnit>)
    requires Valid(c)
    ensures Valid(s.cursor) && s.cursor.input == c.input
    ensures s.result.Ok? ==> c.index < s.cursor.index && !s.cursor.usePrevious && s.result.value > SPACE
    decreases Remaining(c)
  {
    var n := Next(c);
    if n.result.Err? || n.result.value > SPACE then n else NextClean(n.cursor)
  }

  /** `nextClean()` returns the first unit above the space that is left in
      the input and stops right after it, having skipped only units up to
      the space. */
  lemma {:induction false} NextCleanFinds(c: Cursor)
    requires Valid(c)
    ensures NextClean(c).result.Ok? ==>
      && NextClean(c).result.value == c.input[NextClean(c).cursor.index - 1]
      && forall k :: c.index <= k < NextClean(c).cursor.index - 1 ==> c.input[k] <= SPACE
    decreases Remaining(c)
  {
    var n := Next(c);
    if n.result.Ok? && n.result.value <= SPACE {
      NextCleanFinds(n.cursor);
      assert NextClean(c) == NextClean(n.cursor);
    }
  }

  /** `nextClean()` fails, at the end of the input, exactly when nothing but
      units up to the space is left. */
  lemma {:induction false} NextCleanFails(c: Cursor)
    requires Valid(c)
    ensures NextClean(c).result.Err? <==> forall k :: c.index <= k < |c.input| ==> c.input[k] <= SPACE
    ensures NextClean(c).result.Err? ==>
      NextClean(c).result.failure == SyntaxError(UnexpectedEof, At(NextClean(c).cursor))
    decreases Remaining(c)
  {
    var n := Next(c);
    if n.result.Ok? && n.result.value <= SPACE {
      NextCleanFails(n.cursor);
      assert NextClean(c) == NextClean(n.cursor);
    }
  }

  /** `nextClean()` returns the first unit above the space at or after the
      cursor and stops just after it. */
  lemma {:induction false} NextCleanSkips(c: Cursor, j: nat)
    requires Valid(c) && c.index <= j < |c.input| && c.input[j] > SPACE
    requires forall k :: c.index <= k < j ==> c.input[k] <= SPACE
    ensures NextClean(c).result == Ok(c.input[j]) && NextClean(c).cursor.index == j + 1
    decreases j - c.index
  {
    if c.index < j {
      NextCleanSkips(Next(c).cursor, j);
    }
  }

  /** Once `nextAllowingEof` has met the end, it keeps returning `EOF` and
      changes nothing. */
  lemma EofSticks(c: Cursor)
    requires Valid(c) && Read(c).code == EOF
    ensures Read(c).cursor.reachedEof && Read(c).cursor.index == |c.input|
    ensures Read(Read(c).cursor) == Read(c)
  {
  }

  /** `back()` then `nextAllowingEof` delivers the last unit again and
      restores the index. */
  lemma BackThenRead(c: Cursor)
    requires Valid(c) && !c.usePrevious && c.index > 0
    ensures Back(c).result.Ok?
    ensures Read(Back(c).cursor).code == c.input[c.index - 1] as int
    ensures Read(Back(c).cursor).cursor.index == c.index
    ensures Read(Back(c).cursor).cursor.pos == c.pos
  {
  }

  /** Because `back()` clears the end flag, a `back()` after the end was met
      re-delivers the last unit of the input instead of `EOF`. */
  lemma BackAfterEof(c: Cursor)
    requires Valid(c) && |c.input| > 0 && Read(c).code == EOF
    ensures Back(Read(c).cursor).result.Ok?
    ensures Read(Back(Read(c).cursor).cursor).code == c.input[|c.input| - 1] as int
  {
  }
}
