/** What the cursor's `lineNumber` and `characterNumber` mean. A line ends
    at a `\n`, at the `\n` of `\r\n`, or at a `\r` that some other unit
    follows; a `\r` that is the last unit read has not ended its line yet.
    The line number is one more than the number of lines ended so far, and
    the column counts the units read since the last line ended (on the first
    line it starts from 1). Reading keeps the counters so; `back()` does not
    undo the line count, so a line break read twice is counted twice. */
module Positions {
  import opened Text
  import opened Cursors

  /** A line ends at `t[j]`. */
  predicate EndsLine(t: Text, j: nat)
    requires j < |t|
  {
    t[j] == LF || (t[j] == CR && j + 1 < |t| && t[j + 1] != LF)
  }

  /** How many lines end in `t[j..]`. */
  function LinesEnded(t: Text, j: nat): nat
    requires j <= |t|
    decreases |t| - j
  {
    if j == |t| then 0 else (if EndsLine(t, j) then 1 else 0) + LinesEnded(t, j + 1)
  }

  /** The line the reader is on after reading `t`. */
  function LineOf(t: Text): int
  {
    1 + LinesEnded(t, 0)
  }

  /** The units of `t` after the last line ending before `k`, or, when no
      line ends before `k`, one more than all of `t`. */
  function SinceEnd(t: Text, k: nat): int
    requires k <= |t|
  {
    if k == 0 then |t| + 1
    else if EndsLine(t, k - 1) then |t| - k
    else SinceEnd(t, k - 1)
  }

  /** The column the reader is at after reading `t`. */
  function ColumnOf(t: Text): int
  {
    SinceEnd(t, |t|)
  }

  /** A cursor with nothing pushed back whose counters are those of the
      units its reader has delivered. */
  predicate Counted(c: Cursor)
  {
    && Valid(c) && !c.usePrevious
    && (c.pos == 0 ==> c.previous != CR)
    && c.lineNumber == LineOf(c.input[..c.pos])
    && c.characterNumber == ColumnOf(c.input[..c.pos])
  }

  /** The constructor starts counted, on line 1 at column 1. */
  lemma StartCounted(input: Text)
    ensures Counted(Start(input))
    ensures Start(input).lineNumber == 1 && Start(input).characterNumber == 1
  {
    assert Start(input).input[..0] == [];
  }

  /** Appending `x` ends one more line when `x` is `\n` or follows `\r`. */
  lemma {:induction false} LinesEndedAppend(t: Text, x: CodeUnit, j: nat)
    requires j <= |t|
    ensures LinesEnded(t + [x], j) == LinesEnded(t, j)
      + (if x == LF then 1 else 0)
      + (if j < |t| && t[|t| - 1] == CR && x != LF then 1 else 0)
    decreases |t| - j
  {
    var u := t + [x];
    if j == |t| {
      assert LinesEnded(u, j + 1) == 0;
    } else {
      LinesEndedAppend(t, x, j + 1);
      assert EndsLine(u, j) == (EndsLine(t, j) || (j == |t| - 1 && t[j] == CR && x != LF));
    }
  }

  /** Appending a unit that ends no line moves every column one on. */
  lemma {:induction false} SinceEndAppend(t: Text, x: CodeUnit, k: nat)
    requires k < |t|
    ensures SinceEnd(t + [x], k) == SinceEnd(t, k) + 1
  {
    if k > 0 {
      assert EndsLine(t + [x], k - 1) == EndsLine(t, k - 1);
      SinceEndAppend(t, x, k - 1);
    }
  }

  /** The column after reading `x` past `t`, as `nextAllowingEof` sets it. */
  lemma ColumnAppend(t: Text, x: CodeUnit)
    ensures ColumnOf(t + [x]) ==
      if |t| > 0 && t[|t| - 1] == CR then (if x == LF then 0 else 1)
      else if x == LF then 0
      else ColumnOf(t) + 1
  {
    var u := t + [x];
    if x == LF {
      assert EndsLine(u, |t|);
      assert SinceEnd(u, |u|) == 0;
    } else if |t| == 0 {
      assert !EndsLine(u, 0);
      assert SinceEnd(u, 1) == SinceEnd(u, 0) == 2;
    } else {
      var last := t[|t| - 1];
      assert !EndsLine(u, |t|);
      assert SinceEnd(u, |u|) == SinceEnd(u, |t|);
      if last == LF {
        assert EndsLine(u, |t| - 1) && EndsLine(t, |t| - 1);
        assert SinceEnd(u, |t|) == 1;
        assert SinceEnd(t, |t|) == 0;
      } else if last == CR {
        assert EndsLine(u, |t| - 1);
        assert SinceEnd(u, |t|) == 1;
      } else {
        assert !EndsLine(u, |t| - 1) && !EndsLine(t, |t| - 1);
        SinceEndAppend(t, x, |t| - 1);
        assert SinceEnd(u, |t|) == SinceEnd(u, |t| - 1) == SinceEnd(t, |t| - 1) + 1;
        assert SinceEnd(t, |t|) == SinceEnd(t, |t| - 1);
      }
    }
  }

  /** `nextAllowingEof` keeps the counters those of the units delivered. */
  lemma ReadCounts(c: Cursor)
    requires Counted(c)
    ensures Counted(Read(c).cursor)
  {
    var d := Read(c).cursor;
    if d.pos == c.pos + 1 {
      var t := c.input[..c.pos];
      var x := c.input[c.pos];
      assert d.input[..d.pos] == t + [x];
      LinesEndedAppend(t, x, 0);
      ColumnAppend(t, x);
    }
  }

  /** After `back()`, reading the unit again counts its line break again:
      when the unit re-read is `\n` or `\r`, the line number ends one above
      the line the units delivered are on. */
  lemma BackRecountsLine(c: Cursor)
    requires Counted(c) && c.index > 0
    requires c.previous == LF || c.previous == CR
    ensures Back(c).result.Ok?
    ensures Read(Back(c).cursor).cursor.index == c.index
    ensures Read(Back(c).cursor).cursor.lineNumber == LineOf(c.input[..c.pos]) + 1
  {
  }
}
