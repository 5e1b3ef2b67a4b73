/** The class `JsonParser`: a reader with one unit of pushback and the
    recursive-descent parser on top of it. Every method is proved to leave
    the object in the state, and to return (or throw) what, the matching
    function of `Cursors` or `Grammar` prescribes. */
module JsonParser {
  import opened Wrappers
  import opened Text
  import opened Numbers
  import opened JsonValues
  import opened Cursors
  import opened Grammar

  class Parser {
    /** The reader: every unit it will deliver, and how many it has. */
    const input: Text
    var pos: nat
    /** `Double.valueOf`. */
    const doubleOf: DoubleParser

    var index: int
    var characterNumber: int
    var lineNumber: int
    var previous: CodeUnit
    var usePrevious: bool
    var reachedEof: bool

    /** The fields as a cursor value. */
    ghost function State(): Cursor
      reads this
    {
      Cursor(Source(input), pos, index, characterNumber, lineNumber, previous, usePrevious, reachedEof)
    }

    ghost predicate Valid()
      reads this
    {
      Cursors.Valid(State())
    }

    /** The position `getPositionString` reports. */
    function CurrentPosition(): Position
      reads this
    {
      Position(index, characterNumber, lineNumber)
    }

    /** `new JsonParser(new StringReader(input))`. */
    constructor(input: Text, doubleOf: DoubleParser)
      ensures Valid() && State() == Start(input) && this.doubleOf == doubleOf
    {
      this.input := input;
      this.doubleOf := doubleOf;
      pos := 0;
      usePrevious := false;
      previous := 0;
      index := 0;
      characterNumber := 1;
      lineNumber := 1;
      reachedEof := false;
    }

    /** `back()`. */
    method Back() returns (r: Result<()>)
      requires Valid()
      modifies this
      ensures Valid() && Step(r, State()) == Cursors.Back(old(State()))
    {
      if usePrevious || index <= 0 {
        return Err(IllegalState);
      }
      index := index - 1;
      characterNumber := characterNumber - 1;
      usePrevious := true;
      reachedEof := false;
      return Ok(());
    }

    /** `nextAllowingEof()`. */
    method NextAllowingEof() returns (code: int)
      requires Valid()
      modifies this
      ensures Valid() && Delivered(code, State()) == Read(old(State()))
    {
      if reachedEof {
        return EOF;
      }
      var x: CodeUnit;
      if usePrevious {
        usePrevious := false;
        x := previous;
      } else {
        if pos == |input| {
          reachedEof := true;
          return EOF;
        }
        x := input[pos];
        pos := pos + 1;
      }
      index := index + 1;
      if previous == CR {
        lineNumber := lineNumber + 1;
        characterNumber := if x == LF then 0 else 1;
      } else if x == LF {
        lineNumber := lineNumber + 1;
        characterNumber := 0;
      } else {
        characterNumber := characterNumber + 1;
      }
      previous := x;
      return x as int;
    }

    /** `next()`. */
    method Next() returns (r: Result<CodeUnit>)
      requires Valid()
      modifies this
      ensures Valid() && Step(r, State()) == Cursors.Next(old(State()))
    {
      var code := NextAllowingEof();
      if code < 0 {
        return Err(SyntaxError(UnexpectedEof, CurrentPosition()));
      }
      return Ok(code as CodeUnit);
    }

    /** `next(n)`: fills a buffer of `n` units. */
    method NextN(n: int) returns (r: Result<Text>)
      requires Valid()
      modifies this
      ensures Valid() && Step(r, State()) == Cursors.NextN(old(State()), n)
    {
      if n == 0 {
        return Ok([]);
      }
      if n < 0 {
        return Err(NegativeArraySize);
      }
      var chars := new CodeUnit[n];
      ghost var goal := Take(State(), n);
      assert chars[..0] == [];
      PrependTwice([], [], goal);
      for i := 0 to n
        invariant Valid()
        invariant goal == Prepend(chars[..i], Take(State(), n - i))
      {
        ghost var start := State();
        var x := Next();
        if x.Err? {
          assert Take(start, n - i) == Step(Err(x.failure), State());
          return Err(x.failure);
        }
        assert Take(start, n - i) == Prepend([x.value], Take(State(), n - i - 1));
        chars[i] := x.value;
        assert chars[..i + 1] == chars[..i] + [x.value];
        PrependTwice(chars[..i], [x.value], Take(State(), n - i - 1));
      }
      assert chars[..] == chars[..n] + [];
      return Ok(chars[..]);
    }

    /** `nextClean()`. */
    method NextClean() returns (r: Result<CodeUnit>)
      requires Valid()
      modifies this
      ensures Valid() && Step(r, State()) == Cursors.NextClean(old(State()))
    {
      while true
        invariant Valid()
        invariant Cursors.NextClean(State()) == Cursors.NextClean(old(State()))
        decreases Remaining(State())
      {
        var x := Next();
        if x.Err? || x.value > SPACE {
          return x;
        }
      }
    }

    /** `nextString()`. */
    method NextString() returns (r: Result<Text>)
      requires Valid()
      modifies this
      ensures Valid() && Step(r, State()) == Grammar.NextString(old(State()))
    {
      var q := NextClean();
      if q.Err? {
        return Err(q.failure);
      }
      if q.value != QUOTE {
        var b := Back();
        assert b.Ok?;
        return Err(SyntaxError(InvalidString, CurrentPosition()));
      }
      var sb: Text := [];
      ghost var goal := StringBody(State(), []);
      while true
        invariant Valid()
        invariant StringBody(State(), sb) == goal
        decreases Remaining(State())
      {
        ghost var start := State();
        var x := Next();
        if x.Err? {
          return Err(x.failure);
        }
        var c := x.value;
        assert goal == StringBody(start, sb) == StringUnit(State(), sb, c);
        if c == LF || c == CR {
          return Err(SyntaxError(UnterminatedString, CurrentPosition()));
        } else if c == BACKSLASH {
          var e := Next();
          if e.Err? {
            return Err(e.failure);
          }
          if e.value == LETTER_U {
            var h := NextN(4);
            if h.Err? {
              return Err(h.failure);
            }
            var v := ParseInt(h.value, 16);
            if v.None? {
              return Err(NumberFormat);
            }
            sb := sb + [(v.value % 0x1_0000) as CodeUnit];
          } else {
            var z := Unescape(e.value);
            if z.None? {
              return Err(SyntaxError(IllegalEscape, CurrentPosition()));
            }
            sb := sb + [z.value];
          }
        } else if c == QUOTE {
          return Ok(sb);
        } else {
          sb := sb + [c];
        }
      }
    }

    /** `nextItem()`. */
    method NextItem() returns (r: Result<Value>)
      requires Valid()
      modifies this
      ensures Valid() && Step(r, State()) == Grammar.NextItem(old(State()), doubleOf)
      decreases Remaining(State()), 1
    {
      var o := NextClean();
      if o.Err? {
        return Err(o.failure);
      }
      var b := Back();
      assert b.Ok?;
      if o.value == QUOTE {
        var s := NextString();
        r := if s.Ok? then Ok(Str(s.value)) else Err(s.failure);
      } else if o.value == LBRACE {
        var m := ParseObject();
        r := if m.Ok? then Ok(Obj(m.value)) else Err(m.failure);
      } else if o.value == LBRACKET {
        var l := ParseArray();
        r := if l.Ok? then Ok(Arr(l.value)) else Err(l.failure);
      } else {
        r := NextRawString();
      }
    }

    /** `nextRawString()`. */
    method NextRawString() returns (r: Result<Value>)
      requires Valid()
      modifies this
      ensures Valid() && Step(r, State()) == Grammar.NextRawString(old(State()), doubleOf)
    {
      var builder: Text := [];
      ghost var goal := RawRun(State());
      assert goal.0 == builder + goal.0;
      while true
        invariant Valid()
        invariant goal == (builder + RawRun(State()).0, RawRun(State()).1)
        decreases Remaining(State())
      {
        ghost var start := State();
        var c := NextAllowingEof();
        if !InToken(c) {
          assert RawRun(start) == ([], State());
          assert builder + RawRun(start).0 == builder;
          assert goal == (builder, State());
          break;
        }
        assert RawRun(start) == ([c as CodeUnit] + RawRun(State()).0, RawRun(State()).1);
        assert builder + ([c as CodeUnit] + RawRun(State()).0) == builder + [c as CodeUnit] + RawRun(State()).0;
        builder := builder + [c as CodeUnit];
      }
      var b := Back();
      if b.Err? {
        return Err(b.failure);
      }
      if builder == [] {
        return Err(SyntaxError(if reachedEof then UnexpectedEof else MissingValue, CurrentPosition()));
      }
      var v := Classify(builder, doubleOf);
      if v.None? {
        return Err(SyntaxError(InvalidItem, CurrentPosition()));
      }
      return Ok(v.value);
    }

    /** `parseJsonObject()`: fills a `LinkedHashMap` entry by entry. */
    method ParseObject() returns (r: Result<Entries>)
      requires Valid()
      modifies this
      ensures Valid() && Step(r, State()) == Grammar.ParseObject(old(State()), doubleOf)
      decreases Remaining(State()), 0
    {
      var o := NextClean();
      if o.Err? {
        return Err(o.failure);
      }
      if o.value != LBRACE {
        var b := Back();
        assert b.Ok?;
        return Err(SyntaxError(InvalidObject, CurrentPosition()));
      }
      var entries: Entries := [];
      ghost var goal := Members(State(), doubleOf, []);
      while true
        invariant Valid()
        invariant index > old(index)
        invariant Members(State(), doubleOf, entries) == goal
        decreases Remaining(State())
      {
        ghost var start := State();
        var c := NextClean();
        if c.Err? {
          return Err(c.failure);
        }
        if c.value == RBRACE {
          return Ok(entries);
        }
        var b := Back();
        assert b.Ok?;
        var k := NextItem();
        if k.Err? {
          return Err(k.failure);
        }
        var key := KeyText(k.value);
        if key.None? {
          return Err(NullPointer);
        }
        assert Members(start, doubleOf, entries) == Member(State(), doubleOf, entries, key.value);
        var colon := NextClean();
        if colon.Err? {
          return Err(colon.failure);
        }
        if colon.value != COLON {
          return Err(SyntaxError(MissingColon, CurrentPosition()));
        }
        var v := NextItem();
        if v.Err? {
          return Err(v.failure);
        }
        var previousValue;
        entries, previousValue := Put(entries, key.value, v.value).0, Put(entries, key.value, v.value).1;
        if previousValue.Some? && !previousValue.value.Null? {
          return Err(SyntaxError(DuplicateKey, CurrentPosition()));
        }
        var s := NextClean();
        if s.Err? {
          return Err(s.failure);
        }
        if s.value == COMMA {
          var t := NextClean();
          if t.Err? {
            return Err(t.failure);
          }
          if t.value == RBRACE {
            return Ok(entries);
          }
          b := Back();
          assert b.Ok?;
        } else if s.value == RBRACE {
          return Ok(entries);
        } else {
          return Err(SyntaxError(ObjectSeparator, CurrentPosition()));
        }
      }
    }

    /** `parseJsonArray()`: fills an `ArrayList` element by element. */
    method ParseArray() returns (r: Result<seq<Value>>)
      requires Valid()
      modifies this
      ensures Valid() && Step(r, State()) == Grammar.ParseArray(old(State()), doubleOf)
      decreases Remaining(State()), 0
    {
      var list: seq<Value> := [];
      var o := NextClean();
      if o.Err? {
        return Err(o.failure);
      }
      if o.value != LBRACKET {
        var b := Back();
        assert b.Ok?;
        return Err(SyntaxError(InvalidArray, CurrentPosition()));
      }
      var e := NextClean();
      if e.Err? {
        return Err(e.failure);
      }
      if e.value == RBRACKET {
        return Ok(list);
      }
      var b := Back();
      assert b.Ok?;
      ghost var goal := Elements(State(), doubleOf, []);
      while true
        invariant Valid()
        invariant index > old(index)
        invariant Elements(State(), doubleOf, list) == goal
        decreases Remaining(State())
      {
        var c := NextClean();
        if c.Err? {
          return Err(c.failure);
        }
        if c.value == COMMA {
          return Err(SyntaxError(ArrayLeadingComma, CurrentPosition()));
        }
        b := Back();
        assert b.Ok?;
        var v := NextItem();
        if v.Err? {
          return Err(v.failure);
        }
        list := list + [v.value];
        var s := NextClean();
        if s.Err? {
          return Err(s.failure);
        }
        if s.value == COMMA {
          var t := NextClean();
          if t.Err? {
            return Err(t.failure);
          }
          if t.value == RBRACKET {
            return Ok(list);
          }
          b := Back();
          assert b.Ok?;
        } else if s.value == RBRACKET {
          return Ok(list);
        } else {
          return Err(SyntaxError(ArraySeparator, CurrentPosition()));
        }
      }
    }
  }
}
