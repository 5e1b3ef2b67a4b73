# json-serialization in Dafny

A model of the two classes at the core of daboross's `json-serialization`
Java library, with proofs about them.

- **`JsonParser`** is a hand-written recursive-descent JSON reader. It reads
  UTF-16 code units from a `Reader` and can push back one unit. It counts
  lines and columns for its error messages. Its parsing operations are
  `nextString`, `nextItem`, `nextRawString`, `parseJsonObject` and
  `parseJsonArray`.
- **`JsonSerialization`** is the matching writer. It writes `null`,
  booleans, numbers, strings, maps and iterables, with an indent factor
  that chooses between compact output and indented output.

The model is layered as follows:

- `Text`, `Numbers`, `JsonValues`: code units, Java's decimal and
  hexadecimal number texts, and the values the library exchanges.
  - A Java `Map` is an insertion-ordered list of entries, as the parser's
    `LinkedHashMap` is.
  - A `List` or an `Iterable` is a sequence.
- `Cursors`, `Grammar`: the parser's state as a value (`Cursor`), and pure
  functions saying what each parser operation returns and what state it
  leaves. Every failure comes with the state at the moment of the throw.
- `JsonParser`: the class `Parser`. It has the Java fields and one method
  per Java method, each written as the Java loop is. Each method is proved
  to leave exactly the result and the state that the matching function
  prescribes.
- `Rendering`, `JsonSerialization`: the text the writer produces, as
  functions, and the writer's static methods over a `Writer` object whose
  text grows. Each method is proved to append exactly that text.
  - A `JsonException` for a non-finite number is modelled as a `false`
    result. The text written before the throw stays in the writer.
- `Positions`: what the line and column counters mean.
- `ParseErrors`, `Containers`: where each syntax error is raised, and one
  pass of each object and array loop, with its separator cases.
- `Layout`: the writer finishes exactly on finite values. With indent
  factor 0 at indent 0 it writes the compact form. Strings are written
  with no control unit and no `</`.
- `RoundTrip`, `Reparse`, `Reserialize`: `nextString` reads back what
  `writeString` wrote. `nextItem` reads back the strings, literals and
  numbers that `writeJsonValue` wrote in any layout, and whole arrays and
  objects that it wrote with indent factor 0 at indent 0.

Behaviour of the code that the model keeps as written:

- `back()` moves the column back but not the line. A line break read a
  second time is counted a second time (`Positions.BackRecountsLine`).
- On the first line, the column starts at 1. After a line break, it
  starts at 0.
- In `nextRawString`, the "Unexpected end of file" branch for an empty
  token cannot be reached. `back()` clears the end flag before the flag is
  tested, so an empty token is always "Missing value". The one exception
  is empty input, where `back()` itself throws `IllegalStateException`
  (`ParseErrors.EmptyToken`).
- `writeJsonValue` passes an object its indent where the indent factor
  belongs (JsonSerialization.java:220). Because of this, an object at
  indent 0 is always written compact.
- The writer never escapes `'`. The parser accepts `\'`.
- The writer escapes `/` only after `<`.
- `parseJsonObject` rejects a repeated key only when the earlier value is
  not `null`, since `Map.put` returns the old value. A later `null` for the
  same key replaces the earlier value silently.
- A key is whatever `nextItem()` returns, turned into a string with
  `toString()`. A `null` key is a `NullPointerException`. A number key is
  Java's text for that number.
- `indent + indentFactor` wraps around at 32 bits.
- `nextClean` treats every unit up to the space as blank.
- The raw-token loop stops at a unit below the space or at one of
  `[]{},:=#`.
- `equalsIgnoreCase` also matches U+017F, the long s, against `s` in
  `false`.

## Model

| member | source | states |
|---|---|---|
| Text.Repeat | src/main/java/net/daboross/jsonserialization/JsonSerialization.java:108-112 | `n` copies of a unit, and none for a negative count: the text `writeIndent` writes |
| Numbers.Wrap32 | src/main/java/net/daboross/jsonserialization/JsonSerialization.java:140 | Java `int` addition: the result is `x` itself in range and congruent to `x` modulo 2^32 always |
| Numbers.Digit | src/main/java/net/daboross/jsonserialization/JsonParser.java:216 | the value of a digit unit in a radix is below the radix, or -1 for a non-digit |
| Numbers.DigitCases | src/main/java/net/daboross/jsonserialization/JsonParser.java:216 | a unit with a digit value is the unit `Character.forDigit` gives for that value or its upper-case form, and `A`-`Z` have the values of `a`-`z` |
| Numbers.DigitUnit | src/main/java/net/daboross/jsonserialization/JsonSerialization.java:95 | the digit unit written for a value reads back as that value |
| Numbers.ParseInt | src/main/java/net/daboross/jsonserialization/JsonParser.java:297-300 | `Integer.valueOf`/`Integer.parseInt` accepts exactly a signed digit string whose value fits in 32 bits, and returns that value |
| Numbers.ParseLong | src/main/java/net/daboross/jsonserialization/JsonParser.java:301-304 | `Long.valueOf` accepts exactly a signed digit string whose value fits in 64 bits, and returns that value |
| Numbers.Digits | src/main/java/net/daboross/jsonserialization/JsonSerialization.java:51 | the digits of a natural number are non-empty, all digits of the radix, with no leading zero |
| Numbers.DigitsRoundTrip | src/main/java/net/daboross/jsonserialization/JsonSerialization.java:51 | reading the digits written for `n` gives `n` back |
| Numbers.DecimalRoundTrip | src/main/java/net/daboross/jsonserialization/JsonSerialization.java:51 | the signed text `toString()` gives an integer reads back as that integer |
| Numbers.DecimalTextShape | src/main/java/net/daboross/jsonserialization/JsonSerialization.java:51 | that text is a `-` or a digit followed by digits only |
| Numbers.LeadingZeros | src/main/java/net/daboross/jsonserialization/JsonSerialization.java:96 | zeros written in front of a digit string do not change its value |
| Numbers.ZerosValue | src/main/java/net/daboross/jsonserialization/JsonSerialization.java:96 | a run of zeros reads as 0 |
| Numbers.HexTextShort | src/main/java/net/daboross/jsonserialization/JsonSerialization.java:95 | `Integer.toHexString` of a `char` has at most four digits, so the padding length is never negative |
| Numbers.PaddedHexRoundTrip | src/main/java/net/daboross/jsonserialization/JsonSerialization.java:95-97 | the zero-padded hex text of a unit has four digits and parses in radix 16 back to the unit |
| JsonValues.Keys | src/main/java/net/daboross/jsonserialization/JsonParser.java:322 | the keys of a map in insertion order, one per entry |
| JsonValues.KeyText | src/main/java/net/daboross/jsonserialization/JsonParser.java:337 | `toString()` of a parsed key: a string key is itself, and only a `null` key has no text |
| Cursors.Start | src/main/java/net/daboross/jsonserialization/JsonParser.java:56-64 | the constructor's state keeps the cursor invariant, at the start of the input, with nothing pushed back |
| Cursors.Read | src/main/java/net/daboross/jsonserialization/JsonParser.java:100-130 | `nextAllowingEof` delivers the unit at `index` and moves past it, or gives -1 at the end and stays there; the invariant is kept |
| Cursors.Back | src/main/java/net/daboross/jsonserialization/JsonParser.java:84-92 | `back()` succeeds exactly when nothing is pushed back and something was delivered; it then moves `index` and the column back by one, leaves the line and clears the end flag; otherwise IllegalState with the state unchanged |
| Cursors.Next | src/main/java/net/daboross/jsonserialization/JsonParser.java:132-139 | `next()` succeeds exactly when a unit is left, returns the unit at `index` and moves past it; otherwise it fails with "Unexpected end of file" at the end of the input with the end flag set |
| Cursors.NextN | src/main/java/net/daboross/jsonserialization/JsonParser.java:149-158 | on success `next(n)` moves exactly `n` units on |
| Cursors.Take | src/main/java/net/daboross/jsonserialization/JsonParser.java:153-157 | the loop of `next(n)` moves exactly `k` units on when it succeeds |
| Cursors.NextNReads | src/main/java/net/daboross/jsonserialization/JsonParser.java:149-158 | `next(n)`: a negative `n` is NegativeArraySize with no unit read; `next(0)` is the empty text; otherwise it succeeds exactly when `n` units are left, and returns exactly those units |
| Cursors.NextNFails | src/main/java/net/daboross/jsonserialization/JsonParser.java:134-136 | when `next(n)` fails it is "Unexpected end of file", raised at the end of the input |
| Cursors.TakeSucceeds | src/main/java/net/daboross/jsonserialization/JsonParser.java:153-157 | the loop of `next(n)` succeeds exactly when `k` units are left |
| Cursors.TakeValue | src/main/java/net/daboross/jsonserialization/JsonParser.java:153-157 | the loop of `next(n)` returns exactly the next `k` units of the input |
| Cursors.TakeUnits | src/main/java/net/daboross/jsonserialization/JsonParser.java:153-157 | unit `j` of what the loop returns is the input unit `j` places after `index` |
| Cursors.TakeFails | src/main/java/net/daboross/jsonserialization/JsonParser.java:134-136 | when the loop fails it is "Unexpected end of file" at the end of the input |
| Cursors.NextClean | src/main/java/net/daboross/jsonserialization/JsonParser.java:167-174 | `nextClean` returns a unit above the space, moves past it and leaves nothing pushed back |
| Cursors.NextCleanFinds | src/main/java/net/daboross/jsonserialization/JsonParser.java:167-174 | the unit `nextClean` returns is the first non-blank unit from `index` on: every unit it skipped is at most a space |
| Cursors.NextCleanFails | src/main/java/net/daboross/jsonserialization/JsonParser.java:167-174 | `nextClean` fails exactly when the rest of the input is blank, and then with "Unexpected end of file" at the end |
| Cursors.NextCleanSkips | src/main/java/net/daboross/jsonserialization/JsonParser.java:167-174 | started before blanks and a non-blank unit, `nextClean` returns that unit and stops after it |
| Cursors.EofSticks | src/main/java/net/daboross/jsonserialization/JsonParser.java:101-103 | once -1 has been delivered the end flag is set, and reading again delivers -1 and changes nothing |
| Cursors.BackThenRead | src/main/java/net/daboross/jsonserialization/JsonParser.java:105-107 | after `back()`, the next read delivers the same unit again, at the same reader position |
| Cursors.BackAfterEof | src/main/java/net/daboross/jsonserialization/JsonParser.java:84-92 | after -1, `back()` succeeds and the next read delivers the last unit of the input again |
| Positions.StartCounted | src/main/java/net/daboross/jsonserialization/JsonParser.java:56-64 | the constructor starts on line 1, column 1, with the counters those of the empty text |
| Positions.ColumnAppend | src/main/java/net/daboross/jsonserialization/JsonParser.java:118-128 | the column rule `nextAllowingEof` applies is the column of the text read so far: 0 after `\n`, 1 after a lone `\r`, one more otherwise |
| Positions.ReadCounts | src/main/java/net/daboross/jsonserialization/JsonParser.java:100-130 | reading keeps the line and column those of the units the reader has delivered |
| Positions.BackRecountsLine | src/main/java/net/daboross/jsonserialization/JsonParser.java:84-92 | re-reading a pushed-back line break puts the line number one above the line of the units delivered |
| Grammar.Unescape | src/main/java/net/daboross/jsonserialization/JsonParser.java:197-227 | the letters accepted after a backslash are exactly b t n f r `"` `'` `\` `/` |
| Grammar.NextString | src/main/java/net/daboross/jsonserialization/JsonParser.java:184-234 | on success `nextString` has read at least both quotes and leaves nothing pushed back |
| Grammar.StringBody | src/main/java/net/daboross/jsonserialization/JsonParser.java:191-233 | each pass of the loop of `nextString` reads at least one unit |
| Grammar.StringUnit | src/main/java/net/daboross/jsonserialization/JsonParser.java:193-231 | handling one unit of a string never moves the cursor back |
| Grammar.RawRun | src/main/java/net/daboross/jsonserialization/JsonParser.java:274-277 | the token loop leaves nothing pushed back and has moved at least the token's length |
| Grammar.RawRunToken | src/main/java/net/daboross/jsonserialization/JsonParser.java:274-277 | the token is exactly the input from `index` on, unit for unit |
| Grammar.RawRunUnits | src/main/java/net/daboross/jsonserialization/JsonParser.java:274 | every unit of the token is at least a space and none of `[]{},:=#` |
| Grammar.RawRunStops | src/main/java/net/daboross/jsonserialization/JsonParser.java:274-278 | the loop stops on the first unit that is not a token unit, one past the token, or at the end with the end flag set |
| Grammar.Classify | src/main/java/net/daboross/jsonserialization/JsonParser.java:287-309 | a token is an `Integer` only as `Integer.valueOf` reads it, a `Long` only when `Integer.valueOf` fails, and invalid only when `Long.valueOf` and `Double.valueOf` fail too; it is never a string or a container |
| Grammar.ClassifyCases | src/main/java/net/daboross/jsonserialization/JsonParser.java:287-309 | a token is `true`, `false` or `null` exactly when it matches that word ignoring case; otherwise it is an `Integer` exactly when `Integer.valueOf` accepts it, a `Long` exactly when only `Long.valueOf` does, the `Double` that `Double.valueOf` gives exactly when only that one does, and invalid exactly when all three reject it |
| Grammar.ClassifyExamples | src/main/java/net/daboross/jsonserialization/JsonParser.java:287-309 | tokens the writer never writes are read too: `TRUE`, `NuLL`, `+5`, `007` and `-0` |
| Grammar.NextRawString | src/main/java/net/daboross/jsonserialization/JsonParser.java:266-310 | `nextRawString` keeps the cursor invariant and never moves back past where it started |
| Grammar.NextItem | src/main/java/net/daboross/jsonserialization/JsonParser.java:244-257 | `nextItem` keeps the invariant and never moves back past where it started |
| Grammar.LookupKeys | src/main/java/net/daboross/jsonserialization/JsonParser.java:345 | a key is bound in the map exactly when it is among its keys |
| Grammar.Put | src/main/java/net/daboross/jsonserialization/JsonParser.java:345 | `Map.put` returns the old binding, binds the key to the new value and leaves every other key's binding alone |
| Grammar.PutKeys | src/main/java/net/daboross/jsonserialization/JsonParser.java:322-345 | a new key goes at the end of the insertion order; a key already there keeps its place |
| Grammar.ParseObject | src/main/java/net/daboross/jsonserialization/JsonParser.java:321-365 | on success `parseJsonObject` has moved forward |
| Grammar.Members | src/main/java/net/daboross/jsonserialization/JsonParser.java:330-338 | each pass of the object loop moves forward |
| Grammar.Member | src/main/java/net/daboross/jsonserialization/JsonParser.java:340-363 | the rest of a pass, after the key, moves forward |
| Grammar.ParseArray | src/main/java/net/daboross/jsonserialization/JsonParser.java:376-406 | on success `parseJsonArray` has moved forward |
| Grammar.Elements | src/main/java/net/daboross/jsonserialization/JsonParser.java:384-403 | each pass of the array loop moves forward |
| JsonParser.Parser.constructor | src/main/java/net/daboross/jsonserialization/JsonParser.java:56-64 | the new parser's state is `Start(input)` |
| JsonParser.Parser.Back | src/main/java/net/daboross/jsonserialization/JsonParser.java:84-92 | the method leaves the result and state `Cursors.Back` prescribes |
| JsonParser.Parser.NextAllowingEof | src/main/java/net/daboross/jsonserialization/JsonParser.java:100-130 | the method leaves the unit and state `Cursors.Read` prescribes |
| JsonParser.Parser.Next | src/main/java/net/daboross/jsonserialization/JsonParser.java:132-139 | the method leaves the result and state `Cursors.Next` prescribes |
| JsonParser.Parser.NextN | src/main/java/net/daboross/jsonserialization/JsonParser.java:149-158 | the loop filling a `char[]` leaves the result and state `Cursors.NextN` prescribes |
| JsonParser.Parser.NextClean | src/main/java/net/daboross/jsonserialization/JsonParser.java:167-174 | the loop leaves the result and state `Cursors.NextClean` prescribes |
| JsonParser.Parser.NextString | src/main/java/net/daboross/jsonserialization/JsonParser.java:184-234 | the loop building the string leaves the result and state `Grammar.NextString` prescribes |
| JsonParser.Parser.NextItem | src/main/java/net/daboross/jsonserialization/JsonParser.java:244-257 | the method leaves the result and state `Grammar.NextItem` prescribes |
| JsonParser.Parser.NextRawString | src/main/java/net/daboross/jsonserialization/JsonParser.java:266-310 | the token loop and the classification leave the result and state `Grammar.NextRawString` prescribes |
| JsonParser.Parser.ParseObject | src/main/java/net/daboross/jsonserialization/JsonParser.java:321-365 | the loop filling the map leaves the result and state `Grammar.ParseObject` prescribes |
| JsonParser.Parser.ParseArray | src/main/java/net/daboross/jsonserialization/JsonParser.java:376-406 | the loop filling the list leaves the result and state `Grammar.ParseArray` prescribes |
| ParseErrors.BreakUnterminated | src/main/java/net/daboross/jsonserialization/JsonParser.java:194-196 | a raw `\n` or `\r` inside a string is "Unterminated string", raised just after it |
| ParseErrors.EscapeIllegal | src/main/java/net/daboross/jsonserialization/JsonParser.java:197-226 | a backslash followed by any other letter is "Illegal escape", raised just after the letter |
| ParseErrors.EndUnterminated | src/main/java/net/daboross/jsonserialization/JsonParser.java:192 | input ending inside a string is "Unexpected end of file" at its end |
| ParseErrors.NotAString | src/main/java/net/daboross/jsonserialization/JsonParser.java:185-188 | `nextString` on any other first non-blank unit fails with "Invalid string" and pushes that unit back |
| ParseErrors.EmptyToken | src/main/java/net/daboross/jsonserialization/JsonParser.java:278-286 | an empty token is never "Unexpected end of file": it is "Missing value", or IllegalState on empty input |
| Containers.Skip | src/main/java/net/daboross/jsonserialization/JsonParser.java:167-174 | `nextClean` finds the first non-blank unit and `back()` leaves the cursor on it |
| Containers.ArrayRejects | src/main/java/net/daboross/jsonserialization/JsonParser.java:378-381 | an array that does not start with `[` is "Invalid array", with that unit pushed back |
| Containers.EmptyArray | src/main/java/net/daboross/jsonserialization/JsonParser.java:376-405 | `[` then `]` is the empty list, read up to the `]` |
| Containers.ArrayOpens | src/main/java/net/daboross/jsonserialization/JsonParser.java:378-384 | after `[` and a unit other than `]`, the loop starts on that unit with an empty list |
| Containers.ElementsLeadingComma | src/main/java/net/daboross/jsonserialization/JsonParser.java:385-386 | a `,` where an element belongs is "expected item, found `,`" |
| Containers.ElementThenClose | src/main/java/net/daboross/jsonserialization/JsonParser.java:388-399 | an element then `]` ends the list with the element appended |
| Containers.ElementThenTrailingComma | src/main/java/net/daboross/jsonserialization/JsonParser.java:391-395 | an element, `,` then `]` ends the list too: the trailing comma is accepted |
| Containers.ElementThenMore | src/main/java/net/daboross/jsonserialization/JsonParser.java:385-397 | an element, `,` and another unit continue the loop on that unit with the element appended |
| Containers.ElementThenOther | src/main/java/net/daboross/jsonserialization/JsonParser.java:400-401 | anything else after an element is "Expected a ',' or ']'" |
| Containers.ObjectRejects | src/main/java/net/daboross/jsonserialization/JsonParser.java:326-329 | an object that does not start with `{` is "Invalid json object", with that unit pushed back |
| Containers.ObjectOpens | src/main/java/net/daboross/jsonserialization/JsonParser.java:326-330 | after `{` the loop starts with an empty map |
| Containers.MembersClose | src/main/java/net/daboross/jsonserialization/JsonParser.java:333-334 | `}` where a key belongs ends the map as it is |
| Containers.EmptyObject | src/main/java/net/daboross/jsonserialization/JsonParser.java:326-334 | `{` then `}` is the empty map |
| Containers.MembersKey | src/main/java/net/daboross/jsonserialization/JsonParser.java:335-338 | any other unit starts a key: the item there, turned into text, or NullPointer for a `null` key |
| Containers.MemberMissingColon | src/main/java/net/daboross/jsonserialization/JsonParser.java:341-344 | a key not followed by `:` is "Expected `:` after key" |
| Containers.FreePut | src/main/java/net/daboross/jsonserialization/JsonParser.java:345 | `put` on a key that is absent or bound to `null` returns `null` |
| Containers.MemberDuplicate | src/main/java/net/daboross/jsonserialization/JsonParser.java:345-348 | a key already bound to a non-null value is "Expected unique key", raised after its new value |
| Containers.MemberThenClose | src/main/java/net/daboross/jsonserialization/JsonParser.java:351-360 | a member then `}` ends the map with the member put in |
| Containers.MemberThenTrailingComma | src/main/java/net/daboross/jsonserialization/JsonParser.java:353-356 | a member, `,` then `}` also ends the map: the trailing comma is accepted |
| Containers.MemberThenMore | src/main/java/net/daboross/jsonserialization/JsonParser.java:353-358 | a member, `,` and another unit continue the loop on that unit with the member put in |
| Containers.MemberThenOther | src/main/java/net/daboross/jsonserialization/JsonParser.java:361-362 | anything else after a member is "Expected `,` or `}`" |
| Rendering.HexEscape | src/main/java/net/daboross/jsonserialization/JsonSerialization.java:95-97 | the digits after `\u` are always four units |
| Rendering.HexEscapePadded | src/main/java/net/daboross/jsonserialization/JsonSerialization.java:95-97 | they are `toHexString` padded with zeros from `"0000"` |
| Rendering.HexEscapeParses | src/main/java/net/daboross/jsonserialization/JsonSerialization.java:93-98 | the four digits parse in radix 16 back to the unit written |
| Rendering.ElementsAdvance | src/main/java/net/daboross/jsonserialization/JsonSerialization.java:184-194 | after a finished element the rest of the array follows it; a failed element ends the text there |
| Rendering.ArrayEnds | src/main/java/net/daboross/jsonserialization/JsonSerialization.java:195-201 | after the elements, a line break and indent when the factor is positive, then `]` |
| Rendering.MembersAdvance | src/main/java/net/daboross/jsonserialization/JsonSerialization.java:141-157 | after a finished member the rest of the object follows it; a failed value ends the text there |
| Rendering.ObjectEnds | src/main/java/net/daboross/jsonserialization/JsonSerialization.java:158-164 | after two or more members, a line break and indent when the factor is positive, then `}` |
| Rendering.SingleMemberEnds | src/main/java/net/daboross/jsonserialization/JsonSerialization.java:131-138 | a single member is written on one line with no line break before `}` |
| JsonSerialization.Writer.Write | src/main/java/net/daboross/jsonserialization/JsonSerialization.java:51 | `write` appends exactly its text |
| JsonSerialization.WriteNumber | src/main/java/net/daboross/jsonserialization/JsonSerialization.java:47-52 | appends Java's text for the number and succeeds exactly when it is finite; on failure nothing is written |
| JsonSerialization.WriteString | src/main/java/net/daboross/jsonserialization/JsonSerialization.java:61-106 | the loop appends the quoted, escaped string |
| JsonSerialization.WriteEscaped | src/main/java/net/daboross/jsonserialization/JsonSerialization.java:65-102 | the switch appends the escape of one unit given the unit before it |
| JsonSerialization.WriteHex | src/main/java/net/daboross/jsonserialization/JsonSerialization.java:95-97 | appends the four padded hexadecimal digits |
| JsonSerialization.WriteIndent | src/main/java/net/daboross/jsonserialization/JsonSerialization.java:108-112 | the loop appends one space per unit of indent, none for a negative indent |
| JsonSerialization.WriteJsonValue | src/main/java/net/daboross/jsonserialization/JsonSerialization.java:216-233 | appends exactly the rendering of the value and reports whether it finished |
| JsonSerialization.WriteJsonObject | src/main/java/net/daboross/jsonserialization/JsonSerialization.java:125-165 | the entry loop appends exactly the rendering of the map, and stops at the first value that fails |
| JsonSerialization.WriteMember | src/main/java/net/daboross/jsonserialization/JsonSerialization.java:142-156 | one pass appends the member's head and its value |
| JsonSerialization.WriteJsonArray | src/main/java/net/daboross/jsonserialization/JsonSerialization.java:179-202 | the element loop appends exactly the rendering of the iterable, and stops at the first element that fails |
| Layout.ValueCompletes | src/main/java/net/daboross/jsonserialization/JsonSerialization.java:216-233 | `writeJsonValue` finishes exactly when no number inside the value is a non-finite double |
| Layout.ObjectCompletes | src/main/java/net/daboross/jsonserialization/JsonSerialization.java:125-165 | `writeJsonObject` finishes exactly when all member values are finite |
| Layout.MembersComplete | src/main/java/net/daboross/jsonserialization/JsonSerialization.java:141-157 | the entry loop finishes exactly when the remaining values are finite |
| Layout.ArrayCompletes | src/main/java/net/daboross/jsonserialization/JsonSerialization.java:179-202 | `writeJsonArray` finishes exactly when all elements are finite |
| Layout.ElementsComplete | src/main/java/net/daboross/jsonserialization/JsonSerialization.java:184-194 | the element loop finishes exactly when the remaining elements are finite |
| Layout.CompactRendering | src/test/java/net/daboross/jsonserialization/JsonReserializeTest.java:33-40 | with indent factor 0 at indent 0 a finite value is written as its compact form: no line breaks and no indentation, only bare `,` and `:` between the parts; an object at indent 0 is written so whatever the factor |
| Layout.CompactObject | src/main/java/net/daboross/jsonserialization/JsonSerialization.java:125-165 | an object with factor 0 is `{`, compact members separated by bare commas, `}` |
| Layout.CompactMembersRendering | src/main/java/net/daboross/jsonserialization/JsonSerialization.java:141-157 | with factor 0 the entry loop writes `"key":value` pairs with bare commas |
| Layout.CompactMemberStep | src/main/java/net/daboross/jsonserialization/JsonSerialization.java:142-156 | one compact pass: comma, quoted key, colon, compact value |
| Layout.CompactArray | src/main/java/net/daboross/jsonserialization/JsonSerialization.java:179-202 | an array with factor 0 is `[`, compact elements separated by bare commas, `]` |
| Layout.CompactElementsRendering | src/main/java/net/daboross/jsonserialization/JsonSerialization.java:184-194 | with factor 0 the element loop writes compact values with bare commas |
| Layout.EscapeUnitSafe | src/main/java/net/daboross/jsonserialization/JsonSerialization.java:65-102 | the escape of any unit has no control unit and no `</`; it ends in `<` only for `<` and starts with `/` only for a `/` not after `<` |
| Layout.EscapedSafe | src/main/java/net/daboross/jsonserialization/JsonSerialization.java:64-104 | the string body `writeString` writes has no unit below the space and never `</` |
| Layout.QuoteSafe | src/main/java/net/daboross/jsonserialization/JsonSerialization.java:61-106 | the whole quoted string has no raw line break and never `</` |
| RoundTrip.ControlLetterUnescapes | src/main/java/net/daboross/jsonserialization/JsonSerialization.java:77-91 | each two-unit escape the writer uses is one the parser decodes back to the same unit |
| RoundTrip.PlainStep | src/main/java/net/daboross/jsonserialization/JsonParser.java:228-231 | a unit needing no escape is copied into the string being read |
| RoundTrip.PairStep | src/main/java/net/daboross/jsonserialization/JsonParser.java:197-224 | a backslash and an escape letter are read as the unit the letter stands for |
| RoundTrip.HexDigitsRead | src/main/java/net/daboross/jsonserialization/JsonParser.java:216 | `next(4)` on a written `\u` escape reads its four digits |
| RoundTrip.HexStep | src/main/java/net/daboross/jsonserialization/JsonParser.java:215-217 | a written `\u` escape is read back as the unit it encodes, six units on |
| RoundTrip.UnitStep | src/main/java/net/daboross/jsonserialization/JsonSerialization.java:65-102 | whatever `writeString` wrote for a unit, the loop of `nextString` reads back that unit and moves exactly past it |
| RoundTrip.CloseStep | src/main/java/net/daboross/jsonserialization/JsonParser.java:228-229 | the closing quote ends the string with what was read |
| RoundTrip.EscapedRoundTrip | src/main/java/net/daboross/jsonserialization/JsonParser.java:191-233 | the loop of `nextString` decodes what the loop of `writeString` wrote for the rest of a string, and stops right after the closing quote |
| RoundTrip.StringRoundTrip | src/main/java/net/daboross/jsonserialization/JsonParser.java:184-234 | `nextString` on what `writeString(s)` wrote returns `s` and stops right after it |
| Reparse.WordsClassify | src/test/java/net/daboross/jsonserialization/JsonParserTest.java:58-63 | `true`, `false` and `null` are raw tokens read as their own literal |
| Reparse.DecimalClassify | src/test/java/net/daboross/jsonserialization/JsonParserTest.java:71-81 | the decimal text of an `int` reads as that `Integer`; of a `long` outside the `int` range, as that `Long` |
| Reparse.ScalarToken | src/main/java/net/daboross/jsonserialization/JsonParser.java:287-309 | what the writer writes for a literal or a readable number is a raw token classified as that value |
| Reparse.TokenRun | src/main/java/net/daboross/jsonserialization/JsonParser.java:274-277 | the token loop takes exactly a token that ends before a stopping unit or at the end of the input, and then stops past that unit or at the end with the end flag set |
| Reparse.ScalarReads | src/main/java/net/daboross/jsonserialization/JsonParser.java:266-310 | `nextRawString` reads a written literal or number back and pushes back the unit after it, or its own last unit when the text ends the input |
| Reparse.StringItemUnfold | src/main/java/net/daboross/jsonserialization/JsonParser.java:244-249 | `nextItem` on `"` pushes it back and reads a string |
| Reparse.RawItemUnfold | src/main/java/net/daboross/jsonserialization/JsonParser.java:244-256 | `nextItem` on any other non-blank unit that opens no container pushes it back and reads a raw token |
| Reparse.StringItemReads | src/main/java/net/daboross/jsonserialization/JsonParser.java:244-249 | `nextItem` reads back a written string and stops right after it |
| Reparse.ScalarItemReads | src/main/java/net/daboross/jsonserialization/JsonParser.java:244-256 | `nextItem` reads back a written literal or number, pushing back the unit after it, or its own last unit when the text ends the input |
| Reparse.WriteThenRead | src/test/java/net/daboross/jsonserialization/JsonReserializeTest.java:33-40 | a new parser on what `writeJsonValue` wrote for a string, literal or readable number, whatever the layout and whatever follows a string, returns that value; it stops right after a string, and after a literal or number it pushes back the unit after it, or its own last unit when nothing follows |
| Reserialize.ReadableFinite | src/main/java/net/daboross/jsonserialization/JsonSerialization.java:216-233 | a value the parser can produce holds no non-finite double, so the writer finishes on it |
| Reserialize.PutNew | src/main/java/net/daboross/jsonserialization/JsonParser.java:345 | `put` of a key not yet in the map appends the member at the end |
| Reserialize.KeyFree | src/main/java/net/daboross/jsonserialization/JsonParser.java:345-348 | with no key written twice, each key is free when its member is read, so no duplicate is reported and `put` appends the member |
| Reserialize.KeyRead | src/main/java/net/daboross/jsonserialization/JsonParser.java:335-338 | on a written key, the object loop reads it with `nextItem` and goes on right after its closing quote |
| Reserialize.ReadValue | src/main/java/net/daboross/jsonserialization/JsonParser.java:244-257 | `nextItem` reads a readable value back from its compact text and stops right after it (a literal or number before a unit that ends it) |
| Reserialize.ReadArray | src/main/java/net/daboross/jsonserialization/JsonParser.java:376-406 | `nextItem` reads an array back from its compact text and stops right after `]` |
| Reserialize.ArrayParsed | src/main/java/net/daboross/jsonserialization/JsonParser.java:376-406 | `parseJsonArray` on the compact text of an array returns its elements and stops right after `]` |
| Reserialize.ReadElements | src/main/java/net/daboross/jsonserialization/JsonParser.java:384-403 | the array loop started on element `j` of the compact text appends the elements from `j` on, in order, and stops right after `]` |
| Reserialize.LastElement | src/main/java/net/daboross/jsonserialization/JsonParser.java:385-399 | a pass on the last element appends it and ends the list right after `]` |
| Reserialize.NextElement | src/main/java/net/daboross/jsonserialization/JsonParser.java:385-397 | a pass on any other element appends it and continues on the next element |
| Reserialize.ReadObject | src/main/java/net/daboross/jsonserialization/JsonParser.java:321-365 | `nextItem` reads an object back from its compact text, its members in written order, and stops right after `}` |
| Reserialize.ReadMembers | src/main/java/net/daboross/jsonserialization/JsonParser.java:330-363 | the object loop started on member `j` of the compact text, holding the members before `j`, ends holding all of them in written order, right after `}` |
| Reserialize.LastMember | src/main/java/net/daboross/jsonserialization/JsonParser.java:335-360 | a pass on the last member puts it in and ends the map right after `}` |
| Reserialize.NextMember | src/main/java/net/daboross/jsonserialization/JsonParser.java:335-358 | a pass on any other member puts it in and continues on the next key |
| Reserialize.CompactThenRead | src/test/java/net/daboross/jsonserialization/JsonReserializeTest.java:33-40 | what `writeJsonValue(v, 0, 0)` writes for a readable value (its compact form), followed by the end of the input or anything that ends a raw token, a new parser's `nextItem` reads back as `v`, stopping right after its text, or on its own last unit for a literal or number at the end of the input |

## Left out

- I/O: the `Reader` and `Writer` are the input text and the `text` field. `IOException` is left out.
- The `JsonParser(String)` constructor is left out. It only wraps the string in a `StringReader`.
- Double parsing and printing are left out. `Double.valueOf` is a parameter (`doubleOf`) of the parser. A double is a value holding its Java text and whether it is finite, so `Double.toString` and `Double.isFinite` are that text and that flag.
- Digits in scripts other than ASCII are left out. `Integer.valueOf` also accepts other Unicode decimal digits, and `Integer.parseInt(next(4), 16)` in the `\u` escape (JsonParser.java:216) reads its digits with `Character.digit`, which also accepts those digits and the fullwidth Latin letters. The model accepts only ASCII `0`-`9`, `a`-`z` and `A`-`Z`.
- The `long` counters `index`, `characterNumber` and `lineNumber` are unbounded integers. They cannot overflow on any input that fits in memory.
- The texts of error messages are left out, and so are `getPositionString`, `syntaxError` and `toString`. A failure carries its kind and the position (index, column, line) at which it is raised.
- The `JsonException` class and its constructors are left out. It only holds a message.
- The "Invalid value" branch of `writeJsonValue` (JsonSerialization.java:229-230) is left out. The value type of the model is closed, so no value reaches it.
- `writeJsonObject` and `writeJsonArray` return the writer they were given. Their methods instead return whether they finished.
- Reparse.WriteThenRead: proved for strings, literals and numbers in any layout. Arrays and objects are proved to read back only from the compact text of indent factor 0 at indent 0 (`Reserialize.CompactThenRead`), which is what the reserialization test writes. The indented layouts, whose line breaks and spaces `nextClean` skips, are not proved.
- Reserialize.CompactThenRead: an object must not write the same key twice. The parser would merge or reject the repeated key, so such a value does not read back as itself. The direction from text to value and back to text is not proved either.
- Reparse.WriteThenRead: a number reads back only if the parser can produce it. A `long` outside the `int` range qualifies, and so does a double whose text `Double.valueOf` maps back to it. An `int`-sized `long` is read back as an `Integer`.
- Map iteration order is taken to be insertion order, as for the `LinkedHashMap` the parser builds. For other `Map` classes the writer's output order differs.
- The concrete JUnit tests (JsonParserTest, JsonReserializeTest, JsonDeserializeTest) are left out, including the files they read. The properties they check are stated as lemmas over all inputs.
