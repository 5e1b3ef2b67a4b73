/** Java text as this codec sees it: a `char` is a UTF-16 code unit, so a
    string is a sequence of 16-bit units and may hold lone surrogates. */
module Text {

  /** A Java `char`. */
  newtype CodeUnit = x: int | 0 <= x < 0x1_0000

  /** A Java `String` or the contents of a `StringBuilder`. */
  type Text = seq<CodeUnit>

  const BACKSPACE: CodeUnit := 0x08   // \b
  const TAB: CodeUnit := 0x09         // \t
  const LF: CodeUnit := 0x0a          // \n
  const FORMFEED: CodeUnit := 0x0c    // \f
  const CR: CodeUnit := 0x0d          // \r
  const SPACE: CodeUnit := 0x20
  const QUOTE: CodeUnit := 0x22       // "
  const HASH: CodeUnit := 0x23        // #
  const APOSTROPHE: CodeUnit := 0x27  // '
  const PLUS: CodeUnit := 0x2b        // +
  const COMMA: CodeUnit := 0x2c       // ,
  const MINUS: CodeUnit := 0x2d       // -
  const SLASH: CodeUnit := 0x2f       // /
  const COLON: CodeUnit := 0x3a       // :
  const LESS: CodeUnit := 0x3c        // <
  const EQUALS: CodeUnit := 0x3d      // =
  const LBRACKET: CodeUnit := 0x5b    // [
  const BACKSLASH: CodeUnit := 0x5c   // \
  const RBRACKET: CodeUnit := 0x5d    // ]
  const LBRACE: CodeUnit := 0x7b      // {
  const RBRACE: CodeUnit := 0x7d      // }

  /** The letters that follow a backslash in the two-unit escapes. */
  const LETTER_B: CodeUnit := 0x62
  const LETTER_F: CodeUnit := 0x66
  const LETTER_N: CodeUnit := 0x6e
  const LETTER_R: CodeUnit := 0x72
  const LETTER_T: CodeUnit := 0x74
  const LETTER_U: CodeUnit := 0x75

  /** The words of the three JSON literals. */
  const NULL_WORD: Text := [0x6e, 0x75, 0x6c, 0x6c]
  const TRUE_WORD: Text := [0x74, 0x72, 0x75, 0x65]
  const FALSE_WORD: Text := [0x66, 0x61, 0x6c, 0x73, 0x65]

  /** `n` copies of the unit `u`. */
  function Repeat(u: CodeUnit, n: int): (t: Text)
    ensures |t| == if n < 0 then 0 else n
    ensures forall k :: 0 <= k < |t| ==> t[k] == u
  {
    if n <= 0 then [] else [u] + Repeat(u, n - 1)
  }

  lemma AppendAssociates(a: Text, b: Text, c: Text)
    ensures a + (b + c) == a + b + c
  {
  }
}
