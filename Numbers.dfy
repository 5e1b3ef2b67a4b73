/** Java's integer text conversions as the codec uses them:
    `Integer.parseInt`/`Integer.valueOf`, `Long.valueOf`, `Integer.toString`,
    `Long.toString` and `Integer.toHexString`, over ASCII digits. */
module Numbers {
  import opened Wrappers
  import opened Text

  const INT_MIN: int := -0x8000_0000
  const INT_MAX: int := 0x7fff_ffff
  const LONG_MIN: int := -0x8000_0000_0000_0000
  const LONG_MAX: int := 0x7fff_ffff_ffff_ffff

  /** A Java `int`. */
  type Int32 = x: int | INT_MIN <= x <= INT_MAX

  /** A Java `long`. */
  type Int64 = x: int | LONG_MIN <= x <= LONG_MAX

  /** Java `int` addition: the sum taken modulo 2^32 into the `int` range. */
  function Wrap32(x: int): (r: Int32)
    ensures INT_MIN <= x <= INT_MAX ==> r == x
    ensures (x - r) % 0x1_0000_0000 == 0
  {
    (x - INT_MIN) % 0x1_0000_0000 + INT_MIN
  }

  const ZERO: CodeUnit := 0x30

  /** `Character.digit(u, radix)` for ASCII units: the digit's value, or -1
      when `u` is not a digit of that radix. */
  function Digit(u: CodeUnit, radix: int): (d: int)
    requires 2 <= radix <= 36
    ensures -1 <= d < radix
  {
    var v := if 0x30 <= u <= 0x39 then u as int - 0x30
             else if 0x61 <= u <= 0x7a then u as int - 0x61 + 10
             else if 0x41 <= u <= 0x5a then u as int - 0x41 + 10
             else -1;
    if v < radix then v else -1
  }

  /** `Character.forDigit(d, radix)`: lower-case letters above nine. */
  function DigitUnit(d: nat, radix: int): (u: CodeUnit)
    requires 2 <= radix <= 36 && d < radix
    ensures Digit(u, radix) == d
  {
    if d < 10 then (0x30 + d) as CodeUnit else (0x61 + d - 10) as CodeUnit
  }

  /** The digits of a radix are exactly the units `forDigit` writes and the
      upper-case forms of its letters, and an upper-case letter has the
      value of its lower-case form. */
  lemma DigitCases(u: CodeUnit, radix: int)
    requires 2 <= radix <= 36
    ensures Digit(u, radix) >= 0 ==>
      || u == DigitUnit(Digit(u, radix), radix)
      || u as int == DigitUnit(Digit(u, radix), radix) as int - 0x20
    ensures 0x41 <= u <= 0x5a ==> Digit(u, radix) == Digit((u as int + 0x20) as CodeUnit, radix)
  {
  }

  /** The value of a non-empty run of digits, most significant first. */
  function DigitsValue(t: Text, radix: int): Option<nat>
    requires 2 <= radix <= 36
  {
    if |t| == 0 then None
    else
      var d := Digit(t[|t| - 1], radix);
      if d < 0 then None
      else if |t| == 1 then Some(d)
      else match DigitsValue(t[..|t| - 1], radix)
        case None => None
        case Some(high) => Some(high * radix + d)
  }

  /** What `Integer.parseInt` accepts before its range check: an optional
      `-` or `+` followed by at least one digit. */
  function SignedValue(t: Text, radix: int): Option<int>
    requires 2 <= radix <= 36
  {
    if |t| == 0 then None
    else if t[0] == MINUS || t[0] == PLUS then
      if |t| == 1 then None
      else match DigitsValue(t[1..], radix)
        case None => None
        case Some(m) => Some(if t[0] == MINUS then -(m as int) else m as int)
    else match DigitsValue(t, radix)
      case None => None
      case Some(m) => Some(m)
  }

  /** `Integer.parseInt(t, radix)`; `None` stands for NumberFormatException. */
  function ParseInt(t: Text, radix: int): (r: Option<Int32>)
    requires 2 <= radix <= 36
    ensures r.Some? <==> SignedValue(t, radix).Some? && INT_MIN <= SignedValue(t, radix).value <= INT_MAX
    ensures r.Some? ==> r.value == SignedValue(t, radix).value
  {
    match SignedValue(t, radix)
    case None => None
    case Some(n) => if INT_MIN <= n <= INT_MAX then Some(n) else None
  }

  /** `Long.parseLong(t, radix)`; `None` stands for NumberFormatException. */
  function ParseLong(t: Text, radix: int): (r: Option<Int64>)
    requires 2 <= radix <= 36
    ensures r.Some? <==> SignedValue(t, radix).Some? && LONG_MIN <= SignedValue(t, radix).value <= LONG_MAX
    ensures r.Some? ==> r.value == SignedValue(t, radix).value
  {
    match SignedValue(t, radix)
    case None => None
    case Some(n) => if LONG_MIN <= n <= LONG_MAX then Some(n) else None
  }

  /** The digits of `n` in `radix`, most significant first, without leading
      zeros ("0" for zero). */
  function Digits(n: nat, radix: int): (t: Text)
    requires 2 <= radix <= 36
    ensures |t| >= 1
    ensures forall k :: 0 <= k < |t| ==> Digit(t[k], radix) >= 0
    ensures n > 0 ==> t[0] != ZERO
  {
    if n < radix then [DigitUnit(n, radix)]
    else
      DivisionFacts(n, radix);
      Digits(n / radix, radix) + [DigitUnit(n % radix, radix)]
  }

  lemma DivisionFacts(n: nat, radix: int)
    requires 2 <= radix <= n
    ensures 1 <= n / radix < n && 0 <= n % radix < radix
    ensures n == n / radix * radix + n % radix
  {
  }

  /** `Integer.toString(n)` / `Long.toString(n)`. */
  function DecimalText(n: int): (t: Text)
  {
    if n < 0 then [MINUS] + Digits(-n, 10) else Digits(n, 10)
  }

  /** `Integer.toHexString(n)` for a non-negative `n`. */
  function HexText(n: nat): Text
  {
    Digits(n, 16)
  }

  /** Reading back the digits of a number gives the number. */
  lemma {:induction false} DigitsRoundTrip(n: nat, radix: int)
    requires 2 <= radix <= 36
    ensures DigitsValue(Digits(n, radix), radix) == Some(n)
  {
    if n >= radix {
      var t := Digits(n, radix);
      DivisionFacts(n, radix);
      DigitsRoundTrip(n / radix, radix);
      assert t[..|t| - 1] == Digits(n / radix, radix);
    }
  }

  /** `Integer.valueOf(Integer.toString(n)) == n`, and the same for `long`,
      before the range check. */
  lemma DecimalRoundTrip(n: int)
    ensures SignedValue(DecimalText(n), 10) == Some(n)
  {
    var t := DecimalText(n);
    if n < 0 {
      var d := Digits(-n, 10);
      DigitsRoundTrip(-n, 10);
      assert t[0] == MINUS && |t| > 1 && t[1..] == d;
      assert SignedValue(t, 10) == Some(-(-n));
    } else {
      DigitsRoundTrip(n, 10);
      assert Digit(t[0], 10) >= 0 && t[0] != MINUS && t[0] != PLUS;
    }
  }

  /** A decimal text starts with a minus sign or a decimal digit. */
  lemma DecimalTextShape(n: int)
    ensures |DecimalText(n)| >= 1
    ensures DecimalText(n)[0] == MINUS || 0x30 <= DecimalText(n)[0] <= 0x39
    ensures forall k :: 0 < k < |DecimalText(n)| ==> 0x30 <= DecimalText(n)[k] <= 0x39
  {
    var t := DecimalText(n);
    var d := if n < 0 then Digits(-n, 10) else Digits(n, 10);
    forall k | 0 <= k < |d| ensures 0x30 <= d[k] <= 0x39 {
      assert Digit(d[k], 10) >= 0;
    }
    if n < 0 {
      assert forall k :: 0 < k < |t| ==> t[k] == d[k - 1];
    }
  }

  /** Leading zeros do not change the value of a run of digits. */
  lemma {:induction false} LeadingZeros(k: nat, t: Text, radix: int)
    requires 2 <= radix <= 36 && |t| >= 1
    ensures DigitsValue(Repeat(ZERO, k) + t, radix) == DigitsValue(t, radix)
  {
    var z := Repeat(ZERO, k);
    if |t| == 1 {
      if k > 0 {
        ZerosValue(k, radix);
        assert (z + t)[..|z + t| - 1] == z;
      }
    } else {
      LeadingZeros(k, t[..|t| - 1], radix);
      assert (z + t)[..|z + t| - 1] == z + t[..|t| - 1];
    }
  }

  lemma {:induction false} ZerosValue(k: nat, radix: int)
    requires 2 <= radix <= 36 && k >= 1
    ensures DigitsValue(Repeat(ZERO, k), radix) == Some(0)
  {
    if k > 1 {
      ZerosValue(k - 1, radix);
      assert Repeat(ZERO, k)[..k - 1] == Repeat(ZERO, k - 1);
    }
  }

  /** A code unit needs at most four hexadecimal digits. */
  lemma HexTextShort(n: nat)
    requires n < 0x1_0000
    ensures |HexText(n)| <= 4
  {
    var a := n / 16;
    var b := a / 16;
    var c := b / 16;
    assert c < 16;
    assert |Digits(c, 16)| == 1;
    assert |Digits(b, 16)| <= 2;
    assert |Digits(a, 16)| <= 3;
  }

  /** The four-digit, zero-padded hexadecimal form of a code unit, as the
      writer produces it, parses back to that unit. */
  lemma PaddedHexRoundTrip(n: nat)
    requires n < 0x1_0000
    ensures |Repeat(ZERO, 4 - |HexText(n)|) + HexText(n)| == 4
    ensures ParseInt(Repeat(ZERO, 4 - |HexText(n)|) + HexText(n), 16) == Some(n)
  {
    HexTextShort(n);
    var t := Repeat(ZERO, 4 - |HexText(n)|) + HexText(n);
    LeadingZeros(4 - |HexText(n)|, HexText(n), 16);
    DigitsRoundTrip(n, 16);
    assert Digit(t[0], 16) >= 0 by {
      if 4 - |HexText(n)| > 0 {
        assert t[0] == ZERO;
      } else {
        assert t[0] == HexText(n)[0];
      }
    }
  }
}
