/** Bytes, the ASCII characters the C sources name, and decimal and hexadecimal digits. */
module Bytes {
  type byte = x: int | 0 <= x < 256
  type bytes = seq<byte>
  /** A sixteen-bit code unit. */
  type unit16 = x: int | 0 <= x < 0x1_0000

  const NUL: byte := 0
  const BACKSPACE: byte := 0x08
  const TAB: byte := 0x09
  const LINEFEED: byte := 0x0A
  const FORMFEED: byte := 0x0C
  const RETURN: byte := 0x0D
  const SPACE: byte := 0x20
  const QUOTE: byte := 0x22
  const STAR: byte := 0x2A
  const PLUS: byte := 0x2B
  const COMMA: byte := 0x2C
  const MINUS: byte := 0x2D
  const DOT: byte := 0x2E
  const ZERO: byte := 0x30
  const NINE: byte := 0x39
  const COLON: byte := 0x3A
  const EQUALS: byte := 0x3D
  const UPPER_E: byte := 0x45
  const UPPER_T: byte := 0x54
  const UPPER_Z: byte := 0x5A
  const LBRACKET: byte := 0x5B
  const BACKSLASH: byte := 0x5C
  const RBRACKET: byte := 0x5D
  const LOWER_B: byte := 0x62
  const LOWER_E: byte := 0x65
  const LOWER_F: byte := 0x66
  const LOWER_N: byte := 0x6E
  const LOWER_R: byte := 0x72
  const LOWER_T: byte := 0x74
  const LOWER_U: byte := 0x75
  const LBRACE: byte := 0x7B
  const RBRACE: byte := 0x7D

  predicate IsDigit(c: byte) {
    ZERO <= c <= NINE
  }

  predicate IsHex(c: byte) {
    IsDigit(c) || 0x41 <= c <= 0x46 || 0x61 <= c <= 0x66
  }

  function HexValue(c: byte): (d: nat)
    requires IsHex(c)
    ensures d < 16
  {
    if IsDigit(c) then c - ZERO else if c <= 0x46 then c - 0x41 + 10 else c - 0x61 + 10
  }

  /** The lower-case digit of printf's "%x". */
  function HexDigit(d: nat): (c: byte)
    requires d < 16
    ensures IsHex(c) && HexValue(c) == d
  {
    if d < 10 then ZERO + d else 0x61 + d - 10
  }

  /** Every byte of t is a decimal digit. */
  predicate AllDigits(t: bytes) {
    forall i :: 0 <= i < |t| ==> IsDigit(t[i])
  }

  /** The number a digit string denotes in base ten; the empty string denotes zero. */
  function DigitsValue(t: bytes): nat
    requires AllDigits(t)
  {
    if t == [] then 0 else 10 * DigitsValue(t[..|t| - 1]) + (t[|t| - 1] - ZERO)
  }

  /** One digit more. */
  lemma {:induction false} DigitsAppend(t: bytes, c: byte)
    requires AllDigits(t) && IsDigit(c)
    ensures AllDigits(t + [c]) && DigitsValue(t + [c]) == 10 * DigitsValue(t) + (c - ZERO)
  {
    assert (t + [c])[..|t|] == t;
  }

  /** The canonical decimal digits of n. */
  function Digits(n: nat): (t: bytes)
    ensures t != [] && IsDigit(t[0])
    ensures n > 0 ==> t[0] != ZERO
    ensures n == 0 ==> t == [ZERO]
  {
    if n < 10 then [ZERO + n] else Digits(n / 10) + [ZERO + n % 10]
  }

  lemma {:induction false} DigitsRoundTrip(n: nat)
    ensures AllDigits(Digits(n)) && DigitsValue(Digits(n)) == n
  {
    if n >= 10 {
      DigitsRoundTrip(n / 10);
      var t := Digits(n);
      assert t[..|t| - 1] == Digits(n / 10);
    } else {
      assert Digits(n)[..0] == [];
    }
  }

  /** printf's "%d". */
  function DecimalText(n: int): (t: bytes)
    ensures t != [] && (IsDigit(t[0]) || t[0] == MINUS)
  {
    if n < 0 then [MINUS] + Digits(-n) else Digits(n)
  }
}
