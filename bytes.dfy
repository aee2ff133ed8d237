/**
 * Bytes, hexadecimal digits and the two shapes of Python's `int(text, 16)` that the
 * escape decoder relies on, plus the `hex()` rendering used by the ASCII-only filter.
 */
module Bytes {
  import opened Wrappers

  type byte = b: int | 0 <= b < 256

  // ASCII codes the decoder and the filter test for.
  const NUL: byte := 0x00
  const LF: byte := 0x0A
  const CR: byte := 0x0D
  const PLUS: byte := 0x2B
  const MINUS: byte := 0x2D
  const DIGIT_ZERO: byte := 0x30
  const UPPER_X: byte := 0x58
  const OPEN_BRACKET: byte := 0x5B
  const BACKSLASH: byte := 0x5C
  const CLOSE_BRACKET: byte := 0x5D
  const LOWER_N: byte := 0x6E
  const LOWER_R: byte := 0x72
  const LOWER_X: byte := 0x78

  predicate IsDigit(b: byte) { 0x30 <= b <= 0x39 }
  predicate IsAsciiLetter(b: byte) { 0x41 <= b <= 0x5A || 0x61 <= b <= 0x7A }
  predicate IsAsciiAlnum(b: byte) { IsDigit(b) || IsAsciiLetter(b) }

  /** The whitespace Python strips around the text given to `int`: space, \t, \n, \v, \f, \r. */
  predicate IsPySpace(b: byte) { b == 0x20 || 0x09 <= b <= 0x0D }

  /** 0-9, A-F and a-f: the digits `int(_, 16)` accepts. */
  predicate IsHexDigit(b: byte) { IsDigit(b) || 0x41 <= b <= 0x46 || 0x61 <= b <= 0x66 }

  predicate AllHex(s: seq<byte>) { forall k | 0 <= k < |s| :: IsHexDigit(s[k]) }

  function DigitValue(b: byte): (v: nat)
    requires IsHexDigit(b)
    ensures v < 16
  {
    if b <= 0x39 then b - 0x30 else if b <= 0x46 then b - 0x41 + 10 else b - 0x61 + 10
  }

  /** The lower-case digit Python's `hex()` writes for a value below 16. */
  function LowerDigit(v: nat): (b: byte)
    requires v < 16
    ensures IsHexDigit(b) && DigitValue(b) == v
    ensures 0x30 <= b <= 0x39 || 0x61 <= b <= 0x66
  {
    if v < 10 then 0x30 + v else 0x61 + v - 10
  }

  function Pow16(n: nat): (p: nat)
    ensures p >= 1
  {
    if n == 0 then 1 else 16 * Pow16(n - 1)
  }

  /** The number a run of hexadecimal digits denotes, most significant digit first. */
  function HexValue(s: seq<byte>): (v: nat)
    requires AllHex(s)
    ensures v < Pow16(|s|)
  {
    if s == [] then 0 else HexValue(s[..|s| - 1]) * 16 + DigitValue(s[|s| - 1])
  }

  lemma {:induction false} Pow16Monotone(m: nat, n: nat)
    requires m <= n
    ensures Pow16(m) <= Pow16(n)
  {
    if m < n {
      Pow16Monotone(m, n - 1);
    }
  }

  /**
   * `int(c0 + c1, 16)` for a two-byte text: two digits, a sign and a digit, or a digit with
   * whitespace on one side. Any other pair raises ValueError (None here).
   */
  function IntHexPair(c0: byte, c1: byte): (r: Option<int>)
    ensures r.Some? ==> -15 <= r.value <= 255
    ensures r.Some? ==> IsHexDigit(c0) || IsHexDigit(c1)
    ensures r.Some? && r.value < 0 ==> c0 == MINUS
  {
    if IsHexDigit(c0) && IsHexDigit(c1) then Some(DigitValue(c0) * 16 + DigitValue(c1))
    else if IsHexDigit(c1) && (c0 == PLUS || IsPySpace(c0)) then Some(DigitValue(c1))
    else if IsHexDigit(c1) && c0 == MINUS then Some(0 - DigitValue(c1) as int)
    else if IsHexDigit(c0) && IsPySpace(c1) then Some(DigitValue(c0))
    else None
  }

  /**
   * `int(run, 16)` for a run of alphanumeric bytes (no sign, space or underscore can occur
   * in it): the run is hexadecimal digits, or `0x`/`0X` followed by hexadecimal digits.
   */
  function IntHexRun(run: seq<byte>): (r: Option<nat>)
    ensures r.Some? ==> r.value < Pow16(|run|)
    ensures r.Some? ==> |run| > 0
  {
    if |run| > 0 && AllHex(run) then Some(HexValue(run))
    else if |run| > 2 && run[0] == DIGIT_ZERO && (run[1] == LOWER_X || run[1] == UPPER_X) && AllHex(run[2..]) then
      Pow16Monotone(|run| - 2, |run|);
      Some(HexValue(run[2..]))
    else None
  }

  /** The digits of Python's `hex(n)` after its `0x` prefix: lower case, no padding. */
  function HexDigits(n: nat): (s: seq<byte>)
    ensures |s| > 0 && AllHex(s)
    ensures forall k | 0 <= k < |s| :: 0x30 <= s[k] <= 0x39 || 0x61 <= s[k] <= 0x66
    ensures n < Pow16(|s|)
    ensures n > 0 ==> s[0] != DIGIT_ZERO
  {
    if n < 16 then [LowerDigit(n)] else HexDigits(n / 16) + [LowerDigit(n % 16)]
  }

  /** What `hex()` writes is what `int(_, 16)` reads back. */
  lemma {:induction false} HexDigitsRoundTrip(n: nat)
    ensures HexValue(HexDigits(n)) == n
  {
    if n >= 16 {
      HexDigitsRoundTrip(n / 16);
      var s := HexDigits(n);
      assert s[..|s| - 1] == HexDigits(n / 16);
    }
  }

  /** A byte needs at most two hexadecimal digits. */
  lemma {:induction false} HexDigitsOfByte(b: byte)
    ensures |HexDigits(b)| == (if b < 16 then 1 else 2)
  {
    if b >= 16 {
      assert b / 16 < 16;
    }
  }
}
