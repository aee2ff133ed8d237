/**
 * Concrete inputs to parse and what it makes of them, in both byte orders where the order
 * matters. Each is derived from the per-escape lemmas.
 */
module EscapeExamples {
  import opened Wrappers
  import opened Bytes
  import opened Endian
  import opened Escape
  import opened EscapeProperties
  import opened Sequences

  // ASCII digits and letters used below.
  const C0: byte := 0x30
  const C1: byte := 0x31
  const C4: byte := 0x34
  const LOWER_Q: byte := 0x71
  const UPPER_Z: byte := 0x5A

  lemma HexValueOfPair(h: byte, l: byte)
    requires IsHexDigit(h) && IsHexDigit(l)
    ensures HexValue([h, l]) == 16 * DigitValue(h) + DigitValue(l)
  {
    assert [h, l][..1] == [h];
    assert [h][..0] == [];
  }

  /** `\x41` is the byte 0x41. */
  lemma HexByteExample(cfg: Config)
    ensures Decode([BACKSLASH, LOWER_X, C4, C1], cfg) == Decoded([0x41])
  {
    DecodeHexByte(C4, C1, [], cfg);
    assert [BACKSLASH, LOWER_X, C4, C1] + [] == [BACKSLASH, LOWER_X, C4, C1];
  }

  /** `\\x41`: the first backslash is kept as it is and the second one starts `\x41`. */
  lemma DoubledBackslashExample(cfg: Config)
    ensures Decode([BACKSLASH, BACKSLASH, LOWER_X, C4, C1], cfg) == Decoded([BACKSLASH, 0x41])
  {
    DecodeOtherEscape(BACKSLASH, [LOWER_X, C4, C1], cfg);
    assert [BACKSLASH, BACKSLASH] + [LOWER_X, C4, C1] == [BACKSLASH, BACKSLASH, LOWER_X, C4, C1];
    assert [BACKSLASH] + [LOWER_X, C4, C1] == [BACKSLASH, LOWER_X, C4, C1];
    HexByteExample(cfg);
  }

  /** `\x4` followed by a line feed byte: `int` ignores the trailing whitespace and reads 4. */
  lemma HexDigitThenSpaceExample(cfg: Config)
    ensures Decode([BACKSLASH, LOWER_X, C4, LF], cfg) == Decoded([0x04])
  {
    DecodeHexEscape([C4, LF], cfg);
    assert [C4, LF][2..] == [];
  }

  /** `\x-1`: `int` reads -1, which is no byte, so the text is kept as it is. */
  lemma NegativeHexExample(cfg: Config)
    ensures Decode([BACKSLASH, LOWER_X, MINUS, C1], cfg) == Decoded([BACKSLASH, LOWER_X, MINUS, C1])
  {
    var tail := [LOWER_X, MINUS, C1];
    assert IntHexPair(MINUS, C1) == Some(-1);
    assert [BACKSLASH, LOWER_X] + [MINUS, C1] == [BACKSLASH] + tail;
    assert [LOWER_X] + [MINUS, C1] == tail;
    DecodeHexEscape([MINUS, C1], cfg);
    DecodeWithoutBackslash(tail, cfg);
    assert [BACKSLASH] + tail == [BACKSLASH, LOWER_X, MINUS, C1];
  }

  /** `\q` is no escape: both bytes are kept. */
  lemma UnknownEscapeExample(cfg: Config)
    ensures Decode([BACKSLASH, LOWER_Q], cfg) == Decoded([BACKSLASH, LOWER_Q])
  {
    DecodeOtherEscape(LOWER_Q, [], cfg);
    assert [BACKSLASH, LOWER_Q] + [] == [BACKSLASH, LOWER_Q];
    DecodeWithoutBackslash([LOWER_Q], cfg);
    assert [LOWER_Q] + [] == [LOWER_Q];
  }

  /** A trailing `\0` makes parse raise IndexError, whatever comes before it. */
  lemma TrailingNulExample(cfg: Config)
    ensures Decode([BACKSLASH, DIGIT_ZERO], cfg) == IndexError
    ensures Decode([LOWER_X, BACKSLASH, DIGIT_ZERO], cfg) == IndexError
  {
    DecodeRaisesIffTrailingNul([BACKSLASH, DIGIT_ZERO], cfg);
    DecodeRaisesIffTrailingNul([LOWER_X, BACKSLASH, DIGIT_ZERO], cfg);
  }

  /** `\0x` with nothing after it: the `x` is too close to the end, so `\0` is a NUL byte. */
  lemma ShortNulExample(cfg: Config)
    ensures Decode([BACKSLASH, DIGIT_ZERO, LOWER_X], cfg) == Decoded([NUL, LOWER_X])
  {
    DecodeNulEscape([LOWER_X], cfg);
    assert [BACKSLASH, DIGIT_ZERO] + [LOWER_X] == [BACKSLASH, DIGIT_ZERO, LOWER_X];
    DecodeWithoutBackslash([LOWER_X], cfg);
  }

  /** The run `041` denotes 0x41, which takes two bytes in either order. */
  lemma ThreeDigitRunBytes(order: ByteOrder)
    ensures HexValue([C0, C4, C1]) == 0x41
    ensures RunBytes(0x41, 3, order) == if order == Big then [0x00, 0x41] else [0x41, 0x00]
  {
    var digits := [C0, C4, C1];
    assert digits[..2] == [C0, C4];
    HexValueOfPair(C0, C4);
    assert BigEndian(0x41, 2) == BigEndian(0, 1) + [0x41];
    assert BigEndian(0, 1) == BigEndian(0, 0) + [0];
    assert LittleEndian(0x41, 2) == [0x41] + LittleEndian(0, 1);
    assert LittleEndian(0, 1) == [0] + LittleEndian(0, 0);
  }

  /** The run `41` denotes 0x41, which takes one byte. */
  lemma TwoDigitRunBytes(order: ByteOrder)
    ensures HexValue([C4, C1]) == 0x41
    ensures RunBytes(0x41, 2, order) == [0x41]
  {
    HexValueOfPair(C4, C1);
    assert BigEndian(0x41, 1) == BigEndian(0, 0) + [0x41];
    assert LittleEndian(0x41, 1) == [0x41] + LittleEndian(0, 0);
  }

  /** `\0x41`: two digits make one byte, in either byte order. */
  lemma HexRunTwoDigitsExample(cfg: Config)
    ensures Decode([BACKSLASH, DIGIT_ZERO, LOWER_X, C4, C1], cfg) == Decoded([0x41])
  {
    TwoDigitRunBytes(cfg.order);
    AppendEmpty([BACKSLASH, DIGIT_ZERO, LOWER_X], [C4, C1]);
    assert [BACKSLASH, DIGIT_ZERO, LOWER_X] + [C4, C1] == [BACKSLASH, DIGIT_ZERO, LOWER_X, C4, C1];
    DecodeHexRun([C4, C1], [], cfg);
  }

  /** `\0x041`: three digits make two bytes, whose order follows the configuration. */
  lemma HexRunThreeDigitsExample(cfg: Config)
    ensures Decode([BACKSLASH, DIGIT_ZERO, LOWER_X, C0, C4, C1], cfg)
         == Decoded(if cfg.order == Big then [0x00, 0x41] else [0x41, 0x00])
  {
    ThreeDigitRunBytes(cfg.order);
    AppendEmpty([BACKSLASH, DIGIT_ZERO, LOWER_X], [C0, C4, C1]);
    assert [BACKSLASH, DIGIT_ZERO, LOWER_X] + [C0, C4, C1] == [BACKSLASH, DIGIT_ZERO, LOWER_X, C0, C4, C1];
    DecodeHexRun([C0, C4, C1], [], cfg);
  }

  /** `ZZ` is alphanumeric but no number `int(_, 16)` accepts. */
  lemma LettersRejected(cfg: Config)
    ensures forall k | 0 <= k < |[UPPER_Z, UPPER_Z]| :: IsAlnum([UPPER_Z, UPPER_Z][k], cfg)
    ensures IntHexRun([UPPER_Z, UPPER_Z]).None?
  {
    assert !IsHexDigit([UPPER_Z, UPPER_Z][0]);
  }

  /** `\0xZZ`: `int` rejects the run, so only the backslash is consumed and all five bytes are kept. */
  lemma BadHexRunExample(cfg: Config)
    ensures Decode([BACKSLASH, DIGIT_ZERO, LOWER_X, UPPER_Z, UPPER_Z], cfg)
         == Decoded([BACKSLASH, DIGIT_ZERO, LOWER_X, UPPER_Z, UPPER_Z])
  {
    var run := [UPPER_Z, UPPER_Z];
    var tail := [DIGIT_ZERO, LOWER_X, UPPER_Z, UPPER_Z];
    AppendEmpty([BACKSLASH, DIGIT_ZERO, LOWER_X], run);
    AppendEmpty([DIGIT_ZERO, LOWER_X], run);
    assert [BACKSLASH, DIGIT_ZERO, LOWER_X] + run == [BACKSLASH] + tail;
    assert [DIGIT_ZERO, LOWER_X] + run == tail;
    LettersRejected(cfg);
    DecodeBadHexRun(run, [], cfg);
    DecodeWithoutBackslash(tail, cfg);
    assert [BACKSLASH] + tail == [BACKSLASH, DIGIT_ZERO, LOWER_X, UPPER_Z, UPPER_Z];
  }
}
