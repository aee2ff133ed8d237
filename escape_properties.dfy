/** What parse promises about its output, stated over the specification `Decode`. */
module EscapeProperties {
  import opened Wrappers
  import opened Bytes
  import opened Escape
  import opened Sequences

  /** Input with no backslash in it is returned unchanged. */
  lemma {:induction false} DecodeWithoutBackslash(s: seq<byte>, cfg: Config)
    requires BACKSLASH !in s
    ensures Decode(s, cfg) == Decoded(s)
  {
    if s != [] {
      assert s[1..] == s[NextToken(s, cfg).consumed..];
      DecodeWithoutBackslash(s[1..], cfg);
    }
  }

  predicate EndsWithNulEscape(s: seq<byte>) {
    |s| >= 2 && s[|s| - 2] == BACKSLASH && s[|s| - 1] == DIGIT_ZERO
  }

  /** No token reaches across a trailing `\0`: the scan always lands on its backslash. */
  lemma TokenStopsBeforeTrailingNul(s: seq<byte>, cfg: Config)
    requires s != [] && EndsWithNulEscape(s) && NextToken(s, cfg).Token?
    ensures NextToken(s, cfg).consumed <= |s| - 2
  {
    if s[0] == BACKSLASH && s[1] == DIGIT_ZERO && s[2] == LOWER_X && 3 < |s| {
      var a := AlnumRun(s[3..], cfg);
      assert !IsAlnum(BACKSLASH, cfg);
    }
  }

  /** parse raises IndexError exactly when its input ends with a backslash followed by `0`. */
  lemma {:induction false} DecodeRaisesIffTrailingNul(s: seq<byte>, cfg: Config)
    ensures Decode(s, cfg).IndexError? <==> EndsWithNulEscape(s)
  {
    if s != [] {
      var t := NextToken(s, cfg);
      if t.Token? {
        var rest := s[t.consumed..];
        DecodeRaisesIffTrailingNul(rest, cfg);
        if EndsWithNulEscape(s) {
          TokenStopsBeforeTrailingNul(s, cfg);
          assert rest[|rest| - 2] == s[|s| - 2] && rest[|rest| - 1] == s[|s| - 1];
        }
        if EndsWithNulEscape(rest) {
          assert rest[|rest| - 2] == s[|s| - 2] && rest[|rest| - 1] == s[|s| - 1];
        }
      }
    }
  }

  /** On one token followed by more input, the scan emits the token and decodes the rest. */
  lemma DecodeTokenThenRest(s: seq<byte>, rest: seq<byte>, cfg: Config)
    requires s != [] && NextToken(s + rest, cfg).Token? && NextToken(s + rest, cfg).consumed == |s|
    ensures Decode(s + rest, cfg) == Prepend(NextToken(s + rest, cfg).bytes, Decode(rest, cfg))
  {
    assert (s + rest)[|s|..] == rest;
  }

  /** A byte that does not open an escape, or a lone final backslash, is copied as it is. */
  lemma DecodePlainByte(b: byte, rest: seq<byte>, cfg: Config)
    requires b != BACKSLASH || rest == []
    ensures Decode([b] + rest, cfg) == Prepend([b], Decode(rest, cfg))
  {
    DecodeTokenThenRest([b], rest, cfg);
  }

  /** `\x` and two hexadecimal digits give the byte they spell and consume all four bytes. */
  lemma DecodeHexByte(h: byte, l: byte, rest: seq<byte>, cfg: Config)
    requires IsHexDigit(h) && IsHexDigit(l)
    ensures Decode([BACKSLASH, LOWER_X, h, l] + rest, cfg)
         == Prepend([16 * DigitValue(h) + DigitValue(l)], Decode(rest, cfg))
  {
    DecodeTokenThenRest([BACKSLASH, LOWER_X, h, l], rest, cfg);
  }

  /**
   * `\x` in general: when the next two bytes are something `int(_, 16)` reads as a value
   * from 0 to 255 (also a sign or surrounding whitespace), that byte is emitted; otherwise
   * only the backslash is, and the scan resumes at the `x`.
   */
  lemma DecodeHexEscape(rest: seq<byte>, cfg: Config)
    ensures Decode([BACKSLASH, LOWER_X] + rest, cfg)
         == if |rest| >= 2 && IntHexPair(rest[0], rest[1]).Some? && IntHexPair(rest[0], rest[1]).value >= 0
            then Prepend([IntHexPair(rest[0], rest[1]).value], Decode(rest[2..], cfg))
            else Prepend([BACKSLASH], Decode([LOWER_X] + rest, cfg))
  {
    var s := [BACKSLASH, LOWER_X] + rest;
    if |rest| >= 2 && IntHexPair(rest[0], rest[1]).Some? && IntHexPair(rest[0], rest[1]).value >= 0 {
      assert s[4..] == rest[2..];
    } else {
      assert s[1..] == [LOWER_X] + rest;
    }
  }

  /** `\n` and `\r` give a line feed and a carriage return and consume two bytes. */
  lemma DecodeLineEscape(c: byte, rest: seq<byte>, cfg: Config)
    requires c == LOWER_N || c == LOWER_R
    ensures Decode([BACKSLASH, c] + rest, cfg) == Prepend([if c == LOWER_N then LF else CR], Decode(rest, cfg))
  {
    DecodeTokenThenRest([BACKSLASH, c], rest, cfg);
  }

  /** `\0` not followed by `x` and at least one more byte gives a NUL byte and consumes two bytes. */
  lemma DecodeNulEscape(rest: seq<byte>, cfg: Config)
    requires rest != [] && !(rest[0] == LOWER_X && |rest| >= 2)
    ensures Decode([BACKSLASH, DIGIT_ZERO] + rest, cfg) == Prepend([NUL], Decode(rest, cfg))
  {
    DecodeTokenThenRest([BACKSLASH, DIGIT_ZERO], rest, cfg);
  }

  lemma {:induction false} AlnumRunOfDigits(digits: seq<byte>, rest: seq<byte>, cfg: Config)
    requires forall k | 0 <= k < |digits| :: IsAlnum(digits[k], cfg)
    requires rest == [] || !IsAlnum(rest[0], cfg)
    ensures AlnumRun(digits + rest, cfg) == |digits|
  {
    if digits == [] {
      assert digits + rest == rest;
    } else {
      assert (digits + rest)[1..] == digits[1..] + rest;
      AlnumRunOfDigits(digits[1..], rest, cfg);
    }
  }

  /**
   * `\0x` and a run of `a` hexadecimal digits that ends the alphanumeric run gives exactly
   * `(a + 1) // 2` bytes (`RunBytes` says so) which, read in the configured byte order, are
   * the run's value.
   */
  lemma DecodeHexRun(digits: seq<byte>, rest: seq<byte>, cfg: Config)
    requires digits != [] && AllHex(digits)
    requires rest == [] || !IsAlnum(rest[0], cfg)
    ensures Decode([BACKSLASH, DIGIT_ZERO, LOWER_X] + digits + rest, cfg)
         == Prepend(RunBytes(HexValue(digits), |digits|, cfg.order), Decode(rest, cfg))
  {
    var head := [BACKSLASH, DIGIT_ZERO, LOWER_X] + digits;
    var s := head + rest;
    SplitThree([BACKSLASH, DIGIT_ZERO, LOWER_X], digits, rest);
    HexDigitsAreAlnum(digits, cfg);
    AlnumRunOfDigits(digits, rest, cfg);
    HexRunToken(s, |digits|, HexValue(digits), cfg);
    DecodeTokenThenRest(head, rest, cfg);
  }

  /**
   * `\0x0x` (or `\0x0X`) and hexadecimal digits: `int` accepts the inner prefix, but the
   * prefix still counts towards the length of the run and so towards the number of bytes emitted.
   */
  lemma DecodePrefixedHexRun(p: byte, digits: seq<byte>, rest: seq<byte>, cfg: Config)
    requires p == LOWER_X || p == UPPER_X
    requires digits != [] && AllHex(digits)
    requires rest == [] || !IsAlnum(rest[0], cfg)
    ensures HexValue(digits) < Pow16(|digits| + 2)
    ensures Decode([BACKSLASH, DIGIT_ZERO, LOWER_X, DIGIT_ZERO, p] + digits + rest, cfg)
         == Prepend(RunBytes(HexValue(digits), |digits| + 2, cfg.order), Decode(rest, cfg))
  {
    var run := [DIGIT_ZERO, p] + digits;
    PrefixedRun(p, digits, cfg);
    var head := [BACKSLASH, DIGIT_ZERO, LOWER_X] + run;
    var s := head + rest;
    ConcatNest([BACKSLASH, DIGIT_ZERO, LOWER_X], [DIGIT_ZERO, p], digits, rest);
    assert [BACKSLASH, DIGIT_ZERO, LOWER_X] + [DIGIT_ZERO, p] == [BACKSLASH, DIGIT_ZERO, LOWER_X, DIGIT_ZERO, p];
    SplitThree([BACKSLASH, DIGIT_ZERO, LOWER_X], run, rest);
    AlnumRunOfDigits(run, rest, cfg);
    HexRunToken(s, |run|, HexValue(digits), cfg);
    DecodeTokenThenRest(head, rest, cfg);
  }

  /** `0x` or `0X` and hexadecimal digits form an alphanumeric run that `int(_, 16)` reads as the digits' value. */
  lemma PrefixedRun(p: byte, digits: seq<byte>, cfg: Config)
    requires p == LOWER_X || p == UPPER_X
    requires digits != [] && AllHex(digits)
    ensures var run := [DIGIT_ZERO, p] + digits;
      && IntHexRun(run) == Some(HexValue(digits))
      && (forall k | 0 <= k < |run| :: IsAlnum(run[k], cfg))
      && HexValue(digits) < Pow16(|run|)
  {
    var run := [DIGIT_ZERO, p] + digits;
    assert run[2..] == digits && !IsHexDigit(run[1]);
    Pow16Monotone(|digits|, |digits| + 2);
    HexDigitsAreAlnum(digits, cfg);
    assert forall k | 2 <= k < |run| :: run[k] == digits[k - 2];
  }

  /** The token `\0x` and an alphanumeric run of length `a` that `int(_, 16)` reads as `v`. */
  lemma HexRunToken(s: seq<byte>, a: nat, v: nat, cfg: Config)
    requires 3 + a <= |s| && s[0] == BACKSLASH && s[1] == DIGIT_ZERO && s[2] == LOWER_X
    requires a == AlnumRun(s[3..], cfg) && IntHexRun(s[3..3 + a]) == Some(v) && v < Pow16(a)
    ensures NextToken(s, cfg) == Token(RunBytes(v, a, cfg.order), 3 + a)
  {
  }

  /** The token `\0x` and an alphanumeric run of length `a` that `int(_, 16)` rejects. */
  lemma BadHexRunToken(s: seq<byte>, a: nat, cfg: Config)
    requires 3 < |s| && 3 + a <= |s| && s[0] == BACKSLASH && s[1] == DIGIT_ZERO && s[2] == LOWER_X
    requires a == AlnumRun(s[3..], cfg) && IntHexRun(s[3..3 + a]).None?
    ensures NextToken(s, cfg) == Token([BACKSLASH], 1)
  {
  }

  lemma HexDigitsAreAlnum(digits: seq<byte>, cfg: Config)
    requires AllHex(digits)
    ensures forall k | 0 <= k < |digits| :: IsAlnum(digits[k], cfg)
  {
    forall k | 0 <= k < |digits| ensures IsAlnum(digits[k], cfg) {
      assert IsHexDigit(digits[k]);
    }
  }

  /** A backslash before any other byte is emitted alone; the scan resumes at that byte. */
  lemma DecodeOtherEscape(c: byte, rest: seq<byte>, cfg: Config)
    requires c != LOWER_X && c != LOWER_N && c != LOWER_R && c != DIGIT_ZERO
    ensures Decode([BACKSLASH, c] + rest, cfg) == Prepend([BACKSLASH], Decode([c] + rest, cfg))
  {
    var s := [BACKSLASH, c] + rest;
    assert s[1..] == [c] + rest;
  }

  /**
   * `\0x` and at least one more byte, where the alphanumeric run after the `x` is one that
   * `int(_, 16)` rejects (the empty run included): only the backslash is emitted and the scan
   * resumes at the `0`.
   */
  lemma DecodeBadHexRun(run: seq<byte>, rest: seq<byte>, cfg: Config)
    requires forall k | 0 <= k < |run| :: IsAlnum(run[k], cfg)
    requires rest == [] || !IsAlnum(rest[0], cfg)
    requires run + rest != []
    requires IntHexRun(run).None?
    ensures Decode([BACKSLASH, DIGIT_ZERO, LOWER_X] + run + rest, cfg)
         == Prepend([BACKSLASH], Decode([DIGIT_ZERO, LOWER_X] + run + rest, cfg))
  {
    var tail := [DIGIT_ZERO, LOWER_X] + run + rest;
    var s := [BACKSLASH] + tail;
    assert s == [BACKSLASH, DIGIT_ZERO, LOWER_X] + run + rest by {
      ConcatFront([BACKSLASH], [DIGIT_ZERO, LOWER_X], run, rest);
      assert [BACKSLASH] + [DIGIT_ZERO, LOWER_X] == [BACKSLASH, DIGIT_ZERO, LOWER_X];
    }
    SplitThree([BACKSLASH, DIGIT_ZERO, LOWER_X], run, rest);
    AlnumRunOfDigits(run, rest, cfg);
    BadHexRunToken(s, |run|, cfg);
    DecodeTokenThenRest([BACKSLASH], tail, cfg);
  }
}
