/**
 * The escape decoder `parse` of pwni.py: one left-to-right scan over a byte string that
 * turns `\xHH`, `\n`, `\r`, `\0` and `\0x<run>` into bytes and copies everything else.
 *
 * `NextToken` is what one iteration of the scan loop does at the head of the input that is
 * left; `Decode` is the whole scan as a function; the method `Parse` is the loop itself, with
 * its cursor `i` and its growing output `out`, proved to compute `Decode`.
 */
module Escape {
  import opened Wrappers
  import opened Bytes
  import opened Endian

  /**
   * What parse reads from the tool's configuration: the byte order for `\0x` values, and
   * which bytes from 0x80 up `chr(b).isalnum()` accepts (Unicode's table, taken as given).
   */
  datatype Config = Config(order: ByteOrder, highAlnum: set<byte>)

  /**
   * `chr(b).isalnum()`: below 0x80 exactly the ASCII letters and digits, so every hexadecimal
   * digit and no backslash, space or sign; from 0x80 up, the configured high bytes.
   */
  predicate IsAlnum(b: byte, cfg: Config)
    ensures b < 0x80 ==> (IsAlnum(b, cfg) <==> IsAsciiAlnum(b))
    ensures IsHexDigit(b) ==> IsAlnum(b, cfg)
  {
    IsAsciiAlnum(b) || (b >= 0x80 && b in cfg.highAlnum)
  }

  /**
   * One iteration of the scan: the bytes appended to `out` and how far the cursor moves,
   * or the IndexError raised by reading one byte past the end of the input.
   */
  datatype Token = Token(bytes: seq<byte>, consumed: nat) | ReadPastEnd

  /** What parse returns, or the IndexError it raises. */
  datatype Outcome = Decoded(out: seq<byte>) | IndexError

  /** Bytes emitted before the rest of the scan; an exception raised later wins. */
  function Prepend(b: seq<byte>, r: Outcome): Outcome {
    match r
    case Decoded(out) => Decoded(b + out)
    case IndexError => IndexError
  }

  /** The length of the longest alphanumeric prefix of `s`, as the inner loop counts it. */
  function AlnumRun(s: seq<byte>, cfg: Config): (n: nat)
    ensures n <= |s|
    ensures forall k | 0 <= k < n :: IsAlnum(s[k], cfg)
    ensures n < |s| ==> !IsAlnum(s[n], cfg)
  {
    if s != [] && IsAlnum(s[0], cfg) then 1 + AlnumRun(s[1..], cfg) else 0
  }

  /**
   * `int(run, 16).to_bytes((a + 1) // 2, byteorder)` for the value `v` of a run of `a`
   * digits: the value always fits, so this is exactly `(a + 1) // 2` bytes.
   */
  function RunBytes(v: nat, a: nat, order: ByteOrder): (r: seq<byte>)
    requires v < Pow16(a)
    ensures |r| == (a + 1) / 2
  {
    HexDigitsFit(a);
    ToBytes(v, (a + 1) / 2, order)
  }

  /** The bytes `\0x` emits, read back in the configured byte order, are the run's value. */
  lemma RunBytesReadBack(v: nat, a: nat, order: ByteOrder)
    requires v < Pow16(a)
    ensures FromBytes(RunBytes(v, a, order), order) == v
  {
    HexDigitsFit(a);
    ToBytesRoundTrip(v, (a + 1) / 2, order);
  }

  /**
   * One iteration of the scan loop at the head of the non-empty input `s`. The cursor always
   * moves forward, never past the end, and no token emits more bytes than it consumes; the
   * only input on which it raises is the two bytes `\0` and nothing after them.
   */
  function NextToken(s: seq<byte>, cfg: Config): (t: Token)
    requires s != []
    ensures t.Token? ==> 0 < t.consumed <= |s| && |t.bytes| <= t.consumed
    ensures t.ReadPastEnd? <==> s == [BACKSLASH, DIGIT_ZERO]
  {
    if s[0] == BACKSLASH && 1 < |s| then
      if s[1] == LOWER_X then
        // `out.append` refuses a negative value with ValueError, like a failed parse
        if 3 < |s| && IntHexPair(s[2], s[3]).Some? && IntHexPair(s[2], s[3]).value >= 0 then
          Token([IntHexPair(s[2], s[3]).value], 4)
        else
          Token([BACKSLASH], 1)
      else if s[1] == LOWER_N then
        Token([LF], 2)
      else if s[1] == LOWER_R then
        Token([CR], 2)
      else if s[1] == DIGIT_ZERO then
        // `input[i+2]` is read before the bounds test `i+3 < l`
        if |s| == 2 then
          ReadPastEnd
        else if s[2] == LOWER_X && 3 < |s| then
          var a := AlnumRun(s[3..], cfg);
          match IntHexRun(s[3..3 + a])
          case Some(v) => Token(RunBytes(v, a, cfg.order), 3 + a)
          case None => Token([BACKSLASH], 1)
        else
          Token([NUL], 2)
      else
        Token([BACKSLASH], 1)
    else
      Token([s[0]], 1)
  }

  /** parse(s): the tokens of `s` one after the other. It never produces more bytes than it reads. */
  function Decode(s: seq<byte>, cfg: Config): (r: Outcome)
    ensures r.Decoded? ==> |r.out| <= |s|
    decreases |s|
  {
    if s == [] then
      Decoded([])
    else
      match NextToken(s, cfg)
      case ReadPastEnd => IndexError
      case Token(b, n) => Prepend(b, Decode(s[n..], cfg))
  }

  lemma PrependPrepend(a: seq<byte>, b: seq<byte>, r: Outcome)
    ensures Prepend(a, Prepend(b, r)) == Prepend(a + b, r)
  {
    if r.Decoded? {
      assert a + (b + r.out) == (a + b) + r.out;
    }
  }

  /** The inner loop of the `\0x` branch: how many alphanumeric bytes follow `start`. */
  method CountAlnumRun(input: seq<byte>, start: nat, cfg: Config) returns (a: nat)
    requires start <= |input|
    ensures a == AlnumRun(input[start..], cfg)
  {
    a := 0;
    while start + a < |input| && IsAlnum(input[start + a], cfg)
      invariant start + a <= |input|
      invariant forall k | start <= k < start + a :: IsAlnum(input[k], cfg)
    {
      a := a + 1;
    }
  }

  /** One more token of the scan: what it emits joins the output, the cursor moves past it. */
  lemma Advance(input: seq<byte>, i: nat, out: seq<byte>, cfg: Config, tok: Token, i': nat, out': seq<byte>)
    requires i < |input| && tok == NextToken(input[i..], cfg) && tok.Token?
    requires Decode(input, cfg) == Prepend(out, Decode(input[i..], cfg))
    requires i' == i + tok.consumed && out' == out + tok.bytes
    ensures i' <= |input|
    ensures Decode(input, cfg) == Prepend(out', Decode(input[i'..], cfg))
  {
    assert input[i..][tok.consumed..] == input[i'..];
    PrependPrepend(out, tok.bytes, Decode(input[i'..], cfg));
  }

  /**
   * The `match` on the byte after a backslash at `input[i]`: what it appends to `out`, how
   * much it adds to `i` on top of the loop's own `i += 1`, or that it raised IndexError.
   */
  method ScanEscape(input: seq<byte>, i: nat, cfg: Config) returns (emitted: seq<byte>, skip: nat, raised: bool)
    requires i + 1 < |input| && input[i] == BACKSLASH
    ensures raised <==> NextToken(input[i..], cfg).ReadPastEnd?
    ensures !raised ==> NextToken(input[i..], cfg) == Token(emitted, skip + 1)
  {
    var l := |input|;
    raised := false;
    if input[i + 1] == LOWER_X {
      if i + 3 < l {
        var value := IntHexPair(input[i + 2], input[i + 3]);
        if value.Some? && value.value >= 0 {
          emitted, skip := [value.value], 3;
        } else {
          emitted, skip := [input[i]], 0;
        }
      } else {
        emitted, skip := [input[i]], 0;
      }
    } else if input[i + 1] == LOWER_N {
      emitted, skip := [LF], 1;
    } else if input[i + 1] == LOWER_R {
      emitted, skip := [CR], 1;
    } else if input[i + 1] == DIGIT_ZERO {
      if i + 2 >= l {
        assert input[i..] == [BACKSLASH, DIGIT_ZERO];
        return [], 0, true;
      }
      if input[i + 2] == LOWER_X && i + 3 < l {
        var a := CountAlnumRun(input, i + 3, cfg);
        assert input[i..][3..] == input[i + 3..];
        assert input[i..][3..3 + a] == input[i + 3..i + 3 + a];
        var value := IntHexRun(input[i + 3..i + 3 + a]);
        if value.Some? {
          emitted, skip := RunBytes(value.value, a, cfg.order), 2 + a;
        } else {
          emitted, skip := [input[i]], 0;
        }
      } else {
        emitted, skip := [NUL], 1;
      }
    } else {
      emitted, skip := [input[i]], 0;
    }
  }

  /** The scan loop of parse, with its cursor `i` and its output buffer `out`. */
  method Parse(input: seq<byte>, cfg: Config) returns (r: Outcome)
    ensures r == Decode(input, cfg)
  {
    var out: seq<byte> := [];
    var i := 0;
    var l := |input|;
    while i < l
      invariant 0 <= i <= l
      invariant Decode(input, cfg) == Prepend(out, Decode(input[i..], cfg))
    {
      ghost var start, before := i, out;
      if input[i] == BACKSLASH && i + 1 < l {
        var emitted, skip, raised := ScanEscape(input, i, cfg);
        if raised {
          return IndexError;
        }
        out := out + emitted;
        i := i + skip;
      } else {
        out := out + [input[i]];
      }
      i := i + 1;
      Advance(input, start, before, cfg, NextToken(input[start..], cfg), i, out);
    }
    r := Decoded(out);
  }
}
