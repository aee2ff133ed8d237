/**
 * The `-a` output filter of pwni.py: every byte outside 32..127 is written as `[0x..]`, the
 * text of Python's `hex()` in brackets. The source does this with one `bytes.replace` per
 * byte of the original data; the method `Filter` is that loop, proved to compute the per-byte
 * rewriting `AsciiFilter`.
 */
module AsciiOnly {
  import opened Bytes
  import opened Sequences

  /** What the filter lets through: 32 to 127 inclusive (so DEL passes). */
  predicate Printable(b: byte) { 32 <= b <= 127 }

  predicate AllPrintable(s: seq<byte>) { forall k | 0 <= k < |s| :: Printable(s[k]) }

  /** `hex(b)`: `0x` followed by the lower-case digits of `b`, without padding. */
  function PyHex(n: nat): (s: seq<byte>)
    ensures |s| >= 3 && s[..2] == [DIGIT_ZERO, LOWER_X]
    ensures AllHex(s[2..]) && HexValue(s[2..]) == n
    ensures AllPrintable(s)
  {
    HexDigitsRoundTrip(n);
    assert ([DIGIT_ZERO, LOWER_X] + HexDigits(n))[2..] == HexDigits(n);
    [DIGIT_ZERO, LOWER_X] + HexDigits(n)
  }

  /** `b'[' + bytes(hex(b), encoding='utf-8') + b']'`: five or six printable bytes. */
  function Marker(b: byte): (m: seq<byte>)
    ensures |m| == (if b < 16 then 5 else 6)
    ensures AllPrintable(m)
    ensures m[0] == OPEN_BRACKET && m[|m| - 1] == CLOSE_BRACKET
  {
    HexDigitsOfByte(b);
    var h := PyHex(b);
    assert |h| == 2 + |HexDigits(b)|;
    var m := [OPEN_BRACKET] + h + [CLOSE_BRACKET];
    assert forall k | 1 <= k <= |h| :: m[k] == h[k - 1];
    m
  }

  /**
   * `data.replace(bytes([b]), rep)`: with a one-byte pattern, every occurrence of `b` is
   * replaced and every other byte is kept.
   */
  function ReplaceByte(s: seq<byte>, b: byte, rep: seq<byte>): (r: seq<byte>)
    ensures b !in s ==> r == s
    ensures b !in rep ==> b !in r
    ensures rep != [] ==> |r| >= |s|
  {
    if s == [] then [] else (if s[0] == b then rep else [s[0]]) + ReplaceByte(s[1..], b, rep)
  }

  /** The result of the filter: each byte kept when printable, otherwise its marker. */
  function AsciiFilter(s: seq<byte>): (r: seq<byte>)
    ensures AllPrintable(r)
    ensures |r| >= |s|
  {
    if s == [] then [] else (if Printable(s[0]) then [s[0]] else Marker(s[0])) + AsciiFilter(s[1..])
  }

  /** The data once the bytes of `seen` have been replaced: a byte is masked iff it is in `seen` and not printable. */
  function MaskedBy(s: seq<byte>, seen: seq<byte>): (r: seq<byte>)
    ensures |r| >= |s|
  {
    if s == [] then []
    else (if !Printable(s[0]) && s[0] in seen then Marker(s[0]) else [s[0]]) + MaskedBy(s[1..], seen)
  }

  /** Replacing a byte does not touch a text made of printable bytes when that byte is not printable. */
  lemma {:induction false} ReplaceLeavesPrintable(s: seq<byte>, b: byte, rep: seq<byte>)
    requires AllPrintable(s) && !Printable(b)
    ensures ReplaceByte(s, b, rep) == s
  {
    assert forall k | 0 <= k < |s| :: s[k] != b;
  }

  lemma {:induction false} ReplaceAppend(a: seq<byte>, c: seq<byte>, b: byte, rep: seq<byte>)
    ensures ReplaceByte(a + c, b, rep) == ReplaceByte(a, b, rep) + ReplaceByte(c, b, rep)
  {
    if a == [] {
      assert a + c == c;
    } else {
      assert (a + c)[1..] == a[1..] + c;
      ReplaceAppend(a[1..], c, b, rep);
    }
  }

  /** One iteration of the loop: replacing the non-printable `b` masks `b` as well. */
  lemma {:induction false} ReplaceStep(s: seq<byte>, seen: seq<byte>, b: byte)
    requires !Printable(b)
    ensures ReplaceByte(MaskedBy(s, seen), b, Marker(b)) == MaskedBy(s, seen + [b])
  {
    if s != [] {
      var x := s[0];
      var head := if !Printable(x) && x in seen then Marker(x) else [x];
      ReplaceAppend(head, MaskedBy(s[1..], seen), b, Marker(b));
      ReplaceStep(s[1..], seen, b);
      if !Printable(x) && x in seen {
        ReplaceLeavesPrintable(Marker(x), b, Marker(b));
      } else {
        assert ReplaceByte([x], b, Marker(b)) == (if x == b then Marker(b) else [x]) + ReplaceByte([], b, Marker(b));
      }
    }
  }

  /** Skipping a printable byte keeps the invariant: printable bytes are never masked. */
  lemma {:induction false} MaskedByPrintable(s: seq<byte>, seen: seq<byte>, b: byte)
    requires Printable(b)
    ensures MaskedBy(s, seen + [b]) == MaskedBy(s, seen)
  {
    if s != [] {
      MaskedByPrintable(s[1..], seen, b);
    }
  }

  /** Once every byte of the data has been seen, the masking is the filter. */
  lemma {:induction false} MaskedByEverything(s: seq<byte>, seen: seq<byte>)
    requires forall k | 0 <= k < |s| :: s[k] in seen
    ensures MaskedBy(s, seen) == AsciiFilter(s)
  {
    if s != [] {
      MaskedByEverything(s[1..], seen);
    }
  }

  /** The loop's step: after the `k`-th byte of the data, that byte is masked too. */
  lemma MaskNext(data: seq<byte>, k: nat)
    requires k < |data|
    ensures var b := data[k];
      (if Printable(b) then MaskedBy(data, data[..k]) else ReplaceByte(MaskedBy(data, data[..k]), b, Marker(b)))
      == MaskedBy(data, data[..k + 1])
  {
    var b := data[k];
    PrefixGrows(data, k);
    if Printable(b) {
      MaskedByPrintable(data, data[..k], b);
    } else {
      ReplaceStep(data, data[..k], b);
    }
  }

  /** Before the loop nothing is masked; after it, every byte of the data has been seen. */
  lemma MaskBounds(data: seq<byte>)
    ensures MaskedBy(data, data[..0]) == data
    ensures MaskedBy(data, data[..|data|]) == AsciiFilter(data)
  {
    MaskedByNothing(data);
    assert data[..0] == [];
    assert data[..|data|] == data;
    MaskedByEverything(data, data);
  }

  /**
   * `ascii_only(data)`: for each byte of the original data, in order, a byte outside
   * 32..127 has all its occurrences replaced by its marker.
   */
  method Filter(data: seq<byte>) returns (r: seq<byte>)
    ensures r == AsciiFilter(data)
  {
    MaskBounds(data);
    r := data;
    for k := 0 to |data|
      invariant r == MaskedBy(data, data[..k])
    {
      var b := data[k];
      MaskNext(data, k);
      if !(b >= 32 && b <= 127) {
        r := ReplaceByte(r, b, Marker(b));
      }
    }
  }

  /** Before the loop nothing is masked. */
  lemma {:induction false} MaskedByNothing(s: seq<byte>)
    ensures MaskedBy(s, []) == s
  {
    if s != [] {
      MaskedByNothing(s[1..]);
    }
  }

  /** The filter works byte by byte, so it can be applied to pieces of the data separately. */
  lemma {:induction false} AsciiFilterAppend(a: seq<byte>, c: seq<byte>)
    ensures AsciiFilter(a + c) == AsciiFilter(a) + AsciiFilter(c)
  {
    if a == [] {
      assert a + c == c;
    } else {
      assert (a + c)[1..] == a[1..] + c;
      AsciiFilterAppend(a[1..], c);
    }
  }

  /** The filter changes nothing exactly when every byte is already printable. */
  lemma {:induction false} AsciiFilterIdentity(s: seq<byte>)
    ensures AsciiFilter(s) == s <==> AllPrintable(s)
  {
    if AllPrintable(s) {
      AsciiFilterKeepsPrintable(s);
    }
  }

  lemma {:induction false} AsciiFilterKeepsPrintable(s: seq<byte>)
    requires AllPrintable(s)
    ensures AsciiFilter(s) == s
  {
    if s != [] {
      assert Printable(s[0]);
      AsciiFilterKeepsPrintable(s[1..]);
    }
  }

  /** Filtering twice is filtering once. */
  lemma AsciiFilterIdempotent(s: seq<byte>)
    ensures AsciiFilter(AsciiFilter(s)) == AsciiFilter(s)
  {
    AsciiFilterKeepsPrintable(AsciiFilter(s));
  }

  /** Each non-printable byte becomes its marker, whose digits read back as the byte. */
  lemma MarkerReadsBack(b: byte)
    requires !Printable(b)
    ensures AsciiFilter([b]) == Marker(b)
    ensures var m := Marker(b); AllHex(m[3..|m| - 1]) && HexValue(m[3..|m| - 1]) == b
  {
    var m := Marker(b);
    assert m[3..|m| - 1] == PyHex(b)[2..];
    assert [b][1..] == [];
  }

  /** NUL, a line feed and the byte 0xFF are written as `[0x0]`, `[0xa]` and `[0xff]`; DEL passes. */
  lemma MarkerExamples()
    ensures AsciiFilter([0x00]) == [OPEN_BRACKET, DIGIT_ZERO, LOWER_X, DIGIT_ZERO, CLOSE_BRACKET]
    ensures AsciiFilter([LF]) == [OPEN_BRACKET, DIGIT_ZERO, LOWER_X, 0x61, CLOSE_BRACKET]
    ensures AsciiFilter([0xFF]) == [OPEN_BRACKET, DIGIT_ZERO, LOWER_X, 0x66, 0x66, CLOSE_BRACKET]
    ensures AsciiFilter([0x7F]) == [0x7F]
  {
    assert [0x00][1..] == [];
    assert [LF][1..] == [];
    assert [0xFF][1..] == [];
    assert [0x7F][1..] == [];
    assert HexDigits(0xFF) == HexDigits(0x0F) + [LowerDigit(0x0F)];
  }

  /**
   * The output does not tell a raw byte from the text of its marker: NUL and the five
   * characters `[0x0]` are written the same way.
   */
  lemma MarkerIsAmbiguous()
    ensures AsciiFilter([0x00]) == AsciiFilter([OPEN_BRACKET, DIGIT_ZERO, LOWER_X, DIGIT_ZERO, CLOSE_BRACKET])
  {
    MarkerExamples();
    AsciiFilterKeepsPrintable([OPEN_BRACKET, DIGIT_ZERO, LOWER_X, DIGIT_ZERO, CLOSE_BRACKET]);
  }
}
