/**
 * Python's `int.to_bytes(length, byteorder)` for non-negative integers, and the reading
 * back of such bytes, for the two byte orders the tool can be configured with.
 */
module Endian {
  import opened Bytes

  /** The process-wide byte order: big unless the tool was started with -l. */
  datatype ByteOrder = Big | Little

  function Pow256(n: nat): (p: nat)
    ensures p >= 1
  {
    if n == 0 then 1 else 256 * Pow256(n - 1)
  }

  function BigEndian(v: nat, n: nat): (r: seq<byte>)
    requires v < Pow256(n)
    ensures |r| == n
  {
    if n == 0 then [] else BigEndian(v / 256, n - 1) + [v % 256]
  }

  function LittleEndian(v: nat, n: nat): (r: seq<byte>)
    requires v < Pow256(n)
    ensures |r| == n
  {
    if n == 0 then [] else [v % 256] + LittleEndian(v / 256, n - 1)
  }

  /** `v.to_bytes(n, byteorder=order)`; a value that does not fit would raise OverflowError. */
  function ToBytes(v: nat, n: nat, order: ByteOrder): (r: seq<byte>)
    requires v < Pow256(n)
    ensures |r| == n
  {
    match order
    case Big => BigEndian(v, n)
    case Little => LittleEndian(v, n)
  }

  /** `int.from_bytes(s, byteorder=order)`: the reading that `ToBytes` must invert. */
  function FromBytes(s: seq<byte>, order: ByteOrder): (v: nat)
    ensures v < Pow256(|s|)
  {
    match order
    case Big => FromBigEndian(s)
    case Little => FromLittleEndian(s)
  }

  function FromBigEndian(s: seq<byte>): (v: nat)
    ensures v < Pow256(|s|)
  {
    if s == [] then 0 else FromBigEndian(s[..|s| - 1]) * 256 + s[|s| - 1]
  }

  function FromLittleEndian(s: seq<byte>): (v: nat)
    ensures v < Pow256(|s|)
  {
    if s == [] then 0 else s[0] + 256 * FromLittleEndian(s[1..])
  }

  function Reversed(s: seq<byte>): (r: seq<byte>)
    ensures |r| == |s|
  {
    if s == [] then [] else Reversed(s[1..]) + [s[0]]
  }

  /** Serialising and reading back in the same byte order gives the value again. */
  lemma {:induction false} ToBytesRoundTrip(v: nat, n: nat, order: ByteOrder)
    requires v < Pow256(n)
    ensures FromBytes(ToBytes(v, n, order), order) == v
  {
    match order
    case Big => BigEndianRoundTrip(v, n);
    case Little => LittleEndianRoundTrip(v, n);
  }

  lemma {:induction false} BigEndianRoundTrip(v: nat, n: nat)
    requires v < Pow256(n)
    ensures FromBigEndian(BigEndian(v, n)) == v
  {
    if n > 0 {
      BigEndianRoundTrip(v / 256, n - 1);
      var r := BigEndian(v, n);
      assert r[..|r| - 1] == BigEndian(v / 256, n - 1);
    }
  }

  lemma {:induction false} LittleEndianRoundTrip(v: nat, n: nat)
    requires v < Pow256(n)
    ensures FromLittleEndian(LittleEndian(v, n)) == v
  {
    if n > 0 {
      LittleEndianRoundTrip(v / 256, n - 1);
      var r := LittleEndian(v, n);
      assert r[1..] == LittleEndian(v / 256, n - 1);
    }
  }

  /** The two byte orders give the same bytes, reversed. */
  lemma {:induction false} LittleIsReversedBig(v: nat, n: nat)
    requires v < Pow256(n)
    ensures LittleEndian(v, n) == Reversed(BigEndian(v, n))
  {
    if n > 0 {
      LittleIsReversedBig(v / 256, n - 1);
      var b := BigEndian(v / 256, n - 1);
      ReversedAppend(b, v % 256);
    }
  }

  lemma {:induction false} ReversedAppend(s: seq<byte>, x: byte)
    ensures Reversed(s + [x]) == [x] + Reversed(s)
  {
    if s != [] {
      ReversedAppend(s[1..], x);
      assert (s + [x])[1..] == s[1..] + [x];
    } else {
      assert Reversed([x]) == Reversed([]) + [x];
    }
  }

  /** `a` hexadecimal digits always fit in `(a + 1) // 2` bytes, so `to_bytes` never overflows. */
  lemma {:induction false} HexDigitsFit(a: nat)
    ensures Pow16(a) <= Pow256((a + 1) / 2)
  {
    if a == 1 {
    } else if a >= 2 {
      HexDigitsFit(a - 2);
      assert (a + 1) / 2 == (a - 2 + 1) / 2 + 1;
      assert Pow16(a) == 256 * Pow16(a - 2);
    }
  }
}
