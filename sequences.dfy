/** Facts about sequence concatenation and slicing that the proofs use at every step. */
module Sequences {
  /** Taking one more element of a prefix appends that element. */
  lemma PrefixGrows<T>(s: seq<T>, k: nat)
    requires k < |s|
    ensures s[..k + 1] == s[..k] + [s[k]]
  {
  }

  lemma AppendAssoc<T>(a: seq<T>, b: seq<T>, c: seq<T>)
    ensures a + (b + c) == (a + b) + c
  {
  }

  lemma AppendEmpty<T>(p: seq<T>, m: seq<T>)
    ensures p + m + [] == p + m
  {
  }

  lemma ConcatFront<T>(a: seq<T>, b: seq<T>, c: seq<T>, d: seq<T>)
    ensures a + (b + c + d) == (a + b) + c + d
  {
  }

  lemma ConcatNest<T>(a: seq<T>, b: seq<T>, c: seq<T>, d: seq<T>)
    ensures a + (b + c) + d == (a + b) + c + d
  {
  }

  /** Where the middle part of `p + m + r` starts and ends. */
  lemma SplitThree<T>(p: seq<T>, m: seq<T>, r: seq<T>)
    ensures (p + m + r)[..|p|] == p
    ensures (p + m + r)[|p|..] == m + r
    ensures (p + m + r)[|p|..|p| + |m|] == m
  {
    assert (p + m + r)[|p|..] == m + r;
  }

  /** A sequence is its prefix, the element at `i` and the rest. */
  lemma SplitAt<T>(s: seq<T>, i: nat)
    requires i < |s|
    ensures s == s[..i] + [s[i]] + s[i + 1..]
  {
  }

  /** Where the pieces of `p + [x] + rest` are. */
  lemma SliceAround<T>(p: seq<T>, x: T, rest: seq<T>)
    ensures var t := p + [x] + rest;
      t[..|p|] == p && t[|p|] == x && t[|p| + 1..] == rest && t[..|p| + 1] == p + [x]
  {
    var t := p + [x] + rest;
    assert t[..|p| + 1] == p + [x];
  }
}
