/**
 * How `tty_mode` in pwni.py turns the `-p` command line into the argument list of the
 * process it starts. The line is split on whitespace (the split itself is taken as given);
 * then a token that starts with a double quote swallows the tokens up to the first later one
 * that ends with a double quote, joined by single spaces and with every double quote removed,
 * and the same is done for single quotes on the token that results.
 *
 * `Regroup` is that rewriting as a function over the token list; `MergeQuoted` is the loop
 * of the source, with its cursor `i` and the list it reassigns, proved to compute `Regroup`.
 */
module QuoteMerge {
  import opened Wrappers
  import opened Sequences

  const DOUBLE_QUOTE: char := '"'
  const SINGLE_QUOTE: char := '\''
  const SPACE: char := ' '

  predicate StartsWith(s: string, c: char) { |s| > 0 && s[0] == c }
  predicate EndsWith(s: string, c: char) { |s| > 0 && s[|s| - 1] == c }

  /** `' '.join(ts)`. */
  function Join(ts: seq<string>): (s: string)
    ensures ts == [] ==> s == ""
    ensures |ts| == 1 ==> s == ts[0]
  {
    if ts == [] then "" else if |ts| == 1 then ts[0] else ts[0] + [SPACE] + Join(ts[1..])
  }

  /** `s.replace(c, '')`: `s` without any `c`, everything else in order. */
  function RemoveChar(s: string, c: char): (r: string)
    ensures c !in r
    ensures |r| <= |s|
    ensures c !in s ==> r == s
  {
    if s == [] then "" else (if s[0] == c then "" else [s[0]]) + RemoveChar(s[1..], c)
  }

  /** The position of the first token of `rest` that ends with `q`, if any. */
  function Closer(rest: seq<string>, q: char): (r: Option<nat>)
    ensures r.Some? ==> r.value < |rest| && EndsWith(rest[r.value], q)
  {
    if rest == [] then None
    else if EndsWith(rest[0], q) then Some(0)
    else match Closer(rest[1..], q)
      case Some(j) => Some(j + 1)
      case None => None
  }

  /** The closer is the first token that ends with `q`; there is none exactly when no token does. */
  lemma {:induction false} CloserIsFirst(rest: seq<string>, q: char)
    ensures Closer(rest, q).Some? ==> forall m | 0 <= m < Closer(rest, q).value :: !EndsWith(rest[m], q)
    ensures Closer(rest, q).None? <==> forall m | 0 <= m < |rest| :: !EndsWith(rest[m], q)
  {
    if rest != [] && !EndsWith(rest[0], q) {
      CloserIsFirst(rest[1..], q);
      assert forall m | 1 <= m < |rest| :: rest[m] == rest[1..][m - 1];
    }
  }

  /**
   * The token `t` followed by the tokens `rest`, after the merge for the quote `q`: the new
   * token and the tokens left after it. A token that opens a quote and finds a closer takes in
   * every token up to the closer; otherwise nothing changes.
   */
  function Absorb(t: string, rest: seq<string>, q: char): (r: (string, seq<string>))
    ensures |r.1| <= |rest|
    ensures !StartsWith(t, q) || Closer(rest, q).None? ==> r == (t, rest)
    ensures StartsWith(t, q) && Closer(rest, q).Some? ==> q !in r.0 && |r.1| < |rest|
  {
    if StartsWith(t, q) then
      match Closer(rest, q)
      case Some(j) => (RemoveChar(Join([t] + rest[..j + 1]), q), rest[j + 1..])
      case None => (t, rest)
    else
      (t, rest)
  }

  /** The tokens a merge leaves after the new token are the last ones of `rest`, untouched. */
  lemma AbsorbLeavesSuffix(t: string, rest: seq<string>, q: char)
    ensures var r := Absorb(t, rest, q); r.1 == rest[|rest| - |r.1|..]
  {
  }

  /** The whole merge over the token list: double quotes first, then single quotes, at each token in turn. */
  function Regroup(ts: seq<string>): (r: seq<string>)
    ensures |r| <= |ts|
    ensures r == [] <==> ts == []
    decreases |ts|
  {
    if ts == [] then []
    else
      var d := Absorb(ts[0], ts[1..], DOUBLE_QUOTE);
      var s := Absorb(d.0, d.1, SINGLE_QUOTE);
      [s.0] + Regroup(s.1)
  }

  /**
   * One `if args[i].startswith(q)` block: a `for j` loop looking for the first later token
   * that ends with `q`, which merges and breaks when it finds one.
   */
  method MergeAt(args: seq<string>, i: nat, q: char) returns (r: seq<string>)
    requires i < |args|
    ensures var a := Absorb(args[i], args[i + 1..], q); r == args[..i] + [a.0] + a.1
  {
    SplitAt(args, i);
    r := args;
    if StartsWith(args[i], q) {
      for j := i + 1 to |args|
        invariant forall m | i + 1 <= m < j :: !EndsWith(args[m], q)
      {
        if EndsWith(args[j], q) {
          CloserAt(args, i, j, q);
          r := r[i := RemoveChar(Join(args[i..j + 1]), q)];
          r := r[..i + 1] + r[j + 1..];
          assert r == args[..i] + [RemoveChar(Join(args[i..j + 1]), q)] + args[j + 1..];
          return;
        }
      }
      var rest := args[i + 1..];
      assert Closer(rest, q).None? by {
        CloserIsFirst(rest, q);
        forall m | 0 <= m < |rest|
          ensures !EndsWith(rest[m], q)
        {
          assert rest[m] == args[i + 1 + m];
        }
      }
    }
  }

  /** When `args[j]` is the first token after `args[i]` that ends with `q`, the merge takes `args[i..j+1]`. */
  lemma CloserAt(args: seq<string>, i: nat, j: nat, q: char)
    requires i < j < |args| && EndsWith(args[j], q)
    requires forall m | i + 1 <= m < j :: !EndsWith(args[m], q)
    ensures Closer(args[i + 1..], q) == Some(j - i - 1)
    ensures [args[i]] + args[i + 1..][..j - i] == args[i..j + 1]
    ensures args[i + 1..][j - i..] == args[j + 1..]
  {
    var rest := args[i + 1..];
    assert rest[j - i - 1] == args[j];
    CloserIsFirst(rest, q);
    assert forall m | 0 <= m < j - i - 1 :: rest[m] == args[i + 1 + m];
  }

  /** The source's `while i < len(args)` loop over the split command line. */
  method MergeQuoted(tokens: seq<string>) returns (args: seq<string>)
    ensures args == Regroup(tokens)
  {
    args := tokens;
    var i := 0;
    while i < |args|
      invariant i <= |args|
      invariant Regroup(tokens) == args[..i] + Regroup(args[i..])
      decreases |args| - i
    {
      ghost var d := Absorb(args[i], args[i + 1..], DOUBLE_QUOTE);
      var afterDouble := MergeAt(args, i, DOUBLE_QUOTE);
      SliceAround(args[..i], d.0, d.1);
      ghost var s := Absorb(d.0, d.1, SINGLE_QUOTE);
      var afterSingle := MergeAt(afterDouble, i, SINGLE_QUOTE);
      SliceAround(args[..i], s.0, s.1);
      RegroupStep(tokens, args, i, d, s, afterSingle);
      args := afterSingle;
      i := i + 1;
    }
    assert args[i..] == [];
  }

  /**
   * One pass of the while loop: once the two merges have turned the token at the cursor
   * into `s.0`, followed by `s.1`, that token is final and the rest is still to be regrouped.
   */
  lemma RegroupStep(tokens: seq<string>, args: seq<string>, i: nat, d: (string, seq<string>), s: (string, seq<string>), after: seq<string>)
    requires i < |args| && Regroup(tokens) == args[..i] + Regroup(args[i..])
    requires d == Absorb(args[i], args[i + 1..], DOUBLE_QUOTE) && s == Absorb(d.0, d.1, SINGLE_QUOTE)
    requires i < |after| && after[..i] == args[..i] && after[i] == s.0 && after[i + 1..] == s.1
    ensures |after| <= |args|
    ensures Regroup(tokens) == after[..i + 1] + Regroup(after[i + 1..])
  {
    RegroupAt(args, i, d, s);
    PrefixGrows(after, i);
    AppendAssoc(args[..i], [s.0], Regroup(s.1));
  }

  /** The regrouping of the tokens from the cursor on starts with what the two merges make of the token at the cursor. */
  lemma RegroupAt(args: seq<string>, i: nat, d: (string, seq<string>), s: (string, seq<string>))
    requires i < |args|
    requires d == Absorb(args[i], args[i + 1..], DOUBLE_QUOTE) && s == Absorb(d.0, d.1, SINGLE_QUOTE)
    ensures Regroup(args[i..]) == [s.0] + Regroup(s.1)
  {
    assert args[i..][0] == args[i] && args[i..][1..] == args[i + 1..];
  }
}
