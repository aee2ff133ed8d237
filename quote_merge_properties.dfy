/** What the quote merge of `tty_mode` promises, stated over the specification `Regroup`. */
module QuoteMergeProperties {
  import opened Wrappers
  import opened QuoteMerge
  import opened Sequences

  /** The text with both kinds of quote removed. */
  function StripQuotes(s: string): (r: string)
    ensures DOUBLE_QUOTE !in r && SINGLE_QUOTE !in r
    ensures |r| <= |s|
  {
    if s == [] then ""
    else (if s[0] == DOUBLE_QUOTE || s[0] == SINGLE_QUOTE then "" else [s[0]]) + StripQuotes(s[1..])
  }

  lemma {:induction false} StripQuotesAppend(a: string, b: string)
    ensures StripQuotes(a + b) == StripQuotes(a) + StripQuotes(b)
  {
    if a == [] {
      assert a + b == b;
    } else {
      assert (a + b)[1..] == a[1..] + b;
      StripQuotesAppend(a[1..], b);
    }
  }

  /** Removing one kind of quote first makes no difference once both kinds are removed. */
  lemma {:induction false} StripQuotesRemoveChar(s: string, q: char)
    requires q == DOUBLE_QUOTE || q == SINGLE_QUOTE
    ensures StripQuotes(RemoveChar(s, q)) == StripQuotes(s)
  {
    if s != [] {
      StripQuotesRemoveChar(s[1..], q);
      var head := if s[0] == q then "" else [s[0]];
      StripQuotesAppend(head, RemoveChar(s[1..], q));
    }
  }

  /** Joining two non-empty lists is joining each and putting a space between. */
  lemma {:induction false} JoinAppend(a: seq<string>, b: seq<string>)
    requires a != [] && b != []
    ensures Join(a + b) == Join(a) + [SPACE] + Join(b)
  {
    if |a| == 1 {
      assert (a + b)[1..] == b;
    } else {
      assert (a + b)[1..] == a[1..] + b;
      JoinAppend(a[1..], b);
    }
  }

  /** What a non-empty list of tokens adds after the text before it: a space and its own text. */
  function TextAfter(b: seq<string>): string {
    if b == [] then "" else [SPACE] + StripQuotes(Join(b))
  }

  /** The text of two lists joined one after the other, quotes aside. */
  lemma StripJoinAppend(a: seq<string>, b: seq<string>)
    requires a != []
    ensures StripQuotes(Join(a + b)) == StripQuotes(Join(a)) + TextAfter(b)
  {
    if b == [] {
      assert a + b == a;
    } else {
      var ja, jb := Join(a), Join(b);
      calc {
        StripQuotes(Join(a + b));
        { JoinAppend(a, b); }
        StripQuotes(ja + [SPACE] + jb);
        { StripQuotesAppend(ja + [SPACE], jb); }
        StripQuotes(ja + [SPACE]) + StripQuotes(jb);
        { StripQuotesAppend(ja, [SPACE]); assert StripQuotes([SPACE]) == [SPACE]; }
        (StripQuotes(ja) + [SPACE]) + StripQuotes(jb);
        { AppendAssoc(StripQuotes(ja), [SPACE], StripQuotes(jb)); }
        StripQuotes(ja) + TextAfter(b);
      }
    }
  }

  /** The text of a token followed by a list, quotes aside. */
  lemma StripJoinCons(x: string, rest: seq<string>)
    ensures StripQuotes(Join([x] + rest)) == StripQuotes(x) + TextAfter(rest)
  {
    StripJoinAppend([x], rest);
  }

  /** One merge neither loses nor adds anything but quotes: tokens and the spaces between them survive. */
  lemma AbsorbKeepsText(t: string, rest: seq<string>, q: char)
    requires q == DOUBLE_QUOTE || q == SINGLE_QUOTE
    ensures var a := Absorb(t, rest, q); StripQuotes(Join([a.0] + a.1)) == StripQuotes(Join([t] + rest))
  {
    var a := Absorb(t, rest, q);
    if StartsWith(t, q) && Closer(rest, q).Some? {
      var j := Closer(rest, q).value;
      assert a == (RemoveChar(Join([t] + rest[..j + 1]), q), rest[j + 1..]);
      MergeKeepsText(t, rest, j + 1, q);
    } else {
      assert a == (t, rest);
    }
  }

  /** Merging `t` with the first `n` tokens of `rest` and removing `q` loses only quote characters. */
  lemma MergeKeepsText(t: string, rest: seq<string>, n: nat, q: char)
    requires q == DOUBLE_QUOTE || q == SINGLE_QUOTE
    requires n <= |rest|
    ensures StripQuotes(Join([RemoveChar(Join([t] + rest[..n]), q)] + rest[n..])) == StripQuotes(Join([t] + rest))
  {
    var taken := [t] + rest[..n];
    var left := rest[n..];
    var merged := RemoveChar(Join(taken), q);
    assert [t] + rest == taken + left by {
      assert rest == rest[..n] + left;
      AppendAssoc([t], rest[..n], left);
    }
    calc {
      StripQuotes(Join([merged] + left));
      { StripJoinCons(merged, left); }
      StripQuotes(merged) + TextAfter(left);
      { StripQuotesRemoveChar(Join(taken), q); }
      StripQuotes(Join(taken)) + TextAfter(left);
      { StripJoinAppend(taken, left); }
      StripQuotes(Join(taken + left));
    }
  }

  /**
   * The argument list tells the same words as the command line: with the quotes removed, the
   * tokens joined by spaces read the same before and after the merge.
   */
  lemma {:induction false} RegroupKeepsText(ts: seq<string>)
    ensures StripQuotes(Join(Regroup(ts))) == StripQuotes(Join(ts))
    decreases |ts|
  {
    if ts != [] {
      var d := Absorb(ts[0], ts[1..], DOUBLE_QUOTE);
      var s := Absorb(d.0, d.1, SINGLE_QUOTE);
      RegroupKeepsText(s.1);
      StripJoinCons(s.0, Regroup(s.1));
      StripJoinCons(s.0, s.1);
      AbsorbKeepsText(d.0, d.1, SINGLE_QUOTE);
      AbsorbKeepsText(ts[0], ts[1..], DOUBLE_QUOTE);
      assert [ts[0]] + ts[1..] == ts;
    }
  }

  predicate OpensQuote(t: string) { StartsWith(t, DOUBLE_QUOTE) || StartsWith(t, SINGLE_QUOTE) }

  /** A command line in which no token starts with a quote is passed on token for token. */
  lemma {:induction false} RegroupWithoutQuotes(ts: seq<string>)
    requires forall k | 0 <= k < |ts| :: !OpensQuote(ts[k])
    ensures Regroup(ts) == ts
  {
    if ts != [] {
      assert !OpensQuote(ts[0]);
      RegroupWithoutQuotes(ts[1..]);
    }
  }

  /**
   * Tokens in front of the first quoted group are passed on unchanged, and the merge of what
   * follows them is not affected by them.
   */
  lemma {:induction false} RegroupKeepsPlainPrefix(p: seq<string>, r: seq<string>)
    requires forall k | 0 <= k < |p| :: !OpensQuote(p[k])
    ensures Regroup(p + r) == p + Regroup(r)
  {
    if p != [] {
      var t, p' := p[0], p[1..];
      assert p + r == [t] + (p' + r) by {
        AppendAssoc([t], p', r);
        assert [t] + p' == p;
      }
      calc {
        Regroup(p + r);
        Regroup([t] + (p' + r));
        { RegroupPlainHead(t, p' + r); }
        [t] + Regroup(p' + r);
        { RegroupKeepsPlainPrefix(p', r); }
        [t] + (p' + Regroup(r));
        { AppendAssoc([t], p', Regroup(r)); assert [t] + p' == p; }
        p + Regroup(r);
      }
    } else {
      assert p + r == r && p + Regroup(r) == Regroup(r);
    }
  }

  /**
   * A double-quoted group that closes at `rest[j]` becomes one token, and the merge continues
   * with the tokens after the closer as if the group had not been there.
   */
  lemma RegroupQuotedGroup(t: string, rest: seq<string>, j: nat)
    requires StartsWith(t, DOUBLE_QUOTE) && Closer(rest, DOUBLE_QUOTE) == Some(j)
    requires !StartsWith(RemoveChar(Join([t] + rest[..j + 1]), DOUBLE_QUOTE), SINGLE_QUOTE)
    ensures Regroup([t] + rest) == [RemoveChar(Join([t] + rest[..j + 1]), DOUBLE_QUOTE)] + Regroup(rest[j + 1..])
  {
    var ts := [t] + rest;
    var merged := RemoveChar(Join([t] + rest[..j + 1]), DOUBLE_QUOTE);
    var after := rest[j + 1..];
    assert ts[0] == t && ts[1..] == rest;
    assert Absorb(t, rest, DOUBLE_QUOTE) == (merged, after);
    assert Absorb(merged, after, SINGLE_QUOTE) == (merged, after);
  }

  /**
   * A single-quoted group that closes at `rest[j]` becomes one token without single quotes:
   * the tokens up to the closer are absorbed, and the merge continues after it.
   */
  lemma RegroupSingleQuotedGroup(t: string, rest: seq<string>, j: nat)
    requires StartsWith(t, SINGLE_QUOTE) && Closer(rest, SINGLE_QUOTE) == Some(j)
    ensures Regroup([t] + rest) == [RemoveChar(Join([t] + rest[..j + 1]), SINGLE_QUOTE)] + Regroup(rest[j + 1..])
  {
    assert ([t] + rest)[0] == t && ([t] + rest)[1..] == rest;
    assert !StartsWith(t, DOUBLE_QUOTE);
    assert Absorb(t, rest, SINGLE_QUOTE) == (RemoveChar(Join([t] + rest[..j + 1]), SINGLE_QUOTE), rest[j + 1..]);
  }

  /** Plain tokens after the closer of a double-quoted group come out unchanged. */
  lemma QuotedGroupThenPlain(t: string, rest: seq<string>, j: nat)
    requires StartsWith(t, DOUBLE_QUOTE) && Closer(rest, DOUBLE_QUOTE) == Some(j)
    requires !StartsWith(RemoveChar(Join([t] + rest[..j + 1]), DOUBLE_QUOTE), SINGLE_QUOTE)
    requires forall k | j + 1 <= k < |rest| :: !OpensQuote(rest[k])
    ensures Regroup([t] + rest) == [RemoveChar(Join([t] + rest[..j + 1]), DOUBLE_QUOTE)] + rest[j + 1..]
  {
    var merged := RemoveChar(Join([t] + rest[..j + 1]), DOUBLE_QUOTE);
    var after := rest[j + 1..];
    assert Regroup([t] + rest) == [merged] + Regroup(after) by {
      RegroupQuotedGroup(t, rest, j);
    }
    assert Regroup(after) == after by {
      forall k | 0 <= k < |after|
        ensures !OpensQuote(after[k])
      {
        assert after[k] == rest[j + 1 + k];
      }
      RegroupWithoutQuotes(after);
    }
  }

  /** A token that opens no quote is passed on, and the merge continues after it. */
  lemma RegroupPlainHead(t: string, rest: seq<string>)
    requires !OpensQuote(t)
    ensures Regroup([t] + rest) == [t] + Regroup(rest)
  {
    var ts := [t] + rest;
    assert ts[0] == t && ts[1..] == rest;
  }

  lemma {:induction false} RemoveCharAppend(a: string, b: string, c: char)
    ensures RemoveChar(a + b, c) == RemoveChar(a, c) + RemoveChar(b, c)
  {
    if a == [] {
      assert a + b == b;
    } else {
      var h := if a[0] == c then "" else [a[0]];
      assert (a + b)[0] == a[0] && (a + b)[1..] == a[1..] + b;
      assert RemoveChar(a + b, c) == h + RemoveChar(a[1..] + b, c);
      RemoveCharAppend(a[1..], b, c);
      AppendAssoc(h, RemoveChar(a[1..], c), RemoveChar(b, c));
    }
  }

  /** Two words joined with a space, the first opened and the second closed by `q`, lose the quotes. */
  lemma UnquotePair(w1: string, w2: string, q: char)
    requires q != SPACE && q !in w1 && q !in w2
    ensures RemoveChar(Join([[q] + w1, w2 + [q]]), q) == w1 + [SPACE] + w2
  {
    assert [[q] + w1, w2 + [q]][1..] == [w2 + [q]];
    var joined := [q] + (w1 + [SPACE] + w2) + [q];
    assert Join([[q] + w1, w2 + [q]]) == ([q] + w1) + [SPACE] + (w2 + [q]);
    assert ([q] + w1) + [SPACE] + (w2 + [q]) == joined;
    assert q !in w1 + [SPACE] + w2;
    RemoveCharAppend([q] + (w1 + [SPACE] + w2), [q], q);
    RemoveCharAppend([q], w1 + [SPACE] + w2, q);
  }

  /**
   * `bash -c "echo hi"`: an option followed by two words in double quotes becomes the option
   * and one argument holding both words, separated by a space, without the quotes.
   */
  lemma QuotedPairExample(opt: string, w1: string, w2: string)
    requires !OpensQuote(opt)
    requires DOUBLE_QUOTE !in w1 && DOUBLE_QUOTE !in w2 && SINGLE_QUOTE !in w1
    ensures Regroup([opt, [DOUBLE_QUOTE] + w1, w2 + [DOUBLE_QUOTE]]) == [opt, w1 + [SPACE] + w2]
  {
    var x, y := [DOUBLE_QUOTE] + w1, w2 + [DOUBLE_QUOTE];
    var ts := [opt, x, y];
    assert ts[1..] == [x, y] && [x, y][1..] == [y] && [y][..1] == [y] && [y][1..] == [];
    assert [x] + [y] == [x, y];
    UnquotePair(w1, w2, DOUBLE_QUOTE);
    var m := w1 + [SPACE] + w2;
    assert !StartsWith(m, SINGLE_QUOTE) by {
      if w1 != [] {
        assert m[0] == w1[0];
      }
    }
    assert Regroup([x, y]) == [m];
  }

  /** A quoted word on its own keeps its quotes: the search for a closer starts after it. */
  lemma LoneQuotedTokenKept(t: string)
    ensures Regroup([t]) == [t]
  {
    assert [t][1..] == [];
  }

  /**
   * A token that opens a quote no later token closes is kept as it is, whichever kind of quote
   * it is, and the merge continues with the next token.
   */
  lemma UnclosedQuoteKept(t: string, rest: seq<string>, q: char)
    requires q == DOUBLE_QUOTE || q == SINGLE_QUOTE
    requires StartsWith(t, q) && Closer(rest, q).None?
    ensures Regroup([t] + rest) == [t] + Regroup(rest)
  {
    assert ([t] + rest)[0] == t && ([t] + rest)[1..] == rest;
  }

  /**
   * `"'w1`, `w2"`, `w3'`: the double-quote merge makes `'w1 w2`, which opens a single quote,
   * so the single-quote merge then takes in `w3'` as well and one argument `w1 w2 w3` results.
   */
  lemma DoubleThenSingleExample(w1: string, w2: string, w3: string)
    requires DOUBLE_QUOTE !in w1 && DOUBLE_QUOTE !in w2 && DOUBLE_QUOTE !in w3
    requires SINGLE_QUOTE !in w1 && SINGLE_QUOTE !in w2 && SINGLE_QUOTE !in w3
    ensures Regroup([[DOUBLE_QUOTE, SINGLE_QUOTE] + w1, w2 + [DOUBLE_QUOTE], w3 + [SINGLE_QUOTE]])
         == [w1 + [SPACE] + w2 + [SPACE] + w3]
  {
    var x, y, z := [DOUBLE_QUOTE, SINGLE_QUOTE] + w1, w2 + [DOUBLE_QUOTE], w3 + [SINGLE_QUOTE];
    var afterDouble := [SINGLE_QUOTE] + w1 + [SPACE] + w2;
    DoubleStep(w1, w2, w3);
    SingleStep(w1, w2, w3);
    assert [x, y, z][0] == x && [x, y, z][1..] == [y, z];
    assert StartsWith(afterDouble, SINGLE_QUOTE);
  }

  /** The double-quote merge of `"'w1`, `w2"`, `w3'` makes `'w1 w2` and leaves `w3'`. */
  lemma DoubleStep(w1: string, w2: string, w3: string)
    requires DOUBLE_QUOTE !in w1 && DOUBLE_QUOTE !in w2
    ensures Absorb([DOUBLE_QUOTE, SINGLE_QUOTE] + w1, [w2 + [DOUBLE_QUOTE], w3 + [SINGLE_QUOTE]], DOUBLE_QUOTE)
         == ([SINGLE_QUOTE] + w1 + [SPACE] + w2, [w3 + [SINGLE_QUOTE]])
  {
    var x, y, z := [DOUBLE_QUOTE, SINGLE_QUOTE] + w1, w2 + [DOUBLE_QUOTE], w3 + [SINGLE_QUOTE];
    assert [y, z][..1] == [y] && [y, z][1..] == [z];
    assert Closer([y, z], DOUBLE_QUOTE) == Some(0);
    assert [x] + [y] == [x, y];
    UnquotePair([SINGLE_QUOTE] + w1, w2, DOUBLE_QUOTE);
    assert [DOUBLE_QUOTE] + ([SINGLE_QUOTE] + w1) == x;
  }

  /** The single-quote merge of `'w1 w2` and `w3'` makes `w1 w2 w3`. */
  lemma SingleStep(w1: string, w2: string, w3: string)
    requires SINGLE_QUOTE !in w1 && SINGLE_QUOTE !in w2 && SINGLE_QUOTE !in w3
    ensures Absorb([SINGLE_QUOTE] + w1 + [SPACE] + w2, [w3 + [SINGLE_QUOTE]], SINGLE_QUOTE)
         == (w1 + [SPACE] + w2 + [SPACE] + w3, [])
  {
    var m, z := [SINGLE_QUOTE] + w1 + [SPACE] + w2, w3 + [SINGLE_QUOTE];
    assert [z][..1] == [z] && [z][1..] == [];
    assert [m] + [z] == [m, z];
    assert SINGLE_QUOTE !in w1 + [SPACE] + w2;
    UnquotePair(w1 + [SPACE] + w2, w3, SINGLE_QUOTE);
    assert [SINGLE_QUOTE] + (w1 + [SPACE] + w2) == m;
  }
}
