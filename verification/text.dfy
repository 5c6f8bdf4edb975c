/** Whitespace-driven string operations, parameterised by the whitespace
    predicate `ws` so that the same definitions serve ECMAScript `\s` and the
    DOM's ASCII whitespace.

    `Tokens` is the reference meaning of a whitespace-separated list: the
    maximal runs of non-whitespace characters, in order, duplicates kept.
 */
module Text {

  /** No character of `s` is whitespace. */
  predicate NoWs(s: string, ws: char -> bool) {
    forall k :: 0 <= k < |s| ==> !ws(s[k])
  }

  /** Every character of `s` is whitespace. */
  predicate AllWs(s: string, ws: char -> bool) {
    forall k :: 0 <= k < |s| ==> ws(s[k])
  }

  /** A token of a whitespace-separated list: non-empty and whitespace-free. */
  predicate IsToken(t: string, ws: char -> bool) {
    |t| > 0 && NoWs(t, ws)
  }

  predicate AllTokens(ts: seq<string>, ws: char -> bool) {
    forall i :: 0 <= i < |ts| ==> IsToken(ts[i], ws)
  }

  /** The longest whitespace-free prefix of `s`. */
  function Word(s: string, ws: char -> bool): (w: string)
    ensures |w| <= |s| && w == s[..|w|]
    ensures NoWs(w, ws)
    ensures |w| < |s| ==> ws(s[|w|])
  {
    if |s| == 0 || ws(s[0]) then [] else [s[0]] + Word(s[1..], ws)
  }

  /** `s` without its leading whitespace. */
  function TrimStart(s: string, ws: char -> bool): (r: string)
    ensures |r| <= |s| && r == s[|s| - |r|..]
    ensures forall k :: 0 <= k < |s| - |r| ==> ws(s[k])
    ensures |r| > 0 ==> !ws(r[0])
  {
    if |s| > 0 && ws(s[0]) then TrimStart(s[1..], ws) else s
  }

  /** `s` without its trailing whitespace. */
  function TrimEnd(s: string, ws: char -> bool): (r: string)
    ensures |r| <= |s| && r == s[..|r|]
    ensures forall k :: |r| <= k < |s| ==> ws(s[k])
    ensures |r| > 0 ==> !ws(r[|r| - 1])
  {
    if |s| > 0 && ws(s[|s| - 1]) then TrimEnd(s[..|s| - 1], ws) else s
  }

  /** `String.prototype.trim` for the whitespace class `ws`. */
  function Trim(s: string, ws: char -> bool): (r: string)
    ensures |r| <= |s|
    // neither end is whitespace
    ensures |r| > 0 ==> !ws(r[0]) && !ws(r[|r| - 1])
  {
    var t := TrimStart(s, ws);
    var r := TrimEnd(t, ws);
    assert |r| > 0 ==> r[0] == t[0];
    r
  }

  /** The trim is the middle of `s`, from offset `a` on: what is cut off at
      either end is whitespace. */
  lemma TrimIsSlice(s: string, ws: char -> bool) returns (a: nat)
    ensures a + |Trim(s, ws)| <= |s| && Trim(s, ws) == s[a..a + |Trim(s, ws)|]
    ensures forall k :: 0 <= k < a ==> ws(s[k])
    ensures forall k :: a + |Trim(s, ws)| <= k < |s| ==> ws(s[k])
  {
    var t := TrimStart(s, ws);
    a := |s| - |t|;
    PrefixOfSuffix(s, t, TrimEnd(t, ws), ws);
  }

  /** A prefix `r` of a suffix `t` of `s`, with whitespace after `r` in `t`,
      is followed by whitespace in `s`. */
  lemma PrefixOfSuffix(s: string, t: string, r: string, ws: char -> bool)
    requires |t| <= |s| && t == s[|s| - |t|..]
    requires |r| <= |t| && r == t[..|r|]
    requires forall k :: |r| <= k < |t| ==> ws(t[k])
    ensures var a := |s| - |t|; r == s[a..a + |r|]
    ensures forall k :: |s| - |t| + |r| <= k < |s| ==> ws(s[k])
  {
    var a := |s| - |t|;
    forall k | a + |r| <= k < |s| ensures ws(s[k]) {
      assert s[k] == t[k - a];
    }
  }

  /** `s` is its own trim: empty, or neither starting nor ending with whitespace. */
  predicate Trimmed(s: string, ws: char -> bool) {
    |s| == 0 || (!ws(s[0]) && !ws(s[|s| - 1]))
  }

  lemma TrimIsTrimmed(s: string, ws: char -> bool)
    ensures Trimmed(Trim(s, ws), ws)
    ensures AllWs(s, ws) <==> Trim(s, ws) == []
  {
    var a := TrimStart(s, ws);
    var r := TrimEnd(a, ws);
    if |r| > 0 {
      assert r[0] == a[0];
    }
  }

  /** `s.replace(/\s+/g, sep)`: every maximal whitespace run becomes one `sep`. */
  function CollapseRuns(s: string, ws: char -> bool, sep: char): (r: string)
    // never longer
    ensures |r| <= |s|
    decreases |s|
  {
    if |s| == 0 then []
    else if ws(s[0]) then [sep] + CollapseRuns(TrimStart(s, ws), ws, sep)
    else [s[0]] + CollapseRuns(s[1..], ws, sep)
  }

  /** Collapsing leaves no whitespace: each character is a separator or not
      whitespace. */
  lemma {:induction false} CollapseRunsNoWs(s: string, ws: char -> bool, sep: char)
    ensures SepOrNoWs(CollapseRuns(s, ws, sep), ws, sep)
    decreases |s|
  {
    if |s| > 0 {
      if ws(s[0]) {
        var t := TrimStart(s, ws);
        CollapseRunsNoWs(t, ws, sep);
        SepOrNoWsCons(sep, CollapseRuns(t, ws, sep), ws, sep);
      } else {
        CollapseRunsNoWs(s[1..], ws, sep);
        SepOrNoWsCons(s[0], CollapseRuns(s[1..], ws, sep), ws, sep);
      }
    }
  }

  /** Every character of `r` is the separator or not whitespace. */
  predicate SepOrNoWs(r: string, ws: char -> bool, sep: char) {
    forall k :: 0 <= k < |r| ==> r[k] == sep || !ws(r[k])
  }

  lemma SepOrNoWsCons(c: char, r: string, ws: char -> bool, sep: char)
    requires c == sep || !ws(c)
    requires SepOrNoWs(r, ws, sep)
    ensures SepOrNoWs([c] + r, ws, sep)
  {
    forall k | 0 < k <= |r| ensures ([c] + r)[k] == r[k - 1] {}
  }

  /** The tokens of `s`: its maximal whitespace-free runs, in order. */
  function Tokens(s: string, ws: char -> bool): (ts: seq<string>)
    ensures AllTokens(ts, ws)
    decreases |s|
  {
    if |s| == 0 then []
    else if ws(s[0]) then Tokens(s[1..], ws)
    else
      var w := Word(s, ws);
      [w] + Tokens(s[|w|..], ws)
  }

  /** `ts.join(sep)`. */
  function Join(ts: seq<string>, sep: char): (r: string)
  {
    if |ts| == 0 then []
    else if |ts| == 1 then ts[0]
    else ts[0] + [sep] + Join(ts[1..], sep)
  }

  /** Joining with a separator that is not whitespace introduces no whitespace. */
  lemma {:induction false} JoinNoWs(ts: seq<string>, sep: char, ws: char -> bool)
    requires forall i :: 0 <= i < |ts| ==> NoWs(ts[i], ws)
    requires !ws(sep)
    ensures NoWs(Join(ts, sep), ws)
  {
    if |ts| > 1 {
      JoinNoWs(ts[1..], sep, ws);
      var j := Join(ts[1..], sep);
      assert Join(ts, sep) == ts[0] + [sep] + j;
      forall k | 0 <= k < |Join(ts, sep)|
        ensures !ws(Join(ts, sep)[k])
      {
        if k < |ts[0]| {
          assert Join(ts, sep)[k] == ts[0][k];
        } else if k > |ts[0]| {
          assert Join(ts, sep)[k] == j[k - |ts[0]| - 1];
        }
      }
    }
  }

  /** The word of a whitespace-free prefix followed by whitespace is that prefix. */
  lemma {:induction false} WordOfPrefix(w: string, t: string, ws: char -> bool)
    requires NoWs(w, ws)
    requires |t| == 0 || ws(t[0])
    ensures Word(w + t, ws) == w
  {
    if |w| > 0 {
      assert (w + t)[1..] == w[1..] + t;
      WordOfPrefix(w[1..], t, ws);
    }
  }

  /** Collapsing leaves a whitespace-free prefix untouched. */
  lemma {:induction false} CollapseNoWsPrefix(w: string, t: string, ws: char -> bool, sep: char)
    requires NoWs(w, ws)
    ensures CollapseRuns(w + t, ws, sep) == w + CollapseRuns(t, ws, sep)
    decreases |w|
  {
    if |w| == 0 {
      assert w + t == t;
    } else {
      var u := w + t;
      var c := w[0];
      var w' := w[1..];
      assert u[0] == c;
      assert !ws(c);
      assert u[1..] == w' + t;
      CollapseNoWsPrefix(w', t, ws, sep);
      calc {
        CollapseRuns(u, ws, sep);
        [c] + CollapseRuns(w' + t, ws, sep);
        [c] + (w' + CollapseRuns(t, ws, sep));
        { assert w == [c] + w'; }
        w + CollapseRuns(t, ws, sep);
      }
    }
  }

  /** Leading whitespace contributes no token. */
  lemma {:induction false} TokensTrimStart(s: string, ws: char -> bool)
    ensures Tokens(TrimStart(s, ws), ws) == Tokens(s, ws)
    decreases |s|
  {
    if |s| > 0 && ws(s[0]) {
      TokensTrimStart(s[1..], ws);
    }
  }

  /** Trailing whitespace contributes no token. */
  lemma {:induction false} TokensAppendWs(s: string, t: string, ws: char -> bool)
    requires AllWs(t, ws)
    ensures Tokens(s + t, ws) == Tokens(s, ws)
    decreases |s|
  {
    if |s| == 0 {
      assert s + t == t;
      TokensOfWs(t, ws);
    } else if ws(s[0]) {
      assert (s + t)[1..] == s[1..] + t;
      TokensAppendWs(s[1..], t, ws);
    } else {
      var w := Word(s, ws);
      if |w| < |s| {
        assert s == w + s[|w|..];
        assert s + t == w + (s[|w|..] + t);
        WordOfPrefix(w, s[|w|..] + t, ws);
        assert (s + t)[|w|..] == s[|w|..] + t;
      } else {
        assert s == w;
        WordOfPrefix(w, t, ws);
        assert (s + t)[|w|..] == t;
        assert s[|w|..] == [];
        TokensOfWs(t, ws);
      }
      TokensAppendWs(s[|w|..], t, ws);
    }
  }

  /** A whitespace-only string has no tokens. */
  lemma {:induction false} TokensOfWs(t: string, ws: char -> bool)
    requires AllWs(t, ws)
    ensures Tokens(t, ws) == []
    decreases |t|
  {
    if |t| > 0 {
      TokensOfWs(t[1..], ws);
    }
  }

  /** A string is its trailing-whitespace trim followed by whitespace. */
  lemma TrimEndSplit(a: string, ws: char -> bool)
    ensures a == TrimEnd(a, ws) + a[|TrimEnd(a, ws)|..]
    ensures AllWs(a[|TrimEnd(a, ws)|..], ws)
  {
    var n := |TrimEnd(a, ws)|;
    var tail := a[n..];
    forall k | 0 <= k < |tail| ensures ws(tail[k]) {
      assert tail[k] == a[n + k];
    }
  }

  /** Trimming does not change the tokens. */
  lemma TokensTrim(s: string, ws: char -> bool)
    ensures Tokens(Trim(s, ws), ws) == Tokens(s, ws)
  {
    var a := TrimStart(s, ws);
    TrimEndSplit(a, ws);
    TokensTrimStart(s, ws);
    TokensAppendWs(TrimEnd(a, ws), a[|TrimEnd(a, ws)|..], ws);
  }

  /** Removing leading whitespace keeps a non-whitespace last character. */
  lemma TrimStartKeepsLast(s: string, ws: char -> bool)
    requires |s| > 0 && !ws(s[|s| - 1])
    ensures |TrimStart(s, ws)| > 0
    ensures Trimmed(TrimStart(s, ws), ws)
  {
    var r := TrimStart(s, ws);
    assert |r| > 0;
    assert r[|r| - 1] == s[|s| - 1];
  }

  /** Joining one more token in front adds it and a separator. */
  lemma JoinCons(w: string, ts: seq<string>, sep: char)
    requires |ts| > 0
    ensures Join([w] + ts, sep) == w + [sep] + Join(ts, sep)
  {
    assert ([w] + ts)[1..] == ts;
  }

  /** A trimmed string is a word, then (if anything is left) a run of
      whitespace, then a shorter trimmed string. */
  lemma TrimmedStep(s: string, ws: char -> bool, sep: char)
    requires Trimmed(s, ws) && |s| > 0
    requires |Word(s, ws)| < |s|
    ensures var rest := s[|Word(s, ws)|..];
      var r := TrimStart(rest, ws);
      && |r| > 0 && |r| < |s| && Trimmed(r, ws)
      && CollapseRuns(rest, ws, sep) == [sep] + CollapseRuns(r, ws, sep)
      && Tokens(rest, ws) == Tokens(r, ws)
  {
    var w := Word(s, ws);
    var rest := s[|w|..];
    assert ws(rest[0]);
    assert rest[|rest| - 1] == s[|s| - 1];
    TrimStartKeepsLast(rest, ws);
    TokensTrimStart(rest, ws);
  }

  /** On a trimmed string, collapsing whitespace runs to `sep` is the same as
      joining its tokens with `sep`. */
  lemma {:induction false} CollapseTrimmedIsJoin(s: string, ws: char -> bool, sep: char)
    requires Trimmed(s, ws)
    ensures CollapseRuns(s, ws, sep) == Join(Tokens(s, ws), sep)
    decreases |s|
  {
    if |s| > 0 {
      var w := Word(s, ws);
      var rest := s[|w|..];
      assert Tokens(s, ws) == [w] + Tokens(rest, ws);
      assert s == w + rest;
      CollapseNoWsPrefix(w, rest, ws, sep);
      if |rest| == 0 {
        assert Tokens(s, ws) == [w];
        assert w + CollapseRuns(rest, ws, sep) == w;
      } else {
        TrimmedStep(s, ws, sep);
        var r := TrimStart(rest, ws);
        CollapseTrimmedIsJoin(r, ws, sep);
        assert Tokens(r, ws) == [Word(r, ws)] + Tokens(r[|Word(r, ws)|..], ws);
        JoinCons(w, Tokens(r, ws), sep);
      }
    }
  }

  /** `CollapseRuns(Trim(s))` is the `sep`-join of the tokens of `s`. */
  lemma CollapseTrimIsJoinTokens(s: string, ws: char -> bool, sep: char)
    ensures CollapseRuns(Trim(s, ws), ws, sep) == Join(Tokens(s, ws), sep)
  {
    TrimIsTrimmed(s, ws);
    CollapseTrimmedIsJoin(Trim(s, ws), ws, sep);
    TokensTrim(s, ws);
  }

  /** Splitting a `sep`-join of tokens on whitespace gives the tokens back,
      when `sep` is itself whitespace. */
  lemma {:induction false} TokensOfJoin(ts: seq<string>, sep: char, ws: char -> bool)
    requires AllTokens(ts, ws)
    requires ws(sep)
    ensures Tokens(Join(ts, sep), ws) == ts
  {
    if |ts| == 1 {
      WordOfPrefix(ts[0], [], ws);
      assert ts[0] + [] == ts[0];
      assert ts[0][|ts[0]|..] == [];
    } else if |ts| > 1 {
      var j := Join(ts[1..], sep);
      var s := ts[0] + ([sep] + j);
      assert Join(ts, sep) == s;
      WordOfPrefix(ts[0], [sep] + j, ws);
      assert s[|ts[0]|..] == [sep] + j;
      assert ([sep] + j)[1..] == j;
      TokensOfJoin(ts[1..], sep, ws);
      assert ts == [ts[0]] + ts[1..];
    }
  }

  /** Appending a token to a list appends it, after one separator, to the join. */
  lemma {:induction false} JoinSnoc(ts: seq<string>, w: string, sep: char)
    ensures Join(ts + [w], sep) == if |ts| == 0 then w else Join(ts, sep) + [sep] + w
  {
    if |ts| > 1 {
      assert (ts + [w])[1..] == ts[1..] + [w];
      JoinSnoc(ts[1..], w, sep);
    } else if |ts| == 1 {
      assert ts + [w] == [ts[0], w];
      assert [ts[0], w][1..] == [w];
    }
  }

  /** When every `ws'` character of `s` is also a `ws` character, the `ws`
      tokens of `s` hold no `ws'` character either. */
  lemma {:induction false} TokensFinerWs(s: string, ws: char -> bool, ws': char -> bool)
    requires forall k :: 0 <= k < |s| && ws'(s[k]) ==> ws(s[k])
    ensures AllTokens(Tokens(s, ws), ws')
    decreases |s|
  {
    if |s| > 0 {
      if ws(s[0]) {
        TokensFinerWs(s[1..], ws, ws');
      } else {
        var w := Word(s, ws);
        forall k | 0 <= k < |w| ensures !ws'(w[k]) {
          assert w[k] == s[k];
        }
        TokensFinerWs(s[|w|..], ws, ws');
      }
    }
  }

  /** Gluing two whitespace-free strings gives a whitespace-free string. */
  lemma NoWsAppend(a: string, b: string, ws: char -> bool)
    requires NoWs(a, ws) && NoWs(b, ws)
    ensures NoWs(a + b, ws)
  {
    forall k | 0 <= k < |a + b| ensures !ws((a + b)[k]) {
      if k < |a| {
        assert (a + b)[k] == a[k];
      } else {
        assert (a + b)[k] == b[k - |a|];
      }
    }
  }
}
