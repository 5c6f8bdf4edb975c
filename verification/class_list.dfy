/** The class attribute of an element and the DOM `classList` operations on it.

    `classList` sees the attribute as an ordered set of tokens: the attribute is
    split on ASCII whitespace and duplicates are dropped (first occurrence
    kept). `add` and `remove` edit that ordered set and then write the whole
    attribute back as the tokens joined by single spaces, so they also
    normalise the spacing and drop duplicates of tokens they did not touch.
 */
module ClassList {
  import opened Chars
  import opened Text
  import opened Dom

  /** The token `classList.add` / `classList.remove` accept without throwing:
      non-empty and free of ASCII whitespace. */
  predicate ValidClass(t: string) {
    IsToken(t, IsAsciiWs)
  }

  predicate Distinct(ts: seq<string>) {
    forall i, j :: 0 <= i < j < |ts| ==> ts[i] != ts[j]
  }

  /** The ordered-set view of a token list: later duplicates dropped. */
  function Dedup(ts: seq<string>): (d: seq<string>)
    ensures Distinct(d)
    ensures forall x :: x in d <==> x in ts
    // the tokens come in the order of their first occurrences
    ensures forall i, j :: 0 <= i < j < |d| ==> FirstIndex(ts, d[i]) < FirstIndex(ts, d[j])
  {
    if |ts| == 0 then []
    else
      var init := ts[..|ts| - 1];
      var d := Dedup(init);
      var last := ts[|ts| - 1];
      assert ts == init + [last];
      FirstIndexSnoc(init, last);
      if last in d then d else d + [last]
  }

  /** An already duplicate-free list is its own ordered set. */
  lemma {:induction false} DedupDistinct(ts: seq<string>)
    requires Distinct(ts)
    ensures Dedup(ts) == ts
  {
    if |ts| > 0 {
      var init := ts[..|ts| - 1];
      DedupDistinct(init);
      assert ts[|ts| - 1] !in init;
      assert init + [ts[|ts| - 1]] == ts;
    }
  }

  /** `ts` with every occurrence of `t` removed, order kept. */
  function Without(ts: seq<string>, t: string): (r: seq<string>)
    ensures forall x :: x in r <==> x in ts && x != t
  {
    if |ts| == 0 then []
    else if ts[0] == t then Without(ts[1..], t)
    else [ts[0]] + Without(ts[1..], t)
  }

  /** Removing a token that is absent changes nothing. */
  lemma {:induction false} WithoutAbsent(ts: seq<string>, t: string)
    requires t !in ts
    ensures Without(ts, t) == ts
  {
    if |ts| > 0 {
      assert t !in ts[1..];
      WithoutAbsent(ts[1..], t);
      assert [ts[0]] + ts[1..] == ts;
    }
  }

  /** Removing a token from a duplicate-free list leaves it duplicate-free. */
  lemma {:induction false} WithoutDistinct(ts: seq<string>, t: string)
    requires Distinct(ts)
    ensures Distinct(Without(ts, t))
  {
    if |ts| > 0 {
      var tail := ts[1..];
      assert Distinct(tail) by {
        forall i, j | 0 <= i < j < |tail| ensures tail[i] != tail[j] {
          assert tail[i] == ts[i + 1] && tail[j] == ts[j + 1];
        }
      }
      WithoutDistinct(tail, t);
      assert ts[0] !in tail by {
        forall i | 0 <= i < |tail| ensures tail[i] != ts[0] {
          assert tail[i] == ts[i + 1];
        }
      }
      if ts[0] != t {
        var r := Without(tail, t);
        forall i, j | 0 <= i < j < |[ts[0]] + r| ensures ([ts[0]] + r)[i] != ([ts[0]] + r)[j] {
          if i == 0 {
            assert ([ts[0]] + r)[j] == r[j - 1];
            assert r[j - 1] in r;
          }
        }
      }
    }
  }

  /** The ordered set `classList` reads from a class attribute. */
  function ClassTokens(attr: string): (ts: seq<string>)
    ensures Distinct(ts)
    ensures forall i :: 0 <= i < |ts| ==> ValidClass(ts[i])
    // exactly the attribute's tokens, each at its first occurrence
    ensures forall x :: x in ts <==> x in Tokens(attr, IsAsciiWs)
  {
    var d := Dedup(Tokens(attr, IsAsciiWs));
    assert forall i :: 0 <= i < |d| ==> d[i] in Tokens(attr, IsAsciiWs);
    d
  }

  /** `classList` lists the classes in the order they first appear in the
      attribute. */
  lemma ClassTokensOrder(attr: string)
    ensures var ts := ClassTokens(attr);
      forall i, j :: 0 <= i < j < |ts| ==>
        FirstIndex(Tokens(attr, IsAsciiWs), ts[i]) < FirstIndex(Tokens(attr, IsAsciiWs), ts[j])
  {
  }

  /** The set of classes an element carries. */
  function ClassSet(attr: string): set<string> {
    set t | t in Tokens(attr, IsAsciiWs)
  }

  /** Writing an ordered set back into the attribute. */
  function Serialize(ts: seq<string>): string {
    Join(ts, ' ')
  }

  /** An attribute that `classList` would write back unchanged. */
  predicate Normalized(attr: string) {
    Serialize(ClassTokens(attr)) == attr
  }

  /** Reading back a serialised ordered set gives the same ordered set. */
  lemma ParseSerialize(ts: seq<string>)
    requires Distinct(ts)
    requires forall i :: 0 <= i < |ts| ==> ValidClass(ts[i])
    ensures Tokens(Serialize(ts), IsAsciiWs) == ts
    ensures ClassTokens(Serialize(ts)) == ts
    ensures ClassSet(Serialize(ts)) == set t | t in ts
    ensures Normalized(Serialize(ts))
  {
    TokensOfJoin(ts, ' ', IsAsciiWs);
    DedupDistinct(ts);
  }

  /** `element.classList.add(t)`. */
  function AddClass(attr: string, t: string): (r: string)
    requires ValidClass(t)
  {
    var d := ClassTokens(attr);
    Serialize(if t in d then d else d + [t])
  }

  /** Read back, `classList.add(t)` gives the ordered set with `t` appended,
      unless it already held `t`. */
  lemma AddClassTokens(attr: string, t: string)
    requires ValidClass(t)
    ensures var d := ClassTokens(attr);
      ClassTokens(AddClass(attr, t)) == if t in d then d else d + [t]
  {
    var d := ClassTokens(attr);
    var d' := if t in d then d else d + [t];
    assert Distinct(d');
    ParseSerialize(d');
  }

  /** Adding a class adds exactly that class to the set, and leaves the
      attribute in normal form. */
  lemma AddClassSet(attr: string, t: string)
    requires ValidClass(t)
    ensures ClassSet(AddClass(attr, t)) == ClassSet(attr) + {t}
    ensures Normalized(AddClass(attr, t))
  {
    var r := AddClass(attr, t);
    AddClassTokens(attr, t);
    forall x ensures x in ClassSet(r) <==> x in ClassSet(attr) || x == t {
      assert x in ClassSet(r) <==> x in ClassTokens(r);
      assert x in ClassSet(attr) <==> x in ClassTokens(attr);
    }
  }

  /** `element.classList.remove(t)`. */
  function RemoveClass(attr: string, t: string): (r: string)
    requires ValidClass(t)
  {
    Serialize(Without(ClassTokens(attr), t))
  }

  /** Read back, `classList.remove(t)` gives the ordered set without `t`,
      every other class kept in order. */
  lemma RemoveClassTokens(attr: string, t: string)
    requires ValidClass(t)
    ensures ClassTokens(RemoveClass(attr, t)) == Without(ClassTokens(attr), t)
  {
    var d := Without(ClassTokens(attr), t);
    WithoutDistinct(ClassTokens(attr), t);
    assert forall i :: 0 <= i < |d| ==> d[i] in ClassTokens(attr);
    ParseSerialize(d);
  }

  /** Removing a class takes exactly that class out of the set, and leaves
      the attribute in normal form. */
  lemma RemoveClassSet(attr: string, t: string)
    requires ValidClass(t)
    ensures ClassSet(RemoveClass(attr, t)) == ClassSet(attr) - {t}
    ensures Normalized(RemoveClass(attr, t))
  {
    var d := ClassTokens(attr);
    var d' := Without(d, t);
    WithoutDistinct(d, t);
    assert forall i :: 0 <= i < |d'| ==> d'[i] in d;
    ParseSerialize(d');
    SetOfDedup(Tokens(attr, IsAsciiWs));
    SetOfWithout(d, t);
  }

  /** Deduplication keeps the set of tokens. */
  lemma SetOfDedup(ts: seq<string>)
    ensures (set x | x in Dedup(ts)) == (set x | x in ts)
  {
  }

  /** Filtering a token out removes exactly that token from the set. */
  lemma SetOfWithout(ts: seq<string>, t: string)
    ensures (set x | x in Without(ts, t)) == (set x | x in ts) - {t}
  {
  }

  /** Adding a class the attribute lacks and removing it again leaves the
      attribute's own ordered set, written back in normal form. */
  lemma RemoveAfterAddNormalizes(attr: string, t: string)
    requires ValidClass(t)
    requires t !in ClassSet(attr)
    ensures t in ClassSet(AddClass(attr, t))
    ensures RemoveClass(AddClass(attr, t), t) == Serialize(ClassTokens(attr))
  {
    var d := ClassTokens(attr);
    assert t !in d;
    var d' := d + [t];
    assert Distinct(d');
    ParseSerialize(d');
    WithoutAppend(d, t);
  }

  /** Adding a class the attribute lacks and removing it again gives back the
      attribute exactly, provided it was already in `classList`'s normal form. */
  lemma RemoveAfterAdd(attr: string, t: string)
    requires ValidClass(t)
    requires Normalized(attr)
    requires t !in ClassSet(attr)
    ensures RemoveClass(AddClass(attr, t), t) == attr
  {
    RemoveAfterAddNormalizes(attr, t);
  }

  /** Filtering out a token that was appended to a list lacking it undoes the append. */
  lemma {:induction false} WithoutAppend(d: seq<string>, t: string)
    requires t !in d
    ensures Without(d + [t], t) == d
  {
    if |d| == 0 {
      assert d + [t] == [t];
    } else {
      assert (d + [t])[1..] == d[1..] + [t];
      assert t !in d[1..];
      WithoutAppend(d[1..], t);
      assert [d[0]] + d[1..] == d;
    }
  }

  /** `classList` reads `"a  a"` as the ordered set `["a"]`. */
  lemma ClassTokensOfDoubledA()
    ensures ClassTokens("a  a") == ["a"]
  {
    var ws := IsAsciiWs;
    assert Word("a", ws) == "a" && "a"[1..] == "";
    assert Tokens("a", ws) == ["a"];
    assert "  a"[1..] == " a" && " a"[1..] == "a";
    assert Tokens("  a", ws) == ["a"];
    assert "a  a"[1..] == "  a";
    assert Word("a  a", ws) == "a";
    assert Tokens("a  a", ws) == ["a", "a"];
    assert ["a", "a"][..1] == ["a"] && ["a"][..0] == [];
  }

  /** A class attribute that is not in normal form is not given back: adding
      and then removing a class rewrites `"a  a"` as `"a"`. */
  lemma RemoveAfterAddRewrites()
    ensures !Normalized("a  a")
    ensures RemoveClass(AddClass("a  a", "x"), "x") == "a"
  {
    ClassTokensOfDoubledA();
    assert ValidClass("a") && ValidClass("x");
    ParseSerialize(["a", "x"]);
    var added := AddClass("a  a", "x");
    assert added == Join(["a", "x"], ' ');
    assert ClassTokens(added) == ["a", "x"];
    assert Without(["a", "x"], "x") == ["a"];
  }
}
