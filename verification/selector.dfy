/** `generateSelector`: the CSS selector the inspector copies for an element.

    An element with an `id` is named by `#id`. Otherwise the selector is the
    lower-cased tag name, followed, when the class attribute is non-empty, by
    `.` and the trimmed class attribute with every whitespace run turned into
    `.`, which is the same as `.` followed by the class tokens joined with `.`.
 */
module Selector {
  import opened Chars
  import opened Text
  import opened Dom

  /** The class part: `className.trim().replace(/\s+/g, '.')`. */
  function ClassSuffix(className: string): (r: string)
    ensures r == Join(Tokens(className, IsJsWs), '.')
    ensures NoWs(r, IsJsWs)
  {
    CollapseTrimIsJoinTokens(className, IsJsWs, '.');
    JoinNoWs(Tokens(className, IsJsWs), '.', IsJsWs);
    CollapseRuns(Trim(className, IsJsWs), IsJsWs, '.')
  }

  /** `generateSelector(element)`. */
  function GenerateSelector(e: Element): (r: string)
    // an id wins over tag and classes
    ensures |e.id| > 0 ==> r == "#" + e.id
    // no id: the tag, lower-cased, comes first ...
    ensures |e.id| == 0 ==> |r| >= |e.tag| && r[..|e.tag|] == Lower(e.tag)
    // ... alone when there is no class attribute ...
    ensures |e.id| == 0 && |e.className| == 0 ==> r == Lower(e.tag)
    // ... else followed by one `.`-prefixed step per class token, in order
    ensures |e.id| == 0 && |e.className| > 0 ==>
              r == Lower(e.tag) + "." + Join(Tokens(e.className, IsJsWs), '.')
  {
    if |e.id| > 0 then
      "#" + e.id
    else
      var selector := Lower(e.tag);
      if |e.className| > 0 then
        var r := selector + "." + ClassSuffix(e.className);
        assert r[..|selector|] == selector;
        r
      else selector
  }

  /** Lower-casing a whitespace-free tag keeps it whitespace-free. */
  lemma LowerNoWs(tag: string)
    requires NoWs(tag, IsJsWs)
    ensures NoWs(Lower(tag), IsJsWs)
  {
    var t := Lower(tag);
    forall k | 0 <= k < |t| ensures !IsJsWs(t[k]) {
      LowerKeepsWs(tag, k);
    }
  }

  /** Without an id, the selector has no whitespace when the tag has none,
      and it is never empty when the tag is not. */
  lemma NoIdSelectorShape(e: Element)
    requires |e.id| == 0
    ensures NoWs(e.tag, IsJsWs) ==> NoWs(GenerateSelector(e), IsJsWs)
    ensures |e.tag| > 0 ==> |GenerateSelector(e)| > 0
  {
    if NoWs(e.tag, IsJsWs) {
      var t := Lower(e.tag);
      LowerNoWs(e.tag);
      if |e.className| > 0 {
        var c := ClassSuffix(e.className);
        DotJoinNoWs(t, c, IsJsWs);
        assert GenerateSelector(e) == t + "." + c;
      }
    }
  }

  lemma DotJoinNoWs(t: string, c: string, ws: char -> bool)
    requires NoWs(t, ws) && NoWs(c, ws) && !ws('.')
    ensures NoWs(t + "." + c, ws)
  {
    NoWsAppend(t, ".", ws);
    NoWsAppend(t + ".", c, ws);
  }

  /** A class attribute made only of whitespace leaves a bare trailing dot. */
  lemma WhitespaceOnlyClass(e: Element)
    requires |e.id| == 0 && |e.className| > 0
    requires AllWs(e.className, IsJsWs)
    ensures GenerateSelector(e) == Lower(e.tag) + "."
  {
    TokensOfWs(e.className, IsJsWs);
  }

  /** The selector reads the tag, the id and the class attribute only. */
  lemma SelectorOfAttributes(e: Element, e': Element)
    requires e.tag == e'.tag && e.id == e'.id && e.className == e'.className
    ensures GenerateSelector(e) == GenerateSelector(e')
  {
  }

  /** Without an id, an element whose class attribute is a space-join of
      `\s`-free classes is named by its tag and those classes, in order. */
  lemma SelectorOfJoinedClasses(e: Element, d: seq<string>)
    requires |e.id| == 0
    requires AllTokens(d, IsJsWs)
    requires e.className == Join(d, ' ')
    ensures GenerateSelector(e) == if |d| == 0 then Lower(e.tag) else Lower(e.tag) + "." + Join(d, '.')
  {
    TokensOfJoin(d, ' ', IsJsWs);
  }
}
