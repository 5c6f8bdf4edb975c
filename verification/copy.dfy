/** The selector a numbered button copies.

    The click and touchend handlers of the button on a `<div>` call
    `generateSelector(div)` when the button is pressed, that is while the
    overlay is on and the `<div>` carries the outline class. For a `<div>`
    without an `id` whose class attribute lacked the outline class (and uses
    only ASCII whitespace), the outline class therefore ends up as the last
    `.`-step of the copied selector, although the page's own element does not
    carry that class once the overlay is off. A `<div>` that already carried
    the outline class keeps it where it was, since `classList.add` does not
    move a class it already holds. `CopiedSelector` is the handler
    as written; `CopiedSelectorFixed` builds the selector of the element
    with the overlay's class taken off, which is the page's own selector.
 */
module Copy {
  import opened Chars
  import opened Text
  import opened ClassList
  import opened Dom
  import opened Selector
  import opened Inspector

  /** The selector copied by the handler of the `j`-th button, as written. */
  function CopiedSelector(s: State, j: nat): string
    requires j < |s.buttons| && s.buttons[j].host < |s.elements|
  {
    GenerateSelector(s.elements[s.buttons[j].host])
  }

  /** The selector of the `j`-th button's element without the overlay's class. */
  function CopiedSelectorFixed(s: State, j: nat): string
    requires j < |s.buttons| && s.buttons[j].host < |s.elements|
  {
    GenerateSelector(StripOutline(s.elements[s.buttons[j].host]))
  }

  /** The handler copies the host's id when it has one, else its tag and
      every class it carries at the time of the click. Taking the overlay's
      class off changes the copied selector only for a host without an id
      that carries the outline class. */
  lemma CopiedSelectorCases(s: State, j: nat)
    requires j < |s.buttons| && s.buttons[j].host < |s.elements|
    ensures var e := s.elements[s.buttons[j].host];
      |e.id| > 0 ==> CopiedSelector(s, j) == "#" + e.id
    ensures var e := s.elements[s.buttons[j].host];
      |e.id| == 0 && |e.className| > 0 ==>
        CopiedSelector(s, j) == Lower(e.tag) + "." + Join(Tokens(e.className, IsJsWs), '.')
    ensures var e := s.elements[s.buttons[j].host];
      |e.id| > 0 || OutlineClass !in ClassSet(e.className) ==> CopiedSelectorFixed(s, j) == CopiedSelector(s, j)
  {
  }

  /** The class attribute holds no whitespace beyond ASCII whitespace, so
      `classList` and `\s` split it alike. */
  predicate AsciiSpacing(c: string) {
    forall k :: 0 <= k < |c| && IsJsWs(c[k]) ==> IsAsciiWs(c[k])
  }

  lemma OutlineClassPlain()
    ensures IsToken(OutlineClass, IsJsWs)
  {
  }

  /** After enabling, the `j`-th button sits on the `j`-th `<div>`. */
  lemma EnabledButtonHost(s: State, j: nat)
    requires !s.enabled && s.buttons == [] && j < |Divs(s.elements)|
    ensures j < |Enable(s).buttons|
    ensures Enable(s).buttons[j] == ButtonRef(Divs(s.elements)[j], j + 1)
  {
    assert Enable(s).buttons == Numbered(Divs(s.elements));
  }

  /** The ordered set of classes of an attribute with ASCII spacing, with or
      without the outline class after them, are tokens for `\s` too. */
  lemma ClassTokensPlain(c: string)
    requires AsciiSpacing(c)
    ensures AllTokens(ClassTokens(c), IsJsWs)
    ensures AllTokens(ClassTokens(c) + [OutlineClass], IsJsWs)
  {
    TokensFinerWs(c, IsAsciiWs, IsJsWs);
    OutlineClassPlain();
    var d := ClassTokens(c);
    forall i | 0 <= i < |d| ensures IsToken(d[i], IsJsWs) {
      assert d[i] in Tokens(c, IsAsciiWs);
    }
  }

  /** As written: on a `<div>` without an id whose class attribute lacks the
      outline class and uses only ASCII whitespace, the copied selector is the tag, then every class of the
      element in `classList` order, then the outline class. */
  lemma CopiedSelectorNamesOutline(s: State, j: nat)
    requires Valid(s) && !s.enabled && j < |Divs(s.elements)|
    requires var e := s.elements[Divs(s.elements)[j]];
      |e.id| == 0 && AsciiSpacing(e.className) && OutlineClass !in ClassSet(e.className)
    ensures var e := s.elements[Divs(s.elements)[j]]; var r := Enable(s);
      && j < |r.buttons| && r.buttons[j].host < |r.elements|
      && CopiedSelector(r, j) == Lower(e.tag) + "." + Join(ClassTokens(e.className) + [OutlineClass], '.')
  {
    var es := s.elements;
    var i := Divs(es)[j];
    var r := Enable(s);
    EnabledButtonHost(s, j);
    EnableClassAttribute(s);
    EnableKeepsTags(s);
    OutlinedSelector(r.elements[i], es[i].className);
  }

  /** Without an id, an element whose class attribute is that of `c` with the
      outline class added is named by its tag, the classes of `c` and the
      outline class. */
  lemma OutlinedSelector(e: Element, c: string)
    requires |e.id| == 0 && e.className == AddOutline(c)
    requires AsciiSpacing(c) && OutlineClass !in ClassSet(c)
    ensures GenerateSelector(e) == Lower(e.tag) + "." + Join(ClassTokens(c) + [OutlineClass], '.')
  {
    var d := ClassTokens(c);
    assert OutlineClass !in d;
    ClassTokensPlain(c);
    SelectorOfJoinedClasses(e, d + [OutlineClass]);
  }

  /** When the `<div>` of the `j`-th button lacked the outline class, taking
      that class off again leaves its tag, its id and its own ordered set of
      classes, written in normal form. */
  lemma EnabledDivStripped(s: State, j: nat)
    requires Valid(s) && !s.enabled && j < |Divs(s.elements)|
    requires OutlineClass !in ClassSet(s.elements[Divs(s.elements)[j]].className)
    ensures var e := s.elements[Divs(s.elements)[j]]; var r := Enable(s);
      && j < |r.buttons| && r.buttons[j].host < |r.elements|
      && var e' := StripOutline(r.elements[r.buttons[j].host]);
      && e'.tag == e.tag && e'.id == e.id
      && e'.className == Join(ClassTokens(e.className), ' ')
  {
    var es := s.elements;
    var i := Divs(es)[j];
    var r := Enable(s);
    var c := es[i].className;
    EnabledButtonHost(s, j);
    EnableClassAttribute(s);
    EnableKeepsTags(s);
    OutlineClassValid();
    RemoveAfterAddNormalizes(c, OutlineClass);
  }

  /** With the overlay's class taken off, the selector of a `<div>` without
      an id, whose class attribute lacked the outline class and uses only
      ASCII whitespace, is the tag followed by the
      element's classes in `classList` order. */
  lemma CopiedSelectorFixedValue(s: State, j: nat)
    requires Valid(s) && !s.enabled && j < |Divs(s.elements)|
    requires var e := s.elements[Divs(s.elements)[j]];
      |e.id| == 0 && AsciiSpacing(e.className) && OutlineClass !in ClassSet(e.className)
    ensures var e := s.elements[Divs(s.elements)[j]]; var r := Enable(s); var d := ClassTokens(e.className);
      && j < |r.buttons| && r.buttons[j].host < |r.elements|
      && CopiedSelectorFixed(r, j) == if |d| == 0 then Lower(e.tag) else Lower(e.tag) + "." + Join(d, '.')
  {
    var e := s.elements[Divs(s.elements)[j]];
    var r := Enable(s);
    var d := ClassTokens(e.className);
    EnabledDivStripped(s, j);
    ClassTokensPlain(e.className);
    SelectorOfJoinedClasses(StripOutline(r.elements[r.buttons[j].host]), d);
  }

  /** As written, the copied selector is not the element's own: it is longer
      than the selector of the element without the overlay's class by exactly
      one `.` and the outline class. */
  lemma CopiedSelectorDiffers(s: State, j: nat)
    requires Valid(s) && !s.enabled && j < |Divs(s.elements)|
    requires var e := s.elements[Divs(s.elements)[j]];
      |e.id| == 0 && AsciiSpacing(e.className) && OutlineClass !in ClassSet(e.className)
    ensures var r := Enable(s);
      && j < |r.buttons| && r.buttons[j].host < |r.elements|
      && |CopiedSelector(r, j)| == |CopiedSelectorFixed(r, j)| + |OutlineClass| + 1
      && CopiedSelector(r, j) != CopiedSelectorFixed(r, j)
  {
    var e := s.elements[Divs(s.elements)[j]];
    CopiedSelectorNamesOutline(s, j);
    CopiedSelectorFixedValue(s, j);
    JoinSnoc(ClassTokens(e.className), OutlineClass, '.');
  }

  /** Corrected: the selector copied with the overlay's class taken off is the
      selector of the same element once the overlay is switched off, and the
      page's own selector for it whenever the element did not carry the
      outline class and its class attribute was in `classList`'s normal form. */
  lemma CopiedSelectorFixedIsPages(s: State, j: nat)
    requires Valid(s) && !s.enabled && j < |Divs(s.elements)|
    ensures var i := Divs(s.elements)[j]; var r := Enable(s);
      && j < |r.buttons| && r.buttons[j].host < |r.elements|
      && CopiedSelectorFixed(r, j) == GenerateSelector(Disable(r).elements[i])
      && (OutlineClass !in ClassSet(s.elements[i].className) && Normalized(s.elements[i].className) ==>
            CopiedSelectorFixed(r, j) == GenerateSelector(s.elements[i]))
  {
    var es := s.elements;
    var i := Divs(es)[j];
    var r := Enable(s);
    EnabledButtonHost(s, j);
    DisableKeepsAttributes(r);
    SelectorOfAttributes(StripOutline(r.elements[i]), Disable(r).elements[i]);
    if OutlineClass !in ClassSet(es[i].className) && Normalized(es[i].className) {
      EnableThenDisableTags(s);
      EnableThenDisableAttribute(s);
      SelectorOfAttributes(Disable(r).elements[i], es[i]);
    }
  }

  /** A page holding one `<div class="card">` and nothing else. */
  function CardPage(): State {
    State(false, false, [], [Element("DIV", "", "card", [])], [])
  }

  /** The card page is a valid page with the overlay off, its one element is
      a `<div>`, and its class attribute is the single class `card`. */
  lemma CardPageShape()
    ensures Valid(CardPage()) && Divs(CardPage().elements) == [0]
    ensures ClassTokens("card") == ["card"] && Normalized("card")
    ensures OutlineClass !in ClassSet("card") && AsciiSpacing("card")
  {
    assert Lower("DIV") == "div";
    assert Divs(CardPage().elements) == [0];
    assert ValidClass("card");
    ParseSerialize(["card"]);
    assert Serialize(["card"]) == "card";
  }

  /** On the card page with the overlay on, the button copies
      `div.card.buildflowz-outline`. */
  lemma CardCopied()
    ensures var r := Enable(CardPage());
      && |r.buttons| == 1 && r.buttons[0].host == 0
      && CopiedSelector(r, 0) == "div" + "." + ("card" + "." + OutlineClass)
  {
    var s := CardPage();
    CardPageShape();
    CopiedSelectorNamesOutline(s, 0);
    assert s.elements[Divs(s.elements)[0]] == s.elements[0];
    assert Lower("DIV") == "div";
    JoinSnoc(["card"], OutlineClass, '.');
    assert Join(["card"], '.') == "card";
  }

  /** On the card page, the selector with the overlay's class taken off is
      `div.card`, which is also the page's own selector for the element. */
  lemma CardFixed()
    ensures var s := CardPage(); var r := Enable(s);
      && |r.buttons| == 1 && r.buttons[0].host == 0
      && CopiedSelectorFixed(r, 0) == "div" + "." + "card"
      && GenerateSelector(s.elements[0]) == "div" + "." + "card"
  {
    var s := CardPage();
    CardPageShape();
    CopiedSelectorFixedValue(s, 0);
    CopiedSelectorFixedIsPages(s, 0);
    assert s.elements[Divs(s.elements)[0]] == s.elements[0];
    assert Lower("DIV") == "div";
    assert Join(["card"], '.') == "card";
  }
}
