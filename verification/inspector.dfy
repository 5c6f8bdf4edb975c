/** The inspector overlay: `enableInspector`, `disableInspector` and
    `toggleInspector` as pure transitions over an abstract page.

    The closure's three variables (`inspectorEnabled`, `styleElement`,
    `buttons`) and the parts of the document the overlay touches form one
    `State`. Elements are listed in document order, so `querySelectorAll`
    over them returns them in list order; a button is recorded by the index
    of the element it was appended to and the number it shows.
 */
module Inspector {
  import opened Chars
  import opened Text
  import opened ClassList
  import opened Dom
  import opened Selector

  /** The class the overlay puts on every `<div>`. */
  const OutlineClass: string := "buildflowz-outline"

  lemma OutlineClassValid()
    ensures ValidClass(OutlineClass)
  {
  }

  /** `classList.add('buildflowz-outline')`. */
  function AddOutline(attr: string): string {
    OutlineClassValid();
    AddClass(attr, OutlineClass)
  }

  /** `classList.remove('buildflowz-outline')`. */
  function RemoveOutline(attr: string): string {
    OutlineClassValid();
    RemoveClass(attr, OutlineClass)
  }

  /** An entry of the `buttons` array: the button showing `number`, appended
      to the element at index `host`. */
  datatype ButtonRef = ButtonRef(host: nat, number: nat)

  datatype State = State(
    enabled: bool,          // inspectorEnabled
    styleCreated: bool,     // styleElement !== null
    head: seq<HeadNode>,    // document.head's children
    elements: seq<Element>, // every element of the host page, in document order
    buttons: seq<ButtonRef> // the buttons array
  )

  /** The page as the script finds it: overlay off, nothing of the
      inspector's anywhere in the document. */
  function Initial(head: seq<HeadNode>, elements: seq<Element>): (s: State)
    requires InspectorStyle !in head
    requires forall i :: 0 <= i < |elements| ==> NoButtons(elements[i].children)
    ensures Valid(s) && !s.enabled
  {
    State(false, false, head, elements, [])
  }

  /** Matched by `querySelectorAll('div')`. */
  predicate IsDiv(e: Element) {
    Lower(e.tag) == "div"
  }

  predicate NoButtons(children: seq<Node>) {
    forall k :: 0 <= k < |children| ==> !children[k].InspectorButton?
  }

  /** `querySelectorAll('div')` over the elements from index `k` on: their
      indices, in document order. */
  function DivsFrom(es: seq<Element>, k: nat): (idx: seq<nat>)
    requires k <= |es|
    ensures forall j :: 0 <= j < |idx| ==> k <= idx[j] < |es| && IsDiv(es[idx[j]])
    ensures forall j, j' :: 0 <= j < j' < |idx| ==> idx[j] < idx[j']
    decreases |es| - k
  {
    if k == |es| then []
    else if IsDiv(es[k]) then [k] + DivsFrom(es, k + 1)
    else DivsFrom(es, k + 1)
  }

  /** No `<div>` from index `k` on is missed: it has a position in the list. */
  lemma {:induction false} DivsFromComplete(es: seq<Element>, k: nat, i: nat) returns (j: nat)
    requires k <= i < |es| && IsDiv(es[i])
    ensures j < |DivsFrom(es, k)| && DivsFrom(es, k)[j] == i
    decreases |es| - k
  {
    if k == i {
      j := 0;
    } else {
      var j' := DivsFromComplete(es, k + 1, i);
      j := if IsDiv(es[k]) then j' + 1 else j';
    }
  }

  /** The `<div>`s of the page, in document order. */
  function Divs(es: seq<Element>): (idx: seq<nat>)
  {
    DivsFrom(es, 0)
  }

  /** The `<div>` list depends on nothing but which elements are `<div>`s. */
  lemma {:induction false} DivsSameTags(es: seq<Element>, es': seq<Element>, k: nat)
    requires |es| == |es'| && k <= |es|
    requires forall i :: 0 <= i < |es| ==> es'[i].tag == es[i].tag
    ensures DivsFrom(es', k) == DivsFrom(es, k)
    decreases |es| - k
  {
    if k < |es| {
      DivsSameTags(es, es', k + 1);
    }
  }

  /** What enabling does to one `<div>`: `classList.add` the outline class
      and append the button showing `number`. */
  function Mark(e: Element, number: nat): (e': Element)
  {
    e.(className := AddOutline(e.className),
       children := e.children + [InspectorButton(number)])
  }

  /** Marking keeps the tag and id, puts the outline class, and only it,
      into the class set, and appends the button after every existing child. */
  lemma MarkSpec(e: Element, number: nat)
    ensures var e' := Mark(e, number);
      && e'.tag == e.tag && e'.id == e.id
      && ClassSet(e'.className) == ClassSet(e.className) + {OutlineClass}
      && |e'.children| == |e.children| + 1 && e'.children[..|e.children|] == e.children
      && e'.children[|e.children|] == InspectorButton(number)
  {
    OutlineClassValid();
    AddClassSet(e.className, OutlineClass);
  }

  /** `divs.forEach(function(div, index) {...})` from `index` `j` on: the
      element at `idx[j]` is replaced by `mark(element, j + 1)`. */
  function MarkFrom(es: seq<Element>, idx: seq<nat>, j: nat, mark: (Element, nat) -> Element): (r: seq<Element>)
    requires j <= |idx|
    requires forall n :: 0 <= n < |idx| ==> idx[n] < |es|
    ensures |r| == |es|
    decreases |idx| - j
  {
    if j == |idx| then es
    else MarkFrom(es[idx[j] := mark(es[idx[j]], j + 1)], idx, j + 1, mark)
  }

  /** Each listed element is marked once, with its own number, and the
      others are left alone. */
  lemma {:induction false} MarkFromSpec(es: seq<Element>, idx: seq<nat>, j: nat, mark: (Element, nat) -> Element)
    requires j <= |idx|
    requires forall n :: 0 <= n < |idx| ==> idx[n] < |es|
    requires forall n, n' :: 0 <= n < n' < |idx| ==> idx[n] < idx[n']
    ensures forall n :: j <= n < |idx| ==> MarkFrom(es, idx, j, mark)[idx[n]] == mark(es[idx[n]], n + 1)
    ensures forall i :: 0 <= i < |es| && (forall n :: j <= n < |idx| ==> idx[n] != i) ==>
              MarkFrom(es, idx, j, mark)[i] == es[i]
    decreases |idx| - j
  {
    if j < |idx| {
      var es' := es[idx[j] := mark(es[idx[j]], j + 1)];
      MarkFromSpec(es', idx, j + 1, mark);
      forall n | j < n < |idx| ensures es'[idx[n]] == es[idx[n]] {
        assert idx[j] < idx[n];
      }
    }
  }

  /** The buttons created for the `<div>`s `idx`, in order: the `j`-th shows `j + 1`. */
  function Numbered(idx: seq<nat>): (bs: seq<ButtonRef>)
    ensures |bs| == |idx|
    ensures forall j :: 0 <= j < |idx| ==> bs[j] == ButtonRef(idx[j], j + 1)
  {
    if |idx| == 0 then []
    else Numbered(idx[..|idx| - 1]) + [ButtonRef(idx[|idx| - 1], |idx|)]
  }

  /** `enableInspector()`. */
  function Enable(s: State): (r: State)
    // a no-op when already enabled
    ensures s.enabled ==> r == s
    ensures r.enabled
    ensures !s.enabled ==> r.styleCreated
    ensures !s.enabled ==> r.head == s.head + [InspectorStyle]
    ensures |r.elements| == |s.elements|
    // buttons already in the array stay in front of the new ones
    ensures !s.enabled ==> |r.buttons| == |s.buttons| + |Divs(s.elements)|
    ensures !s.enabled ==> r.buttons[..|s.buttons|] == s.buttons
  {
    if s.enabled then s
    else
      var idx := Divs(s.elements);
      State(true, true, s.head + [InspectorStyle],
            MarkFrom(s.elements, idx, 0, Mark), s.buttons + Numbered(idx))
  }

  /** Enabling changes no element's tag or id. */
  lemma EnableKeepsTags(s: State)
    requires !s.enabled
    ensures var r := Enable(s);
      forall i :: 0 <= i < |s.elements| ==>
        r.elements[i].tag == s.elements[i].tag && r.elements[i].id == s.elements[i].id
  {
    var es := s.elements;
    var idx := Divs(es);
    MarkFromSpec(es, idx, 0, Mark);
    var r := MarkFrom(es, idx, 0, Mark);
    forall i | 0 <= i < |es|
      ensures r[i].tag == es[i].tag && r[i].id == es[i].id
    {
      if IsDiv(es[i]) {
        var j := DivsFromComplete(es, 0, i);
      } else {
        assert forall n :: 0 <= n < |idx| ==> idx[n] != i;
      }
    }
  }

  /** Enabling runs `classList.add` of the outline class on every `<div>`. */
  lemma EnableClassAttribute(s: State)
    requires !s.enabled
    ensures var r := Enable(s);
      forall i :: 0 <= i < |s.elements| && IsDiv(s.elements[i]) ==>
        r.elements[i].className == AddOutline(s.elements[i].className)
  {
    var es := s.elements;
    var idx := Divs(es);
    MarkFromSpec(es, idx, 0, Mark);
    forall i | 0 <= i < |es| && IsDiv(es[i])
      ensures Enable(s).elements[i].className == AddOutline(es[i].className)
    {
      var j := DivsFromComplete(es, 0, i);
    }
  }

  /** Enabling adds the outline class, and only it, to the class set of
      every `<div>`. */
  lemma EnableAddsOutline(s: State)
    requires !s.enabled
    ensures var r := Enable(s);
      forall i :: 0 <= i < |s.elements| && IsDiv(s.elements[i]) ==>
        ClassSet(r.elements[i].className) == ClassSet(s.elements[i].className) + {OutlineClass}
  {
    var es := s.elements;
    EnableClassAttribute(s);
    OutlineClassValid();
    forall i | 0 <= i < |es| && IsDiv(es[i])
      ensures ClassSet(Enable(s).elements[i].className) == ClassSet(es[i].className) + {OutlineClass}
    {
      AddClassSet(es[i].className, OutlineClass);
    }
  }

  /** Enabling leaves every element that is not a `<div>` exactly as it was. */
  lemma EnableKeepsOthers(s: State)
    requires !s.enabled
    ensures var r := Enable(s);
      forall i :: 0 <= i < |s.elements| && !IsDiv(s.elements[i]) ==> r.elements[i] == s.elements[i]
  {
    var es := s.elements;
    var idx := Divs(es);
    MarkFromSpec(es, idx, 0, Mark);
    var r := MarkFrom(es, idx, 0, Mark);
    forall i | 0 <= i < |es| && !IsDiv(es[i])
      ensures r[i] == es[i]
    {
      assert forall n :: 0 <= n < |idx| ==> idx[n] != i;
    }
  }

  /** Enabling appends to the `j`-th `<div>` (counting from 0) the button
      showing `j + 1`, after its existing children. */
  lemma EnableAppendsButtons(s: State)
    requires !s.enabled
    ensures var r := Enable(s); var idx := Divs(s.elements);
      forall j :: 0 <= j < |idx| ==>
        r.elements[idx[j]].children == s.elements[idx[j]].children + [InspectorButton(j + 1)]
  {
    MarkFromSpec(s.elements, Divs(s.elements), 0, Mark);
  }

  /** After enabling, the new buttons are numbered 1, 2, ... in document
      order, each on a `<div>`, on strictly increasing hosts. */
  lemma EnableButtons(s: State)
    requires !s.enabled
    ensures var r := Enable(s); var m := |s.buttons|;
      && (forall j :: m <= j < |r.buttons| ==>
            && r.buttons[j].number == j - m + 1
            && r.buttons[j].host < |s.elements|
            && IsDiv(s.elements[r.buttons[j].host]))
      && (forall j, j' :: m <= j < j' < |r.buttons| ==> r.buttons[j].host < r.buttons[j'].host)
  {
  }

  /** After enabling, every `<div>` has a new button. */
  lemma EnableButtonsCover(s: State)
    requires !s.enabled
    ensures var r := Enable(s);
      forall i :: 0 <= i < |s.elements| && IsDiv(s.elements[i]) ==>
        exists j :: |s.buttons| <= j < |r.buttons| && r.buttons[j].host == i
  {
    var r := Enable(s);
    var m := |s.buttons|;
    forall i | 0 <= i < |s.elements| && IsDiv(s.elements[i])
      ensures exists j :: m <= j < |r.buttons| && r.buttons[j].host == i
    {
      var n := DivsFromComplete(s.elements, 0, i);
      assert r.buttons[m + n].host == i;
    }
  }

  /** The invariant every reachable state keeps: `ValidOff` while the
      overlay is off, `ValidOn` while it is on. */
  predicate Valid(s: State) {
    if s.enabled then ValidOn(s) else ValidOff(s)
  }

  /** Off: no buttons recorded, no inspector style, no button anywhere. */
  predicate ValidOff(s: State) {
    && s.buttons == []
    && InspectorStyle !in s.head
    && Clean(s.elements)
  }

  /** On: exactly one inspector style in `<head>`, and the `buttons` array
      lists, in document order, one button per `<div>`, numbered from 1, each
      the last child of its `<div>` and the only inspector button there;
      every `<div>` carries the outline class and no other element holds a
      button. */
  predicate ValidOn(s: State) {
    && s.styleCreated
    && StyleOnce(s.head)
    && s.buttons == Numbered(Divs(s.elements))
    && ButtonsLast(s.elements, Divs(s.elements))
    && DivsOutlined(s.elements)
    && OthersClean(s.elements)
  }

  predicate Clean(es: seq<Element>) {
    forall i :: 0 <= i < |es| ==> NoButtons(es[i].children)
  }

  /** `<head>` holds the inspector style exactly once. */
  predicate StyleOnce(head: seq<HeadNode>) {
    InspectorStyle in head && InspectorStyle !in RemoveFirst(head, InspectorStyle)
  }

  /** The `j`-th listed `<div>` ends with the button showing `j + 1`. */
  predicate ButtonsLast(es: seq<Element>, idx: seq<nat>)
    requires forall j :: 0 <= j < |idx| ==> idx[j] < |es|
  {
    forall j :: 0 <= j < |idx| ==> EndsWithButton(es[idx[j]].children, j + 1)
  }

  predicate DivsOutlined(es: seq<Element>) {
    forall i :: 0 <= i < |es| && IsDiv(es[i]) ==> OutlineClass in ClassSet(es[i].className)
  }

  predicate OthersClean(es: seq<Element>) {
    forall i :: 0 <= i < |es| && !IsDiv(es[i]) ==> NoButtons(es[i].children)
  }

  /** The child list ends with the button numbered `number` and holds no
      other inspector button. */
  predicate EndsWithButton(children: seq<Node>, number: nat) {
    && |children| > 0
    && children == children[..|children| - 1] + [InspectorButton(number)]
    && NoButtons(children[..|children| - 1])
  }

  /** `button.parentNode.removeChild(button)`, guarded by `button.parentNode`. */
  function Detach(es: seq<Element>, b: ButtonRef): (r: seq<Element>)
    ensures |r| == |es|
  {
    if b.host < |es| && InspectorButton(b.number) in es[b.host].children then
      es[b.host := es[b.host].(children := RemoveFirst(es[b.host].children, InspectorButton(b.number)))]
    else
      es
  }

  /** Detaching one button changes only its host, and there only the child
      list, which loses that button. */
  lemma DetachSpec(es: seq<Element>, b: ButtonRef)
    ensures var r := Detach(es, b);
      && (forall i :: 0 <= i < |es| && i != b.host ==> r[i] == es[i])
      && (b.host < |es| ==> r[b.host] == es[b.host].(children := r[b.host].children))
      && (b.host < |es| ==> r[b.host].children == RemoveFirst(es[b.host].children, InspectorButton(b.number)))
  {
  }

  /** `buttons.forEach(...)` in `disableInspector`, from entry `j` on. */
  function DetachFrom(es: seq<Element>, bs: seq<ButtonRef>, j: nat): (r: seq<Element>)
    requires j <= |bs|
    ensures |r| == |es|
    decreases |bs| - j
  {
    if j == |bs| then es else DetachFrom(Detach(es, bs[j]), bs, j + 1)
  }

  /** Detaching buttons changes child lists only. */
  lemma {:induction false} DetachFromKeeps(es: seq<Element>, bs: seq<ButtonRef>, j: nat)
    requires j <= |bs|
    ensures forall i :: 0 <= i < |es| ==>
              DetachFrom(es, bs, j)[i] == es[i].(children := DetachFrom(es, bs, j)[i].children)
    decreases |bs| - j
  {
    if j < |bs| {
      DetachFromKeeps(Detach(es, bs[j]), bs, j + 1);
    }
  }

  /** An element that hosts none of the buttons from entry `j` on is left
      alone by detaching them. */
  lemma {:induction false} DetachFromOthers(es: seq<Element>, bs: seq<ButtonRef>, j: nat, i: nat)
    requires j <= |bs| && i < |es|
    requires forall n :: j <= n < |bs| ==> bs[n].host != i
    ensures DetachFrom(es, bs, j)[i] == es[i]
    decreases |bs| - j
  {
    if j < |bs| {
      DetachFromOthers(Detach(es, bs[j]), bs, j + 1, i);
    }
  }

  /** The button at entry `n` is removed from its host's child list, when
      no later entry shares that host. */
  lemma DetachFromHostHere(es: seq<Element>, bs: seq<ButtonRef>, n: nat)
    requires n < |bs| && bs[n].host < |es|
    requires forall m :: n < m < |bs| ==> bs[m].host != bs[n].host
    ensures DetachFrom(es, bs, n)[bs[n].host].children
              == RemoveFirst(es[bs[n].host].children, InspectorButton(bs[n].number))
  {
    DetachFromOthers(Detach(es, bs[n]), bs, n + 1, bs[n].host);
  }

  /** The button at entry `n` is removed from its host's child list, when
      no other entry from `j` on shares that host. */
  lemma {:induction false} DetachFromHost(es: seq<Element>, bs: seq<ButtonRef>, j: nat, n: nat)
    requires j <= n < |bs| && bs[n].host < |es|
    requires forall m :: j <= m < |bs| && m != n ==> bs[m].host != bs[n].host
    ensures DetachFrom(es, bs, j)[bs[n].host].children
              == RemoveFirst(es[bs[n].host].children, InspectorButton(bs[n].number))
    decreases |bs| - j, 1
  {
    if j == n {
      DetachFromHostHere(es, bs, n);
    } else {
      DetachFromHostBefore(es, bs, j, n);
    }
  }

  /** Detaching entry `j`, which sits on another host, leaves the host of
      entry `n` for the later entries to handle. */
  lemma {:induction false} DetachFromHostBefore(es: seq<Element>, bs: seq<ButtonRef>, j: nat, n: nat)
    requires j < n < |bs| && bs[n].host < |es|
    requires forall m :: j <= m < |bs| && m != n ==> bs[m].host != bs[n].host
    ensures DetachFrom(es, bs, j)[bs[n].host].children
              == RemoveFirst(es[bs[n].host].children, InspectorButton(bs[n].number))
    decreases |bs| - j, 0
  {
    var es' := Detach(es, bs[j]);
    assert bs[j].host != bs[n].host;
    assert es'[bs[n].host] == es[bs[n].host];
    DetachFromHost(es', bs, j + 1, n);
  }

  /** The overlay class comes off an element that carries it. */
  function StripOutline(e: Element): (e': Element)
    ensures e' == e.(className := e'.className)
    ensures OutlineClass !in ClassSet(e.className) ==> e' == e
  {
    if OutlineClass in ClassSet(e.className) then
      e.(className := RemoveOutline(e.className))
    else
      e
  }

  /** `document.querySelectorAll('.buildflowz-outline').forEach(...)`: the
      outline class comes off every element. */
  function StripAll(es: seq<Element>): (r: seq<Element>)
    ensures |r| == |es|
    ensures forall i :: 0 <= i < |es| ==> r[i] == StripOutline(es[i])
  {
    if |es| == 0 then [] else [StripOutline(es[0])] + StripAll(es[1..])
  }

  /** `disableInspector()`. */
  function Disable(s: State): (r: State)
    // a no-op when already disabled
    ensures !s.enabled ==> r == s
    ensures !r.enabled
    ensures s.enabled ==> r.buttons == []
    ensures r.styleCreated == s.styleCreated
    ensures |r.elements| == |s.elements|
  {
    if !s.enabled then s
    else
      var head := if s.styleCreated && InspectorStyle in s.head
                  then RemoveFirst(s.head, InspectorStyle) else s.head;
      var detached := DetachFrom(s.elements, s.buttons, 0);
      State(false, s.styleCreated, head, StripAll(detached), [])
  }

  /** Disabling keeps every element's tag and id, and its class attribute
      is the one the outline class's removal leaves. */
  lemma DisableKeepsAttributes(s: State)
    requires s.enabled
    ensures var r := Disable(s);
      forall i :: 0 <= i < |s.elements| ==>
        && r.elements[i].tag == s.elements[i].tag
        && r.elements[i].id == s.elements[i].id
        && r.elements[i].className == StripOutline(s.elements[i]).className
  {
    DetachFromKeeps(s.elements, s.buttons, 0);
  }

  /** After disabling, no element carries the outline class; every other
      class, the tag and the id of every element are as before, and an
      element that did not carry the outline class keeps its very class
      attribute. */
  lemma DisableStrips(s: State)
    requires s.enabled
    ensures var r := Disable(s);
      forall i :: 0 <= i < |s.elements| ==>
        && r.elements[i].tag == s.elements[i].tag
        && r.elements[i].id == s.elements[i].id
        && ClassSet(r.elements[i].className) == ClassSet(s.elements[i].className) - {OutlineClass}
        && (OutlineClass !in ClassSet(s.elements[i].className) ==>
              r.elements[i].className == s.elements[i].className)
  {
    var r := Disable(s);
    DisableKeepsAttributes(s);
    OutlineClassValid();
    forall i | 0 <= i < |s.elements|
      ensures ClassSet(r.elements[i].className) == ClassSet(s.elements[i].className) - {OutlineClass}
    {
      if OutlineClass in ClassSet(s.elements[i].className) {
        RemoveClassSet(s.elements[i].className, OutlineClass);
      }
    }
  }

  /** `toggleInspector()`. */
  function Toggle(s: State): (r: State)
    ensures r.enabled == !s.enabled
  {
    if s.enabled then Disable(s) else Enable(s)
  }

  /** Enabling from a valid off state reaches a valid on state. */
  lemma EnableValid(s: State)
    requires Valid(s) && !s.enabled
    ensures Valid(Enable(s))
  {
    var r := Enable(s);
    EnableSameDivs(s);
    assert r.buttons == Numbered(Divs(r.elements)) by {
      assert s.buttons + Numbered(Divs(s.elements)) == Numbered(Divs(s.elements));
    }
    EnableStyleOnce(s);
    EnableButtonsLast(s);
    EnableDivsOutlined(s);
    EnableOthersClean(s);
  }

  /** Enabling finds the same `<div>`s after as before: it changes no tag. */
  lemma EnableSameDivs(s: State)
    requires !s.enabled
    ensures Divs(Enable(s).elements) == Divs(s.elements)
  {
    EnableKeepsTags(s);
    DivsSameTags(s.elements, Enable(s).elements, 0);
  }

  /** Enabling with no inspector style in `<head>` leaves exactly one there. */
  lemma EnableStyleOnce(s: State)
    requires Valid(s) && !s.enabled
    ensures StyleOnce(Enable(s).head)
  {
    RemoveFirstAppended(s.head, InspectorStyle);
  }

  /** Enabling a page with no buttons leaves each `<div>`'s button as its
      last child and its only button. */
  lemma EnableButtonsLast(s: State)
    requires Valid(s) && !s.enabled
    ensures ButtonsLast(Enable(s).elements, Divs(s.elements))
  {
    var r := Enable(s);
    var es := s.elements;
    var idx := Divs(es);
    EnableAppendsButtons(s);
    forall j | 0 <= j < |idx| ensures EndsWithButton(r.elements[idx[j]].children, j + 1) {
      var c := es[idx[j]].children;
      assert (c + [InspectorButton(j + 1)])[..|c|] == c;
    }
  }

  lemma EnableDivsOutlined(s: State)
    requires !s.enabled
    ensures DivsOutlined(Enable(s).elements)
  {
    EnableKeepsTags(s);
    EnableAddsOutline(s);
  }

  lemma EnableOthersClean(s: State)
    requires Valid(s) && !s.enabled
    ensures OthersClean(Enable(s).elements)
  {
    EnableKeepsTags(s);
    EnableKeepsOthers(s);
  }

  /** A `buttons` array built for the `<div>`s lists them in document
      order, numbered from 1. */
  lemma ValidOnButtons(s: State)
    requires s.buttons == Numbered(Divs(s.elements))
    ensures |s.buttons| == |Divs(s.elements)|
    ensures forall n :: 0 <= n < |s.buttons| ==> s.buttons[n] == ButtonRef(Divs(s.elements)[n], n + 1)
    ensures forall n :: 0 <= n < |s.buttons| ==> s.buttons[n].host < |s.elements|
    ensures forall n, n' :: 0 <= n < n' < |s.buttons| ==> s.buttons[n].host < s.buttons[n'].host
  {
  }

  /** Disabling touches child lists only by detaching the recorded buttons. */
  lemma DisableChildrenAreDetached(s: State)
    requires s.enabled
    ensures forall i :: 0 <= i < |s.elements| ==>
              Disable(s).elements[i].children == DetachFrom(s.elements, s.buttons, 0)[i].children
  {
  }

  /** On strictly increasing hosts, no other entry shares the host of entry `j`. */
  lemma OtherHostsDiffer(bs: seq<ButtonRef>, j: nat)
    requires j < |bs|
    requires forall m, m' :: 0 <= m < m' < |bs| ==> bs[m].host < bs[m'].host
    ensures forall m :: 0 <= m < |bs| && m != j ==> bs[m].host != bs[j].host
  {
    forall m | 0 <= m < |bs| && m != j ensures bs[m].host != bs[j].host {
      if m < j { assert bs[m].host < bs[j].host; }
      else { assert bs[j].host < bs[m].host; }
    }
  }

  /** Disabling, when the `j`-th `<div>` ends with its recorded button,
      takes that button off the end of its child list. */
  lemma DisableDropsButton(s: State, j: nat)
    requires s.enabled && s.buttons == Numbered(Divs(s.elements))
    requires ButtonsLast(s.elements, Divs(s.elements))
    requires j < |Divs(s.elements)|
    ensures var i := Divs(s.elements)[j]; var c := s.elements[i].children;
      Disable(s).elements[i].children == c[..|c| - 1]
  {
    var es := s.elements;
    var i := Divs(es)[j];
    ValidOnButtons(s);
    OtherHostsDiffer(s.buttons, j);
    DetachFromHost(es, s.buttons, 0, j);
    DisableChildrenAreDetached(s);
    var c := es[i].children;
    assert EndsWithButton(c, j + 1);
    RemoveFirstAppended(c[..|c| - 1], InspectorButton(j + 1));
  }

  /** Disabling, when each `<div>` ends with its recorded button, takes that
      button off the end of its child list. */
  lemma DisableDropsButtons(s: State)
    requires s.enabled && s.buttons == Numbered(Divs(s.elements))
    requires ButtonsLast(s.elements, Divs(s.elements))
    ensures var r := Disable(s); var idx := Divs(s.elements);
      forall j :: 0 <= j < |idx| ==>
        var c := s.elements[idx[j]].children;
        r.elements[idx[j]].children == c[..|c| - 1]
  {
    forall j | 0 <= j < |Divs(s.elements)|
      ensures var c := s.elements[Divs(s.elements)[j]].children;
        Disable(s).elements[Divs(s.elements)[j]].children == c[..|c| - 1]
    {
      DisableDropsButton(s, j);
    }
  }

  /** Disabling, when only `<div>`s host recorded buttons, leaves the child
      list of every other element alone. */
  lemma DisableKeepsOtherChildren(s: State)
    requires s.enabled && s.buttons == Numbered(Divs(s.elements))
    ensures var r := Disable(s);
      forall i :: 0 <= i < |s.elements| && !IsDiv(s.elements[i]) ==>
        r.elements[i].children == s.elements[i].children
  {
    var es := s.elements;
    DisableChildrenAreDetached(s);
    ValidOnButtons(s);
    forall i | 0 <= i < |es| && !IsDiv(es[i])
      ensures DetachFrom(es, s.buttons, 0)[i] == es[i]
    {
      DetachFromOthers(es, s.buttons, 0, i);
    }
  }

  /** Disabling from a valid on state reaches a valid off state. */
  lemma DisableValid(s: State)
    requires Valid(s) && s.enabled
    ensures Valid(Disable(s))
  {
    var r := Disable(s);
    var es := s.elements;
    DisableDropsButtons(s);
    DisableKeepsOtherChildren(s);
    forall i | 0 <= i < |es| ensures NoButtons(r.elements[i].children) {
      if IsDiv(es[i]) {
        var j := DivsFromComplete(es, 0, i);
        assert EndsWithButton(es[i].children, j + 1);
      }
    }
  }

  /** Toggling keeps the invariant. */
  lemma ToggleValid(s: State)
    requires Valid(s)
    ensures Valid(Toggle(s))
  {
    if s.enabled {
      DisableValid(s);
    } else {
      EnableValid(s);
    }
  }

  /** Enabling and then disabling gives back the same `<head>` and flags. */
  lemma EnableThenDisableHead(s: State)
    requires Valid(s) && !s.enabled
    ensures var t := Disable(Enable(s));
      !t.enabled && t.styleCreated && t.buttons == [] && t.head == s.head
  {
    RemoveFirstAppended(s.head, InspectorStyle);
  }

  /** Enabling and then disabling gives a `<div>` back its child list. */
  lemma EnableThenDisableDivChild(s: State, i: nat)
    requires Valid(s) && !s.enabled
    requires i < |s.elements| && IsDiv(s.elements[i])
    ensures Disable(Enable(s)).elements[i].children == s.elements[i].children
  {
    var e := Enable(s);
    var es := s.elements;
    var j := DivsFromComplete(es, 0, i);
    EnableSameDivs(s);
    assert e.buttons == Numbered(Divs(es));
    EnableButtonsLast(s);
    EnableAppendsButtons(s);
    DisableDropsButton(e, j);
    var c := es[i].children;
    assert (c + [InspectorButton(j + 1)])[..|c|] == c;
  }

  /** Enabling and then disabling gives every `<div>` back its child list. */
  lemma EnableThenDisableDivChildren(s: State)
    requires Valid(s) && !s.enabled
    ensures var t := Disable(Enable(s));
      forall i :: 0 <= i < |s.elements| && IsDiv(s.elements[i]) ==>
        t.elements[i].children == s.elements[i].children
  {
    forall i | 0 <= i < |s.elements| && IsDiv(s.elements[i])
      ensures Disable(Enable(s)).elements[i].children == s.elements[i].children
    {
      EnableThenDisableDivChild(s, i);
    }
  }

  /** Enabling and then disabling gives every other element back its child list. */
  lemma EnableThenDisableOtherChildren(s: State)
    requires Valid(s) && !s.enabled
    ensures var t := Disable(Enable(s));
      forall i :: 0 <= i < |s.elements| && !IsDiv(s.elements[i]) ==>
        t.elements[i].children == s.elements[i].children
  {
    var e := Enable(s);
    EnableSameDivs(s);
    assert e.buttons == Numbered(Divs(s.elements));
    EnableKeepsOthers(s);
    DisableKeepsOtherChildren(e);
  }

  /** Enabling and then disabling keeps every element's tag and id. */
  lemma EnableThenDisableTags(s: State)
    requires !s.enabled
    ensures var t := Disable(Enable(s));
      forall i :: 0 <= i < |s.elements| ==>
        t.elements[i].tag == s.elements[i].tag && t.elements[i].id == s.elements[i].id
  {
    EnableKeepsTags(s);
    DisableKeepsAttributes(Enable(s));
  }

  /** Enabling and then disabling gives every element back its class set
      less the outline class. */
  lemma EnableThenDisableClasses(s: State)
    requires !s.enabled
    ensures var t := Disable(Enable(s));
      forall i :: 0 <= i < |s.elements| ==>
        ClassSet(t.elements[i].className) == ClassSet(s.elements[i].className) - {OutlineClass}
  {
    var e := Enable(s);
    EnableAddsOutline(s);
    EnableKeepsOthers(s);
    DisableStrips(e);
  }

  /** An element that lacked the outline class gets its very class attribute
      back from enabling and then disabling, when it is not a `<div>` or the
      attribute was in `classList`'s normal form. */
  lemma EnableThenDisableAttribute(s: State)
    requires !s.enabled
    ensures var t := Disable(Enable(s));
      forall i :: 0 <= i < |s.elements| && OutlineClass !in ClassSet(s.elements[i].className) ==>
        (Normalized(s.elements[i].className) || !IsDiv(s.elements[i])) ==>
        t.elements[i].className == s.elements[i].className
  {
    var e := Enable(s);
    var t := Disable(e);
    var es := s.elements;
    EnableClassAttribute(s);
    EnableKeepsOthers(s);
    DisableKeepsAttributes(e);
    OutlineClassValid();
    forall i | 0 <= i < |es| && IsDiv(es[i]) && OutlineClass !in ClassSet(es[i].className) && Normalized(es[i].className)
      ensures t.elements[i].className == es[i].className
    {
      AddClassSet(es[i].className, OutlineClass);
      RemoveAfterAdd(es[i].className, OutlineClass);
    }
  }

  /** Enable then disable gives the page back: same `<head>`, same child
      lists, same class sets less the outline class, and the very same
      element wherever the outline class was absent and either the element
      is not a `<div>` or its class attribute was in `classList`'s normal form. */
  lemma EnableThenDisable(s: State)
    requires Valid(s) && !s.enabled
    ensures var t := Disable(Enable(s));
      && !t.enabled && t.styleCreated && t.buttons == [] && t.head == s.head
      && |t.elements| == |s.elements|
      && (forall i :: 0 <= i < |s.elements| ==>
            && t.elements[i].children == s.elements[i].children
            && ClassSet(t.elements[i].className) == ClassSet(s.elements[i].className) - {OutlineClass})
      && (forall i :: 0 <= i < |s.elements| && OutlineClass !in ClassSet(s.elements[i].className) ==>
            (Normalized(s.elements[i].className) || !IsDiv(s.elements[i])) ==>
            t.elements[i] == s.elements[i])
  {
    EnableThenDisableHead(s);
    EnableThenDisableDivChildren(s);
    EnableThenDisableOtherChildren(s);
    EnableThenDisableTags(s);
    EnableThenDisableClasses(s);
    EnableThenDisableAttribute(s);
  }

  /** Disable then enable, from a valid on state, rebuilds the same overlay:
      same flag, same buttons, same child lists, same class set on every
      `<div>`; any other element is left without the outline class. */
  lemma DisableThenEnable(s: State)
    requires Valid(s) && s.enabled
    ensures var t := Enable(Disable(s));
      && t.enabled && t.buttons == s.buttons
      && |t.elements| == |s.elements|
      && (forall i :: 0 <= i < |s.elements| ==> t.elements[i].children == s.elements[i].children)
      && (forall i :: 0 <= i < |s.elements| && IsDiv(s.elements[i]) ==>
            ClassSet(t.elements[i].className) == ClassSet(s.elements[i].className))
      && (forall i :: 0 <= i < |s.elements| && !IsDiv(s.elements[i]) ==>
            ClassSet(t.elements[i].className) == ClassSet(s.elements[i].className) - {OutlineClass})
  {
    DisableThenEnableButtons(s);
    DisableThenEnableDivChildren(s);
    DisableThenEnableOtherChildren(s);
    DisableThenEnableDivClasses(s);
    DisableThenEnableOtherClasses(s);
  }

  /** Disabling finds the same `<div>`s after as before: it changes no tag. */
  lemma DisableSameDivs(s: State)
    requires s.enabled
    ensures Divs(Disable(s).elements) == Divs(s.elements)
  {
    DisableKeepsAttributes(s);
    DivsSameTags(s.elements, Disable(s).elements, 0);
  }

  /** Disabling then enabling lists the same buttons again. */
  lemma DisableThenEnableButtons(s: State)
    requires Valid(s) && s.enabled
    ensures var t := Enable(Disable(s)); t.enabled && t.buttons == s.buttons
  {
    var idx := Divs(s.elements);
    DisableSameDivs(s);
    assert [] + Numbered(idx) == Numbered(idx);
  }

  /** Disabling then enabling gives every `<div>` back its child list. */
  lemma DisableThenEnableDivChildren(s: State)
    requires Valid(s) && s.enabled
    ensures var t := Enable(Disable(s));
      forall i :: 0 <= i < |s.elements| && IsDiv(s.elements[i]) ==>
        t.elements[i].children == s.elements[i].children
  {
    var d := Disable(s);
    var t := Enable(d);
    var es := s.elements;
    DisableDropsButtons(s);
    DisableSameDivs(s);
    EnableAppendsButtons(d);
    forall i | 0 <= i < |es| && IsDiv(es[i]) ensures t.elements[i].children == es[i].children {
      var j := DivsFromComplete(es, 0, i);
      assert EndsWithButton(es[i].children, j + 1);
    }
  }

  /** Disabling then enabling gives every other element back its child list. */
  lemma DisableThenEnableOtherChildren(s: State)
    requires Valid(s) && s.enabled
    ensures var t := Enable(Disable(s));
      forall i :: 0 <= i < |s.elements| && !IsDiv(s.elements[i]) ==>
        t.elements[i].children == s.elements[i].children
  {
    var d := Disable(s);
    DisableKeepsOtherChildren(s);
    DisableKeepsAttributes(s);
    EnableKeepsOthers(d);
  }

  /** Disabling then enabling gives every `<div>` back its class set. */
  lemma DisableThenEnableDivClasses(s: State)
    requires Valid(s) && s.enabled
    ensures var t := Enable(Disable(s));
      forall i :: 0 <= i < |s.elements| && IsDiv(s.elements[i]) ==>
        ClassSet(t.elements[i].className) == ClassSet(s.elements[i].className)
  {
    var d := Disable(s);
    DisableStrips(s);
    EnableAddsOutline(d);
  }

  /** Disabling then enabling leaves every other element without the
      outline class, its other classes kept. */
  lemma DisableThenEnableOtherClasses(s: State)
    requires Valid(s) && s.enabled
    ensures var t := Enable(Disable(s));
      forall i :: 0 <= i < |s.elements| && !IsDiv(s.elements[i]) ==>
        ClassSet(t.elements[i].className) == ClassSet(s.elements[i].className) - {OutlineClass}
  {
    var d := Disable(s);
    DisableStrips(s);
    EnableKeepsOthers(d);
  }

  /** Toggling twice restores the flag and every child list. */
  lemma ToggleTwice(s: State)
    requires Valid(s)
    ensures Toggle(Toggle(s)).enabled == s.enabled
    ensures |Toggle(Toggle(s)).elements| == |s.elements|
    ensures forall i :: 0 <= i < |s.elements| ==>
              Toggle(Toggle(s)).elements[i].children == s.elements[i].children
  {
    if s.enabled {
      DisableThenEnable(s);
    } else {
      EnableThenDisable(s);
    }
  }

  /** Toggling twice gives every `<div>` back its class set, provided the
      overlay was on or the `<div>` did not carry the outline class. */
  lemma ToggleTwiceClasses(s: State)
    requires Valid(s)
    ensures |Toggle(Toggle(s)).elements| == |s.elements|
    ensures forall i ::
              && 0 <= i < |s.elements| && IsDiv(s.elements[i])
              && (s.enabled || OutlineClass !in ClassSet(s.elements[i].className))
              ==> ClassSet(Toggle(Toggle(s)).elements[i].className) == ClassSet(s.elements[i].className)
  {
    if s.enabled {
      DisableThenEnableDivClasses(s);
    } else {
      EnableThenDisableClasses(s);
    }
  }
}
