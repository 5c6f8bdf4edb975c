/** The abstract page the inspector works on.

    Only what the inspector reads or writes is kept: an element's tag name,
    `id`, class attribute and child list, and the children of `<head>`.
    Nodes that belong to the host page are opaque handles.
 */
module Dom {

  /** A child node: one of the host page's own, or a numbered button the
      inspector inserted (`<button class="buildflowz-button">number</button>`). */
  datatype Node = HostNode(handle: nat) | InspectorButton(number: nat)

  /** An element of the document. `tag` is `tagName` as the DOM reports it,
      `id` and `className` are the reflected attributes (empty when absent). */
  datatype Element = Element(tag: string, id: string, className: string, children: seq<Node>)

  /** A child of `<head>`: the host page's own, or the inspector's `<style>`. */
  datatype HeadNode = HostHeadNode(handle: nat) | InspectorStyle

  /** The position of the first occurrence of `x` in `xs`. */
  function FirstIndex<T(==)>(xs: seq<T>, x: T): (k: nat)
    requires x in xs
    ensures k < |xs| && xs[k] == x && x !in xs[..k]
  {
    if xs[0] == x then 0
    else
      var k := FirstIndex(xs[1..], x);
      assert xs[..k + 1] == [xs[0]] + xs[1..][..k];
      k + 1
  }

  /** `parent.removeChild(x)` on a child list: the first occurrence of `x`
      goes, everything else stays in order. The DOM throws when `x` is not a
      child; every call the inspector makes is guarded so that `x` is one,
      and the model makes the unguarded case a no-op. */
  function RemoveFirst<T(==)>(xs: seq<T>, x: T): (r: seq<T>)
    // a child: the list is what is left with `x` put back at its first position
    ensures x in xs ==> |r| == |xs| - 1
    ensures x in xs ==> exists k :: 0 <= k <= |r| && xs == r[..k] + [x] + r[k..] && x !in r[..k]
    ensures x !in xs ==> r == xs
  {
    if x in xs then
      var k := FirstIndex(xs, x);
      var r := xs[..k] + xs[k + 1..];
      assert r[..k] == xs[..k] && r[k..] == xs[k + 1..];
      assert xs == r[..k] + [x] + r[k..];
      r
    else
      xs
  }

  /** `removeChild` takes away exactly one occurrence of `x`, when there is one. */
  lemma RemoveFirstCount<T>(xs: seq<T>, x: T)
    ensures multiset(RemoveFirst(xs, x)) == multiset(xs) - multiset{x}
  {
    if x in xs {
      var k := FirstIndex(xs, x);
      assert xs == xs[..k] + [x] + xs[k + 1..];
    }
  }

  /** Removing the last element, when it occurs nowhere else, gives back the rest. */
  lemma RemoveFirstAppended<T>(xs: seq<T>, x: T)
    requires x !in xs
    ensures RemoveFirst(xs + [x], x) == xs
  {
    var k := FirstIndex(xs + [x], x);
    assert k == |xs|;
    assert (xs + [x])[..|xs|] == xs;
  }

  /** Appending to a list moves no first occurrence; an appended value that
      was absent first occurs at the end. */
  lemma FirstIndexSnoc<T>(xs: seq<T>, x: T)
    ensures forall y :: y in xs ==> FirstIndex(xs + [x], y) == FirstIndex(xs, y)
    ensures x !in xs ==> FirstIndex(xs + [x], x) == |xs|
  {
    forall y | y in xs ensures FirstIndex(xs + [x], y) == FirstIndex(xs, y) {
      var k := FirstIndex(xs, y);
      var k' := FirstIndex(xs + [x], y);
      assert (xs + [x])[k] == y;
      assert (xs + [x])[..k'] == xs[..k'];
    }
    if x !in xs {
      assert (xs + [x])[|xs|] == x;
      assert (xs + [x])[..|xs|] == xs;
    }
  }
}
