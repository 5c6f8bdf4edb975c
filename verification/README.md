# Web inspector overlay: a Dafny model

This project models `injectors/web-inspector.js`. That is the script an embedding app injects into a web page to show a "web inspector" overlay.

When the script loads, a window flag guards its setup. On the first load it tints the page body and adds a round toggle button. The toggle button switches the overlay on and off:

- **Switching on** does two things:
  - it appends a `<style>` element to `<head>`;
  - for every `<div>` in document order, it adds the class `buildflowz-outline` and appends a small button showing the div's number, counting from 1.
- **Pressing a numbered button** copies the CSS selector of its `<div>`. `generateSelector` builds that selector.
- **Switching off** does three things:
  - it removes the `<style>`;
  - it detaches every recorded button;
  - it takes `buildflowz-outline` off every element that carries it.

## How the model is built

The script's closure state and the parts of the document the overlay touches form one immutable `State`. Enabling, disabling and toggling are pure functions over it.

| module | holds |
|---|---|
| `Chars` | ECMAScript `\s` whitespace (used by `trim` and `/\s+/`), DOM ASCII whitespace (used by `classList`), ASCII lower-casing |
| `Text` | trim, whitespace-run collapsing, tokens and join, for any whitespace predicate |
| `Dom` | elements (tag, id, class attribute, children), `<head>` children, `removeChild` |
| `ClassList` | `classList.add` / `classList.remove` |
| `Selector` | `generateSelector` |
| `Inspector` | `enableInspector`, `disableInspector`, `toggleInspector`, and the invariant `Valid` that every reachable state keeps |
| `Copy` | the selector a numbered button copies |
| `Loader` | the one-shot initialisation guard |

### Class attributes follow the DOM `classList` rules

The class attribute is kept as a string. `classList` treats it as an ordered set of tokens:

- it splits the string on ASCII whitespace;
- it keeps the first occurrence of each token;
- `add` and `remove` write the whole set back, joined by single spaces.

Two consequences follow:

- Switching the overlay on and then off gives every element back its class **set**, without the outline class.
- The `className` value comes back unchanged only when it did not carry `buildflowz-outline` and, in addition, the element is not a `<div>` or the value was already in `classList`'s normal form. For example, `"a  a"` comes back as `"a"` (`ClassList.RemoveAfterAddRewrites`).

So switching the overlay off does not restore, byte for byte, a class attribute that was not in `classList`'s normal form.

The model keeps `className`, the attribute's value, and treats a missing class attribute as the empty value. The two differ on one input: `classList.add` on a `<div>` without a class attribute creates one, and `classList.remove` leaves it there, empty. After on-then-off such a `<div>` therefore carries `class=""`, where it had no class attribute before. Its `className` is `""` both times, and that equality is what the model states.

### Two kinds of whitespace

`generateSelector` splits on ECMAScript `\s`, while `classList` splits on ASCII whitespace. The model keeps the two separate. Lemma `Chars.AsciiWsIsJsWs` relates them: every ASCII whitespace character is also `\s`.

## Model

| member | source | states |
|---|---|---|
| Chars.Lower | injectors/web-inspector.js:10 | `toLowerCase` keeps the length and maps each ASCII capital to its lower-case letter, leaving every other character alone |
| Chars.LowerKeepsWs | injectors/web-inspector.js:10 | lower-casing the tag neither creates nor removes whitespace |
| Text.Trim | injectors/web-inspector.js:12 | `trim()` is never longer than its input and neither starts nor ends with whitespace |
| Text.TrimIsSlice | injectors/web-inspector.js:12 | `trim()` is a contiguous middle part of its input, and everything cut off before or after it is whitespace |
| Text.CollapseRuns | injectors/web-inspector.js:12 | `replace(/\s+/g, sep)` never makes the string longer |
| Text.CollapseRunsNoWs | injectors/web-inspector.js:12 | after `replace(/\s+/g, sep)` every character is the separator or not whitespace |
| Text.TrimIsTrimmed | injectors/web-inspector.js:12 | the result of `trim()` has no whitespace at either end, and it is empty exactly when the input is all whitespace |
| Text.CollapseTrimIsJoinTokens | injectors/web-inspector.js:12 | `trim()` followed by `replace(/\s+/g, sep)` equals the maximal whitespace-free runs of the input, in order with duplicates kept, joined by `sep` |
| Text.TokensOfJoin | injectors/web-inspector.js:12 | splitting a whitespace-join of tokens on whitespace gives the same tokens back |
| Selector.ClassSuffix | injectors/web-inspector.js:12 | the class part of the selector is the class tokens joined by `.`, and it holds no whitespace |
| Selector.GenerateSelector | injectors/web-inspector.js:6-15 | with an id, the selector is exactly `#id` whatever the tag and classes. Without an id, it starts with the lower-cased tag and is that alone when the class attribute is empty. Otherwise it is the tag, `.`, then the class tokens in order (duplicates kept) joined by `.` |
| Selector.LowerNoWs | injectors/web-inspector.js:10 | lower-casing a whitespace-free tag keeps it whitespace-free |
| Selector.NoIdSelectorShape | injectors/web-inspector.js:10-14 | without an id, the selector has no whitespace if the tag has none, and it is non-empty if the tag is non-empty |
| Selector.WhitespaceOnlyClass | injectors/web-inspector.js:11-13 | a class attribute made only of whitespace yields the tag followed by a bare `.` |
| Selector.SelectorOfJoinedClasses | injectors/web-inspector.js:10-13 | without an id, if the class attribute is a space-join of `\s`-free classes, the selector is the tag followed by those classes, each after a `.` |
| Dom.RemoveFirst | injectors/web-inspector.js:100-106 | `removeChild` of a child shortens the list by one. The list is what is left with the node put back at its first position, so every other child keeps its order. Both calls (lines 101 and 106) are guarded, at lines 100 and 105, so that the node is a child. For a node that is not a child, where the DOM would throw, the model leaves the list unchanged |
| Dom.RemoveFirstCount | injectors/web-inspector.js:106 | `removeChild` of a child takes away exactly one occurrence of the node and no other child. Order is stated by `Dom.RemoveFirst` |
| Dom.RemoveFirstAppended | injectors/web-inspector.js:101 | removing the node that was appended last, when it occurs nowhere else, gives back the earlier child list |
| ClassList.Dedup | injectors/web-inspector.js:72 | keeping first occurrences gives a duplicate-free list with the same members as the input, in the order of their first occurrence in the input |
| ClassList.ClassTokens | injectors/web-inspector.js:72 | the ordered set `classList` reads is duplicate-free, and each entry is a valid class token. Its members are exactly the attribute's ASCII-whitespace-separated tokens |
| ClassList.ClassTokensOrder | injectors/web-inspector.js:72 | those classes come in the order of their first occurrence in the attribute |
| ClassList.AddClassTokens | injectors/web-inspector.js:72 | `classList.add(t)`, read back, is the old ordered set with `t` appended, or the old set unchanged if it already held `t` |
| ClassList.RemoveClassTokens | injectors/web-inspector.js:112 | `classList.remove(t)`, read back, is the old ordered set without `t`, with every other class in its old order |
| ClassList.ParseSerialize | injectors/web-inspector.js:72 | a written-back ordered set reads back as the same ordered set, and it is in normal form |
| ClassList.AddClassSet | injectors/web-inspector.js:72 | `classList.add(t)` adds exactly `t` to the class set and leaves the attribute in normal form |
| ClassList.RemoveClassSet | injectors/web-inspector.js:112 | `classList.remove(t)` takes exactly `t` out of the class set and leaves the attribute in normal form |
| ClassList.RemoveAfterAddNormalizes | injectors/web-inspector.js:72-112 | adding a class the attribute lacks and then removing it gives the attribute's own ordered set, written in normal form |
| ClassList.RemoveAfterAdd | injectors/web-inspector.js:72-112 | for an attribute in normal form, that add-then-remove gives the attribute back exactly |
| ClassList.RemoveAfterAddRewrites | injectors/web-inspector.js:72-112 | for an attribute not in normal form it does not: `"a  a"` comes back as `"a"` |
| Inspector.Initial | injectors/web-inspector.js:2-4 | the page as the script finds it (flag off, no style, no buttons) satisfies the invariant |
| Inspector.DivsFrom | injectors/web-inspector.js:70 | `querySelectorAll('div')` lists only `<div>`s, in strictly increasing document order |
| Inspector.DivsFromComplete | injectors/web-inspector.js:70 | no `<div>` is missed: every `<div>` has a position in that list |
| Inspector.DivsSameTags | injectors/web-inspector.js:70 | which elements are listed depends only on their tags |
| Inspector.Numbered | injectors/web-inspector.js:74-78 | the `j`-th pushed button belongs to the `j`-th `<div>` and shows `j + 1` |
| Inspector.MarkSpec | injectors/web-inspector.js:71-77 | the `forEach` body on one `<div>` keeps its tag and id, adds exactly the outline class to its class set, and appends the numbered button after all its existing children |
| Inspector.MarkFrom | injectors/web-inspector.js:71-77 | the `forEach` loop neither adds nor removes elements. What it does to each one is stated by `Inspector.MarkFromSpec` |
| Inspector.MarkFromSpec | injectors/web-inspector.js:71-78 | the `forEach` callback acts on each listed `<div>` exactly once, with that `<div>`'s own index, and leaves every other element alone |
| Inspector.Enable | injectors/web-inspector.js:17-95 | a no-op when already on. Otherwise the result is on, with the style appended to `<head>`, the same number of elements, and one new button per `<div>` pushed after the existing ones |
| Inspector.EnableKeepsTags | injectors/web-inspector.js:70-78 | enabling changes no element's tag or id |
| Inspector.EnableClassAttribute | injectors/web-inspector.js:72 | each `<div>`'s class attribute becomes the result of `classList.add('buildflowz-outline')` |
| Inspector.EnableAddsOutline | injectors/web-inspector.js:72 | each `<div>`'s class set gains the outline class and nothing else |
| Inspector.EnableKeepsOthers | injectors/web-inspector.js:70-78 | elements that are not `<div>`s are left exactly as they were |
| Inspector.EnableAppendsButtons | injectors/web-inspector.js:74-77 | the `j`-th `<div>` gets the button showing `j + 1` appended after its existing children |
| Inspector.EnableButtons | injectors/web-inspector.js:74-78 | the new buttons are numbered 1, 2, … and sit on `<div>`s whose indices strictly increase |
| Inspector.EnableButtonsCover | injectors/web-inspector.js:70-78 | every `<div>` gets a new button |
| Inspector.EnableSameDivs | injectors/web-inspector.js:70-78 | after enabling, the same elements are `<div>`s |
| Inspector.EnableStyleOnce | injectors/web-inspector.js:68 | with no inspector style in `<head>`, enabling leaves exactly one there |
| Inspector.EnableButtonsLast | injectors/web-inspector.js:77 | each `<div>`'s button is its last child and its only inspector button |
| Inspector.EnableDivsOutlined | injectors/web-inspector.js:72 | after enabling, every `<div>` carries the outline class |
| Inspector.EnableOthersClean | injectors/web-inspector.js:70-78 | after enabling, no element other than a `<div>` holds an inspector button |
| Inspector.EnableValid | injectors/web-inspector.js:17-95 | enabling from a valid off state reaches a valid on state |
| Inspector.DetachSpec | injectors/web-inspector.js:104-108 | detaching one button changes only its host, and there only the child list. That list loses the button's first occurrence |
| Inspector.DetachFrom | injectors/web-inspector.js:104-108 | the loop over the buttons neither adds nor removes elements. What it does to each one is stated by `Inspector.DetachFromKeeps`, `Inspector.DetachFromOthers` and `Inspector.DetachFromHost` |
| Inspector.DetachFromKeeps | injectors/web-inspector.js:104-108 | detaching buttons changes child lists only, never a tag, id or class |
| Inspector.DetachFromOthers | injectors/web-inspector.js:104-108 | an element that hosts none of the recorded buttons is left alone |
| Inspector.DetachFromHost | injectors/web-inspector.js:104-108 | a button whose host no other remaining button shares is removed from that host's child list |
| Inspector.StripOutline | injectors/web-inspector.js:111-113 | removing the outline class changes only the class attribute, and an element without the outline class is not touched |
| Inspector.StripAll | injectors/web-inspector.js:111-113 | the loop over `.buildflowz-outline` processes every element and nothing else |
| Inspector.Disable | injectors/web-inspector.js:97-116 | a no-op when already off. Otherwise the result is off, with the button array emptied and the same number of elements |
| Inspector.DisableKeepsAttributes | injectors/web-inspector.js:104-113 | disabling keeps tags and ids, and each class attribute becomes what removing the outline class leaves |
| Inspector.DisableStrips | injectors/web-inspector.js:111-113 | no element keeps the outline class. Every other class is kept, and an element that lacked the outline class keeps its very attribute |
| Inspector.DisableChildrenAreDetached | injectors/web-inspector.js:104-109 | the child lists after disabling are exactly those left by detaching the recorded buttons |
| Inspector.DisableDropsButton | injectors/web-inspector.js:104-109 | the `j`-th `<div>`'s recorded button, which is its last child, is taken off the end of its child list |
| Inspector.DisableDropsButtons | injectors/web-inspector.js:104-109 | each `<div>`'s recorded button, which is its last child, is taken off the end of its child list |
| Inspector.DisableKeepsOtherChildren | injectors/web-inspector.js:104-108 | elements that host no recorded button keep their child lists |
| Inspector.DisableSameDivs | injectors/web-inspector.js:111-113 | after disabling, the same elements are `<div>`s |
| Inspector.DisableValid | injectors/web-inspector.js:97-116 | disabling from a valid on state reaches a valid off state: style detached, buttons empty, no inspector button anywhere |
| Inspector.ValidOnButtons | injectors/web-inspector.js:74-78 | in the on state the button array lists the `<div>`s in document order, numbered from 1 |
| Inspector.Toggle | injectors/web-inspector.js:118-124 | toggling flips the enabled flag |
| Inspector.ToggleValid | injectors/web-inspector.js:118-124 | toggling keeps the invariant |
| Inspector.EnableThenDisableHead | injectors/web-inspector.js:100-102 | on then off gives back the same `<head>` and an empty button array |
| Inspector.EnableThenDisableDivChild | injectors/web-inspector.js:77-107 | on then off gives a `<div>` back its child list |
| Inspector.EnableThenDisableDivChildren | injectors/web-inspector.js:77-107 | on then off gives every `<div>` back its child list |
| Inspector.EnableThenDisableOtherChildren | injectors/web-inspector.js:104-108 | on then off gives every other element back its child list |
| Inspector.EnableThenDisableTags | injectors/web-inspector.js:70-113 | on then off keeps every tag and id |
| Inspector.EnableThenDisableClasses | injectors/web-inspector.js:72-112 | on then off gives every element back its class set, less the outline class |
| Inspector.EnableThenDisableAttribute | injectors/web-inspector.js:72-112 | on then off gives back the very `className` value of an element that lacked the outline class, when it is not a `<div>` or the value was in normal form |
| Inspector.EnableThenDisable | injectors/web-inspector.js:17-116 | on then off gives the page back: same head, children and flags, and class sets less the outline class. Under the conditions above it gives the identical element, with the same `className` value |
| Inspector.DisableThenEnableButtons | injectors/web-inspector.js:104-110 | off then on records the same buttons again |
| Inspector.DisableThenEnableDivChildren | injectors/web-inspector.js:74-107 | off then on gives every `<div>` back its child list |
| Inspector.DisableThenEnableOtherChildren | injectors/web-inspector.js:104-108 | off then on gives every other element back its child list |
| Inspector.DisableThenEnableDivClasses | injectors/web-inspector.js:72-112 | off then on gives every `<div>` back its class set |
| Inspector.DisableThenEnableOtherClasses | injectors/web-inspector.js:111-113 | off then on leaves every other element without the outline class, with its other classes kept |
| Inspector.DisableThenEnable | injectors/web-inspector.js:17-116 | off then on rebuilds the same overlay: same buttons, children and `<div>` class sets |
| Inspector.ToggleTwice | injectors/web-inspector.js:118-124 | toggling twice restores the flag and every child list |
| Inspector.ToggleTwiceClasses | injectors/web-inspector.js:118-124 | toggling twice restores each `<div>`'s class set, when the overlay was on or the `<div>` lacked the outline class |
| Copy.CopiedSelectorCases | injectors/web-inspector.js:80-93 | the handler copies `#id` when the button's `<div>` has an id. Otherwise it copies the tag and every class the `<div>` carries at the time of the click. Taking the overlay's class off changes the copied selector only for a `<div>` without an id that carries the outline class |
| Copy.CopiedSelectorNamesOutline | injectors/web-inspector.js:80-93 | as written, for a `<div>` without an id, whose class attribute uses only ASCII whitespace and lacks the outline class, the copied selector is the tag, its classes in `classList` order, and then `buildflowz-outline` |
| Copy.CopiedSelectorDiffers | injectors/web-inspector.js:80-93 | as written, for a `<div>` without an id, whose class attribute uses only ASCII whitespace and lacks the outline class, the copied selector is not the element's own: it is longer by exactly `.buildflowz-outline`. With an id both selectors are `#id` (`Copy.CopiedSelectorCases`) |
| Copy.EnabledDivStripped | injectors/web-inspector.js:72-112 | for a `<div>` that lacked the outline class, taking that class off again after enabling leaves its own tag, id and ordered class set, in normal form |
| Copy.CopiedSelectorFixedValue | injectors/web-inspector.js:6-15 | for a `<div>` without an id, whose class attribute uses only ASCII whitespace and lacks the outline class, the selector with the overlay's class taken off is the tag followed by the element's own classes in `classList` order |
| Copy.CopiedSelectorFixedIsPages | injectors/web-inspector.js:6-15 | corrected: the selector with the overlay's class taken off is the element's selector once the overlay is off. It is the page's original selector whenever the element lacked the outline class and its attribute was in normal form |
| Copy.CardPageShape | injectors/web-inspector.js:70 | a page with a single `<div class="card">` is valid, and its one element is a `<div>` |
| Copy.CardCopied | injectors/web-inspector.js:82 | on that page, the button copies `div.card.buildflowz-outline` |
| Copy.CardFixed | injectors/web-inspector.js:6-15 | on that page, the corrected selector and the page's own selector are both `div.card` |
| Loader.InitToggleButton | injectors/web-inspector.js:126-134 | `initToggleButton` adds exactly one toggle button to the body |
| Loader.RunScript | injectors/web-inspector.js:136-140 | after a run the window is marked as loaded. A window already marked is unchanged. An unmarked one with a body gets the tint and exactly one more toggle button, after its existing children. An unmarked one without a body is only marked, because the tint throws |
| Loader.RunScriptIdempotent | injectors/web-inspector.js:136-140 | running the script twice is the same as running it once |
| Loader.RunTimesIsOnce | injectors/web-inspector.js:136-140 | any positive number of runs is the same as one run: one toggle button and one tint when there is a body, none without |
| Loader.OneToggleButton | injectors/web-inspector.js:126-140 | a fresh page that the script has run on any positive number of times holds exactly one toggle button if it has a body. Without a body it never gets one, because the flag stays set after the first run throws |

## Left out

- The stylesheet text (lines 22-67) and the toggle button's `cssText`: they are opaque data. The `<style>` element is one `HeadNode` value.
- Clipboard writes and console logging in the button handlers: these are asynchronous browser I/O. The model states only which string would be copied.
- Event objects, `stopPropagation` and listener registration. The `click` and `touchend` handlers are identical, so one model serves both.
- The button's class `buildflowz-button` and its text: a button is recorded by its host and its number.
- `toLowerCase` beyond ASCII letters: only `A`-`Z` are lower-cased. Only `<div>`s, whose `tagName` is `DIV`, reach `generateSelector`, and ASCII lower-casing handles that tag exactly. The model does not claim that other tag names are ASCII. A custom element's name may hold non-ASCII letters.
- Quirks-mode, case-insensitive matching of `.buildflowz-outline`: the model matches classes case-sensitively, as in standards mode.
- The shape of the document tree: elements are a flat list in document order. Nodes that belong to the host page are opaque handles.
- Mutation of the page by anything other than the inspector: the model has no such transitions. `Valid` says what holds between the inspector's own steps.
- A second run of the script creates a new closure with its own state. That closure is not modelled, because the guard stops it from doing anything.
- The body's background colour is modelled only as a value the guard sets once.
- RemoveFirst: the DOM's `removeChild` throws `NotFoundError` when the node is not a child. The model returns the list unchanged instead. Both call sites check that the node is a child first, so this case never arises from the inspector.
- RemoveFirstCount: states only which children remain, as a multiset. Their order is stated by the contract of `Dom.RemoveFirst`.
- Inspector.EnableThenDisableAttribute: states equality of the `className` value. A `<div>` that had no class attribute gets one from `classList.add`, and `classList.remove` leaves it, empty (`class=""`). The model does not tell an absent attribute from an empty one.
- Inspector.ToggleTwice: states the flag and the child lists only. Class sets are covered separately by `Inspector.ToggleTwiceClasses`. The element itself is not claimed equal, because `classList` rewrites class attributes that are not in normal form.
- Inspector.DisableThenEnable: for elements that are not `<div>`s it states their class set less the outline class. Disabling removes the class from such elements and enabling does not add it back.

## Findings

| source | as written | input that shows it | evidently intended | confidence | as-written member | corrected member |
|---|---|---|---|---|---|---|
| injectors/web-inspector.js:82 | the button handler calls `generateSelector(div)` while the `<div>` still carries `buildflowz-outline`, so the copied selector names the overlay's own class | a page with one `<div class="card">` and no id: the button copies `div.card.buildflowz-outline` | copy `div.card`, the selector of the page's own element, which still matches once the overlay is off | not executed | Copy.CopiedSelectorDiffers | Copy.CopiedSelectorFixedIsPages |
