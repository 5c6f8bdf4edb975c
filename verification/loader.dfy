/** Running the injected script on a window.

    The script guards its setup with a flag on the window: the first run sets
    the flag, tints the page body light yellow and appends the round toggle
    button (id `buildflowz-inspector-toggle`) to the body; every later run
    finds the flag set and leaves the window alone. The page body is reduced
    to whether the document has one, its background colour and the ids of the
    children the script appended. The flag is set before the body is touched:
    on a document without a body the tint throws, the script stops there, and
    the flag stays set, so no later run adds the button either.
 */
module Loader {
  const ToggleId := "buildflowz-inspector-toggle"
  const Tint := "lightyellow"

  datatype Window = Window(loaded: bool, hasBody: bool, background: string, appended: seq<string>)

  /** How many toggle buttons the body holds. */
  function Toggles(ids: seq<string>): (n: nat)
    ensures n <= |ids|
  {
    if |ids| == 0 then 0
    else Toggles(ids[..|ids| - 1]) + (if ids[|ids| - 1] == ToggleId then 1 else 0)
  }

  /** `initToggleButton()`: append the toggle button to the body. */
  function InitToggleButton(w: Window): (r: Window)
    ensures Toggles(r.appended) == Toggles(w.appended) + 1
    ensures r.loaded == w.loaded && r.hasBody == w.hasBody && r.background == w.background
  {
    var ids := w.appended + [ToggleId];
    assert ids[..|ids| - 1] == w.appended;
    w.(appended := ids)
  }

  /** One run of the script. */
  function RunScript(w: Window): (r: Window)
    // afterwards the window is always marked as loaded
    ensures r.loaded && r.hasBody == w.hasBody
    // a window already marked keeps everything else as it was
    ensures w.loaded ==> r == w
    // an unmarked window without a body is only marked: the tint throws
    ensures !w.loaded && !w.hasBody ==> r == w.(loaded := true)
    // an unmarked window with a body gets the tint and exactly one more
    // toggle button, after all the children it already had
    ensures !w.loaded && w.hasBody ==> r.background == Tint
    ensures !w.loaded && w.hasBody ==> Toggles(r.appended) == Toggles(w.appended) + 1
    ensures !w.loaded && w.hasBody ==> |r.appended| == |w.appended| + 1 && r.appended[..|w.appended|] == w.appended
  {
    if !w.loaded then
      var marked := w.(loaded := true);
      if !marked.hasBody then marked
      else InitToggleButton(marked.(background := Tint))
    else
      w
  }

  /** The script run `n` times in a row on the same window. */
  function RunTimes(w: Window, n: nat): Window
    decreases n
  {
    if n == 0 then w else RunTimes(RunScript(w), n - 1)
  }

  /** Running the script twice is running it once. */
  lemma RunScriptIdempotent(w: Window)
    ensures RunScript(RunScript(w)) == RunScript(w)
  {
  }

  /** However many times the script runs, the window ends as after the first
      run: the toggle button is added once and the tint applied once. */
  lemma {:induction false} RunTimesIsOnce(w: Window, n: nat)
    requires n > 0
    ensures RunTimes(w, n) == RunScript(w)
    ensures !w.loaded ==> Toggles(RunTimes(w, n).appended) == Toggles(w.appended) + (if w.hasBody then 1 else 0)
    ensures w.loaded ==> RunTimes(w, n) == w
    decreases n
  {
    if n > 1 {
      RunTimesIsOnce(RunScript(w), n - 1);
      RunScriptIdempotent(w);
    }
  }

  /** A fresh page that the script has run on any positive number of times
      holds exactly one toggle button when it has a body, and none ever when
      it has not. */
  lemma OneToggleButton(hasBody: bool, background: string, ids: seq<string>, n: nat)
    requires n > 0 && Toggles(ids) == 0
    ensures Toggles(RunTimes(Window(false, hasBody, background, ids), n).appended) == if hasBody then 1 else 0
    ensures RunTimes(Window(false, hasBody, background, ids), n).loaded
  {
    RunTimesIsOnce(Window(false, hasBody, background, ids), n);
  }
}
