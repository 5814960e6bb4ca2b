/**
 * `MainViewModel`: the keyboard callback turns a keyboard-visibility value
 * into a view-visibility code and writes it to `_keyboardActive`, whose
 * public read-only face `keyboardActive` is the same holder.
 */
module ViewModel {
  import opened Wrappers

  /** `View.GONE`; only its difference from `VISIBLE` matters here. */
  const GONE: int := 8
  /** `View.VISIBLE`. */
  const VISIBLE: int := 0

  /** The code the callback writes: the view is hidden while the keyboard is up. */
  function VisibilityCode(visible: bool): (code: int)
    ensures code == GONE <==> visible
    ensures code == VISIBLE <==> !visible
  {
    if visible then GONE else VISIBLE
  }

  /** The holder's value after the callback is called with each of `calls` in turn, starting from `start`. */
  function AfterCallbacks(start: Option<int>, calls: seq<bool>): (holder: Option<int>)
    ensures calls == [] ==> holder == start
    ensures calls != [] ==> holder == Some(GONE) || holder == Some(VISIBLE)
    ensures holder == None <==> start == None && calls == []
    decreases |calls|
  {
    if calls == [] then start
    else AfterCallbacks(Some(VisibilityCode(calls[0])), calls[1..])
  }

  /** Each call overwrites the holder: after at least one call only the last argument decides its value. */
  lemma {:induction false} LastWriteWins(start: Option<int>, calls: seq<bool>)
    ensures calls == [] ==> AfterCallbacks(start, calls) == start
    ensures calls != [] ==> AfterCallbacks(start, calls) == Some(VisibilityCode(calls[|calls| - 1]))
    decreases |calls|
  {
    if calls != [] {
      LastWriteWins(Some(VisibilityCode(calls[0])), calls[1..]);
    }
  }

  class MainViewModel {
    /** `_keyboardActive.value`, also what `keyboardActive` exposes; `None` until the first write. */
    var keyboardActive: Option<int>

    constructor ()
      ensures keyboardActive == None
    {
      keyboardActive := None;
    }

    /** `keyboardCallback`: overwrite the holder with the code for `visible`. */
    method KeyboardCallback(visible: bool)
      modifies this
      ensures keyboardActive == Some(VisibilityCode(visible))
      ensures keyboardActive == Some(GONE) <==> visible
    {
      keyboardActive := Some(VisibilityCode(visible));
    }
  }
}
