/**
 * A keyboard watcher attached with the view model's callback: every value the
 * watcher hands to its callback is written into the view model's holder.
 */
module KeyboardPipeline {
  import opened Wrappers
  import opened ViewExtensions
  import opened ViewModel

  /** After the watcher's whole callback log, the holder says GONE exactly when the latest reading is visible. */
  lemma HolderFollowsLatestReading(start: Option<int>, initial: Option<bool>, events: seq<Option<bool>>)
    ensures AfterCallbacks(start, Emitted(initial, events)) == Some(VisibilityCode(Latest(initial, events)))
    ensures AfterCallbacks(start, Emitted(initial, events)) == Some(GONE) <==> Latest(initial, events)
  {
    LastWriteWins(start, Emitted(initial, events));
  }

  /**
   * Attach a watcher whose first reading is `initial` to `vm.KeyboardCallback`
   * and deliver the layout events whose readings are `events`.
   */
  method Watch(vm: MainViewModel, initial: Option<bool>, events: seq<Option<bool>>) returns (w: KeyboardWatcher)
    modifies vm
    ensures fresh(w) && w.Valid()
    ensures w.initialReading == initial && w.events == events
    ensures vm.keyboardActive == AfterCallbacks(old(vm.keyboardActive), w.emitted)
    ensures vm.keyboardActive == Some(GONE) <==> w.keyboardVisible
  {
    w := new KeyboardWatcher(initial);
    vm.KeyboardCallback(w.keyboardVisible);
    for i := 0 to |events|
      invariant w.Valid()
      invariant w.initialReading == initial && w.events == events[..i]
      invariant vm.keyboardActive == Some(VisibilityCode(w.keyboardVisible))
    {
      var fired := w.OnLayout(events[i]);
      if fired.Some? {
        vm.KeyboardCallback(fired.value);
      }
      assert events[..i + 1] == events[..i] + [events[i]];
    }
    assert events[..|events|] == events;
    StoredIsLastEmitted(w);
    LastWriteWins(old(vm.keyboardActive), w.emitted);
  }
}
