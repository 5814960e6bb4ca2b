/**
 * The keyboard watcher of `View.addKeyboardWatcher`.
 *
 * Once the view is laid out, the watcher reads whether the IME is visible,
 * hands that reading to the callback and stores it. From then on every
 * global-layout event brings a fresh reading, which is handed to the callback
 * and stored only when it differs from the stored one.
 *
 * A reading is what `rootWindowInsets?.isVisible(WindowInsets.Type.ime())`
 * yields: `None` when the view has no root window insets, otherwise the
 * platform's answer.
 */
module ViewExtensions {
  import opened Wrappers

  /** `reading == true`: an absent reading counts as "not visible". */
  function Normalize(reading: Option<bool>): (visible: bool)
    ensures visible <==> reading == Some(true)
    ensures reading == None ==> !visible
  {
    match reading
    case None => false
    case Some(v) => v
  }

  /** The normalised readings of a run of layout events, in order. */
  function NormalizeAll(readings: seq<Option<bool>>): (vs: seq<bool>)
    ensures |vs| == |readings|
    ensures forall i :: 0 <= i < |readings| ==> vs[i] == Normalize(readings[i])
  {
    seq(|readings|, i requires 0 <= i < |readings| => Normalize(readings[i]))
  }

  /** No value in `s` is followed by the same value. */
  predicate NoRepeats(s: seq<bool>)
  {
    forall i :: 0 <= i < |s| - 1 ==> s[i] != s[i + 1]
  }

  /** The last value of `s`, or `before` when `s` is empty. */
  function LastOr(before: bool, s: seq<bool>): bool
  {
    if s == [] then before else s[|s| - 1]
  }

  /**
   * The values the layout listener hands to the callback when the stored
   * state is `stored` and the events bring the normalised readings `vs`:
   * a reading is reported, and becomes the stored state, only when it
   * differs from the stored state.
   */
  function ReportedChanges(stored: bool, vs: seq<bool>): (r: seq<bool>)
    ensures |r| <= |vs|
    ensures NoRepeats(r) && (r != [] ==> r[0] != stored)
    ensures LastOr(stored, r) == LastOr(stored, vs)
    decreases |vs|
  {
    if vs == [] then []
    else if vs[0] == stored then ReportedChanges(stored, vs[1..])
    else
      var rest := ReportedChanges(vs[0], vs[1..]);
      [vs[0]] + rest
  }

  /** The state stored after the initial reading and the event readings. */
  function Latest(initial: Option<bool>, events: seq<Option<bool>>): (visible: bool)
    ensures visible <==> (if events == [] then initial else events[|events| - 1]) == Some(true)
  {
    if events == [] then Normalize(initial) else Normalize(events[|events| - 1])
  }

  /**
   * Every value handed to the callback, in order: the initial reading,
   * unconditionally, then what the layout listener reports.
   */
  function Emitted(initial: Option<bool>, events: seq<Option<bool>>): (log: seq<bool>)
    ensures |log| >= 1 && log[0] == Normalize(initial)
    ensures |log| <= 1 + |events|
    ensures NoRepeats(log)
    ensures log[|log| - 1] == Latest(initial, events)
  {
    var first := Normalize(initial);
    var vs := NormalizeAll(events);
    [first] + ReportedChanges(first, vs)
  }

  /**
   * Run-length de-duplication: every run of equal adjacent values in `s`
   * collapsed into one value. This compares each reading with the reading
   * before it, where the watcher compares it with its stored state.
   */
  function Dedup(s: seq<bool>): seq<bool>
  {
    if |s| <= 1 then s
    else if s[0] == s[1] then Dedup(s[1..])
    else [s[0]] + Dedup(s[1..])
  }

  /** The watcher's reports, prefixed by the state it starts from, are the run-length de-duplication. */
  lemma {:induction false} ReportedChangesIsDedup(stored: bool, vs: seq<bool>)
    ensures Dedup([stored] + vs) == [stored] + ReportedChanges(stored, vs)
    decreases |vs|
  {
    if vs != [] {
      var s := [stored] + vs;
      assert s[1..] == [vs[0]] + vs[1..];
      ReportedChangesIsDedup(vs[0], vs[1..]);
    }
  }

  /** The callback log is the run-length de-duplication of the normalised readings. */
  lemma EmittedIsDedup(initial: Option<bool>, events: seq<Option<bool>>)
    ensures Emitted(initial, events) == Dedup([Normalize(initial)] + NormalizeAll(events))
  {
    ReportedChangesIsDedup(Normalize(initial), NormalizeAll(events));
  }

  /** Feeding reports back to a watcher in the same state reports them all again. */
  lemma {:induction false} ReportedChangesIdempotent(stored: bool, vs: seq<bool>)
    ensures ReportedChanges(stored, ReportedChanges(stored, vs)) == ReportedChanges(stored, vs)
    decreases |vs|
  {
    if vs != [] {
      if vs[0] == stored {
        ReportedChangesIdempotent(stored, vs[1..]);
      } else {
        var rest := ReportedChanges(vs[0], vs[1..]);
        ReportedChangesIdempotent(vs[0], vs[1..]);
        assert ([vs[0]] + rest)[1..] == rest;
      }
    }
  }

  /** One more event either adds its reading to the reports or, when it equals the stored state, nothing. */
  lemma {:induction false} ReportedChangesSnoc(stored: bool, vs: seq<bool>, v: bool)
    ensures ReportedChanges(stored, vs + [v])
         == ReportedChanges(stored, vs) + (if v == LastOr(stored, vs) then [] else [v])
    decreases |vs|
  {
    if vs != [] {
      assert (vs + [v])[1..] == vs[1..] + [v];
      assert LastOr(vs[0], vs[1..]) == LastOr(stored, vs);
      if vs[0] == stored {
        ReportedChangesSnoc(stored, vs[1..], v);
      } else {
        ReportedChangesSnoc(vs[0], vs[1..], v);
      }
    }
  }

  /** One more event extends the callback log exactly as the layout listener does, and becomes the latest reading. */
  lemma EmittedSnoc(initial: Option<bool>, events: seq<Option<bool>>, e: Option<bool>)
    ensures Latest(initial, events + [e]) == Normalize(e)
    ensures Emitted(initial, events + [e])
         == Emitted(initial, events) + (if Normalize(e) == Latest(initial, events) then [] else [Normalize(e)])
  {
    var first := Normalize(initial);
    var vs := NormalizeAll(events);
    assert NormalizeAll(events + [e]) == vs + [Normalize(e)];
    assert LastOr(first, vs) == Latest(initial, events);
    ReportedChangesSnoc(first, vs, Normalize(e));
  }

  /**
   * The closure state of one `addKeyboardWatcher` call after `doOnLayout`
   * has run: the captured `keyboardVisible`, and the log of values handed to
   * the callback. The readings seen so far are kept as ghost history.
   */
  class KeyboardWatcher {
    var keyboardVisible: bool
    var emitted: seq<bool>
    ghost var initialReading: Option<bool>
    ghost var events: seq<Option<bool>>

    /** The stored state is the latest reading and the log is exactly what the readings call for. */
    ghost predicate Valid()
      reads this
    {
      keyboardVisible == Latest(initialReading, events) &&
      emitted == Emitted(initialReading, events)
    }

    /**
     * The body of `doOnLayout`: read the initial state, hand it to the
     * callback whatever it is, then register the layout listener (any later
     * call is `OnLayout`, so it comes after this emission).
     */
    constructor (reading: Option<bool>)
      ensures Valid()
      ensures initialReading == reading && events == []
      ensures keyboardVisible == Normalize(reading)
      ensures emitted == [keyboardVisible]
    {
      keyboardVisible := Normalize(reading);
      emitted := [Normalize(reading)];
      initialReading := reading;
      events := [];
    }

    /**
     * The global-layout listener. Returns the value it hands to the
     * callback, or `None` when the reading equals the stored state.
     */
    method OnLayout(reading: Option<bool>) returns (fired: Option<bool>)
      requires Valid()
      modifies this
      ensures Valid()
      ensures initialReading == old(initialReading) && events == old(events) + [reading]
      ensures var v := Normalize(reading);
        if v == old(keyboardVisible) then
          fired == None && keyboardVisible == old(keyboardVisible) && emitted == old(emitted)
        else
          fired == Some(v) && keyboardVisible == v && emitted == old(emitted) + [v]
    {
      var keyboardUpdateCheck := Normalize(reading);
      EmittedSnoc(initialReading, events, reading);
      if keyboardUpdateCheck != keyboardVisible {
        emitted := emitted + [keyboardUpdateCheck];
        fired := Some(keyboardUpdateCheck);
        keyboardVisible := keyboardUpdateCheck;
      } else {
        fired := None;
      }
      events := events + [reading];
    }
  }

  /** The stored state of a valid watcher is the last value it handed to the callback. */
  lemma StoredIsLastEmitted(w: KeyboardWatcher)
    requires w.Valid()
    ensures w.emitted != [] && w.keyboardVisible == w.emitted[|w.emitted| - 1]
  {
  }
}
