# Keyboard visibility watcher, modelled in Dafny

This project models the keyboard (IME) visibility watcher of the
Keyboard-Visibility-Watcher Android demo and the view-model callback it feeds.

`View.addKeyboardWatcher` waits for the view's first layout. It then reads
whether the IME is visible. A missing `rootWindowInsets` counts as "not
visible". It hands that value to the callback unconditionally and registers a
global-layout listener. On each layout event the listener reads again. It calls
back and stores the new value only when that value differs from the stored
one. `MainViewModel.keyboardCallback` maps `true` to `View.GONE` and `false` to
`View.VISIBLE`, and writes the code into the `_keyboardActive` holder.

Files:

- `wrappers.dfy` (module `Wrappers`): `Option`, which stands for Kotlin's
  nullable reading.
- `view_extensions.dfy` (module `ViewExtensions`): the reading normalisation.
  It also holds the specification functions `ReportedChanges` and `Emitted`,
  which give the listener's reports and the whole callback log, and a reference
  run-length de-duplication `Dedup` with lemmas that tie the two together. The
  class `KeyboardWatcher` keeps the captured `keyboardVisible` and the log of
  callback arguments. Its constructor is the `doOnLayout` step and `OnLayout` is
  the global-layout listener.
- `view_model.dfy` (module `ViewModel`): `VisibilityCode` and the class
  `MainViewModel`, with one `Option<int>` field and the `KeyboardCallback`
  method. `_keyboardActive` and its public view `keyboardActive` are the same
  object in the source, so one field models both.
- `keyboard_pipeline.dfy` (module `KeyboardPipeline`): a watcher attached with
  the view model's callback, run over a sequence of layout events, and the
  end-to-end property "the holder is GONE exactly when the latest reading is
  visible".

Readings are abstract: the initial reading and each event's reading are
`Option<bool>` inputs. `None` stands for a null `rootWindowInsets`. The
callback's invocations are recorded in the watcher's `emitted` log. `OnLayout`
also returns the value it passed to the callback, so a caller can forward it,
as `KeyboardPipeline.Watch` does.

`addKeyboardWatcher` has no detach operation and only one event source, the
global-layout listener, which it never removes.

## Model

| member | source | states |
|---|---|---|
| `ViewExtensions.Normalize` | app/src/main/java/com/teegarcs/ime_animation/_ViewExtensions.kt:20 | a reading counts as visible exactly when it is a definite `true`; an absent reading is not visible |
| `ViewExtensions.NormalizeAll` | app/src/main/java/com/teegarcs/ime_animation/_ViewExtensions.kt:27 | every event's reading is normalised by the same rule, one value per event, in order |
| `ViewExtensions.ReportedChanges` | app/src/main/java/com/teegarcs/ime_animation/_ViewExtensions.kt:26-33 | the listener reports at most one value per event; no report equals the state stored before it; consecutive reports differ; the final stored state is the latest reading |
| `ViewExtensions.Emitted` | app/src/main/java/com/teegarcs/ime_animation/_ViewExtensions.kt:18-33 | the callback log starts with the initial reading, whatever it is; it holds at most 1 + the number of events values; no two adjacent values are equal; its last value is the latest normalised reading |
| `ViewExtensions.ReportedChangesIsDedup` | app/src/main/java/com/teegarcs/ime_animation/_ViewExtensions.kt:26-33 | comparing each reading with the stored state reports exactly what comparing it with the previous reading does: the stored state followed by the reports is the run-length de-duplication of the stored state followed by the readings |
| `ViewExtensions.EmittedIsDedup` | app/src/main/java/com/teegarcs/ime_animation/_ViewExtensions.kt:20-33 | the callback log equals the run-length de-duplication of the normalised initial reading followed by the normalised event readings |
| `ViewExtensions.ReportedChangesIdempotent` | app/src/main/java/com/teegarcs/ime_animation/_ViewExtensions.kt:29-31 | feeding the listener's reports back as readings to a watcher in the same starting state reports them all again unchanged |
| `ViewExtensions.ReportedChangesSnoc` | app/src/main/java/com/teegarcs/ime_animation/_ViewExtensions.kt:29-32 | one more event adds its reading to the reports when it differs from the current stored state, and adds nothing otherwise |
| `ViewExtensions.EmittedSnoc` | app/src/main/java/com/teegarcs/ime_animation/_ViewExtensions.kt:27-32 | one more layout event makes its normalised reading the latest one, and appends it to the callback log exactly when it differs from the previous latest reading |
| `ViewExtensions.KeyboardWatcher.constructor` | app/src/main/java/com/teegarcs/ime_animation/_ViewExtensions.kt:18-26 | the initial step stores the normalised initial reading and emits it exactly once, before any event has been seen |
| `ViewExtensions.KeyboardWatcher.OnLayout` | app/src/main/java/com/teegarcs/ime_animation/_ViewExtensions.kt:26-33 | an event whose reading equals the stored state emits nothing and changes nothing; any other event emits exactly that reading once and stores it; the watcher invariant is kept (stored state = latest reading, log = `Emitted` of all readings) |
| `ViewExtensions.StoredIsLastEmitted` | app/src/main/java/com/teegarcs/ime_animation/_ViewExtensions.kt:20-31 | the stored `keyboardVisible` is always the last value handed to the callback |
| `ViewExtensions.Latest` | app/src/main/java/com/teegarcs/ime_animation/_ViewExtensions.kt:20-31 | the captured `keyboardVisible` after the initial step and the events: visible exactly when the latest raw reading (the initial one if no event came) is a definite `true`, i.e. the last of the normalised readings |
| `ViewModel.AfterCallbacks` | app/src/main/java/com/teegarcs/ime_animation/MainViewModel.kt:16-20 | the holder's value after a run of `keyboardCallback` calls: unchanged with no calls, otherwise GONE or VISIBLE; it is unset exactly when it started unset and no call was made |
| `ViewModel.VisibilityCode` | app/src/main/java/com/teegarcs/ime_animation/MainViewModel.kt:16-20 | the code is GONE exactly when the keyboard is visible and VISIBLE exactly when it is not |
| `ViewModel.LastWriteWins` | app/src/main/java/com/teegarcs/ime_animation/MainViewModel.kt:15-21 | after one or more callbacks the holder holds the code for the last call's argument, whatever came before; with no calls it keeps its value |
| `ViewModel.MainViewModel.constructor` | app/src/main/java/com/teegarcs/ime_animation/MainViewModel.kt:10-11 | the holder is unset before any callback |
| `ViewModel.MainViewModel.KeyboardCallback` | app/src/main/java/com/teegarcs/ime_animation/MainViewModel.kt:15-21 | a call overwrites the holder with GONE for `true` and VISIBLE for `false`, and changes nothing else |
| `KeyboardPipeline.HolderFollowsLatestReading` | app/src/main/java/com/teegarcs/ime_animation/MainViewModel.kt:15-21 | after the watcher's whole callback log has gone into the view model, the holder is GONE exactly when the latest normalised reading is visible |
| `KeyboardPipeline.Watch` | app/src/main/java/com/teegarcs/ime_animation/_ViewExtensions.kt:17-35 | attaching a watcher with the view model's callback and delivering any events leaves the holder equal to the result of the watcher's log of callbacks, and GONE exactly when the watcher's stored state is visible |

## Left out

- The Android calls (`doOnLayout`, `viewTreeObserver.addOnGlobalLayoutListener`, `rootWindowInsets`, `WindowInsets.Type.ime()`) are replaced by `Option<bool>` readings given as inputs.
- When `doOnLayout` runs its block is up to the platform's scheduling. The model has an initial step followed by events.
- Detaching the listener is not modelled, because the code never removes it. Layout-change versus inset-change modes are not modelled either, because this function has only the layout listener.
- `addKeyboardInsetListener`, which `MainActivity` actually calls, is not part of this model. Its definition is not among the modelled files. `KeyboardPipeline` composes the view model with `addKeyboardWatcher` instead.
- `MainActivity` and `HomeFragment` are UI wiring with no logic of their own: data binding, navigation, the SDK version gate and `setDecorFitsSystemWindows`.
- LiveData observer dispatch, main-thread checks and lifecycle are framework behaviour. The holder is a plain mutable field.
- The values of `View.GONE` (8) and `View.VISIBLE` (0) come from the platform, not from the app's source. The model relies only on their being distinct.
- The callback is one fixed consumer: the watcher's log or the view model. Arbitrary callback side effects, such as a callback that re-enters the view tree, are not modelled.
