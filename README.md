# Keyboard emulation of bevy_ratatui, in Dafny

bevy_ratatui turns crossterm key events, read from a terminal, into Bevy `KeyboardInput`
events. Most terminals never report key releases and never report modifier keys on their
own. The plugin therefore detects what the terminal can do and emulates the rest:
- it releases a pressed key once a release timer runs out, or when the key is not pressed
  again;
- it synthesises presses and releases of Shift, Control, Alt, Super, Hyper and Meta from
  the modifier bits each key event carries.

The repository has three versions of this engine, and the project models all three:

- `src/input_forwarding/keyboard.rs` is the primary one. It is modelled in
  `input_forwarding.dfy`, with frame-by-frame runs of its documented streams in
  `forwarding_scenarios.dfy`. The model has:
  - the `ReleaseKey` scheduler (`Duration`, `FrameCount`, `Immediate`, `OnNextKey`) and
    its state;
  - capability detection and the `Emulate` marker;
  - the emulating system and the pass-through system;
  - a `KeyboardPlugin` class whose methods are the systems, with the frame they compute
    stated by the predicate `UpdateStep`.
- `src/bevy_compat/keyboard.rs` is modelled in `bevy_compat.dfy`. It is the older form:
  - one system with detection inline;
  - the emulation set recomputed per event;
  - a plain Bevy timer as the scheduler;
  - a translator that drops BackTab.
- `src/input.rs` is modelled in `input.dfy` and `input_scenarios.dfy`. It is the newer
  form:
  - the `KeyReleaseTimer` resource and `KeyReleaseMode`;
  - detection that clears on a policy change;
  - the masked policy (`Manual(c)` emulates `c` minus what was detected);
  - the release work split into `emulate_release_keys`, `emulate_release_modifiers` and
    `emulate_key_events`.

Shared pieces are in separate files:
- `keys.dfy`: crossterm and Bevy key types;
- `translate.dfy`: the translation tables and `key_event_to_bevy`;
- `capabilities.dfy`: capability sets and the policies;
- `bevy_time.dfy`: Bevy's one-shot `Timer`;
- `emulation.dfy`: the reconciler that the input-forwarding and compat systems share. It
  includes the two-frame `LastPress` buffer, the modifier delta, the drain, and the
  pass-through queue.

`emulation.dfy` also defines a consumer of the emitted stream. The consumer identifies a
key by its pair of key code and logical key, and records which pairs are down.
`Strict(down, out)` holds when every event of `out` toggles a pair: it presses a pair that
is up, or releases a pair that is down. `Apply(down, out)` is the set of pairs that are
down afterwards. Bevy itself keeps key codes and logical keys in two separate
`ButtonInput`s. The strictness results are about the pair consumer, not about either of
those two (see "## Left out").

The central results:
- A frame of distinct key presses, with release emulation on, produces a strict stream:
  - `FrameIsStrict`;
  - `CompatFrameIsStrict`;
  - over any run of frames, `RunIsStrict`.
- After such a frame, exactly the keys of that frame and the held modifiers are down.
- Repeats and repeated presses break strictness, and `RepeatLeavesKeyPressed` and
  `HeldKeyIsReleased` exhibit this.

The code without emulation is a special case. `SendKeyEventsNoEmulation`, and
`KeyEventsWithoutModifiers` without modifier emulation, emit exactly the pass-through
translation `Forwarded(events)`.

How the model reads the code, where a reader might expect otherwise:

- `input_forwarding/keyboard.rs` and `bevy_compat/keyboard.rs` emulate `Manual(c)` as
  exactly `c`, even the capabilities the terminal was seen to provide. Only `input.rs`
  subtracts the detected set.
- A policy change clears the detected set only in `input.rs`. In
  `input_forwarding/keyboard.rs` it only brings back the `Emulate` marker.
- `FrameCount(n)` counts up from 0 after every reset. It is finished once the count
  reaches `n`, so `FrameCount(0)` is finished on the first tick.
- For `OnNextKey`, a frame with a press of B while A is held emits B's press before A's
  release. The frame emits its events first and then drains.
- A repeat event is sent as a Released event, and the key is queued; the drain of the next
  frame sends it as a Pressed event. Under release emulation the stream Press, Repeat,
  quiet frames becomes P, R, R, P, and the key is left pressed (`RepeatStream`,
  `RepeatLeavesKeyPressed`).
- The `bevy_compat` system counts a repeat, which it translates as a release, as evidence
  of KEY_RELEASE. Under `Automatic`, one repeat therefore switches release emulation off
  for good (`RepeatCountsAsRelease`, `ReleaseEmulationStaysOff`).
- In `input.rs`, three things never fire:
  - the `KeyReleaseTimer` resource is only ever default-constructed, and a `Duration`
    timer that was never reset has no Bevy timer to tick, so it never finishes;
  - `emulate_release_keys`' own buffer is never swapped, so its drain is always empty;
  - `emulate_release_modifiers`' mask is never written.

  The two release systems are therefore inert (`InertStaysInert`). All releases come
  from `emulate_key_events`. That system always emits the key it reads, so a key pressed
  in two consecutive ticks is pressed twice and then released (`HeldKeyIsReleased`).
- Bevy fixes no order between `input.rs`'s release chain and `emulate_key_events`. Its
  `Update` therefore returns the three outputs separately.
- The plugins place their systems in `InputSet::Pre`, `CheckEmulation` and `EmitBevy`. No
  ordering of these sets is part of this model. The model takes them in that order, with
  the deferred resource insertions and removals applied between them.

## Model

| member | source | states |
|---|---|---|
| Translate.CharKeyCode | src/input_forwarding/keyboard.rs:564-791 | a character maps to a key code and at most SHIFT, never to a modifier key code |
| Translate.ModifierKeyCode | src/input_forwarding/keyboard.rs:819-838 | every modifier key code maps to a Bevy modifier key code, except IsoLevel3Shift and IsoLevel5Shift, which map to nothing |
| Translate.ToBevyKeyCode | src/input_forwarding/keyboard.rs:509-840 | added modifiers are empty or SHIFT; the result is a modifier key code iff the input is a modifier code; Null and KeypadBegin are unmapped; F(n) is mapped iff n is in the table |
| Translate.ToBevyKey | src/input_forwarding/keyboard.rs:842-943 | a character maps to that character; Null and KeypadBegin are unmapped; F(n) as for key codes; IsoLevel5Shift is the only unmapped modifier |
| Translate.KeyEventToBevy | src/input_forwarding/keyboard.rs:468-507 | mapped iff both tables map the code; Pressed iff the kind is Press, so a repeat is Released; the repeated flag iff the kind is Repeat; the modifiers are the event's plus the table's |
| Translate.ModifierToBevy | src/input_forwarding/keyboard.rs:444-466 | the event carries the given logical key and state, with a modifier key code |
| Translate.ModifierEvent | src/input_forwarding/keyboard.rs:945-963 | the event for one modifier bit has the given state and a modifier key code |
| Translate.ModifierEventInjective | src/input_forwarding/keyboard.rs:444-466 | two modifier events are equal iff they have the same bit and state |
| Translate.ShiftedLetter | src/input_forwarding/keyboard.rs:686-790 | an upper-case letter maps to the lower-case letter's key code plus SHIFT |
| Translate.CharRows | src/input_forwarding/keyboard.rs:564-790 | sample character rows: '!' is SHIFT+Digit1, 'a' is KeyA, '_' has no row |
| Translate.CodeRows | src/input_forwarding/keyboard.rs:530-563 | BackTab is SHIFT+Tab; F5 maps and F21 does not |
| Translate.ModifierRows | src/input_forwarding/keyboard.rs:819-836 | LeftShift maps to ShiftLeft; IsoLevel3Shift has no key code |
| Capabilities.Complement | src/input_forwarding/keyboard.rs:55 | a capability is in the complement iff it was not detected |
| Capabilities.EmulateUnmasked | src/input_forwarding/keyboard.rs:52-57 | Automatic emulates exactly what was not detected; Manual(c) emulates exactly c (the same in src/bevy_compat/keyboard.rs:147-152) |
| Capabilities.EmulateMasked | src/input.rs:185-190 | nothing detected is emulated; Automatic emulates the undetected capabilities; Manual(c) emulates c minus the detected ones |
| Capabilities.MaskedIsUnmaskedMinusDetected | src/input.rs:185-190 | the masked policy is the unmasked one minus the detected set |
| Capabilities.Witnessed | src/input_forwarding/keyboard.rs:285-294 | one event shows MODIFIER iff its code is a modifier, and KEY_RELEASE iff its kind is Release |
| Capabilities.DetectedIn | src/input_forwarding/keyboard.rs:285-294 | a tick shows MODIFIER iff some event has a modifier code, and KEY_RELEASE iff some event is a Release |
| BevyTime.Timer.Tick | src/input_forwarding/keyboard.rs:237-243 | ticking keeps the duration and validity; the timer is finished iff elapsed plus delta reaches the duration |
| BevyTime.Timer.Reset | src/input_forwarding/keyboard.rs:272-276 | a reset timer has no elapsed time and is not finished |
| BevyTime.NewTimer | src/input_forwarding/keyboard.rs:237-243 | a new one-shot timer has the given duration, no elapsed time, and is not finished |
| BevyTime.TickAllElapsed | src/input_forwarding/keyboard.rs:237-243 | after a run of ticks: elapsed is the sum of the deltas, clamped to the duration; finished iff the sum reaches the duration; no ticks change nothing |
| Emulation.Reciprocal | src/input_forwarding/keyboard.rs:378-388 | the reciprocal has the same key and the other state |
| Emulation.ReciprocalInvolutive | src/input_forwarding/keyboard.rs:378-388 | taking the reciprocal twice gives the event back |
| Emulation.DeltaEventsShape | src/input_forwarding/keyboard.rs:340-355 | every event of the loop over the listed bits is the synthetic event of its own bit and state |
| Emulation.DeltaEventsMembers | src/input_forwarding/keyboard.rs:340-355 | the loop emits the event of a bit iff the bit is listed and changed, Pressed iff the bit is new |
| Emulation.DeltaEventsDistinct | src/input_forwarding/keyboard.rs:340-355 | over distinct bits the loop emits no event twice |
| Emulation.ModifierDeltaStrict | src/input_forwarding/keyboard.rs:340-355 | to a consumer holding exactly the old modifiers, every delta event toggles a key, and afterwards exactly the new modifiers are held |
| Emulation.ModifierDeltaExact | src/input_forwarding/keyboard.rs:340-355 | the delta holds distinct modifier events; Pressed(m) iff m was added and Released(m) iff m was removed |
| Emulation.ModifierDeltaSame | src/input_forwarding/keyboard.rs:340 | an unchanged modifier set gives no events |
| Emulation.ModifierDeltaSingle | src/input_forwarding/keyboard.rs:340-355 | adding or removing one bit sends exactly its press or its release |
| Emulation.EmitModifierDelta | src/input.rs:474-491 | the loop over the symmetric difference emits the modifier delta |
| Emulation.ReconcileEvent | src/input_forwarding/keyboard.rs:338-376 | modifier delta first when MODIFIER is emulated and the mask changed; a key held from the last frame is carried over silently; a new key is sent and queued; without release emulation the key is sent and only a repeat is queued |
| Emulation.ReconcileOne | src/input_forwarding/keyboard.rs:337-338 | a tick of one mappable event is reconciled as that event alone |
| Emulation.ReconcileStepStrict | src/input_forwarding/keyboard.rs:338-376 | one press of an ordinary key not yet queued toggles only keys in the right state, queues the key and keeps the consumer's view equal to the tracked state |
| Emulation.DrainStrict | src/input_forwarding/keyboard.rs:378-388 | draining held keys releases each of them once, leaving them up |
| Emulation.FlushStrict | src/input_forwarding/keyboard.rs:389-403 | releasing every tracked modifier toggles each once and leaves only the held keys down |
| Emulation.InputsOfSnoc | src/input_forwarding/keyboard.rs:337-338 | the keys of a tick are those of its prefix plus the last event's, if that event maps |
| Emulation.ReconcileAllStrict | src/input_forwarding/keyboard.rs:337-376 | with release emulation on distinct presses: the event loop's output toggles every key, and afterwards the down keys are exactly the tracked state; the next-frame set is exactly the tick's keys |
| Emulation.EndOfTickStrict | src/input_forwarding/keyboard.rs:378-406 | the drain, the optional modifier flush and the swap release only keys that are down, and leave exactly the carried keys and remaining modifiers down |
| Emulation.EmulatedTickIsStrict | src/input_forwarding/keyboard.rs:337-406 | a whole emulated tick of distinct presses is strict, and afterwards exactly that tick's keys are held |
| Emulation.Forwarded | src/input_forwarding/keyboard.rs:421-432 | as many events as the tick when all events map, and no more than the tick ever |
| Emulation.ForwardedSound | src/input_forwarding/keyboard.rs:421-432 | every forwarded event is the translation of some event of the tick |
| Emulation.ForwardedPrefix | src/input_forwarding/keyboard.rs:421-432 | the translation of all but the last event of a tick is a prefix of the tick's |
| Emulation.ForwardedLast | src/input_forwarding/keyboard.rs:421-432 | the last event of a tick, if it maps, is forwarded after all the others |
| Emulation.ForwardedComplete | src/input_forwarding/keyboard.rs:421-432 | every mappable event's translation is forwarded, right after the translations of the events before it |
| Emulation.ForwardedInOrder | src/input_forwarding/keyboard.rs:421-432 | past a mappable event more events have been forwarded, so translations keep the events' order |
| Emulation.ForwardedSnoc | src/input_forwarding/keyboard.rs:421-432 | both pass-through queues of a tick extend those of its prefix by the last event's entry |
| Emulation.PassThroughStep | src/input_forwarding/keyboard.rs:421-432 | the same, for the first i + 1 events against the first i |
| Emulation.RepeatOf | src/input_forwarding/keyboard.rs:424-429 | an event queues a press iff it is a mappable repeat, and the press is its translation with the state Pressed |
| Emulation.RepeatPresses | src/input_forwarding/keyboard.rs:424-429 | the queue holds presses only, and is empty without repeats |
| Emulation.RepeatPressesSound | src/input_forwarding/keyboard.rs:424-429 | every queued press is the repeat entry of some event of the tick |
| Emulation.LastPress.Swap | src/input_forwarding/keyboard.rs:154-158 | the current and next sets trade places |
| Emulation.LastPress.DrainReciprocal | src/input_forwarding/keyboard.rs:378-388 | the current set is emptied, and each of its entries is emitted once, reciprocated, in unspecified order |
| Emulation.Reconciler.ProcessEvent | src/input_forwarding/keyboard.rs:338-376 | the loop body updates the mask and buffers and emits as ReconcileEvent says |
| Emulation.Reconciler.ProcessEvents | src/input_forwarding/keyboard.rs:337-376 | the event loop leaves the buffers and emits exactly as ReconcileAll says |
| Emulation.Reconciler.ReleaseModifiers | src/input_forwarding/keyboard.rs:389-403 | every held modifier is released and the mask cleared |
| Emulation.Reconciler.FinishTick | src/input_forwarding/keyboard.rs:378-406 | drain, optional modifier flush and swap, as EndOfTick says |
| Emulation.PassThrough.Send | src/input_forwarding/keyboard.rs:411-433 | the queued repeats go out first, then the tick's translation; the queue becomes the tick's repeats as presses |
| InputForwarding.SaturatingInc | src/input_forwarding/keyboard.rs:232 | `u32::saturating_add(1)`: add one below the maximum, stay at the maximum |
| InputForwarding.ReleaseKey.Tick | src/input_forwarding/keyboard.rs:227-246 | the state keeps its shape for the mode and, once started, stays started |
| InputForwarding.ReleaseKey.Reset | src/input_forwarding/keyboard.rs:268-281 | FrameCount and Immediate return to count 0; Duration to a fresh timer |
| InputForwarding.NeverAndAlways | src/input_forwarding/keyboard.rs:248-266 | OnNextKey is never finished; Immediate always is |
| InputForwarding.CountTicks | src/input_forwarding/keyboard.rs:230-236 | each tick adds one to the count, saturating at the u32 maximum |
| InputForwarding.FrameCountFinishesAfter | src/input_forwarding/keyboard.rs:227-281 | after a reset, FrameCount(n) is finished iff at least n frames have ticked |
| InputForwarding.TimerTicks | src/input_forwarding/keyboard.rs:237-243 | a Duration scheduler ticks its Bevy timer once per frame |
| InputForwarding.DurationFinishesAfter | src/input_forwarding/keyboard.rs:227-281 | after a reset, Duration(d) is finished iff some frames ticked and their times sum to at least d |
| InputForwarding.KeyboardPlugin.constructor | src/input_forwarding/keyboard.rs:78-112 | every resource and local starts at its default, and the marker is present |
| InputForwarding.KeyboardPlugin.SetPolicy | src/input_forwarding/keyboard.rs:92-97 | a policy write marks the policy changed and touches nothing else |
| InputForwarding.KeyboardPlugin.ResetEmulationCheck | src/input_forwarding/keyboard.rs:314-316 | the marker is inserted |
| InputForwarding.KeyboardPlugin.DetectCapabilities | src/input_forwarding/keyboard.rs:285-294 | the detected set gains exactly what the events show |
| InputForwarding.KeyboardPlugin.CheckForEmulation | src/input_forwarding/keyboard.rs:303-312 | the marker is removed iff there is nothing left to emulate |
| InputForwarding.KeyboardPlugin.SendKeyEventsWithEmulation | src/input_forwarding/keyboard.rs:319-407 | tick, the idle return, the event loop, drain, the modifier flush on a finished scheduler, swap and reset, as EmulatedSend says |
| InputForwarding.KeyboardPlugin.SendKeyEventsNoEmulation | src/input_forwarding/keyboard.rs:411-433 | the queued repeats, then the plain translation; the new repeats are queued |
| InputForwarding.KeyboardPlugin.Update | src/input_forwarding/keyboard.rs:78-112 | one PreUpdate pass, with the pass-through system chosen when the marker is gone, as UpdateStep says |
| InputForwarding.DetectionIsSticky | src/input_forwarding/keyboard.rs:60-70 | detected bits are never cleared; while the marker is absent detection stops and the marker does not come back |
| InputForwarding.IdleFrame | src/input_forwarding/keyboard.rs:331-334 | a frame without events on an unfinished scheduler emits nothing and leaves the buffers unchanged |
| InputForwarding.FrameIsStrict | src/input_forwarding/keyboard.rs:319-407 | with release emulation, a frame of distinct presses is strict and leaves exactly its keys held |
| InputForwarding.NoDetectionFromPresses | src/input_forwarding/keyboard.rs:285-294 | presses of ordinary keys show nothing |
| InputForwarding.StrictStep | src/input_forwarding/keyboard.rs:319-407 | a frame preserves the steady state (release emulated, no pending next-frame keys) and is strict |
| InputForwarding.RunIsStrict | src/input_forwarding/keyboard.rs:319-407 | any run of such frames from a steady state is one strict stream ending in the last state's keys |
| InputForwarding.FreshPluginIsSteady | src/input_forwarding/keyboard.rs:87-90 | a freshly built plugin under Automatic is steady |
| ForwardingScenarios.EmulatingAll | src/input_forwarding/keyboard.rs:52-57 | under Automatic with nothing detected, both capabilities are emulated, and non-release, non-modifier events detect nothing |
| ForwardingScenarios.TranslateLetter | src/input_forwarding/keyboard.rs:468-507 | a lower-case letter translates to its own key, in the state its kind gives, keeping the event's modifiers, repeated iff the kind is Repeat |
| ForwardingScenarios.PressReconciled | src/input_forwarding/keyboard.rs:364-371 | with both capabilities emulated, the press of a letter not held is sent and queued for the next frame |
| ForwardingScenarios.EmulatedFrame | src/input_forwarding/keyboard.rs:319-407 | a frame in which both capabilities stay emulated sends the event loop's output, then drains the held keys; the marker stays and nothing is detected |
| ForwardingScenarios.OneKeyFrame | src/input_forwarding/keyboard.rs:319-407 | a frame of one key event, with one key held before, sends the loop's output and then that key's release |
| ForwardingScenarios.DurationFrame1 | src/input_forwarding/keyboard.rs:177-179 | the press of A is sent at once, and the one-second timer starts |
| ForwardingScenarios.DurationFrame2 | src/input_forwarding/keyboard.rs:331-334 | half a second later nothing is sent |
| ForwardingScenarios.DurationFrame3 | src/input_forwarding/keyboard.rs:378-406 | once the second is up, A is released |
| ForwardingScenarios.DurationRelease | src/input_forwarding/keyboard.rs:177-179 | the documented Duration stream: Press A, then Release A after the timer |
| ForwardingScenarios.OnNextKeyFrame1 | src/input_forwarding/keyboard.rs:192-196 | the press of A is sent |
| ForwardingScenarios.BAfterA | src/input_forwarding/keyboard.rs:364-371 | a press of B while A is held is sent at once, and A stays in the current buffer |
| ForwardingScenarios.OnNextKeyFrame2 | src/input_forwarding/keyboard.rs:192-196 | the press of B is sent, then A is released |
| ForwardingScenarios.OnNextKeyIdle | src/input_forwarding/keyboard.rs:192-196 | without another key, B is never released |
| ForwardingScenarios.OnNextKeyRelease | src/input_forwarding/keyboard.rs:192-196 | the documented OnNextKey stream |
| ForwardingScenarios.CtrlAReconciled | src/input_forwarding/keyboard.rs:340-371 | Ctrl+A sends the Control press, then A, and the mask becomes {Control} |
| ForwardingScenarios.ModifierFrame1 | src/input_forwarding/keyboard.rs:340-355 | Ctrl+A sends a Control press before A |
| ForwardingScenarios.ModifierFrame2 | src/input_forwarding/keyboard.rs:389-403 | when the timer runs out, A is released and then Control |
| ForwardingScenarios.ModifierEmulation | src/input_forwarding/keyboard.rs:336-407 | the Control press and release appear around A |
| ForwardingScenarios.RepeatFrame1 | src/input_forwarding/keyboard.rs:364-371 | the press of A is sent |
| ForwardingScenarios.RepeatReconciled | src/input_forwarding/keyboard.rs:357-371 | a repeat of the held A is sent as a release and queued as a release for the next frame |
| ForwardingScenarios.RepeatFrame2 | src/input_forwarding/keyboard.rs:357-362 | the repeat is sent as a release, and A's press is released again by the drain |
| ForwardingScenarios.RepeatFrame3 | src/input_forwarding/keyboard.rs:378-388 | the drain turns the carried release into a press |
| ForwardingScenarios.RepeatFrame4 | src/input_forwarding/keyboard.rs:378-388 | nothing is held, nothing is sent |
| ForwardingScenarios.RepeatStream | src/input_forwarding/keyboard.rs:357-388 | Press, Repeat and quiet frames become P, R, R, P |
| ForwardingScenarios.RepeatLeavesKeyPressed | src/input_forwarding/keyboard.rs:357-362 | that stream is not strict, and A is left pressed |
| ForwardingScenarios.ShiftInput | src/input_forwarding/keyboard.rs:468-507 | a Shift press or release translates to ShiftLeft in the same state, and queues no repeat |
| ForwardingScenarios.ForwardedPair | src/input_forwarding/keyboard.rs:421-432 | two mappable events pass through as their two translations |
| ForwardingScenarios.KittyDetected | src/input_forwarding/keyboard.rs:285-312 | a Shift press and release show both capabilities, and Automatic then emulates nothing |
| ForwardingScenarios.KittyForwarded | src/input_forwarding/keyboard.rs:411-433 | the pass-through system sends the Shift press and release unchanged and queues nothing |
| ForwardingScenarios.KittyFrame | src/input_forwarding/keyboard.rs:303-312 | a terminal that reports a Shift press and release is fully detected, and the marker goes; the two events pass through unchanged |
| BevyCompat.CompatKeyEventToBevy | src/bevy_compat/keyboard.rs:395-434 | as in the later versions, with this version's tables |
| BevyCompat.TranslatorsDifferOnBackTab | src/bevy_compat/keyboard.rs:457 | the translators agree except on BackTab, which this one drops (also at line 781) and the later one maps to SHIFT+Tab |
| BevyCompat.Shown | src/bevy_compat/keyboard.rs:272-279 | MODIFIER iff the code is a modifier, whether or not it maps; KEY_RELEASE iff the event maps and is not a press |
| BevyCompat.DetectedModifier | src/bevy_compat/keyboard.rs:272-274 | a tick shows MODIFIER iff one of its events has a modifier code |
| BevyCompat.DetectedRelease | src/bevy_compat/keyboard.rs:276-278 | a tick shows KEY_RELEASE iff one of its events maps and is not a press, repeats included |
| BevyCompat.RepeatCountsAsRelease | src/bevy_compat/keyboard.rs:276-278 | a mapped repeat counts as KEY_RELEASE here, unlike in the later detection |
| BevyCompat.CompatAllDetects | src/bevy_compat/keyboard.rs:271-279 | detection over a tick ORs in exactly what the tick shows |
| BevyCompat.BackTabDropped | src/bevy_compat/keyboard.rs:457 | BackTab is neither detected, sent nor buffered |
| BevyCompat.RepeatIsQueued | src/bevy_compat/keyboard.rs:298-303 | a mapped repeat always lands in the next-frame set |
| BevyCompat.RepeatUnderAutomatic | src/bevy_compat/keyboard.rs:276-316 | under Automatic a repeat turns off release emulation in the same event, and is sent as a release |
| BevyCompat.PressAgrees | src/bevy_compat/keyboard.rs:280-316 | a press of an ordinary key is reconciled as the later versions do |
| BevyCompat.AgreesOnPresses | src/bevy_compat/keyboard.rs:271-317 | a tick of such presses detects nothing and equals the shared reconciler's run |
| BevyCompat.KeyboardPlugin.constructor | src/bevy_compat/keyboard.rs:247-252 | resources at their defaults: nothing detected, a fresh timer, empty buffers |
| BevyCompat.KeyboardPlugin.ProcessKeyEvent | src/bevy_compat/keyboard.rs:271-317 | the loop body computes CompatEvent |
| BevyCompat.KeyboardPlugin.SendKeyEventsWithEmulation | src/bevy_compat/keyboard.rs:255-345 | the whole system, as CompatStep says |
| BevyCompat.CompatIdleFrame | src/bevy_compat/keyboard.rs:266-269 | an idle frame on an unfinished timer emits nothing; only the timer advances |
| BevyCompat.CompatDetectionIsSticky | src/bevy_compat/keyboard.rs:272-279 | detection only adds bits, exactly those the frame shows |
| BevyCompat.ReleaseEmulationStaysOff | src/bevy_compat/keyboard.rs:147-152 | once KEY_RELEASE is detected, Automatic never emulates releases again |
| BevyCompat.CompatFrameIsStrict | src/bevy_compat/keyboard.rs:255-345 | with release emulation, a frame of distinct presses without BackTab is strict and leaves exactly its keys held |
| Input.TickFields | src/input.rs:303-318 | per mode: Duration ticks its timer if there is one, else nothing changes; FrameCount counts up saturating and is finished at the target; Immediate is finished; OnNextKey is not |
| Input.ResetFields | src/input.rs:320-331 | never finished afterwards; Duration gets a fresh timer; FrameCount's count returns to 0 |
| Input.UnresetDurationNeverFinishes | src/input.rs:305-310 | a Duration timer that was never reset never changes and never finishes |
| Input.FrameCountRun | src/input.rs:311-314 | the count grows by one per tick, saturating; finished iff at the target |
| Input.FrameCountFinishesAfterReset | src/input.rs:311-314 | after a reset, FrameCount(n) is finished iff at least n ticks have passed |
| Input.DurationRun | src/input.rs:305-310 | the Bevy timer is ticked once per frame, and finished follows it |
| Input.DurationFinishesAfterReset | src/input.rs:320-324 | after a reset, Duration(d) is finished iff the frame times reach d |
| Input.ImmediateAndOnNextKey | src/input.rs:315-316 | Immediate is finished after a tick; OnNextKey is not |
| Input.KeyReleaseTimer.constructor | src/input.rs:286-297 | the resource's default fields |
| Input.KeyReleaseTimer.Tick | src/input.rs:303-318 | the fields become TickFields of the old ones |
| Input.KeyReleaseTimer.Reset | src/input.rs:320-331 | the fields become ResetFields of the old ones |
| Input.ReleaseKeysEvent | src/input.rs:382-388 | a key leaves the current set and joins the next |
| Input.ReleaseKeysAllMoves | src/input.rs:381-389 | over a tick, the tick's keys leave the current set and join the next |
| Input.KeyEventWithModifiers | src/input.rs:443-455 | with MODIFIER emulated: the modifier delta, then the key; the key is queued and the mask updated |
| Input.KeyEventWithoutModifiers | src/input.rs:443-455 | without MODIFIER: the key alone, queued |
| Input.KeyEventsWithoutModifiers | src/input.rs:441-456 | without MODIFIER the loop emits exactly the pass-through translation and queues every key |
| Input.KeyboardPlugin.constructor | src/input.rs:129-133 | every resource and local at its default, the `EmulateCapabilities` marker installed, and the policy counted as changed |
| Input.KeyboardPlugin.SetPolicy | src/input.rs:345 | a policy write is seen as a change |
| Input.KeyboardPlugin.DetectCapabilities | src/input.rs:339-359 | a change clears detection and inserts the marker; otherwise the marker goes when nothing is left to emulate; then the events are ORed in |
| Input.KeyboardPlugin.EmulateReleaseKeys | src/input.rs:362-397 | the system, as ReleaseKeysSend says |
| Input.KeyboardPlugin.EmulateReleaseModifiers | src/input.rs:399-423 | the system, as ReleaseModifiersSend says |
| Input.KeyboardPlugin.SendModifierKeys | src/input.rs:474-491 | one event per changed bit, then the mask is stored |
| Input.KeyboardPlugin.EmitKeyEvent | src/input.rs:443-455 | the loop body computes KeyEventsEvent |
| Input.KeyEventsStep | src/input.rs:441-456 | the first i + 1 events of a frame send what the first i did, then the next mappable event's keys |
| Input.KeyboardPlugin.EmitKeyEvents | src/input.rs:441-456 | the loop over the frame's events leaves the buffers and emits exactly as KeyEventsAll says |
| Input.KeyboardPlugin.EmulateKeyEvents | src/input.rs:425-472 | the system, as KeyEventsSend says |
| Input.KeyboardPlugin.Update | src/input.rs:134-147 | one PreUpdate pass, as InputStep says |
| Input.InputDetection | src/input.rs:345-358 | a change clears detection and restores the marker; otherwise bits only accumulate, and the marker, once gone, stays gone |
| Input.ReleaseKeysEffect | src/input.rs:362-397 | nothing happens without release emulation, or on an idle frame before the timer finishes; otherwise the current set drains, less the keys seen again |
| Input.ModifierFlush | src/input.rs:410-422 | on a finished timer, one Released event per held bit and nothing else; the mask is cleared |
| Input.InertStaysInert | src/input.rs:362-423 | with the timer never reset and the buffer never swapped, both release systems stay silent forever |
| Input.FreshPluginIsInert | src/input.rs:129-133 | the plugin as built is in that inert state |
| Input.KeyFrameWithoutModifiers | src/input.rs:425-472 | a key frame forwards the translation, then drains the previous frame's keys, which are replaced by this frame's keys |
| InputScenarios.PressAfterPress | src/input.rs:441-471 | a press of y is sent before the release of the x held from the last tick |
| InputScenarios.HeldKeyIsReleased | src/input.rs:441-471 | a key pressed in two consecutive ticks is pressed again and then released, which is not strict and leaves it up |

## Left out

- Key codes outside the modelled subset are left out:
  - arrows, Home, End, PageUp, PageDown, Delete and Insert;
  - CapsLock, ScrollLock, NumLock, PrintScreen, Pause and Menu;
  - the media keys.

  The first two groups map one-to-one in both tables. The media keys do not, and their
  rows are not modelled:
  - `Reverse` maps to nothing in both tables (src/input_forwarding/keyboard.rs:807, :911);
  - `Record` has no key code (:813) but does have a logical key (:917), so
    `key_event_to_bevy` drops it;
  - `FastForward` and `Rewind` share their key codes with `TrackNext` and `TrackPrevious`
    (:809-810) but have logical keys of their own (:913-914).

  The BackTab row of `src/bevy_compat/keyboard.rs` is the modelled instance of a dropped key.
- Bevy's separate `ButtonInput<KeyCode>` and `ButtonInput<Key>` are not modelled. Strict,
  Apply and the strictness theorems (`FrameIsStrict`, `CompatFrameIsStrict`, `RunIsStrict`
  and the lemmas under them) are about a consumer keyed on the pair of key code and logical
  key. Two inputs of one frame that share a key code but differ in logical key, such as
  'a' and 'A' (both KeyA), or FastForward and TrackNext (both MediaTrackNext), are
  distinct pairs. Those frames are covered, yet they press the same `KeyCode` twice.
- The window `Entity` in every `KeyboardInput` is left out: it is the same dummy entity for
  all events.
- Bevy's event buffering and each system's `EventReader` cursor are left out. Every system
  reads the whole tick's events as one sequence.
- Bevy scheduling is left out. InputSet order and command application points are assumed,
  not modelled.
- KeyModifiers bits other than the six named ones are left out. `crossterm_modifier_to_bevy_key`
  and `modifier_to_bevy` panic on them, and the model has no such values.
- `HashSet` iteration order is not modelled. A drain is stated as "each entry reciprocated
  exactly once", in some order.
- Replacing the `ReleaseKey` or `KeyReleaseMode` resource at run time is not modelled.
  The scheduler is a constructor argument.
- In `input.rs` the `KeyReleaseMode` resource is not modelled as a resource: no system
  reads it. Only the mode inside `KeyReleaseTimer` is modelled.
- PressesOnly and DistinctKeys, on the strictness theorems: strictness is claimed only for
  frames of distinct presses, because repeats and repeated keys break it, as the scenarios
  show.
- `send_key_events_no_emulation` of `src/bevy_compat/keyboard.rs` is left out. It is
  marked dead code and never registered.
- `setup_window` and the plugin registration of `InputPlugin` and `TimePlugin` are left out
  (no state of the engine).
- Bevy's `Timer` is modelled only in its one-shot mode, with nanosecond `nat` durations;
  `Duration` overflow is not modelled.
