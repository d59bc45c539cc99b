/** The split keyboard plugin of src/input.rs: detection in a system of its own, which resets
    the detected set when the policy changes; a masked policy; and three emulating systems, each
    with its own `Local` state, two of them sharing a `KeyReleaseTimer` resource. */
module Input {
  import opened Options
  import Crossterm
  import opened Bevy
  import opened Translate
  import opened Capabilities
  import opened BevyTime
  import opened Emulation
  import InputForwarding

  // ---------------------------------------------------------------------------------------
  // The release timer

  /** `KeyReleaseMode`. */
  datatype KeyReleaseMode = Duration(duration: nat) | FrameCount(count: nat) | Immediate | OnNextKey
  {
    /** `FrameCount` holds a `u32`. */
    predicate Valid() {
      FrameCount? ==> count <= InputForwarding.U32Max
    }
  }

  /** `KeyReleaseMode::default()`: one second. */
  const DefaultMode: KeyReleaseMode := Duration(OneSecond)

  /** The fields of a `KeyReleaseTimer`. */
  datatype TimerFields = TimerFields(mode: KeyReleaseMode, timer: Option<Timer>, frameCount: nat, finished: bool)
  {
    predicate Valid() {
      mode.Valid() && frameCount <= InputForwarding.U32Max
      && (timer.Some? ==> mode.Duration? && timer.value.duration == mode.duration && timer.value.Valid())
    }
  }

  /** `KeyReleaseTimer::default()`: the default mode, no timer, nothing counted or finished. */
  const DefaultTimer: TimerFields := TimerFields(DefaultMode, None, 0, false)

  /** `KeyReleaseTimer::tick`. */
  function TickFields(f: TimerFields, delta: nat): (r: TimerFields)
    requires f.Valid()
    ensures r.Valid() && r.mode == f.mode
    ensures f.mode.Duration? ==> (r.frameCount == f.frameCount
      && (f.timer.None? ==> r == f)
      && (f.timer.Some? ==> r.timer == Some(f.timer.value.Tick(delta))
                            && (r.finished <==> f.timer.value.elapsed + delta >= f.mode.duration)))
    ensures f.mode.FrameCount? ==> (r.timer == f.timer
      && r.frameCount == InputForwarding.SaturatingInc(f.frameCount)
      && (r.finished <==> r.frameCount >= f.mode.count))
    ensures f.mode.Immediate? ==> r == f.(finished := true)
    ensures f.mode.OnNextKey? ==> r == f.(finished := false)
  {
    match f.mode
    case Duration(_) =>
      if f.timer.Some? then
        var t := f.timer.value.Tick(delta);
        f.(timer := Some(t), finished := t.Finished())
      else f
    case FrameCount(n) =>
      var c := InputForwarding.SaturatingInc(f.frameCount);
      f.(frameCount := c, finished := c >= n)
    case Immediate => f.(finished := true)
    case OnNextKey => f.(finished := false)
  }

  /** `KeyReleaseTimer::reset`: never finished afterwards. */
  function ResetFields(f: TimerFields): (r: TimerFields)
    requires f.Valid()
    ensures r.Valid() && r.mode == f.mode && !r.finished
    ensures f.mode.Duration? ==> r.timer == Some(NewTimer(f.mode.duration)) && r.frameCount == f.frameCount
    ensures f.mode.FrameCount? ==> r.frameCount == 0 && r.timer == f.timer
    ensures f.mode.Immediate? || f.mode.OnNextKey? ==> r == f.(finished := false)
  {
    match f.mode
    case Duration(d) => f.(timer := Some(NewTimer(d)), finished := false)
    case FrameCount(_) => f.(frameCount := 0, finished := false)
    case Immediate => f.(finished := false)
    case OnNextKey => f.(finished := false)
  }

  function TickRun(f: TimerFields, deltas: seq<nat>): TimerFields
    requires f.Valid()
    decreases |deltas|
  {
    if deltas == [] then f else TickRun(TickFields(f, deltas[0]), deltas[1..])
  }

  /** A timer in `Duration` mode that has never been reset has no Bevy timer to tick, so no run
      of ticks changes it and it never finishes. */
  lemma {:induction false} UnresetDurationNeverFinishes(f: TimerFields, deltas: seq<nat>)
    requires f.Valid() && f.mode.Duration? && f.timer.None? && !f.finished
    ensures TickRun(f, deltas) == f && !TickRun(f, deltas).finished
    decreases |deltas|
  {
    if deltas != [] {
      UnresetDurationNeverFinishes(TickFields(f, deltas[0]), deltas[1..]);
    }
  }

  lemma {:induction false} FrameCountRun(f: TimerFields, deltas: seq<nat>)
    requires f.Valid() && f.mode.FrameCount?
    ensures TickRun(f, deltas).mode == f.mode
    ensures TickRun(f, deltas).frameCount == Min(f.frameCount + |deltas|, InputForwarding.U32Max)
    ensures deltas != [] ==> (TickRun(f, deltas).finished <==> TickRun(f, deltas).frameCount >= f.mode.count)
    ensures deltas == [] ==> TickRun(f, deltas) == f
    decreases |deltas|
  {
    if deltas != [] {
      FrameCountRun(TickFields(f, deltas[0]), deltas[1..]);
    }
  }

  /** After a reset, `FrameCount(n)` is finished from the `n`-th tick on. */
  lemma FrameCountFinishesAfterReset(f: TimerFields, deltas: seq<nat>)
    requires f.Valid() && f.mode.FrameCount?
    ensures TickRun(ResetFields(f), deltas).finished <==> deltas != [] && |deltas| >= f.mode.count
  {
    FrameCountRun(ResetFields(f), deltas);
  }

  lemma {:induction false} DurationRun(f: TimerFields, deltas: seq<nat>)
    requires f.Valid() && f.mode.Duration? && f.timer.Some?
    ensures TickRun(f, deltas).timer == Some(TickAll(f.timer.value, deltas))
    ensures deltas != [] ==> TickRun(f, deltas).finished == TickAll(f.timer.value, deltas).Finished()
    ensures deltas == [] ==> TickRun(f, deltas) == f
    decreases |deltas|
  {
    if deltas != [] {
      DurationRun(TickFields(f, deltas[0]), deltas[1..]);
    }
  }

  /** After a reset, `Duration(d)` is finished once the frame times reach `d`. */
  lemma DurationFinishesAfterReset(f: TimerFields, deltas: seq<nat>)
    requires f.Valid() && f.mode.Duration?
    ensures TickRun(ResetFields(f), deltas).finished <==> deltas != [] && Sum(deltas) >= f.mode.duration
  {
    DurationRun(ResetFields(f), deltas);
    TickAllElapsed(NewTimer(f.mode.duration), deltas);
  }

  /** `Immediate` is finished after any tick and `OnNextKey` after none. */
  lemma ImmediateAndOnNextKey(f: TimerFields, delta: nat)
    requires f.Valid()
    ensures f.mode.Immediate? ==> TickFields(f, delta).finished
    ensures f.mode.OnNextKey? ==> !TickFields(f, delta).finished
  {
  }

  class KeyReleaseTimer {
    var mode: KeyReleaseMode
    var timer: Option<Timer>
    var frameCount: nat
    var finished: bool

    function Fields(): TimerFields
      reads this
    {
      TimerFields(mode, timer, frameCount, finished)
    }

    /** `KeyReleaseTimer::default()`. */
    constructor ()
      ensures Fields() == DefaultTimer
    {
      mode := DefaultMode;
      timer := None;
      frameCount := 0;
      finished := false;
    }

    method Tick(delta: nat)
      requires Fields().Valid()
      modifies this
      ensures Fields() == TickFields(old(Fields()), delta)
    {
      match mode {
        case Duration(_) =>
          if timer.Some? {
            var t := timer.value.Tick(delta);
            timer := Some(t);
            finished := t.Finished();
          }
        case FrameCount(n) =>
          frameCount := InputForwarding.SaturatingInc(frameCount);
          finished := frameCount >= n;
        case Immediate =>
          finished := true;
        case OnNextKey =>
          finished := false;
      }
    }

    method Reset()
      requires Fields().Valid()
      modifies this
      ensures Fields() == ResetFields(old(Fields()))
    {
      match mode {
        case Duration(d) =>
          timer := Some(NewTimer(d));
        case FrameCount(_) =>
          frameCount := 0;
        case Immediate =>
        case OnNextKey =>
      }
      finished := false;
    }
  }

  // ---------------------------------------------------------------------------------------
  // The event loops

  /** `emulate_release_keys` on one key: a held key leaves the current-frame set, and every key
      goes into the next-frame set. */
  function ReleaseKeysEvent(current: set<KeyboardInput>, next: set<KeyboardInput>,
                            k: KeyboardInput): (r: (set<KeyboardInput>, set<KeyboardInput>))
    ensures r.0 == current - {k} && r.1 == next + {k}
  {
    if k in current then (current - {k}, next + {k}) else (current, next + {k})
  }

  function ReleaseKeysAll(current: set<KeyboardInput>, next: set<KeyboardInput>,
                          events: seq<Crossterm.KeyEvent>): (set<KeyboardInput>, set<KeyboardInput>)
    decreases |events|
  {
    if events == [] then (current, next)
    else
      var (c, n) := ReleaseKeysAll(current, next, events[..|events| - 1]);
      match KeyEventToBevy(events[|events| - 1])
      case None => (c, n)
      case Some(t) => ReleaseKeysEvent(c, n, t.input)
  }

  /** Over a tick, the keys seen leave the current-frame set and join the next-frame set. */
  lemma {:induction false} ReleaseKeysAllMoves(current: set<KeyboardInput>, next: set<KeyboardInput>,
                                               events: seq<Crossterm.KeyEvent>)
    ensures ReleaseKeysAll(current, next, events) == (current - InputsOf(events), next + InputsOf(events))
    decreases |events|
  {
    if events == [] {
      assert InputsOf(events) == {};
      assert current - {} == current && next + {} == next;
    } else {
      var init := events[..|events| - 1];
      InputsOfSnoc(events);
      ReleaseKeysAllMoves(current, next, init);
      match KeyEventToBevy(events[|events| - 1]) {
        case None =>
          assert InputsOf(events) == InputsOf(init);
        case Some(t) =>
          assert InputsOf(events) == InputsOf(init) + {t.input};
          assert ReleaseKeysAll(current, next, events)
              == ReleaseKeysEvent(current - InputsOf(init), next + InputsOf(init), t.input);
          assert current - InputsOf(init) - {t.input} == current - InputsOf(events);
          assert next + InputsOf(init) + {t.input} == next + InputsOf(events);
      }
    }
  }

  /** `emulate_key_events` on one key: the modifier delta when MODIFIER is emulated, then the
      key itself, always emitted and always queued for the next frame. */
  function KeyEventsEvent(emulation: CapabilitySet, h: Held, t: Translated): (Held, Events) {
    var (mods, modOut) :=
      if Modifier in emulation && t.mods != h.modifiers
      then (t.mods, ModifierDelta(t.mods, h.modifiers)) else (h.modifiers, []);
    // A repeat is inserted twice, which for a set is once.
    var next := if t.repeated then h.next + {t.input} else h.next;
    (Held(mods, h.current, next + {t.input}), modOut + [t.input])
  }

  function KeyEventsAll(emulation: CapabilitySet, h: Held, events: seq<Crossterm.KeyEvent>): (Held, Events)
    decreases |events|
  {
    if events == [] then (h, [])
    else
      var (h1, out1) := KeyEventsAll(emulation, h, events[..|events| - 1]);
      match KeyEventToBevy(events[|events| - 1])
      case None => (h1, out1)
      case Some(t) =>
        var (h2, out2) := KeyEventsEvent(emulation, h1, t);
        (h2, out1 + out2)
  }

  /** The first `i + 1` events of a frame send what the first `i` did, then the next mappable
      event's keys. */
  lemma KeyEventsStep(emulation: CapabilitySet, h: Held, events: seq<Crossterm.KeyEvent>, i: nat)
    requires i < |events|
    ensures KeyEventsAll(emulation, h, events[..i + 1])
            == var r := KeyEventsAll(emulation, h, events[..i]);
               if KeyEventToBevy(events[i]).Some?
               then var r2 := KeyEventsEvent(emulation, r.0, KeyEventToBevy(events[i]).value);
                    (r2.0, r.1 + r2.1)
               else r
  {
    assert events[..i + 1][..i] == events[..i];
  }

  /** One key with MODIFIER emulated: first one event per changed modifier bit, then the key;
      the mask becomes the key's modifiers. */
  lemma KeyEventWithModifiers(emulation: CapabilitySet, h: Held, t: Translated)
    requires Modifier in emulation
    ensures var (h', out) := KeyEventsEvent(emulation, h, t);
      && out == ModifierDelta(t.mods, h.modifiers) + [t.input]
      && h' == Held(t.mods, h.current, h.next + {t.input})
  {
    if t.mods == h.modifiers {
      ModifierDeltaSame(h.modifiers);
    }
  }

  lemma KeyEventWithoutModifiers(emulation: CapabilitySet, h: Held, t: Translated)
    requires Modifier !in emulation
    ensures KeyEventsEvent(emulation, h, t) == (Held(h.modifiers, h.current, h.next + {t.input}), [t.input])
  {
    assert [] + [t.input] == [t.input];
    assert h.next + {t.input} + {t.input} == h.next + {t.input};
  }

  /** Without modifier emulation the event loop emits exactly the pass-through translation,
      every key once and in order, and queues every key for the next frame. */
  lemma {:induction false} KeyEventsWithoutModifiers(emulation: CapabilitySet, h: Held,
                                                     events: seq<Crossterm.KeyEvent>)
    requires Modifier !in emulation
    ensures KeyEventsAll(emulation, h, events) == (Held(h.modifiers, h.current, h.next + InputsOf(events)),
                                                   Forwarded(events))
    decreases |events|
  {
    if events == [] {
      assert InputsOf(events) == {};
      assert h.next + {} == h.next;
      assert h == Held(h.modifiers, h.current, h.next);
      assert Forwarded(events) == [];
    } else {
      var init := events[..|events| - 1];
      var ev := events[|events| - 1];
      InputsOfSnoc(events);
      KeyEventsWithoutModifiers(emulation, h, init);
      var h1 := Held(h.modifiers, h.current, h.next + InputsOf(init));
      assert KeyEventsAll(emulation, h, init) == (h1, Forwarded(init));
      match KeyEventToBevy(ev) {
        case None =>
          assert InputOf(ev).None?;
          assert Forwarded(events) == Forwarded(init) + [] == Forwarded(init);
          assert InputsOf(events) == InputsOf(init);
          assert KeyEventsAll(emulation, h, events) == (h1, Forwarded(init));
        case Some(t) =>
          assert InputOf(ev) == Some(t.input);
          assert Forwarded(events) == Forwarded(init) + [t.input];
          assert InputsOf(events) == InputsOf(init) + {t.input};
          KeyEventWithoutModifiers(emulation, h1, t);
          assert h.next + InputsOf(init) + {t.input} == h.next + InputsOf(events);
      }
    }
  }

  // ---------------------------------------------------------------------------------------
  // The systems of one frame

  /** `emulate_release_keys`: nothing unless KEY_RELEASE is emulated; otherwise tick the timer,
      and unless the frame is idle move the keys seen and drain the current-frame set. Its
      buffer is never swapped. */
  ghost predicate ReleaseKeysSend(emulation: CapabilitySet, timer: TimerFields,
                                  current: set<KeyboardInput>, next: set<KeyboardInput>,
                                  events: seq<Crossterm.KeyEvent>, delta: nat, timer': TimerFields,
                                  current': set<KeyboardInput>, next': set<KeyboardInput>, out: Events)
    requires timer.Valid()
  {
    if KeyRelease !in emulation then
      timer' == timer && current' == current && next' == next && out == []
    else
      var ticked := TickFields(timer, delta);
      timer' == ticked
      && if !ticked.finished && events == [] then
           current' == current && next' == next && out == []
         else
           var (c, n) := ReleaseKeysAll(current, next, events);
           DrainOf(out, c) && current' == {} && next' == n
  }

  /** `emulate_release_modifiers`, after `emulate_release_keys`: with MODIFIER emulated and the
      shared timer finished, release every bit of its own mask and clear it. */
  ghost predicate ReleaseModifiersSend(emulation: CapabilitySet, finished: bool, mask: Mods,
                                       mask': Mods, out: Events)
  {
    if Modifier in emulation && finished then out == ModifierDelta({}, mask) && mask' == {}
    else out == [] && mask' == mask
  }

  /** `emulate_key_events`: nothing on a frame without events; otherwise the event loop, then
      drain the current-frame set, swap, and reset its own timer. */
  ghost predicate KeyEventsSend(emulation: CapabilitySet, timer: TimerFields, h: Held,
                                events: seq<Crossterm.KeyEvent>, timer': TimerFields, h': Held, out: Events)
    requires timer.Valid()
  {
    if events == [] then timer' == timer && h' == h && out == []
    else
      var (mid, evOut) := KeyEventsAll(emulation, h, events);
      && timer' == ResetFields(timer)
      && |evOut| <= |out| && out[..|evOut|] == evOut
      && EndOfTick(mid, false, h', out[|evOut|..])
  }

  /** Everything the plugin keeps between frames: the resources, then each system's locals. */
  datatype InputState = InputState(
    policy: EmulationPolicy,
    policyChanged: bool,
    detected: CapabilitySet,
    emulate: bool,
    releaseTimer: TimerFields,
    releaseCurrent: set<KeyboardInput>,
    releaseNext: set<KeyboardInput>,
    releaseMask: Mods,
    keys: Held,
    keyTimer: TimerFields,
    repeatQueue: Events)

  ghost predicate StateValid(s: InputState) {
    s.releaseTimer.Valid() && s.keyTimer.Valid()
  }

  /** One `PreUpdate` pass: `detect_capabilities`, then the emitting systems. Each system's
      output is given separately: Bevy fixes no order between the release chain and the key
      system. */
  ghost predicate InputStep(s: InputState, events: seq<Crossterm.KeyEvent>, delta: nat, s': InputState,
                            releaseOut: Events, modifierOut: Events, keyOut: Events)
    requires StateValid(s)
  {
    var marker := s.policyChanged || (s.emulate && EmulateMasked(s.policy, s.detected) != {});
    var detected := (if s.policyChanged then {} else s.detected) + DetectedIn(events);
    var emulation := EmulateMasked(s.policy, detected);
    && s'.policy == s.policy && !s'.policyChanged && s'.detected == detected && s'.emulate == marker
    && s'.releaseTimer.Valid()
    && ReleaseKeysSend(emulation, s.releaseTimer, s.releaseCurrent, s.releaseNext, events, delta,
                       s'.releaseTimer, s'.releaseCurrent, s'.releaseNext, releaseOut)
    && ReleaseModifiersSend(emulation, s'.releaseTimer.finished, s.releaseMask, s'.releaseMask, modifierOut)
    && if marker then
         KeyEventsSend(emulation, s.keyTimer, s.keys, events, s'.keyTimer, s'.keys, keyOut)
         && s'.repeatQueue == s.repeatQueue
       else
         s'.keyTimer == s.keyTimer && s'.keys == s.keys
         && keyOut == s.repeatQueue + Forwarded(events) && s'.repeatQueue == RepeatPresses(events)
  }

  class KeyboardPlugin {
    var policy: EmulationPolicy
    /** Bevy's change detection on the policy resource. */
    var policyChanged: bool
    var detected: CapabilitySet
    /** Whether the `EmulateCapabilities` marker resource exists. */
    var emulate: bool
    /** The `KeyReleaseTimer` resource. */
    const releaseTimer: KeyReleaseTimer
    /** `emulate_release_keys`'s `Local<LastPressedKeys>`. */
    const releaseKeys: LastPress
    /** `emulate_release_modifiers`'s `Local<Modifiers>`. */
    var releaseMask: Mods
    /** `emulate_key_events`'s `Local<Modifiers>` and `Local<LastPressedKeys>`. */
    const keyLocals: Reconciler
    /** `emulate_key_events`'s `Local<KeyReleaseTimer>`. */
    const keyTimer: KeyReleaseTimer
    /** `send_key_events_no_emulation`'s repeat queue. */
    const passThrough: PassThrough

    ghost predicate Valid()
      reads this, releaseTimer, keyTimer, keyLocals
    {
      releaseTimer != keyTimer && releaseKeys != keyLocals.pressed
      && releaseTimer.Fields().Valid() && keyTimer.Fields().Valid()
    }

    function State(): InputState
      reads this, releaseTimer, releaseKeys, keyLocals, keyLocals.pressed, keyTimer, passThrough
    {
      InputState(policy, policyChanged, detected, emulate, releaseTimer.Fields(),
                 releaseKeys.current, releaseKeys.next, releaseMask, keyLocals.Snapshot(),
                 keyTimer.Fields(), passThrough.repeatQueue)
    }

    /** The plugin as `build` installs it: every resource and local at its default, and the
        `EmulateCapabilities` marker present. */
    constructor (policy: EmulationPolicy)
      ensures Valid()
      ensures fresh(releaseTimer) && fresh(releaseKeys) && fresh(keyLocals) && fresh(keyLocals.pressed)
              && fresh(keyTimer) && fresh(passThrough)
      ensures State() == InputState(policy, true, {}, true, DefaultTimer, {}, {}, {},
                                    Held({}, {}, {}), DefaultTimer, [])
    {
      this.policy := policy;
      policyChanged := true;
      detected := {};
      emulate := true;
      releaseTimer := new KeyReleaseTimer();
      releaseKeys := new LastPress();
      releaseMask := {};
      keyLocals := new Reconciler();
      keyTimer := new KeyReleaseTimer();
      passThrough := new PassThrough();
    }

    /** A write to the policy resource. */
    method SetPolicy(p: EmulationPolicy)
      modifies this
      ensures policy == p && policyChanged
      ensures detected == old(detected) && emulate == old(emulate) && releaseMask == old(releaseMask)
    {
      policy := p;
      policyChanged := true;
    }

    /** `detect_capabilities`: a changed policy clears the detected set and brings the marker
        back; otherwise the marker goes when nothing needs emulating. Then the events' bits are
        ORed in. */
    method DetectCapabilities(events: seq<Crossterm.KeyEvent>)
      modifies this
      ensures emulate == (old(policyChanged) || (old(emulate) && EmulateMasked(policy, old(detected)) != {}))
      ensures detected == (if old(policyChanged) then {} else old(detected)) + DetectedIn(events)
      ensures policy == old(policy) && !policyChanged && releaseMask == old(releaseMask)
    {
      if policyChanged {
        emulate := true;
        detected := {};
      } else if EmulateMasked(policy, detected) == {} {
        emulate := false;
      }
      policyChanged := false;
      var d := detected;
      var i := 0;
      ghost var d0 := detected;
      while i < |events|
        invariant 0 <= i <= |events|
        invariant d == d0 + DetectedIn(events[..i])
      {
        assert events[..i + 1][..i] == events[..i];
        if events[i].code.Modifier? {
          d := d + {Modifier};
        }
        if events[i].kind.Release? {
          d := d + {KeyRelease};
        }
        i := i + 1;
      }
      assert events[..i] == events;
      detected := d;
    }

    method EmulateReleaseKeys(events: seq<Crossterm.KeyEvent>, delta: nat) returns (out: Events)
      requires Valid()
      modifies releaseTimer, releaseKeys
      ensures Valid() && releaseTimer.Fields().Valid()
      ensures ReleaseKeysSend(EmulateMasked(policy, detected), old(releaseTimer.Fields()),
                              old(releaseKeys.current), old(releaseKeys.next), events, delta,
                              releaseTimer.Fields(), releaseKeys.current, releaseKeys.next, out)
    {
      var emulation := EmulateMasked(policy, detected);
      if KeyRelease !in emulation {
        return [];
      }
      releaseTimer.Tick(delta);
      if !releaseTimer.finished && |events| == 0 {
        return [];
      }
      ghost var c0, n0 := releaseKeys.current, releaseKeys.next;
      var i := 0;
      while i < |events|
        invariant 0 <= i <= |events|
        invariant (releaseKeys.current, releaseKeys.next) == ReleaseKeysAll(c0, n0, events[..i])
        modifies releaseKeys
      {
        assert events[..i + 1][..i] == events[..i];
        match KeyEventToBevy(events[i]) {
          case Some(t) =>
            if t.input in releaseKeys.current {
              // Held down: do not release it.
              releaseKeys.current := releaseKeys.current - {t.input};
            }
            releaseKeys.next := releaseKeys.next + {t.input};
          case None =>
        }
        i := i + 1;
      }
      assert events[..i] == events;
      out := releaseKeys.DrainReciprocal();
    }

    method EmulateReleaseModifiers() returns (out: Events)
      modifies this
      ensures ReleaseModifiersSend(EmulateMasked(policy, detected), releaseTimer.finished,
                                   old(releaseMask), releaseMask, out)
      ensures policy == old(policy) && detected == old(detected) && emulate == old(emulate)
              && policyChanged == old(policyChanged)
    {
      var emulation := EmulateMasked(policy, detected);
      if Modifier !in emulation || !releaseTimer.finished {
        return [];
      }
      out := EmitModifierDelta({}, releaseMask);
      releaseMask := {};
    }

    /** `send_modifier_keys`: one event per changed bit, then store the new mask. */
    method SendModifierKeys(newMods: Mods) returns (out: Events)
      modifies keyLocals
      ensures out == ModifierDelta(newMods, old(keyLocals.modifiers)) && keyLocals.modifiers == newMods
    {
      out := EmitModifierDelta(newMods, keyLocals.modifiers);
      keyLocals.modifiers := newMods;
    }

    /** The body of `emulate_key_events`' loop for one translated key. */
    method EmitKeyEvent(emulation: CapabilitySet, t: Translated) returns (out: Events)
      modifies keyLocals, keyLocals.pressed
      ensures (keyLocals.Snapshot(), out) == KeyEventsEvent(emulation, old(keyLocals.Snapshot()), t)
    {
      out := [];
      if Modifier in emulation && t.mods != keyLocals.modifiers {
        out := SendModifierKeys(t.mods);
      }
      if t.repeated {
        keyLocals.pressed.next := keyLocals.pressed.next + {t.input};
      }
      keyLocals.pressed.next := keyLocals.pressed.next + {t.input};
      out := out + [t.input];
    }

    /** `emulate_key_events`' loop over the frame's events: the mappable ones go through
        `EmitKeyEvent` in arrival order. */
    method EmitKeyEvents(emulation: CapabilitySet, events: seq<Crossterm.KeyEvent>) returns (out: Events)
      modifies keyLocals, keyLocals.pressed
      ensures (keyLocals.Snapshot(), out) == KeyEventsAll(emulation, old(keyLocals.Snapshot()), events)
    {
      ghost var h0 := keyLocals.Snapshot();
      out := [];
      for i := 0 to |events|
        invariant (keyLocals.Snapshot(), out) == KeyEventsAll(emulation, h0, events[..i])
      {
        KeyEventsStep(emulation, h0, events, i);
        var t := KeyEventToBevy(events[i]);
        if t.Some? {
          var o := EmitKeyEvent(emulation, t.value);
          out := out + o;
        }
      }
      assert events[..|events|] == events;
    }

    method EmulateKeyEvents(events: seq<Crossterm.KeyEvent>) returns (out: Events)
      requires Valid()
      modifies keyLocals, keyLocals.pressed, keyTimer
      ensures Valid()
      ensures KeyEventsSend(EmulateMasked(policy, detected), old(keyTimer.Fields()), old(keyLocals.Snapshot()),
                            events, keyTimer.Fields(), keyLocals.Snapshot(), out)
    {
      if |events| == 0 {
        return [];
      }
      var emulation := EmulateMasked(policy, detected);
      out := EmitKeyEvents(emulation, events);
      ghost var evOut := out;
      var tail := keyLocals.FinishTick(false);
      out := out + tail;
      assert out[..|evOut|] == evOut && out[|evOut|..] == tail;
      keyTimer.Reset();
    }

    /** One frame of `PreUpdate`: detection, then the release chain, then whichever of the key
        systems the marker selects. */
    method Update(events: seq<Crossterm.KeyEvent>, delta: nat)
      returns (releaseOut: Events, modifierOut: Events, keyOut: Events)
      requires Valid()
      modifies this, releaseTimer, releaseKeys, keyLocals, keyLocals.pressed, keyTimer, passThrough
      ensures Valid() && StateValid(old(State()))
      ensures InputStep(old(State()), events, delta, State(), releaseOut, modifierOut, keyOut)
    {
      DetectCapabilities(events);
      releaseOut := EmulateReleaseKeys(events, delta);
      modifierOut := EmulateReleaseModifiers();
      if emulate {
        keyOut := EmulateKeyEvents(events);
      } else {
        keyOut := passThrough.Send(events);
      }
    }
  }

  // ---------------------------------------------------------------------------------------
  // Properties of a frame

  /** A policy change clears the detected set and brings the marker back; otherwise detection
      only adds bits, and the marker goes when nothing was left to emulate. */
  lemma InputDetection(s: InputState, events: seq<Crossterm.KeyEvent>, delta: nat, s': InputState,
                       releaseOut: Events, modifierOut: Events, keyOut: Events)
    requires StateValid(s)
    requires InputStep(s, events, delta, s', releaseOut, modifierOut, keyOut)
    ensures s.policyChanged ==> s'.detected == DetectedIn(events) && s'.emulate
    ensures !s.policyChanged ==> s'.detected == s.detected + DetectedIn(events)
    ensures !s.policyChanged && EmulateMasked(s.policy, s.detected) == {} ==> !s'.emulate
    ensures !s.policyChanged && !s.emulate ==> !s'.emulate
  {
  }

  /** `emulate_release_keys` emits nothing unless KEY_RELEASE is emulated, and nothing on an
      idle frame whose timer has not finished; when it runs, the keys seen move to the
      next-frame set and every other current-frame entry emits its reciprocal once. */
  lemma ReleaseKeysEffect(emulation: CapabilitySet, timer: TimerFields,
                          current: set<KeyboardInput>, next: set<KeyboardInput>,
                          events: seq<Crossterm.KeyEvent>, delta: nat, timer': TimerFields,
                          current': set<KeyboardInput>, next': set<KeyboardInput>, out: Events)
    requires timer.Valid()
    requires ReleaseKeysSend(emulation, timer, current, next, events, delta, timer', current', next', out)
    ensures KeyRelease !in emulation ==> out == [] && timer' == timer
    ensures KeyRelease in emulation && events == [] && !TickFields(timer, delta).finished ==> out == []
    ensures KeyRelease in emulation && (events != [] || TickFields(timer, delta).finished) ==>
      current' == {} && next' == next + InputsOf(events) && DrainOf(out, current - InputsOf(events))
  {
    ReleaseKeysAllMoves(current, next, events);
  }

  /** With MODIFIER emulated and the timer finished, one Released event per held bit and no
      other event; the mask ends empty. */
  lemma ModifierFlush(emulation: CapabilitySet, finished: bool, mask: Mods, mask': Mods, out: Events)
    requires ReleaseModifiersSend(emulation, finished, mask, mask', out)
    requires Modifier in emulation && finished
    ensures mask' == {} && Distinct(out)
    ensures forall i :: 0 <= i < |out| ==> out[i].state == Released
    ensures forall m :: ModifierEvent(m, Released) in out <==> m in mask
  {
    ModifierDeltaExact({}, mask);
    forall i | 0 <= i < |out| ensures out[i].state == Released {
      var k := KeyModifierOf(out[i].logicalKey);
      assert out[i] == ModifierEvent(k, out[i].state);
      assert ModifierEvent(k, Pressed) !in out;
    }
  }

  /** The state as `build` leaves it, for the two locals and the resource timer that the
      source never brings into play: the resource timer has no Bevy timer and is never reset,
      `emulate_release_keys`' current-frame set is empty and never refilled (its buffer is never
      swapped), and `emulate_release_modifiers`' mask is empty and never written. */
  ghost predicate Inert(s: InputState) {
    s.releaseTimer == DefaultTimer && s.releaseCurrent == {} && s.releaseMask == {}
  }

  /** So those two systems never emit anything, and only the key system's output reaches Bevy,
      whichever order Bevy runs the systems in. */
  lemma InertStaysInert(s: InputState, events: seq<Crossterm.KeyEvent>, delta: nat, s': InputState,
                        releaseOut: Events, modifierOut: Events, keyOut: Events)
    requires StateValid(s) && Inert(s)
    requires InputStep(s, events, delta, s', releaseOut, modifierOut, keyOut)
    ensures Inert(s') && releaseOut == [] && modifierOut == []
  {
    var detected := (if s.policyChanged then {} else s.detected) + DetectedIn(events);
    var emulation := EmulateMasked(s.policy, detected);
    UnresetDurationNeverFinishes(DefaultTimer, [delta]);
    assert TickFields(DefaultTimer, delta) == DefaultTimer;
    if KeyRelease in emulation && (events != [] || TickFields(s.releaseTimer, delta).finished) {
      ReleaseKeysAllMoves(s.releaseCurrent, s.releaseNext, events);
      DrainOfSmall(releaseOut, KeyboardInput(KeyCode.Tab, Key.Tab, Pressed));
    }
  }

  /** A plugin as built is inert. */
  lemma FreshPluginIsInert(policy: EmulationPolicy)
    ensures Inert(InputState(policy, true, {}, true, DefaultTimer, {}, {}, {}, Held({}, {}, {}), DefaultTimer, []))
  {
  }

  /** Without modifier emulation, a frame of the key system emits every key of the frame once,
      in order, then the reciprocal of every key of the frame before, and moves the frame's keys
      into the current-frame set. */
  lemma KeyFrameWithoutModifiers(emulation: CapabilitySet, timer: TimerFields, h: Held,
                                 events: seq<Crossterm.KeyEvent>, timer': TimerFields, h': Held, out: Events)
    requires timer.Valid() && Modifier !in emulation && events != [] && h.next == {}
    requires KeyEventsSend(emulation, timer, h, events, timer', h', out)
    ensures |Forwarded(events)| <= |out| && out[..|Forwarded(events)|] == Forwarded(events)
    ensures DrainOf(out[|Forwarded(events)|..], h.current)
    ensures h' == Held(h.modifiers, InputsOf(events), {})
  {
    KeyEventsWithoutModifiers(emulation, h, events);
    assert {} + InputsOf(events) == InputsOf(events);
    var tail := out[|Forwarded(events)|..];
    assert EndOfTick(Held(h.modifiers, h.current, InputsOf(events)), false, h', tail);
    assert tail[..|h.current|] == tail;
  }
}
