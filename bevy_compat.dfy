/** The earliest keyboard plugin, src/bevy_compat/keyboard.rs: a single system that detects
    capabilities inline, event by event, re-reads the emulation policy after every event, and
    uses a bare Bevy `Timer` resource as its release delay. Its translator has no mapping for
    BackTab. */
module BevyCompat {
  import opened Options
  import Crossterm
  import opened Bevy
  import opened Translate
  import opened Capabilities
  import opened BevyTime
  import opened Emulation

  // ---------------------------------------------------------------------------------------
  // Translator

  /** This version's `to_bevy_keycode`: the same rows, except that BackTab is unmapped. */
  function CompatKeyCode(code: Crossterm.KeyCode): Option<(KeyCode, Mods)> {
    if code.BackTab? then None else ToBevyKeyCode(code)
  }

  /** This version's `to_bevy_key`: the same rows, except that BackTab is unmapped. */
  function CompatKey(code: Crossterm.KeyCode): Option<Key> {
    if code.BackTab? then None else ToBevyKey(code)
  }

  /** This version's `key_event_to_bevy`: a repeat is reported as a release and flagged. */
  function CompatKeyEventToBevy(ev: Crossterm.KeyEvent): (r: Option<Translated>)
    ensures r.Some? <==> CompatKeyCode(ev.code).Some? && CompatKey(ev.code).Some?
    ensures r.Some? ==> r.value.input.state == (if ev.kind.Press? then Pressed else Released)
    ensures r.Some? ==> (r.value.repeated <==> ev.kind.Repeat?)
    ensures r.Some? ==> r.value.mods == ev.modifiers + CompatKeyCode(ev.code).value.1
  {
    match (CompatKeyCode(ev.code), CompatKey(ev.code))
    case (Some((keyCode, implied)), Some(logicalKey)) =>
      Some(Translated(KeyboardInput(keyCode, logicalKey, StateOf(ev.kind)),
                      ev.modifiers + implied, ev.kind.Repeat?))
    case _ => None
  }

  /** The two translators agree on every event but BackTab, which this one drops and the
      other maps to SHIFT+Tab. */
  lemma TranslatorsDifferOnBackTab(ev: Crossterm.KeyEvent)
    ensures !ev.code.BackTab? ==> CompatKeyEventToBevy(ev) == KeyEventToBevy(ev)
    ensures ev.code.BackTab? ==> (CompatKeyEventToBevy(ev).None?
      && KeyEventToBevy(ev) == Some(Translated(KeyboardInput(KeyCode.Tab, Key.Tab, StateOf(ev.kind)),
                                               ev.modifiers + {Crossterm.Shift}, ev.kind.Repeat?)))
  {
  }

  // ---------------------------------------------------------------------------------------
  // Inline detection

  /** What one raw event shows: a modifier-only code shows MODIFIER, mappable or not; a
      mappable event reported as released, which includes a repeat, shows KEY_RELEASE. */
  function Shown(ev: Crossterm.KeyEvent): (r: CapabilitySet)
    ensures Modifier in r <==> ev.code.Modifier?
    ensures KeyRelease in r <==> ShowsRelease(ev)
  {
    var released: CapabilitySet :=
      match CompatKeyEventToBevy(ev)
      case Some(t) => if t.input.state == Released then {KeyRelease} else {}
      case None => {};
    (if ev.code.Modifier? then {Modifier} else {}) + released
  }

  /** Everything a run of events shows under inline detection. */
  function DetectedInline(events: seq<Crossterm.KeyEvent>): CapabilitySet
    decreases |events|
  {
    if events == [] then {}
    else DetectedInline(events[..|events| - 1]) + Shown(events[|events| - 1])
  }

  /** A mappable event reported as released, repeats included. */
  predicate ShowsRelease(ev: Crossterm.KeyEvent) {
    CompatKeyEventToBevy(ev).Some? && !ev.kind.Press?
  }

  /** A tick shows MODIFIER exactly when one of its events has a modifier-only code. */
  lemma {:induction false} DetectedModifier(events: seq<Crossterm.KeyEvent>)
    ensures Modifier in DetectedInline(events) <==>
              exists i :: 0 <= i < |events| && events[i].code.Modifier?
    decreases |events|
  {
    if events != [] {
      DetectedModifier(events[..|events| - 1]);
      ExistsSnoc(events, events[..|events| - 1], (ev: Crossterm.KeyEvent) => ev.code.Modifier?);
    }
  }

  /** An element of a non-empty sequence satisfies `p` exactly when one of all but the last
      does, or the last does. */
  lemma ExistsSnoc<T>(s: seq<T>, init: seq<T>, p: T -> bool)
    requires s != [] && init == s[..|s| - 1]
    ensures (exists i :: 0 <= i < |s| && p(s[i])) <==>
            (exists i :: 0 <= i < |init| && p(init[i])) || p(s[|s| - 1])
  {
    if exists i :: 0 <= i < |s| && p(s[i]) {
      var i :| 0 <= i < |s| && p(s[i]);
      if i < |init| {
        assert init[i] == s[i];
      }
    }
    if exists i :: 0 <= i < |init| && p(init[i]) {
      var i :| 0 <= i < |init| && p(init[i]);
      assert s[i] == init[i];
    }
  }

  /** A tick shows KEY_RELEASE exactly when one of its mappable events is not a press. */
  lemma {:induction false} DetectedRelease(events: seq<Crossterm.KeyEvent>)
    ensures KeyRelease in DetectedInline(events) <==>
              exists i :: 0 <= i < |events| && ShowsRelease(events[i])
    decreases |events|
  {
    if events != [] {
      DetectedRelease(events[..|events| - 1]);
      ExistsSnoc(events, events[..|events| - 1], ShowsRelease);
    }
  }

  /** A repeat of a mappable key counts as a release here, though the later versions'
      detection does not count it. */
  lemma RepeatCountsAsRelease(ev: Crossterm.KeyEvent)
    requires ev.kind.Repeat? && CompatKeyEventToBevy(ev).Some?
    ensures KeyRelease in Shown(ev) && KeyRelease !in Witnessed(ev)
  {
  }

  // ---------------------------------------------------------------------------------------
  // The event loop

  /** One raw event: detect, translate (dropping what does not map), decide what to emulate
      from the detection so far, and reconcile. */
  function CompatEvent(policy: EmulationPolicy, detected: CapabilitySet, h: Held,
                       ev: Crossterm.KeyEvent): (CapabilitySet, Held, Events)
  {
    var d := detected + Shown(ev);
    match CompatKeyEventToBevy(ev)
    case None => (d, h, [])
    case Some(t) =>
      var (h', out) := ReconcileEvent(EmulateUnmasked(policy, d), h, t);
      (d, h', out)
  }

  function CompatAll(policy: EmulationPolicy, detected: CapabilitySet, h: Held,
                     events: seq<Crossterm.KeyEvent>): (CapabilitySet, Held, Events)
    decreases |events|
  {
    if events == [] then (detected, h, [])
    else
      var (d1, h1, out1) := CompatAll(policy, detected, h, events[..|events| - 1]);
      var (d2, h2, out2) := CompatEvent(policy, d1, h1, events[|events| - 1]);
      (d2, h2, out1 + out2)
  }

  /** Detection over a tick ORs in exactly what the tick's events show; no bit is cleared. */
  lemma {:induction false} CompatAllDetects(policy: EmulationPolicy, detected: CapabilitySet, h: Held,
                                            events: seq<Crossterm.KeyEvent>)
    ensures CompatAll(policy, detected, h, events).0 == detected + DetectedInline(events)
    decreases |events|
  {
    if events != [] {
      CompatAllDetects(policy, detected, h, events[..|events| - 1]);
    }
  }

  /** BackTab is dropped whole: nothing is detected, emitted or buffered for it. */
  lemma BackTabDropped(policy: EmulationPolicy, detected: CapabilitySet, h: Held, ev: Crossterm.KeyEvent)
    requires ev.code.BackTab?
    ensures CompatEvent(policy, detected, h, ev) == (detected, h, [])
  {
    assert Shown(ev) == {};
    assert detected + {} == detected;
  }

  /** A repeat is queued in the next-frame buffer whichever release branch runs. */
  lemma RepeatIsQueued(policy: EmulationPolicy, detected: CapabilitySet, h: Held, ev: Crossterm.KeyEvent)
    requires ev.kind.Repeat? && CompatKeyEventToBevy(ev).Some?
    ensures CompatKeyEventToBevy(ev).value.input in CompatEvent(policy, detected, h, ev).1.next
  {
  }

  /** Under `Automatic`, a repeat switches release emulation off on the spot: the repeat is
      emitted as a release, queued for the next frame, and the current-frame buffer is not
      touched. */
  lemma RepeatUnderAutomatic(detected: CapabilitySet, h: Held, ev: Crossterm.KeyEvent)
    requires ev.kind.Repeat? && CompatKeyEventToBevy(ev).Some?
    ensures var (d, h', out) := CompatEvent(Automatic, detected, h, ev);
      var k := CompatKeyEventToBevy(ev).value.input;
      && KeyRelease in d && KeyRelease !in EmulateUnmasked(Automatic, d)
      && k.state == Released && |out| >= 1 && out[|out| - 1] == k
      && h'.current == h.current && k in h'.next
  {
    var t := CompatKeyEventToBevy(ev).value;
    var d := detected + Shown(ev);
    var modOut := if Modifier in EmulateUnmasked(Automatic, d) && t.mods != h.modifiers
                  then ModifierDelta(t.mods, h.modifiers) else [];
    var out := ReconcileEvent(EmulateUnmasked(Automatic, d), h, t).1;
    assert out[|modOut|..] == [t.input];
    assert out == out[..|modOut|] + out[|modOut|..];
  }

  /** A press of an ordinary key other than BackTab shows nothing and is reconciled under the
      emulation set the detection so far gives, exactly as the later versions do. */
  lemma PressAgrees(policy: EmulationPolicy, detected: CapabilitySet, h: Held, ev: Crossterm.KeyEvent)
    requires ev.kind.Press? && !ev.code.Modifier? && !ev.code.BackTab?
    ensures KeyEventToBevy(ev).None? ==> CompatEvent(policy, detected, h, ev) == (detected, h, [])
    ensures KeyEventToBevy(ev).Some? ==>
      var r := ReconcileEvent(EmulateUnmasked(policy, detected), h, KeyEventToBevy(ev).value);
      CompatEvent(policy, detected, h, ev) == (detected, r.0, r.1)
  {
    TranslatorsDifferOnBackTab(ev);
    assert Shown(ev) == {};
    assert detected + {} == detected;
  }

  /** On presses of ordinary keys other than BackTab, inline detection sees nothing and the
      loop is the shared reconciler under a fixed emulation set, as in the later versions. */
  lemma {:induction false} AgreesOnPresses(policy: EmulationPolicy, detected: CapabilitySet, h: Held,
                                           events: seq<Crossterm.KeyEvent>)
    requires PressesOnly(events)
    requires forall i :: 0 <= i < |events| ==> !events[i].code.BackTab?
    ensures var r := ReconcileAll(EmulateUnmasked(policy, detected), h, events);
      CompatAll(policy, detected, h, events) == (detected, r.0, r.1)
    decreases |events|
  {
    if events != [] {
      var init := events[..|events| - 1];
      var ev := events[|events| - 1];
      assert forall i :: 0 <= i < |init| ==> init[i] == events[i];
      AgreesOnPresses(policy, detected, h, init);
      var e := EmulateUnmasked(policy, detected);
      var r1 := ReconcileAll(e, h, init);
      PressAgrees(policy, detected, r1.0, ev);
      var c := CompatEvent(policy, detected, r1.0, ev);
      assert CompatAll(policy, detected, h, events) == (c.0, c.1, r1.1 + c.2);
      match KeyEventToBevy(ev) {
        case None =>
          assert ReconcileAll(e, h, events) == r1;
          assert r1.1 + [] == r1.1;
        case Some(t) =>
          var r2 := ReconcileEvent(e, r1.0, t);
          assert ReconcileAll(e, h, events) == (r2.0, r1.1 + r2.1);
      }
    }
  }

  // ---------------------------------------------------------------------------------------
  // One frame

  /** What the system keeps between frames: the `Detected` resource, the `ReleaseKey` timer and
      its two `Local`s. */
  datatype CompatState = CompatState(detected: CapabilitySet, timer: Timer, held: Held)

  /** `send_key_events_with_emulation`: tick the timer; unless the frame is idle, run the event
      loop, drain, release the modifiers on a finished timer when MODIFIER is emulated, swap,
      and reset the timer. */
  ghost predicate CompatStep(policy: EmulationPolicy, s: CompatState, events: seq<Crossterm.KeyEvent>,
                             delta: nat, s': CompatState, out: Events)
  {
    var ticked := s.timer.Tick(delta);
    if events == [] && !ticked.Finished() then
      s' == CompatState(s.detected, ticked, s.held) && out == []
    else
      var (d, mid, evOut) := CompatAll(policy, s.detected, s.held, events);
      && s'.detected == d && s'.timer == ticked.Reset()
      && |evOut| <= |out| && out[..|evOut|] == evOut
      && EndOfTick(mid, ticked.Finished() && Modifier in EmulateUnmasked(policy, d), s'.held, out[|evOut|..])
  }

  class KeyboardPlugin {
    var policy: EmulationPolicy
    var detected: CapabilitySet
    /** The `ReleaseKey` resource. */
    var timer: Timer
    /** The system's `Local<Modifiers>` and `Local<LastPress>`. */
    const reconciler: Reconciler

    ghost predicate Valid()
      reads this, reconciler, reconciler.pressed
    {
      timer.Valid() && reconciler.pressed.next == {}
    }

    function State(): CompatState
      reads this, reconciler, reconciler.pressed
    {
      CompatState(detected, timer, reconciler.Snapshot())
    }

    /** The plugin with its resources at their defaults, given the timer's duration (one second
        by default). */
    constructor (duration: nat, policy: EmulationPolicy)
      ensures Valid() && this.policy == policy
      ensures fresh(reconciler) && fresh(reconciler.pressed)
      ensures State() == CompatState({}, NewTimer(duration), Held({}, {}, {}))
    {
      this.policy := policy;
      detected := {};
      timer := NewTimer(duration);
      reconciler := new Reconciler();
    }

    /** The body of the event loop for one raw event. */
    method ProcessKeyEvent(ev: Crossterm.KeyEvent) returns (out: Events)
      modifies this, reconciler, reconciler.pressed
      ensures (detected, reconciler.Snapshot(), out)
              == CompatEvent(policy, old(detected), old(reconciler.Snapshot()), ev)
      ensures policy == old(policy) && timer == old(timer)
    {
      ghost var d0 := detected;
      out := [];
      if ev.code.Modifier? {
        detected := detected + {Modifier};
      }
      match CompatKeyEventToBevy(ev) {
        case Some(t) =>
          if t.input.state == Released {
            detected := detected + {KeyRelease};
          }
          assert detected == d0 + Shown(ev);
          var emulation := EmulateUnmasked(policy, detected);
          out := reconciler.ProcessEvent(emulation, t);
        case None =>
          assert detected == d0 + Shown(ev);
      }
    }

    method SendKeyEventsWithEmulation(events: seq<Crossterm.KeyEvent>, delta: nat) returns (out: Events)
      requires Valid()
      modifies this, reconciler, reconciler.pressed
      ensures Valid() && policy == old(policy)
      ensures CompatStep(policy, old(State()), events, delta, State(), out)
    {
      timer := timer.Tick(delta);
      if |events| == 0 && !timer.Finished() {
        return [];
      }
      ghost var d0, h0 := detected, reconciler.Snapshot();
      out := [];
      var i := 0;
      while i < |events|
        invariant 0 <= i <= |events|
        invariant policy == old(policy) && timer == old(timer).Tick(delta)
        invariant (detected, reconciler.Snapshot(), out) == CompatAll(policy, d0, h0, events[..i])
        modifies this, reconciler, reconciler.pressed
      {
        assert events[..i + 1][..i] == events[..i];
        var o := ProcessKeyEvent(events[i]);
        out := out + o;
        i := i + 1;
      }
      assert events[..i] == events;
      ghost var evOut := out;
      var tail := reconciler.FinishTick(timer.Finished() && Modifier in EmulateUnmasked(policy, detected));
      out := out + tail;
      assert out[..|evOut|] == evOut && out[|evOut|..] == tail;
      timer := timer.Reset();
    }
  }

  // ---------------------------------------------------------------------------------------
  // Properties of a frame

  /** A frame without events on which the timer has not finished emits nothing and leaves the
      detection and buffers alone; only the timer advances. */
  lemma CompatIdleFrame(policy: EmulationPolicy, s: CompatState, delta: nat, s': CompatState, out: Events)
    requires CompatStep(policy, s, [], delta, s', out)
    requires !s.timer.Tick(delta).Finished()
    ensures out == [] && s'.held == s.held && s'.detected == s.detected
    ensures s'.timer.elapsed == Min(s.timer.elapsed + delta, s.timer.duration)
  {
  }

  /** Detection only ever adds bits: on a frame that runs, exactly what the events show. */
  lemma CompatDetectionIsSticky(policy: EmulationPolicy, s: CompatState, events: seq<Crossterm.KeyEvent>,
                                delta: nat, s': CompatState, out: Events)
    requires CompatStep(policy, s, events, delta, s', out)
    ensures s.detected <= s'.detected
    ensures events != [] ==> s'.detected == s.detected + DetectedInline(events)
  {
    var ticked := s.timer.Tick(delta);
    if events != [] || ticked.Finished() {
      CompatAllDetects(policy, s.detected, s.held, events);
    }
  }

  /** Once a release or a repeat of a mappable key has been seen, `Automatic` never emulates
      releases again. */
  lemma ReleaseEmulationStaysOff(s: CompatState, events: seq<Crossterm.KeyEvent>, delta: nat,
                                 s': CompatState, out: Events)
    requires CompatStep(Automatic, s, events, delta, s', out)
    requires KeyRelease in s.detected
    ensures KeyRelease !in EmulateUnmasked(Automatic, s'.detected)
  {
    CompatDetectionIsSticky(Automatic, s, events, delta, s', out);
  }

  /** A frame of presses of ordinary keys, at most one per (key code, logical key) pair and
      none a BackTab, with release emulated: every emitted event toggles a pair of the
      consumer that `Strict` describes, and the consumer ends up holding the keys pressed in
      the frame plus the tracked modifiers. */
  lemma CompatFrameIsStrict(policy: EmulationPolicy, s: CompatState, events: seq<Crossterm.KeyEvent>,
                            delta: nat, s': CompatState, out: Events)
    requires CompatStep(policy, s, events, delta, s', out)
    requires KeyRelease in EmulateUnmasked(policy, s.detected)
    requires PressesOnly(events) && DistinctKeys(events)
    requires forall i :: 0 <= i < |events| ==> !events[i].code.BackTab?
    requires s.held.next == {} && KeysOnly(s.held.current)
    ensures Strict(View(s.held), out) && Apply(View(s.held), out) == View(s'.held)
    ensures s'.held.next == {} && KeysOnly(s'.held.current) && s'.detected == s.detected
    ensures events != [] ==> s'.held.current == InputsOf(events)
  {
    var ticked := s.timer.Tick(delta);
    if events != [] || ticked.Finished() {
      var emulation := EmulateUnmasked(policy, s.detected);
      AgreesOnPresses(policy, s.detected, s.held, events);
      EmulatedTickIsStrict(emulation, ticked.Finished() && Modifier in emulation, s.held, events, s'.held, out);
    }
  }
}
