/** The keyboard plugin of src/input_forwarding/keyboard.rs: sticky detection, the marker
    resource that selects the emulating path, the release scheduler, and one frame of the
    emulating and pass-through systems. */
module InputForwarding {
  import opened Options
  import Crossterm
  import opened Bevy
  import opened Translate
  import opened Capabilities
  import opened BevyTime
  import opened Emulation

  const U32Max: nat := 0xFFFF_FFFF

  /** `u32::saturating_add(1)`. */
  function SaturatingInc(c: nat): (r: nat)
    requires c <= U32Max
    ensures r <= U32Max && (c < U32Max ==> r == c + 1) && (c == U32Max ==> r == c)
  {
    if c < U32Max then c + 1 else U32Max
  }

  datatype ReleaseKeyState = NoState | Count(count: nat) | TimerState(timer: Timer)

  /** How long the last pressed key is held before an emulated release. */
  datatype ReleaseKey = Duration(duration: nat) | FrameCount(target: nat) | Immediate | OnNextKey
  {
    /** `FrameCount` holds a `u32`. */
    predicate Valid() {
      FrameCount? ==> target <= U32Max
    }

    /** The state this strategy builds for itself. */
    predicate Fits(state: ReleaseKeyState) {
      match this
      case Duration(d) => state.NoState? || (state.TimerState? && state.timer.duration == d && state.timer.Valid())
      case FrameCount(_) => state.NoState? || (state.Count? && state.count <= U32Max)
      case Immediate => state.NoState? || (state.Count? && state.count <= U32Max)
      case OnNextKey => state.NoState?
    }

    function Tick(state: ReleaseKeyState, delta: nat): (r: ReleaseKeyState)
      ensures Fits(state) ==> Fits(r)
      ensures Fits(state) && state != NoState ==> r != NoState
    {
      match this
      case FrameCount(_) | Immediate =>
        if state.Count? && state.count <= U32Max then Count(SaturatingInc(state.count))
        else if state.Count? then Count(U32Max)
        else Count(0)
      case Duration(d) =>
        if state.TimerState? then TimerState(state.timer.Tick(delta)) else TimerState(NewTimer(d))
      case OnNextKey => state
    }

    function Finished(state: ReleaseKeyState): bool {
      match this
      case OnNextKey => false
      case FrameCount(target) => state.Count? && state.count >= target
      case Duration(_) => state.TimerState? && state.timer.Finished()
      case Immediate => true
    }

    function Reset(state: ReleaseKeyState): (r: ReleaseKeyState)
      ensures Fits(state) ==> Fits(r)
      ensures (FrameCount? || Immediate?) ==> r == Count(0)
      ensures Duration? && Fits(state) ==> r == TimerState(NewTimer(duration))
    {
      match this
      case FrameCount(_) | Immediate => Count(0)
      case Duration(d) =>
        if state.TimerState? then TimerState(state.timer.Reset()) else TimerState(NewTimer(d))
      case OnNextKey => state
    }
  }

  /** The default strategy: release after one second. */
  const DefaultReleaseKey: ReleaseKey := Duration(OneSecond)

  /** The scheduler after a run of ticks, one per frame time. */
  function TickFrames(rk: ReleaseKey, state: ReleaseKeyState, deltas: seq<nat>): ReleaseKeyState
    decreases |deltas|
  {
    if deltas == [] then state else TickFrames(rk, rk.Tick(state, deltas[0]), deltas[1..])
  }

  /** `OnNextKey` never finishes and `Immediate` always has, whatever the state. */
  lemma NeverAndAlways(state: ReleaseKeyState)
    ensures !OnNextKey.Finished(state) && Immediate.Finished(state)
  {
  }

  lemma {:induction false} CountTicks(rk: ReleaseKey, c: nat, deltas: seq<nat>)
    requires rk.FrameCount? || rk.Immediate?
    requires c <= U32Max
    ensures TickFrames(rk, Count(c), deltas) == Count(Min(c + |deltas|, U32Max))
    decreases |deltas|
  {
    if deltas != [] {
      CountTicks(rk, SaturatingInc(c), deltas[1..]);
    }
  }

  /** A frame counter counts the ticks since its reset, saturating at `u32::MAX`; `FrameCount(t)`
      is finished from the `t`-th tick after the reset on. */
  lemma FrameCountFinishesAfter(target: nat, state: ReleaseKeyState, deltas: seq<nat>)
    requires target <= U32Max
    ensures TickFrames(FrameCount(target), FrameCount(target).Reset(state), deltas)
            == Count(Min(|deltas|, U32Max))
    ensures FrameCount(target).Finished(TickFrames(FrameCount(target), FrameCount(target).Reset(state), deltas))
            <==> |deltas| >= target
  {
    CountTicks(FrameCount(target), 0, deltas);
  }

  lemma {:induction false} TimerTicks(d: nat, t: Timer, deltas: seq<nat>)
    ensures TickFrames(Duration(d), TimerState(t), deltas) == TimerState(BevyTime.TickAll(t, deltas))
    decreases |deltas|
  {
    if deltas != [] {
      TimerTicks(d, t.Tick(deltas[0]), deltas[1..]);
    }
  }

  /** A duration strategy is finished once the frame times since its reset add up to the
      duration, and not before the first tick. */
  lemma DurationFinishesAfter(d: nat, state: ReleaseKeyState, deltas: seq<nat>)
    requires Duration(d).Fits(state)
    ensures Duration(d).Finished(TickFrames(Duration(d), Duration(d).Reset(state), deltas))
            <==> deltas != [] && Sum(deltas) >= d
  {
    var t := NewTimer(d);
    TimerTicks(d, t, deltas);
    TickAllElapsed(t, deltas);
  }

  // ---------------------------------------------------------------------------------------
  // One frame of the plugin

  /** Everything the plugin keeps between frames. */
  datatype PluginState = PluginState(
    policy: EmulationPolicy,
    policyChanged: bool,
    detected: CapabilitySet,
    emulate: bool,
    releaseState: ReleaseKeyState,
    held: Held,
    repeatQueue: Events)

  /** `send_key_events_with_emulation`: tick the scheduler; unless the frame is idle, reconcile
      the events, drain, flush the modifiers on a finished scheduler, swap and reset. */
  ghost predicate EmulatedSend(rk: ReleaseKey, emulation: CapabilitySet, state: ReleaseKeyState, before: Held,
                               events: seq<Crossterm.KeyEvent>, delta: nat,
                               state': ReleaseKeyState, after: Held, out: Events)
  {
    var ticked := rk.Tick(state, delta);
    if events == [] && !rk.Finished(ticked) then
      state' == ticked && after == before && out == []
    else
      state' == rk.Reset(ticked)
      && EmulatedTick(emulation, rk.Finished(ticked) && Modifier in emulation, before, events, after, out)
  }

  /** One `PreUpdate` pass: the policy-change check inserts the marker; while the marker is
      present, detection runs and the marker is removed if nothing needs emulating; then exactly
      one of the two sending systems runs. */
  ghost predicate UpdateStep(rk: ReleaseKey, s: PluginState, events: seq<Crossterm.KeyEvent>, delta: nat,
                             s': PluginState, out: Events)
  {
    var marker := s.emulate || s.policyChanged;
    var detected := if marker then s.detected + DetectedIn(events) else s.detected;
    var emulation := EmulateUnmasked(s.policy, detected);
    var emulating := marker && emulation != {};
    && s'.policy == s.policy && !s'.policyChanged
    && s'.detected == detected && s'.emulate == emulating
    && if emulating then
         s'.repeatQueue == s.repeatQueue
         && EmulatedSend(rk, emulation, s.releaseState, s.held, events, delta, s'.releaseState, s'.held, out)
       else
         s'.releaseState == s.releaseState && s'.held == s.held
         && out == s.repeatQueue + Forwarded(events) && s'.repeatQueue == RepeatPresses(events)
  }

  class KeyboardPlugin {
    const releaseKey: ReleaseKey
    var policy: EmulationPolicy
    /** Bevy's change detection on the policy resource. */
    var policyChanged: bool
    var detected: CapabilitySet
    /** Whether the `Emulate` marker resource exists. */
    var emulate: bool
    var releaseState: ReleaseKeyState
    const reconciler: Reconciler
    const passThrough: PassThrough

    ghost predicate Valid()
      reads this, reconciler, reconciler.pressed
    {
      releaseKey.Valid() && releaseKey.Fits(releaseState) && reconciler.pressed.next == {}
    }

    function State(): PluginState
      reads this, reconciler, reconciler.pressed, passThrough
    {
      PluginState(policy, policyChanged, detected, emulate, releaseState, reconciler.Snapshot(),
                  passThrough.repeatQueue)
    }

    /** The plugin as `build` installs it: every resource at its default, the marker present. */
    constructor (releaseKey: ReleaseKey, policy: EmulationPolicy)
      requires releaseKey.Valid()
      ensures Valid()
      ensures this.releaseKey == releaseKey
      ensures fresh(reconciler) && fresh(reconciler.pressed) && fresh(passThrough)
      ensures State() == PluginState(policy, true, {}, true, NoState, Held({}, {}, {}), [])
    {
      this.releaseKey := releaseKey;
      this.policy := policy;
      policyChanged := true;
      detected := {};
      emulate := true;
      releaseState := NoState;
      reconciler := new Reconciler();
      passThrough := new PassThrough();
    }

    /** A write to the policy resource. */
    method SetPolicy(p: EmulationPolicy)
      modifies this
      ensures policy == p && policyChanged
      ensures detected == old(detected) && emulate == old(emulate) && releaseState == old(releaseState)
    {
      policy := p;
      policyChanged := true;
    }

    /** `reset_emulation_check`: a changed policy brings the marker back. */
    method ResetEmulationCheck()
      modifies this
      ensures emulate
      ensures policy == old(policy) && detected == old(detected) && releaseState == old(releaseState)
              && policyChanged == old(policyChanged)
    {
      emulate := true;
    }

    /** `detect_capabilities`: OR in what the events show; no bit is ever cleared. */
    method DetectCapabilities(events: seq<Crossterm.KeyEvent>)
      modifies this
      ensures detected == old(detected) + DetectedIn(events)
      ensures policy == old(policy) && emulate == old(emulate) && releaseState == old(releaseState)
              && policyChanged == old(policyChanged)
    {
      var d := detected;
      var i := 0;
      while i < |events|
        invariant 0 <= i <= |events|
        invariant d == old(detected) + DetectedIn(events[..i])
      {
        assert events[..i + 1][..i] == events[..i];
        if events[i].code.Modifier? {
          d := d + {Modifier};
        }
        if events[i].kind.Release? {
          d := d + {KeyRelease};
        }
        i := i + 1;
      }
      assert events[..i] == events;
      detected := d;
    }

    /** `check_for_emulation`: drop the marker when nothing needs emulating. */
    method CheckForEmulation()
      modifies this
      ensures emulate == (old(emulate) && EmulateUnmasked(policy, detected) != {})
      ensures policy == old(policy) && detected == old(detected) && releaseState == old(releaseState)
              && policyChanged == old(policyChanged)
    {
      if EmulateUnmasked(policy, detected) == {} {
        emulate := false;
      }
    }

    method SendKeyEventsWithEmulation(events: seq<Crossterm.KeyEvent>, delta: nat) returns (out: Events)
      requires Valid()
      modifies this, reconciler, reconciler.pressed
      ensures Valid()
      ensures EmulatedSend(releaseKey, EmulateUnmasked(policy, detected), old(releaseState), old(reconciler.Snapshot()),
                           events, delta, releaseState, reconciler.Snapshot(), out)
      ensures policy == old(policy) && detected == old(detected) && emulate == old(emulate)
              && policyChanged == old(policyChanged)
    {
      releaseState := releaseKey.Tick(releaseState, delta);
      if |events| == 0 && !releaseKey.Finished(releaseState) {
        return [];
      }
      var emulation := EmulateUnmasked(policy, detected);
      out := reconciler.ProcessEvents(emulation, events);
      ghost var mid := reconciler.Snapshot();
      ghost var evOut := out;
      var finished := releaseKey.Finished(releaseState);
      var tail := reconciler.FinishTick(finished && Modifier in EmulateUnmasked(policy, detected));
      out := out + tail;
      assert out[..|evOut|] == evOut && out[|evOut|..] == tail;
      releaseState := releaseKey.Reset(releaseState);
    }

    method SendKeyEventsNoEmulation(events: seq<Crossterm.KeyEvent>) returns (out: Events)
      modifies passThrough
      ensures out == old(passThrough.repeatQueue) + Forwarded(events)
      ensures passThrough.repeatQueue == RepeatPresses(events)
    {
      out := passThrough.Send(events);
    }

    /** One frame of `PreUpdate`, systems in their set order. */
    method Update(events: seq<Crossterm.KeyEvent>, delta: nat) returns (out: Events)
      requires Valid()
      modifies this, reconciler, reconciler.pressed, passThrough
      ensures Valid()
      ensures UpdateStep(releaseKey, old(State()), events, delta, State(), out)
    {
      if policyChanged {
        ResetEmulationCheck();
        policyChanged := false;
      }
      if emulate {
        DetectCapabilities(events);
        CheckForEmulation();
      }
      if emulate {
        out := SendKeyEventsWithEmulation(events, delta);
      } else {
        out := SendKeyEventsNoEmulation(events);
      }
    }
  }

  // ---------------------------------------------------------------------------------------
  // Properties of a frame

  /** Detection only ever adds bits, and while the marker is present it adds exactly what the
      frame's events show. Once the marker is gone and the policy is untouched, the plugin stays
      on the pass-through path and detects nothing more. */
  lemma DetectionIsSticky(rk: ReleaseKey, s: PluginState, events: seq<Crossterm.KeyEvent>, delta: nat,
                          s': PluginState, out: Events)
    requires UpdateStep(rk, s, events, delta, s', out)
    ensures s.detected <= s'.detected
    ensures s.emulate || s.policyChanged ==> s'.detected == s.detected + DetectedIn(events)
    ensures !s.emulate && !s.policyChanged ==> !s'.emulate && s'.detected == s.detected
  {
  }

  /** With the marker present, a frame without events whose scheduler has not finished emits
      nothing and leaves the held keys and modifiers alone. */
  lemma IdleFrame(rk: ReleaseKey, s: PluginState, delta: nat, s': PluginState, out: Events)
    requires UpdateStep(rk, s, [], delta, s', out)
    requires s.emulate && EmulateUnmasked(s.policy, s.detected) != {}
    requires !rk.Finished(rk.Tick(s.releaseState, delta))
    ensures out == [] && s'.held == s.held && s'.releaseState == rk.Tick(s.releaseState, delta)
  {
    assert DetectedIn([]) == {};
    assert s.detected + {} == s.detected;
  }

  /** A frame of presses of ordinary keys, at most one per (key code, logical key) pair, with
      release emulated: every emitted event toggles a pair of the consumer that `Strict`
      describes, and afterwards the consumer holds exactly the keys pressed in the frame plus
      the tracked modifiers (or, on an idle frame, what it held). */
  lemma FrameIsStrict(rk: ReleaseKey, s: PluginState, events: seq<Crossterm.KeyEvent>, delta: nat,
                      s': PluginState, out: Events)
    requires UpdateStep(rk, s, events, delta, s', out)
    requires s.emulate || s.policyChanged
    requires KeyRelease in EmulateUnmasked(s.policy, s.detected)
    requires PressesOnly(events) && DistinctKeys(events)
    requires s.held.next == {} && KeysOnly(s.held.current)
    ensures Strict(View(s.held), out)
    ensures Apply(View(s.held), out) == View(s'.held)
    ensures s'.held.next == {} && KeysOnly(s'.held.current)
    ensures events != [] ==> s'.held.current == InputsOf(events)
  {
    NoDetectionFromPresses(events);
    assert s.detected + DetectedIn(events) == s.detected;
    var emulation := EmulateUnmasked(s.policy, s.detected);
    var ticked := rk.Tick(s.releaseState, delta);
    if events == [] && !rk.Finished(ticked) {
    } else {
      EmulatedTickIsStrict(emulation, rk.Finished(ticked) && Modifier in emulation, s.held, events, s'.held, out);
    }
  }

  lemma NoDetectionFromPresses(events: seq<Crossterm.KeyEvent>)
    requires PressesOnly(events)
    ensures DetectedIn(events) == {}
  {
    var r := DetectedIn(events);
    forall c: Capability ensures c !in r {
      if c.KeyRelease? {
        assert forall i :: 0 <= i < |events| ==> !events[i].kind.Release?;
      } else {
        assert forall i :: 0 <= i < |events| ==> !events[i].code.Modifier?;
      }
    }
  }

  /** A state from which release emulation is on and stays on: the marker is present, release
      is emulated, and the buffers are as a frame leaves them. A freshly built plugin under
      `Automatic` is in such a state. */
  ghost predicate Steady(s: PluginState) {
    s.emulate && KeyRelease in EmulateUnmasked(s.policy, s.detected)
    && s.held.next == {} && KeysOnly(s.held.current)
  }

  lemma StrictStep(rk: ReleaseKey, s: PluginState, events: seq<Crossterm.KeyEvent>, delta: nat,
                   s': PluginState, out: Events)
    requires UpdateStep(rk, s, events, delta, s', out)
    requires Steady(s) && PressesOnly(events) && DistinctKeys(events)
    ensures Steady(s')
    ensures Strict(View(s.held), out) && Apply(View(s.held), out) == View(s'.held)
  {
    FrameIsStrict(rk, s, events, delta, s', out);
    NoDetectionFromPresses(events);
    assert s.detected + {} == s.detected;
  }

  function Flatten(outs: seq<Events>): Events
    decreases |outs|
  {
    if outs == [] then [] else outs[0] + Flatten(outs[1..])
  }

  /** Exactly-once emulation over a run of frames: from a steady state, as long as the
      terminal sends presses of ordinary keys, at most one per (key code, logical key) pair
      per frame, every event the plugin emits toggles a pair of the consumer that `Strict`
      describes, and the consumer ends up holding what the plugin holds. */
  lemma {:induction false} RunIsStrict(rk: ReleaseKey, states: seq<PluginState>, frames: seq<seq<Crossterm.KeyEvent>>,
                                       deltas: seq<nat>, outs: seq<Events>)
    requires |states| == |frames| + 1 && |deltas| == |frames| && |outs| == |frames|
    requires Steady(states[0])
    requires forall k :: 0 <= k < |frames| ==> UpdateStep(rk, states[k], frames[k], deltas[k], states[k + 1], outs[k])
    requires forall k :: 0 <= k < |frames| ==> PressesOnly(frames[k]) && DistinctKeys(frames[k])
    ensures Strict(View(states[0].held), Flatten(outs))
    ensures Apply(View(states[0].held), Flatten(outs)) == View(states[|frames|].held)
    ensures Steady(states[|frames|])
    decreases |frames|
  {
    if frames != [] {
      StrictStep(rk, states[0], frames[0], deltas[0], states[1], outs[0]);
      var states', frames', deltas', outs' := states[1..], frames[1..], deltas[1..], outs[1..];
      forall k | 0 <= k < |frames'|
        ensures UpdateStep(rk, states'[k], frames'[k], deltas'[k], states'[k + 1], outs'[k])
        ensures PressesOnly(frames'[k]) && DistinctKeys(frames'[k])
      {
        assert states'[k] == states[k + 1] && states'[k + 1] == states[k + 2];
        assert frames'[k] == frames[k + 1] && deltas'[k] == deltas[k + 1] && outs'[k] == outs[k + 1];
      }
      RunIsStrict(rk, states', frames', deltas', outs');
      StrictAppend(View(states[0].held), outs[0], Flatten(outs'));
    }
  }

  /** A plugin built with the `Automatic` policy starts steady. */
  lemma FreshPluginIsSteady(policyChanged: bool)
    ensures Steady(PluginState(Automatic, policyChanged, {}, true, NoState, Held({}, {}, {}), []))
  {
    assert KeyRelease in Complement({});
  }
}
