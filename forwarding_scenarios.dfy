/** Frame-by-frame runs of the plugin of src/input_forwarding/keyboard.rs on the key streams
    its documentation describes. */
module ForwardingScenarios {
  import opened Options
  import Crossterm
  import opened Bevy
  import opened Translate
  import opened Capabilities
  import opened BevyTime
  import opened Emulation
  import opened InputForwarding

  function Raw(c: char, mods: Mods, kind: Crossterm.KeyEventKind): Crossterm.KeyEvent {
    Crossterm.KeyEvent(Crossterm.Char(c), mods, kind)
  }

  function Letter(c: char, state: ButtonState): KeyboardInput {
    KeyboardInput(KeyLetter(c), Character(c), state)
  }

  const Frame: nat := 16_000_000

  /** The state a freshly built plugin is in. */
  function Start(policy: EmulationPolicy): PluginState {
    PluginState(policy, true, {}, true, NoState, Held({}, {}, {}), [])
  }

  lemma {:induction false} TranslateLetter(c: char, mods: Mods, kind: Crossterm.KeyEventKind)
    requires 'a' <= c <= 'z'
    ensures KeyEventToBevy(Raw(c, mods, kind))
            == Some(Translated(Letter(c, StateOf(kind)), mods, kind.Repeat?))
  {
    var ev := Raw(c, mods, kind);
    assert ToBevyKeyCode(ev.code) == Some((KeyLetter(c), {}));
    assert ToBevyKey(ev.code) == Some(Character(c));
    assert mods + {} == mods;
  }

  /** Under full emulation, a lone press of a letter that is not held is sent and buffered. */
  lemma {:induction false} PressReconciled(c: char, h: Held)
    requires 'a' <= c <= 'z' && h.modifiers == {} && Letter(c, Pressed) !in h.current
    ensures ReconcileAll(All, h, [Raw(c, {}, Crossterm.Press)])
            == (Held({}, h.current, h.next + {Letter(c, Pressed)}), [Letter(c, Pressed)])
  {
    TranslateLetter(c, {}, Crossterm.Press);
    ReconcileOne(All, h, Raw(c, {}, Crossterm.Press), Translated(Letter(c, Pressed), {}, false));
  }

  /** With nothing detected under `Automatic`, everything is emulated and a frame of presses
      detects nothing. */
  lemma {:induction false} EmulatingAll(s: PluginState, events: seq<Crossterm.KeyEvent>)
    requires s.policy == Automatic && s.detected == {}
    requires forall i :: 0 <= i < |events| ==> !events[i].code.Modifier? && !events[i].kind.Release?
    ensures s.detected + DetectedIn(events) == {}
    ensures EmulateUnmasked(s.policy, {}) == All
  {
    var d := DetectedIn(events);
    forall c: Capability ensures c !in d {
      if c.KeyRelease? { } else { }
    }
  }

  /** A non-idle frame with nothing detected under `Automatic` and no modifier or release key
      among its events: everything is emulated. */
  predicate FullyEmulated(s: PluginState, events: seq<Crossterm.KeyEvent>) {
    && s.policy == Automatic && s.detected == {} && s.emulate && events != []
    && forall i :: 0 <= i < |events| ==> !events[i].code.Modifier? && !events[i].kind.Release?
  }

  /** Such a frame whose keys carry no modifiers sends the reconciled keys, then the drain of
      the keys held before, and swaps the buffer. */
  lemma {:induction false} EmulatedFrame(rk: ReleaseKey, s: PluginState, events: seq<Crossterm.KeyEvent>, delta: nat,
                                         s': PluginState, out: Events, mid: Held, evOut: Events)
    requires UpdateStep(rk, s, events, delta, s', out) && FullyEmulated(s, events)
    requires ReconcileAll(All, s.held, events) == (mid, evOut) && mid.modifiers == {}
    ensures s' == PluginState(Automatic, false, {}, true, rk.Reset(rk.Tick(s.releaseState, delta)),
                              Held({}, mid.next, {}), s.repeatQueue)
    ensures |out| == |evOut| + |mid.current| && out[..|evOut|] == evOut
    ensures DrainOf(out[|evOut|..], mid.current)
  {
    EmulatingAll(s, events);
    ModifierDeltaSame({});
    var tail := out[|evOut|..];
    assert tail[..|mid.current|] == tail;
  }

  /** A frame of one event that is neither a modifier key nor a release, starting with nothing
      detected, that reconciles to `next` with `k` still held from the frame before. */
  ghost predicate OneKeyFrameOf(rk: ReleaseKey, rs: ReleaseKeyState, held: Held, ev: Crossterm.KeyEvent,
                                delta: nat, s': PluginState, out: Events, k: KeyboardInput,
                                next: set<KeyboardInput>, evOut: Events)
  {
    && UpdateStep(rk, Emulating(rs, held), [ev], delta, s', out)
    && !ev.code.Modifier? && !ev.kind.Release?
    && ReconcileAll(All, held, [ev]) == (Held({}, {k}, next), evOut)
  }

  /** A frame of one such event, with one key held before it: that key's release follows the
      reconciled keys. */
  lemma {:induction false} OneKeyFrame(rk: ReleaseKey, rs: ReleaseKeyState, held: Held, ev: Crossterm.KeyEvent,
                                       delta: nat, s': PluginState, out: Events, k: KeyboardInput,
                                       next: set<KeyboardInput>, evOut: Events)
    ensures OneKeyFrameOf(rk, rs, held, ev, delta, s', out, k, next, evOut) ==> out == evOut + [Reciprocal(k)]
    ensures OneKeyFrameOf(rk, rs, held, ev, delta, s', out, k, next, evOut)
            ==> s' == Emulating(rk.Reset(rk.Tick(rs, delta)), Held({}, next, {}))
  {
    if OneKeyFrameOf(rk, rs, held, ev, delta, s', out, k, next, evOut) {
      EmulatedFrame(rk, Emulating(rs, held), [ev], delta, s', out, Held({}, {k}, next), evOut);
      DrainOfSmall(out[|evOut|..], k);
      assert out == out[..|evOut|] + out[|evOut|..];
    }
  }

  /** `Duration`, frame one: the press of A is passed on at once and A is held. */
  lemma {:induction false} DurationFrame1(s1: PluginState, out: Events)
    requires UpdateStep(DefaultReleaseKey, Start(Automatic), [Raw('a', {}, Crossterm.Press)], Frame, s1, out)
    ensures out == [Letter('a', Pressed)]
    ensures s1 == PluginState(Automatic, false, {}, true, TimerState(NewTimer(OneSecond)),
                              Held({}, {Letter('a', Pressed)}, {}), [])
  {
    var a := Letter('a', Pressed);
    EmulatingAll(Start(Automatic), [Raw('a', {}, Crossterm.Press)]);
    PressReconciled('a', Held({}, {}, {}));
    assert {} + {a} == {a};
    DrainOfSmall(out[1..], a);
  }

  function Holding(k: KeyboardInput, timer: Timer): PluginState {
    PluginState(Automatic, false, {}, true, TimerState(timer), Held({}, {k}, {}), [])
  }

  /** `Duration`, frame two: half a second later nothing is sent; A is still held. */
  lemma {:induction false} DurationFrame2(s2: PluginState, out: Events)
    requires UpdateStep(DefaultReleaseKey, Holding(Letter('a', Pressed), NewTimer(OneSecond)), [], OneSecond / 2, s2, out)
    ensures out == []
    ensures s2 == Holding(Letter('a', Pressed), Timer(OneSecond, OneSecond / 2, false))
  {
    EmulatingAll(Holding(Letter('a', Pressed), NewTimer(OneSecond)), []);
  }

  /** `Duration`, frame three: once the second is up, A is released. */
  lemma {:induction false} DurationFrame3(s3: PluginState, out: Events)
    requires UpdateStep(DefaultReleaseKey, Holding(Letter('a', Pressed), Timer(OneSecond, OneSecond / 2, false)),
                        [], OneSecond / 2, s3, out)
    ensures out == [Letter('a', Released)]
    ensures s3 == PluginState(Automatic, false, {}, true, TimerState(NewTimer(OneSecond)), Held({}, {}, {}), [])
  {
    var a := Letter('a', Pressed);
    EmulatingAll(Holding(a, NewTimer(OneSecond)), []);
    DrainOfSmall(out, a);
    ModifierDeltaSame({});
  }

  /** The documented `Duration` stream: Press A, then, a second later, Release A. */
  method DurationRelease() returns (first: Events, second: Events, third: Events)
    ensures first == [Letter('a', Pressed)]
    ensures second == []
    ensures third == [Letter('a', Released)]
  {
    var p := new KeyboardPlugin(DefaultReleaseKey, Automatic);
    first := p.Update([Raw('a', {}, Crossterm.Press)], Frame);
    DurationFrame1(p.State(), first);
    second := p.Update([], OneSecond / 2);
    DurationFrame2(p.State(), second);
    third := p.Update([], OneSecond / 2);
    DurationFrame3(p.State(), third);
  }

  /** A plugin on the emulating path under `Automatic` with nothing detected. */
  function Emulating(rs: ReleaseKeyState, held: Held): PluginState {
    PluginState(Automatic, false, {}, true, rs, held, [])
  }

  /** `OnNextKey`, frame one: the press of A is passed on and A is held. */
  lemma {:induction false} OnNextKeyFrame1(s1: PluginState, out: Events)
    requires UpdateStep(OnNextKey, Start(Automatic), [Raw('a', {}, Crossterm.Press)], Frame, s1, out)
    ensures out == [Letter('a', Pressed)]
    ensures s1 == Emulating(NoState, Held({}, {Letter('a', Pressed)}, {}))
  {
    var a := Letter('a', Pressed);
    EmulatingAll(Start(Automatic), [Raw('a', {}, Crossterm.Press)]);
    PressReconciled('a', Held({}, {}, {}));
    assert {} + {a} == {a};
    DrainOfSmall(out[1..], a);
  }

  /** Under full emulation, pressing B while A is held sends B and buffers it. */
  lemma BAfterA()
    ensures ReconcileAll(All, Held({}, {Letter('a', Pressed)}, {}), [Raw('b', {}, Crossterm.Press)])
            == (Held({}, {Letter('a', Pressed)}, {Letter('b', Pressed)}), [Letter('b', Pressed)])
  {
    PressReconciled('b', Held({}, {Letter('a', Pressed)}, {}));
    assert {} + {Letter('b', Pressed)} == {Letter('b', Pressed)};
  }

  /** `OnNextKey`, frame two: the press of B is sent first, and the drain then releases A. */
  lemma {:induction false} OnNextKeyFrame2(s2: PluginState, out: Events)
    requires UpdateStep(OnNextKey, Emulating(NoState, Held({}, {Letter('a', Pressed)}, {})),
                        [Raw('b', {}, Crossterm.Press)], Frame, s2, out)
    ensures out == [Letter('b', Pressed), Letter('a', Released)]
    ensures s2 == Emulating(NoState, Held({}, {Letter('b', Pressed)}, {}))
  {
    BAfterA();
    OneKeyFrame(OnNextKey, NoState, Held({}, {Letter('a', Pressed)}, {}), Raw('b', {}, Crossterm.Press), Frame,
                s2, out, Letter('a', Pressed), {Letter('b', Pressed)}, [Letter('b', Pressed)]);
  }

  /** `OnNextKey`, later frames: without another key nothing is released, however long. */
  lemma {:induction false} OnNextKeyIdle(s3: PluginState, out: Events, delta: nat)
    requires UpdateStep(OnNextKey, Emulating(NoState, Held({}, {Letter('b', Pressed)}, {})), [], delta, s3, out)
    ensures out == []
    ensures s3 == Emulating(NoState, Held({}, {Letter('b', Pressed)}, {}))
  {
    EmulatingAll(Emulating(NoState, Held({}, {Letter('b', Pressed)}, {})), []);
  }

  /** The documented `OnNextKey` stream: B's press comes before A's release, and B stays held. */
  method OnNextKeyRelease() returns (first: Events, second: Events, third: Events)
    ensures first == [Letter('a', Pressed)]
    ensures second == [Letter('b', Pressed), Letter('a', Released)]
    ensures third == []
  {
    var p := new KeyboardPlugin(OnNextKey, Automatic);
    first := p.Update([Raw('a', {}, Crossterm.Press)], Frame);
    OnNextKeyFrame1(p.State(), first);
    second := p.Update([Raw('b', {}, Crossterm.Press)], Frame);
    OnNextKeyFrame2(p.State(), second);
    third := p.Update([], 10 * OneSecond);
    OnNextKeyIdle(p.State(), third, 10 * OneSecond);
  }

  /** Under full emulation, Ctrl+A from a clean state sends the Control press, then A. */
  lemma CtrlAReconciled()
    ensures ReconcileAll(All, Held({}, {}, {}), [Raw('a', {Crossterm.Control}, Crossterm.Press)])
            == (Held({Crossterm.Control}, {}, {Letter('a', Pressed)}),
                [ModifierEvent(Crossterm.Control, Pressed), Letter('a', Pressed)])
  {
    var a := Letter('a', Pressed);
    var ctrl := ModifierEvent(Crossterm.Control, Pressed);
    TranslateLetter('a', {Crossterm.Control}, Crossterm.Press);
    ReconcileOne(All, Held({}, {}, {}), Raw('a', {Crossterm.Control}, Crossterm.Press),
                 Translated(a, {Crossterm.Control}, false));
    ModifierDeltaSingle(Crossterm.Control, true);
    assert {Crossterm.Control} != {} by {
      assert Crossterm.Control in {Crossterm.Control};
    }
    var r := ReconcileEvent(All, Held({}, {}, {}), Translated(a, {Crossterm.Control}, false));
    assert r.1[..1] == [ctrl];
    assert r.1[1..] == [a];
    assert r.1 == [ctrl, a] by {
      assert r.1 == r.1[..1] + r.1[1..];
    }
    assert r.0 == Held({Crossterm.Control}, {}, {a}) by {
      assert {} + {a} == {a};
    }
  }

  /** Modifiers, frame one: Ctrl+A sends a synthetic Control press before the A press. */
  lemma {:induction false} ModifierFrame1(s1: PluginState, out: Events)
    requires UpdateStep(DefaultReleaseKey, Start(Automatic), [Raw('a', {Crossterm.Control}, Crossterm.Press)],
                        Frame, s1, out)
    ensures out == [ModifierEvent(Crossterm.Control, Pressed), Letter('a', Pressed)]
    ensures s1 == Emulating(TimerState(NewTimer(OneSecond)), Held({Crossterm.Control}, {Letter('a', Pressed)}, {}))
  {
    var a := Letter('a', Pressed);
    EmulatingAll(Start(Automatic), [Raw('a', {Crossterm.Control}, Crossterm.Press)]);
    CtrlAReconciled();
    DrainOfSmall(out[2..], a);
  }

  /** Modifiers, frame two: when the second is up, A is released and then the held Control. */
  lemma {:induction false} ModifierFrame2(s2: PluginState, out: Events)
    requires UpdateStep(DefaultReleaseKey,
                        Emulating(TimerState(NewTimer(OneSecond)), Held({Crossterm.Control}, {Letter('a', Pressed)}, {})),
                        [], OneSecond, s2, out)
    ensures out == [Letter('a', Released), ModifierEvent(Crossterm.Control, Released)]
    ensures s2 == Emulating(TimerState(NewTimer(OneSecond)), Held({}, {}, {}))
  {
    var a := Letter('a', Pressed);
    EmulatingAll(Emulating(TimerState(NewTimer(OneSecond)), Held({Crossterm.Control}, {a}, {})), []);
    ModifierDeltaSingle(Crossterm.Control, false);
    DrainOfSmall(out[..1], a);
  }

  /** Ctrl+A with emulated modifiers: the terminal reports only the key, and the plugin adds the
      press and the release of Control around it. */
  method ModifierEmulation() returns (first: Events, second: Events)
    ensures first == [ModifierEvent(Crossterm.Control, Pressed), Letter('a', Pressed)]
    ensures second == [Letter('a', Released), ModifierEvent(Crossterm.Control, Released)]
  {
    var p := new KeyboardPlugin(DefaultReleaseKey, Automatic);
    first := p.Update([Raw('a', {Crossterm.Control}, Crossterm.Press)], Frame);
    ModifierFrame1(p.State(), first);
    second := p.Update([], OneSecond);
    ModifierFrame2(p.State(), second);
  }

  /** A repeat, frame one: the press of A is passed on. */
  lemma {:induction false} RepeatFrame1(s1: PluginState, out: Events)
    requires UpdateStep(Immediate, Start(Automatic), [Raw('a', {}, Crossterm.Press)], Frame, s1, out)
    ensures out == [Letter('a', Pressed)]
    ensures s1 == Emulating(Count(0), Held({}, {Letter('a', Pressed)}, {}))
  {
    var a := Letter('a', Pressed);
    EmulatingAll(Start(Automatic), [Raw('a', {}, Crossterm.Press)]);
    ModifierDeltaSame({});
    PressReconciled('a', Held({}, {}, {}));
    assert {} + {a} == {a};
    DrainOfSmall(out[1..], a);
  }

  /** Under full emulation, a repeat of the held A is sent as a release and buffered. */
  lemma RepeatReconciled()
    ensures ReconcileAll(All, Held({}, {Letter('a', Pressed)}, {}), [Raw('a', {}, Crossterm.Repeat)])
            == (Held({}, {Letter('a', Pressed)}, {Letter('a', Released)}), [Letter('a', Released)])
  {
    var a, r := Letter('a', Pressed), Letter('a', Released);
    TranslateLetter('a', {}, Crossterm.Repeat);
    ReconcileOne(All, Held({}, {a}, {}), Raw('a', {}, Crossterm.Repeat), Translated(r, {}, true));
    assert {} + {r} + {r} == {r};
  }

  /** A repeat, frame two: the repeat is sent as a release, and the drain releases the held
      press of A a second time; the released A is carried to the next frame. */
  lemma {:induction false} RepeatFrame2(s2: PluginState, out: Events)
    requires UpdateStep(Immediate, Emulating(Count(0), Held({}, {Letter('a', Pressed)}, {})),
                        [Raw('a', {}, Crossterm.Repeat)], Frame, s2, out)
    ensures out == [Letter('a', Released), Letter('a', Released)]
    ensures s2 == Emulating(Count(0), Held({}, {Letter('a', Released)}, {}))
  {
    RepeatReconciled();
    OneKeyFrame(Immediate, Count(0), Held({}, {Letter('a', Pressed)}, {}), Raw('a', {}, Crossterm.Repeat), Frame,
                s2, out, Letter('a', Pressed), {Letter('a', Released)}, [Letter('a', Released)]);
  }

  /** A repeat, frame three: the drain turns the carried release into a press. */
  lemma {:induction false} RepeatFrame3(s3: PluginState, out: Events)
    requires UpdateStep(Immediate, Emulating(Count(0), Held({}, {Letter('a', Released)}, {})), [], Frame, s3, out)
    ensures out == [Letter('a', Pressed)]
    ensures s3 == Emulating(Count(0), Held({}, {}, {}))
  {
    var r := Letter('a', Released);
    EmulatingAll(Emulating(Count(0), Held({}, {r}, {})), []);
    ModifierDeltaSame({});
    DrainOfSmall(out[..1], r);
  }

  /** A repeat, frame four and after: nothing is held, so nothing more is sent. */
  lemma {:induction false} RepeatFrame4(s4: PluginState, out: Events)
    requires UpdateStep(Immediate, Emulating(Count(0), Held({}, {}, {})), [], Frame, s4, out)
    ensures out == []
    ensures s4 == Emulating(Count(0), Held({}, {}, {}))
  {
    var r := Letter('a', Released);
    EmulatingAll(Emulating(Count(0), Held({}, {}, {})), []);
    ModifierDeltaSame({});
    DrainOfSmall(out, r);
  }

  /** Press A, then a repeat of A, then quiet frames, with release emulated. */
  method RepeatStream() returns (first: Events, second: Events, third: Events, fourth: Events)
    ensures first == [Letter('a', Pressed)]
    ensures second == [Letter('a', Released), Letter('a', Released)]
    ensures third == [Letter('a', Pressed)]
    ensures fourth == []
  {
    var p := new KeyboardPlugin(Immediate, Automatic);
    first := p.Update([Raw('a', {}, Crossterm.Press)], Frame);
    RepeatFrame1(p.State(), first);
    second := p.Update([Raw('a', {}, Crossterm.Repeat)], Frame);
    RepeatFrame2(p.State(), second);
    third := p.Update([], Frame);
    RepeatFrame3(p.State(), third);
    fourth := p.Update([], Frame);
    RepeatFrame4(p.State(), fourth);
  }

  /** What Bevy makes of that stream: the second release is of a key that is already up, and
      A is left pressed with no release to follow. */
  lemma RepeatLeavesKeyPressed()
    ensures var stream := [Letter('a', Pressed), Letter('a', Released), Letter('a', Released), Letter('a', Pressed)];
      !Strict({}, stream) && Apply({}, stream) == {Id(Letter('a', Pressed))}
  {
    var p, r := Letter('a', Pressed), Letter('a', Released);
    var stream := [p, r, r, p];
    assert Id(p) == Id(r);
    assert stream[1..] == [r, r, p] && stream[1..][1..] == [r, p] && stream[1..][1..][1..] == [p];
    assert [p][1..] == [];
    assert Step({}, p) == {Id(p)};
    assert Step({Id(p)}, r) == {};
    assert Step({}, r) == {};
  }

  function ShiftKey(kind: Crossterm.KeyEventKind): Crossterm.KeyEvent {
    Crossterm.KeyEvent(Crossterm.Modifier(Crossterm.LeftShift), {}, kind)
  }

  /** Shift reported on its own and released shows both capabilities. */
  lemma KittyDetected()
    ensures DetectedIn([ShiftKey(Crossterm.Press), ShiftKey(Crossterm.Release)]) == All
    ensures EmulateUnmasked(Automatic, All) == {}
  {
    var events := [ShiftKey(Crossterm.Press), ShiftKey(Crossterm.Release)];
    var d := DetectedIn(events);
    assert events[0].code.Modifier? && events[1].kind.Release?;
    forall c: Capability ensures c in d && c in All {
      if c.KeyRelease? {
        assert events[1].kind.Release?;
      } else {
        assert events[0].code.Modifier?;
      }
    }
  }

  /** Passed through, the Shift press and release arrive translated and queue nothing. */
  lemma KittyForwarded()
    ensures Forwarded([ShiftKey(Crossterm.Press), ShiftKey(Crossterm.Release)])
            == [KeyboardInput(ShiftLeft, Shift, Pressed), KeyboardInput(ShiftLeft, Shift, Released)]
    ensures RepeatPresses([ShiftKey(Crossterm.Press), ShiftKey(Crossterm.Release)]) == []
  {
    var events := [ShiftKey(Crossterm.Press), ShiftKey(Crossterm.Release)];
    ShiftInput(Crossterm.Press);
    ShiftInput(Crossterm.Release);
    ForwardedPair(events[0], events[1], KeyboardInput(ShiftLeft, Shift, Pressed),
                  KeyboardInput(ShiftLeft, Shift, Released));
  }

  /** Two mappable events are forwarded as their two translations, in order. */
  lemma {:induction false} ForwardedPair(e0: Crossterm.KeyEvent, e1: Crossterm.KeyEvent, x0: KeyboardInput, x1: KeyboardInput)
    requires InputOf(e0) == Some(x0) && InputOf(e1) == Some(x1)
    ensures Forwarded([e0, e1]) == [x0, x1]
  {
    assert [e0][..0] == [] && [e0, e1][..1] == [e0];
    assert Forwarded([e0]) == [x0];
  }

  /** A left Shift that is not a repeat translates to ShiftLeft and queues nothing. */
  lemma {:induction false} ShiftInput(kind: Crossterm.KeyEventKind)
    requires !kind.Repeat?
    ensures InputOf(ShiftKey(kind)) == Some(KeyboardInput(ShiftLeft, Shift, StateOf(kind)))
    ensures RepeatOf(ShiftKey(kind)) == None
  {
    assert ToBevyKeyCode(ShiftKey(kind).code) == Some((ShiftLeft, {}));
    assert ToBevyKey(ShiftKey(kind).code) == Some(Shift);
  }

  /** A terminal with the kitty protocol reports Shift on its own and releases it: both
      capabilities are detected in that frame, the marker is dropped, and the events are
      passed through unchanged. */
  lemma {:induction false} KittyFrame(s1: PluginState, out: Events)
    requires UpdateStep(DefaultReleaseKey, Start(Automatic),
                        [ShiftKey(Crossterm.Press), ShiftKey(Crossterm.Release)], Frame, s1, out)
    ensures out == [KeyboardInput(ShiftLeft, Shift, Pressed), KeyboardInput(ShiftLeft, Shift, Released)]
    ensures s1 == PluginState(Automatic, false, All, false, NoState, Held({}, {}, {}), [])
  {
    KittyDetected();
    KittyForwarded();
  }
}
