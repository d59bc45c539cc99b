/** The parts of the emulation engine the three versions share: the modifier tracker, the
    double-buffered held-key reconciler, the pass-through path, and a model of the consumer
    (Bevy's binary keyboard) against which the emulated stream is shown to be strict. */
module Emulation {
  import opened Options
  import Crossterm
  import opened Bevy
  import opened Translate
  import opened Capabilities

  type Events = seq<KeyboardInput>

  function WithState(e: KeyboardInput, state: ButtonState): KeyboardInput {
    KeyboardInput(e.keyCode, e.logicalKey, state)
  }

  predicate Distinct<T(==)>(s: seq<T>) {
    forall i, j :: 0 <= i < j < |s| ==> s[i] != s[j]
  }

  /** The event that undoes `e`: same key, opposite state. */
  function Reciprocal(e: KeyboardInput): (r: KeyboardInput)
    ensures r.keyCode == e.keyCode && r.logicalKey == e.logicalKey && r.state != e.state
  {
    WithState(e, if e.state == Pressed then Released else Pressed)
  }

  lemma ReciprocalInvolutive(e: KeyboardInput)
    ensures Reciprocal(Reciprocal(e)) == e
  {
  }

  /** `out` emits the reciprocal of every member of `drained` exactly once, in some order
      (a hash set drains in no particular order). */
  ghost predicate DrainOf(out: Events, drained: set<KeyboardInput>) {
    |out| == |drained| && Distinct(out) && (set e | e in out :: Reciprocal(e)) == drained
  }

  lemma DrainOfStep(out: Events, drained: set<KeyboardInput>, e: KeyboardInput)
    requires DrainOf(out, drained) && e !in drained
    ensures DrainOf(out + [Reciprocal(e)], drained + {e})
  {
    var r := Reciprocal(e);
    var out' := out + [r];
    ReciprocalInvolutive(e);
    assert r !in out by {
      forall x | x in out ensures x != r {
        assert Reciprocal(x) in drained;
      }
    }
    forall i, j | 0 <= i < j < |out'| ensures out'[i] != out'[j] {
      if j < |out| {
        assert out'[i] == out[i] && out'[j] == out[j];
      } else {
        assert out'[i] in out;
      }
    }
    assert (set x | x in out' :: Reciprocal(x)) == drained + {e} by {
      forall x ensures x in out' <==> x in out || x == r {
      }
    }
  }

  lemma DrainOfSmall(out: Events, e: KeyboardInput)
    ensures DrainOf(out, {}) ==> out == []
    ensures DrainOf(out, {e}) ==> out == [Reciprocal(e)]
  {
    if DrainOf(out, {e}) {
      assert |out| == 1;
      assert out[0] in out;
      ReciprocalInvolutive(out[0]);
    }
  }

  // ---------------------------------------------------------------------------------------
  // Modifier tracker

  function StateFor(m: Crossterm.KeyModifier, mods: Mods): ButtonState {
    if m in mods then Pressed else Released
  }

  /** The event for one bit, if it changed. */
  function Transition(m: Crossterm.KeyModifier, newMods: Mods, oldMods: Mods): Events {
    if (m in newMods) == (m in oldMods) then [] else [ModifierEvent(m, StateFor(m, newMods))]
  }

  /** One event for every bit of `flags` that is in the symmetric difference, in order. */
  function DeltaEvents(flags: seq<Crossterm.KeyModifier>, newMods: Mods, oldMods: Mods): Events
    decreases |flags|
  {
    if flags == [] then []
    else DeltaEvents(flags[..|flags| - 1], newMods, oldMods)
         + Transition(flags[|flags| - 1], newMods, oldMods)
  }

  /** The events for `newMods.symmetric_difference(oldMods)`, lowest bit first. */
  function ModifierDelta(newMods: Mods, oldMods: Mods): Events {
    DeltaEvents(Crossterm.ModifierOrder, newMods, oldMods)
  }

  function KeyModifierOf(k: Key): Crossterm.KeyModifier
    requires IsModifierKey(k)
  {
    match k
    case Shift => Crossterm.Shift
    case Control => Crossterm.Control
    case Alt => Crossterm.Alt
    case Super => Crossterm.Super
    case Hyper => Crossterm.Hyper
    case Meta => Crossterm.Meta
  }

  /** The synthetic event of a bit carries a modifier key that names the bit back. */
  lemma ModifierEventKey(m: Crossterm.KeyModifier, state: ButtonState)
    ensures IsModifierKey(ModifierEvent(m, state).logicalKey)
    ensures KeyModifierOf(ModifierEvent(m, state).logicalKey) == m
  {
  }

  /** Each event is the synthetic event of the bit its key names, in its own state. */
  predicate ModifierEvents(out: Events) {
    forall i :: 0 <= i < |out| ==>
      IsModifierKey(out[i].logicalKey)
      && out[i] == ModifierEvent(KeyModifierOf(out[i].logicalKey), out[i].state)
  }

  /** Every event of the delta is the modifier event of its own key and state. */
  lemma {:induction false} DeltaEventsShape(flags: seq<Crossterm.KeyModifier>, newMods: Mods, oldMods: Mods)
    ensures ModifierEvents(DeltaEvents(flags, newMods, oldMods))
    decreases |flags|
  {
    if flags != [] {
      var f := flags[|flags| - 1];
      DeltaEventsShape(flags[..|flags| - 1], newMods, oldMods);
      var prev := DeltaEvents(flags[..|flags| - 1], newMods, oldMods);
      var out := DeltaEvents(flags, newMods, oldMods);
      assert out == prev + Transition(f, newMods, oldMods);
      forall i | 0 <= i < |out|
        ensures IsModifierKey(out[i].logicalKey)
                && out[i] == ModifierEvent(KeyModifierOf(out[i].logicalKey), out[i].state)
      {
        if i < |prev| {
          assert out[i] == prev[i];
        } else {
          assert out[i] == ModifierEvent(f, StateFor(f, newMods));
          ModifierEventKey(f, StateFor(f, newMods));
        }
      }
    } else {
      assert DeltaEvents(flags, newMods, oldMods) == [];
    }
  }

  /** The delta holds the event of a bit exactly when the bit is listed and changed, and its
      state is the bit's new state. */
  lemma {:induction false} DeltaEventsMembers(flags: seq<Crossterm.KeyModifier>, newMods: Mods, oldMods: Mods)
    ensures forall m, s :: ModifierEvent(m, s) in DeltaEvents(flags, newMods, oldMods) <==>
              m in flags && (m in newMods) != (m in oldMods) && s == StateFor(m, newMods)
    decreases |flags|
  {
    if flags != [] {
      var init := flags[..|flags| - 1];
      var f := flags[|flags| - 1];
      DeltaEventsMembers(init, newMods, oldMods);
      var out := DeltaEvents(flags, newMods, oldMods);
      assert out == DeltaEvents(init, newMods, oldMods) + Transition(f, newMods, oldMods);
      forall m, s ensures ModifierEvent(m, s) in out <==>
          m in flags && (m in newMods) != (m in oldMods) && s == StateFor(m, newMods)
      {
        assert m in flags <==> m in init || m == f;
      }
    } else {
      assert DeltaEvents(flags, newMods, oldMods) == [];
    }
  }

  /** Over distinct bits, the delta has no duplicate event. */
  lemma {:induction false} DeltaEventsDistinct(flags: seq<Crossterm.KeyModifier>, newMods: Mods, oldMods: Mods)
    requires Distinct(flags)
    ensures Distinct(DeltaEvents(flags, newMods, oldMods))
    decreases |flags|
  {
    if flags != [] {
      var init := flags[..|flags| - 1];
      var f := flags[|flags| - 1];
      assert Distinct(init) by {
        forall i, j | 0 <= i < j < |init| ensures init[i] != init[j] {
          assert init[i] == flags[i] && init[j] == flags[j];
        }
      }
      DeltaEventsDistinct(init, newMods, oldMods);
      DeltaEventsMembers(init, newMods, oldMods);
      var prev := DeltaEvents(init, newMods, oldMods);
      var out := DeltaEvents(flags, newMods, oldMods);
      assert out == prev + Transition(f, newMods, oldMods);
      assert f !in init by {
        forall i | 0 <= i < |init| ensures init[i] != f {
          assert init[i] == flags[i];
        }
      }
      forall i, j | 0 <= i < j < |out| ensures out[i] != out[j] {
        if j == |prev| {
          assert out[j] == ModifierEvent(f, StateFor(f, newMods));
          assert out[i] in prev;
        } else {
          assert out[i] == prev[i] && out[j] == prev[j];
        }
      }
    }
  }

  /** The modifier tracker emits exactly one event per bit of `newMods XOR oldMods`: Pressed
      for a bit that was added, Released for one that was removed, and nothing else. */
  lemma ModifierDeltaExact(newMods: Mods, oldMods: Mods)
    ensures var out := ModifierDelta(newMods, oldMods);
      && Distinct(out)
      && ModifierEvents(out)
      && (forall m :: ModifierEvent(m, Pressed) in out <==> m in newMods && m !in oldMods)
      && (forall m :: ModifierEvent(m, Released) in out <==> m in oldMods && m !in newMods)
  {
    var out := DeltaEvents(Crossterm.ModifierOrder, newMods, oldMods);
    assert ModifierDelta(newMods, oldMods) == out;
    DeltaEventsShape(Crossterm.ModifierOrder, newMods, oldMods);
    DeltaEventsMembers(Crossterm.ModifierOrder, newMods, oldMods);
    DeltaEventsDistinct(Crossterm.ModifierOrder, newMods, oldMods);
    forall m ensures m in Crossterm.ModifierOrder {
      Crossterm.ModifierOrderComplete(m);
    }
  }

  /** No event for an unchanged mask. */
  lemma {:induction false} DeltaEventsSame(flags: seq<Crossterm.KeyModifier>, mods: Mods)
    ensures DeltaEvents(flags, mods, mods) == []
    decreases |flags|
  {
    if flags != [] {
      DeltaEventsSame(flags[..|flags| - 1], mods);
    }
  }

  lemma ModifierDeltaSame(mods: Mods)
    ensures ModifierDelta(mods, mods) == []
  {
    DeltaEventsSame(Crossterm.ModifierOrder, mods);
  }

  /** A mask that gains or loses one bit gives exactly that bit's event. */
  lemma ModifierDeltaSingle(m: Crossterm.KeyModifier, added: bool)
    ensures ModifierDelta(if added then {m} else {}, if added then {} else {m})
            == [ModifierEvent(m, if added then Pressed else Released)]
  {
    var newMods: Mods := if added then {m} else {};
    var oldMods: Mods := if added then {} else {m};
    var out := ModifierDelta(newMods, oldMods);
    var target := ModifierEvent(m, if added then Pressed else Released);
    ModifierDeltaExact(newMods, oldMods);
    forall i | 0 <= i < |out| ensures out[i] == target {
      var k := KeyModifierOf(out[i].logicalKey);
      assert out[i] == ModifierEvent(k, out[i].state);
      assert ModifierEvent(k, out[i].state) in out;
    }
    assert target in out;
    DistinctHead(out);
  }

  lemma DistinctHead(s: Events)
    ensures Distinct(s) && |s| >= 2 ==> s[0] != s[1]
  {
  }

  /** The modifier tracker's loop: one event per changed bit, in bit order. */
  method EmitModifierDelta(newMods: Mods, oldMods: Mods) returns (out: Events)
    ensures out == ModifierDelta(newMods, oldMods)
  {
    out := [];
    var i := 0;
    while i < |Crossterm.ModifierOrder|
      invariant 0 <= i <= |Crossterm.ModifierOrder|
      invariant out == DeltaEvents(Crossterm.ModifierOrder[..i], newMods, oldMods)
    {
      var flag := Crossterm.ModifierOrder[i];
      if (flag in newMods) != (flag in oldMods) {
        var state := if flag in newMods then Pressed else Released;
        out := out + [ModifierEvent(flag, state)];
      }
      assert Crossterm.ModifierOrder[..i + 1][..i] == Crossterm.ModifierOrder[..i];
      i := i + 1;
    }
    assert Crossterm.ModifierOrder[..i] == Crossterm.ModifierOrder;
  }

  // ---------------------------------------------------------------------------------------
  // Held-key reconciler

  /** The reconciler's state: last modifier mask and the two frames of the held-key buffer. */
  datatype Held = Held(modifiers: Mods, current: set<KeyboardInput>, next: set<KeyboardInput>)

  /** One translated event: modifier deltas first, then the key itself. */
  function ReconcileEvent(emulation: CapabilitySet, h: Held, t: Translated): (r: (Held, Events))
    ensures var modOut := if Modifier in emulation && t.mods != h.modifiers
                          then ModifierDelta(t.mods, h.modifiers) else [];
      && r.0.modifiers == (if Modifier in emulation then t.mods else h.modifiers)
      && |modOut| <= |r.1| && r.1[..|modOut|] == modOut
      && (KeyRelease in emulation && t.input in h.current ==>
            r.1[|modOut|..] == [] && r.0.current == h.current - {t.input}
            && r.0.next == h.next + {t.input})
      && (KeyRelease in emulation && t.input !in h.current ==>
            r.1[|modOut|..] == [t.input] && r.0.current == h.current
            && r.0.next == h.next + {t.input})
      && (KeyRelease !in emulation ==>
            r.1[|modOut|..] == [t.input] && r.0.current == h.current
            && r.0.next == (if t.repeated then h.next + {t.input} else h.next))
  {
    var (mods, modOut) :=
      if Modifier in emulation && t.mods != h.modifiers
      then (t.mods, ModifierDelta(t.mods, h.modifiers)) else (h.modifiers, []);
    var k := t.input;
    // A repeat is queued for the next frame whatever the release branch does.
    var next := if t.repeated then h.next + {k} else h.next;
    if KeyRelease in emulation then
      if k in h.current then (Held(mods, h.current - {k}, next + {k}), modOut)
      else (Held(mods, h.current, next + {k}), modOut + [k])
    else (Held(mods, h.current, next), modOut + [k])
  }

  /** The event loop of a tick under a fixed emulation set. */
  function ReconcileAll(emulation: CapabilitySet, h: Held, events: seq<Crossterm.KeyEvent>): (Held, Events)
    decreases |events|
  {
    if events == [] then (h, [])
    else
      var (h1, out1) := ReconcileAll(emulation, h, events[..|events| - 1]);
      match KeyEventToBevy(events[|events| - 1])
      case None => (h1, out1)
      case Some(t) =>
        var (h2, out2) := ReconcileEvent(emulation, h1, t);
        (h2, out1 + out2)
  }

  /** A tick of one mappable event reconciles just that event. */
  lemma ReconcileOne(emulation: CapabilitySet, h: Held, ev: Crossterm.KeyEvent, t: Translated)
    requires KeyEventToBevy(ev) == Some(t)
    ensures ReconcileAll(emulation, h, [ev]) == ReconcileEvent(emulation, h, t)
  {
    assert [ev][..0] == [];
    assert ReconcileAll(emulation, h, []) == (h, []);
    assert [] + ReconcileEvent(emulation, h, t).1 == ReconcileEvent(emulation, h, t).1;
  }

  /** The end of a tick: drain `current` emitting reciprocals, optionally release every held
      modifier, then swap the buffers (so `next` ends empty). */
  ghost predicate EndOfTick(mid: Held, releaseModifiers: bool, after: Held, out: Events) {
    var m := |mid.current|;
    var flush := if releaseModifiers then ModifierDelta({}, mid.modifiers) else [];
    && |out| == m + |flush|
    && DrainOf(out[..m], mid.current)
    && out[m..] == flush
    && after == Held(if releaseModifiers then {} else mid.modifiers, mid.next, {})
  }

  /** A whole non-idle emulated tick under a fixed emulation set. */
  ghost predicate EmulatedTick(emulation: CapabilitySet, releaseModifiers: bool, before: Held,
                               events: seq<Crossterm.KeyEvent>, after: Held, out: Events)
  {
    var (mid, evOut) := ReconcileAll(emulation, before, events);
    && |evOut| <= |out|
    && out[..|evOut|] == evOut
    && EndOfTick(mid, releaseModifiers, after, out[|evOut|..])
  }

  // ---------------------------------------------------------------------------------------
  // The consumer: a binary keyboard that records which (key code, logical key) pairs are
  // down. Bevy's own input state keeps the key codes and the logical keys apart; this
  // consumer does not.

  type KeyId = (KeyCode, Key)

  function Id(e: KeyboardInput): KeyId {
    (e.keyCode, e.logicalKey)
  }

  function Step(down: set<KeyId>, e: KeyboardInput): set<KeyId> {
    if e.state == Pressed then down + {Id(e)} else down - {Id(e)}
  }

  /** A press of a key that is up, or a release of a key that is down. */
  predicate Toggles(down: set<KeyId>, e: KeyboardInput) {
    (e.state == Pressed) == (Id(e) !in down)
  }

  function Apply(down: set<KeyId>, out: Events): set<KeyId>
    decreases |out|
  {
    if out == [] then down else Apply(Step(down, out[0]), out[1..])
  }

  /** Every event of `out` changes the consumer's state: no press of a held key and no
      release of a key that is up. */
  predicate Strict(down: set<KeyId>, out: Events)
    decreases |out|
  {
    out == [] || (Toggles(down, out[0]) && Strict(Step(down, out[0]), out[1..]))
  }

  lemma {:induction false} StrictAppend(down: set<KeyId>, a: Events, b: Events)
    ensures Apply(down, a + b) == Apply(Apply(down, a), b)
    ensures Strict(down, a + b) <==> Strict(down, a) && Strict(Apply(down, a), b)
    decreases |a|
  {
    if a != [] {
      assert (a + b)[0] == a[0];
      assert (a + b)[1..] == a[1..] + b;
      StrictAppend(Step(down, a[0]), a[1..], b);
    } else {
      assert a + b == b;
    }
  }

  function Ids(s: set<KeyboardInput>): set<KeyId> {
    set e | e in s :: Id(e)
  }

  function ModId(m: Crossterm.KeyModifier): KeyId {
    Id(ModifierEvent(m, Pressed))
  }

  function ModIds(mods: Mods): set<KeyId> {
    set m | m in mods :: ModId(m)
  }

  /** Held keys are presses of ordinary (non-modifier) keys. */
  ghost predicate KeysOnly(s: set<KeyboardInput>) {
    forall e :: e in s ==> e.state == Pressed && !IsModifierKeyCode(e.keyCode)
  }

  /** Everything the consumer holds is a held key or a held modifier. */
  ghost function View(h: Held): set<KeyId> {
    Ids(h.current) + Ids(h.next) + ModIds(h.modifiers)
  }

  lemma ModIdOf(m: Crossterm.KeyModifier, s: ButtonState)
    ensures Id(ModifierEvent(m, s)) == ModId(m)
    ensures IsModifierKeyCode(ModId(m).0)
    ensures forall m' :: ModId(m') == ModId(m) ==> m' == m
  {
  }

  lemma KeyIdNotModId(e: KeyboardInput, mods: Mods)
    requires !IsModifierKeyCode(e.keyCode)
    ensures Id(e) !in ModIds(mods)
  {
    forall m | m in mods ensures ModId(m) != Id(e) {
      ModIdOf(m, Pressed);
    }
  }

  lemma PressedIdNotIn(k: KeyboardInput, s: set<KeyboardInput>)
    requires k.state == Pressed && k !in s && KeysOnly(s)
    ensures Id(k) !in Ids(s)
  {
  }

  lemma ModIdNotIn(f: Crossterm.KeyModifier, x: Mods)
    requires f !in x
    ensures ModId(f) !in ModIds(x)
  {
    forall m | m in x ensures ModId(m) != ModId(f) {
      ModIdOf(f, Pressed);
    }
  }

  lemma ModIdsAdd(x: Mods, f: Crossterm.KeyModifier)
    ensures ModIds(x + {f}) == ModIds(x) + {ModId(f)}
  {
  }

  /** The identities of the bits of `x` among `ps + {f}` are those among `ps`, plus `f`'s when
      `f` is in `x`. */
  lemma ModIdsStep(x: Mods, ps: Mods, f: Crossterm.KeyModifier)
    ensures ModIds(x * (ps + {f})) == ModIds(x * ps) + (if f in x then {ModId(f)} else {})
  {
    if f in x {
      assert x * (ps + {f}) == x * ps + {f};
      ModIdsAdd(x * ps, f);
    } else {
      assert x * (ps + {f}) == x * ps;
    }
  }

  /** Held keys never share an identity with a modifier. */
  lemma KeysApartFromModIds(s: set<KeyboardInput>)
    requires KeysOnly(s)
    ensures forall m :: ModId(m) !in Ids(s)
  {
    forall m, e | e in s ensures Id(e) != ModId(m) {
      ModIdOf(m, Pressed);
    }
  }

  /** The event for one bit moves the consumer's view of that bit from old to new. */
  lemma TransitionStrict(f: Crossterm.KeyModifier, newMods: Mods, oldMods: Mods, down: set<KeyId>,
                         mo: set<KeyId>, mn: set<KeyId>)
    requires ModId(f) !in mo && ModId(f) !in mn
    requires ModId(f) in down <==> f in oldMods
    ensures var d1 := down - mo + mn;
      var tr := Transition(f, newMods, oldMods);
      && Strict(d1, tr)
      && Apply(d1, tr) == down - (mo + (if f in oldMods then {ModId(f)} else {}))
                               + (mn + (if f in newMods then {ModId(f)} else {}))
  {
    var tr := Transition(f, newMods, oldMods);
    ModIdOf(f, StateFor(f, newMods));
    if tr != [] {
      assert tr[1..] == [];
    }
  }

  lemma {:induction false} DeltaEventsStrict(flags: seq<Crossterm.KeyModifier>, newMods: Mods, oldMods: Mods,
                                             down: set<KeyId>)
    requires Distinct(flags)
    requires forall m :: m in flags ==> (ModId(m) in down <==> m in oldMods)
    ensures var out := DeltaEvents(flags, newMods, oldMods);
      var fs := set m | m in flags;
      && Strict(down, out)
      && Apply(down, out) == down - ModIds(oldMods * fs) + ModIds(newMods * fs)
    decreases |flags|
  {
    var fs := set m | m in flags;
    if flags == [] {
      assert fs == {};
      assert ModIds({}) == {};
    } else {
      var init := flags[..|flags| - 1];
      var f := flags[|flags| - 1];
      var ps := set m | m in init;
      assert fs == ps + {f};
      assert f !in ps;
      DeltaEventsStrict(init, newMods, oldMods, down);
      var prev := DeltaEvents(init, newMods, oldMods);
      var tr := Transition(f, newMods, oldMods);
      var mo := ModIds(oldMods * ps);
      var mn := ModIds(newMods * ps);
      StrictAppend(down, prev, tr);
      ModIdNotIn(f, oldMods * ps);
      ModIdNotIn(f, newMods * ps);
      TransitionStrict(f, newMods, oldMods, down, mo, mn);
      ModIdsStep(oldMods, ps, f);
      ModIdsStep(newMods, ps, f);
    }
  }

  /** Given a consumer whose held modifiers are exactly `oldMods`, the delta events move it to
      exactly `newMods`, each event changing its state. */
  lemma ModifierDeltaStrict(newMods: Mods, oldMods: Mods, down: set<KeyId>)
    requires forall m :: ModId(m) in down <==> m in oldMods
    ensures Strict(down, ModifierDelta(newMods, oldMods))
    ensures Apply(down, ModifierDelta(newMods, oldMods)) == down - ModIds(oldMods) + ModIds(newMods)
  {
    var fs := set m | m in Crossterm.ModifierOrder;
    forall m ensures m in fs {
      Crossterm.ModifierOrderComplete(m);
    }
    assert oldMods * fs == oldMods;
    assert newMods * fs == newMods;
    DeltaEventsStrict(Crossterm.ModifierOrder, newMods, oldMods, down);
  }

  lemma {:induction false} ReleasesStrict(down: set<KeyId>, d: Events)
    requires forall i :: 0 <= i < |d| ==> d[i].state == Released && Id(d[i]) in down
    requires forall i, j :: 0 <= i < j < |d| ==> Id(d[i]) != Id(d[j])
    ensures Strict(down, d)
    ensures Apply(down, d) == down - (set e | e in d :: Id(e))
    decreases |d|
  {
    if d != [] {
      var rest := d[1..];
      var d0 := Step(down, d[0]);
      assert d0 == down - {Id(d[0])};
      forall i | 0 <= i < |rest| ensures rest[i].state == Released && Id(rest[i]) in d0 {
        assert rest[i] == d[i + 1];
      }
      forall i, j | 0 <= i < j < |rest| ensures Id(rest[i]) != Id(rest[j]) {
        assert rest[i] == d[i + 1] && rest[j] == d[j + 1];
      }
      ReleasesStrict(d0, rest);
      var all := set e | e in d :: Id(e);
      var tail := set e | e in rest :: Id(e);
      forall id ensures id in all <==> id == Id(d[0]) || id in tail {
        if id in all {
          var e :| e in d && Id(e) == id;
          var i :| 0 <= i < |d| && d[i] == e;
          if i > 0 {
            assert rest[i - 1] == e;
          }
        }
        if id in tail {
          var e :| e in rest && Id(e) == id;
          var i :| 0 <= i < |rest| && rest[i] == e;
          assert d[i + 1] == e;
        }
      }
      assert all == {Id(d[0])} + tail;
    }
  }

  lemma DrainReleases(down: set<KeyId>, d: Events, drained: set<KeyboardInput>)
    requires DrainOf(d, drained) && KeysOnly(drained) && Ids(drained) <= down
    ensures forall i :: 0 <= i < |d| ==> d[i].state == Released && Id(d[i]) in down
    ensures forall i, j :: 0 <= i < j < |d| ==> Id(d[i]) != Id(d[j])
  {
    forall i | 0 <= i < |d| ensures d[i].state == Released && Id(d[i]) in down {
      var e := Reciprocal(d[i]);
      assert d[i] in d;
      assert e in drained;
      assert Id(e) in Ids(drained);
    }
    forall i, j | 0 <= i < j < |d| ensures Id(d[i]) != Id(d[j]) {
      assert d[i] in d && d[j] in d;
      assert Reciprocal(d[i]) in drained && Reciprocal(d[j]) in drained;
    }
  }

  lemma DrainIds(d: Events, drained: set<KeyboardInput>)
    requires DrainOf(d, drained)
    ensures (set e | e in d :: Id(e)) == Ids(drained)
  {
    var ids := set e | e in d :: Id(e);
    forall id | id in ids ensures id in Ids(drained) {
      var e :| e in d && Id(e) == id;
      assert Reciprocal(e) in drained;
    }
    forall id | id in Ids(drained) ensures id in ids {
      var e :| e in drained && Id(e) == id;
      var x :| x in d && Reciprocal(x) == e;
    }
  }

  /** Draining a buffer of held keys releases each of them once. */
  lemma DrainStrict(down: set<KeyId>, d: Events, drained: set<KeyboardInput>)
    requires DrainOf(d, drained) && KeysOnly(drained) && Ids(drained) <= down
    ensures Strict(down, d)
    ensures Apply(down, d) == down - Ids(drained)
  {
    DrainReleases(down, d, drained);
    ReleasesStrict(down, d);
    DrainIds(d, drained);
  }

  /** Raw events the strictness theorem covers: presses of ordinary keys, as a terminal without
      the kitty protocol sends them. */
  ghost predicate PressesOnly(events: seq<Crossterm.KeyEvent>) {
    forall i :: 0 <= i < |events| ==> events[i].kind.Press? && !events[i].code.Modifier?
  }

  /** No translated input, key code and logical key together, is pressed twice within the
      tick. */
  ghost predicate DistinctKeys(events: seq<Crossterm.KeyEvent>) {
    forall i, j :: 0 <= i < j < |events| && KeyEventToBevy(events[i]).Some?
                   && KeyEventToBevy(events[j]).Some? ==>
      KeyEventToBevy(events[i]).value.input != KeyEventToBevy(events[j]).value.input
  }

  ghost function InputsOf(events: seq<Crossterm.KeyEvent>): set<KeyboardInput> {
    set i | 0 <= i < |events| && KeyEventToBevy(events[i]).Some? :: KeyEventToBevy(events[i]).value.input
  }

  /** The keys of an event that maps: its translated input, or none. */
  function KeyOf(ev: Crossterm.KeyEvent): set<KeyboardInput> {
    if KeyEventToBevy(ev).Some? then {KeyEventToBevy(ev).value.input} else {}
  }

  /** The keys of a tick are those of all but its last event, plus the last event's. */
  lemma InputsOfSnoc(events: seq<Crossterm.KeyEvent>)
    requires events != []
    ensures InputsOf(events) == InputsOf(events[..|events| - 1]) + KeyOf(events[|events| - 1])
  {
    InputsOfSnocCovered(events);
    InputsOfSnocCovers(events);
  }

  lemma InputsOfSnocCovered(events: seq<Crossterm.KeyEvent>)
    requires events != []
    ensures InputsOf(events) <= InputsOf(events[..|events| - 1]) + KeyOf(events[|events| - 1])
  {
    var init := events[..|events| - 1];
    forall k | k in InputsOf(events) ensures k in InputsOf(init) + KeyOf(events[|events| - 1]) {
      var i :| 0 <= i < |events| && KeyEventToBevy(events[i]).Some? && KeyEventToBevy(events[i]).value.input == k;
      if i < |init| {
        assert init[i] == events[i];
      }
    }
  }

  lemma InputsOfSnocCovers(events: seq<Crossterm.KeyEvent>)
    requires events != []
    ensures InputsOf(events[..|events| - 1]) + KeyOf(events[|events| - 1]) <= InputsOf(events)
  {
    var init := events[..|events| - 1];
    forall k | k in InputsOf(init) ensures k in InputsOf(events) {
      var i :| 0 <= i < |init| && KeyEventToBevy(init[i]).Some? && KeyEventToBevy(init[i]).value.input == k;
      assert events[i] == init[i];
    }
  }

  lemma {:induction false} ReconcileAllStrict(emulation: CapabilitySet, before: Held,
                                              events: seq<Crossterm.KeyEvent>, down: set<KeyId>)
    requires KeyRelease in emulation
    requires PressesOnly(events) && DistinctKeys(events)
    requires before.next == {} && KeysOnly(before.current)
    requires down == View(before)
    ensures var (h, out) := ReconcileAll(emulation, before, events);
      && h.current <= before.current && h.current !! h.next
      && KeysOnly(h.current) && KeysOnly(h.next) && h.next == InputsOf(events)
      && Strict(down, out) && Apply(down, out) == View(h)
    decreases |events|
  {
    if events == [] {
      assert InputsOf(events) == {};
      assert View(before) == Ids(before.current) + ModIds(before.modifiers);
    } else {
      var init := events[..|events| - 1];
      var ev := events[|events| - 1];
      assert forall i :: 0 <= i < |init| ==> init[i] == events[i];
      ReconcileAllStrict(emulation, before, init, down);
      var (h1, out1) := ReconcileAll(emulation, before, init);
      InputsOfSnoc(events);
      match KeyEventToBevy(ev)
      case None =>
      case Some(t) =>
        ReconcileStepStrict(emulation, h1, t, Apply(down, out1));
        var (h2, out2) := ReconcileEvent(emulation, h1, t);
        assert t.input !in h1.next by {
          forall i | 0 <= i < |init| && KeyEventToBevy(init[i]).Some?
            ensures KeyEventToBevy(init[i]).value.input != t.input
          {
            assert init[i] == events[i];
          }
        }
        StrictAppend(down, out1, out2);
    }
  }

  /** Tracking a new modifier mask keeps the consumer in step. */
  lemma ModifierStepStrict(h: Held, newMods: Mods, down: set<KeyId>)
    requires KeysOnly(h.current) && KeysOnly(h.next)
    requires down == View(h)
    ensures Strict(down, ModifierDelta(newMods, h.modifiers))
    ensures Apply(down, ModifierDelta(newMods, h.modifiers)) == View(Held(newMods, h.current, h.next))
  {
    KeysApartFromModIds(h.current);
    KeysApartFromModIds(h.next);
    var keys := Ids(h.current) + Ids(h.next);
    forall m ensures ModId(m) in down <==> m in h.modifiers {
      ModIdOf(m, Pressed);
    }
    ModifierDeltaStrict(newMods, h.modifiers, down);
    forall id ensures id in down - ModIds(h.modifiers) + ModIds(newMods) <==> id in keys + ModIds(newMods) {
    }
    assert down - ModIds(h.modifiers) + ModIds(newMods) == keys + ModIds(newMods);
  }

  /** The key part of one press: a held key moves to the next frame silently, any other key is
      pressed once. */
  lemma KeyStepStrict(h: Held, k: KeyboardInput, down: set<KeyId>)
    requires k.state == Pressed && !IsModifierKeyCode(k.keyCode)
    requires KeysOnly(h.current) && KeysOnly(h.next) && h.current !! h.next && k !in h.next
    requires down == View(h)
    ensures k in h.current ==> View(Held(h.modifiers, h.current - {k}, h.next + {k})) == down
    ensures k !in h.current ==>
      Toggles(down, k) && Step(down, k) == View(Held(h.modifiers, h.current, h.next + {k}))
  {
    KeyIdNotModId(k, h.modifiers);
    if k in h.current {
      forall id ensures id in Ids(h.current - {k}) + Ids(h.next + {k}) <==> id in Ids(h.current) + Ids(h.next) {
        if id in Ids(h.current) {
          var e :| e in h.current && Id(e) == id;
          if e == k {
            assert id in Ids(h.next + {k});
          } else {
            assert e in h.current - {k};
          }
        }
      }
      assert Ids(h.current - {k}) + Ids(h.next + {k}) == Ids(h.current) + Ids(h.next);
    } else {
      PressedIdNotIn(k, h.current);
      PressedIdNotIn(k, h.next);
      assert Ids(h.next + {k}) == Ids(h.next) + {Id(k)};
    }
  }

  /** One press of an ordinary key that is not yet queued keeps the consumer in step. */
  lemma ReconcileStepStrict(emulation: CapabilitySet, h: Held, t: Translated, down: set<KeyId>)
    requires KeyRelease in emulation
    requires t.input.state == Pressed && !IsModifierKeyCode(t.input.keyCode) && !t.repeated
    requires KeysOnly(h.current) && KeysOnly(h.next) && h.current !! h.next && t.input !in h.next
    requires down == View(h)
    ensures var (h2, out) := ReconcileEvent(emulation, h, t);
      && h2.current <= h.current && h2.current !! h2.next
      && KeysOnly(h2.current) && KeysOnly(h2.next) && h2.next == h.next + {t.input}
      && Strict(down, out) && Apply(down, out) == View(h2)
  {
    var k := t.input;
    var (h2, out) := ReconcileEvent(emulation, h, t);
    var doDelta := Modifier in emulation && t.mods != h.modifiers;
    var modOut := if doDelta then ModifierDelta(t.mods, h.modifiers) else [];
    var hm := Held(h2.modifiers, h.current, h.next);
    if doDelta {
      ModifierStepStrict(h, t.mods, down);
    } else {
      assert hm == h;
    }
    var dm := Apply(down, modOut);
    assert dm == View(hm) && Strict(down, modOut);
    KeyStepStrict(hm, k, dm);
    var rest := out[|modOut|..];
    assert out == modOut + rest;
    StrictAppend(down, modOut, rest);
    if k in h.current {
      assert rest == [];
      assert h2 == Held(hm.modifiers, hm.current - {k}, hm.next + {k});
    } else {
      assert rest == [k];
      assert rest[1..] == [];
      assert h2 == Held(hm.modifiers, hm.current, hm.next + {k});
    }
  }

  /** After the drain the consumer holds the next frame and the modifiers. */
  lemma AfterDrain(mid: Held)
    requires KeysOnly(mid.current) && KeysOnly(mid.next) && mid.current !! mid.next
    ensures View(mid) - Ids(mid.current) == Ids(mid.next) + ModIds(mid.modifiers)
  {
    KeysApartFromModIds(mid.current);
    forall id | id in Ids(mid.next) ensures id !in Ids(mid.current) {
      var a :| a in mid.next && Id(a) == id;
      forall b | b in mid.current ensures Id(b) != id {
        assert a != b;
      }
    }
  }

  /** Releasing every tracked modifier leaves only the held keys. */
  lemma FlushStrict(keys: set<KeyboardInput>, mods: Mods)
    requires KeysOnly(keys)
    ensures Strict(Ids(keys) + ModIds(mods), ModifierDelta({}, mods))
    ensures Apply(Ids(keys) + ModIds(mods), ModifierDelta({}, mods)) == Ids(keys)
  {
    KeysApartFromModIds(keys);
    var down := Ids(keys) + ModIds(mods);
    forall m ensures ModId(m) in down <==> m in mods {
      ModIdOf(m, Pressed);
    }
    ModifierDeltaStrict({}, mods, down);
    assert ModIds({}) == {};
    forall id | id in Ids(keys) ensures id !in ModIds(mods) {
      var e :| e in keys && Id(e) == id;
      KeyIdNotModId(e, mods);
    }
    assert down - ModIds(mods) == Ids(keys);
  }

  /** Draining a frame and flushing the modifiers keeps the consumer in step. */
  lemma EndOfTickStrict(mid: Held, releaseModifiers: bool, after: Held, out: Events, down: set<KeyId>)
    requires KeysOnly(mid.current) && KeysOnly(mid.next) && mid.current !! mid.next
    requires down == View(mid)
    requires EndOfTick(mid, releaseModifiers, after, out)
    ensures Strict(down, out)
    ensures Apply(down, out) == View(after)
    ensures after.next == {} && KeysOnly(after.current)
  {
    var m := |mid.current|;
    var drain := out[..m];
    var flush := out[m..];
    assert out == drain + flush;
    DrainStrict(down, drain, mid.current);
    StrictAppend(down, drain, flush);
    AfterDrain(mid);
    assert Ids({}) == {};
    if releaseModifiers {
      FlushStrict(mid.next, mid.modifiers);
      assert View(after) == Ids(mid.next) + Ids({}) + ModIds({});
    } else {
      assert flush == [];
    }
  }

  /** Exactly-once emulation: in a tick where release is emulated and the terminal sends only
      presses of ordinary keys, at most one per key, every emitted event changes the consumer's
      state (no second press of a held key, no release of a key that is up), and afterwards the
      consumer holds exactly the keys pressed this tick plus the tracked modifiers. The
      reconciler ends the tick in the state this lemma assumes at its start, so the property
      carries from tick to tick. */
  lemma EmulatedTickIsStrict(emulation: CapabilitySet, releaseModifiers: bool, before: Held,
                             events: seq<Crossterm.KeyEvent>, after: Held, out: Events)
    requires KeyRelease in emulation
    requires PressesOnly(events) && DistinctKeys(events)
    requires before.next == {} && KeysOnly(before.current)
    requires EmulatedTick(emulation, releaseModifiers, before, events, after, out)
    ensures Strict(View(before), out)
    ensures Apply(View(before), out) == View(after)
    ensures after.next == {} && KeysOnly(after.current) && after.current == InputsOf(events)
  {
    var (mid, evOut) := ReconcileAll(emulation, before, events);
    ReconcileAllStrict(emulation, before, events, View(before));
    EndOfTickStrict(mid, releaseModifiers, after, out[|evOut|..], Apply(View(before), evOut));
    assert out == evOut + out[|evOut|..];
    StrictAppend(View(before), evOut, out[|evOut|..]);
  }

  // ---------------------------------------------------------------------------------------
  // Pass-through (no emulation)

  /** The events an optional entry contributes to a queue: none or one. */
  function Listed(o: Option<KeyboardInput>): Events {
    match o
    case Some(e) => [e]
    case None => []
  }

  function InputOf(ev: Crossterm.KeyEvent): Option<KeyboardInput> {
    match KeyEventToBevy(ev)
    case Some(t) => Some(t.input)
    case None => None
  }

  /** The mappable events of a tick, translated, in arrival order. */
  function Forwarded(events: seq<Crossterm.KeyEvent>): (r: Events)
    ensures |r| <= |events|
    ensures (forall i :: 0 <= i < |events| ==> InputOf(events[i]).Some?) ==> |r| == |events|
    decreases |events|
  {
    if events == [] then []
    else
      var init := events[..|events| - 1];
      assert forall i :: 0 <= i < |init| ==> init[i] == events[i];
      var last := Listed(InputOf(events[|events| - 1]));
      Forwarded(init) + last
  }

  /** Every forwarded event is the translation of some event of the tick. */
  lemma ForwardedSound(events: seq<Crossterm.KeyEvent>)
    ensures forall e :: e in Forwarded(events) ==>
              exists i :: 0 <= i < |events| && InputOf(events[i]) == Some(e)
  {
    forall e | e in Forwarded(events)
      ensures exists i :: 0 <= i < |events| && InputOf(events[i]) == Some(e)
    {
      var k :| 0 <= k < |Forwarded(events)| && Forwarded(events)[k] == e;
      ForwardedSoundAt(events, k);
    }
  }

  lemma {:induction false} ForwardedSoundAt(events: seq<Crossterm.KeyEvent>, k: int)
    requires 0 <= k < |Forwarded(events)|
    ensures exists i :: 0 <= i < |events| && InputOf(events[i]) == Some(Forwarded(events)[k])
    decreases |events|
  {
    var n := |events| - 1;
    PassThroughStep(events, n);
    assert events[..n + 1] == events;
    if k < |Forwarded(events[..n])| {
      ForwardedSoundAt(events[..n], k);
      var i :| 0 <= i < n && InputOf(events[..n][i]) == Some(Forwarded(events[..n])[k]);
      assert events[i] == events[..n][i];
    } else {
      assert InputOf(events[n]) == Some(Forwarded(events)[k]);
    }
  }

  /** Every mappable event of the tick is forwarded: its translation stands in `Forwarded`
      right after the translations of the events before it. */
  lemma {:induction false} ForwardedComplete(events: seq<Crossterm.KeyEvent>, i: int)
    requires 0 <= i < |events| && InputOf(events[i]).Some?
    ensures |Forwarded(events[..i])| < |Forwarded(events)|
    ensures Forwarded(events)[|Forwarded(events[..i])|] == InputOf(events[i]).value
    decreases |events|
  {
    var n := |events| - 1;
    if i == n {
      ForwardedLast(events);
    } else {
      assert events[..n][i] == events[i] && events[..n][..i] == events[..i];
      ForwardedComplete(events[..n], i);
      ForwardedPrefix(events);
    }
  }

  /** The last event of a tick, if it maps, is forwarded after all the others. */
  lemma ForwardedLast(events: seq<Crossterm.KeyEvent>)
    requires events != [] && InputOf(events[|events| - 1]).Some?
    ensures var prev := Forwarded(events[..|events| - 1]);
      |prev| < |Forwarded(events)| && Forwarded(events)[|prev|] == InputOf(events[|events| - 1]).value
  {
    var n := |events| - 1;
    PassThroughStep(events, n);
    assert events[..n + 1] == events;
  }

  /** The translation of all but the last event of a tick is a prefix of the tick's. */
  lemma ForwardedPrefix(events: seq<Crossterm.KeyEvent>)
    requires events != []
    ensures Forwarded(events[..|events| - 1]) <= Forwarded(events)
  {
    var n := |events| - 1;
    PassThroughStep(events, n);
    assert events[..n + 1] == events;
  }

  /** The translations keep the events' order: past a mappable event, the number of forwarded
      events has grown, so a later event's translation stands after an earlier one's. */
  lemma {:induction false} ForwardedInOrder(events: seq<Crossterm.KeyEvent>, i: int, j: int)
    requires 0 <= i < j <= |events| && InputOf(events[i]).Some?
    ensures |Forwarded(events[..i])| < |Forwarded(events[..j])|
    decreases j
  {
    PassThroughStep(events, j - 1);
    var prev, last := Forwarded(events[..j - 1]), Listed(InputOf(events[j - 1]));
    assert Forwarded(events[..j]) == prev + last;
    if i < j - 1 {
      ForwardedInOrder(events, i, j - 1);
      assert |Forwarded(events[..i])| < |prev|;
    } else {
      assert last == [InputOf(events[i]).value];
    }
  }

  /** Every queued press is the repeat entry of some event of the tick. */
  lemma RepeatPressesSound(events: seq<Crossterm.KeyEvent>)
    ensures forall e :: e in RepeatPresses(events) ==>
              exists i :: 0 <= i < |events| && RepeatOf(events[i]) == Some(e)
  {
    forall e | e in RepeatPresses(events)
      ensures exists i :: 0 <= i < |events| && RepeatOf(events[i]) == Some(e)
    {
      var k :| 0 <= k < |RepeatPresses(events)| && RepeatPresses(events)[k] == e;
      RepeatPressesSoundAt(events, k);
    }
  }

  lemma {:induction false} RepeatPressesSoundAt(events: seq<Crossterm.KeyEvent>, k: int)
    requires 0 <= k < |RepeatPresses(events)|
    ensures exists i :: 0 <= i < |events| && RepeatOf(events[i]) == Some(RepeatPresses(events)[k])
    decreases |events|
  {
    var n := |events| - 1;
    PassThroughStep(events, n);
    assert events[..n + 1] == events;
    if k < |RepeatPresses(events[..n])| {
      RepeatPressesSoundAt(events[..n], k);
      var i :| 0 <= i < n && RepeatOf(events[..n][i]) == Some(RepeatPresses(events[..n])[k]);
      assert events[i] == events[..n][i];
    } else {
      assert RepeatOf(events[n]) == Some(RepeatPresses(events)[k]);
    }
  }


  /** Both queues of a tick are those of its prefix extended by the last event's entry. */
  lemma ForwardedSnoc(init: seq<Crossterm.KeyEvent>, ev: Crossterm.KeyEvent)
    ensures Forwarded(init + [ev]) == Forwarded(init) + Listed(InputOf(ev))
    ensures RepeatPresses(init + [ev]) == RepeatPresses(init) + Listed(RepeatOf(ev))
  {
    assert (init + [ev])[..|init|] == init;
  }

  /** The queues of the first `i + 1` events of a tick extend those of the first `i`. */
  lemma PassThroughStep(events: seq<Crossterm.KeyEvent>, i: nat)
    requires i < |events|
    ensures Forwarded(events[..i + 1]) == Forwarded(events[..i]) + Listed(InputOf(events[i]))
    ensures RepeatPresses(events[..i + 1]) == RepeatPresses(events[..i]) + Listed(RepeatOf(events[i]))
  {
    assert events[..i + 1] == events[..i] + [events[i]];
    ForwardedSnoc(events[..i], events[i]);
  }

  /** The press one event queues for the next tick: a mappable repeat's key, as a press. */
  function RepeatOf(ev: Crossterm.KeyEvent): (r: Option<KeyboardInput>)
    ensures r.Some? <==> ev.kind.Repeat? && InputOf(ev).Some?
    ensures r.Some? ==> r.value == WithState(InputOf(ev).value, Pressed)
  {
    match KeyEventToBevy(ev)
    case Some(t) => if t.repeated then Some(WithState(t.input, Pressed)) else None
    case None => None
  }

  /** The presses queued for the next tick: one per mappable repeat, in arrival order. */
  function RepeatPresses(events: seq<Crossterm.KeyEvent>): (r: Events)
    ensures forall k :: 0 <= k < |r| ==> r[k].state == Pressed
    ensures (forall i :: 0 <= i < |events| ==> !events[i].kind.Repeat?) ==> r == []
    decreases |events|
  {
    if events == [] then []
    else
      var init := events[..|events| - 1];
      assert forall i :: 0 <= i < |init| ==> init[i] == events[i];
      var last := Listed(RepeatOf(events[|events| - 1]));
      RepeatPresses(init) + last
  }

  // ---------------------------------------------------------------------------------------
  // Imperative state

  /** The double buffer of last pressed keys: read `current`, write `next`. */
  class LastPress {
    var current: set<KeyboardInput>
    var next: set<KeyboardInput>

    constructor ()
      ensures current == {} && next == {}
    {
      current, next := {}, {};
    }

    method Swap()
      modifies this
      ensures current == old(next) && next == old(current)
    {
      current, next := next, current;
    }

    /** Drain `current`, emitting the reciprocal of each entry: a release for a press, and a
        press for a repeat that was reported as a release. */
    method DrainReciprocal() returns (out: Events)
      modifies this
      ensures current == {} && next == old(next)
      ensures DrainOf(out, old(current))
    {
      out := [];
      var rest := current;
      ghost var drained: set<KeyboardInput> := {};
      while rest != {}
        invariant rest !! drained && rest + drained == old(current)
        invariant next == old(next)
        invariant DrainOf(out, drained)
        decreases |rest|
      {
        var e :| e in rest;
        DrainOfStep(out, drained, e);
        out := out + [Reciprocal(e)];
        rest, drained := rest - {e}, drained + {e};
      }
      current := {};
    }
  }

  /** The locals of the emulating system: the last modifier mask and the held-key buffer. */
  class Reconciler {
    var modifiers: Mods
    const pressed: LastPress

    constructor ()
      ensures modifiers == {} && fresh(pressed) && pressed.current == {} && pressed.next == {}
    {
      modifiers := {};
      pressed := new LastPress();
    }

    function Snapshot(): Held
      reads this, pressed
    {
      Held(modifiers, pressed.current, pressed.next)
    }

    method ProcessEvent(emulation: CapabilitySet, t: Translated) returns (out: Events)
      modifies this, pressed
      ensures (Snapshot(), out) == ReconcileEvent(emulation, old(Snapshot()), t)
    {
      out := [];
      if Modifier in emulation && t.mods != modifiers {
        out := EmitModifierDelta(t.mods, modifiers);
        modifiers := t.mods;
      }
      if t.repeated {
        pressed.next := pressed.next + {t.input};
      }
      if KeyRelease in emulation {
        if t.input in pressed.current {
          // Still held: carry it to the next frame without a second press.
          pressed.current := pressed.current - {t.input};
          pressed.next := pressed.next + {t.input};
        } else {
          pressed.next := pressed.next + {t.input};
          out := out + [t.input];
        }
      } else {
        out := out + [t.input];
      }
    }

    /** The event loop of the emulating system: every mappable event in arrival order. */
    method ProcessEvents(emulation: CapabilitySet, events: seq<Crossterm.KeyEvent>) returns (out: Events)
      modifies this, pressed
      ensures (Snapshot(), out) == ReconcileAll(emulation, old(Snapshot()), events)
    {
      ghost var h0 := Snapshot();
      out := [];
      var i := 0;
      while i < |events|
        invariant 0 <= i <= |events|
        invariant (Snapshot(), out) == ReconcileAll(emulation, h0, events[..i])
      {
        assert events[..i + 1][..i] == events[..i];
        match KeyEventToBevy(events[i]) {
          case Some(t) =>
            var o := ProcessEvent(emulation, t);
            out := out + o;
          case None =>
        }
        i := i + 1;
      }
      assert events[..i] == events;
    }

    /** Release every held modifier and clear the mask. */
    method ReleaseModifiers() returns (out: Events)
      modifies this
      ensures modifiers == {} && out == ModifierDelta({}, old(modifiers))
    {
      out := EmitModifierDelta({}, modifiers);
      modifiers := {};
    }

    method FinishTick(releaseModifiers: bool) returns (out: Events)
      modifies this, pressed
      ensures EndOfTick(old(Snapshot()), releaseModifiers, Snapshot(), out)
    {
      out := pressed.DrainReciprocal();
      if releaseModifiers {
        var flush := ReleaseModifiers();
        out := out + flush;
      }
      pressed.Swap();
    }
  }

  /** The local repeat queue of the pass-through system. */
  class PassThrough {
    var repeatQueue: Events

    constructor ()
      ensures repeatQueue == []
    {
      repeatQueue := [];
    }

    /** Emit last tick's queued presses, then every mappable event as translated; queue a
        press for each repeat. */
    method Send(events: seq<Crossterm.KeyEvent>) returns (out: Events)
      modifies this
      ensures out == old(repeatQueue) + Forwarded(events)
      ensures repeatQueue == RepeatPresses(events)
    {
      var sent, queue, held := [], [], repeatQueue;
      for i := 0 to |events|
        invariant sent == Forwarded(events[..i])
        invariant queue == RepeatPresses(events[..i])
      {
        // A mappable event is sent; a mappable repeat also queues its key as a press.
        PassThroughStep(events, i);
        queue := queue + Listed(RepeatOf(events[i]));
        sent := sent + Listed(InputOf(events[i]));
      }
      assert events[..|events|] == events;
      out := held + sent;
      repeatQueue := queue;
    }
  }
}
