/** Terminal capabilities, their sticky detection, and the emulation policy. */
module Capabilities {
  import Crossterm

  /** One bit of the two-bit capability set. */
  datatype Capability = KeyRelease | Modifier

  type CapabilitySet = set<Capability>

  const All: CapabilitySet := {KeyRelease, Modifier}

  /** The bit-flag complement, truncated to the two known bits. */
  function Complement(s: CapabilitySet): (r: CapabilitySet)
    ensures forall c :: c in r <==> c !in s
  {
    assert forall c: Capability :: c in All by {
      forall c: Capability ensures c in All { if c.KeyRelease? { } else { } }
    }
    All - s
  }

  datatype EmulationPolicy = Automatic | Manual(capabilities: CapabilitySet)

  /** What to emulate in src/input_forwarding/keyboard.rs and src/bevy_compat/keyboard.rs: the
      manual set is taken as given, even where the terminal was seen to provide it. */
  function EmulateUnmasked(policy: EmulationPolicy, detected: CapabilitySet): (r: CapabilitySet)
    ensures policy.Automatic? ==> forall c :: c in r <==> c !in detected
    ensures policy.Manual? ==> r == policy.capabilities
  {
    match policy
    case Automatic => Complement(detected)
    case Manual(c) => c
  }

  /** What to emulate in src/input.rs: a detected capability is never emulated. */
  function EmulateMasked(policy: EmulationPolicy, detected: CapabilitySet): (r: CapabilitySet)
    ensures forall c :: c in r ==> c !in detected
    ensures policy.Automatic? ==> forall c :: c in r <==> c !in detected
    ensures policy.Manual? ==> forall c :: c in r <==> c in policy.capabilities && c !in detected
  {
    match policy
    case Automatic => Complement(detected)
    case Manual(c) => c - detected
  }

  /** The two policies agree under Automatic; under Manual they differ exactly on the
      manual capabilities that were already detected. */
  lemma MaskedIsUnmaskedMinusDetected(policy: EmulationPolicy, detected: CapabilitySet)
    ensures EmulateMasked(policy, detected) == EmulateUnmasked(policy, detected) - detected
  {
  }

  /** The capabilities one raw event shows the terminal to have. */
  function Witnessed(ev: Crossterm.KeyEvent): (r: CapabilitySet)
    ensures Modifier in r <==> ev.code.Modifier?
    ensures KeyRelease in r <==> ev.kind.Release?
  {
    (if ev.code.Modifier? then {Modifier} else {}) + (if ev.kind.Release? then {KeyRelease} else {})
  }

  /** Everything a sequence of raw events shows: a modifier-only code shows MODIFIER and a
      release shows KEY_RELEASE. */
  function DetectedIn(events: seq<Crossterm.KeyEvent>): (r: CapabilitySet)
    ensures Modifier in r <==> exists i :: 0 <= i < |events| && events[i].code.Modifier?
    ensures KeyRelease in r <==> exists i :: 0 <= i < |events| && events[i].kind.Release?
    decreases |events|
  {
    if events == [] then {}
    else
      var init := events[..|events| - 1];
      assert forall i :: 0 <= i < |init| ==> init[i] == events[i];
      DetectedIn(init) + Witnessed(events[|events| - 1])
  }
}
