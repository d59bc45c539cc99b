/** Key streams run through the key-event system of src/input.rs, which always emits the key
    it reads and only then releases what was held the tick before. */
module InputScenarios {
  import opened Options
  import Crossterm
  import opened Bevy
  import opened Translate
  import opened Capabilities
  import opened Emulation
  import opened Input
  import opened ForwardingScenarios

  /** One press of `y` in the tick after `x` was pressed: `y` is emitted, then `x` released;
      `y` is the only key held afterwards. */
  lemma PressAfterPress(emulation: CapabilitySet, timer: TimerFields, x: char, y: char,
                        timer': TimerFields, h': Held, out: Events)
    requires timer.Valid() && Modifier !in emulation && 'a' <= x <= 'z' && 'a' <= y <= 'z'
    requires KeyEventsSend(emulation, timer, Held({}, {Letter(x, Pressed)}, {}),
                           [Raw(y, {}, Crossterm.Press)], timer', h', out)
    ensures out == [Letter(y, Pressed), Letter(x, Released)]
    ensures h' == Held({}, {Letter(y, Pressed)}, {})
  {
    var events := [Raw(y, {}, Crossterm.Press)];
    TranslateLetter(y, {}, Crossterm.Press);
    assert events[..0] == [];
    assert InputOf(events[0]) == Some(Letter(y, Pressed));
    assert Forwarded(events) == [Letter(y, Pressed)];
    assert InputsOf(events) == {Letter(y, Pressed)} by {
      InputsOfSnoc(events);
      assert InputsOf(events[..0]) == {};
    }
    KeyFrameWithoutModifiers(emulation, timer, Held({}, {Letter(x, Pressed)}, {}), events, timer', h', out);
    DrainOfSmall(out[1..], Letter(x, Pressed));
    assert out == out[..1] + out[1..];
  }

  /** A key held across two ticks, the terminal repeating its press: the second tick presses
      the key again while it is down and then releases it, so the stream stops being a strict
      alternation and the key ends up released although the user still holds it. */
  lemma HeldKeyIsReleased(emulation: CapabilitySet, timer: TimerFields, timer': TimerFields,
                          h': Held, out: Events)
    requires timer.Valid() && Modifier !in emulation
    requires KeyEventsSend(emulation, timer, Held({}, {Letter('a', Pressed)}, {}),
                           [Raw('a', {}, Crossterm.Press)], timer', h', out)
    ensures out == [Letter('a', Pressed), Letter('a', Released)]
    ensures !Strict({Id(Letter('a', Pressed))}, out)
    ensures Apply({Id(Letter('a', Pressed))}, out) == {}
  {
    PressAfterPress(emulation, timer, 'a', 'a', timer', h', out);
    var down := {Id(Letter('a', Pressed))};
    assert !Toggles(down, out[0]);
    assert Step(down, out[0]) == down;
    assert Step(down, out[1]) == {};
    assert out[1..][1..] == [];
    assert Apply({}, []) == {};
    assert Apply(down, out[1..]) == Apply(Step(down, out[1]), []);
  }
}
