/** The key translator: crossterm key events to Bevy keyboard input, with the modifier bits a
    character implies and whether the event was an auto-repeat. */
module Translate {
  import opened Options
  import Crossterm
  import Bevy

  type Mods = set<Crossterm.KeyModifier>

  /** What `key_event_to_bevy` returns for a mappable event. */
  datatype Translated = Translated(input: Bevy.KeyboardInput, mods: Mods, repeated: bool)

  function Lower(c: char): char
    requires 'A' <= c <= 'Z'
  {
    (c as int - 'A' as int + 'a' as int) as char
  }

  /** Physical key of a character, and whether it implies SHIFT. */
  function CharKeyCode(c: char): (r: Option<(Bevy.KeyCode, Mods)>)
    ensures r.Some? ==> r.value.1 == {} || r.value.1 == {Crossterm.Shift}
    ensures r.Some? ==> !Bevy.IsModifierKeyCode(r.value.0)
  {
    var shift: Mods := {Crossterm.Shift};
    if 'a' <= c <= 'z' then Some((Bevy.KeyLetter(c), {}))
    else if 'A' <= c <= 'Z' then Some((Bevy.KeyLetter(Lower(c)), shift))
    else if '0' <= c <= '9' then Some((Bevy.Digit(c as int - '0' as int), {}))
    else match c
      case '!' => Some((Bevy.Digit(1), shift))
      case '@' => Some((Bevy.Digit(2), shift))
      case '#' => Some((Bevy.Digit(3), shift))
      case '$' => Some((Bevy.Digit(4), shift))
      case '%' => Some((Bevy.Digit(5), shift))
      case '^' => Some((Bevy.Digit(6), shift))
      case '&' => Some((Bevy.Digit(7), shift))
      case '*' => Some((Bevy.Digit(8), shift))
      case '(' => Some((Bevy.Digit(9), shift))
      case ')' => Some((Bevy.Digit(0), shift))
      // The table gives '-' an implied SHIFT and has no row for '_'.
      case '-' => Some((Bevy.Minus, shift))
      case '[' => Some((Bevy.BracketLeft, {}))
      case ']' => Some((Bevy.BracketRight, {}))
      case '{' => Some((Bevy.BracketLeft, shift))
      case '}' => Some((Bevy.BracketRight, shift))
      case ',' => Some((Bevy.Comma, {}))
      case '=' => Some((Bevy.Equal, {}))
      case '<' => Some((Bevy.Comma, shift))
      case '+' => Some((Bevy.Equal, shift))
      case '.' => Some((Bevy.Period, {}))
      case '>' => Some((Bevy.Period, shift))
      case '\'' => Some((Bevy.Quote, {}))
      case '"' => Some((Bevy.Quote, shift))
      case ';' => Some((Bevy.Semicolon, {}))
      case ':' => Some((Bevy.Semicolon, shift))
      case '/' => Some((Bevy.Slash, {}))
      case '?' => Some((Bevy.Slash, shift))
      case ' ' => Some((Bevy.Space, {}))
      case _ => None
  }

  /** The function keys the tables know: F1 to F20 and F31 to F35. */
  predicate MappedFunctionKey(n: nat) {
    1 <= n <= 20 || 31 <= n <= 35
  }

  function ModifierKeyCode(m: Crossterm.ModifierKeyCode): (r: Option<Bevy.KeyCode>)
    ensures r.Some? ==> Bevy.IsModifierKeyCode(r.value)
    ensures r.None? <==> m.IsoLevel3Shift? || m.IsoLevel5Shift?
  {
    match m
    case LeftShift => Some(Bevy.ShiftLeft)
    case LeftControl => Some(Bevy.ControlLeft)
    case LeftAlt => Some(Bevy.AltLeft)
    case LeftSuper => Some(Bevy.SuperLeft)
    case LeftHyper => Some(Bevy.KeyCode.Hyper)
    case LeftMeta => Some(Bevy.KeyCode.Meta)
    case RightShift => Some(Bevy.ShiftRight)
    case RightControl => Some(Bevy.ControlRight)
    case RightAlt => Some(Bevy.AltRight)
    case RightSuper => Some(Bevy.SuperRight)
    case RightHyper => Some(Bevy.KeyCode.Hyper)
    case RightMeta => Some(Bevy.KeyCode.Meta)
    case IsoLevel3Shift => None
    case IsoLevel5Shift => None
  }

  /** `to_bevy_keycode`: the physical key and the modifier bits the code implies. */
  function ToBevyKeyCode(code: Crossterm.KeyCode): (r: Option<(Bevy.KeyCode, Mods)>)
    ensures r.Some? ==> r.value.1 == {} || r.value.1 == {Crossterm.Shift}
    ensures r.Some? ==> (Bevy.IsModifierKeyCode(r.value.0) <==> code.Modifier?)
    ensures code.Null? || code.KeypadBegin? ==> r.None?
    ensures code.F? ==> (r.Some? <==> MappedFunctionKey(code.n))
  {
    match code
    case Backspace => Some((Bevy.KeyCode.Backspace, {}))
    case Enter => Some((Bevy.KeyCode.Enter, {}))
    case Tab => Some((Bevy.KeyCode.Tab, {}))
    case BackTab => Some((Bevy.KeyCode.Tab, {Crossterm.Shift}))
    case Esc => Some((Bevy.KeyCode.Escape, {}))
    case Null => None
    case KeypadBegin => None
    case F(n) => if MappedFunctionKey(n) then Some((Bevy.KeyCode.F(n), {})) else None
    case Char(c) => CharKeyCode(c)
    case Modifier(m) =>
      match ModifierKeyCode(m)
      case Some(k) => Some((k, {}))
      case None => None
  }

  /** `to_bevy_key`: the logical key. Every character has one. */
  function ToBevyKey(code: Crossterm.KeyCode): (r: Option<Bevy.Key>)
    ensures code.Char? ==> r == Some(Bevy.Character(code.c))
    ensures code.Null? || code.KeypadBegin? ==> r.None?
    ensures code.F? ==> (r.Some? <==> MappedFunctionKey(code.n))
    ensures code.Modifier? ==> (r.None? <==> code.modifier.IsoLevel5Shift?)
  {
    match code
    case Backspace => Some(Bevy.Key.Backspace)
    case Enter => Some(Bevy.Key.Enter)
    case Tab => Some(Bevy.Key.Tab)
    case BackTab => Some(Bevy.Key.Tab)
    case Esc => Some(Bevy.Key.Escape)
    case Null => None
    case KeypadBegin => None
    case F(n) => if MappedFunctionKey(n) then Some(Bevy.Key.F(n)) else None
    case Char(c) => Some(Bevy.Character(c))
    case Modifier(m) =>
      match m
      case LeftShift => Some(Bevy.Shift)
      case LeftControl => Some(Bevy.Control)
      case LeftAlt => Some(Bevy.Alt)
      case LeftSuper => Some(Bevy.Super)
      case LeftHyper => Some(Bevy.Key.Hyper)
      case LeftMeta => Some(Bevy.Key.Meta)
      case RightShift => Some(Bevy.Shift)
      case RightControl => Some(Bevy.Control)
      case RightAlt => Some(Bevy.Alt)
      case RightSuper => Some(Bevy.Super)
      case RightHyper => Some(Bevy.Key.Hyper)
      case RightMeta => Some(Bevy.Key.Meta)
      case IsoLevel3Shift => Some(Bevy.AltGraph)
      case IsoLevel5Shift => None
  }

  /** The button state a transition kind is reported as: a repeat counts as a release. */
  function StateOf(kind: Crossterm.KeyEventKind): Bevy.ButtonState {
    if kind.Press? then Bevy.Pressed else Bevy.Released
  }

  /** `key_event_to_bevy`: an event is mappable when both tables know its code. */
  function KeyEventToBevy(ev: Crossterm.KeyEvent): (r: Option<Translated>)
    ensures r.Some? <==> ToBevyKeyCode(ev.code).Some? && ToBevyKey(ev.code).Some?
    ensures r.Some? ==> r.value.input.state == (if ev.kind.Press? then Bevy.Pressed else Bevy.Released)
    ensures r.Some? ==> (r.value.repeated <==> ev.kind.Repeat?)
    ensures r.Some? ==> (r.value.input.keyCode == ToBevyKeyCode(ev.code).value.0
                         && r.value.input.logicalKey == ToBevyKey(ev.code).value)
    ensures r.Some? ==> r.value.mods == ev.modifiers + ToBevyKeyCode(ev.code).value.1
  {
    match (ToBevyKeyCode(ev.code), ToBevyKey(ev.code))
    case (Some((keyCode, implied)), Some(logicalKey)) =>
      Some(Translated(Bevy.KeyboardInput(keyCode, logicalKey, StateOf(ev.kind)),
                      ev.modifiers + implied, ev.kind.Repeat?))
    case _ => None
  }

  /** `crossterm_modifier_to_bevy_key` on the single bit it is always given. */
  function CrosstermModifierToBevyKey(m: Crossterm.KeyModifier): Bevy.Key {
    match m
    case Shift => Bevy.Shift
    case Control => Bevy.Control
    case Alt => Bevy.Alt
    case Super => Bevy.Super
    case Hyper => Bevy.Key.Hyper
    case Meta => Bevy.Key.Meta
  }

  predicate IsModifierKey(k: Bevy.Key) {
    k.Shift? || k.Control? || k.Alt? || k.Super? || k.Hyper? || k.Meta?
  }

  /** `modifier_to_bevy`, which panics on any key that is not one of the six modifiers. */
  function ModifierToBevy(k: Bevy.Key, state: Bevy.ButtonState): (r: Bevy.KeyboardInput)
    requires IsModifierKey(k)
    ensures r.logicalKey == k && r.state == state
    ensures Bevy.IsModifierKeyCode(r.keyCode)
  {
    var keyCode := match k
      case Control => Bevy.ControlLeft
      case Shift => Bevy.ShiftLeft
      case Alt => Bevy.AltLeft
      case Hyper => Bevy.KeyCode.Hyper
      case Meta => Bevy.KeyCode.Meta
      case Super => Bevy.SuperLeft;
    Bevy.KeyboardInput(keyCode, k, state)
  }

  /** The synthetic event for one modifier bit. */
  function ModifierEvent(m: Crossterm.KeyModifier, state: Bevy.ButtonState): (r: Bevy.KeyboardInput)
    ensures r.state == state && Bevy.IsModifierKeyCode(r.keyCode)
  {
    ModifierToBevy(CrosstermModifierToBevyKey(m), state)
  }

  /** Distinct modifier bits give distinct synthetic keys. */
  lemma ModifierEventInjective(m1: Crossterm.KeyModifier, s1: Bevy.ButtonState,
                               m2: Crossterm.KeyModifier, s2: Bevy.ButtonState)
    ensures ModifierEvent(m1, s1) == ModifierEvent(m2, s2) <==> m1 == m2 && s1 == s2
  {
  }

  /** A capital letter and its lower-case letter share the physical key; only the capital
      implies SHIFT. */
  lemma ShiftedLetter(c: char)
    requires 'A' <= c <= 'Z'
    ensures ToBevyKeyCode(Crossterm.Char(c)) == Some((Bevy.KeyLetter(Lower(c)), {Crossterm.Shift}))
    ensures ToBevyKeyCode(Crossterm.Char(Lower(c))) == Some((Bevy.KeyLetter(Lower(c)), {}))
  {
  }

  /** Sample character rows: '!' is SHIFT+Digit1, 'a' is KeyA, and '_' has no row. */
  lemma CharRows()
    ensures ToBevyKeyCode(Crossterm.Char('!')) == Some((Bevy.Digit(1), {Crossterm.Shift}))
    ensures ToBevyKeyCode(Crossterm.Char('a')) == Some((Bevy.KeyLetter('a'), {}))
    ensures ToBevyKeyCode(Crossterm.Char('_')).None?
  {
  }

  /** BackTab is SHIFT+Tab; F5 maps and F21 does not. */
  lemma CodeRows()
    ensures ToBevyKeyCode(Crossterm.BackTab) == Some((Bevy.KeyCode.Tab, {Crossterm.Shift}))
    ensures ToBevyKeyCode(Crossterm.F(5)) == Some((Bevy.KeyCode.F(5), {}))
    ensures ToBevyKeyCode(Crossterm.F(21)).None?
  {
  }

  /** A modifier code maps to its own key; IsoLevel3Shift has no physical key. */
  lemma ModifierRows()
    ensures ToBevyKeyCode(Crossterm.Modifier(Crossterm.LeftShift)) == Some((Bevy.ShiftLeft, {}))
    ensures ToBevyKeyCode(Crossterm.Modifier(Crossterm.IsoLevel3Shift)).None?
  {
  }
}
