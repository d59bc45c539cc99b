/** The optional value returned by the translation tables. */
module Options {
  datatype Option<+T> = None | Some(value: T)
}

/** The terminal side: crossterm's key events as the engine receives them. */
module Crossterm {

  /** A modifier key reported on its own (kitty protocol). */
  datatype ModifierKeyCode =
    | LeftShift | LeftControl | LeftAlt | LeftSuper | LeftHyper | LeftMeta
    | RightShift | RightControl | RightAlt | RightSuper | RightHyper | RightMeta
    | IsoLevel3Shift | IsoLevel5Shift

  /** A representative subset of crossterm's key codes. */
  datatype KeyCode =
    | Backspace | Enter | Tab | BackTab | Esc | Null | KeypadBegin
    | F(n: nat)
    | Char(c: char)
    | Modifier(modifier: ModifierKeyCode)

  datatype KeyEventKind = Press | Repeat | Release

  /** One bit of crossterm's `KeyModifiers` bit set. */
  datatype KeyModifier = Shift | Control | Alt | Super | Hyper | Meta

  /** The order in which a `KeyModifiers` value yields its bits (lowest bit first). */
  const ModifierOrder: seq<KeyModifier> := [Shift, Control, Alt, Super, Hyper, Meta]

  lemma ModifierOrderComplete(m: KeyModifier)
    ensures m in ModifierOrder
  {
  }

  /** A raw terminal key event: code, reported modifier mask and transition kind. */
  datatype KeyEvent = KeyEvent(code: KeyCode, modifiers: set<KeyModifier>, kind: KeyEventKind)
}

/** The consumer side: Bevy's keyboard input events. */
module Bevy {

  /** Physical key codes; `KeyLetter('a')` stands for `KeyA`, `Digit(1)` for `Digit1`. */
  datatype KeyCode =
    | KeyLetter(letter: char)
    | Digit(digit: nat)
    | Minus | Equal | BracketLeft | BracketRight | Comma | Period | Quote | Semicolon | Slash | Space
    | Backspace | Enter | Tab | Escape
    | F(n: nat)
    | ShiftLeft | ControlLeft | AltLeft | SuperLeft | Hyper | Meta
    | ShiftRight | ControlRight | AltRight | SuperRight

  /** Logical keys; `Character(c)` stands for `Key::Character` holding the one character `c`. */
  datatype Key =
    | Character(c: char)
    | Backspace | Enter | Tab | Escape
    | F(n: nat)
    | Shift | Control | Alt | Super | Hyper | Meta | AltGraph

  datatype ButtonState = Pressed | Released

  /** `KeyboardInput` without its window handle, which is the same for every event. Equality
      (and hashing) covers the state, so a pressed and a released A are different values. */
  datatype KeyboardInput = KeyboardInput(keyCode: KeyCode, logicalKey: Key, state: ButtonState)

  /** The key codes that `modifier_to_bevy` and the modifier rows of the table produce. */
  predicate IsModifierKeyCode(k: KeyCode) {
    k.ShiftLeft? || k.ControlLeft? || k.AltLeft? || k.SuperLeft? || k.Hyper? || k.Meta?
    || k.ShiftRight? || k.ControlRight? || k.AltRight? || k.SuperRight?
  }
}
