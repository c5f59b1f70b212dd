/** Key-event vocabulary the modifyOtherKeys decoder builds on: the modifier
    set, the key codes and the key-press event. These types are declared
    outside xterm.go; only what the decoder relies on is modelled here. */
module Keys {
  import opened GoRunes

  /** The modifier set, a bitmask. Its Go width is declared outside xterm.go,
      so it is modelled as an unbounded natural number. */
  type KeyMod = nat

  /** The Shift bit: the largest modifier value that still reports literal text. */
  const ModShift: KeyMod := 1

  /** The C0 control code points the decoder treats specially. */
  const BS: int := 8
  const HT: int := 9
  const CR: int := 13
  const ESC: int := 27
  const DEL: int := 127

  /** A key code: either a code point carried as is, or one of the symbolic
      keys, which are distinct from every code point. */
  datatype KeyCode =
    | RuneCode(r: int)
    | KeyBackspace
    | KeyTab
    | KeyEnter
    | KeyEscape

  /** A key press: modifiers, key code and the literal text it types, as the
      bytes of a Go string (empty when there is none). */
  datatype KeyPressMsg = KeyPressMsg(mod: KeyMod, code: KeyCode, text: seq<Byte>)

  /** One of the five control characters that decode to a symbolic key. */
  predicate IsControl(r: int) {
    r == BS || r == HT || r == CR || r == ESC || r == DEL
  }
}
