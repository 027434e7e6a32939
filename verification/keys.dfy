/** Decoded keyboard input.  The Java class `InputChar` and the native table
    that maps curses key codes to its constants are not part of this model,
    so the special keys are named abstractly and compared by equality, as
    `InputChar.equals` compares codes. */
module Keys {

  datatype Key =
    | Up | Down | Left | Right
    | Home | End | PageUp | PageDown
    | Escape | Tab
    | Char(c: char)   // a plain (non-special) character
    | Other(code: int) // any other special code

  predicate IsSpecial(k: Key) {
    !k.Char?
  }

  const Enter: Key := Char('\n')
  const Space: Key := Char(' ')
}
