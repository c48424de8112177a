/** The characters that several parts of the editor look for. */
module Characters {
  import opened FlatText

  const TAB: byte := 0x09
  const SPACE: byte := 0x20

  /** isasciispace(). */
  predicate IsSpace(c: byte): (b: bool)
    ensures b <==> c == 0x20 || c == 0x0D || c == 0x0C || c == 0x0B || c == 0x0A || c == 0x09
  {
    c == SPACE || 0x09 <= c <= 0x0D
  }
}
