/** Characters of the two text consoles. */
module Text {
  /** A byte of text; the source's `char` is signed. */
  type Char = x: int | 0 <= x < 256

  const NUL: Char := 0
  const BACKSPACE: Char := 8
  const TAB: Char := 9
  const NEWLINE: Char := 10
  const SPACE: Char := 32

  /** The code of a character. */
  function Code(c: char): Char {
    c as int % 0x100
  }

  /** The codes of the characters of a string. */
  function Ascii(s: string): (r: seq<Char>)
    ensures |r| == |s| && forall i | 0 <= i < |s| :: r[i] == s[i] as int % 0x100
  {
    seq(|s|, i requires 0 <= i < |s| => s[i] as int % 0x100)
  }
}
