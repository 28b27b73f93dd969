/** The character codes of the model are those of ASCII. */
module Codes {
  import opened Text
  import opened Digits
  import opened NumberFormat
  import opened FormatSpec

  lemma AsciiCodes()
    ensures PERCENT == Code('%') && STAR == Code('*') && DOT == Code('.') && HASH == Code('#')
    ensures ZERO == Code('0') && NINE == Code('9') && MINUS == Code('-') && PLUS == Code('+') && SPACE == Code(' ')
    ensures UPPER_A == Code('A') && LOWER_A == Code('a') && UPPER_X == Code('X') && LOWER_X == Code('x')
    ensures LOWER_B == Code('b') && LOWER_C == Code('c') && LOWER_D == Code('d') && LOWER_H == Code('h') && LOWER_I == Code('i')
    ensures LOWER_J == Code('j') && LOWER_L == Code('l') && LOWER_O == Code('o') && LOWER_P == Code('p') && LOWER_S == Code('s')
    ensures LOWER_T == Code('t') && LOWER_U == Code('u') && LOWER_Z == Code('z')
    ensures TAB == Code('\t') && NEWLINE == Code('\n') && NUL == 0 && BACKSPACE == 8
  {
  }

  lemma PercentCode()
    ensures PERCENT == Code('%')
  {
  }

  /** The digit table of the other printer. */
  function DigitCode(d: nat, upper: bool): Char
    requires d < 16
  {
    Ascii(if upper then "0123456789ABCDEF" else "0123456789abcdef")[d]
  }

  lemma DigitCodes(d: nat, upper: bool)
    requires d < 16
    ensures DigitChar(d, upper) == DigitCode(d, upper)
  {
  }
}
