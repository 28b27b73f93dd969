/** The text an integer conversion should have, after section 7.21.6.1 of ISO C11, and that the printer writes it. */
module StandardText {
  import opened Common
  import opened Sequences
  import opened Text
  import opened Digits
  import opened NumberFormat
  import opened FormatSpec
  import opened Codes

  /** A number in positional notation, most significant digit first. */
  function Numeral(v: nat, base: nat, upper: bool): (s: seq<Char>)
    requires 2 <= base <= 16
    ensures |s| > 0
    decreases v
  {
    (if v < base then [] else Numeral(v / base, base, upper))
    + [DigitCode(v % base, upper)]
  }

  lemma DigitsStep(v: nat, base: nat, upper: bool, room: nat)
    requires PrintBase(base) && Places(v, base) <= room
    ensures DigitsOf(v, base, upper, room)
         == [DigitChar(v % base, upper)] + if v < base then [] else DigitsOf(v / base, base, upper, room - 1)
    ensures v >= base ==> Places(v / base, base) <= room - 1
  {
    BelowBase(v, base);
  }

  lemma ReverseStep(d: Char, s: seq<Char>, t: seq<Char>)
    requires Reverse(s) == t
    ensures Reverse([d] + s) == t + [d]
  {
    ReverseFirst(d, s);
  }

  lemma OneDigit(v: nat, base: nat, upper: bool, room: nat)
    requires PrintBase(base) && Places(v, base) <= room && v < base
    ensures Reverse(DigitsOf(v, base, upper, room)) == Numeral(v, base, upper)
  {
    DigitCodes(v % base, upper);
    DigitsStep(v, base, upper, room);
    ReverseStep(DigitChar(v % base, upper), [], []);
  }

  lemma OneMoreDigit(v: nat, base: nat, upper: bool, room: nat)
    requires PrintBase(base) && Places(v, base) <= room && v >= base && room > 1
    requires Reverse(DigitsOf(v / base, base, upper, room - 1)) == Numeral(v / base, base, upper)
    ensures Reverse(DigitsOf(v, base, upper, room)) == Numeral(v, base, upper)
  {
    DigitCodes(v % base, upper);
    DigitsStep(v, base, upper, room);
    ReverseStep(DigitChar(v % base, upper), DigitsOf(v / base, base, upper, room - 1), Numeral(v / base, base, upper));
  }

  lemma {:induction false} NumeralIsReversed(v: nat, base: nat, upper: bool, room: nat)
    requires PrintBase(base) && Places(v, base) <= room
    ensures Reverse(DigitsOf(v, base, upper, room)) == Numeral(v, base, upper)
    decreases room
  {
    if v < base {
      OneDigit(v, base, upper, room);
    } else {
      DigitsStep(v, base, upper, room);
      var q := v / base;
      NumeralIsReversed(q, base, upper, room - 1);
      OneMoreDigit(v, base, upper, room);
    }
  }

  lemma BelowBase(v: nat, base: nat)
    requires base > 0
    ensures v / base == 0 <==> v < base
  {
    assert v == base * (v / base) + v % base;
  }

  /** The sign, or what stands for it. */
  function Sign(v: int, f: Flags): seq<Char> {
    if v < 0 then [Code('-')] else if Plus in f then [Code('+')] else if Space in f then [Code(' ')] else []
  }

  function Magnitude(v: int): nat {
    if v < 0 then -v else v
  }

  /** Digits, none for a 0 with precision 0. */
  function DigitsFor(v: int, base: nat, upper: bool, prec: Option<nat>): seq<Char>
    requires 2 <= base <= 16
  {
    if prec == Some(0) && v == 0 then [] else Numeral(Magnitude(v), base, upper)
  }

  /** Zeros up to the precision; without one, up to the width if the `0` flag asks for it and the `-` flag does not forbid it. */
  function ZerosFor(digits: nat, sign: nat, f: Flags, width: nat, prec: Option<nat>): int {
    if prec.Some? then prec.value - digits
    else if ZeroPad in f && Left !in f then width - sign - digits
    else 0
  }

  function Standard(v: int, base: nat, upper: bool, f: Flags, width: nat, prec: Option<nat>): seq<Char>
    requires 2 <= base <= 16
  {
    var body := StandardBody(v, base, upper, f, width, prec);
    var spaces := Repeat(Code(' '), width - |body|);
    if Left in f then body + spaces else spaces + body
  }

  /** Sign, zeros and digits. */
  function StandardBody(v: int, base: nat, upper: bool, f: Flags, width: nat, prec: Option<nat>): seq<Char>
    requires 2 <= base <= 16
  {
    var sign, digits := Sign(v, f), DigitsFor(v, base, upper, prec);
    sign + (Repeat(Code('0'), ZerosFor(|digits|, |sign|, f, width, prec)) + digits)
  }

  function Given(prec: nat, f: Flags): Option<nat> {
    if Precision in f then Some(prec) else None
  }

  /** Sign, zeros and digits fit the conversion buffer; and no zeros are due to a precision that `-` suppresses. */
  predicate Fits(value: nat, negative: bool, base: nat, prec: nat, width: nat, f: Flags)
    requires PrintBase(base)
  {
    var d, s := DueDigits(value, base, f), if negative || Plus in f || Space in f then 1 else 0;
    && s + d <= 32 && s + prec <= 32
    && (ZeroPad in f && Left !in f ==> width <= 32)
    && (Left in f ==> prec <= d)
  }

  /** What the parser guarantees of the flags, and the source of the sign. */
  predicate Parsed(value: nat, negative: bool, prec: nat, f: Flags) {
    && (negative ==> value > 0) && (Precision !in f ==> prec == 0) && (Precision in f ==> ZeroPad !in f)
  }

  function Value(value: nat, negative: bool): int {
    if negative then -(value as int) else value
  }

  lemma SameSign(value: nat, negative: bool, f: Flags)
    requires negative ==> value > 0
    ensures Sign(Value(value, negative), f) == SignOf(negative, f)
  {
    AsciiCodes();
  }

  lemma SameDigits(value: nat, negative: bool, base: nat, prec: nat, f: Flags)
    requires PrintBase(base) && DueDigits(value, base, f) <= 32 && Parsed(value, negative, prec, f)
    requires !(Precision in f && value == 0)
    ensures Reverse(NumberDigits(value, base, f)) == DigitsFor(Value(value, negative), base, Upper in f, Given(prec, f))
    ensures |NumberDigits(value, base, f)| == DueDigits(value, base, f)
  {
    DigitsShown(value, base, f);
    BufferIsReversed(value, base, Upper in f, NTOA_BUFFER);
    NoPrecisionCase(value, negative, base, prec, f);
  }

  lemma BufferIsReversed(value: nat, base: nat, upper: bool, room: nat)
    requires PrintBase(base) && Places(value, base) <= room == NTOA_BUFFER
    ensures Reverse(DigitsOf(value, base, upper, NTOA_BUFFER)) == Numeral(value, base, upper)
  {
    NumeralIsReversed(value, base, upper, room);
  }

  lemma NoPrecisionCase(value: nat, negative: bool, base: nat, prec: nat, f: Flags)
    requires PrintBase(base) && (negative ==> value > 0) && !(Precision in f && value == 0)
    ensures DigitsFor(Value(value, negative), base, Upper in f, Given(prec, f)) == Numeral(value, base, Upper in f)
    ensures NumberDigits(value, base, f) == DigitsOf(value, base, Upper in f, NTOA_BUFFER)
  {
  }

  lemma SameZeros(d: nat, negative: bool, prec: nat, width: nat, f: Flags)
    requires (Precision !in f ==> prec == 0) && (Precision in f ==> ZeroPad !in f)
    requires d <= 32 && prec <= 32 && (ZeroPad in f && Left !in f ==> width <= 32) && (Left in f ==> prec <= d)
    ensures var z := ZerosFor(d, |SignOf(negative, f)|, f, width, Given(prec, f));
      LeadingZeros(d, negative, prec, width, f) == if z > 0 then z else 0
  {
  }

  /** Zeros and digits together. */
  lemma SameNumber(value: nat, negative: bool, base: nat, prec: nat, width: nat, f: Flags)
    requires PrintBase(base) && Parsed(value, negative, prec, f) && Fits(value, negative, base, prec, width, f)
    ensures var d := NumberDigits(value, base, f);
      var digits := DigitsFor(Value(value, negative), base, Upper in f, Given(prec, f));
      Repeat(ZERO, LeadingZeros(|d|, negative, prec, width, f)) + Reverse(d)
      == Repeat(ZERO, ZerosFor(|digits|, |SignOf(negative, f)|, f, width, Given(prec, f))) + digits
  {
    if Precision in f && value == 0 {
      ZeroDigits(base, prec, f);
    } else {
      SameDigits(value, negative, base, prec, f);
      SameZeros(DueDigits(value, base, f), negative, prec, width, f);
    }
  }

  lemma ZeroDigits(base: nat, prec: nat, f: Flags)
    requires PrintBase(base) && Precision in f
    ensures NumberDigits(0, base, f) == []
    ensures var digits := DigitsFor(0, base, Upper in f, Given(prec, f));
      |digits| == (if prec == 0 then 0 else 1) && Repeat(ZERO, prec - |digits|) + digits == Repeat(ZERO, prec)
  {
    DigitCodes(0, Upper in f);
  }

  lemma SignFits(value: nat, negative: bool, base: nat, prec: nat, width: nat, f: Flags)
    requires PrintBase(base) && Parsed(value, negative, prec, f) && Fits(value, negative, base, prec, width, f)
    ensures ShownSign(|NumberDigits(value, base, f)|, negative, prec, width, f) == SignOf(negative, f)
  {
    DigitsShown(value, base, f);
  }

  lemma SameBody(value: nat, negative: bool, base: nat, prec: nat, width: nat, f: Flags)
    requires PrintBase(base) && Parsed(value, negative, prec, f) && Fits(value, negative, base, prec, width, f)
    ensures Body(NumberDigits(value, base, f), negative, prec, width, f)
         == StandardBody(Value(value, negative), base, Upper in f, f, width, Given(prec, f))
  {
    var d, sign := NumberDigits(value, base, f), SignOf(negative, f);
    var z := Repeat(ZERO, LeadingZeros(|d|, negative, prec, width, f));
    AsciiCodes();
    assert Code('0') == ZERO;
    SameSign(value, negative, f);
    SignFits(value, negative, base, prec, width, f);
    SameNumber(value, negative, base, prec, width, f);
    assert sign + z + Reverse(d) == sign + (z + Reverse(d));
  }

  /** Zeros that fill the width leave nothing to spaces. */
  lemma ZerosFill(v: int, base: nat, upper: bool, f: Flags, width: nat, prec: Option<nat>)
    requires 2 <= base <= 16 && ZeroPad in f && Left !in f && prec == None
    ensures |StandardBody(v, base, upper, f, width, prec)| >= width
  {
  }

  /** Where it fits, the printer writes the standard's text. */
  lemma PrintsStandard(value: nat, negative: bool, base: nat, prec: nat, width: nat, f: Flags)
    requires PrintBase(base) && Hash !in f
    requires Parsed(value, negative, prec, f) && Fits(value, negative, base, prec, width, f)
    ensures NumberText(value, negative, base, prec, width, f)
         == Standard(Value(value, negative), base, Upper in f, f, width, Given(prec, f))
  {
    var body := StandardBody(Value(value, negative), base, Upper in f, f, width, Given(prec, f));
    Layout(value, negative, base, prec, width, f);
    SameBody(value, negative, base, prec, width, f);
    SameSpaces(body, width, f, Value(value, negative), base, Given(prec, f));
  }

  lemma SameSpaces(body: seq<Char>, width: nat, f: Flags, v: int, base: nat, prec: Option<nat>)
    requires 2 <= base <= 16 && body == StandardBody(v, base, Upper in f, f, width, prec)
    requires ZeroPad in f ==> prec == None
    ensures LayoutText(body, width, f) == Standard(v, base, Upper in f, f, width, prec)
  {
    if ZeroPad in f && Left !in f {
      ZerosFill(v, base, Upper in f, f, width, prec);
    }
    assert Code(' ') == SPACE;
    assert Repeat(SPACE, width - |body|) + body == LayoutText(body, width, f) || Left in f;
  }
}
