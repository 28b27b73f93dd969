/** Everyday formats, spelled out. */
module PlainTexts {
  import opened Common
  import opened Arithmetic
  import opened Sequences
  import opened Text
  import opened Digits
  import opened NumberFormat
  import opened NumberReading
  import opened FormatSpec
  import opened PrintfLaws
  import opened Codes
  import opened StandardText
  import opened DirectiveLaws
  import opened RenderLaws

  lemma {:induction false} PlacesBelow(v: nat, base: nat, n: nat)
    requires PrintBase(base) && n > 0 && v < Power(base, n)
    ensures Places(v, base) <= n
    decreases n
  {
    if v / base != 0 {
      QuotientBelow(v, base, Power(base, n - 1));
      PlacesBelow(v / base, base, n - 1);
    }
  }

  /** A word has at most 22 digits in base 8, 20 in base 10 and 16 in base 16. */
  lemma WordPlaces(v: nat, base: nat)
    requires v < SIZE_VALUES && (base == 8 || base == 10 || base == 16)
    ensures Places(v, base) <= 22
  {
    if base == 10 {
      assert Power(10, 4) == 10000;
      PowerAdds(10, 4, 4);
      PowerAdds(10, 8, 8);
      PowerAdds(10, 16, 4);
      PlacesBelow(v, 10, 20);
    } else if base == 16 {
      assert Power(16, 4) == 0x1_0000;
      PowerAdds(16, 4, 4);
      PowerAdds(16, 8, 8);
      PlacesBelow(v, 16, 16);
    } else {
      assert Power(8, 4) == 0x1000;
      PowerAdds(8, 4, 4);
      PowerAdds(8, 8, 8);
      PowerAdds(8, 16, 4);
      PowerAdds(8, 20, 2);
      assert Power(8, 2) == 64;
      PlacesBelow(v, 8, 22);
    }
  }

  /** Sign and digits. */
  function Signed10(v: int): seq<Char> {
    (if v < 0 then [Code('-')] else []) + Numeral(Magnitude(v), 10, false)
  }

  /** Without flags, width and precision the standard's text is sign and digits. */
  lemma StandardPlain(v: int, base: nat, upper: bool, f: Flags)
    requires 2 <= base <= 16 && f == {}
    ensures Standard(v, base, upper, f, 0, None) == (if v < 0 then [Code('-')] else []) + Numeral(Magnitude(v), base, upper)
  {
    var body := StandardBody(v, base, upper, f, 0, None);
    assert body == (if v < 0 then [Code('-')] else []) + Numeral(Magnitude(v), base, upper);
    assert Repeat(Code(' '), 0 - |body|) + body == body;
  }

  /** A directive without flags, width and precision. */
  function Bare(size: Size, conv: Char): Spec {
    Spec([], Absent, None, size, conv)
  }

  lemma BareEncoded(size: Size, conv: Char)
    ensures Encode(Bare(size, conv)) == SizeCodes(size) + [conv]
    ensures StarArgs(Bare(size, conv)) == [] && SeenFlags(Bare(size, conv)) == {} && GivenPrec(Bare(size, conv)) == None
  {
    assert FlagCodes([]) == [];
  }

  /** A format that is just a directive without stars. */
  lemma AloneText(fmt: seq<Char>, s: Spec, args: seq<Arg>, text: seq<Char>, rest: seq<Arg>)
    requires Valid(s) && StarArgs(s) == [] && fmt == [Code('%')] + Encode(s) && Converted(s, args) == Some((text, rest))
    ensures Render(fmt, 0, args) == Some(text)
  {
    assert [] + args == args;
    Alone(fmt, s, args, args);
  }

  lemma BareIsValid(s: Spec)
    requires s == Bare(s.size, s.conv) && IsConversion(s.conv)
    ensures Valid(s)
  {
  }

  lemma BareAlone(fmt: seq<Char>, s: Spec, args: seq<Arg>, text: seq<Char>)
    requires s == Bare(s.size, s.conv) && IsConversion(s.conv) && fmt == [Code('%')] + SizeCodes(s.size) + [s.conv]
    requires Converted(s, args) == Some((text, []))
    ensures Render(fmt, 0, args) == Some(text)
  {
    BareEncoded(s.size, s.conv);
    BareIsValid(s);
    assert fmt == [Code('%')] + Encode(s);
    AloneText(fmt, s, args, text, []);
  }

  lemma SignedPlain(s: Spec, v: int)
    requires s == Bare(s.size, s.conv)
    ensures Standard(v, 10, false, SeenFlags(s), WidthOf(s.width), GivenPrec(s)) == Signed10(v)
  {
    BareEncoded(s.size, s.conv);
    StandardPlain(v, 10, false, {});
  }

  lemma BareSignedText(s: Spec, v: int, all: seq<Arg>, text: seq<Char>)
    requires (s.conv == Code('d') || s.conv == Code('i')) && s == Bare(s.size, s.conv) && InSigned(v, s.size)
    requires all == [Word(WordOf(v))] + [] && text == Signed10(v)
    ensures Converted(s, all) == Some((text, []))
  {
    BareFits(s, Magnitude(v), v < 0, 10, IntegerFlags(s.conv, FlagsOf(s)));
    SignedPlain(s, v);
    SignedAs(s, v, all, [], text);
  }

  /** `%d`, `%hd`, `%ld` and so on: for every value of the type, its sign and digits. */
  lemma BareSigned(fmt: seq<Char>, s: Spec, v: int, args: seq<Arg>, text: seq<Char>)
    requires (s.conv == Code('d') || s.conv == Code('i')) && s == Bare(s.size, s.conv) && InSigned(v, s.size)
    requires fmt == [Code('%')] + SizeCodes(s.size) + [s.conv] && args == [Word(WordOf(v))] && text == Signed10(v)
    ensures Render(fmt, 0, args) == Some(text)
  {
    BareSignedText(s, v, args, text);
    BareAlone(fmt, s, args, text);
  }

  lemma BareFits(s: Spec, value: nat, negative: bool, base: nat, g: Flags)
    requires s.flags == [] && s.width == Absent && s.prec == None && value < SIZE_VALUES
    requires (base == 8 || base == 10 || base == 16) && g == IntegerFlags(s.conv, FlagsOf(s))
    ensures Fits(value, negative, base, 0, 0, g)
  {
    WordPlaces(value, base);
  }

  predicate IsPlainUnsigned(conv: Char) {
    conv == Code('u') || conv == Code('x') || conv == Code('X') || conv == Code('o')
  }

  lemma PlainUnsigned(conv: Char)
    requires IsPlainUnsigned(conv)
    ensures IsConversion(conv) && IsUnsigned(conv) && (BaseIn(conv) == 8 || BaseIn(conv) == 10 || BaseIn(conv) == 16)
    ensures forall v: nat :: UnsignedDigits(v, conv) == Numeral(v, BaseIn(conv), conv == Code('X'))
  {
  }

  /** The digits of a bare unsigned conversion. */
  function UnsignedDigits(v: nat, conv: Char): seq<Char> {
    Numeral(v, if conv == Code('u') then 10 else if conv == Code('o') then 8 else 16, conv == Code('X'))
  }

  lemma UnsignedPlain(s: Spec, v: nat, base: nat, upper: bool)
    requires s == Bare(s.size, s.conv) && (base == 8 || base == 10 || base == 16)
    ensures Standard(v, base, upper, SeenFlags(s) - {Plus, Space}, WidthOf(s.width), GivenPrec(s)) == Numeral(v, base, upper)
  {
    BareEncoded(s.size, s.conv);
    assert SeenFlags(s) - {Plus, Space} == {};
    StandardPlain(v, base, upper, {});
    assert [] + Numeral(v, base, upper) == Numeral(v, base, upper);
  }

  lemma BareUnsignedText(s: Spec, v: nat, all: seq<Arg>, text: seq<Char>)
    requires IsPlainUnsigned(s.conv) && s == Bare(s.size, s.conv) && InUnsigned(v, s.size)
    requires all == [Word(WordOf(v))] + [] && text == UnsignedDigits(v, s.conv)
    ensures Converted(s, all) == Some((text, []))
  {
    var base, upper := BaseIn(s.conv), s.conv == Code('X');
    PlainUnsigned(s.conv);
    BareIsValid(s);
    BareFits(s, v, false, base, IntegerFlags(s.conv, FlagsOf(s)));
    UnsignedPlain(s, v, base, upper);
    UnsignedAs(s, v, all, [], base, upper, text);
  }

  /** `%u`, `%x`, `%X`, `%o` and their sizes: the digits in that base, `%X` in capitals. */
  lemma BareUnsigned(fmt: seq<Char>, s: Spec, v: nat, args: seq<Arg>, text: seq<Char>)
    requires IsPlainUnsigned(s.conv) && s == Bare(s.size, s.conv) && InUnsigned(v, s.size)
    requires fmt == [Code('%')] + SizeCodes(s.size) + [s.conv] && args == [Word(v)] && text == UnsignedDigits(v, s.conv)
    ensures Render(fmt, 0, args) == Some(text)
  {
    assert args == [Word(WordOf(v))] + [];
    PlainUnsigned(s.conv);
    BareUnsignedText(s, v, args, text);
    BareAlone(fmt, s, args, text);
  }

  /** `%d` of every `int` and `%ld` of every `long` read back as the value. */
  lemma DecimalReadsBack(fmt: seq<Char>, size: Size, v: int, args: seq<Arg>)
    requires (fmt == [Code('%'), Code('d')] && size == Default) || (fmt == [Code('%'), Code('l'), Code('d')] && size == Lng)
    requires InSigned(v, size) && args == [Word(WordOf(v))]
    ensures Render(fmt, 0, args).Some? && ReadText(Render(fmt, 0, args).value, 10) == v
  {
    var text := Signed10(v);
    assert fmt == [Code('%')] + SizeCodes(size) + [Code('d')];
    BareSigned(fmt, Bare(size, Code('d')), v, args, text);
    SignedDigitsRead(v, Numeral(Magnitude(v), 10, false));
  }

  lemma SignedDigitsRead(v: int, d: seq<Char>)
    requires d == Numeral(Magnitude(v), 10, false)
    ensures ReadText((if v < 0 then [Code('-')] else []) + d, 10) == v
  {
    AsciiCodes();
    NumeralDenotes(Magnitude(v), d);
    var sign: seq<Char> := if v < 0 then [MINUS] else [];
    assert Repeat(SPACE, 0) + (sign + d) + Repeat(SPACE, 0) == sign + d;
    ReadParts(0, sign, d, 0, 10);
  }

  /** The text of minus five, and of 255 in base 16. */
  lemma InCharacters(v: int, n: nat)
    requires v == -5 && n == 255
    ensures Signed10(v) == [Code('-'), Code('5')]
    ensures UnsignedDigits(n, Code('x')) == [Code('f'), Code('f')] && UnsignedDigits(n, Code('X')) == [Code('F'), Code('F')]
  {
    assert DigitCode(5, false) == Code('5') && DigitCode(15, false) == Code('f') && DigitCode(15, true) == Code('F');
    assert Numeral(5, 10, false) == [Code('5')];
    assert Numeral(n / 16, 16, false) == [Code('f')] && Numeral(n / 16, 16, true) == [Code('F')];
  }
}
