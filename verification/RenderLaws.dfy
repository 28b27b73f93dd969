/** The texts of whole directives, in characters. */
module RenderLaws {
  import opened Common
  import opened Sequences
  import opened Text
  import opened Digits
  import opened NumberFormat
  import opened FormatSpec
  import opened Codes
  import opened StandardText
  import opened DirectiveLaws

  /** The text of a conversion and, behind it, that of the rest of the format. */
  function Followed(c: Option<(seq<Char>, seq<Arg>)>, fmt: seq<Char>, next: nat): Option<seq<Char>> {
    if c.Some? && Render(fmt, next, c.value.1).Some? then Some(c.value.0 + Render(fmt, next, c.value.1).value) else None
  }

  lemma DirectiveAt(fmt: seq<Char>, i: nat, all: seq<Arg>, c: Option<(seq<Char>, seq<Arg>)>, next: nat)
    requires i < |fmt| && fmt[i] == PERCENT && Directive(fmt, i + 1, all) == Outcome(c, next)
    ensures Render(fmt, i, all) == Followed(c, fmt, next)
  {
  }

  lemma ParsedAt(fmt: seq<Char>, i: nat, all: seq<Arg>, d: Parsed, c: Option<(seq<Char>, seq<Arg>)>)
    requires i < |fmt| && fmt[i] == PERCENT && Parse(fmt, i + 1, all) == Some(d)
    requires c == Convert(d.conv, d.f, d.width, d.prec, d.args)
    ensures Render(fmt, i, all) == Followed(c, fmt, d.next)
  {
    ParseThenConvert(fmt, i + 1, all);
    DirectiveAt(fmt, i, all, c, d.next);
  }

  /** What the conversion of a directive gives. */
  function Converted(s: Spec, args: seq<Arg>): Option<(seq<Char>, seq<Arg>)> {
    Convert(s.conv, FlagsOf(s), WidthOf(s.width), PrecOf(s.prec), args)
  }

  /** A directive inside a format: its text, and then the text of the rest with the arguments left. */
  lemma DirectiveRendered(fmt: seq<Char>, i: nat, s: Spec, args: seq<Arg>, all: seq<Arg>, next: nat)
    requires Valid(s) && i < |fmt| && fmt[i] == Code('%') && HeldAt(fmt, i + 1, Encode(s))
    requires all == StarArgs(s) + args && next == i + 1 + |Encode(s)|
    ensures Render(fmt, i, all) == Followed(Converted(s, args), fmt, next)
  {
    PercentCode();
    ParseInvertsEncoding(fmt, i + 1, s, args, all, next);
    RenderParsed(fmt, i, s, args, all, next);
  }

  lemma RenderParsed(fmt: seq<Char>, i: nat, s: Spec, args: seq<Arg>, all: seq<Arg>, next: nat)
    requires i < |fmt| && fmt[i] == PERCENT
    requires Parse(fmt, i + 1, all) == Some(Parsed(s.conv, FlagsOf(s), WidthOf(s.width), PrecOf(s.prec), next, args))
    ensures Render(fmt, i, all) == Followed(Converted(s, args), fmt, next)
  {
    ParsedAt(fmt, i, all, Parse(fmt, i + 1, all).value, Converted(s, args));
  }

  /** A format that is just a directive. */
  lemma Alone(fmt: seq<Char>, s: Spec, args: seq<Arg>, all: seq<Arg>)
    requires Valid(s) && fmt == [Code('%')] + Encode(s) && all == StarArgs(s) + args
    ensures var c := Converted(s, args); Render(fmt, 0, all) == if c.Some? then Some(c.value.0) else None
  {
    assert fmt[1..1 + |Encode(s)|] == Encode(s);
    DirectiveRendered(fmt, 0, s, args, all, |fmt|);
    NothingFollows(fmt, Converted(s, args));
  }

  lemma NothingFollows(fmt: seq<Char>, c: Option<(seq<Char>, seq<Arg>)>)
    ensures Followed(c, fmt, |fmt|) == if c.Some? then Some(c.value.0) else None
  {
    if c.Some? {
      NothingLeft(fmt, c.value.1);
      assert c.value.0 + [] == c.value.0;
    }
  }

  lemma NothingLeft(fmt: seq<Char>, args: seq<Arg>)
    ensures Render(fmt, |fmt|, args) == Some([])
  {
  }

  /** The values of the signed types: `char`, `short`, `int`, and 64 bits for all others. */
  predicate InSigned(v: int, size: Size) {
    match size
    case HalfHalf => -0x80 <= v < 0x80
    case Half => -0x8000 <= v < 0x8000
    case Default => -0x8000_0000 <= v < 0x8000_0000
    case _ => -0x8000_0000_0000_0000 <= v < 0x8000_0000_0000_0000
  }

  predicate InUnsigned(v: int, size: Size) {
    match size
    case HalfHalf => 0 <= v < 0x100
    case Half => 0 <= v < 0x1_0000
    case Default => 0 <= v < 0x1_0000_0000
    case _ => 0 <= v < 0x1_0000_0000_0000_0000
  }

  /** The word a value is passed as. */
  function WordOf(v: int): nat {
    v % 0x1_0000_0000_0000_0000
  }

  lemma SizeRange(s: Spec)
    requires ValidFlags(s.flags)
    ensures HalfRange(FlagsOf(s)) == match s.size
                                     case HalfHalf => 0x80
                                     case Half => 0x8000
                                     case Default => 0x8000_0000
                                     case _ => 0x8000_0000_0000_0000
  {
  }

  lemma WordOfNegative(v: int)
    requires -0x8000_0000_0000_0000 <= v < 0x8000_0000_0000_0000
    ensures WordOf(v) == if v < 0 then v + 0x1_0000_0000_0000_0000 else v
  {
  }

  /** A word holds its value, for each size of type. */
  lemma SignedWord(v: int, half: nat, k: nat)
    requires half > 0 && 0 <= v + half && v < half <= 0x8000_0000_0000_0000
    requires (half + half) * k == 0x1_0000_0000_0000_0000
    ensures Signed(WordOf(v), half) == v
  {
    WordOfNegative(v);
    SignedInverts(v, half, if v >= 0 then 0 else k);
  }

  /** How often the type fits into a word. */
  function TimesInWord(size: Size): (k: nat) {
    match size
    case HalfHalf => 0x100_0000_0000_0000
    case Half => 0x1_0000_0000_0000
    case Default => 0x1_0000_0000
    case _ => 1
  }

  function GivenPrec(s: Spec): Option<nat> {
    if s.prec.Some? then Some(PrecOf(s.prec)) else None
  }

  /** The standard's text does not look at other flags. */
  lemma OtherFlags(v: int, base: nat, upper: bool, f: Flags, g: Flags, width: nat, prec: Option<nat>)
    requires 2 <= base <= 16
    requires (Left in f <==> Left in g) && (v < 0 || ((Plus in f <==> Plus in g) && (Space in f <==> Space in g)))
    requires prec.Some? || (ZeroPad in f <==> ZeroPad in g)
    ensures Standard(v, base, upper, f, width, prec) == Standard(v, base, upper, g, width, prec)
  {
  }

  /** The flags an integer conversion sees: those written, and `-` for a negative star. */
  function SeenFlags(s: Spec): Flags {
    WidthFlags(s)
  }

  lemma SignedArg(s: Spec, v: int)
    requires ValidFlags(s.flags) && InSigned(v, s.size) && (s.conv == Code('d') || s.conv == Code('i'))
    ensures IntegerSpecifier(s.conv) && IntegerArg(s.conv, WordOf(v), FlagsOf(s)) == v && BaseOf(s.conv) == 10
  {
    AsciiCodes();
    SizeRange(s);
    SignedWord(v, HalfRange(FlagsOf(s)), TimesInWord(s.size));
  }

  lemma SignedFlags(s: Spec)
    requires Valid(s) && (s.conv == Code('d') || s.conv == Code('i'))
    ensures var g := IntegerFlags(s.conv, FlagsOf(s));
      && Hash !in g && Upper !in g && (Precision in g ==> ZeroPad !in g) && (Precision in g <==> s.prec.Some?)
      && (Left in g <==> Left in SeenFlags(s)) && (Plus in g <==> Plus in SeenFlags(s)) && (Space in g <==> Space in SeenFlags(s))
      && (s.prec.Some? || (ZeroPad in g <==> ZeroPad in SeenFlags(s)))
  {
    AsciiCodes();
  }

  lemma SignedText(s: Spec, v: int, g: Flags, prec: nat, width: nat)
    requires Valid(s) && (s.conv == Code('d') || s.conv == Code('i')) && g == IntegerFlags(s.conv, FlagsOf(s))
    requires prec == PrecOf(s.prec) && width == WidthOf(s.width) && Fits(Abs(v), v < 0, 10, prec, width, g)
    ensures NumberText(Abs(v), v < 0, 10, prec, width, g) == Standard(v, 10, false, SeenFlags(s), width, GivenPrec(s))
  {
    SignedFlags(s);
    PrintsStandard(Abs(v), v < 0, 10, prec, width, g);
    OtherFlags(v, 10, false, g, SeenFlags(s), width, GivenPrec(s));
  }

  /** `%d` and `%i` with any flags, width, precision and size print the standard's text of the value where that fits. */
  lemma SignedConversion(s: Spec, v: int, args: seq<Arg>)
    requires Valid(s) && (s.conv == Code('d') || s.conv == Code('i')) && InSigned(v, s.size)
    requires Fits(Abs(v), v < 0, 10, PrecOf(s.prec), WidthOf(s.width), IntegerFlags(s.conv, FlagsOf(s)))
    ensures Converted(s, [Word(WordOf(v))] + args)
         == Some((Standard(v, 10, false, SeenFlags(s), WidthOf(s.width), GivenPrec(s)), args))
  {
    SignedArg(s, v);
    SignedText(s, v, IntegerFlags(s.conv, FlagsOf(s)), PrecOf(s.prec), WidthOf(s.width));
    IntegerConverted(s.conv, FlagsOf(s), WidthOf(s.width), PrecOf(s.prec), WordOf(v), args, v,
                     Standard(v, 10, false, SeenFlags(s), WidthOf(s.width), GivenPrec(s)));
  }

  /** The same with the argument list and the text named. */
  lemma SignedAs(s: Spec, v: int, all: seq<Arg>, args: seq<Arg>, text: seq<Char>)
    requires Valid(s) && (s.conv == Code('d') || s.conv == Code('i')) && InSigned(v, s.size)
    requires Fits(Abs(v), v < 0, 10, PrecOf(s.prec), WidthOf(s.width), IntegerFlags(s.conv, FlagsOf(s)))
    requires all == [Word(WordOf(v))] + args
    requires text == Standard(v, 10, false, SeenFlags(s), WidthOf(s.width), GivenPrec(s))
    ensures Converted(s, all) == Some((text, args))
  {
    SignedConversion(s, v, args);
  }

  lemma IntegerConverted(c: Char, f: Flags, width: nat, prec: nat, bits: nat, args: seq<Arg>, v: int, text: seq<Char>)
    requires IntegerSpecifier(c) && IntegerArg(c, bits, f) == v
    requires NumberText(Abs(v), v < 0, BaseOf(c), prec, width, IntegerFlags(c, f)) == text
    ensures Convert(c, f, width, prec, [Word(bits)] + args) == Some((text, args))
  {
    assert ([Word(bits)] + args)[1..] == args;
  }

  /** The base of an unsigned conversion. */
  function BaseIn(conv: Char): nat {
    if conv == Code('x') || conv == Code('X') then 16 else if conv == Code('o') then 8 else if conv == Code('b') then 2 else 10
  }

  predicate IsUnsigned(conv: Char) {
    conv == Code('u') || conv == Code('x') || conv == Code('X') || conv == Code('o') || conv == Code('b')
  }

  lemma UnsignedArg(s: Spec, v: int)
    requires ValidFlags(s.flags) && InUnsigned(v, s.size) && IsUnsigned(s.conv)
    ensures IntegerSpecifier(s.conv) && IntegerArg(s.conv, WordOf(v), FlagsOf(s)) == v && BaseOf(s.conv) == BaseIn(s.conv)
  {
    AsciiCodes();
    SizeRange(s);
  }

  lemma UnsignedFlags(s: Spec)
    requires Valid(s) && IsUnsigned(s.conv) && (s.conv == Code('u') || Hash !in s.flags)
    ensures var g := IntegerFlags(s.conv, FlagsOf(s));
      && Hash !in g && (Upper in g <==> s.conv == Code('X'))
      && (Precision in g ==> ZeroPad !in g) && (Precision in g <==> s.prec.Some?)
      && (Left in g <==> Left in SeenFlags(s)) && Plus !in g && Space !in g
      && (s.prec.Some? || (ZeroPad in g <==> ZeroPad in SeenFlags(s)))
  {
    AsciiCodes();
  }

  /** `%u`, `%x`, `%X`, `%o` and `%b` do the same in their base, and never show a sign. */
  lemma UnsignedConversion(s: Spec, v: nat, args: seq<Arg>)
    requires Valid(s) && IsUnsigned(s.conv) && (s.conv == Code('u') || Hash !in s.flags) && InUnsigned(v, s.size)
    requires PrintBase(BaseIn(s.conv))
    requires Fits(v, false, BaseIn(s.conv), PrecOf(s.prec), WidthOf(s.width), IntegerFlags(s.conv, FlagsOf(s)))
    ensures Converted(s, [Word(WordOf(v))] + args)
         == Some((Standard(v, BaseIn(s.conv), s.conv == Code('X'), SeenFlags(s) - {Plus, Space}, WidthOf(s.width), GivenPrec(s)), args))
  {
    UnsignedArg(s, v);
    UnsignedText(s, v, IntegerFlags(s.conv, FlagsOf(s)), PrecOf(s.prec), WidthOf(s.width));
    IntegerConverted(s.conv, FlagsOf(s), WidthOf(s.width), PrecOf(s.prec), WordOf(v), args, v,
                     Standard(v, BaseIn(s.conv), s.conv == Code('X'), SeenFlags(s) - {Plus, Space}, WidthOf(s.width), GivenPrec(s)));
  }

  lemma UnsignedAs(s: Spec, v: nat, all: seq<Arg>, args: seq<Arg>, base: nat, upper: bool, text: seq<Char>)
    requires Valid(s) && IsUnsigned(s.conv) && (s.conv == Code('u') || Hash !in s.flags) && InUnsigned(v, s.size)
    requires base == BaseIn(s.conv) && PrintBase(base) && (upper <==> s.conv == Code('X'))
    requires Fits(v, false, base, PrecOf(s.prec), WidthOf(s.width), IntegerFlags(s.conv, FlagsOf(s)))
    requires all == [Word(WordOf(v))] + args
    requires text == Standard(v, base, upper, SeenFlags(s) - {Plus, Space}, WidthOf(s.width), GivenPrec(s))
    ensures Converted(s, all) == Some((text, args))
  {
    UnsignedConversion(s, v, args);
  }

  lemma UnsignedText(s: Spec, v: nat, g: Flags, prec: nat, width: nat)
    requires Valid(s) && IsUnsigned(s.conv) && (s.conv == Code('u') || Hash !in s.flags)
    requires PrintBase(BaseIn(s.conv)) && g == IntegerFlags(s.conv, FlagsOf(s))
    requires prec == PrecOf(s.prec) && width == WidthOf(s.width) && Fits(v, false, BaseIn(s.conv), prec, width, g)
    ensures NumberText(v, false, BaseIn(s.conv), prec, width, g)
         == Standard(v, BaseIn(s.conv), s.conv == Code('X'), SeenFlags(s) - {Plus, Space}, width, GivenPrec(s))
  {
    UnsignedFlags(s);
    PrintsStandard(v, false, BaseIn(s.conv), prec, width, g);
    OtherFlags(v, BaseIn(s.conv), s.conv == Code('X'), g, SeenFlags(s) - {Plus, Space}, width, GivenPrec(s));
  }

  /** Spaces up to the width, behind the text after `-`, else before it. */
  function Padded(text: seq<Char>, left: bool, width: nat): seq<Char> {
    var spaces := Repeat(Code(' '), width - |text|);
    if left then text + spaces else spaces + text
  }

  lemma PaddedIs(text: seq<Char>, f: Flags, width: nat)
    ensures Aligned(text, width, f) == Padded(text, Left in f, width)
  {
    AsciiCodes();
  }

  /** `%c` prints the low byte of its argument. */
  lemma CharConversion(s: Spec, b: nat, args: seq<Arg>)
    requires Valid(s) && s.conv == Code('c')
    ensures Converted(s, [Word(b)] + args) == Some((Padded([b % 256], Left in SeenFlags(s), WidthOf(s.width)), args))
  {
    AsciiCodes();
    var f := FlagsOf(s);
    assert Left in f <==> Left in SeenFlags(s);
    assert ([Word(b)] + args)[1..] == args;
    PaddedIs([b % 0x100], f, WidthOf(s.width));
  }

  /** `%s` prints its string, or as much of it as a precision allows. */
  lemma StringConversion(s: Spec, t: seq<Char>, args: seq<Arg>)
    requires Valid(s) && s.conv == Code('s')
    ensures var shown := if s.prec.Some? && PrecOf(s.prec) < |t| then t[..PrecOf(s.prec)] else t;
      Converted(s, [Str(t)] + args) == Some((Padded(shown, Left in SeenFlags(s), WidthOf(s.width)), args))
  {
    AsciiCodes();
    var f := FlagsOf(s);
    assert (Left in f <==> Left in SeenFlags(s)) && (Precision in f <==> s.prec.Some?);
    assert ([Str(t)] + args)[1..] == args;
    PaddedIs(StringShown(t, PrecOf(s.prec), f), f, WidthOf(s.width));
  }

  /** `%%` prints a percent sign and takes no argument. */
  lemma PercentConversion(s: Spec, args: seq<Arg>)
    requires Valid(s) && s.conv == Code('%')
    ensures Converted(s, args) == Some(([Code('%')], args))
  {
    AsciiCodes();
  }

  /** Any other character that ends a directive is printed as it is, whatever the flags, and takes no argument. */
  lemma OtherConversion(s: Spec, args: seq<Arg>)
    requires Valid(s)
    requires forall k | 0 <= k < 10 :: s.conv != Ascii("diuxXobcsp")[k]
    ensures Converted(s, args) == Some(([s.conv], args))
  {
    AsciiCodes();
    var known := Ascii("diuxXobcsp");
    assert s.conv != known[0] && s.conv != known[1] && s.conv != known[2] && s.conv != known[3] && s.conv != known[4];
    assert s.conv != known[5] && s.conv != known[6] && s.conv != known[7] && s.conv != known[8] && s.conv != known[9];
  }

  lemma PointerFlags(s: Spec)
    requires s.flags == [] && s.width == Absent && s.prec == None
    ensures var g := FlagsOf(s) + {ZeroPad, Upper};
      Hash !in g && Precision !in g && Left !in g && Plus !in g && Space !in g && Upper in g && ZeroPad in g
  {
    assert FlagSet(s.flags) == {};
  }

  lemma PointerStandard(g: Flags, v: nat, prec: nat)
    requires Hash !in g && Precision !in g && Left !in g && Plus !in g && Space !in g && Upper in g && ZeroPad in g
    requires prec == 0 && Places(v, 16) <= 16
    ensures NumberText(v, false, 16, prec, 16, g) == Standard(v, 16, true, {ZeroPad}, 16, None)
  {
    PrintsStandard(v, false, 16, prec, 16, g);
    OtherFlags(v, 16, true, g, {ZeroPad}, 16, None);
  }

  /** `%p` prints 16 hexadecimal digits, in capitals and filled up with zeros. */
  lemma PointerConversion(s: Spec, v: nat, all: seq<Arg>, args: seq<Arg>)
    requires Valid(s) && s.conv == Code('p') && s.flags == [] && s.width == Absent && s.prec == None
    requires Places(v, 16) <= 16 && all == [Word(v)] + args
    ensures Converted(s, all) == Some((Standard(v, 16, true, {ZeroPad}, 16, None), args))
  {
    AsciiCodes();
    PointerFlags(s);
    PointerStandard(FlagsOf(s) + {ZeroPad, Upper}, v, 0);
    assert all[1..] == args;
  }
}
