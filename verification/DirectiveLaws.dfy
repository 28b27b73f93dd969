/** A directive written down from its parts is read as those parts. */
module DirectiveLaws {
  import opened Arithmetic
  import opened Common
  import opened Sequences
  import opened Text
  import opened Digits
  import opened NumberFormat
  import opened NumberReading
  import opened FormatSpec
  import opened PrintfLaws
  import opened Codes
  import opened StandardText

  /** A width or precision: none, a number, or taken from an `int` argument. */
  datatype Count = Absent | Number(n: nat) | Star(v: int)

  datatype Size = Default | Half | HalfHalf | Lng | LngLng | Ptrdiff | Maximal | SizeOf

  datatype Spec = Spec(flags: seq<Flag>, width: Count, prec: Option<Count>, size: Size, conv: Char)

  predicate IsWritten(f: Flag) {
    f == ZeroPad || f == Left || f == Plus || f == Space || f == Hash
  }

  function FlagCode(f: Flag): Char
    requires IsWritten(f)
  {
    match f
    case ZeroPad => Code('0')
    case Left => Code('-')
    case Plus => Code('+')
    case Space => Code(' ')
    case _ => Code('#')
  }

  ghost predicate ValidFlags(flags: seq<Flag>) {
    forall f | f in flags :: IsWritten(f)
  }

  function FlagCodes(flags: seq<Flag>): (s: seq<Char>)
    requires forall f | f in flags :: IsWritten(f)
    ensures |s| == |flags|
  {
    seq(|flags|, i requires 0 <= i < |flags| => FlagCode(flags[i]))
  }

  function CountCodes(c: Count): seq<Char> {
    match c
    case Absent => []
    case Number(n) => Numeral(n, 10, false)
    case Star(_) => [Code('*')]
  }

  function SizeCodes(s: Size): seq<Char> {
    match s
    case Default => []
    case Half => [Code('h')]
    case HalfHalf => [Code('h'), Code('h')]
    case Lng => [Code('l')]
    case LngLng => [Code('l'), Code('l')]
    case Ptrdiff => [Code('t')]
    case Maximal => [Code('j')]
    case SizeOf => [Code('z')]
  }

  /** The flags that stand for a size. */
  function SizeFlags(s: Size): Flags {
    match s
    case Default => {}
    case Half => {Short}
    case HalfHalf => {Short, Chr}
    case LngLng => {Long, LongLong}
    case _ => {Long}
  }

  predicate ValidCount(c: Count) {
    match c
    case Absent => true
    case Number(n) => n < 0x1_0000_0000
    case Star(v) => -0x8000_0000 <= v < 0x8000_0000
  }

  /** What can end a directive: everything that starts no other part of it. */
  predicate IsConversion(c: Char) {
    && !IsFlagCode(c) && !(Code('0') <= c <= Code('9')) && c != Code('*') && c != Code('.')
    && c != Code('h') && c != Code('l') && c != Code('t') && c != Code('j') && c != Code('z')
  }

  ghost predicate Valid(s: Spec) {
    && ValidFlags(s.flags) && ValidCount(s.width) && (s.prec.Some? ==> ValidCount(s.prec.value))
    && s.width != Number(0) && IsConversion(s.conv)
  }

  function PrecCodes(p: Option<Count>): seq<Char> {
    match p
    case None => []
    case Some(c) => [Code('.')] + CountCodes(c)
  }

  /** The directive behind its percent sign. */
  ghost function Encode(s: Spec): seq<Char>
    requires ValidFlags(s.flags)
  {
    FlagCodes(s.flags) + (CountCodes(s.width) + (PrecCodes(s.prec) + (SizeCodes(s.size) + [s.conv])))
  }

  /** The arguments the stars take. */
  function CountArgs(c: Count): seq<Arg> {
    if c.Star? then [Word(c.v % 0x1_0000_0000)] else []
  }

  function StarArgs(s: Spec): seq<Arg> {
    CountArgs(s.width) + if s.prec.Some? then CountArgs(s.prec.value) else []
  }

  function FlagSet(flags: seq<Flag>): Flags {
    set f | f in flags
  }

  /** What the directive asks for: a negative star is a `-` flag and its magnitude as a width, and nothing as a precision. */
  function FlagsOf(s: Spec): Flags {
    FlagSet(s.flags) + (if s.width.Star? && s.width.v < 0 then {Left} else {})
    + (if s.prec.Some? then {Precision} else {}) + SizeFlags(s.size)
  }

  function WidthOf(c: Count): nat {
    match c
    case Absent => 0
    case Number(n) => n
    case Star(v) => if v < 0 then -v else v
  }

  function PrecOf(p: Option<Count>): nat {
    match p
    case None => 0
    case Some(Absent) => 0
    case Some(Number(n)) => n
    case Some(Star(v)) => if v < 0 then 0 else v
  }

  predicate IsFlagCode(c: Char) {
    c == Code('0') || c == Code('-') || c == Code('+') || c == Code(' ') || c == Code('#')
  }

  lemma FlagOfCode(f: Flag, g: Flags)
    requires IsWritten(f)
    ensures FlagOf(FlagCode(f), g) == Some(g + {f})
  {
    AsciiCodes();
  }

  lemma NoFlag(c: Char, g: Flags)
    ensures FlagOf(c, g) == None <==> !IsFlagCode(c)
  {
    AsciiCodes();
  }

  /** The flags are read up to the first character that is none. */
  lemma {:induction false} FlagsRead(fmt: seq<Char>, i: nat, flags: seq<Flag>, g: Flags)
    requires ValidFlags(flags) && HeldAt(fmt, i, FlagCodes(flags))
    requires i + |flags| < |fmt| && !IsFlagCode(fmt[i + |flags|])
    ensures ParseFlags(fmt, i, g) == (g + FlagSet(flags), i + |flags|)
    decreases |flags|
  {
    if flags == [] {
      NoFlag(fmt[i], g);
      assert g + FlagSet(flags) == g;
    } else {
      var f, rest := flags[0], flags[1..];
      assert FlagCodes(flags) == [FlagCode(f)] + FlagCodes(rest);
      HeldFirst(fmt, i, FlagCodes(flags));
      HeldParts(fmt, i, [FlagCode(f)], FlagCodes(rest));
      FlagOfCode(f, g);
      FlagsRead(fmt, i + 1, rest, g + {f});
      assert g + FlagSet(flags) == g + {f} + FlagSet(rest);
    }
  }

  /** Digits in the middle of a format are read up to the first character that is none. */
  lemma {:induction false} DigitsRead(fmt: seq<Char>, i: nat, d: seq<Char>, k: nat)
    requires HeldAt(fmt, i, d) && (forall j | 0 <= j < |d| :: IsDecimal(d[j])) && k <= |d|
    requires i + |d| < |fmt| ==> !IsDecimal(fmt[i + |d|])
    ensures Atoi(fmt, i + k, FromDigits(d[..k], 10) % UINT32_VALUES) == (FromDigits(d, 10) % UINT32_VALUES, i + |d|)
    decreases |d| - k
  {
    if k < |d| {
      assert fmt[i + k] == fmt[i..i + |d|][k] == d[k];
      assert d[..k + 1][..k] == d[..k];
      ReduceStep(FromDigits(d[..k], 10), d[k] - ZERO, UINT32_VALUES);
      DigitsRead(fmt, i, d, k + 1);
    } else {
      assert d[..k] == d;
    }
  }

  lemma {:induction false} NumeralDenotes(n: nat, s: seq<Char>)
    requires s == Numeral(n, 10, false)
    ensures FromDigits(s, 10) == n
    ensures forall j | 0 <= j < |s| :: IsDecimal(s[j])
    ensures n > 0 ==> s[0] != ZERO
    decreases n
  {
    var d := DigitCode(n % 10, false);
    DigitCodes(n % 10, false);
    if n >= 10 {
      NumeralDenotes(n / 10, Numeral(n / 10, 10, false));
    }
    assert s[..|s| - 1] == if n < 10 then [] else Numeral(n / 10, 10, false);
    assert s[|s| - 1] == d;
  }

  lemma NumberRead(fmt: seq<Char>, i: nat, n: nat, s: seq<Char>)
    requires s == Numeral(n, 10, false) && HeldAt(fmt, i, s) && n < UINT32_VALUES
    requires i + |s| < |fmt| ==> !IsDecimal(fmt[i + |s|])
    ensures Atoi(fmt, i, 0) == (n, i + |s|)
  {
    NumeralDenotes(n, s);
    NumberAt(fmt, i, s, n);
  }

  lemma NumberAt(fmt: seq<Char>, i: nat, s: seq<Char>, n: nat)
    requires HeldAt(fmt, i, s) && (forall j | 0 <= j < |s| :: IsDecimal(s[j])) && n < UINT32_VALUES
    requires FromDigits(s, 10) == n && (i + |s| < |fmt| ==> !IsDecimal(fmt[i + |s|]))
    ensures Atoi(fmt, i, 0) == (n, i + |s|)
  {
    var none := s[..0];
    assert none == [] && FromDigits(none, 10) == 0;
    assert n % UINT32_VALUES == n;
    DigitsRead(fmt, i, s, 0);
  }

  /** A star argument as an `int`. */
  lemma StarRead(v: int)
    requires -0x8000_0000 <= v < 0x8000_0000
    ensures Signed(v % 0x1_0000_0000, 0x8000_0000) == v
  {
    SignedInverts(v, 0x8000_0000, if v < 0 then 1 else 0);
  }

  lemma NumberHead(n: nat, s: seq<Char>)
    requires s == Numeral(n, 10, false)
    ensures IsDecimal(s[0]) && (n > 0 ==> !IsFlagCode(s[0]))
  {
    NumeralDenotes(n, s);
    if n > 0 {
      DigitIsNoFlag(s[0]);
    }
  }

  lemma DigitIsNoFlag(c: Char)
    requires IsDecimal(c) && c != ZERO
    ensures !IsFlagCode(c)
  {
    AsciiCodes();
  }

  lemma NumberPart(fmt: seq<Char>, i: nat, n: nat)
    requires n < UINT32_VALUES && HeldAt(fmt, i, CountCodes(Number(n)))
    requires i + |CountCodes(Number(n))| < |fmt| && !IsDecimal(fmt[i + |CountCodes(Number(n))|])
    ensures IsDecimal(At(fmt, i)) && Atoi(fmt, i, 0) == (n, i + |CountCodes(Number(n))|)
  {
    var s := CountCodes(Number(n));
    NumberHead(n, s);
    HeldFirst(fmt, i, s);
    NumberRead(fmt, i, n, s);
  }

  lemma StarPart(fmt: seq<Char>, i: nat, v: int, args: seq<Arg>)
    requires HeldAt(fmt, i, CountCodes(Star(v))) && -0x8000_0000 <= v < 0x8000_0000
    ensures At(fmt, i) == STAR && |CountCodes(Star(v))| == 1
    ensures var a := CountArgs(Star(v)) + args; a != [] && a[0].Word? && Signed(a[0].bits, 0x8000_0000) == v && a[1..] == args
  {
    AsciiCodes();
    HeldFirst(fmt, i, CountCodes(Star(v)));
    StarRead(v);
  }

  lemma WidthRead(fmt: seq<Char>, i: nat, g: Flags, c: Count, args: seq<Arg>)
    requires ValidCount(c) && HeldAt(fmt, i, CountCodes(c)) && i + |CountCodes(c)| < |fmt|
    requires var next := fmt[i + |CountCodes(c)|]; !IsDecimal(next) && next != STAR
    ensures ParseWidth(fmt, i, g, CountArgs(c) + args)
         == Some(Field(g + if c.Star? && c.v < 0 then {Left} else {}, WidthOf(c), i + |CountCodes(c)|, args))
  {
    assert g + {} == g;
    match c
    case Absent => assert CountArgs(c) + args == args;
    case Number(n) =>
      NumberPart(fmt, i, n);
      assert CountArgs(c) + args == args;
    case Star(v) => StarPart(fmt, i, v, args);
  }

  lemma PrecRead(fmt: seq<Char>, i: nat, g: Flags, c: Count, args: seq<Arg>)
    requires ValidCount(c) && HeldAt(fmt, i, PrecCodes(Some(c))) && i + |PrecCodes(Some(c))| < |fmt|
    requires var next := fmt[i + |PrecCodes(Some(c))|]; !IsDecimal(next) && next != STAR
    ensures ParsePrecision(fmt, i, g, CountArgs(c) + args)
         == Some(Field(g + {Precision}, PrecOf(Some(c)), i + |PrecCodes(Some(c))|, args))
  {
    PointRead(fmt, i, c);
    match c
    case Absent => assert CountArgs(c) + args == args;
    case Number(n) =>
      NumberPart(fmt, i + 1, n);
      assert CountArgs(c) + args == args;
    case Star(v) => StarPart(fmt, i + 1, v, args);
  }

  lemma PointRead(fmt: seq<Char>, i: nat, c: Count)
    requires HeldAt(fmt, i, PrecCodes(Some(c)))
    ensures At(fmt, i) == DOT && HeldAt(fmt, i + 1, CountCodes(c)) && |PrecCodes(Some(c))| == 1 + |CountCodes(c)|
  {
    AsciiCodes();
    HeldFirst(fmt, i, PrecCodes(Some(c)));
    HeldParts(fmt, i, [Code('.')], CountCodes(c));
  }

  lemma HeldAll(fmt: seq<Char>, i: nat, w: seq<Char>)
    requires HeldAt(fmt, i, w)
    ensures forall k | 0 <= k < |w| :: At(fmt, i + k) == w[k]
  {
    var slice := fmt[i..i + |w|];
    forall k | 0 <= k < |w|
      ensures At(fmt, i + k) == w[k]
    {
      assert slice[k] == fmt[i + k];
    }
  }

  lemma SizeRead(fmt: seq<Char>, i: nat, g: Flags, s: Size, conv: Char)
    requires IsConversion(conv) && HeldAt(fmt, i, SizeCodes(s) + [conv])
    ensures ParseLength(fmt, i, g) == (g + SizeFlags(s), i + |SizeCodes(s)|) && At(fmt, i + |SizeCodes(s)|) == conv
  {
    AsciiCodes();
    var w := SizeCodes(s) + [conv];
    HeldAll(fmt, i, w);
    assert At(fmt, i + 0) == w[0];
    assert |w| > 1 ==> At(fmt, i + 1) == w[1];
    assert |w| > 2 ==> At(fmt, i + 2) == w[2];
    assert g + {} == g;
    assert g + {Long} + {LongLong} == g + {Long, LongLong};
    assert g + {Short} + {Chr} == g + {Short, Chr};
  }

  /** Ends the flags. */
  predicate EndsFlags(c: Char) {
    !IsFlagCode(c)
  }

  /** Ends a number, and is no star. */
  predicate EndsCount(c: Char) {
    !IsDecimal(c) && c != STAR
  }

  lemma SizeHead(s: Size, conv: Char)
    requires IsConversion(conv)
    ensures var c := (SizeCodes(s) + [conv])[0]; EndsFlags(c) && EndsCount(c) && c != DOT
  {
    AsciiCodes();
  }

  lemma PrecHead(p: Option<Count>, tail: seq<Char>)
    requires tail != [] && EndsFlags(tail[0]) && EndsCount(tail[0])
    ensures var c := (PrecCodes(p) + tail)[0]; EndsFlags(c) && EndsCount(c)
  {
    AsciiCodes();
  }

  lemma WidthHead(c: Count, tail: seq<Char>)
    requires ValidCount(c) && c != Number(0) && tail != [] && EndsFlags(tail[0])
    ensures EndsFlags((CountCodes(c) + tail)[0])
  {
    match c
    case Absent =>
    case Number(n) => NumberHead(n, CountCodes(c));
    case Star(_) =>
      AsciiCodes();
    }

  /** What each part is followed by. */
  predicate WellFollowed(b: seq<Char>, c: seq<Char>, d: seq<Char>) {
    d != [] && EndsFlags((b + (c + d))[0]) && EndsCount((c + d)[0]) && EndsCount(d[0]) && d[0] != DOT
  }

  lemma Heads(s: Spec)
    requires Valid(s)
    ensures WellFollowed(CountCodes(s.width), PrecCodes(s.prec), SizeCodes(s.size) + [s.conv])
  {
    var t3 := SizeCodes(s.size) + [s.conv];
    SizeHead(s.size, s.conv);
    PrecHead(s.prec, t3);
    WidthHead(s.width, PrecCodes(s.prec) + t3);
  }

  /** Where four parts lie in the format. */
  predicate PartsAt(fmt: seq<Char>, i: nat, a: seq<Char>, b: seq<Char>, c: seq<Char>, d: seq<Char>) {
    var i1 := i + |a|;
    var i2 := i1 + |b|;
    var i3 := i2 + |c|;
    && HeldAt(fmt, i, a) && HeldAt(fmt, i1, b) && HeldAt(fmt, i2, c) && HeldAt(fmt, i3, d) && i3 < |fmt|
    && EndsFlags(fmt[i1]) && EndsCount(fmt[i2]) && EndsCount(fmt[i3]) && fmt[i3] != DOT
  }

  lemma FourParts(fmt: seq<Char>, i: nat, a: seq<Char>, b: seq<Char>, c: seq<Char>, d: seq<Char>)
    requires HeldAt(fmt, i, a + (b + (c + d))) && WellFollowed(b, c, d)
    ensures PartsAt(fmt, i, a, b, c, d)
  {
    var i1 := i + |a|;
    var i2 := i1 + |b|;
    HeldParts(fmt, i, a, b + (c + d));
    HeldParts(fmt, i1, b, c + d);
    HeldParts(fmt, i2, c, d);
    HeldFirst(fmt, i1, b + (c + d));
    HeldFirst(fmt, i2, c + d);
    HeldFirst(fmt, i2 + |c|, d);
  }

  lemma PrecOrNone(fmt: seq<Char>, i: nat, g: Flags, p: Option<Count>, args: seq<Arg>)
    requires (p.Some? ==> ValidCount(p.value)) && HeldAt(fmt, i, PrecCodes(p)) && i + |PrecCodes(p)| < |fmt|
    requires var next := fmt[i + |PrecCodes(p)|]; EndsCount(next) && next != DOT
    ensures ParsePrecision(fmt, i, g, (if p.Some? then CountArgs(p.value) else []) + args)
         == Some(Field(if p.Some? then g + {Precision} else g, PrecOf(p), i + |PrecCodes(p)|, args))
  {
    match p
    case None => assert [] + args == args;
    case Some(c) => PrecRead(fmt, i, g, c, args);
  }

  /** What a conversion makes of a directive that ends at `end`. */
  function Outcome(r: Option<(seq<Char>, seq<Arg>)>, end: nat): Option<(seq<Char>, nat, seq<Arg>)> {
    match r
    case None => None
    case Some((text, rest)) => Some((text, end, rest))
  }

  /** What the parser makes of a directive before it is converted. */
  datatype Parsed = Parsed(conv: Char, f: Flags, width: nat, prec: nat, next: nat, args: seq<Arg>)

  function Parse(fmt: seq<Char>, i: nat, args: seq<Arg>): (r: Option<Parsed>)
  {
    var (f0, i0) := ParseFlags(fmt, i, {});
    var w :- ParseWidth(fmt, i0, f0, args);
    var p :- ParsePrecision(fmt, w.next, w.f, w.args);
    var (f, j) := ParseLength(fmt, p.next, p.f);
    if j >= |fmt| then None else Some(Parsed(fmt[j], f, w.n, p.n, j + 1, p.args))
  }

  lemma ParseThenConvert(fmt: seq<Char>, i: nat, args: seq<Arg>)
    ensures Directive(fmt, i, args)
         == match Parse(fmt, i, args)
            case None => None
            case Some(d) => Outcome(Convert(d.conv, d.f, d.width, d.prec, d.args), d.next)
  {
    var (f0, i0) := ParseFlags(fmt, i, {});
    var w := ParseWidth(fmt, i0, f0, args);
    if w.Some? {
      var p := ParsePrecision(fmt, w.value.next, w.value.f, w.value.args);
      if p.Some? {
        var (f, j) := ParseLength(fmt, p.value.next, p.value.f);
        assert j >= |fmt| ==> Directive(fmt, i, args) == None;
      }
    }
  }

  lemma ParseFrom(fmt: seq<Char>, i: nat, args: seq<Arg>, i0: nat, f0: Flags, w: Field, p: Field, j: nat, f: Flags)
    requires ParseFlags(fmt, i, {}) == (f0, i0) && ParseWidth(fmt, i0, f0, args) == Some(w)
    requires ParsePrecision(fmt, w.next, w.f, w.args) == Some(p) && ParseLength(fmt, p.next, p.f) == (f, j) && j < |fmt|
    ensures Parse(fmt, i, args).Some?
    ensures Parse(fmt, i, args).value == Parsed(fmt[j], f, w.n, p.n, j + 1, p.args)
  {
  }

  function PrecArgs(s: Spec): seq<Arg> {
    if s.prec.Some? then CountArgs(s.prec.value) else []
  }

  function WidthFlags(s: Spec): Flags {
    FlagSet(s.flags) + if s.width.Star? && s.width.v < 0 then {Left} else {}
  }

  function PrecFlags(s: Spec): Flags {
    if s.prec.Some? then WidthFlags(s) + {Precision} else WidthFlags(s)
  }

  /** Where the fields of a directive at `i` end. */
  function FlagsEnd(i: nat, s: Spec): nat {
    i + |s.flags|
  }

  function WidthEnd(i: nat, s: Spec): nat {
    FlagsEnd(i, s) + |CountCodes(s.width)|
  }

  function PrecEnd(i: nat, s: Spec): nat {
    WidthEnd(i, s) + |PrecCodes(s.prec)|
  }

  ghost predicate PartsOf(fmt: seq<Char>, i: nat, s: Spec)
    requires ValidFlags(s.flags)
  {
    PartsAt(fmt, i, FlagCodes(s.flags), CountCodes(s.width), PrecCodes(s.prec), SizeCodes(s.size) + [s.conv])
  }

  lemma FlagsStep(fmt: seq<Char>, i: nat, s: Spec)
    requires Valid(s) && PartsOf(fmt, i, s)
    ensures ParseFlags(fmt, i, {}) == (FlagSet(s.flags), FlagsEnd(i, s))
  {
    FlagsRead(fmt, i, s.flags, {});
    assert {} + FlagSet(s.flags) == FlagSet(s.flags);
  }

  lemma WidthStep(fmt: seq<Char>, i: nat, s: Spec, args: seq<Arg>)
    requires Valid(s) && PartsOf(fmt, i, s)
    ensures ParseWidth(fmt, FlagsEnd(i, s), FlagSet(s.flags), StarArgs(s) + args)
         == Some(Field(WidthFlags(s), WidthOf(s.width), WidthEnd(i, s), PrecArgs(s) + args))
  {
    assert StarArgs(s) + args == CountArgs(s.width) + (PrecArgs(s) + args);
    WidthRead(fmt, FlagsEnd(i, s), FlagSet(s.flags), s.width, PrecArgs(s) + args);
  }

  lemma PrecStep(fmt: seq<Char>, i: nat, s: Spec, args: seq<Arg>)
    requires (s.prec.Some? ==> ValidCount(s.prec.value)) && HeldAt(fmt, WidthEnd(i, s), PrecCodes(s.prec))
    requires PrecEnd(i, s) < |fmt| && EndsCount(fmt[PrecEnd(i, s)]) && fmt[PrecEnd(i, s)] != DOT
    ensures ParsePrecision(fmt, WidthEnd(i, s), WidthFlags(s), PrecArgs(s) + args)
         == Some(Field(PrecFlags(s), PrecOf(s.prec), PrecEnd(i, s), args))
  {
    PrecOrNone(fmt, WidthEnd(i, s), WidthFlags(s), s.prec, args);
  }

  lemma SizeStep(fmt: seq<Char>, i: nat, s: Spec)
    requires Valid(s) && PartsOf(fmt, i, s)
    ensures var j := PrecEnd(i, s) + |SizeCodes(s.size)|;
      j < |fmt| && ParseLength(fmt, PrecEnd(i, s), PrecFlags(s)) == (FlagsOf(s), j) && fmt[j] == s.conv
  {
    SizeRead(fmt, PrecEnd(i, s), PrecFlags(s), s.size, s.conv);
    assert FlagsOf(s) == PrecFlags(s) + SizeFlags(s.size);
  }

  lemma EncodeEnd(i: nat, s: Spec)
    requires ValidFlags(s.flags)
    ensures i + |Encode(s)| == PrecEnd(i, s) + |SizeCodes(s.size)| + 1
  {
  }

  lemma ReadInParts(fmt: seq<Char>, i: nat, s: Spec, args: seq<Arg>, all: seq<Arg>, w: Field, p: Field)
    requires Valid(s) && PartsOf(fmt, i, s) && all == StarArgs(s) + args
    requires w == Field(WidthFlags(s), WidthOf(s.width), WidthEnd(i, s), PrecArgs(s) + args)
    requires p == Field(PrecFlags(s), PrecOf(s.prec), PrecEnd(i, s), args)
    ensures ParseFlags(fmt, i, {}) == (FlagSet(s.flags), FlagsEnd(i, s))
    ensures ParseWidth(fmt, FlagsEnd(i, s), FlagSet(s.flags), all) == Some(w)
    ensures ParsePrecision(fmt, w.next, w.f, w.args) == Some(p)
    ensures var j := PrecEnd(i, s) + |SizeCodes(s.size)|;
      j < |fmt| && ParseLength(fmt, p.next, p.f) == (FlagsOf(s), j) && fmt[j] == s.conv
  {
    FlagsStep(fmt, i, s);
    WidthStep(fmt, i, s, args);
    PrecStep(fmt, i, s, args);
    SizeStep(fmt, i, s);
  }

  /** A directive is parsed as the parts it was written from. */
  lemma ParseInvertsEncoding(fmt: seq<Char>, i: nat, s: Spec, args: seq<Arg>, all: seq<Arg>, next: nat)
    requires Valid(s) && HeldAt(fmt, i, Encode(s)) && all == StarArgs(s) + args && next == i + |Encode(s)|
    ensures Parse(fmt, i, all) == Some(Parsed(s.conv, FlagsOf(s), WidthOf(s.width), PrecOf(s.prec), next, args))
  {
    PartsWritten(fmt, i, s);
    EncodeEnd(i, s);
    ParsedParts(fmt, i, s, args, all, Parsed(s.conv, FlagsOf(s), WidthOf(s.width), PrecOf(s.prec), next, args));
  }

  lemma PartsWritten(fmt: seq<Char>, i: nat, s: Spec)
    requires Valid(s) && HeldAt(fmt, i, Encode(s))
    ensures PartsOf(fmt, i, s)
  {
    Heads(s);
    FourParts(fmt, i, FlagCodes(s.flags), CountCodes(s.width), PrecCodes(s.prec), SizeCodes(s.size) + [s.conv]);
  }

  lemma ParsedParts(fmt: seq<Char>, i: nat, s: Spec, args: seq<Arg>, all: seq<Arg>, d: Parsed)
    requires Valid(s) && PartsOf(fmt, i, s) && all == StarArgs(s) + args
    requires d == Parsed(s.conv, FlagsOf(s), WidthOf(s.width), PrecOf(s.prec), PrecEnd(i, s) + |SizeCodes(s.size)| + 1, args)
    ensures Parse(fmt, i, all) == Some(d)
  {
    var w := Field(WidthFlags(s), WidthOf(s.width), WidthEnd(i, s), PrecArgs(s) + args);
    var p := Field(PrecFlags(s), PrecOf(s.prec), PrecEnd(i, s), args);
    var f, j := FlagsOf(s), PrecEnd(i, s) + |SizeCodes(s.size)|;
    ReadInParts(fmt, i, s, args, all, w, p);
    ParsedFields(fmt, i, all, FlagsEnd(i, s), FlagSet(s.flags), w, p, j, f, d);
  }

  lemma ParsedFields(fmt: seq<Char>, i: nat, all: seq<Arg>, i0: nat, f0: Flags, w: Field, p: Field, j: nat, f: Flags, d: Parsed)
    requires ParseFlags(fmt, i, {}) == (f0, i0) && ParseWidth(fmt, i0, f0, all) == Some(w)
    requires ParsePrecision(fmt, w.next, w.f, w.args) == Some(p) && ParseLength(fmt, p.next, p.f) == (f, j) && j < |fmt|
    requires d.conv == fmt[j] && d.f == f && d.width == w.n && d.prec == p.n && d.next == j + 1 && d.args == p.args
    ensures Parse(fmt, i, all) == Some(d)
  {
    ParseFrom(fmt, i, all, i0, f0, w, p, j, f);
  }
}
