/** Reading a printed number back: which conversions denote their argument. */
module NumberReading {
  import opened Arithmetic
  import opened Text
  import opened Sequences
  import opened Digits
  import opened NumberFormat

  predicate IsDigitChar(c: Char) {
    ZERO <= c <= NINE || LOWER_A <= c < LOWER_A + 6 || UPPER_A <= c < UPPER_A + 6
  }

  ghost predicate AllDigits(s: seq<Char>) {
    forall i | 0 <= i < |s| :: IsDigitChar(s[i])
  }

  /** The number written by digits, most significant first. */
  function FromDigits(s: seq<Char>, base: nat): nat {
    if s == [] then 0 else FromDigits(s[..|s| - 1], base) * base + DigitValue(s[|s| - 1])
  }

  function SkipSpaces(s: seq<Char>): seq<Char> {
    if s != [] && s[0] == SPACE then SkipSpaces(s[1..]) else s
  }

  /** Length of the longest run of digits at the start. */
  function DigitRun(s: seq<Char>): (n: nat)
    ensures n <= |s|
  {
    if s != [] && IsDigitChar(s[0]) then 1 + DigitRun(s[1..]) else 0
  }

  function ReadDigits(s: seq<Char>, base: nat): nat {
    FromDigits(s[..DigitRun(s)], base)
  }

  /** Spaces, an optional sign, and the digits that follow. */
  function ReadText(text: seq<Char>, base: nat): int {
    var t := SkipSpaces(text);
    if t != [] && t[0] == MINUS then -(ReadDigits(t[1..], base) as int)
    else if t != [] && t[0] == PLUS then ReadDigits(t[1..], base)
    else ReadDigits(t, base)
  }

  lemma {:induction false} SpacesSkipped(n: nat, s: seq<Char>)
    ensures SkipSpaces(Repeat(SPACE, n) + s) == SkipSpaces(s)
  {
    if n == 0 {
      assert Repeat(SPACE, 0) + s == s;
    } else {
      assert (Repeat(SPACE, n) + s)[1..] == Repeat(SPACE, n - 1) + s;
      SpacesSkipped(n - 1, s);
    }
  }

  lemma {:induction false} RunOfDigits(d: seq<Char>, b: nat)
    requires AllDigits(d)
    ensures DigitRun(d + Repeat(SPACE, b)) == |d|
    ensures (d + Repeat(SPACE, b))[..|d|] == d
  {
    if d != [] {
      assert (d + Repeat(SPACE, b))[1..] == d[1..] + Repeat(SPACE, b);
      RunOfDigits(d[1..], b);
    } else {
      assert d + Repeat(SPACE, b) == Repeat(SPACE, b);
    }
  }

  lemma ReadUnsigned(d: seq<Char>, b: nat, base: nat)
    requires AllDigits(d)
    ensures ReadText(d + Repeat(SPACE, b), base) == FromDigits(d, base)
  {
    RunOfDigits(d, b);
    if d == [] {
      assert d + Repeat(SPACE, b) == Repeat(SPACE, b) + [];
      SpacesSkipped(b, []);
    } else {
      assert (d + Repeat(SPACE, b))[0] == d[0];
    }
  }

  lemma ReadNegative(d: seq<Char>, b: nat, base: nat)
    requires AllDigits(d)
    ensures ReadText([MINUS] + (d + Repeat(SPACE, b)), base) == -(FromDigits(d, base) as int)
  {
    RunOfDigits(d, b);
    assert ([MINUS] + (d + Repeat(SPACE, b)))[1..] == d + Repeat(SPACE, b);
  }

  lemma ReadPositive(d: seq<Char>, b: nat, base: nat)
    requires AllDigits(d)
    ensures ReadText([PLUS] + (d + Repeat(SPACE, b)), base) == FromDigits(d, base)
  {
    RunOfDigits(d, b);
    assert ([PLUS] + (d + Repeat(SPACE, b)))[1..] == d + Repeat(SPACE, b);
  }

  /** Leading spaces do not matter. */
  lemma ReadIndented(a: nat, s: seq<Char>, base: nat)
    ensures ReadText(Repeat(SPACE, a) + s, base) == ReadText(s, base)
  {
    SpacesSkipped(a, s);
  }

  /** Spaces, a sign the printer knows, digits and spaces read as the signed number of the digits. */
  lemma ReadParts(a: nat, sign: seq<Char>, d: seq<Char>, b: nat, base: nat)
    requires AllDigits(d) && (sign == [] || sign == [MINUS] || sign == [PLUS] || sign == [SPACE])
    ensures ReadText(Repeat(SPACE, a) + (sign + d) + Repeat(SPACE, b), base)
      == if sign == [MINUS] then -(FromDigits(d, base) as int) else FromDigits(d, base)
  {
    var tail := d + Repeat(SPACE, b);
    assert Repeat(SPACE, a) + (sign + d) + Repeat(SPACE, b) == Repeat(SPACE, a) + (sign + tail);
    ReadIndented(a, sign + tail, base);
    if sign == [MINUS] {
      ReadNegative(d, b, base);
    } else if sign == [PLUS] {
      ReadPositive(d, b, base);
    } else {
      ReadUnsigned(d, b, base);
      ReadUnmarked(sign, tail, base);
    }
  }

  lemma ReadUnmarked(sign: seq<Char>, tail: seq<Char>, base: nat)
    requires sign == [] || sign == [SPACE]
    ensures ReadText(sign + tail, base) == ReadText(tail, base)
  {
    assert sign == Repeat(SPACE, |sign|);
    ReadIndented(|sign|, tail, base);
  }

  lemma DigitIsDigit(d: nat, upper: bool)
    requires d < 16
    ensures IsDigitChar(DigitChar(d, upper))
  {
  }

  lemma {:induction false} DigitsAreDigits(value: nat, base: nat, upper: bool, room: nat)
    requires PrintBase(base) && room > 0
    ensures AllDigits(DigitsOf(value, base, upper, room))
    decreases room
  {
    DigitIsDigit(value % base, upper);
    if value / base != 0 && room > 1 {
      DigitsAreDigits(value / base, base, upper, room - 1);
    }
  }

  /** Reading forwards what is written backwards. */
  lemma {:induction false} ReversedDenotes(d: seq<Char>, base: nat)
    ensures FromDigits(Reverse(d), base) == Denoted(d, base)
  {
    if d != [] {
      ReversedDenotes(d[1..], base);
      assert Reverse(d)[..|d| - 1] == Reverse(d[1..]);
    }
  }

  lemma {:induction false} LeadingZerosDenoteNothing(z: nat, s: seq<Char>, base: nat)
    ensures FromDigits(Repeat(ZERO, z) + s, base) == FromDigits(s, base)
    decreases |s|, z
  {
    if s != [] {
      assert (Repeat(ZERO, z) + s)[..z + |s| - 1] == Repeat(ZERO, z) + s[..|s| - 1];
      LeadingZerosDenoteNothing(z, s[..|s| - 1], base);
    } else if z > 0 {
      assert (Repeat(ZERO, z) + s)[..z - 1] == Repeat(ZERO, z - 1) + s;
      LeadingZerosDenoteNothing(z - 1, s, base);
    } else {
      assert Repeat(ZERO, 0) + s == s;
    }
  }

  lemma DigitsDenoteValue(value: nat, base: nat, f: Flags)
    requires PrintBase(base)
    ensures AllDigits(NumberDigits(value, base, f))
    ensures Denoted(NumberDigits(value, base, f), base) == value % Power(base, NTOA_BUFFER)
  {
    if Precision !in f || value != 0 {
      DigitsAreDigits(value, base, Upper in f, NTOA_BUFFER);
      DigitsDenote(value, base, Upper in f, NTOA_BUFFER);
    } else {
      UniqueRemainder(0, Power(base, NTOA_BUFFER), 0, 0);
    }
  }

  lemma BodyRead(value: nat, negative: bool, base: nat, prec: nat, width: nat, f: Flags, a: nat, b: nat)
    requires PrintBase(base)
    ensures var d := NumberDigits(value, base, f); var v := value % Power(base, NTOA_BUFFER);
      ReadText(Repeat(SPACE, a) + Body(d, negative, prec, width, f) + Repeat(SPACE, b), base)
      == if ShownSign(|d|, negative, prec, width, f) == [MINUS] then -(v as int) else v
  {
    var d := NumberDigits(value, base, f);
    var sign := ShownSign(|d|, negative, prec, width, f);
    var z := LeadingZeros(|d|, negative, prec, width, f);
    DigitsDenoteValue(value, base, f);
    ReversedDenotes(d, base);
    LeadingZerosDenoteNothing(z, Reverse(d), base);
    assert sign + Repeat(ZERO, z) + Reverse(d) == sign + (Repeat(ZERO, z) + Reverse(d));
    ReadParts(a, sign, Repeat(ZERO, z) + Reverse(d), b, base);
  }

  /** A conversion without `#` reads back as its argument, modulo the power of the base that 32 digits can hold,
      with its sign where the sign had room. */
  lemma ReadBack(value: nat, negative: bool, base: nat, prec: nat, width: nat, f: Flags)
    requires PrintBase(base) && Hash !in f
    ensures var v := value % Power(base, NTOA_BUFFER);
      ReadText(NumberText(value, negative, base, prec, width, f), base)
      == if ShownSign(|NumberDigits(value, base, f)|, negative, prec, width, f) == [MINUS] then -(v as int) else v
  {
    Layout(value, negative, base, prec, width, f);
    var body := Body(NumberDigits(value, base, f), negative, prec, width, f);
    var spaces := if width > |body| then width - |body| else 0;
    if Left in f {
      Around(body, 0, spaces);
      BodyRead(value, negative, base, prec, width, f, 0, spaces);
    } else if ZeroPad in f {
      Around(body, 0, 0);
      BodyRead(value, negative, base, prec, width, f, 0, 0);
    } else {
      Around(body, spaces, 0);
      BodyRead(value, negative, base, prec, width, f, spaces, 0);
    }
  }

  lemma Around(s: seq<Char>, a: nat, b: nat)
    ensures a == 0 ==> Repeat(SPACE, a) + s + Repeat(SPACE, b) == s + Repeat(SPACE, b)
    ensures b == 0 ==> Repeat(SPACE, a) + s + Repeat(SPACE, b) == Repeat(SPACE, a) + s
    ensures a == 0 && b == 0 ==> Repeat(SPACE, a) + s + Repeat(SPACE, b) == s
  {
  }

  /** A number of no more than 32 digits is printed so that it reads back exactly when it is not negative,
      or digits and zeros leave room for the sign in the buffer. */
  lemma ReadBackIff(value: nat, negative: bool, base: nat, prec: nat, width: nat, f: Flags)
    requires PrintBase(base) && Hash !in f && value < Power(base, NTOA_BUFFER) && (negative ==> value > 0)
    ensures ReadText(NumberText(value, negative, base, prec, width, f), base) == (if negative then -(value as int) else value)
      <==> !negative || (var d := |NumberDigits(value, base, f)|; d + LeadingZeros(d, negative, prec, width, f) < NTOA_BUFFER)
  {
    ReadBack(value, negative, base, prec, width, f);
    UniqueRemainder(value, Power(base, NTOA_BUFFER), 0, value);
  }
}
