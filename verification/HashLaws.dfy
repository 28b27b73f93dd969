/** The `#` flag: when the prefix costs significant digits. */
module HashLaws {
  import opened Common
  import opened Arithmetic
  import opened Text
  import opened Digits
  import opened NumberFormat
  import opened NumberReading
  import opened PrintfLaws
  import opened FormatSpec
  import opened Codes
  import opened StandardText
  import opened Sequences

  /** The finished buffer still starts with all the digits of the number. */
  predicate DigitsSurvive(value: nat, negative: bool, base: nat, prec: nat, width: nat, f: Flags)
    requires PrintBase(base)
  {
    NumberDigits(value, base, f) <= Buffered(NumberDigits(value, base, f), negative, base, prec, width, f)
  }

  /** Length of digits and zeros before the prefix is put on. */
  function PaddedLength(value: nat, negative: bool, base: nat, prec: nat, width: nat, f: Flags): nat
    requires PrintBase(base)
  {
    |ZeroPadded(NumberDigits(value, base, f), prec, PadWidth(negative, width, f), f)|
  }

  lemma PaddedKeepsDigits(d: seq<Char>, prec: nat, width: nat, f: Flags)
    ensures d <= ZeroPadded(d, prec, width, f)
  {
  }

  lemma RoomKeeps(d: seq<Char>, b: seq<Char>, s: seq<Char>)
    requires d <= b
    ensures d <= Room(b, s)
  {
  }

  /** What the printer relies on about the top digit of a number. */
  predicate TopDigit(d: seq<Char>, base: nat) {
    d != [] && if base == 2 then d[|d| - 1] <= ZERO + 1 else d[|d| - 1] != ZERO
  }

  /** A buffer cut inside the digits gets the prefix letter or its zero where the leading digit was. */
  lemma CutShows(z: seq<Char>, d: seq<Char>, base: nat, f: Flags)
    requires PrintBase(base) && base != 10 && z <= d && |z| < |d| <= NTOA_BUFFER
    requires |d| - |z| <= if base == 16 then 2 else 1
    requires AllDigits(d) && TopDigit(d, base)
    ensures !(d <= Room(Room(z, PrefixLetter(base, f)), [ZERO]))
  {
    var r := Room(Room(z, PrefixLetter(base, f)), [ZERO]);
    if base == 16 {
      assert r[|z|] == if Upper in f then UPPER_X else LOWER_X;
      assert IsDigitChar(d[|z|]);
    } else if base == 2 {
      assert r[|z|] == LOWER_B;
    } else {
      assert r[|z|] == ZERO;
    }
  }

  /** Binary digits are zeros and ones, so never the letter of the binary prefix. */
  lemma {:induction false} BinaryDigits(value: nat, upper: bool, room: nat)
    requires room > 0
    ensures forall k | 0 <= k < |DigitsOf(value, 2, upper, room)| :: ZERO <= DigitsOf(value, 2, upper, room)[k] <= ZERO + 1
    decreases room
  {
    if value / 2 != 0 && room > 1 {
      BinaryDigits(value / 2, upper, room - 1);
    }
  }

  /** The prefix leaves the digits at the start of a padded buffer alone exactly when it does not take any back. */
  lemma PrefixKeepsIff(d: seq<Char>, z: seq<Char>, base: nat, prec: nat, w: nat, f: Flags)
    requires PrintBase(base) && base != 10 && Hash in f && d <= z && |d| <= NTOA_BUFFER
    requires AllDigits(d) && TopDigit(d, base)
    ensures d <= Room(Prefixed(z, base, prec, w, f), SignOf(false, f)) <==> |d| + HashDrop(|z|, base, prec, w, f) <= |z|
  {
    var cut := z[..|z| - HashDrop(|z|, base, prec, w, f)];
    if |cut| >= |d| {
      RoomKeeps(d, cut, PrefixLetter(base, f));
      RoomKeeps(d, Room(cut, PrefixLetter(base, f)), [ZERO]);
      RoomKeeps(d, Prefixed(z, base, prec, w, f), SignOf(false, f));
    } else {
      CutShows(cut, d, base, f);
      SignDoesNotHelp(d, Room(Room(cut, PrefixLetter(base, f)), [ZERO]), SignOf(false, f));
    }
  }

  lemma NumberHasTopDigit(value: nat, base: nat, f: Flags)
    requires PrintBase(base) && 0 < value < SIZE_VALUES
    ensures AllDigits(NumberDigits(value, base, f)) && TopDigit(NumberDigits(value, base, f), base)
  {
    DigitsAreDigits(value, base, Upper in f, NTOA_BUFFER);
    if base == 2 {
      BinaryDigits(value, Upper in f, NTOA_BUFFER);
    } else {
      WordFits(base);
      NoLeadingZero(value, base, Upper in f, NTOA_BUFFER);
    }
  }

  /** In the larger bases 32 digits hold every word. */
  lemma WordFits(base: nat)
    requires PrintBase(base) && base != 2
    ensures SIZE_VALUES <= Power(base, NTOA_BUFFER)
  {
    var p := Power(base, 8);
    assert Power(base, 4) >= 4096;
    PowerAdds(base, 4, 4);
    SquareGrows(Power(base, 4), 4096);
    PowerAdds(base, 8, 8);
    SquareGrows(p, 0x100_0000);
    PowerAdds(base, 16, 16);
    SquareGrows(p * p, 0x1_0000_0000_0000);
  }

  lemma SquareGrows(x: nat, y: nat)
    requires x >= y
    ensures x * x >= y * y
  {
    Grow(x, y, x);
    Grow(y, y, x);
  }

  /** The `#` flag keeps all digits exactly when a precision is given, or digits and zeros do not just fill the width,
      or enough of what fills it are zeros: the source takes back one character, in base 16 two. Without a precision the
      parser leaves it 0. */
  lemma HashKeepsDigitsIff(value: nat, base: nat, prec: nat, width: nat, f: Flags)
    requires PrintBase(base) && base != 10 && Hash in f && 0 < value < SIZE_VALUES
    requires Precision !in f ==> prec == 0
    ensures var p := PaddedLength(value, false, base, prec, width, f);
      DigitsSurvive(value, false, base, prec, width, f)
      <==> Precision in f || p != PadWidth(false, width, f)
           || p >= |NumberDigits(value, base, f)| + (if base == 16 && p > 1 then 2 else 1)
  {
    var d, w := NumberDigits(value, base, f), PadWidth(false, width, f);
    PaddedKeepsDigits(d, prec, w, f);
    NumberHasTopDigit(value, base, f);
    PrefixKeepsIff(d, ZeroPadded(d, prec, w, f), base, prec, w, f);
  }

  /** A 0 gets no prefix: `#` changes nothing. */
  lemma ZeroHasNoPrefix(negative: bool, base: nat, prec: nat, width: nat, f: Flags)
    requires PrintBase(base)
    ensures NumberText(0, negative, base, prec, width, f) == NumberText(0, negative, base, prec, width, f - {Hash})
  {
    assert f - {Hash} - {Hash} == f - {Hash};
  }

  /** What the `#` flag puts in front of a number, without width and precision. */
  function PrefixIn(base: nat, upper: bool): seq<Char> {
    if base == 16 then [Code('0'), Code(if upper then 'X' else 'x')]
    else if base == 2 then [Code('0'), Code('b')]
    else [Code('0')]
  }

  lemma PrefixReversed(d: seq<Char>, base: nat, f: Flags)
    requires base == 2 || base == 8 || base == 16
    ensures Reverse(d + PrefixLetter(base, f) + [ZERO]) == PrefixIn(base, Upper in f) + Reverse(d)
  {
    AsciiCodes();
    var p := PrefixLetter(base, f);
    ReverseJoin(d + p, [ZERO]);
    ReverseJoin(d, p);
    assert Reverse(p) == p && Reverse([ZERO]) == [ZERO];
    assert [ZERO] + (p + Reverse(d)) == PrefixIn(base, Upper in f) + Reverse(d);
  }

  lemma HashBuffer(d: seq<Char>, base: nat, f: Flags, prec: nat, width: nat)
    requires (base == 2 || base == 8 || base == 16) && 0 < |d| <= 30 && prec == 0 && width == 0
    requires Hash in f && f !! {ZeroPad, Left, Plus, Space, Precision}
    ensures Buffered(d, false, base, prec, width, f) == d + PrefixLetter(base, f) + [ZERO]
  {
    assert ZeroPadded(d, prec, width, f) == d;
    assert d[..|d|] == d;
  }

  /** `%#x`, `%#X`, `%#o` and `%#b` of a positive number of up to 30 digits are the prefix and the digits. */
  lemma HashPlain(value: nat, base: nat, prec: nat, width: nat, f: Flags)
    requires (base == 2 || base == 8 || base == 16) && value > 0 && Places(value, base) <= 30 && prec == 0 && width == 0
    requires Hash in f && f !! {ZeroPad, Left, Plus, Space, Precision}
    ensures NumberText(value, false, base, prec, width, f) == PrefixIn(base, Upper in f) + Numeral(value, base, Upper in f)
  {
    var d := NumberDigits(value, base, f);
    BufferIsReversed(value, base, Upper in f, NTOA_BUFFER);
    DigitsShown(value, base, f);
    HashBuffer(d, base, f, prec, width);
    PrefixReversed(d, base, f);
    NothingPlaced(Buffered(d, false, base, prec, width, f), width, f);
  }

  lemma NothingPlaced(b: seq<Char>, width: nat, f: Flags)
    requires width == 0 && Left !in f
    ensures Placed(b, width, f) == Reverse(b)
  {
  }

  lemma SignDoesNotHelp(d: seq<Char>, r: seq<Char>, s: seq<Char>)
    requires !(d <= r) && |d| <= |r|
    ensures !(d <= Room(r, s))
  {
  }

  /** `%#4x` of 0x1234 prints `0x34`. */
  lemma HashLosesDigits()
    ensures NumberText(0x1234, false, 16, 0, 4, {Hash}) == [ZERO, LOWER_X, ZERO + 3, ZERO + 4]
  {
    var d := [ZERO + 4, ZERO + 3, ZERO + 2, ZERO + 1];
    assert DigitsOf(0x1234, 16, false, 32) == d;
    assert NumberDigits(0x1234, 16, {Hash}) == d;
    assert ZeroPadded(d, 0, 4, {Hash}) == d;
    assert Prefixed(d, 16, 0, 4, {Hash}) == [ZERO + 4, ZERO + 3, LOWER_X, ZERO];
  }
}
