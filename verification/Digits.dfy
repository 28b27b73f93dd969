/** Digits of a number in the order the printers produce them: least significant first. */
module Digits {
  import opened Arithmetic
  import opened Text

  const ZERO: Char := 48
  const NINE: Char := 57
  const MINUS: Char := 45
  const PLUS: Char := 43
  const UPPER_A: Char := 65
  const LOWER_A: Char := 97
  /** `PRINTF_NTOA_BUFFER_SIZE`. */
  const NTOA_BUFFER: nat := 32

  predicate PrintBase(base: nat) {
    base == 2 || base == 8 || base == 10 || base == 16
  }

  function DigitChar(d: nat, upper: bool): (c: Char)
    requires d < 16
  {
    if d < 10 then ZERO + d else (if upper then UPPER_A else LOWER_A) + d - 10
  }

  function DigitValue(c: Char): (d: nat)
  {
    if ZERO <= c <= NINE then c - ZERO
    else if LOWER_A <= c < LOWER_A + 6 then c - LOWER_A + 10
    else if UPPER_A <= c < UPPER_A + 6 then c - UPPER_A + 10
    else 0
  }

  function Quotient(v: nat, base: nat): nat
    requires PrintBase(base)
  {
    v / base
  }

  function LowDigit(v: nat, base: nat, upper: bool): Char
    requires PrintBase(base)
  {
    DigitChar(v % base, upper)
  }

  /** What the digit loop leaves in its buffer: it stops when nothing is left of the number, or the room is used up. */
  function DigitsOf(value: nat, base: nat, upper: bool, room: nat): (s: seq<Char>)
    requires PrintBase(base) && room > 0
    ensures 0 < |s| <= room
    decreases room, value
  {
    [DigitChar(value % base, upper)] +
    if value / base != 0 && room > 1 then DigitsOf(value / base, base, upper, room - 1) else []
  }

  /** The number that digits denote, least significant first. */
  function Denoted(s: seq<Char>, base: nat): nat {
    if s == [] then 0 else DigitValue(s[0]) + base * Denoted(s[1..], base)
  }

  function Power(base: nat, n: nat): (p: nat)
    ensures base > 0 ==> p > 0
    decreases n, base
  {
    if n == 0 then 1 else base * Power(base, n - 1)
  }

  lemma DigitRoundTrip(d: nat, upper: bool)
    requires d < 16
    ensures DigitValue(DigitChar(d, upper)) == d
  {
  }

  /** Taking a remainder digit by digit. */
  lemma ModStep(v: nat, b: nat, q: nat)
    requires b > 0 && q > 0
    ensures b * q > 0
    ensures v % (b * q) == v % b + b * ((v / b) % q)
  {
    var w, r := v / b, v % b;
    var x, y := w / q, w % q;
    assert v == b * w + r && w == q * x + y;
    assert v == b * (q * x + y) + r;
    assert b * (q * x + y) == b * q * x + b * y by {
      Distribute(b, q * x, y);
      Associate(b, q, x);
    }
    BelowProduct(b, q, r, y);
    UniqueRemainder(v, b * q, x, b * y + r);
  }

  lemma BelowProduct(b: nat, q: nat, r: nat, y: nat)
    requires r < b && y < q
    ensures b * y + r < b * q
  {
    Distribute(b, y, 1);
    Grow(b, y + 1, q);
  }

  /** One more digit in front of the rest. */
  lemma DenotedStep(d: nat, upper: bool, rest: seq<Char>, base: nat)
    requires d < 16
    ensures Denoted([DigitChar(d, upper)] + rest, base) == d + base * Denoted(rest, base)
  {
    DigitRoundTrip(d, upper);
    assert ([DigitChar(d, upper)] + rest)[1..] == rest;
  }

  /** The digits denote the number modulo the largest power that fits: exactly the number when the loop did not run out of room. */
  lemma {:induction false} DigitsDenote(value: nat, base: nat, upper: bool, room: nat)
    requires PrintBase(base) && room > 0
    ensures Denoted(DigitsOf(value, base, upper, room), base) == value % Power(base, room)
    decreases room
  {
    ModStep(value, base, Power(base, room - 1));
    if value / base != 0 && room > 1 {
      DigitsDenote(value / base, base, upper, room - 1);
      DenotedStep(value % base, upper, DigitsOf(value / base, base, upper, room - 1), base);
    } else {
      DenotedStep(value % base, upper, [], base);
      LastDigit(value / base, Power(base, room - 1));
    }
  }

  lemma LastDigit(q: nat, p: nat)
    requires p > 0 && (q == 0 || p == 1)
    ensures q % p == 0
  {
    UniqueRemainder(q, p, if q == 0 then 0 else q, 0);
  }

  /** How many digits a number has. */
  function Places(value: nat, base: nat): (n: nat)
    requires PrintBase(base)
    ensures n > 0
  {
    if value / base == 0 then 1 else 1 + Places(value / base, base)
  }

  /** The loop produces all digits of the number, or as many as there is room for. */
  lemma {:induction false} DigitsCut(value: nat, base: nat, upper: bool, room: nat)
    requires PrintBase(base) && room > 0
    ensures |DigitsOf(value, base, upper, room)| == if Places(value, base) < room then Places(value, base) else room
    decreases room
  {
    if value / base != 0 && room > 1 {
      DigitsCut(value / base, base, upper, room - 1);
    }
  }

  lemma {:induction false} PlacesOfPower(base: nat, n: nat)
    requires PrintBase(base)
    ensures Places(Power(base, n), base) == n + 1
    decreases n
  {
    if n > 0 {
      var p := Power(base, n - 1);
      UniqueRemainder(Power(base, n), base, p, 0);
      PlacesOfPower(base, n - 1);
    }
  }

  /** Numbers below the power are printed with no more digits than needed. */
  lemma {:induction false} DigitCount(value: nat, base: nat, upper: bool, room: nat, n: nat)
    requires PrintBase(base) && 0 < n <= room && value < Power(base, n)
    ensures |DigitsOf(value, base, upper, room)| <= n
    decreases room
  {
    if value / base != 0 && room > 1 {
      QuotientBelow(value, base, Power(base, n - 1));
      DigitCount(value / base, base, upper, room - 1, n - 1);
    }
  }

  /** And with no leading zero. */
  lemma {:induction false} NoLeadingZero(value: nat, base: nat, upper: bool, room: nat)
    requires PrintBase(base) && room > 0 && 0 < value < Power(base, room)
    ensures var s := DigitsOf(value, base, upper, room); s[|s| - 1] != ZERO
    decreases room
  {
    var s := DigitsOf(value, base, upper, room);
    if value / base != 0 {
      QuotientBelow(value, base, Power(base, room - 1));
      NoLeadingZero(value / base, base, upper, room - 1);
      var rest := DigitsOf(value / base, base, upper, room - 1);
      assert s == [s[0]] + rest;
      assert s[|s| - 1] == rest[|rest| - 1];
    } else {
      NothingAbove(value, base);
      assert s == [DigitChar(value, upper)];
    }
  }

  lemma NothingAbove(v: nat, b: nat)
    requires b > 0 && v / b == 0
    ensures v % b == v
  {
    assert v == b * (v / b) + v % b;
  }

  lemma QuotientBelow(v: nat, b: nat, p: nat)
    requires b > 0 && v < b * p
    ensures v / b < p
  {
    assert v == b * (v / b) + v % b;
    if v / b >= p {
      Grow(b, p, v / b);
    }
  }
}
