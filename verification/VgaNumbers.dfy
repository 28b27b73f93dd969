/** The numbers of `vga_printf`: digits written towards the front from the end of a small buffer, with the machine's own division. */
module VgaNumbers {
  import opened Common
  import opened Text
  import opened Sequences
  import opened Digits
  import opened NumberFormat
  import opened FormatSpec
  import opened PrintfLaws
  import opened Vsprintf

  /** `sizeof(buf)`. */
  const BUF: nat := 32

  /** Division and remainder by ten in C: towards zero. */
  function TenthOf(a: int): (q: int)
    ensures Abs(q) == Abs(a) / 10
  {
    if a >= 0 then a / 10 else -((-a) / 10)
  }

  function LastOf(a: int): (r: int)
    ensures -10 < r < 10
  {
    if a >= 0 then a % 10 else -((-a) % 10)
  }

  /** What the signed digit loop produces, least significant first. */
  function CDigits(v: int): (s: seq<Char>)
    ensures |s| > 0
    decreases Abs(v)
  {
    [ZERO + LastOf(v)] + if TenthOf(v) != 0 then CDigits(TenthOf(v)) else []
  }

  /** Negation in a signed type of `half + half` values; the most negative value stays as it is. */
  function Negated(v: int, half: nat): int
    requires 0 <= v + half && v < half
  {
    if v == -(half as int) then v else -v
  }

  function SignedText(v: int, half: nat): seq<Char>
    requires 0 <= v + half && v < half
  {
    (if v < 0 then [MINUS] else []) + Reverse(CDigits(if v < 0 then Negated(v, half) else v))
  }

  lemma {:induction false} CDigitsBelow(v: int, n: nat)
    requires n > 0 && Abs(v) < Power(10, n)
    ensures |CDigits(v)| <= n
    decreases n
  {
    if TenthOf(v) != 0 {
      QuotientBelow(Abs(v), 10, Power(10, n - 1));
      CDigitsBelow(TenthOf(v), n - 1);
    }
  }

  lemma {:induction false} CDigitsOfNat(v: nat, room: nat)
    requires room > 0 && v < Power(10, room)
    ensures CDigits(v) == DigitsOf(v, 10, false, room)
    decreases room
  {
    if v / 10 != 0 {
      QuotientBelow(v, 10, Power(10, room - 1));
      CDigitsOfNat(v / 10, room - 1);
    }
  }

  lemma TwentyDigits()
    ensures Power(10, 20) > SIZE_VALUES
  {
    assert Power(10, 4) == 10000;
    PowerAdds(10, 4, 4);
    PowerAdds(10, 8, 8);
    PowerAdds(10, 16, 4);
  }

  /** `*--p = c`. */
  method PushFront(buf: array<Char>, p: nat, c: Char) returns (q: nat)
    requires buf.Length == BUF && 0 < p < BUF
    modifies buf
    ensures q == p - 1 && buf[q..BUF - 1] == [c] + old(buf[p..BUF - 1])
    ensures buf[BUF - 1] == old(buf[BUF - 1])
  {
    q := p - 1;
    buf[q] := c;
  }

  /** `done` is out, the digits of `v` are still to come while there are `more`. */
  ghost predicate Emitted(done: seq<Char>, v: int, more: bool, all: seq<Char>) {
    all == done + if more then CDigits(v) else []
  }

  lemma EmitStep(done: seq<Char>, v: int, all: seq<Char>)
    requires Emitted(done, v, true, all)
    ensures Emitted(done + [ZERO + LastOf(v)], TenthOf(v), TenthOf(v) != 0, all) && |done| < |all|
    ensures TenthOf(v) != 0 ==> Abs(TenthOf(v)) < Abs(v)
  {
    var rest := if TenthOf(v) != 0 then CDigits(TenthOf(v)) else [];
    assert (done + [ZERO + LastOf(v)]) + rest == done + ([ZERO + LastOf(v)] + rest);
  }

  /** The loop of the signed conversions. */
  method FillDecimal(buf: array<Char>, value: int) returns (p: nat)
    requires buf.Length == BUF && buf[BUF - 1] == NUL && Abs(value) < Power(10, 20)
    modifies buf
    ensures p == BUF - 1 - |CDigits(value)| >= 11 && buf[BUF - 1] == NUL && buf[p..BUF - 1] == Reverse(CDigits(value))
  {
    var v := value;
    ghost var all := CDigits(v);
    ghost var done: seq<Char> := [];
    CDigitsBelow(v, 20);
    p := BUF - 1;
    var more := true;
    while more
      invariant p == BUF - 1 - |done| && buf[BUF - 1] == NUL && buf[p..BUF - 1] == Reverse(done)
      invariant |all| <= 20 && Emitted(done, v, more, all)
      decreases more, Abs(v)
    {
      EmitStep(done, v, all);
      p := PushFront(buf, p, ZERO + LastOf(v));
      ReverseLast(done, ZERO + LastOf(v));
      done := done + [ZERO + LastOf(v)];
      v := TenthOf(v);
      more := v != 0;
    }
  }

  /** The signed conversions fill the buffer from its end and never run over its start. */
  method FillSigned(buf: array<Char>, value: int, half: nat) returns (p: nat)
    requires buf.Length == BUF && (half == 0x8000_0000 || half == 0x8000_0000_0000_0000)
    requires 0 <= value + half && value < half
    modifies buf
    ensures p < BUF && buf[BUF - 1] == NUL && buf[p..BUF - 1] == SignedText(value, half)
  {
    TwentyDigits();
    buf[BUF - 1] := NUL;
    p := FillDecimal(buf, if value < 0 then Negated(value, half) else value);
    if value < 0 {
      p := PushFront(buf, p, MINUS);
    }
  }

  /** The unsigned conversions; in base 16 the source masks and shifts, which on unsigned words is remainder and division by 16. */
  method FillUnsigned(buf: array<Char>, value: nat, base: nat) returns (p: nat)
    requires buf.Length == BUF && value < SIZE_VALUES && (base == 10 || base == 16)
    modifies buf
    ensures p < BUF && buf[BUF - 1] == NUL
    ensures buf[p..BUF - 1] == NumberText(value, false, base, 0, 0, {})
  {
    var v := value;
    ghost var all := DigitsOf(value, base, false, NTOA_BUFFER);
    ghost var done: seq<Char> := [];
    UnsignedCount(value, base);
    UnsignedBare(value, base);
    p := BUF - 1;
    buf[p] := NUL;
    var more := true;
    while more
      invariant p == BUF - 1 - |done| && buf[BUF - 1] == NUL && 0 <= v && buf[p..BUF - 1] == Reverse(done)
      invariant Filled(done, v, more, all, base, false) && |all| <= 20
      decreases more, v
    {
      FillStep(done, v, all, base, false);
      p := PushFront(buf, p, LowDigit(v, base, false));
      ReverseLast(done, LowDigit(v, base, false));
      done := done + [LowDigit(v, base, false)];
      QuotientSmaller(v, base);
      v := Quotient(v, base);
      more := v != 0;
    }
  }

  lemma QuotientSmaller(v: nat, base: nat)
    requires base == 10 || base == 16
    ensures v > 0 ==> Quotient(v, base) < v
    ensures v == 0 ==> Quotient(v, base) == 0
  {
  }

  lemma UnsignedBare(value: nat, base: nat)
    requires value < SIZE_VALUES && (base == 10 || base == 16)
    ensures NumberText(value, false, base, 0, 0, {}) == Reverse(DigitsOf(value, base, false, NTOA_BUFFER))
    ensures [] + DigitsOf(value, base, false, NTOA_BUFFER) == DigitsOf(value, base, false, NTOA_BUFFER)
  {
    var none: Flags := {};
    UnsignedCount(value, base);
    BareNumber(value, false, base, none);
    assert [] + Reverse(DigitsOf(value, base, false, NTOA_BUFFER)) == Reverse(DigitsOf(value, base, false, NTOA_BUFFER));
  }

  lemma UnsignedCount(v: nat, base: nat)
    requires v < SIZE_VALUES && (base == 10 || base == 16)
    ensures |DigitsOf(v, base, false, NTOA_BUFFER)| <= 20
  {
    if base == 10 {
      DecimalCount(v);
    } else {
      assert Power(16, 4) == 0x1_0000;
      PowerAdds(16, 4, 4);
      PowerAdds(16, 8, 8);
      DigitCount(v, 16, false, NTOA_BUFFER, 16);
    }
  }

  /** The digits of the most negative value come out below the character zero. */
  lemma MostNegativeDiffers(half: nat)
    requires half == 0x8000_0000 || half == 0x8000_0000_0000_0000
    ensures SignedText(-(half as int), half) != [MINUS] + Reverse(DigitsOf(half, 10, false, NTOA_BUFFER))
  {
    var v := -(half as int);
    var a, n := SignedText(v, half), [MINUS] + Reverse(DigitsOf(half, 10, false, NTOA_BUFFER));
    assert n[|n| - 1] == DigitsOf(half, 10, false, NTOA_BUFFER)[0];
    assert DigitsOf(half, 10, false, NTOA_BUFFER)[0] == ZERO + 8;
    assert a[|a| - 1] == CDigits(v)[0];
    assert LastOf(v) == -8;
  }

  /** The two printers write a signed number alike exactly when it is not the most negative one. */
  lemma PrintersAgreeIff(v: int, half: nat)
    requires half == 0x8000_0000 || half == 0x8000_0000_0000_0000
    requires 0 <= v + half && v < half
    ensures SignedText(v, half) == NumberText(Abs(v), v < 0, 10, 0, 0, {}) <==> v != -(half as int)
  {
    var none: Flags := {};
    DecimalCount(Abs(v));
    BareNumber(Abs(v), v < 0, 10, none);
    if v != -(half as int) {
      TenDigitsSuffice();
      CDigitsOfNat(Abs(v), NTOA_BUFFER);
    } else {
      MostNegativeDiffers(half);
    }
  }
}
