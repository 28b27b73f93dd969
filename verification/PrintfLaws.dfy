/** What the formatted printer promises: truncation, numbers that read back, and where the `#` flag breaks them. */
module PrintfLaws {
  import opened Common
  import opened Arithmetic
  import opened Text
  import opened Sequences
  import opened Digits
  import opened NumberFormat
  import opened NumberReading
  import opened FormatSpec
  import opened Vsprintf

  /** A limited buffer holds the start of the text, closed by NUL, and is unchanged at and behind the limit. */
  lemma TruncatedPrefix(start: seq<Char>, text: seq<Char>, maxLen: nat)
    requires 0 < maxLen <= |start|
    ensures var k := Min(|text|, maxLen - 1); var b := Printed(start, text, maxLen, true);
      && k < |b| && b[..k] == text[..k] && b[k] == NUL
      && b[maxLen..] == start[maxLen..] && b[k + 1..] == start[k + 1..]
  {
  }

  /** The answer is the length of the text, up to the largest `int`; after that it wraps into the negative numbers. */
  lemma AnswerIsLengthIff(n: nat)
    ensures Signed(n, 0x8000_0000) == n <==> n < 0x8000_0000
  {
  }

  /** Without a buffer, or without any room, nothing is written. */
  lemma NothingWritten(start: seq<Char>, text: seq<Char>, maxLen: nat)
    ensures Printed(start, text, maxLen, false) == start && Printed(start, text, 0, true) == start
  {
  }

  /** What a smaller limit shows, a larger one shows too. */
  lemma LargerLimitShowsMore(start: seq<Char>, text: seq<Char>, small: nat, large: nat)
    requires 0 < small <= large <= |start|
    ensures var k := Min(|text|, small - 1);
      Printed(start, text, small, true)[..k] == Printed(start, text, large, true)[..k]
  {
    TruncatedPrefix(start, text, small);
    TruncatedPrefix(start, text, large);
  }

  /** A format without directives is its own text. */
  lemma {:induction false} PlainText(fmt: seq<Char>, i: nat, args: seq<Arg>)
    requires i <= |fmt| && forall k | i <= k < |fmt| :: fmt[k] != PERCENT
    ensures Render(fmt, i, args) == Some(fmt[i..])
    decreases |fmt| - i
  {
    if i < |fmt| {
      PlainText(fmt, i + 1, args);
      assert fmt[i..] == [fmt[i]] + fmt[i + 1..];
    }
  }

  /** Whatever the flags, width and precision, a signed decimal conversion reads back as its argument exactly when
      the argument is not negative, or digits and zeros leave room for the sign in the conversion buffer. */
  lemma SignedReadsBackIff(c: Char, bits: nat, prec: nat, width: nat, f: Flags)
    requires SignedSpecifier(c)
    ensures var v := IntegerArg(c, bits, f); var g := IntegerFlags(c, f); var d := |NumberDigits(Abs(v), 10, g)|;
      ReadText(IntegerText(c, bits, prec, width, f), 10) == v
      <==> v >= 0 || d + LeadingZeros(d, v < 0, prec, width, g) < NTOA_BUFFER
  {
    var v := IntegerArg(c, bits, f);
    TenDigitsSuffice();
    ReadBackIff(Abs(v), v < 0, 10, prec, width, IntegerFlags(c, f));
  }

  lemma TenDigitsSuffice()
    ensures SIZE_VALUES <= Power(10, NTOA_BUFFER)
  {
    assert Power(10, 4) == 10000;
    PowerAdds(10, 4, 4);
    PowerAdds(10, 8, 8);
    PowerAdds(10, 16, 16);
    Grow(Power(10, 16), 10000, Power(10, 16));
  }

  lemma {:induction false} PowerAdds(base: nat, m: nat, n: nat)
    ensures Power(base, m + n) == Power(base, m) * Power(base, n)
    decreases m
  {
    if m > 0 {
      PowerAdds(base, m - 1, n);
      Associate(base, Power(base, m - 1), Power(base, n));
    }
  }

  /** Minus five with a precision of 32 loses its sign. */
  lemma SignLost()
    ensures ReadText(NumberText(5, true, 10, 32, 0, {Precision}), 10) == 5
  {
    var d := NumberDigits(5, 10, {Precision});
    assert d == [ZERO + 5];
    ReadBack(5, true, 10, 32, 0, {Precision});
    TenDigitsSuffice();
    UniqueRemainder(5, Power(10, NTOA_BUFFER), 0, 5);
  }

  lemma ReduceStep(a: nat, d: nat, m: nat)
    requires m > 0
    ensures ((a % m) * 10 + d) % m == (a * 10 + d) % m
  {
    var q, r := a / m, a % m;
    assert a == m * q + r;
    var p, s := (r * 10 + d) / m, (r * 10 + d) % m;
    assert r * 10 + d == m * p + s;
    assert a * 10 + d == m * (q * 10 + p) + s by {
      Distribute(m, q * 10, p);
      Associate(m, q, 10);
    }
    UniqueRemainder(a * 10 + d, m, q * 10 + p, s);
  }

  /** `_atoi` reads a string of decimal digits as its number, modulo the 32 bits it has. */
  lemma {:induction false} AtoiReads(s: seq<Char>, i: nat)
    requires i <= |s| && forall k | 0 <= k < |s| :: IsDecimal(s[k])
    ensures Atoi(s, i, FromDigits(s[..i], 10) % UINT32_VALUES) == (FromDigits(s, 10) % UINT32_VALUES, |s|)
    decreases |s| - i
  {
    if i < |s| {
      assert s[..i + 1][..i] == s[..i];
      ReduceStep(FromDigits(s[..i], 10), s[i] - ZERO, UINT32_VALUES);
      AtoiReads(s, i + 1);
    } else {
      assert s[..i] == s;
    }
  }

  lemma {:induction false} DecimalDigits(value: nat, room: nat)
    requires room > 0
    ensures forall k | 0 <= k < |DigitsOf(value, 10, false, room)| :: IsDecimal(DigitsOf(value, 10, false, room)[k])
    decreases room
  {
    if value / 10 != 0 && room > 1 {
      DecimalDigits(value / 10, room - 1);
    }
  }

  lemma BareDirective(fmt: seq<Char>, args: seq<Arg>)
    requires |fmt| == 2 && IntegerSpecifier(fmt[1]) && |args| == 1 && args[0].Word?
    ensures Directive(fmt, 1, args) == Some((IntegerText(fmt[1], args[0].bits, 0, 0, {}), 2, args[1..]))
  {
    assert ParseFlags(fmt, 1, {}) == ({}, 1);
    assert ParseWidth(fmt, 1, {}, args) == Some(Field({}, 0, 1, args));
    assert ParsePrecision(fmt, 1, {}, args) == Some(Field({}, 0, 1, args));
    assert ParseLength(fmt, 1, {}) == ({}, 1);
  }

  /** A format that is just a percent sign and an integer specifier. */
  lemma BareConversion(fmt: seq<Char>, args: seq<Arg>)
    requires |fmt| == 2 && fmt[0] == PERCENT && IntegerSpecifier(fmt[1])
    requires |args| == 1 && args[0].Word?
    ensures Render(fmt, 0, args) == Some(IntegerText(fmt[1], args[0].bits, 0, 0, {}))
  {
    BareDirective(fmt, args);
    var text := IntegerText(fmt[1], args[0].bits, 0, 0, {});
    assert Render(fmt, 2, args[1..]) == Some([]);
    assert text + [] == text;
  }

  /** Without flags, width and precision a number is just its sign and digits. */
  lemma BareNumber(value: nat, negative: bool, base: nat, f: Flags)
    requires PrintBase(base) && f !! {ZeroPad, Left, Plus, Space, Hash, Precision}
    requires |DigitsOf(value, base, Upper in f, NTOA_BUFFER)| < NTOA_BUFFER
    ensures NumberText(value, negative, base, 0, 0, f)
      == (if negative then [MINUS] else []) + Reverse(DigitsOf(value, base, Upper in f, NTOA_BUFFER))
  {
    Layout(value, negative, base, 0, 0, f);
  }

  lemma {:induction false} DecimalCount(v: nat)
    requires v < SIZE_VALUES
    ensures |DigitsOf(v, 10, false, NTOA_BUFFER)| <= 20
  {
    assert Power(10, 4) == 10000;
    PowerAdds(10, 4, 4);
    PowerAdds(10, 8, 8);
    PowerAdds(10, 16, 4);
    DigitCount(v, 10, false, NTOA_BUFFER, 20);
  }

  /** `%u` of any 32-bit value, read by `_atoi`, is that value. */
  lemma UnsignedRoundTrip(fmt: seq<Char>, v: nat, args: seq<Arg>)
    requires fmt == [PERCENT, LOWER_U] && v < UINT32_VALUES && args == [Word(v)]
    ensures Render(fmt, 0, args).Some?
    ensures var text := Render(fmt, 0, args).value; Atoi(text, 0, 0) == (v, |text|)
  {
    var d := DigitsOf(v, 10, false, NTOA_BUFFER);
    BareConversion(fmt, args);
    UnsignedFlags(LOWER_U, v, 0, 0, {});
    DecimalCount(v);
    BareNumber(v, false, 10, {});
    DigitsReadByAtoi(v, Reverse(d));
    assert [] + Reverse(d) == Reverse(d);
  }

  lemma UnsignedFlags(c: Char, v: nat, prec: nat, width: nat, f: Flags)
    requires c == LOWER_U && v < UINT32_VALUES && f == {}
    ensures IntegerText(c, v, prec, width, f) == NumberText(v, false, 10, prec, width, f)
  {
    assert IntegerFlags(c, f) == f;
    assert IntegerArg(c, v, f) == v;
  }

  lemma DecimalDenotes(v: nat)
    requires v < SIZE_VALUES
    ensures FromDigits(Reverse(DigitsOf(v, 10, false, NTOA_BUFFER)), 10) == v
  {
    DigitsDenote(v, 10, false, NTOA_BUFFER);
    TenDigitsSuffice();
    UniqueRemainder(v, Power(10, NTOA_BUFFER), 0, v);
    ReversedDenotes(DigitsOf(v, 10, false, NTOA_BUFFER), 10);
  }

  lemma DigitsReadByAtoi(v: nat, text: seq<Char>)
    requires v < UINT32_VALUES && text == Reverse(DigitsOf(v, 10, false, NTOA_BUFFER))
    ensures Atoi(text, 0, 0) == (v, |text|)
  {
    DecimalDigits(v, NTOA_BUFFER);
    DecimalDenotes(v);
    AtoiReads(text, 0);
  }
}
