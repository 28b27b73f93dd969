/** The formatted printer: a parser over the format string, in-place conversion buffers, and a bounded output buffer. */
module Vsprintf {
  import opened Common
  import opened Text
  import opened Sequences
  import opened Digits
  import opened NumberFormat
  import opened FormatSpec

  /** The buffer while `text` is being written to it: everything below the limit, and nothing else. */
  function Window(start: seq<Char>, text: seq<Char>, maxLen: nat, present: bool): (r: seq<Char>)
    ensures |r| == |start|
  {
    seq(|start|, k requires 0 <= k < |start| =>
      if present && k < |text| && k < maxLen then text[k] else start[k])
  }

  /** The buffer a call leaves: as much of the text as fits before the limit, a NUL, and the old contents. */
  function Printed(start: seq<Char>, text: seq<Char>, maxLen: nat, present: bool): (r: seq<Char>)
    ensures |r| == |start|
  {
    seq(|start|, k requires 0 <= k < |start| =>
      if !present || maxLen == 0 then start[k]
      else if k < |text| && k < maxLen - 1 then text[k]
      else if k == Min(|text|, maxLen - 1) then NUL
      else start[k])
  }

  lemma Closing(start: seq<Char>, text: seq<Char>, maxLen: nat, present: bool)
    requires present ==> maxLen <= |start|
    ensures present && maxLen > 0 ==>
      Window(start, text, maxLen, present)[Min(|text|, maxLen - 1) := NUL] == Printed(start, text, maxLen, present)
    ensures !present || maxLen == 0 ==> Window(start, text, maxLen, present) == Printed(start, text, maxLen, present)
  {
    if present && maxLen > 0 {
      var w := Window(start, text, maxLen, present)[Min(|text|, maxLen - 1) := NUL];
      assert forall k | 0 <= k < |start| :: w[k] == Printed(start, text, maxLen, present)[k];
    }
  }

  /** Where the characters go: `_out_buffer`, or `_out_null` when there is no buffer. */
  class Sink {
    const present: bool
    const buffer: array<Char>
    const maxLen: nat
    ghost var start: seq<Char>
    ghost var text: seq<Char>

    ghost predicate Valid()
      reads this, buffer
    {
      && (present ==> maxLen <= buffer.Length) && |start| == buffer.Length
      && buffer[..] == Window(start, text, maxLen, present)
    }

    constructor (present: bool, buffer: array<Char>, maxLen: nat)
      requires present ==> maxLen <= buffer.Length
      ensures Valid() && text == [] && start == buffer[..]
      ensures this.present == present && this.buffer == buffer && this.maxLen == maxLen
    {
      this.present, this.buffer, this.maxLen := present, buffer, maxLen;
      start, text := buffer[..], [];
      new;
      assert buffer[..] == Window(start, text, maxLen, present);
    }

    method Out(c: Char, idx: nat)
      requires Valid() && idx == |text|
      modifies this`text, buffer
      ensures Valid() && text == old(text) + [c]
    {
      if present && idx < maxLen {
        buffer[idx] := c;
      }
      text := text + [c];
      assert buffer[..] == Window(start, text, maxLen, present);
    }

    /** Writes the terminating NUL at or before the limit. */
    method Terminate(idx: nat)
      requires Valid() && idx == |text|
      modifies buffer
      ensures buffer[..] == Printed(start, text, maxLen, present)
    {
      // without any room the limit less one wraps around and nothing is written
      Closing(start, text, maxLen, present);
      if present && maxLen > 0 {
        ghost var was := buffer[..];
        var last := if idx < maxLen then idx else maxLen - 1;
        buffer[last] := NUL;
        assert buffer[..] == was[last := NUL];
      }
    }

    /** Spaces while a counter runs from `from` up to `width`. */
    method Spaces(idx: nat, from: nat, width: nat) returns (end: nat)
      requires Valid() && idx == |text|
      modifies this`text, buffer
      ensures Valid() && end == |text| && text == old(text) + Repeat(SPACE, width - from)
    {
      end := idx;
      var i := from;
      while i < width
        invariant Valid() && end == |text| && i >= from && (i > from ==> i <= width)
        invariant text == old(text) + Repeat(SPACE, i - from)
      {
        Out(SPACE, end);
        end := end + 1;
        i := i + 1;
      }
    }

    method OutRev(idx: nat, buf: array<Char>, len: nat, width: nat, f: Flags) returns (end: nat)
      requires Valid() && idx == |text| && buf != buffer && len <= buf.Length
      modifies this`text, buffer
      ensures Valid() && end == |text| && text == old(text) + Placed(buf[..len], width, f)
    {
      end := idx;
      if Left !in f && ZeroPad !in f {
        end := Spaces(end, len, width);
      }
      ghost var before := text;
      ghost var b := buf[..len];
      var left := len;
      while left > 0
        invariant Valid() && 0 <= left <= len && end == |text| && buf[..len] == b
        invariant text == before + Reverse(b)[..len - left]
      {
        left := left - 1;
        Out(buf[left], end);
        assert Reverse(b)[..len - left] == Reverse(b)[..len - left - 1] + [buf[left]];
        end := end + 1;
      }
      assert Reverse(b)[..len] == Reverse(b);
      if Left in f {
        // the source counts from the start of the conversion, which is what has been written since
        end := Spaces(end, end - idx, width);
      }
    }
  }

  /** `_buf[_len++] = c` until the buffer holds `n` characters or is full. */
  method PadZeros(buf: array<Char>, len: nat, n: nat) returns (end: nat)
    requires buf.Length == NTOA_BUFFER && len <= NTOA_BUFFER
    modifies buf
    ensures end <= NTOA_BUFFER && buf[..end] == PadTo(old(buf[..len]), n)
  {
    end := len;
    ghost var b := buf[..len];
    while end < n && end < NTOA_BUFFER
      invariant len <= end <= NTOA_BUFFER && (end > len ==> end <= n)
      invariant buf[..end] == b + Repeat(ZERO, end - len)
    {
      buf[end] := ZERO;
      end := end + 1;
      assert buf[..end] == buf[..end - 1] + [ZERO];
    }
  }

  /** Puts one more character into the conversion buffer if there is room. */
  method Push(buf: array<Char>, len: nat, c: Char) returns (end: nat)
    requires buf.Length == NTOA_BUFFER && len <= NTOA_BUFFER
    modifies buf
    ensures end <= NTOA_BUFFER && buf[..end] == Room(old(buf[..len]), [c])
  {
    end := len;
    if len < NTOA_BUFFER {
      buf[len] := c;
      end := len + 1;
    }
  }

  method PushPrefix(buf: array<Char>, len: nat, base: nat, prec: nat, width: nat, f: Flags) returns (end: nat)
    requires buf.Length == NTOA_BUFFER && len <= NTOA_BUFFER && Hash in f && PrintBase(base)
    modifies buf
    ensures end <= NTOA_BUFFER && buf[..end] == Prefixed(old(buf[..len]), base, prec, width, f)
  {
    end := len;
    ghost var b := buf[..len];
    if Precision !in f && end > 0 && (end == prec || end == width) {
      end := end - 1;
      if end > 0 && base == 16 {
        end := end - 1;
      }
    }
    assert buf[..end] == b[..len - HashDrop(len, base, prec, width, f)];
    if base == 16 && Upper !in f && end < NTOA_BUFFER {
      end := Push(buf, end, LOWER_X);
    } else if base == 16 && Upper in f && end < NTOA_BUFFER {
      end := Push(buf, end, UPPER_X);
    } else if base == 2 && end < NTOA_BUFFER {
      end := Push(buf, end, LOWER_B);
    }
    end := Push(buf, end, ZERO);
  }

  method PushSign(buf: array<Char>, len: nat, negative: bool, f: Flags) returns (end: nat)
    requires buf.Length == NTOA_BUFFER && len <= NTOA_BUFFER
    modifies buf
    ensures end <= NTOA_BUFFER && buf[..end] == Room(old(buf[..len]), SignOf(negative, f))
  {
    end := len;
    if len < NTOA_BUFFER {
      if negative {
        end := Push(buf, len, MINUS);
      } else if Plus in f {
        end := Push(buf, len, PLUS);
      } else if Space in f {
        end := Push(buf, len, SPACE);
      }
    }
  }

  /** The part of `_ntoa_format` that works on the conversion buffer; also the width it goes on with. */
  method FinishBuffer(buf: array<Char>, len: nat, negative: bool, base: nat, prec: nat, width: nat, f: Flags)
    returns (n: nat, w: nat)
    requires buf.Length == NTOA_BUFFER && len <= NTOA_BUFFER && PrintBase(base)
    modifies buf
    ensures w == PadWidth(negative, width, f)
    ensures n <= NTOA_BUFFER && buf[..n] == Buffered(old(buf[..len]), negative, base, prec, width, f)
  {
    w, n := width, len;
    if Left !in f {
      if width > 0 && ZeroPad in f && (negative || Plus in f || Space in f) {
        w := w - 1;
      }
      n := PadZeros(buf, n, prec);
      if ZeroPad in f {
        n := PadZeros(buf, n, w);
      }
    }
    if Hash in f {
      n := PushPrefix(buf, n, base, prec, w, f);
    }
    n := PushSign(buf, n, negative, f);
  }

  method NtoaFormat(sink: Sink, idx: nat, buf: array<Char>, len: nat, negative: bool, base: nat,
                    prec: nat, width: nat, f: Flags) returns (end: nat)
    requires sink.Valid() && idx == |sink.text| && buf != sink.buffer && PrintBase(base)
    requires buf.Length == NTOA_BUFFER && len <= NTOA_BUFFER
    modifies sink`text, sink.buffer, buf
    ensures sink.Valid() && end == |sink.text|
    ensures sink.text == old(sink.text)
      + Placed(Buffered(old(buf[..len]), negative, base, prec, width, f), PadWidth(negative, width, f), f)
  {
    var n, w := FinishBuffer(buf, len, negative, base, prec, width, f);
    end := sink.OutRev(idx, buf, n, w, f);
  }

  /** The buffer and what is still to be done for the number make up all its digits. */
  ghost predicate Filled(done: seq<Char>, v: nat, more: bool, all: seq<Char>, base: nat, upper: bool)
    requires PrintBase(base)
  {
    if more then |done| < NTOA_BUFFER && all == done + DigitsOf(v, base, upper, NTOA_BUFFER - |done|)
    else |done| <= NTOA_BUFFER && all == done
  }

  lemma FillStep(done: seq<Char>, v: nat, all: seq<Char>, base: nat, upper: bool)
    requires PrintBase(base) && Filled(done, v, true, all, base, upper)
    ensures var more := Quotient(v, base) != 0 && |done| + 1 < NTOA_BUFFER;
      Filled(done + [LowDigit(v, base, upper)], Quotient(v, base), more, all, base, upper)
  {
    var c, room := LowDigit(v, base, upper), NTOA_BUFFER - |done|;
    var rest := if Quotient(v, base) != 0 && room > 1 then DigitsOf(Quotient(v, base), base, upper, room - 1) else [];
    assert DigitsOf(v, base, upper, room) == [c] + rest;
    assert done + ([c] + rest) == (done + [c]) + rest;
  }

  /** The digit loop, the same for `long` and `long long`. */
  method FillDigits(buf: array<Char>, value: nat, base: nat, upper: bool) returns (len: nat)
    requires buf.Length == NTOA_BUFFER && PrintBase(base)
    modifies buf
    ensures len <= NTOA_BUFFER && buf[..len] == DigitsOf(value, base, upper, NTOA_BUFFER)
  {
    len := 0;
    var v: nat := value;
    ghost var all := DigitsOf(value, base, upper, NTOA_BUFFER);
    assert [] + all == all;
    var more := true;
    while more
      invariant len <= NTOA_BUFFER && Filled(buf[..len], v, more, all, base, upper)
      decreases more, NTOA_BUFFER - len
    {
      ghost var done := buf[..len];
      FillStep(done, v, all, base, upper);
      buf[len] := LowDigit(v, base, upper);
      len := len + 1;
      assert buf[..len] == done + [LowDigit(v, base, upper)];
      v := Quotient(v, base);
      more := v != 0 && len < NTOA_BUFFER;
    }
  }

  /** The conversion buffer with the digits of a number, as `_ntoa_long` starts it. */
  method MakeDigits(value: nat, base: nat, f: Flags) returns (buf: array<Char>, len: nat)
    requires PrintBase(base)
    ensures fresh(buf) && buf.Length == NTOA_BUFFER
    ensures len <= NTOA_BUFFER && buf[..len] == NumberDigits(value, base, f)
  {
    buf := new Char[NTOA_BUFFER](_ => 0);
    len := 0;
    if Precision !in f || value != 0 {
      len := FillDigits(buf, value, base, Upper in f);
    }
  }

  method NtoaLong(sink: Sink, idx: nat, value: nat, negative: bool, base: nat, prec: nat, width: nat, flags: Flags)
    returns (end: nat)
    requires sink.Valid() && idx == |sink.text| && PrintBase(base)
    modifies sink`text, sink.buffer
    ensures sink.Valid() && end == |sink.text|
    ensures sink.text == old(sink.text) + NumberText(value, negative, base, prec, width, flags)
  {
    var f := flags;
    if value == 0 {
      f := f - {Hash};
    }
    var buf, len := MakeDigits(value, base, f);
    end := NtoaFormat(sink, idx, buf, len, negative, base, prec, width, f);
  }

  /** `_strnlen_s`. */
  method StrNLenS(s: seq<Char>, maxSize: nat) returns (n: nat)
    requires NoNul(s)
    ensures n == Min(|s|, maxSize)
  {
    n := 0;
    var left := maxSize;
    while At(s, n) != NUL && left > 0
      invariant 0 <= n <= |s| && left == maxSize - n >= 0
      decreases left
    {
      left := left - 1;
      n := n + 1;
    }
  }

  method ReadNumber(fmt: seq<Char>, i: nat) returns (n: nat, next: nat)
    ensures (n, next) == Atoi(fmt, i, 0)
  {
    n, next := 0, i;
    while next < |fmt| && IsDecimal(fmt[next])
      invariant Atoi(fmt, i, 0) == Atoi(fmt, next, n)
      decreases |fmt| - next
    {
      n := (n * 10 + (fmt[next] - ZERO)) % UINT32_VALUES;
      next := next + 1;
    }
  }

  method ReadFlags(fmt: seq<Char>, i: nat) returns (f: Flags, next: nat)
    ensures (f, next) == ParseFlags(fmt, i, {})
  {
    f, next := {}, i;
    var more := true;
    while more
      invariant ParseFlags(fmt, i, {}) == ParseFlags(fmt, next, f)
      invariant !more ==> ParseFlags(fmt, next, f) == (f, next)
      decreases if next <= |fmt| then |fmt| - next else 0, more
    {
      var c := At(fmt, next);
      if c == ZERO {
        f := f + {ZeroPad};
        next := next + 1;
      } else if c == MINUS {
        f := f + {Left};
        next := next + 1;
      } else if c == PLUS {
        f := f + {Plus};
        next := next + 1;
      } else if c == SPACE {
        f := f + {Space};
        next := next + 1;
      } else if c == HASH {
        f := f + {Hash};
        next := next + 1;
      } else {
        more := false;
      }
    }
  }

  /** The width field; `args` are the variadic arguments left. */
  method ReadWidth(fmt: seq<Char>, i: nat, f: Flags, args: seq<Arg>) returns (r: Field)
    requires ParseWidth(fmt, i, f, args).Some?
    ensures r == ParseWidth(fmt, i, f, args).value
  {
    if IsDecimal(At(fmt, i)) {
      var n, next := ReadNumber(fmt, i);
      r := Field(f, n, next, args);
    } else if At(fmt, i) == STAR {
      var w := Signed(args[0].bits, 0x8000_0000);
      if w < 0 {
        r := Field(f + {Left}, -w, i + 1, args[1..]);
      } else {
        r := Field(f, w, i + 1, args[1..]);
      }
    } else {
      r := Field(f, 0, i, args);
    }
  }

  method ReadPrecision(fmt: seq<Char>, i: nat, f: Flags, args: seq<Arg>) returns (r: Field)
    requires ParsePrecision(fmt, i, f, args).Some?
    ensures r == ParsePrecision(fmt, i, f, args).value
  {
    r := Field(f, 0, i, args);
    if At(fmt, i) == DOT {
      r := Field(f + {Precision}, 0, i + 1, args);
      if IsDecimal(At(fmt, i + 1)) {
        var n, next := ReadNumber(fmt, i + 1);
        r := r.(n := n, next := next);
      } else if At(fmt, i + 1) == STAR {
        var p := Signed(args[0].bits, 0x8000_0000);
        r := r.(n := if p > 0 then p else 0, next := i + 2, args := args[1..]);
      }
    }
  }

  /** The base of an integer specifier, and the flags it leaves in force. */
  method SetUpInteger(c: Char, flags: Flags) returns (base: nat, f: Flags)
    requires IntegerSpecifier(c)
    ensures base == BaseOf(c) && f == IntegerFlags(c, flags)
  {
    f := flags;
    if c == LOWER_X || c == UPPER_X {
      base := 16;
    } else if c == LOWER_O {
      base := 8;
    } else if c == LOWER_B {
      base := 2;
    } else {
      base := 10;
      f := f - {Hash};
    }
    if c == UPPER_X {
      f := f + {Upper};
    }
    if c != LOWER_I && c != LOWER_D {
      f := f - {Plus, Space};
    }
    if Precision in f {
      f := f - {ZeroPad};
    }
  }

  /** The argument of an integer conversion as magnitude and sign. */
  method TakeInteger(c: Char, f: Flags, bits: nat) returns (value: nat, negative: bool)
    ensures value == Abs(IntegerArg(c, bits, f)) && negative == (IntegerArg(c, bits, f) < 0)
  {
    var half := if LongLong in f || Long in f then 0x8000_0000_0000_0000
                else if Chr in f then 0x80 else if Short in f then 0x8000 else 0x8000_0000;
    if c == LOWER_I || c == LOWER_D {
      var v := Signed(bits, half);
      value, negative := if v > 0 then v else 0 - v, v < 0;
    } else {
      value, negative := bits % (half + half), false;
    }
  }

  method ConvertInteger(sink: Sink, idx: nat, c: Char, flags: Flags, width: nat, prec: nat, bits: nat) returns (end: nat)
    requires sink.Valid() && idx == |sink.text| && IntegerSpecifier(c)
    modifies sink`text, sink.buffer
    ensures sink.Valid() && end == |sink.text|
    ensures sink.text == old(sink.text) + IntegerText(c, bits, prec, width, flags)
  {
    var base, f := SetUpInteger(c, flags);
    var value, negative := TakeInteger(c, flags, bits);
    end := NtoaLong(sink, idx, value, negative, base, prec, width, f);
  }

  method ConvertChar(sink: Sink, idx: nat, c: Char, width: nat, f: Flags) returns (end: nat)
    requires sink.Valid() && idx == |sink.text|
    modifies sink`text, sink.buffer
    ensures sink.Valid() && end == |sink.text| && sink.text == old(sink.text) + Aligned([c], width, f)
  {
    end := idx;
    if Left !in f {
      end := sink.Spaces(end, 1, width);
    }
    sink.Out(c, end);
    end := end + 1;
    if Left in f {
      end := sink.Spaces(end, 1, width);
    }
  }

  method ConvertString(sink: Sink, idx: nat, s: seq<Char>, width: nat, prec: nat, f: Flags) returns (end: nat)
    requires sink.Valid() && idx == |sink.text| && NoNul(s) && |s| < UINT32_VALUES && (prec > 0 ==> Precision in f)
    modifies sink`text, sink.buffer
    ensures sink.Valid() && end == |sink.text|
    ensures sink.text == old(sink.text) + Aligned(StringShown(s, prec, f), width, f)
  {
    end := idx;
    var l := StrNLenS(s, if prec > 0 then prec else SIZE_VALUES - 1);
    if Precision in f {
      l := if l < prec then l else prec;
    }
    ghost var shown := StringShown(s, prec, f);
    assert l == |shown|;
    if Left !in f {
      end := sink.Spaces(end, l, width);
    }
    ghost var before := sink.text;
    var p, left := 0, prec;
    while At(s, p) != NUL && (Precision !in f || left > 0)
      invariant 0 <= p <= |shown| && (Precision in f ==> left == prec - p >= 0)
      invariant sink.Valid() && end == |sink.text| && sink.text == before + shown[..p]
      decreases |s| - p
    {
      if Precision in f {
        left := left - 1;
      }
      sink.Out(s[p], end);
      assert shown[..p + 1] == shown[..p] + [s[p]];
      p := p + 1;
      end := end + 1;
    }
    assert shown[..p] == shown;
    if Left in f {
      end := sink.Spaces(end, l, width);
    }
  }

  /** The specifier switch. */
  method ConvertOne(sink: Sink, idx: nat, c: Char, f: Flags, width: nat, prec: nat, args: seq<Arg>)
    returns (end: nat, rest: seq<Arg>)
    requires sink.Valid() && idx == |sink.text| && ValidArgs(args) && (prec > 0 ==> Precision in f)
    requires Convert(c, f, width, prec, args).Some?
    modifies sink`text, sink.buffer
    ensures sink.Valid() && end == |sink.text| && ValidArgs(rest)
    ensures sink.text == old(sink.text) + Convert(c, f, width, prec, args).value.0
    ensures rest == Convert(c, f, width, prec, args).value.1
  {
    rest := args;
    if args != [] {
      TailValid(args);
    }
    if IntegerSpecifier(c) {
      end := ConvertInteger(sink, idx, c, f, width, prec, args[0].bits);
      rest := args[1..];
    } else if c == LOWER_C {
      end := ConvertChar(sink, idx, args[0].bits % 0x100, width, f);
      rest := args[1..];
    } else if c == LOWER_S {
      end := ConvertString(sink, idx, args[0].s, width, prec, f);
      rest := args[1..];
    } else if c == LOWER_P {
      end := NtoaLong(sink, idx, args[0].bits, false, 16, prec, 16, f + {ZeroPad, Upper});
      rest := args[1..];
    } else {
      // `%%` and unknown specifiers print the character itself
      sink.Out(c, idx);
      end := idx + 1;
    }
  }

  lemma TailValid(args: seq<Arg>)
    requires ValidArgs(args) && args != []
    ensures ValidArgs(args[1..])
  {
  }

  lemma WidthArgs(fmt: seq<Char>, i: nat, f: Flags, args: seq<Arg>)
    requires ValidArgs(args) && ParseWidth(fmt, i, f, args).Some?
    ensures ValidArgs(ParseWidth(fmt, i, f, args).value.args)
  {
    if args != [] {
      TailValid(args);
    }
  }

  lemma PrecisionArgs(fmt: seq<Char>, i: nat, f: Flags, args: seq<Arg>)
    requires ValidArgs(args) && ParsePrecision(fmt, i, f, args).Some?
    ensures ValidArgs(ParsePrecision(fmt, i, f, args).value.args)
    ensures var p := ParsePrecision(fmt, i, f, args).value; p.n > 0 ==> Precision in p.f
  {
    if args != [] {
      TailValid(args);
    }
  }

  lemma LengthKeepsPrecision(fmt: seq<Char>, i: nat, f: Flags)
    ensures Precision in ParseLength(fmt, i, f).0 <==> Precision in f
  {
  }

  method ReadLength(fmt: seq<Char>, i: nat, flags: Flags) returns (f: Flags, j: nat)
    ensures (f, j) == ParseLength(fmt, i, flags)
  {
    f, j := flags, i;
    if At(fmt, j) == LOWER_L {
      f := f + {Long};
      j := j + 1;
      if At(fmt, j) == LOWER_L {
        f := f + {LongLong};
        j := j + 1;
      }
    } else if At(fmt, j) == LOWER_H {
      f := f + {Short};
      j := j + 1;
      if At(fmt, j) == LOWER_H {
        f := f + {Chr};
        j := j + 1;
      }
    } else if At(fmt, j) == LOWER_T || At(fmt, j) == LOWER_J || At(fmt, j) == LOWER_Z {
      f := f + {Long};
      j := j + 1;
    }
  }

  /** One directive, from behind its `%`. */
  method OneDirective(sink: Sink, idx: nat, fmt: seq<Char>, i: nat, args: seq<Arg>)
    returns (end: nat, next: nat, rest: seq<Arg>)
    requires sink.Valid() && idx == |sink.text| && ValidArgs(args) && Directive(fmt, i, args).Some?
    modifies sink`text, sink.buffer
    ensures sink.Valid() && end == |sink.text| && ValidArgs(rest)
    ensures sink.text == old(sink.text) + Directive(fmt, i, args).value.0
    ensures next == Directive(fmt, i, args).value.1 && rest == Directive(fmt, i, args).value.2
  {
    var f, j := ReadFlags(fmt, i);
    var w := ReadWidth(fmt, j, f, args);
    WidthArgs(fmt, j, f, args);
    var p := ReadPrecision(fmt, w.next, w.f, w.args);
    PrecisionArgs(fmt, w.next, w.f, w.args);
    LengthKeepsPrecision(fmt, p.next, p.f);
    f, j := ReadLength(fmt, p.next, p.f);
    end, rest := ConvertOne(sink, idx, fmt[j], f, w.n, p.n, p.args);
    next := j + 1;
  }

  /** What is written and what the rest of the format denotes make up the whole text. */
  ghost predicate Underway(text: seq<Char>, fmt: seq<Char>, i: nat, args: seq<Arg>, whole: seq<Char>) {
    ValidArgs(args) && Render(fmt, i, args).Some? && whole == text + Render(fmt, i, args).value
  }

  /** One turn of the loop: a character of the format, or a directive. */
  method OneTurn(sink: Sink, idx: nat, fmt: seq<Char>, i: nat, args: seq<Arg>, ghost whole: seq<Char>)
    returns (end: nat, next: nat, rest: seq<Arg>)
    requires sink.Valid() && idx == |sink.text| && i < |fmt| && Underway(sink.text, fmt, i, args, whole)
    modifies sink`text, sink.buffer
    ensures sink.Valid() && end == |sink.text| && i < next <= |fmt| && Underway(sink.text, fmt, next, rest, whole)
  {
    if fmt[i] != PERCENT {
      LiteralStep(sink.text, fmt, i, args);
      sink.Out(fmt[i], idx);
      end, next, rest := idx + 1, i + 1, args;
    } else {
      DirectiveStep(sink.text, fmt, i, args);
      end, next, rest := OneDirective(sink, idx, fmt, i + 1, args);
    }
  }

  /** `_vsnprintf`: the buffer gets as much of the text as fits before the limit, closed by a NUL, and nothing behind it changes;
      the result is the length of the whole text as an `int`, whatever the limit. */
  method Vsnprintf(present: bool, buffer: array<Char>, maxLen: nat, fmt: seq<Char>, args: seq<Arg>) returns (r: int)
    requires (present ==> maxLen <= buffer.Length) && maxLen < SIZE_VALUES
    requires NoNul(fmt) && ValidArgs(args)
    requires Render(fmt, 0, args).Some? && |Render(fmt, 0, args).value| < SIZE_VALUES
    modifies buffer
    ensures buffer[..] == Printed(old(buffer[..]), Render(fmt, 0, args).value, maxLen, present)
    ensures r == Signed(|Render(fmt, 0, args).value|, 0x8000_0000)
  {
    var sink := new Sink(present, buffer, maxLen);
    ghost var whole := Render(fmt, 0, args).value;
    ghost var start := buffer[..];
    var idx, i, va := 0, 0, args;
    while i < |fmt|
      invariant sink.Valid() && sink.buffer == buffer && sink.start == start && idx == |sink.text|
      invariant i <= |fmt| && Underway(sink.text, fmt, i, va, whole)
      decreases |fmt| - i
    {
      idx, i, va := OneTurn(sink, idx, fmt, i, va, whole);
    }
    sink.Terminate(idx);
    r := Signed(idx, 0x8000_0000);
  }
}
