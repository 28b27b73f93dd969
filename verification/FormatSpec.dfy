/** What a format string with its arguments denotes: the whole text, or nothing where the source's behaviour is undefined. */
module FormatSpec {
  import opened Arithmetic
  import opened Common
  import opened Sequences
  import opened Text
  import opened Digits
  import opened NumberFormat

  const PERCENT: Char := 37
  const STAR: Char := 42
  const DOT: Char := 46
  const HASH: Char := 35
  const LOWER_C: Char := 99
  const LOWER_D: Char := 100
  const LOWER_H: Char := 104
  const LOWER_I: Char := 105
  const LOWER_J: Char := 106
  const LOWER_L: Char := 108
  const LOWER_O: Char := 111
  const LOWER_P: Char := 112
  const LOWER_S: Char := 115
  const LOWER_T: Char := 116
  const LOWER_U: Char := 117
  const LOWER_Z: Char := 122

  /** A variadic argument: a machine word, or a pointer to a string given by its characters up to the NUL. */
  datatype Arg = Word(bits: nat) | Str(s: seq<Char>)

  predicate NoNul(s: seq<Char>) {
    Avoids(s, NUL, 0, |s|)
  }

  predicate ValidArgs(args: seq<Arg>) {
    forall i | 0 <= i < |args| ::
      if args[i].Word? then args[i].bits < SIZE_VALUES else |args[i].s| < UINT32_VALUES && NoNul(args[i].s)
  }

  /** Reading behind the last character gives the terminating NUL. */
  function At(fmt: seq<Char>, i: nat): Char {
    if i < |fmt| then fmt[i] else NUL
  }

  predicate IsDecimal(c: Char) {
    ZERO <= c <= NINE
  }

  /** The low `half + half` values of a word, in two's complement. */
  function Signed(bits: nat, half: nat): (v: int)
    requires half > 0
    ensures 0 <= v + half && v < half
  {
    var m := bits % (half + half);
    if m >= half then m - (half + half) else m
  }

  /** A value of the signed type comes back from its word, whatever multiples of the type's size are added. */
  lemma SignedInverts(v: int, half: nat, k: nat)
    requires 0 <= v + half && v < half && v + (half + half) * k >= 0
    ensures Signed(v + (half + half) * k, half) == v
  {
    var d := half + half;
    if v >= 0 {
      UniqueRemainder(v + d * k, d, k, v);
    } else {
      assert k > 0;
      Distribute(d, k - 1, 1);
      UniqueRemainder(v + d * k, d, k - 1, v + d);
    }
  }

  function Abs(v: int): nat {
    if v < 0 then -v else v
  }

  /** `_atoi`: decimal digits from `i` on, in 32-bit arithmetic, and the place behind them. */
  function Atoi(fmt: seq<Char>, i: nat, acc: nat): (r: (nat, nat))
    ensures r.1 >= i && (acc < UINT32_VALUES ==> r.0 < UINT32_VALUES)
    ensures i <= |fmt| ==> r.1 <= |fmt|
    decreases |fmt| - i
  {
    if i < |fmt| && IsDecimal(fmt[i]) then Atoi(fmt, i + 1, (acc * 10 + (fmt[i] - ZERO)) % UINT32_VALUES) else (acc, i)
  }

  function FlagOf(c: Char, f: Flags): Option<Flags> {
    if c == ZERO then Some(f + {ZeroPad})
    else if c == MINUS then Some(f + {Left})
    else if c == PLUS then Some(f + {Plus})
    else if c == SPACE then Some(f + {Space})
    else if c == HASH then Some(f + {Hash})
    else None
  }

  function ParseFlags(fmt: seq<Char>, i: nat, f: Flags): (r: (Flags, nat))
    ensures r.1 >= i && (i <= |fmt| ==> r.1 <= |fmt|)
    decreases |fmt| - i
  {
    if i < |fmt| && FlagOf(fmt[i], f).Some? then ParseFlags(fmt, i + 1, FlagOf(fmt[i], f).value) else (f, i)
  }

  /** A parsed field: flags, its number, the place behind it, and the arguments left. */
  datatype Field = Field(f: Flags, n: nat, next: nat, args: seq<Arg>)

  function ParseWidth(fmt: seq<Char>, i: nat, f: Flags, args: seq<Arg>): (r: Option<Field>)
    ensures r.Some? ==> r.value.next >= i
  {
    if IsDecimal(At(fmt, i)) then
      var (n, next) := Atoi(fmt, i, 0);
      Some(Field(f, n, next, args))
    else if At(fmt, i) == STAR then
      if args == [] || args[0].Str? then None
      else
        var w := Signed(args[0].bits, 0x8000_0000);
        Some(Field(if w < 0 then f + {Left} else f, Abs(w), i + 1, args[1..]))
    else Some(Field(f, 0, i, args))
  }

  function ParsePrecision(fmt: seq<Char>, i: nat, f: Flags, args: seq<Arg>): (r: Option<Field>)
    ensures r.Some? ==> r.value.next >= i
  {
    if At(fmt, i) != DOT then Some(Field(f, 0, i, args))
    else
      var g := f + {Precision};
      if IsDecimal(At(fmt, i + 1)) then
        var (n, next) := Atoi(fmt, i + 1, 0);
        Some(Field(g, n, next, args))
      else if At(fmt, i + 1) == STAR then
        if args == [] || args[0].Str? then None
        else
          var p := Signed(args[0].bits, 0x8000_0000);
          Some(Field(g, if p > 0 then p else 0, i + 2, args[1..]))
      else Some(Field(g, 0, i + 1, args))
  }

  /** On x86-64 `ptrdiff_t`, `intmax_t` and `size_t` are as wide as `long`. */
  function ParseLength(fmt: seq<Char>, i: nat, f: Flags): (r: (Flags, nat))
    ensures r.1 >= i
  {
    var c := At(fmt, i);
    if c == LOWER_L then
      if At(fmt, i + 1) == LOWER_L then (f + {Long} + {LongLong}, i + 2) else (f + {Long}, i + 1)
    else if c == LOWER_H then
      if At(fmt, i + 1) == LOWER_H then (f + {Short} + {Chr}, i + 2) else (f + {Short}, i + 1)
    else if c == LOWER_T || c == LOWER_J || c == LOWER_Z then (f + {Long}, i + 1)
    else (f, i)
  }

  predicate IntegerSpecifier(c: Char) {
    c == LOWER_D || c == LOWER_I || c == LOWER_U || c == LOWER_X || c == UPPER_X || c == LOWER_O || c == LOWER_B
  }

  predicate SignedSpecifier(c: Char) {
    c == LOWER_D || c == LOWER_I
  }

  function BaseOf(c: Char): (b: nat)
    ensures PrintBase(b)
  {
    if c == LOWER_X || c == UPPER_X then 16 else if c == LOWER_O then 8 else if c == LOWER_B then 2 else 10
  }

  /** The flags an integer conversion keeps: no prefix in base ten, no plus or space for unsigned, no zero padding with a precision. */
  function IntegerFlags(c: Char, f: Flags): Flags {
    var f1 := if BaseOf(c) == 10 then f - {Hash} else f;
    var f2 := if c == UPPER_X then f1 + {Upper} else f1;
    var f3 := if SignedSpecifier(c) then f2 else f2 - {Plus, Space};
    if Precision in f3 then f3 - {ZeroPad} else f3
  }

  /** Half the number of values of the argument's type. */
  function HalfRange(f: Flags): (h: nat)
    ensures h > 0
  {
    if LongLong in f || Long in f then 0x8000_0000_0000_0000
    else if Chr in f then 0x80
    else if Short in f then 0x8000
    else 0x8000_0000
  }

  /** The argument as the conversion takes it; the source's negation of the most negative value wraps to its magnitude. */
  function IntegerArg(c: Char, bits: nat, f: Flags): int {
    if SignedSpecifier(c) then Signed(bits, HalfRange(f)) else bits % (HalfRange(f) + HalfRange(f))
  }

  function IntegerText(c: Char, bits: nat, prec: nat, width: nat, f: Flags): seq<Char> {
    var v := IntegerArg(c, bits, f);
    NumberText(Abs(v), v < 0, BaseOf(c), prec, width, IntegerFlags(c, f))
  }

  function Aligned(s: seq<Char>, width: nat, f: Flags): seq<Char> {
    if Left in f then s + Repeat(SPACE, width - |s|) else Repeat(SPACE, width - |s|) + s
  }

  function StringShown(s: seq<Char>, prec: nat, f: Flags): (r: seq<Char>)
    ensures r <= s
  {
    if Precision in f && prec < |s| then s[..prec] else s
  }

  function PointerText(bits: nat, prec: nat, f: Flags): seq<Char> {
    NumberText(bits, false, 16, prec, 16, f + {ZeroPad, Upper})
  }

  /** The text of the specifier `c`, and the arguments left. */
  function Convert(c: Char, f: Flags, width: nat, prec: nat, args: seq<Arg>): Option<(seq<Char>, seq<Arg>)> {
    if IntegerSpecifier(c) then
      if args == [] || args[0].Str? then None else Some((IntegerText(c, args[0].bits, prec, width, f), args[1..]))
    else if c == LOWER_C then
      if args == [] || args[0].Str? then None else Some((Aligned([args[0].bits % 0x100], width, f), args[1..]))
    else if c == LOWER_S then
      if args == [] || args[0].Word? then None else Some((Aligned(StringShown(args[0].s, prec, f), width, f), args[1..]))
    else if c == LOWER_P then
      if args == [] || args[0].Str? then None else Some((PointerText(args[0].bits, prec, f), args[1..]))
    else Some(([c], args))
  }

  /** One directive from behind its `%`: its text, the place behind it, and the arguments left.
      A directive cut off by the end of the format is undefined. */
  function Directive(fmt: seq<Char>, i: nat, args: seq<Arg>): (r: Option<(seq<Char>, nat, seq<Arg>)>)
    ensures r.Some? ==> i < r.value.1 <= |fmt|
  {
    var (f0, i0) := ParseFlags(fmt, i, {});
    var w :- ParseWidth(fmt, i0, f0, args);
    var p :- ParsePrecision(fmt, w.next, w.f, w.args);
    var (f, j) := ParseLength(fmt, p.next, p.f);
    if j >= |fmt| then None
    else
      var (text, rest) :- Convert(fmt[j], f, w.n, p.n, p.args);
      Some((text, j + 1, rest))
  }

  /** The text of the format from `i` on. */
  function Render(fmt: seq<Char>, i: nat, args: seq<Arg>): Option<seq<Char>>
    decreases |fmt| - i
  {
    if i >= |fmt| then Some([])
    else if fmt[i] != PERCENT then
      var rest :- Render(fmt, i + 1, args);
      Some([fmt[i]] + rest)
    else
      var (text, next, left) :- Directive(fmt, i + 1, args);
      var rest :- Render(fmt, next, left);
      Some(text + rest)
  }

  lemma LiteralStep(text: seq<Char>, fmt: seq<Char>, i: nat, args: seq<Arg>)
    requires i < |fmt| && fmt[i] != PERCENT && Render(fmt, i, args).Some?
    ensures Render(fmt, i + 1, args).Some?
    ensures text + Render(fmt, i, args).value == (text + [fmt[i]]) + Render(fmt, i + 1, args).value
  {
  }

  lemma DirectiveStep(text: seq<Char>, fmt: seq<Char>, i: nat, args: seq<Arg>)
    requires i < |fmt| && fmt[i] == PERCENT && Render(fmt, i, args).Some?
    ensures Directive(fmt, i + 1, args).Some?
    ensures var (t, next, left) := Directive(fmt, i + 1, args).value;
      Render(fmt, next, left).Some? && text + Render(fmt, i, args).value == (text + t) + Render(fmt, next, left).value
  {
  }
}
