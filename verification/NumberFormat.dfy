/** The text of one integer conversion: digits, zeros, prefix, sign and padding, as the printer puts them together. */
module NumberFormat {
  import opened Text
  import opened Sequences
  import opened Digits

  const LOWER_X: Char := 120
  const UPPER_X: Char := 88
  const LOWER_B: Char := 98

  /** The flag bits of a conversion; setting a bit adds to the set, clearing it removes. */
  datatype Flag = ZeroPad | Left | Plus | Space | Hash | Upper | Short | Chr | Long | LongLong | Precision

  type Flags = set<Flag>

  function Repeat(c: Char, n: int): (s: seq<Char>)
    ensures |s| == if n > 0 then n else 0
    ensures forall i | 0 <= i < |s| :: s[i] == c
  {
    seq(if n > 0 then n else 0, _ => c)
  }

  function Min(a: int, b: int): int {
    if a < b then a else b
  }

  /** Zeros behind the digits of the buffer, up to `n` of them in all or to the end of the buffer. */
  function PadTo(b: seq<Char>, n: nat): (r: seq<Char>)
    ensures |b| <= NTOA_BUFFER ==> |r| <= NTOA_BUFFER
  {
    b + Repeat(ZERO, Min(n, NTOA_BUFFER) - |b|)
  }

  predicate SignWanted(negative: bool, f: Flags) {
    negative || Plus in f || Space in f
  }

  /** Zero padding leaves a column for the sign. */
  function PadWidth(negative: bool, width: nat, f: Flags): nat {
    if Left !in f && width > 0 && ZeroPad in f && SignWanted(negative, f) then width - 1 else width
  }

  function ZeroPadded(b: seq<Char>, prec: nat, width: nat, f: Flags): (r: seq<Char>)
    ensures |b| <= NTOA_BUFFER ==> |r| <= NTOA_BUFFER
  {
    if Left in f then b
    else if ZeroPad in f then PadTo(PadTo(b, prec), width)
    else PadTo(b, prec)
  }

  /** How many characters the prefix takes back from a buffer that is full to the width or the precision. */
  function HashDrop(len: nat, base: nat, prec: nat, width: nat, f: Flags): (n: nat)
    ensures n <= len
  {
    if Precision in f || len == 0 || (len != prec && len != width) then 0
    else if base == 16 && len > 1 then 2
    else 1
  }

  function PrefixLetter(base: nat, f: Flags): seq<Char> {
    if base == 16 then [if Upper in f then UPPER_X else LOWER_X] else if base == 2 then [LOWER_B] else []
  }

  function Room(b: seq<Char>, s: seq<Char>): (r: seq<Char>)
    ensures |r| <= |b| + |s|
  {
    if |b| < NTOA_BUFFER then b + s else b
  }

  function Prefixed(b: seq<Char>, base: nat, prec: nat, width: nat, f: Flags): (r: seq<Char>)
    ensures |b| <= NTOA_BUFFER ==> |r| <= NTOA_BUFFER
  {
    if Hash !in f then b
    else Room(Room(b[..|b| - HashDrop(|b|, base, prec, width, f)], PrefixLetter(base, f)), [ZERO])
  }

  function SignOf(negative: bool, f: Flags): (s: seq<Char>)
    ensures |s| <= 1 && (|s| == 1 <==> SignWanted(negative, f))
  {
    if negative then [MINUS] else if Plus in f then [PLUS] else if Space in f then [SPACE] else []
  }

  /** The finished buffer, last character first. */
  function Buffered(digits: seq<Char>, negative: bool, base: nat, prec: nat, width: nat, f: Flags): (b: seq<Char>)
    ensures |digits| <= NTOA_BUFFER ==> |b| <= NTOA_BUFFER
  {
    var w := PadWidth(negative, width, f);
    Room(Prefixed(ZeroPadded(digits, prec, w, f), base, prec, w, f), SignOf(negative, f))
  }

  /** The buffer turned around, with spaces before or behind it. */
  function Placed(b: seq<Char>, width: nat, f: Flags): seq<Char> {
    (if Left !in f && ZeroPad !in f then Repeat(SPACE, width - |b|) else [])
    + Reverse(b)
    + (if Left in f then Repeat(SPACE, width - |b|) else [])
  }

  function NumberDigits(value: nat, base: nat, f: Flags): (d: seq<Char>)
    requires PrintBase(base)
    ensures |d| <= NTOA_BUFFER
  {
    if Precision !in f || value != 0 then DigitsOf(value, base, Upper in f, NTOA_BUFFER) else []
  }

  function NumberText(value: nat, negative: bool, base: nat, prec: nat, width: nat, flags: Flags): seq<Char>
    requires PrintBase(base)
  {
    var f := if value == 0 then flags - {Hash} else flags;
    Placed(Buffered(NumberDigits(value, base, f), negative, base, prec, width, f), PadWidth(negative, width, f), f)
  }

  /** Zeros in front of `d` digits: what precision or zero padding asks for and the buffer has room for;
      left alignment suppresses both. */
  function LeadingZeros(d: nat, negative: bool, prec: nat, width: nat, f: Flags): (z: nat)
    ensures d <= NTOA_BUFFER ==> d + z <= NTOA_BUFFER
  {
    var wanted := if Left in f then 0
                  else if ZeroPad in f && PadWidth(negative, width, f) > prec then PadWidth(negative, width, f)
                  else prec;
    if Min(wanted, NTOA_BUFFER) > d then Min(wanted, NTOA_BUFFER) - d else 0
  }

  /** The sign is printed when the buffer has room for it behind digits and zeros. */
  function ShownSign(d: nat, negative: bool, prec: nat, width: nat, f: Flags): (s: seq<Char>)
    ensures |s| <= 1
  {
    if d + LeadingZeros(d, negative, prec, width, f) < NTOA_BUFFER then SignOf(negative, f) else []
  }

  lemma ReverseRepeat(c: Char, n: int)
    ensures Reverse(Repeat(c, n)) == Repeat(c, n)
  {
  }

  lemma ReverseOne(s: seq<Char>)
    requires |s| <= 1
    ensures Reverse(s) == s
  {
  }

  /** Sign, zeros, digits most significant first. */
  function Body(digits: seq<Char>, negative: bool, prec: nat, width: nat, f: Flags): (b: seq<Char>)
    ensures |digits| <= NTOA_BUFFER ==> |b| <= NTOA_BUFFER
  {
    var n := |digits|;
    ShownSign(n, negative, prec, width, f) + Repeat(ZERO, LeadingZeros(n, negative, prec, width, f)) + Reverse(digits)
  }

  /** The body filled up with spaces to the width, behind it when aligned left, else before it unless zeros fill it. */
  function LayoutText(body: seq<Char>, width: nat, f: Flags): seq<Char> {
    if Left in f then body + Repeat(SPACE, width - |body|)
    else if ZeroPad in f then body
    else Repeat(SPACE, width - |body|) + body
  }

  /** Layout without `#`: spaces, sign, zeros, digits, spaces. */
  lemma Layout(value: nat, negative: bool, base: nat, prec: nat, width: nat, f: Flags)
    requires PrintBase(base) && Hash !in f
    ensures NumberText(value, negative, base, prec, width, f)
      == LayoutText(Body(NumberDigits(value, base, f), negative, prec, width, f), width, f)
  {
    assert f - {Hash} == f;
    var d := NumberDigits(value, base, f);
    BufferContents(d, negative, base, prec, width, f);
    BufferReversed(d, LeadingZeros(|d|, negative, prec, width, f), ShownSign(|d|, negative, prec, width, f));
    PlacedIsLayout(Buffered(d, negative, base, prec, width, f), PadWidth(negative, width, f), f);
  }

  lemma PlacedIsLayout(b: seq<Char>, width: nat, f: Flags)
    ensures Placed(b, width, f) == LayoutText(Reverse(b), width, f)
  {
  }

  lemma BufferContents(d: seq<Char>, negative: bool, base: nat, prec: nat, width: nat, f: Flags)
    requires Hash !in f && |d| <= NTOA_BUFFER
    ensures Buffered(d, negative, base, prec, width, f)
      == d + Repeat(ZERO, LeadingZeros(|d|, negative, prec, width, f)) + ShownSign(|d|, negative, prec, width, f)
  {
    ZerosTogether(d, negative, prec, width, f);
  }

  lemma ZerosTogether(d: seq<Char>, negative: bool, prec: nat, width: nat, f: Flags)
    requires |d| <= NTOA_BUFFER
    ensures ZeroPadded(d, prec, PadWidth(negative, width, f), f)
      == d + Repeat(ZERO, LeadingZeros(|d|, negative, prec, width, f))
  {
  }

  lemma BufferReversed(d: seq<Char>, z: nat, sign: seq<Char>)
    requires |sign| <= 1
    ensures Reverse(d + Repeat(ZERO, z) + sign) == sign + Repeat(ZERO, z) + Reverse(d)
  {
    ReverseJoin(d + Repeat(ZERO, z), sign);
    ReverseJoin(d, Repeat(ZERO, z));
    ReverseRepeat(ZERO, z);
    ReverseOne(sign);
    assert sign + (Repeat(ZERO, z) + Reverse(d)) == sign + Repeat(ZERO, z) + Reverse(d);
  }

  function Max(a: nat, b: nat): nat {
    if a > b then a else b
  }

  /** Digits the conversion needs. */
  function DueDigits(value: nat, base: nat, f: Flags): (d: nat)
    requires PrintBase(base)
  {
    if Precision in f && value == 0 then 0 else Places(value, base)
  }

  /** The digits of the buffer are those, up to its size. */
  lemma DigitsShown(value: nat, base: nat, f: Flags)
    requires PrintBase(base)
    ensures |NumberDigits(value, base, f)| == Min(DueDigits(value, base, f), NTOA_BUFFER)
  {
    DigitsCut(value, base, Upper in f, NTOA_BUFFER);
  }

  /** The length a conversion should have: the width, or more if sign and digits need it. Precision counts digits only,
      and not under `-`. */
  function DueLength(digits: nat, negative: bool, prec: nat, width: nat, f: Flags): nat {
    Max(width, |SignOf(negative, f)| + Max(if Left in f then 0 else prec, digits))
  }

  /** A conversion without `#` has that length exactly when sign, zeros and all digits of the number fit the buffer of
      32 characters, or the width hides what does not fit in spaces. */
  lemma LengthIff(value: nat, negative: bool, base: nat, prec: nat, width: nat, f: Flags)
    requires PrintBase(base) && Hash !in f
    ensures var d := DueDigits(value, base, f);
      |NumberText(value, negative, base, prec, width, f)| == DueLength(d, negative, prec, width, f)
      <==> if ZeroPad in f && Left !in f then DueLength(d, negative, prec, width, f) <= NTOA_BUFFER
           else DueLength(d, negative, prec, 0, f) <= Max(NTOA_BUFFER, width)
  {
    Layout(value, negative, base, prec, width, f);
    BodyLength(NumberDigits(value, base, f), negative, prec, width, f);
    DigitsShown(value, base, f);
    LengthSum(DueDigits(value, base, f), negative, prec, width, f);
  }

  /** Length of sign, zeros and the first 32 of `d` digits. */
  function BodySize(d: nat, negative: bool, prec: nat, width: nat, f: Flags): nat {
    var n := LeadingZeros(Min(d, NTOA_BUFFER), negative, prec, width, f) + Min(d, NTOA_BUFFER);
    n + if n < NTOA_BUFFER then |SignOf(negative, f)| else 0
  }

  lemma BodyLength(d: seq<Char>, negative: bool, prec: nat, width: nat, f: Flags)
    requires |d| <= NTOA_BUFFER
    ensures var body := Body(d, negative, prec, width, f);
      && |body| == BodySize(|d|, negative, prec, width, f)
      && |LayoutText(body, width, f)| == (if ZeroPad in f && Left !in f then |body| else Max(width, |body|))
  {
  }

  lemma LengthSum(d: nat, negative: bool, prec: nat, width: nat, f: Flags)
    ensures var n := BodySize(d, negative, prec, width, f); var due := DueLength(d, negative, prec, width, f);
      (if ZeroPad in f && Left !in f then n else Max(width, n)) == due
      <==> if ZeroPad in f && Left !in f then due <= NTOA_BUFFER
           else DueLength(d, negative, prec, 0, f) <= Max(NTOA_BUFFER, width)
  {
  }

  /** `%lb` of 2^40 needs 41 digits and gets 32. */
  lemma LongBinaryIsCut(value: nat, f: Flags)
    requires value == Power(2, 40) && f !! {ZeroPad, Left, Plus, Space, Hash, Precision}
    ensures DueDigits(value, 2, f) == 41 == DueLength(41, false, 0, 0, f)
    ensures |NumberText(value, false, 2, 0, 0, f)| == 32
  {
    PlacesOfPower(2, 40);
    Layout(value, false, 2, 0, 0, f);
    DigitsShown(value, 2, f);
    BodyLength(NumberDigits(value, 2, f), false, 0, 0, f);
  }
}
