/** Bits of unsigned numbers. */
module Bits {
  import opened Arithmetic
  import opened Digits

  predicate HasBit(x: nat, k: nat)
    decreases k
  {
    if k == 0 then x % 2 == 1 else HasBit(x / 2, k - 1)
  }

  /** Bitwise or of the low `width` bits. */
  function BitOr(a: nat, b: nat, width: nat): nat {
    if width == 0 then 0
    else (if a % 2 == 1 || b % 2 == 1 then 1 else 0) + 2 * BitOr(a / 2, b / 2, width - 1)
  }

  /** A bit of the mixed value is set exactly when one of the two has it. */
  lemma {:induction false} BitOrIsUnion(a: nat, b: nat, width: nat, k: nat)
    requires k < width
    ensures HasBit(BitOr(a, b, width), k) <==> HasBit(a, k) || HasBit(b, k)
    decreases width
  {
    var rest := BitOr(a / 2, b / 2, width - 1);
    assert BitOr(a, b, width) / 2 == rest;
    if k > 0 {
      BitOrIsUnion(a / 2, b / 2, width - 1, k - 1);
    }
  }

  /** Every bit of `a` is one of `b`. */
  predicate BitsWithin(a: nat, b: nat, width: nat) {
    width == 0 || ((a % 2 == 1 ==> b % 2 == 1) && BitsWithin(a / 2, b / 2, width - 1))
  }

  lemma {:induction false} MixIsFirstIff(back: nat, fore: nat, width: nat)
    requires fore < Power(2, width)
    ensures BitOr(back, fore, width) == fore <==> BitsWithin(back, fore, width)
    ensures back == 0 ==> BitsWithin(back, fore, width)
    decreases width
  {
    if width > 0 {
      MixIsFirstIff(back / 2, fore / 2, width - 1);
    }
  }

  /** `y & ~(2^k - 1)`. */
  function WithoutLowBits(y: nat, k: nat): (r: nat)
    decreases k
  {
    if k == 0 then y else 2 * WithoutLowBits(y / 2, k - 1)
  }

  lemma {:induction false} MaskedBits(y: nat, k: nat, j: nat)
    ensures HasBit(WithoutLowBits(y, k), j) <==> j >= k && HasBit(y, j)
    decreases k
  {
    if k > 0 {
      var rest := WithoutLowBits(y / 2, k - 1);
      assert WithoutLowBits(y, k) / 2 == rest;
      if j > 0 {
        MaskedBits(y / 2, k - 1, j - 1);
      }
    }
  }

  /** Masking the low bits rounds down to a multiple of the power. */
  lemma {:induction false} MaskRoundsDown(y: nat, k: nat)
    ensures Power(2, k) > 0 && WithoutLowBits(y, k) == y - y % Power(2, k)
    decreases k
  {
    if k > 0 {
      var p := Power(2, k - 1);
      MaskRoundsDown(y / 2, k - 1);
      ModStep(y, 2, p);
    }
  }
}
