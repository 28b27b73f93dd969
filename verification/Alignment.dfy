/** The round-up of the source is masking: adding, clearing low bits, and cutting off what does not fit. */
module Alignment {
  import opened Arithmetic
  import opened Common
  import opened Bits
  import opened Digits
  import opened Multiboot2

  /** The multiples the kernel rounds up to, as powers of two. */
  predicate MultipleIs(a: nat, k: nat) {
    (a == 8 && k == 3) || (a == PAGE_SIZE && k == 12)
  }

  lemma PowersOfTwo(a: nat, k: nat)
    requires MultipleIs(a, k)
    ensures Power(2, k) == a
  {
    assert Power(2, 3) == 8;
    assert Power(2, 6) == 64;
    assert Power(2, 9) == 512;
    assert Power(2, 12) == 4096;
  }

  /** `Align` before it is cut off. */
  lemma AlignRoundsDown(x: nat, a: nat)
    requires a == 8 || a == PAGE_SIZE
    ensures Align(x, a) == (x + a - 1) - (x + a - 1) % a
  {
  }

  lemma SameRemainder(z: nat, y: nat, a: nat, c: nat)
    requires a > 0 && z == a * c + y
    ensures z % a == y % a <= y
  {
    var q, r := y / a, y % a;
    assert y == a * q + r;
    Distribute(a, c, q);
    UniqueRemainder(z, a, c + q, r);
  }

  lemma WrapPast(z: nat)
    requires SIZE_VALUES <= z < SIZE_VALUES + SIZE_VALUES
    ensures Wrap(z) == z - SIZE_VALUES
  {
  }

  lemma WrapLess(z: nat, r: nat)
    requires r <= z < SIZE_VALUES + SIZE_VALUES && (z >= SIZE_VALUES ==> r <= z - SIZE_VALUES)
    ensures Wrap(z) - r == Wrap(z - r)
  {
    if z >= SIZE_VALUES {
      WrapPast(z);
      WrapPast(z - r);
    }
  }

  /** Rounding down commutes with cutting off to 64 bits, because the multiples divide 2^64. */
  lemma RoundingWraps(z: nat, a: nat, c: nat)
    requires a * c == SIZE_VALUES && 0 < a <= SIZE_VALUES && z < SIZE_VALUES + a
    ensures z % a <= z && Wrap(z) % a == z % a && Wrap(z) - z % a == Wrap(z - z % a)
  {
    if z >= SIZE_VALUES {
      WrapPast(z);
      SameRemainder(z, z - SIZE_VALUES, a, c);
    } else {
      SameRemainder(z, z, a, 0);
    }
    WrapLess(z, z % a);
  }

  /** On 64-bit words, for every value: the round-up modulo 2^64. */
  lemma AlignIsMasking(x: nat, a: nat, k: nat)
    requires MultipleIs(a, k) && x < SIZE_VALUES
    ensures WithoutLowBits(Wrap(x + a - 1), k) == Wrap(Align(x, a))
  {
    PowersOfTwo(a, k);
    var z := x + a - 1;
    MaskRoundsDown(Wrap(z), k);
    AlignRoundsDown(x, a);
    RoundingWraps(z, a, if a == 8 then 0x2000_0000_0000_0000 else 0x10_0000_0000_0000);
  }

  lemma AlignOfTop(x: nat, a: nat)
    requires a == 8 || a == PAGE_SIZE
    requires x < SIZE_VALUES
    ensures Align(x, a) <= SIZE_VALUES && (Align(x, a) == SIZE_VALUES <==> x > SIZE_VALUES - a)
  {
  }

  /** The step of the tag walk, which adds in 64 bits and keeps 32 of the result. */
  lemma StrideIsMasking(size: nat)
    requires size < UINT32_VALUES
    ensures Stride(size) == WithoutLowBits(size + 7, 3) % UINT32_VALUES
  {
    AlignIsMasking(size, 8, 3);
  }

  /** A word is rounded up to the least multiple at or above it exactly when that multiple fits; otherwise the result is 0. */
  lemma AlignFitsIff(x: nat, a: nat, k: nat)
    requires MultipleIs(a, k) && x < SIZE_VALUES
    ensures x <= WithoutLowBits(Wrap(x + a - 1), k) < x + a <==> x <= SIZE_VALUES - a
    ensures x > SIZE_VALUES - a ==> WithoutLowBits(Wrap(x + a - 1), k) == 0
  {
    AlignIsMasking(x, a, k);
    AlignOfTop(x, a);
    if x > SIZE_VALUES - a {
      WrapPast(SIZE_VALUES);
    }
  }
}
