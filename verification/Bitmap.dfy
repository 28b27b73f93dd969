/** The 512 64-bit words of the page map, and the sequence of bits they stand for. */
module Bitmap {
  /** `BITS_ARR_SIZE`: a page divided by the eight bytes of a word. */
  const WORDS: nat := 512
  const WORD_BITS: nat := 64
  const CAPACITY: nat := 32768

  /** `_idx >> SHIFT`; a shift by 6 of an unsigned index is division by 64. The word exists exactly for indices below the capacity. */
  function WordIndex(i: nat): (w: nat)
    ensures w < WORDS <==> i < CAPACITY
  {
    i / WORD_BITS
  }

  /** `_idx & MASK`; masking an unsigned index with 0x3F is its remainder by 64. */
  function BitIndex(i: nat): (b: nat)
    ensures b < WORD_BITS
  {
    i % WORD_BITS
  }

  /** `1 << b`, the shift done one place at a time. */
  function Mask(b: nat): bv64
    requires b < WORD_BITS
  {
    if b == 0 then 1 else Mask(b - 1) << 1
  }

  function Overlap(w: bv64, m: bv64): bv64 {
    w & m
  }

  function Join(w: bv64, m: bv64): bv64 {
    w | m
  }

  function Drop(w: bv64, m: bv64): bv64 {
    w & !m
  }

  predicate TestBit(w: bv64, b: nat)
    requires b < WORD_BITS
  {
    Overlap(w, Mask(b)) != 0
  }

  function SetBit(w: bv64, b: nat): bv64
    requires b < WORD_BITS
  {
    Join(w, Mask(b))
  }

  function ClrBit(w: bv64, b: nat): bv64
    requires b < WORD_BITS
  {
    Drop(w, Mask(b))
  }

  lemma MaskTwo(b: nat)
    requires b + 2 < WORD_BITS
    ensures Mask(b + 2) == Mask(b) << 2
  {
  }

  lemma MaskByte(b: nat)
    requires b + 8 < WORD_BITS
    ensures Mask(b + 8) == Mask(b) << 8
  {
    MaskTwo(b);
    MaskTwo(b + 2);
    MaskTwo(b + 4);
    MaskTwo(b + 6);
  }

  lemma {:induction false} MaskNonZero(b: nat)
    requires b < WORD_BITS
    ensures Mask(b) != 0
    decreases WORD_BITS - b
  {
    if b == 63 {
      MaskByte(7);
      MaskByte(15);
      MaskByte(23);
      MaskByte(31);
      MaskByte(39);
      MaskByte(47);
      MaskByte(55);
    } else {
      MaskNonZero(b + 1);
    }
  }

  lemma {:induction false} MasksDisjoint(j: nat, k: nat)
    requires j < k < WORD_BITS
    ensures Overlap(Mask(j), Mask(k)) == 0 && Overlap(Mask(k), Mask(j)) == 0
  {
    if j > 0 {
      MasksDisjoint(j - 1, k - 1);
    }
  }

  lemma JoinElsewhere(w: bv64, m: bv64, k: bv64)
    requires Overlap(m, k) == 0
    ensures Overlap(Join(w, m), k) == Overlap(w, k)
  {
  }

  lemma DropElsewhere(w: bv64, m: bv64, k: bv64)
    requires Overlap(m, k) == 0
    ensures Overlap(Drop(w, m), k) == Overlap(w, k)
  {
  }

  lemma JoinHere(w: bv64, m: bv64)
    ensures Overlap(Join(w, m), m) == m
  {
  }

  lemma DropHere(w: bv64, m: bv64)
    ensures Overlap(Drop(w, m), m) == 0
  {
  }

  lemma OtherTest(w: bv64, j: nat, k: nat)
    requires j < WORD_BITS && k < WORD_BITS && j != k
    ensures TestBit(SetBit(w, j), k) == TestBit(w, k)
    ensures TestBit(ClrBit(w, j), k) == TestBit(w, k)
  {
    if j < k {
      MasksDisjoint(j, k);
    } else {
      MasksDisjoint(k, j);
    }
    JoinElsewhere(w, Mask(j), Mask(k));
    DropElsewhere(w, Mask(j), Mask(k));
  }

  lemma OwnTest(w: bv64, b: nat)
    requires b < WORD_BITS
    ensures TestBit(SetBit(w, b), b)
    ensures !TestBit(ClrBit(w, b), b)
  {
    MaskNonZero(b);
    JoinHere(w, Mask(b));
    DropHere(w, Mask(b));
  }

  predicate TestWord(words: seq<bv64>, i: nat)
    requires |words| == WORDS && i < CAPACITY
  {
    TestBit(words[WordIndex(i)], BitIndex(i))
  }

  function SetWord(words: seq<bv64>, i: nat): (r: seq<bv64>)
    requires |words| == WORDS && i < CAPACITY
    ensures |r| == WORDS
  {
    words[WordIndex(i) := SetBit(words[WordIndex(i)], BitIndex(i))]
  }

  function ClrWord(words: seq<bv64>, i: nat): (r: seq<bv64>)
    requires |words| == WORDS && i < CAPACITY
    ensures |r| == WORDS
  {
    words[WordIndex(i) := ClrBit(words[WordIndex(i)], BitIndex(i))]
  }

  /** Bit `i` of the result says whether page `i` is marked used. */
  function View(words: seq<bv64>): (bits: seq<bool>)
    requires |words| == WORDS
    ensures |bits| == CAPACITY
    ensures forall i: nat | i < CAPACITY :: bits[i] == TestWord(words, i)
  {
    seq(CAPACITY, i requires 0 <= i < CAPACITY => TestWord(words, i))
  }

  /** Replacing one word changes the answer for the pages of that word only. */
  lemma OneWord<W>(words: seq<W>, test: (W, nat) -> bool, x: W, i: nat, v: bool)
    requires |words| == WORDS && i < CAPACITY
    requires forall c: nat | c < WORD_BITS ::
      test(x, c) == if c == BitIndex(i) then v else test(words[WordIndex(i)], c)
    ensures forall j: nat | j < CAPACITY ::
      test(words[WordIndex(i) := x][WordIndex(j)], BitIndex(j))
      == if j == i then v else test(words[WordIndex(j)], BitIndex(j))
  {
  }

  /** Setting and clearing a bit of a word is updating one entry of the page map. */
  lemma WordsRefineBits(words: seq<bv64>, i: nat)
    requires |words| == WORDS && i < CAPACITY
    ensures View(SetWord(words, i)) == View(words)[i := true]
    ensures View(ClrWord(words, i)) == View(words)[i := false]
  {
    var w, b := words[WordIndex(i)], BitIndex(i);
    var test := (x: bv64, c: nat) => c < WORD_BITS && TestBit(x, c);
    forall c: nat | c < WORD_BITS
      ensures test(SetBit(w, b), c) == if c == b then true else test(w, c)
      ensures test(ClrBit(w, b), c) == if c == b then false else test(w, c)
    {
      if b == c {
        OwnTest(w, b);
      } else {
        OtherTest(w, b, c);
      }
    }
    OneWord(words, test, SetBit(w, b), i, true);
    OneWord(words, test, ClrBit(w, b), i, false);
  }
}
