/** The first-fit page allocator: a page map in words, and two counters kept beside it. */
module FirstFit {
  import opened Common
  import opened Bitmap
  import opened PageRuns

  /** `~(size_t)0`, the answer of a failed search. */
  const NOT_FOUND: nat := SIZE_VALUES - 1

  /** The end of the range does not fit into a `size_t`. */
  predicate Wraps(i: nat, n: nat) {
    i + n >= SIZE_VALUES
  }

  /** What an allocator holds: its addresses, one bit for each page of the map, and its counters. */
  datatype Region = Region(start: nat, length: nat, bits: seq<bool>, free: nat, used: nat) {

    predicate WellSized() {
      && |bits| == CAPACITY && length <= CAPACITY
      && start + length * PAGE_SIZE < SIZE_VALUES
      && free < SIZE_VALUES && used < SIZE_VALUES
    }

    /** The counters agree with the map, and no page past the end is marked. */
    predicate Sound() {
      && WellSized()
      && used == CountUsed(bits)
      && free + used == length
      && forall j | length <= j < CAPACITY :: !bits[j]
    }

    predicate InRange(addr: nat) {
      start <= addr < start + length * PAGE_SIZE
    }

    function PageOf(addr: nat): (i: nat)
      requires InRange(addr)
      ensures i < length
      ensures AddressOf(i) <= addr < AddressOf(i) + PAGE_SIZE
    {
      (addr - start) / PAGE_SIZE
    }

    function AddressOf(i: nat): nat {
      start + PAGE_SIZE * i
    }

    function Take(i: nat, n: nat): Region
      requires i + n <= |bits|
    {
      this.(bits := Fill(bits, i, n, true), free := Wrap(free - n), used := Wrap(used + n))
    }

    function Return(i: nat, n: nat): Region
      requires i + n <= |bits|
    {
      this.(bits := Fill(bits, i, n, false), free := Wrap(free + n), used := Wrap(used - n))
    }

    function Find(n: nat, v: bool): (r: Option<nat>)
      requires length <= |bits|
      ensures r.Some? ==> r.value + n <= length
    {
      Search(bits[..length], n, v)
    }

    function Alloc(n: nat): (r: (Region, nat))
      requires WellSized()
    {
      match Find(n, false)
      case Some(i) => (Take(i, n), AddressOf(i))
      case None => (this, 0)
    }

    /** A range whose end wraps around is empty for the loops over it, so nothing is tested and success is reported. */
    predicate AllocAtSucceeds(addr: nat, n: nat) {
      && InRange(addr)
      && (Wraps(PageOf(addr), n)
          || (PageOf(addr) + n <= |bits| && forall j | PageOf(addr) <= j < PageOf(addr) + n :: !bits[j]))
    }

    function AllocAt(addr: nat, n: nat): Region {
      if !AllocAtSucceeds(addr, n) then this
      else if Wraps(PageOf(addr), n) then this.(free := Wrap(free - n), used := Wrap(used + n))
      else Take(PageOf(addr), n)
    }

    function Free(addr: nat, n: nat): Region
      requires Clearable(addr, n)
    {
      if !InRange(addr) then this
      else if Wraps(PageOf(addr), n) then this.(free := Wrap(free + n), used := Wrap(used - n))
      else Return(PageOf(addr), n)
    }

    /** Where a test of `n` pages from `addr` on stays inside the map: it ends, or meets a used page before the map does.
        Lengths are 64-bit words. */
    predicate Testable(addr: nat, n: nat) {
      n < SIZE_VALUES
      && (InRange(addr) ==>
            || Wraps(PageOf(addr), n) || PageOf(addr) + n <= |bits|
            || exists j: nat :: PageOf(addr) <= j < |bits| && bits[j])
    }

    /** Where clearing `n` pages from `addr` on stays inside the map. */
    predicate Clearable(addr: nat, n: nat) {
      n < SIZE_VALUES && (InRange(addr) ==> Wraps(PageOf(addr), n) || PageOf(addr) + n <= |bits|)
    }
  }

  class Allocator {
    const map_: array<bv64>
    const startAddr: nat
    const length: nat
    var freeCount: nat
    var usedCount: nat

    ghost predicate Valid()
      reads this, map_
    {
      map_.Length == WORDS && Model().WellSized()
    }

    ghost function Model(): (r: Region)
      requires map_.Length == WORDS
      reads this, map_
    {
      Region(startAddr, length, View(map_[..]), freeCount, usedCount)
    }

    constructor (addr: nat, len: nat)
      requires len <= CAPACITY && addr + len * PAGE_SIZE < SIZE_VALUES
      ensures Valid() && fresh(map_)
      ensures Model() == Region(addr, len, Constant(CAPACITY, false), len, 0)
      ensures Model().Sound()
    {
      startAddr, length := addr, len;
      freeCount, usedCount := len, 0;
      map_ := new bv64[WORDS](_ => 0);
      new;
      assert View(map_[..]) == Constant(CAPACITY, false) by {
        ZeroWords(map_[..]);
      }
      CountConstant(CAPACITY, false);
    }

    method Set(i: nat)
      requires Valid() && i < CAPACITY
      modifies map_
      ensures Valid() && Model() == old(Model()).(bits := old(Model()).bits[i := true])
    {
      WordsRefineBits(map_[..], i);
      ghost var before := map_[..];
      map_[WordIndex(i)] := SetBit(map_[WordIndex(i)], BitIndex(i));
      assert map_[..] == SetWord(before, i);
    }

    method Clr(i: nat)
      requires Valid() && i < CAPACITY
      modifies map_
      ensures Valid() && Model() == old(Model()).(bits := old(Model()).bits[i := false])
    {
      WordsRefineBits(map_[..], i);
      ghost var before := map_[..];
      map_[WordIndex(i)] := ClrBit(map_[WordIndex(i)], BitIndex(i));
      assert map_[..] == ClrWord(before, i);
    }

    method Test(i: nat) returns (b: bool)
      requires Valid() && i < CAPACITY
      ensures b == Model().bits[i]
    {
      b := TestBit(map_[WordIndex(i)], BitIndex(i));
      assert map_[..][WordIndex(i)] == map_[WordIndex(i)];
    }

    /** One pass over the map, counting the current run, finds what trying every start finds. */
    method FindLen(n: nat, v: bool) returns (r: nat)
      requires Valid()
      ensures match Model().Find(n, v)
              case Some(i) => r == i
              case None => r == NOT_FOUND
    {
      ghost var bits := Model().bits[..length];
      var count, idx := 0, 0;
      for i := 0 to length
        invariant idx + count == i
        invariant Scanned(bits, n, v, idx, i)
      {
        var b := Test(i);
        assert b == bits[i];
        if b != v {
          ScanBreaks(bits, n, v, idx, i);
          count := 0;
          idx := i + 1;
        } else {
          ScanGoesOn(bits, n, v, idx, i);
          count := count + 1;
        }
        if count == n {
          return idx;
        }
      }
      ScanFails(bits, n, v, idx);
      return NOT_FOUND;
    }

    /** The loops over a range stop where its end wraps to; `idx` is an index of the map, so a wrapped end lies below it. */
    method SetRange(idx: nat, n: nat)
      requires Valid() && idx <= CAPACITY && n < SIZE_VALUES && (Wraps(idx, n) || idx + n <= CAPACITY)
      modifies map_
      ensures Valid()
      ensures Wraps(idx, n) ==> Model() == old(Model())
      ensures !Wraps(idx, n) ==> Model() == old(Model()).(bits := Fill(old(Model()).bits, idx, n, true))
    {
      ghost var was := Model();
      ghost var end := if Wraps(idx, n) then idx else idx + n;
      WrappedEnd(idx, n);
      assert Fill(was.bits, idx, 0, true) == was.bits;
      var i := idx;
      while i < Wrap(idx + n)
        invariant idx <= i <= end
        invariant Valid() && Model() == was.(bits := Fill(was.bits, idx, i - idx, true))
      {
        Set(i);
        assert Fill(was.bits, idx, i - idx, true)[i := true] == Fill(was.bits, idx, i + 1 - idx, true);
        i := i + 1;
      }
    }

    method ClrRange(idx: nat, n: nat)
      requires Valid() && idx <= CAPACITY && n < SIZE_VALUES && (Wraps(idx, n) || idx + n <= CAPACITY)
      modifies map_
      ensures Valid()
      ensures Wraps(idx, n) ==> Model() == old(Model())
      ensures !Wraps(idx, n) ==> Model() == old(Model()).(bits := Fill(old(Model()).bits, idx, n, false))
    {
      ghost var was := Model();
      ghost var end := if Wraps(idx, n) then idx else idx + n;
      WrappedEnd(idx, n);
      assert Fill(was.bits, idx, 0, false) == was.bits;
      var i := idx;
      while i < Wrap(idx + n)
        invariant idx <= i <= end
        invariant Valid() && Model() == was.(bits := Fill(was.bits, idx, i - idx, false))
      {
        Clr(i);
        assert Fill(was.bits, idx, i - idx, false)[i := false] == Fill(was.bits, idx, i + 1 - idx, false);
        i := i + 1;
      }
    }

    method Alloc(n: nat) returns (addr: nat)
      requires Valid()
      modifies this, map_
      ensures Valid() && (Model(), addr) == old(Model()).Alloc(n)
    {
      addr := 0;
      var idx := FindLen(n, false);
      if idx == NOT_FOUND {
        return;
      }
      SetRange(idx, n);
      addr := startAddr + PAGE_SIZE * idx;
      freeCount := Wrap(freeCount - n);
      usedCount := Wrap(usedCount + n);
    }

    method AllocAt(addr: nat, n: nat) returns (ok: bool)
      requires Valid() && Model().Testable(addr, n)
      modifies this, map_
      ensures Valid()
      ensures ok == old(Model()).AllocAtSucceeds(addr, n)
      ensures Model() == old(Model()).AllocAt(addr, n)
    {
      if addr < startAddr || addr >= startAddr + length * PAGE_SIZE {
        return false;
      }
      var idx := (addr - startAddr) / PAGE_SIZE;
      assert idx == Model().PageOf(addr);
      WrappedEnd(idx, n);
      var i := idx;
      while i < Wrap(idx + n)
        invariant Valid() && Model() == old(Model())
        invariant idx <= i <= CAPACITY && (!Wraps(idx, n) ==> i <= idx + n)
        invariant forall j | idx <= j < i :: !Model().bits[j]
      {
        var b := Test(i);
        if b {
          return false;
        }
        i := i + 1;
      }
      SetRange(idx, n);
      freeCount := Wrap(freeCount - n);
      usedCount := Wrap(usedCount + n);
      return true;
    }

    method Free(addr: nat, n: nat)
      requires Valid() && Model().Clearable(addr, n)
      modifies this, map_
      ensures Valid() && Model() == old(Model()).Free(addr, n)
    {
      if addr < startAddr || addr >= startAddr + length * PAGE_SIZE {
        return;
      }
      var idx := (addr - startAddr) / PAGE_SIZE;
      assert idx == Model().PageOf(addr);
      ClrRange(idx, n);
      freeCount := Wrap(freeCount + n);
      usedCount := Wrap(usedCount - n);
    }
  }

  lemma WrappedEnd(i: nat, n: nat)
    requires i < SIZE_VALUES && n < SIZE_VALUES
    ensures Wrap(i + n) == if Wraps(i, n) then i + n - SIZE_VALUES else i + n
    ensures Wraps(i, n) ==> Wrap(i + n) < i
  {
  }

  lemma ZeroWords(words: seq<bv64>)
    requires |words| == WORDS && forall w | 0 <= w < WORDS :: words[w] == 0
    ensures forall j | 0 <= j < CAPACITY :: !View(words)[j]
  {
    forall j: nat | j < CAPACITY
      ensures !View(words)[j]
    {
      ZeroWord(BitIndex(j));
    }
  }

  lemma ZeroWord(b: nat)
    requires b < WORD_BITS
    ensures !TestBit(0, b)
  {
  }

  /** What the scan knows before looking at bit `i`, with its current run starting at `idx`. */
  ghost predicate Scanned(bits: seq<bool>, n: nat, v: bool, idx: nat, i: nat) {
    && idx <= i <= |bits|
    && (forall j | idx <= j < i :: bits[j] == v)
    && if n == 0 then idx == 0 else i < idx + n && forall k: nat | k < idx :: !RunAt(bits, k, n, v)
  }

  lemma NoBitLike(bits: seq<bool>, u: bool, end: nat)
    requires end <= |bits| && forall j | 0 <= j < end :: bits[j] != u
    ensures forall k: nat | k < end :: !RunAt(bits, k, 1, u)
  {
    forall k: nat | k < end
      ensures !RunAt(bits, k, 1, u)
    {
      assert bits[k] != u;
    }
  }

  /** A bit unlike `v` rules out every run that starts between the current run and that bit. */
  lemma ScanBreaks(bits: seq<bool>, n: nat, v: bool, idx: nat, i: nat)
    requires i < |bits| && Scanned(bits, n, v, idx, i) && bits[i] != v
    ensures if n == 0 then Search(bits, n, v) == Some(i + 1) else Scanned(bits, n, v, i + 1, i + 1)
  {
    if n == 0 {
      NoBitLike(bits, !v, i);
      assert bits[i] == !v;
      assert RunAt(bits, i, 1, !v);
      LeastRunIsFirst(bits, i, 1, !v);
    } else {
      forall k: nat | idx <= k <= i
        ensures !RunAt(bits, k, n, v)
      {
        assert k <= i < k + n;
      }
    }
  }

  lemma ScanGoesOn(bits: seq<bool>, n: nat, v: bool, idx: nat, i: nat)
    requires i < |bits| && Scanned(bits, n, v, idx, i) && bits[i] == v
    ensures if i + 1 == idx + n then Search(bits, n, v) == Some(idx) else Scanned(bits, n, v, idx, i + 1)
  {
    if i + 1 == idx + n {
      LeastRunIsFirst(bits, idx, n, v);
    }
  }

  /** A run that neither starts before the current one nor fits behind its start is nowhere. */
  lemma ScanFails(bits: seq<bool>, n: nat, v: bool, idx: nat)
    requires Scanned(bits, n, v, idx, |bits|)
    ensures Search(bits, n, v) == None
  {
    if n == 0 {
      NoBitLike(bits, !v, |bits|);
      FirstRunIsLeast(bits, 1, !v, 0);
    } else {
      FirstRunIsLeast(bits, n, v, 0);
    }
  }
}
