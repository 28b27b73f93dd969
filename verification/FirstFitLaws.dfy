/** What holds of every allocator state: sound counters, no lost pages, and when a request must succeed. */
module FirstFitLaws {
  import opened Common
  import opened Bitmap
  import opened PageRuns
  import opened FirstFit

  /** All used pages of a sound region lie inside it. */
  lemma UsedInside(r: Region)
    requires r.Sound()
    ensures CountUsed(r.bits[..r.length]) == r.used
  {
    CountSplit(r.bits[..r.length], r.bits[r.length..]);
    CountExtremes(r.bits[r.length..]);
    assert r.bits == r.bits[..r.length] + r.bits[r.length..];
  }

  lemma WindowCount(bits: seq<bool>, i: nat, n: nat)
    requires i + n <= |bits|
    ensures CountUsed(bits[i..i + n]) == n <==> RunAt(bits, i, n, true)
    ensures CountUsed(bits[i..i + n]) == 0 <==> RunAt(bits, i, n, false)
    ensures CountUsed(bits[i..i + n]) <= CountUsed(bits)
  {
    var w := bits[i..i + n];
    CountExtremes(w);
    CountCut(bits, i, n);
    assert forall j | i <= j < i + n :: bits[j] == w[j - i];
    assert forall j | 0 <= j < n :: w[j] == bits[i + j];
  }

  /** Where a search succeeds it has found the leftmost fitting run of free pages. */
  lemma FindIsFirstFit(r: Region, n: nat)
    requires r.WellSized() && n > 0
    ensures match r.Find(n, false)
            case Some(i) => LeastRun(r.bits[..r.length], i, n, false)
            case None => !HasRun(r.bits[..r.length], n, false)
  {
    FirstRunIsLeast(r.bits[..r.length], n, false, 0);
  }

  lemma FoundIsFree(r: Region, n: nat)
    requires r.WellSized() && r.Find(n, false).Some?
    ensures r.Find(n, false).value + n <= r.length
    ensures RunAt(r.bits, r.Find(n, false).value, n, false)
  {
    if n > 0 {
      FindIsFirstFit(r, n);
      var i := r.Find(n, false).value;
      assert forall j | i <= j < i + n :: r.bits[j] == r.bits[..r.length][j];
    }
  }

  /** Marking free pages of the region keeps it sound. */
  lemma TakeFree(r: Region, i: nat, n: nat)
    requires r.Sound() && i + n <= r.length && RunAt(r.bits, i, n, false)
    ensures r.Take(i, n).Sound()
    ensures r.Take(i, n).used == r.used + n && r.Take(i, n).free == r.free - n
  {
    CountFill(r.bits, i, n, true);
    WindowCount(r.bits, i, n);
    UsedInside(r);
    UsedAtMost(r.Take(i, n).bits, r.length);
  }

  lemma UsedAtMost(bits: seq<bool>, length: nat)
    requires length <= |bits| && forall j | length <= j < |bits| :: !bits[j]
    ensures CountUsed(bits) <= length
  {
    CountSplit(bits[..length], bits[length..]);
    CountExtremes(bits[length..]);
    assert bits == bits[..length] + bits[length..];
  }

  /** An allocation at an address of the caller's choosing keeps the region sound exactly when the whole range lies in the region;
      only its first address is checked. */
  lemma AllocAtSoundIff(r: Region, addr: nat, n: nat)
    requires r.Sound() && n < SIZE_VALUES && r.AllocAtSucceeds(addr, n)
    ensures r.AllocAt(addr, n).Sound() <==> r.PageOf(addr) + n <= r.length
  {
    var i := r.PageOf(addr);
    if i + n <= r.length {
      TakeFree(r, i, n);
    } else if Wraps(i, n) {
      CountersMove(r.used, n);
    } else {
      assert r.AllocAt(addr, n).bits[i + n - 1];
    }
  }

  /** The answer is the address of the leftmost free run, or 0 exactly when there is none. */
  lemma AllocAnswersIff(r: Region, n: nat, a: nat)
    requires r.WellSized() && n > 0 && r.start > 0
    ensures r.Alloc(n).1 == a
      <==> if a == 0 then !HasRun(r.bits[..r.length], n, false)
           else exists i: nat :: i + n <= r.length && LeastRun(r.bits[..r.length], i, n, false) && a == r.start + 4096 * i
  {
    FindIsFirstFit(r, n);
    match r.Find(n, false)
    case None =>
    case Some(i) =>
      assert LeastRun(r.bits[..r.length], i, n, false);
      forall j: nat | j + n <= r.length && LeastRun(r.bits[..r.length], j, n, false)
        ensures j == i
      {
        LeastRunIsFirst(r.bits[..r.length], j, n, false);
        LeastRunIsFirst(r.bits[..r.length], i, n, false);
      }
  }

  /** A request at an address is accepted exactly when the address is in the region and the pages from its page on, as many as
      asked for and no more, are free; or when the end of the range wraps around. */
  lemma AllocAtSucceedsIff(r: Region, addr: nat, n: nat)
    requires r.Sound()
    ensures r.AllocAtSucceeds(addr, n)
      <==> r.start <= addr < r.start + 4096 * r.length
           && (var i := (addr - r.start) / 4096; i + n >= 0x1_0000_0000_0000_0000 || RunAt(r.bits, i, n, false))
  {
  }

  /** Moving a 64-bit counter by a length other than zero changes it. */
  lemma CountersMove(c: nat, n: nat)
    requires c < SIZE_VALUES && 0 < n < SIZE_VALUES
    ensures Wrap(c + n) != c && Wrap(c - n) != c
  {
  }

  /** A length that makes the end wrap: no page is tested or marked, success is reported, and both counters are off. */
  lemma WrappedAllocAt(r: Region, addr: nat, n: nat)
    requires r.Sound() && r.InRange(addr) && n < SIZE_VALUES && Wraps(r.PageOf(addr), n)
    ensures r.Testable(addr, n) && r.AllocAtSucceeds(addr, n)
    ensures var s := r.AllocAt(addr, n);
      s.bits == r.bits && s.used == Wrap(r.used + n) != r.used && s.free == Wrap(r.free - n) != r.free && !s.Sound()
  {
    CountersMove(r.used, n);
    CountersMove(r.free, n);
  }

  lemma ReturnSoundIff(r: Region, i: nat, n: nat)
    requires r.Sound() && i + n <= CAPACITY
    ensures r.Return(i, n).Sound() <==> RunAt(r.bits, i, n, true)
  {
    CountFill(r.bits, i, n, false);
    WindowCount(r.bits, i, n);
  }

  /** Freeing keeps the region sound exactly when every freed page was in use: the counters move by the requested length. */
  lemma FreeSoundIff(r: Region, addr: nat, n: nat)
    requires r.Sound() && r.InRange(addr) && r.Clearable(addr, n)
    ensures r.Free(addr, n).Sound() <==> RunAt(r.bits, r.PageOf(addr), n, true)
  {
    var i := r.PageOf(addr);
    if Wraps(i, n) {
      CountersMove(r.used, n);
    } else {
      ReturnSoundIff(r, i, n);
    }
  }

  /** Two free pages, the second past the end of a one-page region: the second is handed out and the counters wrap. */
  lemma AllocAtPastEnd()
    ensures var r := Region(0x100000, 1, Constant(CAPACITY, false), 1, 0);
      && r.Sound() && r.AllocAtSucceeds(0x100000, 2)
      && r.AllocAt(0x100000, 2).free == SIZE_VALUES - 1
      && !r.AllocAt(0x100000, 2).Sound()
  {
    CountConstant(CAPACITY, false);
    var r := Region(0x100000, 1, Constant(CAPACITY, false), 1, 0);
    AllocAtSoundIff(r, 0x100000, 2);
  }

  /** Freeing a page that is free makes the used counter wrap. */
  lemma DoubleFree()
    ensures var r := Region(0x100000, 1, Constant(CAPACITY, false), 1, 0);
      && r.Sound()
      && r.Free(0x100000, 1).used == SIZE_VALUES - 1
      && !r.Free(0x100000, 1).Sound()
  {
    CountConstant(CAPACITY, false);
    var r := Region(0x100000, 1, Constant(CAPACITY, false), 1, 0);
    assert !RunAt(r.bits, 0, 1, true) by {
      assert !r.bits[0];
    }
    FreeSoundIff(r, 0x100000, 1);
  }

  lemma AllocSound(r: Region, n: nat)
    requires r.Sound()
    ensures r.Alloc(n).0.Sound()
  {
    var f := r.Find(n, false);
    if f.Some? {
      FoundIsFree(r, n);
      TakeFree(r, f.value, n);
    }
  }

  /** Fragmentation bound: with more free pages than `(used + 1) * (n - 1)` a request for `n` cannot fail,
      in whatever pattern the pages were allocated and freed. */
  lemma AllocMustSucceed(r: Region, n: nat)
    requires r.Sound() && n >= 1 && r.free > (r.used + 1) * (n - 1)
    ensures r.Find(n, false).Some?
    ensures r.Alloc(n).0.used == r.used + n && r.Alloc(n).0.free == r.free - n
  {
    UsedInside(r);
    ManyFreeForceRun(r.bits[..r.length], n);
    FindIsFirstFit(r, n);
    FoundIsFree(r, n);
    TakeFree(r, r.Find(n, false).value, n);
  }

  /** A single page is refused exactly when none is free. */
  lemma OnePageFailsIffFull(r: Region)
    requires r.Sound() && r.start > 0
    ensures r.Alloc(1).1 == 0 <==> r.free == 0
  {
    if r.free > 0 {
      AllocMustSucceed(r, 1);
    } else {
      UsedInside(r);
      CountExtremes(r.bits[..r.length]);
      NoBitLike(r.bits[..r.length], false, r.length);
      FirstRunIsLeast(r.bits[..r.length], 1, false, 0);
    }
  }

  /** Clearing pages just marked restores the map. */
  lemma FillBack(bits: seq<bool>, i: nat, n: nat, v: bool)
    requires RunAt(bits, i, n, v)
    ensures Fill(Fill(bits, i, n, !v), i, n, v) == bits
  {
  }

  lemma PageOfAddress(r: Region, i: nat)
    requires i < r.length
    ensures r.InRange(r.AddressOf(i)) && r.PageOf(r.AddressOf(i)) == i
  {
  }

  lemma TakeThenReturn(r: Region, i: nat, n: nat)
    requires r.Sound() && i + n <= r.length && RunAt(r.bits, i, n, false)
    ensures r.Take(i, n).Return(i, n) == r
  {
    TakeFree(r, i, n);
    FillBack(r.bits, i, n, false);
  }

  /** Freeing what a search handed out restores map and counters, so the same request gets the same answer again. */
  lemma AllocThenFree(r: Region, n: nat)
    requires r.Sound() && n >= 1 && r.Find(n, false).Some?
    ensures var (s, addr) := r.Alloc(n);
      && s.InRange(addr) && s.Clearable(addr, n)
      && s.Free(addr, n) == r && s.Free(addr, n).Alloc(n) == r.Alloc(n)
  {
    var i := r.Find(n, false).value;
    FoundIsFree(r, n);
    TakeThenReturn(r, i, n);
    PageOfAddress(r.Take(i, n), i);
  }

  lemma AllocAtThenFree(r: Region, addr: nat, n: nat)
    requires r.Sound() && r.AllocAtSucceeds(addr, n) && r.PageOf(addr) + n <= r.length
    ensures r.AllocAt(addr, n).Free(addr, n) == r
  {
    TakeThenReturn(r, r.PageOf(addr), n);
  }
}
