/** Start-up: when the first state of the memory manager is safe, and that the moved boot information still says the same. */
module PmmLaws {
  import opened Common
  import opened Bitmap
  import opened PageRuns
  import opened FirstFit
  import opened FirstFitLaws
  import opened MemoryCopy
  import opened Multiboot2
  import opened PmmModel
  import opened Pmm

  /** The length start-up gives the second allocator, for any amount of memory. */
  function UserPages(length: nat): nat {
    Wrap(length - KERNEL_SPACE_SIZE) / PAGE_SIZE
  }

  /** Every page of the second region has a word in its page map exactly when there are from 8 MB of memory up to the limit:
      for less the subtraction wraps around, for more the map is too small, and start-up checks neither. */
  lemma MapSufficesIff(length: nat)
    requires length < SIZE_VALUES
    ensures (forall i | 0 <= i < UserPages(length) :: WordIndex(i) < WORDS)
      <==> KERNEL_SPACE_SIZE <= length < LENGTH_LIMIT
    ensures KERNEL_SPACE_SIZE <= length < LENGTH_LIMIT ==> EmptySystem(length).user.length == UserPages(length)
  {
    if length < KERNEL_SPACE_SIZE {
      assert length - KERNEL_SPACE_SIZE + SIZE_VALUES >= SIZE_VALUES - KERNEL_SPACE_SIZE;
    }
    if UserPages(length) > CAPACITY {
      assert WordIndex(CAPACITY) >= WORDS;
    }
  }

  /** With 256 MB the second region has 63488 pages, and page 32768 would have its bit in word 512, behind the map. */
  lemma TooMuchMemory()
    ensures UserPages(0x1000_0000) == 63488 && WordIndex(32768) == 512 == WORDS
  {
    MapSufficesIff(0x1000_0000);
  }

  /** With 4 MB the subtraction wraps, and the region has far more pages than there is memory. */
  lemma TooLittleMemory()
    ensures UserPages(4 * MB) == (SIZE_VALUES - 4 * MB) / PAGE_SIZE > CAPACITY
  {
    MapSufficesIff(4 * MB);
  }

  lemma EmptyKernel(length: nat)
    requires KERNEL_SPACE_SIZE <= length < LENGTH_LIMIT
    ensures EmptySystem(length).kernel.Sound() && EmptySystem(length).user.Sound()
    ensures EmptySystem(length).kernel.PageOf(KERNEL_START_ADDR) == 0
  {
    CountConstant(CAPACITY, false);
  }

  lemma ImageReserved(length: nat, kernelPages: nat)
    requires KERNEL_SPACE_SIZE <= length < LENGTH_LIMIT && kernelPages <= CAPACITY
    ensures BootRegion(length, kernelPages).Sound() <==> kernelPages <= KERNEL_PAGES
    ensures BootRegion(length, kernelPages).bits == Fill(Constant(CAPACITY, false), 0, kernelPages, true)
  {
    EmptyKernel(length);
    AllocAtSoundIff(EmptySystem(length).kernel, KERNEL_START_ADDR, kernelPages);
  }

  /** In a map with just its first `k` pages marked, the search finds the page behind them, if there is room. */
  lemma FoundBehindImage(r: Region, k: nat, n: nat)
    requires r.WellSized() && k <= r.length && n > 0
    requires r.bits == Fill(Constant(CAPACITY, false), 0, k, true)
    ensures r.Find(n, false) == if k + n <= r.length then Some(k) else None
  {
    var bits := r.bits[..r.length];
    forall i: nat | i < k
      ensures !RunAt(bits, i, n, false)
    {
      assert bits[i];
    }
    if k + n <= r.length {
      assert RunAt(bits, k, n, false);
      LeastRunIsFirst(bits, k, n, false);
    } else {
      FirstRunIsLeast(bits, n, false, 0);
    }
  }

  /** Start-up leaves a safe state exactly when the kernel image fits into kernel space, whether or not the boot information does. */
  lemma BootSafeIff(length: nat, kernelPages: nat, infoPages: nat)
    requires KERNEL_SPACE_SIZE <= length < LENGTH_LIMIT && kernelPages <= CAPACITY && infoPages > 0
    ensures BootSystem(length, kernelPages, infoPages).Safe() <==> kernelPages <= KERNEL_PAGES
  {
    var y, k := BootSystem(length, kernelPages, infoPages), BootRegion(length, kernelPages);
    ImageReserved(length, kernelPages);
    EmptyKernel(length);
    if kernelPages <= KERNEL_PAGES {
      AllocSound(k, infoPages);
      FoundBehindImage(k, kernelPages, infoPages);
      BootExact(length, kernelPages, infoPages);
    } else {
      assert k.bits[KERNEL_PAGES];
      assert y.kernel.bits[KERNEL_PAGES];
    }
  }

  lemma BootExact(length: nat, kernelPages: nat, infoPages: nat)
    requires KERNEL_SPACE_SIZE <= length < LENGTH_LIMIT && kernelPages <= KERNEL_PAGES && infoPages > 0
    ensures BootSystem(length, kernelPages, infoPages).MapsExact()
  {
    var y, k := BootSystem(length, kernelPages, infoPages), BootRegion(length, kernelPages);
    ImageReserved(length, kernelPages);
    FoundBehindImage(k, kernelPages, infoPages);
    forall s, p: nat | p < CAPACITY
      ensures y.At(s).bits[p] <==> y.Reserved(s, p) || y.Owned(s, p)
    {
      assert y.live == {};
    }
  }

  /** From start-up on, memory is safe in every state of a run exactly when the image fits into kernel space
      and every request is legal when it is made. */
  lemma BootedRunSafeIff(length: nat, kernelPages: nat, infoPages: nat, qs: seq<Request>)
    requires KERNEL_SPACE_SIZE <= length < LENGTH_LIMIT && kernelPages <= CAPACITY && infoPages > 0
    requires DefinedRun(BootSystem(length, kernelPages, infoPages), qs)
    ensures SafeThroughout(BootSystem(length, kernelPages, infoPages), qs)
      <==> kernelPages <= KERNEL_PAGES && LegalRun(BootSystem(length, kernelPages, infoPages), qs)
  {
    BootSafeIff(length, kernelPages, infoPages);
    if kernelPages <= KERNEL_PAGES {
      RunSafeIff(BootSystem(length, kernelPages, infoPages), qs);
    }
  }

  /** The new place of the boot information, when there is room for it. */
  lemma InfoAddress(length: nat, kernelPages: nat, infoPages: nat)
    requires KERNEL_SPACE_SIZE <= length < LENGTH_LIMIT && infoPages > 0 && kernelPages + infoPages <= KERNEL_PAGES
    ensures BootRegion(length, kernelPages).Alloc(infoPages).1 == KERNEL_START_ADDR + PAGE_SIZE * kernelPages
  {
    ImageReserved(length, kernelPages);
    FoundBehindImage(BootRegion(length, kernelPages), kernelPages, infoPages);
  }

  /** The bytes of the block behind the ones asked for, up to whole pages, do not change where the others come from. */
  lemma SameForwardOffset(dest: nat, src: nat, size: nat, len: nat, i: nat)
    requires i < size <= len
    ensures ForwardOffset(dest, src, len, i) == ForwardOffset(dest, src, size, i)
  {
    if src + size <= dest {
      FirstPeriod(dest, src, len, i);
    }
  }

  /** The checks accept the new place exactly when there was room for the block: without room the copy goes to address 0,
      which they refuse, and start-up does not look at their answer. */
  lemma InfoPlacedIff(length: nat, kernelPages: nat, infoPages: nat)
    requires KERNEL_SPACE_SIZE <= length < LENGTH_LIMIT && infoPages > 0 && kernelPages <= KERNEL_PAGES
    ensures var b := BootRegion(length, kernelPages).Alloc(infoPages).1;
      && (AddressAccepted(BOOTLOADER_MAGIC, b) <==> kernelPages + infoPages <= KERNEL_PAGES)
      && (kernelPages + infoPages > KERNEL_PAGES ==> b == 0)
  {
    ImageReserved(length, kernelPages);
    FoundBehindImage(BootRegion(length, kernelPages), kernelPages, infoPages);
  }

  /** What the first `size` bytes of a longer forward copy are. */
  lemma MovedStart(m: seq<Byte>, a: nat, size: nat, len: nat, target: nat, i: nat)
    requires a + len <= |m| && target + len <= |m| && i < size <= len
    ensures CopiedForward(m, target, a, len)[target + i] == m[a + ForwardOffset(target, a, size, i)]
  {
    SameForwardOffset(target, a, size, len, i);
  }

  lemma NoOverlapFromBelow(m: seq<Byte>, a: nat, size: nat, target: nat)
    requires a + size <= |m| && !(a < target < a + size)
    ensures Periodic(m, target, a, size)
  {
  }

  /** The start of a block moved by whole pages has the same bytes exactly when the block repeats with the period by which
      it overlaps its new place from below; so always when it ends before the new place or does not start before it. */
  lemma MovedBytesIff(m: seq<Byte>, a: nat, size: nat, target: nat)
    requires a + PagesFor(size) * PAGE_SIZE <= |m| && target + PagesFor(size) * PAGE_SIZE <= |m|
    ensures SameBytes(m, a, CopiedForward(m, target, a, PagesFor(size) * PAGE_SIZE), target, size)
       <==> Periodic(m, target, a, size)
  {
    var len := PagesFor(size) * PAGE_SIZE;
    SameStartIff(m, CopiedForward(m, target, a, len), a, size, len, target);
  }

  lemma SameStartIff(m: seq<Byte>, c: seq<Byte>, a: nat, size: nat, len: nat, target: nat)
    requires size <= len && a + len <= |m| && target + len <= |m| && c == CopiedForward(m, target, a, len)
    ensures SameBytes(m, a, c, target, size) <==> Periodic(m, target, a, size)
  {
    var before, after := m[a..a + size], c[target..target + size];
    if Periodic(m, target, a, size) {
      forall i | 0 <= i < size
        ensures before[i] == after[i]
      {
        MovedStart(m, a, size, len, target, i);
      }
    } else {
      var i: nat :| i < size && m[a + i] != m[a + ForwardOffset(target, a, size, i)];
      MovedStart(m, a, size, len, target, i);
      assert before[i] != after[i];
    }
  }

  /** Where start-up puts the boot information when image and information fit into kernel space. */
  function InfoTarget(kernelEnd: nat): nat
    requires kernelEnd >= KERNEL_START_ADDR
  {
    KERNEL_START_ADDR + PAGE_SIZE * KernelPages(kernelEnd)
  }

  /** What relocation needs of an accepted block: its tags end inside it, the memory they report can be managed,
      block and image fit side by side into kernel space, and the block itself does not reach into its new place from below. */
  predicate InfoFits(m: seq<Byte>, a: nat, kernelEnd: nat, tags: nat) {
    && a + 4 <= |m| && USER_START_ADDR + 8 <= |m| && kernelEnd >= KERNEL_START_ADDR
    && a + PagesFor(Le32(m, a)) * PAGE_SIZE <= |m|
    && KernelPages(kernelEnd) + PagesFor(Le32(m, a)) <= KERNEL_PAGES
    && !(a < InfoTarget(kernelEnd) < a + Le32(m, a))
    && Walkable(m, a + 8, a + Le32(m, a), tags) && Walkable(m, a + 8, |m|, tags)
    && (var len := WalkResult(m, a + 8, tags, NO_RESOURCE).len; len != 0 ==> KERNEL_SPACE_SIZE <= len < LENGTH_LIMIT)
  }

  function Relocated(m: seq<Byte>, a: nat, kernelEnd: nat, tags: nat): (m2: seq<Byte>)
    requires InfoFits(m, a, kernelEnd, tags)
    ensures |m2| == |m|
  {
    InfoInside(m, a, kernelEnd, tags);
    CopiedForward(m, InfoTarget(kernelEnd), a, PagesFor(Le32(m, a)) * PAGE_SIZE)
  }

  lemma InfoInside(m: seq<Byte>, a: nat, kernelEnd: nat, tags: nat)
    requires InfoFits(m, a, kernelEnd, tags)
    ensures InfoTarget(kernelEnd) + PagesFor(Le32(m, a)) * PAGE_SIZE <= USER_START_ADDR <= |m|
  {
  }

  lemma BytesSurvive(m: seq<Byte>, a: nat, kernelEnd: nat, tags: nat)
    requires InfoFits(m, a, kernelEnd, tags)
    ensures SameBytes(m, a, Relocated(m, a, kernelEnd, tags), InfoTarget(kernelEnd), Le32(m, a))
  {
    InfoInside(m, a, kernelEnd, tags);
    NoOverlapFromBelow(m, a, Le32(m, a), InfoTarget(kernelEnd));
    MovedBytesIff(m, a, Le32(m, a), InfoTarget(kernelEnd));
  }

  /** The moved block passes every check again, has the same size, and reports the same memory. */
  lemma InfoSurvives(m: seq<Byte>, a: nat, magic: nat, kernelEnd: nat, tags: nat)
    requires InfoFits(m, a, kernelEnd, tags) && AddressAccepted(magic, a) && SizeAccepted(Le32(m, a))
    ensures var m2 := Relocated(m, a, kernelEnd, tags); var b := InfoTarget(kernelEnd);
      && AddressAccepted(magic, b) && b + 8 <= |m2| && Le32(m2, b) == Le32(m, a)
      && Walkable(m2, b + 8, |m2|, tags)
      && WalkResult(m2, b + 8, tags, NO_RESOURCE) == WalkResult(m, a + 8, tags, NO_RESOURCE)
  {
    TargetAccepted(magic, kernelEnd);
    BytesSurvive(m, a, kernelEnd, tags);
    BlockSurvives(m, a, Relocated(m, a, kernelEnd, tags), InfoTarget(kernelEnd), Le32(m, a), tags);
  }

  lemma TargetAccepted(magic: nat, kernelEnd: nat)
    requires magic == BOOTLOADER_MAGIC && kernelEnd >= KERNEL_START_ADDR && KernelPages(kernelEnd) < KERNEL_PAGES
    ensures AddressAccepted(magic, InfoTarget(kernelEnd)) && InfoTarget(kernelEnd) + 8 <= USER_START_ADDR
  {
  }

  lemma BlockSurvives(m: seq<Byte>, a: nat, m2: seq<Byte>, b: nat, size: nat, tags: nat)
    requires SameBytes(m, a, m2, b, size) && size >= 8 && Walkable(m, a + 8, a + size, tags)
    ensures Le32(m2, b) == Le32(m, a)
    ensures Walkable(m, a + 8, |m|, tags) && Walkable(m2, b + 8, |m2|, tags)
    ensures WalkResult(m2, b + 8, tags, NO_RESOURCE) == WalkResult(m, a + 8, tags, NO_RESOURCE)
  {
    SameWord(m, a, m2, b, size, 0);
    WalkRelocates(m, a, m2, b, size, 8, tags, NO_RESOURCE);
  }

  /** Boot information that the checks accept. */
  predicate InfoAccepted(m: seq<Byte>, a: nat, magic: nat) {
    AddressAccepted(magic, a) && a + 4 <= |m| && SizeAccepted(Le32(m, a))
  }

  /** The state and the address that start-up leaves, when image and information fit into kernel space. */
  lemma StartPlaced(kernelEnd: nat, infoPages: nat, length: nat)
    requires KERNEL_SPACE_SIZE <= length < LENGTH_LIMIT && kernelEnd >= KERNEL_START_ADDR
    requires infoPages > 0 && KernelPages(kernelEnd) + infoPages <= KERNEL_PAGES
    ensures BootSystem(length, KernelPages(kernelEnd), infoPages).Safe()
    ensures BootRegion(length, KernelPages(kernelEnd)).Alloc(infoPages).1 == InfoTarget(kernelEnd)
  {
    BootSafeIff(length, KernelPages(kernelEnd), infoPages);
    InfoAddress(length, KernelPages(kernelEnd), infoPages);
  }

  /** The state, the address and the contents of memory that start-up leaves:
      memory is safe, and the moved block is accepted again and reports the same memory. */
  lemma StartIsSafe(m: seq<Byte>, a: nat, magic: nat, kernelEnd: nat, tags: nat, length: nat, b: nat)
    requires InfoAccepted(m, a, magic) && InfoFits(m, a, kernelEnd, tags)
    requires length == WalkResult(m, a + 8, tags, NO_RESOURCE).len > 0
    requires b == BootRegion(length, KernelPages(kernelEnd)).Alloc(PagesFor(Le32(m, a))).1
    ensures BootSystem(length, KernelPages(kernelEnd), PagesFor(Le32(m, a))).Safe()
    ensures b == InfoTarget(kernelEnd)
    ensures var m2 := Relocated(m, a, kernelEnd, tags);
      InfoAccepted(m2, b, magic) && Walkable(m2, b + 8, |m2|, tags) && WalkResult(m2, b + 8, tags, NO_RESOURCE).len == length
  {
    StartPlaced(kernelEnd, PagesFor(Le32(m, a)), length);
    InfoSurvives(m, a, magic, kernelEnd, tags);
  }

  /** What memory detection reports for an accepted block. */
  function ReportedLength(m: seq<Byte>, a: nat, tags: nat): nat
    requires Walkable(m, a + 8, |m|, tags)
  {
    WalkResult(m, a + 8, tags, NO_RESOURCE).len
  }

  /** A started system: memory is safe, and the block in place is accepted and reports the memory being managed. */
  ghost predicate Started(pmm: PhysicalMemory, info: BootInfo, tags: nat)
    reads pmm.Repr() + {pmm}, info, info.mem
  {
    && pmm.Valid() && pmm.State().Safe() && InfoAccepted(info.mem[..], info.addr, info.magic)
    && Walkable(info.mem[..], info.addr + 8, info.mem.Length, tags)
    && ReportedLength(info.mem[..], info.addr, tags) == pmm.length
  }

  /** The start of the kernel's `test()`: checks the boot information, then sets up memory from it. It fails exactly when
      the checks refuse the block or the block reports no memory. */
  method StartMemory(info: BootInfo, kernelEnd: nat, ghost tags: nat) returns (pmm: PhysicalMemory?)
    requires info.addr + 4 <= info.mem.Length
    requires InfoAccepted(info.mem[..], info.addr, info.magic) ==> InfoFits(info.mem[..], info.addr, kernelEnd, tags)
    modifies info, info.mem
    ensures pmm == null <==> !old(InfoAccepted(info.mem[..], info.addr, info.magic))
                             || old(ReportedLength(info.mem[..], info.addr, tags)) == 0
    ensures pmm != null ==> fresh(pmm.Repr()) && Started(pmm, info, tags)
    ensures pmm != null ==> pmm.length == old(ReportedLength(info.mem[..], info.addr, tags))
  {
    var accepted := info.Init();
    if !accepted {
      return null;
    }
    pmm := StartAccepted(info, kernelEnd, tags);
  }

  /** The same from a block that was just accepted. */
  method StartAccepted(info: BootInfo, kernelEnd: nat, ghost tags: nat) returns (pmm: PhysicalMemory?)
    requires InfoAccepted(info.mem[..], info.addr, info.magic) && InfoFits(info.mem[..], info.addr, kernelEnd, tags)
    requires info.inited && info.size == Le32(info.mem[..], info.addr)
    modifies info, info.mem
    ensures pmm == null <==> old(ReportedLength(info.mem[..], info.addr, tags)) == 0
    ensures pmm != null ==> fresh(pmm.Repr()) && Started(pmm, info, tags)
    ensures pmm != null ==> pmm.length == old(ReportedLength(info.mem[..], info.addr, tags))
  {
    ghost var m, a, magic := info.mem[..], info.addr, info.magic;
    pmm := Pmm.Init(info, kernelEnd, tags);
    if pmm != null {
      StartIsSafe(m, a, magic, kernelEnd, tags, pmm.length, info.addr);
      assert info.mem[..] == Relocated(m, a, kernelEnd, tags);
    }
  }
}
