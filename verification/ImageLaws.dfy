/** Where things are in memory, in numbers, and that start-up and all later requests leave the kernel image alone. */
module ImageLaws {
  import opened Common
  import opened PageRuns
  import opened FirstFit
  import opened MemoryCopy
  import opened Multiboot2
  import opened PmmModel
  import opened Pmm
  import opened PmmLaws

  /** The image starts at 1 MB, pages have 4096 bytes, kernel space is the 8 MB from there, and the memory managed ends
      `length` bytes behind the start. */
  lemma RouteIff(y: System, addr: nat)
    requires y.Shaped()
    ensures y.Route(addr) == Some(Kernel) <==> 0x10_0000 <= addr < 0x90_0000
    ensures y.Route(addr) == Some(User) <==> 0x90_0000 <= addr < 0x10_0000 + y.length
    ensures 0x80_0000 <= y.length < 0x880_1000
    ensures y.kernel.length == 2048 && y.user.length == (y.length - 0x80_0000) / 4096
  {
  }

  /** Page `i` of a region is the 4096 bytes behind the pages before it. */
  lemma PageBytes(y: System, s: Space, addr: nat, i: nat)
    requires y.Shaped() && i < y.At(s).length
    ensures y.At(s).InRange(addr) && y.At(s).PageOf(addr) == i
       <==> (if s == Kernel then 0x10_0000 else 0x90_0000) + 4096 * i <= addr
            < (if s == Kernel then 0x10_0000 else 0x90_0000) + 4096 * (i + 1)
  {
  }

  /** The reserved pages of the image are the least number of pages that reach its end. */
  lemma ImagePagesLeast(kernelEnd: nat, n: nat)
    requires kernelEnd >= 0x10_0000
    ensures kernelEnd <= 0x10_0000 + 4096 * n <==> KernelPages(kernelEnd) <= n
  {
  }

  /** The page of an address is marked and set aside. */
  ghost predicate SetAside(y: System, addr: nat)
    requires y.Shaped()
  {
    && y.kernel.InRange(addr)
    && y.Reserved(Kernel, y.kernel.PageOf(addr)) && y.kernel.bits[y.kernel.PageOf(addr)]
  }

  lemma ReservedInside(y: System)
    requires y.Safe()
    ensures y.reserved <= KERNEL_PAGES
  {
    assert !y.At(Kernel).bits[KERNEL_PAGES];
    assert !y.Reserved(Kernel, KERNEL_PAGES);
  }

  /** In a safe state those are the addresses up to the end of the reserved pages. */
  lemma SetAsideIff(y: System, addr: nat)
    requires y.Safe()
    ensures SetAside(y, addr) <==> 0x10_0000 <= addr < 0x10_0000 + 4096 * y.reserved
  {
    ReservedInside(y);
    if y.kernel.InRange(addr) {
      assert y.Reserved(Kernel, y.kernel.PageOf(addr)) ==> y.At(Kernel).bits[y.kernel.PageOf(addr)];
    }
  }

  /** How many pages start-up sets aside. */
  lemma BootReserved(length: nat, kernelPages: nat, infoPages: nat)
    requires KERNEL_SPACE_SIZE <= length < LENGTH_LIMIT && kernelPages <= KERNEL_PAGES && infoPages > 0
    ensures BootSystem(length, kernelPages, infoPages).reserved
         == if kernelPages + infoPages <= KERNEL_PAGES then kernelPages + infoPages else kernelPages
  {
    ImageReserved(length, kernelPages);
    FoundBehindImage(BootRegion(length, kernelPages), kernelPages, infoPages);
  }

  /** After start-up every byte of the image lies in a page that is marked and set aside. */
  lemma ImageIsReserved(length: nat, kernelEnd: nat, infoPages: nat, addr: nat)
    requires KERNEL_SPACE_SIZE <= length < LENGTH_LIMIT && infoPages > 0 && 0x10_0000 <= addr < kernelEnd
    requires KernelPages(kernelEnd) <= KERNEL_PAGES
    ensures SetAside(BootSystem(length, KernelPages(kernelEnd), infoPages), addr)
  {
    BootSafeIff(length, KernelPages(kernelEnd), infoPages);
    BootReserved(length, KernelPages(kernelEnd), infoPages);
    SetAsideIff(BootSystem(length, KernelPages(kernelEnd), infoPages), addr);
  }

  /** The boot information goes right behind the image. */
  lemma InfoBehindImage(kernelEnd: nat)
    requires kernelEnd >= KERNEL_START_ADDR
    ensures kernelEnd <= InfoTarget(kernelEnd) < kernelEnd + 4096 && InfoTarget(kernelEnd) % 4096 == 0
  {
  }

  /** Its bytes in the new place are set aside too. */
  lemma InfoIsReserved(length: nat, kernelEnd: nat, size: nat, addr: nat)
    requires KERNEL_SPACE_SIZE <= length < LENGTH_LIMIT && kernelEnd >= KERNEL_START_ADDR && size > 0
    requires KernelPages(kernelEnd) + PagesFor(size) <= KERNEL_PAGES
    requires InfoTarget(kernelEnd) <= addr < InfoTarget(kernelEnd) + size
    ensures SetAside(BootSystem(length, KernelPages(kernelEnd), PagesFor(size)), addr)
  {
    BootSafeIff(length, KernelPages(kernelEnd), PagesFor(size));
    BootReserved(length, KernelPages(kernelEnd), PagesFor(size));
    SetAsideIff(BootSystem(length, KernelPages(kernelEnd), PagesFor(size)), addr);
  }

  lemma {:induction false} RunKeepsReserved(y: System, qs: seq<Request>)
    requires y.Shaped() && DefinedRun(y, qs)
    ensures Run(y, qs).reserved == y.reserved
    decreases |qs|
  {
    if qs != [] {
      RunKeepsReserved(y.Step(qs[0]), qs[1..]);
    }
  }

  /** A live block holds no address in a reserved page. */
  lemma NoBlockThere(y: System, b: Block, addr: nat)
    requires y.Safe() && b in y.live && HoldsAddress(y, b, addr)
    ensures addr >= 0x10_0000 + 4096 * y.reserved
  {
    ReservedInside(y);
  }

  /** Whatever is asked for after start-up, no block handed out ever holds a byte of the image or of the boot information. */
  lemma ImageNeverHandedOut(length: nat, kernelEnd: nat, size: nat, qs: seq<Request>, b: Block, addr: nat)
    requires KERNEL_SPACE_SIZE <= length < LENGTH_LIMIT && kernelEnd >= KERNEL_START_ADDR && size > 0
    requires KernelPages(kernelEnd) + PagesFor(size) <= KERNEL_PAGES
    requires DefinedRun(BootSystem(length, KernelPages(kernelEnd), PagesFor(size)), qs)
    requires LegalRun(BootSystem(length, KernelPages(kernelEnd), PagesFor(size)), qs)
    requires var z := Run(BootSystem(length, KernelPages(kernelEnd), PagesFor(size)), qs);
      b in z.live && HoldsAddress(z, b, addr)
    ensures !(0x10_0000 <= addr < kernelEnd) && !(InfoTarget(kernelEnd) <= addr < InfoTarget(kernelEnd) + size)
  {
    var k, i := KernelPages(kernelEnd), PagesFor(size);
    BootSafeIff(length, k, i);
    BootReserved(length, k, i);
    NeverHandedOut(BootSystem(length, k, i), qs, b, addr);
  }

  lemma NeverHandedOut(y: System, qs: seq<Request>, b: Block, addr: nat)
    requires y.Safe() && DefinedRun(y, qs) && LegalRun(y, qs)
    requires b in Run(y, qs).live && HoldsAddress(Run(y, qs), b, addr)
    ensures addr >= 0x10_0000 + 4096 * y.reserved
  {
    RunSafeIff(y, qs);
    RunKeepsReserved(y, qs);
    NoBlockThere(Run(y, qs), b, addr);
  }

  /** Moving the boot information changes no byte of the image. */
  lemma ImageUntouched(m: seq<Byte>, a: nat, kernelEnd: nat, tags: nat, k: nat)
    requires InfoFits(m, a, kernelEnd, tags) && k < kernelEnd
    ensures k < |m| && Relocated(m, a, kernelEnd, tags)[k] == m[k]
  {
    InfoInside(m, a, kernelEnd, tags);
  }
}
