/** The physical memory manager: start-up from the boot information, and the page requests of the kernel. */
module Pmm {
  import opened Common
  import opened Bitmap
  import opened PageRuns
  import opened FirstFit
  import opened MemoryCopy
  import opened Multiboot2
  import opened PmmModel

  function PagesFor(bytes: nat): (n: nat)
    ensures bytes <= n * PAGE_SIZE < bytes + PAGE_SIZE
  {
    bytes / PAGE_SIZE + if bytes % PAGE_SIZE != 0 then 1 else 0
  }

  /** Pages from the start of the kernel image to its rounded-up end. */
  function KernelPages(kernelEnd: nat): (n: nat)
    requires kernelEnd >= KERNEL_START_ADDR
    ensures kernelEnd <= KERNEL_START_ADDR + n * PAGE_SIZE < kernelEnd + PAGE_SIZE
  {
    (Align(kernelEnd, PAGE_SIZE) - KERNEL_START_ADDR) / PAGE_SIZE
  }

  /** Both page maps before anything is marked. */
  function EmptySystem(length: nat): (y: System)
    requires KERNEL_SPACE_SIZE <= length < LENGTH_LIMIT
    ensures y.Shaped()
  {
    System(length,
           Region(KERNEL_START_ADDR, KERNEL_PAGES, Constant(CAPACITY, false), KERNEL_PAGES, 0),
           Region(USER_START_ADDR, (length - KERNEL_SPACE_SIZE) / PAGE_SIZE, Constant(CAPACITY, false),
                  (length - KERNEL_SPACE_SIZE) / PAGE_SIZE, 0),
           0, {})
  }

  /** The state start-up leaves: the image's pages marked, then pages for the boot information where the search puts them. */
  function BootSystem(length: nat, kernelPages: nat, infoPages: nat): (y: System)
    requires KERNEL_SPACE_SIZE <= length < LENGTH_LIMIT && kernelPages <= CAPACITY
    ensures y.Shaped()
  {
    var k := BootRegion(length, kernelPages);
    var found := k.Find(infoPages, false).Some?;
    EmptySystem(length).(kernel := k.Alloc(infoPages).0, reserved := kernelPages + if found then infoPages else 0)
  }

  function BootRegion(length: nat, kernelPages: nat): (r: Region)
    requires KERNEL_SPACE_SIZE <= length < LENGTH_LIMIT && kernelPages <= CAPACITY
    ensures r.WellSized() && r.start == KERNEL_START_ADDR && r.length == KERNEL_PAGES
  {
    EmptySystem(length).kernel.AllocAt(KERNEL_START_ADDR, kernelPages)
  }

  /** What memory detection reports, from the present contents of memory. */
  ghost function Detected(info: BootInfo, tags: nat): Resource
    reads info, info.mem
    requires info.inited ==> Walkable(info.mem[..], info.addr + 8, info.mem.Length, tags)
  {
    if info.inited then WalkResult(info.mem[..], info.addr + 8, tags, NO_RESOURCE) else NO_RESOURCE
  }

  /** Pages found lie in the region; the address of a failed request is 0. */
  lemma AllocBounds(r: Region, n: nat, limit: nat)
    requires r.WellSized() && r.start + r.length * PAGE_SIZE <= limit
    ensures r.Alloc(n).1 == 0 || r.Alloc(n).1 + n * PAGE_SIZE <= limit
  {
  }

  /** `move_boot_info`: copies the boot information, in whole pages, to pages of kernel space, and reads it again there. */
  method MoveBootInfo(kernelSpace: Allocator, info: BootInfo)
    requires kernelSpace.Valid() && kernelSpace.map_ as object != info.mem
    requires kernelSpace.startAddr + kernelSpace.length * PAGE_SIZE + 8 <= info.mem.Length
    requires info.addr + PagesFor(info.size) * PAGE_SIZE <= info.mem.Length
    modifies kernelSpace, kernelSpace.map_, info, info.mem
    ensures kernelSpace.Valid()
    ensures (kernelSpace.Model(), info.addr) == old(kernelSpace.Model()).Alloc(old(PagesFor(info.size)))
    ensures info.addr + old(PagesFor(info.size)) * PAGE_SIZE <= info.mem.Length
    ensures info.mem[..] == CopiedForward(old(info.mem[..]), info.addr, old(info.addr), old(PagesFor(info.size)) * PAGE_SIZE)
    ensures info.magic == old(info.magic) && info.inited
  {
    var pages := info.size / PAGE_SIZE;
    if info.size % PAGE_SIZE != 0 {
      pages := pages + 1;
    }
    AllocBounds(kernelSpace.Model(), pages, info.mem.Length);
    AllocBounds(kernelSpace.Model(), pages, kernelSpace.startAddr + kernelSpace.length * PAGE_SIZE);
    var newAddr := kernelSpace.Alloc(pages);
    MemCpy(info.mem, newAddr, info.addr, pages * PAGE_SIZE);
    info.addr := newAddr;
    var _ := info.Init();
  }

  /** The manager once `init` has set it up; its fields do not change after that. */
  class PhysicalMemory {
    const length: nat
    const totalPages: nat
    const kernelSpaceStart: nat
    const kernelSpaceLength: nat
    const userSpaceStart: nat
    const userSpaceLength: nat
    const kernelSpaceAllocator: Allocator
    const allocator: Allocator
    /** Pages set aside at start-up, and the blocks handed out since. */
    ghost var reserved: nat
    ghost var live: set<Block>

    ghost predicate Valid()
      reads this, kernelSpaceAllocator, kernelSpaceAllocator.map_, allocator, allocator.map_
    {
      && kernelSpaceAllocator != allocator && kernelSpaceAllocator.map_ != allocator.map_
      && kernelSpaceAllocator.Valid() && allocator.Valid()
      && kernelSpaceStart == KERNEL_START_ADDR && kernelSpaceLength == KERNEL_SPACE_SIZE
      && userSpaceStart == USER_START_ADDR && length == KERNEL_SPACE_SIZE + userSpaceLength
      && totalPages == length / PAGE_SIZE
      && State().Shaped()
    }

    ghost function State(): System
      requires kernelSpaceAllocator.map_.Length == WORDS && allocator.map_.Length == WORDS
      reads this, kernelSpaceAllocator, kernelSpaceAllocator.map_, allocator, allocator.map_
    {
      System(length, kernelSpaceAllocator.Model(), allocator.Model(), reserved, live)
    }

    ghost function Repr(): set<object> {
      {this, kernelSpaceAllocator, kernelSpaceAllocator.map_, allocator, allocator.map_}
    }

    constructor (len: nat)
      requires KERNEL_SPACE_SIZE <= len < LENGTH_LIMIT
      ensures Valid() && fresh(Repr()) && State() == EmptySystem(len)
    {
      length := len;
      totalPages := len / PAGE_SIZE;
      kernelSpaceStart := KERNEL_START_ADDR;
      kernelSpaceLength := KERNEL_SPACE_SIZE;
      userSpaceStart := KERNEL_START_ADDR + KERNEL_SPACE_SIZE;
      userSpaceLength := len - KERNEL_SPACE_SIZE;
      kernelSpaceAllocator := new Allocator(KERNEL_START_ADDR, KERNEL_SPACE_SIZE / PAGE_SIZE);
      allocator := new Allocator(KERNEL_START_ADDR + KERNEL_SPACE_SIZE, (len - KERNEL_SPACE_SIZE) / PAGE_SIZE);
      reserved, live := 0, {};
    }

    method AllocPages(n: nat) returns (addr: nat)
      requires Valid()
      modifies Repr()
      ensures Valid()
      ensures State() == old(State()).Step(Request.Alloc(User, n))
      ensures addr == old(State()).user.Alloc(n).1
    {
      ghost var f := allocator.Model().Find(n, false);
      addr := allocator.Alloc(n);
      live := if f.Some? then Grant(live, User, f.value, n) else live;
    }

    method AllocPagesKernel(n: nat) returns (addr: nat)
      requires Valid()
      modifies Repr()
      ensures Valid()
      ensures State() == old(State()).Step(Request.Alloc(Kernel, n))
      ensures addr == old(State()).kernel.Alloc(n).1
    {
      ghost var f := kernelSpaceAllocator.Model().Find(n, false);
      addr := kernelSpaceAllocator.Alloc(n);
      live := if f.Some? then Grant(live, Kernel, f.value, n) else live;
    }

    method AllocPagesAt(addr: nat, n: nat) returns (ok: bool)
      requires Valid() && State().Defined(Request.AllocAt(User, addr, n))
      modifies Repr()
      ensures Valid()
      ensures State() == old(State()).Step(Request.AllocAt(User, addr, n))
      ensures ok == old(State()).user.AllocAtSucceeds(addr, n)
    {
      ghost var r := allocator.Model();
      ok := allocator.AllocAt(addr, n);
      live := if ok then Grant(live, User, r.PageOf(addr), n) else live;
    }

    method AllocPagesKernelAt(addr: nat, n: nat) returns (ok: bool)
      requires Valid() && State().Defined(Request.AllocAt(Kernel, addr, n))
      modifies Repr()
      ensures Valid()
      ensures State() == old(State()).Step(Request.AllocAt(Kernel, addr, n))
      ensures ok == old(State()).kernel.AllocAtSucceeds(addr, n)
    {
      ghost var r := kernelSpaceAllocator.Model();
      ok := kernelSpaceAllocator.AllocAt(addr, n);
      live := if ok then Grant(live, Kernel, r.PageOf(addr), n) else live;
    }

    method FreePages(addr: nat, n: nat)
      requires Valid() && State().Defined(Request.Free(addr, n))
      modifies Repr()
      ensures Valid()
      ensures State() == old(State()).Step(Request.Free(addr, n))
    {
      if addr >= kernelSpaceStart && addr < kernelSpaceStart + kernelSpaceLength {
        ghost var r := kernelSpaceAllocator.Model();
        kernelSpaceAllocator.Free(addr, n);
        live := if r.InRange(addr) then Release(live, Kernel, r.PageOf(addr), n) else live;
      } else if addr >= userSpaceStart && addr < userSpaceStart + userSpaceLength {
        ghost var r := allocator.Model();
        allocator.Free(addr, n);
        live := if r.InRange(addr) then Release(live, User, r.PageOf(addr), n) else live;
      }
      // any other address is only reported
    }

    method UsedPagesCount() returns (n: nat)
      requires Valid()
      ensures n == Wrap(State().kernel.used + State().user.used)
      ensures State().Safe() ==> n == CountUsed(State().kernel.bits) + CountUsed(State().user.bits)
    {
      n := Wrap(kernelSpaceAllocator.usedCount + allocator.usedCount);
    }

    method FreePagesCount() returns (n: nat)
      requires Valid()
      ensures n == Wrap(State().kernel.free + State().user.free)
      ensures State().Safe() ==>
        n == totalPages - CountUsed(State().kernel.bits) - CountUsed(State().user.bits)
    {
      n := Wrap(kernelSpaceAllocator.freeCount + allocator.freeCount);
    }
  }

  /** Setting the image aside in an empty map cannot fail. */
  lemma ImageAccepted(length: nat, kernelPages: nat)
    requires KERNEL_SPACE_SIZE <= length < LENGTH_LIMIT && kernelPages <= CAPACITY
    ensures EmptySystem(length).kernel.AllocAtSucceeds(KERNEL_START_ADDR, kernelPages)
  {
    var k := EmptySystem(length).kernel;
    assert k.PageOf(KERNEL_START_ADDR) == 0;
  }

  /** The image starts at a page, so its rounded-up start is its start. */
  lemma StartIsAligned()
    ensures Align(KERNEL_START_ADDR, PAGE_SIZE) == KERNEL_START_ADDR
  {
  }

  /** The part of `init` that builds the allocators and sets the kernel image aside. */
  method SetUp(len: nat, kernelEnd: nat) returns (pmm: PhysicalMemory)
    requires KERNEL_SPACE_SIZE <= len < LENGTH_LIMIT
    requires kernelEnd >= KERNEL_START_ADDR && KernelPages(kernelEnd) <= CAPACITY
    ensures pmm.Valid() && fresh(pmm.Repr())
    ensures pmm.State() == EmptySystem(len).(kernel := BootRegion(len, KernelPages(kernelEnd)))
  {
    StartIsAligned();
    var kernelPages := (Align(kernelEnd, PAGE_SIZE) - Align(KERNEL_START_ADDR, PAGE_SIZE)) / PAGE_SIZE;
    pmm := SetAside(len, kernelPages);
  }

  method SetAside(len: nat, kernelPages: nat) returns (pmm: PhysicalMemory)
    requires KERNEL_SPACE_SIZE <= len < LENGTH_LIMIT && kernelPages <= CAPACITY
    ensures pmm.Valid() && fresh(pmm.Repr())
    ensures pmm.State() == EmptySystem(len).(kernel := BootRegion(len, kernelPages))
  {
    pmm := new PhysicalMemory(len);
    ImageAccepted(len, kernelPages);
    var done := pmm.kernelSpaceAllocator.AllocAt(KERNEL_START_ADDR, kernelPages);
    assert done;
  }

  /** `PMM::init`: builds the manager from the detected memory, sets the kernel image aside and moves the boot information;
      null where the source reports failure. Setting the image aside in an empty map cannot fail. */
  method Init(info: BootInfo, kernelEnd: nat, ghost tags: nat) returns (pmm: PhysicalMemory?)
    requires info.inited ==> Walkable(info.mem[..], info.addr + 8, info.mem.Length, tags)
    requires Detected(info, tags).len != 0 ==> KERNEL_SPACE_SIZE <= Detected(info, tags).len < LENGTH_LIMIT
    requires kernelEnd >= KERNEL_START_ADDR && KernelPages(kernelEnd) <= CAPACITY
    requires info.addr + PagesFor(info.size) * PAGE_SIZE <= info.mem.Length
    requires USER_START_ADDR + 8 <= info.mem.Length
    modifies info, info.mem
    ensures pmm == null <==> old(Detected(info, tags)).len == 0
    ensures pmm == null ==> unchanged(info) && unchanged(info.mem)
    ensures pmm != null ==> pmm.Valid() && fresh(pmm.Repr()) && info.inited && info.magic == old(info.magic)
    ensures pmm != null ==>
      pmm.State() == BootSystem(old(Detected(info, tags)).len, KernelPages(kernelEnd), old(PagesFor(info.size)))
    ensures pmm != null ==> info.addr + old(PagesFor(info.size)) * PAGE_SIZE <= info.mem.Length
    ensures pmm != null ==>
      info.addr == BootRegion(pmm.length, KernelPages(kernelEnd)).Alloc(old(PagesFor(info.size))).1
    ensures pmm != null ==> info.mem[..]
                            == CopiedForward(old(info.mem[..]), info.addr, old(info.addr), old(PagesFor(info.size)) * PAGE_SIZE)
  {
    var memInfo, _ := info.GetMemory(tags);
    if memInfo.len == 0 {
      return null;
    }
    pmm := InitFrom(memInfo.len, info, kernelEnd);
  }

  /** The rest of `init`, once the amount of memory is known. */
  method InitFrom(len: nat, info: BootInfo, kernelEnd: nat) returns (pmm: PhysicalMemory)
    requires KERNEL_SPACE_SIZE <= len < LENGTH_LIMIT
    requires kernelEnd >= KERNEL_START_ADDR && KernelPages(kernelEnd) <= CAPACITY
    requires info.addr + PagesFor(info.size) * PAGE_SIZE <= info.mem.Length
    requires USER_START_ADDR + 8 <= info.mem.Length
    modifies info, info.mem
    ensures pmm.Valid() && fresh(pmm.Repr()) && info.inited && info.magic == old(info.magic)
    ensures pmm.State() == BootSystem(len, KernelPages(kernelEnd), old(PagesFor(info.size)))
    ensures info.addr + old(PagesFor(info.size)) * PAGE_SIZE <= info.mem.Length
    ensures info.addr == BootRegion(len, KernelPages(kernelEnd)).Alloc(old(PagesFor(info.size))).1
    ensures info.mem[..] == CopiedForward(old(info.mem[..]), info.addr, old(info.addr), old(PagesFor(info.size)) * PAGE_SIZE)
  {
    pmm := SetUp(len, kernelEnd);
    ghost var found := pmm.kernelSpaceAllocator.Model().Find(PagesFor(info.size), false);
    pmm.reserved := KernelPages(kernelEnd) + if found.Some? then PagesFor(info.size) else 0;
    MoveBootInfo(pmm.kernelSpaceAllocator, info);
  }
}
