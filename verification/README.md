# A verified model of the kernel's memory manager, boot information, text output and runtime support

The project models the parts of a small x86-64 kernel in which most of its logic lives, and proves what they promise.

- **Physical pages** (`PageRuns`, `Bitmap`, `FirstFit`, `FirstFitLaws`, `PmmModel`, `Pmm`, `PmmLaws`,
  `ImageLaws`). A page map of 512 64-bit words, changed in place by shifts and masks, refines a sequence of bits. The single-pass search finds the
  leftmost free run. The memory manager splits memory into kernel space and the rest and routes each free by address;
  `PmmModel` keeps the blocks handed out and proves safety over every run of requests, in both directions: memory stays
  safe exactly as long as callers ask for ranges inside a region and give back pages that are live. No legal
  request after start-up gets a byte of the kernel image.
- **Boot information** (`Alignment`, `Multiboot2`, `Multiboot2Encoding`, `Paging`). The checks, the tag walk and the summing of the
  memory map, on flat memory; the walk inverts the encoding of any tag list, and still gives the same answer after the
  block has been moved behind the kernel image. The first page table maps the first 2 MB to themselves and nothing else.
- **Formatted output** (`Digits`, `NumberFormat`, `NumberReading`, `FormatSpec`, `Vsprintf`, `PrintfLaws`, `HashLaws`,
  `Codes`, `StandardText`, `DirectiveLaws`, `RenderLaws`, `PlainTexts`, `VgaNumbers`, `Printf`). `FormatSpec.Render` says
  which text a format denotes; the printer writes exactly that text cut off at the limit. A directive written down from its parts is read as those parts, and prints the text section 7.21.6.1 of
  ISO C11 asks for wherever that fits the conversion buffer. Numbers read back, and the
  conditions under which they do not are exact. The second number printer of the VGA driver writes the same text.
- **Memory and strings** (`Arithmetic`, `Bits`, `Sequences`, `MemoryCopy`, `Strings`, `StringOrder`, `StringCopy`): copying under every overlap, the
  word-at-a-time `strnlen`, comparison, reversal, append and backspace.
- **Text consoles** (`Text`, `IdealPage`, `Vga`, `Tui`). Both scroll a screen in place, both are shown to display the last
  25 rows of one endless page, and they agree with each other.
- **Destructors** (`Destructors`): the table of the C++ runtime support and the calls made from it.

Code that changes state is a class or a method over arrays with the source's own loops; its `ensures` ties the new state
to a function on values (`Region.Alloc`, `System.Step`, `Console.Put`, `FormatSpec.Render`, ...), and the laws are lemmas
about those functions.

## Conventions

- `size_t` and `uintptr_t` are 64 bits wide and `unsigned int` is 32; counters, sums and `_atoi` wrap explicitly.
- Shifts and masks of unsigned indices are division and remainder, `1 << b` is repeated doubling, or-ing disjoint bytes
  is addition; that `ALIGN`'s masking is rounding is proved bit by bit (`AlignIsMasking`). The map words themselves and the words of `strnlen` are real 64-bit vectors.
- The manager's static object is the object `Pmm.Init` returns; null stands for `false`. `alloc_page` and `free_page`
  are the calls for one page.
- Preconditions are what the source leaves to its callers: an allocator of at most 32768 pages, memory of at least 8 MB
  and not more than the map of the second region can hold, map indices inside the map, a kernel image of at most 32768
  pages, readable words for `strnlen`, formats that do not end inside a directive and arguments that match them, string
  arguments shorter than 2^32, a tag walk that ends (`Walkable`), page tables that start out zero.
- Requests for no pages at all are modelled as the code treats them, searching behind the first used page.
- On x86-64 `long` and `long long` are equally wide, so their two digit printers are one method. Negating the most
  negative value is taken to wrap.
- Destructors do not register or finalize others while they run.

## Where the code differs from what one would expect

Each of these is stated exactly, most with the condition under which the code is right, for all inputs.

- Only the first address of an allocation at an address, and of a free, is checked (`AllocAtSoundIff`, `FreeSoundIff`).
  A length that makes the end of the range wrap around is accepted without marking anything (`WrappedAllocAt`).
- Boot information that finds no room in kernel space goes to address 0, which start-up does not notice (`InfoPlacedIff`).
- Start-up does not check that the second region fits its page map (`MapSufficesIff`, `TooMuchMemory`).
- A zero or huge tag size stops the tag walk from moving on (`NoStrideIff`); `WalkEndsIff` says when the walk ends.
- `#` can overwrite significant digits (`HashKeepsDigitsIff`), a full conversion buffer drops the sign
  (`SignedReadsBackIff`) and shortens the text (`LengthIff`), base 2 stops at 32 digits (`DigitsDenote`, `LongBinaryIsCut`).
- `vga_printf` prints the most negative number with wrong digits (`PrintersAgreeIff`).
- A tab in the last four columns of the `TUI` leaves the cursor past the edge (`PutRefinesIff`, `TabLosesCharacter`).
- `info`, `warn` and `err` lose the colours unless the background was black (`ColorRestoredIff`). Only a `TUI` used directly
  gets another background: `IO::set_color` always sets black, and the object behind `IO` is private.
- `backspace` on an empty string writes in front of it (`BackspaceStaysInsideIff`).
- `strcmp` and `strncmp` order characters of 0x80 and above differently (`OrdersAgreeIff`).
- A second `__cxa_finalize(0)` calls everything again (`SecondSweepRepeats`, `EachCalledOnceIff`), although the comment in the code expects
  called entries to be unset.

## Model

| member | source | states |
|---|---|---|
| `PageRuns.FirstRunIsLeast` | src/libk/src/firstfit.cpp:29-46 | the search by trying every start finds the leftmost run of `n` equal bits, and nothing exactly when there is none |
| `PageRuns.LeastRunIsFirst` | src/libk/src/firstfit.cpp:29-46 | a leftmost run is what that search answers |
| `PageRuns.ManyFreeForceRun` | src/libk/src/firstfit.cpp:29-46 | more than `(used + 1) * (n - 1)` free pages force a free run of `n` pages, in any page map |
| `PageRuns.BoundIsTight` | src/libk/src/firstfit.cpp:29-46 | for every `used` and `n` there is a map with exactly that many free pages and no such run: the bound cannot be lowered |
| `Bitmap.WordsRefineBits` | src/libk/src/firstfit.cpp:15-27 | setting and clearing by shift and mask in the 512 words is updating one entry of a sequence of 32768 bits, and testing is lookup |
| `Bitmap.OwnTest` | src/libk/src/firstfit.cpp:15-27 | a bit just set tests true, a bit just cleared tests false |
| `Bitmap.OtherTest` | src/libk/src/firstfit.cpp:15-27 | setting or clearing a bit leaves every other bit of its word as it was |
| `FirstFit.Allocator.constructor` | src/libk/src/allocator.cpp:10-17 | the new allocator has an empty map, all pages free and sound counters |
| `FirstFit.Allocator.Set` | src/libk/src/firstfit.cpp:15-18 | the map changes at one page only |
| `FirstFit.Allocator.Clr` | src/libk/src/firstfit.cpp:20-23 | the map changes at one page only |
| `FirstFit.Allocator.Test` | src/libk/src/firstfit.cpp:25-27 | answers the bit of the page |
| `FirstFit.Allocator.FindLen` | src/libk/src/firstfit.cpp:29-46 | the single pass with a run counter gives what trying every start gives, and all ones exactly when nothing is found; for no pages it stops behind the first unlike bit, as the code does |
| `FirstFit.ScanBreaks` | src/libk/src/firstfit.cpp:33-43 | a bit of the other value rules out every run that starts between the current one and that bit |
| `FirstFit.ScanGoesOn` | src/libk/src/firstfit.cpp:33-43 | the pass answers at the very bit that completes the leftmost run |
| `FirstFit.ScanFails` | src/libk/src/firstfit.cpp:33-45 | a pass that reaches the end has ruled out every run |
| `FirstFit.Allocator.Alloc` | src/libk/src/firstfit.cpp:61-80 | the new map, both counters and the address are those of taking the leftmost free run, or nothing changes and the address is 0 |
| `FirstFit.Allocator.AllocAt` | src/libk/src/firstfit.cpp:82-108 | succeeds exactly when the start is in range and all pages up to the 64-bit end of the range are free, so also when that end wraps around; the new map and counters in every case |
| `FirstFit.Allocator.Free` | src/libk/src/firstfit.cpp:110-126 | the pages are cleared and the counters moved by the length, whatever was there; none is cleared when the end wraps around; an address out of range changes nothing |
| `FirstFitLaws.AllocAnswersIff` | src/libk/src/firstfit.cpp:61-80 | the answer is the start of the region and 4096 bytes for each page before the leftmost free run, or 0 exactly when there is no such run |
| `FirstFitLaws.AllocAtSucceedsIff` | src/libk/src/firstfit.cpp:82-100 | a request at an address is accepted exactly when the address is in the region and the pages from its page on, as many as asked for and no other, are free, or when the end of the range wraps around |
| `FirstFitLaws.FindIsFirstFit` | src/libk/src/firstfit.cpp:29-46 | a request finds the leftmost fitting run of free pages, and fails exactly when the region has none |
| `FirstFitLaws.AllocSound` | src/libk/src/firstfit.cpp:61-80 | allocation keeps the counters in agreement with the map |
| `FirstFitLaws.AllocMustSucceed` | src/libk/src/firstfit.cpp:61-80 | in every sound state a request for `n` pages succeeds when `free > (used + 1) * (n - 1)`, and moves the counters by `n` |
| `FirstFitLaws.OnePageFailsIffFull` | src/libk/src/firstfit.cpp:61-80 | a one-page request fails exactly when no page is free |
| `FirstFitLaws.AllocAtSoundIff` | src/libk/src/firstfit.cpp:82-108 | an accepted request at an address keeps the state sound exactly when the whole range lies in the region, which the code does not check |
| `FirstFitLaws.AllocAtPastEnd` | src/libk/src/firstfit.cpp:84-107 | a concrete accepted request that runs past the end and makes the free counter wrap |
| `FirstFitLaws.WrappedAllocAt` | src/libk/src/firstfit.cpp:90-107 | every length that makes the end wrap is accepted, marks nothing, and leaves both counters wrong |
| `FirstFitLaws.FreeSoundIff` | src/libk/src/firstfit.cpp:110-126 | freeing keeps the state sound exactly when every page freed was in use |
| `FirstFitLaws.DoubleFree` | src/libk/src/firstfit.cpp:110-126 | a concrete second free that makes the used counter wrap |
| `FirstFitLaws.AllocThenFree` | src/libk/src/firstfit.cpp:61-126 | freeing what was allocated restores map and counters, and the same request then gets the same address |
| `FirstFitLaws.AllocAtThenFree` | src/libk/src/firstfit.cpp:82-126 | the same for a request at an address |
| `PmmModel.StepSafeIff` | src/libk/src/pmm.cpp:128-200 | from a safe state one request leaves a safe state exactly when the caller kept its obligations (range inside the region, freed pages live; a range that wraps around meets neither) |
| `PmmModel.WrappedRequest` | src/libk/src/pmm.cpp:158-162 | in every safe state a request for 2^64 - 1 pages from page 20 on reports success, marks nothing and corrupts the counters |
| `PmmModel.RunSafeIff` | src/libk/src/pmm.cpp:128-200 | every state of a run of any requests is safe exactly when each request was legal when made; safe: live blocks disjoint, each in its region, the two maps mark just them and the reserved pages, counters agree |
| `PmmModel.FreeUnowned` | src/libk/src/pmm.cpp:164-200 | giving back a page that no live block owns makes the state unsafe |
| `PmmModel.GrantOwned` | src/libk/src/pmm.cpp:134-162 | after a grant exactly the granted pages are owned besides those owned before |
| `PmmModel.ReleaseOwned` | src/libk/src/pmm.cpp:183-200 | after a release of any range exactly its pages are no longer owned, blocks being cut where it lies inside them |
| `PmmModel.Conservation` | src/libk/src/pmm.cpp:116-126 | over any legal run, used plus free pages of both regions stay the number of pages of the memory |
| `PmmModel.BlocksShareNoByte` | src/libk/src/pmm.cpp:128-162 | two live blocks, in either region, have no address in common |
| `PmmModel.RoutesBack` | src/libk/src/pmm.cpp:183-200 | an address of a region is routed to the allocator of that region, and to the same page |
| `PmmModel.AllocThenFreeIsNothing` | src/libk/src/pmm.cpp:134-200 | an address handed out is routed back to the allocator it came from, giving it back is legal, and restores the whole system |
| `Pmm.PhysicalMemory.constructor` | src/libk/src/pmm.cpp:48-72 | both allocators cover their part of the memory and are empty |
| `Pmm.PhysicalMemory.AllocPages` | src/libk/src/pmm.cpp:128-138 | the new state is the step of the request on the second region, the address that of its allocator |
| `Pmm.PhysicalMemory.AllocPagesKernel` | src/libk/src/pmm.cpp:146-156 | the same in kernel space |
| `Pmm.PhysicalMemory.AllocPagesAt` | src/libk/src/pmm.cpp:140-144 | the same for a request at an address |
| `Pmm.PhysicalMemory.AllocPagesKernelAt` | src/libk/src/pmm.cpp:158-162 | the same for a request at an address in kernel space |
| `Pmm.PhysicalMemory.FreePages` | src/libk/src/pmm.cpp:164-200 | the new state is the step of the free, routed by address; other addresses change nothing |
| `Pmm.PhysicalMemory.UsedPagesCount` | src/libk/src/pmm.cpp:116-120 | the sum of the used counters modulo 2^64, which in a safe state is the number of marked pages of both maps |
| `Pmm.PhysicalMemory.FreePagesCount` | src/libk/src/pmm.cpp:122-126 | the sum of the free counters modulo 2^64, which in a safe state is all pages less the marked ones |
| `Pmm.MoveBootInfo` | src/libk/src/pmm.cpp:9-27 | allocates whole pages, leaves exactly what a forward copy leaves in memory, and re-reads the block there |
| `Pmm.SetUp` | src/libk/src/pmm.cpp:48-77 | the state with just the kernel image set aside |
| `Pmm.InitFrom` | src/libk/src/pmm.cpp:48-82 | the state, the new address and the contents of memory once the length is known |
| `Pmm.Init` | src/libk/src/pmm.cpp:36-89 | fails exactly when no memory is detected, changing nothing; otherwise the state, address and memory contents are determined |
| `PmmLaws.MapSufficesIff` | src/libk/src/pmm.cpp:58-72 | every page of the second region has a word in the fixed map exactly when the memory is at least 8 MB and below the limit, which start-up does not check |
| `PmmLaws.TooMuchMemory` | src/libk/src/pmm.cpp:58-72 | with 256 MB the second region has 63488 pages, the 32769th of which would need word 512 of the 512 |
| `PmmLaws.TooLittleMemory` | src/libk/src/pmm.cpp:58-72 | with 4 MB the length of the second region wraps around |
| `PmmLaws.FoundBehindImage` | src/libk/src/pmm.cpp:74-80 | in a map with a marked start, a search answers the page behind it exactly when there is room |
| `PmmLaws.BootSafeIff` | src/libk/src/pmm.cpp:74-82 | start-up leaves a safe state exactly when the kernel image fits into kernel space |
| `PmmLaws.BootedRunSafeIff` | src/libk/src/pmm.cpp:36-200 | from start-up on, every state of every run is safe exactly when the image fits and each request was legal when made |
| `PmmLaws.InfoAddress` | src/libk/src/pmm.cpp:17-18 | the boot information moves to the page right behind the kernel image |
| `PmmLaws.InfoPlacedIff` | src/libk/src/pmm.cpp:17-25 | the repeated checks accept the new address exactly when image and block fit into kernel space; otherwise it is 0 |
| `PmmLaws.MovedBytesIff` | src/libk/src/pmm.cpp:12-21 | the moved block has the same bytes exactly when it repeats with the period by which it overlaps its new place from below |
| `PmmLaws.NoOverlapFromBelow` | src/libk/src/pmm.cpp:12-21 | which a block does that ends before its new place, or does not start before it |
| `PmmLaws.InfoSurvives` | src/libk/src/pmm.cpp:17-25 | a block that does not itself reach into its new place from below passes every check again there, has the same size and reports the same memory |
| `PmmLaws.StartIsSafe` | src/libk/src/pmm.cpp:36-89 | the three together for the state, address and memory that start-up leaves |
| `PmmLaws.StartAccepted` | src/libk/src/pmm.cpp:36-89 | start-up on an accepted block fails exactly when it reports no memory, else leaves a started system |
| `PmmLaws.StartMemory` | src/kernel/kernel_main.cpp:68-81 | the start sequence fails exactly when the block is refused or reports no memory; otherwise memory is safe and the block in place is accepted and reports the managed length |
| `Alignment.AlignIsMasking` | src/libk/include/common.h:73-83 | adding and masking on 64-bit words is, for every word, the round-up used throughout the model, modulo 2^64 |
| `Alignment.AlignFitsIff` | src/libk/include/common.h:73-83 | the result is the least multiple at or above the word exactly when that multiple fits, and 0 otherwise |
| `Alignment.StrideIsMasking` | src/libk/include/common.h:73-77 | the same for the 32-bit step of the tag walk |
| `Bits.MaskedBits` | src/libk/include/common.h:73-83 | masking clears the low bits and keeps the others |
| `Multiboot2.BootInfo.constructor` | src/libk/src/multiboot2.cpp:151-160 | the variables of the namespace before initialization |
| `Multiboot2.BootInfo.Multiboot2Init` | src/libk/src/multiboot2.cpp:19-72 | accepts exactly magic 0x36d76289 with an address that is a multiple of 8 from 1 MB to 16 MB and a size from 8 to 65536; the size read byte by byte is the little-endian number |
| `Multiboot2.AddressAcceptedIff` | src/libk/src/multiboot2.cpp:26-49 | accepted are the magic number 0x36d76289 with the addresses `0x100000 + 8 * k` for `k` up to 0x1E0000, and nothing else |
| `Multiboot2.BootInfo.Init` | src/libk/src/multiboot2.cpp:162-170 | the same answer, and marks the information as initialized even when refused |
| `Multiboot2.OneEntryLess` | src/libk/src/multiboot2.cpp:121-131 | counting entries by division beforehand admits the same entries as checking each against the end |
| `Multiboot2.BootInfo.SumAvailable` | src/libk/src/multiboot2.cpp:117-144 | the loop over the map leaves the sum, modulo 2^64, of the lengths of the available entries that fit the tag |
| `Multiboot2.BootInfo.DetectMemory` | src/libk/src/multiboot2.cpp:87-149 | when the callback stops the walk, and the resource it leaves, for every tag |
| `Multiboot2.BootInfo.GetMemory` | src/libk/src/multiboot2.cpp:74-86 | the walk visits the specified tags in order and leaves the specified resource |
| `Multiboot2.NoStrideIff` | src/libk/src/multiboot2.cpp:79-80 | the step to the next tag is zero exactly for size 0 and for sizes whose 32-bit rounding wraps to 0 |
| `Multiboot2.StuckForever` | src/libk/src/multiboot2.cpp:79-84 | from a tag that neither stops the walk nor moves it on, the walk never ends |
| `Multiboot2.WalkableIff` | src/libk/src/multiboot2.cpp:74-86 | the walk stops within `n` steps exactly when it ends at all, as one look at each tag tells, and needs no more than `n` |
| `Multiboot2.WalkEndsIff` | src/libk/src/multiboot2.cpp:74-86 | the walk ends exactly when it neither leaves the block nor gets stuck |
| `Multiboot2.StuckBytes` | src/libk/src/multiboot2.cpp:79-84 | eight bytes on which it never ends |
| `Multiboot2.WalkRelocates` | src/libk/src/multiboot2.cpp:74-86 | a walk inside a block gives the same result on every copy of the block, anywhere |
| `Multiboot2Encoding.TagRead` | src/libk/src/multiboot2.cpp:87-149 | an encoded tag of any kind, refused maps included, is read with its own type and size, stops the walk exactly when its map is accepted, leaves the resource it should, and the step leads to the next |
| `Multiboot2Encoding.EntriesRead` | src/libk/src/multiboot2.cpp:117-144 | the sum over an encoded map is the sum over its entries, for every entry size of at least 24 and whatever is left behind them |
| `Multiboot2Encoding.EncodingLaidOut` | src/libk/src/multiboot2.cpp:79-80 | in the encoding of a tag list each tag lies where the walk from the one before arrives |
| `Multiboot2Encoding.LayoutWalked` | src/libk/src/multiboot2.cpp:74-149 | the walk over such a list ends and reports the memory of its first accepted map, or what the tags without one leave |
| `Multiboot2Encoding.WalkReadsEncoding` | src/libk/src/multiboot2.cpp:74-149 | the walk over the encoding of any list of tags ends, visits exactly the tags up to the first accepted map in order, and reports the sum of the lengths of its entries of type 1; refused maps reset the resource and are passed over |
| `Multiboot2Encoding.SumOfFitting` | src/libk/src/multiboot2.cpp:117-144 | whatever the entry size, the sum is that of the first `n` entries where `n` is the most that lie before the end, both in the size the tag gives and in their own of 24 bytes |
| `Multiboot2Encoding.FourBytes` | src/libk/src/multiboot2.cpp:53-58 | a 32-bit number in memory, byte by byte |
| `Multiboot2Encoding.EightBytes` | src/libk/src/multiboot2.cpp:132-141 | a 64-bit number is two 32-bit ones, the low one first |
| `Multiboot2Encoding.RawMapRead` | src/libk/src/multiboot2.cpp:74-149 | a map given as raw bytes, with entries of type 1, 2 and 1, stops the walk and is reported as 0x7F9F000 available bytes |
| `Multiboot2Encoding.RawEndRead` | src/libk/src/multiboot2.cpp:79-80 | a tag of type 0 closes the list |
| `Paging.BuildTables` | src/platform/x86_64/boot/boot.S:171-199 | on zero-filled tables the stores build the tables; memory is otherwise unchanged |
| `Paging.Link` | src/platform/x86_64/boot/boot.S:173-186 | one store puts the link of one level in place and changes nothing else |
| `Paging.FillLast` | src/platform/x86_64/boot/boot.S:187-196 | the counted loop writes the 512 entries of the last table and nothing else |
| `Paging.AllStored` | src/platform/x86_64/boot/boot.S:171-196 | the cells written, with zeros elsewhere, are the complete tables |
| `Paging.WalkOfTables` | src/platform/x86_64/boot/boot.S:171-196 | a walk of the tables reaches a page exactly when the three upper indices are zero |
| `Paging.LowIdentityIff` | src/platform/x86_64/boot/boot.S:171-199 | the four-level walk maps every virtual address below 2 MB to itself, for writing too, and nothing else to anything |
| `ImageLaws.RouteIff` | src/libk/src/pmm.cpp:183-200 | an address is in kernel space exactly from 1 MB to 9 MB, in the second region exactly from there to 1 MB behind the length; the sizes of both in pages of 4096 bytes |
| `ImageLaws.PageBytes` | src/libk/src/firstfit.cpp:82-90 | page `i` of a region is the 4096 bytes behind the `i` pages before it |
| `ImageLaws.ImagePagesLeast` | src/libk/src/pmm.cpp:75-75 | the pages set aside for the image are the least number that reaches its end |
| `ImageLaws.SetAsideIff` | src/libk/src/pmm.cpp:74-77 | in a safe state the addresses set aside are exactly those up to the end of the reserved pages |
| `ImageLaws.ImageIsReserved` | src/libk/src/pmm.cpp:74-77 | after start-up every byte of the image lies in a page that is marked and set aside |
| `ImageLaws.InfoBehindImage` | src/libk/src/pmm.cpp:9-18 | the boot information goes to the first page boundary that is not inside the image |
| `ImageLaws.InfoIsReserved` | src/libk/src/pmm.cpp:9-27 | every byte of the boot information in its new place lies in such a page too |
| `ImageLaws.ImageNeverHandedOut` | src/libk/src/pmm.cpp:36-200 | after any legal run from start-up no live block holds a byte of the image or of the boot information |
| `ImageLaws.ImageUntouched` | src/libk/src/pmm.cpp:9-27 | moving the boot information changes no byte of the image |
| `MemoryCopy.MemCpy` | src/libc/src/string/string.c:230-237 | memory afterwards, for every overlap and length |
| `MemoryCopy.MemMove` | src/libc/src/string/string.c:251-267 | the target holds the old source bytes and every other byte is unchanged, for every overlap and length |
| `MemoryCopy.CopyIsMoveIff` | src/libc/src/string/string.c:230-267 | a forward copy moves the block exactly when the block repeats with the period of the overlap, which it does when the target does not start inside the source behind its first byte |
| `Strings.StrLen` | src/libc/src/string/string.c:37-43 | the distance to the first NUL |
| `Strings.ZeroByteFlagged` | src/libc/src/string/string.c:46-153 | every 64-bit word with a zero byte is flagged by the borrow trick |
| `Strings.Misfire` | src/libc/src/string/string.c:46-153 | a word without a zero byte that is flagged all the same |
| `Strings.UnflaggedWord` | src/libc/src/string/string.c:46-153 | a word that is not flagged holds no NUL |
| `Strings.NulInWord` | src/libc/src/string/string.c:46-153 | the byte tests after a flag give the first NUL of the word, or its end after a misfire |
| `Strings.StrNLen` | src/libc/src/string/string.c:46-153 | the word-at-a-time scan answers the smaller of the string length and the limit, for every memory, alignment and limit |
| `Strings.StrRev` | src/libc/src/string/string.c:269-280 | the string is reversed in place, the rest of memory unchanged |
| `Strings.ReverseIsInvolution` | src/libc/src/string/string.c:269-280 | reversing twice restores all of memory |
| `Strings.Append` | src/libc/src/string/string.c:202-206 | the character and a new end are written at the old end, nothing else |
| `Strings.Backspace` | src/libc/src/string/string.c:197-200 | a NUL is written one before the end, nothing else |
| `Strings.BackspaceUndoesAppend` | src/libc/src/string/string.c:197-206 | a backspace after an append restores the string, and memory but for the byte of the longer string's end |
| `Strings.BackspaceStaysInsideIff` | src/libc/src/string/string.c:197-200 | a backspace leaves everything in front of the string alone exactly when the string was not empty |
| `StringOrder.StrCmp` | src/libc/src/string/string.c:157-163 | the difference of the deciding characters as signed values |
| `StringOrder.StrNCmp` | src/libc/src/string/string.c:165-178 | the difference of the deciding characters as unsigned values, or 0 when they lie behind the limit |
| `StringOrder.Decided` | src/libc/src/string/string.c:157-178 | every two strings have a place where their comparison is decided |
| `StringOrder.EqualIff` | src/libc/src/string/string.c:157-163 | `strcmp` answers 0 exactly for equal strings |
| `StringOrder.OrdersAgreeIff` | src/libc/src/string/string.c:157-178 | `strcmp` and `strncmp`, with any limit, order two strings alike exactly when they are equal or the deciding characters lie within the limit and on the same side of 0x80 |
| `StringOrder.OrdersDiffer` | src/libc/src/string/string.c:157-178 | two strings that the two order differently |
| `StringOrder.OrderIsTransitive` | src/libc/src/string/string.c:157-163 | the order of `strcmp` is transitive, characters of 0x80 and above included |
| `StringCopy.MemSet` | src/libc/src/string/string.c:18-24 | the range holds the value, the rest is unchanged |
| `StringCopy.StrNCpy` | src/libc/src/string/string.c:189-195 | memory afterwards, for every overlap |
| `StringCopy.CopyIsPadded` | src/libc/src/string/string.c:189-195 | from a string outside the target, the target holds the string and zeros up to its end, and nothing else changes |
| `StringCopy.CopyIsStringIff` | src/libc/src/string/string.c:189-195 | the target holds a terminated string exactly when the source was shorter than the limit |
| `Digits.DigitsDenote` | src/libc/src/stdio/vsprintf.c:246-254 | the digits produced denote the number modulo `base^32` |
| `Digits.DigitsCut` | src/libc/src/stdio/vsprintf.c:246-254 | the loop produces all digits of the number, or 32 of them |
| `Digits.DigitCount` | src/libc/src/stdio/vsprintf.c:246-254 | a number below `base^n` gets at most `n` digits |
| `Digits.NoLeadingZero` | src/libc/src/stdio/vsprintf.c:246-254 | a positive number that fits has no leading zero |
| `NumberFormat.Layout` | src/libc/src/stdio/vsprintf.c:144-230 | without `#` a conversion is spaces, sign, zeros, digits, spaces, in the places the flags say |
| `NumberFormat.BufferContents` | src/libc/src/stdio/vsprintf.c:173-227 | the buffer holds digits, the zeros asked for that fit, and the sign if it fits, never more than 32 characters |
| `NumberFormat.LengthIff` | src/libc/src/stdio/vsprintf.c:144-258 | the length is `max(width, sign + max(precision, digits))` of the uncut number, precision ignored under `-`, exactly when sign, zeros and all digits fit the 32-character buffer or the width hides what does not |
| `NumberFormat.LongBinaryIsCut` | src/libc/src/stdio/vsprintf.c:253-253 | 2^40 in base 2 needs 41 digits and gets 32 |
| `NumberReading.ReadBack` | src/libc/src/stdio/vsprintf.c:144-258 | without `#` the text of a conversion reads back as the number modulo `base^32`, with its sign where the sign had room |
| `NumberReading.ReadBackIff` | src/libc/src/stdio/vsprintf.c:144-258 | it reads back as the signed number exactly when that is not negative or digits and zeros leave room for the sign |
| `HashLaws.PrefixKeepsIff` | src/libc/src/stdio/vsprintf.c:193-215 | the prefix leaves the digits alone exactly when it takes back only zeros |
| `HashLaws.HashKeepsDigitsIff` | src/libc/src/stdio/vsprintf.c:193-215 | with `#`, for every positive word, the digits of the buffer survive exactly when a precision is given, or digits and zeros do not just fill the width, or enough of what fills it are zeros |
| `HashLaws.HashLosesDigits` | src/libc/src/stdio/vsprintf.c:193-215 | `%#4x` of 0x1234 prints `0x34` |
| `HashLaws.ZeroHasNoPrefix` | src/libc/src/stdio/vsprintf.c:240-243 | with `#` a 0 is printed as without it |
| `HashLaws.HashPlain` | src/libc/src/stdio/vsprintf.c:193-215 | `%#x`, `%#X`, `%#o` and `%#b` of a positive number of up to 30 digits are the prefix `0x`, `0X`, `0` or `0b` and the digits |
| `Vsprintf.Sink.constructor` | src/libc/src/stdio/vsprintf.c:580-589 | nothing is written yet, with or without a buffer |
| `Vsprintf.Sink.Out` | src/libc/src/stdio/vsprintf.c:103-117 | a character is stored below the limit and dropped at or above it, or without a buffer |
| `Vsprintf.Sink.Terminate` | src/libc/src/stdio/vsprintf.c:920-921 | the buffer holds the start of the text and a NUL; without any room nothing is written |
| `Vsprintf.Sink.OutRev` | src/libc/src/stdio/vsprintf.c:145-170 | writes the buffer backwards with the spaces of the width |
| `Vsprintf.PadZeros` | src/libc/src/stdio/vsprintf.c:183-189 | the zeros that are wanted and fit |
| `Vsprintf.PushPrefix` | src/libc/src/stdio/vsprintf.c:193-215 | the buffer after the prefix was handled |
| `Vsprintf.PushSign` | src/libc/src/stdio/vsprintf.c:217-227 | the sign if it is wanted and fits |
| `Vsprintf.NtoaFormat` | src/libc/src/stdio/vsprintf.c:173-230 | writes the padded, prefixed and signed number |
| `Vsprintf.FillDigits` | src/libc/src/stdio/vsprintf.c:246-254 | the digit loop produces the specified digits and stays inside its buffer |
| `Vsprintf.NtoaLong` | src/libc/src/stdio/vsprintf.c:233-302 | the whole conversion writes exactly the specified text |
| `Vsprintf.StrNLenS` | src/libc/src/stdio/vsprintf.c:122-127 | the smaller of the length and the limit |
| `Vsprintf.ReadNumber` | src/libc/src/stdio/vsprintf.c:136-142 | the number in 32-bit arithmetic, and the place behind it |
| `Vsprintf.ReadFlags` | src/libc/src/stdio/vsprintf.c:604-637 | the flags and the place behind them |
| `Vsprintf.ReadWidth` | src/libc/src/stdio/vsprintf.c:639-654 | width, flags, place and arguments left; a negative `*` width sets `-` |
| `Vsprintf.ReadPrecision` | src/libc/src/stdio/vsprintf.c:656-669 | precision, flags, place and arguments left; a negative `*` precision counts as 0 but as given |
| `Vsprintf.ReadLength` | src/libc/src/stdio/vsprintf.c:671-708 | the length flags and the place behind them |
| `Vsprintf.SetUpInteger` | src/libc/src/stdio/vsprintf.c:719-747 | base and flags of an integer conversion |
| `Vsprintf.TakeInteger` | src/libc/src/stdio/vsprintf.c:749-806 | magnitude and sign of the argument in the type the length flags give |
| `Vsprintf.ConvertInteger` | src/libc/src/stdio/vsprintf.c:712-809 | the integer directive writes exactly its text |
| `Vsprintf.ConvertChar` | src/libc/src/stdio/vsprintf.c:837-855 | the same for `%c` |
| `Vsprintf.ConvertString` | src/libc/src/stdio/vsprintf.c:857-883 | the same for `%s` |
| `Vsprintf.ConvertOne` | src/libc/src/stdio/vsprintf.c:711-917 | the same for every specifier |
| `Vsprintf.OneDirective` | src/libc/src/stdio/vsprintf.c:604-917 | a whole directive writes exactly its text and leaves the specified place and arguments |
| `Vsprintf.OneTurn` | src/libc/src/stdio/vsprintf.c:591-917 | one turn of the loop keeps written text and rest of the format together the whole text |
| `Vsprintf.Vsnprintf` | src/libc/src/stdio/vsprintf.c:580-925 | for every format with matching arguments the buffer holds the first `maxlen - 1` characters of the full text and a NUL, nothing at or past the limit is written, and the answer is the full length whatever the limit and buffer |
| `PrintfLaws.TruncatedPrefix` | src/libc/include/stdio.h:32-42 | a limited buffer holds the start of the text closed by NUL and is unchanged behind it |
| `PrintfLaws.LargerLimitShowsMore` | src/libc/include/stdio.h:32-42 | what a smaller limit shows, a larger one shows too |
| `PrintfLaws.PlainText` | src/libc/src/stdio/vsprintf.c:591-598 | a format without `%` is its own text |
| `PrintfLaws.SignedReadsBackIff` | src/libc/src/stdio/vsprintf.c:749-806 | `%d` with any flags, width and precision reads back as its argument exactly when that is not negative or the conversion buffer has room for the sign |
| `PrintfLaws.SignLost` | src/libc/src/stdio/vsprintf.c:217-227 | minus five with a precision of 32 reads back as five |
| `PrintfLaws.AtoiReads` | src/libc/src/stdio/vsprintf.c:136-142 | a string of decimal digits is read as its number modulo 2^32 |
| `PrintfLaws.BareConversion` | src/libc/src/stdio/vsprintf.c:591-809 | a format of `%` and an integer specifier is the text of its argument |
| `PrintfLaws.UnsignedRoundTrip` | src/libc/src/stdio/vsprintf.c:136-258 | any 32-bit value printed with `%u` and read with `_atoi` is the same value |
| `PrintfLaws.AnswerIsLengthIff` | src/libc/src/stdio/vsprintf.c:923-924 | the answer, an `int`, is the length of the text exactly when that is below 2^31 |
| `PrintfLaws.NothingWritten` | src/libc/src/stdio/vsprintf.c:586-589 | without a buffer, or without any room, nothing is written |
| `Codes.AsciiCodes` | src/libc/src/stdio/vsprintf.c:591-918 | every character code of the model is that of its ASCII character |
| `Codes.DigitCodes` | src/libc/src/stdio/vsprintf.c:248-251 | the character of a digit is its entry in `0123456789abcdef`, or in `0123456789ABCDEF` for capitals |
| `StandardText.NumeralIsReversed` | src/libc/src/stdio/vsprintf.c:246-254 | the digits produced, turned around, are the number in positional notation |
| `StandardText.PrintsStandard` | src/libc/src/stdio/vsprintf.c:144-258 | where it fits, the text of a conversion is the one of section 7.21.6.1 of ISO C11: sign, zeros of the precision or of the `0` flag, digits, and spaces on the side of the `-` flag |
| `DirectiveLaws.FlagsRead` | src/libc/src/stdio/vsprintf.c:604-637 | the flag characters in any order and number are read as the set of the flags |
| `DirectiveLaws.ParseInvertsEncoding` | src/libc/src/stdio/vsprintf.c:604-708 | a directive written down from flags, width, precision, size and specifier, with stars, is read as just those parts and takes the arguments of the stars |
| `RenderLaws.DirectiveRendered` | src/libc/src/stdio/vsprintf.c:591-918 | anywhere in a format, a directive gives its text, and behind it comes the text of the rest with the arguments left |
| `RenderLaws.Alone` | src/libc/src/stdio/vsprintf.c:591-918 | a format that is one directive is the text of that directive |
| `FormatSpec.SignedInverts` | src/libc/src/stdio/vsprintf.c:750-780 | for every value of a signed type, the word it was passed as is taken as that value, whatever the bits above the type |
| `RenderLaws.SignedConversion` | src/libc/src/stdio/vsprintf.c:749-780 | `%d` and `%i` with any flags, width, precision and size print the text of ISO C11 for every value of the type, where that fits |
| `RenderLaws.UnsignedConversion` | src/libc/src/stdio/vsprintf.c:719-806 | `%u`, `%x`, `%X`, `%o`, `%b` print that text in base 10, 16, 16, 8, 2, without a sign |
| `RenderLaws.CharConversion` | src/libc/src/stdio/vsprintf.c:837-855 | `%c` prints the low byte of its argument, with the spaces of the width on the side of `-` |
| `RenderLaws.StringConversion` | src/libc/src/stdio/vsprintf.c:857-883 | `%s` prints its string or, with a precision, at most so many of its characters |
| `RenderLaws.PercentConversion` | src/libc/src/stdio/vsprintf.c:908-911 | `%%` prints a percent sign and takes no argument |
| `RenderLaws.OtherConversion` | src/libc/src/stdio/vsprintf.c:908-916 | any other character that ends a directive is printed as it is and takes no argument |
| `RenderLaws.PointerConversion` | src/libc/src/stdio/vsprintf.c:885-906 | `%p` prints 16 hexadecimal digits in capitals, filled up with zeros |
| `PlainTexts.BareSigned` | src/libc/src/stdio/vsprintf.c:591-809 | `%d`, `%ld`, `%hd` and so on, alone: for every value of the type its sign and digits |
| `PlainTexts.BareUnsigned` | src/libc/src/stdio/vsprintf.c:591-809 | `%u`, `%x`, `%X`, `%o` and their sizes, alone: the digits in base 10, 16, 16, 8 |
| `PlainTexts.DecimalReadsBack` | src/libc/src/stdio/vsprintf.c:591-809 | `%d` of every `int` and `%ld` of every `long`, alone, read back as the value |
| `PlainTexts.InCharacters` | src/libc/src/stdio/vsprintf.c:246-258 | minus five is `-5`, and 255 in base 16 is `ff` or `FF` |
| `Vga.Driver.constructor` | src/libk/src/vgaprint.cpp:15-17 | the initial cursor and colour |
| `Vga.Driver.Scroll` | src/libk/src/vgaprint.cpp:25-36 | the in-place loops shift the screen up by a row and blank the last |
| `Vga.Driver.PutChar` | src/libk/src/vgaprint.cpp:38-56 | the new memory and cursor |
| `Vga.Driver.Puts` | src/libk/src/vgaprint.cpp:58-62 | the characters up to the NUL one after the other |
| `Vga.Driver.Init` | src/libk/src/vgaprint.cpp:64-69 | blanks everywhere and the cursor at the start |
| `Vga.Driver.SetColor` | src/libk/src/vgaprint.cpp:71-74 | the colour and nothing else |
| `Vga.PutRefines` | src/libk/src/vgaprint.cpp:38-56 | one character keeps the screen on the end of the unbounded page |
| `Vga.PutInNumbers` | src/libk/src/vgaprint.cpp:19-56 | the effect of every byte on memory and cursor, with all numbers written out |
| `Vga.RunShowsPage` | src/libk/src/vgaprint.cpp:25-74 | after start-up and any run of characters and colour changes the screen is the last 25 rows of the page, with blanks in the colour of their creation |
| `Vga.PageIsText` | src/libk/src/vgaprint.cpp:38-69 | in one colour the page is the text with its lines filled up: no character lost, moved or doubled |
| `Vga.ScreenIsText` | src/libk/src/vgaprint.cpp:38-69 | every cell and the cursor of the screen, straight from the text |
| `Tui.Screen.constructor` | src/libk/src/tui.cpp:44-47 | white on black at the start of the screen |
| `Tui.Screen.SetColor` | src/libk/src/tui.cpp:52-54 | both colours, cut to four bits |
| `Tui.ColorReadsBackIff` | src/libk/src/tui.cpp:52-58 | the colour read is the foreground that was set exactly when the background has no bit of its own |
| `Bits.BitOrIsUnion` | src/libk/src/tui.cpp:56-58 | a bit of the colour read is set exactly when one of the two colours has it |
| `Tui.Screen.EscapeConv` | src/libk/src/tui.cpp:100-128 | the effect of newline, tab and backspace; other characters change nothing |
| `Tui.Screen.Scroll` | src/libk/src/tui.cpp:130-144 | the in-place loops shift the screen up when the row is past the end; the rest of the buffer is unchanged |
| `Tui.Screen.PutChar` | src/libk/src/tui.cpp:169-187 | the new buffer and cursor |
| `Tui.Screen.WriteAll` | src/libk/src/tui.cpp:198-203 | the characters one after the other |
| `Tui.Screen.Clear` | src/libk/src/tui.cpp:205-218 | a fresh page; the buffer behind the screen is unchanged |
| `Tui.PutKeepsPlace` | src/libk/src/tui.cpp:100-187 | with any characters, tabs included, the row stays on the screen and every cell written lies inside the text buffer |
| `Tui.PutIsInNumbers` | src/libk/src/tui.cpp:92-187 | the effect of every byte on buffer and cursor, with all numbers written out |
| `Tui.PutRefinesIff` | src/libk/src/tui.cpp:100-187 | one character keeps the screen on the end of the page exactly when it is not a tab in the last four columns |
| `Tui.TabLosesCharacter` | src/libk/src/tui.cpp:113-117 | after such a tab two characters land on one cell |
| `Tui.TabKeepsCharacter` | src/libk/src/tui.cpp:113-117 | the page, which goes on to the next row, keeps both |
| `Tui.RunShowsPage` | src/libk/src/tui.cpp:100-203 | a text with backspaces, and tabs left of the last four columns, is shown as the end of its page |
| `Tui.ShowsThroughoutIff` | src/libk/src/tui.cpp:100-203 | the screen shows the page after every character exactly when every tab of the text is typed left of the last four columns |
| `Tui.PutAgreesIff` | src/libk/src/tui.cpp:100-187 | after one character both drivers still agree exactly when it is ASCII and neither tab nor backspace, or a tab over one column that shows the sign the other driver writes |
| `Tui.RunsAgree` | src/libk/src/tui.cpp:100-203 | from agreeing screens any ASCII text without tab and backspace leaves both drivers with the same words, cursor and colour |
| `Tui.RunInParts` | src/libk/src/tui.cpp:198-203 | writing a text in two parts is writing it at once |
| `Printf.PrintF` | src/libk/src/io.cpp:121-132 | the screen shows the formatted text up to its first NUL and 511 characters, the buffer is clear again, the answer is the full length |
| `Printf.ShownWholeIff` | src/libk/src/io.cpp:125-128 | a text is shown whole exactly when it is shorter than 512 characters and holds no NUL |
| `Printf.ShownIs` | src/libk/src/io.cpp:125-128 | what is shown is the start of the text up to its first NUL, or its first 511 characters |
| `Printf.PrintsJoin` | src/libk/src/io.cpp:121-132 | two prints show what one print of both texts shows, if that fits |
| `Printf.PrintColored` | src/libk/src/io.cpp:134-174 | `info`, `warn` and `err` print in their colour and then set the colour they had read |
| `Printf.Info` | src/libk/src/io.cpp:134-146 | `info` prints in colour 3 |
| `Printf.Warn` | src/libk/src/io.cpp:148-160 | `warn` prints in colour 14 |
| `Printf.Err` | src/libk/src/io.cpp:162-174 | `err` prints in colour 12 |
| `Printf.ColoredShowsPage` | src/libk/src/io.cpp:134-174 | the text stands on the page in its colour on black: the screen shows the page it was typed on in that colour |
| `Printf.ColoredCharacter` | src/libk/src/io.cpp:134-174 | a single character stands in its cell in that colour on black, and no other cell changes |
| `Printf.ColorRestoredIff` | src/libk/src/io.cpp:134-174 | which restores the colour exactly when the background was black |
| `VgaNumbers.PushFront` | src/libk/src/vgaprint.cpp:112-116 | one character in front of the number, the rest of it unchanged |
| `VgaNumbers.FillDecimal` | src/libk/src/vgaprint.cpp:108-114 | the digit loop writes the digits of C division, never over the start of its buffer |
| `VgaNumbers.FillSigned` | src/libk/src/vgaprint.cpp:102-122 | `%d` and `%ld` leave sign and digits at the end of the 32-byte buffer, closed by NUL |
| `VgaNumbers.FillUnsigned` | src/libk/src/vgaprint.cpp:123-154 | `%u`, `%x`, `%lu` and `%lx` leave the very text the formatted printer writes for the same value |
| `VgaNumbers.PrintersAgreeIff` | src/libk/src/vgaprint.cpp:102-201 | the two printers write a signed number alike exactly when it is not the most negative one |
| `VgaNumbers.MostNegativeDiffers` | src/libk/src/vgaprint.cpp:102-201 | that one comes out with digits below the character zero |
| `Destructors.Runtime.constructor` | src/libcxx/src/cxxabi.cpp:55-56 | the empty table |
| `Destructors.Runtime.AtExit` | src/libcxx/src/cxxabi.cpp:115-124 | the entry is added behind the others, or refused without change when the table of 128 is full |
| `Destructors.RegisterIff` | src/libcxx/src/cxxabi.cpp:115-124 | the table takes 128 registrations and refuses every further one |
| `Destructors.Runtime.FinalizeAll` | src/libcxx/src/cxxabi.cpp:127-164 | the countdown calls the entries not yet unset, last registered first, and leaves the table alone |
| `Destructors.Runtime.FinalizeOne` | src/libcxx/src/cxxabi.cpp:166-209 | the countdown calls the entries of the function, last registered first, and unsets them |
| `Destructors.Runtime.Finalize` | src/libcxx/src/cxxabi.cpp:126-210 | calls and table afterwards, for a function and for null |
| `Destructors.SweepOrder` | src/libcxx/src/cxxabi.cpp:126-210 | a sweep makes one call for each slot it selects, and the call of a slot comes right after those of the later slots |
| `Destructors.CallsBalance` | src/libcxx/src/cxxabi.cpp:115-210 | throughout any run, the calls made and those still to come are those accepted and once more what each sweep over everything found |
| `Destructors.EachCalledOnceIff` | src/libcxx/src/cxxabi.cpp:115-210 | any run ended by a sweep calls every accepted registration exactly once, with its own object, exactly when each earlier sweep found nothing left |
| `Destructors.EachCalledOnce` | src/libcxx/src/cxxabi.cpp:115-210 | in particular a run without earlier sweeps does |
| `Destructors.UnsetMovesCalls` | src/libcxx/src/cxxabi.cpp:187-201 | unsetting moves exactly the called entries out of what is still to be called |
| `Destructors.SecondSweepRepeats` | src/libcxx/src/cxxabi.cpp:145-162 | a second sweep repeats the calls of the first, so it is harmless exactly when nothing was left to call |

## Left out

- Port and serial output, the CRT cursor registers, `TUI::get_pos`, MMIO accessors, interrupt and timer code: hardware effects with no state here.
- The format loop of `vga_printf` and its `%p`, `%c` and `%s`: only its number printers and `vga_puts` are modelled.
- `sprintf_`, which ignores its format, and `strcat`, which writes no terminator: there is no library contract to prove.
- `strcpy`, `strchr`, `memcmp`: single loops that would add only easy members.
- Floating-point conversions: compiled out.
- Tags of allocators, resource names and log messages.
- Whether the pages handed out are available memory: start-up uses only the summed length of the memory map, not its layout.
- 32-bit and RISC-V builds, with their other word size, division helpers and outputs.
- Formats that end inside a directive, and arguments of the wrong kind: undefined in the source, `Render` gives nothing there.
- `__cxa_atexit`, whose body is commented out and answers 0 without registering.
- IDT, GDT, header constants, linker scripts beyond the image's start address.
- Multiboot2.BootInfo.GetMemory: says nothing about the answer of a walk that does not end or leaves memory; `WalkEndsIff` says which walks those are.
- HashLaws.HashKeepsDigitsIff: is about the digits in the buffer; that base 2 has only 32 of them is stated by `DigitsCut`.
- StandardText.PrintsStandard: is one-sided, for texts that fit the conversion buffer; `LengthIff` and `ReadBackIff` say exactly what happens to others.
- DirectiveLaws.ParseInvertsEncoding: takes a negative `*` precision for a given 0, as the code does; ISO C11 would ignore it.
- RenderLaws.UnsignedConversion: leaves `#` to `HashLaws`.
- RenderLaws.PointerConversion: is about `%p` without flags, width and precision.
