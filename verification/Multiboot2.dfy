/** The boot information block: its checks, the walk over its tags, and the memory map it carries.
    Layouts are those of sections 3.6.2 and 3.6.8 of the Multiboot2 Specification. */
module Multiboot2 {
  import opened Arithmetic
  import opened Common

  type Byte = x: int | 0 <= x < 256

  const BOOTLOADER_MAGIC: nat := 0x36d76289
  const TAG_TYPE_END: nat := 0
  const TAG_TYPE_MMAP: nat := 6
  const MEMORY_AVAILABLE: nat := 1
  const TAG_HEADER: nat := 8
  const MMAP_HEADER: nat := 16
  const MMAP_ENTRY: nat := 24

  /** The parts of `resource_t` that memory detection fills in. */
  datatype Resource = Resource(isMemory: bool, addr: nat, len: nat)

  const NO_RESOURCE := Resource(false, 0, 0)

  /** Number of values of `k` bytes. */
  function Values(k: nat): (v: nat)
    ensures v > 0
  {
    if k == 0 then 1 else 0x100 * Values(k - 1)
  }

  /** The number stored little-endian in `k` bytes from `a` on. */
  function LittleEndian(m: seq<Byte>, a: nat, k: nat): nat
    requires a + k <= |m|
    decreases |m| - a
  {
    if k == 0 then 0 else (m[a] as int) + 0x100 * LittleEndian(m, a + 1, k - 1)
  }

  lemma {:induction false} LittleEndianBound(m: seq<Byte>, a: nat, k: nat)
    requires a + k <= |m|
    ensures LittleEndian(m, a, k) < Values(k)
    decreases k
  {
    if k > 0 {
      LittleEndianBound(m, a + 1, k - 1);
    }
  }

  lemma {:induction false} ZeroBytes(m: seq<Byte>, a: nat, k: nat)
    requires a + k <= |m| && forall j | a <= j < a + k :: m[j] == 0
    ensures LittleEndian(m, a, k) == 0
    decreases k
  {
    if k > 0 {
      ZeroBytes(m, a + 1, k - 1);
    }
  }

  function Le32(m: seq<Byte>, a: nat): (r: nat)
    requires a + 4 <= |m|
    ensures r < UINT32_VALUES
  {
    LittleEndianBound(m, a, 4);
    LittleEndian(m, a, 4)
  }

  function Le64(m: seq<Byte>, a: nat): (r: nat)
    requires a + 8 <= |m|
    ensures r < SIZE_VALUES
  {
    LittleEndianBound(m, a, 8);
    assert Values(8) == 0x1_0000_0000 * Values(4);
    LittleEndian(m, a, 8)
  }

  predicate AddressAccepted(magic: nat, addr: nat) {
    magic == BOOTLOADER_MAGIC && addr % 8 == 0 && addr != 0 && 0x100000 <= addr <= 0x1000000
  }

  /** Written out: the one magic number, and every multiple of 8 from 1 MB up to 16 MB, nothing else. */
  lemma AddressAcceptedIff(magic: nat, addr: nat)
    ensures AddressAccepted(magic, addr)
      <==> magic == 0x36d76289 && exists k: nat :: k <= 0x1E_0000 && addr == 0x10_0000 + 8 * k
  {
    if AddressAccepted(magic, addr) {
      var k := (addr - 0x10_0000) / 8;
      assert k <= 0x1E_0000 && addr == 0x10_0000 + 8 * k;
    }
  }

  predicate SizeAccepted(size: nat) {
    8 <= size <= 65536
  }

  /** `ALIGN(tag->size, 8)`, a 32-bit result. */
  function Stride(size: nat): nat {
    Align(size, 8) % UINT32_VALUES
  }

  function NextTag(m: seq<Byte>, t: nat): nat
    requires t + TAG_HEADER <= |m|
  {
    t + Stride(Le32(m, t + 4))
  }

  /** Sum of the available entries from `p` on that fit before `end`, both in the size the tag gives and in their own. */
  function AvailableFrom(m: seq<Byte>, p: nat, entrySize: nat, end: nat): nat
    requires end <= |m| && entrySize > 0
    decreases end - p
  {
    if p + entrySize > end || p + MMAP_ENTRY > end then 0
    else
      (if Le32(m, p + 16) == MEMORY_AVAILABLE then Le64(m, p + 8) else 0)
      + AvailableFrom(m, p + entrySize, entrySize, end)
  }

  /** Counting entries beforehand by division admits the same ones as checking each against the end. */
  lemma OneEntryLess(room: nat, entrySize: nat)
    requires entrySize > 0
    ensures room / entrySize == 0 <==> room < entrySize
    ensures room >= entrySize ==> (room - entrySize) / entrySize == room / entrySize - 1
  {
    if room >= entrySize {
      UniqueRemainder(room, entrySize, (room - entrySize) / entrySize + 1, (room - entrySize) % entrySize);
    } else {
      UniqueRemainder(room, entrySize, 0, room);
    }
  }

  predicate IsMmap(m: seq<Byte>, t: nat)
    requires t + TAG_HEADER <= |m|
  {
    Le32(m, t) == TAG_TYPE_MMAP
  }

  /** The bytes of a tag that memory detection reads lie below `limit`. */
  predicate Readable(m: seq<Byte>, t: nat, limit: nat) {
    && limit <= |m| && t + TAG_HEADER <= limit
    && (IsMmap(m, t) ==> t + 12 <= limit && t + Le32(m, t + 4) <= limit)
  }

  /** Whether memory detection ends the walk at this tag. */
  predicate Accepts(m: seq<Byte>, t: nat)
    requires Readable(m, t, |m|)
  {
    IsMmap(m, t) && Le32(m, t + 8) != 0 && Le32(m, t + 4) >= MMAP_HEADER
  }

  /** What memory detection leaves in the resource after looking at one tag. */
  function Detect(m: seq<Byte>, t: nat, res: Resource): Resource
    requires Readable(m, t, |m|)
  {
    if !IsMmap(m, t) then res
    else if !Accepts(m, t) then Resource(true, 0, 0)
    else
      var size, entrySize := Le32(m, t + 4), Le32(m, t + 8);
      Resource(true, 0, Wrap(AvailableFrom(m, t + MMAP_HEADER, entrySize, t + size)))
  }

  /** The walk from tag `t` stays below `limit` and stops after at most `n` tags. */
  predicate Walkable(m: seq<Byte>, t: nat, limit: nat, n: nat)
    decreases n
  {
    limit <= |m| && t + TAG_HEADER <= limit &&
    (Le32(m, t) != TAG_TYPE_END ==>
      n > 0 && Readable(m, t, limit) && (Accepts(m, t) || Walkable(m, NextTag(m, t), limit, n - 1)))
  }

  function WalkResult(m: seq<Byte>, t: nat, n: nat, res: Resource): Resource
    requires Walkable(m, t, |m|, n)
    decreases n
  {
    if Le32(m, t) == TAG_TYPE_END then res
    else if Accepts(m, t) then Detect(m, t, res)
    else WalkResult(m, NextTag(m, t), n - 1, Detect(m, t, res))
  }

  /** Addresses of the tags the walk looks at, in order. */
  function Visited(m: seq<Byte>, t: nat, n: nat): seq<nat>
    requires Walkable(m, t, |m|, n)
    decreases n
  {
    if Le32(m, t) == TAG_TYPE_END then []
    else if Accepts(m, t) then [t]
    else [t] + Visited(m, NextTag(m, t), n - 1)
  }

  lemma WalkOn(m: seq<Byte>, t: nat, n: nat, next: nat, res: Resource)
    requires n > 0 && Readable(m, t, |m|) && Le32(m, t) != TAG_TYPE_END && !Accepts(m, t)
    requires next == NextTag(m, t) && Walkable(m, next, |m|, n - 1)
    ensures Walkable(m, t, |m|, n)
    ensures WalkResult(m, t, n, res) == WalkResult(m, next, n - 1, Detect(m, t, res))
    ensures Visited(m, t, n) == [t] + Visited(m, next, n - 1)
  {
  }

  lemma WalkStops(m: seq<Byte>, t: nat, n: nat, res: Resource)
    requires n > 0 && Readable(m, t, |m|) && Accepts(m, t)
    ensures Walkable(m, t, |m|, n)
    ensures WalkResult(m, t, n, res) == Detect(m, t, res)
    ensures Visited(m, t, n) == [t]
  {
  }

  /** The step to the next tag is no step at all exactly for size 0 and for sizes whose rounding wraps around to it. */
  lemma NoStrideIff(size: nat)
    requires size < UINT32_VALUES
    ensures Stride(size) == 0 <==> size == 0 || size > UINT32_VALUES - 8
  {
  }

  /** The walk never ends once it stands on such a tag, unless it ends right there. */
  lemma {:induction false} StuckForever(m: seq<Byte>, t: nat, limit: nat, n: nat)
    requires Readable(m, t, limit) && Le32(m, t) != TAG_TYPE_END && !Accepts(m, t)
    requires Stride(Le32(m, t + 4)) == 0
    ensures !Walkable(m, t, limit, n)
    decreases n
  {
    if n > 0 {
      StuckForever(m, t, limit, n - 1);
    }
  }

  /** How a walk that must stay below a limit turns out: it ends after a number of steps, leaves, or gets stuck. */
  datatype Fate = Ends(steps: nat) | Leaves | Stuck

  /** The fate of the walk from tag `t`, from one look at each tag. */
  function FateOf(m: seq<Byte>, t: nat, limit: nat): Fate
    decreases limit - t
  {
    if limit > |m| || t + TAG_HEADER > limit then Leaves
    else if Le32(m, t) == TAG_TYPE_END then Ends(0)
    else if !Readable(m, t, limit) then Leaves
    else if Accepts(m, t) then Ends(1)
    else if Stride(Le32(m, t + 4)) == 0 then Stuck
    else
      match FateOf(m, NextTag(m, t), limit)
      case Ends(n) => Ends(n + 1)
      case Leaves => Leaves
      case Stuck => Stuck
  }

  /** The walk stops within `n` steps exactly when it ends at all and needs no more than `n`. */
  lemma {:induction false} WalkableIff(m: seq<Byte>, t: nat, limit: nat, n: nat)
    ensures Walkable(m, t, limit, n) <==> FateOf(m, t, limit).Ends? && FateOf(m, t, limit).steps <= n
    decreases limit - t
  {
    if limit <= |m| && t + TAG_HEADER <= limit && Le32(m, t) != TAG_TYPE_END && Readable(m, t, limit) && !Accepts(m, t) {
      if Stride(Le32(m, t + 4)) == 0 {
        StuckForever(m, t, limit, n);
      } else if n > 0 {
        WalkableIff(m, NextTag(m, t), limit, n - 1);
      }
    }
  }

  /** The walk ends exactly when it neither leaves nor gets stuck. */
  lemma WalkEndsIff(m: seq<Byte>, t: nat, limit: nat)
    ensures (exists n: nat :: Walkable(m, t, limit, n)) <==> FateOf(m, t, limit).Ends?
  {
    if FateOf(m, t, limit).Ends? {
      WalkableIff(m, t, limit, FateOf(m, t, limit).steps);
    }
    forall n: nat | Walkable(m, t, limit, n)
      ensures FateOf(m, t, limit).Ends?
    {
      WalkableIff(m, t, limit, n);
    }
  }

  /** Eight bytes on which the walk never ends: a tag of type 1 and size 0. */
  lemma StuckBytes(m: seq<Byte>)
    requires m == [1, 0, 0, 0, 0, 0, 0, 0]
    ensures FateOf(m, 0, 8) == Stuck && forall n: nat :: !Walkable(m, 0, 8, n)
  {
    ZeroBytes(m, 1, 3);
    ZeroBytes(m, 4, 4);
    assert Le32(m, 0) == 1 && Le32(m, 4) == 0;
    WalkEndsIff(m, 0, 8);
  }

  /** Two blocks with the same bytes are walked alike. */
  predicate SameBytes(m1: seq<Byte>, a1: nat, m2: seq<Byte>, a2: nat, size: nat) {
    a1 + size <= |m1| && a2 + size <= |m2| && m1[a1..a1 + size] == m2[a2..a2 + size]
  }

  lemma {:induction false} SameNumber(m1: seq<Byte>, a1: nat, m2: seq<Byte>, a2: nat, size: nat, t: nat, k: nat)
    requires SameBytes(m1, a1, m2, a2, size) && t + k <= size
    ensures LittleEndian(m1, a1 + t, k) == LittleEndian(m2, a2 + t, k)
    decreases k
  {
    if k > 0 {
      assert m1[a1 + t] == m1[a1..a1 + size][t] == m2[a2..a2 + size][t] == m2[a2 + t];
      SameNumber(m1, a1, m2, a2, size, t + 1, k - 1);
      assert a1 + t + 1 == a1 + (t + 1) && a2 + t + 1 == a2 + (t + 1);
    }
  }

  lemma SameWord(m1: seq<Byte>, a1: nat, m2: seq<Byte>, a2: nat, size: nat, t: nat)
    requires SameBytes(m1, a1, m2, a2, size) && t + 4 <= size
    ensures Le32(m1, a1 + t) == Le32(m2, a2 + t)
  {
    SameNumber(m1, a1, m2, a2, size, t, 4);
  }

  lemma SameLong(m1: seq<Byte>, a1: nat, m2: seq<Byte>, a2: nat, size: nat, t: nat)
    requires SameBytes(m1, a1, m2, a2, size) && t + 8 <= size
    ensures Le64(m1, a1 + t) == Le64(m2, a2 + t)
  {
    SameNumber(m1, a1, m2, a2, size, t, 8);
  }

  lemma {:induction false} SameAvailable(m1: seq<Byte>, a1: nat, m2: seq<Byte>, a2: nat, size: nat,
                                         p: nat, entrySize: nat, end: nat)
    requires SameBytes(m1, a1, m2, a2, size) && end <= size && entrySize > 0
    ensures AvailableFrom(m1, a1 + p, entrySize, a1 + end) == AvailableFrom(m2, a2 + p, entrySize, a2 + end)
    decreases end - p
  {
    if p + entrySize <= end && p + MMAP_ENTRY <= end {
      SameLong(m1, a1, m2, a2, size, p + 8);
      SameWord(m1, a1, m2, a2, size, p + 16);
      SameAvailable(m1, a1, m2, a2, size, p + entrySize, entrySize, end);
      assert a1 + p + entrySize == a1 + (p + entrySize);
      assert a2 + p + entrySize == a2 + (p + entrySize);
    }
  }

  lemma SameKind(m1: seq<Byte>, a1: nat, m2: seq<Byte>, a2: nat, size: nat, t: nat)
    requires SameBytes(m1, a1, m2, a2, size) && Readable(m1, a1 + t, a1 + size)
    ensures Readable(m2, a2 + t, a2 + size)
    ensures Accepts(m1, a1 + t) == Accepts(m2, a2 + t)
  {
    SameWord(m1, a1, m2, a2, size, t);
    SameWord(m1, a1, m2, a2, size, t + 4);
    if IsMmap(m1, a1 + t) {
      SameWord(m1, a1, m2, a2, size, t + 8);
    }
  }

  lemma SameDetect(m1: seq<Byte>, a1: nat, m2: seq<Byte>, a2: nat, size: nat, t: nat, res: Resource)
    requires SameBytes(m1, a1, m2, a2, size)
    requires Readable(m1, a1 + t, a1 + size) && Readable(m2, a2 + t, a2 + size)
    ensures Detect(m1, a1 + t, res) == Detect(m2, a2 + t, res)
  {
    SameKind(m1, a1, m2, a2, size, t);
    SameWord(m1, a1, m2, a2, size, t);
    if Accepts(m1, a1 + t) {
      SameWord(m1, a1, m2, a2, size, t + 4);
      SameWord(m1, a1, m2, a2, size, t + 8);
      var s, e := Le32(m1, a1 + t + 4), Le32(m1, a1 + t + 8);
      SameAvailable(m1, a1, m2, a2, size, t + MMAP_HEADER, e, t + s);
    }
  }

  lemma SameNext(m1: seq<Byte>, a1: nat, m2: seq<Byte>, a2: nat, size: nat, t: nat)
    requires SameBytes(m1, a1, m2, a2, size) && t + TAG_HEADER <= size
    ensures NextTag(m1, a1 + t) - a1 == NextTag(m2, a2 + t) - a2 >= 0
  {
    SameWord(m1, a1, m2, a2, size, t + 4);
  }

  /** A walk that stays inside a block gives the same answer on every copy of the block. */
  lemma {:induction false} WalkRelocates(m1: seq<Byte>, a1: nat, m2: seq<Byte>, a2: nat, size: nat,
                                         t: nat, n: nat, res: Resource)
    requires SameBytes(m1, a1, m2, a2, size)
    requires Walkable(m1, a1 + t, a1 + size, n)
    ensures Walkable(m1, a1 + t, |m1|, n)
    ensures Walkable(m2, a2 + t, a2 + size, n) && Walkable(m2, a2 + t, |m2|, n)
    ensures WalkResult(m2, a2 + t, n, res) == WalkResult(m1, a1 + t, n, res)
    decreases n
  {
    SameWord(m1, a1, m2, a2, size, t);
    if Le32(m1, a1 + t) != TAG_TYPE_END {
      SameKind(m1, a1, m2, a2, size, t);
      SameDetect(m1, a1, m2, a2, size, t, res);
      SameNext(m1, a1, m2, a2, size, t);
      if !Accepts(m1, a1 + t) {
        WalkRelocates(m1, a1, m2, a2, size, NextTag(m1, a1 + t) - a1, n - 1, Detect(m1, a1 + t, res));
      }
    }
  }

  class BootInfo {
    /** Physical memory, addressed by byte. */
    const mem: array<Byte>
    var addr: nat
    var size: nat
    var magic: nat
    var inited: bool

    constructor (mem: array<Byte>, addr: nat, magic: nat)
      ensures this.mem == mem && this.addr == addr && this.magic == magic && !inited && size == 0
    {
      this.mem := mem;
      this.addr, this.magic := addr, magic;
      size, inited := 0, false;
    }

    method Multiboot2Init() returns (ok: bool)
      requires AddressAccepted(magic, addr) ==> addr + 4 <= mem.Length
      modifies this`size
      ensures ok == (AddressAccepted(magic, addr) && SizeAccepted(Le32(mem[..], addr)))
      ensures ok <==> magic == 0x36d76289 && addr % 8 == 0 && 0x10_0000 <= addr <= 0x100_0000
                      && 8 <= Le32(mem[..], addr) <= 0x1_0000
      ensures size == if AddressAccepted(magic, addr) then Le32(mem[..], addr) else old(size)
    {
      if magic != BOOTLOADER_MAGIC {
        return false;
      }
      if addr % 8 != 0 {
        return false;
      }
      if addr == 0 {
        return false;
      }
      if addr < 0x100000 || addr > 0x1000000 {
        return false;
      }
      var s, weight := 0, 1;
      for i := 0 to 4
        invariant weight == Values(i)
        invariant s + weight * LittleEndian(mem[..], addr + i, 4 - i) == Le32(mem[..], addr)
      {
        // or-ing a byte shifted past the earlier ones in is adding it
        s := s + weight * mem[addr + i] as int;
        weight := weight * 0x100;
      }
      size := s;
      if size < 8 || size > 65536 {
        return false;
      }
      return true;
    }

    method Init() returns (ok: bool)
      requires AddressAccepted(magic, addr) ==> addr + 4 <= mem.Length
      modifies this`size, this`inited
      ensures ok == (AddressAccepted(magic, addr) && SizeAccepted(Le32(mem[..], addr)))
      ensures size == if AddressAccepted(magic, addr) then Le32(mem[..], addr) else old(size)
      ensures inited
    {
      ok := Multiboot2Init();
      if !inited {
        inited := true;
      }
    }

    /** The loop over the memory map entries. */
    method SumAvailable(first: nat, entrySize: nat, end: nat) returns (len: nat)
      requires first <= end <= mem.Length && entrySize > 0
      ensures len == Wrap(AvailableFrom(mem[..], first, entrySize, end))
    {
      len := 0;
      var p := first;
      var count := (end - p) / entrySize;
      ghost var sum := 0;
      var i := 0;
      while i < count
        invariant 0 <= i <= count && 0 <= p <= end && (end - p) / entrySize == count - i
        invariant len == Wrap(sum)
        invariant sum + AvailableFrom(mem[..], p, entrySize, end) == AvailableFrom(mem[..], first, entrySize, end)
      {
        OneEntryLess(end - p, entrySize);
        if p + MMAP_ENTRY > end {
          break;
        }
        if Le64(mem[..], p + 8) == 0 {
          p := p + entrySize;
          i := i + 1;
          continue;
        }
        if Le32(mem[..], p + 16) == MEMORY_AVAILABLE {
          len := Wrap(len + Le64(mem[..], p + 8));
          WrapAdd(sum, Le64(mem[..], p + 8));
          sum := sum + Le64(mem[..], p + 8);
        }
        p := p + entrySize;
        i := i + 1;
      }
      OneEntryLess(end - p, entrySize);
    }

    /** The callback of the walk: whether to stop, and the resource it leaves. */
    method DetectMemory(t: nat, res: Resource) returns (stop: bool, r: Resource)
      requires Readable(mem[..], t, mem.Length)
      ensures stop == Accepts(mem[..], t) && r == Detect(mem[..], t, res)
    {
      if Le32(mem[..], t) != TAG_TYPE_MMAP {
        return false, res;
      }
      var tagSize := Le32(mem[..], t + 4);
      var entrySize := Le32(mem[..], t + 8);
      if entrySize == 0 || tagSize < MMAP_HEADER {
        return false, Resource(true, 0, 0);
      }
      var len := SumAvailable(t + MMAP_HEADER, entrySize, t + tagSize);
      return true, Resource(true, 0, len);
    }

    /** The walk over the tags, with memory detection as its callback. */
    method GetMemory(ghost n: nat) returns (r: Resource, ghost visited: seq<nat>)
      requires inited ==> Walkable(mem[..], addr + 8, mem.Length, n)
      ensures !inited ==> r == NO_RESOURCE && visited == []
      ensures inited ==> r == WalkResult(mem[..], addr + 8, n, NO_RESOURCE)
      ensures inited ==> visited == Visited(mem[..], addr + 8, n)
    {
      r, visited := NO_RESOURCE, [];
      if !inited {
        return;
      }
      var t: nat := addr + 8;
      ghost var left: nat := n;
      while Le32(mem[..], t) != TAG_TYPE_END
        invariant Walkable(mem[..], t, mem.Length, left)
        invariant WalkResult(mem[..], t, left, r) == WalkResult(mem[..], addr + 8, n, NO_RESOURCE)
        invariant visited + Visited(mem[..], t, left) == Visited(mem[..], addr + 8, n)
        decreases left
      {
        visited := visited + [t];
        var stop, r' := DetectMemory(t, r);
        r := r';
        if stop {
          return;
        }
        t := t + Stride(Le32(mem[..], t + 4));
        left := left - 1;
      }
    }
  }
}
