/** The page table of early start-up, and the four-level walk of section 4.5 of the Intel SDM, volume 3A. */
module Paging {
  import opened Common

  /** A 64-bit cell of physical memory. */
  type Quad = x: int | 0 <= x < SIZE_VALUES

  /** Size of a table, and of the pages of the last one. */
  const TABLE: nat := 0x1000
  const LARGE_2M: nat := 0x20_0000
  const LARGE_512G: nat := 0x80_0000_0000
  const LARGE_1G: nat := 0x4000_0000
  const CANONICAL: nat := 0x8000_0000_0000

  /** A 32-bit store keeps the upper half of the cell. */
  function WithLow(w: Quad, v: nat): Quad
    requires v < UINT32_VALUES
  {
    w - w % UINT32_VALUES + v
  }

  /** `or $3` on a multiple of four. */
  function Or3(x: nat): nat
    requires x % 4 == 0
  {
    x + 3
  }

  /** Entry `i` of a table, if it is present. */
  function Entry(m: seq<Quad>, table: nat, i: nat): Option<nat> {
    if table / 8 + i < |m| && m[table / 8 + i] % 2 == 1 then Some(m[table / 8 + i]) else None
  }

  /** The address bits of an entry, 12 to 51. */
  function Target(e: nat): nat {
    e / 0x1000 % 0x100_0000_0000 * 0x1000
  }

  predicate IsLarge(e: nat) {
    e / 0x80 % 2 == 1
  }

  function LargePage(e: nat, size: nat, va: nat): nat
    requires size > 0
  {
    Target(e) / size * size + va % size
  }

  /** Bit 1 of an entry allows writing. */
  predicate IsWritable(e: nat) {
    e % 4 >= 2
  }

  /** What a virtual address stands for: a physical one, and whether it may be written. */
  datatype Mapping = Mapping(pa: nat, writable: bool)

  function Translate(m: seq<Quad>, root: nat, va: nat): Option<Mapping> {
    if CANONICAL <= va < SIZE_VALUES - CANONICAL || va >= SIZE_VALUES then None
    else
      var e4 :- Entry(m, root, va / LARGE_512G % 512);
      var e3 :- Entry(m, Target(e4), va / LARGE_1G % 512);
      if IsLarge(e3) then Some(Mapping(LargePage(e3, LARGE_1G, va), IsWritable(e4) && IsWritable(e3)))
      else
        var e2 :- Entry(m, Target(e3), va / LARGE_2M % 512);
        if IsLarge(e2) then Some(Mapping(LargePage(e2, LARGE_2M, va), IsWritable(e4) && IsWritable(e3) && IsWritable(e2)))
        else
          var e1 :- Entry(m, Target(e2), va / TABLE % 512);
          Some(Mapping(Target(e1) + va % TABLE, IsWritable(e4) && IsWritable(e3) && IsWritable(e2) && IsWritable(e1)))
  }

  /** Four pages for the four tables, one behind the other, inside the first four gigabytes. */
  predicate Placed(m: seq<Quad>, base: nat) {
    base % TABLE == 0 && base + 4 * TABLE < UINT32_VALUES && base + 4 * TABLE <= 8 * |m|
  }

  /** What cell `k` of the four pages holds once the tables are built. */
  function TableCell(base: nat, k: nat): Quad
    requires base + 4 * TABLE < UINT32_VALUES && k < 2048
  {
    if k == 0 || k == 512 || k == 1024 then base + (k / 512 + 1) * TABLE + 3
    else if k >= 1536 then (k - 1536) * TABLE + 3
    else 0
  }

  /** Cell `k` of the four pages. */
  function Slot(m: seq<Quad>, base: nat, k: nat): Quad
    requires Placed(m, base) && k < 2048
  {
    m[base / 8 + k]
  }

  predicate Built(m: seq<Quad>, base: nat) {
    Placed(m, base) && forall k | 0 <= k < 2048 :: Slot(m, base, k) == TableCell(base, k)
  }

  lemma SlotOf(base: nat, level: nat, i: nat)
    requires base % TABLE == 0 && level < 4
    ensures (base + level * TABLE) / 8 + i == base / 8 + (level * 512 + i)
    ensures (base + level * TABLE + 8 * i) / 8 == base / 8 + (level * 512 + i)
  {
    var q := base / TABLE;
    assert base == TABLE * q;
  }

  lemma TableEntry(m: seq<Quad>, base: nat, level: nat, i: nat)
    requires Built(m, base) && level < 4 && i < 512
    ensures Entry(m, base + level * TABLE, i) == EntryOf(base, level, i)
  {
    SlotOf(base, level, i);
    CellOf(base, level, i);
    assert Slot(m, base, level * 512 + i) == TableCell(base, level * 512 + i);
  }

  /** Entry `i` of the table of a level: the last table maps its pages, the others have one link. */
  function EntryOf(base: nat, level: nat, i: nat): Option<nat> {
    if level == 3 then Some(i * TABLE + 3) else if i == 0 then Some(base + (level + 1) * TABLE + 3) else None
  }

  lemma CellOf(base: nat, level: nat, i: nat)
    requires base % TABLE == 0 && base + 4 * TABLE < UINT32_VALUES && level < 4 && i < 512
    ensures var c := TableCell(base, level * 512 + i); EntryOf(base, level, i) == if c % 2 == 1 then Some(c) else None
  {
    var k := level * 512 + i;
    assert k / 512 == level;
    var q := base / TABLE;
    assert base == TABLE * q;
    if level == 3 {
      assert TableCell(base, k) == i * TABLE + 3;
      Odd(i);
    } else if i == 0 {
      assert TableCell(base, k) == base + (level + 1) * TABLE + 3 == (q + level + 1) * TABLE + 3;
      Odd(q + level + 1);
    } else {
      assert TableCell(base, k) == 0;
    }
  }

  lemma Odd(q: nat)
    ensures (q * TABLE + 3) % 2 == 1
  {
    assert q * TABLE + 3 == 2 * (q * 0x800 + 1) + 1;
  }

  lemma TargetOf(a: nat)
    requires a % TABLE == 0 && a < UINT32_VALUES
    ensures Target(a + 3) == a && !IsLarge(a + 3)
  {
    var q := a / TABLE;
    assert a == TABLE * q;
    assert (a + 3) / 0x1000 == q;
    assert (a + 3) / 0x80 == 32 * q;
  }

  lemma WritableOf(a: nat)
    requires a % TABLE == 0
    ensures IsWritable(a + 3)
  {
    assert a % 4 == 0;
  }

  lemma NextTable(base: nat, level: nat)
    requires base % TABLE == 0 && base + 4 * TABLE < UINT32_VALUES && level < 3
    ensures Target(base + (level + 1) * TABLE + 3) == base + (level + 1) * TABLE
    ensures !IsLarge(base + (level + 1) * TABLE + 3) && IsWritable(base + (level + 1) * TABLE + 3)
  {
    TargetOf(base + (level + 1) * TABLE);
    WritableOf(base + (level + 1) * TABLE);
  }

  /** The walk maps every address below two megabytes to itself, for writing too, and nothing else to anything. */
  lemma LowIdentityIff(m: seq<Quad>, base: nat, va: nat, to: Mapping)
    requires Built(m, base)
    ensures Translate(m, base, va) == Some(to) <==> va < 0x20_0000 && to == Mapping(va, true)
  {
    if va < CANONICAL || SIZE_VALUES - CANONICAL <= va < SIZE_VALUES {
      NoIndexIff(va);
      WalkOfTables(m, base, va);
    }
  }

  /** What the walk does with the indices of a canonical address. */
  lemma WalkOfTables(m: seq<Quad>, base: nat, va: nat)
    requires Built(m, base) && (va < CANONICAL || SIZE_VALUES - CANONICAL <= va < SIZE_VALUES)
    ensures Translate(m, base, va)
         == if va / LARGE_512G % 512 == va / LARGE_1G % 512 == va / LARGE_2M % 512 == 0
            then Some(Mapping(va / TABLE % 512 * TABLE + va % TABLE, true)) else None
  {
    var i4, i3, i2, i1 := va / LARGE_512G % 512, va / LARGE_1G % 512, va / LARGE_2M % 512, va / TABLE % 512;
    TableEntry(m, base, 0, i4);
    if i4 == 0 {
      NextTable(base, 0);
      TableEntry(m, base, 1, i3);
      if i3 == 0 {
        NextTable(base, 1);
        TableEntry(m, base, 2, i2);
        if i2 == 0 {
          NextTable(base, 2);
          TableEntry(m, base, 3, i1);
          TargetOf(i1 * TABLE);
          WritableOf(i1 * TABLE);
        }
      }
    }
  }

  /** The three upper indices of a canonical address are zero exactly below two megabytes. */
  lemma NoIndexIff(va: nat)
    requires va < CANONICAL || SIZE_VALUES - CANONICAL <= va < SIZE_VALUES
    ensures va / LARGE_512G % 512 == va / LARGE_1G % 512 == va / LARGE_2M % 512 == 0 <==> va < LARGE_2M
    ensures va < LARGE_2M ==> va / TABLE % 512 * TABLE + va % TABLE == va
  {
  }

  /** Memory with the cells `done` of the four pages written. */
  ghost function After(m: seq<Quad>, base: nat, done: set<nat>): (r: seq<Quad>)
    requires Placed(m, base)
    ensures |r| == |m|
  {
    seq(|m|, j requires 0 <= j < |m| => CellAfter(m, base, done, j))
  }

  ghost function CellAfter(m: seq<Quad>, base: nat, done: set<nat>, j: nat): Quad
    requires Placed(m, base) && j < |m|
  {
    if base / 8 <= j < base / 8 + 2048 && j - base / 8 in done then TableCell(base, j - base / 8) else m[j]
  }

  ghost function Links(): set<nat> {
    {0, 512, 1024}
  }

  ghost function LastCells(n: nat): set<nat> {
    set k | 1536 <= k < 1536 + n && IsLast(k)
  }

  ghost predicate IsLast(k: nat) {
    k >= 1536
  }

  lemma StoreStep(m: seq<Quad>, base: nat, done: set<nat>, k: nat)
    requires Placed(m, base) && k < 2048
    ensures After(m, base, done)[base / 8 + k := TableCell(base, k)] == After(m, base, done + {k})
  {
  }

  /** On zero-filled tables the stores build them, and change nothing else. */
  lemma AllStored(m: seq<Quad>, base: nat)
    requires Placed(m, base) && forall k | 0 <= k < 2048 :: Slot(m, base, k) == 0
    ensures Built(After(m, base, Links() + LastCells(512)), base)
  {
    var r := After(m, base, Links() + LastCells(512));
    forall k | 0 <= k < 2048
      ensures Slot(r, base, k) == TableCell(base, k)
    {
      assert Slot(m, base, k) == 0;
    }
  }

  /** The stores of `_start`; registers are 32 bits wide. */
  method BuildTables(mem: array<Quad>, base: nat) returns (cr3: nat)
    requires Placed(mem[..], base) && forall k | 0 <= k < 2048 :: Slot(mem[..], base, k) == 0
    modifies mem
    ensures cr3 == base && Built(mem[..], base)
    ensures mem[..] == After(old(mem[..]), base, Links() + LastCells(512))
  {
    ghost var was := mem[..];
    var pml4, pdpt, pd, pt := base, base + TABLE, base + 2 * TABLE, base + 3 * TABLE;
    assert After(was, base, {}) == was;
    Link(mem, was, base, 0, {}, pml4, pdpt);
    Link(mem, was, base, 1, {0}, pdpt, pd);
    Link(mem, was, base, 2, {0} + {512}, pd, pt);
    assert {0} + {512} + {1024} == Links();
    FillLast(mem, was, base, pt);
    AllStored(was, base);
    cr3 := pml4;
  }

  lemma LinkCell(base: nat, level: nat)
    requires base % TABLE == 0 && base + 4 * TABLE < UINT32_VALUES && level < 3
    ensures TableCell(base, level * 512) == base + (level + 1) * TABLE + 3 && (base + (level + 1) * TABLE) % 4 == 0
  {
    CellOf(base, level, 0);
  }

  /** The link from a table to the table of the next level. */
  method Link(mem: array<Quad>, ghost was: seq<Quad>, ghost base: nat, ghost level: nat, ghost done: set<nat>, table: nat, next: nat)
    requires Placed(was, base) && mem[..] == After(was, base, done)
    requires level < 3 && level * 512 !in done && Slot(was, base, level * 512) == 0
    requires table == base + level * TABLE && next == base + (level + 1) * TABLE
    modifies mem
    ensures mem[..] == After(was, base, done + {level * 512})
  {
    SlotOf(base, level, 0);
    StoreStep(was, base, done, level * 512);
    LinkCell(base, level);
    var eax, ebx := table, Or3(next);
    mem[eax / 8] := WithLow(mem[eax / 8], ebx);
  }

  /** `.fill_pt`. */
  method FillLast(mem: array<Quad>, ghost was: seq<Quad>, ghost base: nat, pt: nat)
    requires Placed(was, base) && mem[..] == After(was, base, Links()) && pt == base + 3 * TABLE
    requires forall k | 0 <= k < 2048 :: Slot(was, base, k) == 0
    modifies mem
    ensures mem[..] == After(was, base, Links() + LastCells(512))
  {
    var ecx, eax, ebx := 512, pt, 3;
    assert Links() + LastCells(0) == Links();
    while ecx != 0
      invariant 0 <= ecx <= 512 && eax == pt + 8 * (512 - ecx) && ebx == (512 - ecx) * TABLE + 3
      invariant mem[..] == After(was, base, Links() + LastCells(512 - ecx))
      decreases ecx
    {
      ghost var n: nat := 512 - ecx;
      SlotOf(base, 3, n);
      StoreStep(was, base, Links() + LastCells(n), 1536 + n);
      assert Links() + LastCells(n) + {1536 + n} == Links() + LastCells(n + 1);
      assert Slot(was, base, 1536 + n) == 0;
      mem[eax / 8] := WithLow(mem[eax / 8], ebx);
      ebx := ebx + TABLE;
      eax := eax + 8;
      ecx := ecx - 1;
    }
  }
}
