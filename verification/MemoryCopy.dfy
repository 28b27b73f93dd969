/** Copying inside one flat memory; addresses are indices into it. */
module MemoryCopy {
  import opened Arithmetic

  /** Memory `m` with the `len` items from `src` also at `dest`, as if they had been put aside first. */
  function Moved<T>(m: seq<T>, dest: nat, src: nat, len: nat): (r: seq<T>)
    requires dest + len <= |m| && src + len <= |m|
    ensures |r| == |m|
  {
    m[..dest] + m[src..src + len] + m[dest + len..]
  }

  /** Which source item a copy from low to high addresses puts at offset `i`:
      when it overwrites source items before reading them, the first `dest - src` items repeat. */
  function ForwardOffset(dest: nat, src: nat, len: nat, i: nat): (k: nat)
    requires i < len
    ensures k <= i
  {
    if src < dest < src + len then i % (dest - src) else i
  }

  function CopiedForward<T>(m: seq<T>, dest: nat, src: nat, len: nat): (r: seq<T>)
    requires dest + len <= |m| && src + len <= |m|
    ensures |r| == |m|
  {
    seq(|m|, k requires 0 <= k < |m| =>
      if dest <= k < dest + len then m[src + ForwardOffset(dest, src, len, k - dest)] else m[k])
  }

  /** The block at `src` repeats with the period by which the destination overlaps it. */
  predicate Periodic<T(==)>(m: seq<T>, dest: nat, src: nat, len: nat)
    requires src + len <= |m|
  {
    forall i: nat | i < len :: m[src + i] == m[src + ForwardOffset(dest, src, len, i)]
  }

  /** A copy from low to high moves the block exactly when the destination does not start inside the source behind its first item,
      or the block happens to be periodic. */
  lemma CopyIsMoveIff<T>(m: seq<T>, dest: nat, src: nat, len: nat)
    requires dest + len <= |m| && src + len <= |m|
    ensures CopiedForward(m, dest, src, len) == Moved(m, dest, src, len) <==> Periodic(m, dest, src, len)
    ensures !(src < dest < src + len) ==> Periodic(m, dest, src, len)
  {
    var c, v := CopiedForward(m, dest, src, len), Moved(m, dest, src, len);
    assert forall a | dest <= a < dest + len :: v[a] == m[a - dest + src];
    if Periodic(m, dest, src, len) {
      forall a | 0 <= a < |m|
        ensures c[a] == v[a]
      {
        if dest <= a < dest + len {
          assert ForwardOffset(dest, src, len, a - dest) <= a - dest;
        }
      }
    } else {
      var i: nat :| i < len && m[src + i] != m[src + ForwardOffset(dest, src, len, i)];
      assert c[dest + i] != v[dest + i];
    }
  }

  lemma BackOnePeriod(i: nat, d: nat)
    requires 0 < d <= i
    ensures (i - d) % d == i % d
  {
    var q, r := (i - d) / d, (i - d) % d;
    assert i - d == d * q + r;
    assert i == d * (q + 1) + r;
    UniqueRemainder(i, d, q + 1, r);
  }

  lemma ForwardCells<T>(was: seq<T>, now: seq<T>, dest: nat, src: nat, len: nat)
    requires dest + len <= |was| && src + len <= |was| && |now| == |was|
    requires forall a | dest <= a < dest + len :: now[a] == was[src + ForwardOffset(dest, src, len, a - dest)]
    requires forall a | 0 <= a < |was| && !(dest <= a < dest + len) :: now[a] == was[a]
    ensures now == CopiedForward(was, dest, src, len)
  {
  }

  lemma MovedCells<T>(was: seq<T>, now: seq<T>, dest: nat, src: nat, len: nat)
    requires dest + len <= |was| && src + len <= |was| && |now| == |was|
    requires forall a | dest <= a < dest + len :: now[a] == was[a - dest + src]
    requires forall a | 0 <= a < |was| && !(dest <= a < dest + len) :: now[a] == was[a]
    ensures now == Moved(was, dest, src, len)
  {
  }

  lemma SameOffset(dest: nat, src: nat, len: nat, i: nat)
    requires src < dest <= src + i && i < len
    ensures ForwardOffset(dest, src, len, src + i - dest) == ForwardOffset(dest, src, len, i)
  {
    BackOnePeriod(i, dest - src);
  }

  lemma FirstPeriod(dest: nat, src: nat, len: nat, i: nat)
    requires i < len && !(src < dest <= src + i)
    ensures ForwardOffset(dest, src, len, i) == i
  {
    if src < dest {
      UniqueRemainder(i, dest - src, 0, i);
    }
  }

  /** The source item that step `i` of a forward copy reads, overwritten or not. */
  lemma ForwardRead<T>(was: seq<T>, now: seq<T>, dest: nat, src: nat, len: nat, i: nat)
    requires dest + len <= |was| && src + len <= |was| && |now| == |was| && i < len
    requires forall a | dest <= a < dest + i :: now[a] == was[src + ForwardOffset(dest, src, len, a - dest)]
    requires forall a | 0 <= a < |was| && !(dest <= a < dest + i) :: now[a] == was[a]
    ensures now[src + i] == was[src + ForwardOffset(dest, src, len, i)]
  {
    if src < dest <= src + i {
      SameOffset(dest, src, len, i);
      assert now[src + i] == was[src + ForwardOffset(dest, src, len, src + i - dest)];
    } else {
      FirstPeriod(dest, src, len, i);
    }
  }

  method MemCpy<T>(mem: array<T>, dest: nat, src: nat, len: nat)
    requires dest + len <= mem.Length && src + len <= mem.Length
    modifies mem
    ensures mem[..] == CopiedForward(old(mem[..]), dest, src, len)
  {
    ghost var was := mem[..];
    var i := 0;
    while i < len
      invariant i <= len
      invariant forall a | dest <= a < dest + i :: mem[..][a] == was[src + ForwardOffset(dest, src, len, a - dest)]
      invariant forall a | 0 <= a < mem.Length && !(dest <= a < dest + i) :: mem[..][a] == was[a]
    {
      ForwardRead(was, mem[..], dest, src, len, i);
      ghost var before := mem[..];
      mem[dest + i] := mem[src + i];
      assert mem[..] == before[dest + i := before[src + i]];
      i := i + 1;
    }
    ForwardCells(was, mem[..], dest, src, len);
  }

  /** Low to high when the destination is below the source, high to low otherwise. */
  method MemMove<T>(mem: array<T>, dest: nat, src: nat, len: nat)
    requires dest + len <= mem.Length && src + len <= mem.Length
    modifies mem
    ensures mem[..] == Moved(old(mem[..]), dest, src, len)
  {
    ghost var was := mem[..];
    if dest < src {
      var i := 0;
      while i < len
        invariant 0 <= i <= len
        invariant forall a | dest <= a < dest + i :: mem[a] == was[a - dest + src]
        invariant forall a | 0 <= a < mem.Length && !(dest <= a < dest + i) :: mem[a] == was[a]
      {
        mem[dest + i] := mem[src + i];
        i := i + 1;
      }
    } else {
      var left := len;
      while left > 0
        invariant 0 <= left <= len
        invariant forall a | dest + left <= a < dest + len :: mem[a] == was[a - dest + src]
        invariant forall a | 0 <= a < mem.Length && !(dest + left <= a < dest + len) :: mem[a] == was[a]
      {
        left := left - 1;
        mem[dest + left] := mem[src + left];
      }
    }
    MovedCells(was, mem[..], dest, src, len);
  }
}
