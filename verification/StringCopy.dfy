/** `strncpy`, from the scan and the copy it is made of. */
module StringCopy {
  import opened Common
  import opened Strings
  import opened MemoryCopy

  function Zeroed(m: seq<bv8>, dest: nat, len: nat): (r: seq<bv8>)
    requires dest + len <= |m|
    ensures |r| == |m|
  {
    seq(|m|, k requires 0 <= k < |m| => if dest <= k < dest + len then 0 else m[k])
  }

  method MemSet(mem: array<bv8>, dest: nat, val: bv8, len: nat)
    requires dest + len <= mem.Length
    modifies mem
    ensures forall k | 0 <= k < mem.Length :: mem[k] == if dest <= k < dest + len then val else old(mem[k])
  {
    var ptr, left := dest, len;
    while left > 0
      invariant ptr + left == dest + len && dest <= ptr
      invariant forall k | 0 <= k < mem.Length :: mem[k] == if dest <= k < ptr then val else old(mem[k])
    {
      left := left - 1;
      mem[ptr] := val;
      ptr := ptr + 1;
    }
  }

  /** Length of the string at `a`, or `n` if there is no NUL in the first `n` bytes. */
  predicate LengthUpTo(m: seq<bv8>, a: nat, n: nat, len: nat) {
    len <= n && NoNul(m, a, a + len) && (len < n ==> EndsAt(m, a, a + len))
  }

  /** Memory after the copy: zeros behind the string first, then the string. */
  function Copied(m: seq<bv8>, dest: nat, src: nat, n: nat, len: nat): (r: seq<bv8>)
    requires dest + n <= |m| && src + len <= |m| && len <= n
    ensures |r| == |m|
  {
    CopiedForward(Zeroed(m, dest + len, n - len), dest, src, len)
  }

  method StrNCpy(mem: array<bv8>, dest: nat, src: nat, n: nat, ghost len: nat)
    requires mem.Length % 8 == 0 && mem.Length < SIZE_VALUES && n < SIZE_VALUES
    requires dest + n <= mem.Length && LengthUpTo(mem[..], src, n, len)
    modifies mem
    ensures mem[..] == Copied(old(mem[..]), dest, src, n, len)
  {
    ghost var was := mem[..];
    assert len == n ==> src + n <= mem.Length;
    assert len < n ==> EndsAt(was, src, src + len);
    var size := StrNLen(mem, src, n);
    LengthIsUnique(was, src, n, len, size);
    if size != n {
      MemSet(mem, dest + size, 0, n - size);
    }
    assert mem[..] == Zeroed(was, dest + len, n - len);
    MemCpy(mem, dest, src, size);
  }

  lemma LengthIsUnique(m: seq<bv8>, a: nat, n: nat, x: nat, y: nat)
    requires LengthUpTo(m, a, n, x) && LengthUpTo(m, a, n, y)
    ensures x == y
  {
  }

  /** From a string outside the target, the target gets the string and zeros up to its end, and nothing else changes. */
  lemma CopyIsPadded(m: seq<bv8>, dest: nat, src: nat, n: nat, len: nat)
    requires dest + n <= |m| && LengthUpTo(m, src, n, len)
    requires src + len <= dest || dest + n <= src
    ensures Copied(m, dest, src, n, len) == m[..dest] + m[src..src + len] + Zeros(n - len) + m[dest + n..]
  {
    var z := Zeroed(m, dest + len, n - len);
    CopyIsMoveIff(z, dest, src, len);
    ZeroedParts(m, dest, src, n, len);
  }

  lemma ZeroedParts(m: seq<bv8>, dest: nat, src: nat, n: nat, len: nat)
    requires dest + n <= |m| && len <= n && src + len <= |m| && (src + len <= dest || dest + n <= src)
    ensures var z := Zeroed(m, dest + len, n - len);
      z[..dest] == m[..dest] && z[src..src + len] == m[src..src + len]
      && z[dest + len..] == Zeros(n - len) + m[dest + n..]
  {
  }

  function Zeros(n: nat): (s: seq<bv8>)
    ensures |s| == n && forall k | 0 <= k < n :: s[k] == 0
  {
    seq(n, _ => 0)
  }

  ghost predicate HoldsString(m: seq<bv8>, a: nat, b: nat) {
    exists z: nat :: z < b && EndsAt(m, a, z)
  }

  /** The copy is a string, with the same characters, exactly when the source was shorter than the limit. */
  lemma CopyIsStringIff(m: seq<bv8>, dest: nat, src: nat, n: nat, len: nat)
    requires dest + n <= |m| && LengthUpTo(m, src, n, len)
    requires src + len <= dest || dest + n <= src
    ensures HoldsString(Copied(m, dest, src, n, len), dest, dest + n) <==> len < n
    ensures len < n ==> EndsAt(Copied(m, dest, src, n, len), dest, dest + len)
  {
    CopyIsPadded(m, dest, src, n, len);
    var r, s := Copied(m, dest, src, n, len), m[src..src + len];
    forall k | dest <= k < dest + len
      ensures r[k] != 0
    {
      assert r[k] == s[k - dest] == m[src + (k - dest)];
    }
    if len < n {
      assert r[dest + len] == 0;
      assert EndsAt(r, dest, dest + len);
    } else {
      assert NoNul(r, dest, dest + n);
    }
  }
}
