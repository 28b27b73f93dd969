/** NUL-terminated strings in one flat memory of bytes; addresses are indices into it. */
module Strings {
  import opened Common
  import opened Sequences

  const HIMAGIC: bv64 := 0x8080_8080_8080_8080
  const LOMAGIC: bv64 := 0x0101_0101_0101_0101

  /** No NUL among the bytes from `a` up to `b`. */
  predicate NoNul(m: seq<bv8>, a: nat, b: nat) {
    Avoids(m, 0, a, b)
  }

  /** The string at `a` ends at `z`. */
  predicate EndsAt(m: seq<bv8>, a: nat, z: nat) {
    FirstAt(m, 0, a, z)
  }

  ghost predicate Terminated(m: seq<bv8>, a: nat) {
    exists z: nat :: EndsAt(m, a, z)
  }

  function Pack(b0: bv8, b1: bv8, b2: bv8, b3: bv8, b4: bv8, b5: bv8, b6: bv8, b7: bv8): bv64 {
    (b0 as bv64) | ((b1 as bv64) << 8) | ((b2 as bv64) << 16) | ((b3 as bv64) << 24)
    | ((b4 as bv64) << 32) | ((b5 as bv64) << 40) | ((b6 as bv64) << 48) | ((b7 as bv64) << 56)
  }

  /** The eight bytes from `a` on as a little-endian word. */
  function WordAt(m: seq<bv8>, a: nat): bv64
    requires a + 8 <= |m|
  {
    Pack(m[a], m[a + 1], m[a + 2], m[a + 3], m[a + 4], m[a + 5], m[a + 6], m[a + 7])
  }

  predicate Flagged(w: bv64) {
    (w - LOMAGIC) & HIMAGIC != 0
  }

  /** A word with a zero byte is flagged: the borrow of the lowest zero byte sets its top bit. */
  lemma ZeroByteFlagged(b0: bv8, b1: bv8, b2: bv8, b3: bv8, b4: bv8, b5: bv8, b6: bv8, b7: bv8)
    requires b0 == 0 || b1 == 0 || b2 == 0 || b3 == 0 || b4 == 0 || b5 == 0 || b6 == 0 || b7 == 0
    ensures Flagged(Pack(b0, b1, b2, b3, b4, b5, b6, b7))
  {
  }

  /** The test may misfire: a word without a zero byte can be flagged. */
  lemma Misfire()
    ensures Flagged(Pack(0x81, 0x81, 0x81, 0x81, 0x81, 0x81, 0x81, 0x81))
  {
  }

  lemma UnflaggedWord(m: seq<bv8>, a: nat)
    requires a + 8 <= |m| && !Flagged(WordAt(m, a))
    ensures NoNul(m, a, a + 8)
  {
    if m[a] == 0 || m[a + 1] == 0 || m[a + 2] == 0 || m[a + 3] == 0
       || m[a + 4] == 0 || m[a + 5] == 0 || m[a + 6] == 0 || m[a + 7] == 0 {
      ZeroByteFlagged(m[a], m[a + 1], m[a + 2], m[a + 3], m[a + 4], m[a + 5], m[a + 6], m[a + 7]);
    }
  }

  lemma EndIsUnique(m: seq<bv8>, a: nat, y: nat, z: nat)
    requires EndsAt(m, a, y) && EndsAt(m, a, z)
    ensures y == z
  {
  }

  method StrLen(mem: array<bv8>, str: nat) returns (len: nat)
    requires Terminated(mem[..], str)
    ensures EndsAt(mem[..], str, str + len)
  {
    ghost var z: nat :| EndsAt(mem[..], str, z);
    len := 0;
    while mem[str + len] != 0
      invariant str + len <= z && NoNul(mem[..], str, str + len)
      decreases z - len
    {
      len := len + 1;
    }
  }

  /** The first address of a flagged word that holds NUL, looked for byte by byte as the source does; `cp + 8` after a misfire. */
  method NulInWord(mem: array<bv8>, cp: nat) returns (p: nat)
    requires cp + 8 <= mem.Length
    ensures cp <= p <= cp + 8 && NoNul(mem[..], cp, p) && (p < cp + 8 ==> mem[p] == 0)
  {
    p := cp;
    if mem[p] == 0 { return; }
    p := cp + 1;
    if mem[p] == 0 { return; }
    p := cp + 2;
    if mem[p] == 0 { return; }
    p := cp + 3;
    if mem[p] == 0 { return; }
    p := cp + 4;
    if mem[p] == 0 { return; }
    p := cp + 5;
    if mem[p] == 0 { return; }
    p := cp + 6;
    if mem[p] == 0 { return; }
    p := cp + 7;
    if mem[p] == 0 { return; }
    p := cp + 8;
  }

  /** The word-at-a-time scan finds the first NUL, or stops at the limit: for every alignment, limit and memory in which
      the words it reads exist. */
  method StrNLen(mem: array<bv8>, str: nat, maxLen: nat) returns (len: nat)
    requires mem.Length % 8 == 0 && mem.Length < SIZE_VALUES && maxLen < SIZE_VALUES && str <= mem.Length
    requires str + maxLen <= mem.Length || Terminated(mem[..], str)
    ensures len <= maxLen && NoNul(mem[..], str, str + len)
    ensures len < maxLen ==> EndsAt(mem[..], str, str + len)
  {
    if maxLen == 0 {
      return 0;
    }
    var end := Wrap(str + maxLen);
    if end < str {
      end := SIZE_VALUES - 1;
    }
    var p := str;
    while p % 8 != 0
      invariant str <= p <= mem.Length && NoNul(mem[..], str, p)
      decreases mem.Length - p
    {
      if mem[p] == 0 {
        if p > end {
          p := end;
        }
        return p - str;
      }
      p := p + 1;
    }
    var word := p;
    while word < end
      invariant word % 8 == 0 && str <= word <= mem.Length && NoNul(mem[..], str, word)
      invariant p == word || p == end
      decreases mem.Length - word
    {
      var w := WordAt(mem[..], word);
      word := word + 8;
      if Flagged(w) {
        p := NulInWord(mem, word - 8);
        if p < word {
          break;
        }
      } else {
        UnflaggedWord(mem[..], word - 8);
      }
      p := end;
    }
    if p > end {
      p := end;
    }
    return p - str;
  }

  /** Memory with the string between `a` and `z` turned around. */
  function WithReversed(m: seq<bv8>, a: nat, z: nat): (r: seq<bv8>)
    requires a <= z <= |m|
    ensures |r| == |m|
  {
    m[..a] + Reverse(m[a..z]) + m[z..]
  }

  /** Reversing twice restores all of memory, and the string keeps its end. */
  lemma ReverseIsInvolution(m: seq<bv8>, a: nat, z: nat)
    requires EndsAt(m, a, z)
    ensures EndsAt(WithReversed(m, a, z), a, z)
    ensures WithReversed(WithReversed(m, a, z), a, z) == m
  {
    var r := WithReversed(m, a, z);
    ReversedCells(m, a, z);
    assert r[a..z] == Reverse(m[a..z]);
    ReverseTwice(m[a..z]);
    assert r[..a] == m[..a] && r[z..] == m[z..];
    assert m == m[..a] + m[a..z] + m[z..];
  }

  lemma ReversedCells(m: seq<bv8>, a: nat, z: nat)
    requires a <= z <= |m|
    ensures forall k | a <= k < z :: WithReversed(m, a, z)[k] == m[a + z - 1 - k]
  {
    forall k | a <= k < z
      ensures WithReversed(m, a, z)[k] == m[a + z - 1 - k]
    {
      assert WithReversed(m, a, z)[k] == Reverse(m[a..z])[k - a];
    }
  }

  /** The outer `i` characters of the string are in place, those from `i` to `j` are still to be turned around. */
  ghost predicate PartReversed(was: seq<bv8>, now: seq<bv8>, a: nat, z: nat, i: nat) {
    && a <= z <= |was| && |now| == |was| && i <= z - a
    && (forall k | 0 <= k < |was| && (a <= k < a + i || z - i <= k < z) :: now[k] == was[a + z - 1 - k])
    && (forall k | 0 <= k < |was| && !(a <= k < a + i || z - i <= k < z) :: now[k] == was[k])
  }

  lemma SwapStep(was: seq<bv8>, now: seq<bv8>, a: nat, z: nat, i: nat, j: nat)
    requires PartReversed(was, now, a, z, i) && i < j && a + j + i + 1 == z
    ensures PartReversed(was, now[a + i := now[a + j]][a + j := now[a + i]], a, z, i + 1)
  {
    var x, y := a + i, a + j;
    var next := now[x := now[y]][y := now[x]];
    assert now[x] == was[x] && now[y] == was[y] && x + y == a + z - 1;
    forall k | 0 <= k < |was| && (a <= k <= x || y <= k < z)
      ensures next[k] == was[a + z - 1 - k]
    {
      if k != x && k != y {
        assert next[k] == now[k];
      }
    }
  }

  lemma AllReversed(was: seq<bv8>, now: seq<bv8>, a: nat, z: nat, i: nat)
    requires PartReversed(was, now, a, z, i) && i <= z - a <= i + i + 1
    ensures now == WithReversed(was, a, z)
  {
    ReversedCells(was, a, z);
    forall k | 0 <= k < |was|
      ensures now[k] == WithReversed(was, a, z)[k]
    {
      if a <= k < z {
        assert WithReversed(was, a, z)[k] == was[a + z - 1 - k];
        if a + i <= k < z - i {
          assert k + k == a + z - 1;
        }
      }
    }
  }

  method StrRev(mem: array<bv8>, str: nat, ghost z: nat)
    requires EndsAt(mem[..], str, z) && z - str < 0x8000_0000
    modifies mem
    ensures mem[..] == WithReversed(old(mem[..]), str, z)
  {
    ghost var was := mem[..];
    var len := StrLen(mem, str);
    EndIsUnique(was, str, z, str + len);
    var i: int, j: int := 0, len as int - 1;
    while i < j
      invariant 0 <= i <= len && i + j + 1 == len && i <= j + 2
      invariant PartReversed(was, mem[..], str, z, i)
    {
      SwapStep(was, mem[..], str, z, i, j);
      ghost var now := mem[..];
      mem[str + i], mem[str + j] := mem[str + j], mem[str + i];
      assert mem[..] == now[str + i := now[str + j]][str + j := now[str + i]];
      i, j := i + 1, j - 1;
    }
    AllReversed(was, mem[..], str, z, i);
  }

  method Append(mem: array<bv8>, str: nat, c: bv8, ghost z: nat)
    requires EndsAt(mem[..], str, z) && z + 1 < mem.Length
    modifies mem
    ensures mem[..] == old(mem[..])[z := c][z + 1 := 0]
  {
    var len := StrLen(mem, str);
    EndIsUnique(mem[..], str, z, str + len);
    mem[str + len] := c;
    mem[str + len + 1] := 0;
  }

  method Backspace(mem: array<bv8>, str: nat, ghost z: nat)
    requires EndsAt(mem[..], str, z) && z > 0
    modifies mem
    ensures mem[..] == old(mem[..])[z - 1 := 0]
  {
    var len := StrLen(mem, str);
    EndIsUnique(mem[..], str, z, str + len);
    mem[str + len - 1] := 0;
  }

  /** Taking back an appended character restores the string, and memory but for the byte the longer string's end used. */
  lemma BackspaceUndoesAppend(m: seq<bv8>, a: nat, z: nat, c: bv8)
    requires EndsAt(m, a, z) && z + 1 < |m| && c != 0
    ensures var w := m[z := c][z + 1 := 0];
      EndsAt(w, a, z + 1) && w[z := 0] == m[z + 1 := 0] && EndsAt(w[z := 0], a, z)
  {
  }

  /** A backspace shortens the string by one and touches nothing before it, exactly when the string was not empty;
      on an empty string the byte in front of it is cleared. */
  lemma BackspaceStaysInsideIff(m: seq<bv8>, a: nat, z: nat)
    requires EndsAt(m, a, z) && z > 0 && (a > 0 ==> m[a - 1] != 0)
    ensures m[z - 1 := 0][..a] == m[..a] <==> a < z
    ensures a < z ==> EndsAt(m[z - 1 := 0], a, z - 1)
  {
    if a == z {
      assert m[z - 1 := 0][..a][a - 1] == 0 != m[..a][a - 1];
    }
  }
}
