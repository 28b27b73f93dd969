/** Comparing strings: `strcmp` compares signed characters, `strncmp` unsigned ones; memory here holds bytes as numbers. */
module StringOrder {
  import opened Sequences
  import opened Text

  /** A byte as the source's `char`. */
  function AsSigned(c: Char): (v: int)
    ensures -0x80 <= v < 0x80 && (v - c) % 0x100 == 0
  {
    if c < 0x80 then c else c - 0x100
  }

  predicate EndsAt(m: seq<Char>, a: nat, z: nat) {
    FirstAt(m, NUL, a, z)
  }

  /** The strings at `a` and `b` have the same first `n` characters, none of them NUL. */
  predicate SamePrefix(m: seq<Char>, a: nat, b: nat, n: nat) {
    a + n <= |m| && b + n <= |m| && forall i: nat | i < n :: SameAt(m, a, b, i)
  }

  predicate SameAt(m: seq<Char>, a: nat, b: nat, i: nat)
    requires a + i < |m| && b + i < |m|
  {
    m[a + i] == m[b + i] != NUL
  }

  /** Where a comparison of the strings at `a` and `b` is decided. */
  predicate DecidedAt(m: seq<Char>, a: nat, b: nat, i: nat) {
    a + i < |m| && b + i < |m| && SamePrefix(m, a, b, i) && (m[a + i] != m[b + i] || m[a + i] == NUL)
  }

  function SignedOrder(m: seq<Char>, a: nat, b: nat, i: nat): int
    requires DecidedAt(m, a, b, i)
  {
    AsSigned(m[a + i]) - AsSigned(m[b + i])
  }

  /** The order of `strncmp`: unsigned, and none behind the limit. */
  function LimitedOrder(m: seq<Char>, a: nat, b: nat, n: nat, i: nat): int
    requires i < n ==> DecidedAt(m, a, b, i)
  {
    if i < n then m[a + i] as int - m[b + i] as int else 0
  }

  method StrCmp(mem: array<Char>, a: nat, b: nat, ghost i: nat) returns (r: int)
    requires DecidedAt(mem[..], a, b, i)
    ensures r == SignedOrder(mem[..], a, b, i)
  {
    var k := 0;
    while mem[a + k] != NUL && mem[b + k] != NUL && mem[a + k] == mem[b + k]
      invariant k <= i
      decreases i - k
    {
      assert k < i ==> SameAt(mem[..], a, b, k);
      k := k + 1;
    }
    assert k < i ==> SameAt(mem[..], a, b, k);
    return AsSigned(mem[a + k]) - AsSigned(mem[b + k]);
  }

  /** At most `n` characters; equal as far as they go, or decided among them. */
  method StrNCmp(mem: array<Char>, a: nat, b: nat, n: nat, ghost i: nat) returns (r: int)
    requires if i < n then DecidedAt(mem[..], a, b, i) else SamePrefix(mem[..], a, b, n)
    ensures r == LimitedOrder(mem[..], a, b, n, i)
  {
    if n == 0 {
      return 0;
    }
    var left, k := n, 0;
    while true
      invariant left > 0 && k + left == n && (i < n ==> k <= i)
      decreases left
    {
      assert i >= n || k < i ==> SameAt(mem[..], a, b, k);
      if mem[a + k] != mem[b + k] {
        return mem[a + k] as int - mem[b + k] as int;
      }
      if mem[a + k] == NUL {
        break;
      }
      k := k + 1;
      left := left - 1;
      if left == 0 {
        break;
      }
    }
    return 0;
  }

  /** Any two strings have a place where their comparison is decided. */
  lemma {:induction false} Decided(m: seq<Char>, a: nat, b: nat, y: nat, z: nat) returns (i: nat)
    requires EndsAt(m, a, y) && EndsAt(m, b, z)
    ensures DecidedAt(m, a, b, i) && a + i <= y && b + i <= z
    decreases y - a
  {
    if m[a] != m[b] || m[a] == NUL {
      i := 0;
    } else {
      var j := Decided(m, a + 1, b + 1, y, z);
      i := j + 1;
      forall k: nat | k < i
        ensures SameAt(m, a, b, k)
      {
        assert k > 0 ==> SameAt(m, a + 1, b + 1, k - 1);
      }
    }
  }

  /** `strcmp` answers 0 exactly for equal strings. */
  lemma EqualIff(m: seq<Char>, a: nat, b: nat, y: nat, z: nat, i: nat)
    requires EndsAt(m, a, y) && EndsAt(m, b, z) && DecidedAt(m, a, b, i)
    ensures SignedOrder(m, a, b, i) == 0 <==> m[a..y] == m[b..z]
  {
    assert a + i <= y && b + i <= z by {
      assert y < a + i ==> SameAt(m, a, b, y - a);
      assert z < b + i ==> SameAt(m, a, b, z - b);
    }
    if SignedOrder(m, a, b, i) == 0 {
      assert y == a + i && z == b + i;
      forall k | 0 <= k < i
        ensures m[a..y][k] == m[b..z][k]
      {
        assert SameAt(m, a, b, k);
      }
    } else if a + i < y && b + i < z {
      assert m[a..y][i] != m[b..z][i];
    }
  }

  /** The two comparisons give two strings the same order exactly when they are equal, or the deciding characters lie within
      the limit and on the same side of 0x80. */
  lemma OrdersAgreeIff(m: seq<Char>, a: nat, b: nat, n: nat, i: nat)
    requires DecidedAt(m, a, b, i)
    ensures (SignedOrder(m, a, b, i) < 0 <==> LimitedOrder(m, a, b, n, i) < 0)
            && (SignedOrder(m, a, b, i) > 0 <==> LimitedOrder(m, a, b, n, i) > 0)
      <==> m[a + i] == m[b + i] || (i < n && (m[a + i] < 0x80 <==> m[b + i] < 0x80))
  {
  }

  /** The strings of the bytes 0x80 and 1: `strcmp` puts the first in front, `strncmp` the second. */
  lemma OrdersDiffer(m: seq<Char>)
    requires m == [0x80, 0, 1, 0]
    ensures DecidedAt(m, 0, 2, 0) && SignedOrder(m, 0, 2, 0) < 0 < LimitedOrder(m, 0, 2, 1, 0)
  {
  }

  /** The order is transitive, whatever the characters. */
  lemma OrderIsTransitive(m: seq<Char>, a: nat, b: nat, c: nat, i: nat, j: nat)
    requires DecidedAt(m, a, b, i) && DecidedAt(m, b, c, j)
    requires SignedOrder(m, a, b, i) < 0 && SignedOrder(m, b, c, j) < 0
    ensures var k := if i < j then i else j; DecidedAt(m, a, c, k) && SignedOrder(m, a, c, k) < 0
  {
    var k := if i < j then i else j;
    forall n: nat | n < k
      ensures SameAt(m, a, c, n)
    {
      assert SameAt(m, a, b, n) && SameAt(m, b, c, n);
    }
    if i < j {
      assert SameAt(m, b, c, i);
    } else if j < i {
      assert SameAt(m, a, b, j);
    }
  }
}
