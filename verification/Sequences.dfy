/** Sequences turned around, parts of sequences, and where an item first occurs. */
module Sequences {
  /** `x` is not among the items from `a` up to `b`. */
  predicate Avoids<T(==)>(m: seq<T>, x: T, a: nat, b: nat) {
    b <= |m| && forall k | a <= k < b :: m[k] != x
  }

  /** The first `x` from `a` on is at `z`. */
  predicate FirstAt<T(==)>(m: seq<T>, x: T, a: nat, z: nat) {
    a <= z < |m| && m[z] == x && Avoids(m, x, a, z)
  }

  /** `b` is what `m` holds from `a` on. */
  predicate HeldAt<T(==)>(m: seq<T>, a: nat, b: seq<T>) {
    a + |b| <= |m| && m[a..a + |b|] == b
  }

  lemma HeldParts<T>(m: seq<T>, a: nat, b: seq<T>, c: seq<T>)
    requires HeldAt(m, a, b + c)
    ensures HeldAt(m, a, b) && HeldAt(m, a + |b|, c)
  {
    assert m[a..a + |b|] == m[a..a + |b + c|][..|b|] == b;
    assert m[a + |b|..a + |b| + |c|] == m[a..a + |b + c|][|b|..] == c;
  }

  lemma HeldFirst<T>(m: seq<T>, a: nat, b: seq<T>)
    requires HeldAt(m, a, b) && b != []
    ensures a < |m| && m[a] == b[0]
  {
    assert m[a] == m[a..a + |b|][0];
  }

  function Reverse<T>(s: seq<T>): (r: seq<T>)
    ensures |r| == |s|
    ensures forall i | 0 <= i < |s| :: r[i] == s[|s| - 1 - i]
  {
    seq(|s|, i requires 0 <= i < |s| => s[|s| - 1 - i])
  }

  lemma ReverseTwice<T>(s: seq<T>)
    ensures Reverse(Reverse(s)) == s
  {
  }

  lemma ReverseJoin<T>(a: seq<T>, b: seq<T>)
    ensures Reverse(a + b) == Reverse(b) + Reverse(a)
  {
  }

  lemma ReverseLast<T>(s: seq<T>, x: T)
    ensures Reverse(s + [x]) == [x] + Reverse(s)
  {
  }

  lemma ReverseFirst<T>(x: T, s: seq<T>)
    ensures Reverse([x] + s) == Reverse(s) + [x]
  {
  }

  lemma {:induction false} ReverseKeeps<T>(s: seq<T>)
    ensures multiset(Reverse(s)) == multiset(s)
  {
    if s != [] {
      ReverseKeeps(s[1..]);
      ReverseFirst(s[0], s[1..]);
      assert s == [s[0]] + s[1..];
    }
  }
}
