/** Runs of equal bits in a page map: the naive first-fit scan, counting, and the fragmentation bound. */
module PageRuns {
  import opened Common

  /** `n` consecutive bits equal to `v` start at `i`. */
  ghost predicate RunAt(bits: seq<bool>, i: nat, n: nat, v: bool) {
    i + n <= |bits| && forall j | i <= j < i + n :: bits[j] == v
  }

  ghost predicate HasRun(bits: seq<bool>, n: nat, v: bool) {
    exists i: nat :: RunAt(bits, i, n, v)
  }

  /** `i` is the leftmost place where `n` bits equal to `v` start. */
  ghost predicate LeastRun(bits: seq<bool>, i: nat, n: nat, v: bool) {
    RunAt(bits, i, n, v) && forall k: nat | k < i :: !RunAt(bits, k, n, v)
  }

  /** The naive search: try every start from `from` on. */
  function FirstRun(bits: seq<bool>, n: nat, v: bool, from: nat): (r: Option<nat>)
    ensures r.Some? ==> from <= r.value && r.value + n <= |bits|
    decreases |bits| - from
  {
    if from + n > |bits| then None
    else if forall j | from <= j < from + n :: bits[j] == v then Some(from)
    else if from == |bits| then None
    else FirstRun(bits, n, v, from + 1)
  }

  /** The naive search finds the leftmost run, and fails only when there is none. */
  lemma {:induction false} FirstRunIsLeast(bits: seq<bool>, n: nat, v: bool, from: nat)
    requires forall k: nat | k < from :: !RunAt(bits, k, n, v)
    ensures match FirstRun(bits, n, v, from)
            case Some(i) => LeastRun(bits, i, n, v)
            case None => !HasRun(bits, n, v)
    decreases |bits| - from
  {
    if from + n <= |bits| && !RunAt(bits, from, n, v) && from < |bits| {
      FirstRunIsLeast(bits, n, v, from + 1);
    }
  }

  /** A leftmost run is what the naive search finds. */
  lemma LeastRunIsFirst(bits: seq<bool>, i: nat, n: nat, v: bool)
    requires LeastRun(bits, i, n, v)
    ensures FirstRun(bits, n, v, 0) == Some(i)
  {
    FirstRunIsLeast(bits, n, v, 0);
  }

  /** The search of the allocator; for no pages at all it stops behind the first bit unlike `v`. */
  function Search(bits: seq<bool>, n: nat, v: bool): (r: Option<nat>)
    ensures r.Some? ==> r.value + n <= |bits|
  {
    if n > 0 then FirstRun(bits, n, v, 0)
    else
      match FirstRun(bits, 1, !v, 0)
      case Some(i) => Some(i + 1)
      case None => None
  }

  function Constant(n: nat, v: bool): (r: seq<bool>)
    ensures |r| == n && forall j | 0 <= j < n :: r[j] == v
  {
    seq(n, _ => v)
  }

  /** `bits` with `n` bits from `i` on set to `v`. */
  function Fill(bits: seq<bool>, i: nat, n: nat, v: bool): (r: seq<bool>)
    requires i + n <= |bits|
    ensures |r| == |bits|
    ensures RunAt(r, i, n, v)
    ensures forall j | 0 <= j < |bits| && !(i <= j < i + n) :: r[j] == bits[j]
  {
    bits[..i] + Constant(n, v) + bits[i + n..]
  }

  function CountUsed(bits: seq<bool>): (r: nat)
    ensures r <= |bits|
  {
    if bits == [] then 0
    else CountUsed(bits[..|bits| - 1]) + if bits[|bits| - 1] then 1 else 0
  }

  lemma {:induction false} CountSplit(a: seq<bool>, b: seq<bool>)
    ensures CountUsed(a + b) == CountUsed(a) + CountUsed(b)
  {
    if b == [] {
      assert a + b == a;
    } else {
      var last := |b| - 1;
      assert (a + b)[..|a + b| - 1] == a + b[..last];
      CountSplit(a, b[..last]);
    }
  }

  lemma CountThree(a: seq<bool>, b: seq<bool>, c: seq<bool>)
    ensures CountUsed(a + b + c) == CountUsed(a) + CountUsed(b) + CountUsed(c)
  {
    CountSplit(a + b, c);
    CountSplit(a, b);
  }

  lemma {:induction false} CountConstant(n: nat, v: bool)
    ensures CountUsed(Constant(n, v)) == if v then n else 0
  {
    if n > 0 {
      assert Constant(n, v)[..n - 1] == Constant(n - 1, v);
      CountConstant(n - 1, v);
    }
  }

  /** A window is full exactly when it counts its whole length, and empty exactly when it counts nothing. */
  lemma {:induction false} CountExtremes(bits: seq<bool>)
    ensures CountUsed(bits) == |bits| <==> forall j | 0 <= j < |bits| :: bits[j]
    ensures CountUsed(bits) == 0 <==> forall j | 0 <= j < |bits| :: !bits[j]
  {
    if bits != [] {
      var rest := bits[..|bits| - 1];
      CountExtremes(rest);
      assert forall j | 0 <= j < |rest| :: rest[j] == bits[j];
    }
  }

  /** Overwriting a window changes the count by what the window held before and holds now. */
  lemma CountFill(bits: seq<bool>, i: nat, n: nat, v: bool)
    requires i + n <= |bits|
    ensures CountUsed(Fill(bits, i, n, v)) == CountUsed(bits) - CountUsed(bits[i..i + n]) + if v then n else 0
  {
    CountCut(bits, i, n);
    CountThree(bits[..i], Constant(n, v), bits[i + n..]);
    CountConstant(n, v);
  }

  lemma CountCut(bits: seq<bool>, i: nat, n: nat)
    requires i + n <= |bits|
    ensures CountUsed(bits) == CountUsed(bits[..i]) + CountUsed(bits[i..i + n]) + CountUsed(bits[i + n..])
  {
    CountThree(bits[..i], bits[i..i + n], bits[i + n..]);
    assert bits == bits[..i] + bits[i..i + n] + bits[i + n..];
  }

  lemma OneMore(u: nat, m: nat)
    ensures (u + 1) * m == u * m + m
  {
  }

  /** Length of the free stretch a page map ends with. */
  function FreeTail(bits: seq<bool>): (r: nat)
    ensures r <= |bits|
    ensures RunAt(bits, |bits| - r, r, false)
  {
    if bits == [] || bits[|bits| - 1] then 0 else FreeTail(bits[..|bits| - 1]) + 1
  }

  /** Without `n` free pages in a row, each used page closes at most `n - 1` free ones. */
  lemma {:induction false} FreeBetweenUsed(bits: seq<bool>, n: nat)
    requires n >= 1 && !HasRun(bits, n, false)
    ensures |bits| - CountUsed(bits) <= CountUsed(bits) * (n - 1) + FreeTail(bits)
    ensures FreeTail(bits) <= n - 1
  {
    if bits != [] {
      var rest := bits[..|bits| - 1];
      forall i: nat
        ensures !RunAt(rest, i, n, false)
      {
        assert !RunAt(bits, i, n, false);
        if RunAt(rest, i, n, false) {
          assert forall j | i <= j < i + n :: bits[j] == rest[j];
        }
      }
      FreeBetweenUsed(rest, n);
      var u := CountUsed(rest);
      OneMore(u, n - 1);
      if FreeTail(bits) >= n {
        var t := FreeTail(bits);
        assert RunAt(bits, |bits| - t, n, false);
      }
    }
  }

  /** Fragmentation bound: enough free pages force a free run of `n`. */
  lemma ManyFreeForceRun(bits: seq<bool>, n: nat)
    requires n >= 1
    requires |bits| - CountUsed(bits) > (CountUsed(bits) + 1) * (n - 1)
    ensures HasRun(bits, n, false)
  {
    if !HasRun(bits, n, false) {
      FreeBetweenUsed(bits, n);
      OneMore(CountUsed(bits), n - 1);
    }
  }

  /** `used` used pages, each preceded and finally followed by `n - 1` free ones. */
  function Comb(used: nat, n: nat): (bits: seq<bool>)
    requires n >= 1
    ensures used == 0 ==> |bits| == n - 1
  {
    if used == 0 then Constant(n - 1, false)
    else Comb(used - 1, n) + [true] + Constant(n - 1, false)
  }

  /** A run in a comb would have to fit before its last tooth or after it. */
  lemma CombHasNoRun(c: seq<bool>, n: nat)
    requires n >= 1 && !HasRun(c, n, false)
    ensures !HasRun(c + [true] + Constant(n - 1, false), n, false)
  {
    var bits := c + [true] + Constant(n - 1, false);
    assert bits[|c|];
    forall i: nat
      ensures !RunAt(bits, i, n, false)
    {
      if RunAt(bits, i, n, false) {
        assert i + n <= |c|;
        assert forall j | i <= j < i + n :: c[j] == bits[j];
        assert RunAt(c, i, n, false);
      }
    }
  }

  /** The bound cannot be improved: with exactly that many free pages a run may be missing. */
  lemma {:induction false} BoundIsTight(used: nat, n: nat)
    requires n >= 1
    ensures CountUsed(Comb(used, n)) == used
    ensures |Comb(used, n)| - used == (used + 1) * (n - 1)
    ensures !HasRun(Comb(used, n), n, false)
  {
    CountConstant(n - 1, false);
    if used > 0 {
      var c := Comb(used - 1, n);
      BoundIsTight(used - 1, n);
      CountThree(c, [true], Constant(n - 1, false));
      CombHasNoRun(c, n);
      OneMore(used, n - 1);
    }
  }
}
