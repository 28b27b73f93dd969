/** Physical memory as two page regions with the blocks handed out of them, and the requests that change it. */
module PmmModel {
  import opened Common
  import opened Bitmap
  import opened PageRuns
  import opened FirstFit
  import opened FirstFitLaws

  const KERNEL_PAGES: nat := KERNEL_SPACE_SIZE / PAGE_SIZE
  const USER_START_ADDR: nat := KERNEL_START_ADDR + KERNEL_SPACE_SIZE
  /** More memory than this and the page map of the second region is too small for it. */
  const LENGTH_LIMIT: nat := KERNEL_SPACE_SIZE + (CAPACITY + 1) * PAGE_SIZE

  datatype Space = Kernel | User

  datatype Block = Block(space: Space, first: nat, pages: nat) {
    function End(): nat {
      first + pages
    }

    predicate Covers(s: Space, p: nat) {
      space == s && first <= p < End()
    }

    predicate Meets(s: Space, i: nat, n: nat) {
      space == s && n > 0 && first < i + n && i < End()
    }
  }

  datatype Request =
    | Alloc(space: Space, pages: nat)
    | AllocAt(space: Space, addr: nat, pages: nat)
    | Free(addr: nat, pages: nat)

  /** What is left of blocks when pages `[i, i + n)` of a space are given back: the part before, the part behind. */
  function Release(live: set<Block>, s: Space, i: nat, n: nat): set<Block> {
    (set b | b in live && !b.Meets(s, i, n))
    + (set b | b in live && b.Meets(s, i, n) && b.first < i :: Block(s, b.first, i - b.first))
    + (set b | b in live && b.Meets(s, i, n) && i + n < b.End() :: Block(s, i + n, b.End() - (i + n)))
  }

  function Grant(live: set<Block>, s: Space, i: nat, n: nat): set<Block> {
    if n == 0 then live else live + {Block(s, i, n)}
  }

  datatype System = System(length: nat, kernel: Region, user: Region, reserved: nat, live: set<Block>) {

    predicate Shaped() {
      && KERNEL_SPACE_SIZE <= length < LENGTH_LIMIT
      && kernel.WellSized() && kernel.start == KERNEL_START_ADDR && kernel.length == KERNEL_PAGES
      && user.WellSized() && user.start == USER_START_ADDR && user.length == (length - KERNEL_SPACE_SIZE) / PAGE_SIZE
    }

    function At(s: Space): Region {
      if s == Kernel then kernel else user
    }

    function With(s: Space, r: Region, blocks: set<Block>): System {
      if s == Kernel then this.(kernel := r, live := blocks) else this.(user := r, live := blocks)
    }

    /** Pages set aside at start-up: the kernel image and the boot information. */
    predicate Reserved(s: Space, p: nat) {
      s == Kernel && p < reserved
    }

    ghost predicate Owned(s: Space, p: nat) {
      exists b :: b in live && b.Covers(s, p)
    }

    ghost predicate BlocksApart() {
      forall b, c, p | b in live && c in live && b.Covers(b.space, p) && c.Covers(b.space, p) :: b == c
    }

    ghost predicate BlocksInside() {
      forall b | b in live ::
        b.pages > 0 && b.End() <= At(b.space).length && (b.space == Kernel ==> reserved <= b.first)
    }

    /** The map of each region marks the reserved pages, the pages of live blocks, and nothing else. */
    ghost predicate MapsExact() {
      forall s, p: nat | p < |At(s).bits| :: At(s).bits[p] <==> Reserved(s, p) || Owned(s, p)
    }

    ghost predicate Safe() {
      && Shaped() && kernel.Sound() && user.Sound()
      && BlocksInside() && BlocksApart() && MapsExact()
    }

    /** `free_pages` chooses the allocator by address. */
    function Route(addr: nat): (s: Option<Space>)
      requires length >= KERNEL_SPACE_SIZE
    {
      if KERNEL_START_ADDR <= addr < KERNEL_START_ADDR + KERNEL_SPACE_SIZE then Some(Kernel)
      else if USER_START_ADDR <= addr < USER_START_ADDR + (length - KERNEL_SPACE_SIZE) then Some(User)
      else None
    }

    /** The request touches only bits that exist in the page maps. */
    ghost predicate Defined(q: Request)
      requires Shaped()
    {
      match q
      case Alloc(_, _) => true
      case AllocAt(s, addr, n) => At(s).Testable(addr, n)
      case Free(addr, n) =>
        match Route(addr)
        case Some(s) => At(s).Clearable(addr, n)
        case None => true
    }

    function Step(q: Request): System
      requires Shaped() && Defined(q)
    {
      match q
      case Alloc(s, n) =>
        (match At(s).Find(n, false)
         case Some(i) => With(s, At(s).Alloc(n).0, Grant(live, s, i, n))
         case None => this)
      case AllocAt(s, addr, n) =>
        if At(s).AllocAtSucceeds(addr, n)
        then With(s, At(s).AllocAt(addr, n), Grant(live, s, At(s).PageOf(addr), n)) else this
      case Free(addr, n) =>
        match Route(addr)
        case Some(s) =>
          if At(s).InRange(addr)
          then With(s, At(s).Free(addr, n), Release(live, s, At(s).PageOf(addr), n)) else this
        case None => this
    }

    /** What callers owe: a range asked for lies in its space, and pages given back belong to live blocks.
        Neither is met by a range whose end wraps around. */
    ghost predicate Legal(q: Request)
      requires Shaped()
    {
      match q
      case Alloc(_, _) => true
      case AllocAt(s, addr, n) => At(s).AllocAtSucceeds(addr, n) ==> At(s).PageOf(addr) + n <= At(s).length
      case Free(addr, n) =>
        match Route(addr)
        case Some(s) =>
          At(s).InRange(addr) ==> forall p | At(s).PageOf(addr) <= p < At(s).PageOf(addr) + n :: Owned(s, p)
        case None => true
    }
  }

  /** Owning is what the sets of blocks say, page by page. */
  lemma GrantOwned(y: System, s: Space, i: nat, n: nat, t: Space, p: nat)
    ensures y.(live := Grant(y.live, s, i, n)).Owned(t, p) <==> y.Owned(t, p) || (t == s && i <= p < i + n)
  {
    var z := y.(live := Grant(y.live, s, i, n));
    if n > 0 && t == s && i <= p < i + n {
      assert Block(s, i, n) in z.live && Block(s, i, n).Covers(t, p);
    }
    if y.Owned(t, p) {
      var b :| b in y.live && b.Covers(t, p);
      assert b in z.live;
    }
  }

  lemma ReleaseOwned(y: System, s: Space, i: nat, n: nat, t: Space, p: nat)
    ensures y.(live := Release(y.live, s, i, n)).Owned(t, p) <==> y.Owned(t, p) && !(t == s && i <= p < i + n)
  {
    var z := y.(live := Release(y.live, s, i, n));
    if y.Owned(t, p) && !(t == s && i <= p < i + n) {
      var b :| b in y.live && b.Covers(t, p);
      if !b.Meets(s, i, n) {
        assert b in z.live;
      } else if p < i {
        var c := Block(s, b.first, i - b.first);
        assert c in z.live && c.Covers(t, p);
      } else {
        var c := Block(s, i + n, b.End() - (i + n));
        assert c in z.live && c.Covers(t, p);
      }
    }
    if z.Owned(t, p) {
      var c :| c in z.live && c.Covers(t, p);
      var b := Parent(y.live, s, i, n, c);
      assert b.Covers(t, p);
    }
  }

  /** Every block left after a release is a part of one block from before. */
  lemma Parent(live: set<Block>, s: Space, i: nat, n: nat, c: Block) returns (b: Block)
    requires c in Release(live, s, i, n)
    ensures b in live && b.space == c.space && b.first <= c.first && c.End() <= b.End()
    ensures !c.Meets(s, i, n)
    ensures b.Meets(s, i, n) ==> c.pages > 0 && ((c.End() == i && c.first == b.first) || (c.first == i + n && c.End() == b.End()))
    ensures !b.Meets(s, i, n) ==> c == b
  {
    if c in live && !c.Meets(s, i, n) {
      b := c;
    } else if d :| d in live && d.Meets(s, i, n) && d.first < i && c == Block(s, d.first, i - d.first) {
      b := d;
    } else {
      b :| b in live && b.Meets(s, i, n) && i + n < b.End() && c == Block(s, i + n, b.End() - (i + n));
    }
  }

  lemma TakeSafe(y: System, s: Space, i: nat, n: nat)
    requires y.Safe() && i + n <= y.At(s).length && RunAt(y.At(s).bits, i, n, false)
    ensures y.With(s, y.At(s).Take(i, n), Grant(y.live, s, i, n)).Safe()
  {
    var z := y.With(s, y.At(s).Take(i, n), Grant(y.live, s, i, n));
    TakeFree(y.At(s), i, n);
    forall t, p: nat | p < CAPACITY
      ensures z.At(t).bits[p] <==> z.Reserved(t, p) || z.Owned(t, p)
    {
      GrantOwned(y, s, i, n, t, p);
      assert z.Owned(t, p) == y.(live := Grant(y.live, s, i, n)).Owned(t, p);
    }
    if n > 0 {
      assert !y.At(s).bits[i];
      NewBlockApart(y, s, i, n);
    }
  }

  lemma NewBlockApart(y: System, s: Space, i: nat, n: nat)
    requires y.Safe() && i + n <= y.At(s).length && RunAt(y.At(s).bits, i, n, false)
    ensures y.(live := y.live + {Block(s, i, n)}).BlocksApart()
  {
    forall b, p: nat | b in y.live && i <= p < i + n
      ensures !b.Covers(s, p)
    {
      if b.Covers(s, p) {
        assert y.Owned(s, p);
      }
    }
  }

  lemma ReturnSafe(y: System, s: Space, i: nat, n: nat)
    requires y.Safe() && i < y.At(s).length && i + n <= CAPACITY
    requires forall p | i <= p < i + n :: y.Owned(s, p)
    ensures y.With(s, y.At(s).Return(i, n), Release(y.live, s, i, n)).Safe()
  {
    var r := y.At(s);
    assert RunAt(r.bits, i, n, true);
    ReturnSoundIff(r, i, n);
    ReturnExact(y, s, i, n);
    PartsApart(y, s, i, n);
  }

  lemma ReturnExact(y: System, s: Space, i: nat, n: nat)
    requires y.Safe() && i + n <= CAPACITY
    requires forall p | i <= p < i + n :: y.Owned(s, p)
    ensures y.With(s, y.At(s).Return(i, n), Release(y.live, s, i, n)).MapsExact()
  {
    var z := y.With(s, y.At(s).Return(i, n), Release(y.live, s, i, n));
    forall t, p: nat | p < CAPACITY
      ensures z.At(t).bits[p] <==> z.Reserved(t, p) || z.Owned(t, p)
    {
      ReleaseOwned(y, s, i, n, t, p);
      assert z.Owned(t, p) == y.(live := Release(y.live, s, i, n)).Owned(t, p);
      if y.Owned(t, p) {
        OwnedNotReserved(y, t, p);
      }
    }
  }

  lemma OwnedNotReserved(y: System, s: Space, p: nat)
    requires y.Safe() && y.Owned(s, p)
    ensures !y.Reserved(s, p) && p < y.At(s).length
  {
    var b :| b in y.live && b.Covers(s, p);
  }

  lemma PartsApart(y: System, s: Space, i: nat, n: nat)
    requires y.Safe()
    ensures y.(live := Release(y.live, s, i, n)).BlocksApart()
    ensures y.(live := Release(y.live, s, i, n)).BlocksInside()
  {
    var z := y.(live := Release(y.live, s, i, n));
    forall c, d, p | c in z.live && d in z.live && c.Covers(c.space, p) && d.Covers(c.space, p)
      ensures c == d
    {
      var b := Parent(y.live, s, i, n, c);
      var e := Parent(y.live, s, i, n, d);
      assert b.Covers(c.space, p) && e.Covers(c.space, p);
    }
    forall c | c in z.live
      ensures c.pages > 0 && c.End() <= y.At(c.space).length && (c.space == Kernel ==> y.reserved <= c.first)
    {
      var b := Parent(y.live, s, i, n, c);
    }
  }

  /** One request keeps memory safe exactly when its caller met the obligations. */
  lemma StepSafeIff(y: System, q: Request)
    requires y.Safe() && y.Defined(q)
    ensures y.Step(q).Safe() <==> y.Legal(q)
  {
    match q
    case Alloc(s, n) =>
      var f := y.At(s).Find(n, false);
      if f.Some? {
        FoundIsFree(y.At(s), n);
        TakeSafe(y, s, f.value, n);
      }
    case AllocAt(s, addr, n) =>
      if y.At(s).AllocAtSucceeds(addr, n) {
        AllocAtSoundIff(y.At(s), addr, n);
        if y.Legal(q) {
          TakeSafe(y, s, y.At(s).PageOf(addr), n);
        } else {
          assert y.Step(q).At(s) == y.At(s).AllocAt(addr, n);
        }
      }
    case Free(addr, n) =>
      if y.Route(addr).Some? {
        FreeSafeIff(y, y.Route(addr).value, addr, n);
      }
  }

  lemma FreeSafeIff(y: System, s: Space, addr: nat, n: nat)
    requires y.Safe() && y.Defined(Free(addr, n)) && y.Route(addr) == Some(s)
    ensures y.Step(Free(addr, n)).Safe() <==> y.Legal(Free(addr, n))
  {
    if y.At(s).InRange(addr) {
      var i := y.At(s).PageOf(addr);
      if y.Legal(Free(addr, n)) {
        OwnedRangeInside(y, s, i, n);
        ReturnSafe(y, s, i, n);
      } else {
        var p :| i <= p < i + n && !y.Owned(s, p);
        FreeUnowned(y, s, addr, n, p);
      }
    }
  }

  lemma OwnedRangeInside(y: System, s: Space, i: nat, n: nat)
    requires y.Safe() && i < y.At(s).length && forall p | i <= p < i + n :: y.Owned(s, p)
    ensures i + n <= y.At(s).length
  {
    if n > 0 {
      assert y.Owned(s, i + n - 1);
      OwnedNotReserved(y, s, i + n - 1);
    }
  }

  /** Giving back a page that no block owns corrupts the counters, or frees a reserved page. */
  lemma FreeUnowned(y: System, s: Space, addr: nat, n: nat, p: nat)
    requires y.Safe() && y.Defined(Free(addr, n)) && y.Route(addr) == Some(s) && y.At(s).InRange(addr)
    requires y.At(s).PageOf(addr) <= p < y.At(s).PageOf(addr) + n && !y.Owned(s, p)
    ensures !y.Step(Free(addr, n)).Safe()
  {
    var z := y.Step(Free(addr, n));
    assert z.At(s) == y.At(s).Free(addr, n);
    FreeSoundIff(y.At(s), addr, n);
    if p < CAPACITY && RunAt(y.At(s).bits, y.At(s).PageOf(addr), n, true) {
      assert y.Reserved(s, p) && z.Reserved(s, p);
      assert !z.At(s).bits[p];
    }
  }

  /** In every safe state: asking for 2^64 - 1 pages from page 20 on reports success, marks nothing and corrupts the counters. */
  lemma WrappedRequest(y: System)
    requires y.Safe()
    ensures var q := AllocAt(Kernel, KERNEL_START_ADDR + 20 * PAGE_SIZE, SIZE_VALUES - 1);
      && y.Defined(q) && y.kernel.AllocAtSucceeds(q.addr, q.pages) && !y.Legal(q)
      && y.Step(q).kernel.bits == y.kernel.bits
      && y.Step(q).kernel.used == Wrap(y.kernel.used - 1) && y.Step(q).kernel.free == Wrap(y.kernel.free + 1)
      && !y.Step(q).Safe()
  {
    var q := AllocAt(Kernel, KERNEL_START_ADDR + 20 * PAGE_SIZE, SIZE_VALUES - 1);
    assert y.kernel.PageOf(q.addr) == 20;
    WrappedAllocAt(y.kernel, q.addr, q.pages);
    assert y.Step(q).kernel == y.kernel.AllocAt(q.addr, q.pages);
  }

  ghost predicate DefinedRun(y: System, qs: seq<Request>)
    requires y.Shaped()
    decreases |qs|
  {
    qs != [] ==> y.Defined(qs[0]) && DefinedRun(y.Step(qs[0]), qs[1..])
  }

  function Run(y: System, qs: seq<Request>): (z: System)
    requires y.Shaped() && DefinedRun(y, qs)
    ensures z.Shaped()
    decreases |qs|
  {
    if qs == [] then y else Run(y.Step(qs[0]), qs[1..])
  }

  ghost predicate LegalRun(y: System, qs: seq<Request>)
    requires y.Shaped() && DefinedRun(y, qs)
    decreases |qs|
  {
    qs != [] ==> y.Legal(qs[0]) && LegalRun(y.Step(qs[0]), qs[1..])
  }

  /** Every state a run goes through, the first and the last included, is safe. */
  ghost predicate SafeThroughout(y: System, qs: seq<Request>)
    requires y.Shaped() && DefinedRun(y, qs)
    decreases |qs|
  {
    y.Safe() && (qs != [] ==> SafeThroughout(y.Step(qs[0]), qs[1..]))
  }

  /** A run of requests stays safe at every state exactly when each request was legal when it was made. */
  lemma {:induction false} RunSafeIff(y: System, qs: seq<Request>)
    requires y.Safe() && DefinedRun(y, qs)
    ensures SafeThroughout(y, qs) <==> LegalRun(y, qs)
    ensures LegalRun(y, qs) ==> Run(y, qs).Safe()
    decreases |qs|
  {
    if qs != [] {
      StepSafeIff(y, qs[0]);
      if y.Legal(qs[0]) {
        RunSafeIff(y.Step(qs[0]), qs[1..]);
      }
    }
  }

  /** No page is lost or counted twice: used and free pages together are the pages of the memory. */
  lemma Conservation(y: System, qs: seq<Request>)
    requires y.Safe() && DefinedRun(y, qs) && LegalRun(y, qs)
    ensures var z := Run(y, qs);
      (z.kernel.used + z.user.used) + (z.kernel.free + z.user.free) == y.length / PAGE_SIZE
  {
    RunSafeIff(y, qs);
    RunKeepsLength(y, qs);
  }

  lemma {:induction false} RunKeepsLength(y: System, qs: seq<Request>)
    requires y.Shaped() && DefinedRun(y, qs)
    ensures Run(y, qs).length == y.length
    decreases |qs|
  {
    if qs != [] {
      RunKeepsLength(y.Step(qs[0]), qs[1..]);
    }
  }

  predicate HoldsAddress(y: System, b: Block, a: nat) {
    y.At(b.space).AddressOf(b.first) <= a < y.At(b.space).AddressOf(b.End())
  }

  /** Two live blocks never share a byte of memory, whichever spaces they come from. */
  lemma BlocksShareNoByte(y: System, b: Block, c: Block, a: nat)
    requires y.Safe() && b in y.live && c in y.live && HoldsAddress(y, b, a) && HoldsAddress(y, c, a)
    ensures b == c
  {
    if b.space == c.space {
      var p := (a - y.At(b.space).start) / PAGE_SIZE;
      assert b.Covers(b.space, p) && c.Covers(b.space, p);
    }
  }

  lemma ReleaseGranted(y: System, s: Space, i: nat, n: nat)
    requires y.Safe() && i + n <= y.At(s).length && RunAt(y.At(s).bits, i, n, false) && n > 0
    ensures Release(Grant(y.live, s, i, n), s, i, n) == y.live
  {
    forall b | b in y.live
      ensures !b.Meets(s, i, n)
    {
      if b.Meets(s, i, n) {
        var p := if b.first < i then i else b.first;
        assert b.Covers(s, p) && y.Owned(s, p);
      }
    }
    assert Block(s, i, n).Meets(s, i, n);
  }

  /** An address handed out is routed back to the allocator it came from, and giving it back undoes the request altogether. */
  lemma AllocThenFreeIsNothing(y: System, s: Space, n: nat)
    requires y.Safe() && n >= 1 && y.At(s).Find(n, false).Some?
    ensures var addr := y.At(s).Alloc(n).1; var z := y.Step(Alloc(s, n));
      && z.Route(addr) == Some(s)
      && z.Defined(Free(addr, n)) && z.Legal(Free(addr, n))
      && z.Step(Free(addr, n)) == y
  {
    var i := y.At(s).Find(n, false).value;
    FoundIsFree(y.At(s), n);
    TakeThenReturn(y.At(s), i, n);
    ReleaseGranted(y, s, i, n);
    FreeAfterTake(y, y.Step(Alloc(s, n)), s, i, n);
  }

  lemma FreeAfterTake(y: System, z: System, s: Space, i: nat, n: nat)
    requires y.Shaped() && i + n <= y.At(s).length && n > 0
    requires z == y.With(s, y.At(s).Take(i, n), Grant(y.live, s, i, n))
    requires y.At(s).Take(i, n).Return(i, n) == y.At(s)
    requires Release(Grant(y.live, s, i, n), s, i, n) == y.live
    ensures z.Shaped() && z.Route(y.At(s).AddressOf(i)) == Some(s)
    ensures var q := Free(y.At(s).AddressOf(i), n); z.Defined(q) && z.Legal(q) && z.Step(q) == y
  {
    assert z.At(s) == y.At(s).Take(i, n) && z.At(s).AddressOf(i) == y.At(s).AddressOf(i);
    FreeHere(z, s, i, n);
    WithTwice(y, s, z.At(s), z.live);
  }

  lemma WithTwice(y: System, s: Space, r: Region, blocks: set<Block>)
    ensures y.With(s, r, blocks).With(s, y.At(s), y.live) == y
  {
  }

  lemma FreeHere(z: System, s: Space, i: nat, n: nat)
    requires z.Shaped() && i + n <= z.At(s).length && n > 0 && Block(s, i, n) in z.live
    ensures var q := Free(z.At(s).AddressOf(i), n);
      && z.Route(q.addr) == Some(s) && z.Defined(q) && z.Legal(q)
      && z.Step(q) == z.With(s, z.At(s).Return(i, n), Release(z.live, s, i, n))
  {
    RoutesBack(z, s, i);
    GrantedPages(z, s, i, n);
  }

  lemma RoutesBack(y: System, s: Space, i: nat)
    requires y.Shaped() && i < y.At(s).length
    ensures var addr := y.At(s).AddressOf(i);
      y.Route(addr) == Some(s) && y.At(s).InRange(addr) && y.At(s).PageOf(addr) == i
  {
  }

  lemma GrantedPages(z: System, s: Space, i: nat, n: nat)
    requires Block(s, i, n) in z.live
    ensures forall p | i <= p < i + n :: z.Owned(s, p)
  {
    forall p | i <= p < i + n
      ensures z.Owned(s, p)
    {
      assert Block(s, i, n).Covers(s, p);
    }
  }
}
