/** The byte layout of boot information, with the numbers of sections 3.6.2 and 3.6.8 of the Multiboot2 Specification written
    out, and that the walk reads back what was laid out. */
module Multiboot2Encoding {
  import opened Common
  import opened Multiboot2
  import opened Sequences

  datatype Entry = Entry(addr: nat, len: nat, kind: nat, reserved: nat) {
    predicate Valid() {
      addr < SIZE_VALUES && len < SIZE_VALUES && kind < UINT32_VALUES && reserved < UINT32_VALUES
    }
  }

  /** A memory map with its entry size, and what is left behind its last whole entry; with the raw payload: a map whose entry
      size is too small for an entry, so that entries overlap; a map the callback refuses, because it is too small or its entry
      size is 0; a tag of another type. */
  datatype Tag =
    | Mmap(entrySize: nat, version: nat, entries: seq<Entry>, rest: seq<Byte>)
    | OverlappingMmap(payload: seq<Byte>)
    | RefusedMmap(payload: seq<Byte>)
    | Other(kind: nat, body: seq<Byte>)
  {
    predicate Valid() {
      8 <= Size() <= UINT32_VALUES - 8 &&
      match this
      case Mmap(entrySize, version, entries, rest) =>
        24 <= entrySize < UINT32_VALUES && version < UINT32_VALUES && |rest| < entrySize
        && forall e | e in entries :: e.Valid()
      case OverlappingMmap(payload) =>
        8 + |payload| >= 16 && 0 < Le32(payload, 0) < 24
      case RefusedMmap(payload) =>
        8 + |payload| < 16 || payload[..4] == [0, 0, 0, 0]
      case Other(kind, body) =>
        kind != 0 && kind != 6 && kind < UINT32_VALUES
    }

    function Size(): nat {
      match this
      case Mmap(entrySize, _, entries, rest) => 16 + entrySize * |entries| + |rest|
      case OverlappingMmap(payload) => 8 + |payload|
      case RefusedMmap(payload) => 8 + |payload|
      case Other(_, body) => 8 + |body|
    }

    predicate IsAccepted() {
      Mmap? || OverlappingMmap?
    }

    /** Distance to the next tag. */
    function Pitch(): (p: nat)
      ensures p >= Size()
    {
      Align(Size(), 8)
    }

    function Kind(): nat {
      if Other? then kind else 6
    }
  }

  function Bytes(x: nat, k: nat): (b: seq<Byte>)
    ensures |b| == k
  {
    if k == 0 then [] else [x % 0x100] + Bytes(x / 0x100, k - 1)
  }

  function Zeros(n: nat): (b: seq<Byte>)
    ensures |b| == n
  {
    seq(n, _ => 0)
  }

  function EncodeEntry(e: Entry, entrySize: nat): (b: seq<Byte>)
    requires entrySize >= 24
    ensures |b| == entrySize
  {
    Bytes(e.addr, 8) + Bytes(e.len, 8) + Bytes(e.kind, 4) + Bytes(e.reserved, 4) + Zeros(entrySize - 24)
  }

  function EncodeEntries(es: seq<Entry>, entrySize: nat): (b: seq<Byte>)
    requires entrySize >= 24
    ensures |b| == entrySize * |es|
  {
    if es == [] then []
    else
      assert entrySize * |es| == entrySize + entrySize * (|es| - 1);
      EncodeEntry(es[0], entrySize) + EncodeEntries(es[1..], entrySize)
  }

  function TagBody(t: Tag): (b: seq<Byte>)
    requires t.Valid()
    ensures |b| == t.Size() - 8
  {
    match t
    case Mmap(entrySize, version, entries, rest) =>
      Bytes(entrySize, 4) + Bytes(version, 4) + EncodeEntries(entries, entrySize) + rest
    case OverlappingMmap(payload) => payload
    case RefusedMmap(payload) => payload
    case Other(_, body) => body
  }

  function EncodeTag(t: Tag): (b: seq<Byte>)
    requires t.Valid()
    ensures |b| == t.Size()
  {
    Bytes(t.Kind(), 4) + Bytes(t.Size(), 4) + TagBody(t)
  }

  ghost predicate ValidTags(tags: seq<Tag>) {
    forall t | t in tags :: t.Valid()
  }

  /** Tags one after the other, each padded to a multiple of 8 bytes, closed by an end tag. */
  function EncodeTags(tags: seq<Tag>): (b: seq<Byte>)
    requires ValidTags(tags)
    ensures |b| >= 8
  {
    if tags == [] then Bytes(0, 4) + Bytes(8, 4)
    else
      var t := tags[0];
      EncodeTag(t) + Zeros(t.Pitch() - t.Size()) + EncodeTags(tags[1..])
  }

  function AvailableSum(es: seq<Entry>): nat {
    if es == [] then 0 else (if es[0].kind == 1 then es[0].len else 0) + AvailableSum(es[1..])
  }

  /** What a tag leaves in the resource: a map its available memory, a refused one none. */
  function AfterTag(t: Tag, res: Resource): Resource
    requires t.Valid()
  {
    match t
    case Mmap(_, _, entries, _) => Resource(true, 0, Wrap(AvailableSum(entries)))
    case OverlappingMmap(payload) =>
      Resource(true, 0, Wrap(AvailableFrom(payload, 8, Le32(payload, 0), |payload|)))
    case RefusedMmap(_) => Resource(true, 0, 0)
    case Other(_, _) => res
  }

  /** What memory detection should report: the available memory of the first accepted map, or what the tags without one leave. */
  ghost function MemoryOf(tags: seq<Tag>, res: Resource): Resource
    requires ValidTags(tags)
  {
    if tags == [] then res
    else if tags[0].IsAccepted() then AfterTag(tags[0], res)
    else MemoryOf(tags[1..], AfterTag(tags[0], res))
  }

  /** Addresses of the tags up to the first accepted map, when the first tag is at `t`. */
  function AddressesUpToMap(tags: seq<Tag>, t: nat): seq<nat> {
    if tags == [] then []
    else if tags[0].IsAccepted() then [t]
    else [t] + AddressesUpToMap(tags[1..], t + tags[0].Pitch())
  }

  lemma {:induction false} BytesRead(m: seq<Byte>, a: nat, x: nat, k: nat)
    requires HeldAt(m, a, Bytes(x, k)) && x < Values(k)
    ensures LittleEndian(m, a, k) == x
    decreases k
  {
    if k > 0 {
      HeldParts(m, a, [x % 0x100], Bytes(x / 0x100, k - 1));
      assert m[a] == m[a..a + 1][0];
      BytesRead(m, a + 1, x / 0x100, k - 1);
    }
  }

  lemma WordRead(m: seq<Byte>, a: nat, x: nat)
    requires HeldAt(m, a, Bytes(x, 4)) && x < UINT32_VALUES
    ensures a + 4 <= |m| && Le32(m, a) == x
  {
    BytesRead(m, a, x, 4);
  }

  lemma LongRead(m: seq<Byte>, a: nat, x: nat)
    requires HeldAt(m, a, Bytes(x, 8)) && x < SIZE_VALUES
    ensures a + 8 <= |m| && Le64(m, a) == x
  {
    assert Values(8) == 0x1_0000_0000 * Values(4);
    BytesRead(m, a, x, 8);
  }

  lemma EntryRead(m: seq<Byte>, a: nat, e: Entry, entrySize: nat)
    requires entrySize >= MMAP_ENTRY && e.Valid() && HeldAt(m, a, EncodeEntry(e, entrySize))
    ensures a + MMAP_ENTRY <= |m| && Le64(m, a + 8) == e.len && Le32(m, a + 16) == e.kind
  {
    var p1, p2, p3 := Bytes(e.addr, 8), Bytes(e.len, 8), Bytes(e.kind, 4);
    var p4, p5 := Bytes(e.reserved, 4), Zeros(entrySize - MMAP_ENTRY);
    HeldParts(m, a, p1 + p2 + p3 + p4, p5);
    HeldParts(m, a, p1 + p2 + p3, p4);
    HeldParts(m, a, p1 + p2, p3);
    HeldParts(m, a, p1, p2);
    LongRead(m, a + 8, e.len);
    WordRead(m, a + 16, e.kind);
  }

  lemma {:induction false} EntriesRead(m: seq<Byte>, p: nat, es: seq<Entry>, entrySize: nat, end: nat)
    requires entrySize >= MMAP_ENTRY && (forall e | e in es :: e.Valid())
    requires HeldAt(m, p, EncodeEntries(es, entrySize)) && end <= |m|
    requires p + |EncodeEntries(es, entrySize)| <= end < p + |EncodeEntries(es, entrySize)| + entrySize
    ensures AvailableFrom(m, p, entrySize, end) == AvailableSum(es)
    decreases |es|
  {
    if es != [] {
      HeldParts(m, p, EncodeEntry(es[0], entrySize), EncodeEntries(es[1..], entrySize));
      EntryRead(m, p, es[0], entrySize);
      EntriesRead(m, p + entrySize, es[1..], entrySize, end);
    }
  }

  lemma HeadRead(m: seq<Byte>, a: nat, kind: nat, size: nat)
    requires kind < UINT32_VALUES && size < UINT32_VALUES && HeldAt(m, a, Bytes(kind, 4) + Bytes(size, 4))
    ensures a + 8 <= |m| && Le32(m, a) == kind && Le32(m, a + 4) == size
  {
    HeldParts(m, a, Bytes(kind, 4), Bytes(size, 4));
    WordRead(m, a, kind);
    WordRead(m, a + 4, size);
  }

  lemma TagHead(m: seq<Byte>, a: nat, t: Tag)
    requires t.Valid() && HeldAt(m, a, EncodeTag(t))
    ensures a + t.Size() <= |m| && Le32(m, a) == t.Kind() && Le32(m, a + 4) == t.Size()
    ensures HeldAt(m, a + 8, TagBody(t))
  {
    HeldParts(m, a, Bytes(t.Kind(), 4) + Bytes(t.Size(), 4), TagBody(t));
    HeadRead(m, a, t.Kind(), t.Size());
  }

  lemma StrideExact(size: nat)
    requires size <= UINT32_VALUES - 8
    ensures Stride(size) == Align(size, 8)
  {
  }

  lemma MmapParts(m: seq<Byte>, a: nat, t: Tag)
    requires t.Valid() && t.Mmap? && HeldAt(m, a + 8, TagBody(t))
    ensures HeldAt(m, a + 8, Bytes(t.entrySize, 4)) && HeldAt(m, a + 16, EncodeEntries(t.entries, t.entrySize))
    ensures a + 16 + |EncodeEntries(t.entries, t.entrySize)| + |t.rest| == a + t.Size() <= |m|
  {
    var b1, b2, es := Bytes(t.entrySize, 4), Bytes(t.version, 4), EncodeEntries(t.entries, t.entrySize);
    HeldParts(m, a + 8, b1 + b2 + es, t.rest);
    HeldParts(m, a + 8, b1 + b2, es);
    HeldParts(m, a + 8, b1, b2);
  }

  lemma MmapRead(m: seq<Byte>, a: nat, t: Tag)
    requires t.Valid() && t.Mmap? && HeldAt(m, a + 8, TagBody(t))
    ensures a + 12 <= |m| && Le32(m, a + 8) == t.entrySize
    ensures a + t.Size() <= |m|
    ensures AvailableFrom(m, a + MMAP_HEADER, t.entrySize, a + t.Size()) == AvailableSum(t.entries)
  {
    MmapParts(m, a, t);
    WordRead(m, a + 8, t.entrySize);
    EntriesRead(m, a + 16, t.entries, t.entrySize, a + t.Size());
  }

  /** The callback reads the entry size even of a tag too small for it, so four more bytes must be there. */
  lemma RefusedRead(m: seq<Byte>, a: nat, t: Tag)
    requires t.Valid() && t.RefusedMmap? && HeldAt(m, a + 8, t.payload) && a + 12 <= |m|
    ensures Le32(m, a + 8) == 0 || t.Size() < MMAP_HEADER
  {
    if t.Size() >= MMAP_HEADER {
      var p := t.payload;
      forall j | a + 8 <= j < a + 12
        ensures m[j] == 0
      {
        assert m[j] == m[a + 8..a + 8 + |p|][j - (a + 8)] == p[..4][j - (a + 8)];
      }
      ZeroBytes(m, a + 8, 4);
    }
  }

  lemma OverlappingRead(m: seq<Byte>, a: nat, t: Tag)
    requires t.Valid() && t.OverlappingMmap? && HeldAt(m, a + 8, t.payload)
    ensures a + 12 <= |m| && a + t.Size() <= |m| && Le32(m, a + 8) == Le32(t.payload, 0)
    ensures AvailableFrom(m, a + MMAP_HEADER, Le32(m, a + 8), a + t.Size())
         == AvailableFrom(t.payload, TAG_HEADER, Le32(t.payload, 0), |t.payload|)
  {
    var p := t.payload;
    assert p[0..0 + |p|] == p;
    SameWord(m, a + 8, p, 0, |p|, 0);
    SameAvailable(m, a + 8, p, 0, |p|, TAG_HEADER, Le32(p, 0), |p|);
  }

  /** What the walk does at an encoded tag with another one behind it. */
  lemma TagRead(m: seq<Byte>, a: nat, t: Tag, res: Resource)
    requires t.Valid() && HeldAt(m, a, EncodeTag(t)) && a + t.Pitch() + TAG_HEADER <= |m|
    ensures Readable(m, a, |m|) && Le32(m, a) == t.Kind() && NextTag(m, a) == a + t.Pitch()
    ensures Accepts(m, a) == t.IsAccepted()
    ensures Detect(m, a, res) == AfterTag(t, res)
  {
    TagHead(m, a, t);
    StrideExact(t.Size());
    if t.Mmap? {
      MmapRead(m, a, t);
    } else if t.OverlappingMmap? {
      OverlappingRead(m, a, t);
    } else if t.RefusedMmap? {
      RefusedRead(m, a, t);
    }
  }

  /** Each tag lies where the walk from the one before it arrives, and an end tag closes the list. */
  ghost predicate LaidOut(m: seq<Byte>, a: nat, tags: seq<Tag>)
    requires ValidTags(tags)
    decreases |tags|
  {
    if tags == [] then a + TAG_HEADER <= |m| && Le32(m, a) == TAG_TYPE_END
    else HeldAt(m, a, EncodeTag(tags[0])) && LaidOut(m, a + tags[0].Pitch(), tags[1..])
  }

  lemma {:induction false} EncodingLaidOut(m: seq<Byte>, a: nat, tags: seq<Tag>)
    requires ValidTags(tags) && HeldAt(m, a, EncodeTags(tags))
    ensures LaidOut(m, a, tags)
    decreases |tags|
  {
    if tags == [] {
      HeadRead(m, a, TAG_TYPE_END, TAG_HEADER);
    } else {
      var t := tags[0];
      var pad := Zeros(t.Pitch() - t.Size());
      HeldParts(m, a, EncodeTag(t) + pad, EncodeTags(tags[1..]));
      HeldParts(m, a, EncodeTag(t), pad);
      EncodingLaidOut(m, a + t.Pitch(), tags[1..]);
    }
  }

  lemma LaidOutInside(m: seq<Byte>, a: nat, tags: seq<Tag>)
    requires ValidTags(tags) && LaidOut(m, a, tags)
    ensures a + TAG_HEADER <= |m|
  {
  }

  lemma FirstTagRead(m: seq<Byte>, a: nat, tags: seq<Tag>, res: Resource)
    requires tags != [] && ValidTags(tags) && LaidOut(m, a, tags)
    ensures Readable(m, a, |m|) && Le32(m, a) != TAG_TYPE_END && Accepts(m, a) == tags[0].IsAccepted()
    ensures NextTag(m, a) == a + tags[0].Pitch() && Detect(m, a, res) == AfterTag(tags[0], res)
    ensures ValidTags(tags[1..]) && LaidOut(m, a + tags[0].Pitch(), tags[1..])
  {
    LaidOutInside(m, a + tags[0].Pitch(), tags[1..]);
    TagRead(m, a, tags[0], res);
  }

  /** What the layout says about a walk of `n` steps from `a`. */
  ghost predicate Reads(m: seq<Byte>, a: nat, n: nat, tags: seq<Tag>, res: Resource)
    requires ValidTags(tags)
  {
    && Walkable(m, a, |m|, n) && WalkResult(m, a, n, res) == MemoryOf(tags, res)
    && Visited(m, a, n) == AddressesUpToMap(tags, a)
  }

  lemma ReadsAccepted(m: seq<Byte>, a: nat, n: nat, tags: seq<Tag>, res: Resource)
    requires n > 0 && tags != [] && ValidTags(tags) && tags[0].IsAccepted()
    requires Readable(m, a, |m|) && Accepts(m, a) && Detect(m, a, res) == AfterTag(tags[0], res)
    ensures Reads(m, a, n, tags, res)
  {
    WalkStops(m, a, n, res);
  }

  lemma ReadsOn(m: seq<Byte>, a: nat, n: nat, tags: seq<Tag>, res: Resource)
    requires n > 0 && tags != [] && ValidTags(tags) && !tags[0].IsAccepted() && ValidTags(tags[1..])
    requires Readable(m, a, |m|) && Le32(m, a) != TAG_TYPE_END && !Accepts(m, a)
    requires NextTag(m, a) == a + tags[0].Pitch() && Detect(m, a, res) == AfterTag(tags[0], res)
    requires Reads(m, a + tags[0].Pitch(), n - 1, tags[1..], AfterTag(tags[0], res))
    ensures Reads(m, a, n, tags, res)
  {
    WalkOn(m, a, n, a + tags[0].Pitch(), res);
  }

  lemma {:induction false} LayoutWalked(m: seq<Byte>, a: nat, tags: seq<Tag>, res: Resource)
    requires ValidTags(tags) && LaidOut(m, a, tags)
    ensures Reads(m, a, |tags|, tags, res)
    decreases |tags|
  {
    if tags != [] {
      FirstTagRead(m, a, tags, res);
      if tags[0].IsAccepted() {
        ReadsAccepted(m, a, |tags|, tags, res);
      } else {
        LayoutWalked(m, a + tags[0].Pitch(), tags[1..], AfterTag(tags[0], res));
        ReadsOn(m, a, |tags|, tags, res);
      }
    }
  }

  /** The walk over the encoding of any list of tags stops, has visited exactly the tags up to the first accepted map, in order,
      and reports the available memory of that map; a refused map resets what was reported and is passed over. */
  lemma WalkReadsEncoding(m: seq<Byte>, a: nat, tags: seq<Tag>)
    requires ValidTags(tags) && HeldAt(m, a, EncodeTags(tags))
    ensures Walkable(m, a, |m|, |tags|)
    ensures WalkResult(m, a, |tags|, NO_RESOURCE) == MemoryOf(tags, NO_RESOURCE)
    ensures Visited(m, a, |tags|) == AddressesUpToMap(tags, a)
  {
    EncodingLaidOut(m, a, tags);
    LayoutWalked(m, a, tags, NO_RESOURCE);
  }

  /** A number of four bytes, written out. */
  lemma FourBytes(m: seq<Byte>, a: nat)
    requires a + 4 <= |m|
    ensures Le32(m, a)
         == m[a] as int + 0x100 * (m[a + 1] as int) + 0x1_0000 * (m[a + 2] as int) + 0x100_0000 * (m[a + 3] as int)
  {
    assert LittleEndian(m, a + 4, 0) == 0;
    assert LittleEndian(m, a + 3, 1) == m[a + 3] as int;
    assert LittleEndian(m, a + 2, 2) == m[a + 2] as int + 0x100 * LittleEndian(m, a + 3, 1);
    assert LittleEndian(m, a + 1, 3) == m[a + 1] as int + 0x100 * LittleEndian(m, a + 2, 2);
  }

  /** A number of eight bytes is two of four, the low one first. */
  lemma {:induction false} EightBytes(m: seq<Byte>, a: nat)
    requires a + 8 <= |m|
    ensures Le64(m, a) == Le32(m, a) + 0x1_0000_0000 * Le32(m, a + 4)
  {
    Joined(m, a, 4);
  }

  lemma {:induction false} Joined(m: seq<Byte>, a: nat, k: nat)
    requires a + k + 4 <= |m|
    ensures LittleEndian(m, a, k + 4) == LittleEndian(m, a, k) + Values(k) * LittleEndian(m, a + k, 4)
    decreases k
  {
    if k > 0 {
      Joined(m, a + 1, k - 1);
      var v, w := Values(k - 1), LittleEndian(m, a + k, 4);
      assert a + 1 + (k - 1) == a + k;
      assert Values(k) * w == 0x100 * (v * w);
    }
  }

  /** The lengths of those of the first `n` entries from `p` on that are of type 1. */
  function EntrySum(m: seq<Byte>, p: nat, entrySize: nat, n: nat): nat
    requires n > 0 ==> p + entrySize * (n - 1) + 24 <= |m|
    decreases n
  {
    if n == 0 then 0
    else (if Le32(m, p + 16) == 1 then Le64(m, p + 8) else 0) + EntrySum(m, p + entrySize, entrySize, n - 1)
  }

  /** Entries from `p` on that lie before `end`, both in the size the tag gives and in their own of 24 bytes. */
  predicate EntriesFit(p: nat, entrySize: nat, end: nat, n: nat) {
    p + entrySize * n <= end && (n > 0 ==> p + entrySize * (n - 1) + 24 <= end)
  }

  lemma NextFits(p: nat, entrySize: nat, end: nat, n: nat)
    requires n > 0 && EntriesFit(p, entrySize, end, n)
    ensures p + entrySize <= end && p + 24 <= end && EntriesFit(p + entrySize, entrySize, end, n - 1)
    ensures EntriesFit(p + entrySize, entrySize, end, n) <==> EntriesFit(p, entrySize, end, n + 1)
  {
    assert entrySize * n == entrySize + entrySize * (n - 1);
    assert entrySize * (n + 1) == entrySize + entrySize * n;
    assert entrySize * (n - 1) >= 0;
    if n > 1 {
      assert entrySize * (n - 1) == entrySize + entrySize * (n - 2);
    }
  }

  /** Whatever the entry size, memory detection adds up the most entries that fit. */
  lemma {:induction false} SumOfFitting(m: seq<Byte>, p: nat, entrySize: nat, end: nat, n: nat)
    requires end <= |m| && entrySize > 0 && EntriesFit(p, entrySize, end, n) && !EntriesFit(p, entrySize, end, n + 1)
    ensures AvailableFrom(m, p, entrySize, end) == EntrySum(m, p, entrySize, n)
    decreases n
  {
    if n > 0 {
      NextFits(p, entrySize, end, n);
      SumOfFitting(m, p + entrySize, entrySize, end, n - 1);
    }
  }

  /** Four bytes of memory. */
  predicate Row(m: seq<Byte>, a: nat, b0: Byte, b1: Byte, b2: Byte, b3: Byte) {
    a + 4 <= |m| && m[a] == b0 && m[a + 1] == b1 && m[a + 2] == b2 && m[a + 3] == b3
  }

  /** A map of three entries byte by byte: 636 KB available, 4 KB reserved, 127 MB available, and the closing tag. */
  predicate RawMap(m: seq<Byte>) {
    && Row(m, 0, 6, 0, 0, 0) && Row(m, 4, 88, 0, 0, 0) && Row(m, 8, 24, 0, 0, 0) && Row(m, 12, 0, 0, 0, 0)
    && Row(m, 24, 0, 0xF0, 9, 0) && Row(m, 28, 0, 0, 0, 0) && Row(m, 32, 1, 0, 0, 0)
    && Row(m, 48, 0, 0x10, 0, 0) && Row(m, 52, 0, 0, 0, 0) && Row(m, 56, 2, 0, 0, 0)
    && Row(m, 72, 0, 0, 0xF0, 7) && Row(m, 76, 0, 0, 0, 0) && Row(m, 80, 1, 0, 0, 0)
    && Row(m, 88, 0, 0, 0, 0) && Row(m, 92, 8, 0, 0, 0)
  }

  lemma RowRead(m: seq<Byte>, a: nat, b0: Byte, b1: Byte, b2: Byte, b3: Byte)
    requires Row(m, a, b0, b1, b2, b3)
    ensures Le32(m, a) == b0 as int + 0x100 * (b1 as int) + 0x1_0000 * (b2 as int) + 0x100_0000 * (b3 as int)
  {
    FourBytes(m, a);
  }

  /** An entry of a map in memory, by the numbers that count. */
  lemma EntryAt(m: seq<Byte>, p: nat, l0: Byte, l1: Byte, l2: Byte, l3: Byte, kind: Byte)
    requires p + 24 <= |m| && Row(m, p + 8, l0, l1, l2, l3) && Row(m, p + 12, 0, 0, 0, 0) && Row(m, p + 16, kind, 0, 0, 0)
    ensures Le64(m, p + 8) == l0 as int + 0x100 * (l1 as int) + 0x1_0000 * (l2 as int) + 0x100_0000 * (l3 as int)
    ensures Le32(m, p + 16) == kind as int
  {
    EightBytes(m, p + 8);
    RowRead(m, p + 8, l0, l1, l2, l3);
    RowRead(m, p + 12, 0, 0, 0, 0);
    RowRead(m, p + 16, kind, 0, 0, 0);
  }

  lemma RawSum(m: seq<Byte>, e: nat, end: nat)
    requires RawMap(m) && e == 24 && end == 88
    ensures AvailableFrom(m, 16, e, end) == 0x7F9_F000
  {
    EntryAt(m, 16, 0, 0xF0, 9, 0, 1);
    EntryAt(m, 40, 0, 0x10, 0, 0, 2);
    EntryAt(m, 64, 0, 0, 0xF0, 7, 1);
    assert AvailableFrom(m, 88, e, end) == 0;
    assert AvailableFrom(m, 64, e, end) == 0x7F0_0000;
    assert AvailableFrom(m, 40, e, end) == 0x7F0_0000;
  }

  /** On those bytes the walk stops at the map and reports the 0x7F9F000 available bytes. */
  lemma RawMapRead(m: seq<Byte>, n: nat)
    requires RawMap(m) && n > 0
    ensures Walkable(m, 0, |m|, n) && WalkResult(m, 0, n, NO_RESOURCE) == Resource(true, 0, 0x7F9_F000)
  {
    RowRead(m, 0, 6, 0, 0, 0);
    RowRead(m, 4, 88, 0, 0, 0);
    RowRead(m, 8, 24, 0, 0, 0);
    RawSum(m, Le32(m, 8), 88);
    WalkStops(m, 0, n, NO_RESOURCE);
  }

  /** A tag of type 0 closes the list. */
  lemma RawEndRead(m: seq<Byte>, n: nat)
    requires RawMap(m)
    ensures Walkable(m, 88, |m|, n) && Visited(m, 88, n) == []
  {
    RowRead(m, 88, 0, 0, 0, 0);
  }
}
