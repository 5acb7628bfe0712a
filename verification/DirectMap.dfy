/**
  DirectMapRange: a greedy mix of 1 GiB, 2 MiB and 4 KiB pages, and when it is an identity map.
 */
module DirectMap {
  import opened Bits
  import opened PageWalk
  import opened PageTree
  import opened Mapping

  // ---------------------------------------------------------------- the loop at one address

  // The level of the leaf that the loop writes when so many bytes remain
  function ChunkLevel(remaining: nat): (level: nat)
    ensures 1 <= level <= 3
  {
    if remaining >= HUGE_PAGE_SIZE then 1 else if remaining >= LARGE_PAGE_SIZE then 2 else 3
  }

  function ChunkFlags(level: nat): u64
  {
    if level == 3 then 3 else LargeFlags(3)
  }

  predicate PageRange(start: nat, end: nat)
  {
    start <= end < 0x1_0000_0000_0000_0000 && start % PAGE_SIZE == 0 && end % PAGE_SIZE == 0
  }

  lemma ChunkFits(cur: nat, end: nat)
    requires PageRange(cur, end) && cur < end
    ensures var next := cur + Span(ChunkLevel(end - cur)); next <= end && PageRange(next, end)
  {
  }

  // The translation of v after the loop has mapped [cur, end), if it was t before
  function DirectAt(t: Translation, cur: nat, end: nat, v: u64): Translation
    requires PageRange(cur, end)
    decreases end - cur
  {
    if cur == end then t
    else
      var level := ChunkLevel(end - cur);
      ChunkFits(cur, end);
      DirectAt(MapAt(t, cur, cur, level, ChunkFlags(level), v), cur + Span(level), end, v)
  }

  // The same range mapped with 4 KiB pages only
  function UniformAt(t: Translation, cur: nat, end: nat, v: u64): Translation
    requires PageRange(cur, end)
    decreases end - cur
  {
    if cur == end then t
    else UniformAt(MapAt(t, cur, cur, 3, ChunkFlags(3), v), cur + PAGE_SIZE, end, v)
  }

  function Identity(v: u64): Translation
  {
    Mapped(v, true, false, false, 0)
  }

  // ---------------------------------------------------------------- alignment

  // The range starts on a multiple of the largest page size that the loop will use
  predicate NaturallyAligned(start: nat, end: nat)
    requires start <= end
  {
    start < end ==> start % Span(ChunkLevel(end - start)) == 0
  }

  lemma AlignedStep(cur: nat, end: nat)
    requires PageRange(cur, end) && cur < end && NaturallyAligned(cur, end)
    ensures var next := cur + Span(ChunkLevel(end - cur)); next <= end && NaturallyAligned(next, end)
  {
    ChunkFits(cur, end);
    if end - cur >= HUGE_PAGE_SIZE {
      MultiplesOfHuge(cur / HUGE_PAGE_SIZE + 1);
    } else if end - cur >= LARGE_PAGE_SIZE {
      MultiplesOfLarge(cur / LARGE_PAGE_SIZE + 1);
    }
  }

  lemma MultiplesOfHuge(k: nat)
    ensures k * HUGE_PAGE_SIZE % HUGE_PAGE_SIZE == 0 && k * HUGE_PAGE_SIZE % LARGE_PAGE_SIZE == 0
    ensures k * HUGE_PAGE_SIZE % PAGE_SIZE == 0
  {
    assert k * HUGE_PAGE_SIZE == 512 * k * LARGE_PAGE_SIZE;
    MultiplesOfLarge(512 * k);
  }

  lemma MultiplesOfLarge(k: nat)
    ensures k * LARGE_PAGE_SIZE % LARGE_PAGE_SIZE == 0 && k * LARGE_PAGE_SIZE % PAGE_SIZE == 0
  {
    RemainderUnique(k * LARGE_PAGE_SIZE, LARGE_PAGE_SIZE, k, 0);
    RemainderUnique(k * LARGE_PAGE_SIZE, PAGE_SIZE, 512 * k, 0);
  }

  // The flags of a chunk are 3 or 0x83
  lemma ChunkFlagBits(level: nat)
    ensures ChunkFlags(level) == if level == 3 then 3 else 0x83
  {
    SetPageSize(3);
  }

  lemma FlagsOf83()
    ensures Present(0x83) && Writable(0x83) && !NoExecute(0x83) && CacheBits(0x83) == 0 && PageSize(0x83)
    ensures Present(3) && Writable(3) && !NoExecute(3) && CacheBits(3) == 0 && !PageSize(3)
  {
  }

  lemma DirectFlags()
    ensures forall level :: 1 <= level <= 3 ==>
              var f := ChunkFlags(level);
              Present(f) && Writable(f) && !NoExecute(f) && MemoryType(f, level) == 0
    ensures !RefersToTable(ChunkFlags(1), 1) && !RefersToTable(ChunkFlags(2), 2)
  {
    FlagsOf83();
    hide ChunkFlags, Present, Writable, NoExecute, CacheBits, PageSize;
    forall level | 1 <= level <= 3
      ensures ChunkFlags(level) == if level == 3 then 3 else 0x83
    {
      ChunkFlagBits(level);
    }
  }

  /** One aligned chunk is the identity on its bytes and nothing elsewhere. */
  lemma IdentityChunk(t: Translation, cur: nat, level: nat, v: u64)
    requires 1 <= level <= 3 && cur % Span(level) == 0 && cur + Span(level) <= LOW_HALF_END
    ensures MapAt(t, cur, cur, level, ChunkFlags(level), v)
            == if cur <= v < cur + Span(level) then Identity(v) else t
  {
    DirectFlags();
    if Canonical(v) {
      AlignedPage(t, cur, cur, level, ChunkFlags(level), v);
    }
  }

  /** A naturally aligned range in the lower half is mapped to itself, and nothing else changes. */
  lemma {:induction false} DirectIsIdentity(t: Translation, cur: nat, end: nat, v: u64)
    requires PageRange(cur, end) && end <= LOW_HALF_END && NaturallyAligned(cur, end)
    ensures DirectAt(t, cur, end, v) == if cur <= v < end then Identity(v) else t
    decreases end - cur
  {
    hide NaturallyAligned, ChunkLevel, ChunkFlags, MapAt, Identity, Span;
    if cur < end {
      var level := ChunkLevel(end - cur);
      ChunkFits(cur, end);
      AlignedStep(cur, end);
      AlignedChunk(cur, end);
      IdentityChunk(t, cur, level, v);
      DirectIsIdentity(MapAt(t, cur, cur, level, ChunkFlags(level), v), cur + Span(level), end, v);
    }
  }

  lemma AlignedChunk(cur: nat, end: nat)
    requires PageRange(cur, end) && cur < end && NaturallyAligned(cur, end)
    ensures cur % Span(ChunkLevel(end - cur)) == 0
  {
  }

  // ---------------------------------------------------------------- any range, even beyond 2^48

  const PA_SPACE := 0x10_0000_0000_0000   // 52 physical address bits

  // The last address below end that agrees with v in the 48 translated bits
  function LastAlias(end: nat, v: u64): int
  {
    end - 1 - (end - 1 - v) % VA_SPACE
  }

  // Every address with an alias in [cur, end) goes to the last of them, cut to the width of an entry
  function AliasAt(t: Translation, cur: nat, end: nat, v: u64): Translation
  {
    if cur < end && Canonical(v) && LastAlias(end, v) >= cur
    then Mapped(LastAlias(end, v) % PA_SPACE, true, false, false, 0) else t
  }

  lemma AliasInChunk(cur: nat, level: nat, end: nat, v: u64)
    requires 1 <= level <= 3 && cur % Span(level) == 0 && cur + Span(level) <= end < 0x1_0000_0000_0000_0000
    ensures var a := LastAlias(end, v);
            a < cur + Span(level) ==>
              && (Slot(v, level) == Slot(cur, level) <==> a >= cur)
              && (a >= cur ==> a == cur + v % Span(level))
  {
    hide LastAlias;
    var a := LastAlias(end, v);
    AliasAgrees(end, v);
    SlotOfMultiple(cur, level);
    SameBlock(cur % VA_SPACE, v % VA_SPACE, level);
    if Slot(v, level) == Slot(cur, level) {
      AliasOfSlot(cur, level, end, v);
    }
    if cur <= a < cur + Span(level) {
      OffsetAdds(cur, a - cur, level);
      SameOffset(v, a, level);
      OffsetInPage(cur, a, level);
    }
  }

  // An address in the slot of the chunk has an alias in the chunk
  lemma AliasOfSlot(cur: nat, level: nat, end: nat, v: u64)
    requires 1 <= level <= 3 && cur % Span(level) == 0 && cur + Span(level) <= end < 0x1_0000_0000_0000_0000
    requires Slot(v, level) == Slot(cur, level)
    ensures LastAlias(end, v) >= cur
  {
    hide LastAlias;
    SlotOfMultiple(cur, level);
    SameBlock(cur % VA_SPACE, v % VA_SPACE, level);
    OffsetAdds(cur, v % VA_SPACE - cur % VA_SPACE, level);
    LargestAlias(end, v, cur + (v % VA_SPACE - cur % VA_SPACE));
  }

  // Reducing modulo 2^48 or 2^52 keeps the offset in a page of any size
  lemma ReducedOffset(x: nat, level: nat)
    requires 1 <= level <= 3
    ensures x % VA_SPACE % Span(level) == x % Span(level) && x % PA_SPACE % Span(level) == x % Span(level)
  {
    var q, r, p, s := x / VA_SPACE, x % VA_SPACE, x / PA_SPACE, x % PA_SPACE;
    assert x == VA_SPACE * q + r == PA_SPACE * p + s;
    if level == 1 {
      HugeOffset(0x4_0000 * q, r);
      HugeOffset(0x40_0000 * p, s);
    } else if level == 2 {
      LargeOffset(0x800_0000 * q, r);
      LargeOffset(0x8000_0000 * p, s);
    } else {
      SmallOffset(0x10_0000_0000 * q, r);
      SmallOffset(0x100_0000_0000 * p, s);
    }
  }

  lemma HugeOffset(q: nat, r: nat)
    ensures (0x4000_0000 * q + r) % 0x4000_0000 == r % 0x4000_0000
  {
  }

  lemma LargeOffset(q: nat, r: nat)
    ensures (0x20_0000 * q + r) % 0x20_0000 == r % 0x20_0000
  {
  }

  lemma SmallOffset(q: nat, r: nat)
    ensures (0x1000 * q + r) % 0x1000 == r % 0x1000
  {
  }

  // An aligned page does not straddle a multiple of its size
  lemma RoomAbove(r: nat, level: nat)
    requires 1 <= level <= 3 && r % Span(level) == 0
    ensures r < VA_SPACE ==> r + Span(level) <= VA_SPACE
    ensures r < PA_SPACE ==> r + Span(level) <= PA_SPACE
  {
    if level == 1 {
      assert r == 0x4000_0000 * (r / 0x4000_0000);
    } else if level == 2 {
      assert r == 0x20_0000 * (r / 0x20_0000);
    } else {
      assert r == 0x1000 * (r / 0x1000);
    }
  }

  lemma SlotOfMultiple(cur: nat, level: nat)
    requires 1 <= level <= 3 && cur % Span(level) == 0
    ensures cur % VA_SPACE % Span(level) == 0 && cur % VA_SPACE + Span(level) <= VA_SPACE
  {
    ReducedOffset(cur, level);
    RoomAbove(cur % VA_SPACE, level);
  }

  lemma AliasAgrees(end: nat, v: u64)
    ensures LastAlias(end, v) % VA_SPACE == v % VA_SPACE && end - VA_SPACE <= LastAlias(end, v) < end
  {
  }

  lemma LargestAlias(end: nat, v: u64, b: nat)
    requires b < end && b % VA_SPACE == v % VA_SPACE
    ensures b <= LastAlias(end, v)
  {
    AliasAgrees(end, v);
  }

  lemma OffsetAdds(cur: nat, o: nat, level: nat)
    requires 1 <= level <= 3 && cur % Span(level) == 0 && o < Span(level)
    ensures (cur + o) % VA_SPACE == cur % VA_SPACE + o
  {
    SlotOfMultiple(cur, level);
    SumReduces(cur, o);
  }

  lemma SumReduces(cur: nat, o: nat)
    ensures cur % VA_SPACE + o < VA_SPACE ==> (cur + o) % VA_SPACE == cur % VA_SPACE + o
    ensures cur % PA_SPACE + o < PA_SPACE ==> (cur + o) % PA_SPACE == cur % PA_SPACE + o
  {
    if cur % VA_SPACE + o < VA_SPACE {
      RemainderUnique(cur + o, VA_SPACE, cur / VA_SPACE, cur % VA_SPACE + o);
    }
    if cur % PA_SPACE + o < PA_SPACE {
      RemainderUnique(cur + o, PA_SPACE, cur / PA_SPACE, cur % PA_SPACE + o);
    }
  }

  lemma SameOffset(v: nat, a: nat, level: nat)
    requires 1 <= level <= 3 && v % VA_SPACE == a % VA_SPACE
    ensures v % Span(level) == a % Span(level)
  {
    ReducedOffset(v, level);
    ReducedOffset(a, level);
  }

  // An aligned chunk at any address, for an address that it serves
  lemma ChunkServes(t: Translation, cur: nat, level: nat, v: u64)
    requires 1 <= level <= 3 && cur % Span(level) == 0 && cur < 0x1_0000_0000_0000_0000
    requires Canonical(v) && Slot(v, level) == Slot(cur, level)
    ensures MapAt(t, cur, cur, level, ChunkFlags(level), v)
            == Mapped((cur + v % Span(level)) % PA_SPACE, true, false, false, 0)
  {
    DirectFlags();
    LeafEntryFields(cur, ChunkFlags(level));
    CutFrame(cur, level);
    CutOffset(cur, v % Span(level), level);
  }

  lemma CutFrame(pa: nat, level: nat)
    requires 1 <= level <= 3 && pa % Span(level) == 0
    ensures var n := Span(level) / PAGE_SIZE;
            pa / 0x1000 % FRAME_LIMIT % n == 0 && pa / 0x1000 % FRAME_LIMIT / n * Span(level) == pa % PA_SPACE
  {
    var low, high := pa % PA_SPACE, pa / PA_SPACE;
    assert pa == PA_SPACE * high + low;
    assert pa / 0x1000 == FRAME_LIMIT * high + low / 0x1000;
    assert pa / 0x1000 % FRAME_LIMIT == low / 0x1000 % FRAME_LIMIT;
    CutAligned(pa, level);
    AlignedFrame(low, level);
  }

  lemma CutAligned(pa: nat, level: nat)
    requires 1 <= level <= 3 && pa % Span(level) == 0
    ensures pa % PA_SPACE % Span(level) == 0 && pa % PA_SPACE + Span(level) <= PA_SPACE
  {
    ReducedOffset(pa, level);
    RoomAbove(pa % PA_SPACE, level);
  }

  lemma CutOffset(cur: nat, o: nat, level: nat)
    requires 1 <= level <= 3 && cur % Span(level) == 0 && o < Span(level)
    ensures (cur + o) % PA_SPACE == cur % PA_SPACE + o
  {
    CutAligned(cur, level);
    SumReduces(cur, o);
  }

  lemma AliasChunk(t: Translation, cur: nat, level: nat, end: nat, v: u64)
    requires 1 <= level <= 3 && cur % Span(level) == 0 && cur + Span(level) <= end < 0x1_0000_0000_0000_0000
    ensures AliasAt(MapAt(t, cur, cur, level, ChunkFlags(level), v), cur + Span(level), end, v)
            == AliasAt(t, cur, end, v)
  {
    hide LastAlias, EndOfWalk, Slot, Span, ChunkFlags;
    if Canonical(v) {
      AliasInChunk(cur, level, end, v);
      AliasAgrees(end, v);
      if Slot(v, level) == Slot(cur, level) {
        ChunkServes(t, cur, level, v);
      }
    }
  }

  /** A naturally aligned range anywhere in the 64-bit space: where aliases collide the last one wins. */
  lemma {:induction false} DirectIsAlias(t: Translation, cur: nat, end: nat, v: u64)
    requires PageRange(cur, end) && NaturallyAligned(cur, end)
    ensures DirectAt(t, cur, end, v) == AliasAt(t, cur, end, v)
    decreases end - cur
  {
    if cur < end {
      var level := ChunkLevel(end - cur);
      ChunkFits(cur, end);
      AlignedStep(cur, end);
      AliasChunk(t, cur, level, end, v);
      hide AliasAt, MapAt, NaturallyAligned, ChunkFlags;
      DirectIsAlias(MapAt(t, cur, cur, level, ChunkFlags(level), v), cur + Span(level), end, v);
    }
  }

  lemma {:induction false} UniformIsAlias(t: Translation, cur: nat, end: nat, v: u64)
    requires PageRange(cur, end)
    ensures UniformAt(t, cur, end, v) == AliasAt(t, cur, end, v)
    decreases end - cur
  {
    if cur < end {
      AliasChunk(t, cur, 3, end, v);
      hide AliasAt, MapAt, ChunkFlags;
      UniformIsAlias(MapAt(t, cur, cur, 3, ChunkFlags(3), v), cur + PAGE_SIZE, end, v);
    }
  }

  /** Mixing page sizes gives every address the translation that 4 KiB pages alone would give it, for every
      naturally aligned range. */
  lemma MixedEqualsUniform(t: Translation, start: nat, end: nat, v: u64)
    requires PageRange(start, end) && NaturallyAligned(start, end)
    ensures DirectAt(t, start, end, v) == UniformAt(t, start, end, v)
  {
    DirectIsAlias(t, start, end, v);
    UniformIsAlias(t, start, end, v);
  }

  // ---------------------------------------------------------------- when alignment fails

  /** Later chunks lie in later blocks: they leave the start of an earlier chunk alone. */
  lemma {:induction false} LaterChunksMiss(t: Translation, cur: nat, end: nat, v: u64)
    requires PageRange(cur, end) && cur < end ==> v + Span(ChunkLevel(end - cur)) <= cur
    requires PageRange(cur, end) && end <= VA_SPACE
    ensures DirectAt(t, cur, end, v) == t
    decreases end - cur
  {
    if cur < end {
      var level := ChunkLevel(end - cur);
      ChunkFits(cur, end);
      EarlierSlot(v, cur, level);
      LaterChunksMiss(t, cur + Span(level), end, v);
    }
  }

  lemma EarlierSlot(v: u64, cur: nat, level: nat)
    requires level <= 3 && v + Span(level) <= cur < VA_SPACE
    ensures Slot(v, level) != Slot(cur, level)
  {
  }

  /** A first chunk that is not aligned gets its own first address wrong, and nothing repairs that. */
  lemma MisalignedStays(t: Translation, start: nat, end: nat)
    requires PageRange(start, end) && end <= LOW_HALF_END && !NaturallyAligned(start, end)
    ensures DirectAt(t, start, end, start) != Identity(start)
  {
    var level := ChunkLevel(end - start);
    ChunkFits(start, end);
    UnalignedPage(t, start, level, ChunkFlags(level));
    LaterChunksMiss(MapAt(t, start, start, level, ChunkFlags(level), start), start + Span(level), end, start);
  }

  // No walk yields a physical address of more than 52 bits
  predicate BelowLimit(t: Translation)
  {
    t.Mapped? ==> t.pa < PA_SPACE
  }

  lemma LeafBelowLimit(e: u64, level: nat, v: u64, r: Rights)
    requires level <= 3
    ensures level > 0 ==> BelowLimit(LeafPage(e, level, v, r))
  {
    if level == 1 {
      assert FrameOf(e) / 0x4_0000 < 0x40_0000;
    } else if level == 2 {
      assert FrameOf(e) / 0x200 < 0x8000_0000;
    }
  }

  lemma {:induction false} WalkBelowLimit(mem: Memory, frame: nat, level: nat, v: u64, r: Rights)
    requires level <= 3
    ensures BelowLimit(WalkFrom(mem, frame, level, v, r))
    decreases 3 - level
  {
    var e := Entry(mem, frame, Index(v, level));
    LeafBelowLimit(e, level, v, Restrict(r, e));
    hide LeafPage, BelowLimit;
    if Present(e) && !(level == 0 && PageSize(e)) && !IsLeaf(e, level) {
      WalkBelowLimit(mem, FrameOf(e), level + 1, v, Restrict(r, e));
    } else if !IsLeaf(e, level) || !Present(e) {
      FaultBelowLimit();
    }
  }

  lemma FaultBelowLimit()
    ensures BelowLimit(Fault)
  {
  }

  lemma {:induction false} DirectBelowLimit(t: Translation, cur: nat, end: nat, v: u64)
    requires PageRange(cur, end) && BelowLimit(t)
    ensures BelowLimit(DirectAt(t, cur, end, v))
    decreases end - cur
  {
    if cur < end {
      var level := ChunkLevel(end - cur);
      ChunkFits(cur, end);
      MapBelowLimit(t, cur, level, v);
      hide BelowLimit, MapAt, ChunkFlags;
      DirectBelowLimit(MapAt(t, cur, cur, level, ChunkFlags(level), v), cur + Span(level), end, v);
    }
  }

  lemma MapBelowLimit(t: Translation, cur: u64, level: nat, v: u64)
    requires 1 <= level <= 3 && BelowLimit(t)
    ensures BelowLimit(MapAt(t, cur, cur, level, ChunkFlags(level), v))
  {
    var e := LeafEntry(cur, ChunkFlags(level));
    LeafBelowLimit(e, level, v, Restrict(TableRights(level), e));
    FaultBelowLimit();
  }

  /** DirectMapRange tests only that its bounds are page-aligned. It maps [start, end) to itself
      exactly when the start is also a multiple of the first page size it chooses, and the range ends
      in the lower half. */
  lemma IdentityExactlyWhen(mem: Memory, root: nat, start: nat, end: nat)
    requires PageRange(start, end) && start < end
    ensures (forall v: u64 :: start <= v < end ==> DirectAt(Translate(mem, root, v), start, end, v) == Identity(v))
            <==> NaturallyAligned(start, end) && end <= LOW_HALF_END
  {
    hide DirectAt, Translate;
    if end > LOW_HALF_END {
      var v: u64 := end - 1;
      TopIsNoIdentity(mem, root, start, end);
      assert start <= v < end && DirectAt(Translate(mem, root, v), start, end, v) != Identity(v);
    } else if NaturallyAligned(start, end) {
      forall v: u64 | start <= v < end
        ensures DirectAt(Translate(mem, root, v), start, end, v) == Identity(v)
      {
        DirectIsIdentity(Translate(mem, root, v), start, end, v);
      }
    } else {
      MisalignedStays(Translate(mem, root, start), start, end);
      assert DirectAt(Translate(mem, root, start), start, end, start) != Identity(start);
    }
  }

  /** The last byte of a range beyond the lower half is not canonical, or has too many address bits. */
  lemma TopIsNoIdentity(mem: Memory, root: nat, start: nat, end: nat)
    requires PageRange(start, end) && start < end && end > LOW_HALF_END
    ensures DirectAt(Translate(mem, root, end - 1), start, end, end - 1) != Identity(end - 1)
  {
    hide WalkFrom, DirectAt;
    var v: u64 := end - 1;
    if Canonical(v) {
      WalkBelowLimit(mem, root, 0, v, AllRights);
      DirectBelowLimit(Translate(mem, root, v), start, end, v);
    } else {
      NonCanonicalFaults(Fault, start, end, v);
    }
  }

  lemma {:induction false} NonCanonicalFaults(t: Translation, cur: nat, end: nat, v: u64)
    requires PageRange(cur, end) && !Canonical(v)
    ensures DirectAt(t, cur, end, v) == t
    decreases end - cur
  {
    if cur < end {
      ChunkFits(cur, end);
      NonCanonicalFaults(t, cur + Span(ChunkLevel(end - cur)), end, v);
    }
  }

  // ---------------------------------------------------------------- the chunks

  datatype Chunk = Chunk(address: nat, level: nat)

  // The pages that the loop maps, in order
  function Chunks(cur: nat, end: nat): seq<Chunk>
    requires PageRange(cur, end)
    decreases end - cur
  {
    if cur == end then []
    else
      var level := ChunkLevel(end - cur);
      ChunkFits(cur, end);
      [Chunk(cur, level)] + Chunks(cur + Span(level), end)
  }

  // Consecutive pages from start to end, without a gap and without an overlap
  ghost predicate Tiles(chunks: seq<Chunk>, start: nat, end: nat)
  {
    if chunks == [] then start == end
    else chunks[0].address == start && Tiles(chunks[1..], start + Span(chunks[0].level), end)
  }

  /** From an aligned start the pages tile the range, and each starts on a multiple of its size. */
  lemma {:induction false} ChunksTile(cur: nat, end: nat)
    requires PageRange(cur, end) && NaturallyAligned(cur, end)
    ensures Tiles(Chunks(cur, end), cur, end)
    ensures forall k :: 0 <= k < |Chunks(cur, end)| ==>
              var c := Chunks(cur, end)[k];
              1 <= c.level <= 3 && c.address % Span(c.level) == 0 && cur <= c.address
                && c.address + Span(c.level) <= end
    decreases end - cur
  {
    if cur < end {
      ChunkFits(cur, end);
      AlignedStep(cur, end);
      var level := ChunkLevel(end - cur);
      var rest := Chunks(cur + Span(level), end);
      ChunksTile(cur + Span(level), end);
      assert Chunks(cur, end)[1..] == rest;
      forall k | 0 <= k < |Chunks(cur, end)|
        ensures var c := Chunks(cur, end)[k];
                1 <= c.level <= 3 && c.address % Span(c.level) == 0 && cur <= c.address
                  && c.address + Span(c.level) <= end
      {
        assert k > 0 ==> Chunks(cur, end)[k] == rest[k - 1];
      }
    }
  }

  // Leaves for n bytes: as many huge pages as fit, then large ones, then small ones
  function LeafCount(n: nat): nat
  {
    n / HUGE_PAGE_SIZE + n % HUGE_PAGE_SIZE / LARGE_PAGE_SIZE + n % LARGE_PAGE_SIZE / PAGE_SIZE
  }

  lemma LeafCountOf(a: nat, b: nat, c: nat)
    requires b < 512 && c < 512
    ensures LeafCount(HUGE_PAGE_SIZE * a + LARGE_PAGE_SIZE * b + PAGE_SIZE * c) == a + b + c
  {
    var n := HUGE_PAGE_SIZE * a + LARGE_PAGE_SIZE * b + PAGE_SIZE * c;
    var r := LARGE_PAGE_SIZE * b + PAGE_SIZE * c;
    RemainderUnique(n, HUGE_PAGE_SIZE, a, r);
    RemainderUnique(r, LARGE_PAGE_SIZE, b, PAGE_SIZE * c);
    RemainderUnique(n, LARGE_PAGE_SIZE, 512 * a + b, PAGE_SIZE * c);
    RemainderUnique(PAGE_SIZE * c, PAGE_SIZE, c, 0);
  }

  // n bytes as digits of base 512 in units of the three page sizes
  lemma PageDigits(n: nat) returns (a: nat, b: nat, c: nat)
    requires n % PAGE_SIZE == 0
    ensures b < 512 && c < 512 && n == HUGE_PAGE_SIZE * a + LARGE_PAGE_SIZE * b + PAGE_SIZE * c
  {
    var p := n / PAGE_SIZE;
    a, b, c := p / 0x4_0000, p / 512 % 512, p % 512;
    assert p == 0x4_0000 * a + 512 * b + c by {
      assert p / 512 / 512 == a;
    }
  }

  lemma LeafCountGrows(n: nat, level: nat)
    requires n % PAGE_SIZE == 0 && 1 <= level <= 3
    ensures LeafCount(n + Span(level)) <= LeafCount(n) + 1
  {
    var a, b, c := PageDigits(n);
    LeafCountOf(a, b, c);
    if level == 1 {
      LeafCountOf(a + 1, b, c);
    } else if level == 2 {
      if b < 511 { LeafCountOf(a, b + 1, c); } else { LeafCountOf(a + 1, 0, c); }
    } else if c < 511 {
      LeafCountOf(a, b, c + 1);
    } else if b < 511 {
      LeafCountOf(a, b + 1, 0);
    } else {
      LeafCountOf(a + 1, 0, 0);
    }
  }

  lemma ChunkCounts(n: nat)
    requires n % PAGE_SIZE == 0 && n > 0
    ensures Span(ChunkLevel(n)) <= n && LeafCount(n) == LeafCount(n - Span(ChunkLevel(n))) + 1
  {
    var a, b, c := PageDigits(n);
    LeafCountOf(a, b, c);
    if a > 0 {
      LeafCountOf(a - 1, b, c);
    } else if b > 0 {
      LeafCountOf(a, b - 1, c);
    } else {
      LeafCountOf(a, b, c - 1);
    }
  }

  /** The loop writes LeafCount leaves. */
  lemma {:induction false} ChunksCounted(cur: nat, end: nat)
    requires PageRange(cur, end)
    ensures |Chunks(cur, end)| == LeafCount(end - cur)
    decreases end - cur
  {
    if cur < end {
      ChunkFits(cur, end);
      ChunkCounts(end - cur);
      hide LeafCount, ChunkLevel, Span, PageRange;
      ChunksCounted(cur + Span(ChunkLevel(end - cur)), end);
    }
  }

  /** No tiling by these three page sizes uses fewer leaves. */
  lemma {:induction false} GreedyIsOptimal(tiling: seq<Chunk>, start: nat, end: nat)
    requires forall k :: 0 <= k < |tiling| ==> 1 <= tiling[k].level <= 3
    requires Tiles(tiling, start, end)
    ensures start <= end && (end - start) % PAGE_SIZE == 0 && LeafCount(end - start) <= |tiling|
  {
    if tiling != [] {
      var level := tiling[0].level;
      GreedyIsOptimal(tiling[1..], start + Span(level), end);
      var n := end - start - Span(level);
      LeafCountGrows(n, level);
      assert n + Span(level) == end - start;
      SumOfPages(n, level);
    } else {
      LeafCountOf(0, 0, 0);
    }
  }

  lemma SumOfPages(n: nat, level: nat)
    requires n % PAGE_SIZE == 0 && 1 <= level <= 3
    ensures (n + Span(level)) % PAGE_SIZE == 0
  {
  }
}
