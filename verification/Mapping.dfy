/**
  What mapping one page means for the translation of an address.

  Everything here is about one address at a time: MapAt turns the translation an address had before
  a page was mapped into the one it has afterwards. The loops of the loader are folds over MapAt.
 */
module Mapping {
  import opened Bits
  import opened PageWalk
  import opened PageTree

  // The translation of v after one page of the given level was mapped at target, if it was t before
  function MapAt(t: Translation, target: u64, pa: u64, level: nat, flags: u64, v: u64): Translation
  {
    if Canonical(v) && Slot(v, level) == Slot(target, level) then EndOfWalk(LeafEntry(pa, flags), level, v) else t
  }

  // ---------------------------------------------------------------- one page

  lemma CanonicalLow(v: u64)
    requires Canonical(v)
    ensures v % VA_SPACE == if v < LOW_HALF_END then v else v - 0xFFFF_0000_0000_0000
  {
  }

  lemma SameBlock(a: nat, b: nat, level: nat)
    requires level <= 3 && a % Span(level) == 0
    ensures a / Span(level) == b / Span(level) <==> a <= b < a + Span(level)
  {
  }

  lemma HalvesAligned(level: nat)
    requires level <= 3
    ensures LOW_HALF_END % Span(level) == 0 && 0xFFFF_0000_0000_0000 % Span(level) == 0
  {
  }

  /** For an aligned page, the addresses served by its entry are the addresses of its bytes. */
  lemma SamePage(target: u64, v: u64, level: nat)
    requires level <= 3 && target % Span(level) == 0 && Canonical(target) && Canonical(v)
    ensures Slot(v, level) == Slot(target, level) <==> target <= v < target + Span(level)
  {
    CanonicalLow(target);
    CanonicalLow(v);
    LowAligned(target, level);
    SameBlock(target % VA_SPACE, v % VA_SPACE, level);
    PageWithinHalf(target, level);
  }

  lemma LowAligned(target: u64, level: nat)
    requires level <= 3 && target % Span(level) == 0 && Canonical(target)
    ensures target % VA_SPACE % Span(level) == 0
  {
    CanonicalLow(target);
    HalvesAligned(level);
    DifferenceAligned(target, 0xFFFF_0000_0000_0000, level);
  }

  lemma DifferenceAligned(a: int, b: int, level: nat)
    requires level <= 3 && a % Span(level) == 0 && b % Span(level) == 0
    ensures (a - b) % Span(level) == 0
  {
    DifferenceMultiple(a, b, Span(level));
  }

  lemma DifferenceMultiple(a: int, b: int, m: nat)
    requires m > 0 && a % m == 0 && b % m == 0
    ensures (a - b) % m == 0
  {
    var q := a / m - b / m;
    assert a - b == m * q by {
      assert a == m * (a / m) && b == m * (b / m);
      assert m * (a / m - b / m) == m * (a / m) - m * (b / m);
    }
    RemainderUnique(a - b, m, q, 0);
  }

  // An aligned page does not straddle the end of the lower half
  lemma PageWithinHalf(target: u64, level: nat)
    requires level <= 3 && target % Span(level) == 0 && Canonical(target)
    ensures target < LOW_HALF_END ==> target + Span(level) <= LOW_HALF_END
    ensures target + Span(level) <= 0x1_0000_0000_0000_0000
    ensures forall v: u64 :: target <= v < target + Span(level) ==> Canonical(v)
  {
  }

  function MemoryType(flags: u64, level: nat): nat
  {
    (if level == 3 && PageSize(flags) then 4 else 0) + CacheBits(flags)
  }

  /** The aligned case, in terms of addresses: every byte of the page goes to the same byte of the
      frame with the rights of the flags, and no other address is affected. */
  lemma AlignedPage(t: Translation, target: u64, pa: u64, level: nat, flags: u64, v: u64)
    requires 1 <= level <= 3 && Canonical(target) && Canonical(v)
    requires target % Span(level) == 0 && pa % Span(level) == 0 && pa < 0x10_0000_0000_0000
    requires Present(flags)
    ensures MapAt(t, target, pa, level, flags, v)
            == if target <= v < target + Span(level)
               then Mapped(pa + (v - target), Writable(flags), false, NoExecute(flags), MemoryType(flags, level))
               else t
  {
    SamePage(target, v, level);
    if target <= v < target + Span(level) {
      LeafEntryFields(pa, flags);
      AlignedFrame(pa, level);
      OffsetInPage(target, v, level);
    }
  }

  lemma AlignedFrame(pa: u64, level: nat)
    requires 1 <= level <= 3 && pa % Span(level) == 0 && pa < 0x10_0000_0000_0000
    ensures var n := Span(level) / PAGE_SIZE;
            pa / 0x1000 % FRAME_LIMIT % n == 0 && pa / 0x1000 % FRAME_LIMIT / n * Span(level) == pa
  {
    assert pa / 0x1000 < FRAME_LIMIT;
    FramesOfPage(pa, pa / Span(level), level);
  }

  lemma FramesOfPage(pa: nat, k: nat, level: nat)
    requires 1 <= level <= 3
    requires if level == 1 then pa == 0x4000_0000 * k else if level == 2 then pa == 0x20_0000 * k else pa == 0x1000 * k
    ensures pa / 0x1000 == if level == 1 then 0x4_0000 * k else if level == 2 then 0x200 * k else k
  {
  }

  lemma OffsetInPage(target: u64, v: u64, level: nat)
    requires level <= 3 && target % Span(level) == 0 && target <= v < target + Span(level)
    ensures v % Span(level) == v - target
  {
  }

  /** A page that is not aligned to its size is never the identity at its first byte: the hardware
      either finds reserved bits set or takes the lowest excess bit for a memory type. */
  lemma UnalignedPage(t: Translation, target: u64, level: nat, flags: u64)
    requires 1 <= level <= 2 && target < LOW_HALF_END && target % PAGE_SIZE == 0 && target % Span(level) != 0
    ensures MapAt(t, target, target, level, flags, target) != Mapped(target, true, false, false, 0)
  {
    LeafEntryFields(target, flags);
    UnalignedFrame(target, level);
  }

  lemma UnalignedFrame(pa: u64, level: nat)
    requires 1 <= level <= 2 && pa % PAGE_SIZE == 0 && pa % Span(level) != 0 && pa < 0x10_0000_0000_0000
    ensures pa / 0x1000 % FRAME_LIMIT % (Span(level) / PAGE_SIZE) != 0
  {
    FramesAlign(pa / 0x1000, level);
  }

  lemma FramesAlign(f: nat, level: nat)
    requires 1 <= level <= 2
    ensures f % (Span(level) / PAGE_SIZE) == 0 ==> 0x1000 * f % Span(level) == 0
  {
    if level == 1 {
      if f % 0x4_0000 == 0 {
        RemainderUnique(0x1000 * f, 0x4000_0000, f / 0x4_0000, 0);
      }
    } else if f % 0x200 == 0 {
      RemainderUnique(0x1000 * f, 0x20_0000, f / 0x200, 0);
    }
  }
}
