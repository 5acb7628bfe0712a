/**
  The complete translation of the kernel's addresses after MapKernel: which section, or the headers, decides an
  address, and with what rights. The code makes writable what is not marked writable, and the other way round.
 */
module KernelRights {
  import opened Bits
  import opened PageWalk
  import opened Mapping
  import opened Paging
  import opened ByteOrder
  import opened Pe
  import opened ImageMemory
  import opened KernelMap

  // ---------------------------------------------------------------- the view, section by section

  // The pages of the section hold the offset
  predicate OnPagesOf(s: Section, x: nat)
  {
    s.virtualAddress <= x && (x - s.virtualAddress) / 0x1000 * 0x1000 < s.virtualSize
  }

  // An offset that was translated as t before the sections were mapped: the last section on whose pages it lies
  // decides, and its page is writable exactly if the section is not marked so
  function SectionView(t: Translation, sections: seq<Section>, base: nat, x: nat): Translation
  {
    if sections == [] then t
    else
      var s := sections[|sections| - 1];
      if OnPagesOf(s, x) then Mapped(base + x, s.characteristics < 0x8000_0000, false, false, 0)
      else SectionView(t, sections[..|sections| - 1], base, x)
  }

  // The headers, which are mapped first, are writable
  function HeaderView(t: Translation, headers: nat, base: nat, x: nat): Translation
  {
    if x / 0x1000 * 0x1000 < headers then Mapped(base + x, true, false, false, 0) else t
  }

  // Every address from the virtual base on is translated accordingly
  ghost predicate KernelViews(s0: Snapshot, s: Snapshot, img: Bytes, base: nat, newBase: nat)
    requires TableFits(img)
  {
    forall v: u64 :: v >= newBase && Canonical(v) ==>
      s.View(v)
      == SectionView(HeaderView(s0.View(v), SizeOfHeaders(img), base, v - newBase), Sections(img), base, v - newBase)
  }

  // ---------------------------------------------------------------- one run of pages

  // Where the run lies: page-aligned and in canonical addresses
  ghost predicate RunFits(base: nat, newBase: nat, rva: nat, size: nat)
  {
    && base % PAGE_SIZE == 0 && newBase % PAGE_SIZE == 0 && rva % PAGE_SIZE == 0
    && base + rva + size <= 0x10_0000_0000_0000 && newBase + rva + size <= WORD_LIMIT
    && forall v :: newBase <= v < newBase + rva + size ==> Canonical(v)
  }

  predicate RunCovers(rva: nat, size: nat, x: nat)
  {
    rva <= x && (x - rva) / PAGE_SIZE * PAGE_SIZE < size
  }

  lemma PageView(t: Translation, base: u64, newBase: u64, at: nat, flags: u64, x: nat)
    requires base % PAGE_SIZE == 0 && newBase % PAGE_SIZE == 0 && at % PAGE_SIZE == 0
    requires base + at < 0x10_0000_0000_0000 && newBase + at < WORD_LIMIT && Canonical(newBase + at)
    requires newBase + x < WORD_LIMIT && Canonical(newBase + x) && (flags == 1 || flags == 3)
    ensures MapAt(t, newBase + at, base + at, 3, flags, newBase + x)
            == if at <= x < at + PAGE_SIZE then Mapped(base + x, flags == 3, false, false, 0) else t
  {
    FlagsOfOneAndThree();
    AlignedSums(base, newBase, at);
    hide Present, Writable, NoExecute, MemoryType, MapAt, Canonical;
    AlignedPage(t, newBase + at, base + at, 3, flags, newBase + x);
  }

  lemma AlignedSums(base: nat, newBase: nat, at: nat)
    requires base % PAGE_SIZE == 0 && newBase % PAGE_SIZE == 0 && at % PAGE_SIZE == 0
    ensures (base + at) % PAGE_SIZE == 0 && (newBase + at) % PAGE_SIZE == 0 && Span(3) == PAGE_SIZE
  {
  }

  lemma FlagsOfOneAndThree()
    ensures Present(1) && !Writable(1) && !NoExecute(1) && MemoryType(1, 3) == 0
    ensures Present(3) && Writable(3) && !NoExecute(3) && MemoryType(3, 3) == 0
  {
  }

  lemma {:induction false} RunView(t: Translation, base: u64, newBase: u64, rva: nat, size: nat, flags: u64, x: nat)
    requires RunFits(base, newBase, rva, size) && (flags == 1 || flags == 3)
    requires newBase + x < WORD_LIMIT && Canonical(newBase + x)
    ensures PagesAt(t, newBase, base, PageOffsets(rva, size, flags), newBase + x)
            == if RunCovers(rva, size, x) then Mapped(base + x, flags == 3, false, false, 0) else t
    decreases size
  {
    hide PagesAt, PageOffsets, MapAt, Canonical, RunFits, RunCovers;
    if size == 0 {
      NoRun(t, base, newBase, rva, flags, x);
    } else {
      var last := (size - 1) / PAGE_SIZE * PAGE_SIZE;
      LastOfRun(base, newBase, rva, size, x);
      RunView(t, base, newBase, rva, last, flags, x);
      LastOfPages(rva, size, flags);
      LastView(t, base, newBase, PageOffsets(rva, last, flags), Page(rva + last, flags), x);
      PageView(PagesAt(t, newBase, base, PageOffsets(rva, last, flags), newBase + x), base, newBase, rva + last, flags,
               x);
    }
  }

  lemma NoRun(t: Translation, base: u64, newBase: u64, rva: nat, flags: u64, x: nat)
    requires newBase + x < WORD_LIMIT
    ensures PagesAt(t, newBase, base, PageOffsets(rva, 0, flags), newBase + x) == t && !RunCovers(rva, 0, x)
  {
  }

  lemma LastOfRun(base: nat, newBase: nat, rva: nat, size: nat, x: nat)
    requires RunFits(base, newBase, rva, size) && size > 0
    ensures var last := (size - 1) / PAGE_SIZE * PAGE_SIZE;
            && last < size && RunFits(base, newBase, rva, last) && (rva + last) % PAGE_SIZE == 0
            && base % PAGE_SIZE == 0 && newBase % PAGE_SIZE == 0
            && base + rva + last < 0x10_0000_0000_0000 && newBase + rva + last < WORD_LIMIT
            && Canonical(newBase + rva + last)
            && (RunCovers(rva, size, x) <==> RunCovers(rva, last, x) || rva + last <= x < rva + last + PAGE_SIZE)
  {
    LastCovers(rva, size, x);
    hide Canonical, RunCovers;
  }

  lemma LastCovers(rva: nat, size: nat, x: nat)
    requires rva % PAGE_SIZE == 0 && size > 0
    ensures var last := (size - 1) / PAGE_SIZE * PAGE_SIZE;
            RunCovers(rva, size, x) <==> RunCovers(rva, last, x) || rva + last <= x < rva + last + PAGE_SIZE
  {
  }

  lemma LastView(t: Translation, base: u64, newBase: u64, front: seq<Page>, p: Page, x: nat)
    requires newBase + x < WORD_LIMIT && newBase + p.rva < WORD_LIMIT && base + p.rva < WORD_LIMIT
    ensures PagesAt(t, newBase, base, front + [p], newBase + x)
            == MapAt(PagesAt(t, newBase, base, front, newBase + x), newBase + p.rva, base + p.rva, 3, p.flags,
                     newBase + x)
  {
    hide MapAt;
    var pages := front + [p];
    assert pages[..|pages| - 1] == front && pages[|pages| - 1] == p;
  }

  lemma {:induction false} ViewConcat(t: Translation, newBase: u64, base: u64, a: seq<Page>, c: seq<Page>, v: u64)
    ensures PagesAt(t, newBase, base, a + c, v) == PagesAt(PagesAt(t, newBase, base, a, v), newBase, base, c, v)
  {
    hide MapAt;
    if c == [] {
      assert a + c == a;
    } else {
      var n := |c| - 1;
      ViewConcat(t, newBase, base, a, c[..n], v);
      assert (a + c)[..|a| + n] == a + c[..n] && (a + c)[|a| + n] == c[n];
    }
  }

  // ---------------------------------------------------------------- the sections

  /** The flags of a section: read-only exactly if it is marked writable. */
  lemma FlagsInverted(s: Section)
    ensures SectionFlags(s) == if s.characteristics < 0x8000_0000 then 3 else 1
  {
    AndTopBit(s.characteristics);
    PresentAndWritable();
  }

  // What the kernel's place has to offer to one section
  ghost predicate SectionFits(s: Section, base: nat, newBase: nat, limit: nat)
  {
    && base % PAGE_SIZE == 0 && newBase % PAGE_SIZE == 0
    && base + limit <= 0x10_0000_0000_0000 && newBase + limit <= WORD_LIMIT
    && (forall v :: newBase <= v < newBase + limit ==> Canonical(v))
    && s.virtualAddress % PAGE_SIZE == 0 && s.virtualAddress + AlignNextPage(s.virtualSize) <= limit
  }

  lemma OneSectionView(t: Translation, base: u64, newBase: u64, limit: nat, s: Section, x: nat)
    requires SectionFits(s, base, newBase, limit) && newBase + x < WORD_LIMIT && Canonical(newBase + x)
    ensures PagesAt(t, newBase, base, SectionPages(s), newBase + x)
            == if OnPagesOf(s, x) then Mapped(base + x, s.characteristics < 0x8000_0000, false, false, 0) else t
  {
    hide PagesAt, PageOffsets, SectionFlags, Canonical, RunCovers, Present;
    var size := AlignNextPage(s.virtualSize);
    AlignMacro(s.virtualSize + 0xFFF);
    FlagsInverted(s);
    SamePages(s.virtualSize, size, x, s.virtualAddress);
    hide AlignNextPage, AlignPage;
    assert RunFits(base, newBase, s.virtualAddress, size);
    RunView(t, base, newBase, s.virtualAddress, size, SectionFlags(s), x);
  }

  lemma SamePages(n: nat, size: nat, x: nat, rva: nat)
    requires size == n + 0xFFF - (n + 0xFFF) % 0x1000
    ensures rva <= x && (x - rva) / 0x1000 * 0x1000 < n <==> RunCovers(rva, size, x)
  {
  }

  lemma {:induction false} SectionsView(t: Translation, base: u64, newBase: u64, limit: nat, sections: seq<Section>,
                                        x: nat)
    requires forall s :: s in sections ==> SectionFits(s, base, newBase, limit)
    requires newBase + x < WORD_LIMIT && Canonical(newBase + x)
    ensures PagesAt(t, newBase, base, AllSectionPages(sections), newBase + x) == SectionView(t, sections, base, x)
  {
    hide SectionFits, PagesAt, SectionPages, OnPagesOf, Canonical;
    if sections == [] {
      NoSections(t, base, newBase, x);
    } else {
      var front, s := sections[..|sections| - 1], sections[|sections| - 1];
      assert s in sections;
      SectionsView(t, base, newBase, limit, front, x);
      ViewConcat(t, newBase, base, AllSectionPages(front), SectionPages(s), newBase + x);
      OneSectionView(SectionView(t, front, base, x), base, newBase, limit, s, x);
    }
  }

  lemma NoSections(t: Translation, base: u64, newBase: u64, x: nat)
    requires newBase + x < WORD_LIMIT
    ensures PagesAt(t, newBase, base, AllSectionPages([]), newBase + x) == t
  {
  }

  // ---------------------------------------------------------------- the whole kernel

  lemma KernelPagesView(t: Translation, img: Bytes, base: u64, newBase: u64, limit: nat, x: nat)
    requires TableFits(img) && KernelFits(img, base, newBase, limit)
    requires newBase + x < WORD_LIMIT && Canonical(newBase + x)
    ensures PagesAt(t, newBase, base, KernelPages(img), newBase + x)
            == SectionView(HeaderView(t, SizeOfHeaders(img), base, x), Sections(img), base, x)
  {
    hide KernelFits, SectionFits, RunFits, PagesAt, PageOffsets, AllSectionPages, SectionView, Sections, SizeOfHeaders;
    hide Canonical, Or;
    PresentAndWritable();
    HeadersFitRun(img, base, newBase, limit);
    SectionsFit(img, base, newBase, limit);
    var headers := PageOffsets(0, SizeOfHeaders(img), 3);
    ViewConcat(t, newBase, base, headers, AllSectionPages(Sections(img)), newBase + x);
    RunView(t, base, newBase, 0, SizeOfHeaders(img), 3, x);
    SectionsView(HeaderView(t, SizeOfHeaders(img), base, x), base, newBase, limit, Sections(img), x);
  }

  lemma HeadersFitRun(img: Bytes, base: nat, newBase: nat, limit: nat)
    requires TableFits(img) && KernelFits(img, base, newBase, limit)
    ensures RunFits(base, newBase, 0, SizeOfHeaders(img))
  {
    hide Canonical, Sections, SizeOfHeaders, TableFits;
  }

  lemma SectionsFit(img: Bytes, base: nat, newBase: nat, limit: nat)
    requires TableFits(img) && KernelFits(img, base, newBase, limit)
    ensures forall s :: s in Sections(img) ==> SectionFits(s, base, newBase, limit)
  {
    hide Canonical, Sections, SizeOfHeaders, TableFits, AlignNextPage;
  }

  /** After MapKernel succeeded, every address of the kernel is translated as the last section on whose pages it lies
      says, or else as the headers say: at the same offset from the physical base, and writable exactly if the section
      is not marked writable. Any other address from the virtual base on is translated as before. */
  lemma KernelRightsAre(s0: Snapshot, s: Snapshot, base: u64, newBase: u64, size: nat, limit: nat, filled: seq<Section>)
    requires TableFits(ImageBytes(s0.mem, base, size))
    requires MappedPages(s0, s, base, newBase, size, KernelPages(ImageBytes(s0.mem, base, size)), filled)
    requires KernelFits(ImageBytes(s0.mem, base, size), base, newBase, limit)
    ensures KernelViews(s0, s, ImageBytes(s0.mem, base, size), base, newBase)
  {
    hide KernelFits, KernelPages, ImageBytes, Snapshot.View, SectionView, HeaderView, PagesAt, Canonical;
    hide Sections, SizeOfHeaders, MappedPages;
    var img := ImageBytes(s0.mem, base, size);
    forall v: u64 | v >= newBase && Canonical(v)
      ensures s.View(v)
              == SectionView(HeaderView(s0.View(v), SizeOfHeaders(img), base, v - newBase), Sections(img), base,
                             v - newBase)
    {
      KernelPagesView(s0.View(v), img, base, newBase, limit, v - newBase);
      FoldedView(s0, s, base, newBase, size, KernelPages(img), filled, v);
    }
  }

  lemma FoldedView(s0: Snapshot, s: Snapshot, base: u64, newBase: u64, size: nat, pages: seq<Page>,
                   filled: seq<Section>, v: u64)
    requires MappedPages(s0, s, base, newBase, size, pages, filled)
    ensures s.View(v) == PagesAt(s0.View(v), newBase, base, pages, v)
  {
    hide Snapshot.View, PagesAt;
  }
}
