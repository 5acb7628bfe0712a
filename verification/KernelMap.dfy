/**
  MapKernel: a loaded image is mapped page by page at its virtual base, and what the kernel sees there.
 */
module KernelMap {
  import opened Bits
  import opened PageWalk
  import opened FreeList
  import opened PageTree
  import opened Mapping
  import opened Paging
  import opened Separation
  import opened TableCost
  import opened ByteOrder
  import opened Pe
  import opened ImageMemory

  // ---------------------------------------------------------------- the pages in order

  datatype Page = Page(rva: nat, flags: u64)

  // Page offsets 0, 4096, ... below a size
  function PageOffsets(rva: nat, size: nat, flags: u64): seq<Page>
    decreases size
  {
    if size == 0 then []
    else
      var last := (size - 1) / PAGE_SIZE * PAGE_SIZE;
      PageOffsets(rva, last, flags) + [Page(rva + last, flags)]
  }

  const SECTION_WRITABLE := 0x8000_0000

  // The flags that the loop chooses for a section
  function SectionFlags(s: Section): u64
  {
    if And(s.characteristics, SECTION_WRITABLE) == 0 then Or(PAGE_FLAG_PRESENT, PAGE_FLAG_RW) else PAGE_FLAG_PRESENT
  }

  function SectionPages(s: Section): seq<Page>
  {
    PageOffsets(s.virtualAddress, AlignNextPage(s.virtualSize), SectionFlags(s))
  }

  function AllSectionPages(sections: seq<Section>): seq<Page>
  {
    if sections == [] then []
    else AllSectionPages(sections[..|sections| - 1]) + SectionPages(sections[|sections| - 1])
  }

  // The pages that MapKernel maps, in order: headers, then section by section
  function KernelPages(img: Bytes): seq<Page>
    requires TableFits(img)
  {
    PageOffsets(0, SizeOfHeaders(img), Or(PAGE_FLAG_PRESENT, PAGE_FLAG_RW)) + AllSectionPages(Sections(img))
  }

  // The pages of the headers and of the first i sections
  function KernelPagesUpTo(img: Bytes, i: nat): seq<Page>
    requires TableFits(img) && i <= NumberOfSections(img)
  {
    PageOffsets(0, SizeOfHeaders(img), Or(PAGE_FLAG_PRESENT, PAGE_FLAG_RW)) + AllSectionPages(Sections(img)[..i])
  }

  const WORD_LIMIT := 0x1_0000_0000_0000_0000

  // The translation of v after the pages were mapped, if it was t before
  function PagesAt(t: Translation, virtualBase: u64, physicalBase: u64, pages: seq<Page>, v: u64): Translation
  {
    if pages == [] then t
    else
      var p := pages[|pages| - 1];
      MapAt(PagesAt(t, virtualBase, physicalBase, pages[..|pages| - 1], v),
            (virtualBase + p.rva) % WORD_LIMIT, (physicalBase + p.rva) % WORD_LIMIT, 3, p.flags, v)
  }

  // ---------------------------------------------------------------- where an address ends up

  // The page covers the byte at rva, seen from the virtual base
  predicate PageCovers(p: Page, virtualBase: nat, rva: nat)
  {
    (virtualBase + p.rva) / PAGE_SIZE == (virtualBase + rva) / PAGE_SIZE
  }

  ghost predicate SomeCovers(pages: seq<Page>, virtualBase: nat, rva: nat)
  {
    exists i :: 0 <= i < |pages| && PageCovers(pages[i], virtualBase, rva)
  }

  lemma CoverConcat(a: seq<Page>, c: seq<Page>, virtualBase: nat, rva: nat)
    ensures SomeCovers(a + c, virtualBase, rva) <==> SomeCovers(a, virtualBase, rva) || SomeCovers(c, virtualBase, rva)
  {
    hide PageCovers;
    if SomeCovers(a, virtualBase, rva) {
      var i :| 0 <= i < |a| && PageCovers(a[i], virtualBase, rva);
      assert (a + c)[i] == a[i];
    }
    if SomeCovers(c, virtualBase, rva) {
      var i :| 0 <= i < |c| && PageCovers(c[i], virtualBase, rva);
      assert (a + c)[|a| + i] == c[i];
    }
  }

  lemma CoverOne(p: Page, virtualBase: nat, rva: nat)
    ensures SomeCovers([p], virtualBase, rva) <==> PageCovers(p, virtualBase, rva)
  {
    hide PageCovers;
    assert [p][0] == p;
  }

  predicate PageOk(p: Page, virtualBase: nat, physicalBase: nat)
  {
    Present(p.flags) && virtualBase + p.rva < WORD_LIMIT && physicalBase + p.rva < 0x10_0000_0000_0000
  }

  lemma SmallSlot(a: u64, c: u64)
    requires Canonical(a)
    ensures Canonical(c) ==> (Slot(a, 3) == Slot(c, 3) <==> a / PAGE_SIZE == c / PAGE_SIZE)
    ensures !Canonical(c) ==> a / PAGE_SIZE != c / PAGE_SIZE
  {
    if Canonical(c) {
      CanonicalLow(a);
      CanonicalLow(c);
    }
  }

  /** One page sends the bytes it covers to the same offset from the physical base, whenever the two bases
      agree in their page offset. */
  lemma PageSendsBytes(t: Translation, virtualBase: u64, physicalBase: u64, p: Page, rva: nat)
    requires PageOk(p, virtualBase, physicalBase) && virtualBase % PAGE_SIZE == physicalBase % PAGE_SIZE
    requires virtualBase + rva < WORD_LIMIT && Canonical(virtualBase + rva) && Canonical(virtualBase + p.rva)
    ensures var r := MapAt(t, virtualBase + p.rva, physicalBase + p.rva, 3, p.flags, virtualBase + rva);
            if PageCovers(p, virtualBase, rva) then r.Mapped? && r.pa == physicalBase + rva else r == t
  {
    SmallSlot(virtualBase + rva, virtualBase + p.rva);
    if PageCovers(p, virtualBase, rva) {
      LeafEntryFields(physicalBase + p.rva, p.flags);
      SameOffset(virtualBase, physicalBase, p.rva, rva);
    }
  }

  lemma SameOffset(a: nat, c: nat, x: nat, y: nat)
    requires a % PAGE_SIZE == c % PAGE_SIZE && (a + x) / PAGE_SIZE == (a + y) / PAGE_SIZE && c + x < 0x10_0000_0000_0000
    ensures (c + x) / 0x1000 % FRAME_LIMIT / 1 * PAGE_SIZE + (a + y) % PAGE_SIZE == c + y
  {
    assert (c + x) / 0x1000 < FRAME_LIMIT;
    var i, j, o := a / PAGE_SIZE, c / PAGE_SIZE, a % PAGE_SIZE;
    assert a + x == PAGE_SIZE * i + (o + x) && c + x == PAGE_SIZE * j + (o + x);
    assert (a + x) / PAGE_SIZE == i + (o + x) / PAGE_SIZE && (c + x) / PAGE_SIZE == j + (o + x) / PAGE_SIZE;
    assert a + y == PAGE_SIZE * i + (o + y);
    assert (a + y) / PAGE_SIZE == i + (o + y) / PAGE_SIZE;
  }

  // Present pages whose addresses do not wrap and lie in the canonical halves
  ghost predicate PagesOk(pages: seq<Page>, virtualBase: nat, physicalBase: nat)
  {
    forall i :: 0 <= i < |pages| ==>
      PageOk(pages[i], virtualBase, physicalBase) && Canonical(virtualBase + pages[i].rva)
  }

  // Where the byte at rva ends up: at the same offset from the physical base if some page covers it
  ghost predicate SentTo(r: Translation, t: Translation, pages: seq<Page>, virtualBase: nat, physicalBase: nat,
                         rva: nat)
  {
    if SomeCovers(pages, virtualBase, rva) then r.Mapped? && r.pa == physicalBase + rva else r == t
  }

  /** However often and in whatever order pages are mapped over each other: an address that some page
      covers leads to the byte of the image at the same offset, and any other address is as before. */
  lemma {:induction false} PagesSendBytes(t: Translation, virtualBase: u64, physicalBase: u64, pages: seq<Page>,
                                          rva: nat)
    requires PagesOk(pages, virtualBase, physicalBase) && virtualBase % PAGE_SIZE == physicalBase % PAGE_SIZE
    requires virtualBase + rva < WORD_LIMIT && Canonical(virtualBase + rva)
    ensures SentTo(PagesAt(t, virtualBase, physicalBase, pages, virtualBase + rva), t,
                   pages, virtualBase, physicalBase, rva)
  {
    hide PagesOk, PagesAt, SentTo, PageOk, SomeCovers, Canonical;
    if pages == [] {
      NoPages(t, virtualBase, physicalBase, rva);
    } else {
      var front := pages[..|pages| - 1];
      SplitPages(pages, virtualBase, physicalBase);
      PagesSendBytes(t, virtualBase, physicalBase, front, rva);
      LastPageSends(t, virtualBase, physicalBase, pages, rva);
    }
  }

  lemma NoPages(t: Translation, virtualBase: u64, physicalBase: u64, rva: nat)
    requires virtualBase + rva < WORD_LIMIT
    ensures SentTo(PagesAt(t, virtualBase, physicalBase, [], virtualBase + rva), t, [], virtualBase, physicalBase, rva)
  {
  }

  lemma SplitPages(pages: seq<Page>, virtualBase: nat, physicalBase: nat)
    requires pages != [] && PagesOk(pages, virtualBase, physicalBase)
    ensures PagesOk(pages[..|pages| - 1], virtualBase, physicalBase)
  {
    hide PageOk;
  }

  lemma LastPageSends(t: Translation, virtualBase: u64, physicalBase: u64, pages: seq<Page>, rva: nat)
    requires pages != [] && PagesOk(pages, virtualBase, physicalBase)
             && virtualBase % PAGE_SIZE == physicalBase % PAGE_SIZE
    requires virtualBase + rva < WORD_LIMIT && Canonical(virtualBase + rva)
    requires var front := pages[..|pages| - 1];
             SentTo(PagesAt(t, virtualBase, physicalBase, front, virtualBase + rva), t,
                    front, virtualBase, physicalBase, rva)
    ensures SentTo(PagesAt(t, virtualBase, physicalBase, pages, virtualBase + rva), t,
                   pages, virtualBase, physicalBase, rva)
  {
    hide PagesOk, PagesAt, PageOk, SomeCovers, Canonical, MapAt, PageCovers;
    var front, p := pages[..|pages| - 1], pages[|pages| - 1];
    LastPageOk(pages, virtualBase, physicalBase);
    LastPage(t, virtualBase, physicalBase, pages, virtualBase + rva);
    PageSendsBytes(PagesAt(t, virtualBase, physicalBase, front, virtualBase + rva), virtualBase, physicalBase, p, rva);
    CoverConcat(front, [p], virtualBase, rva);
    CoverOne(p, virtualBase, rva);
    assert pages == front + [p];
  }

  lemma LastPageOk(pages: seq<Page>, virtualBase: nat, physicalBase: nat)
    requires pages != [] && PagesOk(pages, virtualBase, physicalBase)
    ensures var p := pages[|pages| - 1];
            && PageOk(p, virtualBase, physicalBase) && Canonical(virtualBase + p.rva)
            && virtualBase + p.rva < WORD_LIMIT && physicalBase + p.rva < WORD_LIMIT
  {
    hide Canonical;
  }

  lemma LastPage(t: Translation, virtualBase: u64, physicalBase: u64, pages: seq<Page>, v: u64)
    requires pages != [] && PageOk(pages[|pages| - 1], virtualBase, physicalBase)
    ensures var p := pages[|pages| - 1];
            && virtualBase + p.rva < WORD_LIMIT && physicalBase + p.rva < WORD_LIMIT
            && PagesAt(t, virtualBase, physicalBase, pages, v)
               == MapAt(PagesAt(t, virtualBase, physicalBase, pages[..|pages| - 1], v),
                        virtualBase + p.rva, physicalBase + p.rva, 3, p.flags, v)
  {
    hide MapAt;
  }

  // ---------------------------------------------------------------- which offsets are covered

  lemma {:induction false} OffsetsCover(base: nat, rva: nat, size: nat, flags: u64, x: nat)
    requires base % PAGE_SIZE == 0 && rva % PAGE_SIZE == 0
    ensures SomeCovers(PageOffsets(rva, size, flags), base, x) <==> rva <= x && (x - rva) / PAGE_SIZE * PAGE_SIZE < size
    decreases size
  {
    if size > 0 {
      var last := (size - 1) / PAGE_SIZE * PAGE_SIZE;
      var front, p := PageOffsets(rva, last, flags), Page(rva + last, flags);
      OffsetsCover(base, rva, last, flags, x);
      LastPageCovers(base, rva, size, x);
      CoverConcat(front, [p], base, x);
      CoverOne(p, base, x);
      hide SomeCovers;
    }
  }

  lemma LastPageCovers(base: nat, rva: nat, size: nat, x: nat)
    requires base % PAGE_SIZE == 0 && rva % PAGE_SIZE == 0 && size > 0
    ensures var last := (size - 1) / PAGE_SIZE * PAGE_SIZE;
            (rva <= x && (x - rva) / PAGE_SIZE * PAGE_SIZE < size)
            <==> (rva <= x && (x - rva) / PAGE_SIZE * PAGE_SIZE < last)
                 || (base + (rva + last)) / PAGE_SIZE == (base + x) / PAGE_SIZE
  {
    var b, r, l := base / PAGE_SIZE, rva / PAGE_SIZE, (size - 1) / PAGE_SIZE;
    assert base + (rva + l * PAGE_SIZE) == PAGE_SIZE * (b + r + l);
    assert (base + x) / PAGE_SIZE == b + x / PAGE_SIZE;
    if rva <= x {
      assert x / PAGE_SIZE == r + (x - rva) / PAGE_SIZE;
    }
  }

  // ---------------------------------------------------------------- what a mapping leaves alone

  /** Mapping a page keeps the image, byte for byte. */
  lemma ImageStays(s: Snapshot, s': Snapshot, status: Status, va: u64, pa: u64, flags: u64, base: nat, size: nat)
    requires MapResult(s, s', status, va, pa, 3, flags) && ImageApart(s, base, size)
    ensures ImageApart(s', base, size) && ImageBytes(s'.mem, base, size) == ImageBytes(s.mem, base, size)
  {
    MapConfined(s, s', status, va, pa, 3, flags);
    hide MapResult, Managed, OthersUntouched;
    UntouchedBytes(s, s', base, size);
  }

  // What the loop zeroes for a section whose virtual size exceeds its raw size. The start is the 32-bit sum
  // of two sizes, and no address of the section.
  function FillStart(s: Section): nat
  {
    (s.virtualSize + s.rawSize) % 0x1_0000_0000
  }

  function FillEnd(s: Section): nat
  {
    if s.virtualSize > s.rawSize then FillStart(s) + (s.virtualSize - s.rawSize) else FillStart(s)
  }

  // The fill of one of the sections covers the byte
  ghost predicate Filled(sections: seq<Section>, a: nat)
  {
    exists i :: 0 <= i < |sections| && FillStart(sections[i]) <= a < FillEnd(sections[i])
  }

  /** The filled range in terms of the two sizes: it starts at their sum and ends at twice the virtual size, both
      reduced by 2^32 if the sum reaches that. */
  lemma FilledRange(s: Section, a: nat)
    ensures FillStart(s) <= a < FillEnd(s)
            <==> && s.virtualSize > s.rawSize
                 && var wrap := if s.virtualSize + s.rawSize < 0x1_0000_0000 then 0 else 0x1_0000_0000;
                    s.virtualSize + s.rawSize - wrap <= a < 2 * s.virtualSize - wrap
  {
  }

  // Memory that the allocator does not manage holds zeros where it was filled, and elsewhere keeps its contents
  ghost predicate OthersFilled(s0: Snapshot, s: Snapshot, filled: seq<Section>)
  {
    forall a: nat :: !Managed(s0, a / PAGE_SIZE) ==>
      PhysByte(s.mem, a) == if Filled(filled, a) then 0 else PhysByte(s0.mem, a)
  }

  lemma OthersFilledByMap(s0: Snapshot, s: Snapshot, s': Snapshot, filled: seq<Section>)
    requires OthersFilled(s0, s, filled) && Drawn(s0, s) && OthersUntouched(s, s')
    ensures OthersFilled(s0, s', filled)
  {
    hide Filled;
    forall a: nat | !Managed(s0, a / PAGE_SIZE)
      ensures PhysByte(s'.mem, a) == PhysByte(s.mem, a)
    {
      if Managed(s, a / PAGE_SIZE) {
        DrawnIsManaged(s0, s, a / PAGE_SIZE);
        assert false;
      }
      WordIndex(a);
    }
  }

  // After the given pages were mapped and sections filled: every address is translated accordingly, the image is
  // intact, no path was obstructed, tables come from the front of the free list, and other memory was only filled
  ghost predicate MappedPages(s0: Snapshot, s: Snapshot, base: u64, newBase: u64, size: nat, done: seq<Page>,
                              filled: seq<Section>)
  {
    && (forall v: u64 :: s.View(v) == PagesAt(s0.View(v), newBase, base, done, v))
    && ImageApart(s, base, size) && ImageBytes(s.mem, base, size) == ImageBytes(s0.mem, base, size)
    && (forall v: u64 :: s0.PathClear(v, 3) ==> s.PathClear(v, 3))
    && Drawn(s0, s) && OthersFilled(s0, s, filled)
  }

  lemma NothingMapped(s: Snapshot, base: u64, newBase: u64, size: nat)
    requires ImageApart(s, base, size)
    ensures MappedPages(s, s, base, newBase, size, [], [])
  {
    hide Snapshot.View, Snapshot.PathClear;
  }

  lemma OnePageMore(s0: Snapshot, s: Snapshot, s': Snapshot, base: u64, newBase: u64, size: nat, done: seq<Page>,
                    filled: seq<Section>, p: Page, status: Status)
    requires MappedPages(s0, s, base, newBase, size, done, filled)
    requires MapResult(s, s', status, (newBase + p.rva) % WORD_LIMIT, (base + p.rva) % WORD_LIMIT, 3, p.flags)
    ensures status == Success || status == OutOfResources
    ensures MappedPages(s0, s', base, newBase, size, if status == Success then done + [p] else done, filled)
  {
    hide Snapshot.View, MapResult, ImageApart, ImageBytes, PagesAt, MapAt, Snapshot.PathClear, Managed, OthersUntouched;
    hide OthersFilled, Drawn;
    var va, pa := (newBase + p.rva) % WORD_LIMIT, (base + p.rva) % WORD_LIMIT;
    ImageStays(s, s', status, va, pa, p.flags, base, size);
    PathsStayClear(s, s', status, va, pa, p.flags);
    MapConfined(s, s', status, va, pa, 3, p.flags);
    MappedView(s, s', status, va, pa, p.flags);
    DrawnTrans(s0, s, s');
    OthersFilledByMap(s0, s, s', filled);
    if status == Success {
      OneMoreView(s0, s, s', base, newBase, done, p);
    }
  }

  lemma MappedView(s: Snapshot, s': Snapshot, status: Status, va: u64, pa: u64, flags: u64)
    requires MapResult(s, s', status, va, pa, 3, flags)
    ensures status == Success || status == OutOfResources
    ensures forall v: u64 ::
              s'.View(v) == if status == Success then MapAt(s.View(v), va, pa, 3, flags, v) else s.View(v)
  {
    hide Snapshot.View, OthersUntouched, ClearElsewhere, MapAt, Extend, Prune;
  }

  lemma OneMoreView(s0: Snapshot, s: Snapshot, s': Snapshot, base: u64, newBase: u64, done: seq<Page>, p: Page)
    requires forall v: u64 :: s.View(v) == PagesAt(s0.View(v), newBase, base, done, v)
    requires forall v: u64 ::
               s'.View(v) == MapAt(s.View(v), (newBase + p.rva) % WORD_LIMIT, (base + p.rva) % WORD_LIMIT,
                                   3, p.flags, v)
    ensures forall v: u64 :: s'.View(v) == PagesAt(s0.View(v), newBase, base, done + [p], v)
  {
    hide Snapshot.View, MapAt;
    var more := done + [p];
    assert more[..|more| - 1] == done && more[|more| - 1] == p;
  }

  lemma PathsStayClear(s: Snapshot, s': Snapshot, status: Status, va: u64, pa: u64, flags: u64)
    requires MapResult(s, s', status, va, pa, 3, flags)
    ensures forall v: u64 :: s.PathClear(v, 3) ==> s'.PathClear(v, 3)
  {
    hide Snapshot.View, OthersUntouched, Snapshot.PathClear, MapAt, Extend, Prune;
  }

  // ---------------------------------------------------------------- the frames it takes

  // The tables below the root that the pages need
  ghost function PageNodes(newBase: u64, pages: seq<Page>): set<Node>
  {
    if pages == [] then {}
    else
      PageNodes(newBase, pages[..|pages| - 1]) + PathNodes((newBase + pages[|pages| - 1].rva) % WORD_LIMIT, 3)
  }

  // How many of them a tree does not have
  ghost function PagesNeeded(t: Tree, newBase: u64, pages: seq<Page>): nat
  {
    |PageNodes(newBase, pages) - t.Keys|
  }

  // Exactly the tables that the pages needed are there, and exactly their frames are gone
  ghost predicate Taken(s0: Snapshot, s: Snapshot, newBase: u64, done: seq<Page>)
  {
    && s.tables.Keys == s0.tables.Keys + PageNodes(newBase, done)
    && PagesNeeded(s0.tables, newBase, done) <= Supply(s0.free)
    && s.free == s0.free[PagesNeeded(s0.tables, newBase, done)..]
  }

  // The frames sufficed for the pages in done, and not for the page after them
  ghost predicate RanOut(s0: Snapshot, s: Snapshot, newBase: u64, done: seq<Page>, pages: seq<Page>)
  {
    && |done| < |pages| && done == pages[..|done|]
    && PagesNeeded(s0.tables, newBase, done) <= Supply(s0.free) < PagesNeeded(s0.tables, newBase, pages[..|done| + 1])
    && s.free == AfterFailure(s0.free[Supply(s0.free)..])
  }

  lemma NothingTaken(s: Snapshot, newBase: u64)
    ensures Taken(s, s, newBase, [])
  {
    assert PageNodes(newBase, []) - s.tables.Keys == {};
  }

  lemma NodesOfNext(newBase: u64, done: seq<Page>, p: Page)
    ensures PageNodes(newBase, done + [p]) == PageNodes(newBase, done) + PathNodes((newBase + p.rva) % WORD_LIMIT, 3)
  {
    hide PathNodes;
    var more := done + [p];
    assert more[..|more| - 1] == done && more[|more| - 1] == p;
  }

  /** One more page needs what is missing on its path once the tables of the others are there. */
  lemma NeededForNext(mem: Memory, root: nat, t0: Tree, t: Tree, newBase: u64, done: seq<Page>, p: Page)
    requires TreeInv(mem, root, t) && t.Keys == t0.Keys + PageNodes(newBase, done)
    ensures PagesNeeded(t0, newBase, done + [p])
            == PagesNeeded(t0, newBase, done) + Missing(t, (newBase + p.rva) % WORD_LIMIT, 3)
  {
    var v := (newBase + p.rva) % WORD_LIMIT;
    NodesOfNext(newBase, done, p);
    MissingAreNew(mem, root, t, v, 3);
    hide PathNodes, PageNodes, TreeInv, Missing;
    SplitSets(PageNodes(newBase, done), PathNodes(v, 3), t0.Keys);
  }

  // Tables have levels 1 to 3, so a 4 KiB page replaces none
  lemma NothingPruned(mem: Memory, root: nat, t: Tree, va: u64, frames: seq<nat>)
    requires TreeInv(mem, root, t) && |frames| == Missing(t, va, 3)
    ensures Prune(Extend(t, va, Depth(t, va), frames), PathNode(va, 4)).Keys == t.Keys + PathNodes(va, 3)
  {
    KeysAfterMap(mem, root, t, va, 3, frames);
    var t' := Extend(t, va, Depth(t, va), frames);
    forall n | n in t'
      ensures !Below(n, PathNode(va, 4))
    {
      if n in t {
        assert Placed(mem, t, n);
      }
    }
  }

  /** A page either takes exactly its missing tables, or is the first for which the frames do not suffice. */
  lemma PageTakes(s0: Snapshot, s: Snapshot, s': Snapshot, base: u64, newBase: u64, done: seq<Page>, p: Page,
                  status: Status)
    requires TreeInv(s.mem, s.root, s.tables) && Taken(s0, s, newBase, done)
    requires MapResult(s, s', status, (newBase + p.rva) % WORD_LIMIT, (base + p.rva) % WORD_LIMIT, 3, p.flags)
    ensures if status == Success then Taken(s0, s', newBase, done + [p]) else RanOut(s0, s', newBase, done, done + [p])
  {
    var v: u64, pa: u64 := (newBase + p.rva) % WORD_LIMIT, (base + p.rva) % WORD_LIMIT;
    hide *;
    TakenSupply(s0, s, newBase, done);
    NeededForNext(s.mem, s.root, s0.tables, s.tables, newBase, done, p);
    if status == Success {
      PageMapped(s, s', v, pa, p.flags);
      NodesOfNext(newBase, done, p);
      AllTaken(s0, s, s', newBase, done, p, PathNodes(v, 3), Missing(s.tables, v, 3));
    } else {
      PageRefused(s, s', status, v, pa, p.flags);
      FirstRefused(s0, s, s', newBase, done, p, Missing(s.tables, v, 3));
    }
  }

  lemma TakenSupply(s0: Snapshot, s: Snapshot, newBase: u64, done: seq<Page>)
    requires Taken(s0, s, newBase, done)
    ensures s.tables.Keys == s0.tables.Keys + PageNodes(newBase, done)
    ensures Supply(s.free) == Supply(s0.free) - PagesNeeded(s0.tables, newBase, done)
  {
    hide PageNodes, PagesNeeded;
    SupplyAfter(s0.free, PagesNeeded(s0.tables, newBase, done));
  }

  lemma PageMapped(s: Snapshot, s': Snapshot, va: u64, pa: u64, flags: u64)
    requires TreeInv(s.mem, s.root, s.tables) && MapResult(s, s', Success, va, pa, 3, flags)
    ensures var m := Missing(s.tables, va, 3);
            m <= Supply(s.free) && s'.free == s.free[m..] && s'.tables.Keys == s.tables.Keys + PathNodes(va, 3)
  {
    hide Snapshot.View, OthersUntouched, ClearElsewhere, MapAt, TreeInv, PathNodes;
    NothingPruned(s.mem, s.root, s.tables, va, s.free[..Missing(s.tables, va, 3)]);
  }

  lemma PageRefused(s: Snapshot, s': Snapshot, status: Status, va: u64, pa: u64, flags: u64)
    requires status != Success && MapResult(s, s', status, va, pa, 3, flags)
    ensures Missing(s.tables, va, 3) > Supply(s.free) && s'.free == AfterFailure(s.free[Supply(s.free)..])
  {
    hide Snapshot.View, OthersUntouched, ClearElsewhere, MapAt, Extend, Prune;
  }

  lemma AllTaken(s0: Snapshot, s: Snapshot, s': Snapshot, newBase: u64, done: seq<Page>, p: Page, nodes: set<Node>,
                 m: nat)
    requires Taken(s0, s, newBase, done)
             && m <= Supply(s.free) == Supply(s0.free) - PagesNeeded(s0.tables, newBase, done)
    requires PagesNeeded(s0.tables, newBase, done + [p]) == PagesNeeded(s0.tables, newBase, done) + m
    requires s'.free == s.free[m..] && s'.tables.Keys == s.tables.Keys + nodes
    requires PageNodes(newBase, done + [p]) == PageNodes(newBase, done) + nodes
    ensures Taken(s0, s', newBase, done + [p])
  {
    hide PagesNeeded, PageNodes, Supply;
    DropDrop(s0.free, PagesNeeded(s0.tables, newBase, done), m);
  }

  lemma FirstRefused(s0: Snapshot, s: Snapshot, s': Snapshot, newBase: u64, done: seq<Page>, p: Page, m: nat)
    requires Taken(s0, s, newBase, done)
             && m > Supply(s.free) == Supply(s0.free) - PagesNeeded(s0.tables, newBase, done)
    requires PagesNeeded(s0.tables, newBase, done + [p]) == PagesNeeded(s0.tables, newBase, done) + m
    requires s'.free == AfterFailure(s.free[Supply(s.free)..])
    ensures RanOut(s0, s', newBase, done, done + [p])
  {
    hide PagesNeeded, Supply, AfterFailure;
    DropDrop(s0.free, PagesNeeded(s0.tables, newBase, done), Supply(s.free));
    assert (done + [p])[..|done|] == done && (done + [p])[..|done| + 1] == done + [p];
  }

  lemma {:induction false} NeededGrows(t: Tree, newBase: u64, some: seq<Page>, all: seq<Page>)
    requires some <= all
    ensures PagesNeeded(t, newBase, some) <= PagesNeeded(t, newBase, all)
    decreases |all|
  {
    if some != all {
      var front, last := all[..|all| - 1], all[|all| - 1];
      assert all == front + [last];
      NeededGrows(t, newBase, some, front);
      NodesOfNext(newBase, front, last);
      hide PathNodes, PageNodes;
      Cardinality(PageNodes(newBase, front) - t.Keys, PageNodes(newBase, all) - t.Keys);
    }
  }

  lemma OffsetsGrow(rva: nat, offset: nat, flags: u64)
    requires offset % PAGE_SIZE == 0
    ensures PageOffsets(rva, offset + PAGE_SIZE, flags) == PageOffsets(rva, offset, flags) + [Page(rva + offset, flags)]
  {
    assert (offset + PAGE_SIZE - 1) / PAGE_SIZE * PAGE_SIZE == offset;
  }

  lemma {:induction false} OffsetsPrefix(rva: nat, offset: nat, size: nat, flags: u64)
    requires offset % PAGE_SIZE == 0 && offset < size + PAGE_SIZE
    ensures if offset < size
            then PageOffsets(rva, offset, flags) + [Page(rva + offset, flags)] <= PageOffsets(rva, size, flags)
            else PageOffsets(rva, offset, flags) == PageOffsets(rva, size, flags)
    decreases size
  {
    if size > 0 {
      var last := (size - 1) / PAGE_SIZE * PAGE_SIZE;
      LastOffset(size, offset);
      LastOfPages(rva, size, flags);
      hide PageOffsets;
      if offset < last {
        OffsetsPrefix(rva, offset, last, flags);
      } else if offset > last {
        OffsetsGrow(rva, last, flags);
      }
    }
  }

  lemma LastOfPages(rva: nat, size: nat, flags: u64)
    requires size > 0
    ensures var last := (size - 1) / PAGE_SIZE * PAGE_SIZE;
            PageOffsets(rva, size, flags) == PageOffsets(rva, last, flags) + [Page(rva + last, flags)]
  {
  }

  lemma LastOffset(size: nat, offset: nat)
    requires size > 0 && offset % PAGE_SIZE == 0 && offset < size + PAGE_SIZE
    ensures var last := (size - 1) / PAGE_SIZE * PAGE_SIZE;
            last % PAGE_SIZE == 0 && last < size && (offset < size ==> offset <= last)
            && (offset > last ==> offset == last + PAGE_SIZE && offset >= size)
  {
  }

  // ---------------------------------------------------------------- the fill

  // The fill of section i destroys neither the image nor a table that exists when the loop comes to it. These
  // tables are the ones from before and the frames taken for the pages up to there; if the list does not supply
  // those, the loop does not come to it.
  ghost predicate FillApart(s0: Snapshot, newBase: u64, img: Bytes, base: nat, i: nat)
    requires TableFits(img) && i < NumberOfSections(img)
  {
    var lo, hi := FillStart(SectionAt(img, i)), FillEnd(SectionAt(img, i));
    var needed := PagesNeeded(s0.tables, newBase, KernelPagesUpTo(img, i));
    lo < hi && needed <= Supply(s0.free) ==>
      && (forall f: nat :: Touches(f, lo, hi) ==> f !in s0.tables.Values && f !in s0.free[..needed])
      && (forall k :: 0 <= k < |img| && lo <= base + k < hi ==> img[k] == 0)
  }

  ghost predicate FillsApart(s0: Snapshot, newBase: u64, img: Bytes, base: nat)
    requires TableFits(img)
  {
    forall i: nat :: i < NumberOfSections(img) ==> FillApart(s0, newBase, img, base, i)
  }

  // What the fill covers of the image and of the tables is zero already
  ghost predicate FillSpares(s: Snapshot, lo: nat, hi: nat, base: nat, size: nat)
  {
    && (forall x: nat :: x / PAGE_SIZE in s.tables.Values && lo <= x < hi ==> PhysByte(s.mem, x) == 0)
    && (forall x: nat :: base <= x < base + size && lo <= x < hi ==> PhysByte(s.mem, x) == 0)
  }

  // The table frames at the time of a fill
  lemma TablesSoFar(s0: Snapshot, s: Snapshot, newBase: u64, done: seq<Page>, f: nat)
    requires Drawn(s0, s) && Taken(s0, s, newBase, done) && f in s.tables.Values
    ensures f in s0.tables.Values || f in s0.free[..PagesNeeded(s0.tables, newBase, done)]
  {
    hide PagesNeeded, PageNodes, Supply;
  }

  lemma FillAllowed(s0: Snapshot, s: Snapshot, base: u64, newBase: u64, size: nat, filled: seq<Section>, img: Bytes,
                    i: nat)
    requires TableFits(img) && i < NumberOfSections(img) && img == ImageBytes(s0.mem, base, size)
    requires MappedPages(s0, s, base, newBase, size, KernelPagesUpTo(img, i), filled)
    requires Taken(s0, s, newBase, KernelPagesUpTo(img, i)) && FillApart(s0, newBase, img, base, i)
    ensures FillSpares(s, FillStart(SectionAt(img, i)), FillEnd(SectionAt(img, i)), base, size)
  {
    hide Snapshot.View, Snapshot.PathClear, PagesAt, ImageApart, OthersFilled, PhysByte, SectionAt, FillStart, FillEnd;
    hide KernelPagesUpTo, TableFits, NumberOfSections, PagesNeeded, Drawn, PageNodes, Touches, Supply;
    var lo, hi, done := FillStart(SectionAt(img, i)), FillEnd(SectionAt(img, i)), KernelPagesUpTo(img, i);
    forall x: nat | lo <= x < hi
      ensures x / PAGE_SIZE !in s.tables.Values
    {
      FrameOfByte(x, lo, hi);
      if x / PAGE_SIZE in s.tables.Values {
        TablesSoFar(s0, s, newBase, done, x / PAGE_SIZE);
        assert false;
      }
    }
    forall x: nat | base <= x < base + size && lo <= x < hi
      ensures PhysByte(s.mem, x) == 0
    {
      assert img[x - base] == PhysByte(s.mem, x) by {
        assert ImageBytes(s.mem, base, size)[x - base] == PhysByte(s.mem, base + (x - base));
      }
    }
  }

  /** A fill that covers nothing but zeros of the tables and the image keeps tables, translations, paths and
      image, and leaves the free frames without present entries, whichever of them it covers. */
  lemma FillKeeps(s0: Snapshot, s: Snapshot, mem': Memory, base: u64, newBase: u64, size: nat, done: seq<Page>,
                  filled: seq<Section>, section: Section)
    requires TreeInv(s.mem, s.root, s.tables) && AllClean(s.mem, s.free)
    requires MappedPages(s0, s, base, newBase, size, done, filled)
    requires Zeroed(s.mem, mem', FillStart(section), FillEnd(section))
    requires FillSpares(s, FillStart(section), FillEnd(section), base, size)
    ensures TreeInv(mem', s.root, s.tables) && AllClean(mem', s.free)
    ensures MappedPages(s0, s.(mem := mem'), base, newBase, size, done, filled + [section])
  {
    var lo, hi := FillStart(section), FillEnd(section);
    hide TreeInv, AllClean, Snapshot.View, Snapshot.PathClear, PagesAt, Managed, PhysByte, FillStart, FillEnd, Drawn;
    hide OthersFilled, Zeroed, ImageApart, ImageBytes, SameOnTables;
    TablesSurviveExactlyWhen(s.mem, mem', lo, hi, s.tables);
    ImageSurvivesExactlyWhen(s.mem, mem', lo, hi, base, size);
    ZeroingKeepsClean(s.mem, mem', lo, hi, s.free);
    KeptElsewhere(s.mem, mem', s.root, s.tables, s.free);
    assert s == Snapshot(s.mem, s.root, s.tables, s.free);
    SameFrames(s0, s, mem', base, size);
    OthersFilledByFill(s0, s, mem', filled, section);
  }

  lemma SameFrames(s0: Snapshot, s: Snapshot, mem': Memory, base: nat, size: nat)
    requires ImageApart(s, base, size) && Drawn(s0, s)
    ensures ImageApart(s.(mem := mem'), base, size) && Drawn(s0, s.(mem := mem'))
  {
  }

  lemma OthersFilledByFill(s0: Snapshot, s: Snapshot, mem': Memory, filled: seq<Section>, section: Section)
    requires OthersFilled(s0, s, filled) && Zeroed(s.mem, mem', FillStart(section), FillEnd(section))
    ensures OthersFilled(s0, s.(mem := mem'), filled + [section])
  {
    OneMoreFill(filled, section);
    hide PhysByte, FillStart, FillEnd, Managed, Filled;
  }

  lemma OneMoreFill(filled: seq<Section>, section: Section)
    ensures forall a: nat ::
              Filled(filled + [section], a) <==> Filled(filled, a) || FillStart(section) <= a < FillEnd(section)
  {
    hide FillStart, FillEnd;
    var more := filled + [section];
    forall a: nat
      ensures Filled(more, a) <==> Filled(filled, a) || FillStart(section) <= a < FillEnd(section)
    {
      assert more[|filled|] == section;
      if Filled(filled, a) {
        var i :| 0 <= i < |filled| && FillStart(filled[i]) <= a < FillEnd(filled[i]);
        assert more[i] == filled[i];
      }
      if Filled(more, a) {
        var i :| 0 <= i < |more| && FillStart(more[i]) <= a < FillEnd(more[i]);
        assert i < |filled| ==> more[i] == filled[i];
      }
    }
  }

  // A section without a fill
  lemma NothingToFill(s0: Snapshot, s: Snapshot, base: u64, newBase: u64, size: nat, done: seq<Page>,
                      filled: seq<Section>, section: Section)
    requires MappedPages(s0, s, base, newBase, size, done, filled) && section.virtualSize <= section.rawSize
    ensures MappedPages(s0, s, base, newBase, size, done, filled + [section])
  {
    hide Snapshot.View, Snapshot.PathClear, PagesAt, ImageApart, ImageBytes, PhysByte, Drawn, Filled;
    OneMoreFill(filled, section);
  }

  method FillSection(pm: PageManager, section: Section, ghost s0: Snapshot, ghost base: u64, ghost newBase: u64,
                     ghost size: nat, ghost done: seq<Page>, ghost filled: seq<Section>)
    requires pm.Valid() && MappedPages(s0, pm.Now(), base, newBase, size, done, filled)
    requires FillSpares(pm.Now(), FillStart(section), FillEnd(section), base, size)
    modifies pm.mem
    ensures pm.Valid() && pm.Now() == old(pm.Now()).(mem := pm.mem[..])
    ensures MappedPages(s0, pm.Now(), base, newBase, size, done, filled + [section])
  {
    hide MappedPages, FillSpares, TreeInv, AllClean, Enumerates, Zeroed;
    ghost var s := pm.Now();
    if section.virtualSize > section.rawSize {
      ZeroMem(pm, FillStart(section), section.virtualSize - section.rawSize);
      FillKeeps(s0, s, pm.mem[..], base, newBase, size, done, filled, section);
    } else {
      NothingToFill(s0, s, base, newBase, size, done, filled, section);
    }
    assert pm.Now() == s.(mem := pm.mem[..]);
  }

  /** A frame that the allocator does not manage keeps its contents, unless a fill touches it. */
  lemma PageSurvives(s0: Snapshot, s: Snapshot, filled: seq<Section>, f: nat, i: nat)
    requires OthersFilled(s0, s, filled) && |s.mem| == |s0.mem| && !Managed(s0, f) && i < TABLE_LENGTH
    requires forall k :: 0 <= k < |filled| ==> !Touches(f, FillStart(filled[k]), FillEnd(filled[k]))
    ensures Entry(s.mem, f, i) == Entry(s0.mem, f, i)
  {
    hide PhysByte, FillStart, FillEnd, Managed, Entry;
    forall x: nat | x / PAGE_SIZE == f
      ensures PhysByte(s.mem, x) == PhysByte(s0.mem, x)
    {
      if Filled(filled, x) {
        var k :| 0 <= k < |filled| && FillStart(filled[k]) <= x < FillEnd(filled[k]);
        FrameOfByte(x, FillStart(filled[k]), FillEnd(filled[k]));
        assert false;
      }
    }
    SameEntry(s0.mem, s.mem, f, i);
  }

  /** Two pages in memory, one in the file: the loop zeroes the frame at 0x3000. An image loses what it has
      there, and if a table lies there, every address below it faults. */
  lemma FillDestroys(section: Section, mem: Memory, mem': Memory)
    requires section.virtualSize == 0x2000 && section.rawSize == 0x1000
    requires Zeroed(mem, mem', FillStart(section), FillEnd(section))
    ensures forall base: nat, size: nat, a: nat ::
              base <= a < base + size && 0x3000 <= a < 0x4000 && PhysByte(mem, a) != 0 ==>
              ImageBytes(mem', base, size) != ImageBytes(mem, base, size)
    ensures forall root: nat, t: Tree, n: Node, v: u64 ::
              TreeInv(mem, root, t) && n in t && t[n] == 3 && PathNode(v, n.level) == n ==>
              Translate(mem', root, v) == Fault
  {
    hide Zeroed, PhysByte, TreeInv, Translate;
    forall base: nat, size: nat, a: nat | base <= a < base + size && 0x3000 <= a < 0x4000 && PhysByte(mem, a) != 0
      ensures ImageBytes(mem', base, size) != ImageBytes(mem, base, size)
    {
      ImageSurvivesExactlyWhen(mem, mem', 0x3000, 0x4000, base, size);
    }
    forall root: nat, t: Tree, n: Node, v: u64 | TreeInv(mem, root, t) && n in t && t[n] == 3
                                                 && PathNode(v, n.level) == n
      ensures Translate(mem', root, v) == Fault
    {
      FilledTableFaults(mem, mem', root, t, n, v);
    }
  }

  // ---------------------------------------------------------------- the loops

  // One run of pages: for( Offset = 0; Offset < size; Offset += 4096 )
  method MapRun(pm: PageManager, base: u64, newBase: u64, rva: nat, size: nat, flags: u64,
                ghost s0: Snapshot, ghost imageSize: nat, ghost before: seq<Page>, ghost filled: seq<Section>)
    returns (status: Status, ghost done: seq<Page>)
    requires pm.Valid() && MappedPages(s0, pm.Now(), base, newBase, imageSize, before, filled)
             && Taken(s0, pm.Now(), newBase, before)
    requires RunClear(s0, newBase, PageOffsets(rva, size, flags))
    modifies pm`freeHead, pm`free, pm`held, pm`tables, pm.pfn, pm.mem
    ensures pm.Valid() && pm.held == old(pm.held)
    ensures MappedPages(s0, pm.Now(), base, newBase, imageSize, done, filled) && before <= done
    ensures Outcome(s0, pm.Now(), newBase, done, before + PageOffsets(rva, size, flags), status)
  {
    hide PageManager.Valid, MappedPages, PageOffsets, MapResult, Snapshot.PathClear, RunClear, Taken, RanOut, Outcome;
    var offset := 0;
    done := before;
    NoOffsets(rva, flags, before);
    while offset < size
      invariant offset % PAGE_SIZE == 0 && offset < size + PAGE_SIZE
      invariant done == before + PageOffsets(rva, offset, flags)
      invariant pm.Valid() && pm.held == old(pm.held)
      invariant MappedPages(s0, pm.Now(), base, newBase, imageSize, done, filled)
      invariant Taken(s0, pm.Now(), newBase, done)
    {
      ghost var p, now := Page(rva + offset, flags), pm.Now();
      NextPage(s0, now, base, newBase, imageSize, rva, offset, size, flags, before, filled);
      TreeOf(pm);
      status := pm.MapPage((newBase + (rva + offset)) % WORD_LIMIT, (base + (rva + offset)) % WORD_LIMIT, flags);
      PageStep(s0, now, pm.Now(), base, newBase, imageSize, done, filled, p, before + PageOffsets(rva, size, flags),
               status);
      if status != Success {
        return;
      }
      done := done + [p];
      offset := offset + PAGE_SIZE;
    }
    OffsetsPrefix(rva, offset, size, flags);
    status := Success;
    AllDone(s0, pm.Now(), newBase, done);
  }

  // How a sequence of pages ends: all of them are mapped and exactly their tables taken, or the frames
  // sufficed for the pages in done and for no more
  ghost predicate Outcome(s0: Snapshot, s: Snapshot, newBase: u64, done: seq<Page>, pages: seq<Page>, status: Status)
  {
    if status == Success then done == pages && Taken(s0, s, newBase, pages)
    else status == OutOfResources && RanOut(s0, s, newBase, done, pages)
  }

  lemma TreeOf(pm: PageManager)
    requires pm.Valid()
    ensures TreeInv(pm.mem[..], pm.Root(), pm.tables) && AllClean(pm.mem[..], pm.free)
  {
  }

  // One page of a list: mapped, or the end of the list's run
  lemma PageStep(s0: Snapshot, s: Snapshot, s': Snapshot, base: u64, newBase: u64, size: nat, done: seq<Page>,
                 filled: seq<Section>, p: Page, all: seq<Page>, status: Status)
    requires MappedPages(s0, s, base, newBase, size, done, filled) && Taken(s0, s, newBase, done)
    requires TreeInv(s.mem, s.root, s.tables) && done + [p] <= all
    requires MapResult(s, s', status, (newBase + p.rva) % WORD_LIMIT, (base + p.rva) % WORD_LIMIT, 3, p.flags)
    ensures MappedPages(s0, s', base, newBase, size, if status == Success then done + [p] else done, filled)
    ensures if status == Success then Taken(s0, s', newBase, done + [p])
            else Outcome(s0, s', newBase, done, all, status)
  {
    hide MappedPages, Taken, TreeInv, MapResult, RanOut, Outcome;
    OnePageMore(s0, s, s', base, newBase, size, done, filled, p, status);
    PageTakes(s0, s, s', base, newBase, done, p, status);
    if status != Success {
      RefusedWithin(s0, s', newBase, done, p, all, status);
    }
  }

  lemma AllDone(s0: Snapshot, s: Snapshot, newBase: u64, done: seq<Page>)
    requires Taken(s0, s, newBase, done)
    ensures Outcome(s0, s, newBase, done, done, Success)
  {
    hide Taken;
  }

  lemma RefusedWithin(s0: Snapshot, s: Snapshot, newBase: u64, done: seq<Page>, p: Page, all: seq<Page>, status: Status)
    requires status == OutOfResources && RanOut(s0, s, newBase, done, done + [p]) && done + [p] <= all
    ensures Outcome(s0, s, newBase, done, all, status)
  {
    hide PagesNeeded, Supply, AfterFailure;
    assert (done + [p])[..|done| + 1] == done + [p];
    assert all[..|done| + 1] == done + [p] && all[..|done|] == done;
  }

  lemma OutcomeWithin(s0: Snapshot, s: Snapshot, newBase: u64, done: seq<Page>, some: seq<Page>, all: seq<Page>,
                      status: Status)
    requires Outcome(s0, s, newBase, done, some, status) && some <= all
    ensures status == Success ==> done == some && Taken(s0, s, newBase, done)
    ensures status != Success ==> Outcome(s0, s, newBase, done, all, status)
  {
    hide PagesNeeded, Supply, AfterFailure, Taken;
    if status != Success {
      assert all[..|done| + 1] == some[..|done| + 1] && all[..|done|] == some[..|done|];
    }
  }

  /** Success is decided by the tables that all pages together need. */
  lemma SuccessExactlyWhen(s0: Snapshot, s: Snapshot, newBase: u64, done: seq<Page>, pages: seq<Page>, status: Status)
    requires Outcome(s0, s, newBase, done, pages, status)
    ensures status == Success <==> PagesNeeded(s0.tables, newBase, pages) <= Supply(s0.free)
    ensures done <= pages && (status == Success ==> done == pages)
  {
    hide PagesNeeded, Supply, AfterFailure;
    if status != Success {
      NeededGrows(s0.tables, newBase, pages[..|done| + 1], pages);
    }
  }

  // No page of the run has an obstructed path
  ghost predicate RunClear(s: Snapshot, newBase: u64, pages: seq<Page>)
  {
    forall p :: p in pages ==> s.PathClear((newBase + p.rva) % WORD_LIMIT, 3)
  }

  lemma OnePageClear(s: Snapshot, newBase: u64, pages: seq<Page>, p: Page)
    requires RunClear(s, newBase, pages) && p in pages
    ensures s.PathClear((newBase + p.rva) % WORD_LIMIT, 3)
  {
    hide Snapshot.PathClear;
  }

  // What a round of the loop needs to know about the page it is going to map
  lemma NextPage(s0: Snapshot, s: Snapshot, base: u64, newBase: u64, imageSize: nat,
                 rva: nat, offset: nat, size: nat, flags: u64, before: seq<Page>, filled: seq<Section>)
    requires offset % PAGE_SIZE == 0 && offset < size
    requires RunClear(s0, newBase, PageOffsets(rva, size, flags))
    requires MappedPages(s0, s, base, newBase, imageSize, before + PageOffsets(rva, offset, flags), filled)
    ensures s.PathClear((newBase + (rva + offset)) % WORD_LIMIT, 3)
    ensures before <= before + PageOffsets(rva, offset, flags) <= before + PageOffsets(rva, size, flags)
    ensures before + PageOffsets(rva, offset + PAGE_SIZE, flags)
            == before + PageOffsets(rva, offset, flags) + [Page(rva + offset, flags)]
            <= before + PageOffsets(rva, size, flags)
  {
    hide MappedPages, PageOffsets, Snapshot.PathClear, RunClear;
    var p, front, all := Page(rva + offset, flags), PageOffsets(rva, offset, flags), PageOffsets(rva, size, flags);
    var v := (newBase + (rva + offset)) % WORD_LIMIT;
    assert v == (newBase + p.rva) % WORD_LIMIT;
    OffsetsPrefix(rva, offset, size, flags);
    OffsetsGrow(rva, offset, flags);
    PageListed(front, p, all, before);
    OnePageClear(s0, newBase, all, p);
    hide *;
    StillClear(s0, s, base, newBase, imageSize, before + front, filled, v);
  }

  lemma NoOffsets(rva: nat, flags: u64, before: seq<Page>)
    ensures before + PageOffsets(rva, 0, flags) == before
  {
  }

  lemma PageListed(front: seq<Page>, p: Page, all: seq<Page>, before: seq<Page>)
    requires front + [p] <= all
    ensures p in all && before + front <= before + all && before + (front + [p]) == before + front + [p] <= before + all
  {
    assert (front + [p])[|front|] == p;
    assert all[|front|] == p;
  }

  lemma StillClear(s0: Snapshot, s: Snapshot, base: u64, newBase: u64, size: nat, done: seq<Page>,
                   filled: seq<Section>, v: u64)
    requires MappedPages(s0, s, base, newBase, size, done, filled) && s0.PathClear(v, 3)
    ensures s.PathClear(v, 3)
  {
    hide Snapshot.PathClear;
  }

  lemma RunIsListed(img: Bytes, i: nat)
    requires TableFits(img) && i < NumberOfSections(img)
    ensures AllSectionPages(Sections(img)[..i + 1])
            == AllSectionPages(Sections(img)[..i]) + SectionPages(SectionAt(img, i))
    ensures var front := KernelPagesUpTo(img, i) + SectionPages(SectionAt(img, i));
            front == KernelPagesUpTo(img, i + 1) && front <= KernelPages(img)
  {
    hide SectionPages, AllSectionPages, PageOffsets, SectionAt, HeadersFit;
    var sections := Sections(img);
    OneSectionMore(sections, i);
    PagesPrefix(sections, i + 1);
    var headers := PageOffsets(0, SizeOfHeaders(img), Or(PAGE_FLAG_PRESENT, PAGE_FLAG_RW));
    assert headers + AllSectionPages(sections[..i]) + SectionPages(sections[i])
           == headers + (AllSectionPages(sections[..i]) + SectionPages(sections[i]));
  }

  lemma OneSectionMore(sections: seq<Section>, i: nat)
    requires i < |sections|
    ensures AllSectionPages(sections[..i + 1]) == AllSectionPages(sections[..i]) + SectionPages(sections[i])
  {
    hide SectionPages;
    assert sections[..i + 1][..i] == sections[..i];
  }

  lemma {:induction false} PagesPrefix(sections: seq<Section>, i: nat)
    requires i <= |sections|
    ensures AllSectionPages(sections[..i]) <= AllSectionPages(sections)
    decreases |sections|
  {
    var n := |sections|;
    if i < n {
      PagesPrefix(sections[..n - 1], i);
      assert sections[..n - 1][..i] == sections[..i];
    } else {
      assert sections[..i] == sections;
    }
  }

  lemma KernelPagesEnds(img: Bytes)
    requires TableFits(img)
    ensures PageOffsets(0, SizeOfHeaders(img), Or(PAGE_FLAG_PRESENT, PAGE_FLAG_RW)) == KernelPagesUpTo(img, 0)
    ensures KernelPagesUpTo(img, 0) <= KernelPages(img)
            && KernelPagesUpTo(img, NumberOfSections(img)) == KernelPages(img)
  {
    hide PageOffsets, SectionPages;
    assert Sections(img)[..NumberOfSections(img)] == Sections(img);
  }

  // MapKernel. The headers are read from memory in every round; neither mapping pages nor the fills, if they
  // spare the image and the tables, change them.
  method MapKernel(pm: PageManager, virtualImageBase: u64, newVirtualImageBase: u64, imageSize: nat)
    returns (status: Status, ghost done: seq<Page>, ghost filled: seq<Section>)
    requires pm.Valid() && ImageApart(pm.Now(), virtualImageBase, imageSize)
    requires TableFits(ImageBytes(pm.mem[..], virtualImageBase, imageSize))
    requires RunClear(pm.Now(), newVirtualImageBase, KernelPages(ImageBytes(pm.mem[..], virtualImageBase, imageSize)))
    requires FillsApart(pm.Now(), newVirtualImageBase, ImageBytes(pm.mem[..], virtualImageBase, imageSize),
                        virtualImageBase)
    modifies pm`freeHead, pm`free, pm`held, pm`tables, pm.pfn, pm.mem
    ensures pm.Valid() && pm.held == old(pm.held)
    ensures var img := old(ImageBytes(pm.mem[..], virtualImageBase, imageSize));
            && MappedPages(old(pm.Now()), pm.Now(), virtualImageBase, newVirtualImageBase, imageSize, done, filled)
            && FilledSoFar(img, done, filled, status)
            && Outcome(old(pm.Now()), pm.Now(), newVirtualImageBase, done, KernelPages(img), status)
            && (status == Success
                <==> PagesNeeded(old(pm.tables), newVirtualImageBase, KernelPages(img)) <= Supply(old(pm.free)))
  {
    hide PageManager.Valid, MappedPages, PageOffsets, Snapshot.PathClear, ImageApart, AllSectionPages, SectionPages;
    hide RunClear, FillSpares, FillStart, FillEnd, FilledSoFar;
    hide KernelPages, KernelPagesUpTo, HeadersFit, SectionHeader, NumberOfSections, SectionAt, SizeOfHeaders;
    hide ImageBytes;
    hide Sections, Taken, Outcome, FillsApart, FillApart, PagesNeeded, Supply;
    ghost var s0 := pm.Now();
    var base, newBase := virtualImageBase, newVirtualImageBase;
    ghost var img := ImageBytes(pm.mem[..], base, imageSize);
    ghost var pages, sections := KernelPages(img), Sections(img);
    NothingMapped(s0, base, newBase, imageSize);
    NothingTaken(s0, newBase);
    KernelPagesEnds(img);
    FewerPagesClear(s0, newBase, KernelPagesUpTo(img, 0), pages);
    status, done := MapRun(pm, base, newBase, 0, SizeOfHeaders(ImageBytes(pm.mem[..], base, imageSize)),
                           Or(PAGE_FLAG_PRESENT, PAGE_FLAG_RW), s0, imageSize, [], []);
    NoPagesBefore(KernelPagesUpTo(img, 0));
    OutcomeWithin(s0, pm.Now(), newBase, done, KernelPagesUpTo(img, 0), pages, status);
    if status != Success {
      filled := [];
      StoppedInHeaders(s0, pm.Now(), newBase, img, done, status);
      SuccessExactlyWhen(s0, pm.Now(), newBase, done, pages, status);
      return;
    }
    ImageIntact(s0, pm.Now(), base, newBase, imageSize, done, []);
    var i := 0;
    filled := [];
    SectionsBefore(img, 0);
    while i < NumberOfSections(ImageBytes(pm.mem[..], base, imageSize))
      invariant 0 <= i <= NumberOfSections(img) && done == KernelPagesUpTo(img, i) && filled == sections[..i]
      invariant |sections| == NumberOfSections(img) && ImageBytes(pm.mem[..], base, imageSize) == img
      invariant pm.Valid() && pm.held == old(pm.held)
      invariant MappedPages(s0, pm.Now(), base, newBase, imageSize, done, filled)
      invariant Taken(s0, pm.Now(), newBase, done)
    {
      var section := SectionAt(ImageBytes(pm.mem[..], base, imageSize), i);
      RunIsListed(img, i);
      SectionRun(img, i, s0, newBase);
      FillOf(s0, newBase, img, base, i);
      FillAllowed(s0, pm.Now(), base, newBase, imageSize, filled, img, i);
      ghost var unfilled := pm.Now();
      FillSection(pm, section, s0, base, newBase, imageSize, done, filled);
      StillTaken(s0, unfilled, pm.mem[..], newBase, done);
      SectionsBefore(img, i);
      filled := filled + [section];
      status, done := MapRun(pm, base, newBase, section.virtualAddress, AlignNextPage(section.virtualSize),
                             SectionFlags(section), s0, imageSize, done, filled);
      if status != Success {
        StoppedInSection(s0, pm.Now(), newBase, img, done, status, i);
      }
      OutcomeWithin(s0, pm.Now(), newBase, done, KernelPagesUpTo(img, i + 1), pages, status);
      if status != Success {
        SuccessExactlyWhen(s0, pm.Now(), newBase, done, pages, status);
        return;
      }
      ImageIntact(s0, pm.Now(), base, newBase, imageSize, done, filled);
      i := i + 1;
    }
    status := Success;
    FilledAll(img, done);
    AllDone(s0, pm.Now(), newBase, done);
    SuccessExactlyWhen(s0, pm.Now(), newBase, done, pages, status);
  }

  // Sections are filled one before its pages are mapped: all of them after success, and otherwise those up to the one
  // that the last page in done is followed by
  ghost predicate FilledSoFar(img: Bytes, done: seq<Page>, filled: seq<Section>, status: Status)
    requires TableFits(img)
  {
    && filled <= Sections(img) && |filled| <= NumberOfSections(img)
    && if status == Success then filled == Sections(img)
       else |done| < |KernelPagesUpTo(img, |filled|)|
            && (filled != [] ==> |KernelPagesUpTo(img, |filled| - 1)| <= |done|)
  }

  lemma StoppedInHeaders(s0: Snapshot, s: Snapshot, newBase: u64, img: Bytes, done: seq<Page>, status: Status)
    requires TableFits(img) && status != Success
    requires Outcome(s0, s, newBase, done, KernelPagesUpTo(img, 0), status)
    ensures FilledSoFar(img, done, [], status)
  {
    hide KernelPagesUpTo, PagesNeeded, Supply, AfterFailure;
  }

  lemma StoppedInSection(s0: Snapshot, s: Snapshot, newBase: u64, img: Bytes, done: seq<Page>, status: Status, i: nat)
    requires TableFits(img) && i < NumberOfSections(img) && status != Success
    requires Outcome(s0, s, newBase, done, KernelPagesUpTo(img, i + 1), status) && KernelPagesUpTo(img, i) <= done
    ensures FilledSoFar(img, done, Sections(img)[..i + 1], status)
  {
    SectionsBefore(img, i + 1);
    hide KernelPagesUpTo, PagesNeeded, Supply, AfterFailure, Sections;
  }

  lemma FilledAll(img: Bytes, done: seq<Page>)
    requires TableFits(img)
    ensures FilledSoFar(img, done, Sections(img), Success) && Sections(img)[..|Sections(img)|] == Sections(img)
  {
    hide KernelPagesUpTo;
  }

  lemma FillOf(s0: Snapshot, newBase: u64, img: Bytes, base: nat, i: nat)
    requires TableFits(img) && i < NumberOfSections(img) && FillsApart(s0, newBase, img, base)
    ensures FillApart(s0, newBase, img, base, i)
  {
    hide FillApart;
  }

  lemma StillTaken(s0: Snapshot, s: Snapshot, mem': Memory, newBase: u64, done: seq<Page>)
    requires Taken(s0, s, newBase, done)
    ensures Taken(s0, s.(mem := mem'), newBase, done)
  {
    hide PagesNeeded, PageNodes, Supply;
  }

  lemma SectionsBefore(img: Bytes, i: nat)
    requires TableFits(img) && i <= NumberOfSections(img)
    ensures |Sections(img)| == NumberOfSections(img) && Sections(img)[..0] == []
    ensures i < NumberOfSections(img) ==> Sections(img)[..i] + [SectionAt(img, i)] == Sections(img)[..i + 1]
    ensures Sections(img)[..i] <= Sections(img)
  {
    hide SectionAt;
  }

  lemma NoPagesBefore(pages: seq<Page>)
    ensures [] + pages == pages
  {
  }

  lemma FewerPagesClear(s: Snapshot, newBase: u64, some: seq<Page>, all: seq<Page>)
    requires RunClear(s, newBase, all) && some <= all
    ensures RunClear(s, newBase, some)
  {
    hide Snapshot.PathClear;
  }

  lemma ImageIntact(s0: Snapshot, s: Snapshot, base: u64, newBase: u64, size: nat, done: seq<Page>,
                    filled: seq<Section>)
    requires MappedPages(s0, s, base, newBase, size, done, filled)
    ensures ImageBytes(s.mem, base, size) == ImageBytes(s0.mem, base, size)
  {
  }

  lemma SectionRun(img: Bytes, i: nat, s0: Snapshot, newBase: u64)
    requires TableFits(img) && i < NumberOfSections(img)
    requires RunClear(s0, newBase, KernelPages(img))
    ensures var s := SectionAt(img, i);
            && SectionPages(s) == PageOffsets(s.virtualAddress, AlignNextPage(s.virtualSize), SectionFlags(s))
            && RunClear(s0, newBase, PageOffsets(s.virtualAddress, AlignNextPage(s.virtualSize), SectionFlags(s)))
  {
    RunIsListed(img, i);
    hide KernelPages, KernelPagesUpTo, PageOffsets, Snapshot.PathClear;
    var front := KernelPagesUpTo(img, i);
    forall p | p in SectionPages(SectionAt(img, i))
      ensures p in KernelPages(img)
    {
      assert p in front + SectionPages(SectionAt(img, i));
    }
  }

  // ---------------------------------------------------------------- what the kernel sees

  // The image fits below a limit, page-aligned in memory and at its virtual base
  ghost predicate KernelFits(img: Bytes, base: nat, newBase: nat, limit: nat)
    requires TableFits(img)
  {
    && base % PAGE_SIZE == 0 && newBase % PAGE_SIZE == 0 && limit % PAGE_SIZE == 0
    && base + limit <= 0x10_0000_0000_0000 && newBase + limit <= WORD_LIMIT
    && (forall v :: newBase <= v < newBase + limit ==> Canonical(v))
    && SizeOfHeaders(img) <= limit
    && forall s :: s in Sections(img) ==>
         s.virtualAddress % PAGE_SIZE == 0 && s.virtualAddress + AlignNextPage(s.virtualSize) <= limit
  }

  // The offsets that belong to the headers or to a section
  ghost predicate Visible(img: Bytes, x: nat)
    requires TableFits(img)
  {
    x < SizeOfHeaders(img) || exists s :: s in Sections(img) && s.virtualAddress <= x < s.virtualAddress + s.virtualSize
  }

  lemma {:induction false} OffsetsWithin(rva: nat, size: nat, flags: u64, limit: nat, p: Page)
    requires p in PageOffsets(rva, size, flags) && rva + size <= limit
    ensures p.rva < limit && p.flags == flags
    decreases size
  {
    if size > 0 {
      var last := (size - 1) / PAGE_SIZE * PAGE_SIZE;
      if p != Page(rva + last, flags) {
        OffsetsWithin(rva, last, flags, limit, p);
      }
    }
  }

  lemma {:induction false} SectionPagesWithin(sections: seq<Section>, limit: nat, p: Page)
    requires p in AllSectionPages(sections)
    requires forall s :: s in sections ==> s.virtualAddress + AlignNextPage(s.virtualSize) <= limit
    ensures p.rva < limit && Present(p.flags)
  {
    var front, last := sections[..|sections| - 1], sections[|sections| - 1];
    assert last in sections;
    hide AlignNextPage, PageOffsets, SectionFlags, Present;
    if p in AllSectionPages(front) {
      SectionPagesWithin(front, limit, p);
    } else {
      OffsetsWithin(last.virtualAddress, AlignNextPage(last.virtualSize), SectionFlags(last), limit, p);
      SectionFlagsPresent(last);
    }
  }

  lemma SectionFlagsPresent(s: Section)
    ensures Present(SectionFlags(s))
  {
    PresentAndWritable();
  }

  lemma KernelPageWithin(img: Bytes, limit: nat, p: Page)
    requires TableFits(img) && p in KernelPages(img) && SizeOfHeaders(img) <= limit
    requires forall s :: s in Sections(img) ==> s.virtualAddress + AlignNextPage(s.virtualSize) <= limit
    ensures p.rva < limit && Present(p.flags)
  {
    PresentAndWritable();
    assert Present(3);
    hide PageOffsets, AllSectionPages, Present, Sections;
    if p in PageOffsets(0, SizeOfHeaders(img), Or(PAGE_FLAG_PRESENT, PAGE_FLAG_RW)) {
      OffsetsWithin(0, SizeOfHeaders(img), Or(PAGE_FLAG_PRESENT, PAGE_FLAG_RW), limit, p);
    } else {
      SectionPagesWithin(Sections(img), limit, p);
    }
  }

  lemma KernelPagesOk(img: Bytes, base: nat, newBase: nat, limit: nat)
    requires TableFits(img) && KernelFits(img, base, newBase, limit)
    ensures PagesOk(KernelPages(img), newBase, base)
  {
    hide KernelPages, AlignNextPage, Sections, SizeOfHeaders, Present, Canonical;
    forall i | 0 <= i < |KernelPages(img)|
      ensures PageOk(KernelPages(img)[i], newBase, base) && Canonical(newBase + KernelPages(img)[i].rva)
    {
      KernelPageWithin(img, limit, KernelPages(img)[i]);
    }
  }

  lemma {:induction false} SectionIsCovered(sections: seq<Section>, newBase: nat, s: Section, x: nat)
    requires s in sections && newBase % PAGE_SIZE == 0 && s.virtualAddress % PAGE_SIZE == 0
    requires s.virtualAddress <= x < s.virtualAddress + s.virtualSize
    ensures SomeCovers(AllSectionPages(sections), newBase, x)
  {
    var front, last := sections[..|sections| - 1], sections[|sections| - 1];
    CoverConcat(AllSectionPages(front), SectionPages(last), newBase, x);
    if s == last {
      AlignMacro(s.virtualSize + 0xFFF);
      OffsetsCover(newBase, s.virtualAddress, AlignNextPage(s.virtualSize), SectionFlags(s), x);
    } else {
      SectionIsCovered(front, newBase, s, x);
    }
  }

  lemma VisibleIsCovered(img: Bytes, base: nat, newBase: nat, limit: nat, x: nat)
    requires TableFits(img) && KernelFits(img, base, newBase, limit) && Visible(img, x)
    ensures SomeCovers(KernelPages(img), newBase, x) && x < limit
  {
    hide SomeCovers, PageOffsets, AllSectionPages, AlignNextPage, Canonical, Sections, SizeOfHeaders;
    var flags := Or(PAGE_FLAG_PRESENT, PAGE_FLAG_RW);
    CoverConcat(PageOffsets(0, SizeOfHeaders(img), flags), AllSectionPages(Sections(img)), newBase, x);
    if x < SizeOfHeaders(img) {
      OffsetsCover(newBase, 0, SizeOfHeaders(img), flags, x);
    } else {
      var s :| s in Sections(img) && s.virtualAddress <= x < s.virtualAddress + s.virtualSize;
      SectionWithin(s, limit, x);
      SectionIsCovered(Sections(img), newBase, s, x);
    }
  }

  lemma SectionWithin(s: Section, limit: nat, x: nat)
    requires s.virtualAddress + AlignNextPage(s.virtualSize) <= limit
             && s.virtualAddress <= x < s.virtualAddress + s.virtualSize
    ensures x < limit
  {
    AlignMacro(s.virtualSize + 0xFFF);
  }

  // Loads from the virtual base on yield the image, at every offset in the headers or in a section
  ghost predicate SeesImage(s: Snapshot, img: Bytes, newBase: u64)
    requires TableFits(img)
  {
    forall x: nat :: x < |img| && Visible(img, x) ==>
      newBase + x < WORD_LIMIT && VirtByte(s, newBase + x) == Byte(img[x])
  }

  /** After MapKernel succeeded, a load from the virtual base plus any offset in the headers or in a
      section yields the byte of the image at that offset, however the pages overlap. */
  lemma KernelSeesImage(s0: Snapshot, s: Snapshot, base: u64, newBase: u64, size: nat, limit: nat,
                        filled: seq<Section>)
    requires TableFits(ImageBytes(s0.mem, base, size))
    requires MappedPages(s0, s, base, newBase, size, KernelPages(ImageBytes(s0.mem, base, size)), filled)
    requires KernelFits(ImageBytes(s0.mem, base, size), base, newBase, limit)
    ensures SeesImage(s, ImageBytes(s0.mem, base, size), newBase)
  {
    hide TableFits, Visible, KernelFits, MappedPages, KernelPages, ImageBytes, VirtByte;
    forall x: nat | x < size && Visible(ImageBytes(s0.mem, base, size), x)
      ensures newBase + x < WORD_LIMIT && VirtByte(s, newBase + x) == Byte(ImageBytes(s0.mem, base, size)[x])
    {
      KernelSeesByte(s0, s, base, newBase, size, limit, filled, x);
    }
  }

  lemma KernelSeesByte(s0: Snapshot, s: Snapshot, base: u64, newBase: u64, size: nat, limit: nat,
                       filled: seq<Section>, x: nat)
    requires TableFits(ImageBytes(s0.mem, base, size))
    requires MappedPages(s0, s, base, newBase, size, KernelPages(ImageBytes(s0.mem, base, size)), filled)
    requires KernelFits(ImageBytes(s0.mem, base, size), base, newBase, limit)
    requires Visible(ImageBytes(s0.mem, base, size), x) && x < size
    ensures newBase + x < WORD_LIMIT && VirtByte(s, newBase + x) == Byte(ImageBytes(s0.mem, base, size)[x])
  {
    hide *;
    var img := ImageBytes(s0.mem, base, size);
    KernelPagesOk(img, base, newBase, limit);
    VisibleIsCovered(img, base, newBase, limit, x);
    InsideLimit(img, base, newBase, limit, x);
    PagesSendBytes(s0.View(newBase + x), newBase, base, KernelPages(img), x);
    CoveredView(s0, s, base, newBase, size, KernelPages(img), filled, x);
    LoadsFrom(s0, s, base, newBase, size, KernelPages(img), filled, x);
  }

  lemma CoveredView(s0: Snapshot, s: Snapshot, base: u64, newBase: u64, size: nat, pages: seq<Page>,
                    filled: seq<Section>, x: nat)
    requires MappedPages(s0, s, base, newBase, size, pages, filled) && newBase + x < WORD_LIMIT
    requires SentTo(PagesAt(s0.View(newBase + x), newBase, base, pages, newBase + x), s0.View(newBase + x),
                    pages, newBase, base, x)
    requires SomeCovers(pages, newBase, x)
    ensures s.View(newBase + x).Mapped? && s.View(newBase + x).pa == base + x
  {
    hide Snapshot.View, PagesAt, SomeCovers, ImageApart, ImageBytes, Snapshot.PathClear, Drawn, OthersFilled;
  }

  lemma LoadsFrom(s0: Snapshot, s: Snapshot, base: u64, newBase: u64, size: nat, pages: seq<Page>,
                  filled: seq<Section>, x: nat)
    requires MappedPages(s0, s, base, newBase, size, pages, filled) && x < size && newBase + x < WORD_LIMIT
    requires s.View(newBase + x).Mapped? && s.View(newBase + x).pa == base + x
    ensures VirtByte(s, newBase + x) == Byte(ImageBytes(s0.mem, base, size)[x])
  {
    ImageIntact(s0, s, base, newBase, size, pages, filled);
    hide Snapshot.View, PagesAt, PhysByte, MappedPages, ImageBytes;
    assert ImageBytes(s.mem, base, size)[x] == PhysByte(s.mem, base + x);
  }

  lemma InsideLimit(img: Bytes, base: nat, newBase: nat, limit: nat, x: nat)
    requires TableFits(img) && KernelFits(img, base, newBase, limit) && x < limit
    ensures newBase + x < WORD_LIMIT && newBase + x < 0x1_0000_0000_0000_0000
    ensures Canonical(newBase + x) && newBase % PAGE_SIZE == base % PAGE_SIZE
  {
  }
}
