/**
  UefiMain from the second memory map to the kernel's entry: paging is set up, the stack and code pages are
  mapped, and the kernel image is mapped at its virtual base.
 */
module Startup {
  import opened Bits
  import opened PageWalk
  import opened FreeList
  import opened PageTree
  import opened Mapping
  import opened Paging
  import opened Separation
  import opened DirectMap
  import opened TableCost
  import opened IdentityMap
  import opened Boot
  import opened ByteOrder
  import opened Pe
  import opened Placement
  import opened Relocation
  import opened RelocationWalk
  import opened ImageMemory
  import opened KernelMap
  import opened KernelRights
  import opened Loader

  const KERNEL_VA_BASE := 0xFFFF_FFFF_8000_0000
  const KERNEL_VA_STACK := KERNEL_VA_BASE - 0x2000

  // ---------------------------------------------------------------- one page for the upper half

  // A page was taken from the allocator and mapped at va, whatever the two calls returned
  ghost predicate NewPageMapped(s: Snapshot, s': Snapshot, va: u64, page: nat)
  {
    var s1 := s.(free := AfterFailure(s.free));
    var status := if Missing(s.tables, va, 3) <= Supply(s1.free) then Success else OutOfResources;
    && page == (if Supply(s.free) > 0 then s.free[0] * PAGE_SIZE else 0) && page < 0x10_0000_0000_0000
    && MapResult(s1, s', status, va, page, 3, 3)
  }

  // The page at va leads to the given physical page, byte by byte, and may be written
  ghost predicate PageAt(s: Snapshot, va: nat, page: nat)
  {
    forall v: u64 :: va <= v < va + PAGE_SIZE ==> s.View(v) == Mapped(page + (v - va), true, false, false, 0)
  }

  lemma FlagsOfThree()
    ensures Present(3) && Writable(3) && !NoExecute(3) && MemoryType(3, 3) == 0
  {
  }

  lemma UpperBits(v: u64)
    requires v >= HIGH_HALF_START
    ensures v % VA_SPACE >= LOW_HALF_END
  {
  }

  lemma SameView(s: Snapshot, s': Snapshot)
    requires s'.mem == s.mem && s'.root == s.root
    ensures forall v: u64 :: s'.View(v) == s.View(v)
  {
  }

  lemma LowElsewhere(t: Translation, va: u64, pa: u64, flags: u64, v: u64)
    requires va >= HIGH_HALF_START && v < LOW_HALF_END
    ensures MapAt(t, va, pa, 3, flags, v) == t
  {
    UpperBits(va);
    AboveSlotOf(va, v);
  }

  lemma AboveSlotOf(va: u64, v: u64)
    requires va % VA_SPACE >= LOW_HALF_END && v < LOW_HALF_END
    ensures Slot(v, 3) != Slot(va, 3)
  {
  }

  lemma PathsKept(s: Snapshot, s': Snapshot, status: Status, va: u64, pa: u64, flags: u64)
    requires MapResult(s, s', status, va, pa, 3, flags)
    ensures forall v: u64, deep: nat :: deep <= 3 && s.PathClear(v, deep) ==> s'.PathClear(v, deep)
  {
    hide Snapshot.View, OthersUntouched, Snapshot.PathClear, MapAt, Extend, Prune;
  }

  lemma MapTakes(s: Snapshot, s': Snapshot, status: Status, va: u64, pa: u64, flags: u64)
    requires MapResult(s, s', status, va, pa, 3, flags)
    ensures status == Success <==> Missing(s.tables, va, 3) <= Supply(s.free)
    ensures status == Success ==> s'.free == s.free[Missing(s.tables, va, 3)..]
    ensures Missing(s.tables, va, 3) <= 3
  {
    hide Snapshot.View, OthersUntouched, ClearElsewhere, MapAt, Extend, Prune;
  }

  lemma OtherPage(t: Translation, va: u64, pa: u64, flags: u64, other: u64, v: u64)
    requires va % PAGE_SIZE == 0 && other % PAGE_SIZE == 0 && va != other && other <= v < other + PAGE_SIZE
    requires va >= HIGH_HALF_START && other >= HIGH_HALF_START
    ensures MapAt(t, va, pa, 3, flags, v) == t
  {
    RemainderUnique(v, PAGE_SIZE, other / PAGE_SIZE, v - other);
    SmallSlot(va, v);
    hide Slot, EndOfWalk;
  }

  // What the calls for one page leave to know: the page, the map, and the frames that they took
  lemma PageParts(s: Snapshot, s': Snapshot, va: u64, page: nat)
    requires NewPageMapped(s, s', va, page)
    ensures var s1 := s.(free := AfterFailure(s.free));
            var status := if Missing(s.tables, va, 3) <= Supply(s1.free) then Success else OutOfResources;
            page % PAGE_SIZE == 0 && page < 0x10_0000_0000_0000 && MapResult(s1, s', status, va, page, 3, 3)
    ensures Supply(s.free) > 0 ==> s.free != [] && Supply(AfterFailure(s.free)) == Supply(s.free) - 1
    ensures Missing(s.tables, va, 3) <= 3
  {
    hide MapResult;
    if Supply(s.free) > 0 {
      SupplyAfter(s.free, 1);
    }
  }

  /** The page is mapped if the list supplies it and the tables on its path. */
  lemma NewPageAt(s: Snapshot, s': Snapshot, va: u64, page: nat)
    requires NewPageMapped(s, s', va, page) && va >= HIGH_HALF_START && va % PAGE_SIZE == 0
    requires 1 + Missing(s.tables, va, 3) <= Supply(s.free)
    ensures PageAt(s', va, page)
  {
    var s1 := s.(free := AfterFailure(s.free));
    PageParts(s, s', va, page);
    hide NewPageMapped, Missing, Supply, AfterFailure;
    MappedView(s1, s', Success, va, page, 3);
    hide MapResult, Snapshot.View, MapAt;
    FlagsOfThree();
    forall v: u64 | va <= v < va + PAGE_SIZE
      ensures MapAt(s1.View(v), va, page, 3, 3, v) == Mapped(page + (v - va), true, false, false, 0)
    {
      AlignedPage(s1.View(v), va, page, 3, 3, v);
    }
  }

  lemma PageStays(s: Snapshot, s': Snapshot, va: u64, page: nat, other: u64, at: nat)
    requires NewPageMapped(s, s', va, page) && PageAt(s, other, at)
    requires va % PAGE_SIZE == 0 && other % PAGE_SIZE == 0 && va != other && va >= HIGH_HALF_START
             && other >= HIGH_HALF_START
    ensures PageAt(s', other, at)
  {
    var s1 := s.(free := AfterFailure(s.free));
    var status := if Missing(s.tables, va, 3) <= Supply(s1.free) then Success else OutOfResources;
    PageParts(s, s', va, page);
    SameView(s, s1);
    hide NewPageMapped, Missing, Supply, AfterFailure;
    MappedView(s1, s', status, va, page, 3);
    hide MapResult, Snapshot.View, MapAt;
    forall v: u64 | other <= v < other + PAGE_SIZE
      ensures MapAt(s1.View(v), va, page, 3, 3, v) == s1.View(v)
    {
      OtherPage(s1.View(v), va, page, 3, other, v);
    }
  }

  lemma PathsStay(s: Snapshot, s': Snapshot, va: u64, page: nat, v: u64)
    requires NewPageMapped(s, s', va, page) && s.PathClear(v, 3)
    ensures s'.PathClear(v, 3)
  {
    var s1 := s.(free := AfterFailure(s.free));
    PageParts(s, s', va, page);
    hide NewPageMapped, Missing, Supply, AfterFailure;
    assert s1.PathClear(v, 3);
    PathsStayClear(s1, s', if Missing(s.tables, va, 3) <= Supply(s1.free) then Success else OutOfResources,
                   va, page, 3);
    hide Snapshot.PathClear;
  }

  // AllocatePage, and MapPage with what it yields; the code tests neither result
  method MapNewPage(pm: PageManager, va: u64) returns (page: nat)
    requires pm.Valid() && pm.Now().PathClear(va, 3)
    modifies pm`freeHead, pm`free, pm`held, pm`tables, pm.pfn, pm.mem
    ensures pm.Valid() && NewPageMapped(old(pm.Now()), pm.Now(), va, page)
    ensures pm.held == old(pm.held) + if page != 0 then {page / PAGE_SIZE} else {}
  {
    hide PageManager.ValidTables, Enumerates, AfterFailure, Snapshot.PathClear, Supply, MapResult, Missing;
    ghost var s := pm.Now();
    var status;
    status, page := pm.AllocatePage();
    ghost var s1 := pm.Now();
    assert s1 == s.(free := AfterFailure(s.free));
    SamePath(s, s1, va);
    status := pm.MapPage(va, page, 3);
    MapStatus(s1, pm.Now(), status, va, page);
  }

  lemma SamePath(s: Snapshot, s': Snapshot, va: u64)
    requires s'.mem == s.mem && s'.tables == s.tables && s.PathClear(va, 3)
    ensures s'.PathClear(va, 3)
  {
  }

  lemma MapStatus(s: Snapshot, s': Snapshot, status: Status, va: u64, pa: u64)
    requires MapResult(s, s', status, va, pa, 3, 3)
    ensures status == if Missing(s.tables, va, 3) <= Supply(s.free) then Success else OutOfResources
  {
  }

  // The stack page, the code page, and the tests of both
  method MapStackAndCode(pm: PageManager)
    returns (newStack: nat, codePage: nat, codeTest: Status, stackTest: Status, ghost between: Snapshot)
    requires pm.Valid() && pm.Now().PathClear(KERNEL_VA_STACK, 3) && pm.Now().PathClear(KERNEL_VA_BASE, 3)
    modifies pm`freeHead, pm`free, pm`held, pm`tables, pm.pfn, pm.mem
    ensures pm.Valid()
    // two pages, one after the other
    ensures NewPageMapped(old(pm.Now()), between, KERNEL_VA_STACK, newStack)
            && NewPageMapped(between, pm.Now(), KERNEL_VA_BASE, codePage)
            && TreeInv(between.mem, between.root, between.tables)
    ensures pm.held == old(pm.held) + (if newStack != 0 then {newStack / PAGE_SIZE} else {})
                       + if codePage != 0 then {codePage / PAGE_SIZE} else {}
    // the tests tell whether the two addresses are mapped
    ensures codeTest == if pm.View(KERNEL_VA_BASE) != Fault then Success else Aborted
    ensures stackTest == if pm.View(KERNEL_VA_STACK) != Fault then Success else Aborted
    // with enough frames they are, each to its page
    ensures Supply(old(pm.free)) >= 8 ==>
              && PageAt(pm.Now(), KERNEL_VA_STACK, newStack) && PageAt(pm.Now(), KERNEL_VA_BASE, codePage)
              && codeTest == stackTest == Success
              && BothPages(pm.Now(), newStack, codePage)
  {
    hide PageManager.Valid, NewPageMapped, PageAt, TestsInside, TestsPresent, Snapshot.PathClear, Supply, Snapshot.View;
    ghost var s := pm.Now();
    newStack := MapNewPage(pm, KERNEL_VA_STACK);
    between := pm.Now();
    TreeOf(pm);
    PathsStay(s, between, KERNEL_VA_STACK, newStack, KERNEL_VA_BASE);
    PathsStay(s, between, KERNEL_VA_STACK, newStack, KERNEL_VA_STACK);
    codePage := MapNewPage(pm, KERNEL_VA_BASE);
    PathsStay(between, pm.Now(), KERNEL_VA_BASE, codePage, KERNEL_VA_BASE);
    PathsStay(between, pm.Now(), KERNEL_VA_BASE, codePage, KERNEL_VA_STACK);
    pm.TestsMatchWalk(KERNEL_VA_BASE);
    pm.TestsMatchWalk(KERNEL_VA_STACK);
    if Supply(s.free) >= 8 {
      EightFrames(s, between, pm.Now(), newStack, codePage);
    }
    codeTest := pm.MappingExists(pm.gPml4, KERNEL_VA_BASE);
    stackTest := pm.MappingExists(pm.gPml4, KERNEL_VA_STACK);
  }

  // The stack top, sixteen bytes below the end of the stack page, and the kernel's base
  ghost predicate BothPages(s: Snapshot, newStack: nat, codePage: nat)
  {
    && s.View(0xFFFF_FFFF_7FFF_EFF0) == Mapped(newStack + 0xFF0, true, false, false, 0)
    && s.View(0xFFFF_FFFF_8000_0000) == Mapped(codePage, true, false, false, 0)
  }

  // Both pages are there as soon as each finds its frames
  lemma PagesThere(s: Snapshot, m: Snapshot, s': Snapshot, newStack: nat, codePage: nat)
    requires NewPageMapped(s, m, KERNEL_VA_STACK, newStack) && NewPageMapped(m, s', KERNEL_VA_BASE, codePage)
    requires 1 + Missing(s.tables, KERNEL_VA_STACK, 3) <= Supply(s.free)
    requires 1 + Missing(m.tables, KERNEL_VA_BASE, 3) <= Supply(m.free)
    ensures PageAt(s', KERNEL_VA_STACK, newStack) && PageAt(s', KERNEL_VA_BASE, codePage)
    ensures s'.View(KERNEL_VA_STACK) != Fault && s'.View(KERNEL_VA_BASE) != Fault
    ensures BothPages(s', newStack, codePage)
  {
    hide NewPageMapped, Snapshot.View, Missing, Supply;
    NewPageAt(s, m, KERNEL_VA_STACK, newStack);
    NewPageAt(m, s', KERNEL_VA_BASE, codePage);
    PageStays(m, s', KERNEL_VA_BASE, codePage, KERNEL_VA_STACK, newStack);
  }

  // Four frames for each of the two pages are always enough
  lemma EightFrames(s: Snapshot, m: Snapshot, s': Snapshot, newStack: nat, codePage: nat)
    requires NewPageMapped(s, m, KERNEL_VA_STACK, newStack) && NewPageMapped(m, s', KERNEL_VA_BASE, codePage)
    requires Supply(s.free) >= 8
    ensures PageAt(s', KERNEL_VA_STACK, newStack) && PageAt(s', KERNEL_VA_BASE, codePage)
    ensures s'.View(KERNEL_VA_STACK) != Fault && s'.View(KERNEL_VA_BASE) != Fault
    ensures BothPages(s', newStack, codePage)
  {
    PageParts(s, m, KERNEL_VA_STACK, newStack);
    PageParts(m, s', KERNEL_VA_BASE, codePage);
    hide NewPageMapped, PageAt, Snapshot.View, AfterFailure, Supply;
    var s1 := s.(free := AfterFailure(s.free));
    MapTakes(s1, m, if Missing(s.tables, KERNEL_VA_STACK, 3) <= Supply(s1.free) then Success else OutOfResources,
             KERNEL_VA_STACK, newStack, 3);
    hide MapResult, Missing;
    SupplyAfter(s1.free, Missing(s1.tables, KERNEL_VA_STACK, 3));
    PagesThere(s, m, s', newStack, codePage);
  }

  // ---------------------------------------------------------------- what holds while the upper half fills

  // Since paging was set up: the upper half has no large pages, only listed frames were used, from the front of
  // the list, no other memory was written, and the identity map is there if it was complete
  ghost predicate Ready(mem0: Memory, listed: seq<nat>, maxAddress: nat, s: Snapshot, full: bool)
  {
    && (forall v: u64, deep: nat :: deep <= 3 && v >= HIGH_HALF_START ==> s.PathClear(v, deep))
    && DrawnFrom(listed, s)
    && (forall f: nat, i: nat :: f !in listed && i < TABLE_LENGTH ==> Entry(s.mem, f, i) == Entry(mem0, f, i))
    && (full ==> AllIdentity(s, 0, maxAddress))
  }

  lemma ReadyAtFirst(mem0: Memory, listed: seq<nat>, maxAddress: nat, s: Snapshot)
    requires PagingReady(mem0, listed, maxAddress, s) && maxAddress <= LOW_HALF_END
    ensures Ready(mem0, listed, maxAddress, s, Supply(listed) > BootTables(maxAddress))
  {
    hide Snapshot.PathClear, AllIdentity, BootTables, DrawnFrom;
    forall v: u64, deep: nat | deep <= 3 && v >= HIGH_HALF_START
      ensures s.PathClear(v, deep)
    {
      UpperBits(v);
    }
  }

  lemma PathOfUpper(mem0: Memory, listed: seq<nat>, maxAddress: nat, s: Snapshot, full: bool, va: u64)
    requires Ready(mem0, listed, maxAddress, s, full) && va >= HIGH_HALF_START
    ensures s.PathClear(va, 3)
  {
    hide Snapshot.PathClear;
  }

  lemma ReadyAfterAllocation(mem0: Memory, listed: seq<nat>, maxAddress: nat, s: Snapshot, full: bool)
    requires Ready(mem0, listed, maxAddress, s, full)
    ensures Ready(mem0, listed, maxAddress, s.(free := AfterFailure(s.free)), full)
  {
    hide NoLargePage, Snapshot.View, Identity;
    var s' := s.(free := AfterFailure(s.free));
    SameView(s, s');
    assert forall v: u64, deep: nat :: s.PathClear(v, deep) ==> s'.PathClear(v, deep);
    DrawnByAllocation(s);
    StillDrawnFrom(listed, s, s');
  }

  lemma DrawnByAllocation(s: Snapshot)
    ensures Drawn(s, s.(free := AfterFailure(s.free)))
  {
  }

  lemma ReadyAfterMap(mem0: Memory, listed: seq<nat>, maxAddress: nat, s: Snapshot, s': Snapshot, full: bool,
                      status: Status, va: u64, pa: u64, flags: u64)
    requires Ready(mem0, listed, maxAddress, s, full) && maxAddress <= LOW_HALF_END && va >= HIGH_HALF_START
    requires MapResult(s, s', status, va, pa, 3, flags)
    ensures Ready(mem0, listed, maxAddress, s', full)
  {
    MapConfined(s, s', status, va, pa, 3, flags);
    PathsKept(s, s', status, va, pa, flags);
    MappedView(s, s', status, va, pa, flags);
    hide MapResult, Snapshot.View, Snapshot.PathClear, MapAt, Identity, Drawn, DrawnFrom;
    StillDrawnFrom(listed, s, s');
    forall f: nat, i: nat | f !in listed && i < TABLE_LENGTH
      ensures Entry(s'.mem, f, i) == Entry(mem0, f, i)
    {
      if Managed(s, f) {
        DrawnFromListed(listed, s, f);
        assert false;
      }
    }
    forall v: u64 | v < maxAddress
      ensures s'.View(v) == s.View(v)
    {
      LowElsewhere(s.View(v), va, pa, flags, v);
    }
  }

  lemma ReadyAfterPage(mem0: Memory, listed: seq<nat>, maxAddress: nat, s: Snapshot, s': Snapshot, full: bool,
                       va: u64, page: nat)
    requires Ready(mem0, listed, maxAddress, s, full) && maxAddress <= LOW_HALF_END && va >= HIGH_HALF_START
    requires NewPageMapped(s, s', va, page)
    ensures Ready(mem0, listed, maxAddress, s', full)
  {
    hide Ready, Missing, Supply, AfterFailure, MapResult;
    var s1 := s.(free := AfterFailure(s.free));
    ReadyAfterAllocation(mem0, listed, maxAddress, s, full);
    ReadyAfterMap(mem0, listed, maxAddress, s1, s', full,
                  if Missing(s.tables, va, 3) <= Supply(s1.free) then Success else OutOfResources, va, page, 3);
  }

  // ---------------------------------------------------------------- the frames, one by one

  // The given tables are those that the tree has for the upper half
  ghost predicate UpperTables(t: Tree, nodes: set<Node>)
  {
    forall v: u64, k: nat :: v >= HIGH_HALF_START && 1 <= k <= 3 ==>
      (PathNode(v, k) in t.Keys <==> PathNode(v, k) in nodes)
  }

  lemma MoreUpperTables(t: Tree, t': Tree, nodes: set<Node>, more: set<Node>)
    requires UpperTables(t, nodes) && t'.Keys == t.Keys + more
    ensures UpperTables(t', nodes + more)
  {
    hide PathNode;
  }

  // The tables of the upper half are exactly the given ones, and exactly they, the tables of the identity map,
  // their root and so many pages have been taken from the list
  ghost predicate Account(listed: seq<nat>, maxAddress: nat, s: Snapshot, nodes: set<Node>, pages: nat)
  {
    UpperTables(s.tables, nodes) && Spent(listed, s.free, 1 + BootTables(maxAddress) + pages + |nodes|)
  }

  // So many frames of the list were taken, and frame 0 was none of them
  ghost predicate Spent(listed: seq<nat>, free: seq<nat>, used: nat)
  {
    used <= Supply(listed) && free == listed[used..]
  }

  lemma SpendMore(listed: seq<nat>, free: seq<nat>, free': seq<nat>, used: nat, m: nat)
    requires Spent(listed, free, used) && used + m <= Supply(listed) && m <= |free| && free' == free[m..]
    ensures Spent(listed, free', used + m)
  {
    hide Supply;
    DropDrop(listed, used, m);
  }

  /** The tables of a range in the lower half serve no address of the upper half. */
  lemma {:induction false} UpperNotInChunks(cur: nat, end: nat, v: u64, k: nat)
    requires PageRange(cur, end) && end <= LOW_HALF_END && v % VA_SPACE >= LOW_HALF_END && 1 <= k <= 3
    ensures PathNode(v, k) !in ChunkNodes(cur, end)
    decreases end - cur
  {
    if cur < end {
      var level := ChunkLevel(end - cur);
      ChunkFits(cur, end);
      hide ChunkLevel;
      UpperNotInChunks(cur + Span(level), end, v, k);
      UpperNotOnPath(cur, level, v, k);
      assert ChunkNodes(cur, end) == PathNodes(cur, level) + ChunkNodes(cur + Span(level), end);
    }
  }

  lemma UpperNotOnPath(cur: nat, level: nat, v: u64, k: nat)
    requires cur < LOW_HALF_END && v % VA_SPACE >= LOW_HALF_END && 1 <= k <= 3
    ensures PathNode(v, k) !in PathNodes(cur, level)
  {
    LowerSlot(cur, v, k);
    hide Slot;
    forall j: nat | 1 <= j <= level
      ensures PathNode(cur, j) != PathNode(v, k)
    {
    }
  }

  lemma LowerSlot(cur: nat, v: u64, k: nat)
    requires cur < LOW_HALF_END && v % VA_SPACE >= LOW_HALF_END && 1 <= k <= 3
    ensures Slot(cur, k - 1) != Slot(v, k - 1)
  {
  }

  lemma AccountAtFirst(mem0: Memory, listed: seq<nat>, maxAddress: nat, s: Snapshot)
    requires PagingReady(mem0, listed, maxAddress, s) && maxAddress <= LOW_HALF_END
    requires Supply(listed) > BootTables(maxAddress)
    ensures Account(listed, maxAddress, s, {}, 0)
  {
    hide Snapshot.PathClear, AllIdentity, BootTables, DrawnFrom, Snapshot.View, ChunkNodes, PathNode;
    forall v: u64, k: nat | v >= HIGH_HALF_START && 1 <= k <= 3
      ensures PathNode(v, k) !in s.tables.Keys
    {
      UpperBits(v);
      UpperNotInChunks(0, maxAddress, v, k);
      NotRoot(v, k);
    }
  }

  lemma NotRoot(v: u64, k: nat)
    requires k > 0
    ensures PathNode(v, k) != ROOT
  {
  }

  lemma AccountSupply(listed: seq<nat>, maxAddress: nat, s: Snapshot, nodes: set<Node>, pages: nat)
    requires Account(listed, maxAddress, s, nodes, pages)
    ensures Supply(s.free) == Supply(listed) - (1 + BootTables(maxAddress) + pages + |nodes|)
  {
    SupplyAfter(listed, 1 + BootTables(maxAddress) + pages + |nodes|);
  }

  lemma AccountAllocation(listed: seq<nat>, maxAddress: nat, s: Snapshot, nodes: set<Node>, pages: nat)
    requires Account(listed, maxAddress, s, nodes, pages)
    requires 1 + BootTables(maxAddress) + pages + |nodes| < Supply(listed)
    ensures Account(listed, maxAddress, s.(free := AfterFailure(s.free)), nodes, pages + 1)
  {
    hide UpperTables, BootTables, Supply;
    SpendMore(listed, s.free, AfterFailure(s.free), 1 + BootTables(maxAddress) + pages + |nodes|, 1);
  }

  // An upper address lacks the tables on its path that are not among the given ones
  lemma UpperMissing(listed: seq<nat>, maxAddress: nat, s: Snapshot, nodes: set<Node>, pages: nat, va: u64)
    requires Account(listed, maxAddress, s, nodes, pages) && TreeInv(s.mem, s.root, s.tables) && va >= HIGH_HALF_START
    ensures Missing(s.tables, va, 3) == |PathNodes(va, 3) - nodes|
  {
    MissingAreNew(s.mem, s.root, s.tables, va, 3);
    hide PathNode, BootTables, Supply, TreeInv, Missing;
    assert PathNodes(va, 3) - s.tables.Keys == PathNodes(va, 3) - nodes;
  }

  lemma AccountMap(listed: seq<nat>, maxAddress: nat, s: Snapshot, s': Snapshot, nodes: set<Node>, pages: nat,
                   va: u64, page: u64)
    requires Account(listed, maxAddress, s, nodes, pages) && TreeInv(s.mem, s.root, s.tables) && va >= HIGH_HALF_START
    requires 1 + BootTables(maxAddress) + pages + |nodes + PathNodes(va, 3)| <= Supply(listed)
    requires MapResult(s, s', Success, va, page, 3, 3)
    ensures Account(listed, maxAddress, s', nodes + PathNodes(va, 3), pages)
  {
    hide MapResult, PathNodes, BootTables, Supply, TreeInv, Missing, Account;
    UpperMissing(listed, maxAddress, s, nodes, pages, va);
    PageMapped(s, s', va, page, 3);
    AccountTables(listed, maxAddress, s, nodes, pages);
    MoreUpperTables(s.tables, s'.tables, nodes, PathNodes(va, 3));
    UnionCount(nodes, PathNodes(va, 3));
    AccountMore(listed, maxAddress, s, s', nodes, nodes + PathNodes(va, 3), pages, Missing(s.tables, va, 3));
  }

  lemma AccountTables(listed: seq<nat>, maxAddress: nat, s: Snapshot, nodes: set<Node>, pages: nat)
    requires Account(listed, maxAddress, s, nodes, pages)
    ensures UpperTables(s.tables, nodes)
  {
  }

  lemma AccountMore(listed: seq<nat>, maxAddress: nat, s: Snapshot, s': Snapshot, nodes: set<Node>, all: set<Node>,
                    pages: nat, m: nat)
    requires Account(listed, maxAddress, s, nodes, pages) && UpperTables(s'.tables, all) && |all| == |nodes| + m
    requires 1 + BootTables(maxAddress) + pages + |all| <= Supply(listed)
    requires m <= |s.free| && s'.free == s.free[m..]
    ensures Account(listed, maxAddress, s', all, pages)
  {
    hide UpperTables, BootTables, Supply, Spent;
    SpendMore(listed, s.free, s'.free, 1 + BootTables(maxAddress) + pages + |nodes|, m);
  }

  lemma UnionCount(a: set<Node>, b: set<Node>)
    ensures |a + b| == |a| + |b - a|
  {
    assert a + b == a + (b - a);
  }

  lemma AccountPage(listed: seq<nat>, maxAddress: nat, s: Snapshot, s': Snapshot, nodes: set<Node>, pages: nat,
                    va: u64, page: nat)
    requires Account(listed, maxAddress, s, nodes, pages) && TreeInv(s.mem, s.root, s.tables) && va >= HIGH_HALF_START
    requires 2 + BootTables(maxAddress) + pages + |nodes + PathNodes(va, 3)| <= Supply(listed)
    requires NewPageMapped(s, s', va, page)
    ensures Account(listed, maxAddress, s', nodes + PathNodes(va, 3), pages + 1)
    ensures 1 + Missing(s.tables, va, 3) <= Supply(s.free)
  {
    hide NewPageMapped, MapResult, PathNodes, TreeInv, Missing, AfterFailure, BootTables, Account, Supply;
    var s1 := s.(free := AfterFailure(s.free));
    UnionCount(nodes, PathNodes(va, 3));
    PageParts(s, s', va, page);
    AccountSupply(listed, maxAddress, s, nodes, pages);
    UpperMissing(listed, maxAddress, s, nodes, pages, va);
    AccountAllocation(listed, maxAddress, s, nodes, pages);
    AccountMap(listed, maxAddress, s1, s', nodes, pages + 1, va, page);
  }

  // The tables for the stack and the code page
  ghost function BootNodes(): set<Node>
  {
    PathNodes(KERNEL_VA_STACK, 3) + PathNodes(KERNEL_VA_BASE, 3)
  }

  lemma ThreeNodes(v: u64)
    ensures |PathNodes(v, 3)| == 3
  {
    assert PathNodes(v, 0) == {};
    PathNodesStep(v, 1);
    PathNodesStep(v, 2);
    PathNodesStep(v, 3);
    assert PathNodes(v, 3) == {PathNode(v, 1), PathNode(v, 2), PathNode(v, 3)};
  }

  /** The two pages share the table of the last 512 GiB, and no other. */
  lemma FiveNodes()
    ensures |{} + PathNodes(KERNEL_VA_STACK, 3)| == 3 && |BootNodes()| == 5
  {
    var a, b := PathNodes(KERNEL_VA_STACK, 3), PathNodes(KERNEL_VA_BASE, 3);
    ThreeNodes(KERNEL_VA_STACK);
    assert {} + a == a;
    assert PathNodes(KERNEL_VA_BASE, 0) == {};
    PathNodesStep(KERNEL_VA_BASE, 1);
    PathNodesStep(KERNEL_VA_BASE, 2);
    PathNodesStep(KERNEL_VA_BASE, 3);
    var n2, n3 := PathNode(KERNEL_VA_BASE, 2), PathNode(KERNEL_VA_BASE, 3);
    BootSlots();
    assert b - a == {n2, n3};
    UnionCount(a, b);
  }

  lemma BootSlots()
    ensures PathNode(KERNEL_VA_BASE, 1) == PathNode(KERNEL_VA_STACK, 1)
    ensures PathNode(KERNEL_VA_BASE, 2) != PathNode(KERNEL_VA_STACK, 2)
    ensures PathNode(KERNEL_VA_BASE, 3) != PathNode(KERNEL_VA_STACK, 3)
  {
    var a, b := 0xFFFF_7FFF_E000, 0xFFFF_8000_0000;
    assert KERNEL_VA_STACK % VA_SPACE == a && KERNEL_VA_BASE % VA_SPACE == b;
    assert a / 0x80_0000_0000 == 0x1FF == b / 0x80_0000_0000;
    assert a / HUGE_PAGE_SIZE == 0x3_FFFD && b / HUGE_PAGE_SIZE == 0x3_FFFE;
    assert a / LARGE_PAGE_SIZE == 0x7FF_FBFF && b / LARGE_PAGE_SIZE == 0x7FF_FC00;
  }

  /** With eight frames more than the tables of the identity map, the stack and code pages are mapped, and it is known
      to the frame what the list has lost. */
  lemma BootPages(mem0: Memory, listed: seq<nat>, maxAddress: nat, s: Snapshot, m: Snapshot, s': Snapshot,
                  newStack: nat, codePage: nat)
    requires PagingReady(mem0, listed, maxAddress, s) && maxAddress <= LOW_HALF_END
    requires TreeInv(s.mem, s.root, s.tables) && TreeInv(m.mem, m.root, m.tables)
    requires NewPageMapped(s, m, KERNEL_VA_STACK, newStack) && NewPageMapped(m, s', KERNEL_VA_BASE, codePage)
    requires Supply(listed) >= BootTables(maxAddress) + 8
    ensures Account(listed, maxAddress, s', BootNodes(), 2)
    ensures PageAt(s', KERNEL_VA_STACK, newStack) && PageAt(s', KERNEL_VA_BASE, codePage)
    ensures s'.View(KERNEL_VA_STACK) != Fault && s'.View(KERNEL_VA_BASE) != Fault
    ensures BothPages(s', newStack, codePage)
  {
    FiveNodes();
    hide PagingReady, NewPageMapped, TreeInv, Account, PageAt, Snapshot.View, PathNodes, BootTables, Missing, Supply;
    hide BothPages;
    AccountAtFirst(mem0, listed, maxAddress, s);
    AccountPage(listed, maxAddress, s, m, {}, 0, KERNEL_VA_STACK, newStack);
    assert {} + PathNodes(KERNEL_VA_STACK, 3) == PathNodes(KERNEL_VA_STACK, 3);
    AccountPage(listed, maxAddress, m, s', PathNodes(KERNEL_VA_STACK, 3), 1, KERNEL_VA_BASE, codePage);
    PagesThere(s, m, s', newStack, codePage);
  }

  // ---------------------------------------------------------------- the image

  // The tables of the upper half for the two pages and some pages of the kernel
  ghost function UpperNodes(newBase: u64, pages: seq<Page>): set<Node>
  {
    BootNodes() + PageNodes(newBase, pages)
  }

  // How far the boot gets in the list until these pages are mapped: the root, the identity map, two pages and
  // the tables of the upper half; the whole list if it does not even suffice for the two pages
  ghost function Reach(listed: seq<nat>, maxAddress: nat, newBase: u64, pages: seq<Page>): (r: nat)
    ensures r <= |listed|
  {
    var reach := BootTables(maxAddress) + 3 + |UpperNodes(newBase, pages)|;
    if Supply(listed) < BootTables(maxAddress) + 8 || reach > |listed| then |listed| else reach
  }

  // What the boot needs of the kernel image: it lies outside the listed frames, fits its place in the upper
  // half, and the fills of its sections spare it and the frames that the boot has taken from the list by then
  ghost predicate ImageReady(mem0: Memory, listed: seq<nat>, maxAddress: nat, base: u64, newBase: u64, size: nat,
                             limit: nat)
  {
    && (forall f: nat :: Touches(f, base, base + size) ==> f !in listed)
    && newBase >= HIGH_HALF_START
    && var img := ImageBytes(mem0, base, size);
       && TableFits(img) && KernelFits(img, base, newBase, limit)
       && forall i: nat :: i < NumberOfSections(img) ==>
            FillReady(listed[..Reach(listed, maxAddress, newBase, KernelPagesUpTo(img, i))], img, base, i)
  }

  // The fill of section i spares the given frames and the image
  ghost predicate FillReady(frames: seq<nat>, img: Bytes, base: nat, i: nat)
    requires TableFits(img) && i < NumberOfSections(img)
  {
    var lo, hi := FillStart(SectionAt(img, i)), FillEnd(SectionAt(img, i));
    && (forall f: nat :: Touches(f, lo, hi) ==> f !in frames)
    && (forall k :: 0 <= k < |img| && lo <= base + k < hi ==> img[k] == 0)
  }

  lemma SameBootImage(mem0: Memory, listed: seq<nat>, mem: Memory, base: nat, size: nat)
    requires forall f: nat :: Touches(f, base, base + size) ==> f !in listed
    requires forall f: nat, i: nat :: f !in listed && i < TABLE_LENGTH ==> Entry(mem, f, i) == Entry(mem0, f, i)
    ensures ImageBytes(mem, base, size) == ImageBytes(mem0, base, size)
  {
    forall a: nat | base <= a < base + size
      ensures PhysByte(mem, a) == PhysByte(mem0, a)
    {
      WordIndex(a);
      FrameOfByte(a, base, base + size);
      hide Touches, Entry;
    }
    hide PhysByte;
    SameImage(mem0, mem, base, size);
  }

  lemma KernelClear(s: Snapshot, img: Bytes, base: u64, newBase: u64, limit: nat)
    requires forall v: u64, deep: nat :: deep <= 3 && v >= HIGH_HALF_START ==> s.PathClear(v, deep)
    requires TableFits(img) && KernelFits(img, base, newBase, limit) && newBase >= HIGH_HALF_START
    ensures RunClear(s, newBase, KernelPages(img))
    ensures forall p :: p in KernelPages(img) ==> newBase <= newBase + p.rva < WORD_LIMIT
  {
    hide Snapshot.PathClear, KernelPages, Sections, SizeOfHeaders;
    forall p | p in KernelPages(img)
      ensures newBase + p.rva < WORD_LIMIT && s.PathClear((newBase + p.rva) % WORD_LIMIT, 3)
    {
      KernelPageWithin(img, limit, p);
    }
  }

  lemma {:induction false} UpperPageNodes(t: Tree, nodes: set<Node>, newBase: u64, pages: seq<Page>)
    requires UpperTables(t, nodes) && newBase >= HIGH_HALF_START
    requires forall p :: p in pages ==> newBase + p.rva < WORD_LIMIT
    ensures PageNodes(newBase, pages) - t.Keys == PageNodes(newBase, pages) - nodes
  {
    if pages != [] {
      var front, p := pages[..|pages| - 1], pages[|pages| - 1];
      assert pages == front + [p] && p in pages;
      UpperPageNodes(t, nodes, newBase, front);
      UpperPathNodes(t, nodes, (newBase + p.rva) % WORD_LIMIT);
      NodesOfNext(newBase, front, p);
      hide PathNodes, PageNodes, UpperTables;
    }
  }

  lemma UpperPathNodes(t: Tree, nodes: set<Node>, v: u64)
    requires UpperTables(t, nodes) && v >= HIGH_HALF_START
    ensures PathNodes(v, 3) - t.Keys == PathNodes(v, 3) - nodes
  {
    hide PathNode;
  }

  /** Once the two pages are mapped, the pages of the kernel need the tables that the two do not share with them. */
  lemma KernelNeeds(listed: seq<nat>, maxAddress: nat, s: Snapshot, newBase: u64, pages: seq<Page>)
    requires Account(listed, maxAddress, s, BootNodes(), 2) && newBase >= HIGH_HALF_START
    requires forall p :: p in pages ==> newBase + p.rva < WORD_LIMIT
    ensures PagesNeeded(s.tables, newBase, pages) == |UpperNodes(newBase, pages)| - 5
  {
    FiveNodes();
    UpperPageNodes(s.tables, BootNodes(), newBase, pages);
    UnionCount(BootNodes(), PageNodes(newBase, pages));
    hide BootNodes, PageNodes;
  }

  // A fill that the image is ready for is one that MapKernel allows
  lemma FillFits(mem0: Memory, listed: seq<nat>, maxAddress: nat, s: Snapshot, full: bool, img: Bytes, base: nat,
                 newBase: u64, i: nat)
    requires TableFits(img) && i < NumberOfSections(img) && newBase >= HIGH_HALF_START
    requires Ready(mem0, listed, maxAddress, s, full)
    requires Supply(listed) >= BootTables(maxAddress) + 8 ==> Account(listed, maxAddress, s, BootNodes(), 2)
    requires forall p :: p in KernelPagesUpTo(img, i) ==> newBase + p.rva < WORD_LIMIT
    requires FillReady(listed[..Reach(listed, maxAddress, newBase, KernelPagesUpTo(img, i))], img, base, i)
    ensures FillApart(s, newBase, img, base, i)
  {
    hide *;
    var pages := KernelPagesUpTo(img, i);
    if PagesNeeded(s.tables, newBase, pages) <= Supply(s.free) {
      NeededWithinReach(mem0, listed, maxAddress, s, full, newBase, pages);
    }
    FillByFrames(s, newBase, img, base, i, listed[..Reach(listed, maxAddress, newBase, pages)]);
  }

  lemma FillByFrames(s: Snapshot, newBase: u64, img: Bytes, base: nat, i: nat, frames: seq<nat>)
    requires TableFits(img) && i < NumberOfSections(img) && FillReady(frames, img, base, i)
    requires var needed := PagesNeeded(s.tables, newBase, KernelPagesUpTo(img, i));
             needed <= Supply(s.free) ==>
               (forall f: nat :: f in s.tables.Values ==> f in frames) && forall f: nat :: f in s.free[..needed] ==>
                   f in frames
    ensures FillApart(s, newBase, img, base, i)
  {
    hide KernelPagesUpTo, TableFits, NumberOfSections, SectionAt, FillStart, FillEnd, PagesNeeded, Touches;
  }

  lemma NeededWithinReach(mem0: Memory, listed: seq<nat>, maxAddress: nat, s: Snapshot, full: bool, newBase: u64,
                          pages: seq<Page>)
    requires newBase >= HIGH_HALF_START && Ready(mem0, listed, maxAddress, s, full)
    requires Supply(listed) >= BootTables(maxAddress) + 8 ==> Account(listed, maxAddress, s, BootNodes(), 2)
    requires forall p :: p in pages ==> newBase + p.rva < WORD_LIMIT
    requires PagesNeeded(s.tables, newBase, pages) <= Supply(s.free)
    ensures var frames := listed[..Reach(listed, maxAddress, newBase, pages)];
            && (forall f: nat :: f in s.tables.Values ==> f in frames)
            && forall f: nat :: f in s.free[..PagesNeeded(s.tables, newBase, pages)] ==> f in frames
  {
    hide Ready, Account, Reach, BootNodes, Supply, BootTables, PagesNeeded;
    forall f: nat | f in s.tables.Values || f in s.free[..PagesNeeded(s.tables, newBase, pages)]
      ensures f in listed[..Reach(listed, maxAddress, newBase, pages)]
    {
      WithinReach(mem0, listed, maxAddress, s, full, newBase, pages, f);
    }
  }

  lemma WithinReach(mem0: Memory, listed: seq<nat>, maxAddress: nat, s: Snapshot, full: bool, newBase: u64,
                    pages: seq<Page>, f: nat)
    requires newBase >= HIGH_HALF_START && Ready(mem0, listed, maxAddress, s, full)
    requires Supply(listed) >= BootTables(maxAddress) + 8 ==> Account(listed, maxAddress, s, BootNodes(), 2)
    requires forall p :: p in pages ==> newBase + p.rva < WORD_LIMIT
    requires PagesNeeded(s.tables, newBase, pages) <= Supply(s.free)
    requires f in s.tables.Values || f in s.free[..PagesNeeded(s.tables, newBase, pages)]
    ensures f in listed[..Reach(listed, maxAddress, newBase, pages)]
  {
    var needed := PagesNeeded(s.tables, newBase, pages);
    hide PagesNeeded, BootTables, UpperNodes, BootNodes, Supply, AllIdentity, Snapshot.PathClear;
    assert DrawnFrom(listed, s);
    if Supply(listed) < BootTables(maxAddress) + 8 {
      WithinListed(listed, s, needed, f);
    } else {
      FiveNodes();
      KernelNeeds(listed, maxAddress, s, newBase, pages);
      TakenSoFar(listed, s, BootTables(maxAddress) + 8, needed, f);
    }
  }

  lemma WithinListed(listed: seq<nat>, s: Snapshot, needed: nat, f: nat)
    requires DrawnFrom(listed, s) && needed <= |s.free| && (f in s.tables.Values || f in s.free[..needed])
    ensures f in listed[..|listed|]
  {
    assert listed[..|listed|] == listed;
    hide DrawnFrom;
    DrawnFromListed(listed, s, f);
  }

  lemma TakenSoFar(listed: seq<nat>, s: Snapshot, used: nat, needed: nat, f: nat)
    requires DrawnFrom(listed, s) && used <= |listed| && s.free == listed[used..] && needed <= |s.free|
    requires f in s.tables.Values || f in s.free[..needed]
    ensures used + needed <= |listed| && f in listed[..used + needed]
  {
    if f in s.tables.Values {
      TakeMore(listed, used, used + needed, f);
    } else {
      TakeOfDrop(listed, used, needed, f);
    }
  }

  // What MapKernel requires of the state holds when it is called
  lemma KernelCanBeMapped(mem0: Memory, listed: seq<nat>, maxAddress: nat, s: Snapshot, full: bool,
                          base: u64, newBase: u64, size: nat, limit: nat)
    requires Ready(mem0, listed, maxAddress, s, full)
    requires ImageReady(mem0, listed, maxAddress, base, newBase, size, limit)
    requires Supply(listed) >= BootTables(maxAddress) + 8 ==> Account(listed, maxAddress, s, BootNodes(), 2)
    ensures ImageApart(s, base, size) && ImageBytes(s.mem, base, size) == ImageBytes(mem0, base, size)
    ensures var img := ImageBytes(mem0, base, size);
            && TableFits(img) && KernelFits(img, base, newBase, limit) && newBase >= HIGH_HALF_START
            && RunClear(s, newBase, KernelPages(img)) && FillsApart(s, newBase, img, base)
            && forall p :: p in KernelPages(img) ==> newBase <= newBase + p.rva < WORD_LIMIT
  {
    SameBootImage(mem0, listed, s.mem, base, size);
    ImageIsApart(mem0, listed, maxAddress, s, full, base, size);
    var img := ImageBytes(mem0, base, size);
    KernelClear(s, img, base, newBase, limit);
    hide Snapshot.PathClear, Touches, KernelFits, TableFits, ImageBytes, AllIdentity, Account, FillReady, FillApart;
    hide KernelPages, Reach, NumberOfSections, KernelPagesUpTo, Ready;
    forall i: nat | i < NumberOfSections(img)
      ensures FillApart(s, newBase, img, base, i)
    {
      UpToIsPrefix(img, i);
      FillFits(mem0, listed, maxAddress, s, full, img, base, newBase, i);
    }
  }

  lemma ImageIsApart(mem0: Memory, listed: seq<nat>, maxAddress: nat, s: Snapshot, full: bool, base: nat, size: nat)
    requires Ready(mem0, listed, maxAddress, s, full)
    requires forall f: nat :: Touches(f, base, base + size) ==> f !in listed
    ensures ImageApart(s, base, size)
  {
    hide Touches, AllIdentity, Snapshot.PathClear, DrawnFrom, Managed;
    forall f: nat | Managed(s, f)
      ensures f in listed
    {
      DrawnFromListed(listed, s, f);
    }
  }

  lemma UpToIsPrefix(img: Bytes, i: nat)
    requires TableFits(img) && i < NumberOfSections(img)
    ensures forall p :: p in KernelPagesUpTo(img, i) ==> p in KernelPages(img)
  {
    RunIsListed(img, i);
    hide KernelPagesUpTo, KernelPages, SectionPages;
    var front, more := KernelPagesUpTo(img, i), SectionPages(SectionAt(img, i));
    forall p | p in front
      ensures p in KernelPages(img)
    {
      assert p in front + more;
    }
  }

  // None of the pages lies where v does
  ghost predicate NoPageAt(pages: seq<Page>, newBase: u64, v: u64)
  {
    forall p :: p in pages ==> (newBase + p.rva) / PAGE_SIZE != v / PAGE_SIZE
  }

  lemma {:induction false} UnservedStays(t: Translation, newBase: u64, base: u64, pages: seq<Page>, v: u64)
    requires Canonical(v) && newBase >= HIGH_HALF_START && NoPageAt(pages, newBase, v)
    requires forall p :: p in pages ==> newBase + p.rva < WORD_LIMIT
    ensures PagesAt(t, newBase, base, pages, v) == t
  {
    hide PagesAt, Canonical;
    if pages == [] {
      NothingServed(t, newBase, base, v);
    } else {
      var front, p := pages[..|pages| - 1], pages[|pages| - 1];
      assert p in pages;
      UnservedStays(t, newBase, base, front, v);
      LastUnserved(t, newBase, base, pages, v);
    }
  }

  lemma NothingServed(t: Translation, newBase: u64, base: u64, v: u64)
    ensures PagesAt(t, newBase, base, [], v) == t
  {
  }

  lemma LastUnserved(t: Translation, newBase: u64, base: u64, pages: seq<Page>, v: u64)
    requires pages != [] && Canonical(v)
    requires var p := pages[|pages| - 1];
             HIGH_HALF_START <= newBase + p.rva < WORD_LIMIT && (newBase + p.rva) / PAGE_SIZE != v / PAGE_SIZE
    ensures PagesAt(t, newBase, base, pages, v) == PagesAt(t, newBase, base, pages[..|pages| - 1], v)
  {
    hide Slot, EndOfWalk;
    var p := pages[|pages| - 1];
    SmallSlot(newBase + p.rva, v);
  }

  // ---------------------------------------------------------------- the whole boot

  // The states that the boot passes through: paging is set up, the stack page and the code page are mapped, and
  // then these sections are filled and these pages of the kernel mapped
  datatype BootTrace = BootTrace(paged: Snapshot, stacked: Snapshot, coded: Snapshot, done: seq<Page>,
                                 filled: seq<Section>)

  // Every step does what its part of the loader does
  ghost predicate BootSteps(mem0: Memory, listed: seq<nat>, maxAddress: nat, trace: BootTrace, s: Snapshot,
                            newStack: nat, codePage: nat, base: u64, newBase: u64, size: nat, kernel: Status)
    requires TableFits(ImageBytes(mem0, base, size))
  {
    var img := ImageBytes(mem0, base, size);
    && PagingReady(mem0, listed, maxAddress, trace.paged)
    && NewPageMapped(trace.paged, trace.stacked, KERNEL_VA_STACK, newStack)
    && NewPageMapped(trace.stacked, trace.coded, KERNEL_VA_BASE, codePage)
    && ImageBytes(trace.coded.mem, base, size) == img
    && MappedPages(trace.coded, s, base, newBase, size, trace.done, trace.filled)
    && FilledSoFar(img, trace.done, trace.filled, kernel)
    && Outcome(trace.coded, s, newBase, trace.done, KernelPages(img), kernel)
  }

  // How the boot ends if the list supplies what the identity map, the two pages and their tables need: the kernel
  // is mapped exactly if it also supplies the other tables of the upper half, and the two pages stay unless a
  // page of the kernel takes their place
  ghost predicate BootEnds(listed: seq<nat>, maxAddress: nat, s: Snapshot, newStack: nat, codePage: nat,
                           newBase: u64, pages: seq<Page>, kernel: Status)
  {
    && (kernel == Success <==> BootTables(maxAddress) + 3 + |UpperNodes(newBase, pages)| <= Supply(listed))
    && (NoPageAt(pages, newBase, KERNEL_VA_STACK) ==> PageAt(s, KERNEL_VA_STACK, newStack))
    && (NoPageAt(pages, newBase, KERNEL_VA_BASE) ==> PageAt(s, KERNEL_VA_BASE, codePage))
  }

  /** Mapping the kernel keeps the identity map and every page of the upper half whose place it does not take. */
  lemma KernelKeeps(s: Snapshot, s': Snapshot, base: u64, newBase: u64, size: nat, done: seq<Page>,
                    filled: seq<Section>, pages: seq<Page>, v: u64)
    requires MappedPages(s, s', base, newBase, size, done, filled) && done <= pages
    requires Canonical(v) && newBase >= HIGH_HALF_START && NoPageAt(pages, newBase, v)
    requires forall p :: p in pages ==> newBase + p.rva < WORD_LIMIT
    ensures s'.View(v) == s.View(v)
  {
    hide Snapshot.View, Snapshot.PathClear, PagesAt, ImageApart, ImageBytes, Drawn, OthersFilled, Canonical;
    assert forall p :: p in done ==> p in pages;
    UnservedStays(s.View(v), newBase, base, done, v);
  }

  lemma LowIsFree(pages: seq<Page>, newBase: u64, v: u64)
    requires newBase >= HIGH_HALF_START && v < LOW_HALF_END
    ensures NoPageAt(pages, newBase, v)
  {
    forall p | p in pages
      ensures (newBase + p.rva) / PAGE_SIZE != v / PAGE_SIZE
    {
      FarApart(newBase + p.rva, v);
    }
  }

  lemma FarApart(a: nat, v: nat)
    requires a >= v + PAGE_SIZE
    ensures a / PAGE_SIZE != v / PAGE_SIZE
  {
  }

  lemma IdentityStays(s: Snapshot, s': Snapshot, base: u64, newBase: u64, size: nat, done: seq<Page>,
                      filled: seq<Section>, pages: seq<Page>, maxAddress: nat)
    requires MappedPages(s, s', base, newBase, size, done, filled) && done <= pages
    requires newBase >= HIGH_HALF_START && maxAddress <= LOW_HALF_END && AllIdentity(s, 0, maxAddress)
    requires forall p :: p in pages ==> newBase + p.rva < WORD_LIMIT
    ensures AllIdentity(s', 0, maxAddress)
  {
    hide Snapshot.View, MappedPages, Identity, NoPageAt;
    forall v: u64 | 0 <= v < maxAddress
      ensures s'.View(v) == Identity(v)
    {
      LowIsFree(pages, newBase, v);
      KernelKeeps(s, s', base, newBase, size, done, filled, pages, v);
    }
  }

  lemma PageKept(s: Snapshot, s': Snapshot, base: u64, newBase: u64, size: nat, done: seq<Page>,
                 filled: seq<Section>, pages: seq<Page>, va: u64, page: nat)
    requires MappedPages(s, s', base, newBase, size, done, filled) && done <= pages && PageAt(s, va, page)
    requires newBase >= HIGH_HALF_START && va >= HIGH_HALF_START && va % PAGE_SIZE == 0
    requires NoPageAt(pages, newBase, va) && forall p :: p in pages ==> newBase + p.rva < WORD_LIMIT
    ensures PageAt(s', va, page)
  {
    hide Snapshot.View, MappedPages;
    forall v: u64 | va <= v < va + PAGE_SIZE
      ensures s'.View(v) == s.View(v)
    {
      RemainderUnique(v, PAGE_SIZE, va / PAGE_SIZE, v - va);
      KernelKeeps(s, s', base, newBase, size, done, filled, pages, v);
    }
  }

  // MapKernel on what the boot has left, and what that makes of the whole
  lemma AfterKernel(listed: seq<nat>, maxAddress: nat, s: Snapshot, s': Snapshot, full: bool,
                    newStack: nat, codePage: nat, base: u64, newBase: u64, size: nat, limit: nat, done: seq<Page>,
                    filled: seq<Section>, img: Bytes, kernel: Status)
    requires TableFits(img) && ImageBytes(s.mem, base, size) == img && KernelFits(img, base, newBase, limit)
    requires newBase >= HIGH_HALF_START && maxAddress <= LOW_HALF_END
    requires forall p :: p in KernelPages(img) ==> newBase <= newBase + p.rva < WORD_LIMIT
    requires MappedPages(s, s', base, newBase, size, done, filled)
             && Outcome(s, s', newBase, done, KernelPages(img), kernel)
    requires full ==> AllIdentity(s, 0, maxAddress)
    ensures full ==> AllIdentity(s', 0, maxAddress)
    ensures ImageBytes(s'.mem, base, size) == img
    ensures kernel == Success ==> SeesImage(s', img, newBase) && KernelViews(s, s', img, base, newBase)
    ensures Account(listed, maxAddress, s, BootNodes(), 2)
            && PageAt(s, KERNEL_VA_STACK, newStack) && PageAt(s, KERNEL_VA_BASE, codePage) ==>
              BootEnds(listed, maxAddress, s', newStack, codePage, newBase, KernelPages(img), kernel)
  {
    hide TableFits, KernelFits, MappedPages, Outcome, KernelPages, ImageBytes, AllIdentity, SeesImage, PageAt, NoPageAt;
    hide KernelViews, Account, BootNodes, UpperNodes, BootTables, Supply, PagesNeeded;
    var pages := KernelPages(img);
    SuccessExactlyWhen(s, s', newBase, done, pages, kernel);
    ImageIntact(s, s', base, newBase, size, done, filled);
    if full {
      IdentityStays(s, s', base, newBase, size, done, filled, pages, maxAddress);
    }
    if kernel == Success {
      KernelSeesImage(s, s', base, newBase, size, limit, filled);
      KernelRightsAre(s, s', base, newBase, size, limit, filled);
    }
    if Account(listed, maxAddress, s, BootNodes(), 2) && PageAt(s, KERNEL_VA_STACK, newStack)
       && PageAt(s, KERNEL_VA_BASE, codePage) {
      KernelNeeds(listed, maxAddress, s, newBase, pages);
      FiveNodes();
      AccountSupply(listed, maxAddress, s, BootNodes(), 2);
      if NoPageAt(pages, newBase, KERNEL_VA_STACK) {
        PageKept(s, s', base, newBase, size, done, filled, pages, KERNEL_VA_STACK, newStack);
      }
      if NoPageAt(pages, newBase, KERNEL_VA_BASE) {
        PageKept(s, s', base, newBase, size, done, filled, pages, KERNEL_VA_BASE, codePage);
      }
    }
  }

  // UefiMain after the frame database was initialised. The re-map of the page that holds the switch routine
  // is not part of this model.
  method BootKernel(pm: PageManager, descriptors: seq<Descriptor>, maxAddress: u64, imageBase: u64,
                    imageVirtualBase: u64, imageSize: nat, ghost limit: nat)
    returns (pml4Physical: nat, newStack: nat, codePage: nat, codeTest: Status, stackTest: Status, kernel: Status,
             ghost trace: BootTrace)
    requires pm.ValidFrames() && pm.Db() == AllReserved(pm.pfn.Length) && pm.free == [] && pm.held == {}
    requires maxAddress == pm.pfn.Length * PAGE_SIZE && SoundMap(descriptors, maxAddress)
    requires AllClean(pm.mem[..], PushOrder(descriptors))
    requires ImageReady(pm.mem[..], Reversed(PushOrder(descriptors)), maxAddress, imageBase, imageVirtualBase,
                        imageSize, limit)
    modifies pm, pm.pfn, pm.mem
    ensures TableFits(ImageBytes(old(pm.mem[..]), imageBase, imageSize))
    ensures pml4Physical != 0 <==> Supply(Reversed(PushOrder(descriptors))) > 0
    // each step does its part, and the tests tell what it made of the two addresses
    ensures pml4Physical != 0 ==>
              && pm.Valid() && pm.gPml4 == pml4Physical
              && BootSteps(old(pm.mem[..]), Reversed(PushOrder(descriptors)), maxAddress, trace, pm.Now(),
                           newStack, codePage, imageBase, imageVirtualBase, imageSize, kernel)
              && codeTest == (if trace.coded.View(KERNEL_VA_BASE) != Fault then Success else Aborted)
              && stackTest == (if trace.coded.View(KERNEL_VA_STACK) != Fault then Success else Aborted)
    // with the frames for the two pages, both are mapped, and the kernel is mapped exactly if its frames are there
    ensures Supply(Reversed(PushOrder(descriptors))) >= BootTables(maxAddress) + 8 ==>
              && codeTest == stackTest == Success
              && PageAt(trace.coded, KERNEL_VA_STACK, newStack) && PageAt(trace.coded, KERNEL_VA_BASE, codePage)
              && BothPages(trace.coded, newStack, codePage)
              && BootEnds(Reversed(PushOrder(descriptors)), maxAddress, pm.Now(), newStack, codePage, imageVirtualBase,
                          KernelPages(ImageBytes(old(pm.mem[..]), imageBase, imageSize)), kernel)
    // memory is mapped to itself if the tables for that were to be had, whatever became of the rest
    ensures Supply(Reversed(PushOrder(descriptors))) > BootTables(maxAddress) ==> AllIdentity(pm.Now(), 0, maxAddress)
    // the image is intact, and a kernel that was mapped sees it, with the rights of its sections
    ensures pml4Physical != 0 ==>
              ImageBytes(pm.mem[..], imageBase, imageSize) == ImageBytes(old(pm.mem[..]), imageBase, imageSize)
    ensures pml4Physical != 0 && kernel == Success ==>
              && SeesImage(pm.Now(), ImageBytes(old(pm.mem[..]), imageBase, imageSize), imageVirtualBase)
              && KernelViews(trace.coded, pm.Now(), ImageBytes(old(pm.mem[..]), imageBase, imageSize), imageBase,
                             imageVirtualBase)
  {
    hide PageManager.Valid, PageManager.ValidFrames, Ready, PushOrder, Reversed, Supply, AllIdentity, SeesImage;
    hide KernelViews, FilledSoFar, ImageReady, NewPageMapped, BootEnds, TreeInv, Account, BootNodes, KernelFits;
    hide AllClean, SoundMap, KernelPages, ImageBytes, TableFits, PageAt, MappedPages, Outcome, PagesNeeded, AllReserved;
    hide Snapshot.PathClear, Snapshot.View, PagingReady, RunClear, ImageApart, FillsApart, Sections, BootTables;
    ghost var mem0, listed := pm.mem[..], Reversed(PushOrder(descriptors));
    ghost var full := Supply(listed) > BootTables(maxAddress);
    ghost var img := ImageBytes(mem0, imageBase, imageSize);
    MemoryEnds(pm, maxAddress);
    HeadersReady(mem0, listed, maxAddress, imageBase, imageVirtualBase, imageSize, limit);
    newStack, codePage, codeTest, stackTest, kernel := 0, 0, Aborted, Aborted, OutOfResources;
    trace := BootTrace(pm.Now(), pm.Now(), pm.Now(), [], []);
    pml4Physical := SetUpPaging(pm, descriptors, maxAddress);
    if pml4Physical == 0 {
      return;
    }
    ghost var paged := pm.Now();
    TreeOf(pm);
    ReadyAtFirst(mem0, listed, maxAddress, paged);
    PathOfUpper(mem0, listed, maxAddress, paged, full, KERNEL_VA_STACK);
    PathOfUpper(mem0, listed, maxAddress, paged, full, KERNEL_VA_BASE);
    ghost var stacked;
    newStack, codePage, codeTest, stackTest, stacked := MapStackAndCode(pm);
    ghost var coded := pm.Now();
    ReadyAfterPage(mem0, listed, maxAddress, paged, stacked, full, KERNEL_VA_STACK, newStack);
    ReadyAfterPage(mem0, listed, maxAddress, stacked, coded, full, KERNEL_VA_BASE, codePage);
    ReadyHasIdentity(mem0, listed, maxAddress, coded, full);
    if Supply(listed) >= BootTables(maxAddress) + 8 {
      BootPages(mem0, listed, maxAddress, paged, stacked, coded, newStack, codePage);
    }
    KernelCanBeMapped(mem0, listed, maxAddress, coded, full, imageBase, imageVirtualBase, imageSize, limit);
    ghost var done, filled;
    kernel, done, filled := MapKernel(pm, imageBase, imageVirtualBase, imageSize);
    AfterKernel(listed, maxAddress, coded, pm.Now(), full, newStack, codePage, imageBase, imageVirtualBase, imageSize,
                limit, done, filled, img, kernel);
    trace := BootTrace(paged, stacked, coded, done, filled);
  }

  lemma ReadyHasIdentity(mem0: Memory, listed: seq<nat>, maxAddress: nat, s: Snapshot, full: bool)
    requires Ready(mem0, listed, maxAddress, s, full)
    ensures full ==> AllIdentity(s, 0, maxAddress)
  {
  }

  lemma HeadersReady(mem0: Memory, listed: seq<nat>, maxAddress: nat, base: u64, newBase: u64, size: nat, limit: nat)
    requires ImageReady(mem0, listed, maxAddress, base, newBase, size, limit)
    ensures TableFits(ImageBytes(mem0, base, size))
  {
  }

  lemma MemoryEnds(pm: PageManager, maxAddress: nat)
    requires pm.ValidFrames() && maxAddress == pm.pfn.Length * PAGE_SIZE
    ensures maxAddress <= LOW_HALF_END
  {
  }

  // ---------------------------------------------------------------- the running kernel

  /** The whole way from the file: if the image in memory is what the loader made of a file, then a kernel that
      booted from that memory, and so sees the image, finds the file's sections and headers in it. */
  lemma BootedKernelSeesFile(file: Bytes, blank: Bytes, status: LoadStatus, mem0: Memory, s: Snapshot, base: u64,
                             newBase: u64)
    requires Loadable(file, blank, base) && TableFits(PlacedImage(file, blank, base)) && TableFits(file)
    requires TableFits(ImageBytes(mem0, base, |blank|))
    requires LoadedAs(PlacedImage(file, blank, base), ImageBytes(mem0, base, |blank|), status, base)
    requires SeesImage(s, ImageBytes(mem0, base, |blank|), newBase)
    ensures ShowsFile(s, newBase, file, FixedWords(PlacedImage(file, blank, base), base), |blank|)
  {
    hide *;
    Seen(PlacedImage(file, blank, base), ImageBytes(mem0, base, |blank|), status, s, base, newBase);
    KernelShowsFile(file, blank, ImageBytes(mem0, base, |blank|), status, s, base, newBase);
  }

  lemma Seen(placed: Bytes, img: Bytes, status: LoadStatus, s: Snapshot, base: u64, newBase: u64)
    requires TableFits(placed) && (NeedsRelocation(placed, base) ==> Relocatable(placed))
    requires LoadedAs(placed, img, status, base) && TableFits(img) && SeesImage(s, img, newBase)
    ensures LoadedAndSeen(placed, img, status, s, base, newBase)
  {
  }

  /** Where a relocated pointer leads: the kernel loads the address of its target in the identity map, below its own
      virtual base, and a load from there yields the byte of the image that the pointer was meant for, which is also
      what the kernel sees at that offset from its virtual base. */
  lemma KernelFollowsPointer(placed: Bytes, img: Bytes, status: LoadStatus, s: Snapshot, base: u64, newBase: u64,
                             maxAddress: nat, t: nat, rva: nat)
    requires TableFits(placed) && base != ImageBase(placed) && NumberOfRvaAndSizes(placed) > 5 && Relocatable(placed)
    requires LoadedAndSeen(placed, img, status, s, base, newBase)
    requires PairwiseApart(FixedWords(placed, base)) && t in FixedWords(placed, base) && WordVisible(placed, t)
    requires t + 8 <= |placed| && U64(placed, t) == (ImageBase(placed) + rva) % WORD_SPACE
    requires AllIdentity(s, 0, maxAddress) && ImageBytes(s.mem, base, |img|) == img
    requires rva < |img| && base + rva < maxAddress <= LOW_HALF_END
    ensures LoadsWord(s, newBase + t, base + rva) && VirtByte(s, base + rva) == Byte(img[rva])
    ensures TableFits(img) && (Visible(img, rva) ==>
                                 newBase + rva < WORD_LIMIT && VirtByte(s, newBase + rva) == VirtByte(s, base + rva))
  {
    SmallSum(base, rva);
    hide *;
    SeenAsLoaded(placed, img, status, s, base, newBase);
    if Visible(img, rva) {
      SeesByte(s, img, newBase, rva);
    }
    IdentityLoads(s, base, img, maxAddress, rva);
    KernelSeesTarget(placed, img, status, s, base, newBase, t);
    PointerMoves(placed, base, t, rva);
  }

  lemma SmallSum(base: u64, rva: nat)
    requires base + rva < LOW_HALF_END
    ensures (base + rva) % WORD_SPACE == base + rva
  {
  }

  lemma IdentityLoads(s: Snapshot, base: u64, img: Bytes, maxAddress: nat, rva: nat)
    requires AllIdentity(s, 0, maxAddress) && ImageBytes(s.mem, base, |img|) == img
    requires rva < |img| && base + rva < maxAddress <= LOW_HALF_END
    ensures VirtByte(s, base + rva) == Byte(img[rva])
  {
    hide Snapshot.View, PhysByte;
    assert s.View(base + rva) == Identity(base + rva);
    assert img[rva] == PhysByte(s.mem, base + rva);
  }
}
