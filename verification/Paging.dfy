/**
  The frame allocator and the page-table builder, in place.

  PageManager holds what the loader keeps in globals: the frame database, the head of its free
  list, the PML4, and the physical memory all of them live in. `Valid` says that the
  three owners of frames (the free list, the table tree and the loader's callers) never share one.
 */
module Paging {
  import opened Bits
  import opened PageWalk
  import opened FreeList
  import opened PageTree
  import opened Mapping

  datatype Status = Success | InvalidParameter | OutOfResources | Aborted

  // How many allocations in a row succeed: address 0 stands for failure, so frame 0 ends the supply
  function Supply(free: seq<nat>): (n: nat)
    ensures n <= |free|
  {
    if free == [] || free[0] == 0 then 0 else 1 + Supply(free[1..])
  }

  lemma {:induction false} SupplyAfter(free: seq<nat>, k: nat)
    requires k <= Supply(free)
    ensures Supply(free[k..]) == Supply(free) - k
  {
    if k > 0 {
      SupplyAfter(free[1..], k - 1);
      assert free[1..][k - 1..] == free[k..];
    } else {
      assert free[0..] == free;
    }
  }

  // The list after an allocation that failed: frame 0, if it was the next one, is dropped
  function AfterFailure(free: seq<nat>): seq<nat>
  {
    if free == [] then [] else free[1..]
  }

  // Levels at which the path to va has no table yet, down to the given level
  function Missing(t: Tree, va: u64, level: nat): nat
  {
    if level <= Depth(t, va) then 0 else level - Depth(t, va)
  }

  // The tree with the given frames as the next tables on the path to va
  function Extend(t: Tree, va: u64, depth: nat, frames: seq<nat>): Tree
  {
    if frames == [] then t
    else Extend(t, va, depth, frames[..|frames| - 1])[PathNode(va, depth + |frames|) := frames[|frames| - 1]]
  }

  lemma {:induction false} ExtendValues(t: Tree, va: u64, depth: nat, frames: seq<nat>, f: nat)
    requires f in Extend(t, va, depth, frames).Values
    ensures f in t.Values || f in frames
  {
    if frames != [] {
      var front, last := frames[..|frames| - 1], frames[|frames| - 1];
      var n :| n in Extend(t, va, depth, frames) && Extend(t, va, depth, frames)[n] == f;
      if f != last {
        assert Extend(t, va, depth, front)[n] == f;
        ExtendValues(t, va, depth, front, f);
      }
    }
  }

  // Table frames are in use, and by nobody else
  ghost predicate TablesOwned(pfn: seq<PfnEntry>, t: Tree, held: set<nat>)
  {
    forall n :: n in t ==> t[n] < |pfn| && pfn[t[n]].state == Allocated && t[n] !in held
  }

  ghost predicate AllClean(mem: Memory, free: seq<nat>)
  {
    forall f :: f in free ==> Clean(mem, f)
  }

  lemma OwnedAfterRelease(a: Allocator, address: u64, t: Tree, held: set<nat>)
    requires TablesOwned(a.pfn, t, held) && (address / PAGE_SIZE < |a.pfn| ==> address / PAGE_SIZE !in t.Values)
    ensures TablesOwned(Release(a, address).pfn, t, held - {address / PAGE_SIZE})
  {
    forall n | n in t
      ensures t[n] < |a.pfn| && Release(a, address).pfn[t[n]].state == Allocated && t[n] !in held
    {
      assert t[n] != address / PAGE_SIZE;
    }
  }

  /** A zeroed root alone is a tree that translates nothing. */
  lemma EmptyTree(mem: Memory, root: nat)
    requires root < FRAME_LIMIT && root * TABLE_LENGTH + TABLE_LENGTH <= |mem| && Clean(mem, root)
    ensures TreeInv(mem, root, map[ROOT := root])
    ensures forall v: u64 :: Translate(mem, root, v) == Fault
  {
  }

  lemma CleanFramesStay(mem: Memory, mem': Memory, f: nat, free: seq<nat>)
    requires |mem'| == |mem| && AllClean(mem, free) && f !in free
    requires forall w :: 0 <= w < |mem| && w / TABLE_LENGTH != f ==> mem'[w] == mem[w]
    ensures AllClean(mem', free)
  {
    forall g, i | g in free && 0 <= i < TABLE_LENGTH
      ensures !Present(Entry(mem', g, i))
    {
      assert !Present(Entry(mem, g, i));
      assert (g * TABLE_LENGTH + i) / TABLE_LENGTH == g;
    }
  }

  lemma EntriesOutside(mem: Memory, mem': Memory, f: nat)
    requires |mem'| == |mem| && forall w :: 0 <= w < |mem| && w / TABLE_LENGTH != f ==> mem'[w] == mem[w]
    ensures forall g: nat, i: nat :: g != f && i < TABLE_LENGTH ==> Entry(mem', g, i) == Entry(mem, g, i)
  {
    forall g: nat, i: nat | g != f && i < TABLE_LENGTH
      ensures Entry(mem', g, i) == Entry(mem, g, i)
    {
      assert (g * TABLE_LENGTH + i) / TABLE_LENGTH == g;
    }
  }

  lemma CleanAfterWrite(mem: Memory, frame: nat, i: nat, e: u64, free: seq<nat>)
    requires frame * TABLE_LENGTH + i < |mem| && i < TABLE_LENGTH && AllClean(mem, free) && frame !in free
    ensures AllClean(Write(mem, frame, i, e), free)
  {
    forall g, j | g in free && 0 <= j < TABLE_LENGTH
      ensures !Present(Entry(Write(mem, frame, i, e), g, j))
    {
      WriteOther(mem, frame, i, e, g, j);
      assert Clean(mem, g);
    }
  }

  lemma TableInMemory(mem: Memory, root: nat, t: Tree, n: Node)
    requires TreeInv(mem, root, t) && n in t
    ensures n.level <= 3 && t[n] < FRAME_LIMIT && t[n] * TABLE_LENGTH + TABLE_LENGTH <= |mem|
  {
    assert Placed(mem, t, n);
  }

  lemma NotOnFreeList(a: Allocator, free: seq<nat>, f: nat)
    requires Enumerates(a, free) && f < |a.pfn| && a.pfn[f].state != Free
    ensures f !in free
  {
  }

  // None of the entries on the way down to the given level is a large page
  ghost predicate NoLargePage(mem: Memory, t: Tree, va: u64, level: nat)
  {
    forall k: nat :: k < level && PathNode(va, k) in t ==>
      var e := Entry(mem, t[PathNode(va, k)], Index(va, k)); !(Present(e) && PageSize(e))
  }

  /** A present entry on a clear path refers to the next table on it ... */
  lemma NextPresent(mem: Memory, root: nat, t: Tree, va: u64, level: nat, deep: nat)
    requires TreeInv(mem, root, t) && level < deep <= 3 && PathNode(va, level) in t && NoLargePage(mem, t, va, deep)
    requires Present(Entry(mem, t[PathNode(va, level)], Index(va, level)))
    ensures PathNode(va, level + 1) in t && level < Depth(t, va)
    ensures And(Entry(mem, t[PathNode(va, level)], Index(va, level)), PAGE_PHYSICAL_MASK)
            == t[PathNode(va, level + 1)] * PAGE_SIZE
  {
    var n := PathNode(va, level);
    assert EntryAccounted(mem, t, n, Index(va, level));
    PathStep(va, level);
    DepthIsLast(mem, root, t, va, level + 1);
    var c := PathNode(va, level + 1);
    assert Linked(mem, t, c) && Placed(mem, t, c);
    PhysicalMaskOfTable(t[c]);
  }

  /** ... and a missing one ends the path. */
  lemma NextMissing(mem: Memory, root: nat, t: Tree, va: u64, level: nat, deep: nat)
    requires TreeInv(mem, root, t) && level < deep <= 3 && PathNode(va, level) in t && NoLargePage(mem, t, va, deep)
    requires !Present(Entry(mem, t[PathNode(va, level)], Index(va, level)))
    ensures level == Depth(t, va)
  {
    PathStep(va, level);
    DepthIsLast(mem, root, t, va, level);
    DepthIsLast(mem, root, t, va, level + 1);
    var c := PathNode(va, level + 1);
    if c in t {
      assert Linked(mem, t, c) && Placed(mem, t, c);
      TableEntryFields(t[c]);
      assert false;
    }
  }

  lemma PhysicalMaskOfTable(f: nat)
    requires f < FRAME_LIMIT
    ensures And(TableEntry(f), PAGE_PHYSICAL_MASK) == f * PAGE_SIZE
  {
    TableEntryFields(f);
    PhysicalMask(TableEntry(f));
  }

  lemma NotATable(pfn: seq<PfnEntry>, t: Tree, held: set<nat>, f: nat)
    requires TablesOwned(pfn, t, held) && f in held
    ensures f !in t.Values
  {
  }

  lemma DepthAfterLink(t: Tree, va: u64, f: nat)
    requires Depth(t, va) < 3
    ensures Depth(t[PathNode(va, Depth(t, va) + 1) := f], va) == Depth(t, va) + 1
  {
  }

  lemma AfterOne(free: seq<nat>, k: nat)
    requires k < |free|
    ensures AfterFailure(free[k..]) == free[k + 1..] && free[k..][0] == free[k]
  {
  }

  lemma SupplyPositive(free: seq<nat>)
    ensures Supply(free) > 0 <==> free != [] && free[0] != 0
  {
  }

  lemma EntriesAfterWrite(mem: Memory, frame: nat, i: nat, e: u64)
    requires frame * TABLE_LENGTH + i < |mem| && i < TABLE_LENGTH
    ensures Entry(Write(mem, frame, i, e), frame, i) == e
    ensures forall f: nat, j: nat :: f != frame && j < TABLE_LENGTH ==>
              Entry(Write(mem, frame, i, e), f, j) == Entry(mem, f, j)
  {
  }

  lemma RootTable(mem: Memory, root: nat, t: Tree, va: u64)
    requires TreeInv(mem, root, t)
    ensures PathNode(va, 0) in t && t[PathNode(va, 0)] == root
  {
  }

  lemma ExtendByNone(t: Tree, va: u64, depth: nat, free: seq<nat>)
    ensures Extend(t, va, depth, free[..0]) == t && free[0..] == free
  {
  }

  /** Linking a clean frame puts no large page on any path ... */
  lemma ClearAfterTable(mem: Memory, root: nat, t: Tree, n: Node, i: nat, f: nat, v: u64, deep: nat)
    requires TreeInv(mem, root, t) && n in t && n.level < 3 && i < TABLE_LENGTH
    requires f !in t.Values && f < FRAME_LIMIT && f * TABLE_LENGTH + TABLE_LENGTH <= |mem| && Clean(mem, f)
    requires t[n] * TABLE_LENGTH + i < |mem|
    requires NoLargePage(mem, t, v, deep)
    ensures NoLargePage(Write(mem, t[n], i, TableEntry(f)), t[Child(n, i) := f], v, deep)
  {
    var mem', t' := Write(mem, t[n], i, TableEntry(f)), t[Child(n, i) := f];
    TableEntryFields(f);
    forall k: nat | k < deep && PathNode(v, k) in t'
      ensures var e := Entry(mem', t'[PathNode(v, k)], Index(v, k)); !(Present(e) && PageSize(e))
    {
      WriteOther(mem, t[n], i, TableEntry(f), t'[PathNode(v, k)], Index(v, k));
    }
  }

  /** ... and a leaf only on the paths of the addresses that it serves, and only from its level on. */
  lemma ClearAfterLeaf(mem: Memory, root: nat, t: Tree, target: u64, level: nat, e: u64, v: u64, deep: nat)
    requires TreeInv(mem, root, t) && 0 < level <= 3 && PathNode(target, level) in t
    requires t[PathNode(target, level)] * TABLE_LENGTH + Index(target, level) < |mem|
    requires NoLargePage(mem, t, v, deep) && (deep <= level || Slot(v, level) != Slot(target, level))
    ensures NoLargePage(Write(mem, t[PathNode(target, level)], Index(target, level), e),
                        Prune(t, PathNode(target, level + 1)), v, deep)
  {
    var n, i := PathNode(target, level), Index(target, level);
    var mem', t' := Write(mem, t[n], i, e), Prune(t, PathNode(target, level + 1));
    PathStep(target, level);
    PathStep(v, level);
    forall k: nat | k < deep && PathNode(v, k) in t'
      ensures var w := Entry(mem', t'[PathNode(v, k)], Index(v, k)); !(Present(w) && PageSize(w))
    {
      WriteOther(mem, t[n], i, e, t[PathNode(v, k)], Index(v, k));
      assert PathNode(v, k) == n ==> k == level;
    }
  }

  lemma ExtendByOne(t: Tree, va: u64, depth: nat, free: seq<nat>, k: nat)
    requires k < |free|
    ensures Extend(t, va, depth, free[..k + 1])
            == Extend(t, va, depth, free[..k])[PathNode(va, depth + k + 1) := free[k]]
  {
    assert free[..k + 1][..k] == free[..k];
  }

  lemma ClearToLevel1(mem: Memory, root: nat, t: Tree, va: u64)
    requires TreeInv(mem, root, t)
    ensures NoLargePage(mem, t, va, 1)
  {
    assert EntryAccounted(mem, t, ROOT, Index(va, 0));
  }

  const HUGE_PAGE_MAPPING_INDEX := 1
  const LARGE_PAGE_MAPPING_INDEX := 2
  const PAGE_MAPPING_INDEX := 3

  // The memory, tables and free list at one moment
  datatype Snapshot = Snapshot(mem: Memory, root: nat, tables: Tree, free: seq<nat>) {

    function View(v: u64): Translation
    {
      Translate(mem, root, v)
    }

    // The descent to the given level meets no large page
    ghost predicate PathClear(va: u64, level: nat)
    {
      NoLargePage(mem, tables, va, level)
    }
  }

  // Mapping a page of the given level obstructs no path but those of its own addresses below it
  ghost predicate ClearElsewhere(s: Snapshot, s': Snapshot, target: u64, level: nat)
  {
    forall v: u64, deep: nat :: s.PathClear(v, deep) && (deep <= level || Slot(v, level) != Slot(target, level)) ==>
      s'.PathClear(v, deep)
  }

  // Memory that belongs neither to a table nor to the free list keeps its contents
  ghost predicate OthersUntouched(s: Snapshot, s': Snapshot)
  {
    forall f: nat, i: nat :: i < TABLE_LENGTH && f !in s.tables.Values && f !in s.free ==>
      Entry(s'.mem, f, i) == Entry(s.mem, f, i)
  }

  // What a request to map one page of level 1, 2 or 3 does to the state
  ghost predicate MapResult(s: Snapshot, s': Snapshot, status: Status,
                            virtualAddress: u64, physicalAddress: u64, level: nat, flags: u64)
  {
    var d, missing, supply := Depth(s.tables, virtualAddress), Missing(s.tables, virtualAddress, level), Supply(s.free);
    && s'.root == s.root && |s'.mem| == |s.mem|
    && status == (if missing <= supply then Success else OutOfResources)
    // success takes one frame for each missing level and maps exactly the page asked for
    && (status == Success ==>
          && s'.free == s.free[missing..]
          && s'.tables == Prune(Extend(s.tables, virtualAddress, d, s.free[..missing]),
                                PathNode(virtualAddress, level + 1))
          && (forall v: u64 :: s'.View(v) == MapAt(s.View(v), virtualAddress, physicalAddress, level, flags, v)))
    // failure leaves every frame it took in the tree, and every translation alone
    && (status == OutOfResources ==>
          && s'.free == AfterFailure(s.free[supply..])
          && s'.tables == Extend(s.tables, virtualAddress, d, s.free[..supply])
          && (forall v: u64 :: s'.View(v) == s.View(v)))
    && ClearElsewhere(s, s', virtualAddress, level)
    && OthersUntouched(s, s')
  }

  lemma NothingTouched(s: Snapshot)
    ensures OthersUntouched(s, s)
  {
  }

  lemma UntouchedStep(s: Snapshot, m: Snapshot, s': Snapshot, frame: nat)
    requires OthersUntouched(s, m) && (frame in s.tables.Values || frame in s.free)
    requires forall f: nat, i: nat :: f != frame && i < TABLE_LENGTH ==> Entry(s'.mem, f, i) == Entry(m.mem, f, i)
    ensures OthersUntouched(s, s')
  {
  }

  lemma FailedResult(s: Snapshot, s': Snapshot, va: u64, pa: u64, level: nat, flags: u64, k: nat)
    requires s'.root == s.root && |s'.mem| == |s.mem|
    requires k == Supply(s.free) && Depth(s.tables, va) + k < level
    requires s'.free == AfterFailure(s.free[k..])
    requires s'.tables == Extend(s.tables, va, Depth(s.tables, va), s.free[..k])
    requires forall v: u64 :: s'.View(v) == s.View(v)
    requires forall v: u64, deep: nat :: s.PathClear(v, deep) ==> s'.PathClear(v, deep)
    requires OthersUntouched(s, s')
    ensures MapResult(s, s', OutOfResources, va, pa, level, flags)
  {
    hide Extend, Translate, NoLargePage, Supply;
  }

  lemma SucceededResult(s: Snapshot, m: Snapshot, s': Snapshot, va: u64, pa: u64, level: nat, flags: u64, k: nat)
    requires m.root == s'.root == s.root && |s'.mem| == |m.mem| == |s.mem|
    requires 0 < level <= 3 && k == Missing(s.tables, va, level) <= Supply(s.free)
    requires s'.free == m.free == s.free[k..]
    requires m.tables == Extend(s.tables, va, Depth(s.tables, va), s.free[..k])
    requires s'.tables == Prune(m.tables, PathNode(va, level + 1))
    requires PathNode(va, level) in m.tables
    requires m.tables[PathNode(va, level)] in s.tables.Values || m.tables[PathNode(va, level)] in s.free
    requires m.tables[PathNode(va, level)] * TABLE_LENGTH + TABLE_LENGTH <= |m.mem|
    requires s'.mem == Write(m.mem, m.tables[PathNode(va, level)], Index(va, level), LeafEntry(pa, flags))
    requires forall v: u64 :: m.View(v) == s.View(v)
    requires forall v: u64 :: s'.View(v) == MapAt(m.View(v), va, pa, level, flags, v)
    requires forall v: u64, deep: nat :: s.PathClear(v, deep) ==> m.PathClear(v, deep)
    requires ClearElsewhere(m, s', va, level) && OthersUntouched(s, m)
    ensures MapResult(s, s', Success, va, pa, level, flags)
  {
    hide Extend, Prune, Translate, NoLargePage, Supply, Depth, PathNode, MapAt, LeafEntry;
    var f := m.tables[PathNode(va, level)];
    EntriesAfterWrite(m.mem, f, Index(va, level), LeafEntry(pa, flags));
    UntouchedStep(s, m, s', f);
  }

  // ---------------------------------------------------------------- the tests of MappingExists

  // What the four tests find, from the entry of the given level in the given frame on
  predicate TestsPresent(mem: Memory, frame: nat, level: nat, va: u64)
    requires level <= 3
    decreases 3 - level
  {
    var e := Entry(mem, frame, Index(va, level));
    Present(e) && (level < 3 ==> TestsPresent(mem, FrameOf(e), level + 1, va))
  }

  // They read entries inside memory only
  predicate TestsInside(mem: Memory, frame: nat, level: nat, va: u64)
    requires level <= 3
    decreases 3 - level
  {
    var e := Entry(mem, frame, Index(va, level));
    frame * TABLE_LENGTH + TABLE_LENGTH <= |mem|
      && (Present(e) && level < 3 ==> TestsInside(mem, FrameOf(e), level + 1, va))
  }

  // One test, and where the next one looks
  lemma TestStep(mem: Memory, frame: nat, level: nat, va: u64)
    requires level <= 3 && TestsInside(mem, frame, level, va)
    ensures var at := frame * PAGE_SIZE / 8 + Index(va, level);
            && at < |mem|
            && (And(mem[at], PAGE_FLAG_PRESENT) == 0 ==> !TestsPresent(mem, frame, level, va))
            && (And(mem[at], PAGE_FLAG_PRESENT) != 0 && level == 3 ==> TestsPresent(mem, frame, level, va))
            && (And(mem[at], PAGE_FLAG_PRESENT) != 0 && level < 3 ==>
                  var next := And(mem[at], PAGE_PHYSICAL_MASK);
                  && next % PAGE_SIZE == 0 && TestsInside(mem, next / PAGE_SIZE, level + 1, va)
                  && TestsPresent(mem, frame, level, va) == TestsPresent(mem, next / PAGE_SIZE, level + 1, va))
  {
    assert frame * PAGE_SIZE / 8 == frame * TABLE_LENGTH;
    var e := mem[frame * TABLE_LENGTH + Index(va, level)];
    assert e == Entry(mem, frame, Index(va, level));
    PresentMacro(e);
    PhysicalMask(e);
    hide And, Index, Present;
    assert FrameOf(e) * PAGE_SIZE / PAGE_SIZE == FrameOf(e);
  }

  lemma {:induction false} TestsFollowWalk(mem: Memory, root: nat, t: Tree, va: u64, level: nat)
    requires TreeInv(mem, root, t) && NoLargePage(mem, t, va, 3) && level <= 3 && PathNode(va, level) in t
    ensures TestsInside(mem, t[PathNode(va, level)], level, va)
    ensures TestsPresent(mem, t[PathNode(va, level)], level, va) <==> WalkFrom(mem, root, 0, va, AllRights) != Fault
    decreases 3 - level
  {
    hide *;
    var f := t[PathNode(va, level)];
    TableInMemory(mem, root, t, PathNode(va, level));
    PathLevels(va);
    if Present(Entry(mem, f, Index(va, level))) && level < 3 {
      NextTest(mem, root, t, va, level);
      TestsFollowWalk(mem, root, t, va, level + 1);
      TestsUnfold(mem, f, level, va);
    } else {
      WalkReaches(mem, root, t, va, level);
      LastTest(mem, f, level, va);
    }
  }

  lemma NextTest(mem: Memory, root: nat, t: Tree, va: u64, level: nat)
    requires TreeInv(mem, root, t) && NoLargePage(mem, t, va, 3) && level < 3 && PathNode(va, level) in t
    requires Present(Entry(mem, t[PathNode(va, level)], Index(va, level)))
    ensures PathNode(va, level + 1) in t
    ensures FrameOf(Entry(mem, t[PathNode(va, level)], Index(va, level))) == t[PathNode(va, level + 1)]
  {
    hide TreeInv, NoLargePage, FrameOf, PathNode, Depth, And;
    NextPresent(mem, root, t, va, level, 3);
    PhysicalMask(Entry(mem, t[PathNode(va, level)], Index(va, level)));
  }

  lemma TestsUnfold(mem: Memory, frame: nat, level: nat, va: u64)
    requires level < 3 && Present(Entry(mem, frame, Index(va, level)))
    ensures var next := FrameOf(Entry(mem, frame, Index(va, level)));
            && TestsPresent(mem, frame, level, va) == TestsPresent(mem, next, level + 1, va)
            && (frame * TABLE_LENGTH + TABLE_LENGTH <= |mem| && TestsInside(mem, next, level + 1, va) ==>
                TestsInside(mem, frame, level, va))
  {
    hide Present, FrameOf, Index, Entry;
  }

  lemma LastTest(mem: Memory, frame: nat, level: nat, va: u64)
    requires level <= 3 && frame * TABLE_LENGTH + TABLE_LENGTH <= |mem|
    requires Present(Entry(mem, frame, Index(va, level))) ==> level == 3
    ensures TestsInside(mem, frame, level, va)
    ensures TestsPresent(mem, frame, level, va) <==> WalkFrom(mem, frame, level, va, TableRights(level)) != Fault
  {
  }

  // ---------------------------------------------------------------- the state, in place

  class PageManager {
    const pfn: array<PfnEntry>     // SsPfn
    const mem: array<u64>          // physical memory, 512 words to a frame
    var freeHead: nat              // SsPfnFreeHead
    var gPml4: nat                 // physical address of the PML4

    ghost var free: seq<nat>       // frames on the free list, first to last
    ghost var tables: Tree         // the tables reachable from gPml4
    ghost var held: set<nat>       // frames handed out to callers

    // The database as it is set up for so many frames: all reserved, nothing free
    constructor (frameCount: nat, memory: array<u64>)
      requires frameCount <= 0x1_0000_0000 && memory.Length == TABLE_LENGTH * frameCount
      ensures ValidFrames() && fresh(pfn) && mem == memory && pfn.Length == frameCount
      ensures free == [] && held == {} && Db() == AllReserved(frameCount)
      ensures forall f :: 0 <= f < frameCount ==> pfn[f] == PfnEntry(Reserved, 0xFF_FFFF, 0)
    {
      pfn := new PfnEntry[frameCount];
      mem := memory;
      gPml4, free, tables, held := 0, [], map[], {};
      freeHead := PFN_LIST_END;
      new;
      var i := 0;
      while i < frameCount
        invariant 0 <= i <= frameCount && freeHead == PFN_LIST_END
        invariant forall j :: 0 <= j < i ==> pfn[j] == PfnEntry(Reserved, PFN_LIST_END, 0)
        modifies pfn
      {
        pfn[i] := PfnEntry(Reserved, PFN_LIST_END, 0);
        i := i + 1;
      }
    }

    ghost function Db(): Allocator
      reads this, pfn
    {
      Allocator(pfn[..], freeHead)
    }

    ghost function Root(): nat
      reads this
    {
      gPml4 / PAGE_SIZE
    }

    ghost function Now(): Snapshot
      reads this, mem
    {
      Snapshot(mem[..], Root(), tables, free)
    }

    ghost function View(v: u64): Translation
      reads this, mem
    {
      Now().View(v)
    }

    ghost predicate ValidFrames()
      reads this, pfn
    {
      && pfn.Length <= MAX_FRAMES
      && mem.Length == TABLE_LENGTH * pfn.Length
      && Enumerates(Db(), free)
      && (forall f :: f in held ==> f < pfn.Length && pfn[f].state == Allocated)
    }

    ghost predicate ValidTables()
      reads this, pfn, mem
    {
      && gPml4 % PAGE_SIZE == 0
      && TreeInv(mem[..], Root(), tables)
      && TablesOwned(pfn[..], tables, held)
      && AllClean(mem[..], free)
    }

    ghost predicate Valid()
      reads this, pfn, mem
    {
      ValidFrames() && ValidTables()
    }

    // The descent to the given level meets no large page
    ghost predicate PathClear(va: u64, level: nat)
      reads this, mem
    {
      Now().PathClear(va, level)
    }

    // SsGetFreePhysicalPage
    method GetFreePhysicalPage() returns (pageBase: nat)
      requires ValidFrames()
      modifies this`freeHead, this`free, pfn
      ensures ValidFrames()
      ensures (Db(), pageBase) == Get(old(Db()))
      ensures free == AfterFailure(old(free))
      ensures pageBase == if old(free) == [] then 0 else old(free)[0] * PAGE_SIZE
      ensures old(free) != [] ==>
                && old(free)[0] !in free && old(free)[0] < pfn.Length
                && old(pfn[free[0]].state) == Free && pfn[old(free)[0]] == PfnEntry(Allocated, 0xFF_FFFF, 1)
      ensures forall f :: 0 <= f < pfn.Length && old(pfn[f].state) != Free ==> pfn[f] == old(pfn[f])
    {
      GetPops(Db(), free);
      if freeHead == PFN_LIST_END {
        return 0;
      }
      pageBase := freeHead * PAGE_SIZE;
      var entry := freeHead;
      freeHead := pfn[entry].offset;
      pfn[entry] := PfnEntry(Allocated, PFN_LIST_END, 1);
      free := free[1..];
      assert pfn[..] == Get(old(Db())).0.pfn;
    }

    // Releasing the page keeps the list sound: its frame is not on the list and not the end marker
    ghost predicate Releasable(address: u64)
      reads this, pfn
    {
      address / PAGE_SIZE < pfn.Length ==>
        pfn[address / PAGE_SIZE].state != Free && address / PAGE_SIZE != PFN_LIST_END
    }

    // SsFreePhysicalPage. The tables stay valid if the page is none of them and holds no present entries.
    method FreePhysicalPage(address: u64)
      requires ValidFrames()
      modifies this`freeHead, this`free, this`held, pfn
      ensures Db() == Release(old(Db()), address)
      ensures address / 0x1000 < pfn.Length ==>
                pfn[address / 0x1000] == PfnEntry(Free, old(freeHead) % 0x1_0000_0000, 0)
                && freeHead == address / 0x1000
      ensures forall f :: 0 <= f < pfn.Length && f != address / 0x1000 ==> pfn[f] == old(pfn[f])
      ensures held == old(held) - {address / PAGE_SIZE}
      ensures old(Releasable(address)) ==>
                && ValidFrames()
                && free == if address / PAGE_SIZE < pfn.Length then [address / PAGE_SIZE] + old(free) else old(free)
      ensures old(Releasable(address)) && old(ValidTables())
              && (address / PAGE_SIZE < pfn.Length ==>
                    address / PAGE_SIZE !in tables.Values && Clean(mem[..], address / PAGE_SIZE))
              ==> ValidTables()
    {
      hide Enumerates, Chain, TreeInv, Clean;
      var indexPfn := address / PAGE_SIZE;
      if indexPfn < pfn.Length {
        HeadFits(Db(), free);
        if Releasable(address) {
          PushKeepsChain(Db(), free, indexPfn, Release(Db(), address));
          free := [indexPfn] + free;
        }
        pfn[indexPfn] := PfnEntry(Free, freeHead % 0x1_0000_0000, 0);
        freeHead := indexPfn;
        assert pfn[..] == Release(old(Db()), address).pfn;
      }
      held := held - {indexPfn};
      if old(ValidTables()) && (indexPfn < pfn.Length ==> indexPfn !in tables.Values) {
        OwnedAfterRelease(old(Db()), address, tables, old(held));
      }
    }

    // The page is 0 exactly when the call fails. The firmware accepts every claim on a listed frame.
    method AllocatePage() returns (status: Status, page: nat)
      requires ValidFrames()
      modifies this`freeHead, this`free, this`held, pfn
      ensures ValidFrames()
      ensures status == if Supply(old(free)) > 0 then Success else OutOfResources
      ensures free == AfterFailure(old(free))
      ensures status == Success ==>
                && old(free) != [] && page == old(free)[0] * PAGE_SIZE > 0
                && old(free)[0] < pfn.Length && old(free)[0] !in old(held) && old(free)[0] !in free
                && held == old(held) + {old(free)[0]}
      ensures status != Success ==> page == 0 && held == old(held)
      ensures forall f :: 0 <= f < pfn.Length && old(pfn[f].state) != Free ==> pfn[f] == old(pfn[f])
      ensures old(ValidTables()) ==> ValidTables()
    {
      hide Enumerates, Chain, TreeInv, Clean, Get;
      page := GetFreePhysicalPage();
      if page == 0 {
        return OutOfResources, 0;
      }
      status := Success;
      held := held + {old(free)[0]};
    }

    // SsPagingInit: the root table is zeroed before use
    method PagingInit() returns (page: nat)
      requires ValidFrames()
      requires AllClean(mem[..], AfterFailure(free))
      modifies this, pfn, mem
      ensures ValidFrames()
      ensures free == AfterFailure(old(free)) && held == old(held)
      ensures Supply(old(free)) == 0 ==> page == 0 && mem[..] == old(mem[..]) && gPml4 == old(gPml4)
      ensures Supply(old(free)) > 0 ==>
                && page == gPml4 == old(free)[0] * PAGE_SIZE > 0
                && Valid() && tables == map[ROOT := old(free)[0]]
                && forall v: u64 :: Now().View(v) == Fault
      ensures forall f: nat, i: nat :: (old(free) == [] || f != old(free)[0]) && i < TABLE_LENGTH ==>
                Entry(mem[..], f, i) == old(Entry(mem[..], f, i))
    {
      hide Enumerates, Chain, TreeInv, Translate, Supply, AfterFailure;
      SupplyPositive(free);
      var status;
      status, page := AllocatePage();
      if page == 0 {
        return;
      }
      ghost var f := old(free)[0];
      gPml4 := page;
      held := held - {f};
      ghost var frames := pfn[..];
      var i := 0;
      while i < TABLE_LENGTH
        invariant 0 <= i <= TABLE_LENGTH
        invariant pfn[..] == frames
        invariant forall w :: f * TABLE_LENGTH <= w < f * TABLE_LENGTH + i ==> mem[w] == 0
        invariant forall w :: 0 <= w < mem.Length && w / TABLE_LENGTH != f ==> mem[w] == old(mem[w])
        modifies mem
      {
        assert gPml4 / 8 == f * TABLE_LENGTH;
        mem[gPml4 / 8 + i] := 0;
        i := i + 1;
      }
      tables := map[ROOT := f];
      forall j | 0 <= j < TABLE_LENGTH
        ensures !Present(Entry(mem[..], f, j))
      {
        assert mem[..][f * TABLE_LENGTH + j] == 0;
      }
      EmptyTree(mem[..], f);
      EntriesOutside(old(mem[..]), mem[..], f);
      CleanFramesStay(old(mem[..]), mem[..], f, free);
    }

    // MAKE_PAGE_ENTRY on a non-present entry of an existing table: a frame becomes the table there
    method MakeTable(ghost n: Node, table: nat, i: nat, nextTablePhysical: u64)
      requires Valid()
      requires n in tables && n.level < 3 && i < TABLE_LENGTH && table == tables[n] * PAGE_SIZE
      requires !Present(Entry(mem[..], tables[n], i))
      requires nextTablePhysical % PAGE_SIZE == 0 && nextTablePhysical / PAGE_SIZE in held
      requires Clean(mem[..], nextTablePhysical / PAGE_SIZE)
      modifies this`tables, this`held, mem
      ensures Valid()
      ensures tables == old(tables)[Child(n, i) := nextTablePhysical / PAGE_SIZE]
      ensures held == old(held) - {nextTablePhysical / PAGE_SIZE}
      ensures mem[..] == Write(old(mem[..]), old(tables)[n], i, TableEntry(nextTablePhysical / PAGE_SIZE))
      ensures forall v: u64 :: Now().View(v) == old(Now()).View(v)
      ensures forall v: u64, deep: nat :: old(Now()).PathClear(v, deep) ==> Now().PathClear(v, deep)
    {
      hide Enumerates, Translate, Clean, TreeInv, NoLargePage;
      ghost var f := nextTablePhysical / PAGE_SIZE;
      ghost var before := mem[..];
      TableInMemory(before, Root(), tables, n);
      NotOnFreeList(Db(), free, tables[n]);
      PageEntryMacro(f);
      assert table / 8 == tables[n] * TABLE_LENGTH && nextTablePhysical == f * PAGE_SIZE;
      LinkKeepsTree(before, Root(), tables, n, i, f);
      forall v: u64
        ensures Translate(Write(before, tables[n], i, TableEntry(f)), Root(), v) == Translate(before, Root(), v)
      {
        LinkKeepsTranslations(before, Root(), tables, n, i, f, v);
      }
      forall v: u64, deep: nat | NoLargePage(before, tables, v, deep)
        ensures NoLargePage(Write(before, tables[n], i, TableEntry(f)), tables[Child(n, i) := f], v, deep)
      {
        ClearAfterTable(before, Root(), tables, n, i, f, v, deep);
      }
      mem[table / 8 + i] := MakePageEntry(nextTablePhysical);
      tables := tables[Child(n, i) := f];
      held := held - {f};
      assert mem[..] == Write(before, old(tables)[n], i, TableEntry(f));
      CleanAfterWrite(before, old(tables)[n], i, TableEntry(f), free);
    }

    // MAKE_LEAF_ENTRY in the last table of a descent
    method MakeLeaf(ghost target: u64, ghost level: nat, table: nat, i: nat, pagePhysical: u64, flags: u64)
      requires Valid()
      requires 0 < level <= 3 && PathNode(target, level) in tables && i == Index(target, level)
      requires table == tables[PathNode(target, level)] * PAGE_SIZE
      requires !RefersToTable(flags, level)
      modifies this`tables, mem
      ensures Valid()
      ensures tables == Prune(old(tables), PathNode(target, level + 1))
      ensures mem[..] == Write(old(mem[..]), old(tables)[PathNode(target, level)], i, LeafEntry(pagePhysical, flags))
      ensures forall v: u64 :: Now().View(v) == MapAt(old(Now()).View(v), target, pagePhysical, level, flags, v)
      ensures ClearElsewhere(old(Now()), Now(), target, level)
    {
      hide Enumerates, WalkFrom, Clean, TreeInv, NoLargePage;
      ghost var n := PathNode(target, level);
      ghost var before := mem[..];
      ghost var e := LeafEntry(pagePhysical, flags);
      TableInMemory(before, Root(), tables, n);
      NotOnFreeList(Db(), free, tables[n]);
      LeafEntryMacro(pagePhysical, flags);
      LeafEntryFields(pagePhysical, flags);
      PathStep(target, level);
      assert table / 8 == tables[n] * TABLE_LENGTH;
      LeafKeepsTree(before, Root(), tables, n, i, e);
      forall v: u64
        ensures Translate(Write(before, tables[n], i, e), Root(), v)
                == MapAt(Translate(before, Root(), v), target, pagePhysical, level, flags, v)
      {
        if Canonical(v) {
          LeafTranslations(before, Root(), tables, target, level, e, v);
        }
      }
      forall v: u64, deep: nat | NoLargePage(before, tables, v, deep)
        && (deep <= level || Slot(v, level) != Slot(target, level))
        ensures NoLargePage(Write(before, tables[n], i, e), Prune(tables, PathNode(target, level + 1)), v, deep)
      {
        ClearAfterLeaf(before, Root(), tables, target, level, e, v, deep);
      }
      mem[table / 8 + i] := MakeLeafEntry(pagePhysical, flags);
      tables := Prune(tables, PathNode(target, level + 1));
      assert mem[..] == Write(before, old(tables)[n], i, e);
      CleanAfterWrite(before, old(tables)[n], i, e, free);
    }

    lemma TableAt(n: Node)
      requires Valid() && n in tables
      ensures n.level <= 3 && tables[n] < FRAME_LIMIT && tables[n] * TABLE_LENGTH + TABLE_LENGTH <= mem.Length
    {
      TableInMemory(mem[..], Root(), tables, n);
    }

    lemma RootAt(va: u64)
      requires Valid()
      ensures PathNode(va, 0) in tables && tables[PathNode(va, 0)] * PAGE_SIZE == gPml4
    {
      RootTable(mem[..], Root(), tables, va);
    }

    // One step of the descent: the table below an entry, allocated and linked if it is missing
    method NextTable(ghost va: u64, ghost level: nat, ghost deep: nat, table: nat, i: nat)
      returns (ok: bool, next: nat)
      requires Valid()
      requires level < deep <= 3 && level <= Depth(tables, va) && PathClear(va, deep)
      requires PathNode(va, level) in tables && table == tables[PathNode(va, level)] * PAGE_SIZE
      requires i == Index(va, level)
      modifies this`freeHead, this`free, this`held, this`tables, pfn, mem
      ensures Valid() && held == old(held)
      ensures forall v: u64, low: nat :: old(Now()).PathClear(v, low) ==> Now().PathClear(v, low)
      ensures ok <==> level < old(Depth(tables, va)) || Supply(old(free)) > 0
      ensures ok ==> PathNode(va, level + 1) in tables && next == tables[PathNode(va, level + 1)] * PAGE_SIZE
      ensures ok ==> Depth(tables, va) == if level < old(Depth(tables, va)) then old(Depth(tables, va)) else level + 1
      ensures if level < old(Depth(tables, va)) then tables == old(tables) && free == old(free)
              else free == AfterFailure(old(free)) &&
                   tables == if ok then old(tables)[PathNode(va, level + 1) := old(free)[0]] else old(tables)
      ensures forall v: u64 :: Now().View(v) == old(Now()).View(v)
      ensures forall f: nat, j: nat :: f != old(tables)[PathNode(va, level)] && j < TABLE_LENGTH ==>
                Entry(mem[..], f, j) == old(Entry(mem[..], f, j))
    {
      hide Enumerates, Translate, TreeInv, Clean, NoLargePage, PathNode, Index, Depth, Supply, AfterFailure;
      ghost var n := PathNode(va, level);
      ghost var before := mem[..];
      TableInMemory(before, Root(), tables, n);
      assert table / 8 == tables[n] * TABLE_LENGTH;
      var entry := mem[table / 8 + i];
      assert entry == Entry(before, tables[n], i);
      PresentMacro(entry);
      if And(entry, PAGE_FLAG_PRESENT) == 0 {
        NextMissing(before, Root(), tables, va, level, deep);
        var status, nextTablePhysical := AllocatePage();
        if nextTablePhysical == 0 {
          return false, 0;
        }
        ghost var f := old(free)[0];
        NotATable(pfn[..], tables, held, f);
        PathStep(va, level);
        MakeTable(n, table, i, nextTablePhysical);
        PhysicalMaskOfTable(f);
        DepthAfterLink(old(tables), va, f);
        EntriesAfterWrite(before, old(tables)[n], i, TableEntry(f));
      } else {
        NextPresent(before, Root(), tables, va, level, deep);
      }
      assert mem[table / 8 + i] == Entry(mem[..], old(tables)[n], i);
      ok, next := true, And(mem[table / 8 + i], PAGE_PHYSICAL_MASK);
    }

    // UefiMapTables
    method UefiMapTables(pml4: nat, virtualAddress: u64, physicalAddress: u64, tableEnd: nat, flags: u64)
      returns (status: Status)
      requires Valid() && pml4 == gPml4
      requires 1 <= tableEnd <= 3 ==> !RefersToTable(flags, tableEnd) && PathClear(virtualAddress, tableEnd)
      modifies this`freeHead, this`free, this`held, this`tables, pfn, mem
      ensures Valid() && held == old(held)
      ensures if 1 <= tableEnd <= 3
              then MapResult(old(Now()), Now(), status, virtualAddress, physicalAddress, tableEnd, flags)
              else status == InvalidParameter && mem[..] == old(mem[..]) && Db() == old(Db()) && tables == old(tables)
    {
      hide Enumerates, Translate, TreeInv, Clean, NoLargePage, Prune, Extend, RefersToTable, Supply, Entry, MapAt;
      hide Write, PathNode, Depth, Index, Slot, Pml4Index, PdptIndex, PdIndex, PtIndex, LeafEntry;
      hide Valid, AfterFailure, Snapshot.View, Snapshot.PathClear, MapResult, OthersUntouched, ClearElsewhere;
      if tableEnd < 1 || tableEnd > 3 {
        return InvalidParameter;
      }
      IndexMacros(virtualAddress);
      var entryIndex := [Pml4Index(virtualAddress), PdptIndex(virtualAddress),
                         PdIndex(virtualAddress), PtIndex(virtualAddress)];
      var table := pml4;
      ghost var va := virtualAddress;
      ghost var d := Depth(tables, va);
      ghost var k := 0;
      var i := 0;
      RootAt(va);
      ExtendByNone(tables, va, d, free);
      NothingTouched(Now());
      while i < tableEnd
        invariant 0 <= i <= tableEnd
        invariant Valid() && held == old(held)
        invariant i <= d + k == Depth(tables, va) && (k > 0 ==> i == d + k)
        invariant k <= Supply(old(free)) && free == old(free)[k..]
        invariant tables == Extend(old(tables), va, d, old(free)[..k])
        invariant PathNode(va, i) in tables && table == tables[PathNode(va, i)] * PAGE_SIZE
        invariant tables[PathNode(va, i)] in old(tables).Values || tables[PathNode(va, i)] in old(free)
        invariant k == 0 ==> tables == old(tables)
        invariant forall v: u64, deep: nat :: old(Now()).PathClear(v, deep) ==> Now().PathClear(v, deep)
        invariant forall v: u64 :: Now().View(v) == old(Now()).View(v)
        invariant OthersUntouched(old(Now()), Now())
      {
        ghost var before := Now();
        SupplyAfter(old(free), k);
        ghost var reached := Depth(tables, va);
        ghost var available := free;
        var ok;
        ok, table := NextTable(va, i, tableEnd, table, entryIndex[i]);
        UntouchedStep(old(Now()), before, Now(), before.tables[PathNode(va, i)]);
        if !ok {
          FailedResult(old(Now()), Now(), va, physicalAddress, tableEnd, flags, k);
          return OutOfResources;
        }
        if i == reached {
          SupplyPositive(available);
          AfterOne(old(free), k);
          ExtendByOne(old(tables), va, d, old(free), k);
          k := k + 1;
        }
        i := i + 1;
      }
      TableAt(PathNode(va, tableEnd));
      ghost var descended := Now();
      MakeLeaf(va, tableEnd, table, entryIndex[tableEnd], physicalAddress, flags);
      SucceededResult(old(Now()), descended, Now(), va, physicalAddress, tableEnd, flags, k);
      status := Success;
    }

    // MapPage
    method MapPage(virtualAddress: u64, physicalAddress: u64, flags: u64) returns (status: Status)
      requires Valid() && PathClear(virtualAddress, 3)
      modifies this`freeHead, this`free, this`held, this`tables, pfn, mem
      ensures Valid() && held == old(held)
      ensures MapResult(old(Now()), Now(), status, virtualAddress, physicalAddress, 3, flags)
    {
      hide Valid;
      status := UefiMapTables(gPml4, virtualAddress, physicalAddress, PAGE_MAPPING_INDEX, flags);
    }

    // MapLargePage
    method MapLargePage(virtualAddress: u64, physicalAddress: u64, flags: u64) returns (status: Status)
      requires Valid() && PathClear(virtualAddress, 2)
      modifies this`freeHead, this`free, this`held, this`tables, pfn, mem
      ensures Valid() && held == old(held)
      ensures MapResult(old(Now()), Now(), status, virtualAddress, physicalAddress, 2, LargeFlags(flags))
    {
      hide Valid;
      status := UefiMapTables(gPml4, virtualAddress, physicalAddress, LARGE_PAGE_MAPPING_INDEX, LargeFlags(flags));
    }

    // MapHugePage: the one entry above a 1 GiB leaf is never a large page
    method MapHugePage(virtualAddress: u64, physicalAddress: u64, flags: u64) returns (status: Status)
      requires Valid()
      modifies this`freeHead, this`free, this`held, this`tables, pfn, mem
      ensures Valid() && held == old(held)
      ensures MapResult(old(Now()), Now(), status, virtualAddress, physicalAddress, 1, LargeFlags(flags))
    {
      ClearToLevel1(mem[..], Root(), tables, virtualAddress);
      hide Valid;
      status := UefiMapTables(gPml4, virtualAddress, physicalAddress, HUGE_PAGE_MAPPING_INDEX, LargeFlags(flags));
    }

    // MappingExists: four tests for presence, none for a large page
    method MappingExists(pml4: nat, virtualAddress: u64) returns (status: Status)
      requires pml4 == gPml4 && gPml4 % PAGE_SIZE == 0
      requires TestsInside(mem[..], Root(), 0, virtualAddress)
      ensures status == if TestsPresent(mem[..], Root(), 0, virtualAddress) then Success else Aborted
    {
      hide TestsPresent, TestsInside, Index, Present, FrameOf, Pml4Index, PdptIndex, PdIndex, PtIndex;
      var va := virtualAddress;
      ghost var words := mem[..];
      IndexMacros(va);
      TestStep(words, Root(), 0, va);
      var entry := mem[pml4 / 8 + Pml4Index(va)];
      if And(entry, PAGE_FLAG_PRESENT) == 0 {
        return Aborted;
      }
      var pdpt := And(entry, PAGE_PHYSICAL_MASK);
      TestStep(words, pdpt / PAGE_SIZE, 1, va);
      entry := mem[pdpt / 8 + PdptIndex(va)];
      if And(entry, PAGE_FLAG_PRESENT) == 0 {
        return Aborted;
      }
      var pd := And(entry, PAGE_PHYSICAL_MASK);
      TestStep(words, pd / PAGE_SIZE, 2, va);
      entry := mem[pd / 8 + PdIndex(va)];
      if And(entry, PAGE_FLAG_PRESENT) == 0 {
        return Aborted;
      }
      var pt := And(entry, PAGE_PHYSICAL_MASK);
      TestStep(words, pt / PAGE_SIZE, 3, va);
      entry := mem[pt / 8 + PtIndex(va)];
      if And(entry, PAGE_FLAG_PRESENT) == 0 {
        return Aborted;
      }
      return Success;
    }

    /** If no large page lies on the path, MappingExists succeeds exactly if the hardware translates the
        address. */
    lemma TestsMatchWalk(va: u64)
      requires Valid() && PathClear(va, 3)
      ensures gPml4 % PAGE_SIZE == 0 && TestsInside(mem[..], Root(), 0, va)
      ensures TestsPresent(mem[..], Root(), 0, va) <==> WalkFrom(mem[..], Root(), 0, va, AllRights) != Fault
      ensures Canonical(va) ==> (TestsPresent(mem[..], Root(), 0, va) <==> View(va) != Fault)
    {
      hide Enumerates, Clean, NoLargePage, TablesOwned, TreeInv, WalkFrom, TestsPresent, TestsInside;
      RootTable(mem[..], Root(), tables, va);
      TestsFollowWalk(mem[..], Root(), tables, va, 0);
    }
  }
}
