/**
  How many tables a range needs: frame by frame, as the chunks are mapped, and in closed form.
 */
module TableCost {
  import opened Bits
  import opened PageWalk
  import opened PageTree
  import opened Mapping
  import opened Paging
  import opened DirectMap

  // ---------------------------------------------------------------- tables for a range

  // The tables below the root that mapping a page of the given level at va needs
  ghost function PathNodes(va: u64, level: nat): set<Node>
  {
    set k: nat | 1 <= k <= level :: PathNode(va, k)
  }

  // All tables that the chunks of [cur, end) need
  ghost function ChunkNodes(cur: nat, end: nat): set<Node>
    requires PageRange(cur, end)
    decreases end - cur
  {
    if cur == end then {}
    else
      var level := ChunkLevel(end - cur);
      ChunkFits(cur, end);
      PathNodes(cur, level) + ChunkNodes(cur + Span(level), end)
  }

  // How many of them a tree does not have
  ghost function NewCount(t: Tree, va: u64, level: nat): nat
  {
    |PathNodes(va, level) - t.Keys|
  }

  lemma {:induction false} MissingAreNew(mem: Memory, root: nat, t: Tree, va: u64, level: nat)
    requires TreeInv(mem, root, t) && level <= 3
    ensures NewCount(t, va, level) == Missing(t, va, level)
  {
    hide *;
    if level == 0 {
      NothingMissing(t, va);
    } else {
      MissingAreNew(mem, root, t, va, level - 1);
      DepthIsLast(mem, root, t, va, level);
      MissingStep(t, va, level);
      NewNodesStep(t, va, level);
    }
  }

  lemma NewNodesStep(t: Tree, va: u64, level: nat)
    requires level > 0
    ensures NewCount(t, va, level) == NewCount(t, va, level - 1) + (if PathNode(va, level) in t then 0 else 1)
  {
    PathNodesStep(va, level);
    OneMore(PathNodes(va, level - 1), PathNode(va, level), PathNodes(va, level), t.Keys);
  }

  lemma NothingMissing(t: Tree, va: u64)
    ensures NewCount(t, va, 0) == 0 && Missing(t, va, 0) == 0
  {
    assert PathNodes(va, 0) == {};
  }

  lemma MissingStep(t: Tree, va: u64, level: nat)
    requires level > 0 && (PathNode(va, level) in t <==> level <= Depth(t, va))
    ensures Missing(t, va, level) == Missing(t, va, level - 1) + (if PathNode(va, level) in t then 0 else 1)
  {
    hide PathNode, Depth;
  }

  lemma PathNodesStep(va: u64, level: nat)
    requires level > 0
    ensures forall n :: n in PathNodes(va, level) <==> n in PathNodes(va, level - 1) || n == PathNode(va, level)
    ensures PathNode(va, level) !in PathNodes(va, level - 1)
  {
    hide Slot;
  }

  lemma OneMore(some: set<Node>, n: Node, all: set<Node>, have: set<Node>)
    requires n !in some && forall m :: m in all <==> m in some || m == n
    ensures |all - have| == |some - have| + (if n in have then 0 else 1)
  {
    if n in have {
      assert all - have == some - have;
    } else {
      assert all - have == (some - have) + {n};
    }
  }

  lemma {:induction false} ExtendKeys(t: Tree, va: u64, depth: nat, frames: seq<nat>)
    ensures Extend(t, va, depth, frames).Keys
            == t.Keys + (set k: nat | depth < k <= depth + |frames| :: PathNode(va, k))
  {
    if frames != [] {
      ExtendKeys(t, va, depth, frames[..|frames| - 1]);
    }
  }

  lemma KeysAfterMap(mem: Memory, root: nat, t: Tree, va: u64, level: nat, frames: seq<nat>)
    requires TreeInv(mem, root, t) && level <= 3 && |frames| == Missing(t, va, level)
    ensures Extend(t, va, Depth(t, va), frames).Keys == t.Keys + PathNodes(va, level)
  {
    ExtendKeys(t, va, Depth(t, va), frames);
    forall k: nat | 1 <= k <= level
      ensures PathNode(va, k) in t <==> k <= Depth(t, va)
    {
      DepthIsLast(mem, root, t, va, k);
    }
  }

  lemma {:induction false} LaterNodesNotBelow(cur: nat, level: nat, next: nat, end: nat)
    requires 1 <= level <= 3 && cur + Span(level) <= next && PageRange(next, end) && end <= VA_SPACE
    ensures forall n :: n in ChunkNodes(next, end) ==> !Below(n, PathNode(cur, level + 1))
    decreases end - next
  {
    if next < end {
      ChunkFits(next, end);
      var l := ChunkLevel(end - next);
      LaterNodesNotBelow(cur, level, next + Span(l), end);
      EarlierSlot(cur, next, level);
      forall k: nat | 1 <= k <= l
        ensures !Below(PathNode(next, k), PathNode(cur, level + 1))
      {
        PathBelow(next, k, PathNode(cur, level + 1));
      }
    }
  }

  /** One chunk takes its missing tables; what the rest of the range needs is as before. */
  lemma ChunkCost(mem: Memory, root: nat, t: Tree, cur: nat, next: nat, end: nat, level: nat, frames: seq<nat>)
    requires TreeInv(mem, root, t) && PageRange(cur, end) && PageRange(next, end) && end <= VA_SPACE && cur < end
    requires level == ChunkLevel(end - cur) && next == cur + Span(level)
    requires |frames| == Missing(t, cur, level)
    ensures |ChunkNodes(cur, end) - t.Keys|
            == |frames| + |ChunkNodes(next, end)
                           - Prune(Extend(t, cur, Depth(t, cur), frames), PathNode(cur, level + 1)).Keys|
  {
    assert ChunkNodes(cur, end) == PathNodes(cur, level) + ChunkNodes(next, end);
    hide *;
    var t1 := Extend(t, cur, Depth(t, cur), frames);
    MissingAreNew(mem, root, t, cur, level);
    KeysAfterMap(mem, root, t, cur, level, frames);
    LaterNodesNotBelow(cur, level, next, end);
    PrunedKeys(t1, PathNode(cur, level + 1), ChunkNodes(next, end));
    SplitNeeds(t, cur, level, PathNodes(cur, level), ChunkNodes(next, end), t.Keys);
  }

  lemma PrunedKeys(t: Tree, top: Node, nodes: set<Node>)
    requires forall n :: n in nodes ==> !Below(n, top)
    ensures nodes - Prune(t, top).Keys == nodes - t.Keys
  {
  }

  lemma SplitNeeds(t: Tree, va: u64, level: nat, here: set<Node>, later: set<Node>, have: set<Node>)
    requires here == PathNodes(va, level) && have == t.Keys
    ensures |here + later - have| == NewCount(t, va, level) + |later - (have + here)|
  {
    hide *;
    SplitSets(here, later, have);
    NewCountIs(t, va, level, here, have);
  }

  lemma SplitSets(here: set<Node>, later: set<Node>, have: set<Node>)
    ensures |here + later - have| == |here - have| + |later - (have + here)|
  {
    var a, b := here - have, later - (have + here);
    assert here + later - have == a + b;
    assert a * b == {};
  }

  lemma NewCountIs(t: Tree, va: u64, level: nat, here: set<Node>, have: set<Node>)
    requires here == PathNodes(va, level) && have == t.Keys
    ensures NewCount(t, va, level) == |here - have|
  {
    hide PathNodes;
  }

  // The frames that the whole range takes from the allocator
  ghost function TablesNeeded(t: Tree, cur: nat, end: nat): nat
    requires PageRange(cur, end)
  {
    |ChunkNodes(cur, end) - t.Keys|
  }

  lemma MissingIsNeeded(mem: Memory, root: nat, t: Tree, cur: nat, end: nat)
    requires TreeInv(mem, root, t) && PageRange(cur, end) && cur < end
    ensures Missing(t, cur, ChunkLevel(end - cur)) <= TablesNeeded(t, cur, end)
  {
    var level := ChunkLevel(end - cur);
    MissingAreNew(mem, root, t, cur, level);
    ChunkFits(cur, end);
    Cardinality(PathNodes(cur, level) - t.Keys, ChunkNodes(cur, end) - t.Keys);
  }

  lemma {:induction false} Cardinality(a: set<Node>, b: set<Node>)
    requires a <= b
    ensures |a| <= |b|
  {
    assert b == a + (b - a);
  }

  // ---------------------------------------------------------------- tables for the boot-time map

  // k tables of a level, numbered from 0
  ghost function FirstNodes(level: nat, first: nat, last: nat): set<Node>
  {
    set k: nat | first <= k < last :: Node(level, k)
  }

  lemma {:induction false} FirstNodesCount(level: nat, first: nat, last: nat)
    requires first <= last
    ensures |FirstNodes(level, first, last)| == last - first
    decreases last - first
  {
    if first < last {
      FirstNodesCount(level, first, last - 1);
      assert FirstNodes(level, first, last) == FirstNodes(level, first, last - 1) + {Node(level, last - 1)};
    } else {
      assert FirstNodes(level, first, last) == {};
    }
  }

  function CeilDiv(n: nat, d: nat): nat
    requires d > 0
  {
    (n + d - 1) / d
  }

  lemma PathNodesOf(cur: nat, level: nat)
    requires cur < VA_SPACE && 1 <= level <= 3
    ensures PathNodes(cur, level)
            == {Node(1, cur / 0x80_0000_0000)}
               + (if level >= 2 then {Node(2, cur / HUGE_PAGE_SIZE)} else {})
               + (if level >= 3 then {Node(3, cur / LARGE_PAGE_SIZE)} else {})
  {
    assert PathNodes(cur, 0) == {};
    PathNodesStep(cur, 1);
    if level >= 2 { PathNodesStep(cur, 2); }
    if level >= 3 { PathNodesStep(cur, 3); }
  }

  lemma {:induction false} SmallPhase(cur: nat, end: nat)
    requires PageRange(cur, end) && end <= VA_SPACE && cur < end && cur / LARGE_PAGE_SIZE == end / LARGE_PAGE_SIZE
    ensures ChunkNodes(cur, end) == PathNodes(cur, 3)
    decreases end - cur
  {
    assert ChunkLevel(end - cur) == 3 by { QuotientGap(cur, end); }
    ChunkFits(cur, end);
    var next := cur + PAGE_SIZE;
    if next < end {
      assert next / LARGE_PAGE_SIZE == cur / LARGE_PAGE_SIZE;
      assert next / HUGE_PAGE_SIZE == cur / HUGE_PAGE_SIZE && next / 0x80_0000_0000 == cur / 0x80_0000_0000 by {
        CoarserQuotients(cur, next);
      }
      SmallPhase(next, end);
      PathNodesOf(cur, 3);
      PathNodesOf(next, 3);
    }
  }

  lemma QuotientGap(a: nat, b: nat)
    requires a <= b
    ensures a / LARGE_PAGE_SIZE == b / LARGE_PAGE_SIZE ==> b - a < LARGE_PAGE_SIZE
    ensures a / HUGE_PAGE_SIZE == b / HUGE_PAGE_SIZE ==> b - a < HUGE_PAGE_SIZE
  {
  }

  lemma CoarserQuotients(a: nat, b: nat)
    ensures a / LARGE_PAGE_SIZE == b / LARGE_PAGE_SIZE ==> a / HUGE_PAGE_SIZE == b / HUGE_PAGE_SIZE
    ensures a / HUGE_PAGE_SIZE == b / HUGE_PAGE_SIZE ==> a / 0x80_0000_0000 == b / 0x80_0000_0000
  {
    assert a / HUGE_PAGE_SIZE == a / LARGE_PAGE_SIZE / 512 && b / HUGE_PAGE_SIZE == b / LARGE_PAGE_SIZE / 512;
    assert a / 0x80_0000_0000 == a / HUGE_PAGE_SIZE / 512 && b / 0x80_0000_0000 == b / HUGE_PAGE_SIZE / 512;
  }

  // The page table that the end of a range needs
  ghost function LastTable(end: nat): set<Node>
  {
    if end % LARGE_PAGE_SIZE != 0 then {Node(3, end / LARGE_PAGE_SIZE)} else {}
  }

  lemma {:induction false} LargePhase(cur: nat, end: nat)
    requires PageRange(cur, end) && end <= VA_SPACE && cur < end
    requires cur % LARGE_PAGE_SIZE == 0 && cur / HUGE_PAGE_SIZE == end / HUGE_PAGE_SIZE
    ensures ChunkNodes(cur, end) == PathNodes(cur, 2) + LastTable(end)
    decreases end - cur
  {
    if end - cur < LARGE_PAGE_SIZE {
      LargeTail(cur, end);
    } else {
      var next := LargeNext(cur, end);
      hide ChunkNodes, PathNodes, LastTable, PageRange;
      if next < end {
        LargePhase(next, end);
        SamePathNodes(cur, next);
      }
    }
  }

  lemma LargeNext(cur: nat, end: nat) returns (next: nat)
    requires PageRange(cur, end) && end <= VA_SPACE && end - cur >= LARGE_PAGE_SIZE
    requires cur % LARGE_PAGE_SIZE == 0 && cur / HUGE_PAGE_SIZE == end / HUGE_PAGE_SIZE
    ensures cur < next <= end && PageRange(next, end) && next % LARGE_PAGE_SIZE == 0
    ensures next / HUGE_PAGE_SIZE == end / HUGE_PAGE_SIZE
    ensures ChunkNodes(cur, end) == PathNodes(cur, 2) + ChunkNodes(next, end)
    ensures next == end ==> ChunkNodes(next, end) == LastTable(end) == {}
  {
    next := cur + LARGE_PAGE_SIZE;
    QuotientGap(cur, end);
    ChunkFits(cur, end);
    QuotientBetween(cur, next, end);
    hide PathNodes;
  }

  lemma QuotientBetween(a: nat, b: nat, c: nat)
    requires a <= b <= c && a / HUGE_PAGE_SIZE == c / HUGE_PAGE_SIZE
    ensures b / HUGE_PAGE_SIZE == c / HUGE_PAGE_SIZE
  {
  }

  lemma LargeTail(cur: nat, end: nat)
    requires PageRange(cur, end) && end <= VA_SPACE && cur < end < cur + LARGE_PAGE_SIZE && cur % LARGE_PAGE_SIZE == 0
    ensures ChunkNodes(cur, end) == PathNodes(cur, 2) + LastTable(end)
  {
    SameBlock(cur, end, 2);
    SmallPhase(cur, end);
    PathNodesOf(cur, 2);
    PathNodesOf(cur, 3);
  }

  lemma SamePathNodes(a: nat, b: nat)
    requires a < VA_SPACE && b < VA_SPACE && a / HUGE_PAGE_SIZE == b / HUGE_PAGE_SIZE
    ensures PathNodes(a, 2) == PathNodes(b, 2)
  {
    CoarserQuotients(a, b);
    PathNodesOf(a, 2);
    PathNodesOf(b, 2);
  }

  // The page directory and the page table that the end of a range needs
  ghost function LastTables(end: nat): set<Node>
  {
    (if end % HUGE_PAGE_SIZE != 0 then {Node(2, end / HUGE_PAGE_SIZE)} else {}) + LastTable(end)
  }

  lemma {:induction false} HugePhase(cur: nat, end: nat)
    requires PageRange(cur, end) && end <= VA_SPACE && cur < end && cur % HUGE_PAGE_SIZE == 0
    ensures ChunkNodes(cur, end)
            == FirstNodes(1, cur / 0x80_0000_0000, CeilDiv(end, 0x80_0000_0000)) + LastTables(end)
    decreases end - cur
  {
    hide ChunkNodes, FirstNodes, LastTables, CeilDiv, PageRange;
    if end - cur < HUGE_PAGE_SIZE {
      HugeTail(cur, end);
    } else {
      var next := HugeNext(cur, end);
      if next == end {
        HugeLast(cur, end);
      } else {
        HugePhase(next, end);
        TopBeyond(next, end);
        FirstNodesFrom(1, cur / 0x80_0000_0000, next / 0x80_0000_0000, CeilDiv(end, 0x80_0000_0000));
      }
    }
  }

  lemma HugeTail(cur: nat, end: nat)
    requires PageRange(cur, end) && end <= VA_SPACE && cur < end && cur % HUGE_PAGE_SIZE == 0
             && end - cur < HUGE_PAGE_SIZE
    ensures ChunkNodes(cur, end)
            == FirstNodes(1, cur / 0x80_0000_0000, CeilDiv(end, 0x80_0000_0000)) + LastTables(end)
  {
    SameBlock(cur, end, 1);
    MultiplesOfHuge(cur / HUGE_PAGE_SIZE);
    LargePhase(cur, end);
    PathNodesOf(cur, 2);
    TopOfTail(cur, end);
    OneNode(1, cur / 0x80_0000_0000);
  }

  lemma HugeNext(cur: nat, end: nat) returns (next: nat)
    requires PageRange(cur, end) && end <= VA_SPACE && cur % HUGE_PAGE_SIZE == 0 && end - cur >= HUGE_PAGE_SIZE
    ensures cur < next <= end && PageRange(next, end) && next % HUGE_PAGE_SIZE == 0 && next == cur + HUGE_PAGE_SIZE
    ensures ChunkNodes(cur, end) == {Node(1, cur / 0x80_0000_0000)} + ChunkNodes(next, end)
    ensures cur / 0x80_0000_0000 <= next / 0x80_0000_0000 <= cur / 0x80_0000_0000 + 1
  {
    next := cur + HUGE_PAGE_SIZE;
    ChunkFits(cur, end);
    PathNodesOf(cur, 1);
    TopOfNext(cur, next);
  }

  lemma HugeLast(cur: nat, end: nat)
    requires cur % HUGE_PAGE_SIZE == 0 && end == cur + HUGE_PAGE_SIZE && PageRange(end, end) && end <= VA_SPACE
    ensures {Node(1, cur / 0x80_0000_0000)} + ChunkNodes(end, end)
            == FirstNodes(1, cur / 0x80_0000_0000, CeilDiv(end, 0x80_0000_0000)) + LastTables(end)
  {
    TopOfNext(cur, end);
    NothingAfter(end);
    OneNode(1, cur / 0x80_0000_0000);
    hide FirstNodes, CeilDiv, ChunkNodes, LastTables;
  }

  lemma NothingAfter(end: nat)
    requires PageRange(end, end) && end % HUGE_PAGE_SIZE == 0
    ensures ChunkNodes(end, end) == {} && LastTables(end) == {}
  {
    MultiplesOfHuge(end / HUGE_PAGE_SIZE);
  }

  lemma OneNode(level: nat, k: nat)
    ensures FirstNodes(level, k, k + 1) == {Node(level, k)}
  {
  }

  lemma FirstNodesFrom(level: nat, a: nat, b: nat, last: nat)
    requires a <= b <= a + 1 <= last
    ensures {Node(level, a)} + FirstNodes(level, b, last) == FirstNodes(level, a, last)
  {
  }

  lemma TopBeyond(cur: nat, end: nat)
    requires cur < end
    ensures cur / 0x80_0000_0000 < CeilDiv(end, 0x80_0000_0000)
  {
  }

  lemma TopOfTail(cur: nat, end: nat)
    requires cur < end && cur / HUGE_PAGE_SIZE == end / HUGE_PAGE_SIZE
    ensures CeilDiv(end, 0x80_0000_0000) == cur / 0x80_0000_0000 + 1 && end % HUGE_PAGE_SIZE != 0
  {
    CoarserQuotients(cur, end);
  }

  lemma TopOfNext(cur: nat, next: nat)
    requires cur % HUGE_PAGE_SIZE == 0 && next == cur + HUGE_PAGE_SIZE
    ensures next % HUGE_PAGE_SIZE == 0
    ensures CeilDiv(next, 0x80_0000_0000) == cur / 0x80_0000_0000 + 1
    ensures cur / 0x80_0000_0000 <= next / 0x80_0000_0000 <= cur / 0x80_0000_0000 + 1
  {
  }

  /** From an empty tree, a map of [start, end) that starts on a multiple of 1 GiB takes one table for
      each 512 GiB touched, one page directory if the end is not on such a multiple, and one page table
      if it is not on a multiple of 2 MiB. */
  lemma TablesForRange(root: nat, start: nat, end: nat)
    requires PageRange(start, end) && end <= VA_SPACE && start < end && start % HUGE_PAGE_SIZE == 0
    ensures TablesNeeded(map[ROOT := root], start, end)
            == CeilDiv(end, 0x80_0000_0000) - start / 0x80_0000_0000
               + (if end % HUGE_PAGE_SIZE != 0 then 1 else 0) + (if end % LARGE_PAGE_SIZE != 0 then 1 else 0)
  {
    HugePhase(start, end);
    var low, high := start / 0x80_0000_0000, CeilDiv(end, 0x80_0000_0000);
    assert low <= high;
    FirstNodesCount(1, low, high);
    var nodes := FirstNodes(1, low, high) + LastTables(end);
    assert nodes - (map[ROOT := root]).Keys == nodes;
    assert |nodes| == |FirstNodes(1, low, high)| + |LastTables(end)|;
  }
}
