/**
  Why free frames must be zero-filled: UefiMapTables links a new table without clearing it. What the frame
  still holds becomes part of the tables, at whichever of the three levels it was linked.
 */
module StaleFrames {
  import opened Bits
  import opened PageWalk
  import opened PageTree
  import opened Mapping

  // ---------------------------------------------------------------- frames that show nothing

  // No walk that enters the frame as a table of the given level finds a translation: every entry is not
  // present, or a large page with reserved bits set, or refers to a frame that shows nothing one level down
  ghost predicate Silent(mem: Memory, frame: nat, level: nat)
    requires 1 <= level <= 3
    decreases 3 - level
  {
    forall i :: 0 <= i < TABLE_LENGTH ==>
      var e := Entry(mem, frame, i);
      || !Present(e)
      || (level < 3 && PageSize(e) && FrameOf(e) % (Span(level) / PAGE_SIZE) > 1)
      || (level < 3 && !PageSize(e) && Silent(mem, FrameOf(e), level + 1))
  }

  lemma {:induction false} SilentFaults(mem: Memory, frame: nat, level: nat, v: u64, r: Rights)
    requires 1 <= level <= 3 && Silent(mem, frame, level)
    ensures WalkFrom(mem, frame, level, v, r) == Fault
    decreases 3 - level
  {
    var e := Entry(mem, frame, Index(v, level));
    if Present(e) && !PageSize(e) {
      SilentFaults(mem, FrameOf(e), level + 1, v, Restrict(r, e));
    }
  }

  // The table indices of v from the given level on
  predicate Follows(v: u64, level: nat, path: seq<nat>)
    requires level + |path| == 4
  {
    forall k :: 0 <= k < |path| ==> Index(v, level + k) == path[k]
  }

  // Every walk with these indices finds a translation
  ghost predicate Shows(mem: Memory, frame: nat, level: nat, path: seq<nat>)
    requires 1 <= level <= 3 && level + |path| == 4
  {
    forall v: u64, r: Rights :: Follows(v, level, path) ==> WalkFrom(mem, frame, level, v, r) != Fault
  }

  /** A frame that is not silent has a path of indices on which every walk finds a translation. */
  lemma {:induction false} NoisyPath(mem: Memory, frame: nat, level: nat) returns (path: seq<nat>)
    requires 1 <= level <= 3 && !Silent(mem, frame, level)
    ensures level + |path| == 4 && forall k :: 0 <= k < |path| ==> path[k] < TABLE_LENGTH
    ensures Shows(mem, frame, level, path)
    decreases 3 - level
  {
    var i := NoisyIndex(mem, frame, level);
    var e := Entry(mem, frame, i);
    hide Silent, Shows;
    if level == 3 || PageSize(e) {
      path := [i] + seq(3 - level, _ => 0);
      LeafShows(mem, frame, level, path);
    } else {
      var rest := NoisyPath(mem, FrameOf(e), level + 1);
      path := [i] + rest;
      TableShows(mem, frame, level, i, rest);
    }
  }

  lemma NoisyIndex(mem: Memory, frame: nat, level: nat) returns (i: nat)
    requires 1 <= level <= 3 && !Silent(mem, frame, level)
    ensures i < TABLE_LENGTH && NoisyEntry(mem, Entry(mem, frame, i), level)
  {
    i :| 0 <= i < TABLE_LENGTH && NoisyEntry(mem, Entry(mem, frame, i), level);
  }

  lemma LeafShows(mem: Memory, frame: nat, level: nat, path: seq<nat>)
    requires 1 <= level <= 3 && level + |path| == 4
    requires NoisyEntry(mem, Entry(mem, frame, path[0]), level) && (level == 3 || PageSize(Entry(mem, frame, path[0])))
    ensures Shows(mem, frame, level, path)
  {
    forall v: u64, r: Rights | Follows(v, level, path)
      ensures WalkFrom(mem, frame, level, v, r) != Fault
    {
      assert Index(v, level + 0) == path[0];
      hide Index;
    }
  }

  lemma TableShows(mem: Memory, frame: nat, level: nat, i: nat, rest: seq<nat>)
    requires 1 <= level < 3 && level + |rest| == 3
    requires Present(Entry(mem, frame, i)) && !PageSize(Entry(mem, frame, i))
    requires Shows(mem, FrameOf(Entry(mem, frame, i)), level + 1, rest)
    ensures Shows(mem, frame, level, [i] + rest)
  {
    var e := Entry(mem, frame, i);
    forall v: u64, r: Rights | Follows(v, level, [i] + rest)
      ensures WalkFrom(mem, frame, level, v, r) != Fault
    {
      assert Index(v, level + 0) == ([i] + rest)[0];
      FollowsOn(v, level, i, rest);
      hide Follows, Index, Present, PageSize, FrameOf;
      assert WalkFrom(mem, FrameOf(e), level + 1, v, Restrict(r, e)) != Fault;
    }
  }

  ghost predicate NoisyEntry(mem: Memory, e: u64, level: nat)
    requires 1 <= level <= 3
  {
    && Present(e)
    && !(level < 3 && PageSize(e) && FrameOf(e) % (Span(level) / PAGE_SIZE) > 1)
    && !(level < 3 && !PageSize(e) && Silent(mem, FrameOf(e), level + 1))
  }

  lemma FollowsOn(v: u64, level: nat, i: nat, rest: seq<nat>)
    requires level + |rest| == 3 && Follows(v, level, [i] + rest)
    ensures Follows(v, level + 1, rest)
  {
    forall k | 0 <= k < |rest|
      ensures Index(v, level + 1 + k) == rest[k]
    {
      assert Index(v, level + (k + 1)) == ([i] + rest)[k + 1];
    }
  }

  // ---------------------------------------------------------------- addresses with given indices

  // The first address that entry k, counted over all page tables, serves
  function AddressOf(k: nat): (v: u64)
    requires k * PAGE_SIZE < VA_SPACE
    ensures Canonical(v)
  {
    if k * PAGE_SIZE < LOW_HALF_END then k * PAGE_SIZE else k * PAGE_SIZE + 0xFFFF_0000_0000_0000
  }

  lemma AddressOfSlot(k: nat)
    requires k * PAGE_SIZE < VA_SPACE
    ensures Slot(AddressOf(k), 3) == k
  {
    CanonicalLow(AddressOf(k));
  }

  // How many tables of a level there can be; level 4 counts the entries of page tables
  function TablesAt(level: nat): nat
    requires level <= 4
  {
    if level == 0 then 1 else if level == 1 then 512 else if level == 2 then 0x4_0000
    else if level == 3 then 0x800_0000 else 0x10_0000_0000
  }

  lemma {:induction false} NumberBound(mem: Memory, root: nat, t: Tree, n: Node)
    requires TreeInv(mem, root, t) && n in t
    ensures n.level <= 3 && n.number < TablesAt(n.level)
    decreases n.level
  {
    assert Placed(mem, t, n);
    if n.level > 0 {
      assert Linked(mem, t, n);
      NumberBound(mem, root, t, Parent(n));
    }
  }

  // The page-table entry that is reached from a table of that number by the given indices
  function SlotOf(number: nat, digits: seq<nat>): nat
    decreases |digits|
  {
    if digits == [] then number else SlotOf(number * TABLE_LENGTH + digits[0], digits[1..])
  }

  lemma {:induction false} SlotOfBound(level: nat, number: nat, digits: seq<nat>)
    requires level + |digits| == 4 && number < TablesAt(level)
    requires forall k :: 0 <= k < |digits| ==> digits[k] < TABLE_LENGTH
    ensures SlotOf(number, digits) < 0x10_0000_0000
    decreases |digits|
  {
    if digits != [] {
      SlotOfBound(level + 1, number * TABLE_LENGTH + digits[0], digits[1..]);
    }
  }

  lemma {:induction false} IndicesOf(v: u64, level: nat, number: nat, digits: seq<nat>)
    requires level + |digits| == 4 && number < TablesAt(level) && Slot(v, 3) == SlotOf(number, digits)
    requires forall k :: 0 <= k < |digits| ==> digits[k] < TABLE_LENGTH
    ensures PathNode(v, level) == Node(level, number) && Follows(v, level, digits)
    decreases |digits|
  {
    hide Slot, Index;
    if digits != [] {
      var rest := digits[1..];
      IndicesOf(v, level + 1, number * TABLE_LENGTH + digits[0], rest);
      hide SlotOf, PathNode;
      ParentIndices(v, level, number, digits[0]);
      forall k | 0 <= k < |digits|
        ensures Index(v, level + k) == digits[k]
      {
        if k > 0 {
          assert Index(v, level + 1 + (k - 1)) == rest[k - 1];
        }
      }
    }
  }

  lemma ParentIndices(v: u64, level: nat, number: nat, d: nat)
    requires level <= 3 && number < TablesAt(level) && d < TABLE_LENGTH
    requires PathNode(v, level + 1) == Node(level + 1, number * TABLE_LENGTH + d)
    ensures PathNode(v, level) == Node(level, number) && Index(v, level) == d
  {
    PathStep(v, level);
    hide Slot, Index;
    ChildParent(Node(level, number), d);
  }

  /** Some canonical address passes through any entry of any table, with any indices below. */
  lemma AddressThrough(mem: Memory, root: nat, t: Tree, n: Node, i: nat, path: seq<nat>) returns (v: u64)
    requires TreeInv(mem, root, t) && n in t && i < TABLE_LENGTH && n.level + 1 + |path| == 4
    requires forall k :: 0 <= k < |path| ==> path[k] < TABLE_LENGTH
    ensures Canonical(v) && PathNode(v, n.level) == n && Index(v, n.level) == i && Follows(v, n.level + 1, path)
  {
    NumberBound(mem, root, t, n);
    var digits := [i] + path;
    SlotOfBound(n.level, n.number, digits);
    v := AddressOf(SlotOf(n.number, digits));
    AddressOfSlot(SlotOf(n.number, digits));
    IndicesOf(v, n.level, n.number, digits);
    hide Index, Slot;
    assert Index(v, n.level + 0) == digits[0];
    FollowsOn(v, n.level, i, path);
  }

  // ---------------------------------------------------------------- linking a frame as it is

  /** After the link a walk still passes the tables on its path. */
  lemma {:induction false} WalkReachesAfter(mem: Memory, root: nat, t: Tree, n: Node, i: nat, f: nat, v: u64,
                                            level: nat)
    requires TreeInv(mem, root, t) && n in t && i < TABLE_LENGTH && t[n] * TABLE_LENGTH + i < |mem|
    requires !Present(Entry(mem, t[n], i)) && f < FRAME_LIMIT
    requires level <= 3 && PathNode(v, level) in t
    ensures var mem' := Write(mem, t[n], i, TableEntry(f));
            WalkFrom(mem', root, 0, v, AllRights) == WalkFrom(mem', t[PathNode(v, level)], level, v, TableRights(level))
  {
    if level > 0 {
      var c := PathNode(v, level);
      assert Linked(mem, t, c) && Placed(mem, t, c);
      PathStep(v, level - 1);
      WalkReachesAfter(mem, root, t, n, i, f, v, level - 1);
      TableEntryFields(t[c]);
      WriteOther(mem, t[n], i, TableEntry(f), t[PathNode(v, level - 1)], Index(v, level - 1));
    }
  }

  /** An address that passes through the new entry faulted before, and is now translated by what the frame
      holds. */
  lemma ThroughNewEntry(mem: Memory, root: nat, t: Tree, n: Node, i: nat, f: nat, v: u64)
    requires TreeInv(mem, root, t) && n in t && n.level < 3 && i < TABLE_LENGTH && t[n] * TABLE_LENGTH + i < |mem|
    requires !Present(Entry(mem, t[n], i)) && f < FRAME_LIMIT
    requires Canonical(v) && PathNode(v, n.level) == n && Index(v, n.level) == i
    ensures Translate(mem, root, v) == Fault
    ensures var mem' := Write(mem, t[n], i, TableEntry(f));
            Translate(mem', root, v) == WalkFrom(mem', f, n.level + 1, v, TableRights(n.level + 1))
  {
    WalkReaches(mem, root, t, v, n.level);
    WalkReachesAfter(mem, root, t, n, i, f, v, n.level);
    WriteOther(mem, t[n], i, TableEntry(f), t[n], i);
    TableEntryFields(f);
  }

  /** Any other address is translated as before. */
  lemma PastNewEntry(mem: Memory, root: nat, t: Tree, n: Node, i: nat, f: nat, v: u64)
    requires TreeInv(mem, root, t) && n in t && n.level < 3 && i < TABLE_LENGTH && t[n] * TABLE_LENGTH + i < |mem|
    requires !Present(Entry(mem, t[n], i)) && f < FRAME_LIMIT
    requires !(PathNode(v, n.level) == n && Index(v, n.level) == i)
    ensures Translate(Write(mem, t[n], i, TableEntry(f)), root, v) == Translate(mem, root, v)
  {
    if Canonical(v) {
      var d := Depth(t, v);
      TranslateByDepth(mem, root, t, v);
      WalkReachesAfter(mem, root, t, n, i, f, v, d);
      PathStep(v, d);
      WriteOther(mem, t[n], i, TableEntry(f), t[PathNode(v, d)], Index(v, d));
      LastIsNoTable(mem, root, t, v);
    }
  }

  lemma LastIsNoTable(mem: Memory, root: nat, t: Tree, v: u64)
    requires TreeInv(mem, root, t)
    ensures var d := Depth(t, v); PathNode(v, d) in t && !RefersToTable(Entry(mem, t[PathNode(v, d)], Index(v, d)), d)
    ensures var d := Depth(t, v); d == 0 ==> !Present(Entry(mem, t[PathNode(v, d)], Index(v, d)))
  {
    var d := Depth(t, v);
    DepthIsLast(mem, root, t, v, d);
    PathStep(v, d);
    assert EntryAccounted(mem, t, PathNode(v, d), Index(v, d));
    if d < 3 {
      DepthIsLast(mem, root, t, v, d + 1);
    }
  }

  /** Linking a frame, as it is, below a missing entry of a table of any level changes no translation if and
      only if the frame shows nothing in the memory that results; the code does not look at it. */
  lemma LinkIsSilentExactlyWhen(mem: Memory, root: nat, t: Tree, n: Node, i: nat, f: nat)
    requires TreeInv(mem, root, t) && n in t && n.level < 3 && i < TABLE_LENGTH && t[n] * TABLE_LENGTH + i < |mem|
    requires !Present(Entry(mem, t[n], i)) && f < FRAME_LIMIT
    ensures (forall v: u64 :: Translate(Write(mem, t[n], i, TableEntry(f)), root, v) == Translate(mem, root, v))
            <==> Silent(Write(mem, t[n], i, TableEntry(f)), f, n.level + 1)
  {
    var mem' := Write(mem, t[n], i, TableEntry(f));
    hide Translate, TreeInv, Silent, WalkFrom;
    if Silent(mem', f, n.level + 1) {
      forall v: u64
        ensures Translate(mem', root, v) == Translate(mem, root, v)
      {
        LinkShowsNothing(mem, root, t, n, i, f, v);
      }
    } else {
      var path := NoisyPath(mem', f, n.level + 1);
      var v := AddressThrough(mem, root, t, n, i, path);
      ThroughNewEntry(mem, root, t, n, i, f, v);
    }
  }

  lemma LinkShowsNothing(mem: Memory, root: nat, t: Tree, n: Node, i: nat, f: nat, v: u64)
    requires TreeInv(mem, root, t) && n in t && n.level < 3 && i < TABLE_LENGTH && t[n] * TABLE_LENGTH + i < |mem|
    requires !Present(Entry(mem, t[n], i)) && f < FRAME_LIMIT
    requires Silent(Write(mem, t[n], i, TableEntry(f)), f, n.level + 1)
    ensures Translate(Write(mem, t[n], i, TableEntry(f)), root, v) == Translate(mem, root, v)
  {
    hide Silent, TreeInv, WalkFrom;
    if PathNode(v, n.level) == n && Index(v, n.level) == i {
      if Canonical(v) {
        ThroughNewEntry(mem, root, t, n, i, f, v);
        SilentFaults(Write(mem, t[n], i, TableEntry(f)), f, n.level + 1, v, TableRights(n.level + 1));
      }
    } else {
      PastNewEntry(mem, root, t, n, i, f, v);
    }
  }

  /** For a page table that means: no entry of the frame is present. */
  lemma SilentPageTable(mem: Memory, frame: nat, i: nat, f: nat)
    requires i < TABLE_LENGTH && frame * TABLE_LENGTH + i < |mem| && f < FRAME_LIMIT && f != frame
    ensures Silent(Write(mem, frame, i, TableEntry(f)), f, 3) <==> Clean(mem, f)
  {
    forall j | 0 <= j < TABLE_LENGTH
      ensures Entry(Write(mem, frame, i, TableEntry(f)), f, j) == Entry(mem, f, j)
    {
      WriteOther(mem, frame, i, TableEntry(f), f, j);
    }
  }
}
