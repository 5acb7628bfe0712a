/**
  When MappingExists is right. Its four tests follow the entries without looking at the PS bit or at the
  upper address bits; the processor looks at both.
 */
module Presence {
  import opened Bits
  import opened PageWalk
  import opened PageTree
  import opened Paging
  import opened Separation

  // The entry that ends the path to va
  function LastEntry(mem: Memory, t: Tree, va: u64): u64
    requires PathNode(va, Depth(t, va)) in t
  {
    Entry(mem, t[PathNode(va, Depth(t, va))], Index(va, Depth(t, va)))
  }

  // The tests say of va what the processor does
  predicate TestsRight(mem: Memory, root: nat, va: u64)
  {
    TestsPresent(mem, root, 0, va) <==> Translate(mem, root, va) != Fault
  }

  lemma LastOnPath(mem: Memory, root: nat, t: Tree, va: u64)
    requires TreeInv(mem, root, t)
    ensures PathNode(va, Depth(t, va)) in t
  {
    DepthIsLast(mem, root, t, va, Depth(t, va));
  }

  /** The tests pass the tables on the path and come to its last entry. */
  lemma {:induction false} TestsReach(mem: Memory, root: nat, t: Tree, va: u64, level: nat)
    requires TreeInv(mem, root, t) && level <= Depth(t, va)
    ensures PathNode(va, level) in t
    ensures TestsPresent(mem, root, 0, va) == TestsPresent(mem, t[PathNode(va, level)], level, va)
  {
    DepthIsLast(mem, root, t, va, level);
    if level > 0 {
      TestsReach(mem, root, t, va, level - 1);
      TableOnPath(mem, root, t, va, level);
      hide *;
      TestsUnfold(mem, t[PathNode(va, level - 1)], level - 1, va);
    }
  }

  lemma TableOnPath(mem: Memory, root: nat, t: Tree, va: u64, level: nat)
    requires TreeInv(mem, root, t) && 0 < level <= 3 && PathNode(va, level) in t && PathNode(va, level - 1) in t
    ensures var e := Entry(mem, t[PathNode(va, level - 1)], Index(va, level - 1));
            Present(e) && FrameOf(e) == t[PathNode(va, level)]
  {
    var n := PathNode(va, level);
    assert Linked(mem, t, n) && Placed(mem, t, n);
    PathStep(va, level - 1);
    TableEntryFields(t[n]);
  }

  // What decides whether the tests are right: if the last entry is a large page, what they read in it as
  // if it were a table
  predicate RightAtLast(mem: Memory, t: Tree, va: u64)
    requires PathNode(va, Depth(t, va)) in t
  {
    var d, e := Depth(t, va), LastEntry(mem, t, va);
    if !Present(e) then true
    else if d == 3 then Canonical(va)
    else TestsPresent(mem, FrameOf(e), d + 1, va) <==> Canonical(va) && EndOfWalk(e, d, va) != Fault
  }

  /** For every address and every valid tree, the tests are right if and only if the last entry on the path
      is missing, or is a 4 KiB page and the address is canonical, or is a large page whose contents look
      present exactly if the page is translated. */
  lemma TestsRightExactlyWhen(mem: Memory, root: nat, t: Tree, va: u64)
    requires TreeInv(mem, root, t)
    ensures PathNode(va, Depth(t, va)) in t
    ensures TestsRight(mem, root, va) <==> RightAtLast(mem, t, va)
  {
    var d := Depth(t, va);
    TestsReach(mem, root, t, va, d);
    if Canonical(va) {
      TranslateByDepth(mem, root, t, va);
    }
  }

  /** The tests accept the non-canonical alias of every address that a 4 KiB page maps; the processor
      faults on it. */
  lemma AliasIsAccepted(mem: Memory, root: nat, t: Tree, va: u64, alias: u64)
    requires TreeInv(mem, root, t) && Canonical(va) && Translate(mem, root, va) != Fault && Depth(t, va) == 3
    requires alias % VA_SPACE == va % VA_SPACE && !Canonical(alias)
    ensures TestsPresent(mem, root, 0, alias) && Translate(mem, root, alias) == Fault
  {
    SamePath(va, alias);
    TranslateByDepth(mem, root, t, va);
    TestsReach(mem, root, t, alias, 3);
  }

  lemma SamePath(v: u64, w: u64)
    requires v % VA_SPACE == w % VA_SPACE
    ensures forall level: nat :: level <= 3 ==>
              PathNode(v, level) == PathNode(w, level) && Index(v, level) == Index(w, level)
  {
    forall level: nat | level <= 3
      ensures PathNode(v, level) == PathNode(w, level) && Index(v, level) == Index(w, level)
    {
      SlotParts(v, level);
      SlotParts(w, level);
    }
  }

  // ---------------------------------------------------------------- whatever the pages contain

  // The large page that ends the path, if one does, lies in memory and is not itself a table
  predicate LargePageApart(mem: Memory, t: Tree, va: u64)
    requires PathNode(va, Depth(t, va)) in t
  {
    var d, e := Depth(t, va), LastEntry(mem, t, va);
    d < 3 && Present(e) ==> FrameOf(e) !in t.Values && FrameOf(e) * TABLE_LENGTH + TABLE_LENGTH <= |mem|
  }

  // The tests are right whatever the frames contain that are no tables
  ghost predicate AlwaysRight(mem: Memory, root: nat, t: Tree, va: u64)
  {
    forall mem': Memory :: SameOnTables(mem, mem', t) ==> TestsRight(mem', root, va)
  }

  /** For a canonical address, the tests are right whatever the mapped pages contain if and only if no large
      page lies on its path. */
  lemma AlwaysRightExactlyWhen(mem: Memory, root: nat, t: Tree, va: u64)
    requires TreeInv(mem, root, t) && Canonical(va)
    requires PathNode(va, Depth(t, va)) in t && LargePageApart(mem, t, va)
    ensures AlwaysRight(mem, root, t, va) <==> NoLargePage(mem, t, va, 3)
  {
    LargeIsLast(mem, root, t, va);
    if NoLargePage(mem, t, va, 3) {
      forall mem': Memory | SameOnTables(mem, mem', t)
        ensures TestsRight(mem', root, va)
      {
        TreeElsewhere(mem, mem', root, t);
        TestsRightExactlyWhen(mem', root, t, va);
      }
    } else {
      var mem' := MisleadingContents(mem, root, t, va);
      assert SameOnTables(mem, mem', t) && !TestsRight(mem', root, va);
    }
  }

  // A large page on a path is its last entry
  lemma LargeIsLast(mem: Memory, root: nat, t: Tree, va: u64)
    requires TreeInv(mem, root, t)
    ensures PathNode(va, Depth(t, va)) in t
    ensures NoLargePage(mem, t, va, 3) <==> Depth(t, va) == 3 || !Present(LastEntry(mem, t, va))
  {
    var d := Depth(t, va);
    LastOnPath(mem, root, t, va);
    forall k: nat | k < d
      ensures PathNode(va, k) in t && !PageSize(Entry(mem, t[PathNode(va, k)], Index(va, k)))
    {
      DepthIsLast(mem, root, t, va, k);
      DepthIsLast(mem, root, t, va, k + 1);
      assert Linked(mem, t, PathNode(va, k + 1)) && Placed(mem, t, PathNode(va, k + 1));
      PathStep(va, k);
      TableEntryFields(t[PathNode(va, k + 1)]);
    }
    if d < 3 {
      DepthIsLast(mem, root, t, va, d + 1);
      PathStep(va, d);
      assert EntryAccounted(mem, t, PathNode(va, d), Index(va, d));
      forall k: nat | d < k <= 3
        ensures PathNode(va, k) !in t
      {
        DepthIsLast(mem, root, t, va, k);
      }
    }
  }

  /** For every large page there are contents that mislead the tests: zeros if the page is translated, and
      words that look like tables if it is not. */
  lemma MisleadingContents(mem: Memory, root: nat, t: Tree, va: u64) returns (mem': Memory)
    requires TreeInv(mem, root, t) && Canonical(va)
    requires PathNode(va, Depth(t, va)) in t && LargePageApart(mem, t, va)
    requires Depth(t, va) < 3 && Present(LastEntry(mem, t, va))
    ensures SameOnTables(mem, mem', t) && !TestsRight(mem', root, va)
  {
    var d, e := Depth(t, va), LastEntry(mem, t, va);
    var g := FrameOf(e);
    var w := if EndOfWalk(e, d, va) != Fault then 0 else TableEntry(g);
    mem' := Filled(mem, g, w);
    FilledEntries(mem, g, w);
    TreeElsewhere(mem, mem', root, t);
    assert LastEntry(mem', t, va) == e;
    TestsRightExactlyWhen(mem', root, t, va);
    if EndOfWalk(e, d, va) != Fault {
      assert !TestsPresent(mem', g, d + 1, va);
    } else {
      TableEntryFields(g);
      LooksLikeTables(mem', g, d + 1, va);
    }
  }

  // The memory with one frame full of the same word
  function Filled(mem: Memory, frame: nat, w: u64): Memory
  {
    seq(|mem|, k requires 0 <= k < |mem| => if k / TABLE_LENGTH == frame then w else mem[k])
  }

  lemma FilledEntries(mem: Memory, frame: nat, w: u64)
    requires frame * TABLE_LENGTH + TABLE_LENGTH <= |mem|
    ensures SameElsewhere(mem, Filled(mem, frame, w), frame)
    ensures forall i :: 0 <= i < TABLE_LENGTH ==> Entry(Filled(mem, frame, w), frame, i) == w
  {
    forall f: nat, i: nat | i < TABLE_LENGTH
      ensures Entry(Filled(mem, frame, w), f, i) == if f == frame then w else Entry(mem, f, i)
    {
      assert (f * TABLE_LENGTH + i) / TABLE_LENGTH == f;
    }
  }

  lemma {:induction false} LooksLikeTables(mem: Memory, frame: nat, level: nat, va: u64)
    requires frame < FRAME_LIMIT && level <= 3
    requires forall i :: 0 <= i < TABLE_LENGTH ==> Entry(mem, frame, i) == TableEntry(frame)
    ensures TestsPresent(mem, frame, level, va)
    decreases 3 - level
  {
    TableEntryFields(frame);
    if level < 3 {
      LooksLikeTables(mem, frame, level + 1, va);
    }
  }

  /** The hypothesis is needed: here the first 1 GiB is one huge page, which the hardware translates, but
      the tests read the zeros at its start as a page directory and report that nothing is mapped. */
  lemma LargePageIsMissed() returns (mem: Memory)
    ensures TestsInside(mem, 1, 0, 0) && Translate(mem, 1, 0).Mapped? && !TestsPresent(mem, 1, 0, 0)
  {
    mem := seq(3 * TABLE_LENGTH, w => if w == TABLE_LENGTH then 0x2003 else if w == 2 * TABLE_LENGTH then 0x83 else 0);
    assert Entry(mem, 1, 0) == 0x2003 && Entry(mem, 2, 0) == 0x83 && Entry(mem, 0, 0) == 0;
    assert FrameOf(0x2003) == 2 && FrameOf(0x83) == 0;
    assert Index(0, 0) == Index(0, 1) == Index(0, 2) == 0;
    assert WalkFrom(mem, 2, 1, 0, Restrict(AllRights, 0x2003)).Mapped?;
    assert TestsInside(mem, 0, 2, 0) && !TestsPresent(mem, 0, 2, 0);
    assert TestsInside(mem, 2, 1, 0) && !TestsPresent(mem, 2, 1, 0);
  }
}
