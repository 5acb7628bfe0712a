/**
  The shape that the loader keeps its page tables in, and what each of its two writes does to it.

  A table is named by its level and by its number among all tables of that level in address order.
  A Tree says in which frame each existing table lies. TreeInv ties a tree to the contents of
  memory: an entry refers to a table exactly when the tree has that table, and no frame is used twice.
 */
module PageTree {
  import opened Bits
  import opened PageWalk

  datatype Node = Node(level: nat, number: nat)

  type Tree = map<Node, nat>

  const ROOT := Node(0, 0)

  function Child(n: Node, i: nat): Node
  {
    Node(n.level + 1, n.number * TABLE_LENGTH + i)
  }

  function Parent(n: Node): Node
    requires n.level > 0
  {
    Node(n.level - 1, n.number / TABLE_LENGTH)
  }

  lemma ChildParent(n: Node, i: nat)
    requires i < TABLE_LENGTH
    ensures Parent(Child(n, i)) == n && Child(n, i).number % TABLE_LENGTH == i
  {
  }

  // The table of the given level on the path to va
  function PathNode(va: u64, level: nat): Node
  {
    if level == 0 then ROOT else Node(level, Slot(va, level - 1))
  }

  lemma SlotParts(va: u64, level: nat)
    requires level <= 3
    ensures Slot(va, level) % TABLE_LENGTH == Index(va, level)
    ensures Slot(va, level) / TABLE_LENGTH == if level == 0 then 0 else Slot(va, level - 1)
  {
    var high, low := va / VA_SPACE, va % VA_SPACE;
    if level == 0 {
      assert va / 0x80_0000_0000 == 0x200 * high + low / 0x80_0000_0000;
    } else if level == 1 {
      SlotPartsHuge(high, low);
    } else if level == 2 {
      SlotPartsLarge(high, low);
    } else {
      SlotPartsSmall(high, low);
    }
  }

  lemma SlotPartsHuge(high: nat, low: nat)
    requires low < VA_SPACE
    ensures (VA_SPACE * high + low) / 0x4000_0000 % 512 == low / 0x4000_0000 % 512
    ensures low / 0x4000_0000 / 512 == low / 0x80_0000_0000
  {
    HugeQuotient(high, low);
    FullDirectories(high, low / 0x4000_0000);
  }

  lemma HugeQuotient(high: nat, low: nat)
    ensures (VA_SPACE * high + low) / 0x4000_0000 == 0x4_0000 * high + low / 0x4000_0000
    ensures low / 0x4000_0000 / 512 == low / 0x80_0000_0000
  {
    RemainderUnique(VA_SPACE * high + low, 0x4000_0000, 0x4_0000 * high + low / 0x4000_0000, low % 0x4000_0000);
  }

  lemma FullDirectories(high: nat, q: nat)
    ensures (0x4_0000 * high + q) % 512 == q % 512
  {
    RemainderUnique(0x4_0000 * high + q, 512, 0x200 * high + q / 512, q % 512);
  }

  lemma SlotPartsLarge(high: nat, low: nat)
    requires low < VA_SPACE
    ensures (VA_SPACE * high + low) / 0x20_0000 % 512 == low / 0x20_0000 % 512
    ensures low / 0x20_0000 / 512 == low / 0x4000_0000
  {
    LargeQuotient(high, low);
    FullTables(high, low / 0x20_0000);
  }

  lemma LargeQuotient(high: nat, low: nat)
    ensures (VA_SPACE * high + low) / 0x20_0000 == 0x800_0000 * high + low / 0x20_0000
    ensures low / 0x20_0000 / 512 == low / 0x4000_0000
  {
    RemainderUnique(VA_SPACE * high + low, 0x20_0000, 0x800_0000 * high + low / 0x20_0000, low % 0x20_0000);
  }

  lemma FullTables(high: nat, q: nat)
    ensures (0x800_0000 * high + q) % 512 == q % 512
  {
    RemainderUnique(0x800_0000 * high + q, 512, 0x4_0000 * high + q / 512, q % 512);
  }

  lemma SlotPartsSmall(high: nat, low: nat)
    requires low < VA_SPACE
    ensures (VA_SPACE * high + low) / 0x1000 % 512 == low / 0x1000 % 512
    ensures low / 0x1000 / 512 == low / 0x20_0000
  {
    SmallQuotient(high, low);
    FullPages(high, low / 0x1000);
  }

  lemma SmallQuotient(high: nat, low: nat)
    ensures (VA_SPACE * high + low) / 0x1000 == 0x10_0000_0000 * high + low / 0x1000
    ensures low / 0x1000 / 512 == low / 0x20_0000
  {
    RemainderUnique(VA_SPACE * high + low, 0x1000, 0x10_0000_0000 * high + low / 0x1000, low % 0x1000);
  }

  lemma FullPages(high: nat, q: nat)
    ensures (0x10_0000_0000 * high + q) % 512 == q % 512
  {
    RemainderUnique(0x10_0000_0000 * high + q, 512, 0x800_0000 * high + q / 512, q % 512);
  }

  lemma PathStep(va: u64, level: nat)
    requires level <= 3
    ensures PathNode(va, level + 1) == Child(PathNode(va, level), Index(va, level))
    ensures Parent(PathNode(va, level + 1)) == PathNode(va, level)
    ensures PathNode(va, level + 1).number % TABLE_LENGTH == Index(va, level)
    ensures PathNode(va, level).level == level
  {
    SlotParts(va, level);
    ChildParent(PathNode(va, level), Index(va, level));
  }

  // ---------------------------------------------------------------- the invariant

  predicate RefersToTable(e: u64, level: nat)
  {
    level < 3 && Present(e) && !PageSize(e)
  }

  // What entry i of table n refers to: if it looks like a table, that table exists
  ghost predicate EntryAccounted(mem: Memory, t: Tree, n: Node, i: nat)
    requires n in t
  {
    && (RefersToTable(Entry(mem, t[n], i), n.level) ==> Child(n, i) in t)
    && (n.level == 0 && Present(Entry(mem, t[n], i)) ==> !PageSize(Entry(mem, t[n], i)))
  }

  // Table n hangs from its parent by the entry for its number
  ghost predicate Linked(mem: Memory, t: Tree, n: Node)
    requires n in t && n.level > 0 && t[n] < FRAME_LIMIT
  {
    && Parent(n) in t
    && Entry(mem, t[Parent(n)], n.number % TABLE_LENGTH) == TableEntry(t[n])
  }

  ghost predicate Placed(mem: Memory, t: Tree, n: Node)
    requires n in t
  {
    && n.level <= 3
    && (n.level == 0 ==> n == ROOT)
    && t[n] < FRAME_LIMIT
    && t[n] * TABLE_LENGTH + TABLE_LENGTH <= |mem|
  }

  ghost predicate OneFrameEach(t: Tree)
  {
    forall m, n :: m in t && n in t && t[m] == t[n] ==> m == n
  }

  ghost predicate TreeInv(mem: Memory, root: nat, t: Tree)
  {
    && ROOT in t && t[ROOT] == root
    && OneFrameEach(t)
    && (forall n :: n in t ==> Placed(mem, t, n))
    && (forall n, i :: n in t && 0 <= i < TABLE_LENGTH ==> EntryAccounted(mem, t, n, i))
    && (forall n :: n in t && n.level > 0 ==> Linked(mem, t, n))
  }

  // No entry of the frame is present
  ghost predicate Clean(mem: Memory, frame: nat)
  {
    forall i :: 0 <= i < TABLE_LENGTH ==> !Present(Entry(mem, frame, i))
  }

  // ---------------------------------------------------------------- translation through the tree

  function TableRights(level: nat): Rights
  {
    if level == 0 then AllRights else Rights(true, false, false)
  }

  // The last level at which the path to va has a table
  function Depth(t: Tree, va: u64): (d: nat)
    ensures d <= 3
  {
    if PathNode(va, 3) in t then 3
    else if PathNode(va, 2) in t then 2
    else if PathNode(va, 1) in t then 1
    else 0
  }

  // What the walk makes of the entry it ends on
  function EndOfWalk(e: u64, level: nat, va: u64): Translation
  {
    if !Present(e) then Fault else LeafPage(e, level, va, Restrict(TableRights(level), e))
  }

  lemma {:induction false} PathPrefix(mem: Memory, root: nat, t: Tree, va: u64, low: nat, high: nat)
    requires TreeInv(mem, root, t) && low <= high <= 3 && PathNode(va, high) in t
    ensures PathNode(va, low) in t
    decreases high - low
  {
    if low < high {
      assert Linked(mem, t, PathNode(va, high));
      PathStep(va, high - 1);
      PathPrefix(mem, root, t, va, low, high - 1);
    }
  }

  /** The path to va is in the tree exactly down to its depth. */
  lemma DepthIsLast(mem: Memory, root: nat, t: Tree, va: u64, level: nat)
    requires TreeInv(mem, root, t) && level <= 3
    ensures PathNode(va, level) in t <==> level <= Depth(t, va)
  {
    var d := Depth(t, va);
    if level <= d {
      PathPrefix(mem, root, t, va, level, d);
    }
  }

  /** The walk passes through the tables on the path, each of which grants what it inherited. */
  lemma {:induction false} WalkReaches(mem: Memory, root: nat, t: Tree, va: u64, level: nat)
    requires TreeInv(mem, root, t) && level <= 3 && PathNode(va, level) in t
    ensures WalkFrom(mem, root, 0, va, AllRights)
            == WalkFrom(mem, t[PathNode(va, level)], level, va, TableRights(level))
  {
    if level > 0 {
      var n := PathNode(va, level);
      assert Linked(mem, t, n) && Placed(mem, t, n);
      PathStep(va, level - 1);
      WalkReaches(mem, root, t, va, level - 1);
      TableEntryFields(t[n]);
    }
  }

  /** Translation is decided by one entry: the one for va in the last table on its path. */
  lemma TranslateByDepth(mem: Memory, root: nat, t: Tree, va: u64)
    requires TreeInv(mem, root, t) && Canonical(va)
    ensures var d := Depth(t, va);
            && PathNode(va, d) in t
            && Translate(mem, root, va) == EndOfWalk(Entry(mem, t[PathNode(va, d)], Index(va, d)), d, va)
  {
    var d := Depth(t, va);
    DepthIsLast(mem, root, t, va, d);
    WalkReaches(mem, root, t, va, d);
    var n := PathNode(va, d);
    assert EntryAccounted(mem, t, n, Index(va, d));
    PathStep(va, d);
    if d < 3 {
      DepthIsLast(mem, root, t, va, d + 1);
    }
  }

  // ---------------------------------------------------------------- writing one entry

  function Write(mem: Memory, frame: nat, i: nat, e: u64): Memory
    requires frame * TABLE_LENGTH + i < |mem|
  {
    mem[frame * TABLE_LENGTH + i := e]
  }

  lemma WriteOther(mem: Memory, frame: nat, i: nat, e: u64, g: nat, j: nat)
    requires frame * TABLE_LENGTH + i < |mem| && i < TABLE_LENGTH && j < TABLE_LENGTH
    ensures Entry(Write(mem, frame, i, e), g, j) == if g == frame && i == j then e else Entry(mem, g, j)
  {
  }

  // ---------------------------------------------------------------- adding a table

  /** Hanging an unused frame from a non-present entry keeps the invariant, if the frame is clean or becomes
      a page table, whose entries refer to no tables. */
  lemma LinkKeepsTree(mem: Memory, root: nat, t: Tree, n: Node, i: nat, f: nat)
    requires TreeInv(mem, root, t) && n in t && n.level < 3 && i < TABLE_LENGTH
    requires !Present(Entry(mem, t[n], i))
    requires f !in t.Values && f < FRAME_LIMIT && f * TABLE_LENGTH + TABLE_LENGTH <= |mem|
    requires n.level == 2 || Clean(mem, f)
    requires t[n] * TABLE_LENGTH + i < |mem|
    ensures Child(n, i) !in t
    ensures TreeInv(Write(mem, t[n], i, TableEntry(f)), root, t[Child(n, i) := f])
  {
    var c := Child(n, i);
    var mem' := Write(mem, t[n], i, TableEntry(f));
    var t' := t[c := f];
    ChildParent(n, i);
    TableEntryFields(f);
    if c in t {
      assert Linked(mem, t, c);
      TableEntryFields(t[c]);
      assert false;
    }
    assert n != c;
    forall m, j | m in t' && 0 <= j < TABLE_LENGTH
      ensures EntryAccounted(mem', t', m, j)
    {
      WriteOther(mem, t[n], i, TableEntry(f), t'[m], j);
      if m != c {
        assert EntryAccounted(mem, t, m, j);
      }
    }
    forall m | m in t' && m.level > 0
      ensures Linked(mem', t', m)
    {
      if m != c {
        assert Linked(mem, t, m);
        var j := m.number % TABLE_LENGTH;
        WriteOther(mem, t[n], i, TableEntry(f), t[Parent(m)], j);
      }
    }
    forall m | m in t'
      ensures Placed(mem', t', m)
    {
      assert m != c ==> Placed(mem, t, m);
      assert Placed(mem, t, n);
    }
  }

  // Adding one table changes the depth of the addresses on whose path it lies, and of no other
  lemma DepthAfterTable(mem: Memory, root: nat, t: Tree, mem': Memory, n: Node, i: nat, f: nat, va: u64)
    requires n in t && n.level < 3 && i < TABLE_LENGTH && Child(n, i) !in t
    requires TreeInv(mem, root, t) && TreeInv(mem', root, t[Child(n, i) := f])
    ensures var d, d' := Depth(t, va), Depth(t[Child(n, i) := f], va);
            if PathNode(va, n.level + 1) == Child(n, i)
            then d == n.level && d' == n.level + 1 && PathNode(va, n.level) == n && Index(va, n.level) == i
            else d == d' && PathNode(va, d) != Child(n, i)
  {
    var c, t' := Child(n, i), t[Child(n, i) := f];
    hide TreeInv;
    PathStep(va, n.level);
    if PathNode(va, c.level) == c {
      ChildParent(n, i);
      DepthIsLast(mem, root, t, va, n.level);
      DepthIsLast(mem, root, t, va, c.level);
      DepthIsLast(mem', root, t', va, c.level);
      if n.level < 2 {
        DepthIsLast(mem, root, t, va, c.level + 1);
        DepthIsLast(mem', root, t', va, c.level + 1);
        PathStep(va, c.level);
      }
    } else {
      PathLevels(va);
    }
  }

  lemma PathLevels(va: u64)
    ensures forall level: nat :: level <= 3 ==> PathNode(va, level).level == level
  {
  }

  // An address that does not pass through entry i of table n ends elsewhere
  lemma OtherEntry(mem: Memory, root: nat, t: Tree, n: Node, i: nat, va: u64, d: nat)
    requires TreeInv(mem, root, t) && n in t && d <= 3 && PathNode(va, d) in t && n.level < 3
    requires PathNode(va, n.level + 1) != Child(n, i)
    ensures !(t[PathNode(va, d)] == t[n] && Index(va, d) == i)
  {
    hide Index;
    PathStep(va, d);
  }

  /** ... and changes no translation: the addresses below the new table fault before and after. */
  lemma LinkKeepsTranslations(mem: Memory, root: nat, t: Tree, n: Node, i: nat, f: nat, va: u64)
    requires TreeInv(mem, root, t) && n in t && n.level < 3 && i < TABLE_LENGTH
    requires !Present(Entry(mem, t[n], i))
    requires f !in t.Values && f < FRAME_LIMIT && f * TABLE_LENGTH + TABLE_LENGTH <= |mem| && Clean(mem, f)
    requires t[n] * TABLE_LENGTH + i < |mem|
    ensures Translate(Write(mem, t[n], i, TableEntry(f)), root, va) == Translate(mem, root, va)
  {
    if Canonical(va) {
      var mem', t' := Write(mem, t[n], i, TableEntry(f)), t[Child(n, i) := f];
      LinkKeepsTree(mem, root, t, n, i, f);
      TranslateByDepth(mem, root, t, va);
      TranslateByDepth(mem', root, t', va);
      DepthAfterTable(mem, root, t, mem', n, i, f, va);
      var d, d' := Depth(t, va), Depth(t', va);
      hide TreeInv, Translate, Depth, Child, TableEntry, Index;
      if PathNode(va, n.level + 1) == Child(n, i) {
        assert t'[PathNode(va, d')] == f && t[PathNode(va, d)] == t[n];
        WriteOther(mem, t[n], i, TableEntry(f), f, Index(va, d'));
      } else {
        OtherEntry(mem, root, t, n, i, va, d);
        WriteOther(mem, t[n], i, TableEntry(f), t[PathNode(va, d)], Index(va, d));
      }
    }
  }

  // ---------------------------------------------------------------- writing a leaf

  ghost predicate Below(n: Node, top: Node)
    decreases n.level
  {
    n == top || (n.level > top.level && Below(Parent(n), top))
  }

  ghost function Prune(t: Tree, top: Node): Tree
  {
    map n | n in t && !Below(n, top) :: t[n]
  }

  lemma {:induction false} PathBelow(va: u64, level: nat, top: Node)
    requires level <= 4 && 0 < top.level
    ensures Below(PathNode(va, level), top) <==> top.level <= level && PathNode(va, top.level) == top
  {
    if level > top.level {
      PathStep(va, level - 1);
      PathBelow(va, level - 1, top);
    }
  }

  /** Overwriting an entry with one that is not a table reference keeps the invariant for the
      tree without the tables that hung from the entry. */
  lemma LeafKeepsTree(mem: Memory, root: nat, t: Tree, n: Node, i: nat, e: u64)
    requires TreeInv(mem, root, t) && n in t && n.level > 0 && i < TABLE_LENGTH
    requires !RefersToTable(e, n.level)
    requires t[n] * TABLE_LENGTH + i < |mem|
    ensures n in Prune(t, Child(n, i))
    ensures TreeInv(Write(mem, t[n], i, e), root, Prune(t, Child(n, i)))
  {
    var c := Child(n, i);
    var mem' := Write(mem, t[n], i, e);
    var t' := Prune(t, c);
    ChildParent(n, i);
    assert !Below(n, c) && !Below(ROOT, c);
    forall m, j | m in t' && 0 <= j < TABLE_LENGTH
      ensures EntryAccounted(mem', t', m, j)
    {
      WriteOther(mem, t[n], i, e, t[m], j);
      assert EntryAccounted(mem, t, m, j);
      if !(m == n && j == i) {
        ChildParent(m, j);
        assert Child(m, j) != c;
        assert !Below(Child(m, j), c);
      }
    }
    forall m | m in t' && m.level > 0
      ensures Linked(mem', t', m)
    {
      assert Linked(mem, t, m);
      assert !Below(Parent(m), c);
      WriteOther(mem, t[n], i, e, t[Parent(m)], m.number % TABLE_LENGTH);
    }
    forall m | m in t'
      ensures Placed(mem', t', m)
    {
      assert Placed(mem, t, m);
    }
  }

  /** ... and changes exactly the translations of the addresses that the entry serves. */
  lemma LeafTranslations(mem: Memory, root: nat, t: Tree, target: u64, level: nat, e: u64, va: u64)
    requires TreeInv(mem, root, t) && 0 < level <= 3 && PathNode(target, level) in t
    requires !RefersToTable(e, level)
    requires t[PathNode(target, level)] * TABLE_LENGTH + Index(target, level) < |mem|
    requires Canonical(va)
    ensures var mem' := Write(mem, t[PathNode(target, level)], Index(target, level), e);
            Translate(mem', root, va)
            == if Slot(va, level) == Slot(target, level) then EndOfWalk(e, level, va)
               else Translate(mem, root, va)
  {
    var n := PathNode(target, level);
    var i := Index(target, level);
    var c := Child(n, i);
    var mem' := Write(mem, t[n], i, e);
    var t' := Prune(t, c);
    LeafKeepsTree(mem, root, t, n, i, e);
    TranslateByDepth(mem, root, t, va);
    TranslateByDepth(mem', root, t', va);
    var d, d' := Depth(t, va), Depth(t', va);
    PathStep(target, level);
    PathStep(va, level);
    assert c == Node(level + 1, Slot(target, level));
    if Slot(va, level) == Slot(target, level) {
      assert PathNode(va, level + 1) == c;
      ChildParent(n, i);
      assert PathNode(va, level) == n && Index(va, level) == i;
      DepthIsLast(mem', root, t', va, level);
      PathBelow(va, d', c);
      assert d' == level;
      WriteOther(mem, t[n], i, e, t[n], i);
    } else {
      forall k: nat | k <= 3
        ensures PathNode(va, k) in t <==> PathNode(va, k) in t'
      {
        PathBelow(va, k, c);
      }
      assert d == d';
      assert Placed(mem, t, n) && Placed(mem, t, PathNode(va, d));
      WriteOther(mem, t[n], i, e, t[PathNode(va, d)], Index(va, d));
    }
  }
}
