/**
  Physical memory as bytes: an image in it, and ZeroMem over part of it.
 */
module ImageMemory {
  import opened Bits
  import opened PageWalk
  import opened PageTree
  import opened Paging
  import opened Separation
  import opened ByteOrder

  // Byte a of physical memory: the words are little-endian
  function PhysByte(mem: Memory, a: nat): u8
  {
    Entry(mem, a / PAGE_SIZE, a % PAGE_SIZE / 8) / Power256(a % 8) % 0x100
  }

  // What a load from a virtual address yields; no byte if the address is not mapped
  datatype Load = NoByte | Byte(value: u8)

  function VirtByte(s: Snapshot, v: u64): Load
  {
    match s.View(v)
    case Fault => NoByte
    case Mapped(pa, _, _, _, _) => Byte(PhysByte(s.mem, pa))
  }

  // The bytes of physical memory from base on
  function ImageBytes(mem: Memory, base: nat, size: nat): (img: Bytes)
    ensures |img| == size && forall k :: 0 <= k < size ==> img[k] == PhysByte(mem, base + k)
  {
    if size == 0 then [] else ImageBytes(mem, base, size - 1) + [PhysByte(mem, base + (size - 1))]
  }

  // Some byte of the frame lies in [lo, hi)
  predicate Touches(f: nat, lo: nat, hi: nat)
  {
    lo < hi && f * PAGE_SIZE < hi && lo < f * PAGE_SIZE + PAGE_SIZE
  }

  // No frame of the byte range is a page table or free
  ghost predicate RangeApart(s: Snapshot, lo: nat, hi: nat)
  {
    forall f: nat :: Touches(f, lo, hi) ==> !Managed(s, f)
  }

  ghost predicate ImageApart(s: Snapshot, base: nat, size: nat)
  {
    RangeApart(s, base, base + size)
  }

  lemma UntouchedByte(s: Snapshot, s': Snapshot, base: nat, size: nat, a: nat)
    requires OthersUntouched(s, s') && ImageApart(s, base, size) && base <= a < base + size
    ensures PhysByte(s'.mem, a) == PhysByte(s.mem, a)
  {
    WordIndex(a);
    FrameOfByte(a, base, base + size);
    hide Touches;
    assert !Managed(s, a / PAGE_SIZE);
  }

  lemma FrameOfByte(a: nat, lo: nat, hi: nat)
    requires lo <= a < hi
    ensures Touches(a / PAGE_SIZE, lo, hi)
  {
  }

  lemma UntouchedBytes(s: Snapshot, s': Snapshot, base: nat, size: nat)
    requires OthersUntouched(s, s') && ImageApart(s, base, size)
    ensures ImageBytes(s'.mem, base, size) == ImageBytes(s.mem, base, size)
  {
    hide OthersUntouched, ImageApart, PhysByte;
    forall a: nat | base <= a < base + size
      ensures PhysByte(s'.mem, a) == PhysByte(s.mem, a)
    {
      UntouchedByte(s, s', base, size, a);
    }
    SameImage(s.mem, s'.mem, base, size);
  }

  lemma {:induction false} SameImage(mem: Memory, mem': Memory, base: nat, size: nat)
    requires forall a: nat :: base <= a < base + size ==> PhysByte(mem', a) == PhysByte(mem, a)
    ensures ImageBytes(mem', base, size) == ImageBytes(mem, base, size)
  {
    hide PhysByte;
    if size > 0 {
      SameImage(mem, mem', base, size - 1);
    }
  }

  // ---------------------------------------------------------------- zeroing bytes

  // The word with byte k replaced by zero
  function ClearByte(w: nat, k: nat): (r: nat)
    ensures r <= w
  {
    if k == 0 then w - w % 0x100 else w % 0x100 + 0x100 * ClearByte(w / 0x100, k - 1)
  }

  lemma {:induction false} ClearedByte(w: nat, k: nat, j: nat)
    ensures ClearByte(w, k) / Power256(j) % 0x100 == if j == k then 0 else w / Power256(j) % 0x100
    decreases j
  {
    if j > 0 {
      var p := Power256(j - 1);
      ByteAbove(w, p);
      ByteAbove(ClearByte(w, k), p);
      if k > 0 {
        ClearedByte(w / 0x100, k - 1, j - 1);
        assert ClearByte(w, k) / 0x100 == ClearByte(w / 0x100, k - 1);
      } else {
        assert ClearByte(w, k) / 0x100 == w / 0x100;
      }
    } else {
      assert Power256(0) == 1;
    }
  }

  lemma ByteAbove(x: nat, p: nat)
    requires p > 0
    ensures x / (0x100 * p) == x / 0x100 / p
  {
    var h := x / 0x100;
    var q, r := h / p, h % p;
    assert h == p * q + r;
    assert x == (0x100 * p) * q + (0x100 * r + x % 0x100) by {
      assert (0x100 * p) * q == 0x100 * (p * q);
    }
    QuotientUnique(x, 0x100 * p, q, 0x100 * r + x % 0x100);
  }

  lemma QuotientUnique(x: int, d: int, q: int, r: int)
    requires d > 0 && x == d * q + r && 0 <= r < d
    ensures x / d == q
  {
    var e := x / d;
    assert x == d * e + x % d;
    assert d * e - d * q == d * (e - q);
    MultipleIsLarge(d, e - q);
  }

  lemma MultipleIsLarge(d: int, e: int)
    requires d > 0
    ensures e > 0 ==> d * e >= d
    ensures e < 0 ==> d * e <= -d
  {
  }

  lemma WordIndex(a: nat)
    ensures a / PAGE_SIZE * TABLE_LENGTH + a % PAGE_SIZE / 8 == a / 8 && a % PAGE_SIZE / 8 < TABLE_LENGTH
  {
  }

  lemma ByteOfWord(mem: Memory, a: nat)
    ensures PhysByte(mem, a) == if a / 8 < |mem| then mem[a / 8] / Power256(a % 8) % 0x100 else 0
  {
    WordIndex(a);
    ZeroByte(a % 8);
  }

  lemma ZeroByte(k: nat)
    ensures 0 / Power256(k) % 0x100 == 0
  {
  }

  // The memory after one more byte was cleared
  function ByteZeroed(mem: Memory, a: nat): Memory
  {
    if a / 8 < |mem| then mem[a / 8 := ClearByte(mem[a / 8], a % 8)] else mem
  }

  lemma ByteCleared(mem: Memory, a: nat, x: nat)
    ensures PhysByte(ByteZeroed(mem, a), x) == if x == a then 0 else PhysByte(mem, x)
  {
    ByteOfWord(mem, x);
    ByteOfWord(ByteZeroed(mem, a), x);
    hide PhysByte, Power256, ClearByte;
    if x / 8 == a / 8 && a / 8 < |mem| {
      ClearedByte(mem[a / 8], a % 8, x % 8);
    }
  }

  // The bytes of [lo, hi) are zero, and all others are as before
  ghost predicate Zeroed(mem: Memory, mem': Memory, lo: nat, hi: nat)
  {
    && |mem'| == |mem|
    && (forall x: nat :: PhysByte(mem', x) == if lo <= x < hi then 0 else PhysByte(mem, x))
    && (forall w :: 0 <= w < |mem| && (8 * w + 8 <= lo || hi <= 8 * w) ==> mem'[w] == mem[w])
  }

  lemma OneMoreZero(mem: Memory, mem': Memory, lo: nat, a: nat)
    requires lo <= a && Zeroed(mem, mem', lo, a)
    ensures Zeroed(mem, ByteZeroed(mem', a), lo, a + 1)
  {
    hide PhysByte, ByteZeroed;
    forall x: nat
      ensures PhysByte(ByteZeroed(mem', a), x) == if lo <= x < a + 1 then 0 else PhysByte(mem, x)
    {
      ByteCleared(mem', a, x);
    }
    OtherWords(mem, mem', lo, a);
  }

  lemma OtherWords(mem: Memory, mem': Memory, lo: nat, a: nat)
    requires lo <= a && Zeroed(mem, mem', lo, a)
    ensures |ByteZeroed(mem', a)| == |mem|
    ensures forall w :: 0 <= w < |mem| && (8 * w + 8 <= lo || a + 1 <= 8 * w) ==> ByteZeroed(mem', a)[w] == mem[w]
  {
    hide PhysByte, ClearByte;
    forall w | 0 <= w < |mem| && (8 * w + 8 <= lo || a + 1 <= 8 * w)
      ensures w != a / 8 && mem'[w] == mem[w]
    {
    }
  }

  // ZeroMem over the part of the range that is memory
  method ZeroMem(pm: PageManager, address: nat, length: nat)
    modifies pm.mem
    ensures Zeroed(old(pm.mem[..]), pm.mem[..], address, address + length)
  {
    hide PhysByte, ClearByte, Zeroed;
    ghost var before := pm.mem[..];
    NothingZeroed(before, address);
    var a := address;
    while a < address + length
      invariant address <= a <= address + length
      invariant Zeroed(before, pm.mem[..], address, a)
    {
      SameLength(before, pm.mem[..], address, a);
      OneMoreZero(before, pm.mem[..], address, a);
      ghost var now := pm.mem[..];
      if a / 8 < pm.mem.Length {
        pm.mem[a / 8] := ClearByte(pm.mem[a / 8], a % 8);
      }
      assert pm.mem[..] == ByteZeroed(now, a);
      a := a + 1;
    }
  }

  lemma NothingZeroed(mem: Memory, lo: nat)
    ensures Zeroed(mem, mem, lo, lo)
  {
    hide PhysByte;
  }

  lemma SameLength(mem: Memory, mem': Memory, lo: nat, hi: nat)
    requires Zeroed(mem, mem', lo, hi)
    ensures |mem'| == |mem|
  {
  }

  /** Zeroing bytes keeps the entries of every frame that it does not touch. */
  lemma UntouchedFrame(mem: Memory, mem': Memory, lo: nat, hi: nat, f: nat, i: nat)
    requires Zeroed(mem, mem', lo, hi) && lo < hi && !Touches(f, lo, hi) && i < TABLE_LENGTH
    ensures Entry(mem', f, i) == Entry(mem, f, i)
  {
    hide PhysByte;
  }

  /** An image survives a fill exactly if its bytes in the filled range are zero already. */
  lemma ImageSurvivesExactlyWhen(mem: Memory, mem': Memory, lo: nat, hi: nat, base: nat, size: nat)
    requires Zeroed(mem, mem', lo, hi)
    ensures ImageBytes(mem', base, size) == ImageBytes(mem, base, size)
            <==> forall x: nat :: base <= x < base + size && lo <= x < hi ==> PhysByte(mem, x) == 0
  {
    hide PhysByte;
    var img, img' := ImageBytes(mem, base, size), ImageBytes(mem', base, size);
    if img' == img {
      forall x: nat | base <= x < base + size && lo <= x < hi
        ensures PhysByte(mem, x) == 0
      {
        assert img'[x - base] == img[x - base];
      }
    }
    if forall x: nat :: base <= x < base + size && lo <= x < hi ==> PhysByte(mem, x) == 0 {
      SameImage(mem, mem', base, size);
    }
  }

  /** A word is determined by its bytes. */
  lemma {:induction false} SameWord(v: nat, w: nat, n: nat)
    requires v < Power256(n) && w < Power256(n)
    requires forall k :: 0 <= k < n ==> v / Power256(k) % 0x100 == w / Power256(k) % 0x100
    ensures v == w
  {
    if n > 0 {
      assert Power256(0) == 1;
      assert v / Power256(0) % 0x100 == w / Power256(0) % 0x100;
      forall k | 0 <= k < n - 1
        ensures v / 0x100 / Power256(k) % 0x100 == w / 0x100 / Power256(k) % 0x100
      {
        ByteAbove(v, Power256(k));
        ByteAbove(w, Power256(k));
        assert v / Power256(k + 1) % 0x100 == w / Power256(k + 1) % 0x100;
      }
      SameWord(v / 0x100, w / 0x100, n - 1);
    }
  }

  lemma SameEntry(mem: Memory, mem': Memory, f: nat, i: nat)
    requires |mem'| == |mem| && i < TABLE_LENGTH
    requires forall x: nat :: x / PAGE_SIZE == f ==> PhysByte(mem', x) == PhysByte(mem, x)
    ensures Entry(mem', f, i) == Entry(mem, f, i)
  {
    var w := f * TABLE_LENGTH + i;
    if w < |mem| {
      forall k | 0 <= k < 8
        ensures mem'[w] / Power256(k) % 0x100 == mem[w] / Power256(k) % 0x100
      {
        var x := 8 * w + k;
        assert x / 8 == w && x % 8 == k && x / PAGE_SIZE == f;
        ByteOfWord(mem, x);
        ByteOfWord(mem', x);
      }
      Power256s();
      SameWord(mem'[w], mem[w], 8);
    }
  }

  /** Tables survive a fill exactly if their bytes in the filled range are zero already. */
  lemma TablesSurviveExactlyWhen(mem: Memory, mem': Memory, lo: nat, hi: nat, t: Tree)
    requires Zeroed(mem, mem', lo, hi)
    ensures SameOnTables(mem, mem', t)
            <==> forall x: nat :: x / PAGE_SIZE in t.Values && lo <= x < hi ==> PhysByte(mem, x) == 0
  {
    hide PhysByte;
    if SameOnTables(mem, mem', t) {
      forall x: nat | x / PAGE_SIZE in t.Values && lo <= x < hi
        ensures PhysByte(mem, x) == 0
      {
        SameByte(mem, mem', t, x);
      }
    }
    if forall x: nat :: x / PAGE_SIZE in t.Values && lo <= x < hi ==> PhysByte(mem, x) == 0 {
      forall f: nat, i: nat | f in t.Values && i < TABLE_LENGTH
        ensures Entry(mem', f, i) == Entry(mem, f, i)
      {
        SameEntry(mem, mem', f, i);
      }
    }
  }

  lemma SameByte(mem: Memory, mem': Memory, t: Tree, x: nat)
    requires SameOnTables(mem, mem', t) && x / PAGE_SIZE in t.Values
    ensures PhysByte(mem', x) == PhysByte(mem, x)
  {
    WordIndex(x);
  }

  // ---------------------------------------------------------------- zeroing free frames, and zeroing tables

  lemma EntryParity(mem: Memory, f: nat, i: nat)
    requires i < TABLE_LENGTH
    ensures Present(Entry(mem, f, i)) <==> PhysByte(mem, f * PAGE_SIZE + 8 * i) % 2 == 1
  {
    FirstByte(mem, f, i);
    LowestBit(Entry(mem, f, i));
    hide PhysByte, Present, Entry;
  }

  lemma FirstByte(mem: Memory, f: nat, i: nat)
    requires i < TABLE_LENGTH
    ensures PhysByte(mem, f * PAGE_SIZE + 8 * i) == Entry(mem, f, i) % 0x100
  {
    hide Entry;
    var a := f * PAGE_SIZE + 8 * i;
    RemainderUnique(a, PAGE_SIZE, f, 8 * i);
    RemainderUnique(8 * i, 8, i, 0);
    RemainderUnique(a, 8, TABLE_LENGTH * f + i, 0);
    assert Power256(0) == 1;
  }

  lemma LowestBit(e: u64)
    ensures Present(e) <==> e % 0x100 % 2 == 1
  {
    var p, b := e % 0x1000, e % 0x100;
    RemainderUnique(e, 2, 0x800 * (e / 0x1000) + p / 2, p % 2);
    RemainderUnique(e, 2, 0x80 * (e / 0x100) + b / 2, b % 2);
  }

  /** Zeroing adds no present entry, so frames without present entries stay so, whatever part of them it touches. */
  lemma ZeroingKeepsClean(mem: Memory, mem': Memory, lo: nat, hi: nat, free: seq<nat>)
    requires Zeroed(mem, mem', lo, hi) && AllClean(mem, free)
    ensures AllClean(mem', free)
  {
    hide PhysByte, Present, Entry;
    forall f, i | f in free && 0 <= i < TABLE_LENGTH
      ensures !Present(Entry(mem', f, i))
    {
      assert Clean(mem, f);
      EntryParity(mem, f, i);
      EntryParity(mem', f, i);
    }
  }

  // A walk that comes to an entry which is not present faults
  lemma {:induction false} WalkInto(mem: Memory, mem': Memory, root: nat, t: Tree, v: u64, level: nat, k: nat,
                                    r: Rights)
    requires TreeInv(mem, root, t) && k <= level <= 3 && PathNode(v, level) in t && PathNode(v, k) in t
    requires forall j: nat :: j < level && PathNode(v, j) in t ==>
               Entry(mem', t[PathNode(v, j)], Index(v, j)) == Entry(mem, t[PathNode(v, j)], Index(v, j))
    requires !Present(Entry(mem', t[PathNode(v, level)], Index(v, level)))
    ensures WalkFrom(mem', t[PathNode(v, k)], k, v, r) == Fault
    decreases level - k
  {
    if k < level {
      PathPrefix(mem, root, t, v, k + 1, level);
      TableOnPath(mem, root, t, v, k);
      hide TreeInv, Entry, Index, Present, TableEntry, PathNode, Restrict;
      var e := Entry(mem', t[PathNode(v, k)], Index(v, k));
      WalkThroughTable(mem', t[PathNode(v, k)], k, v, r, t[PathNode(v, k + 1)]);
      WalkInto(mem, mem', root, t, v, level, k + 1, Restrict(r, e));
    }
  }

  lemma TableOnPath(mem: Memory, root: nat, t: Tree, v: u64, k: nat)
    requires TreeInv(mem, root, t) && k < 3 && PathNode(v, k) in t && PathNode(v, k + 1) in t
    ensures t[PathNode(v, k + 1)] < FRAME_LIMIT
    ensures Entry(mem, t[PathNode(v, k)], Index(v, k)) == TableEntry(t[PathNode(v, k + 1)])
  {
    var c := PathNode(v, k + 1);
    assert Linked(mem, t, c) && Placed(mem, t, c);
    PathStep(v, k);
    hide Index, Entry, TableEntry;
  }

  lemma WalkThroughTable(mem: Memory, frame: nat, k: nat, v: u64, r: Rights, f: nat)
    requires k < 3 && f < FRAME_LIMIT && Entry(mem, frame, Index(v, k)) == TableEntry(f)
    ensures WalkFrom(mem, frame, k, v, r) == WalkFrom(mem, f, k + 1, v, Restrict(r, Entry(mem, frame, Index(v, k))))
  {
    TableEntryFields(f);
    hide Index, Entry, TableEntry, Present, PageSize, FrameOf, Restrict;
  }

  /** A fill that covers one table unmaps every address below it. */
  lemma FilledTableFaults(mem: Memory, mem': Memory, root: nat, t: Tree, n: Node, v: u64)
    requires TreeInv(mem, root, t) && n in t && PathNode(v, n.level) == n
    requires Zeroed(mem, mem', t[n] * PAGE_SIZE, t[n] * PAGE_SIZE + PAGE_SIZE)
    ensures Translate(mem', root, v) == Fault
  {
    var f := t[n];
    assert Placed(mem, t, n);
    PathLevels(v);
    RootTable(mem, root, t, v);
    forall j: nat | j < n.level && PathNode(v, j) in t
      ensures Entry(mem', t[PathNode(v, j)], Index(v, j)) == Entry(mem, t[PathNode(v, j)], Index(v, j))
    {
      assert t[PathNode(v, j)] != f;
      UntouchedFrame(mem, mem', f * PAGE_SIZE, f * PAGE_SIZE + PAGE_SIZE, t[PathNode(v, j)], Index(v, j));
    }
    EntryParity(mem', f, Index(v, n.level));
    hide PhysByte, Entry, TreeInv, Index;
    WalkInto(mem, mem', root, t, v, n.level, 0, AllRights);
  }
}
