/**
  Page-table entries, and the address translation the processor performs on them: 4-level paging
  as in the Intel SDM, volume 3A, section 4.5.

  The first half gives the loader's macros in their C form and says which fields they produce.
  The second half is the walk, written from the architecture alone; nothing in it mentions how
  the loader builds its tables.
 */
module PageWalk {
  import opened Bits

  const PAGE_SIZE := 0x1000
  const LARGE_PAGE_SIZE := 0x20_0000
  const HUGE_PAGE_SIZE := 0x4000_0000

  const PAGE_FLAG_PRESENT: u64 := 1
  const PAGE_FLAG_RW: u64 := 2
  const PAGE_FLAG_PS: u64 := 0x80
  const PAGE_PHYSICAL_MASK: u64 := 0x000F_FFFF_FFFF_F000

  const TABLE_LENGTH := 512
  const FRAME_LIMIT := 0x100_0000_0000     // a frame number has 40 bits
  const LOW_HALF_END := 0x8000_0000_0000   // first address above the lower canonical half
  const HIGH_HALF_START := 0xFFFF_8000_0000_0000
  const VA_SPACE := 0x1_0000_0000_0000     // 48 translated address bits

  // ---------------------------------------------------------------- the loader's macros

  function Pml4Index(va: u64): nat { And(Shr(va, 39), 0x1FF) }
  function PdptIndex(va: u64): nat { And(Shr(va, 30), 0x1FF) }
  function PdIndex(va: u64): nat { And(Shr(va, 21), 0x1FF) }
  function PtIndex(va: u64): nat { And(Shr(va, 12), 0x1FF) }

  function AlignPage(v: u64): nat { And(v, Not(0xFFF)) }

  // ALIGN_NEXT_PAGE on a value that the addition does not wrap
  function AlignNextPage(v: nat): nat
    requires v + 0xFFF < 0x1_0000_0000_0000_0000
  {
    AlignPage(v + 0xFFF)
  }

  function MakePageEntry(nextTablePhysical: u64): nat
  {
    Or(And(nextTablePhysical, PAGE_PHYSICAL_MASK),
       And(Or(PAGE_FLAG_PRESENT, PAGE_FLAG_RW), Not(PAGE_PHYSICAL_MASK)))
  }

  function MakeLeafEntry(pagePhysical: u64, flags: u64): nat
  {
    Or(And(pagePhysical, PAGE_PHYSICAL_MASK), And(flags, Not(PAGE_PHYSICAL_MASK)))
  }

  // ---------------------------------------------------------------- entry fields

  predicate Present(e: u64) { e % 0x1000 % 2 == 1 }
  predicate Writable(e: u64) { e % 0x1000 / 2 % 2 == 1 }
  predicate UserMode(e: u64) { e % 0x1000 / 4 % 2 == 1 }
  function CacheBits(e: u64): nat { e % 0x1000 / 8 % 4 }         // PWT and PCD
  predicate PageSize(e: u64) { e % 0x1000 / 0x80 % 2 == 1 }      // PS; PAT in a page-table entry
  predicate NoExecute(e: u64) { e / 0x8000_0000_0000_0000 == 1 }
  function FrameOf(e: u64): nat { e / 0x1000 % FRAME_LIMIT }

  // A present, writable entry that refers to the table in the given frame
  function TableEntry(frame: nat): u64
    requires frame < FRAME_LIMIT
  {
    frame * 0x1000 + 3
  }

  // Address bits 51:12 of the physical address, all other bits of the flags
  function LeafEntry(pa: u64, flags: u64): (e: u64)
    ensures FrameOf(e) == pa / 0x1000 % FRAME_LIMIT
    ensures e % 0x1000 == flags % 0x1000
    ensures e / 0x10_0000_0000_0000 == flags / 0x10_0000_0000_0000
  {
    pa / 0x1000 % FRAME_LIMIT * 0x1000 + flags % 0x1000 + flags / 0x10_0000_0000_0000 * 0x10_0000_0000_0000
  }

  lemma TableEntryFields(frame: nat)
    requires frame < FRAME_LIMIT
    ensures var e := TableEntry(frame);
            Present(e) && Writable(e) && !UserMode(e) && !PageSize(e) && !NoExecute(e) && FrameOf(e) == frame
  {
  }

  lemma LeafEntryFields(pa: u64, flags: u64)
    ensures var e := LeafEntry(pa, flags);
            && Present(e) == Present(flags) && Writable(e) == Writable(flags) && UserMode(e) == UserMode(flags)
            && CacheBits(e) == CacheBits(flags) && PageSize(e) == PageSize(flags)
            && NoExecute(e) == NoExecute(flags)
  {
    var e := LeafEntry(pa, flags);
    SameTopBit(e, flags);
  }

  lemma SameTopBit(a: u64, b: u64)
    requires a / 0x10_0000_0000_0000 == b / 0x10_0000_0000_0000
    ensures a / 0x8000_0000_0000_0000 == b / 0x8000_0000_0000_0000
  {
    assert a / 0x8000_0000_0000_0000 == a / 0x10_0000_0000_0000 / 0x800;
    assert b / 0x8000_0000_0000_0000 == b / 0x10_0000_0000_0000 / 0x800;
  }

  // ---------------------------------------------------------------- macros meet fields

  /** The physical-address mask keeps exactly the frame number. */
  lemma PhysicalMask(x: u64)
    ensures And(x, PAGE_PHYSICAL_MASK) == FrameOf(x) * 0x1000
  {
    AndPageMask(x, 0xFF_FFFF_FFFF);
    PowersOfTwo();
    AndLowOnes(x / 0x1000, 40);
  }

  lemma FlagMask(flags: u64)
    ensures And(flags, Not(PAGE_PHYSICAL_MASK))
            == flags % 0x1000 + flags / 0x10_0000_0000_0000 * 0x10_0000_0000_0000
  {
    PowersOfTwo();
    AndComplement(flags, PAGE_PHYSICAL_MASK, Not(PAGE_PHYSICAL_MASK), 64);
    PhysicalMask(flags);
    SplitWord(flags);
  }

  lemma SplitWord(x: u64)
    ensures x == x % 0x1000 + FrameOf(x) * 0x1000 + x / 0x10_0000_0000_0000 * 0x10_0000_0000_0000
  {
    assert x / 0x1000 / FRAME_LIMIT == x / 0x10_0000_0000_0000;
  }

  lemma LeafEntryMacro(pa: u64, flags: u64)
    ensures MakeLeafEntry(pa, flags) == LeafEntry(pa, flags)
  {
    PowersOfTwo();
    PhysicalMask(pa);
    FlagMask(flags);
    MergeFields(pa, flags, PAGE_PHYSICAL_MASK, Not(PAGE_PHYSICAL_MASK), 64);
  }

  lemma PageEntryMacro(frame: nat)
    requires frame < FRAME_LIMIT
    ensures MakePageEntry(frame * 0x1000) == TableEntry(frame)
  {
    PresentAndWritable();
    LeafEntryMacro(frame * 0x1000, 3);
    LeafOfTable(frame);
    hide And, Or, Not, LeafEntry, TableEntry;
  }

  lemma LeafOfTable(frame: nat)
    requires frame < FRAME_LIMIT
    ensures LeafEntry(frame * 0x1000, 3) == TableEntry(frame)
  {
    RemainderUnique(frame * 0x1000, 0x1000, frame, 0);
  }

  lemma PresentAndWritable()
    ensures Or(PAGE_FLAG_PRESENT, PAGE_FLAG_RW) == 3
  {
    OrStep(1, 2);
    OrStep(0, 1);
  }

  lemma PresentMacro(e: u64)
    ensures And(e, PAGE_FLAG_PRESENT) != 0 <==> Present(e)
  {
    AndStep(e, 1);
    assert e % 0x1000 % 2 == e % 2;
  }

  lemma IndexMacros(va: u64)
    ensures Pml4Index(va) == Index(va, 0) && PdptIndex(va) == Index(va, 1)
    ensures PdIndex(va) == Index(va, 2) && PtIndex(va) == Index(va, 3)
  {
    PowersOfTwo();
    ShiftsDivide(va);
    AndLowOnes(Shr(va, 39), 9);
    AndLowOnes(Shr(va, 30), 9);
    AndLowOnes(Shr(va, 21), 9);
    AndLowOnes(Shr(va, 12), 9);
  }

  lemma AlignMacro(v: u64)
    ensures AlignPage(v) == v - v % 0x1000
  {
    PowersOfTwo();
    AndComplement(v, 0xFFF, Not(0xFFF), 64);
    AndLowOnes(v, 12);
  }

  /** `Flags | PAGE_FLAG_PS` sets that one bit and no other. */
  lemma SetPageSize(flags: u64)
    ensures var f := Or(flags, PAGE_FLAG_PS);
            f == flags + (if PageSize(flags) then 0 else 0x80) && f < 0x1_0000_0000_0000_0000
  {
    OrBit7(flags, 0x80);
    Bit7(flags);
  }

  // The flags of a large or huge page
  function LargeFlags(flags: u64): (f: u64)
    ensures PageSize(f) && (f == flags || f == flags + 0x80)
    ensures Present(f) == Present(flags) && Writable(f) == Writable(flags) && NoExecute(f) == NoExecute(flags)
  {
    LargeFlagFields(flags);
    SetPageSize(flags);
    Or(flags, PAGE_FLAG_PS)
  }

  lemma LargeFlagFields(flags: u64)
    ensures var f := Or(flags, PAGE_FLAG_PS);
            && f < 0x1_0000_0000_0000_0000
            && PageSize(f) && Present(f) == Present(flags) && Writable(f) == Writable(flags)
            && CacheBits(f) == CacheBits(flags) && NoExecute(f) == NoExecute(flags)
  {
    SetPageSize(flags);
    if !PageSize(flags) {
      var q, low := flags / 0x1000, flags % 0x1000;
      AddBit7(low);
      assert (0x1000 * q + (low + 0x80)) % 0x1000 == low + 0x80;
      assert (0x1000 * q + (low + 0x80)) / 0x1000 == q;
      TopBit(flags, q);
      TopBit(flags + 0x80, q);
    }
  }

  lemma AddBit7(low: nat)
    requires low < 0x1000 && low / 0x80 % 2 == 0
    ensures low + 0x80 < 0x1000 && (low + 0x80) / 0x80 % 2 == 1
    ensures (low + 0x80) % 2 == low % 2 && (low + 0x80) / 2 % 2 == low / 2 % 2 && (low + 0x80) / 8 % 4 == low / 8 % 4
  {
    assert (low + 0x80) / 0x80 == low / 0x80 + 1;
    assert (low + 0x80) / 2 == low / 2 + 0x40;
    assert (low + 0x80) / 8 == low / 8 + 0x10;
  }

  lemma TopBit(x: u64, q: nat)
    requires x / 0x1000 == q
    ensures NoExecute(x) <==> q / 0x8_0000_0000_0000 == 1
  {
    assert x / 0x8000_0000_0000_0000 == x / 0x1000 / 0x8_0000_0000_0000;
  }

  lemma Bit7(x: u64)
    ensures PageSize(x) <==> x / 0x80 % 2 == 1
    ensures !PageSize(x) ==> x + 0x80 < 0x1_0000_0000_0000_0000
  {
    Bit7Of(x / 0x1000, x % 0x1000);
    if x / 0x80 % 2 != 1 {
      var h := x / 0x80 / 2;
      assert x / 0x80 == 2 * h && x == 0x100 * h + x % 0x80;
      hide PageSize;
    }
  }

  lemma Bit7Of(q: nat, r: nat)
    requires r < 0x1000
    ensures (0x1000 * q + r) / 0x80 % 2 == r / 0x80 % 2
  {
    RemainderUnique(0x1000 * q + r, 0x80, 0x20 * q + r / 0x80, r % 0x80);
    RemainderUnique(0x20 * q + r / 0x80, 2, 0x10 * q + r / 0x80 / 2, r / 0x80 % 2);
  }

  lemma OrBit7(x: nat, bit: nat)
    requires bit == 0x80
    ensures Or(x, bit) == x + (if x / 0x80 % 2 == 1 then 0 else 0x80)
  {
    OrHigh7(x, bit / 0x80);
    OrLowest(x / 0x80, bit / 0x80);
  }

  lemma OrLowest(x: nat, one: nat)
    requires one == 1
    ensures Or(x, one) == x + 1 - x % 2
  {
    OrStep(x, one);
    OrZero(x / 2);
  }

  lemma OrHigh7(x: nat, y: nat)
    ensures Or(x, 0x80 * y) == 0x80 * Or(x / 0x80, y) + x % 0x80
  {
    OrHigh3(x, 0x10 * y);
    OrHigh3(x / 8, 2 * y);
    assert x / 8 / 8 == x / 0x40;
    OrStep(x / 0x40, 2 * y);
    assert x / 0x40 / 2 == x / 0x80;
  }

  lemma OrHigh3(x: nat, y: nat)
    ensures Or(x, 8 * y) == 8 * Or(x / 8, y) + x % 8
  {
    hide Or;
    var y2 := 2 * y;
    var y4 := 2 * y2;
    assert 2 * y4 == 8 * y;
    OrEven(x, y4);
    OrEven(x / 2, y2);
    OrEven(x / 2 / 2, y);
    EighthSplits(x);
  }

  lemma EighthSplits(x: nat)
    ensures x / 2 / 2 / 2 == x / 8
    ensures 4 * (x / 2 / 2 % 2) + 2 * (x / 2 % 2) + x % 2 == x % 8
  {
  }

  lemma OrEven(x: nat, y: nat)
    ensures Or(x, 2 * y) == 2 * Or(x / 2, y) + x % 2
  {
    OrStep(x, 2 * y);
    assert 2 * y / 2 == y && 2 * y % 2 == 0;
  }

  lemma {:induction false} OrZero(x: nat)
    ensures Or(x, 0) == x
  {
    if x > 0 {
      OrZero(x / 2);
    }
  }

  // ---------------------------------------------------------------- virtual addresses

  // Bytes mapped by one entry of a table at the given level (0 is the PML4, 3 a page table)
  function Span(level: nat): (s: nat)
    ensures s > 0
  {
    if level == 0 then 0x80_0000_0000
    else if level == 1 then HUGE_PAGE_SIZE
    else if level == 2 then LARGE_PAGE_SIZE
    else PAGE_SIZE
  }

  // The address field that selects an entry at the given level: nine bits of the address
  function Index(va: u64, level: nat): (i: nat)
    ensures i < TABLE_LENGTH
  {
    va / Span(level) % TABLE_LENGTH
  }

  // The number of the entry that serves va, counting all entries of a level in address order
  function Slot(va: u64, level: nat): nat
  {
    va % VA_SPACE / Span(level)
  }

  predicate Canonical(va: u64)
  {
    va < LOW_HALF_END || va >= HIGH_HALF_START
  }

  // ---------------------------------------------------------------- the hardware walk

  // Physical memory: 64-bit words, 512 to a frame. Frames beyond its end read as zero.
  type Memory = seq<u64>

  function Entry(mem: Memory, frame: nat, i: nat): u64
  {
    if frame * TABLE_LENGTH + i < |mem| then mem[frame * TABLE_LENGTH + i] else 0
  }

  datatype Translation =
    | Fault
    | Mapped(pa: nat, writable: bool, user: bool, noExecute: bool, memoryType: nat)

  // Rights accumulated along a walk: all entries must allow a write or a user access, any entry
  // may forbid execution.
  datatype Rights = Rights(writable: bool, user: bool, noExecute: bool)

  const AllRights := Rights(true, true, false)

  function Restrict(r: Rights, e: u64): Rights
  {
    Rights(r.writable && Writable(e), r.user && UserMode(e), r.noExecute || NoExecute(e))
  }

  // The page described by a leaf entry. A leaf above the last level keeps its PAT bit in bit 12,
  // and the address bits between that and the page size are reserved.
  function LeafPage(e: u64, level: nat, va: u64, r: Rights): Translation
  {
    var n := Span(level) / PAGE_SIZE;
    var pat := if level == 3 then (if PageSize(e) then 1 else 0) else FrameOf(e) % n;
    if level < 3 && FrameOf(e) % n > 1 then Fault
    else Mapped(FrameOf(e) / n * Span(level) + va % Span(level), r.writable, r.user, r.noExecute,
                4 * pat + CacheBits(e))
  }

  // True if the entry ends the walk
  predicate IsLeaf(e: u64, level: nat)
  {
    level >= 3 || (level > 0 && PageSize(e))
  }

  function WalkFrom(mem: Memory, frame: nat, level: nat, va: u64, r: Rights): Translation
    requires level <= 3
    decreases 3 - level
  {
    var e := Entry(mem, frame, Index(va, level));
    if !Present(e) then Fault
    else if level == 0 && PageSize(e) then Fault
    else if IsLeaf(e, level) then LeafPage(e, level, va, Restrict(r, e))
    else WalkFrom(mem, FrameOf(e), level + 1, va, Restrict(r, e))
  }

  function Translate(mem: Memory, root: nat, va: u64): Translation
  {
    if Canonical(va) then WalkFrom(mem, root, 0, va, AllRights) else Fault
  }
}
