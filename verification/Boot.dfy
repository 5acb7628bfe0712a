/**
  The part of UefiMain that sizes the frame database from the firmware's memory map and builds
  the free list from it, and the paging set-up that follows.
 */
module Boot {
  import opened Bits
  import opened PageWalk
  import opened FreeList
  import opened PageTree
  import opened Paging
  import opened Separation
  import opened DirectMap
  import opened TableCost
  import opened IdentityMap

  datatype Kind = Conventional | Persistent | OtherKind

  datatype Descriptor = Descriptor(kind: Kind, physicalStart: u64, numberOfPages: u64)

  predicate Usable(d: Descriptor)
  {
    d.kind == Conventional || d.kind == Persistent
  }

  // The address after the region, as 64-bit arithmetic yields it
  function End(d: Descriptor): u64
  {
    (d.physicalStart + d.numberOfPages * PAGE_SIZE) % 0x1_0000_0000_0000_0000
  }

  // The firmware reports page-aligned regions that end within the address space
  predicate WellFormed(d: Descriptor)
  {
    d.physicalStart % PAGE_SIZE == 0 && d.physicalStart + d.numberOfPages * PAGE_SIZE < 0x1_0000_0000_0000_0000
  }

  // The region is memory that the loader takes, and ends at the address
  predicate EndsAt(d: Descriptor, address: nat)
  {
    (d.kind == Conventional || d.kind == Persistent) && d.physicalStart + 0x1000 * d.numberOfPages == address
  }

  // No region that the loader takes runs over the end of the 64-bit address space
  ghost predicate NoneWraps(descriptors: seq<Descriptor>)
  {
    forall d, a: nat :: d in descriptors && EndsAt(d, a) ==> a < 0x1_0000_0000_0000_0000
  }

  lemma EndIs(d: Descriptor, a: nat)
    requires Usable(d) && (EndsAt(d, d.physicalStart + 0x1000 * d.numberOfPages) ==>
                             d.physicalStart + 0x1000 * d.numberOfPages < 0x1_0000_0000_0000_0000)
    ensures EndsAt(d, a) <==> a == End(d)
  {
  }

  // MaxAddress: the highest end of a usable region
  method HighestAddress(descriptors: seq<Descriptor>) returns (maxAddress: u64)
    ensures forall d :: d in descriptors && Usable(d) ==> End(d) <= maxAddress
    ensures maxAddress == 0 || exists d :: d in descriptors && Usable(d) && End(d) == maxAddress
    // where no end wraps, the largest start plus size
    ensures NoneWraps(descriptors) ==>
              && (forall d, a: nat :: d in descriptors && EndsAt(d, a) ==> a <= maxAddress)
              && (maxAddress == 0 || exists d :: d in descriptors && EndsAt(d, maxAddress))
  {
    maxAddress := 0;
    var i := 0;
    while i < |descriptors|
      invariant 0 <= i <= |descriptors|
      invariant forall d :: d in descriptors[..i] && Usable(d) ==> End(d) <= maxAddress
      invariant maxAddress == 0 || exists d :: d in descriptors && Usable(d) && End(d) == maxAddress
    {
      var desc := descriptors[i];
      if Usable(desc) {
        var end := End(desc);
        if end > maxAddress {
          maxAddress := end;
        }
      }
      i := i + 1;
    }
    assert descriptors[..i] == descriptors;
    if NoneWraps(descriptors) {
      HighestEnd(descriptors, maxAddress);
    }
  }

  lemma HighestEnd(descriptors: seq<Descriptor>, maxAddress: nat)
    requires NoneWraps(descriptors)
    requires forall d :: d in descriptors && Usable(d) ==> End(d) <= maxAddress
    requires maxAddress == 0 || exists d :: d in descriptors && Usable(d) && End(d) == maxAddress
    ensures forall d, a: nat :: d in descriptors && EndsAt(d, a) ==> a <= maxAddress
    ensures maxAddress == 0 || exists d :: d in descriptors && EndsAt(d, maxAddress)
  {
    forall d, a: nat | d in descriptors && EndsAt(d, a)
      ensures a <= maxAddress
    {
      EndIs(d, a);
    }
    if maxAddress != 0 {
      var d :| d in descriptors && Usable(d) && End(d) == maxAddress;
      assert EndsAt(d, d.physicalStart + 0x1000 * d.numberOfPages);
      EndIs(d, maxAddress);
    }
  }

  // ---------------------------------------------------------------- which frames are pushed

  // The region is memory that the loader takes, and the frame lies in it
  predicate Takes(d: Descriptor, f: nat)
  {
    && (d.kind == Conventional || d.kind == Persistent)
    && d.physicalStart <= 0x1000 * f < d.physicalStart + 0x1000 * d.numberOfPages
  }

  // Every region that the loader takes is page-aligned and ends below the limit
  ghost predicate RegionsBelow(descriptors: seq<Descriptor>, limit: nat)
  {
    forall d :: d in descriptors && (d.kind == Conventional || d.kind == Persistent) ==>
      d.physicalStart % 0x1000 == 0 && d.physicalStart + 0x1000 * d.numberOfPages <= limit
  }

  // No two of them overlap
  ghost predicate RegionsApart(descriptors: seq<Descriptor>)
  {
    forall i, j, f: nat :: 0 <= i < j < |descriptors| && Takes(descriptors[i], f) ==> !Takes(descriptors[j], f)
  }

  /** For aligned regions that do not wrap, the frames that the loop reaches are those of the region. */
  lemma TakesExactly(d: Descriptor, f: nat)
    requires d.kind == Conventional || d.kind == Persistent ==>
               d.physicalStart % 0x1000 == 0
               && d.physicalStart + 0x1000 * d.numberOfPages < 0x1_0000_0000_0000_0000
    ensures Covers(d, f) <==> Takes(d, f)
  {
    if Usable(d) {
      var s := d.physicalStart / 0x1000;
      assert d.physicalStart == 0x1000 * s;
      RemainderUnique(End(d), 0x1000, s + d.numberOfPages, 0);
    }
  }

  predicate Covers(d: Descriptor, f: nat)
  {
    Usable(d) && d.physicalStart / PAGE_SIZE <= f < End(d) / PAGE_SIZE
  }

  function Frames(low: nat, high: nat): (r: seq<nat>)
    requires low <= high
    decreases high
    ensures |r| == high - low && forall k :: 0 <= k < |r| ==> r[k] == low + k
  {
    if low == high then [] else Frames(low, high - 1) + [high - 1]
  }

  function FramesOf(d: Descriptor): seq<nat>
  {
    if Usable(d) && d.physicalStart / PAGE_SIZE <= End(d) / PAGE_SIZE
    then Frames(d.physicalStart / PAGE_SIZE, End(d) / PAGE_SIZE) else []
  }

  // The frames in the order in which the loop reaches them
  function PushOrder(descriptors: seq<Descriptor>): seq<nat>
  {
    if descriptors == [] then []
    else PushOrder(descriptors[..|descriptors| - 1]) + FramesOf(descriptors[|descriptors| - 1])
  }

  lemma {:induction false} PushOrderHas(descriptors: seq<Descriptor>, f: nat)
    ensures f in PushOrder(descriptors) <==> exists d :: d in descriptors && Covers(d, f)
  {
    if descriptors != [] {
      var before, last := descriptors[..|descriptors| - 1], descriptors[|descriptors| - 1];
      PushOrderHas(before, f);
      assert descriptors == before + [last];
      FramesOfHas(last, f);
    }
  }

  lemma FramesOfHas(d: Descriptor, f: nat)
    ensures f in FramesOf(d) <==> Covers(d, f)
  {
    if Covers(d, f) {
      assert FramesOf(d)[f - d.physicalStart / PAGE_SIZE] == f;
    }
  }

  ghost predicate Disjoint(descriptors: seq<Descriptor>)
  {
    forall i, j, f: nat :: 0 <= i < j < |descriptors| && Covers(descriptors[i], f) ==> !Covers(descriptors[j], f)
  }

  /** Disjoint regions push no frame twice. */
  lemma {:induction false} DisjointPushesOnce(descriptors: seq<Descriptor>)
    requires Disjoint(descriptors)
    ensures NoDuplicates(PushOrder(descriptors))
  {
    if descriptors != [] {
      var before, last := descriptors[..|descriptors| - 1], descriptors[|descriptors| - 1];
      DisjointPushesOnce(before);
      var order, more := PushOrder(before), FramesOf(last);
      forall i, j | 0 <= i < |order| && 0 <= j < |more|
        ensures order[i] != more[j]
      {
        PushOrderHas(before, order[i]);
        FramesOfHas(last, more[j]);
        var d :| d in before && Covers(d, order[i]);
        var k :| 0 <= k < |before| && before[k] == d;
        assert descriptors[k] == d;
      }
    }
  }

  // ---------------------------------------------------------------- the list

  // Exactly the frames of usable regions are free, all others reserved
  ghost predicate StatesFrom(pfn: seq<PfnEntry>, descriptors: seq<Descriptor>)
  {
    forall f :: 0 <= f < |pfn| ==>
      pfn[f].state == if exists d :: d in descriptors && Covers(d, f) then Free else Reserved
  }

  // A frame is free exactly if some region that the loader takes holds it
  ghost predicate StatesAsReported(pfn: seq<PfnEntry>, descriptors: seq<Descriptor>)
  {
    forall f :: 0 <= f < |pfn| ==>
      pfn[f].state == if exists d :: d in descriptors && Takes(d, f) then Free else Reserved
  }

  lemma StatesReported(pfn: seq<PfnEntry>, descriptors: seq<Descriptor>)
    requires StatesFrom(pfn, descriptors) && |pfn| <= MAX_FRAMES && RegionsBelow(descriptors, 0x1000 * |pfn|)
    ensures StatesAsReported(pfn, descriptors)
  {
    hide Covers, Takes;
    forall f, d | 0 <= f < |pfn| && d in descriptors
      ensures Covers(d, f) <==> Takes(d, f)
    {
      TakesExactly(d, f);
    }
  }

  lemma RegionsFit(descriptors: seq<Descriptor>, frameCount: nat)
    requires RegionsBelow(descriptors, 0x1000 * frameCount) && frameCount <= MAX_FRAMES
    ensures forall d :: d in descriptors && Usable(d) ==> WellFormed(d) && End(d) <= frameCount * PAGE_SIZE
  {
  }

  /** The list that the loop builds holds exactly the frames of the regions that are taken. */
  lemma ListedExactly(descriptors: seq<Descriptor>, limit: nat, f: nat)
    requires RegionsBelow(descriptors, limit) && limit < 0x1_0000_0000_0000_0000
    ensures f in Reversed(PushOrder(descriptors)) <==> exists d :: d in descriptors && Takes(d, f)
  {
    ReversedHas(PushOrder(descriptors), f);
    PushOrderHas(descriptors, f);
    hide Covers, Takes;
    forall d | d in descriptors
      ensures Covers(d, f) <==> Takes(d, f)
    {
      TakesExactly(d, f);
    }
  }

  /** One more region at the end of the map: its frames come first in the list, the highest of them before all
      others. */
  lemma NewestFirst(descriptors: seq<Descriptor>, d: Descriptor, k: nat)
    requires RegionsBelow([d], 0xFFFF_FFFF_FFFF_F000) && (d.kind == Conventional || d.kind == Persistent)
    ensures |Reversed(PushOrder(descriptors + [d]))| == d.numberOfPages + |Reversed(PushOrder(descriptors))|
    ensures k < d.numberOfPages ==>
              Reversed(PushOrder(descriptors + [d]))[k] == d.physicalStart / 0x1000 + d.numberOfPages - 1 - k
    ensures k < |Reversed(PushOrder(descriptors))| ==>
              Reversed(PushOrder(descriptors + [d]))[d.numberOfPages + k] == Reversed(PushOrder(descriptors))[k]
  {
    hide PushOrder, Frames, End, Reversed;
    assert d in [d];
    FrameNumbers(d);
    PushedLast(descriptors, d);
    ReversedLength(PushOrder(descriptors));
    ReversedConcat(PushOrder(descriptors), Frames(d.physicalStart / PAGE_SIZE, End(d) / PAGE_SIZE), k);
  }

  lemma PushedLast(descriptors: seq<Descriptor>, d: Descriptor)
    ensures PushOrder(descriptors + [d]) == PushOrder(descriptors) + FramesOf(d)
  {
    hide FramesOf;
    var more := descriptors + [d];
    assert more[..|more| - 1] == descriptors && more[|more| - 1] == d;
  }

  lemma FrameNumbers(d: Descriptor)
    requires Usable(d) && d.physicalStart % 0x1000 == 0
    requires d.physicalStart + 0x1000 * d.numberOfPages <= 0xFFFF_FFFF_FFFF_F000
    ensures FramesOf(d) == Frames(d.physicalStart / PAGE_SIZE, End(d) / PAGE_SIZE)
    ensures End(d) / PAGE_SIZE == d.physicalStart / PAGE_SIZE + d.numberOfPages
  {
    RemainderUnique(End(d), 0x1000, d.physicalStart / 0x1000 + d.numberOfPages, 0);
  }

  lemma {:induction false} ReversedLength(s: seq<nat>)
    ensures |Reversed(s)| == |s|
  {
    if s != [] {
      ReversedLength(s[..|s| - 1]);
    }
  }

  lemma {:induction false} ReversedConcat(a: seq<nat>, c: seq<nat>, k: nat)
    ensures |Reversed(a + c)| == |c| + |Reversed(a)|
    ensures k < |c| ==> Reversed(a + c)[k] == c[|c| - 1 - k]
    ensures k < |Reversed(a)| ==> Reversed(a + c)[|c| + k] == Reversed(a)[k]
    decreases |c|
  {
    if c == [] {
      assert a + c == a;
    } else {
      var n := |c| - 1;
      assert (a + c)[..|a| + n] == a + c[..n] && (a + c)[|a| + n] == c[n];
      ReversedConcat(a, c[..n], if k > 0 && k < |c| then k - 1 else 0);
      ReversedConcat(a, c[..n], k);
    }
  }

  // The database after the given frames of an all-reserved one were pushed
  ghost predicate Pushed(a: Allocator, frameCount: nat, order: seq<nat>)
    requires frameCount <= MAX_FRAMES
  {
    InRange(order, frameCount) && a == PushAll(AllReserved(frameCount), order)
  }

  lemma NothingPushed(frameCount: nat, descriptors: seq<Descriptor>)
    requires frameCount <= MAX_FRAMES
    ensures Pushed(AllReserved(frameCount), frameCount, PushOrder(descriptors[..0]))
  {
  }

  lemma RegionDone(a: Allocator, frameCount: nat, descriptors: seq<Descriptor>, i: nat)
    requires i < |descriptors| && frameCount <= MAX_FRAMES
    requires if Usable(descriptors[i])
             then WellFormed(descriptors[i]) && End(descriptors[i]) <= frameCount * PAGE_SIZE
                  && Pushed(a, frameCount, PushOrder(descriptors[..i])
                                           + Frames(descriptors[i].physicalStart / PAGE_SIZE,
                                                    End(descriptors[i]) / PAGE_SIZE))
             else Pushed(a, frameCount, PushOrder(descriptors[..i]))
    ensures Pushed(a, frameCount, PushOrder(descriptors[..i + 1]))
  {
    hide End, Frames, Pushed;
    var more := descriptors[..i + 1];
    assert more[..i] == descriptors[..i] && more[i] == descriptors[i];
    assert PushOrder(more) == PushOrder(more[..i]) + FramesOf(more[i]);
    assert PushOrder(descriptors[..i]) + [] == PushOrder(descriptors[..i]);
  }

  // The loop over the second memory map. Whatever the map, the database ends up as if its frames had
  // been released one by one; the list is sound if no frame repeats and none is the end marker.
  method BuildFreeList(pm: PageManager, descriptors: seq<Descriptor>)
    requires pm.ValidFrames() && pm.Db() == AllReserved(pm.pfn.Length) && pm.free == [] && pm.held == {}
    requires RegionsBelow(descriptors, 0x1000 * pm.pfn.Length)
    modifies pm`freeHead, pm`free, pm.pfn
    ensures InRange(PushOrder(descriptors), pm.pfn.Length)
    ensures pm.Db() == PushAll(AllReserved(pm.pfn.Length), PushOrder(descriptors))
    // a frame is free exactly if it lies in a region that is taken; all others stay reserved
    ensures StatesAsReported(pm.pfn[..], descriptors)
    ensures NoDuplicates(PushOrder(descriptors)) && PFN_LIST_END !in PushOrder(descriptors) ==>
              pm.ValidFrames() && pm.free == Reversed(PushOrder(descriptors))
  {
    hide Enumerates, Reversed, PushAll, AllReserved, WellFormed, StatesFrom, PushOrder, Pushed, NoDuplicates;
    hide End, Frames, InRange, Covers, RegionsBelow, StatesAsReported, Usable;
    RegionsFit(descriptors, pm.pfn.Length);
    NothingPushed(pm.pfn.Length, descriptors);
    var i := 0;
    while i < |descriptors|
      invariant 0 <= i <= |descriptors|
      invariant Pushed(pm.Db(), pm.pfn.Length, PushOrder(descriptors[..i]))
    {
      var desc := descriptors[i];
      var start, end := desc.physicalStart, End(desc);
      if Usable(desc) {
        FramesWithin(desc, pm.pfn.Length);
        PushFrames(pm, start / PAGE_SIZE, end / PAGE_SIZE, PushOrder(descriptors[..i]));
      }
      RegionDone(pm.Db(), pm.pfn.Length, descriptors, i);
      i := i + 1;
    }
    assert descriptors[..i] == descriptors;
    AllPushed(pm.Db(), pm.pfn.Length, descriptors);
    StatesReported(pm.pfn[..], descriptors);
    pm.free := Reversed(PushOrder(descriptors));
  }

  lemma FramesWithin(d: Descriptor, frameCount: nat)
    requires WellFormed(d) && End(d) <= frameCount * PAGE_SIZE
    ensures d.physicalStart / PAGE_SIZE <= End(d) / PAGE_SIZE <= frameCount
  {
  }

  /** The states follow the regions, overlapping or not. */
  lemma StatesFromMap(frameCount: nat, descriptors: seq<Descriptor>)
    requires frameCount <= MAX_FRAMES && InRange(PushOrder(descriptors), frameCount)
    ensures var a := PushAll(AllReserved(frameCount), PushOrder(descriptors));
            |a.pfn| == frameCount && StatesFrom(a.pfn, descriptors)
  {
    var order := PushOrder(descriptors);
    PushAllStates(frameCount, order);
    forall f | 0 <= f < frameCount
      ensures f in order <==> exists d :: d in descriptors && Covers(d, f)
    {
      PushOrderHas(descriptors, f);
    }
  }

  /** Disjoint regions that avoid the end marker give a sound list of exactly the frames they cover,
      newest first; every other frame stays reserved. */
  lemma ListFromMap(frameCount: nat, descriptors: seq<Descriptor>)
    requires frameCount <= MAX_FRAMES && InRange(PushOrder(descriptors), frameCount)
    requires Disjoint(descriptors) && forall d :: d in descriptors ==> !Covers(d, PFN_LIST_END)
    ensures NoDuplicates(PushOrder(descriptors)) && PFN_LIST_END !in PushOrder(descriptors)
    ensures var a := PushAll(AllReserved(frameCount), PushOrder(descriptors));
            && Enumerates(a, Reversed(PushOrder(descriptors)))
            && |a.pfn| == frameCount
            && StatesFrom(a.pfn, descriptors)
  {
    MapPushesOnce(descriptors);
    PushAllLists(frameCount, PushOrder(descriptors));
    StatesFromMap(frameCount, descriptors);
  }

  /** With less than 0xFFFFFF frames, disjoint regions are enough for a sound list of exactly their frames. */
  lemma SmallListFromMap(frameCount: nat, descriptors: seq<Descriptor>)
    requires frameCount <= 0xFF_FFFF && RegionsBelow(descriptors, 0x1000 * frameCount) && RegionsApart(descriptors)
    ensures InRange(PushOrder(descriptors), frameCount)
    ensures Enumerates(PushAll(AllReserved(frameCount), PushOrder(descriptors)), Reversed(PushOrder(descriptors)))
    ensures forall f: nat ::
              f in Reversed(PushOrder(descriptors)) <==> exists d :: d in descriptors && Takes(d, f)
  {
    SmallMapIsSound(descriptors, 0x1000 * frameCount);
    SoundMapParts(descriptors, frameCount);
    hide SoundMap, RegionsBelow, RegionsApart, Enumerates, PushAll, AllReserved, PushOrder, Takes, Reversed;
    OrderInRange(descriptors, frameCount);
    ListFromMap(frameCount, descriptors);
    forall f: nat
      ensures f in Reversed(PushOrder(descriptors)) <==> exists d :: d in descriptors && Takes(d, f)
    {
      ListedExactly(descriptors, 0x1000 * frameCount, f);
    }
  }

  lemma OrderInRange(descriptors: seq<Descriptor>, frameCount: nat)
    requires RegionsBelow(descriptors, 0x1000 * frameCount) && frameCount <= MAX_FRAMES
    ensures InRange(PushOrder(descriptors), frameCount)
  {
    forall k | 0 <= k < |PushOrder(descriptors)|
      ensures PushOrder(descriptors)[k] < frameCount
    {
      var f := PushOrder(descriptors)[k];
      PushOrderHas(descriptors, f);
      var d :| d in descriptors && Covers(d, f);
      TakesExactly(d, f);
    }
  }

  lemma MapPushesOnce(descriptors: seq<Descriptor>)
    requires Disjoint(descriptors) && forall d :: d in descriptors ==> !Covers(d, PFN_LIST_END)
    ensures NoDuplicates(PushOrder(descriptors)) && PFN_LIST_END !in PushOrder(descriptors)
  {
    DisjointPushesOnce(descriptors);
    PushOrderHas(descriptors, PFN_LIST_END);
  }

  lemma AllPushed(a: Allocator, frameCount: nat, descriptors: seq<Descriptor>)
    requires frameCount <= MAX_FRAMES && Pushed(a, frameCount, PushOrder(descriptors))
    ensures InRange(PushOrder(descriptors), frameCount) && a == PushAll(AllReserved(frameCount), PushOrder(descriptors))
    ensures |a.pfn| == frameCount && StatesFrom(a.pfn, descriptors)
    ensures NoDuplicates(PushOrder(descriptors)) && PFN_LIST_END !in PushOrder(descriptors) ==>
              Enumerates(a, Reversed(PushOrder(descriptors)))
  {
    hide Enumerates, StatesFrom, NoDuplicates;
    StatesFromMap(frameCount, descriptors);
    if NoDuplicates(PushOrder(descriptors)) && PFN_LIST_END !in PushOrder(descriptors) {
      PushAllLists(frameCount, PushOrder(descriptors));
    }
  }

  predicate InRange(order: seq<nat>, frameCount: nat)
  {
    forall k :: 0 <= k < |order| ==> order[k] < frameCount
  }

  // The inner loop: the frames of one region, lowest first
  method PushFrames(pm: PageManager, startPfn: nat, endPfn: nat, ghost before: seq<nat>)
    requires startPfn <= endPfn <= pm.pfn.Length <= MAX_FRAMES && Pushed(pm.Db(), pm.pfn.Length, before)
    modifies pm`freeHead, pm.pfn
    ensures Pushed(pm.Db(), pm.pfn.Length, before + Frames(startPfn, endPfn))
  {
    hide Enumerates, PushAll, AllReserved, Frames, Pushed;
    NoFrames(before, startPfn);
    var pfn := startPfn;
    while pfn < endPfn
      invariant startPfn <= pfn <= endPfn
      invariant Pushed(pm.Db(), pm.pfn.Length, before + Frames(startPfn, pfn))
    {
      ghost var a := pm.Db();
      FramesGrow(before, startPfn, pfn);
      PushOne(a, pm.pfn.Length, before + Frames(startPfn, pfn), pfn);
      pm.pfn[pfn] := PfnEntry(Free, pm.freeHead % 0x1_0000_0000, 0);
      pm.freeHead := pfn;
      assert pm.pfn[..] == a.pfn[pfn := PfnEntry(Free, a.head % 0x1_0000_0000, 0)];
      pfn := pfn + 1;
    }
  }

  lemma PushOne(a: Allocator, frameCount: nat, order: seq<nat>, f: nat)
    requires frameCount <= MAX_FRAMES && Pushed(a, frameCount, order) && f < frameCount
    ensures |a.pfn| == frameCount
    ensures Pushed(Allocator(a.pfn[f := PfnEntry(Free, a.head % 0x1_0000_0000, 0)], f), frameCount, order + [f])
  {
    var longer := order + [f];
    assert longer[..|longer| - 1] == order;
    PushAllStates(frameCount, order);
    assert f * PAGE_SIZE / PAGE_SIZE == f;
  }

  lemma NoFrames(before: seq<nat>, low: nat)
    ensures before + Frames(low, low) == before
  {
  }

  lemma FramesGrow(before: seq<nat>, low: nat, high: nat)
    requires low <= high
    ensures before + Frames(low, high + 1) == before + Frames(low, high) + [high]
  {
  }

  // ---------------------------------------------------------------- from memory map to page tables

  // Tables below the root that the identity map of [0, maxAddress) needs
  function BootTables(maxAddress: nat): nat
  {
    CeilDiv(maxAddress, 0x80_0000_0000) + (if maxAddress % HUGE_PAGE_SIZE != 0 then 1 else 0)
    + (if maxAddress % LARGE_PAGE_SIZE != 0 then 1 else 0)
  }

  // Disjoint page-aligned regions below the highest address, none of them with the frame at 64 GiB - 4 KiB, whose
  // number is the end marker
  ghost predicate SoundMap(descriptors: seq<Descriptor>, maxAddress: nat)
  {
    RegionsBelow(descriptors, maxAddress) && RegionsApart(descriptors)
    && forall d :: d in descriptors ==> !Takes(d, 0xFF_FFFF)
  }

  /** Memory that ends below 64 GiB needs no more than disjoint regions. */
  lemma SmallMapIsSound(descriptors: seq<Descriptor>, maxAddress: nat)
    requires RegionsBelow(descriptors, maxAddress) && RegionsApart(descriptors) && maxAddress <= 0x1000 * 0xFF_FFFF
    ensures SoundMap(descriptors, maxAddress)
  {
  }

  lemma SoundMapParts(descriptors: seq<Descriptor>, frameCount: nat)
    requires SoundMap(descriptors, 0x1000 * frameCount) && frameCount <= MAX_FRAMES
    ensures RegionsBelow(descriptors, 0x1000 * frameCount)
    ensures Disjoint(descriptors) && forall d :: d in descriptors ==> !Covers(d, PFN_LIST_END)
  {
    hide Covers, Takes;
    forall d, f: nat | d in descriptors
      ensures Covers(d, f) <==> Takes(d, f)
    {
      TakesExactly(d, f);
    }
  }

  // The state after paging was set up from the listed frames and the memory before
  ghost predicate PagingReady(mem: Memory, listed: seq<nat>, maxAddress: nat, s: Snapshot)
  {
    && PageRange(0, maxAddress)
    // every mapped address is an address of memory, and mapped to itself; all of them are mapped exactly if
    // there are enough frames, which the tables then have taken from the front of the list
    && (forall v: u64 :: s.View(v) == Fault || (v < maxAddress && s.View(v) == Identity(v)))
    && (AllIdentity(s, 0, maxAddress) <==> Supply(listed) > BootTables(maxAddress))
    && (Supply(listed) > BootTables(maxAddress) ==> s.free == listed[1 + BootTables(maxAddress)..])
    // no large page obstructs an address above the map
    && (forall v: u64, deep: nat :: deep <= 3 && v % VA_SPACE >= maxAddress ==> s.PathClear(v, deep))
    // only frames from the front of the list are used, for no tables but those that the map needs, and no memory
    // outside the listed frames is written
    && DrawnFrom(listed, s) && s.tables.Keys <= {ROOT} + ChunkNodes(0, maxAddress)
    && (forall f: nat, i: nat :: f !in listed && i < TABLE_LENGTH ==> Entry(s.mem, f, i) == Entry(mem, f, i))
  }

  // The steps of UefiMain from the second memory map to the identity map of all memory
  method SetUpPaging(pm: PageManager, descriptors: seq<Descriptor>, maxAddress: u64) returns (pml4Physical: nat)
    requires pm.ValidFrames() && pm.Db() == AllReserved(pm.pfn.Length) && pm.free == [] && pm.held == {}
    requires maxAddress == pm.pfn.Length * PAGE_SIZE && SoundMap(descriptors, maxAddress)
    requires AllClean(pm.mem[..], PushOrder(descriptors))
    modifies pm, pm.pfn, pm.mem
    ensures pm.ValidFrames() && pm.held == {}
    ensures pml4Physical != 0 <==> Supply(Reversed(PushOrder(descriptors))) > 0
    ensures pml4Physical != 0 ==>
              && pm.Valid() && pm.gPml4 == pml4Physical
              && PagingReady(old(pm.mem[..]), Reversed(PushOrder(descriptors)), maxAddress, pm.Now())
  {
    hide Enumerates, TreeInv, PushAll, AllReserved, PushOrder, Reversed, Disjoint, Covers, WellFormed, AllClean;
    hide StatesFrom;
    hide TailClear, RangeResult, PagingReady, NaturallyAligned, Snapshot.View, Supply, PageRange, NoDuplicates;
    hide RegionsBelow, SoundMap, StatesAsReported;
    ghost var listed, mem0 := Reversed(PushOrder(descriptors)), pm.mem[..];
    SoundMapParts(descriptors, pm.pfn.Length);
    MapPushesOnce(descriptors);
    SupplyPositive(listed);
    BuildFreeList(pm, descriptors);
    CleanReversed(pm.mem[..], PushOrder(descriptors));
    FirstListed(pm.Db(), listed);
    pml4Physical := pm.PagingInit();
    if pml4Physical == 0 {
      return;
    }
    ghost var empty := pm.Now();
    EmptyTreeIsClear(empty, listed[0], maxAddress);
    SomeMemory(listed[0], pm.pfn.Length, maxAddress);
    MemoryIsLow(pm.pfn.Length, maxAddress);
    var status;
    ghost var trace, cuts;
    status, trace, cuts := DirectMapRange(pm, 0, maxAddress);
    BootMap(mem0, empty, pm.Now(), listed, maxAddress);
  }

  lemma FirstListed(a: Allocator, listed: seq<nat>)
    requires Enumerates(a, listed)
    ensures listed != [] ==> listed[0] < |a.pfn|
  {
  }

  lemma SomeMemory(f: nat, frameCount: nat, maxAddress: nat)
    requires f < frameCount && maxAddress == frameCount * PAGE_SIZE
    ensures maxAddress > 0
  {
  }

  lemma CleanReversed(mem: Memory, order: seq<nat>)
    requires AllClean(mem, order)
    ensures AllClean(mem, AfterFailure(Reversed(order)))
  {
    forall f | f in AfterFailure(Reversed(order))
      ensures Clean(mem, f)
    {
      ReversedHas(order, f);
    }
  }

  lemma EmptyTreeIsClear(s: Snapshot, root: nat, end: nat)
    requires s.tables == map[ROOT := root] && TreeInv(s.mem, s.root, s.tables)
    ensures TailClear(s, 0, end) && forall v: u64, level: nat :: s.PathClear(v, level)
  {
    forall v: u64, level: nat
      ensures s.PathClear(v, level)
    {
      assert EntryAccounted(s.mem, s.tables, ROOT, Index(v, 0));
      assert forall k: nat :: PathNode(v, k) in s.tables ==> k == 0;
    }
  }

  lemma MemoryIsLow(frameCount: nat, maxAddress: nat)
    requires frameCount <= MAX_FRAMES && maxAddress == frameCount * PAGE_SIZE
    ensures PageRange(0, maxAddress) && maxAddress <= LOW_HALF_END && NaturallyAligned(0, maxAddress)
  {
  }

  lemma BootMap(mem: Memory, s: Snapshot, s': Snapshot, listed: seq<nat>, maxAddress: u64)
    requires listed != [] && Supply(listed) > 0 && s.tables == map[ROOT := listed[0]] && s.free == listed[1..]
    requires maxAddress > 0 && PageRange(0, maxAddress) && maxAddress <= LOW_HALF_END && NaturallyAligned(0, maxAddress)
    requires (forall v: u64 :: s.View(v) == Fault) && forall v: u64, level: nat :: s.PathClear(v, level)
    requires forall f: nat, i: nat :: f != listed[0] && i < TABLE_LENGTH ==> Entry(s.mem, f, i) == Entry(mem, f, i)
    requires RangeResult(s, s', 0, maxAddress)
    ensures PagingReady(mem, listed, maxAddress, s')
  {
    hide Snapshot.View, Snapshot.PathClear, DirectAt, TablesNeeded, Unserved, BootTables, AllIdentity, SomeFault;
    BootSupply(listed, maxAddress);
    assert Supply(listed) > BootTables(maxAddress) ==> s'.free == listed[1 + BootTables(maxAddress)..];
    forall v: u64, deep: nat | deep <= 3 && v % VA_SPACE >= maxAddress
      ensures s'.PathClear(v, deep)
    {
      AboveIsUnserved(v, deep, 0, maxAddress);
    }
    hide OnlyIdentities, NaturallyAligned, ChunkNodes;
    BootFrames(mem, s, s', listed);
  }

  lemma BootSupply(listed: seq<nat>, maxAddress: u64)
    requires listed != [] && Supply(listed) > 0 && maxAddress > 0 && PageRange(0, maxAddress)
             && maxAddress <= LOW_HALF_END
    ensures TablesNeeded(map[ROOT := listed[0]], 0, maxAddress) == BootTables(maxAddress)
    ensures Supply(listed[1..]) == Supply(listed) - 1
    ensures Supply(listed) > BootTables(maxAddress) ==> BootTables(maxAddress) <= |listed[1..]|
  {
    hide TablesNeeded;
    TablesForRange(listed[0], 0, maxAddress);
  }

  lemma BootFrames(mem: Memory, s: Snapshot, s': Snapshot, listed: seq<nat>)
    requires listed != [] && s.tables == map[ROOT := listed[0]] && s.free == listed[1..]
    requires forall f: nat, i: nat :: f != listed[0] && i < TABLE_LENGTH ==> Entry(s.mem, f, i) == Entry(mem, f, i)
    requires Confined(s, s')
    ensures DrawnFrom(listed, s')
    ensures forall f: nat, i: nat :: f !in listed && i < TABLE_LENGTH ==> Entry(s'.mem, f, i) == Entry(mem, f, i)
  {
    assert s.tables[ROOT] == listed[0];
    assert listed[..1] == [listed[0]];
    StillDrawnFrom(listed, s, s');
    forall f: nat, i: nat | f !in listed && i < TABLE_LENGTH
      ensures Entry(s'.mem, f, i) == Entry(mem, f, i)
    {
      if Managed(s, f) {
        DrawnFromListed(listed, s, f);
      }
    }
  }
}
