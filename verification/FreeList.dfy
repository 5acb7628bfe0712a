/**
  The physical-frame database: one entry per frame, with a LIFO list of the free frames threaded
  through the entries' offsets and ended by a sentinel.

  Allocator is the value that the globals SsPfn and SsPfnFreeHead hold. Get and Release are the two
  operations on it, as functions; the class PageManager performs them in place.
 */
module FreeList {
  import opened Bits
  import opened PageWalk

  datatype PfnState = Free | Allocated | Reserved

  datatype PfnEntry = PfnEntry(state: PfnState, offset: u32, ref: u32)

  const PFN_LIST_END := 0xFF_FFFF
  const MAX_FRAMES := 0x1_0000_0000   // a frame number is stored in 32 bits

  datatype Allocator = Allocator(pfn: seq<PfnEntry>, head: nat)

  // ---------------------------------------------------------------- what the list means

  function First(free: seq<nat>): nat
  {
    if free == [] then PFN_LIST_END else free[0]
  }

  ghost predicate NoDuplicates(free: seq<nat>)
  {
    forall i, j :: 0 <= i < j < |free| ==> free[i] != free[j]
  }

  // Following the offsets from the head visits exactly `free`, in this order, and then stops
  ghost predicate Chain(a: Allocator, free: seq<nat>)
  {
    && NoDuplicates(free)
    && (forall k :: 0 <= k < |free| ==> free[k] < |a.pfn| && free[k] != PFN_LIST_END)
    && a.head == First(free)
    && (forall k :: 0 <= k < |free| ==> a.pfn[free[k]].offset == First(free[k + 1..]))
  }

  // The chain holds all the frames whose state is Free, and no other
  ghost predicate Enumerates(a: Allocator, free: seq<nat>)
  {
    && |a.pfn| <= MAX_FRAMES
    && Chain(a, free)
    && (forall f :: 0 <= f < |a.pfn| ==> (a.pfn[f].state == Free <==> f in free))
  }

  // ---------------------------------------------------------------- the two operations

  // SsGetFreePhysicalPage: the new database and the address handed out, 0 if there is none
  function Get(a: Allocator): (Allocator, nat)
    requires a.head == PFN_LIST_END || a.head < |a.pfn| <= MAX_FRAMES
  {
    if a.head == PFN_LIST_END then (a, 0)
    else
      (Allocator(a.pfn[a.head := PfnEntry(Allocated, PFN_LIST_END, 1)], a.pfn[a.head].offset),
       a.head * PAGE_SIZE)
  }

  // SsFreePhysicalPage
  function Release(a: Allocator, address: u64): Allocator
  {
    var index := address / PAGE_SIZE;
    if index >= |a.pfn| then a
    else Allocator(a.pfn[index := PfnEntry(Free, a.head % 0x1_0000_0000, 0)], index)
  }

  lemma GetPops(a: Allocator, free: seq<nat>)
    requires Enumerates(a, free)
    ensures var (b, address) := Get(a);
            if free == [] then b == a && address == 0
            else address == free[0] * PAGE_SIZE && Enumerates(b, free[1..]) && free[0] !in free[1..]
                 && a.pfn[free[0]].state == Free && b.pfn[free[0]].state == Allocated
  {
    if free != [] {
      PopKeepsChain(a, free);
      PopMarks(a, free);
      hide Chain;
    }
  }

  lemma InRest(s: seq<nat>, f: nat)
    requires s != []
    ensures f in s <==> f == s[0] || f in s[1..]
  {
    if f in s[1..] {
      var k :| 0 <= k < |s| - 1 && s[1..][k] == f;
      assert s[k + 1] == f;
    }
    if f in s && f != s[0] {
      var k :| 0 <= k < |s| && s[k] == f;
      assert s[1..][k - 1] == f;
    }
  }

  // Only the first frame changes its state
  lemma PopMarks(a: Allocator, free: seq<nat>)
    requires Enumerates(a, free) && free != []
    ensures var b := Get(a).0;
            |b.pfn| == |a.pfn| && forall f :: 0 <= f < |b.pfn| ==> (b.pfn[f].state == Free <==> f in free[1..])
  {
    PopKeepsChain(a, free);
    hide Chain;
    var b := Get(a).0;
    forall f | 0 <= f < |b.pfn|
      ensures b.pfn[f].state == Free <==> f in free[1..]
    {
      InRest(free, f);
    }
  }

  // The rest of a chain is the chain from the offset of its first frame
  lemma PopKeepsChain(a: Allocator, free: seq<nat>)
    requires Chain(a, free) && free != [] && |a.pfn| <= MAX_FRAMES
    ensures a.head == free[0] && a.head != PFN_LIST_END && a.head < |a.pfn| && free[0] !in free[1..]
    ensures Chain(Get(a).0, free[1..])
  {
    var b := Get(a).0;
    forall k | 0 <= k < |free| - 1
      ensures b.pfn[free[1..][k]].offset == First(free[1..][k + 1..])
    {
      assert free[1..][k + 1..] == free[k + 2..];
      assert a.pfn[free[k + 1]].offset == First(free[k + 2..]);
    }
  }

  lemma ReleaseOfFrame(a: Allocator, free: seq<nat>, f: nat)
    requires Enumerates(a, free) && f < |a.pfn|
    ensures Release(a, f * PAGE_SIZE) == Allocator(a.pfn[f := PfnEntry(Free, a.head, 0)], f)
  {
    RemainderUnique(f * PAGE_SIZE, PAGE_SIZE, f, 0);
    HeadFits(a, free);
    hide Enumerates;
  }

  lemma HeadFits(a: Allocator, free: seq<nat>)
    requires Enumerates(a, free)
    ensures a.head < 0x1_0000_0000
  {
  }

  lemma ReleasePushes(a: Allocator, free: seq<nat>, f: nat)
    requires Enumerates(a, free)
    requires f < |a.pfn| && f != PFN_LIST_END && a.pfn[f].state != Free
    ensures f * PAGE_SIZE < 0x1_0000_0000_0000_0000
    ensures Enumerates(Release(a, f * PAGE_SIZE), [f] + free)
  {
    ReleaseOfFrame(a, free, f);
    PushKeepsChain(a, free, f, Allocator(a.pfn[f := PfnEntry(Free, a.head, 0)], f));
  }

  lemma PushKeepsChain(a: Allocator, free: seq<nat>, f: nat, b: Allocator)
    requires Enumerates(a, free)
    requires f < |a.pfn| && f != PFN_LIST_END && a.pfn[f].state != Free
    requires |b.pfn| == |a.pfn| && b.head == f && b.pfn[f].state == Free && b.pfn[f].offset == a.head
    requires forall g :: 0 <= g < |a.pfn| && g != f ==> b.pfn[g] == a.pfn[g]
    ensures Enumerates(b, [f] + free)
  {
    PushKeepsLinks(a, free, f, b);
    hide Chain;
  }

  lemma PushKeepsLinks(a: Allocator, free: seq<nat>, f: nat, b: Allocator)
    requires Chain(a, free) && f !in free
    requires f < |a.pfn| && f != PFN_LIST_END
    requires |b.pfn| == |a.pfn| && b.head == f && b.pfn[f].offset == a.head
    requires forall g :: 0 <= g < |a.pfn| && g != f ==> b.pfn[g] == a.pfn[g]
    ensures Chain(b, [f] + free)
  {
    var longer := [f] + free;
    forall k | 0 <= k < |longer|
      ensures b.pfn[longer[k]].offset == First(longer[k + 1..])
    {
      if k == 0 {
        assert longer[1..] == free;
      } else {
        assert longer[k + 1..] == free[k - 1 + 1..];
        assert longer[k] == free[k - 1];
      }
    }
  }

  // ---------------------------------------------------------------- when releasing is sound

  // The k-th stop of a walk over a list: a frame of it, or its end
  function Stop(free: seq<nat>, k: nat): nat
  {
    if k < |free| then free[k] else PFN_LIST_END
  }

  lemma ChainStops(a: Allocator, free: seq<nat>, k: nat)
    requires Chain(a, free) && k < |free|
    ensures free[k] < |a.pfn| && free[k] != PFN_LIST_END
    ensures a.head == Stop(free, 0) && a.pfn[free[k]].offset == Stop(free, k + 1)
  {
    assert free[k + 1..] == [] <==> k + 1 == |free|;
  }

  /** From a given database at most one chain starts: what the list holds is determined. */
  lemma {:induction false} ChainsAgree(a: Allocator, one: seq<nat>, two: seq<nat>, k: nat)
    requires Chain(a, one) && Chain(a, two) && k <= |one|
    ensures k <= |two| && one[..k] == two[..k]
  {
    if k > 0 {
      ChainsAgree(a, one, two, k - 1);
      SameStop(a, one, two, k - 1);
      hide Chain;
      assert one[..k] == one[..k - 1] + [one[k - 1]] && two[..k] == two[..k - 1] + [two[k - 1]];
    }
  }

  lemma SameStop(a: Allocator, one: seq<nat>, two: seq<nat>, k: nat)
    requires Chain(a, one) && Chain(a, two) && k < |one| && k <= |two| && one[..k] == two[..k]
    ensures k < |two| && two[k] == one[k]
  {
    ChainStops(a, one, k);
    if k > 0 {
      ChainStops(a, one, k - 1);
      ChainStops(a, two, k - 1);
      assert one[k - 1] == one[..k][k - 1] == two[k - 1];
    } else {
      ChainStarts(a, two);
    }
    hide Chain;
  }

  lemma ChainStarts(a: Allocator, free: seq<nat>)
    requires Chain(a, free)
    ensures a.head == Stop(free, 0)
  {
  }

  lemma ChainUnique(a: Allocator, one: seq<nat>, two: seq<nat>)
    requires Chain(a, one) && Chain(a, two)
    ensures one == two
  {
    ChainsAgree(a, one, two, |one|);
    ChainsAgree(a, two, one, |two|);
    assert one[..|one|] == one && two[..|two|] == two;
  }

  /** After a frame that is already on the list is pushed again, a walk over the list would have to
      repeat the old list up to that frame, and so visit it twice. */
  lemma {:induction false} PushedTwiceRepeats(a: Allocator, free: seq<nat>, f: nat, at: nat, after: seq<nat>, k: nat)
    requires Enumerates(a, free) && at < |free| && free[at] == f && k <= at
    requires Chain(Release(a, f * PAGE_SIZE), after)
    ensures k + 1 < |after| && after[k + 1] == free[k]
  {
    ReleaseOfFrame(a, free, f);
    var b := Release(a, f * PAGE_SIZE);
    assert after[0] == f;
    if k == 0 {
      assert b.pfn[after[0]].offset == First(after[0 + 1..]);
    } else {
      PushedTwiceRepeats(a, free, f, at, after, k - 1);
      assert a.pfn[free[k - 1]].offset == First(free[k - 1 + 1..]) == free[k];
      assert b.pfn[after[k]].offset == First(after[k + 1..]);
      assert free[k - 1] != f;
    }
  }

  /** SsFreePhysicalPage tests only the range of the frame number. For frames in range, the list stays
      a list of exactly the free frames if and only if the frame was not free already and is not
      the one that shares its number with the end marker. */
  lemma ReleaseSoundExactlyWhen(a: Allocator, free: seq<nat>, f: nat)
    requires Enumerates(a, free) && f < |a.pfn|
    ensures (exists after :: Enumerates(Release(a, f * PAGE_SIZE), after))
            <==> a.pfn[f].state != Free && f != PFN_LIST_END
  {
    var b := Release(a, f * PAGE_SIZE);
    if a.pfn[f].state != Free && f != PFN_LIST_END {
      ReleasePushes(a, free, f);
    } else {
      forall after | Enumerates(b, after)
        ensures false
      {
        assert b.pfn[f].state == Free;
        assert f in after;
        if f != PFN_LIST_END {
          var at :| 0 <= at < |free| && free[at] == f;
          PushedTwiceRepeats(a, free, f, at, after, at);
        }
      }
    }
  }

  /** In a database of less than 0xFFFFFF frames every frame is safe to release, once it is not free. */
  lemma SmallReleaseExactlyWhen(a: Allocator, free: seq<nat>, f: nat)
    requires Enumerates(a, free) && f < |a.pfn| <= 0xFF_FFFF
    ensures (exists after :: Enumerates(Release(a, f * 0x1000), after)) <==> a.pfn[f].state != Free
  {
    hide Enumerates, Release;
    ReleaseSoundExactlyWhen(a, free, f);
  }

  /** Frame 0xFFFFFF can never be given back: no list is sound after that. */
  lemma MarkerIsLost(a: Allocator)
    requires 0xFF_FFFF < |a.pfn| <= 0x1_0000_0000
    ensures forall after :: !Enumerates(Release(a, 0x1000 * 0xFF_FFFF), after)
  {
    var b := Release(a, 0x1000 * 0xFF_FFFF);
    assert b.pfn[0xFF_FFFF].state == Free && |b.pfn| == |a.pfn|;
    forall after
      ensures !Enumerates(b, after)
    {
      if Enumerates(b, after) {
        MarkerNeverListed(b, after);
        assert false;
      }
    }
  }

  lemma MarkerNeverListed(a: Allocator, free: seq<nat>)
    requires Enumerates(a, free) && 0xFF_FFFF < |a.pfn|
    ensures a.pfn[0xFF_FFFF].state != Free
  {
  }

  // ---------------------------------------------------------------- building the list

  function AllReserved(frameCount: nat): Allocator
  {
    Allocator(seq(frameCount, _ => PfnEntry(Reserved, PFN_LIST_END, 0)), PFN_LIST_END)
  }

  // Frames pushed one after the other onto the list; a push is what a release does
  function PushAll(a: Allocator, order: seq<nat>): Allocator
    requires forall k :: 0 <= k < |order| ==> order[k] < MAX_FRAMES
  {
    if order == [] then a
    else Release(PushAll(a, order[..|order| - 1]), order[|order| - 1] * PAGE_SIZE)
  }

  function Reversed(s: seq<nat>): seq<nat>
  {
    if s == [] then [] else [s[|s| - 1]] + Reversed(s[..|s| - 1])
  }

  lemma {:induction false} ReversedHas(s: seq<nat>, x: nat)
    ensures x in Reversed(s) <==> x in s
  {
    if s != [] {
      ReversedHas(s[..|s| - 1], x);
      assert s == s[..|s| - 1] + [s[|s| - 1]];
    }
  }

  lemma {:induction false} PushAllStates(frameCount: nat, order: seq<nat>)
    requires frameCount <= MAX_FRAMES && forall k :: 0 <= k < |order| ==> order[k] < frameCount
    ensures var a := PushAll(AllReserved(frameCount), order);
            && |a.pfn| == frameCount
            && forall f :: 0 <= f < frameCount ==> a.pfn[f].state == if f in order then Free else Reserved
  {
    if order != [] {
      var last := order[|order| - 1];
      PushAllStates(frameCount, order[..|order| - 1]);
      assert order == order[..|order| - 1] + [last];
      assert last * PAGE_SIZE / PAGE_SIZE == last;
    }
  }

  /** Distinct frames other than the end marker make a list of exactly themselves, newest first. */
  lemma {:induction false} PushAllLists(frameCount: nat, order: seq<nat>)
    requires frameCount <= MAX_FRAMES && forall k :: 0 <= k < |order| ==> order[k] < frameCount
    requires NoDuplicates(order) && PFN_LIST_END !in order
    ensures Enumerates(PushAll(AllReserved(frameCount), order), Reversed(order))
  {
    if order != [] {
      var before, last := order[..|order| - 1], order[|order| - 1];
      assert forall f :: f in before ==> f in order;
      PushAllLists(frameCount, before);
      PushAllStates(frameCount, before);
      assert last !in before;
      ReleasePushes(PushAll(AllReserved(frameCount), before), Reversed(before), last);
    }
  }

  // A list that does not end is not mended by pushing more frames
  lemma EndlessStays(a: Allocator, f: nat, after: seq<nat>)
    requires f < |a.pfn| <= MAX_FRAMES && f != PFN_LIST_END && a.head < 0x1_0000_0000
    requires Chain(Release(a, f * PAGE_SIZE), after)
    ensures after != [] && Chain(a, after[1..])
  {
    assert f * PAGE_SIZE / PAGE_SIZE == f;
    TailOfChain(a, f, Release(a, f * PAGE_SIZE), after);
  }

  lemma TailOfChain(a: Allocator, f: nat, b: Allocator, after: seq<nat>)
    requires f < |a.pfn| && f != PFN_LIST_END && Chain(b, after)
    requires |b.pfn| == |a.pfn| && b.head == f && b.pfn[f].offset == a.head
    requires forall g :: 0 <= g < |a.pfn| && g != f ==> b.pfn[g] == a.pfn[g]
    ensures after != [] && Chain(a, after[1..])
  {
    var rest := after[1..];
    assert b.pfn[after[0]].offset == First(after[0 + 1..]);
    forall k | 0 <= k < |rest|
      ensures a.pfn[rest[k]].offset == First(rest[k + 1..])
    {
      assert rest[k] == after[k + 1] && rest[k + 1..] == after[k + 1 + 1..];
      assert after[k + 1] != after[0];
    }
  }

  lemma {:induction false} RepetitionIsEndless(frameCount: nat, order: seq<nat>, after: seq<nat>)
    requires frameCount <= MAX_FRAMES && forall k :: 0 <= k < |order| ==> order[k] < frameCount
    requires PFN_LIST_END !in order && Chain(PushAll(AllReserved(frameCount), order), after)
    ensures NoDuplicates(order)
  {
    if order != [] {
      var before, last := order[..|order| - 1], order[|order| - 1];
      var a := PushAll(AllReserved(frameCount), before);
      assert order == before + [last];
      PushAllStates(frameCount, before);
      PushAllHead(frameCount, before);
      EndlessStays(a, last, after);
      RepetitionIsEndless(frameCount, before, after[1..]);
      if last in before {
        PushAllLists(frameCount, before);
        ReversedHas(before, last);
        var free := Reversed(before);
        var at :| 0 <= at < |free| && free[at] == last;
        PushedTwiceRepeats(a, free, last, at, after, at);
        assert false;
      }
    }
  }

  lemma PushAllHead(frameCount: nat, order: seq<nat>)
    requires frameCount <= MAX_FRAMES && forall k :: 0 <= k < |order| ==> order[k] < frameCount
    ensures PushAll(AllReserved(frameCount), order).head < 0x1_0000_0000
  {
    if order != [] {
      PushAllStates(frameCount, order[..|order| - 1]);
      assert order[|order| - 1] * PAGE_SIZE / PAGE_SIZE == order[|order| - 1];
    }
  }

  /** Building the list works exactly when no frame is pushed twice and the frame whose number is the
      end marker is not pushed; the loop tests neither. */
  lemma ListBuiltExactlyWhen(frameCount: nat, order: seq<nat>)
    requires frameCount <= MAX_FRAMES && forall k :: 0 <= k < |order| ==> order[k] < frameCount
    ensures (exists free :: Enumerates(PushAll(AllReserved(frameCount), order), free))
            <==> NoDuplicates(order) && PFN_LIST_END !in order
  {
    var a := PushAll(AllReserved(frameCount), order);
    PushAllStates(frameCount, order);
    if NoDuplicates(order) && PFN_LIST_END !in order {
      PushAllLists(frameCount, order);
    } else {
      forall free | Enumerates(a, free)
        ensures false
      {
        if PFN_LIST_END !in order {
          RepetitionIsEndless(frameCount, order, free);
        }
      }
    }
  }

  /** Below 0xFFFFFF frames, building the list works exactly when no frame is pushed twice. */
  lemma SmallListExactlyWhen(frameCount: nat, order: seq<nat>)
    requires frameCount <= 0xFF_FFFF && forall k :: 0 <= k < |order| ==> order[k] < frameCount
    ensures (exists free :: Enumerates(PushAll(AllReserved(frameCount), order), free)) <==> NoDuplicates(order)
  {
    ListBuiltExactlyWhen(frameCount, order);
    hide Enumerates, NoDuplicates, PushAll;
    assert PFN_LIST_END !in order;
  }

  // ---------------------------------------------------------------- counting states

  function Count(pfn: seq<PfnEntry>, s: PfnState): nat
  {
    if pfn == [] then 0 else Count(pfn[1..], s) + (if pfn[0].state == s then 1 else 0)
  }

  lemma {:induction false} CountUpdate(pfn: seq<PfnEntry>, f: nat, e: PfnEntry, s: PfnState)
    requires f < |pfn|
    ensures Count(pfn[f := e], s)
            == Count(pfn, s) - (if pfn[f].state == s then 1 else 0) + (if e.state == s then 1 else 0)
  {
    if f == 0 {
      assert pfn[0 := e][1..] == pfn[1..];
    } else {
      CountUpdate(pfn[1..], f - 1, e, s);
      assert pfn[f := e][1..] == pfn[1..][f - 1 := e];
    }
  }

  lemma {:induction false} CountNone(pfn: seq<PfnEntry>, s: PfnState)
    requires forall f :: 0 <= f < |pfn| ==> pfn[f].state != s
    ensures Count(pfn, s) == 0
  {
    if pfn != [] {
      CountNone(pfn[1..], s);
    }
  }

  /** The list is as long as there are free frames. */
  lemma {:induction false} ListLength(a: Allocator, free: seq<nat>)
    requires Enumerates(a, free)
    ensures |free| == Count(a.pfn, Free)
    decreases |free|
  {
    if free == [] {
      CountNone(a.pfn, Free);
    } else {
      GetPops(a, free);
      ListLength(Get(a).0, free[1..]);
      CountUpdate(a.pfn, free[0], PfnEntry(Allocated, PFN_LIST_END, 1), Free);
    }
  }

  // ---------------------------------------------------------------- whole runs

  datatype Op = GetPage | ReleasePage(address: u64)

  // SsFreePhysicalPage ignores an address beyond the last frame
  predicate Releases(a: Allocator, op: Op, f: nat)
  {
    op.ReleasePage? && op.address / PAGE_SIZE == f && f < |a.pfn|
  }

  // A caller releases only frames that are handed out
  ghost predicate Legal(a: Allocator, op: Op)
  {
    forall f: nat :: Releases(a, op, f) ==> a.pfn[f].state == Allocated && f != PFN_LIST_END
  }

  ghost predicate Sound(a: Allocator)
  {
    exists free :: Enumerates(a, free)
  }

  ghost function Step(a: Allocator, op: Op): Allocator
    requires Sound(a)
  {
    if op.GetPage? then Get(a).0 else Release(a, op.address)
  }

  // The address an operation hands out; 0 for a release
  ghost function Output(a: Allocator, op: Op): nat
    requires Sound(a)
  {
    if op.GetPage? then Get(a).1 else 0
  }

  lemma StepSound(a: Allocator, op: Op)
    requires Sound(a) && Legal(a, op)
    ensures Sound(Step(a, op)) && |Step(a, op).pfn| == |a.pfn|
    ensures Count(Step(a, op).pfn, Free) + Count(Step(a, op).pfn, Allocated)
            == Count(a.pfn, Free) + Count(a.pfn, Allocated)
    ensures Count(Step(a, op).pfn, Reserved) == Count(a.pfn, Reserved)
  {
    var free :| Enumerates(a, free);
    if op.GetPage? {
      GetPops(a, free);
      if free != [] {
        var e := PfnEntry(Allocated, PFN_LIST_END, 1);
        CountUpdate(a.pfn, a.head, e, Free);
        CountUpdate(a.pfn, a.head, e, Allocated);
        CountUpdate(a.pfn, a.head, e, Reserved);
      }
    } else {
      var f := op.address / PAGE_SIZE;
      if f < |a.pfn| {
        assert Releases(a, op, f);
        ReleasePushes(a, free, f);
        assert Release(a, op.address) == Release(a, f * PAGE_SIZE);
        var e := PfnEntry(Free, a.head % 0x1_0000_0000, 0);
        CountUpdate(a.pfn, f, e, Free);
        CountUpdate(a.pfn, f, e, Allocated);
        CountUpdate(a.pfn, f, e, Reserved);
      }
    }
  }

  ghost predicate LegalRun(a: Allocator, ops: seq<Op>)
    requires Sound(a)
    decreases |ops|
  {
    ops == [] || (Legal(a, ops[0]) && (StepSound(a, ops[0]); LegalRun(Step(a, ops[0]), ops[1..])))
  }

  ghost function Run(a: Allocator, ops: seq<Op>): Allocator
    requires Sound(a) && LegalRun(a, ops)
    decreases |ops|
  {
    if ops == [] then a
    else
      StepSound(a, ops[0]);
      Run(Step(a, ops[0]), ops[1..])
  }

  ghost function Outputs(a: Allocator, ops: seq<Op>): (r: seq<nat>)
    requires Sound(a) && LegalRun(a, ops)
    ensures |r| == |ops|
    decreases |ops|
  {
    if ops == [] then []
    else
      StepSound(a, ops[0]);
      [Output(a, ops[0])] + Outputs(Step(a, ops[0]), ops[1..])
  }

  /** After any legal run the list is again a finite, repetition-free list of exactly the free
      frames, and frames only move between Free and Allocated. */
  lemma {:induction false} RunConserves(a: Allocator, ops: seq<Op>)
    requires Sound(a) && LegalRun(a, ops)
    ensures var b := Run(a, ops);
            && Sound(b) && |b.pfn| == |a.pfn|
            && Count(b.pfn, Free) + Count(b.pfn, Allocated) == Count(a.pfn, Free) + Count(a.pfn, Allocated)
            && Count(b.pfn, Reserved) == Count(a.pfn, Reserved)
    decreases |ops|
  {
    if ops != [] {
      StepSound(a, ops[0]);
      RunConserves(Step(a, ops[0]), ops[1..]);
    }
  }

  /** One operation neither hands out a frame that is in use nor changes its state, unless it
      releases that frame. */
  lemma HeldThroughStep(a: Allocator, op: Op, f: nat)
    requires Sound(a) && Legal(a, op)
    requires 0 < f < |a.pfn| && a.pfn[f].state == Allocated && !Releases(a, op, f)
    ensures Output(a, op) != f * PAGE_SIZE
    ensures |Step(a, op).pfn| == |a.pfn|
    ensures Step(a, op).pfn[f].state == Allocated
  {
    var free :| Enumerates(a, free);
    GetPops(a, free);
  }

  /** A frame in use is handed out again only after a release of it. */
  lemma {:induction false} HeldUntilReleased(a: Allocator, ops: seq<Op>, f: nat, k: nat) returns (i: nat)
    requires Sound(a) && LegalRun(a, ops) && k < |ops|
    requires 0 < f < |a.pfn| && a.pfn[f].state == Allocated
    requires Outputs(a, ops)[k] == f * PAGE_SIZE
    ensures i < k && Releases(a, ops[i], f)
    decreases k
  {
    hide Enumerates, Get, Release, Count, Legal, Sound;
    if Releases(a, ops[0], f) {
      i := 0;
    } else {
      HeldThroughStep(a, ops[0], f);
      StepSound(a, ops[0]);
      i := HeldUntilReleased(Step(a, ops[0]), ops[1..], f, k - 1);
      i := i + 1;
    }
  }

  lemma FirstHandOut(a: Allocator, ops: seq<Op>, j: nat) returns (k: nat)
    requires Sound(a) && LegalRun(a, ops) && 0 < j < |ops|
    requires Outputs(a, ops)[0] == Outputs(a, ops)[j] != 0
    ensures 0 < k < j && Releases(a, ops[k], Outputs(a, ops)[0] / PAGE_SIZE)
  {
    StepSound(a, ops[0]);
    var f := GetHandsOut(a);
    k := HeldUntilReleased(Step(a, ops[0]), ops[1..], f, j - 1);
    k := k + 1;
  }

  lemma GetHandsOut(a: Allocator) returns (f: nat)
    requires Sound(a) && Get(a).1 != 0
    ensures 0 < f < |Get(a).0.pfn| == |a.pfn| && Get(a).1 == f * PAGE_SIZE && Get(a).0.pfn[f].state == Allocated
  {
    var free :| Enumerates(a, free);
    GetPops(a, free);
    f := free[0];
  }

  /** No frame is handed out twice without having been released in between. */
  lemma {:induction false} NoDoubleHandOut(a: Allocator, ops: seq<Op>, i: nat, j: nat)
    requires Sound(a) && LegalRun(a, ops) && i < j < |ops|
    requires Outputs(a, ops)[i] == Outputs(a, ops)[j] != 0
    ensures exists k :: i < k < j && Releases(a, ops[k], Outputs(a, ops)[i] / PAGE_SIZE)
    decreases i
  {
    hide Enumerates, Get, Release, Count, Legal;
    if i > 0 {
      StepSound(a, ops[0]);
      var b, rest := Step(a, ops[0]), ops[1..];
      NoDoubleHandOut(b, rest, i - 1, j - 1);
      var f := Outputs(a, ops)[i] / PAGE_SIZE;
      var k :| i - 1 < k < j - 1 && Releases(b, rest[k], f);
      assert Releases(a, ops[k + 1], f);
    } else {
      var k := FirstHandOut(a, ops, j);
    }
  }
}
