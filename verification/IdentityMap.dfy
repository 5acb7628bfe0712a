/**
  DirectMapRange, in place: what it leaves for every address, how many frames it takes, and what happens when
  these run out.
 */
module IdentityMap {
  import opened Bits
  import opened PageWalk
  import opened PageTree
  import opened Mapping
  import opened Paging
  import opened Separation
  import opened DirectMap
  import opened TableCost

  // The part of [cur, end) that huge pages do not cover has no huge pages yet, and the part that
  // large pages do not cover either has no large pages
  ghost predicate TailClear(s: Snapshot, cur: nat, end: nat)
    requires cur <= end
  {
    forall v: u64 :: cur <= v < end ==>
      && (end - v <= (end - cur) % HUGE_PAGE_SIZE ==> s.PathClear(v, 2))
      && (end - v <= (end - cur) % LARGE_PAGE_SIZE ==> s.PathClear(v, 3))
  }

  lemma ChunkPathClear(s: Snapshot, cur: nat, end: nat)
    requires PageRange(cur, end) && cur < end && TailClear(s, cur, end)
    ensures ChunkLevel(end - cur) > 1 ==> s.PathClear(cur, ChunkLevel(end - cur))
  {
    hide NoLargePage;
  }

  lemma TailStaysClear(s: Snapshot, s': Snapshot, cur: nat, next: nat, end: nat, level: nat)
    requires PageRange(cur, end) && cur < end && end <= VA_SPACE
    requires level == ChunkLevel(end - cur) && next == cur + Span(level)
    requires TailClear(s, cur, end) && ClearElsewhere(s, s', cur, level)
    ensures next <= end && TailClear(s', next, end)
  {
    hide NoLargePage, Slot;
    ChunkFits(cur, end);
    TailShrinks(end - cur, level);
    forall v: u64 | next <= v < end
      ensures (end - v <= (end - next) % HUGE_PAGE_SIZE ==> s'.PathClear(v, 2))
      ensures (end - v <= (end - next) % LARGE_PAGE_SIZE ==> s'.PathClear(v, 3))
    {
      EarlierSlot(cur, v, level);
    }
  }

  lemma TailShrinks(n: nat, level: nat)
    requires n > 0 && level == ChunkLevel(n) && Span(level) <= n
    ensures (n - Span(level)) % HUGE_PAGE_SIZE <= n % HUGE_PAGE_SIZE
    ensures (n - Span(level)) % LARGE_PAGE_SIZE <= n % LARGE_PAGE_SIZE
  {
  }

  // One round of the loop: the largest page that fits the rest, whatever the call returns
  method MapChunk(pm: PageManager, currentPhysical: u64, physicalEnd: u64, flags: u64) returns (next: nat)
    requires pm.Valid() && flags == 3
    requires PageRange(currentPhysical, physicalEnd) && currentPhysical < physicalEnd
    requires TailClear(pm.Now(), currentPhysical, physicalEnd)
    modifies pm`freeHead, pm`free, pm`held, pm`tables, pm.pfn, pm.mem
    ensures pm.Valid() && pm.held == old(pm.held)
    ensures next == currentPhysical + Span(ChunkLevel(physicalEnd - currentPhysical)) && next <= physicalEnd
    ensures PageRange(next, physicalEnd)
    ensures RoundResult(old(pm.Now()), pm.Now(), currentPhysical, next, physicalEnd)
  {
    hide MapResult, PageManager.Valid, TailClear;
    ghost var level := ChunkLevel(physicalEnd - currentPhysical);
    ghost var before := pm.Now();
    ChunkFits(currentPhysical, physicalEnd);
    ChunkPathClear(before, currentPhysical, physicalEnd);
    var virtualAddress := currentPhysical;
    var remaining := physicalEnd - currentPhysical;
    var status;
    if remaining >= HUGE_PAGE_SIZE {
      status := pm.MapHugePage(virtualAddress, currentPhysical, flags);
      next := currentPhysical + HUGE_PAGE_SIZE;
    } else if remaining >= LARGE_PAGE_SIZE {
      status := pm.MapLargePage(virtualAddress, currentPhysical, flags);
      next := currentPhysical + LARGE_PAGE_SIZE;
    } else {
      status := pm.MapPage(virtualAddress, currentPhysical, flags);
      next := currentPhysical + PAGE_SIZE;
    }
    ResultStatus(before, pm.Now(), status, virtualAddress, virtualAddress, level, ChunkFlags(level));
  }

  lemma ResultStatus(s: Snapshot, s': Snapshot, status: Status, va: u64, pa: u64, level: nat, flags: u64)
    requires MapResult(s, s', status, va, pa, level, flags)
    ensures status == if Missing(s.tables, va, level) <= Supply(s.free) then Success else OutOfResources
  {
  }

  // The state after a round: one page of the level chosen was asked for
  ghost predicate RoundResult(s: Snapshot, s': Snapshot, cur: nat, next: nat, end: nat)
    requires PageRange(cur, end) && cur < end
  {
    var level := ChunkLevel(end - cur);
    var status := if Missing(s.tables, cur, level) <= Supply(s.free) then Success else OutOfResources;
    next == cur + Span(level) && MapResult(s, s', status, cur, cur, level, ChunkFlags(level))
  }

  // After the chunks of [start, cur) were mapped: the frames they took are gone from the list, the
  // rest of the range needs what is left of its tables, and mapping it will complete the translation of
  // every address
  ghost predicate Progress(s0: Snapshot, s: Snapshot, start: nat, cur: nat, end: nat, taken: nat)
    requires PageRange(start, end) && PageRange(cur, end)
  {
    && taken + TablesNeeded(s.tables, cur, end) == TablesNeeded(s0.tables, start, end)
    && taken <= Supply(s0.free) && s.free == s0.free[taken..]
    && forall v: u64 :: DirectAt(s.View(v), cur, end, v) == DirectAt(s0.View(v), start, end, v)
  }

  /** A round for which there are frames makes progress. */
  lemma ProgressStep(s0: Snapshot, s: Snapshot, s': Snapshot, start: nat, cur: u64, next: nat, end: nat, taken: nat)
    requires PageRange(start, end) && PageRange(cur, end) && cur < end && PageRange(next, end) && end <= VA_SPACE
    requires TreeInv(s.mem, s.root, s.tables)
    requires Progress(s0, s, start, cur, end, taken) && RoundResult(s, s', cur, next, end)
    requires Missing(s.tables, cur, ChunkLevel(end - cur)) <= Supply(s.free)
    ensures Progress(s0, s', start, next, end, taken + Missing(s.tables, cur, ChunkLevel(end - cur)))
  {
    hide *;
    RoundCost(s, s', cur, next, end);
    ProgressBy(s0, s, s', start, cur, next, end, taken, Missing(s.tables, cur, ChunkLevel(end - cur)));
  }

  lemma ProgressBy(s0: Snapshot, s: Snapshot, s': Snapshot, start: nat, cur: nat, next: nat, end: nat, taken: nat,
                   m: nat)
    requires PageRange(start, end) && PageRange(cur, end) && PageRange(next, end)
    requires Progress(s0, s, start, cur, end, taken) && m <= Supply(s.free) <= |s.free| && s'.free == s.free[m..]
    requires TablesNeeded(s.tables, cur, end) == m + TablesNeeded(s'.tables, next, end)
    requires forall v: u64 :: DirectAt(s'.View(v), next, end, v) == DirectAt(s.View(v), cur, end, v)
    ensures Progress(s0, s', start, next, end, taken + m)
  {
    hide TablesNeeded, Supply, Snapshot.View, PageRange, DirectAt;
    SupplyAfter(s0.free, taken);
    DropDrop(s0.free, taken, m);
  }

  // As long as all rounds succeeded and the frames suffice for the range, they suffice for the next round
  lemma EnoughForRound(s0: Snapshot, s: Snapshot, start: nat, cur: nat, end: nat, taken: nat)
    requires PageRange(start, end) && PageRange(cur, end) && cur < end && TreeInv(s.mem, s.root, s.tables)
    requires Progress(s0, s, start, cur, end, taken) && TablesNeeded(s0.tables, start, end) <= Supply(s0.free)
    ensures Missing(s.tables, cur, ChunkLevel(end - cur)) <= Supply(s.free)
  {
    hide Snapshot.View, TablesNeeded, DirectAt, TreeInv;
    SupplyAfter(s0.free, taken);
    MissingIsNeeded(s.mem, s.root, s.tables, cur, end);
  }

  // What a round takes, and what it leaves to do
  lemma RoundCost(s: Snapshot, s': Snapshot, cur: nat, next: nat, end: nat)
    requires PageRange(cur, end) && cur < end && PageRange(next, end) && end <= VA_SPACE
    requires RoundResult(s, s', cur, next, end) && TreeInv(s.mem, s.root, s.tables)
    requires Missing(s.tables, cur, ChunkLevel(end - cur)) <= Supply(s.free)
    ensures var m := Missing(s.tables, cur, ChunkLevel(end - cur));
            && m <= Supply(s.free) <= |s.free| && s'.free == s.free[m..]
            && TablesNeeded(s.tables, cur, end) == m + TablesNeeded(s'.tables, next, end)
    ensures forall v: u64 :: DirectAt(s'.View(v), next, end, v) == DirectAt(s.View(v), cur, end, v)
  {
    var level := ChunkLevel(end - cur);
    var m := Missing(s.tables, cur, level);
    assert m <= Supply(s.free) <= |s.free|;
    ChunkDone(s, s', cur, next, end, level);
    hide RoundResult, Missing, Supply, ChunkLevel, TreeInv, Snapshot.View, ChunkNodes, Prune, Extend;
    ChunkCost(s.mem, s.root, s.tables, cur, next, end, level, s.free[..m]);
    forall v: u64
      ensures DirectAt(s'.View(v), next, end, v) == DirectAt(s.View(v), cur, end, v)
    {
      DirectStep(s.View(v), cur, next, end, v);
    }
  }

  // ---------------------------------------------------------------- when the frames run out

  // An address of [start, cur) that faults, and that no later chunk reaches
  ghost predicate HoleAt(s: Snapshot, start: nat, cur: nat, end: nat, v: u64)
    requires cur <= end
  {
    start <= v < end && (cur < end ==> v + Span(ChunkLevel(end - cur)) <= cur) && s.View(v) == Fault
  }

  ghost predicate Hole(s: Snapshot, start: nat, cur: nat, end: nat)
    requires cur <= end
  {
    exists v: u64 :: HoleAt(s, start, cur, end, v)
  }

  /** A round that fails leaves the first address of its chunk unmapped ... */
  lemma HoleStarts(s: Snapshot, s': Snapshot, start: nat, cur: nat, next: nat, end: nat)
    requires start <= cur < end && PageRange(cur, end) && PageRange(next, end) && TreeInv(s.mem, s.root, s.tables)
    requires TailClear(s, cur, end) && RoundResult(s, s', cur, next, end)
    requires Missing(s.tables, cur, ChunkLevel(end - cur)) > Supply(s.free)
    ensures Hole(s', start, next, end)
  {
    var level := ChunkLevel(end - cur);
    if level == 1 {
      ClearToLevel1(s.mem, s.root, s.tables, cur);
    } else {
      ChunkPathClear(s, cur, end);
    }
    MissingFaults(s, cur, level);
    RoundFailed(s, s', cur, next, end);
    hide Snapshot.View, RoundResult, TailClear, TreeInv;
    LevelsGrow(end - cur, end - next);
    assert HoleAt(s', start, next, end, cur);
  }

  lemma RoundFailed(s: Snapshot, s': Snapshot, cur: nat, next: nat, end: nat)
    requires PageRange(cur, end) && cur < end && RoundResult(s, s', cur, next, end)
    requires Missing(s.tables, cur, ChunkLevel(end - cur)) > Supply(s.free)
    ensures next == cur + Span(ChunkLevel(end - cur)) && s'.View(cur) == s.View(cur)
  {
    hide Snapshot.View, ClearElsewhere, OthersUntouched, Extend, Prune, MapAt;
  }

  lemma LevelsGrow(m: nat, n: nat)
    requires n <= m
    ensures Span(ChunkLevel(n)) <= Span(ChunkLevel(m))
  {
  }

  /** An address whose path lacks a table and meets no large page is not mapped. */
  lemma MissingFaults(s: Snapshot, v: u64, level: nat)
    requires TreeInv(s.mem, s.root, s.tables) && level <= 3 && s.PathClear(v, level) && Missing(s.tables, v, level) > 0
    ensures s.View(v) == Fault
  {
    if Canonical(v) {
      var d := Depth(s.tables, v);
      TranslateByDepth(s.mem, s.root, s.tables, v);
      if Present(Entry(s.mem, s.tables[PathNode(v, d)], Index(v, d))) {
        NextPresent(s.mem, s.root, s.tables, v, d, level);
        assert false;
      }
    }
  }

  /** ... and no later round repairs it. */
  lemma HoleStays(s: Snapshot, s': Snapshot, start: nat, cur: nat, next: nat, end: nat)
    requires PageRange(cur, end) && cur < end && PageRange(next, end) && end <= VA_SPACE
    requires Hole(s, start, cur, end) && RoundResult(s, s', cur, next, end)
    ensures Hole(s', start, next, end)
  {
    hide Snapshot.View, RoundResult;
    var v: u64 :| HoleAt(s, start, cur, end, v);
    EarlierSlot(v, cur, ChunkLevel(end - cur));
    OtherSlotStays(s, s', cur, next, end, v);
    LevelsGrow(end - cur, end - next);
    assert HoleAt(s', start, next, end, v);
  }

  lemma OtherSlotStays(s: Snapshot, s': Snapshot, cur: nat, next: nat, end: nat, v: u64)
    requires PageRange(cur, end) && cur < end && RoundResult(s, s', cur, next, end)
    requires Slot(v, ChunkLevel(end - cur)) != Slot(cur, ChunkLevel(end - cur))
    ensures s'.View(v) == s.View(v) && next == cur + Span(ChunkLevel(end - cur))
  {
    hide Snapshot.View, ClearElsewhere, OthersUntouched, Extend, Prune, Slot;
  }

  // The loop has mapped everything so far, or has left a hole
  ghost predicate LoopState(s0: Snapshot, s: Snapshot, start: nat, cur: nat, end: nat, taken: nat)
    requires PageRange(start, end) && PageRange(cur, end)
  {
    if TablesNeeded(s0.tables, start, end) <= Supply(s0.free) then Progress(s0, s, start, cur, end, taken)
    else Progress(s0, s, start, cur, end, taken) || Hole(s, start, cur, end)
  }

  lemma LoopStep(s0: Snapshot, s: Snapshot, s': Snapshot, start: nat, cur: nat, next: nat, end: nat, taken: nat)
    requires PageRange(start, end) && PageRange(cur, end) && start <= cur < end && PageRange(next, end)
             && end <= VA_SPACE
    requires TreeInv(s.mem, s.root, s.tables) && TailClear(s, cur, end)
    requires LoopState(s0, s, start, cur, end, taken) && RoundResult(s, s', cur, next, end)
    ensures LoopState(s0, s', start, next, end, taken + Missing(s.tables, cur, ChunkLevel(end - cur)))
  {
    hide Progress, Hole, RoundResult, TreeInv, TailClear, TablesNeeded, Supply, Missing, ChunkLevel;
    if Progress(s0, s, start, cur, end, taken) {
      if TablesNeeded(s0.tables, start, end) <= Supply(s0.free) {
        EnoughForRound(s0, s, start, cur, end, taken);
      }
      if Missing(s.tables, cur, ChunkLevel(end - cur)) <= Supply(s.free) {
        ProgressStep(s0, s, s', start, cur, next, end, taken);
      } else {
        HoleStarts(s, s', start, cur, next, end);
      }
    } else {
      HoleStays(s, s', start, cur, next, end);
    }
  }

  // Every address of the range is mapped to itself; some address of it is not mapped at all
  ghost predicate AllIdentity(s: Snapshot, start: nat, end: nat)
  {
    forall v: u64 :: start <= v < end ==> s.View(v) == Identity(v)
  }

  ghost predicate SomeFault(s: Snapshot, start: nat, end: nat)
  {
    exists v: u64 :: start <= v < end && s.View(v) == Fault
  }

  lemma LoopDone(s0: Snapshot, s: Snapshot, start: nat, end: nat, taken: nat)
    requires PageRange(start, end) && LoopState(s0, s, start, end, end, taken)
    ensures if TablesNeeded(s0.tables, start, end) <= Supply(s0.free)
            then s.free == s0.free[TablesNeeded(s0.tables, start, end)..]
                 && forall v: u64 :: s.View(v) == DirectAt(s0.View(v), start, end, v)
            else SomeFault(s, start, end)
  {
    hide Snapshot.View, TablesNeeded, DirectAt;
    NothingLeft(s.tables, end);
    if Progress(s0, s, start, end, end, taken) {
      ProgressDone(s0, s, start, end, taken);
    } else {
      var v: u64 :| HoleAt(s, start, end, end, v);
    }
  }

  lemma NothingLeft(t: Tree, end: nat)
    requires PageRange(end, end)
    ensures TablesNeeded(t, end, end) == 0
  {
    assert ChunkNodes(end, end) - t.Keys == {};
  }

  // What an aligned range in the lower half becomes, with and without enough frames
  lemma FullExactlyWhen(s0: Snapshot, s: Snapshot, start: nat, end: nat, enough: bool)
    requires PageRange(start, end) && end <= LOW_HALF_END && NaturallyAligned(start, end)
    requires if enough
             then forall v: u64 :: s.View(v) == DirectAt(s0.View(v), start, end, v)
             else SomeFault(s, start, end)
    ensures AllIdentity(s, start, end) <==> enough
  {
    hide Snapshot.View, DirectAt, NaturallyAligned;
    if enough {
      forall v: u64 | start <= v < end
        ensures s.View(v) == Identity(v)
      {
        DirectIsIdentity(s0.View(v), start, end, v);
      }
    }
  }

  // ---------------------------------------------------------------- paths outside the range

  // No chunk of [cur, end) puts a large page on the path to v above the given level
  ghost predicate Unserved(v: u64, deep: nat, cur: nat, end: nat)
    requires PageRange(cur, end)
    decreases end - cur
  {
    cur < end ==>
      var level := ChunkLevel(end - cur);
      ChunkFits(cur, end);
      (deep <= level || Slot(v, level) != Slot(cur, level)) && Unserved(v, deep, cur + Span(level), end)
  }

  /** Addresses whose translated bits lie above the range are served by none of its chunks. */
  lemma {:induction false} AboveIsUnserved(v: u64, deep: nat, cur: nat, end: nat)
    requires PageRange(cur, end) && end <= VA_SPACE && v % VA_SPACE >= end
    ensures Unserved(v, deep, cur, end)
    decreases end - cur
  {
    if cur < end {
      var level := ChunkLevel(end - cur);
      ChunkFits(cur, end);
      AboveIsUnserved(v, deep, cur + Span(level), end);
      AboveSlot(v, cur, level);
    }
  }

  lemma AboveSlot(v: u64, cur: u64, level: nat)
    requires 1 <= level <= 3 && cur < VA_SPACE && v % VA_SPACE >= cur + Span(level)
    ensures Slot(v, level) != Slot(cur, level)
  {
  }

  // Clear paths that the range leaves alone are still clear, and the rest of the range leaves them alone
  ghost predicate StillClear(s0: Snapshot, s: Snapshot, start: nat, cur: nat, end: nat)
    requires PageRange(start, end) && PageRange(cur, end)
  {
    forall v: u64, deep: nat :: s0.PathClear(v, deep) && Unserved(v, deep, start, end) ==>
      s.PathClear(v, deep) && Unserved(v, deep, cur, end)
  }

  lemma ClearStep(s0: Snapshot, s: Snapshot, s': Snapshot, start: nat, cur: nat, next: nat, end: nat)
    requires PageRange(start, end) && PageRange(cur, end) && cur < end && PageRange(next, end)
    requires StillClear(s0, s, start, cur, end) && RoundResult(s, s', cur, next, end)
    ensures StillClear(s0, s', start, next, end)
  {
    hide Snapshot.PathClear, Slot, Unserved, RoundResult;
    RoundElsewhere(s, s', cur, next, end);
    forall v: u64, deep: nat | s0.PathClear(v, deep) && Unserved(v, deep, start, end)
      ensures s'.PathClear(v, deep) && Unserved(v, deep, next, end)
    {
      UnservedStep(v, deep, cur, next, end);
    }
  }

  lemma RoundElsewhere(s: Snapshot, s': Snapshot, cur: nat, next: nat, end: nat)
    requires PageRange(cur, end) && cur < end && RoundResult(s, s', cur, next, end)
    ensures next == cur + Span(ChunkLevel(end - cur)) && ClearElsewhere(s, s', cur, ChunkLevel(end - cur))
    ensures Confined(s, s')
  {
    var level := ChunkLevel(end - cur);
    var status := if Missing(s.tables, cur, level) <= Supply(s.free) then Success else OutOfResources;
    hide MapResult, ClearElsewhere, Confined, Missing, Supply;
    MapConfined(s, s', status, cur, cur, level, ChunkFlags(level));
    MapClears(s, s', status, cur, cur, level, ChunkFlags(level));
  }

  lemma MapClears(s: Snapshot, s': Snapshot, status: Status, va: u64, pa: u64, level: nat, flags: u64)
    requires MapResult(s, s', status, va, pa, level, flags)
    ensures ClearElsewhere(s, s', va, level)
  {
    hide ClearElsewhere;
  }

  lemma UnservedStep(v: u64, deep: nat, cur: nat, next: nat, end: nat)
    requires PageRange(cur, end) && cur < end && PageRange(next, end) && next == cur + Span(ChunkLevel(end - cur))
    requires Unserved(v, deep, cur, end)
    ensures Unserved(v, deep, next, end)
    ensures deep <= ChunkLevel(end - cur) || Slot(v, ChunkLevel(end - cur)) != Slot(cur, ChunkLevel(end - cur))
  {
    hide Slot;
  }

  // All tables are old ones or needed by the range, and the rest of the range needs no others
  ghost predicate NodesWithin(s0: Snapshot, s: Snapshot, start: nat, cur: nat, end: nat)
    requires PageRange(start, end) && PageRange(cur, end)
  {
    s.tables.Keys <= s0.tables.Keys + ChunkNodes(start, end) && ChunkNodes(cur, end) <= ChunkNodes(start, end)
  }

  /** Whether or not the frames suffice, a round adds no tables but those that its chunk needs. */
  lemma RoundNodes(s: Snapshot, s': Snapshot, cur: u64, next: nat, end: nat)
    requires PageRange(cur, end) && cur < end && RoundResult(s, s', cur, next, end)
    ensures s'.tables.Keys <= s.tables.Keys + PathNodes(cur, ChunkLevel(end - cur))
  {
    var level := ChunkLevel(end - cur);
    var d, m, n := Depth(s.tables, cur), Missing(s.tables, cur, level), Supply(s.free);
    hide Snapshot.View, OthersUntouched, ClearElsewhere, MapAt, PathNode, Supply, Depth;
    ExtendKeys(s.tables, cur, d, s.free[..if m <= n then m else n]);
  }

  lemma NodesStep(s0: Snapshot, s: Snapshot, s': Snapshot, start: nat, cur: nat, next: nat, end: nat)
    requires PageRange(start, end) && PageRange(cur, end) && cur < end && PageRange(next, end)
    requires NodesWithin(s0, s, start, cur, end) && RoundResult(s, s', cur, next, end)
    ensures NodesWithin(s0, s', start, next, end)
  {
    hide MapResult, PathNodes, Missing, Supply, ChunkFlags;
    RoundNodes(s, s', cur, next, end);
    assert ChunkNodes(cur, end) == PathNodes(cur, ChunkLevel(end - cur)) + ChunkNodes(next, end);
  }

  // ---------------------------------------------------------------- the rounds one by one

  // Round i of a run of the loop: from one state and address to the next
  ghost predicate RoundAt(trace: seq<Snapshot>, cuts: seq<nat>, end: nat, i: nat)
    requires i + 1 < |trace| == |cuts|
  {
    && PageRange(cuts[i], end) && cuts[i] < end
    && RoundResult(trace[i], trace[i + 1], cuts[i], cuts[i + 1], end)
  }

  // The states and addresses that the loop passes through
  ghost predicate Rounds(trace: seq<Snapshot>, cuts: seq<nat>, end: nat)
  {
    |trace| == |cuts| > 0 && forall i :: 0 <= i < |trace| - 1 ==> RoundAt(trace, cuts, end, i)
  }

  lemma RoundsGrow(trace: seq<Snapshot>, cuts: seq<nat>, end: nat, s: Snapshot, next: nat)
    requires Rounds(trace, cuts, end)
    requires var cur := cuts[|cuts| - 1];
             PageRange(cur, end) && cur < end && RoundResult(trace[|trace| - 1], s, cur, next, end)
    ensures Rounds(trace + [s], cuts + [next], end)
  {
    hide RoundResult, PageRange;
    var t, c := trace + [s], cuts + [next];
    forall i | 0 <= i < |t| - 1
      ensures RoundAt(t, c, end, i)
    {
      assert i < |trace| - 1 ==> RoundAt(trace, cuts, end, i);
    }
  }

  // The round found the frames for its tables
  ghost predicate Supplied(trace: seq<Snapshot>, cuts: seq<nat>, end: nat, i: nat)
    requires i + 1 < |trace| == |cuts| && RoundAt(trace, cuts, end, i)
  {
    Missing(trace[i].tables, cuts[i], ChunkLevel(end - cuts[i])) <= Supply(trace[i].free)
  }

  // The translation of v after the first n rounds, if it was t before: the chunks that found frames, in order
  ghost function SuppliedAt(trace: seq<Snapshot>, cuts: seq<nat>, end: nat, n: nat, t: Translation, v: u64): Translation
    requires Rounds(trace, cuts, end) && n < |trace|
  {
    if n == 0 then t
    else
      assert RoundAt(trace, cuts, end, n - 1);
      var before := SuppliedAt(trace, cuts, end, n - 1, t, v);
      if Supplied(trace, cuts, end, n - 1)
      then
        var cur, level := cuts[n - 1], ChunkLevel(end - cuts[n - 1]);
        MapAt(before, cur, cur, level, ChunkFlags(level), v)
      else before
  }

  /** Also when frames run short, every address is translated as the chunks that found frames say. */
  lemma {:induction false} SuppliedTranslation(trace: seq<Snapshot>, cuts: seq<nat>, end: nat, n: nat, v: u64)
    requires Rounds(trace, cuts, end) && n < |trace|
    ensures trace[n].View(v) == SuppliedAt(trace, cuts, end, n, trace[0].View(v), v)
  {
    hide Snapshot.View, RoundAt, Supplied, MapAt, ChunkLevel, ChunkFlags;
    if n > 0 {
      assert RoundAt(trace, cuts, end, n - 1);
      SuppliedTranslation(trace, cuts, end, n - 1, v);
      RoundView(trace, cuts, end, n - 1, v);
    }
  }

  lemma RoundView(trace: seq<Snapshot>, cuts: seq<nat>, end: nat, i: nat, v: u64)
    requires i + 1 < |trace| == |cuts| && RoundAt(trace, cuts, end, i)
    ensures var cur, level := cuts[i], ChunkLevel(end - cuts[i]);
            trace[i + 1].View(v)
            == if Supplied(trace, cuts, end, i) then MapAt(trace[i].View(v), cur, cur, level, ChunkFlags(level), v)
               else trace[i].View(v)
  {
    hide Snapshot.View, OthersUntouched, ClearElsewhere, MapAt, Extend, Prune;
  }

  lemma ChunkDone(s: Snapshot, s': Snapshot, cur: nat, next: nat, end: nat, level: nat)
    requires PageRange(cur, end) && cur < end && PageRange(next, end) && level == ChunkLevel(end - cur)
    requires RoundResult(s, s', cur, next, end) && Missing(s.tables, cur, level) <= Supply(s.free)
    ensures s'.free == s.free[Missing(s.tables, cur, level)..]
    ensures s'.tables == Prune(Extend(s.tables, cur, Depth(s.tables, cur), s.free[..Missing(s.tables, cur, level)]),
                               PathNode(cur, level + 1))
    ensures forall v: u64 :: s'.View(v) == MapAt(s.View(v), cur, cur, level, ChunkFlags(level), v)
    ensures next == cur + Span(level)
  {
  }

  lemma DirectStep(t: Translation, cur: nat, next: nat, end: nat, v: u64)
    requires PageRange(cur, end) && cur < end && PageRange(next, end) && next == cur + Span(ChunkLevel(end - cur))
    ensures var level := ChunkLevel(end - cur);
            DirectAt(t, cur, end, v) == DirectAt(MapAt(t, cur, cur, level, ChunkFlags(level), v), next, end, v)
  {
  }

  lemma ProgressDone(s0: Snapshot, s: Snapshot, start: nat, end: nat, taken: nat)
    requires PageRange(start, end) && Progress(s0, s, start, end, end, taken)
    ensures s.free == s0.free[TablesNeeded(s0.tables, start, end)..]
    ensures TablesNeeded(s0.tables, start, end) <= Supply(s0.free)
    ensures forall v: u64 :: s.View(v) == DirectAt(s0.View(v), start, end, v)
  {
    hide Snapshot.View, PathNodes, MapAt;
    assert ChunkNodes(end, end) - s.tables.Keys == {};
    forall v: u64
      ensures s.View(v) == DirectAt(s0.View(v), start, end, v)
    {
      assert DirectAt(s.View(v), end, end, v) == s.View(v);
    }
  }

  // ---------------------------------------------------------------- nothing but identities

  // Every address has its old translation, or lies in [start, cur) and has its own
  ghost predicate OnlyIdentities(s0: Snapshot, s: Snapshot, start: nat, cur: nat)
  {
    forall v: u64 :: s.View(v) == s0.View(v) || (start <= v < cur && s.View(v) == Identity(v))
  }

  /** An aligned round either leaves an address alone or maps it to itself. */
  lemma RoundIsSafe(s: Snapshot, s': Snapshot, cur: nat, next: nat, end: nat)
    requires PageRange(cur, end) && cur < end && NaturallyAligned(cur, end) && end <= LOW_HALF_END
    requires RoundResult(s, s', cur, next, end)
    ensures next <= end && NaturallyAligned(next, end) && OnlyIdentities(s, s', cur, next)
  {
    hide Snapshot.View, NaturallyAligned, ClearElsewhere, OthersUntouched, Prune, Extend, Identity, MapAt, LeafEntry;
    var level := ChunkLevel(end - cur);
    AlignedStep(cur, end);
    AlignedChunk(cur, end);
    forall v: u64
      ensures MapAt(s.View(v), cur, cur, level, ChunkFlags(level), v)
              == if cur <= v < next then Identity(v) else s.View(v)
    {
      IdentityChunk(s.View(v), cur, level, v);
    }
  }

  lemma SafeStep(s0: Snapshot, s: Snapshot, s': Snapshot, start: nat, cur: nat, next: nat)
    requires start <= cur <= next && OnlyIdentities(s0, s, start, cur) && OnlyIdentities(s, s', cur, next)
    ensures OnlyIdentities(s0, s', start, next)
  {
    hide Snapshot.View, Identity;
  }

  // ---------------------------------------------------------------- the method

  // DirectMapRange. It ignores the results of the calls that map a page.
  method DirectMapRange(pm: PageManager, physicalStart: u64, physicalEnd: u64)
    returns (status: Status, ghost trace: seq<Snapshot>, ghost cuts: seq<nat>)
    requires pm.Valid() && physicalEnd <= VA_SPACE
    requires physicalStart <= physicalEnd ==> TailClear(pm.Now(), physicalStart, physicalEnd)
    modifies pm`freeHead, pm`free, pm`held, pm`tables, pm.pfn, pm.mem
    ensures pm.Valid() && pm.held == old(pm.held)
    ensures status == if PageRange(physicalStart, physicalEnd) && physicalStart < physicalEnd
                      then Success else InvalidParameter
    ensures status != Success ==>
              pm.mem[..] == old(pm.mem[..]) && pm.Db() == old(pm.Db()) && pm.tables == old(pm.tables)
    ensures status == Success ==>
              && RangeResult(old(pm.Now()), pm.Now(), physicalStart, physicalEnd)
              && Rounds(trace, cuts, physicalEnd) && trace[0] == old(pm.Now()) && trace[|trace| - 1] == pm.Now()
              && cuts[0] == physicalStart && cuts[|cuts| - 1] == physicalEnd
  {
    hide PageManager.Valid, PageManager.Db, PageRange, LoopState, OnlyIdentities, RoundResult, StillClear, Confined;
    hide NaturallyAligned, Snapshot.View, TailClear, Missing, Or, AlignPage, Span, ChunkLevel, RangeResult;
    hide NodesWithin, RoundAt;
    trace, cuts := [pm.Now()], [physicalStart];
    ArgumentCheck(physicalStart, physicalEnd);
    if physicalStart != AlignPage(physicalStart) || physicalEnd != AlignPage(physicalEnd)
       || physicalStart >= physicalEnd {
      return InvalidParameter, trace, cuts;
    }
    PresentAndWritable();
    var flags := Or(PAGE_FLAG_PRESENT, PAGE_FLAG_RW);
    var currentPhysical := physicalStart;
    ghost var s0 := pm.Now();
    ghost var aligned := NaturallyAligned(physicalStart, physicalEnd) && physicalEnd <= LOW_HALF_END;
    ghost var taken: nat := 0;
    LoopStarts(s0, physicalStart, physicalEnd);
    while currentPhysical < physicalEnd
      invariant physicalStart <= currentPhysical <= physicalEnd && PageRange(currentPhysical, physicalEnd)
      invariant pm.Valid() && pm.held == old(pm.held) && TailClear(pm.Now(), currentPhysical, physicalEnd)
      invariant LoopState(s0, pm.Now(), physicalStart, currentPhysical, physicalEnd, taken)
      invariant StillClear(s0, pm.Now(), physicalStart, currentPhysical, physicalEnd) && Confined(s0, pm.Now())
      invariant NodesWithin(s0, pm.Now(), physicalStart, currentPhysical, physicalEnd)
      invariant Rounds(trace, cuts, physicalEnd) && trace[0] == s0 && trace[|trace| - 1] == pm.Now()
      invariant cuts[0] == physicalStart && cuts[|cuts| - 1] == currentPhysical
      invariant aligned ==> NaturallyAligned(currentPhysical, physicalEnd)
                            && OnlyIdentities(s0, pm.Now(), physicalStart, currentPhysical)
    {
      ghost var cur, before := currentPhysical, pm.Now();
      TreeNow(pm);
      currentPhysical := MapChunk(pm, currentPhysical, physicalEnd, flags);
      RoundDone(s0, before, pm.Now(), physicalStart, cur, currentPhysical, physicalEnd, taken);
      RoundsGrow(trace, cuts, physicalEnd, pm.Now(), currentPhysical);
      trace, cuts := trace + [pm.Now()], cuts + [currentPhysical];
      if aligned {
        RoundIsSafe(before, pm.Now(), cur, currentPhysical, physicalEnd);
        SafeStep(s0, before, pm.Now(), physicalStart, cur, currentPhysical);
      }
      taken := taken + Missing(before.tables, cur, ChunkLevel(physicalEnd - cur));
    }
    RangeDone(s0, pm.Now(), physicalStart, physicalEnd, taken);
    status := Success;
  }

  // What DirectMapRange makes of a page-aligned range
  ghost predicate RangeResult(s0: Snapshot, s: Snapshot, start: nat, end: nat)
    requires PageRange(start, end)
  {
    var needed, aligned := TablesNeeded(s0.tables, start, end), NaturallyAligned(start, end) && end <= LOW_HALF_END;
    // with enough frames, every address is translated as the sequence of chunks says; otherwise, some
    // address of the range is not mapped
    && (if needed <= Supply(s0.free)
        then s.free == s0.free[needed..] && forall v: u64 :: s.View(v) == DirectAt(s0.View(v), start, end, v)
        else SomeFault(s, start, end))
    // an aligned range is mapped to itself exactly if there are enough frames; nothing is ever mapped wrongly
    && (aligned ==> (AllIdentity(s, start, end) <==> needed <= Supply(s0.free)) && OnlyIdentities(s0, s, start, end))
    // other paths stay clear, only tables that the range needs are added, from the front of the free list, and
    // memory that the allocator does not manage is untouched
    && (forall v: u64, deep: nat :: s0.PathClear(v, deep) && Unserved(v, deep, start, end) ==> s.PathClear(v, deep))
    && s.tables.Keys <= s0.tables.Keys + ChunkNodes(start, end) && Confined(s0, s)
  }

  lemma RangeDone(s0: Snapshot, s: Snapshot, start: nat, end: nat, taken: nat)
    requires PageRange(start, end) && LoopState(s0, s, start, end, end, taken)
    requires StillClear(s0, s, start, end, end) && Confined(s0, s) && NodesWithin(s0, s, start, end, end)
    requires NaturallyAligned(start, end) && end <= LOW_HALF_END ==> OnlyIdentities(s0, s, start, end)
    ensures RangeResult(s0, s, start, end)
  {
    hide LoopState, Confined, Snapshot.View, Snapshot.PathClear, Unserved, DirectAt, OnlyIdentities, TablesNeeded;
    hide Supply;
    hide SomeFault, AllIdentity, NaturallyAligned;
    LoopDone(s0, s, start, end, taken);
    if NaturallyAligned(start, end) && end <= LOW_HALF_END {
      FullExactlyWhen(s0, s, start, end, TablesNeeded(s0.tables, start, end) <= Supply(s0.free));
    }
  }

  lemma RoundDone(s0: Snapshot, s: Snapshot, s': Snapshot, start: nat, cur: nat, next: nat, end: nat, taken: nat)
    requires PageRange(start, end) && PageRange(cur, end) && start <= cur < end && PageRange(next, end)
             && end <= VA_SPACE
    requires TreeInv(s.mem, s.root, s.tables) && TailClear(s, cur, end) && RoundResult(s, s', cur, next, end)
    requires LoopState(s0, s, start, cur, end, taken) && StillClear(s0, s, start, cur, end) && Confined(s0, s)
    requires NodesWithin(s0, s, start, cur, end)
    ensures next <= end && TailClear(s', next, end)
    ensures LoopState(s0, s', start, next, end, taken + Missing(s.tables, cur, ChunkLevel(end - cur)))
    ensures StillClear(s0, s', start, next, end) && Confined(s0, s') && NodesWithin(s0, s', start, next, end)
  {
    hide *;
    RoundClears(s, s', cur, next, end);
    LoopStep(s0, s, s', start, cur, next, end, taken);
    ClearStep(s0, s, s', start, cur, next, end);
    RoundElsewhere(s, s', cur, next, end);
    NodesStep(s0, s, s', start, cur, next, end);
    ConfinedTrans(s0, s, s');
  }

  lemma LoopStarts(s: Snapshot, start: nat, end: nat)
    requires PageRange(start, end)
    ensures LoopState(s, s, start, start, end, 0) && StillClear(s, s, start, start, end) && Confined(s, s)
    ensures OnlyIdentities(s, s, start, start) && NodesWithin(s, s, start, start, end)
  {
    hide Snapshot.View, Snapshot.PathClear, TablesNeeded, Unserved, DirectAt;
  }

  lemma ArgumentCheck(start: u64, end: u64)
    ensures start == AlignPage(start) && end == AlignPage(end) && start < end <==> PageRange(start, end) && start < end
  {
    AlignMacro(start);
    AlignMacro(end);
  }

  lemma TreeNow(pm: PageManager)
    requires pm.Valid()
    ensures TreeInv(pm.mem[..], pm.Root(), pm.tables)
  {
  }

  lemma RoundClears(s: Snapshot, s': Snapshot, cur: nat, next: nat, end: nat)
    requires PageRange(cur, end) && cur < end && end <= VA_SPACE && TailClear(s, cur, end)
             && RoundResult(s, s', cur, next, end)
    ensures next <= end && TailClear(s', next, end)
  {
    TailStaysClear(s, s', cur, next, end, ChunkLevel(end - cur));
  }
}
