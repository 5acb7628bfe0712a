/**
  Whole runs: any sequence of page allocations, writes to allocated pages, releases, and maps of all three
  page sizes, from SsPagingInit on.
 */
module Runs {
  import opened Bits
  import opened PageWalk
  import opened FreeList
  import opened PageTree
  import opened Mapping
  import opened Paging
  import opened Separation

  // What a caller does. Pages are named by the operation that allocated them.
  datatype Op =
    | Allocate
    | Store(page: nat, i: nat, value: u64)
    | Return(page: nat)                       // the caller clears the page, then frees it
    | Map(va: u64, pa: u64, level: nat, flags: u64)

  // The flags of the leaf that a map writes
  function EntryFlags(op: Op): u64
    requires op.Map?
  {
    if op.level == 3 then op.flags else LargeFlags(op.flags)
  }

  // ---------------------------------------------------------------- which runs are legal

  // The page is allocated by an earlier operation and not yet returned
  predicate Live(ops: seq<Op>, n: nat, k: nat)
    requires n <= |ops|
  {
    k < n && ops[k].Allocate? && forall i :: k < i < n ==> ops[i] != Return(k)
  }

  // No map of a larger page so far serves the address
  predicate Avoids(ops: seq<Op>, v: u64, deep: nat)
  {
    forall i :: 0 <= i < |ops| && ops[i].Map? && ops[i].level < deep ==>
        Slot(v, ops[i].level) != Slot(ops[i].va, ops[i].level)
  }

  // The rules for a caller: only its own pages are written and returned, and no small page is mapped
  // where a larger one was asked for before
  predicate LegalOp(ops: seq<Op>, n: nat)
    requires n < |ops|
  {
    match ops[n]
    case Allocate => true
    case Store(k, i, _) => Live(ops, n, k) && i < TABLE_LENGTH
    case Return(k) => Live(ops, n, k)
    case Map(va, _, level, _) => 1 <= level <= 3 && Avoids(ops[..n], va, level)
  }

  predicate LegalOps(ops: seq<Op>)
  {
    forall n :: 0 <= n < |ops| ==> LegalOp(ops, n)
  }

  // ---------------------------------------------------------------- what a run means

  // The translation of v after the maps that succeeded, if it was t before
  function ViewAfter(t: Translation, ops: seq<Op>, ok: seq<bool>, v: u64): Translation
    requires |ok| == |ops|
  {
    if ops == [] then t
    else
      var n := |ops| - 1;
      var before := ViewAfter(t, ops[..n], ok[..n], v);
      if ops[n].Map? && ok[n] then MapAt(before, ops[n].va, ops[n].pa, ops[n].level, EntryFlags(ops[n]), v) else before
  }

  /** Once a 4 KiB page is mapped present, its addresses stay mapped as long as every later map that
      serves them is a present 4 KiB page too. */
  lemma {:induction false} StaysMapped(t: Translation, ops: seq<Op>, ok: seq<bool>, v: u64, k: nat)
    requires |ok| == |ops| && k < |ops| && Canonical(v)
    requires ops[k].Map? && ok[k] && ops[k].level == 3 && Present(ops[k].flags) && Slot(v, 3) == Slot(ops[k].va, 3)
    requires forall i :: k < i < |ops| && ops[i].Map? && Slot(v, ops[i].level) == Slot(ops[i].va, ops[i].level) ==>
               ops[i].level == 3 && Present(ops[i].flags)
    ensures ViewAfter(t, ops, ok, v) != Fault
  {
    var n := |ops| - 1;
    if ops[n].Map? {
      LeafEntryFields(ops[n].pa, EntryFlags(ops[n]));
    }
    if k < n {
      StaysMapped(t, ops[..n], ok[..n], v, k);
    }
  }

  // ---------------------------------------------------------------- one owner for every frame

  /** Every table is in use and belongs to nobody else, and no two entries of the tree refer to it: the
      root hangs from none, any other table from the one entry at its place. */
  lemma TablesSeparate(pm: PageManager, n: Node)
    requires pm.Valid() && n in pm.tables
    ensures pm.tables[n] < pm.pfn.Length && pm.pfn[pm.tables[n]].state == Allocated
    ensures pm.tables[n] !in pm.held && pm.tables[n] !in pm.free
    ensures n != ROOT ==> n.level > 0 && Parent(n) in pm.tables
                          && Entry(pm.mem[..], pm.tables[Parent(n)], n.number % TABLE_LENGTH)
                            == TableEntry(pm.tables[n])
    ensures forall m, i ::
              m in pm.tables && 0 <= i < TABLE_LENGTH && ReferenceTo(pm.mem[..], pm.tables, m, i, pm.tables[n]) ==>
              n == Child(m, i)
  {
    hide Chain, Clean;
    assert Placed(pm.mem[..], pm.tables, n);
    NotOnFreeList(pm.Db(), pm.free, pm.tables[n]);
    if n.level > 0 {
      assert Linked(pm.mem[..], pm.tables, n);
    }
    forall m, i | m in pm.tables && 0 <= i < TABLE_LENGTH && ReferenceTo(pm.mem[..], pm.tables, m, i, pm.tables[n])
      ensures n == Child(m, i)
    {
      var c := Child(m, i);
      assert EntryAccounted(pm.mem[..], pm.tables, m, i);
      assert Linked(pm.mem[..], pm.tables, c) && Placed(pm.mem[..], pm.tables, c);
      ChildParent(m, i);
      TableEntryFields(pm.tables[c]);
    }
  }

  // Entry i of table m refers to a table in the given frame
  ghost predicate ReferenceTo(mem: Memory, t: Tree, m: Node, i: nat, frame: nat)
    requires m in t
  {
    var e := Entry(mem, t[m], i);
    RefersToTable(e, m.level) && FrameOf(e) == frame
  }

  // ---------------------------------------------------------------- one operation

  // The page that an operation is about: the one that an earlier operation of the run was granted
  function Target(op: Op, pages: seq<nat>): nat
  {
    if (op.Store? || op.Return?) && op.page < |pages| then pages[op.page] else 0
  }

  // What an operation does to the state, and when it succeeds. Page 0 stands for a page that was refused.
  ghost predicate StepOf(op: Op, target: nat, page: nat, done: bool, s: Snapshot, s': Snapshot)
  {
    var f := target / PAGE_SIZE;
    match op
    case Allocate =>
      && (done <==> Supply(s.free) > 0) && page == (if done then s.free[0] * PAGE_SIZE else 0)
      && s' == s.(free := AfterFailure(s.free))
    case Store(_, i, value) =>
      && done && page == 0 && s' == s.(mem := s'.mem)
      && if target == 0 then s'.mem == s.mem else StoredAt(s.mem, s'.mem, f, i, value)
    case Return(_) =>
      && done && page == 0
      && if target == 0 then s' == s
         else s' == s.(mem := s'.mem, free := [f] + s.free) && SameElsewhere(s.mem, s'.mem, f)
              && forall i :: 0 <= i < TABLE_LENGTH ==> Entry(s'.mem, f, i) == 0
    case Map(va, pa, level, _) =>
      && page == 0 && (done <==> Missing(s.tables, va, level) <= Supply(s.free))
      && MapResult(s, s', if done then Success else OutOfResources, va, pa, level, EntryFlags(op))
  }

  // Word i of the frame has the value, and no other word has changed
  ghost predicate StoredAt(mem: Memory, mem': Memory, frame: nat, i: nat, value: u64)
  {
    && |mem'| == |mem| && Entry(mem', frame, i) == value
    && forall f: nat, j: nat :: j < TABLE_LENGTH && (f != frame || j != i) ==> Entry(mem', f, j) == Entry(mem, f, j)
  }

  // The run passed through the states of the trace, one operation from each to the next
  ghost predicate Steps(ops: seq<Op>, n: nat, pages: seq<nat>, ok: seq<bool>, trace: seq<Snapshot>)
  {
    && |pages| == |ok| == n <= |ops| && |trace| == n + 1
    && forall k :: 0 <= k < n ==> StepOf(ops[k], Target(ops[k], pages[..k]), pages[k], ok[k], trace[k], trace[k + 1])
  }

  lemma StepsGrow(ops: seq<Op>, n: nat, pages: seq<nat>, ok: seq<bool>, trace: seq<Snapshot>, page: nat, done: bool,
                  s: Snapshot)
    requires Steps(ops, n, pages, ok, trace) && n < |ops|
    requires StepOf(ops[n], Target(ops[n], pages), page, done, trace[n], s)
    ensures Steps(ops, n + 1, pages + [page], ok + [done], trace + [s])
  {
    hide StepOf, Target;
    var pages', ok', trace' := pages + [page], ok + [done], trace + [s];
    forall k | 0 <= k < n + 1
      ensures StepOf(ops[k], Target(ops[k], pages'[..k]), pages'[k], ok'[k], trace'[k], trace'[k + 1])
    {
      if k < n {
        assert pages'[..k] == pages[..k];
      } else {
        assert pages'[..n] == pages;
      }
    }
  }

  // ---------------------------------------------------------------- progress of a run

  // The view is what the maps so far make of the first one, and only maps of larger pages obstruct paths
  ghost predicate InRun(s0: Snapshot, s: Snapshot, ops: seq<Op>, ok: seq<bool>)
  {
    && |ok| == |ops|
    && (forall v: u64 :: s.View(v) == ViewAfter(s0.View(v), ops, ok, v))
    && (forall v: u64, deep: nat :: deep <= 3 && Avoids(ops, v, deep) ==> s.PathClear(v, deep))
  }

  ghost predicate AllClear(s: Snapshot)
  {
    forall v: u64, deep: nat :: deep <= 3 ==> s.PathClear(v, deep)
  }

  lemma RunBegins(s: Snapshot)
    requires AllClear(s)
    ensures InRun(s, s, [], [])
  {
    hide Snapshot.View, Snapshot.PathClear;
  }

  // A root alone obstructs no path
  lemma RootIsClear(mem: Memory, root: nat, free: seq<nat>)
    requires TreeInv(mem, root, map[ROOT := root])
    ensures AllClear(Snapshot(mem, root, map[ROOT := root], free))
  {
    var t: Tree := map[ROOT := root];
    forall v: u64, deep: nat | deep <= 3
      ensures NoLargePage(mem, t, v, deep)
    {
      assert EntryAccounted(mem, t, ROOT, Index(v, 0));
    }
  }

  lemma OneMore(ops: seq<Op>, op: Op, ok: seq<bool>, b: bool, t: Translation, v: u64, deep: nat)
    requires |ok| == |ops|
    ensures ViewAfter(t, ops + [op], ok + [b], v)
            == if op.Map? && b then MapAt(ViewAfter(t, ops, ok, v), op.va, op.pa, op.level, EntryFlags(op), v)
               else ViewAfter(t, ops, ok, v)
    ensures Avoids(ops + [op], v, deep) ==>
              Avoids(ops, v, deep) && (op.Map? && op.level < deep ==> Slot(v, op.level) != Slot(op.va, op.level))
  {
    hide MapAt, Slot;
    var more := ops + [op];
    assert more[..|ops|] == ops && (ok + [b])[..|ops|] == ok && more[|ops|] == op;
    assert forall i :: 0 <= i < |ops| ==> more[i] == ops[i];
  }

  lemma RunUnchanged(s0: Snapshot, s: Snapshot, s': Snapshot, ops: seq<Op>, ok: seq<bool>, op: Op, b: bool)
    requires InRun(s0, s, ops, ok) && !op.Map?
    requires forall v: u64 :: s'.View(v) == s.View(v)
    requires forall v: u64, deep: nat :: s.PathClear(v, deep) ==> s'.PathClear(v, deep)
    ensures InRun(s0, s', ops + [op], ok + [b])
  {
    hide Snapshot.View, Snapshot.PathClear, ViewAfter, Avoids;
    forall v: u64
      ensures s'.View(v) == ViewAfter(s0.View(v), ops + [op], ok + [b], v)
    {
      OneMore(ops, op, ok, b, s0.View(v), v, 0);
    }
    forall v: u64, deep: nat | deep <= 3 && Avoids(ops + [op], v, deep)
      ensures s'.PathClear(v, deep)
    {
      OneMore(ops, op, ok, b, Fault, v, deep);
    }
  }

  lemma RunMapped(s0: Snapshot, s: Snapshot, s': Snapshot, ops: seq<Op>, ok: seq<bool>, op: Op, status: Status)
    requires InRun(s0, s, ops, ok) && op.Map?
    requires MapResult(s, s', status, op.va, op.pa, op.level, EntryFlags(op))
    ensures InRun(s0, s', ops + [op], ok + [status == Success])
  {
    hide Snapshot.View, Snapshot.PathClear, ViewAfter, Avoids, MapAt, Extend, Prune, OthersUntouched;
    forall v: u64
      ensures s'.View(v) == ViewAfter(s0.View(v), ops + [op], ok + [status == Success], v)
    {
      OneMore(ops, op, ok, status == Success, s0.View(v), v, 0);
    }
    forall v: u64, deep: nat | deep <= 3 && Avoids(ops + [op], v, deep)
      ensures s'.PathClear(v, deep)
    {
      OneMore(ops, op, ok, true, Fault, v, deep);
    }
  }

  // ---------------------------------------------------------------- the pages of a caller

  ghost predicate Handle(page: nat, held: set<nat>, frameCount: nat)
  {
    && 0 < page < 0x1_0000_0000_0000_0000 && page % PAGE_SIZE == 0
    && page / PAGE_SIZE in held && page / PAGE_SIZE < frameCount && page / PAGE_SIZE != PFN_LIST_END
  }

  // Every live page that was granted is held, and no two are the same
  ghost predicate PagesHeld(ops: seq<Op>, n: nat, pages: seq<nat>, held: set<nat>, frameCount: nat)
  {
    && n <= |ops| && |pages| == n
    && (forall k :: 0 <= k < n && Live(ops, n, k) && pages[k] != 0 ==> Handle(pages[k], held, frameCount))
    && (forall j, k :: 0 <= j < k < n && Live(ops, n, j) && Live(ops, n, k) && pages[j] != 0 ==> pages[j] != pages[k])
  }

  lemma LiveBefore(ops: seq<Op>, n: nat, k: nat)
    requires n < |ops| && k < n && Live(ops, n + 1, k)
    ensures Live(ops, n, k) && ops[n] != Return(k)
  {
  }

  lemma PageGranted(ops: seq<Op>, n: nat, pages: seq<nat>, held: set<nat>, held': set<nat>, frameCount: nat, page: nat)
    requires PagesHeld(ops, n, pages, held, frameCount) && n < |ops|
    requires if page == 0 then held' == held else held' == held + {page / PAGE_SIZE} && page / PAGE_SIZE !in held
    requires page != 0 ==> Handle(page, held', frameCount)
    ensures PagesHeld(ops, n + 1, pages + [page], held', frameCount)
  {
    hide Live;
    forall k | 0 <= k < n && Live(ops, n + 1, k)
      ensures Live(ops, n, k)
    {
      LiveBefore(ops, n, k);
    }
  }

  lemma PageReturned(ops: seq<Op>, n: nat, pages: seq<nat>, held: set<nat>, held': set<nat>, frameCount: nat, k: nat)
    requires PagesHeld(ops, n, pages, held, frameCount) && n < |ops|
    requires k < n && Live(ops, n, k) && ops[n] == Return(k)
    requires held' == if pages[k] == 0 then held else held - {pages[k] / PAGE_SIZE}
    ensures PagesHeld(ops, n + 1, pages + [0], held', frameCount)
  {
    hide Live;
    NotAnAllocation(ops, n);
    forall j | 0 <= j < n && Live(ops, n + 1, j)
      ensures Live(ops, n, j) && j != k
    {
      LiveBefore(ops, n, j);
    }
    forall j | 0 <= j < n && Live(ops, n + 1, j) && pages[j] != 0
      ensures Handle(pages[j], held', frameCount)
    {
      LiveBefore(ops, n, j);
      assert Handle(pages[j], held, frameCount);
      if pages[k] != 0 {
        assert Handle(pages[k], held, frameCount) && pages[j] != pages[k];
        if pages[j] / PAGE_SIZE == pages[k] / PAGE_SIZE {
          SamePageNumber(pages[j], pages[k]);
        }
      }
    }
  }

  lemma NotAnAllocation(ops: seq<Op>, n: nat)
    requires n < |ops| && !ops[n].Allocate?
    ensures !Live(ops, n + 1, n)
  {
  }

  lemma SamePageNumber(p: nat, q: nat)
    requires p % PAGE_SIZE == 0 && q % PAGE_SIZE == 0 && p / PAGE_SIZE == q / PAGE_SIZE
    ensures p == q
  {
  }

  // ---------------------------------------------------------------- no frame from outside

  predicate OwnedBySome(s: Snapshot, held: set<nat>, f: nat)
  {
    f in s.free || f in s.tables.Values || f in held
  }

  // Whatever frame has an owner had one at the start
  ghost predicate FramesKept(s0: Snapshot, held0: set<nat>, s: Snapshot, held: set<nat>)
  {
    forall f: nat :: OwnedBySome(s, held, f) ==> OwnedBySome(s0, held0, f)
  }

  lemma MapKeepsFrames(s0: Snapshot, held0: set<nat>, s: Snapshot, s': Snapshot, held: set<nat>,
                       status: Status, va: u64, pa: u64, level: nat, flags: u64)
    requires FramesKept(s0, held0, s, held) && MapResult(s, s', status, va, pa, level, flags)
    ensures FramesKept(s0, held0, s', held)
  {
    hide Snapshot.View, ClearElsewhere, OthersUntouched, MapAt, Snapshot.PathClear;
    var d, missing, supply := Depth(s.tables, va), Missing(s.tables, va, level), Supply(s.free);
    forall f: nat | OwnedBySome(s', held, f)
      ensures OwnedBySome(s, held, f)
    {
      if f in s'.tables.Values {
        ExtendValues(s.tables, va, d, s.free[..if status == Success then missing else supply], f);
      }
    }
  }

  // ---------------------------------------------------------------- the operations in place

  // The caller's store to word i of a page that it holds
  method StoreWord(pm: PageManager, page: nat, i: nat, value: u64)
    requires pm.Valid() && Handle(page, pm.held, pm.pfn.Length) && i < TABLE_LENGTH
    modifies pm.mem
    ensures pm.Valid() && SameElsewhere(old(pm.mem[..]), pm.mem[..], page / PAGE_SIZE)
    ensures forall j :: 0 <= j < TABLE_LENGTH && j != i ==>
              Entry(pm.mem[..], page / PAGE_SIZE, j) == old(Entry(pm.mem[..], page / PAGE_SIZE, j))
    ensures Entry(pm.mem[..], page / PAGE_SIZE, i) == value
    ensures forall v: u64 :: pm.Now().View(v) == old(pm.Now()).View(v)
    ensures forall v: u64, deep: nat :: old(pm.Now()).PathClear(v, deep) ==> pm.Now().PathClear(v, deep)
  {
    hide Enumerates, TreeInv, Clean, Translate, NoLargePage, SameElsewhere, SameOnTables;
    ghost var f, before := page / PAGE_SIZE, pm.mem[..];
    NotATable(pm.pfn[..], pm.tables, pm.held, f);
    NotOnFreeList(pm.Db(), pm.free, f);
    assert page / 8 == f * TABLE_LENGTH;
    WrittenElsewhere(before, f, i, value);
    EntriesAfterStore(before, f, i, value);
    pm.mem[page / 8 + i] := value;
    assert pm.mem[..] == Write(before, f, i, value);
    ElsewhereSparesTables(before, pm.mem[..], pm.tables, f);
    KeptElsewhere(before, pm.mem[..], pm.Root(), pm.tables, pm.free);
    CleanElsewhere(before, pm.mem[..], pm.free, f);
  }

  lemma EntriesAfterStore(mem: Memory, frame: nat, i: nat, value: u64)
    requires frame * TABLE_LENGTH + i < |mem| && i < TABLE_LENGTH
    ensures Entry(Write(mem, frame, i, value), frame, i) == value
    ensures forall j :: 0 <= j < TABLE_LENGTH && j != i ==>
              Entry(Write(mem, frame, i, value), frame, j) == Entry(mem, frame, j)
  {
  }

  // The caller clears its page and gives it back
  method ReturnPage(pm: PageManager, page: nat)
    requires pm.Valid() && Handle(page, pm.held, pm.pfn.Length)
    modifies pm`freeHead, pm`free, pm`held, pm.pfn, pm.mem
    ensures pm.Valid() && pm.held == old(pm.held) - {page / PAGE_SIZE} && pm.free == [page / PAGE_SIZE] + old(pm.free)
    ensures SameElsewhere(old(pm.mem[..]), pm.mem[..], page / PAGE_SIZE)
    ensures forall i :: 0 <= i < TABLE_LENGTH ==> Entry(pm.mem[..], page / PAGE_SIZE, i) == 0
    ensures forall v: u64 :: pm.Now().View(v) == old(pm.Now()).View(v)
    ensures forall v: u64, deep: nat :: old(pm.Now()).PathClear(v, deep) ==> pm.Now().PathClear(v, deep)
  {
    hide Enumerates, TreeInv, Translate, NoLargePage, Entry;
    ghost var s := pm.Now();
    var i := 0;
    while i < TABLE_LENGTH
      invariant 0 <= i <= TABLE_LENGTH && pm.Valid() && pm.held == old(pm.held) && pm.free == old(pm.free)
      invariant SameElsewhere(s.mem, pm.mem[..], page / PAGE_SIZE)
      invariant forall j :: 0 <= j < i ==> Entry(pm.mem[..], page / PAGE_SIZE, j) == 0
      invariant forall v: u64 :: pm.Now().View(v) == s.View(v)
      invariant forall v: u64, deep: nat :: s.PathClear(v, deep) ==> pm.Now().PathClear(v, deep)
      modifies pm.mem
    {
      StoreWord(pm, page, i, 0);
      i := i + 1;
    }
    assert Clean(pm.mem[..], page / PAGE_SIZE);
    NotATable(pm.pfn[..], pm.tables, pm.held, page / PAGE_SIZE);
    pm.FreePhysicalPage(page);
  }

  lemma GrantedHandle(a: Allocator, free: seq<nat>, held: set<nat>, frameCount: nat)
    requires Enumerates(a, free) && free != [] && free[0] * PAGE_SIZE > 0 && frameCount == |a.pfn|
    ensures Handle(free[0] * PAGE_SIZE, held + {free[0]}, frameCount) && free[0] * PAGE_SIZE / PAGE_SIZE == free[0]
  {
    hide NoDuplicates;
  }

  lemma TookOne(s0: Snapshot, held0: set<nat>, s: Snapshot, held: set<nat>, free': seq<nat>, held': set<nat>)
    requires FramesKept(s0, held0, s, held)
    requires free' == AfterFailure(s.free) && (held' == held || (s.free != [] && held' == held + {s.free[0]}))
    ensures FramesKept(s0, held0, s.(free := free'), held')
  {
    forall f: nat | OwnedBySome(s.(free := free'), held', f)
      ensures OwnedBySome(s, held, f)
    {
    }
  }

  lemma GaveBack(s0: Snapshot, held0: set<nat>, s: Snapshot, held: set<nat>, mem': Memory, f: nat)
    requires FramesKept(s0, held0, s, held) && f in held
    ensures FramesKept(s0, held0, s.(mem := mem', free := [f] + s.free), held - {f})
  {
    var s' := s.(mem := mem', free := [f] + s.free);
    forall g: nat | OwnedBySome(s', held - {f}, g)
      ensures OwnedBySome(s, held, g)
    {
    }
  }

  // The state of a run after n operations
  ghost predicate After(s0: Snapshot, held0: set<nat>, s: Snapshot, held: set<nat>, frameCount: nat,
                        ops: seq<Op>, n: nat, pages: seq<nat>, ok: seq<bool>)
  {
    && n <= |ops| && |ok| == |pages| == n
    && InRun(s0, s, ops[..n], ok)
    && PagesHeld(ops, n, pages, held, frameCount)
    && FramesKept(s0, held0, s, held)
  }

  lemma OpAppended(ops: seq<Op>, n: nat)
    requires n < |ops|
    ensures ops[..n + 1] == ops[..n] + [ops[n]]
  {
  }

  lemma AllocateStep(s0: Snapshot, held0: set<nat>, s: Snapshot, held: set<nat>, held': set<nat>, a: Allocator,
                     ops: seq<Op>, n: nat, pages: seq<nat>, ok: seq<bool>, page: nat)
    requires After(s0, held0, s, held, |a.pfn|, ops, n, pages, ok) && n < |ops| && ops[n].Allocate?
    requires Enumerates(a, s.free)
    requires if page == 0 then held' == held
             else s.free != [] && page == s.free[0] * PAGE_SIZE && s.free[0] !in held && held' == held + {s.free[0]}
    ensures After(s0, held0, s.(free := AfterFailure(s.free)), held', |a.pfn|,
                  ops, n + 1, pages + [page], ok + [page != 0])
  {
    hide Enumerates, AfterFailure, InRun, PagesHeld, FramesKept, Handle, Snapshot.View;
    var s' := s.(free := AfterFailure(s.free));
    OpAppended(ops, n);
    SameViews(s, s');
    RunUnchanged(s0, s, s', ops[..n], ok, ops[n], page != 0);
    if page != 0 {
      GrantedHandle(a, s.free, held, |a.pfn|);
    }
    PageGranted(ops, n, pages, held, held', |a.pfn|, page);
    TookOne(s0, held0, s, held, AfterFailure(s.free), held');
  }

  lemma SameViews(s: Snapshot, s': Snapshot)
    requires s'.mem == s.mem && s'.root == s.root && s'.tables == s.tables
    ensures forall v: u64 :: s'.View(v) == s.View(v)
    ensures forall v: u64, deep: nat :: s.PathClear(v, deep) ==> s'.PathClear(v, deep)
  {
  }

  lemma PagesStay(ops: seq<Op>, n: nat, pages: seq<nat>, held: set<nat>, frameCount: nat)
    requires PagesHeld(ops, n, pages, held, frameCount) && n < |ops| && !ops[n].Allocate?
    ensures PagesHeld(ops, n + 1, pages + [0], held, frameCount)
  {
    hide Handle;
    PageGranted(ops, n, pages, held, held, frameCount, 0);
  }

  lemma StoreStep(s0: Snapshot, held0: set<nat>, s: Snapshot, mem': Memory, held: set<nat>, frameCount: nat,
                  ops: seq<Op>, n: nat, pages: seq<nat>, ok: seq<bool>)
    requires After(s0, held0, s, held, frameCount, ops, n, pages, ok) && n < |ops| && ops[n].Store?
    requires forall v: u64 :: s.(mem := mem').View(v) == s.View(v)
    requires forall v: u64, deep: nat :: s.PathClear(v, deep) ==> s.(mem := mem').PathClear(v, deep)
    ensures After(s0, held0, s.(mem := mem'), held, frameCount, ops, n + 1, pages + [0], ok + [true])
  {
    hide InRun, PagesHeld, Handle, Snapshot.View, Snapshot.PathClear;
    OpAppended(ops, n);
    RunUnchanged(s0, s, s.(mem := mem'), ops[..n], ok, ops[n], true);
    PagesStay(ops, n, pages, held, frameCount);
    assert forall f: nat :: OwnedBySome(s.(mem := mem'), held, f) ==> OwnedBySome(s, held, f);
  }

  lemma ReturnStep(s0: Snapshot, held0: set<nat>, s: Snapshot, s': Snapshot, held: set<nat>, held': set<nat>,
                   frameCount: nat, ops: seq<Op>, n: nat, pages: seq<nat>, ok: seq<bool>, k: nat)
    requires After(s0, held0, s, held, frameCount, ops, n, pages, ok) && n < |ops|
    requires ops[n] == Return(k) && k < n && Live(ops, n, k)
    requires if pages[k] == 0 then s' == s && held' == held
             else Handle(pages[k], held, frameCount) && held' == held - {pages[k] / PAGE_SIZE}
                  && s' == s.(mem := s'.mem, free := [pages[k] / PAGE_SIZE] + s.free)
    requires forall v: u64 :: s'.View(v) == s.View(v)
    requires forall v: u64, deep: nat :: s.PathClear(v, deep) ==> s'.PathClear(v, deep)
    ensures After(s0, held0, s', held', frameCount, ops, n + 1, pages + [0], ok + [true])
  {
    hide InRun, PagesHeld, FramesKept, Snapshot.View, Snapshot.PathClear, Live;
    OpAppended(ops, n);
    RunUnchanged(s0, s, s', ops[..n], ok, ops[n], true);
    PageReturned(ops, n, pages, held, held', frameCount, k);
    if pages[k] != 0 {
      GaveBack(s0, held0, s, held, s'.mem, pages[k] / PAGE_SIZE);
    }
  }

  lemma MapStep(s0: Snapshot, held0: set<nat>, s: Snapshot, s': Snapshot, held: set<nat>,
                frameCount: nat, ops: seq<Op>, n: nat, pages: seq<nat>, ok: seq<bool>, status: Status)
    requires After(s0, held0, s, held, frameCount, ops, n, pages, ok) && n < |ops| && ops[n].Map?
    requires MapResult(s, s', status, ops[n].va, ops[n].pa, ops[n].level, EntryFlags(ops[n]))
    ensures After(s0, held0, s', held, frameCount, ops, n + 1, pages + [0], ok + [status == Success])
  {
    hide InRun, PagesHeld, FramesKept, MapResult, Snapshot.View, Snapshot.PathClear;
    var op := ops[n];
    OpAppended(ops, n);
    RunMapped(s0, s, s', ops[..n], ok, op, status);
    PagesStay(ops, n, pages, held, frameCount);
    MapKeepsFrames(s0, held0, s, s', held, status, op.va, op.pa, op.level, EntryFlags(op));
  }

  // What an operation on a live page may rely on
  lemma LivePage(ops: seq<Op>, n: nat, pages: seq<nat>, held: set<nat>, frameCount: nat, k: nat)
    requires PagesHeld(ops, n, pages, held, frameCount) && Live(ops, n, k)
    ensures k < |pages| && (pages[k] != 0 ==> Handle(pages[k], held, frameCount))
  {
    hide Handle;
  }

  lemma LegalMapIsClear(s0: Snapshot, held0: set<nat>, s: Snapshot, held: set<nat>, frameCount: nat,
                        ops: seq<Op>, n: nat, pages: seq<nat>, ok: seq<bool>)
    requires After(s0, held0, s, held, frameCount, ops, n, pages, ok)
    requires n < |ops| && LegalOp(ops, n) && ops[n].Map?
    ensures 1 <= ops[n].level <= 3 && s.PathClear(ops[n].va, ops[n].level)
  {
    hide Snapshot.View, Snapshot.PathClear, Avoids, ViewAfter, PagesHeld, FramesKept;
  }

  method PerformAllocate(pm: PageManager, ghost s0: Snapshot, ghost held0: set<nat>, ops: seq<Op>, n: nat,
                         pages: seq<nat>, ghost ok: seq<bool>) returns (page: nat)
    requires pm.Valid() && n < |ops| && ops[n].Allocate?
    requires After(s0, held0, pm.Now(), pm.held, pm.pfn.Length, ops, n, pages, ok)
    modifies pm`freeHead, pm`free, pm`held, pm.pfn
    ensures pm.Valid()
    ensures After(s0, held0, pm.Now(), pm.held, pm.pfn.Length, ops, n + 1, pages + [page], ok + [page != 0])
    ensures StepOf(ops[n], Target(ops[n], pages), page, page != 0, old(pm.Now()), pm.Now())
  {
    hide Enumerates, After, PageManager.ValidTables, Supply, AfterFailure;
    ghost var s, held, a := pm.Now(), pm.held, pm.Db();
    var status;
    status, page := pm.AllocatePage();
    AllocateStep(s0, held0, s, held, pm.held, a, ops, n, pages, ok, page);
    assert pm.Now() == s.(free := AfterFailure(s.free));
  }

  method PerformStore(pm: PageManager, ghost s0: Snapshot, ghost held0: set<nat>, ops: seq<Op>, n: nat,
                      pages: seq<nat>, ghost ok: seq<bool>)
    requires pm.Valid() && n < |ops| && LegalOp(ops, n) && ops[n].Store?
    requires After(s0, held0, pm.Now(), pm.held, pm.pfn.Length, ops, n, pages, ok)
    modifies pm.mem
    ensures pm.Valid()
    ensures After(s0, held0, pm.Now(), pm.held, pm.pfn.Length, ops, n + 1, pages + [0], ok + [true])
    ensures StepOf(ops[n], Target(ops[n], pages), 0, true, old(pm.Now()), pm.Now())
  {
    hide PageManager.Valid, InRun, PagesHeld, FramesKept, Handle, Live, Snapshot.View, Snapshot.PathClear;
    hide SameElsewhere;
    ghost var s := pm.Now();
    var Store(k, i, value) := ops[n];
    LivePage(ops, n, pages, pm.held, pm.pfn.Length, k);
    if pages[k] != 0 {
      StoreWord(pm, pages[k], i, value);
      WordStored(s.mem, pm.mem[..], pages[k] / PAGE_SIZE, i, value);
    }
    assert pm.Now() == s.(mem := pm.mem[..]);
    hide After, StoredAt;
    StoreStep(s0, held0, s, pm.mem[..], pm.held, pm.pfn.Length, ops, n, pages, ok);
  }

  lemma WordStored(mem: Memory, mem': Memory, frame: nat, i: nat, value: u64)
    requires SameElsewhere(mem, mem', frame) && Entry(mem', frame, i) == value
    requires forall j :: 0 <= j < TABLE_LENGTH && j != i ==> Entry(mem', frame, j) == Entry(mem, frame, j)
    ensures StoredAt(mem, mem', frame, i, value)
  {
    hide Entry;
  }

  method PerformReturn(pm: PageManager, ghost s0: Snapshot, ghost held0: set<nat>, ops: seq<Op>, n: nat,
                       pages: seq<nat>, ghost ok: seq<bool>)
    requires pm.Valid() && n < |ops| && LegalOp(ops, n) && ops[n].Return?
    requires After(s0, held0, pm.Now(), pm.held, pm.pfn.Length, ops, n, pages, ok)
    modifies pm`freeHead, pm`free, pm`held, pm.pfn, pm.mem
    ensures pm.Valid()
    ensures After(s0, held0, pm.Now(), pm.held, pm.pfn.Length, ops, n + 1, pages + [0], ok + [true])
    ensures StepOf(ops[n], Target(ops[n], pages), 0, true, old(pm.Now()), pm.Now())
  {
    hide PageManager.Valid, InRun, PagesHeld, FramesKept, Handle, Snapshot.View, Snapshot.PathClear, SameElsewhere;
    hide Entry;
    ghost var s, held := pm.Now(), pm.held;
    var Return(k) := ops[n];
    LivePage(ops, n, pages, pm.held, pm.pfn.Length, k);
    if pages[k] != 0 {
      ReturnPage(pm, pages[k]);
    }
    ReturnStep(s0, held0, s, pm.Now(), held, pm.held, pm.pfn.Length, ops, n, pages, ok, k);
  }

  // One of the three maps
  method MapOp(pm: PageManager, va: u64, pa: u64, level: nat, flags: u64) returns (status: Status)
    requires pm.Valid() && 1 <= level <= 3 && pm.Now().PathClear(va, level)
    modifies pm`freeHead, pm`free, pm`held, pm`tables, pm.pfn, pm.mem
    ensures pm.Valid() && pm.held == old(pm.held)
    ensures MapResult(old(pm.Now()), pm.Now(), status, va, pa, level, EntryFlags(Map(va, pa, level, flags)))
  {
    hide PageManager.Valid, MapResult, Snapshot.PathClear, LargeFlags;
    if level == 3 {
      status := pm.MapPage(va, pa, flags);
    } else if level == 2 {
      status := pm.MapLargePage(va, pa, flags);
    } else {
      status := pm.MapHugePage(va, pa, flags);
    }
  }

  lemma MapOutcome(s: Snapshot, s': Snapshot, status: Status, op: Op, target: nat)
    requires op.Map? && MapResult(s, s', status, op.va, op.pa, op.level, EntryFlags(op))
    ensures StepOf(op, target, 0, status == Success, s, s')
  {
    hide Snapshot.View, ClearElsewhere, OthersUntouched, Extend, Prune, MapAt, EntryFlags;
  }

  method PerformMap(pm: PageManager, ghost s0: Snapshot, ghost held0: set<nat>, ops: seq<Op>, n: nat,
                    pages: seq<nat>, ghost ok: seq<bool>) returns (status: Status)
    requires pm.Valid() && n < |ops| && LegalOp(ops, n) && ops[n].Map?
    requires After(s0, held0, pm.Now(), pm.held, pm.pfn.Length, ops, n, pages, ok)
    modifies pm`freeHead, pm`free, pm`held, pm`tables, pm.pfn, pm.mem
    ensures pm.Valid()
    ensures After(s0, held0, pm.Now(), pm.held, pm.pfn.Length, ops, n + 1, pages + [0], ok + [status == Success])
    ensures StepOf(ops[n], Target(ops[n], pages), 0, status == Success, old(pm.Now()), pm.Now())
  {
    hide *;
    ghost var s := pm.Now();
    var op := ops[n];
    LegalMapIsClear(s0, held0, s, pm.held, pm.pfn.Length, ops, n, pages, ok);
    status := MapOp(pm, op.va, op.pa, op.level, op.flags);
    MapOutcome(s, pm.Now(), status, op, Target(op, pages));
    MapStep(s0, held0, s, pm.Now(), pm.held, pm.pfn.Length, ops, n, pages, ok, status);
  }

  // A whole run, with the states that it passes through
  method Perform(pm: PageManager, ops: seq<Op>) returns (pages: seq<nat>, ok: seq<bool>, ghost trace: seq<Snapshot>)
    requires pm.Valid() && AllClear(pm.Now()) && LegalOps(ops)
    modifies pm`freeHead, pm`free, pm`held, pm`tables, pm.pfn, pm.mem
    ensures pm.Valid()
    ensures Steps(ops, |ops|, pages, ok, trace) && trace[0] == old(pm.Now()) && trace[|ops|] == pm.Now()
    ensures InRun(old(pm.Now()), pm.Now(), ops, ok)
    ensures PagesHeld(ops, |ops|, pages, pm.held, pm.pfn.Length)
    ensures FramesKept(old(pm.Now()), old(pm.held), pm.Now(), pm.held)
  {
    hide PageManager.Valid, InRun, PagesHeld, FramesKept, AllClear, LegalOp, After, StepOf, Target;
    ghost var s0, held0 := pm.Now(), pm.held;
    pages, ok, trace := [], [], [s0];
    NothingDone(s0, held0, pm.pfn.Length, ops);
    var n := 0;
    while n < |ops|
      invariant 0 <= n <= |ops| && pm.Valid()
      invariant After(s0, held0, pm.Now(), pm.held, pm.pfn.Length, ops, n, pages, ok)
      invariant Steps(ops, n, pages, ok, trace) && trace[0] == s0 && trace[n] == pm.Now()
    {
      var page, done := 0, true;
      if ops[n].Allocate? {
        page := PerformAllocate(pm, s0, held0, ops, n, pages, ok);
        done := page != 0;
      } else if ops[n].Store? {
        PerformStore(pm, s0, held0, ops, n, pages, ok);
      } else if ops[n].Return? {
        PerformReturn(pm, s0, held0, ops, n, pages, ok);
      } else {
        var status := PerformMap(pm, s0, held0, ops, n, pages, ok);
        done := status == Success;
      }
      StepsGrow(ops, n, pages, ok, trace, page, done, pm.Now());
      trace := trace + [pm.Now()];
      pages, ok, n := pages + [page], ok + [done], n + 1;
    }
    AllDone(s0, held0, pm.Now(), pm.held, pm.pfn.Length, ops, pages, ok);
  }

  lemma NothingDone(s: Snapshot, held: set<nat>, frameCount: nat, ops: seq<Op>)
    requires AllClear(s)
    ensures After(s, held, s, held, frameCount, ops, 0, [], [])
  {
    hide AllClear, InRun;
    RunBegins(s);
  }

  lemma AllDone(s0: Snapshot, held0: set<nat>, s: Snapshot, held: set<nat>, frameCount: nat,
                ops: seq<Op>, pages: seq<nat>, ok: seq<bool>)
    requires After(s0, held0, s, held, frameCount, ops, |ops|, pages, ok)
    ensures |pages| == |ok| == |ops| && InRun(s0, s, ops, ok) && PagesHeld(ops, |ops|, pages, held, frameCount)
    ensures FramesKept(s0, held0, s, held)
  {
    hide InRun, PagesHeld, FramesKept;
    assert ops[..|ops|] == ops;
  }

  /** From SsPagingInit on: whatever legal operations follow, each does exactly its step, the tables stay a
      tree of frames that nobody else owns, every address is translated as the successful maps say and faults
      if none serves it, and the pages that callers hold are theirs alone. */
  method RunFromInit(pm: PageManager, ops: seq<Op>)
    returns (page: nat, pages: seq<nat>, ok: seq<bool>, ghost trace: seq<Snapshot>)
    requires pm.ValidFrames() && AllClean(pm.mem[..], AfterFailure(pm.free)) && LegalOps(ops)
    modifies pm, pm.pfn, pm.mem
    ensures page == 0 <==> Supply(old(pm.free)) == 0
    ensures page != 0 ==>
              && pm.Valid() && Steps(ops, |ops|, pages, ok, trace) && trace[|ops|] == pm.Now()
              && trace[0].tables == map[ROOT := page / PAGE_SIZE] && trace[0].free == AfterFailure(old(pm.free))
              && (forall v: u64 :: pm.Now().View(v) == ViewAfter(Fault, ops, ok, v))
              && PagesHeld(ops, |ops|, pages, pm.held, pm.pfn.Length)
  {
    hide PageManager.ValidFrames, AllClean, AfterFailure, Supply, PagesHeld, AllClear, LegalOps, Snapshot.View;
    hide FramesKept;
    hide StepOf, Target;
    page := pm.PagingInit();
    pages, ok, trace := [], [], [];
    if page != 0 {
      FreshIsClear(pm);
      ghost var s := pm.Now();
      pages, ok, trace := Perform(pm, ops);
      StartedFromNothing(s, pm.Now(), ops, ok);
    }
  }

  // Operation k of the run maps the page of va present, no larger page was asked for there, and later maps
  // that serve va are present 4 KiB pages too
  predicate KeepsMapped(ops: seq<Op>, va: u64, k: nat)
  {
    && k < |ops| && ops[k].Map? && ops[k].level == 3 && Present(ops[k].flags) && Slot(va, 3) == Slot(ops[k].va, 3)
    && Avoids(ops, va, 3)
    && forall i :: k < i < |ops| && ops[i].Map? && Slot(va, ops[i].level) == Slot(ops[i].va, ops[i].level) ==>
         ops[i].level == 3 && Present(ops[i].flags)
  }

  /** After any run that puts no larger page on an address, MappingExists tells whether the address is translated;
      and if MapPage succeeded in the run for its page, and later maps keep it mapped, then it is. */
  method RunThenTest(pm: PageManager, ops: seq<Op>, va: u64)
    returns (pages: seq<nat>, ok: seq<bool>, status: Status, ghost trace: seq<Snapshot>)
    requires pm.Valid() && AllClear(pm.Now()) && LegalOps(ops) && Canonical(va) && Avoids(ops, va, 3)
    modifies pm`freeHead, pm`free, pm`held, pm`tables, pm.pfn, pm.mem
    ensures pm.Valid()
    ensures Steps(ops, |ops|, pages, ok, trace) && trace[0] == old(pm.Now()) && trace[|ops|] == pm.Now()
    ensures PagesHeld(ops, |ops|, pages, pm.held, pm.pfn.Length)
    ensures status == if pm.View(va) != Fault then Success else Aborted
    ensures forall k: nat :: KeepsMapped(ops, va, k) && ok[k] ==> status == Success
  {
    hide PageManager.Valid, InRun, PagesHeld, FramesKept, AllClear, LegalOps, KeepsMapped, TestsInside, TestsPresent;
    hide Snapshot.View, Snapshot.PathClear, StepOf, Target, Canonical;
    ghost var s0 := pm.Now();
    pages, ok, trace := Perform(pm, ops);
    PathAfterRun(s0, pm.Now(), ops, ok, va);
    pm.TestsMatchWalk(va);
    forall k: nat | KeepsMapped(ops, va, k)
      ensures k < |ops| && (ok[k] ==> pm.View(va) != Fault)
    {
      WithinRun(ops, va, k);
      if ok[k] {
        MappedAfterRun(s0, pm.Now(), ops, ok, va, k);
      }
    }
    status := pm.MappingExists(pm.gPml4, va);
  }

  lemma WithinRun(ops: seq<Op>, va: u64, k: nat)
    requires KeepsMapped(ops, va, k)
    ensures k < |ops|
  {
  }

  lemma PathAfterRun(s0: Snapshot, s: Snapshot, ops: seq<Op>, ok: seq<bool>, va: u64)
    requires InRun(s0, s, ops, ok) && Avoids(ops, va, 3)
    ensures s.PathClear(va, 3)
  {
    hide Snapshot.View, Snapshot.PathClear, Avoids, ViewAfter;
  }

  lemma MappedAfterRun(s0: Snapshot, s: Snapshot, ops: seq<Op>, ok: seq<bool>, va: u64, k: nat)
    requires InRun(s0, s, ops, ok) && KeepsMapped(ops, va, k) && ok[k] && Canonical(va)
    ensures s.View(va) != Fault
  {
    hide Snapshot.View, Snapshot.PathClear, Avoids, ViewAfter, Canonical;
    StaysMapped(s0.View(va), ops, ok, va, k);
  }

  lemma FreshIsClear(pm: PageManager)
    requires pm.Valid() && pm.tables == map[ROOT := pm.Root()]
    ensures AllClear(pm.Now())
  {
    RootIsClear(pm.mem[..], pm.Root(), pm.free);
  }

  lemma StartedFromNothing(s0: Snapshot, s: Snapshot, ops: seq<Op>, ok: seq<bool>)
    requires InRun(s0, s, ops, ok) && forall v: u64 :: s0.View(v) == Fault
    ensures |ok| == |ops| && forall v: u64 :: s.View(v) == ViewAfter(Fault, ops, ok, v)
  {
    hide Snapshot.View, ViewAfter, Avoids, Snapshot.PathClear;
  }
}
