/**
  What a change of memory that spares the page tables leaves alone, and where the frames of an operation
  come from.
 */
module Separation {
  import opened Bits
  import opened PageWalk
  import opened PageTree
  import opened Mapping
  import opened Paging

  // ---------------------------------------------------------------- writes that spare the tables

  // The tables hold the same entries
  ghost predicate SameOnTables(mem: Memory, mem': Memory, t: Tree)
  {
    |mem'| == |mem| && forall f: nat, i: nat :: f in t.Values && i < TABLE_LENGTH ==>
        Entry(mem', f, i) == Entry(mem, f, i)
  }

  lemma TreeElsewhere(mem: Memory, mem': Memory, root: nat, t: Tree)
    requires TreeInv(mem, root, t) && SameOnTables(mem, mem', t)
    ensures TreeInv(mem', root, t)
  {
    forall n, i | n in t && 0 <= i < TABLE_LENGTH
      ensures EntryAccounted(mem', t, n, i)
    {
      assert EntryAccounted(mem, t, n, i);
    }
    forall n | n in t
      ensures Placed(mem', t, n)
    {
      assert Placed(mem, t, n);
    }
    forall n | n in t && n.level > 0
      ensures Linked(mem', t, n)
    {
      assert Linked(mem, t, n);
    }
  }

  lemma ViewElsewhere(mem: Memory, mem': Memory, root: nat, t: Tree, v: u64)
    requires TreeInv(mem, root, t) && TreeInv(mem', root, t) && SameOnTables(mem, mem', t)
    ensures Translate(mem', root, v) == Translate(mem, root, v)
  {
    if Canonical(v) {
      TranslateByDepth(mem, root, t, v);
      TranslateByDepth(mem', root, t, v);
    }
  }

  lemma PathElsewhere(mem: Memory, mem': Memory, t: Tree, v: u64, deep: nat)
    requires SameOnTables(mem, mem', t)
    ensures NoLargePage(mem', t, v, deep) <==> NoLargePage(mem, t, v, deep)
  {
    forall k: nat | k < deep && PathNode(v, k) in t
      ensures Entry(mem', t[PathNode(v, k)], Index(v, k)) == Entry(mem, t[PathNode(v, k)], Index(v, k))
    {
    }
  }

  /** Whatever is written outside the tables and the free frames keeps tables, translations and clear paths. */
  lemma KeptElsewhere(mem: Memory, mem': Memory, root: nat, t: Tree, free: seq<nat>)
    requires TreeInv(mem, root, t) && SameOnTables(mem, mem', t)
    ensures TreeInv(mem', root, t)
    ensures forall v: u64 :: Snapshot(mem', root, t, free).View(v) == Snapshot(mem, root, t, free).View(v)
    ensures forall v: u64, deep: nat ::
              Snapshot(mem, root, t, free).PathClear(v, deep) ==> Snapshot(mem', root, t, free).PathClear(v, deep)
  {
    hide Translate, NoLargePage, SameOnTables, TreeInv;
    TreeElsewhere(mem, mem', root, t);
    forall v: u64
      ensures Translate(mem', root, v) == Translate(mem, root, v)
    {
      ViewElsewhere(mem, mem', root, t, v);
    }
    forall v: u64, deep: nat | NoLargePage(mem, t, v, deep)
      ensures NoLargePage(mem', t, v, deep)
    {
      PathElsewhere(mem, mem', t, v, deep);
    }
  }

  // Only the given frame differs
  ghost predicate SameElsewhere(mem: Memory, mem': Memory, frame: nat)
  {
    |mem'| == |mem| && forall f: nat, i: nat :: f != frame && i < TABLE_LENGTH ==> Entry(mem', f, i) == Entry(mem, f, i)
  }

  lemma ElsewhereSparesTables(mem: Memory, mem': Memory, t: Tree, frame: nat)
    requires SameElsewhere(mem, mem', frame) && frame !in t.Values
    ensures SameOnTables(mem, mem', t)
  {
  }

  lemma CleanElsewhere(mem: Memory, mem': Memory, free: seq<nat>, frame: nat)
    requires SameElsewhere(mem, mem', frame) && frame !in free && AllClean(mem, free)
    ensures AllClean(mem', free)
  {
    forall g, i | g in free && 0 <= i < TABLE_LENGTH
      ensures !Present(Entry(mem', g, i))
    {
      assert Clean(mem, g);
    }
  }

  lemma WrittenElsewhere(mem: Memory, frame: nat, i: nat, value: u64)
    requires frame * TABLE_LENGTH + i < |mem| && i < TABLE_LENGTH
    ensures SameElsewhere(mem, Write(mem, frame, i, value), frame)
  {
  }

  // ---------------------------------------------------------------- frames that an operation may touch

  // The allocator's side of memory: tables and free frames
  predicate Managed(s: Snapshot, f: nat)
  {
    f in s.free || f in s.tables.Values
  }

  // The free list lost frames from its front only, and every new table is one of them
  ghost predicate Drawn(s0: Snapshot, s: Snapshot)
  {
    && |s.free| <= |s0.free| && s.free == s0.free[|s0.free| - |s.free|..]
    && forall f: nat :: f in s.tables.Values ==> f in s0.tables.Values || f in s0.free[..|s0.free| - |s.free|]
  }

  lemma DrawnTrans(s0: Snapshot, s: Snapshot, s': Snapshot)
    requires Drawn(s0, s) && Drawn(s, s')
    ensures Drawn(s0, s')
  {
    var j, k := |s0.free| - |s.free|, |s0.free| - |s'.free|;
    DropDrop(s0.free, j, k - j);
    assert s'.free == s0.free[k..];
    forall f: nat | f in s'.tables.Values
      ensures f in s0.tables.Values || f in s0.free[..k]
    {
      if f !in s.tables.Values {
        TakeOfDrop(s0.free, j, k - j, f);
      } else if f !in s0.tables.Values {
        TakeMore(s0.free, j, k, f);
      }
    }
  }

  lemma DropDrop(free: seq<nat>, m: nat, n: nat)
    requires m <= |free| && n <= |free| - m
    ensures free[m..][n..] == free[m + n..]
  {
  }

  lemma TakeOfDrop(free: seq<nat>, m: nat, n: nat, f: nat)
    requires m <= |free| && n <= |free| - m && f in free[m..][..n]
    ensures f in free[..m + n]
  {
    var i :| 0 <= i < n && free[m..][..n][i] == f;
    assert free[..m + n][m + i] == f;
  }

  lemma TakeMore(free: seq<nat>, m: nat, n: nat, f: nat)
    requires m <= n <= |free| && f in free[..m]
    ensures f in free[..n]
  {
    var i :| 0 <= i < m && free[..m][i] == f;
    assert free[..n][i] == f;
  }

  lemma DrawnIsManaged(s0: Snapshot, s: Snapshot, f: nat)
    requires Drawn(s0, s) && Managed(s, f)
    ensures Managed(s0, f)
  {
    var k := |s0.free| - |s.free|;
    if f in s.free {
      var i :| 0 <= i < |s.free| && s.free[i] == f;
      assert s0.free[k + i] == f;
    } else if f !in s0.tables.Values {
      TakeMore(s0.free, k, |s0.free|, f);
      assert s0.free[..|s0.free|] == s0.free;
    }
  }

  // Of the listed frames, those up to some point were taken and the rest is free; every table is one of those
  // taken
  ghost predicate DrawnFrom(listed: seq<nat>, s: Snapshot)
  {
    && |s.free| <= |listed| && s.free == listed[|listed| - |s.free|..]
    && forall f: nat :: f in s.tables.Values ==> f in listed[..|listed| - |s.free|]
  }

  lemma StillDrawnFrom(listed: seq<nat>, s: Snapshot, s': Snapshot)
    requires DrawnFrom(listed, s) && Drawn(s, s')
    ensures DrawnFrom(listed, s')
  {
    var j, k := |listed| - |s.free|, |listed| - |s'.free|;
    DropDrop(listed, j, k - j);
    forall f: nat | f in s'.tables.Values
      ensures f in listed[..k]
    {
      if f in s.tables.Values {
        TakeMore(listed, j, k, f);
      } else {
        TakeOfDrop(listed, j, k - j, f);
      }
    }
  }

  lemma DrawnFromListed(listed: seq<nat>, s: Snapshot, f: nat)
    requires DrawnFrom(listed, s) && Managed(s, f)
    ensures f in listed
  {
    var k := |listed| - |s.free|;
    if f in s.free {
      var i :| 0 <= i < |s.free| && s.free[i] == f;
      assert listed[k + i] == f;
    } else {
      TakeMore(listed, k, |listed|, f);
      assert listed[..|listed|] == listed;
    }
  }

  // Tables come from the front of the free list, and what was not managed keeps its contents
  ghost predicate Confined(s0: Snapshot, s: Snapshot)
  {
    Drawn(s0, s) && OthersUntouched(s0, s)
  }

  lemma ConfinedTrans(s0: Snapshot, s: Snapshot, s': Snapshot)
    requires Confined(s0, s) && Confined(s, s')
    ensures Confined(s0, s')
  {
    DrawnTrans(s0, s, s');
    hide Drawn;
    forall f: nat, i: nat | i < TABLE_LENGTH && f !in s0.tables.Values && f !in s0.free
      ensures Entry(s'.mem, f, i) == Entry(s0.mem, f, i)
    {
      if Managed(s, f) {
        DrawnIsManaged(s0, s, f);
      }
    }
  }

  /** A map takes its tables from the front of the free list and writes to tables only. */
  lemma MapConfined(s: Snapshot, s': Snapshot, status: Status, va: u64, pa: u64, level: nat, flags: u64)
    requires MapResult(s, s', status, va, pa, level, flags)
    ensures Confined(s, s')
  {
    hide Snapshot.View, ClearElsewhere, OthersUntouched, MapAt, Snapshot.PathClear;
    var d, missing, supply := Depth(s.tables, va), Missing(s.tables, va, level), Supply(s.free);
    var used := if status == Success then missing else supply;
    forall f: nat | f in s'.tables.Values
      ensures f in s.tables.Values || f in s.free[..|s.free| - |s'.free|]
    {
      ExtendValues(s.tables, va, d, s.free[..used], f);
      if f in s.free[..used] {
        TakeMore(s.free, used, |s.free| - |s'.free|, f);
      }
    }
  }
}
