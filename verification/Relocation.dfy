/**
  Base relocation of a loaded image, as in section ".reloc Section (Image Only)" of the Microsoft PE
  Format specification: what the fixups do to the image. The walk over the blocks is in RelocationWalk.
 */
module Relocation {
  import opened Bits
  import opened ByteOrder

  const WORD_SPACE := 0x1_0000_0000_0000_0000
  const BLOCK_HEADER := 8
  const REL_BASED_ABSOLUTE := 0
  const REL_BASED_DIR64 := 10
  const DIRECTORY_ENTRY_BASERELOC := 5

  // ---------------------------------------------------------------- fixups

  // *(UINT64*)(b + at) += delta
  function AddWord(b: Bytes, at: nat, delta: nat): (r: Bytes)
    requires at + 8 <= |b|
    ensures |r| == |b|
  {
    CopyInto(b, at, ToBytes((U64(b, at) + delta) % WORD_SPACE, 8))
  }

  predicate InBounds(targets: seq<nat>, size: nat)
  {
    forall i :: 0 <= i < |targets| ==> targets[i] + 8 <= size
  }

  function AddAll(b: Bytes, targets: seq<nat>, delta: nat): (r: Bytes)
    requires InBounds(targets, |b|)
    ensures |r| == |b|
  {
    if targets == [] then b
    else AddWord(AddAll(b, targets[..|targets| - 1], delta), targets[|targets| - 1], delta)
  }

  predicate Apart(s: nat, t: nat)
  {
    s + 8 <= t || t + 8 <= s
  }

  // Targets never overlap in part
  ghost predicate Compatible(targets: seq<nat>)
  {
    forall i, j :: 0 <= i < |targets| && 0 <= j < |targets| ==>
        targets[i] == targets[j] || Apart(targets[i], targets[j])
  }

  lemma ReadWritten(b: Bytes, at: nat, x: u64)
    requires at + 8 <= |b|
    ensures U64(CopyInto(b, at, ToBytes(x, 8)), at) == x
  {
    hide ToBytes, LE, CopyInto, Power256;
    var w := ToBytes(x, 8);
    CopiedRange(b, at, w);
    LESame(CopyInto(b, at, w), w, at, 0, 8);
    ReadBack(x, 8);
    Power256s();
  }

  lemma CopiedRange(b: Bytes, at: nat, src: Bytes)
    requires at + |src| <= |b|
    ensures CopyInto(b, at, src)[at..at + |src|] == src[0..0 + |src|]
  {
  }

  lemma ReadElsewhere(b: Bytes, at: nat, src: Bytes, t: nat)
    requires at + |src| <= |b| && |src| == 8 && t + 8 <= |b| && Apart(at, t)
    ensures U64(CopyInto(b, at, src), t) == U64(b, t)
  {
    assert CopyInto(b, at, src)[t..t + 8] == b[t..t + 8];
    LESame(CopyInto(b, at, src), b, t, t, 8);
  }

  lemma CopyTwice(b: Bytes, at: nat, one: Bytes, two: Bytes)
    requires |one| == |two| && at + |one| <= |b|
    ensures CopyInto(CopyInto(b, at, one), at, two) == CopyInto(b, at, two)
  {
  }

  lemma CopySame(b: Bytes, at: nat, n: nat)
    requires at + n <= |b|
    ensures CopyInto(b, at, b[at..at + n]) == b
  {
  }

  lemma CopiesCommute(b: Bytes, s: nat, one: Bytes, t: nat, two: Bytes)
    requires |one| == |two| == 8 && s + 8 <= |b| && t + 8 <= |b| && Apart(s, t)
    ensures CopyInto(CopyInto(b, s, one), t, two) == CopyInto(CopyInto(b, t, two), s, one)
  {
  }

  lemma AddTwice(b: Bytes, at: nat, x: nat, y: nat)
    requires at + 8 <= |b|
    ensures AddWord(AddWord(b, at, x), at, y) == AddWord(b, at, (x + y) % WORD_SPACE)
  {
    hide U64, CopyInto, ToBytes;
    var w := U64(b, at);
    var one := ToBytes((w + x) % WORD_SPACE, 8);
    ReadWritten(b, at, (w + x) % WORD_SPACE);
    SumsAgree(w, x, y);
    CopyTwice(b, at, one, ToBytes((w + (x + y) % WORD_SPACE) % WORD_SPACE, 8));
  }

  lemma SumsAgree(w: nat, x: nat, y: nat)
    ensures ((w + x) % WORD_SPACE + y) % WORD_SPACE == (w + (x + y) % WORD_SPACE) % WORD_SPACE
  {
    ModuloAdd(w + x, y);
    ModuloAdd(x + y, w);
  }

  lemma ModuloAdd(a: nat, d: nat)
    ensures (a % WORD_SPACE + d) % WORD_SPACE == (a + d) % WORD_SPACE
  {
  }

  lemma AddZero(b: Bytes, at: nat)
    requires at + 8 <= |b|
    ensures AddWord(b, at, 0) == b
  {
    WordBytes(b, at);
    AddWordIs(b, at, 0, U64(b, at));
    CopySame(b, at, 8);
    hide *;
  }

  lemma AddWordIs(b: Bytes, at: nat, d: nat, w: u64)
    requires at + 8 <= |b| && w == (U64(b, at) + d) % WORD_SPACE
    ensures AddWord(b, at, d) == CopyInto(b, at, ToBytes(w, 8))
  {
    hide U64;
  }

  lemma WordBytes(b: Bytes, at: nat)
    requires at + 8 <= |b|
    ensures ToBytes(U64(b, at), 8) == b[at..at + 8]
  {
    hide LE, ToBytes;
    WriteBack(b, at, 8);
  }

  lemma AddsCommute(b: Bytes, s: nat, x: nat, t: nat, y: nat)
    requires s + 8 <= |b| && t + 8 <= |b| && (s == t || Apart(s, t))
    ensures AddWord(AddWord(b, s, x), t, y) == AddWord(AddWord(b, t, y), s, x)
  {
    hide U64, CopyInto, ToBytes;
    if s == t {
      AddTwice(b, s, x, y);
      AddTwice(b, s, y, x);
    } else {
      var ws, wt := ToBytes((U64(b, s) + x) % WORD_SPACE, 8), ToBytes((U64(b, t) + y) % WORD_SPACE, 8);
      ReadElsewhere(b, s, ws, t);
      ReadElsewhere(b, t, wt, s);
      CopiesCommute(b, s, ws, t, wt);
    }
  }

  lemma {:induction false} AddAllCommutes(b: Bytes, targets: seq<nat>, x: nat, t: nat, y: nat)
    requires InBounds(targets, |b|) && t + 8 <= |b|
    requires forall i :: 0 <= i < |targets| ==> targets[i] == t || Apart(targets[i], t)
    ensures AddAll(AddWord(b, t, y), targets, x) == AddWord(AddAll(b, targets, x), t, y)
  {
    if targets != [] {
      var front, last := targets[..|targets| - 1], targets[|targets| - 1];
      AddAllCommutes(b, front, x, t, y);
      AddsCommute(AddAll(b, front, x), last, x, t, y);
    }
  }

  /** Relocating by one distance and then by another is relocating by their sum. */
  lemma {:induction false} RelocationsCompose(b: Bytes, targets: seq<nat>, d1: nat, d2: nat)
    requires InBounds(targets, |b|) && Compatible(targets)
    ensures AddAll(AddAll(b, targets, d1), targets, d2) == AddAll(b, targets, (d1 + d2) % WORD_SPACE)
  {
    if targets != [] {
      var front, last := targets[..|targets| - 1], targets[|targets| - 1];
      RelocationsCompose(b, front, d1, d2);
      var once := AddAll(b, front, d1);
      AddAllCommutes(once, front, d2, last, d1);
      AddTwice(AddAll(once, front, d2), last, d1, d2);
    }
  }

  lemma {:induction false} RelocationByZero(b: Bytes, targets: seq<nat>)
    requires InBounds(targets, |b|)
    ensures AddAll(b, targets, 0) == b
  {
    if targets != [] {
      RelocationByZero(b, targets[..|targets| - 1]);
      AddZero(b, targets[|targets| - 1]);
    }
  }

  /** Relocating back restores the image byte for byte. */
  lemma RelocationInverts(b: Bytes, targets: seq<nat>, d: nat)
    requires InBounds(targets, |b|) && Compatible(targets) && d <= WORD_SPACE
    ensures AddAll(AddAll(b, targets, d), targets, WORD_SPACE - d) == b
  {
    hide AddAll, Compatible;
    RelocationsCompose(b, targets, d, WORD_SPACE - d);
    RelocationByZero(b, targets);
  }

  // How often a target is listed
  function Times(targets: seq<nat>, t: nat): nat
  {
    if targets == [] then 0
    else Times(targets[..|targets| - 1], t) + (if targets[|targets| - 1] == t then 1 else 0)
  }

  // The distance once for each time the target is listed
  function Shift(targets: seq<nat>, t: nat, d: nat): nat
  {
    if targets == [] then 0
    else Shift(targets[..|targets| - 1], t, d) + (if targets[|targets| - 1] == t then d else 0)
  }

  lemma {:induction false} ShiftIsTimes(targets: seq<nat>, t: nat, d: nat)
    ensures Shift(targets, t, d) == Times(targets, t) * d
  {
    if targets != [] {
      ShiftIsTimes(targets[..|targets| - 1], t, d);
      var n := Times(targets[..|targets| - 1], t);
      assert (n + 1) * d == n * d + d;
    }
  }

  lemma {:induction false} WordShifted(b: Bytes, targets: seq<nat>, d: nat, t: nat)
    requires InBounds(targets, |b|) && t + 8 <= |b|
    requires forall i :: 0 <= i < |targets| ==> targets[i] == t || Apart(targets[i], t)
    ensures U64(AddAll(b, targets, d), t) == (U64(b, t) + Shift(targets, t, d)) % WORD_SPACE
  {
    hide U64, AddAll, AddWord, Shift;
    if targets == [] {
      NoShift(b, d, t);
    } else {
      var front, last := targets[..|targets| - 1], targets[|targets| - 1];
      LastShift(b, targets, d, t);
      WordShifted(b, front, d, t);
      AddedWord(AddAll(b, front, d), last, d, t);
      ModuloAdd(U64(b, t) + Shift(front, t, d), d);
    }
  }

  lemma NoShift(b: Bytes, d: nat, t: nat)
    requires t + 8 <= |b|
    ensures U64(AddAll(b, [], d), t) == (U64(b, t) + Shift([], t, d)) % WORD_SPACE
  {
    hide U64;
  }

  lemma LastShift(b: Bytes, targets: seq<nat>, d: nat, t: nat)
    requires InBounds(targets, |b|) && targets != []
    ensures var front, last := targets[..|targets| - 1], targets[|targets| - 1];
            AddAll(b, targets, d) == AddWord(AddAll(b, front, d), last, d)
            && Shift(targets, t, d) == Shift(front, t, d) + (if last == t then d else 0)
  {
  }

  /** The word at a target has grown by the distance once for each time the target is listed, modulo
      2^64. */
  lemma WordAfterRelocation(b: Bytes, targets: seq<nat>, d: nat, t: nat)
    requires InBounds(targets, |b|) && t + 8 <= |b|
    requires forall i :: 0 <= i < |targets| ==> targets[i] == t || Apart(targets[i], t)
    ensures U64(AddAll(b, targets, d), t) == (U64(b, t) + Times(targets, t) * d) % WORD_SPACE
  {
    WordShifted(b, targets, d, t);
    ShiftIsTimes(targets, t, d);
    hide *;
  }

  lemma AddedWord(b: Bytes, at: nat, d: nat, t: nat)
    requires at + 8 <= |b| && t + 8 <= |b| && (at == t || Apart(at, t))
    ensures U64(AddWord(b, at, d), t) == if at == t then (U64(b, t) + d) % WORD_SPACE else U64(b, t)
  {
    hide U64, CopyInto, ToBytes;
    var w := (U64(b, at) + d) % WORD_SPACE;
    if at == t {
      ReadWritten(b, at, w);
    } else {
      ReadElsewhere(b, at, ToBytes(w, 8), t);
    }
  }

  /** A byte outside all targets is unchanged. */
  lemma {:induction false} BytesOutsideStay(b: Bytes, targets: seq<nat>, d: nat, x: nat)
    requires InBounds(targets, |b|) && x < |b|
    requires forall i :: 0 <= i < |targets| ==> !(targets[i] <= x < targets[i] + 8)
    ensures AddAll(b, targets, d)[x] == b[x]
  {
    if targets != [] {
      BytesOutsideStay(b, targets[..|targets| - 1], d, x);
    }
  }

  lemma {:induction false} TimesOnce(targets: seq<nat>, i: nat)
    requires i < |targets| && forall j :: 0 <= j < |targets| && j != i ==> targets[j] != targets[i]
    ensures Times(targets, targets[i]) == 1
  {
    var n := |targets| - 1;
    if i == n {
      TimesNone(targets[..n], targets[i]);
    } else {
      TimesOnce(targets[..n], i);
    }
  }

  lemma {:induction false} TimesNone(targets: seq<nat>, t: nat)
    requires forall j :: 0 <= j < |targets| ==> targets[j] != t
    ensures Times(targets, t) == 0
  {
    if targets != [] {
      TimesNone(targets[..|targets| - 1], t);
    }
  }

  /** The exact effect for pairwise disjoint targets: every target word moves by the distance modulo
      2^64, and no other byte changes. */
  lemma RelocationEffect(b: Bytes, targets: seq<nat>, d: nat)
    requires InBounds(targets, |b|)
    requires forall i, j :: 0 <= i < |targets| && 0 <= j < |targets| && i != j ==> Apart(targets[i], targets[j])
    ensures forall i :: 0 <= i < |targets| ==>
              U64(AddAll(b, targets, d), targets[i]) == (U64(b, targets[i]) + d) % WORD_SPACE
    ensures forall x :: 0 <= x < |b| && (forall i :: 0 <= i < |targets| ==> !(targets[i] <= x < targets[i] + 8)) ==>
              AddAll(b, targets, d)[x] == b[x]
  {
    hide U64, AddAll, Times;
    forall i | 0 <= i < |targets|
      ensures U64(AddAll(b, targets, d), targets[i]) == (U64(b, targets[i]) + d) % WORD_SPACE
    {
      TimesOnce(targets, i);
      WordAfterRelocation(b, targets, d, targets[i]);
    }
    forall x | 0 <= x < |b| && (forall i :: 0 <= i < |targets| ==> !(targets[i] <= x < targets[i] + 8))
      ensures AddAll(b, targets, d)[x] == b[x]
    {
      BytesOutsideStay(b, targets, d, x);
    }
  }

  // ---------------------------------------------------------------- targets that do not overlap

  ghost predicate PairwiseApart(targets: seq<nat>)
  {
    forall i, j :: 0 <= i < |targets| && 0 <= j < |targets| && i != j ==> Apart(targets[i], targets[j])
  }

  lemma AloneAmong(targets: seq<nat>, i: nat)
    requires PairwiseApart(targets) && i < |targets|
    ensures forall j :: 0 <= j < |targets| ==> targets[j] == targets[i] || Apart(targets[j], targets[i])
    ensures forall j :: 0 <= j < |targets| && j != i ==> targets[j] != targets[i]
  {
    forall j | 0 <= j < |targets| && j != i
      ensures targets[j] != targets[i] && Apart(targets[j], targets[i])
    {
      assert Apart(targets[j], targets[i]);
    }
  }

  lemma TargetMoves(placed: Bytes, targets: seq<nat>, d: nat, t: nat)
    requires InBounds(targets, |placed|) && PairwiseApart(targets) && t in targets
    ensures t + 8 <= |placed| && U64(AddAll(placed, targets, d), t) == (U64(placed, t) + d) % WORD_SPACE
  {
    var i :| 0 <= i < |targets| && targets[i] == t;
    AloneAmong(targets, i);
    TimesOnce(targets, i);
    hide U64, AddAll, PairwiseApart, Apart, Times;
    WordAfterRelocation(placed, targets, d, t);
  }
}
