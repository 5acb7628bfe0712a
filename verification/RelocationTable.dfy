/**
  Relocation in terms of what a linker writes: blocks of words, each a kind and an offset in a page.
 */
module RelocationTable {
  import opened Bits
  import opened ByteOrder
  import opened Pe
  import opened Placement
  import opened Relocation
  import opened RelocationWalk

  // Word j of block i asks for a 64-bit fixup
  predicate IsFixup(blocks: seq<Block>, i: nat, j: nat)
  {
    i < |blocks| && j < |blocks[i].words| && blocks[i].words[j] / 0x1000 == 10
  }

  // The offset of the word that it fixes
  function FixupOffset(blocks: seq<Block>, i: nat, j: nat): nat
    requires IsFixup(blocks, i, j)
  {
    blocks[i].page + blocks[i].words[j] % 0x1000
  }

  // Every word is padding or a 64-bit fixup
  predicate KnownWords(blocks: seq<Block>)
  {
    forall i, j :: 0 <= i < |blocks| && 0 <= j < |blocks[i].words| ==>
      blocks[i].words[j] / 0x1000 == 0 || blocks[i].words[j] / 0x1000 == 10
  }

  // No two fixups overlap
  ghost predicate FixupsApart(blocks: seq<Block>)
  {
    forall i: nat, j: nat, k: nat, l: nat ::
      IsFixup(blocks, i, j) && IsFixup(blocks, k, l) && (i != k || j != l) ==>
        Apart(FixupOffset(blocks, i, j), FixupOffset(blocks, k, l))
  }

  // ---------------------------------------------------------------- the targets of one block

  // Word j of a block is a fixup of the given offset
  predicate Fixes(page: nat, words: seq<nat>, j: nat, t: nat)
  {
    j < |words| && words[j] / 0x1000 == 10 && page + words[j] % 0x1000 == t
  }

  // Some word of the block is a fixup of the given offset
  ghost predicate SomeFixes(page: nat, words: seq<nat>, t: nat)
  {
    exists j: nat :: Fixes(page, words, j, t)
  }

  lemma {:induction false} BlockHasTarget(page: nat, words: seq<nat>, t: nat)
    ensures t in Targets(FixupsOf(page, words)) <==> SomeFixes(page, words, t)
  {
    hide FixupsOf, Targets, TargetOf, SomeFixes, Fixes;
    if words == [] {
      NoWords(page, t);
    } else {
      var n := |words| - 1;
      LastFixup(page, words);
      BlockHasTarget(page, words[..n], t);
      TargetOfWord(page, words[n], t);
      LastFixes(page, words, t);
    }
  }

  lemma NoWords(page: nat, t: nat)
    ensures Targets(FixupsOf(page, [])) == [] && !SomeFixes(page, [], t)
  {
  }

  lemma TargetOfWord(page: nat, word: nat, t: nat)
    ensures t in TargetOf(Fixup(page, word / 0x1000, word % 0x1000))
            <==> word / 0x1000 == 10 && page + word % 0x1000 == t
  {
  }

  lemma LastFixes(page: nat, words: seq<nat>, t: nat)
    requires words != []
    ensures var n := |words| - 1;
            SomeFixes(page, words, t)
            <==> SomeFixes(page, words[..n], t) || (words[n] / 0x1000 == 10 && page + words[n] % 0x1000 == t)
  {
    var n := |words| - 1;
    if SomeFixes(page, words[..n], t) {
      var j: nat :| Fixes(page, words[..n], j, t);
      assert Fixes(page, words, j, t);
    }
    if SomeFixes(page, words, t) {
      var j: nat :| Fixes(page, words, j, t);
      assert j < n ==> Fixes(page, words[..n], j, t);
    }
    assert Fixes(page, words, n, t) <==> words[n] / 0x1000 == 10 && page + words[n] % 0x1000 == t;
  }

  lemma LastFixup(page: nat, words: seq<nat>)
    requires words != []
    ensures var n := |words| - 1;
            Targets(FixupsOf(page, words))
            == Targets(FixupsOf(page, words[..n])) + TargetOf(Fixup(page, words[n] / 0x1000, words[n] % 0x1000))
  {
    var n := |words| - 1;
    var fixups := FixupsOf(page, words);
    assert fixups[..|fixups| - 1] == FixupsOf(page, words[..n]);
  }

  lemma ConcatApart(a: seq<nat>, c: seq<nat>)
    requires PairwiseApart(a) && PairwiseApart(c)
    requires forall s, t :: s in a && t in c ==> Apart(s, t)
    ensures PairwiseApart(a + c)
  {
    hide Apart;
    var all := a + c;
    forall i, j | 0 <= i < |all| && 0 <= j < |all| && i != j
      ensures Apart(all[i], all[j])
    {
      ApartBoth(all[i], all[j]);
    }
  }

  lemma ApartBoth(s: nat, t: nat)
    ensures Apart(s, t) <==> Apart(t, s)
  {
  }

  // The fixups of a block do not overlap
  ghost predicate WordsApart(page: nat, words: seq<nat>)
  {
    forall j: nat, l: nat, s: nat, t: nat :: j != l && Fixes(page, words, j, s) && Fixes(page, words, l, t) ==>
        Apart(s, t)
  }

  lemma {:induction false} BlockTargetsApart(page: nat, words: seq<nat>)
    requires WordsApart(page, words)
    ensures PairwiseApart(Targets(FixupsOf(page, words)))
  {
    if words != [] {
      var n := |words| - 1;
      var last := Fixup(page, words[n] / 0x1000, words[n] % 0x1000);
      LastFixup(page, words);
      hide FixupsOf, Targets, Apart;
      FrontApart(page, words);
      BlockTargetsApart(page, words[..n]);
      forall s, t | s in Targets(FixupsOf(page, words[..n])) && t in TargetOf(last)
        ensures Apart(s, t)
      {
        BlockHasTarget(page, words[..n], s);
        var j: nat :| Fixes(page, words[..n], j, s);
        assert Fixes(page, words, j, s) && Fixes(page, words, n, t);
      }
      ConcatApart(Targets(FixupsOf(page, words[..n])), TargetOf(last));
    }
  }

  lemma FrontApart(page: nat, words: seq<nat>)
    requires words != [] && WordsApart(page, words)
    ensures WordsApart(page, words[..|words| - 1])
  {
    hide Apart;
    var front := words[..|words| - 1];
    forall j: nat, l: nat, s: nat, t: nat | j != l && Fixes(page, front, j, s) && Fixes(page, front, l, t)
      ensures Apart(s, t)
    {
      assert Fixes(page, words, j, s) && Fixes(page, words, l, t);
    }
  }

  // ---------------------------------------------------------------- the targets of all blocks

  // Word j of block i is a fixup of the given offset
  predicate FixesAt(blocks: seq<Block>, i: nat, j: nat, t: nat)
  {
    IsFixup(blocks, i, j) && FixupOffset(blocks, i, j) == t
  }

  // Some word of some block is a fixup of the given offset
  ghost predicate SomeFixesAt(blocks: seq<Block>, t: nat)
  {
    exists i: nat, j: nat :: FixesAt(blocks, i, j, t)
  }

  lemma {:induction false} HasTarget(blocks: seq<Block>, t: nat)
    ensures t in Targets(AllFixups(blocks)) <==> SomeFixesAt(blocks, t)
  {
    hide AllFixups, Targets, FixupsOf, SomeFixes, SomeFixesAt;
    if blocks == [] {
      NothingFixed(t);
    } else {
      FirstTargets(blocks);
      BlockHasTarget(blocks[0].page, blocks[0].words, t);
      HasTarget(blocks[1..], t);
      FirstFixes(blocks, t);
    }
  }

  lemma NothingFixed(t: nat)
    ensures Targets(AllFixups([])) == [] && !SomeFixesAt([], t)
  {
  }

  lemma FirstFixes(blocks: seq<Block>, t: nat)
    requires blocks != []
    ensures SomeFixesAt(blocks, t)
            <==> SomeFixes(blocks[0].page, blocks[0].words, t) || SomeFixesAt(blocks[1..], t)
  {
    var rest := blocks[1..];
    if SomeFixes(blocks[0].page, blocks[0].words, t) {
      var j: nat :| Fixes(blocks[0].page, blocks[0].words, j, t);
      assert FixesAt(blocks, 0, j, t);
    }
    if SomeFixesAt(rest, t) {
      var i: nat, j: nat :| FixesAt(rest, i, j, t);
      assert FixesAt(blocks, i + 1, j, t);
    }
    if SomeFixesAt(blocks, t) {
      var i: nat, j: nat :| FixesAt(blocks, i, j, t);
      assert if i == 0 then Fixes(blocks[0].page, blocks[0].words, j, t) else FixesAt(rest, i - 1, j, t);
    }
  }

  lemma FirstTargets(blocks: seq<Block>)
    requires blocks != []
    ensures Targets(AllFixups(blocks))
            == Targets(FixupsOf(blocks[0].page, blocks[0].words)) + Targets(AllFixups(blocks[1..]))
  {
    FirstFixups(blocks);
    TargetsConcat(FixupsOf(blocks[0].page, blocks[0].words), AllFixups(blocks[1..]));
  }

  lemma {:induction false} TargetsApart(blocks: seq<Block>)
    requires FixupsApart(blocks)
    ensures PairwiseApart(Targets(AllFixups(blocks)))
  {
    hide AllFixups, Targets, FixupsOf, Apart, FixupsApart, WordsApart, SomeFixes, SomeFixesAt, PairwiseApart;
    if blocks == [] {
      NoneApart();
    } else {
      var first, rest := blocks[0], blocks[1..];
      FirstTargets(blocks);
      FirstApart(blocks);
      BlockTargetsApart(first.page, first.words);
      RestApart(blocks);
      TargetsApart(rest);
      forall s, t | s in Targets(FixupsOf(first.page, first.words)) && t in Targets(AllFixups(rest))
        ensures Apart(s, t)
      {
        BlockHasTarget(first.page, first.words, s);
        HasTarget(rest, t);
        FirstFromRest(blocks, s, t);
      }
      ConcatApart(Targets(FixupsOf(first.page, first.words)), Targets(AllFixups(rest)));
    }
  }

  lemma NoneApart()
    ensures PairwiseApart(Targets(AllFixups([])))
  {
  }

  lemma FirstFromRest(blocks: seq<Block>, s: nat, t: nat)
    requires blocks != [] && FixupsApart(blocks)
    requires SomeFixes(blocks[0].page, blocks[0].words, s) && SomeFixesAt(blocks[1..], t)
    ensures Apart(s, t)
  {
    hide Apart;
    var j: nat :| Fixes(blocks[0].page, blocks[0].words, j, s);
    var k: nat, l: nat :| FixesAt(blocks[1..], k, l, t);
    assert FixesAt(blocks, 0, j, s) && FixesAt(blocks, k + 1, l, t);
  }

  lemma FirstApart(blocks: seq<Block>)
    requires blocks != [] && FixupsApart(blocks)
    ensures WordsApart(blocks[0].page, blocks[0].words)
  {
    hide Apart;
    var page, words := blocks[0].page, blocks[0].words;
    forall j: nat, l: nat, s: nat, t: nat | j != l && Fixes(page, words, j, s) && Fixes(page, words, l, t)
      ensures Apart(s, t)
    {
      assert FixesAt(blocks, 0, j, s) && FixesAt(blocks, 0, l, t);
    }
  }

  lemma RestApart(blocks: seq<Block>)
    requires blocks != [] && FixupsApart(blocks)
    ensures FixupsApart(blocks[1..])
  {
    hide Apart;
    var rest := blocks[1..];
    forall i: nat, j: nat, k: nat, l: nat | IsFixup(rest, i, j) && IsFixup(rest, k, l) && (i != k || j != l)
      ensures Apart(FixupOffset(rest, i, j), FixupOffset(rest, k, l))
    {
      assert IsFixup(blocks, i + 1, j) && IsFixup(blocks, k + 1, l);
    }
  }

  // ---------------------------------------------------------------- known and unknown kinds

  lemma {:induction false} BlockKnown(page: nat, words: seq<nat>)
    ensures AllKnown(FixupsOf(page, words))
            <==> forall j :: 0 <= j < |words| ==> words[j] / 0x1000 == 0 || words[j] / 0x1000 == 10
  {
    if words != [] {
      BlockKnown(page, words[..|words| - 1]);
      var n := |words| - 1;
      var front, fixups := FixupsOf(page, words[..n]), FixupsOf(page, words);
      assert fixups[|front|] == Fixup(page, words[n] / 0x1000, words[n] % 0x1000);
      assert forall k :: 0 <= k < |front| ==> fixups[k] == front[k];
      assert forall j :: 0 <= j < n ==> words[..n][j] == words[j];
    }
  }

  lemma KnownConcat(a: seq<Fixup>, c: seq<Fixup>)
    ensures AllKnown(a + c) <==> AllKnown(a) && AllKnown(c)
  {
    hide KnownKind;
    if AllKnown(a + c) {
      forall i | 0 <= i < |a| ensures KnownKind(a[i]) { assert (a + c)[i] == a[i]; }
      forall i | 0 <= i < |c| ensures KnownKind(c[i]) { assert (a + c)[|a| + i] == c[i]; }
    }
  }

  lemma {:induction false} KindsKnown(blocks: seq<Block>)
    ensures AllKnown(AllFixups(blocks)) <==> KnownWords(blocks)
  {
    if blocks != [] {
      FirstFixups(blocks);
      hide AllFixups, FixupsOf, AllKnown;
      BlockKnown(blocks[0].page, blocks[0].words);
      KindsKnown(blocks[1..]);
      KnownConcat(FixupsOf(blocks[0].page, blocks[0].words), AllFixups(blocks[1..]));
      FirstKnown(blocks);
    } else {
      NoBlocks();
    }
  }

  lemma FirstKnown(blocks: seq<Block>)
    requires blocks != []
    ensures KnownWords(blocks)
            <==> KnownWords(blocks[1..])
                 && forall j :: 0 <= j < |blocks[0].words| ==>
                      blocks[0].words[j] / 0x1000 == 0 || blocks[0].words[j] / 0x1000 == 10
  {
    var rest := blocks[1..];
    if KnownWords(blocks) {
      forall i, j | 0 <= i < |rest| && 0 <= j < |rest[i].words|
        ensures rest[i].words[j] / 0x1000 == 0 || rest[i].words[j] / 0x1000 == 10
      {
        assert rest[i] == blocks[i + 1];
      }
    }
  }

  lemma {:induction false} KnownIsAll(fixups: seq<Fixup>)
    requires AllKnown(fixups)
    ensures KnownPrefix(fixups) == fixups
  {
    KnownPrefixConcat(fixups, []);
    assert fixups + [] == fixups;
  }

  // ---------------------------------------------------------------- a directory in an image

  // The relocation directory of the image is the one of these blocks, and bytes that can be read follow it
  ghost predicate HoldsDirectory(b: Bytes, blocks: seq<Block>)
    requires HeadersFit(b)
  {
    && (forall i :: 0 <= i < |blocks| ==> Serialisable(blocks[i]))
    && RelocationSize(b) == |DirectoryBytes(blocks)|
    && RelocationAddress(b) + RelocationSize(b) + 8 <= |b|
    && b[RelocationAddress(b)..RelocationAddress(b) + RelocationSize(b)] == DirectoryBytes(blocks)
  }

  // The words lie in the image, and touch neither its headers nor the directory
  ghost predicate FixupsClear(b: Bytes, blocks: seq<Block>)
    requires TableFits(b)
  {
    forall i: nat, j: nat :: IsFixup(blocks, i, j) ==>
      var t := FixupOffset(blocks, i, j);
      && HeaderEnd(b) <= t && t + 8 <= |b|
      && (t + 8 <= RelocationAddress(b) || RelocationAddress(b) + RelocationSize(b) + 8 <= t)
  }

  // The walk over such a directory
  lemma DirectoryRead(b: Bytes, blocks: seq<Block>)
    requires HeadersFit(b) && HoldsDirectory(b, blocks)
    ensures Walkable(b, DirectoryStart(b), DirectoryEnd(b))
    ensures Decode(b, DirectoryStart(b), DirectoryEnd(b)) == AllFixups(blocks)
    ensures WalkEnd(b, DirectoryStart(b), DirectoryEnd(b)) == RelocationAddress(b) + RelocationSize(b)
  {
    hide DirectoryBytes, Decode, Walkable, WalkEnd, AllFixups, RelocationAddress, RelocationSize;
    DirectoryDecodes(b, RelocationAddress(b), RelocationAddress(b) + RelocationSize(b), blocks);
  }

  /** An image with such a directory is one that the loops can walk. */
  lemma DirectoryRelocatable(b: Bytes, blocks: seq<Block>)
    requires TableFits(b) && HoldsDirectory(b, blocks) && KnownWords(blocks) && FixupsClear(b, blocks)
    ensures Relocatable(b) && Directory(b) == AllFixups(blocks) && Applied(b) == AllFixups(blocks)
  {
    DirectoryRead(b, blocks);
    KindsKnown(blocks);
    KnownIsAll(AllFixups(blocks));
    hide HoldsDirectory, Decode, Walkable, WalkEnd, AllFixups, Targets, KnownPrefix, HeaderEnd, AllKnown, KnownWords;
    hide RelocationAddress, RelocationSize;
    var targets := Targets(AllFixups(blocks));
    forall k | 0 <= k < |targets|
      ensures HeaderEnd(b) <= targets[k] && targets[k] + 8 <= |b|
      ensures targets[k] + 8 <= DirectoryStart(b)
              || WalkEnd(b, DirectoryStart(b), DirectoryEnd(b)) + BLOCK_HEADER <= targets[k]
    {
      HasTarget(blocks, targets[k]);
      var i: nat, j: nat :| FixesAt(blocks, i, j, targets[k]);
    }
  }

  // The image is the given one with every fixup word moved from the preferred base to the address, as a number
  // modulo 2^64, and everything else as it was
  ghost predicate MovedToAddress(b: Bytes, b': Bytes, blocks: seq<Block>, imageAddress: u64, imageBase: u64)
  {
    && |b'| == |b|
    && (forall i: nat, j: nat :: IsFixup(blocks, i, j) ==>
          WordMoves(b, b', FixupOffset(blocks, i, j), imageAddress, imageBase))
    && (forall x: nat | x < |b| && Untouched(blocks, x) :: b'[x] == b[x])
  }

  ghost predicate WordMoves(b: Bytes, b': Bytes, t: nat, imageAddress: u64, imageBase: u64)
  {
    && t + 8 <= |b| && t + 8 <= |b'|
    && U64(b', t) == (U64(b, t) + imageAddress - imageBase) % 0x1_0000_0000_0000_0000
  }

  // No fixup word holds the byte
  ghost predicate Untouched(blocks: seq<Block>, x: nat)
  {
    forall i: nat, j: nat, t: nat :: FixesAt(blocks, i, j, t) ==> !(t <= x < t + 8)
  }

  /** Whatever side of its preferred base an image was loaded at: if its directory holds these blocks, relocation moves
      every word that they name by the distance, and changes nothing else. */
  lemma DirectoryMoves(b: Bytes, b': Bytes, status: LoadStatus, imageAddress: u64, blocks: seq<Block>)
    requires TableFits(b) && HoldsDirectory(b, blocks) && KnownWords(blocks) && FixupsClear(b, blocks)
    requires FixupsApart(blocks) && Relocatable(b)
    requires RelocatedAs(b, b', status, Distance(imageAddress, ImageBase(b)))
    ensures status == Loaded && MovedToAddress(b, b', blocks, imageAddress, ImageBase(b))
  {
    DirectoryRelocatable(b, blocks);
    TargetsApart(blocks);
    KindsKnown(blocks);
    var targets, d := Targets(AllFixups(blocks)), Distance(imageAddress, ImageBase(b));
    assert InBounds(targets, |b|) && b' == AddAll(b, targets, d);
    hide HoldsDirectory, AllFixups, Targets, AddAll, AllKnown, KnownWords, Relocatable, RelocatedAs, U64, ImageBase;
    hide PairwiseApart, FixupsApart, FixupsClear, Distance, InBounds, HeadersFit, TableFits, Untouched, FixupOffset;
    forall i: nat, j: nat | IsFixup(blocks, i, j)
      ensures WordMoves(b, b', FixupOffset(blocks, i, j), imageAddress, ImageBase(b))
    {
      FixupMoves(b, blocks, targets, imageAddress, ImageBase(b), i, j);
    }
    forall x: nat | x < |b| && Untouched(blocks, x)
      ensures b'[x] == b[x]
    {
      OtherByteStays(b, blocks, targets, d, x);
    }
  }

  lemma FixupMoves(b: Bytes, blocks: seq<Block>, targets: seq<nat>, imageAddress: u64, imageBase: u64, i: nat, j: nat)
    requires targets == Targets(AllFixups(blocks)) && InBounds(targets, |b|) && PairwiseApart(targets)
    requires IsFixup(blocks, i, j)
    ensures WordMoves(b, AddAll(b, targets, Distance(imageAddress, imageBase)), FixupOffset(blocks, i, j),
                      imageAddress, imageBase)
  {
    hide AllFixups, Targets, AddAll, U64, PairwiseApart, Distance, InBounds;
    var t := FixupOffset(blocks, i, j);
    assert FixesAt(blocks, i, j, t);
    HasTarget(blocks, t);
    TargetMoves(b, targets, Distance(imageAddress, imageBase), t);
    SameDistance(U64(b, t), imageAddress, imageBase);
  }

  lemma OtherByteStays(b: Bytes, blocks: seq<Block>, targets: seq<nat>, d: nat, x: nat)
    requires targets == Targets(AllFixups(blocks)) && InBounds(targets, |b|) && x < |b| && Untouched(blocks, x)
    ensures AddAll(b, targets, d)[x] == b[x]
  {
    hide AllFixups, Targets, AddAll;
    forall k | 0 <= k < |targets|
      ensures !(targets[k] <= x < targets[k] + 8)
    {
      HasTarget(blocks, targets[k]);
      var i: nat, j: nat :| FixesAt(blocks, i, j, targets[k]);
    }
    BytesOutsideStay(b, targets, d, x);
  }

  lemma SameDistance(word: u64, imageAddress: u64, imageBase: u64)
    ensures (word + Distance(imageAddress, imageBase)) % WORD_SPACE == (word + imageAddress - imageBase) % WORD_SPACE
  {
  }

  /** A word of any other kind is reported. */
  lemma UnknownReported(b: Bytes, b': Bytes, status: LoadStatus, d: nat, blocks: seq<Block>)
    requires HeadersFit(b) && HoldsDirectory(b, blocks) && Relocatable(b) && RelocatedAs(b, b', status, d)
    ensures status == if KnownWords(blocks) then Loaded else GenericError
  {
    DirectoryRead(b, blocks);
    KindsKnown(blocks);
    hide HoldsDirectory, Decode, Walkable, WalkEnd, AllFixups, Targets, AddAll, AllKnown, KnownWords;
  }
}
