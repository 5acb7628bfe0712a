/**
  The walk over the base-relocation directory, in place on the image, and what it decodes.
 */
module RelocationWalk {
  import opened Bits
  import opened ByteOrder
  import opened Pe
  import opened Placement
  import opened Relocation

  datatype Fixup = Fixup(page: nat, kind: nat, offset: nat)

  // ---------------------------------------------------------------- decoding

  function BlockSize(b: Bytes, cur: nat): u32
    requires cur + BLOCK_HEADER <= |b|
  {
    U32(b, cur + 4)
  }

  function FixupCount(size: nat): nat
    requires size >= BLOCK_HEADER
  {
    (size - BLOCK_HEADER) / 2
  }

  function FixupAt(b: Bytes, cur: nat, i: nat): Fixup
    requires cur + BLOCK_HEADER + 2 * i + 2 <= |b|
  {
    var word := U16(b, cur + BLOCK_HEADER + 2 * i);
    Fixup(U32(b, cur), word / 0x1000, word % 0x1000)
  }

  // The first n fixups of the block at cur
  function BlockFixups(b: Bytes, cur: nat, n: nat): (r: seq<Fixup>)
    requires cur + BLOCK_HEADER + 2 * n <= |b|
    ensures |r| == n
  {
    if n == 0 then [] else BlockFixups(b, cur, n - 1) + [FixupAt(b, cur, n - 1)]
  }

  // The walk stays inside the image: every block it enters holds at least its header, lies in the
  // image, and is followed by readable bytes, because the loop reads a size before it tests for the end
  predicate Walkable(b: Bytes, cur: nat, end: nat)
    decreases if cur < end then end - cur else 0
  {
    && cur + BLOCK_HEADER <= |b|
    && (BlockSize(b, cur) != 0 && cur < end ==>
          BlockSize(b, cur) >= BLOCK_HEADER && Walkable(b, cur + BlockSize(b, cur), end))
  }

  function Decode(b: Bytes, cur: nat, end: nat): seq<Fixup>
    requires Walkable(b, cur, end)
    decreases if cur < end then end - cur else 0
  {
    if BlockSize(b, cur) == 0 || cur >= end then []
    else
      WalkableInside(b, cur, end);
      BlockFixups(b, cur, FixupCount(BlockSize(b, cur))) + Decode(b, cur + BlockSize(b, cur), end)
  }

  // Where the walk stops
  function WalkEnd(b: Bytes, cur: nat, end: nat): (e: nat)
    requires Walkable(b, cur, end)
    ensures cur <= e && e + BLOCK_HEADER <= |b|
    decreases if cur < end then end - cur else 0
  {
    if BlockSize(b, cur) == 0 || cur >= end then cur else WalkEnd(b, cur + BlockSize(b, cur), end)
  }

  lemma WalkableInside(b: Bytes, cur: nat, end: nat)
    requires Walkable(b, cur, end) && BlockSize(b, cur) != 0 && cur < end
    ensures cur + BLOCK_HEADER + 2 * FixupCount(BlockSize(b, cur)) <= cur + BlockSize(b, cur) <= |b|
  {
  }

  predicate KnownKind(f: Fixup)
  {
    f.kind == REL_BASED_ABSOLUTE || f.kind == REL_BASED_DIR64
  }

  // The fixups before the first of an unknown kind
  function KnownPrefix(fixups: seq<Fixup>): seq<Fixup>
  {
    if fixups == [] || !KnownKind(fixups[0]) then [] else [fixups[0]] + KnownPrefix(fixups[1..])
  }

  predicate AllKnown(fixups: seq<Fixup>)
  {
    forall i :: 0 <= i < |fixups| ==> KnownKind(fixups[i])
  }

  // The words that the fixups change; padding changes none
  function Targets(fixups: seq<Fixup>): seq<nat>
  {
    if fixups == [] then []
    else Targets(fixups[..|fixups| - 1]) + TargetOf(fixups[|fixups| - 1])
  }

  function TargetOf(f: Fixup): seq<nat>
  {
    if f.kind == REL_BASED_DIR64 then [f.page + f.offset] else []
  }

  lemma {:induction false} TargetsConcat(a: seq<Fixup>, c: seq<Fixup>)
    ensures Targets(a + c) == Targets(a) + Targets(c)
  {
    hide Targets, TargetOf;
    if c == [] {
      assert a + c == a && Targets(c) == [] by { NoTargets(); }
    } else {
      var n := |c| - 1;
      TargetsConcat(a, c[..n]);
      TargetsSplit(a + c);
      TargetsSplit(c);
      assert (a + c)[..|a| + n] == a + c[..n] && (a + c)[|a| + n] == c[n];
      assert Targets(a) + Targets(c[..n]) + TargetOf(c[n]) == Targets(a) + (Targets(c[..n]) + TargetOf(c[n]));
    }
  }

  lemma NoTargets()
    ensures Targets([]) == []
  {
  }

  lemma TargetsSplit(c: seq<Fixup>)
    requires c != []
    ensures Targets(c) == Targets(c[..|c| - 1]) + TargetOf(c[|c| - 1])
  {
  }

  lemma {:induction false} KnownPrefixConcat(a: seq<Fixup>, c: seq<Fixup>)
    requires AllKnown(a)
    ensures KnownPrefix(a + c) == a + KnownPrefix(c)
  {
    if a == [] {
      assert a + c == c;
    } else {
      KnownPrefixConcat(a[1..], c);
      assert (a + c)[1..] == a[1..] + c;
    }
  }

  // ---------------------------------------------------------------- serialised directories

  datatype Block = Block(page: u32, words: seq<nat>)

  predicate Serialisable(block: Block)
  {
    BLOCK_HEADER + 2 * |block.words| < 0x1_0000_0000 && forall i :: 0 <= i < |block.words| ==> block.words[i] < 0x1_0000
  }

  function WordBytes16(words: seq<nat>): (r: Bytes)
    ensures |r| == 2 * |words|
  {
    if words == [] then [] else WordBytes16(words[..|words| - 1]) + ToBytes(words[|words| - 1], 2)
  }

  function BlockBytes(block: Block): (r: Bytes)
    ensures |r| == BLOCK_HEADER + 2 * |block.words|
  {
    ToBytes(block.page, 4) + ToBytes(BLOCK_HEADER + 2 * |block.words|, 4) + WordBytes16(block.words)
  }

  function DirectoryBytes(blocks: seq<Block>): Bytes
  {
    if blocks == [] then [] else BlockBytes(blocks[0]) + DirectoryBytes(blocks[1..])
  }

  function FixupsOf(page: nat, words: seq<nat>): seq<Fixup>
  {
    if words == [] then []
    else FixupsOf(page, words[..|words| - 1]) + [Fixup(page, words[|words| - 1] / 0x1000, words[|words| - 1] % 0x1000)]
  }

  function AllFixups(blocks: seq<Block>): seq<Fixup>
  {
    if blocks == [] then [] else FixupsOf(blocks[0].page, blocks[0].words) + AllFixups(blocks[1..])
  }

  lemma {:induction false} WordAt(words: seq<nat>, i: nat)
    requires i < |words|
    ensures WordBytes16(words)[2 * i..2 * i + 2] == ToBytes(words[i], 2)
  {
    var n := |words| - 1;
    if i < n {
      WordAt(words[..n], i);
      assert WordBytes16(words)[2 * i..2 * i + 2] == WordBytes16(words[..n])[2 * i..2 * i + 2];
    }
  }

  lemma BlockHeaderDecodes(b: Bytes, cur: nat, block: Block)
    requires Serialisable(block)
    requires cur + |BlockBytes(block)| <= |b| && b[cur..cur + |BlockBytes(block)|] == BlockBytes(block)
    ensures U32(b, cur) == block.page && BlockSize(b, cur) == |BlockBytes(block)|
  {
    hide LE, Power256, ToBytes, WordBytes16;
    var s := BlockBytes(block);
    Power256s();
    SliceOfSlice(b, cur, |s|, 0, 4);
    assert s[0..4] == ToBytes(block.page, 4);
    ReadPart(b, cur, block.page, 4);
    SliceOfSlice(b, cur, |s|, 4, 8);
    assert s[4..8] == ToBytes(|s|, 4);
    ReadPart(b, cur + 4, |s|, 4);
  }

  lemma BlockWordDecodes(b: Bytes, cur: nat, block: Block, i: nat)
    requires Serialisable(block) && i < |block.words|
    requires cur + |BlockBytes(block)| <= |b| && b[cur..cur + |BlockBytes(block)|] == BlockBytes(block)
    ensures U16(b, cur + BLOCK_HEADER + 2 * i) == block.words[i]
  {
    hide LE, Power256, ToBytes, WordBytes16;
    var s := BlockBytes(block);
    var at := BLOCK_HEADER + 2 * i;
    Power256s();
    WordAt(block.words, i);
    assert s[at..at + 2] == WordBytes16(block.words)[2 * i..2 * i + 2];
    SliceOfSlice(b, cur, |s|, at, at + 2);
    ReadPart(b, cur + at, block.words[i], 2);
  }

  lemma BlockLength(b: Bytes, cur: nat, block: Block, n: nat)
    requires Serialisable(block) && n <= |block.words| && cur + |BlockBytes(block)| <= |b|
    ensures cur + BLOCK_HEADER + 2 * n <= |b|
  {
    hide ToBytes;
  }

  lemma {:induction false} BlockDecodes(b: Bytes, cur: nat, block: Block, n: nat)
    requires Serialisable(block) && n <= |block.words|
    requires cur + |BlockBytes(block)| <= |b| && b[cur..cur + |BlockBytes(block)|] == BlockBytes(block)
    ensures BlockFixups(b, cur, n) == FixupsOf(block.page, block.words[..n])
  {
    BlockLength(b, cur, block, n);
    if n > 0 {
      hide U16, U32, BlockBytes, Serialisable, BlockFixups, FixupsOf;
      BlockDecodes(b, cur, block, n - 1);
      BlockHeaderDecodes(b, cur, block);
      BlockWordDecodes(b, cur, block, n - 1);
      OneWordMore(b, cur, block.page, block.words, n - 1);
    }
  }

  lemma OneWordMore(b: Bytes, cur: nat, page: nat, words: seq<nat>, n: nat)
    requires n < |words| && cur + BLOCK_HEADER + 2 * n + 2 <= |b|
    requires U32(b, cur) == page && U16(b, cur + BLOCK_HEADER + 2 * n) == words[n]
    requires BlockFixups(b, cur, n) == FixupsOf(page, words[..n])
    ensures BlockFixups(b, cur, n + 1) == FixupsOf(page, words[..n + 1])
  {
    hide U16, U32;
    assert words[..n + 1][..n] == words[..n];
  }

  /** Whatever blocks were serialised, the walk decodes their entries in order, and stops at the end of
      the directory. */
  lemma {:induction false} DirectoryDecodes(b: Bytes, cur: nat, end: nat, blocks: seq<Block>)
    requires forall i :: 0 <= i < |blocks| ==> Serialisable(blocks[i])
    requires end == cur + |DirectoryBytes(blocks)| && end + BLOCK_HEADER <= |b|
    requires b[cur..end] == DirectoryBytes(blocks)
    ensures Walkable(b, cur, end) && Decode(b, cur, end) == AllFixups(blocks) && WalkEnd(b, cur, end) == end
    decreases |blocks|
  {
    hide Decode, Walkable, WalkEnd, DirectoryBytes, AllFixups, BlockBytes, FixupsOf;
    if blocks == [] {
      NoBlocks();
      EmptyDirectory(b, cur);
    } else {
      FirstOfDirectory(b, cur, end, blocks);
      DirectoryDecodes(b, cur + |BlockBytes(blocks[0])|, end, blocks[1..]);
      FirstBlockDecodes(b, cur, end, blocks[0]);
    }
  }

  lemma NoBlocks()
    ensures DirectoryBytes([]) == [] && AllFixups([]) == []
  {
  }

  lemma FirstOfDirectory(b: Bytes, cur: nat, end: nat, blocks: seq<Block>)
    requires blocks != [] && end == cur + |DirectoryBytes(blocks)| && end <= |b|
             && b[cur..end] == DirectoryBytes(blocks)
    ensures var size := |BlockBytes(blocks[0])|;
            && end == cur + size + |DirectoryBytes(blocks[1..])|
            && b[cur..cur + size] == BlockBytes(blocks[0]) && b[cur + size..end] == DirectoryBytes(blocks[1..])
    ensures AllFixups(blocks) == FixupsOf(blocks[0].page, blocks[0].words) + AllFixups(blocks[1..])
  {
    hide BlockBytes, FixupsOf;
    var size, n := |BlockBytes(blocks[0])|, |DirectoryBytes(blocks)|;
    SliceOfSlice(b, cur, n, 0, size);
    SliceOfSlice(b, cur, n, size, n);
  }

  lemma EmptyDirectory(b: Bytes, cur: nat)
    requires cur + BLOCK_HEADER <= |b|
    ensures Walkable(b, cur, cur) && Decode(b, cur, cur) == [] && WalkEnd(b, cur, cur) == cur
  {
  }

  lemma FirstBlockDecodes(b: Bytes, cur: nat, end: nat, block: Block)
    requires Serialisable(block) && cur + |BlockBytes(block)| <= end <= |b|
    requires b[cur..cur + |BlockBytes(block)|] == BlockBytes(block)
    requires Walkable(b, cur + |BlockBytes(block)|, end)
    ensures Walkable(b, cur, end)
    ensures Decode(b, cur, end) == FixupsOf(block.page, block.words) + Decode(b, cur + |BlockBytes(block)|, end)
    ensures WalkEnd(b, cur, end) == WalkEnd(b, cur + |BlockBytes(block)|, end)
  {
    BlockHeaderDecodes(b, cur, block);
    BlockDecodes(b, cur, block, |block.words|);
    assert block.words[..|block.words|] == block.words;
    hide BlockBytes, U32, FixupsOf, BlockFixups;
  }

  lemma {:induction false} FixupsConcat(page: nat, v: seq<nat>, w: seq<nat>)
    ensures FixupsOf(page, v + w) == FixupsOf(page, v) + FixupsOf(page, w)
  {
    if w == [] {
      assert v + w == v;
    } else {
      var n := |w| - 1;
      FixupsConcat(page, v, w[..n]);
      assert (v + w)[..|v| + n] == v + w[..n];
    }
  }

  lemma {:induction false} BlocksConcat(a: seq<Block>, c: seq<Block>)
    ensures AllFixups(a + c) == AllFixups(a) + AllFixups(c)
  {
    hide AllFixups, FixupsOf;
    if a == [] {
      NoBlocks();
      assert a + c == c;
    } else {
      BlocksConcat(a[1..], c);
      assert (a + c)[1..] == a[1..] + c && (a + c)[0] == a[0];
      FirstFixups(a);
      FirstFixups(a + c);
      var x := FixupsOf(a[0].page, a[0].words);
      assert x + AllFixups(a[1..]) + AllFixups(c) == x + (AllFixups(a[1..]) + AllFixups(c));
    }
  }

  lemma FirstFixups(a: seq<Block>)
    requires a != []
    ensures AllFixups(a) == FixupsOf(a[0].page, a[0].words) + AllFixups(a[1..])
  {
  }

  /** Splitting a block in two does not change what is decoded. */
  lemma SplittingIsHarmless(before: seq<Block>, page: u32, v: seq<nat>, w: seq<nat>, after: seq<Block>)
    ensures AllFixups(before + [Block(page, v + w)] + after)
            == AllFixups(before + [Block(page, v), Block(page, w)] + after)
  {
    SplitFixups(page, v, w);
    hide *;
    var one, two := [Block(page, v + w)], [Block(page, v), Block(page, w)];
    BlocksConcat(before + one, after);
    BlocksConcat(before, one);
    BlocksConcat(before + two, after);
    BlocksConcat(before, two);
  }

  lemma SplitFixups(page: u32, v: seq<nat>, w: seq<nat>)
    ensures AllFixups([Block(page, v + w)]) == AllFixups([Block(page, v), Block(page, w)])
  {
    var one, two := [Block(page, v + w)], [Block(page, v), Block(page, w)];
    FixupsConcat(page, v, w);
    assert AllFixups(one[1..]) == [];
    assert two[1..] == [Block(page, w)] && AllFixups(two[1..][1..]) == [];
  }

  /** A padding word (kind 0) does not change which words are fixed. */
  lemma PaddingIsHarmless(before: seq<Block>, page: u32, v: seq<nat>, pad: nat, w: seq<nat>, after: seq<Block>)
    requires pad < 0x1000
    ensures Targets(AllFixups(before + [Block(page, v + [pad] + w)] + after))
            == Targets(AllFixups(before + [Block(page, v + w)] + after))
  {
    PaddedTargets(before, page, v + [pad] + w, after);
    PaddedTargets(before, page, v + w, after);
    FixupsConcat(page, v + [pad], w);
    FixupsConcat(page, v, [pad]);
    FixupsConcat(page, v, w);
    PadHasNoTarget(page, pad);
    hide *;
    var x, p, y := FixupsOf(page, v), FixupsOf(page, [pad]), FixupsOf(page, w);
    TargetsConcat(x + p, y);
    TargetsConcat(x, p);
    TargetsConcat(x, y);
    assert Targets(x) + [] == Targets(x);
  }

  lemma PadHasNoTarget(page: u32, pad: nat)
    requires pad < 0x1000
    ensures Targets(FixupsOf(page, [pad])) == []
  {
    assert FixupsOf(page, [pad]) == [Fixup(page, 0, pad)];
  }

  lemma PaddedTargets(before: seq<Block>, page: u32, words: seq<nat>, after: seq<Block>)
    ensures Targets(AllFixups(before + [Block(page, words)] + after))
            == Targets(AllFixups(before)) + Targets(FixupsOf(page, words)) + Targets(AllFixups(after))
  {
    var one := [Block(page, words)];
    BlocksConcat(before + one, after);
    BlocksConcat(before, one);
    assert AllFixups(one) == FixupsOf(page, words) + AllFixups(one[1..]) == FixupsOf(page, words);
    TargetsConcat(AllFixups(before) + FixupsOf(page, words), AllFixups(after));
    TargetsConcat(AllFixups(before), FixupsOf(page, words));
  }

  // ---------------------------------------------------------------- the loop

  // Image - ImageBase modulo 2^64
  function Distance(imageAddress: u64, imageBase: u64): u64
  {
    (imageAddress + WORD_SPACE - imageBase) % WORD_SPACE
  }

  predicate NeedsRelocation(b: Bytes, imageAddress: u64)
    requires HeadersFit(b)
  {
    imageAddress != ImageBase(b) && NumberOfRvaAndSizes(b) > DIRECTORY_ENTRY_BASERELOC
  }

  function DirectoryStart(b: Bytes): nat requires HeadersFit(b) { RelocationAddress(b) }
  function DirectoryEnd(b: Bytes): nat requires HeadersFit(b) { RelocationSize(b) + RelocationAddress(b) }

  // The fixups that the walk applies: all of them, unless it meets an unknown kind
  function Applied(b: Bytes): seq<Fixup>
    requires HeadersFit(b) && Walkable(b, DirectoryStart(b), DirectoryEnd(b))
  {
    KnownPrefix(Decode(b, DirectoryStart(b), DirectoryEnd(b)))
  }

  // What the loop relies on: a directory inside the image, and targets that lie inside the image and
  // change neither the headers nor the directory while it is being read
  ghost predicate Relocatable(b: Bytes)
  {
    && TableFits(b)
    && Walkable(b, DirectoryStart(b), DirectoryEnd(b))
    && var targets := Targets(Applied(b));
       InBounds(targets, |b|) && SpareHeaders(b, targets) && SpareDirectory(b, targets)
  }

  ghost predicate SpareHeaders(b: Bytes, targets: seq<nat>)
    requires TableFits(b)
  {
    forall i :: 0 <= i < |targets| ==> HeaderEnd(b) <= targets[i]
  }

  ghost predicate SpareDirectory(b: Bytes, targets: seq<nat>)
    requires HeadersFit(b) && Walkable(b, DirectoryStart(b), DirectoryEnd(b))
  {
    forall i :: 0 <= i < |targets| ==>
      targets[i] + 8 <= DirectoryStart(b)
      || WalkEnd(b, DirectoryStart(b), DirectoryEnd(b)) + BLOCK_HEADER <= targets[i]
  }

  // The image still reads like b where the loop looks
  ghost predicate ReadsLike(b: Bytes, b': Bytes)
    requires TableFits(b) && Walkable(b, DirectoryStart(b), DirectoryEnd(b))
  {
    && |b'| == |b| && SameHeaderBytes(b, b')
    && var start, stop := DirectoryStart(b), WalkEnd(b, DirectoryStart(b), DirectoryEnd(b)) + BLOCK_HEADER;
       b'[start..stop] == b[start..stop]
  }

  lemma {:induction false} FixupsKeepReads(b: Bytes, targets: seq<nat>, d: nat)
    requires TableFits(b) && Walkable(b, DirectoryStart(b), DirectoryEnd(b))
    requires InBounds(targets, |b|) && SpareHeaders(b, targets) && SpareDirectory(b, targets)
    ensures ReadsLike(b, AddAll(b, targets, d))
  {
    hide Walkable, WalkEnd, AddAll, Decode, DirectoryStart, DirectoryEnd;
    var b' := AddAll(b, targets, d);
    var start, stop := DirectoryStart(b), WalkEnd(b, DirectoryStart(b), DirectoryEnd(b)) + BLOCK_HEADER;
    forall x | 0 <= x < |b| && (x < HeaderEnd(b) || start <= x < stop)
      ensures b'[x] == b[x]
    {
      BytesOutsideStay(b, targets, d, x);
    }
  }

  lemma ReadDirectory(b: Bytes, b': Bytes, offset: nat, n: nat)
    requires TableFits(b) && Walkable(b, DirectoryStart(b), DirectoryEnd(b)) && ReadsLike(b, b')
    requires DirectoryStart(b) <= offset
    requires offset + n <= WalkEnd(b, DirectoryStart(b), DirectoryEnd(b)) + BLOCK_HEADER
    ensures offset + n <= |b| && |b'| == |b| && LE(b', offset, n) == LE(b, offset, n)
  {
    var start, stop := DirectoryStart(b), WalkEnd(b, DirectoryStart(b), DirectoryEnd(b)) + BLOCK_HEADER;
    hide LE;
    ReadSlice(b, b', start, stop, offset, n);
  }

  lemma ReadSlice(b: Bytes, b': Bytes, start: nat, stop: nat, offset: nat, n: nat)
    requires start <= offset && offset + n <= stop <= |b| && stop <= |b'| && b'[start..stop] == b[start..stop]
    ensures LE(b', offset, n) == LE(b, offset, n)
  {
    hide LE;
    SliceOfSlice(b, start, stop - start, offset - start, offset + n - start);
    SliceOfSlice(b', start, stop - start, offset - start, offset + n - start);
    LESame(b', b, offset, offset, n);
  }

  // *(UINT64*)(image + at) += or -= the relative offset
  method AddInPlace(image: array<u8>, at: nat, relativeOffset: u64, add: bool)
    requires at + 8 <= image.Length
    modifies image
    ensures image[..] == AddWord(old(image[..]), at,
                                 if add then relativeOffset else (WORD_SPACE - relativeOffset) % WORD_SPACE)
  {
    hide U64, AddWord, CopyInto, ToBytes;
    ghost var before := image[..];
    var word := U64(image[..], at);
    var value: u64 := if add then (word + relativeOffset) % WORD_SPACE
      else (word + WORD_SPACE - relativeOffset) % WORD_SPACE;
    WordStored(before, at, relativeOffset, add, value);
    StoreBytes(image, at, ToBytes(value, 8));
  }

  method StoreBytes(image: array<u8>, at: nat, bytes: Bytes)
    requires at + |bytes| <= image.Length
    modifies image
    ensures image[..] == CopyInto(old(image[..]), at, bytes)
  {
    hide *;
    ghost var before := image[..];
    var i := 0;
    while i < |bytes|
      invariant 0 <= i <= |bytes|
      invariant forall x :: 0 <= x < image.Length ==> image[x] == if at <= x < at + i then bytes[x - at] else before[x]
    {
      image[at + i] := bytes[i];
      i := i + 1;
    }
    CopiedInto(before, image[..], at, bytes);
  }

  // What either branch of the loop stores
  lemma WordStored(b: Bytes, at: nat, relativeOffset: u64, add: bool, value: u64)
    requires at + 8 <= |b|
    requires value == if add then (U64(b, at) + relativeOffset) % WORD_SPACE
                      else (U64(b, at) + WORD_SPACE - relativeOffset) % WORD_SPACE
    ensures AddWord(b, at, if add then relativeOffset else (WORD_SPACE - relativeOffset) % WORD_SPACE)
            == CopyInto(b, at, ToBytes(value, 8))
  {
    hide AddWord, U64, CopyInto, ToBytes;
    Subtraction(U64(b, at), relativeOffset);
    AddWordIs(b, at, if add then relativeOffset else (WORD_SPACE - relativeOffset) % WORD_SPACE, value);
  }

  lemma Subtraction(word: u64, offset: u64)
    ensures (word + WORD_SPACE - offset) % WORD_SPACE == (word + (WORD_SPACE - offset) % WORD_SPACE) % WORD_SPACE
  {
    if offset == 0 {
      ModuloAdd(word, WORD_SPACE);
    }
  }

  lemma CopiedInto(b: Bytes, b': Bytes, at: nat, src: Bytes)
    requires at + |src| <= |b| && |b'| == |b|
    requires forall x :: 0 <= x < |b| ==> b'[x] == if at <= x < at + |src| then src[x - at] else b[x]
    ensures b' == CopyInto(b, at, src)
  {
  }

  // Either branch moves a word by the same distance
  lemma BranchesAgree(imageAddress: u64, imageBase: u64)
    requires imageAddress != imageBase
    ensures Distance(imageAddress, imageBase)
            == if imageAddress > imageBase then imageAddress - imageBase
               else (WORD_SPACE - (imageBase - imageAddress)) % WORD_SPACE
  {
  }

  // ---------------------------------------------------------------- progress of the walk

  ghost function Directory(b: Bytes): seq<Fixup>
    requires Relocatable(b)
  {
    Decode(b, DirectoryStart(b), DirectoryEnd(b))
  }

  // The fixups handled so far: an initial part of the directory, all of known kinds
  ghost predicate Handled(b: Bytes, fixups: seq<Fixup>)
    requires Relocatable(b)
  {
    AllKnown(fixups) && fixups <= Directory(b)
  }

  // The walk stands at cur after the given fixups
  ghost predicate StandsAt(b: Bytes, cur: nat, before: seq<Fixup>)
    requires Relocatable(b)
  {
    && DirectoryStart(b) <= cur && Walkable(b, cur, DirectoryEnd(b))
    && WalkEnd(b, cur, DirectoryEnd(b)) == WalkEnd(b, DirectoryStart(b), DirectoryEnd(b))
    && Directory(b) == before + Decode(b, cur, DirectoryEnd(b))
  }

  ghost predicate InsideBlock(b: Bytes, cur: nat)
    requires cur + BLOCK_HEADER <= |b| && HeadersFit(b)
  {
    BlockSize(b, cur) != 0 && cur < DirectoryEnd(b)
  }

  /** Until the end or an unknown kind, what was handled is what the specification applies. */
  lemma {:induction false} HandledIsKnownPrefix(all: seq<Fixup>, fixups: seq<Fixup>)
    requires AllKnown(fixups) && fixups <= all
    ensures KnownPrefix(all) == fixups + KnownPrefix(all[|fixups|..])
  {
    assert all == fixups + all[|fixups|..];
    KnownPrefixConcat(fixups, all[|fixups|..]);
  }

  lemma HandledTargets(b: Bytes, fixups: seq<Fixup>)
    requires Relocatable(b) && Handled(b, fixups)
    ensures var ts := Targets(fixups); InBounds(ts, |b|) && SpareHeaders(b, ts) && SpareDirectory(b, ts)
  {
    var all := Directory(b);
    HandledIsKnownPrefix(all, fixups);
    TargetsConcat(fixups, KnownPrefix(all[|fixups|..]));
    hide Targets, Decode, Walkable, WalkEnd, KnownPrefix;
    forall i | 0 <= i < |Targets(fixups)|
      ensures Targets(fixups)[i] == Targets(Applied(b))[i]
    {
    }
  }

  lemma StopsHere(b: Bytes, fixups: seq<Fixup>)
    requires Relocatable(b) && Handled(b, fixups)
    requires |fixups| == |Directory(b)| || !KnownKind(Directory(b)[|fixups|])
    ensures Applied(b) == fixups
    ensures AllKnown(Directory(b)) <==> |fixups| == |Directory(b)|
  {
    HandledIsKnownPrefix(Directory(b), fixups);
  }

  lemma WalkStarts(b: Bytes)
    requires Relocatable(b)
    ensures StandsAt(b, DirectoryStart(b), []) && Handled(b, [])
    ensures Targets([]) == [] && InBounds([], |b|)
  {
  }

  lemma WalkAdvances(b: Bytes, cur: nat, before: seq<Fixup>)
    requires Relocatable(b) && StandsAt(b, cur, before) && InsideBlock(b, cur)
    ensures BlockSize(b, cur) >= BLOCK_HEADER
    ensures cur + BLOCK_HEADER + 2 * FixupCount(BlockSize(b, cur)) <= |b|
    ensures cur + BlockSize(b, cur) <= WalkEnd(b, DirectoryStart(b), DirectoryEnd(b))
    ensures StandsAt(b, cur + BlockSize(b, cur), before + BlockFixups(b, cur, FixupCount(BlockSize(b, cur))))
  {
    hide U32, NeedsRelocation, SpareHeaders, SpareDirectory;
    WalkableInside(b, cur, DirectoryEnd(b));
    var here := BlockFixups(b, cur, FixupCount(BlockSize(b, cur)));
    hide Relocatable;
    assert before + here + Decode(b, cur + BlockSize(b, cur), DirectoryEnd(b))
           == before + (here + Decode(b, cur + BlockSize(b, cur), DirectoryEnd(b)));
  }

  lemma {:induction false} BlockPrefix(b: Bytes, cur: nat, i: nat, n: nat)
    requires i <= n && cur + BLOCK_HEADER + 2 * n <= |b|
    ensures BlockFixups(b, cur, i) <= BlockFixups(b, cur, n)
    ensures i < n ==> BlockFixups(b, cur, n)[i] == FixupAt(b, cur, i)
    decreases n
  {
    if i < n {
      BlockPrefix(b, cur, i, n - 1);
      if i == n - 1 {
        assert BlockFixups(b, cur, n)[..i] == BlockFixups(b, cur, i);
      }
    }
  }

  lemma NextFixup(b: Bytes, cur: nat, before: seq<Fixup>, i: nat)
    requires Relocatable(b) && StandsAt(b, cur, before) && InsideBlock(b, cur)
    requires BlockSize(b, cur) >= BLOCK_HEADER && i < FixupCount(BlockSize(b, cur))
    requires cur + BLOCK_HEADER + 2 * FixupCount(BlockSize(b, cur)) <= |b|
    requires Handled(b, before + BlockFixups(b, cur, i))
    ensures var done := before + BlockFixups(b, cur, i);
            && |done| < |Directory(b)| && Directory(b)[|done|] == FixupAt(b, cur, i)
            && before + BlockFixups(b, cur, i + 1) == done + [FixupAt(b, cur, i)]
            && (KnownKind(FixupAt(b, cur, i)) ==> Handled(b, done + [FixupAt(b, cur, i)]))
  {
    hide Relocatable, StandsAt, InsideBlock, Directory, FixupAt, U32, FixupCount;
    var n := FixupCount(BlockSize(b, cur));
    BlockPrefix(b, cur, i, n);
    BlockPrefix(b, cur, i + 1, n);
    BlockListed(b, cur, before);
    hide BlockSize;
    NextListed(Directory(b), before, BlockFixups(b, cur, n), BlockFixups(b, cur, i), FixupAt(b, cur, i));
    if KnownKind(FixupAt(b, cur, i)) {
      OneMoreKnown(before + BlockFixups(b, cur, i), FixupAt(b, cur, i));
    }
  }

  lemma BlockListed(b: Bytes, cur: nat, before: seq<Fixup>)
    requires Relocatable(b) && StandsAt(b, cur, before) && InsideBlock(b, cur)
    requires BlockSize(b, cur) >= BLOCK_HEADER && cur + BLOCK_HEADER + 2 * FixupCount(BlockSize(b, cur)) <= |b|
    ensures before + BlockFixups(b, cur, FixupCount(BlockSize(b, cur))) <= Directory(b)
  {
    WalkAdvances(b, cur, before);
    hide Relocatable, Walkable, WalkEnd, Decode, BlockFixups, U32, InsideBlock;
  }

  lemma NextListed(all: seq<Fixup>, before: seq<Fixup>, block: seq<Fixup>, done: seq<Fixup>, f: Fixup)
    requires before + block <= all && done + [f] <= block
    ensures |before + done| < |all| && all[|before + done|] == f && before + done + [f] <= all
    ensures before + (done + [f]) == before + done + [f]
  {
    assert block[|done|] == f;
  }

  lemma OneMoreKnown(fixups: seq<Fixup>, f: Fixup)
    requires AllKnown(fixups) && KnownKind(f)
    ensures AllKnown(fixups + [f])
  {
  }

  lemma KnownKinds(f: Fixup)
    ensures Targets([f]) == TargetOf(f)
  {
    assert Targets([f]) == Targets([f][..0]) + TargetOf(f);
  }

  // Handling one more known fixup
  lemma OneMoreFixup(b: Bytes, done: seq<Fixup>, f: Fixup, d: nat)
    requires Relocatable(b) && Handled(b, done) && Handled(b, done + [f])
    ensures InBounds(Targets(done), |b|) && InBounds(Targets(done + [f]), |b|)
    ensures f.kind == REL_BASED_ABSOLUTE ==> AddAll(b, Targets(done + [f]), d) == AddAll(b, Targets(done), d)
    ensures f.kind == REL_BASED_DIR64 ==>
              && f.page + f.offset + 8 <= |b|
              && AddAll(b, Targets(done + [f]), d) == AddWord(AddAll(b, Targets(done), d), f.page + f.offset, d)
  {
    HandledTargets(b, done);
    HandledTargets(b, done + [f]);
    TargetsConcat(done, [f]);
    KnownKinds(f);
    if f.kind == REL_BASED_DIR64 {
      hide Relocatable, Handled, AddWord, AddAll, Targets, SpareDirectory, SpareHeaders;
      OneMoreTarget(b, Targets(done), f.page + f.offset, d);
    } else if f.kind == REL_BASED_ABSOLUTE {
      hide Relocatable, Handled, AddWord, AddAll, Targets, SpareDirectory, SpareHeaders;
      assert Targets(done) + [] == Targets(done);
    }
  }

  lemma OneMoreTarget(b: Bytes, targets: seq<nat>, t: nat, d: nat)
    requires InBounds(targets, |b|) && InBounds(targets + [t], |b|)
    ensures t + 8 <= |b| && AddAll(b, targets + [t], d) == AddWord(AddAll(b, targets, d), t, d)
  {
    var more := targets + [t];
    assert more[..|more| - 1] == targets && more[|more| - 1] == t;
  }

  // What the loop reads from the image, in terms of the image it started from
  lemma ReadsNow(b: Bytes, b': Bytes, done: seq<Fixup>, d: nat)
    requires Relocatable(b) && Handled(b, done) && InBounds(Targets(done), |b|) && b' == AddAll(b, Targets(done), d)
    ensures ReadsLike(b, b') && TableFits(b') && ImageBase(b') == ImageBase(b) && |b'| == |b|
  {
    HandledTargets(b, done);
    FixupsKeepReads(b, Targets(done), d);
    HeadersSame(b, b');
  }

  lemma ReadsFixup(b: Bytes, b': Bytes, cur: nat, before: seq<Fixup>, i: nat)
    requires Relocatable(b) && ReadsLike(b, b') && StandsAt(b, cur, before) && InsideBlock(b, cur)
    requires BlockSize(b, cur) >= BLOCK_HEADER && i < FixupCount(BlockSize(b, cur))
    ensures cur + BLOCK_HEADER + 2 * i + 2 <= |b'| == |b| && FixupAt(b', cur, i) == FixupAt(b, cur, i)
  {
    WalkAdvances(b, cur, before);
    ReadDirectory(b, b', cur, 4);
    ReadDirectory(b, b', cur + BLOCK_HEADER + 2 * i, 2);
  }

  lemma ReadsBlockHeader(b: Bytes, b': Bytes, cur: nat, before: seq<Fixup>)
    requires Relocatable(b) && ReadsLike(b, b') && StandsAt(b, cur, before)
    ensures cur + BLOCK_HEADER <= |b'| == |b| && BlockSize(b', cur) == BlockSize(b, cur) && U32(b', cur) == U32(b, cur)
  {
    ReadDirectory(b, b', cur, 4);
    ReadDirectory(b, b', cur + 4, 4);
  }

  lemma FixupFields(word: nat)
    requires word < 0x1_0000
    ensures Shr(word, 12) == word / 0x1000 && And(word, 0xFFF) == word % 0x1000
  {
    ShiftsDivide(word);
    PowersOfTwo();
    AndLowOnes(word, 12);
  }

  // The image after the given fixups of b were handled
  ghost predicate FixedUpTo(b: Bytes, b': Bytes, done: seq<Fixup>, d: nat)
    requires Relocatable(b)
  {
    Handled(b, done) && InBounds(Targets(done), |b|) && b' == AddAll(b, Targets(done), d)
  }

  // The two forms of the distance that the loop carries
  predicate OffsetFrom(relativeOffset: u64, imageAddress: u64, imageBase: u64)
  {
    imageAddress != imageBase
    && relativeOffset == if imageAddress > imageBase then imageAddress - imageBase else imageBase - imageAddress
  }

  lemma OffsetMoves(relativeOffset: u64, imageAddress: u64, imageBase: u64)
    requires OffsetFrom(relativeOffset, imageAddress, imageBase)
    ensures Distance(imageAddress, imageBase)
            == if imageAddress > imageBase then relativeOffset else (WORD_SPACE - relativeOffset) % WORD_SPACE
  {
    BranchesAgree(imageAddress, imageBase);
  }

  // All that the loop reads while it handles fixup i of the block at cur
  lemma RoundReads(b: Bytes, b': Bytes, cur: nat, before: seq<Fixup>, done: seq<Fixup>, i: nat, d: nat)
    requires Relocatable(b) && StandsAt(b, cur, before) && InsideBlock(b, cur)
    requires BlockSize(b, cur) >= BLOCK_HEADER && i < FixupCount(BlockSize(b, cur))
    requires cur + BLOCK_HEADER + 2 * FixupCount(BlockSize(b, cur)) <= |b|
    requires FixedUpTo(b, b', done, d) && done == before + BlockFixups(b, cur, i)
    ensures |b'| == |b| && HeadersFit(b') && ImageBase(b') == ImageBase(b)
    ensures FixupAt(b', cur, i) == FixupAt(b, cur, i) && U32(b', cur) == U32(b, cur)
    ensures |done| < |Directory(b)| && Directory(b)[|done|] == FixupAt(b, cur, i)
    ensures before + BlockFixups(b, cur, i + 1) == done + [FixupAt(b, cur, i)]
    ensures KnownKind(FixupAt(b, cur, i)) ==> Handled(b, done + [FixupAt(b, cur, i)])
  {
    hide Relocatable, Handled, StandsAt, InsideBlock, ReadsLike, AddAll, Directory, BlockFixups, FixupAt, U32;
    ReadsNow(b, b', done, d);
    ReadsBlockHeader(b, b', cur, before);
    ReadsFixup(b, b', cur, before, i);
    NextFixup(b, cur, before, i);
  }

  // One fixup: skip padding, move a DIR64 word, refuse anything else
  method ApplyFixup(image: array<u8>, data: nat, page: nat, add: bool, relativeOffset: u64,
                    ghost b: Bytes, ghost done: seq<Fixup>, ghost f: Fixup, ghost d: u64) returns (ok: bool)
    requires data < 0x1_0000 && f == Fixup(page, data / 0x1000, data % 0x1000)
    requires d == if add then relativeOffset else (WORD_SPACE - relativeOffset) % WORD_SPACE
    requires Relocatable(b) && FixedUpTo(b, image[..], done, d)
    requires KnownKind(f) ==> Handled(b, done + [f])
    modifies image
    ensures ok <==> KnownKind(f)
    ensures FixedUpTo(b, image[..], if ok then done + [f] else done, d)
  {
    hide Relocatable, Handled, AddAll, AddWord, Targets, InBounds, Shr, And;
    FixupFields(data);
    if KnownKind(f) {
      OneMoreFixup(b, done, f, d);
    }
    var dataType := Shr(data, 12);
    ok := dataType == REL_BASED_ABSOLUTE || dataType == REL_BASED_DIR64;
    if dataType == REL_BASED_DIR64 {
      AddInPlace(image, page + And(data, 0xFFF), relativeOffset, add);
    }
  }

  // The inner loop: the fixups of the block at cur
  method ApplyBlock(image: array<u8>, cur: nat, imageAddress: u64, relativeOffset: u64,
                    ghost b: Bytes, ghost before: seq<Fixup>, ghost d: u64) returns (ok: bool, ghost done: seq<Fixup>)
    requires Relocatable(b) && StandsAt(b, cur, before) && InsideBlock(b, cur)
    requires OffsetFrom(relativeOffset, imageAddress, ImageBase(b)) && d == Distance(imageAddress, ImageBase(b))
    requires FixedUpTo(b, image[..], before, d)
    modifies image
    ensures FixedUpTo(b, image[..], done, d)
    ensures ok ==> cur + BLOCK_HEADER + 2 * FixupCount(BlockSize(b, cur)) <= |b|
                   && done == before + BlockFixups(b, cur, FixupCount(BlockSize(b, cur)))
    ensures !ok ==> |done| < |Directory(b)| && !KnownKind(Directory(b)[|done|])
  {
    hide Relocatable, StandsAt, InsideBlock, FixedUpTo, OffsetFrom, Directory, Distance, KnownKind;
    hide TableFits, HeadersFit, ImageBase, U32, U16, BlockFixups, FixupAt, BlockSize, FixupCount;
    RelocatableHeaders(b);
    OffsetMoves(relativeOffset, imageAddress, ImageBase(b));
    BlockStarts(b, image[..], cur, before, d);
    done := before;
    var page := U32(image[..], cur);
    var numberOfRelocations := FixupCount(BlockSize(image[..], cur));
    var i := 0;
    while i < numberOfRelocations
      invariant 0 <= i <= numberOfRelocations && cur + BLOCK_HEADER + 2 * i <= |b|
      invariant done == before + BlockFixups(b, cur, i)
      invariant FixedUpTo(b, image[..], done, d)
    {
      RoundReads(b, image[..], cur, before, done, i, d);
      RoundFits(cur, i, FixupCount(BlockSize(b, cur)), |b|);
      var data := U16(image[..], cur + BLOCK_HEADER + 2 * i);
      ghost var f := FixupAt(b, cur, i);
      FixupIs(image[..], cur, i, data, page);
      ok := ApplyFixup(image, data, page, imageAddress > ImageBase(image[..]), relativeOffset, b, done, f, d);
      if !ok {
        return;
      }
      done := done + [f];
      i := i + 1;
    }
    ok := true;
  }

  lemma RoundFits(cur: nat, i: nat, n: nat, size: nat)
    requires i < n && cur + BLOCK_HEADER + 2 * n <= size
    ensures cur + BLOCK_HEADER + 2 * i + 2 <= size && cur + BLOCK_HEADER + 2 * (i + 1) <= size
  {
  }

  lemma BlockStarts(b: Bytes, b': Bytes, cur: nat, before: seq<Fixup>, d: nat)
    requires Relocatable(b) && StandsAt(b, cur, before) && InsideBlock(b, cur) && FixedUpTo(b, b', before, d)
    ensures |b'| == |b| && BlockSize(b, cur) >= BLOCK_HEADER
    ensures cur + BLOCK_HEADER + 2 * FixupCount(BlockSize(b, cur)) <= |b|
    ensures BlockSize(b', cur) == BlockSize(b, cur) && U32(b', cur) == U32(b, cur)
    ensures before + BlockFixups(b, cur, 0) == before
  {
    hide Relocatable, StandsAt, InsideBlock, Handled, AddAll, U32;
    ReadsNow(b, b', before, d);
    ReadsBlockHeader(b, b', cur, before);
    WalkAdvances(b, cur, before);
  }

  lemma FixupIs(b: Bytes, cur: nat, i: nat, data: nat, page: nat)
    requires cur + BLOCK_HEADER + 2 * i + 2 <= |b|
    requires data == U16(b, cur + BLOCK_HEADER + 2 * i) && page == U32(b, cur)
    ensures FixupAt(b, cur, i) == Fixup(page, data / 0x1000, data % 0x1000)
  {
  }

  // BlLdrImageRelocation
  method RelocateImage(image: array<u8>, imageAddress: u64) returns (status: LoadStatus)
    requires HeadersFit(image[..])
    requires IsValidImage(image[..]) && imageAddress != ImageBase(image[..]) && NumberOfRvaAndSizes(image[..]) > 5 ==>
               Relocatable(image[..])
    modifies image
    ensures !old(IsValidImage(image[..])) ==> status == InvalidImage && image[..] == old(image[..])
    // an image away from its preferred base, on either side, with a sixth directory entry
    ensures old(IsValidImage(image[..])) && imageAddress != old(ImageBase(image[..]))
            && old(NumberOfRvaAndSizes(image[..])) > 5 ==>
              RelocatedAs(old(image[..]), image[..], status, Distance(imageAddress, old(ImageBase(image[..]))))
    // any other
    ensures old(IsValidImage(image[..])) && (imageAddress == old(ImageBase(image[..]))
                                             || old(NumberOfRvaAndSizes(image[..])) <= 5) ==>
              status == Loaded && image[..] == old(image[..])
  {
    if !IsValidImage(image[..]) {
      return InvalidImage;
    }
    ghost var b := image[..];
    if imageAddress != ImageBase(image[..]) && NumberOfRvaAndSizes(image[..]) > DIRECTORY_ENTRY_BASERELOC {
      status := RelocateBlocks(image, imageAddress);
    } else {
      status := Loaded;
    }
  }

  // What the walk makes of an image: all applied fixups move their words by the distance, and an unknown
  // kind is reported
  ghost predicate RelocatedAs(b: Bytes, b': Bytes, status: LoadStatus, d: nat)
    requires Relocatable(b)
  {
    && InBounds(Targets(Applied(b)), |b|)
    && b' == AddAll(b, Targets(Applied(b)), d)
    && status == if AllKnown(Directory(b)) then Loaded else GenericError
  }

  // The outer loop stands at cur, having handled the given fixups of b
  ghost predicate WalkState(b: Bytes, b': Bytes, cur: nat, done: seq<Fixup>, d: nat)
    requires Relocatable(b)
  {
    && cur + BLOCK_HEADER <= |b'| == |b| && BlockSize(b', cur) == BlockSize(b, cur)
    && StandsAt(b, cur, done) && FixedUpTo(b, b', done, d)
  }

  lemma RelocatableHeaders(b: Bytes)
    requires Relocatable(b)
    ensures TableFits(b) && HeadersFit(b)
  {
  }

  lemma StateReads(b: Bytes, b': Bytes, cur: nat, done: seq<Fixup>, d: nat)
    requires Relocatable(b) && WalkState(b, b', cur, done, d)
    ensures cur + BLOCK_HEADER <= |b'| == |b| && BlockSize(b', cur) == BlockSize(b, cur)
  {
  }

  // One round of the outer loop
  method ApplyNextBlock(image: array<u8>, cur: nat, imageAddress: u64, relativeOffset: u64,
                        ghost b: Bytes, ghost before: seq<Fixup>, ghost d: u64)
    returns (ok: bool, next: nat, ghost done: seq<Fixup>)
    requires Relocatable(b) && WalkState(b, image[..], cur, before, d) && InsideBlock(b, cur)
    requires OffsetFrom(relativeOffset, imageAddress, ImageBase(b)) && d == Distance(imageAddress, ImageBase(b))
    modifies image
    ensures ok ==> next > cur && WalkState(b, image[..], next, done, d)
    ensures !ok ==> RelocatedAs(b, image[..], GenericError, d)
  {
    hide Relocatable, StandsAt, FixedUpTo, InsideBlock, Directory, Distance, KnownKind, OffsetFrom, RelocatedAs;
    hide TableFits, HeadersFit, ImageBase, U32, BlockFixups, FixupCount, BlockSize;
    next := cur;
    ok, done := ApplyBlock(image, cur, imageAddress, relativeOffset, b, before, d);
    if !ok {
      WalkStops(b, image[..], done, d);
      return;
    }
    BlockDone(b, image[..], cur, before, done, d);
    next := cur + BlockSize(image[..], cur);
  }

  // The outer loop: block after block, until a size of zero or the end of the directory
  method RelocateBlocks(image: array<u8>, imageAddress: u64) returns (status: LoadStatus)
    requires Relocatable(image[..]) && imageAddress != ImageBase(image[..])
    modifies image
    ensures RelocatedAs(old(image[..]), image[..], status, Distance(imageAddress, old(ImageBase(image[..]))))
  {
    hide Relocatable, WalkState, InsideBlock, Distance, TableFits, ImageBase, BlockSize, OffsetFrom;
    hide DirectoryStart, DirectoryEnd, HeadersFit, RelocatedAs;
    ghost var b := image[..];
    RelocatableHeaders(b);
    ghost var d := Distance(imageAddress, ImageBase(b));
    WalkBegins(b, d);
    OffsetIs(imageAddress, ImageBase(b));
    ghost var done: seq<Fixup> := [];
    var cur := DirectoryStart(image[..]);
    var end := DirectoryEnd(image[..]);
    var relativeOffset := if imageAddress > ImageBase(image[..]) then imageAddress - ImageBase(image[..])
                          else ImageBase(image[..]) - imageAddress;
    StateReads(b, image[..], cur, done, d);
    while BlockSize(image[..], cur) != 0 && cur < end
      invariant cur + BLOCK_HEADER <= |image[..]| == |b| && BlockSize(image[..], cur) == BlockSize(b, cur)
      invariant WalkState(b, image[..], cur, done, d)
      decreases if cur < end then end - cur else 0
    {
      InsideNow(b, cur);
      var ok;
      ok, cur, done := ApplyNextBlock(image, cur, imageAddress, relativeOffset, b, done, d);
      if !ok {
        return GenericError;
      }
      StateReads(b, image[..], cur, done, d);
    }
    InsideNow(b, cur);
    WalkEnds(b, image[..], cur, done, d);
    status := Loaded;
  }

  lemma WalkEnds(b: Bytes, b': Bytes, cur: nat, done: seq<Fixup>, d: nat)
    requires Relocatable(b) && WalkState(b, b', cur, done, d) && !InsideBlock(b, cur)
    ensures RelocatedAs(b, b', Loaded, d)
  {
    hide Relocatable, StandsAt, FixedUpTo, InsideBlock, Directory, RelocatedAs, KnownKind;
    WalkFinished(b, cur, done);
    WalkStops(b, b', done, d);
  }

  lemma OffsetIs(imageAddress: u64, imageBase: u64)
    requires imageAddress != imageBase
    ensures OffsetFrom(if imageAddress > imageBase then imageAddress - imageBase else imageBase - imageAddress,
                       imageAddress, imageBase)
  {
  }

  lemma WalkBegins(b: Bytes, d: nat)
    requires Relocatable(b)
    ensures HeadersFit(b) && WalkState(b, b, DirectoryStart(b), [], d)
  {
    WalkStarts(b);
    hide Handled, Decode, StandsAt;
    assert AddAll(b, [], d) == b;
  }

  // The header of the block at which the walk stands
  lemma AtBlock(b: Bytes, b': Bytes, cur: nat, before: seq<Fixup>, done: seq<Fixup>, d: nat)
    requires Relocatable(b) && StandsAt(b, cur, before) && FixedUpTo(b, b', done, d)
    ensures cur + BLOCK_HEADER <= |b'| == |b| && BlockSize(b', cur) == BlockSize(b, cur)
  {
    hide Relocatable, StandsAt, Handled, AddAll, U32;
    ReadsNow(b, b', done, d);
    ReadsBlockHeader(b, b', cur, before);
  }

  // After a block that was handled to its end, the walk stands at the next one
  lemma BlockDone(b: Bytes, b': Bytes, cur: nat, before: seq<Fixup>, done: seq<Fixup>, d: nat)
    requires Relocatable(b) && StandsAt(b, cur, before) && InsideBlock(b, cur) && FixedUpTo(b, b', done, d)
    requires cur + BLOCK_HEADER + 2 * FixupCount(BlockSize(b, cur)) <= |b|
    requires done == before + BlockFixups(b, cur, FixupCount(BlockSize(b, cur)))
    ensures cur + BLOCK_HEADER <= |b'| && BlockSize(b', cur) >= BLOCK_HEADER
    ensures var next := cur + BlockSize(b', cur);
            && StandsAt(b, next, done) && next + BLOCK_HEADER <= |b'| == |b|
              && BlockSize(b', next) == BlockSize(b, next)
  {
    hide Relocatable, StandsAt, InsideBlock, FixedUpTo, BlockFixups, BlockSize, FixupCount, WalkEnd;
    WalkAdvances(b, cur, before);
    AtBlock(b, b', cur, before, done, d);
    AtBlock(b, b', cur + BlockSize(b, cur), done, done, d);
  }

  lemma WalkStops(b: Bytes, b': Bytes, done: seq<Fixup>, d: nat)
    requires Relocatable(b) && FixedUpTo(b, b', done, d)
    requires |done| == |Directory(b)| || !KnownKind(Directory(b)[|done|])
    ensures RelocatedAs(b, b', if |done| == |Directory(b)| then Loaded else GenericError, d)
  {
    StopsHere(b, done);
  }

  lemma InsideNow(b: Bytes, cur: nat)
    requires cur + BLOCK_HEADER <= |b| && HeadersFit(b)
    ensures InsideBlock(b, cur) <==> BlockSize(b, cur) != 0 && cur < DirectoryEnd(b)
  {
  }

  lemma WalkFinished(b: Bytes, cur: nat, done: seq<Fixup>)
    requires Relocatable(b) && StandsAt(b, cur, done) && !InsideBlock(b, cur)
    ensures done == Directory(b)
  {
  }
}
