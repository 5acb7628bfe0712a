/**
  BlLdrLoadPEImage64 after the file has been read: headers, sections and relocation together, and what
  a kernel mapped from the result sees.
 */
module Loader {
  import opened Bits
  import opened Paging
  import opened ByteOrder
  import opened Pe
  import opened PeBytes
  import opened Placement
  import opened Relocation
  import opened RelocationWalk
  import opened RelocationTable
  import opened ImageMemory
  import opened KernelMap

  // The header size covers the headers and lies inside file and image
  predicate HeadersCopyable(file: Bytes, imageSize: nat)
  {
    && TableFits(file) && HeaderEnd(file) <= SizeOfHeaders(file)
    && SizeOfHeaders(file) <= |file| && SizeOfHeaders(file) <= imageSize
  }

  // The image with the file's headers copied to its start
  function WithHeaders(file: Bytes, blank: Bytes): (img: Bytes)
    requires HeadersFit(file) && SizeOfHeaders(file) <= |file| && SizeOfHeaders(file) <= |blank|
    ensures |img| == |blank|
  {
    CopyInto(blank, 0, file[..SizeOfHeaders(file)])
  }

  // What the loader relies on: headers, sections and relocations as their own stages rely on them
  ghost predicate Loadable(file: Bytes, blank: Bytes, imageAddress: u64)
  {
    && HeadersCopyable(file, |blank|)
    && var img := WithHeaders(file, blank);
       && SectionsLoadable(img, |file|) && AllFit(img, file, Sections(img))
       && var placed := PlaceAll(img, file, Sections(img));
          HeadersFit(placed) && (NeedsRelocation(placed, imageAddress) ==> Relocatable(placed))
  }

  // The headers and sections of the file in the image
  ghost function PlacedImage(file: Bytes, blank: Bytes, imageAddress: u64): (img: Bytes)
    requires Loadable(file, blank, imageAddress)
    ensures |img| == |blank| && HeadersFit(img)
    ensures NeedsRelocation(img, imageAddress) ==> Relocatable(img)
  {
    PlaceAll(WithHeaders(file, blank), file, Sections(WithHeaders(file, blank)))
  }

  /** The copied headers read in the image as they do in the file. */
  lemma HeadersCopied(file: Bytes, blank: Bytes)
    requires HeadersCopyable(file, |blank|)
    ensures var img := WithHeaders(file, blank);
            && TableFits(img) && HeaderEnd(img) == HeaderEnd(file) && Sections(img) == Sections(file)
            && ImageBase(img) == ImageBase(file) && IsValidImage(img) == IsValidImage(file)
            && SizeOfHeaders(img) == SizeOfHeaders(file)
  {
    var img := WithHeaders(file, blank);
    assert SameHeaderBytes(file, img) by {
      CopiedStart(blank, file[..SizeOfHeaders(file)]);
    }
    hide WithHeaders, SameHeaderBytes;
    HeadersSame(file, img);
  }

  lemma CopiedStart(b: Bytes, src: Bytes)
    requires |src| <= |b|
    ensures forall k :: 0 <= k < |src| ==> CopyInto(b, 0, src)[k] == src[k]
  {
  }

  // What each stage needs follows from what the whole needs
  lemma StagesOk(file: Bytes, blank: Bytes, imageAddress: u64)
    requires Loadable(file, blank, imageAddress)
    ensures HeadersCopyable(file, |blank|)
    ensures var img := WithHeaders(file, blank);
            && TableFits(img) && IsValidImage(img) == IsValidImage(file) && Sections(img) == Sections(file)
            && SectionsLoadable(img, |file|) && AllFit(img, file, Sections(img))
            && PlacedImage(file, blank, imageAddress) == PlaceAll(img, file, Sections(img))
    ensures var placed := PlacedImage(file, blank, imageAddress);
            && TableFits(placed) && IsValidImage(placed) == IsValidImage(file) && Sections(placed) == Sections(file)
            && SizeOfHeaders(placed) == SizeOfHeaders(file) && ImageBase(placed) == ImageBase(file)
            && (NeedsRelocation(placed, imageAddress) ==> Relocatable(placed))
  {
    HeadersCopied(file, blank);
    var img := WithHeaders(file, blank);
    LoadableSections(img, |file|);
    hide SectionsLoadable, WithHeaders, Sections, IsValidImage, SizeOfHeaders, ImageBase, NeedsRelocation, Relocatable;
    hide PlaceAll, ClearOfHeaders, SameHeaderBytes, HeaderEnd;
    PlacingKeepsHeaders(img, file, Sections(img));
    HeadersSame(img, PlaceAll(img, file, Sections(img)));
  }

  // The placed image after the relocation stage at its address
  ghost predicate LoadedAs(placed: Bytes, img: Bytes, status: LoadStatus, imageAddress: u64)
    requires HeadersFit(placed) && (NeedsRelocation(placed, imageAddress) ==> Relocatable(placed))
  {
    if NeedsRelocation(placed, imageAddress)
    then RelocatedAs(placed, img, status, Distance(imageAddress, ImageBase(placed)))
    else status == Loaded && img == placed
  }

  // BlLdrLoadPEImage64 on a file in memory and freshly allocated image pages
  method LoadImage(file: array<u8>, image: array<u8>, imageAddress: u64) returns (status: LoadStatus)
    requires file != image && HeadersFit(file[..])
    requires IsValidImage(file[..]) ==> Loadable(file[..], image[..], imageAddress)
    modifies image
    ensures !IsValidImage(file[..]) ==> status == InvalidImage && image[..] == old(image[..])
    ensures IsValidImage(file[..]) ==>
              LoadedAs(PlacedImage(file[..], old(image[..]), imageAddress), image[..], status, imageAddress)
  {
    hide Loadable, IsValidImage, RelocatedAs, Relocatable, SectionsLoadable, PlaceAll, PlacedImage, StartsWith;
    hide AlignedAsWritten;
    hide Sections, NumberOfSections, SectionHeader, Distance, AllFit, ImageBase;
    if !IsValidImage(file[..]) {
      return InvalidImage;
    }
    ghost var blank := image[..];
    StagesOk(file[..], blank, imageAddress);
    CopyHeaders(file, image);
    assert image[..] == WithHeaders(file[..], blank);
    if !IsValidImage(image[..]) {
      assert false;
      return InvalidImage;
    }
    status := AlignFileImage(file, image);
    assert image[..] == PlacedImage(file[..], blank, imageAddress);
    status := RelocateImage(image, imageAddress);
  }

  // The words of a loaded file that the relocation changes
  ghost function FixedWords(placed: Bytes, imageAddress: u64): seq<nat>
    requires HeadersFit(placed) && (NeedsRelocation(placed, imageAddress) ==> Relocatable(placed))
  {
    if NeedsRelocation(placed, imageAddress) then Targets(Applied(placed)) else []
  }

  lemma LoadedHeaders(placed: Bytes, img: Bytes, status: LoadStatus, imageAddress: u64)
    requires TableFits(placed) && (NeedsRelocation(placed, imageAddress) ==> Relocatable(placed))
    requires LoadedAs(placed, img, status, imageAddress)
    ensures |img| == |placed| && TableFits(img) && Sections(img) == Sections(placed)
    ensures SizeOfHeaders(img) == SizeOfHeaders(placed) && ImageBase(img) == ImageBase(placed)
  {
    if NeedsRelocation(placed, imageAddress) {
      var d := Distance(imageAddress, ImageBase(placed));
      RelocatedHeaders(placed, img, status, d);
    }
  }

  lemma RelocatedHeaders(placed: Bytes, img: Bytes, status: LoadStatus, d: nat)
    requires Relocatable(placed) && RelocatedAs(placed, img, status, d)
    ensures |img| == |placed| && TableFits(img) && Sections(img) == Sections(placed)
    ensures SizeOfHeaders(img) == SizeOfHeaders(placed) && ImageBase(img) == ImageBase(placed)
  {
    hide Targets, Applied, Walkable, WalkEnd, AddAll, SpareHeaders, SpareDirectory, SectionHeader, NumberOfSections;
    FixupsKeepReads(placed, Targets(Applied(placed)), d);
    hide SameHeaderBytes;
    HeadersSame(placed, img);
  }

  lemma LoadedByte(placed: Bytes, img: Bytes, status: LoadStatus, imageAddress: u64, x: nat)
    requires TableFits(placed) && (NeedsRelocation(placed, imageAddress) ==> Relocatable(placed))
    requires LoadedAs(placed, img, status, imageAddress) && x < |placed|
    requires forall t :: t in FixedWords(placed, imageAddress) ==> !(t <= x < t + 8)
    ensures |img| == |placed| && img[x] == placed[x]
  {
    hide Targets, Applied, AddAll, Distance, NeedsRelocation, Walkable, SpareHeaders, SpareDirectory;
    if NeedsRelocation(placed, imageAddress) {
      var targets := Targets(Applied(placed));
      assert forall i :: 0 <= i < |targets| ==> targets[i] in FixedWords(placed, imageAddress);
      BytesOutsideStay(placed, targets, Distance(imageAddress, ImageBase(placed)), x);
    }
  }

  // Section i is the last that owns the byte at x
  predicate LastOwner(sections: seq<Section>, i: nat, x: nat)
  {
    i < |sections| && Owns(sections[i], x) && forall j :: i < j < |sections| ==> !Owns(sections[j], x)
  }

  // The image is what was loaded for its address, and loads from the virtual base yield it
  ghost predicate LoadedAndSeen(placed: Bytes, img: Bytes, status: LoadStatus, s: Snapshot, base: u64, newBase: u64)
    requires TableFits(placed) && (NeedsRelocation(placed, base) ==> Relocatable(placed))
  {
    LoadedAs(placed, img, status, base) && TableFits(img) && SeesImage(s, img, newBase)
  }

  // The byte that section i puts at offset x of the image reaches the kernel: the section is the last that
  // owns it, it lies within the virtual size, and no relocation touches it
  ghost predicate ReachesKernel(sections: seq<Section>, fixed: seq<nat>, i: nat, x: nat)
  {
    && LastOwner(sections, i, x) && x < sections[i].virtualAddress + sections[i].virtualSize
    && forall t :: t in fixed ==> !(t <= x < t + 8)
  }

  // A load from v yields the byte that the section table puts at offset x
  ghost predicate LoadYields(s: Snapshot, v: nat, file: Bytes, section: Section, x: nat)
  {
    && v < WORD_LIMIT && Owns(section, x) && (section.rawSize > 0 ==> section.rawOffset + section.rawSize <= |file|)
    && VirtByte(s, v) == Byte(SectionByte(file, section, x))
  }

  // The image holds at x the byte that the section table puts there, where the kernel can see it
  ghost predicate HoldsByte(img: Bytes, file: Bytes, section: Section, x: nat)
  {
    && TableFits(img) && x < |img| && Visible(img, x)
    && Owns(section, x) && (section.rawSize > 0 ==> section.rawOffset + section.rawSize <= |file|)
    && img[x] == SectionByte(file, section, x)
  }

  /** A loaded image holds, outside the relocated words, what the section table of the file says. */
  lemma LoadedImageHolds(file: Bytes, blank: Bytes, status: LoadStatus, img: Bytes, base: u64, i: nat, x: nat)
    requires Loadable(file, blank, base) && TableFits(PlacedImage(file, blank, base))
    requires LoadedAs(PlacedImage(file, blank, base), img, status, base)
    requires x < |blank| && TableFits(file) && i < NumberOfSections(file)
    requires ReachesKernel(Sections(file), FixedWords(PlacedImage(file, blank, base), base), i, x)
    ensures HoldsByte(img, file, Sections(file)[i], x)
  {
    StagesOk(file, blank, base);
    var start, placed, sections := WithHeaders(file, blank), PlacedImage(file, blank, base), Sections(file);
    hide *;
    Reaching(sections, FixedWords(placed, base), i, x);
    LoadedHeaders(placed, img, status, base);
    LoadedByte(placed, img, status, base, x);
    PlacedByte(start, file, sections, i, x);
    SectionVisible(img, sections, i, x);
    ByteHeld(img, file, sections[i], x);
  }

  lemma ByteHeld(img: Bytes, file: Bytes, section: Section, x: nat)
    requires TableFits(img) && x < |img| && Visible(img, x)
    requires Owns(section, x) && (section.rawSize > 0 ==> section.rawOffset + section.rawSize <= |file|)
    requires img[x] == SectionByte(file, section, x)
    ensures HoldsByte(img, file, section, x)
  {
  }

  /** From the file to the kernel: if loads from the virtual base yield the image that was loaded, then a load at
      an offset in a section, outside the relocated words, yields the byte that the section table puts there:
      the byte of the file, or the zero fill. */
  lemma KernelSeesFile(file: Bytes, blank: Bytes, img: Bytes, status: LoadStatus, s: Snapshot, base: u64, newBase: u64,
                       i: nat, x: nat)
    requires Loadable(file, blank, base) && TableFits(PlacedImage(file, blank, base))
    requires LoadedAndSeen(PlacedImage(file, blank, base), img, status, s, base, newBase)
    requires x < |blank| && TableFits(file) && i < NumberOfSections(file)
    requires ReachesKernel(Sections(file), FixedWords(PlacedImage(file, blank, base), base), i, x)
    ensures LoadYields(s, newBase + x, file, Sections(file)[i], x)
  {
    var placed, sections := PlacedImage(file, blank, base), Sections(file);
    hide *;
    SeenAsLoaded(placed, img, status, s, base, newBase);
    LoadedImageHolds(file, blank, status, img, base, i, x);
    SeesHeldByte(s, img, newBase, file, sections[i], x);
  }

  lemma SeesHeldByte(s: Snapshot, img: Bytes, newBase: u64, file: Bytes, section: Section, x: nat)
    requires HoldsByte(img, file, section, x) && TableFits(img) && SeesImage(s, img, newBase)
    ensures LoadYields(s, newBase + x, file, section, x)
  {
    hide TableFits, Visible, VirtByte, Owns, SectionByte;
  }

  lemma Reaching(sections: seq<Section>, fixed: seq<nat>, i: nat, x: nat)
    requires ReachesKernel(sections, fixed, i, x)
    ensures LastOwner(sections, i, x) && i < |sections| && Owns(sections[i], x)
    ensures x < sections[i].virtualAddress + sections[i].virtualSize
    ensures forall t :: t in fixed ==> !(t <= x < t + 8)
  {
  }

  lemma SeenAsLoaded(placed: Bytes, img: Bytes, status: LoadStatus, s: Snapshot, base: u64, newBase: u64)
    requires TableFits(placed) && (NeedsRelocation(placed, base) ==> Relocatable(placed))
    requires LoadedAndSeen(placed, img, status, s, base, newBase)
    ensures LoadedAs(placed, img, status, base) && TableFits(img) && SeesImage(s, img, newBase)
  {
  }

  lemma PlacedByte(img: Bytes, file: Bytes, sections: seq<Section>, i: nat, x: nat)
    requires AllFit(img, file, sections) && LastOwner(sections, i, x) && x < |img|
    ensures sections[i].rawSize > 0 ==> sections[i].rawOffset + sections[i].rawSize <= |file|
    ensures PlaceAll(img, file, sections)[x] == SectionByte(file, sections[i], x)
  {
    LastOwnerWins(img, file, sections, i, x);
  }

  lemma SectionVisible(img: Bytes, sections: seq<Section>, i: nat, x: nat)
    requires TableFits(img) && Sections(img) == sections && LastOwner(sections, i, x)
    requires x < sections[i].virtualAddress + sections[i].virtualSize
    ensures Visible(img, x)
  {
    hide Sections;
    assert sections[i] in Sections(img);
  }

  // ---------------------------------------------------------------- headers and relocated words

  lemma UnownedHeld(img: Bytes, file: Bytes, sections: seq<Section>, x: nat)
    requires AllFit(img, file, sections) && x < |img| && NoOwner(sections, x)
    ensures PlaceAll(img, file, sections)[x] == img[x]
  {
    UnownedStays(img, file, sections, x);
  }

  predicate NoOwner(sections: seq<Section>, x: nat)
  {
    forall i :: 0 <= i < |sections| ==> !Owns(sections[i], x)
  }

  lemma HeaderByte(file: Bytes, blank: Bytes, x: nat)
    requires HeadersCopyable(file, |blank|) && x < SizeOfHeaders(file)
    ensures WithHeaders(file, blank)[x] == file[x]
  {
    hide SizeOfHeaders;
    CopiedStart(blank, file[..SizeOfHeaders(file)]);
  }

  lemma HeaderFits(file: Bytes, blank: Bytes, x: nat)
    requires HeadersCopyable(file, |blank|) && x < SizeOfHeaders(file)
    ensures x < |file| && x < |blank| && HeadersFit(file)
  {
  }

  lemma HeaderVisible(img: Bytes, x: nat)
    requires TableFits(img) && x < SizeOfHeaders(img)
    ensures Visible(img, x)
  {
  }

  // The byte of the headers reaches the kernel: no section owns it, and no relocation touches it
  ghost predicate HeaderReaches(sections: seq<Section>, fixed: seq<nat>, x: nat)
  {
    NoOwner(sections, x) && forall t :: t in fixed ==> !(t <= x < t + 8)
  }

  lemma LoadedImageHoldsHeader(file: Bytes, blank: Bytes, status: LoadStatus, img: Bytes, base: u64, x: nat)
    requires Loadable(file, blank, base) && TableFits(PlacedImage(file, blank, base))
    requires LoadedAs(PlacedImage(file, blank, base), img, status, base)
    requires TableFits(file) && x < SizeOfHeaders(file)
    requires HeaderReaches(Sections(file), FixedWords(PlacedImage(file, blank, base), base), x)
    ensures x < |file| && TableFits(img) && x < |img| == |blank| && Visible(img, x) && img[x] == file[x]
  {
    StagesOk(file, blank, base);
    var start, placed, sections := WithHeaders(file, blank), PlacedImage(file, blank, base), Sections(file);
    HeaderFits(file, blank, x);
    HeaderByte(file, blank, x);
    hide SizeOfHeaders, WithHeaders, PlacedImage, Sections, LoadedAs, Loadable, FixedWords, Visible, HeadersCopyable;
    hide PlaceAll;
    hide NeedsRelocation, Relocatable, AllFit, SectionsLoadable, HeaderEnd, NoOwner;
    LoadedHeaders(placed, img, status, base);
    LoadedByte(placed, img, status, base, x);
    UnownedHeld(start, file, sections, x);
    HeaderVisible(img, x);
  }

  /** The kernel loads the file's own bytes from the headers, where no section and no relocation touches
      them. */
  lemma KernelSeesHeaders(file: Bytes, blank: Bytes, img: Bytes, status: LoadStatus, s: Snapshot, base: u64,
                          newBase: u64, x: nat)
    requires Loadable(file, blank, base) && TableFits(PlacedImage(file, blank, base))
    requires LoadedAndSeen(PlacedImage(file, blank, base), img, status, s, base, newBase)
    requires TableFits(file) && x < SizeOfHeaders(file)
    requires HeaderReaches(Sections(file), FixedWords(PlacedImage(file, blank, base), base), x)
    ensures x < |file| && newBase + x < WORD_LIMIT && VirtByte(s, newBase + x) == Byte(file[x])
  {
    var placed := PlacedImage(file, blank, base);
    hide *;
    SeenAsLoaded(placed, img, status, s, base, newBase);
    LoadedImageHoldsHeader(file, blank, status, img, base, x);
    SeesByte(s, img, newBase, x);
  }

  lemma SeesByte(s: Snapshot, img: Bytes, newBase: u64, x: nat)
    requires TableFits(img) && SeesImage(s, img, newBase) && x < |img| && Visible(img, x)
    ensures newBase + x < WORD_LIMIT && VirtByte(s, newBase + x) == Byte(img[x])
  {
    hide TableFits, Visible, VirtByte;
  }

  // Loads from the virtual base on yield the file, section by section, and its headers, outside the given words
  ghost predicate ShowsFile(s: Snapshot, newBase: u64, file: Bytes, fixed: seq<nat>, size: nat)
    requires TableFits(file)
  {
    && (forall i: nat, x: nat | x < size && i < NumberOfSections(file) && ReachesKernel(Sections(file), fixed, i, x) ::
          LoadYields(s, newBase + x, file, Sections(file)[i], x))
    && (forall x: nat | x < SizeOfHeaders(file) && HeaderReaches(Sections(file), fixed, x) ::
          x < |file| && newBase + x < WORD_LIMIT && VirtByte(s, newBase + x) == Byte(file[x]))
  }

  lemma KernelShowsFile(file: Bytes, blank: Bytes, img: Bytes, status: LoadStatus, s: Snapshot, base: u64, newBase: u64)
    requires Loadable(file, blank, base) && TableFits(PlacedImage(file, blank, base)) && TableFits(file)
    requires LoadedAndSeen(PlacedImage(file, blank, base), img, status, s, base, newBase)
    ensures ShowsFile(s, newBase, file, FixedWords(PlacedImage(file, blank, base), base), |blank|)
  {
    hide Loadable, PlacedImage, LoadedAndSeen, FixedWords, ReachesKernel, HeaderReaches, LoadYields, Sections;
    hide VirtByte, NumberOfSections, SizeOfHeaders;
    var fixed := FixedWords(PlacedImage(file, blank, base), base);
    forall i: nat, x: nat | x < |blank| && i < NumberOfSections(file) && ReachesKernel(Sections(file), fixed, i, x)
      ensures LoadYields(s, newBase + x, file, Sections(file)[i], x)
    {
      KernelSeesFile(file, blank, img, status, s, base, newBase, i, x);
    }
    forall x: nat | x < SizeOfHeaders(file) && HeaderReaches(Sections(file), fixed, x)
      ensures x < |file| && newBase + x < WORD_LIMIT && VirtByte(s, newBase + x) == Byte(file[x])
    {
      KernelSeesHeaders(file, blank, img, status, s, base, newBase, x);
    }
  }

  // The eight bytes from v on are the bytes of the word
  ghost predicate LoadsWord(s: Snapshot, v: nat, word: u64)
  {
    v + 8 <= WORD_LIMIT && forall x: nat :: v <= x < v + 8 ==> VirtByte(s, x) == Byte(ToBytes(word, 8)[x - v])
  }

  // The word at t plus the distance, modulo 2^64
  function MovedWord(b: Bytes, t: nat, d: nat): u64
    requires t + 8 <= |b|
  {
    (U64(b, t) + d) % WORD_SPACE
  }

  /** A relocated image holds at each target the placed word plus the distance, modulo 2^64. */
  lemma TargetWord(placed: Bytes, targets: seq<nat>, d: nat, t: nat)
    requires InBounds(targets, |placed|) && PairwiseApart(targets) && t in targets
    ensures t + 8 <= |placed|
    ensures AddAll(placed, targets, d)[t..t + 8] == ToBytes(MovedWord(placed, t, d), 8)
  {
    hide U64, AddAll, ToBytes, PairwiseApart, InBounds;
    TargetMoves(placed, targets, d, t);
    WordBytes(AddAll(placed, targets, d), t);
  }

  lemma LoadedTargets(placed: Bytes, img: Bytes, status: LoadStatus, imageAddress: u64)
    requires HeadersFit(placed) && NeedsRelocation(placed, imageAddress) && Relocatable(placed)
    requires LoadedAs(placed, img, status, imageAddress)
    ensures var targets := FixedWords(placed, imageAddress);
            InBounds(targets, |placed|) && img == AddAll(placed, targets, Distance(imageAddress, ImageBase(placed)))
  {
    hide AddAll, Targets, Applied, Distance, ImageBase;
  }

  // Every byte of the word lies where the kernel can see it
  ghost predicate WordVisible(img: Bytes, t: nat)
    requires TableFits(img)
  {
    forall x: nat :: t <= x < t + 8 ==> Visible(img, x)
  }

  lemma WordStaysVisible(img: Bytes, img': Bytes, t: nat)
    requires TableFits(img) && TableFits(img') && Sections(img') == Sections(img)
             && SizeOfHeaders(img') == SizeOfHeaders(img)
    requires WordVisible(img, t)
    ensures WordVisible(img', t)
  {
    hide Sections, SizeOfHeaders, Visible, TableFits;
    forall x: nat | t <= x < t + 8
      ensures Visible(img', x)
    {
      assert Visible(img, x);
      SameVisible(img, img', x);
    }
  }

  lemma SameVisible(img: Bytes, img': Bytes, x: nat)
    requires TableFits(img) && TableFits(img') && Sections(img') == Sections(img)
             && SizeOfHeaders(img') == SizeOfHeaders(img)
    requires Visible(img, x)
    ensures Visible(img', x)
  {
    hide Sections, SizeOfHeaders;
    if x >= SizeOfHeaders(img) {
      var s :| s in Sections(img) && s.virtualAddress <= x < s.virtualAddress + s.virtualSize;
      assert s in Sections(img');
    }
  }

  // Memory holds the bytes of the word at offset t of an image that was mapped
  ghost predicate HoldsWord(img: Bytes, t: nat, word: u64)
  {
    TableFits(img) && t + 8 <= |img| && WordVisible(img, t) && img[t..t + 8] == ToBytes(word, 8)
  }

  lemma HeldWordByte(img: Bytes, t: nat, word: u64, x: nat)
    requires HoldsWord(img, t, word) && t <= x < t + 8
    ensures TableFits(img) && x < |img| && Visible(img, x) && img[x] == ToBytes(word, 8)[x - t]
  {
    hide TableFits, Visible, ToBytes;
    assert img[t..t + 8][x - t] == img[x];
  }

  lemma SeesWord(s: Snapshot, img: Bytes, newBase: u64, t: nat, word: u64)
    requires HoldsWord(img, t, word) && TableFits(img) && SeesImage(s, img, newBase)
    ensures LoadsWord(s, newBase + t, word)
  {
    hide HoldsWord, SeesImage, TableFits, Visible, VirtByte, ToBytes;
    HeldWordByte(img, t, word, t + 7);
    SeesByte(s, img, newBase, t + 7);
    forall y: nat | newBase + t <= y < newBase + t + 8
      ensures VirtByte(s, y) == Byte(ToBytes(word, 8)[y - (newBase + t)])
    {
      HeldWordByte(img, t, word, y - newBase);
      SeesByte(s, img, newBase, y - newBase);
    }
  }

  lemma TargetHeld(placed: Bytes, img: Bytes, targets: seq<nat>, d: nat, t: nat)
    requires TableFits(placed) && TableFits(img)
    requires Sections(img) == Sections(placed) && SizeOfHeaders(img) == SizeOfHeaders(placed)
    requires InBounds(targets, |placed|) && img == AddAll(placed, targets, d)
    requires PairwiseApart(targets) && t in targets && WordVisible(placed, t)
    ensures t + 8 <= |placed| && HoldsWord(img, t, MovedWord(placed, t, d))
  {
    hide *;
    TargetWord(placed, targets, d, t);
    WordStaysVisible(placed, img, t);
    WordHeld(img, t, MovedWord(placed, t, d));
  }

  /** The kernel reads at every relocated word, if targets do not overlap, the word of the placed image plus
      the distance between load address and preferred base, modulo 2^64. */
  lemma KernelSeesTarget(placed: Bytes, img: Bytes, status: LoadStatus, s: Snapshot, base: u64, newBase: u64, t: nat)
    requires TableFits(placed) && base != ImageBase(placed) && NumberOfRvaAndSizes(placed) > 5 && Relocatable(placed)
    requires LoadedAndSeen(placed, img, status, s, base, newBase)
    requires PairwiseApart(FixedWords(placed, base)) && t in FixedWords(placed, base) && WordVisible(placed, t)
    ensures t + 8 <= |placed|
    ensures LoadsWord(s, newBase + t, MovedWord(placed, t, Distance(base, ImageBase(placed))))
  {
    var d := Distance(base, ImageBase(placed));
    hide NeedsRelocation, Relocatable, FixedWords, WordVisible, PairwiseApart, U64, Distance, ImageBase, Sections;
    hide SizeOfHeaders, LoadedAndSeen, LoadedAs, SeesImage, LoadsWord, HoldsWord, InBounds, AddAll, MovedWord;
    SeenAsLoaded(placed, img, status, s, base, newBase);
    LoadedHeaders(placed, img, status, base);
    LoadedTargets(placed, img, status, base);
    TargetHeld(placed, img, FixedWords(placed, base), d, t);
    SeesWord(s, img, newBase, t, MovedWord(placed, t, d));
  }

  /** A pointer to an offset of the image at its preferred base becomes a pointer to that offset at the address where
      the image was loaded. */
  lemma PointerMoves(placed: Bytes, base: u64, t: nat, rva: nat)
    requires HeadersFit(placed) && t + 8 <= |placed| && U64(placed, t) == (ImageBase(placed) + rva) % WORD_SPACE
    ensures MovedWord(placed, t, Distance(base, ImageBase(placed))) == (base + rva) % WORD_SPACE
  {
    var b := ImageBase(placed);
    hide U64, ImageBase;
    PointerSum(b, rva, base);
  }

  lemma PointerSum(b: u64, rva: nat, base: u64)
    ensures ((b + rva) % WORD_SPACE + Distance(base, b)) % WORD_SPACE == (base + rva) % WORD_SPACE
  {
  }

  lemma WordHeld(img: Bytes, t: nat, word: u64)
    requires TableFits(img) && t + 8 <= |img| && WordVisible(img, t) && img[t..t + 8] == ToBytes(word, 8)
    ensures HoldsWord(img, t, word)
  {
    hide TableFits, Visible, ToBytes;
  }

  // ---------------------------------------------------------------- a file as it was written

  // The header bytes survive the placing of the sections
  lemma PlacedStart(img: Bytes, file: Bytes, h: Headers)
    requires StartsWith(img, h) && SectionsLoadable(img, |file|) && AllFit(img, file, Sections(img))
    ensures StartsWith(PlaceAll(img, file, Sections(img)), h)
  {
    FieldsReadBack(img, h);
    LoadableSections(img, |file|);
    hide StartsWith, SectionsLoadable, Sections, PlaceAll, SameHeaderBytes, HeaderEnd, AllFit, ClearOfHeaders, Fits;
    PlacingKeepsHeaders(img, file, Sections(img));
    SamePrefix(img, PlaceAll(img, file, Sections(img)), h);
  }

  // The headers of the file stand in front of the image too, once the sections are placed
  lemma HeadersStay(file: Bytes, blank: Bytes, imageAddress: u64, h: Headers)
    requires Loadable(file, blank, imageAddress) && StartsWith(file, h)
    ensures StartsWith(WithHeaders(file, blank), h) && StartsWith(PlacedImage(file, blank, imageAddress), h)
  {
    hide Loadable, WithHeaders, PlacedImage, StartsWith, TableFits, Sections, PlaceAll, SizeOfHeaders, AllFit;
    hide SameHeaderBytes, SectionsLoadable, HeaderEnd, IsValidImage, ImageBase, NeedsRelocation, Relocatable;
    hide ClearOfHeaders;
    FieldsReadBack(file, h);
    StagesOk(file, blank, imageAddress);
    var img := WithHeaders(file, blank);
    CopyKeepsHeaders(file, blank);
    SamePrefix(file, img, h);
    PlacedStart(img, file, h);
  }

  lemma CopyKeepsHeaders(file: Bytes, blank: Bytes)
    requires HeadersCopyable(file, |blank|)
    ensures SameHeaderBytes(file, WithHeaders(file, blank))
  {
    CopiedStart(blank, file[..SizeOfHeaders(file)]);
  }

  lemma SamePrefix(b: Bytes, b': Bytes, h: Headers)
    requires StartsWith(b, h) && TableFits(b) && HeaderEnd(b) == |HeaderBytes(h)| && SameHeaderBytes(b, b')
    ensures StartsWith(b', h)
  {
    hide HeaderBytes, TableFits, HeaderEnd, WellFormed;
    assert b'[..|HeaderBytes(h)|] == b[..|HeaderBytes(h)|];
  }

  // Every section stays inside file and image, and clear of the headers
  predicate EntriesFit(h: Headers, imageSize: nat, fileSize: nat)
  {
    forall i :: 0 <= i < |h.sections| ==>
      var e := h.sections[i];
      && e.virtualAddress + e.virtualSize <= imageSize && e.virtualAddress + e.sizeOfRawData <= imageSize
      && (e.sizeOfRawData > 0 ==> e.pointerToRawData + e.sizeOfRawData <= fileSize)
      && (e.virtualSize > 0 || e.sizeOfRawData > 0 ==> |HeaderBytes(h)| <= e.virtualAddress)
  }

  /** Such a file is one that the loader can take: its headers are copied whole, and every section can be placed. */
  lemma WrittenPlaces(file: Bytes, blank: Bytes, h: Headers)
    requires StartsWith(file, h) && |HeaderBytes(h)| <= h.sizeOfHeaders <= |file| && h.sizeOfHeaders <= |blank|
    requires EntriesFit(h, |blank|, |file|)
    ensures HeadersCopyable(file, |blank|)
    ensures var img := WithHeaders(file, blank);
            && StartsWith(img, h) && SectionsLoadable(img, |file|) && AllFit(img, file, Sections(img))
  {
    hide StartsWith, EntriesFit, WithHeaders, SectionsLoadable, Sections, Fits, SameHeaderBytes, HeaderEnd;
    FieldsReadBack(file, h);
    CopyKeepsHeaders(file, blank);
    SamePrefix(file, WithHeaders(file, blank), h);
    SectionsOf(WithHeaders(file, blank), h, |file|);
    LoadableSections(WithHeaders(file, blank), |file|);
  }

  lemma SectionsOf(img: Bytes, h: Headers, fileSize: nat)
    requires StartsWith(img, h) && EntriesFit(h, |img|, fileSize)
    ensures SectionsLoadable(img, fileSize)
  {
    FieldsReadBack(img, h);
    hide StartsWith, HeaderBytes, Sections, HeaderEnd, SectionAt;
    forall i | 0 <= i < NumberOfSections(img)
      ensures Fits(SectionAt(img, i), |img|, fileSize)
      ensures Extent(SectionAt(img, i)) > 0 ==> SectionAt(img, i).virtualAddress >= HeaderEnd(img)
    {
      SectionReadBack(img, h, i);
    }
  }

  /** It is loadable at any address, if the directory, where one is needed, can be walked. */
  lemma WrittenIsLoadable(file: Bytes, blank: Bytes, imageAddress: u64, h: Headers, blocks: seq<Block>, placed: Bytes)
    requires StartsWith(file, h) && |HeaderBytes(h)| <= h.sizeOfHeaders <= |file| && h.sizeOfHeaders <= |blank|
    requires EntriesFit(h, |blank|, |file|) && HeadersCopyable(file, |blank|)
    requires var img := WithHeaders(file, blank);
             TableFits(img) && AllFit(img, file, Sections(img)) && placed == PlaceAll(img, file, Sections(img))
    requires imageAddress != h.imageBase && h.numberOfRvaAndSizes > 5 ==>
               TableFits(placed) && HoldsDirectory(placed, blocks) && KnownWords(blocks) && FixupsClear(placed, blocks)
    ensures Loadable(file, blank, imageAddress)
  {
    WrittenPlaces(file, blank, h);
    hide StartsWith, EntriesFit, WithHeaders, SectionsLoadable, Sections, SameHeaderBytes, HeaderEnd, PlaceAll, AllFit;
    hide HoldsDirectory, FixupsClear, Relocatable, KnownWords, HeadersCopyable, ImageBase, NumberOfRvaAndSizes;
    hide HeaderBytes, TableFits, HeadersFit;
    PlacedStart(WithHeaders(file, blank), file, h);
    FieldsReadBack(placed, h);
    if imageAddress != h.imageBase && h.numberOfRvaAndSizes > 5 {
      DirectoryRelocatable(placed, blocks);
    }
  }

  /** From the headers, the sections and the relocation directory as a linker writes them to the image in memory:
      before relocation every byte is what the section table says; and if the image does not lie at its preferred base,
      on whichever side of it, and has a relocation directory of known kinds, then every word named there is moved by
      the distance, and no other byte changes. */
  lemma WrittenFileLoads(file: Bytes, blank: Bytes, img: Bytes, status: LoadStatus, imageAddress: u64, h: Headers,
                         blocks: seq<Block>)
    requires Loadable(file, blank, imageAddress) && StartsWith(file, h)
    requires LoadedAs(PlacedImage(file, blank, imageAddress), img, status, imageAddress)
    ensures forall x: nat | x < |blank| ::
              PlacedImage(file, blank, imageAddress)[x] == TableByte(h.sections, WithHeaders(file, blank), file, x)
    ensures imageAddress == h.imageBase || h.numberOfRvaAndSizes <= 5 ==>
              status == Loaded && img == PlacedImage(file, blank, imageAddress)
    ensures var placed := PlacedImage(file, blank, imageAddress);
            imageAddress != h.imageBase && h.numberOfRvaAndSizes > 5
            && HoldsDirectory(placed, blocks) && KnownWords(blocks) && TableFits(placed) && FixupsClear(placed, blocks)
            && FixupsApart(blocks) ==>
              status == Loaded && MovedToAddress(placed, img, blocks, imageAddress, h.imageBase)
  {
    var placed := PlacedImage(file, blank, imageAddress);
    SectionsAsWritten(file, blank, imageAddress, h);
    HeadersStay(file, blank, imageAddress, h);
    hide Loadable, PlacedImage, WithHeaders, TableByte, StartsWith, MovedToAddress, HoldsDirectory, Relocatable;
    hide FixupsClear, FixupsApart, KnownWords, RelocatedAs, TableFits, HeadersFit;
    FieldsReadBack(placed, h);
    if imageAddress != h.imageBase && h.numberOfRvaAndSizes > 5
       && HoldsDirectory(placed, blocks) && KnownWords(blocks) && FixupsClear(placed, blocks) && FixupsApart(blocks) {
      DirectoryMoves(placed, img, status, imageAddress, blocks);
    }
  }

  lemma SectionsAsWritten(file: Bytes, blank: Bytes, imageAddress: u64, h: Headers)
    requires Loadable(file, blank, imageAddress) && StartsWith(file, h)
    ensures forall x: nat | x < |blank| ::
              PlacedImage(file, blank, imageAddress)[x] == TableByte(h.sections, WithHeaders(file, blank), file, x)
  {
    StagesOk(file, blank, imageAddress);
    HeadersStay(file, blank, imageAddress, h);
    hide Loadable, PlacedImage, WithHeaders, TableByte, StartsWith, Relocatable, TableFits, AllFit, Sections, PlaceAll;
    forall x: nat | x < |blank|
      ensures PlacedImage(file, blank, imageAddress)[x] == TableByte(h.sections, WithHeaders(file, blank), file, x)
    {
      PlacedAsWritten(WithHeaders(file, blank), file, h, x);
    }
  }
}
