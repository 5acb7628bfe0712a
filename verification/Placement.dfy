/**
  Placing a PE file's headers and sections in a memory image.
 */
module Placement {
  import opened Bits
  import opened ByteOrder
  import opened Pe
  import opened PeBytes

  datatype LoadStatus = Loaded | InvalidImage | GenericError

  // ---------------------------------------------------------------- copying and filling

  function Zeros(n: nat): (r: Bytes)
    ensures |r| == n && forall k :: 0 <= k < n ==> r[k] == 0
  {
    if n == 0 then [] else [0] + Zeros(n - 1)
  }

  method CopyMem(destination: array<u8>, at: nat, source: array<u8>, from: nat, length: nat)
    requires destination != source && at + length <= destination.Length && from + length <= source.Length
    modifies destination
    ensures destination[..] == CopyInto(old(destination[..]), at, source[from..from + length])
  {
    var i := 0;
    while i < length
      invariant 0 <= i <= length
      invariant forall x :: 0 <= x < destination.Length ==>
                  destination[x] == if at <= x < at + i then source[from + (x - at)] else old(destination[x])
    {
      destination[at + i] := source[from + i];
      i := i + 1;
    }
  }

  method SetMem(destination: array<u8>, at: nat, length: nat, value: u8)
    requires at + length <= destination.Length
    modifies destination
    ensures forall x :: 0 <= x < destination.Length ==>
              destination[x] == if at <= x < at + length then value else old(destination[x])
  {
    var i := 0;
    while i < length
      invariant 0 <= i <= length
      invariant forall x :: 0 <= x < destination.Length ==>
                  destination[x] == if at <= x < at + i then value else old(destination[x])
    {
      destination[at + i] := value;
      i := i + 1;
    }
  }

  // ---------------------------------------------------------------- what a section becomes

  // Bytes of the image that a section owns
  function Extent(s: Section): nat
  {
    if s.rawSize < s.virtualSize then s.virtualSize else s.rawSize
  }

  predicate Owns(s: Section, x: nat)
  {
    s.virtualAddress <= x < s.virtualAddress + Extent(s)
  }

  predicate Fits(s: Section, imageSize: nat, fileSize: nat)
  {
    s.virtualAddress + Extent(s) <= imageSize && (s.rawSize > 0 ==> s.rawOffset + s.rawSize <= fileSize)
  }

  // The byte that a section puts at an address it owns: file contents first, then zeros
  function SectionByte(file: Bytes, s: Section, x: nat): u8
    requires Owns(s, x) && (s.rawSize > 0 ==> s.rawOffset + s.rawSize <= |file|)
  {
    if x < s.virtualAddress + s.rawSize then file[s.rawOffset + (x - s.virtualAddress)] else 0
  }

  ghost predicate AllFit(img: Bytes, file: Bytes, sections: seq<Section>)
  {
    forall i :: 0 <= i < |sections| ==> Fits(sections[i], |img|, |file|)
  }

  // The image after the sections were placed in order
  ghost function PlaceAll(img: Bytes, file: Bytes, sections: seq<Section>): (r: Bytes)
    requires AllFit(img, file, sections)
    ensures |r| == |img|
  {
    if sections == [] then img
    else PlaceOne(PlaceAll(img, file, sections[..|sections| - 1]), file, sections[|sections| - 1])
  }

  function PlaceOne(img: Bytes, file: Bytes, s: Section): (r: Bytes)
    requires Fits(s, |img|, |file|)
    ensures |r| == |img|
    ensures forall x :: 0 <= x < |img| ==> r[x] == if Owns(s, x) then SectionByte(file, s, x) else img[x]
  {
    var copied := if s.rawSize > 0 then CopyInto(img, s.virtualAddress, file[s.rawOffset..s.rawOffset + s.rawSize])
      else img;
    if s.virtualSize > s.rawSize then CopyInto(copied, s.virtualAddress + s.rawSize, Zeros(s.virtualSize - s.rawSize))
      else copied
  }

  /** A byte that no section owns is unchanged ... */
  lemma {:induction false} UnownedStays(img: Bytes, file: Bytes, sections: seq<Section>, x: nat)
    requires AllFit(img, file, sections) && x < |img|
    requires forall i :: 0 <= i < |sections| ==> !Owns(sections[i], x)
    ensures PlaceAll(img, file, sections)[x] == img[x]
  {
    if sections != [] {
      UnownedStays(img, file, sections[..|sections| - 1], x);
    }
  }

  /** ... and one that sections own, overlapping or not, comes from the last of them. */
  lemma {:induction false} LastOwnerWins(img: Bytes, file: Bytes, sections: seq<Section>, i: nat, x: nat)
    requires AllFit(img, file, sections) && x < |img|
    requires i < |sections| && Owns(sections[i], x)
    requires forall j :: i < j < |sections| ==> !Owns(sections[j], x)
    ensures PlaceAll(img, file, sections)[x] == SectionByte(file, sections[i], x)
  {
    var n := |sections| - 1;
    if i < n {
      LastOwnerWins(img, file, sections[..n], i, x);
    }
  }

  ghost predicate PairwiseDisjoint(sections: seq<Section>)
  {
    forall i, j, x: nat :: 0 <= i < |sections| && 0 <= j < |sections| && i != j && Owns(sections[i], x) ==>
        !Owns(sections[j], x)
  }

  /** With disjoint extents, every section holds its file bytes followed by zeros, and every byte that
      belongs to no section is as before, for any number of sections. */
  lemma {:induction false} EverySectionPlaced(img: Bytes, file: Bytes, sections: seq<Section>)
    requires AllFit(img, file, sections)
    requires PairwiseDisjoint(sections)
    ensures forall i, x: nat :: 0 <= i < |sections| && x < |img| && Owns(sections[i], x) ==>
              PlaceAll(img, file, sections)[x] == SectionByte(file, sections[i], x)
    ensures forall x: nat :: x < |img| && (forall i :: 0 <= i < |sections| ==> !Owns(sections[i], x)) ==>
              PlaceAll(img, file, sections)[x] == img[x]
  {
    forall i, x: nat | 0 <= i < |sections| && x < |img| && Owns(sections[i], x)
      ensures PlaceAll(img, file, sections)[x] == SectionByte(file, sections[i], x)
    {
      LastOwnerWins(img, file, sections, i, x);
    }
    forall x: nat | x < |img| && (forall i :: 0 <= i < |sections| ==> !Owns(sections[i], x))
      ensures PlaceAll(img, file, sections)[x] == img[x]
    {
      UnownedStays(img, file, sections, x);
    }
  }

  // ---------------------------------------------------------------- in terms of the section table

  // The section reaches the offset with its raw data or with its virtual size
  predicate Reaches(e: SectionEntry, x: nat)
  {
    e.virtualAddress <= x && (x < e.virtualAddress + e.sizeOfRawData || x < e.virtualAddress + e.virtualSize)
  }

  // The byte at an offset, according to a section table: the last section that reaches the offset decides, with the
  // byte of its raw data, and with zero behind these
  function TableByte(entries: seq<SectionEntry>, before: Bytes, file: Bytes, x: nat): u8
    requires x < |before|
  {
    if entries == [] then before[x]
    else
      var e := entries[|entries| - 1];
      var offset := x - e.virtualAddress;
      if !Reaches(e, x) then TableByte(entries[..|entries| - 1], before, file, x)
      else if offset < e.sizeOfRawData && e.pointerToRawData + offset < |file| then file[e.pointerToRawData + offset]
      else 0
  }

  lemma {:induction false} PlacedByTable(before: Bytes, file: Bytes, sections: seq<Section>, entries: seq<SectionEntry>,
                                         x: nat)
    requires AllFit(before, file, sections) && x < |before| && |sections| == |entries|
    requires forall i :: 0 <= i < |entries| ==> Describes(sections[i], entries[i])
    ensures PlaceAll(before, file, sections)[x] == TableByte(entries, before, file, x)
  {
    hide PlaceAll, PlaceOne, Describes, Fits, TableByte;
    if entries == [] {
      NothingPlaced(before, file, sections, entries, x);
    } else {
      var n := |entries| - 1;
      assert Describes(sections[n], entries[n]) && Fits(sections[n], |before|, |file|);
      PlacedByTable(before, file, sections[..n], entries[..n], x);
      LastPlaced(before, file, sections, entries, x);
    }
  }

  lemma NothingPlaced(before: Bytes, file: Bytes, sections: seq<Section>, entries: seq<SectionEntry>, x: nat)
    requires AllFit(before, file, sections) && x < |before| && sections == [] && entries == []
    ensures PlaceAll(before, file, sections)[x] == TableByte(entries, before, file, x)
  {
  }

  lemma LastPlaced(before: Bytes, file: Bytes, sections: seq<Section>, entries: seq<SectionEntry>, x: nat)
    requires AllFit(before, file, sections) && x < |before| && |sections| == |entries| > 0
    requires var n := |sections| - 1;
             && Describes(sections[n], entries[n]) && Fits(sections[n], |before|, |file|)
             && AllFit(before, file, sections[..n])
             && PlaceAll(before, file, sections[..n])[x] == TableByte(entries[..n], before, file, x)
    ensures PlaceAll(before, file, sections)[x] == TableByte(entries, before, file, x)
  {
    var n := |sections| - 1;
    hide AllFit, Describes, Fits, PlaceOne, Owns, SectionByte, Extent;
    ByteOfSection(PlaceAll(before, file, sections[..n]), file, sections[n], entries[n], x);
  }

  // What one section, as its entry describes it, makes of a byte
  lemma ByteOfSection(img: Bytes, file: Bytes, s: Section, e: SectionEntry, x: nat)
    requires Fits(s, |img|, |file|) && Describes(s, e) && x < |img|
    ensures PlaceOne(img, file, s)[x]
            == if !Reaches(e, x) then img[x]
               else if x - e.virtualAddress < e.sizeOfRawData && e.pointerToRawData + (x - e.virtualAddress) < |file|
               then file[e.pointerToRawData + (x - e.virtualAddress)] else 0
  {
    hide PlaceOne;
    assert Owns(s, x) <==> Reaches(e, x);
  }

  /** Placing the sections of an image puts at every offset what its section table, as it was written, says. */
  lemma PlacedAsWritten(before: Bytes, file: Bytes, h: Headers, x: nat)
    requires StartsWith(before, h) && TableFits(before) && AllFit(before, file, Sections(before)) && x < |before|
    ensures PlaceAll(before, file, Sections(before))[x] == TableByte(h.sections, before, file, x)
  {
    SectionsReadBack(before, h);
    hide StartsWith, Sections, TableFits, PlaceAll, AllFit;
    PlacedByTable(before, file, Sections(before), h.sections, x);
  }

  // ---------------------------------------------------------------- the loop

  // What BlLdrAlignFileImage relies on: a section table inside the image, and sections that stay inside
  // file and image and do not run over the headers the loop is reading
  ghost predicate SectionsLoadable(img: Bytes, fileSize: nat)
  {
    && TableFits(img)
    && forall i :: 0 <= i < NumberOfSections(img) ==>
         Fits(SectionAt(img, i), |img|, fileSize)
           && (Extent(SectionAt(img, i)) > 0 ==> SectionAt(img, i).virtualAddress >= HeaderEnd(img))
  }

  lemma {:induction false} PlacingKeepsHeaders(img: Bytes, file: Bytes, sections: seq<Section>)
    requires AllFit(img, file, sections)
    requires TableFits(img)
    requires ClearOfHeaders(img, sections)
    ensures SameHeaderBytes(img, PlaceAll(img, file, sections))
  {
    if sections != [] {
      PlacingKeepsHeaders(img, file, sections[..|sections| - 1]);
    }
  }

  // One round of the loop: raw data first, then the zero fill up to the virtual size
  method PlaceSection(file: array<u8>, image: array<u8>, section: Section)
    requires file != image && Fits(section, image.Length, file.Length)
    modifies image
    ensures image[..] == PlaceOne(old(image[..]), file[..], section)
  {
    ghost var current := image[..];
    if section.rawSize > 0 {
      CopyMem(image, section.virtualAddress, file, section.rawOffset, section.rawSize);
    }
    if section.virtualSize > section.rawSize {
      SetMem(image, section.virtualAddress + section.rawSize, section.virtualSize - section.rawSize, 0);
    }
    PlacedInPlace(current, image[..], file[..], section);
  }

  lemma SomeFit(img: Bytes, file: Bytes, sections: seq<Section>, i: nat)
    requires TableFits(img) && AllFit(img, file, sections) && ClearOfHeaders(img, sections) && i <= |sections|
    ensures AllFit(img, file, sections[..i]) && ClearOfHeaders(img, sections[..i])
  {
    hide Fits, TableFits;
  }

  lemma PlacingStep(before: Bytes, file: Bytes, i: nat)
    requires SectionsLoadable(before, |file|) && i < NumberOfSections(before)
    ensures AllFit(before, file, Sections(before)[..i]) && AllFit(before, file, Sections(before)[..i + 1])
    ensures PlaceAll(before, file, Sections(before)[..i + 1])
            == PlaceOne(PlaceAll(before, file, Sections(before)[..i]), file, Sections(before)[i])
    ensures HeadersKept(before, PlaceAll(before, file, Sections(before)[..i + 1]))
  {
    LoadableSections(before, |file|);
    SomeFit(before, file, Sections(before), i);
    SomeFit(before, file, Sections(before), i + 1);
    hide SectionsLoadable, Sections, Fits, AllFit, ClearOfHeaders, SameHeaderBytes, PlaceOne;
    var sections := Sections(before);
    assert sections[..i + 1][..i] == sections[..i];
    PlacingKeepsHeaders(before, file, sections[..i + 1]);
    HeadersSame(before, PlaceAll(before, file, sections[..i + 1]));
  }

  ghost predicate ClearOfHeaders(img: Bytes, sections: seq<Section>)
    requires TableFits(img)
  {
    forall i :: 0 <= i < |sections| ==> Extent(sections[i]) > 0 ==> sections[i].virtualAddress >= HeaderEnd(img)
  }

  lemma LoadableSections(img: Bytes, fileSize: nat)
    requires SectionsLoadable(img, fileSize)
    ensures ClearOfHeaders(img, Sections(img))
    ensures forall i :: 0 <= i < NumberOfSections(img) ==> Fits(Sections(img)[i], |img|, fileSize)
  {
    forall i | 0 <= i < NumberOfSections(img)
      ensures Sections(img)[i] == SectionAt(img, i)
    {
    }
  }

  ghost predicate HeadersKept(img: Bytes, img': Bytes)
    requires TableFits(img)
  {
    TableFits(img') && Sections(img') == Sections(img)
  }

  lemma ReadSection(img: Bytes, i: nat, img0: Bytes, fileSize: nat)
    requires SectionsLoadable(img0, fileSize) && HeadersKept(img0, img) && i < NumberOfSections(img) && |img| == |img0|
    ensures NumberOfSections(img) == NumberOfSections(img0)
    ensures SectionAt(img, i) == Sections(img0)[i] && Fits(SectionAt(img, i), |img|, fileSize)
  {
    assert Sections(img)[i] == SectionAt(img, i);
    assert Sections(img0)[i] == SectionAt(img0, i);
  }

  lemma PlacingStart(before: Bytes, file: Bytes)
    requires SectionsLoadable(before, |file|)
    ensures PlaceAll(before, file, Sections(before)[..0]) == before && HeadersKept(before, before)
    ensures Sections(before)[..NumberOfSections(before)] == Sections(before) && AllFit(before, file, Sections(before))
  {
    LoadableSections(before, |file|);
  }

  // BlLdrAlignFileImage. The headers are read from the image in every round.
  method AlignFileImage(file: array<u8>, image: array<u8>) returns (status: LoadStatus)
    requires file != image && HeadersFit(image[..])
    requires IsValidImage(image[..]) ==> SectionsLoadable(image[..], file.Length)
    modifies image
    ensures status == if old(IsValidImage(image[..])) then Loaded else InvalidImage
    ensures status != Loaded ==> image[..] == old(image[..])
    ensures status == Loaded ==> AllFit(old(image[..]), file[..], old(Sections(image[..])))
                                 && image[..] == PlaceAll(old(image[..]), file[..], old(Sections(image[..])))
    // for headers that were written field by field
    ensures forall h: Headers :: StartsWith(old(image[..]), h) ==> AlignedAsWritten(h, old(image[..]), file[..],
                                                                                    image[..], status)
  {
    hide SectionsLoadable, PlaceAll, PlaceOne, Fits, IsValidImage, Sections, SectionAt, NumberOfSections, HeadersFit;
    hide StartsWith, AlignedAsWritten;
    ghost var before := image[..];
    if !IsValidImage(image[..]) {
      forall h: Headers | StartsWith(before, h)
        ensures AlignedAsWritten(h, before, file[..], before, InvalidImage)
      {
        RefusedAsWritten(h, before, file[..]);
      }
      return InvalidImage;
    }
    TableIsInside(before, file.Length);
    PlacingStart(before, file[..]);
    var i := 0;
    while i < NumberOfSections(image[..])
      invariant |image[..]| == |before| && HeadersKept(before, image[..])
      invariant 0 <= i <= NumberOfSections(before) && AllFit(before, file[..], Sections(before)[..i])
      invariant image[..] == PlaceAll(before, file[..], Sections(before)[..i])
    {
      ReadSection(image[..], i, before, file.Length);
      PlacingStep(before, file[..], i);
      PlaceSection(file, image, SectionAt(image[..], i));
      i := i + 1;
    }
    SameCount(before, image[..]);
    status := Loaded;
    forall h: Headers | StartsWith(before, h)
      ensures AlignedAsWritten(h, before, file[..], image[..], status)
    {
      ValidAndPlaced(h, before, file[..], image[..]);
    }
  }

  // The image is taken exactly if its signatures are right, and then holds what its section table says
  ghost predicate AlignedAsWritten(h: Headers, before: Bytes, file: Bytes, after: Bytes, status: LoadStatus)
  {
    && |after| == |before|
    && (status == Loaded <==> h.magic == [0x4D, 0x5A] && h.signature == [0x50, 0x45, 0, 0]
                              && (h.machine == 0x8664 || h.optionalMagic == 0x20B))
    && forall x :: 0 <= x < |before| ==>
         after[x] == if status == Loaded then TableByte(h.sections, before, file, x) else before[x]
  }

  lemma ValidAndPlaced(h: Headers, before: Bytes, file: Bytes, after: Bytes)
    requires StartsWith(before, h) && TableFits(before) && IsValidImage(before)
    requires AllFit(before, file, Sections(before)) && after == PlaceAll(before, file, Sections(before))
    ensures AlignedAsWritten(h, before, file, after, Loaded)
  {
    ValidExactlyWhen(before, h);
    hide StartsWith, Sections, TableFits, PlaceAll, AllFit, IsValidImage, TableByte;
    forall x | 0 <= x < |before|
      ensures after[x] == TableByte(h.sections, before, file, x)
    {
      PlacedAsWritten(before, file, h, x);
    }
  }

  lemma RefusedAsWritten(h: Headers, before: Bytes, file: Bytes)
    requires StartsWith(before, h) && HeadersFit(before) && !IsValidImage(before)
    ensures AlignedAsWritten(h, before, file, before, InvalidImage)
  {
    ValidExactlyWhen(before, h);
    hide StartsWith, IsValidImage, TableByte;
  }

  lemma TableIsInside(img: Bytes, fileSize: nat)
    requires SectionsLoadable(img, fileSize)
    ensures TableFits(img)
  {
  }

  lemma SameCount(img: Bytes, img': Bytes)
    requires TableFits(img) && HeadersKept(img, img')
    ensures NumberOfSections(img') == NumberOfSections(img)
  {
  }

  lemma PlacedInPlace(b: Bytes, b': Bytes, file: Bytes, s: Section)
    requires Fits(s, |b|, |file|) && |b'| == |b|
    requires forall x :: 0 <= x < |b| ==> b'[x] == if Owns(s, x) then SectionByte(file, s, x) else b[x]
    ensures b' == PlaceOne(b, file, s)
  {
  }

  // The header copy of BlLdrAllocatePEImagePages
  method CopyHeaders(file: array<u8>, image: array<u8>)
    requires file != image && HeadersFit(file[..])
    requires SizeOfHeaders(file[..]) <= file.Length && SizeOfHeaders(file[..]) <= image.Length
    modifies image
    ensures image[..] == CopyInto(old(image[..]), 0, file[..SizeOfHeaders(file[..])])
  {
    CopyMem(image, 0, file, 0, SizeOfHeaders(file[..]));
    assert file[0..SizeOfHeaders(file[..])] == file[..][..SizeOfHeaders(file[..])];
  }
}
