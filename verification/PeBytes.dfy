/**
  A PE32+ file's headers written field by field, in the order and with the widths of the Microsoft PE Format
  specification, and the proof that the loader finds every field where it was written.
 */
module PeBytes {
  import opened Bits
  import opened ByteOrder
  import opened Pe

  // A section header: twelve bytes between the raw data and the characteristics are of no use to the loader
  datatype SectionEntry = SectionEntry(name: Bytes, virtualSize: u32, virtualAddress: u32, sizeOfRawData: u32,
                                       pointerToRawData: u32, other: Bytes, characteristics: u32)

  // The headers of a file, with the bytes between the fields that the loader reads
  datatype Headers = Headers(
    magic: Bytes, dosFields: Bytes, dosStub: Bytes,
    signature: Bytes, machine: nat, coffFields: Bytes, coffFlags: Bytes,
    optionalMagic: nat, codeFields: Bytes, imageBase: u64, versionFields: Bytes,
    sizeOfHeaders: u32, stackFields: Bytes, numberOfRvaAndSizes: u32,
    firstDirectories: Bytes, relocationAddress: u32, relocationSize: u32, otherDirectories: Bytes,
    sections: seq<SectionEntry>)

  predicate EntryFormed(e: SectionEntry)
  {
    |e.name| == 8 && |e.other| == 12
  }

  // Every part has its width, and the counts fit their fields
  predicate WellFormed(h: Headers)
  {
    && |h.magic| == 2 && |h.dosFields| == 58 && 64 + |h.dosStub| < 0x1_0000_0000
    && |h.signature| == 4 && h.machine < 0x1_0000 && |h.coffFields| == 12 && |h.coffFlags| == 2
    && h.optionalMagic < 0x1_0000 && |h.codeFields| == 22 && |h.versionFields| == 28
    && |h.stackFields| == 44 && |h.firstDirectories| == 40
    && 160 + |h.otherDirectories| < 0x1_0000 && |h.sections| < 0x1_0000
    && forall i :: 0 <= i < |h.sections| ==> EntryFormed(h.sections[i])
  }

  // ---------------------------------------------------------------- the bytes

  function DosBytes(h: Headers): Bytes
  {
    h.magic + (h.dosFields + ToBytes(64 + |h.dosStub|, 4))
  }

  function CoffBytes(h: Headers): Bytes
  {
    h.signature + (ToBytes(h.machine, 2) + (ToBytes(|h.sections|, 2)
      + (h.coffFields + (ToBytes(160 + |h.otherDirectories|, 2) + h.coffFlags))))
  }

  function OptionalBytes(h: Headers): Bytes
  {
    ToBytes(h.optionalMagic, 2) + (h.codeFields + (ToBytes(h.imageBase, 8) + h.versionFields))
  }

  function DirectoriesBytes(h: Headers): Bytes
  {
    ToBytes(h.sizeOfHeaders, 4) + (h.stackFields + (ToBytes(h.numberOfRvaAndSizes, 4)
      + (h.firstDirectories + (ToBytes(h.relocationAddress, 4) + ToBytes(h.relocationSize, 4)))))
  }

  function EntryBytes(e: SectionEntry): Bytes
  {
    e.name + (ToBytes(e.virtualSize, 4) + (ToBytes(e.virtualAddress, 4) + (ToBytes(e.sizeOfRawData, 4)
      + (ToBytes(e.pointerToRawData, 4) + (e.other + ToBytes(e.characteristics, 4))))))
  }

  function TableBytes(sections: seq<SectionEntry>): Bytes
  {
    if sections == [] then [] else EntryBytes(sections[0]) + TableBytes(sections[1..])
  }

  function HeaderBytes(h: Headers): Bytes
  {
    DosBytes(h) + (h.dosStub + (CoffBytes(h) + (OptionalBytes(h) + (DirectoriesBytes(h)
      + (h.otherDirectories + TableBytes(h.sections))))))
  }

  // The buffer starts with these headers
  predicate StartsWith(b: Bytes, h: Headers)
  {
    WellFormed(h) && HeaderBytes(h) <= b
  }

  lemma {:induction false} TableLength(sections: seq<SectionEntry>)
    requires forall i :: 0 <= i < |sections| ==> EntryFormed(sections[i])
    ensures |TableBytes(sections)| == 40 * |sections|
  {
    if sections != [] {
      TableLength(sections[1..]);
    }
  }

  lemma HeaderLength(h: Headers)
    requires WellFormed(h)
    ensures |HeaderBytes(h)| == 64 + |h.dosStub| + 184 + |h.otherDirectories| + 40 * |h.sections|
  {
    TableLength(h.sections);
    hide ToBytes, TableBytes;
  }

  // ---------------------------------------------------------------- where the parts stand

  // The part of the buffer from the given offset on
  predicate PartAt(b: Bytes, at: nat, part: Bytes)
  {
    at + |part| <= |b| && b[at..at + |part|] == part
  }

  lemma SplitPart(b: Bytes, at: nat, part: Bytes, rest: Bytes)
    requires PartAt(b, at, part + rest)
    ensures PartAt(b, at, part) && PartAt(b, at + |part|, rest)
  {
    NextPart(b, at, part, rest);
  }

  // The parts of the headers, from the offset of the PE signature on
  lemma HeaderParts(b: Bytes, h: Headers)
    requires StartsWith(b, h)
    ensures var nt := 64 + |h.dosStub|;
            && PartAt(b, 0, DosBytes(h)) && PartAt(b, nt, CoffBytes(h)) && PartAt(b, nt + 24, OptionalBytes(h))
            && PartAt(b, nt + 84, DirectoriesBytes(h))
              && PartAt(b, nt + 184 + |h.otherDirectories|, TableBytes(h.sections))
  {
    PartLengths(h);
    assert PartAt(b, 0, HeaderBytes(h));
    hide DosBytes, CoffBytes, OptionalBytes, DirectoriesBytes, TableBytes, PartAt, WellFormed;
    SplitHeaders(b, DosBytes(h), h.dosStub, CoffBytes(h), OptionalBytes(h), DirectoriesBytes(h), h.otherDirectories,
                 TableBytes(h.sections));
  }

  // Seven parts one behind the other
  lemma SplitHeaders(b: Bytes, dos: Bytes, stub: Bytes, coff: Bytes, optional: Bytes, directories: Bytes, others: Bytes,
                     table: Bytes)
    requires PartAt(b, 0, dos + (stub + (coff + (optional + (directories + (others + table))))))
    ensures PartAt(b, 0, dos) && PartAt(b, |dos| + |stub|, coff) && PartAt(b, |dos| + |stub| + |coff|, optional)
    ensures PartAt(b, |dos| + |stub| + |coff| + |optional|, directories)
    ensures PartAt(b, |dos| + |stub| + |coff| + |optional| + |directories| + |others|, table)
  {
    hide PartAt;
    var rest := directories + (others + table);
    var at := |dos| + |stub|;
    SplitPart(b, 0, dos, stub + (coff + (optional + rest)));
    SplitPart(b, |dos|, stub, coff + (optional + rest));
    SplitPart(b, at, coff, optional + rest);
    SplitPart(b, at + |coff|, optional, rest);
    SplitPart(b, at + |coff| + |optional|, directories, others + table);
    SplitPart(b, at + |coff| + |optional| + |directories|, others, table);
  }

  lemma PartLengths(h: Headers)
    requires WellFormed(h)
    ensures |DosBytes(h)| == 64 && |CoffBytes(h)| == 24 && |OptionalBytes(h)| == 60 && |DirectoriesBytes(h)| == 100
  {
    hide ToBytes;
  }

  // A number that was written is read back
  lemma NumberAt(b: Bytes, at: nat, x: nat, n: nat)
    requires PartAt(b, at, ToBytes(x, n)) && x < Power256(n)
    ensures LE(b, at, n) == x
  {
    hide ToBytes, LE, Power256;
    ReadPart(b, at, x, n);
  }

  lemma ReadsDos(b: Bytes, h: Headers)
    requires WellFormed(h) && PartAt(b, 0, DosBytes(h))
    ensures |b| >= 64 && NtOffset(b) == 64 + |h.dosStub| && b[0..2] == h.magic
  {
    hide ToBytes, LE, Power256;
    Power256s();
    SplitPart(b, 0, h.magic, h.dosFields + ToBytes(64 + |h.dosStub|, 4));
    SplitPart(b, 2, h.dosFields, ToBytes(64 + |h.dosStub|, 4));
    NumberAt(b, 60, 64 + |h.dosStub|, 4);
  }

  lemma ReadsCoff(b: Bytes, h: Headers, nt: nat)
    requires WellFormed(h) && PartAt(b, nt, CoffBytes(h))
    ensures nt + 24 <= |b| && b[nt..nt + 4] == h.signature && U16(b, nt + 4) == h.machine
    ensures U16(b, nt + 6) == |h.sections| && U16(b, nt + 20) == 160 + |h.otherDirectories|
  {
    hide ToBytes, LE, Power256, PartAt;
    Power256s();
    var size := ToBytes(160 + |h.otherDirectories|, 2);
    SplitPart(b, nt, h.signature,
              ToBytes(h.machine, 2) + (ToBytes(|h.sections|, 2) + (h.coffFields + (size + h.coffFlags))));
    SplitPart(b, nt + 4, ToBytes(h.machine, 2), ToBytes(|h.sections|, 2) + (h.coffFields + (size + h.coffFlags)));
    SplitPart(b, nt + 6, ToBytes(|h.sections|, 2), h.coffFields + (size + h.coffFlags));
    SplitPart(b, nt + 8, h.coffFields, size + h.coffFlags);
    SplitPart(b, nt + 20, size, h.coffFlags);
    NumberAt(b, nt + 4, h.machine, 2);
    NumberAt(b, nt + 6, |h.sections|, 2);
    NumberAt(b, nt + 20, 160 + |h.otherDirectories|, 2);
    Inside(b, nt, h.signature);
    Inside(b, nt + 22, h.coffFlags);
  }

  lemma Inside(b: Bytes, at: nat, part: Bytes)
    requires PartAt(b, at, part)
    ensures at + |part| <= |b| && b[at..at + |part|] == part
  {
  }

  lemma ReadsOptional(b: Bytes, h: Headers, at: nat)
    requires WellFormed(h) && PartAt(b, at, OptionalBytes(h))
    ensures at + 60 <= |b| && U16(b, at) == h.optionalMagic && U64(b, at + 24) == h.imageBase
  {
    hide ToBytes, LE, Power256, PartAt;
    Power256s();
    var base := ToBytes(h.imageBase, 8);
    SplitPart(b, at, ToBytes(h.optionalMagic, 2), h.codeFields + (base + h.versionFields));
    SplitPart(b, at + 2, h.codeFields, base + h.versionFields);
    SplitPart(b, at + 24, base, h.versionFields);
    NumberAt(b, at, h.optionalMagic, 2);
    NumberAt(b, at + 24, h.imageBase, 8);
    Inside(b, at + 32, h.versionFields);
  }

  lemma ReadsDirectories(b: Bytes, h: Headers, at: nat)
    requires WellFormed(h) && PartAt(b, at, DirectoriesBytes(h))
    ensures at + 100 <= |b| && U32(b, at) == h.sizeOfHeaders && U32(b, at + 48) == h.numberOfRvaAndSizes
    ensures U32(b, at + 92) == h.relocationAddress && U32(b, at + 96) == h.relocationSize
  {
    hide ToBytes, LE, Power256, PartAt;
    Power256s();
    var count := ToBytes(h.numberOfRvaAndSizes, 4);
    var last := ToBytes(h.relocationAddress, 4) + ToBytes(h.relocationSize, 4);
    SplitPart(b, at, ToBytes(h.sizeOfHeaders, 4), h.stackFields + (count + (h.firstDirectories + last)));
    SplitPart(b, at + 4, h.stackFields, count + (h.firstDirectories + last));
    SplitPart(b, at + 48, count, h.firstDirectories + last);
    SplitPart(b, at + 52, h.firstDirectories, last);
    SplitPart(b, at + 92, ToBytes(h.relocationAddress, 4), ToBytes(h.relocationSize, 4));
    Inside(b, at + 96, ToBytes(h.relocationSize, 4));
    NumberAt(b, at, h.sizeOfHeaders, 4);
    NumberAt(b, at + 48, h.numberOfRvaAndSizes, 4);
    NumberAt(b, at + 92, h.relocationAddress, 4);
    NumberAt(b, at + 96, h.relocationSize, 4);
  }

  // ---------------------------------------------------------------- the section table

  lemma {:induction false} EntryAt(b: Bytes, at: nat, sections: seq<SectionEntry>, i: nat)
    requires forall k :: 0 <= k < |sections| ==> EntryFormed(sections[k])
    requires PartAt(b, at, TableBytes(sections)) && i < |sections|
    ensures PartAt(b, at + 40 * i, EntryBytes(sections[i]))
    decreases |sections|
  {
    EntryLength(sections[0]);
    hide EntryBytes, PartAt;
    SplitPart(b, at, EntryBytes(sections[0]), TableBytes(sections[1..]));
    if i > 0 {
      EntryAt(b, at + 40, sections[1..], i - 1);
    }
  }

  lemma EntryLength(e: SectionEntry)
    requires EntryFormed(e)
    ensures |EntryBytes(e)| == 40
  {
    hide ToBytes;
  }

  lemma ReadsEntry(b: Bytes, at: nat, e: SectionEntry)
    requires EntryFormed(e) && PartAt(b, at, EntryBytes(e))
    ensures at + 40 <= |b|
    ensures U32(b, at + 8) == e.virtualSize && U32(b, at + 12) == e.virtualAddress
    ensures U32(b, at + 16) == e.sizeOfRawData && U32(b, at + 20) == e.pointerToRawData
    ensures U32(b, at + 36) == e.characteristics
  {
    hide ToBytes, LE, Power256, PartAt;
    Power256s();
    var flags := e.other + ToBytes(e.characteristics, 4);
    var raw := ToBytes(e.sizeOfRawData, 4) + (ToBytes(e.pointerToRawData, 4) + flags);
    SplitPart(b, at, e.name, ToBytes(e.virtualSize, 4) + (ToBytes(e.virtualAddress, 4) + raw));
    SplitPart(b, at + 8, ToBytes(e.virtualSize, 4), ToBytes(e.virtualAddress, 4) + raw);
    SplitPart(b, at + 12, ToBytes(e.virtualAddress, 4), raw);
    SplitPart(b, at + 16, ToBytes(e.sizeOfRawData, 4), ToBytes(e.pointerToRawData, 4) + flags);
    SplitPart(b, at + 20, ToBytes(e.pointerToRawData, 4), flags);
    SplitPart(b, at + 24, e.other, ToBytes(e.characteristics, 4));
    Inside(b, at + 36, ToBytes(e.characteristics, 4));
    NumberAt(b, at + 8, e.virtualSize, 4);
    NumberAt(b, at + 12, e.virtualAddress, 4);
    NumberAt(b, at + 16, e.sizeOfRawData, 4);
    NumberAt(b, at + 20, e.pointerToRawData, 4);
    NumberAt(b, at + 36, e.characteristics, 4);
  }

  // ---------------------------------------------------------------- the round trip

  // What the loader reads of a section header is what was written
  predicate Describes(s: Section, e: SectionEntry)
  {
    && s.virtualAddress == e.virtualAddress && s.virtualSize == e.virtualSize
    && s.rawSize == e.sizeOfRawData && s.rawOffset == e.pointerToRawData && s.characteristics == e.characteristics
  }

  /** Every field reads back as it was written, whatever stands between the fields and behind the headers. */
  lemma FieldsReadBack(b: Bytes, h: Headers)
    requires StartsWith(b, h)
    ensures HeadersFit(b) && NtOffset(b) == 64 + |h.dosStub|
    ensures NumberOfSections(b) == |h.sections| && SizeOfOptionalHeader(b) == 160 + |h.otherDirectories|
    ensures ImageBase(b) == h.imageBase && SizeOfHeaders(b) == h.sizeOfHeaders
    ensures NumberOfRvaAndSizes(b) == h.numberOfRvaAndSizes
    ensures RelocationAddress(b) == h.relocationAddress && RelocationSize(b) == h.relocationSize
    ensures TableFits(b) && HeaderEnd(b) == |HeaderBytes(h)|
  {
    HeaderLength(h);
    HeaderParts(b, h);
    hide LE, HeaderBytes, PartAt, DosBytes, CoffBytes, OptionalBytes, DirectoriesBytes, TableBytes;
    var nt := 64 + |h.dosStub|;
    ReadsDos(b, h);
    ReadsCoff(b, h, nt);
    ReadsOptional(b, h, nt + 24);
    ReadsDirectories(b, h, nt + 84);
  }

  lemma SectionReadBack(b: Bytes, h: Headers, i: nat)
    requires StartsWith(b, h) && i < |h.sections|
    ensures TableFits(b) && i < NumberOfSections(b) && Describes(SectionAt(b, i), h.sections[i])
  {
    hide LE, PartAt, DosBytes, CoffBytes, OptionalBytes, DirectoriesBytes, TableBytes, EntryBytes, HeaderBytes;
    FieldsReadBack(b, h);
    HeaderParts(b, h);
    var table := 64 + |h.dosStub| + 184 + |h.otherDirectories|;
    EntryAt(b, table, h.sections, i);
    ReadsEntry(b, table + 40 * i, h.sections[i]);
  }

  /** The section table reads back, entry by entry. */
  lemma SectionsReadBack(b: Bytes, h: Headers)
    requires StartsWith(b, h)
    ensures TableFits(b) && |Sections(b)| == |h.sections|
    ensures forall i :: 0 <= i < |h.sections| ==> Describes(Sections(b)[i], h.sections[i])
  {
    FieldsReadBack(b, h);
    hide StartsWith, SectionAt, Describes, HeaderBytes, TableFits, NumberOfSections;
    forall i | 0 <= i < |h.sections|
      ensures Describes(Sections(b)[i], h.sections[i])
    {
      SectionReadBack(b, h, i);
    }
  }

  /** The image is valid exactly if it starts with "MZ", has the signature "PE", and names the x64 machine or the
      PE32+ format; the code does not ask for both. */
  lemma ValidExactlyWhen(b: Bytes, h: Headers)
    requires StartsWith(b, h)
    ensures HeadersFit(b)
    ensures IsValidImage(b) <==> && h.magic == [0x4D, 0x5A] && h.signature == [0x50, 0x45, 0, 0]
                                 && (h.machine == 0x8664 || h.optionalMagic == 0x20B)
  {
    FieldsReadBack(b, h);
    HeaderParts(b, h);
    hide LE, HeaderBytes, PartAt, DosBytes, CoffBytes, OptionalBytes, DirectoriesBytes, TableBytes;
    var nt := 64 + |h.dosStub|;
    ReadsDos(b, h);
    ReadsCoff(b, h, nt);
    ReadsOptional(b, h, nt + 24);
    TwoBytes(b, h.magic);
    FourBytes(b, nt, h.signature);
  }

  lemma TwoBytes(b: Bytes, magic: Bytes)
    requires |b| >= 2 && |magic| == 2 && b[0..2] == magic
    ensures U16(b, 0) == 0x5A4D <==> magic == [0x4D, 0x5A]
  {
    LowestFirst(b, 0);
    assert b[0] == magic[0] && b[1] == magic[1];
    hide LE;
  }

  lemma FourBytes(b: Bytes, at: nat, signature: Bytes)
    requires at + 4 <= |b| && |signature| == 4 && b[at..at + 4] == signature
    ensures U32(b, at) == 0x4550 <==> signature == [0x50, 0x45, 0, 0]
  {
    LowestFirst(b, at);
    assert b[at] == signature[0] && b[at + 1] == signature[1] && b[at + 2] == signature[2] && b[at + 3] == signature[3];
    hide LE;
  }
}
