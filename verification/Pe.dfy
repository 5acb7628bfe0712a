/**
  The fields of a PE32+ header, by their offsets in the Microsoft PE Format specification, sections
  "COFF File Header", "Optional Header" and "Section Table".
 */
module Pe {
  import opened Bits
  import opened ByteOrder

  // e_lfanew
  function NtOffset(img: Bytes): nat
    requires |img| >= 0x40
  {
    U32(img, 0x3C)
  }

  const OPTIONAL_HEADER := 24
  const FIXED_HEADERS := 24 + 112 + 8 * 6   // through the base-relocation directory
  const SECTION_HEADER_SIZE := 40

  // The fixed part of the headers lies inside the image
  predicate HeadersFit(img: Bytes)
  {
    |img| >= 0x40 && NtOffset(img) + FIXED_HEADERS <= |img|
  }

  function NumberOfSections(img: Bytes): nat
    requires HeadersFit(img)
  {
    U16(img, NtOffset(img) + 6)
  }

  function SizeOfOptionalHeader(img: Bytes): nat
    requires HeadersFit(img)
  {
    U16(img, NtOffset(img) + 20)
  }

  function ImageBase(img: Bytes): u64
    requires HeadersFit(img)
  {
    U64(img, NtOffset(img) + OPTIONAL_HEADER + 24)
  }

  function SizeOfHeaders(img: Bytes): u32
    requires HeadersFit(img)
  {
    U32(img, NtOffset(img) + OPTIONAL_HEADER + 60)
  }

  function NumberOfRvaAndSizes(img: Bytes): u32
    requires HeadersFit(img)
  {
    U32(img, NtOffset(img) + OPTIONAL_HEADER + 108)
  }

  function RelocationAddress(img: Bytes): u32
    requires HeadersFit(img)
  {
    U32(img, NtOffset(img) + OPTIONAL_HEADER + 112 + 40)
  }

  function RelocationSize(img: Bytes): u32
    requires HeadersFit(img)
  {
    U32(img, NtOffset(img) + OPTIONAL_HEADER + 112 + 44)
  }

  // EFI_IMAGE_FIRST_SECTION and the headers after it
  function SectionHeader(img: Bytes, i: nat): nat
    requires HeadersFit(img)
  {
    NtOffset(img) + OPTIONAL_HEADER + SizeOfOptionalHeader(img) + SECTION_HEADER_SIZE * i
  }

  // The section table lies inside the image too
  predicate TableFits(img: Bytes)
  {
    HeadersFit(img) && SectionHeader(img, NumberOfSections(img)) <= |img|
  }

  datatype Section = Section(virtualAddress: u32, virtualSize: u32, rawSize: u32, rawOffset: u32, characteristics: u32)

  function SectionAt(img: Bytes, i: nat): Section
    requires TableFits(img) && i < NumberOfSections(img)
  {
    var h := SectionHeader(img, i);
    Section(U32(img, h + 12), U32(img, h + 8), U32(img, h + 16), U32(img, h + 20), U32(img, h + 36))
  }

  function Sections(img: Bytes): (r: seq<Section>)
    requires TableFits(img)
    ensures |r| == NumberOfSections(img)
  {
    seq(NumberOfSections(img), i requires 0 <= i < NumberOfSections(img) => SectionAt(img, i))
  }

  // PeIsValidImage: both signatures, and either the machine or the optional-header magic
  predicate IsValidImage(img: Bytes)
    requires HeadersFit(img)
  {
    && U16(img, 0) == 0x5A4D
    && U32(img, NtOffset(img)) == 0x4550
    && (U16(img, NtOffset(img) + 4) == 0x8664 || U16(img, NtOffset(img) + OPTIONAL_HEADER) == 0x20B)
  }

  // Everything up to the end of the section table
  function HeaderEnd(img: Bytes): nat
    requires TableFits(img)
  {
    var table := SectionHeader(img, NumberOfSections(img));
    var fixed := NtOffset(img) + FIXED_HEADERS;
    if table < fixed then fixed else table
  }

  ghost predicate SameHeaderBytes(img: Bytes, img': Bytes)
    requires TableFits(img)
  {
    |img'| >= HeaderEnd(img) && forall k :: 0 <= k < HeaderEnd(img) ==> img'[k] == img[k]
  }

  /** What the headers say depends on their bytes alone. */
  lemma HeadersSame(img: Bytes, img': Bytes)
    requires TableFits(img) && SameHeaderBytes(img, img')
    ensures TableFits(img') && HeaderEnd(img') == HeaderEnd(img) && Sections(img') == Sections(img)
    ensures ImageBase(img') == ImageBase(img) && SizeOfHeaders(img') == SizeOfHeaders(img)
    ensures NumberOfRvaAndSizes(img') == NumberOfRvaAndSizes(img)
    ensures RelocationAddress(img') == RelocationAddress(img) && RelocationSize(img') == RelocationSize(img)
    ensures IsValidImage(img') == IsValidImage(img)
  {
    TableSame(img, img');
    FixedSame(img, img');
    forall i | 0 <= i < NumberOfSections(img)
      ensures SectionAt(img', i) == SectionAt(img, i)
    {
      SectionSame(img, img', i);
    }
  }

  lemma TableSame(img: Bytes, img': Bytes)
    requires TableFits(img) && SameHeaderBytes(img, img')
    ensures HeadersFit(img') && NtOffset(img') == NtOffset(img)
    ensures NumberOfSections(img') == NumberOfSections(img) && SizeOfOptionalHeader(img') == SizeOfOptionalHeader(img)
    ensures TableFits(img') && HeaderEnd(img') == HeaderEnd(img)
  {
    hide LE;
    FieldSame(img, img', 0x3C, 4);
    var nt := NtOffset(img);
    FieldSame(img, img', nt + 6, 2);
    FieldSame(img, img', nt + 20, 2);
  }

  lemma FixedSame(img: Bytes, img': Bytes)
    requires TableFits(img) && SameHeaderBytes(img, img') && HeadersFit(img') && NtOffset(img') == NtOffset(img)
    ensures ImageBase(img') == ImageBase(img) && SizeOfHeaders(img') == SizeOfHeaders(img)
    ensures NumberOfRvaAndSizes(img') == NumberOfRvaAndSizes(img)
    ensures RelocationAddress(img') == RelocationAddress(img) && RelocationSize(img') == RelocationSize(img)
    ensures IsValidImage(img') == IsValidImage(img)
  {
    hide LE, SameHeaderBytes;
    var nt := NtOffset(img);
    FieldSame(img, img', nt + 48, 8);
    FieldSame(img, img', nt + 84, 4);
    FieldSame(img, img', nt + 132, 4);
    FieldSame(img, img', nt + 176, 4);
    FieldSame(img, img', nt + 180, 4);
    FieldSame(img, img', 0, 2);
    FieldSame(img, img', nt, 4);
    FieldSame(img, img', nt + 4, 2);
    FieldSame(img, img', nt + 24, 2);
  }

  lemma SectionSame(img: Bytes, img': Bytes, i: nat)
    requires TableFits(img) && SameHeaderBytes(img, img') && i < NumberOfSections(img)
    requires TableFits(img') && NtOffset(img') == NtOffset(img)
    requires NumberOfSections(img') == NumberOfSections(img) && SizeOfOptionalHeader(img') == SizeOfOptionalHeader(img)
    ensures SectionAt(img', i) == SectionAt(img, i)
  {
    hide LE, SameHeaderBytes;
    var h := SectionHeader(img, i);
    FieldSame(img, img', h + 8, 4);
    FieldSame(img, img', h + 12, 4);
    FieldSame(img, img', h + 16, 4);
    FieldSame(img, img', h + 20, 4);
    FieldSame(img, img', h + 36, 4);
  }

  lemma FieldSame(img: Bytes, img': Bytes, offset: nat, n: nat)
    requires TableFits(img) && SameHeaderBytes(img, img') && offset + n <= HeaderEnd(img)
    ensures offset + n <= |img'| && offset + n <= |img| && LE(img', offset, n) == LE(img, offset, n)
  {
    assert img[offset..offset + n] == img'[offset..offset + n];
    LESame(img, img', offset, offset, n);
  }
}
