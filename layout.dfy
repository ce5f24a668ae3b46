/**
 * The packed on-disk structures of a PE file, decoded field by field from their
 * little-endian bytes: the DOS header, the PE header (signature, COFF file header,
 * optional header with its 16 data directories), section headers and the export
 * directory (Microsoft PE/COFF Specification, sections 3.1, 3.3, 3.4.3, 4 and 6.3.1).
 *
 * Every structure keeps all of its bytes, filler included, so that decoding and
 * encoding are inverse in both directions: a structure is exactly its bytes.
 */
module PeLayout {
  import opened PeBytes

  const DOS_HEADER_SIZE: nat := 64
  const DOS_MAGIC_SIZE: nat := 2
  const PE_MAGIC_SIZE: nat := 4
  const FILE_HEADER_SIZE: nat := 20
  const OPTIONAL_HEADER_SIZE: nat := 224
  const NUM_DIRECTORIES: nat := 16
  const DIRECTORY_ENTRY_SIZE: nat := 8
  const SECTION_HEADER_SIZE: nat := 40
  const EXPORT_DIRECTORY_SIZE: nat := 40
  /** The data directory that locates the export directory. */
  const EXPORT_DIRECTORY_INDEX: nat := 0

  type Bytes2 = s: seq<Byte> | |s| == 2 witness [0, 0]
  type Bytes4 = s: seq<Byte> | |s| == 4 witness [0, 0, 0, 0]
  type Bytes8 = s: seq<Byte> | |s| == 8 witness [0, 0, 0, 0, 0, 0, 0, 0]
  type Bytes16 = s: seq<Byte> | |s| == 16 witness seq(16, _ => 0)
  type Bytes56 = s: seq<Byte> | |s| == 56 witness seq(56, _ => 0)
  type Bytes58 = s: seq<Byte> | |s| == 58 witness seq(58, _ => 0)

  // ---------------------------------------------------------------- DOS header

  /** 64 bytes: the "MZ" magic at 0, filler, and the PE header offset at 60. */
  datatype DOSHeader = DOSHeader(magic: Bytes2, dummy: Bytes58, peOffset: Dword)

  function DecodeDOSHeader(b: seq<Byte>): DOSHeader
    requires |b| == DOS_HEADER_SIZE
  {
    DOSHeader(b[0..2], b[2..60], Le32(b, 60))
  }

  function EncodeDOSHeader(h: DOSHeader): (b: seq<Byte>)
    ensures |b| == DOS_HEADER_SIZE
  {
    h.magic + h.dummy + DwordBytes(h.peOffset)
  }

  lemma DOSHeaderRoundTrip(h: DOSHeader)
    ensures DecodeDOSHeader(EncodeDOSHeader(h)) == h
  {
    var b := EncodeDOSHeader(h);
    assert b[0..2] == h.magic && b[2..60] == h.dummy && b[60..] == DwordBytes(h.peOffset);
    DwordRoundTrip(h.peOffset);
  }

  lemma DOSHeaderBytesRoundTrip(b: seq<Byte>)
    requires |b| == DOS_HEADER_SIZE
    ensures EncodeDOSHeader(DecodeDOSHeader(b)) == b
  {
    DwordBytesRoundTrip(b, 60);
    assert b == b[0..2] + b[2..60] + b[60..64];
  }

  /** A default-constructed (zero-filled) DOS header. */
  const ZERO_DOS_HEADER: DOSHeader := DOSHeader([0, 0], seq(58, _ => 0), 0)

  /** The magic number is correct iff the header starts with 'M', 'Z'. */
  predicate DOSMagicIsCorrect(h: DOSHeader)
    ensures DOSMagicIsCorrect(h) <==> EncodeDOSHeader(h)[..DOS_MAGIC_SIZE] == ['M' as int, 'Z' as int]
  {
    assert EncodeDOSHeader(h)[..DOS_MAGIC_SIZE] == h.magic;
    h.magic[0] == 'M' as int && h.magic[1] == 'Z' as int
  }

  // ---------------------------------------------------------------- PE header

  /** The COFF file header: 20 bytes. */
  datatype NTFileHeader = NTFileHeader(
    machine: Word,
    numofSections: Word,
    timeDateStamp: Dword,
    pointerToSymbolTable: Dword,
    numofSymbols: Dword,
    sizeofOptionalHeader: Word,
    characteristics: Word)

  function DecodeNTFileHeader(b: seq<Byte>): NTFileHeader
    requires |b| == FILE_HEADER_SIZE
  {
    NTFileHeader(Le16(b, 0), Le16(b, 2), Le32(b, 4), Le32(b, 8), Le32(b, 12), Le16(b, 16), Le16(b, 18))
  }

  function EncodeNTFileHeader(h: NTFileHeader): (b: seq<Byte>)
    ensures |b| == FILE_HEADER_SIZE
  {
    WordBytes(h.machine) + WordBytes(h.numofSections) + DwordBytes(h.timeDateStamp)
      + DwordBytes(h.pointerToSymbolTable) + DwordBytes(h.numofSymbols)
      + WordBytes(h.sizeofOptionalHeader) + WordBytes(h.characteristics)
  }

  lemma NTFileHeaderRoundTrip(h: NTFileHeader)
    ensures DecodeNTFileHeader(EncodeNTFileHeader(h)) == h
  {
    WordRoundTrip(h.machine);
    WordRoundTrip(h.numofSections);
    DwordRoundTrip(h.timeDateStamp);
    DwordRoundTrip(h.pointerToSymbolTable);
    DwordRoundTrip(h.numofSymbols);
    WordRoundTrip(h.sizeofOptionalHeader);
    WordRoundTrip(h.characteristics);
  }

  lemma NTFileHeaderBytesRoundTrip(b: seq<Byte>)
    requires |b| == FILE_HEADER_SIZE
    ensures EncodeNTFileHeader(DecodeNTFileHeader(b)) == b
  {
    WordBytesRoundTrip(b, 0);
    WordBytesRoundTrip(b, 2);
    DwordBytesRoundTrip(b, 4);
    DwordBytesRoundTrip(b, 8);
    DwordBytesRoundTrip(b, 12);
    WordBytesRoundTrip(b, 16);
    WordBytesRoundTrip(b, 18);
    assert b == b[0..2] + b[2..4] + b[4..8] + b[8..12] + b[12..16] + b[16..18] + b[18..20];
  }

  /** One data directory: where a well-known table lives, and how large it is. */
  datatype DirectoryEntry = DirectoryEntry(rva: Rva, size: Dword)

  type Directories = s: seq<DirectoryEntry> | |s| == 16 witness seq(16, _ => DirectoryEntry(0, 0))

  function DecodeDirectories(b: seq<Byte>): (ds: seq<DirectoryEntry>)
    requires |b| % DIRECTORY_ENTRY_SIZE == 0
    ensures |ds| == |b| / DIRECTORY_ENTRY_SIZE
    decreases |b|
  {
    if b == [] then [] else [DirectoryEntry(Le32(b, 0), Le32(b, 4))] + DecodeDirectories(b[8..])
  }

  function EncodeDirectories(ds: seq<DirectoryEntry>): (b: seq<Byte>)
    ensures |b| == DIRECTORY_ENTRY_SIZE * |ds|
  {
    if ds == [] then [] else DwordBytes(ds[0].rva) + DwordBytes(ds[0].size) + EncodeDirectories(ds[1..])
  }

  lemma {:induction false} DirectoriesRoundTrip(ds: seq<DirectoryEntry>)
    ensures DecodeDirectories(EncodeDirectories(ds)) == ds
  {
    if ds != [] {
      var b := EncodeDirectories(ds);
      DwordRoundTrip(ds[0].rva);
      DwordRoundTrip(ds[0].size);
      assert b[8..] == EncodeDirectories(ds[1..]);
      DirectoriesRoundTrip(ds[1..]);
    }
  }

  lemma {:induction false} DirectoriesBytesRoundTrip(b: seq<Byte>)
    requires |b| % DIRECTORY_ENTRY_SIZE == 0
    ensures EncodeDirectories(DecodeDirectories(b)) == b
    decreases |b|
  {
    if b != [] {
      DwordBytesRoundTrip(b, 0);
      DwordBytesRoundTrip(b, 4);
      DirectoriesBytesRoundTrip(b[8..]);
      assert DecodeDirectories(b)[1..] == DecodeDirectories(b[8..]);
      assert b == b[0..4] + b[4..8] + b[8..];
    }
  }

  /** The RVA of directory `k` is the Dword at byte `8 * k` of the encoded table. */
  lemma {:induction false} DirectoryRvaInTable(ds: seq<DirectoryEntry>, k: nat)
    requires k < |ds|
    ensures Le32(EncodeDirectories(ds), DIRECTORY_ENTRY_SIZE * k) == ds[k].rva
  {
    var b := EncodeDirectories(ds);
    if k == 0 {
      DwordRoundTrip(ds[0].rva);
      assert b[..4] == DwordBytes(ds[0].rva);
    } else {
      DirectoryRvaInTable(ds[1..], k - 1);
      assert b[8..] == EncodeDirectories(ds[1..]);
    }
  }

  /**
   * The optional header: 224 bytes. Filler (16 bytes), six Dwords from offset 16
   * (entry point RVA at 16, image base at 28), filler up to offset 96, then the
   * 16 directory entries of 8 bytes each.
   */
  datatype NTOptionalHeader = NTOptionalHeader(
    dummy: Bytes16,
    entryPointRva: Rva,
    baseOfCode: Rva,
    baseOfData: Rva,
    imageBase: Rva,
    sectionAlignment: Dword,
    fileAlignment: Dword,
    dummy1: Bytes56,
    directories: Directories)

  const DIRECTORIES_OFFSET: nat := 96

  function DecodeNTOptionalHeader(b: seq<Byte>): NTOptionalHeader
    requires |b| == OPTIONAL_HEADER_SIZE
  {
    NTOptionalHeader(b[0..16], Le32(b, 16), Le32(b, 20), Le32(b, 24), Le32(b, 28), Le32(b, 32), Le32(b, 36),
      b[40..96], DecodeDirectories(b[96..224]))
  }

  function EncodeNTOptionalHeader(h: NTOptionalHeader): (b: seq<Byte>)
    ensures |b| == OPTIONAL_HEADER_SIZE
  {
    h.dummy + DwordBytes(h.entryPointRva) + DwordBytes(h.baseOfCode) + DwordBytes(h.baseOfData)
      + DwordBytes(h.imageBase) + DwordBytes(h.sectionAlignment) + DwordBytes(h.fileAlignment)
      + h.dummy1 + EncodeDirectories(h.directories)
  }

  lemma NTOptionalHeaderRoundTrip(h: NTOptionalHeader)
    ensures DecodeNTOptionalHeader(EncodeNTOptionalHeader(h)) == h
  {
    var b := EncodeNTOptionalHeader(h);
    var e1 := h.dummy + DwordBytes(h.entryPointRva);
    var e2 := e1 + DwordBytes(h.baseOfCode);
    var e3 := e2 + DwordBytes(h.baseOfData);
    var e4 := e3 + DwordBytes(h.imageBase);
    var e5 := e4 + DwordBytes(h.sectionAlignment);
    var e6 := e5 + DwordBytes(h.fileAlignment);
    var e7 := e6 + h.dummy1;
    assert b == e7 + EncodeDirectories(h.directories);
    assert b[..96] == e7 && b[96..224] == EncodeDirectories(h.directories);
    assert b[40..96] == h.dummy1 && b[..40] == e6;
    assert b[36..40] == DwordBytes(h.fileAlignment) && b[..36] == e5;
    assert b[32..36] == DwordBytes(h.sectionAlignment) && b[..32] == e4;
    assert b[28..32] == DwordBytes(h.imageBase) && b[..28] == e3;
    assert b[24..28] == DwordBytes(h.baseOfData) && b[..24] == e2;
    assert b[20..24] == DwordBytes(h.baseOfCode) && b[..20] == e1;
    assert b[16..20] == DwordBytes(h.entryPointRva) && b[..16] == h.dummy;
    Le32Slice(b, 16);
    Le32Slice(b, 20);
    Le32Slice(b, 24);
    Le32Slice(b, 28);
    Le32Slice(b, 32);
    Le32Slice(b, 36);
    DwordRoundTrip(h.entryPointRva);
    DwordRoundTrip(h.baseOfCode);
    DwordRoundTrip(h.baseOfData);
    DwordRoundTrip(h.imageBase);
    DwordRoundTrip(h.sectionAlignment);
    DwordRoundTrip(h.fileAlignment);
    DirectoriesRoundTrip(h.directories);
  }

  lemma NTOptionalHeaderBytesRoundTrip(b: seq<Byte>)
    requires |b| == OPTIONAL_HEADER_SIZE
    ensures EncodeNTOptionalHeader(DecodeNTOptionalHeader(b)) == b
  {
    var h := DecodeNTOptionalHeader(b);
    DwordBytesRoundTrip(b, 16);
    DwordBytesRoundTrip(b, 20);
    DwordBytesRoundTrip(b, 24);
    DwordBytesRoundTrip(b, 28);
    DwordBytesRoundTrip(b, 32);
    DwordBytesRoundTrip(b, 36);
    DirectoriesBytesRoundTrip(b[96..224]);
    var e1 := h.dummy + DwordBytes(h.entryPointRva);
    assert e1 == b[..20];
    var e2 := e1 + DwordBytes(h.baseOfCode);
    assert e2 == b[..24];
    var e3 := e2 + DwordBytes(h.baseOfData);
    assert e3 == b[..28];
    var e4 := e3 + DwordBytes(h.imageBase);
    assert e4 == b[..32];
    var e5 := e4 + DwordBytes(h.sectionAlignment);
    assert e5 == b[..36];
    var e6 := e5 + DwordBytes(h.fileAlignment);
    assert e6 == b[..40];
    var e7 := e6 + h.dummy1;
    assert e7 == b[..96];
    assert e7 + EncodeDirectories(h.directories) == b;
  }

  /** `NTOptionalHeader::directoryRva`: the RVA of data directory `index`. */
  function DirectoryRva(h: NTOptionalHeader, index: nat): (rva: Rva)
    requires index < NUM_DIRECTORIES
    ensures rva == Le32(EncodeNTOptionalHeader(h), DIRECTORIES_OFFSET + DIRECTORY_ENTRY_SIZE * index)
  {
    var b := EncodeNTOptionalHeader(h);
    assert b[96..] == EncodeDirectories(h.directories);
    DirectoryRvaInTable(h.directories, index);
    h.directories[index].rva
  }

  /** The PE header: the "PE\0\0" signature, the file header and the optional header. */
  datatype PEHeader = PEHeader(magic: Bytes4, fst: NTFileHeader, snd: NTOptionalHeader)

  /** `PEHeader::size()`: signature, file header and the structural optional-header size. */
  function PEHeaderSize(): (n: nat)
    ensures n == 248
  {
    PE_MAGIC_SIZE + FILE_HEADER_SIZE + OPTIONAL_HEADER_SIZE
  }

  function DecodePEHeader(b: seq<Byte>): PEHeader
    requires |b| == PEHeaderSize()
  {
    PEHeader(b[0..4], DecodeNTFileHeader(b[4..24]), DecodeNTOptionalHeader(b[24..248]))
  }

  function EncodePEHeader(h: PEHeader): (b: seq<Byte>)
    ensures |b| == PEHeaderSize()
  {
    h.magic + EncodeNTFileHeader(h.fst) + EncodeNTOptionalHeader(h.snd)
  }

  lemma PEHeaderRoundTrip(h: PEHeader)
    ensures DecodePEHeader(EncodePEHeader(h)) == h
  {
    var b := EncodePEHeader(h);
    assert b[0..4] == h.magic;
    assert b[4..24] == EncodeNTFileHeader(h.fst);
    assert b[24..248] == EncodeNTOptionalHeader(h.snd);
    NTFileHeaderRoundTrip(h.fst);
    NTOptionalHeaderRoundTrip(h.snd);
  }

  lemma PEHeaderBytesRoundTrip(b: seq<Byte>)
    requires |b| == PEHeaderSize()
    ensures EncodePEHeader(DecodePEHeader(b)) == b
  {
    NTFileHeaderBytesRoundTrip(b[4..24]);
    NTOptionalHeaderBytesRoundTrip(b[24..248]);
    assert b == b[0..4] + b[4..24] + b[24..248];
  }

  /** A default-constructed (zero-filled) PE header. */
  const ZERO_PE_HEADER: PEHeader := PEHeader([0, 0, 0, 0], NTFileHeader(0, 0, 0, 0, 0, 0, 0),
    NTOptionalHeader(seq(16, _ => 0), 0, 0, 0, 0, 0, 0, seq(56, _ => 0), seq(16, _ => DirectoryEntry(0, 0))))

  /** The signature is correct iff the PE header starts with 'P', 'E', 0, 0. */
  predicate PEMagicIsCorrect(h: PEHeader)
    ensures PEMagicIsCorrect(h) <==> EncodePEHeader(h)[..PE_MAGIC_SIZE] == ['P' as int, 'E' as int, 0, 0]
  {
    assert EncodePEHeader(h)[..PE_MAGIC_SIZE] == h.magic;
    h.magic[0] == 'P' as int && h.magic[1] == 'E' as int && h.magic[2] == 0 && h.magic[3] == 0
  }

  // ---------------------------------------------------------------- section headers

  /** One entry of the section table: 40 bytes. */
  datatype SectionHeader = SectionHeader(
    name: Bytes8,
    virtualSize: Dword,
    rva: Rva,
    sizeofRawData: Dword,
    pointerToRawData: Dword,
    pointerToRelocations: Dword,
    pointerToLinenumbers: Dword,
    numofRelocations: Word,
    numofLinenumbers: Word,
    characteristics: Dword)

  /** A default-constructed (zero-filled) section header. */
  const ZERO_SECTION_HEADER: SectionHeader := SectionHeader([0, 0, 0, 0, 0, 0, 0, 0], 0, 0, 0, 0, 0, 0, 0, 0, 0)

  function DecodeSectionHeader(b: seq<Byte>): SectionHeader
    requires |b| == SECTION_HEADER_SIZE
  {
    SectionHeader(b[0..8], Le32(b, 8), Le32(b, 12), Le32(b, 16), Le32(b, 20), Le32(b, 24), Le32(b, 28),
      Le16(b, 32), Le16(b, 34), Le32(b, 36))
  }

  function EncodeSectionHeader(h: SectionHeader): (b: seq<Byte>)
    ensures |b| == SECTION_HEADER_SIZE
  {
    h.name + DwordBytes(h.virtualSize) + DwordBytes(h.rva) + DwordBytes(h.sizeofRawData)
      + DwordBytes(h.pointerToRawData) + DwordBytes(h.pointerToRelocations) + DwordBytes(h.pointerToLinenumbers)
      + WordBytes(h.numofRelocations) + WordBytes(h.numofLinenumbers) + DwordBytes(h.characteristics)
  }

  lemma SectionHeaderRoundTrip(h: SectionHeader)
    ensures DecodeSectionHeader(EncodeSectionHeader(h)) == h
  {
    var b := EncodeSectionHeader(h);
    assert b[0..8] == h.name;
    DwordRoundTrip(h.virtualSize);
    DwordRoundTrip(h.rva);
    DwordRoundTrip(h.sizeofRawData);
    DwordRoundTrip(h.pointerToRawData);
    DwordRoundTrip(h.pointerToRelocations);
    DwordRoundTrip(h.pointerToLinenumbers);
    WordRoundTrip(h.numofRelocations);
    WordRoundTrip(h.numofLinenumbers);
    DwordRoundTrip(h.characteristics);
  }

  lemma SectionHeaderBytesRoundTrip(b: seq<Byte>)
    requires |b| == SECTION_HEADER_SIZE
    ensures EncodeSectionHeader(DecodeSectionHeader(b)) == b
  {
    var h := DecodeSectionHeader(b);
    DwordBytesRoundTrip(b, 8);
    DwordBytesRoundTrip(b, 12);
    DwordBytesRoundTrip(b, 16);
    DwordBytesRoundTrip(b, 20);
    DwordBytesRoundTrip(b, 24);
    DwordBytesRoundTrip(b, 28);
    WordBytesRoundTrip(b, 32);
    WordBytesRoundTrip(b, 34);
    DwordBytesRoundTrip(b, 36);
    var e1 := h.name + DwordBytes(h.virtualSize);
    assert e1 == b[..12];
    var e2 := e1 + DwordBytes(h.rva);
    assert e2 == b[..16];
    var e3 := e2 + DwordBytes(h.sizeofRawData);
    assert e3 == b[..20];
    var e4 := e3 + DwordBytes(h.pointerToRawData);
    assert e4 == b[..24];
    var e5 := e4 + DwordBytes(h.pointerToRelocations);
    assert e5 == b[..28];
    var e6 := e5 + DwordBytes(h.pointerToLinenumbers);
    assert e6 == b[..32];
    var e7 := e6 + WordBytes(h.numofRelocations);
    assert e7 == b[..34];
    var e8 := e7 + WordBytes(h.numofLinenumbers);
    assert e8 == b[..36];
    assert e8 + DwordBytes(h.characteristics) == b;
  }

  /** The section table: consecutive 40-byte section headers. */
  function DecodeSectionTable(b: seq<Byte>): (hs: seq<SectionHeader>)
    requires |b| % SECTION_HEADER_SIZE == 0
    ensures |hs| == |b| / SECTION_HEADER_SIZE
    decreases |b|
  {
    if b == [] then [] else [DecodeSectionHeader(b[..40])] + DecodeSectionTable(b[40..])
  }

  function EncodeSectionTable(hs: seq<SectionHeader>): (b: seq<Byte>)
    ensures |b| == SECTION_HEADER_SIZE * |hs|
  {
    if hs == [] then [] else EncodeSectionHeader(hs[0]) + EncodeSectionTable(hs[1..])
  }

  lemma {:induction false} SectionTableRoundTrip(hs: seq<SectionHeader>)
    ensures DecodeSectionTable(EncodeSectionTable(hs)) == hs
  {
    if hs != [] {
      var b := EncodeSectionTable(hs);
      assert b[..40] == EncodeSectionHeader(hs[0]);
      assert b[40..] == EncodeSectionTable(hs[1..]);
      SectionHeaderRoundTrip(hs[0]);
      SectionTableRoundTrip(hs[1..]);
    }
  }

  lemma {:induction false} SectionTableBytesRoundTrip(b: seq<Byte>)
    requires |b| % SECTION_HEADER_SIZE == 0
    ensures EncodeSectionTable(DecodeSectionTable(b)) == b
    decreases |b|
  {
    if b != [] {
      SectionHeaderBytesRoundTrip(b[..40]);
      SectionTableBytesRoundTrip(b[40..]);
      assert DecodeSectionTable(b)[1..] == DecodeSectionTable(b[40..]);
      assert b == b[..40] + b[40..];
    }
  }

  // ---------------------------------------------------------------- export directory

  /** The export directory table: 40 bytes. */
  datatype ExportDirectory = ExportDirectory(
    characteristics: Dword,
    timeDateStamp: Dword,
    majorVersion: Word,
    minorVersion: Word,
    nName: Dword,
    ordinalsBase: Dword,
    numofFunctions: Dword,
    numofNames: Dword,
    functionsRva: Rva,
    namesRva: Rva,
    ordinalsRva: Rva)

  /** A default-constructed (zero-filled) export directory. */
  const ZERO_EXPORT_DIRECTORY: ExportDirectory := ExportDirectory(0, 0, 0, 0, 0, 0, 0, 0, 0, 0, 0)

  function DecodeExportDirectory(b: seq<Byte>): ExportDirectory
    requires |b| == EXPORT_DIRECTORY_SIZE
  {
    ExportDirectory(Le32(b, 0), Le32(b, 4), Le16(b, 8), Le16(b, 10), Le32(b, 12), Le32(b, 16), Le32(b, 20),
      Le32(b, 24), Le32(b, 28), Le32(b, 32), Le32(b, 36))
  }

  function EncodeExportDirectory(d: ExportDirectory): (b: seq<Byte>)
    ensures |b| == EXPORT_DIRECTORY_SIZE
  {
    DwordBytes(d.characteristics) + DwordBytes(d.timeDateStamp) + WordBytes(d.majorVersion)
      + WordBytes(d.minorVersion) + DwordBytes(d.nName) + DwordBytes(d.ordinalsBase)
      + DwordBytes(d.numofFunctions) + DwordBytes(d.numofNames) + DwordBytes(d.functionsRva)
      + DwordBytes(d.namesRva) + DwordBytes(d.ordinalsRva)
  }

  lemma ExportDirectoryRoundTrip(d: ExportDirectory)
    ensures DecodeExportDirectory(EncodeExportDirectory(d)) == d
  {
    DwordRoundTrip(d.characteristics);
    DwordRoundTrip(d.timeDateStamp);
    WordRoundTrip(d.majorVersion);
    WordRoundTrip(d.minorVersion);
    DwordRoundTrip(d.nName);
    DwordRoundTrip(d.ordinalsBase);
    DwordRoundTrip(d.numofFunctions);
    DwordRoundTrip(d.numofNames);
    DwordRoundTrip(d.functionsRva);
    DwordRoundTrip(d.namesRva);
    DwordRoundTrip(d.ordinalsRva);
  }

  lemma ExportDirectoryBytesRoundTrip(b: seq<Byte>)
    requires |b| == EXPORT_DIRECTORY_SIZE
    ensures EncodeExportDirectory(DecodeExportDirectory(b)) == b
  {
    var d := DecodeExportDirectory(b);
    DwordBytesRoundTrip(b, 0);
    DwordBytesRoundTrip(b, 4);
    WordBytesRoundTrip(b, 8);
    WordBytesRoundTrip(b, 10);
    DwordBytesRoundTrip(b, 12);
    DwordBytesRoundTrip(b, 16);
    DwordBytesRoundTrip(b, 20);
    DwordBytesRoundTrip(b, 24);
    DwordBytesRoundTrip(b, 28);
    DwordBytesRoundTrip(b, 32);
    DwordBytesRoundTrip(b, 36);
    var e1 := DwordBytes(d.characteristics) + DwordBytes(d.timeDateStamp);
    assert e1 == b[..8];
    var e2 := e1 + WordBytes(d.majorVersion);
    assert e2 == b[..10];
    var e3 := e2 + WordBytes(d.minorVersion);
    assert e3 == b[..12];
    var e4 := e3 + DwordBytes(d.nName);
    assert e4 == b[..16];
    var e5 := e4 + DwordBytes(d.ordinalsBase);
    assert e5 == b[..20];
    var e6 := e5 + DwordBytes(d.numofFunctions);
    assert e6 == b[..24];
    var e7 := e6 + DwordBytes(d.numofNames);
    assert e7 == b[..28];
    var e8 := e7 + DwordBytes(d.functionsRva);
    assert e8 == b[..32];
    var e9 := e8 + DwordBytes(d.namesRva);
    assert e9 == b[..36];
    assert e9 + DwordBytes(d.ordinalsRva) == b;
  }
}
