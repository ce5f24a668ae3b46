/**
 * The preparator: it loads the headers of a PE file, builds the virtual image
 * of its sections, locates the export directory and lists the export table,
 * writing one diagnostic per step to its log.
 */
module Preparator {
  import opened PeBytes
  import opened PeLayout
  import opened ByteSource
  import opened Diagnostics
  import opened HeaderChecks
  import opened VirtualImage
  import opened ImageLoading
  import opened ExportTable
  import opened ExportListing
  import opened Preparation

  class PEPreparator {
    /** The whole input file; its length is the raw size the constructor measures. */
    const file: seq<Byte>
    var log: seq<Severity>
    var dosHeader: DOSHeader
    var dosStub: seq<Byte>
    var peHeader: PEHeader
    const image: Image
    var exportDirectory: ExportDirectory

    constructor (file: seq<Byte>)
      ensures this.file == file && log == []
      ensures dosHeader == ZERO_DOS_HEADER && dosStub == [] && peHeader == ZERO_PE_HEADER
      ensures exportDirectory == ZERO_EXPORT_DIRECTORY
      ensures fresh(image) && image.sectionHeaders == [] && image.sections == []
    {
      this.file := file;
      log := [];
      dosHeader := ZERO_DOS_HEADER;
      dosStub := [];
      peHeader := ZERO_PE_HEADER;
      image := new Image();
      exportDirectory := ZERO_EXPORT_DIRECTORY;
    }

    /** The state the `prepare` chain works on, as a value. */
    ghost function Snapshot(): State
      reads this, image
    {
      State(log, dosHeader, dosStub, peHeader, image.sectionHeaders, image.sections, image.accessError, exportDirectory)
    }

    /**
     * `prepare`: the header stages, then `loadImage` and `loadExportDirectory`,
     * stopping at the first that fails.
     */
    method Prepare() returns (ok: bool)
      modifies this`log, this`dosHeader, this`dosStub, this`peHeader, this`exportDirectory
      modifies image`sectionHeaders, image`sections, image`accessError
      ensures Outcome(ok, Snapshot()) == Prepared(file, old(Snapshot()))
    {
      HeadersPreparedAccepted(file, Snapshot());
      ok := PrepareHeaders();
      if !ok {
        return;
      }
      ok := LoadImage();
      if !ok {
        return;
      }
      ok := LoadExportDirectory();
    }

    /** The header stages of `prepare`: note the file size, then load and check the headers in order. */
    method PrepareHeaders() returns (ok: bool)
      modifies this`log, this`dosHeader, this`dosStub, this`peHeader
      ensures Outcome(ok, Snapshot()) == HeadersPrepared(file, old(Snapshot()))
    {
      log := log + [Note];
      ok := LoadDOSHeader();
      if !ok {
        return;
      }
      ok := CheckDOSHeader();
      ok := LoadDOSStub();
      if !ok {
        return;
      }
      ok := LoadPEHeader();
      if !ok {
        return;
      }
      ok := CheckPEHeader();
    }

    /**
     * `loadFromFile`: seek to `pos` and read `size` bytes, which the caller writes
     * over its destination; an error is logged unless all of them arrive.
     */
    method LoadFromFile(pos: int, size: int) returns (ok: bool, got: seq<Byte>)
      modifies this`log
      ensures got == FileRead(file, pos, size)
      ensures ok == ReadSucceeds(file, pos, size)
      ensures log == ErrorUnless(old(log), ok)
    {
      got := FileRead(file, pos, size);
      ok := |got| == size;
      if !ok {
        log := log + [Error];
      }
    }

    /** `loadFromImage`: one `Image::read` of `size` bytes at `rva` over `dst`; an error is logged on a short read. */
    method LoadFromImage(rva: Rva, size: nat, dst: seq<Byte>) returns (ok: bool, out: seq<Byte>)
      requires image.Valid() && size <= |dst|
      modifies image`accessError, this`log
      ensures out == ReadResult(image.sectionHeaders, image.sections, dst, rva, size)
      ensures ok == (MappedFrom(image.sectionHeaders, rva, 0, size) == size)
      ensures image.accessError == !ok
      ensures log == ErrorUnless(old(log), ok)
    {
      var buf := new Byte[|dst|](i requires 0 <= i < |dst| => dst[i]);
      assert buf[..] == dst;
      var n := image.Read(buf, rva, size);
      out := buf[..];
      ok := n == size;
      if !ok {
        log := log + [Error];
      }
    }

    /** `loadDOSHeader`: the first 64 bytes of the file over the DOS header. */
    method LoadDOSHeader() returns (ok: bool)
      modifies this`dosHeader, this`log
      ensures ok == ReadSucceeds(file, 0, DOS_HEADER_SIZE)
      ensures dosHeader == DecodeDOSHeader(Overlay(EncodeDOSHeader(old(dosHeader)), FileRead(file, 0, DOS_HEADER_SIZE)))
      ensures log == ErrorUnless(old(log), ok)
      ensures Outcome(ok, Snapshot()) == DOSHeaderLoaded(file, old(Snapshot()))
    {
      var got;
      ok, got := LoadFromFile(0, DOS_HEADER_SIZE);
      dosHeader := DecodeDOSHeader(Overlay(EncodeDOSHeader(dosHeader), got));
    }

    /** `checkDOSHeader`: it only warns, and always passes. */
    method CheckDOSHeader() returns (ok: bool)
      modifies this`log
      ensures ok
      ensures log == DOSCheckLog(old(log), dosHeader, |file|)
      ensures Outcome(ok, Snapshot()) == DOSHeaderChecked(file, old(Snapshot()))
    {
      if !DOSMagicIsCorrect(dosHeader) {
        log := log + [Warning];
      }
      if dosHeader.peOffset >= |file| {
        log := log + [Warning];
      }
      ok := true;
    }

    /**
     * `findPEOffset`: keep the declared PE offset when it lies inside the file;
     * otherwise warn and scan the file for "PE", storing each hit in the DOS
     * header, until a hit at or past the DOS header or the end of the file.
     */
    method FindPEOffset() returns (p: int)
      modifies this`dosHeader, this`log
      ensures dosHeader == old(dosHeader).(peOffset := FoundPEOffset(file, old(dosHeader).peOffset))
      ensures p == ToInt32(dosHeader.peOffset)
      ensures log == FindPEOffsetLog(old(log), file, old(dosHeader).peOffset)
    {
      if dosHeader.peOffset < |file| {
        return ToInt32(dosHeader.peOffset);
      }
      log := log + [Warning];
      ghost var found := ScanFrom(file, 0, 0);
      dosHeader := dosHeader.(peOffset := 0);
      var pos := 0;
      var good := true;
      while good
        invariant pos <= |file| && log == old(log) + [Warning]
        invariant dosHeader == old(dosHeader).(peOffset := dosHeader.peOffset)
        invariant good ==> ScanFrom(file, pos, dosHeader.peOffset) == found
        invariant !good ==> dosHeader.peOffset == found
        decreases |file| - pos, good
      {
        if pos == |file| {
          good := false;
        } else if file[pos] != LETTER_P {
          pos := pos + 1;
        } else if pos + 1 == |file| {
          pos := pos + 1;
          good := false;
        } else {
          var second := file[pos + 1];
          ghost var at := pos;
          pos := pos + 2;
          if second == LETTER_E {
            assert ScanFrom(file, at, dosHeader.peOffset) ==
              if Wrap32(at) >= DOS_HEADER_SIZE then Wrap32(at) else ScanFrom(file, pos, Wrap32(at));
            dosHeader := dosHeader.(peOffset := Wrap32(pos - 2));
            if dosHeader.peOffset >= DOS_HEADER_SIZE {
              return ToInt32(dosHeader.peOffset);
            }
          }
        }
      }
      p := ToInt32(dosHeader.peOffset);
    }

    /**
     * `loadDOSStub`: the bytes from `min(64, p)` up to the PE offset `p`, into a
     * stub buffer resized to that length.
     */
    method LoadDOSStub() returns (ok: bool)
      modifies this`dosHeader, this`dosStub, this`log
      ensures dosHeader == old(dosHeader).(peOffset := FoundPEOffset(file, old(dosHeader).peOffset))
      ensures var p := ToInt32(dosHeader.peOffset);
        && dosStub == Overlay(Resize(old(dosStub), StubSize(p), 0), FileRead(file, StubOffset(p), StubSize(p)))
        && ok == ReadSucceeds(file, StubOffset(p), StubSize(p))
        && log == ErrorUnless(FindPEOffsetLog(old(log), file, old(dosHeader).peOffset) + [Note], ok)
      ensures ok
      ensures Outcome(ok, Snapshot()) == DOSStubLoaded(file, old(Snapshot()))
    {
      var p := FindPEOffset();
      var offset, size := StubOffset(p), StubSize(p);
      log := log + [Note];
      dosStub := Resize(dosStub, size, 0);
      var got := FileRead(file, offset, size);
      dosStub := Overlay(dosStub, got);
      ok := |got| == size;
      if !ok {
        log := log + [Error];
      }
      StubAlwaysLoads(file, old(dosHeader).peOffset);
    }

    /** `loadPEHeader`: 248 bytes at the PE offset (an `int`) over the PE header, warning if it overlaps the DOS header. */
    method LoadPEHeader() returns (ok: bool)
      modifies this`peHeader, this`log
      ensures var pos := ToInt32(dosHeader.peOffset);
        && ok == ReadSucceeds(file, pos, PEHeaderSize())
        && peHeader == DecodePEHeader(Overlay(EncodePEHeader(old(peHeader)), FileRead(file, pos, PEHeaderSize())))
        && log == ErrorUnless(PELoadLog(old(log), dosHeader.peOffset), ok)
      ensures Outcome(ok, Snapshot()) == PEHeaderLoaded(file, old(Snapshot()))
    {
      if ToInt32(dosHeader.peOffset) < DOS_HEADER_SIZE {
        log := log + [Warning];
      }
      var got;
      ok, got := LoadFromFile(ToInt32(dosHeader.peOffset), PEHeaderSize());
      peHeader := DecodePEHeader(Overlay(EncodePEHeader(peHeader), got));
    }

    /** `checkPEHeader`: warnings and notes, and failure iff there are no sections. */
    method CheckPEHeader() returns (ok: bool)
      modifies this`log
      ensures ok == PEHeaderAccepted(peHeader)
      ensures Outcome(ok, Snapshot()) == PEHeaderChecked(old(Snapshot()))
    {
      ghost var s0 := Snapshot();
      var h := peHeader;
      ghost var badMagic, badSize, highEntry :=
        !PEMagicIsCorrect(h), h.fst.sizeofOptionalHeader != OPTIONAL_HEADER_SIZE, EntryPointAddress(h) >= 0x8000_0000;
      if !PEMagicIsCorrect(h) {
        log := log + [Warning];
      }
      assert log == WarnIf(s0.log, badMagic);
      if h.fst.sizeofOptionalHeader != OPTIONAL_HEADER_SIZE {
        log := log + [Warning];
      }
      assert log == WarnIf(WarnIf(s0.log, badMagic), badSize);
      log := log + [Note, Note];
      if EntryPointAddress(h) >= 0x8000_0000 {
        log := log + [Warning];
      }
      assert log == WarnIf(WarnIf(WarnIf(s0.log, badMagic), badSize) + [Note, Note], highEntry);
      log := log + [Note];
      ok := h.fst.numofSections != 0;
      if !ok {
        log := log + [Error];
      }
      CheckTagsAppend(s0.log, badMagic, badSize, highEntry, ok);
      assert Snapshot() == s0.(log := log);
    }

    /**
     * `loadImage`: size the image for the declared sections, read the section
     * table after the PE header (a failure ends the load), then load the sections.
     */
    method LoadImage() returns (ok: bool)
      requires PEHeaderAccepted(peHeader)
      modifies image`sectionHeaders, image`sections, this`log
      ensures var n := peHeader.fst.numofSections as nat;
        var h0 := Resize(old(image.sectionHeaders), n, ZERO_SECTION_HEADER);
        var offset := SectionTableOffset(dosHeader.peOffset);
        && ok == ReadSucceeds(file, offset, SECTION_HEADER_SIZE * n)
        && image.sectionHeaders == DecodeSectionTable(Overlay(EncodeSectionTable(h0), FileRead(file, offset, SECTION_HEADER_SIZE * n)))
      ensures var n := peHeader.fst.numofSections as nat;
        var s0 := Resize(old(image.sections), n, []);
        && (!ok ==> image.sections == s0 && log == old(log) + [Note, Error])
        && (ok ==> image.Valid() && image.sections == LoadedSections(file, image.sectionHeaders, s0)
                   && log == SectionLog(old(log) + [Note], file, image.sectionHeaders, n))
      ensures Outcome(ok, Snapshot()) == ImageLoaded(file, old(Snapshot()))
    {
      ghost var s0 := Snapshot();
      var n := peHeader.fst.numofSections as nat;
      image.SetNumofSections(n);
      var offset := SectionTableOffset(dosHeader.peOffset);
      log := log + [Note];
      var got;
      ok, got := LoadFromFile(offset, image.SectionHeadersSizeInBytes());
      image.WriteRawSectionHeaders(got);
      assert image.sectionHeaders == SectionTable(file, s0.dosHeader.peOffset, Resize(s0.sectionHeaders, n, ZERO_SECTION_HEADER), n);
      if !ok {
        assert Snapshot() == s0.(sectionHeaders := image.sectionHeaders, sections := image.sections, log := log);
        return;
      }
      LoadSections();
      assert Snapshot() == s0.(sectionHeaders := image.sectionHeaders, sections := image.sections, log := log);
    }

    /**
     * The section loop of `loadImage`: size each section buffer to its
     * `virtualSize`, and read each section from its raw offset. A failed read is
     * logged and the loop goes on; a successful one is noted.
     */
    method LoadSections()
      requires |image.sections| == |image.sectionHeaders| != 0
      modifies image`sections, this`log
      ensures image.Valid()
      ensures image.sections == LoadedSections(file, image.sectionHeaders, old(image.sections))
      ensures log == SectionLog(old(log), file, image.sectionHeaders, |image.sectionHeaders|)
    {
      ghost var hs := image.sectionHeaders;
      var n := |image.sectionHeaders|;
      image.InitSectionSizes();
      ghost var s1 := image.sections;
      var i := 0;
      while i < n
        invariant 0 <= i <= n == |hs| == |s1|
        invariant image.sectionHeaders == hs && Layout(hs, s1)
        invariant image.sections == PartlyLoaded(file, hs, s1, i)
        invariant log == SectionLog(old(log), file, hs, i)
      {
        PartlyLoadedStep(file, hs, s1, i);
        LoadSection(i);
        i := i + 1;
      }
      FullyLoaded(file, hs, old(image.sections), s1);
    }

    /** One round of the section loop: read section `i` from its raw offset into its buffer, noting success. */
    method LoadSection(i: nat)
      requires i < |image.sections| == |image.sectionHeaders|
      requires |image.sections[i]| == image.sectionHeaders[i].virtualSize
      modifies image`sections, this`log
      ensures image.sections == old(image.sections)[i := LoadedSection(file, image.sectionHeaders[i], old(image.sections)[i])]
      ensures log == old(log) + [if SectionLoads(file, image.sectionHeaders[i]) then Note else Error]
    {
      var loaded, bytes := LoadFromFile(ToInt32(image.RawOffsetOfSectionAt(i)), ToInt32(|image.sections[i]|));
      image.WriteSection(i, bytes);
      if loaded {
        log := log + [Note];
      }
    }

    /** `loadDirectory`: a note and failure when data directory `index` has RVA 0, otherwise an image read over `dst`. */
    method LoadDirectory(index: nat, size: nat, dst: seq<Byte>) returns (ok: bool, out: seq<Byte>)
      requires index < NUM_DIRECTORIES && image.Valid() && size <= |dst|
      modifies image`accessError, this`log
      ensures var rva := DirectoryRva(peHeader.snd, index);
        rva == 0 ==> !ok && out == dst && image.accessError == old(image.accessError) && log == old(log) + [Note]
      ensures var rva := DirectoryRva(peHeader.snd, index);
        rva != 0 ==>
          && out == ReadResult(image.sectionHeaders, image.sections, dst, rva, size)
          && ok == (MappedFrom(image.sectionHeaders, rva, 0, size) == size)
          && image.accessError == !ok
          && log == ErrorUnless(old(log), ok)
    {
      var rva := DirectoryRva(peHeader.snd, index);
      if rva == 0 {
        log := log + [Note];
        return false, dst;
      }
      ok, out := LoadFromImage(rva, size, dst);
    }

    /** `loadExportDirectory`: data directory 0, 40 bytes, over the export directory. */
    method LoadExportDirectory() returns (ok: bool)
      requires image.Valid()
      modifies this`exportDirectory, image`accessError, this`log
      ensures var rva := DirectoryRva(peHeader.snd, EXPORT_DIRECTORY_INDEX);
        rva == 0 ==>
          && !ok && exportDirectory == old(exportDirectory) && image.accessError == old(image.accessError)
          && log == old(log) + [Note]
      ensures var rva := DirectoryRva(peHeader.snd, EXPORT_DIRECTORY_INDEX);
        rva != 0 ==>
          && exportDirectory == DecodeExportDirectory(ReadResult(image.sectionHeaders, image.sections,
               EncodeExportDirectory(old(exportDirectory)), rva, EXPORT_DIRECTORY_SIZE))
          && ok == (MappedFrom(image.sectionHeaders, rva, 0, EXPORT_DIRECTORY_SIZE) == EXPORT_DIRECTORY_SIZE)
          && image.accessError == !ok
          && log == ErrorUnless(old(log), ok)
      ensures Outcome(ok, Snapshot()) == ExportDirectoryLoaded(old(Snapshot()))
    {
      ghost var s0 := Snapshot();
      var out;
      ExportDirectoryRoundTrip(exportDirectory);
      ok, out := LoadDirectory(EXPORT_DIRECTORY_INDEX, EXPORT_DIRECTORY_SIZE, EncodeExportDirectory(exportDirectory));
      exportDirectory := DecodeExportDirectory(out);
      assert Snapshot() == s0.(exportDirectory := exportDirectory, accessError := image.accessError, log := log);
    }

    /** `getString`: the bytes at `rva, rva + 1, ...` up to the first zero, which `Image::at` also returns off the image. */
    method GetString(rva: Rva) returns (s: seq<Byte>)
      requires image.Valid()
      modifies image`accessError
      ensures s == CString(image.sectionHeaders, image.sections, rva)
      ensures image.accessError == (old(image.accessError) || CStringFaults(image.sectionHeaders, image.sections, rva))
    {
      ghost var hs, ss := image.sectionHeaders, image.sections;
      s := [];
      var i := 0;
      while i < MAX_STRING_LENGTH
        invariant i <= MAX_STRING_LENGTH && |s| == i
        invariant forall j :: 0 <= j < i ==> s[j] != 0 && s[j] == ByteAt(hs, ss, RvaPlus(rva, j))
        invariant image.accessError == old(image.accessError)
      {
        var c := image.At(RvaPlus(rva, i));
        if c == 0 {
          CStringOfBytesRead(hs, ss, rva, s);
          return;
        }
        s := s + [c];
        i := i + 1;
      }
      CStringOfBytesRead(hs, ss, rva, s);
    }

    /**
     * `printExportTable`: clear the fault flag, read the function, name and
     * ordinal arrays through iterators, fail if the flag is then raised, and
     * otherwise list every name whose ordinal indexes the function array.
     * `fJunk`, `nJunk` and `oJunk` are the bytes the iterators' buffers hold
     * before their first read.
     */
    method PrintExportTable() returns (ok: bool, entries: seq<ExportEntry>,
                                       ghost fJunk: seq<Byte>, ghost nJunk: seq<Byte>, ghost oJunk: seq<Byte>)
      requires image.Valid()
      modifies image`accessError, this`log
      ensures |fJunk| == 4 && |nJunk| == 4 && |oJunk| == 2
      ensures var hs, ss, d := image.sectionHeaders, image.sections, exportDirectory;
        var names := Names(hs, ss, d, nJunk);
        var t := Tables(Functions(hs, ss, d, fJunk), Ordinals(hs, ss, d, oJunk), d.ordinalsBase,
          NameStrings(hs, ss, names), NameFaults(hs, ss, names));
        var l := ListNames(t, |names|, false, old(log) + [Note]);
        && ok == !ArraysFault(hs, d)
        && (!ok ==> entries == [] && image.accessError && log == old(log) + [Error])
        && (ok ==> entries == l.entries && image.accessError == l.fault && log == l.log)
    {
      var d := exportDirectory;
      image.Clear();
      var functions, names, ordinals;
      functions, fJunk := ReadArray(d.functionsRva, 4, d.numofFunctions);
      names, nJunk := ReadArray(d.namesRva, 4, d.numofNames);
      ordinals, oJunk := ReadArray(d.ordinalsRva, 2, d.numofNames);
      if image.Error() {
        log := log + [Error];
        return false, [], fJunk, nJunk, oJunk;
      }
      log := log + [Note];
      ghost var hs, ss := image.sectionHeaders, image.sections;
      NamesHaveOrdinals(d);
      assert |names| <= |ordinals|;
      assert image.Valid();
      entries := ListExports(functions, names, ordinals, d.ordinalsBase,
        Tables(functions, ordinals, d.ordinalsBase, NameStrings(hs, ss, names), NameFaults(hs, ss, names)));
      ok := true;
    }

    /**
     * One array of the export table: the vector built from the iterator range
     * `iterator<T>(rva)` to `iterator<T>(rva, n)`, `width` being `sizeof(T)`.
     * `junk` is what the first iterator's buffer holds before its first read.
     */
    method ReadArray(rva: Rva, width: nat, n: Dword) returns (v: seq<Dword>, ghost junk: seq<Byte>)
      requires image.Valid() && (width == 2 || width == 4)
      modifies image`accessError
      ensures |junk| == width
      ensures var count := RangeCount(n, width);
        && v == Elements(image.sectionHeaders, image.sections, junk, rva, count)
        && image.accessError == FaultAfter(image.sectionHeaders, rva, width, count, old(image.accessError))
    {
      var first := image.MakeIterator(rva, width);
      var last := image.MakeShiftedIterator(rva, width, n);
      ShiftedRangeLength(rva, width, n);
      junk := first.buf[..];
      v := CollectRange(first, last);
    }

    /**
     * The listing loop of `printExportTable`, over the tables `t` it works on:
     * one round per name, in order.
     */
    method ListExports(functions: seq<Dword>, names: seq<Dword>, ordinals: seq<Dword>, base: Dword, ghost t: Tables)
      returns (entries: seq<ExportEntry>)
      requires image.Valid() && |names| <= |ordinals|
      requires t.functions == functions && t.ordinals == ordinals && t.base == base
      requires t.strings == NameStrings(image.sectionHeaders, image.sections, names)
      requires t.faults == NameFaults(image.sectionHeaders, image.sections, names)
      modifies image`accessError, this`log
      ensures var l := ListNames(t, |names|, old(image.accessError), old(log));
        entries == l.entries && image.accessError == l.fault && log == l.log
    {
      entries := [];
      var i := 0;
      assert WellSized(t) && |t.strings| == |names|;
      ghost var hs, ss := image.sectionHeaders, image.sections;
      while i < |names|
        invariant i <= |names| && image.Valid()
        invariant WellSized(t) && |t.strings| == |names|
        invariant image.sectionHeaders == hs && image.sections == ss
        invariant Listing(entries, log, image.accessError) == ListNames(t, i, old(image.accessError), old(log))
      {
        entries := ListName(functions, names, ordinals, base, t, i, entries, old(image.accessError), old(log));
        i := i + 1;
      }
    }

    /**
     * One round of the listing loop: a warning when the ordinal of name `i` does
     * not index the function array, otherwise its line. `prior` and `log0` are
     * the flag and the log the loop started from.
     */
    method ListName(functions: seq<Dword>, names: seq<Dword>, ordinals: seq<Dword>, base: Dword, ghost t: Tables,
                    i: nat, entries: seq<ExportEntry>, ghost prior: bool, ghost log0: seq<Severity>)
      returns (entries': seq<ExportEntry>)
      requires image.Valid() && |names| <= |ordinals| && i < |names|
      requires t.functions == functions && t.ordinals == ordinals && t.base == base
      requires t.strings == NameStrings(image.sectionHeaders, image.sections, names)
      requires t.faults == NameFaults(image.sectionHeaders, image.sections, names)
      requires Listing(entries, log, image.accessError) == ListNames(t, i, prior, log0)
      modifies image`accessError, this`log
      ensures Listing(entries', log, image.accessError) == ListNames(t, i + 1, prior, log0)
    {
      if ordinals[i] >= |functions| {
        log := log + [Warning];
        entries' := entries;
      } else {
        var e := ListEntry(functions, names, ordinals, base, t, i);
        entries' := entries + [e];
      }
    }

    /** The line of a listed name `i`, its string read from the image, logged as a note. */
    method ListEntry(functions: seq<Dword>, names: seq<Dword>, ordinals: seq<Dword>, base: Dword, ghost t: Tables, i: nat)
      returns (e: ExportEntry)
      requires image.Valid() && |names| <= |ordinals| && i < |names|
      requires t.functions == functions && t.ordinals == ordinals && t.base == base
      requires t.strings == NameStrings(image.sectionHeaders, image.sections, names)
      requires t.faults == NameFaults(image.sectionHeaders, image.sections, names)
      requires ordinals[i] < |functions|
      modifies image`accessError, this`log
      ensures WellSized(t) && i < |t.strings| && Listed(t, i)
      ensures e == EntryAt(t, i)
      ensures image.accessError == (old(image.accessError) || t.faults[i])
      ensures log == old(log) + [Note]
    {
      var ordinal, rva := Wrap32(ordinals[i] + base), functions[ordinals[i]];
      var name := GetString(names[i]);
      EntryAtOf(t, functions, ordinals, base, i, name);
      e := ExportEntry(i + 1, ordinal, rva, name);
      log := log + [Note];
    }
  }
}
