/**
 * The `prepare` chain as a function of the file and the preparator's state:
 * one function per stage (what it reads, what it changes, what it logs and
 * whether it passes), and their short-circuit composition.
 */
module Preparation {
  import opened PeBytes
  import opened PeLayout
  import opened ByteSource
  import opened Diagnostics
  import opened HeaderChecks
  import opened VirtualImage
  import opened ImageLoading

  /** The preparator's state: its log, its three headers, its image and its export directory. */
  datatype State = State(log: seq<Severity>, dosHeader: DOSHeader, dosStub: seq<Byte>, peHeader: PEHeader,
                         sectionHeaders: seq<SectionHeader>, sections: seq<seq<Byte>>, accessError: bool,
                         exportDirectory: ExportDirectory)

  /** What a stage returns, and the state it leaves. */
  datatype Outcome = Outcome(ok: bool, state: State)

  // ---------------------------------------------------------------- the stages

  /** `loadDOSHeader`. */
  function DOSHeaderLoaded(file: seq<Byte>, s: State): (o: Outcome)
    ensures s.log <= o.state.log
  {
    var ok := ReadSucceeds(file, 0, DOS_HEADER_SIZE);
    Outcome(ok, s.(dosHeader := DecodeDOSHeader(Overlay(EncodeDOSHeader(s.dosHeader), FileRead(file, 0, DOS_HEADER_SIZE))),
                   log := ErrorUnless(s.log, ok)))
  }

  /** `checkDOSHeader`. */
  function DOSHeaderChecked(file: seq<Byte>, s: State): (o: Outcome)
    ensures s.log <= o.state.log
  {
    Outcome(true, s.(log := DOSCheckLog(s.log, s.dosHeader, |file|)))
  }

  /** `loadDOSStub`, with the `findPEOffset` it starts with. */
  function DOSStubLoaded(file: seq<Byte>, s: State): (o: Outcome)
    ensures s.log <= o.state.log
  {
    var d := s.dosHeader.(peOffset := FoundPEOffset(file, s.dosHeader.peOffset));
    var p := ToInt32(d.peOffset);
    var ok := ReadSucceeds(file, StubOffset(p), StubSize(p));
    Outcome(ok, s.(dosHeader := d,
                   dosStub := Overlay(Resize(s.dosStub, StubSize(p), 0), FileRead(file, StubOffset(p), StubSize(p))),
                   log := ErrorUnless(FindPEOffsetLog(s.log, file, s.dosHeader.peOffset) + [Note], ok)))
  }

  /** `loadPEHeader`. */
  function PEHeaderLoaded(file: seq<Byte>, s: State): (o: Outcome)
    ensures s.log <= o.state.log
  {
    var pos := ToInt32(s.dosHeader.peOffset);
    var ok := ReadSucceeds(file, pos, PEHeaderSize());
    Outcome(ok, s.(peHeader := DecodePEHeader(Overlay(EncodePEHeader(s.peHeader), FileRead(file, pos, PEHeaderSize()))),
                   log := ErrorUnless(PELoadLog(s.log, s.dosHeader.peOffset), ok)))
  }

  /** `checkPEHeader`. */
  function PEHeaderChecked(s: State): (o: Outcome)
    ensures s.log <= o.state.log
  {
    Outcome(PEHeaderAccepted(s.peHeader), s.(log := s.log + PECheckTags(s.peHeader)))
  }

  /** The section table `loadImage` reads over the resized table `h0`. */
  function SectionTable(file: seq<Byte>, peOffset: Dword, h0: seq<SectionHeader>, n: nat): (hs: seq<SectionHeader>)
    requires |h0| == n
    ensures |hs| == n
  {
    DecodeSectionTable(Overlay(EncodeSectionTable(h0), FileRead(file, SectionTableOffset(peOffset), SECTION_HEADER_SIZE * n)))
  }

  /** `loadImage`: on success every section buffer has its header's `virtualSize`. */
  function ImageLoaded(file: seq<Byte>, s: State): (o: Outcome)
    ensures s.log <= o.state.log
    ensures o.ok ==> Layout(o.state.sectionHeaders, o.state.sections)
  {
    var n := s.peHeader.fst.numofSections as nat;
    var hs := SectionTable(file, s.dosHeader.peOffset, Resize(s.sectionHeaders, n, ZERO_SECTION_HEADER), n);
    var s0 := Resize(s.sections, n, []);
    var ok := ReadSucceeds(file, SectionTableOffset(s.dosHeader.peOffset), SECTION_HEADER_SIZE * n);
    SectionLogExtends(s.log, Note, file, hs, n);
    if !ok then Outcome(false, s.(sectionHeaders := hs, sections := s0, log := s.log + [Note, Error]))
    else Outcome(true, s.(sectionHeaders := hs, sections := LoadedSections(file, hs, s0),
                          log := SectionLog(s.log + [Note], file, hs, n)))
  }

  /** `loadExportDirectory`. */
  function ExportDirectoryLoaded(s: State): (o: Outcome)
    requires Layout(s.sectionHeaders, s.sections)
    ensures s.log <= o.state.log
  {
    var rva := DirectoryRva(s.peHeader.snd, EXPORT_DIRECTORY_INDEX);
    if rva == 0 then Outcome(false, s.(log := s.log + [Note]))
    else
      var ok := MappedFrom(s.sectionHeaders, rva, 0, EXPORT_DIRECTORY_SIZE) == EXPORT_DIRECTORY_SIZE;
      Outcome(ok, s.(exportDirectory := DecodeExportDirectory(ReadResult(s.sectionHeaders, s.sections,
                       EncodeExportDirectory(s.exportDirectory), rva, EXPORT_DIRECTORY_SIZE)),
                     accessError := !ok, log := ErrorUnless(s.log, ok)))
  }

  /**
   * The first half of `prepare`: note the file size, then load and check the
   * headers, stopping at the first stage that fails.
   */
  function HeadersPrepared(file: seq<Byte>, s: State): (o: Outcome)
    ensures s.log + [Note] <= o.state.log
  {
    var s1 := s.(log := s.log + [Note]);
    var dos := DOSHeaderLoaded(file, s1);
    if !dos.ok then dos else
    var dosCheck := DOSHeaderChecked(file, dos.state);
    if !dosCheck.ok then dosCheck else
    var stub := DOSStubLoaded(file, dosCheck.state);
    if !stub.ok then stub else
    var pe := PEHeaderLoaded(file, stub.state);
    if !pe.ok then pe else
    PEHeaderChecked(pe.state)
  }

  /** The second half of `prepare`: load the image, then the export directory. */
  function ImagePrepared(file: seq<Byte>, s: State): (o: Outcome)
  {
    var image := ImageLoaded(file, s);
    if !image.ok then image else
    ExportDirectoryLoaded(image.state)
  }

  /** `prepare`: the header stages, then the image stages; the outcome is that of the last stage run. */
  function Prepared(file: seq<Byte>, s: State): (o: Outcome)
  {
    var headers := HeadersPrepared(file, s);
    if !headers.ok then headers else ImagePrepared(file, headers.state)
  }

  // ---------------------------------------------------------------- what the chain promises

  /** The PE offset a successful chain works with: the DOS header's, restored by the scan if need be. */
  function FilePEOffset(file: seq<Byte>): Dword
    requires ReadSucceeds(file, 0, DOS_HEADER_SIZE)
  {
    FoundPEOffset(file, DecodeDOSHeader(FileRead(file, 0, DOS_HEADER_SIZE)).peOffset)
  }

  /** The file holds a DOS header and, at the PE offset, a PE header. */
  predicate HeadersInFile(file: seq<Byte>)
  {
    ReadSucceeds(file, 0, DOS_HEADER_SIZE) && ReadSucceeds(file, ToInt32(FilePEOffset(file)), PEHeaderSize())
  }

  function FilePEHeader(file: seq<Byte>): PEHeader
    requires HeadersInFile(file)
  {
    DecodePEHeader(FileRead(file, ToInt32(FilePEOffset(file)), PEHeaderSize()))
  }

  /**
   * The header stages pass iff the file holds both headers and the PE header
   * declares a section; the DOS check and the stub never stop them. They then
   * leave the PE offset and the PE header the file holds, whatever the state
   * held before.
   */
  lemma HeadersPreparedIff(file: seq<Byte>, s: State)
    ensures HeadersPrepared(file, s).ok <==> HeadersInFile(file) && PEHeaderAccepted(FilePEHeader(file))
    ensures HeadersPrepared(file, s).ok ==>
      var t := HeadersPrepared(file, s).state;
      t.dosHeader.peOffset == FilePEOffset(file) && t.peHeader == FilePEHeader(file)
  {
    var s1 := s.(log := s.log + [Note]);
    var dos := DOSHeaderLoaded(file, s1);
    if !dos.ok {
      return;
    }
    FullReadOverlay(file, 0, DOS_HEADER_SIZE, EncodeDOSHeader(s1.dosHeader));
    var stub := DOSStubLoaded(file, DOSHeaderChecked(file, dos.state).state);
    StubAlwaysLoads(file, dos.state.dosHeader.peOffset);
    var pe := PEHeaderLoaded(file, stub.state);
    if pe.ok {
      FullReadOverlay(file, ToInt32(FilePEOffset(file)), PEHeaderSize(), EncodePEHeader(stub.state.peHeader));
    }
  }

  /**
   * The image stages pass iff the file holds the whole section table after the
   * PE header at `p`, and the export directory's RVA is nonzero with all its 40
   * bytes mapped by that table.
   */
  predicate ImageInFile(file: seq<Byte>, p: Dword, h: PEHeader)
  {
    var n := h.fst.numofSections as nat;
    && ReadSucceeds(file, SectionTableOffset(p), SECTION_HEADER_SIZE * n)
    && var hs := DecodeSectionTable(FileRead(file, SectionTableOffset(p), SECTION_HEADER_SIZE * n));
       var rva := DirectoryRva(h.snd, EXPORT_DIRECTORY_INDEX);
       rva != 0 && MappedFrom(hs, rva, 0, EXPORT_DIRECTORY_SIZE) == EXPORT_DIRECTORY_SIZE
  }

  /** The chain succeeds iff the header stages pass and the image stages pass on the file's PE header. */
  predicate FileIsPreparable(file: seq<Byte>)
  {
    && HeadersInFile(file)
    && PEHeaderAccepted(FilePEHeader(file))
    && ImageInFile(file, FilePEOffset(file), FilePEHeader(file))
  }

  /** Whether the image stages pass depends on the PE offset and PE header alone, not on the rest of the state. */
  lemma ImagePreparedIff(file: seq<Byte>, s: State)
    ensures ImagePrepared(file, s).ok <==> ImageInFile(file, s.dosHeader.peOffset, s.peHeader)
  {
    var n := s.peHeader.fst.numofSections as nat;
    var offset := SectionTableOffset(s.dosHeader.peOffset);
    var image := ImageLoaded(file, s);
    if image.ok {
      FullReadOverlay(file, offset, SECTION_HEADER_SIZE * n,
        EncodeSectionTable(Resize(s.sectionHeaders, n, ZERO_SECTION_HEADER)));
    }
  }

  /** Whether `prepare` succeeds depends on the file alone, not on the state it starts from. */
  lemma PreparedIff(file: seq<Byte>, s: State)
    ensures Prepared(file, s).ok <==> FileIsPreparable(file)
  {
    var headers := HeadersPrepared(file, s);
    HeadersPreparedIff(file, s);
    if headers.ok {
      ImagePreparedIff(file, headers.state);
      assert Prepared(file, s) == ImagePrepared(file, headers.state);
    } else {
      assert Prepared(file, s) == headers;
    }
  }

  /** The header stages pass only with a PE header that `checkPEHeader` accepts. */
  lemma HeadersPreparedAccepted(file: seq<Byte>, s: State)
    ensures var o := HeadersPrepared(file, s); o.ok ==> PEHeaderAccepted(o.state.peHeader)
  {
  }

  /** A failed stage has appended entries to the log, the last of them an error. */
  predicate FailureLogged(before: seq<Severity>, o: Outcome)
  {
    !o.ok ==> |o.state.log| > |before| && EndsWith(o.state.log, Error)
  }

  /** Each header load that fails logs an error last. */
  lemma HeaderLoadFailuresLogged(file: seq<Byte>, s: State)
    ensures FailureLogged(s.log, DOSHeaderLoaded(file, s))
    ensures FailureLogged(s.log, DOSStubLoaded(file, s))
    ensures FailureLogged(s.log, PEHeaderLoaded(file, s))
  {
  }

  /** A failed `checkPEHeader` logs an error last. */
  lemma PECheckFailureLogged(s: State)
    ensures FailureLogged(s.log, PEHeaderChecked(s))
  {
    assert PEHeaderChecked(s).state.log == s.log + PECheckTags(s.peHeader);
  }

  /** When the header stages fail, their last entry is an error. */
  lemma HeadersFailureIsLogged(file: seq<Byte>, s: State)
    requires !HeadersPrepared(file, s).ok
    ensures var log := HeadersPrepared(file, s).state.log;
      |log| > |s.log| + 1 && EndsWith(log, Error)
  {
    var s1 := s.(log := s.log + [Note]);
    var dos := DOSHeaderLoaded(file, s1);
    HeaderLoadFailuresLogged(file, s1);
    if !dos.ok {
      assert HeadersPrepared(file, s) == dos;
    } else {
      var dosCheck := DOSHeaderChecked(file, dos.state);
      var stub := DOSStubLoaded(file, dosCheck.state);
      HeaderLoadFailuresLogged(file, dosCheck.state);
      if !stub.ok {
        assert HeadersPrepared(file, s) == stub;
      } else {
        var pe := PEHeaderLoaded(file, stub.state);
        HeaderLoadFailuresLogged(file, stub.state);
        if !pe.ok {
          assert HeadersPrepared(file, s) == pe;
        } else {
          PECheckFailureLogged(pe.state);
          assert HeadersPrepared(file, s) == PEHeaderChecked(pe.state);
        }
      }
    }
  }

  /**
   * When the image stages fail, their last entry is an error, or a note when
   * the export directory is missing (RVA 0).
   */
  lemma ImageFailureIsLogged(file: seq<Byte>, s: State)
    requires !ImagePrepared(file, s).ok
    ensures var o := ImagePrepared(file, s); var log := o.state.log;
      |log| > |s.log|
      && (EndsWith(log, Error) || (EndsWith(log, Note) && DirectoryRva(o.state.peHeader.snd, EXPORT_DIRECTORY_INDEX) == 0))
  {
    var image := ImageLoaded(file, s);
    if image.ok {
      var dir := ExportDirectoryLoaded(image.state);
      if DirectoryRva(image.state.peHeader.snd, EXPORT_DIRECTORY_INDEX) == 0 {
        assert dir.state.log == image.state.log + [Note];
      } else {
        assert dir.state.log == image.state.log + [Error];
      }
    }
  }

  /**
   * A failed chain ends its log with an error, except when the export directory
   * is missing (RVA 0), which ends it with a note.
   */
  lemma PreparedFailureIsLogged(file: seq<Byte>, s: State)
    requires !Prepared(file, s).ok
    ensures var o := Prepared(file, s); var log := o.state.log;
      |log| > |s.log| + 1
      && (EndsWith(log, Error) || (EndsWith(log, Note) && DirectoryRva(o.state.peHeader.snd, EXPORT_DIRECTORY_INDEX) == 0))
  {
    var headers := HeadersPrepared(file, s);
    if !headers.ok {
      HeadersFailureIsLogged(file, s);
      assert Prepared(file, s) == headers;
    } else {
      ImageFailureIsLogged(file, headers.state);
      assert Prepared(file, s) == ImagePrepared(file, headers.state);
    }
  }

  /**
   * After a successful chain every section buffer has its header's
   * `virtualSize`, the fault flag is down, and the export directory holds the
   * image's bytes at its RVA, whatever it held before.
   */
  lemma PreparedImage(file: seq<Byte>, s: State)
    requires Prepared(file, s).ok
    ensures var t := Prepared(file, s).state;
      && Layout(t.sectionHeaders, t.sections)
      && !t.accessError
      && t.exportDirectory == DecodeExportDirectory(ImageBytes(t.sectionHeaders, t.sections,
           DirectoryRva(t.peHeader.snd, EXPORT_DIRECTORY_INDEX), EXPORT_DIRECTORY_SIZE))
  {
    var i := ImageLoaded(file, HeadersPrepared(file, s).state).state;
    FullReadResult(i.sectionHeaders, i.sections, EncodeExportDirectory(i.exportDirectory),
      DirectoryRva(i.peHeader.snd, EXPORT_DIRECTORY_INDEX));
  }
}
