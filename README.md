# PE preparator, modelled in Dafny

This project models `PEPreparator`, a reader for Portable Executable files.
The reader works through a fixed chain of stages over the bytes of the file:

1. It loads the 64-byte DOS header, checks its "MZ" magic and PE offset, and restores a bad PE offset by scanning the file for "PE".
2. It loads the DOS stub and then the 248-byte PE header: the signature, the COFF file header, and the optional header with its 16 data directories.
3. It checks the PE header.
4. It reads the section table that follows the PE header and builds the *virtual image*: one buffer per section, zero-padded to the section's `virtualSize`, addressed by RVA through the first section that contains it.
5. It locates the export directory through data directory 0.
6. Separately from that chain, `printExportTable` reads the function, name and ordinal arrays through typed image iterators, then lists every name whose ordinal indexes the function array.

Every stage writes diagnostic lines ("note: ", "warning: ", "error: ") to a log. The model keeps the severity of each line and leaves out the text.

The project has these modules:

- `PeBytes` (`bytes.dfy`): `Byte`/`Word`/`Dword`; 32-bit wrap-around (`Wrap32`, `RvaPlus`); the `static_cast<int>` of an `unsigned` (`ToInt32`); little-endian encoding; `vector::resize`; writing a read over a buffer (`Overlay`).
- `PeLayout` (`layout.dfy`): the packed structures as datatypes that keep every byte, filler included. Each has a decoder and an encoder, with round trips proved in both directions. The layouts follow the Microsoft PE/COFF Specification, sections 3.1, 3.3, 3.4.3, 4 and 6.3.1.
- `ByteSource` (`byte_source.dfy`): the file as an immutable byte sequence. One `seekg` + `read` delivers the part of `[pos, pos + size)` that exists; it succeeds iff all `size` bytes arrive.
- `Diagnostics` (`diagnostics.dfy`): the log as a sequence of severities.
- `HeaderChecks` (`header_checks.dfy`): the DOS and PE header checks, the PE-offset scan and the stub range, as functions of the file.
- `VirtualImage` (`image.dfy`):
  - RVA translation, `Image::read` and typed element reads as functions, and C strings.
  - The `Image` class: section headers, section buffers and the fault flag, updated in place.
  - The `Iterator` class: a cursor and its element buffer.
  - `CollectRange`: the `std::vector` range constructor over two iterators.
- `ImageLoading` (`image_loading.dfy`): what `loadImage` puts into the image, as functions of the file.
- `ExportTable` (`export_table.dfy`): the three export arrays and the fault check after them.
- `ExportListing` (`listing.dfy`): the listing loop of `printExportTable` as a function over the arrays, with its order, soundness, completeness and fault properties.
- `Preparation` (`preparation.dfy`): every stage of `prepare` as a function from the state, and their short-circuit composition. It also characterises, from the file alone, when the chain succeeds and what it leaves.
- `Preparator` (`preparator.dfy`): the `PEPreparator` class. Its methods change its fields as the source does, and each stage method is proved equal to its stage function.

On these points the code does something easy to misread, and the model follows the code:

- **The PE scan** consumes the bytes after a 'P' in pairs, so it misses a "PE" right after another 'P' (`ScanMissesHitAfterP`).
- **Section reads** read `virtualSize` bytes from `pointerToRawData`, not `min(sizeofRawData, virtualSize)`.
- **The export-array check.** `Image::read` clears the fault flag on every call. So the check after the three arrays sees only the last element read (`ArraysFaultIsLastRead`). A faulting array does not always fail the table.
- **A zero export-directory RVA** is not informational: `loadDirectory` returns false there, so `prepare` fails.
- **Range lengths.** An iterator range of `n` elements of width `w` holds `n mod (2^32 / w)` elements, because the end position is computed modulo 2^32.

`Prepare` is the method whose result and final state are those of `Prepared`. About `Prepared`:

- `PreparedIff` says success depends on the file alone.
- `PreparedImage` says what a successful run leaves in the image and the export directory.
- `PreparedFailureIsLogged` says a failed run ends its log with an error, or with a note when the export directory is missing.

## Model

| member | source | states |
|---|---|---|
| PeBytes.ToInt32 | PEPreparator.cpp:101 | `static_cast<int>` of an `unsigned`: the result is in the `int` range, is congruent to the input modulo 2^32, and is non-negative iff the input is below 2^31 |
| PeBytes.Resize | PEPreparator.cpp:127-128 | `vector::resize(n, fill)`: the result has `n` elements; each is the old element where there was one, else `fill` |
| PeBytes.DwordRoundTrip | PEPreparator.hpp:16 | decoding the little-endian bytes of a Dword gives the Dword back |
| PeBytes.DwordBytesRoundTrip | PEPreparator.hpp:16 | encoding the Dword read at an offset gives back the four bytes there |
| PeLayout.DOSHeaderRoundTrip | PEPreparator.hpp:37-53 | decoding the 64 encoded bytes of a DOS header (magic at 0, PE offset at 60) gives the header back |
| PeLayout.DOSHeaderBytesRoundTrip | PEPreparator.hpp:37-53 | encoding the header decoded from 64 bytes gives those bytes back |
| PeLayout.DOSMagicIsCorrect | PEPreparator.cpp:50-57 | the magic is correct iff the first two bytes of the header are 'M', 'Z' |
| PeLayout.NTFileHeaderRoundTrip | PEPreparator.hpp:62-73 | the 20-byte file header decodes from its encoding (`numofSections` at 2, `sizeofOptionalHeader` at 16) |
| PeLayout.NTFileHeaderBytesRoundTrip | PEPreparator.hpp:62-73 | every 20 bytes are the encoding of the header decoded from them |
| PeLayout.DirectoriesRoundTrip | PEPreparator.hpp:75-79 | a table of 8-byte `{rva, size}` entries decodes from its encoding |
| PeLayout.DirectoriesBytesRoundTrip | PEPreparator.hpp:75-79 | a byte string of whole entries is the encoding of the table decoded from it |
| PeLayout.DirectoryRvaInTable | PEPreparator.hpp:101 | the RVA of entry `k` is the Dword at byte `8k` of the encoded table |
| PeLayout.NTOptionalHeaderRoundTrip | PEPreparator.hpp:81-102 | the 224-byte optional header (entry point RVA at 16, image base at 28, directories from 96) decodes from its encoding |
| PeLayout.NTOptionalHeaderBytesRoundTrip | PEPreparator.hpp:81-102 | every 224 bytes are the encoding of the optional header decoded from them |
| PeLayout.DirectoryRva | PEPreparator.cpp:39-43 | for an index below 16, the RVA of data directory `index` is the Dword at byte `96 + 8 * index` of the optional header |
| PeLayout.PEHeaderSize | PEPreparator.cpp:45-48 | the PE header is 4 + 20 + 224 = 248 bytes |
| PeLayout.PEHeaderRoundTrip | PEPreparator.hpp:104-119 | the PE header decodes from its encoding |
| PeLayout.PEHeaderBytesRoundTrip | PEPreparator.hpp:104-119 | every 248 bytes are the encoding of the PE header decoded from them |
| PeLayout.PEMagicIsCorrect | PEPreparator.cpp:59-68 | the signature is correct iff the header starts with 'P', 'E', 0, 0 |
| PeLayout.SectionHeaderRoundTrip | PEPreparator.hpp:121-139 | the 40-byte section header (`virtualSize` at 8, `rva` at 12, `sizeofRawData` at 16, `pointerToRawData` at 20) decodes from its encoding |
| PeLayout.SectionHeaderBytesRoundTrip | PEPreparator.hpp:121-139 | every 40 bytes are the encoding of the section header decoded from them |
| PeLayout.SectionTableRoundTrip | PEPreparator.cpp:136-139 | the contiguous section-header array decodes from its bytes |
| PeLayout.SectionTableBytesRoundTrip | PEPreparator.cpp:136-139 | a byte string of whole headers is the encoding of the table decoded from it |
| PeLayout.ExportDirectoryRoundTrip | PEPreparator.hpp:141-160 | the 40-byte export directory (`ordinalsBase` at 16 through `ordinalsRva` at 36) decodes from its encoding |
| PeLayout.ExportDirectoryBytesRoundTrip | PEPreparator.hpp:141-160 | every 40 bytes are the encoding of the export directory decoded from them |
| ByteSource.FileRead | PEPreparator.cpp:72-74 | a positioned read delivers at most `size` bytes. They are the file's bytes from `pos`, and they fall short only at the end of the file or for a negative position |
| ByteSource.ReadSucceedsIff | PEPreparator.cpp:75 | a read succeeds iff `size` is 0, or `pos` is non-negative and `[pos, pos + size)` lies inside the file |
| ByteSource.SuccessfulRead | PEPreparator.cpp:70-81 | a successful read of a positive size delivers exactly `file[pos..pos + size]` |
| ByteSource.OverlayOfSuccessfulRead | PEPreparator.cpp:74 | a successful read into a buffer of its own size replaces the whole buffer with the file bytes |
| ByteSource.FullReadOverlay | PEPreparator.cpp:74 | a read that delivers all `size` bytes overwrites a destination of that size completely, whatever it held |
| HeaderChecks.DOSCheckLog | PEPreparator.cpp:216-226 | `checkDOSHeader` appends only warnings, one for a magic other than "MZ" and one for a PE offset not below the file size, so none iff both checks pass |
| HeaderChecks.ScanResultIsHit | PEPreparator.cpp:302-311 | the scan returns either the result it started with or the position of a "PE" it read |
| HeaderChecks.ScanWithoutHit | PEPreparator.cpp:302-312 | with no "PE" in the file, the scan leaves the result it started with (0) |
| HeaderChecks.ScanFindsHit | PEPreparator.cpp:302-311 | a "PE" at a position `p` of at least 64 is the scan's result when byte `p - 1` is not a 'P' and no other "PE" at 64 or above precedes it; earlier hits inside the DOS header and other 'P' bytes do not matter |
| HeaderChecks.ScanFallsBack | PEPreparator.cpp:302-311 | with no "PE" at 64 or above, the scan's result stays below 64 |
| HeaderChecks.ScanKeepsLastHit | PEPreparator.cpp:302-312 | a "PE" at `p` below 64 with no "PE" after it is the scan's result when byte `p - 1` is not a 'P': the last hit the scan reads |
| HeaderChecks.ScanMissesHitAfterP | PEPreparator.cpp:305 | in "PPE" the scan finds nothing, although "PE" sits at position 1 |
| HeaderChecks.FoundPEOffsetRecovers | PEPreparator.cpp:294-313 | a declared offset outside the file is restored to the first "PE" at 64 or above, when no 'P' stands right before it |
| HeaderChecks.FoundPEOffsetFallsBack | PEPreparator.cpp:294-313 | a declared offset outside the file, in a file with no "PE" at 64 or above, is restored to a position below 64 |
| HeaderChecks.FoundPEOffsetKeepsLastHit | PEPreparator.cpp:294-313 | a declared offset outside the file, in a file whose last "PE" lies below 64 with no 'P' right before it, is restored to that "PE" |
| HeaderChecks.FoundPEOffsetInFile | PEPreparator.cpp:294-313 | the offset `findPEOffset` returns is inside the file, or 0 |
| HeaderChecks.StubAlwaysLoads | PEPreparator.cpp:315-333 | the stub range `[min(64, p), p)` after `findPEOffset` is always inside the file, so its read never fails; for `p > 64` the stub is `file[64..p]` |
| HeaderChecks.PELoadLog | PEPreparator.cpp:101-104 | `loadPEHeader` warns iff the PE offset, read as an `int`, is below 64 |
| HeaderChecks.PECheckTags | PEPreparator.cpp:228-253 | the entries `checkPEHeader` appends, in the order it writes them: 3 to 7 entries. There is an error iff `numofSections` is 0, and it is then the last entry. There is a warning iff the signature is wrong, the optional-header size is not 224, or the entry point is at or above 0x80000000 |
| HeaderChecks.PECheckWarnings | PEPreparator.cpp:230-246 | `checkPEHeader` writes exactly one warning for each failed check: a wrong signature, an optional-header size other than 224, an entry point at or above 0x80000000 |
| HeaderChecks.PECheckNotes | PEPreparator.cpp:240-247 | `checkPEHeader` always writes exactly three notes: the image base, the entry point and the section count |
| VirtualImage.SectionIndex | PEPreparator.cpp:168-174 | the index found is the first section whose `[rva, rva + virtualSize)` (32-bit end) contains the RVA, or the table size when none does |
| VirtualImage.MappedIff | PEPreparator.cpp:169-175 | an RVA is mapped iff some section contains it |
| VirtualImage.MappedFrom | PEPreparator.cpp:185-191 | the count of leading mapped addresses is at most `size`; when it is below `size`, the address it stops at is unmapped |
| VirtualImage.MappedFromPrefix | PEPreparator.cpp:185-191 | every address before the one the count stops at is mapped |
| VirtualImage.ReadFromAt | PEPreparator.cpp:185-190 | from any starting index, the copy loop copies the mapped run, writes 0 at the first unmapped address, and leaves the rest |
| VirtualImage.ReadResultAt | PEPreparator.cpp:182-192 | after `Image::read`, byte `j` of the buffer is the image byte at `from + j` below the count, 0 at the count when it is short, and unchanged after that |
| VirtualImage.FullReadResult | PEPreparator.cpp:182-192 | a read of a fully mapped range leaves exactly the image bytes of that range in the buffer |
| VirtualImage.ElementRvaOffset | PEPreparator.hpp:173 | after `j` increments of width `w`, the cursor is at `start + j * w` modulo 2^32 |
| VirtualImage.FaultAfterIsLast | PEPreparator.hpp:171 | since every dereference reads afresh, the flag after a run of element reads reports only the last element |
| VirtualImage.ElementsOfMappedRange | PEPreparator.hpp:170-176 | when every element is fully mapped, the iterator yields the little-endian values stored at `start + j * w`, whatever its buffer held |
| VirtualImage.ShiftedRangeLength | PEPreparator.hpp:198-200 | the range `iterator<T>(rva)` to `iterator<T>(rva, n)` is a whole number of elements and spans `n mod (2^32 / sizeof(T))` of them |
| VirtualImage.RangeStep | PEPreparator.hpp:173-175 | while the two cursors differ, one increment shortens the remaining range by one element |
| VirtualImage.CStringLength | PEPreparator.cpp:259 | the string ends at the first zero byte, which `Image::at` also returns for an unmapped address, or at the 2^31 bound |
| VirtualImage.CString | PEPreparator.cpp:255-263 | the string holds the nonzero image bytes from its RVA up to the first zero, and the byte after it is 0 |
| VirtualImage.CStringOfBytesRead | PEPreparator.cpp:259-261 | bytes read one by one up to the first zero make up exactly `CString` |
| VirtualImage.Image.constructor | PEPreparator.hpp:205-208 | a fresh image has no section headers and no sections |
| VirtualImage.Image.SetNumofSections | PEPreparator.cpp:125-129 | both tables are resized to the count, headers padded with zero headers and sections with empty buffers |
| VirtualImage.Image.WriteRawSectionHeaders | PEPreparator.cpp:136-139 | the bytes read over the header array replace its leading bytes; the table keeps its size |
| VirtualImage.Image.InitSectionSizes | PEPreparator.cpp:151-159 | every buffer is resized to its header's `virtualSize`, padded with zeros |
| VirtualImage.Image.WriteSection | PEPreparator.cpp:141-144 | the bytes read over buffer `index` replace its leading bytes; no other buffer changes |
| VirtualImage.Image.At | PEPreparator.cpp:166-180 | returns the byte of the first containing section at offset `rva - hdr.rva`, or 0. It raises the flag iff the RVA is unmapped; otherwise the flag is unchanged |
| VirtualImage.Image.Read | PEPreparator.cpp:182-192 | returns the count of leading mapped addresses; the buffer is left as `ReadResult` says; the flag is raised iff the count is short of `size` |
| VirtualImage.Image.Clear | PEPreparator.hpp:202 | clears the fault flag and nothing else |
| VirtualImage.Image.MakeIterator | PEPreparator.hpp:198 | a fresh iterator over this image at `rva` |
| VirtualImage.Image.MakeShiftedIterator | PEPreparator.hpp:200 | a fresh iterator at `rva + sizeof(T) * shift` modulo 2^32 |
| VirtualImage.Iterator.constructor | PEPreparator.hpp:170 | the iterator holds its image, its cursor and an element buffer of `sizeof(T)` bytes with arbitrary contents |
| VirtualImage.Iterator.Deref | PEPreparator.hpp:171 | one `Image::read` of `sizeof(T)` bytes at the cursor into the buffer. It returns the buffer's little-endian value and sets the flag iff that read stops short |
| VirtualImage.Iterator.Increment | PEPreparator.hpp:173 | the cursor advances by `sizeof(T)` modulo 2^32 |
| VirtualImage.CollectRange | PEPreparator.cpp:268-273 | the vector built from `[first, last)` holds the values the successive dereferences yield; the flag ends as the last read left it |
| ImageLoading.LoadedSections | PEPreparator.cpp:204-212 | after the section loop every buffer has exactly its header's `virtualSize` bytes |
| ImageLoading.SectionByte | PEPreparator.cpp:151-159 | byte `j` of a section is the file byte at `pointerToRawData + j` when the file holds it and both fields are below 2^31, and 0 otherwise |
| ImageLoading.SectionLogAt | PEPreparator.cpp:206-212 | the section loop appends one entry per section, a note if its read succeeded and an error otherwise |
| ImageLoading.SectionLogExtends | PEPreparator.cpp:198-212 | the section loop only appends to the log |
| ExportTable.OrdinalCount | PEPreparator.cpp:270-273 | there is an ordinal for every name |
| ExportTable.CountsOfSmallDirectory | PEPreparator.cpp:268-273 | below 2^30 the arrays hold exactly `numofFunctions` and `numofNames` elements |
| ExportTable.ArraysFaultIsLastRead | PEPreparator.cpp:267-277 | the check after the three arrays reports only the last element read: the last ordinal, or, with no names, the last function |
| ExportTable.MappedArrays | PEPreparator.cpp:268-277 | with all three arrays in mapped memory the check passes, and each array holds the values stored in the image |
| ExportListing.ListNames | PEPreparator.cpp:283-290 | the loop over `k` names appends `k` log entries and lists at most `k` lines |
| ExportListing.ListNamesLog | PEPreparator.cpp:283-290 | log entry `i` is a note if name `i` is listed and a warning if its ordinal does not index the function array |
| ExportListing.ListNamesSound | PEPreparator.cpp:284-289 | every listed line is the line of a listed name: position `i + 1`, ordinal plus base modulo 2^32, `functions[ordinals[i]]`, the name string |
| ExportListing.ListNamesComplete | PEPreparator.cpp:284-289 | every name whose ordinal indexes the function array has its line in the listing |
| ExportListing.ListNamesOrdered | PEPreparator.cpp:283 | the lines come in name order |
| ExportListing.ListNamesFault | PEPreparator.cpp:288-289 | the flag ends raised iff it was raised before or the string of some listed name runs into unmapped memory |
| Preparation.DOSHeaderLoaded | PEPreparator.cpp:94-97 | `loadDOSHeader` only appends to the log |
| Preparation.DOSHeaderChecked | PEPreparator.cpp:216-226 | `checkDOSHeader` only appends to the log |
| Preparation.DOSStubLoaded | PEPreparator.cpp:315-333 | `loadDOSStub` only appends to the log |
| Preparation.PEHeaderLoaded | PEPreparator.cpp:99-107 | `loadPEHeader` only appends to the log |
| Preparation.PEHeaderChecked | PEPreparator.cpp:228-253 | `checkPEHeader` only appends to the log |
| Preparation.SectionTable | PEPreparator.cpp:196-201 | the section table read over `n` resized headers has `n` headers |
| Preparation.ImageLoaded | PEPreparator.cpp:194-214 | `loadImage` only appends to the log, and on success every section buffer has its header's `virtualSize` |
| Preparation.ExportDirectoryLoaded | PEPreparator.cpp:109-123 | `loadExportDirectory` only appends to the log |
| Preparation.HeadersPrepared | PEPreparator.cpp:350-358 | the header half of `prepare` logs the file-size note, then only appends |
| Preparation.HeadersPreparedIff | PEPreparator.cpp:350-358 | the header stages pass iff the file holds both headers and the PE header declares a section; the DOS check and the stub never stop them. They then leave the file's PE offset and PE header, whatever the state held |
| Preparation.HeadersPreparedAccepted | PEPreparator.cpp:248-252 | the header stages pass only with a PE header that declares a section |
| Preparation.ImagePreparedIff | PEPreparator.cpp:109-123 | the image stages pass iff the file holds the section table after the PE header and the export directory's RVA is nonzero with all 40 bytes mapped |
| Preparation.PreparedIff | PEPreparator.cpp:350-362 | `prepare` succeeds iff the file is preparable, whatever the state it starts from |
| Preparation.HeaderLoadFailuresLogged | PEPreparator.cpp:75-78 | a failed header load appends to the log, last an error |
| Preparation.PECheckFailureLogged | PEPreparator.cpp:248-251 | a failed `checkPEHeader` appends to the log, last an error |
| Preparation.HeadersFailureIsLogged | PEPreparator.cpp:350-358 | when the header stages fail, the log has grown beyond the size note and ends with an error |
| Preparation.ImageFailureIsLogged | PEPreparator.cpp:112-115 | when the image stages fail, the log ends with an error, or with a note when the export RVA is 0 |
| Preparation.PreparedFailureIsLogged | PEPreparator.cpp:350-362 | a failed `prepare` ends its log with an error, or with a note when the export directory's RVA is 0 |
| Preparation.PreparedImage | PEPreparator.cpp:350-362 | after a successful `prepare` every section buffer has its `virtualSize`, the flag is down, and the export directory holds the image's 40 bytes at its RVA |
| Preparator.PEPreparator.constructor | PEPreparator.cpp:7-13 | the preparator starts with an empty log, zeroed headers and an empty image |
| Preparator.PEPreparator.Prepare | PEPreparator.cpp:350-362 | the result and the new state are those of `Prepared` |
| Preparator.PEPreparator.PrepareHeaders | PEPreparator.cpp:352-358 | the result and the new state are those of `HeadersPrepared` |
| Preparator.PEPreparator.LoadFromFile | PEPreparator.cpp:70-81 | delivers the bytes of `FileRead`; succeeds iff all arrived; logs an error otherwise |
| Preparator.PEPreparator.LoadFromImage | PEPreparator.cpp:83-92 | one image read over `dst`. It succeeds iff all `size` bytes are mapped, the flag is raised iff it does not, and an error is logged on a short read |
| Preparator.PEPreparator.LoadDOSHeader | PEPreparator.cpp:94-97 | the first 64 file bytes over the DOS header; succeeds iff the file holds them |
| Preparator.PEPreparator.CheckDOSHeader | PEPreparator.cpp:216-226 | always passes, only warns |
| Preparator.PEPreparator.FindPEOffset | PEPreparator.cpp:294-313 | the loop leaves `FoundPEOffset` in the DOS header, returns it as an `int`, and warns iff it restores |
| Preparator.PEPreparator.LoadDOSStub | PEPreparator.cpp:315-333 | the stub is the file range `[min(64, p), p)` read over the resized stub, and the load always passes |
| Preparator.PEPreparator.LoadPEHeader | PEPreparator.cpp:99-107 | 248 bytes at the PE offset (an `int`) over the PE header; succeeds iff the file holds them |
| Preparator.PEPreparator.CheckPEHeader | PEPreparator.cpp:228-253 | passes iff the header declares a section; the log is that of `PEHeaderChecked` |
| Preparator.PEPreparator.LoadImage | PEPreparator.cpp:194-203 | the section table at `peOffset + 248` over the resized table. It succeeds iff that read does, a failure leaves the sections resized but unloaded, and success loads them all |
| Preparator.PEPreparator.LoadSections | PEPreparator.cpp:204-212 | every buffer becomes its `LoadedSection`, and one entry is logged per section |
| Preparator.PEPreparator.LoadSection | PEPreparator.cpp:207-211 | only buffer `i` changes; a note is logged if its read succeeded, an error if not |
| Preparator.PEPreparator.LoadDirectory | PEPreparator.cpp:109-117 | with RVA 0: fails with a note and touches neither the image nor the buffer. Otherwise it is one image read, succeeding iff all bytes are mapped |
| Preparator.PEPreparator.LoadExportDirectory | PEPreparator.cpp:119-123 | `loadDirectory(0, 40)` over the export directory |
| Preparator.PEPreparator.GetString | PEPreparator.cpp:255-263 | returns `CString`; the flag is raised iff it was, or the string ends on an unmapped byte |
| Preparator.PEPreparator.PrintExportTable | PEPreparator.cpp:265-292 | passes iff the check after the three arrays passes (a failure logs an error and lists nothing). On success it lists what `ListNames` lists, with its log and fault flag |
| Preparator.PEPreparator.ReadArray | PEPreparator.cpp:268-273 | the array holds `RangeCount(n, w)` elements as the iterator reads them; the flag is that of the last read |
| Preparator.PEPreparator.ListExports | PEPreparator.cpp:283-290 | the listing, log and flag after the loop are those of `ListNames` |
| Preparator.PEPreparator.ListName | PEPreparator.cpp:284-289 | one round takes `ListNames` over `i` names to `i + 1` names |
| Preparator.PEPreparator.ListEntry | PEPreparator.cpp:288-289 | the entry is `EntryAt(t, i)`; the flag picks up that name's fault; a note is logged |

## Left out

- The log text, the hex formatting and the section names that feed only into log lines (`nameOfSectionAt`, `error()`, `warning()`, `note()`): the log is modelled as one severity per line.
- `std::istream` state (`clear`, `seekg`, `tellg`, `gcount`): every read is a pure function of the file, the position and the size, which is what the stream does after its `clear()`. The constructor's measurement of the file size is `|file|`.
- `main.cpp`: argument handling, opening the file and the exit code.
- `reinterpret_cast` overlays, `#pragma pack`, `memset` and the `sizeof` asserts: each structure is decoded from and encoded to its bytes explicitly.
- `Iterator::operator++(int)` and `operator->` are not used by the core. `operator!=` is the negation of `Iterator.Equals`.
- `Image::rawSectionHeaders` and `Image::sectionAt` hand out raw pointers that the file read writes through. They are modelled by `WriteRawSectionHeaders` and `WriteSection`, which take the bytes read.
- `Image::error`, `Image::sectionHeadersSizeInBytes`, `Image::rawOffsetOfSectionAt` and `Iterator::operator==` are modelled as functions without contracts of their own: `Error`, `SectionHeadersSizeInBytes`, `RawOffsetOfSectionAt` and `Equals`.
- `PrepareHeaders`, `LoadSections`, `LoadSection`, `ReadArray`, `ListExports`, `ListName` and `ListEntry` are parts of `prepare`, `loadImage` and `printExportTable` split out as methods of their own. They are not separate functions of the source.
- `printExportTable` is not part of `prepare`. It is modelled on its own and works on whatever export directory the preparator holds.
- VirtualImage.CString: stops after 2^31 bytes. Past that, the source's `int` index overflows, which is undefined behaviour.
- Preparator.PEPreparator.LoadImage: requires a nonzero section count. The source asserts it in `initSectionSizes` (PEPreparator.cpp:154), and `checkPEHeader` guarantees it before `loadImage` in `prepare`.
- Out-of-memory failures of `std::vector` for huge section sizes, and the undefined `&v[0]` of an empty section buffer: an empty read is modelled as succeeding with no bytes.
