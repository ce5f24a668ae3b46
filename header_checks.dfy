/**
 * The header stages of the preparator as functions of the file: the checks of
 * the DOS and PE headers (which diagnostics they log and whether they pass),
 * the scan that restores a PE offset the DOS header gets wrong, and the extent
 * of the DOS stub.
 */
module HeaderChecks {
  import opened PeBytes
  import opened PeLayout
  import opened ByteSource
  import opened Diagnostics

  const LETTER_P: Byte := 0x50
  const LETTER_E: Byte := 0x45

  // ---------------------------------------------------------------- the DOS header

  /**
   * `checkDOSHeader`: a warning when the "MZ" magic is missing and one when the
   * PE offset is not inside the file; it never fails.
   */
  function DOSCheckLog(log: seq<Severity>, h: DOSHeader, rawSize: nat): (r: seq<Severity>)
    ensures |log| <= |r| <= |log| + 2 && r[..|log|] == log
    ensures forall i :: |log| <= i < |r| ==> r[i] == Warning
    ensures r == log <==> DOSMagicIsCorrect(h) && h.peOffset < rawSize
    ensures |r| == |log| + (if !DOSMagicIsCorrect(h) then 1 else 0) + (if h.peOffset >= rawSize then 1 else 0)
  {
    WarnIf(WarnIf(log, !DOSMagicIsCorrect(h)), h.peOffset >= rawSize)
  }

  // ---------------------------------------------------------------- restoring the PE offset

  /** Bytes `p` and `p + 1` of the file are 'P', 'E'. */
  predicate IsHit(file: seq<Byte>, p: nat)
  {
    p + 1 < |file| && file[p] == LETTER_P && file[p + 1] == LETTER_E
  }

  /**
   * The scan loop of `findPEOffset` from file position `i`, `result` holding the
   * last hit so far. Each round reads one byte and, if it is 'P', a second one;
   * so the bytes are consumed in pairs after every 'P'. A hit at a position of at
   * least 64 (the DOS header size) ends the scan; an earlier one is recorded and
   * the scan goes on. The position is computed as `tellg() - 2` in 32-bit unsigned
   * arithmetic.
   */
  function ScanFrom(file: seq<Byte>, i: nat, result: Dword): Dword
    decreases |file| - i
  {
    if i >= |file| then result
    else if file[i] != LETTER_P then ScanFrom(file, i + 1, result)
    else if i + 1 >= |file| then result
    else if file[i + 1] != LETTER_E then ScanFrom(file, i + 2, result)
    else if Wrap32(i) >= DOS_HEADER_SIZE then Wrap32(i)
    else ScanFrom(file, i + 2, Wrap32(i))
  }

  /** The scan returns either the hit it started with or the position of a hit it read. */
  lemma {:induction false} ScanResultIsHit(file: seq<Byte>, i: nat, result: Dword)
    ensures var r := ScanFrom(file, i, result);
      r == result || exists p :: i <= p && IsHit(file, p) && r == Wrap32(p)
    decreases |file| - i
  {
    if i < |file| {
      if file[i] != LETTER_P {
        ScanResultIsHit(file, i + 1, result);
      } else if i + 1 < |file| {
        if file[i + 1] != LETTER_E {
          ScanResultIsHit(file, i + 2, result);
        } else if Wrap32(i) < DOS_HEADER_SIZE {
          ScanResultIsHit(file, i + 2, Wrap32(i));
        } else {
          assert IsHit(file, i);
        }
      }
    }
  }

  /** A file without any "PE" leaves the recorded result as it is. */
  lemma ScanWithoutHit(file: seq<Byte>, i: nat, result: Dword)
    requires forall p :: i <= p ==> !IsHit(file, p)
    ensures ScanFrom(file, i, result) == result
  {
    ScanResultIsHit(file, i, result);
  }

  /**
   * A "PE" at a position `p` of at least 64 is the result of the scan when the
   * byte before it is not a 'P' (so the pairs cannot straddle it) and no other
   * "PE" at 64 or above comes between the start of the scan and `p`. Hits below
   * 64 and stray 'P' bytes before `p - 1` do not matter.
   */
  lemma {:induction false} ScanFindsHit(file: seq<Byte>, i: nat, result: Dword, p: nat)
    requires i <= p && IsHit(file, p) && DOS_HEADER_SIZE <= p < 0x1_0000_0000
    requires p == i || file[p - 1] != LETTER_P
    requires forall q :: i <= q < p && DOS_HEADER_SIZE <= q ==> !IsHit(file, q)
    ensures ScanFrom(file, i, result) == p
    decreases p - i
  {
    if i < p {
      if file[i] != LETTER_P {
        ScanFindsHit(file, i + 1, result, p);
      } else {
        assert i + 1 < p;
        if file[i + 1] != LETTER_E {
          ScanFindsHit(file, i + 2, result, p);
        } else {
          assert IsHit(file, i) && Wrap32(i) == i;
          ScanFindsHit(file, i + 2, Wrap32(i), p);
        }
      }
    }
  }

  /**
   * With no "PE" at a position of at least 64 from the start of the scan on, the
   * result stays below 64 (`ScanKeepsLastHit` says which hit it is).
   */
  lemma {:induction false} ScanFallsBack(file: seq<Byte>, i: nat, result: Dword)
    requires result < DOS_HEADER_SIZE
    requires forall q :: i <= q && DOS_HEADER_SIZE <= q ==> !IsHit(file, q)
    ensures ScanFrom(file, i, result) < DOS_HEADER_SIZE
    decreases |file| - i
  {
    if i < |file| {
      if file[i] != LETTER_P {
        ScanFallsBack(file, i + 1, result);
      } else if i + 1 < |file| {
        if file[i + 1] != LETTER_E {
          ScanFallsBack(file, i + 2, result);
        } else {
          assert IsHit(file, i);
          assert i < DOS_HEADER_SIZE && Wrap32(i) == i;
          ScanFallsBack(file, i + 2, Wrap32(i));
        }
      }
    }
  }

  /**
   * With no "PE" after a hit `p` inside the DOS header, the scan ends with `p`:
   * the last hit it reads, provided the byte before `p` is not a 'P'.
   */
  lemma {:induction false} ScanKeepsLastHit(file: seq<Byte>, i: nat, result: Dword, p: nat)
    requires i <= p && IsHit(file, p) && p < DOS_HEADER_SIZE
    requires p == i || file[p - 1] != LETTER_P
    requires forall q :: p < q ==> !IsHit(file, q)
    ensures ScanFrom(file, i, result) == p
    decreases p - i
  {
    if i == p {
      assert Wrap32(p) == p;
      ScanWithoutHit(file, p + 2, p);
    } else if file[i] != LETTER_P {
      ScanKeepsLastHit(file, i + 1, result, p);
    } else {
      assert i + 1 < p;
      if file[i + 1] != LETTER_E {
        ScanKeepsLastHit(file, i + 2, result, p);
      } else {
        assert Wrap32(i) == i;
        ScanKeepsLastHit(file, i + 2, Wrap32(i), p);
      }
    }
  }

  /**
   * Because the bytes after a 'P' are consumed in pairs, a "PE" preceded by
   * another 'P' is not seen: in "PPE" the scan reads "PP", then "E", and ends
   * without a hit, although "PE" sits at position 1.
   */
  lemma ScanMissesHitAfterP()
    ensures var file := [LETTER_P, LETTER_P, LETTER_E];
      IsHit(file, 1) && ScanFrom(file, 0, 0) == 0
  {
    var file := [LETTER_P, LETTER_P, LETTER_E];
    assert ScanFrom(file, 2, 0) == ScanFrom(file, 3, 0) == 0;
  }

  /**
   * `findPEOffset`: the offset the DOS header declares when it lies inside the
   * file, otherwise the restored one (0 when the scan finds nothing).
   */
  function FoundPEOffset(file: seq<Byte>, declared: Dword): Dword
  {
    if declared < |file| then declared else ScanFrom(file, 0, 0)
  }

  /** `findPEOffset` warns exactly when it has to restore the offset. */
  function FindPEOffsetLog(log: seq<Severity>, file: seq<Byte>, declared: Dword): (r: seq<Severity>)
    ensures r == log || r == log + [Warning]
    ensures r == log <==> declared < |file|
  {
    WarnIf(log, declared >= |file|)
  }

  /**
   * When the declared offset is outside the file, `findPEOffset` restores it to
   * the first "PE" at a position of at least 64, provided no 'P' stands right
   * before that "PE".
   */
  lemma FoundPEOffsetRecovers(file: seq<Byte>, declared: Dword, p: nat)
    requires |file| <= declared
    requires IsHit(file, p) && DOS_HEADER_SIZE <= p < 0x1_0000_0000 && file[p - 1] != LETTER_P
    requires forall q :: DOS_HEADER_SIZE <= q < p ==> !IsHit(file, q)
    ensures FoundPEOffset(file, declared) == p
  {
    ScanFindsHit(file, 0, 0, p);
  }

  /**
   * When the declared offset is outside the file and no "PE" sits at 64 or
   * above, `findPEOffset` returns a position inside the DOS header: the last
   * "PE" there, or 0.
   */
  lemma FoundPEOffsetFallsBack(file: seq<Byte>, declared: Dword)
    requires |file| <= declared
    requires forall q :: DOS_HEADER_SIZE <= q ==> !IsHit(file, q)
    ensures FoundPEOffset(file, declared) < DOS_HEADER_SIZE
  {
    ScanFallsBack(file, 0, 0);
  }

  /**
   * When the declared offset is outside the file and the last "PE" of the file
   * lies inside the DOS header, with no 'P' right before it, `findPEOffset`
   * returns that "PE".
   */
  lemma FoundPEOffsetKeepsLastHit(file: seq<Byte>, declared: Dword, p: nat)
    requires |file| <= declared
    requires IsHit(file, p) && p < DOS_HEADER_SIZE && (p == 0 || file[p - 1] != LETTER_P)
    requires forall q :: p < q ==> !IsHit(file, q)
    ensures FoundPEOffset(file, declared) == p
  {
    ScanKeepsLastHit(file, 0, 0, p);
  }

  /** The offset `findPEOffset` returns is inside the file, or 0. */
  lemma FoundPEOffsetInFile(file: seq<Byte>, declared: Dword)
    ensures var p := FoundPEOffset(file, declared); p < |file| || p == 0
  {
    if declared >= |file| {
      ScanResultIsHit(file, 0, 0);
    }
  }

  // ---------------------------------------------------------------- the DOS stub

  /** `loadDOSStub`: the stub starts at `min(64, p)` ... */
  function StubOffset(p: int): int
  {
    if DOS_HEADER_SIZE <= p then DOS_HEADER_SIZE else p
  }

  /** ... and extends up to the PE offset `p`. */
  function StubSize(p: int): nat
  {
    p - StubOffset(p)
  }

  /**
   * The DOS stub read never fails after `findPEOffset`: it covers the bytes
   * between the DOS header and the PE header, which are inside the file, or
   * nothing at all.
   */
  lemma StubAlwaysLoads(file: seq<Byte>, declared: Dword)
    ensures var p := ToInt32(FoundPEOffset(file, declared));
      ReadSucceeds(file, StubOffset(p), StubSize(p))
    ensures var p := ToInt32(FoundPEOffset(file, declared));
      p > DOS_HEADER_SIZE ==> FileRead(file, StubOffset(p), StubSize(p)) == file[DOS_HEADER_SIZE..p]
  {
    FoundPEOffsetInFile(file, declared);
  }

  // ---------------------------------------------------------------- the PE header

  /** `loadPEHeader` warns when the PE offset, read as an `int`, lies inside the DOS header. */
  function PELoadLog(log: seq<Severity>, peOffset: Dword): (r: seq<Severity>)
    ensures r == log || r == log + [Warning]
    ensures r == log <==> DOS_HEADER_SIZE <= peOffset < 0x8000_0000
  {
    WarnIf(log, ToInt32(peOffset) < DOS_HEADER_SIZE)
  }

  /**
   * The entry point address: image base plus entry point RVA. Both are 32-bit
   * unsigned, so the sum wraps modulo 2^32 before it is widened to `size_t`.
   */
  function EntryPointAddress(h: PEHeader): Dword
  {
    Wrap32(h.snd.imageBase + h.snd.entryPointRva)
  }

  /** `checkPEHeader` passes iff the file header declares at least one section. */
  predicate PEHeaderAccepted(h: PEHeader)
  {
    h.fst.numofSections != 0
  }

  /**
   * What `checkPEHeader` writes: warnings for a wrong signature, an optional-header
   * size other than 224 and an entry point at or above 0x80000000, notes for the
   * image base, the entry point and the section count, and an error iff there are
   * no sections.
   */
  function PECheckTags(h: PEHeader): (t: seq<Severity>)
    ensures 3 <= |t| <= 7
    ensures Error in t <==> !PEHeaderAccepted(h)
    ensures !PEHeaderAccepted(h) ==> t[|t| - 1] == Error
    ensures Warning in t <==>
      !PEMagicIsCorrect(h) || h.fst.sizeofOptionalHeader != OPTIONAL_HEADER_SIZE
        || EntryPointAddress(h) >= 0x8000_0000
  {
    CheckTagsShape(!PEMagicIsCorrect(h), h.fst.sizeofOptionalHeader != OPTIONAL_HEADER_SIZE,
      EntryPointAddress(h) >= 0x8000_0000, PEHeaderAccepted(h));
    CheckTags(!PEMagicIsCorrect(h), h.fst.sizeofOptionalHeader != OPTIONAL_HEADER_SIZE,
      EntryPointAddress(h) >= 0x8000_0000, PEHeaderAccepted(h))
  }

  /** `checkPEHeader` writes one warning for each check that fails ... */
  lemma PECheckWarnings(h: PEHeader)
    ensures multiset(PECheckTags(h))[Warning] ==
      (if !PEMagicIsCorrect(h) then 1 else 0) + (if h.fst.sizeofOptionalHeader != OPTIONAL_HEADER_SIZE then 1 else 0)
        + (if EntryPointAddress(h) >= 0x8000_0000 then 1 else 0)
  {
    CheckTagsWarnings(!PEMagicIsCorrect(h), h.fst.sizeofOptionalHeader != OPTIONAL_HEADER_SIZE,
      EntryPointAddress(h) >= 0x8000_0000, PEHeaderAccepted(h));
  }

  /** ... and always exactly three notes. */
  lemma PECheckNotes(h: PEHeader)
    ensures multiset(PECheckTags(h))[Note] == 3
  {
    CheckTagsNotes(!PEMagicIsCorrect(h), h.fst.sizeofOptionalHeader != OPTIONAL_HEADER_SIZE,
      EntryPointAddress(h) >= 0x8000_0000, PEHeaderAccepted(h));
  }

  /**
   * The entries of `checkPEHeader` for the outcomes of its four checks: a
   * warning per failed check, the three notes, and the error iff not accepted.
   */
  function CheckTags(badMagic: bool, badSize: bool, highEntry: bool, accepted: bool): seq<Severity>
  {
    Warn(badMagic) + Warn(badSize) + [Note, Note] + Warn(highEntry) + [Note] + (if accepted then [] else [Error])
  }

  /** Writing the lines of `checkPEHeader` one by one appends `CheckTags`. */
  lemma CheckTagsAppend(log: seq<Severity>, badMagic: bool, badSize: bool, highEntry: bool, accepted: bool)
    ensures ErrorUnless(WarnIf(WarnIf(WarnIf(log, badMagic), badSize) + [Note, Note], highEntry) + [Note], accepted)
      == log + CheckTags(badMagic, badSize, highEntry, accepted)
  {
    var w1, w2, w3 := Warn(badMagic), Warn(badSize), Warn(highEntry);
    assert log + [] == log && [] + w1 == w1;
    WarnIfAppends(log, [], badMagic);
    WarnIfAppends(log, w1, badSize);
    AppendAppends(log, w1 + w2, [Note, Note]);
    WarnIfAppends(log, w1 + w2 + [Note, Note], highEntry);
    AppendAppends(log, w1 + w2 + [Note, Note] + w3, [Note]);
    AppendAppends(log, w1 + w2 + [Note, Note] + w3 + [Note], if accepted then [] else [Error]);
  }

  /** `CheckTags` ends with the error iff not accepted, and holds a warning iff some check fails ... */
  lemma CheckTagsShape(badMagic: bool, badSize: bool, highEntry: bool, accepted: bool)
    ensures var t := CheckTags(badMagic, badSize, highEntry, accepted);
      && 3 <= |t| <= 7
      && (Error in t <==> !accepted)
      && (!accepted ==> t[|t| - 1] == Error)
      && (Warning in t <==> badMagic || badSize || highEntry)
  {
  }

  /** ... one warning per failed check ... */
  lemma CheckTagsWarnings(badMagic: bool, badSize: bool, highEntry: bool, accepted: bool)
    ensures multiset(CheckTags(badMagic, badSize, highEntry, accepted))[Warning]
      == WarnCount(badMagic) + WarnCount(badSize) + WarnCount(highEntry)
  {
  }

  /** ... and always three notes. */
  lemma CheckTagsNotes(badMagic: bool, badSize: bool, highEntry: bool, accepted: bool)
    ensures multiset(CheckTags(badMagic, badSize, highEntry, accepted))[Note] == 3
  {
  }
}
