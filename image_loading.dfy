/**
 * What `loadImage` puts into the image, as functions of the file: the section
 * table read right after the PE header, and each section buffer, sized to the
 * section's `virtualSize` and filled from `pointerToRawData` as far as the file
 * reaches.
 */
module ImageLoading {
  import opened PeBytes
  import opened PeLayout
  import opened ByteSource
  import opened Diagnostics

  /** The section table starts right after the PE header; the `int` offset is the `unsigned` sum reinterpreted. */
  function SectionTableOffset(peOffset: Dword): int
  {
    ToInt32(Wrap32(peOffset + PEHeaderSize()))
  }

  /**
   * A section buffer `s` (already `virtualSize` bytes) after the read of
   * `virtualSize` bytes, as an `int`, from `pointerToRawData`, as an `int`.
   */
  function LoadedSection(file: seq<Byte>, h: SectionHeader, s: seq<Byte>): (r: seq<Byte>)
    requires |s| == h.virtualSize
    ensures |r| == h.virtualSize
  {
    Overlay(s, FileRead(file, ToInt32(h.pointerToRawData), ToInt32(h.virtualSize)))
  }

  /** Every section buffer of `s0`, resized with zeros to its `virtualSize`, then loaded. */
  function LoadedSections(file: seq<Byte>, hs: seq<SectionHeader>, s0: seq<seq<Byte>>): (ss: seq<seq<Byte>>)
    requires |s0| == |hs|
    ensures |ss| == |hs|
    ensures forall j :: 0 <= j < |hs| ==> |ss[j]| == hs[j].virtualSize
  {
    seq(|hs|, j requires 0 <= j < |hs| => LoadedSection(file, hs[j], Resize(s0[j], hs[j].virtualSize, 0)))
  }

  /** The buffers of `s1` with the first `i` of them loaded, as the section loop leaves them after `i` rounds. */
  function PartlyLoaded(file: seq<Byte>, hs: seq<SectionHeader>, s1: seq<seq<Byte>>, i: nat): (ss: seq<seq<Byte>>)
    requires |s1| == |hs| && forall j :: 0 <= j < |hs| ==> |s1[j]| == hs[j].virtualSize
    ensures |ss| == |hs|
  {
    seq(|hs|, j requires 0 <= j < |hs| => if j < i then LoadedSection(file, hs[j], s1[j]) else s1[j])
  }

  /** One more round loads buffer `i`. */
  lemma PartlyLoadedStep(file: seq<Byte>, hs: seq<SectionHeader>, s1: seq<seq<Byte>>, i: nat)
    requires |s1| == |hs| && forall j :: 0 <= j < |hs| ==> |s1[j]| == hs[j].virtualSize
    requires i < |hs|
    ensures PartlyLoaded(file, hs, s1, i)[i] == s1[i]
    ensures PartlyLoaded(file, hs, s1, i)[i := LoadedSection(file, hs[i], s1[i])] == PartlyLoaded(file, hs, s1, i + 1)
  {
  }

  /** After all rounds over buffers resized from `s0`, every section is loaded. */
  lemma FullyLoaded(file: seq<Byte>, hs: seq<SectionHeader>, s0: seq<seq<Byte>>, s1: seq<seq<Byte>>)
    requires |s0| == |s1| == |hs| && forall j :: 0 <= j < |hs| ==> |s1[j]| == hs[j].virtualSize
    requires forall j :: 0 <= j < |hs| ==> s1[j] == Resize(s0[j], hs[j].virtualSize, 0)
    ensures PartlyLoaded(file, hs, s1, |hs|) == LoadedSections(file, hs, s0)
  {
  }

  /** Whether the read of section `h` delivers all its bytes. */
  predicate SectionLoads(file: seq<Byte>, h: SectionHeader)
  {
    ReadSucceeds(file, ToInt32(h.pointerToRawData), ToInt32(h.virtualSize))
  }

  /** The log after the section loop over the first `k` sections: a note per loaded section, an error per failed one. */
  function SectionLog(log: seq<Severity>, file: seq<Byte>, hs: seq<SectionHeader>, k: nat): (r: seq<Severity>)
    requires k <= |hs|
    ensures |r| == |log| + k
  {
    if k == 0 then log
    else SectionLog(log, file, hs, k - 1) + [if SectionLoads(file, hs[k - 1]) then Note else Error]
  }

  lemma {:induction false} SectionLogAt(log: seq<Severity>, file: seq<Byte>, hs: seq<SectionHeader>, k: nat)
    requires k <= |hs|
    ensures var r := SectionLog(log, file, hs, k);
      && r[..|log|] == log
      && forall j :: 0 <= j < k ==> r[|log| + j] == if SectionLoads(file, hs[j]) then Note else Error
  {
    if k > 0 {
      SectionLogAt(log, file, hs, k - 1);
    }
  }

  /** The section loop only appends to the log. */
  lemma {:induction false} SectionLogExtends(log: seq<Severity>, first: Severity, file: seq<Byte>, hs: seq<SectionHeader>, k: nat)
    requires k <= |hs|
    ensures log <= SectionLog(log + [first], file, hs, k)
  {
    if k > 0 {
      SectionLogExtends(log, first, file, hs, k - 1);
    }
  }

  /**
   * Byte `j` of a section loaded into a fresh (zero-filled) buffer: the file byte
   * at `pointerToRawData + j` when the file holds it and both fields are below
   * 2^31, and 0 otherwise.
   */
  lemma SectionByte(file: seq<Byte>, h: SectionHeader, j: nat)
    requires j < h.virtualSize
    ensures LoadedSection(file, h, Resize([], h.virtualSize, 0))[j] ==
      if h.pointerToRawData < 0x8000_0000 && h.virtualSize < 0x8000_0000 && h.pointerToRawData + j < |file|
      then file[h.pointerToRawData + j] else 0
  {
    var got := FileRead(file, ToInt32(h.pointerToRawData), ToInt32(h.virtualSize));
    var z := Resize([], h.virtualSize, 0);
    assert LoadedSection(file, h, z)[j] == if j < |got| then got[j] else z[j];
  }
}
