/**
 * The virtual image: the section table plus one zero-padded buffer per section,
 * addressed by RVA. An RVA belongs to the first section, in table order, whose
 * range `[rva, rva + virtualSize)` holds it; the range end is computed in 32-bit
 * unsigned arithmetic, so a range that wraps past 2^32 maps nothing.
 */
module VirtualImage {
  import opened PeBytes
  import opened PeLayout

  // ---------------------------------------------------------------- RVA translation

  predicate Contains(h: SectionHeader, rva: Rva)
  {
    h.rva <= rva < RvaPlus(h.rva, h.virtualSize)
  }

  /** The first section that contains `rva`, or `|hs|` when none does. */
  function SectionIndex(hs: seq<SectionHeader>, rva: Rva): (k: nat)
    ensures k <= |hs|
    ensures k < |hs| ==> Contains(hs[k], rva)
    ensures forall j :: 0 <= j < k ==> !Contains(hs[j], rva)
  {
    if hs == [] then 0
    else if Contains(hs[0], rva) then 0
    else 1 + SectionIndex(hs[1..], rva)
  }

  predicate IsMapped(hs: seq<SectionHeader>, rva: Rva)
  {
    SectionIndex(hs, rva) < |hs|
  }

  lemma MappedIff(hs: seq<SectionHeader>, rva: Rva)
    ensures IsMapped(hs, rva) <==> exists k :: 0 <= k < |hs| && Contains(hs[k], rva)
  {
  }

  /** One buffer per section header, each exactly `virtualSize` bytes long. */
  predicate Layout(hs: seq<SectionHeader>, ss: seq<seq<Byte>>)
  {
    |ss| == |hs| && forall k :: 0 <= k < |hs| ==> |ss[k]| == hs[k].virtualSize
  }

  /** What `Image::at` returns: the byte of the first containing section, or 0. */
  function ByteAt(hs: seq<SectionHeader>, ss: seq<seq<Byte>>, rva: Rva): Byte
    requires Layout(hs, ss)
  {
    var k := SectionIndex(hs, rva);
    if k < |hs| then ss[k][rva - hs[k].rva] else 0
  }

  // ---------------------------------------------------------------- reads

  /**
   * The number of leading addresses `from + i, from + i + 1, ...` (32-bit
   * wrap-around), below `size`, that are all mapped.
   */
  function MappedFrom(hs: seq<SectionHeader>, from: Rva, i: nat, size: nat): (n: nat)
    requires i <= size
    ensures i <= n <= size
    ensures n < size ==> !IsMapped(hs, RvaPlus(from, n))
    decreases size - i
  {
    if i == size || !IsMapped(hs, RvaPlus(from, i)) then i
    else MappedFrom(hs, from, i + 1, size)
  }

  /** Every address before the one `MappedFrom` stops at is mapped. */
  lemma {:induction false} MappedFromPrefix(hs: seq<SectionHeader>, from: Rva, i: nat, size: nat)
    requires i <= size
    ensures forall j :: i <= j < MappedFrom(hs, from, i, size) ==> IsMapped(hs, RvaPlus(from, j))
    decreases size - i
  {
    if i < size && IsMapped(hs, RvaPlus(from, i)) {
      MappedFromPrefix(hs, from, i + 1, size);
    }
  }

  /**
   * The buffer `b` after the copy loop of `Image::read` has run from index `i`:
   * each mapped address is copied, the first unmapped one writes a 0 and stops.
   */
  function ReadFrom(hs: seq<SectionHeader>, ss: seq<seq<Byte>>, b: seq<Byte>, from: Rva, i: nat, size: nat): (r: seq<Byte>)
    requires Layout(hs, ss) && i <= size <= |b|
    ensures |r| == |b|
    decreases size - i
  {
    if i == size then b
    else if !IsMapped(hs, RvaPlus(from, i)) then b[i := 0]
    else ReadFrom(hs, ss, b[i := ByteAt(hs, ss, RvaPlus(from, i))], from, i + 1, size)
  }

  /** One iteration of the copy loop, whether it copies a byte or stops. */
  lemma ReadStep(hs: seq<SectionHeader>, ss: seq<seq<Byte>>, b: seq<Byte>, from: Rva, i: nat, size: nat, b': seq<Byte>)
    requires Layout(hs, ss) && i < size <= |b|
    requires b' == b[i := ByteAt(hs, ss, RvaPlus(from, i))]
    ensures IsMapped(hs, RvaPlus(from, i)) ==>
      ReadFrom(hs, ss, b', from, i + 1, size) == ReadFrom(hs, ss, b, from, i, size)
        && MappedFrom(hs, from, i + 1, size) == MappedFrom(hs, from, i, size)
    ensures !IsMapped(hs, RvaPlus(from, i)) ==>
      b' == ReadFrom(hs, ss, b, from, i, size) && MappedFrom(hs, from, i, size) == i
  {
  }

  /** The buffer `b` after `Image::read(b, from, size)`. */
  function ReadResult(hs: seq<SectionHeader>, ss: seq<seq<Byte>>, b: seq<Byte>, from: Rva, size: nat): (r: seq<Byte>)
    requires Layout(hs, ss) && size <= |b|
    ensures |r| == |b|
  {
    ReadFrom(hs, ss, b, from, 0, size)
  }

  lemma {:induction false} ReadFromAt(hs: seq<SectionHeader>, ss: seq<seq<Byte>>, b: seq<Byte>, from: Rva, i: nat, size: nat, j: nat)
    requires Layout(hs, ss) && i <= size <= |b| && j < |b|
    ensures var n := MappedFrom(hs, from, i, size);
      ReadFrom(hs, ss, b, from, i, size)[j] ==
        if i <= j < n then ByteAt(hs, ss, RvaPlus(from, j))
        else if j == n && n < size then 0
        else b[j]
    decreases size - i
  {
    if i < size && IsMapped(hs, RvaPlus(from, i)) {
      ReadFromAt(hs, ss, b[i := ByteAt(hs, ss, RvaPlus(from, i))], from, i + 1, size, j);
    }
  }

  /**
   * After `Image::read(b, from, size)`: the mapped prefix is copied, a 0 is
   * written at the first unmapped position (if any), the rest is untouched.
   */
  lemma ReadResultAt(hs: seq<SectionHeader>, ss: seq<seq<Byte>>, b: seq<Byte>, from: Rva, size: nat, j: nat)
    requires Layout(hs, ss) && size <= |b| && j < |b|
    ensures var n := MappedFrom(hs, from, 0, size);
      ReadResult(hs, ss, b, from, size)[j] ==
        if j < n then ByteAt(hs, ss, RvaPlus(from, j))
        else if j == n && n < size then 0
        else b[j]
  {
    ReadFromAt(hs, ss, b, from, 0, size, j);
  }

  /** The image bytes at `rva, rva + 1, ..., rva + size - 1` (32-bit wrap-around). */
  function ImageBytes(hs: seq<SectionHeader>, ss: seq<seq<Byte>>, rva: Rva, size: nat): (r: seq<Byte>)
    requires Layout(hs, ss)
    ensures |r| == size
  {
    seq(size, j requires 0 <= j < size => ByteAt(hs, ss, RvaPlus(rva, j)))
  }

  /** A read of a fully mapped range overwrites the whole range with the image bytes. */
  lemma FullReadResult(hs: seq<SectionHeader>, ss: seq<seq<Byte>>, b: seq<Byte>, from: Rva)
    requires Layout(hs, ss)
    requires MappedFrom(hs, from, 0, |b|) == |b|
    ensures ReadResult(hs, ss, b, from, |b|) == ImageBytes(hs, ss, from, |b|)
  {
    forall j | 0 <= j < |b|
      ensures ReadResult(hs, ss, b, from, |b|)[j] == ImageBytes(hs, ss, from, |b|)[j]
    {
      ReadResultAt(hs, ss, b, from, |b|, j);
    }
  }

  // ---------------------------------------------------------------- typed element reads

  /** The value of a `Word` (2 bytes) or `Dword` (4 bytes) held in `b`. */
  function ElementValue(b: seq<Byte>): Dword
    requires |b| == 2 || |b| == 4
  {
    if |b| == 2 then Le16(b, 0) else Le32(b, 0)
  }

  /** Whether a read of `w` bytes at `rva` stops short (and so raises the fault flag). */
  predicate ElementFaults(hs: seq<SectionHeader>, rva: Rva, w: nat)
  {
    MappedFrom(hs, rva, 0, w) < w
  }

  /** The position of element `j` of width `w` from `start`: `j` steps of `w`, each modulo 2^32. */
  function ElementRva(start: Rva, w: nat, j: nat): Rva
    decreases j
  {
    if j == 0 then start else ElementRva(RvaPlus(start, w), w, j - 1)
  }

  /** Element `j` lies at `start + j * w`, modulo 2^32. */
  lemma {:induction false} ElementRvaOffset(start: Rva, w: nat, j: nat)
    ensures ElementRva(start, w, j) == RvaPlus(start, j * w)
    decreases j
  {
    if j > 0 {
      ElementRvaOffset(RvaPlus(start, w), w, j - 1);
      RvaPlusStep(start, w, j);
    }
  }

  /**
   * The values an iterator of width `w = |buf|` yields over `k` consecutive
   * elements from `r`, its buffer holding `buf` before the first read. A faulting
   * read leaves the bytes past the fault as the previous read left them.
   */
  function Elements(hs: seq<SectionHeader>, ss: seq<seq<Byte>>, buf: seq<Byte>, r: Rva, k: nat): (v: seq<Dword>)
    requires Layout(hs, ss) && (|buf| == 2 || |buf| == 4)
    ensures |v| == k
    decreases k
  {
    if k == 0 then []
    else
      var b := ReadResult(hs, ss, buf, r, |buf|);
      [ElementValue(b)] + Elements(hs, ss, b, RvaPlus(r, |buf|), k - 1)
  }

  /** The fault flag after those `k` reads, each of which resets it; `prior` if there are none. */
  function FaultAfter(hs: seq<SectionHeader>, r: Rva, w: nat, k: nat, prior: bool): bool
    decreases k
  {
    if k == 0 then prior
    else FaultAfter(hs, RvaPlus(r, w), w, k - 1, ElementFaults(hs, r, w))
  }

  /**
   * One element read advances a run: if `v` followed by the `n` reads from `r`
   * gives `values`, then `v'` followed by the `n'` reads from `r'` does too, where
   * `x` and `b'` are what the read at `r` produced, `v' = v + [x]`, `r' = r + w`
   * and `n' = n - 1`.
   */
  lemma RunStepValues(hs: seq<SectionHeader>, ss: seq<seq<Byte>>, w: nat, b: seq<Byte>, r: Rva, n: nat, v: seq<Dword>,
                      b': seq<Byte>, r': Rva, n': nat, x: Dword, v': seq<Dword>, values: seq<Dword>)
    requires Layout(hs, ss) && (w == 2 || w == 4) && |b| == w && n > 0
    requires b' == ReadResult(hs, ss, b, r, w) && x == ElementValue(b')
    requires r' == RvaPlus(r, w) && n' == n - 1 && v' == v + [x]
    requires v + Elements(hs, ss, b, r, n) == values
    ensures |b'| == w
    ensures v' + Elements(hs, ss, b', r', n') == values
  {
    var rest := Elements(hs, ss, b', r', n');
    assert Elements(hs, ss, b, r, n) == [x] + rest;
    assert v + ([x] + rest) == (v + [x]) + rest;
  }

  /** The fault flag of a run, likewise, after its first read raised `flag'` or not. */
  lemma RunStepFault(hs: seq<SectionHeader>, w: nat, r: Rva, n: nat, flag: bool, r': Rva, n': nat, flag': bool)
    requires n > 0 && r' == RvaPlus(r, w) && n' == n - 1 && flag' == ElementFaults(hs, r, w)
    ensures FaultAfter(hs, r, w, n, flag) == FaultAfter(hs, r', w, n', flag')
  {
  }

  /** The flag after a run of element reads reports the last element only. */
  lemma {:induction false} FaultAfterIsLast(hs: seq<SectionHeader>, r: Rva, w: nat, k: nat, prior: bool)
    ensures FaultAfter(hs, r, w, k, prior) == if k == 0 then prior else ElementFaults(hs, ElementRva(r, w, k - 1), w)
    decreases k
  {
    if k > 1 {
      FaultAfterIsLast(hs, RvaPlus(r, w), w, k - 1, ElementFaults(hs, r, w));
    } else if k == 1 {
      assert ElementRva(r, w, 0) == r;
    }
  }

  /** The little-endian value of width `w` stored in the image at `rva`. */
  function ImageValue(hs: seq<SectionHeader>, ss: seq<seq<Byte>>, rva: Rva, w: nat): Dword
    requires Layout(hs, ss) && (w == 2 || w == 4)
  {
    ElementValue(ImageBytes(hs, ss, rva, w))
  }

  /** Element `j > 0` of the run from `r` is element `j - 1` of the run from `r + w`, past the first read. */
  lemma ElementsUnfold(hs: seq<SectionHeader>, ss: seq<seq<Byte>>, buf: seq<Byte>, r: Rva, w: nat, k: nat, j: nat)
    requires Layout(hs, ss) && (w == 2 || w == 4) && |buf| == w && 0 < j < k
    requires Elements(hs, ss, ReadResult(hs, ss, buf, r, w), RvaPlus(r, w), k - 1)[j - 1]
      == ImageValue(hs, ss, ElementRva(RvaPlus(r, w), w, j - 1), w)
    ensures Elements(hs, ss, buf, r, k)[j] == ImageValue(hs, ss, ElementRva(r, w, j), w)
  {
  }

  /** Element 0 of a run whose first element is fully mapped is the image value there. */
  lemma ElementsHead(hs: seq<SectionHeader>, ss: seq<seq<Byte>>, buf: seq<Byte>, r: Rva, w: nat, k: nat)
    requires Layout(hs, ss) && (w == 2 || w == 4) && |buf| == w && 0 < k
    requires !ElementFaults(hs, r, w)
    ensures Elements(hs, ss, buf, r, k)[0] == ImageValue(hs, ss, ElementRva(r, w, 0), w)
  {
    assert ElementRva(r, w, 0) == r;
    FullReadResult(hs, ss, buf, r);
  }

  /** The elements after the first of a fully mapped run form a fully mapped run. */
  lemma MappedRangeTail(hs: seq<SectionHeader>, r: Rva, w: nat, k: nat)
    requires k > 0
    requires forall j :: 0 <= j < k ==> !ElementFaults(hs, ElementRva(r, w, j), w)
    ensures forall j :: 0 <= j < k - 1 ==> !ElementFaults(hs, ElementRva(RvaPlus(r, w), w, j), w)
  {
    forall j | 0 <= j < k - 1
      ensures !ElementFaults(hs, ElementRva(RvaPlus(r, w), w, j), w)
    {
      assert !ElementFaults(hs, ElementRva(r, w, j + 1), w);
    }
  }

  /**
   * When the first `k` elements of width `w` are all fully mapped, the iterator
   * yields exactly the little-endian values stored at their positions, whatever
   * its buffer held.
   */
  lemma {:induction false} ElementsOfMappedRange(hs: seq<SectionHeader>, ss: seq<seq<Byte>>, buf: seq<Byte>, r: Rva, w: nat, k: nat)
    requires Layout(hs, ss) && (w == 2 || w == 4) && |buf| == w
    requires forall j :: 0 <= j < k ==> !ElementFaults(hs, ElementRva(r, w, j), w)
    ensures forall j :: 0 <= j < k ==> Elements(hs, ss, buf, r, k)[j] == ImageValue(hs, ss, ElementRva(r, w, j), w)
    decreases k
  {
    if k > 0 {
      var b := ReadResult(hs, ss, buf, r, w);
      MappedRangeTail(hs, r, w, k);
      ElementsOfMappedRange(hs, ss, b, RvaPlus(r, w), w, k - 1);
      forall j | 0 <= j < k
        ensures Elements(hs, ss, buf, r, k)[j] == ImageValue(hs, ss, ElementRva(r, w, j), w)
      {
        if j == 0 {
          assert ElementRva(r, w, 0) == r;
          ElementsHead(hs, ss, buf, r, w, k);
        } else {
          ElementsUnfold(hs, ss, buf, r, w, k, j);
        }
      }
    }
  }

  /** Whether the distance between two iterator positions, modulo 2^32, is a whole number of elements. */
  predicate RangeAligned(from: Rva, to: Rva, w: nat)
    requires w == 2 || w == 4
  {
    var d := Wrap32(to - from);
    if w == 2 then d % 2 == 0 else d % 4 == 0
  }

  /** The number of elements of width `w` between two iterator positions (`operator-` over `sizeof(T)`). */
  function RangeLength(from: Rva, to: Rva, w: nat): nat
    requires w == 2 || w == 4
  {
    var d := Wrap32(to - from);
    if w == 2 then d / 2 else d / 4
  }

  /** The number of elements of width `w` that `n` of them wrap to in a 32-bit address space. */
  function RangeCount(n: nat, w: nat): nat
    requires w == 2 || w == 4
  {
    if w == 2 then n % 0x8000_0000 else n % 0x4000_0000
  }

  /**
   * `iterator<T>(rva) .. iterator<T>(rva, n)` spans `n mod (2^32 / sizeof(T))`
   * elements: the end position is computed modulo 2^32.
   */
  lemma ShiftedRangeLength(rva: Rva, w: nat, n: nat)
    requires w == 2 || w == 4
    ensures RangeAligned(rva, RvaPlus(rva, w * n), w)
    ensures RangeLength(rva, RvaPlus(rva, w * n), w) == RangeCount(n, w)
  {
    RvaDistance(rva, w * n);
    if w == 2 {
      WrapDouble(n);
    } else {
      WrapQuadruple(n);
    }
  }

  lemma RangeEmpty(from: Rva, w: nat)
    requires w == 2 || w == 4
    ensures RangeLength(from, from, w) == 0
  {
  }

  /** One step of the range loop: the remaining length drops by one. */
  lemma RangeStep(from: Rva, to: Rva, w: nat)
    requires w == 2 || w == 4
    requires from != to && RangeAligned(from, to, w)
    ensures RangeAligned(RvaPlus(from, w), to, w)
    ensures RangeLength(from, to, w) > 0
    ensures RangeLength(RvaPlus(from, w), to, w) == RangeLength(from, to, w) - 1
  {
    RvaDistanceStep(from, to, w);
    var d := Wrap32(to - from);
    if w == 2 {
      assert d >= 2 && (d - 2) % 2 == 0 && (d - 2) / 2 == d / 2 - 1;
    } else {
      assert d >= 4 && (d - 4) % 4 == 0 && (d - 4) / 4 == d / 4 - 1;
    }
    assert Wrap32(d - w) == d - w;
  }

  // ---------------------------------------------------------------- strings

  /** `getString` stops at the latest when its `int` index would overflow. */
  const MAX_STRING_LENGTH: nat := 0x8000_0000

  /** The index of the first zero (or unmapped) byte from `rva + i` on. */
  function CStringLength(hs: seq<SectionHeader>, ss: seq<seq<Byte>>, rva: Rva, i: nat): (n: nat)
    requires Layout(hs, ss) && i <= MAX_STRING_LENGTH
    ensures i <= n <= MAX_STRING_LENGTH
    ensures forall j :: i <= j < n ==> ByteAt(hs, ss, RvaPlus(rva, j)) != 0
    ensures n < MAX_STRING_LENGTH ==> ByteAt(hs, ss, RvaPlus(rva, n)) == 0
    decreases MAX_STRING_LENGTH - i
  {
    if i == MAX_STRING_LENGTH || ByteAt(hs, ss, RvaPlus(rva, i)) == 0 then i
    else CStringLength(hs, ss, rva, i + 1)
  }

  /** The string at `rva`: its bytes up to, excluding, the first zero or unmapped byte. */
  function CString(hs: seq<SectionHeader>, ss: seq<seq<Byte>>, rva: Rva): (s: seq<Byte>)
    requires Layout(hs, ss)
    ensures |s| <= MAX_STRING_LENGTH
    ensures forall j :: 0 <= j < |s| ==> s[j] != 0 && s[j] == ByteAt(hs, ss, RvaPlus(rva, j))
    ensures |s| < MAX_STRING_LENGTH ==> ByteAt(hs, ss, RvaPlus(rva, |s|)) == 0
  {
    var n := CStringLength(hs, ss, rva, 0);
    seq(n, j requires 0 <= j < n => ByteAt(hs, ss, RvaPlus(rva, j)))
  }

  /** Bytes read one by one from `rva` up to the first zero, or to the length bound, make up `CString`. */
  lemma CStringOfBytesRead(hs: seq<SectionHeader>, ss: seq<seq<Byte>>, rva: Rva, s: seq<Byte>)
    requires Layout(hs, ss) && |s| <= MAX_STRING_LENGTH
    requires forall j {:trigger RvaPlus(rva, j)} :: 0 <= j < |s| ==> s[j] != 0 && s[j] == ByteAt(hs, ss, RvaPlus(rva, j))
    requires |s| < MAX_STRING_LENGTH ==> ByteAt(hs, ss, RvaPlus(rva, |s|)) == 0
    ensures s == CString(hs, ss, rva)
  {
    var str := CString(hs, ss, rva);
    assert |str| == |s|;
  }

  /** Whether scanning the string at `rva` ends on an unmapped byte (and so raises the fault flag). */
  predicate CStringFaults(hs: seq<SectionHeader>, ss: seq<seq<Byte>>, rva: Rva)
    requires Layout(hs, ss)
  {
    var n := |CString(hs, ss, rva)|;
    n < MAX_STRING_LENGTH && !IsMapped(hs, RvaPlus(rva, n))
  }

  // ---------------------------------------------------------------- the image object

  class Image {
    var sectionHeaders: seq<SectionHeader>
    var sections: seq<seq<Byte>>
    /** The fault flag: set by `At` on an unmapped RVA. Uninitialised at construction. */
    var accessError: bool

    ghost predicate Valid()
      reads this
    {
      Layout(sectionHeaders, sections)
    }

    constructor ()
      ensures sectionHeaders == [] && sections == []
    {
      sectionHeaders := [];
      sections := [];
    }

    method SetNumofSections(numofSections: nat)
      modifies this`sectionHeaders, this`sections
      ensures sectionHeaders == Resize(old(sectionHeaders), numofSections, ZERO_SECTION_HEADER)
      ensures sections == Resize(old(sections), numofSections, [])
    {
      sectionHeaders := Resize(sectionHeaders, numofSections, ZERO_SECTION_HEADER);
      sections := Resize(sections, numofSections, []);
    }

    function SectionHeadersSizeInBytes(): nat
      reads this
    {
      SECTION_HEADER_SIZE * |sectionHeaders|
    }

    /** The section table after `raw` has been written over its first bytes (a file read into it). */
    method WriteRawSectionHeaders(raw: seq<Byte>)
      requires |raw| <= SectionHeadersSizeInBytes()
      modifies this`sectionHeaders
      ensures sectionHeaders == DecodeSectionTable(Overlay(EncodeSectionTable(old(sectionHeaders)), raw))
      ensures |sectionHeaders| == |old(sectionHeaders)|
    {
      sectionHeaders := DecodeSectionTable(Overlay(EncodeSectionTable(sectionHeaders), raw));
    }

    /** Resize every section buffer to its header's `virtualSize`, padding with zeros. */
    method InitSectionSizes()
      requires |sections| == |sectionHeaders| && |sections| != 0
      modifies this`sections
      ensures Valid()
      ensures |sections| == |old(sections)|
      ensures forall i :: 0 <= i < |sections| ==>
        sections[i] == Resize(old(sections)[i], sectionHeaders[i].virtualSize, 0)
    {
      var i := 0;
      while i < |sections|
        invariant 0 <= i <= |sections| == |old(sections)| == |sectionHeaders|
        invariant forall j :: 0 <= j < i ==> sections[j] == Resize(old(sections)[j], sectionHeaders[j].virtualSize, 0)
        invariant forall j :: i <= j < |sections| ==> sections[j] == old(sections)[j]
      {
        sections := sections[i := Resize(sections[i], sectionHeaders[i].virtualSize, 0)];
        i := i + 1;
      }
    }

    function RawOffsetOfSectionAt(index: nat): Dword
      requires index < |sectionHeaders|
      reads this
    {
      sectionHeaders[index].pointerToRawData
    }

    /** Section buffer `index` after `bytes` have been written over its first bytes (a file read into it). */
    method WriteSection(index: nat, bytes: seq<Byte>)
      requires index < |sections| && |bytes| <= |sections[index]|
      modifies this`sections
      ensures sections == old(sections)[index := Overlay(old(sections)[index], bytes)]
    {
      sections := sections[index := Overlay(sections[index], bytes)];
    }

    /** `Image::at`: translate `rva` through the first containing section; raise the flag if none. */
    method At(rva: Rva) returns (c: Byte)
      requires Valid()
      modifies this`accessError
      ensures c == ByteAt(sectionHeaders, sections, rva)
      ensures accessError == (old(accessError) || !IsMapped(sectionHeaders, rva))
      ensures IsMapped(sectionHeaders, rva) ==>
        var k := SectionIndex(sectionHeaders, rva); c == sections[k][rva - sectionHeaders[k].rva]
    {
      var sectionIndex := -1;
      var i := 0;
      while i < |sectionHeaders|
        invariant 0 <= i <= |sectionHeaders|
        invariant sectionIndex == -1
        invariant forall j :: 0 <= j < i ==> !Contains(sectionHeaders[j], rva)
      {
        if sectionHeaders[i].rva <= rva < RvaPlus(sectionHeaders[i].rva, sectionHeaders[i].virtualSize) {
          sectionIndex := i;
          break;
        }
        i := i + 1;
      }
      if sectionIndex < 0 {
        accessError := true;
        return 0;
      }
      c := sections[sectionIndex][rva - sectionHeaders[sectionIndex].rva];
    }

    /**
     * `Image::read`: clear the flag, then copy `from, from + 1, ...` into `buf`
     * until `size` bytes are copied or an address is unmapped. Returns the count.
     */
    method Read(buf: array<Byte>, from: Rva, size: nat) returns (n: nat)
      requires Valid() && size <= buf.Length
      modifies buf, this`accessError
      ensures n == MappedFrom(sectionHeaders, from, 0, size)
      ensures n <= size && (n == size <==> !accessError)
      ensures buf[..] == ReadResult(sectionHeaders, sections, old(buf[..]), from, size)
    {
      accessError := false;
      var i := 0;
      ghost var hs, ss := sectionHeaders, sections;
      ghost var count, result := MappedFrom(hs, from, 0, size), ReadResult(hs, ss, old(buf[..]), from, size);
      while i < size
        invariant 0 <= i <= size
        invariant !accessError
        invariant MappedFrom(hs, from, i, size) == count
        invariant ReadFrom(hs, ss, buf[..], from, i, size) == result
      {
        ghost var b := buf[..];
        buf[i] := At(RvaPlus(from, i));
        ReadStep(hs, ss, b, from, i, size, buf[..]);
        if accessError {
          n := i;
          return;
        }
        i := i + 1;
      }
      n := size;
    }

    method Clear()
      modifies this`accessError
      ensures !accessError
    {
      accessError := false;
    }

    function Error(): bool
      reads this
    {
      accessError
    }

    /** `iterator<T>(rva)`, with `width == sizeof(T)`. */
    method MakeIterator(rva: Rva, width: nat) returns (it: Iterator)
      requires width == 2 || width == 4
      ensures fresh(it) && fresh(it.buf)
      ensures it.image == this && it.r == rva && it.width == width && it.buf.Length == width
    {
      it := new Iterator(this, rva, width);
    }

    /** `iterator<T>(rva, shift)`: the position `rva + sizeof(T) * shift`, modulo 2^32. */
    method MakeShiftedIterator(rva: Rva, width: nat, shift: int) returns (it: Iterator)
      requires width == 2 || width == 4
      ensures fresh(it) && fresh(it.buf)
      ensures it.image == this && it.r == RvaPlus(rva, width * shift) && it.width == width && it.buf.Length == width
    {
      it := new Iterator(this, RvaPlus(rva, width * shift), width);
    }
  }

  /** `Image::Iterator<T>`: a cursor over consecutive `T`s of the image, `width == sizeof(T)`. */
  class Iterator {
    const image: Image
    const width: nat
    /** The `T buf` member, as its bytes; uninitialised at construction. */
    const buf: array<Byte>
    var r: Rva

    constructor (image: Image, rva: Rva, width: nat)
      requires width == 2 || width == 4
      ensures this.image == image && r == rva && this.width == width
      ensures fresh(buf) && buf.Length == width
    {
      this.image := image;
      this.width := width;
      r := rva;
      buf := new Byte[width];
    }

    /** `operator*`: one `Image::read` of `sizeof(T)` bytes at the cursor into `buf`, then its value. */
    method Deref() returns (v: Dword)
      requires image.Valid() && buf.Length == width && (width == 2 || width == 4)
      modifies buf, image`accessError
      ensures buf[..] == ReadResult(image.sectionHeaders, image.sections, old(buf[..]), r, width)
      ensures v == ElementValue(buf[..])
      ensures image.accessError == ElementFaults(image.sectionHeaders, r, width)
    {
      var _ := image.Read(buf, r, width);
      v := ElementValue(buf[..]);
    }

    /** `operator++`: advance the cursor by `sizeof(T)`, modulo 2^32. */
    method Increment()
      modifies this`r
      ensures r == RvaPlus(old(r), width)
    {
      r := RvaPlus(r, width);
    }

    /** `operator==`: iterators are equal when their cursors are; nothing else is compared. */
    predicate Equals(other: Iterator)
      reads this, other
    {
      other.r == r
    }
  }

  /**
   * The range constructor of `std::vector`: dereference and advance `first`
   * until it equals `last`, collecting the values.
   */
  method CollectRange(first: Iterator, last: Iterator) returns (v: seq<Dword>)
    requires first.image.Valid() && first.buf.Length == first.width && (first.width == 2 || first.width == 4)
    requires first != last && RangeAligned(first.r, last.r, first.width)
    modifies first`r, first.buf, first.image`accessError
    ensures var hs, ss, count := first.image.sectionHeaders, first.image.sections,
        RangeLength(old(first.r), last.r, first.width);
      && v == Elements(hs, ss, old(first.buf[..]), old(first.r), count)
      && first.image.accessError == FaultAfter(hs, old(first.r), first.width, count, old(first.image.accessError))
      && first.r == last.r
  {
    ghost var hs, ss := first.image.sectionHeaders, first.image.sections;
    ghost var start, buf0, w := first.r, first.buf[..], first.width;
    ghost var count := RangeLength(start, last.r, w);
    ghost var flag0 := first.image.accessError;
    ghost var values, fault := Elements(hs, ss, buf0, start, count), FaultAfter(hs, start, w, count, flag0);
    ghost var remaining := count;
    v := [];
    while !first.Equals(last)
      invariant RangeAligned(first.r, last.r, w) && remaining == RangeLength(first.r, last.r, w)
      invariant v + Elements(hs, ss, first.buf[..], first.r, remaining) == values
      invariant FaultAfter(hs, first.r, w, remaining, first.image.accessError) == fault
      decreases remaining
    {
      RangeStep(first.r, last.r, w);
      ghost var b, r, n, flag, v0 := first.buf[..], first.r, remaining, first.image.accessError, v;
      var x := first.Deref();
      v := v + [x];
      first.Increment();
      remaining := remaining - 1;
      RunStepValues(hs, ss, w, b, r, n, v0, first.buf[..], first.r, remaining, x, v, values);
      RunStepFault(hs, w, r, n, flag, first.r, remaining, first.image.accessError);
    }
    RangeEmpty(first.r, w);
    assert Elements(hs, ss, first.buf[..], first.r, remaining) == [];
    assert v + [] == v;
  }
}
