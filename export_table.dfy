/**
 * The export table as `printExportTable` reads and lists it: three arrays read
 * through image iterators (function RVAs, name RVAs, ordinals), one check of the
 * image's fault flag, then one listing line per name whose ordinal indexes the
 * function array.
 */
module ExportTable {
  import opened PeBytes
  import opened PeLayout
  import opened VirtualImage
  import opened Diagnostics

  // ---------------------------------------------------------------- the three arrays

  /**
   * The element counts of the arrays: the end iterator sits at `rva + sizeof(T) * n`
   * modulo 2^32, so a range of `n` elements of width `w` holds `n mod (2^32 / w)`.
   */
  function FunctionCount(d: ExportDirectory): nat
  {
    RangeCount(d.numofFunctions, 4)
  }

  function NameCount(d: ExportDirectory): nat
  {
    RangeCount(d.numofNames, 4)
  }

  /** There is an ordinal for every name: the 2-byte ordinals wrap later than the 4-byte names. */
  function OrdinalCount(d: ExportDirectory): (n: nat)
    ensures NameCount(d) <= n
  {
    NamesHaveOrdinals(d);
    RangeCount(d.numofNames, 2)
  }

  lemma NamesHaveOrdinals(d: ExportDirectory)
    ensures RangeCount(d.numofNames, 4) <= RangeCount(d.numofNames, 2)
  {
    var n := d.numofNames as int;
    var q := n / 0x8000_0000;
    assert n == q * 0x8000_0000 + n % 0x8000_0000;
    assert n % 0x4000_0000 == (n % 0x8000_0000) % 0x4000_0000 by {
      assert q * 0x8000_0000 == (2 * q) * 0x4000_0000;
    }
  }

  /** Below 2^30 the counts are the directory's own. */
  lemma CountsOfSmallDirectory(d: ExportDirectory)
    requires d.numofFunctions < 0x4000_0000 && d.numofNames < 0x4000_0000
    ensures FunctionCount(d) == d.numofFunctions
    ensures NameCount(d) == OrdinalCount(d) == d.numofNames
  {
  }

  /** The function RVA array, `junk` being the bytes of the iterator's buffer before its first read. */
  function Functions(hs: seq<SectionHeader>, ss: seq<seq<Byte>>, d: ExportDirectory, junk: seq<Byte>): (v: seq<Dword>)
    requires Layout(hs, ss) && |junk| == 4
    ensures |v| == FunctionCount(d)
  {
    Elements(hs, ss, junk, d.functionsRva, FunctionCount(d))
  }

  function Names(hs: seq<SectionHeader>, ss: seq<seq<Byte>>, d: ExportDirectory, junk: seq<Byte>): (v: seq<Dword>)
    requires Layout(hs, ss) && |junk| == 4
    ensures |v| == NameCount(d)
  {
    Elements(hs, ss, junk, d.namesRva, NameCount(d))
  }

  function Ordinals(hs: seq<SectionHeader>, ss: seq<seq<Byte>>, d: ExportDirectory, junk: seq<Byte>): (v: seq<Dword>)
    requires Layout(hs, ss) && |junk| == 2
    ensures |v| == OrdinalCount(d)
  {
    Elements(hs, ss, junk, d.ordinalsRva, OrdinalCount(d))
  }

  /** The fault flag after the three arrays are read, starting from a cleared flag. */
  function ArraysFault(hs: seq<SectionHeader>, d: ExportDirectory): bool
  {
    var afterFunctions := FaultAfter(hs, d.functionsRva, 4, FunctionCount(d), false);
    var afterNames := FaultAfter(hs, d.namesRva, 4, NameCount(d), afterFunctions);
    FaultAfter(hs, d.ordinalsRva, 2, OrdinalCount(d), afterNames)
  }

  /** Three runs read one after the other report the last element of the last non-empty run. */
  lemma LastOfThreeRuns(hs: seq<SectionHeader>, r1: Rva, w1: nat, k1: nat, r2: Rva, w2: nat, k2: nat,
                        r3: Rva, w3: nat, k3: nat)
    requires k2 <= k3
    ensures FaultAfter(hs, r3, w3, k3, FaultAfter(hs, r2, w2, k2, FaultAfter(hs, r1, w1, k1, false))) ==
      if k3 > 0 then ElementFaults(hs, ElementRva(r3, w3, k3 - 1), w3)
      else if k1 > 0 then ElementFaults(hs, ElementRva(r1, w1, k1 - 1), w1)
      else false
  {
    var f1 := FaultAfter(hs, r1, w1, k1, false);
    var f2 := FaultAfter(hs, r2, w2, k2, f1);
    FaultAfterIsLast(hs, r1, w1, k1, false);
    FaultAfterIsLast(hs, r2, w2, k2, f1);
    FaultAfterIsLast(hs, r3, w3, k3, f2);
  }

  /**
   * Every element read resets the flag, so the check after the arrays sees only
   * the last element read: the last ordinal, or, with no names, the last function.
   */
  lemma ArraysFaultIsLastRead(hs: seq<SectionHeader>, d: ExportDirectory)
    ensures ArraysFault(hs, d) ==
      if OrdinalCount(d) > 0 then ElementFaults(hs, ElementRva(d.ordinalsRva, 2, OrdinalCount(d) - 1), 2)
      else if FunctionCount(d) > 0 then ElementFaults(hs, ElementRva(d.functionsRva, 4, FunctionCount(d) - 1), 4)
      else false
  {
    LastOfThreeRuns(hs, d.functionsRva, 4, FunctionCount(d), d.namesRva, 4, NameCount(d),
      d.ordinalsRva, 2, OrdinalCount(d));
  }

  /** Every element of a run of `k` elements of width `w` from `rva` is fully mapped. */
  predicate RunMapped(hs: seq<SectionHeader>, rva: Rva, w: nat, k: nat)
  {
    forall j :: 0 <= j < k ==> !ElementFaults(hs, ElementRva(rva, w, j), w)
  }

  /**
   * When all three arrays lie in mapped memory the check passes, and each array
   * holds the values stored in the image, whatever the iterators' buffers held.
   */
  lemma MappedArrays(hs: seq<SectionHeader>, ss: seq<seq<Byte>>, d: ExportDirectory,
                     fJunk: seq<Byte>, nJunk: seq<Byte>, oJunk: seq<Byte>)
    requires Layout(hs, ss) && |fJunk| == 4 && |nJunk| == 4 && |oJunk| == 2
    requires RunMapped(hs, d.functionsRva, 4, FunctionCount(d))
    requires RunMapped(hs, d.namesRva, 4, NameCount(d))
    requires RunMapped(hs, d.ordinalsRva, 2, OrdinalCount(d))
    ensures !ArraysFault(hs, d)
    ensures forall j :: 0 <= j < FunctionCount(d) ==>
      Functions(hs, ss, d, fJunk)[j] == ImageValue(hs, ss, ElementRva(d.functionsRva, 4, j), 4)
    ensures forall j :: 0 <= j < NameCount(d) ==>
      Names(hs, ss, d, nJunk)[j] == ImageValue(hs, ss, ElementRva(d.namesRva, 4, j), 4)
    ensures forall j :: 0 <= j < OrdinalCount(d) ==>
      Ordinals(hs, ss, d, oJunk)[j] == ImageValue(hs, ss, ElementRva(d.ordinalsRva, 2, j), 2)
  {
    ArraysFaultIsLastRead(hs, d);
    ElementsOfMappedRange(hs, ss, fJunk, d.functionsRva, 4, FunctionCount(d));
    ElementsOfMappedRange(hs, ss, nJunk, d.namesRva, 4, NameCount(d));
    ElementsOfMappedRange(hs, ss, oJunk, d.ordinalsRva, 2, OrdinalCount(d));
  }

  /** The strings `getString` reads at each name RVA. */
  function NameStrings(hs: seq<SectionHeader>, ss: seq<seq<Byte>>, names: seq<Dword>): (strings: seq<seq<Byte>>)
    requires Layout(hs, ss)
    ensures |strings| == |names|
    ensures forall i :: 0 <= i < |names| ==> strings[i] == CString(hs, ss, names[i])
  {
    seq(|names|, i requires 0 <= i < |names| => CString(hs, ss, names[i]))
  }

  /** Whether reading each of those strings runs into unmapped memory. */
  function NameFaults(hs: seq<SectionHeader>, ss: seq<seq<Byte>>, names: seq<Dword>): (faults: seq<bool>)
    requires Layout(hs, ss)
    ensures |faults| == |names|
    ensures forall i :: 0 <= i < |names| ==> faults[i] == CStringFaults(hs, ss, names[i])
  {
    seq(|names|, i requires 0 <= i < |names| => CStringFaults(hs, ss, names[i]))
  }
}
