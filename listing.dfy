/**
 * The listing loop of `printExportTable`, over the arrays it has read: for each
 * name in order, a warning when its ordinal does not index the function array,
 * otherwise one line with the position, the biased ordinal, the function RVA
 * and the name string, whose reading may raise the image's fault flag.
 */
module ExportListing {
  import opened PeBytes
  import opened Diagnostics

  /**
   * What the loop works on: the function RVAs, the ordinals, the ordinal base, and
   * for each name the string read at its RVA and whether that read faults.
   */
  datatype Tables = Tables(functions: seq<Dword>, ordinals: seq<Dword>, base: Dword,
                           strings: seq<seq<Byte>>, faults: seq<bool>)

  /** One string (and fault bit) per name, and an ordinal for every name. */
  predicate WellSized(t: Tables)
  {
    |t.strings| == |t.faults| <= |t.ordinals|
  }

  /** One listing line: its 1-based position among the names, the biased ordinal, the function RVA, the name. */
  datatype ExportEntry = ExportEntry(position: nat, ordinal: Dword, functionRva: Rva, name: seq<Byte>)

  /** The lines listed, the log afterwards, and the fault flag afterwards. */
  datatype Listing = Listing(entries: seq<ExportEntry>, log: seq<Severity>, fault: bool)

  /** Name `i` is listed iff its ordinal indexes the function array. */
  predicate Listed(t: Tables, i: nat)
    requires i < |t.ordinals|
  {
    t.ordinals[i] < |t.functions|
  }

  /** The line of name `i`: position `i + 1`, its ordinal plus the base modulo 2^32, its function, its string. */
  function EntryAt(t: Tables, i: nat): ExportEntry
    requires WellSized(t) && i < |t.strings| && Listed(t, i)
  {
    ExportEntry(i + 1, Wrap32(t.ordinals[i] + t.base), t.functions[t.ordinals[i]], t.strings[i])
  }

  /** The line of a listed name `i` in terms of the arrays it is read from. */
  lemma EntryAtOf(t: Tables, functions: seq<Dword>, ordinals: seq<Dword>, base: Dword, i: nat, name: seq<Byte>)
    requires WellSized(t) && i < |t.strings| && Listed(t, i)
    requires t.functions == functions && t.ordinals == ordinals && t.base == base && t.strings[i] == name
    ensures i < |ordinals| && ordinals[i] < |functions|
    ensures EntryAt(t, i) == ExportEntry(i + 1, Wrap32(ordinals[i] + base), functions[ordinals[i]], name)
  {
  }

  /** The loop over the first `k` names, the flag starting at `prior` and the log at `log`. */
  function ListNames(t: Tables, k: nat, prior: bool, log: seq<Severity>): (l: Listing)
    requires WellSized(t) && k <= |t.strings|
    ensures |l.log| == |log| + k
    ensures |l.entries| <= k
    decreases k
  {
    if k == 0 then Listing([], log, prior)
    else
      var l := ListNames(t, k - 1, prior, log);
      if !Listed(t, k - 1) then Listing(l.entries, l.log + [Warning], l.fault)
      else Listing(l.entries + [EntryAt(t, k - 1)], l.log + [Note], l.fault || t.faults[k - 1])
  }

  /** The loop appends one line per name: a note for a listed name, a warning for a skipped one. */
  lemma {:induction false} ListNamesLog(t: Tables, k: nat, prior: bool, log: seq<Severity>)
    requires WellSized(t) && k <= |t.strings|
    ensures var l := ListNames(t, k, prior, log);
      && l.log[..|log|] == log
      && forall i :: 0 <= i < k ==> l.log[|log| + i] == if Listed(t, i) then Note else Warning
    decreases k
  {
    if k > 0 {
      ListNamesLog(t, k - 1, prior, log);
    }
  }

  /** Every entry is the line of a listed name among the first `k`. */
  lemma {:induction false} ListNamesSound(t: Tables, k: nat, prior: bool, log: seq<Severity>)
    requires WellSized(t) && k <= |t.strings|
    ensures var l := ListNames(t, k, prior, log);
      forall e :: e in l.entries ==> 1 <= e.position <= k && Listed(t, e.position - 1) && e == EntryAt(t, e.position - 1)
    decreases k
  {
    if k > 0 {
      ListNamesSound(t, k - 1, prior, log);
    }
  }

  /** The entries come in name order: their positions strictly increase. */
  lemma {:induction false} ListNamesOrdered(t: Tables, k: nat, prior: bool, log: seq<Severity>)
    requires WellSized(t) && k <= |t.strings|
    ensures var l := ListNames(t, k, prior, log);
      forall a, b :: 0 <= a < b < |l.entries| ==> l.entries[a].position < l.entries[b].position
    decreases k
  {
    if k > 0 {
      ListNamesOrdered(t, k - 1, prior, log);
      ListNamesSound(t, k - 1, prior, log);
      var l := ListNames(t, k - 1, prior, log);
      if Listed(t, k - 1) {
        var es := l.entries + [EntryAt(t, k - 1)];
        forall a, b | 0 <= a < b < |es|
          ensures es[a].position < es[b].position
        {
          if b == |es| - 1 {
            assert es[a] in l.entries;
          }
        }
      }
    }
  }

  /** Every listed name among the first `k` has its line in the listing. */
  lemma {:induction false} ListNamesComplete(t: Tables, k: nat, prior: bool, log: seq<Severity>)
    requires WellSized(t) && k <= |t.strings|
    ensures var l := ListNames(t, k, prior, log);
      forall i :: 0 <= i < k && Listed(t, i) ==> EntryAt(t, i) in l.entries
    decreases k
  {
    if k > 0 {
      ListNamesComplete(t, k - 1, prior, log);
    }
  }

  /** Whether the string of some listed name among the first `k` faults. */
  predicate SomeStringFaults(t: Tables, k: nat)
    requires WellSized(t) && k <= |t.strings|
  {
    exists i :: 0 <= i < k && Listed(t, i) && t.faults[i]
  }

  /** The flag ends raised iff it was raised before or the string of some listed name faults. */
  lemma {:induction false} ListNamesFault(t: Tables, k: nat, prior: bool, log: seq<Severity>)
    requires WellSized(t) && k <= |t.strings|
    ensures ListNames(t, k, prior, log).fault <==> prior || SomeStringFaults(t, k)
    decreases k
  {
    if k > 0 {
      ListNamesFault(t, k - 1, prior, log);
      if SomeStringFaults(t, k) && !(Listed(t, k - 1) && t.faults[k - 1]) {
        var i :| 0 <= i < k && Listed(t, i) && t.faults[i];
        assert SomeStringFaults(t, k - 1);
      }
      if SomeStringFaults(t, k - 1) {
        var i :| 0 <= i < k - 1 && Listed(t, i) && t.faults[i];
        assert SomeStringFaults(t, k);
      }
    }
  }
}
