/**
 * The fixed-width unsigned integers of the PE format (`Byte`, `Word`, `Dword`,
 * `Rva`), 32-bit wrap-around arithmetic, and the little-endian encoding that the
 * packed structures use in the file.
 */
module PeBytes {

  type Byte = b: int | 0 <= b < 0x100
  type Word = w: int | 0 <= w < 0x1_0000
  type Dword = d: int | 0 <= d < 0x1_0000_0000
  /** A relative virtual address: an address relative to the image base. */
  type Rva = Dword

  /** Reduction of an exact result to what `unsigned int` arithmetic keeps. */
  function Wrap32(x: int): Dword
  {
    x % 0x1_0000_0000
  }

  /** `base + j` computed in 32-bit unsigned arithmetic. */
  function RvaPlus(base: Rva, j: int): Rva
  {
    Wrap32(base + j)
  }

  /** `static_cast<int>` of an `unsigned int`: values from 2^31 on become negative. */
  function ToInt32(d: Dword): (i: int)
    ensures -0x8000_0000 <= i < 0x8000_0000
    ensures Wrap32(i) == d
    ensures i >= 0 <==> d < 0x8000_0000
  {
    if d < 0x8000_0000 then d else d - 0x1_0000_0000
  }

  lemma WrapAdd(a: int, b: int)
    ensures Wrap32(Wrap32(a) + b) == Wrap32(a + b)
  {
  }

  lemma WrapSub(a: int, b: int)
    ensures Wrap32(a - Wrap32(b)) == Wrap32(a - b)
  {
  }

  /** Two wrapped sums are equal exactly when the offsets agree, for offsets in [0, 2^32). */
  lemma RvaPlusInjective(base: Rva, j: int, k: int)
    requires 0 <= j < 0x1_0000_0000 && 0 <= k < 0x1_0000_0000
    ensures RvaPlus(base, j) == RvaPlus(base, k) <==> j == k
  {
  }

  /** The distance from `rva` to `rva + k`, modulo 2^32, is `k` modulo 2^32. */
  lemma RvaDistance(rva: Rva, k: int)
    ensures Wrap32(RvaPlus(rva, k) - rva) == Wrap32(k)
  {
    WrapAdd(rva as int + k, -(rva as int));
  }

  /** Stepping `from` by `w` shortens its distance to `to` by `w`, modulo 2^32. */
  lemma RvaDistanceStep(from: Rva, to: Rva, w: nat)
    requires from != to
    ensures Wrap32(to - from) != 0
    ensures Wrap32(to - RvaPlus(from, w)) == Wrap32(Wrap32(to - from) - w)
  {
    WrapSub(to, from as int + w);
    WrapAdd(to as int - from as int, -(w as int));
  }

  lemma RvaPlusStep(start: Rva, w: nat, j: nat)
    requires j > 0
    ensures RvaPlus(RvaPlus(start, w), (j - 1) * w) == RvaPlus(start, j * w)
  {
    WrapAdd(start as int + w, (j - 1) * w);
    assert (j - 1) * w + w == j * w;
  }

  lemma WrapDouble(n: nat)
    ensures Wrap32(2 * n) == 2 * (n % 0x8000_0000)
  {
    var q, r := n / 0x8000_0000, n % 0x8000_0000;
    assert n == q * 0x8000_0000 + r;
    assert 2 * n == q * 0x1_0000_0000 + 2 * r;
  }

  lemma WrapQuadruple(n: nat)
    ensures Wrap32(4 * n) == 4 * (n % 0x4000_0000)
  {
    var q, r := n / 0x4000_0000, n % 0x4000_0000;
    assert n == q * 0x4000_0000 + r;
    assert 4 * n == q * 0x1_0000_0000 + 4 * r;
  }

  /** The Word stored little-endian at `s[off..off + 2]`. */
  function Le16(s: seq<Byte>, off: nat): Word
    requires off + 2 <= |s|
  {
    s[off] as int + 0x100 * (s[off + 1] as int)
  }

  /** The Dword stored little-endian at `s[off..off + 4]`. */
  function Le32(s: seq<Byte>, off: nat): Dword
    requires off + 4 <= |s|
  {
    Le16(s, off) + 0x1_0000 * Le16(s, off + 2)
  }

  /** A little-endian Dword depends only on its own four bytes. */
  lemma Le32Slice(s: seq<Byte>, off: nat)
    requires off + 4 <= |s|
    ensures Le32(s, off) == Le32(s[off..off + 4], 0)
  {
  }

  function WordBytes(w: Word): (s: seq<Byte>)
    ensures |s| == 2
  {
    [w % 0x100, w / 0x100]
  }

  function DwordBytes(d: Dword): (s: seq<Byte>)
    ensures |s| == 4
  {
    WordBytes(d % 0x1_0000) + WordBytes(d / 0x1_0000)
  }

  lemma WordRoundTrip(w: Word)
    ensures Le16(WordBytes(w), 0) == w
  {
  }

  lemma WordBytesRoundTrip(s: seq<Byte>, off: nat)
    requires off + 2 <= |s|
    ensures WordBytes(Le16(s, off)) == s[off..off + 2]
  {
  }

  lemma DwordRoundTrip(d: Dword)
    ensures Le32(DwordBytes(d), 0) == d
  {
    WordRoundTrip(d % 0x1_0000);
    WordRoundTrip(d / 0x1_0000);
    assert DwordBytes(d)[..2] == WordBytes(d % 0x1_0000);
  }

  lemma DwordBytesRoundTrip(s: seq<Byte>, off: nat)
    requires off + 4 <= |s|
    ensures DwordBytes(Le32(s, off)) == s[off..off + 4]
  {
    var lo, hi := Le16(s, off), Le16(s, off + 2);
    assert Le32(s, off) % 0x1_0000 == lo;
    assert Le32(s, off) / 0x1_0000 == hi;
    WordBytesRoundTrip(s, off);
    WordBytesRoundTrip(s, off + 2);
  }

  /** `dst` after its first `|src|` bytes have been overwritten by `src`. */
  function Overlay(dst: seq<Byte>, src: seq<Byte>): (r: seq<Byte>)
    requires |src| <= |dst|
    ensures |r| == |dst|
  {
    src + dst[|src|..]
  }

  /** `std::vector::resize(n, fill)`: keep the first `n` elements, pad with `fill`. */
  function Resize<T>(s: seq<T>, n: nat, fill: T): (r: seq<T>)
    ensures |r| == n
    ensures forall j :: 0 <= j < n ==> r[j] == if j < |s| then s[j] else fill
  {
    if n <= |s| then s[..n] else s + seq(n - |s|, _ => fill)
  }
}
