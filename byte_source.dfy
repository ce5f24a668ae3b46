/**
 * The input file as an immutable byte sequence, and what one positioned
 * `std::istream::read` of it delivers: the requested bytes that exist.
 */
module ByteSource {
  import opened PeBytes

  /**
   * The bytes a read of `size` bytes at `pos` delivers (`seekg(pos)` then
   * `read(dst, size)`): a prefix of the file from `pos`, cut short only by the
   * end of the file. A negative position makes the seek fail, and a failed
   * stream or a size that is not positive delivers nothing.
   */
  function FileRead(file: seq<Byte>, pos: int, size: int): (r: seq<Byte>)
    ensures size >= 0 ==> |r| <= size
    ensures size < 0 ==> r == []
    ensures |r| > 0 ==> 0 <= pos && pos + |r| <= |file| && r == file[pos..pos + |r|]
    ensures |r| < size ==> pos < 0 || pos + |r| >= |file|
  {
    if pos < 0 || pos >= |file| || size <= 0 then []
    else if pos + size <= |file| then file[pos..pos + size]
    else file[pos..]
  }

  /** A read succeeds iff `gcount()` equals the requested size. */
  predicate ReadSucceeds(file: seq<Byte>, pos: int, size: int)
  {
    |FileRead(file, pos, size)| == size
  }

  lemma ReadSucceedsIff(file: seq<Byte>, pos: int, size: int)
    ensures ReadSucceeds(file, pos, size) <==> size == 0 || (0 <= pos && 0 < size && pos + size <= |file|)
  {
  }

  /** A successful read delivers exactly the bytes of the file at `[pos, pos + size)`. */
  lemma SuccessfulRead(file: seq<Byte>, pos: int, size: int)
    requires ReadSucceeds(file, pos, size) && size > 0
    ensures 0 <= pos && pos + size <= |file| && FileRead(file, pos, size) == file[pos..pos + size]
  {
  }

  /** A successful read into a buffer of its own size replaces the whole buffer with the file bytes. */
  lemma OverlayOfSuccessfulRead(file: seq<Byte>, pos: int, dst: seq<Byte>)
    requires |dst| > 0 && ReadSucceeds(file, pos, |dst|)
    ensures 0 <= pos && pos + |dst| <= |file|
    ensures Overlay(dst, FileRead(file, pos, |dst|)) == file[pos..pos + |dst|]
  {
    assert dst[|dst|..] == [];
  }

  /** A read that delivers all `size` bytes overwrites the whole of a destination of that size. */
  lemma FullReadOverlay(file: seq<Byte>, pos: int, size: int, dst: seq<Byte>)
    requires |dst| == size && ReadSucceeds(file, pos, size)
    ensures Overlay(dst, FileRead(file, pos, size)) == FileRead(file, pos, size)
  {
    assert dst[|dst|..] == [];
  }
}
