/**
 * Read-only access to a file's bytes. Every read is fail-soft: a position past
 * the end of the buffer never aborts an analysis, it reads as 0 (or as an empty
 * slice), so that truncated or corrupt metadata degrades instead of failing.
 */
module ByteView {

  /** One octet of the file. */
  type Byte = x: int | 0 <= x < 256

  function Min(a: int, b: int): int { if a <= b then a else b }

  function Max(a: int, b: int): int { if a >= b then a else b }

  /**
   * The byte at `i`, or 0 outside the buffer (past the end or before the start).
   * In JavaScript such an index reads `undefined`, which its bitwise operators
   * and `String.fromCharCode` treat as 0.
   */
  function At(b: seq<Byte>, i: int): (x: Byte)
    ensures 0 <= i < |b| ==> x == b[i]
    ensures !(0 <= i < |b|) ==> x == 0
  {
    if 0 <= i < |b| then b[i] else 0
  }

  /** Big-endian 16-bit word built from two fail-soft byte reads (the JPEG walker's `readBE16`). */
  function BE16(b: seq<Byte>, pos: int): (w: nat)
    ensures w < 0x1_0000
    ensures 0 <= pos && pos + 1 < |b| ==> w == ReadU16(b, pos, false)
  {
    At(b, pos) * 0x100 + At(b, pos + 1)
  }

  /** Big-endian unsigned 32-bit word built from four fail-soft byte reads. */
  function BE32(b: seq<Byte>, pos: int): (w: nat)
    ensures w < 0x1_0000_0000
    ensures 0 <= pos && pos + 3 < |b| ==> w == ReadU32(b, pos, false)
  {
    ((At(b, pos) * 0x100 + At(b, pos + 1)) * 0x100 + At(b, pos + 2)) * 0x100 + At(b, pos + 3)
  }

  /**
   * Guarded 16-bit read in the given byte order, as the EXIF and TIFF readers do it:
   * the whole word reads as 0 when its last byte lies past the end; a byte before
   * the start of the buffer reads as 0 on its own.
   */
  function ReadU16(b: seq<Byte>, pos: int, littleEndian: bool): (w: nat)
    ensures w < 0x1_0000
    ensures pos + 1 >= |b| ==> w == 0
  {
    if pos + 1 >= |b| then 0
    else if littleEndian then At(b, pos) + At(b, pos + 1) * 0x100
    else At(b, pos) * 0x100 + At(b, pos + 1)
  }

  /** Guarded unsigned 32-bit read in the given byte order: 0 when its last byte lies past the end. */
  function ReadU32(b: seq<Byte>, pos: int, littleEndian: bool): (w: nat)
    ensures w < 0x1_0000_0000
    ensures pos + 3 >= |b| ==> w == 0
  {
    if pos + 3 >= |b| then 0
    else if littleEndian then ((At(b, pos + 3) * 0x100 + At(b, pos + 2)) * 0x100 + At(b, pos + 1)) * 0x100 + At(b, pos)
    else ((At(b, pos) * 0x100 + At(b, pos + 1)) * 0x100 + At(b, pos + 2)) * 0x100 + At(b, pos + 3)
  }

  /**
   * The signed 32-bit integer with the same bits as `w`: what JavaScript's `|`
   * and `<<` operators produce when the top byte is 0x80 or more.
   */
  function ToInt32(w: nat): (v: int)
    requires w < 0x1_0000_0000
    ensures -0x8000_0000 <= v < 0x8000_0000
    ensures v == w || v == w - 0x1_0000_0000
  {
    if w < 0x8000_0000 then w else w - 0x1_0000_0000
  }

  /** A 32-bit read whose result the analyzer leaves signed (no `>>> 0`). */
  function ReadI32(b: seq<Byte>, pos: int, littleEndian: bool): (v: int)
    ensures -0x8000_0000 <= v < 0x8000_0000
    ensures v >= 0 ==> v == ReadU32(b, pos, littleEndian)
    ensures v < 0 ==> v == ReadU32(b, pos, littleEndian) - 0x1_0000_0000
  {
    ToInt32(ReadU32(b, pos, littleEndian))
  }

  /** The two bytes that store `w` in the given byte order (the inverse of `ReadU16`). */
  function U16Bytes(w: nat, littleEndian: bool): (s: seq<Byte>)
    requires w < 0x1_0000
    ensures |s| == 2
  {
    if littleEndian then [w % 0x100, w / 0x100] else [w / 0x100, w % 0x100]
  }

  /** The four bytes that store `w` in the given byte order (the inverse of `ReadU32`). */
  function U32Bytes(w: nat, littleEndian: bool): (s: seq<Byte>)
    requires w < 0x1_0000_0000
    ensures |s| == 4
  {
    var hi := U16Bytes(w / 0x1_0000, littleEndian);
    var lo := U16Bytes(w % 0x1_0000, littleEndian);
    if littleEndian then lo + hi else hi + lo
  }

  /** A 16-bit word written in either byte order reads back unchanged, wherever it sits. */
  lemma ReadU16RoundTrip(pre: seq<Byte>, w: nat, littleEndian: bool, post: seq<Byte>)
    requires w < 0x1_0000
    ensures ReadU16(pre + U16Bytes(w, littleEndian) + post, |pre|, littleEndian) == w
  {
    var b := pre + U16Bytes(w, littleEndian) + post;
    assert b[|pre|] == U16Bytes(w, littleEndian)[0];
    assert b[|pre| + 1] == U16Bytes(w, littleEndian)[1];
  }

  /** A 32-bit word written in either byte order reads back unchanged, wherever it sits. */
  lemma ReadU32RoundTrip(pre: seq<Byte>, w: nat, littleEndian: bool, post: seq<Byte>)
    requires w < 0x1_0000_0000
    ensures ReadU32(pre + U32Bytes(w, littleEndian) + post, |pre|, littleEndian) == w
  {
    var b := pre + U32Bytes(w, littleEndian) + post;
    var s := U32Bytes(w, littleEndian);
    assert b[|pre|] == s[0] && b[|pre| + 1] == s[1] && b[|pre| + 2] == s[2] && b[|pre| + 3] == s[3];
  }

  /**
   * How `slice` reads one of its bounds: a negative bound counts back from the
   * end, and both kinds are clamped to the buffer.
   */
  function RelativeIndex(i: int, len: nat): (k: nat)
    ensures k <= len
    ensures 0 <= i ==> k == Min(i, len)
    ensures i < 0 ==> k == Max(len + i, 0)
  {
    if i < 0 then Max(len + i, 0) else Min(i, len)
  }

  /** JavaScript's `slice(start, end)`: bounds read by `RelativeIndex`, empty when they cross. */
  function Slice(b: seq<Byte>, start: int, end: int): (s: seq<Byte>)
    ensures 0 <= start <= end <= |b| ==> s == b[start..end]
    ensures |s| == Max(0, RelativeIndex(end, |b|) - RelativeIndex(start, |b|))
    ensures forall k :: 0 <= k < |s| ==> s[k] == b[RelativeIndex(start, |b|) + k]
  {
    var lo, hi := RelativeIndex(start, |b|), RelativeIndex(end, |b|);
    if lo < hi then b[lo..hi] else []
  }

  /** Latin-1 decoding: every byte becomes the character with the same code. */
  function Latin1(b: seq<Byte>): (s: string)
    ensures |s| == |b|
  {
    seq(|b|, i requires 0 <= i < |b| => b[i] as char)
  }

  /** Latin-1 encoding of a string whose characters all fit in a byte (the inverse of `Latin1`). */
  function Latin1Bytes(s: string): (b: seq<Byte>)
    requires forall i :: 0 <= i < |s| ==> s[i] as int < 256
    ensures |b| == |s|
  {
    seq(|s|, i requires 0 <= i < |s| => s[i] as int)
  }

  /** Decoding loses nothing: the bytes can be recovered from the text. */
  lemma Latin1RoundTrip(b: seq<Byte>)
    ensures forall i :: 0 <= i < |Latin1(b)| ==> Latin1(b)[i] as int < 256
    ensures Latin1Bytes(Latin1(b)) == b
  {
  }

  /** The bytes of an ASCII string, used for the fixed segment signatures. */
  function Ascii(s: string): (b: seq<Byte>)
    ensures |b| == |s|
  {
    seq(|s|, i requires 0 <= i < |s| => (s[i] as int) % 256)
  }

  /**
   * The signature `sig` occurs at `pos`. Every signature the analyzers test lies
   * inside the segment they already bounds-checked, so the fail-soft reads of the
   * analyzers and this in-range comparison agree.
   */
  predicate HasSignature(b: seq<Byte>, pos: int, sig: seq<Byte>)
  {
    0 <= pos && pos + |sig| <= |b| && forall k :: 0 <= k < |sig| ==> b[pos + k] == sig[k]
  }

  /**
   * `bytesToString(bytes, start, end)`: the Latin-1 text of a clamped slice, built
   * one character at a time.
   */
  method BytesToString(b: seq<Byte>, start: int, end: int) returns (s: string)
    ensures s == Latin1(Slice(b, start, end))
    ensures |s| <= |b|
  {
    var slice := Slice(b, start, end);
    s := "";
    var i := 0;
    while i < |slice|
      invariant 0 <= i <= |slice|
      invariant |s| == i
      invariant forall k :: 0 <= k < i ==> s[k] == slice[k] as char
    {
      s := s + [slice[i] as char];
      i := i + 1;
    }
  }
}
