/** The block format of the allocator: how a (size, allocated) pair is packed
    into one 32-bit header or footer word, how a payload pointer leads to its
    header, its footer and its neighbours, and how request sizes are rounded.

    The heap is a sequence of words; a pointer is a byte offset from the start
    of the heap, so the word at byte offset p is mem[p / 4]. */
module BlockFormat {

  const WSIZE: int := 4          // word and header/footer size (bytes)
  const DSIZE: int := 8          // double word size (bytes)
  const CHUNKSIZE: int := 4096   // extend the heap by this amount (bytes), 1 << 12
  // Arithmetic below is written with the literal values of these constants,
  // which keeps it linear for the solver.

  /** PACK(size, alloc): size | alloc, where alloc is the single bit 0 or 1. */
  function Pack(size: nat, alloc: nat): (w: nat)
    requires alloc <= 1
    ensures w == size || (alloc == 1 && w == size + 1)
    ensures alloc == 0 ==> w == size
  {
    if alloc == 1 && size % 2 == 0 then size + 1 else size
  }

  /** GET_SIZE: the word with its three low bits cleared (w & ~0x7). */
  function GetSize(w: nat): (s: nat)
    ensures s % 8 == 0 && s <= w < s + 8
  {
    w - w % 8
  }

  /** GET_ALLOC: the low bit of the word (w & 0x1). */
  function GetAlloc(w: nat): (a: nat)
    ensures a <= 1
    ensures a == 1 <==> w % 2 == 1
  {
    w % 2
  }

  /** The word 8 * k + r, for a bit r, holds r in its three low bits and
      in bit 0. */
  lemma LowBits(k: nat, r: nat)
    requires r <= 1
    ensures (8 * k + r) % 8 == r && (8 * k + r) % 2 == r
  {
    var q, s := (8 * k + r) / 8, (8 * k + r) % 8;
    assert 8 * (k - q) == s - r;
    var q2, s2 := (8 * k + r) / 2, (8 * k + r) % 2;
    assert 2 * (4 * k - q2) == s2 - r;
  }

  /** Unpacking a packed word gives back the size and the bit, whenever the
      size is a multiple of the alignment, as every block size is. */
  lemma PackRoundTrip(size: nat, alloc: nat)
    requires size % 8 == 0 && alloc <= 1
    ensures GetSize(Pack(size, alloc)) == size
    ensures GetAlloc(Pack(size, alloc)) == alloc
  {
    var k := size / 8;
    assert size == 8 * k;
    LowBits(k, 0);
    LowBits(k, alloc);
  }

  /** Conversely, a word whose bits 1 and 2 are clear is the packing of its
      own size and allocated bit. */
  lemma UnpackRoundTrip(w: nat)
    requires w % 8 <= 1
    ensures Pack(GetSize(w), GetAlloc(w)) == w
  {
    var k, r := w / 8, w % 8;
    assert w == 8 * k + r;
    LowBits(k, 0);
    LowBits(k, r);
  }

  /** Two packed words are equal exactly when their sizes and bits are. */
  lemma PackInjective(s1: nat, a1: nat, s2: nat, a2: nat)
    requires s1 % 8 == 0 && s2 % 8 == 0 && a1 <= 1 && a2 <= 1
    ensures Pack(s1, a1) == Pack(s2, a2) <==> s1 == s2 && a1 == a2
  {
    PackRoundTrip(s1, a1);
    PackRoundTrip(s2, a2);
  }

  /** GET(p): the word at byte offset p. */
  function Get(mem: seq<nat>, p: int): (w: nat)
    requires p % 4 == 0 && 0 <= p < 4 * |mem|
  {
    mem[p / 4]
  }

  /** A byte offset that names a word inside the heap. */
  predicate InHeap(mem: seq<nat>, p: int)
  {
    p % 4 == 0 && 0 <= p < 4 * |mem|
  }

  /** HDRP(bp): the header sits in the word just before the payload. */
  function Hdrp(bp: int): (p: int)
  {
    bp - 4
  }

  /** FTRP(bp): the footer is the last word of the block, found through the
      size in the block's header. */
  function Ftrp(mem: seq<nat>, bp: int): (p: int)
    requires InHeap(mem, Hdrp(bp))
  {
    bp + GetSize(Get(mem, Hdrp(bp))) - 8
  }

  /** NEXT_BLKP(bp): step forward over this block, by the size in its header. */
  function NextBlkp(mem: seq<nat>, bp: int): (p: int)
    requires InHeap(mem, bp - 4)
  {
    bp + GetSize(Get(mem, bp - 4))
  }

  /** PREV_BLKP(bp): step back over the previous block, by the size in its
      footer, the word two before the payload. */
  function PrevBlkp(mem: seq<nat>, bp: int): (p: int)
    requires InHeap(mem, bp - 8)
  {
    bp - GetSize(Get(mem, bp - 8))
  }

  /** The source's int max. */
  function Max(x: int, y: int): (m: int)
    ensures m >= x && m >= y
    ensures m == x || m == y
  {
    if x > y then x else y
  }

  /** adjust_size(words): the word count rounded up to an even number, in
      bytes, so that every block the heap grows by stays double-word sized. */
  function AdjustSize(words: nat): (bytes: nat)
    ensures bytes % 8 == 0
    ensures 4 * words <= bytes < 4 * words + 8
    ensures bytes == 4 * words <==> words % 2 == 0
  {
    if words % 2 == 1 then (words + 1) * 4 else words * 4
  }

  /** adjust(size): the block size for a request of size payload bytes:
      the minimum block (16) for at most a double word, otherwise the least
      multiple of 8 that holds the payload plus header and footer. */
  function Adjust(size: nat): (asize: nat)
    ensures asize % 8 == 0 && asize >= 16
    ensures size <= 8 ==> asize == 16
    ensures 8 < size ==> size + 8 <= asize < size + 16
  {
    if size <= 8 then 16 else 8 * ((size + 8 + 7) / 8)
  }

  /** Growing by an adjusted size: a block size is an even number of words,
      so adjust_size of its word count gives the same number of bytes back. */
  lemma AdjustSizeOfBlockSize(bytes: nat)
    requires bytes % 8 == 0
    ensures AdjustSize(bytes / 4) == bytes
  {
  }
}
