/**
 * Block layout of the implicit-list allocator: the header word that packs a
 * block size with an allocated bit, and the address arithmetic that finds a
 * block's header, footer and neighbours.
 *
 * Addresses are word indices into the heap (one word = 4 bytes); the byte
 * address of index p is 4 * p above an 8-aligned heap base, so a block
 * pointer is 8-aligned exactly when its index is even. Words are unsigned.
 */
module Layout {

  /** Word size and double-word size in bytes. */
  const WSIZE: nat := 4
  const DSIZE: nat := 8
  /** The heap grows by this many bytes when no fit exists. */
  const CHUNKSIZE: nat := 4096

  /** Clears the three low bits of a header word (`w & ~0x7`). */
  function GetSize(w: nat): (s: nat)
    ensures s % 8 == 0 && s <= w < s + 8
  {
    w / 8 * 8
  }

  /** The low bit of a header word (`w & 0x1`). */
  function GetAlloc(w: nat): (a: nat)
    ensures a <= 1 && (w - a) % 2 == 0
  {
    w % 2
  }

  /**
   * Bitwise OR of a size with an allocated bit of 0 or 1. For an 8-aligned
   * size the two fields can be read back unchanged.
   */
  function Pack(size: nat, alloc: nat): (w: nat)
    requires alloc <= 1
    ensures size % 8 == 0 ==> GetSize(w) == size && GetAlloc(w) == alloc
    ensures w == size || w == size + 1
  {
    if size % 2 == 1 then size else size + alloc
  }

  /** Header of the block whose payload starts at bp. */
  function Hdrp(bp: int): (h: int)
    ensures h + 1 == bp
  {
    bp - 1
  }

  /** Footer of the block at bp, found through the size in its header. */
  function Ftrp(mem: seq<nat>, bp: int): (f: int)
    requires 1 <= bp <= |mem|
    ensures WSIZE * (f + 2 - bp) == GetSize(mem[bp - 1])
  {
    WordsOfSize(GetSize(mem[bp - 1]));
    bp + GetSize(mem[bp - 1]) / WSIZE - 2
  }

  /** Payload of the following block, found through this block's header. */
  function NextBlkp(mem: seq<nat>, bp: int): (n: int)
    requires 1 <= bp <= |mem|
    ensures WSIZE * (n - bp) == GetSize(mem[bp - 1])
  {
    WordsOfSize(GetSize(mem[bp - 1]));
    bp + GetSize(mem[bp - 1]) / WSIZE
  }

  /** Payload of the preceding block, found through that block's footer. */
  function PrevBlkp(mem: seq<nat>, bp: int): (p: int)
    requires 2 <= bp <= |mem| + 1
    ensures WSIZE * (bp - p) == GetSize(mem[bp - 2])
  {
    WordsOfSize(GetSize(mem[bp - 2]));
    bp - GetSize(mem[bp - 2]) / WSIZE
  }

  /**
   * Once a block's header holds PACK(size, alloc), its footer sits two words
   * before the next block's payload, which is size bytes further on.
   */
  lemma HeaderAddressing(mem: seq<nat>, bp: int, size: nat, alloc: nat)
    requires 1 <= bp <= |mem| && alloc <= 1 && size % DSIZE == 0
    requires mem[bp - 1] == Pack(size, alloc)
    ensures GetSize(mem[Hdrp(bp)]) == size && GetAlloc(mem[Hdrp(bp)]) == alloc
    ensures NextBlkp(mem, bp) == bp + size / WSIZE && WSIZE * (NextBlkp(mem, bp) - bp) == size
    ensures Ftrp(mem, bp) == NextBlkp(mem, bp) - 2
  {
    assert GetSize(mem[bp - 1]) == size;
    WordsOfSize(size);
  }

  /**
   * The previous block is found through the footer word just below bp's
   * header: when that footer holds PACK(size, alloc), the previous payload is
   * size bytes back.
   */
  lemma FooterAddressing(mem: seq<nat>, bp: int, size: nat, alloc: nat)
    requires 2 <= bp <= |mem| + 1 && alloc <= 1 && size % DSIZE == 0
    requires mem[bp - 2] == Pack(size, alloc)
    ensures PrevBlkp(mem, bp) == bp - size / WSIZE
  {
    assert GetSize(mem[bp - 2]) == size;
  }

  /** An 8-aligned byte count is a whole, even number of words. */
  lemma WordsOfSize(size: nat)
    requires size % DSIZE == 0
    ensures WSIZE * (size / WSIZE) == size && (size / WSIZE) % 2 == 0
  {
    var q := size / 8;
    assert size == 8 * q;
    assert size / 4 == 2 * q;
  }

  /**
   * HeaderAddressing for a block known to end at word e: once its header
   * holds PACK(size, alloc), NEXT_BLKP(bp) is e and FTRP(bp) is e - 2.
   */
  lemma BlockAt(mem: seq<nat>, bp: int, size: nat, alloc: nat, e: int)
    requires 1 <= bp <= |mem| && alloc <= 1 && size % DSIZE == 0 && WSIZE * (e - bp) == size
    requires mem[bp - 1] == Pack(size, alloc)
    ensures GetSize(mem[Hdrp(bp)]) == size && GetAlloc(mem[Hdrp(bp)]) == alloc
    ensures NextBlkp(mem, bp) == e && Ftrp(mem, bp) == e - 2
  {
    HeaderAddressing(mem, bp, size, alloc);
  }

  /** FooterAddressing for a previous block known to start at word pb. */
  lemma PrevAt(mem: seq<nat>, bp: int, size: nat, alloc: nat, pb: int)
    requires 2 <= bp <= |mem| + 1 && alloc <= 1 && size % DSIZE == 0 && WSIZE * (bp - pb) == size
    requires mem[bp - 2] == Pack(size, alloc)
    ensures GetSize(mem[bp - 2]) == size && PrevBlkp(mem, bp) == pb
  {
    FooterAddressing(mem, bp, size, alloc);
  }
}
