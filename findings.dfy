/**
 * Four places where mm.c as written does not do what it evidently means to.
 * Each is modelled here as the code has it, with an input that shows the
 * difference; the rest of the model uses the corrected behaviour.
 *
 * size_t is 64 bits wide: unsigned arithmetic on it is taken modulo 2^64.
 */
module Findings {
  import opened Layout
  import opened Blocks
  import Mm

  /** One more than the largest size_t. */
  const WORD_RANGE: nat := 0x1_0000_0000_0000_0000

  // -------------------------------------------------------------------
  // MAX is a minimum
  // -------------------------------------------------------------------

  /**
   * The heap growth malloc asks for, through the MAX macro as defined: the
   * comparison picks the smaller of asize and CHUNKSIZE.
   */
  function ExtendSizeAsWritten(asize: nat): (n: nat)
    ensures n <= asize && n <= CHUNKSIZE && (n == asize || n == CHUNKSIZE)
  {
    if asize < CHUNKSIZE then asize else CHUNKSIZE
  }

  /** malloc's growth step as written: extend_heap(MAX(asize, CHUNKSIZE) / WSIZE). */
  function GrowAsWritten(h: Heap, asize: nat, capacity: nat): (r: Option<(Heap, nat)>)
    requires |h.blocks| >= 1
    ensures r.None? <==> HeapWords(h.blocks) + EvenWords(ExtendSizeAsWritten(asize) / WSIZE) > capacity
  {
    Extend(h, ExtendSizeAsWritten(asize) / WSIZE, capacity)
  }

  /**
   * place's split test with size_t operands: csize - asize wraps around
   * when asize is the larger.
   */
  function SplitsAsWritten(csize: nat, asize: nat): (b: bool)
    ensures asize <= csize < WORD_RANGE ==> (b <==> csize - asize >= 2 * DSIZE)
    ensures csize < asize <= csize + WORD_RANGE - 2 * DSIZE ==> b
  {
    (csize - asize) % WORD_RANGE >= 2 * DSIZE
  }

  /**
   * malloc(4000) on a fresh heap splits the 4096-byte chunk: a 4008-byte
   * block is handed out, an 88-byte free block is left, and the rover stays
   * on the allocated block.
   */
  lemma {:induction false} FirstMalloc(cap: nat)
    requires cap >= 1028
    ensures Malloc(Init(cap).0, 4000, cap) == (Heap([Prologue, Block(4008, true), Block(88, false)], 1), Some(1))
    ensures HeapWords([Prologue, Block(4008, true), Block(88, false)]) == 1028
  {
    var h0 := Init(cap).0;
    assert FirstFit(h0.blocks, 0, 2, 4008) == Some(1);
    var bs := [Prologue, Block(4008, true), Block(88, false)];
    assert h0.blocks[..1] + [Block(4008, true), Block(88, false)] + h0.blocks[2..] == bs;
    TotalTwo(Prologue, Block(4008, true));
    TotalConcat([Prologue, Block(4008, true)], [Block(88, false)]);
    TotalOne(Block(88, false));
    assert [Prologue, Block(4008, true)] + [Block(88, false)] == bs;
  }

  /**
   * After malloc(4000) on a fresh heap, malloc(5000) finds no fit and grows
   * the heap by only CHUNKSIZE bytes; the block that growth leaves is 4184
   * bytes, too small for the 5008 bytes then placed in it, and place's
   * wrapped-around test still splits it, writing a header beyond the heap.
   */
  lemma {:induction false} MaxIsMin()
    ensures var cap := 0x10_0000;
      var h := Malloc(Init(cap).0, 4000, cap).0;
      var g := GrowAsWritten(h, AdjustSize(5000), cap);
      && h == Heap([Prologue, Block(4008, true), Block(88, false)], 1)
      && AdjustSize(5000) == 5008
      && NextFit(h, 5008).None?
      && g.Some? && g.value.0.blocks[g.value.1] == Block(4184, false)
      && !Fits(g.value.0.blocks[g.value.1], 5008)
      && SplitsAsWritten(4184, 5008)
  {
    var cap := 0x10_0000;
    FirstMalloc(cap);
    var bs := [Prologue, Block(4008, true), Block(88, false)];
    var h := Heap(bs, 1);
    assert FirstFit(bs, 1, 3, 5008) == None;
    assert FirstFit(bs, 0, 1, 5008) == None;
    var grown := bs + [Block(CHUNKSIZE, false)];
    assert grown[2..4] == [Block(88, false), Block(CHUNKSIZE, false)];
    TotalTwo(Block(88, false), Block(CHUNKSIZE, false));
    var g := GrowAsWritten(h, 5008, cap);
    assert g == Some(Coalesce(Heap(grown, 1), 3));
    assert g.value.1 == 2 && g.value.0.blocks[2] == Block(4184, false);
  }

  /**
   * The corrected growth fails sooner: after malloc(4000) on a heap that may
   * not grow past 1056 words, malloc(100) finds no fit for its 112 bytes and
   * a 4096-byte chunk exceeds the capacity, so it returns NULL, while the
   * code's growth by only 112 bytes still fits.
   */
  lemma {:induction false} CorrectedGrowthFailsSooner()
    ensures var cap := 1056;
      var h := Malloc(Init(cap).0, 4000, cap).0;
      && AdjustSize(100) == 112
      && Malloc(h, 100, cap).1.None?
      && GrowAsWritten(h, 112, cap).Some?
  {
    FirstMalloc(1056);
    var bs := [Prologue, Block(4008, true), Block(88, false)];
    assert FirstFit(bs, 1, 3, 112) == None;
    assert FirstFit(bs, 0, 1, 112) == None;
  }

  // -------------------------------------------------------------------
  // size + 15 wraps
  // -------------------------------------------------------------------

  /** malloc's size adjustment with size_t arithmetic. */
  function AdjustSizeAsWritten(size: nat): (asize: nat)
    requires size < WORD_RANGE
    ensures asize % DSIZE == 0
    ensures size + 2 * DSIZE <= WORD_RANGE ==> asize == AdjustSize(size)
  {
    if size <= DSIZE then 2 * DSIZE
    else DSIZE * (((size + DSIZE + (DSIZE - 1)) % WORD_RANGE) / DSIZE)
  }

  /**
   * A request within 15 bytes of the largest size_t wraps to an adjusted
   * size of 0: smaller than the request, and than any block.
   */
  lemma AdjustSizeWraps()
    ensures AdjustSizeAsWritten(WORD_RANGE - 8) == 0
    ensures AdjustSize(WORD_RANGE - 8) >= WORD_RANGE
  {
  }

  // -------------------------------------------------------------------
  // calloc
  // -------------------------------------------------------------------

  /** The byte count calloc passes to malloc: the product in size_t. */
  function CallocBytesAsWritten(nmemb: nat, size: nat): (n: nat)
    ensures n < WORD_RANGE
    ensures Mm.CallocBytes(nmemb, size) < WORD_RANGE ==> n == Mm.CallocBytes(nmemb, size)
  {
    Mm.CallocBytes(nmemb, size) % WORD_RANGE
  }

  /**
   * calloc as written: malloc of the wrapped product, then memset of that
   * many bytes at whatever malloc returned, NULL included. The result is
   * the heap, the block malloc chose (None for NULL), and the length of the
   * memset.
   */
  function CallocAsWritten(h: Heap, nmemb: nat, size: nat, capacity: nat): (r: (Heap, Option<nat>, nat))
    requires Good(h)
    ensures r.2 == CallocBytesAsWritten(nmemb, size)
    ensures r.1.None? ==> r.0 == h
  {
    var bytes := CallocBytesAsWritten(nmemb, size);
    var (h', r) := Malloc(h, bytes, capacity);
    (h', r, bytes)
  }

  /**
   * calloc(2^63 + 1, 2) asks for more than 2^64 bytes, but the product
   * wraps to 2 and a 16-byte block comes back.
   */
  lemma {:induction false} CallocProductWraps()
    ensures var cap := 0x10_0000;
      var c := CallocAsWritten(Init(cap).0, 0x8000_0000_0000_0001, 2, cap);
      && Mm.CallocBytes(0x8000_0000_0000_0001, 2) > Mm.SIZE_MAX
      && c.1 == Some(1) && c.2 == 2
      && c.0.blocks[1] == Block(16, true)
  {
    var cap := 0x10_0000;
    TotalOne(Prologue);
    var h0 := Init(cap).0;
    assert FirstFit(h0.blocks, 0, 2, 16) == Some(1);
  }

  /**
   * When malloc fails, as it does for 5000 bytes on a heap that may not
   * grow past 1028 words, calloc still clears 5000 bytes at the NULL it got.
   */
  lemma {:induction false} CallocClearsNull()
    ensures var cap := 1028;
      var c := CallocAsWritten(Init(cap).0, 1, 5000, cap);
      && c.1.None? && c.2 == 5000
  {
    var cap := 1028;
    TotalOne(Prologue);
    var h0 := Init(cap).0;
    assert FirstFit(h0.blocks, 0, 2, 5008) == None;
    TotalTwo(Prologue, Block(CHUNKSIZE, false));
    assert HeapWords(h0.blocks) == 1028;
  }
}
