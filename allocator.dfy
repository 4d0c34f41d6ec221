/**
 * The allocator itself: the heap words, heap_listp and the next-fit rover,
 * with the operations written as the code writes them, word by word through
 * the layout macros. Ghost fields hold the block chain the words encode; every
 * operation is proved to act on that chain as the corresponding function of
 * the Blocks module does, and to leave the words of every other live block
 * alone.
 */
module Mm {
  import opened Layout
  import opened Blocks
  import opened Chain

  /** NULL. Block pointers are word indices of at least 2, so 0 is never one. */
  const NULL: int := 0

  /** n zero words: what memset writes. */
  function Zeros(n: nat): (z: seq<nat>)
    ensures |z| == n && forall t :: 0 <= t < n ==> z[t] == 0
  {
    seq(n, _ => 0)
  }

  /** The largest size_t. */
  const SIZE_MAX: nat := 0xFFFF_FFFF_FFFF_FFFF

  /** The bytes realloc copies: the request, or the old block's size if that is smaller. */
  function CopiedBytes(size: nat, blockSize: nat): (n: nat)
    ensures n <= size && n <= blockSize && (n == size || n == blockSize)
  {
    if size < blockSize then size else blockSize
  }

  /** The bytes calloc asks for: nmemb elements of size bytes each. */
  function CallocBytes(nmemb: nat, size: nat): (n: nat)
    ensures n == 0 <==> nmemb == 0 || size == 0
    ensures nmemb >= 1 ==> n >= size
  {
    nmemb * size
  }

  /** Whole words needed to hold n bytes. */
  function WordsFor(n: nat): nat
  {
    (n + WSIZE - 1) / WSIZE
  }

  /**
   * After realloc's copy (m1 to m2) and its free (m2 to mem): the copy of
   * the old payload is still at the front of the new block, which is still
   * live, and every other live block is as it was.
   */
  lemma RelocateFacts(m1: seq<nat>, a1: seq<int>, bs1: seq<Block>, m2: seq<nat>,
                      mem: seq<nat>, addrs: seq<int>, blocks: seq<Block>, kn: nat, ko: nat, size: nat)
    returns (k: nat)
    requires Laid(m1, a1, bs1) && Laid(m2, a1, bs1)
    requires kn < |bs1| && bs1[kn].alloc && bs1[kn].size - DSIZE >= size
    requires ko < |bs1| && bs1[ko].size >= DSIZE && a1[kn] != a1[ko]
    requires LiveKept(m1, a1, bs1, m2, a1, bs1, {a1[kn]}) && LiveKept(m2, a1, bs1, mem, addrs, blocks, {a1[ko]})
    requires Copied(m2, a1[kn], m1, a1[ko], WordsFor(CopiedBytes(size, bs1[ko].size)))
    ensures LiveKept(m1, a1, bs1, mem, addrs, blocks, {a1[kn], a1[ko]})
    ensures k < |blocks| && k < |addrs| && addrs[k] == a1[kn] && blocks[k] == bs1[kn]
    ensures Copied(mem, a1[kn], m1, a1[ko], WordsFor(CopiedBytes(size, bs1[ko].size - DSIZE)))
  {
    LiveKeptTrans(m1, a1, bs1, m2, a1, bs1, mem, addrs, blocks, {a1[kn]}, {a1[ko]});
    assert {a1[kn]} + {a1[ko]} == {a1[kn], a1[ko]};
    assert KeptAt(m2, a1, bs1, mem, addrs, blocks, kn);
    k :| 0 <= k < |blocks| && k < |addrs| && addrs[k] == a1[kn] && blocks[k] == bs1[kn];
    assert BlockLaid(m2, a1, bs1, kn) && BlockLaid(m1, a1, bs1, ko);
    var n := WordsFor(CopiedBytes(size, bs1[ko].size - DSIZE));
    assert n <= WordsFor(CopiedBytes(size, bs1[ko].size)) && n + 2 <= a1[kn + 1] - a1[kn];
    CopiedKept(m2, a1[kn], m1, a1[ko], WordsFor(CopiedBytes(size, bs1[ko].size)), n, mem, a1[kn] - 1, a1[kn + 1] - 1);
  }

  /**
   * realloc as a whole: malloc (m0 to m1) kept every live block, and the
   * relocation (m1 to mem) kept all but the new block and the old one; the
   * new block was not live before, so only the old block is lost, and the
   * copy taken after malloc holds the old payload as it was before.
   */
  lemma MoveFacts(m0: seq<nat>, a0: seq<int>, bs0: seq<Block>, m1: seq<nat>, a1: seq<int>, bs1: seq<Block>,
                  mem: seq<nat>, addrs: seq<int>, blocks: seq<Block>, k: nat, oldptr: int, newptr: int, size: nat, n: nat)
    requires Laid(m0, a0, bs0) && Laid(m1, a1, bs1) && k < |bs0| && bs0[k].alloc && a0[k] == oldptr && bs0[k].size >= DSIZE
    requires LiveKept(m0, a0, bs0, m1, a1, bs1, {}) && NotLiveIn(a0, bs0, newptr)
    requires LiveKept(m1, a1, bs1, mem, addrs, blocks, {newptr, oldptr})
    requires n == WordsFor(CopiedBytes(size, bs0[k].size - DSIZE))
    requires Copied(mem, newptr, m1, oldptr, n)
    ensures LiveKept(m0, a0, bs0, mem, addrs, blocks, {oldptr})
    ensures Copied(mem, newptr, m0, oldptr, n)
  {
    LiveKeptTrans(m0, a0, bs0, m1, a1, bs1, mem, addrs, blocks, {}, {newptr, oldptr});
    assert {} + {newptr, oldptr} == {oldptr} + {newptr};
    LiveKeptDrop(m0, a0, bs0, mem, addrs, blocks, {oldptr}, newptr);
    assert KeptAt(m0, a0, bs0, m1, a1, bs1, k) && BlockLaid(m0, a0, bs0, k);
    CopiedSource(mem, newptr, m1, oldptr, n, m0, a0[k] - 1, a0[k + 1] - 1);
  }

  class Allocator {
    /** The heap words, from the alignment padding to the epilogue header. */
    var mem: seq<nat>
    /** The most words mem_sbrk will ever hand out. */
    const capacity: nat
    /** The prologue's payload address; 0 before mm_init, -1 after a failed one. */
    var heapListp: int
    /** Where the next-fit search starts. */
    var rover: int

    /** The blocks the words encode, the prologue first. */
    ghost var blocks: seq<Block>
    /** Payload address of each block, then that of the epilogue. */
    ghost var addrs: seq<int>
    /** The index of the block the rover points at. */
    ghost var roverIdx: nat

    /** The chain as the Blocks module sees it. */
    ghost function Abs(): Blocks.Heap
      reads this
    {
      Blocks.Heap(blocks, roverIdx)
    }

    /**
     * The words lay out the blocks after the prologue at heap_listp, the
     * rover is on a block and the heap is within capacity.
     */
    ghost predicate Tiled()
      reads this
    {
      && heapListp == 2
      && Laid(mem, addrs, blocks) && addrs[0] == heapListp
      && Shaped(blocks)
      && roverIdx < |blocks| && rover == addrs[roverIdx]
      && |mem| <= capacity
    }

    /** The invariant between calls: laid out and no two free blocks adjacent. */
    ghost predicate Valid()
      reads this
    {
      Tiled() && Coalesced(blocks)
    }

    /** An allocated block starts at p. */
    ghost predicate IsLive(p: int)
      reads this
    {
      exists k :: 0 <= k < |blocks| && k < |addrs| && addrs[k] == p && blocks[k].alloc
    }

    /** An allocated block starts at p, and its payload has room for n bytes. */
    ghost predicate LiveFor(p: int, n: nat)
      reads this
    {
      exists k :: 0 <= k < |blocks| && k < |addrs| && addrs[k] == p && blocks[k].alloc && blocks[k].size - DSIZE >= n
    }

    /** Before the first mm_init: heap_listp is still 0 and there are no heap words. */
    ghost predicate Unstarted()
      reads this
    {
      heapListp == 0 && mem == []
    }

    /** Before mm_init: no heap words yet. */
    constructor (capacity: nat)
      ensures this.capacity == capacity && mem == [] && heapListp == 0
    {
      this.capacity := capacity;
      mem := [];
      heapListp := 0;
      rover := 0;
      blocks := [];
      addrs := [];
      roverIdx := 0;
    }

    /**
     * mem_sbrk: grows the heap by words words and returns the old break, or
     * -1 when that would exceed the capacity. Nothing is promised about the
     * new words; this model fills them with zeros.
     */
    method Sbrk(words: nat) returns (brk: int)
      modifies `mem
      ensures |old(mem)| + words <= capacity ==>
        && brk == |old(mem)| && |mem| == |old(mem)| + words
        && forall p :: 0 <= p < |old(mem)| ==> mem[p] == old(mem)[p]
      ensures |old(mem)| + words > capacity ==> brk == -1 && mem == old(mem)
    {
      if |mem| + words <= capacity {
        brk := |mem|;
        mem := mem + Zeros(words);
      } else {
        brk := -1;
      }
    }

    /**
     * mm_init: lays down the padding word, the prologue and the epilogue, then
     * grows the heap by one chunk. -1 when either step runs out of capacity.
     */
    method Init() returns (r: int)
      requires heapListp == 0 && mem == []
      modifies this
      ensures r == 0 || r == -1
      ensures capacity < 4 ==> r == -1 && heapListp == -1 && mem == []
      ensures capacity >= 4 ==>
        && Valid()
        && Abs() == Blocks.Init(capacity).0
        && (r == 0 <==> Blocks.Init(capacity).1)
    {
      var brk := Sbrk(4);
      if brk == -1 {
        heapListp := -1;
        return -1;
      }
      mem := mem[brk := 0];
      mem := mem[brk + 1 := Pack(DSIZE, 1)];
      mem := mem[brk + 2 := Pack(DSIZE, 1)];
      mem := mem[brk + 3 := Pack(0, 1)];
      heapListp := brk + 2;
      rover := heapListp;
      blocks := [Prologue];
      addrs := [2, 4];
      roverIdx := 0;
      assert BlockLaid(mem, addrs, blocks, 0);
      var bp := ExtendHeap(CHUNKSIZE / WSIZE);
      if bp == NULL {
        return -1;
      }
      return 0;
    }

    /**
     * extend_heap: grows the heap by an even number of words, turns the old
     * epilogue into the header of one free block over the new words, writes a
     * new epilogue and coalesces the block with a free predecessor. NULL, with
     * nothing changed, when the heap cannot grow that much.
     */
    method ExtendHeap(words: nat) returns (bp: int)
      requires Valid() && words >= MinBlock / WSIZE
      modifies this
      ensures Valid()
      ensures var e := Extend(old(Abs()), words, capacity);
        && (e.None? ==> bp == NULL && unchanged(this))
        && (e.Some? ==> Abs() == e.value.0 && e.value.1 < |addrs| && bp == addrs[e.value.1] && bp != NULL)
      ensures bp != NULL ==> NotLiveIn(old(addrs), old(blocks), bp)
      ensures LiveKept(old(mem), old(addrs), old(blocks), mem, addrs, blocks, {})
    {
      HeapLength(mem, addrs, blocks);
      var size := if words % 2 == 1 then (words + 1) * WSIZE else words * WSIZE;
      ExtendCases(Abs(), words, capacity, size);
      bp := AddChunk(size);
      if bp == -1 {
        LiveKeptRefl(mem, addrs, blocks);
        return NULL;
      }
      ghost var m1, a1, bs1 := mem, addrs, blocks;
      ghost var j;
      bp, j := Coalesce(bp, |old(blocks)|);
      assert BlockLaid(mem, addrs, blocks, j);
      LiveKeptTrans(old(mem), old(addrs), old(blocks), m1, a1, bs1, mem, addrs, blocks, {}, {});
      FreeNotLive(old(mem), old(addrs), old(blocks), j);
    }

    /**
     * mem_sbrk followed by extend_heap's three writes: grows the heap by size
     * bytes, turns the old epilogue header into the header of a free block
     * over the new words and writes its footer and a new epilogue header.
     * -1, with nothing changed, when the heap cannot grow that much.
     */
    method AddChunk(size: nat) returns (bp: int)
      requires Valid() && size % DSIZE == 0 && size >= MinBlock
      modifies `mem, `blocks, `addrs
      ensures |old(mem)| + size / WSIZE > capacity ==> bp == -1 && unchanged(this)
      ensures |old(mem)| + size / WSIZE <= capacity ==>
        && bp == |old(mem)| == old(addrs)[|old(blocks)|]
        && blocks == old(blocks) + [Block(size, false)] && addrs == old(addrs) + [|mem|]
        && Tiled() && CoalescedExcept(blocks, |old(blocks)|)
        && LiveKept(old(mem), old(addrs), old(blocks), mem, addrs, blocks, {})
    {
      bp := Sbrk(size / WSIZE);
      if bp == -1 {
        return;
      }
      ghost var m0, a0, bs0 := old(mem), addrs, blocks;
      ghost var grown := mem;
      assert Laid(m0, a0, bs0) && forall p :: 0 <= p < |m0| ==> grown[p] == m0[p];
      TagChunk(bp, size, |mem|);
      ghost var a1, bs1 := a0 + [|mem|], bs0 + [Block(size, false)];
      assert Laid(mem, a1, bs1) && LiveKept(m0, a0, bs0, mem, a1, bs1, {}) by {
        AppendChunk(m0, a0, bs0, size, |mem|, grown, mem);
      }
      assert Shaped(bs1) && CoalescedExcept(bs1, |bs0|) && roverIdx < |bs1| by {
        AppendFacts(Abs(), size);
      }
      blocks, addrs := bs1, a1;
    }

    /**
     * coalesce's second case: the next block, at nb and ns bytes long, is
     * free. The header of bp gets the summed size, then the footer found
     * through that header, which is the next block's (it ends at ne).
     */
    method MergeNext(bp: int, size: nat, ghost ns: nat, ghost nb: int, ghost ne: int) returns (s: nat)
      requires 1 <= bp && size % DSIZE == 0 && ns % DSIZE == 0 && ns >= DSIZE
      requires WSIZE * (nb - bp) == size && WSIZE * (ne - nb) == ns && bp < nb && ne <= |mem|
      requires mem[bp - 1] == Pack(size, 0) && mem[nb - 1] == Pack(ns, 0)
      modifies `mem
      ensures s == size + ns
      ensures mem == old(mem)[bp - 1 := Pack(s, 0)][ne - 2 := Pack(s, 0)]
    {
      BlockAt(mem, bp, size, 0, nb);
      BlockAt(mem, nb, ns, 0, ne);
      s := size + GetSize(mem[Hdrp(NextBlkp(mem, bp))]);
      mem := mem[Hdrp(bp) := Pack(s, 0)];
      assert WSIZE * (ne - bp) == s by { assert WSIZE == 4; }
      BlockAt(mem, bp, s, 0, ne);
      mem := mem[Ftrp(mem, bp) := Pack(s, 0)];
    }

    /**
     * coalesce's third case: the previous block, at pb and ps bytes long, is
     * free. The footer of bp (which ends at ne) gets the summed size, then the
     * header of the block found through the footer below bp's header;
     * returns that block.
     */
    method MergePrev(bp: int, size: nat, ghost ps: nat, ghost pb: int, ghost ne: int) returns (r: int, s: nat)
      requires size % DSIZE == 0 && size >= DSIZE && ps % DSIZE == 0 && ps >= DSIZE
      requires WSIZE * (bp - pb) == ps && WSIZE * (ne - bp) == size && 1 <= pb < bp && ne <= |mem|
      requires mem[bp - 1] == Pack(size, 0) && mem[bp - 2] == Pack(ps, 0) && mem[pb - 1] == Pack(ps, 0)
      modifies `mem
      ensures s == ps + size && r == pb
      ensures mem == old(mem)[ne - 2 := Pack(s, 0)][pb - 1 := Pack(s, 0)]
    {
      PrevAt(mem, bp, ps, 0, pb);
      BlockAt(mem, pb, ps, 0, bp);
      BlockAt(mem, bp, size, 0, ne);
      s := size + GetSize(mem[Hdrp(PrevBlkp(mem, bp))]);
      mem := mem[Ftrp(mem, bp) := Pack(s, 0)];
      PrevAt(mem, bp, ps, 0, pb);
      mem := mem[Hdrp(PrevBlkp(mem, bp)) := Pack(s, 0)];
      PrevAt(mem, bp, ps, 0, pb);
      r := PrevBlkp(mem, bp);
    }

    /**
     * coalesce's fourth case: both neighbours are free, the previous one at
     * pb (ps bytes) and the next one at nb (ns bytes, ending at ne). The
     * previous block's header gets the summed size, then the footer found
     * through the next block's header; returns the previous block.
     */
    method MergeBoth(bp: int, size: nat, ghost ps: nat, ghost ns: nat, ghost pb: int, ghost nb: int, ghost ne: int)
      returns (r: int, s: nat)
      requires size % DSIZE == 0 && ps % DSIZE == 0 && ns % DSIZE == 0 && ns >= DSIZE
      requires WSIZE * (bp - pb) == ps && WSIZE * (nb - bp) == size && WSIZE * (ne - nb) == ns
      requires 1 <= pb < bp < nb && ne <= |mem|
      requires mem[bp - 1] == Pack(size, 0) && mem[bp - 2] == Pack(ps, 0) && mem[pb - 1] == Pack(ps, 0)
      requires mem[nb - 1] == Pack(ns, 0) && mem[ne - 2] == Pack(ns, 0)
      modifies `mem
      ensures s == ps + size + ns && r == pb
      ensures mem == old(mem)[pb - 1 := Pack(s, 0)][ne - 2 := Pack(s, 0)]
    {
      PrevAt(mem, bp, ps, 0, pb);
      BlockAt(mem, pb, ps, 0, bp);
      BlockAt(mem, bp, size, 0, nb);
      BlockAt(mem, nb, ns, 0, ne);
      assert GetSize(mem[Ftrp(mem, NextBlkp(mem, bp))]) == ns by {
        assert mem[ne - 2] == Pack(ns, 0);
      }
      s := size + GetSize(mem[Hdrp(PrevBlkp(mem, bp))]) + GetSize(mem[Ftrp(mem, NextBlkp(mem, bp))]);
      mem := mem[Hdrp(PrevBlkp(mem, bp)) := Pack(s, 0)];
      BlockAt(mem, bp, size, 0, nb);
      BlockAt(mem, nb, ns, 0, ne);
      mem := mem[Ftrp(mem, NextBlkp(mem, bp)) := Pack(s, 0)];
      PrevAt(mem, bp, ps, 0, pb);
      r := PrevBlkp(mem, bp);
    }

    /**
     * The boundary-tag half of coalesce: reads the allocated bits of the
     * neighbours of the free block at bp and, in the four cases of the code,
     * rewrites the header and footer of the merged block. Returns the merged
     * block and its size.
     */
    method MergeTags(bp: int, ghost a: seq<int>, ghost bs: seq<Block>, ghost i: nat) returns (r: int, size: nat)
      requires Laid(mem, a, bs) && 1 <= i < |bs| && !bs[i].alloc && bp == a[i]
      modifies `mem
      ensures r == a[RunStart(bs, i)]
      ensures WroteRun(old(mem), a, RunStart(bs, i), RunEnd(bs, i), mem, size)
    {
      ghost var m0 := mem;
      CoalesceReads(m0, a, bs, i);
      Neighbourhood(m0, a, bs, i);
      var prevAlloc := GetAlloc(mem[Ftrp(mem, PrevBlkp(mem, bp))]);
      var nextAlloc := GetAlloc(mem[Hdrp(NextBlkp(mem, bp))]);
      size := GetSize(mem[Hdrp(bp)]);
      if prevAlloc == 1 && nextAlloc == 1 {
        assert RunStart(bs, i) == i && RunEnd(bs, i) == i + 1;
        r := bp;
        WroteNothing(m0, a, i, size);
      } else if prevAlloc == 1 && nextAlloc == 0 {
        assert RunStart(bs, i) == i && RunEnd(bs, i) == i + 2;
        size := MergeNext(bp, size, bs[i + 1].size, a[i + 1], a[i + 2]);
        r := bp;
        WroteEnds(m0, a, i, i + 2, size, bp - 1, a[i + 2] - 2, mem);
      } else if prevAlloc == 0 && nextAlloc == 1 {
        assert RunStart(bs, i) == i - 1 && RunEnd(bs, i) == i + 1;
        r, size := MergePrev(bp, size, bs[i - 1].size, a[i - 1], a[i + 1]);
        WroteEnds(m0, a, i - 1, i + 1, size, a[i - 1] - 1, a[i + 1] - 2, mem);
      } else {
        assert RunStart(bs, i) == i - 1 && RunEnd(bs, i) == i + 2;
        r, size := MergeBoth(bp, size, bs[i - 1].size, bs[i + 1].size, a[i - 1], a[i + 1], a[i + 2]);
        WroteEnds(m0, a, i - 1, i + 2, size, a[i - 1] - 1, a[i + 2] - 2, mem);
      }
    }

    /**
     * extend_heap's three writes over freshly grown words ending at e: the
     * header of the new block at bp (the old epilogue word), its footer, and
     * the new epilogue header after it.
     */
    method TagChunk(bp: int, size: nat, ghost e: int)
      requires 1 <= bp && size % DSIZE == 0 && size >= DSIZE && WSIZE * (e - bp) == size && e == |mem|
      modifies `mem
      ensures mem == old(mem)[bp - 1 := Pack(size, 0)][e - 2 := Pack(size, 0)][e - 1 := Pack(0, 1)]
    {
      mem := mem[Hdrp(bp) := Pack(size, 0)];
      BlockAt(mem, bp, size, 0, e);
      mem := mem[Ftrp(mem, bp) := Pack(size, 0)];
      BlockAt(mem, bp, size, 0, e);
      mem := mem[Hdrp(NextBlkp(mem, bp)) := Pack(0, 1)];
    }

    /**
     * coalesce: merges the free block at bp with whichever neighbours are
     * free (the four cases of the code), rewriting only the merged block's
     * header and footer, and moves a rover left strictly inside the merged
     * block to its start. Returns the merged block.
     */
    method Coalesce(bp: int, ghost i: nat) returns (r: int, ghost j: nat)
      requires Tiled() && CoalescedExcept(blocks, i)
      requires 1 <= i < |blocks| && !blocks[i].alloc && bp == addrs[i]
      modifies this
      ensures Valid() && |mem| == |old(mem)|
      ensures (Abs(), j) == Blocks.Coalesce(old(Abs()), i)
      ensures j <= i && j < |addrs| && r == addrs[j] && r == old(addrs)[j] && !old(blocks)[j].alloc
      ensures NotLiveIn(addrs, blocks, bp)
      ensures LiveKept(old(mem), old(addrs), old(blocks), mem, addrs, blocks, {})
    {
      ghost var m0, a, bs, ri := mem, addrs, blocks, roverIdx;
      ghost var lo, hi := RunStart(bs, i), RunEnd(bs, i);
      var size;
      r, size := MergeTags(bp, a, bs, i);
      CoalesceStep(m0, a, bs, i, ri, mem, size);
      blocks := Merge(bs, lo, hi);
      addrs := MergedAddrs(a, lo, hi);
      j := lo;
      if rover > r && rover < NextBlkp(mem, r) {
        rover := r;
      }
      roverIdx := RoverAfterMerge(ri, lo, hi);
    }

    /**
     * The header-then-footer pair of writes place makes: the block at bp,
     * size bytes long and ending at e, gets PACK(size, alloc) in its header
     * and then in the footer found through that header.
     */
    method TagBlock(bp: int, size: nat, alloc: nat, ghost e: int)
      requires 1 <= bp && e <= |mem| && WSIZE * (e - bp) == size
      requires size % DSIZE == 0 && size >= DSIZE && alloc <= 1
      modifies `mem
      ensures mem == old(mem)[bp - 1 := Pack(size, alloc)][e - 2 := Pack(size, alloc)]
    {
      mem := mem[Hdrp(bp) := Pack(size, alloc)];
      BlockAt(mem, bp, size, alloc, e);
      mem := mem[Ftrp(mem, bp) := Pack(size, alloc)];
    }

    /**
     * place's split: the first asize bytes of the free block at bp (csize
     * bytes, ending at e) are tagged allocated, then the block found after
     * them is tagged free with the remaining csize - asize bytes. Returns
     * where that remainder starts.
     */
    method SplitTags(bp: int, asize: nat, csize: nat, ghost e: int) returns (ghost m: int)
      requires 1 <= bp && e <= |mem| && WSIZE * (e - bp) == csize
      requires asize % DSIZE == 0 && asize >= MinBlock && csize % DSIZE == 0 && csize - asize >= MinBlock
      modifies `mem
      ensures WSIZE * (m - bp) == asize
      ensures mem == old(mem)[bp - 1 := Pack(asize, 1)][m - 2 := Pack(asize, 1)]
                             [m - 1 := Pack(csize - asize, 0)][e - 2 := Pack(csize - asize, 0)]
    {
      mem := mem[Hdrp(bp) := Pack(asize, 1)];
      HeaderAddressing(mem, bp, asize, 1);
      m := NextBlkp(mem, bp);
      mem := mem[Ftrp(mem, bp) := Pack(asize, 1)];
      BlockAt(mem, bp, asize, 1, m);
      var next := NextBlkp(mem, bp);
      TagBlock(next, csize - asize, 0, e);
    }

    /**
     * The body of place on the words: reads the size of the free block i at
     * bp and either splits it (at least a minimum block would remain) or
     * allocates it whole. Returns the payload addresses of the new chain.
     */
    method PlaceTags(bp: int, asize: nat, ghost a: seq<int>, ghost bs: seq<Block>, ghost ri: nat, ghost i: nat)
      returns (ghost a': seq<int>)
      requires Laid(mem, a, bs) && 1 <= i < |bs| && bp == a[i] && ri < |bs|
      requires Fits(bs[i], asize) && Sized(Block(asize, true))
      modifies `mem
      ensures var h' := Blocks.Place(Blocks.Heap(bs, ri), i, asize);
        && Laid(mem, a', h'.blocks)
        && LiveKept(old(mem), a, bs, mem, a', h'.blocks, {})
        && h'.rover < |h'.blocks| && a'[h'.rover] == a[ri]
        && a'[0] == a[0] && a'[i] == bp && |mem| == |old(mem)|
    {
      ghost var m0 := mem;
      Reading(mem, a, bs, i);
      var csize := GetSize(mem[Hdrp(bp)]);
      if csize - asize >= 2 * DSIZE {
        ghost var m := SplitTags(bp, asize, csize, a[i + 1]);
        SplitStep(m0, a, bs, ri, i, asize, m, mem);
        a' := SplitAddrs(a, i, m);
      } else {
        TagBlock(bp, csize, 1, a[i + 1]);
        WholeStep(m0, a, bs, ri, i, asize, mem);
        a' := a;
      }
    }

    /**
     * place: allocates asize bytes at the start of the free block i at bp,
     * splitting off the rest as a free block when at least a minimum block
     * remains. The rover is not touched; it stays on the same block.
     */
    method Place(bp: int, asize: nat, ghost i: nat)
      requires Valid() && 1 <= i < |blocks| && bp == addrs[i]
      requires Fits(blocks[i], asize) && Sized(Block(asize, true))
      modifies `mem, `blocks, `addrs, `roverIdx
      ensures Valid() && Abs() == Blocks.Place(old(Abs()), i, asize)
      ensures |mem| == |old(mem)| && rover == old(rover)
      ensures i < |addrs| && addrs[i] == bp && blocks[i].alloc
      ensures LiveKept(old(mem), old(addrs), old(blocks), mem, addrs, blocks, {})
    {
      ghost var h := Abs();
      assert Good(Blocks.Place(h, i, asize)) by { PlaceFacts(h, i, asize); }
      addrs := PlaceTags(bp, asize, addrs, blocks, roverIdx, i);
      blocks := Blocks.Place(h, i, asize).blocks;
      roverIdx := Blocks.Place(h, i, asize).rover;
    }

    /**
     * find_fit's first loop: walks from the block at p (block lo) towards the
     * epilogue and stops at the first free block with room for asize bytes,
     * or at the epilogue.
     */
    method ScanToEpilogue(asize: nat, p: int, ghost lo: nat) returns (q: int, ghost k: nat)
      requires Laid(mem, addrs, blocks) && lo <= |blocks| && p == addrs[lo]
      ensures lo <= k <= |blocks| && q == addrs[k] && 1 <= q <= |mem|
      ensures GetSize(mem[Hdrp(q)]) > 0 <==> k < |blocks|
      ensures FirstFit(blocks, lo, |blocks|, asize) == if k < |blocks| then Some(k) else None
    {
      q, k := p, lo;
      ReadingAt(mem, addrs, blocks, k);
      while GetSize(mem[Hdrp(q)]) > 0
        invariant lo <= k <= |blocks| && q == addrs[k] && 1 <= q <= |mem|
        invariant GetSize(mem[Hdrp(q)]) > 0 <==> k < |blocks|
        invariant FirstFit(blocks, lo, |blocks|, asize) == FirstFit(blocks, k, |blocks|, asize)
        decreases |blocks| - k
      {
        Reading(mem, addrs, blocks, k);
        if GetAlloc(mem[Hdrp(q)]) == 0 && asize <= GetSize(mem[Hdrp(q)]) {
          return;
        }
        q := NextBlkp(mem, q);
        k := k + 1;
        ReadingAt(mem, addrs, blocks, k);
      }
    }

    /**
     * find_fit's second loop: walks from heap_listp (block 0) up to the block
     * at limit (block hi) and stops at the first free block with room for
     * asize bytes, or at limit.
     */
    method ScanToRover(asize: nat, limit: int, ghost hi: nat) returns (q: int, ghost k: nat)
      requires Laid(mem, addrs, blocks) && addrs[0] == heapListp && hi <= |blocks| && limit == addrs[hi]
      ensures k <= hi && q == addrs[k] && heapListp <= q
      ensures q < limit <==> k < hi
      ensures FirstFit(blocks, 0, hi, asize) == if k < hi then Some(k) else None
    {
      q, k := heapListp, 0;
      AddrsOrdered(mem, addrs, blocks, k, hi);
      while q < limit
        invariant k <= hi && q == addrs[k] && heapListp <= q
        invariant q < limit <==> k < hi
        invariant FirstFit(blocks, 0, hi, asize) == FirstFit(blocks, k, hi, asize)
        decreases hi - k
      {
        Reading(mem, addrs, blocks, k);
        if GetAlloc(mem[Hdrp(q)]) == 0 && asize <= GetSize(mem[Hdrp(q)]) {
          return;
        }
        q := NextBlkp(mem, q);
        k := k + 1;
        AddrsOrdered(mem, addrs, blocks, k, hi);
      }
    }

    /**
     * find_fit: next fit. Searches from the rover to the epilogue, then from
     * heap_listp back up to where the rover was, and leaves the rover on the
     * first free block with room for asize bytes. NULL when no block fits;
     * the rover is then back where it started.
     */
    method FindFit(asize: nat) returns (bp: int)
      requires Valid()
      modifies `rover, `roverIdx
      ensures Valid()
      ensures var f := NextFit(old(Abs()), asize);
        && (f.None? <==> bp == NULL)
        && (f.None? ==> roverIdx == old(roverIdx) && rover == old(rover))
        && (f.Some? ==> bp == addrs[f.value] && roverIdx == f.value)
    {
      var oldrover := rover;
      var p;
      ghost var k;
      p, k := ScanToEpilogue(asize, rover, roverIdx);
      if GetSize(mem[Hdrp(p)]) > 0 {
        rover, roverIdx := p, k;
        return p;
      }
      p, k := ScanToRover(asize, oldrover, roverIdx);
      rover, roverIdx := p, k;
      if p < oldrover {
        return p;
      }
      return NULL;
    }

    /**
     * free: NULL is ignored. Otherwise the block at ptr (block k) gets
     * PACK(size, 0) in header and footer, with its size unchanged, and is
     * coalesced with free neighbours.
     */
    method Free(ptr: int, ghost k: nat)
      requires ptr == NULL || (Valid() && 1 <= k < |blocks| && addrs[k] == ptr && blocks[k].alloc)
      modifies this
      ensures ptr == NULL ==> unchanged(this)
      ensures ptr != NULL ==>
        && Valid() && Abs() == Blocks.Free(old(Abs()), k).0
        && !IsLive(ptr)
        && LiveKept(old(mem), old(addrs), old(blocks), mem, addrs, blocks, {ptr})
    {
      if ptr == NULL {
        return;
      }
      ghost var m0, a0, bs0 := mem, addrs, blocks;
      assert Laid(m0, a0, bs0);
      MarkFree(ptr, k);
      ghost var m1, bs1 := mem, blocks;
      assert Abs() == Blocks.Heap(old(blocks)[k := Block(old(blocks)[k].size, false)], old(roverIdx));
      var _, _ := Coalesce(ptr, k);
      assert !IsLive(ptr) by {
        assert NotLiveIn(addrs, blocks, ptr);
      }
      LiveKeptTrans(m0, a0, bs0, m1, a0, bs1, mem, addrs, blocks, {ptr}, {});
      assert {ptr} + {} == {ptr};
      var _, _ := CheckHeap(true);
    }

    /**
     * free's two writes: the block at ptr (block k) gets PACK(size, 0) in
     * header and footer, with the size read from its header. The chain then
     * has block k free, at most its neighbours uncoalesced, and every other
     * live block kept.
     */
    method MarkFree(ptr: int, ghost k: nat)
      requires Valid() && 1 <= k < |blocks| && addrs[k] == ptr && blocks[k].alloc
      modifies `mem, `blocks
      ensures blocks == old(blocks)[k := Block(old(blocks)[k].size, false)]
      ensures Tiled() && CoalescedExcept(blocks, k) && |mem| == |old(mem)|
      ensures LiveKept(old(mem), addrs, old(blocks), mem, addrs, blocks, {ptr})
    {
      Reading(mem, addrs, blocks, k);
      var size := GetSize(mem[Hdrp(ptr)]);
      ghost var m0 := mem;
      TagBlock(ptr, size, 0, addrs[k + 1]);
      FreeStep(m0, addrs, blocks, k, mem);
      ghost var freed := blocks[k := Block(size, false)];
      assert Shaped(freed) && CoalescedExcept(freed, k) by { MarkFreeFacts(Abs(), k); }
      blocks := freed;
    }

    /**
     * checkblock without its messages: the number of errors it reports for
     * the block at bp, one for a payload that is not double-word aligned (an
     * odd word index) and one for a header that differs from the footer.
     */
    method CheckBlock(bp: int, ghost k: nat) returns (errors: int)
      requires Laid(mem, addrs, blocks) && addrs[0] % 2 == 0 && k < |blocks| && bp == addrs[k]
      ensures errors == 0
    {
      Reading(mem, addrs, blocks, k);
      AddrsEven(mem, addrs, blocks, k);
      errors := 0;
      if bp % 2 != 0 {
        errors := errors + 1;
      }
      if mem[Hdrp(bp)] != mem[Ftrp(mem, bp)] {
        errors := errors + 1;
      }
    }

    /**
     * mm_checkheap without its messages: checks the prologue header, every
     * block up to the epilogue and the epilogue header. It returns 0 whatever
     * it finds; errors counts the error lines it reports, and there are none
     * on a heap that keeps the invariant.
     */
    method CheckHeap(verbose: bool) returns (r: int, errors: int)
      requires Valid()
      ensures r == 0 && errors == 0
    {
      errors := 0;
      Reading(mem, addrs, blocks, 0);
      if GetSize(mem[Hdrp(heapListp)]) != DSIZE || GetAlloc(mem[Hdrp(heapListp)]) == 0 {
        errors := errors + 1;
      }
      var e := CheckBlock(heapListp, 0);
      errors := errors + e;
      var bp := heapListp;
      ghost var k := 0;
      ReadingAt(mem, addrs, blocks, k);
      while GetSize(mem[Hdrp(bp)]) > 0
        invariant k <= |blocks| && bp == addrs[k] && 1 <= bp <= |mem| && errors == 0
        invariant GetSize(mem[Hdrp(bp)]) > 0 <==> k < |blocks|
        decreases |blocks| - k
      {
        Reading(mem, addrs, blocks, k);
        e := CheckBlock(bp, k);
        errors := errors + e;
        bp := NextBlkp(mem, bp);
        k := k + 1;
        ReadingAt(mem, addrs, blocks, k);
      }
      ReadingEpilogue(mem, addrs, blocks);
      if GetSize(mem[Hdrp(bp)]) != 0 || GetAlloc(mem[Hdrp(bp)]) == 0 {
        errors := errors + 1;
      }
      return 0, errors;
    }

    /**
     * malloc: runs mm_init first if it has not run, then allocates.
     */
    method Malloc(size: nat) returns (bp: int)
      requires (Unstarted() && capacity >= 4) || Valid()
      modifies this
      ensures Valid()
      ensures var h0 := if old(heapListp) == 0 then Blocks.Init(capacity).0 else old(Abs());
        var r := Blocks.Malloc(h0, size, capacity);
        && Abs() == r.0
        && (r.1.None? <==> bp == NULL)
        && (r.1.Some? ==> r.1.value < |addrs| && bp == addrs[r.1.value])
      ensures old(heapListp) != 0 && bp == NULL ==> unchanged(this)
      ensures old(heapListp) != 0 ==> LiveKept(old(mem), old(addrs), old(blocks), mem, addrs, blocks, {})
      ensures old(heapListp) != 0 && bp != NULL ==> NotLiveIn(old(addrs), old(blocks), bp)
      ensures bp != NULL ==> IsLive(bp) && LiveFor(bp, size)
    {
      ghost var h0 := if heapListp == 0 then Blocks.Init(capacity).0 else Abs();
      if heapListp == 0 {
        var _ := Init();
      }
      bp := Allocate(size);
      if bp != NULL {
        MallocFacts(h0, size, capacity);
        ghost var j := Blocks.Malloc(h0, size, capacity).1.value;
        assert addrs[j] == bp && blocks[j].alloc && blocks[j].size - DSIZE >= size;
      }
    }

    /**
     * The body of malloc once the heap exists. NULL for a zero request;
     * otherwise asize bytes go into the next fit, or into a new block when
     * the heap can grow by the larger of asize and a chunk, or the result is
     * NULL with the heap unchanged.
     */
    method Allocate(size: nat) returns (bp: int)
      requires Valid()
      modifies this
      ensures Valid()
      ensures var r := Blocks.Malloc(old(Abs()), size, capacity);
        && Abs() == r.0
        && (r.1.None? <==> bp == NULL)
        && (r.1.None? ==> unchanged(this))
        && (r.1.Some? ==> r.1.value < |addrs| && bp == addrs[r.1.value])
      ensures LiveKept(old(mem), old(addrs), old(blocks), mem, addrs, blocks, {})
      ensures bp != NULL ==> NotLiveIn(old(addrs), old(blocks), bp) && IsLive(bp)
    {
      if size == 0 {
        LiveKeptRefl(mem, addrs, blocks);
        return NULL;
      }
      var asize := AdjustSize(size);
      ghost var h := Abs();
      ghost var m0, a0, bs0 := mem, addrs, blocks;
      bp := FindFit(asize);
      if bp != NULL {
        PlaceFit(bp, asize, roverIdx);
        return bp;
      }
      bp := GrowAndPlace(asize);
    }

    /**
     * malloc when find_fit found block i, where the rover now points: places
     * asize bytes there and checks the heap. The block was free, so it was
     * not live before, and it is live after.
     */
    method PlaceFit(bp: int, asize: nat, ghost i: nat)
      requires Valid() && 1 <= i < |blocks| && bp == addrs[i] && i == roverIdx
      requires Fits(blocks[i], asize) && Sized(Block(asize, true))
      modifies `mem, `blocks, `addrs, `roverIdx
      ensures Valid() && Abs() == Blocks.Place(old(Abs()), i, asize)
      ensures i < |addrs| && bp == addrs[i]
      ensures LiveKept(old(mem), old(addrs), old(blocks), mem, addrs, blocks, {})
      ensures NotLiveIn(old(addrs), old(blocks), bp) && IsLive(bp)
    {
      FreeNotLive(mem, addrs, blocks, i);
      Place(bp, asize, i);
      var _, _ := CheckHeap(true);
    }

    /**
     * malloc when no block fits: grows the heap by the larger of asize and a
     * chunk and places asize bytes in the new block, or returns NULL with the
     * heap unchanged when it cannot grow.
     */
    method GrowAndPlace(asize: nat) returns (bp: int)
      requires Valid() && Sized(Block(asize, true))
      modifies this
      ensures Valid()
      ensures var g := Grow(old(Abs()), asize, capacity);
        && (g.None? ==> bp == NULL && unchanged(this))
        && (g.Some? ==> Abs() == Blocks.Place(g.value.0, g.value.1, asize)
                        && g.value.1 < |addrs| && bp == addrs[g.value.1] && bp != NULL)
      ensures LiveKept(old(mem), old(addrs), old(blocks), mem, addrs, blocks, {})
      ensures bp != NULL ==> NotLiveIn(old(addrs), old(blocks), bp) && IsLive(bp)
    {
      ghost var h := Abs();
      var extendsize := ExtendSize(asize);
      bp := ExtendHeap(extendsize / WSIZE);
      if bp == NULL {
        return NULL;
      }
      ghost var m1, a1, bs1 := mem, addrs, blocks;
      Place(bp, asize, Grow(h, asize, capacity).value.1);
      LiveKeptTrans(old(mem), old(addrs), old(blocks), m1, a1, bs1, mem, addrs, blocks, {}, {});
      var _, _ := CheckHeap(true);
      return bp;
    }

    /**
     * realloc's copy: reads the old block's size from its header, copies
     * the smaller of that and size bytes (rounded up to whole words) from
     * oldptr to newptr, and writes nothing else. The old block (osize bytes)
     * ends at oe, the new payload ends at ne - 2 and holds size bytes, and
     * the two blocks do not overlap.
     */
    method CopyPayload(newptr: int, oldptr: int, size: nat, ghost osize: nat, ghost oe: int, ghost ne: int)
      requires 1 <= oldptr && WSIZE * (oe - oldptr) == osize && oe <= |mem| && GetSize(mem[oldptr - 1]) == osize
      requires 1 <= newptr && WSIZE * (ne - 2 - newptr) >= size && ne <= |mem|
      requires ne <= oldptr || oe <= newptr
      modifies `mem
      ensures |mem| == |old(mem)|
      ensures Copied(mem, newptr, old(mem), oldptr, WordsFor(CopiedBytes(size, osize)))
      ensures forall p :: 0 <= p < |mem| && (p < newptr || p >= ne - 2) ==> mem[p] == old(mem)[p]
    {
      var oldsize := GetSize(mem[Hdrp(oldptr)]);
      if size < oldsize {
        oldsize := size;
      }
      var n := (oldsize + WSIZE - 1) / WSIZE;
      assert n == WordsFor(CopiedBytes(size, osize));
      assert n <= oe - oldptr && n <= ne - 2 - newptr;
      mem := mem[..newptr] + mem[oldptr..oldptr + n] + mem[newptr + n..];
    }

    /**
     * realloc: size 0 frees the old block and returns NULL; a NULL old
     * pointer makes it malloc; any other request moves the block (Move).
     */
    method Realloc(oldptr: int, size: nat, ghost k: nat) returns (newptr: int)
      requires (Unstarted() && capacity >= 4 && oldptr == NULL)
            || (Valid() && (oldptr == NULL || (1 <= k < |blocks| && addrs[k] == oldptr && blocks[k].alloc)))
      modifies this
      ensures size == 0 ==> newptr == NULL
      ensures size == 0 && oldptr == NULL ==> unchanged(this)
      ensures size == 0 && oldptr != NULL ==>
        Valid() && Abs() == Blocks.Free(old(Abs()), k).0 && !IsLive(oldptr)
        && LiveKept(old(mem), old(addrs), old(blocks), mem, addrs, blocks, {oldptr})
      ensures size != 0 && oldptr == NULL ==>
        var h0 := if old(heapListp) == 0 then Blocks.Init(capacity).0 else old(Abs());
        var r := Blocks.Malloc(h0, size, capacity);
        && Valid() && Abs() == r.0 && (r.1.None? <==> newptr == NULL)
        && (r.1.Some? ==> r.1.value < |addrs| && newptr == addrs[r.1.value])
        && (old(heapListp) != 0 && newptr == NULL ==> unchanged(this))
        && (old(heapListp) != 0 ==> LiveKept(old(mem), old(addrs), old(blocks), mem, addrs, blocks, {}))
        && (old(heapListp) != 0 && newptr != NULL ==> NotLiveIn(old(addrs), old(blocks), newptr))
        && (newptr != NULL ==> IsLive(newptr) && LiveFor(newptr, size))
      ensures size != 0 && oldptr != NULL ==>
        && (Blocks.Malloc(old(Abs()), size, capacity).1.None? <==> newptr == NULL)
        && (newptr == NULL ==> unchanged(this))
        && (newptr != NULL ==>
              && Valid() && IsLive(newptr) && LiveFor(newptr, size) && !IsLive(oldptr)
              && NotLiveIn(old(addrs), old(blocks), newptr)
              && LiveKept(old(mem), old(addrs), old(blocks), mem, addrs, blocks, {oldptr})
              && Copied(mem, newptr, old(mem), oldptr, WordsFor(CopiedBytes(size, old(blocks)[k].size - DSIZE))))
    {
      if size == 0 {
        Free(oldptr, k);
        return NULL;
      }
      if oldptr == NULL {
        newptr := Malloc(size);
        return;
      }
      newptr := Move(oldptr, size, k);
    }

    /**
     * The moving part of realloc: allocates a new block, returns NULL with
     * nothing changed if that fails, and else copies the old contents over
     * and frees the old block. What the old payload held (its first size
     * bytes when it is larger) is now at the front of the new block, and
     * every other live block keeps its place and its words.
     */
    method Move(oldptr: int, size: nat, ghost k: nat) returns (newptr: int)
      requires Valid() && 1 <= k < |blocks| && addrs[k] == oldptr && blocks[k].alloc && size != 0
      modifies this
      ensures Blocks.Malloc(old(Abs()), size, capacity).1.None? <==> newptr == NULL
      ensures newptr == NULL ==> unchanged(this)
      ensures newptr != NULL ==>
        && Valid() && IsLive(newptr) && LiveFor(newptr, size) && !IsLive(oldptr)
        && NotLiveIn(old(addrs), old(blocks), newptr)
        && LiveKept(old(mem), old(addrs), old(blocks), mem, addrs, blocks, {oldptr})
        && Copied(mem, newptr, old(mem), oldptr, WordsFor(CopiedBytes(size, old(blocks)[k].size - DSIZE)))
    {
      ghost var m0, a0, bs0, h := mem, addrs, blocks, Abs();
      ghost var n := WordsFor(CopiedBytes(size, bs0[k].size - DSIZE));
      assert Laid(m0, a0, bs0) && BlockLaid(m0, a0, bs0, k);
      newptr := Malloc(size);
      if newptr == NULL {
        return NULL;
      }
      ghost var kn := Blocks.Malloc(h, size, capacity).1.value;
      assert 1 <= kn < |blocks| && blocks[kn].alloc && blocks[kn].size - DSIZE >= size by {
        MallocFacts(h, size, capacity);
      }
      Relocate(newptr, oldptr, size, kn, m0, a0, bs0, k, n);
    }

    /**
     * Copies the old block into the new one (CopyPayload) and frees the old
     * block, right after the malloc that took the heap from m0 to the
     * current one. The new block stays live with the old payload of m0 at
     * its front; every live block of m0 but the old one keeps its place
     * and its words.
     */
    method Relocate(newptr: int, oldptr: int, size: nat, ghost kn: nat,
                    ghost m0: seq<nat>, ghost a0: seq<int>, ghost bs0: seq<Block>, ghost k: nat, ghost n: nat)
      requires Valid()
      requires 1 <= kn < |blocks| && addrs[kn] == newptr && blocks[kn].alloc && blocks[kn].size - DSIZE >= size
      requires Laid(m0, a0, bs0) && 1 <= k < |bs0| && bs0[k].alloc && a0[k] == oldptr && bs0[k].size >= DSIZE
      requires a0[0] == heapListp && n == WordsFor(CopiedBytes(size, bs0[k].size - DSIZE))
      requires LiveKept(m0, a0, bs0, mem, addrs, blocks, {}) && NotLiveIn(a0, bs0, newptr)
      modifies this
      ensures Valid() && IsLive(newptr) && LiveFor(newptr, size) && !IsLive(oldptr)
      ensures LiveKept(m0, a0, bs0, mem, addrs, blocks, {oldptr})
      ensures Copied(mem, newptr, m0, oldptr, n)
    {
      ghost var ko := KeptIndex(m0, a0, bs0, mem, addrs, blocks, {}, k);
      ghost var m1, a1, bs1 := mem, addrs, blocks;
      assert newptr != oldptr && kn != ko;
      assert addrs[0] < oldptr by { AddrsOrdered(m0, a0, bs0, 0, k); }
      assert n == WordsFor(CopiedBytes(size, bs1[ko].size - DSIZE));
      CopyInto(newptr, oldptr, size, kn, ko);
      ghost var m2 := mem;
      assert Laid(m2, a1, bs1);
      assert oldptr != NULL by { assert BlockLaid(m2, a1, bs1, ko); }
      Free(oldptr, ko);
      ghost var kk := RelocateFacts(m1, a1, bs1, m2, mem, addrs, blocks, kn, ko, size);
      assert addrs[kk] == newptr && blocks[kk].size - DSIZE >= size;
      MoveFacts(m0, a0, bs0, m1, a1, bs1, mem, addrs, blocks, k, oldptr, newptr, size, n);
    }

    /**
     * The memcpy step of realloc on a valid heap: the new block's payload
     * receives the copy and nothing else in the heap changes, so the heap
     * stays valid and every live block but the new one keeps its words.
     */
    method CopyInto(newptr: int, oldptr: int, size: nat, ghost kn: nat, ghost ko: nat)
      requires Valid() && kn != ko
      requires 1 <= kn < |blocks| && addrs[kn] == newptr && blocks[kn].alloc && blocks[kn].size - DSIZE >= size
      requires 1 <= ko < |blocks| && addrs[ko] == oldptr && blocks[ko].alloc
      modifies `mem
      ensures Valid()
      ensures LiveKept(old(mem), addrs, blocks, mem, addrs, blocks, {newptr})
      ensures Copied(mem, newptr, old(mem), oldptr, WordsFor(CopiedBytes(size, blocks[ko].size)))
    {
      assert BlockLaid(mem, addrs, blocks, kn) && BlockLaid(mem, addrs, blocks, ko);
      AddrsOrdered(mem, addrs, blocks, kn, ko);
      AddrsOrdered(mem, addrs, blocks, kn + 1, ko);
      AddrsOrdered(mem, addrs, blocks, kn, ko + 1);
      ghost var m1 := mem;
      CopyPayload(newptr, oldptr, size, blocks[ko].size, addrs[ko + 1], addrs[kn + 1]);
      WritePayload(m1, addrs, blocks, kn, mem);
    }

    /**
     * calloc: room for nmemb elements of size bytes each, all zero. A
     * product beyond SIZE_MAX is refused with NULL and nothing changes;
     * otherwise the heap changes as malloc of that many bytes changes it,
     * and the new block's payload holds at least those bytes, zeroed.
     */
    method Calloc(nmemb: nat, size: nat) returns (newptr: int)
      requires (Unstarted() && capacity >= 4) || Valid()
      modifies this
      ensures CallocBytes(nmemb, size) > SIZE_MAX ==> newptr == NULL && unchanged(this)
      ensures CallocBytes(nmemb, size) <= SIZE_MAX ==>
        var h0 := if old(heapListp) == 0 then Blocks.Init(capacity).0 else old(Abs());
        var r := Blocks.Malloc(h0, CallocBytes(nmemb, size), capacity);
        && Valid() && Abs() == r.0
        && (r.1.None? <==> newptr == NULL)
        && (r.1.Some? ==> r.1.value < |blocks| && r.1.value < |addrs| && newptr == addrs[r.1.value]
                          && blocks[r.1.value].size - DSIZE >= CallocBytes(nmemb, size))
      ensures newptr != NULL ==> IsLive(newptr) && Zeroed(mem, newptr, WordsFor(CallocBytes(nmemb, size)))
      ensures old(heapListp) != 0 ==> LiveKept(old(mem), old(addrs), old(blocks), mem, addrs, blocks, {})
      ensures old(heapListp) != 0 && newptr == NULL ==> unchanged(this)
      ensures old(heapListp) != 0 && newptr != NULL ==> NotLiveIn(old(addrs), old(blocks), newptr)
    {
      var bytes := CallocBytes(nmemb, size);
      if bytes > SIZE_MAX {
        if heapListp != 0 {
          LiveKeptRefl(mem, addrs, blocks);
        }
        return NULL;
      }
      ghost var started := heapListp != 0;
      ghost var m0, a0, bs0 := mem, addrs, blocks;
      ghost var h0 := if heapListp == 0 then Blocks.Init(capacity).0 else Abs();
      newptr := Malloc(bytes);
      if newptr == NULL {
        return;
      }
      ghost var kn := Blocks.Malloc(h0, bytes, capacity).1.value;
      assert 1 <= kn < |blocks| && blocks[kn].alloc && blocks[kn].size - DSIZE >= bytes by {
        MallocFacts(h0, bytes, capacity);
      }
      ghost var m1 := mem;
      assert started ==> Laid(m0, a0, bs0) && LiveKept(m0, a0, bs0, m1, addrs, blocks, {}) && NotLiveIn(a0, bs0, newptr);
      Clear(newptr, bytes, kn, started, m0, a0, bs0);
    }

    /**
     * calloc's memset: zeroes the first bytes of block k's payload, rounded
     * up to whole words. Nothing else in the heap changes, so it stays valid;
     * when block k was new since m0, every block live in m0 keeps its words.
     */
    method Clear(bp: int, bytes: nat, ghost k: nat,
                 ghost started: bool, ghost m0: seq<nat>, ghost a0: seq<int>, ghost bs0: seq<Block>)
      requires Valid() && 1 <= k < |blocks| && addrs[k] == bp && blocks[k].alloc && blocks[k].size - DSIZE >= bytes
      requires started ==> Laid(m0, a0, bs0) && LiveKept(m0, a0, bs0, mem, addrs, blocks, {}) && NotLiveIn(a0, bs0, bp)
      modifies `mem
      ensures Valid() && IsLive(bp)
      ensures started ==> LiveKept(m0, a0, bs0, mem, addrs, blocks, {})
      ensures Zeroed(mem, bp, WordsFor(bytes))
    {
      assert BlockLaid(mem, addrs, blocks, k);
      ghost var m1 := mem;
      var n := (bytes + WSIZE - 1) / WSIZE;
      assert n == WordsFor(bytes) && bp + n <= addrs[k + 1] - 2;
      mem := mem[..bp] + Zeros(n) + mem[bp + n..];
      WritePayload(m1, addrs, blocks, k, mem);
      if started {
        LiveKeptTrans(m0, a0, bs0, m1, addrs, blocks, mem, addrs, blocks, {}, {bp});
        LiveKeptDrop(m0, a0, bs0, mem, addrs, blocks, {}, bp);
      }
    }
  }
}
