/**
 * How the block chain lies in the heap words. addrs[i] is the payload
 * address of blocks[i]; addrs[|blocks|] is the payload address of the
 * epilogue, one past the last heap word. Every block has its tag in both its
 * header (the word before its payload) and its footer (the word before the
 * next block's header).
 */
module Chain {
  import opened Layout
  import opened Blocks

  /** Block i has an 8-aligned size, lies inside the heap and carries its tag at both ends. */
  ghost predicate BlockLaid(mem: seq<nat>, addrs: seq<int>, bs: seq<Block>, i: int)
  {
    && 0 <= i < |bs| && |addrs| == |bs| + 1
    && bs[i].size % DSIZE == 0 && bs[i].size >= DSIZE
    && WSIZE * (addrs[i + 1] - addrs[i]) == bs[i].size
    && 1 <= addrs[i] && addrs[i + 1] <= |mem|
    && mem[addrs[i] - 1] == Tag(bs[i]) && mem[addrs[i + 1] - 2] == Tag(bs[i])
  }

  ghost predicate Laid(mem: seq<nat>, addrs: seq<int>, bs: seq<Block>)
  {
    && |addrs| == |bs| + 1
    && |mem| >= 1
    && addrs[|bs|] == |mem|
    && mem[|mem| - 1] == Pack(0, 1)
    && (forall i :: 0 <= i < |bs| ==> BlockLaid(mem, addrs, bs, i))
  }

  /** Payload addresses grow by at least two words per block. */
  lemma {:induction false} AddrsIncrease(mem: seq<nat>, addrs: seq<int>, bs: seq<Block>, i: nat, j: nat)
    requires Laid(mem, addrs, bs) && i <= j <= |bs|
    ensures addrs[i] + 2 * (j - i) <= addrs[j]
    decreases j - i
  {
    if i < j {
      assert BlockLaid(mem, addrs, bs, i);
      AddrsIncrease(mem, addrs, bs, i + 1, j);
    }
  }

  /** The words between two payload addresses hold exactly the blocks between them. */
  lemma {:induction false} AddrsSpan(mem: seq<nat>, addrs: seq<int>, bs: seq<Block>, lo: nat, hi: nat)
    requires Laid(mem, addrs, bs) && lo <= hi <= |bs|
    ensures WSIZE * (addrs[hi] - addrs[lo]) == Total(bs[lo..hi])
    decreases hi - lo
  {
    if lo < hi {
      AddrsSpan(mem, addrs, bs, lo, hi - 1);
      assert BlockLaid(mem, addrs, bs, hi - 1);
      assert bs[lo..hi][..hi - lo - 1] == bs[lo..hi - 1];
    } else {
      assert bs[lo..hi] == [];
    }
  }

  /** Starting from an 8-aligned payload, every payload is 8-aligned (an even index). */
  lemma {:induction false} AddrsEven(mem: seq<nat>, addrs: seq<int>, bs: seq<Block>, i: nat)
    requires Laid(mem, addrs, bs) && addrs[0] % 2 == 0 && i <= |bs|
    ensures addrs[i] % 2 == 0
  {
    if i > 0 {
      AddrsEven(mem, addrs, bs, i - 1);
      assert BlockLaid(mem, addrs, bs, i - 1);
      assert bs[i - 1].size / WSIZE == 2 * (bs[i - 1].size / DSIZE);
    }
  }

  /** What the layout macros read at the payload of block i. */
  lemma Reading(mem: seq<nat>, addrs: seq<int>, bs: seq<Block>, i: nat)
    requires Laid(mem, addrs, bs) && i < |bs|
    ensures BlockLaid(mem, addrs, bs, i)
    ensures var bp := addrs[i];
      && 1 <= bp < |mem|
      && GetSize(mem[Hdrp(bp)]) == bs[i].size
      && (GetAlloc(mem[Hdrp(bp)]) == 1 <==> bs[i].alloc)
      && mem[Hdrp(bp)] == mem[Ftrp(mem, bp)]
      && NextBlkp(mem, bp) == addrs[i + 1]
      && Ftrp(mem, bp) == addrs[i + 1] - 2
      && (i >= 1 ==> 2 <= bp && PrevBlkp(mem, bp) == addrs[i - 1])
  {
    assert BlockLaid(mem, addrs, bs, i);
    if i >= 1 {
      assert BlockLaid(mem, addrs, bs, i - 1);
      assert mem[addrs[i] - 2] == Tag(bs[i - 1]);
    }
  }

  /** The epilogue header reads as size 0, allocated. */
  lemma ReadingEpilogue(mem: seq<nat>, addrs: seq<int>, bs: seq<Block>)
    requires Laid(mem, addrs, bs)
    ensures GetSize(mem[Hdrp(addrs[|bs|])]) == 0 && GetAlloc(mem[Hdrp(addrs[|bs|])]) == 1
  {
  }

  /**
   * The live blocks of one heap survive in another: every allocated block
   * whose payload address is not in except is still a block at the same
   * address, with the same size and state, and all of its words, from its
   * header up to the next header, are unchanged.
   */
  ghost predicate LiveKept(mem0: seq<nat>, addrs0: seq<int>, bs0: seq<Block>,
                           mem1: seq<nat>, addrs1: seq<int>, bs1: seq<Block>, except: set<int>)
  {
    && |addrs0| == |bs0| + 1
    && forall k :: 0 <= k < |bs0| && bs0[k].alloc && addrs0[k] !in except ==>
         KeptAt(mem0, addrs0, bs0, mem1, addrs1, bs1, k)
  }

  /** Block k of the first heap is still a block of the second, with all of its words. */
  ghost predicate KeptAt(mem0: seq<nat>, addrs0: seq<int>, bs0: seq<Block>,
                         mem1: seq<nat>, addrs1: seq<int>, bs1: seq<Block>, k: int)
  {
    && 0 <= k < |bs0| && |addrs0| == |bs0| + 1
    && (exists k1 :: 0 <= k1 < |bs1| && k1 < |addrs1| && addrs1[k1] == addrs0[k] && bs1[k1] == bs0[k])
    && (forall p :: addrs0[k] - 1 <= p < addrs0[k + 1] - 1 ==>
          0 <= p < |mem0| && p < |mem1| && mem1[p] == mem0[p])
  }

  lemma LiveKeptRefl(mem: seq<nat>, addrs: seq<int>, bs: seq<Block>)
    requires Laid(mem, addrs, bs)
    ensures LiveKept(mem, addrs, bs, mem, addrs, bs, {})
  {
    forall k | 0 <= k < |bs| && bs[k].alloc
      ensures KeptAt(mem, addrs, bs, mem, addrs, bs, k)
    {
      assert BlockLaid(mem, addrs, bs, k);
    }
  }

  /** Keeping live blocks composes; the excluded addresses accumulate. */
  lemma LiveKeptTrans(mem0: seq<nat>, addrs0: seq<int>, bs0: seq<Block>,
                      mem1: seq<nat>, addrs1: seq<int>, bs1: seq<Block>,
                      mem2: seq<nat>, addrs2: seq<int>, bs2: seq<Block>, x: set<int>, y: set<int>)
    requires Laid(mem0, addrs0, bs0) && Laid(mem1, addrs1, bs1)
    requires LiveKept(mem0, addrs0, bs0, mem1, addrs1, bs1, x)
    requires LiveKept(mem1, addrs1, bs1, mem2, addrs2, bs2, y)
    ensures LiveKept(mem0, addrs0, bs0, mem2, addrs2, bs2, x + y)
  {
    forall k | 0 <= k < |bs0| && bs0[k].alloc && addrs0[k] !in x + y
      ensures KeptAt(mem0, addrs0, bs0, mem2, addrs2, bs2, k)
    {
      assert KeptAt(mem0, addrs0, bs0, mem1, addrs1, bs1, k);
      var k1 :| 0 <= k1 < |bs1| && k1 < |addrs1| && addrs1[k1] == addrs0[k] && bs1[k1] == bs0[k];
      assert BlockLaid(mem0, addrs0, bs0, k) && BlockLaid(mem1, addrs1, bs1, k1);
      assert addrs1[k1 + 1] == addrs0[k + 1];
      assert bs1[k1].alloc && addrs1[k1] !in y;
      assert KeptAt(mem1, addrs1, bs1, mem2, addrs2, bs2, k1);
      forall p | addrs0[k] - 1 <= p < addrs0[k + 1] - 1
        ensures 0 <= p < |mem0| && p < |mem2| && mem2[p] == mem0[p]
      {
        assert addrs1[k1] - 1 <= p < addrs1[k1 + 1] - 1;
        assert mem1[p] == mem0[p];
        assert p < |mem2| && mem2[p] == mem1[p];
      }
    }
  }

  /** Block i is the first block lying at or after address a, when a is a payload address. */
  lemma AddrsOrdered(mem: seq<nat>, addrs: seq<int>, bs: seq<Block>, i: nat, j: nat)
    requires Laid(mem, addrs, bs) && i <= |bs| && j <= |bs|
    ensures i < j <==> addrs[i] < addrs[j]
    ensures i == j <==> addrs[i] == addrs[j]
  {
    if i <= j { AddrsIncrease(mem, addrs, bs, i, j); } else { AddrsIncrease(mem, addrs, bs, j, i); }
  }

  /**
   * Replacing the run of blocks lo..hi-1 by the blocks ns, laid at addresses
   * na over the same words, keeps the chain laid out, provided no word outside
   * the run changed.
   */
  lemma ReplaceRun(mem: seq<nat>, addrs: seq<int>, bs: seq<Block>, lo: nat, hi: nat,
                   mem': seq<nat>, na: seq<int>, ns: seq<Block>)
    requires Laid(mem, addrs, bs) && lo < hi <= |bs|
    requires |na| == |ns| + 1 && na[0] == addrs[lo] && na[|ns|] == addrs[hi]
    requires |mem'| == |mem|
    requires forall p :: 0 <= p < |mem| && (p < addrs[lo] - 1 || p >= addrs[hi] - 1) ==> mem'[p] == mem[p]
    requires forall t :: 0 <= t < |ns| ==> BlockLaid(mem', na, ns, t)
    ensures Laid(mem', addrs[..lo] + na + addrs[hi + 1..], bs[..lo] + ns + bs[hi..])
  {
    var A, B := addrs[..lo] + na + addrs[hi + 1..], bs[..lo] + ns + bs[hi..];
    var d := |ns| - (hi - lo);
    assert |A| == |B| + 1;
    assert BlockLaid(mem, addrs, bs, hi - 1);
    assert mem'[|mem| - 1] == mem[|mem| - 1];
    assert A[|B|] == |mem| by {
      if hi == |bs| { assert A[|B|] == na[|ns|]; } else { assert A[|B|] == addrs[|bs|]; }
    }
    forall i | 0 <= i < |B|
      ensures BlockLaid(mem', A, B, i)
    {
      if i < lo {
        assert BlockLaid(mem, addrs, bs, i);
        AddrsIncrease(mem, addrs, bs, i + 1, lo);
        assert B[i] == bs[i] && A[i] == addrs[i] && A[i + 1] == addrs[i + 1];
      } else if i < lo + |ns| {
        assert BlockLaid(mem', na, ns, i - lo);
        assert B[i] == ns[i - lo] && A[i] == na[i - lo] && A[i + 1] == na[i - lo + 1];
      } else {
        var j := i - d;
        assert BlockLaid(mem, addrs, bs, j);
        AddrsIncrease(mem, addrs, bs, hi, j);
        assert B[i] == bs[j] && A[i] == addrs[j] && A[i + 1] == addrs[j + 1];
      }
    }
  }

  /**
   * When every replaced block is free or has its address in except, the
   * replacement keeps every other live block.
   */
  lemma ReplaceRunKeepsLive(mem: seq<nat>, addrs: seq<int>, bs: seq<Block>, lo: nat, hi: nat,
                            mem': seq<nat>, na: seq<int>, ns: seq<Block>, except: set<int>)
    requires Laid(mem, addrs, bs) && lo < hi <= |bs|
    requires |na| == |ns| + 1 && na[0] == addrs[lo] && na[|ns|] == addrs[hi]
    requires |mem'| == |mem|
    requires forall p :: 0 <= p < |mem| && (p < addrs[lo] - 1 || p >= addrs[hi] - 1) ==> mem'[p] == mem[p]
    requires forall k :: lo <= k < hi && bs[k].alloc ==> addrs[k] in except
    ensures LiveKept(mem, addrs, bs, mem', addrs[..lo] + na + addrs[hi + 1..], bs[..lo] + ns + bs[hi..], except)
  {
    var A, B := addrs[..lo] + na + addrs[hi + 1..], bs[..lo] + ns + bs[hi..];
    var d := |ns| - (hi - lo);
    forall k | 0 <= k < |bs| && bs[k].alloc && addrs[k] !in except
      ensures KeptAt(mem, addrs, bs, mem', A, B, k)
    {
      assert BlockLaid(mem, addrs, bs, k);
      AddrsIncrease(mem, addrs, bs, k + 1, |bs|);
      if k < lo {
        AddrsIncrease(mem, addrs, bs, k + 1, lo);
        assert A[k] == addrs[k] && B[k] == bs[k];
      } else {
        AddrsIncrease(mem, addrs, bs, hi, k);
        assert A[k + d] == addrs[k] && B[k + d] == bs[k];
      }
    }
  }

  /** Growing the heap by one block laid over the old epilogue and the new words. */
  lemma AppendBlock(mem: seq<nat>, addrs: seq<int>, bs: seq<Block>, b: Block, mem': seq<nat>)
    requires Laid(mem, addrs, bs) && b.size % DSIZE == 0 && b.size >= DSIZE
    requires |mem'| == |mem| + b.size / WSIZE
    requires forall p :: 0 <= p < |mem| - 1 ==> mem'[p] == mem[p]
    requires mem'[|mem| - 1] == Tag(b) && mem'[|mem'| - 2] == Tag(b) && mem'[|mem'| - 1] == Pack(0, 1)
    ensures Laid(mem', addrs + [|mem'|], bs + [b])
    ensures LiveKept(mem, addrs, bs, mem', addrs + [|mem'|], bs + [b], {})
  {
    var A, B := addrs + [|mem'|], bs + [b];
    forall i | 0 <= i < |B|
      ensures BlockLaid(mem', A, B, i)
    {
      if i < |bs| {
        assert BlockLaid(mem, addrs, bs, i);
        assert A[i] == addrs[i] && A[i + 1] == addrs[i + 1] && B[i] == bs[i];
      } else {
        assert A[i] == |mem| && A[i + 1] == |mem'| && B[i] == b;
      }
    }
    forall k | 0 <= k < |bs| && bs[k].alloc
      ensures KeptAt(mem, addrs, bs, mem', A, B, k)
    {
      assert BlockLaid(mem, addrs, bs, k);
      assert A[k] == addrs[k] && A[k + 1] == addrs[k + 1] && B[k] == bs[k];
    }
  }
  /**
   * extend_heap's words: grown is the heap with the new words after it (the
   * old epilogue header at |mem| - 1 now the new block's header), then the
   * new block's header and footer and the new epilogue are written. The
   * words lay out the chain with the new free block appended.
   */
  lemma AppendChunk(mem: seq<nat>, addrs: seq<int>, bs: seq<Block>, size: nat, e: int, grown: seq<nat>, mem': seq<nat>)
    requires Laid(mem, addrs, bs) && size % DSIZE == 0 && size >= DSIZE
    requires WSIZE * (e - |mem|) == size && |grown| == e
    requires forall p :: 0 <= p < |mem| ==> grown[p] == mem[p]
    requires mem' == grown[|mem| - 1 := Pack(size, 0)][e - 2 := Pack(size, 0)][e - 1 := Pack(0, 1)]
    ensures Laid(mem', addrs + [e], bs + [Block(size, false)])
    ensures LiveKept(mem, addrs, bs, mem', addrs + [e], bs + [Block(size, false)], {})
  {
    AppendBlock(mem, addrs, bs, Block(size, false), mem');
  }


  /** A block's header word tells whether the walk has reached the epilogue. */
  lemma ReadingAt(mem: seq<nat>, addrs: seq<int>, bs: seq<Block>, j: nat)
    requires Laid(mem, addrs, bs) && j <= |bs|
    ensures 1 <= addrs[j] <= |mem|
    ensures GetSize(mem[Hdrp(addrs[j])]) > 0 <==> j < |bs|
  {
    if j < |bs| {
      Reading(mem, addrs, bs, j);
    }
  }

  /** The heap is the padding word, the blocks and the epilogue header. */
  lemma HeapLength(mem: seq<nat>, addrs: seq<int>, bs: seq<Block>)
    requires Laid(mem, addrs, bs) && addrs[0] == 2
    ensures |mem| == HeapWords(bs) && Total(bs) % WSIZE == 0
  {
    AddrsSpan(mem, addrs, bs, 0, |bs|);
    assert bs[0..|bs|] == bs;
  }

  /** No allocated block starts at address p. */
  ghost predicate NotLiveIn(addrs: seq<int>, bs: seq<Block>, p: int)
  {
    forall k :: 0 <= k < |bs| && k < |addrs| && bs[k].alloc ==> addrs[k] != p
  }

  /**
   * mem' is mem with the run of blocks lo..hi-1 rewritten as one free block
   * of size bytes: its header and footer carry the size, which spans the run,
   * and no word outside the run changed.
   */
  ghost predicate WroteRun(mem: seq<nat>, addrs: seq<int>, lo: nat, hi: nat, mem': seq<nat>, size: nat)
  {
    && lo < hi < |addrs| && 1 <= addrs[lo] && addrs[lo] + 2 <= addrs[hi] <= |mem|
    && |mem'| == |mem|
    && (forall p :: 0 <= p < |mem| && (p < addrs[lo] - 1 || p >= addrs[hi] - 1) ==> mem'[p] == mem[p])
    && size == WSIZE * (addrs[hi] - addrs[lo])
    && mem'[addrs[lo] - 1] == Pack(size, 0) && mem'[addrs[hi] - 2] == Pack(size, 0)
  }

  /** No allocated block starts where free block j (or the epilogue, j == |bs|) starts. */
  lemma FreeNotLive(mem: seq<nat>, addrs: seq<int>, bs: seq<Block>, j: nat)
    requires Laid(mem, addrs, bs) && j <= |bs| && (j < |bs| ==> !bs[j].alloc)
    ensures NotLiveIn(addrs, bs, addrs[j])
  {
    forall q | 0 <= q < |bs| && q < |addrs| && bs[q].alloc
      ensures addrs[q] != addrs[j]
    {
      AddrsOrdered(mem, addrs, bs, q, j);
    }
  }

  /** A lone free block from a to b, tagged at both ends, is laid out. */
  lemma OneBlockLaid(mem: seq<nat>, a: int, b: int, size: nat)
    requires 1 <= a && b <= |mem| && size == WSIZE * (b - a) && size % DSIZE == 0 && size >= DSIZE
    requires mem[a - 1] == Pack(size, 0) && mem[b - 2] == Pack(size, 0)
    ensures BlockLaid(mem, [a, b], [Block(size, false)], 0)
  {
  }

  /**
   * Merging the free run lo..hi-1 into one block whose header and footer
   * carry the run's size keeps the chain laid out and every live block.
   */
  lemma MergeRun(mem: seq<nat>, addrs: seq<int>, bs: seq<Block>, lo: nat, hi: nat, mem': seq<nat>, size: nat)
    requires Laid(mem, addrs, bs) && addrs[0] % 2 == 0 && lo < hi <= |bs|
    requires forall k :: lo <= k < hi ==> !bs[k].alloc
    requires WroteRun(mem, addrs, lo, hi, mem', size)
    ensures size == Total(bs[lo..hi]) && size % DSIZE == 0
    ensures NextBlkp(mem', addrs[lo]) == addrs[hi]
    ensures Laid(mem', MergedAddrs(addrs, lo, hi), Merge(bs, lo, hi))
    ensures LiveKept(mem, addrs, bs, mem', MergedAddrs(addrs, lo, hi), Merge(bs, lo, hi), {})
  {
    assert BlockLaid(mem, addrs, bs, lo) && BlockLaid(mem, addrs, bs, hi - 1);
    AddrsSpan(mem, addrs, bs, lo, hi);
    AddrsEven(mem, addrs, bs, lo);
    AddrsEven(mem, addrs, bs, hi);
    AddrsIncrease(mem, addrs, bs, lo + 1, hi);
    var na, ns := [addrs[lo], addrs[hi]], [Block(size, false)];
    OneBlockLaid(mem', addrs[lo], addrs[hi], size);
    ReplaceRun(mem, addrs, bs, lo, hi, mem', na, ns);
    ReplaceRunKeepsLive(mem, addrs, bs, lo, hi, mem', na, ns, {});
    assert Merge(bs, lo, hi) == bs[..lo] + ns + bs[hi..];
  }

  /**
   * Writing words strictly inside the payload of block k keeps the chain laid
   * out and every live block other than k.
   */
  lemma WritePayload(mem: seq<nat>, addrs: seq<int>, bs: seq<Block>, k: nat, mem': seq<nat>)
    requires Laid(mem, addrs, bs) && k < |bs|
    requires |mem'| == |mem|
    requires forall p :: 0 <= p < |mem| && (p < addrs[k] || p >= addrs[k + 1] - 2) ==> mem'[p] == mem[p]
    ensures Laid(mem', addrs, bs)
    ensures LiveKept(mem, addrs, bs, mem', addrs, bs, {addrs[k]})
  {
    assert BlockLaid(mem, addrs, bs, k);
    AddrsIncrease(mem, addrs, bs, k + 1, |bs|);
    forall i | 0 <= i < |bs|
      ensures BlockLaid(mem', addrs, bs, i)
    {
      assert BlockLaid(mem, addrs, bs, i);
      if i < k { AddrsIncrease(mem, addrs, bs, i + 1, k); }
      if i > k { AddrsIncrease(mem, addrs, bs, k + 1, i); }
    }
    forall i | 0 <= i < |bs| && bs[i].alloc && addrs[i] !in {addrs[k]}
      ensures KeptAt(mem, addrs, bs, mem', addrs, bs, i)
    {
      assert BlockLaid(mem, addrs, bs, i);
      if i < k { AddrsIncrease(mem, addrs, bs, i + 1, k); }
      if i > k { AddrsIncrease(mem, addrs, bs, k + 1, i); }
    }
  }

  /** Payload addresses after the run lo..hi-1 became one block. */
  function MergedAddrs(addrs: seq<int>, lo: nat, hi: nat): (a: seq<int>)
    requires lo < hi < |addrs|
    ensures |a| == |addrs| - (hi - lo - 1)
    ensures forall q :: 0 <= q <= lo ==> a[q] == addrs[q]
    ensures forall q :: lo < q < |a| ==> a[q] == addrs[q + (hi - lo - 1)]
  {
    addrs[..lo] + [addrs[lo], addrs[hi]] + addrs[hi + 1..]
  }

  /**
   * The rover check after a merge: a rover at block r lies strictly inside the
   * merged block exactly when lo < r < hi; otherwise the block it points at
   * keeps its address, at its index in the merged chain.
   */
  lemma RoverInsideMerged(mem: seq<nat>, addrs: seq<int>, bs: seq<Block>, lo: nat, hi: nat, r: nat)
    requires Laid(mem, addrs, bs) && lo < hi <= |bs| && r < |bs|
    ensures addrs[lo] < addrs[r] < addrs[hi] <==> lo < r < hi
    ensures !(lo < r < hi) ==> MergedAddrs(addrs, lo, hi)[RoverAfterMerge(r, lo, hi)] == addrs[r]
  {
    AddrsOrdered(mem, addrs, bs, lo, r);
    AddrsOrdered(mem, addrs, bs, r, hi);
  }

  /** After the merge, no allocated block starts where a block of the run started. */
  lemma MergedNotLive(mem: seq<nat>, addrs: seq<int>, bs: seq<Block>, lo: nat, hi: nat, i: nat)
    requires Laid(mem, addrs, bs) && lo <= i < hi <= |bs|
    ensures NotLiveIn(MergedAddrs(addrs, lo, hi), Merge(bs, lo, hi), addrs[i])
  {
    var a, m := MergedAddrs(addrs, lo, hi), Merge(bs, lo, hi);
    MergeConserves(bs, lo, hi);
    forall q | 0 <= q < |m| && q < |a| && m[q].alloc
      ensures a[q] != addrs[i]
    {
      if q < lo {
        AddrsOrdered(mem, addrs, bs, q, i);
      } else if q > lo {
        AddrsOrdered(mem, addrs, bs, q + (hi - lo - 1), i);
      }
    }
  }

  /**
   * What coalesce reads around the free block i: the allocated bit in the
   * previous block's footer, the one in the next block's header (the
   * epilogue's when i is last) and the block's own size.
   */
  lemma CoalesceReads(mem: seq<nat>, addrs: seq<int>, bs: seq<Block>, i: nat)
    requires Laid(mem, addrs, bs) && 1 <= i < |bs|
    ensures var bp := addrs[i];
      && 2 <= bp < |mem| && 1 <= PrevBlkp(mem, bp) <= |mem| && 0 <= Ftrp(mem, PrevBlkp(mem, bp)) < |mem|
      && 1 <= NextBlkp(mem, bp) <= |mem| && 0 <= Hdrp(bp) < |mem|
      && GetAlloc(mem[Ftrp(mem, PrevBlkp(mem, bp))]) == (if bs[i - 1].alloc then 1 else 0)
      && GetAlloc(mem[Hdrp(NextBlkp(mem, bp))]) == (if i + 1 < |bs| && !bs[i + 1].alloc then 0 else 1)
      && GetSize(mem[Hdrp(bp)]) == bs[i].size
  {
    Reading(mem, addrs, bs, i);
    Reading(mem, addrs, bs, i - 1);
    if i + 1 < |bs| {
      Reading(mem, addrs, bs, i + 1);
    } else {
      ReadingEpilogue(mem, addrs, bs);
    }
  }

  /**
   * The words around free block i, read off the layout: its neighbours'
   * tags and where they lie.
   */
  lemma Neighbourhood(mem: seq<nat>, addrs: seq<int>, bs: seq<Block>, i: nat)
    requires Laid(mem, addrs, bs) && 1 <= i < |bs| && !bs[i].alloc
    ensures var bp := addrs[i];
      && 1 <= addrs[i - 1] && WSIZE * (bp - addrs[i - 1]) == bs[i - 1].size
      && WSIZE * (addrs[i + 1] - bp) == bs[i].size && addrs[i + 1] <= |mem|
      && bs[i - 1].size % DSIZE == 0 && bs[i - 1].size >= DSIZE
      && bs[i].size % DSIZE == 0 && bs[i].size >= DSIZE
      && mem[addrs[i - 1] - 1] == Tag(bs[i - 1]) && mem[bp - 2] == Tag(bs[i - 1])
      && mem[bp - 1] == Pack(bs[i].size, 0) && mem[addrs[i + 1] - 2] == Pack(bs[i].size, 0)
      && (i + 1 < |bs| ==>
            && WSIZE * (addrs[i + 2] - addrs[i + 1]) == bs[i + 1].size && addrs[i + 2] <= |mem|
            && bs[i + 1].size % DSIZE == 0 && bs[i + 1].size >= DSIZE
            && mem[addrs[i + 1] - 1] == Tag(bs[i + 1]) && mem[addrs[i + 2] - 2] == Tag(bs[i + 1]))
  {
    assert BlockLaid(mem, addrs, bs, i - 1);
    assert BlockLaid(mem, addrs, bs, i);
    if i + 1 < |bs| {
      assert BlockLaid(mem, addrs, bs, i + 1);
    }
  }

  /**
   * Rewriting the header (word h) and footer (word f) of the run lo..hi-1
   * with its size, in either order, is WroteRun.
   */
  lemma WroteEnds(mem: seq<nat>, addrs: seq<int>, lo: nat, hi: nat, size: nat, h: int, f: int, mem': seq<nat>)
    requires lo < hi < |addrs| && 1 <= addrs[lo] && addrs[lo] + 2 <= addrs[hi] <= |mem|
    requires size == WSIZE * (addrs[hi] - addrs[lo])
    requires h == addrs[lo] - 1 && f == addrs[hi] - 2
    requires mem' == mem[h := Pack(size, 0)][f := Pack(size, 0)] || mem' == mem[f := Pack(size, 0)][h := Pack(size, 0)]
    ensures WroteRun(mem, addrs, lo, hi, mem', size)
  {
  }

  /** A free block whose header and footer already carry its size needs no rewriting. */
  lemma WroteNothing(mem: seq<nat>, addrs: seq<int>, k: nat, size: nat)
    requires k + 1 < |addrs| && 1 <= addrs[k] && addrs[k] + 2 <= addrs[k + 1] <= |mem|
    requires size == WSIZE * (addrs[k + 1] - addrs[k])
    requires mem[addrs[k] - 1] == Pack(size, 0) && mem[addrs[k + 1] - 2] == Pack(size, 0)
    ensures WroteRun(mem, addrs, k, k + 1, mem, size)
  {
  }

  /**
   * coalesce on the words, summed up: once the run around free block i has
   * been rewritten as one block, the words lay out Blocks.Coalesce's chain,
   * every live block is kept, none starts where block i started, and the rover
   * test of the code moves exactly the rovers strictly inside the run.
   */
  lemma CoalesceStep(mem: seq<nat>, addrs: seq<int>, bs: seq<Block>, i: nat, ri: nat, mem': seq<nat>, size: nat)
    requires Laid(mem, addrs, bs) && addrs[0] == 2 && Shaped(bs) && CoalescedExcept(bs, i)
    requires 1 <= i < |bs| && !bs[i].alloc && ri < |bs|
    requires WroteRun(mem, addrs, RunStart(bs, i), RunEnd(bs, i), mem', size)
    ensures var lo, hi := RunStart(bs, i), RunEnd(bs, i);
      var a' := MergedAddrs(addrs, lo, hi);
      var m := Merge(bs, lo, hi);
      && Blocks.Coalesce(Blocks.Heap(bs, ri), i) == (Blocks.Heap(m, RoverAfterMerge(ri, lo, hi)), lo)
      && lo <= i && !bs[lo].alloc && a'[lo] == addrs[lo] && a'[0] == 2
      && Laid(mem', a', m) && Shaped(m) && Coalesced(m) && RoverAfterMerge(ri, lo, hi) < |m|
      && NotLiveIn(a', m, addrs[i])
      && LiveKept(mem, addrs, bs, mem', a', m, {})
      && NextBlkp(mem', addrs[lo]) == addrs[hi]
      && (addrs[lo] < addrs[ri] < addrs[hi] <==> lo < ri < hi)
      && (!(lo < ri < hi) ==> a'[RoverAfterMerge(ri, lo, hi)] == addrs[ri])
      && (lo < ri < hi ==> RoverAfterMerge(ri, lo, hi) == lo)
  {
    var lo, hi := RunStart(bs, i), RunEnd(bs, i);
    CoalesceMergesMaximalRun(Blocks.Heap(bs, ri), i);
    CoalesceRestores(Blocks.Heap(bs, ri), i);
    MergeRun(mem, addrs, bs, lo, hi, mem', size);
    MergedNotLive(mem, addrs, bs, lo, hi, i);
    RoverInsideMerged(mem, addrs, bs, lo, hi, ri);
  }

  /** Payload addresses after block i was split at m. */
  function SplitAddrs(addrs: seq<int>, i: nat, m: int): (a: seq<int>)
    requires i < |addrs|
    ensures |a| == |addrs| + 1
    ensures forall q :: 0 <= q <= i ==> a[q] == addrs[q]
    ensures a[i + 1] == m
    ensures forall q :: i < q < |addrs| ==> a[q + 1] == addrs[q]
  {
    addrs[..i + 1] + [m] + addrs[i + 1..]
  }

  /**
   * place's split on the words: once free block i carries PACK(asize, 1) at
   * both ends of its first asize bytes and the rest carries the remainder,
   * the words lay out the split chain and keep every live block.
   */
  lemma SplitStep(mem: seq<nat>, addrs: seq<int>, bs: seq<Block>, ri: nat, i: nat, asize: nat, m: int, mem': seq<nat>)
    requires Laid(mem, addrs, bs) && 1 <= i < |bs| && !bs[i].alloc && BlockLaid(mem, addrs, bs, i)
    requires Sized(Block(asize, true)) && asize <= bs[i].size && bs[i].size - asize >= MinBlock
    requires WSIZE * (m - addrs[i]) == asize && ri < |bs|
    requires mem' == mem[addrs[i] - 1 := Pack(asize, 1)][m - 2 := Pack(asize, 1)]
                        [m - 1 := Pack(bs[i].size - asize, 0)][addrs[i + 1] - 2 := Pack(bs[i].size - asize, 0)]
    ensures var h', a' := Blocks.Place(Blocks.Heap(bs, ri), i, asize), SplitAddrs(addrs, i, m);
      && Laid(mem', a', h'.blocks)
      && LiveKept(mem, addrs, bs, mem', a', h'.blocks, {})
      && h'.rover < |h'.blocks| && a'[h'.rover] == addrs[ri]
  {
    var na, ns := [addrs[i], m, addrs[i + 1]], [Block(asize, true), Block(bs[i].size - asize, false)];
    SplitHalves(mem, addrs[i], addrs[i + 1], asize, bs[i].size, m, mem');
    ReplaceRun(mem, addrs, bs, i, i + 1, mem', na, ns);
    ReplaceRunKeepsLive(mem, addrs, bs, i, i + 1, mem', na, ns, {});
    assert addrs[..i] + na + addrs[i + 2..] == SplitAddrs(addrs, i, m);
    assert Blocks.Place(Blocks.Heap(bs, ri), i, asize).blocks == bs[..i] + ns + bs[i + 1..];
  }

  /** The two halves of a split block, each tagged at both ends, nothing else written. */
  lemma SplitHalves(mem: seq<nat>, bp: int, e: int, asize: nat, csize: nat, m: int, mem': seq<nat>)
    requires 1 <= bp && e <= |mem| && WSIZE * (e - bp) == csize && WSIZE * (m - bp) == asize
    requires asize % DSIZE == 0 && asize >= MinBlock && csize % DSIZE == 0 && csize - asize >= MinBlock
    requires mem' == mem[bp - 1 := Pack(asize, 1)][m - 2 := Pack(asize, 1)]
                        [m - 1 := Pack(csize - asize, 0)][e - 2 := Pack(csize - asize, 0)]
    ensures |mem'| == |mem|
    ensures forall p :: 0 <= p < |mem| && (p < bp - 1 || p >= e - 1) ==> mem'[p] == mem[p]
    ensures var na, ns := [bp, m, e], [Block(asize, true), Block(csize - asize, false)];
      BlockLaid(mem', na, ns, 0) && BlockLaid(mem', na, ns, 1)
  {
  }

  /**
   * place without a split on the words: once free block i carries
   * PACK(size, 1) at both ends, the words lay out the chain with block i
   * allocated and keep every live block.
   */
  lemma WholeStep(mem: seq<nat>, addrs: seq<int>, bs: seq<Block>, ri: nat, i: nat, asize: nat, mem': seq<nat>)
    requires Laid(mem, addrs, bs) && 1 <= i < |bs| && !bs[i].alloc && BlockLaid(mem, addrs, bs, i)
    requires asize <= bs[i].size && bs[i].size - asize < MinBlock && ri < |bs|
    requires mem' == mem[addrs[i] - 1 := Pack(bs[i].size, 1)][addrs[i + 1] - 2 := Pack(bs[i].size, 1)]
    ensures var h' := Blocks.Place(Blocks.Heap(bs, ri), i, asize);
      && Laid(mem', addrs, h'.blocks)
      && LiveKept(mem, addrs, bs, mem', addrs, h'.blocks, {})
      && h'.rover == ri
  {
    assert BlockLaid(mem, addrs, bs, i);
    var na, ns := [addrs[i], addrs[i + 1]], [Block(bs[i].size, true)];
    assert BlockLaid(mem', na, ns, 0);
    ReplaceRun(mem, addrs, bs, i, i + 1, mem', na, ns);
    ReplaceRunKeepsLive(mem, addrs, bs, i, i + 1, mem', na, ns, {});
    assert addrs[..i] + na + addrs[i + 2..] == addrs;
    assert bs[..i] + ns + bs[i + 1..] == bs[i := Block(bs[i].size, true)];
  }

  /**
   * free's two writes on the words: once block k carries PACK(size, 0) at
   * both ends, the words lay out the chain with block k free, and every other
   * live block is kept.
   */
  lemma FreeStep(mem: seq<nat>, addrs: seq<int>, bs: seq<Block>, k: nat, mem': seq<nat>)
    requires Laid(mem, addrs, bs) && 1 <= k < |bs| && BlockLaid(mem, addrs, bs, k)
    requires mem' == mem[addrs[k] - 1 := Pack(bs[k].size, 0)][addrs[k + 1] - 2 := Pack(bs[k].size, 0)]
    ensures Laid(mem', addrs, bs[k := Block(bs[k].size, false)])
    ensures LiveKept(mem, addrs, bs, mem', addrs, bs[k := Block(bs[k].size, false)], {addrs[k]})
  {
    var na, ns := [addrs[k], addrs[k + 1]], [Block(bs[k].size, false)];
    assert BlockLaid(mem', na, ns, 0);
    ReplaceRun(mem, addrs, bs, k, k + 1, mem', na, ns);
    ReplaceRunKeepsLive(mem, addrs, bs, k, k + 1, mem', na, ns, {addrs[k]});
    assert addrs[..k] + na + addrs[k + 2..] == addrs;
    assert bs[..k] + ns + bs[k + 1..] == bs[k := Block(bs[k].size, false)];
  }

  /** A block that was not live before needs no exception. */
  lemma LiveKeptDrop(mem0: seq<nat>, addrs0: seq<int>, bs0: seq<Block>,
                     mem1: seq<nat>, addrs1: seq<int>, bs1: seq<Block>, x: set<int>, p: int)
    requires LiveKept(mem0, addrs0, bs0, mem1, addrs1, bs1, x + {p}) && NotLiveIn(addrs0, bs0, p)
    ensures LiveKept(mem0, addrs0, bs0, mem1, addrs1, bs1, x)
  {
    forall k | 0 <= k < |bs0| && bs0[k].alloc && addrs0[k] !in x
      ensures KeptAt(mem0, addrs0, bs0, mem1, addrs1, bs1, k)
    {
      assert addrs0[k] !in x + {p};
    }
  }

  /** Words p1 .. p1 + n - 1 of mem1 hold what words p0 .. p0 + n - 1 of mem0 held. */
  ghost predicate Copied(mem1: seq<nat>, p1: int, mem0: seq<nat>, p0: int, n: nat)
  {
    && 0 <= p1 && p1 + n <= |mem1| && 0 <= p0 && p0 + n <= |mem0|
    && forall p :: p1 <= p < p1 + n ==> mem1[p] == mem0[p - p1 + p0]
  }

  /**
   * A prefix of a copy survives any later change that leaves the words
   * lo .. hi - 1 around it alone.
   */
  lemma CopiedKept(mem1: seq<nat>, p1: int, mem0: seq<nat>, p0: int, n: nat, m: nat, mem2: seq<nat>, lo: int, hi: int)
    requires Copied(mem1, p1, mem0, p0, n) && m <= n && lo <= p1 < hi <= |mem1| && p1 + m <= hi
    requires forall p :: lo <= p < hi ==> 0 <= p < |mem1| && p < |mem2| && mem2[p] == mem1[p]
    ensures Copied(mem2, p1, mem0, p0, m)
  {
    assert mem1[hi - 1] < mem1[hi - 1] + 1;
    assert hi <= |mem2|;
    forall p | p1 <= p < p1 + m
      ensures mem2[p] == mem0[p - p1 + p0]
    {
      assert mem1[p] == mem2[p];
    }
  }

  /** A copy taken from words lo .. hi - 1 is a copy of any earlier heap that held the same words. */
  lemma CopiedSource(mem2: seq<nat>, p1: int, mem1: seq<nat>, p0: int, n: nat, mem0: seq<nat>, lo: int, hi: int)
    requires Copied(mem2, p1, mem1, p0, n) && lo <= p0 < hi <= |mem0| && p0 + n <= hi
    requires forall p :: lo <= p < hi ==> 0 <= p < |mem0| && p < |mem1| && mem1[p] == mem0[p]
    ensures Copied(mem2, p1, mem0, p0, n)
  {
    forall p | p1 <= p < p1 + n
      ensures mem2[p] == mem0[p - p1 + p0]
    {
      assert mem0[p - p1 + p0] < mem0[p - p1 + p0] + 1;
      assert mem2[p] == mem1[p - p1 + p0];
    }
  }

  /** Where a kept live block sits in the second heap. */
  lemma KeptIndex(mem0: seq<nat>, addrs0: seq<int>, bs0: seq<Block>,
                  mem1: seq<nat>, addrs1: seq<int>, bs1: seq<Block>, except: set<int>, k: nat) returns (k1: nat)
    requires LiveKept(mem0, addrs0, bs0, mem1, addrs1, bs1, except)
    requires k < |bs0| && bs0[k].alloc && addrs0[k] !in except
    ensures k1 < |bs1| && k1 < |addrs1| && addrs1[k1] == addrs0[k] && bs1[k1] == bs0[k]
  {
    assert KeptAt(mem0, addrs0, bs0, mem1, addrs1, bs1, k);
    k1 :| 0 <= k1 < |bs1| && k1 < |addrs1| && addrs1[k1] == addrs0[k] && bs1[k1] == bs0[k];
  }

  /** Words p .. p + n - 1 of mem are all zero. */
  ghost predicate Zeroed(mem: seq<nat>, p: int, n: nat)
  {
    && 0 <= p && p + n <= |mem|
    && forall q :: p <= q < p + n ==> mem[q] == 0
  }
}
