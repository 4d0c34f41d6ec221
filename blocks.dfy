/**
 * The block chain of the heap as a sequence of blocks, and the allocator's
 * operations as functions on it. blocks[0] is the 8-byte prologue; the
 * size-0 epilogue that ends the chain is implicit. The rover of the next-fit
 * search is the index of the block it points at.
 */
module Blocks {
  import opened Layout

  datatype Option<T> = None | Some(value: T)

  datatype Block = Block(size: nat, alloc: bool)

  datatype Heap = Heap(blocks: seq<Block>, rover: nat)

  /** The header (and footer) word of a block. */
  function Tag(b: Block): (w: nat)
    ensures b.size % DSIZE == 0 ==> GetSize(w) == b.size && (GetAlloc(w) == 1 <==> b.alloc)
  {
    Pack(b.size, if b.alloc then 1 else 0)
  }

  const Prologue: Block := Block(DSIZE, true)

  /** Header, two payload words and footer. */
  const MinBlock: nat := 2 * DSIZE

  /** Sum of the block sizes, in bytes. */
  function Total(bs: seq<Block>): nat
  {
    if bs == [] then 0 else Total(bs[..|bs| - 1]) + bs[|bs| - 1].size
  }

  lemma {:induction false} TotalConcat(a: seq<Block>, b: seq<Block>)
    ensures Total(a + b) == Total(a) + Total(b)
    decreases |b|
  {
    if b == [] {
      assert a + b == a;
    } else {
      assert (a + b)[..|a + b| - 1] == a + b[..|b| - 1];
      TotalConcat(a, b[..|b| - 1]);
    }
  }

  lemma TotalOne(a: Block)
    ensures Total([a]) == a.size
  {
    assert [a][..0] == [];
  }

  lemma TotalTwo(a: Block, b: Block)
    ensures Total([a, b]) == a.size + b.size
  {
    assert [a, b][..1] == [a];
    TotalOne(a);
  }

  /** Replacing the run lo..hi-1 by mid changes the total by the difference. */
  lemma TotalReplace(bs: seq<Block>, lo: nat, hi: nat, mid: seq<Block>)
    requires lo <= hi <= |bs|
    ensures Total(bs[..lo] + mid + bs[hi..]) + Total(bs[lo..hi]) == Total(bs) + Total(mid)
  {
    assert bs == bs[..lo] + bs[lo..hi] + bs[hi..];
    TotalConcat(bs[..lo] + bs[lo..hi], bs[hi..]);
    TotalConcat(bs[..lo], bs[lo..hi]);
    TotalConcat(bs[..lo] + mid, bs[hi..]);
    TotalConcat(bs[..lo], mid);
  }

  /** A block of a run weighs no more than the run. */
  lemma TotalCovers(bs: seq<Block>, lo: nat, hi: nat, k: nat)
    requires lo <= k < hi <= |bs|
    ensures Total(bs[lo..hi]) >= bs[k].size
  {
    assert bs[lo..hi] == bs[lo..k] + [bs[k]] + bs[k + 1..hi];
    TotalConcat(bs[lo..k] + [bs[k]], bs[k + 1..hi]);
    TotalConcat(bs[lo..k], [bs[k]]);
    assert [bs[k]][..0] == [];
  }

  /** An ordinary block: 8-aligned size, at least the minimum block size. */
  predicate Sized(b: Block)
  {
    b.size % DSIZE == 0 && b.size >= MinBlock
  }

  /** A run of ordinary blocks is itself an ordinary size. */
  lemma {:induction false} TotalSized(bs: seq<Block>)
    requires |bs| >= 1 && forall k :: 0 <= k < |bs| ==> Sized(bs[k])
    ensures Sized(Block(Total(bs), false))
    decreases |bs|
  {
    if |bs| > 1 {
      TotalSized(bs[..|bs| - 1]);
    } else {
      assert bs[..0] == [];
    }
  }

  /** The prologue first, every other block ordinary. */
  predicate Shaped(bs: seq<Block>)
  {
    |bs| >= 1 && bs[0] == Prologue && forall k :: 1 <= k < |bs| ==> Sized(bs[k])
  }

  /** No two neighbouring blocks are free, except possibly those next to block i. */
  predicate CoalescedExcept(bs: seq<Block>, i: int)
  {
    forall j :: 0 <= j < |bs| - 1 && j != i - 1 && j != i ==> bs[j].alloc || bs[j + 1].alloc
  }

  /** No two neighbouring blocks are free. */
  predicate Coalesced(bs: seq<Block>)
  {
    forall j :: 0 <= j < |bs| - 1 ==> bs[j].alloc || bs[j + 1].alloc
  }

  /** The invariant of the block chain between public operations. */
  predicate Good(h: Heap)
  {
    Shaped(h.blocks) && Coalesced(h.blocks) && h.rover < |h.blocks|
  }

  /** Heap length in words: padding, the blocks, the epilogue header. */
  function HeapWords(bs: seq<Block>): nat
  {
    2 + Total(bs) / WSIZE
  }

  // ---------------------------------------------------------------------
  // Coalescing
  // ---------------------------------------------------------------------

  /** First block of the free run that coalescing block i produces. */
  function RunStart(bs: seq<Block>, i: nat): nat
    requires 1 <= i < |bs|
  {
    if bs[i - 1].alloc then i else i - 1
  }

  /** One past the last block of that run; the epilogue counts as allocated. */
  function RunEnd(bs: seq<Block>, i: nat): nat
    requires i < |bs|
  {
    if i + 1 < |bs| && !bs[i + 1].alloc then i + 2 else i + 1
  }

  /** Blocks lo..hi-1 replaced by one free block of their total size. */
  function Merge(bs: seq<Block>, lo: nat, hi: nat): (m: seq<Block>)
    requires lo < hi <= |bs|
    ensures |m| + (hi - lo) == |bs| + 1 && !m[lo].alloc
  {
    bs[..lo] + [Block(Total(bs[lo..hi]), false)] + bs[hi..]
  }

  /**
   * The rover after blocks lo..hi-1 merged: a rover strictly inside the merged
   * block moves to its start, one beyond it keeps pointing at the same block.
   */
  function RoverAfterMerge(r: nat, lo: nat, hi: nat): (r': nat)
    requires lo < hi
    ensures r' <= r && (r <= lo ==> r' == r)
    ensures lo <= r < hi ==> r' == lo
    ensures hi <= r ==> r - r' == hi - lo - 1
  {
    if lo < r < hi then lo else if r >= hi then r - (hi - lo - 1) else r
  }

  /** Merges free block i with its free neighbours; returns the merged block's index. */
  function Coalesce(h: Heap, i: nat): (r: (Heap, nat))
    requires 1 <= i < |h.blocks|
    ensures r.1 <= i <= r.1 + 1 && r.1 < |r.0.blocks|
    ensures |r.0.blocks| <= |h.blocks| <= |r.0.blocks| + 2
  {
    var lo := RunStart(h.blocks, i);
    var hi := RunEnd(h.blocks, i);
    (Heap(Merge(h.blocks, lo, hi), RoverAfterMerge(h.rover, lo, hi)), lo)
  }

  /** Case 1: with both neighbours allocated, nothing changes. */
  lemma CoalesceIsolated(h: Heap, i: nat)
    requires 1 <= i < |h.blocks| && !h.blocks[i].alloc
    requires h.blocks[i - 1].alloc && (i + 1 == |h.blocks| || h.blocks[i + 1].alloc)
    ensures Coalesce(h, i) == (h, i)
  {
    var bs := h.blocks;
    assert bs[i..i + 1] == [bs[i]];
    TotalOne(bs[i]);
    assert Block(Total(bs[i..i + 1]), false) == bs[i];
    assert bs == bs[..i] + [bs[i]] + bs[i + 1..];
  }

  /**
   * Coalescing merges exactly the maximal free run around block i: every
   * block of it is free, the block before it and the block after it (or the
   * epilogue) are allocated. The merged block is at least as large as i.
   */
  lemma CoalesceMergesMaximalRun(h: Heap, i: nat)
    requires Shaped(h.blocks) && CoalescedExcept(h.blocks, i)
    requires 1 <= i < |h.blocks| && !h.blocks[i].alloc
    ensures var lo, hi := RunStart(h.blocks, i), RunEnd(h.blocks, i);
      && 1 <= lo <= i < hi <= |h.blocks|
      && (forall k :: lo <= k < hi ==> !h.blocks[k].alloc)
      && h.blocks[lo - 1].alloc
      && (hi == |h.blocks| || h.blocks[hi].alloc)
      && Coalesce(h, i).0.blocks == Merge(h.blocks, lo, hi)
      && Coalesce(h, i).1 == lo
  {
    var bs := h.blocks;
    assert bs[0].alloc;
    if i >= 2 && !bs[i - 1].alloc {
      assert bs[i - 2].alloc;
    }
    if i + 2 < |bs| && !bs[i + 1].alloc {
      assert bs[i + 2].alloc;
    }
  }

  /** Merging a run conserves the total size of the heap. */
  lemma MergeConserves(bs: seq<Block>, lo: nat, hi: nat)
    requires lo < hi <= |bs|
    ensures Total(Merge(bs, lo, hi)) == Total(bs)
    ensures |Merge(bs, lo, hi)| == |bs| - (hi - lo - 1)
  {
    var m := Block(Total(bs[lo..hi]), false);
    TotalReplace(bs, lo, hi, [m]);
    TotalOne(m);
  }

  /**
   * Coalescing restores the chain invariant, conserves the total size and
   * leaves the rover on a block; the merged block is free and no smaller
   * than the block that was coalesced.
   */
  lemma CoalesceRestores(h: Heap, i: nat)
    requires Shaped(h.blocks) && CoalescedExcept(h.blocks, i) && h.rover < |h.blocks|
    requires 1 <= i < |h.blocks| && !h.blocks[i].alloc
    ensures var (h', j) := Coalesce(h, i);
      && Good(h')
      && Total(h'.blocks) == Total(h.blocks)
      && 1 <= j <= i && j < |h'.blocks|
      && !h'.blocks[j].alloc && h'.blocks[j].size >= h.blocks[i].size
      && h'.blocks[..j] == h.blocks[..j]
  {
    var bs := h.blocks;
    CoalesceMergesMaximalRun(h, i);
    var lo, hi := RunStart(bs, i), RunEnd(bs, i);
    MergeConserves(bs, lo, hi);
    TotalCovers(bs, lo, hi, i);
    MergeShaped(bs, lo, hi);
    MergeCoalesced(bs, lo, hi, i);
  }

  /** Merging a run of ordinary blocks after the prologue keeps the chain shaped. */
  lemma MergeShaped(bs: seq<Block>, lo: nat, hi: nat)
    requires Shaped(bs) && 1 <= lo < hi <= |bs|
    ensures Shaped(Merge(bs, lo, hi))
  {
    var m := Merge(bs, lo, hi);
    TotalSized(bs[lo..hi]);
    assert m[lo] == Block(Total(bs[lo..hi]), false);
    forall k | 1 <= k < |m| ensures Sized(m[k]) {
      if k > lo { assert m[k] == bs[k + (hi - lo - 1)]; }
    }
  }

  /** Merging a maximal free run (allocated on both sides) leaves no free neighbours. */
  lemma MergeCoalesced(bs: seq<Block>, lo: nat, hi: nat, i: nat)
    requires 1 <= lo <= i < hi <= |bs| && CoalescedExcept(bs, i)
    requires bs[lo - 1].alloc && (hi == |bs| || bs[hi].alloc)
    ensures Coalesced(Merge(bs, lo, hi))
  {
    var m := Merge(bs, lo, hi);
    forall j | 0 <= j < |m| - 1 ensures m[j].alloc || m[j + 1].alloc {
      if j + 1 < lo {
        assert bs[j].alloc || bs[j + 1].alloc;
      } else if j + 1 == lo {
        assert m[j] == bs[lo - 1];
      } else if j == lo {
        assert m[j + 1] == bs[hi];
      } else {
        var d := hi - lo - 1;
        assert m[j] == bs[j + d] && m[j + 1] == bs[j + 1 + d];
        assert j + d >= hi;
      }
    }
  }

  // ---------------------------------------------------------------------
  // Placing an allocation in a free block
  // ---------------------------------------------------------------------

  /**
   * Marks block i allocated for asize bytes: splits off a free remainder when
   * at least a minimum block would be left, uses the whole block otherwise.
   */
  function Place(h: Heap, i: nat, asize: nat): (h': Heap)
    requires 1 <= i < |h.blocks| && asize <= h.blocks[i].size
    ensures |h.blocks| <= |h'.blocks| <= |h.blocks| + 1
    ensures h'.blocks[i].alloc && asize <= h'.blocks[i].size
  {
    var csize := h.blocks[i].size;
    if csize - asize >= MinBlock then
      Heap(h.blocks[..i] + [Block(asize, true), Block(csize - asize, false)] + h.blocks[i + 1..],
           if h.rover > i then h.rover + 1 else h.rover)
    else
      Heap(h.blocks[i := Block(csize, true)], h.rover)
  }

  /** Splitting a free block into allocated a and free f keeps the chain coalesced. */
  lemma SplitCoalesced(bs: seq<Block>, i: nat, a: Block, f: Block)
    requires Coalesced(bs) && i < |bs| && !bs[i].alloc && a.alloc
    ensures Coalesced(bs[..i] + [a, f] + bs[i + 1..])
  {
    var m := bs[..i] + [a, f] + bs[i + 1..];
    forall j | 0 <= j < |m| - 1 ensures m[j].alloc || m[j + 1].alloc {
      if j + 1 < i {
        assert m[j] == bs[j] && m[j + 1] == bs[j + 1];
      } else if j == i + 1 {
        assert m[j + 1] == bs[i + 1];
        assert bs[i + 1].alloc;
      } else if j > i + 1 {
        assert m[j] == bs[j - 1] && m[j + 1] == bs[j];
      }
    }
  }

  /** Splitting an ordinary block into ordinary blocks keeps the chain shaped. */
  lemma SplitShaped(bs: seq<Block>, i: nat, a: Block, f: Block)
    requires Shaped(bs) && 1 <= i < |bs| && Sized(a) && Sized(f)
    ensures Shaped(bs[..i] + [a, f] + bs[i + 1..])
  {
    var m := bs[..i] + [a, f] + bs[i + 1..];
    forall k | 1 <= k < |m| ensures Sized(m[k]) {
      if k > i + 1 { assert m[k] == bs[k - 1]; }
    }
  }

  /** The split case of Place: asize allocated bytes, then a free remainder. */
  lemma PlaceSplitFacts(h: Heap, i: nat, asize: nat)
    requires Good(h) && 1 <= i < |h.blocks| && !h.blocks[i].alloc
    requires asize <= h.blocks[i].size && Sized(Block(asize, true))
    requires h.blocks[i].size - asize >= MinBlock
    ensures var h', csize := Place(h, i, asize), h.blocks[i].size;
      && Good(h')
      && Total(h'.blocks) == Total(h.blocks)
      && |h'.blocks| == |h.blocks| + 1
      && h'.blocks[..i] == h.blocks[..i]
      && h'.blocks[i] == Block(asize, true) && h'.blocks[i + 1] == Block(csize - asize, false)
      && h'.blocks[i + 2..] == h.blocks[i + 1..]
  {
    var bs, csize := h.blocks, h.blocks[i].size;
    var a, f := Block(asize, true), Block(csize - asize, false);
    var m := bs[..i] + [a, f] + bs[i + 1..];
    assert Place(h, i, asize).blocks == m;
    TotalReplace(bs, i, i + 1, [a, f]);
    TotalTwo(a, f);
    assert bs[i..i + 1] == [bs[i]];
    TotalOne(bs[i]);
    SplitShaped(bs, i, a, f);
    SplitCoalesced(bs, i, a, f);
    assert m[i + 2..] == bs[i + 1..];
  }

  /** The whole-block case of Place: block i is allocated as it stands. */
  lemma PlaceWholeFacts(h: Heap, i: nat, asize: nat)
    requires Good(h) && 1 <= i < |h.blocks| && !h.blocks[i].alloc
    requires asize <= h.blocks[i].size && h.blocks[i].size - asize < MinBlock
    ensures var h', csize := Place(h, i, asize), h.blocks[i].size;
      && Good(h')
      && Total(h'.blocks) == Total(h.blocks)
      && |h'.blocks| == |h.blocks|
      && h'.blocks[..i] == h.blocks[..i]
      && h'.blocks[i] == Block(csize, true) && h'.blocks[i + 1..] == h.blocks[i + 1..]
  {
    var bs, csize := h.blocks, h.blocks[i].size;
    var m := bs[i := Block(csize, true)];
    assert m == bs[..i] + [m[i]] + bs[i + 1..];
    TotalReplace(bs, i, i + 1, [m[i]]);
    assert bs[i..i + 1] == [bs[i]];
    TotalOne(bs[i]);
    TotalOne(m[i]);
    assert Coalesced(m) by {
      forall j | 0 <= j < |m| - 1 ensures m[j].alloc || m[j + 1].alloc {
        assert bs[j].alloc || bs[j + 1].alloc;
      }
    }
  }

  /**
   * Placing splits if and only if at least a minimum block remains; block i
   * becomes allocated with asize bytes (split) or all of its bytes (no
   * split); the remainder is free; the total size and the invariant hold.
   */
  lemma PlaceFacts(h: Heap, i: nat, asize: nat)
    requires Good(h) && 1 <= i < |h.blocks| && !h.blocks[i].alloc
    requires asize <= h.blocks[i].size && Sized(Block(asize, true))
    ensures var h', csize := Place(h, i, asize), h.blocks[i].size;
      && Good(h')
      && Total(h'.blocks) == Total(h.blocks)
      && (|h'.blocks| == |h.blocks| + 1 <==> csize - asize >= MinBlock)
      && h'.blocks[..i] == h.blocks[..i]
      && h'.blocks[i].alloc && h'.blocks[i].size >= asize
      && (csize - asize >= MinBlock ==>
            h'.blocks[i] == Block(asize, true) && h'.blocks[i + 1] == Block(csize - asize, false)
            && h'.blocks[i + 2..] == h.blocks[i + 1..])
      && (csize - asize < MinBlock ==>
            h'.blocks[i] == Block(csize, true) && h'.blocks[i + 1..] == h.blocks[i + 1..])
  {
    if h.blocks[i].size - asize >= MinBlock {
      PlaceSplitFacts(h, i, asize);
    } else {
      PlaceWholeFacts(h, i, asize);
    }
  }

  // ---------------------------------------------------------------------
  // Next-fit search
  // ---------------------------------------------------------------------

  /** A free block with room for asize bytes. */
  predicate Fits(b: Block, asize: nat)
  {
    !b.alloc && asize <= b.size
  }

  /** The first block among lo..hi-1 that fits. */
  function FirstFit(bs: seq<Block>, lo: nat, hi: nat, asize: nat): (r: Option<nat>)
    requires lo <= hi <= |bs|
    ensures r.Some? ==> lo <= r.value < hi && Fits(bs[r.value], asize)
    ensures r.Some? ==> forall k :: lo <= k < r.value ==> !Fits(bs[k], asize)
    ensures r.None? ==> forall k :: lo <= k < hi ==> !Fits(bs[k], asize)
    decreases hi - lo
  {
    if lo == hi then None
    else if Fits(bs[lo], asize) then Some(lo)
    else FirstFit(bs, lo + 1, hi, asize)
  }

  /**
   * Next fit: the first fitting block from the rover to the end of the chain,
   * else the first one from the start of the chain up to the rover.
   */
  function NextFit(h: Heap, asize: nat): (r: Option<nat>)
    requires h.rover <= |h.blocks|
    ensures r.Some? ==> r.value < |h.blocks| && Fits(h.blocks[r.value], asize)
    ensures r.None? <==> forall k :: 0 <= k < |h.blocks| ==> !Fits(h.blocks[k], asize)
    ensures r.Some? && r.value >= h.rover ==>
      forall k :: h.rover <= k < r.value ==> !Fits(h.blocks[k], asize)
    ensures r.Some? && r.value < h.rover ==>
      forall k :: h.rover <= k < |h.blocks| || 0 <= k < r.value ==> !Fits(h.blocks[k], asize)
  {
    match FirstFit(h.blocks, h.rover, |h.blocks|, asize)
    case Some(k) => Some(k)
    case None => FirstFit(h.blocks, 0, h.rover, asize)
  }

  // ---------------------------------------------------------------------
  // Heap growth
  // ---------------------------------------------------------------------

  /** An odd word count is rounded up to keep blocks double-word aligned. */
  function EvenWords(words: nat): (n: nat)
    ensures n % 2 == 0 && words <= n <= words + 1
  {
    if words % 2 == 1 then words + 1 else words
  }

  /**
   * Appends a free block of the rounded size and coalesces it with a free
   * tail. None when the heap cannot grow by that much within capacity words.
   */
  function Extend(h: Heap, words: nat, capacity: nat): (r: Option<(Heap, nat)>)
    requires |h.blocks| >= 1
    ensures r.None? <==> HeapWords(h.blocks) + EvenWords(words) > capacity
  {
    var size := EvenWords(words) * WSIZE;
    if HeapWords(h.blocks) + size / WSIZE > capacity then None
    else Some(Coalesce(Heap(h.blocks + [Block(size, false)], h.rover), |h.blocks|))
  }

  /** The chain with a free block of size bytes appended, before coalescing. */
  lemma AppendFacts(h: Heap, size: nat)
    requires Good(h) && Sized(Block(size, false))
    ensures var bs := h.blocks + [Block(size, false)];
      && Shaped(bs) && CoalescedExcept(bs, |h.blocks|) && h.rover < |bs|
      && Total(bs) == Total(h.blocks) + size
      && bs[..|h.blocks|] == h.blocks
  {
    var bs := h.blocks + [Block(size, false)];
    TotalConcat(h.blocks, [Block(size, false)]);
    TotalOne(Block(size, false));
    assert CoalescedExcept(bs, |h.blocks|) by {
      forall j | 0 <= j < |bs| - 1 && j != |h.blocks| - 1 && j != |h.blocks|
        ensures bs[j].alloc || bs[j + 1].alloc
      {
        assert bs[j] == h.blocks[j] && bs[j + 1] == h.blocks[j + 1];
      }
    }
  }

  /** Extend with the grown size written out the way extend_heap computes it. */
  lemma ExtendCases(h: Heap, words: nat, capacity: nat, size: nat)
    requires |h.blocks| >= 1
    requires size == if words % 2 == 1 then (words + 1) * WSIZE else words * WSIZE
    ensures size == EvenWords(words) * WSIZE && size / WSIZE == EvenWords(words)
    ensures Extend(h, words, capacity) ==
      if HeapWords(h.blocks) + size / WSIZE > capacity then None
      else Some(Coalesce(Heap(h.blocks + [Block(size, false)], h.rover), |h.blocks|))
  {
  }

  /**
   * Growth fails exactly when capacity would be exceeded. On success the new
   * bytes form one free block at the end of the chain, of at least the
   * requested size, the total grows by the rounded size, the blocks before it
   * are kept and the invariant holds.
   */
  lemma ExtendFacts(h: Heap, words: nat, capacity: nat)
    requires Good(h) && words >= MinBlock / WSIZE
    ensures var size := EvenWords(words) * WSIZE;
      && (Extend(h, words, capacity).None? <==> HeapWords(h.blocks) + size / WSIZE > capacity)
      && (Extend(h, words, capacity).Some? ==>
            var (h', j) := Extend(h, words, capacity).value;
            && Good(h')
            && Total(h'.blocks) == Total(h.blocks) + size
            && 1 <= j == |h'.blocks| - 1
            && !h'.blocks[j].alloc && h'.blocks[j].size >= size
            && h'.blocks[..j] == h.blocks[..j])
  {
    var size := EvenWords(words) * WSIZE;
    if HeapWords(h.blocks) + size / WSIZE <= capacity {
      AppendFacts(h, size);
      var bs := h.blocks + [Block(size, false)];
      CoalesceRestores(Heap(bs, h.rover), |h.blocks|);
    }
  }

  // ---------------------------------------------------------------------
  // The public operations
  // ---------------------------------------------------------------------

  /**
   * The block size serving a request of size bytes: header and footer added,
   * rounded up to a double word, at least a minimum block.
   */
  function AdjustSize(size: nat): (asize: nat)
    ensures Sized(Block(asize, true))
    ensures asize >= size + DSIZE
    ensures asize == MinBlock || asize < size + 2 * DSIZE
  {
    if size <= DSIZE then 2 * DSIZE
    else DSIZE * ((size + DSIZE + (DSIZE - 1)) / DSIZE)
  }

  /** How much the heap grows when no fit exists: the larger of asize and a chunk. */
  function ExtendSize(asize: nat): (n: nat)
    ensures n >= asize && n >= CHUNKSIZE && (n == asize || n == CHUNKSIZE)
  {
    if asize < CHUNKSIZE then CHUNKSIZE else asize
  }

  /** The heap right after its sentinels are laid down. */
  const Empty: Heap := Heap([Prologue], 0)

  /**
   * Sentinels, then one chunk; the flag says whether the chunk was obtained.
   * Either way the invariant holds; with the chunk the heap is one free block.
   */
  function Init(capacity: nat): (r: (Heap, bool))
    ensures Good(r.0)
    ensures r.1 <==> capacity >= HeapWords([Prologue]) + CHUNKSIZE / WSIZE
    ensures r.1 ==> r.0 == Heap([Prologue, Block(CHUNKSIZE, false)], 0)
    ensures !r.1 ==> r.0 == Empty
  {
    FirstChunk(capacity);
    match Extend(Empty, CHUNKSIZE / WSIZE, capacity)
    case None => (Empty, false)
    case Some(e) => (e.0, true)
  }

  /**
   * The growth malloc asks for when nothing fits: the larger of asize and a
   * chunk. When the heap can grow that much, the new block (coalesced with a
   * free predecessor) has room for asize bytes.
   */
  function Grow(h: Heap, asize: nat, capacity: nat): (r: Option<(Heap, nat)>)
    requires Good(h) && Sized(Block(asize, true))
    ensures r.None? <==> HeapWords(h.blocks) + EvenWords(ExtendSize(asize) / WSIZE) > capacity
    ensures r.Some? ==> && Good(r.value.0) && 1 <= r.value.1 < |r.value.0.blocks|
                        && Fits(r.value.0.blocks[r.value.1], asize)
  {
    ExtendFacts(h, ExtendSize(asize) / WSIZE, capacity);
    Extend(h, ExtendSize(asize) / WSIZE, capacity)
  }

  /**
   * malloc: None for a zero request; otherwise place asize bytes in the next
   * fit, or grow the heap and place them in the new block, or fail.
   */
  function Malloc(h: Heap, size: nat, capacity: nat): (r: (Heap, Option<nat>))
    requires Good(h)
    ensures size == 0 ==> r.1.None?
    ensures r.1.None? ==> r.0 == h
  {
    if size == 0 then (h, None)
    else
      var asize := AdjustSize(size);
      match NextFit(h, asize)
      case Some(k) => (Place(Heap(h.blocks, k), k, asize), Some(k))
      case None =>
        match Grow(h, asize, capacity)
        case None => (h, None)
        case Some(e) => (Place(e.0, e.1, asize), Some(e.1))
  }

  /**
   * A successful malloc hands out an allocated block of at least asize bytes,
   * so its payload holds the request; a failed one changes nothing; the
   * invariant holds afterwards either way.
   */
  lemma MallocFacts(h: Heap, size: nat, capacity: nat)
    requires Good(h)
    ensures var (h', r) := Malloc(h, size, capacity);
      && Good(h')
      && (r.None? ==> h' == h)
      && (size == 0 ==> r.None?)
      && (size != 0 ==>
            (r.None? <==> (forall k :: 0 <= k < |h.blocks| ==> !Fits(h.blocks[k], AdjustSize(size)))
                          && HeapWords(h.blocks) + EvenWords(ExtendSize(AdjustSize(size)) / WSIZE) > capacity))
      && (r.Some? ==> 1 <= r.value < |h'.blocks| && h'.blocks[r.value].alloc
                      && h'.blocks[r.value].size >= AdjustSize(size)
                      && h'.blocks[r.value].size - DSIZE >= size)
  {
    if size != 0 {
      var asize := AdjustSize(size);
      match NextFit(h, asize)
      case Some(k) => {
        PlaceFacts(Heap(h.blocks, k), k, asize);
      }
      case None => {
        match Grow(h, asize, capacity)
        case None =>
        case Some(e) => {
          PlaceFacts(e.0, e.1, asize);
        }
      }
    }
  }


  /** free: marks block k free, then coalesces it. */
  function Free(h: Heap, k: nat): (r: (Heap, nat))
    requires 1 <= k < |h.blocks|
    ensures r.1 <= k <= r.1 + 1 && r.1 < |r.0.blocks|
  {
    Coalesce(Heap(h.blocks[k := Block(h.blocks[k].size, false)], h.rover), k)
  }

  /**
   * Clearing the allocated bit of block k keeps the chain shaped and its
   * total, and leaves at most the neighbours of k uncoalesced.
   */
  lemma MarkFreeFacts(h: Heap, k: nat)
    requires Good(h) && 1 <= k < |h.blocks| && h.blocks[k].alloc
    ensures var bs := h.blocks[k := Block(h.blocks[k].size, false)];
      && Shaped(bs) && CoalescedExcept(bs, k)
      && Total(bs) == Total(h.blocks)
  {
    var bs := h.blocks[k := Block(h.blocks[k].size, false)];
    TotalReplace(h.blocks, k, k + 1, [bs[k]]);
    TotalOne(bs[k]);
    TotalOne(h.blocks[k]);
    assert bs == h.blocks[..k] + [bs[k]] + h.blocks[k + 1..];
    assert h.blocks[k..k + 1] == [h.blocks[k]];
    assert CoalescedExcept(bs, k) by {
      forall j | 0 <= j < |bs| - 1 && j != k - 1 && j != k ensures bs[j].alloc || bs[j + 1].alloc {
        assert h.blocks[j].alloc || h.blocks[j + 1].alloc;
      }
    }
  }

  /**
   * free keeps the invariant and conserves the total size; the freed block
   * ends up inside a free block.
   */
  lemma FreeFacts(h: Heap, k: nat)
    requires Good(h) && 1 <= k < |h.blocks| && h.blocks[k].alloc
    ensures Good(Free(h, k).0) && Total(Free(h, k).0.blocks) == Total(h.blocks)
    ensures !Free(h, k).0.blocks[Free(h, k).1].alloc
  {
    MarkFreeFacts(h, k);
    CoalesceRestores(Heap(h.blocks[k := Block(h.blocks[k].size, false)], h.rover), k);
  }

  /** The first chunk lands as one free block after the prologue, or does not fit. */
  lemma FirstChunk(capacity: nat)
    ensures Good(Empty)
    ensures Extend(Empty, CHUNKSIZE / WSIZE, capacity).None? <==>
      capacity < HeapWords([Prologue]) + CHUNKSIZE / WSIZE
    ensures Extend(Empty, CHUNKSIZE / WSIZE, capacity).Some? ==>
      Extend(Empty, CHUNKSIZE / WSIZE, capacity).value.0 == Heap([Prologue, Block(CHUNKSIZE, false)], 0)
  {
    assert Good(Empty);
    ExtendFacts(Empty, CHUNKSIZE / WSIZE, capacity);
    assert [Prologue][..0] == [];
    if capacity >= HeapWords([Prologue]) + CHUNKSIZE / WSIZE {
      CoalesceIsolated(Heap([Prologue, Block(CHUNKSIZE, false)], 0), 1);
    }
  }

}
