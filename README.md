# malloclab allocator, modelled in Dafny

This project models the allocator in `malloclab/mm.c`. It is an implicit free
list with boundary tags and next-fit placement.

- Every block starts with a header word that packs its size (a multiple of
  8 bytes) with an allocated bit. It ends with a footer word that repeats
  the header.
- The heap holds:
  - an alignment padding word;
  - an 8-byte allocated prologue at `heap_listp`;
  - the blocks;
  - a size-0 allocated epilogue header.
- `malloc`:
  1. rounds the request up to a block size (`asize`);
  2. looks for a free block that fits, starting at the `rover` and wrapping
     once;
  3. if none fits, grows the heap with `extend_heap`;
  4. places the request, splitting off the rest when at least 16 bytes
     remain.
- `free` clears the allocated bit and `coalesce` merges the block with free
  neighbours. `realloc` and `calloc` are built on `malloc` and `free`.

The model has three layers.

- `Layout` (`layout.dfy`) holds the word macros: `PACK`, `GET_SIZE`,
  `GET_ALLOC`, `HDRP`, `FTRP`, `NEXT_BLKP`, `PREV_BLKP`.
  - Addresses are word indices into the heap. Byte address `4 * p` sits
    above an 8-aligned base, so an 8-aligned pointer is an even index.
- `Blocks` (`blocks.dfy`) describes the chain as a sequence of blocks.
  - `blocks[0]` is the prologue; the epilogue is implicit.
  - The rover is the index of the block it points at.
  - Each operation is a function here: `Coalesce`, `Place`, `NextFit`,
    `Extend`, `Grow`, `Init`, `Malloc`, `Free`.
  - The invariant `Good` says every block is 8-aligned and at least 16 bytes
    (the prologue is 8), no two neighbours are free, and the rover is on a
    block.
  - Lemmas prove the invariant is kept, total size is conserved, and what
    each operation hands back.
- `Mm.Allocator` (`allocator.dfy`) is the imperative allocator. It is a
  class holding:
  - the heap words `mem` (a growable `seq<nat>`);
  - `heap_listp`, `rover` and the `mem_sbrk` capacity;
  - ghost fields `blocks`, `addrs`, `roverIdx` for the chain they encode.

  Each C function is a method that reads and writes the words as the code
  does. Its `ensures` ties the new chain to the `Blocks` function of the old
  one. `Chain` (`chain.dfy`) holds the predicate `Laid` that links words to
  blocks, and the lemmas showing each write pattern keeps it. `LiveKept`
  says every allocated block not freed by the call keeps its address, size
  and every word.

Several C functions are split into smaller methods so each proof stays
small:

| C function | methods in the model |
|---|---|
| `extend_heap` | `ExtendHeap` = `AddChunk` (the `mem_sbrk` call and its three writes, `TagChunk`) + `Coalesce` |
| `coalesce` | `Coalesce` = `MergeTags` (the reads and the four cases, one per `MergeNext`, `MergePrev`, `MergeBoth`) + the rover fix |
| `place` | `Place` = `PlaceTags` (`SplitTags` or `TagBlock`) |
| `find_fit` | `FindFit` = its two loops, `ScanToEpilogue` and `ScanToRover` |
| `malloc` | `Malloc` = lazy `mm_init` + `Allocate`, whose fit branch is `PlaceFit` and no-fit branch `GrowAndPlace` |
| `free` | `Free` = `MarkFree` (the two tag writes) + `Coalesce` |
| `realloc` | `Realloc` = `Move` = `Relocate` = `CopyInto` (the `memcpy`, `CopyPayload`) + `Free` |
| `calloc` | `Calloc` = `Malloc` + `Clear` (the `memset`) |
| `checkblock` | `CheckBlock` |

`findings.dfy` models four places where the code as written differs from
what it evidently means. The rest of the model uses the corrected behaviour.

## Model

| member | source | states |
|---|---|---|
| Layout.GetSize | malloclab/mm.c:66 | the size read from a word is 8-aligned and is the word with its three low bits cleared |
| Layout.GetAlloc | malloclab/mm.c:67 | the allocated bit is 0 or 1 and is the word's low bit |
| Layout.Pack | malloclab/mm.c:58 | for an 8-aligned size, GET_SIZE and GET_ALLOC read back exactly the size and bit that were packed |
| Layout.Hdrp | malloclab/mm.c:70 | HDRP: the header is the word just before the payload; what reading it gives is proved in Layout.HeaderAddressing and Chain.Reading |
| Layout.Ftrp | malloclab/mm.c:71 | FTRP: the footer sits GET_SIZE(HDRP(bp)) bytes past bp, less a double word |
| Layout.NextBlkp | malloclab/mm.c:75 | NEXT_BLKP: the next payload is GET_SIZE of this header bytes further on |
| Layout.PrevBlkp | malloclab/mm.c:76 | PREV_BLKP: the previous payload is GET_SIZE of the word at bp - 8 bytes further back |
| Layout.HeaderAddressing | malloclab/mm.c:70-75 | once a header holds PACK(size, a), the next block is size bytes on and the footer is two words before it (FTRP(bp) = bp + size - 8 bytes) |
| Layout.FooterAddressing | malloclab/mm.c:76 | once the word below bp's header holds PACK(size, a), PREV_BLKP(bp) is size bytes back |
| Layout.BlockAt | malloclab/mm.c:70-75 | for a block known to end at word e, NEXT_BLKP(bp) is e and FTRP(bp) is e - 2 once its header is written |
| Layout.PrevAt | malloclab/mm.c:76 | for a previous block known to start at word pb, PREV_BLKP(bp) is pb |
| Layout.WordsOfSize | malloclab/mm.c:71-75 | an 8-aligned byte size is a whole, even number of words |
| Blocks.Tag | malloclab/mm.c:58 | a block's header word reads back its size and its allocated state |
| Blocks.Merge | malloclab/mm.c:232-251 | the merged chain has one free block in place of the hi - lo blocks of the run |
| Blocks.RoverAfterMerge | malloclab/mm.c:253-254 | a rover inside the run moves to its first block, one before it stays, one after it moves back by the blocks absorbed |
| Blocks.Coalesce | malloclab/mm.c:222-257 | coalesce returns bp or the block before it, and the chain loses at most two blocks |
| Blocks.CoalesceIsolated | malloclab/mm.c:228-229 | case 1: with both neighbours allocated, the heap is unchanged and bp is returned |
| Blocks.CoalesceMergesMaximalRun | malloclab/mm.c:222-251 | coalesce merges exactly the maximal run of free blocks around i, which has allocated blocks (or the epilogue) on both sides, and returns the run's first block |
| Blocks.MergeConserves | malloclab/mm.c:232-251 | a merge conserves the total size; the chain loses one block per block absorbed |
| Blocks.MergeShaped | malloclab/mm.c:232-251 | the merged block, like the blocks it replaces, is 8-aligned and at least 16 bytes |
| Blocks.MergeCoalesced | malloclab/mm.c:232-251 | after the merge no two neighbours are free |
| Blocks.CoalesceRestores | malloclab/mm.c:222-257 | coalesce restores the invariant, conserves the total size, returns a free block at or before i and at least as large, and leaves the blocks before it unchanged |
| Blocks.SplitShaped | malloclab/mm.c:383-389 | splitting a block into two well-sized halves keeps every block well sized |
| Blocks.SplitCoalesced | malloclab/mm.c:383-389 | splitting a free block into an allocated front and any rest leaves no two free neighbours |
| Blocks.Place | malloclab/mm.c:378-394 | place leaves the chain one block longer (split) or as long, with the block at bp allocated and holding asize bytes |
| Blocks.PlaceSplitFacts | malloclab/mm.c:383-389 | on a split: allocated asize block, then free csize - asize block, nothing else changed, invariant and total size kept |
| Blocks.PlaceWholeFacts | malloclab/mm.c:390-393 | without a split: the whole csize block allocated, nothing else changed, invariant and total size kept |
| Blocks.PlaceFacts | malloclab/mm.c:381-393 | place splits if and only if csize - asize >= 16, hands out an allocated block of at least asize, keeps the invariant and the total size |
| Blocks.FirstFit | malloclab/mm.c:403-410 | a scan over blocks lo..hi-1 finds the first free block of at least asize bytes, or none exists in the range |
| Blocks.NextFit | malloclab/mm.c:400-412 | the result is a free block of at least asize bytes; NULL if and only if no block of the chain fits; the first fit from the rover on, else the first fit before the rover |
| Blocks.EvenWords | malloclab/mm.c:209 | an odd word count is rounded up by one, an even one is kept |
| Blocks.AppendFacts | malloclab/mm.c:214-216 | appending a free block adds its size to the total and breaks coalescing at most at the new block |
| Blocks.Extend | malloclab/mm.c:203-220 | extend_heap fails exactly when the even word count would take the heap past its capacity |
| Blocks.ExtendFacts | malloclab/mm.c:203-220 | a successful extend_heap keeps the invariant, adds the new size to the total and returns the last block, free and at least that size |
| Blocks.AdjustSize | malloclab/mm.c:279-282 | the adjusted size is 8-aligned, at least 16 and at least size + 8, and the smallest such (16, or under size + 16) |
| Blocks.ExtendSize | malloclab/mm.c:292 | the heap grows by the larger of asize and CHUNKSIZE (corrected, see Findings) |
| Blocks.Init | malloclab/mm.c:182-201 | mm_init gives a valid heap; with room for a chunk it is the prologue plus one free 4096-byte block with the rover on the prologue, else only the prologue and init fails |
| Blocks.Grow | malloclab/mm.c:292-294 | (corrected, growth by max(asize, CHUNKSIZE)) malloc's growth fails exactly when the heap would exceed capacity; otherwise it yields a valid heap and a free block that fits asize |
| Blocks.Malloc | malloclab/mm.c:263-298 | (corrected growth) malloc(0) is NULL, and a NULL result leaves the heap as it was |
| Blocks.MallocFacts | malloclab/mm.c:263-298 | (corrected growth) malloc(0) is NULL; NULL leaves the heap unchanged and happens exactly when nothing fits and the heap cannot grow; otherwise the block is allocated, at least asize, and its payload holds size bytes; the invariant holds either way |
| Blocks.MarkFreeFacts | malloclab/mm.c:316-317 | clearing a block's allocated bit keeps the sizes and the total, and leaves at most its neighbours uncoalesced |
| Blocks.Free | malloclab/mm.c:303-320 | free returns the freed block or the one before it, into which it was merged |
| Blocks.FreeFacts | malloclab/mm.c:303-320 | free keeps the invariant and the total size, and the block it leaves is free |
| Blocks.FirstChunk | malloclab/mm.c:196-197 | mm_init's first extend_heap fails exactly when capacity is short, else gives the prologue and one free 4096-byte block |
| Chain.AddrsIncrease | malloclab/mm.c:75 | payload addresses along the chain strictly increase |
| Chain.AddrsSpan | malloclab/mm.c:75 | the words between two payloads hold exactly the blocks between them: the blocks tile the heap |
| Chain.AddrsEven | malloclab/mm.c:439 | starting from an 8-aligned heap_listp, every payload is 8-aligned |
| Chain.Reading | malloclab/mm.c:66-76 | at a laid-out block the macros read its size and state, header equals footer, and NEXT_BLKP and PREV_BLKP give its neighbours |
| Chain.ReadingEpilogue | malloclab/mm.c:469 | the epilogue header reads size 0, allocated |
| Chain.ReadingAt | malloclab/mm.c:403 | a header of size 0 marks the epilogue, and only the epilogue |
| Chain.HeapLength | malloclab/mm.c:185-191 | the heap is the padding word, the prologue, the blocks and the epilogue header |
| Chain.AppendBlock | malloclab/mm.c:214-216 | a block tagged over the old epilogue and the new words, with a new epilogue after it, extends the chain and keeps every live block |
| Chain.AppendChunk | malloclab/mm.c:210-216 | extend_heap's three writes after mem_sbrk lay out the chain with one more free block |
| Chain.MergeRun | malloclab/mm.c:232-251 | rewriting a free run's outer header and footer with the run's total size lays out the merged chain and keeps every live block |
| Chain.WritePayload | malloclab/mm.c:350 | writes inside one block's payload (memcpy here, and calloc's memset at line 367) keep the chain and every other live block |
| Chain.RoverInsideMerged | malloclab/mm.c:253-254 | the rover lies strictly inside the merged block exactly when its block was absorbed; otherwise it still points at the same block |
| Chain.MergedNotLive | malloclab/mm.c:222-257 | after a merge no allocated block starts where a block of the run started |
| Chain.CoalesceReads | malloclab/mm.c:224-226 | the three reads of coalesce give the neighbours' allocated bits (the epilogue's when the block is last) and the block's size |
| Chain.Neighbourhood | malloclab/mm.c:233-247 | where the neighbours of a free block lie and what their tags hold |
| Chain.CoalesceStep | malloclab/mm.c:222-257 | coalesce on the words lays out the Blocks.Coalesce chain, keeps every live block and moves the rover as the code does |
| Chain.SplitHalves | malloclab/mm.c:384-388 | place's four split writes tag both halves and touch nothing outside the block |
| Chain.SplitStep | malloclab/mm.c:383-389 | the split on the words lays out the Blocks.Place chain and keeps every live block and the rover's block |
| Chain.WholeStep | malloclab/mm.c:391-392 | marking the whole block allocated lays out the Blocks.Place chain and keeps every live block |
| Chain.FreeStep | malloclab/mm.c:316-317 | free's two writes lay out the chain with that block free and keep every other live block |
| Chain.CopiedKept | malloclab/mm.c:350-353 | a copy survives later writes that avoid it |
| Chain.CopiedSource | malloclab/mm.c:340-350 | a copy from words that malloc left alone is a copy of the words as they were before malloc |
| Mm.CopiedBytes | malloclab/mm.c:347-349 | realloc copies the smaller of the request and the old block size |
| Mm.CallocBytes | malloclab/mm.c:363 | the product is 0 exactly when a factor is 0, and at least size for one or more elements |
| Mm.RelocateFacts | malloclab/mm.c:350-353 | after memcpy and free, the other live blocks and the new block are kept, and the old payload is still copied into the new block |
| Mm.MoveFacts | malloclab/mm.c:340-353 | across malloc, memcpy and free, every live block except the old one is kept and the new block holds the old payload |
| Mm.Allocator.constructor | malloclab/mm.c:171 | before mm_init the heap is empty and heap_listp is 0 |
| Mm.Allocator.Sbrk | malloclab/mm.c:210 | mem_sbrk (also called at line 185) grows the heap by the requested words, keeps the old words and returns the old break, or returns -1 with nothing changed when capacity would be exceeded |
| Mm.Allocator.Init | malloclab/mm.c:182-201 | mm_init returns 0 or -1; without room for 4 words it fails with an empty heap; else the words encode Blocks.Init, and it returns 0 exactly when the first chunk fitted |
| Mm.Allocator.ExtendHeap | malloclab/mm.c:203-220 | extend_heap returns NULL and changes nothing, or the words encode Blocks.Extend's heap and it returns its coalesced block; every live block is kept |
| Mm.Allocator.AddChunk | malloclab/mm.c:209-216 | mem_sbrk plus the three writes append one free block of that size and keep every live block; nothing changes on failure |
| Mm.Allocator.MergeNext | malloclab/mm.c:232-236 | case 2 returns the sum of both sizes, written to bp's header and the next block's footer |
| Mm.Allocator.MergePrev | malloclab/mm.c:238-243 | case 3 returns the previous block and the sum of both sizes, written to bp's footer and the previous block's header |
| Mm.Allocator.MergeBoth | malloclab/mm.c:245-251 | case 4 returns the previous block and the sum of three sizes, written to the previous header and the next footer |
| Mm.Allocator.MergeTags | malloclab/mm.c:224-251 | the four cases rewrite exactly the maximal free run around bp as one block and return its start |
| Mm.Allocator.TagChunk | malloclab/mm.c:214-216 | the free header, the footer and the new epilogue PACK(0, 1), in that order |
| Mm.Allocator.Coalesce | malloclab/mm.c:222-257 | the words then encode Blocks.Coalesce of the old chain; the result is the merged block's start; the invariant holds; every live block is kept |
| Mm.Allocator.TagBlock | malloclab/mm.c:316-317 | PACK(size, alloc) in a block's header and footer |
| Mm.Allocator.SplitTags | malloclab/mm.c:384-388 | an allocated asize front block and a free csize - asize rest, each tagged at both ends |
| Mm.Allocator.PlaceTags | malloclab/mm.c:381-393 | place's writes lay out Blocks.Place's chain and keep every live block and the rover's block |
| Mm.Allocator.Place | malloclab/mm.c:378-394 | the words then encode Blocks.Place of the old chain, the block at bp is allocated, the invariant holds, every live block is kept |
| Mm.Allocator.ScanToEpilogue | malloclab/mm.c:403-405 | find_fit's first loop stops at the first fitting block from the rover on, or at the epilogue when none fits |
| Mm.Allocator.ScanToRover | malloclab/mm.c:408-410 | find_fit's second loop stops at the first fitting block before the old rover, or at the old rover when none fits |
| Mm.Allocator.FindFit | malloclab/mm.c:395-415 | find_fit returns Blocks.NextFit's block and leaves the rover on it, or NULL with the rover unchanged |
| Mm.Allocator.Free | malloclab/mm.c:303-320 | free(NULL) changes nothing; otherwise the words encode Blocks.Free, the block is no longer live, and every other live block is kept |
| Mm.Allocator.MarkFree | malloclab/mm.c:309-317 | free's writes mark block k free with its size unchanged, leave at most its neighbours uncoalesced and keep every other live block |
| Mm.Allocator.CheckBlock | malloclab/mm.c:437-443 | on a laid-out heap neither check of checkblock fails |
| Mm.Allocator.CheckHeap | malloclab/mm.c:450-473 | mm_checkheap returns 0, and on a valid heap none of its checks fails |
| Mm.Allocator.Malloc | malloclab/mm.c:263-298 | (corrected growth) malloc runs mm_init once, then the words encode Blocks.Malloc; NULL exactly when it gives none; a returned block is live, was not live before, and its payload holds size bytes; every live block is kept |
| Mm.Allocator.Allocate | malloclab/mm.c:275-297 | (corrected growth) once the heap exists, malloc's fit-or-grow encodes Blocks.Malloc, and NULL changes nothing |
| Mm.Allocator.PlaceFit | malloclab/mm.c:285-288 | with find_fit's block, the words encode Blocks.Place; the block was not live before and is live after; every live block is kept |
| Mm.Allocator.GrowAndPlace | malloclab/mm.c:292-297 | (corrected growth) with no fit, the heap grows by Blocks.Grow and asize is placed in the new block, or NULL changes nothing |
| Mm.Allocator.CopyPayload | malloclab/mm.c:348-350 | memcpy copies min(size, block size) bytes, rounded up to words, and writes nothing else outside the new block |
| Mm.Allocator.Realloc | malloclab/mm.c:325-356 | realloc(p, 0) is free(p) and NULL; realloc(NULL, n) is malloc(n), with its NULL-changes-nothing, every-live-block-kept and fresh-live-result guarantees once the heap exists; a failed malloc leaves everything unchanged; otherwise the result is a block that was not live before, is live with a payload of at least size bytes, and holds the old payload (up to size bytes); the old block is freed and every other live block is kept |
| Mm.Allocator.Move | malloclab/mm.c:340-355 | malloc, copy, free: NULL exactly when Blocks.Malloc fails, with nothing changed; else a block that was not live before, is live, has a payload of at least size bytes and holds the old payload, the old block freed and every other live block kept |
| Mm.Allocator.Relocate | malloclab/mm.c:348-353 | memcpy then free: the new block stays live with room for size bytes, the old is freed, the old payload is in the new block |
| Mm.Allocator.CopyInto | malloclab/mm.c:348-350 | the copy into the new block keeps the heap valid and every other live block |
| Mm.Allocator.Calloc | malloclab/mm.c:361-370 | (corrected) NULL and nothing changed when nmemb * size exceeds SIZE_MAX; otherwise malloc of the product: NULL changes nothing once the heap exists, a returned block was not live before, is live, holds the product and its first bytes are zero, and every other live block is kept |
| Mm.Allocator.Clear | malloclab/mm.c:367 | memset zeroes the requested bytes of a live block, rounded up to words, and keeps the heap valid and every live block |
| Findings.ExtendSizeAsWritten | malloclab/mm.c:55 | MAX as defined yields the smaller of asize and CHUNKSIZE |
| Findings.GrowAsWritten | malloclab/mm.c:292-294 | as written, growth by min(asize, CHUNKSIZE) fails exactly when that rounded amount exceeds the capacity |
| Findings.SplitsAsWritten | malloclab/mm.c:383 | place's test in size_t agrees with csize - asize >= 16 when asize <= csize, and splits whenever asize exceeds csize by less than 2^64 - 16 |
| Findings.FirstMalloc | malloclab/mm.c:263-298 | malloc(4000) on a fresh heap hands out a 4008-byte block and leaves an 88-byte free block |
| Findings.MaxIsMin | malloclab/mm.c:292-295 | through MAX (line 55), malloc(4000) then malloc(5000) grows the heap by 4096 bytes only; the 4184-byte block does not fit 5008 bytes, and place's wrapped test still splits it |
| Findings.CorrectedGrowthFailsSooner | malloclab/mm.c:292-294 | on a heap capped at 1056 words, after malloc(4000), the corrected malloc(100) is NULL while the code's growth by 112 bytes fits |
| Findings.AdjustSizeAsWritten | malloclab/mm.c:279-282 | the size_t adjustment is 8-aligned and equals the corrected one whenever size + 16 does not wrap |
| Findings.AdjustSizeWraps | malloclab/mm.c:282 | a request 8 bytes below 2^64 is adjusted to 0 bytes |
| Findings.CallocBytesAsWritten | malloclab/mm.c:363 | the size_t product is below 2^64 and is the true product whenever that fits |
| Findings.CallocAsWritten | malloclab/mm.c:361-370 | calloc with the code's wrapped product and unconditional memset (its malloc uses the corrected growth) clears the wrapped product's bytes whatever malloc returned, and a NULL leaves the heap as it was |
| Findings.CallocProductWraps | malloclab/mm.c:363 | calloc(2^63 + 1, 2) asks for more than SIZE_MAX bytes but gets a 16-byte block |
| Findings.CallocClearsNull | malloclab/mm.c:366-367 | when malloc fails, calloc still clears 5000 bytes at NULL |

## Left out

- Printing is left out: `printblock`, the `printf` reports of `checkblock` and `mm_checkheap`, and the `dbg_printf`/`checkheap` debug macros. `CheckBlock` and `CheckHeap` count the reports they would print instead.
- The commented-out block helpers and the `DRIVER` aliases are dead code or build glue.
- `mem_sbrk` (memlib) is not part of this model. `Sbrk` is a bounded append that fails past `capacity` words; its contract says nothing about the new words' contents.
- Addresses are word indices. Pointer casts and the `(size_t)bp % 8` test become an index parity check.
- Heap words are unbounded naturals. Only `findings.dfy` models 64-bit `size_t` wrap-around.
- `memcpy` and `memset` work on whole words: a byte count is rounded up to words (`WordsFor`).
- Mm.Allocator.Free: the lazy `mm_init` inside `free` is left out. Freeing a live block implies the heap already exists.
- Mm.Allocator.Malloc: needs room for `mm_init`'s 4 words (`capacity >= 4`) when it is the first call. The case where that first `mem_sbrk` fails, after which the code reads the heap anyway, is not modelled.
- Mm.Allocator.Realloc: promises only the old payload, `min(size, block size - 8)` bytes, not the whole `min(size, block size)` that `memcpy` copies. The last 8 of those bytes are the old footer and the word after the block. That word can be a block header that `malloc` has just rewritten. The new chain is stated through `IsLive`/`LiveKept`, not as a `Blocks` function.
- Mm.Allocator.Malloc: states the corrected growth, `max(asize, CHUNKSIZE)` bytes, where the code's `MAX` (line 55) grows by the minimum. For every request whose `asize` is under 4096 bytes and that finds no fit, the model asks for a whole chunk and so can return NULL where the code succeeds: `Findings.CorrectedGrowthFailsSooner` shows malloc(100) on a 1056-word heap after malloc(4000). The code as written is `Findings.GrowAsWritten`.
- Mm.Allocator.Allocate: the same corrected growth as `Mm.Allocator.Malloc`.
- Mm.Allocator.GrowAndPlace: the same corrected growth as `Mm.Allocator.Malloc`.
- Blocks.Grow: the same corrected growth as `Mm.Allocator.Malloc`.
- Blocks.Malloc: the same corrected growth as `Mm.Allocator.Malloc`.
- Blocks.MallocFacts: the same corrected growth as `Mm.Allocator.Malloc`.
- Blocks.ExtendSize: is the corrected growth amount itself, `max(asize, CHUNKSIZE)`; the code's `MAX` gives the minimum (`Findings.ExtendSizeAsWritten`).
- Mm.Allocator.Realloc: the same corrected growth as `Mm.Allocator.Malloc`, through its `malloc`.
- Mm.Allocator.Move: the same corrected growth as `Mm.Allocator.Malloc`, and the same payload bound as `Mm.Allocator.Realloc`: only `min(size, block size - 8)` bytes are promised copied.
- Mm.Allocator.Relocate: the same payload bound as `Mm.Allocator.Realloc`.
- Mm.Allocator.Calloc: states the corrected `calloc` (overflow check, no `memset` on NULL), and the same corrected growth as `Mm.Allocator.Malloc`. `Findings.CallocAsWritten` has the code's product (wrapped in `size_t`) and its unconditional `memset`; its `malloc` is `Blocks.Malloc`, with the corrected growth.
- Concurrency is out of scope: the allocator is single-threaded, with global state.

## Findings

| source | as written | input that shows it | evidently intended | confidence | as-written member | corrected member |
|---|---|---|---|---|---|---|
| malloclab/mm.c:292 | `MAX(x,y)` (line 55) is `x < y ? x : y`, so malloc grows the heap by min(asize, CHUNKSIZE) | malloc(4000) then malloc(5000) on a fresh heap: growth of 4096 bytes leaves a 4184-byte block for 5008 bytes, and place's wrapped-around test still splits it | grow by max(asize, CHUNKSIZE) | high (not executed) | Findings.MaxIsMin | Blocks.Grow |
| malloclab/mm.c:282 | `size + DSIZE + (DSIZE-1)` in size_t wraps for sizes within 15 of 2^64 | malloc(2^64 - 8) gets an adjusted size of 0 | a size that large cannot be served (NULL) | high (not executed) | Findings.AdjustSizeWraps | Blocks.AdjustSize |
| malloclab/mm.c:363 | `nmemb * size` in size_t wraps without a check | calloc(2^63 + 1, 2) returns a 16-byte block | NULL when the product exceeds SIZE_MAX | high (not executed) | Findings.CallocProductWraps | Mm.Allocator.Calloc |
| malloclab/mm.c:366-367 | `memset(newptr, 0, bytes)` runs even when malloc returned NULL | calloc(1, 5000) on a heap capped at 1028 words clears 5000 bytes at NULL | return NULL without clearing | high (not executed) | Findings.CallocClearsNull | Mm.Allocator.Calloc |
