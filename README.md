# Zltigo heap manager in Dafny

A model of `heap<locker>`, the fixed-pool heap manager by Zltigo, and of its memory control block `mcb`. One pool of memory is carved into chunks. Each chunk is a 12-byte header followed by its storage area. A header holds `next`, `prev`, an 8-bit type (FREE or ALLOCATED) and a 24-bit size. The headers form an address-ordered circular doubly-linked chain anchored at `start`:

- the last header's `next` is `start`;
- `start`'s `prev` is `start` itself;
- `freemem` is the header where allocation scans begin.

Addresses are byte addresses (`nat`). A header is `sizeof(mcb)` = 12 bytes, as on a 32-bit target. The pool is a map from header address to header, reassigned in place by the class methods.

## Files

- `mcb.dfy` (module `MemoryControlBlock`): the constants, the header record, the type codes and `mcb::pool()`.
- `layout.dfy` (module `ChunkLayout`):
  - the abstract view, a sequence of chunks in address order;
  - the tiling and mirroring predicates;
  - the two chain rewrites, split and merge, on that sequence, with their lemmas.
- `rewrites.dfy` (module `ChainRewrites`):
  - `mcb::split`, the type write and `mcb::merge_with_next` as writes to the header map;
  - proofs that each write keeps the map an exact mirror of the rewritten chain.
- `alloc.dfy` (module `AllocSpec`): what `heap::malloc` decides, in either scan mode: the chunk it takes, the resulting chain, the returned pointer, `free_cnt` and the new hint. Also the lemmas that malloc keeps the invariant.
- `free.dfy` (module `FreeSpec`): what `heap::free` accepts and what chain it leaves. Also the coalescing lemmas and the malloc/free round trip.
- `stats.dfy` (module `Stats`): what `heap::info` reports, and what it counts.
- `invariant.dfy` (module `HeapInvariant`): the heap invariant in a header-by-header form (`Formed`, `Tidy`). Also its equivalence with the quantified form, and its preservation by every operation.
  - The same invariant is stated twice on purpose. The quantified form (`Chain`, `NoAdjacentFree`, `HintOk`) is what the lemmas about split, merge, malloc and free reason with. The recursive form is what the class `Heap` carries, because a recursive predicate unfolds only a step or two at each use. With the quantified form as the class invariant, the methods' proof obligations grow too large to verify.
  - `FormedIff`, `TidyIff` and `AddrSetIs` prove the two forms equivalent, so neither is weaker than the other.
- `heap.dfy` (module `ZltigoHeap`): the class `Heap`. It holds the fields `start`, `freemem` and the header map, plus the ghost chunk sequence `Blocks` and the pool end `End`. It has both constructors, `init`, `split`, the type write, `merge_with_next`, the malloc scan, `malloc`, `free` (named `Release`, because `Free` is the FREE type) and `info`.

The class invariant `Valid()` holds before and after every operation. It says:

- the headers tile the pool `[start, End)` in ascending order, 4-aligned, each with room for its header and its recorded size before the next header;
- the recorded sizes add up to the pool size less one header;
- the map holds exactly the live headers, with the right type, size, `next` and `prev`;
- no two neighbouring chunks are FREE;
- `freemem` is a live header with no FREE chunk below it.

The recorded sizes follow the convention of heap.h and heap.cpp:

- `init` stores the pool size less one header (heap.h:203);
- `split` stores the rounded request, which already counts a header, as the size of the ALLOCATED part (heap.cpp:124, heap.cpp:141);
- `merge_with_next` adds two sizes and adds no header back (heap.cpp:223).

So the invariant is "address + size fits before the next header", and the sizes sum to the pool size less one header. It is not a header-plus-size accounting. The model follows the code throughout. In particular:

- `info` walks from `freemem`, not from `start` (see Findings);
- the size accounting follows the convention above;
- the pool extension `heap::add` exists only as commented-out code.

## Model

| member | source | states |
|---|---|---|
| `ChunkLayout.Tiles` | heap.h:54-57 | the chunks lie in ascending address order from `start`, 4-aligned, each with room for its 12-byte header and its recorded size before the next header or the pool end, with sizes below 2^24 that add up to the pool size less one header |
| `ZltigoHeap.Heap.Valid` | heap.h:163-165 | the class invariant: the chain tiles the pool from `start`, the header map mirrors it, no two neighbouring chunks are FREE, and `freemem` is a live header with no FREE chunk below it |
| `ChunkLayout.SetState` | heap.cpp:164 | the chain with chunk k's type replaced and nothing else changed (the type write of malloc and free) |
| `ChunkLayout.SplitLayout` | heap.cpp:115-125 | the chain after mcb::split of chunk j at `needed`: chunk j ALLOCATED with size `needed`, then a FREE chunk at addr + needed with the rest of the size |
| `ChunkLayout.MergeLayout` | heap.cpp:221-224 | the chain after mcb::merge_with_next of chunk j: chunk j keeps its header and type, takes the sum of the two sizes, and chunk j+1 is gone |
| `AllocSpec.Fits` | heap.cpp:155-181 | a chunk malloc can take: FREE with a recorded size of at least the rounded request |
| `AllocSpec.ExactFit` | heap.cpp:155-160 | a fitting chunk whose size is at most needed + 12 + 4, taken whole without a split |
| `AllocSpec.AllocLayout` | heap.cpp:159-201 | the chain after malloc: unchanged when nothing is taken, the taken chunk re-marked ALLOCATED for an exact fit, split at `needed` otherwise |
| `AllocSpec.Returned` | heap.cpp:165-205 | malloc's result: the storage area of the taken chunk, or 0 when nothing is taken |
| `AllocSpec.ScanCount` | heap.cpp:148-178 | the value of free_cnt when the loop ends, in either scan mode |
| `AllocSpec.HintAfter` | heap.cpp:210-211 | `freemem` after malloc: the `next` of the taken chunk in the new chain when a chunk is taken and free_cnt is 1, otherwise the old hint |
| `FreeSpec.Accepts` | heap.cpp:240-251 | free goes ahead exactly when the pointer is non-null and 4-aligned, the 12 bytes before it are a live header whose `prev` is itself or a header whose `next` points back at it, and the pointer is not below `start` |
| `FreeSpec.FreedIndex` | heap.cpp:266-275 | the chunk that holds the freed storage at the end: the predecessor when it is FREE and the freed chunk is not `start`, otherwise the freed chunk; never more than one below it |
| `FreeSpec.FreedEnd` | heap.cpp:256-264 | one past the last chunk absorbed by the forward merge: the successor is absorbed when it exists and is FREE |
| `FreeSpec.FreeLayout` | heap.cpp:254-275 | the chain after free of chunk k: marked FREE, merged with a FREE successor other than `start`, then merged into a FREE predecessor unless it is `start` |
| `Stats.Summarize` | heap.cpp:291-301 | the summary of a walk over the given chunks in order: each chunk tallied under its own type, starting from all zeros |
| `MemoryControlBlock.Mark.Code` | heap.h:129-133 | FREE is stored as 0 and ALLOCATED as 1; both fit the 8-bit type field |
| `MemoryControlBlock.Pool` | heap.h:156 | the storage area begins exactly one header (12 bytes) after the header and keeps the header's 4-byte alignment |
| `AllocSpec.Needed` | heap.cpp:140-141 | the rounded request is a multiple of 4, at least request + 12 and less than request + 16 |
| `AllocSpec.FirstFit` | heap.cpp:181-186 | the result is the first FREE chunk at or after the start index that holds the rounded request, or the chain length when there is none |
| `AllocSpec.FirstExact` | heap.cpp:159-168 | the result is the first exact fit (FREE, size within [needed, needed + 16]) at or after the start index, or the chain length |
| `AllocSpec.Choose` | heap.cpp:152-207 | the scan from the hint fails exactly when no chunk from the hint on fits. A taken chunk fits, and it is split exactly when it is not an exact fit. A split leaves a remainder above header + 4. Without the full scan nothing earlier fits. With it, no exact fit lies before the taken chunk, and a split happens only when there is no exact fit anywhere up to the wrap |
| `AllocSpec.CountFreeZero` | heap.cpp:148-178 | no FREE chunk is counted in a range exactly when every chunk in it is ALLOCATED |
| `AllocSpec.ScanCountOne` | heap.cpp:210-211 | when malloc takes a chunk, free_cnt is 1 exactly when every chunk from the hint up to the taken one is ALLOCATED |
| `AllocSpec.ScanStopsAtExact` | heap.cpp:159-168 | the loop's exit on an exact fit takes that chunk whole, with free_cnt as heap::malloc counts it in either mode |
| `AllocSpec.ScanSplitsFirst` | heap.cpp:181-186 | without the full scan, the first fitting chunk that is not an exact fit is split, with free_cnt counting it |
| `AllocSpec.ScanSplitsRemembered` | heap.cpp:192-201 | with the full scan and no exact fit up to the wrap, the remembered first fitting chunk is split |
| `AllocSpec.ScanFindsNothing` | heap.cpp:202-206 | when nothing fits up to the wrap, malloc takes nothing and free_cnt counts every FREE chunk from the hint |
| `AllocSpec.ScanFromHint` | heap.cpp:152 | starting at a valid hint loses nothing: malloc fails only when no chunk in the whole pool fits, and with the full scan no exact fit lies anywhere below the taken chunk |
| `AllocSpec.AllocTiles` | heap.cpp:159-207 | the chain after malloc still tiles the pool and the sum of recorded sizes is unchanged |
| `AllocSpec.SetStateSum` | heap.cpp:164 | re-marking a chunk leaves the sum of sizes unchanged |
| `AllocSpec.AllocNoAdjacentFree` | heap.cpp:159-207 | malloc never creates two neighbouring FREE chunks |
| `AllocSpec.AllocHoldsRequest` | heap.cpp:165 | malloc returns non-zero exactly when it takes a chunk. The chunk is then ALLOCATED at its old header, and the pointer is its storage area: 4-aligned, with the request's bytes ending before the next header (or the pool end) |
| `AllocSpec.AllocHint` | heap.cpp:210-211 | after malloc the new hint is a live header with no FREE chunk below it |
| `AllocSpec.AllocPrefix` | heap.cpp:164 | malloc changes no chunk below the one it takes |
| `AllocSpec.AllocHintAdvanced` | heap.cpp:210-211 | when free_cnt is 1, the successor of the taken chunk is a valid hint |
| `AllocSpec.AllocHintKept` | heap.cpp:210-211 | when free_cnt is not 1, the old hint stays valid |
| `ChunkLayout.SplitAt` | heap.cpp:115-125 | after a split at `needed`, chunk j is ALLOCATED with size `needed`, a FREE chunk of the rest starts `needed` bytes later, and all other chunks are shifted but unchanged |
| `ChunkLayout.MergeAt` | heap.cpp:221-224 | after a merge, chunk j carries the sum of the two sizes and every other chunk is unchanged |
| `ChunkLayout.SplitSum` | heap.cpp:119-124 | a split keeps the sum of recorded sizes |
| `ChunkLayout.MergeSum` | heap.cpp:223 | a merge keeps the sum of recorded sizes |
| `ChunkLayout.SplitTiles` | heap.cpp:113-131 | a split at an aligned `needed` with room for a header keeps the pool tiled |
| `ChunkLayout.MergeTiles` | heap.cpp:218-229 | a merge keeps the pool tiled |
| `ChunkLayout.SetStateTiles` | heap.cpp:254 | re-marking a chunk keeps the pool tiled |
| `ChunkLayout.SetStateRepresents` | heap.cpp:254 | writing one header's type keeps the map an exact mirror of the re-marked chain |
| `ChunkLayout.Ascending` | heap.h:54-57 | the headers of a tiled pool ascend strictly and each lies with its header inside the pool |
| `ChunkLayout.HintPrefix` | heap.h:165 | every chunk below a valid hint is ALLOCATED |
| `ChunkLayout.FreeNeighbours` | heap.cpp:258-270 | in a chain without neighbouring FREE chunks, both neighbours of a FREE chunk are ALLOCATED |
| `ChainRewrites.SplitHeaders` | heap.cpp:113-131 | the map after a split holds the old headers plus the new one at t + needed; every header other than t, the new one and t's old successor is unchanged |
| `ChainRewrites.SetMark` | heap.cpp:164 | only the type of header t changes; its links and size are kept |
| `ChainRewrites.MergeHeaders` | heap.cpp:218-229 | the absorbed header leaves the map, and every header other than t and the new successor is unchanged |
| `ChainRewrites.SplitChain` | heap.cpp:113-131 | a split keeps the pool tiled and the map an exact mirror of the split chain |
| `ChainRewrites.MergeChain` | heap.cpp:218-229 | merging chunk j with chunk j+1 keeps the pool tiled and the map an exact mirror of the merged chain |
| `ChainRewrites.MarkChain` | heap.cpp:254 | re-marking chunk k keeps the pool tiled and the map an exact mirror |
| `FreeSpec.FreeForward` | heap.cpp:254-264 | chunk k ends FREE at its own header, and every chunk below it is unchanged |
| `FreeSpec.AcceptsLive` | heap.cpp:240-251 | in a valid heap, free's checks pass exactly for the storage area of a live header |
| `FreeSpec.AcceptsChunk` | heap.cpp:240-251 | the storage area of any chunk passes every check of free |
| `FreeSpec.FreeCoalesces` | heap.cpp:254-275 | free replaces the freed chunk and its FREE neighbours by one FREE chunk at the lowest of their headers, whose size is the sum of theirs; all else is unchanged |
| `FreeSpec.FreeTiles` | heap.cpp:254-275 | free keeps the pool tiled and the sum of sizes unchanged |
| `FreeSpec.FreeNoAdjacentFree` | heap.cpp:254-275 | free never leaves two neighbouring FREE chunks |
| `FreeSpec.FreeHint` | heap.cpp:277-278 | the lower of the old hint and the freed chunk's header is a valid hint afterwards |
| `FreeSpec.FreePrefix` | heap.cpp:270-274 | free changes no chunk below the one that holds the freed storage, and that chunk is FREE |
| `FreeSpec.DoubleFree` | heap.cpp:254-278 | freeing a chunk that is already FREE changes neither the chain nor the hint |
| `FreeSpec.FreeUndoesMark` | heap.cpp:254-264 | freeing a chunk that malloc took whole restores the chain |
| `FreeSpec.FreeUndoesSplit` | heap.cpp:254-264 | freeing the first half of a split FREE chunk merges the halves back |
| `FreeSpec.MallocFreeRoundTrip` | heap.cpp:234-279 | free of the pointer malloc returned finds the taken chunk and restores exactly the chain malloc started from |
| `Stats.Add` | heap.cpp:295-298 | one more block is counted, its size added, and the maximum is the larger of the old maximum and this size |
| `Stats.Tally` | heap.cpp:294-298 | the chunk is counted under its own type only; the other type's tally is untouched |
| `Stats.SummarizeTotals` | heap.h:106-117 | the two block counts add up to the number of chunks walked, each type's count is the number of chunks of that type, and the two sizes add up to the sum of recorded sizes |
| `Stats.FreeBlocksCounted` | heap.cpp:294-295 | the FREE block count equals the number of FREE chunks |
| `Stats.SummarizeMax` | heap.cpp:297-298 | Block_max_size is at least every chunk of its type, is the size of some chunk of its type when there is one, and is 0 when there is none |
| `Stats.AllocatedOnly` | heap.cpp:294 | a walk over ALLOCATED chunks leaves the FREE tally at zero |
| `Stats.SkipAllocated` | heap.cpp:291 | skipping a prefix of ALLOCATED chunks keeps the FREE tally and lowers the ALLOCATED count by the prefix length |
| `Stats.InfoFromHint` | heap.cpp:291 | starting at a valid hint, the FREE tally is that of the whole pool and only the ALLOCATED chunks below the hint go uncounted |
| `Stats.InfoSkipsAllocated` | heap.cpp:291 | a 44-byte pool after malloc(0) has one ALLOCATED chunk below the hint, and a walk from the hint counts none |
| `HeapInvariant.AddrSetIs` | heap.h:163-165 | the recursive set of header addresses holds exactly the chain's header addresses |
| `HeapInvariant.FormedIff` | heap.h:54-57 | the header-by-header invariant is equivalent to "tiles the pool and the map mirrors the chain" |
| `HeapInvariant.FormedChain` | heap.h:127-157 | a chain that passes the header-by-header check tiles the pool and is mirrored by its map |
| `HeapInvariant.ChainFormed` | heap.h:127-157 | a tiled, mirrored chain passes the header-by-header check |
| `HeapInvariant.TidyIff` | heap.h:165 | the walked form of "hint valid, no FREE neighbours" is equivalent to its quantified form |
| `HeapInvariant.HeaderAt` | heap.h:140-146 | header i of a valid chain is aligned, fits the 24-bit field, fits before the next header, and holds its successor, predecessor, type and size |
| `HeapInvariant.InitFormed` | heap.h:193-210 | the single FREE chunk that init lays out is a well-formed chain whose only header is a valid hint |
| `HeapInvariant.FormedSplit` | heap.cpp:113-131 | split keeps the chain well formed |
| `HeapInvariant.FormedMerge` | heap.cpp:218-229 | merge_with_next keeps the chain well formed |
| `HeapInvariant.FormedMark` | heap.cpp:254 | re-marking keeps the chain well formed |
| `HeapInvariant.MallocTidy` | heap.cpp:137-215 | the hint is a live header, and after malloc no two neighbours are FREE and the new hint is valid |
| `HeapInvariant.Neighbours` | heap.cpp:256-270 | free's two merge tests, on the header's `next` and `prev`, hold exactly when chunk k+1 (respectively k-1) exists and is FREE |
| `HeapInvariant.FreeTidy` | heap.cpp:240-278 | an accepted pointer is the storage area of a live chunk, and free leaves no FREE neighbours and a valid hint |
| `HeapInvariant.InfoStart` | heap.cpp:291 | info starts at a live header, and its FREE tally equals the whole pool's |
| `ZltigoHeap.Heap.constructor` | heap.h:184-191 | `start` and `freemem` are the pool base; the heap is valid and is one FREE chunk of size_bytes - 12 |
| `ZltigoHeap.Heap.FromArray` | heap.h:171-179 | as the pointer constructor, with the byte size 4 * size_items |
| `ZltigoHeap.Heap.Init` | heap.h:193-210 | the pool becomes one FREE header whose `next` and `prev` are itself and whose size is size_bytes - 12, and the heap is valid |
| `ZltigoHeap.Heap.Split` | heap.cpp:112-132 | the map becomes the split map, the chain becomes the split chain, the new header is at t + needed, and the chain stays well formed |
| `ZltigoHeap.Heap.SetType` | heap.cpp:164 | only header t's type changes, and the chain stays well formed |
| `ZltigoHeap.Heap.MergeWithNext` | heap.cpp:217-230 | the map becomes the merged map and the chain the merged chain, and it stays well formed |
| `ZltigoHeap.Heap.Scan` | heap.cpp:152-207 | the loop takes a chunk exactly when Choose does, the same chunk split or whole, and ends with free_cnt equal to ScanCount |
| `ZltigoHeap.Heap.Malloc` | heap.cpp:137-215 | the heap stays valid. The chain becomes AllocLayout of Choose's pick, the pointer is that chunk's storage area or 0, and `freemem` becomes HintAfter. On 0 nothing changes |
| `ZltigoHeap.Heap.Release` | heap.cpp:234-279 | a pointer that fails free's checks changes nothing. Otherwise the chain becomes FreeLayout of the freed chunk and `freemem` the lower of itself and the freed chunk's header. The heap stays valid |
| `ZltigoHeap.Heap.Coalesce` | heap.cpp:253-275 | marking, the forward merge and the backward merge turn the chain into FreeLayout, and the result is the header of the chunk that holds the freed storage |
| `ZltigoHeap.Heap.HeaderOf` | heap.h:140-146 | header i holds chunk i's successor, predecessor, type and size |
| `ZltigoHeap.Heap.NeighboursOf` | heap.cpp:256-270 | the merge tests on header k's `next` and `prev` say exactly whether chunk k+1 and chunk k-1 are FREE |
| `ZltigoHeap.Heap.FreeOrigin` | heap.cpp:240-251 | an accepted pointer is the storage area of a live chunk, and freeing it keeps the heap tidy |
| `ZltigoHeap.Heap.InfoOrigin` | heap.cpp:291 | info starts at a live header; its FREE tally is the whole pool's and its ALLOCATED count misses exactly the chunks below the hint |
| `ZltigoHeap.Heap.Info` | heap.cpp:281-303 | the result is the summary of the chain from the hint on; its FREE tally is the whole pool's; the ALLOCATED count misses the chunks below the hint |
| `ZltigoHeap.Heap.WalkFrom` | heap.cpp:291-301 | the do-while walk from header h back to `start` returns the summary of chunks h to the last |
| `ZltigoHeap.Heap.InfoAll` | heap.cpp:281-303 | the walk begun at `start` returns the summary of the whole pool |

## Left out

- The lock: `guard`, `OS::TMutexLocker` and the `Mutex` member (heap.h:67-75, heap.cpp:246, heap.cpp:290). Every operation is modelled as atomic.
- The `operator new`/`delete`, `std::nothrow` and C `malloc`/`free` pass-throughs to the global `Heap` (heap.cpp:63-88, heap.h:213). They only forward their arguments.
- `heap::add` and `_sbrk` exist only as commented-out code (heap.cpp:89-110), so there is nothing to model.
- `heapcfg.h` and `TLocker` are not part of this model.
- The scan loop of malloc is modelled as a method that reports the chunk to take; malloc then performs the take. heap::malloc takes the chunk inside the loop, before `break`. The header writes are the same.
- ZltigoHeap.Heap.Release: free of a pointer whose header is not a live header of the pool is rejected. heap::free reads whatever bytes lie in front of such a pointer, and the model cannot read memory the heap does not own. The null, alignment, cross-check and `< start` rejections are modelled as written.
- The bytes of a header absorbed by `merge_with_next` stay in memory in heap.cpp. In the model its address leaves the map.
- `size_t` wrap-around of `size + sizeof(mcb) + 3` for requests near the top of `size_t` is not modelled: integers are unbounded. A request too large for any chunk simply fits nothing.
- Truncation of the 24-bit size field is not modelled. The constructors require a pool whose single chunk size is below 2^24, and every later size stays below that bound.
- A `size_bytes` below `sizeof(mcb)`, negative included, is excluded by the constructors' precondition. For 0 <= size_bytes < 12, `size_bytes - sizeof(mcb)` at heap.h:203 would wrap around and be truncated to 24 bits.
- Raw pointer casts become byte addresses. `USE_FULL_SCAN` (1 in heap.h:122) is a construction-time field of the class, so both scan modes are modelled.

## Findings

| source | as written | input that shows it | evidently intended | confidence | as-written member | corrected member |
|---|---|---|---|---|---|---|
| heap.cpp:291 | `info` starts its walk at `freemem`, so the ALLOCATED chunks below the hint are not counted in `Used` | a 44-byte pool at address 4, then `malloc(0)`: the chunk is split, `freemem` moves to the remainder at 16, and `info` reports `Used.Blocks == 0` while one block is allocated | statistics over every chunk of the pool, a walk from `start` to `start` | medium, not executed | `Stats.InfoSkipsAllocated` | `ZltigoHeap.Heap.InfoAll` |
