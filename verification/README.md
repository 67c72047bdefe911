# Verified models of the lab code

Dafny models of the C programs in this repository that keep their state in flat memory, in
tables or in buffers, with proofs about every input, every run or every interleaving. A class stands
for a set of C globals or for a struct, a method for a C function, and each method's contract ties the
new state to a specification function; the lemmas then say what that function achieves over whole runs.

## What is modelled

**Memory** (`Words`, `MemLib`). One array of 32-bit words with a break pointer. An address is a byte
offset from the start of the heap, which is 8-aligned. `PUT` and `GET` work on words, `memcpy` and
`memset` on the little-endian bytes inside them.

**First-fit allocator** (`Requests`, `Blocks`, `BoundaryTags`, `FirstFitSpec`, `FirstFitRuns`, `FirstFitExact`,
`HeapCheck`, `FirstFit`). The heap
of `malloclab/mm-firstfit.c` found by arithmetic on header and footer words. A ghost list of blocks
tiles the heap from the prologue to the break; every method is shown to turn the words that encode one
list into the words that encode the next, and to leave every word of every other allocated block alone.
The lemmas then speak about block lists: legality on every run, lowest fit, exact failure condition, exact
size, complete coalescing, and that the used blocks leave no choice for anything else.

**Traces and the driver** (`Traces`, `Payloads`, `Driver`). What `checktrace.pl` accepts, and
`eval_mm_valid` on an accepted trace of alloc, realloc and free requests over the first-fit allocator: no
address or overlap complaint, no bad call of `mm_free` or `mm_realloc`, every live payload full of its fill
byte at each step, and after a balanced trace one free block. A trace fails only for lack of heap, or in the
data check at the first realloc of an id whose low byte is 128 or more.

**Explicit free list** (`FreeLists`, `Links`, `ExplicitSpec`, `ExplicitRuns`, `ExplicitExact`,
`ExplicitList`, `ExplicitClient`). The
size-sorted list of `malloclab/mm.c`, its links stored in the payloads of free blocks. Blocks tile the
heap with one extra kind, the lost doubleword a fit with eight bytes left over leaves behind. The list
ends at `free_list_end`; the next word of its last block is not looked at, as the source does not clear it.

**Cache simulator** (`CacheBits`, `CacheRow`, `CacheLru`, `CacheHistory`, `CacheRuns`, `CacheExact`,
`CacheSim`). `check_cache` with its
masks and its age counters, against a reference LRU cache. A hit stops the scan, so lines behind it do
not age: the policy is LRU for one and two ways only, and `SimulatorIsLruIff` proves that it is so exactly
then, with addresses on which a larger cache misses once more. What the policy does instead, for any number
of ways, is told by history alone in `CacheHistory`.

**Shell** (`Jobs`, `Shell`, `Tokenizer`). The job table; the fork, SIGCHLD and reaping protocol as a
transition system in which children and the handler move at any time; and `parseline`, which cuts its
buffer in place.

**Buffered reader** (`Rio`), **transpose functions** (`Transpose`), **K-best sampler** (`Sampler`).

## Where the code does something else than it says

- `mm_init` of the first-fit allocator compares the result of `mem_sbrk` with `NULL`, but `mem_sbrk`
  reports failure as -1 (`malloclab/mm-firstfit.c:92`). The model asks for at least 16 bytes of heap there.
- `mm_realloc` of the first-fit allocator copies by block size, header and footer included, and so reads
  past the old payload exactly when the new size exceeds it (`malloclab/mm-firstfit.c:169-172`):
  `FirstFit.CopyPassesPayloadIff` and `FirstFit.CopyPassesPayload`. `FirstFit.Allocator.Realloc` does the
  same copy.
- The data check of `eval_mm_valid` compares a signed `char` with a number up to 255
  (`malloclab/mdriver.c:664`), so it refuses correct data: `Driver.Explained`.
- The overlap test of `add_range` misses a new range that surrounds an old one
  (`malloclab/mdriver.c:417-418`): `Payloads.OverlapTestExact` and `Payloads.OverlapMissed`.
- `coalesce` of the explicit-list allocator does nothing, as its range test asks for an address both
  above the heap's end and below its start (`malloclab/mm.c:341`): `ExplicitRuns.FreeNeighboursStay`.
- `check_cache` is documented as evicting the least recently used line; with three ways or more it
  need not (`cachelab/csim.c:237-263`): `CacheExact.SimulatorIsLruIff`.
- `transpose_blocking` leaves the matrices unless both sides are divisible by four or one of them is
  zero (`cachelab/trans.c:142-152`): `Transpose.StaysInBoundsIff`.
- `rio_readlineb` returns one more than the bytes it stored unless a newline ended the line or nothing was
  left (`proxylab/csapp.c:660-675`): `Rio.ResultIsLengthIff` and `Rio.ResultExceedsLength`.

## Model

| member | source | states |
|---|---|---|
| `MemLib.Memory.Sbrk` | malloclab/memlib.c:58-69 | Fails exactly for a negative increment or one past the capacity, and then moves nothing; else returns the old break and moves it by the increment. |
| `MemLib.Memory.ResetBrk` | malloclab/memlib.c:48-51 | The heap is empty again. |
| `Blocks.SpliceRepresents` | malloclab/mm-firstfit.c:273-305 | Rewriting the tags of a run of blocks as another tiling of the same extent gives memory that encodes the spliced list, and every block outside is kept word for word. |
| `Blocks.ExtendRepresents` | malloclab/mm-firstfit.c:219-222 | A tagged block at the break and an epilogue behind it give memory that encodes the list with that block appended. |
| `BoundaryTags.GetTag` | malloclab/mm-firstfit.c:62-63 | The size and alloc fields of a header or footer word are those of the block it belongs to. |
| `BoundaryTags.PutTags` | malloclab/mm-firstfit.c:150-151 | Header and footer are written, the footer found through the new header, and no other word changes. |
| `Requests.AdjustSizeExact` | malloclab/mm-firstfit.c:121-125 | In 32-bit arithmetic the adjusted size has room for the request if and only if the request is at most 2^32 - 16; then it is a multiple of 8, at least 16, and at most 15 above the request. |
| `FirstFitSpec.PlaceLegal` | malloclab/mm-firstfit.c:235-251 | Placing a request keeps the tiling and the absence of free neighbours, and adds exactly one allocated block. |
| `FirstFitSpec.MergedRun` | malloclab/mm-firstfit.c:283-302 | The merged block covers exactly the freed block and those of its neighbours that are free. |
| `FirstFitSpec.CoalesceLegal` | malloclab/mm-firstfit.c:273-305 | In all four cases coalescing restores the invariant from one that holds but for the freed block, and no allocated block changes. |
| `FirstFitSpec.ExtendLegal` | malloclab/mm-firstfit.c:209-226 | Growing keeps the invariant and the allocated blocks; the last block is free and at least as long as asked for. |
| `FirstFitSpec.ReleaseLegal` | malloclab/mm-firstfit.c:146-153 | Freeing keeps the invariant and removes exactly the freed block from the allocated ones. |
| `FirstFitRuns.AllocateIsFirstFit` | malloclab/mm-firstfit.c:127-138 | The lowest-addressed free block that fits is returned if there is one; NULL comes back if and only if none fits and the heap cannot grow by the larger of the adjusted size and a chunk. |
| `FirstFitRuns.AllocateLegal` | malloclab/mm-firstfit.c:111-139 | Allocation keeps the invariant; on success one new allocated block of size between request + 8 and request + 23 appears at the returned address; on failure nothing changes. |
| `FirstFitRuns.StepGood` | malloclab/mm-firstfit.c:111-175 | Every malloc, free and realloc keeps: legal heap inside the capacity, live addresses are exactly the allocated blocks, and each block still has the size bounds of its request. |
| `FirstFitRuns.EveryRunGood` | malloclab/mm-firstfit.c:89-175 | The same after every run of requests from mm_init. |
| `FirstFitRuns.FreeBlocksBounded` | malloclab/mm-firstfit.c:273-305 | On every run there are at most one more free than allocated blocks. |
| `FirstFitRuns.AllFreedIsOneBlock` | malloclab/mm-firstfit.c:273-305 | When nothing is live the heap is one free block from prologue to break, in whatever order things were freed. |
| `FirstFitExact.AllocateExact` | malloclab/mm-firstfit.c:111-139 | A successful request is cut from the lowest free block that fits, and the break stays; where none fits, the break moves by the larger of adjusted size and chunk, and it is cut from the free space at the end. The block is exactly the adjusted size, or 8 bytes longer where just these would be left; anything longer that is left over is a free block behind it. |
| `FirstFitExact.HeapDetermined` | malloclab/mm-firstfit.c:273-305 | Two legal heaps of the same extent with the same used blocks are equal: coalescing and splitting leave no choice. |
| `FirstFitExact.ReleaseDetermined` | malloclab/mm-firstfit.c:146-153 | mm_free gives the only legal heap without the freed block. |
| `FirstFitExact.InitIsOneBlock` | malloclab/mm-firstfit.c:89-104 | After mm_init the heap is one free block of 4096 bytes, or none where there is no room for it. |
| `FirstFitExact.TwoRequests` | malloclab/mm-firstfit.c:235-251 | Two requests of 24 bytes after mm_init get neighbouring blocks of 32 bytes. |
| `FirstFit.Allocator.Coalesce` | malloclab/mm-firstfit.c:273-305 | Reading only tags, the four cases write exactly the header and footer of the joined block and return its address. |
| `FirstFit.Allocator.CoalesceBlock` | malloclab/mm-firstfit.c:273-305 | The same on the heap: memory encodes the coalesced list and no allocated block is touched. |
| `FirstFit.CoalesceRepresents` | malloclab/mm-firstfit.c:283-302 | Memory with the tags of the merged block encodes the coalesced, legal block list. |
| `FirstFit.Allocator.PlaceTags` | malloclab/mm-firstfit.c:235-251 | Writes the tags of the allocated part and, if at least 16 bytes remain, of the remainder, and nothing else. |
| `FirstFit.Allocator.Place` | malloclab/mm-firstfit.c:235-251 | Memory encodes the list with the block placed; allocated blocks are kept word for word. |
| `FirstFit.PlaceRepresents` | malloclab/mm-firstfit.c:235-251 | The words written by place encode the placed, legal block list. |
| `FirstFit.Allocator.ExtendHeap` | malloclab/mm-firstfit.c:209-226 | Rounds to an even number of words; when the break cannot move nothing changes, else the heap is the extended and coalesced one, and the result is its last block. |
| `FirstFit.Allocator.FindFit` | malloclab/mm-firstfit.c:257-268 | The walk over headers ends at the epilogue and returns the first free block of at least the given size, or NULL if there is none. |
| `FirstFit.Allocator.Init` | malloclab/mm-firstfit.c:89-104 | Builds prologue, epilogue and one free chunk; -1 exactly when the chunk does not fit. |
| `FirstFit.Allocator.Malloc` | malloclab/mm-firstfit.c:111-139 | The block list and the result are those of the specification; every allocated block keeps its words, and failure leaves all of memory as it was. |
| `FirstFit.Allocator.Release` | malloclab/mm-firstfit.c:146-153 | mm_free of a live address: the block list is that of the specification and every other allocated block keeps its words. |
| `FirstFit.Allocator.Realloc` | malloclab/mm-firstfit.c:160-175 | The new block starts with the first min(size, old payload) bytes of the old one, every other allocated block keeps its words, and the heap is the one after malloc and free. |
| `FirstFit.Allocator.CopyPayload` | malloclab/mm-firstfit.c:169-172 | Although it counts header and footer of the old block, the copy stays inside memory and inside the new payload and touches no other block. |
| `FirstFit.CopyPassesPayloadIff` | malloclab/mm-firstfit.c:169-172 | The copy reads past the old payload if and only if the new size exceeds it. |
| `FirstFit.CopyPassesPayload` | malloclab/mm-firstfit.c:169-172 | It does after a first request for 8 bytes, when the block is to hold 9. |
| `FirstFit.PayloadWritten` | malloclab/mm-firstfit.c:172 | A store into one payload changes neither the block list nor any other block. |
| `FirstFit.Allocator.CheckHeap` | malloclab/mm-firstfit.c:180-201 | On any memory whose headers lead to an epilogue, valid or not, the walk ends and prints exactly the errors of prologue, blocks and epilogue. |
| `HeapCheck.NoErrorsIff` | malloclab/mm-firstfit.c:180-201 | Nothing is printed if and only if every header equals its footer, the prologue is a used block of 8 bytes and the epilogue is marked used. |
| `HeapCheck.RepresentedNoErrors` | malloclab/mm-firstfit.c:180-201 | Memory that encodes a block list can be walked, and nothing is printed. |
| `FirstFit.Allocator.ValidNoErrors` | malloclab/mm-firstfit.c:180-201 | So on every valid heap mm_checkheap prints nothing. |
| `FirstFit.Allocator.CheckBlock` | malloclab/mm-firstfit.c:327-333 | One error for a block pointer that is not aligned, and one for a header that differs from the footer it leads to. |
| `Traces.ReadTrace` | malloclab/traces/checktrace.pl:68-116 | The reading loop dies exactly on an inconsistent trace, and leaves exactly the outstanding ids in its hash. |
| `Traces.ConsistentIff` | malloclab/traces/checktrace.pl:68-116 | A trace is accepted if and only if the allocs and frees of every id alternate with reallocs only in between; the ids left over are those whose last alloc or free request is an alloc. |
| `Traces.Balance` | malloclab/traces/checktrace.pl:134-153 | The output extends the trace by one free for each outstanding id and is balanced. |
| `Traces.ReplayLinked` | malloclab/mdriver.c:601-685 | On a consistent trace outstanding ids and live addresses correspond one to one at every point. |
| `Traces.ReplaySizes` | malloclab/mdriver.c:601-685 | Behind each outstanding id is a live payload of the size its last alloc or realloc request asked for. |
| `Traces.BalancedLeavesOneBlock` | malloclab/traces/checktrace.pl:44-48 | A balanced trace that gets all its memory leaves one free block that fills the heap. |
| `Payloads.LivePayloadsApart` | malloclab/mdriver.c:393-425 | Live payloads are 8-aligned, inside the heap and pairwise disjoint: what add_range looks for never occurs. |
| `Payloads.OverlapTestExact` | malloclab/mdriver.c:416-424 | The overlap test answers yes if and only if the ranges share a byte and the new one does not surround the old one. |
| `Payloads.OverlapMissed` | malloclab/mdriver.c:416-424 | A concrete overlap the test does not see. |
| `Driver.Driver.AddRange` | malloclab/mdriver.c:389-437 | Accepts exactly the aligned ranges inside the heap that the test finds apart from all recorded ones, and records only those. |
| `Driver.Driver.RemoveRange` | malloclab/mdriver.c:442-457 | Removes the first record that starts at the address and keeps the others in order. |
| `Payloads.WithoutMembers` | malloclab/mdriver.c:442-457 | Among records that start at different addresses it drops the one at the address and no other. |
| `Driver.NextRequest` | malloclab/mdriver.c:601-685 | In an accepted trace the next alloc has a fresh id, and the next free or realloc an outstanding one. |
| `Driver.Driver.CheckData` | malloclab/mdriver.c:661-669 | On data full of the fill byte the check passes if and only if the low byte of the id is below 128. |
| `Driver.Driver.DoRealloc` | malloclab/mdriver.c:640-675 | A realloc of an outstanding id gets a new range, keeps all fill bytes, and is refused only for lack of heap or by the data check. |
| `Driver.Driver.EvalMmValid` | malloclab/mdriver.c:585-693 | On every accepted trace: no alignment, range or overlap error; mm_free and mm_realloc only get live addresses; failure only at a request for which the heap is exhausted, all before it being served, or exactly at the first realloc of an id whose low byte is 128 or more, if the heap has room up to it; on success every live payload has its record and holds its fill byte. |
| `Driver.BalanceAndEval` | malloclab/mdriver.c:585-693 | Checker and driver together: a trace that passes ends with everything freed and coalesced into one block, and one that does not ends for one of the reasons above. |
| `FreeLists.AddSorted` | malloclab/mm.c:387-428 | Adding keeps the list sorted by size and adds exactly the new block. |
| `FreeLists.RemoveSorted` | malloclab/mm.c:433-468 | Removing keeps the list sorted and removes exactly one block. |
| `FreeLists.PickSmallest` | malloclab/mm.c:137-145 | The block taken fits, and no block that fits is smaller. |
| `FreeLists.EveryListSorted` | malloclab/mm.c:387-468 | After any adds and removes the list is sorted and holds exactly what was added and not removed. |
| `ExplicitExact.AddPlace` | malloclab/mm.c:400-427 | A block goes to the end if it is longer than the first and no shorter than the last; otherwise behind the shorter blocks and in front of those of its own size. |
| `ExplicitExact.PickTakes` | malloclab/mm.c:137-145 | Of several smallest fits the root is taken if it has just the size, else the end if it has, else the first in the list. |
| `Links.LinksOnlyHarmless` | malloclab/mm.c:406-426 | Writing link words of free blocks changes no tag, no epilogue and no word of an allocated block. |
| `Links.AddJoined` | malloclab/mm.c:387-428 | The link writes of add_free_block turn memory that threads the list into memory that threads the list with the block added. |
| `Links.RemoveLeft` | malloclab/mm.c:433-468 | The link writes of remove_free_block turn it into memory that threads the list without the block. |
| `ExplicitSpec.TakeLegal` | malloclab/mm.c:147-163 | Taking a block keeps the tiling and the list of exactly the free tiles, and adds exactly one allocated block, with no slack. |
| `ExplicitSpec.ReleaseLegal` | malloclab/mm.c:182-194 | Freeing removes exactly the freed block from the allocated ones and keeps everything else legal. |
| `ExplicitRuns.MallocLegal` | malloclab/mm.c:120-177 | Allocation keeps legality; on success exactly one new block, on failure the same heap. |
| `ExplicitExact.MallocIsSmallestFit` | malloclab/mm.c:120-177 | NULL comes back if and only if the size is 0, or no listed blocks surround it and the break cannot move by it; where listed blocks surround it the result is a smallest listed fit, otherwise the old break. |
| `ExplicitExact.MallocExact` | malloclab/mm.c:147-176 | After a success exactly that block is cut, to exactly the adjusted size, with the rest free and listed, or lost if it is 8 bytes; or exactly one block was added at the break. |
| `ExplicitExact.ReleaseExact` | malloclab/mm.c:182-194 | Freeing marks the block free where it stands and adds it to the list; no other block changes. |
| `ExplicitExact.GrowsBesideShortList` | malloclab/mm.c:137-138 | With a block of 16 bytes listed, a request for 24 makes the heap grow. |
| `ExplicitRuns.StepGood` | malloclab/mm.c:120-194 | Every request keeps the invariant: live addresses are exactly the allocated blocks, each serving its request. |
| `ExplicitRuns.EveryRunGood` | malloclab/mm.c:98-194 | The same, with the accounting of free and lost doublewords, after every run. |
| `ExplicitRuns.EveryRunDisjoint` | malloclab/mm.c:120-194 | On every run no block is handed out twice: used blocks and listed free blocks are inside the heap and pairwise apart, no block is listed twice, and behind each live address is a used block, aligned, with room for its request. |
| `ExplicitRuns.Conservation` | malloclab/mm.c:137-176 | On every run the heap is live blocks, listed blocks, and eight bytes for each fit that left exactly eight over. |
| `ExplicitList.Allocator.FindFit` | malloclab/mm.c:372-381 | As called, the recursion ends before the stale tail link and returns the first listed block that is long enough. |
| `ExplicitList.Allocator.AddFreeBlock` | malloclab/mm.c:387-428 | Roots and links end up threading the sorted list with the block added; allocated blocks keep their words. |
| `ExplicitList.Allocator.RemoveFreeBlock` | malloclab/mm.c:433-468 | Roots and links end up threading the list without the block; allocated blocks keep their words. |
| `ExplicitList.Allocator.Search` | malloclab/mm.c:137-145 | The list is used exactly for sizes between its first and its last block. |
| `ExplicitList.Allocator.TakeBlock` | malloclab/mm.c:147-163 | Remove, retag, split and add back: memory encodes the specified tiles and list, and allocated blocks keep their words. |
| `ExplicitList.Allocator.GrowBlock` | malloclab/mm.c:166-176 | A new block at the old break and a new epilogue, or nothing at all. |
| `ExplicitList.Allocator.Init` | malloclab/mm.c:98-114 | An empty list on a heap of just the prologue; -1 exactly when there is no room for it. |
| `ExplicitList.Allocator.Malloc` | malloclab/mm.c:120-177 | Heap, list and result are those of the specification; every allocated block keeps its words, and failure leaves all of memory as it was. |
| `ExplicitList.Allocator.Coalesce` | malloclab/mm.c:336-367 | The branches that join blocks are never reached: it returns its argument and writes nothing. |
| `ExplicitRuns.ReleaseJoinsNothing` | malloclab/mm.c:182-194 | Freeing moves no border between blocks, on any heap. |
| `ExplicitRuns.FreeNeighboursStay` | malloclab/mm.c:336-367 | A run after which two neighbouring blocks are free and stay two blocks. |
| `ExplicitList.Allocator.Release` | malloclab/mm.c:182-194 | The freed tile joins the sorted list; every other allocated block keeps its words. |
| `ExplicitClient.StoreHarmless` | malloclab/mm.c:79-80 | A store into a live payload changes no tag, no link of the list and no other live block. |
| `ExplicitClient.Serve` | malloclab/mm.c:120-194 | On every run of requests whose blocks a client fills, each live payload still holds its bytes at the end. |
| `CacheBits.ShrIsQuotient` | cachelab/csim.c:243-244 | Shifting right is division by a power of two, and the low bits are the remainder. |
| `CacheBits.MaskedField` | cachelab/csim.c:84-89 | Anding with a shifted mask of ones and shifting back is division and remainder by powers of two. |
| `CacheBits.MaskedTop` | cachelab/csim.c:88 | With the mask of all bits above, it is division. |
| `CacheRow.AccessProper` | cachelab/csim.c:240-317 | Lines fill from the left and no set ever holds a tag twice. |
| `CacheRow.HitIffResident` | cachelab/csim.c:248-265 | An access hits if and only if its tag is resident, and afterwards it is. |
| `CacheRow.AccessValid` | cachelab/csim.c:279-315 | The number of valid lines grows by one exactly when a free line is filled. |
| `CacheRow.Step2` | cachelab/csim.c:240-317 | On a two-line set one access keeps the match with the recency list and has the same outcome. |
| `CacheRow.ProtectsStep` | cachelab/csim.c:293-315 | With two lines or more, the two tags used last stay resident, and the last one is not the next victim. |
| `CacheHistory.LineByHistory` | cachelab/csim.c:247-316 | For any number of ways and any sequence: a line that was touched holds the tag of the access that last hit or filled it, and its age is the number of accesses since then that did not hit a line in front of it. |
| `CacheHistory.ValidIffTouched` | cachelab/csim.c:279-315 | The lines in use are those that were touched. |
| `CacheHistory.MissByHistory` | cachelab/csim.c:271-316 | A miss fills the first line never touched; in a full set it takes the last of the lines where that number of accesses is greatest. |
| `CacheHistory.SixMisses` | cachelab/csim.c:301-313 | In a set of three lines the tags 0, 1, 2, 3, 4, 1 miss every time. |
| `CacheHistory.SetsApart` | cachelab/csim.c:243 | Each set is where the accesses to it alone have left it. |
| `CacheLru.ExactUpToTwo` | cachelab/csim.c:240-317 | For one and two ways, misses and contents of a set are those of LRU on every sequence. |
| `CacheLru.WitnessDiffers` | cachelab/csim.c:263 | For every number of ways from three on, a sequence on which the set misses once more than LRU. |
| `CacheLru.ExactlyLruIff` | cachelab/csim.c:237-263 | Miss counts agree with LRU on every sequence if and only if there are at most two ways. |
| `CacheExact.WitnessTrace` | cachelab/csim.c:263 | For every geometry with three ways or more, 64-bit addresses on which the simulator misses once more than the reference LRU cache. |
| `CacheExact.SimulatorIsLruIff` | cachelab/csim.c:237-263 | The misses equal those of the reference LRU cache on every trace of 64-bit addresses if and only if there are at most two ways. |
| `CacheRuns.SameBlock` | cachelab/csim.c:243-244 | Set index and tag of two addresses agree exactly when they lie in one block. |
| `CacheRuns.TraceAccounting` | cachelab/csim.c:116-138 | For every trace: hits + misses = loads and stores plus twice the modifies, misses - evictions = valid lines, every set proper. |
| `CacheRuns.HitIffBlockResident` | cachelab/csim.c:129-135 | An access hits exactly when its block is resident; repeating it at once hits. |
| `CacheRuns.ExactlyLru` | cachelab/csim.c:240-317 | For one and two ways, hits, misses, evictions and contents equal those of the reference LRU cache on every trace. |
| `CacheRuns.ResidentIffListed` | cachelab/csim.c:240-317 | The same for contents: a block is resident exactly when its tag is on the recency list of its set. |
| `CacheRuns.Inclusion` | cachelab/csim.c:240-317 | After every trace the direct-mapped cache is contained in the two-way cache, and that in any larger one. |
| `CacheRuns.MissesShrink` | cachelab/csim.c:240-317 | Misses with any number of ways from two on are at most those with two, and those at most those with one. |
| `CacheSim.Simulator.constructor` | cachelab/csim.c:83-111 | The empty cache with masks for the given geometry. |
| `CacheSim.Simulator.Tag` | cachelab/csim.c:244 | The masked and shifted tag is the address divided by 2^(s+b). |
| `CacheSim.Simulator.SetIndex` | cachelab/csim.c:243 | The masked and shifted index is the address divided by 2^b, modulo 2^s. |
| `CacheSim.Simulator.Scan` | cachelab/csim.c:247-270 | Ages the valid lines before the hit, or all of them, and counts the invalid ones. |
| `CacheSim.Simulator.CheckCache` | cachelab/csim.c:240-317 | One access of the abstract cache: the row of the set changes as specified and no other row does. |
| `CacheSim.RunOne` | cachelab/csim.c:116-138 | An I line accesses nothing, an L or S line its address once, and an M line its address twice. |
| `CacheSim.Simulator.Simulate` | cachelab/csim.c:116-138 | The trace loop leaves the cache and the counters of the abstract cache after the accesses of the trace. |
| `Jobs.AddKeeps` | shlab/tsh.c:462-485 | A new pid is added if and only if an entry is free; the table stays free of duplicates and no other pid comes or goes. |
| `Jobs.AddEntry` | shlab/tsh.c:469-476 | It is the first free entry that changes, to the pid, state, command line and next job id; job ids count to 16 and start again at 1. |
| `Jobs.DeleteKeeps` | shlab/tsh.c:488-503 | Deleting succeeds exactly for a listed pid and removes only it. |
| `Jobs.DeleteEntry` | shlab/tsh.c:488-503 | Only the entry of the pid changes, and the next job id is one above the largest left. |
| `Jobs.FgPidIs` | shlab/tsh.c:506-513 | The result is 0 exactly when no job is in the foreground, else a foreground pid. |
| `Jobs.JobTable.constructor` | shlab/tsh.c:443-448 | An empty table. |
| `Jobs.JobTable.AddJob` | shlab/tsh.c:462-485 | The table and the next job id become those of the specification, and so is the result. |
| `Jobs.JobTable.DeleteJob` | shlab/tsh.c:488-503 | The same for deletion, with the next job id one above the largest left. |
| `Jobs.JobTable.MaxJobId` | shlab/tsh.c:451-459 | The largest job id in the table. |
| `Jobs.JobTable.Foreground` | shlab/tsh.c:506-513 | The first foreground job, or 0. |
| `Shell.StepInv` | shlab/tsh.c:192-222 | Every step of shell, handler and children keeps the protocol invariant while SIGCHLD is blocked around fork and addjob. |
| `Shell.RunInv` | shlab/tsh.c:181-226 | The invariant on every interleaving. |
| `Shell.JobsLeaveWhenReported` | shlab/tsh.c:342-364 | A job leaves the table in a step if and only if that step is the handler being told about its child. |
| `Shell.TableChanges` | shlab/tsh.c:192-222 | The table changes only by addjob, with FG or BG as the command says, and by deletejob of a reported child. |
| `Shell.ForegroundWaits` | shlab/tsh.c:212-216 | On every interleaving, from the addition of a foreground job to the table until the handler is told of its child, the shell awaits it, and it is the only foreground job. |
| `Shell.StopsWaiting` | shlab/tsh.c:316-329 | The wait for a foreground job ends only after the handler was told of its child, or when the table had no free entry for it. |
| `Shell.GoesOnIff` | shlab/tsh.c:324 | The test of waitfg ends the wait if and only if the job is not in the foreground any more. |
| `Shell.BackgroundStays` | shlab/tsh.c:217-222 | A background job is never in the foreground, as long as its pid is not reused. |
| `Shell.BackgroundReturns` | shlab/tsh.c:217-222 | After its addition the shell's own next step returns from the command. |
| `Shell.RaceWithoutMasking` | shlab/tsh.c:192-195 | Without blocking, an interleaving that lists a job whose child is gone. |
| `Shell.SafeIffMasking` | shlab/tsh.c:181-226 | Listed pids are distinct unreaped children, at most one in the foreground and none between commands, on all interleavings, if and only if SIGCHLD is blocked. |
| `Tokenizer.RoundTrip` | shlab/tsh.c:235-283 | Printing arguments and parsing the line gives them back; background exactly when the last starts with an ampersand, which is dropped, or when there is none. |
| `Tokenizer.ParseWritten` | shlab/tsh.c:243-282 | The result for any line at all, by its arguments as they are written in it: quoted or up to a space, with any spaces in front. |
| `Tokenizer.TokensOfWritten` | shlab/tsh.c:245-272 | However arguments are spaced and quoted, they are what is read back. |
| `Tokenizer.EveryLineIsWritten` | shlab/tsh.c:244-272 | Every line is some arguments, written like this, and then spaces and perhaps a quote with no partner. |
| `Tokenizer.UnclosedQuote` | shlab/tsh.c:250-258 | A quote with no partner ends the search for arguments. |
| `Tokenizer.ParseLeadingSpace` | shlab/tsh.c:245-246 | Spaces in front of a line change nothing. |
| `Tokenizer.TokensOfTerminated` | shlab/tsh.c:248-272 | The arguments of a printed line are the printed ones, quoted or bare. |
| `Tokenizer.StrChr` | shlab/tsh.c:252-255 | The address of the first occurrence, or NULL. |
| `Tokenizer.Split` | shlab/tsh.c:245-272 | After the in-place loop every pointer in argv addresses a NUL-terminated argument of the line, in order. |
| `Tokenizer.ParseLine` | shlab/tsh.c:235-283 | argv holds exactly the parsed arguments followed by NULL; the result is the background flag. |
| `Rio.RunCalls` | proxylab/csapp.c:629-676 | For any mix of readnb and readlineb calls, and any short or interrupted reads, each call delivers the next bytes of the stream, as many as fulfil it, and what was delivered followed by what is left is the stream. |
| `Rio.TakenIff` | proxylab/csapp.c:629-676 | Exactly one number of bytes fulfils a call: for readnb n, or all there are if fewer; for readlineb the longest prefix that passes neither the first newline nor maxlen - 1. |
| `Rio.ServedLosesNothing` | proxylab/csapp.c:629-676 | Pieces that fulfil their calls one after the other lose and repeat nothing. |
| `Rio.LongestLine` | proxylab/csapp.c:655-676 | readlineb stores the longest prefix that passes neither the first newline nor maxlen - 1. |
| `Rio.ResultIsLengthIff` | proxylab/csapp.c:660-675 | The result is the number of bytes stored if and only if a newline ended the line, or nothing was left and there was room; otherwise it is one more. |
| `Rio.ResultExceedsLength` | proxylab/csapp.c:660-675 | For a last line of one letter it is 2. |
| `Rio.LineEnds` | proxylab/csapp.c:660-675 | However its loop ends, the bytes stored and the result are those of the specification. |
| `Rio.Reader.constructor` | proxylab/csapp.c:617-622 | An empty buffer over the descriptor. |
| `Rio.Reader.Refill` | proxylab/csapp.c:589-600 | Interrupted reads are repeated, nothing is delivered or lost, and the end of the stream is told apart. |
| `Rio.Reader.Read` | proxylab/csapp.c:585-609 | Delivers at least one of the next bytes unless none is left, in order, and keeps buffer and stream in step. |
| `Rio.Reader.ReadNb` | proxylab/csapp.c:629-648 | Delivers the next bytes in order, at most n, and fewer only if nothing is left after them. |
| `Rio.Reader.ReadLineb` | proxylab/csapp.c:655-676 | Stores exactly the next line cut at maxlen - 1, ends it with a zero byte, and returns the number of bytes when a newline ended it, else one more, or 0 at the end of the stream. |
| `Transpose.BlockedIsPermuted` | cachelab/trans.c:138-155 | For sides divisible by four the blocked loops visit each element exactly once, and visit the same ones as trans. |
| `Transpose.PlainInOrder` | cachelab/trans.c:170-175 | trans goes through A row by row. |
| `Transpose.BlockedInOrder` | cachelab/trans.c:142-153 | The blocked loops go through A by bands of four rows, in each by blocks of four columns, and in each block row by row. |
| `Transpose.StaysInBoundsIff` | cachelab/trans.c:142-152 | The blocked loops stay inside the matrices if and only if both sides are divisible by four or one is zero. |
| `Transpose.Trans` | cachelab/trans.c:166-177 | Visits rows in order and makes B the transpose of A. |
| `Transpose.TransposeBlocking` | cachelab/trans.c:138-155 | Makes the visits of the blocked order and makes B the transpose of A. |
| `Transpose.SubmitBlocked` | cachelab/trans.c:29-79 | The unrolled nests by columns of blocks make B the transpose. |
| `Transpose.TransposeSubmit` | cachelab/trans.c:25-91 | Transposes for the three sizes it knows, and leaves B alone for all others. |
| `Transpose.IsTranspose` | cachelab/trans.c:204-216 | Answers 1 if and only if B is the transpose of A. |
| `Sampler.BestAreSmallest` | malloclab/fcyc.c:67-88 | After any samples the values kept are sorted and no dropped sample is smaller than any of them. |
| `Sampler.SmallestIsUnique` | malloclab/fcyc.c:67-88 | There is only one such choice. |
| `Sampler.SamplesInAnyOrder` | malloclab/fcyc.c:67-88 | What is kept does not depend on the order of the samples. |
| `Sampler.FirstIsMinimum` | malloclab/fcyc.c:159 | The first value kept is the minimum of all samples. |
| `Sampler.ConvergedIff` | malloclab/fcyc.c:93-98 | The measurements have converged if and only if at least K of them are at most 1 + epsilon times the least one. |
| `Sampler.Sampler.InitSampler` | malloclab/fcyc.c:50-62 | No samples, K zeroed values. |
| `Sampler.Sampler.InsertionSort` | malloclab/fcyc.c:81-87 | Swapping in place inserts the last value into the sorted ones before it. |
| `Sampler.Sampler.AddSample` | malloclab/fcyc.c:67-88 | Keeps the first min(count, K) values equal to the K best of all samples. |
| `Sampler.Sampler.HasConverged` | malloclab/fcyc.c:93-98 | True exactly when there are K samples and the K best lie within epsilon. |
| `Sampler.Sampler.Fcyc` | malloclab/fcyc.c:129-166 | Stops at the first convergence or at max(1, maxsamples) samples, and returns their minimum. |

## Left out

- Printing, sockets, DNS, threads, argument parsing, clocks, scores, trace-file reading and trace generators: input and output. `proxylab/proxy.c`, `tiny.c` and `kernellab` are not part of this model.
- `malloclab/mm.c` mm_realloc: shrinking ignores the overhead and growing takes only the size difference, so it preserves nothing worth stating; mm_check: it walks the list to a NULL tail that is not maintained.
- `malloclab/mm2.c` is a copy of `mm.c`, and `mm.c.old` holds conflict markers.
- `mem_init` and the mapping of addresses to host pointers: addresses are offsets, so `mem_brk + incr` cannot pass the end of the address space.
- FirstFit.Allocator.Malloc: requests are at most 2^32 - 16 bytes; larger ones wrap around in the size computation, which `Requests.AdjustSizeExact` shows.
- FirstFit.Allocator.Init: needs 16 bytes of capacity, since the source does not notice that `mem_sbrk` failed.
- FirstFit.Allocator.Realloc: requests are at most 2^32 - 16 bytes; the process exit after a failed allocation is a result value.
- Driver.Driver.EvalMmValid: sizes are positive ints, as `add_range` asserts, and ids index the block tables; `char` is signed, as on the 32-bit build.
- Traces.ReadTrace: lines are parsed requests of the three kinds; other commands and blank lines are not modelled.
- Traces.Balance: appends the missing frees in an arbitrary order, of which the sorted order of the source is one; the header lines are not modelled.
- ExplicitList.Allocator.Malloc: requests are at most 2^32 - 16 bytes.
- CacheSim.Simulator.CheckCache: age counters and hit counters do not overflow, and 1 <= s + b <= 31 and fewer than 2^31 ways, where the `int` conversion of the set mask is harmless.
- Replacement order for three ways or more beyond the two tags used last: not LRU, as proved.
- Shell: job ids are not claimed to be unique, as the wrap at `shlab/tsh.c:473-475` can reuse a live one; do_bgfg is empty; the exits of the shell are terminal states; whether `waitpid` ends with ECHILD while children remain depends on an old errno and is left open, so both continuations are covered; SIGINT and SIGTSTP handlers only send signals, whose effect is a child's own step.
- Tokenizer.ParseLine: the line is nonempty, fits the buffer and has fewer than MAXARGS arguments; the source does not check this. An empty argv makes `builtin_cmd` compare a null pointer; blank lines end there.
- Rio.Reader.Read: read errors other than an interruption are left out, and sizes do not exceed the `int` range.
- Rio.Reader.ReadLineb: the byte counts and the result are unbounded.
- transpose_64M skips some elements and leaves the matrices; transpose_blocking is not claimed outside its exact bounds condition.
- Transpose.SubmitBlocked: the two hand-unrolled nests of `transpose_submit`, eight and four columns wide, are one method with the width as a parameter.
- Sampler.Sampler.Fcyc: measurements are given values, as reals without rounding; the counter compensation and cache clearing around a measurement are not modelled, nor the release of the array.
