# Verified models of the systems labs

Dafny models of code that changes shared or overlaid memory step by step, and proofs of what that code
promises. `dafny verify dfyconfig.toml` checks all of it.

## What is modelled

**The two boundary-tag allocators.** One arena of 32-bit words holds tags, links and payloads together.
`Blocks` describes the blocks between prologue and epilogue and what splitting, merging and growing do to
them, `Memlib` how far the heap may grow. `Memory` and `Retagging` say what it means for words to spell such
a layout, and `FreeList` adds the doubly linked list threaded through the free blocks. `ExplicitHeap` and
`ImplicitHeap` are the allocators without the words: a layout together with the order of the
free list, or with the rover. The classes in `ExplicitAllocator` and `ImplicitAllocator` work on the
array as the source does, with the source's pointer arithmetic and case splits, and each of their methods
is proved to take a heap to the one the model predicts. `ExplicitLaws` and `ImplicitLaws` say, from the
heap alone, what these predictions are: sizes, positions in the free list, the rover; `LayoutLaws` says that
the rest follows from them. `Requests` is the client: what it owns, and the bytes it has written.
`ExplicitRuns` and `ImplicitRuns` state what any sequence of requests and writes leaves true,
`ExplicitReplay` and `ImplicitReplay` that the words themselves then hold what the client wrote. `Walks`
relates the walks by headers and by footers.

**The cache simulator.** `Recency` defines the ideal list of tags, most recent first. `CacheModel` runs a
trace on such lists, and proves what they hold, inclusion, and the accounting of the counters.
`RankedLines` shows that access times encode the list; `CacheSimulator` is the program on its line objects.
`CacheNarrowing` says exactly when passing a 64-bit tag as an int does no harm.

**Concurrent protocols.** `BoundedBuffer` and `ReadersWriters` take every semaphore operation and every
access to shared data as a step of its own, of any number of threads; `Counting` counts threads.
`ProxyStore` and `ProxyServer` are the proxy's store for requests served one at a time; the server reads
each response through the reader of `BufferedReader`.

**Transformations.** `Transpose` holds the blocked transposes against the plain one, `BufferedReader` the
Rio reader against the plain stream of bytes.

## How to read the model

- A block is named by the word index of its header; pointers are word indices as well, and word `i` has
  address `base + 4 * i`. Sizes are counted in units of 8 bytes where the source has bytes.
- Words are below 2^32, and the places where 32-bit arithmetic can wrap are written out: the rounding of a
  request (`AdjustedSizeFits` says exactly when it is right) and the address sum in mem_sbrk
  (`SbrkRight`). The specification of an allocation is over unbounded sizes; `InReach` says for which
  requests the arithmetic serves it, and `InReachExact` that for all others it does not.
- The explicit allocator repeats the same two or three link writes in several branches; here they are the
  methods `Unlink` and `PushFront`.
- `BoundedBuffer` and `ReadersWriters` treat a blocked event as no step, so a run is any list of events.
- `Basics` holds what several modules share.
- Bytes in a word are numbered from the least significant one.
- Where code and comments disagree the model follows the code: `7_ProxyLab/proxylab-handout/proxy.c:36-38`
  says that only objects below the maximum size are put into the cache, but lines 229-237 drop the chunks
  that do not fit and store the rest (`StoredLong` says what that is); and when the server is not
  reached, an empty object is stored.
- After a request whose server is not reached, `Close` gets -1 and ends the process
  (`7_ProxyLab/proxylab-handout/proxy.c:263`, `7_ProxyLab/proxylab-handout/csapp.c:320-325` and `29-33`). After a hit it
  gets a variable that was never assigned; whether that ends the process is an input of the model (`closes`).
- On a hit the proxy takes `w` for the timestamp before it counts itself as a reader, so the model of the
  lock has one writer section for stamping and one for storing.

## Model

| member | source | states |
|---|---|---|
| Blocks.CoalesceTiles | 6_MallocLab/malloclab-explicit/mm.c:224-402 | Joining a freed block with its free neighbours leaves blocks that tile the heap without gap or overlap, and no two free neighbours |
| Blocks.CoalesceExtent | 6_MallocLab/malloclab-explicit/mm.c:253-334 | The merged block starts at the free predecessor if there is one, ends where the free successor ended if there is one, and every block outside it stays |
| Blocks.CoalesceSameLive | 6_MallocLab/malloclab-explicit/mm.c:224-402 | Coalescing makes no block live or dead and changes the size of no live block |
| Blocks.SplitTiles | 6_MallocLab/malloclab-explicit/mm.c:496-506 | Splitting a block that leaves a remainder of minimum size keeps the tiling |
| Blocks.ExtendTiles | 6_MallocLab/malloclab-explicit/mm.c:206-210 | Turning the epilogue into a free block with a new epilogue behind it keeps the tiling |
| LayoutLaws.LayoutDetermined | 6_MallocLab/malloclab-explicit/mm.c:224-402 | Where the free blocks lie follows from the live blocks alone: two heaps between the same ends, with the same live blocks and no two free neighbours, have the same layout |
| Memory.TagRead | 6_MallocLab/malloclab-explicit/mm.c:108-117 | Size and allocated bit read back from a packed tag are those packed, for every block whose tag fits 32 bits |
| Memory.RetagOne | 6_MallocLab/malloclab-explicit/mm.c:259-261 | When both tags of one block are written and all other blocks of the new layout were there before, the words spell the new layout |
| Memory.RetagSplit | 6_MallocLab/malloclab-explicit/mm.c:499-506 | Writing four tags spells the layout with the block split |
| Memory.RetagExtend | 6_MallocLab/malloclab-explicit/mm.c:206-210 | Writing two tags and an epilogue spells the layout with a block added at the end |
| Memory.PredTag | 6_MallocLab/malloclab-explicit/mm.c:135-135 | The word in front of a header says whether the predecessor is free and how long it is; in front of the first block it is the prologue footer, which reads as allocated |
| Memlib.SbrkRight | 6_MallocLab/malloclab-explicit/memlib.c:58-69 | mem_sbrk refuses exactly the requests that exceed the heap if and only if the 32-bit address sum does not wrap round to below the end of the arena; if it does, a request is granted that should be refused |
| Memlib.SbrkWraps | 6_MallocLab/malloclab-explicit/memlib.c:62-62 | An increment beyond the arena that mem_sbrk accepts, right after mm_init, because the address wraps |
| Memory.Memcpy | 6_MallocLab/malloclab-explicit/mm.c:591-591 | Copies exactly n bytes between stretches that do not overlap, and changes no other byte |
| Retagging.SwallowTags | 6_MallocLab/malloclab-explicit/mm.c:330-334 | Tags of a merged block miss every word of every live block |
| Retagging.PayloadMissesTags | 6_MallocLab/malloclab-explicit/mdriver.c:374-399 | Writing the payload of a live block disturbs no tag |
| Retagging.PayloadMissesLive | 6_MallocLab/malloclab-explicit/mdriver.c:374-399 | Writing the payload of one live block changes no word of another |
| FreeList.Unlink | 6_MallocLab/malloclab-explicit/mm.c:268-269 | Two link writes take a node out of the middle of a doubly linked list; the other nodes keep their order |
| FreeList.Push | 6_MallocLab/malloclab-explicit/mm.c:247-249 | Three link writes put a node in front |
| FreeList.ReplaceHead | 6_MallocLab/malloclab-explicit/mm.c:282-287 | Three link writes put a new node in the place of the head |
| FreeList.Replace | 6_MallocLab/malloclab-explicit/mm.c:510-517 | Four link writes put a new node in the place of one in the middle |
| FreeList.Pop | 6_MallocLab/malloclab-explicit/mm.c:527-528 | One link write drops the head |
| FreeList.LinksKeepTags | 6_MallocLab/malloclab-explicit/mm.c:119-145 | Link words lie strictly between the tags of their block, so writing links of free blocks or of the prologue disturbs no tag of any layout made of whole blocks |
| FreeList.LinksKeepLive | 6_MallocLab/malloclab-explicit/mm.c:119-145 | Writing links of blocks that are not live changes no word of a live block |
| FreeList.CoalesceTags | 6_MallocLab/malloclab-explicit/mm.c:258-261 | Tagging the merged block leaves the linked list and all live blocks as they were |
| ExplicitHeap.AbsorbConsistent | 6_MallocLab/malloclab-explicit/mm.c:224-402 | After any of the seven splicing paths the free list visits every free block exactly once and nothing else, with the merged block in front |
| ExplicitHeap.RestCorrect | 6_MallocLab/malloclab-explicit/mm.c:224-402 | Behind the merged block the list is the old one without the free neighbours |
| ExplicitHeap.BestFitCorrect | 6_MallocLab/malloclab-explicit/mm.c:535-550 | Best fit finds the smallest free block that fits, the first in list order among equals, and nothing exactly if none fits |
| ExplicitHeap.AdjustedSizeFits | 6_MallocLab/malloclab-explicit/mm.c:453-457 | The 32-bit rounding gives the least size with room for request and overhead if and only if the request is below 2^32 - 23, and less than a minimum block otherwise |
| ExplicitHeap.AdjustedSizeWraps | 6_MallocLab/malloclab-explicit/mm.c:457-457 | A request of 2^32 - 1 bytes is rounded to 16 |
| ExplicitHeap.PlaceConsistent | 6_MallocLab/malloclab-explicit/mm.c:489-530 | Placing keeps the free list exact and leaves no two free neighbours |
| ExplicitHeap.PlacedHandsOut | 6_MallocLab/malloclab-explicit/mm.c:489-530 | Placing makes one more block live, of the size asked for and less than a minimum block more; all other live blocks stay |
| ExplicitHeap.GrowFits | 6_MallocLab/malloclab-explicit/mm.c:195-217 | After growing, the head of the free list has all the room that was asked for |
| ExplicitHeap.GrowKeeps | 6_MallocLab/malloclab-explicit/mm.c:195-217 | Growing changes no live block and moves the end by exactly the amount asked for |
| ExplicitHeap.ReleaseKeeps | 6_MallocLab/malloclab-explicit/mm.c:410-428 | Freeing makes exactly one block no longer live |
| ExplicitHeap.InReachExact | 6_MallocLab/malloclab-explicit/mm.c:437-483 | The requests for which the allocator is proved right are exactly those that mm_malloc, with its 32-bit arithmetic, grants if and only if they can be served |
| ExplicitHeap.ReachByNumbers | 6_MallocLab/malloclab-explicit/mm.c:453-479 | Every request of size bytes is among them if 2^32 is not reached by the end of the arena, the size and 512 bytes together |
| ExplicitHeap.FirstRequestMisled | 6_MallocLab/malloclab-explicit/mm.c:453-479 | After mm_init two requests, one for each way in which the arithmetic wraps, that are granted although there is no room |
| ExplicitHeap.MallocCorrect | 6_MallocLab/malloclab-explicit/mm.c:437-483 | An allocation fails only if no free block fits and the system refuses, and then changes nothing; otherwise it hands out a block of its own that exceeds the request by 16 to 39 bytes, and if any free block fits, the first of the smallest |
| ExplicitHeap.MallocInside | 6_MallocLab/malloclab-explicit/mm.c:476-479 | No allocation takes the heap beyond its limit |
| ExplicitLaws.PlacedExact | 6_MallocLab/malloclab-explicit/mm.c:489-530 | A block that leaves a minimum remainder is cut to exactly the units asked for, and the remainder takes its position in the free list, all others keeping theirs; a smaller one is handed out whole, and those behind it in the list move up by one |
| ExplicitLaws.AbsorbExact | 6_MallocLab/malloclab-explicit/mm.c:224-402 | After coalescing the merged block is the head of the free list; behind it stand, in their old order, all listed blocks that it does not cover |
| ExplicitLaws.ReleaseExact | 6_MallocLab/malloclab-explicit/mm.c:410-428 | Freeing joins the block with exactly its free neighbours and lists the result first, the others staying in order |
| ExplicitLaws.GrowExact | 6_MallocLab/malloclab-explicit/mm.c:195-217 | Growing lengthens the last block if it is free, and adds a block otherwise; that block is the head of the list, the others stay in order |
| ExplicitLaws.MallocFits | 6_MallocLab/malloclab-explicit/mm.c:463-470 | If a free block fits, the first of the smallest is handed out, of exactly the size that the splitting rule gives, and the heap does not grow |
| ExplicitLaws.MallocGrows | 6_MallocLab/malloclab-explicit/mm.c:475-482 | If none fits and there is room, the heap grows by exactly the larger of the request and the chunk size; the block handed out is its last, of exactly the size that the splitting rule gives, with a remainder at the head of the list |
| ExplicitLaws.ReallocMoves | 6_MallocLab/malloclab-explicit/mm.c:581-596 | If the new size can be served, the block always moves: to the block that an allocation finds, which was not live and has 16 to 39 bytes more than the size; the old one is released, and all other live blocks stay |
| ExplicitLaws.ReallocOtherwise | 6_MallocLab/malloclab-explicit/mm.c:566-586 | If it cannot be served nothing changes; without a block it is an allocation, with size 0 a release |
| ExplicitLaws.InitialExact | 6_MallocLab/malloclab-explicit/mm.c:174-193 | mm_init leaves one free block of 512 bytes |
| ExplicitAllocator.Allocator.Around | 6_MallocLab/malloclab-explicit/mm.c:122-136 | What the address macros find around a block: its neighbours, its footer, and whether each neighbour is free |
| ExplicitAllocator.Allocator.Unlink | 6_MallocLab/malloclab-explicit/mm.c:268-269 | The words after the pair of writes hold the list without the node; only link words of list nodes have changed |
| ExplicitAllocator.Allocator.PushFront | 6_MallocLab/malloclab-explicit/mm.c:247-250 | The words hold the list with the block in front, and the list head is the block |
| ExplicitAllocator.Allocator.ReplaceFront | 6_MallocLab/malloclab-explicit/mm.c:389-396 | The words hold the list with the block in place of the old head |
| ExplicitAllocator.Allocator.ReplaceFrontSucc | 6_MallocLab/malloclab-explicit/mm.c:282-290 | The same for the other order of the writes |
| ExplicitAllocator.Allocator.CoalesceNone | 6_MallocLab/malloclab-explicit/mm.c:245-251 | Case 1 makes the words spell the coalesced layout and list, and changes no live block |
| ExplicitAllocator.Allocator.CoalesceSucc | 6_MallocLab/malloclab-explicit/mm.c:253-292 | Cases 2.1 and 2.2 compute the same function of layout and list |
| ExplicitAllocator.Allocator.CoalescePred | 6_MallocLab/malloclab-explicit/mm.c:294-326 | Case 3, with its two paths, computes the same function |
| ExplicitAllocator.Allocator.CoalesceBoth | 6_MallocLab/malloclab-explicit/mm.c:328-398 | Cases 4.1 to 4.3 compute the same function, also when the two neighbours are next to each other in the list or one is its head |
| ExplicitAllocator.Allocator.SpliceSucc | 6_MallocLab/malloclab-explicit/mm.c:263-291 | One node leaves the list and the block that swallows it goes in front, wherever the node was |
| ExplicitAllocator.Allocator.SplicePred | 6_MallocLab/malloclab-explicit/mm.c:304-325 | A node moves to the front, wherever it was |
| ExplicitAllocator.Allocator.SpliceBoth | 6_MallocLab/malloclab-explicit/mm.c:336-397 | One node leaves the list and another moves to the front, whichever comes first and however close they are |
| ExplicitAllocator.Allocator.Coalesce | 6_MallocLab/malloclab-explicit/mm.c:224-402 | The arena spells the coalesced heap, with the merged block at the head of the free list, and no word of a live block has changed |
| ExplicitAllocator.Allocator.MmFree | 6_MallocLab/malloclab-explicit/mm.c:410-428 | The heap is the old one with the block released; no word of a block still live has changed; freeing NULL does nothing |
| ExplicitAllocator.Allocator.Sbrk | 6_MallocLab/malloclab-explicit/memlib.c:58-69 | The break moves by the increment, or stays and -1 is returned |
| ExplicitAllocator.Allocator.ExtendHeap | 6_MallocLab/malloclab-explicit/mm.c:195-217 | Either the heap has grown and the block at the head of the list is returned, or the system refuses and nothing has changed |
| ExplicitAllocator.Allocator.SpliceIn | 6_MallocLab/malloclab-explicit/mm.c:508-517 | The remainder takes the list position of the split block |
| ExplicitAllocator.Allocator.SpliceOut | 6_MallocLab/malloclab-explicit/mm.c:522-529 | The block leaves the list, the others keep their order |
| ExplicitAllocator.Allocator.Place | 6_MallocLab/malloclab-explicit/mm.c:489-533 | The block is handed out, split if the rest can stand alone, with the remainder in its place in the list; other live blocks keep their words |
| ExplicitAllocator.Allocator.FindFit | 6_MallocLab/malloclab-explicit/mm.c:535-550 | The scan of the linked list in memory ends at the prologue and returns the best fit, or NULL |
| ExplicitAllocator.Allocator.MmMalloc | 6_MallocLab/malloclab-explicit/mm.c:437-483 | The arena spells the heap after the allocation; live blocks keep their words; on failure no word changes |
| ExplicitAllocator.Allocator.CopyReads | 6_MallocLab/malloclab-explicit/mm.c:588-591 | The copy of mm_realloc stays inside the new payload and never overlaps its source, although it is sized by the old block with its overhead |
| ExplicitAllocator.Allocator.MmRealloc | 6_MallocLab/malloclab-explicit/mm.c:566-597 | The first min(old payload, new size) bytes of the new block are those of the old one; if there is no room, no word changes; all other live blocks keep their words |
| ExplicitAllocator.Allocator.MmInit | 6_MallocLab/malloclab-explicit/mm.c:174-193 | A fresh arena becomes a valid heap with one free block |
| Walks.ReadUpCorrect | 6_MallocLab/malloclab-explicit/mm.c:134-136 | Following header sizes upwards visits exactly the blocks of the layout, in order |
| Walks.ReadDownCorrect | 6_MallocLab/malloclab-explicit/mm.c:134-136 | Following footer sizes downwards visits exactly the blocks below, in reverse |
| Walks.TagsAreDual | 6_MallocLab/malloclab-explicit/mm.c:132-136 | Walking down by footers from the epilogue is the reverse of walking up by headers |
| Walks.UpConserves | 6_MallocLab/malloclab-explicit/mm.c:494-520 | The blocks from any block on take exactly the words up to the epilogue |
| Requests.PayloadWellPlaced | 6_MallocLab/malloclab-explicit/mdriver.c:374-399 | Whatever a client owns is 8-aligned, in the heap, and apart from everything else it owns and from the words that blocks keep for themselves |
| Requests.OthersRemember | 6_MallocLab/malloclab-explicit/mdriver.c:374-399 | When all live blocks but one keep their words, every byte that the client wrote to the others is still there |
| Requests.CarriedRemembers | 6_MallocLab/malloclab-explicit/mm.c:588-591 | A moved block still holds the bytes that the client wrote to the old one, as far as the new size goes |
| Requests.MovedKnown | 6_MallocLab/malloclab-explicit/mdriver.c:374-399 | A resized block has exactly the bytes that the client wrote to the old one, below the new size |
| ExplicitRuns.StepGood | 6_MallocLab/malloclab-explicit/mm.c:410-597 | Every legal request or write keeps the whole heap invariant, and every live block exceeds its request by 16 to 39 bytes |
| ExplicitRuns.StepKeeps | 6_MallocLab/malloclab-explicit/mm.c:410-597 | A live block stays where it is, at its size, until a request frees or moves it |
| ExplicitRuns.PayloadsWellPlaced | 6_MallocLab/malloclab-explicit/mdriver.c:374-399 | After any legal run every payload is 8-aligned, inside the heap, and disjoint from every other payload and from all tags and links |
| ExplicitRuns.AllFreed | 6_MallocLab/malloclab-explicit/mm.c:224-428 | When everything has been freed the heap is one free block of all but 24 bytes, and the free list has one entry |
| ExplicitRuns.SpaceConserved | 6_MallocLab/malloclab-explicit/mm.c:174-597 | After any legal run block sizes add up to all of the heap but 24 bytes |
| ExplicitRuns.WrittenStays | 6_MallocLab/malloclab-explicit/mdriver.c:374-399 | A byte once written stays, whatever else is requested and written, until its block is freed or moved or that byte is written again |
| ExplicitReplay.WriteByte | 6_MallocLab/malloclab-explicit/mdriver.c:374-399 | A byte that the client writes to a payload changes that byte alone, and leaves the heap valid |
| ExplicitReplay.Serve | 6_MallocLab/malloclab-explicit/mm.c:410-597 | A request served on the words returns the pointer that the model predicts; every block still holds what the client wrote to it, and one that the request does not name keeps all its words |
| ExplicitReplay.Replay | 6_MallocLab/malloclab-explicit/mm.c:410-597 | After any legal run of requests and client writes on the words the heap is the one predicted, every live block holds exactly what the client last wrote there, through all moves, and a block that nothing named has all its words |
| ExplicitReplay.FromStart | 6_MallocLab/malloclab-explicit/mm.c:174-597 | The same from mm_init on a fresh arena; at the end every payload is 8-aligned, inside the heap, and disjoint from every other and from all tags and links |
| ImplicitHeap.AbsorbConsistent | 6_MallocLab/malloclab-implicit/mm.c:174-216 | Coalescing leaves no free neighbours; the rover moves only if its block has been swallowed, and then to the start of the block that swallowed it |
| ImplicitHeap.NextFitCorrect | 6_MallocLab/malloclab-implicit/mm.c:281-296 | Next fit finds the cyclically first free block that fits from the old rover on, and nothing exactly if no block fits |
| ImplicitHeap.FirstFromCorrect | 6_MallocLab/malloclab-implicit/mm.c:286-294 | Each of the two scans finds the lowest block that fits in its range |
| ImplicitHeap.AdjustedSizeFits | 6_MallocLab/malloclab-implicit/mm.c:234-242 | The 32-bit rounding gives the least size with room for request and tags if and only if the request is below 2^32 - 15, and less than a minimum block otherwise |
| ImplicitHeap.PlaceConsistent | 6_MallocLab/malloclab-implicit/mm.c:264-279 | Placing leaves no two free neighbours and the rover at a block |
| ImplicitHeap.PlacedHandsOut | 6_MallocLab/malloclab-implicit/mm.c:264-279 | Placing makes one more block live, of less than a minimum block more than asked for |
| ImplicitHeap.GrowFits | 6_MallocLab/malloclab-implicit/mm.c:156-172 | After growing, the last free block has all the room that was asked for |
| ImplicitHeap.GrowKeeps | 6_MallocLab/malloclab-implicit/mm.c:156-172 | Growing changes no live block |
| ImplicitHeap.ReleaseKeeps | 6_MallocLab/malloclab-implicit/mm.c:313-325 | Freeing makes exactly one block no longer live |
| ImplicitHeap.MallocInside | 6_MallocLab/malloclab-implicit/mm.c:256-259 | No allocation takes the heap beyond its limit |
| ImplicitHeap.InReachExact | 6_MallocLab/malloclab-implicit/mm.c:222-262 | The requests for which the allocator is proved right are exactly those that mm_malloc, with its 32-bit arithmetic, grants if and only if they can be served |
| ImplicitHeap.MallocCorrect | 6_MallocLab/malloclab-implicit/mm.c:222-262 | An allocation fails only if no block fits and the system refuses, and then nothing changes, the rover included; otherwise the block exceeds the request by 8 to 23 bytes, and if any free block fits it is the cyclically first from the rover on, with the rover left there |
| ImplicitLaws.PlacedExact | 6_MallocLab/malloclab-implicit/mm.c:264-280 | A block that leaves a minimum remainder is cut to exactly the units asked for, a smaller one is handed out whole; the other blocks and the rover stay |
| ImplicitLaws.ReleaseExact | 6_MallocLab/malloclab-implicit/mm.c:313-325 | Freeing joins the block with exactly its free neighbours; the rover stays unless its block is swallowed, and is then at the start of the block that swallowed it |
| ImplicitLaws.GrowExact | 6_MallocLab/malloclab-implicit/mm.c:156-172 | Growing lengthens the last block if it is free, and adds a block otherwise; the rover stays |
| ImplicitLaws.MallocFits | 6_MallocLab/malloclab-implicit/mm.c:250-254 | If a free block fits, the cyclically first is handed out, of exactly the size that the splitting rule gives, and the rover stays there |
| ImplicitLaws.MallocGrows | 6_MallocLab/malloclab-implicit/mm.c:256-261 | If none fits and there is room, the heap grows by exactly the larger of the request and the chunk size; the block handed out is its last, and the rover is where it was |
| ImplicitLaws.ReallocMoves | 6_MallocLab/malloclab-implicit/mm.c:345-361 | If the new size can be served, the block always moves: to the block that an allocation finds, which was not live and has 8 to 23 bytes more than the size; the old one is released, and all other live blocks stay |
| ImplicitLaws.ReallocOtherwise | 6_MallocLab/malloclab-implicit/mm.c:330-352 | If it cannot be served nothing changes; without a block it is an allocation, with size 0 a release |
| ImplicitLaws.InitialExact | 6_MallocLab/malloclab-implicit/mm.c:137-154 | mm_init leaves one free block of 4096 bytes, with the rover at the prologue |
| ImplicitAllocator.Allocator.Join | 6_MallocLab/malloclab-implicit/mm.c:174-206 | All four cases make the words spell the coalesced layout and change no live block |
| ImplicitAllocator.Allocator.Coalesce | 6_MallocLab/malloclab-implicit/mm.c:174-216 | The same with the rover repaired; it is left alone where nothing was merged |
| ImplicitAllocator.Allocator.MmFree | 6_MallocLab/malloclab-implicit/mm.c:313-325 | The heap is the old one with the block released; no word of a block still live has changed |
| ImplicitAllocator.Allocator.ExtendHeap | 6_MallocLab/malloclab-implicit/mm.c:156-172 | Either the heap has grown and the new free block is returned, or nothing has changed |
| ImplicitAllocator.Allocator.Place | 6_MallocLab/malloclab-implicit/mm.c:264-279 | The words spell the layout with the block handed out; other live blocks keep their words |
| ImplicitAllocator.Allocator.SearchToEnd | 6_MallocLab/malloclab-implicit/mm.c:286-289 | The first loop returns the first fit from the rover on, with the rover at it |
| ImplicitAllocator.Allocator.SearchFromStart | 6_MallocLab/malloclab-implicit/mm.c:291-296 | The second loop returns the first fit below the old rover, or ends with the rover exactly where it was |
| ImplicitAllocator.Allocator.FindFit | 6_MallocLab/malloclab-implicit/mm.c:281-296 | Next fit on the words: returns the cyclically first fit with the rover at it, or NULL with the rover unchanged |
| ImplicitAllocator.Allocator.MmMalloc | 6_MallocLab/malloclab-implicit/mm.c:222-262 | The arena spells the heap after the allocation; live blocks keep their words; on failure no word changes |
| ImplicitAllocator.Allocator.CopyReads | 6_MallocLab/malloclab-implicit/mm.c:352-355 | The copy stays inside the new payload and inside the heap, and does not overlap its source |
| ImplicitAllocator.Allocator.MmRealloc | 6_MallocLab/malloclab-implicit/mm.c:330-361 | The first min(old payload, new size) bytes of the new block are those of the old one; if there is no room, no word changes; all other live blocks keep their words |
| ImplicitAllocator.Allocator.MmInit | 6_MallocLab/malloclab-implicit/mm.c:137-154 | A fresh arena becomes a valid heap with one free block and the rover at the prologue |
| ImplicitRuns.StepKeeps | 6_MallocLab/malloclab-implicit/mm.c:222-361 | A live block stays where it is, at its size, until a request frees or moves it |
| ImplicitReplay.WriteByte | 6_MallocLab/malloclab-implicit/mm.c:110-119 | A byte that the client writes to a payload changes that byte alone, and leaves the heap valid |
| ImplicitReplay.Serve | 6_MallocLab/malloclab-implicit/mm.c:222-361 | A request served on the words returns the pointer that the model predicts; every block still holds what the client wrote to it, and one that the request does not name keeps all its words |
| ImplicitReplay.Replay | 6_MallocLab/malloclab-implicit/mm.c:222-361 | After any legal run of requests and client writes on the words the heap is the one predicted, rover included, and every live block holds exactly what the client last wrote there, through all moves |
| ImplicitReplay.FromStart | 6_MallocLab/malloclab-implicit/mm.c:137-361 | The same from mm_init on a fresh arena; at the end every payload is 8-aligned, inside the heap, and disjoint from every other and from all tags |
| ImplicitRuns.StepGood | 6_MallocLab/malloclab-implicit/mm.c:222-361 | Every legal request or write keeps the heap invariant, rover included, and every live block exceeds its request by 8 to 23 bytes |
| ImplicitRuns.EveryRun | 6_MallocLab/malloclab-implicit/mm.c:137-361 | After any legal run the rover is at the prologue or at a block and not at the epilogue, every payload is 8-aligned, in the heap and disjoint from all others and from all tags, and block sizes add up to all of the heap but 16 bytes |
| ImplicitRuns.WrittenStays | 6_MallocLab/malloclab-explicit/mdriver.c:374-399 | A byte once written stays, whatever else is requested and written, until its block is freed or moved or that byte is written again |
| Recency.LruIsTake | 4_CacheLab/cachelab-handout/csim.c:89-139 | A set of e lines under least-recently-used replacement is the ideal recency list cut off at e, after any use |
| Recency.PlaceIsDistance | 4_CacheLab/cachelab-handout/csim.c:89-139 | A tag stands in the ideal list behind exactly the tags used since its last use |
| Recency.HitMeansRecent | 4_CacheLab/cachelab-handout/csim.c:47-65 | A tag is held by e lines exactly if it was used before with fewer than e other tags since |
| CacheModel.SameBlock | 4_CacheLab/cachelab-handout/csim.c:197-204 | Two addresses have the same set and tag if and only if they lie in the same block |
| CacheModel.SameSet | 4_CacheLab/cachelab-handout/csim.c:197-204 | Two addresses fall into the same set if and only if their blocks are a multiple of the number of sets apart |
| CacheModel.ToIntMeans | 4_CacheLab/cachelab-handout/csim.c:47-48 | Passing a tag as an int leaves the one number in the range of an int that is congruent to it modulo 2^32 |
| CacheModel.SetsHoldMostRecent | 4_CacheLab/cachelab-handout/csim.c:124-139 | After any trace each set holds its most recently used distinct tags, as many as fit, most recent first |
| CacheModel.HitIffRecent | 4_CacheLab/cachelab-handout/csim.c:47-65 | A load hits exactly if fewer than e other tags have come to the set since the tag was last used |
| CacheModel.Inclusion | 4_CacheLab/cachelab-handout/csim.c:89-139 | For every trace, each set of a cache with fewer lines holds a prefix of what the larger cache holds; so misses never go up, and hits never go down, with more lines |
| CacheModel.Accounting | 4_CacheLab/cachelab-handout/csim.c:200-218 | Hits plus misses are loads plus stores plus twice the modifies, and misses minus evictions are the valid lines, of which no set has more than e |
| CacheModel.Counters | 4_CacheLab/cachelab-handout/csim.c:198-219 | Hits are the lines of the trace whose tag was brought to its set before with fewer than e others since, and the stores of all modifies; misses are the other lines that load, store or modify; evictions those misses before which e different tags had been brought to the set |
| CacheNarrowing.NarrowingHarmless | 4_CacheLab/cachelab-handout/csim.c:47-48 | Passing tags as 32-bit ints gives right counts on every trace over a set of addresses if and only if no two of them in one set have different tags with equal low 32 bits |
| CacheNarrowing.ClashMiscounts | 4_CacheLab/cachelab-handout/csim.c:47-48 | Two addresses that clash: their second load is counted as a hit |
| CacheNarrowing.ClashExists | 4_CacheLab/cachelab-handout/csim.c:47-48 | 0 and 2^(32 + s + b), both 64-bit addresses if s + b is below 31, clash in every cache: the second load is counted as a hit |
| CacheNarrowing.SmallTagsFit | 4_CacheLab/cachelab-handout/csim.c:179-204 | Addresses below 2^(31 + s + b) never clash |
| RankedLines.Hit | 4_CacheLab/cachelab-handout/csim.c:55-61 | Giving a line the current time moves its tag to the front of the recency list that the times encode |
| RankedLines.Fill | 4_CacheLab/cachelab-handout/csim.c:72-83 | Filling the first empty line puts the tag in front |
| RankedLines.Replaced | 4_CacheLab/cachelab-handout/csim.c:107-122 | Replacing the line with the least time drops the last tag of the list and puts the new one in front |
| RankedLines.OldestLast | 4_CacheLab/cachelab-handout/csim.c:89-105 | In a full set exactly one line has the least time, and it is not later than the last access |
| CacheSimulator.SetUpdate | 4_CacheLab/cachelab-handout/csim.c:51-54 | Writing a line of one set of the flat array changes no other set |
| CacheSimulator.Cache.IfCacheHit | 4_CacheLab/cachelab-handout/csim.c:47-65 | Returns whether the tag is in the list of the set; on a hit the set is as after a use of the tag |
| CacheSimulator.Cache.IfEmptyLine | 4_CacheLab/cachelab-handout/csim.c:67-87 | Fills a line if and only if the set is not full |
| CacheSimulator.Cache.LruLineIdx | 4_CacheLab/cachelab-handout/csim.c:89-105 | The index, unset before the loop, is always set by it, to the one line with the least access time |
| CacheSimulator.Cache.Replace | 4_CacheLab/cachelab-handout/csim.c:107-122 | The least recently used tag goes, and a miss and an eviction are counted |
| CacheSimulator.Cache.LoadToCache | 4_CacheLab/cachelab-handout/csim.c:124-139 | The lines and counters are as after one load of the ideal lists; the code returned says hit, fill or replacement |
| CacheSimulator.Cache.InitCache | 4_CacheLab/cachelab-handout/csim.c:141-155 | All lines are different objects and empty |
| CacheSimulator.Cache.Simulate | 4_CacheLab/cachelab-handout/csim.c:198-219 | For every trace the lines represent the ideal lists, and each of the three counters is a number of lines of the trace, as for CacheModel.Counters |
| BoundedBuffer.AccountedStep | code_examples/conc/sbuf.c:28-49 | Every step of every thread keeps the accounting of mutex, slots, items, front and rear |
| BoundedBuffer.OrderedStep | code_examples/conc/sbuf.c:32-45 | No store hits a slot whose item is still to be read, and what is read is the oldest item |
| BoundedBuffer.InvRun | code_examples/conc/sbuf.c:7-49 | The invariant holds after every schedule of any number of threads |
| BoundedBuffer.Fifo | code_examples/conc/sbuf.c:28-49 | Under every interleaving the items removed are a prefix of the items inserted, at most n wait, all of them still in their slots, rear is between front and front + n, and at most one thread is in the critical section |
| BoundedBuffer.RemovesNext | code_examples/conc/sbuf.c:39-49 | The item that a remove reads is the next one in order of insertion |
| BoundedBuffer.CallsFollowed | code_examples/conc/sbuf.c:28-49 | At every moment each thread is as far in its last call as it has taken steps, and an insert has the item that the schedule called it with |
| BoundedBuffer.InsertsArguments | code_examples/conc/sbuf.c:28-35 | What is stored are the arguments of the calls of insert, in the order in which these calls reach their store |
| BoundedBuffer.ReturnsArguments | code_examples/conc/sbuf.c:39-49 | A call of remove returns the argument whose number is its turn to read, although others may read, and return, before it does; no two calls return the same one |
| BoundedBuffer.SlotsConserved | code_examples/conc/sbuf.c:28-49 | Free slots, announced items and threads inside a call add up to n in every reachable state |
| BoundedBuffer.NoDeadlock | code_examples/conc/sbuf.c:28-49 | While a thread is inside a call some such thread can step; when none is, items and slots are exact, so an insert or a remove can start |
| BoundedBuffer.Sbuf.InsertStep | code_examples/conc/sbuf.c:28-35 | The fields after one statement of an insert are those of the step |
| BoundedBuffer.Sbuf.RemoveStep | code_examples/conc/sbuf.c:39-49 | The fields after one statement of a remove are those of the step |
| BoundedBuffer.Sbuf.Execute | code_examples/conc/sbuf.c:7-49 | After any schedule on the shared memory itself the items removed are a prefix of those inserted, at most n wait, and each of them is in its slot; what was inserted are the arguments of the calls, and what each remove has returned is the one whose turn it was |
| ReadersWriters.InvStep | 7_ProxyLab/proxylab-handout/proxy.c:192-210 | Every step keeps: mutex and w are each held once, w by one writer or by the readers together, and the count is the number of readers counted |
| ReadersWriters.MutualExclusion | 7_ProxyLab/proxylab-handout/proxy.c:192-247 | In every reachable state at most one thread is in a writer section or stamping, and then no reader is inside; read_cnt is the number of threads between increment and decrement |
| ReadersWriters.ReadsAreStable | 7_ProxyLab/proxylab-handout/proxy.c:199-203 | While a thread reads, no step of any thread changes the store |
| ReadersWriters.RequestFollowed | 7_ProxyLab/proxylab-handout/proxy.c:188-247 | At every moment each thread has stored and read as often as the place where it is in its request demands |
| ReadersWriters.HitsAreRead | 7_ProxyLab/proxylab-handout/proxy.c:188-247 | When a thread is done with a request it has stored exactly once, and has read the object exactly once after a hit and never after a miss |
| ReadersWriters.HoldsLastStored | 7_ProxyLab/proxylab-handout/proxy.c:240-246 | The store holds what the last thread to store had come to write |
| ReadersWriters.NoDeadlock | 7_ProxyLab/proxylab-handout/proxy.c:192-247 | While any thread is serving, some such thread can step; when none is, both semaphores are free |
| ReadersWriters.Lock.Advance | 7_ProxyLab/proxylab-handout/proxy.c:192-247 | The fields after one statement are those of the step |
| ReadersWriters.Lock.Execute | 7_ProxyLab/proxylab-handout/proxy.c:192-303 | After any schedule on the shared memory itself a writer is alone, read_cnt counts the readers, and the store holds what was last written |
| Transpose.CopyUpper | 4_CacheLab/cachelab-handout/trans.c:188-198 | Step 1: the upper half of the block arrives in B, left part transposed, right part as it is; nothing else changes |
| Transpose.SwapParts | 4_CacheLab/cachelab-handout/trans.c:200-210 | Step 2: a part of A and a part of B change places, transposed |
| Transpose.CopyLowerLeft | 4_CacheLab/cachelab-handout/trans.c:212-218 | Step 3: the parked part arrives in B as it is |
| Transpose.TransposePart | 4_CacheLab/cachelab-handout/trans.c:220-225 | Step 4: a rectangle of A arrives in B transposed |
| Transpose.RestoreLowerLeft | 4_CacheLab/cachelab-handout/trans.c:227-232 | Step 5: the overwritten part of A is put back from B |
| Transpose.OffDiagonal | 4_CacheLab/cachelab-handout/trans.c:178-233 | After the five steps A is what it was and B has the transpose of the block, and is otherwise unchanged |
| Transpose.OnDiagonal | 4_CacheLab/cachelab-handout/trans.c:163-177 | B has the transpose of a block on the diagonal and is otherwise unchanged |
| Transpose.Blocksize8x4 | 4_CacheLab/cachelab-handout/trans.c:155-236 | For all dimensions divisible by 8 and distinct matrices, B is the transpose of the original A, and A is unchanged |
| Transpose.Blocksize8 | 4_CacheLab/cachelab-handout/trans.c:53-82 | For square matrices with a side divisible by 8, B is the transpose of A |
| Transpose.Blocksize16 | 4_CacheLab/cachelab-handout/trans.c:260-272 | For all dimensions B is the transpose of A |
| Transpose.CorrectTrans | 4_CacheLab/cachelab-handout/cachelab.c:56-65 | The baseline makes B the transpose of A |
| Transpose.TransposeSubmit | 4_CacheLab/cachelab-handout/trans.c:275-285 | The submitted function transposes for square matrices and for 67 by 61, and leaves B alone otherwise; A is unchanged |
| Transpose.CheckTranspose | 4_CacheLab/cachelab-handout/trans.c:327-338 | The check offered beside the transposes says yes if and only if B is the transpose of A |
| Transpose.CellsTransposed | 4_CacheLab/cachelab-handout/cachelab.c:56-65 | Equality with the transpose as a value is equality cell by cell |
| Transpose.TransposedTwice | 4_CacheLab/cachelab-handout/cachelab.c:56-65 | Transposing twice gives the matrix back |
| BufferedReader.DeliveryIsInvisible | 7_ProxyLab/proxylab-handout/csapp.c:728-738 | Splitting a chunk that read() delivers, or interrupting the reader, anywhere, leaves the stream the same |
| BufferedReader.AheadMeans | 7_ProxyLab/proxylab-handout/csapp.c:766-780 | rio_readnb takes exactly the bytes before its count, the end or a failure |
| BufferedReader.LineEndMeans | 7_ProxyLab/proxylab-handout/csapp.c:787-808 | A line stops at its first newline, at maxlen - 1 bytes, at the end or at a failure, whichever comes first |
| BufferedReader.ReadMeans | 7_ProxyLab/proxylab-handout/csapp.c:766-780 | A read gives the next n bytes, or all that are left, and fails exactly if a failure comes first |
| BufferedReader.LineMeans | 7_ProxyLab/proxylab-handout/csapp.c:787-808 | A line has at most maxlen - 1 bytes, no newline but at its end, and stops short only at a newline or at the end; it fails exactly if a failure comes before all of these |
| BufferedReader.Conserved | 7_ProxyLab/proxylab-handout/csapp.c:725-808 | For any calls in any order on a stream without failures, what was delivered followed by what is left is the stream |
| BufferedReader.Rio.Refill | 7_ProxyLab/proxylab-handout/csapp.c:728-738 | Refilling repeats interrupted reads and changes nothing of the stream still to come |
| BufferedReader.Rio.RioRead | 7_ProxyLab/proxylab-handout/csapp.c:725-748 | Delivers a positive number of the next bytes, or 0 exactly at the end of the stream, or -1 at a failure; the rest of the stream is kept |
| BufferedReader.Rio.Readnb | 7_ProxyLab/proxylab-handout/csapp.c:766-780 | The result and the rest of the stream are those that the stream alone determines |
| BufferedReader.Rio.Readlineb | 7_ProxyLab/proxylab-handout/csapp.c:787-808 | The line and the rest of the stream are those that the stream alone determines; the line ends with NUL |
| BufferedReader.Rio.Session | 7_ProxyLab/proxylab-handout/csapp.c:755-808 | Any interleaving of calls gives the results that the stream alone determines |
| ProxyStore.CutReceived | 7_ProxyLab/proxylab-handout/proxy.c:222-223 | A body has a cut into chunks of 8192 bytes with a shorter last one, and nothing of it is lost |
| ProxyStore.CutUnique | 7_ProxyLab/proxylab-handout/proxy.c:222-223 | There is only one such cut, so what is stored depends on the body alone |
| ProxyStore.StoredWhole | 7_ProxyLab/proxylab-handout/proxy.c:217-235 | The stored object is the whole body if and only if the body is shorter than MAX_OBJECT_SIZE |
| ProxyStore.StoredLong | 7_ProxyLab/proxylab-handout/proxy.c:228-232 | Of a body of MAX_OBJECT_SIZE bytes or more, exactly the first 98304 bytes are stored, followed by the last, incomplete chunk if that is shorter than 4096 bytes |
| ProxyStore.ServeProper | 7_ProxyLab/proxylab-handout/proxy.c:188-249 | No two lines have the same hash, at most CACHE_LINE_NUM objects are held, and each hash held has its object |
| ProxyStore.HoldsMostRecent | 7_ProxyLab/proxylab-handout/proxy.c:269-309 | After any requests the store holds the most recently requested hashes, as many as there are lines |
| ProxyStore.AnsweredFromStore | 7_ProxyLab/proxylab-handout/proxy.c:295-309 | A request is answered from the store if and only if its hash was requested before with fewer than CACHE_LINE_NUM other hashes since |
| ProxyStore.AnsweredRight | 7_ProxyLab/proxylab-handout/proxy.c:188-249 | In every history a request is answered with its page if and only if the page is shorter than MAX_OBJECT_SIZE or the hash was not requested before with fewer than CACHE_LINE_NUM others since |
| ProxyStore.Transparent | 7_ProxyLab/proxylab-handout/proxy.c:188-249 | A page is answered right in every history if and only if it is shorter than MAX_OBJECT_SIZE |
| ProxyServer.ReplaceHolds | 7_ProxyLab/proxylab-handout/proxy.c:237-247 | Overwriting the line with the least timestamp evicts the least recently used object and no other |
| ProxyServer.Proxy.CheckCache | 7_ProxyLab/proxylab-handout/proxy.c:295-309 | Finds the line with a hash if the store has it, and stamps it; otherwise changes nothing |
| ProxyServer.Proxy.GetWriteIdx | 7_ProxyLab/proxylab-handout/proxy.c:269-287 | The first empty line, or else the one with the least timestamp |
| ProxyServer.NextChunk | 7_ProxyLab/proxylab-handout/csapp.c:766-780 | One buffered read takes MAXLINE bytes, or all that is left; nothing exactly at the end |
| ProxyServer.BodyMeans | 7_ProxyLab/proxylab-handout/proxy.c:221-235 | The body of a response is everything that the connection brings, however it is delivered |
| ProxyServer.Proxy.Receive | 7_ProxyLab/proxylab-handout/proxy.c:217-235 | However the network delivers the response, the whole body is sent on, and the buffer holds what the cut into full reads keeps of it |
| ProxyServer.Proxy.Fetch | 7_ProxyLab/proxylab-handout/proxy.c:214-235 | The same when the server is reached; otherwise the client gets the error page and the buffer stays empty |
| ProxyServer.Proxy.ServeRequest | 7_ProxyLab/proxylab-handout/proxy.c:165-267 | Store and reply are those of the ideal store, but a miss whose server is not reached is answered with the error page; the process ends exactly with a miss whose server is not reached, or a hit after which Close fails |
| ProxyServer.Proxy.ServeAll | 7_ProxyLab/proxylab-handout/proxy.c:138-155 | So it is for any list of requests, served one at a time from an empty cache, whatever read() does on each connection, up to and including the first request that ends the process |
| ProxyServer.EndsWhen | 7_ProxyLab/proxylab-handout/proxy.c:188-264 | In terms of the requests alone: the process ends with a hash requested with fewer than CACHE_LINE_NUM others since if Close then fails, with any other if its server is not reached |
| ProxyServer.RightReply | 7_ProxyLab/proxylab-handout/proxy.c:188-249 | Before that, a hash requested with fewer than CACHE_LINE_NUM others since is answered with its page if and only if the page is shorter than MAX_OBJECT_SIZE, even if its server is not reached; any other with its page, or the error page if the server is not reached |
| ProxyServer.Proxy.constructor | 7_ProxyLab/proxylab-handout/proxy.c:97-108 | All lines start empty |

## Left out

- ExplicitAllocator.Allocator.MmMalloc: the requests that mm_malloc grants although there is no room, because its rounding or the address sum in mem_sbrk wraps; `ExplicitHeap.InReachExact` shows that nothing else is excluded, `ExplicitHeap.FirstRequestMisled` gives inputs.
- ImplicitAllocator.Allocator.MmMalloc: the same exclusion (`ImplicitHeap.InReachExact`); an arena whose end is at address 2^32 is excluded as well.
- ExplicitReplay.Serve: the same requests.
- ExplicitReplay.Replay: runs with such a request.
- ExplicitReplay.FromStart: runs with such a request.
- ImplicitReplay.Serve: the same requests.
- ImplicitReplay.Replay: runs with such a request.
- ImplicitReplay.FromStart: runs with such a request.
- ExplicitAllocator.Allocator.ExtendHeap: increments on which mem_sbrk is misled.
- ImplicitAllocator.Allocator.ExtendHeap: the same.
- ImplicitAllocator.Allocator.MmRealloc: the same sizes as for its MmMalloc.
- ExplicitAllocator.Allocator.MmRealloc: the same sizes as for its MmMalloc; and only the old payload is claimed to be copied; the source also copies up to 16 bytes behind it, for the last block from beyond the break, and the modelled arena has two spare words for that.
- BoundedBuffer.Fifo: a buffer of 0 slots, which never accepts anything.
- Transpose.Blocksize8x4: dimensions that are not multiples of 8, for which the source writes outside the matrices, and A and B being the same matrix.
- ProxyServer.Proxy.ServeRequest: requests served at the same time; the scans for a hash and for a line to write run without the lock, so a concurrent hit may send another object.
- ProxyServer.Proxy.ServeAll: what else breaks when Close after a hit closes a descriptor that another part of the process still uses; and the text of the error page, which is an input.
- ProxyServer.Proxy.Receive: a response during which reading fails; the source ends the process then.
- BufferedReader.Rio.SysRead: a finite list of events stands for read(); an end of file that is followed by more data is not modelled.
- The call of mm_init from mm_malloc and mm_free on a heap that has not been set up: the model starts from an initialised heap.
- The first-fit branches of both find_fit functions, printing, and checkheap as code; what checkheap looks for is part of the invariants.
- The write of a NUL behind the response buffer in serve.
- Counters that grow without bound (rear, front, the cache simulator's time and counts) are integers without overflow; the proxy's clock is assumed to stay below ULONG_MAX.
- The overlap of a queued thread's place in a semaphore's queue: any blocked thread may go first.
- Parsing of options, traces, requests and URLs; files, sockets, signals and timing; how many cache misses a transpose causes.
- The shell lab, the data lab, the C programming lab, and the other copies of the allocators, of sbuf and of csapp.
