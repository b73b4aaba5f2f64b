# Systems labs, verified

A Dafny model of the programs in `malloc-lab`, `proxy-lab` and `cache-lab`, with proofs of what they
promise. `dafny verify dfyconfig.toml` checks everything.

**The allocator (`malloc-lab/mm.c`).** One array of words holds three structures at once: the tiling
of the heap into blocks, the boundary tags, and fourteen doubly linked lists threaded through the free
payloads. `HeapLayout` and `FreeLists` define the structures and prove what a store does to each;
`HeapState` combines them (`Threaded`); `HeapAdjacency` and `HeapMoves` say what clients see
(`Spared`: no word of another live payload changes; `Served`: every live request has its room) and
when adjacent free blocks can arise; `Allocator` is the program, a class over the array with ghost
fields for the blocks, the lists and the live requests. `HeapCheck` is `checkheap`, which never
complains on a reachable heap. `HeapDriver` is the validity run of `malloc-lab/mdriver.c`: for every
well-formed trace, of any length, the allocator passes every test of the driver or runs out of memory,
it passes when there is memory for all requests side by side, and having passed it holds exactly the
blocks of the trace. `HeapLoad` bounds what is held by what the heap has grown. `HeapPairs` runs the allocator into
its one shortcoming.
A word at an aligned byte address p is cell p of the array; block addresses are offsets, so 0 is never
a block and stands for the null pointer. `mem_sbrk` is not part of this model except as "move the
break up, or fail and change nothing".

**The bounded buffer (`proxy-lab/sbuf.c`).** `Sbuf` is a transition system over any number of threads
in which each P, V, load, store and increment half is a step of its own. The counting invariant gives
FIFO order, safety of every slot, accounting of the slots and mutual exclusion; and a state in which no
call can move holds only inserts into a full buffer, or only removes from an empty one. `SbufCalls`
ties the stores to the calls: each thread's items arrive once each, in the order of its calls.

**The cache simulator (`cache-lab/csim.c`).** `Lru` is the abstract replacement policy with its
theorems (stack distance, inclusion); `CacheTrace` lifts it to addresses; `CacheSim` is the program,
line arrays and intrusive lists, refining it set by set and access by access.

**The proxy (`proxy-lab/cache.c`, `proxy-lab/proxy.c`, `proxy-lab/csapp.c`).** `Rio` turns arbitrary
short and interrupted reads into the exact stream; `ProxyCache` is the byte-bounded list whose lookups
are never stale; `Retention` proves how long an object stays in it, a stack-distance theorem counted
in bytes; `Proxy` is the relay loop and the sequence of requests, ending in `Session` and
`NeverStale`: every client receives exactly the bytes its server gives, or the bytes that every client
asking for the same url has received since the server last gave them, or is told that the server
cannot be reached; and which of these it is depends only on whether what was asked for in between fits
into 1049000 bytes.
`Sio` is the in-place number printer.

**The transposes (`cache-lab/trans.c`).** `Transpose` runs both tiled bodies on all dimensions that
are multiples of eight. They and the naive `trans` establish the same predicate, `Transposed`, which
determines the target completely, and which `is_transpose` decides.

Where the code does not meet the property one would expect, the exact condition is proved:
`mm_realloc` keeps free blocks apart exactly when `ReallocPairs` does not hold
(`Allocator.Heap.Realloc`; concrete runs of the allocator in `HeapPairs`), and
`sio_ltoa` prints a numeral of its argument exactly when that is not the least long
(`Sio.PrintedRoundTrip`).

## Model

| member | source | states |
|---|---|---|
| HeapWords.TagFields | malloc-lab/mm.c:57-66 | packing a size that is a multiple of 8 with a status loses neither |
| HeapWords.AdjustedSize | malloc-lab/mm.c:131-135 | the block size for a request is a multiple of 8, at least 16, holds the payload with its two tags, and is the smallest such |
| HeapWords.ClzIsLog | malloc-lab/mm.c:52-53 | 31 minus the leading zeros is the position of the top bit: 2^k <= x < 2^(k+1) |
| HeapWords.ListIndexIsCeilLog2 | malloc-lab/mm.c:52-53 | class i below 13 holds exactly the sizes in (2^(i-1), 2^i], class 13 everything larger |
| HeapWords.ListIndexMonotone | malloc-lab/mm.c:52-53 | a larger block is never in an earlier class |
| HeapLayout.Retile | malloc-lab/mm.c:302-317 | replacing the blocks of a span by one or two well-tagged ones keeps the whole tiling: no gap, no overlap, header equal to footer, alignment, epilogue |
| HeapLayout.ExtendTiled | malloc-lab/mm.c:252-263 | a new block over the old epilogue with a new epilogue after it keeps the tiling |
| FreeLists.DllInsert | malloc-lab/mm.c:265-280 | the stores of insert_block put the block in front of the doubly linked list, every other link kept |
| FreeLists.DllDelete | malloc-lab/mm.c:282-300 | the stores of delete_block take exactly that member out of the doubly linked list |
| HeapState.InsertThreaded | malloc-lab/mm.c:265-280 | linking an unlisted free block leaves tiling, tags and the other thirteen lists intact, and every live payload |
| HeapState.DeleteThreaded | malloc-lab/mm.c:282-300 | a listed free block is on the list of its class, and unlinking it leaves tiling, tags and the other lists intact |
| HeapState.RetileThreaded | malloc-lab/mm.c:302-382 | retiling a span whose free blocks are unlisted keeps the lists and every word outside the span |
| HeapState.MergeThreaded | malloc-lab/mm.c:346-382 | a block and its free neighbours become one free block, the heap staying well formed |
| HeapAdjacency.PlacedSeparated | malloc-lab/mm.c:302-317 | place leaves two adjacent free blocks exactly when it splits in front of a free block |
| HeapAdjacency.CoalescedSeparated | malloc-lab/mm.c:346-382 | after coalescing no two adjacent blocks are free, if only the given block could have had a free neighbour |
| HeapMoves.EmptyHeap | malloc-lab/mm.c:106-117 | the words stored by mm_init form a well-formed heap with no free and no live block |
| HeapMoves.GrowMoves | malloc-lab/mm.c:197-233 | unlinking, absorbing and placing carry the payload to its new address and touch no other live payload |
| Allocator.Heap.InsertBlock | malloc-lab/mm.c:265-280 | the block becomes the first of the list of its class; the heap is well formed with it listed; live payloads kept |
| Allocator.Heap.DeleteBlock | malloc-lab/mm.c:282-300 | a free block leaves the list of its class, an allocated one changes nothing |
| Allocator.Heap.Place | malloc-lab/mm.c:302-317 | the first asize bytes become allocated and the rest a listed free block exactly when at least 16 bytes are left; a payload already there survives |
| Allocator.Heap.Coalesce | malloc-lab/mm.c:346-382 | the result is one free block from the free block before to the free block after, in all four cases, in a well-formed heap with every live payload kept |
| Allocator.Heap.CoalesceNext | malloc-lab/mm.c:356-361 | case 2 |
| Allocator.Heap.CoalescePrev | malloc-lab/mm.c:363-369 | case 3 |
| Allocator.Heap.CoalesceBoth | malloc-lab/mm.c:371-378 | case 4 |
| Allocator.Heap.FindFit | malloc-lab/mm.c:320-344 | null exactly when no free block anywhere fits; else the smallest that fits or one at most 8 bytes larger than asked for: of the first class with a fit, the first block of the list that is within 8 bytes, or without one the first of the smallest |
| Allocator.Heap.ExtendHeap | malloc-lab/mm.c:252-263 | fails exactly when the break cannot move, changing nothing; else the break moves by the rounded size, the new space merges with a free block that ended at the old break and with no other, that block is returned, and live payloads and separation are kept |
| Allocator.Heap.Init | malloc-lab/mm.c:101-119 | fails exactly when the memory is too small; else the heap is valid and empty |
| Allocator.Heap.Malloc | malloc-lab/mm.c:121-146 | null exactly for size 0 or when nothing fits and the break cannot move; else a new live block that fits with less than 16 bytes to spare, and the exact new tiling: a near-best fit is split, or the heap grows by the block size, merged with a last free block, and that is split; no other live payload changes; no adjacent free blocks arise |
| Allocator.Heap.Free | malloc-lab/mm.c:148-160 | exactly that block stops being live and becomes free, merged with its free neighbours, no other block changed; no other live payload changes; no adjacent free blocks arise; null does nothing |
| Allocator.ResizedIs | malloc-lab/mm.c:185-233 | the tests of mm_realloc, in their order, select the address and the exact new tiling that Resized describes |
| Allocator.Heap.Shrink | malloc-lab/mm.c:185-189 | same address, what is worth a block of its own split off, the remaining payload kept, separation lost exactly when the remainder meets a free block |
| Allocator.Heap.GrowNext | malloc-lab/mm.c:197-206 | growing into the next block: same address, the exact new tiling, payload kept, separation kept |
| Allocator.Heap.GrowPrev | malloc-lab/mm.c:208-218 | sliding into the block before: the exact new tiling, payload carried over the overlap, separation lost exactly when a remainder meets a free block |
| Allocator.Heap.GrowBoth | malloc-lab/mm.c:220-233 | sliding with both neighbours: the exact new tiling, payload carried, separation kept |
| Allocator.Heap.Relocate | malloc-lab/mm.c:235-247 | malloc, copy and free: the whole old payload survives; the tiling is that of mm_malloc, then of mm_free; on failure nothing has changed |
| Allocator.Heap.Resize | malloc-lab/mm.c:177-247 | all six paths: address and exact new tiling by the first test that holds, with less than 16 bytes to spare; the payload survives up to the smaller block; the break moves exactly when neither neighbours nor free lists give room, and null exactly when it then cannot |
| Allocator.Heap.Realloc | malloc-lab/mm.c:162-248 | the payload survives up to the smaller of old and new block on every path; which path is taken, the address and the exact tiling it gives and whether the break moves; null exactly when there is no room, the old block then intact and live; other payloads unchanged; adjacent free blocks arise exactly under ReallocPairs |
| HeapPairs.Append | malloc-lab/mm.c:121-146 | without a free block, mm_malloc returns the old break, which moves by exactly the block size; all else stays |
| HeapPairs.ShrinkHeap | malloc-lab/mm.c:121-160 | malloc(56), malloc(8) and a free end in a valid heap without adjacent free blocks: 64 live bytes at 72, 16 free bytes behind |
| HeapPairs.ShrinkLeavesPair | malloc-lab/mm.c:185-189 | from there realloc(72, 8) ends in a valid heap with two adjacent free blocks |
| HeapPairs.SlideHeap | malloc-lab/mm.c:121-160 | three mallocs and two frees end in a valid heap without adjacent free blocks: 16 live bytes at 120 between 48 and 16 free bytes |
| HeapPairs.SlideLeavesPair | malloc-lab/mm.c:208-218 | from there realloc(120, 32) ends in a valid heap with two adjacent free blocks |
| HeapCheck.CheckBlock | malloc-lab/mm.c:413-418 | never complains about a block of a well-formed heap |
| HeapCheck.CheckList | malloc-lab/mm.c:457-487 | returns the number of free blocks, never -1 |
| HeapCheck.CheckHeap | malloc-lab/mm.c:420-455 | never complains on a well-formed heap: the walk and the lists count the same free blocks |
| HeapCheck.WalkMeetsAll | malloc-lab/mm.c:432-440 | following sizes from a block meets every later block once, in address order |
| HeapCheck.HeapGrowth | malloc-lab/mm.c:101-263 | the sizes of the blocks after the prologue add up to the growth of the break since mm_init |
| HeapCheck.TagsAgree | malloc-lab/mm.c:413-446 | in memory every header equals its footer and names size and status; sizes and addresses are multiples of 8, sizes at least 16; the epilogue is (0, allocated) |
| HeapCheck.ListsIndexFreeBlocks | malloc-lab/mm.c:265-300 | each free block is on one list, that of its class, once; no allocated block is; PRED and SUCC are mutual inverses |
| HeapCheck.LivePayloads | malloc-lab/mdriver.c:384-408 | live payloads are 8-aligned, inside the heap, as large as requested, and pairwise disjoint |
| HeapLoad.LiveLoad | malloc-lab/mm.c:121-146 | the block sizes of all live requests add up to no more than the break has moved since mm_init |
| HeapLoad.WeightHeld | malloc-lab/mdriver.c:609-611 | requests by index and payloads by address weigh the same |
| HeapDriver.HeldIsLast | malloc-lab/mdriver.c:579-659 | an index is held after a trace exactly when its last request is no release, and with the size of that request |
| HeapDriver.RangeFits | malloc-lab/mdriver.c:376-421 | a block just served passes every test of add_range |
| HeapDriver.Intact | malloc-lab/mdriver.c:635-645 | the data test passes exactly when every word of the payload carries the fill |
| HeapDriver.DoAlloc | malloc-lab/mdriver.c:586-612 | an allocation request runs out of memory exactly when nothing fits and the break cannot move, and passes otherwise, the driver's records staying right |
| HeapDriver.DoRealloc | malloc-lab/mdriver.c:614-651 | a reallocation request runs out of memory exactly when neither neighbours, free lists nor break give room, and passes all tests otherwise, data included |
| HeapDriver.DoRelease | malloc-lab/mdriver.c:653-659 | a release keeps the records of all other blocks right |
| HeapDriver.Perform | malloc-lab/mdriver.c:584-663 | one request: the live payloads are those of the blocks held after it, the break moves by at most the block size, and it fails only when the break cannot move that far |
| HeapDriver.EvalValid | malloc-lab/mdriver.c:560-668 | on every well-formed trace the allocator passes every test or runs out of memory, which it can only when prologue and all requested blocks together exceed the memory; having passed, the live payloads are exactly the blocks held after the trace, one for each index, with size and fill, and what was held after any prefix of the trace fits into the growth of the break; without reallocations no two adjacent blocks are free |
| Sbuf.Run | proxy-lab/sbuf.c:8-44 | any interleaving from the initial state keeps the number of slots and of threads |
| Sbuf.MutualExclusion | proxy-lab/sbuf.c:27-29 | at most one thread is between P(mutex) and V(mutex) |
| Sbuf.StoreIsSafe | proxy-lab/sbuf.c:28-28 | a store goes to the slot of the next value in rear order, and no unread value is there |
| Sbuf.LoadIsSafe | proxy-lab/sbuf.c:40-40 | a load reads a written slot, holding the oldest unread value |
| Sbuf.StepKeepsInv | proxy-lab/sbuf.c:25-44 | every step of every thread keeps the counting invariant |
| Sbuf.RunKeepsInv | proxy-lab/sbuf.c:8-44 | the invariant holds after every schedule |
| Sbuf.ItemsConserved | proxy-lab/sbuf.c:25-31 | in every interleaving the values inserted and those in the hands of inserting threads are the items of all calls made, each once |
| Sbuf.FifoSafety | proxy-lab/sbuf.c:25-44 | in every interleaving the values removed are a prefix of the values inserted, at most n apart; the inserted are the items of the calls, each once, less those in hand; the removed are returned, each once, less those in hand |
| SbufCalls.StoresAreInserted | proxy-lab/sbuf.c:28-28 | rear order is the order of the stores |
| SbufCalls.ThreadOrder | proxy-lab/sbuf.c:25-31 | in every interleaving what a thread has stored is its own calls' items in the order of the calls, up to the one in flight |
| SbufCalls.SingleProducer | proxy-lab/sbuf.c:25-31 | with one inserting thread the values inserted are its calls' items in order, up to the one in flight |
| Sbuf.BufferSafety | proxy-lab/sbuf.c:25-44 | in every reachable state no store hits an unread slot and no load an unwritten one |
| Sbuf.SlotAccounting | proxy-lab/sbuf.c:8-44 | slots + items + in-flight inserts and removes = n in every reachable state |
| Sbuf.BlockedMeansNoStep | proxy-lab/sbuf.c:25-44 | a scheduled thread fails to move exactly when it waits on a semaphore that is zero |
| Sbuf.StuckMeansFullOrEmpty | proxy-lab/sbuf.c:25-44 | when no call can move, all are inserts into a full buffer, or all are removes from an empty one |
| Lru.RunIsLastOfRecency | cache-lab/csim.c:256-303 | a set of E lines holds the E most recently accessed tags, in order of access |
| Lru.HitIffRecent | cache-lab/csim.c:262-273 | a tag is held exactly when it was accessed and fewer than E other tags were accessed since |
| Lru.Inclusion | cache-lab/csim.c:256-303 | what E lines hold, more lines hold as well |
| Lru.HitsGrow | cache-lab/csim.c:256-303 | more lines never mean fewer hits of one set |
| Lru.LinesInUse | cache-lab/csim.c:275-302 | misses less evictions are the valid lines of one set |
| CacheTrace.AddressParts | cache-lab/csim.c:8-9 | tag, set index and offset are the digits of the address |
| CacheTrace.SetAndTagAreBlock | cache-lab/csim.c:8-9 | set index and tag together identify the block of an address |
| CacheTrace.HitIffRecent | cache-lab/csim.c:256-303 | an access hits exactly when its block was accessed before and fewer than E other tags of its set were accessed since |
| CacheTrace.Inclusion | cache-lab/csim.c:256-303 | for fixed s and b, the contents with fewer lines are included in those with more |
| CacheTrace.HitsGrow | cache-lab/csim.c:256-303 | on every trace the hit count does not drop as E grows |
| CacheTrace.Conservation | cache-lab/csim.c:256-303 | accesses less hits less evictions are the valid lines over all sets |
| CacheTrace.SecondAccessHits | cache-lab/csim.c:350-353 | the second access of an M line always hits |
| CacheTrace.AccessCount | cache-lab/csim.c:341-357 | a trace has one access for each line and one more for each M |
| CacheTrace.AccessAt | cache-lab/csim.c:350-353 | the accesses of line k come right after those of the lines before, one or, for an M, two to its address |
| CacheTrace.ModifiesHit | cache-lab/csim.c:350-353 | there are at least as many hits as M lines |
| CacheTrace.CountsAre | cache-lab/csim.c:264-293 | the hit and eviction counters are the numbers of accesses that hit, and that evict |
| CacheSim.CacheSet.constructor | cache-lab/csim.c:160-170 | an empty well-formed recency list over E invalid lines |
| CacheSim.CacheSet.Push | cache-lab/csim.c:174-185 | the node joins at the tail; the doubly linked list stays well formed |
| CacheSim.CacheSet.Remove | cache-lab/csim.c:187-204 | the node, wherever it is, leaves; the rest keeps its order |
| CacheSim.CacheSet.LruIndex | cache-lab/csim.c:206-206 | the head is the least recently used line |
| CacheSim.CacheSet.MakeMostRecent | cache-lab/csim.c:263-272 | a hit moves the tag to the recent end |
| CacheSim.CacheSet.ReplaceLru | cache-lab/csim.c:298-301 | an eviction drops the least recently used tag |
| CacheSim.CacheSet.Access | cache-lab/csim.c:262-302 | refines abstract LRU: list and valid lines stay in step, tags distinct; hit exactly when the tag is held, eviction exactly when the set is full without it |
| CacheSim.Cache.constructor | cache-lab/csim.c:208-243 | 2^s empty sets that share nothing |
| CacheSim.Cache.AccessSet | cache-lab/csim.c:260-302 | one set takes the access, all others keep their contents |
| CacheSim.Cache.Access | cache-lab/csim.c:256-303 | contents of every set and all three counters are those of LRU on the trace so far |
| CacheSim.Cache.Simulate | cache-lab/csim.c:341-357 | on every trace the counters are the hits and evictions of LRU; hits + misses = lines + M lines, hits >= M lines; misses - evictions = valid lines |
| ProxyCache.FreshToFront | proxy-lab/cache.c:96-116 | moving the first object of a url to the front keeps the first object of every url the newest |
| ProxyCache.Cache.constructor | proxy-lab/cache.c:5-12 | an empty valid cache |
| ProxyCache.Cache.MoveFront | proxy-lab/cache.c:96-116 | the object moves to the front, links in both directions consistent |
| ProxyCache.Cache.Access | proxy-lab/cache.c:14-37 | null exactly when no cached object has the url; else the object most recently inserted for it, moved to the front |
| ProxyCache.Cache.EvictTail | proxy-lab/cache.c:44-54 | the last object goes; size, count and links follow |
| ProxyCache.Cache.MakeRoom | proxy-lab/cache.c:42-60 | evicts the shortest tail that makes the new object fit |
| ProxyCache.Cache.Insert | proxy-lab/cache.c:39-75 | the object in front of the longest prefix that leaves room for it; size and count exact; never above the bound when the object is within it |
| Retention.HitRetains | proxy-lab/cache.c:14-37 | a hit on another url keeps the account of what stands in front of an object |
| Retention.PushRetains | proxy-lab/cache.c:39-75 | an insertion evicts an object exactly when it, all used since and the new one do not fit together |
| Retention.RetainStep | proxy-lab/cache.c:14-75 | after every use, an object is still cached exactly when the different objects used since, itself included, are together within the bound |
| Rio.Descriptor.Read | proxy-lab/csapp.c:810-819 | what read may do: a chunk of any positive size up to the request, nothing exactly at end of file, an interruption or an error |
| Rio.LineLengthIs | proxy-lab/csapp.c:871-893 | a line is the shortest prefix that ends in a newline, has the maximal length, or is everything |
| Rio.LineLengthUnique | proxy-lab/csapp.c:871-893 | and only that prefix is |
| Rio.RioBuffer.constructor | proxy-lab/csapp.c:837-842 | the stream to come is the whole input |
| Rio.RioBuffer.Refill | proxy-lab/csapp.c:809-820 | interruptions are retried, the stream is unchanged, 0 means end of file, and -1 comes exactly when the buffer is empty and the next read not interrupted fails |
| Rio.RioBuffer.Read | proxy-lab/csapp.c:805-830 | the bytes handed out are the next ones of the stream; none only at its end; -1 exactly when the buffer is empty and the next read not interrupted fails |
| Rio.RioBuffer.ReadNb | proxy-lab/csapp.c:849-864 | exactly min(n, what is left) bytes of the stream, or -1 and then exactly one hard failure was met |
| Rio.RioBuffer.ReadLineB | proxy-lab/csapp.c:871-893 | exactly the next line of the stream, zero-terminated, or -1 and then exactly one hard failure was met |
| Rio.SegmentsTile | proxy-lab/csapp.c:805-893 | the segments taken by any requests and what is left over make up the stream |
| Rio.ServeAll | proxy-lab/csapp.c:805-893 | any mix of line and block requests under any chunking and interruptions returns the consecutive segments of the stream |
| Sio.ParseNumeral | proxy-lab/csapp.c:246-248 | the digits evaluate back to the number |
| Sio.NoLeadingZero | proxy-lab/csapp.c:246-248 | a numeral starts with 0 only when it is "0" |
| Sio.NumeralLength | proxy-lab/csapp.c:246-248 | n digits stand for b^(n-1) <= v < b^n |
| Sio.ReverseInPlace | proxy-lab/csapp.c:226-235 | the string up to its zero is reversed in place |
| Sio.Ltoa | proxy-lab/csapp.c:238-255 | the buffer holds the numeral with sign and terminating zero, and needs no more room than that |
| Sio.PrintedRoundTrip | proxy-lab/csapp.c:238-255 | in every base from 2 to 36 the printed string reads back as v exactly when v is not the least long, and has no superfluous zero |
| Sio.PrintedLength | proxy-lab/csapp.c:238-255 | 64 characters are enough for every long and base |
| Proxy.Buffer.Keep | proxy-lab/proxy.c:199-208 | the copy is all that was forwarded as long as that is shorter than MAX_OBJECT_SIZE, and is given up otherwise |
| Proxy.Relay | proxy-lab/proxy.c:195-209 | the client gets the whole response; it is cacheable exactly when shorter than MAX_OBJECT_SIZE, and then copied exactly |
| Proxy.AddToCache | proxy-lab/proxy.c:218-228 | one more insertion, of these bytes for this url |
| Proxy.DealRequest | proxy-lab/proxy.c:159-216 | a hit exactly when the url is cached, replaying the object last stored for it; a miss forwards the whole response and stores it exactly when shorter than MAX_OBJECT_SIZE; the cache stays within its bound |
| Proxy.Respond | proxy-lab/proxy.c:150-216 | one request with or without a reachable server: answered from the cache exactly when the url is cached, with the latest object; what is cached, in which order, and logged afterwards |
| Proxy.AnswerStep | proxy-lab/proxy.c:159-216 | every cached url keeps as its latest object what the last request for it was answered |
| Proxy.KeptStep | proxy-lab/proxy.c:159-216 | the answer comes from the cache exactly when Retention says it must, and the account goes on |
| Proxy.Session | proxy-lab/proxy.c:150-228 | over any sequence of requests every answer is the whole response to that request, or is shorter than MAX_OBJECT_SIZE and repeats the answer to the last request for the url, or reports an unreachable server; when the last request for the url was given fewer than 102400 bytes, the answer comes from the cache exactly when the different short objects given from then on total at most 1049000 bytes |
| Proxy.TenRequests | proxy-lab/proxy.c:9-10 | a short answer is given again from the cache for at least the next ten requests |
| Proxy.NeverStale | proxy-lab/proxy.c:159-163 | an answer from the cache is the response to an earlier request for the url, and every request for the url since then was answered from the cache with the same bytes |
| Transpose.StageUpper | cache-lab/trans.c:30-49 | upper left quadrant transposed, the right half of the rows staged in the upper right one |
| Transpose.Unstage | cache-lab/trans.c:51-71 | staged rows moved down into place, the upper right quadrant filled |
| Transpose.FinishLower | cache-lab/trans.c:73-83 | the lower right quadrant |
| Transpose.StagedTile | cache-lab/trans.c:30-83 | the tile is transposed, the rest of the target untouched |
| Transpose.StagedTiles | cache-lab/trans.c:28-85 | for all dimensions that are multiples of 8, the target is the transpose, every access in bounds |
| Transpose.CopyTile | cache-lab/trans.c:93-110 | a verbatim copy of the tile |
| Transpose.TurnTile | cache-lab/trans.c:111-117 | swapping below the diagonal turns the tile about it, in place |
| Transpose.SwappedTile | cache-lab/trans.c:93-117 | the tile is transposed, the rest of the target untouched |
| Transpose.SwappedTiles | cache-lab/trans.c:91-119 | for all dimensions that are multiples of 8, the target is the transpose |
| Transpose.Trans | cache-lab/trans.c:285-294 | for all dimensions, the target is the transpose |
| Transpose.IsTranspose | cache-lab/trans.c:316-327 | answers 1 exactly when the target is the transpose |
| Transpose.TransposeSubmit | cache-lab/trans.c:24-121 | transposes 64 by 64 and 32 by 32, and leaves the target alone for every other shape but 61 by 67 |

## Left out

- Allocator.Heap.Init: models `mm_init` on a break at the start of memory, as after `mem_reset_brk`; a second `mm_init` further up is not modelled.
- Allocator.Heap.Malloc: requests stay below 0x7FFFFFF0 and the memory below 2^31 bytes, so that `ALIGN` and `2*size-1` do not wrap; when the heap has not been initialised, memory for the prologue must exist, because the code goes on after a failed `mm_init`.
- Allocator.Heap.Free: the lazy `mm_init` inside `mm_free` cannot be reached with a live block and is not modelled.
- HeapDriver.EvalValid: fills and tests payloads by words, on whole words of the same byte; the driver works by bytes, and its comparison with a plain `char` at malloc-lab/mdriver.c:639 is taken as intended. A repeated index in a trace counts as malformed.
- HeapCheck.CheckHeap: counts the complaints; the printing of blocks is not modelled.
- Sbuf.FifoSafety: `front` and `rear` are unbounded; the C code's `int` would overflow after 2^31 insertions. Fairness and starvation are not modelled.
- CacheSim.Cache.Simulate: counters are unbounded, s, E, b >= 1 with s <= 30 and s + b < 64, and addresses are unbounded naturals; allocation failure, command line, parsing and verbose printing are not modelled.
- ProxyCache.Cache.Access: one atomic step; nothing is claimed about the gap between unlocking and relocking at proxy-lab/cache.c:20-23.
- ProxyCache.Cache.EvictTail: freeing of the evicted object is not modelled.
- Proxy.DealRequest: starts at the lookup; the request lines sent to the server, `clienterror`, `parse_url` and sockets are not modelled, and requests follow one another; a hard read error ends the process in the error wrappers, so `Session` is about servers without one.
- Rio.Descriptor.Read: the interruptions and chunk sizes are a finite list fixed in advance, followed by full reads; the list is arbitrary.
- Sio.Ltoa: negating the least long is taken to wrap around, which C leaves undefined; bases outside 2..36 are not modelled.
- Transpose.TransposeSubmit: the 61 by 67 branch reads and writes beyond the declared shapes (columns 61 and 62) and is not modelled; A and B must not alias.
- `rio_readn`, `rio_writen` and the error wrappers of csapp.c: easy members beside the buffered reads.
- `shell-lab`, `data-lab`, `arch-lab`, `attack-lab` and `bomb-lab`: process control, fixed-width puzzles and machine-level work.
