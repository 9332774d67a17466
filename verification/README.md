# Verified model of xi's allocator, record ring, buffers and pipes

A Dafny 4.11 model of four parts of the xi repository, with proofs of what they are for.
`dafny verify dfyconfig.toml` checks it.

**The page, span and pool allocator** (`src/core/memory/memory.cpp`). The `#define` near the top of
that file compiles it out of the current build; the source is complete and is what is modelled.

- `Bits`, `PageModel`, `PageOps`, `PageRuns`, `PageSafety`: the pool of pages as a value. Pages are
  exactly tiled by spans, each free span is on exactly the list of its size, no two free spans are
  adjacent, and the free counter is exact. Every operation is a function that keeps this, and whole
  runs refine a ledger of who holds what.
- `PageLists`, `PageTags`, `CpuMemory`: the code's own form, an array of page structures with
  boundary tags and 32 intrusive lists by index, whose methods are proved to act as those functions.
  Only the head and tail page of a span carry true tags; interior tags and pool fields may hold
  anything, and the proofs show that this is never read.
- `SizeClasses`, `SmallModel`, `SmallFrames`, `SmallPools`: size classes and the small-object pools
  over the page allocator. Every carved object is held, on the pool's list or on its span's list.
- `Allocators`: 57 pools over one page allocator. Which blocks are live and where each comes from, that
  they are disjoint from each other and from the pools' links, and that `free` finds the origin of
  each; the same through shrinking, growing and the clients' own writes.
- `FreeChains`: singly linked lists through the blocks' first words.
- `CrossCpu`: the lock-free stack on which other CPUs return blocks, as a state machine with one step
  per memory access, for any number of freeing calls at once.

**The record ring** (`xi/util/polymorphic_sp_sc_ring_buffer.h`). `RingModel` is the two threads as a
state machine, every load, every word written and every index store a step of its own; a load of the other
thread's index may return any value it has had since the last such load. `RingBuffers` is the class,
each method proved to be the composition of its thread's steps. Words are kept at the byte index they
start at; all accesses are at multiples of eight. The reads of a header where fewer than eight bytes
remain reach past the buffer in the code; their value does not matter there and is not modelled.

**The fragment chain** (`src/io`, `xi/io`). `ChainModel` has windows into one byte memory and their
flat content; `Chain` the fragments and buffers as objects that methods change; `Readers` the reader
and the string; `Guards` and `Blobs` who keeps a block of memory alive, and when it is freed;
`OwnedChains` the chain together with its fragments' blobs.

**The filter pipe's routing links** (`xi/io/pipes`): `Pipes`.

Naming: lemmas whose names end in `Is`, `Plan`, `Parts` or `From` only unfold a definition or prepare
facts for a method.

Conventions. Sizes and addresses are unbounded integers except where the code's width matters, and
there it is written out: 32-bit page arithmetic (`u32`, the wrapping `2u << idx`, the 32-bit
`align_up`), 8- and 16-bit counters in the page structure, the wrapping `size_t` of
`write_available`, the cut to `i32` in `compare`. Addresses in the allocator count from the start of
its memory. A page structure takes 32 bytes and a page 4096, so the bootstrap pool of 8192 pages keeps
65 pages for its page array. The waste of a pool's span is compared as an exact fraction instead of in
floating point; the comparison never decides (WasteNeverDecides). Memory the allocator has newly mapped
is zero.

Where the code and what is said of it differ, the code is followed: `find_and_unlink_span` throws for
every request above 2^30 pages, since its guard wraps to zero; `free` with a size may pick another
pool than an aligned block came from; `coalesce` from inside a fragment may not bring the bytes together, or
run off the end of the list; a fragment without headroom split at 0 loses its size; a blob moved from
keeps its window; `skip_any_not_of_and_mark` with an empty pattern returns the buffer's size, not the
distance moved; `compare` cuts a difference of lengths to 32 bits; `resize` of a pool nobody has used never
ends; `consume_mark_into_string` dereferences null when nothing is marked, which is when
`consume_mark_into_buffer` returns null. Each has a member below that says exactly when it matters.

## Model

| member | source | states |
|---|---|---|
| Bits.AlignUpLeast | xi/ext/align.h:10-13 | for a power-of-two alignment, the masked sum is the least multiple not below the value, as long as it fits the width |
| Bits.AlignDownGreatest | xi/ext/align.h:21-24 | the masked value is the greatest multiple not above the value |
| Bits.MaskIsRounding | xi/ext/align.h:10-24 | and-ing with the complement of 2^k - 1 is rounding down to a multiple of 2^k |
| PageModel.IndexOfIsFloorLog2 | src/core/memory/memory.cpp:381-385 | the list of a span of n pages is the floor of the binary logarithm, below 32 |
| PageModel.ConservativeIndex | src/core/memory/memory.cpp:387-394 | the conservative index is the least c with n <= 2^c, and equals the exact index just for powers of two |
| PageModel.PickSound | src/core/memory/memory.cpp:436-462 | whatever the search picks is a free span of at least n pages on the list of its own size |
| PageModel.PickComplete | src/core/memory/memory.cpp:436-462 | the search finds nothing only if no free span has n pages, the floor-list fallback included |
| PageModel.PickFinds | src/core/memory/memory.cpp:436-462 | the search succeeds exactly when some free span has n pages |
| PageModel.PickGoodFit | src/core/memory/memory.cpp:436-462 | where spans are long enough for a power of two that holds the request, the one picked is less than twice as long as any of them, and the head of its list |
| PageOps.FreeSpanMerges | src/core/memory/memory.cpp:415-434 | freeing coalesces with exactly the free span in front and the one behind |
| PageOps.FreeSpanCore | src/core/memory/memory.cpp:404-434 | freeing keeps the exact tiling, and each free span on exactly the list of its size |
| PageOps.FreeSpanPages | src/core/memory/memory.cpp:404-434 | the free pages afterwards are those before and the freed ones, disjointly, and the counter is exact |
| PageOps.FreeSpanNoAdjacent | src/core/memory/memory.cpp:415-434 | freeing leaves no two free spans adjacent |
| PageOps.TakeCore | src/core/memory/memory.cpp:477-508 | cutting a found span into trim, allocation and rest keeps the tiling and the lists |
| PageOps.TakePages | src/core/memory/memory.cpp:477-508 | the free pages shrink by exactly the pages handed out |
| PageRuns.InitializedInv | src/core/memory/memory.cpp:637-670 | the bootstrap pool satisfies the whole invariant, with its page array's 65 pages kept out of it |
| PageRuns.SearchThrowsExactly | src/core/memory/memory.cpp:439-441 | the overflow guard throws for n > 2^30 pages and for no other n up to 2^31, because 2u << idx wraps to 0 |
| PageRuns.AllocLargeOk | src/core/memory/memory.cpp:510-517 | allocation keeps the invariant; null only when no free span has n pages; otherwise n pages that were free are one span in use and nothing else in use changes |
| PageRuns.TrimFits | src/core/memory/memory.cpp:519-525 | the trim offset of an aligned allocation is below the alignment and the carved span fits what was found |
| PageRuns.AllocAlignedOk | src/core/memory/memory.cpp:519-525 | as for plain allocation, and the page is a multiple of the alignment |
| PageRuns.AllocLargeFront | src/core/memory/memory.cpp:477-517 | what is handed out are the first pages of a free span that is a good fit |
| PageRuns.AllocAlignedFront | src/core/memory/memory.cpp:477-525 | or, aligned, those from the first multiple of the alignment in such a span |
| PageRuns.FreeFull | src/core/memory/memory.cpp:534-538 | free_large releases exactly the span and keeps the whole invariant |
| PageRuns.ShrinkFull | src/core/memory/memory.cpp:609-627 | shrink keeps the first pages allocated, frees the rest, and keeps the whole invariant |
| PageRuns.MovedOk | src/core/memory/memory.cpp:716-755 | relocating the page array keeps every allocated span, gives back exactly the old array's pages (keeping page 0) and adds exactly the new pages |
| PageRuns.MovedFull | src/core/memory/memory.cpp:716-755 | relocation re-establishes the whole invariant |
| PageRuns.GrowOk | src/core/memory/memory.cpp:716-755 | growing either changes nothing, for want of room for the new array, or is a relocation; the invariant holds in both cases |
| PageRuns.ArrayPagesFit | src/core/memory/memory.cpp:731-733 | the page array takes the fewest pages that hold 32 bytes for every page and the sentinel |
| PageRuns.GrowthRoom | src/core/memory/memory.cpp:716-755 | growing is refused exactly when no free span holds the new page array; otherwise all the new pages are free afterwards, in one span |
| PageSafety.StepInv | src/core/memory/memory.cpp:404-755 | every legal call keeps the whole invariant |
| PageSafety.StepLedger | src/core/memory/memory.cpp:404-755 | each call changes the set of allocated spans as a ledger of requests says, and no other span |
| PageSafety.RunRefinesLedger | src/core/memory/memory.cpp:404-755 | after any run of legal calls the invariant holds and the allocated spans are those the ledger of the run names |
| PageSafety.Conservation | src/core/memory/memory.cpp:404-755 | in every state each page is either free or in exactly one span in use, and the counter is the number of free pages |
| PageSafety.ClientsApart | src/core/memory/memory.cpp:477-538 | allocated spans never overlap |
| PageSafety.Canonical | src/core/memory/memory.cpp:404-434 | the allocated spans determine the free spans: the pool's shape does not depend on the order of the calls |
| PageSafety.AllocThenFree | src/core/memory/memory.cpp:477-538 | allocating and freeing again restores the pool's spans |
| PageLists.PushThreaded | src/core/memory/memory.cpp:185-195 | pushing on an intrusive list spells out the list with the new head, both ways |
| PageLists.EraseThreaded | src/core/memory/memory.cpp:173-184 | erasing any element spells out the list without it, both ways |
| PageLists.PageList.PushFront | src/core/memory/memory.cpp:185-195 | the list gains the page at its head and only links of listed pages are written |
| PageLists.PageList.Erase | src/core/memory/memory.cpp:173-184 | the list loses just that page |
| PageLists.PageList.PopFront | src/core/memory/memory.cpp:196-203 | the list loses its head |
| PageLists.PageList.Find | src/core/memory/memory.cpp:204-213 | the first listed span of at least n pages, or none when there is none |
| PageTags.BeforeTag | src/core/memory/memory.cpp:415-424 | the tag read in front of a span tells truly whether a free span ends there and how long it is: stale interior tags are never what is read |
| PageTags.AfterTag | src/core/memory/memory.cpp:425-432 | the tag read behind a span is that of the next span or of the sentinel, and true |
| CpuMemory.CpuPages.constructor | src/core/memory/memory.cpp:304-330 | an untouched pool, its lists empty |
| CpuMemory.CpuPages.Unlink | src/core/memory/memory.cpp:396-398 | page_list::erase keeps the other lists threaded |
| CpuMemory.CpuPages.Link | src/core/memory/memory.cpp:400-402 | page_list::push_front keeps the other lists threaded |
| CpuMemory.CpuPages.FreeSpanNoMerge | src/core/memory/memory.cpp:404-413 | acts on the page array as the abstract step, tags, counter and list included |
| CpuMemory.CpuPages.FreeSpan | src/core/memory/memory.cpp:415-434 | acts as the abstract coalescing free; small-pool fields of pages are left alone |
| CpuMemory.CpuPages.FindAndUnlinkSpan | src/core/memory/memory.cpp:436-462 | throws, returns null or unlinks the span the abstract search picks, initialising first if need be |
| CpuMemory.CpuPages.AllocateLargeAndTrim | src/core/memory/memory.cpp:477-508 | the found span is cut as the trimmer says and tagged |
| CpuMemory.CpuPages.AllocateLarge | src/core/memory/memory.cpp:510-517 | refines the abstract allocation, outcome and new state |
| CpuMemory.CpuPages.AllocateLargeAligned | src/core/memory/memory.cpp:519-525 | refines the abstract aligned allocation, with the 32-bit align_up of the trimmer |
| CpuMemory.CpuPages.FreeLarge | src/core/memory/memory.cpp:534-538 | refines the abstract free, reading the length from the head page's tag |
| CpuMemory.CpuPages.Shrink | src/core/memory/memory.cpp:609-627 | refines the abstract shrink; spans of small pools are left alone |
| CpuMemory.CpuPages.Initialize | src/core/memory/memory.cpp:637-670 | sets up the bootstrap pool once |
| CpuMemory.CpuPages.CopyPages | src/core/memory/memory.cpp:735-746 | the copied page structures, small-pool fields and links included, represent the same spans, lists and sentinel, whatever the new array held before |
| CpuMemory.CpuPages.DoResize | src/core/memory/memory.cpp:716-755 | refines the abstract growth; the pages of the old pool keep their small-pool fields, and those heading a live span their links |
| CpuMemory.RelocationReadsTrueTag | src/core/memory/memory.cpp:739-754 | in every reachable pool, and for every content of fresh memory, the tag read behind the returned old array is true |
| SizeClasses.ClassHolds | src/core/memory/memory.cpp:251-270 | the class of a request holds it and overshoots by less than a quarter of it |
| SizeClasses.ClassLeast | src/core/memory/memory.cpp:251-270 | no smaller class holds the request |
| SizeClasses.ClassesMonotone | src/core/memory/memory.cpp:251-255 | class sizes grow with the index |
| SizeClasses.IdxRoundTrip | src/core/memory/memory.cpp:251-270 | from index 8 on the class of a class's size is that class |
| SizeClasses.PoolsInUse | src/core/memory/memory.cpp:272-298 | there are 57 pools, the largest of 16384 bytes, and every request up to that has one |
| SizeClasses.PowerClass | src/core/memory/memory.cpp:966-980 | a request rounded up to a power of two has a pool of exactly that size |
| SizeClasses.SmallAligned | src/core/memory/memory.cpp:966-980 | an object of 2^k bytes in a page-aligned span meets every smaller alignment up to the page |
| SizeClasses.SpanSize | src/core/memory/memory.cpp:815-824 | the span-sizing loop ends with the least power of two of pages that holds 32 objects; it has at most 128 pages and holds at most 4096 objects |
| SizeClasses.WasteNeverDecides | src/core/memory/memory.cpp:815-824 | the span is doubled exactly while it holds fewer than 32 objects: the tests of the object's size and of the waste never decide |
| SizeClasses.SizedPoolServes | src/core/memory/memory.cpp:954-964 | up to 16384 bytes a request is served from the least class that holds it and a link, which wastes less than a quarter; above that from whole pages |
| SizeClasses.AlignedPoolServes | src/core/memory/memory.cpp:966-980 | an aligned request gets an object of the least power of two that holds it, its alignment and a link, if that is at most 16384 and the alignment at most a page; else whole pages |
| SmallModel.CarveFresh | src/core/memory/memory.cpp:888-895 | the object carved next was no object before |
| SmallModel.NoneMissing | src/core/memory/memory.cpp:914-918 | when a span's counter reaches zero every object carved from it is on its own list: none is held, none is loose |
| SmallModel.PopLooseCore | src/core/memory/memory.cpp:835-848 | taking the head of the pool's list keeps the partition of the objects |
| SmallModel.PushLooseCore | src/core/memory/memory.cpp:850-858 | returning a held object keeps it |
| SmallModel.ToListCore | src/core/memory/memory.cpp:902-914 | moving an object to its span's list keeps it, and the span list in step |
| SmallModel.FromListCore | src/core/memory/memory.cpp:865-872 | moving an object back keeps it |
| SmallModel.CarveOneCore | src/core/memory/memory.cpp:888-895 | carving an object keeps it |
| SmallModel.DropSpanCore | src/core/memory/memory.cpp:914-918 | returning a span keeps it, and takes no held object away |
| SmallModel.KeptCore | src/core/memory/memory.cpp:826-919 | what leaves a pool's spans and the first words of its free objects alone keeps its invariant: clients may write to what they hold |
| SmallFrames.AllocateKept | src/core/memory/memory.cpp:510-517 | the page allocator's allocation leaves the spans, counters, lists and links of all small pools alone |
| SmallFrames.FreeKept | src/core/memory/memory.cpp:415-434 | so does its free, but for the span freed |
| SmallFrames.ShrinkKept | src/core/memory/memory.cpp:609-627 | and its shrink, of a large span |
| SmallFrames.GrowthKept | src/core/memory/memory.cpp:716-755 | and growth with relocation of the page array |
| SmallPools.SpanOfObject | src/core/memory/memory.cpp:909-910 | the page an object lies in leads to the head of its span, and names its pool |
| SmallPools.SmallPool.constructor | src/core/memory/memory.cpp:815-824 | an empty pool; its span is the least that will do, its limit two spans of objects or 100, and its lower limit half of that |
| SmallPools.SmallPool.Carve | src/core/memory/memory.cpp:888-895 | a new span is carved completely, and counted |
| SmallPools.SmallPool.Adopt | src/core/memory/memory.cpp:880-887 | an allocated span becomes the pool's; every other span stays as it is |
| SmallPools.SmallPool.AddSpanOfObjects | src/core/memory/memory.cpp:874-896 | a new span of objects, or none when the page allocator has none |
| SmallPools.SmallPool.Refill | src/core/memory/memory.cpp:862-873 | the first span of the span list gives up its free objects |
| SmallPools.SmallPool.AddMoreObjects | src/core/memory/memory.cpp:860-897 | refills to the mean of the two limits and by less than a span beyond it, from the listed spans in order and only then from new ones; falls short only if no listed span and no long enough free span is left; the pool stays empty only if every object is held besides |
| SmallPools.SmallPool.RefillListed | src/core/memory/memory.cpp:862-873 | spans leave the front of the span list, each giving up all its free objects, until the goal is reached or none is left; the page allocator is not asked |
| SmallPools.SmallPool.MoveToSpan | src/core/memory/memory.cpp:902-914 | one object to its span's list, the span listed if it was not |
| SmallPools.SmallPool.ReturnSpan | src/core/memory/memory.cpp:914-918 | the span goes back to the page allocator, and only objects on its own list go with it |
| SmallPools.SmallPool.TrimFreeList | src/core/memory/memory.cpp:899-919 | ends at the mean of the two limits exactly, and never below the lower one; no held object is touched |
| SmallPools.SmallPool.Allocate | src/core/memory/memory.cpp:835-848 | an object nobody held, the one freed last if any is free, or null when the pool is exhausted; an empty pool is refilled to the mean of its limits, if there is room; all other held objects stay held, other pools and large spans untouched |
| SmallPools.SmallPool.Deallocate | src/core/memory/memory.cpp:850-858 | exactly that object stops being held; a free list that reaches the limit is trimmed to the mean of the two limits, which leaves at least the lower limit and a quarter of the upper one to go; other pools and large spans untouched |
| Allocators.LiveApart | src/core/memory/memory.cpp:499-548 | live blocks, large and small together, are pairwise disjoint; one address has one block, of one origin |
| Allocators.FreeApart | src/core/memory/memory.cpp:145-147 | the free objects, whose first words are the pools' links, are disjoint from every live block |
| Allocators.LiveDisjoint | src/core/memory/memory.cpp:954-985 | the same in every state that allocation, both frees, shrinking, growth and clients' writes to their own blocks can reach |
| Allocators.Dispatch | src/core/memory/memory.cpp:579-590 | the pool field of the page a live block begins in names the pool it came from, or none for a large block, however stale other pages are |
| Allocators.Allocator.constructor | src/core/memory/memory.cpp:272-298 | 57 pools over one page allocator, nothing live |
| Allocators.Allocator.AllocateSmall | src/core/memory/memory.cpp:527-532 | an object of the least class that will do, or null when that pool is exhausted |
| Allocators.Allocator.AllocatePages | src/core/memory/memory.cpp:510-517 | whole pages for a request in bytes |
| Allocators.Allocator.AllocateAlignedPages | src/core/memory/memory.cpp:519-525 | the same at a multiple of the alignment in bytes |
| Allocators.Allocator.Allocate | src/core/memory/memory.cpp:954-964 | a block that was not live, of the least class that holds the bytes asked for, or above 16384 of exactly the whole pages; nothing else becomes or stops being live, and no word of a live block is written; null and bad_alloc exactly explained |
| Allocators.Allocator.AllocateAligned | src/core/memory/memory.cpp:966-980 | the same, of the least power of two or of exactly the whole pages, at a multiple of every power-of-two alignment, on the small path too; it throws exactly above 2^30 pages and is null only for want of room |
| Allocators.Allocator.Free | src/core/memory/memory.cpp:579-590 | the block goes back to its origin; exactly it stops being live, and no word of another live block is written |
| Allocators.Allocator.Drain | src/core/memory/memory.cpp:566-577 | freeing a list of live blocks one by one, each after its link has been read, ends with exactly these blocks no longer live and no word of another written |
| Allocators.Allocator.FreeSized | src/core/memory/memory.cpp:592-607 | the free that is told the size gives the block back to its origin when that is the pool of the size |
| SizeClasses.SizedAfterAligned | src/core/memory/memory.cpp:592-607 | for a block of an aligned allocation it is exactly when the size is above seven eighths of the power of two served, or, on the large path, above 16384 |
| SizeClasses.SizedMissesAligned | src/core/memory/memory.cpp:592-607 | it is not for 80 bytes aligned to 64, nor for 100 bytes aligned to two pages |
| Allocators.Allocator.Shrink | src/core/memory/memory.cpp:609-627 | a large block keeps its first bytes in whole pages; small blocks and all other blocks stay as they are |
| Allocators.Allocator.GrowTo | src/core/memory/memory.cpp:716-755 | no block comes, goes or moves; it fails exactly without room for the new page array, and then changes nothing; otherwise the new pages are free, in one span |
| Allocators.Allocator.Resize | src/core/memory/memory.cpp:757-766 | it succeeds exactly when there is room for the page array of the first step, which is at most fourfold, so whenever a free span has nr / 32 + 2 pages; then the pool has the size in whole huge pages, and otherwise nothing has changed; no block is touched |
| Allocators.ResizeStuck | src/core/memory/memory.cpp:757-766 | on a pool nobody has used, every step of growing to some pages asks for four times none and changes nothing, so that the loop never ends |
| Allocators.ArrayApart | src/core/memory/memory.cpp:716-755 | no live block reaches into the pages of the page array |
| Allocators.Allocator.ClientWrite | src/core/memory/memory.cpp:145-147 | a client's write to its own block keeps the allocator's invariant and everybody's blocks |
| Allocators.Allocator.ObjectSize | src/core/memory/memory.cpp:540-548 | the true size of a live block |
| CrossCpu.StepKeepsInv | src/core/memory/memory.cpp:550-577 | every step of any freeing CPU and of the owner keeps the invariant: links, one place per block, conservation |
| CrossCpu.SwapKeeps | src/core/memory/memory.cpp:559-562 | a successful compare-and-swap pushes the block, even if the stack was taken and rebuilt in between |
| CrossCpu.FreeItemKeeps | src/core/memory/memory.cpp:571-575 | freeing a block, and letting its first word be overwritten, loses nothing once its link has been read |
| CrossCpu.FreedExactlyOnce | src/core/memory/memory.cpp:550-577 | under every interleaving no block is freed more often than given, and at rest each was freed, or leaked by an ended owner, exactly as often |
| CrossCpu.FreesOnlyGiven | src/core/memory/memory.cpp:566-577 | what the owner frees was given to it, is held by nobody, and is the pool's afterwards; its list shrinks whatever is pushed |
| CrossCpu.LeaksWhenEnded | src/core/memory/memory.cpp:550-564 | a block given to a live owner starts a push and is not leaked; one given to an ended owner is leaked and not pushed; no other step leaks or gives any |
| CrossCpu.LeaksExactly | src/core/memory/memory.cpp:550-564 | over a whole run exactly the blocks given after the owner's end are leaked |
| CrossCpu.NothingLeaks | src/core/memory/memory.cpp:550-577 | while the owner lives nothing is leaked, and at rest each block has been freed as often as the run gave it |
| CrossCpu.StepKeepsBlocks | src/core/memory/memory.cpp:550-577 | no step loses a block or makes one up, but for the one leaked |
| CrossCpu.Drains | src/core/memory/memory.cpp:550-577 | from every state a run can reach, a live owner can still free all it has been given |
| CrossCpu.ReadAfterFreeLoses | src/core/memory/memory.cpp:571-575 | if the link were read after the free, the invariant would survive for no content of the freed word but the link itself |
| RingModel.PlanExactly | xi/util/polymorphic_sp_sc_ring_buffer.h:70-104 | by the reader index loaded, a push is refused exactly when neither the space up to the end nor that before the reader holds the record and, unforced, the reserve |
| RingModel.FreeForward | xi/util/polymorphic_sp_sc_ring_buffer.h:70-104 | what is clear by a stale reader index is clear by every later one |
| RingModel.StepKeepsInv | xi/util/polymorphic_sp_sc_ring_buffer.h:48-167 | every load, write and store of either thread, in any interleaving and with loads as stale as may be, keeps the invariant |
| RingModel.RunIsFifo | xi/util/polymorphic_sp_sc_ring_buffer.h:48-167 | after any such run the popped records are a prefix of the pushed ones and the rest is queued in order |
| RingModel.NextNullIffEmpty | xi/util/polymorphic_sp_sc_ring_buffer.h:48-56 | next returns null exactly when all records pushed before the value it loaded was stored have been popped; for the latest value, exactly when nothing is unread |
| RingModel.NextIsOldest | xi/util/polymorphic_sp_sc_ring_buffer.h:57-67 | the block next returns holds the oldest unread record, and pop removes just that |
| RingModel.RecheckPasses | xi/util/polymorphic_sp_sc_ring_buffer.h:145-152 | pop after next never finds the ring empty, however stale its load |
| RingModel.WrapReachesRecord | xi/util/polymorphic_sp_sc_ring_buffer.h:57-66 | following the wrap rule leads to a record |
| RingModel.PublishLeavesReserve | xi/util/polymorphic_sp_sc_ring_buffer.h:101-118 | after a push the indices differ, the write index is inside the ring, and an unforced push has left the reserve |
| RingModel.ProducerSparesUnread | xi/util/polymorphic_sp_sc_ring_buffer.h:106-117 | no word the producer writes, of the marker or of a record, overwrites an unread one, however stale the reader index it went by |
| RingModel.ProducerInside | xi/util/polymorphic_sp_sc_ring_buffer.h:106-117 | every word the producer writes ends inside the ring, and is the only one that step changes |
| RingModel.MarksExactly | xi/util/polymorphic_sp_sc_ring_buffer.h:89-112 | the marker is written exactly where the producer goes back to the start and more than eight bytes are left behind the write index |
| RingModel.GoesBackExactly | xi/util/polymorphic_sp_sc_ring_buffer.h:57-63 | the reader goes back to the start exactly at a marker or where no more than eight bytes are left |
| RingModel.RecordIs | xi/util/polymorphic_sp_sc_ring_buffer.h:75-80 | a record is its words behind one word that holds the size of both in bytes |
| RingModel.AvailableIs | xi/util/polymorphic_sp_sc_ring_buffer.h:38-46 | write_available is one less than the way from the write index round to the read index |
| RingBuffers.WriteAvailableIs | xi/util/polymorphic_sp_sc_ring_buffer.h:38-46 | the wrapping 64-bit computation is the free space less one |
| RingBuffers.PushedIs | xi/util/polymorphic_sp_sc_ring_buffer.h:70-119 | a whole push, step by step, appends the record or changes nothing |
| RingBuffers.LookedIs | xi/util/polymorphic_sp_sc_ring_buffer.h:48-67 | a whole next leaves the queue alone and ends at a record unless the queue is empty |
| RingBuffers.PoppedIs | xi/util/polymorphic_sp_sc_ring_buffer.h:145-166 | a whole pop removes the oldest record |
| RingBuffers.RingBuffer.constructor | xi/util/polymorphic_sp_sc_ring_buffer.h:30-33 | an empty ring |
| RingBuffers.RingBuffer.DoPush | xi/util/polymorphic_sp_sc_ring_buffer.h:70-119 | the record goes to the end of the queue, or nothing changes; what is written is the record's words at their place and the marker, just where the record does not fit behind the write index and more than eight bytes are left |
| RingBuffers.RingBuffer.NextReadableBlock | xi/util/polymorphic_sp_sc_ring_buffer.h:48-67 | the oldest record's place, or null exactly when the queue is empty |
| RingBuffers.RingBuffer.Pop | xi/util/polymorphic_sp_sc_ring_buffer.h:145-166 | removes the oldest record, or only follows the marker when it stands at one |
| Chain.Fragment.Write | src/io/fragment.cpp:43-49 | as many bytes as the tailroom holds are appended |
| Chain.Fragment.Read | src/io/fragment.cpp:51-59 | a slice of the data is copied |
| Chain.Fragment.SkipBytes | src/io/fragment.cpp:61-68 | a prefix of the data goes; the data's end stays |
| Chain.Fragment.IgnoreBytesAtEnd | src/io/fragment.cpp:70-75 | a suffix of the data goes; their start stays |
| Chain.Fragment.Split | src/io/fragment.cpp:84-105 | the data and the window are cut in two, at the same byte: the front keeps its headroom, the back the tailroom; bytes are lost exactly when a fragment without headroom is split at 0 |
| Chain.Fragment.Clone | src/io/fragment.cpp:76-82 | another fragment over the same bytes |
| ChainModel.SplitFragOk | src/io/fragment.cpp:84-105 | the two parts hold the data before and behind the cut in disjoint windows inside the old one |
| ChainModel.SplitWindows | src/io/fragment.cpp:98-103 | the two windows make up the old one: the front ends where the back begins, the back where the old one ends |
| ChainModel.CursorFlat | xi/io/detail/buffer_utils.h:11-17 | the cursor of an offset divides the flat content at that offset |
| ChainModel.SplitFlat | src/io/buffer.cpp:88-93 | cutting a fragment in two changes neither content nor disjointness |
| ChainModel.GatherDone | src/io/buffer.cpp:136-142 | copying whole fragments to the end of the first and freeing them leaves the content as it was |
| ChainModel.ShiftPart | src/io/buffer.cpp:143-146 | so does moving the first bytes of the next fragment |
| ChainModel.CursorUnique | xi/io/detail/buffer_utils.h:11-17 | an offset inside the chain has one cursor |
| Chain.SkipOffset | xi/io/detail/buffer_utils.h:11-17 | stops in the fragment the offset falls into, at the end otherwise, passing empty fragments |
| Chain.SkipOffsetBack | xi/io/detail/buffer_utils.h:11-17 | the same over reverse iterators |
| Chain.Buffer.PushBack | src/io/buffer.cpp:51-57 | the contents are joined, for unaliased buffers |
| Chain.Buffer.PushFront | src/io/buffer.cpp:43-49 | the contents are joined the other way round |
| Chain.Buffer.Split | src/io/buffer.cpp:77-101 | returned bytes followed by remaining ones are the original, the returned part is the first min(sz, size), both sizes are exact, the windows stay disjoint, and the room in front of the data and behind them is what it was |
| Chain.Buffer.Coalesce | src/io/buffer.cpp:103-147 | content and size unchanged; min(length, size - offset) bytes are contiguous from the offset on exactly when the offset is between two fragments or they were contiguous before, and then nothing changes; a fragment is allocated exactly when the first has no room for them |
| ChainModel.CoalesceRunsOff | src/io/buffer.cpp:122-141 | in every case in which the first fragment has room but is longer than the bytes asked for from inside it, the 64-bit count wraps and the loop passes the last fragment with bytes still missing |
| ChainModel.CoalesceFails | src/io/buffer.cpp:122-141 | for example with two fragments of 4 bytes, offset 2 and length 3 |
| Chain.Buffer.Range | src/io/buffer.cpp:157-167 | the right bytes, and all that were asked for in exactly these cases |
| Chain.Buffer.Clone | src/io/buffer.cpp:149-155 | another buffer of the same content and fragmentation; the original stays as it is |
| Chain.Buffer.Read | src/io/buffer.cpp:169-188 | copies the slice of the content at the offset |
| Chain.Buffer.Write | src/io/buffer.cpp:190-198 | appends what the last fragment's tailroom holds |
| Chain.Buffer.SkipBytes | src/io/buffer.cpp:200-225 | drops a prefix of the content, freeing the fragments passed or keeping them empty; no fragment's data end elsewhere |
| Chain.Buffer.IgnoreBytesAtEnd | src/io/buffer.cpp:227-249 | drops a suffix of the content, freeing or keeping likewise; no fragment's data begin elsewhere |
| Readers.Reader.ReadValue | xi/io/buffer_reader.h:19-27 | the bytes at the mark, if there are enough |
| Readers.Reader.ReadValueAndMark | xi/io/buffer_reader.h:45-52 | the same, and the mark moves behind them |
| Readers.Reader.ReadValueAndSkip | xi/io/buffer_reader.h:63-71 | the same, and everything up to their end leaves the buffer |
| Readers.Reader.MarkOffset | xi/io/buffer_reader.h:143-148 | the mark moves by what is unmarked at most |
| Readers.Reader.DiscardToMark | xi/io/buffer_reader.h:150-155 | the marked bytes leave the buffer |
| Readers.Reader.ConsumeMarkIntoBuffer | xi/io/buffer_reader.h:157-162 | the marked bytes become a buffer of their own, or null exactly when there are none |
| Readers.Reader.ConsumeMarkIntoString | xi/io/buffer_reader.h:164-168 | the marked bytes become a string |
| Readers.Reader.FindByte | xi/io/buffer_reader.h:196-217 | the first occurrence behind the offset, relative to it, or none |
| Readers.Reader.SkipAnyOfAndMark | xi/io/buffer_reader.h:170-194 | the mark moves over the longest run of pattern bytes |
| Readers.Reader.SkipAnyNotOfAndMark | xi/io/buffer_reader.h:78-83 | the mark moves to the first pattern byte or the end; the value returned is the distance exactly when the pattern is not empty or nothing was marked |
| Readers.FragmentString.Compare | src/io/fragment_string.cpp:25-45 | the sign of the first difference of bytes, or the difference of lengths cut to 32 bits |
| Readers.CompareSays | src/io/fragment_string.cpp:25-45 | the first byte that differs decides, by its difference; if one text begins with the other, the difference of the lengths as a 32-bit number does |
| Readers.CompareIsOrder | src/io/fragment_string.cpp:25-45 | that has the sign of lexicographic order for sizes below 2^31 |
| Readers.CompareCut | src/io/fragment_string.cpp:33-44 | for all sizes the sign is right exactly when a byte decides or the cut to 32 bits keeps the sign of the difference of the lengths |
| Readers.FragmentString.CopyToString | src/io/fragment_string.cpp:68-79 | the first min(sz, size) bytes of the flat content |
| Guards.OwnedIsHeld | xi/io/detail/guard.h:73-79 | a block is owned exactly when some guard keeps it alive |
| Guards.UpgradeSound | xi/io/detail/guard.h:129-131 | the upgrade from direct-free tag to counted owner keeps every block owned once |
| Guards.AddRefSound | xi/io/detail/guard.h:132-133 | the count stays the number of guards |
| Guards.DropOwners | xi/io/detail/guard.h:73-79 | destroying a guard ends the ownership of its block exactly when it was the last |
| Guards.MoveSound | xi/io/detail/guard.h:49-50 | moving a guard changes no count and no owner |
| Guards.GuardHeap.MakeSimple | xi/io/detail/guard.h:161-166 | a direct guard of a block, or an empty one |
| Guards.GuardHeap.Share | xi/io/detail/guard.h:125-134 | one more guard of the same block, upgrading a tagged one; nothing is freed |
| Guards.GuardHeap.Move | xi/io/detail/guard.h:49-50 | the block changes hands |
| Guards.GuardHeap.Destroy | xi/io/detail/guard.h:73-79 | the block is freed exactly when no other guard keeps it alive |
| Guards.GuardHeap.Assign | xi/io/detail/guard.h:81-87 | the old block is freed exactly when no other guard keeps it alive, the new one taken over |
| Guards.FreedOnce | xi/io/detail/guard.h:73-134 | in every reachable state a block given out has been freed, once, exactly when no guard keeps it alive |
| Blobs.BlobHeap.Make | xi/io/byte_blob.h:39-41 | a blob over a whole block |
| Blobs.BlobHeap.Clone | xi/io/byte_blob.h:43-45 | the same window, one more guard |
| Blobs.BlobHeap.Share | xi/io/byte_blob.h:136-142 | a window into the other's, one more guard |
| Blobs.BlobHeap.Split | xi/io/byte_blob.h:116-134 | two disjoint windows that make up the old one, both keeping the block alive |
| Blobs.BlobHeap.Assign | xi/io/byte_blob.h:47-54 | what was held is given up, freed exactly when no other blob keeps it alive, then the copy made; a blob assigned to itself stays |
| Blobs.BlobHeap.Move | xi/io/byte_blob.h:11 | the guard changes hands member by member: the source keeps its window but no block |
| Blobs.BlobHeap.MoveAssign | xi/io/byte_blob.h:11 | likewise, and what the destination held is freed exactly when no other blob keeps it alive |
| Blobs.BytesAlive | xi/io/byte_blob.h:39-54 | the bytes of a blob that has not been moved from lie in a block given out and not freed |
| Blobs.BlobHeap.Drop | xi/io/byte_blob.h:39-54 | the block is freed with the last blob derived from it, not before |
| Blobs.BlobHeap.DropAll | xi/io/byte_blob.h:39-54 | destroying several blobs frees a block, and frees it once, just when they were the last to keep it alive |
| OwnedChains.OwnedBuffer.SkipBytes | src/io/buffer.cpp:200-225 | the fragments that leave the chain give up their blobs and no other blob changes; a block is freed, once, just when it loses its last blob |
| OwnedChains.OwnedBuffer.IgnoreBytesAtEnd | src/io/buffer.cpp:227-249 | likewise at the end of the chain |
| OwnedChains.OwnedBuffer.Coalesce | src/io/buffer.cpp:103-147 | likewise for the fragments copied together; a fragment put in keeps its blob |
| OwnedChains.OwnedBuffer.Dispose | src/io/buffer.cpp:22-25 | likewise for all fragments |
| OwnedChains.FragmentAlive | src/io/fragment.cpp:6-18 | in every state these operations keep, the window of every fragment lies in a block given out and not freed |
| Pipes.Context.AddReadIfNull | xi/io/pipes/detail/links_impl.h:17-22 | the first later reader offered becomes the link |
| Pipes.Context.AddWriteIfNull | xi/io/pipes/detail/links_impl.h:40-45 | likewise for writers |
| Pipes.Context.Unlink | xi/io/pipes/detail/links_impl.h:24-51 | a link to the removed filter becomes that filter's own link |
| Pipes.PushLinked | xi/io/pipes/detail/pipe_base.h:28-36 | after push_back every link is the nearest later reader or earlier writer |
| Pipes.SkipEntry | xi/io/pipes/detail/pipe_link.h:44-53 | the nearest handler with one filter left out is the nearest, or the nearest beyond it |
| Pipes.UnlinkedLinks | xi/io/pipes/detail/pipe_base.h:38-47 | after unlinking and erasing every link is again the nearest handler |
| Pipes.Pipe.constructor | xi/io/pipes/detail/pipe_link.h:15-17 | an empty pipe |
| Pipes.Pipe.PushBack | xi/io/pipes/detail/pipe_base.h:28-36 | the filter joins at the end and all links and entry points are the nearest handlers, also while a removal is pending |
| Pipes.Pipe.Remove | xi/io/pipes/detail/pipe_control_interface.h:73-78 | the entry points leave the filter out at once |
| Pipes.Pipe.RunDeferred | xi/io/pipes/detail/pipe_base.h:38-47 | the filter leaves the pipe and all links are the nearest handlers again |
| Pipes.Pipe.Read | xi/io/pipes/detail/pipe_link.h:56-61 | a message every filter forwards visits exactly the filters that read its type, in order, and stops |
| Pipes.Pipe.Write | xi/io/pipes/detail/pipe_link.h:62-67 | likewise for writes, last filter first |
| Pipes.VisitedExact | xi/io/pipes/detail/pipe_link.h:56-67 | each of them once, and no other |
| Pipes.VisitedInOrder | xi/io/pipes/detail/pipe_link.h:56-67 | those of the first part of a pipe before those of the second; for a write the other way round |
| Pipes.NearestHandlers | xi/io/pipes/detail/pipe_base.h:28-36 | what a link points at: the later reader with none before it, the earlier writer with none behind it, nothing when there is none |

## Left out

- RingBuffers.RingBuffer.Pop: the ring's `pop` is modelled for a reader that stands at a record, a marker or the write index, as it always does after `next` has returned a block; at an unmarked wrap point the code reads past the ring.
- Chain.Buffer.Coalesce: the case CoalesceRunsOff is about is excluded, since there the code reads at the end of the list; a caller can tell it by the fragment the offset falls into. The allocator's result is a parameter: one empty fragment with room for the bytes.
- Chain.Buffer.Range: as Coalesce, which it calls.
- Pipes.Context.Unlink: reads and writes are relinked in one step for all message types, where the code goes through the types one by one.
- Guards.GuardHeap.Share: the guards of a chain made with `append` are not modelled; an owner has no next guard.
- CpuMemory.CpuPages.AllocateLarge: requests of 0 pages and above 2^31 pages are outside the model, since the code shifts by the word's width for them; reclaimers are no-ops and `current_min_free_pages` is 0, so the low-memory branch is never taken.
- CpuMemory.CpuPages.Shrink: to at least one page; `realloc` handles size 0 by freeing.
- Allocators.Allocator.Allocate: the sizes are those whose pages can be counted in 32 bits, as the code asserts.
- Allocators.Allocator.FreeSized: asks for the block's pool to be that of the size; what happens to the two pools otherwise is not modelled.
- Allocators.Allocator.Resize: up to the 2^36 bytes of addresses a CPU has, and not to some pages from a pool nobody has used, where the code's loop never ends (ResizeStuck); what fresh memory holds is a parameter.
- Readers.Reader.ConsumeMarkIntoString: asks for something to be marked; with nothing marked the code dereferences the null pointer that `split` returns.
- OwnedChains.OwnedBuffer: dropping, ignoring, coalescing and deleting; splitting, cloning and joining buffers are stated of the chain without its blobs (`Chain`) and of the blobs alone (`Blobs`). A fragment without bytes holds no block.
- Allocators.Allocator.ClientWrite: one word at a time, kept under its address; words that overlap without being at the same address are told apart by the disjointness of blocks and free objects.
- SmallPools.SmallPool.Allocate: for objects that hold a link, of 8 bytes and more; smaller requests are rounded up before they reach a pool.
- Mapping memory, huge pages, NUMA, statistics, the `malloc` and `new` entry points, `realloc`'s copy, and reclaim hooks.
- `ptr` to CPU arithmetic: a block of another CPU goes to the cross-CPU stack, a block of this one to `Free`.
- Weak memory ordering beyond stale loads of the indices and of the stack's head: the steps are interleaved one at a time, and what a release store has published is there.
- Writing after a fragment or buffer has been cloned: content is stated for chains whose windows do not overlap.
- Pushing single fragments onto a buffer, `next_data_range`, `advance`, `retreat`, `record_bytes`, `iovec_adapter`, and comparing two fragment strings.
- The pipe's `push_front`, a second removal before the first deferred one has run, and filters that do not forward.
- Message queues, channels, the scheduler, HTTP and socket code.
