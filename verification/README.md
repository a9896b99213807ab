# Cache and allocator model

A Dafny model of the repository's three stateful parts, with proofs about every run of each:

- **The pool allocator** (`PoolHeap` to `PoolLayout` and `PoolObject`). One arena tiled by blocks;
  headers linked in address order and through a doubly linked LIFO free list; first fit, splitting,
  over-alignment with a back-pointer, two-candidate header recovery, coalescing.
  `PoolObject.PoolAllocator` rewrites header records in a memory map as the source does. Every method
  is proved against a functional specification (`PoolHeap`) on tiles in address order, for which the
  theorems are proved. Stale headers and stale back-pointer words stay in memory.
- **The cache levels and the hierarchy** (`EvictionPolicy` and `PolicyHistory`; `CacheGeometry`,
  `CacheModel` and `CacheHooks`; `Replacement` and `CacheTraces`; `HierarchyModel` to
  `InclusiveConfigs`). Sets of lines with an LRU, FIFO or LFU policy object, address decomposition on
  64-bit words with real masks and shifts, one or two L1s over a unified L2 with three inclusion
  modes. Classes update lines, policies and counters in place and are proved against `CacheModel` and
  `HierarchyModel`.
- **The profiling bridge** (`Sweep`, `BridgeObject`), where the two meet.

`Basics` holds sequence facts. `Bits` holds machine-word arithmetic and gives masks, shifts and
rounding their arithmetic meaning.

The main theorems are `PoolRuns.EveryRunIsSafe`, `PoolTheorems.AllocateThenFree`,
`PoolTheorems.UseDeterminesLayout`, `PoolTheorems.AcceptedIffLiveOrAlias`,
`PoolTheorems.OutOfMemoryIffNothingFits`, `CacheHooks.EvictsByHistory`, `CacheTraces.LruResidency`,
`CacheTraces.OneMissPerWindow`, `Inclusion.InclusionIffFillsBelow`, `FlatMemory.MemoryIffWriteBack`,
`InclusiveMemory.InclusiveRunExact`, `HierarchyModel.TrafficConserved`,
`InclusiveConfigs.InclusiveMemoryIffNested`, `PoolObject.TrustedIffAdjoining` and
`BridgeObject.AllocateThenDeallocate`.

Conventions: exceptions are error results; counters and way numbers are naturals; an address is a
natural below 2^64 and 0 is null; a 64-bit word is a natural with `&`, `|` and shifts defined by bits.
Large definitions are hidden (`hide`) in proofs that do not need them.

## Where the code differs from its documentation

The model follows the code.

- **Double frees.** `include/allocator/pool_allocator.hpp:108-111` promises that a pointer that is not
  live is refused. The word below an over-aligned pointer stays behind when its block is freed, so the
  promise fails once a stricter allocation reuses the block: `PoolRuns.DoubleFreeAccepted` is such a
  run. `PoolTheorems.AcceptedIffLiveOrAlias` states exactly when, `PoolRuns.AliasFreesOther` what
  happens then. `PoolRuns.DoubleFreeCaught` and `PoolRuns.DoubleFreeCaughtOneAlignment` state the runs
  in which the promise is kept.
- **Write-through.** `src/cache/cache.cpp:165-167` counts a write hit as traffic to the next level, but
  the hierarchy returns at `src/cache/cache.cpp:278-281` without touching L2.
  `FlatMemory.MemoryIffWriteBack` shows that a write-back L1 is exactly what memory semantics needs.
- **Inclusive mode** drops dirty L1 data on back-invalidation (documented at
  `src/cache/cache.cpp:305-308`): `InclusiveMemory.InclusiveLosesWrite` is a losing run,
  `InclusiveMemory.InclusiveRunExact` says exactly which runs lose data, and
  `InclusiveConfigs.InclusiveMemoryIffNested` which configurations never do.
- **Exclusive mode** is documented as single residency (`src/cache/cache.cpp:314-316`), but a full miss
  fills both levels: `Inclusion.ExclusiveMissExact` and `Inclusion.ColdReadBreaksExclusivity`.
- **validate_heap** is documented (`include/allocator/pool_allocator.hpp:116-119`) to walk the free
  list and to rule out overlap. It does neither (`PoolObject.OverlapValidates`,
  `PoolObject.LostFreeBlockValidates`); `PoolObject.TrustedIffAdjoining` says when a true answer means
  that the blocks tile the arena.
- `used_payload_bytes` is documented as bytes handed out
  (`include/allocator/pool_allocator.hpp:60`); it sums block capacities (`PoolRuns.OneByteReportedAsLine`);
  `PoolTheorems.UsedBytesExact` says when the two agree.

## Model

| member | source | states |
|---|---|---|
| PoolObject.ArenaSizeMeaning | src/allocator/pool_allocator.cpp:155-159 | The arena is the size rounded up to whole pages, or one page where that rounding wraps a 64-bit word; never less than a page. |
| PoolObject.PoolAllocator.constructor | src/allocator/pool_allocator.cpp:155-180 | From a page-aligned mapping for a positive size, one free block over that many bytes, headed, linked and alone on the free list; the state is the abstract fresh heap and the invariant holds. |
| PoolObject.CreatePool | src/allocator/pool_allocator.cpp:150-181 | A zero size is refused and nothing else is; otherwise the allocator above. |
| PoolObject.PoolAllocator.FreeListInsertFront | src/allocator/pool_allocator.cpp:198-205 | Rewriting the links puts the block in front of the doubly linked list, leaves every other order unchanged, and touches no record outside the list. |
| PoolObject.PoolAllocator.FreeListRemove | src/allocator/pool_allocator.cpp:207-218 | Unlinking entry k, at head, middle or tail, leaves a correctly linked list of exactly the other entries; only free-list fields change, and only in listed records. |
| PoolObject.PoolAllocator.FindFirstFit | src/allocator/pool_allocator.cpp:220-227 | The walk returns the first listed block that is large enough, and null exactly when none is. |
| PoolObject.PoolAllocator.SplitBlockIfWorthwhile | src/allocator/pool_allocator.cpp:242-277 | Splices the remainder's header into the physical list and the free list exactly when the rounded remainder is worth one; otherwise nothing changes. All other records are framed. |
| PoolObject.PoolAllocator.CoalesceWithNeighbors | src/allocator/pool_allocator.cpp:282-309 | Merges the block with whichever physical neighbours are free and returns the survivor; absorbed headers stay in memory but carry no in-use magic, and their list entries are gone. |
| PoolObject.PoolAllocator.Allocate | src/allocator/pool_allocator.cpp:314-402 | Invariant kept; the new heap and the result are those of the abstract allocate on both paths, errors included; no payload record and no word inside a block in use changes, and the `std::align` failure branch is dead. |
| PoolObject.PoolAllocator.FindHeader | src/allocator/pool_allocator.cpp:421-442 | Reading magics and the back-pointer word, stale ones included, finds what the abstract lookup finds. |
| PoolObject.PoolAllocator.Deallocate | src/allocator/pool_allocator.cpp:412-456 | Invariant kept; heap and acceptance are those of the abstract deallocate; a refused call changes nothing; no payload record of a block that was in use and no word is written. |
| PoolObject.PoolAllocator.Stats | src/allocator/pool_allocator.cpp:461-481 | The walk returns free bytes, used bytes, header bytes, largest and number of free blocks of the layout, and the lifetime counters. |
| PoolObject.PoolAllocator.ValidateHeap | src/allocator/pool_allocator.cpp:483-499 | On any memory whose physical list ends, well-formed or not: true if and only if every block passes the four tests and the bytes walked are the arena. |
| PoolObject.ValidHeapValidates | src/allocator/pool_allocator.cpp:483-499 | In every state that satisfies the invariant those tests pass, so validation returns true. |
| PoolObject.TrustedIffAdjoining | src/allocator/pool_allocator.cpp:483-499 | On every memory that validation approves the list describes coalesced blocks tiling the arena if and only if every block is on the 64-byte grid, has at least 64 bytes, and ends where the next one starts, which the walk does not compare. |
| PoolObject.OverlapValidates | include/allocator/pool_allocator.hpp:116-120 | For every arena of more than 128 bytes a memory of two overlapping blocks, which no tiling describes, passes every test and the byte count. |
| PoolObject.LostFreeBlockValidates | include/allocator/pool_allocator.hpp:116-120 | For every arena a memory whose free block has dropped off the free list passes too, and no list read from its head is exact. |
| PoolObject.PoolAllocator.ClientWritesRecord | include/allocator/pool_allocator.hpp:99-103 | A client that overwrites a record's worth of bytes in its own range, without imitating the in-use magic, keeps the invariant and the whole abstract heap. |
| PoolObject.PoolAllocator.ClientWritesWord | include/allocator/pool_allocator.hpp:99-103 | The same for a word that could hold a back-pointer, when an arena address stored there is a multiple of 64. |
| PoolMemory.MagicTellsUsed | src/allocator/pool_allocator.cpp:425-438 | In-use magic with the given flag is read at an address exactly when a used block of that kind starts there. |
| PoolMemory.MagicFindsHeader | src/allocator/pool_allocator.cpp:421-442 | The two-candidate search over raw memory agrees with the abstract lookup for every owned pointer, stale records included. |
| PoolMemory.SplitLayout | src/allocator/pool_allocator.cpp:259-274 | Splicing a header in behind a block turns the representation of a tiling into that of the tiling with that block cut in two. |
| PoolMemory.AbsorbLayout | src/allocator/pool_allocator.cpp:284-304 | Absorbing a right neighbour turns the representation of a tiling into that of the merged tiling, the stale header notwithstanding. |
| PoolMemory.MergeBoth | src/allocator/pool_allocator.cpp:282-309 | Merging with the next and then with the previous neighbour is one replacement of the whole free run by one block. |
| PoolHeap.FirstFitFinds | src/allocator/pool_allocator.cpp:220-227 | First fit answers with the first entry of the list that is large enough, and with none exactly when all listed blocks are too small. |
| PoolHeap.OverAlignedFits | src/allocator/pool_allocator.cpp:362-387 | For every power-of-two alignment above 64 and every block of at least the requested span, `std::align` succeeds, the pointer is one of the first `alignment` bytes behind the back-pointer slot, and the range fits the block. |
| PoolInvariant.KeptExtentFacts | src/allocator/pool_allocator.cpp:242-257 | The rounded extent is a multiple of 64 between the extent asked and the block size, and a split happens if and only if the remainder holds a header and 64 bytes. |
| PoolInvariant.SlackBounded | src/allocator/pool_allocator.cpp:242-277 | A granted block holds what it must and never 128 bytes or more beyond that. |
| PoolInvariant.GrantedKeepsWellFormed | src/allocator/pool_allocator.cpp:336-401 | Handing out any fitting block, split or not, over-aligned or not, keeps the heap invariant. |
| PoolInvariant.AllocateKeepsWellFormed | src/allocator/pool_allocator.cpp:314-402 | Every allocate keeps it: blocks tile the arena in address order on the 64-byte grid, no two neighbours free, free list duplicate-free and exact, live grants intact, counters right. |
| PoolInvariant.FreeKeepsWellFormed | src/allocator/pool_allocator.cpp:449-455 | Freeing any used block and coalescing keeps it. |
| PoolInvariant.DeallocateKeepsWellFormed | src/allocator/pool_allocator.cpp:412-456 | Every deallocate, accepted or refused, of any address outside the arena or multiple of 64 inside it keeps it. |
| PoolTheorems.LookupRecoversHeader | src/allocator/pool_allocator.cpp:421-442 | For every live pointer of either path the lookup returns its own block, whatever stale words lie about; the first candidate never fires on an over-aligned pointer. |
| PoolTheorems.AcceptedIffLiveOrAlias | src/allocator/pool_allocator.cpp:413-447 | Null is accepted without effect; any other pointer, on the 64-byte grid if inside the arena, is accepted if and only if it is live or the word below it still names a live over-aligned block, and a refused one changes nothing. |
| PoolTheorems.StandardAcceptanceExact | src/allocator/pool_allocator.cpp:421-447 | With no over-aligned allocation live, such a pointer is accepted if and only if live, and a refused call changes nothing. |
| PoolTheorems.LiveRangeIsSafe | src/allocator/pool_allocator.cpp:327-402 | A live range is aligned as asked, inside its payload, and disjoint from every other live range, every header and every live back-pointer. |
| PoolTheorems.OutOfMemoryIffNothingFits | src/allocator/pool_allocator.cpp:314-368 | A bad alignment is reported first. Otherwise a request fails if and only if every free block is smaller than max(size, 1), plus alignment + 7 for alignments above 64 (rounding to 16 never matters); a failure changes nothing. |
| PoolTheorems.AllocatedIsLive | src/allocator/pool_allocator.cpp:327-402 | After a successful request its pointer is live with the size and alignment asked, in the chosen block. |
| PoolTheorems.AllocateThenFree | src/allocator/pool_allocator.cpp:314-456 | Freeing the result at once restores every block exactly, and the free list with only the reused block moved to the front, on both paths, split or not. |
| PoolTheorems.UseDeterminesLayout | src/allocator/pool_allocator.cpp:282-309 | Two well-formed heaps on one arena with the same used blocks have the same blocks: free blocks are the maximal gaps. |
| PoolTheorems.AllFreedIsOneBlock | src/allocator/pool_allocator.cpp:282-309 | With nothing live the arena is one free block of arena size minus 64. |
| PoolTheorems.UsedBytesExact | include/allocator/pool_allocator.hpp:60 | The reported used bytes are at least the bytes callers asked for, and equal to them if and only if every block in use is exactly as large as its request. |
| PoolTheorems.BytesConserved | src/allocator/pool_allocator.cpp:461-499 | Header, free and used bytes add up to the arena. |
| PoolLayout.TakesFirstFit | src/allocator/pool_allocator.cpp:220-227 | A request is served from the first block of the free list with enough bytes for it, and the pointer is behind the header, or for alignments above 64 the least multiple of the alignment behind the back-pointer slot. |
| PoolLayout.LayoutAfterGrant | src/allocator/pool_allocator.cpp:242-277 | The whole new layout, in plain arithmetic: the block keeps the bytes up to the end of the caller's last line if at least 128 are left, the rest is a free block in front of the free list; nothing else moves, and the back-pointer names the header. |
| PoolLayout.AllocateStartsOne | src/allocator/pool_allocator.cpp:314-402 | A success adds one allocation of the pointer, size and alignment asked to those in use, and keeps every other one unchanged. |
| PoolLayout.LayoutAfterFree | src/allocator/pool_allocator.cpp:282-309 | The freed block and its free neighbours become one free block from the first header to the last end, which leads the free list in place of theirs; nothing else moves. |
| PoolLayout.DeallocateEndsOne | src/allocator/pool_allocator.cpp:412-456 | Freeing a live pointer ends that allocation and no other. |
| PoolLayout.FiguresMean | src/allocator/pool_allocator.cpp:461-481 | The reported count is the number of free blocks, and the largest figure bounds every free block and is attained. |
| PoolLayout.LargestFreeDecides | src/allocator/pool_allocator.cpp:325-368 | A request succeeds if and only if the reported largest free block holds max(size, 1), plus alignment + 7 above 64. |
| PoolRuns.EveryRunIsSafe | src/allocator/pool_allocator.cpp:314-456 | After every run of allocate, deallocate of any address outside the arena or multiple of 64 inside it, live or not, and client stores that put no off-grid arena address where a back-pointer could be: invariant, every live pointer recovered and accepted, every live range safe, bytes and counts balanced. |
| PoolRuns.OneByteReportedAsLine | include/allocator/pool_allocator.hpp:60 | After one request of one byte from any fresh arena 64 used bytes are reported. |
| PoolRuns.RunsEndWhole | src/allocator/pool_allocator.cpp:449-455 | After every run that leaves nothing live, layout and free list are those of the fresh arena, whatever the order of frees. |
| PoolRuns.BackPointerSurvives | src/allocator/pool_allocator.cpp:391-393 | The back-pointer word of a live over-aligned allocation survives every legal step. |
| PoolRuns.StoreKeepsWellFormed | src/allocator/pool_allocator.cpp:391-393 | No client can reach a back-pointer by storing inside its own range. |
| PoolRuns.DoubleFreeCaught | include/allocator/pool_allocator.hpp:108-112 | In every run whose alignments are at most 64 a pointer, on the grid if inside the arena, is accepted exactly when it is live and refused calls change nothing. |
| PoolRuns.DoubleFreeCaughtOneAlignment | src/allocator/pool_allocator.cpp:371-393 | The same in every run whose over-aligned requests share one alignment and whose clients store no arena address where a back-pointer could be: in such runs defeating the check takes two over-alignments. |
| PoolRuns.DoubleFreeAccepted | include/allocator/pool_allocator.hpp:108-112 | A concrete three-step run with alignments 128 and 256 after which a second free of a dead pointer is accepted and takes the new owner's block. |
| PoolRuns.AliasFreesOther | src/allocator/pool_allocator.cpp:434-438 | Whenever a dead pointer is accepted, the block freed is the live one its stale word names, and that owner's pointer dies. |
| PoolRuns.FreedIsDead | src/allocator/pool_allocator.cpp:449-455 | A freed pointer is live no longer, and no other block carries it. |
| Bits.PowerOfTwoTest | src/cache/cache.cpp:42-47 | v & (v - 1) is zero exactly for powers of two, and then the logarithm is exact. |
| Bits.AlignUpMeaning | src/allocator/pool_allocator.cpp:96-99 | The masked sum is the least multiple of the alignment not below the value. |
| CacheGeometry.AcceptedIffAcceptable | src/cache/cache.cpp:82-104 | The constructor's checks accept exactly: line size a power of two of at least 8, capacity a positive multiple of it, associativity zero or dividing the lines into a power-of-two number of sets. |
| CacheGeometry.GeometryFacts | src/cache/cache.cpp:90-103 | Sets * ways * line size is the capacity, both field widths are exact, and the total shift is at most 63. |
| CacheGeometry.WaysAsConfigured | src/cache/cache.cpp:90-96 | An accepted cache has exactly the configured associativity and lines / associativity sets; zero means one set of all lines. |
| CacheGeometry.ErrorsInOrder | src/cache/cache.cpp:82-104 | Which error is reported: line size before capacity before associativity, each exactly when its own condition fails; the set count is the only one left. |
| CacheGeometry.FieldsAreDivMod | src/cache/cache.cpp:106-117 | The masked and shifted offset, index and tag are remainders and quotients of the address. |
| CacheGeometry.ReconstructIsLineStart | src/cache/cache.cpp:119-121 | Rebuilding from in-range fields gives the first byte of that line, with nothing shifted out. |
| CacheGeometry.AddressRoundTrip | src/cache/cache.cpp:106-121 | Decomposing any 64-bit address and rebuilding it gives the address back. |
| CacheGeometry.FieldsRoundTrip | src/cache/cache.cpp:106-121 | The fields of a rebuilt address are the fields it was built from. |
| CacheGeometry.SameFieldsSameLine | src/cache/cache.cpp:111-117 | Two addresses share tag and index if and only if they are in the same line. |
| CacheGeometry.EvictedAddressNamesLine | src/cache/cache.cpp:200 | A victim address rebuilt at one level names the same line under any other geometry of equal line size. |
| PolicyObjects.LRUPolicy.Touch | src/cache/eviction_policy.cpp:17-23 | List and iterator index stay in step; the way becomes the most recent and all others keep their order, tracked before or not. |
| PolicyObjects.LRUPolicy.OnRemove | src/cache/eviction_policy.cpp:28-33 | The way leaves list and index, everything else stays. |
| PolicyObjects.UnlinkWay | src/cache/eviction_policy.cpp:28-33 | Following the index to its cell and unlinking it drops that way and no other, and the index still describes the list. |
| PolicyObjects.FIFOPolicy.OnRemove | src/cache/eviction_policy.cpp:53-58 | The search loop removes the first occurrence and keeps the order of the rest. |
| PolicyObjects.LFUPolicy.SelectVictim | src/cache/eviction_policy.cpp:93-109 | The scan, in whatever order the hash map is iterated, returns the unique minimum by (frequency, insertion number), or nothing if nothing is tracked. |
| PolicyObjects.MakeEvictionPolicy | src/cache/eviction_policy.cpp:114-121 | A new object of the requested kind in its reset state. |
| EvictionPolicy.LfuVictimDetermined | src/cache/eviction_policy.cpp:93-109 | A way is chosen if and only if every other tracked way has a higher frequency, or the same one and a later insertion number; such a way exists, whatever the hash order. |
| EvictionPolicy.LfuRunOk | src/cache/eviction_policy.cpp:76-91 | Over every history of hooks insertion numbers are pairwise distinct and below the clock. |
| EvictionPolicy.LfuFrequencyCountsHits | src/cache/eviction_policy.cpp:76-89 | A tracked way's frequency is one plus its hits since its last install, over every history. |
| EvictionPolicy.VictimIsTracked | include/cache/eviction_policy.hpp:47-49 | A policy that tracks something names a tracked way, for all three policies. |
| PolicyHistory.LfuVictimByHistory | src/cache/eviction_policy.cpp:76-109 | Over every history of hooks the LFU victim is the tracked way with the fewest hits since its install, and among equals the one installed first in the history; hits do not renew an install. None exactly when nothing is tracked. |
| PolicyHistory.LruVictimByHistory | src/cache/eviction_policy.cpp:17-40 | Over every history the LRU victim is the tracked way whose last insert or access comes first in the history. |
| PolicyHistory.FifoVictimByHistory | src/cache/eviction_policy.cpp:47-65 | Over every history that inserts no tracked way again the FIFO victim is the tracked way inserted first, whatever was accessed since. |
| CacheModel.SetAccessKeepsOk | src/cache/cache.cpp:154-224 | Every access keeps: tracked ways are exactly the valid ways, valid tags distinct, dirty only if valid and write-back, for all three policies. |
| CacheModel.SetAccessEffect | src/cache/cache.cpp:154-224 | Which tags a set holds, and holds dirty, after an access, and what the reported victim was. |
| CacheModel.AccessEffect | src/cache/cache.cpp:141-225 | For all lines: resident and dirty afterwards exactly as the result record says; the evicted address is the victim's line and writeback is reported if and only if it was dirty. |
| CacheModel.InvalidateEffect | src/cache/cache.cpp:227-245 | Removes exactly the addressed line; policies, other lines and counters stay consistent. |
| CacheModel.ReportedFields | src/cache/cache.cpp:141-146 | The set index and tag in every result are the remainder and quotient of the line number by the number of sets. |
| CacheModel.FillGoesTo | src/cache/cache.cpp:189-223 | A fill goes to the first way without a line; only a full set asks the policy, and evicts the way it names. No other way changes. |
| CacheModel.ReachableCounters | src/cache/cache.cpp:148-218 | Over every run of accesses and invalidations: reads + writes = hits + misses; write-through has writebacks = writes and no dirty eviction; write-back has writebacks = dirty evictions + bypassed write misses. |
| CacheHooks.HooksDrivePolicy | include/cache/eviction_policy.hpp:36-50 | Over every run of accesses and invalidations from cold, each set's policy is the one that set's hook calls determine, where the calls are read off its lines: hits are accesses, lines lost are removals, lines gained are insertions. No way is ever inserted twice, and the ways left inserted are those that hold a line. |
| CacheHooks.EvictsByHistory | src/cache/cache.cpp:189-223 | Hence after every such run, for all three policies, a fill takes the first way without a line or, in a full set, the way the set's own history singles out: least recently used, first in, or fewest hits and then first in. |
| CacheObject.CacheSet.FindWay | src/cache/cache.cpp:123-130 | The loop returns the first valid way with the tag, or none exactly when there is none. |
| CacheObject.CacheSet.FindFreeWay | src/cache/cache.cpp:132-139 | The loop returns the first invalid way, or none exactly when the set is full. |
| CacheObject.CacheSet.Hit | src/cache/cache.cpp:157-171 | Recency and dirty bit as specified, nothing else in the set. |
| CacheObject.CacheSet.Fill | src/cache/cache.cpp:189-223 | Invalid way first, else the policy's victim, removed before the insert; `select_victim` is only called on a non-empty policy. |
| CacheObject.CreateCache | src/cache/cache.cpp:71-104 | A configuration the checks refuse gives the first check's error; every other one gives a cold, valid cache. |
| CacheObject.Cache.constructor | src/cache/cache.cpp:74-80 | For an accepted configuration: all sets empty, of the configured ways and together of the configured capacity, each with its own policy object in its reset state, no object shared. |
| CacheObject.Cache.Access | src/cache/cache.cpp:141-225 | Invariant kept; the new state and the whole result record are those of the specification, and only this set changed. |
| CacheObject.Cache.Invalidate | src/cache/cache.cpp:227-245 | Found if and only if the line was resident, dirty if and only if it was held dirty, state as specified. |
| CacheObject.Cache.Probe | src/cache/cache.cpp:247-251 | True exactly when the line is resident, with no effect. |
| CacheObject.FindWayDecides | src/cache/cache.cpp:123-130 | The way found is the only one with the tag, so residency and dirtiness can be read off it. |
| Replacement.StackStep | src/cache/cache.cpp:154-224 | On an ordered set one installing access moves its tag to the front and cuts the list at the number of ways (for FIFO only on a miss). |
| Replacement.LruKeepsMostRecent | src/cache/eviction_policy.cpp:17-40 | From an empty LRU set, after any installing requests the resident tags, newest first, are the W most recently used distinct tags. |
| Replacement.DepthIsReuseDistance | src/cache/eviction_policy.cpp:17-40 | The depth of a tag in the recency order is the number of distinct tags used since its last use. |
| Replacement.ResidentIffReuseBelowWays | src/cache/eviction_policy.cpp:17-40 | Resident if and only if used and fewer than W distinct tags were used since. |
| Replacement.WindowInvariant | src/cache/eviction_policy.cpp:17-65 | LRU and FIFO from any well-formed set: in a window of at most W distinct tags the tags that missed occupy the newest positions and are never evicted. |
| CacheTraces.RunProjects | src/cache/cache.cpp:154-224 | A cache run restricted to one set is that set's run on the requests that map to it. |
| CacheTraces.LruResidency | src/cache/cache.cpp:141-225 | From a cold LRU cache a line is resident after any installing trace if and only if its reuse distance in its set is below the configured associativity (or, for zero, the number of lines). |
| CacheTraces.HitIffReuseDistance | src/cache/cache.cpp:157-171 | Hence the next access hits if and only if its reuse distance is below the configured ways. |
| CacheTraces.MoreWaysHoldMore | src/cache/eviction_policy.cpp:17-40 | With the same sets and more ways, LRU holds a superset after every such trace. |
| CacheTraces.MoreWaysHitMore | src/cache/eviction_policy.cpp:17-40 | So it never has fewer hits. |
| CacheTraces.OneMissPerWindow | src/cache/eviction_policy.cpp:17-65 | LRU or FIFO, from any state: in a window whose distinct lines fit the set each line misses at most once. |
| CacheTraces.WindowRetained | src/cache/eviction_policy.cpp:17-40 | Under LRU every line used in such a window is resident at its end. |
| HierarchyModel.AccessHierarchyOk | src/cache/cache.cpp:270-321 | Every access in every mode keeps all levels well-formed and their geometry. |
| HierarchyModel.InstrStaysClean | src/cache/cache.cpp:263-268 | The split instruction cache never holds a dirty line and never asks for a writeback. |
| HierarchyModel.TrafficConserved | src/cache/cache.cpp:275-294 | Over every run in every mode: L2 accesses = all L1 misses + L1D dirty evictions. |
| HierarchyTheorems.FetchContents | src/cache/cache.cpp:263-318 | A split hierarchy's fetch hits exactly when the instruction cache holds the line, fills that cache, and leaves the data cache alone, except that inclusive mode takes the line L2 evicts from both. |
| HierarchyTheorems.DataContents | src/cache/cache.cpp:263-318 | Every other access does the same to the data cache, line by line and dirty bit by dirty bit, and leaves the instruction cache alone. |
| HierarchyTheorems.L2Contents | src/cache/cache.cpp:278-318 | L2 is asked exactly on an L1 miss, after the dirty L1 victim was written to it; `l2Hit` says whether it then held the line; a hit in exclusive mode gives the line up. |
| HierarchyTheorems.RequestsCounted | src/cache/cache.cpp:263-275 | Over every run in every mode: a split L1I counts one read per fetch and no write, L1D one read or write per other request; unsplit, L1D counts them all. |
| HierarchyObject.CreateHierarchy | src/cache/cache.cpp:256-261 | Succeeds if and only if every level it builds is accepted; otherwise the error is L1D's, else L1I's if split, else L2's. |
| HierarchyObject.CacheHierarchy.constructor | src/cache/cache.cpp:256-261 | For accepted configurations: cold levels that share no object, the instruction cache only when split. |
| HierarchyObject.CacheHierarchy.AccessL1 | src/cache/cache.cpp:263-275 | A fetch of a split hierarchy changes the instruction cache as one cache access does, every other request the data cache; the other one is untouched. |
| HierarchyObject.CacheHierarchy.EnforceInclusion | src/cache/cache.cpp:301-318 | Back-invalidation at both L1s, or removal from L2 on an L2 hit, or nothing. |
| HierarchyObject.CacheHierarchy.Access | src/cache/cache.cpp:270-321 | L1 access, writeback, L2 access and enforcement in that order give the specified state and result. |
| Inclusion.WritebackHits | src/cache/cache.cpp:288-290 | Under inclusion the writeback whose result the code discards always hits and evicts nothing. |
| Inclusion.InclusionStep | src/cache/cache.cpp:288-312 | If L2 allocates on writes or L1D does not, every access keeps L1D and L1I included in L2. |
| Inclusion.InclusionKept | src/cache/cache.cpp:301-312 | So after every run of such a hierarchy every valid L1 line is valid in L2. |
| Inclusion.OneWriteBreaksInclusion | src/cache/cache.cpp:177-187 | Otherwise a single cold write breaks it. |
| Inclusion.InclusionIffFillsBelow | src/cache/cache.cpp:301-312 | With equal line sizes inclusion holds over all runs if and only if L2 allocates on writes or L1D does not. |
| Inclusion.ExclusiveMissExact | src/cache/cache.cpp:313-318 | Exclusive mode: after an L1D miss the line is at both levels if and only if both fill on this kind of access and L2, after the victim's writeback, does not have the line. |
| Inclusion.ColdReadBreaksExclusivity | src/cache/cache.cpp:313-318 | In every exclusive configuration the first read of a line puts it at both levels, against the stated single residency. |
| FlatMemory.L2Step | src/cache/cache.cpp:292-294 | Whatever L2's policies, one L2 access changes the value below L1 only at the line written, and a read leaves the right value in L2. |
| FlatMemory.RefinementStep | src/cache/cache.cpp:270-299 | One access of a non-inclusive hierarchy with write-back unified L1 is one step of a flat memory, and a read returns its value. |
| FlatMemory.HierarchyIsMemory | src/cache/cache.cpp:270-299 | After every run from cold the topmost copy of every line is the last value written. |
| FlatMemory.ReadsReturnLastWrite | src/cache/cache.cpp:270-299 | Every read at the end of any run returns the last value written to its line. |
| FlatMemory.WriteThroughLosesWrite | src/cache/cache.cpp:278-281 | For every write-through L1, of any shape and policy, a run after which some line's topmost copy is not the last value written. |
| FlatMemory.MemoryIffWriteBack | src/cache/cache.cpp:278-299 | The hierarchy is a flat memory on all runs if and only if L1 is write-back. |
| InclusiveMemory.InclusiveStepExact | src/cache/cache.cpp:302-312 | Inclusive mode: a step keeps memory semantics if and only if the line L2 evicts is not one that, before the step, L1 held dirty with a value L2 and memory lacked (L1's own victim apart). |
| InclusiveMemory.InclusiveRunExact | src/cache/cache.cpp:302-312 | From cold, an inclusive hierarchy is a memory after every prefix of a run if and only if no step of the run drops such a line. |
| InclusiveMemory.InclusiveLosesWrite | src/cache/cache.cpp:302-312 | For every inclusive configuration with an L1D of two or more ways over a one-way L2, whatever the policies, a three-operation run from cold that loses a write. |
| InclusiveMemory.SmallInclusive | src/cache/cache.cpp:82-104 | Such configurations exist and are accepted, for every replacement policy: 16 bytes of two-way L1D over 8 bytes of L2. |
| InclusiveConfigs.NestedIsMemory | src/cache/cache.cpp:302-312 | Over a one-way L1D with no more sets than L2, where L1D allocates on writes or L2 does not, every run of an inclusive hierarchy is a memory, whatever L2's ways and policies. |
| InclusiveConfigs.CrowdingLoses | src/cache/cache.cpp:302-312 | For an LRU or FIFO L2 of any number of ways a run from cold that loses a write wherever line zero is kept at L1 by recency, by set or by bypass while L2 fills with other lines. |
| InclusiveConfigs.InclusiveMemoryIffNested | src/cache/cache.cpp:301-312 | For a write-back L1D, LRU or of one way, over an LRU or FIFO L2: an inclusive hierarchy is a memory on all runs if and only if the L1D has one way, no more sets than L2, and allocates on writes unless L2 does not. |
| Sweep.SweepIsConsecutive | src/profiler/cache_allocator_bridge.cpp:34-45 | The touched addresses are in range and are the region's lines, one each, in order. |
| Sweep.LinesOfRegion | src/profiler/cache_allocator_bridge.cpp:34-45 | A region is one touch per line it overlaps: line of its last byte - line of its first byte + 1, an empty one counting as one byte. |
| Sweep.SweepAnswers | src/profiler/cache_allocator_bridge.cpp:39-45 | Along a sweep every recorded answer is what the caches held at that moment: L1 hit if L1D held the line, L2 hit if it did not and L2 did once L1D's victim was written back. |
| Sweep.L1RunsAlone | src/cache/cache.cpp:278-318 | Without back-invalidation a sweep drives the L1 exactly as it would alone. |
| Sweep.ConsecutiveFits | src/cache/cache.cpp:111-117 | At most sets * ways consecutive lines put at most `ways` lines in any one set. |
| Sweep.SweepFills | src/profiler/cache_allocator_bridge.cpp:28-46 | An LRU write-allocate L1 holds every line of such a sweep at its end. |
| Sweep.ResidentSweepHits | src/profiler/cache_allocator_bridge.cpp:55-62 | A read sweep over resident lines only hits L1, in every mode. |
| Sweep.AllocateThenFreeHits | src/profiler/cache_allocator_bridge.cpp:48-62 | On sweeps: after a write sweep of a region of at most sets * ways lines every touch of a read sweep of it hits L1, from any prior cache state. |
| Sweep.SweepEndsIff | src/profiler/cache_allocator_bridge.cpp:39-45 | With the additions of the loop done in 64-bit words, it ends if and only if its end, wrapped too, is not in the last line of the address space: the precondition of `TouchLines`. |
| BridgeObject.GrantedInArena | src/profiler/cache_allocator_bridge.cpp:48-53 | A granted region ends inside the arena, so its sweep cannot wrap. |
| BridgeObject.ArenaSweepsStop | src/profiler/cache_allocator_bridge.cpp:48-53 | For an arena that ends below the last line of the address space every sweep of a grant ends. |
| BridgeObject.SweepKeepsLead | src/profiler/cache_allocator_bridge.cpp:39-45 | Over any data sweep the L1D hit and miss counters move by exactly the hits and misses the history records. |
| BridgeObject.CacheAllocatorBridge.TouchLines | src/profiler/cache_allocator_bridge.cpp:28-46 | For every region on which the source's loop ends, wrapped ends included: one access per line; hierarchy state and appended history are those of the sweep, record by record, and the history stays in step with the L1D counters. |
| BridgeObject.CacheAllocatorBridge.Allocate | src/profiler/cache_allocator_bridge.cpp:48-53 | The allocator's step, then the write sweep; on failure no counter, history or cache changes. |
| BridgeObject.CacheAllocatorBridge.Deallocate | src/profiler/cache_allocator_bridge.cpp:55-62 | The read sweep of the hinted size, then the allocator's step, even if the pointer is refused; null does nothing. |
| BridgeObject.AllocateThenDeallocate | src/profiler/cache_allocator_bridge.cpp:48-62 | End to end on the objects: an allocation freed at once with its own size is accepted and gives the arena its layout back; with an LRU write-allocate L1D, no back-invalidation and a region of at most sets * ways lines, the last records of the history are exactly the region's lines, all L1 hits. |
| BridgeObject.CacheAllocatorBridge.Summary | src/profiler/cache_allocator_bridge.cpp:64-80 | L1 hits, L2 hits and full misses are the numbers of history entries that hit L1, hit only L2, and hit neither, as set cardinalities; they partition the history, and match the L1D's counters for a bridge that started on cold caches it alone uses. |

## Left out

- BridgeObject.CacheAllocatorBridge.TouchLines: requires that the source's loop ends (`Sweep.SweepEndsIff`), nothing else of the region.
- PoolObject.PoolAllocator.Allocate: requires that size + alignment + 16 does not wrap; the source's sum wraps silently.
- BridgeObject.CacheAllocatorBridge.Allocate: requires the same of the granted region, and a size + alignment + 16 that does not wrap.
- BridgeObject.AllocateThenDeallocate: likewise.
- BridgeObject.CacheAllocatorBridge.Deallocate: requires a sweep that ends, and a multiple of 64 inside the arena, as below.
- PoolObject.PoolAllocator.Deallocate: a pointer into the arena must be 64-aligned; elsewhere the source reads a header across client bytes.
- PoolObject.PoolAllocator.ClientWritesRecord: clients do not write the in-use magic; a client that forges it can mislead any header search.
- PoolObject.PoolAllocator.ClientWritesWord: an arena address a client stores in the last word of a slot is a multiple of 64; the source would read a header across other bytes at any other.
- PoolRuns.EveryRunIsSafe: freed pointers inside the arena are multiples of 64, and clients keep to the two conditions above.
- PoolRuns.DoubleFreeCaughtOneAlignment: clients store no arena address at all in those words.
- PoolObject.PoolAllocator.constructor: mapped address and page size are parameters, the page size a power of two from 128 to 2^64 - 64. A zero size is refused by `CreatePool`.
- CacheObject.Cache.constructor: takes accepted configurations; `CreateCache` gives the errors for the others.
- HierarchyObject.CacheHierarchy.constructor: likewise, with `CreateHierarchy`.
- PolicyHistory.FifoVictimByHistory: histories that insert no way twice without a removal; `CacheHooks.HooksDrivePolicy` proves that a cache makes no other.
- CacheTraces.LruResidency: traces without invalidation in which every miss fills, from a cold cache.
- InclusiveConfigs.InclusiveMemoryIffNested: an L2 of at most 2^63 bytes, beyond which the address space has too few lines to crowd a set; for an LFU L2 only `NestedIsMemory` holds, and for a FIFO or LFU L1D of several ways only `InclusiveMemory.InclusiveLosesWrite`.
- FlatMemory.HierarchyIsMemory: whole-line values, unified L1, equal line sizes (the source does not check them), non-inclusive mode.
- Memory is one record per 64-byte slot plus the last word of each slot (where a back-pointer can be); constructing a header leaves that last word, which is padding, unchanged. Other client bytes are not modelled.
- The arena's destructor, `mmap`, `VirtualAlloc` and the page-size query: operating-system calls.
- The mutex: one lock serializes every operation, so the sequential model is what a thread sees.
- Write preservation in exclusive mode, and levels with unequal line sizes: the code guarantees nothing there.
- Latency totals, hit rates, fragmentation percentages, printing and exception texts: direct readings of one body.
- `allocate_span`, `reset_stats` and the accessors: wrappers.
- The policy interface is a tagged reference with one match per hook instead of virtual dispatch.
- `Cache::access` is split in set-level helpers (`Hit`, `Fill`, `AccessSet`) and `Count` for the counters; the order of counter updates relative to line updates is not observable.
- Trace parser, workload generator, `src/main.cpp` and benchmarks: drivers.
- 64-bit counter overflow and 32-bit way numbers.
