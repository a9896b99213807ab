/** The `PoolAllocator` object: headers and lists rewritten in place. */
module PoolObject {
  import opened Basics
  import opened Bits
  import opened PoolHeap
  import opened PoolInvariant
  import opened PoolTheorems
  import opened PoolMemory
  import R = PoolRuns

  datatype AllocatorStats = AllocatorStats(
    totalPoolBytes: nat, usedPayloadBytes: nat, freeBytes: nat, headerOverheadBytes: nat,
    largestFreeBlockBytes: nat, numFreeBlocks: nat,
    numAllocations: nat, numFrees: nat, numActiveAllocations: nat)

  /** The physical list read from `head` is `chain`. */
  ghost predicate PhysChain(mem: Memory, head: nat, chain: seq<nat>) {
    && head == (if chain == [] then 0 else chain[0])
    && forall j | 0 <= j < |chain| ::
         chain[j] > 0 && chain[j] in mem && mem[chain[j]].nextPhys == NextOf(chain, j)
  }

  function ChainBytes(mem: Memory, chain: seq<nat>): nat {
    if chain == [] then 0
    else ChainBytes(mem, chain[..|chain| - 1]) + HEADER + Load(mem, chain[|chain| - 1]).size
  }

  /** The per-block tests of `validate_heap`, for the j-th block of the list. */
  ghost predicate BlockPasses(mem: Memory, base: nat, arena: nat, chain: seq<nat>, j: nat)
    requires j < |chain|
  {
    var r := Load(mem, chain[j]);
    && base <= chain[j] < base + arena
    && r.prevPhys == PrevOf(chain, j)
    && r.magic == (if r.isFree then MAGIC_FREE else MAGIC_USED)
    && (j > 0 ==> !(Load(mem, chain[j - 1]).isFree && r.isFree))
  }

  function Addresses(tiles: seq<Tile>): (c: seq<nat>)
    ensures |c| == |tiles| && forall i | 0 <= i < |tiles| :: c[i] == tiles[i].addr
  {
    seq(|tiles|, i requires 0 <= i < |tiles| => tiles[i].addr)
  }

  /** The figures of the first `k` blocks. */
  function StatsUpTo(tiles: seq<Tile>, k: nat, arena: nat, allocations: nat, frees: nat, active: nat): AllocatorStats
    requires k <= |tiles|
  {
    AllocatorStats(arena, UsedBytes(tiles[..k]), FreeBytes(tiles[..k]), HEADER * k,
                   LargestFree(tiles[..k]), FreeCount(tiles[..k]), allocations, frees, active)
  }

  lemma StatsStart(h: Heap)
    requires WellFormed(h)
    ensures |h.tiles| >= 1 && h.tiles[0].addr == h.base > 0
    ensures StatsUpTo(h.tiles, 0, h.arena, h.allocations, h.frees, h.active)
            == AllocatorStats(h.arena, 0, 0, 0, 0, 0, h.allocations, h.frees, h.active)
  {
    assert h.tiles[..0] == [];
  }

  lemma StatsStep(tiles: seq<Tile>, k: nat, arena: nat, allocations: nat, frees: nat, active: nat)
    requires k < |tiles|
    ensures var s, t := StatsUpTo(tiles, k, arena, allocations, frees, active), tiles[k];
            StatsUpTo(tiles, k + 1, arena, allocations, frees, active)
            == if t.status.Free? then
                 s.(headerOverheadBytes := s.headerOverheadBytes + HEADER, freeBytes := s.freeBytes + t.size,
                    numFreeBlocks := s.numFreeBlocks + 1,
                    largestFreeBlockBytes := Max(s.largestFreeBlockBytes, t.size))
               else
                 s.(headerOverheadBytes := s.headerOverheadBytes + HEADER,
                    usedPayloadBytes := s.usedPayloadBytes + t.size)
  {
    assert tiles[..k + 1][..k] == tiles[..k];
  }

  /** `align_up` on 64-bit words, where the sum may wrap. */
  function AlignUpWord(value: nat, alignment: nat): nat
    requires 0 < alignment <= WORD
  {
    BitAnd((value + (alignment - 1)) % WORD, WORD - alignment)
  }

  /** The arena for a requested size: whole pages, and at least one header even where rounding wraps. */
  function ArenaSize(size: nat, page: nat): nat
    requires 0 < page <= WORD
  {
    var a := AlignUpWord(size, page);
    if a < HEADER then AlignUpWord(HEADER, page) else a
  }

  /** A size within a page of the top of the address space wraps and gets one page. */
  lemma ArenaSizeMeaning(size: nat, page: nat)
    requires 0 < size < WORD && IsPowerOfTwo(page) && 2 * HEADER <= page <= WORD - HEADER
    ensures ArenaSize(size, page) == if size + page <= WORD then AlignUp(size, page) else page
    ensures ArenaSize(size, page) % page == 0 && ArenaSize(size, page) >= page
  {
    OnePage(HEADER, page);
    if size + page <= WORD {
      WordRounds(size, page);
      WholePages(AlignUp(size, page), page);
    } else {
      WordWraps(size, page);
      DivModUnique(page, page, 1, 0);
    }
  }

  lemma WordRounds(value: nat, page: nat)
    requires page > 0 && IsPowerOfTwo(page) && value + page <= WORD
    ensures AlignUpWord(value, page) == AlignUp(value, page)
  {
    hide BitAnd, IsPowerOfTwo;
    DivModUnique(value + (page - 1), WORD, 0, value + (page - 1));
  }

  lemma WordWraps(value: nat, page: nat)
    requires IsPowerOfTwo(page) && page <= WORD && value < WORD < value + page
    ensures AlignUpWord(value, page) == 0
  {
    var x := value + (page - 1) - WORD;
    DivModUnique(value + (page - 1), WORD, 1, x);
    DivModUnique(x, page, 0, x);
    Pow2Of64();
    MaskClears(x, Log2(page), 64);
  }

  lemma OnePage(value: nat, page: nat)
    requires page > 0 && IsPowerOfTwo(page) && 0 < value <= page && value + page <= WORD
    ensures AlignUpWord(value, page) == page
  {
    WordRounds(value, page);
    DivModUnique(page, page, 1, 0);
    LeastMultiple(value, page, AlignUp(value, page), page);
    WholePages(AlignUp(value, page), page);
  }

  lemma WholePages(a: nat, page: nat)
    requires a > 0 && page > 0 && a % page == 0
    ensures a >= page
  {
    if a < page {
      DivModUnique(a, page, 0, a);
    }
  }

  class PoolAllocator {
    const base: nat
    const arena: nat
    var mem: Memory
    var words: map<nat, nat>
    var physicalHead: nat
    var freeListHead: nat
    var lifetimeAllocations: nat
    var lifetimeFrees: nat
    var activeAllocations: nat
    ghost var heap: Heap

    /** Memory and list head represent this layout and this free list. */
    ghost predicate Rep(tiles: seq<Tile>, free: seq<nat>)
      reads `mem, `freeListHead
    {
      Layout(mem, tiles) && NoStrayMagic(mem, tiles) && FreeLinks(mem, freeListHead, free)
    }

    ghost predicate Valid()
      reads this
    {
      && WellFormed(heap) && heap.base == base && heap.arena == arena && heap.words == words
      && Rep(heap.tiles, heap.free) && physicalHead == base
      && heap.allocations == lifetimeAllocations && heap.frees == lifetimeFrees && heap.active == activeAllocations
    }

    /** The arena is a fresh mapping of whole pages; the page size comes from the system. */
    constructor (poolSizeBytes: nat, pageSize: nat, mapped: nat)
      requires 0 < poolSizeBytes < WORD && IsPowerOfTwo(pageSize) && 2 * HEADER <= pageSize <= WORD - HEADER
      requires mapped > 0 && mapped % pageSize == 0 && mapped + ArenaSize(poolSizeBytes, pageSize) <= WORD
      ensures Valid() && base == mapped && arena == ArenaSize(poolSizeBytes, pageSize)
      ensures arena == if poolSizeBytes + pageSize <= WORD then AlignUp(poolSizeBytes, pageSize) else pageSize
      ensures R.ArenaOk(base, arena) && heap == R.Fresh(base, arena)
    {
      ArenaSizeMeaning(poolSizeBytes, pageSize);
      var size := AlignUpWord(poolSizeBytes, pageSize);
      if size < HEADER {
        size := AlignUpWord(HEADER, pageSize);
      }
      PageRounding(poolSizeBytes, pageSize, mapped);
      base, arena := mapped, size;
      mem := map[mapped := Header(size - HEADER, true, false, 0, 0, 0, 0, MAGIC_FREE)];
      words := map[];
      physicalHead, freeListHead := mapped, mapped;
      lifetimeAllocations, lifetimeFrees, activeAllocations := 0, 0, 0;
      heap := R.Fresh(mapped, size);
    }

    predicate Owned(p: nat) {
      base <= p < base + arena
    }

    // ---- Free-list management ----

    method FreeListInsertFront(block: nat, ghost free: seq<nat>)
      requires block > 0 && block in mem && block !in free && FreeLinks(mem, freeListHead, free)
      modifies `mem, `freeListHead
      ensures FreeLinks(mem, freeListHead, [block] + free) && OnlyFreeLinks(old(mem), mem)
      ensures forall a: nat | a != block && a !in free :: SameAt(old(mem), mem, a)
    {
      assert free != [] ==> FreeLinkAt(mem, free, 0);
      mem := mem[block := mem[block].(prevFree := 0, nextFree := freeListHead)];
      if freeListHead != 0 {
        mem := mem[freeListHead := mem[freeListHead].(prevFree := block)];
      }
      freeListHead := block;
      forall j | 0 <= j < |[block] + free| ensures FreeLinkAt(mem, [block] + free, j) {
        if j > 0 {
          assert FreeLinkAt(old(mem), free, j - 1);
          assert j > 1 ==> free[j - 1] != free[0];
        }
      }
    }

    method FreeListRemove(block: nat, ghost free: seq<nat>, ghost k: nat)
      requires k < |free| && free[k] == block && FreeLinks(mem, freeListHead, free)
      requires block in mem
      modifies `mem, `freeListHead
      ensures FreeLinks(mem, freeListHead, free[..k] + free[k + 1..]) && OnlyFreeLinks(old(mem), mem)
      ensures forall a: nat | a !in free :: SameAt(old(mem), mem, a)
    {
      LinksAround(mem, freeListHead, free, k);
      hide FreeLinkAt;
      var prev, next := mem[block].prevFree, mem[block].nextFree;
      if prev != 0 {
        mem := mem[prev := mem[prev].(nextFree := next)];
      } else {
        freeListHead := next;
      }
      if next != 0 {
        mem := mem[next := mem[next].(prevFree := prev)];
      }
      mem := mem[block := mem[block].(prevFree := 0, nextFree := 0)];
      RemovedLinks(old(mem), mem, free, k);
    }

    method FindFirstFit(need: nat, ghost tiles: seq<Tile>, ghost free: seq<nat>, ghost lo: nat, ghost hi: nat)
      returns (r: nat)
      requires Tiling(tiles, lo, hi) && Rep(tiles, free)
      requires forall a | a in free :: IsTile(tiles, a)
      ensures r == (match FirstFit(tiles, free, need) case None => 0 case Some(a) => a)
      ensures r == 0 <==> FirstFit(tiles, free, need).None?
    {
      r := freeListHead;
      ghost var j := 0;
      assert free != [] ==> FreeLinkAt(mem, free, 0);
      while r != 0
        invariant j <= |free| && r == (if j < |free| then free[j] else 0)
        invariant j < |free| ==> free[j] > 0
        invariant FirstFit(tiles, free, need) == FirstFit(tiles, free[j..], need)
        decreases |free| - j
      {
        assert FreeLinkAt(mem, free, j) && free[j] in free;
        assert RecordAt(mem, tiles, IndexOf(tiles, r));
        assert free[j..][0] == r && free[j..][1..] == free[j + 1..];
        if mem[r].size >= need {
          return;
        }
        r := mem[r].nextFree;
        j := j + 1;
        assert j < |free| ==> FreeLinkAt(mem, free, j);
      }
    }

    // ---- Splitting and coalescing ----

    /** Cuts the tail off tile `i`, which has left the free list but is not yet marked used. */
    method SplitBlockIfWorthwhile(block: nat, usedExtent: nat, ghost tiles: seq<Tile>, ghost free: seq<nat>,
                                  ghost i: nat, ghost lo: nat, ghost hi: nat)
      requires Tiling(tiles, lo, hi) && 0 < lo && hi <= WORD && Rep(tiles, free)
      requires i < |tiles| && tiles[i].addr == block && tiles[i].status.Free? && 1 <= usedExtent
      requires tiles[i].size + 64 <= WORD
      requires block !in free && forall a | a in free :: IsTile(tiles, a)
      modifies `mem, `freeListHead
      ensures Rep(Carve(tiles, i, usedExtent, Free),
                  if Splits(tiles[i].size, usedExtent)
                  then [tiles[i].Payload() + KeptExtent(tiles[i].size, usedExtent)] + free else free)
      ensures forall a: nat | !IsTile(tiles, a) && !(block < a < tiles[i].End()) :: SameAt(old(mem), mem, a)
    {
      assert RecordAt(mem, tiles, i);
      var size := mem[block].size;
      var extent := if size < usedExtent then size else usedExtent;
      KeptExtentFacts(size, extent);
      assert KeptExtent(size, usedExtent) == KeptExtent(size, extent);
      var e := AlignUp(extent, DEFAULT_ALIGNMENT);
      if e >= size || size - e < HEADER + MIN_SPLIT_PAYLOAD {
        CutAndPaste(tiles, i);
      } else {
        var remainder := size - e;
        var n := block + HEADER + e;
        CarveNewBlock(block, e, n, remainder - HEADER, tiles, free, i, lo, hi);
      }
    }

    /** Writes the header of the remainder and links it behind `block` and into the free list. */
    method CarveNewBlock(block: nat, extent: nat, n: nat, size: nat, ghost tiles: seq<Tile>, ghost free: seq<nat>,
                         ghost i: nat, ghost lo: nat, ghost hi: nat)
      requires i < |tiles| && Cut(tiles, i, Tile(block, extent, Free), Tile(n, size, Free), lo, hi)
      requires Rep(tiles, free) && forall a | a in free :: IsTile(tiles, a)
      modifies `mem, `freeListHead
      ensures Rep(Replace(tiles, i, i, [Tile(block, extent, Free), Tile(n, size, Free)]), [n] + free)
      ensures forall a: nat | !IsTile(tiles, a) && a != n :: SameAt(old(mem), mem, a)
    {
      hide Layout, NoStrayMagic, Tiling, FreeLinks, Replace;
      ghost var x, y := Tile(block, extent, Free), Tile(n, size, Free);
      ghost var c := Replace(tiles, i, i, [x, y]);
      LinksInMemory(mem, tiles, i);
      SplitLayout(mem, tiles, i, x, y, lo, hi);
      var next := mem[block].nextPhys;
      mem := mem[n := Header(size, true, false, block, next, 0, 0, MAGIC_FREE)];
      if next != 0 {
        mem := mem[next := mem[next].(prevPhys := n)];
      }
      mem := mem[block := mem[block].(nextPhys := n)];
      mem := mem[block := mem[block].(size := extent)];
      assert mem == Spliced(old(mem), block, extent, n, size);
      ghost var mid := mem;
      LinksFrame(old(mem), mem, freeListHead, free);
      FreeListInsertFront(n, free);
      FreeLinksFrame(mid, mem, c);
    }

    /** `right`, free and off the free list, becomes part of the free block before it. */
    method Absorb(left: nat, right: nat, ghost tiles: seq<Tile>, ghost free: seq<nat>,
                  ghost k: nat, ghost lo: nat, ghost hi: nat)
      requires Tiling(tiles, lo, hi) && lo > 0 && Rep(tiles, free)
      requires k + 1 < |tiles| && tiles[k].status.Free? && tiles[k + 1].status.Free?
      requires tiles[k].addr == left && tiles[k + 1].addr == right
      modifies `mem
      ensures tiles[k].Payload() <= tiles[k + 1].End()
      ensures Rep(Replace(tiles, k, k + 1, [Merged(tiles, k, k + 1)]), free)
      ensures forall a: nat | !IsTile(tiles, a) :: SameAt(old(mem), mem, a)
    {
      hide Layout, NoStrayMagic, Tiling, FreeLinks, Replace;
      LinksInMemory(mem, tiles, k);
      LinksInMemory(mem, tiles, k + 1);
      AbsorbLayout(mem, tiles, k, lo, hi);
      mem := mem[left := mem[left].(size := mem[left].size + HEADER + mem[right].size)];
      var next := mem[right].nextPhys;
      mem := mem[left := mem[left].(nextPhys := next)];
      if next != 0 {
        mem := mem[next := mem[next].(prevPhys := left)];
      }
      assert mem == Absorbed(old(mem), left, right);
      LinksFrame(old(mem), mem, freeListHead, free);
    }

    /** Takes the free tile `k`, which is on the list, out of it. */
    method Unlist(block: nat, ghost tiles: seq<Tile>, ghost free: seq<nat>, ghost k: nat)
      requires Rep(tiles, free) && k < |tiles| && tiles[k].addr == block && block in free
      requires forall a | a in free :: IsTile(tiles, a)
      modifies `mem, `freeListHead
      ensures Rep(tiles, Erase(free, block))
      ensures forall a: nat | !IsTile(tiles, a) :: SameAt(old(mem), mem, a)
    {
      LinksInMemory(mem, tiles, k);
      ghost var j :| 0 <= j < |free| && free[j] == block;
      EraseAt(free, j);
      FreeListRemove(block, free, j);
      FreeLinksFrame(old(mem), mem, tiles);
    }

    method MergeNext(block: nat, ghost tiles: seq<Tile>, ghost free: seq<nat>,
                     ghost i: nat, ghost lo: nat, ghost hi: nat)
      requires Tiling(tiles, lo, hi) && lo > 0 && Rep(tiles, free)
      requires i < |tiles| && tiles[i].addr == block && tiles[i].status.Free?
      requires forall a: nat :: a in free <==> FreeAt(tiles, a) && a != block
      modifies `mem, `freeListHead
      ensures var r := MergeHi(tiles, i);
              && i <= r < |tiles| && tiles[i].Payload() <= tiles[r].End()
              && Rep(Replace(tiles, i, r, [Merged(tiles, i, r)]),
                     if r > i then Erase(free, tiles[r].addr) else free)
      ensures forall a: nat | !IsTile(tiles, a) :: SameAt(old(mem), mem, a)
    {
      LinksInMemory(mem, tiles, i);
      MergeNothing(tiles, i);
      var nxt := mem[block].nextPhys;
      if i + 1 < |tiles| {
        AddressesDistinct(tiles, lo, hi, i, i + 1);
        LinksInMemory(mem, tiles, i + 1);
      }
      hide Replace, Layout, NoStrayMagic, FreeLinks;
      if nxt != 0 && mem[nxt].isFree {
        assert FreeAt(tiles, nxt);
        Unlist(nxt, tiles, free, i + 1);
        Absorb(block, nxt, tiles, Erase(free, nxt), i, lo, hi);
      }
    }

    method MergePrevious(block: nat, ghost tiles: seq<Tile>, ghost free: seq<nat>,
                         ghost i: nat, ghost lo: nat, ghost hi: nat)
      returns (survivor: nat)
      requires Tiling(tiles, lo, hi) && lo > 0 && Rep(tiles, free)
      requires i < |tiles| && tiles[i].addr == block && tiles[i].status.Free?
      requires forall a: nat :: a in free ==> IsTile(tiles, a)
      requires i > 0 && tiles[i - 1].status.Free? ==> tiles[i - 1].addr in free
      modifies `mem, `freeListHead
      ensures var l := MergeLo(tiles, i);
              && l <= i && tiles[l].Payload() <= tiles[i].End() && survivor == tiles[l].addr
              && Rep(Replace(tiles, l, i, [Merged(tiles, l, i)]),
                     if l < i then Erase(free, tiles[l].addr) else free)
      ensures forall a: nat | !IsTile(tiles, a) :: SameAt(old(mem), mem, a)
    {
      LinksInMemory(mem, tiles, i);
      MergeNothing(tiles, i);
      var prv := mem[block].prevPhys;
      survivor := block;
      if i > 0 {
        AddressesDistinct(tiles, lo, hi, i, i - 1);
        LinksInMemory(mem, tiles, i - 1);
        AddressesDistinct(tiles, lo, hi, i - 1, i);
      }
      hide Replace, Layout, NoStrayMagic, FreeLinks;
      if prv != 0 && mem[prv].isFree {
        Unlist(prv, tiles, free, i - 1);
        Absorb(prv, block, tiles, Erase(free, prv), i - 1, lo, hi);
        survivor := prv;
      }
    }

    /** Merges the free tile `i`, not on the free list, with its free neighbours: next first, then previous. */
    method CoalesceWithNeighbors(block: nat, ghost tiles: seq<Tile>, ghost free: seq<nat>,
                                 ghost i: nat, ghost lo: nat, ghost hi: nat)
      returns (survivor: nat)
      requires Tiling(tiles, lo, hi) && lo > 0 && Rep(tiles, free)
      requires i < |tiles| && tiles[i].addr == block && tiles[i].status.Free?
      requires forall a: nat :: a in free <==> FreeAt(tiles, a) && a != block
      modifies `mem, `freeListHead
      ensures var l, r := MergeLo(tiles, i), MergeHi(tiles, i);
              && l <= i <= r < |tiles| && tiles[l].Payload() <= tiles[r].End()
              && survivor == tiles[l].addr
              && Rep(Replace(tiles, l, r, [Merged(tiles, l, r)]), UnlistRun(tiles, free, i))
      ensures forall a: nat | !IsTile(tiles, a) :: SameAt(old(mem), mem, a)
    {
      MergeRun(tiles, i, lo, hi);
      MergeNext(block, tiles, free, i, lo, hi);
      ghost var r := MergeHi(tiles, i);
      ghost var now := Replace(tiles, i, r, [Merged(tiles, i, r)]);
      ghost var rest := if r > i then Erase(free, tiles[r].addr) else free;
      AfterNext(tiles, free, i, lo, hi);
      survivor := MergePrevious(block, now, rest, i, lo, hi);
    }

    // ---- allocate ----

    /** Marks tile `i`, already carved, as handed out. */
    method MarkUsed(block: nat, over: bool, ghost tiles: seq<Tile>, ghost free: seq<nat>, ghost i: nat,
                    ghost status: Status, ghost lo: nat, ghost hi: nat)
      requires Tiling(tiles, lo, hi) && lo > 0 && Rep(tiles, free) && i < |tiles| && tiles[i].addr == block
      requires status.Used? && (over <==> status.align > DEFAULT_ALIGNMENT) && block !in free
      modifies `mem
      ensures Rep(tiles[i := tiles[i].(status := status)], free)
      ensures forall a: nat | a != block :: SameAt(old(mem), mem, a)
    {
      LinksInMemory(mem, tiles, i);
      var r := mem[block].(isFree := false, isAligned := over, magic := MAGIC_USED);
      StatusUpdate(mem, tiles, i, lo, hi, tiles[i].(status := status), r);
      mem := mem[block := r];
      LinksFrame(old(mem), mem, freeListHead, free);
    }

    /** Takes a chosen block off the list, cuts its tail off and marks it used. */
    method TakeBlock(block: nat, extent: nat, over: bool, ghost i: nat, ghost status: Status)
      requires Valid() && i < |heap.tiles| && heap.tiles[i].addr == block && heap.tiles[i].status.Free?
      requires 1 <= extent <= heap.tiles[i].size && status.Used? && (over <==> status.align > DEFAULT_ALIGNMENT)
      modifies `mem, `freeListHead
      ensures heap.tiles[i].size + 64 <= WORD
      ensures Rep(Carve(heap.tiles, i, extent, status), FreeAfterCarve(heap.free, heap.tiles[i], extent))
      ensures PayloadsKept(old(mem), mem, heap.tiles)
    {
      hide PoolAllocator.Rep, WellFormed, PayloadsKept, Carve, FreeAfterCarve;
      hide Splits, KeptExtent, Tiling, IsTile, Erase;
      ghost var lo, hi, tiles, free, t := base, base + arena, heap.tiles, heap.free, heap.tiles[i];
      TakeFacts(heap, i, extent, status);
      ghost var rest := Erase(free, block);
      Unlist(block, tiles, free, i);
      ghost var m1 := mem;
      SplitBlockIfWorthwhile(block, extent, tiles, rest, i, lo, hi);
      ghost var m2 := mem;
      MarkUsed(block, over, Carve(tiles, i, extent, Free), FreeAfterCarve(free, t, extent), i, status, lo, hi);
      KeptByTake(old(mem), m1, m2, mem, heap, i);
    }

    /** First fit over the free list for a request that passed the alignment test. */
    method ChooseBlock(need: nat, ghost size: nat, ghost align: nat) returns (block: nat)
      requires Valid() && NoWrap(size, align) && IsPowerOfTwo(align) && need == SpanNeeded(size, align)
      ensures block == 0 <==> Chosen(heap, size, align).None?
      ensures block != 0 ==> heap.tiles[Chosen(heap, size, align).value].addr == block
    {
      TilingOfHeap(heap);
      FirstFitFinds(heap.tiles, heap.free, need);
      block := FindFirstFit(need, heap.tiles, heap.free, base, base + arena);
    }

    /** Hands out block `i` with the caller's bytes at `p`. */
    method Grant(block: nat, p: nat, extent: nat, over: bool, ghost i: nat, ghost size: nat, ghost align: nat)
      requires Valid() && Fits(heap, i, size, align) && heap.tiles[i].addr == block
      requires p == GrantPtr(heap.tiles[i], size, align) && extent == Extent(heap.tiles[i], size, align)
      requires over <==> align > DEFAULT_ALIGNMENT
      requires over ==> p >= SLOT
      modifies this
      ensures Valid() && heap == Granted(old(heap), i, size, align)
      ensures PayloadsKept(old(mem), mem, old(heap).tiles) && WordsKept(old(words), words, old(heap).tiles)
    {
      hide WellFormed, Fits, GrantPtr, Extent, Splits, KeptExtent, Carve, FreeAfterCarve;
      hide PoolAllocator.Rep, PayloadsKept, WordsKept;
      ghost var h := heap;
      GrantFacts(h, i, size, align);
      GrantKeepsWords(h, i, size, align);
      TakeBlock(block, extent, over, i, Used(p, Max(size, 1), align));
      if over {
        words := words[p - SLOT := block];
      }
      heap := Granted(h, i, size, align);
      lifetimeAllocations := lifetimeAllocations + 1;
      activeAllocations := activeAllocations + 1;
    }

    method Allocate(size: nat, alignment: nat) returns (r: Result<nat, AllocError>)
      requires Valid() && NoWrap(size, alignment)
      modifies this
      ensures Valid()
      ensures heap == PoolHeap.Allocate(old(heap), size, alignment).0
      ensures r == PoolHeap.Allocate(old(heap), size, alignment).1
      ensures PayloadsKept(old(mem), mem, old(heap).tiles) && WordsKept(old(words), words, old(heap).tiles)
    {
      hide WellFormed, Granted, Chosen, IsPowerOfTwo, Layout, NoStrayMagic, FreeLinks, AlignUp;
      PowerOfTwoBits(alignment);
      if alignment == 0 || BitAnd(alignment, alignment - 1) != 0 {
        return Err(InvalidAlignment);
      }
      var n := if size == 0 then 1 else size;
      if alignment <= DEFAULT_ALIGNMENT {
        var needed := AlignUp(n, MAX_ALIGN) by { SmallPowers(); }
        var block := ChooseBlock(needed, size, alignment);
        if block == 0 {
          return Err(OutOfMemory);
        }
        Grant(block, block + HEADER, needed, false, Chosen(heap, size, alignment).value, size, alignment);
        return Ok(block + HEADER);
      }
      var spanNeeded := n + alignment - 1 + SLOT;
      var block := ChooseBlock(spanNeeded, size, alignment);
      if block == 0 {
        return Err(OutOfMemory);
      }
      ghost var i := Chosen(heap, size, alignment).value;
      BlockFacts(heap, i);
      OverAlignedFits(heap.tiles[i], size, alignment);
      LinksInMemory(mem, heap.tiles, i);
      var rawPayload := block + HEADER;
      var aligned := StdAlign(alignment, n, rawPayload + SLOT, mem[block].size - SLOT);
      if aligned.None? {
        assert false;
      }
      var p := aligned.value;
      Grant(block, p, p + n - rawPayload, true, i, size, alignment);
      r := Ok(p);
    }

    // ---- deallocate ----

    /** The header a pointer leads to: first candidate 64 bytes below it, second through the word before it. */
    method FindHeader(ptr: nat) returns (header: nat)
      requires Valid() && Owned(ptr) && ptr % 64 == 0
      ensures header == (match Lookup(heap, ptr) case None => 0 case Some(a) => a)
      ensures header == 0 <==> Lookup(heap, ptr).None?
    {
      MagicFindsHeader(mem, heap, ptr);
      WordLeadsToGrid(heap, ptr);
      hide WellFormed, PoolAllocator.Rep, Lookup;
      header := 0;
      if ptr >= HEADER && Owned(ptr - HEADER) {
        var candidate := Load(mem, ptr - HEADER);
        if candidate.magic == MAGIC_USED && !candidate.isAligned {
          return ptr - HEADER;
        }
      }
      if ptr >= SLOT && Owned(ptr - SLOT) && Owned(ptr - 1) {
        var w := At(words, ptr - SLOT);
        assert Owned(w) ==> w % 64 == 0;
        if Owned(w) && Load(mem, w).magic == MAGIC_USED && Load(mem, w).isAligned {
          return w;
        }
      }
    }

    /** A pointer into the arena must be a multiple of 64: only there can a record be read. */
    method Deallocate(ptr: nat) returns (ok: bool)
      requires Valid() && (Owned(ptr) ==> ptr % 64 == 0)
      modifies this
      ensures Valid()
      ensures (heap, ok) == PoolHeap.Deallocate(old(heap), ptr)
      ensures PayloadsKept(old(mem), mem, old(heap).tiles) && words == old(words)
    {
      hide WellFormed, Layout, NoStrayMagic, FreeLinks, FreeTileAt;
      if ptr == 0 {
        return true;
      }
      if !Owned(ptr) {
        return false;
      }
      var header := FindHeader(ptr);
      if header == 0 {
        return false;
      }
      ghost var h := heap;
      ghost var i := IndexOf(h.tiles, header);
      ReleaseBlock(header, i);
      ok := true;
    }

    /** Frees block `i`, merges it with its free neighbours and puts the result in front of the list. */
    method ReleaseBlock(header: nat, ghost i: nat)
      requires Valid() && i < |heap.tiles| && heap.tiles[i].addr == header && heap.tiles[i].status.Used?
      modifies this
      ensures Valid() && heap == FreeTileAt(old(heap), i)
      ensures PayloadsKept(old(mem), mem, old(heap).tiles) && words == old(words)
    {
      hide WellFormed, PoolAllocator.Rep, FreeTileAt, MergeLo, MergeHi, UnlistRun, PayloadsKept, Tiling, IsTile, FreeAt;
      ghost var h, lo, hi, tiles, free := heap, base, base + arena, heap.tiles, heap.free;
      ghost var freed := tiles[i := tiles[i].(status := Free)];
      ReleaseFacts(h, i);
      FreedCounts(h, i);
      MarkFree(header, tiles, free, i, lo, hi);
      ghost var m1 := mem;
      var survivor := CoalesceWithNeighbors(header, freed, free, i, lo, hi);
      ghost var m2 := mem;
      ghost var after := FreeTileAt(h, i);
      Enlist(survivor, after.tiles, UnlistRun(freed, free, i), MergeLo(freed, i));
      KeptByFree(old(mem), m1, m2, mem, h, i, survivor, UnlistRun(freed, free, i));
      heap := after;
      lifetimeFrees := lifetimeFrees + 1;
      activeAllocations := activeAllocations - 1;
    }

    // ---- Introspection ----

    /** Walks the physical list; the figures are those of the layout. */
    method Stats() returns (s: AllocatorStats)
      requires Valid()
      ensures s == AllocatorStats(arena, UsedBytes(heap.tiles), FreeBytes(heap.tiles), HEADER * |heap.tiles|,
                                  LargestFree(heap.tiles), FreeCount(heap.tiles),
                                  heap.allocations, heap.frees, heap.active)
    {
      hide WellFormed, Layout, FreeLinks, NoStrayMagic, Tiling, FreeBytes, UsedBytes, LargestFree, FreeCount;
      s := AllocatorStats(arena, 0, 0, 0, 0, 0, lifetimeAllocations, lifetimeFrees, activeAllocations);
      ghost var tiles, k := heap.tiles, 0;
      StatsStart(heap);
      var b := physicalHead;
      while b != 0
        invariant k <= |tiles| && b == (if k < |tiles| then tiles[k].addr else 0) && (k < |tiles| ==> b > 0)
        invariant s == StatsUpTo(tiles, k, arena, lifetimeAllocations, lifetimeFrees, activeAllocations)
        decreases |tiles| - k
      {
        LinksInMemory(mem, tiles, k);
        StatsStep(tiles, k, arena, lifetimeAllocations, lifetimeFrees, activeAllocations);
        s := s.(headerOverheadBytes := s.headerOverheadBytes + HEADER);
        if mem[b].isFree {
          s := s.(freeBytes := s.freeBytes + mem[b].size, numFreeBlocks := s.numFreeBlocks + 1,
                  largestFreeBlockBytes := Max(s.largestFreeBlockBytes, mem[b].size));
        } else {
          s := s.(usedPayloadBytes := s.usedPayloadBytes + mem[b].size);
        }
        b := mem[b].nextPhys;
        k := k + 1;
        if k < |tiles| {
          BlockFacts(heap, k);
        }
      }
      assert tiles[..|tiles|] == tiles;
    }

    /** Exactly what the walk tests, on any memory whose physical list ends, well-formed or not. */
    method ValidateHeap(ghost chain: seq<nat>) returns (ok: bool)
      requires PhysChain(mem, physicalHead, chain)
      ensures ok <==> (forall j | 0 <= j < |chain| :: BlockPasses(mem, base, arena, chain, j))
                      && ChainBytes(mem, chain) == arena
    {
      var walked, prev, b := 0, 0, physicalHead;
      ghost var j := 0;
      while b != 0
        invariant j <= |chain| && b == (if j < |chain| then chain[j] else 0) && (j < |chain| ==> b > 0)
        invariant prev == (if j == 0 then 0 else chain[j - 1]) && (j > 0 ==> prev > 0 && prev in mem)
        invariant walked == ChainBytes(mem, chain[..j])
        invariant forall i | 0 <= i < j :: BlockPasses(mem, base, arena, chain, i)
        decreases |chain| - j
      {
        var h := mem[b];
        assert chain[..j + 1][..j] == chain[..j];
        if !Owned(b) || h.prevPhys != prev
           || h.magic != (if h.isFree then MAGIC_FREE else MAGIC_USED)
           || (prev != 0 && mem[prev].isFree && h.isFree) {
          assert !BlockPasses(mem, base, arena, chain, j);
          return false;
        }
        assert BlockPasses(mem, base, arena, chain, j);
        walked := walked + HEADER + h.size;
        prev := b;
        b := h.nextPhys;
        j := j + 1;
      }
      assert chain[..|chain|] == chain;
      ok := walked == arena;
    }

    // ---- Clients ----

    /** A client overwrites a record's worth of its own bytes; it does not imitate the in-use magic. */
    method ClientWritesRecord(at: nat, r: Header, ghost i: nat)
      requires Valid() && i < |heap.tiles| && heap.tiles[i].status.Used?
      requires at % 64 == 0 && r.magic != MAGIC_USED
      requires at < heap.tiles[i].status.ptr + heap.tiles[i].status.size
      requires heap.tiles[i].status.ptr < at + HEADER - SLOT
      modifies `mem
      ensures Valid() && heap == old(heap) && mem == old(mem)[at := r]
    {
      hide WellFormed, Aligned, Coalesced;
      SlotInGrant(heap, i, at);
      TilingOfHeap(heap);
      NoTileInside(heap.tiles, i, base, base + arena, at);
      mem := mem[at := r];
      forall j | 0 <= j < |heap.tiles| ensures RecordAt(mem, heap.tiles, j) {
        assert RecordAt(old(mem), heap.tiles, j) && IsTile(heap.tiles, heap.tiles[j].addr);
      }
      LinksFrame(old(mem), mem, freeListHead, heap.free);
    }

    /**
     A client overwrites the last word of a slot inside its own range; an arena address it stores
     there is a multiple of 64.
     */
    method ClientWritesWord(at: nat, value: nat)
      requires Valid() && R.ClientOwns(heap, at) && OnGrid(heap, value)
      modifies `words, `heap
      ensures Valid() && heap == R.Step(old(heap), R.ClientStore(at, value))
    {
      R.StoreKeepsWellFormed(heap, at, value);
      words := words[at := value];
      heap := heap.(words := words);
    }

    method MarkFree(header: nat, ghost tiles: seq<Tile>, ghost free: seq<nat>,
                    ghost i: nat, ghost lo: nat, ghost hi: nat)
      requires Tiling(tiles, lo, hi) && lo > 0 && Rep(tiles, free) && i < |tiles| && tiles[i].addr == header
      modifies `mem
      ensures Rep(tiles[i := tiles[i].(status := Free)], free)
      ensures forall a: nat | !IsTile(tiles, a) :: SameAt(old(mem), mem, a)
    {
      LinksInMemory(mem, tiles, i);
      var r := mem[header].(isFree := true, magic := MAGIC_FREE);
      StatusUpdate(mem, tiles, i, lo, hi, tiles[i].(status := Free), r);
      mem := mem[header := r];
      LinksFrame(old(mem), mem, freeListHead, free);
      assert IsTile(tiles, header);
    }

    /** Puts tile `k` in front of the list. */
    method Enlist(block: nat, ghost tiles: seq<Tile>, ghost free: seq<nat>, ghost k: nat)
      requires Rep(tiles, free) && k < |tiles| && tiles[k].addr == block && block > 0 && block !in free
      modifies `mem, `freeListHead
      ensures Rep(tiles, [block] + free)
      ensures forall a: nat | a != block && a !in free :: SameAt(old(mem), mem, a)
    {
      LinksInMemory(mem, tiles, k);
      FreeListInsertFront(block, free);
      FreeLinksFrame(old(mem), mem, tiles);
    }
  }

  datatype PoolError = ZeroPoolSize

  /** Construction: an empty pool is refused before anything is mapped. */
  method CreatePool(poolSizeBytes: nat, pageSize: nat, mapped: nat) returns (r: Result<PoolAllocator, PoolError>)
    requires poolSizeBytes < WORD && IsPowerOfTwo(pageSize) && 2 * HEADER <= pageSize <= WORD - HEADER
    requires mapped > 0 && mapped % pageSize == 0 && mapped + ArenaSize(poolSizeBytes, pageSize) <= WORD
    ensures r.Err? <==> poolSizeBytes == 0
    ensures r.Ok? ==> var p := r.value;
                      && fresh(p) && p.Valid() && p.base == mapped && p.arena == ArenaSize(poolSizeBytes, pageSize)
                      && R.ArenaOk(p.base, p.arena) && p.heap == R.Fresh(p.base, p.arena)
  {
    if poolSizeBytes == 0 {
      return Err(ZeroPoolSize);
    }
    var p := new PoolAllocator(poolSizeBytes, pageSize, mapped);
    r := Ok(p);
  }

  /** Both places `deallocate` reads a header from are slots. */
  lemma WordLeadsToGrid(h: Heap, p: nat)
    requires WellFormed(h) && p >= SLOT
    ensures OnGrid(h, At(h.words, p - SLOT))
  {}

  /** A slot that reaches into a live range lies inside the block, past its header. */
  lemma SlotInGrant(h: Heap, i: nat, at: nat)
    requires WellFormed(h) && i < |h.tiles| && h.tiles[i].status.Used? && at % 64 == 0
    requires at < h.tiles[i].status.ptr + h.tiles[i].status.size && h.tiles[i].status.ptr < at + HEADER - SLOT
    ensures h.tiles[i].addr < at < h.tiles[i].End()
  {
    assert GrantOk(h.tiles[i], h.words);
  }

  lemma ValidBlockPasses(mem: Memory, h: Heap, j: nat)
    requires WellFormed(h) && Layout(mem, h.tiles) && j < |h.tiles|
    ensures var chain := Addresses(h.tiles);
            && BlockPasses(mem, h.base, h.arena, chain, j)
            && chain[j] > 0 && chain[j] in mem && mem[chain[j]].nextPhys == NextOf(chain, j)
  {
    LinksInMemory(mem, h.tiles, j);
    assert RecordAt(mem, h.tiles, j);
    BlockFacts(h, j);
    TileInArena(h, j);
    if j > 0 {
      LinksInMemory(mem, h.tiles, j - 1);
      NeighbourUsed(h.tiles, j - 1);
    }
    hide WellFormed, Layout;
  }

  /** In every valid state `validate_heap` walks the tiles and returns true. */
  lemma ValidHeapValidates(mem: Memory, h: Heap)
    requires WellFormed(h) && Layout(mem, h.tiles)
    ensures var chain := Addresses(h.tiles);
            && PhysChain(mem, h.base, chain)
            && (forall j | 0 <= j < |chain| :: BlockPasses(mem, h.base, h.arena, chain, j))
            && ChainBytes(mem, chain) == h.arena
  {
    hide WellFormed, Layout, BlockPasses, NextOf;
    var chain := Addresses(h.tiles);
    forall j | 0 <= j < |chain| ensures BlockPasses(mem, h.base, h.arena, chain, j)
                                ensures chain[j] > 0 && chain[j] in mem && mem[chain[j]].nextPhys == NextOf(chain, j)
    {
      ValidBlockPasses(mem, h, j);
    }
    StatsStart(h);
    BytesConserved(h);
    assert h.tiles[..|h.tiles|] == h.tiles && chain[..|chain|] == chain;
    ChainIsTiles(mem, h.tiles, |h.tiles|);
  }

  // ---- What a true answer of `validate_heap` is worth ----

  ghost predicate Passes(mem: Memory, base: nat, arena: nat, chain: seq<nat>) {
    && PhysChain(mem, base, chain)
    && (forall j | 0 <= j < |chain| :: BlockPasses(mem, base, arena, chain, j))
    && ChainBytes(mem, chain) == arena
  }

  /** What the walk does not test: block and successor lie on the grid and touch. */
  predicate Adjoins(mem: Memory, chain: seq<nat>, j: nat)
    requires j < |chain|
  {
    var size := Load(mem, chain[j]).size;
    && chain[j] % 64 == 0 && size % 64 == 0 && size >= 64
    && (j + 1 < |chain| ==> chain[j + 1] == chain[j] + HEADER + size)
  }

  /** The records along the list are those of coalesced blocks that tile the arena. */
  ghost predicate Represents(mem: Memory, base: nat, arena: nat, chain: seq<nat>) {
    exists tiles: seq<Tile> ::
      && Tiling(tiles, base, base + arena) && Coalesced(tiles) && Layout(mem, tiles) && Addresses(tiles) == chain
  }

  /** The block a record describes. */
  function TileOf(mem: Memory, a: nat): Tile {
    var r := Load(mem, a);
    Tile(a, r.size, if r.isFree then Free else Used(0, 0, if r.isAligned then 2 * DEFAULT_ALIGNMENT else 1))
  }

  function TilesOf(mem: Memory, chain: seq<nat>): (tiles: seq<Tile>)
    ensures |tiles| == |chain| && forall j | 0 <= j < |tiles| :: tiles[j] == TileOf(mem, chain[j])
  {
    seq(|chain|, j requires 0 <= j < |chain| => TileOf(mem, chain[j]))
  }

  /** Where touching blocks end after `k` of them. */
  lemma {:induction false} ChainReaches(mem: Memory, chain: seq<nat>, k: nat)
    requires 1 <= k <= |chain| && forall j | 0 <= j < |chain| :: Adjoins(mem, chain, j)
    ensures ChainBytes(mem, chain[..k]) == TileOf(mem, chain[k - 1]).End() - chain[0]
  {
    assert chain[..k][..k - 1] == chain[..k - 1];
    if k > 1 {
      ChainReaches(mem, chain, k - 1);
      assert Adjoins(mem, chain, k - 2);
    } else {
      assert chain[..0] == [];
    }
  }

  lemma {:induction false} LaterBlockBeyond(mem: Memory, chain: seq<nat>, i: nat, j: nat)
    requires i < j < |chain| && forall k | 0 <= k < |chain| :: Adjoins(mem, chain, k)
    ensures TileOf(mem, chain[i]).End() <= chain[j]
  {
    assert Adjoins(mem, chain, j - 1);
    if i < j - 1 {
      LaterBlockBeyond(mem, chain, i, j - 1);
    }
  }

  lemma AdjoiningTile(mem: Memory, chain: seq<nat>, j: nat)
    requires j < |chain| && Adjoins(mem, chain, j)
    ensures Aligned(TileOf(mem, chain[j]))
    ensures j + 1 < |chain| ==> TileOf(mem, chain[j]).End() == chain[j + 1]
  {}

  lemma PassingEnds(mem: Memory, base: nat, arena: nat, chain: seq<nat>)
    requires base > 0 && Passes(mem, base, arena, chain)
    ensures chain != [] && chain[0] == base && ChainBytes(mem, chain[..|chain|]) == arena
  {
    assert chain[..|chain|] == chain;
  }

  lemma AdjoiningChainTiles(mem: Memory, base: nat, arena: nat, chain: seq<nat>)
    requires base > 0 && Passes(mem, base, arena, chain) && forall j | 0 <= j < |chain| :: Adjoins(mem, chain, j)
    ensures Tiling(TilesOf(mem, chain), base, base + arena)
  {
    hide Passes, Adjoins, ChainBytes, Aligned, TileOf;
    var tiles := TilesOf(mem, chain);
    forall i, j | 0 <= i < j < |tiles|
      ensures tiles[i].End() <= tiles[j].addr && (j == i + 1 ==> tiles[i].End() == tiles[j].addr)
    {
      TileStart(mem, chain[j]);
      LaterBlockBeyond(mem, chain, i, j);
      AdjoiningTile(mem, chain, i);
    }
    forall j | 0 <= j < |tiles| ensures Aligned(tiles[j]) {
      AdjoiningTile(mem, chain, j);
    }
    PassingEnds(mem, base, arena, chain);
    TileStart(mem, chain[0]);
    ChainReaches(mem, chain, |chain|);
  }

  lemma TileStart(mem: Memory, a: nat)
    ensures TileOf(mem, a).addr == a
  {}

  lemma PassingRecord(mem: Memory, base: nat, arena: nat, chain: seq<nat>, j: nat)
    requires Passes(mem, base, arena, chain) && j < |chain|
    ensures RecordAt(mem, TilesOf(mem, chain), j)
    ensures j > 0 ==> !(Load(mem, chain[j - 1]).isFree && Load(mem, chain[j]).isFree)
  {
    hide ChainBytes;
    assert BlockPasses(mem, base, arena, chain, j);
    assert chain[j] in mem && mem[chain[j]].nextPhys == NextOf(chain, j);
  }

  lemma PassingRecords(mem: Memory, base: nat, arena: nat, chain: seq<nat>)
    requires Passes(mem, base, arena, chain)
    ensures Layout(mem, TilesOf(mem, chain)) && Coalesced(TilesOf(mem, chain))
  {
    hide RecordAt, Passes, PhysChain, BlockPasses, ChainBytes;
    var tiles := TilesOf(mem, chain);
    forall i | 0 <= i < |tiles| ensures RecordAt(mem, tiles, i) {
      PassingRecord(mem, base, arena, chain, i);
    }
    forall i, j | 0 <= i < j < |tiles| && j == i + 1 ensures !(tiles[i].status.Free? && tiles[j].status.Free?) {
      PassingRecord(mem, base, arena, chain, j);
    }
  }

  lemma TilesAdjoin(mem: Memory, tiles: seq<Tile>, lo: nat, hi: nat, j: nat)
    requires Tiling(tiles, lo, hi) && Layout(mem, tiles) && j < |tiles|
    ensures Adjoins(mem, Addresses(tiles), j)
  {
    LinksInMemory(mem, tiles, j);
    TileAligned(tiles, lo, hi, j);
    assert j + 1 < |tiles| ==> tiles[j].End() == tiles[j + 1].addr;
  }

  /**
   On every memory that `validate_heap` approves the list describes coalesced blocks tiling the
   arena if and only if each block is on the grid and ends where the next one starts: the one
   comparison the walk leaves out.
   */
  lemma TrustedIffAdjoining(mem: Memory, base: nat, arena: nat, chain: seq<nat>)
    requires base > 0 && Passes(mem, base, arena, chain)
    ensures Represents(mem, base, arena, chain) <==> forall j | 0 <= j < |chain| :: Adjoins(mem, chain, j)
  {
    hide Tiling, Layout, Coalesced, Adjoins, Passes;
    if forall j | 0 <= j < |chain| :: Adjoins(mem, chain, j) {
      AdjoiningChainTiles(mem, base, arena, chain);
      PassingRecords(mem, base, arena, chain);
      assert Addresses(TilesOf(mem, chain)) == chain;
    }
    if Represents(mem, base, arena, chain) {
      var tiles: seq<Tile> :| Tiling(tiles, base, base + arena) && Coalesced(tiles) && Layout(mem, tiles)
                              && Addresses(tiles) == chain;
      forall j | 0 <= j < |chain| ensures Adjoins(mem, chain, j) {
        TilesAdjoin(mem, tiles, base, base + arena, j);
      }
    }
  }

  /** The two-block memory whose headers overlap: the first claims all but the last 64 bytes. */
  function OverlappingMemory(base: nat, arena: nat): Memory
    requires arena >= 2 * HEADER
  {
    map[base := Header(arena - 2 * HEADER, false, false, 0, base + HEADER, 0, 0, MAGIC_USED),
        base + HEADER := Header(0, false, false, base, 0, 0, 0, MAGIC_USED)]
  }

  /** Overlapping blocks pass every test of `validate_heap`, its byte count included. */
  lemma OverlapValidates(base: nat, arena: nat)
    requires base > 0 && arena > 2 * HEADER
    ensures var mem, chain := OverlappingMemory(base, arena), [base, base + HEADER];
            && PhysChain(mem, base, chain)
            && (forall j | 0 <= j < |chain| :: BlockPasses(mem, base, arena, chain, j))
            && ChainBytes(mem, chain) == arena
            && chain[1] < chain[0] + HEADER + mem[base].size
            && forall tiles: seq<Tile> :: !(Tiling(tiles, base, base + arena) && Layout(mem, tiles))
  {
    var mem, chain := OverlappingMemory(base, arena), [base, base + HEADER];
    assert chain[..1] == [base] && [base][..0] == [];
    assert ChainBytes(mem, chain[..1]) == HEADER + (arena - 2 * HEADER);
    forall tiles: seq<Tile> ensures !(Tiling(tiles, base, base + arena) && Layout(mem, tiles)) {
      if Tiling(tiles, base, base + arena) && Layout(mem, tiles) {
        LinksInMemory(mem, tiles, 0);
        assert false;
      }
    }
  }

  /** Nor is the free list looked at: a fresh arena whose only free block has dropped off it validates. */
  lemma LostFreeBlockValidates(base: nat, arena: nat)
    requires R.ArenaOk(base, arena)
    ensures var mem, chain := map[base := Header(arena - HEADER, true, false, 0, 0, 0, 0, MAGIC_FREE)], [base];
            && PhysChain(mem, base, chain)
            && (forall j | 0 <= j < |chain| :: BlockPasses(mem, base, arena, chain, j))
            && ChainBytes(mem, chain) == arena
            && Layout(mem, R.FreshHeap(base, arena).tiles)
            && forall free: seq<nat> :: FreeLinks(mem, 0, free) ==> !FreeListExact(R.FreshHeap(base, arena).tiles, free)
  {
    var mem, chain, tiles := map[base := Header(arena - HEADER, true, false, 0, 0, 0, 0, MAGIC_FREE)], [base],
                             R.FreshHeap(base, arena).tiles;
    assert chain[..0] == [];
    assert ChainBytes(mem, chain[..0]) == 0;
    assert FreeAt(tiles, base) by { assert tiles[0].addr == base; }
    forall free: seq<nat> | FreeLinks(mem, 0, free) ensures !FreeListExact(tiles, free) {
      assert free == [] || FreeLinkAt(mem, free, 0);
      assert base !in free;
    }
  }

  lemma {:induction false} ChainIsTiles(mem: Memory, tiles: seq<Tile>, k: nat)
    requires Layout(mem, tiles) && k <= |tiles|
    ensures ChainBytes(mem, Addresses(tiles)[..k]) == HEADER * k + FreeBytes(tiles[..k]) + UsedBytes(tiles[..k])
  {
    if k > 0 {
      ChainIsTiles(mem, tiles, k - 1);
      assert RecordAt(mem, tiles, k - 1);
      assert tiles[..k][..k - 1] == tiles[..k - 1];
      assert Addresses(tiles)[..k][..k - 1] == Addresses(tiles)[..k - 1];
    }
  }

  lemma GrantFacts(h: Heap, i: nat, size: nat, align: nat)
    requires WellFormed(h) && Fits(h, i, size, align)
    ensures var h', t, p := Granted(h, i, size, align), h.tiles[i], GrantPtr(h.tiles[i], size, align);
            && WellFormed(h') && h'.base == h.base && h'.arena == h.arena && i < |h.tiles| && t.status.Free?
            && 1 <= Extent(t, size, align) <= t.size
            && h'.tiles == Carve(h.tiles, i, Extent(t, size, align), Used(p, Max(size, 1), align))
            && h'.free == FreeAfterCarve(h.free, t, Extent(t, size, align))
            && h'.words == (if align > DEFAULT_ALIGNMENT then h.words[p - SLOT := t.addr] else h.words)
            && h'.allocations == h.allocations + 1 && h'.frees == h.frees && h'.active == h.active + 1
  {
    hide GrantPtr, Extent, IsPowerOfTwo, Splits, KeptExtent, SpanNeeded, GrantOk, Carve, FreeAfterCarve, AlignUp;
    TileInArena(h, i);
    TileAligned(h.tiles, h.base, h.base + h.arena, i);
    NewGrantOk(h, i, size, align);
    GrantedKeepsWellFormed(h, i, size, align);
  }

  lemma PageRounding(size: nat, page: nat, mapped: nat)
    requires 0 < size < WORD && IsPowerOfTwo(page) && 2 * HEADER <= page <= WORD - HEADER
    requires mapped > 0 && mapped % page == 0 && mapped + ArenaSize(size, page) <= WORD
    ensures R.ArenaOk(mapped, ArenaSize(size, page))
  {
    hide IsPowerOfTwo, AlignUp, ArenaSize;
    ArenaSizeMeaning(size, page);
    var a := ArenaSize(size, page);
    SmallPowers();
    PowerOfTwoDivides(64, page);
    ModTrans(mapped, 64, page);
    ModTrans(a, 64, page);
  }

  /** The neighbours that the record of entry `k` names. */
  lemma LinksAround(mem: Memory, head: nat, free: seq<nat>, k: nat)
    requires FreeLinks(mem, head, free) && k < |free|
    ensures free[k] in mem && free[k] != 0
    ensures mem[free[k]].prevFree == PrevOf(free, k) && mem[free[k]].nextFree == NextOf(free, k)
    ensures k > 0 ==> free[k - 1] in mem && free[k - 1] != 0 && free[k - 1] != free[k]
    ensures k + 1 < |free| ==> free[k + 1] in mem && free[k + 1] != 0 && free[k + 1] != free[k]
    ensures 0 < k < |free| - 1 ==> free[k - 1] != free[k + 1]
  {
    assert FreeLinkAt(mem, free, k);
    assert k > 0 ==> FreeLinkAt(mem, free, k - 1);
    assert k + 1 < |free| ==> FreeLinkAt(mem, free, k + 1);
  }

  /** Unlinking entry `k` leaves a correctly linked list of the others. */
  lemma RemovedLinks(mem: Memory, mem': Memory, free: seq<nat>, k: nat)
    requires k < |free| && NoDup(free) && free[k] in mem
    requires forall j | 0 <= j < |free| :: FreeLinkAt(mem, free, j)
    requires mem'.Keys == mem.Keys
    requires forall a | a in mem && a != free[k] ::
               mem'[a] == mem[a].(
                 nextFree := if k > 0 && a == free[k - 1] then NextOf(free, k) else mem[a].nextFree,
                 prevFree := if k + 1 < |free| && a == free[k + 1] then PrevOf(free, k) else mem[a].prevFree)
    ensures var rest := free[..k] + free[k + 1..];
            NoDup(rest) && forall j | 0 <= j < |rest| :: FreeLinkAt(mem', rest, j)
  {
    var rest := free[..k] + free[k + 1..];
    forall j | 0 <= j < |rest| ensures FreeLinkAt(mem', rest, j) {
      var o := if j < k then j else j + 1;
      assert rest[j] == free[o] && FreeLinkAt(mem, free, o);
      assert free[o] != free[k];
    }
  }
}
