/** Whole runs of the allocator, clients writing their memory included. */
module PoolRuns {
  import opened Basics
  import opened Bits
  import opened PoolHeap
  import opened PoolInvariant
  import opened PoolTheorems

  datatype HeapOp =
    | Alloc(size: nat, align: nat)
    | Dealloc(ptr: nat)
    | ClientStore(at: nat, value: nat)  // a client changes the 8-byte word at `at`

  /** The word at `at` (one that could ever hold a back-pointer) overlaps a live range. */
  ghost predicate ClientOwns(h: Heap, at: nat) {
    && at % 64 == 56
    && exists i :: 0 <= i < |h.tiles| && h.tiles[i].status.Used?
                   && at < h.tiles[i].status.ptr + h.tiles[i].status.size && h.tiles[i].status.ptr < at + SLOT
  }

  /**
   Requests do not wrap. Any address outside the arena and any multiple of 64 inside it may be
   freed, live or not. Clients store inside what they were given, and a stored arena address is
   a multiple of 64: elsewhere the code would read header fields out of other bytes.
   */
  ghost predicate Legal(h: Heap, op: HeapOp) {
    match op
    case Alloc(size, align) => NoWrap(size, align)
    case Dealloc(p) => OnGrid(h, p)
    case ClientStore(at, value) => ClientOwns(h, at) && OnGrid(h, value)
  }

  ghost function Step(h: Heap, op: HeapOp): Heap
    requires WellFormed(h) && Legal(h, op)
  {
    match op
    case Alloc(size, align) => Allocate(h, size, align).0
    case Dealloc(p) => Deallocate(h, p).0
    case ClientStore(at, value) => h.(words := h.words[at := value])
  }

  /** A live client cannot reach any back-pointer by writing its own bytes. */
  lemma StoreKeepsWellFormed(h: Heap, at: nat, value: nat)
    requires WellFormed(h) && ClientOwns(h, at) && OnGrid(h, value)
    ensures WellFormed(h.(words := h.words[at := value]))
  {
    hide Tiling, Coalesced, FreeListExact, IsPowerOfTwo, UsedCount;
    var i :| 0 <= i < |h.tiles| && h.tiles[i].status.Used?
             && at < h.tiles[i].status.ptr + h.tiles[i].status.size && h.tiles[i].status.ptr < at + SLOT;
    assert GrantOk(h.tiles[i], h.words);
    WordsOfSlots(h.tiles[i].status.ptr, at);
    forall j | 0 <= j < |h.tiles| && h.tiles[j].status.Used?
      ensures GrantOk(h.tiles[j], h.words[at := value])
    {
      if j != i {
        OtherGrantsKept(h.tiles, i, j, h.base, h.base + h.arena, h.words, at, value);
      }
    }
  }

  /** A slot's last word that reaches past a 64-aligned pointer starts at or above it. */
  lemma WordsOfSlots(p: nat, at: nat)
    requires p % 64 == 0 && at % 64 == 56 && p < at + SLOT
    ensures p <= at && at != p - SLOT
  {}

  lemma StepKeepsWellFormed(h: Heap, op: HeapOp)
    requires WellFormed(h) && Legal(h, op)
    ensures WellFormed(Step(h, op)) && Step(h, op).base == h.base && Step(h, op).arena == h.arena
  {
    hide WellFormed, Allocate, Deallocate;
    match op
    case Alloc(size, align) => AllocateKeepsWellFormed(h, size, align);
    case Dealloc(p) => DeallocateKeepsWellFormed(h, p);
    case ClientStore(at, value) => StoreKeepsWellFormed(h, at, value);
  }

  ghost predicate LegalRun(h: Heap, ops: seq<HeapOp>)
    requires WellFormed(h)
    decreases |ops|
  {
    ops == [] || (Legal(h, ops[0]) && (StepKeepsWellFormed(h, ops[0]); LegalRun(Step(h, ops[0]), ops[1..])))
  }

  ghost function Run(h: Heap, ops: seq<HeapOp>): (h': Heap)
    requires WellFormed(h) && LegalRun(h, ops)
    ensures WellFormed(h') && h'.base == h.base && h'.arena == h.arena
    decreases |ops|
  {
    if ops == [] then h
    else
      StepKeepsWellFormed(h, ops[0]);
      Run(Step(h, ops[0]), ops[1..])
  }

  /** The constructor's arena: one free block. */
  ghost predicate ArenaOk(base: nat, arena: nat) {
    0 < base && base % 64 == 0 && arena % 64 == 0 && 2 * HEADER <= arena && base + arena <= WORD
  }

  function FreshHeap(base: nat, arena: nat): Heap
    requires arena >= HEADER
  {
    Heap(base, arena, [Tile(base, arena - HEADER, Free)], [base], map[], 0, 0, 0)
  }

  lemma FreshWellFormed(base: nat, arena: nat)
    requires ArenaOk(base, arena)
    ensures WellFormed(FreshHeap(base, arena))
  {
    var h := FreshHeap(base, arena);
    CountOne(h.tiles[0]);
    assert FreeAt(h.tiles, base);
  }

  ghost function Fresh(base: nat, arena: nat): (h: Heap)
    requires ArenaOk(base, arena)
    ensures WellFormed(h) && h == FreshHeap(base, arena)
  {
    FreshWellFormed(base, arena);
    FreshHeap(base, arena)
  }

  /**
   After every legal run from a fresh arena: blocks tile the arena, no two free neighbours, the
   free list is exact, every live pointer would be recovered and accepted, live ranges are
   safe, and bytes and counts balance.
   */
  lemma EveryRunIsSafe(base: nat, arena: nat, ops: seq<HeapOp>)
    requires ArenaOk(base, arena) && LegalRun(Fresh(base, arena), ops)
    ensures var h := Run(Fresh(base, arena), ops);
            && WellFormed(h)
            && (forall p: nat | Live(h, p) :: p != 0 && OnGrid(h, p) && Deallocate(h, p).1)
            && (forall i | 0 <= i < |h.tiles| && h.tiles[i].status.Used? ::
                  Lookup(h, h.tiles[i].status.ptr) == Some(h.tiles[i].addr))
            && (forall i, j | 0 <= i < |h.tiles| && 0 <= j < |h.tiles| && h.tiles[i].status.Used? ::
                  RangeSafe(h, i, j))
            && HEADER * |h.tiles| + FreeBytes(h.tiles) + UsedBytes(h.tiles) == arena
            && h.active == UsedCount(h.tiles) == h.allocations - h.frees
  {
    hide WellFormed, RangeSafe, Lookup, Deallocate, Live, LegalRun;
    var h := Run(Fresh(base, arena), ops);
    BytesConserved(h);
    CountsBalance(h);
    forall i, j | 0 <= i < |h.tiles| && 0 <= j < |h.tiles| && h.tiles[i].status.Used? ensures RangeSafe(h, i, j) {
      LiveRangeIsSafe(h, i, j);
    }
    forall i | 0 <= i < |h.tiles| && h.tiles[i].status.Used?
      ensures Lookup(h, h.tiles[i].status.ptr) == Some(h.tiles[i].addr)
    {
      LookupRecoversHeader(h, i);
    }
    forall p: nat | Live(h, p) ensures p != 0 && OnGrid(h, p) && Deallocate(h, p).1 {
      LiveOnGrid(h, p);
      AcceptedIffLiveOrAlias(h, p);
    }
  }

  lemma CountsBalance(h: Heap)
    requires WellFormed(h)
    ensures h.active == UsedCount(h.tiles) == h.allocations - h.frees
  {}

  lemma LiveOnGrid(h: Heap, p: nat)
    requires WellFormed(h) && Live(h, p)
    ensures p != 0 && OnGrid(h, p)
  {
    var i :| 0 <= i < |h.tiles| && h.tiles[i].status.Used? && h.tiles[i].status.ptr == p;
    assert GrantOk(h.tiles[i], h.words);
  }

  /** However a run got there, once nothing is live the arena is as it was built. */
  lemma RunsEndWhole(base: nat, arena: nat, ops: seq<HeapOp>)
    requires ArenaOk(base, arena) && LegalRun(Fresh(base, arena), ops)
    requires Run(Fresh(base, arena), ops).active == 0
    ensures Run(Fresh(base, arena), ops).tiles == Fresh(base, arena).tiles
    ensures Run(Fresh(base, arena), ops).free == Fresh(base, arena).free
  {
    hide WellFormed, LegalRun, Run;
    AllFreedIsOneBlock(Run(Fresh(base, arena), ops));
  }

  /** The back-pointer of a live over-aligned allocation survives whatever happens next. */
  lemma BackPointerSurvives(h: Heap, op: HeapOp, i: nat)
    requires WellFormed(h) && Legal(h, op) && i < |h.tiles| && h.tiles[i].status.Used?
    requires h.tiles[i].status.align > DEFAULT_ALIGNMENT
    ensures var p := h.tiles[i].status.ptr;
            p >= SLOT && At(h.words, p - SLOT) == h.tiles[i].addr
            && At(Step(h, op).words, p - SLOT) == h.tiles[i].addr
  {
    assert GrantOk(h.tiles[i], h.words);
    match op {
      case Dealloc(_) =>
      case ClientStore(at, value) => StoreMissesSlot(h, at, i);
      case Alloc(size, align) => AllocationMissesSlot(h, size, align, i);
    }
  }

  lemma StoreMissesSlot(h: Heap, at: nat, i: nat)
    requires WellFormed(h) && ClientOwns(h, at) && i < |h.tiles| && h.tiles[i].status.Used?
    requires h.tiles[i].status.align > DEFAULT_ALIGNMENT
    ensures at != h.tiles[i].status.ptr - SLOT
  {
    var j :| 0 <= j < |h.tiles| && h.tiles[j].status.Used?
             && at < h.tiles[j].status.ptr + h.tiles[j].status.size && h.tiles[j].status.ptr < at + SLOT;
    assert GrantOk(h.tiles[j], h.words) && GrantOk(h.tiles[i], h.words);
    WordsOfSlots(h.tiles[j].status.ptr, at);
    assert i < j ==> h.tiles[i].End() <= h.tiles[j].addr;
    assert j < i ==> h.tiles[j].End() <= h.tiles[i].addr;
  }

  lemma SlotInside(h: Heap, i: nat)
    requires WellFormed(h) && i < |h.tiles| && h.tiles[i].status.Used?
    requires h.tiles[i].status.align > DEFAULT_ALIGNMENT
    ensures h.tiles[i].addr <= h.tiles[i].status.ptr - SLOT < h.tiles[i].End()
  {
    assert GrantOk(h.tiles[i], h.words);
  }

  lemma AllocationMissesSlot(h: Heap, size: nat, align: nat, i: nat)
    requires WellFormed(h) && NoWrap(size, align) && i < |h.tiles| && h.tiles[i].status.Used?
    requires h.tiles[i].status.align > DEFAULT_ALIGNMENT && h.tiles[i].status.ptr >= SLOT
    ensures var at := h.tiles[i].status.ptr - SLOT; At(Allocate(h, size, align).0.words, at) == At(h.words, at)
  {
    hide GrantPtr, SpanNeeded, IsPowerOfTwo, Extent, Splits, KeptExtent, Chosen, Carve, FreeAfterCarve;
    if IsPowerOfTwo(align) && Chosen(h, size, align).Some? {
      var k := Chosen(h, size, align).value;
      TileInArena(h, k);
      TileAligned(h.tiles, h.base, h.base + h.arena, k);
      NewGrantOk(h, k, size, align);
      SlotInside(h, i);
      TilesApart(h, i, k);
      hide WellFormed, GrantOk;
    }
  }

  // ---- Runs with default alignment only ----

  predicate DefaultAlignments(ops: seq<HeapOp>) {
    forall i | 0 <= i < |ops| && ops[i].Alloc? :: ops[i].align <= DEFAULT_ALIGNMENT
  }

  lemma StandardStep(h: Heap, op: HeapOp)
    requires WellFormed(h) && Legal(h, op) && StandardOnly(h)
    requires op.Alloc? ==> op.align <= DEFAULT_ALIGNMENT
    ensures StandardOnly(Step(h, op))
  {
    match op
    case ClientStore(_, _) =>
    case Alloc(size, align) => StandardAllocate(h, size, align);
    case Dealloc(p) => StandardDeallocate(h, p);
  }

  lemma StandardAllocate(h: Heap, size: nat, align: nat)
    requires WellFormed(h) && NoWrap(size, align) && StandardOnly(h) && align <= DEFAULT_ALIGNMENT
    ensures StandardOnly(Allocate(h, size, align).0)
  {
    hide GrantPtr, SpanNeeded, IsPowerOfTwo, Extent, Splits, KeptExtent, Replace, WellFormed;
    if Allocate(h, size, align).1.Ok? {
      var k := Chosen(h, size, align).value;
      var extent, status := Extent(h.tiles[k], size, align),
                            Used(GrantPtr(h.tiles[k], size, align), Max(size, 1), align);
      CarveIsReplace(h.tiles, k, extent, status);
      hide Carve;
      ReplaceAll(h.tiles, k, k, Parts(h.tiles[k], extent, status), Standard);
    }
  }

  lemma StandardDeallocate(h: Heap, p: nat)
    requires WellFormed(h) && OnGrid(h, p) && StandardOnly(h)
    ensures StandardOnly(Deallocate(h, p).0)
  {
    hide Replace, Lookup;
    if p != 0 && Lookup(h, p).Some? {
      var i := IndexOf(h.tiles, Lookup(h, p).value);
      MergeRun(h.tiles, i, h.base, h.base + h.arena);
      var l, r := MergeLo(h.tiles, i), MergeHi(h.tiles, i);
      hide MergeLo, MergeHi;
      ReplaceAll(h.tiles, l, r, [Merged(h.tiles, l, r)], Standard);
    }
  }

  lemma CarveIsReplace(tiles: seq<Tile>, i: nat, extent: nat, status: Status)
    requires i < |tiles| && tiles[i].size + 64 <= WORD
    ensures Carve(tiles, i, extent, status) == Replace(tiles, i, i, Parts(tiles[i], extent, status))
  {}

  lemma ReplaceAll(tiles: seq<Tile>, l: nat, r: nat, parts: seq<Tile>, good: Tile -> bool)
    requires l <= r < |tiles| && |parts| >= 1
    requires forall i | 0 <= i < |tiles| :: good(tiles[i])
    requires forall i | 0 <= i < |parts| :: good(parts[i])
    ensures var c := Replace(tiles, l, r, parts); forall i | 0 <= i < |c| :: good(c[i])
  {
    var c := Replace(tiles, l, r, parts);
    forall i | 0 <= i < |c| ensures good(c[i]) {
      ReplaceAt(tiles, l, r, parts, i);
    }
  }

  lemma {:induction false} StandardRun(h: Heap, ops: seq<HeapOp>)
    requires WellFormed(h) && LegalRun(h, ops) && StandardOnly(h) && DefaultAlignments(ops)
    ensures StandardOnly(Run(h, ops))
    decreases |ops|
  {
    if ops != [] {
      StepKeepsWellFormed(h, ops[0]);
      StandardStep(h, ops[0]);
      StandardRun(Step(h, ops[0]), ops[1..]);
    }
  }

  /**
   In every run whose requests all have alignment 64 or less, deallocate accepts a pointer
   exactly when it is live, and a refused call changes nothing: double frees are always caught.
   */
  lemma DoubleFreeCaught(base: nat, arena: nat, ops: seq<HeapOp>, p: nat)
    requires ArenaOk(base, arena) && LegalRun(Fresh(base, arena), ops)
    requires DefaultAlignments(ops) && p != 0 && OnGrid(Fresh(base, arena), p)
    ensures var h := Run(Fresh(base, arena), ops);
            OnGrid(h, p) && (Deallocate(h, p).1 <==> Live(h, p)) && (!Live(h, p) ==> Deallocate(h, p).0 == h)
  {
    StandardRun(Fresh(base, arena), ops);
    StandardAcceptanceExact(Run(Fresh(base, arena), ops), p);
  }

  // ---- Used bytes are not bytes handed out ----

  /** One byte handed out from a fresh arena is reported as a whole line. */
  lemma OneByteReportedAsLine(base: nat, arena: nat)
    requires ArenaOk(base, arena) && arena >= 4 * HEADER
    ensures var ops := [Alloc(1, 64)];
            && LegalRun(Fresh(base, arena), ops)
            && var h := Run(Fresh(base, arena), ops);
               RequestedBytes(h.tiles) == 1 && UsedBytes(h.tiles) == 64
  {
    var h, ops := Fresh(base, arena), [Alloc(1, 64)];
    SmallPowers();
    assert ops[1..] == [];
    StepKeepsWellFormed(h, ops[0]);
    var h' := Allocate(h, 1, 64).0;
    assert LegalRun(h', []) && Run(h', []) == h';
    FirstByte(h);
  }

  lemma FirstByte(h: Heap)
    requires WellFormed(h) && h.active == 0 && h.arena >= 4 * HEADER && IsPowerOfTwo(64) && NoWrap(1, 64)
    ensures var tiles := Allocate(h, 1, 64).0.tiles;
            RequestedBytes(tiles) == 1 && UsedBytes(tiles) == 64
  {
    hide Allocate, WellFormed;
    AllFreedIsOneBlock(h);
    FirstSplit(h);
    var tiles := Allocate(h, 1, 64).0.tiles;
    assert tiles == [tiles[0], tiles[1]];
    OneUsedBlock(tiles[0], tiles[1]);
  }

  lemma OneUsedBlock(used: Tile, rest: Tile)
    requires used.status.Used? && rest.status.Free?
    ensures RequestedBytes([used, rest]) == used.status.size && UsedBytes([used, rest]) == used.size
  {
    assert [used, rest][..1] == [used] && [used][..0] == [];
    assert RequestedBytes([used]) == used.status.size && UsedBytes([used]) == used.size;
  }

  lemma FirstSplit(h: Heap)
    requires WellFormed(h) && h.tiles == [Tile(h.base, h.arena - HEADER, Free)] && h.free == [h.base]
    requires h.arena >= 4 * HEADER && IsPowerOfTwo(64) && NoWrap(1, 64)
    ensures var tiles := Allocate(h, 1, 64).0.tiles;
            && |tiles| == 2 && tiles[0].size == 64 && tiles[0].status == Used(h.base + HEADER, 1, 64)
            && tiles[1].status.Free?
  {
    SmallPowers();
    FailsBelowSpan(h, 1, 64);
    TileInArena(h, 0);
    TileAligned(h.tiles, h.base, h.base + h.arena, 0);
    LeastMultiple(1, 16, AlignUp(1, 16), 16);
    LeastMultiple(16, 64, AlignUp(16, 64), 64);
    KeptExtentFacts(h.tiles[0].size, 16);
  }

  // ---- Runs with one over-alignment ----

  /** Where an over-aligned request for alignment `a` lands in the block at `addr`. */
  function PointerFor(addr: nat, a: nat): nat
    requires IsPowerOfTwo(a)
  {
    if addr + HEADER + SLOT + a <= WORD then AlignUp(addr + HEADER + SLOT, a) else 0
  }

  predicate Predictable(t: Tile, a: nat)
    requires IsPowerOfTwo(a)
  {
    t.status.Used? && t.status.align > DEFAULT_ALIGNMENT ==>
      t.status.align == a && t.status.ptr == PointerFor(t.addr, a)
  }

  /** Every word that names an arena address stands where that address's pointer would have put it. */
  ghost predicate WordsMatch(h: Heap, a: nat)
    requires IsPowerOfTwo(a)
  {
    forall at | at in h.words && Owns(h, h.words[at]) :: at + SLOT == PointerFor(h.words[at], a)
  }

  ghost predicate OneAlignment(h: Heap, a: nat)
    requires IsPowerOfTwo(a)
  {
    WordsMatch(h, a) && forall i | 0 <= i < |h.tiles| :: Predictable(h.tiles[i], a)
  }

  /** Requests use alignment `a` or at most 64; no client stores an arena address where a back-pointer could be. */
  predicate UsesOneAlignment(base: nat, arena: nat, op: HeapOp, a: nat) {
    match op
    case Alloc(_, align) => align <= DEFAULT_ALIGNMENT || align == a
    case Dealloc(_) => true
    case ClientStore(_, value) => !(base <= value < base + arena)
  }

  lemma OneAlignmentAllocate(h: Heap, size: nat, align: nat, a: nat)
    requires WellFormed(h) && NoWrap(size, align) && IsPowerOfTwo(a) && OneAlignment(h, a)
    requires align <= DEFAULT_ALIGNMENT || align == a
    ensures OneAlignment(Allocate(h, size, align).0, a)
  {
    hide SpanNeeded, IsPowerOfTwo, Extent, Splits, KeptExtent, Replace, WellFormed, AlignUp;
    if Allocate(h, size, align).1.Ok? {
      var k := Chosen(h, size, align).value;
      var extent, status := Extent(h.tiles[k], size, align),
                            Used(GrantPtr(h.tiles[k], size, align), Max(size, 1), align);
      CarveIsReplace(h.tiles, k, extent, status);
      hide Carve;
      ReplaceAll(h.tiles, k, k, Parts(h.tiles[k], extent, status), t => Predictable(t, a));
    }
  }

  lemma OneAlignmentDeallocate(h: Heap, p: nat, a: nat)
    requires WellFormed(h) && OnGrid(h, p) && IsPowerOfTwo(a) && OneAlignment(h, a)
    ensures OneAlignment(Deallocate(h, p).0, a)
  {
    hide WellFormed, Replace, Lookup, PointerFor, IsPowerOfTwo, IndexOf;
    if p != 0 && Lookup(h, p).Some? {
      var i := IndexOf(h.tiles, Lookup(h, p).value);
      TilingOf(h);
      MergeRun(h.tiles, i, h.base, h.base + h.arena);
      var l, r := MergeLo(h.tiles, i), MergeHi(h.tiles, i);
      hide MergeLo, MergeHi;
      ReplaceAll(h.tiles, l, r, [Merged(h.tiles, l, r)], t => Predictable(t, a));
    }
  }

  lemma {:induction false} OneAlignmentRun(h: Heap, ops: seq<HeapOp>, a: nat)
    requires WellFormed(h) && LegalRun(h, ops) && IsPowerOfTwo(a) && OneAlignment(h, a)
    requires forall i | 0 <= i < |ops| :: UsesOneAlignment(h.base, h.arena, ops[i], a)
    ensures OneAlignment(Run(h, ops), a)
    decreases |ops|
  {
    hide WellFormed, Allocate, Deallocate, PointerFor, IsPowerOfTwo;
    if ops != [] {
      StepKeepsWellFormed(h, ops[0]);
      assert UsesOneAlignment(h.base, h.arena, ops[0], a);
      match ops[0] {
        case Alloc(size, align) => OneAlignmentAllocate(h, size, align, a);
        case Dealloc(p) => OneAlignmentDeallocate(h, p, a);
        case ClientStore(_, _) =>
      }
      OneAlignmentRun(Step(h, ops[0]), ops[1..], a);
    }
  }

  /** Then a word that names a live over-aligned block is that block's own back-pointer. */
  lemma NoAlias(h: Heap, p: nat, a: nat)
    requires WellFormed(h) && IsPowerOfTwo(a) && OneAlignment(h, a)
    ensures !StaleAlias(h, p)
  {
    hide WellFormed, PointerFor;
    if StaleAlias(h, p) {
      var w := At(h.words, p - SLOT);
      BaseIsPositive(h);
      assert false;
    }
  }

  lemma BaseIsPositive(h: Heap)
    requires WellFormed(h)
    ensures h.base > 0
  {}

  /**
   In every run whose over-aligned requests all ask for the same alignment acceptance is exact
   too: it takes two different over-alignments to defeat the double-free check.
   */
  lemma DoubleFreeCaughtOneAlignment(base: nat, arena: nat, ops: seq<HeapOp>, a: nat, p: nat)
    requires ArenaOk(base, arena) && LegalRun(Fresh(base, arena), ops) && IsPowerOfTwo(a)
    requires forall i | 0 <= i < |ops| :: UsesOneAlignment(base, arena, ops[i], a)
    requires p != 0 && OnGrid(Fresh(base, arena), p)
    ensures var h := Run(Fresh(base, arena), ops);
            OnGrid(h, p) && (Deallocate(h, p).1 <==> Live(h, p)) && (!Live(h, p) ==> Deallocate(h, p).0 == h)
  {
    hide WellFormed, PointerFor, Lookup, StaleAlias, Live;
    OneAlignmentRun(Fresh(base, arena), ops, a);
    var h := Run(Fresh(base, arena), ops);
    NoAlias(h, p, a);
    AcceptedIffLiveOrAlias(h, p);
  }

  // ---- A double free that is not caught ----

  /** The first over-aligned allocation in an empty arena goes one alignment above its base. */
  lemma FirstOverAligned(h: Heap, align: nat)
    requires WellFormed(h) && h.active == 0 && NoWrap(1, align)
    requires IsPowerOfTwo(align) && 2 * DEFAULT_ALIGNMENT <= align && align + 2 * HEADER <= h.arena
    requires h.base % align == 0
    ensures var (h', r) := Allocate(h, 1, align);
            var p := h.base + align;
            && r == Ok(p) && WellFormed(h') && |h'.tiles| >= 1
            && h'.tiles[0].addr == h.base && h'.tiles[0].status == Used(p, 1, align)
            && h'.words == h.words[p - SLOT := h.base]
            && h'.base == h.base && h'.arena == h.arena
            && (forall i | 0 <= i < |h'.tiles| && h'.tiles[i].status.Used? :: i == 0)
  {
    AllFreedIsOneBlock(h);
    FailsBelowSpan(h, 1, align);
    var t := h.tiles[0];
    assert t.size >= SpanNeeded(1, align);
    TileInArena(h, 0);
    TileAligned(h.tiles, h.base, h.base + h.arena, 0);
    OverAlignedFits(t, 1, align);
    assert Chosen(h, 1, align).value == 0;
    AllocateKeepsWellFormed(h, 1, align);
    CarveIsReplace(h.tiles, 0, Extent(t, 1, align), Used(GrantPtr(t, 1, align), 1, align));
    AlignUpFromBase(h.base, align);
  }

  lemma AlignUpFromBase(base: nat, align: nat)
    requires IsPowerOfTwo(align) && 2 * DEFAULT_ALIGNMENT <= align && base % align == 0
    requires base + HEADER + SLOT + align <= WORD
    ensures AlignUp(base + HEADER + SLOT, align) == base + align
  {
    var r := AlignUp(base + HEADER + SLOT, align);
    MultiplesApart(base, r, align);
    LeastMultiple(base + HEADER + SLOT, align, r, base + align);
  }

  /** A second, stricter allocation leaves the first one's stale word naming its block. */
  lemma ReuseLeavesAlias(h: Heap, p: nat)
    requires WellFormed(h) && h.active == 0 && h.base % 256 == 0 && h.arena >= 1024 && IsPowerOfTwo(256)
    requires p == h.base + 128 && At(h.words, p - SLOT) == h.base
    ensures NoWrap(1, 256)
    ensures var h' := Allocate(h, 1, 256).0;
            && WellFormed(h') && StaleAlias(h', p) && !Live(h', p) && Live(h', h.base + 256)
            && p >= SLOT && OnGrid(h', p) && |h'.tiles| >= 1 && h'.tiles[0].addr == At(h'.words, p - SLOT)
            && h'.tiles[0].status == Used(h.base + 256, 1, 256) && h'.base == h.base && h'.arena == h.arena
  {
    hide Allocate, IsPowerOfTwo, WellFormed, StaleAlias, Live;
    FirstOverAligned(h, 256);
    FirstTileAlias(Allocate(h, 1, 256).0, p);
  }

  /** With one live allocation, the word below another pointer names its block. */
  lemma FirstTileAlias(h: Heap, p: nat)
    requires WellFormed(h) && |h.tiles| >= 1 && p == h.base + 128 && p < h.base + h.arena
    requires h.tiles[0].addr == h.base && h.tiles[0].status == Used(h.base + 256, 1, 256)
    requires forall i | 0 <= i < |h.tiles| && h.tiles[i].status.Used? :: i == 0
    requires At(h.words, p - SLOT) == h.base && h.base % 64 == 0
    ensures StaleAlias(h, p) && !Live(h, p) && Live(h, h.base + 256) && OnGrid(h, p)
  {
    hide WellFormed, UsedAt, IndexOf, Tiling;
    TilingOf(h);
    BaseIsPositive(h);
    UsedTileAt(h, 0, true);
    IndexUnique(h.tiles, h.base, h.base + h.arena, 0);
    assert h.tiles[0].status.ptr == h.base + 256;
  }

  /**
   Free an over-aligned pointer, let its block be reused for a stricter alignment, and free the
   old pointer again: the second free is accepted and takes the new owner's block.
   */
  lemma DoubleFreeAccepted(base: nat, arena: nat, ops: seq<HeapOp>)
    requires ArenaOk(base, arena) && base % 256 == 0 && arena >= 1024
    requires ops == [Alloc(1, 128), Dealloc(base + 128), Alloc(1, 256)]
    ensures LegalRun(Fresh(base, arena), ops)
    ensures var h := Run(Fresh(base, arena), ops);
            && Live(h, base + 256) && !Live(h, base + 128)
            && OnGrid(h, base + 128)
            && Deallocate(h, base + 128).1 && !Live(Deallocate(h, base + 128).0, base + 256)
  {
    hide Allocate, Deallocate, WellFormed, Live, StaleAlias, LegalRun, Run, IsPowerOfTwo;
    var h0, p := Fresh(base, arena), base + 128;
    SmallPowers();
    FirstCycle(h0);
    var h2 := Deallocate(Allocate(h0, 1, 128).0, p).0;
    ReuseLeavesAlias(h2, p);
    var h := Allocate(h2, 1, 256).0;
    AliasAccepted(h, p);
    ThreeSteps(h0, ops);
  }

  lemma AliasAccepted(h: Heap, p: nat)
    requires WellFormed(h) && p >= SLOT && OnGrid(h, p) && StaleAlias(h, p) && !Live(h, p)
    requires |h.tiles| >= 1 && h.tiles[0].addr == At(h.words, p - SLOT) && h.tiles[0].status.Used?
    ensures Deallocate(h, p).1 && !Live(Deallocate(h, p).0, h.tiles[0].status.ptr)
  {
    hide Deallocate, WellFormed, Live, StaleAlias;
    AcceptedIffLiveOrAlias(h, p);
    AliasFreesOther(h, p);
    TilingOf(h);
    IndexUnique(h.tiles, h.base, h.base + h.arena, 0);
  }

  /** Allocating and freeing leaves only the back-pointer word behind. */
  lemma FirstCycle(h: Heap)
    requires WellFormed(h) && h.active == 0 && h.base % 256 == 0 && h.arena >= 1024 && IsPowerOfTwo(128)
    ensures NoWrap(1, 128) && WellFormed(Allocate(h, 1, 128).0)
    ensures var p, h1 := h.base + 128, Allocate(h, 1, 128).0;
            && OnGrid(h1, p)
            && var h2 := Deallocate(h1, p).0;
            && WellFormed(h2) && h2.active == 0 && h2.base == h.base && h2.arena == h.arena
            && At(h2.words, p - SLOT) == h.base
  {
    hide Allocate, Deallocate, IsPowerOfTwo, Chosen, Erase, Live, WellFormed;
    assert h.base % 128 == 0;
    FirstOverAligned(h, 128);
    AllocateThenFree(h, 1, 128);
    var h1 := Allocate(h, 1, 128).0;
    DeallocateKeepsWellFormed(h1, h.base + 128);
  }

  lemma ThreeSteps(h: Heap, ops: seq<HeapOp>)
    requires |ops| == 3 && WellFormed(h) && Legal(h, ops[0])
    requires WellFormed(Step(h, ops[0])) && Legal(Step(h, ops[0]), ops[1])
    requires WellFormed(Step(Step(h, ops[0]), ops[1])) && Legal(Step(Step(h, ops[0]), ops[1]), ops[2])
    ensures LegalRun(h, ops)
    ensures Run(h, ops) == Step(Step(Step(h, ops[0]), ops[1]), ops[2])
  {
    hide Step, WellFormed, Legal;
    var h1 := Step(h, ops[0]);
    var h2 := Step(h1, ops[1]);
    StepKeepsWellFormed(h2, ops[2]);
    var h3 := Step(h2, ops[2]);
    var one, two := ops[2..], ops[1..];
    assert one[1..] == [] && two[1..] == one && one[0] == ops[2] && two[0] == ops[1];
    assert LegalRun(h3, []) && Run(h3, []) == h3;
    assert LegalRun(h2, one) && Run(h2, one) == h3;
    assert LegalRun(h1, two) && Run(h1, two) == h3;
  }

  lemma AliasLookup(h: Heap, p: nat)
    requires WellFormed(h) && !Live(h, p) && StaleAlias(h, p)
    ensures Lookup(h, p) == Some(At(h.words, p - SLOT))
  {}

  /** Where a pointer that is not live is accepted, the block freed is the one its stale word names. */
  lemma AliasFreesOther(h: Heap, p: nat)
    requires WellFormed(h) && OnGrid(h, p) && p != 0 && !Live(h, p) && StaleAlias(h, p)
    ensures var i := IndexOf(h.tiles, At(h.words, p - SLOT));
            Deallocate(h, p).0 == FreeTileAt(h, i)
            && !Live(Deallocate(h, p).0, h.tiles[i].status.ptr)
  {
    AcceptedIffLiveOrAlias(h, p);
    AliasLookup(h, p);
    hide WellFormed, StaleAlias, FreeTileAt, Lookup, Live;
    FreedIsDead(h, IndexOf(h.tiles, Lookup(h, p).value));
  }

  /** Two live allocations never share a pointer. */
  lemma PointersDistinct(h: Heap, i: nat, k: nat)
    requires WellFormed(h) && i < |h.tiles| && k < |h.tiles| && i != k
    requires h.tiles[i].status.Used? && h.tiles[k].status.Used?
    ensures h.tiles[i].status.ptr != h.tiles[k].status.ptr
  {
    LookupRecoversHeader(h, i);
    LookupRecoversHeader(h, k);
    TilesApart(h, i, k);
  }

  /** A freed pointer is live no longer. */
  lemma FreedIsDead(h: Heap, i: nat)
    requires WellFormed(h) && i < |h.tiles| && h.tiles[i].status.Used?
    ensures !Live(FreeTileAt(h, i), h.tiles[i].status.ptr)
  {
    hide WellFormed, Replace;
    var l, r, p := MergeLo(h.tiles, i), MergeHi(h.tiles, i), h.tiles[i].status.ptr;
    TilingOf(h);
    MergeRun(h.tiles, i, h.base, h.base + h.arena);
    var h' := FreeTileAt(h, i);
    forall j | 0 <= j < |h'.tiles| && h'.tiles[j].status.Used? ensures h'.tiles[j].status.ptr != p {
      ReplaceAt(h.tiles, l, r, [Merged(h.tiles, l, r)], j);
      PointersDistinct(h, i, Source(l, r, 1, j));
    }
  }
}
