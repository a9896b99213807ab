/** What the arena invariant gives to callers: header recovery, safety, round trips, conservation. */
module PoolTheorems {
  import opened Basics
  import opened Bits
  import opened PoolHeap
  import opened PoolInvariant

  // ---- Header recovery ----

  /** `p` was returned by allocate and not freed since. */
  ghost predicate Live(h: Heap, p: nat) {
    exists i :: 0 <= i < |h.tiles| && h.tiles[i].status.Used? && h.tiles[i].status.ptr == p
  }

  lemma UsedTileAt(h: Heap, i: nat, over: bool)
    requires WellFormed(h) && i < |h.tiles|
    ensures UsedAt(h.tiles, h.tiles[i].addr, over) <==>
              h.tiles[i].status.Used? && (over <==> h.tiles[i].status.align > DEFAULT_ALIGNMENT)
  {
    IndexUnique(h.tiles, h.base, h.base + h.arena, i);
    assert IsTile(h.tiles, h.tiles[i].addr);
  }

  /** An over-aligned pointer sits at least a whole slot above its own payload start. */
  lemma OverAlignedGap(t: Tile, words: map<nat, nat>)
    requires Aligned(t) && t.status.Used? && GrantOk(t, words) && t.status.align > DEFAULT_ALIGNMENT
    ensures t.Payload() + HEADER <= t.status.ptr && t.status.ptr <= t.End()
  {}

  /**
   deallocate recovers the right header for every live pointer, whatever stale words and
   headers lie in the arena; the first candidate never fires on an over-aligned pointer.
   */
  lemma LookupRecoversHeader(h: Heap, i: nat)
    requires WellFormed(h) && i < |h.tiles| && h.tiles[i].status.Used?
    ensures Lookup(h, h.tiles[i].status.ptr) == Some(h.tiles[i].addr)
    ensures h.tiles[i].status.align > DEFAULT_ALIGNMENT ==>
              !IsTile(h.tiles, h.tiles[i].status.ptr - HEADER)
  {
    hide Tiling, Coalesced, FreeListExact, IsPowerOfTwo, UsedCount;
    var t, lo, hi := h.tiles[i], h.base, h.base + h.arena;
    TileInArena(h, i);
    TileAligned(h.tiles, lo, hi, i);
    assert GrantOk(t, h.words);
    UsedTileAt(h, i, false);
    UsedTileAt(h, i, true);
    if t.status.align > DEFAULT_ALIGNMENT {
      OverAlignedGap(t, h.words);
      NoTileInside(h.tiles, i, lo, hi, t.status.ptr - HEADER);
    }
  }

  /** The word below `p` names a live over-aligned block that `p` does not belong to. */
  ghost predicate StaleAlias(h: Heap, p: nat) {
    && p >= SLOT && Owns(h, p) && Owns(h, p - SLOT)
    && var w := At(h.words, p - SLOT);
       Owns(h, w) && UsedAt(h.tiles, w, true) && h.tiles[IndexOf(h.tiles, w)].status.ptr != p
  }

  lemma NullIsDead(h: Heap)
    requires WellFormed(h)
    ensures !Live(h, 0)
  {
    forall i | 0 <= i < |h.tiles| && h.tiles[i].status.Used? ensures h.tiles[i].status.ptr != 0 {
      assert GrantOk(h.tiles[i], h.words);
    }
  }

  /**
   Exactly which pointers deallocate accepts: null, the live ones, and those over a word that still
   names a live over-aligned block. Null and refused pointers change nothing. The documented
   rejection of double frees holds exactly when the last case does not arise.
   */
  lemma AcceptedIffLiveOrAlias(h: Heap, p: nat)
    requires WellFormed(h) && OnGrid(h, p)
    ensures Deallocate(h, p).1 <==> p == 0 || Live(h, p) || StaleAlias(h, p)
    ensures p == 0 || !Deallocate(h, p).1 ==> Deallocate(h, p).0 == h
    ensures !Live(h, 0) && !StaleAlias(h, 0)
  {
    NullIsDead(h);
    if Live(h, p) {
      var i :| 0 <= i < |h.tiles| && h.tiles[i].status.Used? && h.tiles[i].status.ptr == p;
      LookupRecoversHeader(h, i);
    }
    if Lookup(h, p).Some? {
      var i := IndexOf(h.tiles, Lookup(h, p).value);
      assert GrantOk(h.tiles[i], h.words);
    }
  }

  /** No live allocation asked for more than the default alignment. */
  ghost predicate StandardOnly(h: Heap) {
    forall i | 0 <= i < |h.tiles| :: Standard(h.tiles[i])
  }

  predicate Standard(t: Tile) {
    t.status.Used? ==> t.status.align <= DEFAULT_ALIGNMENT
  }

  /** Then acceptance is exact: every pointer that is not live, freed twice or foreign, is refused. */
  lemma StandardAcceptanceExact(h: Heap, p: nat)
    requires WellFormed(h) && OnGrid(h, p) && StandardOnly(h) && p != 0
    ensures Deallocate(h, p).1 <==> Live(h, p)
    ensures !Live(h, p) ==> Deallocate(h, p).0 == h
  {
    AcceptedIffLiveOrAlias(h, p);
  }

  // ---- Safety of live ranges ----

  predicate Disjoint(a: nat, n: nat, b: nat, m: nat) {
    a + n <= b || b + m <= a
  }

  /**
   The range granted to block `i` is aligned as asked, holds the bytes asked for, and meets
   neither block `j`'s header, nor its live range, nor its back-pointer; block `i`'s own
   header and back-pointer included.
   */
  ghost predicate RangeSafe(h: Heap, i: nat, j: nat)
    requires i < |h.tiles| && j < |h.tiles| && h.tiles[i].status.Used?
  {
    var s, t := h.tiles[i].status, h.tiles[j];
    && s.align > 0 && s.ptr % s.align == 0
    && h.tiles[i].Payload() <= s.ptr && s.ptr + s.size <= h.tiles[i].End()
    && Disjoint(s.ptr, s.size, t.addr, HEADER)
    && (t.status.Used? && i != j ==> Disjoint(s.ptr, s.size, t.status.ptr, t.status.size))
    && (t.status.Used? && t.status.align > DEFAULT_ALIGNMENT ==>
          t.status.ptr >= SLOT && Disjoint(s.ptr, s.size, t.status.ptr - SLOT, SLOT))
  }

  lemma LiveRangeIsSafe(h: Heap, i: nat, j: nat)
    requires WellFormed(h) && i < |h.tiles| && j < |h.tiles| && h.tiles[i].status.Used?
    ensures RangeSafe(h, i, j)
  {
    var tiles := h.tiles;
    assert GrantOk(tiles[i], h.words);
    assert tiles[j].status.Used? ==> GrantOk(tiles[j], h.words);
    assert i < j ==> tiles[i].End() <= tiles[j].addr;
    assert j < i ==> tiles[j].End() <= tiles[i].addr;
  }

  // ---- Out of memory ----

  lemma FailsBelowSpan(h: Heap, size: nat, align: nat)
    requires WellFormed(h) && NoWrap(size, align) && IsPowerOfTwo(align)
    ensures Allocate(h, size, align).1.Err? <==>
              forall i | 0 <= i < |h.tiles| && h.tiles[i].status.Free? :: h.tiles[i].size < SpanNeeded(size, align)
  {
    FreeListTiles(h);
    var need := SpanNeeded(size, align);
    FirstFitFinds(h.tiles, h.free, need);
    if FirstFit(h.tiles, h.free, need).None? {
      forall i | 0 <= i < |h.tiles| && h.tiles[i].status.Free? ensures h.tiles[i].size < need {
        assert FreeAt(h.tiles, h.tiles[i].addr);
        assert h.tiles[i].addr in h.free;
        IndexUnique(h.tiles, h.base, h.base + h.arena, i);
      }
    }
  }

  /** Every free block is smaller than `need`. */
  ghost predicate AllBelow(h: Heap, need: nat) {
    forall i | 0 <= i < |h.tiles| && h.tiles[i].status.Free? :: h.tiles[i].size < need
  }

  /** Rounding a request to 16 cannot decide against a block whose size is a multiple of 64. */
  lemma RoundingIsNeutral(n: nat, size: nat)
    requires n + 16 <= WORD && IsPowerOfTwo(16) && size % 64 == 0
    ensures size < AlignUp(n, 16) <==> size < n
  {
    ModTrans(size, 16, 64);
    if n <= size {
      LeastMultiple(n, 16, AlignUp(n, 16), size);
    }
  }

  /** A block has the requested span if it has the bytes asked for, and above 64 the alignment and seven more. */
  lemma SpanMeans(t: Tile, size: nat, align: nat)
    requires IsPowerOfTwo(align) && NoWrap(size, align) && Aligned(t)
    ensures t.size < SpanNeeded(size, align) <==>
              t.size < if align > 64 then Max(size, 1) + align + 7 else Max(size, 1)
  {
    SmallPowers();
    if align <= 64 {
      RoundingIsNeutral(Max(size, 1), t.size);
    }
  }

  /**
   The bad alignment is reported first. Otherwise a request fails exactly when every free block is
   smaller than the bytes asked for, to which an alignment above 64 adds itself and seven: the
   slack and the back-pointer. A failure changes nothing.
   */
  lemma OutOfMemoryIffNothingFits(h: Heap, size: nat, align: nat)
    requires WellFormed(h) && NoWrap(size, align)
    ensures var (h', r) := Allocate(h, size, align);
            && (r.Err? ==> h' == h)
            && (r == Err(InvalidAlignment) <==> !IsPowerOfTwo(align))
            && (r == Err(OutOfMemory) <==>
                  IsPowerOfTwo(align)
                  && AllBelow(h, if align > 64 then Max(size, 1) + align + 7 else Max(size, 1)))
  {
    hide AlignUp, Granted, SpanNeeded, Aligned, GrantPtr, Coalesced, FreeListExact, GrantsOk, WordsOnGrid, UsedCount;
    if IsPowerOfTwo(align) {
      FailsBelowSpan(h, size, align);
      forall i | 0 <= i < |h.tiles| && h.tiles[i].status.Free?
        ensures h.tiles[i].size < SpanNeeded(size, align) <==>
                  h.tiles[i].size < if align > 64 then Max(size, 1) + align + 7 else Max(size, 1)
      {
        TileAligned(h.tiles, h.base, h.base + h.arena, i);
        SpanMeans(h.tiles[i], size, align);
      }
    }
  }

  /** A successful request yields a pointer that is live afterwards, with the size and alignment asked. */
  lemma AllocatedIsLive(h: Heap, size: nat, align: nat)
    requires WellFormed(h) && NoWrap(size, align) && Allocate(h, size, align).1.Ok?
    ensures var (h', r) := Allocate(h, size, align);
            var i := Chosen(h, size, align).value;
            i < |h'.tiles| && h'.tiles[i].status == Used(r.value, Max(size, 1), align)
            && h'.tiles[i].addr == h.tiles[i].addr && Live(h', r.value)
  {
    hide Splits, KeptExtent, GrantPtr, Extent, Chosen;
    var i := Chosen(h, size, align).value;
    var (h', r) := Allocate(h, size, align);
    assert h'.tiles[i].status == Used(r.value, Max(size, 1), align);
  }

  // ---- allocate then deallocate ----

  /**
   Freeing a fresh allocation at once restores the layout exactly, split or not, over-aligned
   or not; the free list is as before with the reused block moved to the front.
   */
  lemma AllocateThenFree(h: Heap, size: nat, align: nat)
    requires WellFormed(h) && NoWrap(size, align) && Allocate(h, size, align).1.Ok?
    ensures var (h1, r) := Allocate(h, size, align);
            var a := h.tiles[Chosen(h, size, align).value].addr;
            && WellFormed(h1) && r.value != 0 && OnGrid(h1, r.value)
            && var (h2, ok) := Deallocate(h1, r.value);
               ok && h2.tiles == h.tiles && h2.free == [a] + Erase(h.free, a) && h2.active == h.active
  {
    hide Granted, GrantPtr, Fits, Lookup, FreeTileAt, Chosen;
    var i := Chosen(h, size, align).value;
    var (h1, r) := Allocate(h, size, align);
    AllocateKeepsWellFormed(h, size, align);
    AllocatedIsLive(h, size, align);
    assert r.value != 0 && OnGrid(h1, r.value) && Lookup(h1, r.value) == Some(h1.tiles[i].addr) by {
      LookupRecoversHeader(h1, i);
      TileInArena(h1, i);
      assert GrantOk(h1.tiles[i], h1.words);
    }
    IndexUnique(h1.tiles, h1.base, h1.base + h1.arena, i);
    hide WellFormed;
    FreeUndoesGrant(h, i, size, align);
  }

  lemma CutAndPaste(s: seq<Tile>, i: nat)
    requires i < |s|
    ensures s == s[..i] + [s[i]] + s[i + 1..]
  {}

  lemma FreeUndoesGrant(h: Heap, i: nat, size: nat, align: nat)
    requires WellFormed(h) && Fits(h, i, size, align) && WellFormed(Granted(h, i, size, align))
    requires i < |Granted(h, i, size, align).tiles| && Granted(h, i, size, align).tiles[i].status.Used?
    ensures var h2 := FreeTileAt(Granted(h, i, size, align), i);
            h2.tiles == h.tiles && h2.free == [h.tiles[i].addr] + Erase(h.free, h.tiles[i].addr)
            && h2.active == h.active
  {
    hide GrantPtr, Extent, KeptExtent, SpanNeeded, GrantsOk, Tiling, UsedCount;
    var t, h1 := h.tiles[i], Granted(h, i, size, align);
    var split := Splits(t.size, Extent(t, size, align));
    var rest := Erase(h.free, t.addr);
    assert i > 0 ==> h.tiles[i - 1].status.Used?;
    assert i + 1 < |h.tiles| ==> h.tiles[i + 1].status.Used?;
    ReplaceSize(h.tiles, i, i, h1.tiles[i..if split then i + 2 else i + 1]);
    assert i > 0 ==> h1.tiles[i - 1] == h.tiles[i - 1];
    assert MergeLo(h1.tiles, i) == i;
    if split {
      assert h1.tiles[i + 1].status.Free? && MergeHi(h1.tiles, i) == i + 1;
      assert h1.free == [h1.tiles[i + 1].addr] + rest;
      assert Erase(h1.free, h1.tiles[i + 1].addr) == rest;
    } else {
      assert i + 1 < |h.tiles| ==> h1.tiles[i + 1] == h.tiles[i + 1];
      assert MergeHi(h1.tiles, i) == i;
      assert h1.free == rest;
    }
    var r := MergeHi(h1.tiles, i);
    MergeRun(h1.tiles, i, h1.base, h1.base + h1.arena);
    assert Merged(h1.tiles, i, r) == t;
    assert h1.tiles[..i] == h.tiles[..i] && h1.tiles[r + 1..] == h.tiles[i + 1..];
    CutAndPaste(h.tiles, i);
  }

  // ---- Canonical coalescing ----

  ghost predicate UsedExtent(tiles: seq<Tile>, a: nat, size: nat) {
    exists i :: 0 <= i < |tiles| && tiles[i].status.Used? && tiles[i].addr == a && tiles[i].size == size
  }

  predicate SameBlock(s: Tile, t: Tile) {
    s.addr == t.addr && s.size == t.size && (s.status.Free? <==> t.status.Free?)
  }

  ghost predicate SameUse(h: Heap, g: Heap) {
    && h.base == g.base && h.arena == g.arena
    && forall a: nat, size: nat :: UsedExtent(h.tiles, a, size) <==> UsedExtent(g.tiles, a, size)
  }

  /** A free block of one heap is no shorter than the block the other heap has at that address. */
  lemma FreeBlockNoShorter(h: Heap, g: Heap, k: nat)
    requires WellFormed(h) && WellFormed(g) && SameUse(h, g)
    requires k < |h.tiles| && k < |g.tiles| && h.tiles[k].addr == g.tiles[k].addr
    requires h.tiles[k].status.Free? && g.tiles[k].status.Free?
    ensures h.tiles[k].size >= g.tiles[k].size
  {
    TileInArena(g, k);
    if k + 1 < |h.tiles| {
      var n := h.tiles[k + 1];
      assert n.addr == h.tiles[k].End() && n.status.Used?;
      assert UsedExtent(h.tiles, n.addr, n.size);
      UsedBeyondFree(g, k, n.addr, n.size);
    }
  }

  /** A used block that starts after a free one starts beyond its end. */
  lemma UsedBeyondFree(g: Heap, k: nat, a: nat, size: nat)
    requires WellFormed(g) && k < |g.tiles| && UsedExtent(g.tiles, a, size) && g.tiles[k].addr < a
    ensures g.tiles[k].End() <= a
  {
    var j :| 0 <= j < |g.tiles| && g.tiles[j].status.Used? && g.tiles[j].addr == a && g.tiles[j].size == size;
    assert k < j ==> g.tiles[k].End() <= g.tiles[j].addr;
  }

  lemma UsedBlockSame(h: Heap, g: Heap, k: nat)
    requires WellFormed(h) && WellFormed(g) && SameUse(h, g)
    requires k < |h.tiles| && k < |g.tiles| && h.tiles[k].addr == g.tiles[k].addr
    requires h.tiles[k].status.Used?
    ensures SameBlock(h.tiles[k], g.tiles[k])
  {
    hide WellFormed, Tiling;
    TilingOf(g);
    assert UsedExtent(h.tiles, h.tiles[k].addr, h.tiles[k].size);
    var j :| 0 <= j < |g.tiles| && g.tiles[j].status.Used? && g.tiles[j].addr == h.tiles[k].addr
             && g.tiles[j].size == h.tiles[k].size;
    IndexUnique(g.tiles, g.base, g.base + g.arena, j);
    IndexUnique(g.tiles, g.base, g.base + g.arena, k);
  }

  /** After equal blocks the next ones start at one address. */
  lemma NextBlockStarts(h: Heap, g: Heap, k: nat)
    requires WellFormed(h) && WellFormed(g) && SameUse(h, g) && k < |h.tiles|
    requires k <= |g.tiles| && (k > 0 ==> SameBlock(h.tiles[k - 1], g.tiles[k - 1]))
    ensures k < |g.tiles| && h.tiles[k].addr == g.tiles[k].addr
  {
    hide WellFormed, Aligned;
    TilingOf(h);
    TilingOf(g);
    TileInArena(h, k);
    assert k > 0 ==> h.tiles[k - 1].End() == h.tiles[k].addr;
  }

  lemma {:induction false} SamePrefix(h: Heap, g: Heap, k: nat)
    requires WellFormed(h) && WellFormed(g) && SameUse(h, g) && k <= |h.tiles|
    ensures k <= |g.tiles| && forall i | 0 <= i < k :: SameBlock(h.tiles[i], g.tiles[i])
  {
    hide WellFormed, UsedExtent;
    if k > 0 {
      SamePrefix(h, g, k - 1);
      NextBlockStarts(h, g, k - 1);
      if h.tiles[k - 1].status.Used? {
        UsedBlockSame(h, g, k - 1);
      } else if g.tiles[k - 1].status.Used? {
        UsedBlockSame(g, h, k - 1);
      } else {
        FreeBlockNoShorter(h, g, k - 1);
        FreeBlockNoShorter(g, h, k - 1);
      }
    }
  }

  /**
   Coalescing is canonical: the blocks in use determine every free block, so the layout does
   not depend on the order of the operations that led to it.
   */
  lemma UseDeterminesLayout(h: Heap, g: Heap)
    requires WellFormed(h) && WellFormed(g) && SameUse(h, g)
    ensures |h.tiles| == |g.tiles| && forall i | 0 <= i < |h.tiles| :: SameBlock(h.tiles[i], g.tiles[i])
  {
    SamePrefix(h, g, |h.tiles|);
    SamePrefix(g, h, |g.tiles|);
  }

  lemma {:induction false} UsedCountZero(tiles: seq<Tile>)
    requires UsedCount(tiles) == 0
    ensures forall i | 0 <= i < |tiles| :: tiles[i].status.Free?
  {
    if tiles != [] {
      UsedCountZero(tiles[..|tiles| - 1]);
      assert tiles == tiles[..|tiles| - 1] + [tiles[|tiles| - 1]];
    }
  }

  /** With nothing live the arena is one free block again. */
  lemma AllFreedIsOneBlock(h: Heap)
    requires WellFormed(h) && h.active == 0
    ensures h.tiles == [Tile(h.base, h.arena - HEADER, Free)] && h.free == [h.base]
  {
    UsedCountZero(h.tiles);
    if |h.tiles| > 1 {
      NeighbourUsed(h.tiles, 0);
      assert false;
    }
    assert FreeAt(h.tiles, h.base);
    assert h.base in h.free;
    forall a | a in h.free ensures a == h.base {
      assert FreeAt(h.tiles, a);
    }
    SingleElement(h.free, h.base);
  }

  lemma NeighbourUsed(tiles: seq<Tile>, i: nat)
    requires Coalesced(tiles) && i + 1 < |tiles|
    ensures tiles[i].status.Used? || tiles[i + 1].status.Used?
  {}

  // ---- Conservation ----

  function FreeBytes(tiles: seq<Tile>): nat {
    if tiles == [] then 0
    else FreeBytes(tiles[..|tiles| - 1])
         + if tiles[|tiles| - 1].status.Free? then tiles[|tiles| - 1].size else 0
  }

  function UsedBytes(tiles: seq<Tile>): nat {
    if tiles == [] then 0
    else UsedBytes(tiles[..|tiles| - 1])
         + if tiles[|tiles| - 1].status.Used? then tiles[|tiles| - 1].size else 0
  }

  function FreeCount(tiles: seq<Tile>): nat {
    if tiles == [] then 0
    else FreeCount(tiles[..|tiles| - 1]) + if tiles[|tiles| - 1].status.Free? then 1 else 0
  }

  function LargestFree(tiles: seq<Tile>): nat {
    if tiles == [] then 0
    else Max(LargestFree(tiles[..|tiles| - 1]),
             if tiles[|tiles| - 1].status.Free? then tiles[|tiles| - 1].size else 0)
  }

  /** Bytes the callers of the live allocations asked for; a request for none counts as one. */
  function RequestedBytes(tiles: seq<Tile>): nat {
    if tiles == [] then 0
    else RequestedBytes(tiles[..|tiles| - 1])
         + if tiles[|tiles| - 1].status.Used? then tiles[|tiles| - 1].status.size else 0
  }

  predicate ExactFit(t: Tile) {
    t.status.Used? ==> t.size == t.status.size
  }

  predicate HoldsRequest(t: Tile) {
    t.status.Used? ==> t.status.size <= t.size
  }

  lemma {:induction false} RequestedWithinUsed(tiles: seq<Tile>)
    requires forall i | 0 <= i < |tiles| :: HoldsRequest(tiles[i])
    ensures RequestedBytes(tiles) <= UsedBytes(tiles)
    ensures RequestedBytes(tiles) == UsedBytes(tiles) <==> forall i | 0 <= i < |tiles| :: ExactFit(tiles[i])
  {
    if tiles != [] {
      var n := |tiles| - 1;
      var init := tiles[..n];
      RequestedWithinUsed(init);
      assert HoldsRequest(tiles[n]);
      if forall i | 0 <= i < |tiles| :: ExactFit(tiles[i]) {
        assert forall i | 0 <= i < n :: init[i] == tiles[i];
      } else if ExactFit(tiles[n]) {
        var i :| 0 <= i < |tiles| && !ExactFit(tiles[i]);
        assert init[i] == tiles[i];
      }
    }
  }

  /**
   The reported used bytes are never less than what callers hold, and equal to it exactly when
   every block in use is as large as its request.
   */
  lemma UsedBytesExact(h: Heap)
    requires WellFormed(h)
    ensures RequestedBytes(h.tiles) <= UsedBytes(h.tiles)
    ensures RequestedBytes(h.tiles) == UsedBytes(h.tiles) <==>
              forall i | 0 <= i < |h.tiles| :: ExactFit(h.tiles[i])
  {
    forall i | 0 <= i < |h.tiles| ensures HoldsRequest(h.tiles[i]) {
      if h.tiles[i].status.Used? {
        assert GrantOk(h.tiles[i], h.words);
      }
    }
    RequestedWithinUsed(h.tiles);
  }

  lemma {:induction false} PrefixBytes(tiles: seq<Tile>, lo: nat, hi: nat, k: nat)
    requires Tiling(tiles, lo, hi) && 1 <= k <= |tiles|
    ensures HEADER * k + FreeBytes(tiles[..k]) + UsedBytes(tiles[..k]) == tiles[k - 1].End() - lo
  {
    assert tiles[..k][..k - 1] == tiles[..k - 1];
    if k > 1 {
      PrefixBytes(tiles, lo, hi, k - 1);
      var p := k - 2;
      assert tiles[p].End() == tiles[p + 1].addr;
    } else {
      assert tiles[..0] == [];
    }
  }

  /** Headers, free and used payload bytes add up to the arena. */
  lemma BytesConserved(h: Heap)
    requires WellFormed(h)
    ensures HEADER * |h.tiles| + FreeBytes(h.tiles) + UsedBytes(h.tiles) == h.arena
  {
    PrefixBytes(h.tiles, h.base, h.base + h.arena, |h.tiles|);
    assert h.tiles[..|h.tiles|] == h.tiles;
  }
}
