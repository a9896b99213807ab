/** The layout after one call, block by block and in plain arithmetic, and what the reported figures predict. */
module PoolLayout {
  import opened Basics
  import opened Bits
  import opened PoolHeap
  import opened PoolInvariant
  import opened PoolTheorems

  /** The least multiple of `a` that is not below `v`. */
  function Ceiling(v: nat, a: nat): nat
    requires a > 0
  {
    MulNonNegative((v + a - 1) / a, a);
    (v + a - 1) / a * a
  }

  lemma AlignUpIsCeiling(v: nat, a: nat)
    requires a > 0 && IsPowerOfTwo(a) && v + a <= WORD
    ensures AlignUp(v, a) == Ceiling(v, a)
  {
    hide IsPowerOfTwo;
    CeilingMeaning(v, a);
    SameMultiple(AlignUp(v, a), Ceiling(v, a), v, a);
  }

  lemma CeilingMeaning(v: nat, a: nat)
    requires a > 0
    ensures v <= Ceiling(v, a) < v + a && Ceiling(v, a) % a == 0
  {
    var x := v + a - 1;
    DivIdentity(x, a);
    FloorMultiple(x, a);
  }

  lemma SameMultiple(r: nat, c: nat, v: nat, a: nat)
    requires a > 0 && r % a == 0 && c % a == 0 && v <= r < v + a && v <= c < v + a
    ensures r == c
  {
    if r < c {
      MultiplesApart(r, c, a);
    } else if c < r {
      MultiplesApart(c, r, a);
    }
  }

  /** Rounding to 16 first makes no difference to rounding to 64. */
  lemma CeilingTwice(n: nat)
    ensures Ceiling(Ceiling(n, 16), 64) == Ceiling(n, 64)
  {
    hide Ceiling;
    var c := Ceiling(n, 16);
    CeilingMeaning(n, 16);
    CeilingMeaning(n, 64);
    CeilingMeaning(c, 64);
    ModTrans(Ceiling(n, 64), 16, 64);
    LeastMultiple(n, 16, c, Ceiling(n, 64));
    SameMultiple(Ceiling(c, 64), Ceiling(n, 64), c, 64);
  }

  // ---- allocate ----

  /** Where the caller's bytes start: behind the header, or at the first aligned address behind the back-pointer. */
  function StartOf(t: Tile, align: nat): (p: nat)
    ensures p >= t.addr + 64
  {
    if align <= 64 then t.addr + 64
    else
      CeilingMeaning(t.addr + 72, align);
      Ceiling(t.addr + 72, align)
  }

  /** Bytes the block keeps if it is cut: up to the end of the caller's last line. */
  function KeptBytes(t: Tile, size: nat, align: nat): nat {
    Ceiling(StartOf(t, align) + Max(size, 1) - (t.addr + 64), 64)
  }

  lemma StartIsGrantPtr(t: Tile, size: nat, align: nat)
    requires IsPowerOfTwo(align) && NoWrap(size, align) && t.End() <= WORD && Aligned(t)
    requires t.size >= SpanNeeded(size, align)
    ensures align > 64 ==> t.Payload() + SLOT + align <= WORD
    ensures GrantPtr(t, size, align) == StartOf(t, align)
    ensures 1 <= Extent(t, size, align) <= t.size && t.size + 64 <= WORD
    ensures KeptExtent(t.size, Extent(t, size, align)) == KeptBytes(t, size, align)
  {
    hide IsPowerOfTwo, AlignUp, Ceiling;
    SmallPowers();
    if align > 64 {
      OverAlignedFits(t, size, align);
      AlignUpIsCeiling(t.Payload() + SLOT, align);
    } else {
      AlignUpIsCeiling(Max(size, 1), 16);
      CeilingMeaning(Max(size, 1), 16);
      CeilingTwice(Max(size, 1));
    }
    AlignUpIsCeiling(Extent(t, size, align), 64);
  }

  /** A carve in terms of the bytes it keeps. */
  lemma CarveExplicit(tiles: seq<Tile>, i: nat, extent: nat, status: Status, free: seq<nat>)
    requires i < |tiles| && tiles[i].size + 64 <= WORD && 1 <= extent <= tiles[i].size && tiles[i].size % 64 == 0
    ensures var t, keep := tiles[i], KeptExtent(tiles[i].size, extent);
            && (t.size >= keep + 128 ==>
                  && Carve(tiles, i, extent, status)
                     == tiles[..i] + [Tile(t.addr, keep, status),
                                      Tile(t.addr + 64 + keep, t.size - keep - 64, Free)] + tiles[i + 1..]
                  && FreeAfterCarve(free, t, extent) == [t.addr + 64 + keep] + Erase(free, t.addr))
            && (t.size < keep + 128 ==>
                  && Carve(tiles, i, extent, status) == tiles[..i] + [Tile(t.addr, t.size, status)] + tiles[i + 1..]
                  && FreeAfterCarve(free, t, extent) == Erase(free, t.addr))
  {
    KeptExtentFacts(tiles[i].size, extent);
    hide KeptExtent, Splits;
  }

  /**
   A grant cuts the chosen block behind the caller's last line when at least 128 bytes are left,
   and otherwise gives it away whole. The remainder goes in front of the free list; every other
   block and the rest of the list stay as they are.
   */
  lemma LayoutAfterGrant(h: Heap, i: nat, size: nat, align: nat)
    requires WellFormed(h) && Fits(h, i, size, align)
    ensures var h', t := Granted(h, i, size, align), h.tiles[i];
            var status, keep := Used(StartOf(t, align), Max(size, 1), align), KeptBytes(t, size, align);
            && (t.size >= keep + 128 ==>
                  && h'.tiles == h.tiles[..i] + [Tile(t.addr, keep, status),
                                                 Tile(t.addr + 64 + keep, t.size - keep - 64, Free)] + h.tiles[i + 1..]
                  && h'.free == [t.addr + 64 + keep] + Erase(h.free, t.addr))
            && (t.size < keep + 128 ==>
                  && h'.tiles == h.tiles[..i] + [Tile(t.addr, t.size, status)] + h.tiles[i + 1..]
                  && h'.free == Erase(h.free, t.addr))
            && h'.words == (if align > 64 then h.words[StartOf(t, align) - 8 := t.addr] else h.words)
            && h'.allocations == h.allocations + 1 && h'.frees == h.frees && h'.active == h.active + 1
  {
    hide IsPowerOfTwo, Extent, GrantPtr, Tiling, Coalesced, FreeListExact, GrantsOk, KeptBytes, StartOf;
    hide Carve, FreeAfterCarve, WordsOnGrid, KeptExtent;
    var t := h.tiles[i];
    TileInArena(h, i);
    TileAligned(h.tiles, h.base, h.base + h.arena, i);
    StartIsGrantPtr(t, size, align);
    CarveExplicit(h.tiles, i, Extent(t, size, align), Used(StartOf(t, align), Max(size, 1), align), h.free);
  }

  /** Bytes a block must have for a request: what is asked for, and above 64 the alignment and seven more. */
  function Needed(size: nat, align: nat): nat {
    if align > 64 then Max(size, 1) + align + 7 else Max(size, 1)
  }

  /** The first listed block of at least `need` bytes, and its place in the list. */
  lemma FirstFitPlace(h: Heap, need: nat) returns (k: nat)
    requires WellFormed(h)
    ensures forall a | a in h.free :: IsTile(h.tiles, a)
    ensures var fit := FirstFit(h.tiles, h.free, need);
            fit.Some? ==>
              && k < |h.free| && h.free[k] == fit.value
              && forall j, m | 0 <= j < k && 0 <= m < |h.tiles| && h.tiles[m].addr == h.free[j] ::
                   h.tiles[m].size < need
  {
    hide WellFormed, Tiling, FirstFit, IsTile;
    k := 0;
    TilingOf(h);
    FreeListTiles(h);
    FirstFitFinds(h.tiles, h.free, need);
    var fit := FirstFit(h.tiles, h.free, need);
    if fit.Some? {
      k :| 0 <= k < |h.free| && h.free[k] == fit.value
           && forall j | 0 <= j < k :: h.tiles[IndexOf(h.tiles, h.free[j])].size < need;
      forall j, m | 0 <= j < k && 0 <= m < |h.tiles| && h.tiles[m].addr == h.free[j] ensures h.tiles[m].size < need {
        IndexUnique(h.tiles, h.base, h.base + h.arena, m);
      }
    }
  }

  lemma ChosenPlace(h: Heap, size: nat, align: nat) returns (i: nat, k: nat)
    requires WellFormed(h) && NoWrap(size, align) && IsPowerOfTwo(align) && Chosen(h, size, align).Some?
    ensures Chosen(h, size, align) == Some(i) && Fits(h, i, size, align)
    ensures k < |h.free| && h.free[k] == h.tiles[i].addr
    ensures forall j, m | 0 <= j < k && 0 <= m < |h.tiles| && h.tiles[m].addr == h.free[j] ::
              h.tiles[m].size < SpanNeeded(size, align)
  {
    hide WellFormed, IsPowerOfTwo, SpanNeeded, FirstFit, Fits;
    i := Chosen(h, size, align).value;
    k := FirstFitPlace(h, SpanNeeded(size, align));
  }

  /** A successful request is served from the first block of the free list that is large enough. */
  lemma TakesFirstFit(h: Heap, size: nat, align: nat) returns (i: nat, k: nat)
    requires WellFormed(h) && NoWrap(size, align) && Allocate(h, size, align).1.Ok?
    ensures k < |h.free| && i < |h.tiles| && h.free[k] == h.tiles[i].addr
    ensures h.tiles[i].status.Free? && h.tiles[i].size >= Needed(size, align)
    ensures forall j, m | 0 <= j < k && 0 <= m < |h.tiles| && h.tiles[m].addr == h.free[j] ::
              h.tiles[m].size < Needed(size, align)
    ensures Fits(h, i, size, align)
    ensures Allocate(h, size, align) == (Granted(h, i, size, align), Ok(StartOf(h.tiles[i], align)))
  {
    hide Granted, GrantPtr, StartOf, IsPowerOfTwo, SpanNeeded, Chosen, Tiling, Coalesced, FreeListExact;
    hide GrantsOk, WordsOnGrid, UsedCount, Aligned;
    i, k := ChosenPlace(h, size, align);
    TileInArena(h, i);
    TileAligned(h.tiles, h.base, h.base + h.arena, i);
    SpanMeans(h.tiles[i], size, align);
    StartIsGrantPtr(h.tiles[i], size, align);
    forall j, m | 0 <= j < k && 0 <= m < |h.tiles| && h.tiles[m].addr == h.free[j]
      ensures h.tiles[m].size < Needed(size, align)
    {
      TileAligned(h.tiles, h.base, h.base + h.arena, m);
      SpanMeans(h.tiles[m], size, align);
    }
  }

  /** The blocks in use after a grant are those before it and the granted one. */
  lemma GrantAddsOne(h: Heap, i: nat, size: nat, align: nat, t: Tile)
    requires WellFormed(h) && Fits(h, i, size, align) && t.status.Used?
    ensures var h' := Granted(h, i, size, align);
            i < |h'.tiles| && (t in h'.tiles <==> t in h.tiles || t == h'.tiles[i])
  {
    hide KeptBytes, StartOf, WellFormed, Granted;
    LayoutAfterGrant(h, i, size, align);
    var l, r := h.tiles[..i], h.tiles[i + 1..];
    assert h.tiles == l + [h.tiles[i]] + r;
  }

  // ---- deallocate ----

  /** Freeing joins the block with its free neighbours; their list entries go and the result leads the list. */
  lemma LayoutAfterFree(h: Heap, i: nat)
    requires WellFormed(h) && i < |h.tiles| && h.tiles[i].status.Used?
    ensures var h', prev, next := FreeTileAt(h, i), i > 0 && h.tiles[i - 1].status.Free?,
                                  i + 1 < |h.tiles| && h.tiles[i + 1].status.Free?;
            var l, r := if prev then i - 1 else i, if next then i + 1 else i;
            var first, last := h.tiles[l], h.tiles[r];
            && last.addr + last.size >= first.addr
            && h'.tiles
               == h.tiles[..l] + [Tile(first.addr, last.addr + last.size - first.addr, Free)] + h.tiles[r + 1..]
            && h'.free == [first.addr]
                          + (var f := if next then Erase(h.free, last.addr) else h.free;
                             if prev then Erase(f, first.addr) else f)
            && h'.base == h.base && h'.arena == h.arena && h'.words == h.words
            && h'.allocations == h.allocations && h'.frees == h.frees + 1 && h'.active == h.active - 1
  {
    hide WellFormed, Tiling;
    TilingOf(h);
    MergeRun(h.tiles, i, h.base, h.base + h.arena);
  }

  /** The blocks in use after a free are those before it except the freed one. */
  lemma FreeRemovesOne(h: Heap, i: nat, t: Tile)
    requires WellFormed(h) && i < |h.tiles| && h.tiles[i].status.Used? && t.status.Used?
    ensures t in FreeTileAt(h, i).tiles <==> t in h.tiles && t != h.tiles[i]
  {
    hide WellFormed, Tiling;
    var l, r := MergeLo(h.tiles, i), MergeHi(h.tiles, i);
    TilingOf(h);
    MergeRun(h.tiles, i, h.base, h.base + h.arena);
    NoTwinTile(h, i);
    OnlyUsedInRun(h.tiles, l, i, r, t);
    assert Merged(h.tiles, l, r).status.Free?;
  }

  /** Replacing a run with one used tile by a free tile takes just that one out of the tiles in use. */
  lemma OnlyUsedInRun(tiles: seq<Tile>, l: nat, i: nat, r: nat, t: Tile)
    requires l <= i <= r < |tiles| && t.status.Used?
    requires forall k | l <= k <= r && k != i :: tiles[k].status.Free?
    requires forall k | 0 <= k < |tiles| && k != i :: tiles[k] != tiles[i]
    ensures t in tiles[..l] + tiles[r + 1..] <==> t in tiles && t != tiles[i]
    ensures forall x: Tile | x.status.Free? :: t in tiles[..l] + [x] + tiles[r + 1..] <==> t in tiles && t != tiles[i]
  {
    var rest := tiles[..l] + tiles[r + 1..];
    if t in rest {
      var j :| 0 <= j < |rest| && rest[j] == t;
      assert rest[j] == tiles[if j < l then j else j - l + r + 1];
    }
    if t in tiles && t != tiles[i] {
      var k :| 0 <= k < |tiles| && tiles[k] == t;
      assert k < l || k > r;
      assert k < l ==> rest[k] == t;
      assert k > r ==> rest[k - (r + 1) + l] == t;
    }
    forall x: Tile | x.status.Free? ensures t in tiles[..l] + [x] + tiles[r + 1..] <==> t in rest {
      assert t != x;
    }
  }

  lemma NoTwinTile(h: Heap, i: nat)
    requires WellFormed(h) && i < |h.tiles|
    ensures forall k | 0 <= k < |h.tiles| && k != i :: h.tiles[k] != h.tiles[i]
  {
    forall k | 0 <= k < |h.tiles| && k != i ensures h.tiles[k] != h.tiles[i] {
      TilesApart(h, i, k);
    }
  }

  /** Freeing a live pointer ends that allocation and no other. */
  lemma DeallocateEndsOne(h: Heap, i: nat, t: Tile)
    requires WellFormed(h) && i < |h.tiles| && h.tiles[i].status.Used? && t.status.Used?
    ensures OnGrid(h, h.tiles[i].status.ptr)
    ensures var (h', ok) := Deallocate(h, h.tiles[i].status.ptr);
            ok && (t in h'.tiles <==> t in h.tiles && t != h.tiles[i])
  {
    hide FreeTileAt, Lookup;
    assert GrantOk(h.tiles[i], h.words);
    LookupRecoversHeader(h, i);
    IndexUnique(h.tiles, h.base, h.base + h.arena, i);
    FreeRemovesOne(h, i, t);
  }

  /** A successful request starts one allocation and leaves every other as it is; a failed one changes nothing. */
  lemma AllocateStartsOne(h: Heap, size: nat, align: nat)
    requires WellFormed(h) && NoWrap(size, align)
    ensures var (h', r) := Allocate(h, size, align);
            && (r.Err? ==> h' == h)
            && (r.Ok? ==> exists g: Tile ::
                  && g in h'.tiles && g.status == Used(r.value, Max(size, 1), align)
                  && forall t: Tile | t.status.Used? :: t in h'.tiles <==> t in h.tiles || t == g)
  {
    hide Granted, WellFormed, GrantPtr, Chosen;
    var (h', r) := Allocate(h, size, align);
    if r.Ok? {
      var i := Chosen(h, size, align).value;
      AllocatedIsLive(h, size, align);
      var g := h'.tiles[i];
      forall t: Tile | t.status.Used? ensures t in h'.tiles <==> t in h.tiles || t == g {
        GrantAddsOne(h, i, size, align, t);
      }
    }
  }

  // ---- What the figures say ----

  lemma {:induction false} FiguresMean(tiles: seq<Tile>)
    ensures FreeCount(tiles) == |set i | 0 <= i < |tiles| && tiles[i].status.Free?|
    ensures forall i | 0 <= i < |tiles| && tiles[i].status.Free? :: tiles[i].size <= LargestFree(tiles)
    ensures LargestFree(tiles) > 0 ==>
              exists i :: 0 <= i < |tiles| && tiles[i].status.Free? && tiles[i].size == LargestFree(tiles)
  {
    if tiles != [] {
      var n := |tiles| - 1;
      var init := tiles[..n];
      FiguresMean(init);
      assert (set i | 0 <= i < |tiles| && tiles[i].status.Free?)
             == (set i | 0 <= i < |init| && init[i].status.Free?) + if tiles[n].status.Free? then {n} else {};
      if LargestFree(init) == LargestFree(tiles) > 0 {
        var i :| 0 <= i < |init| && init[i].status.Free? && init[i].size == LargestFree(init);
        assert tiles[i] == init[i];
      }
    }
  }

  /**
   The reported largest free block decides every request: alignments up to 64 succeed when it
   holds the bytes asked for, larger ones when it also holds the alignment and seven bytes.
   */
  lemma LargestFreeDecides(h: Heap, size: nat, align: nat)
    requires WellFormed(h) && NoWrap(size, align) && IsPowerOfTwo(align)
    ensures Allocate(h, size, align).1.Ok? <==>
              LargestFree(h.tiles) >= if align > 64 then Max(size, 1) + align + 7 else Max(size, 1)
  {
    hide Allocate, WellFormed, LargestFree, IsPowerOfTwo;
    OutOfMemoryIffNothingFits(h, size, align);
    FiguresMean(h.tiles);
    var need := if align > 64 then Max(size, 1) + align + 7 else Max(size, 1);
    assert AllBelow(h, need) <==> LargestFree(h.tiles) < need;
    var r := Allocate(h, size, align).1;
    assert r.Err? ==> r.error == InvalidAlignment || r.error == OutOfMemory;
  }
}
