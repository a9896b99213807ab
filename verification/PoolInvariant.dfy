/** Every allocate and every deallocate keeps the arena well-formed. */
module PoolInvariant {
  import opened Basics
  import opened Bits
  import opened PoolHeap

  // ---- Splitting ----

  /** Rounding keeps block addresses on the 64-byte grid and leaves a usable remainder. */
  lemma KeptExtentFacts(size: nat, extent: nat)
    requires size + 64 <= WORD && 1 <= extent <= size && size % 64 == 0
    ensures var e := KeptExtent(size, extent);
            && extent <= e <= size && e % 64 == 0 && e >= 64
            && e < extent + 64
            && (Splits(size, extent) <==> size - e >= HEADER + 64)
            && (Splits(size, extent) ==> size - e - HEADER >= 64 && (size - e - HEADER) % 64 == 0)
  {
    hide AlignUp, IsPowerOfTwo;
    var e := KeptExtent(size, extent);
    LeastMultiple(extent, 64, e, size);
    if e < 64 {
      DivModUnique(e, 64, 0, e);
    }
  }

  /** Where the tile at position `j` after a replacement stood before. */
  function Source(l: nat, r: nat, n: nat, j: nat): int {
    if j < l then j else if j < l + n then l else j - n + (r - l + 1)
  }

  lemma ReplaceAt(tiles: seq<Tile>, l: nat, r: nat, parts: seq<Tile>, j: nat)
    requires l <= r < |tiles| && |parts| >= 1 && j < |Replace(tiles, l, r, parts)|
    ensures 0 <= Source(l, r, |parts|, j) < |tiles|
    ensures Replace(tiles, l, r, parts)[j]
            == if l <= j < l + |parts| then parts[j - l] else tiles[Source(l, r, |parts|, j)]
  {}

  lemma ReplaceSize(tiles: seq<Tile>, l: nat, r: nat, parts: seq<Tile>)
    requires l <= r < |tiles|
    ensures |Replace(tiles, l, r, parts)| == |tiles| + |parts| - (r - l + 1)
  {}

  /** Replacing a run of tiles by tiles that cover the same bytes keeps the tiling. */
  lemma ReplaceTiling(tiles: seq<Tile>, l: nat, r: nat, parts: seq<Tile>, lo: nat, hi: nat)
    requires Tiling(tiles, lo, hi) && l <= r < |tiles| && Tiling(parts, tiles[l].addr, tiles[r].End())
    ensures Tiling(Replace(tiles, l, r, parts), lo, hi)
  {
    var c := Replace(tiles, l, r, parts);
    forall j | 0 <= j < |c| ensures Aligned(c[j]) {
      ReplaceAt(tiles, l, r, parts, j);
    }
    forall j, k | 0 <= j < k < |c|
      ensures c[j].End() <= c[k].addr && (k == j + 1 ==> c[j].End() == c[k].addr)
    {
      ReplacePair(tiles, l, r, parts, lo, hi, j, k);
    }
    ReplaceAt(tiles, l, r, parts, 0);
    ReplaceAt(tiles, l, r, parts, |c| - 1);
  }

  lemma ReplacePair(tiles: seq<Tile>, l: nat, r: nat, parts: seq<Tile>, lo: nat, hi: nat, j: nat, k: nat)
    requires Tiling(tiles, lo, hi) && l <= r < |tiles| && Tiling(parts, tiles[l].addr, tiles[r].End())
    requires j < k < |Replace(tiles, l, r, parts)|
    ensures var c := Replace(tiles, l, r, parts);
            c[j].End() <= c[k].addr && (k == j + 1 ==> c[j].End() == c[k].addr)
  {
    var n := |parts|;
    ReplaceSize(tiles, l, r, parts);
    ReplaceAt(tiles, l, r, parts, j);
    ReplaceAt(tiles, l, r, parts, k);
    hide Replace;
    PartInside(parts, tiles[l].addr, tiles[r].End(), if l <= j < l + n then j - l else 0);
    PartInside(parts, tiles[l].addr, tiles[r].End(), if l <= k < l + n then k - l else 0);
    var oj := if l <= j < l + n then r else Source(l, r, n, j);
    var ok := Source(l, r, n, k);
    assert oj < ok ==> tiles[oj].End() <= tiles[ok].addr && (ok == oj + 1 ==> tiles[oj].End() == tiles[ok].addr);
  }

  lemma PartInside(parts: seq<Tile>, lo: nat, hi: nat, j: nat)
    requires Tiling(parts, lo, hi) && j < |parts|
    ensures lo <= parts[j].addr && parts[j].End() <= hi
    ensures j == 0 ==> parts[j].addr == lo
    ensures j == |parts| - 1 ==> parts[j].End() == hi
  {
    var last := |parts| - 1;
    assert 0 < j ==> parts[0].End() <= parts[j].addr;
    assert j < last ==> parts[j].End() <= parts[last].addr;
  }

  lemma ReplaceCoalesced(tiles: seq<Tile>, l: nat, r: nat, parts: seq<Tile>)
    requires Coalesced(tiles) && l <= r < |tiles| && |parts| >= 1 && Coalesced(parts)
    requires parts[0].status.Free? ==> l == 0 || tiles[l - 1].status.Used?
    requires parts[|parts| - 1].status.Free? ==> r + 1 == |tiles| || tiles[r + 1].status.Used?
    ensures Coalesced(Replace(tiles, l, r, parts))
  {
    var c, n := Replace(tiles, l, r, parts), |parts|;
    ReplaceSize(tiles, l, r, parts);
    hide Replace;
    forall j, k | 0 <= j < k < |c| && k == j + 1
      ensures !(c[j].status.Free? && c[k].status.Free?)
    {
      ReplaceAt(tiles, l, r, parts, j);
      ReplaceAt(tiles, l, r, parts, k);
    }
  }

  /** Which addresses are free after a replacement. */
  lemma ReplaceFreeAt(tiles: seq<Tile>, l: nat, r: nat, parts: seq<Tile>, lo: nat, hi: nat, a: nat)
    requires Tiling(tiles, lo, hi) && l <= r < |tiles| && |parts| >= 1
    ensures FreeAt(Replace(tiles, l, r, parts), a) <==>
              FreeAt(parts, a) || (FreeAt(tiles, a) && !(tiles[l].addr <= a <= tiles[r].addr))
  {
    hide Replace, Tiling;
    var c, n := Replace(tiles, l, r, parts), |parts|;
    ReplaceSize(tiles, l, r, parts);
    if FreeAt(tiles, a) && !(tiles[l].addr <= a <= tiles[r].addr) {
      var j :| 0 <= j < |tiles| && tiles[j].addr == a && tiles[j].status.Free?;
      OutsideRun(tiles, l, r, lo, hi, j);
      ReplaceAt(tiles, l, r, parts, if j < l then j else j + n - (r - l + 1));
    }
    if FreeAt(parts, a) {
      var j :| 0 <= j < n && parts[j].addr == a && parts[j].status.Free?;
      ReplaceAt(tiles, l, r, parts, l + j);
    }
    if FreeAt(c, a) {
      var j :| 0 <= j < |c| && c[j].addr == a && c[j].status.Free?;
      ReplaceAt(tiles, l, r, parts, j);
      if l <= j < l + n {
        assert parts[j - l] == c[j];
      } else {
        OutsideRun(tiles, l, r, lo, hi, Source(l, r, n, j));
      }
    }
  }

  lemma OutsideRun(tiles: seq<Tile>, l: nat, r: nat, lo: nat, hi: nat, j: nat)
    requires Tiling(tiles, lo, hi) && l <= r < |tiles| && j < |tiles|
    ensures l <= j <= r <==> tiles[l].addr <= tiles[j].addr <= tiles[r].addr
  {
    assert j < l ==> tiles[j].End() <= tiles[l].addr;
    assert l < j ==> tiles[l].End() <= tiles[j].addr;
    assert j < r ==> tiles[j].End() <= tiles[r].addr;
    assert r < j ==> tiles[r].End() <= tiles[j].addr;
  }

  lemma ReplaceCount(tiles: seq<Tile>, l: nat, r: nat, parts: seq<Tile>)
    requires l <= r < |tiles|
    ensures UsedCount(Replace(tiles, l, r, parts)) + UsedCount(tiles[l..r + 1]) == UsedCount(tiles) + UsedCount(parts)
  {
    assert Replace(tiles, l, r, parts) == tiles[..l] + (parts + tiles[r + 1..]);
    assert tiles == tiles[..l] + (tiles[l..r + 1] + tiles[r + 1..]);
    CountMid(tiles[..l], parts, tiles[r + 1..]);
    CountMid(tiles[..l], tiles[l..r + 1], tiles[r + 1..]);
  }

  lemma CountMid(a: seq<Tile>, b: seq<Tile>, c: seq<Tile>)
    ensures UsedCount(a + (b + c)) == UsedCount(a) + UsedCount(b) + UsedCount(c)
  {
    UsedCountConcat(a, b + c);
    UsedCountConcat(b, c);
  }

  lemma CountOne(t: Tile)
    ensures UsedCount([t]) == if t.status.Used? then 1 else 0
  {
    assert [t][..0] == [];
  }

  lemma ReplaceGrants(tiles: seq<Tile>, l: nat, r: nat, parts: seq<Tile>, words: map<nat, nat>)
    requires l <= r < |tiles| && |parts| >= 1 && GrantsOk(parts, words)
    requires forall j | 0 <= j < |tiles| && !(l <= j <= r) && tiles[j].status.Used? :: GrantOk(tiles[j], words)
    ensures GrantsOk(Replace(tiles, l, r, parts), words)
  {
    hide GrantOk;
    var c, n := Replace(tiles, l, r, parts), |parts|;
    ReplaceSize(tiles, l, r, parts);
    forall j | 0 <= j < |c| && c[j].status.Used? ensures GrantOk(c[j], words) {
      ReplaceAt(tiles, l, r, parts, j);
    }
  }

  /** The tiles `Carve` puts in place of tile `t`: they cover it exactly. */
  function Parts(t: Tile, extent: nat, status: Status): (parts: seq<Tile>)
    requires t.size + 64 <= WORD
    ensures |parts| >= 1 && parts[0].status == status && parts[0].addr == t.addr
  {
    if Splits(t.size, extent) then
      var e := KeptExtent(t.size, extent);
      [Tile(t.addr, e, status), Tile(t.addr + HEADER + e, t.size - e - HEADER, Free)]
    else [Tile(t.addr, t.size, status)]
  }

  lemma PartsTile(t: Tile, extent: nat, status: Status)
    requires t.size + 64 <= WORD && Aligned(t) && 1 <= extent <= t.size && status.Used?
    ensures var parts := Parts(t, extent, status);
            && Tiling(parts, t.addr, t.End()) && Coalesced(parts) && UsedCount(parts) == 1
            && (forall a :: FreeAt(parts, a) <==> |parts| == 2 && a == parts[1].addr)
            && (|parts| == 2 <==> Splits(t.size, extent))
            && (|parts| == 2 ==> parts[1].addr == t.Payload() + KeptExtent(t.size, extent)
                                 && t.addr < parts[1].addr < t.End())
  {
    hide AlignUp;
    var parts := Parts(t, extent, status);
    KeptExtentFacts(t.size, extent);
    CountOne(parts[0]);
    if |parts| == 2 {
      CountOne(parts[1]);
      assert parts == [parts[0]] + [parts[1]];
      UsedCountConcat([parts[0]], [parts[1]]);
      assert FreeAt(parts, parts[1].addr);
    } else {
      assert parts == [parts[0]];
    }
  }

  /** No tile starts strictly inside another one. */
  lemma NoTileInside(tiles: seq<Tile>, i: nat, lo: nat, hi: nat, a: nat)
    requires Tiling(tiles, lo, hi) && i < |tiles| && tiles[i].addr < a < tiles[i].End()
    ensures !IsTile(tiles, a)
  {
    forall j | 0 <= j < |tiles| ensures tiles[j].addr != a {
      assert j < i ==> tiles[j].End() <= tiles[i].addr;
      assert i < j ==> tiles[i].End() <= tiles[j].addr;
    }
  }

  lemma TilingOf(h: Heap)
    requires WellFormed(h)
    ensures Tiling(h.tiles, h.base, h.base + h.arena)
  {}

  lemma TilesApart(h: Heap, i: nat, k: nat)
    requires WellFormed(h) && i < |h.tiles| && k < |h.tiles| && i != k
    ensures h.tiles[i].End() <= h.tiles[k].addr || h.tiles[k].End() <= h.tiles[i].addr
  {
    assert i < k ==> h.tiles[i].End() <= h.tiles[k].addr;
    assert k < i ==> h.tiles[k].End() <= h.tiles[i].addr;
  }

  lemma CarveFreeList(tiles: seq<Tile>, free: seq<nat>, i: nat, extent: nat, status: Status, lo: nat, hi: nat)
    requires Tiling(tiles, lo, hi) && i < |tiles| && tiles[i].size + 64 <= WORD && status.Used?
    requires 1 <= extent <= tiles[i].size
    requires FreeListExact(tiles, free)
    ensures FreeListExact(Carve(tiles, i, extent, status), FreeAfterCarve(free, tiles[i], extent))
  {
    hide KeptExtent, Splits, Tiling;
    var t, parts, f := tiles[i], Parts(tiles[i], extent, status), FreeAfterCarve(free, tiles[i], extent);
    TileAligned(tiles, lo, hi, i);
    PartsTile(t, extent, status);
    EraseElements(free, t.addr);
    if |parts| == 2 {
      NoTileInside(tiles, i, lo, hi, parts[1].addr);
      assert !FreeAt(tiles, parts[1].addr);
    }
    forall a: nat ensures a in f <==> FreeAt(Carve(tiles, i, extent, status), a) {
      ReplaceFreeAt(tiles, i, i, parts, lo, hi, a);
    }
  }

  /** Writing the word below a new pointer disturbs no other block's back-pointer. */
  lemma OtherGrantsKept(tiles: seq<Tile>, i: nat, j: nat, lo: nat, hi: nat, words: map<nat, nat>, at: nat, value: nat)
    requires Tiling(tiles, lo, hi) && i < |tiles| && j < |tiles| && i != j
    requires tiles[j].status.Used? && GrantOk(tiles[j], words)
    requires tiles[i].addr <= at < tiles[i].End()
    ensures GrantOk(tiles[j], words[at := value])
  {
    assert i < j ==> tiles[i].End() <= tiles[j].addr;
    assert j < i ==> tiles[j].End() <= tiles[i].addr;
  }

  /** The new grant fits the carved tile and carries its own back-pointer. */
  lemma NewGrantOk(h: Heap, i: nat, size: nat, align: nat)
    requires Fits(h, i, size, align) && Aligned(h.tiles[i]) && h.tiles[i].End() <= WORD
    ensures var t, n, p := h.tiles[i], Max(size, 1), GrantPtr(h.tiles[i], size, align);
            var extent, words' := Extent(t, size, align), Granted(h, i, size, align).words;
            && 1 <= extent <= t.size
            && (align > DEFAULT_ALIGNMENT ==> t.Payload() <= p - SLOT && p <= t.End())
            && GrantOk(Tile(t.addr, KeptExtent(t.size, extent), Used(p, n, align)), words')
            && GrantOk(Tile(t.addr, t.size, Used(p, n, align)), words')
  {
    hide IsPowerOfTwo, Carve, FreeAfterCarve, AlignUp, KeptExtent, Splits;
    var t := h.tiles[i];
    if align <= DEFAULT_ALIGNMENT {
      SmallPowers();
      PowerOfTwoDivides(align, 64);
      ModTrans(t.Payload(), align, 64);
    } else {
      OverAlignedFits(t, size, align);
    }
    KeptExtentFacts(t.size, Extent(t, size, align));
  }

  lemma GrantedKeepsWellFormed(h: Heap, i: nat, size: nat, align: nat)
    requires WellFormed(h) && Fits(h, i, size, align)
    ensures WellFormed(Granted(h, i, size, align))
  {
    hide GrantPtr, Extent, Carve, FreeAfterCarve, SpanNeeded, IsPowerOfTwo;
    hide Tiling, Coalesced, FreeListExact, GrantsOk, WordsOnGrid, UsedCount;
    GrantedTiling(h, i, size, align);
    GrantedFreeList(h, i, size, align);
    GrantedGrants(h, i, size, align);
    GrantedWords(h, i, size, align);
  }

  lemma FreeNeighbours(tiles: seq<Tile>, i: nat)
    requires Coalesced(tiles) && i < |tiles| && tiles[i].status.Free?
    ensures i > 0 ==> tiles[i - 1].status.Used?
    ensures i + 1 < |tiles| ==> tiles[i + 1].status.Used?
  {}

  /** Handing out a tile, split or not, turns one free tile into one used one. */
  lemma CarveTiling(tiles: seq<Tile>, i: nat, extent: nat, status: Status, lo: nat, hi: nat)
    requires Tiling(tiles, lo, hi) && Coalesced(tiles) && hi <= WORD && i < |tiles| && tiles[i].status.Free?
    requires tiles[i].size + 64 <= WORD && 1 <= extent <= tiles[i].size && status.Used?
    ensures var c := Carve(tiles, i, extent, status);
            Tiling(c, lo, hi) && Coalesced(c) && UsedCount(c) == UsedCount(tiles) + 1
  {
    hide Splits, KeptExtent, Tiling, Coalesced, UsedCount, Replace, Aligned;
    var t, parts := tiles[i], Parts(tiles[i], extent, status);
    TileAligned(tiles, lo, hi, i);
    PartsTile(t, extent, status);
    ReplaceTiling(tiles, i, i, parts, lo, hi);
    FreeNeighbours(tiles, i);
    ReplaceCoalesced(tiles, i, i, parts);
    ReplaceCount(tiles, i, i, parts);
    CountOne(t);
    assert tiles[i..i + 1] == [t];
  }

  lemma GrantedTiling(h: Heap, i: nat, size: nat, align: nat)
    requires WellFormed(h) && Fits(h, i, size, align)
    ensures var tiles := Granted(h, i, size, align).tiles;
            && Tiling(tiles, h.base, h.base + h.arena) && Coalesced(tiles)
            && UsedCount(tiles) == UsedCount(h.tiles) + 1
  {
    hide GrantPtr, Extent, SpanNeeded, IsPowerOfTwo, Tiling, GrantOk, WordsOnGrid;
    hide FreeListExact, GrantsOk, FreeAfterCarve, Carve, Coalesced, UsedCount;
    var t := h.tiles[i];
    TileInArena(h, i);
    TileAligned(h.tiles, h.base, h.base + h.arena, i);
    NewGrantOk(h, i, size, align);
    CarveTiling(h.tiles, i, Extent(t, size, align), Used(GrantPtr(t, size, align), Max(size, 1), align),
                h.base, h.base + h.arena);
  }

  lemma GrantedFreeList(h: Heap, i: nat, size: nat, align: nat)
    requires WellFormed(h) && Fits(h, i, size, align)
    ensures FreeListExact(Granted(h, i, size, align).tiles, Granted(h, i, size, align).free)
  {
    hide GrantPtr, Extent, Splits, KeptExtent, SpanNeeded, IsPowerOfTwo, Tiling, GrantOk, WordsOnGrid;
    hide FreeListExact, Coalesced, GrantsOk, FreeAfterCarve, Carve;
    var t := h.tiles[i];
    TileInArena(h, i);
    TileAligned(h.tiles, h.base, h.base + h.arena, i);
    NewGrantOk(h, i, size, align);
    CarveFreeList(h.tiles, h.free, i, Extent(t, size, align), Used(GrantPtr(t, size, align), Max(size, 1), align),
                  h.base, h.base + h.arena);
  }

  lemma GrantedWords(h: Heap, i: nat, size: nat, align: nat)
    requires WellFormed(h) && Fits(h, i, size, align)
    ensures WordsOnGrid(Granted(h, i, size, align))
  {
    hide GrantPtr, Extent, Carve, FreeAfterCarve, SpanNeeded, IsPowerOfTwo, Coalesced, FreeListExact, GrantsOk;
    TileAligned(h.tiles, h.base, h.base + h.arena, i);
    assert WordsOnGrid(h);
  }

  lemma GrantedGrants(h: Heap, i: nat, size: nat, align: nat)
    requires WellFormed(h) && Fits(h, i, size, align)
    ensures GrantsOk(Granted(h, i, size, align).tiles, Granted(h, i, size, align).words)
  {
    hide GrantPtr, Extent, Splits, KeptExtent, SpanNeeded, IsPowerOfTwo, Tiling, GrantOk;
    var lo, hi, t, words' := h.base, h.base + h.arena, h.tiles[i], Granted(h, i, size, align).words;
    var p := GrantPtr(t, size, align);
    TileInArena(h, i);
    TileAligned(h.tiles, lo, hi, i);
    NewGrantOk(h, i, size, align);
    forall j | 0 <= j < |h.tiles| && j != i && h.tiles[j].status.Used? ensures GrantOk(h.tiles[j], words') {
      if align > DEFAULT_ALIGNMENT {
        OtherGrantsKept(h.tiles, i, j, lo, hi, h.words, p - SLOT, t.addr);
      }
    }
    ReplaceGrants(h.tiles, i, i, Parts(t, Extent(t, size, align), Used(p, Max(size, 1), align)), words');
  }

  /** No allocation keeps two cache lines or more beyond the bytes it occupies. */
  lemma SlackBounded(h: Heap, i: nat, size: nat, align: nat)
    requires WellFormed(h) && Fits(h, i, size, align)
    ensures var t, h' := h.tiles[i], Granted(h, i, size, align);
            && i < |h'.tiles| && h'.tiles[i].status.Used?
            && Extent(t, size, align) <= h'.tiles[i].size < Extent(t, size, align) + 2 * HEADER
  {
    hide GrantPtr, Extent, KeptExtent, SpanNeeded, IsPowerOfTwo, Tiling;
    hide Coalesced, FreeListExact, GrantsOk, GrantOk, FreeAfterCarve, UsedCount;
    TileInArena(h, i);
    TileAligned(h.tiles, h.base, h.base + h.arena, i);
    NewGrantOk(h, i, size, align);
    KeptExtentFacts(h.tiles[i].size, Extent(h.tiles[i], size, align));
  }

  lemma TileAligned(tiles: seq<Tile>, lo: nat, hi: nat, i: nat)
    requires Tiling(tiles, lo, hi) && i < |tiles|
    ensures Aligned(tiles[i])
  {}

  /** allocate, successful or not, keeps the arena well-formed. */
  lemma AllocateKeepsWellFormed(h: Heap, size: nat, align: nat)
    requires WellFormed(h) && NoWrap(size, align)
    ensures var h' := Allocate(h, size, align).0;
            WellFormed(h') && h'.base == h.base && h'.arena == h.arena
  {
    hide WellFormed, Fits;
    if IsPowerOfTwo(align) {
      var i := Chosen(h, size, align);
      if i.Some? {
        GrantedKeepsWellFormed(h, i.value, size, align);
      }
    }
  }

  // ---- Freeing ----

  /** Freeing any live block, merging with free neighbours, keeps the arena well-formed. */
  lemma FreeKeepsWellFormed(h: Heap, i: nat)
    requires WellFormed(h) && i < |h.tiles| && h.tiles[i].status.Used?
    ensures WellFormed(FreeTileAt(h, i))
  {
    hide MergeLo, MergeHi, Merged, Replace, Tiling, GrantOk, FreeListExact, UsedCount;
    var lo, hi, tiles := h.base, h.base + h.arena, h.tiles;
    MergeRun(tiles, i, lo, hi);
    var l, r := MergeLo(tiles, i), MergeHi(tiles, i);
    var m := Merged(tiles, l, r);
    MergedTile(tiles, i, lo, hi);
    RunNeighbours(tiles, i);
    ReplaceTiling(tiles, l, r, [m], lo, hi);
    assert Coalesced([m]);
    ReplaceCoalesced(tiles, l, r, [m]);
    MergedFreeList(h, i);
    MergedIsFree(tiles, l, r);
    ReplaceGrants(tiles, l, r, [m], h.words);
    RunCount(tiles, i);
    ReplaceCount(tiles, l, r, [m]);
    CountOne(m);
  }

  lemma OneTile(a: nat, s: nat, x: nat, y: nat)
    requires a % 64 == 0 && s % 64 == 0 && s >= 64 && x % 64 == 0 && y % 64 == 0
    ensures Tiling([Tile(a, s + x + y, Free)], a, a + HEADER + s + x + y)
  {}

  lemma MergedIsFree(tiles: seq<Tile>, l: nat, r: nat)
    requires l <= r < |tiles| && tiles[l].Payload() <= tiles[r].End()
    ensures Merged(tiles, l, r).status.Free?
  {}

  lemma MergedTile(tiles: seq<Tile>, i: nat, lo: nat, hi: nat)
    requires Tiling(tiles, lo, hi) && i < |tiles|
    requires MergeLo(tiles, i) <= MergeHi(tiles, i)
             && tiles[MergeLo(tiles, i)].Payload() <= tiles[MergeHi(tiles, i)].End()
    ensures var l, r := MergeLo(tiles, i), MergeHi(tiles, i);
            Tiling([Merged(tiles, l, r)], tiles[l].addr, tiles[r].End())
  {
    var l, r := MergeLo(tiles, i), MergeHi(tiles, i);
    var x, y := MergedSizes(tiles, i, lo, hi);
    OneTile(tiles[l].addr, tiles[i].size, x, y);
    assert Merged(tiles, l, r) == Tile(tiles[l].addr, tiles[i].size + x + y, Free);
  }

  /** What each free neighbour adds to the payload: its own plus one header. */
  lemma MergedSizes(tiles: seq<Tile>, i: nat, lo: nat, hi: nat) returns (x: nat, y: nat)
    requires Tiling(tiles, lo, hi) && i < |tiles|
    ensures var l, r := MergeLo(tiles, i), MergeHi(tiles, i);
            && tiles[r].End() - tiles[l].Payload() == tiles[i].size + x + y
            && x % 64 == 0 && y % 64 == 0 && Aligned(tiles[i]) && Aligned(tiles[l])
  {
    var l, r := MergeLo(tiles, i), MergeHi(tiles, i);
    assert l < i ==> tiles[l].End() == tiles[i].addr;
    assert i < r ==> tiles[i].End() == tiles[r].addr;
    x := if l < i then tiles[l].size + HEADER else 0;
    y := if i < r then tiles[r].size + HEADER else 0;
    assert x % 64 == 0 by { assert Aligned(tiles[l]); }
    assert y % 64 == 0 by { assert Aligned(tiles[r]); }
    assert Aligned(tiles[i]);
  }

  /** The run that is merged stops at used tiles or at the arena's ends. */
  lemma RunNeighbours(tiles: seq<Tile>, i: nat)
    requires Coalesced(tiles) && i < |tiles|
    ensures var l, r := MergeLo(tiles, i), MergeHi(tiles, i);
            && (l == 0 || tiles[l - 1].status.Used?)
            && (r + 1 == |tiles| || tiles[r + 1].status.Used?)
  {
    var l, r := MergeLo(tiles, i), MergeHi(tiles, i);
    assert l < i && l > 0 ==> tiles[l - 1].status.Used?;
    assert i < r && r + 1 < |tiles| ==> tiles[r + 1].status.Used?;
  }

  lemma CutAround(tiles: seq<Tile>, l: nat, i: nat, r: nat)
    requires l <= i <= r < |tiles|
    ensures tiles[l..r + 1] == tiles[l..i] + ([tiles[i]] + tiles[i + 1..r + 1])
  {}

  lemma RunCount(tiles: seq<Tile>, i: nat)
    requires i < |tiles| && tiles[i].status.Used?
    ensures UsedCount(tiles[MergeLo(tiles, i)..MergeHi(tiles, i) + 1]) == 1
  {
    var l, r := MergeLo(tiles, i), MergeHi(tiles, i);
    var before, after := tiles[l..i], tiles[i + 1..r + 1];
    CutAround(tiles, l, i, r);
    CountMid(before, [tiles[i]], after);
    CountOne(tiles[i]);
    if l < i {
      assert before == [tiles[l]];
      CountOne(tiles[l]);
    }
    if i < r {
      assert after == [tiles[r]];
      CountOne(tiles[r]);
    }
  }

  /** The merged block joins the list in front; absorbed neighbours have left it. */
  lemma MergedFreeList(h: Heap, i: nat)
    requires WellFormed(h) && i < |h.tiles| && h.tiles[i].status.Used?
    ensures FreeListExact(FreeTileAt(h, i).tiles, FreeTileAt(h, i).free)
  {
    hide Replace, Tiling, Coalesced, GrantsOk, UsedCount;
    var lo, hi, tiles := h.base, h.base + h.arena, h.tiles;
    MergeRun(tiles, i, lo, hi);
    var l, r := MergeLo(tiles, i), MergeHi(tiles, i);
    var m, f' := Merged(tiles, l, r), FreeTileAt(h, i).free;
    var f1 := if r > i then Erase(h.free, tiles[r].addr) else h.free;
    EraseElements(h.free, tiles[r].addr);
    EraseElements(f1, tiles[l].addr);
    RunAddresses(tiles, i, lo, hi);
    hide MergeLo, MergeHi, Erase;
    forall a: nat ensures a in f' <==> FreeAt(FreeTileAt(h, i).tiles, a) {
      ReplaceFreeAt(tiles, l, r, [m], lo, hi, a);
      assert FreeAt([m], a) <==> a == m.addr by {
        assert [m][0] == m;
      }
    }
    assert m.addr !in f'[1..];
  }

  /** Free addresses within the merged run are exactly those of the absorbed neighbours. */
  lemma RunAddresses(tiles: seq<Tile>, i: nat, lo: nat, hi: nat)
    requires Tiling(tiles, lo, hi) && i < |tiles| && tiles[i].status.Used?
    ensures var l, r := MergeLo(tiles, i), MergeHi(tiles, i);
            && (forall a: nat :: FreeAt(tiles, a) && tiles[l].addr <= a <= tiles[r].addr
                  <==> (l < i && a == tiles[l].addr) || (i < r && a == tiles[r].addr))
            && (l < r ==> tiles[l].addr < tiles[r].addr) && !FreeAt(tiles, tiles[i].addr)
  {
    var l, r := MergeLo(tiles, i), MergeHi(tiles, i);
    MergeRun(tiles, i, lo, hi);
    forall j | 0 <= j < |tiles| ensures l <= j <= r <==> tiles[l].addr <= tiles[j].addr <= tiles[r].addr
                                ensures tiles[j].addr == tiles[i].addr ==> j == i {
      OutsideRun(tiles, l, r, lo, hi, j);
      OutsideRun(tiles, i, i, lo, hi, j);
    }
  }

  lemma DeallocateKeepsWellFormed(h: Heap, p: nat)
    requires WellFormed(h) && OnGrid(h, p)
    ensures var h' := Deallocate(h, p).0;
            WellFormed(h') && h'.base == h.base && h'.arena == h.arena && h'.words == h.words
  {
    hide WellFormed, Lookup;
    if p != 0 && Lookup(h, p).Some? {
      FreeKeepsWellFormed(h, IndexOf(h.tiles, Lookup(h, p).value));
    }
  }
}
