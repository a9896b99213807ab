/**
 The arena as a sequence of tiles in address order: what allocate and deallocate do to the
 layout, the free list, the back-pointer words and the set of live allocations.
 */
module PoolHeap {
  import opened Basics
  import opened Bits

  const HEADER: nat := 64
  const SLOT: nat := 8
  const DEFAULT_ALIGNMENT: nat := 64
  const MAX_ALIGN: nat := 16
  const MIN_SPLIT_PAYLOAD: nat := 32

  /** A used tile remembers what its caller asked for and got; the code keeps no such record. */
  datatype Status = Free | Used(ptr: nat, size: nat, align: nat)

  /** A block: header address, payload capacity. */
  datatype Tile = Tile(addr: nat, size: nat, status: Status) {
    function Payload(): nat { addr + HEADER }
    function End(): nat { addr + HEADER + size }
  }

  datatype Heap = Heap(
    base: nat, arena: nat, tiles: seq<Tile>, free: seq<nat>, words: map<nat, nat>,
    allocations: nat, frees: nat, active: nat)

  datatype AllocError = InvalidAlignment | OutOfMemory

  // ---- The invariant ----

  /** Tiles cover [lo, hi) without gap or overlap, in address order. */
  ghost predicate Tiling(tiles: seq<Tile>, lo: nat, hi: nat) {
    && |tiles| >= 1 && tiles[0].addr == lo && tiles[|tiles| - 1].End() == hi
    && (forall i, j | 0 <= i < j < |tiles| ::
          tiles[i].End() <= tiles[j].addr && (j == i + 1 ==> tiles[i].End() == tiles[j].addr))
    && (forall i | 0 <= i < |tiles| :: Aligned(tiles[i]))
  }

  predicate Aligned(t: Tile) {
    t.addr % 64 == 0 && t.size % 64 == 0 && t.size >= 64
  }

  ghost predicate Coalesced(tiles: seq<Tile>) {
    forall i, j | 0 <= i < j < |tiles| && j == i + 1 :: !(tiles[i].status.Free? && tiles[j].status.Free?)
  }

  ghost predicate FreeAt(tiles: seq<Tile>, a: nat) {
    exists i :: 0 <= i < |tiles| && tiles[i].addr == a && tiles[i].status.Free?
  }

  /** The free list names every free tile once and nothing else. */
  ghost predicate FreeListExact(tiles: seq<Tile>, free: seq<nat>) {
    NoDup(free) && forall a :: a in free <==> FreeAt(tiles, a)
  }

  /** A live allocation: aligned, inside its block, with its back-pointer intact if over-aligned. */
  ghost predicate GrantOk(t: Tile, words: map<nat, nat>)
    requires t.status.Used?
  {
    var p, n, a := t.status.ptr, t.status.size, t.status.align;
    && IsPowerOfTwo(a) && p % a == 0 && p % 64 == 0 && n >= 1
    && p + n <= t.End()
    && if a <= DEFAULT_ALIGNMENT then p == t.Payload()
       else t.Payload() + SLOT <= p && At(words, p - SLOT) == t.addr
  }

  ghost predicate GrantsOk(tiles: seq<Tile>, words: map<nat, nat>) {
    forall i | 0 <= i < |tiles| && tiles[i].status.Used? :: GrantOk(tiles[i], words)
  }

  function UsedCount(tiles: seq<Tile>): nat {
    if tiles == [] then 0
    else UsedCount(tiles[..|tiles| - 1]) + if tiles[|tiles| - 1].status.Used? then 1 else 0
  }

  /** Headers and caller pointers start at multiples of 64; addresses outside the arena do not matter. */
  predicate OnGrid(h: Heap, p: nat) {
    Owns(h, p) ==> p % 64 == 0
  }

  /** No word that could be taken for a back-pointer leads off the grid. */
  ghost predicate WordsOnGrid(h: Heap) {
    forall a | a in h.words :: OnGrid(h, h.words[a])
  }

  ghost predicate WellFormed(h: Heap) {
    && 0 < h.base && h.base + h.arena <= WORD
    && Tiling(h.tiles, h.base, h.base + h.arena)
    && Coalesced(h.tiles)
    && FreeListExact(h.tiles, h.free)
    && GrantsOk(h.tiles, h.words)
    && WordsOnGrid(h)
    && h.active == UsedCount(h.tiles) && h.allocations == h.frees + h.active
  }

  // ---- Finding tiles ----

  ghost predicate IsTile(tiles: seq<Tile>, a: nat) {
    exists i :: 0 <= i < |tiles| && tiles[i].addr == a
  }

  ghost function IndexOf(tiles: seq<Tile>, a: nat): (i: nat)
    requires IsTile(tiles, a)
    ensures i < |tiles| && tiles[i].addr == a
  {
    var i :| 0 <= i < |tiles| && tiles[i].addr == a;
    i
  }

  /** Addresses identify tiles. */
  lemma IndexUnique(tiles: seq<Tile>, lo: nat, hi: nat, i: nat)
    requires Tiling(tiles, lo, hi) && i < |tiles|
    ensures IndexOf(tiles, tiles[i].addr) == i
  {
    var j := IndexOf(tiles, tiles[i].addr);
    assert tiles[j].addr == tiles[i].addr;
  }

  /** First fit along the free list. */
  ghost function FirstFit(tiles: seq<Tile>, free: seq<nat>, need: nat): Option<nat>
    requires forall a | a in free :: IsTile(tiles, a)
  {
    if free == [] then None
    else if tiles[IndexOf(tiles, free[0])].size >= need then Some(free[0])
    else FirstFit(tiles, free[1..], need)
  }

  /** The first entry of the list that is large enough, if any is. */
  lemma {:induction false} FirstFitFinds(tiles: seq<Tile>, free: seq<nat>, need: nat)
    requires forall a | a in free :: IsTile(tiles, a)
    ensures var r := FirstFit(tiles, free, need);
            && (r.Some? ==> r.value in free && tiles[IndexOf(tiles, r.value)].size >= need
                            && exists k :: 0 <= k < |free| && free[k] == r.value
                                 && forall j | 0 <= j < k :: tiles[IndexOf(tiles, free[j])].size < need)
            && (r.None? ==> forall a | a in free :: tiles[IndexOf(tiles, a)].size < need)
  {
    if free != [] {
      if tiles[IndexOf(tiles, free[0])].size < need {
        var rest := free[1..];
        FirstFitFinds(tiles, rest, need);
        if FirstFit(tiles, rest, need).Some? {
          var k :| 0 <= k < |rest| && rest[k] == FirstFit(tiles, rest, need).value
                   && forall j | 0 <= j < k :: tiles[IndexOf(tiles, rest[j])].size < need;
          assert free[k + 1] == rest[k];
          forall j | 0 <= j < k + 1 ensures tiles[IndexOf(tiles, free[j])].size < need {
            assert j > 0 ==> free[j] == rest[j - 1];
          }
        }
      } else {
        assert free[0] == FirstFit(tiles, free, need).value;
      }
    }
  }

  lemma FreeListTiles(h: Heap)
    requires WellFormed(h)
    ensures forall a | a in h.free :: IsTile(h.tiles, a)
  {
    forall a | a in h.free ensures IsTile(h.tiles, a) {
      assert FreeAt(h.tiles, a);
    }
  }

  lemma FreeTile(h: Heap, a: nat)
    requires WellFormed(h) && a in h.free && IsTile(h.tiles, a)
    ensures h.tiles[IndexOf(h.tiles, a)].status.Free?
  {
    assert FreeAt(h.tiles, a);
    var i :| 0 <= i < |h.tiles| && h.tiles[i].addr == a && h.tiles[i].status.Free?;
    IndexUnique(h.tiles, h.base, h.base + h.arena, i);
  }

  // ---- allocate ----

  predicate NoWrap(size: nat, align: nat) {
    Max(size, 1) + align + MAX_ALIGN <= WORD
  }

  /** Span requested from the free list. */
  function SpanNeeded(size: nat, align: nat): nat
    requires IsPowerOfTwo(align) && NoWrap(size, align)
  {
    var n := Max(size, 1);
    if align <= DEFAULT_ALIGNMENT then AlignUp(n, MAX_ALIGN) else n + align - 1 + SLOT
  }

  /** `std::align`: the first aligned address, unless the space left does not hold `size`. */
  function StdAlign(alignment: nat, size: nat, ptr: nat, space: nat): Option<nat>
    requires IsPowerOfTwo(alignment) && ptr + alignment <= WORD
  {
    var aligned := AlignUp(ptr, alignment);
    if space < size || space - size < aligned - ptr then None else Some(aligned)
  }

  /** Extent kept by the split, rounded so that block addresses stay multiples of 64. */
  function KeptExtent(size: nat, extent: nat): nat
    requires size + 64 <= WORD
  {
    AlignUp(Min(extent, size), DEFAULT_ALIGNMENT)
  }

  predicate Splits(size: nat, extent: nat)
    requires size + 64 <= WORD
  {
    var e := KeptExtent(size, extent);
    e < size && size - e >= HEADER + MIN_SPLIT_PAYLOAD
  }

  /** `parts` in place of tiles l..r. */
  function Replace(tiles: seq<Tile>, l: nat, r: nat, parts: seq<Tile>): seq<Tile>
    requires l <= r < |tiles|
  {
    tiles[..l] + parts + tiles[r + 1..]
  }

  /** Tile `i` becomes used; what is left beyond its extent becomes a free tile if it is worth a header. */
  function Carve(tiles: seq<Tile>, i: nat, extent: nat, status: Status): seq<Tile>
    requires i < |tiles| && tiles[i].size + 64 <= WORD
  {
    var t := tiles[i];
    if Splits(t.size, extent) then
      var e := KeptExtent(t.size, extent);
      Replace(tiles, i, i, [Tile(t.addr, e, status), Tile(t.addr + HEADER + e, t.size - e - HEADER, Free)])
    else Replace(tiles, i, i, [Tile(t.addr, t.size, status)])
  }

  /** Where the caller's bytes start in a chosen block. */
  function GrantPtr(t: Tile, size: nat, align: nat): nat
    requires IsPowerOfTwo(align) && (align > DEFAULT_ALIGNMENT ==> t.Payload() + SLOT + align <= WORD)
  {
    if align <= DEFAULT_ALIGNMENT then t.Payload() else AlignUp(t.Payload() + SLOT, align)
  }

  /** A block of at least the requested span leaves room for any slack: `std::align` cannot fail. */
  lemma OverAlignedFits(t: Tile, size: nat, align: nat)
    requires IsPowerOfTwo(align) && align > DEFAULT_ALIGNMENT && NoWrap(size, align)
    requires t.size >= SpanNeeded(size, align) && t.End() <= WORD && Aligned(t)
    ensures t.Payload() + SLOT + align <= WORD
    ensures StdAlign(align, Max(size, 1), t.Payload() + SLOT, t.size - SLOT) == Some(GrantPtr(t, size, align))
    ensures var p := GrantPtr(t, size, align);
            && p % align == 0 && p % 64 == 0
            && t.Payload() + SLOT <= p < t.Payload() + SLOT + align && p + Max(size, 1) <= t.End()
  {
    SmallPowers();
    PowerOfTwoDivides(64, align);
    ModTrans(GrantPtr(t, size, align), 64, align);
  }

  lemma TileInArena(h: Heap, i: nat)
    requires WellFormed(h) && i < |h.tiles|
    ensures h.base <= h.tiles[i].addr && h.tiles[i].End() <= h.base + h.arena <= WORD
  {
    var last := |h.tiles| - 1;
    assert i < last ==> h.tiles[i].End() <= h.tiles[last].addr;
    assert 0 < i ==> h.tiles[0].End() <= h.tiles[i].addr;
  }

  /** Bytes of the payload, from its start, that the allocation occupies. */
  function Extent(t: Tile, size: nat, align: nat): nat
    requires IsPowerOfTwo(align) && NoWrap(size, align)
    requires align > DEFAULT_ALIGNMENT ==> t.Payload() + SLOT + align <= WORD
  {
    if align <= DEFAULT_ALIGNMENT then SpanNeeded(size, align)
    else GrantPtr(t, size, align) + Max(size, 1) - t.Payload()
  }

  /** The free list once tile `t` has left it and its remainder, if split off, has joined in front. */
  function FreeAfterCarve(free: seq<nat>, t: Tile, extent: nat): seq<nat>
    requires t.size + 64 <= WORD
  {
    (if Splits(t.size, extent) then [t.Payload() + KeptExtent(t.size, extent)] else []) + Erase(free, t.addr)
  }

  /** Tile `i` can serve the request. */
  ghost predicate Fits(h: Heap, i: nat, size: nat, align: nat) {
    && i < |h.tiles| && h.tiles[i].status.Free?
    && IsPowerOfTwo(align) && NoWrap(size, align)
    && h.tiles[i].size >= SpanNeeded(size, align)
    && h.tiles[i].size + 64 <= WORD
    && (align > DEFAULT_ALIGNMENT ==> h.tiles[i].Payload() + SLOT + align <= WORD)
  }

  /** Handing out tile `i`. */
  ghost function Granted(h: Heap, i: nat, size: nat, align: nat): Heap
    requires Fits(h, i, size, align)
  {
    var t, p := h.tiles[i], GrantPtr(h.tiles[i], size, align);
    var extent := Extent(t, size, align);
    h.(tiles := Carve(h.tiles, i, extent, Used(p, Max(size, 1), align)),
       free := FreeAfterCarve(h.free, t, extent),
       words := if align <= DEFAULT_ALIGNMENT then h.words else h.words[p - SLOT := t.addr],
       allocations := h.allocations + 1, active := h.active + 1)
  }

  /** The tile first fit chooses, if any. */
  ghost function Chosen(h: Heap, size: nat, align: nat): (r: Option<nat>)
    requires WellFormed(h) && NoWrap(size, align) && IsPowerOfTwo(align)
    ensures r.Some? ==> Fits(h, r.value, size, align)
  {
    FreeListTiles(h);
    FirstFitFinds(h.tiles, h.free, SpanNeeded(size, align));
    var fit := FirstFit(h.tiles, h.free, SpanNeeded(size, align));
    if fit.None? then None
    else
      var i := IndexOf(h.tiles, fit.value);
      ChosenFits(h, fit.value, size, align);
      Some(i)
  }

  lemma ChosenFits(h: Heap, a: nat, size: nat, align: nat)
    requires WellFormed(h) && NoWrap(size, align) && IsPowerOfTwo(align)
    requires a in h.free && IsTile(h.tiles, a) && h.tiles[IndexOf(h.tiles, a)].size >= SpanNeeded(size, align)
    ensures Fits(h, IndexOf(h.tiles, a), size, align)
  {
    var i := IndexOf(h.tiles, a);
    TileInArena(h, i);
    FreeTile(h, a);
    if align > DEFAULT_ALIGNMENT {
      OverAlignedFits(h.tiles[i], size, align);
    }
  }

  ghost function Allocate(h: Heap, size: nat, align: nat): (Heap, Result<nat, AllocError>)
    requires WellFormed(h) && NoWrap(size, align)
  {
    if !IsPowerOfTwo(align) then (h, Err(InvalidAlignment))
    else
      var i := Chosen(h, size, align);
      if i.None? then (h, Err(OutOfMemory))
      else (Granted(h, i.value, size, align), Ok(GrantPtr(h.tiles[i.value], size, align)))
  }

  lemma FailureChangesNothing(h: Heap, size: nat, align: nat)
    requires WellFormed(h) && NoWrap(size, align)
    ensures Allocate(h, size, align).1.Err? ==> Allocate(h, size, align).0 == h
  {}

  // ---- deallocate ----

  predicate Owns(h: Heap, p: nat) {
    h.base <= p < h.base + h.arena
  }

  ghost predicate UsedAt(tiles: seq<Tile>, a: nat, over: bool) {
    IsTile(tiles, a)
    && var t := tiles[IndexOf(tiles, a)];
       t.status.Used? && (over <==> t.status.align > DEFAULT_ALIGNMENT)
  }

  /**
   The header `deallocate` settles on for a pointer on the grid: the slot 64 bytes below the pointer if it is the header
   of a live default-aligned block, else whatever live over-aligned block the word before the
   pointer names.
   */
  ghost function Lookup(h: Heap, p: nat): (r: Option<nat>)
    ensures r.Some? ==> IsTile(h.tiles, r.value) && h.tiles[IndexOf(h.tiles, r.value)].status.Used?
  {
    if !Owns(h, p) then None
    else if p >= HEADER && Owns(h, p - HEADER) && UsedAt(h.tiles, p - HEADER, false) then Some(p - HEADER)
    else if p >= SLOT && Owns(h, p - SLOT) then
      var w := At(h.words, p - SLOT);
      if Owns(h, w) && UsedAt(h.tiles, w, true) then Some(w) else None
    else None
  }

  /** The free tile that covers tiles l..r. */
  function Merged(tiles: seq<Tile>, l: nat, r: nat): Tile
    requires l <= r < |tiles| && tiles[l].Payload() <= tiles[r].End()
  {
    Tile(tiles[l].addr, tiles[r].End() - tiles[l].Payload(), Free)
  }

  /** First and last tile of the run that freeing tile `i` merges. */
  function MergeLo(tiles: seq<Tile>, i: nat): nat
    requires i < |tiles|
  {
    if i > 0 && tiles[i - 1].status.Free? then i - 1 else i
  }

  function MergeHi(tiles: seq<Tile>, i: nat): nat
    requires i < |tiles|
  {
    if i + 1 < |tiles| && tiles[i + 1].status.Free? then i + 1 else i
  }

  lemma MergeRun(tiles: seq<Tile>, i: nat, lo: nat, hi: nat)
    requires Tiling(tiles, lo, hi) && i < |tiles|
    ensures var l, r := MergeLo(tiles, i), MergeHi(tiles, i);
            l <= i <= r < |tiles| && tiles[l].Payload() <= tiles[r].End()
  {
    var l, r := MergeLo(tiles, i), MergeHi(tiles, i);
    assert l < r ==> tiles[l].End() <= tiles[r].addr;
  }

  ghost function FreeTileAt(h: Heap, i: nat): Heap
    requires WellFormed(h) && i < |h.tiles| && h.tiles[i].status.Used?
  {
    MergeRun(h.tiles, i, h.base, h.base + h.arena);
    UsedCountAt(h.tiles, i);
    var l, r := MergeLo(h.tiles, i), MergeHi(h.tiles, i);
    var f1 := if r > i then Erase(h.free, h.tiles[r].addr) else h.free;
    var f2 := if l < i then Erase(f1, h.tiles[l].addr) else f1;
    h.(tiles := Replace(h.tiles, l, r, [Merged(h.tiles, l, r)]), free := [h.tiles[l].addr] + f2,
       frees := h.frees + 1, active := h.active - 1)
  }

  /** False stands for the `InvalidPointerError`; the null pointer is accepted and ignored. */
  ghost function Deallocate(h: Heap, p: nat): (Heap, bool)
    requires WellFormed(h) && OnGrid(h, p)
  {
    if p == 0 then (h, true)
    else
      var found := Lookup(h, p);
      if found.None? then (h, false) else (FreeTileAt(h, IndexOf(h.tiles, found.value)), true)
  }

  lemma {:induction false} UsedCountConcat(a: seq<Tile>, b: seq<Tile>)
    ensures UsedCount(a + b) == UsedCount(a) + UsedCount(b)
  {
    if b == [] {
      assert a + b == a;
    } else {
      var n := |b| - 1;
      assert (a + b)[..|a + b| - 1] == a + b[..n];
      UsedCountConcat(a, b[..n]);
    }
  }

  lemma UsedCountAt(tiles: seq<Tile>, i: nat)
    requires i < |tiles| && tiles[i].status.Used?
    ensures UsedCount(tiles) >= 1
  {
    assert tiles == tiles[..i] + ([tiles[i]] + tiles[i + 1..]);
    UsedCountConcat(tiles[..i], [tiles[i]] + tiles[i + 1..]);
    UsedCountConcat([tiles[i]], tiles[i + 1..]);
    assert [tiles[i]][..0] == [];
    assert UsedCount([tiles[i]]) == 1;
  }
}
