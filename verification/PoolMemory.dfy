/**
 The arena's memory: header records at 64-byte slots, linked physically and through the free
 list, and what it means for them to represent an abstract heap.
 */
module PoolMemory {
  import opened Basics
  import opened Bits
  import opened PoolHeap
  import opened PoolInvariant

  const MAGIC_USED: nat := 0xCA5EA110C0FFEE
  const MAGIC_FREE: nat := 0xF4EE0B10CACA0000

  /** `BlockHeader`; addresses are numbers and 0 is the null pointer. */
  datatype Header = Header(
    size: nat, isFree: bool, isAligned: bool,
    prevPhys: nat, nextPhys: nat, prevFree: nat, nextFree: nat, magic: nat)

  /** Records by address. Addresses never written read as zero-filled memory. */
  type Memory = map<nat, Header>

  const ZERO: Header := Header(0, false, false, 0, 0, 0, 0, 0)

  function Load(mem: Memory, a: nat): Header {
    if a in mem then mem[a] else ZERO
  }

  // ---- Representation ----

  function PrevAddr(tiles: seq<Tile>, i: nat): nat
    requires i < |tiles|
  {
    if i == 0 then 0 else tiles[i - 1].addr
  }

  function NextAddr(tiles: seq<Tile>, i: nat): nat
    requires i < |tiles|
  {
    if i + 1 == |tiles| then 0 else tiles[i + 1].addr
  }

  /** The record of tile `i`: size, flags, magic and physical neighbours. */
  ghost predicate RecordAt(mem: Memory, tiles: seq<Tile>, i: nat)
    requires i < |tiles|
  {
    var t := tiles[i];
    && t.addr in mem
    && var r := mem[t.addr];
       && r.size == t.size
       && (r.isFree <==> t.status.Free?)
       && r.magic == (if t.status.Free? then MAGIC_FREE else MAGIC_USED)
       && (t.status.Used? ==> (r.isAligned <==> t.status.align > DEFAULT_ALIGNMENT))
       && r.prevPhys == PrevAddr(tiles, i) && r.nextPhys == NextAddr(tiles, i)
  }

  ghost predicate Layout(mem: Memory, tiles: seq<Tile>) {
    forall i | 0 <= i < |tiles| :: RecordAt(mem, tiles, i)
  }

  /** Only headers of used blocks carry the in-use magic; absorbed headers keep the free one. */
  ghost predicate NoStrayMagic(mem: Memory, tiles: seq<Tile>) {
    forall a | a in mem && mem[a].magic == MAGIC_USED ::
      exists i :: 0 <= i < |tiles| && tiles[i].addr == a && tiles[i].status.Used?
  }

  function PrevOf(free: seq<nat>, j: nat): nat
    requires j < |free|
  {
    if j == 0 then 0 else free[j - 1]
  }

  function NextOf(free: seq<nat>, j: nat): nat
    requires j < |free|
  {
    if j + 1 == |free| then 0 else free[j + 1]
  }

  ghost predicate FreeLinkAt(mem: Memory, free: seq<nat>, j: nat)
    requires j < |free|
  {
    free[j] > 0 && free[j] in mem
    && mem[free[j]].prevFree == PrevOf(free, j) && mem[free[j]].nextFree == NextOf(free, j)
  }

  /** The doubly linked free list, read from the head, is `free`. */
  ghost predicate FreeLinks(mem: Memory, head: nat, free: seq<nat>) {
    && NoDup(free)
    && head == (if free == [] then 0 else free[0])
    && forall j | 0 <= j < |free| :: FreeLinkAt(mem, free, j)
  }

  // ---- Frames ----

  ghost predicate SameAt(mem: Memory, mem': Memory, a: nat) {
    (a in mem <==> a in mem') && (a in mem ==> mem[a] == mem'[a])
  }

  /** Nothing but free-list links changed. */
  ghost predicate OnlyFreeLinks(mem: Memory, mem': Memory) {
    mem'.Keys == mem.Keys
    && forall a | a in mem :: mem'[a] == mem[a].(prevFree := mem'[a].prevFree, nextFree := mem'[a].nextFree)
  }

  /** The record at `a` is still there with its free-list links unchanged. */
  ghost predicate KeepsFreeLinks(mem: Memory, mem': Memory, a: nat)
    requires a in mem
  {
    a in mem' && mem'[a].prevFree == mem[a].prevFree && mem'[a].nextFree == mem[a].nextFree
  }

  lemma FreeLinksFrame(mem: Memory, mem': Memory, tiles: seq<Tile>)
    requires OnlyFreeLinks(mem, mem')
    ensures Layout(mem, tiles) ==> Layout(mem', tiles)
    ensures NoStrayMagic(mem, tiles) ==> NoStrayMagic(mem', tiles)
  {
    if Layout(mem, tiles) {
      forall i | 0 <= i < |tiles| ensures RecordAt(mem', tiles, i) {
        assert RecordAt(mem, tiles, i);
      }
    }
  }

  /** Free-list links survive a change elsewhere in the records. */
  lemma LinksFrame(mem: Memory, mem': Memory, head: nat, free: seq<nat>)
    requires FreeLinks(mem, head, free)
    requires forall a | a in free && a in mem :: KeepsFreeLinks(mem, mem', a)
    ensures FreeLinks(mem', head, free)
  {
    forall j | 0 <= j < |free| ensures FreeLinkAt(mem', free, j) {
      assert FreeLinkAt(mem, free, j) && free[j] in free;
    }
  }

  /** Distinct tiles have distinct, non-null addresses. */
  lemma AddressesDistinct(tiles: seq<Tile>, lo: nat, hi: nat, i: nat, j: nat)
    requires Tiling(tiles, lo, hi) && lo > 0 && i < |tiles| && j < |tiles|
    ensures tiles[i].addr > 0 && (tiles[i].addr == tiles[j].addr <==> i == j)
  {
    assert i < j ==> tiles[i].End() <= tiles[j].addr;
    assert j < i ==> tiles[j].End() <= tiles[i].addr;
    assert 0 < i ==> tiles[0].End() <= tiles[i].addr;
  }

  /** Rewriting the status part of one record. */
  lemma RecordUpdate(mem: Memory, tiles: seq<Tile>, i: nat, lo: nat, hi: nat, t: Tile, r: Header, j: nat)
    requires Layout(mem, tiles) && Tiling(tiles, lo, hi) && lo > 0 && i < |tiles| && j < |tiles|
    requires t.addr == tiles[i].addr && t.size == tiles[i].size
    requires r.size == t.size && (r.isFree <==> t.status.Free?)
    requires r.magic == if t.status.Free? then MAGIC_FREE else MAGIC_USED
    requires t.status.Used? ==> (r.isAligned <==> t.status.align > DEFAULT_ALIGNMENT)
    requires t.addr in mem && r.prevPhys == mem[t.addr].prevPhys && r.nextPhys == mem[t.addr].nextPhys
    ensures RecordAt(mem[t.addr := r], tiles[i := t], j)
  {
    AddressesDistinct(tiles, lo, hi, i, j);
    assert RecordAt(mem, tiles, j);
  }

  lemma StatusUpdate(mem: Memory, tiles: seq<Tile>, i: nat, lo: nat, hi: nat, t: Tile, r: Header)
    requires Layout(mem, tiles) && Tiling(tiles, lo, hi) && lo > 0 && i < |tiles|
    requires t.addr == tiles[i].addr && t.size == tiles[i].size && NoStrayMagic(mem, tiles)
    requires r.size == t.size && (r.isFree <==> t.status.Free?)
    requires r.magic == if t.status.Free? then MAGIC_FREE else MAGIC_USED
    requires t.status.Used? ==> (r.isAligned <==> t.status.align > DEFAULT_ALIGNMENT)
    requires t.addr in mem && r.prevPhys == mem[t.addr].prevPhys && r.nextPhys == mem[t.addr].nextPhys
    ensures Layout(mem[t.addr := r], tiles[i := t]) && NoStrayMagic(mem[t.addr := r], tiles[i := t])
  {
    hide RecordAt, Tiling;
    var mem', tiles' := mem[t.addr := r], tiles[i := t];
    forall j | 0 <= j < |tiles'| ensures RecordAt(mem', tiles', j) {
      RecordUpdate(mem, tiles, i, lo, hi, t, r, j);
    }
    forall a | a in mem' && mem'[a].magic == MAGIC_USED
      ensures exists j :: 0 <= j < |tiles'| && tiles'[j].addr == a && tiles'[j].status.Used?
    {
      if a == t.addr {
        assert tiles'[i].addr == a && tiles'[i].status.Used?;
      } else {
        var j :| 0 <= j < |tiles| && tiles[j].addr == a && tiles[j].status.Used?;
        assert tiles'[j] == tiles[j];
      }
    }
  }

  /** What `deallocate` reads at an address agrees with the abstract view. */
  lemma MagicTellsUsed(mem: Memory, tiles: seq<Tile>, lo: nat, hi: nat, a: nat, over: bool)
    requires Layout(mem, tiles) && NoStrayMagic(mem, tiles) && Tiling(tiles, lo, hi)
    ensures Load(mem, a).magic == MAGIC_USED && Load(mem, a).isAligned == over <==> UsedAt(tiles, a, over)
  {
    if Load(mem, a).magic == MAGIC_USED {
      var i :| 0 <= i < |tiles| && tiles[i].addr == a && tiles[i].status.Used?;
      assert RecordAt(mem, tiles, i);
      IndexUnique(tiles, lo, hi, i);
    }
    if IsTile(tiles, a) {
      assert RecordAt(mem, tiles, IndexOf(tiles, a));
    }
  }

  /** Following the physical links of tile `i` stays in memory. */
  lemma LinksInMemory(mem: Memory, tiles: seq<Tile>, i: nat)
    requires Layout(mem, tiles) && i < |tiles|
    ensures tiles[i].addr in mem && mem[tiles[i].addr].size == tiles[i].size
    ensures mem[tiles[i].addr].nextPhys == NextAddr(tiles, i) && mem[tiles[i].addr].prevPhys == PrevAddr(tiles, i)
    ensures mem[tiles[i].addr].isFree <==> tiles[i].status.Free?
    ensures NextAddr(tiles, i) != 0 ==> NextAddr(tiles, i) in mem
    ensures PrevAddr(tiles, i) != 0 ==> PrevAddr(tiles, i) in mem
  {
    assert RecordAt(mem, tiles, i);
    assert i + 1 < |tiles| ==> RecordAt(mem, tiles, i + 1);
    assert i > 0 ==> RecordAt(mem, tiles, i - 1);
  }

  /** The header `deallocate` finds by reading magics: 0 if neither candidate passes. */
  function HeaderByMagic(mem: Memory, words: map<nat, nat>, base: nat, arena: nat, ptr: nat): nat {
    var std := if ptr >= HEADER && base <= ptr - HEADER < base + arena then Load(mem, ptr - HEADER) else ZERO;
    if std.magic == MAGIC_USED && !std.isAligned then ptr - HEADER
    else if ptr >= SLOT && base <= ptr - SLOT < base + arena then
      var w := At(words, ptr - SLOT);
      if base <= w < base + arena && Load(mem, w).magic == MAGIC_USED && Load(mem, w).isAligned then w else 0
    else 0
  }

  /** Reading magics, stale ones included, finds what the abstract lookup finds. */
  lemma MagicFindsHeader(mem: Memory, h: Heap, ptr: nat)
    requires WellFormed(h) && Layout(mem, h.tiles) && NoStrayMagic(mem, h.tiles) && Owns(h, ptr)
    ensures var a := HeaderByMagic(mem, h.words, h.base, h.arena, ptr);
            && (a == 0 <==> Lookup(h, ptr).None?)
            && (a != 0 ==> Lookup(h, ptr) == Some(a))
  {
    hide WellFormed, Layout, NoStrayMagic, UsedAt, IndexOf, Tiling, At, IsTile;
    TilingOfHeap(h);
    if ptr >= HEADER {
      MagicTellsUsed(mem, h.tiles, h.base, h.base + h.arena, ptr - HEADER, false);
    }
    if ptr >= SLOT {
      MagicTellsUsed(mem, h.tiles, h.base, h.base + h.arena, At(h.words, ptr - SLOT), true);
    }
  }

  // ---- Splitting ----

  /** Point the successor of a block, if it has one, back at `prev`. */
  function SetPrev(mem: Memory, at: nat, prev: nat): (m: Memory)
    ensures m.Keys == mem.Keys
  {
    if at != 0 && at in mem then mem[at := mem[at].(prevPhys := prev)] else mem
  }

  /** Memory after a free record `n` has been spliced in behind the record at `block`. */
  function Spliced(mem: Memory, block: nat, extent: nat, n: nat, size: nat): Memory
    requires block in mem
  {
    var next := mem[block].nextPhys;
    var m := SetPrev(mem[n := Header(size, true, false, block, next, 0, 0, MAGIC_FREE)], next, n);
    m[block := m[block].(nextPhys := n, size := extent)]
  }

  lemma SplicedAt(mem: Memory, block: nat, extent: nat, n: nat, size: nat, a: nat)
    requires block in mem && block != n && mem[block].nextPhys != block && mem[block].nextPhys != n
    ensures var m, next := Spliced(mem, block, extent, n, size), mem[block].nextPhys;
            && (a in m <==> a in mem || a == n)
            && (a == n ==> m[a] == Header(size, true, false, block, next, 0, 0, MAGIC_FREE))
            && (a == block ==> m[a] == mem[a].(nextPhys := n, size := extent))
            && (a in mem && a != n && a != block ==>
                  m[a] == if a == next && a != 0 then mem[a].(prevPhys := n) else mem[a])
  {}

  /** Tile `i` cut in two free tiles `x` and `y`. */
  ghost predicate Cut(tiles: seq<Tile>, i: nat, x: Tile, y: Tile, lo: nat, hi: nat) {
    && Tiling(tiles, lo, hi) && lo > 0 && i < |tiles| && tiles[i].status.Free?
    && x.status.Free? && y.status.Free?
    && x.addr == tiles[i].addr < y.addr < tiles[i].End()
  }

  lemma CutNeighbours(tiles: seq<Tile>, i: nat, x: Tile, y: Tile, j: nat)
    requires i < |tiles| && j <= |tiles| && x.addr == tiles[i].addr
    ensures var c, o := Replace(tiles, i, i, [x, y]), if j <= i then j else j - 1;
            && |c| == |tiles| + 1
            && c[j] == (if j == i then x else if j == i + 1 then y else tiles[o])
            && PrevAddr(c, j) == (if j == i + 1 then x.addr else if j == i + 2 then y.addr else PrevAddr(tiles, o))
            && NextAddr(c, j) == (if j == i then y.addr else NextAddr(tiles, o))
  {}

  /** The addresses a splice touches, told apart. */
  lemma CutAddresses(tiles: seq<Tile>, i: nat, x: Tile, y: Tile, lo: nat, hi: nat, o: nat)
    requires i < |tiles| && Cut(tiles, i, x, y, lo, hi) && o < |tiles|
    ensures x.addr == tiles[i].addr < y.addr && x.status.Free? && y.status.Free? && tiles[i].status.Free?
    ensures tiles[o].addr > 0 && tiles[o].addr != y.addr && (tiles[o].addr == x.addr <==> o == i)
    ensures i + 1 < |tiles| ==> tiles[i + 1].addr > 0 && (tiles[o].addr == tiles[i + 1].addr <==> o == i + 1)
  {
    NoTileInside(tiles, i, lo, hi, y.addr);
    AddressesDistinct(tiles, lo, hi, i, o);
    AddressesDistinct(tiles, lo, hi, o, i);
    if i + 1 < |tiles| {
      AddressesDistinct(tiles, lo, hi, i + 1, o);
    }
  }

  lemma SplitRecord(mem: Memory, tiles: seq<Tile>, i: nat, x: Tile, y: Tile, lo: nat, hi: nat, j: nat)
    requires i < |tiles| && Cut(tiles, i, x, y, lo, hi) && Layout(mem, tiles) && tiles[i].addr in mem
    requires j <= |tiles|
    ensures |Replace(tiles, i, i, [x, y])| == |tiles| + 1
    ensures RecordAt(Spliced(mem, x.addr, x.size, y.addr, y.size), Replace(tiles, i, i, [x, y]), j)
  {
    var o := if j <= i then j else j - 1;
    assert RecordAt(mem, tiles, i) && RecordAt(mem, tiles, o);
    CutAddresses(tiles, i, x, y, lo, hi, o);
    CutAddresses(tiles, i, x, y, lo, hi, i);
    if i + 1 < |tiles| {
      CutAddresses(tiles, i, x, y, lo, hi, i + 1);
      assert RecordAt(mem, tiles, i + 1);
    }
    CutNeighbours(tiles, i, x, y, j);
    hide Layout, Tiling, Replace, Spliced, Cut;
    SplicedAt(mem, x.addr, x.size, y.addr, y.size, Replace(tiles, i, i, [x, y])[j].addr);
  }

  lemma SplitLayout(mem: Memory, tiles: seq<Tile>, i: nat, x: Tile, y: Tile, lo: nat, hi: nat)
    requires i < |tiles| && Cut(tiles, i, x, y, lo, hi) && tiles[i].addr in mem
    requires Layout(mem, tiles) && NoStrayMagic(mem, tiles)
    ensures var c, mem' := Replace(tiles, i, i, [x, y]), Spliced(mem, x.addr, x.size, y.addr, y.size);
            && Layout(mem', c) && NoStrayMagic(mem', c) && !IsTile(tiles, y.addr)
            && (forall a | a in mem && a != y.addr :: KeepsFreeLinks(mem, mem', a))
            && (forall a: nat | !IsTile(tiles, a) && a != y.addr :: SameAt(mem, mem', a))
  {
    var c, mem' := Replace(tiles, i, i, [x, y]), Spliced(mem, x.addr, x.size, y.addr, y.size);
    NoTileInside(tiles, i, lo, hi, y.addr);
    CutAddresses(tiles, i, x, y, lo, hi, i);
    assert RecordAt(mem, tiles, i);
    hide Spliced, Tiling, Cut, RecordAt;
    SplitFrame(mem, tiles, i, x, y);
    forall j | 0 <= j < |c| ensures RecordAt(mem', c, j) {
      SplitRecord(mem, tiles, i, x, y, lo, hi, j);
    }
    assert Layout(mem', c);
    CutMagic(mem, mem', tiles, i, x, y);
  }

  lemma CutMagic(mem: Memory, mem': Memory, tiles: seq<Tile>, i: nat, x: Tile, y: Tile)
    requires NoStrayMagic(mem, tiles) && i < |tiles| && tiles[i].status.Free?
    requires forall a | a in mem' && mem'[a].magic == MAGIC_USED :: a in mem && mem[a].magic == MAGIC_USED
    ensures NoStrayMagic(mem', Replace(tiles, i, i, [x, y]))
  {
    var c := Replace(tiles, i, i, [x, y]);
    forall a | a in mem' && mem'[a].magic == MAGIC_USED
      ensures exists j :: 0 <= j < |c| && c[j].addr == a && c[j].status.Used?
    {
      var j :| 0 <= j < |tiles| && tiles[j].addr == a && tiles[j].status.Used?;
      assert c[if j <= i then j else j + 1] == tiles[j];
    }
  }

  lemma SplitFrame(mem: Memory, tiles: seq<Tile>, i: nat, x: Tile, y: Tile)
    requires i < |tiles| && x.addr == tiles[i].addr && x.addr in mem && RecordAt(mem, tiles, i)
    requires !IsTile(tiles, y.addr)
    ensures var mem' := Spliced(mem, x.addr, x.size, y.addr, y.size);
            && (forall a | a in mem && a != y.addr :: KeepsFreeLinks(mem, mem', a))
            && (forall a: nat | !IsTile(tiles, a) && a != y.addr :: SameAt(mem, mem', a))
            && (forall a | a in mem' && mem'[a].magic == MAGIC_USED :: a in mem && mem[a].magic == MAGIC_USED)
  {
    assert i + 1 < |tiles| ==> IsTile(tiles, tiles[i + 1].addr);
    assert IsTile(tiles, x.addr);
  }

  // ---- Merging ----

  /** Memory after the block at `left` has absorbed its physical successor `right`. */
  function Absorbed(mem: Memory, left: nat, right: nat): Memory
    requires left in mem && right in mem
  {
    var next := mem[right].nextPhys;
    SetPrev(mem[left := mem[left].(size := mem[left].size + HEADER + mem[right].size, nextPhys := next)], next, left)
  }

  lemma AbsorbedAt(mem: Memory, left: nat, right: nat, a: nat)
    requires left in mem && right in mem && left != right && mem[right].nextPhys != left
    ensures var m, next := Absorbed(mem, left, right), mem[right].nextPhys;
            && (a in m <==> a in mem)
            && (a == left ==> m[a] == mem[a].(size := mem[left].size + HEADER + mem[right].size, nextPhys := next))
            && (a in mem && a != left ==>
                  m[a] == if a == next && a != 0 then mem[a].(prevPhys := left) else mem[a])
  {}

  lemma AbsorbRecord(mem: Memory, tiles: seq<Tile>, k: nat, lo: nat, hi: nat, j: nat)
    requires Layout(mem, tiles) && Tiling(tiles, lo, hi) && lo > 0
    requires k + 1 < |tiles| && tiles[k].status.Free? && tiles[k + 1].status.Free?
    requires tiles[k].addr in mem && tiles[k + 1].addr in mem && j + 1 < |tiles|
    ensures tiles[k].Payload() <= tiles[k + 1].End()
    ensures |Replace(tiles, k, k + 1, [Merged(tiles, k, k + 1)])| == |tiles| - 1
    ensures RecordAt(Absorbed(mem, tiles[k].addr, tiles[k + 1].addr),
                     Replace(tiles, k, k + 1, [Merged(tiles, k, k + 1)]), j)
  {
    assert tiles[k].End() == tiles[k + 1].addr;
    var o := if j <= k then j else j + 1;
    MergeRecords(mem, tiles, k, lo, hi, o);
    MergeNeighbours(tiles, k, j);
    hide Layout, Tiling, Replace, Absorbed;
    AbsorbedAt(mem, tiles[k].addr, tiles[k + 1].addr,
               Replace(tiles, k, k + 1, [Merged(tiles, k, k + 1)])[j].addr);
  }

  lemma TilesTouch(tiles: seq<Tile>, lo: nat, hi: nat, k: nat)
    requires Tiling(tiles, lo, hi) && k + 1 < |tiles|
    ensures tiles[k].End() == tiles[k + 1].addr
  {}

  /** The records an absorption reads, and the addresses it touches, told apart. */
  lemma MergeRecords(mem: Memory, tiles: seq<Tile>, k: nat, lo: nat, hi: nat, o: nat)
    requires Layout(mem, tiles) && Tiling(tiles, lo, hi) && lo > 0 && k + 1 < |tiles| && o < |tiles|
    ensures RecordAt(mem, tiles, k) && RecordAt(mem, tiles, k + 1) && RecordAt(mem, tiles, o)
    ensures tiles[o].addr > 0 && (tiles[o].addr == tiles[k].addr <==> o == k)
    ensures tiles[k].addr != tiles[k + 1].addr && NextAddr(tiles, k + 1) != tiles[k].addr
    ensures tiles[o].addr == NextAddr(tiles, k + 1) <==> o == k + 2
  {
    AddressesDistinct(tiles, lo, hi, o, k);
    AddressesDistinct(tiles, lo, hi, k, k + 1);
    if k + 2 < |tiles| {
      AddressesDistinct(tiles, lo, hi, k + 2, o);
      AddressesDistinct(tiles, lo, hi, k, k + 2);
    }
  }

  lemma MergeNeighbours(tiles: seq<Tile>, k: nat, j: nat)
    requires k + 1 < |tiles| && j + 1 < |tiles| && tiles[k].Payload() <= tiles[k + 1].End()
    ensures var c, o := Replace(tiles, k, k + 1, [Merged(tiles, k, k + 1)]), if j <= k then j else j + 1;
            && |c| == |tiles| - 1
            && c[j] == (if j == k then Merged(tiles, k, k + 1) else tiles[o])
            && PrevAddr(c, j) == (if j == k + 1 then tiles[k].addr else PrevAddr(tiles, o))
            && NextAddr(c, j) == (if j == k then NextAddr(tiles, k + 1) else NextAddr(tiles, o))
  {}

  lemma AbsorbLayout(mem: Memory, tiles: seq<Tile>, k: nat, lo: nat, hi: nat)
    requires Layout(mem, tiles) && NoStrayMagic(mem, tiles) && Tiling(tiles, lo, hi) && lo > 0
    requires k + 1 < |tiles| && tiles[k].status.Free? && tiles[k + 1].status.Free?
    requires tiles[k].addr in mem && tiles[k + 1].addr in mem
    ensures tiles[k].Payload() <= tiles[k + 1].End()
    ensures var c, mem' := Replace(tiles, k, k + 1, [Merged(tiles, k, k + 1)]),
                           Absorbed(mem, tiles[k].addr, tiles[k + 1].addr);
            && Layout(mem', c) && NoStrayMagic(mem', c)
            && (forall a | a in mem :: KeepsFreeLinks(mem, mem', a))
            && (forall a: nat | !IsTile(tiles, a) :: SameAt(mem, mem', a))
  {
    hide Absorbed, Tiling, RecordAt, KeepsFreeLinks, SameAt;
    TilesTouch(tiles, lo, hi, k);
    var c, mem' := Replace(tiles, k, k + 1, [Merged(tiles, k, k + 1)]),
                   Absorbed(mem, tiles[k].addr, tiles[k + 1].addr);
    AbsorbFrame(mem, tiles, k, lo, hi);
    forall j | 0 <= j < |c| ensures RecordAt(mem', c, j) {
      AbsorbRecord(mem, tiles, k, lo, hi, j);
    }
    forall a | a in mem' && mem'[a].magic == MAGIC_USED
      ensures exists j :: 0 <= j < |c| && c[j].addr == a && c[j].status.Used?
    {
      var j :| 0 <= j < |tiles| && tiles[j].addr == a && tiles[j].status.Used?;
      assert c[if j < k then j else j - 1] == tiles[j];
    }
  }

  lemma AbsorbFrame(mem: Memory, tiles: seq<Tile>, k: nat, lo: nat, hi: nat)
    requires Tiling(tiles, lo, hi) && lo > 0 && k + 1 < |tiles|
    requires RecordAt(mem, tiles, k) && RecordAt(mem, tiles, k + 1)
    ensures var mem' := Absorbed(mem, tiles[k].addr, tiles[k + 1].addr);
            && (forall a | a in mem :: KeepsFreeLinks(mem, mem', a))
            && (forall a: nat | !IsTile(tiles, a) :: SameAt(mem, mem', a))
            && (forall a | a in mem' && mem'[a].magic == MAGIC_USED :: a in mem && mem[a].magic == MAGIC_USED)
  {
    assert k + 2 < |tiles| ==> IsTile(tiles, tiles[k + 2].addr);
    assert IsTile(tiles, tiles[k].addr);
  }

  /** A free tile is its own merge. */
  lemma MergeNothing(tiles: seq<Tile>, i: nat)
    requires i < |tiles| && tiles[i].status.Free?
    ensures Replace(tiles, i, i, [Merged(tiles, i, i)]) == tiles
  {
    assert Merged(tiles, i, i) == tiles[i];
    assert tiles == tiles[..i] + [tiles[i]] + tiles[i + 1..];
  }

  /** Absorbing the next block and then being absorbed by the previous one merges all three. */
  lemma MergeTwice(tiles: seq<Tile>, i: nat, lo: nat, hi: nat)
    requires Tiling(tiles, lo, hi) && 1 <= i && i + 1 < |tiles|
    ensures tiles[i - 1].Payload() <= tiles[i + 1].End() && tiles[i].Payload() <= tiles[i + 1].End()
    ensures var once := Replace(tiles, i, i + 1, [Merged(tiles, i, i + 1)]);
            && i < |once| && once[i - 1].Payload() <= once[i].End()
            && Replace(once, i - 1, i, [Merged(once, i - 1, i)])
               == Replace(tiles, i - 1, i + 1, [Merged(tiles, i - 1, i + 1)])
  {
    assert tiles[i - 1].End() == tiles[i].addr;
    assert tiles[i].End() == tiles[i + 1].addr;
    var m := Merged(tiles, i, i + 1);
    var once := Replace(tiles, i, i + 1, [m]);
    assert once[..i - 1] == tiles[..i - 1] && once[i + 1..] == tiles[i + 2..];
    assert once[i - 1] == tiles[i - 1] && once[i] == m;
  }

  /** The free list without the neighbours that freeing tile `i` absorbs. */
  function UnlistRun(tiles: seq<Tile>, free: seq<nat>, i: nat): seq<nat>
    requires i < |tiles|
  {
    var l, r := MergeLo(tiles, i), MergeHi(tiles, i);
    var f1 := if r > i then Erase(free, tiles[r].addr) else free;
    if l < i then Erase(f1, tiles[l].addr) else f1
  }

  /** The layout after the merge with the next block, if it is free. */
  function NextMerged(tiles: seq<Tile>, i: nat): seq<Tile>
    requires i < |tiles| && tiles[i].Payload() <= tiles[MergeHi(tiles, i)].End()
  {
    Replace(tiles, i, MergeHi(tiles, i), [Merged(tiles, i, MergeHi(tiles, i))])
  }

  lemma NextMergedTiling(tiles: seq<Tile>, i: nat, lo: nat, hi: nat)
    requires Tiling(tiles, lo, hi) && i < |tiles| && tiles[i].status.Free?
    ensures tiles[i].Payload() <= tiles[MergeHi(tiles, i)].End()
    ensures Tiling(NextMerged(tiles, i), lo, hi)
    ensures forall a: nat :: IsTile(NextMerged(tiles, i), a) ==> IsTile(tiles, a)
  {
    var r := MergeHi(tiles, i);
    assert i < r ==> tiles[i].End() == tiles[r].addr;
    var y := if i < r then tiles[r].size + HEADER else 0;
    assert Aligned(tiles[i]) && Aligned(tiles[r]);
    OneTile(tiles[i].addr, tiles[i].size, y, 0);
    var m := Merged(tiles, i, r);
    assert m == Tile(tiles[i].addr, tiles[i].size + y + 0, Free);
    ReplaceTiling(tiles, i, r, [m], lo, hi);
    var now := NextMerged(tiles, i);
    forall j | 0 <= j < |now| ensures IsTile(tiles, now[j].addr) {
      ReplaceAt(tiles, i, r, [m], j);
    }
  }

  /** Everything still on the list is still a tile. */
  lemma NextMergedList(tiles: seq<Tile>, free: seq<nat>, i: nat, lo: nat, hi: nat, a: nat)
    requires Tiling(tiles, lo, hi) && lo > 0 && NoDup(free) && i < |tiles| && tiles[i].status.Free?
    requires forall b: nat :: b in free <==> FreeAt(tiles, b) && b != tiles[i].addr
    requires tiles[i].Payload() <= tiles[MergeHi(tiles, i)].End()
    requires a in (if MergeHi(tiles, i) > i then Erase(free, tiles[MergeHi(tiles, i)].addr) else free)
    ensures IsTile(NextMerged(tiles, i), a)
  {
    var r := MergeHi(tiles, i);
    EraseElements(free, tiles[r].addr);
    assert FreeAt(tiles, a) && a != tiles[i].addr && (i < r ==> a != tiles[r].addr);
    var j :| 0 <= j < |tiles| && tiles[j].addr == a && tiles[j].status.Free?;
    OutsideMerged(tiles, i, j);
  }

  lemma OutsideMerged(tiles: seq<Tile>, i: nat, j: nat)
    requires i < |tiles| && tiles[i].Payload() <= tiles[MergeHi(tiles, i)].End()
    requires j < |tiles| && (j < i || MergeHi(tiles, i) < j)
    ensures IsTile(NextMerged(tiles, i), tiles[j].addr)
  {
    var now, r := NextMerged(tiles, i), MergeHi(tiles, i);
    assert now[if j < i then j else j - (r - i)] == tiles[j];
  }

  /** In particular a free previous neighbour is. */
  lemma PreviousListed(tiles: seq<Tile>, free: seq<nat>, i: nat, lo: nat, hi: nat)
    requires Tiling(tiles, lo, hi) && lo > 0 && NoDup(free) && 0 < i < |tiles| && tiles[i - 1].status.Free?
    requires forall b: nat :: b in free <==> FreeAt(tiles, b) && b != tiles[i].addr
    ensures tiles[i - 1].addr in if MergeHi(tiles, i) > i then Erase(free, tiles[MergeHi(tiles, i)].addr) else free
  {
    var r := MergeHi(tiles, i);
    EraseElements(free, tiles[r].addr);
    AddressesDistinct(tiles, lo, hi, i - 1, i);
    AddressesDistinct(tiles, lo, hi, i - 1, r);
    assert FreeAt(tiles, tiles[i - 1].addr);
  }

  /** Merging with the next block and then with the previous one merges the whole run. */
  lemma MergeBoth(tiles: seq<Tile>, i: nat, lo: nat, hi: nat)
    requires Tiling(tiles, lo, hi) && i < |tiles| && tiles[i].status.Free?
    requires tiles[i].Payload() <= tiles[MergeHi(tiles, i)].End()
    ensures var l, r, now := MergeLo(tiles, i), MergeHi(tiles, i), NextMerged(tiles, i);
            && l <= i <= r < |tiles| && tiles[l].Payload() <= tiles[r].End()
            && i < |now| && now[i].addr == tiles[i].addr && now[i].status.Free?
            && (i > 0 ==> now[i - 1] == tiles[i - 1])
            && MergeLo(now, i) == l && now[l] == (if l < i then tiles[l] else now[i])
            && now[l].Payload() <= now[i].End()
            && Replace(now, l, i, [Merged(now, l, i)]) == Replace(tiles, l, r, [Merged(tiles, l, r)])
  {
    var l, r, now := MergeLo(tiles, i), MergeHi(tiles, i), NextMerged(tiles, i);
    MergeRun(tiles, i, lo, hi);
    assert now[i] == Merged(tiles, i, r);
    assert i > 0 ==> now[i - 1] == tiles[i - 1];
    if l == i {
      MergeNothing(now, i);
    } else if r == i {
      MergeNothing(tiles, i);
    } else {
      MergeTwice(tiles, i, lo, hi);
    }
  }

  /** The layout after the first merge is ready for the second. */
  lemma AfterNext(tiles: seq<Tile>, free: seq<nat>, i: nat, lo: nat, hi: nat)
    requires Tiling(tiles, lo, hi) && lo > 0 && NoDup(free) && i < |tiles| && tiles[i].status.Free?
    requires forall a: nat :: a in free <==> FreeAt(tiles, a) && a != tiles[i].addr
    ensures var l, r := MergeLo(tiles, i), MergeHi(tiles, i);
            && l <= i <= r < |tiles| && tiles[i].Payload() <= tiles[r].End() && tiles[l].Payload() <= tiles[r].End()
            && var now := NextMerged(tiles, i);
               var rest := if r > i then Erase(free, tiles[r].addr) else free;
               && Tiling(now, lo, hi) && i < |now| && now[i].addr == tiles[i].addr && now[i].status.Free?
               && (forall a: nat :: a in rest ==> IsTile(now, a))
               && (i > 0 && now[i - 1].status.Free? ==> now[i - 1].addr in rest)
               && MergeLo(now, i) == l && now[l].addr == tiles[l].addr && now[l].Payload() <= now[i].End()
               && Replace(now, l, i, [Merged(now, l, i)]) == Replace(tiles, l, r, [Merged(tiles, l, r)])
               && (forall a: nat :: IsTile(now, a) ==> IsTile(tiles, a))
  {
    NextMergedTiling(tiles, i, lo, hi);
    MergeBoth(tiles, i, lo, hi);
    hide NextMerged, Tiling, Replace, MergeHi;
    var rest := if MergeHi(tiles, i) > i then Erase(free, tiles[MergeHi(tiles, i)].addr) else free;
    forall a: nat | a in rest ensures IsTile(NextMerged(tiles, i), a) {
      NextMergedList(tiles, free, i, lo, hi, a);
    }
    if i > 0 && tiles[i - 1].status.Free? {
      PreviousListed(tiles, free, i, lo, hi);
    }
  }

  // ---- Clients' bytes ----

  /** No address inside the payload of a block in use was written. */
  ghost predicate PayloadsKept(mem: Memory, mem': Memory, tiles: seq<Tile>) {
    forall j, a: nat | 0 <= j < |tiles| && tiles[j].status.Used? && tiles[j].Payload() <= a < tiles[j].End() ::
      SameAt(mem, mem', a)
  }

  /** Nor was any word inside a block in use, a back-pointer among them. */
  ghost predicate WordsKept(words: map<nat, nat>, words': map<nat, nat>, tiles: seq<Tile>) {
    forall j, a: nat | 0 <= j < |tiles| && tiles[j].status.Used? && tiles[j].addr <= a < tiles[j].End() ::
      At(words', a) == At(words, a)
  }

  lemma GrantKeepsWords(h: Heap, i: nat, size: nat, align: nat)
    requires WellFormed(h) && Fits(h, i, size, align)
    ensures WordsKept(h.words, Granted(h, i, size, align).words, h.tiles)
  {
    hide GrantPtr, Extent, SpanNeeded, IsPowerOfTwo, Carve, FreeAfterCarve, Tiling, GrantOk, WordsOnGrid;
    hide Coalesced, FreeListExact, GrantsOk, UsedCount;
    var words' := Granted(h, i, size, align).words;
    TileInArena(h, i);
    TileAligned(h.tiles, h.base, h.base + h.arena, i);
    NewGrantOk(h, i, size, align);
    forall j, a: nat | 0 <= j < |h.tiles| && h.tiles[j].status.Used? && h.tiles[j].addr <= a < h.tiles[j].End()
      ensures At(words', a) == At(h.words, a)
    {
      TilesApart(h, i, j);
    }
  }

  lemma KeptOutside(mem: Memory, mem': Memory, h: Heap, i: nat)
    requires WellFormed(h) && i < |h.tiles|
    requires forall a: nat | !IsTile(h.tiles, a)
                             && !(h.tiles[i].status.Free? && h.tiles[i].addr < a < h.tiles[i].End()) ::
               SameAt(mem, mem', a)
    ensures PayloadsKept(mem, mem', h.tiles)
  {
    var tiles := h.tiles;
    forall j, a: nat | 0 <= j < |tiles| && tiles[j].status.Used? && tiles[j].Payload() <= a < tiles[j].End()
      ensures SameAt(mem, mem', a)
    {
      NoTileInside(tiles, j, h.base, h.base + h.arena, a);
      assert i < j ==> tiles[i].End() <= tiles[j].addr;
      assert j < i ==> tiles[j].End() <= tiles[i].addr;
    }
  }

  lemma TilingStatus(tiles: seq<Tile>, lo: nat, hi: nat, i: nat, status: Status)
    requires Tiling(tiles, lo, hi) && i < |tiles|
    ensures Tiling(tiles[i := tiles[i].(status := status)], lo, hi)
  {
    var c := tiles[i := tiles[i].(status := status)];
    forall j, k | 0 <= j < k < |c|
      ensures c[j].End() <= c[k].addr && (k == j + 1 ==> c[j].End() == c[k].addr)
    {
      assert tiles[j].End() <= tiles[k].addr;
    }
    assert forall j | 0 <= j < |c| :: Aligned(tiles[j]) ==> Aligned(c[j]);
  }

  /** Carving first and marking used afterwards comes to the same. */
  lemma CarveStatus(tiles: seq<Tile>, i: nat, extent: nat, status: Status, lo: nat, hi: nat)
    requires Tiling(tiles, lo, hi) && i < |tiles| && tiles[i].size + 64 <= WORD && 1 <= extent <= tiles[i].size
    requires status.Used?
    ensures var c := Carve(tiles, i, extent, Free);
            && Tiling(c, lo, hi) && i < |c| && c[i].addr == tiles[i].addr
            && c[i := c[i].(status := status)] == Carve(tiles, i, extent, status)
    ensures Splits(tiles[i].size, extent) ==> tiles[i].addr < tiles[i].Payload() + KeptExtent(tiles[i].size, extent)
  {
    hide KeptExtent, Splits, Tiling;
    var t, used := tiles[i], Carve(tiles, i, extent, status);
    TileAligned(tiles, lo, hi, i);
    PartsTile(t, extent, status);
    ReplaceTiling(tiles, i, i, Parts(t, extent, status), lo, hi);
    assert used == Replace(tiles, i, i, Parts(t, extent, status));
    TilingStatus(used, lo, hi, i, Free);
    assert Carve(tiles, i, extent, Free) == used[i := used[i].(status := Free)];
  }

  /** Marking tile `i` free prepares exactly the merge that `FreeTileAt` describes. */
  lemma FreedTiles(h: Heap, i: nat)
    requires WellFormed(h) && i < |h.tiles| && h.tiles[i].status.Used?
    ensures var freed := h.tiles[i := h.tiles[i].(status := Free)];
            var l, r := MergeLo(h.tiles, i), MergeHi(h.tiles, i);
            && Tiling(freed, h.base, h.base + h.arena)
            && MergeLo(freed, i) == l && MergeHi(freed, i) == r && l <= r < |freed|
            && freed[l].Payload() <= freed[r].End() && freed[l].addr == h.tiles[l].addr
            && (forall a: nat :: a in h.free <==> FreeAt(freed, a) && a != h.tiles[i].addr)
            && (forall a: nat :: IsTile(freed, a) <==> IsTile(h.tiles, a))
            && FreeTileAt(h, i).tiles == Replace(freed, l, r, [Merged(freed, l, r)])
            && FreeTileAt(h, i).free == [h.tiles[l].addr] + UnlistRun(freed, h.free, i)
  {
    hide WellFormed, FreeAt, IsTile, Tiling, Erase;
    assert Tiling(h.tiles, h.base, h.base + h.arena) by { TilingOfHeap(h); }
    TilingStatus(h.tiles, h.base, h.base + h.arena, i, Free);
    FreedAddresses(h, i);
    FreedRun(h.tiles, h.base, h.base + h.arena, i);
  }

  lemma TilingOfHeap(h: Heap)
    requires WellFormed(h)
    ensures Tiling(h.tiles, h.base, h.base + h.arena) && 0 < h.base && h.base + h.arena <= WORD && NoDup(h.free)
    ensures forall a | a in h.free :: IsTile(h.tiles, a)
  {
    FreeListTiles(h);
  }

  lemma FreedRun(tiles: seq<Tile>, lo: nat, hi: nat, i: nat)
    requires Tiling(tiles, lo, hi) && i < |tiles| && tiles[i].status.Used?
    ensures var freed := tiles[i := tiles[i].(status := Free)];
            var l, r := MergeLo(tiles, i), MergeHi(tiles, i);
            && MergeLo(freed, i) == l && MergeHi(freed, i) == r && l <= i <= r < |freed|
            && tiles[l].Payload() <= tiles[r].End()
            && freed[l].Payload() <= freed[r].End() && freed[l].addr == tiles[l].addr && freed[r].addr == tiles[r].addr
            && Replace(tiles, l, r, [Merged(tiles, l, r)]) == Replace(freed, l, r, [Merged(freed, l, r)])
  {
    var freed := tiles[i := tiles[i].(status := Free)];
    MergeRun(tiles, i, lo, hi);
    var l, r := MergeLo(tiles, i), MergeHi(tiles, i);
    assert tiles[..l] == freed[..l] && tiles[r + 1..] == freed[r + 1..];
  }

  lemma ListedIffFree(h: Heap, a: nat)
    requires WellFormed(h)
    ensures a in h.free <==> FreeAt(h.tiles, a)
  {}

  lemma FreedAddresses(h: Heap, i: nat)
    requires WellFormed(h) && i < |h.tiles| && h.tiles[i].status.Used?
    ensures var freed := h.tiles[i := h.tiles[i].(status := Free)];
            && (forall a: nat :: a in h.free <==> FreeAt(freed, a) && a != h.tiles[i].addr)
            && (forall a: nat :: IsTile(freed, a) <==> IsTile(h.tiles, a))
  {
    hide WellFormed, Tiling;
    var freed := h.tiles[i := h.tiles[i].(status := Free)];
    assert |freed| == |h.tiles| && forall j | 0 <= j < |freed| :: freed[j].addr == h.tiles[j].addr;
    forall a: nat ensures a in h.free <==> FreeAt(freed, a) && a != h.tiles[i].addr {
      ListedIffFree(h, a);
      TilingOfHeap(h);
      if a in h.free {
        var j :| 0 <= j < |h.tiles| && h.tiles[j].addr == a && h.tiles[j].status.Free?;
        AddressesDistinct(h.tiles, h.base, h.base + h.arena, i, j);
        assert freed[j] == h.tiles[j];
      }
      if FreeAt(freed, a) && a != h.tiles[i].addr {
        var j :| 0 <= j < |freed| && freed[j].addr == a && freed[j].status.Free?;
        assert freed[j] == h.tiles[j];
        assert FreeAt(h.tiles, a);
      }
    }
    forall a: nat ensures IsTile(freed, a) <==> IsTile(h.tiles, a) {
      if IsTile(h.tiles, a) {
        assert freed[IndexOf(h.tiles, a)].addr == a;
      }
      if IsTile(freed, a) {
        assert h.tiles[IndexOf(freed, a)].addr == a;
      }
    }
  }

  lemma SurvivorUnlisted(h: Heap, i: nat)
    requires WellFormed(h) && i < |h.tiles| && h.tiles[i].status.Used? && WellFormed(FreeTileAt(h, i))
    ensures MergeLo(h.tiles, i) < |FreeTileAt(h, i).tiles|
    ensures FreeTileAt(h, i).tiles[MergeLo(h.tiles, i)].addr == h.tiles[MergeLo(h.tiles, i)].addr
    ensures var freed := h.tiles[i := h.tiles[i].(status := Free)];
            h.tiles[MergeLo(h.tiles, i)].addr !in UnlistRun(freed, h.free, i)
  {
    var freed, l := h.tiles[i := h.tiles[i].(status := Free)], MergeLo(h.tiles, i);
    FreedTiles(h, i);
    assert FreeTileAt(h, i).tiles[l].addr == h.tiles[l].addr;
    NotInTail(FreeTileAt(h, i).free, h.tiles[l].addr, UnlistRun(freed, h.free, i))
      by { TilingOfHeap(FreeTileAt(h, i)); }
  }

  lemma NotInTail(s: seq<nat>, x: nat, rest: seq<nat>)
    requires s == [x] + rest && NoDup(s)
    ensures x !in rest
  {
    assert forall k | 0 <= k < |rest| :: rest[k] == s[k + 1] && s[0] != s[k + 1];
  }

  /** What freeing tile `i` relies on. */
  lemma ReleaseFacts(h: Heap, i: nat)
    requires WellFormed(h) && i < |h.tiles| && h.tiles[i].status.Used?
    ensures var freed, h' := h.tiles[i := h.tiles[i].(status := Free)], FreeTileAt(h, i);
            var l, r, rest := MergeLo(freed, i), MergeHi(freed, i), UnlistRun(freed, h.free, i);
            && WellFormed(h') && 0 < h.base && Tiling(h.tiles, h.base, h.base + h.arena)
            && Tiling(freed, h.base, h.base + h.arena)
            && (forall a: nat :: a in h.free <==> FreeAt(freed, a) && a != h.tiles[i].addr)
            && (forall a: nat :: IsTile(freed, a) <==> IsTile(h.tiles, a))
            && l <= r < |freed| && freed[l].Payload() <= freed[r].End()
            && h'.tiles == Replace(freed, l, r, [Merged(freed, l, r)])
            && h'.free == [freed[l].addr] + rest && freed[l].addr !in rest
            && l < |h'.tiles| && h'.tiles[l].addr == freed[l].addr > 0 && IsTile(h.tiles, freed[l].addr)
            && (forall a | a in rest :: a in h.free)
  {
    FreeKeepsWellFormed(h, i);
    FreedTiles(h, i);
    SurvivorUnlisted(h, i);
    TilingOfHeap(h);
    UnlistedSubset(h.tiles[i := h.tiles[i].(status := Free)], h.free, i);
    BlockFacts(FreeTileAt(h, i), MergeLo(h.tiles, i));
    assert IsTile(h.tiles, h.tiles[MergeLo(h.tiles, i)].addr);
  }

  lemma BlockFacts(h: Heap, i: nat)
    requires WellFormed(h) && i < |h.tiles|
    ensures Aligned(h.tiles[i]) && h.tiles[i].addr > 0 && h.tiles[i].End() <= WORD
  {
    TileInArena(h, i);
  }

  lemma FreedCounts(h: Heap, i: nat)
    requires WellFormed(h) && i < |h.tiles| && h.tiles[i].status.Used?
    ensures var h' := FreeTileAt(h, i);
            && h'.base == h.base && h'.arena == h.arena && h'.words == h.words
            && h'.allocations == h.allocations && h'.frees == h.frees + 1
            && h.active >= 1 && h'.active == h.active - 1
  {
    UsedCountAt(h.tiles, i);
  }

  /** What taking tile `i` relies on. */
  lemma TakeFacts(h: Heap, i: nat, extent: nat, status: Status)
    requires WellFormed(h) && i < |h.tiles| && h.tiles[i].status.Free? && 1 <= extent <= h.tiles[i].size && status.Used?
    ensures var t, rest := h.tiles[i], Erase(h.free, h.tiles[i].addr);
            && t.size + 64 <= WORD && t.addr > 0 && h.base + h.arena <= WORD && h.base > 0
            && Tiling(h.tiles, h.base, h.base + h.arena)
            && (forall a | a in h.free :: IsTile(h.tiles, a)) && t.addr in h.free
            && (forall a | a in rest :: IsTile(h.tiles, a)) && t.addr !in rest
            && FreeAfterCarve(h.free, t, extent)
               == (if Splits(t.size, extent) then [t.Payload() + KeptExtent(t.size, extent)] + rest else rest)
            && t.addr !in FreeAfterCarve(h.free, t, extent)
            && var c := Carve(h.tiles, i, extent, Free);
               && Tiling(c, h.base, h.base + h.arena) && i < |c| && c[i].addr == t.addr
               && c[i := c[i].(status := status)] == Carve(h.tiles, i, extent, status)
  {
    TileInArena(h, i);
    TilingOfHeap(h);
    assert FreeAt(h.tiles, h.tiles[i].addr);
    EraseElements(h.free, h.tiles[i].addr);
    hide WellFormed, Tiling, Splits, KeptExtent;
    CarveStatus(h.tiles, i, extent, status, h.base, h.base + h.arena);
  }

  /** Taking a free block writes headers and the inside of that block. */
  lemma KeptByTake(m0: Memory, m1: Memory, m2: Memory, m3: Memory, h: Heap, i: nat)
    requires WellFormed(h) && i < |h.tiles| && h.tiles[i].status.Free?
    requires forall a: nat | !IsTile(h.tiles, a) :: SameAt(m0, m1, a)
    requires forall a: nat | !IsTile(h.tiles, a) && !(h.tiles[i].addr < a < h.tiles[i].End()) :: SameAt(m1, m2, a)
    requires forall a: nat | a != h.tiles[i].addr :: SameAt(m2, m3, a)
    ensures PayloadsKept(m0, m3, h.tiles)
  {
    assert IsTile(h.tiles, h.tiles[i].addr);
    forall a: nat | !IsTile(h.tiles, a) && !(h.tiles[i].addr < a < h.tiles[i].End()) ensures SameAt(m0, m3, a) {
      assert SameAt(m0, m1, a) && SameAt(m1, m2, a) && SameAt(m2, m3, a);
    }
    KeptOutside(m0, m3, h, i);
  }

  /** Freeing writes headers only. */
  lemma KeptByFree(m0: Memory, m1: Memory, m2: Memory, m3: Memory, h: Heap, i: nat, survivor: nat, rest: seq<nat>)
    requires WellFormed(h) && i < |h.tiles| && h.tiles[i].status.Used? && IsTile(h.tiles, survivor)
    requires forall a | a in rest :: a in h.free
    requires forall a: nat | !IsTile(h.tiles, a) :: SameAt(m0, m1, a) && SameAt(m1, m2, a)
    requires forall a: nat | a != survivor && a !in rest :: SameAt(m2, m3, a)
    ensures PayloadsKept(m0, m3, h.tiles)
  {
    FreeListTiles(h);
    forall a: nat | !IsTile(h.tiles, a) ensures SameAt(m0, m3, a) {
      assert SameAt(m0, m1, a) && SameAt(m1, m2, a) && SameAt(m2, m3, a);
    }
    KeptOutside(m0, m3, h, i);
  }

  lemma UnlistedSubset(tiles: seq<Tile>, free: seq<nat>, i: nat)
    requires i < |tiles| && NoDup(free)
    ensures forall a | a in UnlistRun(tiles, free, i) :: a in free
  {
    var r := MergeHi(tiles, i);
    EraseElements(free, tiles[r].addr);
    EraseElements(if r > i then Erase(free, tiles[r].addr) else free, tiles[MergeLo(tiles, i)].addr);
  }
}
