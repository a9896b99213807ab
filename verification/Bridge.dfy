/** The `CacheAllocatorBridge` object: allocator traffic replayed as line sweeps. */
module BridgeObject {
  import opened Basics
  import opened Bits
  import opened CacheGeometry
  import opened CacheModel
  import opened EvictionPolicy
  import opened Sweep
  import H = HierarchyModel
  import P = PoolHeap
  import PI = PoolInvariant
  import PT = PoolTheorems
  import opened HierarchyObject
  import opened PoolObject

  datatype LineTouch = LineTouch(address: nat, isAllocation: bool, kind: AccessType, result: H.HierarchyResult)

  datatype BridgeSummary = BridgeSummary(
    allocationCalls: nat, freeCalls: nat, lineTouches: nat, l1Hits: nat, l2Hits: nat, fullMisses: nat)

  /** The records a sweep appends. */
  ghost function Records(h: H.HierarchyState, addresses: seq<nat>, kind: AccessType, isAllocation: bool)
    : (r: seq<LineTouch>)
    requires H.HierarchyOk(h) && InRange(addresses)
    ensures |r| == |addresses|
  {
    seq(|addresses|, i requires 0 <= i < |addresses| =>
      LineTouch(addresses[i], isAllocation, kind, Answers(h, addresses, kind)[i]))
  }

  function Count(history: seq<LineTouch>, l1: bool, l2: bool): nat {
    if history == [] then 0
    else
      var r := history[|history| - 1].result;
      Count(history[..|history| - 1], l1, l2) + if r.l1Hit == l1 && (l1 || r.l2Hit == l2) then 1 else 0
  }

  /** The records whose answer satisfies `p`. */
  function Where(history: seq<LineTouch>, p: H.HierarchyResult -> bool): set<nat> {
    set i | 0 <= i < |history| && p(history[i].result)
  }

  lemma WhereStep(history: seq<LineTouch>, p: H.HierarchyResult -> bool)
    requires history != []
    ensures var n := |history| - 1;
            |Where(history, p)| == |Where(history[..n], p)| + if p(history[n].result) then 1 else 0
  {
    var n := |history| - 1;
    var init := history[..n];
    assert Where(history, p) == Where(init, p) + if p(history[n].result) then {n} else {};
    assert n !in Where(init, p);
  }

  predicate Counted(r: H.HierarchyResult, l1: bool, l2: bool) {
    r.l1Hit == l1 && (l1 || r.l2Hit == l2)
  }

  lemma {:induction false} CountIsWhere(history: seq<LineTouch>, l1: bool, l2: bool)
    ensures Count(history, l1, l2) == |Where(history, r => Counted(r, l1, l2))|
  {
    if history != [] {
      CountIsWhere(history[..|history| - 1], l1, l2);
      WhereStep(history, r => Counted(r, l1, l2));
    }
  }

  lemma CountIsCardinality(history: seq<LineTouch>)
    ensures Count(history, true, false) == |set i | 0 <= i < |history| && history[i].result.l1Hit|
    ensures Count(history, false, true)
            == |set i | 0 <= i < |history| && !history[i].result.l1Hit && history[i].result.l2Hit|
    ensures Count(history, false, false)
            == |set i | 0 <= i < |history| && !history[i].result.l1Hit && !history[i].result.l2Hit|
  {
    hide Count;
    CountIsWhere(history, true, false);
    CountIsWhere(history, false, true);
    CountIsWhere(history, false, false);
    assert Where(history, r => Counted(r, true, false)) == set i | 0 <= i < |history| && history[i].result.l1Hit;
    assert Where(history, r => Counted(r, false, true))
           == set i | 0 <= i < |history| && !history[i].result.l1Hit && history[i].result.l2Hit;
    assert Where(history, r => Counted(r, false, false))
           == set i | 0 <= i < |history| && !history[i].result.l1Hit && !history[i].result.l2Hit;
  }

  /** How far the L1D counters are ahead of what a history says about L1: hits, then misses. */
  function Lead(stats: CacheStats, history: seq<LineTouch>): (int, int) {
    (stats.hits - Count(history, true, false),
     stats.misses - Count(history, false, true) - Count(history, false, false))
  }

  /** One data access moves the L1D counters by exactly what it answers. */
  lemma L1Counts(h: H.HierarchyState, address: nat, kind: AccessType)
    requires H.HierarchyOk(h) && address < WORD && kind != InstructionFetch
    ensures var o := H.AccessHierarchy(h, address, kind);
            && o.state.l1Data.stats.hits == h.l1Data.stats.hits + (if o.result.l1Hit then 1 else 0)
            && o.state.l1Data.stats.misses == h.l1Data.stats.misses + (if o.result.l1Hit then 0 else 1)
  {
    hide Access, SetOk, LineFits, LevelEffect;
    AccessEffect(h.l1Data, address, kind);
    AccessCounts(h.l1Data, address, kind);
    var (c1, r1) := Access(h.l1Data, address, kind);
    if !r1.hit {
      H.WritebackOk(h.l2, r1);
      var m := H.Writeback(h.l2, r1).0;
      AccessEffect(m, address, H.L2Kind(kind));
      var (c2, r2) := Access(m, address, H.L2Kind(kind));
      H.EnforceOk(H.WithL1(h, kind, c1).(l2 := c2), address, r2);
    }
  }

  lemma {:induction false} SweepKeepsLead(h: H.HierarchyState, before: seq<LineTouch>, addresses: seq<nat>,
                                          kind: AccessType, isAllocation: bool)
    requires H.HierarchyOk(h) && InRange(addresses) && kind != InstructionFetch
    ensures Lead(H.RunRequests(h, Requests(addresses, kind)).l1Data.stats,
                 before + Records(h, addresses, kind, isAllocation))
            == Lead(h.l1Data.stats, before)
  {
    hide H.AccessHierarchy, H.HierarchyOk, H.RunRequests, Records;
    if addresses == [] {
      NoTouches(h, kind, isAllocation);
      assert before + [] == before;
    } else {
      var n := |addresses| - 1;
      SweepKeepsLead(h, before, addresses[..n], kind, isAllocation);
      RecordsExtend(h, addresses, kind, isAllocation);
      var mid := H.RunRequests(h, Requests(addresses[..n], kind));
      var init := before + Records(h, addresses[..n], kind, isAllocation);
      L1Counts(mid, addresses[n], kind);
      var t := LineTouch(addresses[n], isAllocation, kind, H.AccessHierarchy(mid, addresses[n], kind).result);
      assert before + Records(h, addresses, kind, isAllocation) == init + [t];
      assert (init + [t])[..|init|] == init;
    }
  }

  lemma NoTouches(h: H.HierarchyState, kind: AccessType, isAllocation: bool)
    requires H.HierarchyOk(h)
    ensures Records(h, [], kind, isAllocation) == [] && H.RunRequests(h, Requests([], kind)) == h
  {
    assert Requests([], kind) == [];
  }

  lemma {:induction false} RecordsExtend(h: H.HierarchyState, addresses: seq<nat>, kind: AccessType, isAllocation: bool)
    requires H.HierarchyOk(h) && InRange(addresses) && addresses != []
    ensures var n := |addresses| - 1;
            var before := H.RunRequests(h, Requests(addresses[..n], kind));
            && Records(h, addresses, kind, isAllocation)
               == Records(h, addresses[..n], kind, isAllocation)
                  + [LineTouch(addresses[n], isAllocation, kind,
                               H.AccessHierarchy(before, addresses[n], kind).result)]
            && H.RunRequests(h, Requests(addresses, kind)) == H.AccessHierarchy(before, addresses[n], kind).state
  {
    hide H.AccessHierarchy, H.HierarchyOk;
    var n := |addresses| - 1;
    RequestsInit(addresses, kind);
    assert Answers(h, addresses, kind)[..n] == Answers(h, addresses[..n], kind);
  }

  /** What a record says besides the answer. */
  lemma RecordFields(h: H.HierarchyState, addresses: seq<nat>, kind: AccessType, isAllocation: bool)
    requires H.HierarchyOk(h) && InRange(addresses)
    ensures var r := Records(h, addresses, kind, isAllocation);
            |r| == |addresses| && forall i | 0 <= i < |r| ::
              r[i].address == addresses[i] && r[i].isAllocation == isAllocation && r[i].kind == kind
  {
    hide H.HierarchyOk;
  }

  lemma LineSizeInRange(h: H.HierarchyState)
    requires H.HierarchyOk(h)
    ensures 0 < h.l1Data.cfg.lineSize <= WORD && h.l1Data.cfg.lineSize == h.l1Data.geo.lineSize
  {
    LineSizeFits(h.l1Data.geo);
  }

  /** One more line of a sweep. */
  lemma SweepStep(h: H.HierarchyState, done: seq<nat>, addr: nat, end: nat, lineSize: nat,
                  kind: AccessType, isAllocation: bool)
    requires H.HierarchyOk(h) && InRange(done) && addr < end && addr < WORD && lineSize > 0
    ensures var next := done + [addr];
            var before := H.RunRequests(h, Requests(done, kind));
            && done + AddressesFrom(addr, end, lineSize) == next + AddressesFrom(addr + lineSize, end, lineSize)
            && InRange(next)
            && Records(h, next, kind, isAllocation)
               == Records(h, done, kind, isAllocation)
                  + [LineTouch(addr, isAllocation, kind, H.AccessHierarchy(before, addr, kind).result)]
            && H.RunRequests(h, Requests(next, kind)) == H.AccessHierarchy(before, addr, kind).state
  {
    hide H.HierarchyOk, H.AccessHierarchy, H.RunRequests, Records;
    var next := done + [addr];
    assert next[..|next| - 1] == done;
    RecordsExtend(h, next, kind, isAllocation);
  }

  class CacheAllocatorBridge {
    const allocator: PoolAllocator
    const hierarchy: CacheHierarchy
    var history: seq<LineTouch>
    var allocationCalls: nat
    var freeCalls: nat

    ghost predicate Valid()
      reads this, allocator, hierarchy.Footprint()
    {
      && allocator !in hierarchy.Footprint() && this !in hierarchy.Footprint()
      && allocator.Valid() && hierarchy.Valid() && 0 < LineSize() <= WORD
    }

    ghost function LineSize(): nat {
      hierarchy.l1Data.cfg.lineSize
    }

    /** The bridge's tallies against the caches' own counters. */
    ghost function L1Lead(): (int, int)
      requires hierarchy.Valid()
      reads this, hierarchy.Footprint()
    {
      Lead(hierarchy.View().l1Data.stats, history)
    }

    constructor (allocator: PoolAllocator, hierarchy: CacheHierarchy)
      requires allocator.Valid() && hierarchy.Valid() && allocator !in hierarchy.Footprint()
      ensures Valid() && this.allocator == allocator && this.hierarchy == hierarchy
      ensures history == [] && allocationCalls == 0 && freeCalls == 0
      ensures var stats := hierarchy.View().l1Data.stats; L1Lead() == (stats.hits, stats.misses)
    {
      hide CacheHierarchy.Valid, PoolAllocator.Valid, H.HierarchyOk;
      LineSizeInRange(hierarchy.View());
      this.allocator, this.hierarchy := allocator, hierarchy;
      history, allocationCalls, freeCalls := [], 0, 0;
    }

    method Touch(address: nat, isAllocation: bool, kind: AccessType)
      requires Valid() && address < WORD
      modifies `history, hierarchy.Footprint()
      ensures Valid()
      ensures hierarchy.View() == H.AccessHierarchy(old(hierarchy.View()), address, kind).state
      ensures history == old(history)
                         + [LineTouch(address, isAllocation, kind,
                                      H.AccessHierarchy(old(hierarchy.View()), address, kind).result)]
    {
      hide CacheHierarchy.Valid, CacheHierarchy.View, CacheHierarchy.Separate, PoolAllocator.Valid;
      hide H.HierarchyOk, H.AccessHierarchy;
      var result := hierarchy.Access(address, kind);
      history := history + [LineTouch(address, isAllocation, kind, result)];
    }

    /** One access per line of the region, each recorded with the hierarchy's answer. */
    method TouchLines(baseAddress: nat, size: nat, isAllocation: bool, kind: AccessType)
      requires Valid() && baseAddress < WORD && Stops(baseAddress, size, LineSize())
      modifies `history, hierarchy.Footprint()
      ensures Valid()
      ensures var a := LinesTouched(baseAddress, size, LineSize());
              && InRange(a)
              && hierarchy.View() == H.RunRequests(old(hierarchy.View()), Requests(a, kind))
              && history == old(history) + Records(old(hierarchy.View()), a, kind, isAllocation)
              && |history| == |old(history)| + |a|
              && forall i | 0 <= i < |a| ::
                   var t := history[|old(history)| + i];
                   t.address == a[i] && t.isAllocation == isAllocation && t.kind == kind
      ensures kind != InstructionFetch ==> L1Lead() == old(L1Lead())
    {
      hide CacheHierarchy.Valid, CacheHierarchy.View, CacheHierarchy.Separate, PoolAllocator.Valid;
      hide H.HierarchyOk, H.AccessHierarchy, H.RunRequests, BitAnd, Records, Requests, Lead;
      var n := if size == 0 then 1 else size;
      var lineSize := hierarchy.l1Data.cfg.lineSize;
      var addr := BitAnd(baseAddress, WORD - lineSize);
      var end := (baseAddress + n) % WORD;
      ghost var h0, all := hierarchy.View(), LinesTouched(baseAddress, size, lineSize);
      ghost var done: seq<nat> := [];
      NoTouches(h0, kind, isAllocation);
      while addr < end
        invariant Valid() && InRange(done)
        invariant all == done + AddressesFrom(addr, end, lineSize)
        invariant hierarchy.View() == H.RunRequests(h0, Requests(done, kind))
        invariant history == old(history) + Records(h0, done, kind, isAllocation)
        decreases end - addr
      {
        Touch(addr, isAllocation, kind);
        SweepStep(h0, done, addr, end, lineSize, kind, isAllocation);
        done := done + [addr];
        addr := (addr + lineSize) % WORD;
      }
      assert all == done;
      RecordFields(h0, all, kind, isAllocation);
      if kind != InstructionFetch {
        SweepKeepsLead(h0, old(history), all, kind, isAllocation);
      }
    }

    /** Allocate, then sweep the region with writes; a failed allocation touches nothing. */
    method Allocate(size: nat, alignment: nat) returns (r: Result<nat, P.AllocError>)
      requires Valid() && P.NoWrap(size, alignment)
      requires var r := P.Allocate(allocator.heap, size, alignment).1; r.Ok? ==> Stops(r.value, size, LineSize())
      modifies this, allocator, hierarchy.Footprint()
      ensures Valid()
      ensures allocator.heap == P.Allocate(old(allocator.heap), size, alignment).0
      ensures r == P.Allocate(old(allocator.heap), size, alignment).1
      ensures r.Err? ==> history == old(history) && hierarchy.View() == old(hierarchy.View())
      ensures allocationCalls == old(allocationCalls) + (if r.Ok? then 1 else 0) && freeCalls == old(freeCalls)
      ensures r.Ok? ==>
                var a := LinesTouched(r.value, size, LineSize());
                && InRange(a)
                && hierarchy.View() == H.RunRequests(old(hierarchy.View()), Requests(a, WriteAccess))
                && history == old(history) + Records(old(hierarchy.View()), a, WriteAccess, true)
      ensures L1Lead() == old(L1Lead())
    {
      hide CacheHierarchy.Valid, CacheHierarchy.View, CacheHierarchy.Separate, PoolAllocator.Rep;
      hide H.HierarchyOk, H.RunRequests, LinesTouched, Records, P.Allocate, P.Deallocate, P.WellFormed;
      r := allocator.Allocate(size, alignment);
      if r.Err? {
        return;
      }
      allocationCalls := allocationCalls + 1;
      GrantedInArena(old(allocator.heap), size, alignment);
      TouchLines(r.value, size, true, WriteAccess);
    }

    /** Sweep the region with reads, then deallocate; the sweep happens even if the pointer is refused. */
    method Deallocate(ptr: nat, sizeHint: nat) returns (ok: bool)
      requires Valid() && ptr < WORD && (ptr != 0 ==> Stops(ptr, sizeHint, LineSize()))
      requires allocator.Owned(ptr) ==> ptr % 64 == 0
      modifies this, allocator, hierarchy.Footprint()
      ensures Valid()
      ensures (allocator.heap, ok) == P.Deallocate(old(allocator.heap), ptr)
      ensures ptr == 0 ==> history == old(history) && hierarchy.View() == old(hierarchy.View())
      ensures freeCalls == old(freeCalls) + (if ptr == 0 then 0 else 1) && allocationCalls == old(allocationCalls)
      ensures ptr != 0 ==>
                var a := LinesTouched(ptr, sizeHint, LineSize());
                && InRange(a)
                && hierarchy.View() == H.RunRequests(old(hierarchy.View()), Requests(a, ReadAccess))
                && history == old(history) + Records(old(hierarchy.View()), a, ReadAccess, false)
      ensures L1Lead() == old(L1Lead())
    {
      hide CacheHierarchy.Valid, CacheHierarchy.View, CacheHierarchy.Separate, PoolAllocator.Valid;
      hide H.HierarchyOk, H.RunRequests, Records, P.Allocate, P.WellFormed, P.FreeTileAt, P.Lookup;
      if ptr == 0 {
        return true;
      }
      freeCalls := freeCalls + 1;
      TouchLines(ptr, if sizeHint == 0 then 1 else sizeHint, false, ReadAccess);
      ok := allocator.Deallocate(ptr);
    }

    /** Every touch is an L1 hit, an L2 hit or a full miss, counted once. */
    method Summary() returns (s: BridgeSummary)
      ensures s.allocationCalls == allocationCalls && s.freeCalls == freeCalls
      ensures s.l1Hits == Count(history, true, false) && s.l2Hits == Count(history, false, true)
      ensures s.fullMisses == Count(history, false, false)
      ensures s.lineTouches == |history| == s.l1Hits + s.l2Hits + s.fullMisses
      ensures s.l1Hits == |set i | 0 <= i < |history| && history[i].result.l1Hit|
      ensures s.l2Hits == |set i | 0 <= i < |history| && !history[i].result.l1Hit && history[i].result.l2Hit|
      ensures s.fullMisses == |set i | 0 <= i < |history| && !history[i].result.l1Hit && !history[i].result.l2Hit|
      ensures hierarchy.Valid() && L1Lead() == (0, 0) ==>
                var stats := hierarchy.View().l1Data.stats;
                s.l1Hits == stats.hits && s.l2Hits + s.fullMisses == stats.misses
    {
      s := BridgeSummary(allocationCalls, freeCalls, 0, 0, 0, 0);
      for i := 0 to |history|
        invariant s.allocationCalls == allocationCalls && s.freeCalls == freeCalls
        invariant s.l1Hits == Count(history[..i], true, false) && s.l2Hits == Count(history[..i], false, true)
        invariant s.fullMisses == Count(history[..i], false, false)
        invariant s.lineTouches == i == s.l1Hits + s.l2Hits + s.fullMisses
      {
        assert history[..i + 1][..i] == history[..i];
        var result := history[i].result;
        s := s.(lineTouches := s.lineTouches + 1);
        if result.l1Hit {
          s := s.(l1Hits := s.l1Hits + 1);
        } else if result.l2Hit {
          s := s.(l2Hits := s.l2Hits + 1);
        } else {
          s := s.(fullMisses := s.fullMisses + 1);
        }
      }
      assert history[..|history|] == history;
      CountIsCardinality(history);
    }
  }

  lemma GrantedInArena(h: P.Heap, size: nat, align: nat)
    requires P.WellFormed(h) && P.NoWrap(size, align) && P.Allocate(h, size, align).1.Ok?
    ensures P.Allocate(h, size, align).1.value + Max(size, 1) <= h.base + h.arena <= WORD
  {
    var h' := P.Allocate(h, size, align).0;
    PI.AllocateKeepsWellFormed(h, size, align);
    PT.AllocatedIsLive(h, size, align);
    var i := P.Chosen(h, size, align).value;
    P.TileInArena(h', i);
    assert P.GrantOk(h'.tiles[i], h'.words);
  }

  /** An arena that ends below the last line of the address space can be swept wherever a grant falls. */
  lemma ArenaSweepsStop(h: P.Heap, size: nat, align: nat, lineSize: nat)
    requires P.WellFormed(h) && P.NoWrap(size, align) && 0 < lineSize && h.base + h.arena + lineSize <= WORD
    ensures var r := P.Allocate(h, size, align).1; r.Ok? ==> Stops(r.value, size, lineSize)
  {
    hide P.WellFormed, P.Allocate;
    if P.Allocate(h, size, align).1.Ok? {
      GrantedInArena(h, size, align);
    }
  }

  /** An LRU, write-allocate L1D that nothing reaches into from below. */
  ghost predicate SweepFriendly(h: H.HierarchyState) {
    h.cfg.inclusion != H.Inclusive && h.l1Data.cfg.eviction == KindLRU && h.l1Data.cfg.writeAllocate == WriteAllocate
  }

  /** The last records of a history are L1 read hits on these addresses, in order. */
  ghost predicate EndsInHits(history: seq<LineTouch>, addresses: seq<nat>) {
    |addresses| <= |history|
    && forall k | 0 <= k < |addresses| ::
         var t := history[|history| - |addresses| + k];
         t.address == addresses[k] && !t.isAllocation && t.kind == ReadAccess && t.result.l1Hit
  }

  lemma SecondSweepHits(h: H.HierarchyState, before: seq<LineTouch>, base: nat, size: nat)
    requires H.HierarchyOk(h) && SweepFriendly(h) && base < WORD
    requires 0 < h.l1Data.cfg.lineSize <= WORD
    requires |LinesTouched(base, size, h.l1Data.cfg.lineSize)| <= h.l1Data.geo.numSets * h.l1Data.geo.ways
    ensures var a := LinesTouched(base, size, h.l1Data.cfg.lineSize);
            && InRange(a)
            && var h1 := H.RunRequests(h, Requests(a, WriteAccess));
               EndsInHits(before + Records(h1, a, ReadAccess, false), a)
  {
    hide LinesTouched, Answers, H.RunRequests, H.AccessHierarchy, H.HierarchyOk;
    LineSizeInRange(h);
    AllocateThenFreeHits(h, base, size);
  }

  lemma LineSizeOfView(bridge: CacheAllocatorBridge)
    requires bridge.Valid()
    ensures bridge.hierarchy.View().l1Data.cfg.lineSize == bridge.LineSize()
  {}

  /**
   End to end on the objects: an allocation freed at once with its own size is accepted, gives
   the arena its layout back, and, if its region spans at most sets * ways lines of a suitable
   L1D, costs only L1 hits, whatever the caches and the arena held before.
   */
  method AllocateThenDeallocate(bridge: CacheAllocatorBridge, size: nat, alignment: nat)
    returns (p: Result<nat, P.AllocError>, ok: bool)
    requires bridge.Valid() && P.NoWrap(size, alignment)
    requires var r := P.Allocate(bridge.allocator.heap, size, alignment).1;
             r.Ok? ==> Stops(r.value, size, bridge.LineSize())
    modifies bridge, bridge.allocator, bridge.hierarchy.Footprint()
    ensures bridge.Valid()
    ensures p == P.Allocate(old(bridge.allocator.heap), size, alignment).1
    ensures ok <==> p.Ok?
    ensures bridge.allocator.heap.tiles == old(bridge.allocator.heap.tiles)
    ensures bridge.allocator.heap.active == old(bridge.allocator.heap.active)
    ensures var h := old(bridge.hierarchy.View());
            p.Ok? && SweepFriendly(h) ==>
              var a := LinesTouched(p.value, size, bridge.LineSize());
              |a| <= h.l1Data.geo.numSets * h.l1Data.geo.ways ==>
                |bridge.history| == |old(bridge.history)| + 2 * |a| && EndsInHits(bridge.history, a)
  {
    hide CacheHierarchy.Valid, CacheHierarchy.View, CacheHierarchy.Separate, PoolAllocator.Rep, P.WellFormed;
    hide H.HierarchyOk, H.RunRequests, LinesTouched, Records, P.Allocate, P.Deallocate, EndsInHits, P.Chosen;
    ghost var h, heap, before := bridge.hierarchy.View(), bridge.allocator.heap, bridge.history;
    LineSizeOfView(bridge);
    p := bridge.Allocate(size, alignment);
    if p.Err? {
      P.FailureChangesNothing(heap, size, alignment);
      return p, false;
    }
    GrantedInArena(heap, size, alignment);
    PT.AllocateThenFree(heap, size, alignment);
    ghost var middle := bridge.history;
    ok := bridge.Deallocate(p.value, size);
    if SweepFriendly(h)
       && |LinesTouched(p.value, size, bridge.LineSize())| <= h.l1Data.geo.numSets * h.l1Data.geo.ways {
      SecondSweepHits(h, middle, p.value, size);
    }
  }
}
