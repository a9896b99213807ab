/**
 Inclusive mode by configuration: over which pairs of an L1D and an L2 no run ever loses a write
 to back-invalidation.
 */
module InclusiveConfigs {
  import opened Basics
  import opened Bits
  import opened EvictionPolicy
  import opened CacheGeometry
  import opened CacheModel
  import opened HierarchyModel
  import opened FlatMemory
  import opened InclusiveMemory
  import R = Replacement

  // ---- A one-way L1D whose sets nest in L2's ----

  /** A victim comes from the set of the line that pushes it out. */
  lemma VictimSharesSet(c: CacheState, address: nat, kind: AccessType)
    requires CacheOk(c) && address < WORD
    ensures var r := Access(c, address, kind).1;
            r.evicted ==> SetOf(c.geo, LineOf(c.geo, r.evictedAddress)) == SetOf(c.geo, LineOf(c.geo, address))
  {
    var l := LineOf(c.geo, address);
    AccessedSet(c.geo, address);
    VictimLine(c, TagOf(c.geo, l), SetOf(c.geo, l), kind == WriteAccess);
  }

  /** A one-way set holds one line. */
  lemma OneWayHoldsOne(c: CacheState, a: nat, b: nat)
    requires CacheOk(c) && c.geo.ways == 1 && Holds(c, a) && Holds(c, b)
    requires SetOf(c.geo, a) == SetOf(c.geo, b)
    ensures a == b
  {
    LineSplit(c.geo, a, TagOf(c.geo, a), SetOf(c.geo, a));
    LineSplit(c.geo, b, TagOf(c.geo, b), SetOf(c.geo, b));
  }

  /** Lines that share a set of the larger power of two share one of the smaller. */
  lemma SetsNest(g: Geometry, h: Geometry, a: nat, b: nat)
    requires GeometryOk(g) && GeometryOk(h) && g.numSets <= h.numSets && SetOf(h, a) == SetOf(h, b)
    ensures SetOf(g, a) == SetOf(g, b)
  {
    Pow2IsPowerOfTwo(g.indexBits);
    Pow2IsPowerOfTwo(h.indexBits);
    PowerOfTwoDivides(g.numSets, h.numSets);
    RemainderNests(a, g.numSets, h.numSets);
    RemainderNests(b, g.numSets, h.numSets);
  }

  lemma RemainderNests(x: nat, small: nat, large: nat)
    requires small > 0 && large > 0 && large % small == 0
    ensures x % small == (x % large) % small
  {
    var q, r, k := x / large, x % large, large / small;
    DivIdentity(x, large);
    ExactDiv(large, small);
    DivIdentity(r, small);
    assert x == (q * k + r / small) * small + r % small by {
      assert q * (k * small) == (q * k) * small;
    }
    DivModUnique(x, small, q * k + r / small, r % small);
  }

  /** Both levels' geometries and the L1 allocation rule, on a state. */
  ghost predicate Nested(h: HierarchyState)
    requires HierarchyOk(h)
  {
    && h.l1Data.geo.ways == 1 && h.l1Data.geo.numSets <= h.l2.geo.numSets
    && (h.l1Data.cfg.writeAllocate == WriteAllocate || h.l2.cfg.writeAllocate == NoWriteAllocate)
  }

  /** What L2 evicts for a line, the L1D has just given up for the same line. */
  lemma NestedNeverDrops(d: DataState, op: MemOp)
    requires WriteBackInclusive(d.h) && Nested(d.h) && op.address < WORD
    ensures !DropsDirtyLine(d, op)
  {
    hide SetOk, LineFits, Holds, HoldsDirty, Access;
    var h, c := d.h, d.h.l1Data;
    var l := LineOf(c.geo, op.address);
    AccessEffect(c, op.address, op.kind);
    var (c1, r1) := Access(c, op.address, op.kind);
    if !r1.hit {
      WritebackOk(h.l2, r1);
      var m := Writeback(h.l2, r1).0;
      AccessEffect(m, op.address, L2Kind(op.kind));
      VictimSharesSet(m, op.address, L2Kind(op.kind));
      var r2 := Access(m, op.address, L2Kind(op.kind)).1;
      if r2.evicted {
        var e := LineOf(c.geo, r2.evictedAddress);
        SetsNest(c.geo, h.l2.geo, e, l);
        DirtyIsHeld(c, e);
        assert Holds(c1, l);
        if Holds(c1, e) {
          OneWayHoldsOne(c1, e, l);
        }
      }
    }
  }

  ghost predicate OneWayNested(cfg: HierarchyConfig)
    requires ConfigOk(cfg)
  {
    && Cold(cfg.l1Data).geo.ways == 1 && Cold(cfg.l1Data).geo.numSets <= Cold(cfg.l2).geo.numSets
    && (cfg.l1Data.writeAllocate == WriteAllocate || cfg.l2.writeAllocate == NoWriteAllocate)
  }

  /** So over such a pair every run reads as flat memory, whatever the policies of L2. */
  lemma NestedIsMemory(cfg: HierarchyConfig, ops: seq<MemOp>)
    requires InclusiveUnified(cfg) && OneWayNested(cfg) && LegalOps(ops)
    ensures RefinesThroughout(cfg, ops)
  {
    hide RunData, DropsDirtyLine, RefinesThroughout, WriteBackInclusive, Start;
    InclusiveRunExact(cfg, ops);
    forall k | 0 <= k < |ops| ensures !DropsAt(cfg, ops, k) {
      NestedAt(cfg, ops[..k]);
      NestedNeverDrops(RunData(StartData(cfg), ops[..k]), ops[k]);
    }
  }

  lemma NestedAt(cfg: HierarchyConfig, ops: seq<MemOp>)
    requires InclusiveUnified(cfg) && OneWayNested(cfg) && LegalOps(ops)
    ensures var d := RunData(StartData(cfg), ops); WriteBackInclusive(d.h) && Nested(d.h)
  {
    InclusiveRunExact(cfg, ops);
  }

  // ---- Sets by age, inside a cache ----

  /** The tags of the set of line `i`, newest first, for an LRU or FIFO level. */
  ghost function AgeOrder(c: CacheState, i: nat): seq<nat>
    requires CacheOk(c) && i < c.geo.numSets && c.cfg.eviction in {KindLRU, KindFIFO}
  {
    KindOrdered(c, i);
    R.Newest(c.cfg, c.sets[i])
  }

  lemma KindOrdered(c: CacheState, i: nat)
    requires CacheOk(c) && i < c.geo.numSets && c.cfg.eviction in {KindLRU, KindFIFO}
    ensures SetOk(c.cfg, c.sets[i]) && R.Ordered(c.sets[i].policy) && |c.sets[i].lines| == c.geo.ways
    ensures c.sets[i].policy.LRU? <==> c.cfg.eviction == KindLRU
  {
    assert SetOk(c.cfg, c.sets[i]);
  }

  lemma HeldIffInOrder(c: CacheState, m: nat)
    requires CacheOk(c) && c.cfg.eviction in {KindLRU, KindFIFO}
    ensures Holds(c, m) <==> TagOf(c.geo, m) in AgeOrder(c, SetOf(c.geo, m))
    ensures |AgeOrder(c, SetOf(c.geo, m))| <= c.geo.ways && NoDup(AgeOrder(c, SetOf(c.geo, m)))
  {
    KindOrdered(c, SetOf(c.geo, m));
    R.NewestIsContents(c.cfg, c.sets[SetOf(c.geo, m)]);
  }

  /** An installing access puts its tag in front of its set's order; under FIFO only if it missed. */
  lemma OrderAfter(c: CacheState, address: nat, kind: AccessType)
    requires CacheOk(c) && address < WORD && c.cfg.eviction in {KindLRU, KindFIFO}
    requires Installs(c.cfg, kind == WriteAccess)
    ensures var c', l := Access(c, address, kind).0, LineOf(c.geo, address);
            var i := SetOf(c.geo, l);
            && CacheOk(c') && c'.geo == c.geo && c'.cfg == c.cfg
            && AgeOrder(c', i) == (if Holds(c, l) && c.cfg.eviction == KindFIFO then AgeOrder(c, i)
                                   else R.Push(AgeOrder(c, i), TagOf(c.geo, l), c.geo.ways))
  {
    var l := LineOf(c.geo, address);
    var i := SetOf(c.geo, l);
    AccessEffect(c, address, kind);
    AccessedSet(c.geo, address);
    KindOrdered(c, i);
    R.StackStep(c.cfg, c.sets[i], TagOf(c.geo, l), kind == WriteAccess);
    HeldIffInOrder(c, l);
  }

  // ---- Rivals: lines that crowd line zero out of L2 but not out of L1 ----

  /** Why the rivals leave line zero at L1: it is more recent, in another set, or they bypass L1. */
  datatype Shelter = Recent | Apart | Around

  /** Tags, in L2's set zero, of the lines that follow line zero there. */
  function Rival(how: Shelter, k: nat): nat {
    if k == 0 then 0 else if how.Apart? then 2 * k - 1 else k
  }

  function RivalLine(g: Geometry, how: Shelter, k: nat): nat {
    MulNonNegative(Rival(how, k), g.numSets);
    Rival(how, k) * g.numSets
  }

  function RivalOp(g: Geometry, how: Shelter, k: nat): MemOp
    requires g.lineSize > 0
  {
    MemOp(Colliding(g, Rival(how, k)), if how.Around? then WriteAccess else ReadAccess, 0)
  }

  function RivalOrder(how: Shelter, k: nat): (tags: seq<nat>)
    ensures |tags| == k + 1 && tags[k] == 0
  {
    if k == 0 then [0] else [Rival(how, k)] + RivalOrder(how, k - 1)
  }

  lemma {:induction false} RivalOrderTags(how: Shelter, k: nat)
    ensures forall t | t in RivalOrder(how, k) :: t < Rival(how, k + 1)
    ensures forall t | t in RivalOrder(how, k)[..k] :: t > 0
  {
    if k > 0 {
      RivalOrderTags(how, k - 1);
      var tags, rest := RivalOrder(how, k), RivalOrder(how, k - 1);
      assert tags[..k] == [Rival(how, k)] + rest[..k - 1];
    }
  }

  lemma RivalPlace(g: Geometry, how: Shelter, k: nat)
    requires GeometryOk(g)
    ensures var a := Colliding(g, Rival(how, k));
            LineOf(g, a) == RivalLine(g, how, k) && SetOf(g, RivalLine(g, how, k)) == 0
            && TagOf(g, RivalLine(g, how, k)) == Rival(how, k)
    ensures RivalLine(g, how, 0) == 0
  {
    CollidingLine(g, Rival(how, k));
  }

  lemma RivalsDiffer(g: Geometry, how: Shelter, j: nat, k: nat)
    requires GeometryOk(g) && j < k
    ensures RivalLine(g, how, j) != RivalLine(g, how, k)
  {
    RivalPlace(g, how, j);
    RivalPlace(g, how, k);
  }

  ghost predicate Sheltered(h: HierarchyState, how: Shelter)
    requires HierarchyOk(h)
  {
    match how
    case Recent => h.l1Data.cfg.eviction == KindLRU && h.l1Data.geo.ways >= 2
    case Apart => 2 * h.l2.geo.numSets <= h.l1Data.geo.numSets
    case Around => h.l1Data.cfg.writeAllocate == NoWriteAllocate && h.l2.cfg.writeAllocate == WriteAllocate
  }

  /** Line zero is dirty at L1 with a value nowhere else; after `k` rivals it is the oldest in its L2 set. */
  ghost predicate Crowded(d: DataState, how: Shelter, k: nat) {
    && WriteBackInclusive(d.h) && Sheltered(d.h, how) && d.h.l2.cfg.eviction in {KindLRU, KindFIFO}
    && HoldsDirty(d.h.l1Data, 0) && At(d.l1, 0) == 1 && At(d.l2, 0) == 0
    && (forall m: nat | HoldsDirty(d.h.l1Data, m) :: m == 0)
    && (forall m: nat | Holds(d.h.l1Data, m) :: exists j: nat :: j <= k && m == RivalLine(d.h.l2.geo, how, j))
    && AgeOrder(d.h.l2, 0) == RivalOrder(how, k)
  }

  /** Where recency is the shelter, line zero is the last one used of its L1 set. */
  ghost predicate JustUsed(h: HierarchyState, how: Shelter)
    requires HierarchyOk(h) && Sheltered(h, how)
  {
    how.Recent? ==> var order := AgeOrder(h.l1Data, 0); order != [] && order[0] == 0
  }

  /** An odd rival is not in L1's set zero when L1 has at least twice the sets. */
  lemma OddRivalApart(g1: Geometry, g2: Geometry, k: nat)
    requires GeometryOk(g1) && GeometryOk(g2) && 2 * g2.numSets <= g1.numSets && k > 0
    ensures SetOf(g1, RivalLine(g2, Apart, k)) != 0
  {
    TwiceDivides(g1, g2);
    OddMultiple(k, g2.numSets);
    if RivalLine(g2, Apart, k) % g1.numSets == 0 {
      ModTrans(RivalLine(g2, Apart, k), 2 * g2.numSets, g1.numSets);
    }
  }

  lemma TwiceDivides(g1: Geometry, g2: Geometry)
    requires GeometryOk(g1) && GeometryOk(g2) && 2 * g2.numSets <= g1.numSets
    ensures g1.numSets % (2 * g2.numSets) == 0
  {
    hide IsPowerOfTwo;
    Pow2IsPowerOfTwo(g1.indexBits);
    assert Pow2(g2.indexBits + 1) == 2 * g2.numSets;
    Pow2IsPowerOfTwo(g2.indexBits + 1);
    PowerOfTwoDivides(2 * g2.numSets, g1.numSets);
  }

  lemma OddMultiple(k: nat, n: nat)
    requires k > 0 && n > 0
    ensures ((2 * k - 1) * n) % (2 * n) == n
  {
    assert (2 * k - 1) * n == (k - 1) * (2 * n) + n;
    DivModUnique((2 * k - 1) * n, 2 * n, k - 1, n);
  }

  /** A rival misses L1 and does not push line zero out of it. */
  lemma ZeroStays(d: DataState, how: Shelter, k: nat)
    requires Crowded(d, how, k) && JustUsed(d.h, how) && RivalOp(d.h.l2.geo, how, k + 1).address < WORD
    ensures var op := RivalOp(d.h.l2.geo, how, k + 1);
            var r := Access(d.h.l1Data, op.address, op.kind).1;
            !r.hit && !PushesOut(d.h.l1Data.geo, r, 0) && !r.writebackNeeded
  {
    hide SetOk, LineFits, Access, HoldsDirty, AgeOrder, Colliding, RivalLine, RivalOrder;
    var c, g2, op := d.h.l1Data, d.h.l2.geo, RivalOp(d.h.l2.geo, how, k + 1);
    var l, r := RivalLine(g2, how, k + 1), Access(c, op.address, op.kind).1;
    RivalPlace(g2, how, k + 1);
    if Holds(c, l) {
      var j: nat :| j <= k && l == RivalLine(g2, how, j);
      RivalsDiffer(g2, how, j, k + 1);
    }
    AccessEffect(c, op.address, op.kind);
    VictimSharesSet(c, op.address, op.kind);
    match how {
      case Recent => RecentStays(c, op.address);
      case Apart => OddRivalApart(c.geo, g2, k + 1);
      case Around =>
    }
  }

  lemma RecentStays(c: CacheState, address: nat)
    requires CacheOk(c) && address < WORD && c.cfg.eviction == KindLRU && c.geo.ways >= 2
    requires !Holds(c, LineOf(c.geo, address)) && AgeOrder(c, 0) != [] && AgeOrder(c, 0)[0] == 0
    ensures !PushesOut(c.geo, Access(c, address, ReadAccess).1, 0)
  {
    hide Access, SetOk, LineFits, AgeOrder, Holds, HoldsDirty;
    var l, order := LineOf(c.geo, address), AgeOrder(c, 0);
    AccessEffect(c, address, ReadAccess);
    VictimSharesSet(c, address, ReadAccess);
    OrderAfter(c, address, ReadAccess);
    var c' := Access(c, address, ReadAccess).0;
    HeldIffInOrder(c, l);
    HeldIffInOrder(c', 0);
    if SetOf(c.geo, l) == 0 {
      R.PushAbsent(order, TagOf(c.geo, l), c.geo.ways, if |order| == c.geo.ways then c.geo.ways - 1 else |order|);
      assert AgeOrder(c', 0)[1] == 0;
    }
  }

  /** The order of L2's set zero once a rival has joined in front. */
  lemma RivalJoins(c: CacheState, how: Shelter, k: nat, kind: AccessType)
    requires CacheOk(c) && c.cfg.eviction in {KindLRU, KindFIFO} && AgeOrder(c, 0) == RivalOrder(how, k)
    requires RivalOp(c.geo, how, k + 1).address < WORD && Installs(c.cfg, kind == WriteAccess)
    ensures k < c.geo.ways && !Holds(c, RivalLine(c.geo, how, k + 1)) && Holds(c, 0)
    ensures var c' := Access(c, RivalOp(c.geo, how, k + 1).address, kind).0;
            && CacheOk(c') && c'.geo == c.geo && c'.cfg == c.cfg
            && AgeOrder(c', 0) == [Rival(how, k + 1)]
                                  + RivalOrder(how, k)[..if k + 1 == c.geo.ways then k else k + 1]
  {
    hide Access, SetOk, LineFits, Holds, AgeOrder, Colliding;
    var l := RivalLine(c.geo, how, k + 1);
    RivalPlace(c.geo, how, k + 1);
    RivalOrderTags(how, k);
    HeldIffInOrder(c, l);
    ZeroAtL2(c, how, k);
    OrderAfter(c, RivalOp(c.geo, how, k + 1).address, kind);
    R.PushAbsent(AgeOrder(c, 0), Rival(how, k + 1), c.geo.ways, if k + 1 == c.geo.ways then k else k + 1);
  }

  /** At L2 a rival takes a free way while there is one, and then the place of line zero. */
  lemma RivalAtL2(c: CacheState, how: Shelter, k: nat, kind: AccessType)
    requires CacheOk(c) && c.cfg.eviction in {KindLRU, KindFIFO} && AgeOrder(c, 0) == RivalOrder(how, k)
    requires RivalOp(c.geo, how, k + 1).address < WORD && Installs(c.cfg, kind == WriteAccess)
    ensures k < c.geo.ways
    ensures var (c', r) := Access(c, RivalOp(c.geo, how, k + 1).address, kind);
            && CacheOk(c') && c'.geo == c.geo && c'.cfg == c.cfg && !r.hit && r.lineInstalled
            && (k + 1 < c.geo.ways ==> !r.evicted && AgeOrder(c', 0) == RivalOrder(how, k + 1))
            && (k + 1 == c.geo.ways ==> r.evicted && LineOf(c.geo, r.evictedAddress) == 0)
  {
    hide Access, SetOk, LineFits, Holds, AgeOrder, Colliding, RivalLine;
    var a := RivalOp(c.geo, how, k + 1).address;
    RivalPlace(c.geo, how, k + 1);
    RivalsDiffer(c.geo, how, 0, k + 1);
    RivalJoins(c, how, k, kind);
    RivalOrderTags(how, k);
    AccessEffect(c, a, kind);
    VictimSharesSet(c, a, kind);
    var (c', r) := Access(c, a, kind);
    assert SetOf(c.geo, 0) == 0 && TagOf(c.geo, 0) == 0;
    HeldIffInOrder(c', 0);
    if k + 1 < c.geo.ways {
      assert RivalOrder(how, k)[..k + 1] == RivalOrder(how, k);
      if r.evicted {
        var e := LineOf(c.geo, r.evictedAddress);
        HeldIffInOrder(c, e);
        HeldIffInOrder(c', e);
      }
    } else {
      assert 0 !in RivalOrder(how, k)[..k];
    }
  }

  lemma KindInstalls(d: DataState, how: Shelter, k: nat)
    requires Crowded(d, how, k)
    ensures Installs(d.h.l2.cfg, RivalOp(d.h.l2.geo, how, k + 1).kind == WriteAccess)
    ensures RivalOp(d.h.l2.geo, how, k + 1).kind != InstructionFetch
  {}

  /** One more rival, while L2's set has room. */
  lemma RivalStep(d: DataState, how: Shelter, k: nat)
    requires Crowded(d, how, k) && JustUsed(d.h, how) && k + 1 < d.h.l2.geo.ways
    requires RivalOp(d.h.l2.geo, how, k + 1).address < WORD
    ensures var d' := DataStep(d, RivalOp(d.h.l2.geo, how, k + 1)).0;
            Crowded(d', how, k + 1) && SameShape(d.h, d'.h)
  {
    hide Access, SetOk, LineFits, Holds, HoldsDirty, AgeOrder, Colliding, RivalOrder, RivalLine;
    var op, c := RivalOp(d.h.l2.geo, how, k + 1), d.h.l1Data;
    RivalPlace(d.h.l2.geo, how, k + 1);
    RivalsDiffer(d.h.l2.geo, how, 0, k + 1);
    KindInstalls(d, how, k);
    ZeroStays(d, how, k);
    RivalAtL2(d.h.l2, how, k, op.kind);
    DataStepSetup(d, op);
    AccessEffect(c, op.address, op.kind);
    var d' := DataStep(d, op).0;
    assert d'.h.l1Data == Access(c, op.address, op.kind).0;
    forall m: nat | Holds(d'.h.l1Data, m)
      ensures exists j: nat :: j <= k + 1 && m == RivalLine(d.h.l2.geo, how, j)
    {
      if m != RivalLine(d.h.l2.geo, how, k + 1) {
        var j: nat :| j <= k && m == RivalLine(d.h.l2.geo, how, j);
      }
    }
  }

  /** Reading line zero again hits L1 and makes it the last one used there. */
  lemma TouchZero(d: DataState, how: Shelter, k: nat)
    requires Crowded(d, how, k)
    ensures var d' := DataStep(d, MemOp(0, ReadAccess, 0)).0;
            Crowded(d', how, k) && SameShape(d.h, d'.h) && JustUsed(d'.h, how)
  {
    hide Access, SetOk, LineFits, Holds, HoldsDirty, RivalOrder, RivalLine, AgeOrder, Erase;
    var op, c := MemOp(0, ReadAccess, 0), d.h.l1Data;
    assert LineOf(c.geo, 0) == 0 == LineOf(d.h.l2.geo, 0) && SetOf(c.geo, 0) == 0 && TagOf(c.geo, 0) == 0;
    DirtyIsHeld(c, 0);
    DataStepSetup(d, op);
    AccessEffect(c, 0, ReadAccess);
    if how.Recent? {
      OrderAfter(c, 0, ReadAccess);
    }
  }

  /** The rival that finds L2's set full costs the value of line zero. */
  lemma LastRivalDrops(d: DataState, how: Shelter, k: nat)
    requires Crowded(d, how, k) && JustUsed(d.h, how) && k + 1 == d.h.l2.geo.ways
    requires RivalOp(d.h.l2.geo, how, k + 1).address < WORD
    ensures DropsDirtyLine(d, RivalOp(d.h.l2.geo, how, k + 1))
  {
    hide Access, SetOk, LineFits, HoldsDirty, Colliding, RivalOrder, RivalLine;
    var op := RivalOp(d.h.l2.geo, how, k + 1);
    KindInstalls(d, how, k);
    ZeroStays(d, how, k);
    RivalAtL2(d.h.l2, how, k, op.kind);
    ZeroAtL2(d.h.l2, how, k);
    AccessEffect(d.h.l1Data, op.address, op.kind);
  }

  lemma ZeroAtL2(c: CacheState, how: Shelter, k: nat)
    requires CacheOk(c) && c.cfg.eviction in {KindLRU, KindFIFO} && AgeOrder(c, 0) == RivalOrder(how, k)
    ensures Holds(c, 0)
  {
    assert SetOf(c.geo, 0) == 0 && TagOf(c.geo, 0) == 0;
    HeldIffInOrder(c, 0);
    assert RivalOrder(how, k)[k] == 0;
  }

  // ---- Whole runs ----

  /** Read line zero and overwrite it; then `k` rounds of a rival and a read of line zero. */
  function CrowdingTrace(g: Geometry, how: Shelter, k: nat): (ops: seq<MemOp>)
    requires g.lineSize > 0
    ensures |ops| == 2 + 2 * k
  {
    if k == 0 then [MemOp(0, ReadAccess, 0), MemOp(0, WriteAccess, 1)]
    else CrowdingTrace(g, how, k - 1) + [RivalOp(g, how, k)] + [MemOp(0, ReadAccess, 0)]
  }

  /** Every rival has a 64-bit address. */
  ghost predicate RivalsFit(g: Geometry, how: Shelter)
    requires g.lineSize > 0
  {
    forall k: nat | k <= g.ways :: RivalOp(g, how, k).address < WORD
  }

  /** A level that holds line zero only has a one-entry order. */
  lemma OnlyZero(c: CacheState)
    requires CacheOk(c) && c.cfg.eviction in {KindLRU, KindFIFO} && forall m: nat :: Holds(c, m) <==> m == 0
    ensures AgeOrder(c, 0) == [0]
  {
    var order := AgeOrder(c, 0);
    assert SetOf(c.geo, 0) == 0 && TagOf(c.geo, 0) == 0;
    HeldIffInOrder(c, 0);
    forall k | 0 <= k < |order| ensures order[k] == 0 {
      var m := LineNumber(c.geo, order[k], 0);
      LineSplit(c.geo, m, order[k], 0);
      HeldIffInOrder(c, m);
    }
    SingleElement(order, 0);
  }

  /** The first read and write set the scene. */
  lemma SceneIsSet(d: DataState, how: Shelter)
    requires WriteBackInclusive(d.h) && Sheltered(d.h, how) && d.h.l2.cfg.eviction in {KindLRU, KindFIFO}
    requires d.memory == map[] && forall m: nat :: !Holds(d.h.l1Data, m) && !Holds(d.h.l2, m)
    ensures var read := DataStep(d, MemOp(0, ReadAccess, 0)).0;
            && Setup(read.h) && SameShape(d.h, read.h)
            && var write := DataStep(read, MemOp(0, WriteAccess, 1)).0;
               SameShape(d.h, write.h) && Crowded(write, how, 0) && JustUsed(write.h, how)
  {
    hide DataStep, Holds, HoldsDirty, SetOk, LineFits, AgeOrder;
    var read := DataStep(d, MemOp(0, ReadAccess, 0)).0;
    ColdReadInclusive(d);
    OverwriteInclusive(read);
    var write := DataStep(read, MemOp(0, WriteAccess, 1)).0;
    OnlyZero(write.h.l2);
    if how.Recent? {
      OnlyZero(write.h.l1Data);
    }
    forall m: nat | HoldsDirty(write.h.l1Data, m) ensures m == 0 {
      DirtyIsHeld(write.h.l1Data, m);
    }
    RivalPlace(d.h.l2.geo, how, 0);
  }

  lemma {:induction false} CrowdingRun(d: DataState, how: Shelter, k: nat)
    requires WriteBackInclusive(d.h) && Sheltered(d.h, how) && d.h.l2.cfg.eviction in {KindLRU, KindFIFO}
    requires d.memory == map[] && forall m: nat :: !Holds(d.h.l1Data, m) && !Holds(d.h.l2, m)
    requires d.h.l2.geo.lineSize > 0 && RivalsFit(d.h.l2.geo, how) && k < d.h.l2.geo.ways
    ensures LegalOps(CrowdingTrace(d.h.l2.geo, how, k))
    ensures var e := RunData(d, CrowdingTrace(d.h.l2.geo, how, k));
            Crowded(e, how, k) && JustUsed(e.h, how) && SameShape(d.h, e.h)
  {
    hide DataStep, RunData, Holds, Crowded, JustUsed, RivalOp, HierarchyOk, Sheltered;
    var g := d.h.l2.geo;
    if k == 0 {
      SceneIsSet(d, how);
      TwoOps(d, MemOp(0, ReadAccess, 0), MemOp(0, WriteAccess, 1));
    } else {
      CrowdingRun(d, how, k - 1);
      var ops, rival, touch := CrowdingTrace(g, how, k - 1), RivalOp(g, how, k), MemOp(0, ReadAccess, 0);
      var e := RunData(d, ops);
      assert rival.address < WORD;
      RivalStep(e, how, k - 1);
      TouchZero(DataStep(e, rival).0, how, k);
      LastOp(d, ops, rival);
      LastOp(d, ops + [rival], touch);
    }
  }

  /** A sheltered line zero loses its value at the end of this run. */
  function LosingTrace(g: Geometry, how: Shelter): seq<MemOp>
    requires g.lineSize > 0 && g.ways >= 1
  {
    CrowdingTrace(g, how, g.ways - 1) + [RivalOp(g, how, g.ways)]
  }

  lemma CrowdingDrops(d: DataState, how: Shelter)
    requires WriteBackInclusive(d.h) && Sheltered(d.h, how) && d.h.l2.cfg.eviction in {KindLRU, KindFIFO}
    requires d.memory == map[] && forall m: nat :: !Holds(d.h.l1Data, m) && !Holds(d.h.l2, m)
    requires d.h.l2.geo.lineSize > 0 && d.h.l2.geo.ways >= 1 && RivalsFit(d.h.l2.geo, how)
    ensures var ops := LosingTrace(d.h.l2.geo, how);
            && ops != [] && LegalOps(ops)
            && DropsDirtyLine(RunData(d, ops[..|ops| - 1]), ops[|ops| - 1])
  {
    hide RunData, Holds, Crowded, JustUsed, RivalOp, DropsDirtyLine, Sheltered, CrowdingTrace, HierarchyOk;
    var g := d.h.l2.geo;
    var init, ops := CrowdingTrace(g, how, g.ways - 1), LosingTrace(g, how);
    CrowdingRun(d, how, g.ways - 1);
    assert ops[|ops| - 1] == RivalOp(g, how, g.ways) && RivalOp(g, how, g.ways).address < WORD;
    LastRivalDrops(RunData(d, init), how, g.ways - 1);
    assert ops[..|ops| - 1] == init;
  }

  lemma CrowdingLoses(cfg: HierarchyConfig, how: Shelter)
    requires InclusiveUnified(cfg) && cfg.l2.eviction in {KindLRU, KindFIFO} && Sheltered(Start(cfg), how)
    requires var g := Cold(cfg.l2).geo; g.lineSize > 0 && g.ways >= 1 && RivalsFit(g, how)
    ensures var ops := LosingTrace(Cold(cfg.l2).geo, how);
            ops != [] && LegalOps(ops) && DropsAt(cfg, ops, |ops| - 1) && !RefinesThroughout(cfg, ops)
  {
    hide RunData, Holds, DropsDirtyLine, RefinesThroughout, Cold, Start, Sheltered, LosingTrace, RivalsFit;
    hide WriteBackInclusive, HierarchyOk;
    ColdInclusiveState(cfg);
    ColdPolicies(cfg);
    CrowdingDrops(StartData(cfg), how);
    InclusiveRunExact(cfg, LosingTrace(Cold(cfg.l2).geo, how));
  }

  lemma ColdPolicies(cfg: HierarchyConfig)
    requires InclusiveUnified(cfg)
    ensures Start(cfg).l2.cfg == cfg.l2 && Start(cfg).l1Data.cfg == cfg.l1Data
    ensures StartData(cfg).h == Start(cfg)
  {}

  /** An L2 of at most half the address space leaves an address for every rival. */
  lemma RivalsHaveAddresses(g: Geometry, how: Shelter)
    requires GeometryOk(g) && 2 * (g.numSets * g.ways * g.lineSize) <= WORD
    ensures RivalsFit(g, how)
  {
    forall k: nat | k <= g.ways ensures RivalOp(g, how, k).address < WORD {
      RivalBelow(Rival(how, k), g.ways, g.numSets, g.lineSize);
    }
  }

  lemma RivalBelow(tag: nat, ways: nat, sets: nat, lineSize: nat)
    requires tag < 2 * ways && 2 * (sets * ways * lineSize) <= WORD && sets >= 1 && lineSize >= 1
    ensures tag * sets * lineSize < WORD
  {
    CapacityGrows(tag, 2 * ways - 1, sets, lineSize);
    MulAtLeast(sets, lineSize);
    calc {
      sets * (2 * ways - 1) * lineSize;
      { assert sets * (2 * ways - 1) == 2 * (sets * ways) - sets; }
      (2 * (sets * ways) - sets) * lineSize;
      2 * (sets * ways * lineSize) - sets * lineSize;
    }
  }

  /** Where the pair is not nested, line zero has a shelter. */
  lemma ShelterIfNotNested(cfg: HierarchyConfig) returns (how: Shelter)
    requires InclusiveUnified(cfg) && !OneWayNested(cfg)
    requires cfg.l1Data.eviction == KindLRU || Cold(cfg.l1Data).geo.ways == 1
    ensures Sheltered(Start(cfg), how)
  {
    var g1, g2 := Cold(cfg.l1Data).geo, Cold(cfg.l2).geo;
    GeometryFacts(cfg.l1Data);
    GeometryFacts(cfg.l2);
    if g1.ways >= 2 {
      how := Recent;
    } else if g1.numSets > g2.numSets {
      how := Apart;
      LargerIsTwice(g1, g2);
    } else {
      how := Around;
    }
  }

  lemma LargerIsTwice(g1: Geometry, g2: Geometry)
    requires GeometryOk(g1) && GeometryOk(g2) && g1.numSets > g2.numSets
    ensures 2 * g2.numSets <= g1.numSets
  {
    if g1.indexBits < g2.indexBits {
      Pow2Monotone(g1.indexBits, g2.indexBits);
    }
    if g2.indexBits + 1 < g1.indexBits {
      Pow2Monotone(g2.indexBits + 1, g1.indexBits);
    }
  }

  /**
   When inclusive mode is a memory. For a write-back L1D, LRU or of one way, over an LRU or FIFO
   L2 of any number of ways and at most half the address space, every run reads as flat memory
   if and only if the L1D has one way, no more sets than L2, and does not let a write pass by to
   be installed at L2.
   */
  lemma InclusiveMemoryIffNested(cfg: HierarchyConfig)
    requires InclusiveUnified(cfg) && cfg.l2.eviction in {KindLRU, KindFIFO} && 2 * cfg.l2.cacheSize <= WORD
    requires cfg.l1Data.eviction == KindLRU || Cold(cfg.l1Data).geo.ways == 1
    ensures (forall ops | LegalOps(ops) :: RefinesThroughout(cfg, ops)) <==> OneWayNested(cfg)
  {
    hide RefinesThroughout, Sheltered, LosingTrace, DropsAt;
    if OneWayNested(cfg) {
      forall ops | LegalOps(ops) ensures RefinesThroughout(cfg, ops) {
        NestedIsMemory(cfg, ops);
      }
    } else {
      var how := ShelterIfNotNested(cfg);
      GeometryFacts(cfg.l2);
      RivalsHaveAddresses(Cold(cfg.l2).geo, how);
      CrowdingLoses(cfg, how);
    }
  }
}
