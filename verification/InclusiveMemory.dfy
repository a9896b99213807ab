/**
 Inclusive mode against flat memory: which steps and which runs lose data to back-invalidation.
 */
module InclusiveMemory {
  import opened Basics
  import opened Bits
  import opened EvictionPolicy
  import opened CacheGeometry
  import opened CacheModel
  import opened HierarchyModel
  import opened FlatMemory

  ghost predicate WriteBackInclusive(h: HierarchyState) {
    Setup(h) && h.cfg.inclusion == Inclusive && h.l1Data.cfg.writePolicy == WriteBack
  }

  /**
   L2 is about to evict a line that L1 holds dirty, and keeps through its own fill, with a value
   that neither L2 nor memory has.
   */
  ghost predicate DropsDirtyLine(d: DataState, op: MemOp)
    requires Setup(d.h) && op.address < WORD
  {
    var o, g := AccessHierarchy(d.h, op.address, op.kind), d.h.l1Data.geo;
    o.l2.Some? && o.l2.value.evicted
    && var e := LineOf(g, o.l2.value.evictedAddress);
       && HoldsDirty(d.h.l1Data, e) && !PushesOut(g, o.l1, e)
       && At(d.l1, e) != Below(d.h.l2, d.l2, d.memory, e)
  }

  /**
   Inclusive mode: a step keeps the memory semantics exactly when its back-invalidation does
   not drop such a line.
   */
  lemma InclusiveStepExact(d: DataState, op: MemOp, flat: map<nat, nat>)
    requires WriteBackInclusive(d.h) && op.address < WORD
    requires CleanCopiesMatch(d) && Refines(d, flat)
    ensures WriteBackInclusive(DataStep(d, op).0.h) && SameShape(d.h, DataStep(d, op).0.h)
    ensures CleanCopiesMatch(DataStep(d, op).0)
    ensures Refines(DataStep(d, op).0, FlatStep(d.h.l2.geo, flat, op)) <==> !DropsDirtyLine(d, op)
  {
    DataStepSetup(d, op);
    var nine := d.(h := d.h.(cfg := d.h.cfg.(inclusion := NonInclusiveNonExclusive)));
    assert forall m: nat :: Top(nine, m) == Top(d, m);
    RefinementStep(nine, op, flat);
    BackInvalidate(d, op, nine);
    var d', n', flat' := DataStep(d, op).0, DataStep(nine, op).0, FlatStep(d.h.l2.geo, flat, op);
    var o := AccessHierarchy(d.h, op.address, op.kind);
    if o.l2.Some? && o.l2.value.evicted {
      var e := LineOf(d.h.l1Data.geo, o.l2.value.evictedAddress);
      EvictedValue(d, op, nine, e);
      assert forall m: nat | m != e :: Top(d', m) == Top(n', m) == At(flat', m);
      assert Top(n', e) == At(flat', e);
      assert Refines(d', flat') <==> Top(d', e) == Top(n', e);
    }
  }

  /** The inclusion mode does not change what the levels report. */
  lemma SameReports(h: HierarchyState, nine: HierarchyState, address: nat, kind: AccessType)
    requires HierarchyOk(h) && address < WORD && nine == h.(cfg := nine.cfg) && nine.cfg.splitL1 == h.cfg.splitL1
    ensures var o, p := AccessHierarchy(h, address, kind), AccessHierarchy(nine, address, kind);
            o.l1 == p.l1 && o.writeback == p.writeback && o.l2 == p.l2
            && o.l1 == Access(SelectL1(h, kind), address, kind).1
    ensures var o := AccessHierarchy(h, address, kind);
            (o.l2.Some? ==> !o.l1.hit)
            && (o.l2.Some? && o.l2.value.evicted ==>
                  LineOf(h.l2.geo, o.l2.value.evictedAddress) != LineOf(h.l2.geo, address))
  {
    hide Access, Enforce, SetOk, LineFits;
    AccessEffect(SelectL1(h, kind), address, kind);
    var r1 := Access(SelectL1(h, kind), address, kind).1;
    WritebackOk(h.l2, r1);
    if !r1.hit {
      AccessEffect(Writeback(h.l2, r1).0, address, L2Kind(kind));
    }
  }

  /** What the line L2 evicts is worth at L1 and below it, after the step, in terms of the state before it. */
  lemma EvictedValue(d: DataState, op: MemOp, nine: DataState, e: nat)
    requires WriteBackInclusive(d.h) && op.address < WORD && CleanCopiesMatch(d)
    requires nine == d.(h := d.h.(cfg := d.h.cfg.(inclusion := NonInclusiveNonExclusive)))
    requires var o := AccessHierarchy(d.h, op.address, op.kind);
             o.l2.Some? && o.l2.value.evicted && e == LineOf(d.h.l1Data.geo, o.l2.value.evictedAddress)
    ensures var n' := DataStep(nine, op).0;
            && HierarchyOk(n'.h)
            && (Holds(n'.h.l1Data, e) && At(n'.l1, e) != Below(n'.h.l2, n'.l2, n'.memory, e)
                <==> DropsDirtyLine(d, op))
  {
    hide AccessHierarchy, Access, DataStep, Holds, HoldsDirty, CacheOk, L2Clean;
    var c, n', o := d.h.l1Data, DataStep(nine, op).0, AccessHierarchy(d.h, op.address, op.kind);
    SameReports(d.h, nine.h, op.address, op.kind);
    BackInvalidate(d, op, nine);
    AccessEffect(c, op.address, op.kind);
    DataStepSetup(nine, op);
    MissBelow(nine, op);
    DataAtL1(nine, op, e);
    DirtyIsHeld(c, e);
  }

  lemma DirtyIsHeld(c: CacheState, m: nat)
    requires CacheOk(c)
    ensures HoldsDirty(c, m) ==> Holds(c, m)
  {}

  lemma DataAtL1(d: DataState, op: MemOp, m: nat)
    requires Setup(d.h) && op.address < WORD && m != LineOf(d.h.l2.geo, op.address)
    ensures At(DataStep(d, op).0.l1, m) == At(d.l1, m)
  {
    hide AccessHierarchy, L2Data;
  }

  /** The inclusive step is the non-inclusive one followed by the invalidation at L1. */
  lemma BackInvalidate(d: DataState, op: MemOp, nine: DataState)
    requires WriteBackInclusive(d.h) && op.address < WORD
    requires nine == d.(h := d.h.(cfg := d.h.cfg.(inclusion := NonInclusiveNonExclusive)))
    ensures var d', n' := DataStep(d, op).0, DataStep(nine, op).0;
            var o := AccessHierarchy(d.h, op.address, op.kind);
            && d'.l1 == n'.l1 && d'.l2 == n'.l2 && d'.memory == n'.memory && d'.h.l2 == n'.h.l2
            && CacheOk(n'.h.l1Data) && CacheOk(d'.h.l1Data)
            && n'.h.l1Data == Access(d.h.l1Data, op.address, op.kind).0
            && (if o.l2.Some? && o.l2.value.evicted then
                  var e := LineOf(d.h.l1Data.geo, o.l2.value.evictedAddress);
                  forall m: nat :: (Holds(d'.h.l1Data, m) <==> Holds(n'.h.l1Data, m) && m != e)
                                   && (HoldsDirty(d'.h.l1Data, m) <==> HoldsDirty(n'.h.l1Data, m) && m != e)
                else d'.h.l1Data == n'.h.l1Data)
  {
    hide L2Data, LevelEffect, SetOk, Holds, HoldsDirty, LineFits, GeometryOk;
    AccessHierarchyOk(d.h, op.address, op.kind);
    AccessHierarchyOk(nine.h, op.address, op.kind);
    AccessEffect(d.h.l1Data, op.address, op.kind);
    var c1 := Access(d.h.l1Data, op.address, op.kind).0;
    var o := AccessHierarchy(d.h, op.address, op.kind);
    if o.l2.Some? && o.l2.value.evicted {
      InvalidateEffect(c1, o.l2.value.evictedAddress);
    }
  }

  ghost predicate InclusiveUnified(cfg: HierarchyConfig) {
    && ConfigOk(cfg) && !cfg.splitL1 && cfg.l1Data.lineSize == cfg.l2.lineSize
    && cfg.inclusion == Inclusive && cfg.l1Data.writePolicy == WriteBack
  }

  /** After the first `k` operations the hierarchy reads as flat memory. */
  ghost predicate RefinesAt(cfg: HierarchyConfig, ops: seq<MemOp>, k: nat)
    requires InclusiveUnified(cfg) && LegalOps(ops) && k <= |ops|
  {
    var d := RunData(StartData(cfg), ops[..k]); Refines(d, RunFlat(d.h.l2.geo, ops[..k]))
  }

  /** Operation `k` makes L2 throw out a dirty L1 line whose value is nowhere else. */
  ghost predicate DropsAt(cfg: HierarchyConfig, ops: seq<MemOp>, k: nat)
    requires InclusiveUnified(cfg) && LegalOps(ops) && k < |ops|
  {
    DropsDirtyLine(RunData(StartData(cfg), ops[..k]), ops[k])
  }

  ghost predicate RefinesThroughout(cfg: HierarchyConfig, ops: seq<MemOp>)
    requires InclusiveUnified(cfg) && LegalOps(ops)
  {
    forall k | 0 <= k <= |ops| :: RefinesAt(cfg, ops, k)
  }

  ghost predicate NeverDrops(cfg: HierarchyConfig, ops: seq<MemOp>)
    requires InclusiveUnified(cfg) && LegalOps(ops)
  {
    forall k | 0 <= k < |ops| :: !DropsAt(cfg, ops, k)
  }

  lemma PrefixRuns(cfg: HierarchyConfig, ops: seq<MemOp>, n: nat, k: nat)
    requires InclusiveUnified(cfg) && LegalOps(ops) && k <= n <= |ops|
    ensures RefinesAt(cfg, ops[..n], k) <==> RefinesAt(cfg, ops, k)
    ensures k < n ==> (DropsAt(cfg, ops[..n], k) <==> DropsAt(cfg, ops, k))
  {
    assert ops[..n][..k] == ops[..k];
  }

  /**
   Inclusive mode over whole runs: from cold, the hierarchy is a memory after every prefix of
   the run if and only if no step of the run drops a dirty line.
   */
  lemma {:induction false} InclusiveRunExact(cfg: HierarchyConfig, ops: seq<MemOp>)
    requires InclusiveUnified(cfg) && LegalOps(ops)
    ensures RefinesThroughout(cfg, ops) <==> NeverDrops(cfg, ops)
    ensures RefinesThroughout(cfg, ops) ==> CleanCopiesMatch(RunData(StartData(cfg), ops))
    ensures WriteBackInclusive(RunData(StartData(cfg), ops).h)
  {
    hide RefinesAt, DropsAt, RunData, WriteBackInclusive, CleanCopiesMatch, InclusiveUnified, Start;
    if ops == [] {
      ColdInclusive(cfg);
    } else {
      var n := |ops| - 1;
      var init := ops[..n];
      InclusiveRunExact(cfg, init);
      forall k | 0 <= k <= n
        ensures RefinesAt(cfg, init, k) <==> RefinesAt(cfg, ops, k)
        ensures k < n ==> (DropsAt(cfg, init, k) <==> DropsAt(cfg, ops, k))
      {
        PrefixRuns(cfg, ops, n, k);
      }
      InclusiveRunStep(cfg, ops);
    }
  }

  lemma ColdInclusive(cfg: HierarchyConfig)
    requires InclusiveUnified(cfg)
    ensures RefinesThroughout(cfg, []) && CleanCopiesMatch(RunData(StartData(cfg), []))
    ensures WriteBackInclusive(RunData(StartData(cfg), []).h)
  {
    var none: seq<MemOp> := [];
    assert none[..0] == none;
  }

  lemma InclusiveRunStep(cfg: HierarchyConfig, ops: seq<MemOp>)
    requires InclusiveUnified(cfg) && LegalOps(ops) && ops != []
    requires WriteBackInclusive(RunData(StartData(cfg), ops[..|ops| - 1]).h)
    ensures WriteBackInclusive(RunData(StartData(cfg), ops).h)
    ensures var n := |ops| - 1;
            RefinesAt(cfg, ops, n) && CleanCopiesMatch(RunData(StartData(cfg), ops[..n])) ==>
              && (RefinesAt(cfg, ops, n + 1) <==> !DropsAt(cfg, ops, n))
              && CleanCopiesMatch(RunData(StartData(cfg), ops))
  {
    hide DropsDirtyLine, DataStep, CleanCopiesMatch, Refines, Start;
    var n := |ops| - 1;
    var d := RunData(StartData(cfg), ops[..n]);
    assert ops[..n + 1] == ops;
    DataStepSetup(d, ops[n]);
    var flat := RunFlat(d.h.l2.geo, ops[..n]);
    if Refines(d, flat) && CleanCopiesMatch(d) {
      InclusiveStepExact(d, ops[n], flat);
    }
  }

  // ---- An inclusive run that loses a write ----

  /** A set with an empty way takes a line without evicting one. */
  lemma RoomForMore(c: CacheState, address: nat, kind: AccessType, only: nat)
    requires CacheOk(c) && address < WORD && c.geo.ways >= 2
    requires forall m: nat | Holds(c, m) :: m == only
    ensures !Access(c, address, kind).1.evicted
  {
    var g, i := c.geo, SetOf(c.geo, LineOf(c.geo, address));
    AccessedSet(g, address);
    var s := c.sets[i];
    if s.lines[0].valid && s.lines[1].valid {
      var a, b := LineNumber(g, s.lines[0].tag, i), LineNumber(g, s.lines[1].tag, i);
      LineSplit(g, a, s.lines[0].tag, i);
      LineSplit(g, b, s.lines[1].tag, i);
      assert Matches(s.lines[0], TagOf(g, a)) && Matches(s.lines[1], TagOf(g, b));
      assert Holds(c, a) && Holds(c, b);
    }
  }

  /** The first read of line zero puts it, and nothing else, at both levels. */
  lemma ColdReadInclusive(d: DataState)
    requires WriteBackInclusive(d.h) && d.memory == map[]
    requires forall m: nat :: !Holds(d.h.l1Data, m) && !Holds(d.h.l2, m)
    ensures var d' := DataStep(d, MemOp(0, ReadAccess, 0)).0;
            && WriteBackInclusive(d'.h) && SameShape(d.h, d'.h)
            && (forall m: nat :: Holds(d'.h.l1Data, m) <==> m == 0)
            && (forall m: nat :: Holds(d'.h.l2, m) <==> m == 0)
            && At(d'.l2, 0) == 0
  {
    hide Access, SetOk, LineFits, Holds, HoldsDirty;
    var op := MemOp(0, ReadAccess, 0);
    DataStepSetup(d, op);
    AccessEffect(d.h.l1Data, 0, ReadAccess);
    AccessEffect(d.h.l2, 0, ReadAccess);
    assert LineOf(d.h.l1Data.geo, 0) == 0 == LineOf(d.h.l2.geo, 0);
  }

  /** Writing it then hits L1 and goes no further. */
  lemma OverwriteInclusive(d: DataState)
    requires WriteBackInclusive(d.h) && Holds(d.h.l1Data, 0)
    ensures var d' := DataStep(d, MemOp(0, WriteAccess, 1)).0;
            && WriteBackInclusive(d'.h) && SameShape(d.h, d'.h)
            && (forall m: nat :: Holds(d'.h.l1Data, m) <==> Holds(d.h.l1Data, m))
            && HoldsDirty(d'.h.l1Data, 0) && At(d'.l1, 0) == 1
            && d'.h.l2 == d.h.l2 && d'.l2 == d.l2 && d'.memory == d.memory
  {
    hide Access, SetOk, LineFits, Holds, HoldsDirty;
    DataStepSetup(d, MemOp(0, WriteAccess, 1));
    AccessEffect(d.h.l1Data, 0, WriteAccess);
    assert LineOf(d.h.l1Data.geo, 0) == 0 == LineOf(d.h.l2.geo, 0);
  }

  /** A one-way L2 has to give up line zero for the next line of its set. */
  lemma OneWayEvicts(c: CacheState)
    requires CacheOk(c) && c.geo.ways == 1 && (forall m: nat :: Holds(c, m) <==> m == 0)
    ensures Colliding(c.geo, 1) < WORD && LineOf(c.geo, Colliding(c.geo, 1)) == c.geo.numSets
    ensures var r := Access(c, Colliding(c.geo, 1), ReadAccess).1; r.evicted && LineOf(c.geo, r.evictedAddress) == 0
  {
    hide SetOk, LineFits, Access, Holds, HoldsDirty, Colliding;
    CollidingLine(c.geo, 1);
    AccessEffect(c, Colliding(c.geo, 1), ReadAccess);
    var k := OneIsMissing(Access(c, Colliding(c.geo, 1), ReadAccess).0);
  }

  lemma ConflictDropsWrite(d: DataState)
    requires WriteBackInclusive(d.h) && d.h.l1Data.geo.ways >= 2 && d.h.l2.geo.ways == 1
    requires (forall m: nat :: Holds(d.h.l1Data, m) <==> m == 0) && (forall m: nat :: Holds(d.h.l2, m) <==> m == 0)
    requires HoldsDirty(d.h.l1Data, 0) && At(d.l1, 0) == 1 && At(d.l2, 0) == 0
    ensures Colliding(d.h.l2.geo, 1) < WORD
    ensures DropsDirtyLine(d, MemOp(Colliding(d.h.l2.geo, 1), ReadAccess, 0))
  {
    hide Access, SetOk, LineFits, Colliding;
    var a := Colliding(d.h.l2.geo, 1);
    OneWayEvicts(d.h.l2);
    RoomForMore(d.h.l1Data, a, ReadAccess, 0);
    AccessEffect(d.h.l1Data, a, ReadAccess);
  }

  /** Read line zero, overwrite it, read the next line of its L2 set. */
  function ConflictTrace(l2: Geometry): seq<MemOp>
    requires l2.lineSize > 0
  {
    [MemOp(0, ReadAccess, 0), MemOp(0, WriteAccess, 1), MemOp(Colliding(l2, 1), ReadAccess, 0)]
  }

  lemma ConflictTraceDrops(d: DataState)
    requires WriteBackInclusive(d.h) && d.h.l2.geo.lineSize > 0 && d.memory == map[]
    requires d.h.l1Data.geo.ways >= 2 && d.h.l2.geo.ways == 1
    requires forall m: nat :: !Holds(d.h.l1Data, m) && !Holds(d.h.l2, m)
    ensures var ops := ConflictTrace(d.h.l2.geo);
            LegalOps(ops) && DropsDirtyLine(RunData(d, ops[..2]), ops[2])
  {
    hide DataStep, RunData, Holds, HoldsDirty, DropsDirtyLine, HierarchyOk, Colliding, SameShape;
    DropsAfterTwo(d);
    var ops := ConflictTrace(d.h.l2.geo);
    TwoOps(d, ops[0], ops[1]);
    assert ops[..2] == [ops[0], ops[1]];
  }

  lemma DropsAfterTwo(d: DataState)
    requires WriteBackInclusive(d.h) && d.memory == map[] && d.h.l1Data.geo.ways >= 2 && d.h.l2.geo.ways == 1
    requires forall m: nat :: !Holds(d.h.l1Data, m) && !Holds(d.h.l2, m)
    ensures var read := DataStep(d, MemOp(0, ReadAccess, 0)).0;
            && Setup(read.h) && var write := DataStep(read, MemOp(0, WriteAccess, 1)).0;
            && Setup(write.h) && Colliding(d.h.l2.geo, 1) < WORD
            && DropsDirtyLine(write, MemOp(Colliding(d.h.l2.geo, 1), ReadAccess, 0))
  {
    hide DataStep, Holds, HoldsDirty, Colliding, DropsDirtyLine, HierarchyOk;
    var read := DataStep(d, MemOp(0, ReadAccess, 0)).0;
    ColdReadInclusive(d);
    OverwriteInclusive(read);
    ConflictDropsWrite(DataStep(read, MemOp(0, WriteAccess, 1)).0);
  }

  lemma TwoOps(d: DataState, a: MemOp, b: MemOp)
    requires Setup(d.h) && a.address < WORD && b.address < WORD
    ensures Setup(DataStep(d, a).0.h)
    ensures RunData(d, [a, b]) == DataStep(DataStep(d, a).0, b).0
  {
    hide DataStep, SameShape, Setup;
    DataStepSetup(d, a);
    NoOps(d);
    LastOp(d, [], a);
    LastOp(d, [a], b);
    assert [] + [a] == [a] && [a] + [b] == [a, b];
  }

  /**
   With an L1 of two or more ways over a one-way L2 of the same line size, whatever the policies,
   three operations lose a write: the read of a second line makes L2 evict the first, and
   back-invalidation takes the only copy of its new value.
   */
  lemma InclusiveLosesWrite(cfg: HierarchyConfig)
    requires InclusiveUnified(cfg) && Cold(cfg.l1Data).geo.ways >= 2 && Cold(cfg.l2).geo.ways == 1
    ensures var g := Cold(cfg.l2).geo;
            g.lineSize > 0 && var ops := ConflictTrace(g);
            LegalOps(ops) && DropsAt(cfg, ops, 2) && !RefinesThroughout(cfg, ops)
  {
    hide RunData, WriteBackInclusive, Holds, Colliding, Cold, Start, DropsDirtyLine, RefinesThroughout, CacheOk;
    ColdInclusiveState(cfg);
    ConflictTraceDrops(StartData(cfg));
    InclusiveRunExact(cfg, ConflictTrace(Cold(cfg.l2).geo));
  }

  lemma ColdInclusiveState(cfg: HierarchyConfig)
    requires InclusiveUnified(cfg)
    ensures ConfigOk(cfg) && Constructible(cfg.l1Data) && Constructible(cfg.l2)
    ensures var d := StartData(cfg);
            && WriteBackInclusive(d.h) && d.memory == map[]
            && (forall m: nat :: !Holds(d.h.l1Data, m) && !Holds(d.h.l2, m))
            && d.h.l1Data.geo == Cold(cfg.l1Data).geo && d.h.l2.geo == Cold(cfg.l2).geo
            && d.h.l2.geo.lineSize > 0
  {}

  /** There are such configurations: 16 bytes of two-way L1D over 8 bytes of L2, lines of 8. */
  lemma SmallInclusive(eviction: PolicyKind, l2Write: WritePolicy)
    ensures var l1 := CacheConfig(16, 8, 2, eviction, WriteBack, WriteAllocate);
            var l2 := CacheConfig(8, 8, 1, eviction, l2Write, WriteAllocate);
            var cfg := HierarchyConfig(l1, l2, Inclusive, false, l1);
            InclusiveUnified(cfg) && Cold(l1).geo.ways == 2 && Cold(l2).geo.ways == 1
  {
    hide DeriveGeometry;
    SingleSet(CacheConfig(16, 8, 2, eviction, WriteBack, WriteAllocate));
    SingleSet(CacheConfig(8, 8, 1, eviction, l2Write, WriteAllocate));
  }

  lemma SingleSet(cfg: CacheConfig)
    requires cfg.lineSize == 8 && cfg.associativity in {1, 2} && cfg.cacheSize == 8 * cfg.associativity
    ensures Constructible(cfg) && DeriveGeometry(cfg).value.ways == cfg.associativity
  {
    SmallPowers();
    assert IsPowerOfTwo(8) && IsPowerOfTwo(1);
    AcceptedIffAcceptable(cfg);
  }
}
