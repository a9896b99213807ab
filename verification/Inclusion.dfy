/** Inclusive mode: when L1 contents are always a subset of L2 contents. */
module Inclusion {
  import opened Bits
  import opened CacheGeometry
  import opened CacheModel
  import opened HierarchyModel

  /** Every line cached at L1, data or instruction, is also cached at L2. */
  ghost predicate Included(h: HierarchyState)
    requires HierarchyOk(h)
  {
    && (forall m: nat | Holds(h.l1Data, m) :: Holds(h.l2, m))
    && (h.l1Instr.Some? ==> forall m: nat | Holds(h.l1Instr.value, m) :: Holds(h.l2, m))
  }

  /** A write miss that L1D fills is filled at L2 too. */
  predicate FillsBelow(cfg: HierarchyConfig) {
    cfg.l2.writeAllocate == WriteAllocate || cfg.l1Data.writeAllocate == NoWriteAllocate
  }

  ghost predicate InclusiveSetup(h: HierarchyState) {
    && HierarchyOk(h) && SameLineSize(h)
    && h.cfg.inclusion == Inclusive
    && h.l1Data.cfg == h.cfg.l1Data && h.l2.cfg == h.cfg.l2
  }

  /**
   The writeback whose result the code throws away cannot evict anything: by inclusion its
   line is in L2, so it hits.
   */
  lemma WritebackHits(h: HierarchyState, address: nat, kind: AccessType)
    requires InclusiveSetup(h) && Included(h) && address < WORD
    ensures var o := AccessHierarchy(h, address, kind);
            o.writeback.Some? ==> o.writeback.value.hit && !o.writeback.value.evicted
  {
    var l1 := SelectL1(h, kind);
    AccessEffect(l1, address, kind);
    var r1 := Access(l1, address, kind).1;
    if !r1.hit && r1.evicted && r1.writebackNeeded {
      AccessEffect(h.l2, r1.evictedAddress, WriteAccess);
    }
  }

  /** Residency after the L1 access and the writeback, before L2 is asked. */
  lemma BeforeL2(h: HierarchyState, address: nat, kind: AccessType)
    requires InclusiveSetup(h) && Included(h) && address < WORD
    requires !Access(SelectL1(h, kind), address, kind).1.hit
    ensures var (c1, r1) := Access(SelectL1(h, kind), address, kind);
            var l, m2 := LineOf(h.l2.geo, address), Writeback(h.l2, r1).0;
            && CacheOk(c1) && CacheOk(m2) && m2.geo == h.l2.geo && m2.cfg == h.l2.cfg
            && c1.geo == SelectL1(h, kind).geo
            && (forall m: nat :: Holds(m2, m) <==> Holds(h.l2, m))
            && (forall m: nat | Holds(c1, m) && m != l :: Holds(h.l2, m))
            && (Holds(c1, l) ==> Installs(SelectL1(h, kind).cfg, kind == WriteAccess))
  {
    var l1 := SelectL1(h, kind);
    AccessEffect(l1, address, kind);
    WritebackHits(h, address, kind);
    var r1 := Access(l1, address, kind).1;
    if r1.evicted && r1.writebackNeeded {
      AccessEffect(h.l2, r1.evictedAddress, WriteAccess);
    }
  }

  lemma InclusionStep(h: HierarchyState, address: nat, kind: AccessType)
    requires InclusiveSetup(h) && Included(h) && FillsBelow(h.cfg) && address < WORD
    ensures HierarchyOk(AccessHierarchy(h, address, kind).state)
    ensures Included(AccessHierarchy(h, address, kind).state)
  {
    AccessHierarchyOk(h, address, kind);
    var l := LineOf(h.l2.geo, address);
    var l1 := SelectL1(h, kind);
    var (c1, r1) := Access(l1, address, kind);
    AccessEffect(l1, address, kind);
    if !r1.hit {
      BeforeL2(h, address, kind);
      var m2 := Writeback(h.l2, r1).0;
      AccessEffect(m2, address, L2Kind(kind));
      var (c2, r2) := Access(m2, address, L2Kind(kind));
      var h2 := WithL1(h, kind, c1).(l2 := c2);
      assert Holds(c1, l) ==> Holds(c2, l);
      assert forall m: nat | Holds(h.l2, m) :: Holds(c2, m) || PushesOut(h.l2.geo, r2, m);
      EnforceIncludes(h2, address, r2);
    }
  }

  /** Back-invalidation restores inclusion when only the line L2 evicted is missing from it. */
  lemma EnforceIncludes(h: HierarchyState, address: nat, r: AccessResult)
    requires InclusiveSetup(h)
    requires forall m: nat | Holds(h.l1Data, m) :: Holds(h.l2, m) || PushesOut(h.l2.geo, r, m)
    requires h.l1Instr.Some? ==>
               forall m: nat | Holds(h.l1Instr.value, m) :: Holds(h.l2, m) || PushesOut(h.l2.geo, r, m)
    ensures HierarchyOk(Enforce(h, address, r)) && Included(Enforce(h, address, r))
  {
    EnforceOk(h, address, r);
    InvalidateEffect(h.l1Data, r.evictedAddress);
    if h.l1Instr.Some? {
      InvalidateEffect(h.l1Instr.value, r.evictedAddress);
    }
  }

  ghost predicate InclusiveConfig(cfg: HierarchyConfig) {
    && ConfigOk(cfg) && cfg.inclusion == Inclusive
    && cfg.l1Data.lineSize == cfg.l2.lineSize
    && (cfg.splitL1 ==> cfg.l1Instruction.lineSize == cfg.l2.lineSize)
  }

  lemma StartInclusive(cfg: HierarchyConfig)
    requires InclusiveConfig(cfg)
    ensures InclusiveSetup(Start(cfg)) && Included(Start(cfg))
  {}

  lemma {:induction false} InclusionKept(cfg: HierarchyConfig, reqs: seq<Request>)
    requires InclusiveConfig(cfg) && Legal(reqs) && FillsBelow(cfg)
    ensures Included(RunRequests(Start(cfg), reqs))
  {
    StartInclusive(cfg);
    if reqs != [] {
      var n := |reqs| - 1;
      InclusionKept(cfg, reqs[..n]);
      InclusionStep(RunRequests(Start(cfg), reqs[..n]), reqs[n].address, reqs[n].kind);
    }
  }

  /** Otherwise one cold write leaves a line in L1D that L2 passed over. */
  lemma OneWriteBreaksInclusion(cfg: HierarchyConfig)
    requires InclusiveConfig(cfg) && !FillsBelow(cfg)
    ensures !Included(RunRequests(Start(cfg), [Request(0, WriteAccess)]))
  {
    StartInclusive(cfg);
    var h, reqs := Start(cfg), [Request(0, WriteAccess)];
    assert reqs[..0] == [];
    assert RunRequests(h, reqs[..0]) == h;
    AccessEffect(h.l1Data, 0, WriteAccess);
    AccessEffect(h.l2, 0, WriteAccess);
    var h' := AccessHierarchy(h, 0, WriteAccess).state;
    AccessHierarchyOk(h, 0, WriteAccess);
    assert LineOf(h.l1Data.geo, 0) == 0 && LineOf(h.l2.geo, 0) == 0;
    assert Holds(h'.l1Data, 0) && !Holds(h'.l2, 0);
  }

  /**
   With equal line sizes, inclusion survives every run exactly when L2 allocates on writes or
   L1D does not.
   */
  lemma InclusionIffFillsBelow(cfg: HierarchyConfig)
    requires InclusiveConfig(cfg)
    ensures (forall reqs | Legal(reqs) :: Included(RunRequests(Start(cfg), reqs))) <==> FillsBelow(cfg)
  {
    if FillsBelow(cfg) {
      forall reqs | Legal(reqs) ensures Included(RunRequests(Start(cfg), reqs)) {
        InclusionKept(cfg, reqs);
      }
    } else {
      OneWriteBreaksInclusion(cfg);
      assert Legal([Request(0, WriteAccess)]);
    }
  }

  // ---- Exclusive mode ----

  ghost predicate AtBothLevels(h: HierarchyState, m: nat)
    requires HierarchyOk(h)
  {
    Holds(h.l1Data, m) && Holds(h.l2, m)
  }

  /**
   Exclusive mode removes the line from L2 only on an L2 hit: a data access that misses L1
   leaves it at both levels exactly when both levels fill on this kind of access and L2, once
   the victim has been written back to it, does not have the line.
   */
  lemma ExclusiveMissExact(h: HierarchyState, address: nat, kind: AccessType)
    requires HierarchyOk(h) && SameLineSize(h) && h.cfg.inclusion == Exclusive && address < WORD
    requires kind != InstructionFetch && !Holds(h.l1Data, LineOf(h.l1Data.geo, address))
    ensures var o := AccessHierarchy(h, address, kind);
            && HierarchyOk(o.state) && CacheOk(Writeback(h.l2, o.l1).0)
            && (AtBothLevels(o.state, LineOf(h.l2.geo, address)) <==>
                  && Installs(h.l1Data.cfg, kind == WriteAccess) && Installs(h.l2.cfg, kind == WriteAccess)
                  && !Holds(Writeback(h.l2, o.l1).0, LineOf(h.l2.geo, address)))
  {
    AccessHierarchyOk(h, address, kind);
    AccessEffect(h.l1Data, address, kind);
    var r1 := Access(h.l1Data, address, kind).1;
    WritebackOk(h.l2, r1);
    var m := Writeback(h.l2, r1).0;
    AccessEffect(m, address, kind);
    InvalidateEffect(Access(m, address, kind).0, address);
  }

  /** So in every exclusive configuration the first read of a line puts it at both levels. */
  lemma ColdReadBreaksExclusivity(cfg: HierarchyConfig, address: nat)
    requires ConfigOk(cfg) && cfg.inclusion == Exclusive && cfg.l1Data.lineSize == cfg.l2.lineSize
    requires cfg.splitL1 ==> cfg.l1Instruction.lineSize == cfg.l2.lineSize
    requires address < WORD
    ensures var h := AccessHierarchy(Start(cfg), address, ReadAccess).state;
            HierarchyOk(h) && AtBothLevels(h, LineOf(h.l2.geo, address))
  {
    var h := Start(cfg);
    AccessHierarchyOk(h, address, ReadAccess);
    ExclusiveMissExact(h, address, ReadAccess);
    AccessEffect(h.l1Data, address, ReadAccess);
    AccessEffect(h.l2, address, ReadAccess);
  }
}
