/** An L1 (unified or split) in front of an L2, as a value, and what every run of it keeps. */
module HierarchyModel {
  import opened Basics
  import opened Bits
  import opened CacheGeometry
  import opened CacheModel

  datatype InclusionPolicy = Inclusive | Exclusive | NonInclusiveNonExclusive

  datatype HierarchyConfig = HierarchyConfig(
    l1Data: CacheConfig, l2: CacheConfig, inclusion: InclusionPolicy, splitL1: bool, l1Instruction: CacheConfig)

  datatype HierarchyState = HierarchyState(
    cfg: HierarchyConfig, l1Data: CacheState, l1Instr: Option<CacheState>, l2: CacheState)

  datatype HierarchyResult = HierarchyResult(l1Hit: bool, l2Hit: bool)

  /** One access, with the results the levels reported to the hierarchy along the way. */
  datatype Outcome = Outcome(
    state: HierarchyState, result: HierarchyResult,
    l1: AccessResult, writeback: Option<AccessResult>, l2: Option<AccessResult>)

  datatype Request = Request(address: nat, kind: AccessType)

  ghost predicate HierarchyOk(h: HierarchyState) {
    && CacheOk(h.l1Data) && CacheOk(h.l2)
    && (h.l1Instr.Some? <==> h.cfg.splitL1)
    && (h.l1Instr.Some? ==> CacheOk(h.l1Instr.value))
  }

  ghost predicate SameLineSize(h: HierarchyState) {
    && h.l1Data.geo.lineSize == h.l2.geo.lineSize
    && (h.l1Instr.Some? ==> h.l1Instr.value.geo.lineSize == h.l2.geo.lineSize)
  }

  predicate FromInstr(h: HierarchyState, kind: AccessType) {
    h.l1Instr.Some? && kind == InstructionFetch
  }

  /** `select_l1`. */
  function SelectL1(h: HierarchyState, kind: AccessType): CacheState {
    if FromInstr(h, kind) then h.l1Instr.value else h.l1Data
  }

  function WithL1(h: HierarchyState, kind: AccessType, c: CacheState): HierarchyState {
    if FromInstr(h, kind) then h.(l1Instr := Some(c)) else h.(l1Data := c)
  }

  /** The L2 is unified: instruction fetches read. */
  function L2Kind(kind: AccessType): AccessType {
    if kind == InstructionFetch then ReadAccess else kind
  }

  /** A dirty L1 victim is written to L2 before L2 is asked for the line. */
  ghost function Writeback(l2: CacheState, r: AccessResult): (CacheState, Option<AccessResult>)
    requires CacheOk(l2)
  {
    if r.evicted && r.writebackNeeded then
      var (c, rw) := Access(l2, r.evictedAddress, WriteAccess);
      (c, Some(rw))
    else (l2, None)
  }

  lemma WritebackOk(l2: CacheState, r: AccessResult)
    requires CacheOk(l2) && (r.evicted ==> r.evictedAddress < WORD)
    ensures CacheOk(Writeback(l2, r).0)
    ensures Writeback(l2, r).0.geo == l2.geo && Writeback(l2, r).0.cfg == l2.cfg
  {
    if r.evicted && r.writebackNeeded {
      AccessEffect(l2, r.evictedAddress, WriteAccess);
    }
  }

  /** Back-invalidation (inclusive) or removal from L2 after a pull-up (exclusive). */
  ghost function Enforce(h: HierarchyState, address: nat, r: AccessResult): HierarchyState
    requires HierarchyOk(h)
  {
    if h.cfg.inclusion == Inclusive && r.evicted then
      h.(l1Data := Invalidate(h.l1Data, r.evictedAddress),
         l1Instr := if h.l1Instr.Some? then Some(Invalidate(h.l1Instr.value, r.evictedAddress)) else None)
    else if h.cfg.inclusion == Exclusive && r.hit then
      h.(l2 := Invalidate(h.l2, address))
    else h
  }

  ghost function AccessHierarchy(h: HierarchyState, address: nat, kind: AccessType): Outcome
    requires HierarchyOk(h) && address < WORD
  {
    AccessEffect(SelectL1(h, kind), address, kind);
    var (c1, r1) := Access(SelectL1(h, kind), address, kind);
    var h1 := WithL1(h, kind, c1);
    if r1.hit then
      Outcome(h1, HierarchyResult(true, false), r1, None, None)
    else
      WritebackOk(h.l2, r1);
      var (m, rw) := Writeback(h.l2, r1);
      AccessEffect(m, address, L2Kind(kind));
      var (c2, r2) := Access(m, address, L2Kind(kind));
      Outcome(Enforce(h1.(l2 := c2), address, r2), HierarchyResult(false, r2.hit), r1, rw, Some(r2))
  }

  lemma EnforceOk(h: HierarchyState, address: nat, r: AccessResult)
    requires HierarchyOk(h)
    ensures var h' := Enforce(h, address, r);
            HierarchyOk(h') && SameShape(h, h')
            && h'.l1Data.stats == h.l1Data.stats && h'.l2.stats == h.l2.stats
            && (h.l1Instr.Some? ==> h'.l1Instr.value.stats == h.l1Instr.value.stats)
  {
    InvalidateEffect(h.l1Data, r.evictedAddress);
    InvalidateEffect(h.l2, address);
    if h.l1Instr.Some? {
      InvalidateEffect(h.l1Instr.value, r.evictedAddress);
    }
  }

  /** Configuration and geometry never change. */
  ghost predicate SameShape(h: HierarchyState, h': HierarchyState) {
    && h'.cfg == h.cfg
    && h'.l1Data.cfg == h.l1Data.cfg && h'.l1Data.geo == h.l1Data.geo
    && h'.l2.cfg == h.l2.cfg && h'.l2.geo == h.l2.geo
    && (h'.l1Instr.Some? <==> h.l1Instr.Some?)
    && (h.l1Instr.Some? ==> h'.l1Instr.value.cfg == h.l1Instr.value.cfg
                            && h'.l1Instr.value.geo == h.l1Instr.value.geo)
  }

  lemma AccessHierarchyOk(h: HierarchyState, address: nat, kind: AccessType)
    requires HierarchyOk(h) && address < WORD
    ensures HierarchyOk(AccessHierarchy(h, address, kind).state)
    ensures SameShape(h, AccessHierarchy(h, address, kind).state)
  {
    AccessEffect(SelectL1(h, kind), address, kind);
    var (c1, r1) := Access(SelectL1(h, kind), address, kind);
    if !r1.hit {
      WritebackOk(h.l2, r1);
      var m := Writeback(h.l2, r1).0;
      AccessEffect(m, address, L2Kind(kind));
      var (c2, r2) := Access(m, address, L2Kind(kind));
      EnforceOk(WithL1(h, kind, c1).(l2 := c2), address, r2);
    }
  }

  // ---- Runs ----

  ghost predicate ConfigOk(cfg: HierarchyConfig) {
    && Constructible(cfg.l1Data) && Constructible(cfg.l2)
    && (cfg.splitL1 ==> Constructible(cfg.l1Instruction))
  }

  ghost function Start(cfg: HierarchyConfig): (h: HierarchyState)
    requires ConfigOk(cfg)
    ensures HierarchyOk(h)
  {
    var instr := if cfg.splitL1 then Some(Initial(cfg.l1Instruction)) else None;
    HierarchyState(cfg, Initial(cfg.l1Data), instr, Initial(cfg.l2))
  }

  ghost predicate Legal(reqs: seq<Request>) {
    forall i | 0 <= i < |reqs| :: reqs[i].address < WORD
  }

  ghost function RunRequests(h: HierarchyState, reqs: seq<Request>): (h': HierarchyState)
    requires HierarchyOk(h) && Legal(reqs)
    ensures HierarchyOk(h') && SameShape(h, h')
  {
    if reqs == [] then h
    else
      var n := |reqs| - 1;
      var before := RunRequests(h, reqs[..n]);
      AccessHierarchyOk(before, reqs[n].address, reqs[n].kind);
      AccessHierarchy(before, reqs[n].address, reqs[n].kind).state
  }

  // ---- Counters across levels ----

  /** The instruction cache is only read, so nothing in it is ever dirty. */
  ghost predicate InstrClean(h: HierarchyState)
    requires HierarchyOk(h)
  {
    h.l1Instr.Some? ==> forall m: nat :: !HoldsDirty(h.l1Instr.value, m)
  }

  function InstrStats(h: HierarchyState): CacheStats {
    if h.l1Instr.Some? then h.l1Instr.value.stats else CacheStats(0, 0, 0, 0, 0, 0, 0)
  }

  /** Every L2 access is an L1 miss or the writeback of a dirty L1D victim. */
  predicate TrafficBalances(h: HierarchyState) {
    && h.l2.stats.readOps + h.l2.stats.writeOps
       == h.l1Data.stats.misses + InstrStats(h).misses + h.l1Data.stats.dirtyEvictions
    && InstrStats(h).dirtyEvictions == 0
  }

  lemma EnforceInstrClean(h: HierarchyState, address: nat, r: AccessResult)
    requires HierarchyOk(h) && InstrClean(h)
    ensures HierarchyOk(Enforce(h, address, r)) && InstrClean(Enforce(h, address, r))
  {
    EnforceOk(h, address, r);
    if h.l1Instr.Some? {
      InvalidateEffect(h.l1Instr.value, r.evictedAddress);
    }
  }

  lemma InstrStaysClean(h: HierarchyState, address: nat, kind: AccessType)
    requires HierarchyOk(h) && address < WORD && InstrClean(h)
    ensures HierarchyOk(AccessHierarchy(h, address, kind).state)
    ensures InstrClean(AccessHierarchy(h, address, kind).state)
    ensures FromInstr(h, kind) ==> !AccessHierarchy(h, address, kind).l1.writebackNeeded
  {
    AccessHierarchyOk(h, address, kind);
    var l1 := SelectL1(h, kind);
    AccessEffect(l1, address, kind);
    var (c1, r1) := Access(l1, address, kind);
    assert InstrClean(WithL1(h, kind, c1));
    if !r1.hit {
      WritebackOk(h.l2, r1);
      var m := Writeback(h.l2, r1).0;
      AccessEffect(m, address, L2Kind(kind));
      var (c2, r2) := Access(m, address, L2Kind(kind));
      EnforceInstrClean(WithL1(h, kind, c1).(l2 := c2), address, r2);
    }
  }

  lemma CountersStep(h: HierarchyState, address: nat, kind: AccessType)
    requires HierarchyOk(h) && address < WORD && InstrClean(h) && TrafficBalances(h)
    ensures TrafficBalances(AccessHierarchy(h, address, kind).state)
  {
    hide SetOk, LineFits, Access, Holds, HoldsDirty;
    InstrStaysClean(h, address, kind);
    var l1 := SelectL1(h, kind);
    AccessEffect(l1, address, kind);
    AccessCounts(l1, address, kind);
    var (c1, r1) := Access(l1, address, kind);
    if !r1.hit {
      WritebackOk(h.l2, r1);
      var m := Writeback(h.l2, r1).0;
      if r1.evicted && r1.writebackNeeded {
        AccessCounts(h.l2, r1.evictedAddress, WriteAccess);
      }
      AccessEffect(m, address, L2Kind(kind));
      AccessCounts(m, address, L2Kind(kind));
      var (c2, r2) := Access(m, address, L2Kind(kind));
      EnforceOk(WithL1(h, kind, c1).(l2 := c2), address, r2);
    }
  }

  /** Over every run from cold caches, in every mode. */
  lemma {:induction false} TrafficConserved(cfg: HierarchyConfig, reqs: seq<Request>)
    requires ConfigOk(cfg) && Legal(reqs)
    ensures var h := RunRequests(Start(cfg), reqs); InstrClean(h) && TrafficBalances(h)
  {
    if reqs != [] {
      var n := |reqs| - 1;
      TrafficConserved(cfg, reqs[..n]);
      var before := RunRequests(Start(cfg), reqs[..n]);
      InstrStaysClean(before, reqs[n].address, reqs[n].kind);
      CountersStep(before, reqs[n].address, reqs[n].kind);
    }
  }
}
