/** What one access of the hierarchy does to every level, in every mode, and who is asked how often. */
module HierarchyTheorems {
  import opened Basics
  import opened Bits
  import opened CacheGeometry
  import opened CacheModel
  import opened HierarchyModel

  /** Lines after an access to line `l`, and after `drop` has then been invalidated. */
  ghost predicate Accessed(c: CacheState, c': CacheState, l: nat, write: bool, r: AccessResult, drop: Option<nat>)
    requires CacheOk(c) && CacheOk(c') && c'.geo == c.geo
  {
    && (r.hit <==> Holds(c, l))
    && (forall m: nat :: Holds(c', m) <==>
          drop != Some(m)
          && if m == l && (Holds(c, l) || !write || c.cfg.writeAllocate == WriteAllocate) then true
             else Holds(c, m) && !PushesOut(c.geo, r, m))
    && (forall m: nat :: HoldsDirty(c', m) <==>
          drop != Some(m)
          && if m == l && (Holds(c, l) || !write || c.cfg.writeAllocate == WriteAllocate)
             then (write && c.cfg.writePolicy == WriteBack) || HoldsDirty(c, l)
             else HoldsDirty(c, m) && !PushesOut(c.geo, r, m))
  }

  /** A level that is not asked loses `drop` at most. */
  ghost predicate Spared(c: CacheState, c': CacheState, drop: Option<nat>)
    requires CacheOk(c) && CacheOk(c') && c'.geo == c.geo
  {
    && c'.cfg == c.cfg && c'.stats == c.stats
    && (forall m: nat :: Holds(c', m) <==> drop != Some(m) && Holds(c, m))
    && (forall m: nat :: HoldsDirty(c', m) <==> drop != Some(m) && HoldsDirty(c, m))
  }

  /** The line an inclusive L2 makes an L1 of geometry `g` give up. */
  function BackInvalidated(h: HierarchyState, o: Outcome, g: Geometry): Option<nat>
    requires g.lineSize > 0
  {
    if h.cfg.inclusion == Inclusive && o.l2.Some? && o.l2.value.evicted
    then Some(LineOf(g, o.l2.value.evictedAddress)) else None
  }

  lemma DroppedFrom(c: CacheState, c1: CacheState, l: nat, write: bool, r: AccessResult, at: nat)
    requires CacheOk(c) && CacheOk(c1) && c1.geo == c.geo && LevelEffect(c, c1, l, write, r)
    ensures var c' := Invalidate(c1, at);
            CacheOk(c') && c'.geo == c.geo && Accessed(c, c', l, write, r, Some(LineOf(c.geo, at)))
    ensures Accessed(c, c1, l, write, r, None)
  {
    InvalidateEffect(c1, at);
  }

  lemma DroppedOnly(c: CacheState, at: nat)
    requires CacheOk(c)
    ensures var c' := Invalidate(c, at);
            CacheOk(c') && c'.geo == c.geo && Spared(c, c', Some(LineOf(c.geo, at)))
    ensures Spared(c, c, None)
  {
    InvalidateEffect(c, at);
  }

  /** A fetch of a split hierarchy is served by the instruction cache; the data cache is not asked. */
  lemma FetchContents(h: HierarchyState, address: nat)
    requires HierarchyOk(h) && address < WORD && h.l1Instr.Some?
    ensures var o, i := AccessHierarchy(h, address, InstructionFetch), h.l1Instr.value;
            && HierarchyOk(o.state) && SameShape(h, o.state)
            && (o.result.l1Hit <==> Holds(i, LineOf(i.geo, address)))
            && Accessed(i, o.state.l1Instr.value, LineOf(i.geo, address), false, o.l1, BackInvalidated(h, o, i.geo))
            && Spared(h.l1Data, o.state.l1Data, BackInvalidated(h, o, h.l1Data.geo))
            && (h.cfg.inclusion != Inclusive ==>
                  o.state.l1Data == h.l1Data
                  && LevelEffect(i, o.state.l1Instr.value, LineOf(i.geo, address), false, o.l1))
  {
    hide Access, Invalidate, SetOk, LineFits, Holds, HoldsDirty, LevelEffect, Spared, Accessed;
    var i := h.l1Instr.value;
    AccessHierarchyOk(h, address, InstructionFetch);
    AccessEffect(i, address, InstructionFetch);
    var (c1, r1) := Access(i, address, InstructionFetch);
    HitMeansHeld(i, c1, LineOf(i.geo, address), false, r1);
    if !r1.hit {
      WritebackOk(h.l2, r1);
      var r2 := Access(Writeback(h.l2, r1).0, address, ReadAccess).1;
      DroppedFrom(i, c1, LineOf(i.geo, address), false, r1, r2.evictedAddress);
      DroppedOnly(h.l1Data, r2.evictedAddress);
    } else {
      DroppedFrom(i, c1, LineOf(i.geo, address), false, r1, 0);
      DroppedOnly(h.l1Data, 0);
    }
  }

  lemma HitMeansHeld(c: CacheState, c': CacheState, l: nat, write: bool, r: AccessResult)
    requires CacheOk(c) && CacheOk(c') && c'.geo == c.geo && LevelEffect(c, c', l, write, r)
    ensures r.hit <==> Holds(c, l)
  {}

  /** Every other access is served by the data cache; an instruction cache is not asked. */
  lemma DataContents(h: HierarchyState, address: nat, kind: AccessType)
    requires HierarchyOk(h) && address < WORD && (h.l1Instr.Some? ==> kind != InstructionFetch)
    ensures var o, d, write := AccessHierarchy(h, address, kind), h.l1Data, kind == WriteAccess;
            && HierarchyOk(o.state) && SameShape(h, o.state)
            && (o.result.l1Hit <==> Holds(d, LineOf(d.geo, address)))
            && Accessed(d, o.state.l1Data, LineOf(d.geo, address), write, o.l1, BackInvalidated(h, o, d.geo))
            && (h.l1Instr.Some? ==>
                  Spared(h.l1Instr.value, o.state.l1Instr.value, BackInvalidated(h, o, h.l1Instr.value.geo)))
            && (h.cfg.inclusion != Inclusive ==>
                  o.state.l1Instr == h.l1Instr
                  && LevelEffect(d, o.state.l1Data, LineOf(d.geo, address), write, o.l1))
  {
    hide Access, Invalidate, SetOk, LineFits, Holds, HoldsDirty, LevelEffect, Spared, Accessed;
    var d, write := h.l1Data, kind == WriteAccess;
    AccessHierarchyOk(h, address, kind);
    AccessEffect(d, address, kind);
    var (c1, r1) := Access(d, address, kind);
    HitMeansHeld(d, c1, LineOf(d.geo, address), write, r1);
    var at := 0;
    if !r1.hit {
      WritebackOk(h.l2, r1);
      at := Access(Writeback(h.l2, r1).0, address, L2Kind(kind)).1.evictedAddress;
    }
    DroppedFrom(d, c1, LineOf(d.geo, address), write, r1, at);
    if h.l1Instr.Some? {
      DroppedOnly(h.l1Instr.value, at);
    }
  }

  /**
   L2 is asked exactly on an L1 miss, after a dirty L1 victim has been written to it: a write
   for a write, a read otherwise. It then gives the line up again if it hit in exclusive mode.
   */
  lemma L2Contents(h: HierarchyState, address: nat, kind: AccessType)
    requires HierarchyOk(h) && address < WORD
    ensures var o, g, write := AccessHierarchy(h, address, kind), h.l2.geo, kind == WriteAccess;
            && HierarchyOk(o.state) && SameShape(h, o.state) && (o.l2.None? <==> o.result.l1Hit)
            && (o.result.l1Hit ==> o.state.l2 == h.l2 && !o.result.l2Hit && o.writeback.None?)
            && (!o.result.l1Hit ==>
                  exists m: CacheState ::
                    && CacheOk(m) && m.geo == g && m.cfg == h.l2.cfg
                    && (if o.l1.evicted && o.l1.writebackNeeded
                        then o.writeback.Some?
                             && LevelEffect(h.l2, m, LineOf(g, o.l1.evictedAddress), true, o.writeback.value)
                        else o.writeback.None? && m == h.l2)
                    && (o.result.l2Hit <==> Holds(m, LineOf(g, address)))
                    && Accessed(m, o.state.l2, LineOf(g, address), write, o.l2.value,
                                if h.cfg.inclusion == Exclusive && o.result.l2Hit
                                then Some(LineOf(g, address)) else None))
  {
    hide Access, Invalidate, SetOk, LineFits, Holds, HoldsDirty, LevelEffect, Accessed;
    AccessHierarchyOk(h, address, kind);
    AccessEffect(SelectL1(h, kind), address, kind);
    VictimAddress(SelectL1(h, kind), address, kind);
    var r1 := Access(SelectL1(h, kind), address, kind).1;
    if !r1.hit {
      WritebackOk(h.l2, r1);
      var m, l := Writeback(h.l2, r1).0, LineOf(h.l2.geo, address);
      if r1.evicted && r1.writebackNeeded {
        AccessEffect(h.l2, r1.evictedAddress, WriteAccess);
      }
      AccessEffect(m, address, L2Kind(kind));
      var (c2, r2) := Access(m, address, L2Kind(kind));
      HitMeansHeld(m, c2, l, kind == WriteAccess, r2);
      DroppedFrom(m, c2, l, kind == WriteAccess, r2, address);
    }
  }

  lemma VictimAddress(c: CacheState, address: nat, kind: AccessType)
    requires CacheOk(c) && address < WORD
    ensures var r := Access(c, address, kind).1; r.evicted ==> r.evictedAddress < WORD
  {
    AccessEffect(c, address, kind);
  }

  // ---- Construction ----

  /** Every level is built from its own configuration, the instruction cache only if asked for, and holds nothing. */
  lemma StartAsConfigured(cfg: HierarchyConfig)
    requires ConfigOk(cfg)
    ensures var h := Start(cfg);
            && h.cfg == cfg && HierarchyOk(h)
            && h.l1Data.cfg == cfg.l1Data && Ok(h.l1Data.geo) == DeriveGeometry(cfg.l1Data)
            && h.l2.cfg == cfg.l2 && Ok(h.l2.geo) == DeriveGeometry(cfg.l2)
            && (h.l1Instr.Some? <==> cfg.splitL1)
            && (cfg.splitL1 ==>
                  && h.l1Instr.value.cfg == cfg.l1Instruction
                  && Ok(h.l1Instr.value.geo) == DeriveGeometry(cfg.l1Instruction)
                  && forall m: nat :: !Holds(h.l1Instr.value, m))
            && forall m: nat :: !Holds(h.l1Data, m) && !Holds(h.l2, m)
  {}

  // ---- Requests counted ----

  function Requested(reqs: seq<Request>, kind: AccessType): nat {
    if reqs == [] then 0
    else Requested(reqs[..|reqs| - 1], kind) + if reqs[|reqs| - 1].kind == kind then 1 else 0
  }

  /** Which counters of which L1 one request moves. */
  lemma CountersMove(h: HierarchyState, address: nat, kind: AccessType)
    requires HierarchyOk(h) && address < WORD
    ensures var h' := AccessHierarchy(h, address, kind).state;
            && HierarchyOk(h') && SameShape(h, h')
            && var fetch := h.l1Instr.Some? && kind == InstructionFetch;
               && h'.l1Data.stats.readOps == h.l1Data.stats.readOps + (if fetch || kind == WriteAccess then 0 else 1)
               && h'.l1Data.stats.writeOps == h.l1Data.stats.writeOps + (if kind == WriteAccess then 1 else 0)
               && (h.l1Instr.Some? ==>
                     && h'.l1Instr.value.stats.readOps == h.l1Instr.value.stats.readOps + (if fetch then 1 else 0)
                     && h'.l1Instr.value.stats.writeOps == h.l1Instr.value.stats.writeOps)
  {
    hide Access, Invalidate, SetOk, LineFits, LevelEffect;
    AccessHierarchyOk(h, address, kind);
    var l1 := SelectL1(h, kind);
    AccessEffect(l1, address, kind);
    AccessCounts(l1, address, kind);
    var (c1, r1) := Access(l1, address, kind);
    if !r1.hit {
      WritebackOk(h.l2, r1);
      var m := Writeback(h.l2, r1).0;
      AccessEffect(m, address, L2Kind(kind));
      var (c2, r2) := Access(m, address, L2Kind(kind));
      EnforceOk(WithL1(h, kind, c1).(l2 := c2), address, r2);
    }
  }

  /**
   Over every run from cold, in every mode: a split instruction cache is read once per fetch and
   never written, and the data cache sees every other request; unsplit it sees all of them.
   */
  lemma {:induction false} RequestsCounted(cfg: HierarchyConfig, reqs: seq<Request>)
    requires ConfigOk(cfg) && Legal(reqs)
    ensures var h := RunRequests(Start(cfg), reqs);
            && (h.l1Instr.Some? <==> cfg.splitL1)
            && h.l1Data.stats.writeOps == Requested(reqs, WriteAccess)
            && h.l1Data.stats.readOps
               == Requested(reqs, ReadAccess) + (if cfg.splitL1 then 0 else Requested(reqs, InstructionFetch))
            && (cfg.splitL1 ==>
                  && h.l1Instr.value.stats.readOps == Requested(reqs, InstructionFetch)
                  && h.l1Instr.value.stats.writeOps == 0)
  {
    hide AccessHierarchy, HierarchyOk;
    if reqs != [] {
      var n := |reqs| - 1;
      RequestsCounted(cfg, reqs[..n]);
      CountersMove(RunRequests(Start(cfg), reqs[..n]), reqs[n].address, reqs[n].kind);
    }
  }

  lemma {:induction false} AllRequested(reqs: seq<Request>)
    ensures Requested(reqs, ReadAccess) + Requested(reqs, WriteAccess) + Requested(reqs, InstructionFetch) == |reqs|
  {
    if reqs != [] {
      AllRequested(reqs[..|reqs| - 1]);
    }
  }
}
