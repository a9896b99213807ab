/**
 Memory semantics of the hierarchy. The simulator moves no data; here each level carries a
 value per line, moved exactly as the access results direct, and is compared with a memory
 that has no caches at all.
 */
module FlatMemory {
  import opened Basics
  import opened Bits
  import opened EvictionPolicy
  import opened CacheGeometry
  import opened CacheModel
  import opened HierarchyModel

  /** Values per line; a line never written holds zero. Only lines a level holds matter in its map. */
  datatype DataState = DataState(h: HierarchyState, l1: map<nat, nat>, l2: map<nat, nat>, memory: map<nat, nat>)

  datatype MemOp = MemOp(address: nat, kind: AccessType, value: nat)

  /**
   Data movement of one L2 access: a victim reported dirty goes to memory; a write lands in
   L2, and in memory too under write-through or when it is not allocated; a read miss fills
   from memory.
   */
  function L2Data(c: CacheState, l2: map<nat, nat>, memory: map<nat, nat>, line: nat, write: bool, value: nat,
                  r: AccessResult): (map<nat, nat>, map<nat, nat>)
    requires c.geo.lineSize > 0
  {
    var e := LineOf(c.geo, r.evictedAddress);
    var mem1 := if r.evicted && r.writebackNeeded then memory[e := At(l2, e)] else memory;
    if r.hit || r.lineInstalled then
      var filled := if write then value else if r.hit then At(l2, line) else At(mem1, line);
      (l2[line := filled],
       if write && c.cfg.writePolicy == WriteThrough then mem1[line := value] else mem1)
    else (l2, mem1[line := value])
  }

  /** The value L2 and memory together hold for a line. */
  ghost function Below(c: CacheState, l2: map<nat, nat>, memory: map<nat, nat>, m: nat): nat
    requires CacheOk(c)
  {
    if Holds(c, m) then At(l2, m) else At(memory, m)
  }

  /** Clean L2 copies equal memory. */
  ghost predicate L2Clean(c: CacheState, l2: map<nat, nat>, memory: map<nat, nat>)
    requires CacheOk(c)
  {
    forall m: nat | Holds(c, m) && !HoldsDirty(c, m) :: At(l2, m) == At(memory, m)
  }

  /** One L2 access changes what is below L1 only by the value written, whatever L2's policies. */
  lemma L2Step(c: CacheState, l2: map<nat, nat>, memory: map<nat, nat>, address: nat, kind: AccessType, value: nat)
    requires CacheOk(c) && address < WORD && L2Clean(c, l2, memory)
    ensures var (c', r) := Access(c, address, kind);
            var l, write := LineOf(c.geo, address), kind == WriteAccess;
            var (l2', memory') := L2Data(c, l2, memory, l, write, value, r);
            && CacheOk(c') && c'.geo == c.geo && c'.cfg == c.cfg
            && L2Clean(c', l2', memory')
            && (forall m: nat :: Below(c', l2', memory', m)
                                 == if m == l && write then value else Below(c, l2, memory, m))
            && (!write ==> Holds(c', l) && At(l2', l) == Below(c, l2, memory, l))
  {
    hide SetOk, LineFits, Access;
    AccessEffect(c, address, kind);
    var (c', r) := Access(c, address, kind);
    var l, write := LineOf(c.geo, address), kind == WriteAccess;
    var (l2', memory') := L2Data(c, l2, memory, l, write, value, r);
    forall m: nat
      ensures Below(c', l2', memory', m) == if m == l && write then value else Below(c, l2, memory, m)
      ensures Holds(c', m) && !HoldsDirty(c', m) ==> At(l2', m) == At(memory', m)
    {
      if m == l {
      } else if PushesOut(c.geo, r, m) {
      } else {
        assert Holds(c', m) <==> Holds(c, m);
      }
    }
  }

  // ---- The two-level machine ----

  ghost predicate Setup(h: HierarchyState) {
    HierarchyOk(h) && h.l1Instr.None? && h.l1Data.geo.lineSize == h.l2.geo.lineSize
  }

  ghost function DataStep(d: DataState, op: MemOp): (DataState, nat)
    requires Setup(d.h) && op.address < WORD
  {
    var g, l, write := d.h.l2.geo, LineOf(d.h.l2.geo, op.address), op.kind == WriteAccess;
    var o := AccessHierarchy(d.h, op.address, op.kind);
    if o.l1.hit then
      (DataState(o.state, if write then d.l1[l := op.value] else d.l1, d.l2, d.memory),
       if write then op.value else At(d.l1, l))
    else
      var (l2a, memA) :=
        if o.writeback.None? then (d.l2, d.memory)
        else var e := LineOf(g, o.l1.evictedAddress);
             L2Data(d.h.l2, d.l2, d.memory, e, true, At(d.l1, e), o.writeback.value);
      var (l2b, memB) := L2Data(d.h.l2, l2a, memA, l, write, op.value, o.l2.value);
      var seen := if write then op.value else At(l2b, l);
      (DataState(o.state, if o.l1.lineInstalled then d.l1[l := seen] else d.l1, l2b, memB), seen)
  }

  /** The topmost copy of a line: L1, else L2, else memory. */
  ghost function Top(d: DataState, m: nat): nat
    requires HierarchyOk(d.h)
  {
    if Holds(d.h.l1Data, m) then At(d.l1, m) else Below(d.h.l2, d.l2, d.memory, m)
  }

  /** Clean copies agree with what lies below them, so dropping one loses nothing. */
  ghost predicate CleanCopiesMatch(d: DataState)
    requires HierarchyOk(d.h)
  {
    && L2Clean(d.h.l2, d.l2, d.memory)
    && forall m: nat | Holds(d.h.l1Data, m) && !HoldsDirty(d.h.l1Data, m) ::
         At(d.l1, m) == Below(d.h.l2, d.l2, d.memory, m)
  }

  /** The cacheless memory the hierarchy stands for. */
  function FlatStep(g: Geometry, flat: map<nat, nat>, op: MemOp): map<nat, nat>
    requires g.lineSize > 0
  {
    if op.kind == WriteAccess then flat[LineOf(g, op.address) := op.value] else flat
  }

  ghost predicate Refines(d: DataState, flat: map<nat, nat>)
    requires HierarchyOk(d.h)
  {
    forall m: nat :: Top(d, m) == At(flat, m)
  }

  ghost predicate WriteBackNine(h: HierarchyState) {
    Setup(h) && h.cfg.inclusion == NonInclusiveNonExclusive && h.l1Data.cfg.writePolicy == WriteBack
  }

  /** What L2 and memory hold once the L1 victim has been written back, and after the L2 access. */
  lemma MissBelow(d: DataState, op: MemOp)
    requires Setup(d.h) && d.h.cfg.inclusion == NonInclusiveNonExclusive && op.address < WORD
    requires CleanCopiesMatch(d) && !AccessHierarchy(d.h, op.address, op.kind).l1.hit
    ensures var (d', seen) := DataStep(d, op);
            var o := AccessHierarchy(d.h, op.address, op.kind);
            var l, e := LineOf(d.h.l2.geo, op.address), LineOf(d.h.l2.geo, o.l1.evictedAddress);
            && CacheOk(d'.h.l2) && L2Clean(d'.h.l2, d'.l2, d'.memory)
            && (o.writeback.Some? <==> o.l1.evicted && o.l1.writebackNeeded)
            && (o.l1.evicted ==> e != l)
            && (forall m: nat :: Below(d'.h.l2, d'.l2, d'.memory, m)
                  == if m == l && op.kind == WriteAccess then op.value
                     else if o.writeback.Some? && m == e then At(d.l1, e)
                     else Below(d.h.l2, d.l2, d.memory, m))
            && seen == Below(d'.h.l2, d'.l2, d'.memory, l)
  {
    var h, l := d.h, LineOf(d.h.l2.geo, op.address);
    AccessEffect(h.l1Data, op.address, op.kind);
    var r1 := Access(h.l1Data, op.address, op.kind).1;
    var m2, rw := Writeback(h.l2, r1).0, Writeback(h.l2, r1).1;
    var l2a, memA := d.l2, d.memory;
    if rw.Some? {
      var e := LineOf(h.l2.geo, r1.evictedAddress);
      L2Step(h.l2, d.l2, d.memory, r1.evictedAddress, WriteAccess, At(d.l1, e));
      var moved := L2Data(h.l2, d.l2, d.memory, e, true, At(d.l1, e), rw.value);
      l2a, memA := moved.0, moved.1;
    }
    L2Step(m2, l2a, memA, op.address, L2Kind(op.kind), op.value);
  }

  /** One access of any kind is one step of the flat memory, and a read returns its value. */
  lemma RefinementStep(d: DataState, op: MemOp, flat: map<nat, nat>)
    requires WriteBackNine(d.h) && op.address < WORD
    requires CleanCopiesMatch(d) && Refines(d, flat)
    ensures var (d', seen) := DataStep(d, op);
            var flat' := FlatStep(d.h.l2.geo, flat, op);
            && WriteBackNine(d'.h) && SameShape(d.h, d'.h)
            && CleanCopiesMatch(d') && Refines(d', flat')
            && seen == At(flat', LineOf(d.h.l2.geo, op.address))
  {
    hide SetOk, LineFits, L2Data, Access;
    var l := LineOf(d.h.l2.geo, op.address);
    var (d', seen) := DataStep(d, op);
    AccessHierarchyOk(d.h, op.address, op.kind);
    AccessEffect(d.h.l1Data, op.address, op.kind);
    var o := AccessHierarchy(d.h, op.address, op.kind);
    if o.l1.hit {
      assert Top(d, l) == At(flat, l);
      assert forall m: nat | m != l :: Top(d', m) == Top(d, m);
    } else {
      MissBelow(d, op);
      MissRefines(d, op, flat);
    }
  }

  lemma MissRefines(d: DataState, op: MemOp, flat: map<nat, nat>)
    requires WriteBackNine(d.h) && op.address < WORD
    requires CleanCopiesMatch(d) && Refines(d, flat)
    requires !AccessHierarchy(d.h, op.address, op.kind).l1.hit
    requires HierarchyOk(DataStep(d, op).0.h)
    ensures CleanCopiesMatch(DataStep(d, op).0)
    ensures Refines(DataStep(d, op).0, FlatStep(d.h.l2.geo, flat, op))
    ensures DataStep(d, op).1 == At(FlatStep(d.h.l2.geo, flat, op), LineOf(d.h.l2.geo, op.address))
  {
    var l := LineOf(d.h.l2.geo, op.address);
    var (d', seen) := DataStep(d, op);
    MissBelow(d, op);
    MissLine(d, op, l);
    AccessEffect(d.h.l1Data, op.address, op.kind);
    assert Top(d, l) == At(flat, l);
    forall m: nat
      ensures Top(d', m) == At(FlatStep(d.h.l2.geo, flat, op), m)
      ensures Holds(d'.h.l1Data, m) && !HoldsDirty(d'.h.l1Data, m) ==>
                At(d'.l1, m) == Below(d'.h.l2, d'.l2, d'.memory, m)
    {
      assert Top(d, m) == At(flat, m);
      MissLine(d, op, m);
    }
  }

  /** One line `m` across an L1 miss. */
  lemma MissLine(d: DataState, op: MemOp, m: nat)
    requires WriteBackNine(d.h) && op.address < WORD && CleanCopiesMatch(d)
    requires !AccessHierarchy(d.h, op.address, op.kind).l1.hit
    requires HierarchyOk(DataStep(d, op).0.h)
    ensures var (d', seen) := DataStep(d, op);
            var l := LineOf(d.h.l2.geo, op.address);
            && Top(d', m) == (if m == l && op.kind == WriteAccess then op.value else Top(d, m))
            && (Holds(d'.h.l1Data, m) && !HoldsDirty(d'.h.l1Data, m) ==>
                  At(d'.l1, m) == Below(d'.h.l2, d'.l2, d'.memory, m))
  {
    hide Access, L2Data, Holds, HoldsDirty;
    var d', seen := DataStep(d, op).0, DataStep(d, op).1;
    var l := LineOf(d.h.l2.geo, op.address);
    var old1, new1 := d.h.l1Data, d'.h.l1Data;
    var o := AccessHierarchy(d.h, op.address, op.kind);
    assert new1 == Access(old1, op.address, op.kind).0 && o.l1 == Access(old1, op.address, op.kind).1;
    assert d'.l1 == if o.l1.lineInstalled then d.l1[l := seen] else d.l1;
    MissBelow(d, op);
    AccessEffect(old1, op.address, op.kind);
    VictimOrSurvivor(old1, new1, o.l1, l, m, op.kind == WriteAccess, op.value, d.l1, seen,
                     Below(d.h.l2, d.l2, d.memory, m), Below(d'.h.l2, d'.l2, d'.memory, m));
  }

  /** The case split behind `MissLine`: `m` is the filled line, the victim, or neither. */
  lemma VictimOrSurvivor(c: CacheState, c': CacheState, r: AccessResult, l: nat, m: nat, write: bool, value: nat,
                         data: map<nat, nat>, seen: nat, below: nat, below': nat)
    requires CacheOk(c) && CacheOk(c') && c'.geo == c.geo && c.cfg.writePolicy == WriteBack
    requires LevelEffect(c, c', l, write, r) && !r.hit
    requires Holds(c, m) && !HoldsDirty(c, m) ==> At(data, m) == below
    requires below' == if m == l && write then value
                       else if r.writebackNeeded && PushesOut(c.geo, r, m) then At(data, m) else below
    requires m == l ==> seen == below'
    ensures var data' := if r.lineInstalled then data[l := seen] else data;
            && (if Holds(c', m) then At(data', m) else below')
               == (if m == l && write then value else if Holds(c, m) then At(data, m) else below)
            && (Holds(c', m) && !HoldsDirty(c', m) ==> At(data', m) == below')
  {
    if m == l {
      assert !Holds(c, m);
    } else if PushesOut(c.geo, r, m) {
      assert Holds(c, m) && !Holds(c', m);
    } else {
      assert Holds(c', m) <==> Holds(c, m);
    }
  }

  // ---- Whole runs ----

  ghost predicate LegalOps(ops: seq<MemOp>) {
    forall i | 0 <= i < |ops| :: ops[i].address < WORD
  }

  ghost predicate UnifiedConfig(cfg: HierarchyConfig) {
    && ConfigOk(cfg) && !cfg.splitL1 && cfg.l1Data.lineSize == cfg.l2.lineSize
    && cfg.inclusion == NonInclusiveNonExclusive
  }

  ghost function StartData(cfg: HierarchyConfig): DataState
    requires ConfigOk(cfg)
  {
    DataState(Start(cfg), map[], map[], map[])
  }

  lemma DataStepSetup(d: DataState, op: MemOp)
    requires Setup(d.h) && op.address < WORD
    ensures Setup(DataStep(d, op).0.h) && SameShape(d.h, DataStep(d, op).0.h)
  {
    AccessHierarchyOk(d.h, op.address, op.kind);
  }

  ghost function RunData(d: DataState, ops: seq<MemOp>): (d': DataState)
    requires Setup(d.h) && LegalOps(ops)
    ensures Setup(d'.h) && SameShape(d.h, d'.h)
  {
    if ops == [] then d
    else
      var n := |ops| - 1;
      var before := RunData(d, ops[..n]);
      DataStepSetup(before, ops[n]);
      DataStep(before, ops[n]).0
  }

  function RunFlat(g: Geometry, ops: seq<MemOp>): map<nat, nat>
    requires g.lineSize > 0
  {
    if ops == [] then map[]
    else FlatStep(g, RunFlat(g, ops[..|ops| - 1]), ops[|ops| - 1])
  }

  /**
   A non-inclusive hierarchy with a write-back unified L1 is a memory: after every run the
   topmost copy of every line is the last value written to it, whatever the replacement,
   write and allocation policies of either level otherwise are.
   */
  lemma {:induction false} HierarchyIsMemory(cfg: HierarchyConfig, ops: seq<MemOp>)
    requires UnifiedConfig(cfg) && cfg.l1Data.writePolicy == WriteBack && LegalOps(ops)
    ensures var d := RunData(StartData(cfg), ops);
            CleanCopiesMatch(d) && Refines(d, RunFlat(d.h.l2.geo, ops))
  {
    if ops != [] {
      var n := |ops| - 1;
      HierarchyIsMemory(cfg, ops[..n]);
      var d := RunData(StartData(cfg), ops[..n]);
      RefinementStep(d, ops[n], RunFlat(d.h.l2.geo, ops[..n]));
    }
  }

  /** In particular every read at the end of any run returns the last value written. */
  lemma ReadsReturnLastWrite(cfg: HierarchyConfig, ops: seq<MemOp>, op: MemOp)
    requires UnifiedConfig(cfg) && cfg.l1Data.writePolicy == WriteBack && LegalOps(ops)
    requires op.address < WORD && op.kind != WriteAccess
    ensures var d := RunData(StartData(cfg), ops);
            DataStep(d, op).1 == At(RunFlat(d.h.l2.geo, ops), LineOf(d.h.l2.geo, op.address))
  {
    HierarchyIsMemory(cfg, ops);
    var d := RunData(StartData(cfg), ops);
    RefinementStep(d, op, RunFlat(d.h.l2.geo, ops));
  }

  // ---- Where the memory semantics fails ----

  /** A miss without writeback only adds the accessed line to what L2 was asked for. */
  lemma MissBelowAnyPolicy(d: DataState, op: MemOp)
    requires Setup(d.h) && d.h.cfg.inclusion == NonInclusiveNonExclusive && op.address < WORD
    requires L2Clean(d.h.l2, d.l2, d.memory) && op.kind == ReadAccess
    requires var r := Access(d.h.l1Data, op.address, op.kind).1; !r.hit && !r.writebackNeeded
    ensures var d' := DataStep(d, op).0;
            CacheOk(d'.h.l2) && L2Clean(d'.h.l2, d'.l2, d'.memory) && forall m: nat ::
              Below(d'.h.l2, d'.l2, d'.memory, m) == Below(d.h.l2, d.l2, d.memory, m)
  {
    AccessEffect(d.h.l1Data, op.address, op.kind);
    L2Step(d.h.l2, d.l2, d.memory, op.address, L2Kind(op.kind), op.value);
  }

  /** The k-th line of set 0 of an L1, by its address; one more than fit in the set. */
  function Colliding(g: Geometry, k: nat): nat
    requires g.lineSize > 0
  {
    MulNonNegative(k, g.numSets);
    MulNonNegative(k * g.numSets, g.lineSize);
    k * g.numSets * g.lineSize
  }

  /** Read, then overwrite, each of the first `n` of those lines. */
  function StaleTrace(g: Geometry, n: nat): seq<MemOp>
    requires g.lineSize > 0
  {
    if n == 0 then []
    else
      var a := Colliding(g, n - 1);
      StaleTrace(g, n - 1) + [MemOp(a, ReadAccess, 0), MemOp(a, WriteAccess, 1)]
  }

  lemma CollidingLine(g: Geometry, k: nat)
    requires GeometryOk(g)
    ensures k <= g.ways && g.numSets * g.ways * g.lineSize < WORD ==> Colliding(g, k) < WORD
    ensures LineOf(g, Colliding(g, k)) == k * g.numSets && MapsToSetZero(g, k)
  {
    MulNonNegative(k, g.numSets);
    if k <= g.ways {
      CapacityGrows(k, g.ways, g.numSets, g.lineSize);
    }
    DivModUnique(Colliding(g, k), g.lineSize, k * g.numSets, 0);
    DivModUnique(k * g.numSets, g.numSets, k, 0);
  }

  ghost predicate MapsToSetZero(g: Geometry, k: nat)
    requires g.numSets >= 1
  {
    MulNonNegative(k, g.numSets);
    SetOf(g, k * g.numSets) == 0 && TagOf(g, k * g.numSets) == k
  }

  lemma CapacityGrows(k: nat, ways: nat, sets: nat, lineSize: nat)
    requires k <= ways
    ensures k * sets * lineSize <= sets * ways * lineSize
  {
    MulNonNegative(ways - k, sets);
    MulNonNegative((ways - k) * sets, lineSize);
    calc {
      sets * ways * lineSize - k * sets * lineSize;
      (sets * ways - k * sets) * lineSize;
      { assert sets * ways - k * sets == (ways - k) * sets; }
      (ways - k) * sets * lineSize;
    }
  }

  /** One of them is always missing from the cache: the set has only `ways` ways. */
  lemma OneIsMissing(c: CacheState) returns (k: nat)
    requires CacheOk(c)
    ensures k <= c.geo.ways && k * c.geo.numSets >= 0 && !Holds(c, k * c.geo.numSets)
  {
    var lines, n := c.sets[0].lines, c.geo.ways;
    if forall j: nat | j <= n :: FindWay(lines, j).Some? {
      var ways := seq(n + 1, j requires 0 <= j <= n => FindWay(lines, j).value);
      assert NoDup(ways);
      NoDupCardinality(ways);
      assert forall w | w in Elements(ways) :: w in Range(n);
      SubsetCardinality(Elements(ways), Range(n));
      assert false;
    }
    k :| k <= n && FindWay(lines, k).None?;
    MulNonNegative(k, c.geo.numSets);
    CollidingLine(c.geo, k);
  }

  /** Nothing written so far has gone further than a write-through L1. */
  ghost predicate NothingBelow(d: DataState) {
    && Setup(d.h) && d.h.cfg.inclusion == NonInclusiveNonExclusive && d.h.l1Data.cfg.writePolicy == WriteThrough
    && L2Clean(d.h.l2, d.l2, d.memory)
    && forall m: nat :: Below(d.h.l2, d.l2, d.memory, m) == 0
  }

  /** The read brings the line into L1, so the write hits there and is not passed on. */
  lemma OverwriteStaysInL1(d: DataState, address: nat)
    requires NothingBelow(d) && address < WORD
    ensures var read := DataStep(d, MemOp(address, ReadAccess, 0)).0;
            && Setup(read.h) && SameShape(d.h, read.h)
            && var d' := DataStep(read, MemOp(address, WriteAccess, 1)).0;
               NothingBelow(d') && SameShape(d.h, d'.h)
  {
    var read, l := DataStep(d, MemOp(address, ReadAccess, 0)).0, LineOf(d.h.l2.geo, address);
    ReadLeavesNothingBelow(d, address);
    WriteHitStaysInL1(read, address);
  }

  lemma ReadLeavesNothingBelow(d: DataState, address: nat)
    requires NothingBelow(d) && address < WORD
    ensures var d' := DataStep(d, MemOp(address, ReadAccess, 0)).0;
            NothingBelow(d') && SameShape(d.h, d'.h) && Holds(d'.h.l1Data, LineOf(d.h.l2.geo, address))
  {
    var op, c := MemOp(address, ReadAccess, 0), d.h.l1Data;
    DataStepSetup(d, op);
    AccessEffect(c, address, ReadAccess);
    var r := Access(c, address, ReadAccess).1;
    if !r.hit {
      if r.evicted {
        NeverDirty(c, LineOf(c.geo, r.evictedAddress));
      }
      MissBelowAnyPolicy(d, op);
    }
  }

  lemma WriteHitStaysInL1(d: DataState, address: nat)
    requires NothingBelow(d) && address < WORD && Holds(d.h.l1Data, LineOf(d.h.l2.geo, address))
    ensures var d' := DataStep(d, MemOp(address, WriteAccess, 1)).0;
            NothingBelow(d') && SameShape(d.h, d'.h)
  {
    hide Access;
    DataStepSetup(d, MemOp(address, WriteAccess, 1));
    AccessEffect(d.h.l1Data, address, WriteAccess);
  }

  lemma NeverDirty(c: CacheState, m: nat)
    requires CacheOk(c) && c.cfg.writePolicy == WriteThrough
    ensures !HoldsDirty(c, m)
  {
    assert SetOk(c.cfg, c.sets[SetOf(c.geo, m)]);
  }

  lemma LastOp(d: DataState, ops: seq<MemOp>, op: MemOp)
    requires Setup(d.h) && LegalOps(ops) && op.address < WORD
    ensures LegalOps(ops + [op])
    ensures RunData(d, ops + [op]) == DataStep(RunData(d, ops), op).0
  {
    hide DataStep, Setup, SameShape;
    assert (ops + [op])[..|ops|] == ops;
  }

  /** Below L1 all lines stay zero along the trace ... */
  lemma {:induction false} StaleRun(d: DataState, g: Geometry, n: nat)
    requires Setup(d.h) && NothingBelow(d) && d.h.l1Data.geo == g && n <= g.ways + 1
    requires GeometryOk(g) && g.lineSize > 0 && g.numSets * g.ways * g.lineSize < WORD
    ensures LegalOps(StaleTrace(g, n))
    ensures NothingBelow(RunData(d, StaleTrace(g, n)))
  {
    hide DataStep, Setup, GeometryOk, NothingBelow, RunData, Colliding;
    if n == 0 {
      assert RunData(d, []) == d by { NoOps(d); }
    } else {
      StaleRun(d, g, n - 1);
      var ops, a := StaleTrace(g, n - 1), Colliding(g, n - 1);
      var read, write := MemOp(a, ReadAccess, 0), MemOp(a, WriteAccess, 1);
      CollidingLine(g, n - 1);
      OverwriteStaysInL1(RunData(d, ops), a);
      LastOp(d, ops, read);
      LastOp(d, ops + [read], write);
      assert ops + [read] + [write] == StaleTrace(g, n);
    }
  }

  lemma NoOps(d: DataState)
    requires Setup(d.h)
    ensures RunData(d, []) == d
  {}

  /** ... where each line read should give one. */
  lemma {:induction false} StaleFlat(g: Geometry, n: nat, k: nat)
    requires GeometryOk(g) && k < n <= g.ways + 1
    ensures At(RunFlat(g, StaleTrace(g, n)), k * g.numSets) == 1
  {
    var ops, all, a := StaleTrace(g, n - 1), StaleTrace(g, n), Colliding(g, n - 1);
    CollidingLine(g, n - 1);
    assert all[..|all| - 1] == ops + [MemOp(a, ReadAccess, 0)] && (ops + [MemOp(a, ReadAccess, 0)])[..|ops|] == ops;
    assert RunFlat(g, all) == RunFlat(g, ops)[(n - 1) * g.numSets := 1];
    if k < n - 1 {
      StaleFlat(g, n - 1, k);
    }
  }

  lemma ColdBelow(cfg: HierarchyConfig)
    requires UnifiedConfig(cfg) && cfg.l1Data.writePolicy == WriteThrough
    ensures var g, d := Cold(cfg.l1Data).geo, StartData(cfg);
            && GeometryOk(g) && g.numSets * g.ways * g.lineSize < WORD
            && Setup(d.h) && NothingBelow(d) && d.h.l1Data.geo == g
  {
    GeometryFacts(cfg.l1Data);
  }

  lemma Disagrees(d: DataState, flat: map<nat, nat>, m: nat)
    requires Setup(d.h) && NothingBelow(d) && !Holds(d.h.l1Data, m) && At(flat, m) == 1
    ensures !Refines(d, flat)
  {
    assert Top(d, m) == 0;
  }

  /** A write-through L1, of whatever shape and replacement policy, loses a write. */
  lemma WriteThroughLosesWrite(cfg: HierarchyConfig) returns (ops: seq<MemOp>)
    requires UnifiedConfig(cfg) && cfg.l1Data.writePolicy == WriteThrough
    ensures LegalOps(ops)
    ensures var d := RunData(StartData(cfg), ops); !Refines(d, RunFlat(d.h.l2.geo, ops))
  {
    hide RunData, RunFlat, StaleTrace, NothingBelow, Refines, Cold, Start, Holds;
    ColdBelow(cfg);
    var g := Cold(cfg.l1Data).geo;
    StaleRun(StartData(cfg), g, g.ways + 1);
    ops := StaleTrace(g, g.ways + 1);
    var d := RunData(StartData(cfg), ops);
    var k := OneIsMissing(d.h.l1Data);
    StaleFlat(g, g.ways + 1, k);
    SameFlat(g, d.h.l2.geo, ops);
    Disagrees(d, RunFlat(g, ops), k * g.numSets);
  }

  lemma {:induction false} SameFlat(g: Geometry, h: Geometry, ops: seq<MemOp>)
    requires g.lineSize == h.lineSize > 0
    ensures RunFlat(g, ops) == RunFlat(h, ops)
  {
    if ops != [] {
      SameFlat(g, h, ops[..|ops| - 1]);
    }
  }

  /**
   So the hierarchy is a memory on every run exactly when its L1 is write-back; the documented
   write-through contract, that the next level always has the data, is not met.
   */
  lemma MemoryIffWriteBack(cfg: HierarchyConfig)
    requires UnifiedConfig(cfg)
    ensures (forall ops | LegalOps(ops) ::
               var d := RunData(StartData(cfg), ops); Refines(d, RunFlat(d.h.l2.geo, ops)))
            <==> cfg.l1Data.writePolicy == WriteBack
  {
    hide Refines, RunData, RunFlat;
    if cfg.l1Data.writePolicy == WriteBack {
      forall ops | LegalOps(ops)
        ensures var d := RunData(StartData(cfg), ops); Refines(d, RunFlat(d.h.l2.geo, ops))
      {
        HierarchyIsMemory(cfg, ops);
      }
    } else {
      var ops := WriteThroughLosesWrite(cfg);
    }
  }
}
