/** The set-level replacement results, stated for a whole cache and any address trace. */
module CacheTraces {
  import opened Basics
  import opened Bits
  import opened EvictionPolicy
  import opened CacheGeometry
  import opened CacheModel
  import opened Replacement

  /** A trace without invalidations in which every miss fills a line. */
  ghost predicate Installing(cfg: CacheConfig, ops: seq<CacheOp>) {
    && Addresses(ops)
    && forall i | 0 <= i < |ops| :: ops[i].Touch? && Installs(cfg, ops[i].kind == WriteAccess)
  }

  function LineTouched(g: Geometry, op: CacheOp): nat
    requires g.lineSize > 0
  {
    LineOf(g, op.address)
  }

  /** The requests a trace makes to set `i`, in order. */
  ghost function Project(g: Geometry, ops: seq<CacheOp>, i: nat): seq<Request>
    requires GeometryOk(g) && forall j | 0 <= j < |ops| :: ops[j].Touch?
  {
    if ops == [] then []
    else
      var n := |ops| - 1;
      var l := LineTouched(g, ops[n]);
      var rest := Project(g, ops[..n], i);
      if SetOf(g, l) == i then rest + [Request(TagOf(g, l), ops[n].kind == WriteAccess)] else rest
  }

  lemma {:induction false} ProjectInstalls(g: Geometry, cfg: CacheConfig, ops: seq<CacheOp>, i: nat)
    requires GeometryOk(g) && Installing(cfg, ops)
    ensures AllInstall(cfg, Project(g, ops, i))
  {
    if ops != [] {
      ProjectInstalls(g, cfg, ops[..|ops| - 1], i);
    }
  }

  /** Sets do not interfere: each evolves by its own requests alone. */
  lemma {:induction false} RunProjects(c: CacheState, ops: seq<CacheOp>, i: nat)
    requires CacheOk(c) && Installing(c.cfg, ops) && i < c.geo.numSets
    ensures RunOps(c, ops).sets[i] == SetRun(c.cfg, c.sets[i], Project(c.geo, ops, i))
  {
    if ops != [] {
      var n := |ops| - 1;
      RunProjects(c, ops[..n], i);
      AccessedSet(c.geo, ops[n].address);
      var rest, l := Project(c.geo, ops[..n], i), LineTouched(c.geo, ops[n]);
      if SetOf(c.geo, l) == i {
        var whole := rest + [Request(TagOf(c.geo, l), ops[n].kind == WriteAccess)];
        assert whole[..|whole| - 1] == rest;
      }
    }
  }

  /** Tags used in the set of `line` by a trace. */
  ghost function SetTags(g: Geometry, ops: seq<CacheOp>, line: nat): seq<nat>
    requires GeometryOk(g) && forall j | 0 <= j < |ops| :: ops[j].Touch?
  {
    Tags(Project(g, ops, SetOf(g, line)))
  }

  /** The set of `line` had fewer than `ways` other lines used since its own last use. */
  ghost predicate RecentlyUsed(g: Geometry, ops: seq<CacheOp>, line: nat, ways: nat)
    requires GeometryOk(g) && forall j | 0 <= j < |ops| :: ops[j].Touch?
  {
    var tags := SetTags(g, ops, line);
    TagOf(g, line) in tags && |UsedSince(tags, TagOf(g, line))| < ways
  }

  /** From a cold LRU cache, a line is resident exactly when its reuse distance is below the configured ways. */
  lemma LruResidency(cfg: CacheConfig, ops: seq<CacheOp>, line: nat)
    requires Constructible(cfg) && cfg.eviction == KindLRU
    requires Installing(cfg, ops)
    ensures var c := Initial(cfg);
            cfg.lineSize > 0 && (Holds(RunOps(c, ops), line) <==> RecentlyUsed(c.geo, ops, line, ConfiguredWays(cfg)))
  {
    var c := Initial(cfg);
    var i := SetOf(c.geo, line);
    WaysAsConfigured(cfg);
    RunProjects(c, ops, i);
    ProjectInstalls(c.geo, cfg, ops, i);
    ResidentIffReuseBelowWays(cfg, c.sets[i], Project(c.geo, ops, i), TagOf(c.geo, line));
  }

  /** Hence each access hits exactly when its reuse distance is below the associativity. */
  lemma HitIffReuseDistance(cfg: CacheConfig, ops: seq<CacheOp>, address: nat, kind: AccessType)
    requires Constructible(cfg) && cfg.eviction == KindLRU
    requires Installing(cfg, ops) && address < WORD
    ensures var c := Initial(cfg);
            cfg.lineSize > 0
            && (Access(RunOps(c, ops), address, kind).1.hit
                <==> RecentlyUsed(c.geo, ops, LineOf(c.geo, address), ConfiguredWays(cfg)))
  {
    var c := Initial(cfg);
    LruResidency(cfg, ops, LineOf(c.geo, address));
    AccessEffect(RunOps(c, ops), address, kind);
  }

  ghost predicate SameSets(small: CacheConfig, large: CacheConfig) {
    && Constructible(small) && Constructible(large)
    && small.eviction == KindLRU && large.eviction == KindLRU
    && small.lineSize == large.lineSize
    && Initial(small).geo.numSets == Initial(large).geo.numSets
    && Initial(small).geo.ways <= Initial(large).geo.ways
  }

  lemma {:induction false} SameProjection(g: Geometry, h: Geometry, ops: seq<CacheOp>, i: nat)
    requires GeometryOk(g) && GeometryOk(h) && g.lineSize == h.lineSize && g.numSets == h.numSets
    requires forall j | 0 <= j < |ops| :: ops[j].Touch?
    ensures Project(g, ops, i) == Project(h, ops, i)
  {
    if ops != [] {
      SameProjection(g, h, ops[..|ops| - 1], i);
    }
  }

  /** LRU inclusion: after the same trace, more ways hold a superset of the lines. */
  lemma MoreWaysHoldMore(small: CacheConfig, large: CacheConfig, ops: seq<CacheOp>, line: nat)
    requires SameSets(small, large) && Installing(small, ops) && Installing(large, ops)
    requires Holds(RunOps(Initial(small), ops), line)
    ensures Holds(RunOps(Initial(large), ops), line)
  {
    var g, h := Initial(small).geo, Initial(large).geo;
    WaysAsConfigured(small);
    WaysAsConfigured(large);
    LruResidency(small, ops, line);
    LruResidency(large, ops, line);
    SameProjection(g, h, ops, SetOf(g, line));
  }

  /** So adding ways never loses a hit. */
  lemma {:induction false} MoreWaysHitMore(small: CacheConfig, large: CacheConfig, ops: seq<CacheOp>)
    requires SameSets(small, large) && Installing(small, ops) && Installing(large, ops)
    ensures RunOps(Initial(small), ops).stats.hits <= RunOps(Initial(large), ops).stats.hits
  {
    if ops != [] {
      var n := |ops| - 1;
      MoreWaysHitMore(small, large, ops[..n]);
      var s, l := RunOps(Initial(small), ops[..n]), RunOps(Initial(large), ops[..n]);
      AccessCounts(s, ops[n].address, ops[n].kind);
      AccessCounts(l, ops[n].address, ops[n].kind);
      AccessEffect(s, ops[n].address, ops[n].kind);
      AccessEffect(l, ops[n].address, ops[n].kind);
      if Holds(s, LineTouched(s.geo, ops[n])) {
        MoreWaysHoldMore(small, large, ops[..n], LineTouched(s.geo, ops[n]));
      }
    }
  }

  // ---- Windows that fit ----

  /** Misses on `line` while `ops` runs from `c`. */
  ghost function MissesOn(c: CacheState, ops: seq<CacheOp>, line: nat): nat
    requires CacheOk(c) && Installing(c.cfg, ops)
  {
    if ops == [] then 0
    else
      var n := |ops| - 1;
      var before := RunOps(c, ops[..n]);
      MissesOn(c, ops[..n], line)
      + if LineTouched(c.geo, ops[n]) == line && !Access(before, ops[n].address, ops[n].kind).1.hit then 1 else 0
  }

  /** The window uses at most as many lines of the set of `line` as the set has ways. */
  ghost predicate FitsSet(g: Geometry, ops: seq<CacheOp>, line: nat)
    requires GeometryOk(g) && forall j | 0 <= j < |ops| :: ops[j].Touch?
  {
    |Elements(SetTags(g, ops, line))| <= g.ways
  }

  /** A miss on `line` is a miss of its tag in its set. */
  lemma MissOn(c: CacheState, address: nat, kind: AccessType, line: nat)
    requires CacheOk(c)
    ensures var l, i := LineOf(c.geo, address), SetOf(c.geo, line);
            && (l == line <==> SetOf(c.geo, l) == i && TagOf(c.geo, l) == TagOf(c.geo, line))
            && SetOk(c.cfg, c.sets[i])
            && (l == line ==>
                  Access(c, address, kind).1.hit
                  == SetAccess(c.cfg, c.sets[i], TagOf(c.geo, line), kind == WriteAccess).1.hit)
  {
    var l := LineOf(c.geo, address);
    AccessedSet(c.geo, address);
    LineSplit(c.geo, l, TagOf(c.geo, line), SetOf(c.geo, line));
    LineSplit(c.geo, line, TagOf(c.geo, line), SetOf(c.geo, line));
  }

  lemma {:induction false} MissesProject(c: CacheState, ops: seq<CacheOp>, line: nat)
    requires CacheOk(c) && Installing(c.cfg, ops)
    ensures var i := SetOf(c.geo, line);
            MissesOn(c, ops, line) == SetMisses(c.cfg, c.sets[i], Project(c.geo, ops, i), TagOf(c.geo, line))
  {
    hide Access, SetOk, LineFits, SetRun, RunOps;
    if ops != [] {
      var n, i := |ops| - 1, SetOf(c.geo, line);
      MissesProject(c, ops[..n], line);
      RunProjects(c, ops[..n], i);
      MissOn(RunOps(c, ops[..n]), ops[n].address, ops[n].kind, line);
      var l, rest := LineTouched(c.geo, ops[n]), Project(c.geo, ops[..n], i);
      if SetOf(c.geo, l) == i {
        var whole := rest + [Request(TagOf(c.geo, l), ops[n].kind == WriteAccess)];
        assert whole[..|whole| - 1] == rest;
      }
    }
  }

  /**
   From any well-formed state, LRU or FIFO, every line misses at most once during a window
   that fits its set.
   */
  lemma OneMissPerWindow(c: CacheState, ops: seq<CacheOp>, line: nat)
    requires CacheOk(c) && c.cfg.eviction in {KindLRU, KindFIFO}
    requires Installing(c.cfg, ops) && FitsSet(c.geo, ops, line)
    ensures MissesOn(c, ops, line) <= 1
  {
    var i := SetOf(c.geo, line);
    MissesProject(c, ops, line);
    ProjectInstalls(c.geo, c.cfg, ops, i);
    var k := WindowInvariant(c.cfg, c.sets[i], Project(c.geo, ops, i));
  }

  /** Under LRU every line used in such a window is still there at its end. */
  lemma WindowRetained(c: CacheState, ops: seq<CacheOp>, line: nat)
    requires CacheOk(c) && c.cfg.eviction == KindLRU
    requires Installing(c.cfg, ops) && FitsSet(c.geo, ops, line)
    requires TagOf(c.geo, line) in SetTags(c.geo, ops, line)
    ensures Holds(RunOps(c, ops), line)
  {
    var i := SetOf(c.geo, line);
    var reqs := Project(c.geo, ops, i);
    RunProjects(c, ops, i);
    ProjectInstalls(c.geo, c.cfg, ops, i);
    var k := WindowInvariant(c.cfg, c.sets[i], reqs);
    NewestIsContents(c.cfg, SetRun(c.cfg, c.sets[i], reqs));
  }
}
