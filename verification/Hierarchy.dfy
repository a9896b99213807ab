/** The `CacheHierarchy` object: two or three caches driven in place. */
module HierarchyObject {
  import opened Basics
  import opened Bits
  import opened CacheGeometry
  import opened CacheObject
  import M = CacheModel
  import H = HierarchyModel

  method MakeCache(config: CacheConfig) returns (c: Cache, ghost repr: set<object>)
    requires M.Constructible(config)
    ensures c.Valid() && c.View() == M.Initial(config)
    ensures repr == c.Footprint() && fresh(repr)
  {
    c := new Cache(config);
    repr := c.Footprint();
  }

  class CacheHierarchy {
    const cfg: H.HierarchyConfig
    const l1Data: Cache
    const l1Instr: Cache?
    const l2: Cache

    ghost const dataRepr: set<object>
    ghost const instrRepr: set<object>
    ghost const l2Repr: set<object>

    ghost function Footprint(): set<object> {
      dataRepr + instrRepr + l2Repr
    }

    /** The three caches share no object. */
    ghost predicate Separate() {
      && dataRepr == l1Data.Footprint() && l2Repr == l2.Footprint()
      && (l1Instr != null ==> instrRepr == l1Instr.Footprint())
      && dataRepr !! l2Repr && instrRepr !! dataRepr && instrRepr !! l2Repr
    }

    ghost function InstrView(): Option<M.CacheState>
      requires Separate()
      reads instrRepr
    {
      if l1Instr == null then None else Some(l1Instr.View())
    }

    ghost function View(): H.HierarchyState
      requires Separate()
      reads Footprint()
    {
      H.HierarchyState(cfg, l1Data.View(), InstrView(), l2.View())
    }

    ghost predicate Valid()
      reads Footprint()
      ensures Valid() ==> Separate() && H.HierarchyOk(View())
    {
      && Separate()
      && l1Data.Valid() && l2.Valid() && (l1Instr != null ==> l1Instr.Valid())
      && H.HierarchyOk(View())
    }

    constructor (config: H.HierarchyConfig)
      requires H.ConfigOk(config)
      ensures Valid() && View() == H.Start(config) && fresh(Footprint())
    {
      hide Cache.Valid, Cache.View, Cache.Footprint, M.CacheOk, M.Constructible, M.Initial;
      cfg := config;
      var d, dr := MakeCache(config.l1Data);
      var i: Cache? := null;
      ghost var ir: set<object> := {};
      if config.splitL1 {
        i, ir := MakeCache(config.l1Instruction);
      }
      var b, br := MakeCache(config.l2);
      l1Data, l1Instr, l2 := d, i, b;
      dataRepr, instrRepr, l2Repr := dr, ir, br;
    }

    /** The L1 that serves this kind of access. */
    method AccessL1(address: nat, kind: AccessType) returns (r: M.AccessResult)
      requires Valid() && address < WORD
      modifies dataRepr, instrRepr
      ensures Valid()
      ensures View() == H.WithL1(old(View()), kind, M.Access(H.SelectL1(old(View()), kind), address, kind).0)
      ensures r == M.Access(H.SelectL1(old(View()), kind), address, kind).1
      ensures l1Instr != null && kind == InstructionFetch ==>
                && (View().l1Instr.value, r) == M.Access(old(View()).l1Instr.value, address, kind)
                && View().l1Data == old(View()).l1Data
      ensures !(l1Instr != null && kind == InstructionFetch) ==>
                && (View().l1Data, r) == M.Access(old(View()).l1Data, address, kind)
                && View().l1Instr == old(View()).l1Instr
    {
      hide Cache.Valid, Cache.View, Cache.Footprint, M.CacheOk, M.Access, M.Invalidate;
      if l1Instr != null && kind == InstructionFetch {
        r := l1Instr.Access(address, kind);
      } else {
        r := l1Data.Access(address, kind);
      }
    }

    /** Inclusion-policy enforcement after the L2 access. */
    method EnforceInclusion(address: nat, r: M.AccessResult)
      requires Valid() && address < WORD && (r.evicted ==> r.evictedAddress < WORD)
      modifies Footprint()
      ensures Valid() && View() == H.Enforce(old(View()), address, r)
    {
      hide Cache.Valid, Cache.View, Cache.Footprint, M.CacheOk, M.Access, M.Invalidate;
      H.EnforceOk(View(), address, r);
      if cfg.inclusion == H.Inclusive && r.evicted {
        var found, wasDirty := l1Data.Invalidate(r.evictedAddress);
        if l1Instr != null {
          found, wasDirty := l1Instr.Invalidate(r.evictedAddress);
        }
      } else if cfg.inclusion == H.Exclusive && r.hit {
        var found, wasDirty := l2.Invalidate(address);
      }
    }

    method Access(address: nat, kind: AccessType) returns (hr: H.HierarchyResult)
      requires Valid() && address < WORD
      modifies Footprint()
      ensures Valid()
      ensures View() == H.AccessHierarchy(old(View()), address, kind).state
      ensures hr == H.AccessHierarchy(old(View()), address, kind).result
    {
      hide Cache.Valid, Cache.View, Cache.Footprint, M.CacheOk, M.Access, M.Invalidate;
      ghost var before := View();
      M.AccessEffect(H.SelectL1(before, kind), address, kind);
      var l1 := AccessL1(address, kind);
      if l1.hit {
        return H.HierarchyResult(true, false);
      }
      H.WritebackOk(before.l2, l1);
      if l1.evicted && l1.writebackNeeded {
        var discarded := l2.Access(l1.evictedAddress, WriteAccess);
      }
      assert l2.View() == H.Writeback(before.l2, l1).0;
      M.AccessEffect(l2.View(), address, H.L2Kind(kind));
      var r := l2.Access(address, if kind == InstructionFetch then ReadAccess else kind);
      EnforceInclusion(address, r);
      hr := H.HierarchyResult(false, r.hit);
    }
  }

  function ConfigError(config: H.HierarchyConfig): Option<GeometryError> {
    if DeriveGeometry(config.l1Data).Err? then Some(DeriveGeometry(config.l1Data).error)
    else if config.splitL1 && DeriveGeometry(config.l1Instruction).Err? then
      Some(DeriveGeometry(config.l1Instruction).error)
    else if DeriveGeometry(config.l2).Err? then Some(DeriveGeometry(config.l2).error)
    else None
  }

  /** The levels are built in this order; the first one that is refused decides the error. */
  method CreateHierarchy(config: H.HierarchyConfig) returns (r: Result<CacheHierarchy, GeometryError>)
    requires config.l1Data.cacheSize < WORD && config.l2.cacheSize < WORD && config.l1Instruction.cacheSize < WORD
    ensures r.Ok? <==> H.ConfigOk(config)
    ensures r.Err? ==>
              Err(r.error) == if DeriveGeometry(config.l1Data).Err? then DeriveGeometry(config.l1Data)
                              else if config.splitL1 && DeriveGeometry(config.l1Instruction).Err?
                              then DeriveGeometry(config.l1Instruction)
                              else DeriveGeometry(config.l2)
    ensures r.Ok? ==> r.value.Valid() && r.value.View() == H.Start(config) && fresh(r.value.Footprint())
  {
    hide CacheHierarchy.Valid, CacheHierarchy.View, H.HierarchyOk, H.Start, DeriveGeometry;
    var e := ConfigError(config);
    if e.Some? {
      return Err(e.value);
    }
    var h := new CacheHierarchy(config);
    r := Ok(h);
  }
}
