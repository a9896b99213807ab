/** The `Cache` object: arrays of lines and policy objects updated in place. */
module CacheObject {
  import opened Basics
  import opened Bits
  import opened CacheGeometry
  import opened PolicyObjects
  import P = EvictionPolicy
  import M = CacheModel

  /** One set: its line array and the policy object it owns. */
  class CacheSet {
    const lines: array<M.CacheLine>
    const policy: PolicyRef

    constructor (lines: array<M.CacheLine>, policy: PolicyRef)
      ensures this.lines == lines && this.policy == policy
    {
      this.lines, this.policy := lines, policy;
    }

    ghost function View(): M.SetState
      reads lines, policy.Obj()
    {
      M.SetState(lines[..], policy.View())
    }

    /** Policy and line array live in different objects. */
    ghost predicate Apart() {
      policy.Obj() != lines
    }

    ghost predicate IsNew(cfg: CacheConfig, ways: nat)
      reads lines, policy.Obj()
    {
      && Apart() && policy.Valid()
      && View() == M.SetState(seq(ways, _ => M.CacheLine(false, false, 0)), P.Fresh(cfg.eviction))
    }

    method FindWay(tag: nat) returns (r: Option<nat>)
      ensures r == M.FindWay(lines[..], tag)
    {
      var way := 0;
      while way < lines.Length
        invariant way <= lines.Length
        invariant forall w | 0 <= w < way :: !M.Matches(lines[..][w], tag)
      {
        if lines[way].valid && lines[way].tag == tag {
          assert M.Matches(lines[..][way], tag);
          return Some(way);
        }
        way := way + 1;
      }
      r := None;
    }

    method FindFreeWay() returns (r: Option<nat>)
      ensures r == M.FindFreeWay(lines[..])
    {
      var way := 0;
      while way < lines.Length
        invariant way <= lines.Length
        invariant forall w | 0 <= w < way :: lines[..][w].valid
      {
        if !lines[way].valid {
          assert !lines[..][way].valid;
          return Some(way);
        }
        way := way + 1;
      }
      r := None;
    }

    /** The hit path on the set: recency update, and the dirty bit under write-back. */
    method Hit(cfg: CacheConfig, tag: nat, way: nat, write: bool)
      requires Apart() && policy.Valid() && M.SetOk(cfg, View())
      requires M.FindWay(View().lines, tag) == Some(way)
      modifies lines, policy.Obj()
      ensures policy.Valid() && View() == M.SetAccess(cfg, old(View()), tag, write).0
    {
      policy.OnAccess(way);
      if write && cfg.writePolicy == WriteBack {
        lines[way] := lines[way].(dirty := true);
      }
      assert lines[..] == M.SetAccess(cfg, old(View()), tag, write).0.lines;
    }

    /** The fill path: an invalid way if there is one, else the policy's victim. */
    method Fill(cfg: CacheConfig, tag: nat, write: bool) returns (victim: Option<M.CacheLine>)
      requires Apart() && policy.Valid() && M.SetOk(cfg, View())
      requires M.FindWay(View().lines, tag).None? && M.Installs(cfg, write)
      modifies lines, policy.Obj()
      ensures policy.Valid() && View() == M.SetAccess(cfg, old(View()), tag, write).0
      ensures victim == M.SetAccess(cfg, old(View()), tag, write).1.victim
    {
      victim := None;
      var victimWay;
      var free := FindFreeWay();
      if free.Some? {
        victimWay := free.value;
      } else {
        assert 0 in M.ValidWays(View().lines);
        P.VictimIsTracked(policy.View());
        var chosen := policy.SelectVictim();
        victimWay := chosen.value;
        victim := Some(lines[victimWay]);
        policy.OnRemove(victimWay);
      }
      assert victimWay == M.FillWay(old(View()));
      lines[victimWay] := M.CacheLine(true, write && cfg.writePolicy == WriteBack, tag);
      policy.OnInsert(victimWay);
      assert lines[..] == M.SetAccess(cfg, old(View()), tag, write).0.lines;
    }

    /** Find the way, then take the hit path, the bypass or the fill path. */
    method Access(cfg: CacheConfig, tag: nat, write: bool) returns (o: M.SetOutcome)
      requires Apart() && policy.Valid() && M.SetOk(cfg, View())
      modifies lines, policy.Obj()
      ensures policy.Valid() && (View(), o) == M.SetAccess(cfg, old(View()), tag, write)
    {
      var way := FindWay(tag);
      if way.Some? {
        Hit(cfg, tag, way.value, write);
        o := M.SetOutcome(true, false, None);
      } else if M.Installs(cfg, write) {
        var victim := Fill(cfg, tag, write);
        o := M.SetOutcome(false, true, victim);
      } else {
        o := M.SetOutcome(false, false, None);
      }
    }

    method Clear(cfg: CacheConfig, tag: nat, way: nat)
      requires Apart() && policy.Valid() && M.FindWay(View().lines, tag) == Some(way)
      modifies lines, policy.Obj()
      ensures policy.Valid() && View() == M.SetInvalidate(cfg, old(View()), tag)
    {
      lines[way] := lines[way].(valid := false, dirty := false);
      policy.OnRemove(way);
      assert lines[..] == M.SetInvalidate(cfg, old(View()), tag).lines;
    }
  }

  method MakeSet(cfg: CacheConfig, ways: nat) returns (s: CacheSet)
    ensures s.IsNew(cfg, ways) && fresh(s) && fresh(s.lines) && fresh(s.policy.Obj())
  {
    var lines := new M.CacheLine[ways](_ => M.CacheLine(false, false, 0));
    var policy := MakeEvictionPolicy(cfg.eviction);
    s := new CacheSet(lines, policy);
    assert lines[..] == seq(ways, _ => M.CacheLine(false, false, 0));
  }

  ghost predicate Distinct(sets: seq<CacheSet>) {
    forall i, j | 0 <= i < |sets| && 0 <= j < |sets| && i != j ::
      && sets[i].lines != sets[j].lines
      && sets[i].policy.Obj() != sets[j].policy.Obj()
      && sets[i].policy.Obj() != sets[j].lines
  }

  method MakeSets(cfg: CacheConfig, ways: nat, n: nat) returns (sets: seq<CacheSet>)
    ensures |sets| == n && Distinct(sets)
    ensures forall s | s in sets :: s.IsNew(cfg, ways) && fresh(s.lines) && fresh(s.policy.Obj())
  {
    sets := [];
    while |sets| < n
      invariant |sets| <= n && Distinct(sets)
      invariant forall s | s in sets :: s.IsNew(cfg, ways) && fresh(s.lines) && fresh(s.policy.Obj())
    {
      var s := MakeSet(cfg, ways);
      DistinctAppend(sets, s);
      hide Distinct;
      sets := sets + [s];
    }
  }

  lemma DistinctAppend(sets: seq<CacheSet>, s: CacheSet)
    requires Distinct(sets) && s.policy.Obj() != s.lines
    requires forall t | t in sets ::
               && t.lines != s.lines && t.policy.Obj() != s.policy.Obj()
               && t.policy.Obj() != s.lines && s.policy.Obj() != t.lines
    ensures Distinct(sets + [s])
  {
    var all := sets + [s];
    forall i, j | 0 <= i < |all| && 0 <= j < |all| && i != j
      ensures && all[i].lines != all[j].lines
              && all[i].policy.Obj() != all[j].policy.Obj()
              && all[i].policy.Obj() != all[j].lines
    {
      assert i < |sets| ==> all[i] in sets;
      assert j < |sets| ==> all[j] in sets;
    }
  }

  /** The line `FindWay` returns is the only one with that tag. */
  lemma FindWayDecides(cfg: CacheConfig, s: M.SetState, tag: nat)
    requires M.SetOk(cfg, s)
    ensures var way := M.FindWay(s.lines, tag);
            && (M.Resident(s, tag) <==> way.Some?)
            && (M.ResidentDirty(s, tag) <==> way.Some? && s.lines[way.value].dirty)
  {
    var way := M.FindWay(s.lines, tag);
    if way.Some? {
      assert M.Matches(s.lines[way.value], tag);
    }
  }

  class Cache {
    const cfg: CacheConfig
    const geo: Geometry
    const sets: seq<CacheSet>
    var stats: M.CacheStats

    ghost function SetsFootprint(): set<object> {
      (set s | s in sets :: s.lines) + (set s | s in sets :: s.policy.Obj())
    }

    ghost function Footprint(): set<object> {
      {this} + SetsFootprint()
    }

    ghost predicate Separate() {
      && (forall s | s in sets :: s.policy.Obj() != this && s.Apart())
      && Distinct(sets)
    }

    ghost function SetViews(): (v: seq<M.SetState>)
      reads SetsFootprint()
      ensures |v| == |sets| && forall i | 0 <= i < |v| :: v[i] == sets[i].View()
    {
      seq(|sets|, i requires 0 <= i < |sets| reads SetsFootprint() => sets[i].View())
    }

    ghost function View(): M.CacheState
      reads Footprint()
    {
      M.CacheState(cfg, geo, SetViews(), stats)
    }

    ghost predicate Valid()
      reads Footprint()
      ensures Valid() ==> M.CacheOk(View())
    {
      && Separate()
      && PoliciesValid()
      && M.CacheOk(View())
    }

    ghost predicate PoliciesValid()
      reads SetsFootprint()
    {
      forall s | s in sets :: s.policy.Valid()
    }

    /** Requires what the source checks before it builds the sets; the error cases are `DeriveGeometry`'s. */
    constructor (config: CacheConfig)
      requires M.Constructible(config)
      ensures Valid() && View() == M.Initial(config) && fresh(Footprint())
      ensures config.lineSize > 0 && geo.ways == ConfiguredWays(config)
      ensures |sets| * geo.ways * config.lineSize == config.cacheSize
      ensures forall m: nat :: !M.Holds(View(), m)
    {
      hide M.CacheOk, M.SetOk, DeriveGeometry, Distinct;
      cfg := config;
      var g := DeriveGeometry(config).value;
      geo := g;
      stats := M.CacheStats(0, 0, 0, 0, 0, 0, 0);
      var built := MakeSets(config, g.ways, g.numSets);
      sets := built;
      new;
      M.ColdOk(config);
      WaysAsConfigured(config);
      GeometryFacts(config);
      assert forall i | 0 <= i < |sets| :: sets[i] in built && SetViews()[i] == M.Initial(config).sets[i];
      assert View().sets == M.Initial(config).sets;
    }

    /** After work on one set only, the views differ in that set. */
    twostate lemma OnlySetChanged(index: nat)
      requires index < |sets| && Separate()
      requires unchanged(SetsFootprint() - {sets[index].lines, sets[index].policy.Obj()})
      requires old(PoliciesValid()) && sets[index].policy.Valid()
      ensures SetViews() == old(SetViews())[index := sets[index].View()]
      ensures PoliciesValid()
    {
      forall i | 0 <= i < |sets| && i != index
        ensures sets[i].View() == old(sets[i].View())
        ensures old(sets[i].policy.Valid()) ==> sets[i].policy.Valid()
      {
        assert sets[i].lines in SetsFootprint() && sets[i].policy.Obj() in SetsFootprint();
        assert unchanged(sets[i].lines) && unchanged(sets[i].policy.Obj());
      }
    }

    method Access(address: nat, kind: AccessType) returns (r: M.AccessResult)
      requires Valid() && address < WORD
      modifies Footprint()
      ensures Valid()
      ensures View() == M.Access(old(View()), address, kind).0
      ensures r == M.Access(old(View()), address, kind).1
    {
      ghost var before := View();
      M.IndexInRange(geo, address);
      var index, tag := ExtractIndex(geo, address), ExtractTag(geo, address);
      var o := AccessSet(index, tag, kind == WriteAccess);
      r := Count(address, kind == WriteAccess, o);
      assert View() == M.Access(before, address, kind).0;
      M.AccessEffect(before, address, kind);
    }

    /** The work of an access on its set; the counters are left to `Count`. */
    method AccessSet(index: nat, tag: nat, write: bool) returns (o: M.SetOutcome)
      requires index < |sets| && Separate() && PoliciesValid() && M.SetOk(cfg, SetViews()[index])
      modifies SetsFootprint()
      ensures PoliciesValid() && stats == old(stats)
      ensures SetViews() == old(SetViews())[index := M.SetAccess(cfg, old(SetViews()[index]), tag, write).0]
      ensures o == M.SetAccess(cfg, old(SetViews()[index]), tag, write).1
    {
      o := sets[index].Access(cfg, tag, write);
      OnlySetChanged(index);
    }

    /** The counters and the result record, branch by branch. */
    method Count(address: nat, write: bool, o: M.SetOutcome) returns (r: M.AccessResult)
      requires o.hit ==> !o.installed
      requires o.victim.Some? ==> o.installed
      requires !o.hit && !o.installed ==> write
      requires Separate()
      modifies `stats
      ensures SetViews() == old(SetViews()) && (old(PoliciesValid()) ==> PoliciesValid())
      ensures stats == M.CountAccess(cfg, old(stats), write, o)
      ensures r == M.ResultOf(geo, address, o)
    {
      hide ExtractIndex, ExtractTag, ReconstructAddress, Cache.SetViews, Cache.PoliciesValid, Distinct;
      var index, tag := ExtractIndex(geo, address), ExtractTag(geo, address);
      assert this !in SetsFootprint();
      r := M.AccessResult(o.hit, false, false, 0, index, tag, o.installed);
      if write {
        stats := stats.(writeOps := stats.writeOps + 1);
      } else {
        stats := stats.(readOps := stats.readOps + 1);
      }
      if o.hit {
        stats := stats.(hits := stats.hits + 1);
      } else {
        stats := stats.(misses := stats.misses + 1);
        if !o.installed {
          stats := stats.(writebacks := stats.writebacks + 1);
        } else if o.victim.Some? {
          r := r.(evicted := true, evictedAddress := ReconstructAddress(geo, o.victim.value.tag, index));
          stats := stats.(evictions := stats.evictions + 1);
          if o.victim.value.dirty {
            r := r.(writebackNeeded := true);
            stats := stats.(dirtyEvictions := stats.dirtyEvictions + 1, writebacks := stats.writebacks + 1);
          }
        }
      }
      if (o.hit || o.installed) && write && cfg.writePolicy == WriteThrough {
        stats := stats.(writebacks := stats.writebacks + 1);
      }
    }

    method Invalidate(address: nat) returns (found: bool, wasDirty: bool)
      requires Valid() && address < WORD
      modifies Footprint()
      ensures Valid() && View() == M.Invalidate(old(View()), address)
      ensures found <==> M.Holds(old(View()), LineOf(geo, address))
      ensures wasDirty <==> M.HoldsDirty(old(View()), LineOf(geo, address))
    {
      M.IndexInRange(geo, address);
      M.AccessedSet(geo, address);
      ghost var before := View();
      var index, tag := ExtractIndex(geo, address), ExtractTag(geo, address);
      found, wasDirty := InvalidateSet(index, tag);
      assert View() == M.Invalidate(before, address);
      M.InvalidateEffect(before, address);
    }

    method InvalidateSet(index: nat, tag: nat) returns (found: bool, wasDirty: bool)
      requires index < |sets| && Separate() && PoliciesValid() && M.SetOk(cfg, SetViews()[index])
      modifies SetsFootprint()
      ensures PoliciesValid() && stats == old(stats)
      ensures SetViews() == old(SetViews())[index := M.SetInvalidate(cfg, old(SetViews()[index]), tag)]
      ensures found <==> M.Resident(old(SetViews()[index]), tag)
      ensures wasDirty <==> M.ResidentDirty(old(SetViews()[index]), tag)
    {
      hide M.SetOk, M.Resident, M.ResidentDirty;
      FindWayDecides(cfg, SetViews()[index], tag);
      var s := sets[index];
      var way := s.FindWay(tag);
      if way.None? {
        found, wasDirty := false, false;
      } else {
        found, wasDirty := true, s.lines[way.value].dirty;
        s.Clear(cfg, tag, way.value);
      }
      OnlySetChanged(index);
    }

    /** A hit test without side effects. */
    method Probe(address: nat) returns (hit: bool)
      requires Valid() && address < WORD
      ensures hit <==> M.Holds(View(), LineOf(geo, address))
    {
      M.IndexInRange(geo, address);
      M.AccessedSet(geo, address);
      var s := sets[ExtractIndex(geo, address)];
      assert s.View() == View().sets[ExtractIndex(geo, address)];
      var way := s.FindWay(ExtractTag(geo, address));
      hit := way.Some?;
    }
  }

  /** Construction: the first check that fails names the error, else a cold cache. */
  method CreateCache(config: CacheConfig) returns (r: Result<Cache, GeometryError>)
    requires config.cacheSize < WORD
    ensures r.Err? ==> DeriveGeometry(config) == Err(r.error)
    ensures r.Ok? ==> M.Constructible(config)
                      && r.value.Valid() && r.value.View() == M.Initial(config) && fresh(r.value.Footprint())
  {
    hide M.CacheOk;
    var g := DeriveGeometry(config);
    if g.Err? {
      return Err(g.error);
    }
    var c := new Cache(config);
    r := Ok(c);
  }
}
