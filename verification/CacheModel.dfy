/**
 One cache level as a value: sets of lines with their policy, the access and
 invalidate transitions, and the invariants they keep.
 */
module CacheModel {
  import opened Basics
  import opened Bits
  import opened EvictionPolicy
  import opened CacheGeometry

  datatype CacheLine = CacheLine(valid: bool, dirty: bool, tag: nat)

  datatype SetState = SetState(lines: seq<CacheLine>, policy: Policy)

  datatype CacheStats = CacheStats(
    readOps: nat, writeOps: nat, hits: nat, misses: nat, evictions: nat, dirtyEvictions: nat, writebacks: nat)

  /** `AccessResult` of the source, latency aside. */
  datatype AccessResult = AccessResult(
    hit: bool, evicted: bool, writebackNeeded: bool, evictedAddress: nat,
    setIndex: nat, tag: nat, lineInstalled: bool)

  datatype CacheState = CacheState(cfg: CacheConfig, geo: Geometry, sets: seq<SetState>, stats: CacheStats)

  // ---- One set ----

  predicate Matches(line: CacheLine, tag: nat) {
    line.valid && line.tag == tag
  }

  /** First valid way holding `tag`. */
  function FindWay(lines: seq<CacheLine>, tag: nat): (r: Option<nat>)
    ensures r.Some? ==> r.value < |lines| && Matches(lines[r.value], tag)
                        && forall w | 0 <= w < r.value :: !Matches(lines[w], tag)
    ensures r.None? ==> forall w | 0 <= w < |lines| :: !Matches(lines[w], tag)
  {
    if lines == [] then None
    else
      var n := |lines| - 1;
      var r := FindWay(lines[..n], tag);
      if r.Some? then r else if Matches(lines[n], tag) then Some(n) else None
  }

  /** First way that holds no line. */
  function FindFreeWay(lines: seq<CacheLine>): (r: Option<nat>)
    ensures r.Some? ==> r.value < |lines| && !lines[r.value].valid
                        && forall w | 0 <= w < r.value :: lines[w].valid
    ensures r.None? ==> forall w | 0 <= w < |lines| :: lines[w].valid
  {
    if lines == [] then None
    else
      var n := |lines| - 1;
      var r := FindFreeWay(lines[..n]);
      if r.Some? then r else if !lines[n].valid then Some(n) else None
  }

  function ValidWays(lines: seq<CacheLine>): set<nat> {
    set w | 0 <= w < |lines| && lines[w].valid
  }

  /** Policy and line array agree, and no tag is cached twice. */
  ghost predicate SetOk(cfg: CacheConfig, s: SetState) {
    && |s.lines| >= 1
    && s.policy.Ok() && s.policy.Kind() == cfg.eviction
    && s.policy.Tracked() == ValidWays(s.lines)
    && (forall v, w | 0 <= v < w < |s.lines| && s.lines[v].valid && s.lines[w].valid ::
          s.lines[v].tag != s.lines[w].tag)
    && (forall w | 0 <= w < |s.lines| && s.lines[w].dirty ::
          s.lines[w].valid && cfg.writePolicy == WriteBack)
  }

  ghost predicate Resident(s: SetState, tag: nat) {
    exists w :: 0 <= w < |s.lines| && Matches(s.lines[w], tag)
  }

  ghost predicate ResidentDirty(s: SetState, tag: nat) {
    exists w :: 0 <= w < |s.lines| && Matches(s.lines[w], tag) && s.lines[w].dirty
  }

  /** What one access did to its set: the line pushed out, if any. */
  datatype SetOutcome = SetOutcome(hit: bool, installed: bool, victim: Option<CacheLine>)

  predicate Installs(cfg: CacheConfig, write: bool) {
    !write || cfg.writeAllocate == WriteAllocate
  }

  predicate LeavesDirty(cfg: CacheConfig, write: bool) {
    write && cfg.writePolicy == WriteBack
  }

  /** The way a fill goes to: an invalid one if there is one, else the policy's victim. */
  ghost function FillWay(s: SetState): (w: nat)
    requires s.policy.Ok() && s.policy.Tracked() == ValidWays(s.lines) && |s.lines| >= 1
    ensures w < |s.lines|
    ensures s.lines[w].valid ==> forall v | 0 <= v < |s.lines| :: s.lines[v].valid
  {
    var free := FindFreeWay(s.lines);
    if free.Some? then free.value
    else
      assert 0 in ValidWays(s.lines);
      VictimIsTracked(s.policy);
      SelectVictim(s.policy).value
  }

  ghost function SetAccess(cfg: CacheConfig, s: SetState, tag: nat, write: bool): (SetState, SetOutcome)
    requires SetOk(cfg, s)
  {
    var found := FindWay(s.lines, tag);
    if found.Some? then
      var w := found.value;
      var dirty := s.lines[w].dirty || LeavesDirty(cfg, write);
      (SetState(s.lines[w := s.lines[w].(dirty := dirty)], OnAccess(s.policy, w)), SetOutcome(true, false, None))
    else if !Installs(cfg, write) then
      (s, SetOutcome(false, false, None))
    else
      var w := FillWay(s);
      var evicts := s.lines[w].valid;
      var policy := if evicts then OnRemove(s.policy, w) else s.policy;
      (SetState(s.lines[w := CacheLine(true, LeavesDirty(cfg, write), tag)], OnInsert(policy, w)),
       SetOutcome(false, true, if evicts then Some(s.lines[w]) else None))
  }

  ghost function SetInvalidate(cfg: CacheConfig, s: SetState, tag: nat): SetState {
    var found := FindWay(s.lines, tag);
    if found.None? then s
    else
      var w := found.value;
      SetState(s.lines[w := s.lines[w].(valid := false, dirty := false)], OnRemove(s.policy, w))
  }

  /** Every access keeps policy and line array in step, whatever the policy. */
  lemma SetAccessKeepsOk(cfg: CacheConfig, s: SetState, tag: nat, write: bool)
    requires SetOk(cfg, s)
    ensures SetOk(cfg, SetAccess(cfg, s, tag, write).0)
    ensures |SetAccess(cfg, s, tag, write).0.lines| == |s.lines|
  {
    var found := FindWay(s.lines, tag);
    if found.Some? {
      var w := found.value;
      assert w in ValidWays(s.lines);
      AccessTracks(s.policy, w);
      RewriteKeepsOk(cfg, s, w, SetAccess(cfg, s, tag, write).0);
    } else if Installs(cfg, write) {
      var w := FillWay(s);
      var policy := if s.lines[w].valid then OnRemove(s.policy, w) else s.policy;
      RemoveTracks(s.policy, w);
      assert policy.Tracked() == ValidWays(s.lines) - {w};
      InsertTracks(policy, w);
      RewriteKeepsOk(cfg, s, w, SetAccess(cfg, s, tag, write).0);
    }
  }

  lemma RewriteKeepsOk(cfg: CacheConfig, s: SetState, w: nat, s': SetState)
    requires SetOk(cfg, s) && w < |s.lines|
    requires |s'.lines| == |s.lines| && s'.lines == s.lines[w := s'.lines[w]] && s'.lines[w].valid
    requires s'.policy.Ok() && s'.policy.Kind() == cfg.eviction
    requires s'.policy.Tracked() == ValidWays(s.lines) + {w}
    requires s'.lines[w].dirty ==> cfg.writePolicy == WriteBack
    requires forall v | 0 <= v < |s.lines| && v != w && s.lines[v].valid :: s.lines[v].tag != s'.lines[w].tag
    ensures SetOk(cfg, s')
  {
    assert ValidWays(s'.lines) == ValidWays(s.lines) + {w};
    assert forall v | 0 <= v < |s.lines| && v != w :: s'.lines[v] == s.lines[v];
  }

  /** Which tags a set holds after an access, and which of them are dirty. */
  lemma SetAccessEffect(cfg: CacheConfig, s: SetState, tag: nat, write: bool, t: nat)
    requires SetOk(cfg, s)
    ensures var (s', o) := SetAccess(cfg, s, tag, write);
            && (o.hit <==> Resident(s, tag))
            && (o.installed <==> !o.hit && Installs(cfg, write))
            && (o.victim.Some? ==> o.installed && o.victim.value.valid && Resident(s, o.victim.value.tag)
                                   && (ResidentDirty(s, o.victim.value.tag) <==> o.victim.value.dirty))
            && (Resident(s', t) <==>
                  (t == tag && (o.hit || o.installed))
                  || (Resident(s, t) && !(o.victim.Some? && o.victim.value.tag == t)))
            && (ResidentDirty(s', t) <==>
                  if t == tag && (o.hit || o.installed)
                  then LeavesDirty(cfg, write) || ResidentDirty(s, tag)
                  else ResidentDirty(s, t) && !(o.victim.Some? && o.victim.value.tag == t))
  {
    var (s', o) := SetAccess(cfg, s, tag, write);
    var found := FindWay(s.lines, tag);
    if found.Some? {
      SetUpdateHolds(s, s', found.value, t);
      SetUpdateHolds(s, s', found.value, tag);
    } else if Installs(cfg, write) {
      SetUpdateHolds(s, s', FillWay(s), t);
      assert !ResidentDirty(s, tag);
    }
  }

  /** Rewriting one way changes residency only for the old and the new tag of that way. */
  lemma SetUpdateHolds(s: SetState, s': SetState, w: nat, t: nat)
    requires w < |s.lines| && |s'.lines| == |s.lines| && s'.lines == s.lines[w := s'.lines[w]]
    requires forall u, v | 0 <= u < v < |s.lines| && s.lines[u].valid && s.lines[v].valid ::
               s.lines[u].tag != s.lines[v].tag
    ensures Resident(s', t) <==> Matches(s'.lines[w], t) || (Resident(s, t) && !Matches(s.lines[w], t))
    ensures ResidentDirty(s', t) <==>
              (Matches(s'.lines[w], t) && s'.lines[w].dirty)
              || (ResidentDirty(s, t) && !Matches(s.lines[w], t))
  {
    if Resident(s, t) && !Matches(s.lines[w], t) {
      var v :| 0 <= v < |s.lines| && Matches(s.lines[v], t);
      assert s'.lines[v] == s.lines[v];
    }
    if ResidentDirty(s, t) && !Matches(s.lines[w], t) {
      var v :| 0 <= v < |s.lines| && Matches(s.lines[v], t) && s.lines[v].dirty;
      assert s'.lines[v] == s.lines[v];
    }
    if Resident(s', t) && !Matches(s'.lines[w], t) {
      var v :| 0 <= v < |s.lines| && Matches(s'.lines[v], t);
      assert s'.lines[v] == s.lines[v];
    }
    if ResidentDirty(s', t) && !Matches(s'.lines[w], t) {
      var v :| 0 <= v < |s.lines| && Matches(s'.lines[v], t) && s'.lines[v].dirty;
      assert s'.lines[v] == s.lines[v];
    }
  }

  lemma SetInvalidateEffect(cfg: CacheConfig, s: SetState, tag: nat, t: nat)
    requires SetOk(cfg, s)
    ensures var s' := SetInvalidate(cfg, s, tag);
            && SetOk(cfg, s') && |s'.lines| == |s.lines|
            && (Resident(s', t) <==> Resident(s, t) && t != tag)
            && (ResidentDirty(s', t) <==> ResidentDirty(s, t) && t != tag)
  {
    var s' := SetInvalidate(cfg, s, tag);
    var found := FindWay(s.lines, tag);
    if found.Some? {
      var w := found.value;
      RemoveTracks(s.policy, w);
      assert ValidWays(s'.lines) == ValidWays(s.lines) - {w};
      SetUpdateHolds(s, s', w, t);
    }
  }

  // ---- A whole level ----

  /** The set a memory line maps to, and its tag there. */
  function SetOf(g: Geometry, line: nat): (i: nat)
    requires g.numSets >= 1
    ensures i < g.numSets
  {
    line % g.numSets
  }

  function TagOf(g: Geometry, line: nat): nat
    requires g.numSets >= 1
  {
    line / g.numSets
  }

  function LineNumber(g: Geometry, tag: nat, index: nat): nat {
    MulNonNegative(tag, g.numSets);
    tag * g.numSets + index
  }

  lemma LineSplit(g: Geometry, m: nat, tag: nat, index: nat)
    requires g.numSets >= 1 && index < g.numSets
    ensures (SetOf(g, m) == index && TagOf(g, m) == tag) <==> m == LineNumber(g, tag, index)
  {
    DivIdentity(m, g.numSets);
    DivModUnique(LineNumber(g, tag, index), g.numSets, tag, index);
  }

  /** A resident line's address is a 64-bit address. */
  ghost predicate LineFits(g: Geometry, line: nat) {
    line * g.lineSize < WORD
  }

  ghost predicate CacheOk(c: CacheState) {
    && GeometryOk(c.geo) && c.geo.lineSize == c.cfg.lineSize
    && |c.sets| == c.geo.numSets
    && (forall i | 0 <= i < |c.sets| :: SetOk(c.cfg, c.sets[i]) && |c.sets[i].lines| == c.geo.ways)
    && (forall m: nat | Holds(c, m) :: LineFits(c.geo, m))
  }

  /** The memory line `line` is cached at this level. */
  ghost predicate Holds(c: CacheState, line: nat)
    requires |c.sets| == c.geo.numSets >= 1
  {
    Resident(c.sets[SetOf(c.geo, line)], TagOf(c.geo, line))
  }

  ghost predicate HoldsDirty(c: CacheState, line: nat)
    requires |c.sets| == c.geo.numSets >= 1
  {
    ResidentDirty(c.sets[SetOf(c.geo, line)], TagOf(c.geo, line))
  }

  function CountAccess(cfg: CacheConfig, st: CacheStats, write: bool, o: SetOutcome): CacheStats {
    var victimDirty := o.victim.Some? && o.victim.value.dirty;
    var through := write && (cfg.writePolicy == WriteThrough || !(o.hit || o.installed));
    CacheStats(
      st.readOps + if write then 0 else 1,
      st.writeOps + if write then 1 else 0,
      st.hits + if o.hit then 1 else 0,
      st.misses + if o.hit then 0 else 1,
      st.evictions + if o.victim.Some? then 1 else 0,
      st.dirtyEvictions + if victimDirty then 1 else 0,
      st.writebacks + (if through then 1 else 0) + if victimDirty then 1 else 0)
  }

  function ResultOf(g: Geometry, address: nat, o: SetOutcome): AccessResult {
    var index := ExtractIndex(g, address);
    AccessResult(
      o.hit, o.victim.Some?, o.victim.Some? && o.victim.value.dirty,
      if o.victim.Some? then ReconstructAddress(g, o.victim.value.tag, index) else 0,
      index, ExtractTag(g, address), o.installed)
  }

  lemma IndexInRange(g: Geometry, address: nat)
    requires GeometryOk(g)
    ensures ExtractIndex(g, address) < g.numSets
  {
    FieldsAreDivMod(g, address);
  }

  ghost function Access(c: CacheState, address: nat, kind: AccessType): (CacheState, AccessResult)
    requires CacheOk(c)
  {
    IndexInRange(c.geo, address);
    var index, write := ExtractIndex(c.geo, address), kind == WriteAccess;
    var (s', o) := SetAccess(c.cfg, c.sets[index], ExtractTag(c.geo, address), write);
    (c.(sets := c.sets[index := s'], stats := CountAccess(c.cfg, c.stats, write, o)),
     ResultOf(c.geo, address, o))
  }

  ghost function Invalidate(c: CacheState, address: nat): CacheState
    requires CacheOk(c)
  {
    IndexInRange(c.geo, address);
    var index := ExtractIndex(c.geo, address);
    c.(sets := c.sets[index := SetInvalidate(c.cfg, c.sets[index], ExtractTag(c.geo, address))])
  }

  /** `line` is about to leave this level because of the access that returned `r`. */
  predicate PushesOut(g: Geometry, r: AccessResult, line: nat)
    requires g.lineSize > 0
  {
    r.evicted && LineOf(g, r.evictedAddress) == line
  }

  /**
   What an access to line `l` does to the lines a level holds: the accessed line ends up
   resident exactly on a hit or an install, one other line may leave, and the result says
   which one and whether it was dirty.
   */
  ghost predicate LevelEffect(c: CacheState, c': CacheState, l: nat, write: bool, r: AccessResult)
    requires CacheOk(c) && CacheOk(c') && c'.geo == c.geo
  {
    && c'.cfg == c.cfg
    && (r.hit <==> Holds(c, l))
    && (r.lineInstalled <==> !r.hit && Installs(c.cfg, write))
    && (r.evicted ==>
          var e := LineOf(c.geo, r.evictedAddress);
          r.lineInstalled && Holds(c, e) && e != l && r.evictedAddress < WORD
          && (r.writebackNeeded <==> HoldsDirty(c, e)))
    && (r.writebackNeeded ==> r.evicted)
    && (forall m: nat :: Holds(c', m) <==>
          (m == l && (r.hit || r.lineInstalled)) || (Holds(c, m) && !PushesOut(c.geo, r, m)))
    && (forall m: nat :: HoldsDirty(c', m) <==>
          if m == l && (r.hit || r.lineInstalled)
          then LeavesDirty(c.cfg, write) || HoldsDirty(c, l)
          else HoldsDirty(c, m) && !PushesOut(c.geo, r, m))
  }

  lemma AccessedSet(g: Geometry, address: nat)
    requires GeometryOk(g)
    ensures ExtractIndex(g, address) == SetOf(g, LineOf(g, address))
    ensures ExtractTag(g, address) == TagOf(g, LineOf(g, address))
  {
    FieldsAreDivMod(g, address);
  }

  lemma LineOfFits(g: Geometry, address: nat)
    requires GeometryOk(g) && address < WORD
    ensures LineFits(g, LineOf(g, address))
  {
    DivIdentity(address, g.lineSize);
  }

  /** The evicted address reported by an access is the first byte of the victim's line. */
  lemma VictimLine(c: CacheState, tag: nat, index: nat, write: bool)
    requires CacheOk(c) && index < c.geo.numSets
    ensures var o := SetAccess(c.cfg, c.sets[index], tag, write).1;
            o.victim.Some? ==>
              var a, e := ReconstructAddress(c.geo, o.victim.value.tag, index),
                          LineNumber(c.geo, o.victim.value.tag, index);
              && a < WORD && LineOf(c.geo, a) == e
              && SetOf(c.geo, e) == index && TagOf(c.geo, e) == o.victim.value.tag
              && Holds(c, e) && (HoldsDirty(c, e) <==> o.victim.value.dirty)
  {
    var g := c.geo;
    var o := SetAccess(c.cfg, c.sets[index], tag, write).1;
    SetAccessEffect(c.cfg, c.sets[index], tag, write, tag);
    if o.victim.Some? {
      var e := LineNumber(g, o.victim.value.tag, index);
      LineSplit(g, e, o.victim.value.tag, index);
      assert Holds(c, e);
      assert LineFits(g, e);
      ReconstructIsLineStart(g, o.victim.value.tag, index);
      EvictedAddressNamesLine(g, g, o.victim.value.tag, index);
    }
  }

  /** Residency of one line `m` after an access, seen through the set it maps to. */
  lemma LineEffect(c: CacheState, address: nat, kind: AccessType, m: nat)
    requires CacheOk(c)
    ensures var g, l, write := c.geo, LineOf(c.geo, address), kind == WriteAccess;
            var (c', r) := Access(c, address, kind);
            && c'.geo == g && |c'.sets| == g.numSets
            && (Holds(c', m) <==>
                  (m == l && (r.hit || r.lineInstalled)) || (Holds(c, m) && !PushesOut(g, r, m)))
            && (HoldsDirty(c', m) <==>
                  if m == l && (r.hit || r.lineInstalled)
                  then LeavesDirty(c.cfg, write) || HoldsDirty(c, l)
                  else HoldsDirty(c, m) && !PushesOut(g, r, m))
  {
    var g, l, write := c.geo, LineOf(c.geo, address), kind == WriteAccess;
    AccessedSet(g, address);
    var index, tag := SetOf(g, l), TagOf(g, l);
    var o := SetAccess(c.cfg, c.sets[index], tag, write).1;
    VictimLine(c, tag, index, write);
    LineSplit(g, l, tag, index);
    LineSplit(g, m, tag, index);
    SetAccessEffect(c.cfg, c.sets[index], tag, write, TagOf(g, m));
    if o.victim.Some? {
      LineSplit(g, m, o.victim.value.tag, index);
    }
  }

  /** Every access keeps the level well-formed and has the stated effect on lines. */
  lemma AccessEffect(c: CacheState, address: nat, kind: AccessType)
    requires CacheOk(c) && address < WORD
    ensures var (c', r) := Access(c, address, kind);
            && CacheOk(c') && c'.geo == c.geo
            && LevelEffect(c, c', LineOf(c.geo, address), kind == WriteAccess, r)
  {
    var g, l, write := c.geo, LineOf(c.geo, address), kind == WriteAccess;
    var (c', r) := Access(c, address, kind);
    AccessedSet(g, address);
    LineOfFits(g, address);
    var index, tag := SetOf(g, l), TagOf(g, l);
    SetAccessKeepsOk(c.cfg, c.sets[index], tag, write);
    SetAccessEffect(c.cfg, c.sets[index], tag, write, tag);
    VictimLine(c, tag, index, write);
    LineSplit(g, l, tag, index);
    forall m: nat
      ensures Holds(c', m) <==>
              (m == l && (r.hit || r.lineInstalled)) || (Holds(c, m) && !PushesOut(g, r, m))
      ensures HoldsDirty(c', m) <==>
              if m == l && (r.hit || r.lineInstalled)
              then LeavesDirty(c.cfg, write) || HoldsDirty(c, l)
              else HoldsDirty(c, m) && !PushesOut(g, r, m)
    {
      LineEffect(c, address, kind, m);
    }
  }

  /** The set and tag an access reports are those of its address. */
  lemma ReportedFields(c: CacheState, address: nat, kind: AccessType)
    requires CacheOk(c)
    ensures var r := Access(c, address, kind).1;
            && r.setIndex == (address / c.geo.lineSize) % c.geo.numSets
            && r.tag == (address / c.geo.lineSize) / c.geo.numSets
  {
    hide SetAccess, SetOk, LineFits;
    FieldsAreDivMod(c.geo, address);
  }

  /** A fill goes to the first way without a line; only a full set asks the policy, and evicts what it names. */
  lemma FillGoesTo(cfg: CacheConfig, s: SetState, tag: nat, write: bool) returns (w: nat)
    requires SetOk(cfg, s) && !Resident(s, tag) && (write ==> cfg.writeAllocate == WriteAllocate)
    ensures var (s', o) := SetAccess(cfg, s, tag, write);
            && w < |s.lines| && !o.hit && o.installed && |s'.lines| == |s.lines|
            && s'.lines[w].valid && s'.lines[w].tag == tag
            && (s'.lines[w].dirty <==> write && cfg.writePolicy == WriteBack)
            && (forall v | 0 <= v < |s.lines| && v != w :: s'.lines[v] == s.lines[v])
            && (if forall v | 0 <= v < |s.lines| :: s.lines[v].valid
                then SelectVictim(s.policy) == Some(w) && o.victim == Some(s.lines[w])
                else !s.lines[w].valid && o.victim.None? && forall v | 0 <= v < w :: s.lines[v].valid)
  {
    w := FillWay(s);
    assert FindWay(s.lines, tag).None?;
    if forall v | 0 <= v < |s.lines| :: s.lines[v].valid {
      assert 0 in ValidWays(s.lines);
      VictimIsTracked(s.policy);
    }
  }

  lemma InvalidateLine(c: CacheState, address: nat, m: nat)
    requires CacheOk(c)
    ensures var c' := Invalidate(c, address);
            && |c'.sets| == c'.geo.numSets >= 1
            && (Holds(c', m) <==> Holds(c, m) && m != LineOf(c.geo, address))
            && (HoldsDirty(c', m) <==> HoldsDirty(c, m) && m != LineOf(c.geo, address))
  {
    var g, l := c.geo, LineOf(c.geo, address);
    AccessedSet(g, address);
    LineSplit(g, m, TagOf(g, l), SetOf(g, l));
    LineSplit(g, l, TagOf(g, l), SetOf(g, l));
    SetInvalidateEffect(c.cfg, c.sets[SetOf(g, l)], TagOf(g, l), TagOf(g, m));
  }

  /** Invalidation removes exactly the addressed line. */
  lemma InvalidateEffect(c: CacheState, address: nat)
    requires CacheOk(c)
    ensures var c' := Invalidate(c, address);
            && CacheOk(c') && c'.geo == c.geo && c'.cfg == c.cfg && c'.stats == c.stats
            && (forall m: nat :: Holds(c', m) <==> Holds(c, m) && m != LineOf(c.geo, address))
            && (forall m: nat :: HoldsDirty(c', m) <==> HoldsDirty(c, m) && m != LineOf(c.geo, address))
  {
    var g, l := c.geo, LineOf(c.geo, address);
    var c' := Invalidate(c, address);
    AccessedSet(g, address);
    SetInvalidateEffect(c.cfg, c.sets[SetOf(g, l)], TagOf(g, l), TagOf(g, l));
    forall m: nat
      ensures Holds(c', m) <==> Holds(c, m) && m != l
      ensures HoldsDirty(c', m) <==> HoldsDirty(c, m) && m != l
    {
      InvalidateLine(c, address, m);
    }
  }

  // ---- Whole runs of one level ----

  /** The state the constructor builds; a size that does not fit in 64 bits cannot be passed to it. */
  predicate Constructible(cfg: CacheConfig) {
    DeriveGeometry(cfg).Ok? && cfg.cacheSize < WORD
  }

  function Cold(cfg: CacheConfig): CacheState
    requires Constructible(cfg)
  {
    var g := DeriveGeometry(cfg).value;
    var empty := SetState(seq(g.ways, _ => CacheLine(false, false, 0)), Fresh(cfg.eviction));
    CacheState(cfg, g, seq(g.numSets, _ => empty), CacheStats(0, 0, 0, 0, 0, 0, 0))
  }

  lemma ColdOk(cfg: CacheConfig)
    requires Constructible(cfg)
    ensures CacheOk(Cold(cfg))
    ensures forall m: nat :: !Holds(Cold(cfg), m)
  {
    GeometryFacts(cfg);
    var c := Cold(cfg);
    assert forall i | 0 <= i < |c.sets| :: ValidWays(c.sets[i].lines) == {} && c.sets[i].policy.Tracked() == {};
    assert forall m: nat :: !Holds(c, m);
  }

  ghost function Initial(cfg: CacheConfig): (c: CacheState)
    requires Constructible(cfg)
    ensures CacheOk(c) && c == Cold(cfg)
    ensures forall m: nat :: !Holds(c, m)
  {
    ColdOk(cfg);
    Cold(cfg)
  }

  datatype CacheOp = Touch(address: nat, kind: AccessType) | Drop(address: nat)

  ghost predicate Addresses(ops: seq<CacheOp>) {
    forall i | 0 <= i < |ops| :: ops[i].address < WORD
  }

  ghost function Step(c: CacheState, op: CacheOp): CacheState
    requires CacheOk(c)
  {
    match op
    case Touch(address, kind) => Access(c, address, kind).0
    case Drop(address) => Invalidate(c, address)
  }

  lemma StepKeepsOk(c: CacheState, op: CacheOp)
    requires CacheOk(c) && op.address < WORD
    ensures CacheOk(Step(c, op)) && Step(c, op).geo == c.geo && Step(c, op).cfg == c.cfg
  {
    if op.Touch? {
      AccessEffect(c, op.address, op.kind);
    } else {
      InvalidateEffect(c, op.address);
    }
  }

  ghost function RunOps(c: CacheState, ops: seq<CacheOp>): (c': CacheState)
    requires CacheOk(c) && Addresses(ops)
    ensures CacheOk(c') && c'.geo == c.geo && c'.cfg == c.cfg
  {
    if ops == [] then c
    else
      var n := |ops| - 1;
      var before := RunOps(c, ops[..n]);
      StepKeepsOk(before, ops[n]);
      Step(before, ops[n])
  }

  /** Write misses that went around this level. */
  ghost function Bypassed(c: CacheState, ops: seq<CacheOp>): nat
    requires CacheOk(c) && Addresses(ops)
  {
    if ops == [] then 0
    else
      var n := |ops| - 1;
      var r := if ops[n].Touch? then Some(Access(RunOps(c, ops[..n]), ops[n].address, ops[n].kind).1) else None;
      Bypassed(c, ops[..n]) + if r.Some? && !r.value.hit && !r.value.lineInstalled then 1 else 0
  }

  /**
   In every reachable state policy and lines agree (`CacheOk`), and the counters balance:
   each access is one read or write and one hit or miss; a write-through level reports one
   writeback per write and never evicts a dirty line; a write-back level reports one per
   dirty eviction and per write that went around it.
   */
  lemma {:induction false} ReachableCounters(cfg: CacheConfig, ops: seq<CacheOp>)
    requires Constructible(cfg) && Addresses(ops)
    ensures var st := RunOps(Initial(cfg), ops).stats;
            && st.readOps + st.writeOps == st.hits + st.misses
            && st.dirtyEvictions <= st.evictions <= st.misses
            && (cfg.writePolicy == WriteThrough ==> st.writebacks == st.writeOps && st.dirtyEvictions == 0)
            && (cfg.writePolicy == WriteBack ==> st.writebacks == st.dirtyEvictions + Bypassed(Initial(cfg), ops))
  {
    if ops != [] {
      var n := |ops| - 1;
      ReachableCounters(cfg, ops[..n]);
      var c := RunOps(Initial(cfg), ops[..n]);
      if ops[n].Touch? {
        AccessCounts(c, ops[n].address, ops[n].kind);
      }
    }
  }

  lemma AccessCounts(c: CacheState, address: nat, kind: AccessType)
    requires CacheOk(c) && address < WORD
    ensures var write := kind == WriteAccess;
            var (c', r) := Access(c, address, kind);
            && c'.stats.readOps + c'.stats.writeOps == c.stats.readOps + c.stats.writeOps + 1
            && c'.stats.writeOps == c.stats.writeOps + (if write then 1 else 0)
            && c'.stats.hits == c.stats.hits + (if r.hit then 1 else 0)
            && c'.stats.misses == c.stats.misses + (if r.hit then 0 else 1)
            && c'.stats.evictions == c.stats.evictions + (if r.evicted then 1 else 0)
            && c'.stats.dirtyEvictions == c.stats.dirtyEvictions + (if r.writebackNeeded then 1 else 0)
            && (r.evicted ==> !r.hit) && (r.writebackNeeded ==> r.evicted)
            && (c.cfg.writePolicy == WriteThrough ==>
                  !r.writebackNeeded && c'.stats.writebacks == c.stats.writebacks + (if write then 1 else 0))
            && (c.cfg.writePolicy == WriteBack ==>
                  c'.stats.writebacks == c.stats.writebacks + (if r.writebackNeeded then 1 else 0)
                                         + (if !r.hit && !r.lineInstalled then 1 else 0))
  {
    AccessedSet(c.geo, address);
    var l := LineOf(c.geo, address);
    SetAccessEffect(c.cfg, c.sets[SetOf(c.geo, l)], TagOf(c.geo, l), kind == WriteAccess, 0);
  }
}
