/** What a cache tells its policies, read off its line arrays, and which line it therefore evicts. */
module CacheHooks {
  import opened Basics
  import opened Bits
  import opened EvictionPolicy
  import opened PolicyHistory
  import opened CacheGeometry
  import opened CacheModel

  /**
   The lifecycle contract: a hit on a way is an access, a way that loses its line is removed,
   one that gains a line is inserted, and nothing else is reported.
   */
  function HooksOf(before: seq<CacheLine>, after: seq<CacheLine>, drop: bool, tag: nat): seq<PolicyEvent> {
    var found, filled := FindWay(before, tag), FindWay(after, tag);
    if found.Some? then [if drop then Removed(found.value) else Accessed(found.value)]
    else if filled.None? then []
    else if filled.value < |before| && before[filled.value].valid then
      [Removed(filled.value), Inserted(filled.value)]
    else [Inserted(filled.value)]
  }

  lemma FewEvents(p: Policy, a: PolicyEvent, b: PolicyEvent)
    ensures RunEvents(p, []) == p
    ensures RunEvents(p, [a]) == ApplyEvent(p, a)
    ensures RunEvents(p, [a, b]) == ApplyEvent(ApplyEvent(p, a), b)
  {
    assert [a][..0] == [] && [a, b][..1] == [a];
  }

  lemma {:induction false} RunOn(p: Policy, first: seq<PolicyEvent>, rest: seq<PolicyEvent>)
    ensures RunEvents(p, first + rest) == RunEvents(RunEvents(p, first), rest)
  {
    var all := first + rest;
    if rest == [] {
      assert all == first;
    } else {
      assert all[..|all| - 1] == first + rest[..|rest| - 1];
      RunOn(p, first, rest[..|rest| - 1]);
    }
  }

  /** The policy of a set is driven by these calls and no others. */
  lemma AccessHooks(cfg: CacheConfig, s: SetState, tag: nat, write: bool)
    requires SetOk(cfg, s)
    ensures var s' := SetAccess(cfg, s, tag, write).0;
            s'.policy == RunEvents(s.policy, HooksOf(s.lines, s'.lines, false, tag))
  {
    hide RunEvents, ApplyEvent;
    var found := FindWay(s.lines, tag);
    if found.Some? {
      FewEvents(s.policy, Accessed(found.value), Accessed(found.value));
      AppliedHooks(s.policy, found.value);
    } else if Installs(cfg, write) {
      FillHooks(cfg, s, tag, write);
    } else {
      FewEvents(s.policy, Accessed(0), Accessed(0));
    }
  }

  lemma AppliedHooks(p: Policy, w: nat)
    ensures ApplyEvent(p, Accessed(w)) == OnAccess(p, w)
    ensures ApplyEvent(p, Inserted(w)) == OnInsert(p, w)
    ensures ApplyEvent(p, Removed(w)) == OnRemove(p, w)
  {}

  lemma FillHooks(cfg: CacheConfig, s: SetState, tag: nat, write: bool)
    requires SetOk(cfg, s) && FindWay(s.lines, tag).None? && Installs(cfg, write)
    ensures var s' := SetAccess(cfg, s, tag, write).0;
            s'.policy == RunEvents(s.policy, HooksOf(s.lines, s'.lines, false, tag))
  {
    hide RunEvents, ApplyEvent, OnInsert, OnRemove, OnAccess;
    var w := FillWay(s);
    var s' := SetAccess(cfg, s, tag, write).0;
    assert Matches(s'.lines[w], tag);
    assert forall v | 0 <= v < |s.lines| && v != w :: s'.lines[v] == s.lines[v];
    assert FindWay(s'.lines, tag) == Some(w);
    FewEvents(s.policy, Removed(w), Inserted(w));
    FewEvents(s.policy, Inserted(w), Inserted(w));
    AppliedHooks(s.policy, w);
    AppliedHooks(OnRemove(s.policy, w), w);
  }

  lemma DropHooks(cfg: CacheConfig, s: SetState, tag: nat)
    requires SetOk(cfg, s)
    ensures var s' := SetInvalidate(cfg, s, tag);
            s'.policy == RunEvents(s.policy, HooksOf(s.lines, s'.lines, true, tag))
  {
    var found := FindWay(s.lines, tag);
    var e := Removed(if found.Some? then found.value else 0);
    FewEvents(s.policy, e, e);
  }

  /** The history is legal, drives the policy, and leaves inserted exactly the ways that hold a line. */
  ghost predicate Tells(log: seq<PolicyEvent>, s: SetState, kind: PolicyKind) {
    && InsertsOnce(log)
    && s.policy == RunEvents(Fresh(kind), log)
    && forall w: nat :: InsertedAt(log, w).Some? <==> w < |s.lines| && s.lines[w].valid
  }

  lemma OneMore(log: seq<PolicyEvent>, e: PolicyEvent)
    requires InsertsOnce(log) && (e.Inserted? ==> InsertedAt(log, e.way).None?)
    ensures InsertsOnce(log + [e])
    ensures e.Inserted? ==> InsertedAt(log + [e], e.way).Some?
    ensures e.Removed? ==> InsertedAt(log + [e], e.way).None?
    ensures forall w: nat | w != e.way || e.Accessed? :: InsertedAt(log + [e], w) == InsertedAt(log, w)
  {
    hide InsertedAt;
    var all := log + [e];
    assert all[..|log|] == log;
    InsertedStep(all);
    forall k | 0 <= k < |all| && all[k].Inserted? ensures InsertedAt(all[..k], all[k].way).None? {
      assert k < |log| ==> all[k] == log[k] && all[..k] == log[..k];
    }
  }

  /** One operation keeps the history telling. */
  lemma TellsOn(log: seq<PolicyEvent>, s: SetState, s': SetState, kind: PolicyKind, drop: bool, tag: nat)
    requires Tells(log, s, kind)
    requires var hooks := HooksOf(s.lines, s'.lines, drop, tag);
             && s'.policy == RunEvents(s.policy, hooks)
             && |s'.lines| == |s.lines|
             && (hooks == [] ==> s'.lines == s.lines)
             && (hooks != [] ==>
                   var e := hooks[|hooks| - 1];
                   && (!e.Removed? <==> e.way < |s'.lines| && s'.lines[e.way].valid)
                   && forall v | 0 <= v < |s.lines| && v != e.way :: s'.lines[v] == s.lines[v])
    ensures Tells(log + HooksOf(s.lines, s'.lines, drop, tag), s', kind)
  {
    hide RunEvents, InsertedAt, InsertsOnce;
    var hooks := HooksOf(s.lines, s'.lines, drop, tag);
    RunOn(Fresh(kind), log, hooks);
    if hooks == [] {
      assert log + hooks == log;
    } else if |hooks| == 1 {
      OneMore(log, hooks[0]);
    } else {
      OneMore(log, hooks[0]);
      OneMore(log + [hooks[0]], hooks[1]);
      assert log + hooks == log + [hooks[0]] + [hooks[1]];
    }
  }

  lemma AccessTells(cfg: CacheConfig, log: seq<PolicyEvent>, s: SetState, kind: PolicyKind, tag: nat, write: bool)
    requires SetOk(cfg, s) && Tells(log, s, kind)
    ensures var s' := SetAccess(cfg, s, tag, write).0;
            Tells(log + HooksOf(s.lines, s'.lines, false, tag), s', kind)
  {
    hide RunEvents, Tells;
    var s' := SetAccess(cfg, s, tag, write).0;
    AccessHooks(cfg, s, tag, write);
    if FindWay(s.lines, tag).None? && Installs(cfg, write) {
      var w := FillWay(s);
      assert Matches(s'.lines[w], tag);
      assert forall v | 0 <= v < |s.lines| && v != w :: s'.lines[v] == s.lines[v];
      assert FindWay(s'.lines, tag) == Some(w);
    }
    TellsOn(log, s, s', kind, false, tag);
  }

  lemma DropTells(cfg: CacheConfig, log: seq<PolicyEvent>, s: SetState, kind: PolicyKind, tag: nat)
    requires SetOk(cfg, s) && Tells(log, s, kind)
    ensures var s' := SetInvalidate(cfg, s, tag);
            Tells(log + HooksOf(s.lines, s'.lines, true, tag), s', kind)
  {
    hide RunEvents, Tells;
    DropHooks(cfg, s, tag);
    TellsOn(log, s, SetInvalidate(cfg, s, tag), kind, true, tag);
  }

  // ---- Whole runs of one level ----

  /** The calls made to the policy of set `i`, read off that set's lines before and after each operation. */
  ghost function HookLog(c: CacheState, ops: seq<CacheOp>, i: nat): seq<PolicyEvent>
    requires CacheOk(c) && Addresses(ops) && i < c.geo.numSets
  {
    if ops == [] then []
    else
      var n := |ops| - 1;
      var line := LineOf(c.geo, ops[n].address);
      HookLog(c, ops[..n], i) +
      if SetOf(c.geo, line) == i then
        HooksOf(RunOps(c, ops[..n]).sets[i].lines, RunOps(c, ops).sets[i].lines, ops[n].Drop?, TagOf(c.geo, line))
      else []
  }

  /** In every run a set's policy is the one its own history of hooks determines. */
  lemma {:induction false} HooksDrivePolicy(cfg: CacheConfig, ops: seq<CacheOp>, i: nat)
    requires Constructible(cfg) && Addresses(ops) && i < Initial(cfg).geo.numSets
    ensures Tells(HookLog(Initial(cfg), ops, i), RunOps(Initial(cfg), ops).sets[i], cfg.eviction)
  {
    hide Tells, SetAccess, SetInvalidate, HooksOf, LineFits;
    var c := Initial(cfg);
    if ops == [] {
      ColdTells(cfg, i);
    } else {
      var n := |ops| - 1;
      var before, line := RunOps(c, ops[..n]), LineOf(c.geo, ops[n].address);
      HooksDrivePolicy(cfg, ops[..n], i);
      AccessedSet(c.geo, ops[n].address);
      var log, tag := HookLog(c, ops[..n], i), TagOf(c.geo, line);
      if SetOf(c.geo, line) != i {
        assert log + [] == log;
      } else if ops[n].Touch? {
        AccessTells(cfg, log, before.sets[i], cfg.eviction, tag, ops[n].kind == WriteAccess);
      } else {
        DropTells(cfg, log, before.sets[i], cfg.eviction, tag);
      }
    }
  }

  lemma ColdTells(cfg: CacheConfig, i: nat)
    requires Constructible(cfg) && i < Initial(cfg).geo.numSets
    ensures Tells([], Initial(cfg).sets[i], cfg.eviction)
  {}

  // ---- What is evicted ----

  /** Way `w` goes before way `v`: least recently used, first in, or fewest hits and then first in. */
  ghost predicate GoesBefore(kind: PolicyKind, log: seq<PolicyEvent>, w: nat, v: nat) {
    match kind
    case KindLRU => UsedAt(log, w).Some? && UsedAt(log, v).Some? && UsedAt(log, w).value < UsedAt(log, v).value
    case KindFIFO =>
      InsertedAt(log, w).Some? && InsertedAt(log, v).Some? && InsertedAt(log, w).value < InsertedAt(log, v).value
    case KindLFU =>
      && InstalledAt(log, w).Some? && InstalledAt(log, v).Some?
      && (|| HitsSince(log, w) < HitsSince(log, v)
          || (HitsSince(log, w) == HitsSince(log, v) && InstalledAt(log, w).value < InstalledAt(log, v).value))
  }

  /** Whatever the policy, the ways of a set that hold lines are those its history knows. */
  lemma KnownWays(cfg: CacheConfig, s: SetState, log: seq<PolicyEvent>, w: nat)
    requires SetOk(cfg, s) && Tells(log, s, cfg.eviction) && w < |s.lines| && s.lines[w].valid
    ensures match cfg.eviction
            case KindLRU => UsedAt(log, w).Some?
            case KindFIFO => InsertedAt(log, w).Some?
            case KindLFU => InstalledAt(log, w).Some?
  {
    hide UsedAt, InsertedAt, InstalledAt, HitsSince, RunEvents, InsertsOnce;
    assert w in ValidWays(s.lines);
    assert w in s.policy.Tracked();
    match cfg.eviction
    case KindLRU => LruHistory(log);
    case KindFIFO =>
    case KindLFU => LfuHistory(log);
  }

  lemma VictimGoesFirst(cfg: CacheConfig, s: SetState, log: seq<PolicyEvent>, w: nat, v: nat)
    requires SetOk(cfg, s) && Tells(log, s, cfg.eviction) && SelectVictim(s.policy) == Some(w)
    requires v < |s.lines| && s.lines[v].valid && v != w
    ensures GoesBefore(cfg.eviction, log, w, v)
  {
    hide UsedAt, InsertedAt, InstalledAt, HitsSince, RunEvents, InsertsOnce, SelectVictim, SetOk;
    KnownWays(cfg, s, log, v);
    match cfg.eviction
    case KindLRU => LruVictimByHistory(log, w);
    case KindFIFO => FifoVictimByHistory(log, w);
    case KindLFU => LfuVictimByHistory(log, w);
  }

  /** A fill takes the first way without a line, or the way the history singles out. */
  ghost predicate FillsBy(kind: PolicyKind, log: seq<PolicyEvent>, lines: seq<CacheLine>, w: nat, n: CacheLine,
                          lines': seq<CacheLine>)
  {
    && w < |lines| == |lines'|
    && lines'[w] == n && (forall v | 0 <= v < |lines| && v != w :: lines'[v] == lines[v])
    && if lines[w].valid
       then forall v | 0 <= v < |lines| && v != w :: lines[v].valid && GoesBefore(kind, log, w, v)
       else forall v | 0 <= v < w :: lines[v].valid
  }

  lemma SetFillsBy(cfg: CacheConfig, s: SetState, log: seq<PolicyEvent>, tag: nat, write: bool) returns (w: nat)
    requires SetOk(cfg, s) && Tells(log, s, cfg.eviction)
    requires !Resident(s, tag) && (write ==> cfg.writeAllocate == WriteAllocate)
    ensures FillsBy(cfg.eviction, log, s.lines, w,
                    CacheLine(true, write && cfg.writePolicy == WriteBack, tag),
                    SetAccess(cfg, s, tag, write).0.lines)
  {
    hide Tells, GoesBefore, SetAccess, SelectVictim, SetOk, Resident;
    w := FillGoesTo(cfg, s, tag, write);
    if s.lines[w].valid {
      forall v | 0 <= v < |s.lines| && v != w ensures s.lines[v].valid && GoesBefore(cfg.eviction, log, w, v) {
        VictimGoesFirst(cfg, s, log, w, v);
      }
    }
  }

  /** The same inside set `i` of a whole cache. */
  ghost predicate FillsIn(c: CacheState, c': CacheState, i: nat, log: seq<PolicyEvent>, w: nat, n: CacheLine) {
    && i < |c.sets| == |c'.sets|
    && FillsBy(c.cfg.eviction, log, c.sets[i].lines, w, n, c'.sets[i].lines)
  }

  lemma FillsOneSet(c: CacheState, address: nat, kind: AccessType, log: seq<PolicyEvent>) returns (w: nat)
    requires CacheOk(c) && !Holds(c, LineOf(c.geo, address))
    requires Tells(log, c.sets[SetOf(c.geo, LineOf(c.geo, address))], c.cfg.eviction)
    requires kind == WriteAccess ==> c.cfg.writeAllocate == WriteAllocate
    ensures var line := LineOf(c.geo, address);
            FillsIn(c, Access(c, address, kind).0, SetOf(c.geo, line), log, w,
                    CacheLine(true, kind == WriteAccess && c.cfg.writePolicy == WriteBack, TagOf(c.geo, line)))
  {
    hide Tells, SetAccess, LineFits, FillsBy, SetOk, Resident;
    var line := LineOf(c.geo, address);
    AccessedSet(c.geo, address);
    w := SetFillsBy(c.cfg, c.sets[SetOf(c.geo, line)], log, TagOf(c.geo, line), kind == WriteAccess);
  }

  /**
   After every run of accesses and invalidations from cold, a fill takes the first way without
   a line; in a full set it replaces the line that the history of the set's own accesses
   singles out, and no other way changes.
   */
  lemma EvictsByHistory(cfg: CacheConfig, ops: seq<CacheOp>, address: nat, kind: AccessType) returns (w: nat)
    requires Constructible(cfg) && Addresses(ops)
    requires var c := RunOps(Initial(cfg), ops); !Holds(c, LineOf(c.geo, address))
    requires kind == WriteAccess ==> cfg.writeAllocate == WriteAllocate
    ensures var c := RunOps(Initial(cfg), ops);
            var line := LineOf(c.geo, address);
            var i := SetOf(c.geo, line);
            FillsIn(c, Access(c, address, kind).0, i, HookLog(Initial(cfg), ops, i), w,
                    CacheLine(true, kind == WriteAccess && cfg.writePolicy == WriteBack, TagOf(c.geo, line)))
  {
    hide Tells, HookLog, FillsIn, SetOk, Access, RunOps, Addresses, LineFits, Holds;
    var c := RunOps(Initial(cfg), ops);
    var i := SetOf(c.geo, LineOf(c.geo, address));
    HooksDrivePolicy(cfg, ops, i);
    w := FillsOneSet(c, address, kind, HookLog(Initial(cfg), ops, i));
  }
}
