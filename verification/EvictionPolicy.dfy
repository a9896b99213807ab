/**
 The three replacement policies as values: what each hook of the policy interface
 does to the abstract state. The classes in PolicyObjects refine these functions.
 */
module EvictionPolicy {
  import opened Basics

  datatype PolicyKind = KindLRU | KindFIFO | KindLFU

  datatype Meta = Meta(freq: nat, insertSeq: nat)

  datatype Policy =
    | LRU(order: seq<nat>)                  // most recently used first
    | FIFO(queue: seq<nat>)                 // oldest insertion first
    | LFU(meta: map<nat, Meta>, clock: nat)
  {
    function Kind(): PolicyKind {
      match this
      case LRU(_) => KindLRU
      case FIFO(_) => KindFIFO
      case LFU(_, _) => KindLFU
    }

    /** The ways that were inserted and not yet removed. */
    function Tracked(): set<nat> {
      match this
      case LRU(order) => Elements(order)
      case FIFO(queue) => Elements(queue)
      case LFU(meta, _) => meta.Keys
    }

    /** What every reachable policy state satisfies. */
    ghost predicate Ok() {
      match this
      case LRU(order) => NoDup(order)
      case FIFO(queue) => NoDup(queue)
      case LFU(meta, clock) => LfuOk(meta, clock)
    }
  }

  ghost predicate LfuOk(meta: map<nat, Meta>, clock: nat) {
    && (forall w | w in meta :: meta[w].insertSeq < clock && 1 <= meta[w].freq)
    && (forall v, w | v in meta && w in meta && v != w :: meta[v].insertSeq != meta[w].insertSeq)
  }

  function Fresh(kind: PolicyKind): Policy {
    match kind
    case KindLRU => LRU([])
    case KindFIFO => FIFO([])
    case KindLFU => LFU(map[], 0)
  }

  function OnInsert(p: Policy, way: nat): Policy {
    match p
    case LRU(order) => LRU([way] + Erase(order, way))
    case FIFO(queue) => FIFO(queue + [way])
    case LFU(meta, clock) => LFU(meta[way := Meta(1, clock)], clock + 1)
  }

  function OnAccess(p: Policy, way: nat): Policy {
    match p
    case LRU(order) => LRU([way] + Erase(order, way))
    case FIFO(_) => p
    case LFU(meta, clock) =>
      if way in meta then LFU(meta[way := meta[way].(freq := meta[way].freq + 1)], clock)
      else LFU(meta[way := Meta(1, clock)], clock + 1)
  }

  function OnRemove(p: Policy, way: nat): Policy {
    match p
    case LRU(order) => LRU(Erase(order, way))
    case FIFO(queue) => FIFO(Erase(queue, way))
    case LFU(meta, clock) => LFU(meta - {way}, clock)
  }

  /** Lower frequency first, older insertion first on a tie. */
  predicate Before(a: Meta, b: Meta) {
    a.freq < b.freq || (a.freq == b.freq && a.insertSeq < b.insertSeq)
  }

  ghost predicate IsLfuVictim(meta: map<nat, Meta>, w: nat) {
    w in meta && forall v | v in meta && v != w :: Before(meta[w], meta[v])
  }

  /** None stands for the `std::logic_error` raised when nothing is tracked. */
  ghost function SelectVictim(p: Policy): Option<nat> {
    match p
    case LRU(order) => if order == [] then None else Some(order[|order| - 1])
    case FIFO(queue) => if queue == [] then None else Some(queue[0])
    case LFU(meta, _) => if exists w :: IsLfuVictim(meta, w) then var w :| IsLfuVictim(meta, w); Some(w) else None
  }

  /** Distinct insertion numbers make the lexicographic minimum exist and be the only one. */
  lemma {:induction false} LfuVictimExists(meta: map<nat, Meta>, clock: nat) returns (w: nat)
    requires LfuOk(meta, clock) && meta != map[]
    ensures IsLfuVictim(meta, w)
    decreases |meta|
  {
    var k :| k in meta;
    var rest := meta - {k};
    assert |rest.Keys| == |meta.Keys - {k}|;
    assert forall v | v in meta && v != k :: v in rest && rest[v] == meta[v];
    if rest == map[] {
      w := k;
    } else {
      var best := LfuVictimExists(rest, clock);
      w := if Before(meta[k], meta[best]) then k else best;
      forall v | v in meta && v != w ensures Before(meta[w], meta[v]) {
        assert v != k && v != best ==> Before(rest[best], rest[v]);
      }
    }
  }

  lemma LfuVictimUnique(meta: map<nat, Meta>, v: nat, w: nat)
    requires IsLfuVictim(meta, v) && IsLfuVictim(meta, w)
    ensures v == w
  {
    assert v != w ==> Before(meta[v], meta[w]);
  }

  /**
   The LFU choice does not depend on hash order: some tracked way is chosen, and it is
   the only one that precedes all others by (frequency, insertion number).
   */
  lemma LfuVictimDetermined(p: Policy, w: nat)
    requires p.LFU? && p.Ok() && p.meta != map[]
    ensures SelectVictim(p).Some?
    ensures SelectVictim(p) == Some(w) <==> IsLfuVictim(p.meta, w)
    ensures SelectVictim(p) == Some(w) <==>
              w in p.meta && forall v | v in p.meta && v != w ::
                p.meta[w].freq < p.meta[v].freq
                || (p.meta[w].freq == p.meta[v].freq && p.meta[w].insertSeq < p.meta[v].insertSeq)
  {
    var v := LfuVictimExists(p.meta, p.clock);
    var chosen := SelectVictim(p).value;
    if IsLfuVictim(p.meta, w) {
      LfuVictimUnique(p.meta, chosen, w);
    }
  }

  /** A policy that tracks something names a tracked way as its victim. */
  lemma VictimIsTracked(p: Policy)
    requires p.Ok() && p.Tracked() != {}
    ensures SelectVictim(p).Some? && SelectVictim(p).value in p.Tracked()
  {
    match p
    case LRU(order) => assert order == [] ==> p.Tracked() == {};
    case FIFO(queue) => assert queue == [] ==> p.Tracked() == {};
    case LFU(meta, clock) =>
      assert meta != map[];
      var w := LfuVictimExists(meta, clock);
      LfuVictimDetermined(p, w);
  }

  lemma InsertTracks(p: Policy, way: nat)
    requires p.Ok() && way !in p.Tracked()
    ensures var q := OnInsert(p, way);
            q.Ok() && q.Tracked() == p.Tracked() + {way} && q.Kind() == p.Kind()
  {
    match p
    case LRU(order) => EraseAbsent(order, way);
    case FIFO(queue) =>
    case LFU(meta, clock) =>
  }

  lemma AccessTracks(p: Policy, way: nat)
    requires p.Ok() && way in p.Tracked()
    ensures var q := OnAccess(p, way);
            q.Ok() && q.Tracked() == p.Tracked() && q.Kind() == p.Kind()
  {
    match p
    case LRU(order) => EraseElements(order, way);
    case FIFO(queue) =>
    case LFU(meta, clock) =>
  }

  lemma RemoveTracks(p: Policy, way: nat)
    requires p.Ok()
    ensures var q := OnRemove(p, way);
            q.Ok() && q.Tracked() == p.Tracked() - {way} && q.Kind() == p.Kind()
  {
    match p
    case LRU(order) => EraseElements(order, way);
    case FIFO(queue) => EraseElements(queue, way);
    case LFU(meta, clock) =>
  }

  // ---- LFU counters over arbitrary histories ----

  datatype PolicyEvent = Inserted(way: nat) | Accessed(way: nat) | Removed(way: nat)

  function ApplyEvent(p: Policy, e: PolicyEvent): Policy {
    match e
    case Inserted(way) => OnInsert(p, way)
    case Accessed(way) => OnAccess(p, way)
    case Removed(way) => OnRemove(p, way)
  }

  function RunEvents(p: Policy, events: seq<PolicyEvent>): Policy {
    if events == [] then p else ApplyEvent(RunEvents(p, events[..|events| - 1]), events[|events| - 1])
  }

  function Accesses(events: seq<PolicyEvent>, way: nat): nat {
    if events == [] then 0
    else Accesses(events[..|events| - 1], way) + if events[|events| - 1] == Accessed(way) then 1 else 0
  }

  /** Whatever happens, insertion numbers stay distinct and below the clock. */
  lemma {:induction false} LfuRunOk(events: seq<PolicyEvent>)
    ensures var p := RunEvents(LFU(map[], 0), events); p.LFU? && p.Ok()
  {
    if events != [] {
      LfuRunOk(events[..|events| - 1]);
    }
  }

  /**
   A way's counter is one more than its hits since it was last installed, whatever the
   history before the install and whatever other ways do meanwhile.
   */
  lemma {:induction false} LfuFrequencyCountsHits(before: seq<PolicyEvent>, way: nat, after: seq<PolicyEvent>)
    requires Inserted(way) !in after && Removed(way) !in after
    ensures var p := RunEvents(LFU(map[], 0), before + [Inserted(way)] + after);
            p.LFU? && way in p.meta && p.meta[way].freq == 1 + Accesses(after, way)
  {
    var all := before + [Inserted(way)] + after;
    if after == [] {
      assert all[..|all| - 1] == before;
      LfuRunOk(before);
    } else {
      var init := after[..|after| - 1];
      assert all[..|all| - 1] == before + [Inserted(way)] + init;
      assert all[|all| - 1] == after[|after| - 1] && after[|after| - 1] in after;
      LfuFrequencyCountsHits(before, way, init);
    }
  }
}
