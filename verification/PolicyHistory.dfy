/** Which way each policy evicts, told from the history of hook calls alone. */
module PolicyHistory {
  import opened Basics
  import opened EvictionPolicy

  // ---- What a history says about a way ----

  /** Position of the install a way lives by: an insert, or an access to a way nothing tracked. */
  function InstalledAt(events: seq<PolicyEvent>, way: nat): (r: Option<nat>)
    ensures r.Some? ==> r.value < |events|
  {
    if events == [] then None
    else
      var n := |events| - 1;
      var before := InstalledAt(events[..n], way);
      if events[n] == Inserted(way) || (events[n] == Accessed(way) && before.None?) then Some(n)
      else if events[n] == Removed(way) then None
      else before
  }

  /** Accesses to a way since that install. */
  function HitsSince(events: seq<PolicyEvent>, way: nat): nat
    requires InstalledAt(events, way).Some?
  {
    Accesses(events[InstalledAt(events, way).value + 1..], way)
  }

  /** Position of a way's last insert or access, unless it has been removed since. */
  function UsedAt(events: seq<PolicyEvent>, way: nat): (r: Option<nat>)
    ensures r.Some? ==> r.value < |events|
  {
    if events == [] then None
    else
      var n := |events| - 1;
      if events[n] == Inserted(way) || events[n] == Accessed(way) then Some(n)
      else if events[n] == Removed(way) then None
      else UsedAt(events[..n], way)
  }

  /** Position of a way's last insert, unless it has been removed since. */
  function InsertedAt(events: seq<PolicyEvent>, way: nat): (r: Option<nat>)
    ensures r.Some? ==> r.value < |events|
  {
    if events == [] then None
    else
      var n := |events| - 1;
      if events[n] == Inserted(way) then Some(n)
      else if events[n] == Removed(way) then None
      else InsertedAt(events[..n], way)
  }

  // ---- LFU ----

  ghost predicate LfuAgrees(events: seq<PolicyEvent>, p: Policy) {
    && p.LFU? && p.Ok()
    && (forall w: nat :: w in p.meta <==> InstalledAt(events, w).Some?)
    && (forall w | w in p.meta :: p.meta[w].freq == 1 + HitsSince(events, w))
    && (forall v, w | v in p.meta && w in p.meta ::
          p.meta[v].insertSeq < p.meta[w].insertSeq
          <==> InstalledAt(events, v).value < InstalledAt(events, w).value)
  }

  /** One more event, seen from one way. */
  lemma HitsStep(events: seq<PolicyEvent>, w: nat)
    requires events != [] && InstalledAt(events, w).Some?
    ensures var n := |events| - 1;
            var i := InstalledAt(events, w).value;
            if i == n then HitsSince(events, w) == 0
            else InstalledAt(events[..n], w) == Some(i)
                 && HitsSince(events, w) == HitsSince(events[..n], w) + if events[n] == Accessed(w) then 1 else 0
  {
    var n, i := |events| - 1, InstalledAt(events, w).value;
    var after := events[i + 1..];
    if i < n {
      assert after[..|after| - 1] == events[..n][i + 1..];
    }
  }

  lemma InstalledStep(events: seq<PolicyEvent>, w: nat)
    requires events != []
    ensures var n := |events| - 1;
            var before := InstalledAt(events[..n], w);
            InstalledAt(events, w)
            == if events[n] == Inserted(w) || (events[n] == Accessed(w) && before.None?) then Some(n)
               else if events[n] == Removed(w) then None
               else before
  {}

  /** One event on the tracked ways. */
  lemma LfuTracks(events: seq<PolicyEvent>, q: Policy, w: nat)
    requires events != [] && LfuAgrees(events[..|events| - 1], q)
    ensures var p := ApplyEvent(q, events[|events| - 1]);
            && p.LFU? && (w in p.meta <==> InstalledAt(events, w).Some?)
            && (w in p.meta ==> p.meta[w].freq == 1 + HitsSince(events, w))
            && (w in p.meta ==>
                  if InstalledAt(events, w).value == |events| - 1 then p.meta[w].insertSeq == q.clock
                  else w in q.meta && p.meta[w].insertSeq == q.meta[w].insertSeq < q.clock
                       && InstalledAt(events[..|events| - 1], w) == InstalledAt(events, w))
  {
    hide InstalledAt, HitsSince;
    InstalledStep(events, w);
    LfuTracked(events[..|events| - 1], q, w);
    if InstalledAt(events, w).Some? {
      HitsStep(events, w);
    }
  }

  lemma {:induction false} LfuHistory(events: seq<PolicyEvent>)
    ensures LfuAgrees(events, RunEvents(LFU(map[], 0), events))
  {
    if events != [] {
      var n := |events| - 1;
      LfuHistory(events[..n]);
      LfuRunOk(events);
      LfuStep(events, RunEvents(LFU(map[], 0), events[..n]));
    }
  }

  lemma LfuStep(events: seq<PolicyEvent>, q: Policy)
    requires events != [] && LfuAgrees(events[..|events| - 1], q) && ApplyEvent(q, events[|events| - 1]).Ok()
    ensures LfuAgrees(events, ApplyEvent(q, events[|events| - 1]))
  {
    hide ApplyEvent, InstalledAt, HitsSince;
    var n, p := |events| - 1, ApplyEvent(q, events[|events| - 1]);
    LfuTracks(events, q, 0);
    forall w: nat
      ensures p.LFU? && (w in p.meta <==> InstalledAt(events, w).Some?)
      ensures w in p.meta ==> p.meta[w].freq == 1 + HitsSince(events, w)
    {
      LfuTracks(events, q, w);
    }
    forall v, w | v in p.meta && w in p.meta
      ensures p.meta[v].insertSeq < p.meta[w].insertSeq
              <==> InstalledAt(events, v).value < InstalledAt(events, w).value
    {
      LfuTracks(events, q, v);
      LfuTracks(events, q, w);
    }
  }

  /**
   The LFU victim has the fewest hits since its install among the tracked ways, and among equals
   the oldest install; it exists unless nothing is tracked. Hits do not renew an install.
   */
  lemma LfuVictimByHistory(events: seq<PolicyEvent>, w: nat)
    ensures var victim := SelectVictim(RunEvents(LFU(map[], 0), events));
            && (victim == Some(w) <==>
                  && InstalledAt(events, w).Some?
                  && forall v: nat | v != w && InstalledAt(events, v).Some? ::
                       || HitsSince(events, w) < HitsSince(events, v)
                       || (HitsSince(events, w) == HitsSince(events, v)
                           && InstalledAt(events, w).value < InstalledAt(events, v).value))
            && (victim.None? <==> forall v: nat :: InstalledAt(events, v).None?)
  {
    hide InstalledAt, HitsSince, RunEvents, IsLfuVictim, SelectVictim, LfuAgrees;
    LfuHistory(events);
    LfuChoice(events, RunEvents(LFU(map[], 0), events), w);
  }

  /** The order of the scan, in terms of the history. */
  ghost predicate EvictedBefore(events: seq<PolicyEvent>, w: nat, v: nat)
    requires InstalledAt(events, w).Some? && InstalledAt(events, v).Some?
  {
    || HitsSince(events, w) < HitsSince(events, v)
    || (HitsSince(events, w) == HitsSince(events, v) && InstalledAt(events, w).value < InstalledAt(events, v).value)
  }

  lemma ScanOrder(events: seq<PolicyEvent>, p: Policy, w: nat, v: nat)
    requires LfuAgrees(events, p) && w in p.meta && v in p.meta && v != w
    ensures InstalledAt(events, w).Some? && InstalledAt(events, v).Some?
    ensures p.meta[w].insertSeq != p.meta[v].insertSeq
    ensures Before(p.meta[w], p.meta[v]) <==> EvictedBefore(events, w, v)
  {
    hide InstalledAt, HitsSince;
  }

  lemma LfuTracked(events: seq<PolicyEvent>, p: Policy, w: nat)
    requires LfuAgrees(events, p)
    ensures p.LFU? && (w in p.meta <==> InstalledAt(events, w).Some?)
  {}

  lemma ScanVictim(events: seq<PolicyEvent>, p: Policy, w: nat)
    requires LfuAgrees(events, p)
    ensures IsLfuVictim(p.meta, w) <==>
              && InstalledAt(events, w).Some?
              && forall v: nat | v != w && InstalledAt(events, v).Some? :: EvictedBefore(events, w, v)
  {
    hide InstalledAt, EvictedBefore, LfuAgrees, Before;
    LfuTracked(events, p, w);
    if InstalledAt(events, w).Some? {
      forall v: nat | v != w
        ensures v in p.meta <==> InstalledAt(events, v).Some?
        ensures v in p.meta ==> (Before(p.meta[w], p.meta[v]) <==> EvictedBefore(events, w, v))
      {
        LfuTracked(events, p, v);
        if v in p.meta {
          ScanOrder(events, p, w, v);
        }
      }
    }
  }

  lemma LfuChoice(events: seq<PolicyEvent>, p: Policy, w: nat)
    requires LfuAgrees(events, p)
    ensures SelectVictim(p) == Some(w) <==>
              && InstalledAt(events, w).Some?
              && forall v: nat | v != w && InstalledAt(events, v).Some? :: EvictedBefore(events, w, v)
    ensures SelectVictim(p).None? <==> forall v: nat :: InstalledAt(events, v).None?
  {
    hide InstalledAt, EvictedBefore, IsLfuVictim;
    ScanVictim(events, p, w);
    if p.meta == map[] {
      NothingTracked(events, p);
      LfuTracked(events, p, w);
    } else {
      LfuVictimDetermined(p, w);
      var some :| some in p.meta;
      LfuTracked(events, p, some);
    }
  }

  lemma NothingTracked(events: seq<PolicyEvent>, p: Policy)
    requires LfuAgrees(events, p) && p.meta == map[]
    ensures SelectVictim(p).None? && forall v: nat :: InstalledAt(events, v).None?
  {
    hide InstalledAt;
    forall v: nat ensures InstalledAt(events, v).None? && !IsLfuVictim(p.meta, v) {
      LfuTracked(events, p, v);
    }
  }

  // ---- LRU ----

  ghost predicate LruAgrees(events: seq<PolicyEvent>, p: Policy) {
    && p.LRU?
    && (forall w: nat :: w in p.order <==> UsedAt(events, w).Some?)
    && (forall i, j | 0 <= i < j < |p.order| ::
          && UsedAt(events, p.order[i]).Some? && UsedAt(events, p.order[j]).Some?
          && UsedAt(events, p.order[i]).value > UsedAt(events, p.order[j]).value)
  }

  lemma {:induction false} LruHistory(events: seq<PolicyEvent>)
    ensures LruAgrees(events, RunEvents(LRU([]), events))
  {
    if events != [] {
      LruHistory(events[..|events| - 1]);
      LruStep(events, RunEvents(LRU([]), events[..|events| - 1]));
    }
  }

  lemma LruStep(events: seq<PolicyEvent>, q: Policy)
    requires events != [] && LruAgrees(events[..|events| - 1], q)
    ensures LruAgrees(events, ApplyEvent(q, events[|events| - 1]))
  {
    hide UsedAt, Erase;
    var e, p := events[|events| - 1], ApplyEvent(q, events[|events| - 1]);
    var rest := Erase(q.order, e.way);
    UsedStep(events);
    OrderIsDistinct(events[..|events| - 1], q);
    EraseElements(q.order, e.way);
    RestStaysSorted(events, q);
    assert p.order == if e.Removed? then rest else [e.way] + rest;
    forall i, j | 0 <= i < j < |p.order|
      ensures UsedAt(events, p.order[i]).Some? && UsedAt(events, p.order[j]).Some?
      ensures UsedAt(events, p.order[i]).value > UsedAt(events, p.order[j]).value
    {
      if !e.Removed? {
        assert p.order[j] == rest[j - 1];
        assert i > 0 ==> p.order[i] == rest[i - 1];
      }
    }
  }

  lemma RestStaysSorted(events: seq<PolicyEvent>, q: Policy)
    requires events != [] && LruAgrees(events[..|events| - 1], q) && NoDup(q.order)
    ensures var rest := Erase(q.order, events[|events| - 1].way);
            && (forall j | 0 <= j < |rest| ::
                  UsedAt(events, rest[j]).Some? && UsedAt(events, rest[j]).value < |events| - 1)
            && (forall i, j | 0 <= i < j < |rest| ::
                  UsedAt(events, rest[i]).value > UsedAt(events, rest[j]).value)
  {
    hide UsedAt, Erase;
    var init, rest := events[..|events| - 1], Erase(q.order, events[|events| - 1].way);
    UsedStep(events);
    var k := EraseCuts(q.order, events[|events| - 1].way);
    forall j | 0 <= j < |rest|
      ensures UsedAt(events, rest[j]) == UsedAt(init, q.order[Uncut(k, j)]) && UsedAt(events, rest[j]).Some?
    {
      assert q.order[Uncut(k, j)] in q.order;
    }
    forall i, j | 0 <= i < j < |rest| ensures UsedAt(events, rest[i]).value > UsedAt(events, rest[j]).value {
      assert Uncut(k, i) < Uncut(k, j);
    }
  }

  lemma UsedStep(events: seq<PolicyEvent>)
    requires events != []
    ensures var n, e := |events| - 1, events[|events| - 1];
            && (UsedAt(events, e.way) == if e.Removed? then None else Some(n))
            && (forall w: nat | w != e.way :: UsedAt(events, w) == UsedAt(events[..n], w))
  {}

  lemma OrderIsDistinct(events: seq<PolicyEvent>, q: Policy)
    requires LruAgrees(events, q)
    ensures NoDup(q.order)
  {}

  lemma LastIsOlder(events: seq<PolicyEvent>, p: Policy, v: nat)
    requires LruAgrees(events, p) && p.order != []
    ensures var last := p.order[|p.order| - 1];
            UsedAt(events, last).Some?
            && (v != last && UsedAt(events, v).Some? ==> UsedAt(events, last).value < UsedAt(events, v).value)
  {
    hide UsedAt;
    assert p.order[|p.order| - 1] in p.order;
    if UsedAt(events, v).Some? {
      var k :| 0 <= k < |p.order| && p.order[k] == v;
    }
  }

  /** The last of the list is the only one used before all others. */
  lemma OldestIsLast(events: seq<PolicyEvent>, p: Policy, w: nat)
    requires LruAgrees(events, p) && p.order != []
    ensures w == p.order[|p.order| - 1] <==>
              && UsedAt(events, w).Some?
              && forall v: nat | v != w && UsedAt(events, v).Some? :: UsedAt(events, w).value < UsedAt(events, v).value
  {
    hide UsedAt;
    LastIsOlder(events, p, w);
    if w == p.order[|p.order| - 1] {
      forall v: nat | v != w && UsedAt(events, v).Some? ensures UsedAt(events, w).value < UsedAt(events, v).value {
        LastIsOlder(events, p, v);
      }
    }
  }

  /** The LRU victim is the tracked way whose last insert or access is the oldest. */
  lemma LruVictimByHistory(events: seq<PolicyEvent>, w: nat)
    ensures var victim := SelectVictim(RunEvents(LRU([]), events));
            && (victim == Some(w) <==>
                  && UsedAt(events, w).Some?
                  && forall v: nat | v != w && UsedAt(events, v).Some? ::
                       UsedAt(events, w).value < UsedAt(events, v).value)
            && (victim.None? <==> forall v: nat :: UsedAt(events, v).None?)
  {
    hide UsedAt, RunEvents;
    LruHistory(events);
    var p := RunEvents(LRU([]), events);
    if p.order != [] {
      OldestIsLast(events, p, w);
      var some := p.order[0];
      assert some in p.order;
      assert UsedAt(events, some).Some?;
    } else {
      forall v: nat ensures UsedAt(events, v).None? {
        assert v in p.order <==> UsedAt(events, v).Some?;
      }
    }
  }

  // ---- FIFO ----

  /** No way is inserted while it is tracked. */
  ghost predicate InsertsOnce(events: seq<PolicyEvent>) {
    forall k | 0 <= k < |events| && events[k].Inserted? :: InsertedAt(events[..k], events[k].way).None?
  }

  ghost predicate FifoAgrees(events: seq<PolicyEvent>, p: Policy) {
    && p.FIFO?
    && (forall w: nat :: w in p.queue <==> InsertedAt(events, w).Some?)
    && (forall i, j | 0 <= i < j < |p.queue| ::
          && InsertedAt(events, p.queue[i]).Some? && InsertedAt(events, p.queue[j]).Some?
          && InsertedAt(events, p.queue[i]).value < InsertedAt(events, p.queue[j]).value)
  }

  lemma {:induction false} FifoHistory(events: seq<PolicyEvent>)
    requires InsertsOnce(events)
    ensures FifoAgrees(events, RunEvents(FIFO([]), events))
  {
    if events != [] {
      var init := events[..|events| - 1];
      assert forall k | 0 <= k < |init| :: init[k] == events[k] && init[..k] == events[..k];
      FifoHistory(init);
      FifoStep(events, RunEvents(FIFO([]), init));
    }
  }

  lemma InsertedStep(events: seq<PolicyEvent>)
    requires events != []
    ensures var n, e := |events| - 1, events[|events| - 1];
            && (e.Inserted? ==> InsertedAt(events, e.way) == Some(n))
            && (e.Removed? ==> InsertedAt(events, e.way) == None)
            && (forall w: nat | w != e.way || e.Accessed? :: InsertedAt(events, w) == InsertedAt(events[..n], w))
  {}

  lemma FifoStep(events: seq<PolicyEvent>, q: Policy)
    requires events != [] && FifoAgrees(events[..|events| - 1], q)
    requires var e := events[|events| - 1]; e.Inserted? ==> InsertedAt(events[..|events| - 1], e.way).None?
    ensures FifoAgrees(events, ApplyEvent(q, events[|events| - 1]))
  {
    hide InsertedAt, Erase;
    InsertedStep(events);
    match events[|events| - 1] {
      case Accessed(_) =>
      case Inserted(_) => FifoInsert(events, q);
      case Removed(_) => FifoRemove(events, q);
    }
  }

  lemma FifoInsert(events: seq<PolicyEvent>, q: Policy)
    requires events != [] && FifoAgrees(events[..|events| - 1], q) && events[|events| - 1].Inserted?
    requires InsertedAt(events[..|events| - 1], events[|events| - 1].way).None?
    ensures FifoAgrees(events, FIFO(q.queue + [events[|events| - 1].way]))
  {
    hide InsertedAt;
    InsertedStep(events);
    var queue := q.queue + [events[|events| - 1].way];
    forall i, j | 0 <= i < j < |queue|
      ensures InsertedAt(events, queue[i]).Some? && InsertedAt(events, queue[j]).Some?
      ensures InsertedAt(events, queue[i]).value < InsertedAt(events, queue[j]).value
    {
      assert q.queue[i] in q.queue && (j < |q.queue| ==> q.queue[j] in q.queue);
    }
  }

  lemma FifoRemove(events: seq<PolicyEvent>, q: Policy)
    requires events != [] && FifoAgrees(events[..|events| - 1], q) && events[|events| - 1].Removed?
    ensures FifoAgrees(events, FIFO(Erase(q.queue, events[|events| - 1].way)))
  {
    hide InsertedAt, Erase;
    var n, way := |events| - 1, events[|events| - 1].way;
    InsertedStep(events);
    QueueIsDistinct(events[..n], q);
    EraseElements(q.queue, way);
    var k := EraseCuts(q.queue, way);
    var queue := Erase(q.queue, way);
    forall j | 0 <= j < |queue|
      ensures InsertedAt(events, queue[j]) == InsertedAt(events[..n], q.queue[Uncut(k, j)])
      ensures InsertedAt(events, queue[j]).Some?
    {
      assert queue[j] in queue && q.queue[Uncut(k, j)] in q.queue;
    }
    forall i, j | 0 <= i < j < |queue|
      ensures InsertedAt(events, queue[i]).value < InsertedAt(events, queue[j]).value
    {
      assert Uncut(k, i) < Uncut(k, j);
    }
  }

  lemma QueueIsDistinct(events: seq<PolicyEvent>, q: Policy)
    requires FifoAgrees(events, q)
    ensures NoDup(q.queue)
  {}

  lemma FirstIsOlder(events: seq<PolicyEvent>, p: Policy, v: nat)
    requires FifoAgrees(events, p) && p.queue != []
    ensures var first := p.queue[0];
            InsertedAt(events, first).Some?
            && (v != first && InsertedAt(events, v).Some? ==>
                  InsertedAt(events, first).value < InsertedAt(events, v).value)
  {
    hide InsertedAt;
    assert p.queue[0] in p.queue;
    if InsertedAt(events, v).Some? {
      var k :| 0 <= k < |p.queue| && p.queue[k] == v;
    }
  }

  lemma FirstIsOldest(events: seq<PolicyEvent>, p: Policy, w: nat)
    requires FifoAgrees(events, p) && p.queue != []
    ensures w == p.queue[0] <==>
              && InsertedAt(events, w).Some?
              && forall v: nat | v != w && InsertedAt(events, v).Some? ::
                   InsertedAt(events, w).value < InsertedAt(events, v).value
  {
    hide InsertedAt;
    FirstIsOlder(events, p, w);
    if w == p.queue[0] {
      forall v: nat | v != w && InsertedAt(events, v).Some?
        ensures InsertedAt(events, w).value < InsertedAt(events, v).value
      {
        FirstIsOlder(events, p, v);
      }
    }
  }

  /** The FIFO victim is the tracked way inserted first, whatever was accessed since. */
  lemma FifoVictimByHistory(events: seq<PolicyEvent>, w: nat)
    requires InsertsOnce(events)
    ensures var victim := SelectVictim(RunEvents(FIFO([]), events));
            && (victim == Some(w) <==>
                  && InsertedAt(events, w).Some?
                  && forall v: nat | v != w && InsertedAt(events, v).Some? ::
                       InsertedAt(events, w).value < InsertedAt(events, v).value)
            && (victim.None? <==> forall v: nat :: InsertedAt(events, v).None?)
  {
    hide InsertedAt, RunEvents;
    FifoHistory(events);
    var p := RunEvents(FIFO([]), events);
    if p.queue != [] {
      FirstIsOldest(events, p, w);
      var some := p.queue[0];
      assert some in p.queue;
      assert InsertedAt(events, some).Some?;
    } else {
      forall v: nat ensures InsertedAt(events, v).None? {
        assert v in p.queue <==> InsertedAt(events, v).Some?;
      }
    }
  }
}
