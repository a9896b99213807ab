/** The policy objects themselves: fields that the hooks rewrite in place. */
module PolicyObjects {
  import opened Basics
  import P = EvictionPolicy

  /** A cell of the recency list; `id` plays the part of a list iterator. */
  datatype Node = Node(id: nat, way: nat)

  /** `list::erase(it)`: unlink the cell the iterator designates. */
  function Unlink(order: seq<Node>, id: nat): seq<Node> {
    if order == [] then []
    else if order[0].id == id then order[1..]
    else [order[0]] + Unlink(order[1..], id)
  }

  function Ways(order: seq<Node>): (ws: seq<nat>)
    ensures |ws| == |order| && forall i | 0 <= i < |ws| :: ws[i] == order[i].way
  {
    seq(|order|, i requires 0 <= i < |order| => order[i].way)
  }

  /** The list and the hash index describe each other: one cell per indexed way. */
  ghost predicate Indexed(order: seq<Node>, index: map<nat, nat>, nextId: nat) {
    && (forall i | 0 <= i < |order| ::
          order[i].id < nextId && order[i].way in index && index[order[i].way] == order[i].id)
    && (forall i, j | 0 <= i < j < |order| :: order[i].id != order[j].id)
    && (forall w | w in index :: w in Ways(order))
  }

  lemma {:induction false} UnlinkIsErase(order: seq<Node>, k: nat)
    requires k < |order|
    requires forall i | 0 <= i < k :: order[i].id != order[k].id && order[i].way != order[k].way
    ensures Unlink(order, order[k].id) == order[..k] + order[k + 1..]
    ensures Ways(Unlink(order, order[k].id)) == Erase(Ways(order), order[k].way)
  {
    if k == 0 {
      assert Ways(order[1..]) == Ways(order)[1..];
    } else {
      var t := order[1..];
      assert t[k - 1] == order[k];
      UnlinkIsErase(t, k - 1);
      var u := Unlink(t, order[k].id);
      assert Unlink(order, order[k].id) == [order[0]] + u;
      assert Ways(t) == Ways(order)[1..] && Ways(order)[0] == order[0].way;
      assert Ways([order[0]] + u) == [order[0].way] + Ways(u);
      assert [order[0]] + (t[..k - 1] + t[k..]) == order[..k] + order[k + 1..];
    }
  }

  lemma CellOf(order: seq<Node>, index: map<nat, nat>, nextId: nat, way: nat) returns (k: nat)
    requires Indexed(order, index, nextId) && way in index
    ensures k < |order| && order[k].way == way && order[k].id == index[way]
    ensures forall i | 0 <= i < k :: order[i].id != order[k].id && order[i].way != way
  {
    var ways := Ways(order);
    WaysDistinct(order, index, nextId);
    k :| 0 <= k < |ways| && ways[k] == way;
    assert forall i | 0 <= i < k :: order[i].id != order[k].id && ways[i] != ways[k];
  }

  /** Following the index to a cell and unlinking it drops that way and nothing else. */
  lemma UnlinkWay(order: seq<Node>, index: map<nat, nat>, nextId: nat, way: nat)
    requires Indexed(order, index, nextId) && way in index
    ensures var u := Unlink(order, index[way]);
            && Indexed(u, index - {way}, nextId)
            && Ways(u) == Erase(Ways(order), way)
            && way !in Ways(u)
  {
    hide Unlink, Erase;
    var ways := Ways(order);
    WaysDistinct(order, index, nextId);
    var k := CellOf(order, index, nextId, way);
    UnlinkIsErase(order, k);
    EraseElements(ways, way);
    CutKeepsCells(order, index, nextId, k);
    assert forall w | w in index - {way} :: w in ways && w != way;
  }

  lemma WaysDistinct(order: seq<Node>, index: map<nat, nat>, nextId: nat)
    requires Indexed(order, index, nextId)
    ensures NoDup(Ways(order))
  {
    var ways := Ways(order);
    forall i, j | 0 <= i < j < |ways| ensures ways[i] != ways[j] {
      assert order[i].id != order[j].id;
    }
  }

  lemma CutKeepsCells(order: seq<Node>, index: map<nat, nat>, nextId: nat, k: nat)
    requires Indexed(order, index, nextId) && k < |order|
    requires NoDup(Ways(order))
    ensures var u := order[..k] + order[k + 1..];
            && (forall i | 0 <= i < |u| ::
                  u[i].id < nextId && u[i].way in index - {order[k].way} && index[u[i].way] == u[i].id)
            && (forall i, j | 0 <= i < j < |u| :: u[i].id != u[j].id)
  {
    var u, ways := order[..k] + order[k + 1..], Ways(order);
    assert forall i | 0 <= i < |order| && i != k :: ways[i] != ways[k];
    assert forall i | 0 <= i < |u| :: u[i] == order[if i < k then i else i + 1];
  }

  lemma PushFront(order: seq<Node>, index: map<nat, nat>, nextId: nat, way: nat)
    requires Indexed(order, index, nextId) && way !in index
    ensures var o := [Node(nextId, way)] + order;
            Indexed(o, index[way := nextId], nextId + 1) && Ways(o) == [way] + Ways(order)
  {
    var o := [Node(nextId, way)] + order;
    assert Ways(o) == [way] + Ways(order);
  }

  class LRUPolicy {
    var order: seq<Node>
    var index: map<nat, nat>
    var nextId: nat

    ghost predicate Valid()
      reads this
    {
      Indexed(order, index, nextId)
    }

    ghost function View(): P.Policy
      reads this
    {
      P.LRU(Ways(order))
    }

    constructor ()
      ensures Valid() && View() == P.LRU([])
    {
      order, index, nextId := [], map[], 0;
      new;
      assert Ways(order) == [];
    }

    method Reset()
      modifies this
      ensures Valid() && View() == P.LRU([])
    {
      order, index := [], map[];
      assert Ways(order) == [];
    }

    method Touch(way: nat)
      requires Valid()
      modifies this
      ensures Valid()
      ensures View() == P.OnInsert(old(View()), way) == P.OnAccess(old(View()), way)
    {
      if way in index {
        UnlinkWay(order, index, nextId, way);
        order := Unlink(order, index[way]);
      } else {
        EraseAbsent(Ways(order), way);
        assert index - {way} == index;
      }
      PushFront(order, index - {way}, nextId, way);
      assert (index - {way})[way := nextId] == index[way := nextId];
      order := [Node(nextId, way)] + order;
      index := index[way := nextId];
      nextId := nextId + 1;
    }

    method OnInsert(way: nat)
      requires Valid()
      modifies this
      ensures Valid() && View() == P.OnInsert(old(View()), way)
    {
      Touch(way);
    }

    method OnAccess(way: nat)
      requires Valid()
      modifies this
      ensures Valid() && View() == P.OnAccess(old(View()), way)
    {
      Touch(way);
    }

    method OnRemove(way: nat)
      requires Valid()
      modifies this
      ensures Valid() && View() == P.OnRemove(old(View()), way)
    {
      if way in index {
        UnlinkWay(order, index, nextId, way);
        order := Unlink(order, index[way]);
        index := index - {way};
      } else {
        EraseAbsent(Ways(order), way);
      }
    }

    method SelectVictim() returns (way: Option<nat>)
      requires Valid()
      ensures way == P.SelectVictim(View())
    {
      if order == [] {
        way := None;
      } else {
        way := Some(order[|order| - 1].way);
      }
    }
  }

  class FIFOPolicy {
    var queue: seq<nat>

    ghost function View(): P.Policy
      reads this
    {
      P.FIFO(queue)
    }

    constructor ()
      ensures View() == P.FIFO([])
    {
      queue := [];
    }

    method Reset()
      modifies this
      ensures View() == P.FIFO([])
    {
      queue := [];
    }

    method OnInsert(way: nat)
      modifies this
      ensures View() == P.OnInsert(old(View()), way)
    {
      queue := queue + [way];
    }

    method OnAccess(way: nat)
      modifies this
      ensures View() == P.OnAccess(old(View()), way)
    {
    }

    /** `std::find` followed by `erase`. */
    method OnRemove(way: nat)
      modifies this
      ensures View() == P.OnRemove(old(View()), way)
    {
      var i := 0;
      while i < |queue| && queue[i] != way
        invariant i <= |queue|
        invariant queue == old(queue)
        invariant Erase(queue, way) == queue[..i] + Erase(queue[i..], way)
      {
        assert queue[i..][1..] == queue[i + 1..];
        assert queue[..i + 1] == queue[..i] + [queue[i]];
        i := i + 1;
      }
      if i < |queue| {
        assert queue[i..][1..] == queue[i + 1..];
        queue := queue[..i] + queue[i + 1..];
      } else {
        assert queue[i..] == [];
      }
    }

    method SelectVictim() returns (way: Option<nat>)
      ensures way == P.SelectVictim(View())
    {
      way := if queue == [] then None else Some(queue[0]);
    }
  }

  class LFUPolicy {
    var meta: map<nat, P.Meta>
    var clock: nat

    ghost predicate Valid()
      reads this
    {
      P.LfuOk(meta, clock)
    }

    ghost function View(): P.Policy
      reads this
    {
      P.LFU(meta, clock)
    }

    constructor ()
      ensures Valid() && View() == P.LFU(map[], 0)
    {
      meta, clock := map[], 0;
    }

    method Reset()
      modifies this
      ensures Valid() && View() == P.LFU(map[], 0)
    {
      meta, clock := map[], 0;
    }

    method OnInsert(way: nat)
      requires Valid()
      modifies this
      ensures Valid() && View() == P.OnInsert(old(View()), way)
    {
      meta := meta[way := P.Meta(1, clock)];
      clock := clock + 1;
    }

    method OnAccess(way: nat)
      requires Valid()
      modifies this
      ensures Valid() && View() == P.OnAccess(old(View()), way)
    {
      if way in meta {
        meta := meta[way := meta[way].(freq := meta[way].freq + 1)];
      } else {
        meta := meta[way := P.Meta(1, clock)];
        clock := clock + 1;
      }
    }

    method OnRemove(way: nat)
      requires Valid()
      modifies this
      ensures Valid() && View() == P.OnRemove(old(View()), way)
    {
      meta := meta - {way};
    }

    /** Scans the hash map; the iteration order is left open. */
    method SelectVictim() returns (way: Option<nat>)
      requires Valid()
      ensures way == P.SelectVictim(View())
      ensures way.None? <==> meta == map[]
      ensures way.Some? ==>
                way.value in meta && forall v | v in meta && v != way.value ::
                  meta[way.value].freq < meta[v].freq
                  || (meta[way.value].freq == meta[v].freq && meta[way.value].insertSeq < meta[v].insertSeq)
    {
      if meta.Keys == {} {
        assert forall w :: !P.IsLfuVictim(meta, w);
        return None;
      }
      var best :| best in meta.Keys;
      var todo := meta.Keys - {best};
      while todo != {}
        invariant best in meta && todo <= meta.Keys && best !in todo
        invariant forall w | w in meta && w !in todo && w != best :: P.Before(meta[best], meta[w])
        decreases todo
      {
        var it :| it in todo;
        todo := todo - {it};
        var lowerFreq := meta[it].freq < meta[best].freq;
        var tieOlder := meta[it].freq == meta[best].freq && meta[it].insertSeq < meta[best].insertSeq;
        if lowerFreq || tieOlder {
          best := it;
        }
      }
      P.LfuVictimDetermined(View(), best);
      way := Some(best);
    }
  }

  /** `IEvictionPolicy` as a tagged reference: virtual dispatch becomes a match. */
  datatype PolicyRef = LruRef(lru: LRUPolicy) | FifoRef(fifo: FIFOPolicy) | LfuRef(lfu: LFUPolicy)
  {
    ghost function Obj(): object {
      match this
      case LruRef(o) => o
      case FifoRef(o) => o
      case LfuRef(o) => o
    }

    ghost predicate Valid()
      reads Obj()
    {
      match this
      case LruRef(o) => o.Valid()
      case FifoRef(o) => true
      case LfuRef(o) => o.Valid()
    }

    ghost function View(): P.Policy
      reads Obj()
    {
      match this
      case LruRef(o) => o.View()
      case FifoRef(o) => o.View()
      case LfuRef(o) => o.View()
    }

    method OnInsert(way: nat)
      requires Valid()
      modifies Obj()
      ensures Valid() && View() == P.OnInsert(old(View()), way)
    {
      match this
      case LruRef(o) => o.OnInsert(way);
      case FifoRef(o) => o.OnInsert(way);
      case LfuRef(o) => o.OnInsert(way);
    }

    method OnAccess(way: nat)
      requires Valid()
      modifies Obj()
      ensures Valid() && View() == P.OnAccess(old(View()), way)
    {
      match this
      case LruRef(o) => o.OnAccess(way);
      case FifoRef(o) => o.OnAccess(way);
      case LfuRef(o) => o.OnAccess(way);
    }

    method OnRemove(way: nat)
      requires Valid()
      modifies Obj()
      ensures Valid() && View() == P.OnRemove(old(View()), way)
    {
      match this
      case LruRef(o) => o.OnRemove(way);
      case FifoRef(o) => o.OnRemove(way);
      case LfuRef(o) => o.OnRemove(way);
    }

    method SelectVictim() returns (way: Option<nat>)
      requires Valid()
      ensures way == P.SelectVictim(View())
    {
      match this
      case LruRef(o) => way := o.SelectVictim();
      case FifoRef(o) => way := o.SelectVictim();
      case LfuRef(o) => way := o.SelectVictim();
    }
  }

  /** `make_eviction_policy` followed by `reset`. */
  method MakeEvictionPolicy(kind: P.PolicyKind) returns (p: PolicyRef)
    ensures p.Valid() && p.View() == P.Fresh(kind) && fresh(p.Obj())
  {
    match kind
    case KindLRU => var o := new LRUPolicy(); p := LruRef(o);
    case KindFIFO => var o := new FIFOPolicy(); p := FifoRef(o);
    case KindLFU => var o := new LFUPolicy(); p := LfuRef(o);
  }
}
