/**
 What LRU and FIFO keep: the LRU stack theorem over whole traces, and the bound on
 misses in any window that fits the set.
 */
module Replacement {
  import opened Basics
  import opened EvictionPolicy
  import opened CacheGeometry
  import opened CacheModel

  // ---- Contents of a set, newest first ----

  function Reverse(s: seq<nat>): seq<nat> {
    seq(|s|, i requires 0 <= i < |s| => s[|s| - 1 - i])
  }

  predicate Ordered(p: Policy) {
    p.LRU? || p.FIFO?
  }

  /** Tracked ways by age: last use for LRU, insertion for FIFO. */
  function NewestWays(p: Policy): seq<nat>
    requires Ordered(p)
  {
    if p.LRU? then p.order else Reverse(p.queue)
  }

  predicate InRange(lines: seq<CacheLine>, ways: seq<nat>) {
    forall i | 0 <= i < |ways| :: ways[i] < |lines|
  }

  function TagsOf(lines: seq<CacheLine>, ways: seq<nat>): (tags: seq<nat>)
    requires InRange(lines, ways)
    ensures |tags| == |ways| && forall i | 0 <= i < |ways| :: tags[i] == lines[ways[i]].tag
  {
    seq(|ways|, i requires 0 <= i < |ways| => lines[ways[i]].tag)
  }

  ghost function Newest(cfg: CacheConfig, s: SetState): seq<nat>
    requires SetOk(cfg, s) && Ordered(s.policy)
  {
    WaysAreValid(cfg, s);
    TagsOf(s.lines, NewestWays(s.policy))
  }

  lemma WaysAreValid(cfg: CacheConfig, s: SetState)
    requires SetOk(cfg, s) && Ordered(s.policy)
    ensures var o := NewestWays(s.policy);
            && NoDup(o)
            && (forall w :: w in o <==> w in ValidWays(s.lines))
            && |o| == |ValidWays(s.lines)| <= |s.lines|
            && InRange(s.lines, o)
  {
    var o := NewestWays(s.policy);
    if s.policy.FIFO? {
      var q := s.policy.queue;
      forall w ensures w in o <==> w in q {
        if w in q {
          var k :| 0 <= k < |q| && q[k] == w;
          assert o[|q| - 1 - k] == w;
        }
      }
    }
    assert Elements(o) == ValidWays(s.lines);
    assert forall i | 0 <= i < |o| :: o[i] in o;
    NoDupCardinality(o);
    SubsetCardinality(ValidWays(s.lines), Range(|s.lines|));
  }

  /** The newest-first list holds each resident tag once. */
  lemma NewestIsContents(cfg: CacheConfig, s: SetState)
    requires SetOk(cfg, s) && Ordered(s.policy)
    ensures NoDup(Newest(cfg, s)) && |Newest(cfg, s)| <= |s.lines|
    ensures forall t :: t in Newest(cfg, s) <==> Resident(s, t)
  {
    WaysAreValid(cfg, s);
    var o, n := NewestWays(s.policy), Newest(cfg, s);
    forall i, j | 0 <= i < j < |n| ensures n[i] != n[j] {
      assert o[i] in o && o[j] in o;
      assert o[i] in ValidWays(s.lines) && o[j] in ValidWays(s.lines);
    }
    forall t ensures t in n <==> Resident(s, t) {
      if t in n {
        var i :| 0 <= i < |n| && n[i] == t;
        assert o[i] in o;
        assert o[i] in ValidWays(s.lines);
        assert Matches(s.lines[o[i]], t);
      }
      if Resident(s, t) {
        var w :| 0 <= w < |s.lines| && Matches(s.lines[w], t);
        assert w in ValidWays(s.lines);
        assert w in o;
        var i :| 0 <= i < |o| && o[i] == w;
        assert n[i] == t;
      }
    }
  }

  /** Move or add `t` to the front and drop what no longer fits. */
  function Push(stack: seq<nat>, t: nat, ways: nat): seq<nat> {
    var s := [t] + Erase(stack, t);
    if |s| > ways then s[..ways] else s
  }

  /** How the age order of ways changes on an installing access. */
  lemma WayOrderStep(cfg: CacheConfig, s: SetState, tag: nat, write: bool)
    requires SetOk(cfg, s) && Ordered(s.policy) && Installs(cfg, write)
    ensures var s' := SetAccess(cfg, s, tag, write).0;
            var o, found := NewestWays(s.policy), FindWay(s.lines, tag);
            && Ordered(s'.policy) && (s'.policy.LRU? <==> s.policy.LRU?)
            && var o' := NewestWays(s'.policy);
            if found.Some? then
              found.value in o && o' == if s.policy.LRU? then [found.value] + Erase(o, found.value) else o
            else
              var w := FillWay(s);
              if s.lines[w].valid then |o| == |s.lines| && w == o[|o| - 1] && o' == [w] + o[..|o| - 1]
              else |o| < |s.lines| && w !in o && o' == [w] + o
  {
    WaysAreValid(cfg, s);
    hide SetOk;
    var o, found := NewestWays(s.policy), FindWay(s.lines, tag);
    var s' := SetAccess(cfg, s, tag, write).0;
    if found.Some? {
      assert found.value in ValidWays(s.lines);
    } else {
      var w := FillWay(s);
      if s.lines[w].valid {
        assert ValidWays(s.lines) == Range(|s.lines|);
        VictimLeavesOrder(s.policy, w);
      } else {
        assert w !in ValidWays(s.lines);
        MissingWay(s.lines, w);
        InsertInOrder(s.policy, w);
      }
    }
  }

  lemma MissingWay(lines: seq<CacheLine>, w: nat)
    requires w < |lines| && !lines[w].valid
    ensures |ValidWays(lines)| < |lines|
  {
    SubsetCardinality(ValidWays(lines), Range(|lines|) - {w});
  }

  lemma InsertInOrder(p: Policy, w: nat)
    requires Ordered(p) && w !in NewestWays(p)
    ensures Ordered(OnInsert(p, w)) && NewestWays(OnInsert(p, w)) == [w] + NewestWays(p)
  {
    if p.LRU? {
      EraseAbsent(p.order, w);
    } else {
      assert Reverse(p.queue + [w]) == [w] + Reverse(p.queue);
    }
  }

  lemma VictimLeavesOrder(p: Policy, w: nat)
    requires Ordered(p) && p.Ok() && NewestWays(p) != [] && SelectVictim(p) == Some(w)
    ensures var o, q := NewestWays(p), OnInsert(OnRemove(p, w), w);
            w == o[|o| - 1] && Ordered(q) && NewestWays(q) == [w] + o[..|o| - 1]
  {
    var o, r := NewestWays(p), OnRemove(p, w);
    var n := |o| - 1;
    if p.LRU? {
      EraseAt(o, n);
      assert o[..n] + o[n + 1..] == o[..n];
    } else {
      assert Erase(p.queue, w) == p.queue[1..];
      assert Reverse(p.queue[1..]) == o[..n];
    }
    assert NewestWays(r) == o[..n];
    assert w !in o[..n] by {
      if p.FIFO? {
        assert forall i | 0 <= i < n :: o[i] == p.queue[n - i];
      }
    }
    InsertInOrder(r, w);
  }

  /**
   One installing access on the age order of tags: LRU always moves the tag to the front,
   FIFO only on a miss; either way a full set drops its oldest tag.
   */
  lemma StackStep(cfg: CacheConfig, s: SetState, tag: nat, write: bool)
    requires SetOk(cfg, s) && Ordered(s.policy) && Installs(cfg, write)
    ensures var (s', o) := SetAccess(cfg, s, tag, write);
            && SetOk(cfg, s') && Ordered(s'.policy) && (s'.policy.LRU? <==> s.policy.LRU?)
            && (o.hit <==> tag in Newest(cfg, s))
            && Newest(cfg, s') == (if o.hit && s.policy.FIFO? then Newest(cfg, s)
                                   else Push(Newest(cfg, s), tag, |s.lines|))
  {
    SetAccessKeepsOk(cfg, s, tag, write);
    WayOrderStep(cfg, s, tag, write);
    NewestIsContents(cfg, s);
    SetAccessEffect(cfg, s, tag, write, tag);
    if FindWay(s.lines, tag).Some? {
      StackHit(cfg, s, tag, write);
    } else {
      StackMiss(cfg, s, tag, write);
    }
  }

  lemma StackHit(cfg: CacheConfig, s: SetState, tag: nat, write: bool)
    requires SetOk(cfg, s) && Ordered(s.policy) && FindWay(s.lines, tag).Some?
    requires SetOk(cfg, SetAccess(cfg, s, tag, write).0) && Ordered(SetAccess(cfg, s, tag, write).0.policy)
    ensures Newest(cfg, SetAccess(cfg, s, tag, write).0) ==
            if s.policy.FIFO? then Newest(cfg, s) else Push(Newest(cfg, s), tag, |s.lines|)
  {
    var s' := SetAccess(cfg, s, tag, write).0;
    var o, n, w := NewestWays(s.policy), Newest(cfg, s), FindWay(s.lines, tag).value;
    WaysAreValid(cfg, s);
    SameTags(s.lines, s'.lines, o);
    if s.policy.LRU? {
      assert w in ValidWays(s.lines);
      NewestIsContents(cfg, s);
      EraseTag(s.lines, o, w);
      SameTags(s.lines, s'.lines, Erase(o, w));
      TagsOfCons(s'.lines, w, Erase(o, w));
      EraseElements(n, tag);
      assert tag in n;
    }
  }

  lemma StackMiss(cfg: CacheConfig, s: SetState, tag: nat, write: bool)
    requires SetOk(cfg, s) && Ordered(s.policy) && FindWay(s.lines, tag).None? && Installs(cfg, write)
    requires SetOk(cfg, SetAccess(cfg, s, tag, write).0) && Ordered(SetAccess(cfg, s, tag, write).0.policy)
    ensures Newest(cfg, SetAccess(cfg, s, tag, write).0) == Push(Newest(cfg, s), tag, |s.lines|)
  {
    var s' := SetAccess(cfg, s, tag, write).0;
    var o, n, w := NewestWays(s.policy), Newest(cfg, s), FillWay(s);
    WaysAreValid(cfg, s);
    NewestIsContents(cfg, s);
    WayOrderStep(cfg, s, tag, write);
    var k := if s.lines[w].valid then |o| - 1 else |o|;
    assert NewestWays(s'.policy) == [w] + o[..k] by {
      assert o[..|o|] == o;
    }
    FillTags(s.lines, s'.lines, o, w, k) by {
      assert forall i | 0 <= i < k :: o[i] != w by {
        assert s.lines[w].valid ==> w == o[|o| - 1];
      }
    }
    PushAbsent(n, tag, |s.lines|, k);
  }

  lemma PushAbsent(n: seq<nat>, t: nat, ways: nat, k: nat)
    requires t !in n && |n| <= ways && k == if |n| == ways then ways - 1 else |n|
    requires ways >= 1
    ensures Push(n, t, ways) == [t] + n[..k]
  {
    EraseAbsent(n, t);
  }

  lemma FillTags(lines: seq<CacheLine>, lines': seq<CacheLine>, o: seq<nat>, w: nat, k: nat)
    requires w < |lines| && InRange(lines, o) && k <= |o|
    requires |lines'| == |lines| && forall v | 0 <= v < |lines| && v != w :: lines'[v] == lines[v]
    requires forall i | 0 <= i < k :: o[i] != w
    ensures InRange(lines', [w] + o[..k])
    ensures TagsOf(lines', [w] + o[..k]) == [lines'[w].tag] + TagsOf(lines, o)[..k]
  {}

  lemma TagsOfCons(lines: seq<CacheLine>, w: nat, ways: seq<nat>)
    requires w < |lines| && InRange(lines, ways)
    ensures InRange(lines, [w] + ways)
    ensures TagsOf(lines, [w] + ways) == [lines[w].tag] + TagsOf(lines, ways)
  {}

  lemma SameTags(lines: seq<CacheLine>, lines': seq<CacheLine>, ways: seq<nat>)
    requires |lines'| == |lines| && InRange(lines, ways)
    requires forall i | 0 <= i < |ways| :: lines'[ways[i]].tag == lines[ways[i]].tag
    ensures TagsOf(lines', ways) == TagsOf(lines, ways)
  {}

  lemma CutTags(lines: seq<CacheLine>, ways: seq<nat>, k: nat)
    requires InRange(lines, ways) && k < |ways|
    ensures InRange(lines, ways[..k] + ways[k + 1..])
    ensures TagsOf(lines, ways[..k] + ways[k + 1..]) == TagsOf(lines, ways)[..k] + TagsOf(lines, ways)[k + 1..]
  {}

  lemma EraseTag(lines: seq<CacheLine>, ways: seq<nat>, w: nat)
    requires InRange(lines, ways) && w in ways
    requires NoDup(ways) && NoDup(TagsOf(lines, ways))
    ensures InRange(lines, Erase(ways, w))
    ensures TagsOf(lines, Erase(ways, w)) == Erase(TagsOf(lines, ways), lines[w].tag)
  {
    var k :| 0 <= k < |ways| && ways[k] == w;
    EraseAt(ways, k);
    EraseAt(TagsOf(lines, ways), k);
    CutTags(lines, ways, k);
  }

  // ---- Runs of one set ----

  datatype Request = Request(tag: nat, write: bool)

  function Tags(reqs: seq<Request>): (tags: seq<nat>)
    ensures |tags| == |reqs| && forall i | 0 <= i < |reqs| :: tags[i] == reqs[i].tag
  {
    seq(|reqs|, i requires 0 <= i < |reqs| => reqs[i].tag)
  }

  predicate AllInstall(cfg: CacheConfig, reqs: seq<Request>) {
    forall i | 0 <= i < |reqs| :: Installs(cfg, reqs[i].write)
  }

  ghost function SetRun(cfg: CacheConfig, s: SetState, reqs: seq<Request>): (s': SetState)
    requires SetOk(cfg, s)
    ensures SetOk(cfg, s') && |s'.lines| == |s.lines|
  {
    if reqs == [] then s
    else
      var n := |reqs| - 1;
      var before := SetRun(cfg, s, reqs[..n]);
      SetAccessKeepsOk(cfg, before, reqs[n].tag, reqs[n].write);
      SetAccess(cfg, before, reqs[n].tag, reqs[n].write).0
  }

  lemma SetRunLast(reqs: seq<Request>)
    requires reqs != []
    ensures var n := |reqs| - 1; Tags(reqs) == Tags(reqs[..n]) + [reqs[n].tag]
  {}

  lemma {:induction false} SetRunOrdered(cfg: CacheConfig, s: SetState, reqs: seq<Request>)
    requires SetOk(cfg, s) && Ordered(s.policy)
    ensures Ordered(SetRun(cfg, s, reqs).policy)
    ensures SetRun(cfg, s, reqs).policy.LRU? <==> s.policy.LRU?
  {
    var p := SetRun(cfg, s, reqs).policy;
    assert p.Kind() == cfg.eviction == s.policy.Kind();
  }

  // ---- LRU: the stack theorem ----

  /** Distinct tags of a trace by recency of their last use. */
  function Recency(tags: seq<nat>): seq<nat> {
    if tags == [] then []
    else
      var n := |tags| - 1;
      [tags[n]] + Erase(Recency(tags[..n]), tags[n])
  }

  /** The distinct tags used since the last use of `t`. */
  function UsedSince(tags: seq<nat>, t: nat): set<nat> {
    if tags == [] then {}
    else
      var n := |tags| - 1;
      if tags[n] == t then {} else UsedSince(tags[..n], t) + {tags[n]}
  }

  lemma {:induction false} RecencyElements(tags: seq<nat>)
    ensures NoDup(Recency(tags))
    ensures forall t :: t in Recency(tags) <==> t in tags
  {
    if tags != [] {
      var n := |tags| - 1;
      RecencyElements(tags[..n]);
      EraseElements(Recency(tags[..n]), tags[n]);
      assert tags == tags[..n] + [tags[n]];
    }
  }

  /** A tag's depth in the recency list is its reuse distance. */
  lemma {:induction false} DepthIsReuseDistance(tags: seq<nat>, k: nat)
    requires k < |Recency(tags)|
    ensures UsedSince(tags, Recency(tags)[k]) == Elements(Recency(tags)[..k])
    ensures |UsedSince(tags, Recency(tags)[k])| == k
  {
    var r, n := Recency(tags), |tags| - 1;
    var q := Recency(tags[..n]);
    RecencyElements(tags);
    RecencyElements(tags[..n]);
    if k == 0 {
      assert r[..0] == [];
    } else {
      assert r[k] != r[0];
      var i := PrefixAfterMoveToFront(q, tags[n], k);
      DepthIsReuseDistance(tags[..n], i);
    }
    NoDupCardinality(r[..k]);
  }

  /** Entries above depth k after a move to the front: `x` and what was above before. */
  lemma PrefixAfterMoveToFront(q: seq<nat>, x: nat, k: nat) returns (i: nat)
    requires NoDup(q) && 1 <= k < |[x] + Erase(q, x)|
    ensures i < |q| && q[i] == ([x] + Erase(q, x))[k]
    ensures Elements(([x] + Erase(q, x))[..k]) == Elements(q[..i]) + {x}
  {
    if x in q {
      var j :| 0 <= j < |q| && q[j] == x;
      EraseAt(q, j);
      i := PrefixAfterCut(q, j, k);
    } else {
      EraseAbsent(q, x);
      i := k - 1;
      assert ([x] + q)[..k] == [x] + q[..i];
    }
  }

  lemma PrefixAfterCut(q: seq<nat>, j: nat, k: nat) returns (i: nat)
    requires j < |q| && 1 <= k < |q|
    ensures i < |q| && q[i] == ([q[j]] + (q[..j] + q[j + 1..]))[k]
    ensures Elements(([q[j]] + (q[..j] + q[j + 1..]))[..k]) == Elements(q[..i]) + {q[j]}
  {
    var moved := [q[j]] + (q[..j] + q[j + 1..]);
    if k - 1 < j {
      i := k - 1;
      assert moved[..k] == [q[j]] + q[..i];
    } else {
      i := k;
      assert moved[..k] == [q[j]] + (q[..j] + q[j + 1..i]);
      assert q[..i] == q[..j] + [q[j]] + q[j + 1..i];
    }
  }

  function Take(s: seq<nat>, n: nat): seq<nat> {
    if |s| > n then s[..n] else s
  }

  /** Pushing on the first `ways` entries is pushing on the whole list and cutting afterwards. */
  lemma PushTake(r: seq<nat>, t: nat, ways: nat)
    requires NoDup(r) && ways >= 1
    ensures Push(Take(r, ways), t, ways) == Take([t] + Erase(r, t), ways)
  {
    var c := Take(r, ways);
    if t in r {
      var k :| 0 <= k < |r| && r[k] == t;
      EraseAt(r, k);
      if k < |c| {
        assert c[k] == t;
        EraseAt(c, k);
        CutInside(r, t, k, ways);
      } else {
        EraseAbsent(c, t);
        CutBeyond(r, t, k, ways);
      }
    } else {
      EraseAbsent(r, t);
      EraseAbsent(c, t);
    }
  }

  lemma CutInside(r: seq<nat>, t: nat, k: nat, ways: nat)
    requires k < |r| && k < ways
    ensures var c := Take(r, ways);
            Take([t] + (c[..k] + c[k + 1..]), ways) == Take([t] + (r[..k] + r[k + 1..]), ways)
  {
    var c := Take(r, ways);
    var whole, cut := [t] + (r[..k] + r[k + 1..]), [t] + (c[..k] + c[k + 1..]);
    assert |whole| == |r| && |cut| == |c|;
    assert cut == whole[..|c|];
  }

  lemma CutBeyond(r: seq<nat>, t: nat, k: nat, ways: nat)
    requires 1 <= ways <= k < |r|
    ensures Take([t] + r[..ways], ways) == Take([t] + (r[..k] + r[k + 1..]), ways)
  {
    assert ([t] + (r[..k] + r[k + 1..]))[..ways] == [t] + r[..ways - 1];
    assert ([t] + r[..ways])[..ways] == [t] + r[..ways - 1];
  }

  /**
   LRU stack theorem: after any installing trace on an empty W-way set, the set holds
   exactly the W most recently used distinct tags, in that order.
   */
  lemma {:induction false} LruKeepsMostRecent(cfg: CacheConfig, s: SetState, reqs: seq<Request>)
    requires SetOk(cfg, s) && s.policy == LRU([]) && AllInstall(cfg, reqs)
    ensures SetRun(cfg, s, reqs).policy.LRU?
    ensures Newest(cfg, SetRun(cfg, s, reqs)) == Take(Recency(Tags(reqs)), |s.lines|)
  {
    SetRunOrdered(cfg, s, reqs);
    if reqs != [] {
      var n := |reqs| - 1;
      LruKeepsMostRecent(cfg, s, reqs[..n]);
      var before := SetRun(cfg, s, reqs[..n]);
      StackStep(cfg, before, reqs[n].tag, reqs[n].write);
      SetRunLast(reqs);
      assert Tags(reqs)[..n] == Tags(reqs[..n]);
      RecencyElements(Tags(reqs[..n]));
      PushTake(Recency(Tags(reqs[..n])), reqs[n].tag, |s.lines|);
    }
  }

  /** A tag is resident exactly when fewer than W distinct tags were used since its last use. */
  lemma ResidentIffReuseBelowWays(cfg: CacheConfig, s: SetState, reqs: seq<Request>, t: nat)
    requires SetOk(cfg, s) && s.policy == LRU([]) && AllInstall(cfg, reqs)
    ensures Resident(SetRun(cfg, s, reqs), t) <==>
              t in Tags(reqs) && |UsedSince(Tags(reqs), t)| < |s.lines|
  {
    var tags := Tags(reqs);
    var r := Recency(tags);
    LruKeepsMostRecent(cfg, s, reqs);
    NewestIsContents(cfg, SetRun(cfg, s, reqs));
    RecencyElements(tags);
    if t in tags {
      var k :| 0 <= k < |r| && r[k] == t;
      DepthIsReuseDistance(tags, k);
      if k < |s.lines| {
        assert Take(r, |s.lines|)[k] == t;
      } else {
        assert t !in r[..|s.lines|];
      }
    } else {
      assert t !in Take(r, |s.lines|);
    }
  }

  // ---- LRU and FIFO: windows that fit ----

  ghost function SetMisses(cfg: CacheConfig, s: SetState, reqs: seq<Request>, t: nat): nat
    requires SetOk(cfg, s)
  {
    if reqs == [] then 0
    else
      var n := |reqs| - 1;
      var before := SetRun(cfg, s, reqs[..n]);
      SetMisses(cfg, s, reqs[..n], t)
      + if reqs[n].tag == t && !SetAccess(cfg, before, t, reqs[n].write).1.hit then 1 else 0
  }

  /**
   The k newest entries are tags of the window, among them every tag that missed in it and,
   for LRU, every tag used in it; no tag missed twice.
   */
  ghost predicate Protected(cfg: CacheConfig, s: SetState, reqs: seq<Request>, k: nat)
    requires SetOk(cfg, s)
  {
    var s' := SetRun(cfg, s, reqs);
    && Ordered(s'.policy)
    && var n := Newest(cfg, s');
       && k <= |n|
       && (forall t | t in n[..k] :: t in Tags(reqs))
       && (forall t :: SetMisses(cfg, s, reqs, t) <= if t in n[..k] then 1 else 0)
       && (cfg.eviction == KindLRU ==> forall t | t in Tags(reqs) :: t in n[..k])
  }

  /** In a window using at most W distinct tags, protected entries are never evicted. */
  lemma {:induction false} WindowInvariant(cfg: CacheConfig, s: SetState, reqs: seq<Request>) returns (k: nat)
    requires SetOk(cfg, s) && Ordered(s.policy) && AllInstall(cfg, reqs)
    requires |Elements(Tags(reqs))| <= |s.lines|
    ensures Protected(cfg, s, reqs, k)
  {
    if reqs == [] {
      k := 0;
    } else {
      var last := |reqs| - 1;
      SetRunLast(reqs);
      assert Elements(Tags(reqs)) == Elements(Tags(reqs[..last])) + {reqs[last].tag};
      SubsetCardinality(Elements(Tags(reqs[..last])), Elements(Tags(reqs)));
      k := WindowInvariant(cfg, s, reqs[..last]);
      k := WindowStep(cfg, s, reqs, k);
    }
  }

  lemma WindowStep(cfg: CacheConfig, s: SetState, reqs: seq<Request>, k: nat) returns (k': nat)
    requires SetOk(cfg, s) && AllInstall(cfg, reqs) && reqs != []
    requires |Elements(Tags(reqs))| <= |s.lines|
    requires Protected(cfg, s, reqs[..|reqs| - 1], k)
    ensures Protected(cfg, s, reqs, k')
  {
    hide SetAccess, SetOk, SetRun, SetMisses, Newest, Push;
    var last := |reqs| - 1;
    var before, x := SetRun(cfg, s, reqs[..last]), reqs[last].tag;
    SetRunLast(reqs);
    LastRequest(cfg, s, reqs);
    NewestIsContents(cfg, before);
    StackStep(cfg, before, x, reqs[last].write);
    KindKept(cfg, before);
    var n := Newest(cfg, before);
    assert x in n[..k] ==> x in n;
    k' := ProtectedStep(n, k, x, Tags(reqs), |s.lines|, before.policy.LRU?);
    var n' := Newest(cfg, SetRun(cfg, s, reqs));
    assert n' == if x in n && !before.policy.LRU? then n else Push(n, x, |s.lines|);
  }

  lemma LastRequest(cfg: CacheConfig, s: SetState, reqs: seq<Request>)
    requires SetOk(cfg, s) && reqs != []
    ensures var r, before := reqs[|reqs| - 1], SetRun(cfg, s, reqs[..|reqs| - 1]);
            && SetRun(cfg, s, reqs) == SetAccess(cfg, before, r.tag, r.write).0
            && (forall t :: SetMisses(cfg, s, reqs, t) == SetMisses(cfg, s, reqs[..|reqs| - 1], t)
                  + if r.tag == t && !SetAccess(cfg, before, r.tag, r.write).1.hit then 1 else 0)
  {}

  lemma KindKept(cfg: CacheConfig, s: SetState)
    requires SetOk(cfg, s)
    ensures s.policy.LRU? <==> cfg.eviction == KindLRU
  {}

  /** One access keeps every protected entry protected, and protects the tag it installs (LRU: uses). */
  lemma ProtectedStep(n: seq<nat>, k: nat, x: nat, tags: seq<nat>, ways: nat, lru: bool) returns (k': nat)
    requires NoDup(n) && k <= |n| <= ways && x in tags
    requires (forall t | t in n[..k] :: t in tags) && |Elements(tags)| <= ways
    ensures var n' := if x in n && !lru then n else Push(n, x, ways);
            && k' <= |n'|
            && (forall t :: t in n'[..k'] <==> t in n[..k] || (t == x && (lru || x !in n)))
  {
    if x !in n {
      PrefixFits(n, k, x, tags, ways);
      PushMiss(n, k, x, ways);
      k' := k + 1;
    } else if lru {
      k' := PushHit(n, k, x, ways);
    } else {
      k' := k;
    }
  }

  /** The protected entries and a new window tag together still fit the set. */
  lemma PrefixFits(n: seq<nat>, k: nat, x: nat, tags: seq<nat>, ways: nat)
    requires NoDup(n) && k <= |n| && x !in n && x in tags
    requires (forall t | t in n[..k] :: t in tags) && |Elements(tags)| <= ways
    ensures k + 1 <= ways
  {
    var p := n[..k] + [x];
    assert NoDup(p);
    NoDupCardinality(p);
    SubsetCardinality(Elements(p), Elements(tags));
  }

  lemma PushMiss(n: seq<nat>, k: nat, x: nat, ways: nat)
    requires x !in n && k <= |n| <= ways && k + 1 <= ways
    ensures var n' := Push(n, x, ways);
            k + 1 <= |n'| && forall t :: t in n'[..k + 1] <==> t == x || t in n[..k]
  {
    EraseAbsent(n, x);
    var n' := Push(n, x, ways);
    assert n'[..k + 1] == [x] + n[..k];
  }

  lemma PushHit(n: seq<nat>, k: nat, x: nat, ways: nat) returns (k': nat)
    requires x in n && k <= |n| <= ways && NoDup(n)
    ensures var n' := Push(n, x, ways);
            k' <= |n'| && forall t :: t in n'[..k'] <==> t == x || t in n[..k]
  {
    var j :| 0 <= j < |n| && n[j] == x;
    EraseAt(n, j);
    k' := MovedPrefix(n, j, k, Push(n, x, ways));
  }

  lemma MovedPrefix(n: seq<nat>, j: nat, k: nat, moved: seq<nat>) returns (k': nat)
    requires j < |n| && k <= |n| && moved == [n[j]] + (n[..j] + n[j + 1..])
    ensures k' <= |moved| && forall t :: t in moved[..k'] <==> t == n[j] || t in n[..k]
  {
    k' := if j < k then k else k + 1;
    if j < k {
      assert moved[..k] == [n[j]] + (n[..j] + n[j + 1..k]);
      assert n[..k] == n[..j] + [n[j]] + n[j + 1..k];
    } else {
      assert moved[..k + 1] == [n[j]] + n[..k];
    }
  }
}
