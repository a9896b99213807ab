/** The line sweeps of the profiling bridge, and what two of them in a row do to the L1. */
module Sweep {
  import opened Basics
  import opened Bits
  import opened EvictionPolicy
  import opened CacheGeometry
  import opened CacheModel
  import opened CacheTraces
  import H = HierarchyModel
  import R = Replacement

  /** Line-aligned addresses from `addr` up to `end`. */
  function AddressesFrom(addr: nat, end: nat, lineSize: nat): seq<nat>
    requires lineSize > 0
    decreases end - addr
  {
    if addr < end then [addr] + AddressesFrom(addr + lineSize, end, lineSize) else []
  }

  /** `base & ~(line_size - 1)`. */
  function LineStart(base: nat, lineSize: nat): nat
    requires 0 < lineSize <= WORD
  {
    BitAnd(base, WORD - lineSize)
  }

  /** `base + size` in a 64-bit word; an empty region counts one byte. */
  function SweepEnd(base: nat, size: nat): nat {
    (base + Max(size, 1)) % WORD
  }

  /** One address per line from the one that holds `base` up to the end of the region. */
  function LinesTouched(base: nat, size: nat, lineSize: nat): seq<nat>
    requires 0 < lineSize <= WORD
  {
    AddressesFrom(LineStart(base, lineSize), SweepEnd(base, size), lineSize)
  }

  /** The end leaves room for the address after the last line. */
  predicate Stops(base: nat, size: nat, lineSize: nat) {
    SweepEnd(base, size) + lineSize <= WORD
  }

  lemma LineStartMeaning(base: nat, lineSize: nat)
    requires IsPowerOfTwo(lineSize) && lineSize <= WORD && base < WORD
    ensures LineStart(base, lineSize) == base - base % lineSize
    ensures LineStart(base, lineSize) % lineSize == 0
    ensures LineStart(base, lineSize) <= base < LineStart(base, lineSize) + lineSize
  {
    Pow2Of64();
    MaskClears(base, Log2(lineSize), 64);
    FloorMultiple(base, lineSize);
  }

  /** The k-th address of a sweep is k lines up, and the sweep stops at the end of the region. */
  lemma {:induction false} SweepAddress(addr: nat, end: nat, lineSize: nat, k: nat)
    requires lineSize > 0 && k < |AddressesFrom(addr, end, lineSize)|
    ensures AddressesFrom(addr, end, lineSize)[k] == addr + k * lineSize < end
    decreases k
  {
    if k > 0 {
      SweepAddress(addr + lineSize, end, lineSize, k - 1);
      assert addr + lineSize + (k - 1) * lineSize == addr + k * lineSize;
    }
  }

  lemma {:induction false} SweepLength(addr: nat, end: nat, lineSize: nat)
    requires lineSize > 0 && addr < end
    ensures |AddressesFrom(addr, end, lineSize)| == (end - 1 - addr) / lineSize + 1
    decreases end - addr
  {
    var rest := end - 1 - addr;
    if addr + lineSize < end {
      SweepLength(addr + lineSize, end, lineSize);
      DivIdentity(rest - lineSize, lineSize);
      var q := (rest - lineSize) / lineSize;
      assert rest == (q + 1) * lineSize + (rest - lineSize) % lineSize;
      DivModUnique(rest, lineSize, q + 1, (rest - lineSize) % lineSize);
    } else {
      DivModUnique(rest, lineSize, 0, rest);
    }
  }

  lemma QuotientGap(first: nat, last: nat, d: nat)
    requires d > 0 && first <= last
    ensures first - first % d >= 0 && (last - (first - first % d)) / d == last / d - first / d
  {
    DivIdentity(first, d);
    DivIdentity(last, d);
    var q, f := last / d, first / d;
    assert last - f * d == (q - f) * d + last % d;
    DivModUnique(last - f * d, d, q - f, last % d);
  }

  /** A sweep of a region that does not wrap has one address per line from its first byte's to its last byte's. */
  lemma LinesOfRegion(base: nat, size: nat, lineSize: nat)
    requires IsPowerOfTwo(lineSize) && 0 < lineSize <= WORD && base + Max(size, 1) < WORD
    ensures |LinesTouched(base, size, lineSize)| == (base + Max(size, 1) - 1) / lineSize - base / lineSize + 1
  {
    hide LineStart, IsPowerOfTwo, AddressesFrom;
    LineStartMeaning(base, lineSize);
    QuotientGap(base, base + Max(size, 1) - 1, lineSize);
    SweepLength(LineStart(base, lineSize), base + Max(size, 1), lineSize);
  }

  /** The loop's address after `n` additions in a 64-bit word. */
  function WrapAddress(addr: nat, lineSize: nat, n: nat): nat
    decreases n
  {
    if n == 0 then addr else WrapAddress((addr + lineSize) % WORD, lineSize, n - 1)
  }

  lemma WordOfLines(lineSize: nat)
    requires IsPowerOfTwo(lineSize) && lineSize <= WORD
    ensures lineSize > 0 && WORD % lineSize == 0
  {
    Pow2Of64();
    Pow2IsPowerOfTwo(64);
    PowerOfTwoDivides(lineSize, WORD);
  }

  lemma NextLine(addr: nat, lineSize: nat)
    requires lineSize > 0 && WORD % lineSize == 0 && addr < WORD && addr % lineSize == 0
    ensures addr + lineSize <= WORD
    ensures ((addr + lineSize) % WORD) % lineSize == 0
  {
    MultiplesApart(addr, WORD, lineSize);
    if addr + lineSize == WORD {
      DivModUnique(WORD, WORD, 1, 0);
      DivModUnique(0, lineSize, 0, 0);
    } else {
      DivModUnique(addr + lineSize, WORD, 0, addr + lineSize);
    }
  }

  /** With an end in the last line every address is below it, the one after the last being zero. */
  lemma {:induction false} NeverReaches(addr: nat, end: nat, lineSize: nat, n: nat)
    requires lineSize > 0 && WORD % lineSize == 0 && addr < WORD && addr % lineSize == 0
    requires WORD - lineSize < end
    ensures WrapAddress(addr, lineSize, n) < end
    decreases n
  {
    NextLine(addr, lineSize);
    if n > 0 {
      NeverReaches((addr + lineSize) % WORD, end, lineSize, n - 1);
    }
  }

  lemma {:induction false} Reaches(addr: nat, end: nat, lineSize: nat) returns (n: nat)
    requires lineSize > 0 && end + lineSize <= WORD
    ensures n == |AddressesFrom(addr, end, lineSize)| && WrapAddress(addr, lineSize, n) >= end
    decreases end - addr
  {
    n := 0;
    if addr < end {
      assert (addr + lineSize) % WORD == addr + lineSize;
      n := Reaches(addr + lineSize, end, lineSize);
      n := n + 1;
    }
  }

  /**
   The loop ends if and only if its end is not in the last line of the address space; there the
   address after the last line wraps to zero and the sweep starts over for ever.
   */
  lemma SweepEndsIff(base: nat, size: nat, lineSize: nat)
    requires IsPowerOfTwo(lineSize) && lineSize <= WORD && base < WORD
    ensures Stops(base, size, lineSize) <==>
              exists n: nat :: WrapAddress(LineStart(base, lineSize), lineSize, n) >= SweepEnd(base, size)
  {
    hide LineStart, AddressesFrom, WrapAddress, SweepEnd, IsPowerOfTwo;
    LineStartMeaning(base, lineSize);
    WordOfLines(lineSize);
    if Stops(base, size, lineSize) {
      var n := Reaches(LineStart(base, lineSize), SweepEnd(base, size), lineSize);
    } else {
      forall n: nat ensures WrapAddress(LineStart(base, lineSize), lineSize, n) < SweepEnd(base, size) {
        NeverReaches(LineStart(base, lineSize), SweepEnd(base, size), lineSize, n);
      }
    }
  }

  function Requests(addresses: seq<nat>, kind: AccessType): (r: seq<H.Request>)
    ensures |r| == |addresses| && forall i | 0 <= i < |r| :: r[i] == H.Request(addresses[i], kind)
  {
    seq(|addresses|, i requires 0 <= i < |addresses| => H.Request(addresses[i], kind))
  }

  function Touches(addresses: seq<nat>, kind: AccessType): (ops: seq<CacheOp>)
    ensures |ops| == |addresses| && forall i | 0 <= i < |ops| :: ops[i] == Touch(addresses[i], kind)
  {
    seq(|addresses|, i requires 0 <= i < |addresses| => Touch(addresses[i], kind))
  }

  ghost predicate InRange(addresses: seq<nat>) {
    forall i | 0 <= i < |addresses| :: addresses[i] < WORD
  }

  /** What the hierarchy answered along a sweep. */
  ghost function Answers(h: H.HierarchyState, addresses: seq<nat>, kind: AccessType): (r: seq<H.HierarchyResult>)
    requires H.HierarchyOk(h) && InRange(addresses)
    ensures |r| == |addresses|
  {
    if addresses == [] then []
    else
      var n := |addresses| - 1;
      Answers(h, addresses[..n], kind)
      + [H.AccessHierarchy(H.RunRequests(h, Requests(addresses[..n], kind)), addresses[n], kind).result]
  }

  lemma RequestsInit(addresses: seq<nat>, kind: AccessType)
    requires addresses != []
    ensures Requests(addresses, kind)[..|addresses| - 1] == Requests(addresses[..|addresses| - 1], kind)
    ensures Touches(addresses, kind)[..|addresses| - 1] == Touches(addresses[..|addresses| - 1], kind)
  {}

  /** An access reports an L1 hit if L1 held the line, else an L2 hit if L2 did after the victim's writeback. */
  lemma AnswerMeans(h: H.HierarchyState, address: nat, kind: AccessType)
    requires H.HierarchyOk(h) && address < WORD && kind != InstructionFetch
    ensures var o, l1 := H.AccessHierarchy(h, address, kind), h.l1Data;
            var below := H.Writeback(h.l2, o.l1).0;
            && CacheOk(below) && below.geo == h.l2.geo
            && (o.result.l1Hit <==> Holds(l1, LineOf(l1.geo, address)))
            && (o.result.l2Hit <==> !Holds(l1, LineOf(l1.geo, address)) && Holds(below, LineOf(h.l2.geo, address)))
  {
    hide SetOk, LineFits, Holds, HoldsDirty, Access;
    AccessEffect(h.l1Data, address, kind);
    var r1 := Access(h.l1Data, address, kind).1;
    H.WritebackOk(h.l2, r1);
    AccessEffect(H.Writeback(h.l2, r1).0, address, kind);
  }

  lemma {:induction false} AnswerAt(h: H.HierarchyState, addresses: seq<nat>, kind: AccessType, k: nat)
    requires H.HierarchyOk(h) && InRange(addresses) && k < |addresses|
    ensures Answers(h, addresses, kind)[k]
            == H.AccessHierarchy(H.RunRequests(h, Requests(addresses[..k], kind)), addresses[k], kind).result
  {
    hide H.HierarchyOk, H.AccessHierarchy, H.RunRequests;
    var n := |addresses| - 1;
    if k < n {
      AnswerAt(h, addresses[..n], kind, k);
      assert addresses[..n][..k] == addresses[..k];
    }
  }

  /** So along a sweep the recorded answers split into L1 hits, L2 hits and misses as the caches stood. */
  lemma SweepAnswers(h: H.HierarchyState, addresses: seq<nat>, kind: AccessType, k: nat)
    requires H.HierarchyOk(h) && InRange(addresses) && k < |addresses| && kind != InstructionFetch
    ensures var before, a := H.RunRequests(h, Requests(addresses[..k], kind)), addresses[k];
            var r := Answers(h, addresses, kind)[k];
            var below := H.Writeback(before.l2, Access(before.l1Data, a, kind).1).0;
            && CacheOk(below) && below.geo == before.l2.geo
            && (r.l1Hit <==> Holds(before.l1Data, LineOf(before.l1Data.geo, a)))
            && (r.l2Hit <==> !r.l1Hit && Holds(below, LineOf(before.l2.geo, a)))
  {
    AnswerAt(h, addresses, kind, k);
    var before := H.RunRequests(h, Requests(addresses[..k], kind));
    FirstReport(before, addresses[k], kind);
    AnswerMeans(before, addresses[k], kind);
    hide H.HierarchyOk, H.AccessHierarchy, H.RunRequests, Holds, Access;
  }

  lemma FirstReport(h: H.HierarchyState, address: nat, kind: AccessType)
    requires H.HierarchyOk(h) && address < WORD && kind != InstructionFetch
    ensures H.AccessHierarchy(h, address, kind).l1 == Access(h.l1Data, address, kind).1
  {
    hide Access, CacheOk;
  }

  // ---- The L1 during a sweep ----

  lemma L1StepAlone(h: H.HierarchyState, address: nat, kind: AccessType)
    requires H.HierarchyOk(h) && h.cfg.inclusion != H.Inclusive && kind != InstructionFetch && address < WORD
    ensures H.AccessHierarchy(h, address, kind).state.l1Data == Access(h.l1Data, address, kind).0
  {
    hide CacheOk, Access;
  }

  /** Without inclusion enforcement nothing below L1 ever reaches into it. */
  lemma {:induction false} L1RunsAlone(h: H.HierarchyState, addresses: seq<nat>, kind: AccessType)
    requires H.HierarchyOk(h) && h.cfg.inclusion != H.Inclusive && kind != InstructionFetch && InRange(addresses)
    ensures H.RunRequests(h, Requests(addresses, kind)).l1Data == RunOps(h.l1Data, Touches(addresses, kind))
  {
    hide CacheOk, Access, H.AccessHierarchy;
    if addresses != [] {
      var n := |addresses| - 1;
      RequestsInit(addresses, kind);
      L1RunsAlone(h, addresses[..n], kind);
      L1StepAlone(H.RunRequests(h, Requests(addresses[..n], kind)), addresses[n], kind);
    }
  }

  /** Which tags a trace uses in a set. */
  lemma {:induction false} ProjectMembers(g: Geometry, ops: seq<CacheOp>, i: nat, t: nat)
    requires GeometryOk(g) && forall j | 0 <= j < |ops| :: ops[j].Touch?
    ensures t in R.Tags(Project(g, ops, i)) <==>
              exists j :: 0 <= j < |ops| && SetOf(g, LineTouched(g, ops[j])) == i
                          && TagOf(g, LineTouched(g, ops[j])) == t
  {
    if ops != [] {
      var n := |ops| - 1;
      ProjectMembers(g, ops[..n], i, t);
      var l, rest := LineTouched(g, ops[n]), Project(g, ops[..n], i);
      assert forall j | 0 <= j < n :: ops[..n][j] == ops[j];
      var whole := Project(g, ops, i);
      if SetOf(g, l) == i {
        R.SetRunLast(whole);
        assert whole[..|whole| - 1] == rest;
      }
      if t in R.Tags(whole) && t !in R.Tags(rest) {
        assert SetOf(g, LineTouched(g, ops[n])) == i && TagOf(g, LineTouched(g, ops[n])) == t;
      }
    } else {
      assert Project(g, ops, i) == [];
    }
  }

  /** The addresses cover `n` consecutive lines from line `l0` on. */
  ghost predicate Consecutive(g: Geometry, addresses: seq<nat>, l0: nat)
    requires g.lineSize > 0
  {
    forall k | 0 <= k < |addresses| :: LineOf(g, addresses[k]) == l0 + k
  }

  /** Tags t with l0 <= t * sets + i < l0 + sets * ways lie in a window of `ways` tags. */
  lemma TagWindow(sets: nat, ways: nat, i: nat, l0: nat, t: nat)
    requires sets >= 1 && i < sets && l0 <= t * sets + i < l0 + sets * ways
    ensures var t0 := (l0 + sets - 1 - i) / sets; t0 <= t < t0 + ways
  {
    var x := l0 + sets - 1 - i;
    var t0 := x / sets;
    DivIdentity(x, sets);
    assert t0 * sets <= x < t0 * sets + sets;
    assert (t0 - t) * sets == t0 * sets - t * sets;
    assert (t - t0 - ways) * sets == t * sets - t0 * sets - sets * ways;
    if t < t0 {
      MulAtLeast(t0 - t, sets);
    }
    if t >= t0 + ways {
      MulNonNegative(t - t0 - ways, sets);
    }
  }

  function Interval(lo: nat, n: nat): (s: set<nat>)
    ensures |s| == n && forall x :: x in s <==> lo <= x < lo + n
  {
    if n == 0 then {} else Interval(lo, n - 1) + {lo + n - 1}
  }

  /** At most sets * ways consecutive lines use at most `ways` tags of any one set. */
  lemma ConsecutiveFits(g: Geometry, addresses: seq<nat>, kind: AccessType, l0: nat, line: nat)
    requires GeometryOk(g) && Consecutive(g, addresses, l0) && |addresses| <= g.numSets * g.ways
    ensures FitsSet(g, Touches(addresses, kind), line)
  {
    var i, ops := SetOf(g, line), Touches(addresses, kind);
    var t0 := (l0 + g.numSets - 1 - i) / g.numSets;
    DivNonNegative(l0 + g.numSets - 1 - i, g.numSets);
    var used := Elements(SetTags(g, ops, line));
    forall t | t in used ensures t in Interval(t0, g.ways) {
      ProjectMembers(g, ops, i, t);
      var j :| 0 <= j < |ops| && SetOf(g, LineTouched(g, ops[j])) == i && TagOf(g, LineTouched(g, ops[j])) == t;
      LineSplit(g, l0 + j, t, i);
      TagWindow(g.numSets, g.ways, i, l0, t);
    }
    SubsetCardinality(used, Interval(t0, g.ways));
  }

  /** After an LRU write sweep over a region that fits, every line of the region is in L1. */
  lemma SweepFills(c: CacheState, addresses: seq<nat>, kind: AccessType, l0: nat, k: nat)
    requires CacheOk(c) && c.cfg.eviction == KindLRU && Installs(c.cfg, kind == WriteAccess)
    requires InRange(addresses) && Consecutive(c.geo, addresses, l0)
    requires |addresses| <= c.geo.numSets * c.geo.ways && k < |addresses|
    ensures Holds(RunOps(c, Touches(addresses, kind)), LineOf(c.geo, addresses[k]))
  {
    var ops, line := Touches(addresses, kind), LineOf(c.geo, addresses[k]);
    ConsecutiveFits(c.geo, addresses, kind, l0, line);
    ProjectMembers(c.geo, ops, SetOf(c.geo, line), TagOf(c.geo, line));
    assert LineTouched(c.geo, ops[k]) == line;
    WindowRetained(c, ops, line);
  }

  /** Reading a line that L1 holds hits there, and leaves L1's contents alone. */
  lemma ReadResident(h: H.HierarchyState, address: nat)
    requires H.HierarchyOk(h) && address < WORD && Holds(h.l1Data, LineOf(h.l1Data.geo, address))
    ensures var o := H.AccessHierarchy(h, address, ReadAccess);
            && o.result.l1Hit && H.HierarchyOk(o.state)
            && forall m: nat :: Holds(h.l1Data, m) ==> Holds(o.state.l1Data, m)
  {
    AccessEffect(h.l1Data, address, ReadAccess);
    H.AccessHierarchyOk(h, address, ReadAccess);
  }

  /** A read sweep over resident lines only hits, and leaves them resident. */
  lemma {:induction false} ResidentSweepHits(h: H.HierarchyState, addresses: seq<nat>)
    requires H.HierarchyOk(h) && InRange(addresses)
    requires forall k | 0 <= k < |addresses| :: Holds(h.l1Data, LineOf(h.l1Data.geo, addresses[k]))
    ensures var h' := H.RunRequests(h, Requests(addresses, ReadAccess));
            forall m: nat :: Holds(h.l1Data, m) ==> Holds(h'.l1Data, m)
    ensures forall k | 0 <= k < |addresses| :: Answers(h, addresses, ReadAccess)[k].l1Hit
  {
    hide Holds, CacheOk, GeometryOk, H.AccessHierarchy;
    if addresses != [] {
      var n := |addresses| - 1;
      ResidentSweepHits(h, addresses[..n]);
      RequestsInit(addresses, ReadAccess);
      ReadResident(H.RunRequests(h, Requests(addresses[..n], ReadAccess)), addresses[n]);
    }
  }

  /** A region of lines starting at a line boundary. */
  lemma SweepIsConsecutive(g: Geometry, base: nat, size: nat)
    requires GeometryOk(g) && base < WORD
    ensures g.lineSize <= WORD
    ensures var a := LinesTouched(base, size, g.lineSize);
            InRange(a) && Consecutive(g, a, LineOf(g, base))
  {
    LineSizeFits(g);
    var a, s := LinesTouched(base, size, g.lineSize), LineStart(base, g.lineSize);
    LineStartMeaning(base, g.lineSize);
    var l0 := LineOf(g, base);
    assert s == l0 * g.lineSize by { DivIdentity(base, g.lineSize); }
    forall k | 0 <= k < |a| ensures a[k] < WORD && LineOf(g, a[k]) == l0 + k {
      SweepAddress(s, SweepEnd(base, size), g.lineSize, k);
      LinesUp(l0, k, g.lineSize);
    }
  }

  lemma LinesUp(l0: nat, k: nat, lineSize: nat)
    requires lineSize > 0
    ensures (l0 * lineSize + k * lineSize) / lineSize == l0 + k
  {
    assert l0 * lineSize + k * lineSize == (l0 + k) * lineSize + 0;
    DivModUnique(l0 * lineSize + k * lineSize, lineSize, l0 + k, 0);
  }

  lemma LineSizeFits(g: Geometry)
    requires GeometryOk(g)
    ensures IsPowerOfTwo(g.lineSize) && g.lineSize <= WORD
  {
    Pow2IsPowerOfTwo(g.offsetBits);
    MulAtLeast(g.numSets, g.lineSize);
  }

  /**
   With an LRU write-allocate L1D and no inclusion enforcement, the write sweep of an
   allocation that spans at most sets * ways lines leaves them all in L1, so that every
   touch of the read sweep of its deallocation hits L1, whatever the caches held before.
   */
  lemma AllocateThenFreeHits(h: H.HierarchyState, base: nat, size: nat)
    requires H.HierarchyOk(h) && h.cfg.inclusion != H.Inclusive
    requires h.l1Data.cfg.eviction == KindLRU && h.l1Data.cfg.writeAllocate == WriteAllocate
    requires base < WORD && h.l1Data.geo.lineSize <= WORD
    requires |LinesTouched(base, size, h.l1Data.geo.lineSize)| <= h.l1Data.geo.numSets * h.l1Data.geo.ways
    ensures var a := LinesTouched(base, size, h.l1Data.geo.lineSize);
            && InRange(a)
            && var h1 := H.RunRequests(h, Requests(a, WriteAccess));
               forall k | 0 <= k < |a| :: Answers(h1, a, ReadAccess)[k].l1Hit
  {
    var g := h.l1Data.geo;
    SweepIsConsecutive(g, base, size);
    hide AddressesFrom, LineStart, LinesTouched, H.AccessHierarchy;
    var a, l0 := LinesTouched(base, size, g.lineSize), LineOf(g, base);
    var h1 := H.RunRequests(h, Requests(a, WriteAccess));
    L1RunsAlone(h, a, WriteAccess);
    forall k | 0 <= k < |a| ensures Holds(h1.l1Data, LineOf(g, a[k])) {
      SweepFills(h.l1Data, a, WriteAccess, l0, k);
    }
    ResidentSweepHits(h1, a);
  }
}
