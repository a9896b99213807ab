/** Small vocabulary shared by the allocator and the cache models. */
module Basics {

  datatype Option<+T> = None | Some(value: T)

  datatype Result<+T, +E> = Ok(value: T) | Err(error: E)

  function Max(a: int, b: int): int {
    if a < b then b else a
  }

  function Min(a: int, b: int): int {
    if a < b then a else b
  }

  /** Look up `k`, reading absent keys as zero (memory the OS hands out is zero-filled). */
  function At(m: map<nat, nat>, k: nat): nat {
    if k in m then m[k] else 0
  }

  ghost predicate NoDup<T>(s: seq<T>) {
    forall i, j | 0 <= i < j < |s| :: s[i] != s[j]
  }

  /** Erase the first occurrence of `x`, as `std::find` followed by `erase` does. */
  function Erase<T(==)>(s: seq<T>, x: T): seq<T> {
    if s == [] then []
    else if s[0] == x then s[1..]
    else [s[0]] + Erase(s[1..], x)
  }

  /** Erasing the k-th element of a duplicate-free sequence cuts exactly that position out. */
  lemma {:induction false} EraseAt<T>(s: seq<T>, k: nat)
    requires NoDup(s) && k < |s|
    ensures Erase(s, s[k]) == s[..k] + s[k + 1..]
  {
    if k == 0 {
      assert Erase(s, s[0]) == s[1..];
    } else {
      var t := s[1..];
      assert s[0] != s[k] && t[k - 1] == s[k];
      EraseAt(t, k - 1);
      assert t[..k - 1] == s[1..k];
      assert t[k..] == s[k + 1..];
      assert [s[0]] + s[1..k] == s[..k];
      assert Erase(s, s[k]) == [s[0]] + (t[..k - 1] + t[k..]);
    }
  }

  lemma {:induction false} EraseAbsent<T>(s: seq<T>, x: T)
    requires x !in s
    ensures Erase(s, x) == s
  {
    if s != [] {
      EraseAbsent(s[1..], x);
    }
  }

  /** What is left after an erase: same elements but `x`, still without duplicates. */
  lemma EraseElements<T>(s: seq<T>, x: T)
    requires NoDup(s)
    ensures NoDup(Erase(s, x))
    ensures x !in Erase(s, x)
    ensures forall y :: y in Erase(s, x) <==> y in s && y != x
    ensures |Erase(s, x)| == if x in s then |s| - 1 else |s|
  {
    if x in s {
      var k :| 0 <= k < |s| && s[k] == x;
      EraseAt(s, k);
      var e := s[..k] + s[k + 1..];
      forall y ensures y in e <==> y in s && y != x {
        if y in s && y != x {
          var j :| 0 <= j < |s| && s[j] == y;
          assert e[if j < k then j else j - 1] == y;
        }
      }
    } else {
      EraseAbsent(s, x);
    }
  }

  /** The elements of a sequence, as a set. */
  function Elements<T(==)>(s: seq<T>): set<T> {
    set x | x in s
  }

  lemma {:induction false} NoDupCardinality<T>(s: seq<T>)
    requires NoDup(s)
    ensures |Elements(s)| == |s|
  {
    if s != [] {
      var t := s[..|s| - 1];
      NoDupCardinality(t);
      assert Elements(s) == Elements(t) + {s[|s| - 1]};
      assert s[|s| - 1] !in t;
    } else {
      assert Elements(s) == {};
    }
  }

  function Range(n: nat): (r: set<nat>)
    ensures forall w :: w in r <==> 0 <= w < n
    ensures |r| == n
  {
    if n == 0 then {} else Range(n - 1) + {n - 1}
  }

  lemma SubsetCardinality<T>(a: set<T>, b: set<T>)
    requires a <= b
    ensures |a| <= |b|
  {
    if a != {} {
      var x :| x in a;
      SubsetCardinality(a - {x}, b - {x});
    }
  }

  /** A list without repetition whose only element is `x`. */
  lemma SingleElement(s: seq<nat>, x: nat)
    requires NoDup(s) && x in s && forall y | y in s :: y == x
    ensures s == [x]
  {
    NoDupCardinality(s);
    assert Elements(s) == {x};
  }

  /** Where the j-th of the elements left by an erasure stood before. */
  function Uncut(k: nat, j: nat): nat {
    if j < k then j else j + 1
  }

  /** Erasing cuts one position out of a duplicate-free sequence, or none, and keeps the order of the rest. */
  lemma EraseCuts<T>(s: seq<T>, x: T) returns (k: nat)
    requires NoDup(s)
    ensures x in s ==> k < |s| && s[k] == x && |Erase(s, x)| == |s| - 1
    ensures x !in s ==> k == |s| && Erase(s, x) == s
    ensures forall j | 0 <= j < |Erase(s, x)| ::
              Uncut(k, j) < |s| && Erase(s, x)[j] == s[Uncut(k, j)] && s[Uncut(k, j)] != x
  {
    if x in s {
      k :| 0 <= k < |s| && s[k] == x;
      EraseAt(s, k);
    } else {
      k := |s|;
      EraseAbsent(s, x);
    }
  }
}
