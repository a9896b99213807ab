/** Powers of two, and the mask arithmetic both components rely on. */
module Bits {

  function Pow2(n: nat): (p: nat)
    ensures p >= 1
  {
    if n == 0 then 1 else 2 * Pow2(n - 1)
  }

  const WORD: nat := 0x1_0000_0000_0000_0000

  /** `a & b`, one bit at a time. */
  function BitAnd(a: nat, b: nat): nat {
    if a == 0 || b == 0 then 0
    else 2 * BitAnd(a / 2, b / 2) + if a % 2 == 1 && b % 2 == 1 then 1 else 0
  }

  /** `a | b`, one bit at a time. */
  function BitOr(a: nat, b: nat): nat {
    if a == 0 && b == 0 then 0
    else 2 * BitOr(a / 2, b / 2) + if a % 2 == 1 || b % 2 == 1 then 1 else 0
  }

  function ShiftRight(a: nat, k: nat): nat {
    DivNonNegative(a, Pow2(k));
    a / Pow2(k)
  }

  /** `a << k` on 64-bit words: the high bits fall off. */
  function ShiftLeft(a: nat, k: nat): nat {
    (a * Pow2(k)) % WORD
  }

  /** Exactly one bit is set. */
  predicate IsPowerOfTwo(v: nat) {
    v != 0 && (v == 1 || (v % 2 == 0 && IsPowerOfTwo(v / 2)))
  }

  /** `std::countr_zero` of a power of two. */
  function Log2(v: nat): (k: nat)
    requires IsPowerOfTwo(v)
    ensures Pow2(k) == v
  {
    if v == 1 then 0 else 1 + Log2(v / 2)
  }

  lemma {:induction false} Pow2IsPowerOfTwo(k: nat)
    ensures IsPowerOfTwo(Pow2(k)) && Log2(Pow2(k)) == k
  {
    if k > 0 {
      Pow2IsPowerOfTwo(k - 1);
      assert Pow2(k) == 2 * Pow2(k - 1);
      assert Pow2(k) / 2 == Pow2(k - 1) && Pow2(k) % 2 == 0 && Pow2(k) != 1;
    }
  }

  lemma {:induction false} Pow2Add(a: nat, b: nat)
    ensures Pow2(a + b) == Pow2(a) * Pow2(b)
  {
    if a == 0 {
      assert Pow2(0) == 1;
    } else {
      Pow2Add(a - 1, b);
      calc {
        Pow2(a + b);
        2 * Pow2(a - 1 + b);
        2 * (Pow2(a - 1) * Pow2(b));
        (2 * Pow2(a - 1)) * Pow2(b);
      }
    }
  }

  lemma {:induction false} Pow2Monotone(a: nat, b: nat)
    requires a < b
    ensures Pow2(a) < Pow2(b)
  {
    if b > a + 1 {
      Pow2Monotone(a, b - 1);
    }
  }

  /** The smaller of two powers of two divides the larger one. */
  lemma {:induction false} PowerOfTwoDivides(a: nat, b: nat)
    requires IsPowerOfTwo(a) && IsPowerOfTwo(b) && a <= b
    ensures a > 0 && b % a == 0
  {
    var i, j := Log2(a), Log2(b);
    if j < i {
      Pow2Monotone(j, i);
    } else {
      Pow2Add(i, j - i);
      MultipleMod(a, Pow2(j - i));
    }
  }

  lemma SmallPowers()
    ensures IsPowerOfTwo(16) && IsPowerOfTwo(64) && IsPowerOfTwo(128) && IsPowerOfTwo(256)
  {
    assert IsPowerOfTwo(1) && IsPowerOfTwo(2) && IsPowerOfTwo(4) && IsPowerOfTwo(8) && IsPowerOfTwo(16);
    assert IsPowerOfTwo(32) && IsPowerOfTwo(64) && IsPowerOfTwo(128);
  }

  lemma MultipleMod(a: nat, q: nat)
    requires a > 0
    ensures (a * q) % a == 0 && (a * q) / a == q
  {
    DivModUnique(a * q, a, q, 0);
  }

  /** Euclidean division is unique. */
  lemma DivModUnique(x: int, d: int, q: int, r: int)
    requires d > 0 && 0 <= r < d && x == q * d + r
    ensures x / d == q && x % d == r
  {
    var q', r' := x / d, x % d;
    assert (q - q') * d == r' - r && (q' - q) * d == r - r' by {
      assert x == d * q' + r';
    }
    if q > q' {
      MulAtLeast(q - q', d);
    } else if q < q' {
      MulAtLeast(q' - q, d);
    }
  }

  lemma MulAtLeast(k: int, d: int)
    requires k >= 1 && d >= 0
    ensures k * d >= d
  {}

  lemma DivNonNegative(x: nat, d: nat)
    requires d > 0
    ensures x / d >= 0
  {}

  lemma DivIdentity(x: nat, d: nat)
    requires d > 0
    ensures x == d * (x / d) + x % d
  {}

  lemma ExactDiv(x: nat, d: nat)
    requires d > 0 && x % d == 0
    ensures x == (x / d) * d
  {}

  lemma MulAssoc(a: int, b: int, c: int)
    ensures a * (b * c) == (a * b) * c
  {}

  lemma MulNonNegative(k: int, d: int)
    requires k >= 0 && d >= 0
    ensures k * d >= 0
  {}

  // ---- What the masks compute ----

  lemma {:induction false} AndSelf(a: nat)
    ensures BitAnd(a, a) == a
  {
    if a > 0 {
      AndSelf(a / 2);
    }
  }

  /** The code's test `v != 0 && (v & (v - 1)) == 0` recognises exactly the powers of two. */
  lemma {:induction false} PowerOfTwoTest(v: nat)
    requires v > 0
    ensures BitAnd(v, v - 1) == 0 <==> IsPowerOfTwo(v)
  {
    if v == 1 {
      assert BitAnd(1, 0) == 0;
    } else if v % 2 == 1 {
      AndSelf(v / 2);
      assert (v - 1) / 2 == v / 2;
    } else {
      PowerOfTwoTest(v / 2);
      assert (v - 1) / 2 == v / 2 - 1;
      assert BitAnd(v, v - 1) == 2 * BitAnd(v / 2, v / 2 - 1);
    }
  }

  lemma PowerOfTwoBits(v: nat)
    ensures v != 0 && BitAnd(v, v - 1) == 0 <==> IsPowerOfTwo(v)
  {
    if v > 0 {
      PowerOfTwoTest(v);
    }
  }

  lemma DoubleMod(x: nat, m: nat)
    requires m > 0
    ensures x % (2 * m) == 2 * ((x / 2) % m) + x % 2
  {
    var q, r := (x / 2) / m, (x / 2) % m;
    assert x / 2 == m * q + r;
    assert x == q * (2 * m) + (2 * r + x % 2) by {
      assert q * (2 * m) == 2 * (m * q);
    }
    DivModUnique(x, 2 * m, q, 2 * r + x % 2);
  }

  /** The lowest bit, and the rest. */
  lemma AndStep(a: nat, b: nat)
    ensures BitAnd(a, b) == 2 * BitAnd(a / 2, b / 2) + if a % 2 == 1 && b % 2 == 1 then 1 else 0
  {}

  lemma AndEvenMask(a: nat, b: nat)
    ensures BitAnd(a, 2 * b) == 2 * BitAnd(a / 2, b)
  {
    hide BitAnd;
    AndStep(a, 2 * b);
    assert (2 * b) / 2 == b && (2 * b) % 2 == 0;
  }

  /** Masking with `2^k - 1` keeps the remainder. */
  lemma {:induction false} AndLowMask(x: nat, k: nat)
    ensures BitAnd(x, Pow2(k) - 1) == x % Pow2(k)
  {
    if k > 0 {
      var m := Pow2(k - 1);
      AndLowMask(x / 2, k - 1);
      DoubleMod(x, m);
      AndStep(x, 2 * m - 1);
      assert (2 * m - 1) / 2 == m - 1 && (2 * m - 1) % 2 == 1;
    }
  }

  /** Masking an n-bit value with the complement of `2^k - 1` clears the remainder. */
  lemma {:induction false} AndHighMask(x: nat, k: nat, n: nat)
    requires k <= n && x < Pow2(n)
    ensures Pow2(k) <= Pow2(n)
    ensures BitAnd(x, Pow2(n) - Pow2(k)) == x - x % Pow2(k)
  {
    if k < n {
      Pow2Monotone(k, n);
    }
    if k == 0 {
      AndLowMask(x, n);
      DivModUnique(x, Pow2(n), 0, x);
    } else {
      var m, w := Pow2(k - 1), Pow2(n - 1);
      AndHighMask(x / 2, k - 1, n - 1);
      DoubleMod(x, m);
      AndEvenMask(x, w - m);
    }
  }

  /** Or-ing values whose bits do not overlap adds them. */
  lemma {:induction false} OrDisjoint(a: nat, b: nat, k: nat)
    requires b < Pow2(k)
    ensures BitOr(a * Pow2(k), b) == a * Pow2(k) + b
  {
    if k == 0 {
      OrZero(a);
      assert a * 1 == a;
    } else {
      var m := Pow2(k - 1);
      assert a * Pow2(k) == 2 * (a * m) by {
        assert Pow2(k) == 2 * m;
      }
      OrDisjoint(a, b / 2, k - 1);
      var x := a * m;
      assert (2 * x) / 2 == x && (2 * x) % 2 == 0;
    }
  }

  lemma {:induction false} OrZero(a: nat)
    ensures BitOr(a, 0) == a
  {
    if a > 0 {
      OrZero(a / 2);
    }
  }

  lemma Pow2Of64()
    ensures Pow2(64) == WORD
  {
    assert Pow2(8) == 256;
    Pow2Add(8, 8);
    Pow2Add(16, 16);
    Pow2Add(32, 32);
  }

  /** `(value + mask) & ~mask` with `mask == alignment - 1`, on words. */
  function AlignUp(value: nat, alignment: nat): (r: nat)
    requires IsPowerOfTwo(alignment) && value + alignment <= WORD
    ensures value <= r < value + alignment
    ensures r % alignment == 0
  {
    var mask := alignment - 1;
    var r := BitAnd(value + mask, WORD - 1 - mask);
    AlignUpMeaning(value, alignment);
    r
  }

  lemma AlignUpMeaning(value: nat, alignment: nat)
    requires IsPowerOfTwo(alignment) && value + alignment <= WORD
    ensures var r := BitAnd(value + (alignment - 1), WORD - 1 - (alignment - 1));
            value <= r < value + alignment && r % alignment == 0
  {
    var x := value + (alignment - 1);
    var r := BitAnd(x, WORD - 1 - (alignment - 1));
    assert r == x - x % alignment by {
      Pow2Of64();
      MaskClears(x, Log2(alignment), 64);
    }
    FloorMultiple(x, alignment);
  }

  lemma MaskClears(x: nat, k: nat, n: nat)
    requires x < Pow2(n) && Pow2(k) <= Pow2(n)
    ensures BitAnd(x, Pow2(n) - 1 - (Pow2(k) - 1)) == x - x % Pow2(k)
  {
    if n < k {
      Pow2Monotone(n, k);
    }
    AndHighMask(x, k, n);
  }

  lemma FloorMultiple(x: nat, a: nat)
    requires a > 0
    ensures x - a < x - x % a <= x && (x - x % a) % a == 0
  {
    assert x - x % a == a * (x / a);
    MultipleMod(a, x / a);
  }

  /** Rounding up yields the least multiple that is not below the argument. */
  lemma LeastMultiple(value: nat, alignment: nat, r: nat, m: nat)
    requires alignment > 0 && value <= r < value + alignment && r % alignment == 0
    requires m % alignment == 0 && value <= m
    ensures r <= m
  {
    var a, b := r / alignment, m / alignment;
    assert (a - b) * alignment == r - m by {
      assert r == a * alignment && m == b * alignment;
    }
    if a > b {
      MulAtLeast(a - b, alignment);
    } else {
      MulNonNegative(b - a, alignment);
      assert (b - a) * alignment == m - r;
    }
  }

  /** Distinct multiples are at least one unit apart, and the next multiple is one unit up. */
  lemma MultiplesApart(a: nat, b: nat, d: nat)
    requires d > 0 && a % d == 0 && b % d == 0 && a < b
    ensures a + d <= b && (a + d) % d == 0
  {
    ExactDiv(a, d);
    ExactDiv(b, d);
    var x, y := a / d, b / d;
    DivModUnique(a + d, d, x + 1, 0);
    assert (y - x) * d == b - a;
    if y <= x {
      MulNonNegative(x - y, d);
    } else {
      MulAtLeast(y - x, d);
    }
  }

  lemma ModTrans(x: nat, a: nat, b: nat)
    requires a > 0 && b > 0 && x % b == 0 && b % a == 0
    ensures x % a == 0
  {
    var p, q := x / b, b / a;
    assert x == b * p && b == a * q;
    assert x == a * (q * p) by {
      assert (a * q) * p == a * (q * p);
    }
    MultipleMod(a, q * p);
  }
}
