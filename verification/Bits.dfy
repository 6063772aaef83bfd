/**
 Bitwise AND on natural numbers, and the power-of-two facts the firmware's masks rely on:
 sector masks, chip-select bits, ring slot masks and alignment masks are all instances.
 */
module Bits {

  /** The bitwise AND of two natural numbers, bit by bit from the least significant one. */
  function And(x: nat, y: nat): (r: nat)
    ensures r <= x && r <= y
  {
    if x == 0 || y == 0 then 0
    else 2 * And(x / 2, y / 2) + (if x % 2 == 1 && y % 2 == 1 then 1 else 0)
  }

  function Pow2(k: nat): (r: nat)
    ensures r >= 1
  {
    if k == 0 then 1 else 2 * Pow2(k - 1)
  }

  ghost predicate IsPow2(n: nat) {
    exists k: nat :: n == Pow2(k)
  }

  lemma {:induction false} AndSame(x: nat)
    ensures And(x, x) == x
  {
    if x > 0 {
      AndSame(x / 2);
    }
  }

  lemma {:induction false} AndCommutes(x: nat, y: nat)
    ensures And(x, y) == And(y, x)
  {
    if x > 0 && y > 0 {
      AndCommutes(x / 2, y / 2);
    }
  }

  /** Halving before or after taking a remainder by an even number. */
  lemma HalfMod(x: nat, m: nat)
    requires m > 0
    ensures x % (2 * m) == 2 * ((x / 2) % m) + x % 2
    ensures x / (2 * m) == (x / 2) / m
  {
    var q, r := (x / 2) / m, (x / 2) % m;
    assert x == 2 * (q * m + r) + x % 2;
    assert x == q * (2 * m) + (2 * r + x % 2);
    DivModUnique(x, 2 * m, q, 2 * r + x % 2);
  }

  /** Quotient and remainder are determined by `x == q * m + r` with `0 <= r < m`. */
  lemma DivModUnique(x: int, m: int, q: int, r: int)
    requires 0 <= r < m
    requires x == q * m + r
    ensures x / m == q && x % m == r
  {
    var d := x / m - q;
    assert x == (x / m) * m + x % m;
    assert d * m == r - x % m;
    MulFar(d, m);
  }

  lemma MulFar(d: int, m: int)
    requires m > 0
    ensures d >= 1 ==> d * m >= m
    ensures d <= -1 ==> d * m <= -m
  {
    if d >= 1 {
      assert d * m == (d - 1) * m + m;
    } else if d <= -1 {
      assert d * m == (d + 1) * m - m;
    }
  }

  /** Masking with `2^k - 1` keeps the low `k` bits. */
  lemma {:induction false} AndLowMask(x: nat, k: nat)
    ensures And(x, Pow2(k) - 1) == x % Pow2(k)
  {
    if k > 0 {
      var m := Pow2(k - 1);
      HalfMod(x, m);
      AndLowMask(x / 2, k - 1);
      if x > 0 && 2 * m - 1 > 0 {
        assert (2 * m - 1) / 2 == m - 1 && (2 * m - 1) % 2 == 1;
      }
    }
  }

  /** Masking with the single bit `2^k` tests that bit. */
  lemma {:induction false} AndOneBit(x: nat, k: nat)
    ensures And(x, Pow2(k)) == (if (x / Pow2(k)) % 2 == 1 then Pow2(k) else 0)
  {
    if k == 0 {
      if x > 0 {
        assert And(x, 1) == 2 * And(x / 2, 0) + (if x % 2 == 1 then 1 else 0);
      }
    } else {
      var m := Pow2(k - 1);
      HalfMod(x, m);
      AndOneBit(x / 2, k - 1);
      if x > 0 {
        assert (2 * m) / 2 == m && (2 * m) % 2 == 0;
      }
    }
  }

  lemma PowDoubles(k: nat)
    requires k > 0
    ensures Pow2(k) == 2 * Pow2(k - 1)
  {
  }

  lemma AndHighStep(x: nat, w: nat, m: nat, h: nat)
    requires m <= w && And(x / 2, w - m) == x / 2 - h
    ensures And(x, 2 * (w - m)) == x - (2 * h + x % 2)
  {
    AndDoubled(x, 2 * (w - m), w - m);
    hide And;
  }

  /** Masking with `2^n - 2^k` clears the low `k` bits of an `n`-bit number. */
  lemma {:induction false} AndHighMask(x: nat, k: nat, n: nat)
    requires k <= n && x < Pow2(n)
    ensures Pow2(k) <= Pow2(n)
    ensures And(x, Pow2(n) - Pow2(k)) == x - x % Pow2(k)
  {
    if k == 0 {
      AndLowMask(x, n);
      ModSmall(x, Pow2(n));
    } else {
      AndHighMask(x / 2, k - 1, n - 1);
      AndHighNext(x, k, n);
    }
  }

  lemma AndHighNext(x: nat, k: nat, n: nat)
    requires 0 < k <= n && Pow2(k - 1) <= Pow2(n - 1)
    requires And(x / 2, Pow2(n - 1) - Pow2(k - 1)) == x / 2 - (x / 2) % Pow2(k - 1)
    ensures Pow2(k) <= Pow2(n)
    ensures And(x, Pow2(n) - Pow2(k)) == x - x % Pow2(k)
  {
    PowDoubles(k);
    PowDoubles(n);
    hide And, Pow2;
    var m, w := Pow2(k - 1), Pow2(n - 1);
    HalfMod(x, m);
    AndHighStep(x, w, m, (x / 2) % m);
  }

  lemma ModSmall(x: nat, m: nat)
    requires x < m
    ensures x % m == x && x / m == 0
  {
    DivModUnique(x, m, 0, x);
  }

  lemma AndClearLowBit(x: nat, n: nat)
    requires 0 < n && x < Pow2(n)
    ensures Pow2(n) >= 2
    ensures And(x, Pow2(n) - 2) == x - And(x, 1)
  {
    assert Pow2(0) == 1 && Pow2(1) == 2;
    AndOneBit(x, 0);
    AndHighMask(x, 1, n);
  }

  /** Clearing the single bit `2^k` with an `n`-bit complement mask. */
  lemma {:induction false} AndClearBit(x: nat, k: nat, n: nat)
    requires k < n && x < Pow2(n)
    ensures Pow2(k) < Pow2(n)
    ensures And(x, Pow2(n) - 1 - Pow2(k)) == x - And(x, Pow2(k))
  {
    hide And;
    Pow2Monotone(k, n);
    if k == 0 {
      AndClearLowBit(x, n);
    } else {
      Pow2Monotone(k - 1, n - 1);
      AndClearBit(x / 2, k - 1, n - 1);
      AndClearBitStep(x, Pow2(n - 1), Pow2(k - 1));
    }
  }

  lemma AndClearBitStep(x: nat, w: nat, m: nat)
    requires m < w
    requires And(x / 2, w - 1 - m) == x / 2 - And(x / 2, m)
    ensures And(x, 2 * w - 1 - 2 * m) == x - And(x, 2 * m)
  {
    hide And;
    AndDoubled(x, 2 * w - 1 - 2 * m, w - 1 - m);
    AndDoubled(x, 2 * m, m);
  }

  lemma AndDoubled(x: nat, y: nat, h: nat)
    requires y == 2 * h || y == 2 * h + 1
    ensures And(x, y) == 2 * And(x / 2, h) + (if x % 2 == 1 && y % 2 == 1 then 1 else 0)
  {
    assert y / 2 == h;
  }

  /** `n & (n - 1) == 0` is the firmware's power-of-two test; it is exact. */
  lemma {:induction false} PowerOfTwoTest(n: nat)
    requires n > 0
    ensures And(n, n - 1) == 0 <==> IsPow2(n)
  {
    if n == 1 {
      assert Pow2(0) == 1;
    } else if n % 2 == 1 {
      assert n / 2 == (n - 1) / 2 && (n - 1) % 2 == 0;
      AndSame(n / 2);
      forall k: nat
        ensures Pow2(k) != n
      {
        if k > 0 {
          assert Pow2(k) == 2 * Pow2(k - 1);
        }
      }
    } else {
      assert (n - 1) / 2 == n / 2 - 1 && (n - 1) % 2 == 1;
      PowerOfTwoTest(n / 2);
      if IsPow2(n / 2) {
        var k: nat :| n / 2 == Pow2(k);
        assert Pow2(k + 1) == n;
      }
      if IsPow2(n) {
        var k: nat :| n == Pow2(k);
        assert k > 0 && n / 2 == Pow2(k - 1);
      }
    }
  }

  lemma {:induction false} Pow2Monotone(j: nat, k: nat)
    requires j <= k
    ensures Pow2(j) <= Pow2(k)
    ensures j < k ==> Pow2(j) < Pow2(k)
    decreases k - j
  {
    if j < k {
      Pow2Monotone(j, k - 1);
    }
  }

  lemma {:induction false} Pow2Sum(j: nat, k: nat)
    ensures Pow2(j + k) == Pow2(j) * Pow2(k)
  {
    if j > 0 {
      Pow2Sum(j - 1, k);
      assert Pow2(j + k) == 2 * Pow2(j - 1 + k);
      assert 2 * (Pow2(j - 1) * Pow2(k)) == (2 * Pow2(j - 1)) * Pow2(k);
    }
  }

  /** A smaller power of two divides a larger one, so remainders agree. */
  lemma ModMod(x: nat, j: nat, k: nat)
    requires j <= k
    ensures (x % Pow2(k)) % Pow2(j) == x % Pow2(j)
  {
    Pow2Sum(k - j, j);
    ModOfMultiple(x, Pow2(j), Pow2(k - j));
  }

  lemma ModOfMultiple(x: nat, m: nat, q: nat)
    requires m > 0 && q > 0
    ensures q * m > 0 && (x % (q * m)) % m == x % m
  {
    MulFar(q, m);
    var p := q * m;
    var a, r := x / p, x % p;
    var b, s := r / m, r % m;
    assert x == a * p + r && r == b * m + s;
    calc {
      a * p + (b * m + s);
      a * (q * m) + b * m + s;
      { assert a * (q * m) == (a * q) * m; }
      (a * q) * m + b * m + s;
      { assert (a * q) * m + b * m == (a * q + b) * m; }
      (a * q + b) * m + s;
    }
    DivModUnique(x, m, a * q + b, s);
  }

  lemma Pow2Constants()
    ensures Pow2(2) == 4 && Pow2(3) == 8 && Pow2(8) == 256 && Pow2(16) == 0x1_0000
    ensures Pow2(17) == 0x2_0000 && Pow2(31) == 0x8000_0000 && Pow2(32) == 0x1_0000_0000
  {
    assert Pow2(2) == 4 && Pow2(4) == 16 && Pow2(6) == 64 && Pow2(8) == 256;
    Pow2Sum(8, 8);
    Pow2Sum(16, 16);
    Pow2Sum(1, 16);
    Pow2Sum(1, 31);
  }

  predicate MultipleOf(x: int, s: int) {
    s > 0 && x % s == 0
  }

  /** `x` rounded down to a multiple of `s`. */
  function RoundDown(x: nat, s: nat): (r: nat)
    requires s > 0
    ensures r <= x < r + s && MultipleOf(r, s)
  {
    ModOfProduct(x / s, s);
    assert x == (x / s) * s + x % s;
    (x / s) * s
  }

  lemma RoundDownIs(x: nat, s: nat)
    requires s > 0
    ensures RoundDown(x, s) == x - x % s
    ensures MultipleOf(x, s) <==> RoundDown(x, s) == x
  {
    assert x == (x / s) * s + x % s;
  }

  lemma ModOfProduct(k: nat, s: nat)
    requires s > 0
    ensures k * s >= 0 && (k * s) % s == 0 && (k * s) / s == k
  {
    MulNonNegative(k, s);
    DivModUnique(k * s, s, k, 0);
  }

  lemma MulNonNegative(a: int, b: int)
    requires a >= 0 && b >= 0
    ensures a * b >= 0
  {
  }

  /** Multiples of `s` are at least `s` apart. */
  lemma MultiplesApart(x: nat, y: nat, s: nat)
    requires MultipleOf(x, s) && MultipleOf(y, s) && x < y
    ensures x + s <= y
  {
    var j, k := x / s, y / s;
    assert x == j * s && y == k * s;
    assert (k - j) * s == y - x;
    MulFar(k - j, s);
  }

  lemma MultiplesAdd(x: nat, y: nat, s: nat)
    requires MultipleOf(x, s) && MultipleOf(y, s)
    ensures MultipleOf(x + y, s)
  {
    ModAddMultiple(x, y, s);
  }

  lemma MultipleOfProduct(k: nat, s: nat)
    requires s > 0
    ensures k * s >= 0 && MultipleOf(k * s, s)
  {
    ModOfProduct(k, s);
  }

  /** A multiple of `s` below `x`, less than `s` away, is `x` rounded down. */
  lemma RoundDownUnique(x: nat, m: nat, s: nat)
    requires MultipleOf(m, s) && m <= x < m + s
    ensures RoundDown(x, s) == m
  {
    assert m == (m / s) * s;
    DivModUnique(x, s, m / s, x - m);
  }

  lemma RoundDownAbove(x: nat, m: nat, s: nat)
    requires MultipleOf(m, s)
    ensures RoundDown(m + x, s) == m + RoundDown(x, s)
  {
    MultiplesAdd(m, RoundDown(x, s), s);
    RoundDownUnique(m + x, m + RoundDown(x, s), s);
  }

  lemma ModAddMultiple(x: nat, y: nat, s: nat)
    requires s > 0 && y % s == 0
    ensures (x + y) % s == x % s && (x + y) / s == x / s + y / s
  {
    assert x == (x / s) * s + x % s && y == (y / s) * s;
    assert (x / s + y / s) * s == (x / s) * s + (y / s) * s;
    DivModUnique(x + y, s, x / s + y / s, x % s);
  }
}
