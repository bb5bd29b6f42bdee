/** Exact integer sums and powers, and their congruences modulo the prime 193. */
module ModularSums {

  /** a and b agree modulo 193. */
  predicate Cong(a: int, b: int) {
    (a - b) % 193 == 0
  }

  function Pow(b: int, e: nat): int {
    if e == 0 then 1 else b * Pow(b, e - 1)
  }

  /** Pow on int exponents, so that it can stand inside a summand. */
  function PowI(b: int, e: int): int {
    if e < 0 then 0 else Pow(b, e)
  }

  function Sum(f: int -> int, n: nat): int {
    if n == 0 then 0 else Sum(f, n - 1) + f(n - 1)
  }

  // ---- congruences -------------------------------------------------------

  lemma CongQuotient(a: int, b: int) returns (q: int)
    requires Cong(a, b)
    ensures a == b + 193 * q
  {
    q := (a - b) / 193;
  }

  lemma CongTrans(a: int, b: int, c: int)
    requires Cong(a, b) && Cong(b, c)
    ensures Cong(a, c)
  {
  }

  lemma CongSum(a: int, a': int, b: int, b': int)
    requires Cong(a, a') && Cong(b, b')
    ensures Cong(a + b, a' + b') && Cong(a - b, a' - b')
  {
  }

  lemma CongSym(a: int, b: int)
    requires Cong(a, b)
    ensures Cong(b, a)
  {
  }

  lemma CongResidue(a: int)
    ensures 0 <= a % 193 < 193 && Cong(a % 193, a)
  {
    MultipleCong(a % 193 - a, -(a / 193));
  }

  lemma MultipleCong(v: int, k: int)
    requires v == 193 * k
    ensures Cong(v, 0)
  {
  }

  lemma CongSameResidue(a: int, b: int)
    requires Cong(a, b)
    ensures a % 193 == b % 193
  {
  }

  lemma CongMul(a: int, a': int, b: int, b': int)
    requires Cong(a, a') && Cong(b, b')
    ensures Cong(a * b, a' * b')
  {
    var p := CongQuotient(a, a');
    var q := CongQuotient(b, b');
    assert a * b == (a' + 193 * p) * (b' + 193 * q) == a' * b' + 193 * (p * b' + a' * q + 193 * p * q);
  }

  lemma CongPow(a: int, b: int, e: nat)
    requires Cong(a, b)
    ensures Cong(Pow(a, e), Pow(b, e))
  {
    if e > 0 {
      CongPow(a, b, e - 1);
      CongMul(a, b, Pow(a, e - 1), Pow(b, e - 1));
    }
  }

  /** 193 is prime: a factorisation with both factors above 1 is impossible. */
  lemma Prime193(a: int, q: int)
    requires 1 < a < 193 && 1 < q
    ensures a * q != 193
  {
    if a <= 13 {
      assert || a == 2 || a == 3 || a == 4 || a == 5 || a == 6 || a == 7 || a == 8 || a == 9 || a == 10 || a == 11
             || a == 12 || a == 13;
    } else if q <= 13 {
      assert || q == 2 || q == 3 || q == 4 || q == 5 || q == 6 || q == 7 || q == 8 || q == 9 || q == 10 || q == 11
             || q == 12 || q == 13;
    } else {
      assert a * q >= 14 * q;
    }
  }

  /** Z/193 has no zero divisors; the proof is the Euclidean descent a -> 193 mod a. */
  lemma {:induction false} NoZeroDivisors(a: int, b: int)
    requires 0 < a < 193 && Cong(a * b, 0)
    ensures Cong(b, 0)
    decreases a
  {
    hide Cong;
    if a == 1 {
      assert a * b == b;
    } else {
      var q, r := 193 / a, 193 % a;
      assert 193 == a * q + r;
      if r == 0 {
        Prime193(a, q);
        assert false;
      }
      var z := CongQuotient(a * b, 0);
      DescentStep(a, b, q, r, z);
      MultipleCong(r * b, b - q * z);
      NoZeroDivisors(r, b);
    }
  }

  lemma DescentStep(a: int, b: int, q: int, r: int, z: int)
    requires 193 == a * q + r && a * b == 193 * z
    ensures r * b == 193 * (b - q * z)
  {
    calc {
      r * b;
      (193 - a * q) * b;
      193 * b - (a * q) * b;
      { assert (a * q) * b == q * (a * b); }
      193 * b - q * (193 * z);
      193 * (b - q * z);
    }
  }

  // ---- powers ------------------------------------------------------------

  lemma PowAdd(b: int, x: nat, y: nat)
    ensures Pow(b, x + y) == Pow(b, x) * Pow(b, y)
  {
    if x > 0 {
      PowAdd(b, x - 1, y);
      assert Pow(b, x + y) == b * (Pow(b, x - 1) * Pow(b, y)) == (b * Pow(b, x - 1)) * Pow(b, y);
    }
  }

  lemma PowMul(b: int, x: nat, y: nat)
    ensures x * y >= 0 && Pow(b, x * y) == Pow(Pow(b, x), y)
    decreases y
  {
    if y == 0 {
      assert x * y == 0;
    } else {
      PowMul(b, x, y - 1);
      assert x * y == x + x * (y - 1);
      PowAdd(b, x, x * (y - 1));
    }
  }

  lemma Regroup(a: int, b: int, x: int, y: int)
    ensures (a * b) * (x * y) == (a * x) * (b * y)
  {
    calc {
      (a * b) * (x * y);
      a * (b * (x * y));
      a * (x * (b * y));
      (a * x) * (b * y);
    }
  }

  lemma PowDistrib(a: int, b: int, e: nat)
    ensures Pow(a * b, e) == Pow(a, e) * Pow(b, e)
  {
    if e > 0 {
      PowDistrib(a, b, e - 1);
      Regroup(a, b, Pow(a, e - 1), Pow(b, e - 1));
    }
  }

  lemma PowOne(e: nat)
    ensures Pow(1, e) == 1
  {
    if e > 0 { PowOne(e - 1); }
  }

  /** If b has order dividing 64 then exponents only matter modulo 64. */
  lemma PowPeriod(b: int, e: nat)
    requires Cong(Pow(b, 64), 1)
    ensures Cong(Pow(b, e), Pow(b, e % 64))
  {
    var q := e / 64;
    assert e == 64 * q + e % 64;
    PowAdd(b, 64 * q, e % 64);
    PowMul(b, 64, q);
    CongPow(Pow(b, 64), 1, q);
    PowOne(q);
    CongMul(Pow(b, 64 * q), 1, Pow(b, e % 64), Pow(b, e % 64));
  }

  lemma SquareStep(b: int, e: nat, v: int, w: int)
    requires Cong(Pow(b, e), v) && Cong(v * v, w)
    ensures Cong(Pow(b, 2 * e), w)
  {
    hide Cong;
    PowAdd(b, e, e);
    CongMul(Pow(b, e), v, Pow(b, e), v);
    assert Pow(b, 2 * e) == Pow(b, e) * Pow(b, e);
    CongTrans(Pow(b, 2 * e), v * v, w);
  }

  lemma PowFirst(b: int)
    ensures Pow(b, 1) == b
  {
    assert Pow(b, 1) == b * Pow(b, 0);
  }

  // ---- sums --------------------------------------------------------------

  lemma {:induction false} SumCong(f: int -> int, g: int -> int, n: nat)
    requires forall i {:trigger f(i)} {:trigger g(i)} :: 0 <= i < n ==> Cong(f(i), g(i))
    ensures Cong(Sum(f, n), Sum(g, n))
  {
    if n > 0 {
      SumCong(f, g, n - 1);
      assert Cong(f(n - 1), g(n - 1));
    }
  }

  lemma {:induction false} SumEqual(f: int -> int, g: int -> int, n: nat)
    requires forall i {:trigger f(i)} {:trigger g(i)} :: 0 <= i < n ==> f(i) == g(i)
    ensures Sum(f, n) == Sum(g, n)
  {
    if n > 0 {
      SumEqual(f, g, n - 1);
      assert f(n - 1) == g(n - 1);
    }
  }

  lemma {:induction false} SumAdd(f: int -> int, g: int -> int, n: nat)
    ensures Sum(i => f(i) + g(i), n) == Sum(f, n) + Sum(g, n)
  {
    if n > 0 { SumAdd(f, g, n - 1); }
  }

  lemma {:induction false} SumScale(c: int, f: int -> int, n: nat)
    ensures Sum(i => c * f(i), n) == c * Sum(f, n)
  {
    if n > 0 {
      SumScale(c, f, n - 1);
      assert c * Sum(f, n) == c * Sum(f, n - 1) + c * f(n - 1);
    }
  }

  lemma {:induction false} SumZero(n: nat)
    ensures Sum(i => 0, n) == 0
  {
    if n > 0 { SumZero(n - 1); }
  }

  /** Exchange of the order of summation. */
  lemma {:induction false} SumSwap(f: (int, int) -> int, n: nat, m: nat)
    ensures Sum(i => Sum(j => f(i, j), m), n) == Sum(j => Sum(i => f(i, j), n), m)
  {
    if n == 0 {
      SumZero(m);
      SumEqual(j => Sum(i => f(i, j), n), i => 0, m);
    } else {
      var row := j => f(n - 1, j);
      var part := j => Sum(i => f(i, j), n - 1);
      SumSwap(f, n - 1, m);
      SumAdd(part, row, m);
      SumEqual(j => Sum(i => f(i, j), n), j => part(j) + row(j), m);
      SumEqual(j => f(n - 1, j), row, m);
    }
  }

  /** Even and odd positions of a sum over 2h indices. */
  lemma {:induction false} SumEvenOdd(f: int -> int, h: nat)
    ensures Sum(f, 2 * h) == Sum(t => f(2 * t), h) + Sum(t => f(2 * t + 1), h)
  {
    if h > 0 {
      SumEvenOdd(f, h - 1);
      assert Sum(f, 2 * h) == Sum(f, 2 * h - 2) + f(2 * h - 2) + f(2 * h - 1);
      assert 2 * (h - 1) == 2 * h - 2;
    }
  }

  /** A sum whose terms vanish modulo 193 except at `at`. */
  lemma {:induction false} SumSingle(f: int -> int, n: nat, at: int)
    requires 0 <= at < n
    requires forall i :: 0 <= i < n && i != at ==> Cong(f(i), 0)
    ensures Cong(Sum(f, n), f(at))
  {
    if at == n - 1 {
      SumCong(f, i => 0, n - 1);
      SumZero(n - 1);
    } else {
      SumSingle(f, n - 1, at);
      assert Cong(f(n - 1), 0);
    }
  }

  /** (r - 1)(1 + r + ... + r^(n-1)) = r^n - 1. */
  lemma {:induction false} Geometric(r: int, n: nat)
    ensures (r - 1) * Sum(k => PowI(r, k), n) == Pow(r, n) - 1
  {
    if n > 0 {
      Geometric(r, n - 1);
      var f := k => PowI(r, k);
      assert Sum(f, n) == Sum(f, n - 1) + Pow(r, n - 1);
      assert (r - 1) * Sum(f, n) == (r - 1) * Sum(f, n - 1) + (r - 1) * Pow(r, n - 1);
    }
  }
}
