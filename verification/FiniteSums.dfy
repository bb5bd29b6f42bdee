/** Finite integer sums: comparison, single changes, splitting and counting. */
module FiniteSums {
  import opened ModularSums
  import opened Arithmetic

  lemma {:induction false} SumLe(f: int -> int, g: int -> int, n: nat)
    requires forall i {:trigger f(i)} {:trigger g(i)} :: 0 <= i < n ==> f(i) <= g(i)
    ensures Sum(f, n) <= Sum(g, n)
  {
    if n > 0 {
      SumLe(f, g, n - 1);
      assert f(n - 1) <= g(n - 1);
    }
  }

  /** Two sums whose terms differ at one index only. */
  lemma {:induction false} SumChange(f: int -> int, g: int -> int, n: nat, at: nat, d: int)
    requires at < n && f(at) == g(at) + d
    requires forall i {:trigger f(i)} {:trigger g(i)} :: 0 <= i < n && i != at ==> f(i) == g(i)
    ensures Sum(f, n) == Sum(g, n) + d
  {
    if at == n - 1 {
      SumEqual(f, g, n - 1);
    } else {
      SumChange(f, g, n - 1, at, d);
      assert f(n - 1) == g(n - 1);
    }
  }

  lemma {:induction false} SumConstant(f: int -> int, n: nat, c: int)
    requires forall i :: 0 <= i < n ==> f(i) == c
    ensures Sum(f, n) == n * c
  {
    if n > 0 {
      SumConstant(f, n - 1, c);
      assert f(n - 1) == c;
      assert n * c == (n - 1) * c + c;
    }
  }

  lemma {:induction false} SumSplit(f: int -> int, a: nat, b: nat)
    ensures Sum(f, a + b) == Sum(f, a) + Sum(t => f(a + t), b)
  {
    if b > 0 {
      SumSplit(f, a, b - 1);
      assert a + (b - 1) == a + b - 1;
    }
  }

  /** One term of a sum of non-negative terms is at most the sum. */
  lemma {:induction false} TermBelowSum(f: int -> int, n: nat, at: nat)
    requires at < n && forall i :: 0 <= i < n ==> f(i) >= 0
    ensures 0 <= f(at) <= Sum(f, n)
  {
    if at == n - 1 {
      SumNonNegative(f, n - 1);
    } else {
      TermBelowSum(f, n - 1, at);
      assert f(n - 1) >= 0;
    }
  }

  lemma {:induction false} SumNonNegative(f: int -> int, n: nat)
    requires forall i :: 0 <= i < n ==> f(i) >= 0
    ensures Sum(f, n) >= 0
  {
    if n > 0 {
      SumNonNegative(f, n - 1);
      assert f(n - 1) >= 0;
    }
  }

  /** The indicator of a set of numbers below n sums to its size. */
  lemma {:induction false} CountMembers(s: set<nat>, n: nat)
    requires forall x :: x in s ==> x < n
    ensures Sum(i => if i in s then 1 else 0, n) == |s|
  {
    if n == 0 {
      assert s == {};
    } else {
      var rest := s - {n - 1};
      CountMembers(rest, n - 1);
      SumEqual(i => if i in s then 1 else 0, i => if i in rest then 1 else 0, n - 1);
      assert n - 1 in s ==> s == rest + {n - 1};
      assert n - 1 !in s ==> s == rest;
    }
  }

  predicate Divides(d: nat, x: int) { d > 0 && x % d == 0 }

  lemma MultipleSum(a: int, b: int, d: nat)
    requires Divides(d, a) && Divides(d, b)
    ensures Divides(d, a + b) && Divides(d, a - b)
  {
    var p, q := a / d, b / d;
    assert a == d * p && b == d * q;
    assert a + b == d * (p + q);
    assert a - b == d * (p - q);
    MultipleResidue(d, p + q);
    MultipleResidue(d, p - q);
  }

  lemma MultipleResidue(d: nat, q: int)
    requires d > 0
    ensures (d * q) % d == 0
  {
    var r := (d * q) % d;
    var t := (d * q) / d;
    assert d * q == d * t + r;
    MulMonotone(d, t + 1, q);
    MulMonotone(d, q, t);
  }

  lemma {:induction false} SumMultiple(f: int -> int, n: nat, d: nat)
    requires d > 0 && forall i :: 0 <= i < n ==> Divides(d, f(i))
    ensures Divides(d, Sum(f, n))
  {
    if n > 0 {
      SumMultiple(f, n - 1, d);
      assert Divides(d, f(n - 1));
      hide Divides;
      MultipleSum(Sum(f, n - 1), f(n - 1), d);
    }
  }
}
