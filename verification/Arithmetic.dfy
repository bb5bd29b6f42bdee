/** Facts about quotients and remainders by a variable divisor. */
module Arithmetic {

  lemma MulMonotone(h: nat, x: int, y: int)
    ensures x <= y ==> h * x <= h * y
    ensures h * x == h * (x - 1) + h
  {
  }

  lemma DivMod(h: nat, c: nat, k: nat)
    requires k < h
    ensures (h * c + k) / h == c && (h * c + k) % h == k
  {
    var q, r := (h * c + k) / h, (h * c + k) % h;
    assert h * c + k == h * q + r;
    MulMonotone(h, c + 1, q);
    MulMonotone(h, q + 1, c);
  }

  /** Two numbers with the same remainder are at least one divisor apart. */
  lemma SameResidueGap(n: nat, p: nat, q: nat)
    requires n > 0 && p % n == q % n && p < q
    ensures p + n <= q
  {
    var a, b := p / n, q / n;
    assert p == n * a + p % n && q == n * b + q % n;
    MulMonotone(n, b, a);
    MulMonotone(n, a + 1, b);
  }

  lemma AddDivisor(n: nat, p: nat)
    requires n > 0
    ensures (p + n) % n == p % n
  {
    var a := p / n;
    assert p == n * a + p % n;
    MulMonotone(n, a + 1, a + 1);
    DivMod(n, a + 1, p % n);
  }

  lemma SuccessorResidue(n: nat, p: nat)
    requires n >= 2
    ensures (p + 1) % n != p % n
  {
    if (p + 1) % n == p % n {
      SameResidueGap(n, p, p + 1);
      assert false;
    }
  }

  /** Counting one on, modulo n. */
  lemma NextResidue(n: nat, p: nat)
    requires n > 0
    ensures (p + 1) % n == if p % n == n - 1 then 0 else p % n + 1
  {
    var a, r := p / n, p % n;
    assert p == n * a + r;
    if r == n - 1 {
      MulMonotone(n, a + 1, a + 1);
      DivMod(n, a + 1, 0);
    } else {
      DivMod(n, a, r + 1);
    }
  }

  lemma SmallResidue(n: nat, k: nat)
    requires k < n
    ensures k % n == k
  {
    DivMod(n, 0, k);
  }
}
