/** The 64-point number-theoretic transform over Z/193 and the fair queue built on it
    (kernel/boulder/src/cyclotomic_ntt.rs). */
module CyclotomicNtt {
  import opened Arithmetic
  import opened ModularSums

  type u32 = x: int | 0 <= x < 0x1_0000_0000 witness 0

  const OMEGA: u32 := 125
  const OMEGA_INV: u32 := 105
  const N_INV: u32 := 190

  // ---- modular helpers ---------------------------------------------------

  function MulMod(a: u32, b: u32): (r: u32)
    ensures Cong(r, a * b) && r < 193
  {
    Remainder(a, b);
    (a * b) % 193
  }

  lemma Remainder(a: nat, b: nat)
    ensures 0 <= (a * b) % 193 < 193 && Cong((a * b) % 193, a * b)
  {
    CongResidue(a * b);
  }

  function AddMod(a: u32, b: u32): (r: u32)
    requires a + b < 0x1_0000_0000
    ensures Cong(r, a + b)
    ensures b < 193 ==> r <= a || r < 193
  {
    var s := a + b;
    if s >= 193 then s - 193 else s
  }

  function SubMod(a: u32, b: u32): (r: u32)
    requires b <= a + 193 < 0x1_0000_0000 || b <= a
    ensures Cong(r, a - b)
    ensures b < 193 ==> r <= a || r < 193
  {
    if a >= b then a - b else a + 193 - b
  }

  method PowMod(base: u32, exp: u32) returns (r: u32)
    ensures r == Pow(base, exp) % 193
  {
    hide Cong;
    hide MulMod;
    r := 1;
    var b: u32 := base % 193;
    var e: u32 := exp;
    CongResidue(base);
    CongPow(b, base, exp);
    while e > 0
      invariant r < 193
      invariant Cong(r * Pow(b, e), Pow(base, exp))
    {
      SquareAndMultiply(r, b, e);
      ghost var before := r * Pow(b, e);
      if e % 2 == 1 {
        r := MulMod(r, b);
      }
      b := MulMod(b, b);
      e := e / 2;
      CongTrans(r * Pow(b, e), before, Pow(base, exp));
    }
    CongSameResidue(r * Pow(b, e), Pow(base, exp));
  }

  /** One step of the loop keeps r * b^e modulo 193. */
  lemma SquareAndMultiply(r: u32, b: u32, e: u32)
    ensures var r' := if e % 2 == 1 then MulMod(r, b) else r;
            Cong(r' * Pow(MulMod(b, b), e / 2), r * Pow(b, e))
  {
    HalvePower(b, e);
    var rest := Pow(b * b, e / 2);
    CongPow(MulMod(b, b), b * b, e / 2);
    if e % 2 == 1 {
      Associate(r, b, rest);
      CongMul(MulMod(r, b), r * b, Pow(MulMod(b, b), e / 2), rest);
    } else {
      CongMul(r, r, Pow(MulMod(b, b), e / 2), rest);
    }
  }

  lemma Associate(a: int, b: int, c: int)
    ensures a * (b * c) == (a * b) * c
  {
  }

  lemma HalvePower(b: int, e: nat)
    ensures Pow(b, e) == (if e % 2 == 1 then b else 1) * Pow(b * b, e / 2)
  {
    PowAdd(b, e / 2, e / 2);
    PowDistrib(b, b, e / 2);
    if e % 2 == 1 {
      assert Pow(b, e) == b * Pow(b, e - 1);
      assert e - 1 == e / 2 + e / 2;
    } else {
      assert e == e / 2 + e / 2;
    }
  }

  // ---- bit reversal ------------------------------------------------------

  ghost function Two(m: nat): (r: nat)
    ensures r >= 1
  {
    if m == 0 then 1 else 2 * Two(m - 1)
  }

  /** The m low bits of i, read backwards. */
  ghost function Rev(i: nat, m: nat): (r: nat)
    ensures r < Two(m)
  {
    if m == 0 then 0 else (i % 2) * Two(m - 1) + Rev(i / 2, m - 1)
  }

  lemma TwoValues()
    ensures Two(0) == 1 && Two(1) == 2 && Two(2) == 4 && Two(3) == 8
    ensures Two(4) == 16 && Two(5) == 32 && Two(6) == 64
  {
    assert Two(3) == 2 * Two(2);
    assert Two(4) == 2 * Two(3);
    assert Two(5) == 2 * Two(4);
    assert Two(6) == 2 * Two(5);
  }

  /** Rev read from its top bit. */
  lemma {:induction false} RevTop(c: nat, j: nat, m: nat)
    requires c < 2 && j < Two(m)
    ensures Rev(c * Two(m) + j, m + 1) == 2 * Rev(j, m) + c
  {
    if m == 0 {
      assert c * Two(m) + j == c && Rev(c, 1) == c % 2 * Two(0) + Rev(c / 2, 0);
    } else {
      var h := Two(m - 1);
      TopBit(c, j, h);
      RevTop(c, j / 2, m - 1);
      assert Two(m) == 2 * h && Rev(j, m) == (j % 2) * h + Rev(j / 2, m - 1);
      assert Rev(c * Two(m) + j, m + 1) == (j % 2) * Two(m) + Rev(c * h + j / 2, m);
    }
  }

  lemma TopBit(c: nat, j: nat, t: nat)
    requires c < 2 && j < 2 * t
    ensures (c * (2 * t) + j) % 2 == j % 2 && (c * (2 * t) + j) / 2 == c * t + j / 2
    ensures (j % 2) * (2 * t) == 2 * ((j % 2) * t)
  {
    if c == 0 {
      assert c * (2 * t) == 0 && c * t == 0;
    } else {
      assert c * (2 * t) == 2 * t && c * t == t;
    }
  }

  lemma {:induction false} RevInvolution(i: nat, m: nat)
    requires i < Two(m)
    ensures Rev(Rev(i, m), m) == i
  {
    if m > 0 {
      RevInvolution(i / 2, m - 1);
      RevTop(i % 2, Rev(i / 2, m - 1), m - 1);
    }
  }

  lemma Rev6Involution(i: nat)
    requires i < 64
    ensures Rev(i, 6) < 64 && Rev(Rev(i, 6), 6) == i
  {
    TwoValues();
    RevInvolution(i, 6);
  }

  method BitRev6(index: nat) returns (r: nat)
    ensures r == Rev(index, 6)
  {
    r := 0;
    var i: nat, b: nat := index, 0;
    while b < 6
      invariant 0 <= b <= 6
      invariant r * Two(6 - b) + Rev(i, 6 - b) == Rev(index, 6)
    {
      ShiftIn(r, i, 6 - b);
      r := 2 * r + i % 2;
      i := i / 2;
      b := b + 1;
    }
  }

  lemma ShiftIn(r: nat, i: nat, m: nat)
    requires m > 0
    ensures r * Two(m) + Rev(i, m) == (2 * r + i % 2) * Two(m - 1) + Rev(i / 2, m - 1)
  {
    var t := Two(m - 1);
    assert Two(m) == 2 * t;
    assert r * (2 * t) + (i % 2) * t == (2 * r + i % 2) * t;
  }

  method BitReverse(a: array<u32>)
    requires a.Length == 64
    modifies a
    ensures forall p :: 0 <= p < 64 ==> Rev(p, 6) < 64 && a[p] == old(a[Rev(p, 6)])
  {
    forall p | 0 <= p < 64 ensures Rev(p, 6) < 64 && Rev(Rev(p, 6), 6) == p { Rev6Involution(p); }
    var i := 0;
    while i < 64
      invariant 0 <= i <= 64
      invariant forall p :: 0 <= p < 64 ==> a[p] == if p < i || Rev(p, 6) < i then old(a[Rev(p, 6)]) else old(a[p])
    {
      var j := BitRev6(i);
      if i < j {
        a[i], a[j] := a[j], a[i];
      }
      i := i + 1;
    }
  }

  // ---- the transform and one decimation step -----------------------------

  ghost function At(x: seq<u32>, i: int): int {
    if 0 <= i < |x| then x[i] else 0
  }

  ghost function Term(x: seq<u32>, base: int, off: int, stride: int, k: int, t: int): int {
    At(x, off + t * stride) * PowI(base, stride * t * k)
  }

  /** sum over t < h of x[off + t*stride] * base^(stride*t*k): the transform of a decimated subsequence. */
  ghost function Part(x: seq<u32>, base: int, off: int, stride: int, k: int, h: nat): int {
    Sum(t => Term(x, base, off, stride, k, t), h)
  }

  /** Reference definition: the 64-point transform with root `base`, at frequency k. */
  ghost function Dft(x: seq<u32>, base: int, k: int): int {
    Sum(j => At(x, j) * PowI(base, j * k), 64) % 193
  }

  lemma EvenTerm(x: seq<u32>, base: int, off: int, s: nat, k: nat, t: nat)
    ensures Term(x, base, off, s, k, 2 * t) == Term(x, base, off, 2 * s, k, t)
  {
    assert s * (2 * t) == 2 * s * t;
  }

  lemma OddTerm(x: seq<u32>, base: int, off: int, s: nat, k: nat, t: nat)
    ensures Term(x, base, off, s, k, 2 * t + 1) == PowI(base, s * k) * Term(x, base, off + s, 2 * s, k, t)
  {
    var a, b := 2 * s * t * k, s * k;
    assert s * (2 * t + 1) * k == a + b by {
      assert s * (2 * t + 1) == 2 * s * t + s;
      assert (2 * s * t + s) * k == 2 * s * t * k + s * k;
    }
    assert (2 * t + 1) * s == s + t * (2 * s);
    assert 0 <= a by { assert 0 <= 2 * s * t; }
    assert 0 <= b;
    PowAdd(base, a, b);
    MoveFactor(At(x, off + s + t * (2 * s)), Pow(base, a), Pow(base, b));
  }

  lemma MoveFactor(x: int, a: int, b: int)
    ensures x * (a * b) == b * (x * a)
  {
  }

  lemma CombineLow(x: seq<u32>, base: int, off: int, s: nat, k: nat, h: nat)
    ensures Part(x, base, off, s, k, 2 * h) ==
            Part(x, base, off, 2 * s, k, h) + PowI(base, s * k) * Part(x, base, off + s, 2 * s, k, h)
  {
    hide Term;
    hide PowI;
    var f := t => Term(x, base, off, s, k, t);
    var even := t => Term(x, base, off, 2 * s, k, t);
    var odd := t => Term(x, base, off + s, 2 * s, k, t);
    var w := PowI(base, s * k);
    SumEvenOdd(f, h);
    forall t | 0 <= t < h ensures f(2 * t) == even(t) { EvenTerm(x, base, off, s, k, t); }
    SumEqual(t => f(2 * t), even, h);
    forall t | 0 <= t < h ensures f(2 * t + 1) == w * odd(t) { OddTerm(x, base, off, s, k, t); }
    SumEqual(t => f(2 * t + 1), t => w * odd(t), h);
    SumScale(w, odd, h);
  }

  lemma TermPeriod(x: seq<u32>, base: int, off: int, stride: nat, k: nat, h: nat, t: nat)
    requires stride * h == 64 && Cong(Pow(base, 64), 1)
    ensures Cong(Term(x, base, off, stride, k + h, t), Term(x, base, off, stride, k, t))
  {
    hide Cong;
    hide Pow;
    var a, b := stride * t * (k + h), stride * t * k;
    ShiftExponent(stride, t, k, h);
    PowPeriod(base, a);
    PowPeriod(base, b);
    CongSym(Pow(base, b), Pow(base, b % 64));
    CongTrans(Pow(base, a), Pow(base, a % 64), Pow(base, b));
    var v := At(x, off + t * stride);
    CongRefl(v);
    CongMul(v, v, Pow(base, a), Pow(base, b));
  }

  lemma CongRefl(v: int)
    ensures Cong(v, v)
  {
  }

  lemma ShiftExponent(stride: nat, t: nat, k: nat, h: nat)
    requires stride * h == 64
    ensures stride * t * (k + h) == stride * t * k + 64 * t
    ensures 0 <= stride * t * k
    ensures (stride * t * (k + h)) % 64 == (stride * t * k) % 64
  {
    var u := stride * t;
    assert u * (k + h) == u * k + u * h;
    assert u * h == 64 * t by { assert u * h == (stride * h) * t; }
    assert 0 <= u * k;
    AddMultiple(u * k, t);
  }

  lemma AddMultiple(v: int, t: int)
    ensures (v + 64 * t) % 64 == v % 64
  {
  }

  lemma PartPeriod(x: seq<u32>, base: int, off: int, stride: nat, k: nat, h: nat)
    requires stride * h == 64 && Cong(Pow(base, 64), 1)
    ensures Cong(Part(x, base, off, stride, k + h, h), Part(x, base, off, stride, k, h))
  {
    hide Cong;
    hide Term;
    hide Pow;
    var f := t => Term(x, base, off, stride, k + h, t);
    var g := t => Term(x, base, off, stride, k, t);
    forall t | 0 <= t < h ensures Cong(f(t), g(t)) { TermPeriod(x, base, off, stride, k, h, t); }
    SumCong(f, g, h);
  }

  lemma NegateProduct(w: int, o: int, o': int, w': int)
    requires Cong(w', -w) && Cong(o', o)
    ensures Cong(w' * o', -(w * o))
  {
    hide Cong;
    CongMul(w', -w, o', o);
    assert (-w) * o == -(w * o);
  }

  lemma HalfTurn(base: int, s: nat, k: nat, h: nat)
    requires s * h == 32 && Cong(Pow(base, 32), -1)
    ensures Cong(PowI(base, s * (k + h)), -PowI(base, s * k))
  {
    hide Cong;
    hide Pow;
    assert s * (k + h) == s * k + 32 && 0 <= s * k;
    PowAdd(base, s * k, 32);
    CongRefl(Pow(base, s * k));
    CongMul(Pow(base, s * k), Pow(base, s * k), Pow(base, 32), -1);
    assert Pow(base, s * k) * -1 == -Pow(base, s * k);
  }

  lemma CombineHigh(x: seq<u32>, base: int, off: int, s: nat, k: nat, h: nat)
    requires s * h == 32 && Cong(Pow(base, 32), -1) && Cong(Pow(base, 64), 1)
    ensures Cong(Part(x, base, off, s, k + h, 2 * h),
                 Part(x, base, off, 2 * s, k, h) - PowI(base, s * k) * Part(x, base, off + s, 2 * s, k, h))
  {
    hide Cong;
    hide Part;
    hide Pow;
    hide PowI;
    assert (2 * s) * h == 64;
    CombineLow(x, base, off, s, k + h, h);
    PartPeriod(x, base, off, 2 * s, k, h);
    PartPeriod(x, base, off + s, 2 * s, k, h);
    HalfTurn(base, s, k, h);
    var w, o := PowI(base, s * k), Part(x, base, off + s, 2 * s, k, h);
    var w', o' := PowI(base, s * (k + h)), Part(x, base, off + s, 2 * s, k + h, h);
    NegateProduct(w, o, o', w');
    CongSum(Part(x, base, off, 2 * s, k + h, h), Part(x, base, off, 2 * s, k, h), w' * o', -(w * o));
  }

  // ---- one in-place stage ------------------------------------------------

  predicate Half(h: nat) {
    h == 1 || h == 2 || h == 4 || h == 8 || h == 16 || h == 32
  }

  /** What the butterfly of half-width h leaves at position p. */
  ghost predicate Butterfly(s: seq<u32>, h: nat, root: int, p: nat, value: u32)
    requires Half(h) && |s| == 64 && p < 64
  {
    var k := p % (2 * h);
    if k < h then Cong(value, s[p] + Pow(root, k) * At(s, p + h))
    else Cong(value, At(s, p - h) - Pow(root, k - h) * s[p])
  }

  ghost predicate NoOverflow(s: seq<u32>) {
    forall p :: 0 <= p < |s| ==> s[p] <= 0xFFFF_FFFF - 193
  }

  ghost predicate Reduced(s: seq<u32>) {
    forall p :: 0 <= p < |s| ==> s[p] < 193
  }

  /** The inner loop: the butterflies of one block [i, i + 2h). */
  method Block(a: array<u32>, i: nat, half: nat, root: u32)
    requires a.Length == 64 && Half(half) && i % (2 * half) == 0 && i + 2 * half <= 64
    requires NoOverflow(a[..])
    modifies a
    ensures forall p :: 0 <= p < i || i + 2 * half <= p < 64 ==> a[p] == old(a[p])
    ensures forall p :: i <= p < i + 2 * half ==> Butterfly(old(a[..]), half, root, p, a[p])
    ensures NoOverflow(a[..]) && (old(Reduced(a[..])) ==> Reduced(a[..]))
  {
    hide Cong;
    hide Butterfly;
    hide Pow;
    hide MulMod;
    ghost var s := a[..];
    PowZero(root);
    var w: u32 := 1;
    var j := 0;
    while j < half
      invariant 0 <= j <= half && w < 193 && Cong(w, Pow(root, j))
      invariant forall p :: 0 <= p < 64 && !(i <= p < i + j) && !(i + half <= p < i + half + j) ==> a[p] == s[p]
      invariant forall p :: i <= p < i + j ==> Butterfly(s, half, root, p, a[p])
      invariant forall p :: i + half <= p < i + half + j ==> Butterfly(s, half, root, p, a[p])
      invariant NoOverflow(a[..]) && (Reduced(s) ==> Reduced(a[..]))
    {
      var u, x := a[i + j], a[i + j + half];
      ButterflyPair(s, i, half, root, j, w);
      var v := MulMod(x, w);
      a[i + j] := AddMod(u, v);
      a[i + j + half] := SubMod(u, v);
      NextTwiddle(root, j, w);
      w := MulMod(w, root);
      j := j + 1;
    }
  }

  lemma PowZero(root: int)
    ensures Cong(1, Pow(root, 0))
  {
  }

  lemma NextTwiddle(root: u32, j: nat, w: u32)
    requires Cong(w, Pow(root, j))
    ensures Cong(MulMod(w, root), Pow(root, j + 1))
  {
    hide Cong;
    CongRefl(root);
    CongMul(w, Pow(root, j), root, root);
    assert Pow(root, j) * root == Pow(root, j + 1);
    CongTrans(MulMod(w, root), w * root, Pow(root, j + 1));
  }

  lemma PositionInBlock(i: nat, j: nat, half: nat)
    requires Half(half) && i % (2 * half) == 0 && j < half
    ensures (i + j) % (2 * half) == j && (i + j + half) % (2 * half) == j + half
  {
    HalfPositive(half);
    hide Half;
    var c := i / (2 * half);
    assert i == 2 * half * c;
    DivMod(2 * half, c, j);
    DivMod(2 * half, c, j + half);
  }

  /** The two assignments of the inner loop are the butterfly at i + j and i + j + half. */
  lemma ButterflyPair(s: seq<u32>, i: nat, half: nat, root: u32, j: nat, w: u32)
    requires Half(half) && |s| == 64 && i % (2 * half) == 0 && i + 2 * half <= 64 && j < half
    requires w < 193 && Cong(w, Pow(root, j)) && NoOverflow(s)
    ensures var u, v := s[i + j], MulMod(s[i + j + half], w);
            && Butterfly(s, half, root, i + j, AddMod(u, v))
            && Butterfly(s, half, root, i + j + half, SubMod(u, v))
  {
    hide Cong;
    hide Pow;
    hide MulMod;
    PositionInBlock(i, j, half);
    var x, u := s[i + j + half], s[i + j];
    var v := MulMod(x, w);
    CongRefl(x);
    CongMul(x, x, w, Pow(root, j));
    CongTrans(v, x * w, x * Pow(root, j));
    assert x * Pow(root, j) == Pow(root, j) * x;
    CongRefl(u);
    CongSum(u, u, v, Pow(root, j) * x);
    CongTrans(AddMod(u, v), u + v, u + Pow(root, j) * x);
    CongTrans(SubMod(u, v), u - v, u - Pow(root, j) * x);
  }

  lemma NextBlock(i: nat, len: nat)
    requires len % 2 == 0 && Half(len / 2) && i % len == 0 && i < 64
    ensures i + len <= 64 && (i + len) % len == 0 && 2 * (len / 2) == len
  {
    AddDivisor(len, i);
    assert len == 2 || len == 4 || len == 8 || len == 16 || len == 32 || len == 64;
  }

  /** The middle loop: every block of one stage. */
  method Stage(a: array<u32>, len: nat, root: u32)
    requires a.Length == 64 && len % 2 == 0 && Half(len / 2)
    requires NoOverflow(a[..])
    modifies a
    ensures forall p :: 0 <= p < 64 ==> Butterfly(old(a[..]), len / 2, root, p, a[p])
    ensures NoOverflow(a[..]) && (old(Reduced(a[..])) ==> Reduced(a[..]))
  {
    hide Butterfly;
    ghost var s := a[..];
    var i := 0;
    while i < 64
      invariant 0 <= i <= 64 && i % len == 0
      invariant forall p :: 0 <= p < i ==> Butterfly(s, len / 2, root, p, a[p])
      invariant forall p :: i <= p < 64 ==> a[p] == s[p]
      invariant NoOverflow(a[..]) && (Reduced(s) ==> Reduced(a[..]))
    {
      ghost var before := a[..];
      NextBlock(i, len);
      Block(a, i, len / 2, root);
      forall p | i <= p < i + len ensures Butterfly(s, len / 2, root, p, a[p]) {
        ButterflyLocal(before, s, i, len / 2, root, p, a[p]);
      }
      i := i + len;
    }
  }

  lemma OffsetInBlock(i: nat, half: nat, p: nat)
    requires Half(half) && i % (2 * half) == 0 && i <= p < i + 2 * half
    ensures p % (2 * half) == p - i
  {
    HalfPositive(half);
    hide Half;
    var c := i / (2 * half);
    assert i == 2 * half * c;
    DivMod(2 * half, c, p - i);
  }

  lemma ButterflyLocal(s: seq<u32>, s': seq<u32>, i: nat, half: nat, root: int, p: nat, value: u32)
    requires Half(half) && |s| == |s'| == 64 && i % (2 * half) == 0 && i <= p < i + 2 * half <= 64
    requires forall q :: i <= q < 64 ==> s[q] == s'[q]
    requires Butterfly(s, half, root, p, value)
    ensures Butterfly(s', half, root, p, value)
  {
    hide Cong;
    hide Pow;
    OffsetInBlock(i, half, p);
  }

  // ---- all stages --------------------------------------------------------

  lemma DivNat(p: nat, h: nat)
    requires h >= 1
    ensures p / h >= 0
  {
  }

  /** After the stages of total width Two(m), position p holds frequency p mod Two(m) of the
      subsequence of x with stride Two(6-m) selected by the reversed block number. */
  ghost predicate StageDone(a: seq<u32>, x: seq<u32>, base: int, m: nat)
    requires |a| == 64 && m <= 6
  {
    forall p :: 0 <= p < 64 ==> PositionDone(a[p], x, base, m, p)
  }

  ghost predicate PositionDone(v: u32, x: seq<u32>, base: int, m: nat, p: nat)
    requires m <= 6
  {
    DivNat(p, Two(m));
    Cong(v, Part(x, base, Rev(p / Two(m), 6 - m), Two(6 - m), p % Two(m), Two(m)))
  }

  lemma StageStart(a: seq<u32>, x: seq<u32>, base: int)
    requires |a| == |x| == 64
    requires forall p :: 0 <= p < 64 ==> Rev(p, 6) < 64 && a[p] == x[Rev(p, 6)]
    ensures StageDone(a, x, base, 0)
  {
    TwoValues();
    forall p | 0 <= p < 64 ensures PositionDone(a[p], x, base, 0, p) {
      var f := t => At(x, Rev(p, 6) + t * 64) * PowI(base, 64 * t * 0);
      assert Sum(f, 1) == f(0) == x[Rev(p, 6)];
      assert p / Two(0) == p && p % Two(0) == 0;
      assert Part(x, base, Rev(p, 6), 64, 0, 1) == Sum(f, 1);
    }
  }

  /** Positions p and p + h of block c, as positions of blocks 2c and 2c+1 of half the width. */
  lemma SplitBlock(m: nat, c: nat, k: nat)
    requires m < 6 && k < Two(m)
    ensures var h, p := Two(m), Two(m + 1) * c + k;
            && p / (2 * h) == c && p % (2 * h) == k && p / h == 2 * c && p % h == k
            && (p + h) / (2 * h) == c && (p + h) % (2 * h) == k + h && (p + h) / h == 2 * c + 1 && (p + h) % h == k
    ensures Rev(2 * c, 6 - m) == Rev(c, 5 - m) && Rev(2 * c + 1, 6 - m) == Rev(c, 5 - m) + Two(5 - m)
  {
    var h := Two(m);
    assert Two(m + 1) == 2 * h;
    DivMod(2 * h, c, k);
    DivMod(2 * h, c, k + h);
    assert 2 * h * c == h * (2 * c);
    DivMod(h, 2 * c, k);
    assert h * (2 * c) + h == h * (2 * c + 1);
    DivMod(h, 2 * c + 1, k);
    assert (2 * c) / 2 == c && (2 * c) % 2 == 0 && (2 * c + 1) / 2 == c && (2 * c + 1) % 2 == 1;
  }

  lemma TwoProduct(m: nat)
    requires m <= 5
    ensures Two(5 - m) * Two(m) == 32 && 2 * Two(5 - m) == Two(6 - m)
    ensures Half(Two(m)) && Two(m + 1) == 2 * Two(m)
  {
    TwoValues();
    assert m == 0 || m == 1 || m == 2 || m == 3 || m == 4 || m == 5;
  }

  lemma StagePair(a: seq<u32>, a': seq<u32>, x: seq<u32>, base: int, root: int, m: nat, c: nat, k: nat)
    requires |a| == |a'| == 64 && m < 6 && k < Two(m)
    requires Two(m + 1) * c + k + Two(m) < 64
    requires Half(Two(m)) && StageDone(a, x, base, m)
    requires Cong(Pow(base, 32), -1) && Cong(Pow(base, 64), 1) && Cong(root, Pow(base, Two(5 - m)))
    requires var p := Two(m + 1) * c + k;
             Butterfly(a, Two(m), root, p, a'[p]) && Butterfly(a, Two(m), root, p + Two(m), a'[p + Two(m)])
    ensures var p := Two(m + 1) * c + k;
            PositionDone(a'[p], x, base, m + 1, p) && PositionDone(a'[p + Two(m)], x, base, m + 1, p + Two(m))
  {
    hide Cong;
    hide Pow;
    hide Part;
    hide Two;
    hide Rev;
    TwoProduct(m);
    SplitBlock(m, c, k);
    var h, s, p := Two(m), Two(5 - m), Two(m + 1) * c + k;
    var off := Rev(c, 5 - m);
    var e, o := Part(x, base, off, 2 * s, k, h), Part(x, base, off + s, 2 * s, k, h);
    assert PositionDone(a[p], x, base, m, p) && PositionDone(a[p + h], x, base, m, p + h);
    assert Cong(a[p], e) && Cong(a[p + h], o);
    Twiddle(base, root, s, k);
    var w := PowI(base, s * k);
    CongMul(Pow(root, k), w, a[p + h], o);
    CongSum(a[p], e, Pow(root, k) * a[p + h], w * o);
    CombineLow(x, base, off, s, k, h);
    CombineHigh(x, base, off, s, k, h);
    assert At(a, p + h) == a[p + h] && At(a, p + h - h) == a[p];
    CongTrans(a'[p], a[p] + Pow(root, k) * a[p + h], e + w * o);
    CongTrans(a'[p + h], a[p] - Pow(root, k) * a[p + h], e - w * o);
    CongSym(Part(x, base, off, s, k + h, 2 * h), e - w * o);
    CongTrans(a'[p + h], e - w * o, Part(x, base, off, s, k + h, 2 * h));
  }

  lemma Twiddle(base: int, root: int, s: nat, k: nat)
    requires Cong(root, Pow(base, s))
    ensures Cong(Pow(root, k), PowI(base, s * k))
  {
    hide Cong;
    CongPow(root, Pow(base, s), k);
    PowMul(base, s, k);
  }

  lemma StageStep(a: seq<u32>, a': seq<u32>, x: seq<u32>, base: int, root: int, m: nat)
    requires |a| == |a'| == 64 && m < 6 && Half(Two(m)) && StageDone(a, x, base, m)
    requires Cong(Pow(base, 32), -1) && Cong(Pow(base, 64), 1) && Cong(root, Pow(base, Two(5 - m)))
    requires forall p :: 0 <= p < 64 ==> Butterfly(a, Two(m), root, p, a'[p])
    ensures StageDone(a', x, base, m + 1)
  {
    hide Cong;
    hide Pow;
    hide Butterfly;
    hide PositionDone;
    hide Two;
    TwoProduct(m);
    var h := Two(m);
    forall p | 0 <= p < 64 ensures PositionDone(a'[p], x, base, m + 1, p) {
      var c, k := PairOf(h, p);
      assert Two(m + 1) * c + k + Two(m) < 64;
      StagePair(a, a', x, base, root, m, c, k);
    }
  }

  lemma PairOf(h: nat, p: nat) returns (c: nat, k: nat)
    requires Half(h) && p < 64
    ensures k < h && 2 * h * c + k + h < 64 && (p == 2 * h * c + k || p == 2 * h * c + k + h)
  {
    c := p / (2 * h);
    var r := p % (2 * h);
    k := if r < h then r else r - h;
  }

  lemma RootFacts()
    ensures Cong(Pow(125, 32), -1) && Cong(Pow(105, 32), -1)
    ensures Cong(Pow(125, 64), 1) && Cong(Pow(105, 64), 1)
  {
    hide Pow;
    PowFirst(125);
    PowFirst(105);
    SquareStep(125, 1, 125, -8);
    SquareStep(125, 2, -8, 64);
    SquareStep(125, 4, 64, 43);
    SquareStep(125, 8, 43, 112);
    SquareStep(125, 16, 112, -1);
    SquareStep(125, 32, -1, 1);
    SquareStep(105, 1, 105, 24);
    SquareStep(105, 2, 24, -3);
    SquareStep(105, 4, -3, 9);
    SquareStep(105, 8, 9, 81);
    SquareStep(105, 16, 81, -1);
    SquareStep(105, 32, -1, 1);
  }

  lemma FinalStage(a: seq<u32>, x: seq<u32>, base: int)
    requires |a| == 64 && StageDone(a, x, base, 6)
    ensures forall k :: 0 <= k < 64 ==> a[k] % 193 == Dft(x, base, k)
  {
    hide Cong;
    hide Part;
    hide Dft;
    TwoValues();
    forall k | 0 <= k < 64 ensures a[k] % 193 == Dft(x, base, k) {
      assert PositionDone(a[k], x, base, 6, k);
      PartIsDft(x, base, k);
      CongSameResidue(a[k], Part(x, base, 0, 1, k, 64));
    }
  }

  lemma PartIsDft(x: seq<u32>, base: int, k: int)
    ensures Part(x, base, 0, 1, k, 64) % 193 == Dft(x, base, k)
  {
    hide PowI;
    SumEqual(t => Term(x, base, 0, 1, k, t), j => At(x, j) * PowI(base, j * k), 64);
  }

  /** In-place radix-2 transform. */
  method Ntt(a: array<u32>, invert: bool)
    requires a.Length == 64 && NoOverflow(a[..])
    modifies a
    ensures !invert ==> forall k :: 0 <= k < 64 ==> a[k] % 193 == Dft(old(a[..]), OMEGA, k)
    ensures !invert ==> NoOverflow(a[..])
    ensures !invert && old(Reduced(a[..])) ==> Reduced(a[..])
    ensures invert ==> forall k :: 0 <= k < 64 ==> a[k] == (N_INV * Dft(old(a[..]), OMEGA_INV, k)) % 193
  {
    hide Cong;
    hide Pow;
    hide Butterfly;
    hide Dft;
    hide StageDone;
    hide MulMod;
    ghost var x := a[..];
    BitReverse(a);
    assert forall p :: 0 <= p < 64 ==> a[..][p] == x[Rev(p, 6)];
    assert NoOverflow(a[..]) && (Reduced(x) ==> Reduced(a[..]));
    var base := if invert then OMEGA_INV else OMEGA;
    RootFacts();
    TwoValues();
    StageStart(a[..], x, base);
    ghost var m := 0;
    var len := 2;
    while len <= 64
      invariant 0 <= m <= 6 && len == 2 * Two(m)
      invariant StageDone(a[..], x, base, m)
      invariant NoOverflow(a[..]) && (Reduced(x) ==> Reduced(a[..]))
      decreases 64 - len
    {
      TwoProduct(m);
      StrideOf(m);
      var root := PowMod(base, 64 / len);
      CongResidue(Pow(base, 64 / len));
      ghost var before := a[..];
      Stage(a, len, root);
      assert forall p :: 0 <= p < 64 ==> Butterfly(before, Two(m), root, p, a[..][p]);
      StageStep(before, a[..], x, base, root, m);
      m := m + 1;
      len := 2 * len;
    }
    OnlySix(m);
    FinalStage(a[..], x, base);
    if invert {
      Scale(a, x);
    }
  }

  lemma OnlySix(m: nat)
    requires m <= 6 && 2 * Two(m) > 64
    ensures m == 6
  {
    TwoValues();
  }

  /** The closing loop of the inverse transform. */
  method Scale(a: array<u32>, ghost x: seq<u32>)
    requires a.Length == 64 && forall k :: 0 <= k < 64 ==> a[k] % 193 == Dft(x, OMEGA_INV, k)
    modifies a
    ensures forall k :: 0 <= k < 64 ==> a[k] == (N_INV * Dft(x, OMEGA_INV, k)) % 193
  {
    hide Dft;
    hide MulMod;
    hide Cong;
    ghost var y := a[..];
    var i := 0;
    while i < 64
      invariant 0 <= i <= 64
      invariant forall k :: 0 <= k < i ==> a[k] == (N_INV * Dft(x, OMEGA_INV, k)) % 193
      invariant forall k :: i <= k < 64 ==> a[k] == y[k]
    {
      ScaledValue(a[i], Dft(x, OMEGA_INV, i));
      a[i] := MulMod(a[i], N_INV);
      i := i + 1;
    }
  }

  lemma ScaledValue(v: u32, d: int)
    requires v % 193 == d
    ensures MulMod(v, N_INV) == (N_INV * d) % 193
  {
    hide Cong;
    CongResidue(v);
    CongSym(d, v);
    CongRefl(190);
    CongMul(190, 190, v, d);
    assert v * 190 == 190 * v;
    CongTrans(MulMod(v, N_INV), 190 * v, 190 * d);
    CongSameResidue(MulMod(v, N_INV), 190 * d);
  }

  lemma StrideOf(m: nat)
    requires m <= 5
    ensures 64 / (2 * Two(m)) == Two(5 - m)
  {
    TwoValues();
    assert m == 0 || m == 1 || m == 2 || m == 3 || m == 4 || m == 5;
  }

  // ---- inversion and convolution -----------------------------------------

  /** Every d below 2h has a multiple that is an odd multiple of h. */
  lemma {:induction false} OddMultiple(d: nat, h: nat) returns (f: nat, q: nat)
    requires Half(h) && 0 < d < 2 * h
    ensures f >= 1 && d * f == 2 * h * q + h
    decreases h
  {
    hide Half;
    if d % 2 == 1 {
      f, q := h, d / 2;
      OddCase(d / 2, h);
      HalfPositive(h);
    } else {
      HalfOf(h, d);
      f, q := OddMultiple(d / 2, h / 2);
      EvenCase(d / 2, h / 2, f, q);
    }
  }

  lemma HalfPositive(h: nat)
    requires Half(h)
    ensures h >= 1
  {
  }

  lemma HalfOf(h: nat, d: nat)
    requires Half(h) && 0 < d < 2 * h && d % 2 == 0
    ensures Half(h / 2) && 2 * (h / 2) == h && 0 < d / 2 < 2 * (h / 2)
  {
  }

  lemma OddCase(e: nat, h: nat)
    ensures (2 * e + 1) * h == 2 * h * e + h
  {
  }

  lemma EvenCase(e: nat, g: nat, f: nat, q: nat)
    requires e * f == 2 * g * q + g
    ensures (2 * e) * f == 2 * (2 * g) * q + 2 * g
  {
    assert (2 * e) * f == 2 * (e * f);
    assert 2 * (2 * g * q) == 2 * (2 * g) * q;
  }

  /** 125 has multiplicative order exactly 64. */
  lemma OrderExact(d: nat)
    requires 0 < d < 64
    ensures !Cong(Pow(125, d), 1)
  {
    hide Pow;
    RootFacts();
    var f, q := OddMultiple(d, 32);
    AddMultiple(32, q);
    PowMul(125, d, f);
    PowPeriod(125, d * f);
    PowOne(f);
    if Cong(Pow(125, d), 1) {
      CongPow(Pow(125, d), 1, f);
      assert false;
    }
  }

  lemma InversePowers(e: nat)
    ensures Cong(Pow(125, e) * Pow(105, e), 1)
  {
    hide Pow;
    PowDistrib(125, 105, e);
    CongPow(125 * 105, 1, e);
    PowOne(e);
  }

  /** Distinct residues modulo 64 give distinct powers of 125: the ratio is not 1. */
  lemma RatioNotOne(m: nat, t: nat)
    requires t < 64 && m % 64 != t
    ensures !Cong(Pow(125, m) * Pow(105, t), 1)
  {
    hide Pow;
    var d := (m + 64 - t) % 64;
    OrderExact(d);
    RatioIsPower(m, t);
    if Cong(Pow(125, m) * Pow(105, t), 1) {
      CongSym(Pow(125, m) * Pow(105, t), Pow(125, d));
      CongTrans(Pow(125, d), Pow(125, m) * Pow(105, t), 1);
      assert false;
    }
  }

  lemma RatioIsPower(m: nat, t: nat)
    requires t < 64
    ensures Cong(Pow(125, m) * Pow(105, t), Pow(125, (m + 64 - t) % 64))
  {
    hide Pow;
    hide Cong;
    RootFacts();
    var e := m + 64 - t;
    PowAdd(125, e, t);
    PowAdd(125, m, 64);
    var p, q, r := Pow(125, m), Pow(105, t), Pow(125, e);
    InversePowers(t);
    // r = r * (125^t * 105^t) = 125^(m+64) * 105^t = 125^m * 105^t
    CongRefl(r);
    CongMul(r, r, Pow(125, t) * q, 1);
    Associate(r, Pow(125, t), q);
    assert r * (Pow(125, t) * q) == Pow(125, m + 64) * q;
    CongRefl(p);
    CongRefl(q);
    CongMul(p, p, Pow(125, 64), 1);
    CongMul(p * Pow(125, 64), p, q, q);
    CongSym(Pow(125, m + 64) * q, p * q);
    CongTrans(p * q, Pow(125, m + 64) * q, r);
    PowPeriod(125, e);
    CongTrans(p * q, r, Pow(125, e % 64));
  }

  ghost function Kernel(m: int, t: int, k: int): int {
    PowI(125, m * k) * PowI(105, k * t)
  }

  lemma KernelIsPower(m: nat, t: nat, k: nat)
    ensures Kernel(m, t, k) == PowI(Pow(125, m) * Pow(105, t), k)
  {
    hide Pow;
    PowMul(125, m, k);
    PowMul(105, t, k);
    assert t * k == k * t && 0 <= m * k;
    PowDistrib(Pow(125, m), Pow(105, t), k);
  }

  /** Orthogonality of the 64th roots of unity. */
  lemma Orthogonality(m: nat, t: nat)
    requires t < 64
    ensures Cong(Sum(k => Kernel(m, t, k), 64), if m % 64 == t then 64 else 0)
  {
    hide Pow;
    hide Kernel;
    hide Cong;
    var r := Pow(125, m) * Pow(105, t);
    forall k | 0 <= k < 64 ensures Kernel(m, t, k) == PowI(r, k) { KernelIsPower(m, t, k); }
    SumEqual(k => Kernel(m, t, k), k => PowI(r, k), 64);
    if m % 64 == t {
      RatioIsPower(m, t);
      assert (m + 64 - t) % 64 == 0;
      PowZero(125);
      CongSym(1, Pow(125, 0));
      CongTrans(r, Pow(125, 0), 1);
      AllOnes(r);
    } else {
      RatioNotOne(m, t);
      RatioRoot(m, t);
      VanishingSum(r);
    }
  }

  lemma RatioRoot(m: nat, t: nat)
    ensures Cong(Pow(Pow(125, m) * Pow(105, t), 64), 1)
  {
    hide Pow;
    hide Cong;
    RootFacts();
    var p, q := Pow(125, m), Pow(105, t);
    PowDistrib(p, q, 64);
    PowMul(125, m, 64);
    PowMul(125, 64, m);
    PowMul(105, t, 64);
    PowMul(105, 64, t);
    assert m * 64 == 64 * m && t * 64 == 64 * t;
    CongPow(Pow(125, 64), 1, m);
    CongPow(Pow(105, 64), 1, t);
    PowOne(m);
    PowOne(t);
    CongMul(Pow(p, 64), 1, Pow(q, 64), 1);
  }

  lemma AllOnes(r: int)
    requires Cong(r, 1)
    ensures Cong(Sum(k => PowI(r, k), 64), 64)
  {
    hide Cong;
    hide Pow;
    forall k | 0 <= k < 64 ensures Cong(PowI(r, k), 1) {
      CongPow(r, 1, k);
      PowOne(k);
    }
    SumCong(k => PowI(r, k), k => 1, 64);
    CountOnes(64);
  }

  lemma {:induction false} CountOnes(n: nat)
    ensures Sum(k => 1, n) == n
  {
    if n > 0 { CountOnes(n - 1); }
  }

  lemma VanishingSum(r: int)
    requires !Cong(r, 1) && Cong(Pow(r, 64), 1)
    ensures Cong(Sum(k => PowI(r, k), 64), 0)
  {
    hide Pow;
    hide PowI;
    hide Sum;
    hide Cong;
    Geometric(r, 64);
    var s := Sum(k => PowI(r, k), 64);
    var d := (r - 1) % 193;
    CongResidue(r - 1);
    NotOneResidue(r);
    CongRefl(s);
    CongMul(d, r - 1, s, s);
    CongMinusOne(Pow(r, 64));
    CongTrans(d * s, (r - 1) * s, 0);
    NoZeroDivisors(d, s);
  }

  lemma CongMinusOne(v: int)
    requires Cong(v, 1)
    ensures Cong(v - 1, 0)
  {
  }

  lemma NotOneResidue(r: int)
    requires !Cong(r, 1)
    ensures 0 < (r - 1) % 193 < 193
  {
  }

  /** The transform of b delayed by i places. */
  ghost function Shifted(b: seq<u32>, i: int, k: int): int {
    Sum(j => At(b, j) * PowI(125, (i + j) * k), 64)
  }

  /** Inverting the transform of a delayed sequence reads it off cyclically. */
  lemma InvertShifted(b: seq<u32>, i: nat, t: nat)
    requires i < 64 && t < 64
    ensures Cong(Sum(k => Shifted(b, i, k) * PowI(105, k * t), 64), 64 * At(b, (t - i) % 64))
  {
    hide Cong;
    hide PowI;
    hide Sum;
    hide Kernel;
    hide Shifted;
    hide At;
    var f := (k, j) => At(b, j) * Kernel(i + j, t, k);
    forall k | 0 <= k < 64 ensures Shifted(b, i, k) * PowI(105, k * t) == Sum(j => f(k, j), 64) {
      PullOut(b, i, t, k);
      SumEqual(j => At(b, j) * Kernel(i + j, t, k), j => f(k, j), 64);
    }
    var n: nat := 64;
    SumEqual(k => Shifted(b, i, k) * PowI(105, k * t), k => Sum(j => f(k, j), n), n);
    SumSwap(f, n, n);
    var g := j => Sum(k => f(k, j), n);
    forall j | 0 <= j < 64 ensures Cong(g(j), At(b, j) * (if (i + j) % 64 == t then 64 else 0)) {
      OneColumn(b, i, t, j);
      SumEqual(k => f(k, j), k => At(b, j) * Kernel(i + j, t, k), 64);
    }
    var at := (t - i) % 64;
    forall j | 0 <= j < 64 && j != at ensures Cong(g(j), 0) {
      ReadAt(i, t, j);
      assert At(b, j) * 0 == 0;
    }
    SumSingle(g, 64, at);
    ReadAt(i, t, at);
    CongTrans(Sum(g, 64), g(at), At(b, at) * 64);
    assert Sum(k => Shifted(b, i, k) * PowI(105, k * t), 64) == Sum(g, 64);
  }

  lemma ReadAt(i: nat, t: nat, j: nat)
    requires i < 64 && t < 64 && j < 64
    ensures (i + j) % 64 == t <==> j == (t - i) % 64
  {
  }

  lemma OneColumn(b: seq<u32>, i: nat, t: nat, j: nat)
    requires i < 64 && t < 64
    ensures Cong(Sum(k => At(b, j) * Kernel(i + j, t, k), 64), At(b, j) * (if (i + j) % 64 == t then 64 else 0))
  {
    hide Cong;
    hide Kernel;
    hide Sum;
    Orthogonality(i + j, t);
    var v := At(b, j);
    var column := k => Kernel(i + j, t, k);
    SumEqual(column, k => Kernel(i + j, t, k), 64);
    SumScale(v, column, 64);
    SumEqual(k => v * column(k), k => At(b, j) * Kernel(i + j, t, k), 64);
    CongRefl(v);
    CongMul(v, v, Sum(column, 64), if (i + j) % 64 == t then 64 else 0);
  }

  lemma PullOut(b: seq<u32>, i: nat, t: nat, k: nat)
    ensures Shifted(b, i, k) * PowI(105, k * t) == Sum(j => At(b, j) * Kernel(i + j, t, k), 64)
  {
    hide PowI;
    hide Sum;
    var c := PowI(105, k * t);
    var row := j => At(b, j) * PowI(125, (i + j) * k);
    SumScale(c, row, 64);
    SumEqual(row, j => At(b, j) * PowI(125, (i + j) * k), 64);
    forall j | 0 <= j < 64 ensures c * row(j) == At(b, j) * Kernel(i + j, t, k) {
      Associate(At(b, j), PowI(125, (i + j) * k), c);
    }
    SumEqual(j => c * row(j), j => At(b, j) * Kernel(i + j, t, k), 64);
    assert Sum(j => At(b, j) * Kernel(i + j, t, k), 64) == c * Sum(row, 64);
    assert Shifted(b, i, k) == Sum(row, 64);
  }

  lemma ShiftedZero(x: seq<u32>, k: int)
    ensures Cong(Dft(x, 125, k), Shifted(x, 0, k)) && 0 <= Dft(x, 125, k) < 193
  {
    hide PowI;
    hide Sum;
    hide Cong;
    SumEqual(j => At(x, j) * PowI(125, j * k), j => At(x, j) * PowI(125, (0 + j) * k), 64);
    CongResidue(Shifted(x, 0, k));
  }

  /** sum of y_k * 105^(kt), for any y congruent to z termwise. */
  lemma InverseSum(y: seq<u32>, z: int -> int, t: nat)
    requires |y| == 64 && forall k :: 0 <= k < 64 ==> Cong(y[k], z(k))
    ensures Cong(Dft(y, 105, t), Sum(k => z(k) * PowI(105, k * t), 64))
  {
    hide PowI;
    hide Sum;
    hide Cong;
    var f := j => At(y, j) * PowI(105, j * t);
    var g := k => z(k) * PowI(105, k * t);
    forall k | 0 <= k < 64 ensures Cong(f(k), g(k)) {
      CongRefl(PowI(105, k * t));
      CongMul(y[k], z(k), PowI(105, k * t), PowI(105, k * t));
    }
    SumCong(f, g, 64);
    CongResidue(Sum(f, 64));
    SumEqual(f, j => At(y, j) * PowI(105, j * t), 64);
    SumEqual(g, k => z(k) * PowI(105, k * t), 64);
    CongTrans(Dft(y, 105, t), Sum(f, 64), Sum(g, 64));
  }

  lemma Unscale(d: int, v: int)
    requires Cong(d, 64 * v)
    ensures (190 * d) % 193 == v % 193
  {
    hide Cong;
    CongRefl(190);
    CongMul(190, 190, d, 64 * v);
    CongTimesSixtyThree(v);
    CongTrans(190 * d, 190 * (64 * v), v);
    CongSameResidue(190 * d, v);
  }

  lemma CongTimesSixtyThree(v: int)
    ensures Cong(190 * (64 * v), v)
  {
    assert 190 * (64 * v) - v == 193 * (63 * v);
  }

  /** Inverse after forward is the identity modulo 193. */
  lemma InverseTransform(x: seq<u32>, y: seq<u32>, t: nat)
    requires |x| == |y| == 64 && t < 64
    requires forall k :: 0 <= k < 64 ==> y[k] % 193 == Dft(x, 125, k)
    ensures (190 * Dft(y, 105, t)) % 193 == x[t] % 193
  {
    hide Cong;
    hide Dft;
    hide Shifted;
    hide Sum;
    var z := k => Shifted(x, 0, k);
    forall k | 0 <= k < 64 ensures Cong(y[k], z(k)) {
      ShiftedZero(x, k);
      CongResidue(y[k]);
      CongSym(y[k] % 193, y[k]);
      CongTrans(y[k], Dft(x, 125, k), z(k));
    }
    InverseSum(y, z, t);
    InvertShifted(x, 0, t);
    SumEqual(k => z(k) * PowI(105, k * t), k => Shifted(x, 0, k) * PowI(105, k * t), 64);
    CongTrans(Dft(y, 105, t), Sum(k => Shifted(x, 0, k) * PowI(105, k * t), 64), 64 * At(x, (t - 0) % 64));
    Unscale(Dft(y, 105, t), x[t]);
  }

  /** Reference definition: circular convolution of length 64. */
  ghost function Circular(a: seq<u32>, b: seq<u32>, t: int): int {
    Sum(i => At(a, i) * At(b, (t - i) % 64), 64) % 193
  }

  lemma ShiftFactor(b: seq<u32>, i: nat, k: nat)
    ensures Shifted(b, i, k) == PowI(125, i * k) * Shifted(b, 0, k)
  {
    hide Sum;
    var w := PowI(125, i * k);
    var row := j => At(b, j) * PowI(125, (0 + j) * k);
    SumScale(w, row, 64);
    forall j | 0 <= j < 64 ensures w * row(j) == At(b, j) * PowI(125, (i + j) * k) {
      assert (i + j) * k == i * k + j * k && 0 <= i * k && 0 <= j * k;
      PowAdd(125, i * k, j * k);
      MoveFactor(At(b, j), Pow(125, j * k), Pow(125, i * k));
      assert Pow(125, i * k) * Pow(125, j * k) == Pow(125, j * k) * Pow(125, i * k);
    }
    SumEqual(j => w * row(j), j => At(b, j) * PowI(125, (i + j) * k), 64);
    SumEqual(row, j => At(b, j) * PowI(125, (0 + j) * k), 64);
  }

  /** The product of two transforms is the sum of the delayed transforms of b weighted by a. */
  lemma ProductOfTransforms(a: seq<u32>, b: seq<u32>, k: nat)
    ensures Sum(i => At(a, i) * Shifted(b, i, k), 64) == Shifted(a, 0, k) * Shifted(b, 0, k)
  {
    hide Sum;
    hide PowI;
    var d := Shifted(b, 0, k);
    var row := i => At(a, i) * PowI(125, (0 + i) * k);
    SumScale(d, row, 64);
    forall i | 0 <= i < 64 ensures At(a, i) * Shifted(b, i, k) == d * row(i) {
      ShiftFactor(b, i, k);
      Associate(At(a, i), PowI(125, i * k), d);
    }
    SumEqual(i => At(a, i) * Shifted(b, i, k), i => d * row(i), 64);
    SumEqual(row, j => At(a, j) * PowI(125, (0 + j) * k), 64);
    assert Shifted(a, 0, k) == Sum(row, 64);
  }

  lemma DistributeColumn(a: seq<u32>, b: seq<u32>, t: nat, k: nat)
    ensures Sum(i => At(a, i) * Shifted(b, i, k), 64) * PowI(105, k * t)
         == Sum(i => At(a, i) * (Shifted(b, i, k) * PowI(105, k * t)), 64)
  {
    hide Sum;
    hide PowI;
    hide Shifted;
    var c := PowI(105, k * t);
    var row := i => At(a, i) * Shifted(b, i, k);
    SumScale(c, row, 64);
    SumEqual(row, i => At(a, i) * Shifted(b, i, k), 64);
    forall i | 0 <= i < 64 ensures c * row(i) == At(a, i) * (Shifted(b, i, k) * c) {
      Associate(At(a, i), Shifted(b, i, k), c);
    }
    SumEqual(i => c * row(i), i => At(a, i) * (Shifted(b, i, k) * PowI(105, k * t)), 64);
    assert Sum(i => At(a, i) * (Shifted(b, i, k) * PowI(105, k * t)), 64) == c * Sum(row, 64);
  }

  lemma WeightedRow(a: seq<u32>, b: seq<u32>, t: nat, i: nat)
    requires i < 64 && t < 64
    ensures Cong(Sum(k => At(a, i) * (Shifted(b, i, k) * PowI(105, k * t)), 64), 64 * (At(a, i) * At(b, (t - i) % 64)))
  {
    hide Sum;
    hide PowI;
    hide Shifted;
    hide Cong;
    InvertShifted(b, i, t);
    var v := At(a, i);
    var row := k => Shifted(b, i, k) * PowI(105, k * t);
    SumEqual(row, k => Shifted(b, i, k) * PowI(105, k * t), 64);
    SumScale(v, row, 64);
    SumEqual(k => v * row(k), k => At(a, i) * (Shifted(b, i, k) * PowI(105, k * t)), 64);
    CongRefl(v);
    CongMul(v, v, Sum(row, 64), 64 * At(b, (t - i) % 64));
    MoveFactor(v, At(b, (t - i) % 64), 64);
  }

  lemma DoubleSum(a: seq<u32>, b: seq<u32>, t: nat)
    requires t < 64
    ensures Cong(Sum(k => Sum(i => At(a, i) * Shifted(b, i, k), 64) * PowI(105, k * t), 64),
                 64 * Sum(i => At(a, i) * At(b, (t - i) % 64), 64))
  {
    hide Sum;
    hide PowI;
    hide Shifted;
    hide Cong;
    var f := (k, i) => At(a, i) * (Shifted(b, i, k) * PowI(105, k * t));
    forall k | 0 <= k < 64
      ensures Sum(i => At(a, i) * Shifted(b, i, k), 64) * PowI(105, k * t) == Sum(i => f(k, i), 64)
    {
      DistributeColumn(a, b, t, k);
      SumEqual(i => f(k, i), i => At(a, i) * (Shifted(b, i, k) * PowI(105, k * t)), 64);
    }
    var n: nat := 64;
    SumEqual(k => Sum(i => At(a, i) * Shifted(b, i, k), 64) * PowI(105, k * t), k => Sum(i => f(k, i), n), n);
    SumSwap(f, n, n);
    var g := i => At(a, i) * At(b, (t - i) % 64);
    var column := i => Sum(k => f(k, i), n);
    forall i | 0 <= i < 64 ensures Cong(column(i), 64 * g(i)) {
      WeightedRow(a, b, t, i);
      SumEqual(k => f(k, i), k => At(a, i) * (Shifted(b, i, k) * PowI(105, k * t)), 64);
    }
    SumCong(column, i => 64 * g(i), 64);
    SumScale(64, g, 64);
    SumEqual(g, i => At(a, i) * At(b, (t - i) % 64), 64);
    assert Sum(k => Sum(i => At(a, i) * Shifted(b, i, k), 64) * PowI(105, k * t), 64) == Sum(column, 64);
    assert Cong(Sum(column, 64), 64 * Sum(g, 64));
  }

  /** Forward and back in place restores every reduced array. */
  method RoundTrip(a: array<u32>)
    requires a.Length == 64 && Reduced(a[..])
    modifies a
    ensures a[..] == old(a[..])
  {
    hide Dft;
    ghost var x := a[..];
    Ntt(a, false);
    ghost var y := a[..];
    Ntt(a, true);
    forall t | 0 <= t < 64 ensures a[t] == x[t] {
      InverseTransform(x, y, t);
    }
  }

  /** The convolution theorem, as the inverse transform of a pointwise product. */
  lemma ConvolutionTheorem(a: seq<u32>, b: seq<u32>, y: seq<u32>, t: nat)
    requires |y| == 64 && t < 64
    requires forall k :: 0 <= k < 64 ==> Cong(y[k], Dft(a, 125, k) * Dft(b, 125, k))
    ensures (190 * Dft(y, 105, t)) % 193 == Circular(a, b, t)
  {
    hide Cong;
    hide Dft;
    hide Shifted;
    hide Sum;
    var z := k => Sum(i => At(a, i) * Shifted(b, i, k), 64);
    forall k | 0 <= k < 64 ensures Cong(y[k], z(k)) {
      ShiftedZero(a, k);
      ShiftedZero(b, k);
      CongMul(Dft(a, 125, k), Shifted(a, 0, k), Dft(b, 125, k), Shifted(b, 0, k));
      ProductOfTransforms(a, b, k);
      CongTrans(y[k], Dft(a, 125, k) * Dft(b, 125, k), z(k));
    }
    InverseSum(y, z, t);
    DoubleSum(a, b, t);
    SumEqual(k => z(k) * PowI(105, k * t), k => Sum(i => At(a, i) * Shifted(b, i, k), 64) * PowI(105, k * t), 64);
    var c := Sum(i => At(a, i) * At(b, (t - i) % 64), 64);
    CongTrans(Dft(y, 105, t), Sum(k => z(k) * PowI(105, k * t), 64), 64 * c);
    Unscale(Dft(y, 105, t), c);
  }

  lemma PointwiseProduct(u: u32, v: u32, d: int, e: int)
    requires u % 193 == d && v % 193 == e
    ensures Cong(MulMod(u, v), d * e)
  {
    hide Cong;
    CongResidue(u);
    CongResidue(v);
    CongSym(d, u);
    CongSym(e, v);
    CongMul(u, d, v, e);
    CongTrans(MulMod(u, v), u * v, d * e);
  }

  /** Circular convolution through three transforms. */
  method Conv(a: array<u32>, b: array<u32>) returns (c: array<u32>)
    requires a.Length == b.Length == 64 && NoOverflow(a[..]) && NoOverflow(b[..])
    ensures fresh(c) && c.Length == 64
    ensures forall t :: 0 <= t < 64 ==> c[t] == Circular(a[..], b[..], t)
  {
    hide Cong;
    hide Dft;
    hide Circular;
    hide MulMod;
    var fa := new u32[64](i requires 0 <= i < 64 reads a => a[i]);
    var fb := new u32[64](i requires 0 <= i < 64 reads b => b[i]);
    assert fa[..] == a[..] && fb[..] == b[..];
    Ntt(fa, false);
    Ntt(fb, false);
    c := new u32[64](i => 0);
    var i := 0;
    while i < 64
      invariant 0 <= i <= 64
      invariant forall k :: 0 <= k < i ==> c[k] < 193 && Cong(c[k], Dft(a[..], 125, k) * Dft(b[..], 125, k))
      invariant forall k :: i <= k < 64 ==> c[k] == 0
      modifies c
    {
      PointwiseProduct(fa[i], fb[i], Dft(a[..], 125, i), Dft(b[..], 125, i));
      c[i] := MulMod(fa[i], fb[i]);
      i := i + 1;
    }
    ghost var y := c[..];
    Ntt(c, true);
    forall t | 0 <= t < 64 ensures c[t] == Circular(a[..], b[..], t) {
      ConvolutionTheorem(a[..], b[..], y, t);
    }
  }

  // ---- fair queue --------------------------------------------------------

  /** The smoothing taps: seven of them around class 0, the same in both directions. */
  function FairKernel(): (k: seq<u32>)
    ensures |k| == 64 && Reduced(k)
    ensures && k[..4] == [4, 2, 1, 1] && (forall i :: 1 <= i < 64 ==> k[i] == k[64 - i])
            && (forall i :: 4 <= i <= 60 ==> k[i] == 0)
  {
    seq(64, i => if i == 0 then 4
                 else if i == 1 || i == 63 then 2
                 else if i == 2 || i == 3 || i == 61 || i == 62 then 1 else 0)
  }

  class CyclotomicFairQ {
    var deficit: array<u32>
    var kernelHat: array<u32>
    var classes: nat
    var picks: nat
    /** The taps whose transform kernelHat holds. */
    ghost var taps: seq<u32>

    ghost predicate Valid()
      reads this, deficit, kernelHat
    {
      && deficit.Length == kernelHat.Length == 64 && deficit != kernelHat
      && 1 <= classes <= 64 && picks < 0x1_0000_0000_0000_0000
      && Reduced(deficit[..])
      && |taps| == 64
      && forall k :: 0 <= k < 64 ==> kernelHat[k] % 193 == Dft(taps, 125, k)
    }

    /** The placeholder queue: its kernel is zero. */
    constructor Empty()
      ensures Valid() && fresh(deficit) && fresh(kernelHat)
      ensures classes == 8 && picks == 0 && taps == seq(64, _ => 0) && deficit[..] == seq(64, _ => 0)
    {
      hide Dft;
      deficit := new u32[64](_ => 0);
      kernelHat := new u32[64](_ => 0);
      classes := 8;
      picks := 0;
      taps := seq(64, _ => 0);
      new;
      forall k | 0 <= k < 64 ensures Dft(taps, 125, k) == 0 { ZeroTransform(taps, k); }
    }

    constructor (requested: nat)
      ensures Valid() && fresh(deficit) && fresh(kernelHat)
      ensures taps == FairKernel() && deficit[..] == seq(64, _ => 0) && picks == 0
      ensures classes == if requested == 0 then 1 else if requested > 64 then 64 else requested
    {
      deficit := new u32[64](_ => 0);
      var hat := new u32[64](i requires 0 <= i < 64 => FairKernel()[i]);
      kernelHat := hat;
      classes := if requested == 0 then 1 else if requested > 64 then 64 else requested;
      picks := 0;
      taps := FairKernel();
      new;
      assert kernelHat[..] == FairKernel();
      Ntt(kernelHat, false);
    }

    method Charge(class_: nat, amount: u32)
      requires Valid()
      modifies deficit
      ensures Valid()
      ensures deficit[..] == old(deficit[..])[class_ % 64 := (old(deficit[class_ % 64]) + amount) % 193]
    {
      hide Dft;
      var i := class_ % 64;
      deficit[i] := AddMod(deficit[i], amount % 193);
    }

    method Credit(class_: nat, amount: u32)
      requires Valid()
      modifies deficit
      ensures Valid()
      ensures deficit[..] == old(deficit[..])[class_ % 64 := (old(deficit[class_ % 64]) - amount) % 193]
    {
      hide Dft;
      var i := class_ % 64;
      deficit[i] := SubMod(deficit[i], amount % 193);
    }

    method Smooth() returns (y: array<u32>)
      requires Valid()
      ensures fresh(y) && y.Length == 64
      ensures forall t :: 0 <= t < 64 ==> y[t] == Circular(deficit[..], taps, t)
    {
      hide Cong;
      hide Dft;
      hide Circular;
      hide MulMod;
      var dHat := new u32[64](i requires 0 <= i < 64 && deficit.Length == 64 reads this, deficit => deficit[i]);
      assert dHat[..] == deficit[..];
      Ntt(dHat, false);
      y := new u32[64](_ => 0);
      var i := 0;
      while i < 64
        invariant 0 <= i <= 64
        invariant forall k :: 0 <= k < i ==> y[k] < 193 && Cong(y[k], Dft(deficit[..], 125, k) * Dft(taps, 125, k))
        invariant forall k :: i <= k < 64 ==> y[k] == 0
        modifies y
      {
        PointwiseProduct(dHat[i], kernelHat[i], Dft(deficit[..], 125, i), Dft(taps, 125, i));
        y[i] := MulMod(dHat[i], kernelHat[i]);
        i := i + 1;
      }
      ghost var z := y[..];
      Ntt(y, true);
      forall t | 0 <= t < 64 ensures y[t] == Circular(deficit[..], taps, t) {
        ConvolutionTheorem(deficit[..], taps, z, t);
      }
    }

    /** The first class, among the active ones, whose smoothed deficit is largest. */
    ghost predicate FirstLargest(best: nat)
      reads this, deficit
    {
      && best < classes
      && (forall i :: 0 <= i < classes ==> Circular(deficit[..], taps, i) <= Circular(deficit[..], taps, best))
      && (forall i :: 0 <= i < best ==> Circular(deficit[..], taps, i) < Circular(deficit[..], taps, best))
    }

    method Pick() returns (best: nat)
      requires Valid()
      ensures FirstLargest(best)
    {
      hide Cong;
      hide Dft;
      hide Circular;
      var s := Smooth();
      best := 0;
      var bestValue := s[0];
      var i := 1;
      while i < classes
        invariant 1 <= i <= classes && best < i && bestValue == s[best]
        invariant forall k :: 0 <= k < i ==> s[k] <= bestValue
        invariant forall k :: 0 <= k < best ==> s[k] < bestValue
      {
        if s[i] > bestValue {
          bestValue := s[i];
          best := i;
        }
        i := i + 1;
      }
    }

    method Quantum(service: u32) returns (c: nat)
      requires Valid()
      modifies this`picks, deficit
      ensures Valid()
      ensures old(FirstLargest(c))
      ensures deficit[..] == old(deficit[..])[c := (old(deficit[c]) - service) % 193]
      ensures picks == (old(picks) + 1) % 0x1_0000_0000_0000_0000
    {
      hide Dft;
      hide Circular;
      c := Pick();
      Credit(c, service);
      picks := (picks + 1) % 0x1_0000_0000_0000_0000;
    }
  }

  lemma ZeroTransform(x: seq<u32>, k: int)
    requires x == seq(64, _ => 0)
    ensures Dft(x, 125, k) == 0
  {
    hide Sum;
    hide PowI;
    forall j | 0 <= j < 64 ensures At(x, j) * PowI(125, j * k) == 0 {
      assert 0 * PowI(125, j * k) == 0;
    }
    SumEqual(j => At(x, j) * PowI(125, j * k), i => 0, 64);
    SumZero(64);
  }
}
