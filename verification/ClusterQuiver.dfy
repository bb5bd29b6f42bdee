/** Quiver mutation on a bounded arrow table (kernel/boulder/src/cluster_quiver.rs), related to the
    Fomin-Zelevinsky rule on the signed arrow matrix. */
module ClusterQuiver {

  const MAX_N := 16
  const MAX_E := 64
  const MAX_MULT := 255
  const FP_ONE := 0x1_0000
  const U32_MAX := 0xFFFF_FFFF
  const U64_MAX := 0xFFFF_FFFF_FFFF_FFFF

  datatype Option<T> = None | Some(value: T)

  datatype Fault = Dim | BadNode | Loop | ZeroCluster | Overflow

  datatype Arrow = Arrow(live: bool, from: nat, to: nat, mult: nat)

  const EMPTY := Arrow(false, 0, 0, 0)

  // ---- tables and their matrices -----------------------------------------

  /** Live arrows join two distinct nodes, carry a multiplicity, and are never parallel. */
  ghost predicate Simple(t: seq<Arrow>, n: nat) {
    && (forall p :: 0 <= p < |t| && t[p].live ==>
                      t[p].from < n && t[p].to < n && t[p].from != t[p].to && 1 <= t[p].mult <= MAX_MULT)
    && (forall p, q :: 0 <= p < q < |t| && t[p].live && t[q].live ==> t[p].from != t[q].from || t[p].to != t[q].to)
  }

  predicate Opposite(a: Arrow, b: Arrow) {
    a.live && b.live && a.from == b.to && a.to == b.from
  }

  ghost predicate NoTwoCycles(t: seq<Arrow>) {
    forall p, q :: 0 <= p < |t| && 0 <= q < |t| ==> !Opposite(t[p], t[q])
  }

  ghost predicate Tidy(t: seq<Arrow>, n: nat) {
    Simple(t, n) && NoTwoCycles(t)
  }

  function Weight(a: Arrow, i: int, j: int): nat {
    if a.live && a.from == i && a.to == j then a.mult else 0
  }

  /** How many arrows lead from i to j. */
  function Count(t: seq<Arrow>, i: int, j: int): nat {
    if t == [] then 0 else Count(t[..|t| - 1], i, j) + Weight(t[|t| - 1], i, j)
  }

  /** The signed arrow matrix. */
  function Signed(t: seq<Arrow>, i: int, j: int): int {
    Count(t, i, j) - Count(t, j, i)
  }

  lemma {:induction false} CountUpdate(t: seq<Arrow>, p: nat, a: Arrow, i: int, j: int)
    requires p < |t|
    ensures Count(t[p := a], i, j) == Count(t, i, j) - Weight(t[p], i, j) + Weight(a, i, j)
  {
    var n := |t| - 1;
    if p == n {
      assert t[p := a][..n] == t[..n];
    } else {
      assert t[p := a][..n] == t[..n][p := a];
      CountUpdate(t[..n], p, a, i, j);
    }
  }

  lemma CountAppend(t: seq<Arrow>, a: Arrow, i: int, j: int)
    ensures Count(t + [a], i, j) == Count(t, i, j) + Weight(a, i, j)
  {
    assert (t + [a])[..|t|] == t;
  }

  lemma {:induction false} CountNone(t: seq<Arrow>, i: int, j: int)
    requires forall p :: 0 <= p < |t| ==> Weight(t[p], i, j) == 0
    ensures Count(t, i, j) == 0
  {
    if t != [] { CountNone(t[..|t| - 1], i, j); }
  }

  /** In a simple table the count of a pair is the multiplicity of its one live arrow. */
  lemma {:induction false} CountOne(t: seq<Arrow>, n: nat, p: nat)
    requires Simple(t, n) && p < |t| && t[p].live
    ensures Count(t, t[p].from, t[p].to) == t[p].mult
  {
    var k := |t| - 1;
    if p == k {
      CountNone(t[..k], t[p].from, t[p].to);
    } else {
      assert t[..k][p] == t[p];
      CountOne(t[..k], n, p);
    }
  }

  lemma {:induction false} CountWitness(t: seq<Arrow>, i: int, j: int) returns (p: nat)
    requires Count(t, i, j) > 0
    ensures p < |t| && t[p].live && t[p].from == i && t[p].to == j
  {
    var k := |t| - 1;
    if Weight(t[k], i, j) > 0 {
      p := k;
    } else {
      p := CountWitness(t[..k], i, j);
    }
  }

  lemma CountBounds(t: seq<Arrow>, n: nat, i: int, j: int)
    requires Simple(t, n)
    ensures Count(t, i, j) <= MAX_MULT
    ensures i == j || !(0 <= i < n) || !(0 <= j < n) ==> Count(t, i, j) == 0
  {
    if Count(t, i, j) > 0 {
      var p := CountWitness(t, i, j);
      CountOne(t, n, p);
    }
  }

  /** Without 2-cycles the table is the positive part of its matrix. */
  lemma TidyDetermined(t: seq<Arrow>, n: nat, i: int, j: int)
    requires Tidy(t, n)
    ensures Count(t, i, j) == Positive(Signed(t, i, j)) && Count(t, j, i) == Positive(-Signed(t, i, j))
  {
    if Count(t, i, j) > 0 && Count(t, j, i) > 0 {
      var p := CountWitness(t, i, j);
      var q := CountWitness(t, j, i);
      assert Opposite(t[p], t[q]);
      assert false;
    }
  }

  // ---- the mutation rule -------------------------------------------------

  function Positive(x: int): nat { if x > 0 then x else 0 }

  /** The Fomin-Zelevinsky rule at k. */
  function Mutated(b: (int, int) -> int, k: int): (int, int) -> int {
    (i, j) =>
      if i == k || j == k then -b(i, j)
      else b(i, j) + Positive(b(i, k)) * Positive(b(k, j)) - Positive(-b(i, k)) * Positive(-b(k, j))
  }

  /** Mutating twice at the same node is the identity. */
  lemma MutationInvolution(b: (int, int) -> int, k: int, i: int, j: int)
    ensures Mutated(Mutated(b, k), k)(i, j) == b(i, j)
  {
    var c := Mutated(b, k);
    assert c(i, k) == -b(i, k) && c(k, j) == -b(k, j);
  }

  function MatrixOf(t: seq<Arrow>): (int, int) -> int {
    (i, j) => Signed(t, i, j)
  }

  /** Nothing the mutation adds exceeds the range of a multiplicity. */
  ghost predicate Fits(t: seq<Arrow>, k: int) {
    forall i, j :: i != j ==> FitsAt(t, k, i, j)
  }

  ghost predicate FitsAt(t: seq<Arrow>, k: int, i: int, j: int) {
    Count(t, i, k) > 0 && Count(t, k, j) > 0 ==> Count(t, i, j) + Count(t, i, k) * Count(t, k, j) <= MAX_MULT
  }

  /** The table after is the mutation of the table before. */
  ghost predicate MutatesTo(t: seq<Arrow>, k: int, t': seq<Arrow>) {
    forall i, j :: Signed(t', i, j) == Mutated(MatrixOf(t), k)(i, j)
  }

  lemma ProductSwap(a: int, b: int)
    ensures a * b == b * a
  {
  }

  /** A mutation that fits can be undone without overflow. */
  lemma FitsAgain(t: seq<Arrow>, t': seq<Arrow>, n: nat, k: int)
    requires Tidy(t, n) && Tidy(t', n) && Fits(t, k) && MutatesTo(t, k, t')
    ensures Fits(t', k)
  {
    forall i, j | i != j ensures FitsAt(t', k, i, j) {
      FitsAgainAt(t, t', n, k, i, j);
    }
  }

  lemma FitsAgainAt(t: seq<Arrow>, t': seq<Arrow>, n: nat, k: int, i: int, j: int)
    requires Tidy(t, n) && Tidy(t', n) && Fits(t, k) && MutatesTo(t, k, t') && i != j
    ensures FitsAt(t', k, i, j)
  {
    hide Tidy;
    hide Count;
    TidyDetermined(t, n, i, k);
    TidyDetermined(t, n, k, j);
    TidyDetermined(t, n, i, j);
    TidyDetermined(t', n, i, k);
    TidyDetermined(t', n, k, j);
    TidyDetermined(t', n, i, j);
    var m := Mutated(MatrixOf(t), k);
    assert Signed(t', i, k) == m(i, k) && Signed(t', k, j) == m(k, j) && Signed(t', i, j) == m(i, j);
    assert Count(t', i, k) == Count(t, k, i) && Count(t', k, j) == Count(t, j, k);
    if Count(t', i, k) > 0 && Count(t', k, j) > 0 {
      assert FitsAt(t, k, j, i);
      ProductSwap(Count(t, k, i), Count(t, j, k));
      TableBound(t, n, i, j);
    }
  }

  lemma TableBound(t: seq<Arrow>, n: nat, i: int, j: int)
    requires Tidy(t, n)
    ensures Count(t, i, j) <= MAX_MULT
  {
    CountBounds(t, n, i, j);
  }

  /** The matrix entry a mutation at k leaves in the table: the rule, with every sum clamped. */
  function ClampedRule(t: seq<Arrow>, k: int, i: int, j: int): int {
    if i == k || j == k then -Signed(t, i, j)
    else Clamp(Count(t, i, j) + Count(t, i, k) * Count(t, k, j)) -
           Clamp(Count(t, j, i) + Count(t, j, k) * Count(t, k, i))
  }

  ghost predicate ClampsTo(t: seq<Arrow>, k: int, t': seq<Arrow>) {
    forall i, j :: Signed(t', i, j) == ClampedRule(t, k, i, j)
  }

  /** An entry follows the Fomin-Zelevinsky rule exactly when nothing was clamped on the way to it. */
  lemma RuleExactly(t: seq<Arrow>, n: nat, k: int, i: int, j: int)
    requires Tidy(t, n)
    ensures ClampedRule(t, k, i, j) == Mutated(MatrixOf(t), k)(i, j) <==>
              i == j || (FitsAt(t, k, i, j) && FitsAt(t, k, j, i))
  {
    TidyDetermined(t, n, i, k);
    TidyDetermined(t, n, k, j);
    TidyDetermined(t, n, i, j);
    TableBound(t, n, i, j);
    TableBound(t, n, j, i);
    NoLoop(t, n, k);
    hide Tidy;
    hide Count;
    ProductSwap(Count(t, j, k), Count(t, k, i));
  }

  /** A mutation is the Fomin-Zelevinsky mutation exactly when everything it adds fits. */
  lemma MutatesExactly(t: seq<Arrow>, t': seq<Arrow>, n: nat, k: int)
    requires Tidy(t, n) && ClampsTo(t, k, t')
    ensures MutatesTo(t, k, t') <==> Fits(t, k)
  {
    hide Tidy;
    hide Count;
    hide Signed;
    hide ClampedRule;
    forall i, j
      ensures Signed(t', i, j) == Mutated(MatrixOf(t), k)(i, j) <==>
                i == j || (FitsAt(t, k, i, j) && FitsAt(t, k, j, i))
    {
      RuleExactly(t, n, k, i, j);
      assert Signed(t', i, j) == ClampedRule(t, k, i, j);
    }
  }

  lemma NoLoop(t: seq<Arrow>, n: nat, k: int)
    requires Tidy(t, n)
    ensures Count(t, k, k) == 0
  {
    CountBounds(t, n, k, k);
  }

  /** No arrow that is there already is clamped; new arrows may be. */
  ghost predicate Reversible(t: seq<Arrow>, k: int) {
    forall i, j :: i != j && Count(t, i, j) > 0 ==> FitsAt(t, k, i, j)
  }

  /** Two mutations at k give an entry back exactly when its arrow was not clamped. */
  lemma TwiceAt(t: seq<Arrow>, t': seq<Arrow>, t'': seq<Arrow>, n: nat, k: int, i: int, j: int)
    requires Tidy(t, n) && Tidy(t', n) && ClampsTo(t, k, t') && ClampsTo(t', k, t'') && i != j
    ensures Signed(t'', i, j) == Signed(t, i, j) <==>
              (Count(t, i, j) > 0 ==> FitsAt(t, k, i, j)) && (Count(t, j, i) > 0 ==> FitsAt(t, k, j, i))
  {
    hide Tidy;
    hide Count;
    hide ClampsTo;
    TidyDetermined(t, n, i, k);
    TidyDetermined(t, n, k, j);
    TidyDetermined(t, n, i, j);
    TidyDetermined(t', n, i, k);
    TidyDetermined(t', n, k, j);
    TidyDetermined(t', n, i, j);
    TableBound(t, n, i, j);
    TableBound(t, n, j, i);
    NoLoop(t, n, k);
    ClampsAt(t, t', k, i, j);
    ClampsAt(t, t', k, i, k);
    ClampsAt(t, t', k, k, j);
    ClampsAt(t', t'', k, i, j);
    if i != k && j != k {
      assert Count(t', i, k) == Count(t, k, i) && Count(t', k, i) == Count(t, i, k);
      assert Count(t', k, j) == Count(t, j, k) && Count(t', j, k) == Count(t, k, j);
      ProductSwap(Count(t, i, k), Count(t, k, j));
      ProductSwap(Count(t, k, i), Count(t, j, k));
      var p, q := Count(t, i, k) * Count(t, k, j), Count(t, j, k) * Count(t, k, i);
      assert Count(t, i, k) == 0 || Count(t, k, i) == 0;
      assert p == 0 || q == 0;
    }
  }

  lemma ClampsAt(t: seq<Arrow>, t': seq<Arrow>, k: int, i: int, j: int)
    requires ClampsTo(t, k, t')
    ensures Signed(t', i, j) == ClampedRule(t, k, i, j)
  {
  }

  /** Two mutations at k give back every arrow exactly when none that was there was clamped. */
  lemma TwiceExactly(t: seq<Arrow>, t': seq<Arrow>, t'': seq<Arrow>, n: nat, k: int)
    requires Tidy(t, n) && Tidy(t', n) && Tidy(t'', n) && ClampsTo(t, k, t') && ClampsTo(t', k, t'')
    ensures (forall i, j :: Count(t'', i, j) == Count(t, i, j)) <==> Reversible(t, k)
  {
    hide Tidy;
    hide Count;
    hide ClampsTo;
    hide FitsAt;
    forall i, j
      ensures Count(t'', i, j) == Count(t, i, j) && Count(t'', j, i) == Count(t, j, i) <==>
                i == j || ((Count(t, i, j) > 0 ==> FitsAt(t, k, i, j)) && (Count(t, j, i) > 0 ==> FitsAt(t, k, j, i)))
    {
      TidyDetermined(t, n, i, j);
      TidyDetermined(t'', n, i, j);
      NoLoop(t, n, i);
      NoLoop(t'', n, i);
      if i != j { TwiceAt(t, t', t'', n, k, i, j); }
    }
    if Reversible(t, k) {
      forall i, j ensures Count(t'', i, j) == Count(t, i, j) {
        assert i != j && Count(t, i, j) > 0 ==> FitsAt(t, k, i, j);
        assert i != j && Count(t, j, i) > 0 ==> FitsAt(t, k, j, i);
      }
    } else {
      var i, j :| i != j && Count(t, i, j) > 0 && !FitsAt(t, k, i, j);
      assert Count(t'', i, j) != Count(t, i, j) || Count(t'', j, i) != Count(t, j, i);
    }
  }

  // ---- adding arrows -----------------------------------------------------

  function Clamp(x: nat): nat { if x > MAX_MULT then MAX_MULT else x }

  /** t' is t with mult more arrows between the two nodes, clamped. */
  ghost predicate Added(t: seq<Arrow>, t': seq<Arrow>, from: nat, to: nat, mult: nat) {
    forall i, j :: Count(t', i, j) ==
                     if i == from && j == to && from != to then Clamp(Count(t, i, j) + mult) else Count(t, i, j)
  }

  predicate Joins(a: Arrow, from: nat, to: nat) {
    a.live && a.from == from && a.to == to
  }

  /** The entry holds some other arrow. */
  predicate Taken(a: Arrow, from: nat, to: nat) {
    a.live && !Joins(a, from, to)
  }

  lemma NotJoined(t: seq<Arrow>, from: nat, to: nat)
    requires forall q :: 0 <= q < |t| ==> !Joins(t[q], from, to)
    ensures Count(t, from, to) == 0
  {
    forall q | 0 <= q < |t| ensures Weight(t[q], from, to) == 0 {
      assert !Joins(t[q], from, to);
    }
    CountNone(t, from, to);
  }

  lemma AddNothing(t: seq<Arrow>, n: nat, from: nat, to: nat, mult: nat)
    requires Simple(t, n) && (mult == 0 || from == to)
    ensures Added(t, t, from, to, mult)
  {
    CountBounds(t, n, from, to);
  }

  lemma AddToArrow(t: seq<Arrow>, n: nat, p: nat, mult: nat)
    requires Simple(t, n) && p < |t| && t[p].live && mult > 0
    ensures var t' := t[p := t[p].(mult := Clamp(t[p].mult + mult))];
            Simple(t', n) && Added(t, t', t[p].from, t[p].to, mult) && Count(t, t[p].from, t[p].to) > 0
  {
    var a := t[p].(mult := Clamp(t[p].mult + mult));
    CountOne(t, n, p);
    forall i, j ensures Count(t[p := a], i, j) == Count(t, i, j) - Weight(t[p], i, j) + Weight(a, i, j) {
      CountUpdate(t, p, a, i, j);
    }
  }

  lemma AddInSlot(t: seq<Arrow>, n: nat, p: nat, from: nat, to: nat, mult: nat)
    requires Simple(t, n) && p < |t| && !t[p].live && 0 < mult <= MAX_MULT && from < n && to < n && from != to
    requires forall q :: 0 <= q < |t| ==> !Joins(t[q], from, to)
    ensures var t' := t[p := Arrow(true, from, to, mult)]; Simple(t', n) && Added(t, t', from, to, mult)
  {
    var a := Arrow(true, from, to, mult);
    CountNone(t, from, to);
    forall i, j ensures Count(t[p := a], i, j) == Count(t, i, j) - Weight(t[p], i, j) + Weight(a, i, j) {
      CountUpdate(t, p, a, i, j);
    }
    forall q | 0 <= q < |t| && t[q].live && q != p ensures t[q].from != from || t[q].to != to {
      assert !Joins(t[q], from, to);
    }
  }

  lemma AddAtEnd(t: seq<Arrow>, n: nat, from: nat, to: nat, mult: nat)
    requires Simple(t, n) && 0 < mult <= MAX_MULT && from < n && to < n && from != to
    requires forall q :: 0 <= q < |t| ==> !Joins(t[q], from, to)
    ensures var t' := t + [Arrow(true, from, to, mult)]; Simple(t', n) && Added(t, t', from, to, mult)
  {
    hide Count;
    var a := Arrow(true, from, to, mult);
    CountNone(t, from, to);
    forall i, j ensures Count(t + [a], i, j) == Count(t, i, j) + Weight(a, i, j) {
      CountAppend(t, a, i, j);
    }
    SimpleAppend(t, n, a);
  }

  lemma SimpleAppend(t: seq<Arrow>, n: nat, a: Arrow)
    requires Simple(t, n) && a.from < n && a.to < n && a.from != a.to && 1 <= a.mult <= MAX_MULT
    requires forall q :: 0 <= q < |t| ==> !Joins(t[q], a.from, a.to)
    ensures Simple(t + [a], n)
  {
    var t' := t + [a];
    forall p, q | 0 <= p < q < |t'| && t'[p].live && t'[q].live
      ensures t'[p].from != t'[q].from || t'[p].to != t'[q].to
    {
      assert !Joins(t[p], a.from, a.to);
      if q < |t| {
        assert t'[q] == t[q];
      }
    }
  }

  // ---- cancelling 2-cycles -----------------------------------------------

  function Less(a: Arrow, m: nat): Arrow
    requires m <= a.mult
  {
    Arrow(a.live && a.mult != m, a.from, a.to, a.mult - m)
  }

  ghost predicate SameMatrix(t: seq<Arrow>, t': seq<Arrow>) {
    forall i, j :: Signed(t', i, j) == Signed(t, i, j)
  }

  /** The table only lost arrows. */
  ghost predicate Thinner(t: seq<Arrow>, t': seq<Arrow>) {
    && |t'| == |t|
    && forall p :: 0 <= p < |t| && t'[p].live ==> t[p].live && t'[p].from == t[p].from && t'[p].to == t[p].to
  }

  lemma CancelPair(t: seq<Arrow>, n: nat, p: nat, q: nat)
    requires Simple(t, n) && p < q < |t| && Opposite(t[p], t[q])
    ensures var m := if t[p].mult < t[q].mult then t[p].mult else t[q].mult;
            var t' := t[p := Less(t[p], m)][q := Less(t[q], m)];
            && Simple(t', n) && SameMatrix(t, t') && Thinner(t, t')
            && (!t'[p].live || !t'[q].live)
  {
    var m := if t[p].mult < t[q].mult then t[p].mult else t[q].mult;
    var middle := t[p := Less(t[p], m)];
    var t' := middle[q := Less(t[q], m)];
    forall i, j ensures Signed(t', i, j) == Signed(t, i, j) {
      CountUpdate(t, p, Less(t[p], m), i, j);
      CountUpdate(t, p, Less(t[p], m), j, i);
      CountUpdate(middle, q, Less(t[q], m), i, j);
      CountUpdate(middle, q, Less(t[q], m), j, i);
    }
  }

  // ---- legs --------------------------------------------------------------

  /** An arrow into or out of the mutated node, seen from its other end. */
  datatype Leg = Leg(node: nat, mult: nat)

  function LegWeight(legs: seq<Leg>, i: int): nat {
    if legs == [] then 0
    else LegWeight(legs[..|legs| - 1], i) + if legs[|legs| - 1].node == i then legs[|legs| - 1].mult else 0
  }

  /** The legs name distinct nodes below n, none of them k, each with a multiplicity. */
  ghost predicate GoodLegs(legs: seq<Leg>, n: nat, k: nat) {
    && (forall p :: 0 <= p < |legs| ==> legs[p].node < n && legs[p].node != k && 1 <= legs[p].mult <= MAX_MULT)
    && (forall p, q :: 0 <= p < q < |legs| ==> legs[p].node != legs[q].node)
  }

  lemma {:induction false} LegNone(legs: seq<Leg>, i: int)
    requires forall p :: 0 <= p < |legs| ==> legs[p].node != i
    ensures LegWeight(legs, i) == 0
  {
    if legs != [] { LegNone(legs[..|legs| - 1], i); }
  }

  lemma {:induction false} LegOne(legs: seq<Leg>, n: nat, k: nat, p: nat)
    requires GoodLegs(legs, n, k) && p < |legs|
    ensures LegWeight(legs, legs[p].node) == legs[p].mult
  {
    var e := |legs| - 1;
    if p == e {
      LegNone(legs[..e], legs[p].node);
    } else {
      LegOne(legs[..e], n, k, p);
    }
  }

  /** Distinct nodes below n leave no room for more than n legs. */
  lemma {:induction false} FewLegs(legs: seq<Leg>, n: nat)
    requires forall p :: 0 <= p < |legs| ==> legs[p].node < n
    requires forall p, q :: 0 <= p < q < |legs| ==> legs[p].node != legs[q].node
    ensures |legs| <= n
  {
    if legs == [] {
    } else if p: nat :| p < |legs| && legs[p].node == n - 1 {
      FewLegs(legs[..p] + legs[p + 1..], n - 1);
    } else {
      assert legs[0].node < n;
      FewLegs(legs, n - 1);
    }
  }

  // ---- products ----------------------------------------------------------

  /** acc multiplied in fixed point by x, `times` times; None when a product leaves 64 bits. */
  function Scaled(acc: nat, x: nat, times: nat): Option<nat> {
    if times == 0 then Some(acc)
    else
      var before := Scaled(acc, x, times - 1);
      if before.None? || before.value * x > U64_MAX then None else Some(before.value * x / FP_ONE)
  }

  /** The product of the cluster values at the far ends of the arrows into (or out of) k. */
  function Product(t: seq<Arrow>, x: seq<nat>, k: nat, inward: bool): Option<nat> {
    if t == [] then Some(FP_ONE)
    else
      var a := t[|t| - 1];
      var before := Product(t[..|t| - 1], x, k, inward);
      var near, far := if inward then a.to else a.from, if inward then a.from else a.to;
      if before.None? || !a.live || near != k then before
      else if far < |x| then Scaled(before.value, x[far], a.mult) else None
  }

  function Low32(acc: nat): nat { if acc > U32_MAX then U32_MAX else acc }

  /** The exchange relation: (in + out) / x, in fixed point. */
  function Exchanged(pIn: nat, pOut: nat, x: nat): nat
    requires x > 0
  {
    Low32((pIn + pOut) * FP_ONE / x)
  }

  /** The value a mutation at k gives its node; None when a product leaves 64 bits. */
  function NextValue(t: seq<Arrow>, x: seq<nat>, k: nat): Option<nat> {
    var pIn, pOut := Product(t, x, k, true), Product(t, x, k, false);
    if pIn.None? || pOut.None? || k >= |x| || x[k] == 0 then None
    else Some(Exchanged(Low32(pIn.value), Low32(pOut.value), x[k]))
  }

  /** The exchange relation: the old value times the new one is the sum of the two products, up to the rounding of
      one division, unless the new value is clamped. */
  lemma ExchangeRelation(t: seq<Arrow>, x: seq<nat>, k: nat)
    requires NextValue(t, x, k).Some?
    ensures Product(t, x, k, true).Some? && Product(t, x, k, false).Some? && k < |x| && x[k] > 0
    ensures var v := NextValue(t, x, k).value;
            var sum := Low32(Product(t, x, k, true).value) + Low32(Product(t, x, k, false).value);
            && v <= U32_MAX && v * x[k] <= sum * FP_ONE && (v < U32_MAX ==> sum * FP_ONE < (v + 1) * x[k])
  {
    hide Product;
    var sum := Low32(Product(t, x, k, true).value) + Low32(Product(t, x, k, false).value);
    Quotient(sum * FP_ONE, x[k], NextValue(t, x, k).value);
  }

  lemma Quotient(a: nat, x: nat, v: nat)
    requires x > 0 && v == Low32(a / x)
    ensures v * x <= a && (v < U32_MAX ==> a < (v + 1) * x)
  {
    var q, r := a / x, a % x;
    assert a == q * x + r;
    assert v * x <= q * x by { MulLe(v, q, x); }
    assert (q + 1) * x == q * x + x;
  }

  lemma MulLe(a: nat, b: nat, x: nat)
    requires a <= b
    ensures a * x <= b * x
  {
  }

  function Power(c: nat, times: nat): nat { if times == 0 then 1 else Power(c, times - 1) * c }

  /** By a whole number of units the scaling is exact. */
  lemma {:induction false} ScaledExact(acc: nat, c: nat, times: nat)
    requires Scaled(acc, c * FP_ONE, times).Some?
    ensures Scaled(acc, c * FP_ONE, times).value == acc * Power(c, times)
  {
    if times > 0 {
      ScaledExact(acc, c, times - 1);
      var before := Scaled(acc, c * FP_ONE, times - 1).value;
      assert before * (c * FP_ONE) == before * c * FP_ONE;
      assert before * c * FP_ONE / FP_ONE == before * c;
      assert acc * Power(c, times - 1) * c == acc * (Power(c, times - 1) * c);
    }
  }

  /** The end of an arrow away from the node it is counted for. */
  function Far(a: Arrow, inward: bool): nat { if inward then a.from else a.to }
  function Near(a: Arrow, inward: bool): nat { if inward then a.to else a.from }

  lemma {:induction false} ProductNone(t: seq<Arrow>, x: seq<nat>, k: nat, inward: bool)
    requires forall p :: 0 <= p < |t| && t[p].live ==> Near(t[p], inward) != k
    ensures Product(t, x, k, inward) == Some(FP_ONE)
  {
    if t != [] { ProductNone(t[..|t| - 1], x, k, inward); }
  }

  /** A single arrow gives the value at its far end, and arrows elsewhere change nothing. */
  lemma {:induction false} ProductSingle(t: seq<Arrow>, x: seq<nat>, k: nat, inward: bool, p: nat)
    requires p < |t| && t[p].live && t[p].mult == 1 && Near(t[p], inward) == k && Far(t[p], inward) < |x|
    requires x[Far(t[p], inward)] <= U32_MAX
    requires forall q :: 0 <= q < |t| && t[q].live && Near(t[q], inward) == k ==> q == p
    ensures Product(t, x, k, inward) == Some(x[Far(t[p], inward)])
  {
    var n := |t| - 1;
    if p == n {
      ProductNone(t[..n], x, k, inward);
      assert Scaled(FP_ONE, x[Far(t[p], inward)], 0) == Some(FP_ONE);
      assert Scaled(FP_ONE, x[Far(t[p], inward)], 1) == Some(x[Far(t[p], inward)]);
    } else {
      ProductSingle(t[..n], x, k, inward, p);
    }
  }

  // ---- room in the table -------------------------------------------------

  function Seat(a: Arrow, k: int): nat {
    if a.live && (k < 0 || a.from == k || a.to == k) then 1 else 0
  }

  /** The live arrows at node k; all live arrows when k is negative. */
  function Tally(t: seq<Arrow>, k: int): nat {
    if t == [] then 0 else Tally(t[..|t| - 1], k) + Seat(t[|t| - 1], k)
  }

  lemma {:induction false} TallyUpdate(t: seq<Arrow>, p: nat, a: Arrow, k: int)
    requires p < |t|
    ensures Tally(t[p := a], k) == Tally(t, k) - Seat(t[p], k) + Seat(a, k)
  {
    var n := |t| - 1;
    if p == n {
      assert t[p := a][..n] == t[..n];
    } else {
      assert t[p := a][..n] == t[..n][p := a];
      TallyUpdate(t[..n], p, a, k);
    }
  }

  lemma TallyAppend(t: seq<Arrow>, a: Arrow, k: int)
    ensures Tally(t + [a], k) == Tally(t, k) + Seat(a, k)
  {
    assert (t + [a])[..|t|] == t;
  }

  lemma {:induction false} TallyBound(t: seq<Arrow>, k: int)
    ensures Tally(t, k) <= Tally(t, -1) <= |t|
    ensures (forall p :: 0 <= p < |t| ==> t[p].live) <==> Tally(t, -1) == |t|
  {
    if t != [] { TallyBound(t[..|t| - 1], k); }
  }

  /** The live arrows at every node after one more was seated, or none. */
  ghost predicate Seated(t: seq<Arrow>, t': seq<Arrow>, from: nat, to: nat, one: bool) {
    forall k :: Tally(t', k) == Tally(t, k) + if one && (k < 0 || k == from || k == to) then 1 else 0
  }

  lemma SeatedNone(t: seq<Arrow>, from: nat, to: nat)
    ensures Seated(t, t, from, to, false)
  {
  }

  lemma SeatedUpdate(t: seq<Arrow>, p: nat, a: Arrow)
    requires p < |t| && a.live && (t[p].live ==> t[p].from == a.from && t[p].to == a.to)
    ensures Seated(t, t[p := a], a.from, a.to, !t[p].live)
  {
    forall k {
      TallyUpdate(t, p, a, k);
    }
  }

  lemma SeatedAppend(t: seq<Arrow>, a: Arrow)
    requires a.live
    ensures Seated(t, t + [a], a.from, a.to, true)
  {
    forall k {
      TallyAppend(t, a, k);
    }
  }

  // ---- the legs of a node, and the arrows a mutation has to find room for ----

  /** The arrows into k, in table order. */
  function IntoLegs(t: seq<Arrow>, k: nat): seq<Leg> {
    if t == [] then []
    else
      var a, before := t[|t| - 1], IntoLegs(t[..|t| - 1], k);
      if a.live && a.to == k then before + [Leg(a.from, a.mult)] else before
  }

  /** The arrows out of k, in table order. */
  function OutLegs(t: seq<Arrow>, k: nat): seq<Leg> {
    if t == [] then []
    else
      var a, before := t[|t| - 1], OutLegs(t[..|t| - 1], k);
      if a.live && a.to != k && a.from == k then before + [Leg(a.to, a.mult)] else before
  }

  /** The pairs (i, node of an outgoing leg) that no arrow joins yet, in the order of the legs. */
  function NewFrom(t: seq<Arrow>, i: nat, out: seq<Leg>): seq<(nat, nat)> {
    if out == [] then []
    else
      var j, before := out[|out| - 1].node, NewFrom(t, i, out[..|out| - 1]);
      if i != j && Count(t, i, j) == 0 then before + [(i, j)] else before
  }

  /** The same for every incoming leg in turn. */
  function NewAmong(t: seq<Arrow>, into: seq<Leg>, out: seq<Leg>): seq<(nat, nat)> {
    if into == [] then []
    else NewAmong(t, into[..|into| - 1], out) + NewFrom(t, into[|into| - 1].node, out)
  }

  /** The pairs a mutation at k joins by an arrow of its own, in the order in which it does. */
  function NewPairs(t: seq<Arrow>, k: nat): seq<(nat, nat)> {
    NewAmong(t, IntoLegs(t, k), OutLegs(t, k))
  }

  /** The entries of the table that hold no live arrow. */
  function Room(t: seq<Arrow>): int {
    MAX_E - Tally(t, -1)
  }

  lemma NewFromNext(t: seq<Arrow>, i: nat, out: seq<Leg>, q: nat)
    requires q < |out|
    ensures var j := out[q].node;
            NewFrom(t, i, out[..q + 1]) ==
              NewFrom(t, i, out[..q]) + if i != j && Count(t, i, j) == 0 then [(i, j)] else []
  {
    assert out[..q + 1][..q] == out[..q];
  }

  lemma {:induction false} NewFromPrefix(t: seq<Arrow>, i: nat, out: seq<Leg>, q: nat)
    requires q <= |out|
    ensures NewFrom(t, i, out[..q]) <= NewFrom(t, i, out)
  {
    if q == |out| {
      assert out[..q] == out;
    } else {
      assert out[..|out| - 1][..q] == out[..q];
      NewFromPrefix(t, i, out[..|out| - 1], q);
    }
  }

  lemma NewAmongNext(t: seq<Arrow>, into: seq<Leg>, out: seq<Leg>, p: nat)
    requires p < |into|
    ensures NewAmong(t, into[..p + 1], out) == NewAmong(t, into[..p], out) + NewFrom(t, into[p].node, out)
  {
    assert into[..p + 1][..p] == into[..p];
  }

  lemma {:induction false} NewAmongPrefix(t: seq<Arrow>, into: seq<Leg>, out: seq<Leg>, p: nat)
    requires p <= |into|
    ensures NewAmong(t, into[..p], out) <= NewAmong(t, into, out)
  {
    if p == |into| {
      assert into[..p] == into;
    } else {
      assert into[..|into| - 1][..p] == into[..p];
      NewAmongPrefix(t, into[..|into| - 1], out, p);
    }
  }

  lemma {:induction false} NewFromSame(t: seq<Arrow>, t1: seq<Arrow>, i: nat, out: seq<Leg>)
    requires forall j :: Count(t1, i, j) == Count(t, i, j)
    ensures NewFrom(t1, i, out) == NewFrom(t, i, out)
  {
    if out != [] { NewFromSame(t, t1, i, out[..|out| - 1]); }
  }

  lemma {:induction false} NewFromExactly(t: seq<Arrow>, a: nat, out: seq<Leg>, i: nat, j: nat)
    ensures (i, j) in NewFrom(t, a, out) <==>
              i == a && i != j && Count(t, i, j) == 0 && exists q :: 0 <= q < |out| && out[q].node == j
  {
    if out != [] {
      var last := |out| - 1;
      NewFromExactly(t, a, out[..last], i, j);
      if q :| 0 <= q < |out| && out[q].node == j && q != last {
        assert out[..last][q].node == j;
      }
    }
  }

  lemma {:induction false} NewAmongExactly(t: seq<Arrow>, into: seq<Leg>, out: seq<Leg>, i: nat, j: nat)
    ensures (i, j) in NewAmong(t, into, out) <==>
              && i != j && Count(t, i, j) == 0
              && (exists p :: 0 <= p < |into| && into[p].node == i) && (exists q :: 0 <= q < |out| && out[q].node == j)
  {
    if into != [] {
      var last := |into| - 1;
      NewAmongExactly(t, into[..last], out, i, j);
      NewFromExactly(t, into[last].node, out, i, j);
      if p :| 0 <= p < |into| && into[p].node == i && p != last {
        assert into[..last][p].node == i;
      }
    }
  }

  /** The new pairs at k are the ends of its two-step paths that are apart and not joined. */
  lemma NewPairsExactly(t: seq<Arrow>, n: nat, k: nat, i: nat, j: nat)
    requires Simple(t, n) && k < n
    ensures (i, j) in NewPairs(t, k) <==> i != j && Count(t, i, k) > 0 && Count(t, k, j) > 0 && Count(t, i, j) == 0
  {
    hide Simple;
    hide GoodLegs;
    var into, out := IntoLegs(t, k), OutLegs(t, k);
    LegsCollected(t, n, k);
    LegsFound(t, n, k, into, out);
    LegNode(into, n, k, i);
    LegNode(out, n, k, j);
    NewAmongExactly(t, into, out, i, j);
  }

  lemma LegNode(legs: seq<Leg>, n: nat, k: nat, i: int)
    requires GoodLegs(legs, n, k)
    ensures LegWeight(legs, i) > 0 <==> exists p :: 0 <= p < |legs| && legs[p].node == i
  {
    if p :| 0 <= p < |legs| && legs[p].node == i {
      LegOne(legs, n, k, p);
    } else {
      LegNone(legs, i);
    }
  }

  // ---- a mutation that runs out of room ----------------------------------

  /** No arrow was lost or thinned, and the pairs joined for the first time are those added. */
  ghost predicate Gained(t: seq<Arrow>, t': seq<Arrow>, added: seq<(nat, nat)>) {
    forall i: nat, j: nat :: && Count(t, i, j) <= Count(t', i, j)
                             && (Count(t', i, j) > 0 <==> Count(t, i, j) > 0 || (i, j) in added)
  }

  lemma GainedChain(t: seq<Arrow>, t1: seq<Arrow>, t2: seq<Arrow>, p: seq<(nat, nat)>, q: seq<(nat, nat)>)
    requires Gained(t, t1, p) && Gained(t1, t2, q)
    ensures Gained(t, t2, p + q)
  {
    hide Count;
    forall i: nat, j: nat
      ensures Count(t, i, j) <= Count(t2, i, j) && (Count(t2, i, j) > 0 <==> Count(t, i, j) > 0 || (i, j) in p + q)
    {
      assert Count(t, i, j) <= Count(t1, i, j) <= Count(t2, i, j);
    }
  }

  /** One composite more. */
  lemma GainedStep(t: seq<Arrow>, t': seq<Arrow>, n: nat, i: nat, j: nat, m: nat)
    requires Simple(t, n) && Added(t, t', i, j, m) && i != j && m > 0
    ensures Gained(t, t', if Count(t, i, j) == 0 then [(i, j)] else [])
  {
    hide Simple;
    hide Count;
    forall a: nat, b: nat ensures Count(t, a, b) <= MAX_MULT {
      CountBounds(t, n, a, b);
    }
  }

  /** An arrow from the first node of the pair to the second would run against one that is there. */
  predicate Against(t: seq<Arrow>, pair: (nat, nat)) { Count(t, pair.1, pair.0) > 0 }

  /** A table that gained arrows has a 2-cycle exactly when one of them runs against an arrow that was there,
      for the pairs a mutation joins. */
  lemma TwoCycleExactly(t: seq<Arrow>, t': seq<Arrow>, n: nat, k: nat, r: nat)
    requires Tidy(t, n) && Simple(t', n) && k < n && r <= |NewPairs(t, k)| && Gained(t, t', NewPairs(t, k)[..r])
    ensures NoTwoCycles(t') <==> forall p :: 0 <= p < r ==> !Against(t, NewPairs(t, k)[p])
  {
    hide Tidy;
    hide Simple;
    hide NewPairs;
    var added := NewPairs(t, k)[..r];
    if NoTwoCycles(t') {
      forall p | 0 <= p < r ensures !Against(t, NewPairs(t, k)[p]) {
        assert added[p] in added;
        Opposed(t, t', added, added[p].0, added[p].1);
      }
    } else {
      var p: nat, q: nat :| p < |t'| && q < |t'| && Opposite(t'[p], t'[q]);
      NoOpposites(t, t', n, k, r, p, q);
    }
  }

  lemma Opposed(t: seq<Arrow>, t': seq<Arrow>, added: seq<(nat, nat)>, i: nat, j: nat)
    requires Gained(t, t', added) && NoTwoCycles(t') && (i, j) in added
    ensures Count(t, j, i) == 0
  {
    if Count(t, j, i) > 0 {
      var p := CountWitness(t', i, j);
      var q := CountWitness(t', j, i);
      assert Opposite(t'[p], t'[q]);
      assert false;
    }
  }

  lemma NoOpposites(t: seq<Arrow>, t': seq<Arrow>, n: nat, k: nat, r: nat, p: nat, q: nat)
    requires Tidy(t, n) && Simple(t', n) && k < n && r <= |NewPairs(t, k)| && Gained(t, t', NewPairs(t, k)[..r])
    requires p < |t'| && q < |t'| && Opposite(t'[p], t'[q])
    ensures exists s :: 0 <= s < r && Against(t, NewPairs(t, k)[s])
  {
    var i, j := t'[p].from, t'[p].to;
    CountOne(t', n, p);
    CountOne(t', n, q);
    hide Simple;
    hide Count;
    hide NewPairs;
    var added := NewPairs(t, k)[..r];
    TidyDetermined(t, n, i, j);
    if Count(t, i, j) > 0 {
      var s :| 0 <= s < r && added[s] == (j, i);
      assert NewPairs(t, k)[s] == (j, i);
    } else if Count(t, j, i) > 0 {
      var s :| 0 <= s < r && added[s] == (i, j);
      assert NewPairs(t, k)[s] == (i, j);
    } else {
      assert (i, j) in added && (j, i) in added;
      NewPairsExactly(t, n, k, i, j);
      NewPairsExactly(t, n, k, j, i);
      TidyDetermined(t, n, i, k);
      assert false;
    }
  }

  /** Where no arrow closes a triangle through k, a mutation that runs out of room leaves no 2-cycle. */
  lemma NoTriangleNoTwoCycle(t: seq<Arrow>, t': seq<Arrow>, n: nat, k: nat, r: nat)
    requires Tidy(t, n) && Simple(t', n) && k < n && r <= |NewPairs(t, k)| && Gained(t, t', NewPairs(t, k)[..r])
    requires forall i, j :: Count(t, i, k) > 0 && Count(t, k, j) > 0 ==> Count(t, j, i) == 0
    ensures NoTwoCycles(t')
  {
    hide Simple;
    hide Count;
    hide NewPairs;
    TwoCycleExactly(t, t', n, k, r);
    forall p | 0 <= p < r ensures !Against(t, NewPairs(t, k)[p]) {
      assert NewPairs(t, k)[p] in NewPairs(t, k);
      NewPairsExactly(t, n, k, NewPairs(t, k)[p].0, NewPairs(t, k)[p].1);
    }
  }

  // ---- the quiver --------------------------------------------------------

  /** Every pair of an incoming leg and an outgoing leg adds the product of their multiplicities, up to the clamp. */
  ghost predicate Composed(t: seq<Arrow>, t': seq<Arrow>, into: seq<Leg>, out: seq<Leg>) {
    forall i, j :: Count(t', i, j) ==
                   if i == j then Count(t, i, j) else Clamp(Count(t, i, j) + LegWeight(into, i) * LegWeight(out, j))
  }

  /** The composites of one incoming leg. */
  ghost predicate ComposedFrom(t: seq<Arrow>, t': seq<Arrow>, leg: Leg, out: seq<Leg>) {
    forall i, j :: Count(t', i, j) ==
                   if i == leg.node && i != j then Clamp(Count(t, i, j) + leg.mult * LegWeight(out, j))
                   else Count(t, i, j)
  }

  lemma ComposedFromNext(t: seq<Arrow>, t1: seq<Arrow>, t2: seq<Arrow>, leg: Leg, out: seq<Leg>, n: nat, k: nat, p: nat)
    requires Simple(t, n) && GoodLegs(out, n, k) && p < |out| && ComposedFrom(t, t1, leg, out[..p])
    requires if out[p].node != leg.node then Added(t1, t2, leg.node, out[p].node, Clamp(leg.mult * out[p].mult))
             else t2 == t1
    ensures ComposedFrom(t, t2, leg, out[..p + 1])
  {
    assert out[..p + 1][..p] == out[..p];
    LegNone(out[..p], out[p].node);
    CountBounds(t, n, leg.node, out[p].node);
    hide Simple;
    forall i, j
      ensures Count(t2, i, j) ==
              if i == leg.node && i != j then Clamp(Count(t, i, j) + leg.mult * LegWeight(out[..p + 1], j))
              else Count(t, i, j)
    {
      assert Count(t1, i, j) ==
             if i == leg.node && i != j then Clamp(Count(t, i, j) + leg.mult * LegWeight(out[..p], j))
             else Count(t, i, j);
      assert LegWeight(out[..p + 1], j) == LegWeight(out[..p], j) + if out[p].node == j then out[p].mult else 0;
    }
  }

  lemma ComposedNext(t: seq<Arrow>, t1: seq<Arrow>, t2: seq<Arrow>, into: seq<Leg>, out: seq<Leg>, n: nat, k: nat,
        p: nat)
    requires Simple(t, n) && GoodLegs(into, n, k) && p < |into|
    requires Composed(t, t1, into[..p], out) && ComposedFrom(t1, t2, into[p], out)
    ensures Composed(t, t2, into[..p + 1], out)
  {
    assert into[..p + 1][..p] == into[..p];
    LegNone(into[..p], into[p].node);
    forall j ensures Count(t, into[p].node, j) <= MAX_MULT {
      CountBounds(t, n, into[p].node, j);
    }
    hide Simple;
    forall i, j
      ensures Count(t2, i, j) ==
              if i == j then Count(t, i, j) else Clamp(Count(t, i, j) + LegWeight(into[..p + 1], i) * LegWeight(out, j))
    {
      assert Count(t1, i, j) ==
             if i == j then Count(t, i, j) else Clamp(Count(t, i, j) + LegWeight(into[..p], i) * LegWeight(out, j));
    }
  }

  /** The rows of earlier legs leave the row of a later one alone. */
  lemma RowUntouched(t: seq<Arrow>, t1: seq<Arrow>, into: seq<Leg>, out: seq<Leg>, n: nat, k: nat, p: nat)
    requires Simple(t, n) && GoodLegs(into, n, k) && p < |into| && Composed(t, t1, into[..p], out)
    ensures NewFrom(t1, into[p].node, out) == NewFrom(t, into[p].node, out)
  {
    LegNone(into[..p], into[p].node);
    forall j ensures Count(t1, into[p].node, j) == Count(t, into[p].node, j) {
      CountBounds(t, n, into[p].node, j);
    }
    NewFromSame(t, t1, into[p].node, out);
  }

  class ResourceQuiver {
    const n: nat
    const arrows: array<Arrow>
    const x: array<nat>
    var eLen: nat
    var mutations: nat

    ghost predicate Shape()
      reads this
    {
      n <= MAX_N && arrows.Length == MAX_E && x.Length == MAX_N && eLen <= MAX_E
    }

    ghost function Table(): seq<Arrow>
      reads this, arrows
      requires Shape()
    {
      arrows[..eLen]
    }

    /** No loops and no parallel arrows, and every cluster value is a positive 32-bit number. */
    ghost predicate Valid()
      reads this, arrows, x
    {
      && Shape() && Simple(Table(), n)
      && forall i :: 0 <= i < MAX_N ==> 0 < x[i] <= U32_MAX
    }

    constructor (n: nat)
      ensures Valid() && Table() == [] && this.n == if n < MAX_N then n else MAX_N
      ensures x[..] == seq(MAX_N, _ => FP_ONE) && mutations == 0
      ensures fresh(arrows) && fresh(x)
    {
      this.n := if n < MAX_N then n else MAX_N;
      arrows := new Arrow[MAX_E](_ => EMPTY);
      x := new nat[MAX_N](_ => FP_ONE);
      eLen, mutations := 0, 0;
    }

    method AddArrowRaw(from: nat, to: nat, mult: nat) returns (ok: bool)
      requires Valid() && from < n && to < n && mult <= MAX_MULT
      modifies this`eLen, arrows
      ensures Valid()
      ensures ok <==> mult == 0 || from == to || Count(old(Table()), from, to) > 0 || Room(old(Table())) > 0
      ensures ok ==> Added(old(Table()), Table(), from, to, mult)
      ensures ok ==>
                Seated(old(Table()), Table(), from, to, mult > 0 && from != to && Count(old(Table()), from, to) == 0)
      ensures ok && mult > 0 && from != to && (forall p :: 0 <= p < old(eLen) ==> Taken(old(Table())[p], from, to)) ==>
                Table() == old(Table()) + [Arrow(true, from, to, mult)]
      ensures !ok ==> Table() == old(Table())
    {
      hide Simple;
      hide Added;
      hide Tally;
      hide Seated;
      hide Count;
      ghost var t := Table();
      if mult == 0 || from == to {
        AddNothing(t, n, from, to, mult);
        SeatedNone(t, from, to);
        return true;
      }
      var p := 0;
      while p < eLen
        invariant 0 <= p <= eLen && Table() == t
        invariant forall q :: 0 <= q < p ==> !Joins(t[q], from, to)
      {
        if arrows[p].live && arrows[p].from == from && arrows[p].to == to {
          AddToArrow(t, n, p, mult);
          SeatedUpdate(t, p, t[p].(mult := Clamp(t[p].mult + mult)));
          arrows[p] := arrows[p].(mult := Clamp(arrows[p].mult + mult));
          assert Table() == t[p := t[p].(mult := Clamp(t[p].mult + mult))];
          assert !Taken(t[p], from, to);
          return true;
        }
        p := p + 1;
      }
      NotJoined(t, from, to);
      p := 0;
      while p < eLen
        invariant 0 <= p <= eLen && Table() == t
        invariant forall q :: 0 <= q < p ==> t[q].live
      {
        if !arrows[p].live {
          AddInSlot(t, n, p, from, to, mult);
          SeatedUpdate(t, p, Arrow(true, from, to, mult));
          arrows[p] := Arrow(true, from, to, mult);
          assert Table() == t[p := Arrow(true, from, to, mult)];
          TallyBound(t, -1);
          assert !Taken(t[p], from, to);
          return true;
        }
        p := p + 1;
      }
      TallyBound(t, -1);
      if eLen >= MAX_E {
        return false;
      }
      AddAtEnd(t, n, from, to, mult);
      SeatedAppend(t, Arrow(true, from, to, mult));
      arrows[eLen] := Arrow(true, from, to, mult);
      eLen := eLen + 1;
      assert Table() == t + [Arrow(true, from, to, mult)];
      return true;
    }

    method CancelTwoCycles()
      requires Valid()
      modifies arrows
      ensures Valid() && Tidy(Table(), n) && SameMatrix(old(Table()), Table())
      ensures NoTwoCycles(old(Table())) ==> Table() == old(Table())
    {
      hide Count;
      hide Simple;
      var i := 0;
      while i < eLen
        invariant 0 <= i <= eLen && Valid() && SameMatrix(old(Table()), Table())
        invariant NoTwoCycles(old(Table())) ==> Table() == old(Table())
        invariant forall p, q :: 0 <= p < i && 0 <= q < eLen ==> !Opposite(Table()[p], Table()[q])
      {
        if arrows[i].live {
          CancelAt(i);
        }
        i := i + 1;
      }
    }

    /** Cancels the arrow at i against the one arrow that runs against it, if any. */
    method CancelAt(i: nat)
      requires Valid() && i < eLen && arrows[i].live
      requires forall p, q :: 0 <= p < i && 0 <= q < eLen ==> !Opposite(Table()[p], Table()[q])
      modifies arrows
      ensures Valid() && SameMatrix(old(Table()), Table()) && Thinner(old(Table()), Table())
      ensures NoTwoCycles(old(Table())) ==> Table() == old(Table())
      ensures forall p, q :: 0 <= p <= i && 0 <= q < eLen ==> !Opposite(Table()[p], Table()[q])
    {
      ghost var t := Table();
      var a := arrows[i];
      var j := i + 1;
      while j < eLen
        invariant i < j <= eLen && Table() == t
        invariant forall q :: i <= q < j ==> !Opposite(a, t[q])
      {
        if arrows[j].live && a.from == arrows[j].to && a.to == arrows[j].from {
          var b := arrows[j];
          var m := if a.mult < b.mult then a.mult else b.mult;
          CancelPair(t, n, i, j);
          arrows[i] := Less(a, m);
          arrows[j] := Less(b, m);
          assert Table() == t[i := Less(a, m)][j := Less(b, m)];
          CancelDone(t, Table(), n, i, j);
          return;
        }
        j := j + 1;
      }
      assert forall q :: 0 <= q < i ==> !Opposite(t[q], a);
    }

    method AddArrow(from: nat, to: nat, mult: nat) returns (fault: Option<Fault>)
      requires Valid() && mult <= MAX_MULT
      modifies this`eLen, arrows
      ensures Valid()
      ensures fault == Some(BadNode) <==> from >= n || to >= n
      ensures fault == Some(Loop) <==> from < n && to < n && from == to
      ensures fault.Some? ==> fault.value.BadNode? || fault.value.Loop? || fault.value.Dim?
      ensures fault.Some? ==> Table() == old(Table())
      ensures fault == Some(Dim) <==>
                && from < n && to < n && from != to && mult > 0 && Count(old(Table()), from, to) == 0
                && Room(old(Table())) == 0
      ensures fault.None? ==> Tidy(Table(), n)
      ensures fault.None? ==> forall i, j :: Signed(Table(), i, j) == SignedAfter(old(Table()), from, to, mult, i, j)
      ensures fault.None? && mult > 0 && (forall p :: 0 <= p < old(eLen) ==> Taken(old(Table())[p], from, to)) ==>
                var t' := old(Table()) + [Arrow(true, from, to, mult)];
                NoTwoCycles(t') ==> Table() == t'
    {
      hide Count;
      hide Simple;
      hide NoTwoCycles;
      hide Added;
      hide Seated;
      hide Tally;
      hide Taken;
      hide Signed;
      hide SignedAfter;
      hide SameMatrix;
      TallyBound(Table(), -1);
      if from >= n || to >= n { return Some(BadNode); }
      if from == to { return Some(Loop); }
      ghost var t := Table();
      var ok := AddArrowRaw(from, to, mult);
      if !ok { return Some(Dim); }
      ghost var t1 := Table();
      CancelTwoCycles();
      SignedAdded(t, t1, Table(), from, to, mult);
      return None;
    }

    /** The legs of the arrows into and out of k. */
    method CollectLegs(k: nat) returns (into: seq<Leg>, out: seq<Leg>)
      requires Valid() && k < n
      ensures GoodLegs(into, n, k) && GoodLegs(out, n, k) && |into| <= MAX_N && |out| <= MAX_N
      ensures forall i :: LegWeight(into, i) == Count(Table(), i, k)
      ensures forall j :: LegWeight(out, j) == Count(Table(), k, j)
      ensures |into| + |out| == Tally(Table(), k)
      ensures into == IntoLegs(Table(), k) && out == OutLegs(Table(), k)
    {
      hide Tally;
      hide Simple;
      hide Count;
      hide LegWeight;
      hide GoodLegs;
      hide LegsOf;
      into, out := [], [];
      var p := 0;
      while p < eLen
        invariant 0 <= p <= eLen && into == IntoLegs(Table()[..p], k) && out == OutLegs(Table()[..p], k)
      {
        ghost var t := Table();
        assert t[..p + 1][..p] == t[..p] && t[..p + 1][p] == t[p] == arrows[p];
        var a := arrows[p];
        if a.live {
          if a.to == k {
            into := into + [Leg(a.from, a.mult)];
          } else if a.from == k {
            out := out + [Leg(a.to, a.mult)];
          }
        }
        p := p + 1;
      }
      assert Table()[..p] == Table();
      LegsCollected(Table(), n, k);
      LegsFound(Table(), n, k, into, out);
    }

    /** Adds the composites of one incoming leg. */
    method ComposeFrom(leg: Leg, out: seq<Leg>, k: nat) returns (ok: bool)
      requires Valid() && GoodLegs(out, n, k) && leg.node < n && leg.node != k && 1 <= leg.mult <= MAX_MULT
      modifies this`eLen, arrows
      ensures Valid() && Tally(Table(), k) == Tally(old(Table()), k)
      ensures ok <==> |NewFrom(old(Table()), leg.node, out)| <= Room(old(Table()))
      ensures ok ==> ComposedFrom(old(Table()), Table(), leg, out)
      ensures ok ==> Filled(old(Table()), Table(), NewFrom(old(Table()), leg.node, out))
      ensures !ok ==> 0 <= Room(old(Table())) &&
                      Gained(old(Table()), Table(), NewFrom(old(Table()), leg.node, out)[..Room(old(Table()))])
    {
      hide Simple;
      hide Added;
      hide Count;
      hide LegWeight;
      hide GoodLegs;
      hide Tally;
      hide Room;
      hide Clamp;
      hide NewFrom;
      hide NewAmong;
      hide Gained;
      hide Filled;
      hide Composed;
      hide ComposedFrom;
      ghost var t := Table();
      ComposedFromNone(t, n, leg);
      FilledNone(t, leg.node, [], out);
      assert out[..0] == [];
      var jj := 0;
      while jj < |out|
        invariant 0 <= jj <= |out| && Valid() && Tally(Table(), k) == Tally(t, k)
        invariant Filled(t, Table(), NewFrom(t, leg.node, out[..jj])) && ComposedFrom(t, Table(), leg, out[..jj])
      {
        ghost var t1 := Table();
        var to := out[jj];
        LegBounds(out, n, k, jj);
        if leg.node != to.node {
          var m := Clamp(leg.mult * to.mult);
          CompositeBounds(leg.mult, to.mult);
          SameCell(t, t1, n, leg, out, k, jj);
          ok := AddArrowRaw(leg.node, to.node, m);
          if !ok {
            RowCut(t, t1, leg.node, out, jj);
            return;
          }
          FilledStep(t, t1, Table(), n, leg.node, out, jj, m);
        } else {
          FilledSkip(t, t1, leg.node, out, jj);
        }
        ComposedFromNext(t, t1, Table(), leg, out, n, k, jj);
        jj := jj + 1;
      }
      assert out[..jj] == out;
      FilledFits(t, Table(), n, NewFrom(t, leg.node, out));
      return true;
    }

    method Compose(into: seq<Leg>, out: seq<Leg>, k: nat) returns (ok: bool)
      requires Valid() && GoodLegs(into, n, k) && GoodLegs(out, n, k)
      modifies this`eLen, arrows
      ensures Valid() && Tally(Table(), k) == Tally(old(Table()), k)
      ensures ok <==> |NewAmong(old(Table()), into, out)| <= Room(old(Table()))
      ensures ok ==> Composed(old(Table()), Table(), into, out)
      ensures !ok ==> 0 <= Room(old(Table())) &&
                      Gained(old(Table()), Table(), NewAmong(old(Table()), into, out)[..Room(old(Table()))])
    {
      hide Simple;
      hide Added;
      hide Seated;
      hide Count;
      hide LegWeight;
      hide GoodLegs;
      hide Tally;
      hide Room;
      hide Clamp;
      hide NewFrom;
      hide NewAmong;
      hide Gained;
      hide Filled;
      hide Composed;
      hide ComposedFrom;
      ghost var t := Table();
      ComposedNone(t, n, out);
      FilledNone(t, 0, into, out);
      assert into[..0] == [];
      var ii := 0;
      while ii < |into|
        invariant 0 <= ii <= |into| && Valid() && Tally(Table(), k) == Tally(t, k)
        invariant Filled(t, Table(), NewAmong(t, into[..ii], out)) && Composed(t, Table(), into[..ii], out)
      {
        ghost var t1 := Table();
        RowUntouched(t, t1, into, out, n, k, ii);
        LegBounds(into, n, k, ii);
        ok := ComposeFrom(into[ii], out, k);
        if !ok {
          TableCut(t, t1, Table(), into, out, ii);
          return;
        }
        FilledRow(t, t1, Table(), into, out, ii);
        ComposedNext(t, t1, Table(), into, out, n, k, ii);
        ii := ii + 1;
      }
      assert into[..ii] == into;
      FilledFits(t, Table(), n, NewAmong(t, into, out));
      return true;
    }

    /** Drops every arrow at k. */
    method Detach(k: nat)
      requires Valid()
      modifies arrows
      ensures Valid() && Detached(old(Table()), Table(), k)
      ensures Tally(Table(), -1) == Tally(old(Table()), -1) - Tally(old(Table()), k)
    {
      ghost var t := Table();
      var p := 0;
      while p < eLen
        invariant 0 <= p <= eLen && |Table()| == |t|
        invariant forall q :: 0 <= q < eLen ==> Table()[q] == if q < p then Unhooked(t[q], k) else t[q]
        invariant forall i :: 0 <= i < MAX_N ==> 0 < x[i] <= U32_MAX
      {
        if arrows[p].live && (arrows[p].from == k || arrows[p].to == k) {
          arrows[p] := arrows[p].(live := false);
        }
        p := p + 1;
      }
      UnhookedTable(t, Table(), n, k);
    }

    /** Puts the legs back the other way round: out of k when they came in, into k when they went out. */
    method Reattach(legs: seq<Leg>, k: nat, outward: bool) returns (ok: bool)
      requires Valid() && GoodLegs(legs, n, k) && k < n && Tally(Table(), -1) + |legs| <= MAX_E
      modifies this`eLen, arrows
      ensures Valid() && ok && Tally(Table(), -1) <= Tally(old(Table()), -1) + |legs|
      ensures (forall j :: CountAt(old(Table()), k, j, outward) == 0) ==>
                Hooked(old(Table()), Table(), k, legs, outward)
    {
      hide Simple;
      hide Added;
      hide Count;
      hide LegWeight;
      ghost var t := Table();
      ghost var clear_ := forall j :: CountAt(t, k, j, outward) == 0;
      HookedNone(t, k, outward);
      hide Tally;
      var ii := 0;
      while ii < |legs|
        invariant 0 <= ii <= |legs| && Valid() && Tally(Table(), -1) <= Tally(t, -1) + ii
        invariant clear_ ==> Hooked(t, Table(), k, legs[..ii], outward)
      {
        ghost var t1 := Table();
        var leg := legs[ii];
        if outward {
          ok := AddArrowRaw(k, leg.node, leg.mult);
        } else {
          ok := AddArrowRaw(leg.node, k, leg.mult);
        }
        if !ok { return; }
        if clear_ { HookedNext(t, t1, Table(), n, k, legs, outward, ii); }
        ii := ii + 1;
      }
      assert legs[..ii] == legs;
      return true;
    }

    method ProductAt(k: nat, inward: bool) returns (r: Option<nat>)
      requires Valid()
      ensures r == match Product(Table(), x[..], k, inward) case None => None case Some(acc) => Some(Low32(acc))
    {
      var acc := FP_ONE;
      var p := 0;
      while p < eLen
        invariant 0 <= p <= eLen && Product(Table()[..p], x[..], k, inward) == Some(acc)
      {
        ghost var t := Table();
        assert t[..p + 1][..p] == t[..p];
        var a := arrows[p];
        assert a == t[p];
        var near, far := if inward then a.to else a.from, if inward then a.from else a.to;
        if a.live && near == k {
          ghost var start := acc;
          var c := 0;
          while c < a.mult
            invariant 0 <= c <= a.mult && Scaled(start, x[far], c) == Some(acc)
          {
            if acc * x[far] > U64_MAX {
              ScaledStuck(start, x[far], c, a.mult);
              ProductStuck(t, x[..], k, inward, p + 1);
              return None;
            }
            acc := acc * x[far] / FP_ONE;
            c := c + 1;
          }
        }
        p := p + 1;
      }
      assert Table()[..p] == Table();
      return Some(Low32(acc));
    }

    /** The five phases of a mutation on the arrow table. */
    method MutateArrows(k: nat) returns (ok: bool)
      requires Valid() && k < n
      modifies this`eLen, arrows
      ensures Valid()
      ensures ok <==> |NewPairs(old(Table()), k)| <= Room(old(Table()))
      ensures ok ==> Tidy(Table(), n)
      ensures ok ==> ClampsTo(old(Table()), k, Table())
      ensures !ok ==>
                && 0 <= Room(old(Table()))
                && Gained(old(Table()), Table(), NewPairs(old(Table()), k)[..Room(old(Table()))])
    {
      hide Tally;
      hide Gained;
      hide NewAmong;
      hide Room;
      hide IntoLegs;
      hide OutLegs;
      hide Simple;
      hide NoTwoCycles;
      hide Count;
      hide LegWeight;
      hide Composed;
      hide Detached;
      hide Hooked;
      hide CountAt;
      hide SameMatrix;
      hide ClampsTo;
      ghost var t0 := Table();
      var into, out := CollectLegs(k);
      ok := Compose(into, out, k);
      if !ok { return; }
      ghost var t1 := Table();
      TallyBound(t1, k);
      Detach(k);
      ghost var t2 := Table();
      DetachedClear(t1, t2, k);
      ok := Reattach(into, k, true);
      if !ok { return; }
      ghost var t3 := Table();
      InwardClear(t1, t2, t3, n, k, into);
      ok := Reattach(out, k, false);
      if !ok { return; }
      ghost var t4 := Table();
      CancelTwoCycles();
      MutationComputed(t0, t1, t2, t3, t4, Table(), n, k, into, out);
    }

    method Mutate(k: nat) returns (fault: Option<Fault>)
      requires Valid()
      modifies this`eLen, this`mutations, arrows, x
      ensures Valid()
      ensures fault == Some(BadNode) <==> k >= n
      ensures fault.Some? && fault != Some(Dim) ==> Table() == old(Table())
      ensures fault == Some(Overflow) <==> k < n && NextValue(old(Table()), old(x[..]), k).None?
      ensures fault == Some(ZeroCluster) <==> k < n && NextValue(old(Table()), old(x[..]), k) == Some(0)
      ensures fault == Some(Dim) <==>
                && k < n && NextValue(old(Table()), old(x[..]), k).Some?
                && NextValue(old(Table()), old(x[..]), k) != Some(0)
                && |NewPairs(old(Table()), k)| > Room(old(Table()))
      ensures fault == Some(Dim) ==>
                && 0 <= Room(old(Table()))
                && Gained(old(Table()), Table(), NewPairs(old(Table()), k)[..Room(old(Table()))])
      ensures fault == Some(Dim) && Tidy(old(Table()), n) ==>
                (NoTwoCycles(Table()) <==> forall p :: 0 <= p < Room(old(Table())) ==>
                                                         !Against(old(Table()), NewPairs(old(Table()), k)[p]))
      ensures fault.Some? ==> x[..] == old(x[..]) && mutations == old(mutations)
      ensures fault.None? ==> mutations == if old(mutations) < U32_MAX then old(mutations) + 1 else old(mutations)
      ensures fault.None? ==> Tidy(Table(), n) && k < n && NextValue(old(Table()), old(x[..]), k).Some?
      ensures fault.None? ==> ClampsTo(old(Table()), k, Table())
      ensures fault.None? && Tidy(old(Table()), n) ==> (MutatesTo(old(Table()), k, Table()) <==> Fits(old(Table()), k))
      ensures fault.None? ==> x[..] == old(x[..])[k := NextValue(old(Table()), old(x[..]), k).value]
    {
      hide Simple;
      hide Count;
      hide Product;
      hide Gained;
      hide NewPairs;
      hide ClampsTo;
      hide MutatesTo;
      hide Fits;
      if k >= n { return Some(BadNode); }
      if x[k] == 0 { return Some(ZeroCluster); }
      var pIn := ProductAt(k, true);
      if pIn.None? { return Some(Overflow); }
      var pOut := ProductAt(k, false);
      if pOut.None? { return Some(Overflow); }
      var xp := Exchanged(pIn.value, pOut.value, x[k]);
      if xp == 0 { return Some(ZeroCluster); }
      ghost var t := Table();
      var ok := MutateArrows(k);
      if !ok {
        if Tidy(t, n) { TwoCycleExactly(t, Table(), n, k, Room(t)); }
        return Some(Dim);
      }
      if Tidy(t, n) { MutatesExactly(t, Table(), n, k); }
      x[k] := xp;
      mutations := if mutations < U32_MAX then mutations + 1 else mutations;
      return None;
    }
  }

  /** Two mutations at one node that both succeed give back every arrow exactly when the first clamps none. */
  method MutateTwice(q: ResourceQuiver, k: nat) returns (done: bool)
    requires q.Valid()
    modifies q, q.arrows, q.x
    ensures q.Valid()
    ensures done && Tidy(old(q.Table()), q.n) ==>
              ((forall i, j :: Count(q.Table(), i, j) == Count(old(q.Table()), i, j)) <==>
                 Reversible(old(q.Table()), k))
  {
    hide Tidy;
    hide Fits;
    hide Count;
    hide MutatesTo;
    hide ClampsTo;
    hide Reversible;
    hide NextValue;
    ghost var t := q.Table();
    var fault := q.Mutate(k);
    if fault.Some? { return false; }
    ghost var t' := q.Table();
    fault := q.Mutate(k);
    if fault.Some? { return false; }
    if Tidy(t, q.n) {
      TwiceExactly(t, t', q.Table(), q.n, k);
    }
    return true;
  }

  // ---- a mutation that leaves a 2-cycle ----------------------------------

  /** Arrows on 16 nodes: a triangle 1 -> 0 -> 2 -> 1, one more arrow out of 0, and others that keep away from 0. */
  function CrowdedArrow(e: nat): Arrow {
    if e == 0 then Arrow(true, 1, 0, 1)
    else if e == 1 then Arrow(true, 0, 2, 1)
    else if e == 2 then Arrow(true, 2, 1, 1)
    else if e == 3 then Arrow(true, 0, 3, 1)
    else if e < 7 then Arrow(true, 4, e + 1, 1)
    else Arrow(true, 8 + (e - 7) / 7, 1 + (e - 7) % 7, 1)
  }

  function Crowded(m: nat): seq<Arrow> {
    seq(m, e requires e >= 0 => CrowdedArrow(e))
  }

  const CROWD: nat := MAX_E - 1

  lemma CrowdedTidy(m: nat)
    requires m <= CROWD
    ensures Tidy(Crowded(m), MAX_N)
  {
    hide CrowdedArrow;
    var t := Crowded(m);
    forall p, q | 0 <= p < m && 0 <= q < m
      ensures !Opposite(t[p], t[q]) && (p < q ==> t[p].from != t[q].from || t[p].to != t[q].to)
      ensures t[p].from < MAX_N && t[p].to < MAX_N && t[p].from != t[p].to && t[p].mult == 1
    {
      CrowdedApart(p, q);
    }
  }

  lemma CrowdedApart(p: nat, q: nat)
    requires p < CROWD && q < CROWD
    ensures var a, b := CrowdedArrow(p), CrowdedArrow(q);
            && a.from < MAX_N && a.to < MAX_N && a.from != a.to && a.mult == 1 && !Opposite(a, b)
            && (p < q ==> a.from != b.from || a.to != b.to)
  {
  }

  lemma {:induction false} CrowdedLegs(m: nat)
    requires 4 <= m <= CROWD
    ensures IntoLegs(Crowded(m), 0) == [Leg(1, 1)] && OutLegs(Crowded(m), 0) == [Leg(2, 1), Leg(3, 1)]
    ensures Tally(Crowded(m), -1) == m
  {
    TallyBound(Crowded(m), -1);
    if m == 4 {
      var t := [Arrow(true, 1, 0, 1), Arrow(true, 0, 2, 1), Arrow(true, 2, 1, 1), Arrow(true, 0, 3, 1)];
      assert Crowded(4) == t;
      assert t[..3][..2] == t[..2] && t[..2][..1] == t[..1];
      assert IntoLegs(t[..1], 0) == [Leg(1, 1)] && OutLegs(t[..1], 0) == [];
      assert IntoLegs(t[..2], 0) == [Leg(1, 1)] && OutLegs(t[..2], 0) == [Leg(2, 1)];
      assert IntoLegs(t[..3], 0) == [Leg(1, 1)] && OutLegs(t[..3], 0) == [Leg(2, 1)];
    } else {
      CrowdedLegs(m - 1);
      assert Crowded(m)[..m - 1] == Crowded(m - 1);
      assert Crowded(m)[m - 1] == CrowdedArrow(m - 1);
    }
  }

  /** The mutation at 0 has two arrows to add, room for one, and the first runs against 2 -> 1. */
  lemma CrowdedPairs()
    ensures && NewPairs(Crowded(CROWD), 0) == [(1, 2), (1, 3)] && Room(Crowded(CROWD)) == 1
            && Count(Crowded(CROWD), 2, 1) > 0
  {
    var t := Crowded(CROWD);
    CrowdedTidy(CROWD);
    CrowdedLegs(CROWD);
    CrowdedCount(t);
    hide Count;
    hide Tally;
    var into, out := [Leg(1, 1)], [Leg(2, 1), Leg(3, 1)];
    assert out[..1] == [Leg(2, 1)] && out[..1][..0] == [] && into[..0] == [];
    assert NewFrom(t, 1, []) == [];
    assert NewFrom(t, 1, out[..1]) == [(1, 2)];
    assert NewFrom(t, 1, out) == [(1, 2), (1, 3)];
    assert NewAmong(t, into, out) == NewAmong(t, into[..0], out) + NewFrom(t, 1, out);
  }

  lemma CrowdedCount(t: seq<Arrow>)
    requires t == Crowded(CROWD) && Tidy(t, MAX_N)
    ensures Count(t, 2, 1) == 1 && Count(t, 1, 2) == 0 && Count(t, 1, 3) == 0
  {
    assert t[2] == Arrow(true, 2, 1, 1);
    CountOne(t, MAX_N, 2);
    forall p | 0 <= p < |t| ensures Weight(t[p], 1, 2) == 0 && Weight(t[p], 1, 3) == 0 {
      assert t[p] == CrowdedArrow(p);
    }
    CountNone(t, 1, 2);
    CountNone(t, 1, 3);
  }

  lemma {:induction false} ScaledOne(times: nat)
    ensures Scaled(FP_ONE, FP_ONE, times) == Some(FP_ONE)
  {
    if times > 0 { ScaledOne(times - 1); }
  }

  /** With unit cluster values every product is one. */
  lemma {:induction false} ProductOne(t: seq<Arrow>, n: nat, x: seq<nat>, k: nat, inward: bool)
    requires Simple(t, n) && n <= |x| && forall i :: 0 <= i < |x| ==> x[i] == FP_ONE
    ensures Product(t, x, k, inward) == Some(FP_ONE)
  {
    if t != [] {
      var last := |t| - 1;
      ProductOne(t[..last], n, x, k, inward);
      ScaledOne(t[last].mult);
      assert t[last].live ==> x[t[last].from] == FP_ONE && x[t[last].to] == FP_ONE;
    }
  }

  /** A tidy quiver on which a mutation runs out of room and leaves a 2-cycle. */
  method LeaveTwoCycle() returns (q: ResourceQuiver, fault: Option<Fault>, ghost before: seq<Arrow>)
    ensures fresh(q) && q.Valid() && Tidy(before, q.n)
    ensures fault == Some(Dim) && Gained(before, q.Table(), [(1, 2)]) && !NoTwoCycles(q.Table())
  {
    hide Tidy;
    hide Simple;
    hide Count;
    hide Gained;
    hide Product;
    hide Tally;
    hide Crowded;
    hide CrowdedArrow;
    hide NewPairs;
    hide Fits;
    hide MutatesTo;
    hide ClampsTo;
    hide Signed;
    q := new ResourceQuiver(MAX_N);
    CrowdedStart();
    var e := 0;
    while e < CROWD
      invariant 0 <= e <= CROWD && q.Valid() && q.n == MAX_N && q.Table() == Crowded(e)
      invariant q.x[..] == seq(MAX_N, _ => FP_ONE)
      invariant fresh(q) && fresh(q.arrows) && fresh(q.x)
    {
      CrowdedNext(e);
      var a := CrowdedArrow(e);
      fault := q.AddArrow(a.from, a.to, a.mult);
      e := e + 1;
    }
    before := q.Table();
    CrowdedTidy(CROWD);
    CrowdedPairs();
    ProductOne(before, q.n, q.x[..], 0, true);
    ProductOne(before, q.n, q.x[..], 0, false);
    fault := q.Mutate(0);
    assert NewPairs(before, 0)[0] == (1, 2) && NewPairs(before, 0)[..1] == [(1, 2)];
  }

  lemma CrowdedStart()
    ensures Crowded(0) == []
  {
  }

  /** The next arrow finds an entry of its own at the end. */
  lemma CrowdedNext(e: nat)
    requires e < CROWD
    ensures var a := CrowdedArrow(e);
            && a.from < MAX_N && a.to < MAX_N && a.from != a.to && a.mult == 1 && Room(Crowded(e)) > 0
            && (forall p :: 0 <= p < |Crowded(e)| ==> Taken(Crowded(e)[p], a.from, a.to))
            && Crowded(e) + [Arrow(true, a.from, a.to, a.mult)] == Crowded(e + 1) && NoTwoCycles(Crowded(e + 1))
  {
    CrowdedTidy(e + 1);
    TallyBound(Crowded(e), -1);
  }

  // ---- the phases of a mutation ------------------------------------------

  ghost predicate LegsOf(t: seq<Arrow>, n: nat, k: nat, into: seq<Leg>, out: seq<Leg>) {
    && GoodLegs(into, n, k) && GoodLegs(out, n, k)
    && (forall i :: LegWeight(into, i) == Count(t, i, k))
    && (forall j :: LegWeight(out, j) == Count(t, k, j))
    && |into| + |out| == Tally(t, k)
  }

  lemma LegsFound(t: seq<Arrow>, n: nat, k: nat, into: seq<Leg>, out: seq<Leg>)
    requires LegsOf(t, n, k, into, out)
    ensures GoodLegs(into, n, k) && GoodLegs(out, n, k) && |into| <= n && |out| <= n
    ensures forall i :: LegWeight(into, i) == Count(t, i, k)
    ensures forall j :: LegWeight(out, j) == Count(t, k, j)
    ensures |into| + |out| == Tally(t, k)
  {
    FewLegs(into, n);
    FewLegs(out, n);
  }

  lemma SimplePrefix(t: seq<Arrow>, n: nat, p: nat)
    requires Simple(t, n) && p <= |t|
    ensures Simple(t[..p], n)
  {
  }

  lemma LegAppend(legs: seq<Leg>, leg: Leg, i: int)
    ensures LegWeight(legs + [leg], i) == LegWeight(legs, i) + if leg.node == i then leg.mult else 0
  {
    assert (legs + [leg])[..|legs|] == legs;
  }

  /** One more leg for the count f, of which the last arrow adds the weight of the leg. */
  lemma ExtendLegs(legs: seq<Leg>, n: nat, k: nat, leg: Leg)
    requires && GoodLegs(legs, n, k) && leg.node < n && leg.node != k && 1 <= leg.mult <= MAX_MULT
             && LegWeight(legs, leg.node) == 0
    ensures GoodLegs(legs + [leg], n, k)
    ensures forall i :: LegWeight(legs + [leg], i) == LegWeight(legs, i) + if leg.node == i then leg.mult else 0
  {
    FreshLeg(legs, n, k, leg.node);
    forall i ensures LegWeight(legs + [leg], i) == LegWeight(legs, i) + if leg.node == i then leg.mult else 0 {
      LegAppend(legs, leg, i);
    }
  }

  lemma LastArrow(t: seq<Arrow>)
    requires t != []
    ensures forall i, j :: Count(t, i, j) == Count(t[..|t| - 1], i, j) + Weight(t[|t| - 1], i, j)
  {
  }

  lemma LastArrowFresh(t: seq<Arrow>, n: nat)
    requires t != [] && Simple(t, n) && t[|t| - 1].live
    ensures Count(t[..|t| - 1], t[|t| - 1].from, t[|t| - 1].to) == 0
    ensures var a := t[|t| - 1]; a.from < n && a.to < n && a.from != a.to && 1 <= a.mult <= MAX_MULT
  {
    CountNone(t[..|t| - 1], t[|t| - 1].from, t[|t| - 1].to);
  }

  /** Collecting the last arrow of a table. */
  lemma NextLeg(t: seq<Arrow>, n: nat, k: nat, into: seq<Leg>, out: seq<Leg>)
    requires t != [] && Simple(t, n) && k < n && LegsOf(t[..|t| - 1], n, k, into, out)
    ensures var a := t[|t| - 1];
            if a.live && a.to == k then LegsOf(t, n, k, into + [Leg(a.from, a.mult)], out)
            else if a.live && a.from == k then LegsOf(t, n, k, into, out + [Leg(a.to, a.mult)])
            else LegsOf(t, n, k, into, out)
  {
    var e := |t| - 1;
    var a := t[e];
    hide Simple;
    hide Count;
    hide LegWeight;
    hide GoodLegs;
    LastArrow(t);
    if a.live && a.to == k {
      LastArrowFresh(t, n);
      ExtendLegs(into, n, k, Leg(a.from, a.mult));
    } else if a.live && a.from == k {
      LastArrowFresh(t, n);
      ExtendLegs(out, n, k, Leg(a.to, a.mult));
    }
  }

  /** The collected legs are good, and carry the arrows at k. */
  lemma {:induction false} LegsCollected(t: seq<Arrow>, n: nat, k: nat)
    requires Simple(t, n) && k < n
    ensures LegsOf(t, n, k, IntoLegs(t, k), OutLegs(t, k))
  {
    if t != [] {
      SimplePrefix(t, n, |t| - 1);
      LegsCollected(t[..|t| - 1], n, k);
      NextLeg(t, n, k, IntoLegs(t[..|t| - 1], k), OutLegs(t[..|t| - 1], k));
    }
  }

  lemma FreshLeg(legs: seq<Leg>, n: nat, k: nat, node: nat)
    requires GoodLegs(legs, n, k) && LegWeight(legs, node) == 0
    ensures forall p :: 0 <= p < |legs| ==> legs[p].node != node
  {
    forall p | 0 <= p < |legs| ensures legs[p].node != node {
      LegOne(legs, n, k, p);
    }
  }

  lemma ComposedFromNone(t: seq<Arrow>, n: nat, leg: Leg)
    requires Simple(t, n)
    ensures ComposedFrom(t, t, leg, [])
  {
    forall j ensures Count(t, leg.node, j) <= MAX_MULT && LegWeight([], j) == 0 {
      CountBounds(t, n, leg.node, j);
    }
  }

  lemma ComposedNone(t: seq<Arrow>, n: nat, out: seq<Leg>)
    requires Simple(t, n)
    ensures Composed(t, t, [], out)
  {
    forall i, j ensures Count(t, i, j) == Clamp(Count(t, i, j) + LegWeight([], i) * LegWeight(out, j)) {
      CountBounds(t, n, i, j);
    }
  }

  /** t' gained an arrow for each pair added, each in an entry of its own. */
  ghost predicate Filled(t: seq<Arrow>, t': seq<Arrow>, added: seq<(nat, nat)>) {
    Gained(t, t', added) && Tally(t', -1) == Tally(t, -1) + |added|
  }

  lemma FilledNone(t: seq<Arrow>, i: nat, into: seq<Leg>, out: seq<Leg>)
    ensures Filled(t, t, NewFrom(t, i, out[..0])) && Filled(t, t, NewAmong(t, into[..0], out))
  {
  }

  lemma LegBounds(legs: seq<Leg>, n: nat, k: nat, p: nat)
    requires GoodLegs(legs, n, k) && p < |legs|
    ensures legs[p].node < n && legs[p].node != k && 1 <= legs[p].mult <= MAX_MULT
  {
  }

  lemma CompositeBounds(a: nat, b: nat)
    requires a > 0 && b > 0
    ensures 0 < Clamp(a * b) <= MAX_MULT
  {
  }

  /** The next pair of a row has the arrows it had at the start. */
  lemma SameCell(t: seq<Arrow>, t1: seq<Arrow>, n: nat, leg: Leg, out: seq<Leg>, k: nat, p: nat)
    requires Simple(t, n) && GoodLegs(out, n, k) && p < |out| && ComposedFrom(t, t1, leg, out[..p])
    ensures Count(t1, leg.node, out[p].node) == Count(t, leg.node, out[p].node)
  {
    LegNone(out[..p], out[p].node);
    CountBounds(t, n, leg.node, out[p].node);
  }

  /** A row that stops at a new pair with no room left. */
  lemma RowCut(t: seq<Arrow>, t1: seq<Arrow>, i: nat, out: seq<Leg>, p: nat)
    requires p < |out| && i != out[p].node && Count(t, i, out[p].node) == 0
    requires Filled(t, t1, NewFrom(t, i, out[..p])) && Room(t1) <= 0 && |t1| <= MAX_E
    ensures 0 <= Room(t) < |NewFrom(t, i, out)| && Gained(t, t1, NewFrom(t, i, out)[..Room(t)])
  {
    TallyBound(t1, -1);
    NewFromNext(t, i, out, p);
    NewFromPrefix(t, i, out, p + 1);
    assert NewFrom(t, i, out)[..Room(t)] == NewFrom(t, i, out[..p]);
  }

  lemma FilledStep(t: seq<Arrow>, t1: seq<Arrow>, t2: seq<Arrow>, n: nat, i: nat, out: seq<Leg>, p: nat, m: nat)
    requires p < |out| && i != out[p].node && m > 0 && Simple(t1, n) && Filled(t, t1, NewFrom(t, i, out[..p]))
    requires Count(t1, i, out[p].node) == Count(t, i, out[p].node)
    requires Added(t1, t2, i, out[p].node, m) && Seated(t1, t2, i, out[p].node, Count(t1, i, out[p].node) == 0)
    ensures Filled(t, t2, NewFrom(t, i, out[..p + 1]))
  {
    hide Count;
    hide Simple;
    hide Tally;
    hide Added;
    hide Gained;
    hide NewFrom;
    NewFromNext(t, i, out, p);
    GainedStep(t1, t2, n, i, out[p].node, m);
    GainedChain(t, t1, t2, NewFrom(t, i, out[..p]), if Count(t1, i, out[p].node) == 0 then [(i, out[p].node)] else []);
  }

  lemma FilledSkip(t: seq<Arrow>, t1: seq<Arrow>, i: nat, out: seq<Leg>, p: nat)
    requires p < |out| && i == out[p].node && Filled(t, t1, NewFrom(t, i, out[..p]))
    ensures Filled(t, t1, NewFrom(t, i, out[..p + 1]))
  {
    NewFromNext(t, i, out, p);
    assert NewFrom(t, i, out[..p + 1]) == NewFrom(t, i, out[..p]);
  }

  lemma FilledFits(t: seq<Arrow>, t': seq<Arrow>, n: nat, added: seq<(nat, nat)>)
    requires Filled(t, t', added) && |t'| <= MAX_E
    ensures |added| <= Room(t)
  {
    TallyBound(t', -1);
  }

  lemma FilledRow(t: seq<Arrow>, t1: seq<Arrow>, t2: seq<Arrow>, into: seq<Leg>, out: seq<Leg>, p: nat)
    requires p < |into| && Filled(t, t1, NewAmong(t, into[..p], out))
    requires Filled(t1, t2, NewFrom(t, into[p].node, out))
    ensures Filled(t, t2, NewAmong(t, into[..p + 1], out))
  {
    NewAmongNext(t, into, out, p);
    GainedChain(t, t1, t2, NewAmong(t, into[..p], out), NewFrom(t, into[p].node, out));
  }

  /** A row that stops ends the whole composition there. */
  lemma TableCut(t: seq<Arrow>, t1: seq<Arrow>, t2: seq<Arrow>, into: seq<Leg>, out: seq<Leg>, p: nat)
    requires p < |into| && Filled(t, t1, NewAmong(t, into[..p], out))
    requires && 0 <= Room(t1) < |NewFrom(t, into[p].node, out)|
             && Gained(t1, t2, NewFrom(t, into[p].node, out)[..Room(t1)])
    ensures 0 <= Room(t) < |NewAmong(t, into, out)| && Gained(t, t2, NewAmong(t, into, out)[..Room(t)])
  {
    hide Gained;
    hide Tally;
    hide NewAmong;
    hide NewFrom;
    var before, row := NewAmong(t, into[..p], out), NewFrom(t, into[p].node, out);
    NewAmongNext(t, into, out, p);
    NewAmongPrefix(t, into, out, p + 1);
    GainedChain(t, t1, t2, before, row[..Room(t1)]);
    assert NewAmong(t, into, out)[..Room(t)] == before + row[..Room(t1)];
  }

  function Unhooked(a: Arrow, k: nat): Arrow {
    if a.live && (a.from == k || a.to == k) then a.(live := false) else a
  }

  /** t' is t without the arrows at k. */
  ghost predicate Detached(t: seq<Arrow>, t': seq<Arrow>, k: nat) {
    forall i, j :: Count(t', i, j) == if i == k || j == k then 0 else Count(t, i, j)
  }

  lemma {:induction false} UnhookedCount(t: seq<Arrow>, t': seq<Arrow>, k: nat, i: int, j: int)
    requires |t'| == |t| && forall q :: 0 <= q < |t| ==> t'[q] == Unhooked(t[q], k)
    ensures Count(t', i, j) == if i == k || j == k then 0 else Count(t, i, j)
  {
    if t != [] { UnhookedCount(t[..|t| - 1], t'[..|t| - 1], k, i, j); }
  }

  lemma {:induction false} UnhookedTally(t: seq<Arrow>, t': seq<Arrow>, k: nat)
    requires |t'| == |t| && forall q :: 0 <= q < |t| ==> t'[q] == Unhooked(t[q], k)
    ensures Tally(t', -1) == Tally(t, -1) - Tally(t, k)
  {
    if t != [] { UnhookedTally(t[..|t| - 1], t'[..|t| - 1], k); }
  }

  lemma UnhookedTable(t: seq<Arrow>, t': seq<Arrow>, n: nat, k: nat)
    requires Simple(t, n) && |t'| == |t| && forall q :: 0 <= q < |t| ==> t'[q] == Unhooked(t[q], k)
    ensures Simple(t', n) && Detached(t, t', k) && Tally(t', -1) == Tally(t, -1) - Tally(t, k)
  {
    UnhookedTally(t, t', k);
    forall i, j ensures Count(t', i, j) == if i == k || j == k then 0 else Count(t, i, j) {
      UnhookedCount(t, t', k, i, j);
    }
  }

  /** The arrows from k to j, or from j to k. */
  ghost function CountAt(t: seq<Arrow>, k: nat, j: int, outward: bool): nat {
    if outward then Count(t, k, j) else Count(t, j, k)
  }

  /** t' is t with the legs hung on k. */
  ghost predicate Hooked(t: seq<Arrow>, t': seq<Arrow>, k: nat, legs: seq<Leg>, outward: bool) {
    forall i, j :: Count(t', i, j) ==
                     Count(t, i, j) + if outward && i == k then LegWeight(legs, j)
                                      else if !outward && j == k then LegWeight(legs, i) else 0
  }

  lemma HookedNone(t: seq<Arrow>, k: nat, outward: bool)
    ensures Hooked(t, t, k, [], outward)
  {
    assert forall i :: LegWeight([], i) == 0;
  }

  lemma HookedNext(t: seq<Arrow>, t1: seq<Arrow>, t2: seq<Arrow>, n: nat, k: nat, legs: seq<Leg>, outward: bool, p: nat)
    requires GoodLegs(legs, n, k) && p < |legs| && Hooked(t, t1, k, legs[..p], outward)
    requires forall j :: CountAt(t, k, j, outward) == 0
    requires if outward then Added(t1, t2, k, legs[p].node, legs[p].mult)
             else Added(t1, t2, legs[p].node, k, legs[p].mult)
    ensures Hooked(t, t2, k, legs[..p + 1], outward)
  {
    var leg := legs[p];
    assert legs[..p + 1] == legs[..p] + [leg];
    LegNone(legs[..p], leg.node);
    assert CountAt(t, k, leg.node, outward) == 0;
    forall i ensures LegWeight(legs[..p + 1], i) == LegWeight(legs[..p], i) + if leg.node == i then leg.mult else 0 {
      LegAppend(legs[..p], leg, i);
    }
  }

  lemma DetachedClear(t: seq<Arrow>, t': seq<Arrow>, k: nat)
    requires Detached(t, t', k)
    ensures forall j :: CountAt(t', k, j, true) == 0
  {
  }

  /** Hanging legs out of k puts no arrow into it. */
  lemma InwardClear(t1: seq<Arrow>, t2: seq<Arrow>, t3: seq<Arrow>, n: nat, k: nat, legs: seq<Leg>)
    requires Detached(t1, t2, k) && GoodLegs(legs, n, k) && Hooked(t2, t3, k, legs, true)
    ensures forall j :: CountAt(t3, k, j, false) == 0
  {
    LegNone(legs, k);
  }

  lemma ComposedAt(t: seq<Arrow>, t': seq<Arrow>, into: seq<Leg>, out: seq<Leg>, i: int, j: int)
    requires Composed(t, t', into, out)
    ensures Count(t', i, j) ==
              if i == j then Count(t, i, j) else Clamp(Count(t, i, j) + LegWeight(into, i) * LegWeight(out, j))
  {
    hide Count;
    hide LegWeight;
    hide Clamp;
  }

  lemma DetachedAt(t: seq<Arrow>, t': seq<Arrow>, k: nat, i: int, j: int)
    requires Detached(t, t', k)
    ensures Count(t', i, j) == if i == k || j == k then 0 else Count(t, i, j)
  {
  }

  lemma HookedAt(t: seq<Arrow>, t': seq<Arrow>, k: nat, legs: seq<Leg>, outward: bool, i: int, j: int)
    requires Hooked(t, t', k, legs, outward)
    ensures Count(t', i, j) ==
              Count(t, i, j) + if outward && i == k then LegWeight(legs, j)
                               else if !outward && j == k then LegWeight(legs, i) else 0
  {
  }

  /** The counts after all phases, before cancelling. */
  lemma PhasesCount(t0: seq<Arrow>, t1: seq<Arrow>, t2: seq<Arrow>, t3: seq<Arrow>, t4: seq<Arrow>, n: nat, k: nat,
        into: seq<Leg>, out: seq<Leg>, i: int, j: int)
    requires GoodLegs(into, n, k) && GoodLegs(out, n, k)
    requires forall i :: LegWeight(into, i) == Count(t0, i, k)
    requires forall j :: LegWeight(out, j) == Count(t0, k, j)
    requires && Composed(t0, t1, into, out) && Detached(t1, t2, k) && Hooked(t2, t3, k, into, true)
             && Hooked(t3, t4, k, out, false)
    ensures Count(t4, i, j) ==
              if i == k && j == k then 0 else if i == k then Count(t0, j, k) else if j == k then Count(t0, k, i)
              else if i == j then Count(t0, i, j) else Clamp(Count(t0, i, j) + Count(t0, i, k) * Count(t0, k, j))
  {
    hide Count;
    hide LegWeight;
    hide Clamp;
    hide Composed;
    hide Detached;
    hide Hooked;
    LegNone(into, k);
    LegNone(out, k);
    assert LegWeight(into, i) == Count(t0, i, k) && LegWeight(out, j) == Count(t0, k, j);
    assert LegWeight(into, j) == Count(t0, j, k) && LegWeight(out, i) == Count(t0, k, i);
    ComposedAt(t0, t1, into, out, i, j);
    DetachedAt(t1, t2, k, i, j);
    HookedAt(t2, t3, k, into, true, i, j);
    HookedAt(t3, t4, k, out, false, i, j);
  }

  lemma MutationComputed(t0: seq<Arrow>, t1: seq<Arrow>, t2: seq<Arrow>, t3: seq<Arrow>, t4: seq<Arrow>, t5: seq<Arrow>,
        n: nat, k: nat, into: seq<Leg>, out: seq<Leg>)
    requires GoodLegs(into, n, k) && GoodLegs(out, n, k)
    requires forall i :: LegWeight(into, i) == Count(t0, i, k)
    requires forall j :: LegWeight(out, j) == Count(t0, k, j)
    requires && Composed(t0, t1, into, out) && Detached(t1, t2, k) && Hooked(t2, t3, k, into, true)
             && Hooked(t3, t4, k, out, false)
    requires SameMatrix(t4, t5)
    ensures ClampsTo(t0, k, t5)
  {
    hide Count;
    hide Composed;
    hide Detached;
    hide Hooked;
    hide GoodLegs;
    hide LegWeight;
    hide Clamp;
    forall i, j ensures Signed(t5, i, j) == ClampedRule(t0, k, i, j) {
      PhasesCount(t0, t1, t2, t3, t4, n, k, into, out, i, j);
      PhasesCount(t0, t1, t2, t3, t4, n, k, into, out, j, i);
      assert Signed(t5, i, j) == Signed(t4, i, j);
    }
  }

  lemma {:induction false} ScaledStuck(acc: nat, x: nat, c: nat, times: nat)
    requires c < times && Scaled(acc, x, c).Some? && Scaled(acc, x, c).value * x > U64_MAX
    ensures Scaled(acc, x, times).None?
  {
    if c + 1 < times { ScaledStuck(acc, x, c, times - 1); }
  }

  lemma {:induction false} ProductStuck(t: seq<Arrow>, x: seq<nat>, k: nat, inward: bool, p: nat)
    requires p <= |t| && Product(t[..p], x, k, inward).None?
    ensures Product(t, x, k, inward).None?
  {
    if p < |t| {
      assert t[..|t| - 1][..p] == t[..p];
      ProductStuck(t[..|t| - 1], x, k, inward, p);
    } else {
      assert t[..p] == t;
    }
  }

  /** The matrix entry after adding arrows, with the clamp of the table. */
  ghost function SignedAfter(t: seq<Arrow>, from: nat, to: nat, mult: nat, i: int, j: int): int {
    if (i, j) == (from, to) then Clamp(Count(t, i, j) + mult) - Count(t, j, i)
    else if (j, i) == (from, to) then Count(t, i, j) - Clamp(Count(t, j, i) + mult)
    else Signed(t, i, j)
  }

  lemma SignedAdded(t: seq<Arrow>, t1: seq<Arrow>, t2: seq<Arrow>, from: nat, to: nat, mult: nat)
    requires Added(t, t1, from, to, mult) && SameMatrix(t1, t2) && from != to
    ensures forall i, j :: Signed(t2, i, j) == SignedAfter(t, from, to, mult, i, j)
  {
    hide Count;
    forall i, j ensures Signed(t2, i, j) == SignedAfter(t, from, to, mult, i, j) {
      assert Signed(t2, i, j) == Signed(t1, i, j);
    }
  }

  lemma CancelDone(t: seq<Arrow>, t': seq<Arrow>, n: nat, i: nat, j: nat)
    requires Simple(t, n) && Thinner(t, t') && i < j < |t| && Opposite(t[i], t[j]) && (!t'[i].live || !t'[j].live)
    requires forall p, q :: 0 <= p < i && 0 <= q < |t| ==> !Opposite(t[p], t[q])
    ensures forall p, q :: 0 <= p <= i && 0 <= q < |t| ==> !Opposite(t'[p], t'[q])
  {
  }
}
