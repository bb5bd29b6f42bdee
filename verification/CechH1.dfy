/** Cech cohomology of a capability cover (kernel/boulder/src/cech_h1.rs): Gaussian elimination over
    GF(2) decides whether glue data comes from local sections. */
module CechH1 {

  const MAX_OPENS := 16
  const MAX_EDGES := 64
  const BITS := 64

  /** A machine word under exclusive or: the set of its one bits. */
  type Word = set<nat>

  function Xor(a: Word, b: Word): Word {
    (a - b) + (b - a)
  }

  // ---- linear systems over GF(2) -----------------------------------------

  predicate Odd(s: set<nat>) { |s| % 2 == 1 }

  /** Row times assignment: the parity of the chosen variables in the row. */
  predicate Dot(row: Word, x: set<nat>) { Odd(row * x) }

  ghost predicate Satisfies(mat: seq<Word>, rhs: seq<bool>, x: set<nat>)
    requires |mat| == |rhs|
  {
    forall r :: 0 <= r < |mat| ==> Dot(mat[r], x) == rhs[r]
  }

  ghost predicate Solvable(mat: seq<Word>, rhs: seq<bool>)
    requires |mat| == |rhs|
  {
    exists x :: Satisfies(mat, rhs, x)
  }

  ghost predicate SameSolutions(mat: seq<Word>, rhs: seq<bool>, mat': seq<Word>, rhs': seq<bool>)
    requires |mat| == |rhs| && |mat'| == |rhs'|
  {
    forall x :: Satisfies(mat, rhs, x) <==> Satisfies(mat', rhs', x)
  }

  lemma {:induction false} OddDisjoint(s: set<nat>, t: set<nat>)
    requires s !! t
    ensures Odd(s + t) == (Odd(s) != Odd(t))
  {
    assert |s + t| == |s| + |t|;
  }

  /** Parity is additive under symmetric difference. */
  lemma DotXor(a: Word, b: Word, x: set<nat>)
    ensures Dot(Xor(a, b), x) == (Dot(a, x) != Dot(b, x))
  {
    var both := a * b * x;
    var left, right := (a - b) * x, (b - a) * x;
    assert Xor(a, b) * x == left + right && left !! right;
    assert a * x == left + both && left !! both;
    assert b * x == right + both && right !! both;
    OddDisjoint(left, right);
    OddDisjoint(left, both);
    OddDisjoint(right, both);
  }

  /** Adding one equation to another keeps the solutions. */
  lemma RowAddSolutions(mat: seq<Word>, rhs: seq<bool>, r: nat, p: nat)
    requires |mat| == |rhs| && r < |mat| && p < |mat| && r != p
    ensures SameSolutions(mat, rhs, mat[r := Xor(mat[r], mat[p])], rhs[r := rhs[r] != rhs[p]])
  {
    var mat', rhs' := mat[r := Xor(mat[r], mat[p])], rhs[r := rhs[r] != rhs[p]];
    hide Dot;
    hide Xor;
    forall x ensures Satisfies(mat, rhs, x) <==> Satisfies(mat', rhs', x) {
      DotXor(mat[r], mat[p], x);
      assert forall q :: 0 <= q < |mat| && q != r ==> mat'[q] == mat[q] && rhs'[q] == rhs[q];
      assert mat'[p] == mat[p] && rhs'[p] == rhs[p];
      if Satisfies(mat', rhs', x) {
        assert Dot(mat'[r], x) == rhs'[r] && Dot(mat'[p], x) == rhs'[p];
        forall q | 0 <= q < |mat| ensures Dot(mat[q], x) == rhs[q] {
          assert Dot(mat'[q], x) == rhs'[q];
        }
      }
    }
  }

  lemma SwapSolutions(mat: seq<Word>, rhs: seq<bool>, r: nat, p: nat)
    requires |mat| == |rhs| && r < |mat| && p < |mat|
    ensures SameSolutions(mat, rhs, mat[r := mat[p]][p := mat[r]], rhs[r := rhs[p]][p := rhs[r]])
  {
    var mat', rhs' := mat[r := mat[p]][p := mat[r]], rhs[r := rhs[p]][p := rhs[r]];
    hide Dot;
    forall x ensures Satisfies(mat, rhs, x) <==> Satisfies(mat', rhs', x) {
      if Satisfies(mat', rhs', x) {
        forall q | 0 <= q < |mat| ensures Dot(mat[q], x) == rhs[q] {
          var q' := if q == r then p else if q == p then r else q;
          assert Dot(mat'[q'], x) == rhs'[q'];
        }
      }
    }
  }

  // ---- reduced echelon form ----------------------------------------------

  /** The pivot columns of the first rows: each occurs in its own row only. */
  ghost predicate Pivoted(mat: seq<Word>, pivots: seq<nat>) {
    && |pivots| <= |mat|
    && (forall k, r :: 0 <= k < |pivots| && 0 <= r < |mat| ==> (pivots[k] in mat[r] <==> r == k))
  }

  /** Rows without a pivot have no entry in the columns already treated. */
  ghost predicate Swept(mat: seq<Word>, row: nat, col: nat) {
    forall r, c :: row <= r < |mat| && 0 <= c < col ==> c !in mat[r]
  }

  ghost predicate Bounded(mat: seq<Word>, n: nat) {
    forall r, c :: 0 <= r < |mat| && c in mat[r] ==> c < n
  }

  /** A row of zeros that asks for one. */
  predicate Contradiction(row: Word, rhs: bool) { row == {} && rhs }

  ghost function Chosen(rhs: seq<bool>, pivots: seq<nat>): set<nat>
    requires |pivots| <= |rhs|
  {
    set k | 0 <= k < |pivots| && rhs[k] :: pivots[k]
  }

  /** A fully reduced system without contradictions is solved by setting the pivots to the right-hand sides. */
  lemma ReducedSolves(mat: seq<Word>, rhs: seq<bool>, pivots: seq<nat>)
    requires |mat| == |rhs| && Pivoted(mat, pivots)
    requires forall r :: |pivots| <= r < |mat| ==> mat[r] == {} && !rhs[r]
    ensures Satisfies(mat, rhs, Chosen(rhs, pivots))
  {
    var x := Chosen(rhs, pivots);
    forall r | 0 <= r < |mat| ensures Dot(mat[r], x) == rhs[r] {
      if r < |pivots| {
        PivotRow(mat, rhs, pivots, r);
      } else {
        assert mat[r] * x == {};
      }
    }
  }

  lemma PivotRow(mat: seq<Word>, rhs: seq<bool>, pivots: seq<nat>, r: nat)
    requires |mat| == |rhs| && Pivoted(mat, pivots) && r < |pivots|
    ensures Dot(mat[r], Chosen(rhs, pivots)) == rhs[r]
  {
    var x := Chosen(rhs, pivots);
    forall c | c in mat[r] * x ensures c == pivots[r] && rhs[r] {
      var k :| 0 <= k < |pivots| && rhs[k] && pivots[k] == c;
      assert pivots[k] in mat[r];
    }
    assert pivots[r] in mat[r];
    if rhs[r] {
      assert pivots[r] in x;
      assert mat[r] * x == {pivots[r]};
    } else {
      assert mat[r] * x == {};
    }
  }

  lemma ContradictionBlocks(mat: seq<Word>, rhs: seq<bool>, r: nat)
    requires |mat| == |rhs| && r < |mat| && Contradiction(mat[r], rhs[r])
    ensures !Solvable(mat, rhs)
  {
    forall x ensures !Satisfies(mat, rhs, x) {
      assert mat[r] * x == {};
      assert !Dot(mat[r], x);
    }
  }

  // ---- elimination -------------------------------------------------------

  method SwapRows(mat: array<Word>, rhs: array<bool>, r: nat, p: nat)
    requires mat.Length == rhs.Length && r < mat.Length && p < mat.Length
    modifies mat, rhs
    ensures mat[..] == old(mat[..])[r := old(mat[p])][p := old(mat[r])]
    ensures rhs[..] == old(rhs[..])[r := old(rhs[p])][p := old(rhs[r])]
  {
    mat[r], mat[p] := mat[p], mat[r];
    rhs[r], rhs[p] := rhs[p], rhs[r];
  }

  /** Row q after clearing column col with the pivot row. */
  function ClearedRow(mat: seq<Word>, row: nat, col: nat, q: nat): Word
    requires row < |mat| && q < |mat|
  {
    if q != row && col in mat[q] then Xor(mat[q], mat[row]) else mat[q]
  }

  /** Clears column col from every row but the pivot row. */
  method ClearColumn(mat: array<Word>, rhs: array<bool>, row: nat, col: nat)
    requires mat.Length == rhs.Length && row < mat.Length
    modifies mat, rhs
    ensures forall q :: 0 <= q < mat.Length ==> mat[q] == ClearedRow(old(mat[..]), row, col, q)
    ensures SameSolutions(old(mat[..]), old(rhs[..]), mat[..], rhs[..])
  {
    hide Satisfies;
    ghost var m0, b0 := mat[..], rhs[..];
    var r := 0;
    while r < mat.Length
      invariant 0 <= r <= mat.Length
      invariant forall q :: 0 <= q < mat.Length ==> mat[q] == if q < r then ClearedRow(m0, row, col, q) else m0[q]
      invariant SameSolutions(m0, b0, mat[..], rhs[..])
    {
      if r != row && col in mat[r] {
        RowAddSolutions(mat[..], rhs[..], r, row);
        ghost var m1, b1 := mat[..], rhs[..];
        mat[r] := Xor(mat[r], mat[row]);
        rhs[r] := rhs[r] != rhs[row];
        assert mat[..] == m1[r := Xor(m1[r], m1[row])] && rhs[..] == b1[r := b1[r] != b1[row]];
      }
      r := r + 1;
    }
  }

  /** One column step keeps the echelon form and adds a pivot. */
  lemma PivotAdded(mat: seq<Word>, mat': seq<Word>, pivots: seq<nat>, col: nat, n: nat)
    requires |pivots| < |mat| == |mat'| && Pivoted(mat, pivots) && Swept(mat, |pivots|, col) && Bounded(mat, n)
    requires col in mat[|pivots|]
    requires forall q :: 0 <= q < |mat| ==> mat'[q] == ClearedRow(mat, |pivots|, col, q)
    ensures Pivoted(mat', pivots + [col]) && Swept(mat', |pivots| + 1, col + 1) && Bounded(mat', n)
  {
    var row := |pivots|;
    forall k, r | 0 <= k < row + 1 && 0 <= r < |mat| ensures (pivots + [col])[k] in mat'[r] <==> r == k {
      assert mat'[r] == ClearedRow(mat, row, col, r);
      if k < row {
        assert pivots[k] in mat[r] <==> r == k;
        assert pivots[k] !in mat[row];
      }
    }
    forall r, c | row + 1 <= r < |mat| && 0 <= c < col + 1 ensures c !in mat'[r] {
      assert mat'[r] == ClearedRow(mat, row, col, r);
      assert c < col ==> c !in mat[r] && c !in mat[row];
    }
  }

  lemma SwapKeeps(mat: seq<Word>, pivots: seq<nat>, col: nat, n: nat, p: nat)
    requires |pivots| <= p < |mat| && Pivoted(mat, pivots) && Swept(mat, |pivots|, col) && Bounded(mat, n)
    ensures var mat' := mat[|pivots| := mat[p]][p := mat[|pivots|]];
            Pivoted(mat', pivots) && Swept(mat', |pivots|, col) && Bounded(mat', n)
  {
    var row := |pivots|;
    var mat' := mat[row := mat[p]][p := mat[row]];
    forall k, r | 0 <= k < |pivots| && 0 <= r < |mat'| ensures pivots[k] in mat'[r] <==> r == k {
      assert pivots[k] !in mat[row] && pivots[k] !in mat[p];
    }
  }

  lemma SolvableTransfer(mat: seq<Word>, rhs: seq<bool>, mat': seq<Word>, rhs': seq<bool>)
    requires |mat| == |rhs| && |mat'| == |rhs'| && SameSolutions(mat, rhs, mat', rhs')
    ensures Solvable(mat, rhs) == Solvable(mat', rhs')
  {
    hide Satisfies;
  }

  /** True exactly when the system has a solution. */
  method Gf2Solve(mat: array<Word>, rhs: array<bool>, n: nat) returns (ok: bool)
    requires mat.Length == rhs.Length && Bounded(mat[..], n)
    modifies mat, rhs
    ensures ok <==> Solvable(old(mat[..]), old(rhs[..]))
  {
    hide Satisfies;
    hide Pivoted;
    hide Swept;
    hide Bounded;
    ghost var m0, b0 := mat[..], rhs[..];
    var rows := mat.Length;
    var row := 0;
    ghost var pivots: seq<nat> := [];
    EchelonStart(m0);
    var col := 0;
    while col < n
      invariant 0 <= col <= n && row == |pivots| <= rows
      invariant Bounded(mat[..], n) && Pivoted(mat[..], pivots) && Swept(mat[..], row, col)
      invariant SameSolutions(m0, b0, mat[..], rhs[..])
    {
      var p := FindPivot(mat, row, col);
      if p < rows {
        SwapKeeps(mat[..], pivots, col, n, p);
        SwapSolutions(mat[..], rhs[..], row, p);
        SwapRows(mat, rhs, row, p);
        ghost var m1 := mat[..];
        ClearColumn(mat, rhs, row, col);
        PivotAdded(m1, mat[..], pivots, col, n);
        pivots := pivots + [col];
        row := row + 1;
        if row >= rows { break; }
      } else {
        NoPivot(mat[..], row, col);
      }
      col := col + 1;
    }
    EchelonEnd(mat[..], pivots, col, n);
    SolvableTransfer(m0, b0, mat[..], rhs[..]);
    ok := CheckRows(mat, rhs, pivots);
  }

  lemma EchelonStart(mat: seq<Word>)
    ensures Pivoted(mat, []) && Swept(mat, 0, 0)
  {
  }

  lemma NoPivot(mat: seq<Word>, row: nat, col: nat)
    requires Swept(mat, row, col) && forall r :: row <= r < |mat| ==> col !in mat[r]
    ensures Swept(mat, row, col + 1)
  {
  }

  /** When the columns or the rows are used up, the rows without a pivot are zero. */
  lemma EchelonEnd(mat: seq<Word>, pivots: seq<nat>, col: nat, n: nat)
    requires Bounded(mat, n) && ((col == n && Swept(mat, |pivots|, col)) || |pivots| == |mat|)
    ensures forall r :: |pivots| <= r < |mat| ==> mat[r] == {}
  {
    forall r | |pivots| <= r < |mat| ensures mat[r] == {} {
      assert forall c :: c in mat[r] ==> c < n && c !in mat[r];
    }
  }

  method FindPivot(mat: array<Word>, row: nat, col: nat) returns (p: nat)
    requires row <= mat.Length
    ensures row <= p <= mat.Length && (p < mat.Length ==> col in mat[p])
    ensures p == mat.Length ==> forall r :: row <= r < mat.Length ==> col !in mat[r]
  {
    p := row;
    while p < mat.Length
      invariant row <= p <= mat.Length && forall r :: row <= r < p ==> col !in mat[r]
    {
      if col in mat[p] { return; }
      p := p + 1;
    }
  }

  method CheckRows(mat: array<Word>, rhs: array<bool>, ghost pivots: seq<nat>) returns (ok: bool)
    requires mat.Length == rhs.Length && Pivoted(mat[..], pivots)
    requires forall r :: |pivots| <= r < mat.Length ==> mat[r] == {}
    ensures ok <==> Solvable(mat[..], rhs[..])
  {
    var r := 0;
    while r < mat.Length
      invariant 0 <= r <= mat.Length && forall q :: 0 <= q < r ==> !Contradiction(mat[q], rhs[q])
    {
      if mat[r] == {} && rhs[r] {
        ContradictionBlocks(mat[..], rhs[..], r);
        return false;
      }
      r := r + 1;
    }
    assert forall q :: 0 <= q < mat.Length ==> !Contradiction(mat[q], rhs[q]);
    ReducedSolves(mat[..], rhs[..], pivots);
    return true;
  }

  // ---- the nerve and its cochains ----------------------------------------

  datatype Option<T> = None | Some(value: T)

  datatype Fault = Dim | NotCocycle

  /** Glue data on the overlap of opens i < j. */
  datatype Edge = Edge(live: bool, i: nat, j: nat, g: Word)

  predicate IsWord(w: Word) { forall b :: b in w ==> b < BITS }

  /** Live edges between ordered, distinct opens, one per pair. */
  ghost predicate Nerve(edges: seq<Edge>, n: nat) {
    && (forall e :: 0 <= e < |edges| ==> edges[e].live && edges[e].i < edges[e].j < n && IsWord(edges[e].g))
    && (forall e, f :: 0 <= e < f < |edges| ==> edges[e].i != edges[f].i || edges[e].j != edges[f].j)
  }

  predicate Joins(e: Edge, i: nat, j: nat) { e.live && e.i == i && e.j == j }

  /** The glue on an ordered pair, if the opens overlap. */
  function Glue(edges: seq<Edge>, i: nat, j: nat): Option<Word> {
    if edges == [] then None
    else if Joins(edges[0], i, j) then Some(edges[0].g)
    else Glue(edges[1..], i, j)
  }

  function GlueOf(edges: seq<Edge>, i: nat, j: nat): Option<Word> {
    if i < j then Glue(edges, i, j) else Glue(edges, j, i)
  }

  /** The glue cancels around the triangle, when it is filled. */
  predicate Closes(edges: seq<Edge>, i: nat, j: nat, k: nat) {
    var gij, gjk, gki := GlueOf(edges, i, j), GlueOf(edges, j, k), GlueOf(edges, k, i);
    gij.Some? && gjk.Some? && gki.Some? ==> Xor(Xor(gij.value, gjk.value), gki.value) == {}
  }

  ghost predicate Cocycle(edges: seq<Edge>, n: nat) {
    forall i, j, k :: 0 <= i < j < k < n ==> Closes(edges, i, j, k)
  }

  /** The glue is the difference of the sections on every overlap. */
  ghost predicate Glues(edges: seq<Edge>, a: seq<Word>) {
    forall e :: 0 <= e < |edges| ==>
                  edges[e].i < |a| && edges[e].j < |a| && edges[e].g == Xor(a[edges[e].i], a[edges[e].j])
  }

  /** One word per open. */
  ghost predicate AreSections(a: seq<Word>) {
    |a| == MAX_OPENS && forall i :: 0 <= i < |a| ==> IsWord(a[i])
  }

  ghost predicate Coboundary(edges: seq<Edge>) {
    exists a: seq<Word> :: AreSections(a) && Glues(edges, a)
  }

  lemma {:induction false} GlueFound(edges: seq<Edge>, i: nat, j: nat) returns (e: nat)
    requires Glue(edges, i, j).Some?
    ensures e < |edges| && Joins(edges[e], i, j) && edges[e].g == Glue(edges, i, j).value
  {
    if Joins(edges[0], i, j) {
      e := 0;
    } else {
      var f := GlueFound(edges[1..], i, j);
      e := f + 1;
    }
  }

  /** Glue that comes from sections closes every triangle: every coboundary is a cocycle. */
  lemma CoboundaryIsCocycle(edges: seq<Edge>, n: nat, a: seq<Word>)
    requires Glues(edges, a)
    ensures Cocycle(edges, n)
  {
    forall i, j, k | 0 <= i < j < k < n ensures Closes(edges, i, j, k) {
      if Glue(edges, i, j).Some? && Glue(edges, j, k).Some? && Glue(edges, i, k).Some? {
        var e := GlueFound(edges, i, j);
        var f := GlueFound(edges, j, k);
        var h := GlueFound(edges, i, k);
      }
    }
  }

  // ---- bit planes --------------------------------------------------------

  function RowOf(e: Edge): Word { {e.i, e.j} }

  ghost function Rows(edges: seq<Edge>): seq<Word> { seq(|edges|, e requires 0 <= e < |edges| => RowOf(edges[e])) }

  ghost function Plane(edges: seq<Edge>, bit: nat): seq<bool> {
    seq(|edges|, e requires 0 <= e < |edges| => bit in edges[e].g)
  }

  lemma EdgeDot(i: nat, j: nat, x: set<nat>)
    requires i != j
    ensures Dot({i, j}, x) == ((i in x) != (j in x))
  {
    var s := {i, j} * x;
    if i in x && j in x {
      assert s == {i, j};
    } else if i in x {
      assert s == {i};
    } else if j in x {
      assert s == {j};
    } else {
      assert s == {};
    }
  }

  /** x solves the plane exactly when it differs across an edge where the glue has the bit. */
  lemma PlaneSolution(edges: seq<Edge>, n: nat, bit: nat, x: set<nat>)
    requires Nerve(edges, n)
    ensures Satisfies(Rows(edges), Plane(edges, bit), x) <==>
              forall e :: 0 <= e < |edges| ==> ((edges[e].i in x) != (edges[e].j in x)) == (bit in edges[e].g)
  {
    hide Dot;
    forall e | 0 <= e < |edges| ensures Dot(Rows(edges)[e], x) == ((edges[e].i in x) != (edges[e].j in x)) {
      EdgeDot(edges[e].i, edges[e].j, x);
    }
    if Satisfies(Rows(edges), Plane(edges, bit), x) {
      forall e | 0 <= e < |edges| ensures ((edges[e].i in x) != (edges[e].j in x)) == (bit in edges[e].g) {
        assert Dot(Rows(edges)[e], x) == Plane(edges, bit)[e];
      }
    }
  }

  ghost function Section(xs: seq<set<nat>>, i: nat): Word { set b: nat | 0 <= b < |xs| && i in xs[b] }

  ghost function Sections(xs: seq<set<nat>>): seq<Word> {
    seq(MAX_OPENS, i requires 0 <= i < MAX_OPENS => Section(xs, i))
  }

  /** Solutions of all bit planes assemble into sections. */
  lemma PlanesGlue(edges: seq<Edge>, n: nat, xs: seq<set<nat>>)
    requires Nerve(edges, n) && n <= MAX_OPENS && |xs| == BITS
    requires forall b :: 0 <= b < BITS ==> Satisfies(Rows(edges), Plane(edges, b), xs[b])
    ensures Glues(edges, Sections(xs))
  {
    hide Satisfies;
    forall e | 0 <= e < |edges| ensures edges[e].g == Xor(Section(xs, edges[e].i), Section(xs, edges[e].j)) {
      forall b: nat ensures b in edges[e].g <==> b in Xor(Section(xs, edges[e].i), Section(xs, edges[e].j)) {
        if b < BITS {
          PlaneSolution(edges, n, b, xs[b]);
        }
      }
    }
  }

  ghost function PlaneAssignment(a: seq<Word>, bit: nat): set<nat> { set i: nat | 0 <= i < |a| && bit in a[i] }

  /** Sections solve every bit plane. */
  lemma GluesSolves(edges: seq<Edge>, n: nat, a: seq<Word>, bit: nat)
    requires Nerve(edges, n) && Glues(edges, a)
    ensures Solvable(Rows(edges), Plane(edges, bit))
  {
    hide Satisfies;
    var x := PlaneAssignment(a, bit);
    PlaneSolution(edges, n, bit, x);
  }

  lemma RowsBounded(edges: seq<Edge>, n: nat)
    requires Nerve(edges, n)
    ensures Bounded(Rows(edges), n)
  {
  }

  // ---- the complex -------------------------------------------------------

  datatype Verdict = Decided(coboundary: bool) | Rejected(fault: Fault)

  class CechComplex {
    const n: nat
    const a: array<Word>
    const edges: array<Edge>
    var eLen: nat

    ghost predicate Shape()
      reads this
    {
      n <= MAX_OPENS && a.Length == MAX_OPENS && edges.Length == MAX_EDGES && eLen <= MAX_EDGES
    }

    ghost function View(): seq<Edge>
      reads this, edges
      requires Shape()
    {
      edges[..eLen]
    }

    ghost predicate Valid()
      reads this, a, edges
    {
      Shape() && Nerve(View(), n) && forall i :: 0 <= i < MAX_OPENS ==> IsWord(a[i])
    }

    constructor (n: nat)
      ensures Valid() && View() == [] && this.n == if n < MAX_OPENS then n else MAX_OPENS
      ensures fresh(a) && fresh(edges)
    {
      this.n := if n < MAX_OPENS then n else MAX_OPENS;
      a := new Word[MAX_OPENS](_ => {});
      edges := new Edge[MAX_EDGES](_ => Edge(false, 0, 0, {}));
      eLen := 0;
    }

    method SetSection(i: nat, w: Word)
      requires Valid() && IsWord(w)
      modifies a
      ensures Valid() && View() == old(View())
      ensures a[..] == if i < n then old(a[..])[i := w] else old(a[..])
    {
      if i < n { a[i] := w; }
    }

    /** The glue of the pair is replaced, or the pair joins the nerve; every other pair keeps its glue. */
    method AddOverlap(i: nat, j: nat, g: Word) returns (fault: Option<Fault>)
      requires Valid() && IsWord(g)
      modifies this`eLen, edges
      ensures Valid()
      ensures fault.None? || fault == Some(Dim)
      ensures fault.Some? ==>
                && View() == old(View())
                && (i >= n || j >= n || i == j || (eLen == MAX_EDGES && GlueOf(View(), i, j).None?))
      ensures fault.None? ==> i < n && j < n && i != j && GlueOf(View(), i, j) == Some(g)
      ensures fault.None? ==>
                forall p: nat, q: nat :: p < q && (p, q) != (if i < j then (i, j) else (j, i)) ==>
                                           Glue(View(), p, q) == Glue(old(View()), p, q)
    {
      if i >= n || j >= n || i == j { return Some(Dim); }
      var lo, hi := if i < j then i else j, if i < j then j else i;
      ghost var t := View();
      var e := 0;
      while e < eLen
        invariant 0 <= e <= eLen && View() == t && forall f :: 0 <= f < e ==> !Joins(t[f], lo, hi)
      {
        if edges[e].live && edges[e].i == lo && edges[e].j == hi {
          edges[e] := edges[e].(g := g);
          assert View() == t[e := t[e].(g := g)];
          ReplaceGlue(t, n, e, g);
          return None;
        }
        e := e + 1;
      }
      GlueMissing(t, lo, hi);
      if eLen >= MAX_EDGES { return Some(Dim); }
      edges[eLen] := Edge(true, lo, hi, g);
      eLen := eLen + 1;
      assert View() == t + [Edge(true, lo, hi, g)];
      AppendGlue(t, n, Edge(true, lo, hi, g));
      return None;
    }

    method EdgeGlue(i: nat, j: nat) returns (r: Option<Word>)
      requires Shape()
      ensures r == GlueOf(View(), i, j)
    {
      var lo, hi := if i < j then i else j, if i < j then j else i;
      var e := 0;
      while e < eLen
        invariant 0 <= e <= eLen && Glue(View(), lo, hi) == Glue(View()[e..], lo, hi)
      {
        ghost var t := View();
        assert t[e..][0] == edges[e] && t[e..][1..] == t[e + 1..];
        if edges[e].live && edges[e].i == lo && edges[e].j == hi { return Some(edges[e].g); }
        e := e + 1;
      }
      return None;
    }

    method IsCocycle() returns (r: bool)
      requires Valid()
      ensures r <==> Cocycle(View(), n)
    {
      hide Xor;
      hide Glue;
      ghost var t := View();
      for i := 0 to n
        invariant forall p, q, r :: 0 <= p < i && p < q < r < n ==> Closes(t, p, q, r)
      {
        for j := i + 1 to n
          invariant forall q, r :: i < q < j && q < r < n ==> Closes(t, i, q, r)
        {
          for k := j + 1 to n
            invariant forall r :: j < r < k ==> Closes(t, i, j, r)
          {
            var gij := EdgeGlue(i, j);
            var gjk := EdgeGlue(j, k);
            var gki := EdgeGlue(k, i);
            if gij.Some? && gjk.Some? && gki.Some? {
              if Xor(Xor(gij.value, gjk.value), gki.value) != {} {
                assert !Closes(t, i, j, k);
                return false;
              }
            }
            assert Closes(t, i, j, k);
          }
        }
      }
      return true;
    }

    method BuildPlane(bit: nat) returns (mat: array<Word>, rhs: array<bool>)
      requires Valid()
      ensures && fresh(mat) && fresh(rhs) && mat.Length == rhs.Length && mat[..] == Rows(View())
              && rhs[..] == Plane(View(), bit)
    {
      mat := new Word[eLen](_ => {});
      rhs := new bool[eLen](_ => false);
      var rows := 0;
      ghost var t := View();
      for e := 0 to eLen
        invariant rows == e && Valid() && View() == t
        invariant forall f :: 0 <= f < e ==> mat[f] == RowOf(t[f]) && rhs[f] == (bit in t[f].g)
        modifies mat, rhs
      {
        assert t[e].live;
        if edges[e].live {
          mat[rows] := {edges[e].i, edges[e].j};
          rhs[rows] := bit in edges[e].g;
          rows := rows + 1;
        }
      }
    }

    /** Refused when the glue is no cocycle; otherwise true exactly when some sections glue to it. */
    method IsCoboundary() returns (r: Verdict)
      requires Valid()
      ensures r == if !Cocycle(View(), n) then Rejected(NotCocycle) else Decided(Coboundary(View()))
    {
      hide Satisfies;
      hide Rows;
      hide Plane;
      hide Nerve;
      hide Cocycle;
      hide Glues;
      hide Bounded;
      var cocycle := IsCocycle();
      if !cocycle { return Rejected(NotCocycle); }
      ghost var t := View();
      RowsBounded(t, n);
      ghost var xs: seq<set<nat>> := [];
      for bit := 0 to BITS
        invariant View() == t && Valid() && |xs| == bit
        invariant forall b :: 0 <= b < bit ==> |Rows(t)| == |Plane(t, b)| && Satisfies(Rows(t), Plane(t, b), xs[b])
      {
        var mat, rhs := BuildPlane(bit);
        var ok := Gf2Solve(mat, rhs, n);
        if !ok {
          Unglued(t, n, bit);
          return Decided(false);
        }
        ghost var x :| Satisfies(Rows(t), Plane(t, bit), x);
        xs := xs + [x];
      }
      PlanesGlue(t, n, xs);
      SectionsCount(t, xs);
      return Decided(true);
    }

    /** Glue taken from the sections, on every overlap. */
    method FillFromSections()
      requires Valid()
      modifies edges
      ensures Valid() && Glues(View(), a[..]) && Cocycle(View(), n) && Coboundary(View())
      ensures && |View()| == |old(View())|
              && forall e :: 0 <= e < eLen ==> View()[e].i == old(View())[e].i && View()[e].j == old(View())[e].j
    {
      hide Xor;
      ghost var t := View();
      for e := 0 to eLen
        invariant |View()| == |t|
        invariant forall f :: 0 <= f < eLen ==>
                                View()[f] == if f < e then t[f].(g := Xor(a[t[f].i], a[t[f].j])) else t[f]
      {
        if edges[e].live {
          edges[e] := edges[e].(g := Xor(a[edges[e].i], a[edges[e].j]));
        }
      }
      forall f | 0 <= f < eLen ensures IsWord(View()[f].g) {
        XorWord(a[t[f].i], a[t[f].j]);
      }
      assert Glues(View(), a[..]) && AreSections(a[..]);
      CoboundaryIsCocycle(View(), n, a[..]);
    }
  }

  lemma XorWord(a: Word, b: Word)
    requires IsWord(a) && IsWord(b)
    ensures IsWord(Xor(a, b))
  {
  }

  lemma SectionsCount(edges: seq<Edge>, xs: seq<set<nat>>)
    requires |xs| == BITS && Glues(edges, Sections(xs))
    ensures Coboundary(edges)
  {
    forall i | 0 <= i < MAX_OPENS ensures IsWord(Sections(xs)[i]) {
      forall b | b in Section(xs, i) ensures b < BITS {
      }
    }
    assert AreSections(Sections(xs));
  }

  /** One unsolvable plane rules out all sections. */
  lemma Unglued(edges: seq<Edge>, n: nat, bit: nat)
    requires Nerve(edges, n) && |Rows(edges)| == |Plane(edges, bit)| && !Solvable(Rows(edges), Plane(edges, bit))
    ensures !Coboundary(edges)
  {
    forall a: seq<Word> | AreSections(a) ensures !Glues(edges, a) {
      if Glues(edges, a) {
        GluesSolves(edges, n, a, bit);
        assert false;
      }
    }
  }

  lemma {:induction false} GlueMissing(edges: seq<Edge>, i: nat, j: nat)
    requires forall e :: 0 <= e < |edges| ==> !Joins(edges[e], i, j)
    ensures Glue(edges, i, j) == None
  {
    if edges != [] { GlueMissing(edges[1..], i, j); }
  }

  lemma {:induction false} GlueAt(edges: seq<Edge>, e: nat, i: nat, j: nat)
    requires e < |edges| && Joins(edges[e], i, j) && forall f :: 0 <= f < e ==> !Joins(edges[f], i, j)
    ensures Glue(edges, i, j) == Some(edges[e].g)
  {
    if e > 0 { GlueAt(edges[1..], e - 1, i, j); }
  }

  /** Glue depends only on which edges join the pair. */
  lemma {:induction false} GlueSame(a: seq<Edge>, b: seq<Edge>, i: nat, j: nat)
    requires && |a| == |b|
             && forall e :: 0 <= e < |a| ==>
                              Joins(a[e], i, j) == Joins(b[e], i, j) && (Joins(a[e], i, j) ==> a[e].g == b[e].g)
    ensures Glue(a, i, j) == Glue(b, i, j)
  {
    if a != [] { GlueSame(a[1..], b[1..], i, j); }
  }

  lemma {:induction false} GlueExtend(a: seq<Edge>, e: Edge, i: nat, j: nat)
    requires !Joins(e, i, j)
    ensures Glue(a + [e], i, j) == Glue(a, i, j)
  {
    if a != [] {
      assert (a + [e])[1..] == a[1..] + [e];
      GlueExtend(a[1..], e, i, j);
    }
  }

  lemma ReplaceGlue(t: seq<Edge>, n: nat, e: nat, g: Word)
    requires Nerve(t, n) && e < |t| && IsWord(g)
    ensures var t' := t[e := t[e].(g := g)];
            && Nerve(t', n) && Glue(t', t[e].i, t[e].j) == Some(g)
            && forall p: nat, q: nat :: (p, q) != (t[e].i, t[e].j) ==> Glue(t', p, q) == Glue(t, p, q)
  {
    hide Glue;
    var t' := t[e := t[e].(g := g)];
    GlueAt(t', e, t[e].i, t[e].j);
    forall p: nat, q: nat | (p, q) != (t[e].i, t[e].j) ensures Glue(t', p, q) == Glue(t, p, q) {
      GlueSame(t', t, p, q);
    }
  }

  lemma AppendGlue(t: seq<Edge>, n: nat, e: Edge)
    requires && Nerve(t, n) && e.live && e.i < e.j < n && IsWord(e.g)
             && forall f :: 0 <= f < |t| ==> !Joins(t[f], e.i, e.j)
    ensures Nerve(t + [e], n) && Glue(t + [e], e.i, e.j) == Some(e.g)
    ensures forall p: nat, q: nat :: (p, q) != (e.i, e.j) ==> Glue(t + [e], p, q) == Glue(t, p, q)
  {
    hide Glue;
    var t' := t + [e];
    GlueAt(t', |t|, e.i, e.j);
    forall p: nat, q: nat | (p, q) != (e.i, e.j) ensures Glue(t', p, q) == Glue(t, p, q) {
      GlueExtend(t, e, p, q);
    }
    forall f | 0 <= f < |t| ensures t[f].i != e.i || t[f].j != e.j {
      assert !Joins(t[f], e.i, e.j);
    }
  }
}
