/** Birkhoff-von Neumann decomposition (kernel/boulder/src/birkhoff_vn.rs): a fixed-point matrix peeled
    into weighted permutations, and the time slots that the weights select. */
module BirkhoffVn {
  import opened ModularSums
  import opened FiniteSums
  import opened Arithmetic
  import opened BipartiteMatching

  const MAX_TERMS := 65

  datatype Term = Term(theta: Fp, map_: seq<nat>)

  datatype Fault = NotSquare | NotDoublyStochastic | NoPermutationLeft | Capacity

  datatype Validation = Accepted | Refused(fault: Fault)

  datatype Result = Decomposed(terms: seq<Term>) | Failed(fault: Fault)

  // ---- sums of entries ---------------------------------------------------

  function At(m: Matrix, i: int, j: int): int {
    if 0 <= i < N && 0 <= j < N then m[i][j] else 0
  }

  function RowSum(m: Matrix, n: nat, i: int): int { Sum(j => At(m, i, j), n) }
  function ColSum(m: Matrix, n: nat, j: int): int { Sum(i => At(m, i, j), n) }
  function Mass(m: Matrix, n: nat): int { Sum(i => RowSum(m, n, i), n) }

  predicate NearOne(x: int) { FP_ONE - 4 * EPS <= x <= FP_ONE + 4 * EPS }

  ghost predicate Stochastic(m: Matrix, n: nat) {
    forall i :: 0 <= i < n ==> NearOne(RowSum(m, n, i)) && NearOne(ColSum(m, n, i))
  }

  method SumRow(m: Matrix, n: nat, r: nat) returns (s: nat)
    requires n <= N && r < N
    ensures s == RowSum(m, n, r)
  {
    s := 0;
    for c := 0 to n
      invariant s == Sum(j => At(m, r, j), c)
    {
      s := s + m[r][c];
    }
  }

  method SumCol(m: Matrix, n: nat, c: nat) returns (s: nat)
    requires n <= N && c < N
    ensures s == ColSum(m, n, c)
  {
    s := 0;
    for r := 0 to n
      invariant s == Sum(i => At(m, i, c), r)
    {
      s := s + m[r][c];
    }
  }

  method ResidualMass(m: Matrix, n: nat) returns (s: nat)
    requires n <= N
    ensures s == Mass(m, n)
  {
    hide RowSum;
    s := 0;
    for i := 0 to n
      invariant s == Sum(i => RowSum(m, n, i), i)
    {
      var row := SumRow(m, n, i);
      s := s + row;
    }
  }

  method ValidateDoublyStochastic(m: Matrix, n: nat) returns (r: Validation)
    ensures r ==
              if n == 0 || n > N then Refused(NotSquare)
              else if Stochastic(m, n) then Accepted else Refused(NotDoublyStochastic)
    ensures r.Accepted? <==>
              && 0 < n <= 8
              && (forall i :: 0 <= i < n ==> 65536 - 32 <= RowSum(m, n, i) <= 65536 + 32)
              && (forall i :: 0 <= i < n ==> 65536 - 32 <= ColSum(m, n, i) <= 65536 + 32)
  {
    hide RowSum;
    hide ColSum;
    if n == 0 || n > N { return Refused(NotSquare); }
    for i := 0 to n
      invariant forall k :: 0 <= k < i ==> NearOne(RowSum(m, n, k)) && NearOne(ColSum(m, n, k))
    {
      var rs := SumRow(m, n, i);
      var cs := SumCol(m, n, i);
      if !NearOne(rs) { return Refused(NotDoublyStochastic); }
      if !NearOne(cs) { return Refused(NotDoublyStochastic); }
    }
    return Accepted;
  }

  // ---- greedy peeling ----------------------------------------------------

  function PeelRow(row: seq<Fp>, column: nat, theta: Fp): seq<Fp> {
    if column < |row| then row[column := if row[column] < theta then 0 else row[column] - theta] else row
  }

  /** The matrix with the term subtracted along its permutation. */
  ghost function Peel(m: Matrix, n: nat, t: Term): Matrix
    requires |t.map_| == N
  {
    seq(N, i requires 0 <= i < N => if i < n then PeelRow(m[i], t.map_[i], t.theta) else m[i])
  }

  /** One greedy step: a permutation on the entries above EPS, weighted by its least entry, capped at one. */
  ghost predicate GreedyStep(m: Matrix, n: nat, t: Term) {
    && IsPermutation(t.map_, n) && OnSupport(m, n, t.map_)
    && t.theta <= FP_ONE && (forall i :: 0 <= i < n ==> t.theta <= At(m, i, t.map_[i]))
    && (t.theta == FP_ONE || exists i :: 0 <= i < n && t.theta == At(m, i, t.map_[i]))
  }

  /** What is left of m after the terms. */
  ghost function Rest(m: Matrix, n: nat, terms: seq<Term>): Matrix
    requires forall k :: 0 <= k < |terms| ==> |terms[k].map_| == N
  {
    if terms == [] then m
    else Peel(Rest(m, n, terms[..|terms| - 1]), n, terms[|terms| - 1])
  }

  ghost predicate Greedy(m: Matrix, n: nat, terms: seq<Term>)
    ensures Greedy(m, n, terms) ==> forall k :: 0 <= k < |terms| ==> |terms[k].map_| == N
  {
    terms == [] ||
    (&& Greedy(m, n, terms[..|terms| - 1])
     && GreedyStep(Rest(m, n, terms[..|terms| - 1]), n, terms[|terms| - 1]))
  }

  ghost function Total(terms: seq<Term>): nat {
    if terms == [] then 0 else Total(terms[..|terms| - 1]) + terms[|terms| - 1].theta
  }

  /** The weight the terms give to column j for row i. */
  ghost function Share(terms: seq<Term>, i: nat, j: int): nat {
    if terms == [] then 0 else Share(terms[..|terms| - 1], i, j) + Part(terms[|terms| - 1], i, j)
  }

  ghost function Part(t: Term, i: nat, j: int): nat {
    if i < |t.map_| && t.map_[i] == j then t.theta else 0
  }

  lemma PeelAt(m: Matrix, n: nat, t: Term, i: nat, j: int)
    requires GreedyStep(m, n, t) && i < n
    ensures At(m, i, j) == At(Peel(m, n, t), i, j) + Part(t, i, j)
    ensures At(Peel(m, n, t), i, j) >= 0
  {
    assert t.theta <= At(m, i, t.map_[i]);
  }

  lemma PeelRowSum(m: Matrix, n: nat, t: Term, i: nat)
    requires GreedyStep(m, n, t) && i < n
    ensures RowSum(m, n, i) == RowSum(Peel(m, n, t), n, i) + t.theta
  {
    assert |t.map_| == N && t.map_[i] < n;
    hide GreedyStep;
    hide Peel;
    var p := Peel(m, n, t);
    forall j ensures At(m, i, j) == At(p, i, j) + Part(t, i, j) {
      PeelAt(m, n, t, i, j);
    }
    SumChange(j => At(m, i, j), j => At(p, i, j), n, t.map_[i], t.theta);
  }

  lemma LastStep(m: Matrix, n: nat, terms: seq<Term>)
    requires Greedy(m, n, terms) && terms != []
    ensures var k := |terms| - 1;
            && Greedy(m, n, terms[..k]) && GreedyStep(Rest(m, n, terms[..k]), n, terms[k])
            && Rest(m, n, terms) == Peel(Rest(m, n, terms[..k]), n, terms[k])
            && Total(terms) == Total(terms[..k]) + terms[k].theta
  {
    hide GreedyStep;
    hide Peel;
  }

  /** The input is the weighted permutations plus what is left, entry by entry. */
  lemma {:induction false} DecompositionExact(m: Matrix, n: nat, terms: seq<Term>, i: nat, j: int)
    requires Greedy(m, n, terms) && i < n
    ensures At(m, i, j) == Share(terms, i, j) + At(Rest(m, n, terms), i, j)
    ensures At(Rest(m, n, terms), i, j) >= 0
  {
    hide GreedyStep;
    hide Peel;
    if terms != [] {
      var k := |terms| - 1;
      DecompositionExact(m, n, terms[..k], i, j);
      PeelAt(Rest(m, n, terms[..k]), n, terms[k], i, j);
    }
  }

  lemma {:induction false} RowsDrain(m: Matrix, n: nat, terms: seq<Term>, i: nat)
    requires Greedy(m, n, terms) && i < n
    ensures RowSum(m, n, i) == Total(terms) + RowSum(Rest(m, n, terms), n, i)
  {
    hide GreedyStep;
    hide Peel;
    hide RowSum;
    if terms != [] {
      hide Greedy;
      hide Rest;
      hide Total;
      var k := |terms| - 1;
      LastStep(m, n, terms);
      RowsDrain(m, n, terms[..k], i);
      PeelRowSum(Rest(m, n, terms[..k]), n, terms[k], i);
    }
  }

  // ---- how many terms there can be ---------------------------------------

  function NonZero(x: int): int { if x != 0 then 1 else 0 }
  function RowEntries(m: Matrix, n: nat, i: int): int { Sum(j => NonZero(At(m, i, j)), n) }
  function Entries(m: Matrix, n: nat): int { Sum(i => RowEntries(m, n, i), n) }

  lemma EntriesBound(m: Matrix, n: nat)
    ensures 0 <= Entries(m, n) <= n * n
  {
    forall i ensures 0 <= RowEntries(m, n, i) <= n {
      SumNonNegative(j => NonZero(At(m, i, j)), n);
      SumLe(j => NonZero(At(m, i, j)), j => 1, n);
      SumConstant(j => 1, n, 1);
    }
    hide RowEntries;
    SumNonNegative(i => RowEntries(m, n, i), n);
    SumLe(i => RowEntries(m, n, i), i => n, n);
    SumConstant(i => n, n, n);
  }

  lemma PeelKeepsZero(m: Matrix, n: nat, t: Term, i: nat)
    requires GreedyStep(m, n, t) && i < n
    ensures RowEntries(Peel(m, n, t), n, i) <= RowEntries(m, n, i)
    ensures t.theta == At(m, i, t.map_[i]) ==> RowEntries(Peel(m, n, t), n, i) < RowEntries(m, n, i)
  {
    var p := Peel(m, n, t);
    forall j ensures NonZero(At(p, i, j)) <= NonZero(At(m, i, j)) {
      PeelAt(m, n, t, i, j);
    }
    SumLe(j => NonZero(At(p, i, j)), j => NonZero(At(m, i, j)), n);
    if t.theta == At(m, i, t.map_[i]) {
      var at := t.map_[i];
      PeelAt(m, n, t, i, at);
      assert Supported(m, i, at);
      forall j | 0 <= j < n && j != at ensures NonZero(At(p, i, j)) == NonZero(At(m, i, j)) {
        PeelAt(m, n, t, i, j);
      }
      SumChange(j => NonZero(At(m, i, j)), j => NonZero(At(p, i, j)), n, at, 1);
    }
  }

  /** A step either clears an entry or takes a full unit of weight out of every row. */
  lemma StepClears(m: Matrix, n: nat, t: Term)
    requires GreedyStep(m, n, t) && n > 0
    ensures Entries(Peel(m, n, t), n) <= Entries(m, n)
    ensures Entries(Peel(m, n, t), n) < Entries(m, n) || (t.theta == FP_ONE && RowSum(m, n, 0) > FP_ONE)
  {
    var p := Peel(m, n, t);
    forall i | 0 <= i < n ensures RowEntries(p, n, i) <= RowEntries(m, n, i) {
      PeelKeepsZero(m, n, t, i);
    }
    SumLe(i => RowEntries(p, n, i), i => RowEntries(m, n, i), n);
    if at: nat :| at < n && t.theta == At(m, at, t.map_[at]) {
      PeelKeepsZero(m, n, t, at);
      hide RowEntries;
      StrictSum(i => RowEntries(p, n, i), i => RowEntries(m, n, i), n, at);
    } else {
      assert t.theta == FP_ONE < At(m, 0, t.map_[0]);
      TermBelowSum(j => At(m, 0, j), n, t.map_[0]);
    }
  }

  lemma {:induction false} StrictSum(f: int -> int, g: int -> int, n: nat, at: nat)
    requires at < n && f(at) < g(at)
    requires forall i {:trigger f(i)} {:trigger g(i)} :: 0 <= i < n ==> f(i) <= g(i)
    ensures Sum(f, n) < Sum(g, n)
  {
    if at == n - 1 {
      SumLe(f, g, n - 1);
    } else {
      StrictSum(f, g, n - 1, at);
      assert f(n - 1) <= g(n - 1);
    }
  }

  /** Each term clears an entry, except at most one of full weight. */
  ghost predicate TermsBounded(m: Matrix, n: nat, terms: seq<Term>)
    requires Greedy(m, n, terms)
  {
    |terms| + Entries(Rest(m, n, terms), n) <= n * n + if Total(terms) >= FP_ONE then 1 else 0
  }

  lemma {:induction false} TermsAreFew(m: Matrix, n: nat, terms: seq<Term>)
    requires Greedy(m, n, terms) && 0 < n && NearOne(RowSum(m, n, 0))
    ensures TermsBounded(m, n, terms)
  {
    hide GreedyStep;
    hide Peel;
    hide RowSum;
    hide Entries;
    if terms == [] {
      EntriesBound(m, n);
    } else {
      hide Greedy;
      hide Rest;
      hide Total;
      var k := |terms| - 1;
      LastStep(m, n, terms);
      TermsAreFew(m, n, terms[..k]);
      var rest := Rest(m, n, terms[..k]);
      StepClears(rest, n, terms[k]);
      RowsDrain(m, n, terms[..k], 0);
    }
  }

  /** No entries left, no mass left. */
  lemma NoEntriesNoMass(m: Matrix, n: nat)
    requires Entries(m, n) <= 0
    ensures Mass(m, n) == 0
  {
    forall i | 0 <= i < n ensures RowEntries(m, n, i) == 0 && RowSum(m, n, i) == 0 {
      forall k ensures RowEntries(m, n, k) >= 0 {
        SumNonNegative(j => NonZero(At(m, k, j)), n);
      }
      TermBelowSum(i => RowEntries(m, n, i), n, i);
      forall j | 0 <= j < n ensures At(m, i, j) == 0 {
        TermBelowSum(j => NonZero(At(m, i, j)), n, j);
      }
      SumConstant(j => At(m, i, j), n, 0);
    }
    SumConstant(i => RowSum(m, n, i), n, 0);
  }

  // ---- the decomposition -------------------------------------------------

  /** Mass to place but no permutation above EPS to place it on. */
  ghost predicate Stuck(m: Matrix, n: nat) {
    Mass(m, n) > EPS * n && NoneOnSupport(m, n)
  }

  ghost predicate StuckAfter(m: Matrix, n: nat, terms: seq<Term>) {
    Greedy(m, n, terms) && Stuck(Rest(m, n, terms), n)
  }

  /** The loop has placed all but a remainder of at most EPS per row. */
  ghost predicate Complete(m: Matrix, n: nat, terms: seq<Term>) {
    Greedy(m, n, terms) && Mass(Rest(m, n, terms), n) <= EPS * n
  }

  // ---- exact inputs: Birkhoff's theorem ----------------------------------

  /** Entries are multiples of d, and all rows and columns sum to s. */
  ghost predicate Even(m: Matrix, n: nat, d: nat, s: int) {
    && d > EPS
    && (forall i, j :: 0 <= i < n && 0 <= j < n ==> Divides(d, At(m, i, j)))
    && (forall i :: 0 <= i < n ==> RowSum(m, n, i) == s && ColSum(m, n, i) == s)
  }

  /** An exactly doubly stochastic matrix on a grid coarser than EPS. */
  ghost predicate Grid(m: Matrix, n: nat) {
    exists d :: Even(m, n, d, FP_ONE)
  }

  lemma GridIsStochastic(m: Matrix, n: nat)
    ensures Grid(m, n) ==> Stochastic(m, n)
  {
  }

  lemma InBelow(n: nat, k: nat)
    ensures k in Below(n) <==> k < n
  {
  }

  lemma BelowWithout(n: nat, j: nat)
    requires j < n
    ensures |Below(n) - {j}| == n - 1
  {
    BelowSize(n);
    InBelow(n, j);
  }

  lemma Missed(p: seq<nat>, n: nat, j: nat)
    requires IsPermutation(p, n) && forall k :: 0 <= k < n ==> p[k] != j
    ensures forall k :: k in Below(n) ==> k < n && p[k] in Below(n) - {j}
  {
    hide Below;
    forall k | k in Below(n) ensures k < n && p[k] in Below(n) - {j} {
      InBelow(n, k);
      InBelow(n, p[k]);
    }
  }

  /** An injective map of the first n numbers to themselves misses none. */
  lemma Onto(p: seq<nat>, n: nat, j: nat) returns (i: nat)
    requires IsPermutation(p, n) && j < n
    ensures i < n && p[i] == j
  {
    hide Below;
    if forall k :: 0 <= k < n ==> p[k] != j {
      Missed(p, n, j);
      BelowSize(n);
      BelowWithout(n, j);
      hide IsPermutation;
      Pigeonhole(p, n, Below(n), Below(n) - {j});
      assert false;
    }
    i :| 0 <= i < n && p[i] == j;
  }

  lemma PeelColSum(m: Matrix, n: nat, t: Term, j: nat)
    requires GreedyStep(m, n, t) && j < n
    ensures ColSum(m, n, j) == ColSum(Peel(m, n, t), n, j) + t.theta
  {
    assert |t.map_| == N;
    var p := Peel(m, n, t);
    var at := Onto(t.map_, n, j);
    forall i | 0 <= i < n && i != at ensures t.map_[i] != j {
      assert i < at || at < i;
    }
    hide Peel;
    forall i | 0 <= i < n ensures At(m, i, j) == At(p, i, j) + Part(t, i, j) {
      PeelAt(m, n, t, i, j);
    }
    hide GreedyStep;
    SumChange(i => At(m, i, j), i => At(p, i, j), n, at, t.theta);
  }

  lemma ThetaOnGrid(m: Matrix, n: nat, t: Term, d: nat, s: int)
    requires GreedyStep(m, n, t) && Even(m, n, d, s) && Divides(d, FP_ONE)
    ensures Divides(d, t.theta)
  {
    hide RowSum;
    hide ColSum;
    if t.theta != FP_ONE {
      var i :| 0 <= i < n && t.theta == At(m, i, t.map_[i]);
      assert t.map_[i] < n;
    }
  }

  lemma PeelEven(m: Matrix, n: nat, t: Term, d: nat, s: int)
    requires GreedyStep(m, n, t) && Even(m, n, d, s) && Divides(d, FP_ONE)
    ensures |t.map_| == N && Even(Peel(m, n, t), n, d, s - t.theta)
  {
    assert |t.map_| == N;
    ThetaOnGrid(m, n, t, d, s);
    hide Divides;
    hide GreedyStep;
    hide Peel;
    hide RowSum;
    hide ColSum;
    var p := Peel(m, n, t);
    forall i, j | 0 <= i < n && 0 <= j < n ensures Divides(d, At(p, i, j)) {
      PeelAt(m, n, t, i, j);
      assert Divides(d, At(m, i, j));
      MultipleSum(At(m, i, j), t.theta, d);
    }
    forall i | 0 <= i < n ensures RowSum(p, n, i) == s - t.theta && ColSum(p, n, i) == s - t.theta {
      PeelRowSum(m, n, t, i);
      PeelColSum(m, n, t, i);
    }
  }

  lemma {:induction false} RestEven(m: Matrix, n: nat, terms: seq<Term>, d: nat)
    requires Greedy(m, n, terms) && Even(m, n, d, FP_ONE) && n > 0
    ensures Even(Rest(m, n, terms), n, d, FP_ONE - Total(terms))
  {
    hide Divides;
    hide Even;
    hide GreedyStep;
    hide Peel;
    UnitOnGrid(m, n, d);
    if terms != [] {
      hide Greedy;
      hide Rest;
      hide Total;
      var k := |terms| - 1;
      LastStep(m, n, terms);
      RestEven(m, n, terms[..k], d);
      PeelEven(Rest(m, n, terms[..k]), n, terms[k], d, FP_ONE - Total(terms[..k]));
    }
  }

  lemma UnitOnGrid(m: Matrix, n: nat, d: nat)
    requires Even(m, n, d, FP_ONE) && n > 0
    ensures Divides(d, FP_ONE)
  {
    forall j | 0 <= j < n ensures Divides(d, At(m, 0, j)) {
    }
    SumMultiple(j => At(m, 0, j), n, d);
    assert RowSum(m, n, 0) == FP_ONE;
  }

  lemma EvenMass(m: Matrix, n: nat, d: nat, s: int)
    requires Even(m, n, d, s)
    ensures Mass(m, n) == n * s
  {
    hide RowSum;
    SumConstant(i => RowSum(m, n, i), n, s);
  }

  function Within(s: set<nat>, i: int, x: int): int { if i in s then x else 0 }

  /** The part of row i that lies in the given rows, or in the given columns; the part of column j in the
      given columns. */
  function RowInRows(m: Matrix, n: nat, rows: set<nat>, i: int): int { Sum(j => Within(rows, i, At(m, i, j)), n) }
  function RowInColumns(m: Matrix, n: nat, columns: set<nat>, i: int): int {
    Sum(j => Within(columns, j, At(m, i, j)), n)
  }
  function ColumnInColumns(m: Matrix, n: nat, columns: set<nat>, j: int): int {
    Sum(i => Within(columns, j, At(m, i, j)), n)
  }

  /** The rows of a violator carry no more mass than its columns. */
  lemma ViolatorMass(m: Matrix, n: nat, d: nat, s: int, rows: set<nat>, columns: set<nat>)
    requires Even(m, n, d, s) && Violator(m, n, rows, columns)
    ensures |rows| * s <= |columns| * s
  {
    forall i | 0 <= i < n ensures RowInRows(m, n, rows, i) <= RowInColumns(m, n, columns, i) {
      forall j | 0 <= j < n ensures Within(rows, i, At(m, i, j)) <= Within(columns, j, At(m, i, j)) {
        OffColumns(m, n, d, s, rows, columns, i, j);
      }
      SumLe(j => Within(rows, i, At(m, i, j)), j => Within(columns, j, At(m, i, j)), n);
    }
    hide RowInRows;
    hide RowInColumns;
    SumLe(i => RowInRows(m, n, rows, i), i => RowInColumns(m, n, columns, i), n);
    ByColumns(m, n, columns);
    RowsMass(m, n, d, s, rows);
    ColumnsMass(m, n, d, s, columns);
  }

  lemma ByColumns(m: Matrix, n: nat, columns: set<nat>)
    ensures Sum(i => RowInColumns(m, n, columns, i), n) == Sum(j => ColumnInColumns(m, n, columns, j), n)
  {
    var g := (i: int, j: int) => Within(columns, j, At(m, i, j));
    SumSwap(g, n, n);
    forall i ensures RowInColumns(m, n, columns, i) == Sum(j => g(i, j), n) {
      SumEqual(j => Within(columns, j, At(m, i, j)), j => g(i, j), n);
    }
    forall j ensures ColumnInColumns(m, n, columns, j) == Sum(i => g(i, j), n) {
      SumEqual(i => Within(columns, j, At(m, i, j)), i => g(i, j), n);
    }
    SumEqual(i => RowInColumns(m, n, columns, i), i => Sum(j => g(i, j), n), n);
    SumEqual(j => ColumnInColumns(m, n, columns, j), j => Sum(i => g(i, j), n), n);
  }

  lemma OffColumns(m: Matrix, n: nat, d: nat, s: int, rows: set<nat>, columns: set<nat>, i: nat, j: nat)
    requires Even(m, n, d, s) && Violator(m, n, rows, columns) && i < n && j < n
    ensures Within(rows, i, At(m, i, j)) <= Within(columns, j, At(m, i, j))
  {
    hide RowSum;
    hide ColSum;
    if i in rows && j !in columns {
      assert !Supported(m, i, j);
      assert Divides(d, At(m, i, j));
      SmallResidue(d, At(m, i, j));
    }
  }

  function Member(s: set<nat>, i: int): int { if i in s then 1 else 0 }

  lemma RowMass(m: Matrix, n: nat, rows: set<nat>, i: int)
    ensures RowInRows(m, n, rows, i) == RowSum(m, n, i) * Member(rows, i)
  {
    if i in rows {
      SumEqual(j => Within(rows, i, At(m, i, j)), j => At(m, i, j), n);
    } else {
      SumConstant(j => Within(rows, i, At(m, i, j)), n, 0);
    }
  }

  lemma ColumnMass(m: Matrix, n: nat, columns: set<nat>, j: int)
    ensures ColumnInColumns(m, n, columns, j) == ColSum(m, n, j) * Member(columns, j)
  {
    if j in columns {
      SumEqual(i => Within(columns, j, At(m, i, j)), i => At(m, i, j), n);
    } else {
      SumConstant(i => Within(columns, j, At(m, i, j)), n, 0);
    }
  }

  lemma MembersMass(f: int -> int, n: nat, s: int, members: set<nat>)
    requires (forall i :: i in members ==> i < n) && forall i :: 0 <= i < n ==> f(i) == s * Member(members, i)
    ensures Sum(f, n) == |members| * s
  {
    SumEqual(f, i => s * Member(members, i), n);
    SumScale(s, i => Member(members, i), n);
    SumEqual(i => Member(members, i), i => if i in members then 1 else 0, n);
    CountMembers(members, n);
    SumEqual(i => s * Member(members, i), i => s * (i => Member(members, i))(i), n);
  }

  lemma RowsMass(m: Matrix, n: nat, d: nat, s: int, rows: set<nat>)
    requires Even(m, n, d, s) && forall i :: i in rows ==> i < n
    ensures Sum(i => RowInRows(m, n, rows, i), n) == |rows| * s
  {
    hide RowSum;
    hide RowInRows;
    forall i | 0 <= i < n ensures RowInRows(m, n, rows, i) == s * Member(rows, i) {
      RowMass(m, n, rows, i);
    }
    MembersMass(i => RowInRows(m, n, rows, i), n, s, rows);
  }

  lemma ColumnsMass(m: Matrix, n: nat, d: nat, s: int, columns: set<nat>)
    requires Even(m, n, d, s) && forall j :: j in columns ==> j < n
    ensures Sum(j => ColumnInColumns(m, n, columns, j), n) == |columns| * s
  {
    hide ColSum;
    hide ColumnInColumns;
    forall j | 0 <= j < n ensures ColumnInColumns(m, n, columns, j) == s * Member(columns, j) {
      ColumnMass(m, n, columns, j);
    }
    MembersMass(j => ColumnInColumns(m, n, columns, j), n, s, columns);
  }

  lemma Positive(x: int, y: int)
    ensures x > 0 && y > 0 ==> x * y > 0
  {
  }

  lemma Cancel(a: nat, b: nat, s: int)
    requires a > b && a * s <= b * s
    ensures s <= 0
  {
    Positive(a - b, s);
    assert (a - b) * s == a * s - b * s;
  }

  lemma CancelLe(n: nat, s: int, c: int)
    requires n > 0 && n * s <= n * c
    ensures s <= c
  {
    Positive(n, s - c);
    assert n * (s - c) == n * s - n * c;
  }

  lemma EvenIsNotStuck(m: Matrix, n: nat, d: nat, s: int, rows: set<nat>, columns: set<nat>)
    requires Even(m, n, d, s) && Violator(m, n, rows, columns) && n > 0
    ensures Mass(m, n) <= 0
  {
    EvenMass(m, n, d, s);
    ViolatorMass(m, n, d, s, rows, columns);
    hide Mass;
    hide Even;
    hide Violator;
    assert |rows| > |columns| by { ViolatorSize(m, n, rows, columns); }
    Cancel(|rows|, |columns|, s);
    MulMonotone(n, s, 0);
  }

  lemma ViolatorSize(m: Matrix, n: nat, rows: set<nat>, columns: set<nat>)
    requires Violator(m, n, rows, columns)
    ensures |rows| > |columns|
  {
  }

  /** On a grid the search never fails while there is mass: each residual is again even. */
  lemma NeverStuckOnGrid(m: Matrix, n: nat, terms: seq<Term>, rows: set<nat>, columns: set<nat>)
    requires Greedy(m, n, terms) && Mass(Rest(m, n, terms), n) > EPS * n && n > 0
    requires Violator(Rest(m, n, terms), n, rows, columns)
    ensures !Grid(m, n)
  {
    hide Mass;
    hide Violator;
    hide Even;
    hide Rest;
    if Grid(m, n) {
      var d :| Even(m, n, d, FP_ONE);
      RestEven(m, n, terms, d);
      EvenIsNotStuck(Rest(m, n, terms), n, d, FP_ONE - Total(terms), rows, columns);
      assert false;
    }
  }

  /** Birkhoff's theorem for the grid inputs: the weights sum to one and nothing is left. */
  lemma GridExact(m: Matrix, n: nat, terms: seq<Term>, i: nat, j: nat)
    requires 0 < n <= N && Grid(m, n) && Complete(m, n, terms) && i < n && j < n
    ensures Total(terms) == FP_ONE && At(m, i, j) == Share(terms, i, j)
  {
    hide Even;
    hide Mass;
    hide Greedy;
    hide Rest;
    var d :| Even(m, n, d, FP_ONE);
    RestEven(m, n, terms, d);
    var rest, s := Rest(m, n, terms), FP_ONE - Total(terms);
    EvenMass(rest, n, d, s);
    CancelLe(n, s, EPS);
    EvenRowZero(rest, n, d, s, i);
    EvenRowZero(rest, n, d, s, 0);
    DecompositionExact(m, n, terms, i, j);
  }

  lemma EvenRowZero(m: Matrix, n: nat, d: nat, s: int, i: nat)
    requires Even(m, n, d, s) && s <= EPS && i < n
    ensures s == 0 && forall j :: 0 <= j < n ==> At(m, i, j) == 0
  {
    forall j | 0 <= j < n ensures Divides(d, At(m, i, j)) {
    }
    SumMultiple(j => At(m, i, j), n, d);
    SumNonNegative(j => At(m, i, j), n);
    assert RowSum(m, n, i) == s;
    SmallResidue(d, s);
    forall j | 0 <= j < n ensures At(m, i, j) == 0 {
      TermBelowSum(j => At(m, i, j), n, j);
    }
  }

  // ---- entries too light to place ----------------------------------------

  function Light(x: int): int { if x <= EPS then x else 0 }
  function RowLight(m: Matrix, n: nat, i: int): int { Sum(j => Light(At(m, i, j)), n) }

  /** The weight of the entries no permutation may use. */
  function LightMass(m: Matrix, n: nat): int { Sum(i => RowLight(m, n, i), n) }

  /** A greedy step leaves a light entry alone. */
  lemma PeelKeepsLight(m: Matrix, n: nat, t: Term, i: nat, j: int)
    requires GreedyStep(m, n, t) && i < n && At(m, i, j) <= EPS
    ensures At(Peel(m, n, t), i, j) == At(m, i, j)
  {
    PeelAt(m, n, t, i, j);
    assert Supported(m, i, t.map_[i]);
  }

  lemma {:induction false} LightStays(m: Matrix, n: nat, terms: seq<Term>, i: nat, j: int)
    requires Greedy(m, n, terms) && i < n && At(m, i, j) <= EPS
    ensures At(Rest(m, n, terms), i, j) == At(m, i, j)
  {
    hide GreedyStep;
    hide Peel;
    hide At;
    if terms != [] {
      hide Greedy;
      hide Rest;
      var k := |terms| - 1;
      LastStep(m, n, terms);
      LightStays(m, n, terms[..k], i, j);
      PeelKeepsLight(Rest(m, n, terms[..k]), n, terms[k], i, j);
    }
  }

  /** Whatever greedy steps are taken, the light entries of the input are left over. */
  lemma LightMassLeft(m: Matrix, n: nat, terms: seq<Term>)
    requires Greedy(m, n, terms)
    ensures LightMass(m, n) <= Mass(Rest(m, n, terms), n)
  {
    hide Greedy;
    hide Rest;
    hide At;
    var rest := Rest(m, n, terms);
    forall i | 0 <= i < n ensures RowLight(m, n, i) <= RowSum(rest, n, i) {
      forall j ensures Light(At(m, i, j)) <= At(rest, i, j) {
        DecompositionExact(m, n, terms, i, j);
        if At(m, i, j) <= EPS { LightStays(m, n, terms, i, j); }
      }
      SumLe(j => Light(At(m, i, j)), j => At(rest, i, j), n);
    }
    hide RowLight;
    hide RowSum;
    SumLe(i => RowLight(m, n, i), i => RowSum(rest, n, i), n);
  }

  /** No decomposition is complete when the light entries weigh more than EPS per row. */
  lemma LightMassRefused(m: Matrix, n: nat, terms: seq<Term>)
    requires Complete(m, n, terms)
    ensures LightMass(m, n) <= EPS * n
  {
    LightMassLeft(m, n, terms);
  }

  // ---- the bounds the loop relies on -------------------------------------

  lemma RowsHeavy(m: Matrix, n: nat, c: int)
    requires forall i :: 0 <= i < n ==> RowSum(m, n, i) >= c
    ensures Mass(m, n) >= n * c
  {
    hide RowSum;
    SumLe(i => c, i => RowSum(m, n, i), n);
    SumConstant(i => c, n, c);
  }

  /** A stochastic matrix is too heavy to need no term. */
  lemma NotEmpty(m: Matrix, n: nat, terms: seq<Term>)
    requires Stochastic(m, n) && Complete(m, n, terms) && n > 0
    ensures terms != []
  {
    hide RowSum;
    hide ColSum;
    hide Mass;
    RowsHeavy(m, n, FP_ONE - 4 * EPS);
    MulMonotone(n, EPS + 1, FP_ONE - 4 * EPS);
  }

  /** When all iterations have placed a term, every entry has been cleared. */
  lemma AllPlaced(m: Matrix, n: nat, terms: seq<Term>)
    requires 0 < n <= N && Stochastic(m, n) && Greedy(m, n, terms) && |terms| == MAX_TERMS
    ensures Complete(m, n, terms)
  {
    hide RowSum;
    hide ColSum;
    hide Mass;
    hide Entries;
    hide Rest;
    TermsAreFew(m, n, terms);
    MulMonotone(n, n, N);
    MulMonotone(N, n, N);
    NoEntriesNoMass(Rest(m, n, terms), n);
  }

  // ---- the loop ----------------------------------------------------------

  method LeastEntry(m: Matrix, n: nat, map_: seq<nat>) returns (theta: Fp)
    requires IsPermutation(map_, n) && OnSupport(m, n, map_)
    ensures theta > EPS && GreedyStep(m, n, Term(theta, map_))
  {
    theta := FP_ONE;
    for i := 0 to n
      invariant EPS < theta <= FP_ONE && forall k :: 0 <= k < i ==> theta <= At(m, k, map_[k])
      invariant theta == FP_ONE || exists k :: 0 <= k < i && theta == At(m, k, map_[k])
    {
      assert Supported(m, i, map_[i]);
      if m[i][map_[i]] < theta {
        theta := m[i][map_[i]];
        assert theta == At(m, i, map_[i]);
      }
    }
  }

  method Subtract(a: array<seq<Fp>>, n: nat, t: Term)
    requires a.Length == N && n <= N && |t.map_| == N && forall i :: 0 <= i < N ==> |a[i]| == N
    modifies a
    ensures forall i :: 0 <= i < N ==> |a[i]| == N
    ensures a[..] == Peel(old(a[..]), n, t)
  {
    for i := 0 to n
      invariant forall k :: 0 <= k < N ==> |a[k]| == N
      invariant forall k :: 0 <= k < N ==> a[k] == if k < i then PeelRow(old(a[k]), t.map_[k], t.theta) else old(a[k])
    {
      a[i] := PeelRow(a[i], t.map_[i], t.theta);
    }
  }

  method Decompose(input: Matrix, n: nat) returns (r: Result)
    ensures r.Decomposed? ==>
              0 < n <= N && Stochastic(input, n) && Complete(input, n, r.terms) && 0 < |r.terms| <= MAX_TERMS
    ensures r == Failed(NotSquare) <==> n == 0 || n > N
    ensures r == Failed(NotDoublyStochastic) <==> 0 < n <= N && !Stochastic(input, n)
    ensures r == Failed(NoPermutationLeft) ==> 0 < n <= N && exists terms :: StuckAfter(input, n, terms)
    ensures r != Failed(Capacity)
    ensures 0 < n <= N && Grid(input, n) ==> r.Decomposed?
    ensures 0 < n <= N && Stochastic(input, n) && LightMass(input, n) > EPS * n ==> r == Failed(NoPermutationLeft)
  {
    hide Stochastic;
    hide Grid;
    hide StuckAfter;
    hide Complete;
    hide LightMass;
    var valid := ValidateDoublyStochastic(input, n);
    if valid.Refused? {
      if 0 < n <= N { GridIsStochastic(input, n); }
      return Failed(valid.fault);
    }
    r := PeelAll(input, n);
    if r.Decomposed? { LightMassRefused(input, n, r.terms); }
  }

  /** The main loop, on a validated matrix. */
  method PeelAll(input: Matrix, n: nat) returns (r: Result)
    requires 0 < n <= N && Stochastic(input, n)
    ensures r.Decomposed? ==> Complete(input, n, r.terms) && 0 < |r.terms| <= MAX_TERMS
    ensures r.Failed? ==> r.fault.NoPermutationLeft? && !Grid(input, n) && exists terms :: StuckAfter(input, n, terms)
  {
    hide Stochastic;
    hide Grid;
    hide StuckAfter;
    hide Complete;
    hide Greedy;
    hide Rest;
    hide Mass;
    var m := new seq<Fp>[N](i requires 0 <= i < N => input[i]);
    assert m[..] == input;
    var terms: seq<Term> := [];
    StartGreedy(input, n);
    var guard := 0;
    while guard < MAX_TERMS
      invariant 0 <= guard <= MAX_TERMS && |terms| == guard
      invariant Rows(m) && Greedy(input, n, terms) && m[..] == Rest(input, n, terms)
      modifies m
    {
      guard := guard + 1;
      var mass := ResidualMass(m[..], n);
      if mass <= EPS * n {
        Finished(input, n, terms);
        return Decomposed(terms);
      }
      var t := PlaceTerm(m, input, n, terms);
      if t.NoTerm? { return Failed(NoPermutationLeft); }
      if |terms| >= MAX_TERMS { return Failed(Capacity); }
      terms := terms + [t.term];
    }
    AllPlaced(input, n, terms);
    return Decomposed(terms);
  }

  datatype Placement = NoTerm | NextTerm(term: Term)

  ghost predicate Rows(m: array<seq<Fp>>)
    reads m
  {
    m.Length == N && forall i :: 0 <= i < N ==> |m[i]| == N
  }

  /** One round of the loop: a permutation, its weight, and the subtraction in place. */
  method PlaceTerm(m: array<seq<Fp>>, ghost input: Matrix, n: nat, ghost terms: seq<Term>) returns (t: Placement)
    requires && 0 < n <= N && Rows(m) && Greedy(input, n, terms) && m[..] == Rest(input, n, terms)
             && Mass(m[..], n) > EPS * n
    modifies m
    ensures Rows(m)
    ensures t.NoTerm? ==> !Grid(input, n) && StuckAfter(input, n, terms)
    ensures t.NextTerm? ==> Greedy(input, n, terms + [t.term]) && m[..] == Rest(input, n, terms + [t.term])
  {
    hide Greedy;
    hide Rest;
    hide Mass;
    hide GreedyStep;
    hide Peel;
    hide Grid;
    hide NoneOnSupport;
    hide Violator;
    hide IsPermutation;
    hide OnSupport;
    var found := FindPerm(m[..], n);
    if found.NoPermutation? {
      ghost var rows, columns :| Violator(m[..], n, rows, columns);
      NeverStuckOnGrid(input, n, terms, rows, columns);
      return NoTerm;
    }
    var theta := LeastEntry(m[..], n, found.map_);
    if theta <= EPS { return NoTerm; }
    var term := Term(theta, found.map_);
    NextGreedy(input, n, terms, term);
    Subtract(m, n, term);
    return NextTerm(term);
  }

  lemma StartGreedy(m: Matrix, n: nat)
    ensures Greedy(m, n, []) && Rest(m, n, []) == m
  {
  }

  lemma NextGreedy(m: Matrix, n: nat, terms: seq<Term>, t: Term)
    requires Greedy(m, n, terms) && GreedyStep(Rest(m, n, terms), n, t)
    ensures Greedy(m, n, terms + [t]) && |t.map_| == N && Rest(m, n, terms + [t]) == Peel(Rest(m, n, terms), n, t)
  {
    assert (terms + [t])[..|terms|] == terms;
  }

  lemma Finished(m: Matrix, n: nat, terms: seq<Term>)
    requires 0 < n && Stochastic(m, n) && Greedy(m, n, terms) && Mass(Rest(m, n, terms), n) <= EPS * n
    ensures Complete(m, n, terms) && terms != []
  {
    NotEmpty(m, n, terms);
  }

  // ---- time slots --------------------------------------------------------

  const IDENTITY: seq<nat> := [0, 1, 2, 3, 4, 5, 6, 7]

  /** The permutation whose stretch of weights holds t; the last one takes every later t. */
  function Pick(terms: seq<Term>, t: int): seq<nat> {
    if terms == [] then IDENTITY
    else if t < terms[0].theta || |terms| == 1 then terms[0].map_
    else Pick(terms[1..], t - terms[0].theta)
  }

  method SelectSlot(terms: seq<Term>, phase: nat) returns (map_: seq<nat>)
    ensures map_ == Pick(terms, phase % FP_ONE)
  {
    var acc := 0;
    var t := phase % FP_ONE;
    ghost var before := 0;
    for i := 0 to |terms|
      invariant acc == if before > 0xFFFF_FFFF then 0xFFFF_FFFF else before
      invariant 0 <= before <= t && (i > 0 ==> terms != [])
      invariant Pick(terms, t) ==
                  if i < |terms| then Pick(terms[i..], t - before)
                  else if terms == [] then IDENTITY else terms[|terms| - 1].map_
    {
      assert terms[i..][0] == terms[i] && terms[i..][1..] == terms[i + 1..];
      acc := if acc + terms[i].theta > 0xFFFF_FFFF then 0xFFFF_FFFF else acc + terms[i].theta;
      if t < acc { return terms[i].map_; }
      before := before + terms[i].theta;
    }
    if |terms| > 0 { return terms[|terms| - 1].map_; }
    return IDENTITY;
  }

  function Hit(map_: seq<nat>, i: nat, j: int): int { if i < |map_| && map_[i] == j then 1 else 0 }

  /** How many of the first `span` phases give column j to row i. */
  function Served(terms: seq<Term>, i: nat, j: int, span: nat): int { Sum(t => Hit(Pick(terms, t), i, j), span) }

  lemma {:induction false} TotalFront(terms: seq<Term>)
    requires terms != []
    ensures Total(terms) == terms[0].theta + Total(terms[1..])
  {
    if |terms| > 1 {
      var k := |terms| - 1;
      assert terms[..k][1..] == terms[1..][..k - 1];
      TotalFront(terms[..k]);
    }
  }

  lemma {:induction false} ShareFront(terms: seq<Term>, i: nat, j: int)
    requires terms != []
    ensures Share(terms, i, j) == Part(terms[0], i, j) + Share(terms[1..], i, j)
  {
    if |terms| > 1 {
      var k := |terms| - 1;
      assert terms[..k][1..] == terms[1..][..k - 1];
      ShareFront(terms[..k], i, j);
    }
  }

  lemma {:induction false} ShareWithinTotal(terms: seq<Term>, i: nat, j: int)
    ensures Share(terms, i, j) <= Total(terms)
  {
    if terms != [] { ShareWithinTotal(terms[..|terms| - 1], i, j); }
  }

  /** A stretch of phases all given to one permutation. */
  lemma ServedFlat(terms: seq<Term>, i: nat, j: int, span: nat)
    requires terms != [] && (span <= terms[0].theta || |terms| == 1)
    ensures Served(terms, i, j, span) == span * Hit(terms[0].map_, i, j)
  {
    SumConstant(t => Hit(Pick(terms, t), i, j), span, Hit(terms[0].map_, i, j));
  }

  lemma ServedSplit(terms: seq<Term>, i: nat, j: int, span: nat)
    requires |terms| > 1 && span > terms[0].theta
    ensures Served(terms, i, j, span) ==
              Served(terms, i, j, terms[0].theta) + Served(terms[1..], i, j, span - terms[0].theta)
  {
    var a := terms[0].theta;
    var f := t => Hit(Pick(terms, t), i, j);
    SumSplit(f, a, span - a);
    SumEqual(t => f(a + t), t => Hit(Pick(terms[1..], t), i, j), span - a);
  }

  /** Phases served against weights: exact up to the difference between the span and the total weight. */
  lemma {:induction false} ServedBounds(terms: seq<Term>, i: nat, j: int, span: nat)
    requires terms != []
    ensures var total, share, served := Total(terms), Share(terms, i, j), Served(terms, i, j, span);
            if span >= total then share <= served <= share + (span - total)
            else share - (total - span) <= served <= share
  {
    hide Served;
    TotalFront(terms);
    ShareFront(terms, i, j);
    ShareWithinTotal(terms[1..], i, j);
    var a := terms[0].theta;
    if span <= a || |terms| == 1 {
      ServedFlat(terms, i, j, span);
    } else {
      ServedFlat(terms, i, j, a);
      ServedSplit(terms, i, j, span);
      ServedBounds(terms[1..], i, j, span - a);
    }
  }

  /** The weights of a complete decomposition sum to one up to the validation and stopping tolerances. */
  lemma TotalBounds(m: Matrix, n: nat, terms: seq<Term>)
    requires 0 < n && Stochastic(m, n) && Complete(m, n, terms)
    ensures FP_ONE - 5 * EPS <= Total(terms) <= FP_ONE + 4 * EPS
  {
    hide RowSum;
    hide ColSum;
    hide Rest;
    hide Greedy;
    hide Total;
    hide Mass;
    var rest := Rest(m, n, terms);
    forall i | 0 <= i < n
      ensures FP_ONE - 4 * EPS <= Total(terms) + RowSum(rest, n, i) <= FP_ONE + 4 * EPS && RowSum(rest, n, i) >= 0
    {
      RowsDrain(m, n, terms, i);
      assert NearOne(RowSum(m, n, i));
      RestRow(m, n, terms, i);
    }
    assert Total(terms) + RowSum(rest, n, 0) <= FP_ONE + 4 * EPS;
    RowsHeavy(rest, n, FP_ONE - 4 * EPS - Total(terms));
    CancelLe(n, FP_ONE - 4 * EPS - Total(terms), EPS);
  }

  lemma RestRow(m: Matrix, n: nat, terms: seq<Term>, i: nat)
    requires Greedy(m, n, terms) && i < n
    ensures RowSum(Rest(m, n, terms), n, i) >= 0
  {
    hide Rest;
    hide Greedy;
    SumNonNegative(j => At(Rest(m, n, terms), i, j), n);
  }

  /** One entry of the residual is at most its whole mass. */
  lemma EntryBelowMass(m: Matrix, n: nat, i: nat, j: nat)
    requires i < n && j < n
    ensures At(m, i, j) <= Mass(m, n)
  {
    forall k ensures RowSum(m, n, k) >= 0 {
      SumNonNegative(j => At(m, k, j), n);
    }
    TermBelowSum(j => At(m, i, j), n, j);
    hide RowSum;
    TermBelowSum(i => RowSum(m, n, i), n, i);
  }

  /** Over one full cycle of phases, row i gets column j for as many phases as m[i][j] says, up to the tolerances. */
  lemma SlotShares(m: Matrix, n: nat, terms: seq<Term>, i: nat, j: nat)
    requires 0 < n && Stochastic(m, n) && Complete(m, n, terms) && terms != [] && i < n && j < n
    ensures At(m, i, j) - EPS * n - 4 * EPS <= Served(terms, i, j, FP_ONE) <= At(m, i, j) + 5 * EPS
  {
    hide Stochastic;
    hide Greedy;
    hide Rest;
    hide Mass;
    hide Served;
    hide Total;
    TotalBounds(m, n, terms);
    ServedBounds(terms, i, j, FP_ONE);
    DecompositionExact(m, n, terms, i, j);
    EntryBelowMass(Rest(m, n, terms), n, i, j);
  }

  /** On grid inputs the schedule is exact. */
  lemma GridServedExactly(m: Matrix, n: nat, terms: seq<Term>, i: nat, j: nat)
    requires 0 < n <= N && Grid(m, n) && Complete(m, n, terms) && terms != [] && i < n && j < n
    ensures Served(terms, i, j, FP_ONE) == At(m, i, j)
  {
    GridExact(m, n, terms, i, j);
    ServedBounds(terms, i, j, FP_ONE);
  }

  // ---- a doubly stochastic input the loop gives up on --------------------

  /** Exactly doubly stochastic, with off-diagonal entries of EPS. */
  const FINE_ROW_0: seq<Fp> := [FP_ONE - 16, 8, 8, 0, 0, 0, 0, 0]
  const FINE_ROW_1: seq<Fp> := [8, FP_ONE - 16, 8, 0, 0, 0, 0, 0]
  const FINE_ROW_2: seq<Fp> := [8, 8, FP_ONE - 16, 0, 0, 0, 0, 0]
  const ZERO_ROW: seq<Fp> := [0, 0, 0, 0, 0, 0, 0, 0]
  const FINE: Matrix := [FINE_ROW_0, FINE_ROW_1, FINE_ROW_2, ZERO_ROW, ZERO_ROW, ZERO_ROW, ZERO_ROW, ZERO_ROW]

  lemma Three(f: int -> int)
    ensures Sum(f, 3) == f(0) + f(1) + f(2)
  {
    assert Sum(f, 1) == f(0);
    assert Sum(f, 2) == f(0) + f(1);
  }

  lemma FineRow(i: nat)
    requires i < 3
    ensures RowSum(FINE, 3, i) == FP_ONE && ColSum(FINE, 3, i) == FP_ONE && RowLight(FINE, 3, i) == 16
  {
    Three(j => At(FINE, i, j));
    Three(k => At(FINE, k, i));
    Three(j => Light(At(FINE, i, j)));
  }

  /** Every row and column sums to exactly one, and the light entries are too many to drop. */
  lemma FineIsStochastic()
    ensures Stochastic(FINE, 3) && LightMass(FINE, 3) > EPS * 3
    ensures forall i :: 0 <= i < 3 ==> RowSum(FINE, 3, i) == FP_ONE && ColSum(FINE, 3, i) == FP_ONE
  {
    forall i: nat | i < 3 ensures RowSum(FINE, 3, i) == ColSum(FINE, 3, i) == FP_ONE && RowLight(FINE, 3, i) == 16 {
      FineRow(i);
    }
    hide RowSum;
    hide ColSum;
    hide RowLight;
    SumConstant(i => RowLight(FINE, 3, i), 3, 16);
  }

  /** The decomposition promised for doubly stochastic matrices is refused for this one: its entries of EPS
      are too small to place and together too large to drop. */
  method RefuseFine() returns (r: Result)
    ensures Stochastic(FINE, 3) && r == Failed(NoPermutationLeft)
  {
    hide Stochastic;
    hide LightMass;
    FineIsStochastic();
    r := Decompose(FINE, 3);
  }
}
