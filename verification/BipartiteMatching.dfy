/** `find_perm` of kernel/boulder/src/birkhoff_vn.rs: augmenting-path search for a permutation on the
    entries above the threshold, and Hall's condition for its failure. */
module BipartiteMatching {

  const N := 8
  const FP_ONE := 0x1_0000
  const EPS := 8
  /** Marks an unmatched column. */
  const FREE := 0xFF

  type Fp = x: int | 0 <= x <= 0xFFFF_FFFF witness 0
  type Matrix = m: seq<seq<Fp>> | |m| == N && forall i :: 0 <= i < N ==> |m[i]| == N
    witness seq(8, _ => seq(8, _ => 0))

  predicate Supported(m: Matrix, i: int, j: int) {
    0 <= i < N && 0 <= j < N && m[i][j] > EPS
  }

  /** p assigns the first n columns to the first n rows, and every later row to itself. */
  ghost predicate IsPermutation(p: seq<nat>, n: nat) {
    && |p| == N && n <= N
    && (forall i :: 0 <= i < n ==> p[i] < n)
    && (forall i, k :: 0 <= i < k < n ==> p[i] != p[k])
    && (forall i :: n <= i < N ==> p[i] == i)
  }

  ghost predicate OnSupport(m: Matrix, n: nat, p: seq<nat>)
    requires IsPermutation(p, n)
  {
    forall i :: 0 <= i < n ==> Supported(m, i, p[i])
  }

  // ---- Hall's condition --------------------------------------------------

  /** Rows whose supported columns all lie in a smaller set. */
  ghost predicate Violator(m: Matrix, n: nat, rows: set<nat>, columns: set<nat>) {
    && n <= N && |rows| > |columns|
    && (forall i :: i in rows ==> i < n) && (forall j :: j in columns ==> j < n)
    && (forall i, j :: i in rows && 0 <= j < n && Supported(m, i, j) ==> j in columns)
  }

  /** An injective image inside a set is no larger than the set. */
  lemma {:induction false} Pigeonhole(p: seq<nat>, n: nat, rows: set<nat>, columns: set<nat>)
    requires IsPermutation(p, n) && (forall i :: i in rows ==> i < n && p[i] in columns)
    ensures |rows| <= |columns|
  {
    if rows != {} {
      var i :| i in rows;
      forall k | k in rows - {i} ensures k < n && p[k] in columns - {p[i]} {
        assert k < i || i < k;
      }
      Pigeonhole(p, n, rows - {i}, columns - {p[i]});
    }
  }

  lemma ViolatorBlocks(m: Matrix, n: nat, rows: set<nat>, columns: set<nat>, p: seq<nat>)
    requires Violator(m, n, rows, columns) && IsPermutation(p, n)
    ensures !OnSupport(m, n, p)
  {
    if OnSupport(m, n, p) {
      forall i | i in rows ensures i < n && p[i] in columns {
        assert Supported(m, i, p[i]);
      }
      Pigeonhole(p, n, rows, columns);
      assert false;
    }
  }

  // ---- partial matchings -------------------------------------------------

  function Unseen(seen: seq<bool>, n: nat): set<nat>
    requires n <= |seen|
  {
    set c: nat | 0 <= c < n && !seen[c]
  }

  /** The rows that the columns of u are matched to. */
  function RowsOf(match_: seq<nat>, u: set<nat>): set<nat>
    requires forall c :: c in u ==> c < |match_|
  {
    set c | c in u && match_[c] != FREE :: match_[c]
  }

  ghost predicate MatchedOnce(match_: seq<nat>, u: set<nat>)
    requires forall c :: c in u ==> c < |match_|
  {
    forall c, d :: c in u && d in u && match_[c] != FREE && match_[c] == match_[d] ==> c == d
  }

  ghost predicate MatchedOnSupport(m: Matrix, n: nat, match_: seq<nat>)
    requires n <= N && |match_| == N
  {
    forall c :: 0 <= c < n ==> match_[c] == FREE || (match_[c] < n && Supported(m, match_[c], c))
  }

  /** Row i reaches no column outside `seen`. */
  ghost predicate Exhausted(m: Matrix, n: nat, seen: seq<bool>, i: nat)
    requires n <= |seen|
  {
    forall c :: 0 <= c < n && Supported(m, i, c) ==> seen[c]
  }

  /** Every column newly seen is matched, to a row that is itself exhausted. */
  ghost predicate Closed(m: Matrix, n: nat, match_: seq<nat>, before: seq<bool>, seen: seq<bool>)
    requires n <= |match_| && n <= |before| == |seen|
  {
    forall c :: 0 <= c < n && seen[c] && !before[c] ==> match_[c] != FREE && Exhausted(m, n, seen, match_[c])
  }

  ghost predicate Grows(before: seq<bool>, seen: seq<bool>) {
    |before| == |seen| && forall c :: 0 <= c < |seen| && before[c] ==> seen[c]
  }

  /** One search: on success row joins the rows matched by the unseen columns; on failure nothing moves
      and the newly seen columns are closed. */
  method Dfs(row: nat, n: nat, m: Matrix, match_: array<nat>, seen: array<bool>) returns (found: bool)
    requires n <= N && row < n && match_.Length == N && seen.Length == N
    requires MatchedOnSupport(m, n, match_[..]) && MatchedOnce(match_[..], Unseen(seen[..], n))
    requires row !in RowsOf(match_[..], Unseen(seen[..], n))
    modifies match_, seen
    ensures Grows(old(seen[..]), seen[..]) && MatchedOnSupport(m, n, match_[..])
    ensures forall c :: 0 <= c < n && old(seen[c]) ==> match_[c] == old(match_[c])
    ensures var u := Unseen(old(seen[..]), n);
            if found then MatchedOnce(match_[..], u) && RowsOf(match_[..], u) == RowsOf(old(match_[..]), u) + {row}
            else && match_[..] == old(match_[..]) && Exhausted(m, n, seen[..], row)
                 && Closed(m, n, match_[..], old(seen[..]), seen[..])
    decreases |Unseen(seen[..], n)|
  {
    hide RowsOf;
    hide MatchedOnce;
    ghost var u := Unseen(seen[..], n);
    ghost var before := match_[..];
    var col := 0;
    while col < n
      invariant 0 <= col <= n
      invariant match_[..] == before && Grows(old(seen[..]), seen[..])
      invariant forall c :: 0 <= c < col && Supported(m, row, c) ==> seen[c]
      invariant Closed(m, n, match_[..], old(seen[..]), seen[..])
    {
      if m[row][col] <= EPS || seen[col] {
        col := col + 1;
        continue;
      }
      ghost var v := Unseen(seen[..], n);
      ghost var seen0 := seen[..];
      seen[col] := true;
      var mj := match_[col];
      assert Unseen(seen[..], n) == v - {col};
      assert v <= u;
      SubMatched(before, u, v, col);
      if mj == FREE {
        match_[col] := row;
        AugmentFree(before, u, col, row);
        return true;
      }
      Shrinks(v, u, col);
      ghost var seen1 := seen[..];
      var moved := Dfs(mj, n, m, match_, seen);
      if moved {
        ghost var middle := match_[..];
        match_[col] := row;
        AugmentPath(before, middle, u, v, col, row);
        return true;
      }
      ClosedGrows(m, n, before, old(seen[..]), seen0, seen1, seen[..], col);
      col := col + 1;
    }
    return false;
  }

  /** Below a matched column its row is not matched again. */
  lemma SubMatched(match_: seq<nat>, u: set<nat>, v: set<nat>, col: nat)
    requires (forall c :: c in u ==> c < |match_|) && v <= u && col in v && MatchedOnce(match_, u)
    ensures MatchedOnce(match_, v - {col}) && (match_[col] != FREE ==> match_[col] !in RowsOf(match_, v - {col}))
  {
  }

  lemma Shrinks(v: set<nat>, u: set<nat>, col: nat)
    requires v <= u && col in v
    ensures |v - {col}| < |u|
  {
    Subset(v, u);
  }

  lemma {:induction false} Subset(v: set<nat>, u: set<nat>)
    requires v <= u
    ensures |v| <= |u|
  {
    if v != {} {
      var x :| x in v;
      Subset(v - {x}, u - {x});
    }
  }

  lemma AugmentFree(before: seq<nat>, u: set<nat>, col: nat, row: nat)
    requires |before| == N && (forall c :: c in u ==> c < N) && col in u && before[col] == FREE && row != FREE
    requires MatchedOnce(before, u) && row !in RowsOf(before, u)
    ensures MatchedOnce(before[col := row], u) && RowsOf(before[col := row], u) == RowsOf(before, u) + {row}
  {
    var after := before[col := row];
    assert row in RowsOf(after, u) by { assert after[col] == row; }
    forall r | r in RowsOf(before, u) ensures r in RowsOf(after, u) {
      var c :| c in u && before[c] != FREE && before[c] == r;
      assert after[c] == r;
    }
    forall r | r in RowsOf(after, u) ensures r in RowsOf(before, u) + {row} {
      var c :| c in u && after[c] != FREE && after[c] == r;
      assert c == col || before[c] == r;
    }
    forall c, d | c in u && d in u && after[c] != FREE && after[c] == after[d] ensures c == d {
      assert c != col ==> before[c] in RowsOf(before, u);
      assert d != col ==> before[d] in RowsOf(before, u);
    }
  }

  /** The alternating path: col's old row has moved into the columns below it, and col takes the new row. */
  lemma AugmentPath(before: seq<nat>, middle: seq<nat>, u: set<nat>, v: set<nat>, col: nat, row: nat)
    requires |before| == |middle| == N && (forall c :: c in u ==> c < N) && v <= u && col in v && row != FREE
    requires MatchedOnce(before, u) && row !in RowsOf(before, u) && before[col] != FREE
    requires forall c :: c in u && c !in v - {col} ==> middle[c] == before[c]
    requires MatchedOnce(middle, v - {col}) && RowsOf(middle, v - {col}) == RowsOf(before, v - {col}) + {before[col]}
    ensures MatchedOnce(middle[col := row], u) && RowsOf(middle[col := row], u) == RowsOf(before, u) + {row}
  {
    var after := middle[col := row];
    var w := v - {col};
    forall c | c in w && middle[c] != FREE ensures exists d :: d in v && before[d] == middle[c] {
      assert middle[c] in RowsOf(middle, w);
      if middle[c] == before[col] {
      } else {
        assert middle[c] in RowsOf(before, w);
      }
    }
    forall c, d | c in u && d in u && after[c] != FREE && after[c] == after[d] ensures c == d {
      AugmentDistinct(before, middle, u, v, col, row, c, d);
    }
    forall r | r in RowsOf(before, u) ensures r in RowsOf(after, u) {
      var c :| c in u && before[c] != FREE && before[c] == r;
      if c in v {
        assert c != col ==> before[c] in RowsOf(before, w);
        assert r in RowsOf(middle, w);
        var d :| d in w && middle[d] != FREE && middle[d] == r;
        assert after[d] == r;
      } else {
        assert after[c] == r;
      }
    }
    assert row in RowsOf(after, u) by { assert after[col] == row; }
    forall r | r in RowsOf(after, u) ensures r in RowsOf(before, u) + {row} {
      var c :| c in u && after[c] != FREE && after[c] == r;
      if c != col && c in w {
        var d :| d in v && before[d] == middle[c];
        assert before[d] in RowsOf(before, u);
      }
    }
  }

  lemma AugmentDistinct(before: seq<nat>, middle: seq<nat>, u: set<nat>, v: set<nat>, col: nat, row: nat, c: nat,
        d: nat)
    requires |before| == |middle| == N && (forall c :: c in u ==> c < N) && v <= u && col in v && row != FREE
    requires MatchedOnce(before, u) && row !in RowsOf(before, u) && before[col] != FREE
    requires forall c :: c in u && c !in v - {col} ==> middle[c] == before[c]
    requires MatchedOnce(middle, v - {col})
    requires forall c :: c in v - {col} && middle[c] != FREE ==> exists d :: d in v && before[d] == middle[c]
    requires c in u && d in u && middle[col := row][c] != FREE && middle[col := row][c] == middle[col := row][d]
    ensures c == d
  {
    var w := v - {col};
    var after := middle[col := row];
    var c0: nat := c;
    var d0: nat := d;
    if c in w {
      c0 :| c0 in v && before[c0] == middle[c];
    }
    if d in w {
      d0 :| d0 in v && before[d0] == middle[d];
    }
    assert c != col ==> before[c0] == after[c] && before[c0] in RowsOf(before, u);
    assert d != col ==> before[d0] == after[d] && before[d0] in RowsOf(before, u);
  }

  lemma ClosedGrows(m: Matrix, n: nat, match_: seq<nat>, start: seq<bool>, seen0: seq<bool>, seen1: seq<bool>,
        seen: seq<bool>, col: nat)
    requires n <= N && |match_| == |start| == |seen0| == |seen1| == |seen| == N && col < n
    requires Closed(m, n, match_, start, seen0) && seen1 == seen0[col := true] && Grows(seen1, seen)
    requires match_[col] != FREE && Exhausted(m, n, seen, match_[col]) && Closed(m, n, match_, seen1, seen)
    ensures Closed(m, n, match_, start, seen)
  {
    forall c | 0 <= c < n && seen[c] && !start[c] ensures match_[c] != FREE && Exhausted(m, n, seen, match_[c]) {
      if c != col && seen0[c] {
        assert Exhausted(m, n, seen0, match_[c]);
      }
    }
  }

  // ---- the search --------------------------------------------------------

  datatype PermResult = Found(map_: seq<nat>) | NoPermutation

  ghost predicate NoneOnSupport(m: Matrix, n: nat) {
    forall p: seq<nat> :: IsPermutation(p, n) ==> !OnSupport(m, n, p)
  }

  ghost function Below(n: nat): set<nat> { Unseen(seq(n, _ => false), n) }

  lemma {:induction false} BelowSize(n: nat)
    ensures |Below(n)| == n
  {
    if n > 0 {
      BelowSize(n - 1);
      assert Below(n) == Below(n - 1) + {n - 1};
    }
  }

  /** The first rows are matched, each to one column it is supported on. */
  ghost predicate Placed(m: Matrix, n: nat, match_: seq<nat>, row: nat)
    requires n <= N == |match_|
  {
    MatchedOnSupport(m, n, match_) && MatchedOnce(match_, Below(n)) && RowsOf(match_, Below(n)) == Below(row)
  }

  lemma NothingPlaced(m: Matrix, n: nat, match_: seq<nat>)
    requires n <= N == |match_| && forall c :: 0 <= c < N ==> match_[c] == FREE
    ensures Placed(m, n, match_, 0)
  {
    assert RowsOf(match_, Below(n)) == {} == Below(0);
  }

  lemma AllUnseen(n: nat, seen: seq<bool>)
    requires n <= N == |seen| && forall c :: 0 <= c < N ==> !seen[c]
    ensures Unseen(seen, n) == Below(n) && seen == seq(N, _ => false)
  {
  }

  lemma NextRow(row: nat)
    ensures row !in Below(row) && Below(row + 1) == Below(row) + {row}
  {
  }

  /** A permutation on the supported entries, or a set of rows that leaves no room for one. */
  method FindPerm(m: Matrix, n: nat) returns (r: PermResult)
    requires n <= N
    ensures r.Found? ==> IsPermutation(r.map_, n) && OnSupport(m, n, r.map_)
    ensures r.NoPermutation? ==> NoneOnSupport(m, n) && exists rows, columns :: Violator(m, n, rows, columns)
  {
    hide Below;
    hide Unseen;
    hide RowsOf;
    hide MatchedOnce;
    hide MatchedOnSupport;
    hide Violator;
    hide IsPermutation;
    hide OnSupport;
    hide Exhausted;
    hide Closed;
    var match_ := new nat[N](_ => FREE);
    NothingPlaced(m, n, match_[..]);
    var row := 0;
    while row < n
      invariant 0 <= row <= n && Placed(m, n, match_[..], row)
      modifies match_
    {
      var seen := new bool[N](_ => false);
      AllUnseen(n, seen[..]);
      NextRow(row);
      var found := Dfs(row, n, m, match_, seen);
      if !found {
        ghost var columns := HallViolator(m, n, match_[..], seen[..], row);
        ViolatorBlocksAll(m, n, RowsOf(match_[..], columns) + {row}, columns);
        return NoPermutation;
      }
      row := row + 1;
    }
    var map_ := Invert(m, n, match_);
    return Found(map_);
  }

  lemma ViolatorBlocksAll(m: Matrix, n: nat, rows: set<nat>, columns: set<nat>)
    requires Violator(m, n, rows, columns)
    ensures NoneOnSupport(m, n)
  {
    forall p: seq<nat> | IsPermutation(p, n) ensures !OnSupport(m, n, p) {
      ViolatorBlocks(m, n, rows, columns, p);
    }
  }

  lemma {:induction false} RowsOfSize(match_: seq<nat>, u: set<nat>)
    requires (forall c :: c in u ==> c < |match_| && match_[c] != FREE) && MatchedOnce(match_, u)
    ensures |RowsOf(match_, u)| == |u|
  {
    if u == {} {
      assert RowsOf(match_, u) == {};
    } else {
      var c :| c in u;
      RowsOfSize(match_, u - {c});
      assert RowsOf(match_, u) == RowsOf(match_, u - {c}) + {match_[c]};
      assert match_[c] !in RowsOf(match_, u - {c});
    }
  }

  /** A failed search from the empty mark leaves a violator: the seen columns, and their rows with the new one. */
  lemma HallViolator(m: Matrix, n: nat, match_: seq<nat>, seen: seq<bool>, row: nat) returns (columns: set<nat>)
    requires n <= N && |match_| == |seen| == N && row < n
    requires Placed(m, n, match_, row)
    requires Exhausted(m, n, seen, row) && Closed(m, n, match_, seq(N, _ => false), seen)
    ensures forall c :: c in columns ==> c < N
    ensures Violator(m, n, RowsOf(match_, columns) + {row}, columns)
  {
    hide RowsOf;
    hide Below;
    columns := set c: nat | 0 <= c < n && seen[c];
    SeenRows(n, match_, columns, row);
    var rows := RowsOf(match_, columns) + {row};
    forall i, j | i in rows && 0 <= j < n && Supported(m, i, j) ensures j in columns {
      if i != row {
        var c := RowColumn(match_, columns, i);
        assert Exhausted(m, n, seen, match_[c]);
      }
    }
  }

  lemma RowColumn(match_: seq<nat>, u: set<nat>, i: nat) returns (c: nat)
    requires (forall c :: c in u ==> c < |match_|) && i in RowsOf(match_, u)
    ensures c in u && match_[c] == i
  {
    c :| c in u && match_[c] != FREE && match_[c] == i;
  }

  lemma SeenRows(n: nat, match_: seq<nat>, columns: set<nat>, row: nat)
    requires n <= N == |match_| && (forall c :: c in columns ==> c < n && match_[c] != FREE)
    requires MatchedOnce(match_, Below(n)) && RowsOf(match_, Below(n)) == Below(row)
    ensures |RowsOf(match_, columns) + {row}| == |columns| + 1
    ensures forall i :: i in RowsOf(match_, columns) ==> i < row
  {
    assert columns <= Below(n);
    RowsOfSize(match_, columns);
    forall i | i in RowsOf(match_, columns) ensures i < row {
      var c := RowColumn(match_, columns, i);
      CoveredRow(match_, n, row, c);
    }
  }

  /** The inverse of a full matching. */
  method Invert(m: Matrix, n: nat, match_: array<nat>) returns (map_: seq<nat>)
    requires n <= N && match_.Length == N
    requires Placed(m, n, match_[..], n)
    ensures IsPermutation(map_, n) && OnSupport(m, n, map_)
  {
    FullyMatched(m, n, match_[..]);
    hide Placed;
    hide OnSupport;
    var p := new nat[N](i => i);
    var col := 0;
    while col < n
      invariant 0 <= col <= n
      invariant forall c :: 0 <= c < col ==> p[match_[c]] == c
      invariant forall i :: n <= i < N ==> p[i] == i
      modifies p
    {
      p[match_[col]] := col;
      col := col + 1;
    }
    map_ := p[..];
    Inverse(m, n, match_[..], map_);
  }

  lemma Inverse(m: Matrix, n: nat, match_: seq<nat>, p: seq<nat>)
    requires n <= N && |match_| == |p| == N && Placed(m, n, match_, n)
    requires (forall c :: 0 <= c < n ==> match_[c] < n && p[match_[c]] == c) && (forall i :: n <= i < N ==> p[i] == i)
    ensures IsPermutation(p, n) && OnSupport(m, n, p)
  {
    hide RowsOf;
    hide Below;
    forall i | 0 <= i < n ensures p[i] < n && match_[p[i]] == i {
      var c := CoveringColumn(match_, n, n, i);
      assert p[match_[c]] == c;
    }
    forall i, k | 0 <= i < k < n ensures p[i] != p[k] {
      assert match_[p[i]] == i && match_[p[k]] == k;
    }
  }

  lemma CoveringColumn(match_: seq<nat>, n: nat, rows: nat, i: nat) returns (c: nat)
    requires n <= |match_| && i < rows && RowsOf(match_, Below(n)) == Below(rows)
    ensures c < n && match_[c] == i
  {
    assert i in Below(rows);
    assert i in RowsOf(match_, Below(n));
    c :| c in Below(n) && match_[c] != FREE && match_[c] == i;
  }

  lemma CoveredRow(match_: seq<nat>, n: nat, rows: nat, c: nat)
    requires c < n <= |match_| && match_[c] != FREE && RowsOf(match_, Below(n)) == Below(rows)
    ensures match_[c] < rows
  {
    assert c in Below(n);
    assert match_[c] in RowsOf(match_, Below(n));
  }

  /** n columns covering n rows: no column is free. */
  lemma FullyMatched(m: Matrix, n: nat, match_: seq<nat>)
    requires n <= N && |match_| == N && Placed(m, n, match_, n)
    ensures forall c :: 0 <= c < n ==> match_[c] != FREE && match_[c] < n
  {
    var busy := set c | c in Below(n) && match_[c] != FREE;
    assert RowsOf(match_, busy) == RowsOf(match_, Below(n));
    RowsOfSize(match_, busy);
    BelowSize(n);
    SameSize(busy, Below(n));
    forall c | 0 <= c < n ensures match_[c] != FREE && match_[c] < n {
      assert c in busy;
      CoveredRow(match_, n, n, c);
    }
  }

  lemma SameSize(v: set<nat>, u: set<nat>)
    requires v <= u && |v| == |u|
    ensures v == u
  {
    if v != u {
      var x :| x in u && x !in v;
      Subset(v, u - {x});
      assert false;
    }
  }
}
