/** The vector clocks of the axiom manifold characterise causality: over all transactions ever
    submitted, happens-before on vectors is reachability through same-origin order and dependencies. */
module AxiomCausality {
  import opened AxiomTypes
  import opened AxiomSpec
  import opened AxiomHistory
  import opened AxiomOrder

  /** a is an immediate cause of b. */
  ghost predicate Direct(subs: seq<Submission>, a: nat, b: nat)
    requires b < |subs|
  {
    a < b && (subs[a].origin == subs[b].origin || a in subs[b].deps)
  }

  /** Reachability through immediate causes. */
  ghost predicate Reaches(subs: seq<Submission>, a: nat, b: nat)
    requires b < |subs|
    decreases b
  {
    exists c :: 0 <= c < b && Direct(subs, c, b) && (c == a || Reaches(subs, a, c))
  }

  lemma {:induction false} ReachesIsEarlier(subs: seq<Submission>, a: nat, b: nat)
    requires b < |subs| && Reaches(subs, a, b)
    ensures a < b
    decreases b
  {
    var c :| 0 <= c < b && Direct(subs, c, b) && (c == a || Reaches(subs, a, c));
    if c != a { ReachesIsEarlier(subs, a, c); }
  }

  lemma {:induction false} ReachesTransitive(subs: seq<Submission>, a: nat, b: nat, c: nat)
    requires c < |subs| && b < |subs| && Reaches(subs, a, b) && Reaches(subs, b, c)
    ensures Reaches(subs, a, c)
    decreases c
  {
    var d :| 0 <= d < c && Direct(subs, d, c) && (d == b || Reaches(subs, b, d));
    if d != b { ReachesTransitive(subs, a, b, d); }
    assert Reaches(subs, a, d);
  }

  /** Later submissions do not change reachability among earlier ones. */
  lemma {:induction false} ReachesStable(subs: seq<Submission>, more: seq<Submission>, a: nat, b: nat)
    requires b < |subs| && subs <= more
    ensures Reaches(subs, a, b) <==> Reaches(more, a, b)
    decreases b
  {
    if Reaches(subs, a, b) {
      var c :| 0 <= c < b && Direct(subs, c, b) && (c == a || Reaches(subs, a, c));
      ReachesStable(subs, more, a, c);
      assert Direct(more, c, b);
    }
    if Reaches(more, a, b) {
      var c :| 0 <= c < b && Direct(more, c, b) && (c == a || Reaches(more, a, c));
      ReachesStable(subs, more, a, c);
      assert Direct(subs, c, b);
    }
  }

  /** How many of the first n submissions came from origin o. */
  ghost function Rank(subs: seq<Submission>, o: nat, n: nat): (r: nat)
    requires n <= |subs|
    ensures r <= n
  {
    if n == 0 then 0 else Rank(subs, o, n - 1) + if subs[n - 1].origin == o then 1 else 0
  }

  lemma {:induction false} RankStable(subs: seq<Submission>, more: seq<Submission>, o: nat, n: nat)
    requires n <= |subs| && subs <= more
    ensures Rank(subs, o, n) == Rank(more, o, n)
  {
    if n > 0 { RankStable(subs, more, o, n - 1); }
  }

  lemma {:induction false} RankMonotone(subs: seq<Submission>, o: nat, m: nat, n: nat)
    requires m <= n <= |subs|
    ensures Rank(subs, o, m) <= Rank(subs, o, n)
    decreases n
  {
    if m < n { RankMonotone(subs, o, m, n - 1); }
  }

  /** The submission of a given positive rank exists. */
  lemma {:induction false} OfRank(subs: seq<Submission>, o: nat, n: nat, r: nat) returns (c: nat)
    requires n <= |subs| && 0 < r <= Rank(subs, o, n)
    ensures c < n && subs[c].origin == o && Rank(subs, o, c + 1) == r
    decreases n
  {
    if r <= Rank(subs, o, n - 1) {
      c := OfRank(subs, o, n - 1, r);
    } else {
      c := n - 1;
    }
  }

  // ---- the invariant -----------------------------------------------------

  /** Lane o of b counts a prefix of origin o's submissions that contains a. */
  ghost predicate Covers(subs: seq<Submission>, b: nat, a: nat)
    requires a < |subs| && b < |subs|
  {
    subs[a].origin < |subs[b].vector| && Rank(subs, subs[a].origin, a + 1) <= subs[b].vector[subs[a].origin]
  }

  ghost predicate VectorOk(nodes: nat, subs: seq<Submission>, b: nat)
    requires b < |subs|
  {
    && |subs[b].vector| == nodes && subs[b].origin < nodes
    && (forall d :: d in subs[b].deps ==> d < b)
    && (forall o :: 0 <= o < nodes ==> subs[b].vector[o] <= Rank(subs, o, b + 1))
    && subs[b].vector[subs[b].origin] == Rank(subs, subs[b].origin, b + 1)
    && (forall a :: 0 <= a < |subs| && subs[a].origin < nodes ==>
                      (Covers(subs, b, a) <==> a == b || Reaches(subs, a, b)))
  }

  /** Lane by lane, the vector a submission gets: the maximum of its origin's frontier and its
      dependencies, advanced at its own lane. */
  ghost predicate LaneMax(v: int, low: int, parts: seq<int>) {
    && v >= low && (forall k :: 0 <= k < |parts| ==> v >= parts[k])
    && (v == low || exists k :: 0 <= k < |parts| && v == parts[k])
  }

  lemma {:induction false} MergeLane(v: seq<nat>, slots: seq<Slot>, ids: seq<TransactionId>, o: nat)
    requires AllLive(slots, ids) && forall i :: 0 <= i < |slots| ==> |slots[i].vector| == |v|
    requires o < |v|
    ensures LaneMax(MergeDependencies(v, slots, ids)[o], v[o], SlotLanes(slots, ids, o))
  {
    if ids != [] {
      var n := |ids| - 1;
      MergeLane(v, slots, ids[..n], o);
      assert Live(slots, ids[n]);
      var before := MergeDependencies(v, slots, ids[..n])[o];
      var parts, all := SlotLanes(slots, ids[..n], o), SlotLanes(slots, ids, o);
      assert forall k :: 0 <= k < n ==> all[k] == parts[k];
      assert all[n] == slots[ids[n].slot].vector[o];
      if before != v[o] {
        var k :| 0 <= k < n && before == parts[k];
        assert before == all[k];
      }
    }
  }

  ghost function SlotLanes(slots: seq<Slot>, ids: seq<TransactionId>, o: nat): seq<int> {
    seq(|ids|, k requires 0 <= k < |ids| => LaneOf(slots, ids[k], o))
  }

  ghost function LaneOf(slots: seq<Slot>, id: TransactionId, o: nat): int {
    if id.slot < |slots| && o < |slots[id.slot].vector| then slots[id.slot].vector[o] else 0
  }

  // ---- one more submission -----------------------------------------------

  ghost predicate IsLast(subs: seq<Submission>, o: nat, p: nat) {
    p < |subs| && subs[p].origin == o && forall q :: p < q < |subs| ==> subs[q].origin != o
  }

  /** The frontier of origin o is the vector of its latest submission, or zero. */
  ghost predicate FrontierOk(nodes: nat, subs: seq<Submission>, o: nat, f: seq<nat>) {
    && |f| == nodes
    && (forall p: nat :: IsLast(subs, o, p) ==> f == subs[p].vector)
    && (Rank(subs, o, |subs|) == 0 ==> forall l :: 0 <= l < nodes ==> f[l] == 0)
  }

  lemma {:induction false} LastExists(subs: seq<Submission>, o: nat, n: nat) returns (p: nat)
    requires n <= |subs| && Rank(subs, o, n) > 0
    requires forall q :: n <= q < |subs| ==> subs[q].origin != o
    ensures IsLast(subs, o, p) && Rank(subs, o, p + 1) == Rank(subs, o, n)
    decreases n
  {
    if subs[n - 1].origin == o { p := n - 1; } else { p := LastExists(subs, o, n - 1); }
  }

  /** What the source computes for the new submission n, lane by lane. */
  ghost predicate NewVector(nodes: nat, subs: seq<Submission>, n: Submission, f: seq<nat>, m: seq<nat>) {
    && n.origin < nodes && |f| == |m| == nodes && n.vector == m[n.origin := m[n.origin] + 1]
    && (forall k :: 0 <= k < |n.deps| ==> n.deps[k] < |subs| && |subs[n.deps[k]].vector| == nodes)
    && (forall o :: 0 <= o < nodes ==> LaneMax(m[o], f[o], DepLanes(subs, n.deps, o)))
  }

  ghost function DepLanes(subs: seq<Submission>, deps: seq<nat>, o: nat): seq<int> {
    seq(|deps|, k requires 0 <= k < |deps| => DepLane(subs, deps[k], o))
  }

  ghost function DepLane(subs: seq<Submission>, d: nat, o: nat): int {
    if d < |subs| && o < |subs[d].vector| then subs[d].vector[o] else 0
  }

  ghost predicate AllVectorsOk(nodes: nat, subs: seq<Submission>) {
    forall b :: 0 <= b < |subs| ==> VectorOk(nodes, subs, b)
  }

  /** A merged lane is bounded by what bounds its sources, and is one of them. */
  lemma MergedLane(nodes: nat, subs: seq<Submission>, n: Submission, f: seq<nat>, m: seq<nat>, o: nat)
    returns (src: int)
    requires NewVector(nodes, subs, n, f, m) && o < nodes
    ensures m[o] >= f[o] && forall k :: 0 <= k < |n.deps| ==> m[o] >= subs[n.deps[k]].vector[o]
    ensures -1 <= src < |n.deps| && (src == -1 ==> m[o] == f[o]) && (src >= 0 ==> m[o] == subs[n.deps[src]].vector[o])
  {
    var parts := DepLanes(subs, n.deps, o);
    assert LaneMax(m[o], f[o], parts);
    assert forall k :: 0 <= k < |n.deps| ==> parts[k] == subs[n.deps[k]].vector[o];
    if m[o] == f[o] { src := -1; } else { src :| 0 <= src < |parts| && m[o] == parts[src]; }
  }

  lemma FrontierLane(nodes: nat, subs: seq<Submission>, o: nat, f: seq<nat>, l: nat)
    requires AllVectorsOk(nodes, subs) && FrontierOk(nodes, subs, o, f) && l < nodes
    ensures f[l] <= Rank(subs, l, |subs|) && (l == o ==> f[l] == Rank(subs, o, |subs|))
  {
    if Rank(subs, o, |subs|) > 0 {
      var p := LastExists(subs, o, |subs|);
      assert VectorOk(nodes, subs, p);
      RankMonotone(subs, l, p + 1, |subs|);
    }
  }

  lemma NewLanes(nodes: nat, subs: seq<Submission>, n: Submission, f: seq<nat>, m: seq<nat>, o: nat)
    requires && AllVectorsOk(nodes, subs) && FrontierOk(nodes, subs, n.origin, f) && NewVector(nodes, subs, n, f, m)
             && o < nodes
    ensures m[o] <= Rank(subs, o, |subs|) && (o == n.origin ==> m[o] == Rank(subs, o, |subs|))
  {
    var src := MergedLane(nodes, subs, n, f, m, o);
    FrontierLane(nodes, subs, n.origin, f, o);
    hide FrontierOk;
    if src >= 0 {
      var d := n.deps[src];
      EarlierLane(nodes, subs, d, o);
    }
  }

  lemma EarlierLane(nodes: nat, subs: seq<Submission>, d: nat, o: nat)
    requires AllVectorsOk(nodes, subs) && d < |subs| && o < nodes
    ensures |subs[d].vector| == nodes && subs[d].vector[o] <= Rank(subs, o, |subs|)
  {
    assert VectorOk(nodes, subs, d);
    RankMonotone(subs, o, d + 1, |subs|);
  }

  /** A lane of the new vector reaches back to a exactly when a reaches the new submission. */
  lemma CoveredIsReached(nodes: nat, subs: seq<Submission>, n: Submission, f: seq<nat>, m: seq<nat>, a: nat)
    requires AllVectorsOk(nodes, subs) && FrontierOk(nodes, subs, n.origin, f) && NewVector(nodes, subs, n, f, m)
    requires a < |subs| && subs[a].origin < nodes && subs[a].origin != n.origin
    requires Rank(subs, subs[a].origin, a + 1) <= m[subs[a].origin]
    ensures Reaches(subs + [n], a, |subs|)
  {
    var o, more := subs[a].origin, subs + [n];
    var src := MergedLane(nodes, subs, n, f, m, o);
    var c: nat;
    if src == -1 {
      assert f[o] > 0 by { RankPositive(subs, a); }
      c := LastExists(subs, n.origin, |subs|);
    } else {
      c := n.deps[src];
      assert c in n.deps;
    }
    assert VectorOk(nodes, subs, c);
    assert Covers(subs, c, a);
    assert Direct(more, c, |subs|);
    if c != a { ReachesStable(subs, more, a, c); }
  }

  lemma RankPositive(subs: seq<Submission>, a: nat)
    requires a < |subs|
    ensures Rank(subs, subs[a].origin, a + 1) >= 1
  {
  }

  /** A cause of an earlier submission of the same origin is within the frontier. */
  lemma FrontierCovers(nodes: nat, subs: seq<Submission>, o: nat, f: seq<nat>, c: nat, a: nat)
    requires AllVectorsOk(nodes, subs) && FrontierOk(nodes, subs, o, f)
    requires && c < |subs| && a < |subs| && subs[c].origin == o && subs[a].origin < nodes
             && (c == a || Reaches(subs, a, c))
    ensures Rank(subs, subs[a].origin, a + 1) <= f[subs[a].origin]
  {
    RankPositive(subs, c);
    RankMonotone(subs, o, c + 1, |subs|);
    var p := LastExists(subs, o, |subs|);
    if c != p {
      assert Direct(subs, c, p);
      assert Reaches(subs, a, p);
    }
    assert VectorOk(nodes, subs, p);
    assert Covers(subs, p, a);
  }

  lemma ReachedIsCovered(nodes: nat, subs: seq<Submission>, n: Submission, f: seq<nat>, m: seq<nat>, a: nat)
    requires AllVectorsOk(nodes, subs) && FrontierOk(nodes, subs, n.origin, f) && NewVector(nodes, subs, n, f, m)
    requires a < |subs| && subs[a].origin < nodes && Reaches(subs + [n], a, |subs|)
    ensures Rank(subs, subs[a].origin, a + 1) <= m[subs[a].origin]
  {
    var o, more := subs[a].origin, subs + [n];
    var c :| 0 <= c < |subs| && Direct(more, c, |subs|) && (c == a || Reaches(more, a, c));
    ReachesStable(subs, more, a, c);
    assert more[|subs|] == n && more[c] == subs[c];
    var src := MergedLane(nodes, subs, n, f, m, o);
    hide NewVector;
    if subs[c].origin == n.origin {
      FrontierCovers(nodes, subs, n.origin, f, c, a);
    } else {
      hide FrontierOk;
      assert c in n.deps;
      var k :| 0 <= k < |n.deps| && n.deps[k] == c;
      assert VectorOk(nodes, subs, c);
      assert Covers(subs, c, a);
    }
  }

  lemma OldVectorOk(nodes: nat, subs: seq<Submission>, n: Submission, b: nat)
    requires b < |subs| && VectorOk(nodes, subs, b)
    ensures VectorOk(nodes, subs + [n], b)
  {
    var more := subs + [n];
    var e := b + 1;
    forall o: nat | o < nodes ensures Rank(more, o, e) == Rank(subs, o, e) { RankStable(subs, more, o, e); }
    forall a | 0 <= a < |more| && more[a].origin < nodes ensures Covers(more, b, a) <==> a == b || Reaches(more, a, b) {
      if a < |subs| {
        RankStable(subs, more, subs[a].origin, a + 1);
        ReachesStable(subs, more, a, b);
        assert Covers(subs, b, a) <==> a == b || Reaches(subs, a, b);
      } else {
        LaterNotCovered(nodes, subs, n, b);
      }
    }
  }

  lemma LaterNotCovered(nodes: nat, subs: seq<Submission>, n: Submission, b: nat)
    requires b < |subs| && VectorOk(nodes, subs, b) && n.origin < nodes
    ensures !Covers(subs + [n], b, |subs|) && !Reaches(subs + [n], |subs|, b)
  {
    var more := subs + [n];
    RankStable(subs, more, n.origin, |subs|);
    RankMonotone(subs, n.origin, b + 1, |subs|);
    if Reaches(more, |subs|, b) {
      ReachesIsEarlier(more, |subs|, b);
      assert false;
    }
  }

  lemma NewVectorOk(nodes: nat, subs: seq<Submission>, n: Submission, f: seq<nat>, m: seq<nat>)
    requires AllVectorsOk(nodes, subs) && FrontierOk(nodes, subs, n.origin, f) && NewVector(nodes, subs, n, f, m)
    ensures VectorOk(nodes, subs + [n], |subs|)
  {
    var more, b := subs + [n], |subs|;
    forall o | 0 <= o < nodes
      ensures n.vector[o] <= Rank(more, o, b + 1) && (o == n.origin ==> n.vector[o] == Rank(more, o, b + 1))
    {
      NewLanes(nodes, subs, n, f, m, o);
      RankStable(subs, more, o, b);
    }
    forall a | 0 <= a < |more| && more[a].origin < nodes ensures Covers(more, b, a) <==> a == b || Reaches(more, a, b) {
      NewCovers(nodes, subs, n, f, m, a);
    }
  }

  lemma NewCovers(nodes: nat, subs: seq<Submission>, n: Submission, f: seq<nat>, m: seq<nat>, a: nat)
    requires AllVectorsOk(nodes, subs) && FrontierOk(nodes, subs, n.origin, f) && NewVector(nodes, subs, n, f, m)
    requires a <= |subs| && (subs + [n])[a].origin < nodes
    ensures Covers(subs + [n], |subs|, a) <==> a == |subs| || Reaches(subs + [n], a, |subs|)
  {
    var more, b := subs + [n], |subs|;
    NewLanes(nodes, subs, n, f, m, n.origin);
    RankStable(subs, more, n.origin, b);
    if a < b {
      RankStable(subs, more, subs[a].origin, a + 1);
      if subs[a].origin == n.origin {
        RankMonotone(subs, n.origin, a + 1, b);
        assert Direct(more, a, b);
      } else {
        if Rank(subs, subs[a].origin, a + 1) <= m[subs[a].origin] { CoveredIsReached(nodes, subs, n, f, m, a); }
        if Reaches(more, a, b) { ReachedIsCovered(nodes, subs, n, f, m, a); }
      }
    }
  }

  // ---- the theorem on vectors --------------------------------------------

  lemma CoversMeans(nodes: nat, subs: seq<Submission>, b: nat, a: nat)
    requires AllVectorsOk(nodes, subs) && a < |subs| && b < |subs|
    ensures |subs[b].vector| == nodes && subs[a].origin < nodes
    ensures Rank(subs, subs[a].origin, a + 1) <= subs[b].vector[subs[a].origin] <==> a == b || Reaches(subs, a, b)
  {
    assert VectorOk(nodes, subs, a) && VectorOk(nodes, subs, b);
    assert Covers(subs, b, a) <==> a == b || Reaches(subs, a, b);
  }

  lemma VectorBounds(nodes: nat, subs: seq<Submission>, b: nat)
    requires AllVectorsOk(nodes, subs) && b < |subs|
    ensures |subs[b].vector| == nodes && subs[b].origin < nodes
    ensures forall o :: 0 <= o < nodes ==> subs[b].vector[o] <= Rank(subs, o, b + 1)
    ensures subs[b].vector[subs[b].origin] == Rank(subs, subs[b].origin, b + 1)
  {
    assert VectorOk(nodes, subs, b);
  }

  /** Reachability never lowers a lane. */
  lemma ReachesRaises(nodes: nat, subs: seq<Submission>, a: nat, b: nat, o: nat)
    requires AllVectorsOk(nodes, subs) && a < |subs| && b < |subs| && Reaches(subs, a, b) && o < nodes
    ensures |subs[a].vector| == |subs[b].vector| == nodes && subs[a].vector[o] <= subs[b].vector[o]
  {
    hide AllVectorsOk;
    hide Reaches;
    VectorBounds(nodes, subs, a);
    VectorBounds(nodes, subs, b);
    var r := subs[a].vector[o];
    if r > 0 {
      var c := OfRank(subs, o, a + 1, r);
      CoversMeans(nodes, subs, a, c);
      if c != a { ReachesTransitive(subs, c, a, b); }
      CoversMeans(nodes, subs, b, c);
    }
  }

  /** Vector happens-before is causal reachability, both ways. */
  lemma HappensBeforeIsReaches(nodes: nat, subs: seq<Submission>, a: nat, b: nat)
    requires AllVectorsOk(nodes, subs) && a < |subs| && b < |subs|
    ensures && |subs[a].vector| == |subs[b].vector|
            && (HappensBefore(subs[a].vector, subs[b].vector) <==> Reaches(subs, a, b))
  {
    hide AllVectorsOk;
    hide Reaches;
    VectorBounds(nodes, subs, a);
    VectorBounds(nodes, subs, b);
    CoversMeans(nodes, subs, b, a);
    if Reaches(subs, a, b) {
      forall o | 0 <= o < nodes ensures subs[a].vector[o] <= subs[b].vector[o] { ReachesRaises(nodes, subs, a, b, o); }
      ReachesIsEarlier(subs, a, b);
      var o := subs[b].origin;
      RankMonotone(subs, o, a + 1, b);
      assert subs[a].vector[o] < subs[b].vector[o];
    }
  }

  // ---- runs --------------------------------------------------------------

  /** Vectors of all submissions, and every origin's frontier, are as the causal order says. */
  ghost predicate Causal(g: Geometry, x: System) {
    && AllVectorsOk(g.nodes, x.history.submissions)
    && (forall o :: 0 <= o < |x.inner.frontiers| ==>
                      FrontierOk(g.nodes, x.history.submissions, o, x.inner.frontiers[o]))
  }

  lemma DependencyVector(g: Geometry, x: System, id: TransactionId)
    requires Shape(g, x.inner) && Ordered(x) && |x.history.occupant| == g.slots && Live(x.inner.slots, id)
    ensures var tx := x.history.occupant[id.slot];
            tx < |x.history.submissions| && x.history.submissions[tx].vector == x.inner.slots[id.slot].vector
                  && |x.inner.slots[id.slot].vector| == g.nodes
  {
    assert SlotOrder(x, id.slot);
    assert SlotShape(g, x.inner.slots[id.slot]);
  }

  /** The lanes a submission merges are those of the submissions its dependencies name. */
  lemma SubmitLanes(g: Geometry, x: System, origin: nat, d: Draft)
    requires && Shape(g, x.inner) && Ordered(x) && |x.history.occupant| == g.slots
             && SubmitError(g, x.inner, origin, d).None?
    requires AllVectorsOk(g.nodes, x.history.submissions) && |x.history.submissions| < U64_MAX
    requires FrontierOk(g.nodes, x.history.submissions, origin, x.inner.frontiers[origin])
    ensures var deps := DependencyIndices(x.history.occupant, d.dependencies);
            var n := Submission(origin, d, deps, SubmitVector(g, x.inner, origin, d));
            var f := x.inner.frontiers[origin];
            NewVector(g.nodes, x.history.submissions, n, f, MergeDependencies(f, x.inner.slots, d.dependencies))
  {
    var s, subs := x.inner, x.history.submissions;
    var deps := DependencyIndices(x.history.occupant, d.dependencies);
    var f := s.frontiers[origin];
    var m := MergeDependencies(f, s.slots, d.dependencies);
    hide SlotOrder;
    hide Ordered;
    hide WellFormed;
    hide LaneMax;
    hide DepLanes;
    hide MergeDependencies;
    forall k | 0 <= k < |deps| ensures deps[k] < |subs| && |subs[deps[k]].vector| == g.nodes {
      DependencyVector(g, x, d.dependencies[k]);
    }
    forall o | 0 <= o < g.nodes ensures LaneMax(m[o], f[o], DepLanes(subs, deps, o)) {
      SubmitLane(g, x, origin, d, o);
    }
    hide Shape;
    LaneBelowMax(g.nodes, subs, Submission(origin, d, deps, m[origin := m[origin] + 1]), f, m);
  }

  lemma SubmitLane(g: Geometry, x: System, origin: nat, d: Draft, o: nat)
    requires && Shape(g, x.inner) && Ordered(x) && |x.history.occupant| == g.slots
             && SubmitError(g, x.inner, origin, d).None? && o < g.nodes
    ensures var f := x.inner.frontiers[origin];
            LaneMax(MergeDependencies(f, x.inner.slots, d.dependencies)[o], f[o],
                    DepLanes(x.history.submissions, DependencyIndices(x.history.occupant, d.dependencies), o))
  {
    var s, subs := x.inner, x.history.submissions;
    var deps := DependencyIndices(x.history.occupant, d.dependencies);
    hide SlotOrder;
    hide Ordered;
    hide WellFormed;
    hide LaneMax;
    forall k | 0 <= k < |deps| ensures DepLane(subs, deps[k], o) == LaneOf(s.slots, d.dependencies[k], o) {
      DependencyVector(g, x, d.dependencies[k]);
    }
    assert DepLanes(subs, deps, o) == SlotLanes(s.slots, d.dependencies, o);
    MergeLane(s.frontiers[origin], s.slots, d.dependencies, o);
  }

  /** No lane saturates while fewer submissions were made than a lane can count. */
  lemma LaneBelowMax(nodes: nat, subs: seq<Submission>, n: Submission, f: seq<nat>, m: seq<nat>)
    requires && AllVectorsOk(nodes, subs) && FrontierOk(nodes, subs, n.origin, f) && NewVector(nodes, subs, n, f, m)
             && |subs| < U64_MAX
    ensures m[n.origin] < U64_MAX
  {
    NewLanes(nodes, subs, n, f, m, n.origin);
  }

  lemma NewFrontiers(g: Geometry, subs: seq<Submission>, n: Submission, o: nat, f: seq<nat>)
    requires AllVectorsOk(g.nodes, subs + [n]) && FrontierOk(g.nodes, subs, o, f)
    ensures FrontierOk(g.nodes, subs + [n], o, if o == n.origin then n.vector else f)
  {
    var more := subs + [n];
    RankStable(subs, more, o, |subs|);
    assert VectorOk(g.nodes, more, |subs|);
    forall p: nat | IsLast(more, o, p) ensures (if o == n.origin then n.vector else f) == more[p].vector {
      assert more[|subs|] == n;
      if o != n.origin {
        assert IsLast(subs, o, p);
      }
    }
  }

  lemma SubmitKeepsCausal<F>(g: Geometry, mixer: Mixer, policy: Policy<F>, x: System, op: Op<F>, x': System)
    requires Shape(g, x.inner) && Ordered(x) && |x.history.occupant| == g.slots && Causal(g, x) && op.SubmitOp?
    requires Step(g, mixer, policy, x, op, x') && |x.history.submissions| < U64_MAX
    ensures Causal(g, x')
  {
    if SubmitError(g, x.inner, op.origin, op.draft).None? {
      var s, subs := x.inner, x.history.submissions;
      SubmitLanes(g, x, op.origin, op.draft);
      hide Ordered;
      hide WellFormed;
      hide MergeDependencies;
      var n := Submission(op.origin, op.draft, DependencyIndices(x.history.occupant, op.draft.dependencies),
                   SubmitVector(g, s, op.origin, op.draft));
      var f := s.frontiers[op.origin];
      var m := MergeDependencies(f, s.slots, op.draft.dependencies);
      assert x'.history.submissions == subs + [n] && x'.inner.frontiers == s.frontiers[op.origin := n.vector];
      hide Step;
      hide Submit;
      hide SubmitVector;
      hide SubmitError;
      hide NewVector;
      ExtendVectors(g.nodes, subs, n, f, m);
      hide VectorOk;
      forall o | 0 <= o < |s.frontiers| ensures FrontierOk(g.nodes, subs + [n], o, x'.inner.frontiers[o]) {
        NewFrontiers(g, subs, n, o, s.frontiers[o]);
      }
    }
  }

  lemma ExtendVectors(nodes: nat, subs: seq<Submission>, n: Submission, f: seq<nat>, m: seq<nat>)
    requires AllVectorsOk(nodes, subs) && FrontierOk(nodes, subs, n.origin, f) && NewVector(nodes, subs, n, f, m)
    ensures AllVectorsOk(nodes, subs + [n])
  {
    NewVectorOk(nodes, subs, n, f, m);
    forall b | 0 <= b < |subs| ensures VectorOk(nodes, subs + [n], b) { OldVectorOk(nodes, subs, n, b); }
    hide VectorOk;
  }

  lemma OtherKeepsCausal<F>(g: Geometry, mixer: Mixer, policy: Policy<F>, x: System, op: Op<F>, x': System)
    requires Shape(g, x.inner) && |x.history.occupant| == g.slots && Causal(g, x) && !op.SubmitOp?
    requires Step(g, mixer, policy, x, op, x')
    ensures Causal(g, x') && x'.history.submissions == x.history.submissions
  {
    hide AllVectorsOk;
    hide FrontierOk;
    if op.DriveOp? {
      var i := DriveCases(g, mixer, policy, x.inner, op.now, op.result);
      hide Drives;
    }
  }

  lemma {:induction false} RunIsCausal<F>(g: Geometry, mixer: Mixer, policy: Policy<F>, states: seq<System>,
        ops: seq<Op<F>>, k: nat)
    requires Run(g, mixer, policy, states, ops) && k < |states| && k <= U64_MAX
    ensures Causal(g, states[k]) && |states[k].history.submissions| <= k
  {
    hide Step;
    if k > 0 {
      RunIsCausal(g, mixer, policy, states, ops, k - 1);
      DependencyOrder(g, mixer, policy, states, ops, k - 1);
      var x, op, x' := states[k - 1], ops[k - 1], states[k];
      assert Step(g, mixer, policy, x, op, x');
      hide Causal;
      hide Ordered;
      if op.SubmitOp? {
        SubmitKeepsCausal(g, mixer, policy, x, op, x');
        SubmissionsGrow(g, mixer, policy, x, op, x');
      } else {
        OtherKeepsCausal(g, mixer, policy, x, op, x');
      }
    }
  }

  lemma SubmissionsGrow<F>(g: Geometry, mixer: Mixer, policy: Policy<F>, x: System, op: Op<F>, x': System)
    requires Shape(g, x.inner) && |x.history.occupant| == g.slots && op.SubmitOp? && Step(g, mixer, policy, x, op, x')
    ensures |x'.history.submissions| <= |x.history.submissions| + 1
  {
  }

  /** Over every run short of saturating a lane, happens-before on the vectors of any two
      submissions holds exactly when the first reaches the second. */
  lemma CausalityExact<F>(g: Geometry, mixer: Mixer, policy: Policy<F>, states: seq<System>, ops: seq<Op<F>>, k: nat,
        a: nat, b: nat)
    requires Run(g, mixer, policy, states, ops) && k < |states| && k <= U64_MAX
    requires a < |states[k].history.submissions| && b < |states[k].history.submissions|
    ensures var subs := states[k].history.submissions;
            && |subs[a].vector| == |subs[b].vector|
            && (HappensBefore(subs[a].vector, subs[b].vector) <==> Reaches(subs, a, b))
  {
    hide Step;
    RunIsCausal(g, mixer, policy, states, ops, k);
    HappensBeforeIsReaches(g.nodes, states[k].history.submissions, a, b);
  }
}
