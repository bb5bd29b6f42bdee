/** The causal event graph (kernel/boulder/src/fabric_weave.rs): Kahn's sort against paths and cycles,
    and the bounded causal cone. */
module FabricWeave {

  const MAX_EVENTS := 4096
  const MAX_EDGES := 16384
  const TOPO_SORT_MAX_ITERS := 8192
  const MIN_CAUSAL_GAP_NS := 100

  datatype EdgeKind = HardDependency | DataFlow | MemoryOrder | IpcChannel | SpeculativeHint

  datatype Event = Event(logicalTime: nat, physicalNs: nat, completed: bool, isViolation: bool, inDegree: nat)

  datatype Edge = Edge(from: nat, to: nat, kind: EdgeKind)

  datatype TopoResult = Sorted(count: nat) | CycleDetected(remaining: nat) | NoEvents

  // ---- the graph ---------------------------------------------------------

  ghost predicate Joins(e: Edge, u: nat, v: nat) { e.from == u && e.to == v }

  /** An edge between two live events. */
  ghost predicate Arc(live: set<nat>, edges: seq<Edge>, u: nat, v: nat) {
    u in live && v in live && exists e :: 0 <= e < |edges| && Joins(edges[e], u, v)
  }

  ghost predicate Path(live: set<nat>, edges: seq<Edge>, p: seq<nat>) {
    && |p| > 0 && (forall i :: 0 <= i < |p| ==> p[i] in live)
    && (forall i :: 0 <= i < |p| - 1 ==> Arc(live, edges, p[i], p[i + 1]))
  }

  ghost predicate Cycle(live: set<nat>, edges: seq<Edge>, p: seq<nat>) {
    Path(live, edges, p) && |p| >= 2 && p[0] == p[|p| - 1]
  }

  ghost predicate Acyclic(live: set<nat>, edges: seq<Edge>) {
    forall p :: !Cycle(live, edges, p)
  }

  /** An edge whose source is gone but whose target is live. */
  predicate Orphan(live: set<nat>, e: Edge) { e.from !in live && e.to in live }

  ghost predicate NoOrphans(live: set<nat>, edges: seq<Edge>) {
    forall e :: 0 <= e < |edges| ==> !Orphan(live, edges[e])
  }

  /** The order lists the live events once each, sources before targets. */
  ghost predicate Topological(live: set<nat>, edges: seq<Edge>, order: seq<nat>) {
    && (forall i, j :: 0 <= i < j < |order| ==> order[i] != order[j])
    && (forall v :: v in live <==> v in order)
    && (forall e, j :: 0 <= e < |edges| && 0 <= j < |order| && edges[e].to == order[j] ==> edges[e].from in order[..j])
  }

  // ---- counting open edges -----------------------------------------------

  function OpenEdge(e: Edge, v: nat, done: set<nat>): nat { if e.to == v && e.from !in done then 1 else 0 }

  /** Edges into v whose source has not been emitted. */
  function Open(edges: seq<Edge>, v: nat, done: set<nat>): nat {
    if edges == [] then 0 else OpenEdge(edges[0], v, done) + Open(edges[1..], v, done)
  }

  lemma {:induction false} OpenNone(edges: seq<Edge>, v: nat, done: set<nat>, e: nat)
    requires Open(edges, v, done) == 0 && e < |edges| && edges[e].to == v
    ensures edges[e].from in done
  {
    if e > 0 { OpenNone(edges[1..], v, done, e - 1); }
  }

  lemma {:induction false} OpenSome(edges: seq<Edge>, v: nat, done: set<nat>) returns (e: nat)
    requires Open(edges, v, done) > 0
    ensures e < |edges| && edges[e].to == v && edges[e].from !in done
  {
    if OpenEdge(edges[0], v, done) > 0 {
      e := 0;
    } else {
      var f := OpenSome(edges[1..], v, done);
      e := f + 1;
    }
  }

  lemma {:induction false} OpenSplit(a: seq<Edge>, b: seq<Edge>, v: nat, done: set<nat>)
    ensures Open(a + b, v, done) == Open(a, v, done) + Open(b, v, done)
  {
    if a == [] {
      assert a + b == b;
    } else {
      assert (a + b)[1..] == a[1..] + b;
      OpenSplit(a[1..], b, v, done);
    }
  }

  lemma OpenLast(a: seq<Edge>, e: Edge, v: nat, done: set<nat>)
    ensures Open(a + [e], v, done) == Open(a, v, done) + OpenEdge(e, v, done)
  {
    OpenSplit(a, [e], v, done);
    assert Open([e], v, done) == OpenEdge(e, v, done) + Open([], v, done);
  }

  // ---- what an order proves ----------------------------------------------

  lemma {:induction false} AlongPath(live: set<nat>, edges: seq<Edge>, order: seq<nat>, p: seq<nat>, i: nat)
    requires Topological(live, edges, order) && Path(live, edges, p) && i < |p|
    ensures exists a, b :: 0 <= a < |order| && 0 <= b < |order| && order[a] == p[0] && order[b] == p[i] && a + i <= b
  {
    if i == 0 {
      assert p[0] in order;
      var a :| 0 <= a < |order| && order[a] == p[0];
      assert a + 0 <= a;
    } else {
      AlongPath(live, edges, order, p, i - 1);
      var a, b :| 0 <= a < |order| && 0 <= b < |order| && order[a] == p[0] && order[b] == p[i - 1] && a + (i - 1) <= b;
      assert Arc(live, edges, p[i - 1], p[i - 1 + 1]);
      var e :| 0 <= e < |edges| && Joins(edges[e], p[i - 1], p[i]);
      assert p[i] in order;
      var c :| 0 <= c < |order| && order[c] == p[i];
      assert edges[e].from in order[..c];
      var d :| 0 <= d < |order[..c]| && order[..c][d] == p[i - 1];
      assert order[d] == order[b];
      assert d == b;
      assert a + i <= c;
    }
  }

  /** A graph with a topological order has no cycle and no orphan edge. */
  lemma OrderedIsAcyclic(live: set<nat>, edges: seq<Edge>, order: seq<nat>)
    requires Topological(live, edges, order)
    ensures Acyclic(live, edges) && NoOrphans(live, edges)
  {
    forall p ensures !Cycle(live, edges, p) {
      if Cycle(live, edges, p) {
        AlongPath(live, edges, order, p, |p| - 1);
        assert false;
      }
    }
    forall e | 0 <= e < |edges| ensures !Orphan(live, edges[e]) {
      if edges[e].to in live {
        assert edges[e].to in order;
        var j :| 0 <= j < |order| && order[j] == edges[e].to;
        assert edges[e].from in order[..j];
      }
    }
  }

  // ---- what a stuck sort proves ------------------------------------------

  /** Every event of the set waits for another one of the set. */
  ghost predicate Waiting(live: set<nat>, edges: seq<Edge>, s: set<nat>) {
    s <= live && forall v :: v in s ==> WaitsFor(live, edges, s, v)
  }

  ghost predicate WaitsFor(live: set<nat>, edges: seq<Edge>, s: set<nat>, v: nat) {
    exists u :: u in s && Arc(live, edges, u, v)
  }

  /** A backward walk inside a waiting set, as long as one likes. */
  lemma {:induction false} WalkBack(live: set<nat>, edges: seq<Edge>, s: set<nat>, v: nat, k: nat) returns (p: seq<nat>)
    requires Waiting(live, edges, s) && v in s
    ensures |p| == k + 1 && p[k] == v && Path(live, edges, p) && forall i :: 0 <= i <= k ==> p[i] in s
    decreases k
  {
    hide Arc;
    if k == 0 {
      p := [v];
    } else {
      assert WaitsFor(live, edges, s, v);
      var u :| u in s && Arc(live, edges, u, v);
      var q := WalkBack(live, edges, s, u, k - 1);
      p := q + [v];
      forall i | 0 <= i < |p| - 1 ensures Arc(live, edges, p[i], p[i + 1]) {
        if i < k - 1 {
          assert Arc(live, edges, q[i], q[i + 1]);
        }
      }
    }
  }

  lemma {:induction false} Repeats(p: seq<nat>, s: set<nat>) returns (i: nat, j: nat)
    requires |p| > |s| && forall k :: 0 <= k < |p| ==> p[k] in s
    ensures i < j < |p| && p[i] == p[j]
  {
    var n := |p| - 1;
    if k: nat :| k < n && p[k] == p[n] {
      i, j := k, n;
    } else {
      assert p[n] in s;
      forall k | 0 <= k < n ensures p[..n][k] in s - {p[n]} {
        assert p[k] in s;
      }
      i, j := Repeats(p[..n], s - {p[n]});
    }
  }

  lemma WaitingHasCycle(live: set<nat>, edges: seq<Edge>, s: set<nat>)
    requires Waiting(live, edges, s) && s != {}
    ensures !Acyclic(live, edges)
  {
    hide Arc;
    hide WaitsFor;
    var v :| v in s;
    var p := WalkBack(live, edges, s, v, |s|);
    var i, j := Repeats(p, s);
    SubPath(live, edges, p, i, j);
    assert Cycle(live, edges, p[i..j + 1]);
  }

  lemma SubPath(live: set<nat>, edges: seq<Edge>, p: seq<nat>, i: nat, j: nat)
    requires Path(live, edges, p) && i < j < |p|
    ensures Path(live, edges, p[i..j + 1])
  {
    hide Arc;
    var c := p[i..j + 1];
    forall k | 0 <= k < |c| - 1 ensures Arc(live, edges, c[k], c[k + 1]) {
      var m := i + k;
      assert c[k] == p[m] && c[k + 1] == p[m + 1];
      assert Arc(live, edges, p[m], p[m + 1]);
    }
  }

  // ---- the state of the sort ---------------------------------------------

  ghost function Done(order: seq<nat>): set<nat> { set v | v in order }

  /** Degrees count open edges; the ready events, listed once, are those without any. */
  ghost predicate Ready(live: set<nat>, degree: map<nat, nat>, listed: seq<nat>) {
    && degree.Keys == live
    && (forall i, j :: 0 <= i < j < |listed| ==> listed[i] != listed[j])
    && (forall v :: v in listed <==> v in live && degree[v] == 0)
  }

  ghost predicate Degrees(live: set<nat>, edges: seq<Edge>, degree: map<nat, nat>, done: set<nat>) {
    degree.Keys == live && forall v :: v in live ==> degree[v] == Open(edges, v, done)
  }

  /** Everything emitted came after all its sources. */
  ghost predicate Emitted(live: set<nat>, edges: seq<Edge>, order: seq<nat>) {
    && (forall v :: v in order ==> v in live)
    && (forall e, j :: 0 <= e < |edges| && 0 <= j < |order| && edges[e].to == order[j] ==> edges[e].from in order[..j])
  }

  lemma EmitNext(live: set<nat>, edges: seq<Edge>, order: seq<nat>, v: nat)
    requires Emitted(live, edges, order) && v in live && Open(edges, v, Done(order)) == 0
    ensures Emitted(live, edges, order + [v])
  {
    var o := order + [v];
    forall e, j | 0 <= e < |edges| && 0 <= j < |o| && edges[e].to == o[j] ensures edges[e].from in o[..j] {
      if j < |order| {
        assert o[..j] == order[..j];
      } else {
        assert o[..j] == order;
        OpenNone(edges, v, Done(order), e);
      }
    }
  }

  /** v could be emitted after the given events: it is not among them and all its sources are. */
  ghost predicate Available(live: set<nat>, edges: seq<Edge>, before: seq<nat>, v: nat) {
    v in live && v !in before && Open(edges, v, Done(before)) == 0
  }

  /** Each event emitted has the least logical time of those available at its turn. */
  ghost predicate EarliestFirst(events: map<nat, Event>, edges: seq<Edge>, order: seq<nat>) {
    forall i, v :: 0 <= i < |order| && Available(events.Keys, edges, order[..i], v) ==>
                     order[i] in events && events[order[i]].logicalTime <= events[v].logicalTime
  }

  lemma EmitEarliest(events: map<nat, Event>, edges: seq<Edge>, degree: map<nat, nat>, order: seq<nat>, queue: seq<nat>,
        i: nat)
    requires EarliestFirst(events, edges, order) && i < |queue|
    requires Ready(events.Keys, degree, order + queue) && Degrees(events.Keys, edges, degree, Done(order))
    requires forall v :: v in queue ==>
                           v in events && queue[i] in events && events[queue[i]].logicalTime <= events[v].logicalTime
    ensures EarliestFirst(events, edges, order + [queue[i]])
  {
    hide Open;
    var o := order + [queue[i]];
    forall j, v | 0 <= j < |o| && Available(events.Keys, edges, o[..j], v)
      ensures o[j] in events && events[o[j]].logicalTime <= events[v].logicalTime
    {
      if j < |order| {
        assert o[..j] == order[..j];
      } else {
        assert o[..j] == order;
        assert v in order + queue;
        assert queue[i] in queue;
      }
    }
  }

  lemma {:induction false} DoneSize(order: seq<nat>)
    requires forall i, j :: 0 <= i < j < |order| ==> order[i] != order[j]
    ensures |Done(order)| == |order|
  {
    if order != [] {
      var n := |order| - 1;
      DoneSize(order[..n]);
      assert Done(order) == Done(order[..n]) + {order[n]};
      assert order[n] !in Done(order[..n]);
    }
  }

  lemma SubsetSize(a: set<nat>, b: set<nat>)
    requires a <= b
    ensures |b| == |a| + |b - a|
  {
    assert b == a + (b - a);
  }

  /** With nothing ready, the events not emitted wait for each other or for an orphan edge. */
  lemma StuckMeansBlocked(live: set<nat>, edges: seq<Edge>, degree: map<nat, nat>, order: seq<nat>)
    requires && Ready(live, degree, order) && Degrees(live, edges, degree, Done(order)) && |order| < |live|
             && NoOrphans(live, edges)
    ensures !Acyclic(live, edges)
  {
    var s := live - Done(order);
    DoneSize(order);
    assert Done(order) <= live;
    SubsetSize(Done(order), live);
    forall v | v in s ensures WaitsFor(live, edges, s, v) {
      assert degree[v] == Open(edges, v, Done(order));
      var e := OpenSome(edges, v, Done(order));
      assert !Orphan(live, edges[e]);
      assert Joins(edges[e], edges[e].from, v);
      assert edges[e].from in s && Arc(live, edges, edges[e].from, v);
    }
    hide WaitsFor;
    WaitingHasCycle(live, edges, s);
  }

  // ---- ready lists -------------------------------------------------------

  lemma MoveReady(live: set<nat>, degree: map<nat, nat>, order: seq<nat>, queue: seq<nat>, i: nat)
    requires i < |queue| && Ready(live, degree, order + queue)
    ensures Ready(live, degree, order + [queue[i]] + (queue[..i] + queue[i + 1..]))
    ensures queue[i] in live && degree[queue[i]] == 0 && queue[i] !in order
  {
    var a, b := order + queue, order + [queue[i]] + (queue[..i] + queue[i + 1..]);
    assert a[|order| + i] == queue[i];
    forall v ensures v in b <==> v in a {
      Rearranged(order, queue, i, v);
    }
    forall x, y | 0 <= x < y < |b| ensures b[x] != b[y] {
      var p, q := Source(|order|, i, x), Source(|order|, i, y);
      assert b[x] == a[p] && b[y] == a[q] && p != q;
      assert p < q || q < p;
    }
    forall k | 0 <= k < |order| ensures order[k] != queue[i] {
      assert a[k] == order[k];
    }
  }

  /** Where position x of the rearranged list comes from. */
  function Source(n: nat, i: nat, x: nat): nat {
    if x < n then x else if x == n then n + i else if x <= n + i then x - 1 else x
  }

  lemma Rearranged(order: seq<nat>, queue: seq<nat>, i: nat, v: nat)
    requires i < |queue|
    ensures v in order + [queue[i]] + (queue[..i] + queue[i + 1..]) <==> v in order + queue
  {
    assert queue == queue[..i] + [queue[i]] + queue[i + 1..];
  }

  lemma PushReady(live: set<nat>, degree: map<nat, nat>, listed: seq<nat>, v: nat)
    requires Ready(live, degree, listed) && v in live && degree[v] > 0
    ensures var degree' := degree[v := degree[v] - 1];
            Ready(live, degree', if degree[v] == 1 then listed + [v] else listed)
  {
  }

  // ---- relaxing the edges of one event -----------------------------------

  /** Half way through relaxing id: edges before e no longer count its edges, later ones still do. */
  ghost predicate Relaxing(live: set<nat>, edges: seq<Edge>, degree: map<nat, nat>, done: set<nat>, id: nat, e: nat)
    requires e <= |edges|
  {
    && degree.Keys == live
    && forall v :: v in live ==> degree[v] == Open(edges[..e], v, done + {id}) + Open(edges[e..], v, done)
  }

  lemma RelaxStart(live: set<nat>, edges: seq<Edge>, degree: map<nat, nat>, done: set<nat>, id: nat)
    requires Degrees(live, edges, degree, done)
    ensures Relaxing(live, edges, degree, done, id, 0)
  {
    assert edges[..0] == [] && edges[0..] == edges;
  }

  lemma RelaxEnd(live: set<nat>, edges: seq<Edge>, degree: map<nat, nat>, done: set<nat>, id: nat)
    requires Relaxing(live, edges, degree, done, id, |edges|)
    ensures Degrees(live, edges, degree, done + {id})
  {
    assert edges[..|edges|] == edges && edges[|edges|..] == [];
  }

  lemma RelaxStep(live: set<nat>, edges: seq<Edge>, degree: map<nat, nat>, done: set<nat>, id: nat, e: nat)
    requires e < |edges| && id !in done && Relaxing(live, edges, degree, done, id, e)
    ensures var x := edges[e];
            if x.from == id && x.to in live then
              degree[x.to] > 0 && Relaxing(live, edges, degree[x.to := degree[x.to] - 1], done, id, e + 1)
            else Relaxing(live, edges, degree, done, id, e + 1)
  {
    var x := edges[e];
    forall v
      ensures Open(edges[..e + 1], v, done + {id}) + Open(edges[e + 1..], v, done) ==
                Open(edges[..e], v, done + {id}) + Open(edges[e..], v, done) -
                (if x.to == v && x.from == id then 1 else 0)
    {
      assert edges[..e + 1] == edges[..e] + [x];
      OpenLast(edges[..e], x, v, done + {id});
      assert edges[e..][0] == x && edges[e..][1..] == edges[e + 1..];
    }
  }

  // ---- the fabric --------------------------------------------------------

  class Fabric {
    var events: map<nat, Event>
    var edges: seq<Edge>
    var nextEventId: nat
    var logicalClock: nat
    var topoOrder: seq<nat>
    var topoValid: bool
    var violations: nat
    var deadlocks: nat

    ghost predicate Valid()
      reads this
    {
      |events| <= MAX_EVENTS && |edges| <= MAX_EDGES && forall id :: id in events ==> id < nextEventId
    }

    constructor ()
      ensures Valid() && events == map[] && edges == [] && nextEventId == 1 && logicalClock == 0
    {
      events, edges, topoOrder := map[], [], [];
      nextEventId, logicalClock, violations, deadlocks := 1, 0, 0, 0;
      topoValid := false;
    }

    method Weave(physicalNs: nat) returns (id: nat)
      requires Valid()
      modifies this`events, this`nextEventId, this`logicalClock, this`topoValid
      ensures && Valid() && id == old(nextEventId) && nextEventId == id + 1 && logicalClock == old(logicalClock) + 1
              && !topoValid
      ensures events ==
                if |old(events)| < MAX_EVENTS then
                  old(events)[id := Event(old(logicalClock), physicalNs, false, false, 0)]
                else old(events)
    {
      id := nextEventId;
      nextEventId := nextEventId + 1;
      if |events| < MAX_EVENTS {
        events := events[id := Event(logicalClock, physicalNs, false, false, 0)];
      }
      logicalClock := logicalClock + 1;
      topoValid := false;
    }

    /** An edge is kept even when it is a violation or names unknown events. */
    method AddEdge(from: nat, to: nat, kind: EdgeKind) returns (ok: bool)
      requires Valid()
      modifies this`events, this`edges, this`violations, this`topoValid
      ensures Valid() && events.Keys == old(events).Keys
      ensures |old(edges)| >= MAX_EDGES ==>
                events == old(events) && violations == old(violations) && topoValid == old(topoValid)
      ensures |old(edges)| < MAX_EDGES ==>
                !topoValid && violations == old(violations) + if Violates(old(events), from, to, kind) then 1 else 0
      ensures edges == if |old(edges)| < MAX_EDGES then old(edges) + [Edge(from, to, kind)] else old(edges)
      ensures ok <==> |old(edges)| < MAX_EDGES && !Violates(old(events), from, to, kind)
      ensures from !in old(events) || to !in old(events) ==> ok == (|old(edges)| < MAX_EDGES)
      ensures from in old(events) && to in old(events) && |old(edges)| < MAX_EDGES ==>
                var a, b := old(events)[from], old(events)[to];
                ok <==> && (b.completed && kind == HardDependency ==> a.completed)
                        && (kind != SpeculativeHint ==> a.physicalNs <= b.physicalNs + 100)
      ensures to in events && |old(edges)| < MAX_EDGES ==>
                events[to] == old(events)[to].(isViolation := old(events)[to].isViolation || Violates(old(events), from,
                      to, kind), inDegree := old(events)[to].inDegree + 1)
      ensures forall id :: id in events && id != to ==> events[id] == old(events)[id]
    {
      if |edges| >= MAX_EDGES { return false; }
      var violation := Violates(events, from, to, kind);
      if violation {
        violations := violations + 1;
        if to in events { events := events[to := events[to].(isViolation := true)]; }
      }
      if to in events { events := events[to := events[to].(inDegree := events[to].inDegree + 1)]; }
      edges := edges + [Edge(from, to, kind)];
      topoValid := false;
      return !violation;
    }

    method CountDegrees() returns (degree: map<nat, nat>)
      ensures Degrees(events.Keys, edges, degree, {})
    {
      degree := map v | v in events :: 0;
      var e := 0;
      while e < |edges|
        invariant 0 <= e <= |edges| && degree.Keys == events.Keys
        invariant forall v :: v in events ==> degree[v] == Open(edges[..e], v, {})
      {
        var x := edges[e];
        forall v | v in events ensures Open(edges[..e + 1], v, {}) == Open(edges[..e], v, {}) + OpenEdge(x, v, {}) {
          assert edges[..e + 1] == edges[..e] + [x];
          OpenLast(edges[..e], x, v, {});
        }
        if x.to in degree { degree := degree[x.to := degree[x.to] + 1]; }
        e := e + 1;
      }
      assert edges[..e] == edges;
    }

    method Roots(degree: map<nat, nat>) returns (queue: seq<nat>)
      requires Valid() && degree.Keys == events.Keys
      ensures Ready(events.Keys, degree, queue)
    {
      queue := [];
      var id := 0;
      while id < nextEventId
        invariant 0 <= id <= nextEventId
        invariant forall v :: v in queue <==> v in degree && degree[v] == 0 && v < id
        invariant forall i, j :: 0 <= i < j < |queue| ==> queue[i] != queue[j]
      {
        if id in degree && degree[id] == 0 { queue := queue + [id]; }
        id := id + 1;
      }
    }

    /** The first ready event with the least logical time. */
    method Earliest(queue: seq<nat>) returns (i: nat)
      requires queue != [] && forall v :: v in queue ==> v in events
      ensures i < |queue|
      ensures forall j :: 0 <= j < |queue| ==> events[queue[i]].logicalTime <= events[queue[j]].logicalTime
      ensures forall j :: 0 <= j < i ==> events[queue[i]].logicalTime < events[queue[j]].logicalTime
    {
      i := 0;
      var j := 1;
      while j < |queue|
        invariant 0 <= i < j <= |queue|
        invariant forall k :: 0 <= k < j ==> events[queue[i]].logicalTime <= events[queue[k]].logicalTime
        invariant forall k :: 0 <= k < i ==> events[queue[i]].logicalTime < events[queue[k]].logicalTime
      {
        if events[queue[j]].logicalTime < events[queue[i]].logicalTime { i := j; }
        j := j + 1;
      }
    }

    method Relax(degree0: map<nat, nat>, queue0: seq<nat>, id: nat, ghost order: seq<nat>)
      returns (degree: map<nat, nat>, queue: seq<nat>)
      requires id in events && id !in order
      requires Degrees(events.Keys, edges, degree0, Done(order)) && Ready(events.Keys, degree0, order + [id] + queue0)
      ensures && Degrees(events.Keys, edges, degree, Done(order + [id]))
              && Ready(events.Keys, degree, order + [id] + queue)
    {
      hide Open;
      hide Ready;
      hide Degrees;
      ghost var live, done := events.Keys, Done(order);
      degree, queue := degree0, queue0;
      RelaxStart(live, edges, degree, done, id);
      var e := 0;
      while e < |edges|
        invariant && 0 <= e <= |edges| && Relaxing(live, edges, degree, done, id, e)
                  && Ready(live, degree, order + [id] + queue)
      {
        RelaxStep(live, edges, degree, done, id, e);
        var succ := edges[e].to;
        if edges[e].from == id && succ in degree {
          PushReady(live, degree, order + [id] + queue, succ);
          degree := degree[succ := degree[succ] - 1];
          if degree[succ] == 0 {
            assert order + [id] + queue + [succ] == order + [id] + (queue + [succ]);
            queue := queue + [succ];
          }
        }
        e := e + 1;
      }
      RelaxEnd(live, edges, degree, done, id);
      assert Done(order + [id]) == done + {id};
    }

    /** Sorted exactly when the live events form no cycle and wait for no missing event; the order is
        then a permutation of the events along every edge, and the iteration cap is never what stops it. */
    method TopologicalSort() returns (r: TopoResult)
      requires Valid()
      modifies this`topoOrder, this`topoValid, this`deadlocks
      ensures r.NoEvents? <==> events == map[]
      ensures r.Sorted? <==> events != map[] && Acyclic(events.Keys, edges) && NoOrphans(events.Keys, edges)
      ensures r.Sorted? ==> r.count == |events| && topoValid && Topological(events.Keys, edges, topoOrder)
      ensures !r.NoEvents? ==> EarliestFirst(events, edges, topoOrder)
      ensures r.CycleDetected? ==>
                r.remaining == |events| - |topoOrder| > 0 && !topoValid && deadlocks == old(deadlocks) + 1
    {
      hide Open;
      hide Acyclic;
      hide NoOrphans;
      hide Topological;
      hide EarliestFirst;
      ghost var live := events.Keys;
      assert |live| == |events|;
      var n := |events|;
      if n == 0 { return NoEvents; }
      var degree := CountDegrees();
      var queue := Roots(degree);
      topoOrder := [];
      var processed := 0;
      SortStart(live, edges, degree, queue);
      NothingEmitted(events, edges);
      while queue != [] && processed < TOPO_SORT_MAX_ITERS
        invariant && processed == |topoOrder| <= n && deadlocks == old(deadlocks)
                  && EarliestFirst(events, edges, topoOrder)
        invariant && Ready(live, degree, topoOrder + queue) && Degrees(live, edges, degree, Done(topoOrder))
                  && Emitted(live, edges, topoOrder)
        decreases n - processed
      {
        ReadyIsLive(live, degree, topoOrder, queue);
        var i := Earliest(queue);
        var id := queue[i];
        AllEarliest(events, queue, i);
        EmitEarliest(events, edges, degree, topoOrder, queue, i);
        MoveReady(live, degree, topoOrder, queue, i);
        EmitNext(live, edges, topoOrder, id);
        queue := queue[..i] + queue[i + 1..];
        ghost var order := topoOrder;
        degree, queue := Relax(degree, queue, id, order);
        topoOrder := topoOrder + [id];
        processed := processed + 1;
        ReadyFits(live, degree, topoOrder, queue);
      }
      assert topoOrder + [] == topoOrder;
      if processed < n {
        if NoOrphans(live, edges) { StuckMeansBlocked(live, edges, degree, topoOrder); }
        deadlocks := deadlocks + 1;
        topoValid := false;
        return CycleDetected(n - processed);
      }
      AllEmitted(live, edges, degree, topoOrder);
      OrderedIsAcyclic(live, edges, topoOrder);
      topoValid := true;
      return Sorted(processed);
    }

    /** Exactly the events from which id is reached in one to depth steps. */
    method PastCone(id: nat, depth: nat) returns (cone: seq<nat>)
      ensures forall x :: x in cone <==> InCone(edges, x, id, depth)
      decreases depth
    {
      if depth == 0 { return []; }
      var parents: seq<nat> := [];
      var e := 0;
      while e < |edges|
        invariant 0 <= e <= |edges|
        invariant forall x :: x in parents <==> exists f :: 0 <= f < e && Joins(edges[f], x, id)
      {
        if edges[e].to == id {
          assert Joins(edges[e], edges[e].from, id);
          parents := parents + [edges[e].from];
        }
        e := e + 1;
      }
      cone := parents;
      var p := 0;
      while p < |parents|
        invariant 0 <= p <= |parents|
        invariant forall x :: x in cone <==>
                                x in parents || exists q :: 0 <= q < p && InCone(edges, x, parents[q], depth - 1)
      {
        var sub := PastCone(parents[p], depth - 1);
        var before := cone;
        var s := 0;
        while s < |sub|
          invariant 0 <= s <= |sub|
          invariant forall x :: x in cone <==> x in before || x in sub[..s]
        {
          if sub[s] !in cone { cone := cone + [sub[s]]; }
          s := s + 1;
        }
        assert sub[..s] == sub;
        p := p + 1;
      }
      ConeUnfolds(edges, parents, id, depth);
    }
  }

  /** One event, and an edge to it from an id that was never woven: no cycle, and yet one is reported. */
  method ReportCycleWithoutOne() returns (f: Fabric, r: TopoResult)
    ensures fresh(f) && f.Valid() && Acyclic(f.events.Keys, f.edges) && r == CycleDetected(1)
  {
    hide Acyclic;
    hide NoOrphans;
    hide Topological;
    hide EarliestFirst;
    f := new Fabric();
    var id := f.Weave(0);
    var ok := f.AddEdge(id + 1, id, DataFlow);
    assert f.events.Keys == {id} && f.edges == [Edge(id + 1, id, DataFlow)];
    OrphanWitness(id, f.edges);
    r := f.TopologicalSort();
    assert |f.events| == |{id}| == 1;
  }

  lemma OrphanWitness(id: nat, edges: seq<Edge>)
    requires edges == [Edge(id + 1, id, DataFlow)]
    ensures Acyclic({id}, edges) && !NoOrphans({id}, edges)
  {
    assert Orphan({id}, edges[0]);
    assert forall u, v :: !Arc({id}, edges, u, v);
    forall p ensures !Cycle({id}, edges, p) {
      assert |p| >= 2 ==> !Arc({id}, edges, p[0], p[0 + 1]);
    }
  }

  predicate Violates(events: map<nat, Event>, from: nat, to: nat, kind: EdgeKind) {
    && from in events && to in events
    && ((events[to].completed && !events[from].completed && kind.HardDependency?)
        || (events[to].physicalNs + MIN_CAUSAL_GAP_NS < events[from].physicalNs && !kind.SpeculativeHint?))
  }

  lemma SortStart(live: set<nat>, edges: seq<Edge>, degree: map<nat, nat>, queue: seq<nat>)
    requires Ready(live, degree, queue) && Degrees(live, edges, degree, {})
    ensures Ready(live, degree, [] + queue) && Degrees(live, edges, degree, Done([])) && Emitted(live, edges, [])
  {
    assert [] + queue == queue && Done([]) == {};
  }

  lemma NothingEmitted(events: map<nat, Event>, edges: seq<Edge>)
    ensures EarliestFirst(events, edges, [])
  {
  }

  lemma AllEarliest(events: map<nat, Event>, queue: seq<nat>, i: nat)
    requires i < |queue| && (forall v :: v in queue ==> v in events)
    requires forall j :: 0 <= j < |queue| ==>
                           && queue[j] in events && queue[i] in events
                           && events[queue[i]].logicalTime <= events[queue[j]].logicalTime
    ensures forall v :: v in queue ==>
                          v in events && queue[i] in events && events[queue[i]].logicalTime <= events[v].logicalTime
  {
  }

  lemma ReadyIsLive(live: set<nat>, degree: map<nat, nat>, order: seq<nat>, queue: seq<nat>)
    requires Ready(live, degree, order + queue)
    ensures forall v :: v in queue ==> v in live
  {
    forall v | v in queue ensures v in live {
      assert v in order + queue;
    }
  }

  lemma ReadyFits(live: set<nat>, degree: map<nat, nat>, order: seq<nat>, queue: seq<nat>)
    requires Ready(live, degree, order + queue)
    ensures |order| + |queue| <= |live|
  {
    DoneSize(order + queue);
    SubsetSize(Done(order + queue), live);
  }

  lemma AllEmitted(live: set<nat>, edges: seq<Edge>, degree: map<nat, nat>, order: seq<nat>)
    requires Ready(live, degree, order) && Emitted(live, edges, order) && |order| >= |live|
    ensures Topological(live, edges, order)
  {
    DoneSize(order);
    SubsetSize(Done(order), live);
    assert live - Done(order) == {};
  }

  // ---- cones -------------------------------------------------------------

  /** id is reached from x in exactly k steps. */
  ghost predicate Reaches(edges: seq<Edge>, x: nat, id: nat, k: nat)
    decreases k
  {
    if k == 0 then x == id
    else exists e :: 0 <= e < |edges| && edges[e].to == id && Reaches(edges, x, edges[e].from, k - 1)
  }

  ghost predicate InCone(edges: seq<Edge>, x: nat, id: nat, depth: nat) {
    exists k :: 1 <= k <= depth && Reaches(edges, x, id, k)
  }

  lemma ConeUnfolds(edges: seq<Edge>, parents: seq<nat>, id: nat, depth: nat)
    requires depth > 0 && forall x :: x in parents <==> exists f :: 0 <= f < |edges| && Joins(edges[f], x, id)
    ensures forall x :: InCone(edges, x, id, depth) <==>
                          x in parents || exists q :: 0 <= q < |parents| && InCone(edges, x, parents[q], depth - 1)
  {
    forall x
      ensures InCone(edges, x, id, depth) <==>
                x in parents || exists q :: 0 <= q < |parents| && InCone(edges, x, parents[q], depth - 1)
    {
      if InCone(edges, x, id, depth) {
        ConeDown(edges, parents, x, id, depth);
      }
      if x in parents {
        ConeParent(edges, x, id, depth);
      }
      if q :| 0 <= q < |parents| && InCone(edges, x, parents[q], depth - 1) {
        assert parents[q] in parents;
        ConeUp(edges, parents, x, id, depth, q);
      }
    }
  }

  lemma ConeParent(edges: seq<Edge>, x: nat, id: nat, depth: nat)
    requires depth > 0 && exists f :: 0 <= f < |edges| && Joins(edges[f], x, id)
    ensures InCone(edges, x, id, depth)
  {
    var f :| 0 <= f < |edges| && Joins(edges[f], x, id);
    assert edges[f].to == id && Reaches(edges, x, edges[f].from, 0);
    assert Reaches(edges, x, id, 1);
  }

  lemma ConeUp(edges: seq<Edge>, parents: seq<nat>, x: nat, id: nat, depth: nat, q: nat)
    requires depth > 0 && q < |parents| && InCone(edges, x, parents[q], depth - 1)
    requires exists f :: 0 <= f < |edges| && Joins(edges[f], parents[q], id)
    ensures InCone(edges, x, id, depth)
  {
    var k :| 1 <= k <= depth - 1 && Reaches(edges, x, parents[q], k);
    var f :| 0 <= f < |edges| && Joins(edges[f], parents[q], id);
    assert edges[f].to == id && Reaches(edges, x, edges[f].from, k + 1 - 1);
    assert Reaches(edges, x, id, k + 1);
  }

  lemma ConeDown(edges: seq<Edge>, parents: seq<nat>, x: nat, id: nat, depth: nat)
    requires && InCone(edges, x, id, depth)
             && forall y :: y in parents <==> exists f :: 0 <= f < |edges| && Joins(edges[f], y, id)
    ensures x in parents || exists q :: 0 <= q < |parents| && InCone(edges, x, parents[q], depth - 1)
  {
    var k :| 1 <= k <= depth && Reaches(edges, x, id, k);
    var e :| 0 <= e < |edges| && edges[e].to == id && Reaches(edges, x, edges[e].from, k - 1);
    assert Joins(edges[e], edges[e].from, id);
    assert edges[e].from in parents;
    if k > 1 {
      var q :| 0 <= q < |parents| && parents[q] == edges[e].from;
      assert InCone(edges, x, parents[q], depth - 1);
    }
  }
}
