/** Dependencies over whole runs of the axiom manifold: they never dangle while a transaction is
    prepared, a commit comes after the commits of its dependencies, and nothing commits twice. */
module AxiomOrder {
  import opened AxiomTypes
  import opened AxiomSpec
  import opened AxiomHistory

  // ---- the shape of the tables is kept ------------------------------------

  lemma StepKeepsShape<F>(g: Geometry, mixer: Mixer, policy: Policy<F>, x: System, op: Op<F>, x': System)
    requires Shape(g, x.inner) && |x.history.occupant| == g.slots && Step(g, mixer, policy, x, op, x')
    ensures Shape(g, x'.inner) && |x'.history.occupant| == g.slots
  {
    hide WellFormed;
    hide RootOf;
    hide ReadsHold;
    hide CheckWrites;
    hide ApplyWrites;
    hide MergeDependencies;
    if op.DriveOp? {
      var i := DriveCases(g, mixer, policy, x.inner, op.now, op.result);
      hide Drives;
      assert i < |x.inner.slots| ==> SlotShape(g, x.inner.slots[i]);
    } else if op.ReapOp? {
      EmptyDraftShape(g);
    }
  }

  lemma EmptyDraftShape(g: Geometry)
    ensures WellFormed(g, EMPTY_DRAFT) && CellsInRange(g, EMPTY_DRAFT)
  {
  }

  // ---- occupancy ---------------------------------------------------------

  /** Slot i holds the submission the history says it holds. */
  ghost predicate Holds(x: System, i: nat)
    requires i < |x.inner.slots| && i < |x.history.occupant|
  {
    var slot, tx := x.inner.slots[i], x.history.occupant[i];
    && tx < |x.history.submissions| && x.history.submissions[tx].draft == slot.draft
    && x.history.submissions[tx].vector == slot.vector
  }

  /** Dependency k of the prepared slot i is the very submission it named, still in its slot. */
  ghost predicate DependencyHeld(x: System, i: nat, k: nat)
    requires i < |x.inner.slots| && i < |x.history.occupant| && Holds(x, i) && k < |x.inner.slots[i].draft.dependencies|
  {
    var id, deps := x.inner.slots[i].draft.dependencies[k], x.history.submissions[x.history.occupant[i]].deps;
    && Live(x.inner.slots, id) && id.slot < |x.history.occupant|
    && k < |deps| && deps[k] == x.history.occupant[id.slot]
  }

  ghost predicate CommittedBefore(h: History, m: nat, tx: nat)
    requires m <= |h.commits|
  {
    exists e :: 0 <= e < m && h.commits[e].tx == tx
  }

  ghost predicate CommittedTx(h: History, tx: nat) {
    CommittedBefore(h, |h.commits|, tx)
  }

  /** Every dependency of commit m committed before it. */
  ghost predicate AfterDependencies(h: History, m: nat)
    requires m < |h.commits|
  {
    && h.commits[m].tx < |h.submissions|
    && forall k :: 0 <= k < |h.submissions[h.commits[m].tx].deps| ==>
         CommittedBefore(h, m, h.submissions[h.commits[m].tx].deps[k])
  }

  ghost predicate SlotOrder(x: System, i: nat)
    requires i < |x.inner.slots| && i < |x.history.occupant|
  {
    var slot, tx := x.inner.slots[i], x.history.occupant[i];
    !slot.status.Free? ==>
      && Holds(x, i)
      && (slot.status.Committed? ==> CommittedTx(x.history, tx))
      && (slot.status.Prepared? ==>
            && !CommittedTx(x.history, tx)
            && |x.history.submissions[tx].deps| == |slot.draft.dependencies|
            && forall k :: 0 <= k < |slot.draft.dependencies| ==> DependencyHeld(x, i, k))
  }

  ghost predicate Ordered(x: System) {
    && |x.inner.slots| == |x.history.occupant|
    && (forall i :: 0 <= i < |x.inner.slots| ==> SlotOrder(x, i))
    && (forall i, j :: 0 <= i < j < |x.inner.slots| && !x.inner.slots[i].status.Free? && !x.inner.slots[j].status.Free?
          ==> x.history.occupant[i] != x.history.occupant[j])
    && (forall m :: 0 <= m < |x.history.commits| ==> AfterDependencies(x.history, m))
    && (forall m, n :: 0 <= m < n < |x.history.commits| ==> x.history.commits[m].tx != x.history.commits[n].tx)
  }

  /** A slot change that frees nothing prepared slots point to keeps their dependencies. */
  lemma SlotOrderFrame(x: System, x': System, i: nat, j: nat)
    requires |x.inner.slots| == |x.history.occupant| == |x'.inner.slots| == |x'.history.occupant|
    requires i < |x.inner.slots| && j < |x.inner.slots| && i != j && SlotOrder(x, i)
    requires forall k :: 0 <= k < |x.inner.slots| && k != j ==> x'.inner.slots[k] == x.inner.slots[k]
    requires x.inner.slots[j].generation == x'.inner.slots[j].generation
    requires x'.inner.slots[j].status.Free? ==> x.inner.slots[j].status.Free?
    requires x'.history == x.history
    ensures SlotOrder(x', i)
  {
    var slot := x.inner.slots[i];
    if slot.status.Prepared? {
      forall k | 0 <= k < |slot.draft.dependencies| ensures DependencyHeld(x', i, k) {
        assert DependencyHeld(x, i, k);
      }
    }
  }

  // ---- preservation, one kind of step at a time --------------------------

  /** Steps that change one occupied slot and leave the history alone. */
  lemma SlotChangeKeeps(x: System, x': System, j: nat)
    requires Ordered(x) && j < |x.inner.slots| && !x.inner.slots[j].status.Free?
    requires x'.history == x.history && |x'.inner.slots| == |x.inner.slots|
    requires forall k :: 0 <= k < |x.inner.slots| && k != j ==> x'.inner.slots[k] == x.inner.slots[k]
    requires var a, b := x.inner.slots[j], x'.inner.slots[j];
             && a.generation == b.generation && a.draft == b.draft && a.vector == b.vector
             && !b.status.Free? && (b.status == a.status || b.status.Aborted? || b.status.Expired?)
    ensures Ordered(x')
  {
    assert SlotOrder(x, j);
    forall i | 0 <= i < |x.inner.slots| ensures SlotOrder(x', i) {
      assert SlotOrder(x, i);
      if i != j {
        SlotOrderFrame(x, x', i, j);
      } else if x'.inner.slots[j].status.Prepared? {
        forall k | 0 <= k < |x.inner.slots[j].draft.dependencies| ensures DependencyHeld(x', j, k) {
          assert DependencyHeld(x, j, k);
        }
      }
    }
    hide SlotOrder;
  }

  lemma SubmitSlot(g: Geometry, x: System, x': System, origin: nat, stamp: nat, d: Draft, i: nat)
    requires Shape(g, x.inner) && Ordered(x) && WellFormed(g, d)
    requires SubmitError(g, x.inner, origin, d).None?
    requires x'.inner == Submit(g, x.inner, origin, stamp, d).state
    requires x'.history == x.history.(
                submissions := x.history.submissions + [Submission(origin, d, DependencyIndices(x.history.occupant,
                      d.dependencies), SubmitVector(g, x.inner, origin, d))],
                occupant := x.history.occupant[FirstFree(x.inner.slots, 0) := |x.history.submissions|])
    requires i < |x.inner.slots|
    ensures SlotOrder(x', i)
  {
    hide WellFormed;
    hide MergeDependencies;
    hide Shape;
    var j := FirstFree(x.inner.slots, 0);
    assert SlotOrder(x, i);
    if i == j {
      forall k | 0 <= k < |d.dependencies| ensures DependencyHeld(x', i, k) {
        assert Live(x.inner.slots, d.dependencies[k]);
      }
      NewSubmissionFresh(x);
    } else if x.inner.slots[i].status.Prepared? {
      forall k | 0 <= k < |x.inner.slots[i].draft.dependencies| ensures DependencyHeld(x', i, k) {
        assert DependencyHeld(x, i, k);
      }
    }
  }

  lemma NewSubmissionFresh(x: System)
    requires Ordered(x)
    ensures !CommittedTx(x.history, |x.history.submissions|)
  {
    hide SlotOrder;
    forall m | 0 <= m < |x.history.commits| ensures x.history.commits[m].tx < |x.history.submissions| {
      assert AfterDependencies(x.history, m);
    }
  }

  lemma SubmitKeeps<F>(g: Geometry, mixer: Mixer, policy: Policy<F>, x: System, op: Op<F>, x': System)
    requires && Shape(g, x.inner) && Ordered(x) && |x.history.occupant| == g.slots && Step(g, mixer, policy, x, op, x')
             && op.SubmitOp?
    ensures Ordered(x')
  {
    var s, h := x.inner, x.history;
    if SubmitError(g, s, op.origin, op.draft).None? {
      hide WellFormed;
      hide MergeDependencies;
      forall i | 0 <= i < |s.slots| ensures SlotOrder(x', i) {
        SubmitSlot(g, x, x', op.origin, op.stamp, op.draft, i);
      }
      SubmitDistinct(x, x', FirstFree(s.slots, 0));
      hide Shape;
      hide SlotOrder;
      forall m | 0 <= m < |x'.history.commits| ensures AfterDependencies(x'.history, m) {
        AfterDependenciesFrame(h, x'.history, m);
      }
    }
  }

  lemma AfterDependenciesFrame(h: History, h': History, m: nat)
    requires m < |h.commits| <= |h'.commits| && AfterDependencies(h, m)
    requires h.commits <= h'.commits && h.submissions <= h'.submissions
    ensures AfterDependencies(h', m)
  {
    var tx := h.commits[m].tx;
    assert h'.submissions[tx] == h.submissions[tx];
    forall k | 0 <= k < |h'.submissions[tx].deps| ensures CommittedBefore(h', m, h'.submissions[tx].deps[k]) {
      assert CommittedBefore(h, m, h.submissions[tx].deps[k]);
      var q :| 0 <= q < m && h.commits[q].tx == h.submissions[tx].deps[k];
      assert h'.commits[q].tx == h'.submissions[tx].deps[k];
    }
  }

  lemma SubmitDistinct(x: System, x': System, j: nat)
    requires Ordered(x) && j < |x.inner.slots|
    requires && |x'.inner.slots| == |x.inner.slots|
             && forall k :: 0 <= k < |x.inner.slots| && k != j ==> x'.inner.slots[k] == x.inner.slots[k]
    requires x'.history.occupant == x.history.occupant[j := |x.history.submissions|]
    ensures forall a, b :: && 0 <= a < b < |x'.inner.slots| && !x'.inner.slots[a].status.Free?
                           && !x'.inner.slots[b].status.Free?
              ==> x'.history.occupant[a] != x'.history.occupant[b]
  {
    forall a | 0 <= a < |x.inner.slots| && !x.inner.slots[a].status.Free?
      ensures x.history.occupant[a] < |x.history.submissions|
    {
      assert SlotOrder(x, a);
    }
    hide SlotOrder;
  }

  lemma ReapKeeps<F>(g: Geometry, mixer: Mixer, policy: Policy<F>, x: System, op: Op<F>, x': System)
    requires && Shape(g, x.inner) && Ordered(x) && |x.history.occupant| == g.slots && Step(g, mixer, policy, x, op, x')
             && op.ReapOp?
    ensures Ordered(x')
  {
    var s := x.inner;
    if Reap(g, s, op.id).Reaped? {
      var j := op.id.slot;
      forall i | 0 <= i < |s.slots| ensures SlotOrder(x', i) {
        assert SlotOrder(x, i);
        if i != j && s.slots[i].status.Prepared? {
          forall k | 0 <= k < |s.slots[i].draft.dependencies| ensures DependencyHeld(x', i, k) {
            assert DependencyHeld(x, i, k);
            assert s.slots[i].draft.dependencies[k] != op.id;
          }
        }
      }
      hide SlotOrder;
      hide Shape;
    }
  }

  /** At its commit, every dependency of a transaction is already in the commit list. */
  lemma DependenciesCommitted(x: System, i: nat, k: nat)
    requires Ordered(x) && i < |x.inner.slots| && Eligible(x.inner.slots, i) && Holds(x, i)
    requires k < |x.history.submissions[x.history.occupant[i]].deps|
    ensures CommittedTx(x.history, x.history.submissions[x.history.occupant[i]].deps[k])
  {
    assert SlotOrder(x, i);
    assert DependencyHeld(x, i, k);
    var id := x.inner.slots[i].draft.dependencies[k];
    assert SlotOrder(x, id.slot);
  }

  lemma CommitSlot(x: System, x': System, j: nat, e: CommitEntry, i: nat)
    requires Ordered(x) && j < |x.inner.slots| && Eligible(x.inner.slots, j) && i < |x.inner.slots|
    requires x'.history == x.history.(commits := x.history.commits + [e]) && e.tx == x.history.occupant[j]
    requires |x'.inner.slots| == |x.inner.slots|
    requires forall k :: 0 <= k < |x.inner.slots| && k != j ==> x'.inner.slots[k] == x.inner.slots[k]
    requires var a, b := x.inner.slots[j], x'.inner.slots[j];
             a.generation == b.generation && a.draft == b.draft && a.vector == b.vector && b.status.Committed?
    ensures SlotOrder(x', i)
  {
    assert SlotOrder(x, i);
    var slot, tx := x.inner.slots[i], x.history.occupant[i];
    assert x'.history.commits[|x.history.commits|].tx == x.history.occupant[j];
    if i != j && !slot.status.Free? {
      assert tx != x.history.occupant[j];
      if CommittedTx(x.history, tx) {
        var m :| 0 <= m < |x.history.commits| && x.history.commits[m].tx == tx;
        assert x'.history.commits[m].tx == tx;
      }
      if slot.status.Prepared? {
        forall k | 0 <= k < |slot.draft.dependencies| ensures DependencyHeld(x', i, k) {
          assert DependencyHeld(x, i, k);
        }
      }
    }
  }

  lemma NewCommitOrdered(x: System, h': History, e: CommitEntry, j: nat)
    requires Ordered(x) && j < |x.inner.slots| && Eligible(x.inner.slots, j) && e.tx == x.history.occupant[j]
    requires h' == x.history.(commits := x.history.commits + [e])
    ensures forall m :: 0 <= m < |h'.commits| ==> AfterDependencies(h', m)
    ensures forall m, n :: 0 <= m < n < |h'.commits| ==> h'.commits[m].tx != h'.commits[n].tx
  {
    assert SlotOrder(x, j);
    var last := |x.history.commits|;
    forall m | 0 <= m < last ensures AfterDependencies(h', m) {
      AfterDependenciesFrame(x.history, h', m);
    }
    assert h'.commits[last] == e;
    forall k | 0 <= k < |h'.submissions[e.tx].deps| ensures CommittedBefore(h', last, h'.submissions[e.tx].deps[k]) {
      DependenciesCommitted(x, j, k);
      var q :| 0 <= q < |x.history.commits| && x.history.commits[q].tx == x.history.submissions[e.tx].deps[k];
      assert h'.commits[q].tx == h'.submissions[e.tx].deps[k];
    }
    assert AfterDependencies(h', last);
    hide SlotOrder;
  }

  lemma DriveKeeps<F>(g: Geometry, mixer: Mixer, policy: Policy<F>, x: System, op: Op<F>, x': System)
    requires && Shape(g, x.inner) && Ordered(x) && |x.history.occupant| == g.slots && Step(g, mixer, policy, x, op, x')
             && op.DriveOp?
    ensures Ordered(x')
  {
    hide RootOf;
    hide ReadsHold;
    hide CheckWrites;
    hide ApplyWrites;
    hide Ordered;
    if op.result.outcome.CommittedWith? {
      var j, e := CommitStep(g, mixer, policy, x, op, x');
      hide Step;
      hide Shape;
      CommitKeepsOrder(x, x', j, e, mixer);
    } else {
      var j := DriveCases(g, mixer, policy, x.inner, op.now, op.result);
      hide Drives;
      hide Shape;
      if op.result.outcome.Rejected? {
        SlotChangeKeeps(x, x', j);
      }
    }
  }

  lemma CommitKeepsOrder(x: System, x': System, j: nat, e: CommitEntry, mixer: Mixer)
    requires && Ordered(x) && j < |x.inner.slots| && Selected(x.inner.slots, j)
             && InRange(|x.inner.cells|, e.draft.writeSet)
    requires e.tx == x.history.occupant[j] && x'.history == x.history.(commits := x.history.commits + [e])
    requires x'.inner == Commit(mixer, x.inner, j, ApplyWrites(x.inner.cells, e.draft.writeSet))
    ensures Ordered(x')
  {
    hide RootOf;
    hide ApplyWrites;
    hide InRange;
    assert Eligible(x.inner.slots, j);
    hide Selected;
    forall i | 0 <= i < |x.inner.slots| ensures SlotOrder(x', i) {
      hide SlotOrder;
      hide Eligible;
      CommitSlot(x, x', j, e, i);
    }
    hide SlotOrder;
    NewCommitOrdered(x, x'.history, e, j);
  }

  lemma StepKeepsOrder<F>(g: Geometry, mixer: Mixer, policy: Policy<F>, x: System, op: Op<F>, x': System)
    requires Shape(g, x.inner) && Ordered(x) && |x.history.occupant| == g.slots && Step(g, mixer, policy, x, op, x')
    ensures Ordered(x')
  {
    match op
    case SubmitOp(_, _, _) => SubmitKeeps(g, mixer, policy, x, op, x');
    case ReapOp(_) => ReapKeeps(g, mixer, policy, x, op, x');
    case DriveOp(_, _) => DriveKeeps(g, mixer, policy, x, op, x');
    case AttestOp(id, node) =>
      hide Ordered;
      if Attest(g, x.inner, id, node).Attested? { SlotChangeKeeps(x, x', id.slot); }
    case SeedOp(_, _, _, _) => SeedKeeps(x, x');
  }

  lemma SeedKeeps(x: System, x': System)
    requires Ordered(x) && x'.inner.slots == x.inner.slots
    requires x'.history.occupant == x.history.occupant && x'.history.submissions == x.history.submissions
              && x'.history.commits == x.history.commits
    ensures Ordered(x')
  {
    forall i | 0 <= i < |x.inner.slots| ensures SlotOrder(x', i) {
      assert SlotOrder(x, i);
      if x.inner.slots[i].status.Prepared? {
        forall k | 0 <= k < |x.inner.slots[i].draft.dependencies| ensures DependencyHeld(x', i, k) {
          assert DependencyHeld(x, i, k);
        }
      }
    }
    hide SlotOrder;
    forall m | 0 <= m < |x.history.commits| ensures AfterDependencies(x'.history, m) {
      AfterDependenciesFrame(x.history, x'.history, m);
    }
  }

  /** Over every run: dependencies of prepared slots never dangle, every commit comes after the
      commits of its dependencies, and no submission commits twice. */
  lemma {:induction false} DependencyOrder<F>(g: Geometry, mixer: Mixer, policy: Policy<F>, states: seq<System>,
        ops: seq<Op<F>>, k: nat)
    requires Run(g, mixer, policy, states, ops) && k < |states|
    ensures Ordered(states[k])
  {
    hide Step;
    if k > 0 {
      hide Ordered;
      DependencyOrder(g, mixer, policy, states, ops, k - 1);
      StepKeepsOrder(g, mixer, policy, states[k - 1], ops[k - 1], states[k]);
    }
  }

  /** So the generation and vacancy tests of the doom rule never fire: a dependency is lost only by
      its own abort or expiry. */
  lemma LostOnlyByRejection(x: System, i: nat, k: nat)
    requires && Ordered(x) && i < |x.inner.slots| && x.inner.slots[i].status.Prepared?
             && k < |x.inner.slots[i].draft.dependencies|
    ensures var id := x.inner.slots[i].draft.dependencies[k];
            && id.slot < |x.inner.slots|
            && (DependencyLost(x.inner.slots, id) <==>
                  x.inner.slots[id.slot].status.Aborted? || x.inner.slots[id.slot].status.Expired?)
  {
    assert SlotOrder(x, i);
    assert DependencyHeld(x, i, k);
  }
}
