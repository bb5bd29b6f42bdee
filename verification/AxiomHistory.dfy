/** Runs of the axiom manifold: the transitions together with a history that remembers the seeded
    cells, every submission and every commit. */
module AxiomHistory {
  import opened AxiomTypes
  import opened AxiomSpec

  /** A submission as the causal order sees it: dependencies are positions in the list of submissions. */
  datatype Submission = Submission(origin: nat, draft: Draft, deps: seq<nat>, vector: seq<nat>)

  datatype CommitEntry = CommitEntry(tx: nat, draft: Draft, certificate: Certificate)

  datatype History = History(
    seeded: seq<StateCell>,          // the cells when seeding last succeeded
    submissions: seq<Submission>,
    occupant: seq<nat>,              // which submission each slot holds
    commits: seq<CommitEntry>        // in commit order
  )

  datatype System = System(inner: Inner, history: History)

  datatype Op<F> =
    | SeedOp(index: nat, value: u64, class_: nat, flags: nat)
    | SubmitOp(origin: nat, stamp: nat, draft: Draft)
    | AttestOp(id: TransactionId, node: nat)
    | DriveOp(now: nat, result: DriveResult<F>)
    | ReapOp(id: TransactionId)

  function Start(g: Geometry): System {
    System(Initial(g), History(Initial(g).cells, [], seq(g.slots, _ => 0), []))
  }

  function DependencyIndices(occupant: seq<nat>, ids: seq<TransactionId>): (r: seq<nat>)
    ensures |r| == |ids|
  {
    seq(|ids|, k requires 0 <= k < |ids| => if ids[k].slot < |occupant| then occupant[ids[k].slot] else 0)
  }

  ghost predicate Step<F>(g: Geometry, mixer: Mixer, policy: Policy<F>, x: System, op: Op<F>, x': System)
    requires Shape(g, x.inner) && |x.history.occupant| == g.slots
  {
    var s, h := x.inner, x.history;
    match op
    case SeedOp(index, value, class_, flags) =>
      (match Seed(s, index, value, class_, flags)
       case Seeded(s') => x' == System(s', h.(seeded := s'.cells))
       case SeedFailed(_) => x' == x)
    case SubmitOp(origin, stamp, d) =>
      && WellFormed(g, d)
      && (match Submit(g, s, origin, stamp, d)
          case Submitted(s', id) =>
            && id.slot < g.slots
            && x' == System(s', h.(
                              submissions := h.submissions + [Submission(origin, d, DependencyIndices(h.occupant,
                                    d.dependencies), SubmitVector(g, s, origin, d))],
                              occupant := h.occupant[id.slot := |h.submissions|]))
          case SubmitFailed(_) => x' == x)
    case AttestOp(id, node) =>
      (match Attest(g, s, id, node)
       case Attested(s', _) => x' == System(s', h)
       case AttestFailed(_) => x' == x)
    case DriveOp(now, r) =>
      && Drives(g, mixer, policy, s, now, r)
      && (match r.outcome
          case CommittedWith(certificate) =>
            var i := certificate.transaction.slot;
            && i < g.slots
            && x' ==
                 System(r.state, h.(commits := h.commits + [CommitEntry(h.occupant[i], s.slots[i].draft, certificate)]))
          case _ => x' == System(r.state, h))
    case ReapOp(id) =>
      (match Reap(g, s, id)
       case Reaped(s') => x' == System(s', h)
       case ReapFailed(_) => x' == x)
  }

  ghost predicate Run<F>(g: Geometry, mixer: Mixer, policy: Policy<F>, states: seq<System>, ops: seq<Op<F>>) {
    && |states| == |ops| + 1 && states[0] == Start(g)
    && (forall k :: 0 <= k < |states| ==> Shape(g, states[k].inner) && |states[k].history.occupant| == g.slots)
    && (forall k :: 0 <= k < |ops| ==> Step(g, mixer, policy, states[k], ops[k], states[k + 1]))
  }

  // ---- what a drive can do -----------------------------------------------

  /** The three shapes of a drive: nothing, one refusal, one commit. */
  lemma DriveCases<F>(g: Geometry, mixer: Mixer, policy: Policy<F>, s: Inner, now: nat, r: DriveResult<F>)
    returns (i: nat)
    requires Shape(g, s) && Drives(g, mixer, policy, s, now, r)
    ensures match r.outcome
            case Idle => r.state == s && PreparedCount(s.slots) == 0
            case Blocked(n) => r.state == s && n == PreparedCount(s.slots) > 0
            case Rejected(id, reason, fault) =>
              && i < |s.slots| && s.slots[i].status.Prepared? && id == IdOf(s.slots, i)
              && r.state == s.(slots := s.slots[i := RejectSlot(s.slots[i], reason)])
            case CommittedWith(certificate) =>
              && i < |s.slots| && Selected(s.slots, i) && certificate.transaction == IdOf(s.slots, i)
              && InRange(|s.cells|, s.slots[i].draft.writeSet)
              && ReadsHold(s.cells, s.slots[i].draft.readSet)
              && CheckWrites(policy, s.slots[i].draft.kind, s.cells, s.slots[i].draft.writeSet).Allowed?
              && var after := ApplyWrites(s.cells, s.slots[i].draft.writeSet);
                 && policy.validate(after).None?
                 && r.state == Commit(mixer, s, i, after) && certificate == CertificateFor(mixer, s, i, after)
  {
    hide Attempt;
    hide ApplyWrites;
    hide CheckWrites;
    hide ReadsHold;
    hide WellFormed;
    hide CertificateFor;
    hide Commit;
    i := FirstDoomed(s.slots, now, 0);
    if i < |s.slots| {
    } else if PreparedCount(s.slots) == 0 {
    } else if forall i :: 0 <= i < |s.slots| ==> !Eligible(s.slots, i) {
    } else {
      i :| 0 <= i < |s.slots| && Selected(s.slots, i) && SlotShape(g, s.slots[i]) && r == Attempt(mixer, policy, s, i);
      hide Drives;
      hide Shape;
      AttemptCases(mixer, policy, s, i);
    }
  }

  lemma AttemptCases<F>(mixer: Mixer, policy: Policy<F>, s: Inner, i: nat)
    requires i < |s.slots| && InRange(|s.cells|, s.slots[i].draft.writeSet)
    ensures var r := Attempt(mixer, policy, s, i);
            match r.outcome
            case Idle => false
            case Blocked(_) => false
            case Rejected(id, reason, fault) =>
              && id == IdOf(s.slots, i) && r.state == s.(slots := s.slots[i := RejectSlot(s.slots[i], reason)])
            case CommittedWith(certificate) =>
              && certificate.transaction == IdOf(s.slots, i) && ReadsHold(s.cells, s.slots[i].draft.readSet)
              && CheckWrites(policy, s.slots[i].draft.kind, s.cells, s.slots[i].draft.writeSet).Allowed?
              && var after := ApplyWrites(s.cells, s.slots[i].draft.writeSet);
                 && policy.validate(after).None?
                 && r.state == Commit(mixer, s, i, after) && certificate == CertificateFor(mixer, s, i, after)
  {
    hide ApplyWrites;
    hide CheckWrites;
    hide ReadsHold;
    hide RootOf;
    hide Commit;
  }

  /** A drive that does not commit changes no cell, hence not the root, and no epoch. */
  lemma RejectionChangesNoCell<F>(g: Geometry, mixer: Mixer, policy: Policy<F>, s: Inner, now: nat, r: DriveResult<F>)
    requires Shape(g, s) && Drives(g, mixer, policy, s, now, r) && !r.outcome.CommittedWith?
    ensures && r.state.cells == s.cells && RootOf(mixer, r.state.cells) == RootOf(mixer, s.cells)
            && r.state.epoch == s.epoch
    ensures r.state.frontiers == s.frontiers && r.state.sequence == s.sequence && r.state.submitted == s.submitted
  {
    var i := DriveCases(g, mixer, policy, s, now, r);
  }

  // ---- serial replay -----------------------------------------------------

  ghost predicate EntriesInRange(n: nat, commits: seq<CommitEntry>) {
    forall k :: 0 <= k < |commits| ==> InRange(n, commits[k].draft.writeSet)
  }

  /** The committed drafts applied one after the other to the seeded cells. */
  ghost function Replay(seeded: seq<StateCell>, commits: seq<CommitEntry>): (r: seq<StateCell>)
    requires EntriesInRange(|seeded|, commits)
    ensures |r| == |seeded|
  {
    if commits == [] then seeded
    else
      var n := |commits| - 1;
      assert InRange(|seeded|, commits[n].draft.writeSet);
      ApplyWrites(Replay(seeded, commits[..n]), commits[n].draft.writeSet)
  }

  /** Commit k, at its point in the serial order: its reads hold, its writes are allowed, the state it
      leaves is valid, its certificate names the roots before and after, and its quorum was met. */
  ghost predicate EntryHolds<F>(mixer: Mixer, policy: Policy<F>, seeded: seq<StateCell>, commits: seq<CommitEntry>,
        k: nat)
    requires k < |commits| && EntriesInRange(|seeded|, commits)
  {
    var before := Replay(seeded, commits[..k]);
    var after := Replay(seeded, commits[..k + 1]);
    var e := commits[k];
    && InRange(|seeded|, e.draft.writeSet)
    && ReadsHold(before, e.draft.readSet)
    && CheckWrites(policy, e.draft.kind, before, e.draft.writeSet).Allowed?
    && policy.validate(after).None?
    && e.certificate.stateBefore == RootOf(mixer, before) && e.certificate.stateAfter == RootOf(mixer, after)
    && e.certificate.epoch == (if k + 1 <= U64_MAX then k + 1 else U64_MAX)
    && |e.certificate.witnesses| >= e.draft.requiredWitnesses
  }

  ghost predicate Serial<F>(mixer: Mixer, policy: Policy<F>, x: System) {
    var h := x.history;
    && EntriesInRange(|h.seeded|, h.commits)
    && x.inner.cells == Replay(h.seeded, h.commits)
    && (forall k :: 0 <= k < |h.commits| ==> EntryHolds(mixer, policy, h.seeded, h.commits, k))
    && x.inner.epoch == (if |h.commits| <= U64_MAX then |h.commits| else U64_MAX)
    && (x.inner.submitted == 0 ==>
          && h.commits == [] && h.submissions == []
          && forall i :: 0 <= i < |x.inner.slots| ==> x.inner.slots[i].status.Free?)
  }

  lemma AppendEntry<F>(mixer: Mixer, policy: Policy<F>, seeded: seq<StateCell>, commits: seq<CommitEntry>,
        e: CommitEntry)
    requires EntriesInRange(|seeded|, commits) && InRange(|seeded|, e.draft.writeSet)
    requires forall k :: 0 <= k < |commits| ==> EntryHolds(mixer, policy, seeded, commits, k)
    ensures EntriesInRange(|seeded|, commits + [e])
    ensures Replay(seeded, commits + [e]) == ApplyWrites(Replay(seeded, commits), e.draft.writeSet)
    ensures forall k :: 0 <= k < |commits| ==> EntryHolds(mixer, policy, seeded, commits + [e], k)
  {
    hide ApplyWrites;
    hide CheckWrites;
    hide ReadsHold;
    hide RootOf;
    var all := commits + [e];
    assert all[..|commits|] == commits;
    forall k | 0 <= k < |commits| ensures EntryHolds(mixer, policy, seeded, all, k) {
      assert all[..k] == commits[..k] && all[..k + 1] == commits[..k + 1];
      assert EntryHolds(mixer, policy, seeded, commits, k);
    }
  }

  /** The entry a commit appends holds at its place. */
  lemma NewEntryHolds<F>(mixer: Mixer, policy: Policy<F>, seeded: seq<StateCell>, commits: seq<CommitEntry>,
        e: CommitEntry)
    requires EntriesInRange(|seeded|, commits) && InRange(|seeded|, e.draft.writeSet)
    requires var before := Replay(seeded, commits);
             var after := ApplyWrites(before, e.draft.writeSet);
             && ReadsHold(before, e.draft.readSet)
             && CheckWrites(policy, e.draft.kind, before, e.draft.writeSet).Allowed?
             && policy.validate(after).None?
             && e.certificate.stateBefore == RootOf(mixer, before) && e.certificate.stateAfter == RootOf(mixer, after)
    requires e.certificate.epoch == (if |commits| + 1 <= U64_MAX then |commits| + 1 else U64_MAX)
    requires |e.certificate.witnesses| >= e.draft.requiredWitnesses
    ensures EntriesInRange(|seeded|, commits + [e]) && EntryHolds(mixer, policy, seeded, commits + [e], |commits|)
  {
    hide ApplyWrites;
    hide CheckWrites;
    hide ReadsHold;
    hide RootOf;
    hide InRange;
    var all := commits + [e];
    assert all[..|commits|] == commits && all[..|commits| + 1] == all;
  }

  /** What a committing step does to the system. */
  lemma CommitStep<F>(g: Geometry, mixer: Mixer, policy: Policy<F>, x: System, op: Op<F>, x': System)
    returns (i: nat, e: CommitEntry)
    requires Shape(g, x.inner) && |x.history.occupant| == g.slots
    requires Step(g, mixer, policy, x, op, x') && op.DriveOp? && op.result.outcome.CommittedWith?
    ensures i < |x.inner.slots| && Selected(x.inner.slots, i) && i < |x.history.occupant|
    ensures InRange(|x.inner.cells|, e.draft.writeSet) && ReadsHold(x.inner.cells, e.draft.readSet)
    ensures CheckWrites(policy, e.draft.kind, x.inner.cells, e.draft.writeSet).Allowed?
    ensures policy.validate(ApplyWrites(x.inner.cells, e.draft.writeSet)).None?
    ensures x'.inner == Commit(mixer, x.inner, i, ApplyWrites(x.inner.cells, e.draft.writeSet))
    ensures x'.history == x.history.(commits := x.history.commits + [e])
    ensures e == CommitEntry(x.history.occupant[i], x.inner.slots[i].draft, CertificateFor(mixer, x.inner, i,
              ApplyWrites(x.inner.cells, e.draft.writeSet)))
  {
    hide ApplyWrites;
    hide CheckWrites;
    hide ReadsHold;
    hide RootOf;
    hide InRange;
    hide Selected;
    i := DriveCases(g, mixer, policy, x.inner, op.now, op.result);
    hide Drives;
    e := CommitEntry(x.history.occupant[i], x.inner.slots[i].draft, op.result.outcome.certificate);
  }

  lemma CommitKeepsSerial<F>(g: Geometry, mixer: Mixer, policy: Policy<F>, x: System, op: Op<F>, x': System)
    requires Shape(g, x.inner) && |x.history.occupant| == g.slots && |x.history.seeded| == g.cells
    requires && Serial(mixer, policy, x) && Step(g, mixer, policy, x, op, x') && op.DriveOp?
             && op.result.outcome.CommittedWith?
    ensures Serial(mixer, policy, x') && |x'.history.seeded| == g.cells
  {
    var i, e := CommitStep(g, mixer, policy, x, op, x');
    assert Eligible(x.inner.slots, i);
    hide Step;
    hide Shape;
    hide Selected;
    hide ApplyWrites;
    hide CheckWrites;
    hide ReadsHold;
    hide RootOf;
    hide EntryHolds;
    hide InRange;
    AppendEntry(mixer, policy, x.history.seeded, x.history.commits, e);
    NewEntryHolds(mixer, policy, x.history.seeded, x.history.commits, e);
  }

  lemma OtherKeepsSerial<F>(g: Geometry, mixer: Mixer, policy: Policy<F>, x: System, op: Op<F>, x': System)
    requires Shape(g, x.inner) && |x.history.occupant| == g.slots && |x.history.seeded| == g.cells
    requires && Serial(mixer, policy, x) && Step(g, mixer, policy, x, op, x')
             && !(op.DriveOp? && op.result.outcome.CommittedWith?)
    ensures Serial(mixer, policy, x') && |x'.history.seeded| == g.cells
  {
    hide EntryHolds;
    if op.DriveOp? {
      var i := DriveCases(g, mixer, policy, x.inner, op.now, op.result);
      hide Drives;
    }
  }

  lemma StepKeepsSerial<F>(g: Geometry, mixer: Mixer, policy: Policy<F>, x: System, op: Op<F>, x': System)
    requires Shape(g, x.inner) && |x.history.occupant| == g.slots && |x.history.seeded| == g.cells
    requires Serial(mixer, policy, x) && Step(g, mixer, policy, x, op, x')
    ensures Serial(mixer, policy, x') && |x'.history.seeded| == g.cells
  {
    hide Serial;
    if op.DriveOp? && op.result.outcome.CommittedWith? {
      CommitKeepsSerial(g, mixer, policy, x, op, x');
    } else {
      OtherKeepsSerial(g, mixer, policy, x, op, x');
    }
  }

  /** Serializability of every run: the cells are the serial replay of the commits in epoch order. */
  lemma {:induction false} Serializable<F>(g: Geometry, mixer: Mixer, policy: Policy<F>, states: seq<System>,
        ops: seq<Op<F>>, k: nat)
    requires Run(g, mixer, policy, states, ops) && k < |states|
    ensures Serial(mixer, policy, states[k]) && |states[k].history.seeded| == g.cells
  {
    hide Step;
    if k == 0 {
    } else {
      hide Serial;
      Serializable(g, mixer, policy, states, ops, k - 1);
      StepKeepsSerial(g, mixer, policy, states[k - 1], ops[k - 1], states[k]);
    }
  }

  /** Consecutive certificates chain, from the root of the seeded cells to the current root. */
  lemma CertificatesChain<F>(g: Geometry, mixer: Mixer, policy: Policy<F>, states: seq<System>, ops: seq<Op<F>>, n: nat,
        k: nat)
    requires Run(g, mixer, policy, states, ops) && n < |states|
    ensures var x := states[n]; var commits := x.history.commits;
            && (k + 1 < |commits| ==> commits[k].certificate.stateAfter == commits[k + 1].certificate.stateBefore)
            && (k == 0 < |commits| ==> commits[0].certificate.stateBefore == RootOf(mixer, x.history.seeded))
            && (k + 1 == |commits| ==> commits[k].certificate.stateAfter == RootOf(mixer, x.inner.cells))
  {
    hide Step;
    hide RootOf;
    hide CheckWrites;
    hide ReadsHold;
    Serializable(g, mixer, policy, states, ops, n);
    var x := states[n];
    var commits := x.history.commits;
    if k < |commits| {
      assert EntryHolds(mixer, policy, x.history.seeded, commits, k);
      assert commits[..0] == [] && commits[..|commits|] == commits;
      if k + 1 < |commits| {
        assert EntryHolds(mixer, policy, x.history.seeded, commits, k + 1);
      }
    }
  }
}
