/** What the transitions of the axiom manifold mean, in terms of values, bits and deadlines: which transaction
    a drive picks, what a commit writes, why one is rejected, and which cells never move. */
module AxiomMeaning {
  import opened AxiomTypes
  import opened AxiomSpec
  import opened AxiomHistory
  import opened AxiomManifold

  // ---- what a commit writes ----------------------------------------------

  /** In a draft that names each cell once, every write acts on the cell as it was before the draft. */
  lemma {:induction false} WrittenCell(cells: seq<StateCell>, writeSet: seq<Mutation>, k: nat)
    requires InRange(|cells|, writeSet) && DistinctCells(writeSet) && k < |writeSet|
    ensures var w := writeSet[k];
            ApplyWrites(cells, writeSet)[w.cell] == ApplyWrite(cells, w)[w.cell]
  {
    hide ProjectValue;
    var n := |writeSet| - 1;
    if k == n {
      NextWrite(cells, writeSet, k);
      assert writeSet[..k + 1] == writeSet;
    } else {
      assert writeSet[..n][k] == writeSet[k];
      WrittenCell(cells, writeSet[..n], k);
    }
  }

  lemma {:induction false} AllowedProjects<F>(policy: Policy<F>, kind: nat, cells: seq<StateCell>,
        writeSet: seq<Mutation>, k: nat)
    requires InRange(|cells|, writeSet) && k < |writeSet|
    requires CheckWrites(policy, kind, cells, writeSet).Allowed?
    ensures policy.authorize(kind, writeSet[k], cells[writeSet[k].cell]).None?
    ensures ProjectValue(cells[writeSet[k].cell].value, writeSet[k]).Some?
  {
    hide ProjectValue;
    if k > 0 {
      assert InRange(|cells|, writeSet[1..]);
      AllowedProjects(policy, kind, cells, writeSet[1..], k - 1);
    }
  }

  /** A commit leaves in every cell its draft names the projected value under the next version, and changes no
      other cell. ProjectionMeaning says what the projected value is. */
  lemma CommitWrites<F>(g: Geometry, mixer: Mixer, policy: Policy<F>, s: Inner, now: nat, r: DriveResult<F>, c: nat)
    requires Shape(g, s) && Drives(g, mixer, policy, s, now, r) && r.outcome.CommittedWith? && c < |s.cells|
    ensures var i := r.outcome.certificate.transaction.slot;
            && i < |s.slots| && InRange(|s.cells|, s.slots[i].draft.writeSet) && |r.state.cells| == |s.cells|
            && var w := s.slots[i].draft.writeSet;
               && (forall k :: 0 <= k < |w| && w[k].cell == c ==> WrittenBy(s.cells[c], w[k], r.state.cells[c]))
               && ((forall k :: 0 <= k < |w| ==> w[k].cell != c) ==> r.state.cells[c] == s.cells[c])
  {
    hide ReadsHold;
    hide RootOf;
    hide ProjectValue;
    hide CheckWrites;
    hide ApplyWrites;
    hide Selected;
    var i := DriveCases(g, mixer, policy, s, now, r);
    hide Drives;
    var d := s.slots[i].draft;
    assert SlotShape(g, s.slots[i]);
    assert DistinctCells(d.writeSet);
    hide Shape;
    hide DistinctCells;
    hide WellFormed;
    forall k | 0 <= k < |d.writeSet| && d.writeSet[k].cell == c
      ensures WrittenBy(s.cells[c], d.writeSet[k], r.state.cells[c])
    {
      WrittenCell(s.cells, d.writeSet, k);
      AllowedProjects(policy, d.kind, s.cells, d.writeSet, k);
    }
    if forall k :: 0 <= k < |d.writeSet| ==> d.writeSet[k].cell != c {
      Untouched(s.cells, d.writeSet, c);
    }
  }

  /** The cell after a write that goes through: the projected value, one version on, class and flags kept. */
  ghost predicate WrittenBy(before: StateCell, m: Mutation, after: StateCell) {
    && ProjectValue(before.value, m) == Some(after.value)
    && after.version == (if before.version < U32_MAX then before.version + 1 else U32_MAX)
    && after.class_ == before.class_ && after.flags == before.flags
  }

  // ---- when a transaction commits ----------------------------------------

  /** A committing transaction met its quorum in time, after everything it depends on, its reads still held, and
      the certificate names it. */
  lemma CommitMeaning<F>(g: Geometry, mixer: Mixer, policy: Policy<F>, s: Inner, now: nat, r: DriveResult<F>)
    requires Shape(g, s) && Drives(g, mixer, policy, s, now, r) && r.outcome.CommittedWith?
    ensures var c := r.outcome.certificate;
            var i := c.transaction.slot;
            && i < |s.slots|
            && var slot := s.slots[i]; var d := slot.draft;
               && slot.status.Prepared? && r.state.slots[i].status.Committed?
               && |slot.witnesses| >= d.requiredWitnesses && (d.deadline == 0 || now <= d.deadline)
               && (forall k :: 0 <= k < |d.dependencies| ==> CommittedNow(s.slots, d.dependencies[k]))
               && (forall k :: 0 <= k < |d.readSet| ==> ReadHolds(s.cells, d.readSet[k]))
               && c.transaction.generation == slot.generation && c.kind == d.kind && c.priority == d.priority
               && c.sequence == slot.sequence && c.stamp == slot.stamp && c.witnesses == slot.witnesses
               && c.vectorRoot == mixer.vector(slot.vector) && c.transactionRoot == mixer.draft(d)
               && c.epoch == r.state.epoch == (if s.epoch < U64_MAX then s.epoch + 1 else U64_MAX)
               && r.state.slots[i].certificate == c
  {
    hide RootOf;
    hide ReadHolds;
    hide CheckWrites;
    hide ApplyWrites;
    var i := DriveCases(g, mixer, policy, s, now, r);
    assert !Doomed(s.slots, i, now);
    hide Drives;
    var d := s.slots[i].draft;
    forall k | 0 <= k < |d.dependencies| ensures CommittedNow(s.slots, d.dependencies[k]) {
      assert Eligible(s.slots, i);
    }
  }

  ghost predicate CommittedNow(slots: seq<Slot>, id: TransactionId) {
    id.slot < |slots| && slots[id.slot].generation == id.generation && slots[id.slot].status.Committed?
  }

  /** The deadline a lies before b, where zero stands for none, which is as late as the last tick. */
  predicate Sooner(a: nat, b: nat) {
    if b == 0 then a != 0 && a < U64_MAX else a != 0 && a < b
  }

  predicate SameDeadline(a: nat, b: nat) {
    a == b || (a == 0 && b == U64_MAX) || (a == U64_MAX && b == 0)
  }

  /** Of two transactions ready to go, the committed one had the sooner deadline, or the higher priority at the
      same deadline, or came first at the same priority. */
  lemma PickMeaning<F>(g: Geometry, mixer: Mixer, policy: Policy<F>, s: Inner, now: nat, r: DriveResult<F>, j: nat)
    requires Shape(g, s) && Drives(g, mixer, policy, s, now, r) && r.outcome.CommittedWith?
    requires j < |s.slots| && Eligible(s.slots, j)
    requires forall k :: 0 <= k < |s.slots| ==> s.slots[k].draft.deadline <= U64_MAX
    ensures var i := r.outcome.certificate.transaction.slot;
            && i < |s.slots|
            && var a, b := s.slots[i], s.slots[j];
               || Sooner(a.draft.deadline, b.draft.deadline)
               || (SameDeadline(a.draft.deadline, b.draft.deadline) && a.draft.priority > b.draft.priority)
               || (&& SameDeadline(a.draft.deadline, b.draft.deadline) && a.draft.priority == b.draft.priority
                   && a.sequence <= b.sequence)
  {
    hide RootOf;
    hide ReadsHold;
    hide CheckWrites;
    hide ApplyWrites;
    var i := DriveCases(g, mixer, policy, s, now, r);
    hide Drives;
    assert !Precedes(s.slots[j], s.slots[i]);
    assert s.slots[i].draft.deadline <= U64_MAX && s.slots[j].draft.deadline <= U64_MAX;
  }

  /** Why a transaction was rejected; it expires for its deadline and is aborted for anything else. */
  lemma RejectMeaning<F>(g: Geometry, mixer: Mixer, policy: Policy<F>, s: Inner, now: nat, r: DriveResult<F>)
    requires Shape(g, s) && Drives(g, mixer, policy, s, now, r) && r.outcome.Rejected?
    ensures var i := r.outcome.transaction.slot;
            && i < |s.slots| && InRange(|s.cells|, s.slots[i].draft.writeSet)
            && s.slots[i].status.Prepared? && r.outcome.transaction.generation == s.slots[i].generation
            && r.state.slots[i].reason == Some(r.outcome.reason)
            && r.state.slots[i].status == (if r.outcome.reason.DeadlineElapsed? then Expired else Aborted)
            && Justified(policy, s, s.slots[i].draft, now, r.outcome.reason, r.outcome.fault)
  {
    hide RootOf;
    hide ApplyWrites;
    hide WellFormed;
    var i := r.outcome.transaction.slot;
    var doomed := FirstDoomed(s.slots, now, 0);
    if doomed < |s.slots| {
      assert SlotShape(g, s.slots[doomed]);
    } else {
      AttemptRejects(g, mixer, policy, s, now, r);
    }
  }

  ghost predicate Justified<F>(policy: Policy<F>, s: Inner, d: Draft, now: nat, reason: RejectReason, fault: Option<F>)
    requires InRange(|s.cells|, d.writeSet)
  {
    match reason
    case DeadlineElapsed => d.deadline != 0 && now > d.deadline && fault.None?
    case DependencyFailed =>
      fault.None? && exists k :: 0 <= k < |d.dependencies| && DependencyLost(s.slots, d.dependencies[k])
    case ReadConflict => fault.None? && exists k :: 0 <= k < |d.readSet| && !ReadHolds(s.cells, d.readSet[k])
    case MutationConflict =>
      fault.None? && exists k :: 0 <= k < |d.writeSet| && Mismatched(s.cells, d.writeSet[k])
    case PolicyDenied =>
      fault.Some? && exists k :: 0 <= k < |d.writeSet| && DeniedBy(policy, d.kind, s.cells, d.writeSet[k], fault)
    case InvariantViolation => fault.Some? && policy.validate(ApplyWrites(s.cells, d.writeSet)) == fault
  }

  /** A compare-exchange that does not find what it expects. */
  ghost predicate Mismatched(cells: seq<StateCell>, m: Mutation) {
    m.cell < |cells| && m.op.CompareExchange? && cells[m.cell].value != m.expected
  }

  ghost predicate DeniedBy<F>(policy: Policy<F>, kind: nat, cells: seq<StateCell>, m: Mutation, fault: Option<F>) {
    m.cell < |cells| && policy.authorize(kind, m, cells[m.cell]) == fault
  }

  lemma AttemptRejects<F>(g: Geometry, mixer: Mixer, policy: Policy<F>, s: Inner, now: nat, r: DriveResult<F>)
    requires Shape(g, s) && Drives(g, mixer, policy, s, now, r) && r.outcome.Rejected?
    requires FirstDoomed(s.slots, now, 0) == |s.slots|
    ensures var i := r.outcome.transaction.slot;
            && i < |s.slots| && InRange(|s.cells|, s.slots[i].draft.writeSet)
            && s.slots[i].status.Prepared? && r.outcome.transaction.generation == s.slots[i].generation
            && r.state.slots[i].reason == Some(r.outcome.reason) && !r.outcome.reason.DeadlineElapsed?
            && r.state.slots[i].status.Aborted?
            && Justified(policy, s, s.slots[i].draft, now, r.outcome.reason, r.outcome.fault)
  {
    hide Attempt;
    hide Justified;
    hide WellFormed;
    var i :|
      0 <= i < |s.slots| && Selected(s.slots, i) && SlotShape(g, s.slots[i]) && r == Attempt(mixer, policy, s, i);
    hide Drives;
    hide Shape;
    AttemptFails(mixer, policy, s, now, i);
  }

  lemma AttemptFails<F>(mixer: Mixer, policy: Policy<F>, s: Inner, now: nat, i: nat)
    requires i < |s.slots| && InRange(|s.cells|, s.slots[i].draft.writeSet)
    requires Attempt(mixer, policy, s, i).outcome.Rejected?
    ensures var r := Attempt(mixer, policy, s, i);
            && r.outcome.transaction == TransactionId(i, s.slots[i].generation) && |r.state.slots| == |s.slots|
            && r.state.slots[i].reason == Some(r.outcome.reason) && !r.outcome.reason.DeadlineElapsed?
            && r.state.slots[i].status.Aborted?
            && Justified(policy, s, s.slots[i].draft, now, r.outcome.reason, r.outcome.fault)
  {
    hide RootOf;
    hide ApplyWrites;
    hide CheckWrites;
    hide ReadHolds;
    var d := s.slots[i].draft;
    if ReadsHold(s.cells, d.readSet) {
      CheckFails(policy, d.kind, s.cells, d.writeSet);
    }
  }

  /** A check that fails points at the write that made it fail. */
  lemma {:induction false} CheckFails<F>(policy: Policy<F>, kind: nat, cells: seq<StateCell>, writeSet: seq<Mutation>)
    requires InRange(|cells|, writeSet)
    ensures match CheckWrites(policy, kind, cells, writeSet)
            case Allowed => true
            case Denied(fault) =>
              exists k :: 0 <= k < |writeSet| && DeniedBy(policy, kind, cells, writeSet[k], Some(fault))
            case Conflicting => exists k :: 0 <= k < |writeSet| && Mismatched(cells, writeSet[k])
  {
    if writeSet != [] {
      var m := writeSet[0];
      if policy.authorize(kind, m, cells[m.cell]).Some? {
        assert DeniedBy(policy, kind, cells, writeSet[0], policy.authorize(kind, m, cells[m.cell]));
      } else if ProjectValue(cells[m.cell].value, m).None? {
        assert Mismatched(cells, writeSet[0]);
      } else {
        CheckFails(policy, kind, cells, writeSet[1..]);
        match CheckWrites(policy, kind, cells, writeSet[1..])
        case Allowed =>
        case Denied(fault) =>
          var k :| 0 <= k < |writeSet[1..]| && DeniedBy(policy, kind, cells, writeSet[1..][k], Some(fault));
          assert DeniedBy(policy, kind, cells, writeSet[k + 1], Some(fault));
        case Conflicting =>
          var k :| 0 <= k < |writeSet[1..]| && Mismatched(cells, writeSet[1..][k]);
          assert Mismatched(cells, writeSet[k + 1]);
      }
    }
  }

  // ---- cells that never move ---------------------------------------------

  /** The cell may be written: it is present (bit 0) and not read-only (bit 1). */
  ghost predicate Writable(c: StateCell) {
    BitAt(c.flags, 0) == 1 && BitAt(c.flags, 1) == 0
  }

  lemma WritableFlags(c: StateCell)
    ensures Writable(c) <==> c.IsPresent() && !c.IsReadOnly()
  {
    LowBit(c.flags);
    assert TwoTo(1) == 2;
  }

  /** A seeded cell is at its first version, has the present bit set and every other flag as given. */
  lemma SeedMeaning(value: u64, class_: nat, flags: nat, k: nat)
    ensures var c := SeedCellValue(value, class_, flags);
            && c.value == value && c.version == 1 && c.class_ == class_ && BitAt(c.flags, 0) == 1
            && (k > 0 ==> BitAt(c.flags, k) == BitAt(flags, k))
  {
    var c := SeedCellValue(value, class_, flags);
    LowBit(c.flags);
    if k > 0 {
      assert c.flags / 2 == flags / 2;
      BitAtNext(c.flags, k - 1);
      BitAtNext(flags, k - 1);
    }
  }

  lemma {:induction false} WritesOpen(cells: seq<StateCell>, writeSet: seq<Mutation>, k: nat)
    requires InRange(|cells|, writeSet) && WriteError(cells, writeSet).None? && k < |writeSet|
    ensures Writable(cells[writeSet[k].cell])
  {
    WritableFlags(cells[writeSet[0].cell]);
    hide Writable;
    if k > 0 {
      assert InRange(|cells|, writeSet[1..]);
      WritesOpen(cells, writeSet[1..], k - 1);
    }
  }

  /** No transaction in the table names a cell that may not be written. */
  ghost predicate Guarded(s: Inner) {
    forall i, k :: 0 <= i < |s.slots| && !s.slots[i].status.Free? && 0 <= k < |s.slots[i].draft.writeSet| ==>
                     NamesWritable(s.cells, s.slots[i].draft.writeSet[k])
  }

  ghost predicate NamesWritable(cells: seq<StateCell>, m: Mutation) {
    m.cell < |cells| && Writable(cells[m.cell])
  }

  lemma SubmitGuards(g: Geometry, s: Inner, origin: nat, stamp: nat, d: Draft)
    requires Shape(g, s) && Guarded(s) && Submit(g, s, origin, stamp, d).Submitted?
    ensures Guarded(Submit(g, s, origin, stamp, d).state)
  {
    hide SubmitVector;
    hide Writable;
    hide WellFormed;
    forall k | 0 <= k < |d.writeSet| ensures NamesWritable(s.cells, d.writeSet[k]) {
      WritesOpen(s.cells, d.writeSet, k);
    }
    hide WriteError;
  }

  /** A change of slots that keeps every draft of a slot in use keeps the guard, whatever happens to values. */
  lemma GuardMoves(s: Inner, s': Inner)
    requires Guarded(s) && |s'.cells| == |s.cells| && |s'.slots| == |s.slots|
    requires forall c :: 0 <= c < |s.cells| ==> s'.cells[c].flags == s.cells[c].flags
    requires forall i :: 0 <= i < |s.slots| && !s'.slots[i].status.Free? ==>
                           !s.slots[i].status.Free? && s'.slots[i].draft == s.slots[i].draft
    ensures Guarded(s')
  {
    hide BitAt;
    forall i, k | 0 <= i < |s'.slots| && !s'.slots[i].status.Free? && 0 <= k < |s'.slots[i].draft.writeSet|
      ensures NamesWritable(s'.cells, s'.slots[i].draft.writeSet[k])
    {
      assert NamesWritable(s.cells, s.slots[i].draft.writeSet[k]);
    }
  }

  lemma DriveGuards<F>(g: Geometry, mixer: Mixer, policy: Policy<F>, s: Inner, now: nat, r: DriveResult<F>)
    requires Shape(g, s) && Guarded(s) && Drives(g, mixer, policy, s, now, r)
    ensures Guarded(r.state) && |r.state.cells| == |s.cells|
    ensures forall c :: 0 <= c < |s.cells| && !Writable(s.cells[c]) ==> r.state.cells[c] == s.cells[c]
  {
    hide Writable;
    hide RootOf;
    hide ProjectValue;
    hide ReadsHold;
    var i := DriveCases(g, mixer, policy, s, now, r);
    if r.outcome.CommittedWith? {
      forall c | 0 <= c < |s.cells|
        ensures r.state.cells[c].flags == s.cells[c].flags
        ensures !Writable(s.cells[c]) ==> r.state.cells[c] == s.cells[c]
      {
        CommitAt(g, mixer, policy, s, now, r, c);
      }
    }
    hide Drives;
    hide Guarded;
    GuardMoves(s, r.state);
  }

  lemma CommitAt<F>(g: Geometry, mixer: Mixer, policy: Policy<F>, s: Inner, now: nat, r: DriveResult<F>, c: nat)
    requires Shape(g, s) && Guarded(s) && Drives(g, mixer, policy, s, now, r) && r.outcome.CommittedWith?
    requires c < |s.cells|
    ensures |r.state.cells| == |s.cells| && r.state.cells[c].flags == s.cells[c].flags
    ensures !Writable(s.cells[c]) ==> r.state.cells[c] == s.cells[c]
  {
    hide Writable;
    CommitMeaning(g, mixer, policy, s, now, r);
    CommitWrites(g, mixer, policy, s, now, r, c);
    hide Drives;
    hide Shape;
    var i := r.outcome.certificate.transaction.slot;
    var w := s.slots[i].draft.writeSet;
    if k :| 0 <= k < |w| && w[k].cell == c {
      assert WrittenBy(s.cells[c], w[k], r.state.cells[c]);
      assert NamesWritable(s.cells, w[k]);
    }
  }

  lemma StepGuards<F>(g: Geometry, mixer: Mixer, policy: Policy<F>, x: System, op: Op<F>, x': System, c: nat)
    requires Shape(g, x.inner) && |x.history.occupant| == g.slots && Step(g, mixer, policy, x, op, x')
    requires Guarded(x.inner) && c < g.cells
    requires x.inner.submitted == 0 ==> forall i :: 0 <= i < |x.inner.slots| ==> x.inner.slots[i].status.Free?
    ensures Guarded(x'.inner) && |x'.inner.cells| == g.cells
    ensures !Writable(x.inner.cells[c]) && !SeedsCell(x, op, c) ==> x'.inner.cells[c] == x.inner.cells[c]
  {
    hide Writable;
    hide SubmitVector;
    hide WriteError;
    hide Drives;
    hide WellFormed;
    match op
    case SeedOp(index, value, class_, flags) =>
    case SubmitOp(origin, stamp, d) =>
      if Submit(g, x.inner, origin, stamp, d).Submitted? { SubmitGuards(g, x.inner, origin, stamp, d); }
    case AttestOp(id, node) =>
      GuardMoves(x.inner, x'.inner);
    case DriveOp(now, r) =>
      DriveGuards(g, mixer, policy, x.inner, now, r);
    case ReapOp(id) =>
      GuardMoves(x.inner, x'.inner);
  }

  /** The operation seeds this cell and is accepted. */
  ghost predicate SeedsCell<F>(x: System, op: Op<F>, c: nat) {
    op.SeedOp? && op.index == c && x.inner.submitted == 0
  }

  lemma {:induction false} RunGuards<F>(g: Geometry, mixer: Mixer, policy: Policy<F>, states: seq<System>,
        ops: seq<Op<F>>, k: nat)
    requires Run(g, mixer, policy, states, ops) && k < |states| && g.cells > 0
    ensures Guarded(states[k].inner)
  {
    hide Step;
    if k > 0 {
      RunGuards(g, mixer, policy, states, ops, k - 1);
      Serializable(g, mixer, policy, states, ops, k - 1);
      hide EntryHolds;
      StepGuards(g, mixer, policy, states[k - 1], ops[k - 1], states[k], 0);
    }
  }

  /** Over every run a cell that is read-only or absent keeps its value, version, class and flags until it is
      seeded, whatever is submitted and committed. */
  lemma {:induction false} ReadOnlyNeverMoves<F>(g: Geometry, mixer: Mixer, policy: Policy<F>, states: seq<System>,
        ops: seq<Op<F>>, n: nat, m: nat, c: nat)
    requires Run(g, mixer, policy, states, ops) && n <= m < |states| && c < g.cells
    requires !Writable(states[n].inner.cells[c])
    requires forall k :: n <= k < m ==> !SeedsCell(states[k], ops[k], c)
    ensures states[m].inner.cells[c] == states[n].inner.cells[c]
  {
    hide Step;
    hide Writable;
    hide EntryHolds;
    if n < m {
      ReadOnlyNeverMoves(g, mixer, policy, states, ops, n, m - 1, c);
      RunGuards(g, mixer, policy, states, ops, m - 1);
      Serializable(g, mixer, policy, states, ops, m - 1);
      StepGuards(g, mixer, policy, states[m - 1], ops[m - 1], states[m], c);
    }
  }

  // ---- identifiers of finished transactions ------------------------------

  /** The operation frees this slot. */
  ghost predicate ReapsSlot<F>(g: Geometry, x: System, op: Op<F>, i: nat) {
    op.ReapOp? && op.id.slot == i && Reap(g, x.inner, op.id).Reaped?
  }

  /** How often the slot was freed by the operations from n up to m. */
  ghost function Reaps<F>(g: Geometry, states: seq<System>, ops: seq<Op<F>>, n: nat, m: nat, i: nat): nat
    requires n <= m <= |ops| <= |states|
  {
    if n == m then 0
    else Reaps(g, states, ops, n, m - 1, i) + if ReapsSlot(g, states[m - 1], ops[m - 1], i) then 1 else 0
  }

  /** Generations run through 1 to 65535 before one comes back. */
  lemma GenerationsCycle(x: nat)
    ensures NextGeneration(1 + x % 65535) == 1 + (x + 1) % 65535
  {
  }

  /** A slot changes its generation only when it is freed. */
  lemma StepGeneration<F>(g: Geometry, mixer: Mixer, policy: Policy<F>, x: System, op: Op<F>, x': System, i: nat)
    requires Shape(g, x.inner) && |x.history.occupant| == g.slots && Step(g, mixer, policy, x, op, x') && i < g.slots
    ensures |x'.inner.slots| == g.slots
    ensures x'.inner.slots[i].generation ==
              if ReapsSlot(g, x, op, i) then NextGeneration(x.inner.slots[i].generation)
              else x.inner.slots[i].generation
  {
    hide NextGeneration;
    hide SubmitVector;
    hide SubmitError;
    hide RootOf;
    hide ApplyWrites;
    if op.DriveOp? {
      var j := DriveCases(g, mixer, policy, x.inner, op.now, op.result);
    }
    hide Drives;
  }

  lemma {:induction false} RunGeneration<F>(g: Geometry, mixer: Mixer, policy: Policy<F>, states: seq<System>,
        ops: seq<Op<F>>, n: nat, m: nat, i: nat)
    requires Run(g, mixer, policy, states, ops) && n <= m < |states| && i < g.slots
    ensures states[m].inner.slots[i].generation ==
              1 + (states[n].inner.slots[i].generation - 1 + Reaps(g, states, ops, n, m, i)) % 65535
  {
    hide Step;
    hide ReapsSlot;
    hide NextGeneration;
    assert SlotShape(g, states[n].inner.slots[i]);
    if n < m {
      RunGeneration(g, mixer, policy, states, ops, n, m - 1, i);
      StepGeneration(g, mixer, policy, states[m - 1], ops[m - 1], states[m], i);
      hide Shape;
      hide SlotShape;
      GenerationsCycle(states[n].inner.slots[i].generation - 1 + Reaps(g, states, ops, n, m - 1, i));
    }
  }

  /** Over every run the identifier of a transaction that was reaped names nothing until its slot has been freed
      65535 times, however many transactions it has held since. */
  lemma ReapedStaysGone<F>(g: Geometry, mixer: Mixer, policy: Policy<F>, states: seq<System>, ops: seq<Op<F>>, n: nat,
        m: nat, id: TransactionId)
    requires Run(g, mixer, policy, states, ops) && n < m < |states| && ops[n] == ReapOp(id)
    requires Reap(g, states[n].inner, id).Reaped? && Reaps(g, states, ops, n, m, id.slot) < 65535
    ensures !Live(states[m].inner.slots, id)
  {
    hide Step;
    hide NextGeneration;
    var i := id.slot;
    assert SlotShape(g, states[n].inner.slots[i]);
    RunGeneration(g, mixer, policy, states, ops, n, m, i);
    ReapsFirst(g, states, ops, n, m, i);
    var p := Reaps(g, states, ops, n, m, i);
    hide Reaps;
    assert states[n].inner.slots[i].generation == id.generation && 1 <= id.generation <= 65535;
    assert (id.generation - 1 + p) % 65535 != id.generation - 1;
  }

  lemma {:induction false} ReapsFirst<F>(g: Geometry, states: seq<System>, ops: seq<Op<F>>, n: nat, m: nat, i: nat)
    requires n < m <= |ops| <= |states| && ReapsSlot(g, states[n], ops[n], i)
    ensures Reaps(g, states, ops, n, m, i) > 0
  {
    hide ReapsSlot;
    if n + 1 < m {
      ReapsFirst(g, states, ops, n, m - 1, i);
    } else {
      assert Reaps(g, states, ops, n, n, i) == 0;
    }
  }
}
