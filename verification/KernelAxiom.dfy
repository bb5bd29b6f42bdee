/** The kernel's use of the axiom manifold (kernel/boulder/src/lib.rs): the admission policy, the
    seeded cells, the NUMA rebalance and the draining reactor. */
module KernelAxiom {
  import opened AxiomTypes
  import opened AxiomSpec
  import opened AxiomHistory
  import opened AxiomManifold

  const NUMA_ZERO := 0
  const NUMA_ONE := 1
  const THERMAL := 2
  const DMA_RESERVE := 3
  const EPOCH_FLOOR := 4

  const CLASS_COMPUTE := 0x0101
  const CLASS_THERMAL := 0x0201
  const CLASS_DMA := 0x0301
  const CLASS_EPOCH_FLOOR := 0x0401

  const TOTAL_CREDITS: u64 := 1_000_000
  const MAX_SINGLE_NUMA: u64 := 875_000
  const MAX_DMA: u64 := 262_144
  const THERMAL_FLOOR: u64 := 20 * 65536
  const THERMAL_CEILING: u64 := 95 * 65536

  const KERNEL_GEOMETRY := Geometry(256, 128, 32, 16, 16, 8)

  datatype Fault =
    | ClassMismatch | ForbiddenMutation | ArithmeticOverflow | ComputeConservationBroken
    | NumaConcentrationExceeded | DmaReserveExceeded | ThermalEnvelopeBroken | GeometryMissing

  // ---- the policy --------------------------------------------------------

  function Authorize(kind: nat, m: Mutation, before: StateCell): Option<Fault> {
    if kind != before.class_ then Some(ClassMismatch)
    else if before.class_ == CLASS_COMPUTE || before.class_ == CLASS_THERMAL then
      if m.op.Set? || m.op.AddSigned? || m.op.Min? || m.op.Max? || m.op.CompareExchange? then None
      else Some(ForbiddenMutation)
    else if before.class_ == CLASS_DMA then
      if m.op.Set? || m.op.Min? || m.op.Max? || m.op.CompareExchange? then None else Some(ForbiddenMutation)
    else Some(ClassMismatch)
  }

  function Validate(cells: seq<StateCell>): Option<Fault> {
    if |cells| <= DMA_RESERVE then Some(GeometryMissing)
    else
      var zero, one := cells[NUMA_ZERO].value, cells[NUMA_ONE].value;
      var thermal, dma := cells[THERMAL].value, cells[DMA_RESERVE].value;
      if zero + one > U64_MAX then Some(ArithmeticOverflow)
      else if zero + one != TOTAL_CREDITS then Some(ComputeConservationBroken)
      else if zero > MAX_SINGLE_NUMA || one > MAX_SINGLE_NUMA then Some(NumaConcentrationExceeded)
      else if dma > MAX_DMA then Some(DmaReserveExceeded)
      else if !(THERMAL_FLOOR <= thermal <= THERMAL_CEILING) then Some(ThermalEnvelopeBroken)
      else None
  }

  /** Each class takes mutations of its own kind only; the bitwise ones are for none, and the reserve of DMA
      is never moved by a delta. */
  lemma AuthorizeExactly(kind: nat, m: Mutation, before: StateCell)
    ensures Authorize(kind, m, before).None? <==>
              && kind == before.class_ && kind in {0x0101, 0x0201, 0x0301}
              && !m.op.Xor? && !m.op.MaskedReplace? && !(kind == 0x0301 && m.op.AddSigned?)
    ensures Authorize(kind, m, before) == Some(ForbiddenMutation) <==>
              && kind == before.class_ && kind in {0x0101, 0x0201, 0x0301}
              && (m.op.Xor? || m.op.MaskedReplace? || (kind == 0x0301 && m.op.AddSigned?))
    ensures Authorize(kind, m, before).Some? ==> Authorize(kind, m, before).value in {ClassMismatch, ForbiddenMutation}
  {
  }

  /** A state is valid exactly when it holds the kernel's promise about its four moving cells. */
  lemma ValidateExactly(cells: seq<StateCell>)
    ensures Validate(cells).None? <==>
              && |cells| >= 4 && cells[0].value + cells[1].value == 1_000_000
              && cells[0].value <= 875_000 && cells[1].value <= 875_000
              && 1_310_720 <= cells[2].value <= 6_225_920 && cells[3].value <= 262_144
    ensures |cells| < 4 <==> Validate(cells) == Some(GeometryMissing)
    ensures |cells| >= 4 ==>
              var sum := cells[0].value + cells[1].value;
              && (Validate(cells) == Some(ArithmeticOverflow) <==> sum >= 0x1_0000_0000_0000_0000)
              && (Validate(cells) == Some(ComputeConservationBroken) <==>
                    sum < 0x1_0000_0000_0000_0000 && sum != 1_000_000)
              && (Validate(cells) == Some(NumaConcentrationExceeded) <==>
                    sum == 1_000_000 && (cells[0].value > 875_000 || cells[1].value > 875_000))
  {
  }

  const KERNEL_POLICY: Policy<Fault> := Policy(Authorize, Validate)

  /** What the kernel promises of its cells at all times after seeding. */
  ghost predicate Conserved(cells: seq<StateCell>) {
    && |cells| > EPOCH_FLOOR
    && cells[NUMA_ZERO].value + cells[NUMA_ONE].value == TOTAL_CREDITS
    && cells[NUMA_ZERO].value <= MAX_SINGLE_NUMA && cells[NUMA_ONE].value <= MAX_SINGLE_NUMA
    && cells[DMA_RESERVE].value <= MAX_DMA
    && THERMAL_FLOOR <= cells[THERMAL].value <= THERMAL_CEILING
  }

  ghost predicate Classified(cells: seq<StateCell>) {
    && |cells| > EPOCH_FLOOR
    && cells[NUMA_ZERO].class_ == CLASS_COMPUTE && cells[NUMA_ONE].class_ == CLASS_COMPUTE
    && cells[THERMAL].class_ == CLASS_THERMAL && cells[DMA_RESERVE].class_ == CLASS_DMA
    && cells[EPOCH_FLOOR] == StateCell(0, 1, CLASS_EPOCH_FLOOR, 3)
  }

  // ---- invariants over runs ----------------------------------------------

  /** Every write of an allowed draft was authorised on its own and has a projected value. */
  lemma {:induction false} AllowedWritesAuthorised(kind: nat, cells: seq<StateCell>, writeSet: seq<Mutation>, k: nat)
    requires InRange(|cells|, writeSet) && CheckWrites(KERNEL_POLICY, kind, cells, writeSet).Allowed? && k < |writeSet|
    ensures Authorize(kind, writeSet[k], cells[writeSet[k].cell]).None?
    ensures ProjectValue(cells[writeSet[k].cell].value, writeSet[k]).Some?
  {
    hide ProjectValue;
    hide Authorize;
    if k > 0 {
      assert InRange(|cells|, writeSet[1..]);
      AllowedWritesAuthorised(kind, cells, writeSet[1..], k - 1);
    }
  }

  /** Writes rewrite values and versions only, and only in the cells they name. */
  lemma {:induction false} WritesKeepClasses(cells: seq<StateCell>, writeSet: seq<Mutation>, c: nat)
    requires InRange(|cells|, writeSet) && c < |cells|
    ensures ApplyWrites(cells, writeSet)[c].class_ == cells[c].class_
    ensures ApplyWrites(cells, writeSet)[c].flags == cells[c].flags
    ensures (forall k :: 0 <= k < |writeSet| ==> writeSet[k].cell != c) ==> ApplyWrites(cells, writeSet)[c] == cells[c]
  {
    hide ProjectValue;
    if writeSet != [] {
      WritesKeepClasses(cells, writeSet[..|writeSet| - 1], c);
    }
  }

  lemma CommitConserves(mixer: Mixer, s: Inner, i: nat)
    requires i < |s.slots| && InRange(|s.cells|, s.slots[i].draft.writeSet) && Classified(s.cells)
    requires CheckWrites(KERNEL_POLICY, s.slots[i].draft.kind, s.cells, s.slots[i].draft.writeSet).Allowed?
    requires Validate(ApplyWrites(s.cells, s.slots[i].draft.writeSet)).None?
    ensures && Conserved(ApplyWrites(s.cells, s.slots[i].draft.writeSet))
            && Classified(ApplyWrites(s.cells, s.slots[i].draft.writeSet))
  {
    hide CheckWrites;
    hide ApplyWrites;
    var d := s.slots[i].draft;
    forall c | 0 <= c < |s.cells| ensures ApplyWrites(s.cells, d.writeSet)[c].class_ == s.cells[c].class_ {
      WritesKeepClasses(s.cells, d.writeSet, c);
    }
    forall k | 0 <= k < |d.writeSet| ensures d.writeSet[k].cell != EPOCH_FLOOR {
      AllowedWritesAuthorised(d.kind, s.cells, d.writeSet, k);
    }
    WritesKeepClasses(s.cells, d.writeSet, EPOCH_FLOOR);
  }

  /** A kernel cell is seeded anew, which is refused once a transaction has been submitted. */
  ghost predicate Reseeds(x: System, op: Op<Fault>) {
    op.SeedOp? && x.inner.submitted == 0 && op.index <= EPOCH_FLOOR
  }

  lemma OtherSeedConserves(cells: seq<StateCell>, i: nat, c: StateCell)
    requires Conserved(cells) && Classified(cells) && EPOCH_FLOOR < i < |cells|
    ensures Conserved(cells[i := c]) && Classified(cells[i := c])
  {
  }

  /** A drive under the kernel policy keeps the promise. */
  lemma DriveConserves(g: Geometry, mixer: Mixer, s: Inner, now: nat, r: DriveResult<Fault>)
    requires Shape(g, s) && Drives(g, mixer, KERNEL_POLICY, s, now, r) && Conserved(s.cells) && Classified(s.cells)
    ensures Conserved(r.state.cells) && Classified(r.state.cells)
  {
    hide Conserved;
    hide Classified;
    hide RootOf;
    var i := DriveCases(g, mixer, KERNEL_POLICY, s, now, r);
    hide Drives;
    if r.outcome.CommittedWith? {
      CommitConserves(mixer, s, i);
    }
  }

  lemma StepConserves(g: Geometry, mixer: Mixer, x: System, op: Op<Fault>, x': System)
    requires Shape(g, x.inner) && |x.history.occupant| == g.slots && Step(g, mixer, KERNEL_POLICY, x, op, x')
    requires !Reseeds(x, op) && Conserved(x.inner.cells) && Classified(x.inner.cells)
    ensures Conserved(x'.inner.cells) && Classified(x'.inner.cells)
  {
    hide Conserved;
    hide Classified;
    hide RootOf;
    hide WellFormed;
    hide MergeDependencies;
    if op.DriveOp? {
      DriveConserves(g, mixer, x.inner, op.now, op.result);
    } else if op.SeedOp? && Seed(x.inner, op.index, op.value, op.class_, op.flags).Seeded? {
      OtherSeedConserves(x.inner.cells, op.index, SeedCellValue(op.value, op.class_, op.flags));
    }
  }

  /** Conservation over whole runs: once the kernel cells are seeded, the two NUMA cells sum to the
      total, each cell stays in its envelope and the epoch floor never moves, whatever is submitted,
      attested, driven or reaped, in any order, unless a kernel cell is seeded anew. */
  lemma {:induction false} CreditsConserved(g: Geometry, mixer: Mixer, states: seq<System>, ops: seq<Op<Fault>>, n: nat,
        m: nat)
    requires Run(g, mixer, KERNEL_POLICY, states, ops) && n <= m < |states|
    requires forall k :: n <= k < m ==> !Reseeds(states[k], ops[k])
    requires states[n].inner.cells == SeededKernel(states[n].inner.cells)
    requires |states[n].inner.cells| > EPOCH_FLOOR
    ensures Conserved(states[m].inner.cells) && Classified(states[m].inner.cells)
  {
    hide Step;
    if n < m {
      CreditsConserved(g, mixer, states, ops, n, m - 1);
      StepConserves(g, mixer, states[m - 1], ops[m - 1], states[m]);
    }
  }

  // ---- seeding -----------------------------------------------------------

  /** The cells with the five kernel cells in place. */
  function SeededKernel(cells: seq<StateCell>): seq<StateCell> {
    if |cells| <= EPOCH_FLOOR then cells
    else [StateCell(500_000, 1, CLASS_COMPUTE, 1), StateCell(500_000, 1, CLASS_COMPUTE, 1),
          StateCell(48 * 65536, 1, CLASS_THERMAL, 1), StateCell(65_536, 1, CLASS_DMA, 1),
          StateCell(0, 1, CLASS_EPOCH_FLOOR, 3)] + cells[5..]
  }

  method SeedKernelAxioms(m: Manifold) returns (error: Option<ManifoldError>)
    requires m.Valid() && |m.Abs().cells| > EPOCH_FLOOR
    modifies m`stateRoot, m.cells
    ensures m.Valid()
    ensures error.None? <==> old(m.submitted) == 0
    ensures error.None? ==> m.Abs() == old(m.Abs()).(cells := SeededKernel(old(m.cells[..]))) && Conserved(m.cells[..])
    ensures error.Some? ==> error == Some(SeedClosed) && m.Abs() == old(m.Abs())
  {
    hide RootOf;
    hide Shape;
    error := m.SeedCell(NUMA_ZERO, 500_000, CLASS_COMPUTE, 0);
    if error.Some? { return; }
    error := m.SeedCell(NUMA_ONE, 500_000, CLASS_COMPUTE, 0);
    if error.Some? { return; }
    error := m.SeedCell(THERMAL, 48 * 65536, CLASS_THERMAL, 0);
    if error.Some? { return; }
    error := m.SeedCell(DMA_RESERVE, 65_536, CLASS_DMA, 0);
    if error.Some? { return; }
    error := m.SeedCell(EPOCH_FLOOR, 0, CLASS_EPOCH_FLOOR, CELL_READ_ONLY);
    assert error.None? ==> m.cells[..] == SeededKernel(old(m.cells[..]));
  }

  // ---- the NUMA rebalance ------------------------------------------------

  const I64_MAX := 0x7FFF_FFFF_FFFF_FFFF

  /** Two's complement of a signed delta. */
  function Negated(delta: nat): u64
    requires delta <= I64_MAX
  {
    if delta == 0 then 0 else U64_MAX + 1 - delta
  }

  function CreditTransfer(deadline: nat, zeroVersion: nat, oneVersion: nat, delta: nat, quorum: nat, salt: u64): Draft
    requires delta <= I64_MAX
  {
    Draft(CLASS_COMPUTE, 240, quorum, deadline, salt,
          [ReadConstraint(NUMA_ZERO, zeroVersion, 0, 0), ReadConstraint(NUMA_ONE, oneVersion, 0, 0)],
          [Mutation(NUMA_ZERO, AddSigned, Negated(delta), 0, 0), Mutation(NUMA_ONE, AddSigned, delta, 0, 0)], [])
  }

  function ThermalReconciliation(deadline: nat, version: nat, before: u64, after: u64, quorum: nat, salt: u64,
        credit: TransactionId): Draft
  {
    Draft(CLASS_THERMAL, 224, quorum, deadline, salt,
          [ReadConstraint(THERMAL, version, U64_MAX, before)],
          [Mutation(THERMAL, CompareExchange, after, 0, before)], [credit])
  }

  /** A transfer staged against a conserved state passes the policy exactly when the donor holds the
      credits and the receiver stays under its cap, and it then moves exactly the delta; saturation
      cannot mint or lose credits, because it breaks the sum and the commit is rolled back. */
  lemma TransferExact(cells: seq<StateCell>, d: Draft, deadline: nat, zeroVersion: nat, oneVersion: nat, delta: nat,
        quorum: nat, salt: u64)
    requires Conserved(cells) && Classified(cells) && delta <= I64_MAX
    requires d == CreditTransfer(deadline, zeroVersion, oneVersion, delta, quorum, salt)
    ensures InRange(|cells|, d.writeSet) && CheckWrites(KERNEL_POLICY, d.kind, cells, d.writeSet).Allowed?
    ensures var after := ApplyWrites(cells, d.writeSet);
            && (Validate(after).None? <==>
                  delta <= cells[NUMA_ZERO].value && cells[NUMA_ONE].value + delta <= MAX_SINGLE_NUMA)
            && (Validate(after).None? ==>
                  after == cells[NUMA_ZERO := Rewritten(cells[NUMA_ZERO], cells[NUMA_ZERO].value - delta)]
                                [NUMA_ONE := Rewritten(cells[NUMA_ONE], cells[NUMA_ONE].value + delta)])
  {
    hide Bitwise;
    hide CheckWrites;
    hide ApplyWrites;
    TwoAllowed(d.kind, cells, d.writeSet);
    TwoApplied(cells, d.writeSet);
  }

  /** Its reads hold exactly when both credit cells are present and at the versions it was staged against. */
  lemma TransferReads(cells: seq<StateCell>, d: Draft, deadline: nat, zeroVersion: nat, oneVersion: nat, delta: nat,
        quorum: nat, salt: u64)
    requires |cells| > EPOCH_FLOOR && delta <= I64_MAX
    requires d == CreditTransfer(deadline, zeroVersion, oneVersion, delta, quorum, salt)
    ensures ReadsHold(cells, d.readSet) <==>
              && BitAt(cells[0].flags, 0) == 1 && BitAt(cells[1].flags, 0) == 1
              && cells[0].version == zeroVersion && cells[1].version == oneVersion
  {
    hide ReadHolds;
    assert forall k: nat :: BitAt(0, k) == 0;
    hide BitAt;
    ReadMeaning(cells, d.readSet[0]);
    ReadMeaning(cells, d.readSet[1]);
  }

  /** A reconciliation passes exactly when the thermal cell holds the value it was staged against and the new value
      lies in the envelope; it then puts the new value there and moves no other cell. */
  lemma ThermalExact(cells: seq<StateCell>, d: Draft, deadline: nat, version: nat, before: u64, after: u64, quorum: nat,
        salt: u64, credit: TransactionId)
    requires Conserved(cells) && Classified(cells)
    requires d == ThermalReconciliation(deadline, version, before, after, quorum, salt, credit)
    ensures InRange(|cells|, d.writeSet)
    ensures ReadsHold(cells, d.readSet) <==>
              BitAt(cells[2].flags, 0) == 1 && cells[2].version == version && cells[2].value == before
    ensures CheckWrites(KERNEL_POLICY, d.kind, cells, d.writeSet) ==
              if cells[2].value == before then Allowed else Conflicting
    ensures cells[2].value == before ==>
              var result := ApplyWrites(cells, d.writeSet);
              && (Validate(result).None? <==> 20 * 65536 <= after <= 95 * 65536)
              && result == cells[2 := Rewritten(cells[2], after)]
  {
    hide Bitwise;
    hide ReadHolds;
    OneWrite(d.kind, cells, d.writeSet);
    hide CheckWrites;
    hide ApplyWrites;
    FullMask(cells[2].value, before);
    ReadMeaning(cells, d.readSet[0]);
    hide BitAt;
  }

  /** A mask of all bits compares whole words. */
  lemma FullMask(a: u64, b: u64)
    ensures a == b <==> forall k :: 0 <= k < 64 && BitAt(U64_MAX, k) == 1 ==> BitAt(a, k) == BitAt(b, k)
  {
    TwoTo64();
    forall k | 0 <= k < 64 ensures BitAt(U64_MAX, k) == 1 {
      ComplementAt(0, 64, k);
      assert BitAt(0, k) == 0;
    }
    hide BitAt;
    if forall k :: 0 <= k < 64 ==> BitAt(a, k) == BitAt(b, k) {
      BitsDetermine(a, b, 64);
    }
  }

  lemma OneWrite(kind: nat, cells: seq<StateCell>, w: seq<Mutation>)
    requires |w| == 1 && InRange(|cells|, w)
    ensures ApplyWrites(cells, w) == ApplyWrite(cells, w[0])
    ensures CheckWrites(KERNEL_POLICY, kind, cells, w) ==
              if Authorize(kind, w[0], cells[w[0].cell]).Some? then Denied(Authorize(kind, w[0],
                  cells[w[0].cell]).value)
              else if ProjectValue(cells[w[0].cell].value, w[0]).None? then Conflicting else Allowed
  {
    hide Authorize;
    hide ProjectValue;
    assert w[1..] == [] && w[..0] == [];
    assert CheckWrites(KERNEL_POLICY, kind, cells, w[1..]).Allowed?;
    assert ApplyWrites(cells, w[..0]) == cells;
  }

  lemma TwoAllowed(kind: nat, cells: seq<StateCell>, w: seq<Mutation>)
    requires |w| == 2 && InRange(|cells|, w) && w[0].op.AddSigned? && w[1].op.AddSigned?
    requires forall k :: 0 <= k < 2 ==> Authorize(kind, w[k], cells[w[k].cell]).None?
    ensures CheckWrites(KERNEL_POLICY, kind, cells, w).Allowed?
  {
    hide Authorize;
    assert w[1..][0] == w[1] && w[1..][1..] == [];
    assert CheckWrites(KERNEL_POLICY, kind, cells, w[1..][1..]).Allowed?;
    assert CheckWrites(KERNEL_POLICY, kind, cells, w[1..]).Allowed?;
  }

  lemma TwoApplied(cells: seq<StateCell>, w: seq<Mutation>)
    requires |w| == 2 && InRange(|cells|, w)
    ensures ApplyWrites(cells, w) == ApplyWrite(ApplyWrite(cells, w[0]), w[1])
  {
    hide ApplyWrite;
    assert w[..1][..0] == [] && w[..1][0] == w[0];
    assert ApplyWrites(cells, w[..1]) == ApplyWrite(cells, w[0]);
  }

  datatype RebalancePlan = RebalancePlan(creditTransfer: TransactionId, thermalReconciliation: TransactionId)

  datatype RebalanceError =
    | DraftFailed(draftError: DraftError) | ManifoldFailed(manifoldError: ManifoldError) | DeltaTooLarge

  datatype RebalanceResult = Staged(plan: RebalancePlan) | StageFailed(error: RebalanceError)

  /** Both drafts submitted, the second depending on the first; a failed second submission leaves the first in place. */
  function Rebalanced(g: Geometry, s: Inner, origin: nat, stamp: nat, credit: Draft,
        thermal: TransactionId -> Draft): (Inner, RebalanceResult)
    requires Shape(g, s) && WellFormed(g, credit)
  {
    match Submit(g, s, origin, stamp, credit)
    case SubmitFailed(e) => (s, StageFailed(ManifoldFailed(e)))
    case Submitted(s1, creditId) =>
      SubmitShape(g, s, origin, stamp, credit);
      match Submit(g, s1, origin, stamp, thermal(creditId))
      case SubmitFailed(e) => (s1, StageFailed(ManifoldFailed(e)))
      case Submitted(s2, thermalId) => (s2, Staged(RebalancePlan(creditId, thermalId)))
  }

  const NUMA_SALT: u64 := 0x4E55_4D41_5F58_4645
  const THERMAL_SALT: u64 := 0x5448_4552_4D41_4C21

  method BuildCredit(deadline: nat, zeroVersion: nat, oneVersion: nat, delta: nat, quorum: nat, salt: u64)
    returns (r: DraftResult)
    requires delta <= I64_MAX
    ensures && r == Accepted(CreditTransfer(deadline, zeroVersion, oneVersion, delta, quorum, salt))
            && WellFormed(KERNEL_GEOMETRY, r.draft)
  {
    r := PushRead(KERNEL_GEOMETRY, Draft(CLASS_COMPUTE, 240, quorum, deadline, salt, [], [], []),
          ReadConstraint(NUMA_ZERO, zeroVersion, 0, 0));
    if r.Refused? { return; }
    r := PushRead(KERNEL_GEOMETRY, r.draft, ReadConstraint(NUMA_ONE, oneVersion, 0, 0));
    if r.Refused? { return; }
    r := PushWrite(KERNEL_GEOMETRY, r.draft, Mutation(NUMA_ZERO, AddSigned, Negated(delta), 0, 0));
    if r.Refused? { return; }
    r := PushWrite(KERNEL_GEOMETRY, r.draft, Mutation(NUMA_ONE, AddSigned, delta, 0, 0));
  }

  method BuildThermal(deadline: nat, version: nat, before: u64, after: u64, quorum: nat, salt: u64,
        credit: TransactionId) returns (r: DraftResult)
    ensures r == Accepted(ThermalReconciliation(deadline, version, before, after, quorum, salt, credit))
              && WellFormed(KERNEL_GEOMETRY, r.draft)
  {
    r := PushDependency(KERNEL_GEOMETRY, Draft(CLASS_THERMAL, 224, quorum, deadline, salt, [], [], []), credit);
    if r.Refused? { return; }
    r := PushRead(KERNEL_GEOMETRY, r.draft, ReadConstraint(THERMAL, version, U64_MAX, before));
    if r.Refused? { return; }
    r := PushWrite(KERNEL_GEOMETRY, r.draft, Mutation(THERMAL, CompareExchange, after, 0, before));
  }

  method StageNumaRebalance(m: Manifold, origin: nat, stamp: nat, deadline: nat, zeroVersion: nat, oneVersion: nat,
        delta: u64, thermalVersion: nat, thermalBefore: u64, thermalAfter: u64, quorum: nat, nonce: u64)
    returns (r: RebalanceResult)
    requires m.Valid() && m.g == KERNEL_GEOMETRY
    modifies m`sequence, m`submitted, m.slots, m.frontiers
    ensures m.Valid()
    ensures if delta > I64_MAX then r == StageFailed(DeltaTooLarge) && m.Abs() == old(m.Abs())
            else
              var credit := CreditTransfer(deadline, zeroVersion, oneVersion, delta, quorum, BitXor(nonce, NUMA_SALT));
              && WellFormed(m.g, credit)
              && (m.Abs(), r) == Rebalanced(m.g, old(m.Abs()), origin, stamp, credit,
                                            id => ThermalReconciliation(deadline, thermalVersion, thermalBefore,
                                                  thermalAfter, quorum, BitXor(nonce, THERMAL_SALT), id))
  {
    hide BitXor;
    hide RootOf;
    hide SubmitError;
    if delta > I64_MAX { return StageFailed(DeltaTooLarge); }
    ghost var before := m.Abs();
    var draft := BuildCredit(deadline, zeroVersion, oneVersion, delta, quorum, BitXor(nonce, NUMA_SALT));
    var id, error := m.Submit(origin, stamp, draft.draft);
    if error.Some? { return StageFailed(ManifoldFailed(error.value)); }
    ghost var middle := m.Abs();
    var second := BuildThermal(deadline, thermalVersion, thermalBefore, thermalAfter, quorum,
                      BitXor(nonce, THERMAL_SALT), id.value);
    var thermalId, error2 := m.Submit(origin, stamp, second.draft);
    if error2.Some? { return StageFailed(ManifoldFailed(error2.value)); }
    return Staged(RebalancePlan(id.value, thermalId.value));
  }

  // ---- the draining reactor ----------------------------------------------

  lemma {:induction false} PreparedCountDrop(slots: seq<Slot>, i: nat, slot: Slot)
    requires i < |slots| && slots[i].status.Prepared? && !slot.status.Prepared?
    ensures PreparedCount(slots[i := slot]) == PreparedCount(slots) - 1
  {
    var n := |slots| - 1;
    if i == n {
      assert slots[i := slot][..n] == slots[..n];
    } else {
      assert slots[i := slot][..n] == slots[..n][i := slot];
      PreparedCountDrop(slots[..n], i, slot);
    }
  }

  lemma {:induction false} NonePrepared(slots: seq<Slot>, i: nat)
    requires PreparedCount(slots) == 0 && i < |slots|
    ensures !slots[i].status.Prepared?
  {
    if i < |slots| - 1 { NonePrepared(slots[..|slots| - 1], i); }
  }

  /** Every drive that is not idle or blocked takes exactly one transaction out of the prepared ones. */
  lemma DriveProgress<F>(g: Geometry, mixer: Mixer, policy: Policy<F>, s: Inner, now: nat, r: DriveResult<F>)
    requires Shape(g, s) && Drives(g, mixer, policy, s, now, r) && (r.outcome.Rejected? || r.outcome.CommittedWith?)
    ensures PreparedCount(r.state.slots) == PreparedCount(s.slots) - 1
  {
    var i := DriveCases(g, mixer, policy, s, now, r);
    hide Drives;
    hide PreparedCount;
    hide RootOf;
    PreparedCountDrop(s.slots, i, r.state.slots[i]);
  }

  /** Nothing can move: no prepared transaction is doomed or eligible. */
  ghost predicate Drained(slots: seq<Slot>, now: nat) {
    forall i :: 0 <= i < |slots| ==> !Doomed(slots, i, now) && !Eligible(slots, i)
  }

  lemma QuietMeansDrained<F>(g: Geometry, mixer: Mixer, policy: Policy<F>, s: Inner, now: nat, r: DriveResult<F>)
    requires Shape(g, s) && Drives(g, mixer, policy, s, now, r) && (r.outcome.Idle? || r.outcome.Blocked?)
    ensures Drained(s.slots, now) && r.state == s
  {
    hide RootOf;
    hide ReadsHold;
    hide CheckWrites;
    hide ApplyWrites;
    hide WellFormed;
    if PreparedCount(s.slots) == 0 {
      forall i | 0 <= i < |s.slots| ensures !s.slots[i].status.Prepared? {
        NonePrepared(s.slots, i);
      }
    }
  }

  /** The certificates form one chain of state roots from first to last. */
  ghost predicate Chain(first: Digest, certificates: seq<Certificate>, last: Digest) {
    if certificates == [] then first == last
    else
      var n := |certificates| - 1;
      Chain(first, certificates[..n], certificates[n].stateBefore) && certificates[n].stateAfter == last
  }

  lemma CommitRoots<F>(g: Geometry, mixer: Mixer, policy: Policy<F>, s: Inner, now: nat, r: DriveResult<F>)
    requires Shape(g, s) && Drives(g, mixer, policy, s, now, r)
    ensures match r.outcome
            case CommittedWith(c) =>
              c.stateBefore == RootOf(mixer, s.cells) && c.stateAfter == RootOf(mixer, r.state.cells)
            case _ => r.state.cells == s.cells
  {
    var i := DriveCases(g, mixer, policy, s, now, r);
  }

  /** The state a list of drives ends in. */
  ghost function EndOf(s: Inner, steps: seq<DriveResult<Fault>>): Inner {
    if steps == [] then s else steps[|steps| - 1].state
  }

  /** Each step is a drive under the kernel policy from where the one before it ended. */
  ghost predicate DriveRun(g: Geometry, mixer: Mixer, s: Inner, now: nat, steps: seq<DriveResult<Fault>>) {
    forall k :: 0 <= k < |steps| ==> DrivesFrom(g, mixer, EndOf(s, steps[..k]), now, steps[k])
  }

  ghost predicate DrivesFrom(g: Geometry, mixer: Mixer, s: Inner, now: nat, r: DriveResult<Fault>) {
    Shape(g, s) && Drives(g, mixer, KERNEL_POLICY, s, now, r)
  }

  /** The certificates of the steps that committed, in order. */
  ghost function Certificates(steps: seq<DriveResult<Fault>>): seq<Certificate> {
    if steps == [] then []
    else
      var n := |steps| - 1;
      Certificates(steps[..n]) + if steps[n].outcome.CommittedWith? then [steps[n].outcome.certificate] else []
  }

  lemma RunNext(g: Geometry, mixer: Mixer, s: Inner, now: nat, steps: seq<DriveResult<Fault>>, r: DriveResult<Fault>)
    requires DriveRun(g, mixer, s, now, steps) && DrivesFrom(g, mixer, EndOf(s, steps), now, r)
    ensures DriveRun(g, mixer, s, now, steps + [r]) && EndOf(s, steps + [r]) == r.state
    ensures Certificates(steps + [r]) ==
              Certificates(steps) + if r.outcome.CommittedWith? then [r.outcome.certificate] else []
  {
    hide DrivesFrom;
    var all := steps + [r];
    assert all[..|steps|] == steps;
    forall k | 0 <= k < |all| ensures DrivesFrom(g, mixer, EndOf(s, all[..k]), now, all[k]) {
      if k < |steps| {
        assert all[..k] == steps[..k];
        assert DrivesFrom(g, mixer, EndOf(s, steps[..k]), now, steps[k]);
      }
    }
  }

  /** Any list of such drives keeps the promise. */
  lemma {:induction false} RunConserves(g: Geometry, mixer: Mixer, s: Inner, now: nat, steps: seq<DriveResult<Fault>>)
    requires DriveRun(g, mixer, s, now, steps) && Conserved(s.cells) && Classified(s.cells)
    ensures Conserved(EndOf(s, steps).cells) && Classified(EndOf(s, steps).cells)
  {
    hide Conserved;
    hide Classified;
    hide Drives;
    hide Shape;
    hide RootOf;
    if steps != [] {
      var n := |steps| - 1;
      assert DriveRun(g, mixer, s, now, steps[..n]) by {
        forall k | 0 <= k < n ensures DrivesFrom(g, mixer, EndOf(s, steps[..n][..k]), now, steps[..n][k]) {
          assert steps[..n][..k] == steps[..k];
          assert DrivesFrom(g, mixer, EndOf(s, steps[..k]), now, steps[k]);
        }
      }
      RunConserves(g, mixer, s, now, steps[..n]);
      assert DrivesFrom(g, mixer, EndOf(s, steps[..n]), now, steps[n]);
      DriveConserves(g, mixer, EndOf(s, steps[..n]), now, steps[n]);
    }
  }

  /** Drives under the kernel policy until nothing can move or enough has committed, and publishes the
      certificates of what committed.  It terminates because every other outcome uses up a prepared
      transaction. */
  method DrainReactor(m: Manifold, now: nat, maximum: nat) returns (committed: nat, published: seq<Certificate>)
    requires m.Valid()
    modifies m`stateRoot, m`epoch, m.cells, m.slots
    ensures m.Valid()
    ensures committed == |published| <= maximum
    ensures committed < maximum ==> Drained(m.slots[..], now)
    ensures PreparedCount(m.slots[..]) + committed <= PreparedCount(old(m.slots[..]))
    ensures Chain(old(m.stateRoot), published, m.stateRoot)
    ensures exists steps :: && DriveRun(m.g, m.mixer, old(m.Abs()), now, steps)
                            && m.Abs() == EndOf(old(m.Abs()), steps) && published == Certificates(steps)
    ensures old(Conserved(m.cells[..]) && Classified(m.cells[..])) ==>
              Conserved(m.cells[..]) && Classified(m.cells[..])
  {
    hide Shape;
    hide RootOf;
    hide PreparedCount;
    hide Drained;
    hide Drives;
    hide Conserved;
    hide Classified;
    hide DriveRun;
    hide EndOf;
    hide Certificates;
    committed, published := 0, [];
    ghost var steps: seq<DriveResult<Fault>> := [];
    RunEmpty(m.g, m.mixer, m.Abs(), now);
    while committed < maximum
      invariant m.Valid() && committed == |published| <= maximum
      invariant PreparedCount(m.slots[..]) + committed <= PreparedCount(old(m.slots[..]))
      invariant Chain(old(m.stateRoot), published, m.stateRoot)
      invariant DriveRun(m.g, m.mixer, old(m.Abs()), now, steps) && m.Abs() == EndOf(old(m.Abs()), steps)
      invariant published == Certificates(steps)
      decreases PreparedCount(m.slots[..])
    {
      ghost var s := m.Abs();
      var outcome := m.Drive(now, KERNEL_POLICY);
      ghost var r := DriveResult(m.Abs(), outcome);
      CommitRoots(m.g, m.mixer, KERNEL_POLICY, s, now, r);
      RunNext(m.g, m.mixer, old(m.Abs()), now, steps, r);
      steps := steps + [r];
      match outcome
      case CommittedWith(certificate) =>
        DriveProgress(m.g, m.mixer, KERNEL_POLICY, s, now, r);
        assert (published + [certificate])[..|published|] == published;
        published := published + [certificate];
        committed := committed + 1;
      case Rejected(_, _, _) =>
        DriveProgress(m.g, m.mixer, KERNEL_POLICY, s, now, r);
      case Idle =>
        QuietMeansDrained(m.g, m.mixer, KERNEL_POLICY, s, now, r);
        break;
      case Blocked(_) =>
        QuietMeansDrained(m.g, m.mixer, KERNEL_POLICY, s, now, r);
        break;
    }
    if old(Conserved(m.cells[..]) && Classified(m.cells[..])) {
      RunConserves(m.g, m.mixer, old(m.Abs()), now, steps);
    }
  }

  lemma RunEmpty(g: Geometry, mixer: Mixer, s: Inner, now: nat)
    ensures DriveRun(g, mixer, s, now, []) && EndOf(s, []) == s && Certificates([]) == []
  {
  }
}
