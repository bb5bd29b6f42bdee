/** The axiom manifold as pure transitions: what each operation does to the state, written as
    one atomic step (no undo log, no incremental root).  AxiomManifold.dfy proves that the
    in-place implementation performs exactly these transitions. */
module AxiomSpec {
  import opened AxiomTypes

  datatype Inner = Inner(cells: seq<StateCell>, slots: seq<Slot>, frontiers: seq<seq<nat>>, epoch: nat, sequence: nat,
      submitted: nat)

  ghost predicate Shape(g: Geometry, s: Inner) {
    && |s.cells| == g.cells && |s.slots| == g.slots && |s.frontiers| == g.nodes
    && (forall o :: 0 <= o < g.nodes ==> |s.frontiers[o]| == g.nodes)
    && (forall i :: 0 <= i < g.slots ==> SlotShape(g, s.slots[i]))
  }

  ghost predicate SlotShape(g: Geometry, slot: Slot) {
    && |slot.vector| == g.nodes && WellFormed(g, slot.draft) && 1 <= slot.generation <= U16_MAX
    && CellsInRange(g, slot.draft)
  }

  function Initial(g: Geometry): Inner {
    Inner(seq(g.cells, _ => EMPTY_CELL), seq(g.slots, _ => EmptySlot(1, g.nodes)),
        seq(g.nodes, _ => seq(g.nodes, _ => 0)), 0, 0, 0)
  }

  function Next64(n: nat): nat {
    if n >= U64_MAX then U64_MAX else n + 1
  }

  // ---- seeding -----------------------------------------------------------

  datatype SeedResult = Seeded(state: Inner) | SeedFailed(error: ManifoldError)

  function SeedCellValue(value: u64, class_: nat, flags: nat): StateCell {
    StateCell(value, 1, class_, if flags % 2 == 1 then flags else flags + 1)
  }

  function Seed(s: Inner, index: nat, value: u64, class_: nat, flags: nat): SeedResult {
    if s.submitted != 0 then SeedFailed(SeedClosed)
    else if index >= |s.cells| then SeedFailed(InvalidCell)
    else Seeded(s.(cells := s.cells[index := SeedCellValue(value, class_, flags)]))
  }

  // ---- vector clocks -----------------------------------------------------

  function Merge(a: seq<nat>, b: seq<nat>): (r: seq<nat>)
    requires |a| == |b|
    ensures |r| == |a|
  {
    seq(|a|, i requires 0 <= i < |a| => if a[i] < b[i] then b[i] else a[i])
  }

  function Advance(a: seq<nat>, node: nat): (r: seq<nat>)
    requires node < |a|
    ensures |r| == |a|
  {
    a[node := Next64(a[node])]
  }

  ghost predicate HappensBefore(a: seq<nat>, b: seq<nat>)
    requires |a| == |b|
  {
    (forall i :: 0 <= i < |a| ==> a[i] <= b[i]) && exists i :: 0 <= i < |a| && a[i] < b[i]
  }

  // ---- submission --------------------------------------------------------

  predicate CellsInRange(g: Geometry, d: Draft) {
    && (forall i :: 0 <= i < |d.readSet| ==> d.readSet[i].cell < g.cells)
    && InRange(g.cells, d.writeSet)
  }

  predicate ReadsPresent(cells: seq<StateCell>, readSet: seq<ReadConstraint>) {
    forall i :: 0 <= i < |readSet| ==> readSet[i].cell < |cells| && cells[readSet[i].cell].IsPresent()
  }

  /** Every write names one of n cells. */
  predicate InRange(n: nat, writeSet: seq<Mutation>) {
    forall i :: 0 <= i < |writeSet| ==> writeSet[i].cell < n
  }

  /** The first write to a missing or read-only cell. */
  function WriteError(cells: seq<StateCell>, writeSet: seq<Mutation>): Option<ManifoldError>
    requires InRange(|cells|, writeSet)
  {
    if writeSet == [] then None
    else if !cells[writeSet[0].cell].IsPresent() then Some(CellMissing)
    else if cells[writeSet[0].cell].IsReadOnly() then Some(CellReadOnly)
    else WriteError(cells, writeSet[1..])
  }

  function FirstFree(slots: seq<Slot>, from: nat): (i: nat)
    requires from <= |slots|
    ensures from <= i <= |slots|
    ensures forall j :: from <= j < i ==> !slots[j].status.Free?
    ensures i < |slots| ==> slots[i].status.Free?
    decreases |slots| - from
  {
    if from == |slots| || slots[from].status.Free? then from else FirstFree(slots, from + 1)
  }

  /** The identifier names the transaction now held by its slot. */
  predicate Live(slots: seq<Slot>, id: TransactionId) {
    id.slot < |slots| && slots[id.slot].generation == id.generation && !slots[id.slot].status.Free?
  }

  predicate AllLive(slots: seq<Slot>, ids: seq<TransactionId>) {
    forall k :: 0 <= k < |ids| ==> Live(slots, ids[k])
  }

  function MergeDependencies(v: seq<nat>, slots: seq<Slot>, ids: seq<TransactionId>): (r: seq<nat>)
    requires AllLive(slots, ids) && forall i :: 0 <= i < |slots| ==> |slots[i].vector| == |v|
    ensures |r| == |v|
  {
    if ids == [] then v
    else
      var n := |ids| - 1;
      assert Live(slots, ids[n]);
      Merge(MergeDependencies(v, slots, ids[..n]), slots[ids[n].slot].vector)
  }

  datatype SubmitResult = Submitted(state: Inner, id: TransactionId) | SubmitFailed(error: ManifoldError)

  /** The checks `submit` makes, in its order; None when it goes through. */
  function SubmitError(g: Geometry, s: Inner, origin: nat, d: Draft): Option<ManifoldError> {
    if origin >= g.nodes || g.nodes > 64 then Some(InvalidNode)
    else if d.requiredWitnesses > g.nodes then Some(InvalidQuorum)
    else if !CellsInRange(g, d) then Some(InvalidCell)
    else if |s.cells| != g.cells || !ReadsPresent(s.cells, d.readSet) then Some(CellMissing)
    else if WriteError(s.cells, d.writeSet).Some? then WriteError(s.cells, d.writeSet)
    else if FirstFree(s.slots, 0) == |s.slots| || FirstFree(s.slots, 0) > U16_MAX then Some(NoCapacity)
    else if !AllLive(s.slots, d.dependencies) then Some(InvalidTransaction)
    else None
  }

  function SubmitVector(g: Geometry, s: Inner, origin: nat, d: Draft): (r: seq<nat>)
    requires Shape(g, s) && SubmitError(g, s, origin, d).None?
    ensures |r| == g.nodes
  {
    Advance(MergeDependencies(s.frontiers[origin], s.slots, d.dependencies), origin)
  }

  function Submit(g: Geometry, s: Inner, origin: nat, stamp: nat, d: Draft): SubmitResult
    requires Shape(g, s)
  {
    if SubmitError(g, s, origin, d).Some? then SubmitFailed(SubmitError(g, s, origin, d).value)
    else
      var i := FirstFree(s.slots, 0);
      var vector := SubmitVector(g, s, origin, d);
      var generation := s.slots[i].generation;
      var slot := Slot(generation, Prepared, None, d, vector, stamp, {}, Next64(s.sequence), EMPTY_CERTIFICATE);
      Submitted(s.(slots := s.slots[i := slot], frontiers := s.frontiers[origin := vector],
                   sequence := Next64(s.sequence), submitted := Next64(s.submitted)),
                TransactionId(i, generation))
  }

  // ---- attestation -------------------------------------------------------

  datatype AttestResult = Attested(state: Inner, fresh_: bool) | AttestFailed(error: ManifoldError)

  function Attest(g: Geometry, s: Inner, id: TransactionId, node: nat): AttestResult {
    if node >= g.nodes || g.nodes > 64 then AttestFailed(InvalidNode)
    else if !Live(s.slots, id) then AttestFailed(InvalidTransaction)
    else if !s.slots[id.slot].status.Prepared? then AttestFailed(TransactionNotPrepared)
    else
      var slot := s.slots[id.slot];
      Attested(s.(slots := s.slots[id.slot := slot.(witnesses := slot.witnesses + {node})]), node !in slot.witnesses)
  }

  // ---- driving -----------------------------------------------------------

  function RejectSlot(slot: Slot, reason: RejectReason): Slot {
    slot.(status := if reason.DeadlineElapsed? then Expired else Aborted, reason := Some(reason))
  }

  predicate DependencyLost(slots: seq<Slot>, id: TransactionId) {
    || id.slot >= |slots| || slots[id.slot].generation != id.generation
    || slots[id.slot].status.Aborted? || slots[id.slot].status.Expired? || slots[id.slot].status.Free?
  }

  predicate Elapsed(d: Draft, now: nat) {
    d.deadline != 0 && now > d.deadline
  }

  predicate Doomed(slots: seq<Slot>, i: nat, now: nat)
    requires i < |slots|
  {
    && slots[i].status.Prepared?
    && (Elapsed(slots[i].draft, now)
        || exists k :: 0 <= k < |slots[i].draft.dependencies| && DependencyLost(slots, slots[i].draft.dependencies[k]))
  }

  function DoomReason(d: Draft, now: nat): RejectReason {
    if Elapsed(d, now) then DeadlineElapsed else DependencyFailed
  }

  function FirstDoomed(slots: seq<Slot>, now: nat, from: nat): (i: nat)
    requires from <= |slots|
    ensures from <= i <= |slots|
    ensures forall j :: from <= j < i ==> !Doomed(slots, j, now)
    ensures i < |slots| ==> Doomed(slots, i, now)
    decreases |slots| - from
  {
    if from == |slots| || Doomed(slots, from, now) then from else FirstDoomed(slots, now, from + 1)
  }

  function PreparedCount(slots: seq<Slot>): nat {
    if slots == [] then 0
    else PreparedCount(slots[..|slots| - 1]) + if slots[|slots| - 1].status.Prepared? then 1 else 0
  }

  predicate Eligible(slots: seq<Slot>, i: nat)
    requires i < |slots|
  {
    && slots[i].status.Prepared?
    && |slots[i].witnesses| >= slots[i].draft.requiredWitnesses
    && forall k :: 0 <= k < |slots[i].draft.dependencies| ==>
         var id := slots[i].draft.dependencies[k];
         id.slot < |slots| && slots[id.slot].generation == id.generation && slots[id.slot].status.Committed?
  }

  function EffectiveDeadline(d: Draft): nat {
    if d.deadline == 0 then U64_MAX else d.deadline
  }

  /** Earlier deadline, then higher priority, then earlier submission. */
  predicate Precedes(left: Slot, right: Slot) {
    var l, r := EffectiveDeadline(left.draft), EffectiveDeadline(right.draft);
    || l < r
    || (l == r && left.draft.priority > right.draft.priority)
    || (l == r && left.draft.priority == right.draft.priority && left.sequence < right.sequence)
  }

  /** The slot `drive` must pick: eligible, preceded by no eligible slot, the first such in the table. */
  ghost predicate Selected(slots: seq<Slot>, i: nat)
    requires i < |slots|
  {
    && Eligible(slots, i)
    && (forall j :: 0 <= j < |slots| && Eligible(slots, j) ==> !Precedes(slots[j], slots[i]))
    && (forall j :: 0 <= j < i && Eligible(slots, j) ==> Precedes(slots[i], slots[j]))
  }

  datatype WriteCheck<F> = Allowed | Denied(fault: F) | Conflicting

  /** Authorisation and projection of the writes, in order, against one fixed state. */
  function CheckWrites<F>(policy: Policy<F>, kind: nat, cells: seq<StateCell>, writeSet: seq<Mutation>): WriteCheck<F>
    requires InRange(|cells|, writeSet)
  {
    if writeSet == [] then Allowed
    else
      var m := writeSet[0];
      var verdict := policy.authorize(kind, m, cells[m.cell]);
      if verdict.Some? then Denied(verdict.value)
      else if ProjectValue(cells[m.cell].value, m).None? then Conflicting
      else CheckWrites(policy, kind, cells, writeSet[1..])
  }

  /** One mutation applied to the current state; a compare-exchange that does not match leaves it alone. */
  function ApplyWrite(cells: seq<StateCell>, m: Mutation): (r: seq<StateCell>)
    requires m.cell < |cells|
    ensures |r| == |cells|
  {
    match ProjectValue(cells[m.cell].value, m)
    case Some(value) => cells[m.cell := Rewritten(cells[m.cell], value)]
    case None => cells
  }

  /** The writes applied one after the other, each to the state the previous one left. */
  function ApplyWrites(cells: seq<StateCell>, writeSet: seq<Mutation>): (r: seq<StateCell>)
    requires InRange(|cells|, writeSet)
    ensures |r| == |cells|
  {
    if writeSet == [] then cells
    else
      var n := |writeSet| - 1;
      ApplyWrite(ApplyWrites(cells, writeSet[..n]), writeSet[n])
  }

  function IdOf(slots: seq<Slot>, i: nat): TransactionId
    requires i < |slots|
  {
    TransactionId(i, slots[i].generation)
  }

  datatype DriveResult<F> = DriveResult(state: Inner, outcome: Outcome<F>)

  function Refuse<F>(s: Inner, i: nat, reason: RejectReason, fault: Option<F>): DriveResult<F>
    requires i < |s.slots|
  {
    DriveResult(s.(slots := s.slots[i := RejectSlot(s.slots[i], reason)]), Rejected(IdOf(s.slots, i), reason, fault))
  }

  function CertificateFor(mixer: Mixer, s: Inner, i: nat, after: seq<StateCell>): Certificate
    requires i < |s.slots|
  {
    var slot := s.slots[i];
    Certificate(IdOf(s.slots, i), slot.draft.kind, slot.draft.priority, Next64(s.epoch), slot.sequence, slot.stamp,
                mixer.vector(slot.vector), mixer.draft(slot.draft), RootOf(mixer, s.cells), RootOf(mixer, after),
                slot.witnesses)
  }

  function Commit(mixer: Mixer, s: Inner, i: nat, after: seq<StateCell>): Inner
    requires i < |s.slots|
  {
    s.(cells := after, epoch := Next64(s.epoch),
       slots := s.slots[i := s.slots[i].(status := Committed, reason := None,
           certificate := CertificateFor(mixer, s, i, after))])
  }

  /** The fate of the selected transaction. */
  function Attempt<F>(mixer: Mixer, policy: Policy<F>, s: Inner, i: nat): DriveResult<F>
    requires i < |s.slots| && InRange(|s.cells|, s.slots[i].draft.writeSet)
  {
    var d := s.slots[i].draft;
    if !ReadsHold(s.cells, d.readSet) then Refuse(s, i, ReadConflict, None)
    else
      match CheckWrites(policy, d.kind, s.cells, d.writeSet)
      case Denied(fault) => Refuse(s, i, PolicyDenied, Some(fault))
      case Conflicting => Refuse(s, i, MutationConflict, None)
      case Allowed =>
        var after := ApplyWrites(s.cells, d.writeSet);
        var verdict := policy.validate(after);
        if verdict.Some? then Refuse(s, i, InvariantViolation, Some(verdict.value))
        else DriveResult(Commit(mixer, s, i, after), CommittedWith(CertificateFor(mixer, s, i, after)))
  }

  /** `drive` as a relation: the selected slot is the one thing Selected pins down. */
  ghost predicate Drives<F>(g: Geometry, mixer: Mixer, policy: Policy<F>, s: Inner, now: nat, r: DriveResult<F>)
    requires Shape(g, s)
  {
    var doomed := FirstDoomed(s.slots, now, 0);
    if doomed < |s.slots| then
      r == Refuse(s, doomed, DoomReason(s.slots[doomed].draft, now), None)
    else if PreparedCount(s.slots) == 0 then
      r == DriveResult(s, Idle)
    else if forall i :: 0 <= i < |s.slots| ==> !Eligible(s.slots, i) then
      r == DriveResult(s, Blocked(PreparedCount(s.slots)))
    else
      exists i :: && 0 <= i < |s.slots| && Selected(s.slots, i) && SlotShape(g, s.slots[i])
                  && r == Attempt(mixer, policy, s, i)
  }

  /** The selection is unambiguous. */
  lemma SelectedUnique(slots: seq<Slot>, i: nat, j: nat)
    requires i < |slots| && j < |slots| && Selected(slots, i) && Selected(slots, j)
    ensures i == j
  {
  }

  // ---- reaping -----------------------------------------------------------

  function NextGeneration(generation: nat): nat {
    var next := (generation + 1) % 0x1_0000;
    if next == 0 then 1 else next
  }

  datatype ReapResult = Reaped(state: Inner) | ReapFailed(error: ManifoldError)

  predicate Referenced(slots: seq<Slot>, id: TransactionId) {
    exists i :: 0 <= i < |slots| && slots[i].status.Prepared? && id in slots[i].draft.dependencies
  }

  function Reap(g: Geometry, s: Inner, id: TransactionId): ReapResult {
    if !Live(s.slots, id) then ReapFailed(InvalidTransaction)
    else if s.slots[id.slot].status.Prepared? then ReapFailed(TransactionNotPrepared)
    else if Referenced(s.slots, id) then ReapFailed(SlotReferenced)
    else Reaped(s.(slots := s.slots[id.slot := EmptySlot(NextGeneration(s.slots[id.slot].generation), g.nodes)]))
  }
}
