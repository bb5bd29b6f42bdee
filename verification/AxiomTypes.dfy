/** Values of the axiom manifold (kernel/boulder/src/axiom_manifold.rs): state cells, read
    constraints, mutations, drafts, certificates and slots. */
module AxiomTypes {
  import opened Arithmetic

  datatype Option<T> = None | Some(value: T)

  const U16_MAX := 0xFFFF
  const U32_MAX := 0xFFFF_FFFF
  const U64_MAX := 0xFFFF_FFFF_FFFF_FFFF

  type u64 = x: int | 0 <= x <= U64_MAX witness 0

  /** A word that is only ever xored: the set of its one bits. */
  type Digest = set<nat>

  const CELL_READ_ONLY := 2

  datatype StateCell = StateCell(value: u64, version: nat, class_: nat, flags: nat) {
    predicate IsPresent() { flags % 2 == 1 }
    predicate IsReadOnly() { flags / 2 % 2 == 1 }
  }

  function TwoTo(w: nat): (r: nat)
    ensures r >= 1
  {
    if w == 0 then 1 else 2 * TwoTo(w - 1)
  }

  lemma TwoTo64()
    ensures TwoTo(64) == U64_MAX + 1
  {
    assert TwoTo(2) == 4;
    assert TwoTo(4) == 4 * TwoTo(2);
    TwoToSum(4, 4);
    assert TwoTo(8) == 256;
    TwoToSum(8, 8);
    assert TwoTo(16) == 0x1_0000;
    TwoToSum(16, 16);
    assert TwoTo(32) == 0x1_0000_0000;
    TwoToSum(32, 32);
  }

  lemma TwoToSum(a: nat, b: nat)
    ensures TwoTo(a + b) == TwoTo(a) * TwoTo(b)
  {
    if a > 0 { TwoToSum(a - 1, b); }
  }

  function Bit(b: bool): nat { if b then 1 else 0 }

  /** The w low bits of a and b combined bit by bit. */
  function Bitwise(f: (bool, bool) -> bool, a: nat, b: nat, w: nat): (r: nat)
    ensures r < TwoTo(w)
  {
    if w == 0 then 0 else 2 * Bitwise(f, a / 2, b / 2, w - 1) + Bit(f(a % 2 == 1, b % 2 == 1))
  }

  function BitAnd(a: u64, b: u64): u64 { TwoTo64(); Bitwise((x, y) => x && y, a, b, 64) }
  function BitOr(a: u64, b: u64): u64 { TwoTo64(); Bitwise((x, y) => x || y, a, b, 64) }
  function BitXor(a: u64, b: u64): u64 { TwoTo64(); Bitwise((x, y) => x != y, a, b, 64) }

  /** Bit b of x. */
  function BitAt(x: nat, b: nat): nat { x / TwoTo(b) % 2 }

  lemma BitAtNext(x: nat, b: nat)
    ensures BitAt(x, b + 1) == BitAt(x / 2, b)
  {
    var t := TwoTo(b);
    var q, r := x / 2 / t, x / 2 % t;
    assert x / 2 == t * q + r;
    assert 2 * t * q == 2 * (t * q);
    DivMod(2 * t, q, 2 * r + x % 2);
  }

  /** Each bit of the combination is the combination of the bits. */
  lemma {:induction false} BitwiseAt(f: (bool, bool) -> bool, a: nat, b: nat, w: nat, k: nat)
    requires k < w
    ensures BitAt(Bitwise(f, a, b, w), k) == Bit(f(BitAt(a, k) == 1, BitAt(b, k) == 1))
  {
    hide Bitwise;
    hide BitAt;
    var r := Bitwise(f, a, b, w);
    BitwiseHalf(f, a, b, w);
    if k == 0 {
      LowBit(r);
      LowBit(a);
      LowBit(b);
    } else {
      BitwiseAt(f, a / 2, b / 2, w - 1, k - 1);
      BitAtNext(r, k - 1);
      BitAtNext(a, k - 1);
      BitAtNext(b, k - 1);
    }
  }

  lemma BitwiseHalf(f: (bool, bool) -> bool, a: nat, b: nat, w: nat)
    requires w > 0
    ensures var r := Bitwise(f, a, b, w);
            r / 2 == Bitwise(f, a / 2, b / 2, w - 1) && r % 2 == Bit(f(a % 2 == 1, b % 2 == 1))
  {
  }

  lemma LowBit(x: nat)
    ensures BitAt(x, 0) == x % 2
  {
  }

  /** Numbers of w bits with the same bits are the same. */
  lemma {:induction false} BitsDetermine(a: nat, b: nat, w: nat)
    requires a < TwoTo(w) && b < TwoTo(w) && forall k :: 0 <= k < w ==> BitAt(a, k) == BitAt(b, k)
    ensures a == b
  {
    if w > 0 {
      assert BitAt(a, 0) == BitAt(b, 0);
      forall k | 0 <= k < w - 1 ensures BitAt(a / 2, k) == BitAt(b / 2, k) {
        BitAtNext(a, k);
        BitAtNext(b, k);
      }
      BitsDetermine(a / 2, b / 2, w - 1);
    }
  }

  lemma {:induction false} ComplementAt(m: nat, w: nat, k: nat)
    requires k < w && m < TwoTo(w)
    ensures BitAt(TwoTo(w) - 1 - m, k) == 1 - BitAt(m, k)
  {
    var c := TwoTo(w) - 1 - m;
    if k > 0 {
      assert c / 2 == TwoTo(w - 1) - 1 - m / 2;
      ComplementAt(m / 2, w - 1, k - 1);
      BitAtNext(c, k - 1);
      BitAtNext(m, k - 1);
    }
  }

  lemma AndAt(a: u64, b: u64, k: nat)
    requires k < 64
    ensures BitAt(BitAnd(a, b), k) == Bit(BitAt(a, k) == 1 && BitAt(b, k) == 1)
  {
    hide Bitwise;
    BitwiseAt((x, y) => x && y, a, b, 64, k);
  }

  lemma OrAt(a: u64, b: u64, k: nat)
    requires k < 64
    ensures BitAt(BitOr(a, b), k) == Bit(BitAt(a, k) == 1 || BitAt(b, k) == 1)
  {
    hide Bitwise;
    BitwiseAt((x, y) => x || y, a, b, 64, k);
  }

  lemma XorAt(a: u64, b: u64, k: nat)
    requires k < 64
    ensures BitAt(BitXor(a, b), k) == (BitAt(a, k) + BitAt(b, k)) % 2
  {
    hide Bitwise;
    BitwiseAt((x, y) => x != y, a, b, 64, k);
  }

  /** Two words agree under a mask exactly when they agree at every bit of the mask. */
  lemma MaskedEqual(a: u64, b: u64, mask: u64)
    ensures BitAnd(a, mask) == BitAnd(b, mask) <==>
              forall k :: 0 <= k < 64 && BitAt(mask, k) == 1 ==> BitAt(a, k) == BitAt(b, k)
  {
    hide BitAnd;
    hide BitAt;
    TwoTo64();
    forall k | 0 <= k < 64
      ensures BitAt(BitAnd(a, mask), k) == Bit(BitAt(a, k) == 1 && BitAt(mask, k) == 1)
      ensures BitAt(BitAnd(b, mask), k) == Bit(BitAt(b, k) == 1 && BitAt(mask, k) == 1)
      ensures BitAt(a, k) <= 1 && BitAt(b, k) <= 1
    {
      AndAt(a, mask, k);
      AndAt(b, mask, k);
      BitAtBound(a, k);
      BitAtBound(b, k);
    }
    if forall k :: 0 <= k < 64 && BitAt(mask, k) == 1 ==> BitAt(a, k) == BitAt(b, k) {
      forall k | 0 <= k < 64 ensures BitAt(BitAnd(a, mask), k) == BitAt(BitAnd(b, mask), k) {
        assert BitAt(mask, k) == 1 ==> BitAt(a, k) == BitAt(b, k);
      }
      BitsDetermine(BitAnd(a, mask), BitAnd(b, mask), 64);
    }
  }

  lemma BitAtBound(x: nat, k: nat)
    ensures BitAt(x, k) <= 1
  {
  }

  const EMPTY_CELL := StateCell(0, 0, 0, 0)

  datatype TransactionId = TransactionId(slot: nat, generation: nat)

  datatype MutationOp = Set | AddSigned | Xor | Min | Max | MaskedReplace | CompareExchange

  datatype ReadConstraint = ReadConstraint(cell: nat, expectedVersion: nat, valueMask: u64, expectedValue: u64)

  datatype Mutation = Mutation(cell: nat, op: MutationOp, operand: u64, mask: u64, expected: u64)

  // ---- drafts ------------------------------------------------------------

  datatype Draft = Draft(kind: nat, priority: nat, requiredWitnesses: nat, deadline: nat, salt: u64,
                         readSet: seq<ReadConstraint>, writeSet: seq<Mutation>, dependencies: seq<TransactionId>)

  const EMPTY_DRAFT := Draft(0, 0, 0, 0, 0, [], [], [])

  datatype DraftError =
    | ReadCapacity | WriteCapacity | DependencyCapacity | DuplicateRead | DuplicateWrite | DuplicateDependency

  datatype DraftResult = Accepted(draft: Draft) | Refused(error: DraftError)

  /** Array capacities of the manifold. */
  datatype Geometry = Geometry(cells: nat, slots: nat, nodes: nat, readMax: nat, writeMax: nat, depMax: nat)

  /** What every draft built by the push operations satisfies. */
  predicate WellFormed(g: Geometry, d: Draft) {
    && |d.readSet| <= g.readMax && |d.writeSet| <= g.writeMax && |d.dependencies| <= g.depMax
    && (forall i, j :: 0 <= i < j < |d.readSet| ==> d.readSet[i].cell != d.readSet[j].cell)
    && (forall i, j :: 0 <= i < j < |d.writeSet| ==> d.writeSet[i].cell != d.writeSet[j].cell)
    && (forall i, j :: 0 <= i < j < |d.dependencies| ==> d.dependencies[i] != d.dependencies[j])
  }

  /** Two different places of a draft name two different cells to read, cells to write, or transactions. */
  lemma DraftDistinct(g: Geometry, d: Draft, i: nat, j: nat)
    requires WellFormed(g, d) && i != j
    ensures i < |d.readSet| && j < |d.readSet| ==> d.readSet[i].cell != d.readSet[j].cell
    ensures i < |d.writeSet| && j < |d.writeSet| ==> d.writeSet[i].cell != d.writeSet[j].cell
    ensures i < |d.dependencies| && j < |d.dependencies| ==> d.dependencies[i] != d.dependencies[j]
  {
  }

  function PushRead(g: Geometry, d: Draft, read: ReadConstraint): (r: DraftResult)
    requires WellFormed(g, d)
    ensures r.Accepted? ==> WellFormed(g, r.draft) && r.draft == d.(readSet := d.readSet + [read])
    ensures r.Accepted? <==>
              |d.readSet| < g.readMax && forall i :: 0 <= i < |d.readSet| ==> d.readSet[i].cell != read.cell
    ensures r.Refused? ==> r.error == if |d.readSet| == g.readMax then ReadCapacity else DuplicateRead
  {
    if |d.readSet| == g.readMax then Refused(ReadCapacity)
    else if exists i :: 0 <= i < |d.readSet| && d.readSet[i].cell == read.cell then Refused(DuplicateRead)
    else Accepted(d.(readSet := d.readSet + [read]))
  }

  function PushWrite(g: Geometry, d: Draft, write: Mutation): (r: DraftResult)
    requires WellFormed(g, d)
    ensures r.Accepted? ==> WellFormed(g, r.draft) && r.draft == d.(writeSet := d.writeSet + [write])
    ensures r.Accepted? <==>
              |d.writeSet| < g.writeMax && forall i :: 0 <= i < |d.writeSet| ==> d.writeSet[i].cell != write.cell
    ensures r.Refused? ==> r.error == if |d.writeSet| == g.writeMax then WriteCapacity else DuplicateWrite
  {
    if |d.writeSet| == g.writeMax then Refused(WriteCapacity)
    else if exists i :: 0 <= i < |d.writeSet| && d.writeSet[i].cell == write.cell then Refused(DuplicateWrite)
    else Accepted(d.(writeSet := d.writeSet + [write]))
  }

  function PushDependency(g: Geometry, d: Draft, dependency: TransactionId): (r: DraftResult)
    requires WellFormed(g, d)
    ensures r.Accepted? ==> WellFormed(g, r.draft) && r.draft == d.(dependencies := d.dependencies + [dependency])
    ensures r.Accepted? <==> |d.dependencies| < g.depMax && dependency !in d.dependencies
    ensures r.Refused? ==> r.error == if |d.dependencies| == g.depMax then DependencyCapacity else DuplicateDependency
  {
    if |d.dependencies| == g.depMax then Refused(DependencyCapacity)
    else if dependency in d.dependencies then Refused(DuplicateDependency)
    else Accepted(d.(dependencies := d.dependencies + [dependency]))
  }

  // ---- pure rules --------------------------------------------------------

  function SaturatingAdd(a: u64, b: u64): u64 {
    if a + b > U64_MAX then U64_MAX else a + b
  }

  function SaturatingSub(a: u64, b: int): u64
    requires 0 <= b
  {
    if a < b then 0 else a - b
  }

  /** The value a mutation gives to a cell, or None when a compare-exchange does not match.
      The operand of AddSigned is a two's complement delta. */
  function ProjectValue(before: u64, m: Mutation): Option<u64> {
    match m.op
    case Set => Some(m.operand)
    case AddSigned =>
      if m.operand < 0x8000_0000_0000_0000 then Some(SaturatingAdd(before, m.operand))
      else Some(SaturatingSub(before, U64_MAX + 1 - m.operand))
    case Xor => Some(BitXor(before, m.operand))
    case Min => Some(if before < m.operand then before else m.operand)
    case Max => Some(if before > m.operand then before else m.operand)
    case MaskedReplace => Some(BitOr(BitAnd(before, U64_MAX - m.mask), BitAnd(m.operand, m.mask)))
    case CompareExchange => if before == m.expected then Some(m.operand) else None
  }

  /** The delta an operand of AddSigned stands for. */
  function SignedDelta(operand: u64): int {
    if operand < 0x8000_0000_0000_0000 then operand else operand - U64_MAX - 1
  }

  /** The value each kind of mutation leaves, in terms of sums, bounds and single bits. */
  lemma ProjectionMeaning(before: u64, m: Mutation)
    ensures var r := ProjectValue(before, m);
            && (r.None? <==> m.op.CompareExchange? && before != m.expected)
            && (r.Some? ==>
                  match m.op
                  case Set => r.value == m.operand
                  case AddSigned =>
                    var sum := before + SignedDelta(m.operand);
                    && (0 <= sum <= U64_MAX ==> r.value == sum)
                    && (sum < 0 ==> r.value == 0) && (sum > U64_MAX ==> r.value == U64_MAX)
                  case Xor =>
                    forall k :: 0 <= k < 64 ==> BitAt(r.value, k) == (BitAt(before, k) + BitAt(m.operand, k)) % 2
                  case Min =>
                    r.value <= before && r.value <= m.operand && (r.value == before || r.value == m.operand)
                  case Max =>
                    r.value >= before && r.value >= m.operand && (r.value == before || r.value == m.operand)
                  case MaskedReplace =>
                    forall k :: 0 <= k < 64 ==>
                                  BitAt(r.value, k) == BitAt(if BitAt(m.mask, k) == 1 then m.operand else before, k)
                  case CompareExchange => r.value == m.operand)
  {
    hide BitAnd;
    hide BitOr;
    hide BitXor;
    hide BitAt;
    if m.op.Xor? {
      forall k | 0 <= k < 64
        ensures BitAt(BitXor(before, m.operand), k) == (BitAt(before, k) + BitAt(m.operand, k)) % 2
      {
        XorAt(before, m.operand, k);
      }
    } else if m.op.MaskedReplace? {
      forall k | 0 <= k < 64
        ensures BitAt(ProjectValue(before, m).value, k) == BitAt(if BitAt(m.mask, k) == 1 then m.operand else before, k)
      {
        ReplaceAt(before, m.operand, m.mask, k);
      }
    }
  }

  lemma ReplaceAt(before: u64, operand: u64, mask: u64, k: nat)
    requires k < 64
    ensures BitAt(BitOr(BitAnd(before, U64_MAX - mask), BitAnd(operand, mask)), k) ==
              BitAt(if BitAt(mask, k) == 1 then operand else before, k)
  {
    hide BitAnd;
    hide BitOr;
    hide BitAt;
    TwoTo64();
    ComplementAt(mask, 64, k);
    OrAt(BitAnd(before, U64_MAX - mask), BitAnd(operand, mask), k);
    AndAt(before, U64_MAX - mask, k);
    AndAt(operand, mask, k);
    BitAtBound(before, k);
    BitAtBound(operand, k);
    BitAtBound(mask, k);
  }

  predicate ReadHolds(cells: seq<StateCell>, read: ReadConstraint) {
    && read.cell < |cells|
    && cells[read.cell].IsPresent()
    && cells[read.cell].version == read.expectedVersion
    && (|| read.valueMask == 0
        || BitAnd(cells[read.cell].value, read.valueMask) == BitAnd(read.expectedValue, read.valueMask))
  }

  /** A read constraint asks for the bit that marks the cell present, its version, and the masked bits of its value. */
  lemma ReadMeaning(cells: seq<StateCell>, read: ReadConstraint)
    requires read.cell < |cells|
    ensures var c := cells[read.cell];
            ReadHolds(cells, read) <==>
              && BitAt(c.flags, 0) == 1 && c.version == read.expectedVersion
              && forall k :: 0 <= k < 64 && BitAt(read.valueMask, k) == 1 ==>
                               BitAt(c.value, k) == BitAt(read.expectedValue, k)
  {
    hide BitAnd;
    assert BitAt(cells[read.cell].flags, 0) == cells[read.cell].flags % 2;
    if read.valueMask == 0 {
      assert forall k: nat :: BitAt(0, k) == 0;
    }
    hide BitAt;
    MaskedEqual(cells[read.cell].value, read.expectedValue, read.valueMask);
  }

  predicate ReadsHold(cells: seq<StateCell>, readSet: seq<ReadConstraint>) {
    forall i :: 0 <= i < |readSet| ==> ReadHolds(cells, readSet[i])
  }

  function Bump(version: nat): nat {
    if version >= U32_MAX then U32_MAX else version + 1
  }

  function Rewritten(before: StateCell, value: u64): StateCell {
    StateCell(value, Bump(before.version), before.class_, before.flags)
  }

  // ---- slots and outcomes ------------------------------------------------

  datatype Status = Free | Prepared | Committed | Aborted | Expired

  datatype RejectReason =
    | DependencyFailed | ReadConflict | MutationConflict | PolicyDenied | InvariantViolation | DeadlineElapsed

  datatype ManifoldError =
    | InvalidNode | InvalidQuorum | InvalidCell | CellMissing | CellReadOnly
    | InvalidTransaction | TransactionNotPrepared | NoCapacity | SlotReferenced | SeedClosed

  datatype Certificate = Certificate(transaction: TransactionId, kind: nat, priority: nat, epoch: nat, sequence: nat,
                                     stamp: nat, vectorRoot: Digest, transactionRoot: Digest, stateBefore: Digest,
                                     stateAfter: Digest, witnesses: set<nat>)

  const EMPTY_CERTIFICATE := Certificate(TransactionId(U16_MAX, 0), 0, 0, 0, 0, 0, {}, {}, {}, {}, {})

  datatype Slot = Slot(generation: nat, status: Status, reason: Option<RejectReason>, draft: Draft, vector: seq<nat>,
                       stamp: nat, witnesses: set<nat>, sequence: nat, certificate: Certificate)

  function EmptySlot(generation: nat, nodes: nat): Slot {
    Slot(generation, Free, None, EMPTY_DRAFT, seq(nodes, _ => 0), 0, {}, 0, EMPTY_CERTIFICATE)
  }

  datatype Outcome<F> =
    | Idle
    | Blocked(prepared: nat)
    | Rejected(transaction: TransactionId, reason: RejectReason, fault: Option<F>)
    | CommittedWith(certificate: Certificate)

  /** Admission rules of the embedding kernel; None means allowed. */
  datatype Policy<!F> = Policy(authorize: (nat, Mutation, StateCell) -> Option<F>,
      validate: seq<StateCell> -> Option<F>)

  /** The digest functions, of which nothing is assumed. */
  datatype Mixer = Mixer(cell: (nat, StateCell) -> Digest, vector: seq<nat> -> Digest, draft: Draft -> Digest)

  function CellFingerprint(mixer: Mixer, index: nat, cell: StateCell): Digest {
    if !cell.IsPresent() then {} else mixer.cell(index, cell)
  }

  function XorOf(a: Digest, b: Digest): Digest {
    (a - b) + (b - a)
  }

  /** Reference definition of the state root: the xor of all cell fingerprints. */
  function RootOf(mixer: Mixer, cells: seq<StateCell>): Digest {
    if cells == [] then {}
    else XorOf(RootOf(mixer, cells[..|cells| - 1]), CellFingerprint(mixer, |cells| - 1, cells[|cells| - 1]))
  }

  /** Replacing one cell changes the root by the two fingerprints. */
  lemma {:induction false} RootUpdate(mixer: Mixer, cells: seq<StateCell>, i: nat, c: StateCell)
    requires i < |cells|
    ensures RootOf(mixer, cells[i := c]) == XorOf(RootOf(mixer, cells), XorOf(CellFingerprint(mixer, i, cells[i]),
              CellFingerprint(mixer, i, c)))
  {
    hide CellFingerprint;
    hide XorOf;
    var n := |cells| - 1;
    if i == n {
      assert cells[i := c][..n] == cells[..n];
      XorReplace(RootOf(mixer, cells[..n]), CellFingerprint(mixer, i, cells[i]), CellFingerprint(mixer, i, c));
    } else {
      assert cells[i := c][..n] == cells[..n][i := c];
      RootUpdate(mixer, cells[..n], i, c);
      XorMove(RootOf(mixer, cells[..n]), XorOf(CellFingerprint(mixer, i, cells[i]), CellFingerprint(mixer, i, c)),
            CellFingerprint(mixer, n, cells[n]));
    }
  }

  lemma XorReplace(r: Digest, a: Digest, b: Digest)
    ensures XorOf(r, b) == XorOf(XorOf(r, a), XorOf(a, b))
  {
  }

  lemma XorMove(r: Digest, d: Digest, last: Digest)
    ensures XorOf(XorOf(r, d), last) == XorOf(XorOf(r, last), d)
  {
  }
}
