/** The axiom manifold as the source keeps it: cells, slots and frontiers in fixed arrays, a state
    root maintained by xor, and an undo log that is played back when the policy refuses a state.
    Every method is proved to perform the corresponding transition of AxiomSpec. */
module AxiomManifold {
  import opened AxiomTypes
  import opened AxiomSpec
  import opened AxiomHistory
  import opened AxiomOrder

  datatype UndoEntry = UndoEntry(cell: nat, before: StateCell, active: bool)

  const EMPTY_UNDO := UndoEntry(U16_MAX, EMPTY_CELL, false)

  // ---- vector clock loops ------------------------------------------------

  method MergeClocks(a: seq<nat>, b: seq<nat>) returns (r: seq<nat>)
    requires |a| == |b|
    ensures r == Merge(a, b)
  {
    r := a;
    var i := 0;
    while i < |a|
      invariant 0 <= i <= |a| && |r| == |a|
      invariant forall k :: 0 <= k < i ==> r[k] == if a[k] < b[k] then b[k] else a[k]
      invariant forall k :: i <= k < |a| ==> r[k] == a[k]
    {
      if r[i] < b[i] { r := r[i := b[i]]; }
      i := i + 1;
    }
  }

  method ClockHappensBefore(a: seq<nat>, b: seq<nat>) returns (r: bool)
    requires |a| == |b|
    ensures r <==> HappensBefore(a, b)
  {
    var strictly := false;
    var i := 0;
    while i < |a|
      invariant 0 <= i <= |a|
      invariant forall k :: 0 <= k < i ==> a[k] <= b[k]
      invariant strictly <==> exists k :: 0 <= k < i && a[k] < b[k]
    {
      if a[i] > b[i] { return false; }
      strictly := strictly || a[i] < b[i];
      i := i + 1;
    }
    return strictly;
  }

  // ---- writes: projection, application, rollback -------------------------

  predicate DistinctCells(writeSet: seq<Mutation>) {
    forall i, j :: 0 <= i < j < |writeSet| ==> writeSet[i].cell != writeSet[j].cell
  }

  /** A cell no write names keeps its contents. */
  lemma {:induction false} Untouched(cells: seq<StateCell>, writeSet: seq<Mutation>, c: nat)
    requires InRange(|cells|, writeSet) && c < |cells| && forall i :: 0 <= i < |writeSet| ==> writeSet[i].cell != c
    ensures ApplyWrites(cells, writeSet)[c] == cells[c]
  {
    hide ProjectValue;
    if writeSet != [] {
      Untouched(cells, writeSet[..|writeSet| - 1], c);
    }
  }

  /** One more write, given that its cell was not written before: it sees the original cell. */
  lemma NextWrite(cells: seq<StateCell>, writeSet: seq<Mutation>, k: nat)
    requires InRange(|cells|, writeSet) && DistinctCells(writeSet) && k < |writeSet|
    ensures var w := writeSet[k];
            var now := ApplyWrites(cells, writeSet[..k]);
            && now[w.cell] == cells[w.cell]
            && ApplyWrites(cells, writeSet[..k + 1]) == ApplyWrite(now, w)
  {
    Untouched(cells, writeSet[..k], writeSet[k].cell);
    assert writeSet[..k + 1][..k] == writeSet[..k];
  }

  /** Restoring the cell of write k undoes exactly that write. */
  lemma UndoWrite(cells: seq<StateCell>, writeSet: seq<Mutation>, k: nat)
    requires InRange(|cells|, writeSet) && DistinctCells(writeSet) && k < |writeSet|
    ensures ApplyWrites(cells, writeSet[..k + 1])[writeSet[k].cell := cells[writeSet[k].cell]] ==
              ApplyWrites(cells, writeSet[..k])
  {
    hide ProjectValue;
    hide ApplyWrites;
    NextWrite(cells, writeSet, k);
    RestoreCell(ApplyWrites(cells, writeSet[..k]), writeSet[k]);
  }

  lemma RestoreCell(cells: seq<StateCell>, m: Mutation)
    requires m.cell < |cells|
    ensures ApplyWrite(cells, m)[m.cell := cells[m.cell]] == cells
  {
    hide ProjectValue;
  }

  /** The projections of the first k writes against the state before any of them. */
  ghost predicate Projected(cells: seq<StateCell>, writeSet: seq<Mutation>, values: seq<u64>)
    requires InRange(|cells|, writeSet)
  {
    && |values| <= |writeSet|
    && forall k :: 0 <= k < |values| ==> ProjectValue(cells[writeSet[k].cell].value, writeSet[k]) == Some(values[k])
  }

  method CheckAndProject<F>(policy: Policy<F>, kind: nat, cells: array<StateCell>,
        writeSet: seq<Mutation>) returns (verdict: WriteCheck<F>, values: seq<u64>)
    requires InRange(cells.Length, writeSet)
    ensures verdict == CheckWrites(policy, kind, cells[..], writeSet)
    ensures verdict.Allowed? ==> |values| == |writeSet| && Projected(cells[..], writeSet, values)
  {
    hide ProjectValue;
    values := [];
    var i := 0;
    while i < |writeSet|
      invariant 0 <= i <= |writeSet| == i + |writeSet[i..]| && |values| == i
      invariant Projected(cells[..], writeSet, values)
      invariant CheckWrites(policy, kind, cells[..], writeSet[i..]) == CheckWrites(policy, kind, cells[..], writeSet)
    {
      var m := writeSet[i];
      var before := cells[m.cell];
      assert writeSet[i..][0] == m && writeSet[i..][1..] == writeSet[i + 1..];
      var fault := policy.authorize(kind, m, before);
      if fault.Some? { return Denied(fault.value), values; }
      var value := ProjectValue(before.value, m);
      if value.None? { return Conflicting, values; }
      values := values + [value.value];
      i := i + 1;
    }
    verdict := Allowed;
  }

  /** Undo entries of the first n writes, taken against the state before any of them. */
  ghost predicate Undoes(cells: seq<StateCell>, writeSet: seq<Mutation>, undo: seq<UndoEntry>, n: nat)
    requires InRange(|cells|, writeSet)
  {
    && n <= |writeSet| <= |undo|
    && (forall k :: 0 <= k < n ==> undo[k] == UndoEntry(writeSet[k].cell, cells[writeSet[k].cell], true))
    && (forall k :: n <= k < |undo| ==> !undo[k].active)
  }

  method Rollback(cells: array<StateCell>, undo: seq<UndoEntry>, ghost before: seq<StateCell>,
        ghost writeSet: seq<Mutation>)
    requires |before| == cells.Length && InRange(cells.Length, writeSet) && DistinctCells(writeSet)
    requires Undoes(before, writeSet, undo, |writeSet|) && cells[..] == ApplyWrites(before, writeSet)
    modifies cells
    ensures cells[..] == before
  {
    hide ApplyWrites;
    assert writeSet[..|writeSet|] == writeSet;
    var i := |undo|;
    while i > 0
      invariant 0 <= i <= |undo|
      invariant cells[..] == ApplyWrites(before, writeSet[..if i < |writeSet| then i else |writeSet|])
    {
      i := i - 1;
      if undo[i].active {
        UndoWrite(before, writeSet, i);
        cells[undo[i].cell] := undo[i].before;
      }
    }
    NoWrites(before, writeSet);
  }

  lemma NoWrites(cells: seq<StateCell>, writeSet: seq<Mutation>)
    requires InRange(|cells|, writeSet)
    ensures ApplyWrites(cells, writeSet[..0]) == cells
  {
  }

  /** The second loop of `drive`: cells, root and undo log advance together. */
  method ApplyAndLog(mixer: Mixer, cells: array<StateCell>, root: Digest, writeSet: seq<Mutation>, values: seq<u64>,
        capacity: nat)
    returns (root': Digest, undo: seq<UndoEntry>)
    requires InRange(cells.Length, writeSet) && DistinctCells(writeSet) && |writeSet| <= capacity
    requires |values| == |writeSet| && Projected(cells[..], writeSet, values)
    requires root == RootOf(mixer, cells[..])
    modifies cells
    ensures cells[..] == ApplyWrites(old(cells[..]), writeSet)
    ensures root' == RootOf(mixer, cells[..])
    ensures Undoes(old(cells[..]), writeSet, undo, |writeSet|)
  {
    hide ApplyWrites;
    hide RootOf;
    hide ProjectValue;
    hide XorOf;
    ghost var before := cells[..];
    NoWrites(before, writeSet);
    root' := root;
    undo := seq(capacity, _ => EMPTY_UNDO);
    var i := 0;
    while i < |writeSet|
      invariant 0 <= i <= |writeSet|
      invariant cells[..] == ApplyWrites(before, writeSet[..i])
      invariant root' == RootOf(mixer, cells[..])
      invariant |undo| == capacity && Undoes(before, writeSet, undo, i)
    {
      var c := writeSet[i].cell;
      NextWrite(before, writeSet, i);
      var current := cells[c];
      var after := Rewritten(current, values[i]);
      undo := undo[i := UndoEntry(c, current, true)];
      RootUpdate(mixer, cells[..], c, after);
      root' := XorOf(root', XorOf(CellFingerprint(mixer, c, current), CellFingerprint(mixer, c, after)));
      cells[c] := after;
      i := i + 1;
    }
    assert writeSet[..|writeSet|] == writeSet;
  }

  // ---- table scans -------------------------------------------------------

  method ReadsMatch(cells: array<StateCell>, readSet: seq<ReadConstraint>) returns (r: bool)
    ensures r == ReadsHold(cells[..], readSet)
  {
    hide BitAnd;
    var i := 0;
    while i < |readSet|
      invariant 0 <= i <= |readSet|
      invariant forall k :: 0 <= k < i ==> ReadHolds(cells[..], readSet[k])
    {
      if !ReadHolds(cells[..], readSet[i]) { return false; }
      i := i + 1;
    }
    return true;
  }

  /** The first free slot, or the table length. */
  method FindFree(slots: array<Slot>) returns (i: nat)
    ensures i == FirstFree(slots[..], 0)
  {
    i := 0;
    while i < slots.Length && !slots[i].status.Free?
      invariant 0 <= i <= slots.Length
      invariant FirstFree(slots[..], 0) == FirstFree(slots[..], i)
    {
      i := i + 1;
    }
  }

  method AnyLost(slots: array<Slot>, ids: seq<TransactionId>) returns (r: bool)
    ensures r <==> exists k :: 0 <= k < |ids| && DependencyLost(slots[..], ids[k])
  {
    var k := 0;
    while k < |ids|
      invariant 0 <= k <= |ids| && forall j :: 0 <= j < k ==> !DependencyLost(slots[..], ids[j])
    {
      if DependencyLost(slots[..], ids[k]) { return true; }
      k := k + 1;
    }
    return false;
  }

  /** The first prepared slot whose deadline has passed or whose dependency is lost. */
  method FindDoomed(slots: array<Slot>, now: nat) returns (i: nat)
    ensures i == FirstDoomed(slots[..], now, 0)
  {
    hide DependencyLost;
    i := 0;
    while i < slots.Length
      invariant 0 <= i <= slots.Length
      invariant FirstDoomed(slots[..], now, 0) == FirstDoomed(slots[..], now, i)
    {
      if slots[i].status.Prepared? {
        if Elapsed(slots[i].draft, now) { return; }
        var lost := AnyLost(slots, slots[i].draft.dependencies);
        if lost { return; }
      }
      i := i + 1;
    }
  }

  method CountPrepared(slots: array<Slot>) returns (n: nat)
    ensures n == PreparedCount(slots[..])
  {
    n := 0;
    var i := 0;
    while i < slots.Length
      invariant 0 <= i <= slots.Length && n == PreparedCount(slots[..i])
    {
      assert slots[..i + 1][..i] == slots[..i];
      if slots[i].status.Prepared? { n := n + 1; }
      i := i + 1;
    }
    assert slots[..slots.Length] == slots[..];
  }

  /** The best eligible slot among the first n. */
  ghost predicate BestOf(slots: seq<Slot>, i: nat, n: nat)
    requires i < n <= |slots|
  {
    && Eligible(slots, i)
    && (forall j :: 0 <= j < n && Eligible(slots, j) ==> !Precedes(slots[j], slots[i]))
    && (forall j :: 0 <= j < i && Eligible(slots, j) ==> Precedes(slots[i], slots[j]))
  }

  method CheckEligible(slots: array<Slot>, i: nat) returns (r: bool)
    requires i < slots.Length
    ensures r == Eligible(slots[..], i)
  {
    if !slots[i].status.Prepared? || |slots[i].witnesses| < slots[i].draft.requiredWitnesses { return false; }
    var ids := slots[i].draft.dependencies;
    var k := 0;
    while k < |ids|
      invariant 0 <= k <= |ids|
      invariant forall j :: 0 <= j < k ==>
                              && ids[j].slot < slots.Length && slots[ids[j].slot].generation == ids[j].generation
                              && slots[ids[j].slot].status.Committed?
    {
      if ids[k].slot >= slots.Length { return false; }
      if slots[ids[k].slot].generation != ids[k].generation { return false; }
      if !slots[ids[k].slot].status.Committed? { return false; }
      k := k + 1;
    }
    return true;
  }

  method SelectCandidate(slots: array<Slot>) returns (best: Option<nat>)
    ensures best.None? <==> forall i :: 0 <= i < slots.Length ==> !Eligible(slots[..], i)
    ensures best.Some? ==> best.value < slots.Length && Selected(slots[..], best.value)
  {
    hide Eligible;
    best := None;
    var i := 0;
    while i < slots.Length
      invariant 0 <= i <= slots.Length
      invariant best.None? ==> forall j :: 0 <= j < i ==> !Eligible(slots[..], j)
      invariant best.Some? ==> best.value < i && BestOf(slots[..], best.value, i)
    {
      var eligible := CheckEligible(slots, i);
      if eligible {
        if best.None? {
          best := Some(i);
        } else if Precedes(slots[i], slots[best.value]) {
          best := Some(i);
        }
      }
      i := i + 1;
    }
  }

  // ---- the manifold ------------------------------------------------------

  lemma {:induction false} EmptyRoot(mixer: Mixer, cells: seq<StateCell>)
    requires forall i :: 0 <= i < |cells| ==> cells[i] == EMPTY_CELL
    ensures RootOf(mixer, cells) == {}
  {
    if cells != [] { EmptyRoot(mixer, cells[..|cells| - 1]); }
  }

  lemma SubmitShape(g: Geometry, s: Inner, origin: nat, stamp: nat, d: Draft)
    requires Shape(g, s) && WellFormed(g, d) && Submit(g, s, origin, stamp, d).Submitted?
    ensures Shape(g, Submit(g, s, origin, stamp, d).state)
  {
    hide WellFormed;
    hide MergeDependencies;
  }

  class Manifold {
    const g: Geometry
    const mixer: Mixer
    const cells: array<StateCell>
    const slots: array<Slot>
    const frontiers: array<seq<nat>>
    var stateRoot: Digest
    var epoch: nat
    var sequence: nat
    var submitted: nat

    ghost function Abs(): Inner
      reads this, cells, slots, frontiers
    {
      Inner(cells[..], slots[..], frontiers[..], epoch, sequence, submitted)
    }

    /** The tables have their shape and the root kept by xor is the root of the cells. */
    ghost predicate Valid()
      reads this, cells, slots, frontiers
    {
      && Shape(g, Abs())
      && stateRoot == RootOf(mixer, cells[..])
    }

    constructor (g: Geometry, mixer: Mixer)
      ensures Valid() && Abs() == Initial(g) && this.g == g && this.mixer == mixer
      ensures fresh(cells) && fresh(slots) && fresh(frontiers)
    {
      this.g := g;
      this.mixer := mixer;
      cells := new StateCell[g.cells](_ => EMPTY_CELL);
      slots := new Slot[g.slots](_ => EmptySlot(1, g.nodes));
      frontiers := new seq<nat>[g.nodes](_ => seq(g.nodes, _ => 0));
      stateRoot := {};
      epoch, sequence, submitted := 0, 0, 0;
      new;
      EmptyRoot(mixer, cells[..]);
      assert cells[..] == Initial(g).cells;
      assert slots[..] == Initial(g).slots;
      assert frontiers[..] == Initial(g).frontiers;
    }

    method SeedCell(index: nat, value: u64, class_: nat, flags: nat) returns (error: Option<ManifoldError>)
      requires Valid()
      modifies this`stateRoot, cells
      ensures Valid()
      ensures match Seed(old(Abs()), index, value, class_, flags)
              case Seeded(s) => error.None? && Abs() == s
              case SeedFailed(e) => error == Some(e) && Abs() == old(Abs()) && stateRoot == old(stateRoot)
    {
      hide RootOf;
      hide XorOf;
      if submitted != 0 { return Some(SeedClosed); }
      if index >= cells.Length { return Some(InvalidCell); }
      var replacement := SeedCellValue(value, class_, flags);
      RootUpdate(mixer, cells[..], index, replacement);
      stateRoot := XorOf(stateRoot, XorOf(CellFingerprint(mixer, index, cells[index]),
          CellFingerprint(mixer, index, replacement)));
      cells[index] := replacement;
      return None;
    }

    method CheckDraft(d: Draft) returns (error: Option<ManifoldError>)
      requires Valid() && WellFormed(g, d) && CellsInRange(g, d)
      ensures error ==
                if !ReadsPresent(cells[..], d.readSet) then Some(CellMissing) else WriteError(cells[..], d.writeSet)
    {
      var i := 0;
      while i < |d.readSet|
        invariant 0 <= i <= |d.readSet|
        invariant forall k :: 0 <= k < i ==> cells[d.readSet[k].cell].IsPresent()
      {
        if !cells[d.readSet[i].cell].IsPresent() { return Some(CellMissing); }
        i := i + 1;
      }
      i := 0;
      while i < |d.writeSet|
        invariant 0 <= i <= |d.writeSet|
        invariant WriteError(cells[..], d.writeSet) == WriteError(cells[..], d.writeSet[i..])
      {
        var cell := cells[d.writeSet[i].cell];
        assert d.writeSet[i..][0] == d.writeSet[i] && d.writeSet[i..][1..] == d.writeSet[i + 1..];
        if !cell.IsPresent() { return Some(CellMissing); }
        if cell.IsReadOnly() { return Some(CellReadOnly); }
        i := i + 1;
      }
      return None;
    }

    /** Merges the vectors of the dependencies into v; None when one of them is not live. */
    method MergeAll(v: seq<nat>, ids: seq<TransactionId>) returns (r: Option<seq<nat>>)
      requires Valid() && |v| == g.nodes
      ensures r.Some? <==> AllLive(slots[..], ids)
      ensures r.Some? ==> r.value == MergeDependencies(v, slots[..], ids)
    {
      var acc := v;
      var k := 0;
      while k < |ids|
        invariant 0 <= k <= |ids| && AllLive(slots[..], ids[..k]) && acc == MergeDependencies(v, slots[..], ids[..k])
      {
        assert ids[..k + 1][..k] == ids[..k];
        if ids[k].slot >= slots.Length { assert !Live(slots[..], ids[k]); return None; }
        var slot := slots[ids[k].slot];
        if slot.generation != ids[k].generation || slot.status.Free? { assert !Live(slots[..], ids[k]); return None; }
        acc := MergeClocks(acc, slot.vector);
        k := k + 1;
      }
      assert ids[..|ids|] == ids;
      return Some(acc);
    }

    method Submit(origin: nat, stamp: nat, d: Draft) returns (id: Option<TransactionId>, error: Option<ManifoldError>)
      requires Valid() && WellFormed(g, d)
      modifies this`sequence, this`submitted, slots, frontiers
      ensures Valid()
      ensures match AxiomSpec.Submit(g, old(Abs()), origin, stamp, d)
              case Submitted(s, t) => id == Some(t) && error.None? && Abs() == s
              case SubmitFailed(e) => id.None? && error == Some(e) && Abs() == old(Abs())
    {
      hide WellFormed;
      hide MergeDependencies;
      hide RootOf;
      id := None;
      if origin >= g.nodes || g.nodes > 64 { return None, Some(InvalidNode); }
      if d.requiredWitnesses > g.nodes { return None, Some(InvalidQuorum); }
      if !CellsInRange(g, d) { return None, Some(InvalidCell); }
      error := CheckDraft(d);
      if error.Some? { return; }
      var i := FindFree(slots);
      if i == slots.Length || i > U16_MAX { return None, Some(NoCapacity); }
      var merged := MergeAll(frontiers[origin], d.dependencies);
      if merged.None? { return None, Some(InvalidTransaction); }
      SubmitShape(g, Abs(), origin, stamp, d);
      var vector := Advance(merged.value, origin);
      sequence := Next64(sequence);
      submitted := Next64(submitted);
      var generation := slots[i].generation;
      slots[i] := Slot(generation, Prepared, None, d, vector, stamp, {}, sequence, EMPTY_CERTIFICATE);
      frontiers[origin] := vector;
      id, error := Some(TransactionId(i, generation)), None;
    }

    method Attest(id: TransactionId, node: nat) returns (firstTime: bool, error: Option<ManifoldError>)
      requires Valid()
      modifies slots
      ensures Valid()
      ensures match AxiomSpec.Attest(g, old(Abs()), id, node)
              case Attested(s, f) => error.None? && firstTime == f && Abs() == s
              case AttestFailed(e) => error == Some(e) && !firstTime && Abs() == old(Abs())
    {
      hide WellFormed;
      hide RootOf;
      if node >= g.nodes || g.nodes > 64 { return false, Some(InvalidNode); }
      if !Live(slots[..], id) { return false, Some(InvalidTransaction); }
      var slot := slots[id.slot];
      if !slot.status.Prepared? { return false, Some(TransactionNotPrepared); }
      assert SlotShape(g, slot);
      firstTime := node !in slot.witnesses;
      slots[id.slot] := slot.(witnesses := slot.witnesses + {node});
      error := None;
    }

    method Reap(id: TransactionId) returns (error: Option<ManifoldError>)
      requires Valid()
      modifies slots
      ensures Valid()
      ensures match AxiomSpec.Reap(g, old(Abs()), id)
              case Reaped(s) => error.None? && Abs() == s
              case ReapFailed(e) => error == Some(e) && Abs() == old(Abs())
    {
      hide RootOf;
      if !Live(slots[..], id) { return Some(InvalidTransaction); }
      if slots[id.slot].status.Prepared? { return Some(TransactionNotPrepared); }
      var i := 0;
      while i < slots.Length
        invariant 0 <= i <= slots.Length
        invariant forall j :: 0 <= j < i ==> !(slots[j].status.Prepared? && id in slots[j].draft.dependencies)
      {
        if slots[i].status.Prepared? && id in slots[i].draft.dependencies { return Some(SlotReferenced); }
        i := i + 1;
      }
      EmptyDraftShape(g);
      hide WellFormed;
      slots[id.slot] := EmptySlot(NextGeneration(slots[id.slot].generation), g.nodes);
      return None;
    }

    method RejectAt<F>(i: nat, reason: RejectReason, fault: Option<F>) returns (outcome: Outcome<F>)
      requires Valid() && i < slots.Length
      modifies slots
      ensures DriveResult(Abs(), outcome) == Refuse(old(Abs()), i, reason, fault)
      ensures Valid()
    {
      hide WellFormed;
      hide RootOf;
      assert SlotShape(g, slots[i]);
      outcome := Rejected(TransactionId(i, slots[i].generation), reason, fault);
      slots[i] := RejectSlot(slots[i], reason);
    }

    /** The fate of the selected transaction: conflict checks, two-phase write, validation, rollback or commit. */
    method AttemptAt<F>(policy: Policy<F>, i: nat) returns (outcome: Outcome<F>)
      requires Valid() && i < slots.Length
      modifies this`stateRoot, this`epoch, cells, slots
      ensures Valid()
      ensures InRange(|old(cells[..])|, old(slots[i]).draft.writeSet)
      ensures DriveResult(Abs(), outcome) == Attempt(mixer, policy, old(Abs()), i)
    {
      hide RootOf;
      hide ReadsHold;
      hide CheckWrites;
      hide ApplyWrites;
      ghost var s := Abs();
      var slot := slots[i];
      assert SlotShape(g, slot);
      var d := slot.draft;
      assert DistinctCells(d.writeSet);
      hide WellFormed;
      var matches := ReadsMatch(cells, d.readSet);
      if !matches {
        outcome := RejectAt(i, ReadConflict, None);
        return;
      }
      var verdict, values := CheckAndProject(policy, d.kind, cells, d.writeSet);
      if verdict.Denied? {
        outcome := RejectAt(i, PolicyDenied, Some(verdict.fault));
        return;
      }
      if verdict.Conflicting? {
        outcome := RejectAt(i, MutationConflict, None);
        return;
      }
      outcome := WriteAndValidate(policy, i, values);
    }

    method WriteAndValidate<F>(policy: Policy<F>, i: nat, values: seq<u64>) returns (outcome: Outcome<F>)
      requires Valid() && i < slots.Length
      requires InRange(cells.Length, slots[i].draft.writeSet) && DistinctCells(slots[i].draft.writeSet)
                && |slots[i].draft.writeSet| <= g.writeMax
      requires |values| == |slots[i].draft.writeSet| && Projected(cells[..], slots[i].draft.writeSet, values)
      modifies this`stateRoot, this`epoch, cells, slots
      ensures Valid()
      ensures var before := old(Abs());
              var after := ApplyWrites(before.cells, before.slots[i].draft.writeSet);
              var verdict := policy.validate(after);
              DriveResult(Abs(), outcome) ==
                if verdict.Some? then Refuse(before, i, InvariantViolation, Some(verdict.value))
                else DriveResult(Commit(mixer, before, i, after),
                                 CommittedWith(CertificateFor(mixer, before, i, after)))
    {
      hide RootOf;
      hide ApplyWrites;
      hide WellFormed;
      hide InRange;
      hide DistinctCells;
      ghost var before := cells[..];
      var slot := slots[i];
      assert SlotShape(g, slot);
      var stateBefore := stateRoot;
      var root, undo := ApplyAndLog(mixer, cells, stateRoot, slot.draft.writeSet, values, g.writeMax);
      stateRoot := root;
      var fault := policy.validate(cells[..]);
      if fault.Some? {
        Rollback(cells, undo, before, slot.draft.writeSet);
        stateRoot := stateBefore;
        outcome := RejectAt(i, InvariantViolation, Some(fault.value));
        return;
      }
      epoch := Next64(epoch);
      var certificate := Certificate(TransactionId(i, slot.generation), slot.draft.kind, slot.draft.priority, epoch,
                                     slot.sequence, slot.stamp, mixer.vector(slot.vector), mixer.draft(slot.draft),
                                     stateBefore, stateRoot, slot.witnesses);
      slots[i] := slot.(status := Committed, reason := None, certificate := certificate);
      outcome := CommittedWith(certificate);
    }

    method Drive<F>(now: nat, policy: Policy<F>) returns (outcome: Outcome<F>)
      requires Valid()
      modifies this`stateRoot, this`epoch, cells, slots
      ensures Valid()
      ensures Drives(g, mixer, policy, old(Abs()), now, DriveResult(Abs(), outcome))
    {
      hide RootOf;
      hide Eligible;
      hide Doomed;
      hide Attempt;
      ghost var s := Abs();
      var doomed := FindDoomed(slots, now);
      if doomed < slots.Length {
        outcome := RejectAt(doomed, DoomReason(slots[doomed].draft, now), None);
        return;
      }
      var prepared := CountPrepared(slots);
      if prepared == 0 { return Idle; }
      var best := SelectCandidate(slots);
      if best.None? { return Blocked(prepared); }
      assert SlotShape(g, slots[best.value]);
      hide SlotShape;
      hide Selected;
      outcome := AttemptAt(policy, best.value);
      assert Selected(s.slots, best.value) && SlotShape(g, s.slots[best.value])
            && DriveResult(Abs(), outcome) == Attempt(mixer, policy, s, best.value);
    }
  }
}
