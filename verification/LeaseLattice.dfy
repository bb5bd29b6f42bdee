/** The lease delegation tree (kernel/boulder/src/lease_lattice.rs) with the history of every lease ever
    issued: quotas over whole runs, what an admission implies about all ancestors, and revocation. */
module LeaseLattice {
  import opened ModularSums
  import opened FiniteSums
  import opened Arithmetic

  const ROOT := 0xFFFF
  const MAX_DEPTH := 8
  const DELEGATE := 31
  const U16_MAX := 0xFFFF
  const U32_MAX := 0xFFFF_FFFF

  datatype Option<T> = None | Some(value: T)

  /** A rights word is the set of its one bits. */
  type Rights = set<nat>

  datatype Token = Token(slot: nat, generation: nat, tag: nat)

  datatype Record = Record(active: bool, generation: nat, depth: nat, rights: Rights, parentSlot: nat,
                           parentGeneration: nat, notBefore: nat, expiresAt: nat, quotaLimit: nat, uses: nat, tag: nat)

  function EmptyRecord(generation: nat): Record {
    Record(false, generation, 0, {}, ROOT, 0, 0, 0, 0, 0, 0)
  }

  datatype LeaseError =
    | Capacity | Invalid | Forged | NotYetValid | Expired | Exhausted | MissingRight
    | CannotDelegate | RightsAmplification | InvalidLifetime | InvalidQuota | DelegationDepth

  datatype Admission = Admission(rights: Rights, remainingUses: nat, expiresAt: nat, depth: nat)

  function NextGeneration(g: nat): nat {
    var next := (g + 1) % 0x1_0000;
    if next == 0 then 1 else next
  }

  function Saturated(x: nat): nat { if x > U32_MAX then U32_MAX else x }

  function NextNonce(nonce: nat): nat {
    var next := (nonce + 1) % 0x1_0000_0000_0000_0000;
    if next == 0 then 1 else next
  }

  /** Generations run through 1 to 65535 and nonces through 1 to 2^64 - 1 before any comes back. */
  lemma CountersCycle(x: nat)
    ensures NextGeneration(1 + x % 65535) == 1 + (x + 1) % 65535
    ensures NextNonce(1 + x % 0xFFFF_FFFF_FFFF_FFFF) == 1 + (x + 1) % 0xFFFF_FFFF_FFFF_FFFF
  {
    NextResidue(65535, x);
    NextResidue(0xFFFF_FFFF_FFFF_FFFF, x);
    Wraps(x % 65535, x % 0xFFFF_FFFF_FFFF_FFFF);
  }

  lemma Wraps(g: nat, n: nat)
    requires g < 65535 && n < 0xFFFF_FFFF_FFFF_FFFF
    ensures NextGeneration(1 + g) == if g == 65534 then 1 else g + 2
    ensures NextNonce(1 + n) == if n == 0xFFFF_FFFF_FFFF_FFFE then 1 else n + 2
  {
  }

  // ---- the history -------------------------------------------------------

  /** A lease as issued: who delegated it, how much, under which token, what it admitted itself, and whether
      it stands. */
  datatype Lease = Lease(parent: Option<nat>, quota: nat, token: Token, admitted: nat, live: bool)

  datatype History = History(
    leases: seq<Lease>,      // every lease ever issued, in order
    occupant: seq<nat>,      // the lease each slot was last given to
    bumps: seq<nat>          // how often each slot's generation has advanced
  )

  function Child(leases: seq<Lease>, c: int, l: nat): int {
    if 0 <= c < |leases| && leases[c].parent == Some(l) then leases[c].quota else 0
  }

  /** The quota lease l has handed on. */
  function Delegated(leases: seq<Lease>, l: nat): int {
    Sum(c => Child(leases, c, l), |leases|)
  }

  function Spent(leases: seq<Lease>, l: nat): int
    requires l < |leases|
  {
    leases[l].admitted + Delegated(leases, l)
  }

  /** Parents precede their children, and nobody hands on or uses more than it has. */
  ghost predicate Ledger(leases: seq<Lease>) {
    && (forall l :: 0 <= l < |leases| && leases[l].parent.Some? ==> leases[l].parent.value < l)
    && (forall l :: 0 <= l < |leases| ==> Spent(leases, l) <= leases[l].quota)
  }

  /** Lease x is l or descends from it. */
  ghost predicate Under(leases: seq<Lease>, x: nat, l: nat)
    requires Ledger(leases)
  {
    x < |leases| && (x == l || (leases[x].parent.Some? && Under(leases, leases[x].parent.value, l)))
  }

  ghost function GrantedBy(leases: seq<Lease>, x: int, l: nat): int
    requires Ledger(leases)
  {
    if 0 <= x < |leases| && Under(leases, x, l) then leases[x].admitted else 0
  }

  /** Every admission ever granted through l and all leases below it. */
  ghost function Granted(leases: seq<Lease>, l: nat): int
    requires Ledger(leases)
  {
    Sum(x => GrantedBy(leases, x, l), |leases|)
  }

  // ---- the quota theorem -------------------------------------------------

  /** Leases before m count what they admitted; later ones delegated by them count their whole quota. */
  ghost function Frontier(leases: seq<Lease>, l: nat, m: int, x: int): int
    requires Ledger(leases)
  {
    if !(0 <= x < |leases|) then 0
    else if x < m then GrantedBy(leases, x, l)
    else if leases[x].parent.Some? && leases[x].parent.value < m && Under(leases, leases[x].parent.value, l)
    then leases[x].quota
    else 0
  }

  ghost function FrontierSum(leases: seq<Lease>, l: nat, m: int): int
    requires Ledger(leases)
  {
    Sum(x => Frontier(leases, l, m, x), |leases|)
  }

  lemma {:induction false} UnderIsLater(leases: seq<Lease>, x: nat, l: nat)
    requires Ledger(leases) && Under(leases, x, l)
    ensures l <= x
  {
    hide Spent;
    if x != l { UnderIsLater(leases, leases[x].parent.value, l); }
  }

  /** Moving the frontier past lease m replaces its quota by what it spent. */
  lemma FrontierStep(leases: seq<Lease>, l: nat, m: nat)
    requires Ledger(leases) && l < m < |leases|
    ensures FrontierSum(leases, l, m + 1) <= FrontierSum(leases, l, m)
  {
    var n := |leases|;
    if Under(leases, m, l) {
      var base := x => Frontier(leases, l, m, x) + Child(leases, x, m);
      forall x | 0 <= x < n
        ensures Frontier(leases, l, m + 1, x) == base(x) + if x == m then leases[m].admitted - leases[m].quota else 0
      {
        FrontierAt(leases, l, m, x);
      }
      SumChange(x => Frontier(leases, l, m + 1, x), base, n, m, leases[m].admitted - leases[m].quota);
      var f := x => Frontier(leases, l, m, x);
      var d := x => Child(leases, x, m);
      SumAdd(f, d, n);
      SumEqual(base, x => f(x) + d(x), n);
      assert Spent(leases, m) <= leases[m].quota;
    } else {
      forall x | 0 <= x < n ensures Frontier(leases, l, m + 1, x) == Frontier(leases, l, m, x) {
        FrontierAt(leases, l, m, x);
      }
      SumEqual(x => Frontier(leases, l, m + 1, x), x => Frontier(leases, l, m, x), n);
    }
  }

  lemma FrontierAt(leases: seq<Lease>, l: nat, m: nat, x: nat)
    requires Ledger(leases) && l < m < |leases| && x < |leases|
    ensures Frontier(leases, l, m + 1, x) == Frontier(leases, l, m, x) +
            if Under(leases, m, l) then
              Child(leases, x, m) + (if x == m then leases[m].admitted - leases[m].quota else 0)
            else 0
  {
    hide Spent;
    assert leases[x].parent.Some? ==> leases[x].parent.value < x;
  }

  lemma {:induction false} FrontierFalls(leases: seq<Lease>, l: nat, m: nat)
    requires Ledger(leases) && l < m <= |leases|
    ensures FrontierSum(leases, l, m) <= FrontierSum(leases, l, l + 1)
  {
    hide FrontierSum;
    hide Ledger;
    if m > l + 1 {
      FrontierFalls(leases, l, m - 1);
      FrontierStep(leases, l, m - 1);
    }
  }

  lemma FrontierStart(leases: seq<Lease>, l: nat)
    requires Ledger(leases) && l < |leases|
    ensures FrontierSum(leases, l, l + 1) == Spent(leases, l)
  {
    var n := |leases|;
    var d := x => Child(leases, x, l);
    forall x | 0 <= x < n
      ensures Frontier(leases, l, l + 1, x) == Child(leases, x, l) + if x == l then leases[l].admitted else 0
    {
      FrontierStartAt(leases, l, x);
    }
    SumChange(x => Frontier(leases, l, l + 1, x), d, n, l, leases[l].admitted);
  }

  lemma FrontierStartAt(leases: seq<Lease>, l: nat, x: nat)
    requires Ledger(leases) && l < |leases| && x < |leases|
    ensures Frontier(leases, l, l + 1, x) == Child(leases, x, l) + if x == l then leases[l].admitted else 0
  {
    hide Spent;
    assert leases[x].parent.Some? ==> leases[x].parent.value < x;
    if x <= l {
      if Under(leases, x, l) { UnderIsLater(leases, x, l); }
    } else if leases[x].parent.Some? && leases[x].parent.value < l + 1 && Under(leases, leases[x].parent.value, l) {
      UnderIsLater(leases, leases[x].parent.value, l);
    }
  }

  /** Conservation of quota: all admissions through a lease and everything delegated below it, over the
      whole history, stay within the quota the lease was issued with. */
  lemma QuotaConserved(leases: seq<Lease>, l: nat)
    requires Ledger(leases) && l < |leases|
    ensures Granted(leases, l) <= leases[l].quota
  {
    var n := |leases|;
    FrontierStart(leases, l);
    FrontierFalls(leases, l, n);
    SumEqual(x => Frontier(leases, l, n, x), x => GrantedBy(leases, x, l), n);
  }

  // ---- slots and their leases --------------------------------------------

  /** The lease held by an active slot, with the slot's accounts. */
  ghost predicate Accounts(records: seq<Record>, h: History, s: nat)
    requires s < |records| == |h.occupant| == |h.bumps|
  {
    var r, l := records[s], h.occupant[s];
    && 1 <= r.generation <= U16_MAX
    && (!r.active ==> Blank(r))
    && (r.active ==>
          && l < |h.leases| && h.leases[l].live && r.quotaLimit == h.leases[l].quota <= U32_MAX
          && r.uses == Spent(h.leases, l) && h.leases[l].token == Token(s, r.generation, r.tag))
  }

  /** A free slot remembers nothing but its generation. */
  predicate Blank(r: Record) {
    && r.depth == 0 && r.rights == {} && r.parentSlot == ROOT && r.parentGeneration == 0 && r.notBefore == 0
    && r.expiresAt == 0 && r.quotaLimit == 0 && r.uses == 0 && r.tag == 0
  }

  /** No generation has wrapped yet. */
  ghost predicate Unwrapped(h: History) {
    forall s :: 0 <= s < |h.bumps| ==> h.bumps[s] < U16_MAX
  }

  /** The record of s narrows the record of its parent slot p, which still holds the lease it came from. */
  ghost predicate Narrows(records: seq<Record>, h: History, s: nat, p: nat)
    requires s < |records| == |h.occupant| && p < |records|
  {
    var r, q := records[s], records[p];
    && q.active && r.rights <= q.rights && q.notBefore <= r.notBefore && r.expiresAt <= q.expiresAt
    && r.depth == q.depth + 1
    && h.occupant[s] < |h.leases| && h.leases[h.occupant[s]].parent == Some(h.occupant[p])
  }

  /** What a slot knows of its parent, as long as generations identify leases. */
  ghost predicate Lineage(records: seq<Record>, h: History, s: nat)
    requires s < |records| == |h.occupant| == |h.bumps|
  {
    var r := records[s];
    && r.generation == 1 + h.bumps[s]
    && (r.active ==> r.depth <= MAX_DEPTH)
    && (r.active && r.parentSlot == ROOT ==>
          r.depth == 0 && h.occupant[s] < |h.leases| && h.leases[h.occupant[s]].parent == None)
    && (r.active && r.parentSlot != ROOT ==>
          && 1 <= r.depth && r.parentSlot < |records| && r.parentGeneration <= records[r.parentSlot].generation
          && (records[r.parentSlot].generation == r.parentGeneration ==> Narrows(records, h, s, r.parentSlot)))
  }

  /** A lease that stands is held by the slot its token names; one that is gone has a generation that slot
      has left behind, as long as generations identify leases. */
  ghost predicate Placed(records: seq<Record>, h: History, l: nat)
    requires l < |h.leases| && |records| == |h.occupant|
  {
    var x := h.leases[l];
    && x.token.slot < |records|
    && (x.live ==> records[x.token.slot].active && h.occupant[x.token.slot] == l)
    && (!x.live && Unwrapped(h) ==> x.token.generation < records[x.token.slot].generation)
  }

  ghost predicate Tokens(records: seq<Record>, h: History)
    requires |records| == |h.occupant|
  {
    forall l :: 0 <= l < |h.leases| ==> Placed(records, h, l)
  }

  ghost predicate Inv(records: seq<Record>, h: History) {
    && |records| == |h.occupant| == |h.bumps| <= ROOT
    && Ledger(h.leases)
    && (forall s :: 0 <= s < |records| ==> Accounts(records, h, s))
    && (forall s, t :: 0 <= s < t < |records| && records[s].active && records[t].active ==>
                         h.occupant[s] != h.occupant[t])
    && (Unwrapped(h) ==> forall s :: 0 <= s < |records| ==> Lineage(records, h, s))
    && Tokens(records, h)
  }

  // ---- the ancestry walk -------------------------------------------------

  /** The walk of validate_ancestry; None is success. */
  function Walk(records: seq<Record>, current: nat, traversed: nat): Option<LeaseError>
    requires current < |records|
    decreases MAX_DEPTH + 1 - traversed
  {
    var r := records[current];
    if r.parentSlot == ROOT then None
    else if traversed + 1 > MAX_DEPTH then Some(DelegationDepth)
    else if r.parentSlot >= |records| then Some(Invalid)
    else if !records[r.parentSlot].active || records[r.parentSlot].generation != r.parentGeneration then Some(Invalid)
    else Walk(records, r.parentSlot, traversed + 1)
  }

  /** The k-th ancestor slot. */
  function Up(records: seq<Record>, s: nat, k: nat): Option<nat>
    requires s < |records|
    decreases k
  {
    if k == 0 then Some(s)
    else if records[s].parentSlot == ROOT || records[s].parentSlot >= |records| then None
    else Up(records, records[s].parentSlot, k - 1)
  }

  /** The depth error of the walk cannot occur. */
  lemma {:induction false} WalkWithinDepth(records: seq<Record>, h: History, s: nat, traversed: nat)
    requires Inv(records, h) && Unwrapped(h) && s < |records| && records[s].active
    requires traversed + records[s].depth <= MAX_DEPTH
    ensures Walk(records, s, traversed) != Some(DelegationDepth)
    decreases MAX_DEPTH - traversed
  {
    hide Ledger;
    hide Accounts;
    assert Lineage(records, h, s);
    var r := records[s];
    if r.parentSlot != ROOT && records[r.parentSlot].generation == r.parentGeneration {
      WalkWithinDepth(records, h, r.parentSlot, traversed + 1);
    }
  }

  /** A walk that succeeds from a lease inside its window shows every ancestor active, inside its own
      window and with at least these rights, although the walk compares generations only. */
  lemma {:induction false} WalkSound(records: seq<Record>, h: History, s: nat, traversed: nat, now: nat, k: nat)
    requires Inv(records, h) && Unwrapped(h) && s < |records| && records[s].active && Walk(records, s, traversed).None?
    requires records[s].notBefore <= now <= records[s].expiresAt
    ensures match Up(records, s, k)
            case None => true
            case Some(a) =>
              && a < |records| && records[a].active && records[a].notBefore <= now <= records[a].expiresAt
              && records[s].rights <= records[a].rights
    decreases k
  {
    hide Ledger;
    hide Accounts;
    assert Lineage(records, h, s);
    var r := records[s];
    if k > 0 && r.parentSlot != ROOT {
      WalkSound(records, h, r.parentSlot, traversed + 1, now, k - 1);
    }
  }

  /** A walk that succeeds shows every lease this one was ever delegated from still standing: revoking
      any of them makes the walk fail from then on. */
  lemma {:induction false} WalkUnrevoked(records: seq<Record>, h: History, s: nat, traversed: nat, l: nat)
    requires Inv(records, h) && Unwrapped(h) && s < |records| && records[s].active && Walk(records, s, traversed).None?
    requires Under(h.leases, h.occupant[s], l)
    ensures l < |h.leases| && h.leases[l].live
    decreases MAX_DEPTH + 1 - traversed
  {
    assert Accounts(records, h, s) && Lineage(records, h, s);
    hide Ledger;
    hide Accounts;
    var r := records[s];
    if l != h.occupant[s] {
      WalkUnrevoked(records, h, r.parentSlot, traversed + 1, l);
    }
  }

  // ---- the effect of each operation --------------------------------------

  lemma ChildSums(a: seq<Lease>, b: seq<Lease>, l: nat)
    requires |a| == |b| && forall c :: 0 <= c < |a| ==> a[c].parent == b[c].parent && a[c].quota == b[c].quota
    ensures Delegated(a, l) == Delegated(b, l)
  {
    SumEqual(c => Child(a, c, l), c => Child(b, c, l), |a|);
  }

  lemma DelegatedAppend(leases: seq<Lease>, x: Lease, l: nat)
    ensures Delegated(leases + [x], l) == Delegated(leases, l) + if x.parent == Some(l) then x.quota else 0
  {
    SumEqual(c => Child(leases + [x], c, l), c => Child(leases, c, l), |leases|);
  }

  lemma NoChildrenYet(leases: seq<Lease>, l: nat)
    requires Ledger(leases) && l >= |leases|
    ensures Delegated(leases, l) == 0
  {
    hide Spent;
    SumConstant(c => Child(leases, c, l), |leases|, 0);
  }

  /** Revoking or admitting changes one lease's own fields only. */
  lemma LedgerUpdate(leases: seq<Lease>, l: nat, x: Lease)
    requires Ledger(leases) && l < |leases| && x.parent == leases[l].parent && x.quota == leases[l].quota
    requires x.admitted - leases[l].admitted + Spent(leases, l) <= x.quota
    ensures Ledger(leases[l := x])
    ensures forall m :: 0 <= m < |leases| && m != l ==> Spent(leases[l := x], m) == Spent(leases, m)
    ensures Spent(leases[l := x], l) == Spent(leases, l) + x.admitted - leases[l].admitted
  {
    var after := leases[l := x];
    forall m: nat | m < |leases| ensures Delegated(after, m) == Delegated(leases, m) {
      ChildSums(after, leases, m);
    }
    hide Delegated;
  }

  /** A new lease, paid for by its parent. */
  lemma LedgerAppend(leases: seq<Lease>, x: Lease)
    requires Ledger(leases) && x.admitted == 0
    requires x.parent.Some? ==>
               x.parent.value < |leases| && Spent(leases, x.parent.value) + x.quota <= leases[x.parent.value].quota
    ensures Ledger(leases + [x])
    ensures forall m :: 0 <= m < |leases| ==>
                          Spent(leases + [x], m) == Spent(leases, m) + if x.parent == Some(m) then x.quota else 0
    ensures Spent(leases + [x], |leases|) == 0
  {
    var after := leases + [x];
    forall m: nat | m <= |leases|
      ensures Delegated(after, m) == Delegated(leases, m) + if x.parent == Some(m) then x.quota else 0
    {
      DelegatedAppend(leases, x, m);
    }
    NoChildrenYet(leases, |leases|);
    hide Delegated;
  }

  function Bumped(h: History, s: nat): seq<nat>
    requires s < |h.bumps|
  {
    h.bumps[s := h.bumps[s] + 1]
  }

  lemma NextGenerationStep(g: nat, b: nat)
    requires 1 <= g <= U16_MAX
    ensures 1 <= NextGeneration(g) <= U16_MAX
    ensures g == 1 + b && b + 1 < U16_MAX ==> NextGeneration(g) == g + 1
  {
  }

  // -- admission: one more use of one lease

  ghost function AfterAdmit(h: History, s: nat): History
    requires s < |h.occupant| && h.occupant[s] < |h.leases|
  {
    var l := h.occupant[s];
    h.(leases := h.leases[l := h.leases[l].(admitted := h.leases[l].admitted + 1)])
  }

  lemma AdmitKeeps(records: seq<Record>, h: History, s: nat)
    requires Inv(records, h) && s < |records| && records[s].active && records[s].uses < records[s].quotaLimit
    ensures h.occupant[s] < |h.leases|
    ensures Inv(records[s := records[s].(uses := records[s].uses + 1)], AfterAdmit(h, s))
  {
    hide Tokens;
    hide Lineage;
    assert Accounts(records, h, s);
    AdmitTokens(records, h, s);
    hide Accounts;
    var records', h' := records[s := records[s].(uses := records[s].uses + 1)], AfterAdmit(h, s);
    AdmitAccounts(records, h, s, s);
    forall t | 0 <= t < |records| ensures Accounts(records', h', t) {
      AdmitAccounts(records, h, s, t);
    }
    hide Ledger;
    if Unwrapped(h') {
      forall t | 0 <= t < |records| ensures Lineage(records', h', t) {
        AdmitLineage(records, h, s, t);
      }
    }
  }

  lemma AdmitAccounts(records: seq<Record>, h: History, s: nat, t: nat)
    requires Inv(records, h) && s < |records| && records[s].active && records[s].uses < records[s].quotaLimit
    requires t < |records| && h.occupant[s] < |h.leases|
    ensures Ledger(AfterAdmit(h, s).leases)
    ensures Accounts(records[s := records[s].(uses := records[s].uses + 1)], AfterAdmit(h, s), t)
  {
    hide Tokens;
    hide Lineage;
    assert Accounts(records, h, s) && Accounts(records, h, t);
    var l := h.occupant[s];
    LedgerUpdate(h.leases, l, h.leases[l].(admitted := h.leases[l].admitted + 1));
    hide Ledger;
    hide Spent;
    if t != s && records[t].active { OneOccupant(records, h, s, t); }
  }

  lemma OneOccupant(records: seq<Record>, h: History, s: nat, t: nat)
    requires Inv(records, h) && s < |records| && t < |records| && s != t && records[s].active && records[t].active
    ensures h.occupant[s] != h.occupant[t]
  {
  }

  lemma AdmitLineage(records: seq<Record>, h: History, s: nat, t: nat)
    requires |records| == |h.occupant| == |h.bumps| && s < |records| && t < |records| && h.occupant[s] < |h.leases|
    requires Lineage(records, h, t)
    ensures Lineage(records[s := records[s].(uses := records[s].uses + 1)], AfterAdmit(h, s), t)
  {
  }

  lemma AdmitTokens(records: seq<Record>, h: History, s: nat)
    requires |records| == |h.occupant| && Tokens(records, h) && s < |records| && h.occupant[s] < |h.leases|
    ensures Tokens(records[s := records[s].(uses := records[s].uses + 1)], AfterAdmit(h, s))
  {
    var records', h' := records[s := records[s].(uses := records[s].uses + 1)], AfterAdmit(h, s);
    forall m: nat | m < |h.leases| ensures Placed(records', h', m) {
      assert Placed(records, h, m);
    }
  }

  // -- revocation: the slot is emptied and its generation advances

  ghost function AfterRevoke(h: History, s: nat): History
    requires s < |h.occupant| == |h.bumps| && h.occupant[s] < |h.leases|
  {
    var l := h.occupant[s];
    h.(leases := h.leases[l := h.leases[l].(live := false)], bumps := Bumped(h, s))
  }

  lemma RevokeKeeps(records: seq<Record>, h: History, s: nat)
    requires Inv(records, h) && s < |records| && records[s].active
    ensures h.occupant[s] < |h.leases|
    ensures Inv(records[s := EmptyRecord(NextGeneration(records[s].generation))], AfterRevoke(h, s))
  {
    assert Accounts(records, h, s);
    var l := h.occupant[s];
    LedgerUpdate(h.leases, l, h.leases[l].(live := false));
    var records', h' := records[s := EmptyRecord(NextGeneration(records[s].generation))], AfterRevoke(h, s);
    hide Ledger;
    hide Spent;
    NextGenerationStep(records[s].generation, h.bumps[s]);
    RevokeTokens(records, h, s);
    hide Tokens;
    hide NextGeneration;
    forall t | 0 <= t < |records| ensures Accounts(records', h', t) {
      assert Accounts(records, h, t);
      assert t != s && records[t].active ==> h.occupant[t] != l;
    }
    if Unwrapped(h') {
      BumpedUnwrapped(h, s, h');
      forall t | 0 <= t < |records| ensures Lineage(records', h', t) {
        assert Lineage(records, h, t) && Lineage(records, h, s);
      }
    }
  }

  /** The revoked lease falls behind the generation of its slot, and the others stay where they are. */
  lemma RevokeTokens(records: seq<Record>, h: History, s: nat)
    requires Inv(records, h) && s < |records| && records[s].active && h.occupant[s] < |h.leases|
    ensures Tokens(records[s := EmptyRecord(NextGeneration(records[s].generation))], AfterRevoke(h, s))
  {
    hide Ledger;
    hide Spent;
    hide NextGeneration;
    var l := h.occupant[s];
    assert Accounts(records, h, s);
    NextGenerationStep(records[s].generation, h.bumps[s]);
    var records', h' := records[s := EmptyRecord(NextGeneration(records[s].generation))], AfterRevoke(h, s);
    forall m: nat | m < |h.leases| ensures Placed(records', h', m) {
      assert Placed(records, h, m);
      if Unwrapped(h') {
        BumpedUnwrapped(h, s, h');
        assert Lineage(records, h, s);
      }
    }
  }

  lemma BumpedUnwrapped(h: History, s: nat, h': History)
    requires s < |h.bumps| && h'.bumps == Bumped(h, s) && Unwrapped(h')
    ensures Unwrapped(h) && h.bumps[s] + 1 < U16_MAX
  {
    assert h'.bumps[s] == h.bumps[s] + 1;
    forall t | 0 <= t < |h.bumps| ensures h.bumps[t] < U16_MAX {
      assert h'.bumps[t] >= h.bumps[t];
    }
  }

  // -- issue: a free slot gets a new lease

  ghost function AfterIssue(h: History, s: nat, parent: Option<nat>, quota: nat, token: Token): History
    requires s < |h.occupant| == |h.bumps|
  {
    h.(leases := h.leases + [Lease(parent, quota, token, 0, true)], occupant := h.occupant[s := |h.leases|],
       bumps := Bumped(h, s))
  }

  /** The token of a record. */
  function TokenOf(records: seq<Record>, s: nat): Token
    requires s < |records|
  {
    Token(s, records[s].generation, records[s].tag)
  }

  /** A slot that was free holds the new lease; leases that held it before stay behind its generation. */
  lemma IssueTokens(records: seq<Record>, h: History, s: nat, parent: Option<nat>, records': seq<Record>)
    requires Inv(records, h) && s < |records| == |records'| && !records[s].active
    requires records'[s].active && records'[s].generation == NextGeneration(records[s].generation)
    requires forall t :: 0 <= t < |records| && t != s ==>
                           records'[t].active == records[t].active && records'[t].generation == records[t].generation
    ensures Tokens(records', AfterIssue(h, s, parent, records'[s].quotaLimit, TokenOf(records', s)))
  {
    hide Ledger;
    hide Spent;
    hide NextGeneration;
    assert Accounts(records, h, s);
    NextGenerationStep(records[s].generation, h.bumps[s]);
    var h' := AfterIssue(h, s, parent, records'[s].quotaLimit, TokenOf(records', s));
    forall m: nat | m < |h'.leases| ensures Placed(records', h', m) {
      if m < |h.leases| {
        assert Placed(records, h, m);
        if Unwrapped(h') {
          BumpedUnwrapped(h, s, h');
          assert Lineage(records, h, s);
        }
      }
    }
  }

  lemma IssueRootKeeps(records: seq<Record>, h: History, s: nat, r: Record)
    requires Inv(records, h) && s < |records| && !records[s].active && r.quotaLimit <= U32_MAX
    requires && r.active && r.generation == NextGeneration(records[s].generation) && r.depth == 0
             && r.parentSlot == ROOT && r.uses == 0
    ensures Inv(records[s := r], AfterIssue(h, s, None, r.quotaLimit, Token(s, r.generation, r.tag)))
  {
    var token := Token(s, r.generation, r.tag);
    var records', h' := records[s := r], AfterIssue(h, s, None, r.quotaLimit, token);
    LedgerAppend(h.leases, Lease(None, r.quotaLimit, token, 0, true));
    IssueTokens(records, h, s, None, records');
    hide Tokens;
    assert Accounts(records, h, s);
    NextGenerationStep(records[s].generation, h.bumps[s]);
    hide NextGeneration;
    hide Ledger;
    hide Spent;
    forall t | 0 <= t < |records|
      ensures Accounts(records', h', t) && (t != s && records[t].active ==> h.occupant[t] < |h.leases|)
    {
      assert Accounts(records, h, t);
    }
    if Unwrapped(h') {
      BumpedUnwrapped(h, s, h');
      forall t | 0 <= t < |records| ensures Lineage(records', h', t) {
        assert Lineage(records, h, t) && Lineage(records, h, s);
      }
    }
  }

  lemma AttenuateKeeps(records: seq<Record>, h: History, p: nat, s: nat, r: Record)
    requires Inv(records, h) && s < |records| && p < |records| && !records[s].active && records[p].active
    requires && r.active && r.generation == NextGeneration(records[s].generation)
             && r.depth == records[p].depth + 1 <= MAX_DEPTH
    requires r.parentSlot == p && r.parentGeneration == records[p].generation && r.uses == 0 && r.quotaLimit <= U32_MAX
    requires r.rights <= records[p].rights && records[p].notBefore <= r.notBefore && r.expiresAt <= records[p].expiresAt
    requires records[p].uses + r.quotaLimit <= records[p].quotaLimit
    ensures Inv(records[p := records[p].(uses := records[p].uses + r.quotaLimit)][s := r],
                AfterIssue(h, s, Some(h.occupant[p]), r.quotaLimit, Token(s, r.generation, r.tag)))
  {
    var q := h.occupant[p];
    var token := Token(s, r.generation, r.tag);
    var records' := records[p := records[p].(uses := records[p].uses + r.quotaLimit)][s := r];
    var h' := AfterIssue(h, s, Some(q), r.quotaLimit, token);
    assert Accounts(records, h, p) && Accounts(records, h, s);
    LedgerAppend(h.leases, Lease(Some(q), r.quotaLimit, token, 0, true));
    IssueTokens(records, h, s, Some(q), records');
    hide Tokens;
    NextGenerationStep(records[s].generation, h.bumps[s]);
    hide NextGeneration;
    hide Ledger;
    hide Spent;
    forall t | 0 <= t < |records|
      ensures Accounts(records', h', t) && (t != s && records[t].active ==> h.occupant[t] < |h.leases|)
    {
      assert Accounts(records, h, t);
      assert t != p && records[t].active ==> h.occupant[t] != q;
    }
    if Unwrapped(h') {
      BumpedUnwrapped(h, s, h');
      hide Accounts;
      forall t | 0 <= t < |records| ensures Lineage(records', h', t) {
        assert Lineage(records, h, t) && Lineage(records, h, s) && Lineage(records, h, p);
        AttenuateLineage(records, h, p, s, r, t);
      }
    }
  }

  /** Lineage of one slot after a delegation, when generations have not wrapped. */
  lemma AttenuateLineage(records: seq<Record>, h: History, p: nat, s: nat, r: Record, t: nat)
    requires |records| == |h.occupant| == |h.bumps| <= ROOT && s < |records| && p < |records| && t < |records| && s != p
    requires && !records[s].active && records[p].active && h.occupant[p] < |h.leases|
             && (records[t].active ==> h.occupant[t] < |h.leases|)
    requires Lineage(records, h, t) && Lineage(records, h, s) && Lineage(records, h, p)
    requires r.active && r.generation == records[s].generation + 1 && r.depth == records[p].depth + 1 <= MAX_DEPTH
    requires r.parentSlot == p && r.parentGeneration == records[p].generation
    requires r.rights <= records[p].rights && records[p].notBefore <= r.notBefore && r.expiresAt <= records[p].expiresAt
    ensures Lineage(records[p := records[p].(uses := records[p].uses + r.quotaLimit)][s := r],
                AfterIssue(h, s, Some(h.occupant[p]), r.quotaLimit, Token(s, r.generation, r.tag)), t)
  {
  }

  // ---- checks, in the order the operations make them ---------------------

  datatype Lookup = Ok(index: nat) | Err(error: LeaseError)

  function FindToken(records: seq<Record>, token: Token): (r: Lookup)
    ensures r.Ok? ==> r.index < |records| && records[r.index].active
  {
    if token.slot >= |records| then Err(Invalid)
    else if !records[token.slot].active || records[token.slot].generation != token.generation then Err(Invalid)
    else if records[token.slot].tag != token.tag then Err(Forged)
    else Ok(token.slot)
  }

  function FindTimed(records: seq<Record>, token: Token, now: nat): (r: Lookup)
    ensures r.Ok? ==>
              && r.index < |records| && records[r.index].active
              && records[r.index].notBefore <= now <= records[r.index].expiresAt
  {
    match FindToken(records, token)
    case Err(e) => Err(e)
    case Ok(i) =>
      if now < records[i].notBefore then Err(NotYetValid)
      else if now > records[i].expiresAt then Err(Expired)
      else Ok(i)
  }

  predicate AllActive(records: seq<Record>) {
    forall s :: 0 <= s < |records| ==> records[s].active
  }

  ghost predicate FirstInactive(records: seq<Record>, s: nat) {
    s < |records| && !records[s].active && forall t :: 0 <= t < s ==> records[t].active
  }

  function RootError(records: seq<Record>, notBefore: nat, expiresAt: nat, quota: nat): Option<LeaseError> {
    if expiresAt == 0 || expiresAt <= notBefore then Some(InvalidLifetime)
    else if quota == 0 then Some(InvalidQuota)
    else if AllActive(records) then Some(Capacity)
    else None
  }

  function AttenuateError(records: seq<Record>, token: Token, rights: Rights, expiresAt: nat, quota: nat, now: nat)
    : Option<LeaseError>
  {
    if quota == 0 then Some(InvalidQuota)
    else
      match FindTimed(records, token, now)
      case Err(e) => Some(e)
      case Ok(p) =>
        if Walk(records, p, 0).Some? then Walk(records, p, 0)
        else if DELEGATE !in records[p].rights then Some(CannotDelegate)
        else if records[p].depth >= MAX_DEPTH then Some(DelegationDepth)
        else if !(rights <= records[p].rights) then Some(RightsAmplification)
        else if expiresAt > records[p].expiresAt || expiresAt <= now then Some(InvalidLifetime)
        else if records[p].uses + quota > records[p].quotaLimit then Some(InvalidQuota)
        else if AllActive(records) then Some(Capacity)
        else None
  }

  function AdmitError(records: seq<Record>, token: Token, required: Rights, now: nat): Option<LeaseError> {
    match FindTimed(records, token, now)
    case Err(e) => Some(e)
    case Ok(i) =>
      if Walk(records, i, 0).Some? then Walk(records, i, 0)
      else if !(required <= records[i].rights) then Some(MissingRight)
      else if records[i].uses >= records[i].quotaLimit then Some(Exhausted)
      else None
  }

  /** Every ancestor slot of s is active, in its window and holds the rights. */
  ghost predicate Upheld(records: seq<Record>, s: nat, now: nat, rights: Rights)
    requires s < |records|
  {
    forall k: nat :: Up(records, s, k).Some? ==>
      var a := Up(records, s, k).value;
      && a < |records| && records[a].active && records[a].notBefore <= now <= records[a].expiresAt
      && rights <= records[a].rights
  }

  /** No lease that x was delegated from has been revoked. */
  ghost predicate Standing(leases: seq<Lease>, x: nat)
    requires Ledger(leases)
  {
    forall l: nat :: Under(leases, x, l) ==> l < |leases| && leases[l].live
  }

  /** What a successful check of token and ancestry amounts to. */
  lemma AncestryHolds(records: seq<Record>, h: History, s: nat, now: nat)
    requires && Inv(records, h) && Unwrapped(h) && s < |records| && records[s].active
             && records[s].notBefore <= now <= records[s].expiresAt
    ensures Walk(records, s, 0) != Some(DelegationDepth)
    ensures Walk(records, s, 0).None? ==>
              Upheld(records, s, now, records[s].rights) && Standing(h.leases, h.occupant[s])
  {
    hide Ledger;
    hide Accounts;
    hide Walk;
    hide Up;
    hide Under;
    assert Lineage(records, h, s);
    WalkWithinDepth(records, h, s, 0);
    if Walk(records, s, 0).None? {
      forall k: nat | Up(records, s, k).Some?
        ensures var a := Up(records, s, k).value;
                a < |records| && records[a].active && records[a].notBefore <= now <= records[a].expiresAt
                      && records[s].rights <= records[a].rights
      {
        WalkSound(records, h, s, 0, now, k);
      }
      forall l: nat | Under(h.leases, h.occupant[s], l) ensures l < |h.leases| && h.leases[l].live {
        WalkUnrevoked(records, h, s, 0, l);
      }
    }
  }

  /** The ancestors of a lease whose walk succeeds are as many as its depth and end at a root. */
  lemma {:induction false} WalkReachesRoot(records: seq<Record>, h: History, s: nat, traversed: nat)
    requires Inv(records, h) && Unwrapped(h) && s < |records| && records[s].active && Walk(records, s, traversed).None?
    ensures var top := Up(records, s, records[s].depth);
            top.Some? && top.value < |records| && records[top.value].active && records[top.value].parentSlot == ROOT
    decreases MAX_DEPTH + 1 - traversed
  {
    hide Ledger;
    hide Accounts;
    assert Lineage(records, h, s);
    var r := records[s];
    if r.parentSlot != ROOT {
      WalkReachesRoot(records, h, r.parentSlot, traversed + 1);
    }
  }

  // ---- revocation is final -----------------------------------------------

  /** b is a later history: leases keep their parents, quotas and tokens, and none comes back to life. */
  ghost predicate Extends(a: seq<Lease>, b: seq<Lease>) {
    && |a| <= |b|
    && forall l :: 0 <= l < |a| ==>
                     && b[l].parent == a[l].parent && b[l].quota == a[l].quota && b[l].token == a[l].token
                     && (b[l].live ==> a[l].live)
  }

  lemma OperationsExtend(h: History, s: nat, parent: Option<nat>, quota: nat, token: Token)
    requires s < |h.occupant| == |h.bumps|
    ensures Extends(h.leases, AfterIssue(h, s, parent, quota, token).leases)
  {
  }

  lemma UsesExtend(h: History, s: nat)
    requires s < |h.occupant| == |h.bumps| && h.occupant[s] < |h.leases|
    ensures Extends(h.leases, AfterAdmit(h, s).leases)
    ensures Extends(h.leases, AfterRevoke(h, s).leases) && !AfterRevoke(h, s).leases[h.occupant[s]].live
  {
  }

  lemma {:induction false} UnderStays(a: seq<Lease>, b: seq<Lease>, x: nat, l: nat)
    requires Ledger(a) && Ledger(b) && Extends(a, b) && Under(a, x, l)
    ensures Under(b, x, l) && l < |a|
    decreases x
  {
    hide Spent;
    if x != l { UnderStays(a, b, a[x].parent.value, l); }
  }

  /** Once any lease above x is revoked, x never again stands, so no later admission of x succeeds. */
  lemma RevocationBlocks(a: seq<Lease>, b: seq<Lease>, x: nat, l: nat)
    requires Ledger(a) && Ledger(b) && Extends(a, b) && Under(a, x, l) && !(l < |a| && a[l].live)
    ensures !Standing(b, x)
  {
    hide Ledger;
    UnderStays(a, b, x, l);
  }

  // ---- tokens and runs ---------------------------------------------------

  /** A token is found exactly when it is, in slot, generation and tag, the token some standing lease was issued
      under; it is called forged exactly when only the tag differs. */
  lemma TokenExactly(records: seq<Record>, h: History, token: Token)
    requires Inv(records, h)
    ensures FindToken(records, token).Ok? <==>
              exists l :: 0 <= l < |h.leases| && h.leases[l].live && h.leases[l].token == token
    ensures FindToken(records, token) == Err(Forged) <==>
              exists l :: && 0 <= l < |h.leases| && h.leases[l].live && h.leases[l].token.tag != token.tag
                          && h.leases[l].token == token.(tag := h.leases[l].token.tag)
    ensures FindToken(records, token).Err? ==> FindToken(records, token).error in {Invalid, Forged}
    ensures FindToken(records, token).Ok? ==> FindToken(records, token).index == token.slot
  {
    hide Ledger;
    hide Spent;
    hide Lineage;
    if token.slot < |records| && records[token.slot].active {
      assert Accounts(records, h, token.slot);
      var x := h.leases[h.occupant[token.slot]];
      assert x.live && x.token == TokenOf(records, token.slot);
    }
    forall l: nat | l < |h.leases| && h.leases[l].live
      ensures h.leases[l].token.slot < |records| && records[h.leases[l].token.slot].active
      ensures h.leases[l].token == TokenOf(records, h.leases[l].token.slot)
    {
      assert Placed(records, h, l) && Accounts(records, h, h.leases[l].token.slot);
    }
  }

  datatype Table = Table(records: seq<Record>, h: History)

  datatype Op =
    | IssueOp(rights: Rights, notBefore: nat, expiresAt: nat, quota: nat, tag: nat)
    | AttenuateOp(token: Token, rights: Rights, expiresAt: nat, quota: nat, now: nat, tag: nat)
    | AdmitOp(token: Token, required: Rights, now: nat)
    | RevokeOp(token: Token)

  /** What each operation does to the table; a refused one does nothing. */
  ghost predicate Next(a: Table, op: Op, b: Table)
    requires |a.records| == |a.h.occupant| == |a.h.bumps|
  {
    match op
    case IssueOp(rights, notBefore, expiresAt, quota, tag) =>
      quota <= U32_MAX &&
      if RootError(a.records, notBefore, expiresAt, quota).Some? then b == a
      else
        exists s: nat :: FirstInactive(a.records, s) &&
          var r := Record(true, NextGeneration(a.records[s].generation), 0, rights, ROOT, 0, notBefore, expiresAt,
                          quota, 0, tag);
          b == Table(a.records[s := r], AfterIssue(a.h, s, None, quota, Token(s, r.generation, tag)))
    case AttenuateOp(token, rights, expiresAt, quota, now, tag) =>
      quota <= U32_MAX &&
      if AttenuateError(a.records, token, rights, expiresAt, quota, now).Some? then b == a
      else
        token.slot < |a.records| &&
        var p, parent := token.slot, a.records[token.slot];
        exists s: nat :: s != p && FirstInactive(a.records, s) &&
          var r := Record(true, NextGeneration(a.records[s].generation), parent.depth + 1, rights, p,
                          parent.generation, now, expiresAt, quota, 0, tag);
          b == Table(a.records[p := parent.(uses := parent.uses + quota)][s := r],
                     AfterIssue(a.h, s, Some(a.h.occupant[p]), quota, Token(s, r.generation, tag)))
    case AdmitOp(token, required, now) =>
      if AdmitError(a.records, token, required, now).Some? then b == a
      else
        && token.slot < |a.records| && a.h.occupant[token.slot] < |a.h.leases|
        && var r := a.records[token.slot];
           b == Table(a.records[token.slot := r.(uses := r.uses + 1)], AfterAdmit(a.h, token.slot))
    case RevokeOp(token) =>
      match FindToken(a.records, token)
      case Err(_) => b == a
      case Ok(i) =>
        && a.h.occupant[i] < |a.h.leases|
        && b == Table(a.records[i := EmptyRecord(NextGeneration(a.records[i].generation))], AfterRevoke(a.h, i))
  }

  lemma NextKeeps(a: Table, op: Op, b: Table)
    requires Inv(a.records, a.h) && Next(a, op, b)
    ensures Inv(b.records, b.h) && Extends(a.h.leases, b.h.leases)
  {
    hide Ledger;
    hide Accounts;
    hide Lineage;
    hide Tokens;
    hide NextGeneration;
    hide Walk;
    match op
    case IssueOp(_, _, _, _, _) =>
      IssueNext(a, op, b);
    case AttenuateOp(_, _, _, _, _, _) =>
      AttenuateNext(a, op, b);
    case AdmitOp(token, required, now) =>
      if AdmitError(a.records, token, required, now).None? {
        AdmitKeeps(a.records, a.h, token.slot);
      }
    case RevokeOp(token) =>
      if FindToken(a.records, token).Ok? {
        RevokeKeeps(a.records, a.h, token.slot);
      }
  }

  lemma IssueNext(a: Table, op: Op, b: Table)
    requires Inv(a.records, a.h) && Next(a, op, b) && op.IssueOp?
    ensures Inv(b.records, b.h) && Extends(a.h.leases, b.h.leases)
  {
    hide Ledger;
    hide Accounts;
    hide Lineage;
    hide Tokens;
    hide NextGeneration;
    if RootError(a.records, op.notBefore, op.expiresAt, op.quota).None? {
      var s: nat :| FirstInactive(a.records, s) &&
               var r := Record(true, NextGeneration(a.records[s].generation), 0, op.rights, ROOT, 0, op.notBefore,
                               op.expiresAt, op.quota, 0, op.tag);
               b == Table(a.records[s := r], AfterIssue(a.h, s, None, op.quota, Token(s, r.generation, op.tag)));
      IssueRootKeeps(a.records, a.h, s, b.records[s]);
    }
  }

  lemma AttenuateNext(a: Table, op: Op, b: Table)
    requires Inv(a.records, a.h) && Next(a, op, b) && op.AttenuateOp?
    ensures Inv(b.records, b.h) && Extends(a.h.leases, b.h.leases)
  {
    assert |a.records| == |a.h.occupant| == |a.h.bumps|;
    hide Inv;
    hide Next;
    hide AttenuateError;
    hide NextGeneration;
    var p := op.token.slot;
    if AttenuateError(a.records, op.token, op.rights, op.expiresAt, op.quota, op.now).None? {
      var s := ChildSlot(a, op, b);
      DelegationHolds(a.records, op.token, op.rights, op.expiresAt, op.quota, op.now);
      AttenuateKeeps(a.records, a.h, p, s, b.records[s]);
    } else {
      NothingIssued(a, op, b);
    }
  }

  lemma NothingIssued(a: Table, op: Op, b: Table)
    requires |a.records| == |a.h.occupant| == |a.h.bumps| && Next(a, op, b) && op.AttenuateOp?
    requires AttenuateError(a.records, op.token, op.rights, op.expiresAt, op.quota, op.now).Some?
    ensures b == a
  {
    hide AttenuateError;
  }

  lemma ChildSlot(a: Table, op: Op, b: Table) returns (s: nat)
    requires |a.records| == |a.h.occupant| == |a.h.bumps| && Next(a, op, b) && op.AttenuateOp?
    requires AttenuateError(a.records, op.token, op.rights, op.expiresAt, op.quota, op.now).None?
    ensures op.quota <= U32_MAX && op.token.slot < |a.records| && s < |a.records| && s != op.token.slot
    ensures !a.records[s].active
    ensures var p, parent := op.token.slot, a.records[op.token.slot];
            var r := Record(true, NextGeneration(a.records[s].generation), parent.depth + 1, op.rights, p,
                            parent.generation, op.now, op.expiresAt, op.quota, 0, op.tag);
            b == Table(a.records[p := parent.(uses := parent.uses + op.quota)][s := r],
                       AfterIssue(a.h, s, Some(a.h.occupant[p]), op.quota, Token(s, r.generation, op.tag)))
  {
    hide AttenuateError;
    hide NextGeneration;
    hide AfterIssue;
    var p, parent := op.token.slot, a.records[op.token.slot];
    s :| s != p && FirstInactive(a.records, s) &&
         var r := Record(true, NextGeneration(a.records[s].generation), parent.depth + 1, op.rights, p,
                         parent.generation, op.now, op.expiresAt, op.quota, 0, op.tag);
         b == Table(a.records[p := parent.(uses := parent.uses + op.quota)][s := r],
                    AfterIssue(a.h, s, Some(a.h.occupant[p]), op.quota, Token(s, r.generation, op.tag)));
  }

  lemma DelegationHolds(records: seq<Record>, token: Token, rights: Rights, expiresAt: nat, quota: nat, now: nat)
    requires AttenuateError(records, token, rights, expiresAt, quota, now).None?
    ensures token.slot < |records|
    ensures var parent := records[token.slot];
            && parent.active && parent.depth < MAX_DEPTH && rights <= parent.rights && parent.notBefore <= now
            && expiresAt <= parent.expiresAt && parent.uses + quota <= parent.quotaLimit
  {
    hide Walk;
  }

  ghost predicate Run(states: seq<Table>, ops: seq<Op>) {
    && |states| == |ops| + 1 && Inv(states[0].records, states[0].h)
    && (forall k :: 0 <= k < |states| ==> Sized(states[k]))
    && (forall k :: 0 <= k < |ops| ==> Next(states[k], ops[k], states[k + 1]))
  }

  ghost predicate Sized(a: Table) { |a.records| == |a.h.occupant| == |a.h.bumps| }

  /** Every state of a run keeps the invariant, and every earlier lease its token and its end. */
  lemma {:induction false} RunInvariant(states: seq<Table>, ops: seq<Op>, i: nat, j: nat)
    requires Run(states, ops) && i <= j < |states|
    ensures Inv(states[j].records, states[j].h) && Extends(states[i].h.leases, states[j].h.leases)
  {
    hide Next;
    hide Inv;
    if j > 0 {
      if i < j { RunInvariant(states, ops, i, j - 1); } else { RunInvariant(states, ops, j - 1, j - 1); }
      NextKeeps(states[j - 1], ops[j - 1], states[j]);
    }
  }

  /** Once a token has been revoked it is never found again, by admission, delegation or revocation, until a
      generation wraps, although its slot may have been given away many times since. */
  lemma RevokedStaysOut(states: seq<Table>, ops: seq<Op>, i: nat, j: nat, token: Token)
    requires Run(states, ops) && i < j < |states| && ops[i] == RevokeOp(token)
    requires FindToken(states[i].records, token).Ok? && Unwrapped(states[j].h)
    ensures FindToken(states[j].records, token) == Err(Invalid)
    ensures forall required, now :: AdmitError(states[j].records, token, required, now) == Some(Invalid)
  {
    hide Ledger;
    hide Lineage;
    hide NextGeneration;
    RunInvariant(states, ops, i, i);
    RunInvariant(states, ops, i + 1, j);
    var a, b := states[i], states[i + 1];
    assert Accounts(a.records, a.h, token.slot);
    var l := a.h.occupant[token.slot];
    assert b.h.leases[l].token == token && !b.h.leases[l].live;
    assert Placed(states[j].records, states[j].h, l);
  }

  // ---- the lattice -------------------------------------------------------

  datatype Issue = Issued(token: Token) | Refused(error: LeaseError)

  datatype AdmitResult = Admitted(admission: Admission) | Denied(error: LeaseError)

  class Lattice {
    const records: array<Record>
    const seal: (nat, Record, nat) -> nat
    var nonce: nat
    ghost var h: History

    ghost predicate Valid()
      reads this, records
    {
      Inv(records[..], h)
    }

    constructor (n: nat, seal: (nat, Record, nat) -> nat)
      requires n <= ROOT
      ensures Valid() && h.leases == [] && fresh(records) && records.Length == n
    {
      records := new Record[n](_ => EmptyRecord(1));
      this.seal := seal;
      nonce := 1;
      h := History([], seq(n, _ => 0), seq(n, _ => 0));
    }

    method ValidateToken(token: Token, now: nat) returns (r: Lookup)
      ensures r == FindTimed(records[..], token, now)
    {
      r := FindToken(records[..], token);
      if r.Err? { return; }
      var record := records[r.index];
      if now < record.notBefore { return Err(NotYetValid); }
      if now > record.expiresAt { return Err(Expired); }
    }

    method ValidateAncestry(start: nat) returns (error: Option<LeaseError>)
      requires start < records.Length
      ensures error == Walk(records[..], start, 0)
    {
      var current, traversed: nat := start, 0;
      while true
        invariant 0 <= current < records.Length && traversed <= MAX_DEPTH
        invariant Walk(records[..], start, 0) == Walk(records[..], current, traversed)
        decreases MAX_DEPTH - traversed
      {
        var record := records[current];
        if record.parentSlot == ROOT { return None; }
        traversed := traversed + 1;
        if traversed > MAX_DEPTH { return Some(DelegationDepth); }
        if record.parentSlot >= records.Length { return Some(Invalid); }
        var parent := records[record.parentSlot];
        if !parent.active || parent.generation != record.parentGeneration { return Some(Invalid); }
        current := record.parentSlot;
      }
    }

    method FindInactive() returns (s: nat)
      ensures s <= records.Length && (s == records.Length <==> AllActive(records[..]))
      ensures s < records.Length ==> FirstInactive(records[..], s)
    {
      s := 0;
      while s < records.Length
        invariant 0 <= s <= records.Length && forall t :: 0 <= t < s ==> records[t].active
      {
        if !records[s].active {
          assert !records[..][s].active;
          return;
        }
        s := s + 1;
      }
    }

    method IssueRoot(rights: Rights, notBefore: nat, expiresAt: nat, quota: nat) returns (r: Issue)
      requires Valid() && quota <= U32_MAX
      modifies this`nonce, this`h, records
      ensures Valid()
      ensures Next(Table(old(records[..]), old(h)),
                   IssueOp(rights, notBefore, expiresAt, quota, if r.Issued? then r.token.tag else 0),
                       Table(records[..], h))
      ensures var error := RootError(old(records[..]), notBefore, expiresAt, quota);
              if error.Some? then
                r == Refused(error.value) && records[..] == old(records[..]) && h == old(h) && nonce == old(nonce)
              else
                && nonce == NextNonce(old(nonce)) && r.Issued? && FirstInactive(old(records[..]), r.token.slot)
                && r.token.generation == NextGeneration(old(records[r.token.slot].generation))
                && r.token.tag == seal(r.token.slot, records[r.token.slot].(tag := 0), old(nonce))
                && h == AfterIssue(old(h), r.token.slot, None, quota, r.token)
                && FindToken(records[..], r.token) == Ok(r.token.slot)
                && records[r.token.slot] == Record(true, r.token.generation, 0, rights, ROOT, 0, notBefore, expiresAt,
                      quota, 0, r.token.tag)
                && forall t :: 0 <= t < records.Length && t != r.token.slot ==> records[t] == old(records[t])
      ensures r.Issued? ==> 0 < expiresAt && notBefore < expiresAt && 0 < quota
    {
      hide Ledger;
      hide Accounts;
      hide Lineage;
      hide Tokens;
      if expiresAt == 0 || expiresAt <= notBefore { return Refused(InvalidLifetime); }
      if quota == 0 { return Refused(InvalidQuota); }
      var slot := FindInactive();
      if slot == records.Length { return Refused(Capacity); }
      var generation := NextGeneration(records[slot].generation);
      var record := Record(true, generation, 0, rights, ROOT, 0, notBefore, expiresAt, quota, 0, 0);
      record := record.(tag := seal(slot, record, nonce));
      nonce := NextNonce(nonce);
      IssueRootKeeps(records[..], h, slot, record);
      h := AfterIssue(h, slot, None, quota, Token(slot, generation, record.tag));
      records[slot] := record;
      assert records[..] == old(records[..])[slot := record];
      return Issued(Token(slot, generation, record.tag));
    }

    /** The checks of a delegation, in their order. */
    method CheckDelegation(parentToken: Token, rights: Rights, expiresAt: nat, quota: nat, now: nat)
      returns (error: Option<LeaseError>)
      requires Valid()
      ensures error == AttenuateError(records[..], parentToken, rights, expiresAt, quota, now)
      ensures error.None? ==>
                && FindToken(records[..], parentToken) == Ok(parentToken.slot)
                && var parent := records[..][parentToken.slot];
                   && 31 in parent.rights && rights <= parent.rights && parent.depth < 8
                   && parent.notBefore <= now < expiresAt <= parent.expiresAt
                   && 0 < quota <= parent.quotaLimit - parent.uses
      ensures error.None? && Unwrapped(h) ==>
                && Upheld(records[..], parentToken.slot, now, rights)
                && Standing(h.leases, h.occupant[parentToken.slot])
    {
      hide Ledger;
      hide Accounts;
      hide Lineage;
      hide Tokens;
      hide Walk;
      hide Standing;
      hide Up;
      if quota == 0 { return Some(InvalidQuota); }
      var found := ValidateToken(parentToken, now);
      if found.Err? { return Some(found.error); }
      var p := found.index;
      if Unwrapped(h) { AncestryHolds(records[..], h, p, now); }
      var broken := ValidateAncestry(p);
      if broken.Some? { return broken; }
      var parent := records[p];
      if DELEGATE !in parent.rights { return Some(CannotDelegate); }
      if parent.depth >= MAX_DEPTH { return Some(DelegationDepth); }
      if !(rights <= parent.rights) { return Some(RightsAmplification); }
      if expiresAt > parent.expiresAt || expiresAt <= now { return Some(InvalidLifetime); }
      AccountsAt(records[..], h, p);
      var available := if parent.uses < parent.quotaLimit then parent.quotaLimit - parent.uses else 0;
      if quota > available { return Some(InvalidQuota); }
      var slot := FindInactive();
      if slot == records.Length { return Some(Capacity); }
      return None;
    }

    method Attenuate(parentToken: Token, rights: Rights, expiresAt: nat, quota: nat, now: nat) returns (r: Issue)
      requires Valid() && quota <= U32_MAX
      modifies this`nonce, this`h, records
      ensures Valid()
      ensures Next(Table(old(records[..]), old(h)),
                   AttenuateOp(parentToken, rights, expiresAt, quota, now, if r.Issued? then r.token.tag else 0),
                       Table(records[..], h))
      ensures var error := AttenuateError(old(records[..]), parentToken, rights, expiresAt, quota, now);
              if error.Some? then
                r == Refused(error.value) && records[..] == old(records[..]) && h == old(h) && nonce == old(nonce)
              else
                var p, parent := parentToken.slot, old(records[..])[parentToken.slot];
                && nonce == NextNonce(old(nonce)) && r.Issued? && FirstInactive(old(records[..]), r.token.slot)
                && r.token.slot != p
                && r.token.generation == NextGeneration(old(records[r.token.slot].generation))
                && r.token.tag == seal(r.token.slot, records[r.token.slot].(tag := 0), old(nonce))
                && h == AfterIssue(old(h), r.token.slot, Some(old(h.occupant[p])), quota, r.token)
                && old(h.occupant[p]) < |old(h).leases| && old(h).leases[old(h.occupant[p])].token == parentToken
                && FindToken(records[..], r.token) == Ok(r.token.slot)
                && records[r.token.slot] == Record(true, r.token.generation, parent.depth + 1, rights, p,
                      parent.generation, now, expiresAt, quota, 0, r.token.tag)
                && records[p] == parent.(uses := parent.uses + quota)
                && forall t :: 0 <= t < records.Length && t != r.token.slot && t != p ==> records[t] == old(records[t])
      ensures r.Issued? ==>
                var parent := old(records[..])[parentToken.slot];
                && 31 in parent.rights && rights <= parent.rights && parent.depth < 8
                && parent.notBefore <= now < expiresAt <= parent.expiresAt
                && 0 < quota <= parent.quotaLimit - parent.uses
      ensures r.Issued? && Unwrapped(old(h)) ==>
                && Upheld(old(records[..]), parentToken.slot, now, rights)
                && Standing(old(h).leases, old(h.occupant[parentToken.slot]))
    {
      hide Ledger;
      hide Accounts;
      hide Lineage;
      hide Tokens;
      hide Upheld;
      hide Standing;
      hide NextGeneration;
      hide AttenuateError;
      hide Next;
      ghost var before := Table(records[..], h);
      RefusedNext(before, parentToken, rights, expiresAt, quota, now);
      var error := CheckDelegation(parentToken, rights, expiresAt, quota, now);
      if error.Some? { return Refused(error.value); }
      var p := parentToken.slot;
      var parent := records[p];
      AccountsAt(records[..], h, p);
      RoomToDelegate(records[..], parentToken, rights, expiresAt, quota, now);
      var slot := FindInactive();
      var generation := NextGeneration(records[slot].generation);
      var child := Record(true, generation, parent.depth + 1, parent.rights * rights, p, parent.generation, now,
                       expiresAt, quota, 0, 0);
      child := child.(tag := seal(slot, child, nonce));
      assert parent.rights * rights == rights;
      nonce := NextNonce(nonce);
      AttenuateKeeps(records[..], h, p, slot, child);
      h := AfterIssue(h, slot, Some(h.occupant[p]), quota, Token(slot, generation, child.tag));
      records[p] := parent.(uses := Saturated(parent.uses + quota));
      records[slot] := child;
      assert records[..] == old(records[..])[p := parent.(uses := parent.uses + quota)][slot := child];
      IssuedNext(before, AttenuateOp(parentToken, rights, expiresAt, quota, now, child.tag), Table(records[..], h),
          slot);
      return Issued(Token(slot, generation, child.tag));
    }

    /** Besides its own checks, a successful admission implies that the whole ancestry is upheld. */
    method Admit(token: Token, required: Rights, now: nat) returns (r: AdmitResult)
      requires Valid()
      modifies this`h, records
      ensures Valid()
      ensures Next(Table(old(records[..]), old(h)), AdmitOp(token, required, now), Table(records[..], h))
      ensures var error := AdmitError(old(records[..]), token, required, now);
              if error.Some? then r == Denied(error.value) && records[..] == old(records[..]) && h == old(h)
              else
                var i, before := token.slot, old(records[..])[token.slot];
                && i < records.Length && old(h.occupant[i]) < |old(h).leases| && h == AfterAdmit(old(h), i)
                && old(h).leases[old(h.occupant[i])].token == token
                && r.Admitted?
                && r.admission ==
                     Admission(before.rights, before.quotaLimit - before.uses - 1, before.expiresAt, before.depth)
                && records[..] == old(records[..])[i := before.(uses := before.uses + 1)]
      ensures r.Denied? && Unwrapped(h) ==> r.error != DelegationDepth
      ensures r.Admitted? && Unwrapped(h) ==>
                && Upheld(old(records[..]), token.slot, now, required)
                && Standing(old(h).leases, old(h.occupant[token.slot]))
    {
      hide Ledger;
      hide Accounts;
      hide Lineage;
      hide Tokens;
      hide Walk;
      hide Standing;
      hide Up;
      hide NextGeneration;
      var found := ValidateToken(token, now);
      if found.Err? { return Denied(found.error); }
      var i := found.index;
      if Unwrapped(h) { AncestryHolds(records[..], h, i, now); }
      var broken := ValidateAncestry(i);
      if broken.Some? { return Denied(broken.value); }
      var record := records[i];
      if !(required <= record.rights) { return Denied(MissingRight); }
      if record.uses >= record.quotaLimit { return Denied(Exhausted); }
      AccountsAt(records[..], h, i);
      AdmitKeeps(records[..], h, i);
      h := AfterAdmit(h, i);
      var uses := Saturated(record.uses + 1);
      records[i] := record.(uses := uses);
      assert records[..] == old(records[..])[i := record.(uses := uses)];
      return Admitted(Admission(record.rights, record.quotaLimit - uses, record.expiresAt, record.depth));
    }

    method Revoke(token: Token) returns (error: Option<LeaseError>)
      requires Valid()
      modifies this`h, records
      ensures Valid()
      ensures Next(Table(old(records[..]), old(h)), RevokeOp(token), Table(records[..], h))
      ensures match FindToken(old(records[..]), token)
              case Err(e) => error == Some(e) && records[..] == old(records[..]) && h == old(h)
              case Ok(i) =>
                && error.None? && old(h.occupant[i]) < |old(h).leases| && h == AfterRevoke(old(h), i)
                && old(h).leases[old(h.occupant[i])].token == token
                && records[..] == old(records[..])[i := EmptyRecord(NextGeneration(old(records[i].generation)))]
    {
      hide Ledger;
      hide Accounts;
      hide Lineage;
      hide Tokens;
      var found := FindToken(records[..], token);
      if found.Err? { return Some(found.error); }
      var i := found.index;
      AccountsAt(records[..], h, i);
      RevokeKeeps(records[..], h, i);
      h := AfterRevoke(h, i);
      records[i] := EmptyRecord(NextGeneration(records[i].generation));
      assert records[..] == old(records[..])[i := EmptyRecord(NextGeneration(old(records[i].generation)))];
      return None;
    }
  }

  lemma RefusedNext(a: Table, token: Token, rights: Rights, expiresAt: nat, quota: nat, now: nat)
    requires |a.records| == |a.h.occupant| == |a.h.bumps| && quota <= U32_MAX
    ensures AttenuateError(a.records, token, rights, expiresAt, quota, now).Some? ==>
              Next(a, AttenuateOp(token, rights, expiresAt, quota, now, 0), a)
  {
    hide AttenuateError;
  }

  lemma IssuedNext(a: Table, op: Op, b: Table, s: nat)
    requires |a.records| == |a.h.occupant| == |a.h.bumps| && op.AttenuateOp? && op.quota <= U32_MAX
    requires AttenuateError(a.records, op.token, op.rights, op.expiresAt, op.quota, op.now).None?
    requires op.token.slot < |a.records| && s != op.token.slot && FirstInactive(a.records, s)
    requires var p, parent := op.token.slot, a.records[op.token.slot];
             var r := Record(true, NextGeneration(a.records[s].generation), parent.depth + 1, op.rights, p,
                             parent.generation, op.now, op.expiresAt, op.quota, 0, op.tag);
             b == Table(a.records[p := parent.(uses := parent.uses + op.quota)][s := r],
                        AfterIssue(a.h, s, Some(a.h.occupant[p]), op.quota, Token(s, r.generation, op.tag)))
    ensures Next(a, op, b)
  {
    hide AttenuateError;
    hide NextGeneration;
    hide AfterIssue;
  }

  lemma RoomToDelegate(records: seq<Record>, token: Token, rights: Rights, expiresAt: nat, quota: nat, now: nat)
    requires AttenuateError(records, token, rights, expiresAt, quota, now).None?
    ensures !AllActive(records)
  {
    hide Walk;
  }

  lemma AccountsAt(records: seq<Record>, h: History, s: nat)
    requires Inv(records, h) && s < |records| && records[s].active
    ensures records[s].quotaLimit <= U32_MAX && records[s].uses <= records[s].quotaLimit
    ensures h.occupant[s] < |h.leases| && h.leases[h.occupant[s]].token == TokenOf(records, s)
  {
    assert Accounts(records, h, s);
  }
}
