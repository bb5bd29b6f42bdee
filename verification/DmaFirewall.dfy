/** The DMA firewall (kernel/boulder/src/charybdis_dma_firewall.rs).  Every critical section is one
    atomic method; `commit` and `revoke` are two sections around a backend call, and the ghost set of
    calls in flight records who is between its two sections.  Whatever order the sections of any number
    of callers run in, each keeps the invariant. */
module DmaFirewall {
  import opened AxiomTypes

  const PAGE := 4096
  const ACCESS_BITS: set<nat> := {0, 1, 2}

  datatype Intent = Intent(domain: u64, device: u64, deviceAddress: u64, physicalAddress: u64, length: u64,
                           expiresAt: u64, access: set<nat>, quorum: nat, purpose: nat, policyEpoch: nat)

  datatype Aperture = Aperture(id: nat, policyEpoch: nat, domain: u64, deviceMask: u64, deviceValue: u64,
                               deviceStart: u64, deviceEnd: u64, physicalStart: u64, physicalEnd: u64,
                               maximumMapping: u64, maximumTotal: u64, access: set<nat>)

  datatype Ticket = Ticket(slot: nat, generation: nat, tag: nat)

  /** The ticket whose raw word is zero. */
  const INVALID_TICKET := Ticket(0, 0, 0)

  datatype Error =
    | ZeroCapacity | InvalidIntent | InvalidAperture | ApertureCapacity | ApertureNotFound | ApertureBusy
    | NoMatchingAperture | AmbiguousAperture | QuotaExceeded | MappingCapacity | AddressOverlap
    | InvalidTicket | ForgedTicket | StaleTicket | WrongPhase | WitnessOutOfRange | WitnessQuorum
    | Expired | BackendMap | BackendUnmap | InvalidBackendCookie | PoisonedMapping

  datatype Phase = Empty | Prepared | Mapping | Active | Revoking | Poisoned

  datatype ApertureRecord = ApertureRecord(occupied: bool, aperture: Aperture, reserved: nat)

  datatype MappingRecord = MappingRecord(phase: Phase, generation: nat, apertureSlot: nat, intent: Intent,
        witnesses: set<nat>, cookie: u64, tag: nat)

  const EMPTY_INTENT := Intent(0, 0, 0, 0, 0, 0, {}, 0, 0, 0)
  const EMPTY_APERTURE := ApertureRecord(false, Aperture(0, 0, 0, 0, 0, 0, 0, 0, 0, 0, 0, {}), 0)

  function Cleared(generation: nat): MappingRecord {
    MappingRecord(Empty, generation, 0, EMPTY_INTENT, {}, 0, 0)
  }

  /** The keyed ticket tag, of which nothing is assumed. */
  type Tagger = (nat, nat, Intent) -> nat

  // ---- pure checks -------------------------------------------------------

  predicate ValidAperture(a: Aperture) {
    && a.id != 0 && a.policyEpoch != 0 && a.deviceStart < a.deviceEnd && a.physicalStart < a.physicalEnd
    && a.maximumMapping != 0 && a.maximumMapping <= a.maximumTotal && a.access != {} && a.access <= ACCESS_BITS
    && a.deviceStart % PAGE == 0 && a.deviceEnd % PAGE == 0 && a.physicalStart % PAGE == 0 && a.physicalEnd % PAGE == 0
  }

  predicate ValidIntent(i: Intent, now: nat) {
    && i.domain != 0 && i.device != 0 && i.length != 0 && i.length % PAGE == 0
    && i.deviceAddress % PAGE == 0 && i.physicalAddress % PAGE == 0
    && i.deviceAddress + i.length <= U64_MAX && i.physicalAddress + i.length <= U64_MAX
    && i.expiresAt > now && i.access != {} && i.access <= ACCESS_BITS
    && i.quorum != 0 && i.quorum <= 64 && i.policyEpoch != 0
  }

  predicate Matches(a: Aperture, i: Intent) {
    && a.policyEpoch == i.policyEpoch && a.domain == i.domain
    && BitAnd(i.device, a.deviceMask) == BitAnd(a.deviceValue, a.deviceMask)
    && i.access <= a.access && i.length <= a.maximumMapping
    && i.deviceAddress + i.length <= U64_MAX && i.physicalAddress + i.length <= U64_MAX
    && a.deviceStart <= i.deviceAddress && i.deviceAddress + i.length <= a.deviceEnd
    && a.physicalStart <= i.physicalAddress && i.physicalAddress + i.length <= a.physicalEnd
  }

  predicate RangesOverlap(s1: u64, l1: u64, s2: u64, l2: u64) {
    s1 < SaturatingAdd(s2, l2) && s2 < SaturatingAdd(s1, l1)
  }

  /** Both mappings exist and name a common device address of one device. */
  predicate Collides(m: MappingRecord, i: Intent) {
    && !m.phase.Empty? && m.intent.domain == i.domain && m.intent.device == i.device
    && RangesOverlap(m.intent.deviceAddress, m.intent.length, i.deviceAddress, i.length)
  }

  // ---- reservations ------------------------------------------------------

  function Charge(m: MappingRecord, a: nat): nat {
    if !m.phase.Empty? && m.apertureSlot == a then m.intent.length else 0
  }

  /** The bytes the mappings hold in aperture a. */
  function Held(mappings: seq<MappingRecord>, a: nat): nat {
    if mappings == [] then 0 else Held(mappings[..|mappings| - 1], a) + Charge(mappings[|mappings| - 1], a)
  }

  lemma {:induction false} HeldUpdate(mappings: seq<MappingRecord>, s: nat, m: MappingRecord, a: nat)
    requires s < |mappings|
    ensures Held(mappings[s := m], a) == Held(mappings, a) - Charge(mappings[s], a) + Charge(m, a)
    ensures Charge(mappings[s], a) <= Held(mappings, a)
  {
    var n := |mappings| - 1;
    if s == n {
      assert mappings[s := m][..n] == mappings[..n];
    } else {
      assert mappings[s := m][..n] == mappings[..n][s := m];
      HeldUpdate(mappings[..n], s, m, a);
    }
  }

  lemma {:induction false} HeldNone(mappings: seq<MappingRecord>, a: nat)
    requires forall s :: 0 <= s < |mappings| ==> mappings[s].phase.Empty?
    ensures Held(mappings, a) == 0
  {
    if mappings != [] { HeldNone(mappings[..|mappings| - 1], a); }
  }

  // ---- the invariant -----------------------------------------------------

  /** A call between its two critical sections: mapping in, or (unmapping) out. */
  datatype Call = MapCall(ticket: Ticket, intent: Intent) | UnmapCall(ticket: Ticket, intent: Intent, cookie: u64)

  ghost predicate ApertureOk(apertures: seq<ApertureRecord>, mappings: seq<MappingRecord>, a: nat)
    requires a < |apertures|
  {
    && apertures[a].reserved == Held(mappings, a)
    && apertures[a].reserved <= (if apertures[a].occupied then apertures[a].aperture.maximumTotal else 0)
    && (apertures[a].occupied ==> ValidAperture(apertures[a].aperture))
  }

  /** No two apertures go by one name. */
  ghost predicate DistinctIds(apertures: seq<ApertureRecord>) {
    forall a, b :: 0 <= a < b < |apertures| && apertures[a].occupied && apertures[b].occupied ==>
                     apertures[a].aperture.id != apertures[b].aperture.id
  }

  /** A mapping lies inside its aperture and, past Prepared, has its quorum; once mapped it has a cookie.  An empty
      slot remembers nothing but its generation. */
  ghost predicate MappingOk(apertures: seq<ApertureRecord>, tagger: Tagger, m: MappingRecord, s: nat) {
    if m.phase.Empty? then
      m.apertureSlot == 0 && m.intent == EMPTY_INTENT && m.witnesses == {} && m.cookie == 0 && m.tag == 0
    else
      && m.tag == tagger(s, m.generation, m.intent) && ValidIntent(m.intent, 0) && m.generation >= 1
      && m.apertureSlot < |apertures| && apertures[m.apertureSlot].occupied
      && Matches(apertures[m.apertureSlot].aperture, m.intent)
      && (forall w :: w in m.witnesses ==> w < 64)
      && (!m.phase.Prepared? ==> |m.witnesses| >= m.intent.quorum)
      && (m.phase.Active? || m.phase.Revoking? || m.phase.Poisoned? <==> m.cookie != 0)
  }

  ghost predicate Disjoint(mappings: seq<MappingRecord>) {
    forall s, t :: 0 <= s < |mappings| && 0 <= t < |mappings| && s != t && !mappings[s].phase.Empty? ==>
                     !Collides(mappings[t], mappings[s].intent)
  }

  /** The mapping a call left behind is still as it left it. */
  ghost predicate CallOk(mappings: seq<MappingRecord>, c: Call) {
    && c.ticket.slot < |mappings|
    && var m := mappings[c.ticket.slot];
       && m.generation == c.ticket.generation && m.tag == c.ticket.tag && m.intent == c.intent
       && (match c
           case MapCall(_, _) => m.phase.Mapping?
           case UnmapCall(_, _, cookie) => m.phase.Revoking? && m.cookie == cookie)
  }

  ghost predicate CallsOk(mappings: seq<MappingRecord>, calls: set<Call>) {
    && (forall c :: c in calls ==> CallOk(mappings, c))
    && (forall c, d :: c in calls && d in calls && c.ticket.slot == d.ticket.slot ==> c == d)
    && (forall s :: 0 <= s < |mappings| && (mappings[s].phase.Mapping? || mappings[s].phase.Revoking?) ==>
                      exists c :: c in calls && c.ticket.slot == s)
  }

  ghost predicate Inv(apertures: seq<ApertureRecord>, mappings: seq<MappingRecord>, tagger: Tagger, calls: set<Call>) {
    && (forall a :: 0 <= a < |apertures| ==> ApertureOk(apertures, mappings, a))
    && (forall s :: 0 <= s < |mappings| ==> MappingOk(apertures, tagger, mappings[s], s))
    && Disjoint(mappings)
    && CallsOk(mappings, calls)
    && DistinctIds(apertures)
  }

  // ---- what each change keeps --------------------------------------------

  /** A mapping that keeps its intent and place changes no account. */
  lemma PhaseChangeKeeps(apertures: seq<ApertureRecord>, mappings: seq<MappingRecord>, tagger: Tagger, calls: set<Call>,
        calls': set<Call>, s: nat, m: MappingRecord)
    requires Inv(apertures, mappings, tagger, calls) && s < |mappings| && !mappings[s].phase.Empty? && !m.phase.Empty?
    requires m.intent == mappings[s].intent && m.apertureSlot == mappings[s].apertureSlot
    requires MappingOk(apertures, tagger, m, s) && CallsOk(mappings[s := m], calls')
    ensures Inv(apertures, mappings[s := m], tagger, calls')
  {
    hide Matches;
    hide ValidAperture;
    hide ValidIntent;
    hide RangesOverlap;
    hide CallsOk;
    var mappings' := mappings[s := m];
    forall a | 0 <= a < |apertures| ensures ApertureOk(apertures, mappings', a) {
      assert ApertureOk(apertures, mappings, a);
      HeldUpdate(mappings, s, m, a);
    }
  }

  /** Releasing a reservation gives back exactly what the mapping held. */
  lemma ReleaseKeeps(apertures: seq<ApertureRecord>, mappings: seq<MappingRecord>, tagger: Tagger, calls: set<Call>,
        calls': set<Call>, s: nat)
    requires Inv(apertures, mappings, tagger, calls) && s < |mappings| && !mappings[s].phase.Empty?
    requires CallsOk(mappings[s := Cleared(mappings[s].generation)], calls')
    ensures var m := mappings[s];
            && m.apertureSlot < |apertures| && m.intent.length <= apertures[m.apertureSlot].reserved
            && Inv(Released(apertures, m), mappings[s := Cleared(m.generation)], tagger, calls')
  {
    hide Matches;
    hide ValidAperture;
    hide ValidIntent;
    hide RangesOverlap;
    hide CallsOk;
    var m := mappings[s];
    var apertures', mappings' := Released(apertures, m), mappings[s := Cleared(m.generation)];
    assert MappingOk(apertures, tagger, m, s);
    assert ApertureOk(apertures, mappings, m.apertureSlot);
    HeldUpdate(mappings, s, Cleared(m.generation), m.apertureSlot);
    forall a | 0 <= a < |apertures| ensures ApertureOk(apertures', mappings', a) {
      assert ApertureOk(apertures, mappings, a);
      HeldUpdate(mappings, s, Cleared(m.generation), a);
    }
    forall t | 0 <= t < |mappings| ensures MappingOk(apertures', tagger, mappings'[t], t) {
      assert MappingOk(apertures, tagger, mappings[t], t);
    }
  }

  function Reduced(a: ApertureRecord, length: nat): ApertureRecord {
    a.(reserved := if a.reserved < length then 0 else a.reserved - length)
  }

  function Released(apertures: seq<ApertureRecord>, m: MappingRecord): seq<ApertureRecord> {
    if m.apertureSlot < |apertures| then
      apertures[m.apertureSlot := Reduced(apertures[m.apertureSlot], m.intent.length)]
    else apertures
  }

  /** A new mapping inside one aperture's limit, away from every other mapping of its device. */
  lemma PrepareKeeps(apertures: seq<ApertureRecord>, mappings: seq<MappingRecord>, tagger: Tagger, calls: set<Call>,
        a: nat, s: nat, m: MappingRecord, now: nat)
    requires Inv(apertures, mappings, tagger, calls) && a < |apertures| && s < |mappings|
    requires apertures[a].occupied && Matches(apertures[a].aperture, m.intent) && ValidIntent(m.intent, now)
    requires apertures[a].reserved + m.intent.length <= apertures[a].aperture.maximumTotal
    requires && mappings[s].phase.Empty? && m.phase.Prepared? && m.apertureSlot == a && m.witnesses == {}
             && m.generation >= 1 && m.cookie == 0
    requires m.tag == tagger(s, m.generation, m.intent)
    requires forall t :: 0 <= t < |mappings| ==> !Collides(mappings[t], m.intent)
    ensures Inv(apertures[a := apertures[a].(reserved := apertures[a].reserved + m.intent.length)], mappings[s := m],
                tagger, calls)
  {
    var apertures', mappings' := apertures[a := apertures[a].(reserved := apertures[a].reserved + m.intent.length)],
                                     mappings[s := m];
    assert m.intent.length > 0 && ValidIntent(m.intent, 0);
    hide ValidIntent;
    hide ValidAperture;
    forall b | 0 <= b < |apertures| ensures ApertureOk(apertures', mappings', b) {
      hide Matches;
      assert ApertureOk(apertures, mappings, b);
      HeldUpdate(mappings, s, m, b);
    }
    forall t | 0 <= t < |mappings| ensures MappingOk(apertures', tagger, mappings'[t], t) {
      hide Matches;
      assert MappingOk(apertures, tagger, mappings[t], t);
    }
    assert Disjoint(mappings') by {
      hide Matches;
      forall x, y | 0 <= x < |mappings'| && 0 <= y < |mappings'| && x != y && !mappings'[x].phase.Empty?
        ensures !Collides(mappings'[y], mappings'[x].intent)
      {
        assert y != s ==> !Collides(mappings[y], m.intent);
        assert x != s ==> !Collides(mappings[x], m.intent);
      }
    }
    CallsElsewhere(mappings, calls, s, m);
  }

  /** Calls in flight do not concern a slot in another phase. */
  lemma CallsElsewhere(mappings: seq<MappingRecord>, calls: set<Call>, s: nat, m: MappingRecord)
    requires CallsOk(mappings, calls) && s < |mappings|
    requires !mappings[s].phase.Mapping? && !mappings[s].phase.Revoking? && !m.phase.Mapping? && !m.phase.Revoking?
    ensures CallsOk(mappings[s := m], calls)
  {
    forall c | c in calls ensures CallOk(mappings[s := m], c) {
      assert CallOk(mappings, c);
    }
  }

  /** A section that leaves a call behind. */
  lemma CallBegins(mappings: seq<MappingRecord>, calls: set<Call>, c: Call, m: MappingRecord)
    requires CallsOk(mappings, calls) && c.ticket.slot < |mappings|
    requires !mappings[c.ticket.slot].phase.Mapping? && !mappings[c.ticket.slot].phase.Revoking?
    requires CallOk(mappings[c.ticket.slot := m], c)
    ensures CallsOk(mappings[c.ticket.slot := m], calls + {c})
  {
    var mappings' := mappings[c.ticket.slot := m];
    forall d | d in calls ensures CallOk(mappings', d) && d.ticket.slot != c.ticket.slot {
      assert CallOk(mappings, d);
    }
    forall s | 0 <= s < |mappings| && (mappings'[s].phase.Mapping? || mappings'[s].phase.Revoking?)
      ensures exists d :: d in calls + {c} && d.ticket.slot == s
    {
      if s == c.ticket.slot {
        assert c in calls + {c};
      } else {
        var d :| d in calls && d.ticket.slot == s;
        assert d in calls + {c};
      }
    }
  }

  /** The section that ends a call. */
  lemma CallEnds(mappings: seq<MappingRecord>, calls: set<Call>, c: Call, m: MappingRecord)
    requires && CallsOk(mappings, calls) && c in calls && c.ticket.slot < |mappings| && !m.phase.Mapping?
             && !m.phase.Revoking?
    ensures CallsOk(mappings[c.ticket.slot := m], calls - {c})
  {
    var mappings' := mappings[c.ticket.slot := m];
    forall d | d in calls - {c} ensures CallOk(mappings', d) {
      assert CallOk(mappings, d);
    }
    forall s | 0 <= s < |mappings| && (mappings'[s].phase.Mapping? || mappings'[s].phase.Revoking?)
      ensures exists d :: d in calls - {c} && d.ticket.slot == s
    {
      var d :| d in calls && d.ticket.slot == s;
      assert d in calls - {c};
    }
  }

  // ---- tickets -----------------------------------------------------------

  datatype Lookup = Ok(index: nat) | Err(error: Error)

  function FindTicket(mappings: seq<MappingRecord>, tagger: Tagger, t: Ticket): (r: Lookup)
    ensures r.Ok? ==>
              && r.index == t.slot < |mappings| && !mappings[t.slot].phase.Empty?
              && mappings[t.slot].generation == t.generation && mappings[t.slot].tag == t.tag
  {
    if t == INVALID_TICKET then Err(InvalidTicket)
    else if t.slot >= |mappings| then Err(InvalidTicket)
    else if mappings[t.slot].phase.Empty? || mappings[t.slot].generation != t.generation then Err(StaleTicket)
    else
      var expected := tagger(t.slot, mappings[t.slot].generation, mappings[t.slot].intent);
      if mappings[t.slot].tag != expected || t.tag != expected then Err(ForgedTicket) else Ok(t.slot)
  }

  /** After the backend call the second section always finds its ticket valid and the phase it left. */
  lemma RelockFinds(apertures: seq<ApertureRecord>, mappings: seq<MappingRecord>, tagger: Tagger, calls: set<Call>,
        c: Call)
    requires Inv(apertures, mappings, tagger, calls) && c in calls
    ensures FindTicket(mappings, tagger, c.ticket) == Ok(c.ticket.slot)
    ensures mappings[c.ticket.slot].phase == if c.MapCall? then Mapping else Revoking
  {
    hide Matches;
    assert CallOk(mappings, c);
    assert MappingOk(apertures, tagger, mappings[c.ticket.slot], c.ticket.slot);
  }

  // ---- what the invariant means ------------------------------------------

  /** No device address is mapped twice for one device of one domain. */
  lemma NoSharedAddress(apertures: seq<ApertureRecord>, mappings: seq<MappingRecord>, tagger: Tagger, calls: set<Call>,
        s: nat, t: nat, address: nat)
    requires Inv(apertures, mappings, tagger, calls) && s < |mappings| && t < |mappings| && s != t
    requires !mappings[s].phase.Empty? && !mappings[t].phase.Empty?
    requires && mappings[s].intent.domain == mappings[t].intent.domain
             && mappings[s].intent.device == mappings[t].intent.device
    ensures var i, j := mappings[s].intent, mappings[t].intent;
            !(i.deviceAddress <= address < i.deviceAddress + i.length
                && j.deviceAddress <= address < j.deviceAddress + j.length)
  {
    hide BitAnd;
    hide Held;
    hide CallsOk;
    assert MappingOk(apertures, tagger, mappings[s], s) && MappingOk(apertures, tagger, mappings[t], t);
    assert !Collides(mappings[t], mappings[s].intent);
  }

  /** An aperture allows an intent: same epoch and domain, the device agrees with the aperture's at every bit of
      the mask, no access and no length beyond what it grants, and both ranges inside its own. */
  ghost predicate Allows(a: Aperture, i: Intent) {
    && a.policyEpoch == i.policyEpoch && a.domain == i.domain
    && (forall b :: 0 <= b < 64 && BitAt(a.deviceMask, b) == 1 ==> BitAt(i.device, b) == BitAt(a.deviceValue, b))
    && (forall right :: right in i.access ==> right in a.access) && i.length <= a.maximumMapping
    && (forall x :: Within(x, i.deviceAddress, i.length) ==> a.deviceStart <= x < a.deviceEnd)
    && (forall x :: Within(x, i.physicalAddress, i.length) ==> a.physicalStart <= x < a.physicalEnd)
  }

  /** The address is one of the length bytes from start on. */
  predicate Within(x: int, start: int, length: int) { start <= x < start + length }

  /** For an intent of some length this is what the check computes. */
  lemma MatchesExactly(a: Aperture, i: Intent)
    requires i.length > 0
    ensures Matches(a, i) <==> Allows(a, i)
  {
    hide BitAnd;
    hide BitAt;
    MaskedEqual(i.device, a.deviceValue, a.deviceMask);
    if Allows(a, i) {
      var x, y := i.deviceAddress + i.length - 1, i.physicalAddress + i.length - 1;
      assert Within(i.deviceAddress, i.deviceAddress, i.length) && Within(x, i.deviceAddress, i.length);
      assert Within(i.physicalAddress, i.physicalAddress, i.length) && Within(y, i.physicalAddress, i.length);
    }
  }

  /** Every mapping there is was allowed: it is whole pages of one device of one domain under one epoch, its
      aperture allows it and stays within its limit, and past Prepared its quorum has been met. */
  lemma MappingIsAuthorised(apertures: seq<ApertureRecord>, mappings: seq<MappingRecord>, tagger: Tagger,
        calls: set<Call>, s: nat)
    requires Inv(apertures, mappings, tagger, calls) && s < |mappings| && !mappings[s].phase.Empty?
    ensures var m := mappings[s]; var i := m.intent;
            && i.domain != 0 && i.device != 0 && i.policyEpoch != 0 && i.expiresAt > 0
            && i.length > 0 && i.length % 4096 == i.deviceAddress % 4096 == i.physicalAddress % 4096 == 0
            && i.access != {} && i.access <= {0, 1, 2} && 1 <= i.quorum <= 64
            && (!m.phase.Prepared? ==> |m.witnesses| >= i.quorum && forall w :: w in m.witnesses ==> w < 64)
            && m.apertureSlot < |apertures|
            && var a := apertures[m.apertureSlot];
               && a.occupied && Allows(a.aperture, i)
               && Held(mappings, m.apertureSlot) == a.reserved <= a.aperture.maximumTotal
  {
    hide Matches;
    hide Allows;
    hide CallsOk;
    hide Disjoint;
    assert MappingOk(apertures, tagger, mappings[s], s);
    assert ApertureOk(apertures, mappings, mappings[s].apertureSlot);
    MatchesExactly(apertures[mappings[s].apertureSlot].aperture, mappings[s].intent);
  }

  /** A valid aperture: named, whole pages, in order, with limits that fit and some right. */
  lemma ApertureExactly(a: Aperture)
    ensures ValidAperture(a) <==>
              && a.id > 0 && a.policyEpoch > 0 && a.deviceStart < a.deviceEnd && a.physicalStart < a.physicalEnd
              && a.deviceStart % 4096 == a.deviceEnd % 4096 == a.physicalStart % 4096 == a.physicalEnd % 4096 == 0
              && 0 < a.maximumMapping <= a.maximumTotal
              && (exists right :: right in a.access) && (forall right :: right in a.access ==> right < 3)
  {
    if right :| right in a.access { assert a.access != {}; }
    assert ACCESS_BITS == {0, 1, 2};
  }

  /** Every aperture there is: whole pages, in order, with limits that fit and some right. */
  lemma ApertureIsSound(apertures: seq<ApertureRecord>, mappings: seq<MappingRecord>, tagger: Tagger, calls: set<Call>,
        k: nat)
    requires Inv(apertures, mappings, tagger, calls) && k < |apertures| && apertures[k].occupied
    ensures var a := apertures[k].aperture;
            && a.id != 0 && a.policyEpoch != 0 && a.deviceStart < a.deviceEnd && a.physicalStart < a.physicalEnd
            && a.deviceStart % 4096 == a.deviceEnd % 4096 == a.physicalStart % 4096 == a.physicalEnd % 4096 == 0
            && 0 < a.maximumMapping <= a.maximumTotal && a.access != {} && a.access <= {0, 1, 2}
            && forall j :: 0 <= j < |apertures| && j != k && apertures[j].occupied ==> apertures[j].aperture.id != a.id
  {
    hide MappingOk;
    hide CallsOk;
    hide Disjoint;
    assert ApertureOk(apertures, mappings, k);
  }

  // ---- preparing ---------------------------------------------------------

  predicate Usable(r: ApertureRecord, i: Intent) {
    r.occupied && Matches(r.aperture, i)
  }

  function FirstUsable(apertures: seq<ApertureRecord>, i: Intent, from: nat): (a: nat)
    requires from <= |apertures|
    ensures from <= a <= |apertures| && (a < |apertures| ==> Usable(apertures[a], i))
    ensures forall b :: from <= b < a ==> !Usable(apertures[b], i)
    decreases |apertures| - from
  {
    if from == |apertures| || Usable(apertures[from], i) then from else FirstUsable(apertures, i, from + 1)
  }

  function FirstEmpty(mappings: seq<MappingRecord>, from: nat): (s: nat)
    requires from <= |mappings|
    ensures from <= s <= |mappings| && (s < |mappings| ==> mappings[s].phase.Empty?)
    ensures forall t :: from <= t < s ==> !mappings[t].phase.Empty?
    decreases |mappings| - from
  {
    if from == |mappings| || mappings[from].phase.Empty? then from else FirstEmpty(mappings, from + 1)
  }

  predicate AnyCollides(mappings: seq<MappingRecord>, i: Intent) {
    exists t :: 0 <= t < |mappings| && Collides(mappings[t], i)
  }

  /** The checks of `prepare`, in its order. */
  function PrepareError(apertures: seq<ApertureRecord>, mappings: seq<MappingRecord>, i: Intent, now: nat)
    : Option<Error>
  {
    if |apertures| == 0 || |mappings| == 0 then Some(ZeroCapacity)
    else if !ValidIntent(i, now) then Some(InvalidIntent)
    else
      var a := FirstUsable(apertures, i, 0);
      if a == |apertures| then Some(NoMatchingAperture)
      else if FirstUsable(apertures, i, a + 1) < |apertures| then Some(AmbiguousAperture)
      else if a > U16_MAX then Some(ApertureCapacity)
      else if AnyCollides(mappings, i) then Some(AddressOverlap)
      else if apertures[a].reserved + i.length > U64_MAX then Some(QuotaExceeded)
      else if apertures[a].reserved + i.length > apertures[a].aperture.maximumTotal then Some(QuotaExceeded)
      else if FirstEmpty(mappings, 0) == |mappings| || FirstEmpty(mappings, 0) > U16_MAX then Some(MappingCapacity)
      else None
  }

  /** The intent is well formed and not yet expired. */
  ghost predicate Sound(i: Intent, now: nat) {
    && 0 < i.domain && 0 < i.device && 0 < i.policyEpoch && now < i.expiresAt && 0 < i.quorum < 65
    && (exists pages :: 0 < pages && i.length == 4096 * pages)
    && i.deviceAddress % 4096 == i.physicalAddress % 4096 == 0
    && i.deviceAddress + i.length < 0x1_0000_0000_0000_0000 && i.physicalAddress + i.length < 0x1_0000_0000_0000_0000
    && (exists right :: right in i.access) && (forall right :: right in i.access ==> right < 3)
  }

  lemma SoundExactly(i: Intent, now: nat)
    ensures ValidIntent(i, now) <==> Sound(i, now)
  {
    if i.length > 0 && i.length % PAGE == 0 {
      var pages := i.length / PAGE;
      assert 0 < pages && i.length == 4096 * pages;
    }
    if right :| right in i.access { assert i.access != {}; }
    assert ACCESS_BITS == {0, 1, 2};
  }

  ghost predicate Offers(apertures: seq<ApertureRecord>, i: Intent, a: int) {
    0 <= a < |apertures| && apertures[a].occupied && Allows(apertures[a].aperture, i)
  }

  /** Some mapping of this device of this domain already has one of the device addresses. */
  ghost predicate Shares(mappings: seq<MappingRecord>, i: Intent) {
    exists t, x :: && 0 <= t < |mappings| && !mappings[t].phase.Empty? && SameDevice(mappings[t].intent, i)
                   && Within(x, mappings[t].intent.deviceAddress, mappings[t].intent.length)
                   && Within(x, i.deviceAddress, i.length)
  }

  ghost predicate SameDevice(i: Intent, j: Intent) { i.domain == j.domain && i.device == j.device }

  lemma SharesExactly(apertures: seq<ApertureRecord>, mappings: seq<MappingRecord>, tagger: Tagger, calls: set<Call>,
        i: Intent, now: nat)
    requires Inv(apertures, mappings, tagger, calls) && ValidIntent(i, now)
    ensures AnyCollides(mappings, i) <==> Shares(mappings, i)
  {
    hide Matches;
    hide CallsOk;
    hide Disjoint;
    hide ApertureOk;
    if t :| 0 <= t < |mappings| && Collides(mappings[t], i) {
      assert MappingOk(apertures, tagger, mappings[t], t);
      var j := mappings[t].intent;
      var x := if i.deviceAddress < j.deviceAddress then j.deviceAddress else i.deviceAddress;
      assert SameDevice(j, i) && Within(x, j.deviceAddress, j.length) && Within(x, i.deviceAddress, i.length);
    }
    if Shares(mappings, i) {
      var t, x :| && 0 <= t < |mappings| && !mappings[t].phase.Empty? && SameDevice(mappings[t].intent, i)
                  && Within(x, mappings[t].intent.deviceAddress, mappings[t].intent.length)
                  && Within(x, i.deviceAddress, i.length);
      assert MappingOk(apertures, tagger, mappings[t], t);
      assert Collides(mappings[t], i);
    }
  }

  /** The answers of `prepare`: the first that applies of no capacity, an unsound intent, no aperture that allows it,
      more than one, a shared address, a limit passed, and no free slot. */
  lemma PrepareMeaning(apertures: seq<ApertureRecord>, mappings: seq<MappingRecord>, tagger: Tagger, calls: set<Call>,
        i: Intent, now: nat)
    requires Inv(apertures, mappings, tagger, calls)
    ensures var e := PrepareError(apertures, mappings, i, now);
            && (e == Some(ZeroCapacity) <==> apertures == [] || mappings == [])
            && (e == Some(InvalidIntent) <==> apertures != [] && mappings != [] && !Sound(i, now))
            && (apertures != [] && mappings != [] && Sound(i, now) ==>
                  && (e == Some(NoMatchingAperture) <==> forall a :: !Offers(apertures, i, a))
                  && (e == Some(AmbiguousAperture) <==>
                        exists a, b :: a != b && Offers(apertures, i, a) && Offers(apertures, i, b)))
  {
    hide Inv;
    hide Matches;
    hide ValidIntent;
    hide Sound;
    hide Allows;
    hide AnyCollides;
    SoundExactly(i, now);
    if apertures != [] && mappings != [] && Sound(i, now) {
      SoundLength(i, now);
      forall a | 0 <= a < |apertures| ensures Usable(apertures[a], i) <==> Offers(apertures, i, a) {
        MatchesExactly(apertures[a].aperture, i);
      }
      var a := FirstUsable(apertures, i, 0);
      if a < |apertures| {
        assert Offers(apertures, i, a);
        var b := FirstUsable(apertures, i, a + 1);
        if b < |apertures| {
          assert Offers(apertures, i, b);
        } else {
          forall x | Offers(apertures, i, x) ensures x == a {
            assert Usable(apertures[x], i);
          }
        }
      } else {
        forall x ensures !Offers(apertures, i, x) {
          assert 0 <= x < |apertures| ==> !Usable(apertures[x], i);
        }
      }
    }
  }

  lemma SoundLength(i: Intent, now: nat)
    requires Sound(i, now)
    ensures i.length > 0
  {
  }

  /** The same with exactly one aperture that allows the intent. */
  lemma PrepareWithinMeaning(apertures: seq<ApertureRecord>, mappings: seq<MappingRecord>, tagger: Tagger,
        calls: set<Call>, i: Intent, now: nat, a: nat)
    requires Inv(apertures, mappings, tagger, calls) && mappings != [] && Sound(i, now)
    requires Offers(apertures, i, a) && forall b :: Offers(apertures, i, b) ==> b == a
    ensures var e := PrepareError(apertures, mappings, i, now);
            if a > U16_MAX then e == Some(ApertureCapacity)
            else if Shares(mappings, i) then e == Some(AddressOverlap)
            else if Held(mappings, a) + i.length > apertures[a].aperture.maximumTotal then e == Some(QuotaExceeded)
            else if forall s :: 0 <= s < |mappings| && s <= U16_MAX ==> !mappings[s].phase.Empty?
            then e == Some(MappingCapacity)
            else e.None?
  {
    hide Matches;
    hide MappingOk;
    hide CallsOk;
    hide Disjoint;
    hide Sound;
    hide Allows;
    hide Shares;
    hide AnyCollides;
    SoundExactly(i, now);
    SoundLength(i, now);
    SharesExactly(apertures, mappings, tagger, calls, i, now);
    hide ValidIntent;
    assert ApertureOk(apertures, mappings, a);
    hide Inv;
    forall b | 0 <= b < |apertures| ensures Usable(apertures[b], i) <==> b == a {
      MatchesExactly(apertures[b].aperture, i);
      assert Offers(apertures, i, b) <==> Usable(apertures[b], i);
    }
    hide Usable;
    assert FirstUsable(apertures, i, 0) == a;
    assert FirstUsable(apertures, i, a + 1) == |apertures|;
  }

  /** A ticket is found exactly when it is that of the mapping its slot holds now. */
  lemma TicketExactly(apertures: seq<ApertureRecord>, mappings: seq<MappingRecord>, tagger: Tagger, calls: set<Call>,
        t: Ticket)
    requires Inv(apertures, mappings, tagger, calls)
    ensures var r := FindTicket(mappings, tagger, t);
            if t == Ticket(0, 0, 0) || t.slot >= |mappings| then r == Err(InvalidTicket)
            else
              var m := mappings[t.slot];
              if m.phase.Empty? || m.generation != t.generation then r == Err(StaleTicket)
              else r == if m.tag == t.tag then Ok(t.slot) else Err(ForgedTicket)
  {
    hide Matches;
    if t.slot < |mappings| { assert MappingOk(apertures, tagger, mappings[t.slot], t.slot); }
  }

  // ---- old tickets -------------------------------------------------------

  /** What one operation may do to a slot: change a mapping without touching its generation, empty it, or give
      an empty slot to a new mapping under the next generation. */
  predicate Ages(a: MappingRecord, b: MappingRecord) {
    || (b.generation == a.generation && (a.phase.Empty? ==> b.phase.Empty?))
    || (a.phase.Empty? && b.phase.Prepared? && b.generation == NextGeneration(a.generation))
  }

  ghost predicate Aged(a: seq<MappingRecord>, b: seq<MappingRecord>) {
    |a| == |b| && forall s :: 0 <= s < |a| ==> Ages(a[s], b[s])
  }

  /** How often the slot was given to a new mapping. */
  function Preparations(life: seq<MappingRecord>): nat {
    if |life| < 2 then 0
    else
      var n := |life| - 1;
      Preparations(life[..n]) + if life[n - 1].phase.Empty? && !life[n].phase.Empty? then 1 else 0
  }

  ghost predicate Life(life: seq<MappingRecord>) {
    && life != [] && (forall k :: 0 <= k < |life| ==> 1 <= life[k].generation <= U16_MAX)
    && (forall k :: 0 <= k < |life| - 1 ==> Ages(life[k], life[k + 1]))
  }

  /** The generation after so many preparations. */
  lemma {:induction false} GenerationAfter(life: seq<MappingRecord>)
    requires Life(life)
    ensures life[|life| - 1].generation == 1 + (life[0].generation - 1 + Preparations(life)) % 65535
    ensures life[0].phase.Empty? && Preparations(life) == 0 ==> life[|life| - 1].phase.Empty?
  {
    var n := |life| - 1;
    if n > 0 {
      assert Ages(life[n - 1], life[n - 1 + 1]);
      GenerationAfter(life[..n]);
      GenerationStep(life[0].generation - 1 + Preparations(life[..n]));
    } else {
      assert (life[0].generation - 1) % 65535 == life[0].generation - 1;
    }
  }

  lemma GenerationStep(x: nat)
    ensures NextGeneration(1 + x % 65535) == 1 + (x + 1) % 65535
  {
  }

  /** A ticket whose mapping has been released is never found again before its slot has been given away 65535 times. */
  lemma ReleasedStaysStale(life: seq<MappingRecord>, g: nat)
    requires Life(life) && life[0].phase.Empty? && life[0].generation == g && Preparations(life) < 65535
    ensures life[|life| - 1].phase.Empty? || life[|life| - 1].generation != g
  {
    GenerationAfter(life);
    var p := Preparations(life);
    if p > 0 {
      assert (g - 1 + p) % 65535 != g - 1;
    }
  }

  function PhaseError(mappings: seq<MappingRecord>, tagger: Tagger, t: Ticket, wanted: Phase): Option<Error> {
    match FindTicket(mappings, tagger, t)
    case Err(e) => Some(e)
    case Ok(s) => if mappings[s].phase == wanted then None else Some(WrongPhase)
  }

  function CommitError(mappings: seq<MappingRecord>, tagger: Tagger, t: Ticket, now: nat): Option<Error> {
    if PhaseError(mappings, tagger, t, Phase.Prepared).Some? then PhaseError(mappings, tagger, t, Phase.Prepared)
    else if now >= mappings[t.slot].intent.expiresAt then Some(Error.Expired)
    else if |mappings[t.slot].witnesses| < mappings[t.slot].intent.quorum then Some(WitnessQuorum)
    else None
  }

  function RevokeError(mappings: seq<MappingRecord>, tagger: Tagger, t: Ticket): Option<Error> {
    match FindTicket(mappings, tagger, t)
    case Err(e) => Some(e)
    case Ok(s) =>
      if mappings[s].phase.Poisoned? then Some(PoisonedMapping)
      else if !mappings[s].phase.Active? then Some(WrongPhase) else None
  }

  function NextGeneration(g: nat): (r: nat)
    ensures 1 <= r <= U16_MAX
  {
    var next := (g + 1) % 0x1_0000;
    if next == 0 then 1 else next
  }

  function NewMapping(tagger: Tagger, s: nat, generation: nat, a: nat, i: Intent): MappingRecord {
    MappingRecord(Phase.Prepared, generation, a, i, {}, 0, tagger(s, generation, i))
  }

  // ---- the firewall ------------------------------------------------------

  datatype PrepareResult = PreparedWith(ticket: Ticket) | PrepareFailed(error: Error)
  datatype BeginMap = MapStarted(intent: Intent) | MapRefused(error: Error)
  datatype BeginUnmap = UnmapStarted(cookie: u64, intent: Intent) | UnmapRefused(error: Error)
  datatype Receipt = Receipt(ticket: Ticket, cookie: u64, deviceAddress: u64, length: u64, access: set<nat>,
        expiresAt: u64, witnesses: set<nat>)

  class Firewall {
    const apertures: array<ApertureRecord>
    const mappings: array<MappingRecord>
    const tagger: Tagger
    ghost var calls: set<Call>

    ghost predicate Valid()
      reads this, apertures, mappings
    {
      Inv(apertures[..], mappings[..], tagger, calls)
    }

    constructor (apertureCount: nat, mappingCount: nat, tagger: Tagger)
      ensures Valid() && calls == {} && fresh(apertures) && fresh(mappings)
      ensures apertures.Length == apertureCount && mappings.Length == mappingCount
    {
      apertures := new ApertureRecord[apertureCount](_ => EMPTY_APERTURE);
      mappings := new MappingRecord[mappingCount](_ => Cleared(1));
      this.tagger := tagger;
      calls := {};
      new;
      forall a | 0 <= a < apertures.Length ensures ApertureOk(apertures[..], mappings[..], a) {
        HeldNone(mappings[..], a);
      }
    }

    method InstallAperture(a: Aperture) returns (error: Option<Error>)
      requires Valid()
      modifies apertures
      ensures Valid()
      ensures error == (if apertures.Length == 0 then Some(ZeroCapacity)
                        else if !ValidAperture(a) then Some(InvalidAperture)
                        else if exists k :: 0 <= k < apertures.Length && Named(old(apertures[..])[k], a.id)
                        then Some(InvalidAperture)
                        else if forall k :: 0 <= k < apertures.Length ==> old(apertures[..])[k].occupied
                        then Some(ApertureCapacity)
                        else None)
      ensures error.Some? ==> apertures[..] == old(apertures[..])
      ensures error.None? ==>
                exists k :: && 0 <= k < apertures.Length && !old(apertures[..])[k].occupied
                            && (forall j :: 0 <= j < k ==> old(apertures[..])[j].occupied)
                            && apertures[..] == old(apertures[..])[k := ApertureRecord(true, a, 0)]
    {
      hide MappingOk;
      hide CallsOk;
      hide Disjoint;
      hide Held;
      if apertures.Length == 0 { return Some(ZeroCapacity); }
      if !ValidAperture(a) { return Some(InvalidAperture); }
      hide ValidAperture;
      var k := 0;
      while k < apertures.Length
        invariant 0 <= k <= apertures.Length && forall j :: 0 <= j < k ==> !Named(apertures[..][j], a.id)
      {
        if apertures[k].occupied && apertures[k].aperture.id == a.id {
          assert Named(apertures[..][k], a.id);
          return Some(InvalidAperture);
        }
        k := k + 1;
      }
      k := 0;
      while k < apertures.Length
        invariant 0 <= k <= apertures.Length && forall j :: 0 <= j < k ==> apertures[..][j].occupied
      {
        if !apertures[k].occupied {
          assert forall j :: 0 <= j < apertures.Length ==> !Named(apertures[..][j], a.id);
          assert !apertures[..][k].occupied;
          assert ApertureOk(apertures[..], mappings[..], k);
          ApertureSwap(apertures[..], mappings[..], tagger, calls, k, ApertureRecord(true, a, 0));
          apertures[k] := ApertureRecord(true, a, 0);
          assert apertures[..] == old(apertures[..])[k := ApertureRecord(true, a, 0)];
          return None;
        }
        k := k + 1;
      }
      return Some(ApertureCapacity);
    }

    method RemoveAperture(id: nat) returns (error: Option<Error>)
      requires Valid()
      modifies apertures
      ensures Valid()
      ensures error.None? ==>
                exists k :: && FirstNamed(old(apertures[..]), id, k) && Held(mappings[..], k) == 0
                            && apertures[..] == old(apertures[..])[k := EMPTY_APERTURE]
      ensures error == Some(ApertureBusy) <==>
                exists k :: FirstNamed(old(apertures[..]), id, k) && Held(mappings[..], k) > 0
      ensures error == Some(ApertureNotFound) <==>
                forall k :: 0 <= k < apertures.Length ==> !Named(old(apertures[..])[k], id)
      ensures error.Some? ==>
                apertures[..] == old(apertures[..]) && (error.value.ApertureNotFound? || error.value.ApertureBusy?)
    {
      hide MappingOk;
      hide CallsOk;
      hide Disjoint;
      hide Held;
      var k := 0;
      while k < apertures.Length
        invariant 0 <= k <= apertures.Length && forall j :: 0 <= j < k ==> !Named(apertures[..][j], id)
      {
        if apertures[k].occupied && apertures[k].aperture.id == id {
          assert FirstNamed(apertures[..], id, k);
          assert ApertureOk(apertures[..], mappings[..], k);
          if apertures[k].reserved != 0 { return Some(ApertureBusy); }
          ApertureSwap(apertures[..], mappings[..], tagger, calls, k, EMPTY_APERTURE);
          apertures[k] := EMPTY_APERTURE;
          assert apertures[..] == old(apertures[..])[k := EMPTY_APERTURE];
          return None;
        }
        k := k + 1;
      }
      return Some(ApertureNotFound);
    }

    method FindUsable(i: Intent, from: nat) returns (a: nat)
      requires from <= apertures.Length
      ensures a == FirstUsable(apertures[..], i, from)
    {
      hide Matches;
      a := from;
      while a < apertures.Length
        invariant && from <= a <= apertures.Length
                  && FirstUsable(apertures[..], i, from) == FirstUsable(apertures[..], i, a)
      {
        if apertures[a].occupied && Matches(apertures[a].aperture, i) { return; }
        a := a + 1;
      }
    }

    method FindEmpty() returns (s: nat)
      ensures s == FirstEmpty(mappings[..], 0)
    {
      s := 0;
      while s < mappings.Length
        invariant 0 <= s <= mappings.Length && FirstEmpty(mappings[..], 0) == FirstEmpty(mappings[..], s)
      {
        if mappings[s].phase.Empty? { return; }
        s := s + 1;
      }
    }

    method FindCollision(i: Intent) returns (found: bool)
      ensures found == AnyCollides(mappings[..], i)
    {
      hide RangesOverlap;
      var t := 0;
      while t < mappings.Length
        invariant 0 <= t <= mappings.Length && forall u :: 0 <= u < t ==> !Collides(mappings[..][u], i)
      {
        if Collides(mappings[t], i) {
          assert Collides(mappings[..][t], i);
          return true;
        }
        t := t + 1;
      }
      return false;
    }

    method Prepare(i: Intent, now: nat) returns (r: PrepareResult)
      requires Valid()
      modifies apertures, mappings
      ensures Valid()
      ensures match PrepareError(old(apertures[..]), old(mappings[..]), i, now)
              case Some(e) =>
                r == PrepareFailed(e) && apertures[..] == old(apertures[..]) && mappings[..] == old(mappings[..])
              case None =>
                var a, s := FirstUsable(old(apertures[..]), i, 0), FirstEmpty(old(mappings[..]), 0);
                && s < mappings.Length && a < apertures.Length
                && r == PreparedWith(Ticket(s, mappings[s].generation, mappings[s].tag))
                      && FindTicket(mappings[..], tagger, r.ticket) == Ok(s)
                && mappings[..] == old(mappings[..])[s := mappings[s]]
                && mappings[s] == NewMapping(tagger, s, NextGeneration(old(mappings[..])[s].generation), a, i)
                && var before := old(apertures[..]);
                   apertures[..] == before[a := before[a].(reserved := before[a].reserved + i.length)]
      ensures Aged(old(mappings[..]), mappings[..])
    {
      hide MappingOk;
      hide CallsOk;
      hide Held;
      hide Matches;
      hide ApertureOk;
      hide Disjoint;
      hide ValidIntent;
      hide FirstUsable;
      hide FirstEmpty;
      hide RangesOverlap;
      if apertures.Length == 0 || mappings.Length == 0 { return PrepareFailed(ZeroCapacity); }
      if !ValidIntent(i, now) { return PrepareFailed(InvalidIntent); }
      var a := FindUsable(i, 0);
      if a == apertures.Length { return PrepareFailed(NoMatchingAperture); }
      var second := FindUsable(i, a + 1);
      if second < apertures.Length { return PrepareFailed(AmbiguousAperture); }
      if a > U16_MAX { return PrepareFailed(ApertureCapacity); }
      var collides := FindCollision(i);
      if collides { return PrepareFailed(AddressOverlap); }
      var reserved := apertures[a].reserved + i.length;
      if reserved > U64_MAX { return PrepareFailed(QuotaExceeded); }
      if reserved > apertures[a].aperture.maximumTotal { return PrepareFailed(QuotaExceeded); }
      var s := FindEmpty();
      if s == mappings.Length { return PrepareFailed(MappingCapacity); }
      if s > U16_MAX { return PrepareFailed(MappingCapacity); }
      var generation := NextGeneration(mappings[s].generation);
      var m := NewMapping(tagger, s, generation, a, i);
      PrepareKeeps(apertures[..], mappings[..], tagger, calls, a, s, m, now);
      mappings[s] := m;
      apertures[a] := apertures[a].(reserved := reserved);
      assert mappings[..] == old(mappings[..])[s := m];
      assert apertures[..] == old(apertures[..])[a := old(apertures[..])[a].(reserved := reserved)];
      return PreparedWith(Ticket(s, generation, m.tag));
    }

    method Witness(t: Ticket, w: nat) returns (inserted: bool, error: Option<Error>)
      requires Valid()
      modifies mappings
      ensures Valid()
      ensures error ==
                if w >= 64 then Some(WitnessOutOfRange) else PhaseError(old(mappings[..]), tagger, t, Phase.Prepared)
      ensures error.Some? ==> mappings[..] == old(mappings[..]) && !inserted
      ensures error.None? ==>
                && w < 64 && FindTicket(old(mappings[..]), tagger, t).Ok? && old(mappings[..])[t.slot].phase.Prepared?
                && inserted == (w !in old(mappings[..])[t.slot].witnesses)
                && var before := old(mappings[..]);
                   mappings[..] == before[t.slot := before[t.slot].(witnesses := before[t.slot].witnesses + {w})]
      ensures Aged(old(mappings[..]), mappings[..])
    {
      hide Held;
      hide Matches;
      hide Disjoint;
      hide CallsOk;
      if w >= 64 { return false, Some(WitnessOutOfRange); }
      var found := FindTicket(mappings[..], tagger, t);
      if found.Err? { return false, Some(found.error); }
      var m := mappings[found.index];
      if !m.phase.Prepared? { return false, Some(WrongPhase); }
      inserted := w !in m.witnesses;
      var m' := m.(witnesses := m.witnesses + {w});
      assert MappingOk(apertures[..], tagger, mappings[..][t.slot], t.slot);
      CallsElsewhere(mappings[..], calls, t.slot, m');
      PhaseChangeKeeps(apertures[..], mappings[..], tagger, calls, calls, t.slot, m');
      mappings[t.slot] := m';
      assert mappings[..] == old(mappings[..])[t.slot := m'];
      error := None;
    }

    /** Gives back the reservation of a mapping and empties its slot. */
    method Release(s: nat, ghost calls': set<Call>)
      requires Valid() && s < mappings.Length && !mappings[s].phase.Empty?
      requires CallsOk(mappings[..][s := Cleared(mappings[s].generation)], calls')
      modifies this`calls, apertures, mappings
      ensures Valid() && calls == calls'
      ensures mappings[..] == old(mappings[..])[s := Cleared(old(mappings[s].generation))]
      ensures apertures[..] == Released(old(apertures[..]), old(mappings[s]))
    {
      hide Held;
      hide Matches;
      hide Disjoint;
      hide CallsOk;
      hide MappingOk;
      hide ApertureOk;
      ReleaseKeeps(apertures[..], mappings[..], tagger, calls, calls', s);
      var m := mappings[s];
      if m.apertureSlot < apertures.Length {
        apertures[m.apertureSlot] := Reduced(apertures[m.apertureSlot], m.intent.length);
      }
      mappings[s] := Cleared(m.generation);
      calls := calls';
      assert apertures[..] == Released(old(apertures[..]), m);
      assert mappings[..] == old(mappings[..])[s := Cleared(m.generation)];
    }

    /** What the second critical sections check again. */
    method CheckPhase(t: Ticket, wanted: Phase) returns (error: Option<Error>)
      ensures error == PhaseError(mappings[..], tagger, t, wanted)
    {
      var found := FindTicket(mappings[..], tagger, t);
      if found.Err? { return Some(found.error); }
      if mappings[found.index].phase != wanted { return Some(WrongPhase); }
      return None;
    }

    /** First critical section of commit. */
    method CommitBegin(t: Ticket, now: nat) returns (r: BeginMap)
      requires Valid()
      modifies this`calls, apertures, mappings
      ensures Valid()
      ensures r.MapRefused? <==> CommitError(old(mappings[..]), tagger, t, now).Some?
      ensures r.MapRefused? ==> Some(r.error) == CommitError(old(mappings[..]), tagger, t, now)
      ensures r.MapStarted? ==>
                && FindTicket(old(mappings[..]), tagger, t).Ok? && old(mappings[..])[t.slot].phase.Prepared?
                      && r.intent == old(mappings[..])[t.slot].intent
                && now < r.intent.expiresAt && |old(mappings[..])[t.slot].witnesses| >= r.intent.quorum
                && mappings[..] == old(mappings[..])[t.slot := old(mappings[..])[t.slot].(phase := Mapping)]
                      && apertures[..] == old(apertures[..])
                && calls == old(calls) + {MapCall(t, r.intent)}
      ensures r.MapRefused? ==> calls == old(calls)
      ensures r.MapRefused? && r.error != Error.Expired ==>
                mappings[..] == old(mappings[..]) && apertures[..] == old(apertures[..])
      ensures r == MapRefused(Error.Expired) ==>
                && t.slot < mappings.Length && mappings[..] == old(mappings[..])[t.slot := Cleared(t.generation)]
                && apertures[..] == Released(old(apertures[..]), old(mappings[..])[t.slot])
      ensures Aged(old(mappings[..]), mappings[..])
    {
      hide Held;
      hide Matches;
      hide Disjoint;
      hide CallsOk;
      hide Released;
      var found := FindTicket(mappings[..], tagger, t);
      if found.Err? { return MapRefused(found.error); }
      var s := found.index;
      var m := mappings[s];
      if !m.phase.Prepared? { return MapRefused(WrongPhase); }
      if now >= m.intent.expiresAt {
        CallsElsewhere(mappings[..], calls, s, Cleared(m.generation));
        Release(s, calls);
        return MapRefused(Error.Expired);
      }
      if |m.witnesses| < m.intent.quorum { return MapRefused(WitnessQuorum); }
      ghost var c := MapCall(t, m.intent);
      var m' := m.(phase := Mapping);
      assert MappingOk(apertures[..], tagger, mappings[..][s], s);
      CallBegins(mappings[..], calls, c, m');
      PhaseChangeKeeps(apertures[..], mappings[..], tagger, calls, calls + {c}, s, m');
      mappings[s] := m';
      calls := calls + {c};
      assert mappings[..] == old(mappings[..])[s := m'];
      return MapStarted(m.intent);
    }

    /** Second critical section of commit, with the backend's answer: None for a failed map. */
    method CommitEnd(t: Ticket, cookie: Option<u64>, ghost intent: Intent)
      returns (receipt: Option<Receipt>, error: Option<Error>)
      requires Valid() && MapCall(t, intent) in calls
      modifies this`calls, apertures, mappings
      ensures Valid() && calls == old(calls) - {MapCall(t, intent)} && t.slot < mappings.Length
      ensures error ==
                match cookie
                case None => Some(BackendMap)
                case Some(k) => if k == 0 then Some(InvalidBackendCookie) else None
      ensures error.None? ==>
                && receipt == Some(Receipt(t, cookie.value, intent.deviceAddress, intent.length, intent.access,
                      intent.expiresAt, old(mappings[..])[t.slot].witnesses))
                && mappings[..] == old(mappings[..])[t.slot := old(mappings[..])[t.slot].(phase := Active,
                      cookie := cookie.value)] && apertures[..] == old(apertures[..])
      ensures error.Some? ==>
                && receipt.None? && mappings[..] == old(mappings[..])[t.slot := Cleared(t.generation)]
                && apertures[..] == Released(old(apertures[..]), old(mappings[..])[t.slot])
      ensures Aged(old(mappings[..]), mappings[..])
    {
      hide Held;
      hide Matches;
      hide Disjoint;
      hide CallsOk;
      hide Released;
      ghost var c := MapCall(t, intent);
      RelockFinds(apertures[..], mappings[..], tagger, calls, c);
      CallIs(mappings[..], calls, c);
      error := CheckPhase(t, Mapping);
      if error.Some? { return None, error; }
      var s := t.slot;
      var m := mappings[s];
      if cookie.Some? && cookie.value != 0 {
        var m' := m.(phase := Active, cookie := cookie.value);
        assert MappingOk(apertures[..], tagger, mappings[..][s], s);
        CallEnds(mappings[..], calls, c, m');
        PhaseChangeKeeps(apertures[..], mappings[..], tagger, calls, calls - {c}, s, m');
        mappings[s] := m';
        calls := calls - {c};
        assert mappings[..] == old(mappings[..])[s := m'];
        return Some(Receipt(t, cookie.value, m.intent.deviceAddress, m.intent.length, m.intent.access,
                            m.intent.expiresAt, m.witnesses)), None;
      }
      CallEnds(mappings[..], calls, c, Cleared(m.generation));
      Release(s, calls - {c});
      return None, Some(if cookie.Some? then InvalidBackendCookie else BackendMap);
    }

    /** First critical section of revoke. */
    method RevokeBegin(t: Ticket) returns (r: BeginUnmap)
      requires Valid()
      modifies this`calls, mappings
      ensures Valid()
      ensures r.UnmapRefused? <==> RevokeError(old(mappings[..]), tagger, t).Some?
      ensures r.UnmapRefused? ==> Some(r.error) == RevokeError(old(mappings[..]), tagger, t)
      ensures r.UnmapStarted? ==>
                && FindTicket(old(mappings[..]), tagger, t).Ok? && old(mappings[..])[t.slot].phase.Active?
                && r.intent == old(mappings[..])[t.slot].intent && r.cookie == old(mappings[..])[t.slot].cookie
                && r.cookie != 0
                && mappings[..] == old(mappings[..])[t.slot := old(mappings[..])[t.slot].(phase := Revoking)]
                && calls == old(calls) + {UnmapCall(t, r.intent, r.cookie)}
      ensures r.UnmapRefused? ==> mappings[..] == old(mappings[..]) && calls == old(calls)
      ensures Aged(old(mappings[..]), mappings[..])
    {
      hide Held;
      hide Matches;
      hide Disjoint;
      hide CallsOk;
      var found := FindTicket(mappings[..], tagger, t);
      if found.Err? { return UnmapRefused(found.error); }
      var s := found.index;
      var m := mappings[s];
      if m.phase.Poisoned? { return UnmapRefused(PoisonedMapping); }
      if !m.phase.Active? { return UnmapRefused(WrongPhase); }
      ghost var c := UnmapCall(t, m.intent, m.cookie);
      var m' := m.(phase := Revoking);
      assert MappingOk(apertures[..], tagger, mappings[..][s], s);
      CallBegins(mappings[..], calls, c, m');
      PhaseChangeKeeps(apertures[..], mappings[..], tagger, calls, calls + {c}, s, m');
      mappings[s] := m';
      calls := calls + {c};
      assert mappings[..] == old(mappings[..])[s := m'];
      return UnmapStarted(m.cookie, m.intent);
    }

    /** Second critical section of revoke, with the backend's answer. */
    method RevokeEnd(t: Ticket, unmapped: bool, ghost intent: Intent, ghost cookie: u64) returns (error: Option<Error>)
      requires Valid() && UnmapCall(t, intent, cookie) in calls
      modifies this`calls, apertures, mappings
      ensures Valid() && calls == old(calls) - {UnmapCall(t, intent, cookie)} && t.slot < mappings.Length
      ensures error == if unmapped then None else Some(BackendUnmap)
      ensures unmapped ==>
                && mappings[..] == old(mappings[..])[t.slot := Cleared(t.generation)]
                && apertures[..] == Released(old(apertures[..]), old(mappings[..])[t.slot])
      ensures !unmapped ==>
                && mappings[..] == old(mappings[..])[t.slot := old(mappings[..])[t.slot].(phase := Poisoned)]
                && apertures[..] == old(apertures[..])
      ensures Aged(old(mappings[..]), mappings[..])
    {
      hide Held;
      hide Matches;
      hide Disjoint;
      hide CallsOk;
      hide Released;
      ghost var c := UnmapCall(t, intent, cookie);
      RelockFinds(apertures[..], mappings[..], tagger, calls, c);
      CallIs(mappings[..], calls, c);
      error := CheckPhase(t, Revoking);
      if error.Some? { return error; }
      var s := t.slot;
      var m := mappings[s];
      if unmapped {
        CallEnds(mappings[..], calls, c, Cleared(m.generation));
        Release(s, calls - {c});
        return None;
      }
      var m' := m.(phase := Poisoned);
      assert MappingOk(apertures[..], tagger, mappings[..][s], s);
      CallEnds(mappings[..], calls, c, m');
      PhaseChangeKeeps(apertures[..], mappings[..], tagger, calls, calls - {c}, s, m');
      mappings[s] := m';
      calls := calls - {c};
      assert mappings[..] == old(mappings[..])[s := m'];
      return Some(BackendUnmap);
    }

    /** Empties a slot in the wanted phase; `abort_prepared` wants Prepared, `acknowledge_poison` wants Poisoned. */
    method Discard(t: Ticket, wanted: Phase) returns (error: Option<Error>, intent: Intent)
      requires Valid() && (wanted.Prepared? || wanted.Poisoned?)
      modifies this`calls, apertures, mappings
      ensures Valid() && calls == old(calls)
      ensures error == PhaseError(old(mappings[..]), tagger, t, wanted)
      ensures error.Some? ==> mappings[..] == old(mappings[..]) && apertures[..] == old(apertures[..])
      ensures error.None? ==>
                && mappings[..] == old(mappings[..])[t.slot := Cleared(t.generation)]
                && intent == old(mappings[..])[t.slot].intent
                && apertures[..] == Released(old(apertures[..]), old(mappings[..])[t.slot])
      ensures Aged(old(mappings[..]), mappings[..])
    {
      hide Held;
      hide Matches;
      hide Disjoint;
      hide CallsOk;
      hide Released;
      hide MappingOk;
      hide ApertureOk;
      intent := EMPTY_INTENT;
      error := CheckPhase(t, wanted);
      if error.Some? { return error, intent; }
      var s := t.slot;
      var m := mappings[s];
      CallsElsewhere(mappings[..], calls, s, Cleared(m.generation));
      Release(s, calls);
      return None, m.intent;
    }

    method ExpireOne(now: nat) returns (t: Option<Ticket>)
      requires Valid()
      modifies this`calls, apertures, mappings
      ensures Valid() && calls == old(calls)
      ensures t.None? <==> forall s :: 0 <= s < mappings.Length ==> !Lapsed(old(mappings[..])[s], now)
      ensures t.Some? ==>
                && t.value.slot < mappings.Length && old(mappings[..])[t.value.slot].phase.Prepared?
                && old(mappings[..])[t.value.slot].intent.expiresAt <= now
      ensures t.None? ==>
                forall s :: 0 <= s < mappings.Length && mappings[s].phase.Prepared? ==>
                              now < mappings[s].intent.expiresAt
      ensures t.None? ==> mappings[..] == old(mappings[..]) && apertures[..] == old(apertures[..])
      ensures t.Some? ==>
                && t.value.slot < mappings.Length && Lapsed(old(mappings[..])[t.value.slot], now)
                && t.value.generation == old(mappings[..])[t.value.slot].generation
                && t.value.tag == old(mappings[..])[t.value.slot].tag
                && (forall s :: 0 <= s < t.value.slot ==> !Lapsed(old(mappings[..])[s], now))
                && mappings[..] ==
                     old(mappings[..])[t.value.slot := Cleared(old(mappings[..])[t.value.slot].generation)]
                && apertures[..] == Released(old(apertures[..]), old(mappings[..])[t.value.slot])
      ensures Aged(old(mappings[..]), mappings[..])
    {
      hide Held;
      hide Matches;
      hide Disjoint;
      hide CallsOk;
      hide Released;
      hide MappingOk;
      hide ApertureOk;
      var s := 0;
      while s < mappings.Length
        invariant 0 <= s <= mappings.Length && mappings[..] == old(mappings[..]) && apertures[..] == old(apertures[..])
        invariant Valid() && calls == old(calls) && forall u :: 0 <= u < s ==> !Lapsed(mappings[..][u], now)
      {
        if Lapsed(mappings[s], now) {
          assert Lapsed(mappings[..][s], now);
          var m := mappings[s];
          CallsElsewhere(mappings[..], calls, s, Cleared(m.generation));
          Release(s, calls);
          return Some(Ticket(s, m.generation, m.tag));
        }
        s := s + 1;
      }
      return None;
    }
  }

  /** The record a search for the id finds. */
  ghost predicate FirstNamed(apertures: seq<ApertureRecord>, id: nat, k: int) {
    0 <= k < |apertures| && Named(apertures[k], id) && forall j :: 0 <= j < k ==> !Named(apertures[j], id)
  }

  predicate Named(r: ApertureRecord, id: nat) {
    r.occupied && r.aperture.id == id
  }

  predicate Lapsed(m: MappingRecord, now: nat) {
    m.phase.Prepared? && now >= m.intent.expiresAt
  }

  lemma CallIs(mappings: seq<MappingRecord>, calls: set<Call>, c: Call)
    requires CallsOk(mappings, calls) && c in calls
    ensures CallOk(mappings, c)
  {
  }

  lemma ValidLength(i: Intent)
    requires ValidIntent(i, 0)
    ensures i.length > 0
  {
  }

  /** An aperture that holds nothing can be replaced. */
  lemma ApertureSwap(apertures: seq<ApertureRecord>, mappings: seq<MappingRecord>, tagger: Tagger, calls: set<Call>,
        k: nat, r: ApertureRecord)
    requires Inv(apertures, mappings, tagger, calls) && k < |apertures| && r.reserved == 0
    requires apertures[k].reserved == 0
    requires r.occupied ==>
               && ValidAperture(r.aperture)
               && forall j :: 0 <= j < |apertures| && j != k ==> !Named(apertures[j], r.aperture.id)
    ensures Inv(apertures[k := r], mappings, tagger, calls)
  {
    hide Matches;
    hide ValidAperture;
    hide ValidIntent;
    hide RangesOverlap;
    hide CallsOk;
    var apertures' := apertures[k := r];
    assert ApertureOk(apertures, mappings, k);
    forall a | 0 <= a < |apertures| ensures ApertureOk(apertures', mappings, a) {
      assert ApertureOk(apertures, mappings, a);
    }
    forall s | 0 <= s < |mappings| ensures MappingOk(apertures', tagger, mappings[s], s) {
      assert MappingOk(apertures, tagger, mappings[s], s);
      if !mappings[s].phase.Empty? { ValidLength(mappings[s].intent); }
      HeldUpdate(mappings, s, mappings[s], k);
    }
  }
}
