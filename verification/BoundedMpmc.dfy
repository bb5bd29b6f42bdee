/** The bounded multi-producer multi-consumer queue of core/aether/src/lockfree.rs, as a step
    system: every atomic operation of `push`, `pop` and `initialize` is one step of one thread,
    and any interleaving of any number of threads is a run.

    Positions are unbounded naturals.  `base`, `pushed` and `delivered` are history: they are
    written by the steps and never read by them. */
module BoundedMpmc {
  import opened Arithmetic

  datatype Option<T> = None | Some(value: T)

  datatype Phase = Uninitialized | Initializing(next: nat) | Ready

  datatype Slot<T> = Slot(sequence: nat, value: Option<T>)

  /** Where a thread stands inside `push` or `pop`. */
  datatype Pc<T> =
    | Idle
    | PushAt(item: T, position: nat)       // position loaded, slot sequence not yet read
    | PushReload(item: T)                  // slot is ahead, position to be loaded again
    | PushCas(item: T, position: nat)      // sequence equalled position
    | PushWrite(item: T, position: nat)    // position claimed
    | PushPublish(item: T, position: nat)  // value written
    | PopAt(position: nat)
    | PopReload
    | PopCas(position: nat)
    | PopRead(position: nat)
    | PopRelease(position: nat, taken: T)

  datatype State<T> = State(
    phase: Phase,
    enqueue: nat,
    dequeue: nat,
    slots: seq<Slot<T>>,
    threads: map<nat, Pc<T>>,
    base: seq<nat>,            // the position each slot currently serves
    pushed: seq<T>,            // the item of every claimed push, by position
    delivered: map<nat, T>     // what the pop of each position returned
  )

  datatype Action<T> =
    | InitBegin | InitSlot | InitReady
    | BeginPush(t: nat, item: T) | LoadPushSequence(t: nat) | ReloadPush(t: nat)
    | CasPush(t: nat, spurious: bool) | WritePush(t: nat) | PublishPush(t: nat)
    | BeginPop(t: nat) | LoadPopSequence(t: nat) | ReloadPop(t: nat)
    | CasPop(t: nat, spurious: bool) | ReadPop(t: nat) | ReleasePop(t: nat)

  /** The slot that serves a position. */
  function Index(n: nat, position: nat): (i: nat)
    requires n > 0
    ensures i < n
  {
    position % n
  }

  function At<T>(s: State<T>, t: nat): Pc<T> {
    if t in s.threads then s.threads[t] else Idle
  }

  function Move<T>(s: State<T>, t: nat, pc: Pc<T>): State<T> {
    s.(threads := s.threads[t := pc])
  }

  ghost predicate Init<T>(n: nat, s: State<T>) {
    && s.phase.Uninitialized? && s.enqueue == 0 && s.dequeue == 0
    && |s.slots| == n && |s.base| == n
    && (forall i :: 0 <= i < n ==> s.slots[i] == Slot(0, None))
    && s.threads == map[] && s.pushed == [] && s.delivered == map[]
  }

  ghost predicate Next<T>(n: nat, s: State<T>, s': State<T>, a: Action<T>)
    requires n > 0 && |s.slots| == n && |s.base| == n
  {
    match a
    case InitBegin => s.phase.Uninitialized? && s' == s.(phase := Initializing(0), enqueue := 0, dequeue := 0)
    case InitSlot =>
      && s.phase.Initializing? && s.phase.next < n
      && s' == s.(phase := Initializing(s.phase.next + 1),
                  slots := s.slots[s.phase.next := s.slots[s.phase.next].(sequence := s.phase.next)],
                  base := s.base[s.phase.next := s.phase.next])
    case InitReady => s.phase == Initializing(n) && s' == s.(phase := Ready)

    case BeginPush(t, item) =>
      s.phase.Ready? && At(s, t).Idle? && s' == Move(s, t, PushAt(item, s.enqueue))
    case ReloadPush(t) =>
      At(s, t).PushReload? && s' == Move(s, t, PushAt(At(s, t).item, s.enqueue))
    case LoadPushSequence(t) =>
      && At(s, t).PushAt?
      && var PushAt(item, position) := At(s, t);
         var sequence := s.slots[Index(n, position)].sequence;
         s' == Move(s, t, if sequence == position then PushCas(item, position)
                          else if sequence < position then Idle   // Err(Full)
                          else PushReload(item))
    case CasPush(t, spurious) =>
      && At(s, t).PushCas?
      && var PushCas(item, position) := At(s, t);
         s' == if s.enqueue == position && !spurious
               then Move(s, t, PushWrite(item, position)).(enqueue := position + 1, pushed := s.pushed + [item])
               else Move(s, t, PushAt(item, s.enqueue))
    case WritePush(t) =>
      && At(s, t).PushWrite?
      && var PushWrite(item, position) := At(s, t);
         var i := Index(n, position);
         s' == Move(s, t, PushPublish(item, position)).(slots := s.slots[i := s.slots[i].(value := Some(item))])
    case PublishPush(t) =>
      && At(s, t).PushPublish?
      && var position := At(s, t).position;
         var i := Index(n, position);
         s' == Move(s, t, Idle).(slots := s.slots[i := s.slots[i].(sequence := position + 1)])

    case BeginPop(t) =>
      s.phase.Ready? && At(s, t).Idle? && s' == Move(s, t, PopAt(s.dequeue))
    case ReloadPop(t) =>
      At(s, t).PopReload? && s' == Move(s, t, PopAt(s.dequeue))
    case LoadPopSequence(t) =>
      && At(s, t).PopAt?
      && var position := At(s, t).position;
         var sequence := s.slots[Index(n, position)].sequence;
         s' == Move(s, t, if sequence == position + 1 then PopCas(position)
                          else if sequence < position + 1 then Idle   // Err(Empty)
                          else PopReload)
    case CasPop(t, spurious) =>
      && At(s, t).PopCas?
      && var position := At(s, t).position;
         s' == if s.dequeue == position && !spurious
               then Move(s, t, PopRead(position)).(dequeue := position + 1)
               else Move(s, t, PopAt(s.dequeue))
    case ReadPop(t) =>
      && At(s, t).PopRead?
      && var position := At(s, t).position;
         // assume_init_read is undefined on an unwritten slot: such a run has no next state
         && s.slots[Index(n, position)].value.Some?
         && s' == Move(s, t, PopRelease(position, s.slots[Index(n, position)].value.value))
    case ReleasePop(t) =>
      && At(s, t).PopRelease?
      && var PopRelease(position, taken) := At(s, t);
         var i := Index(n, position);
         s' == Move(s, t, Idle).(slots := s.slots[i := s.slots[i].(sequence := position + n)],
                                 base := s.base[i := position + n],
                                 delivered := s.delivered[position := taken])
  }

  // ---- the invariant -----------------------------------------------------

  /** Slot i serves position b: free or being written at sequence b, published at b + 1. */
  ghost predicate SlotInv<T>(n: nat, s: State<T>, i: nat)
    requires n > 0 && |s.slots| == |s.base| == n && i < n
  {
    var b, slot := s.base[i], s.slots[i];
    && Index(n, b) == i
    && s.enqueue <= b + n && (b >= n ==> b - n < s.dequeue)
    && (slot.sequence == b || slot.sequence == b + 1)
    && (slot.sequence == b ==> s.dequeue <= b)
    && (slot.sequence == b + 1 ==> b < s.enqueue && b < |s.pushed| && slot.value == Some(s.pushed[b]))
  }

  /** The thread owns the slot of its position as a producer. */
  predicate Producing<T>(pc: Pc<T>) { pc.PushWrite? || pc.PushPublish? }

  /** The thread owns the slot of its position as a consumer. */
  predicate Consuming<T>(pc: Pc<T>) { pc.PopRead? || pc.PopRelease? }

  ghost predicate ThreadInv<T>(n: nat, s: State<T>, pc: Pc<T>)
    requires n > 0 && |s.slots| == |s.base| == n
  {
    match pc
    case PushAt(_, p) => p <= s.enqueue
    case PopAt(p) => p <= s.dequeue
    case PushCas(_, p) => s.base[Index(n, p)] >= p
    case PushWrite(item, p) =>
      && s.base[Index(n, p)] == p && s.slots[Index(n, p)].sequence == p && p < s.enqueue && p < |s.pushed|
      && s.pushed[p] == item
    case PushPublish(item, p) =>
      && s.base[Index(n, p)] == p && s.slots[Index(n, p)].sequence == p && p < s.enqueue && p < |s.pushed|
      && s.pushed[p] == item
      && s.slots[Index(n, p)].value == Some(item)
    case PopCas(p) => s.base[Index(n, p)] >= p && (s.base[Index(n, p)] == p ==> s.slots[Index(n, p)].sequence == p + 1)
    case PopRead(p) => s.base[Index(n, p)] == p && s.slots[Index(n, p)].sequence == p + 1 && p < s.dequeue
    case PopRelease(p, taken) =>
      && s.base[Index(n, p)] == p && s.slots[Index(n, p)].sequence == p + 1 && p < s.dequeue
      && p < |s.pushed| && s.pushed[p] == taken
    case _ => true
  }

  /** No two threads own the same position. */
  ghost predicate Exclusive<T>(s: State<T>) {
    && (forall t, u :: t in s.threads && u in s.threads && t != u && Producing(s.threads[t]) && Producing(s.threads[u])
          ==> s.threads[t].position != s.threads[u].position)
    && (forall t, u :: t in s.threads && u in s.threads && t != u && Consuming(s.threads[t]) && Consuming(s.threads[u])
          ==> s.threads[t].position != s.threads[u].position)
  }

  ghost predicate OwnedBy<T>(s: State<T>, t: nat, p: nat, producer: bool) {
    && t in s.threads && (if producer then Producing(s.threads[t]) else Consuming(s.threads[t]))
    && s.threads[t].position == p
  }

  /** Nothing is lost: a claimed position is in the hands of a thread until it is published or delivered. */
  ghost predicate Accounted<T>(n: nat, s: State<T>)
    requires n > 0 && |s.slots| == |s.base| == n
  {
    && (forall p :: s.dequeue <= p < s.enqueue && s.slots[Index(n, p)].sequence == p ==>
                      exists t :: OwnedBy(s, t, p, true))
    && (forall p :: 0 <= p < s.dequeue && p !in s.delivered ==> exists t :: OwnedBy(s, t, p, false))
  }

  ghost predicate Delivered<T>(n: nat, s: State<T>)
    requires n > 0 && |s.slots| == |s.base| == n
  {
    forall p: nat ::
      && (p in s.delivered <==> p < s.base[Index(n, p)])
      && (p in s.delivered ==> p < s.dequeue && p < |s.pushed| && s.delivered[p] == s.pushed[p])
  }

  ghost predicate Running<T>(n: nat, s: State<T>)
    requires n > 0 && |s.slots| == |s.base| == n
  {
    && s.dequeue <= s.enqueue <= s.dequeue + n && |s.pushed| == s.enqueue
    && (forall i :: 0 <= i < n ==> SlotInv(n, s, i))
    && (forall t :: t in s.threads ==> ThreadInv(n, s, s.threads[t]))
    && Exclusive(s) && Accounted(n, s) && Delivered(n, s)
  }

  ghost predicate Starting<T>(n: nat, s: State<T>)
    requires |s.slots| == |s.base| == n
  {
    && s.threads == map[] && s.pushed == [] && s.delivered == map[] && s.enqueue == 0 && s.dequeue == 0
    && (s.phase.Initializing? ==>
          s.phase.next <= n && forall i :: 0 <= i < s.phase.next ==> s.slots[i].sequence == i && s.base[i] == i)
  }

  ghost predicate Inv<T>(n: nat, s: State<T>) {
    n >= 2 && |s.slots| == |s.base| == n && (if s.phase.Ready? then Running(n, s) else Starting(n, s))
  }

  /** A position in flight is the one its slot serves. */
  lemma Serves<T>(n: nat, s: State<T>, p: nat)
    requires n > 0 && |s.slots| == |s.base| == n && Index(n, p) < n && SlotInv(n, s, Index(n, p))
    requires s.dequeue <= p < s.enqueue
    ensures s.base[Index(n, p)] == p
  {
    var b := s.base[Index(n, p)];
    if b < p { SameResidueGap(n, b, p); }
    if p < b { SameResidueGap(n, p, b); }
  }

  // ---- every step keeps the invariant ------------------------------------

  lemma StartSteps<T>(n: nat, s: State<T>, s': State<T>, a: Action<T>)
    requires Inv(n, s) && Next(n, s, s', a) && (a.InitBegin? || a.InitSlot? || a.InitReady?)
    ensures Inv(n, s')
  {
    if a.InitReady? {
      forall i | 0 <= i < n ensures SlotInv(n, s', i) {
        SmallResidue(n, i);
      }
      forall p: nat ensures !(p < s'.base[Index(n, p)]) {
        if p < n { SmallResidue(n, p); }
      }
    }
  }

  /** Steps that only move one thread between positions it does not own. */
  lemma MoveKeeps<T>(n: nat, s: State<T>, t: nat, pc: Pc<T>)
    requires Inv(n, s) && s.phase.Ready?
    requires !Producing(At(s, t)) && !Consuming(At(s, t)) && !Producing(pc) && !Consuming(pc)
    requires ThreadInv(n, s, pc)
    ensures Inv(n, Move(s, t, pc))
  {
    hide Index;
    hide Accounted;
    var s' := Move(s, t, pc);
    forall i | 0 <= i < n ensures SlotInv(n, s', i) { assert SlotInv(n, s, i); }
    forall u | u in s'.threads ensures ThreadInv(n, s', s'.threads[u]) {
      assert u != t ==> ThreadInv(n, s, s.threads[u]);
    }
    hide SlotInv;
    hide ThreadInv;
    OwnersKept(n, s, s', t);
    ExclusiveCarried(s, s', t, pc);
    hide Exclusive;
    DeliveredCarried(n, s, s');
    hide Delivered;
  }

  /** Positions stay accounted for when thread t owned nothing and the slots did not change. */
  lemma OwnersKept<T>(n: nat, s: State<T>, s': State<T>, t: nat)
    requires n > 0 && |s.slots| == |s.base| == n && Accounted(n, s)
    requires && s'.slots == s.slots && |s'.base| == n && s'.dequeue == s.dequeue && s'.enqueue == s.enqueue
             && s'.delivered == s.delivered
    requires !Producing(At(s, t)) && !Consuming(At(s, t))
    requires forall u :: u in s.threads && u != t ==> u in s'.threads && s'.threads[u] == s.threads[u]
    ensures Accounted(n, s')
  {
    forall p | s'.dequeue <= p < s'.enqueue && s'.slots[Index(n, p)].sequence == p
      ensures exists u :: OwnedBy(s', u, p, true)
    {
      var u :| OwnedBy(s, u, p, true);
      assert OwnedBy(s', u, p, true);
    }
    forall p | 0 <= p < s'.dequeue && p !in s'.delivered ensures exists u :: OwnedBy(s', u, p, false) {
      var u :| OwnedBy(s, u, p, false);
      assert OwnedBy(s', u, p, false);
    }
  }

  /** With two or more slots a sequence equal to the position means the slot serves that position. */
  lemma FreeSlot<T>(n: nat, s: State<T>, p: nat)
    requires n >= 2 && |s.slots| == |s.base| == n && SlotInv(n, s, Index(n, p)) && s.slots[Index(n, p)].sequence == p
    ensures s.base[Index(n, p)] == p
  {
    SuccessorResidue(n, s.base[Index(n, p)]);
  }

  lemma PublishedSlot<T>(n: nat, s: State<T>, p: nat)
    requires && n >= 2 && |s.slots| == |s.base| == n && SlotInv(n, s, Index(n, p))
             && s.slots[Index(n, p)].sequence == p + 1
    ensures s.base[Index(n, p)] == p
  {
    SuccessorResidue(n, p);
  }

  /** What a thread learns from the sequence of its slot. */
  lemma LoadPlace<T>(n: nat, s: State<T>, s': State<T>, a: Action<T>)
    requires n >= 2 && |s.slots| == |s.base| == n && Next(n, s, s', a) && (a.LoadPushSequence? || a.LoadPopSequence?)
    requires SlotInv(n, s, Index(n, At(s, a.t).position))
    ensures var pc := At(s', a.t);
            && s' == Move(s, a.t, pc) && ThreadInv(n, s, pc)
            && !Producing(At(s, a.t)) && !Consuming(At(s, a.t)) && !Producing(pc) && !Consuming(pc)
  {
    var p := At(s, a.t).position;
    if s.slots[Index(n, p)].sequence == p { FreeSlot(n, s, p); }
    if s.slots[Index(n, p)].sequence == p + 1 { PublishedSlot(n, s, p); }
    hide Index;
    hide SlotInv;
  }

  lemma LoadKeeps<T>(n: nat, s: State<T>, s': State<T>, a: Action<T>)
    requires Inv(n, s) && s.phase.Ready? && Next(n, s, s', a) && (a.LoadPushSequence? || a.LoadPopSequence?)
    ensures Inv(n, s')
  {
    hide Index;
    hide SlotInv;
    hide ThreadInv;
    hide Next;
    hide Exclusive;
    hide Accounted;
    hide Delivered;
    SlotServes(n, s, s', a);
    LoadPlace(n, s, s', a);
    MoveKeeps(n, s, a.t, At(s', a.t));
  }

  lemma SlotServes<T>(n: nat, s: State<T>, s': State<T>, a: Action<T>)
    requires Inv(n, s) && s.phase.Ready? && Next(n, s, s', a) && (a.LoadPushSequence? || a.LoadPopSequence?)
    ensures (At(s, a.t).PushAt? || At(s, a.t).PopAt?) && SlotInv(n, s, Index(n, At(s, a.t).position))
  {
    hide Index;
    hide SlotInv;
    hide ThreadInv;
    hide Exclusive;
    hide Accounted;
    hide Delivered;
  }

  /** The parts of the invariant, to be established one by one for a step that changes ownership. */
  ghost predicate Parts<T>(n: nat, s: State<T>)
    requires n > 0 && |s.slots| == |s.base| == n
  {
    && s.phase.Ready? && s.dequeue <= s.enqueue <= s.dequeue + n && |s.pushed| == s.enqueue
    && Exclusive(s) && Accounted(n, s) && Delivered(n, s)
  }

  lemma Assemble<T>(n: nat, s: State<T>)
    requires n >= 2 && |s.slots| == |s.base| == n && Parts(n, s)
    requires forall i :: 0 <= i < n ==> SlotInv(n, s, i)
    requires forall t :: t in s.threads ==> ThreadInv(n, s, s.threads[t])
    ensures Inv(n, s)
  {
  }

  /** Claimed positions keep their owners when only thread t moves and it keeps or gains ownership. */
  lemma OwnersCarried<T>(n: nat, s: State<T>, s': State<T>, t: nat, p: nat)
    requires n > 0 && |s.slots| == |s.base| == |s'.slots| == |s'.base| == n && Accounted(n, s)
    requires s'.threads.Keys == s.threads.Keys + {t}
    requires forall u :: u in s.threads && u != t ==> s'.threads[u] == s.threads[u]
    requires t in s.threads && (Producing(s.threads[t]) || Consuming(s.threads[t])) ==> s.threads[t].position == p
    requires forall q :: s'.dequeue <= q < s'.enqueue && s'.slots[Index(n, q)].sequence == q ==>
               if q == p then OwnedBy(s', t, q, true)
               else s.dequeue <= q < s.enqueue && s.slots[Index(n, q)].sequence == q
    requires forall q :: 0 <= q < s'.dequeue && q !in s'.delivered ==>
               if q == p then OwnedBy(s', t, q, false) else 0 <= q < s.dequeue && q !in s.delivered
    ensures Accounted(n, s')
  {
    hide Index;
    forall q | s'.dequeue <= q < s'.enqueue && s'.slots[Index(n, q)].sequence == q
      ensures exists u :: OwnedBy(s', u, q, true)
    {
      if q != p {
        var u :| OwnedBy(s, u, q, true);
        assert OwnedBy(s', u, q, true);
      }
    }
    forall q | 0 <= q < s'.dequeue && q !in s'.delivered ensures exists u :: OwnedBy(s', u, q, false) {
      if q != p {
        var u :| OwnedBy(s, u, q, false);
        assert OwnedBy(s', u, q, false);
      }
    }
  }

  /** Exclusive ownership survives the move of one thread to a position no other thread owns. */
  lemma ExclusiveCarried<T>(s: State<T>, s': State<T>, t: nat, pc: Pc<T>)
    requires Exclusive(s) && s'.threads == s.threads[t := pc]
    requires Producing(pc) ==>
               forall u :: u in s.threads && u != t && Producing(s.threads[u]) ==> s.threads[u].position != pc.position
    requires Consuming(pc) ==>
               forall u :: u in s.threads && u != t && Consuming(s.threads[u]) ==> s.threads[u].position != pc.position
    ensures Exclusive(s')
  {
  }

  /** Deliveries stand while counters and items only grow. */
  lemma DeliveredCarried<T>(n: nat, s: State<T>, s': State<T>)
    requires n > 0 && |s.slots| == |s.base| == |s'.slots| == n && Delivered(n, s)
    requires s'.base == s.base && s'.delivered == s.delivered && s.dequeue <= s'.dequeue && s.pushed <= s'.pushed
    ensures Delivered(n, s')
  {
    hide Index;
  }

  // -- winning a push claim

  /** A producer about to win the claim of position p finds its slot free. */
  lemma ClaimablePush<T>(n: nat, s: State<T>, p: nat)
    requires Inv(n, s) && s.phase.Ready? && s.enqueue == p && s.base[Index(n, p)] >= p
    ensures s.base[Index(n, p)] == p && s.slots[Index(n, p)].sequence == p && p + 1 <= s.dequeue + n
  {
    var b := s.base[Index(n, p)];
    assert SlotInv(n, s, Index(n, p));
    if p < b { SameResidueGap(n, p, b); }
  }

  lemma ClaimPushSlot<T>(n: nat, s: State<T>, s': State<T>, t: nat, i: nat)
    requires Inv(n, s) && s.phase.Ready? && Next(n, s, s', CasPush(t, false)) && s.enqueue == At(s, t).position && i < n
    ensures SlotInv(n, s', i)
  {
    hide Accounted;
    hide Delivered;
    hide Exclusive;
    assert SlotInv(n, s, i);
    assert ThreadInv(n, s, s.threads[t]);
    ClaimablePush(n, s, s.enqueue);
    AddDivisor(n, s.base[i]);
  }

  lemma ClaimPushThread<T>(n: nat, s: State<T>, s': State<T>, t: nat, u: nat)
    requires && Inv(n, s) && s.phase.Ready? && Next(n, s, s', CasPush(t, false)) && s.enqueue == At(s, t).position
             && u in s'.threads
    ensures ThreadInv(n, s', s'.threads[u])
    ensures u != t && Producing(s'.threads[u]) ==> s'.threads[u].position < s.enqueue
  {
    hide Accounted;
    hide Delivered;
    hide Index;
    hide SlotInv;
    assert ThreadInv(n, s, s.threads[t]);
    ClaimablePush(n, s, s.enqueue);
    assert u != t ==> ThreadInv(n, s, s.threads[u]);
  }

  lemma ClaimPushParts<T>(n: nat, s: State<T>, s': State<T>, t: nat)
    requires Inv(n, s) && s.phase.Ready? && Next(n, s, s', CasPush(t, false)) && s.enqueue == At(s, t).position
    requires forall u :: u in s'.threads && u != t && Producing(s'.threads[u]) ==> s'.threads[u].position < s.enqueue
    ensures Parts(n, s')
  {
    hide Accounted;
    assert ThreadInv(n, s, s.threads[t]);
    ClaimablePush(n, s, s.enqueue);
    hide Index;
    hide SlotInv;
    hide ThreadInv;
    ExclusiveCarried(s, s', t, s'.threads[t]);
    hide Exclusive;
    DeliveredCarried(n, s, s');
    hide Delivered;
    hide Inv;
    OwnersCarried(n, s, s', t, s.enqueue);
  }

  lemma ClaimPushKeeps<T>(n: nat, s: State<T>, s': State<T>, t: nat)
    requires Inv(n, s) && s.phase.Ready? && Next(n, s, s', CasPush(t, false)) && s.enqueue == At(s, t).position
    ensures Inv(n, s')
  {
    forall i | 0 <= i < n ensures SlotInv(n, s', i) { ClaimPushSlot(n, s, s', t, i); }
    forall u | u in s'.threads
      ensures && ThreadInv(n, s', s'.threads[u])
              && (u != t && Producing(s'.threads[u]) ==> s'.threads[u].position < s.enqueue)
    {
      ClaimPushThread(n, s, s', t, u);
    }
    ClaimPushParts(n, s, s', t);
    hide Parts;
    hide SlotInv;
    hide ThreadInv;
    hide Inv;
    Assemble(n, s');
  }

  // -- writing the item

  lemma WriteSlot<T>(n: nat, s: State<T>, s': State<T>, t: nat, i: nat)
    requires Inv(n, s) && s.phase.Ready? && Next(n, s, s', WritePush(t)) && i < n
    ensures SlotInv(n, s', i)
  {
    hide Accounted;
    hide Delivered;
    hide Exclusive;
    hide Index;
    assert SlotInv(n, s, i);
    assert ThreadInv(n, s, s.threads[t]);
  }

  lemma WriteThread<T>(n: nat, s: State<T>, s': State<T>, t: nat, u: nat)
    requires Inv(n, s) && s.phase.Ready? && Next(n, s, s', WritePush(t)) && u in s'.threads
    ensures ThreadInv(n, s', s'.threads[u])
  {
    hide Accounted;
    hide Delivered;
    hide Index;
    hide SlotInv;
    assert ThreadInv(n, s, s.threads[t]);
    assert u != t ==> ThreadInv(n, s, s.threads[u]);
  }

  lemma WriteParts<T>(n: nat, s: State<T>, s': State<T>, t: nat)
    requires Inv(n, s) && s.phase.Ready? && Next(n, s, s', WritePush(t))
    ensures Parts(n, s')
  {
    hide Accounted;
    hide Index;
    hide SlotInv;
    hide Delivered;
    var p := At(s, t).position;
    assert ThreadInv(n, s, s.threads[t]);
    assert SlotInv(n, s, Index(n, p));
    NotYetTaken(n, s, p);
    hide ThreadInv;
    WriteFields(n, s, s', t);
    hide Next;
    ExclusiveCarried(s, s', t, s'.threads[t]);
    hide Exclusive;
    DeliveredCarried(n, s, s');
    hide Delivered;
    hide Inv;
    OwnersCarried(n, s, s', t, p);
  }

  lemma WriteFields<T>(n: nat, s: State<T>, s': State<T>, t: nat)
    requires n > 0 && |s.slots| == |s.base| == n && Next(n, s, s', WritePush(t))
    ensures At(s, t).PushWrite? && s'.threads == s.threads[t := PushPublish(At(s, t).item, At(s, t).position)]
    ensures |s'.slots| == n && forall i :: 0 <= i < n ==> s'.slots[i].sequence == s.slots[i].sequence
    ensures s'.base == s.base && s'.delivered == s.delivered && s'.enqueue == s.enqueue && s'.dequeue == s.dequeue
    ensures s'.pushed == s.pushed && s'.phase == s.phase
  {
    hide Index;
  }

  lemma WritePushKeeps<T>(n: nat, s: State<T>, s': State<T>, t: nat)
    requires Inv(n, s) && s.phase.Ready? && Next(n, s, s', WritePush(t))
    ensures Inv(n, s')
  {
    forall i | 0 <= i < n ensures SlotInv(n, s', i) { WriteSlot(n, s, s', t, i); }
    forall u | u in s'.threads ensures ThreadInv(n, s', s'.threads[u]) { WriteThread(n, s, s', t, u); }
    WriteParts(n, s, s', t);
    hide Parts;
    hide SlotInv;
    hide ThreadInv;
    hide Inv;
    Assemble(n, s');
  }

  lemma NotYetTaken<T>(n: nat, s: State<T>, p: nat)
    requires n > 0 && |s.slots| == |s.base| == n && SlotInv(n, s, Index(n, p))
    requires s.base[Index(n, p)] == p && s.slots[Index(n, p)].sequence == p
    ensures s.dequeue <= p
  {
  }

  // -- publishing it

  lemma PublishSlot<T>(n: nat, s: State<T>, s': State<T>, t: nat, i: nat)
    requires Inv(n, s) && s.phase.Ready? && Next(n, s, s', PublishPush(t)) && i < n
    ensures SlotInv(n, s', i)
  {
    hide Accounted;
    hide Delivered;
    hide Exclusive;
    hide Index;
    assert SlotInv(n, s, i);
    assert ThreadInv(n, s, s.threads[t]);
  }

  lemma PublishThread<T>(n: nat, s: State<T>, s': State<T>, t: nat, u: nat)
    requires Inv(n, s) && s.phase.Ready? && Next(n, s, s', PublishPush(t)) && u in s'.threads
    ensures ThreadInv(n, s', s'.threads[u])
  {
    hide Accounted;
    hide Delivered;
    hide Index;
    hide SlotInv;
    assert ThreadInv(n, s, s.threads[t]);
    assert u != t ==> ThreadInv(n, s, s.threads[u]);
  }

  lemma PublishParts<T>(n: nat, s: State<T>, s': State<T>, t: nat)
    requires Inv(n, s) && s.phase.Ready? && Next(n, s, s', PublishPush(t))
    ensures Parts(n, s')
  {
    hide Accounted;
    var p := At(s, t).position;
    assert ThreadInv(n, s, s.threads[t]);
    assert SlotInv(n, s, Index(n, p));
    NotYetTaken(n, s, p);
    forall q | s'.dequeue <= q < s'.enqueue && s'.slots[Index(n, q)].sequence == q
      ensures q != p && s.slots[Index(n, q)].sequence == q
    {
      OtherInFlight(n, s, s', t, q);
    }
    hide Index;
    hide SlotInv;
    hide ThreadInv;
    ExclusiveCarried(s, s', t, s'.threads[t]);
    hide Exclusive;
    DeliveredCarried(n, s, s');
    hide Delivered;
    hide Inv;
    OwnersCarried(n, s, s', t, p);
  }

  lemma OtherInFlight<T>(n: nat, s: State<T>, s': State<T>, t: nat, q: nat)
    requires Inv(n, s) && s.phase.Ready? && Next(n, s, s', PublishPush(t))
    requires s'.dequeue <= q < s'.enqueue && s'.slots[Index(n, q)].sequence == q
    ensures q != At(s, t).position && s.slots[Index(n, q)].sequence == q
  {
    hide Index;
    assert ThreadInv(n, s, s.threads[t]);
    assert SlotInv(n, s, Index(n, q));
    Serves(n, s, q);
  }

  lemma PublishPushKeeps<T>(n: nat, s: State<T>, s': State<T>, t: nat)
    requires Inv(n, s) && s.phase.Ready? && Next(n, s, s', PublishPush(t))
    ensures Inv(n, s')
  {
    forall i | 0 <= i < n ensures SlotInv(n, s', i) { PublishSlot(n, s, s', t, i); }
    forall u | u in s'.threads ensures ThreadInv(n, s', s'.threads[u]) { PublishThread(n, s, s', t, u); }
    PublishParts(n, s, s', t);
    hide Parts;
    hide SlotInv;
    hide ThreadInv;
    hide Inv;
    Assemble(n, s');
  }

  // -- winning a pop claim

  /** A consumer about to win the claim of position p finds its item published. */
  lemma ClaimablePop<T>(n: nat, s: State<T>, p: nat)
    requires Inv(n, s) && s.phase.Ready? && s.dequeue == p && ThreadInv(n, s, Pc<T>.PopCas(p))
    ensures s.base[Index(n, p)] == p && s.slots[Index(n, p)].sequence == p + 1
    ensures p < s.enqueue && s.slots[Index(n, p)].value == Some(s.pushed[p])
  {
    var b := s.base[Index(n, p)];
    assert SlotInv(n, s, Index(n, p));
    if p < b { SameResidueGap(n, p, b); }
  }

  lemma ClaimPopSlot<T>(n: nat, s: State<T>, s': State<T>, t: nat, i: nat)
    requires Inv(n, s) && s.phase.Ready? && Next(n, s, s', CasPop(t, false)) && s.dequeue == At(s, t).position && i < n
    ensures SlotInv(n, s', i)
  {
    hide Accounted;
    hide Delivered;
    hide Exclusive;
    assert SlotInv(n, s, i);
    assert ThreadInv(n, s, s.threads[t]);
    ClaimablePop(n, s, s.dequeue);
  }

  lemma ClaimPopThread<T>(n: nat, s: State<T>, s': State<T>, t: nat, u: nat)
    requires && Inv(n, s) && s.phase.Ready? && Next(n, s, s', CasPop(t, false)) && s.dequeue == At(s, t).position
             && u in s'.threads
    ensures ThreadInv(n, s', s'.threads[u])
    ensures u != t && Consuming(s'.threads[u]) ==> s'.threads[u].position < s.dequeue
  {
    hide Accounted;
    hide Delivered;
    hide Index;
    hide SlotInv;
    assert ThreadInv(n, s, s.threads[t]);
    ClaimablePop(n, s, s.dequeue);
    assert u != t ==> ThreadInv(n, s, s.threads[u]);
  }

  lemma ClaimPopParts<T>(n: nat, s: State<T>, s': State<T>, t: nat)
    requires Inv(n, s) && s.phase.Ready? && Next(n, s, s', CasPop(t, false)) && s.dequeue == At(s, t).position
    requires forall u :: u in s'.threads && u != t && Consuming(s'.threads[u]) ==> s'.threads[u].position < s.dequeue
    ensures Parts(n, s')
  {
    hide Accounted;
    assert ThreadInv(n, s, s.threads[t]);
    ClaimablePop(n, s, s.dequeue);
    hide Index;
    hide SlotInv;
    hide ThreadInv;
    ExclusiveCarried(s, s', t, s'.threads[t]);
    hide Exclusive;
    DeliveredCarried(n, s, s');
    hide Delivered;
    hide Inv;
    OwnersCarried(n, s, s', t, s.dequeue);
  }

  lemma ClaimPopKeeps<T>(n: nat, s: State<T>, s': State<T>, t: nat)
    requires Inv(n, s) && s.phase.Ready? && Next(n, s, s', CasPop(t, false)) && s.dequeue == At(s, t).position
    ensures Inv(n, s')
  {
    forall i | 0 <= i < n ensures SlotInv(n, s', i) { ClaimPopSlot(n, s, s', t, i); }
    forall u | u in s'.threads
      ensures && ThreadInv(n, s', s'.threads[u])
              && (u != t && Consuming(s'.threads[u]) ==> s'.threads[u].position < s.dequeue)
    {
      ClaimPopThread(n, s, s', t, u);
    }
    ClaimPopParts(n, s, s', t);
    hide Parts;
    hide SlotInv;
    hide ThreadInv;
    hide Inv;
    Assemble(n, s');
  }

  // -- reading the item

  lemma ReadThread<T>(n: nat, s: State<T>, s': State<T>, t: nat, u: nat)
    requires Inv(n, s) && s.phase.Ready? && Next(n, s, s', ReadPop(t)) && u in s'.threads
    ensures ThreadInv(n, s', s'.threads[u])
  {
    hide Accounted;
    hide Delivered;
    hide Index;
    assert ThreadInv(n, s, s.threads[t]);
    assert SlotInv(n, s, Index(n, At(s, t).position));
    assert u != t ==> ThreadInv(n, s, s.threads[u]);
  }

  lemma ReadParts<T>(n: nat, s: State<T>, s': State<T>, t: nat)
    requires Inv(n, s) && s.phase.Ready? && Next(n, s, s', ReadPop(t))
    ensures Parts(n, s')
  {
    hide Accounted;
    assert ThreadInv(n, s, s.threads[t]);
    hide Index;
    hide SlotInv;
    hide ThreadInv;
    ExclusiveCarried(s, s', t, s'.threads[t]);
    hide Exclusive;
    DeliveredCarried(n, s, s');
    hide Delivered;
    hide Inv;
    OwnersCarried(n, s, s', t, At(s, t).position);
  }

  lemma ReadPopKeeps<T>(n: nat, s: State<T>, s': State<T>, t: nat)
    requires Inv(n, s) && s.phase.Ready? && Next(n, s, s', ReadPop(t))
    ensures Inv(n, s')
  {
    hide Index;
    forall i | 0 <= i < n ensures SlotInv(n, s', i) { assert SlotInv(n, s, i); }
    forall u | u in s'.threads ensures ThreadInv(n, s', s'.threads[u]) { ReadThread(n, s, s', t, u); }
    ReadParts(n, s, s', t);
    hide Parts;
    hide SlotInv;
    hide ThreadInv;
    hide Inv;
    Assemble(n, s');
  }

  // -- releasing the slot

  lemma IndexNextRound(n: nat, p: nat)
    requires n > 0
    ensures Index(n, p + n) == Index(n, p)
  {
    AddDivisor(n, p);
  }

  lemma ReleaseSlot<T>(n: nat, s: State<T>, s': State<T>, t: nat, i: nat)
    requires Inv(n, s) && s.phase.Ready? && Next(n, s, s', ReleasePop(t)) && i < n
    ensures SlotInv(n, s', i)
  {
    hide Index;
    hide Accounted;
    hide Exclusive;
    hide Delivered;
    hide ThreadInv;
    hide Next;
    ReleaseFields(n, s, s', t);
    var p := At(s, t).position;
    Releasing(n, s, t);
    IndexNextRound(n, p);
    assert SlotInv(n, s, i);
    hide Inv;
  }

  lemma ReleaseThread<T>(n: nat, s: State<T>, s': State<T>, t: nat, u: nat)
    requires Inv(n, s) && s.phase.Ready? && Next(n, s, s', ReleasePop(t)) && u in s'.threads
    ensures ThreadInv(n, s', s'.threads[u])
  {
    hide Index;
    hide SlotInv;
    hide Accounted;
    hide Delivered;
    hide ThreadInv;
    hide Next;
    ReleaseFields(n, s, s', t);
    Releasing(n, s, t);
    if u == t {
      IdleInv(n, s', s'.threads[u]);
    } else {
      assert ThreadInv(n, s, s.threads[u]);
      ReleaseOther(n, s, s', At(s, t).position, s.threads[u]);
    }
  }

  lemma ReleaseFields<T>(n: nat, s: State<T>, s': State<T>, t: nat)
    requires n > 0 && |s.slots| == |s.base| == n && Next(n, s, s', ReleasePop(t))
    ensures At(s, t).PopRelease? && s'.threads == s.threads[t := Idle]
    ensures var i := Index(n, At(s, t).position);
            && s'.slots == s.slots[i := s.slots[i].(sequence := At(s, t).position + n)]
            && s'.base == s.base[i := At(s, t).position + n]
            && s'.enqueue == s.enqueue && s'.dequeue == s.dequeue && s'.pushed == s.pushed && s'.phase == s.phase
            && s'.delivered == s.delivered[At(s, t).position := At(s, t).taken]
  {
    hide Index;
  }

  lemma IdleInv<T>(n: nat, s: State<T>, pc: Pc<T>)
    requires n > 0 && |s.slots| == |s.base| == n && pc.Idle?
    ensures ThreadInv(n, s, pc)
  {
  }

  /** Releasing p disturbs no thread that does not own p as a consumer. */
  lemma ReleaseOther<T>(n: nat, s: State<T>, s': State<T>, p: nat, pc: Pc<T>)
    requires n > 0 && |s.slots| == |s.base| == n && ThreadInv(n, s, pc) && (Consuming(pc) ==> pc.position != p)
    requires s.base[Index(n, p)] == p && s.slots[Index(n, p)].sequence == p + 1
    requires && s'.slots == s.slots[Index(n, p) := s.slots[Index(n, p)].(sequence := p + n)]
             && s'.base == s.base[Index(n, p) := p + n]
    requires s'.enqueue == s.enqueue && s'.dequeue == s.dequeue && s'.pushed == s.pushed
    ensures ThreadInv(n, s', pc)
  {
    hide Index;
  }

  lemma ReleasePopKeeps<T>(n: nat, s: State<T>, s': State<T>, t: nat)
    requires Inv(n, s) && s.phase.Ready? && Next(n, s, s', ReleasePop(t))
    ensures Inv(n, s') && At(s, t).position !in s.delivered
  {
    forall i | 0 <= i < n ensures SlotInv(n, s', i) { ReleaseSlot(n, s, s', t, i); }
    forall u | u in s'.threads ensures ThreadInv(n, s', s'.threads[u]) { ReleaseThread(n, s, s', t, u); }
    var p := At(s, t).position;
    ReleaseParts(n, s, s', t);
    hide Index;
    hide ThreadInv;
    hide SlotInv;
    hide Next;
    Assemble(n, s');
  }

  /** The slot a consumer is about to release. */
  lemma Releasing<T>(n: nat, s: State<T>, t: nat)
    requires Inv(n, s) && s.phase.Ready? && At(s, t).PopRelease?
    ensures var PopRelease(p, taken) := At(s, t);
            && s.base[Index(n, p)] == p && s.slots[Index(n, p)].sequence == p + 1
            && p < s.dequeue <= s.enqueue <= p + n && p < |s.pushed| && s.pushed[p] == taken && p !in s.delivered
  {
    hide Index;
    hide Accounted;
    hide Exclusive;
    assert ThreadInv(n, s, s.threads[t]);
    assert SlotInv(n, s, Index(n, At(s, t).position));
  }

  lemma ReleaseDelivered<T>(n: nat, s: State<T>, s': State<T>, t: nat)
    requires Inv(n, s) && s.phase.Ready? && Next(n, s, s', ReleasePop(t))
    ensures |s'.slots| == |s'.base| == n && Delivered(n, s')
  {
    hide Index;
    hide ThreadInv;
    hide SlotInv;
    hide Exclusive;
    hide Accounted;
    hide Delivered;
    Releasing(n, s, t);
    DeliverNext(n, s, s', At(s, t).position, At(s, t).taken);
  }

  lemma DeliverNext<T>(n: nat, s: State<T>, s': State<T>, p: nat, taken: T)
    requires n > 0 && |s.slots| == |s.base| == |s'.slots| == n && Delivered(n, s) && s.base[Index(n, p)] == p
    requires s'.base == s.base[Index(n, p) := p + n] && s'.delivered == s.delivered[p := taken]
    requires s'.dequeue == s.dequeue && s'.pushed == s.pushed && p < s.dequeue && p < |s.pushed| && s.pushed[p] == taken
    ensures Delivered(n, s')
  {
    forall q: nat
      ensures q in s'.delivered <==> q < s'.base[Index(n, q)]
      ensures q in s'.delivered ==> q < s'.dequeue && q < |s'.pushed| && s'.delivered[q] == s'.pushed[q]
    {
      assert q in s.delivered <==> q < s.base[Index(n, q)];
      if Index(n, q) == Index(n, p) && p < q { SameResidueGap(n, p, q); }
    }
  }

  lemma ReleaseParts<T>(n: nat, s: State<T>, s': State<T>, t: nat)
    requires Inv(n, s) && s.phase.Ready? && Next(n, s, s', ReleasePop(t))
    ensures |s'.slots| == |s'.base| == n && Parts(n, s') && At(s, t).position !in s.delivered
  {
    hide Accounted;
    hide Index;
    hide ThreadInv;
    hide SlotInv;
    hide Delivered;
    hide Next;
    ReleaseFields(n, s, s', t);
    Releasing(n, s, t);
    ReleaseDelivered(n, s, s', t);
    ExclusiveCarried(s, s', t, s'.threads[t]);
    hide Exclusive;
    OwnersCarried(n, s, s', t, At(s, t).position);
  }

  lemma StepKeeps<T>(n: nat, s: State<T>, s': State<T>, a: Action<T>)
    requires Inv(n, s) && Next(n, s, s', a)
    ensures Inv(n, s')
  {
    if !s.phase.Ready? {
      StartSteps(n, s, s', a);
    } else {
      match a
      case BeginPush(t, item) => MoveKeeps(n, s, t, At(s', t));
      case ReloadPush(t) => MoveKeeps(n, s, t, At(s', t));
      case LoadPushSequence(t) => LoadKeeps(n, s, s', a);
      case CasPush(t, spurious) =>
        if s.enqueue == At(s, t).position && !spurious {
          ClaimPushKeeps(n, s, s', t);
        } else {
          MoveKeeps(n, s, t, At(s', t));
        }
      case WritePush(t) => WritePushKeeps(n, s, s', t);
      case PublishPush(t) => PublishPushKeeps(n, s, s', t);
      case BeginPop(t) => MoveKeeps(n, s, t, At(s', t));
      case ReloadPop(t) => MoveKeeps(n, s, t, At(s', t));
      case LoadPopSequence(t) => LoadKeeps(n, s, s', a);
      case CasPop(t, spurious) =>
        if s.dequeue == At(s, t).position && !spurious {
          ClaimPopKeeps(n, s, s', t);
        } else {
          MoveKeeps(n, s, t, At(s', t));
        }
      case ReadPop(t) => ReadPopKeeps(n, s, s', t);
      case ReleasePop(t) => ReleasePopKeeps(n, s, s', t);
    }
  }

  // ---- whole runs --------------------------------------------------------

  ghost predicate Run<T>(n: nat, states: seq<State<T>>, actions: seq<Action<T>>)
    requires n > 0
  {
    && |states| == |actions| + 1 && Init(n, states[0])
    && (forall k :: 0 <= k < |states| ==> |states[k].slots| == |states[k].base| == n)
    && (forall k :: 0 <= k < |actions| ==> Next(n, states[k], states[k + 1], actions[k]))
  }

  lemma {:induction false} RunInvariant<T>(n: nat, states: seq<State<T>>, actions: seq<Action<T>>, k: nat)
    requires n >= 2 && Run(n, states, actions) && k < |states|
    ensures Inv(n, states[k])
  {
    if k > 0 {
      RunInvariant(n, states, actions, k - 1);
      assert Next(n, states[k - 1], states[k], actions[k - 1]);
      StepKeeps(n, states[k - 1], states[k], actions[k - 1]);
    }
  }

  /** The abstract queue: the claimed and not yet taken items, in claim order. */
  ghost function Contents<T>(s: State<T>): seq<T>
    requires s.dequeue <= s.enqueue == |s.pushed|
  {
    s.pushed[s.dequeue..]
  }

  datatype Event<T> = Silent | Enqueued(item: T) | Dequeued(item: T)

  /** The abstract operation a step performs: the successful compare-exchange is its linearization point. */
  ghost function EventOf<T>(s: State<T>, a: Action<T>): Event<T> {
    match a
    case CasPush(t, spurious) =>
      if At(s, t).PushCas? && s.enqueue == At(s, t).position && !spurious then Enqueued(At(s, t).item) else Silent
    case CasPop(t, spurious) =>
      if At(s, t).PopCas? && s.dequeue == At(s, t).position && !spurious && s.dequeue < |s.pushed| then
        Dequeued(s.pushed[s.dequeue])
      else Silent
    case _ => Silent
  }

  ghost predicate WellCounted<T>(n: nat, s: State<T>) {
    s.dequeue <= s.enqueue <= s.dequeue + n && |s.pushed| == s.enqueue
  }

  lemma Counted<T>(n: nat, s: State<T>)
    requires Inv(n, s)
    ensures WellCounted(n, s)
  {
  }

  /** Every step of every thread is a step of an atomic FIFO of capacity n. */
  lemma RefinesFifo<T>(n: nat, s: State<T>, s': State<T>, a: Action<T>)
    requires Inv(n, s) && Next(n, s, s', a)
    ensures WellCounted(n, s) && WellCounted(n, s')
    ensures match EventOf(s, a)
            case Silent => Contents(s') == Contents(s)
            case Enqueued(item) => |Contents(s)| < n && Contents(s') == Contents(s) + [item]
            case Dequeued(item) => Contents(s) == [item] + Contents(s')
  {
    StepKeeps(n, s, s', a);
    Counted(n, s);
    Counted(n, s');
    if EventOf(s, a).Dequeued? {
      TakesHead(n, s, s', a);
    } else if EventOf(s, a).Enqueued? {
      AddsTail(n, s, s', a);
    } else {
      Silence(n, s, s', a);
    }
  }

  lemma TakesHead<T>(n: nat, s: State<T>, s': State<T>, a: Action<T>)
    requires Inv(n, s) && Next(n, s, s', a) && EventOf(s, a).Dequeued?
    ensures s'.pushed == s.pushed && s'.dequeue == s.dequeue + 1 && s.dequeue < s.enqueue
    ensures WellCounted(n, s) && WellCounted(n, s') && Contents(s) == [EventOf(s, a).item] + Contents(s')
  {
    StepKeeps(n, s, s', a);
    Counted(n, s);
    Counted(n, s');
    hide Inv;
  }

  lemma AddsTail<T>(n: nat, s: State<T>, s': State<T>, a: Action<T>)
    requires Inv(n, s) && Next(n, s, s', a) && EventOf(s, a).Enqueued?
    ensures && WellCounted(n, s) && WellCounted(n, s') && |Contents(s)| < n
            && Contents(s') == Contents(s) + [EventOf(s, a).item]
  {
    StepKeeps(n, s, s', a);
    Counted(n, s);
    Counted(n, s');
    hide Inv;
  }

  lemma Silence<T>(n: nat, s: State<T>, s': State<T>, a: Action<T>)
    requires Inv(n, s) && Next(n, s, s', a) && EventOf(s, a).Silent?
    ensures s'.pushed == s.pushed && s'.dequeue == s.dequeue
  {
    if !s.phase.Ready? {
      NobodyInside(n, s);
      hide Inv;
    } else {
      if a.CasPop? && s.dequeue == At(s, a.t).position {
        assert ThreadInv(n, s, s.threads[a.t]);
        ClaimablePop(n, s, s.dequeue);
        Counted(n, s);
      }
      hide Inv;
      QuietStep(n, s, s', a);
    }
  }

  lemma NobodyInside<T>(n: nat, s: State<T>)
    requires Inv(n, s) && !s.phase.Ready?
    ensures s.threads == map[] && s.pushed == []
  {
  }

  lemma QuietStep<T>(n: nat, s: State<T>, s': State<T>, a: Action<T>)
    requires n > 0 && |s.slots| == |s.base| == n && Next(n, s, s', a) && s.phase.Ready?
    requires !(a.CasPop? && s.dequeue == At(s, a.t).position && !a.spurious)
    requires !(a.CasPush? && s.enqueue == At(s, a.t).position && !a.spurious)
    ensures s'.pushed == s.pushed && s'.dequeue == s.dequeue
  {
  }

  /** What a pop returns is what its linearization point took; it is returned once; and the slot it
      reads has been written. */
  lemma PopReturnsItsItem<T>(n: nat, s: State<T>, t: nat)
    requires Inv(n, s)
    ensures At(s, t).PopRead? ==>
              var p := At(s, t).position;
              p < |s.pushed| && s.slots[Index(n, p)].value == Some(s.pushed[p])
    ensures At(s, t).PopRelease? ==>
              var PopRelease(p, taken) := At(s, t);
              p < |s.pushed| && taken == s.pushed[p] && p !in s.delivered
  {
    hide Index;
    if At(s, t).PopRead? || At(s, t).PopRelease? {
      assert ThreadInv(n, s, s.threads[t]);
      assert SlotInv(n, s, Index(n, At(s, t).position));
    }
  }

  /** At most one thread owns a slot between claim and publication or release. */
  lemma SlotHasOneOwner<T>(n: nat, s: State<T>, t: nat, u: nat)
    requires Inv(n, s) && t != u
    requires Producing(At(s, t)) || Consuming(At(s, t))
    requires Producing(At(s, u)) || Consuming(At(s, u))
    ensures Index(n, At(s, t).position) != Index(n, At(s, u).position)
  {
    hide Index;
    hide SlotInv;
    hide Accounted;
    assert ThreadInv(n, s, s.threads[t]);
    assert ThreadInv(n, s, s.threads[u]);
  }

  ghost function Releases<T>(actions: seq<Action<T>>): nat {
    if actions == [] then 0
    else Releases(actions[..|actions| - 1]) + if actions[|actions| - 1].ReleasePop? then 1 else 0
  }

  /** Over a whole run: every completed pop delivered one position, no position twice, each with the
      item its push brought. */
  lemma {:induction false} ExactlyOnce<T>(n: nat, states: seq<State<T>>, actions: seq<Action<T>>)
    requires n >= 2 && Run(n, states, actions)
    ensures var s := states[|actions|];
            && |s.delivered| == Releases(actions)
            && forall p :: p in s.delivered ==> p < s.dequeue && p < |s.pushed| && s.delivered[p] == s.pushed[p]
  {
    hide Next;
    hide Inv;
    var k := |actions|;
    RunInvariant(n, states, actions, k);
    DeliveredItems(n, states[k]);
    if k > 0 {
      var earlier, done := states[..k], actions[..k - 1];
      assert Run(n, earlier, done);
      ExactlyOnce(n, earlier, done);
      RunInvariant(n, states, actions, k - 1);
      DeliveryStep(n, states[k - 1], states[k], actions[k - 1]);
    }
  }

  lemma DeliveredItems<T>(n: nat, s: State<T>)
    requires Inv(n, s)
    ensures forall p :: p in s.delivered ==> p < s.dequeue && p < |s.pushed| && s.delivered[p] == s.pushed[p]
  {
    hide SlotInv;
    hide ThreadInv;
    hide Exclusive;
    hide Accounted;
  }

  lemma DeliveryStep<T>(n: nat, s: State<T>, s': State<T>, a: Action<T>)
    requires Inv(n, s) && Next(n, s, s', a)
    ensures |s'.delivered| == |s.delivered| + if a.ReleasePop? then 1 else 0
  {
    assert n > 0 && |s.slots| == |s.base| == n;
    hide Inv;
    hide Index;
    if a.ReleasePop? {
      PopReturnsItsItem(n, s, a.t);
      assert s'.delivered.Keys == s.delivered.Keys + {At(s, a.t).position};
    }
  }

  /** When no thread is inside an operation, everything taken was delivered and everything else is
      published in its slot. */
  lemma Quiescent<T>(n: nat, s: State<T>, p: nat)
    requires && Inv(n, s) && s.phase.Ready?
             && (forall t :: t in s.threads ==> !Producing(s.threads[t]) && !Consuming(s.threads[t]))
    ensures p in s.delivered <==> p < s.dequeue
    ensures s.dequeue <= p < s.enqueue ==> s.slots[Index(n, p)] == Slot(p + 1, Some(s.pushed[p]))
  {
    if s.dequeue <= p < s.enqueue {
      assert SlotInv(n, s, Index(n, p));
      Serves(n, s, p);
    }
    hide Index;
    hide SlotInv;
    hide ThreadInv;
    hide Exclusive;
  }

  // ---- what Full and Empty mean ------------------------------------------

  /** `push` answers Full exactly when it looked at the current tail and the position n places
      back has not been released. */
  lemma FullExactly<T>(n: nat, s: State<T>, s': State<T>, t: nat)
    requires Inv(n, s) && s.phase.Ready? && Next(n, s, s', LoadPushSequence(t))
    ensures At(s', t).Idle? <==>
            At(s, t).position == s.enqueue && s.enqueue >= n && s.enqueue - n !in s.delivered
  {
    var p := At(s, t).position;
    hide Exclusive;
    hide Accounted;
    assert ThreadInv(n, s, s.threads[t]);
    assert SlotInv(n, s, Index(n, p));
    hide SlotInv;
    hide Index;
    hide Delivered;
    BehindExactly(n, s, p);
  }

  lemma BehindExactly<T>(n: nat, s: State<T>, p: nat)
    requires n >= 2 && |s.slots| == |s.base| == n && SlotInv(n, s, Index(n, p)) && Delivered(n, s)
    requires p <= s.enqueue && s.enqueue <= s.dequeue + n
    ensures s.slots[Index(n, p)].sequence < p <==> p == s.enqueue && s.enqueue >= n && s.enqueue - n !in s.delivered
  {
    var b := s.base[Index(n, p)];
    if b < p { SameResidueGap(n, b, p); }
    if p < b { SameResidueGap(n, p, b); }
    SuccessorResidue(n, b);
    if p >= n {
      IndexNextRound(n, p - n);
      assert p - n in s.delivered <==> p - n < s.base[Index(n, p - n)];
    }
    hide Delivered;
  }

  /** `pop` answers Empty exactly when it looked at the current head and the head is not published. */
  lemma EmptyExactly<T>(n: nat, s: State<T>, s': State<T>, t: nat)
    requires Inv(n, s) && s.phase.Ready? && Next(n, s, s', LoadPopSequence(t))
    ensures At(s', t).Idle? <==>
            && At(s, t).position == s.dequeue
            && (s.dequeue == s.enqueue || s.slots[Index(n, s.dequeue)].sequence == s.dequeue)
  {
    var p := At(s, t).position;
    var b := s.base[Index(n, p)];
    assert ThreadInv(n, s, s.threads[t]);
    assert SlotInv(n, s, Index(n, p));
    if b < p { SameResidueGap(n, b, p); }
    if p < b { SameResidueGap(n, p, b); }
    SuccessorResidue(n, b);
  }

  // ---- where the guarantees stop -----------------------------------------

  ghost predicate Reachable<T(!new)>(n: nat, s: State<T>)
    requires n > 0
  {
    exists states: seq<State<T>>, actions: seq<Action<T>> :: Run(n, states, actions) && states[|actions|] == s
  }

  lemma Extend<T(!new)>(n: nat, s: State<T>, s': State<T>, a: Action<T>)
    requires n > 0 && Reachable(n, s) && |s.slots| == |s.base| == n && Next(n, s, s', a) && |s'.slots| == |s'.base| == n
    ensures Reachable(n, s')
  {
    hide Next;
    hide Init;
    var states: seq<State<T>>, actions: seq<Action<T>> :| Run(n, states, actions) && states[|actions|] == s;
    assert Run(n, states + [s'], actions + [a]);
  }

  /** With one slot the encoding is ambiguous: a second push overwrites an item nobody has taken. */
  lemma OneSlotOverruns()
    ensures exists s: State<int> :: Reachable(1, s) && s.dequeue == 0 && s.enqueue == 2 && s.slots[0].value == Some(8)
  {
    hide Reachable;
    var s := OneSlotStart();
    var s1 := OnePush(s, 7);
    var s2 := SecondPush(s1);
    assert Reachable(1, s2) && s2.slots[0].value == Some(8);
  }

  /** And a pop that has claimed the first item returns the second. */
  lemma OneSlotMisdelivers()
    ensures exists s: State<int> :: Reachable(1, s) && s.pushed == [7, 8] && s.delivered == map[0 := 8]
  {
    hide Reachable;
    var s := OneSlotStart();
    var s1 := OnePush(s, 7);
    var s2 := SlowConsumer(s1);
    var s3 := SecondPush(s2);
    var s4 := Move(s3, 1, PopRelease(0, 8));
    Extend(1, s3, s4, ReadPop(1));
    var s5 := Move(s4, 1, Idle).(slots := [Slot(1, Some(8))], base := [1], delivered := map[0 := 8]);
    Extend(1, s4, s5, ReleasePop(1));
    assert Reachable(1, s5) && s5.delivered == map[0 := 8];
  }

  lemma SlowConsumer(s: State<int>) returns (r: State<int>)
    requires Reachable(1, s) && s.phase.Ready? && s.dequeue == 0 && s.slots == [Slot(1, Some(7))] && |s.base| == 1
    requires At(s, 1).Idle?
    ensures Reachable(1, r) && r == Move(s, 1, PopRead(0)).(dequeue := 1)
  {
    hide Reachable;
    var s1 := Move(s, 1, PopAt(0));
    Extend(1, s, s1, BeginPop(1));
    var s2 := Move(s1, 1, PopCas(0));
    Extend(1, s1, s2, LoadPopSequence(1));
    r := Move(s2, 1, PopRead(0)).(dequeue := 1);
    Extend(1, s2, r, CasPop(1, false));
    assert r == Move(s, 1, PopRead(0)).(dequeue := 1);
  }

  lemma OneSlotStart() returns (s: State<int>)
    ensures Reachable(1, s) && s.phase.Ready? && s.enqueue == 0 && s.dequeue == 0 && s.slots == [Slot(0, None)]
    ensures s.threads == map[] && s.pushed == [] && s.delivered == map[] && |s.base| == 1
  {
    hide Reachable;
    var s0 := State<int>.State(Uninitialized, 0, 0, [Slot(0, None)], map[], [0], [], map[]);
    StartReachable(1, s0);
    var s1 := s0.(phase := Initializing(0));
    Extend(1, s0, s1, InitBegin);
    var s2 := s1.(phase := Initializing(1));
    Extend(1, s1, s2, InitSlot);
    s := s2.(phase := Ready);
    Extend(1, s2, s, InitReady);
  }

  lemma SecondPush(s: State<int>) returns (r: State<int>)
    requires Reachable(1, s) && s.phase.Ready? && s.enqueue == 1 && s.slots == [Slot(1, Some(7))] && At(s, 0).Idle?
    requires s.pushed == [7] && |s.base| == 1
    ensures Reachable(1, r) && r.enqueue == 2 && r.slots == [Slot(1, Some(8))] && r.pushed == [7, 8] && |r.base| == 1
    ensures r.dequeue == s.dequeue && r.delivered == s.delivered && At(r, 1) == At(s, 1)
  {
    hide Reachable;
    var s1 := Move(s, 0, PushAt(8, 1));
    Extend(1, s, s1, BeginPush(0, 8));
    var s2 := Move(s1, 0, PushCas(8, 1));
    Extend(1, s1, s2, LoadPushSequence(0));
    var s3 := Move(s2, 0, PushWrite(8, 1)).(enqueue := 2, pushed := [7, 8]);
    Extend(1, s2, s3, CasPush(0, false));
    r := Move(s3, 0, PushPublish(8, 1)).(slots := [Slot(1, Some(8))]);
    Extend(1, s3, r, WritePush(0));
  }

  lemma StartReachable<T(!new)>(n: nat, s: State<T>)
    requires n > 0 && Init(n, s)
    ensures Reachable(n, s)
  {
    assert Run(n, [s], []);
  }

  lemma OnePush(s: State<int>, item: int) returns (r: State<int>)
    requires Reachable(1, s) && s.phase.Ready? && s.enqueue == 0 && s.slots == [Slot(0, None)] && s.threads == map[]
              && s.pushed == [] && |s.base| == 1
    ensures Reachable(1, r) && r.phase.Ready? && r.enqueue == 1 && r.dequeue == s.dequeue
              && r.slots == [Slot(1, Some(item))] && At(r, 0).Idle? && At(r, 1).Idle? && r.pushed == [item]
              && |r.base| == 1 && r.delivered == s.delivered
  {
    hide Reachable;
    var s1 := Move(s, 0, PushAt(item, 0));
    Extend(1, s, s1, BeginPush(0, item));
    var s2 := Move(s1, 0, PushCas(item, 0));
    Extend(1, s1, s2, LoadPushSequence(0));
    var s3 := Move(s2, 0, PushWrite(item, 0)).(enqueue := 1, pushed := [item]);
    Extend(1, s2, s3, CasPush(0, false));
    var s4 := Move(s3, 0, PushPublish(item, 0)).(slots := [Slot(0, Some(item))]);
    Extend(1, s3, s4, WritePush(0));
    r := Move(s4, 0, Idle).(slots := [Slot(1, Some(item))]);
    Extend(1, s4, r, PublishPush(0));
  }

  /** Every completed pop returned the item pushed at its position. */
  ghost predicate Faithful<T>(s: State<T>) {
    forall p :: p in s.delivered ==> p < |s.pushed| && s.delivered[p] == s.pushed[p]
  }

  /** The capacity bound and the faithful delivery hold, each of them, of every reachable state exactly when
      the queue has at least two slots. */
  lemma TwoSlotsExactly(n: nat)
    requires n > 0
    ensures n >= 2 <==> forall s: State<int> :: Reachable(n, s) ==> s.enqueue <= s.dequeue + n
    ensures n >= 2 <==> forall s: State<int> :: Reachable(n, s) ==> Faithful(s)
  {
    hide Inv;
    if n >= 2 {
      forall s: State<int> | Reachable(n, s) ensures s.enqueue <= s.dequeue + n && Faithful(s) {
        var states: seq<State<int>>, actions: seq<Action<int>> :| Run(n, states, actions) && states[|actions|] == s;
        RunInvariant(n, states, actions, |actions|);
        Counted(n, s);
        InvFaithful(n, s);
      }
    } else {
      OneSlotOverruns();
      OneSlotMisdelivers();
      var s: State<int> :| Reachable(1, s) && s.pushed == [7, 8] && s.delivered == map[0 := 8];
      assert 0 in s.delivered && s.delivered[0] != s.pushed[0];
    }
  }

  lemma InvFaithful<T>(n: nat, s: State<T>)
    requires Inv(n, s)
    ensures Faithful(s)
  {
  }

  lemma TwoSlotStart() returns (s: State<int>)
    ensures && Reachable(2, s) && s.phase.Ready? && s.enqueue == 0 && s.dequeue == 0
            && s.slots == [Slot(0, None), Slot(1, None)]
    ensures s.threads == map[] && s.pushed == [] && |s.base| == 2
  {
    hide Reachable;
    var s0 := State<int>.State(Uninitialized, 0, 0, [Slot(0, None), Slot(0, None)], map[], [0, 0], [], map[]);
    StartReachable(2, s0);
    var s1 := s0.(phase := Initializing(0));
    Extend(2, s0, s1, InitBegin);
    var s2 := s1.(phase := Initializing(1));
    Extend(2, s1, s2, InitSlot);
    var s3 := s2.(phase := Initializing(2), slots := [Slot(0, None), Slot(1, None)], base := [0, 1]);
    Extend(2, s2, s3, InitSlot);
    s := s3.(phase := Ready);
    Extend(2, s3, s, InitReady);
  }

  lemma SlowProducer(s: State<int>) returns (r: State<int>)
    requires && Reachable(2, s) && s.phase.Ready? && s.enqueue == 0 && s.dequeue == 0
             && s.slots == [Slot(0, None), Slot(1, None)]
    requires s.threads == map[] && s.pushed == [] && |s.base| == 2
    ensures Reachable(2, r) && r.phase.Ready? && r.enqueue == 1 && r.dequeue == 0 && r.slots == s.slots && |r.base| == 2
    ensures r.threads == map[0 := PushWrite(7, 0)] && r.pushed == [7]
  {
    hide Reachable;
    var s1 := Move(s, 0, PushAt(7, 0));
    Extend(2, s, s1, BeginPush(0, 7));
    var s2 := Move(s1, 0, PushCas(7, 0));
    Extend(2, s1, s2, LoadPushSequence(0));
    r := Move(s2, 0, PushWrite(7, 0)).(enqueue := 1, pushed := [7]);
    Extend(2, s2, r, CasPush(0, false));
  }

  lemma FastProducer(s: State<int>) returns (r: State<int>)
    requires Reachable(2, s) && s.phase.Ready? && s.enqueue == 1 && s.dequeue == 0
              && s.slots == [Slot(0, None), Slot(1, None)] && |s.base| == 2
    requires s.threads == map[0 := PushWrite(7, 0)] && s.pushed == [7]
    ensures Reachable(2, r) && r.phase.Ready? && r.enqueue == 2 && r.dequeue == 0
              && r.slots == [Slot(0, None), Slot(2, Some(8))] && |r.base| == 2
    ensures r.threads == map[0 := PushWrite(7, 0), 1 := Idle] && r.pushed == [7, 8]
  {
    hide Reachable;
    var s3 := FastClaim(s);
    var s4 := Move(s3, 1, PushPublish(8, 1)).(slots := [Slot(0, None), Slot(1, Some(8))]);
    Extend(2, s3, s4, WritePush(1));
    r := Move(s4, 1, Idle).(slots := [Slot(0, None), Slot(2, Some(8))]);
    Extend(2, s4, r, PublishPush(1));
  }

  lemma FastClaim(s: State<int>) returns (r: State<int>)
    requires Reachable(2, s) && s.phase.Ready? && s.enqueue == 1 && s.dequeue == 0
             && s.slots == [Slot(0, None), Slot(1, None)] && |s.base| == 2
    requires s.threads == map[0 := PushWrite(7, 0)] && s.pushed == [7]
    ensures Reachable(2, r) && r.phase.Ready? && r.enqueue == 2 && r.dequeue == 0 && r.slots == s.slots && |r.base| == 2
    ensures r.threads == map[0 := PushWrite(7, 0), 1 := PushWrite(8, 1)] && r.pushed == [7, 8]
  {
    hide Reachable;
    var s1 := Move(s, 1, PushAt(8, 1));
    Extend(2, s, s1, BeginPush(1, 8));
    var s2 := Move(s1, 1, PushCas(8, 1));
    Extend(2, s1, s2, LoadPushSequence(1));
    r := Move(s2, 1, PushWrite(8, 1)).(enqueue := 2, pushed := [7, 8]);
    Extend(2, s2, r, CasPush(1, false));
  }

  /** Empty is not a statement about the abstract queue: it is answered while a completed push waits
      behind a claimed but unpublished one. */
  lemma EmptyBehindSlowProducer() returns (r: State<int>, r': State<int>)
    ensures Reachable(2, r) && |r.slots| == |r.base| == 2 && Next(2, r, r', LoadPopSequence(2)) && At(r', 2).Idle?
    ensures r.pushed == [7, 8] && r.dequeue == 0 && r.slots[1] == Slot(2, Some(8)) && At(r, 1).Idle?
  {
    hide Reachable;
    var s0 := TwoSlotStart();
    var s1 := SlowProducer(s0);
    var s2 := FastProducer(s1);
    r := Move(s2, 2, PopAt(0));
    Extend(2, s2, r, BeginPop(2));
    r' := Move(r, 2, Idle);
  }
}
