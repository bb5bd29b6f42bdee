/** The two-bank reader/writer constellation (core/aether/src/constellation.rs) as interleaved atomic
    steps of any number of readers, guards and publishers, with a publisher's copy into its bank split
    in two so that a torn value would be seen. */
module PolicyConstellation {

  datatype Status = Empty | Initializing | Ready

  /** A bank holds a value or is being overwritten. */
  datatype Bank<P> = Whole(value: P) | Torn

  /** Where a thread is.  A guard remembers the value it saw and how many values were published then. */
  datatype Thread<P> =
    | Idle
    | Loaded(index: nat) | Counted(index: nat) | Backoff(index: nat) | Guard(index: nat, value: P, seen: nat)
    | Locked(next: P) | Targeted(next: P, target: nat) | Checked(next: P, target: nat) | Writing(next: P, target: nat)
    | Written(next: P, target: nat) | Bumped(next: P, target: nat, ticket: nat) | Activated(ticket: nat) | Refused
    | FirstBank(next: P) | SecondBank(next: P) | BanksReady(next: P)

  datatype State<P> = State(
    status: Status, writer: bool, active: nat, generation: nat, readers: seq<nat>, banks: seq<Bank<P>>,
    threads: seq<Thread<P>>,
    published: seq<P>        // every value ever made active, in order
  )

  datatype Action<P> =
    | BeginInit(initial: P) | WriteFirst | WriteSecond | FinishInit
    | LoadActive | CountIn | Validate | CountOut | DropGuard
    | Lock(value: P) | LoadTarget | CheckReaders | BeginWrite | EndWrite | Bump | Activate | Unlock

  function Start<P>(n: nat): State<P> {
    State(Empty, false, 0, 0, [0, 0], [Torn, Torn], seq(n, _ => Idle), [])
  }

  function At<P>(s: State<P>, t: nat, pc: Thread<P>): State<P>
    requires t < |s.threads|
  {
    s.(threads := s.threads[t := pc])
  }

  /** The threads that hold a count on bank i. */
  predicate Holds<P>(pc: Thread<P>, i: nat) {
    (pc.Counted? || pc.Backoff? || pc.Guard?) && pc.index == i
  }

  /** One step of thread t.  An attempt that changes nothing (a failed compare-exchange, a load that finds
      no constellation) is the thread staying idle. */
  ghost predicate Next<P>(s: State<P>, t: nat, a: Action<P>, s': State<P>)
    requires Shape(s)
  {
    t < |s.threads| && (InitStep(s, t, a, s') || ReadStep(s, t, a, s') || WriteStep(s, t, a, s'))
  }

  ghost predicate InitStep<P>(s: State<P>, t: nat, a: Action<P>, s': State<P>)
    requires Shape(s) && t < |s.threads|
  {
    var pc := s.threads[t];
    match a
    case BeginInit(v) => pc.Idle? && s.status.Empty? && s' == At(s, t, FirstBank(v)).(status := Initializing)
    case WriteFirst => pc.FirstBank? && s' == At(s, t, SecondBank(pc.next)).(banks := s.banks[0 := Whole(pc.next)])
    case WriteSecond => pc.SecondBank? && s' == At(s, t, BanksReady(pc.next)).(banks := s.banks[1 := Whole(pc.next)])
    case FinishInit =>
      pc.BanksReady? && s' == At(s, t, Idle).(active := 0, generation := 1, status := Ready, published := [pc.next])
    case _ => false
  }

  ghost predicate ReadStep<P>(s: State<P>, t: nat, a: Action<P>, s': State<P>)
    requires Shape(s) && t < |s.threads|
  {
    var pc := s.threads[t];
    match a
    case LoadActive => pc.Idle? && s.status.Ready? && s' == At(s, t, Loaded(s.active))
    case CountIn =>
      && pc.Loaded? && pc.index < 2
      && s' == At(s, t, Counted(pc.index)).(readers := s.readers[pc.index := s.readers[pc.index] + 1])
    case Validate =>
      && pc.Counted? && pc.index < 2
      && if s.active == pc.index then
           s.banks[pc.index].Whole? && s' == At(s, t, Guard(pc.index, s.banks[pc.index].value, |s.published|))
         else s' == At(s, t, Backoff(pc.index))
    case CountOut =>
      && pc.Backoff? && pc.index < 2 && s.readers[pc.index] > 0
      && s' == At(s, t, Idle).(readers := s.readers[pc.index := s.readers[pc.index] - 1])
    case DropGuard =>
      && pc.Guard? && pc.index < 2 && s.readers[pc.index] > 0
      && s' == At(s, t, Idle).(readers := s.readers[pc.index := s.readers[pc.index] - 1])
    case _ => false
  }

  ghost predicate WriteStep<P>(s: State<P>, t: nat, a: Action<P>, s': State<P>)
    requires Shape(s) && t < |s.threads|
  {
    var pc := s.threads[t];
    match a
    case Lock(v) => pc.Idle? && s.status.Ready? && !s.writer && s' == At(s, t, Locked(v)).(writer := true)
    case LoadTarget => pc.Locked? && s.active < 2 && s' == At(s, t, Targeted(pc.next, 1 - s.active))
    case CheckReaders =>
      && pc.Targeted? && pc.target < 2
      && s' == At(s, t, if s.readers[pc.target] != 0 then Refused else Checked(pc.next, pc.target))
    case BeginWrite =>
      pc.Checked? && pc.target < 2 && s' == At(s, t, Writing(pc.next, pc.target)).(banks := s.banks[pc.target := Torn])
    case EndWrite =>
      && pc.Writing? && pc.target < 2
      && s' == At(s, t, Written(pc.next, pc.target)).(banks := s.banks[pc.target := Whole(pc.next)])
    case Bump =>
      pc.Written? && s' == At(s, t, Bumped(pc.next, pc.target, s.generation + 1)).(generation := s.generation + 1)
    case Activate =>
      pc.Bumped? && s' == At(s, t, Activated(pc.ticket)).(active := pc.target, published := s.published + [pc.next])
    case Unlock => (pc.Activated? || pc.Refused?) && s' == At(s, t, Idle).(writer := false)
    case _ => false
  }

  ghost predicate Shape<P>(s: State<P>) {
    |s.readers| == 2 && |s.banks| == 2
  }

  // ---- the invariant -----------------------------------------------------

  predicate HasLock<P>(pc: Thread<P>) {
    || pc.Locked? || pc.Targeted? || pc.Checked? || pc.Writing? || pc.Written? || pc.Bumped? || pc.Activated?
    || pc.Refused?
  }

  predicate Initialises<P>(pc: Thread<P>) {
    pc.FirstBank? || pc.SecondBank? || pc.BanksReady?
  }

  /** The bank this thread may overwrite, having found it without readers. */
  predicate Claims<P>(pc: Thread<P>, i: nat) {
    (pc.Checked? || pc.Writing? || pc.Written? || pc.Bumped?) && pc.target == i
  }

  function CountHolding<P>(threads: seq<Thread<P>>, i: nat): nat {
    if threads == [] then 0
    else CountHolding(threads[..|threads| - 1], i) + if Holds(threads[|threads| - 1], i) then 1 else 0
  }

  ghost predicate ThreadOk<P>(s: State<P>, pc: Thread<P>)
    requires Shape(s)
  {
    match pc
    case Idle => true
    case Loaded(i) => i < 2
    case Counted(i) => i < 2
    case Backoff(i) => i < 2
    case Guard(i, v, n) => i < 2 && s.banks[i] == Whole(v) && 1 <= n <= |s.published| && s.published[n - 1] == v
    case Locked(_) => true
    case Targeted(_, t) => t + s.active == 1
    case Checked(_, t) => t + s.active == 1
    case Writing(_, t) => t + s.active == 1
    case Written(v, t) => t + s.active == 1 && s.banks[t] == Whole(v)
    case Bumped(v, t, g) => t + s.active == 1 && s.banks[t] == Whole(v) && g == |s.published| + 1 == s.generation
    case Activated(g) => g == |s.published|
    case Refused => true
    case FirstBank(_) => s.status.Initializing?
    case SecondBank(v) => s.status.Initializing? && s.banks[0] == Whole(v)
    case BanksReady(v) => s.status.Initializing? && s.banks[0] == Whole(v) && s.banks[1] == Whole(v)
  }

  ghost predicate BanksOk<P>(s: State<P>)
    requires Shape(s)
  {
    && s.active < 2
    && (s.status.Ready? ==> |s.published| > 0 && s.banks[s.active] == Whole(s.published[|s.published| - 1]))
    && (!s.status.Ready? ==> !s.writer)
  }

  /** Between bumping the generation and activating, the generation is one ahead. */
  ghost predicate GenerationOk<P>(s: State<P>) {
    s.status.Ready? && (forall t :: 0 <= t < |s.threads| ==> !s.threads[t].Bumped?) ==> s.generation == |s.published|
  }

  ghost predicate ReadersOk<P>(s: State<P>)
    requires Shape(s)
  {
    s.readers[0] == CountHolding(s.threads, 0) && s.readers[1] == CountHolding(s.threads, 1)
  }

  /** What two threads cannot do at once. */
  ghost predicate Apart<P>(p: Thread<P>, q: Thread<P>) {
    && !(HasLock(p) && HasLock(q))
    && !(Initialises(p) && Initialises(q))
    && !(q.Guard? && Claims(p, q.index))
  }

  ghost predicate Placed<P>(s: State<P>, pc: Thread<P>) {
    && (HasLock(pc) ==> s.writer && s.status.Ready?)
    && (!s.status.Ready? ==> pc.Idle? || Initialises(pc))
    && (s.status.Ready? || s.status.Empty? ==> !Initialises(pc))
  }

  ghost predicate Inv<P>(s: State<P>) {
    && Shape(s) && BanksOk(s) && GenerationOk(s) && ReadersOk(s)
    && (forall t :: 0 <= t < |s.threads| ==> ThreadOk(s, s.threads[t]) && Placed(s, s.threads[t]))
    && (forall t, u :: 0 <= t < |s.threads| && 0 <= u < |s.threads| && t != u ==> Apart(s.threads[t], s.threads[u]))
    && (s.writer ==> exists t :: 0 <= t < |s.threads| && HasLock(s.threads[t]))
  }

  // ---- counting ----------------------------------------------------------

  lemma {:induction false} CountUpdate<P>(threads: seq<Thread<P>>, t: nat, pc: Thread<P>, i: nat)
    requires t < |threads|
    ensures CountHolding(threads[t := pc], i) ==
              CountHolding(threads, i) - (if Holds(threads[t], i) then 1 else 0) + (if Holds(pc, i) then 1 else 0)
    ensures Holds(threads[t], i) ==> CountHolding(threads, i) > 0
  {
    var n := |threads| - 1;
    if t == n {
      assert threads[t := pc][..n] == threads[..n];
    } else {
      assert threads[t := pc][..n] == threads[..n][t := pc];
      CountUpdate(threads[..n], t, pc, i);
    }
  }

  lemma {:induction false} CountNone<P>(threads: seq<Thread<P>>, i: nat)
    requires forall t :: 0 <= t < |threads| ==> !Holds(threads[t], i)
    ensures CountHolding(threads, i) == 0
  {
    if threads != [] { CountNone(threads[..|threads| - 1], i); }
  }

  lemma StartInv<P>(n: nat)
    ensures Inv(Start<P>(n))
  {
    var s := Start<P>(n);
    CountNone(s.threads, 0);
    CountNone(s.threads, 1);
  }

  // ---- every step keeps the invariant ------------------------------------

  lemma StepReaders<P>(s: State<P>, t: nat, a: Action<P>, s': State<P>)
    requires Shape(s) && ReadersOk(s) && Next(s, t, a, s')
    ensures Shape(s') && ReadersOk(s')
  {
    hide CountHolding;
    OneThread(s, t, a, s');
    CountUpdate(s.threads, t, s'.threads[t], 0);
    CountUpdate(s.threads, t, s'.threads[t], 1);
    ReadersStep(s, t, a, s');
  }

  /** A reader count moves with the thread that counts in or out, and with nothing else. */
  lemma ReadersStep<P>(s: State<P>, t: nat, a: Action<P>, s': State<P>)
    requires Shape(s) && Next(s, t, a, s')
    ensures Shape(s') && |s'.threads| == |s.threads| && t < |s.threads|
    ensures forall i :: 0 <= i < 2 ==> s'.readers[i] + Held(s.threads[t], i) == s.readers[i] + Held(s'.threads[t], i)
  {
    hide InitStep;
    hide ReadStep;
    hide WriteStep;
    if InitStep(s, t, a, s') {
      ReadersInit(s, t, a, s');
    } else if ReadStep(s, t, a, s') {
      ReadersRead(s, t, a, s');
    } else {
      ReadersWrite(s, t, a, s');
    }
  }

  function Held<P>(pc: Thread<P>, i: nat): nat { if Holds(pc, i) then 1 else 0 }

  lemma ReadersInit<P>(s: State<P>, t: nat, a: Action<P>, s': State<P>)
    requires Shape(s) && t < |s.threads| && InitStep(s, t, a, s')
    ensures Shape(s') && |s'.threads| == |s.threads|
    ensures forall i :: 0 <= i < 2 ==> s'.readers[i] + Held(s.threads[t], i) == s.readers[i] + Held(s'.threads[t], i)
  {
  }

  lemma ReadersRead<P>(s: State<P>, t: nat, a: Action<P>, s': State<P>)
    requires Shape(s) && t < |s.threads| && ReadStep(s, t, a, s')
    ensures Shape(s') && |s'.threads| == |s.threads|
    ensures forall i :: 0 <= i < 2 ==> s'.readers[i] + Held(s.threads[t], i) == s.readers[i] + Held(s'.threads[t], i)
  {
  }

  lemma ReadersWrite<P>(s: State<P>, t: nat, a: Action<P>, s': State<P>)
    requires Shape(s) && t < |s.threads| && WriteStep(s, t, a, s')
    ensures Shape(s') && |s'.threads| == |s.threads|
    ensures forall i :: 0 <= i < 2 ==> s'.readers[i] + Held(s.threads[t], i) == s.readers[i] + Held(s'.threads[t], i)
  {
  }

  lemma StepBanks<P>(s: State<P>, t: nat, a: Action<P>, s': State<P>)
    requires Inv(s) && Next(s, t, a, s')
    ensures Shape(s') && BanksOk(s')
  {
    hide ReadersOk;
    hide GenerationOk;
    hide Apart;
    assert ThreadOk(s, s.threads[t]) && Placed(s, s.threads[t]);
  }

  lemma StepGeneration<P>(s: State<P>, t: nat, a: Action<P>, s': State<P>)
    requires Inv(s) && Next(s, t, a, s')
    ensures GenerationOk(s')
  {
    hide ReadersOk;
    hide BanksOk;
    hide Apart;
    assert ThreadOk(s, s.threads[t]) && Placed(s, s.threads[t]);
    if !a.Activate? && !a.FinishInit? {
      BumpedStays(s, t, a, s');
    }
  }

  /** Only activation ends a bump. */
  lemma BumpedStays<P>(s: State<P>, t: nat, a: Action<P>, s': State<P>)
    requires Shape(s) && Next(s, t, a, s') && !a.Activate?
    ensures (forall u :: 0 <= u < |s'.threads| ==> !s'.threads[u].Bumped?) ==>
              !a.Bump? && forall u :: 0 <= u < |s.threads| ==> !s.threads[u].Bumped?
  {
    assert s'.threads == s.threads[t := s'.threads[t]];
    if forall u :: 0 <= u < |s'.threads| ==> !s'.threads[u].Bumped? {
      assert !s'.threads[t].Bumped?;
      forall u | 0 <= u < |s.threads| ensures !s.threads[u].Bumped? {
        assert u != t ==> s'.threads[u] == s.threads[u];
      }
    }
  }

  /** The other threads keep their places. */
  lemma StepOther<P>(s: State<P>, t: nat, a: Action<P>, s': State<P>, u: nat)
    requires Inv(s) && Next(s, t, a, s') && u < |s.threads| && u != t
    ensures Shape(s') && ThreadOk(s', s.threads[u]) && Placed(s', s.threads[u])
  {
    hide ReadersOk;
    hide GenerationOk;
    assert ThreadOk(s, s.threads[t]) && Placed(s, s.threads[t]);
    assert ThreadOk(s, s.threads[u]) && Placed(s, s.threads[u]);
    assert Apart(s.threads[t], s.threads[u]) && Apart(s.threads[u], s.threads[t]);
  }

  lemma StepOwn<P>(s: State<P>, t: nat, a: Action<P>, s': State<P>)
    requires Inv(s) && Next(s, t, a, s')
    ensures Shape(s') && ThreadOk(s', s'.threads[t]) && Placed(s', s'.threads[t])
  {
    hide ReadersOk;
    hide Next;
    hide ThreadOk;
    hide Placed;
    hide BanksOk;
    OneThread(s, t, a, s');
    assert ThreadOk(s, s.threads[t]) && Placed(s, s.threads[t]);
    if a.Bump? { AloneAtBump(s, t, a, s'); }
    OwnThread(s, t, a, s');
    OwnPlace(s, t, a, s');
  }

  lemma AloneAtBump<P>(s: State<P>, t: nat, a: Action<P>, s': State<P>)
    requires Inv(s) && Next(s, t, a, s') && a.Bump?
    ensures s.generation == |s.published|
  {
    hide ReadersOk;
    hide ThreadOk;
    hide BanksOk;
    assert Placed(s, s.threads[t]);
    forall u | 0 <= u < |s.threads| ensures !s.threads[u].Bumped? {
      if u != t {
        assert Apart(s.threads[t], s.threads[u]);
      }
    }
  }

  lemma OwnThread<P>(s: State<P>, t: nat, a: Action<P>, s': State<P>)
    requires Shape(s) && BanksOk(s) && Next(s, t, a, s') && ThreadOk(s, s.threads[t]) && Placed(s, s.threads[t])
    requires a.Bump? ==> s.generation == |s.published|
    ensures Shape(s') && ThreadOk(s', s'.threads[t])
  {
    hide InitStep;
    hide ReadStep;
    hide WriteStep;
    hide ThreadOk;
    hide Placed;
    hide BanksOk;
    if InitStep(s, t, a, s') {
      OwnInit(s, t, a, s');
    } else if ReadStep(s, t, a, s') {
      OwnRead(s, t, a, s');
    } else {
      OwnWrite(s, t, a, s');
    }
  }

  lemma OwnInit<P>(s: State<P>, t: nat, a: Action<P>, s': State<P>)
    requires Shape(s) && t < |s.threads| && InitStep(s, t, a, s') && ThreadOk(s, s.threads[t])
    ensures Shape(s') && |s'.threads| == |s.threads| && ThreadOk(s', s'.threads[t])
  {
  }

  lemma OwnRead<P>(s: State<P>, t: nat, a: Action<P>, s': State<P>)
    requires && Shape(s) && BanksOk(s) && t < |s.threads| && ReadStep(s, t, a, s') && ThreadOk(s, s.threads[t])
             && Placed(s, s.threads[t])
    ensures Shape(s') && |s'.threads| == |s.threads| && ThreadOk(s', s'.threads[t])
  {
  }

  lemma OwnWrite<P>(s: State<P>, t: nat, a: Action<P>, s': State<P>)
    requires Shape(s) && BanksOk(s) && t < |s.threads| && WriteStep(s, t, a, s') && ThreadOk(s, s.threads[t])
    requires a.Bump? ==> s.generation == |s.published|
    ensures Shape(s') && |s'.threads| == |s.threads| && ThreadOk(s', s'.threads[t])
  {
  }

  lemma OwnPlace<P>(s: State<P>, t: nat, a: Action<P>, s': State<P>)
    requires Shape(s) && Next(s, t, a, s') && Placed(s, s.threads[t]) && ThreadOk(s, s.threads[t])
    ensures |s'.threads| == |s.threads| && Placed(s', s'.threads[t])
  {
    hide InitStep;
    hide ReadStep;
    hide WriteStep;
    hide ThreadOk;
    hide Placed;
    if InitStep(s, t, a, s') {
      PlaceInit(s, t, a, s');
    } else if ReadStep(s, t, a, s') {
      PlaceRead(s, t, a, s');
    } else {
      PlaceWrite(s, t, a, s');
    }
  }

  lemma PlaceInit<P>(s: State<P>, t: nat, a: Action<P>, s': State<P>)
    requires && Shape(s) && t < |s.threads| && InitStep(s, t, a, s') && Placed(s, s.threads[t])
             && ThreadOk(s, s.threads[t])
    ensures |s'.threads| == |s.threads| && Placed(s', s'.threads[t])
  {
  }

  lemma PlaceRead<P>(s: State<P>, t: nat, a: Action<P>, s': State<P>)
    requires Shape(s) && t < |s.threads| && ReadStep(s, t, a, s') && Placed(s, s.threads[t])
    ensures |s'.threads| == |s.threads| && Placed(s', s'.threads[t])
  {
  }

  lemma PlaceWrite<P>(s: State<P>, t: nat, a: Action<P>, s': State<P>)
    requires Shape(s) && t < |s.threads| && WriteStep(s, t, a, s') && Placed(s, s.threads[t])
    ensures |s'.threads| == |s.threads| && Placed(s', s'.threads[t])
  {
  }

  /** A thread that takes the lock or claims a bank finds nobody in its way. */
  lemma StepApart<P>(s: State<P>, t: nat, a: Action<P>, s': State<P>, u: nat)
    requires Inv(s) && Next(s, t, a, s') && u < |s.threads| && u != t
    ensures Apart(s'.threads[t], s.threads[u]) && Apart(s.threads[u], s'.threads[t])
  {
    hide CountHolding;
    hide GenerationOk;
    hide Next;
    hide ThreadOk;
    hide Placed;
    hide Apart;
    hide BanksOk;
    OneThread(s, t, a, s');
    var pc, other := s.threads[t], s.threads[u];
    assert ThreadOk(s, pc) && Placed(s, pc) && ThreadOk(s, other) && Placed(s, other);
    assert Apart(pc, other) && Apart(other, pc);
    if other.Guard? { CountUpdate(s.threads, u, other, other.index); }
    ApartPlace(s, t, a, s', other);
  }

  lemma ApartPlace<P>(s: State<P>, t: nat, a: Action<P>, s': State<P>, other: Thread<P>)
    requires Shape(s) && BanksOk(s) && Next(s, t, a, s')
    requires ThreadOk(s, s.threads[t]) && Placed(s, s.threads[t]) && ThreadOk(s, other) && Placed(s, other)
    requires Apart(s.threads[t], other) && Apart(other, s.threads[t])
    requires other.Guard? && other.index < 2 ==> s.readers[other.index] > 0
    ensures Apart(s'.threads[t], other) && Apart(other, s'.threads[t])
  {
    hide InitStep;
    hide ReadStep;
    hide WriteStep;
    if InitStep(s, t, a, s') {
      ApartInit(s, t, a, s', other);
    } else if ReadStep(s, t, a, s') {
      ApartRead(s, t, a, s', other);
    } else {
      ApartWrite(s, t, a, s', other);
    }
  }

  lemma ApartInit<P>(s: State<P>, t: nat, a: Action<P>, s': State<P>, other: Thread<P>)
    requires Shape(s) && BanksOk(s) && t < |s.threads| && InitStep(s, t, a, s')
    requires ThreadOk(s, s.threads[t]) && Placed(s, s.threads[t]) && ThreadOk(s, other) && Placed(s, other)
    requires Apart(s.threads[t], other) && Apart(other, s.threads[t])
    requires other.Guard? && other.index < 2 ==> s.readers[other.index] > 0
    ensures Apart(s'.threads[t], other) && Apart(other, s'.threads[t])
  {
  }

  lemma ApartRead<P>(s: State<P>, t: nat, a: Action<P>, s': State<P>, other: Thread<P>)
    requires Shape(s) && BanksOk(s) && t < |s.threads| && ReadStep(s, t, a, s')
    requires ThreadOk(s, s.threads[t]) && Placed(s, s.threads[t]) && ThreadOk(s, other) && Placed(s, other)
    requires Apart(s.threads[t], other) && Apart(other, s.threads[t])
    requires other.Guard? && other.index < 2 ==> s.readers[other.index] > 0
    ensures Apart(s'.threads[t], other) && Apart(other, s'.threads[t])
  {
  }

  lemma ApartWrite<P>(s: State<P>, t: nat, a: Action<P>, s': State<P>, other: Thread<P>)
    requires Shape(s) && BanksOk(s) && t < |s.threads| && WriteStep(s, t, a, s')
    requires ThreadOk(s, s.threads[t]) && Placed(s, s.threads[t]) && ThreadOk(s, other) && Placed(s, other)
    requires Apart(s.threads[t], other) && Apart(other, s.threads[t])
    requires other.Guard? && other.index < 2 ==> s.readers[other.index] > 0
    ensures Apart(s'.threads[t], other) && Apart(other, s'.threads[t])
  {
  }

  lemma StepLock<P>(s: State<P>, t: nat, a: Action<P>, s': State<P>)
    requires Inv(s) && Next(s, t, a, s') && s'.writer
    ensures exists u :: 0 <= u < |s'.threads| && HasLock(s'.threads[u])
  {
    hide ReadersOk;
    hide GenerationOk;
    hide BanksOk;
    hide ThreadOk;
    hide Apart;
    if a.Lock? {
      assert HasLock(s'.threads[t]);
    } else {
      var u :| 0 <= u < |s.threads| && HasLock(s.threads[u]);
      assert u != t ==> s'.threads[u] == s.threads[u];
      assert HasLock(s'.threads[u]) by {
        if u == t {
          assert Placed(s, s.threads[t]);
        }
      }
    }
  }

  lemma OneThread<P>(s: State<P>, t: nat, a: Action<P>, s': State<P>)
    requires Shape(s) && Next(s, t, a, s')
    ensures t < |s.threads| == |s'.threads| && s'.threads == s.threads[t := s'.threads[t]]
  {
  }

  lemma StepKeeps<P>(s: State<P>, t: nat, a: Action<P>, s': State<P>)
    requires Inv(s) && Next(s, t, a, s')
    ensures Inv(s')
  {
    hide Next;
    hide BanksOk;
    hide GenerationOk;
    hide ReadersOk;
    hide ThreadOk;
    hide Placed;
    hide Apart;
    StepReaders(s, t, a, s');
    StepBanks(s, t, a, s');
    StepGeneration(s, t, a, s');
    StepOwn(s, t, a, s');
    OneThread(s, t, a, s');
    if s'.writer { StepLock(s, t, a, s'); }
    forall u | 0 <= u < |s.threads| && u != t
      ensures ThreadOk(s', s.threads[u]) && Placed(s', s.threads[u]) && Apart(s'.threads[t], s.threads[u])
                && Apart(s.threads[u], s'.threads[t])
    {
      StepOther(s, t, a, s', u);
      StepApart(s, t, a, s', u);
    }
  }

  // ---- runs --------------------------------------------------------------

  datatype Move<P> = Move(thread: nat, action: Action<P>)

  ghost predicate Run<P>(states: seq<State<P>>, moves: seq<Move<P>>, n: nat) {
    && |states| == |moves| + 1 && states[0] == Start(n)
    && (forall k :: 0 <= k < |states| ==> Shape(states[k]))
    && (forall k :: 0 <= k < |moves| ==> Next(states[k], moves[k].thread, moves[k].action, states[k + 1]))
  }

  lemma {:induction false} RunInvariant<P>(states: seq<State<P>>, moves: seq<Move<P>>, n: nat, k: nat)
    requires Run(states, moves, n) && k < |states|
    ensures Inv(states[k])
  {
    hide Next;
    hide Inv;
    if k == 0 {
      StartInv<P>(n);
    } else {
      RunInvariant(states, moves, n, k - 1);
      StepKeeps(states[k - 1], moves[k - 1].thread, moves[k - 1].action, states[k]);
    }
  }

  /** No step of any run changes a bank that a guard refers to. */
  lemma GuardedBankUntouched<P>(s: State<P>, t: nat, a: Action<P>, s': State<P>, u: nat)
    requires Inv(s) && Next(s, t, a, s') && u < |s.threads| && s.threads[u].Guard?
    ensures && s.threads[u].index < 2
            && s'.banks[s.threads[u].index] == s.banks[s.threads[u].index] == Whole(s.threads[u].value)
  {
    hide ReadersOk;
    hide GenerationOk;
    assert ThreadOk(s, s.threads[u]) && Placed(s, s.threads[u]);
    assert ThreadOk(s, s.threads[t]) && Placed(s, s.threads[t]);
    if u != t {
      assert Apart(s.threads[t], s.threads[u]);
    }
  }

  /** For its whole life a guard sees one whole value: the one published last when it was validated. */
  lemma {:induction false} GuardSeesOneValue<P>(states: seq<State<P>>, moves: seq<Move<P>>, n: nat, i: nat, j: nat,
        u: nat)
    requires Run(states, moves, n) && i <= j < |states| && u < |states[i].threads| && states[i].threads[u].Guard?
    requires forall k :: i <= k <= j ==> u < |states[k].threads| && states[k].threads[u] == states[i].threads[u]
    ensures var g := states[i].threads[u];
            && g.index < 2 && states[j].banks[g.index] == Whole(g.value)
            && 1 <= g.seen <= |states[j].published| && states[j].published[g.seen - 1] == g.value
  {
    hide Next;
    RunInvariant(states, moves, n, j);
    assert ThreadOk(states[j], states[j].threads[u]);
  }

  /** The side conditions of the reader steps always hold: a validated bank is never torn and no count
      goes below zero. */
  lemma ReadersNeverBlocked<P>(s: State<P>, t: nat)
    requires Inv(s) && t < |s.threads|
    ensures var pc := s.threads[t];
            && (pc.Loaded? || pc.Counted? || pc.Backoff? || pc.Guard? ==> pc.index < 2)
            && (pc.Counted? && s.active == pc.index ==> s.banks[pc.index].Whole?)
            && (pc.Backoff? || pc.Guard? ==> s.readers[pc.index] > 0)
  {
    var pc := s.threads[t];
    assert ThreadOk(s, pc) && Placed(s, pc);
    CountUpdate(s.threads, t, pc, 0);
    CountUpdate(s.threads, t, pc, 1);
  }

  /** Validation hands out the value published last. */
  lemma ValidateSeesLatest<P>(s: State<P>, t: nat, s': State<P>)
    requires Inv(s) && Next(s, t, Validate, s') && s'.threads[t].Guard?
    ensures |s.published| > 0 && s'.threads[t] == Guard(s.active, s.published[|s.published| - 1], |s.published|)
  {
    assert Placed(s, s.threads[t]);
  }

  /** The generation a publisher returns is the position of its value among the published ones. */
  lemma TicketIsPosition<P>(s: State<P>, t: nat, s': State<P>)
    requires Inv(s) && Next(s, t, Activate, s')
    ensures s'.threads[t] == Activated(|s'.published|) && s'.published == s.published + [s.threads[t].next]
              && s'.generation == |s'.published|
  {
    assert ThreadOk(s, s.threads[t]);
  }

  // ---- retries and refusals ----------------------------------------------

  /** A publisher is refused exactly when some thread holds a count on the bank it is about to overwrite. */
  lemma RefusedExactly<P>(s: State<P>, t: nat, s': State<P>)
    requires Inv(s) && Next(s, t, CheckReaders, s')
    ensures s'.threads[t].Refused? <==> exists u :: 0 <= u < |s.threads| && Holds(s.threads[u], s.threads[t].target)
  {
    CountExactly(s.threads, s.threads[t].target);
  }

  lemma {:induction false} CountExactly<P>(threads: seq<Thread<P>>, i: nat)
    ensures CountHolding(threads, i) > 0 <==> exists u :: 0 <= u < |threads| && Holds(threads[u], i)
  {
    if threads != [] {
      var last := |threads| - 1;
      CountExactly(threads[..last], i);
      if u :| 0 <= u < |threads| && Holds(threads[u], i) && u != last {
        assert Holds(threads[..last][u], i);
      }
    }
  }

  /** The active bank alternates: its index is the parity of the number of values published. */
  ghost predicate Alternates<P>(s: State<P>) {
    s.status.Ready? ==> |s.published| > 0 && s.active == (|s.published| - 1) % 2
  }

  lemma StepAlternates<P>(s: State<P>, t: nat, a: Action<P>, s': State<P>)
    requires Inv(s) && Next(s, t, a, s') && Alternates(s)
    ensures Alternates(s')
    ensures s.status.Ready? ==> s'.status.Ready? && |s'.published| == |s.published| + if a.Activate? then 1 else 0
  {
    hide ReadersOk;
    assert ThreadOk(s, s.threads[t]) && Placed(s, s.threads[t]);
  }

  lemma {:induction false} RunAlternates<P>(states: seq<State<P>>, moves: seq<Move<P>>, n: nat, k: nat)
    requires Run(states, moves, n) && k < |states|
    ensures Alternates(states[k])
  {
    hide Next;
    hide Inv;
    if k > 0 {
      RunAlternates(states, moves, n, k - 1);
      RunInvariant(states, moves, n, k - 1);
      StepAlternates(states[k - 1], moves[k - 1].thread, moves[k - 1].action, states[k]);
    }
  }

  function Activations<P>(moves: seq<Move<P>>): nat {
    if moves == [] then 0 else Activations(moves[..|moves| - 1]) + if moves[|moves| - 1].action.Activate? then 1 else 0
  }

  lemma {:induction false} PublishedSince<P>(states: seq<State<P>>, moves: seq<Move<P>>, n: nat, i: nat, j: nat)
    requires Run(states, moves, n) && i <= j < |states| && states[i].status.Ready?
    ensures states[j].status.Ready? && |states[j].published| == |states[i].published| + Activations(moves[i..j])
  {
    hide Next;
    hide Inv;
    if i < j {
      PublishedSince(states, moves, n, i, j - 1);
      RunInvariant(states, moves, n, j - 1);
      RunAlternates(states, moves, n, j - 1);
      StepAlternates(states[j - 1], moves[j - 1].thread, moves[j - 1].action, states[j]);
      assert moves[i..j][..j - 1 - i] == moves[i..j - 1];
    }
  }

  /** The thread is inside one attempt to read: it has loaded the active bank and not yet validated it. */
  predicate Attempting<P>(pc: Thread<P>) { pc.Loaded? || pc.Counted? }

  lemma StepKeepsAttempt<P>(s: State<P>, t: nat, a: Action<P>, s': State<P>, u: nat)
    requires Shape(s) && Next(s, t, a, s') && u < |s.threads| && Attempting(s.threads[u])
    ensures |s'.threads| == |s.threads| && (Attempting(s'.threads[u]) ==> s'.threads[u].index == s.threads[u].index)
  {
  }

  lemma {:induction false} AttemptKeepsIndex<P>(states: seq<State<P>>, moves: seq<Move<P>>, n: nat, i: nat, j: nat,
        u: nat)
    requires Run(states, moves, n) && i <= j < |states|
    requires forall k :: i <= k <= j ==> u < |states[k].threads| && Attempting(states[k].threads[u])
    ensures Attempting(states[i].threads[u]) && Attempting(states[j].threads[u])
    ensures states[j].threads[u].index == states[i].threads[u].index
  {
    hide Next;
    if i < j {
      AttemptKeepsIndex(states, moves, n, i, j - 1, u);
      StepKeepsAttempt(states[j - 1], moves[j - 1].thread, moves[j - 1].action, states[j], u);
    }
  }

  /** A reader has to try again exactly when an odd number of values was published between its load of the
      active bank and its validation: never when none was. */
  lemma RetryExactly<P>(states: seq<State<P>>, moves: seq<Move<P>>, n: nat, i: nat, j: nat, u: nat)
    requires && Run(states, moves, n) && i < j < |moves| && moves[i] == Move(u, LoadActive)
             && moves[j] == Move(u, Validate)
    requires forall k :: i < k <= j ==> u < |states[k].threads| && Attempting(states[k].threads[u])
    ensures u < |states[j + 1].threads|
    ensures states[j + 1].threads[u].Backoff? <==> Activations(moves[i + 1..j]) % 2 == 1
    ensures states[j + 1].threads[u].Guard? <==> Activations(moves[i + 1..j]) % 2 == 0
  {
    hide Inv;
    hide Alternates;
    LoadedActive(states[i], u, states[i + 1]);
    AttemptKeepsIndex(states, moves, n, i + 1, j, u);
    PublishedSince(states, moves, n, i + 1, j);
    RunAlternates(states, moves, n, i + 1);
    RunAlternates(states, moves, n, j);
    ParityFlips(states[i + 1], states[j], Activations(moves[i + 1..j]));
    Validated(states[j], u, states[j + 1]);
  }

  lemma LoadedActive<P>(s: State<P>, u: nat, s': State<P>)
    requires Shape(s) && Next(s, u, LoadActive, s')
    ensures s'.status.Ready? && u < |s'.threads| && s'.threads[u] == Loaded(s'.active)
  {
  }

  lemma ParityFlips<P>(a: State<P>, b: State<P>, count: nat)
    requires Alternates(a) && Alternates(b) && a.status.Ready? && b.status.Ready?
    requires |b.published| == |a.published| + count
    ensures b.active == a.active <==> count % 2 == 0
  {
  }

  lemma Validated<P>(s: State<P>, u: nat, s': State<P>)
    requires Shape(s) && Next(s, u, Validate, s')
    ensures u < |s'.threads| == |s.threads|
    ensures s.threads[u].Counted? && (s'.threads[u].Guard? <==> s.active == s.threads[u].index)
    ensures s'.threads[u].Backoff? <==> s.active != s.threads[u].index
  {
  }
}
