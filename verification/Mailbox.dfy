/** The mailbox: a ring of messages shared by any number of posting threads and one fetching thread, guarded by two binary
    semaphores. Every access to shared state is one step, and the steps interleave freely. */
module Mailbox {
  import opened Slices

  const SYS_MBOX_SIZE: int := 100

  type Msg = int

  /** Where a poster stands in sys_mbox_post; a poster that is not in the map is outside it. */
  datatype Poster =
    | Entering(m: Msg)             // about to wait for the mutex
    | Locked(m: Msg)               // about to store its message
    | Stored(m: Msg)               // about to test whether the ring was empty
    | Checked(m: Msg, first: bool) // about to move `last`
    | Advanced(first: bool)        // about to signal `mail` if the ring was empty
    | Mailed                       // about to release the mutex

  /** Where the fetcher stands in sys_arch_mbox_fetch. */
  datatype Fetcher =
    | Outside
    | FEntering                    // about to wait for the mutex
    | FLocked                      // about to test whether the ring is empty
    | FEmpty                       // found it empty, about to release the mutex
    | FWaiting                     // waiting for `mail`
    | FFull                        // found a message, about to read it
    | FTook(m: Msg)                // about to move `first`
    | FAdvanced                    // about to release the mutex

  /** The shared state, the threads, and the messages posted and delivered so far. */
  datatype State = State(msgs: seq<Msg>, first: int, last: int, mutex: int, mail: int,
                         posters: map<int, Poster>, fetcher: Fetcher, posted: seq<Msg>, delivered: seq<Msg>)

  datatype Step =
    | Begin(p: int, m: Msg) | Lock(p: int) | Store(p: int) | Check(p: int) | Advance(p: int) | Mail(p: int) | Unlock(p: int)
    | FBegin | FLock | FTest | FRelease | FWake | FTimeout | FTake | FAdvance | FUnlock

  /** sys_sem_signal: the count never exceeds one. */
  function Signal(c: int): int {
    if c + 1 > 1 then 1 else c + 1
  }

  function Bump(i: int): int {
    if i + 1 == SYS_MBOX_SIZE then 0 else i + 1
  }

  predicate Enabled(s: State, t: Step) {
    match t
    case Begin(p, _) => p !in s.posters
    case Lock(p) => p in s.posters && s.posters[p].Entering? && s.mutex > 0
    case Store(p) => p in s.posters && s.posters[p].Locked?
    case Check(p) => p in s.posters && s.posters[p].Stored?
    case Advance(p) => p in s.posters && s.posters[p].Checked?
    case Mail(p) => p in s.posters && s.posters[p].Advanced?
    case Unlock(p) => p in s.posters && s.posters[p].Mailed?
    case FBegin => s.fetcher.Outside?
    case FLock => s.fetcher.FEntering? && s.mutex > 0
    case FTest => s.fetcher.FLocked?
    case FRelease => s.fetcher.FEmpty?
    case FWake => s.fetcher.FWaiting? && s.mail > 0
    case FTimeout => s.fetcher.FWaiting?
    case FTake => s.fetcher.FFull?
    case FAdvance => s.fetcher.FTook?
    case FUnlock => s.fetcher.FAdvanced?
  }

  predicate InArray(s: State) {
    |s.msgs| == SYS_MBOX_SIZE && 0 <= s.first < SYS_MBOX_SIZE && 0 <= s.last < SYS_MBOX_SIZE
  }

  function At(s: State, p: int, pc: Poster): State {
    s.(posters := s.posters[p := pc])
  }

  function Do(s: State, t: Step): State
    requires InArray(s) && Enabled(s, t)
  {
    match t
    case Begin(p, m) => At(s, p, Entering(m))
    case Lock(p) => At(s, p, Locked(s.posters[p].m)).(mutex := s.mutex - 1)
    case Store(p) => At(s, p, Stored(s.posters[p].m)).(msgs := s.msgs[s.last := s.posters[p].m])
    case Check(p) => At(s, p, Checked(s.posters[p].m, s.last == s.first))
    case Advance(p) => At(s, p, Advanced(s.posters[p].first)).(last := Bump(s.last), posted := s.posted + [s.posters[p].m])
    case Mail(p) => At(s, p, Mailed).(mail := if s.posters[p].first then Signal(s.mail) else s.mail)
    case Unlock(p) => s.(posters := s.posters - {p}, mutex := Signal(s.mutex))
    case FBegin => s.(fetcher := FEntering)
    case FLock => s.(fetcher := FLocked, mutex := s.mutex - 1)
    case FTest => s.(fetcher := if s.first == s.last then FEmpty else FFull)
    case FRelease => s.(fetcher := FWaiting, mutex := Signal(s.mutex))
    case FWake => s.(fetcher := FEntering, mail := s.mail - 1)
    case FTimeout => s.(fetcher := Outside)
    case FTake => s.(fetcher := FTook(s.msgs[s.first]))
    case FAdvance => s.(fetcher := FAdvanced, first := Bump(s.first), delivered := s.delivered + [s.fetcher.m])
    case FUnlock => s.(fetcher := Outside, mutex := Signal(s.mutex))
  }

  /** sys_mbox_new; the slots start out arbitrary. */
  predicate Init(s: State) {
    && |s.msgs| == SYS_MBOX_SIZE
    && s == State(s.msgs, 0, 0, 1, 0, map[], Outside, [], [])
  }

  // ---- The invariant -------------------------------------------------------------------

  /** The ring holds exactly the messages posted and not yet delivered, in posting order. */
  ghost predicate Ring(s: State) {
    && InArray(s)
    && |s.delivered| <= |s.posted| < |s.delivered| + SYS_MBOX_SIZE
    && s.delivered == s.posted[..|s.delivered|]
    && s.last == Slot(s.first, Pending(s))
    && forall i | 0 <= i < Pending(s) :: s.msgs[Slot(s.first, i)] == s.posted[|s.delivered| + i]
  }

  /** The slot `i` places after `first`. */
  function Slot(first: int, i: int): (k: int)
    requires 0 <= first < SYS_MBOX_SIZE && 0 <= i
    ensures 0 <= k < SYS_MBOX_SIZE
  {
    (first + i) % SYS_MBOX_SIZE
  }

  /** How many messages are posted and not yet delivered. */
  function Pending(s: State): int {
    |s.posted| - |s.delivered|
  }

  predicate PosterHolds(s: State, p: int) {
    p in s.posters && !s.posters[p].Entering?
  }

  predicate FetcherHolds(s: State) {
    s.fetcher.FLocked? || s.fetcher.FEmpty? || s.fetcher.FFull? || s.fetcher.FTook? || s.fetcher.FAdvanced?
  }

  /** At most one thread is inside, and the mutex is free exactly when none is. */
  ghost predicate Exclusive(s: State) {
    && (s.mutex == 0 || s.mutex == 1) && (s.mail == 0 || s.mail == 1)
    && (forall p, q | PosterHolds(s, p) && PosterHolds(s, q) :: p == q)
    && (FetcherHolds(s) ==> forall p :: !PosterHolds(s, p))
    && (s.mutex == 0 <==> FetcherHolds(s) || exists p :: PosterHolds(s, p))
  }

  predicate Empty(s: State) {
    s.first == s.last
  }

  /** What the thread inside knows about the ring. */
  ghost predicate Local(s: State) {
    && (forall p | p in s.posters && s.posters[p].Stored? && InArray(s) :: s.msgs[s.last] == s.posters[p].m)
    && (forall p | p in s.posters && s.posters[p].Checked? && InArray(s) ::
          s.msgs[s.last] == s.posters[p].m && s.posters[p].first == Empty(s))
    && (s.fetcher.FEmpty? ==> Empty(s))
    && (s.fetcher.FFull? ==> !Empty(s))
    && (s.fetcher.FTook? && InArray(s) ==> !Empty(s) && s.fetcher.m == s.msgs[s.first])
  }

  /** A poster that found the ring empty and has yet to signal. */
  ghost predicate SignalDue(s: State) {
    exists p :: p in s.posters && s.posters[p].Advanced? && s.posters[p].first
  }

  /** While the fetcher is on its way to wait, or waiting, a message in the ring means a signal given or due. */
  ghost predicate Awake(s: State) {
    s.fetcher.FEmpty? || s.fetcher.FWaiting? ==> Empty(s) || s.mail == 1 || SignalDue(s)
  }

  ghost predicate Inv(s: State) {
    Ring(s) && Exclusive(s) && Local(s) && Awake(s)
  }

  lemma SlotFacts(first: int, i: int, j: int)
    requires 0 <= first < SYS_MBOX_SIZE && 0 <= i <= j < i + SYS_MBOX_SIZE
    ensures Slot(first, i) == Slot(first, j) <==> i == j
    ensures Slot(first, 0) == first
    ensures Slot(first, i + 1) == Bump(Slot(first, i))
    ensures Slot(Bump(first), i) == Slot(first, i + 1)
  {
  }

  lemma EmptyMeans(s: State)
    requires Ring(s)
    ensures Empty(s) <==> Pending(s) == 0
  {
    SlotFacts(s.first, 0, Pending(s));
  }

  /** A step keeps the ring exact unless it is the hundredth undelivered message. */
  lemma RingStep(s: State, t: Step)
    requires Inv(s) && Enabled(s, t)
    ensures Ring(Do(s, t)) <==> !(t.Advance? && Pending(s) == SYS_MBOX_SIZE - 1)
  {
    hide Exclusive, Awake;
    match t {
      case Store(p) => StoreRing(s, t);
      case Advance(p) => AdvanceRing(s, t);
      case FAdvance => FAdvanceRing(s, t);
      case _ =>
    }
  }

  lemma StoreRing(s: State, t: Step)
    requires Inv(s) && Enabled(s, t) && t.Store?
    ensures Ring(Do(s, t))
  {
    hide Exclusive, Awake;
    var s' := Do(s, t);
    forall i | 0 <= i < Pending(s)
      ensures s'.msgs[Slot(s.first, i)] == s.posted[|s.delivered| + i]
    {
      SlotFacts(s.first, i, Pending(s));
    }
  }

  lemma AdvanceRing(s: State, t: Step)
    requires Inv(s) && Enabled(s, t) && t.Advance?
    ensures Ring(Do(s, t)) <==> Pending(s) != SYS_MBOX_SIZE - 1
  {
    hide Exclusive, Awake;
    var s' := Do(s, t);
    SlotFacts(s.first, Pending(s), Pending(s));
    assert s'.posted[..|s.delivered|] == s.posted[..|s.delivered|];
  }

  lemma FAdvanceRing(s: State, t: Step)
    requires Inv(s) && Enabled(s, t) && t.FAdvance?
    ensures Ring(Do(s, t))
  {
    hide Exclusive, Awake;
    var s' := Do(s, t);
    var n := Pending(s);
    EmptyMeans(s);
    SlotFacts(s.first, 0, 0);
    SlotFacts(s.first, n - 1, n - 1);
    forall i | 0 <= i < n - 1
      ensures s'.msgs[Slot(s'.first, i)] == s'.posted[|s'.delivered| + i]
    {
      SlotFacts(s.first, i, i);
    }
    TakeOne(s.posted, |s.delivered|);
  }

  lemma ExclusiveStep(s: State, t: Step)
    requires Inv(s) && Enabled(s, t)
    ensures Exclusive(Do(s, t))
  {
    hide Ring, Local, Awake;
    RingArray(s);
    var s' := Do(s, t);
    match t {
      case Begin(p, _) =>
        assert forall q :: PosterHolds(s', q) <==> PosterHolds(s, q);
      case Lock(p) =>
        assert PosterHolds(s', p);
        assert forall q | q != p :: PosterHolds(s', q) <==> PosterHolds(s, q);
      case Unlock(p) =>
        assert PosterHolds(s, p);
        assert forall q :: PosterHolds(s', q) ==> PosterHolds(s, q) && q != p;
      case Store(p) => HolderStays(s, s', p);
      case Check(p) => HolderStays(s, s', p);
      case Advance(p) => HolderStays(s, s', p);
      case Mail(p) => HolderStays(s, s', p);
      case _ =>
        assert forall q :: PosterHolds(s', q) <==> PosterHolds(s, q);
    }
  }

  lemma HolderStays(s: State, s': State, p: int)
    requires Exclusive(s) && PosterHolds(s, p) && PosterHolds(s', p)
    requires s'.posters == s.posters[p := s'.posters[p]]
    requires s'.fetcher == s.fetcher && s'.mutex == s.mutex && (s'.mail == 0 || s'.mail == 1)
    ensures Exclusive(s')
  {
    assert forall q :: PosterHolds(s', q) <==> PosterHolds(s, q);
  }

  lemma LocalStep(s: State, t: Step)
    requires Inv(s) && Enabled(s, t)
    ensures Local(Do(s, t))
  {
    hide Ring, Awake;
    RingArray(s);
    var s' := Do(s, t);
    match t {
      case Store(p) => OnlyHolder(s, p);
      case Advance(p) => OnlyHolder(s, p);
      case FAdvance => NoPosterInside(s);
      case _ =>
    }
  }

  lemma RingArray(s: State)
    requires Ring(s)
    ensures InArray(s)
  {
  }

  lemma OnlyHolder(s: State, p: int)
    requires Exclusive(s) && PosterHolds(s, p)
    ensures !FetcherHolds(s) && forall q | q in s.posters && q != p :: s.posters[q].Entering?
  {
    assert forall q | q in s.posters :: PosterHolds(s, q) == !s.posters[q].Entering?;
  }

  lemma NoPosterInside(s: State)
    requires Exclusive(s) && (FetcherHolds(s) || s.mutex == 1)
    ensures forall q | q in s.posters :: s.posters[q].Entering?
  {
    assert forall q | q in s.posters :: PosterHolds(s, q) == !s.posters[q].Entering?;
  }

  lemma AwakeStep(s: State, t: Step)
    requires Inv(s) && Enabled(s, t)
    ensures Awake(Do(s, t))
  {
    hide Ring;
    RingArray(s);
    var s' := Do(s, t);
    match t {
      case Advance(p) =>
        OnlyHolder(s, p);
        if s.posters[p].first {
          assert s'.posters[p] == Advanced(true);
        } else {
          assert !SignalDue(s);
        }
      case Mail(p) => OnlyHolder(s, p);
      case Store(p) => OnlyHolder(s, p);
      case Check(p) => OnlyHolder(s, p);
      case Unlock(p) => OnlyHolder(s, p);
      case Lock(p) => NoPosterInside(s);
      case Begin(q, _) =>
        if SignalDue(s) {
          var p :| p in s.posters && s.posters[p].Advanced? && s.posters[p].first;
          assert s'.posters[p] == s.posters[p];
        }
      case _ =>
    }
  }

  lemma InitInv(s: State)
    requires Init(s)
    ensures Inv(s)
  {
  }

  /** A step keeps the invariant unless it is the hundredth undelivered message, and then the full ring looks empty. */
  lemma StepKeeps(s: State, t: Step)
    requires Inv(s) && Enabled(s, t)
    ensures Inv(Do(s, t)) <==> !(t.Advance? && Pending(s) == SYS_MBOX_SIZE - 1)
    ensures t.Advance? && Pending(s) == SYS_MBOX_SIZE - 1 ==> Empty(Do(s, t)) && Pending(Do(s, t)) == SYS_MBOX_SIZE
  {
    hide Ring, Exclusive, Local, Awake;
    RingStep(s, t);
    ExclusiveStep(s, t);
    LocalStep(s, t);
    AwakeStep(s, t);
    if t.Advance? && Pending(s) == SYS_MBOX_SIZE - 1 {
      FullLooksEmpty(s);
    }
  }

  lemma FullLooksEmpty(s: State)
    requires Ring(s) && Pending(s) == SYS_MBOX_SIZE - 1
    ensures Bump(s.last) == s.first
  {
    SlotFacts(s.first, Pending(s), Pending(s));
  }

  // ---- Runs -----------------------------------------------------------------------------

  /** Every interleaving of steps in which at most 99 messages are ever undelivered. */
  ghost predicate Run(s: State, ts: seq<Step>, s': State)
    decreases ts
  {
    if ts == [] then s == s'
    else
      && InArray(s) && Enabled(s, ts[0])
      && Pending(Do(s, ts[0])) < SYS_MBOX_SIZE
      && Run(Do(s, ts[0]), ts[1..], s')
  }

  lemma {:induction false} RunKeeps(s: State, ts: seq<Step>, s': State)
    requires Inv(s) && Run(s, ts, s')
    ensures Inv(s')
    decreases ts
  {
    if ts != [] {
      hide Ring, Exclusive, Local, Awake;
      StepKeeps(s, ts[0]);
      RunKeeps(Do(s, ts[0]), ts[1..], s');
    }
  }

  /** In every run what has been delivered is a prefix of what has been posted, and the ring holds the rest in order. */
  lemma DeliveredInOrder(s: State, ts: seq<Step>, s': State)
    requires Init(s) && Run(s, ts, s')
    ensures s'.delivered <= s'.posted
    ensures Pending(s') < SYS_MBOX_SIZE && InArray(s')
    ensures forall i | 0 <= i < Pending(s') :: s'.msgs[Slot(s'.first, i)] == s'.posted[|s'.delivered| + i]
  {
    InitInv(s);
    RunKeeps(s, ts, s');
  }

  /** In every run a fetcher that waits while the ring holds a message can go on, or the poster that found the ring empty
      is on its way to signal it. */
  lemma NoLostWakeup(s: State, ts: seq<Step>, s': State)
    requires Init(s) && Run(s, ts, s')
    requires s'.fetcher.FWaiting? && Pending(s') > 0
    ensures Enabled(s', FWake) || exists p :: Enabled(s', Mail(p)) && s'.posters[p].first
  {
    InitInv(s);
    RunKeeps(s, ts, s');
    EmptyMeans(s');
    if s'.mail == 0 {
      var p :| p in s'.posters && s'.posters[p].Advanced? && s'.posters[p].first;
      assert Enabled(s', Mail(p));
    }
  }

  /** The step is one of the thread that is inside. */
  predicate ByHolder(s: State, t: Step) {
    match t
    case Store(p) => PosterHolds(s, p)
    case Check(p) => PosterHolds(s, p)
    case Advance(p) => PosterHolds(s, p)
    case Mail(p) => PosterHolds(s, p)
    case Unlock(p) => PosterHolds(s, p)
    case FTest => FetcherHolds(s)
    case FRelease => FetcherHolds(s)
    case FTake => FetcherHolds(s)
    case FAdvance => FetcherHolds(s)
    case FUnlock => FetcherHolds(s)
    case _ => false
  }

  /** When the mutex is taken the thread that holds it can take its next step. */
  lemma HolderCanStep(s: State) returns (t: Step)
    requires Inv(s) && s.mutex == 0
    ensures Enabled(s, t) && ByHolder(s, t)
  {
    if FetcherHolds(s) {
      t := match s.fetcher
           case FLocked => FTest
           case FEmpty => FRelease
           case FFull => FTake
           case FTook(_) => FAdvance
           case _ => FUnlock;
    } else {
      var p :| PosterHolds(s, p);
      t := match s.posters[p]
           case Locked(_) => Store(p)
           case Stored(_) => Check(p)
           case Checked(_, _) => Advance(p)
           case Advanced(_) => Mail(p)
           case _ => Unlock(p);
    }
  }

  /** How many steps a thread has left before it is outside again. */
  function PosterLeft(pc: Poster): nat {
    match pc
    case Entering(_) => 6
    case Locked(_) => 5
    case Stored(_) => 4
    case Checked(_, _) => 3
    case Advanced(_) => 2
    case Mailed => 1
  }

  /** How many steps the fetcher has left before it gives up the mutex, if it holds it. */
  function FetcherLeft(pc: Fetcher): nat {
    match pc
    case FLocked => 4
    case FFull => 3
    case FTook(_) => 2
    case FAdvanced => 1
    case FEmpty => 1
    case _ => 0
  }

  /** How many steps the thread inside has left, 0 if there is none. */
  ghost function Left(s: State): nat {
    if FetcherHolds(s) then FetcherLeft(s.fetcher)
    else if exists p :: PosterHolds(s, p) then var p :| PosterHolds(s, p); PosterLeft(s.posters[p])
    else 0
  }

  lemma LeftIs(s: State)
    requires Exclusive(s)
    ensures FetcherHolds(s) ==> Left(s) == FetcherLeft(s.fetcher)
    ensures forall p | PosterHolds(s, p) :: Left(s) == PosterLeft(s.posters[p])
    ensures Left(s) == 0 <==> s.mutex == 1
    ensures Left(s) <= 5
  {
  }

  /** The thread inside gives up the mutex after at most five of its own steps: each brings it nearer, and the steps of the
      other threads do not put it back. */
  lemma HolderLeaves(s: State, t: Step)
    requires Inv(s) && Enabled(s, t) && s.mutex == 0
    ensures 0 < Left(s) <= 5
    ensures ByHolder(s, t) ==> Left(Do(s, t)) < Left(s)
    ensures !ByHolder(s, t) ==> Left(Do(s, t)) == Left(s)
    ensures Left(Do(s, t)) == 0 <==> Do(s, t).mutex == 1
  {
    ExclusiveStep(s, t);
    LeftIs(s);
    LeftIs(Do(s, t));
    hide Ring, Local, Awake, Left;
    HolderMoves(s, t);
  }

  lemma HolderMoves(s: State, t: Step)
    requires InArray(s) && Exclusive(s) && Enabled(s, t) && s.mutex == 0 && Exclusive(Do(s, t))
    requires forall p | PosterHolds(s, p) :: Left(s) == PosterLeft(s.posters[p])
    requires FetcherHolds(s) ==> Left(s) == FetcherLeft(s.fetcher)
    requires var s' := Do(s, t);
             && (forall p | PosterHolds(s', p) :: Left(s') == PosterLeft(s'.posters[p]))
             && (FetcherHolds(s') ==> Left(s') == FetcherLeft(s'.fetcher)) && (Left(s') == 0 <==> s'.mutex == 1)
    ensures ByHolder(s, t) ==> Left(Do(s, t)) < Left(s)
    ensures !ByHolder(s, t) ==> Left(Do(s, t)) == Left(s)
  {
    hide Left;
    var s' := Do(s, t);
    match t {
      case Store(p) => assert PosterHolds(s, p) && PosterHolds(s', p);
      case Check(p) => assert PosterHolds(s, p) && PosterHolds(s', p);
      case Advance(p) => assert PosterHolds(s, p) && PosterHolds(s', p);
      case Mail(p) => assert PosterHolds(s, p) && PosterHolds(s', p);
      case Unlock(p) => assert PosterHolds(s, p);
      case Lock(_) =>
      case FLock =>
      case _ => assert forall p | PosterHolds(s, p) :: PosterHolds(s', p);
    }
  }

  // ---- Progress ---------------------------------------------------------------------------

  /** How many steps all posters together have left. */
  ghost function Work(posters: map<int, Poster>): nat
    decreases |posters|
  {
    if posters == map[] then 0 else PosterLeft(posters[Pick(posters)]) + Work(posters - {Pick(posters)})
  }

  ghost function Pick(posters: map<int, Poster>): (p: int)
    requires posters != map[]
    ensures p in posters
  {
    SomePoster(posters);
    var p :| p in posters;
    p
  }

  lemma SomePoster(posters: map<int, Poster>)
    ensures posters == map[] || exists p :: p in posters
  {
    if forall p :: p !in posters {
      assert posters == map[];
    }
  }

  lemma {:induction false} WorkTake(posters: map<int, Poster>, p: int)
    requires p in posters
    ensures Work(posters) == PosterLeft(posters[p]) + Work(posters - {p})
    decreases |posters|
  {
    var q := Pick(posters);
    if q != p {
      WorkTake(posters - {q}, p);
      WorkTake(posters - {p}, q);
      assert posters - {q} - {p} == posters - {p} - {q};
    }
  }

  lemma WorkChanges(posters: map<int, Poster>, p: int, pc: Poster)
    requires p in posters
    ensures Work(posters[p := pc]) == Work(posters) - PosterLeft(posters[p]) + PosterLeft(pc)
    ensures Work(posters - {p}) == Work(posters) - PosterLeft(posters[p])
  {
    WorkTake(posters, p);
    WorkTake(posters[p := pc], p);
    assert posters[p := pc] - {p} == posters - {p};
  }

  /** How far the fetcher is from waiting, counted so that a delivery outweighs the way to the next. */
  function FetcherWork(pc: Fetcher): nat {
    match pc
    case FAdvanced => 8
    case Outside => 7
    case FEntering => 6
    case FLocked => 5
    case FFull => 4
    case FTook(_) => 3
    case FEmpty => 1
    case FWaiting => 0
  }

  /** What is still to be done if nothing more is posted. */
  ghost function Measure(s: State): int {
    21 * Work(s.posters) + 10 * (Pending(s) + s.mail) + FetcherWork(s.fetcher)
  }

  /** A step other than a new post or a time-out. */
  predicate Inner(t: Step) {
    !t.Begin? && !t.FTimeout?
  }

  /** Every such step, of whatever thread, lessens what is to be done. */
  lemma StepLowers(s: State, t: Step)
    requires Inv(s) && Enabled(s, t) && Inner(t)
    ensures 0 <= Measure(Do(s, t)) < Measure(s)
  {
    RingArray(s);
    EmptyMeans(s);
    PosterWorks(s, t);
    hide Ring, Exclusive, Awake, Work;
    assert Pending(s) >= 0 by { PendingNat(s); }
    SignalBinary(s);
  }

  lemma PendingNat(s: State)
    requires Ring(s)
    ensures Pending(s) >= 0
  {
  }

  lemma SignalBinary(s: State)
    requires Exclusive(s)
    ensures s.mail == 0 || s.mail == 1
  {
  }

  lemma PosterWorks(s: State, t: Step)
    requires InArray(s) && Enabled(s, t) && Inner(t)
    ensures var byPoster := t.Lock? || t.Store? || t.Check? || t.Advance? || t.Mail? || t.Unlock?;
            Work(Do(s, t).posters) == Work(s.posters) - if byPoster then 1 else 0
  {
    match t {
      case Lock(p) => WorkChanges(s.posters, p, Locked(s.posters[p].m));
      case Store(p) => WorkChanges(s.posters, p, Stored(s.posters[p].m));
      case Check(p) => WorkChanges(s.posters, p, Checked(s.posters[p].m, s.last == s.first));
      case Advance(p) => WorkChanges(s.posters, p, Advanced(s.posters[p].first));
      case Mail(p) => WorkChanges(s.posters, p, Mailed);
      case Unlock(p) => WorkChanges(s.posters, p, Mailed);
      case _ =>
    }
  }

  /** If no such step can be taken, everything posted has been delivered, nobody is inside, and the fetcher waits. */
  lemma StuckIsDone(s: State)
    requires Inv(s) && forall t | Inner(t) :: !Enabled(s, t)
    ensures s.posters == map[] && s.mutex == 1 && s.fetcher.FWaiting? && s.delivered == s.posted
  {
    if s.mutex == 0 {
      var t := HolderCanStep(s);
      assert Inner(t);
    } else {
      NoPosterInside(s);
      forall p | p in s.posters
        ensures false
      {
        assert Enabled(s, Lock(p)) && Inner(Lock(p));
      }
      assert Inner(FBegin) && Inner(FLock) && Inner(FWake);
      EmptyMeans(s);
      assert s.posted[..|s.posted|] == s.posted;
    }
  }

  /** However the threads are scheduled, a run without new posts and time-outs comes to an end. */
  lemma {:induction false} RunEnds(s: State, ts: seq<Step>, s': State)
    requires Inv(s) && Run(s, ts, s') && forall t | t in ts :: Inner(t)
    ensures |ts| + Measure(s') <= Measure(s) && 0 <= Measure(s')
    decreases ts
  {
    hide Ring, Exclusive, Local, Awake, Measure;
    if ts == [] {
      MeasureNat(s);
    } else {
      assert ts[0] in ts;
      StepLowers(s, ts[0]);
      StepKeeps(s, ts[0]);
      RunEnds(Do(s, ts[0]), ts[1..], s');
    }
  }

  /** After any run from a new mailbox, let the threads go on in any order without new posts and time-outs: they stop after a
      bounded number of steps, and where they stop everything posted has been delivered, in order. */
  lemma AllDelivered(s: State, ts: seq<Step>, s': State, us: seq<Step>, s'': State)
    requires Init(s) && Run(s, ts, s') && Run(s', us, s'') && forall t | t in us :: Inner(t)
    ensures |us| <= Measure(s')
    ensures (forall t | Inner(t) :: !Enabled(s'', t)) ==> s''.delivered == s''.posted && s''.fetcher.FWaiting? && s''.posters == map[]
  {
    hide Ring, Exclusive, Local, Awake, Measure, Enabled;
    InitInv(s);
    RunKeeps(s, ts, s');
    RunEnds(s', us, s'');
    RunKeeps(s', us, s'');
    if forall t | Inner(t) :: !Enabled(s'', t) {
      StuckIsDone(s'');
    }
  }

  lemma MeasureNat(s: State)
    requires Inv(s)
    ensures Measure(s) >= 0
  {
  }

  // ---- The hundredth message ---------------------------------------------------------------

  /** No thread is inside or on its way in. */
  ghost predicate Quiet(s: State) {
    Inv(s) && s.mutex == 1 && s.posters == map[] && s.fetcher.Outside?
  }

  lemma {:induction false} RunConcat(a: State, ts: seq<Step>, b: State, us: seq<Step>, c: State)
    requires Run(a, ts, b) && Run(b, us, c)
    ensures Run(a, ts + us, c)
    decreases ts
  {
    hide Do;
    if ts == [] {
      assert ts + us == us;
    } else {
      assert (ts + us)[0] == ts[0] && (ts + us)[1..] == ts[1..] + us;
      RunConcat(Do(a, ts[0]), ts[1..], b, us, c);
    }
  }

  lemma RunOne(s: State, t: Step)
    requires InArray(s) && Enabled(s, t) && Pending(Do(s, t)) < SYS_MBOX_SIZE
    ensures Run(s, [t], Do(s, t))
  {
    hide Do, Enabled;
    assert [t][1..] == [];
  }

  /** A poster alone gets as far as having checked whether the ring is empty. */
  lemma PostHalf(s: State, m: Msg) returns (ts: seq<Step>, r: State)
    requires Quiet(s)
    ensures Run(s, ts, r) && Inv(r) && r == s.(msgs := s.msgs[s.last := m], mutex := 0, posters := map[0 := Checked(m, Empty(s))])
  {
    var a := Do(s, Begin(0, m));
    var b := Do(a, Lock(0));
    var c := Do(b, Store(0));
    r := Do(c, Check(0));
    RunOne(s, Begin(0, m));
    RunOne(a, Lock(0));
    RunOne(b, Store(0));
    RunOne(c, Check(0));
    hide Do, Run, Ring, Exclusive, Local, Awake;
    RunConcat(s, [Begin(0, m)], a, [Lock(0)], b);
    RunConcat(s, [Begin(0, m)] + [Lock(0)], b, [Store(0)], c);
    ts := [Begin(0, m)] + [Lock(0)] + [Store(0)] + [Check(0)];
    RunConcat(s, [Begin(0, m)] + [Lock(0)] + [Store(0)], c, [Check(0)], r);
    RunKeeps(s, ts, r);
  }

  /** A poster alone posts its message, if that is not the hundredth. */
  lemma PostOne(s: State, m: Msg) returns (ts: seq<Step>, r: State)
    requires Quiet(s) && Pending(s) < SYS_MBOX_SIZE - 1
    ensures Run(s, ts, r) && Quiet(r) && r.posted == s.posted + [m] && r.delivered == s.delivered
  {
    var half, h := PostHalf(s, m);
    var a := Do(h, Advance(0));
    var b := Do(a, Mail(0));
    r := Do(b, Unlock(0));
    RunOne(h, Advance(0));
    RunOne(a, Mail(0));
    RunOne(b, Unlock(0));
    assert r.posters == map[];
    hide Do, Run, Ring, Exclusive, Local, Awake;
    RunConcat(s, half, h, [Advance(0)], a);
    RunConcat(s, half + [Advance(0)], a, [Mail(0)], b);
    ts := half + [Advance(0)] + [Mail(0)] + [Unlock(0)];
    RunConcat(s, half + [Advance(0)] + [Mail(0)], b, [Unlock(0)], r);
    RunKeeps(s, ts, r);
  }

  /** The fetcher alone gets as far as having tested the ring. */
  lemma FetchHalf(s: State) returns (ts: seq<Step>, r: State)
    requires Quiet(s) && Pending(s) > 0
    ensures Run(s, ts, r) && Inv(r) && r == s.(mutex := 0, fetcher := FFull)
  {
    EmptyMeans(s);
    var a := Do(s, FBegin);
    var b := Do(a, FLock);
    r := Do(b, FTest);
    RunOne(s, FBegin);
    RunOne(a, FLock);
    RunOne(b, FTest);
    hide Do, Run, Ring, Exclusive, Local, Awake;
    RunConcat(s, [FBegin], a, [FLock], b);
    ts := [FBegin] + [FLock] + [FTest];
    RunConcat(s, [FBegin] + [FLock], b, [FTest], r);
    RunKeeps(s, ts, r);
  }

  /** A fetcher alone, with a message in the ring, comes back with the oldest one. */
  lemma FetchOne(s: State) returns (ts: seq<Step>, r: State)
    requires Quiet(s) && Pending(s) > 0
    ensures Run(s, ts, r) && Quiet(r) && r.posted == s.posted && r.delivered == s.delivered + [s.posted[|s.delivered|]]
  {
    var half, h := FetchHalf(s);
    var a := Do(h, FTake);
    var b := Do(a, FAdvance);
    r := Do(b, FUnlock);
    SlotFacts(s.first, 0, 0);
    RunOne(h, FTake);
    RunOne(a, FAdvance);
    RunOne(b, FUnlock);
    hide Do, Run, Ring, Exclusive, Local, Awake;
    RunConcat(s, half, h, [FTake], a);
    RunConcat(s, half + [FTake], a, [FAdvance], b);
    ts := half + [FTake] + [FAdvance] + [FUnlock];
    RunConcat(s, half + [FTake] + [FAdvance], b, [FUnlock], r);
    RunKeeps(s, ts, r);
  }

  lemma {:induction false} PostMany(s: State, n: nat) returns (ts: seq<Step>, r: State)
    requires Quiet(s) && Pending(s) + n < SYS_MBOX_SIZE
    ensures Run(s, ts, r) && Quiet(r) && Pending(r) == Pending(s) + n
    decreases n
  {
    if n == 0 {
      ts, r := [], s;
    } else {
      var us, q := PostMany(s, n - 1);
      var vs;
      hide Run, Quiet;
      vs, r := PostOne(q, n);
      RunConcat(s, us, q, vs, r);
      ts := us + vs;
    }
  }

  /** The hundredth message in a row, from a new mailbox: with nothing fetched the ring looks empty. */
  lemma FullExample(s: State) returns (ts: seq<Step>, r: State)
    requires Init(s)
    ensures Run(s, ts, r) && InArray(r) && Enabled(r, Advance(0))
    ensures Pending(Do(r, Advance(0))) == SYS_MBOX_SIZE && Empty(Do(r, Advance(0)))
  {
    InitInv(s);
    var us, q := PostMany(s, SYS_MBOX_SIZE - 1);
    var vs;
    vs, r := PostHalf(q, 0);
    hide Run, Exclusive, Local, Awake;
    RunConcat(s, us, q, vs, r);
    ts := us + vs;
    StepKeeps(r, Advance(0));
  }
}
