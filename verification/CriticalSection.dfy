/** The spin-then-semaphore recursive lock, as atomic steps of any number of threads.

    One step is one access to a shared variable: a load, a store, an interlocked operation or
    a semaphore operation.  Increments of the plain variable `recursion_` are two steps, so a
    lost update would show.  Any thread may take the next step (sequential consistency). */
module CriticalSection {

  import opened Options

  type Tid = nat

  // The number of attempts before Enter falls back to the semaphore.
  const SPIN: nat := 3000

  /** Where a thread is.  `spin` is the local counter of Enter, `seen` a loaded `recursion_`. */
  datatype Pc =
    | Idle
      // Enter
    | EnterTestOwner(spin: nat)
    | EnterLoad(spin: nat)
    | EnterCas(spin: nat)
    | EnterYield(spin: nat)
    | EnterIncrementAsOwner
    | EnterIncrement
    | EnterCheckNotOwner
    | EnterWait
    | EnterCheckNoOwner
    | EnterCheckNoRecursion
    | EnterSetOwner
      // TryEnter
    | TryTestOwner
    | TryCas
    | TryIncrementAsOwner
    | TrySetOwner
    | TryCheckNoRecursion
      // the final ++recursion_ of both
    | LoadRecursion
    | StoreRecursion(seen: int)
      // Leave
    | LeaveCheckOwner
    | LeaveCheckRecursion
    | LeaveLoadRecursion
    | LeaveStoreRecursion(seen: int)
    | LeaveTestRecursion
    | LeaveClearOwner
    | LeaveDecrement
    | LeaveTestRecursionAgain
    | LeaveSignal
      // a failed RTC_DCHECK
    | Failed

  /** `depth` counts the completed Enter and successful TryEnter calls of the thread whose Leave
      has not yet decremented the queue. */
  datatype Thread = Thread(pc: Pc, depth: nat)

  datatype State = State(
    queue: int,            // lock_queue_
    owner: Option<Tid>,    // owning_thread_, where 0 is None
    recursion: int,        // recursion_
    tokens: nat,           // the count of semaphore_
    threads: seq<Thread>
  )

  function Goto(s: State, t: Tid, pc: Pc): State
    requires t < |s.threads|
  {
    s.(threads := s.threads[t := s.threads[t].(pc := pc)])
  }

  ghost predicate Init(s: State) {
    && s.queue == 0 && s.owner == None && s.recursion == 0 && s.tokens == 0
    && forall t | 0 <= t < |s.threads| :: s.threads[t] == Thread(Idle, 0)
  }

  /** What a thread with no call in progress may start; Leave only if it holds the lock. */
  predicate Starts(th: Thread, pc: Pc) {
    || pc == EnterTestOwner(SPIN)
    || pc == TryTestOwner
    || (pc == LeaveCheckOwner && th.depth > 0)
  }

  /** Only the semaphore wait can block. */
  predicate Blocked(s: State, t: Tid)
    requires t < |s.threads|
  {
    s.threads[t].pc == EnterWait && s.tokens == 0
  }

  /** One step of a thread inside a call. */
  function Exec(s: State, t: Tid): State
    requires t < |s.threads|
    requires s.threads[t].pc != Idle && !Blocked(s, t)
  {
    var th := s.threads[t];
    match th.pc
    case Idle => s
    case EnterTestOwner(spin) =>
      Goto(s, t, if s.owner == Some(t) then EnterIncrementAsOwner else EnterLoad(spin))
    case EnterLoad(spin) =>
      Goto(s, t, if s.queue == 0 then EnterCas(spin) else EnterYield(spin))
    case EnterCas(spin) =>
      if s.queue == 0 then Goto(s.(queue := 1), t, EnterSetOwner) else Goto(s, t, EnterYield(spin))
    case EnterYield(spin) =>
      Goto(s, t, if spin <= 1 then EnterIncrement else EnterTestOwner(spin - 1))
    case EnterIncrementAsOwner =>
      Goto(s.(queue := s.queue + 1), t, EnterSetOwner)
    case EnterIncrement =>
      Goto(s.(queue := s.queue + 1), t, if s.queue + 1 > 1 then EnterCheckNotOwner else EnterSetOwner)
    case EnterCheckNotOwner =>
      Goto(s, t, if s.owner != Some(t) then EnterWait else Failed)
    case EnterWait =>
      Goto(s.(tokens := s.tokens - 1), t, EnterCheckNoOwner)
    case EnterCheckNoOwner =>
      Goto(s, t, if s.owner == None then EnterCheckNoRecursion else Failed)
    case EnterCheckNoRecursion =>
      Goto(s, t, if s.recursion == 0 then EnterSetOwner else Failed)
    case EnterSetOwner =>
      Goto(s.(owner := Some(t)), t, LoadRecursion)
    case TryTestOwner =>
      Goto(s, t, if s.owner != Some(t) then TryCas else TryIncrementAsOwner)
    case TryCas =>
      if s.queue == 0 then Goto(s.(queue := 1), t, TrySetOwner) else Goto(s, t, Idle)
    case TryIncrementAsOwner =>
      Goto(s.(queue := s.queue + 1), t, LoadRecursion)
    case TrySetOwner =>
      Goto(s.(owner := Some(t)), t, TryCheckNoRecursion)
    case TryCheckNoRecursion =>
      Goto(s, t, if s.recursion == 0 then LoadRecursion else Failed)
    case LoadRecursion =>
      Goto(s, t, StoreRecursion(s.recursion))
    case StoreRecursion(seen) =>
      s.(recursion := seen + 1, threads := s.threads[t := Thread(Idle, th.depth + 1)])
    case LeaveCheckOwner =>
      Goto(s, t, if s.owner == Some(t) then LeaveCheckRecursion else Failed)
    case LeaveCheckRecursion =>
      Goto(s, t, if s.recursion >= 0 then LeaveLoadRecursion else Failed)
    case LeaveLoadRecursion =>
      Goto(s, t, LeaveStoreRecursion(s.recursion))
    case LeaveStoreRecursion(seen) =>
      Goto(s.(recursion := seen - 1), t, LeaveTestRecursion)
    case LeaveTestRecursion =>
      Goto(s, t, if s.recursion == 0 then LeaveClearOwner else LeaveDecrement)
    case LeaveClearOwner =>
      Goto(s.(owner := None), t, LeaveDecrement)
    case LeaveDecrement =>
      var pc := if s.queue - 1 > 0 then LeaveTestRecursionAgain else Idle;
      s.(queue := s.queue - 1,
         threads := s.threads[t := Thread(pc, if th.depth == 0 then 0 else th.depth - 1)])
    case LeaveTestRecursionAgain =>
      Goto(s, t, if s.recursion == 0 then LeaveSignal else Idle)
    case LeaveSignal =>
      Goto(s.(tokens := s.tokens + 1), t, Idle)
    case Failed => s
  }

  ghost predicate StepOf(s: State, t: Tid, s': State) {
    && t < |s.threads|
    && if s.threads[t].pc == Idle then
         exists pc :: Starts(s.threads[t], pc) && s' == Goto(s, t, pc)
       else
         !Blocked(s, t) && s' == Exec(s, t)
  }

  ghost predicate Step(s: State, s': State) {
    exists t :: StepOf(s, t, s')
  }

  /** A run: any finite interleaving of the atomic steps. */
  ghost predicate Run(run: seq<State>) {
    && |run| > 0 && Init(run[0])
    && forall i | 0 <= i < |run| - 1 :: Step(run[i], run[i + 1])
  }

  // ---------------------------------------------------------------- who has the lock

  /** Increments of the queue that this thread has made and not yet undone. */
  function Units(th: Thread): nat {
    th.depth +
    if || th.pc.EnterCheckNotOwner? || th.pc.EnterWait? || th.pc.EnterCheckNoOwner?
       || th.pc.EnterCheckNoRecursion? || th.pc.EnterSetOwner? || th.pc.LoadRecursion?
       || th.pc.StoreRecursion? || th.pc.TrySetOwner? || th.pc.TryCheckNoRecursion?
    then 1 else 0
  }

  /** Counted in the queue, but without the lock. */
  predicate Waiting(th: Thread) { th.pc.EnterCheckNotOwner? || th.pc.EnterWait? }

  /** Between taking the lock and the decrement that gives it up. */
  predicate Holds(th: Thread) { Units(th) > 0 && !Waiting(th) }

  /** Has given the lock up and will wake one waiter. */
  predicate Signalling(th: Thread) {
    th.depth == 0 && (th.pc.LeaveTestRecursionAgain? || th.pc.LeaveSignal?)
  }

  function TotalUnits(threads: seq<Thread>): nat {
    if threads == [] then 0 else Units(threads[0]) + TotalUnits(threads[1..])
  }

  function WaiterCount(threads: seq<Thread>): nat {
    if threads == [] then 0 else (if Waiting(threads[0]) then 1 else 0) + WaiterCount(threads[1..])
  }

  /** The single right to the lock: with nobody, with a holder, with a leaving thread that has
      not signalled yet, or in the semaphore. */
  datatype Grant = Nobody | Held(t: Tid) | Signaller(t: Tid) | Token

  /** What the holder may rely on at each of its program points. */
  ghost predicate HolderOk(s: State, t: Tid)
    requires t < |s.threads|
  {
    var th := s.threads[t];
    var mine := s.owner == Some(t);
    match th.pc
    case EnterCheckNoOwner => th.depth == 0 && s.owner == None && s.recursion == 0
    case EnterCheckNoRecursion => th.depth == 0 && s.owner == None && s.recursion == 0
    case EnterSetOwner => s.owner == (if th.depth > 0 then Some(t) else None) && s.recursion == th.depth
    case TrySetOwner => th.depth == 0 && s.owner == None && s.recursion == 0
    case TryCheckNoRecursion => th.depth == 0 && mine && s.recursion == 0
    case StoreRecursion(seen) => mine && s.recursion == th.depth == seen
    case LeaveStoreRecursion(seen) => mine && s.recursion == th.depth == seen
    case LeaveTestRecursion => mine && s.recursion == th.depth - 1
    case LeaveClearOwner => mine && th.depth == 1 && s.recursion == 0
    case LeaveDecrement => s.owner == (if th.depth > 1 then Some(t) else None) && s.recursion == th.depth - 1
    case EnterLoad(_) => false
    case EnterCas(_) => false
    case EnterYield(_) => false
    case EnterIncrement => false
    case TryCas => false
    case LeaveSignal => false
    case Failed => false
    case _ => mine && s.recursion == th.depth
  }

  /** Program points that only a thread at depth 0, or only a holder, can reach. */
  ghost predicate NonHolderOk(th: Thread) {
    && th.depth == 0
    && (|| th.pc.Idle? || th.pc.EnterTestOwner? || th.pc.EnterLoad? || th.pc.EnterCas?
        || th.pc.EnterYield? || th.pc.EnterIncrement? || th.pc.EnterCheckNotOwner?
        || th.pc.EnterWait? || th.pc.TryTestOwner? || th.pc.TryCas?
        || th.pc.LeaveTestRecursionAgain? || th.pc.LeaveSignal?)
  }

  ghost predicate ThreadOk(s: State, g: Grant, t: Tid)
    requires t < |s.threads|
  {
    var th := s.threads[t];
    && (Holds(th) <==> g == Held(t))
    && (Signalling(th) <==> g == Signaller(t))
    && (if Holds(th) then HolderOk(s, t) else NonHolderOk(th))
  }

  ghost predicate InvWith(s: State, g: Grant) {
    && s.queue == TotalUnits(s.threads)
    && s.tokens == (if g == Token then 1 else 0)
    && (g == Nobody <==> s.queue == 0)
    && (g.Held? || g.Signaller? ==> g.t < |s.threads|)
    && (!g.Held? ==> s.owner == None && s.recursion == 0)
    && forall t | 0 <= t < |s.threads| :: ThreadOk(s, g, t)
  }

  ghost predicate Inv(s: State) {
    exists g :: InvWith(s, g)
  }

  // ---------------------------------------------------------------- arithmetic of the queue

  lemma {:induction false} TotalUnitsUpdate(threads: seq<Thread>, t: Tid, th: Thread)
    requires t < |threads|
    ensures TotalUnits(threads[t := th]) == TotalUnits(threads) - Units(threads[t]) + Units(th)
  {
    if t == 0 {
      assert threads[0 := th][1..] == threads[1..];
    } else {
      assert threads[t := th][1..] == threads[1..][t - 1 := th];
      TotalUnitsUpdate(threads[1..], t - 1, th);
    }
  }

  lemma {:induction false} TotalUnitsZero(threads: seq<Thread>)
    ensures TotalUnits(threads) == 0 <==> forall t | 0 <= t < |threads| :: Units(threads[t]) == 0
  {
    if threads != [] {
      TotalUnitsZero(threads[1..]);
      assert forall t | 0 < t < |threads| :: threads[t] == threads[1..][t - 1];
      if TotalUnits(threads) == 0 {
        assert forall t | 0 <= t < |threads| :: Units(threads[t]) == 0;
      } else if Units(threads[0]) == 0 {
        var t :| 0 <= t < |threads[1..]| && Units(threads[1..][t]) != 0;
        assert Units(threads[t + 1]) != 0;
      }
    }
  }

  lemma UnitsBound(threads: seq<Thread>, t: Tid)
    requires t < |threads|
    ensures Units(threads[t]) <= TotalUnits(threads)
  {
    TotalUnitsUpdate(threads, t, Thread(Idle, 0));
  }

  // ---------------------------------------------------------------- every step keeps the invariant

  /** Where the right to the lock is after thread t's next step. */
  function NextGrant(s: State, g: Grant, t: Tid): Grant
    requires t < |s.threads|
  {
    var th := s.threads[t];
    match th.pc
    case EnterCas(_) => if s.queue == 0 then Held(t) else g
    case TryCas => if s.queue == 0 then Held(t) else g
    case EnterIncrement => if s.queue == 0 then Held(t) else g
    case EnterWait => Held(t)
    case LeaveDecrement => if th.depth > 1 then g else if s.queue > 1 then Signaller(t) else Nobody
    case LeaveSignal => Token
    case _ => g
  }

  lemma InitInv(s: State)
    requires Init(s)
    ensures InvWith(s, Nobody)
  {
    TotalUnitsZero(s.threads);
  }

  /** The grant says of every thread whether it holds the lock or is about to signal. */
  lemma GrantOfAll(s: State, g: Grant)
    requires InvWith(s, g)
    ensures forall u | 0 <= u < |s.threads| :: Holds(s.threads[u]) <==> g == Held(u)
    ensures forall u | 0 <= u < |s.threads| :: Signalling(s.threads[u]) <==> g == Signaller(u)
    ensures forall u | 0 <= u < |s.threads| :: s.threads[u].depth > 0 ==> g == Held(u)
  {
    forall u | 0 <= u < |s.threads|
      ensures Holds(s.threads[u]) <==> g == Held(u)
      ensures Signalling(s.threads[u]) <==> g == Signaller(u)
      ensures s.threads[u].depth > 0 ==> g == Held(u)
    {
      assert ThreadOk(s, g, u);
    }
  }

  lemma StartInv(s: State, g: Grant, t: Tid, pc: Pc)
    requires InvWith(s, g) && t < |s.threads|
    requires s.threads[t].pc == Idle && Starts(s.threads[t], pc)
    ensures InvWith(Goto(s, t, pc), g)
  {
    var s' := Goto(s, t, pc);
    TotalUnitsUpdate(s.threads, t, s'.threads[t]);
    assert ThreadOk(s, g, t);
    forall u | 0 <= u < |s'.threads| ensures ThreadOk(s', g, u) {
      assert ThreadOk(s, g, u);
    }
  }

  lemma ExecSelfOutside(s: State, g: Grant, t: Tid)
    requires t < |s.threads| && !Holds(s.threads[t])
    requires s.threads[t].pc != Idle && !Blocked(s, t)
    requires NonHolderOk(s.threads[t]) && s.owner != Some(t)
    requires g != Held(t) && (Signalling(s.threads[t]) <==> g == Signaller(t))
    requires (g == Nobody <==> s.queue == 0) && s.queue >= 0
    requires s.tokens == (if g == Token then 1 else 0)
    requires !g.Held? ==> s.owner == None && s.recursion == 0
    ensures ThreadOk(Exec(s, t), NextGrant(s, g, t), t)
  {
  }

  lemma ExecSelfHolding(s: State, t: Tid)
    requires t < |s.threads| && Holds(s.threads[t])
    requires s.threads[t].pc != Idle && !Blocked(s, t)
    requires HolderOk(s, t) && s.queue >= Units(s.threads[t])
    ensures ThreadOk(Exec(s, t), NextGrant(s, Held(t), t), t)
  {
  }

  /** The thread that moves ends at a program point it may be at. */
  lemma ExecSelf(s: State, g: Grant, t: Tid)
    requires InvWith(s, g) && t < |s.threads|
    requires s.threads[t].pc != Idle && !Blocked(s, t)
    ensures ThreadOk(Exec(s, t), NextGrant(s, g, t), t)
  {
    if Holds(s.threads[t]) {
      assert ThreadOk(s, g, t);
      UnitsBound(s.threads, t);
      ExecSelfHolding(s, t);
    } else {
      assert ThreadOk(s, g, t);
      assert g.Held? ==> ThreadOk(s, g, g.t);
      ExecSelfOutside(s, g, t);
    }
  }

  /** A step changes no other thread, moves the grant only to or from the thread itself, and
      touches owner and recursion only while no other thread holds the lock. */
  lemma ExecOthers(s: State, g: Grant, t: Tid)
    requires InvWith(s, g) && t < |s.threads|
    requires s.threads[t].pc != Idle && !Blocked(s, t)
    ensures |Exec(s, t).threads| == |s.threads|
    ensures forall u | 0 <= u < |s.threads| && u != t :: Exec(s, t).threads[u] == s.threads[u]
    ensures forall u: Tid | u != t :: NextGrant(s, g, t) == Held(u) <==> g == Held(u)
    ensures forall u: Tid | u != t :: NextGrant(s, g, t) == Signaller(u) <==> g == Signaller(u)
    ensures (g.Held? && g.t != t) ==> Exec(s, t).owner == s.owner && Exec(s, t).recursion == s.recursion
  {
    assert ThreadOk(s, g, t);
  }

  lemma ExecShared(s: State, g: Grant, t: Tid)
    requires InvWith(s, g) && t < |s.threads|
    requires s.threads[t].pc != Idle && !Blocked(s, t)
    ensures var s', g' := Exec(s, t), NextGrant(s, g, t);
            && s'.queue - s.queue == Units(s'.threads[t]) - Units(s.threads[t])
            && s'.tokens == (if g' == Token then 1 else 0)
            && (g' == Nobody <==> s'.queue == 0)
            && (!g'.Held? ==> s'.owner == None && s'.recursion == 0)
  {
    ExecQueue(s, g, t);
    assert ThreadOk(s, g, t);
    assert g.Held? ==> ThreadOk(s, g, g.t);
  }

  lemma ExecQueue(s: State, g: Grant, t: Tid)
    requires InvWith(s, g) && t < |s.threads|
    requires s.threads[t].pc != Idle && !Blocked(s, t)
    ensures QueueMoves(s, g, t)
  {
    if Holds(s.threads[t]) {
      ExecQueueHolding(s, g, t);
    } else {
      ExecQueueOutside(s, g, t);
    }
  }

  ghost predicate QueueMoves(s: State, g: Grant, t: Tid)
    requires t < |s.threads| && s.threads[t].pc != Idle && !Blocked(s, t)
  {
    var s', g' := Exec(s, t), NextGrant(s, g, t);
    && |s'.threads| == |s.threads|
    && s'.queue - s.queue == Units(s'.threads[t]) - Units(s.threads[t])
    && (g' == Nobody <==> s'.queue == 0)
  }

  lemma ExecQueueHolding(s: State, g: Grant, t: Tid)
    requires InvWith(s, g) && t < |s.threads| && Holds(s.threads[t])
    requires s.threads[t].pc != Idle && !Blocked(s, t)
    ensures QueueMoves(s, g, t)
  {
    assert ThreadOk(s, g, t);
    UnitsBound(s.threads, t);
  }

  lemma ExecQueueOutside(s: State, g: Grant, t: Tid)
    requires InvWith(s, g) && t < |s.threads| && !Holds(s.threads[t])
    requires s.threads[t].pc != Idle && !Blocked(s, t)
    ensures QueueMoves(s, g, t)
  {
    assert ThreadOk(s, g, t);
    assert g.Held? ==> ThreadOk(s, g, g.t);
    UnitsBound(s.threads, t);
  }

  /** A change of one thread keeps the invariant when it is right for that thread and for the
      shared variables, and moves the grant from or to no other thread. */
  lemma ChangeOfOneThread(s: State, g: Grant, t: Tid, s': State, g': Grant)
    requires InvWith(s, g) && t < |s.threads| && |s'.threads| == |s.threads|
    requires forall u | 0 <= u < |s.threads| && u != t :: s'.threads[u] == s.threads[u]
    requires forall u: Tid | u != t :: g' == Held(u) <==> g == Held(u)
    requires forall u: Tid | u != t :: g' == Signaller(u) <==> g == Signaller(u)
    requires g.Held? && g.t != t ==> s'.owner == s.owner && s'.recursion == s.recursion
    requires s'.queue - s.queue == Units(s'.threads[t]) - Units(s.threads[t])
    requires s'.tokens == (if g' == Token then 1 else 0)
    requires g' == Nobody <==> s'.queue == 0
    requires !g'.Held? ==> s'.owner == None && s'.recursion == 0
    requires ThreadOk(s', g', t)
    ensures InvWith(s', g')
  {
    assert s'.threads == s.threads[t := s'.threads[t]];
    TotalUnitsUpdate(s.threads, t, s'.threads[t]);
    assert (g'.Held? || g'.Signaller?) && g'.t != t ==> g == g';
    forall u | 0 <= u < |s'.threads| ensures ThreadOk(s', g', u) {
      if u != t {
        assert ThreadOk(s, g, u);
      }
    }
  }

  lemma ExecInv(s: State, g: Grant, t: Tid)
    requires InvWith(s, g) && t < |s.threads|
    requires s.threads[t].pc != Idle && !Blocked(s, t)
    ensures InvWith(Exec(s, t), NextGrant(s, g, t))
  {
    ExecSelf(s, g, t);
    ExecOthers(s, g, t);
    ExecShared(s, g, t);
    ChangeOfOneThread(s, g, t, Exec(s, t), NextGrant(s, g, t));
  }

  lemma StepInv(s: State, g: Grant, t: Tid, s': State)
    requires InvWith(s, g) && StepOf(s, t, s')
    ensures InvWith(s', if s.threads[t].pc == Idle then g else NextGrant(s, g, t))
  {
    if s.threads[t].pc == Idle {
      var pc :| Starts(s.threads[t], pc) && s' == Goto(s, t, pc);
      StartInv(s, g, t, pc);
    } else {
      ExecInv(s, g, t);
    }
  }

  lemma {:induction false} RunInv(run: seq<State>, i: nat)
    requires Run(run) && i < |run|
    ensures Inv(run[i])
  {
    if i == 0 {
      InitInv(run[0]);
    } else {
      RunInv(run, i - 1);
      var g :| InvWith(run[i - 1], g);
      assert Step(run[i - 1], run[i - 1 + 1]);
      var t: Tid :| StepOf(run[i - 1], t, run[i]);
      StepInv(run[i - 1], g, t, run[i]);
    }
  }

  // ---------------------------------------------------------------- what every run guarantees

  /** At most one thread is between taking the lock and giving it up. */
  lemma MutualExclusion(run: seq<State>, i: nat, t: Tid, u: Tid)
    requires Run(run) && i < |run|
    requires t < |run[i].threads| && u < |run[i].threads|
    requires Holds(run[i].threads[t]) && Holds(run[i].threads[u])
    ensures t == u
  {
    RunInv(run, i);
    var g :| InvWith(run[i], g);
    assert ThreadOk(run[i], g, t) && ThreadOk(run[i], g, u);
  }

  /** No debug check of Enter, TryEnter or Leave ever fails. */
  lemma ChecksHold(run: seq<State>, i: nat, t: Tid)
    requires Run(run) && i < |run| && t < |run[i].threads|
    ensures run[i].threads[t].pc != Failed
  {
    RunInv(run, i);
    var g :| InvWith(run[i], g);
    assert ThreadOk(run[i], g, t);
  }

  /** Between calls, a thread is the recorded owner exactly when it has entered more often than it
      has left, and then `recursion_` is its nesting depth. */
  lemma OwnerAndDepth(run: seq<State>, i: nat, t: Tid)
    requires Run(run) && i < |run| && t < |run[i].threads|
    requires run[i].threads[t].pc == Idle
    ensures run[i].owner == Some(t) <==> run[i].threads[t].depth > 0
    ensures run[i].threads[t].depth > 0 ==> run[i].recursion == run[i].threads[t].depth
  {
    RunInv(run, i);
    var g :| InvWith(run[i], g);
    assert ThreadOk(run[i], g, t);
    if g.Held? {
      assert ThreadOk(run[i], g, g.t);
    }
  }

  lemma {:induction false} UnitsOfWaiters(threads: seq<Thread>)
    requires forall t | 0 <= t < |threads| :: !Holds(threads[t]) && threads[t].depth == 0
    ensures TotalUnits(threads) == WaiterCount(threads)
  {
    if threads != [] {
      assert !Holds(threads[0]) && threads[0].depth == 0;
      assert forall t | 0 <= t < |threads[1..]| :: threads[1..][t] == threads[t + 1];
      UnitsOfWaiters(threads[1..]);
    }
  }

  lemma {:induction false} WaiterCountUpdate(threads: seq<Thread>, t: Tid)
    requires t < |threads| && !Waiting(threads[t])
    ensures WaiterCount(threads[t := Thread(Idle, 0)]) == WaiterCount(threads)
  {
    if t == 0 {
      assert threads[0 := Thread(Idle, 0)][1..] == threads[1..];
    } else {
      assert threads[t := Thread(Idle, 0)][1..] == threads[1..][t - 1 := Thread(Idle, 0)];
      WaiterCountUpdate(threads[1..], t - 1);
    }
  }

  /** The queue is the holder's contribution plus the number of committed waiters. */
  lemma QueueAccounting(run: seq<State>, i: nat, t: Tid)
    requires Run(run) && i < |run| && t < |run[i].threads|
    ensures Holds(run[i].threads[t]) ==>
              run[i].queue == Units(run[i].threads[t]) + WaiterCount(run[i].threads)
    ensures (forall u | 0 <= u < |run[i].threads| :: !Holds(run[i].threads[u])) ==>
              run[i].queue == WaiterCount(run[i].threads)
  {
    RunInv(run, i);
    var s := run[i];
    var g :| InvWith(s, g);
    GrantOfAll(s, g);
    if Holds(s.threads[t]) {
      var others := s.threads[t := Thread(Idle, 0)];
      UnitsOfWaiters(others);
      TotalUnitsUpdate(s.threads, t, Thread(Idle, 0));
      WaiterCountUpdate(s.threads, t);
    }
    if forall u | 0 <= u < |s.threads| :: !Holds(s.threads[u]) {
      UnitsOfWaiters(s.threads);
    }
  }

  /** No double grant: holders, threads about to signal and semaphore tokens together are one at
      most, and no wake-up is lost: they are exactly one as soon as the queue is not empty. */
  lemma OneGrant(run: seq<State>, i: nat)
    requires Run(run) && i < |run|
    ensures run[i].tokens <= 1
    ensures forall t, u | 0 <= t < |run[i].threads| && 0 <= u < |run[i].threads| &&
              (Holds(run[i].threads[t]) || Signalling(run[i].threads[t])) &&
              (Holds(run[i].threads[u]) || Signalling(run[i].threads[u])) :: t == u
    ensures run[i].tokens == 1 ==>
              forall t | 0 <= t < |run[i].threads| :: !Holds(run[i].threads[t]) && !Signalling(run[i].threads[t])
    ensures run[i].queue != 0 <==>
              || run[i].tokens == 1
              || exists t | 0 <= t < |run[i].threads| :: Holds(run[i].threads[t]) || Signalling(run[i].threads[t])
  {
    RunInv(run, i);
    var s := run[i];
    var g :| InvWith(s, g);
    GrantOfAll(s, g);
    assert g.Held? || g.Signaller? ==> Holds(s.threads[g.t]) || Signalling(s.threads[g.t]);
  }

  /** Freedom from deadlock: while a thread waits, the thread that has the lock, or is about to
      signal, or is to be woken, can take a step, or it is a caller between its Enter and its
      Leave. */
  lemma NoDeadlock(run: seq<State>, i: nat, w: Tid)
    requires Run(run) && i < |run| && w < |run[i].threads|
    requires Waiting(run[i].threads[w])
    ensures exists t :: && 0 <= t < |run[i].threads|
                        && (|| Holds(run[i].threads[t]) || Signalling(run[i].threads[t])
                            || (run[i].tokens == 1 && t == w))
                        && (if run[i].threads[t].pc == Idle then Holds(run[i].threads[t])
                            else !Blocked(run[i], t))
  {
    RunInv(run, i);
    var s := run[i];
    var g :| InvWith(s, g);
    GrantOfAll(s, g);
    assert ThreadOk(s, g, w);
    UnitsBound(s.threads, w);
    assert g != Nobody;
    if g.Token? {
      assert s.tokens == 1 && !Blocked(s, w);
    } else {
      assert ThreadOk(s, g, g.t);
      assert Holds(s.threads[g.t]) || Signalling(s.threads[g.t]);
      assert if s.threads[g.t].pc == Idle then Holds(s.threads[g.t]) else !Blocked(s, g.t);
    }
  }

  // ---------------------------------------------------------------- handing the lock on

  /** Steps that follow each other, from any state. */
  ghost predicate Path(path: seq<State>) {
    path != [] && forall i | 0 <= i < |path| - 1 :: Step(path[i], path[i + 1])
  }

  /** The thread whose steps bring a waiter closer to the lock. */
  function Mover(g: Grant, w: Tid): Tid {
    if g.Held? || g.Signaller? then g.t else w
  }

  // How far the lock is from the waiter: who has the right to it, how often the holder still has to
  // leave, and how much it has to do before that.
  function Phase(g: Grant): nat {
    if g.Held? then 2 else if g.Signaller? then 1 else 0
  }

  function Entries(th: Thread): nat {
    Units(th) + if || th.pc.EnterTestOwner? || th.pc.EnterIncrementAsOwner?
                   || th.pc.TryTestOwner? || th.pc.TryIncrementAsOwner? then 1 else 0
  }

  function Distance(pc: Pc): nat {
    match pc
    case EnterTestOwner(_) => 20
    case TryTestOwner => 20
    case EnterIncrementAsOwner => 19
    case TryIncrementAsOwner => 19
    case EnterCheckNotOwner => 19
    case EnterWait => 18
    case EnterCheckNoOwner => 18
    case EnterCheckNoRecursion => 17
    case TrySetOwner => 17
    case EnterSetOwner => 16
    case TryCheckNoRecursion => 16
    case LoadRecursion => 15
    case StoreRecursion(_) => 14
    case LeaveTestRecursionAgain => 13
    case LeaveSignal => 12
    case Idle => 11
    case LeaveCheckOwner => 10
    case LeaveCheckRecursion => 9
    case LeaveLoadRecursion => 8
    case LeaveStoreRecursion(_) => 7
    case LeaveTestRecursion => 6
    case LeaveClearOwner => 5
    case LeaveDecrement => 4
    case _ => 0
  }

  ghost predicate Closer(th': Thread, g': Grant, th: Thread, g: Grant) {
    || Phase(g') < Phase(g)
    || (g' == g && Entries(th') < Entries(th))
    || (g' == g && Entries(th') == Entries(th) && Distance(th'.pc) < Distance(th.pc))
  }

  lemma UnitsOfTwo(threads: seq<Thread>, t: Tid, w: Tid)
    requires t < |threads| && w < |threads| && t != w
    ensures Units(threads[t]) + Units(threads[w]) <= TotalUnits(threads)
  {
    TotalUnitsUpdate(threads, t, Thread(Idle, 0));
    UnitsBound(threads[t := Thread(Idle, 0)], w);
  }

  /** What the holder does next brings it closer to handing the lock on: it finishes the call that
      it is in, or leaves. */
  lemma HolderMoves(s: State, t: Tid)
    requires t < |s.threads| && Holds(s.threads[t]) && HolderOk(s, t)
    requires s.queue > Units(s.threads[t])
    ensures s.threads[t].pc == Idle ==>
              Starts(s.threads[t], LeaveCheckOwner)
              && Closer(Thread(LeaveCheckOwner, s.threads[t].depth), Held(t), s.threads[t], Held(t))
    ensures s.threads[t].pc != Idle ==>
              !Blocked(s, t) && Closer(Exec(s, t).threads[t], NextGrant(s, Held(t), t), s.threads[t], Held(t))
  {
  }

  lemma SignallerMoves(s: State, t: Tid)
    requires t < |s.threads| && Signalling(s.threads[t]) && s.recursion == 0
    ensures s.threads[t].pc != Idle && !Blocked(s, t)
    ensures Closer(Exec(s, t).threads[t], NextGrant(s, Signaller(t), t), s.threads[t], Signaller(t))
  {
  }

  lemma WaiterMoves(s: State, w: Tid)
    requires w < |s.threads| && Waiting(s.threads[w]) && s.tokens == 1 && s.owner == None
    ensures s.threads[w].pc != Idle && !Blocked(s, w)
    ensures var th, g := Exec(s, w).threads[w], NextGrant(s, Token, w);
            if Waiting(th) then Closer(th, g, s.threads[w], Token)
            else th == Thread(EnterCheckNoOwner, s.threads[w].depth)
  {
  }

  /** From any state of the invariant in which w waits, one step of the mover keeps w waiting and
      brings it closer, or gives it the lock. */
  lemma MoverMoves(s: State, g: Grant, w: Tid) returns (s': State, g': Grant)
    requires InvWith(s, g) && w < |s.threads| && Waiting(s.threads[w])
    ensures Mover(g, w) < |s.threads| == |s'.threads|
    ensures Step(s, s') && InvWith(s', g')
    ensures if Waiting(s'.threads[w]) then Closer(s'.threads[Mover(g, w)], g', s.threads[Mover(g, w)], g)
            else s'.threads[w] == Thread(EnterCheckNoOwner, s.threads[w].depth)
  {
    var t := Mover(g, w);
    assert ThreadOk(s, g, w);
    UnitsBound(s.threads, w);
    assert ThreadOk(s, g, t);
    if g.Held? {
      UnitsOfTwo(s.threads, t, w);
      HolderMoves(s, t);
    } else if g.Signaller? {
      SignallerMoves(s, t);
    } else {
      WaiterMoves(s, w);
    }
    hide HolderOk, NonHolderOk, Closer, NextGrant, Exec;
    if s.threads[t].pc == Idle {
      s', g' := Goto(s, t, LeaveCheckOwner), g;
      StartInv(s, g, t, LeaveCheckOwner);
    } else {
      s', g' := Exec(s, t), NextGrant(s, g, t);
      ExecInv(s, g, t);
      ExecOthers(s, g, t);
    }
    assert StepOf(s, t, s');
  }

  /** A waiting thread can always be brought to the lock. */
  lemma {:induction false} PathToLock(s: State, g: Grant, w: Tid) returns (path: seq<State>, g': Grant)
    requires InvWith(s, g) && w < |s.threads| && Waiting(s.threads[w])
    requires Mover(g, w) < |s.threads|
    ensures Path(path) && path[0] == s && InvWith(path[|path| - 1], g')
    ensures w < |path[|path| - 1].threads|
    ensures path[|path| - 1].threads[w] == Thread(EnterCheckNoOwner, s.threads[w].depth)
    ensures Holds(path[|path| - 1].threads[w])
    decreases Phase(g), Entries(s.threads[Mover(g, w)]), Distance(s.threads[Mover(g, w)].pc)
  {
    hide InvWith, Step;
    var s';
    s', g' := MoverMoves(s, g, w);
    if Waiting(s'.threads[w]) {
      MoverExists(s', g', w);
      DepthStays(s, g, w);
      DepthStays(s', g', w);
      var rest;
      rest, g' := PathToLock(s', g', w);
      path := [s] + rest;
      OneMoreStep(s, rest);
    } else {
      path := [s, s'];
    }
  }

  lemma DepthStays(s: State, g: Grant, w: Tid)
    requires InvWith(s, g) && w < |s.threads| && Waiting(s.threads[w])
    ensures s.threads[w].depth == 0
  {
    assert ThreadOk(s, g, w);
  }

  lemma OneMoreStep(s: State, rest: seq<State>)
    requires Path(rest) && Step(s, rest[0])
    ensures Path([s] + rest)
  {
    hide Step;
    var path := [s] + rest;
    assert forall i | 0 < i < |path| :: path[i] == rest[i - 1];
    forall i | 0 <= i < |path| - 1 ensures Step(path[i], path[i + 1]) {
      assert i > 0 ==> Step(rest[i - 1], rest[i - 1 + 1]);
    }
  }

  lemma MoverExists(s: State, g: Grant, w: Tid)
    requires InvWith(s, g) && w < |s.threads|
    ensures Mover(g, w) < |s.threads|
  {
  }

  /** No wake-up is lost for good: wherever a run has come to, it can go on so that a given waiter
      gets the lock. */
  lemma WaiterCanProceed(run: seq<State>, i: nat, w: Tid) returns (longer: seq<State>)
    requires Run(run) && i < |run| && w < |run[i].threads| && Waiting(run[i].threads[w])
    ensures Run(longer) && |longer| > i && longer[..i + 1] == run[..i + 1]
    ensures w < |longer[|longer| - 1].threads| && Holds(longer[|longer| - 1].threads[w])
  {
    hide InvWith, Step;
    RunInv(run, i);
    var g :| InvWith(run[i], g);
    MoverExists(run[i], g, w);
    var path, _ := PathToLock(run[i], g, w);
    longer := run[..i] + path;
    Continued(run, i, path);
  }

  lemma Continued(run: seq<State>, i: nat, path: seq<State>)
    requires Run(run) && i < |run| && Path(path) && path[0] == run[i]
    ensures Run(run[..i] + path) && (run[..i] + path)[..i + 1] == run[..i + 1]
  {
    hide Step;
    var longer := run[..i] + path;
    forall k | 0 <= k < |longer| - 1 ensures Step(longer[k], longer[k + 1]) {
      if k < i {
        assert Step(run[k], run[k + 1]);
      } else {
        assert Step(path[k - i], path[k - i + 1]);
      }
    }
  }

  // ---------------------------------------------------------------- every call ends

  /** How many steps of its own a thread can take before its call ends, apart from the one step for
      which it may have to wait. */
  function Budget(pc: Pc): nat {
    match pc
    case Idle => 0
    case EnterTestOwner(spin) => 4 * spin + 12
    case EnterLoad(spin) => 4 * spin + 11
    case EnterCas(spin) => 4 * spin + 10
    case EnterYield(spin) => 4 * spin + 9
    case EnterIncrement => 8
    case EnterCheckNotOwner => 7
    case EnterWait => 6
    case EnterCheckNoOwner => 5
    case EnterCheckNoRecursion => 4
    case EnterIncrementAsOwner => 4
    case EnterSetOwner => 3
    case TryTestOwner => 6
    case TryCas => 5
    case TrySetOwner => 4
    case TryCheckNoRecursion => 3
    case TryIncrementAsOwner => 3
    case LoadRecursion => 2
    case StoreRecursion(_) => 1
    case LeaveCheckOwner => 9
    case LeaveCheckRecursion => 8
    case LeaveLoadRecursion => 7
    case LeaveStoreRecursion(_) => 6
    case LeaveTestRecursion => 5
    case LeaveClearOwner => 4
    case LeaveDecrement => 3
    case LeaveTestRecursionAgain => 2
    case LeaveSignal => 1
    case Failed => 0
  }

  predicate Entering(pc: Pc) {
    || pc.EnterTestOwner? || pc.EnterLoad? || pc.EnterCas? || pc.EnterYield? || pc.EnterIncrementAsOwner?
    || pc.EnterIncrement? || pc.EnterCheckNotOwner? || pc.EnterWait? || pc.EnterCheckNoOwner?
    || pc.EnterCheckNoRecursion? || pc.EnterSetOwner? || pc.LoadRecursion? || pc.StoreRecursion?
  }

  /** Whatever the other threads do in between, each step spends some of it; so a call ends after a
      bounded number of steps of its thread, except that Enter may have to wait for the semaphore. */
  lemma StepSpends(s: State, t: Tid)
    requires t < |s.threads| && s.threads[t].pc != Idle && s.threads[t].pc != Failed && !Blocked(s, t)
    ensures |Exec(s, t).threads| == |s.threads|
    ensures Budget(Exec(s, t).threads[t].pc) < Budget(s.threads[t].pc)
    ensures Entering(s.threads[t].pc) ==>
              var th := Exec(s, t).threads[t];
              || th.pc == Failed
              || (Entering(th.pc) && th.depth == s.threads[t].depth)
              || (s.threads[t].pc.StoreRecursion? && th == Thread(Idle, s.threads[t].depth + 1))
    ensures !Entering(s.threads[t].pc) && Entering(Exec(s, t).threads[t].pc) ==>
              Exec(s, t).threads[t].pc == LoadRecursion
  {
  }

  lemma OthersStay(s: State, g: Grant, u: Tid, s': State, t: Tid)
    requires InvWith(s, g) && StepOf(s, u, s') && t < |s.threads| && t != u
    ensures |s'.threads| == |s.threads| && s'.threads[t] == s.threads[t]
  {
    if s.threads[u].pc != Idle {
      ExecOthers(s, g, u);
    }
  }

  function StepsOf(movers: seq<Tid>, t: Tid): nat {
    if movers == [] then 0 else StepsOf(movers[..|movers| - 1], t) + if movers[|movers| - 1] == t then 1 else 0
  }

  /** During one call a thread takes at most as many steps as its budget, which is 12012 for Enter,
      six for TryEnter and nine for Leave, however the threads interleave. */
  lemma {:induction false} CallsEnd(run: seq<State>, movers: seq<Tid>, t: Tid, i: nat, j: nat)
    requires Run(run) && |movers| == |run| - 1
    requires forall k | 0 <= k < |movers| :: StepOf(run[k], movers[k], run[k + 1])
    requires i <= j < |run| && t < |run[i].threads|
    requires forall k | i <= k <= j :: t < |run[k].threads| ==> run[k].threads[t].pc != Idle
    ensures t < |run[j].threads|
    ensures StepsOf(movers[i..j], t) + Budget(run[j].threads[t].pc) <= Budget(run[i].threads[t].pc)
    ensures Budget(EnterTestOwner(SPIN)) == 12012 && Budget(TryTestOwner) == 6 && Budget(LeaveCheckOwner) == 9
    decreases j - i
  {
    hide InvWith, StepOf, Exec, Budget;
    if i == j {
      assert movers[i..i] == [];
      TheBudgets();
    } else {
      CallsEnd(run, movers, t, i, j - 1);
      assert movers[i..j][..j - 1 - i] == movers[i..j - 1];
      RunInv(run, j - 1);
      var s := run[j - 1];
      var g :| InvWith(s, g);
      assert StepOf(s, movers[j - 1], run[j - 1 + 1]);
      if movers[j - 1] == t {
        NotFailed(s, g, t);
        OwnStep(s, t, run[j]);
      } else {
        OthersStay(s, g, movers[j - 1], run[j], t);
      }
    }
  }

  lemma OwnStep(s: State, t: Tid, s': State)
    requires StepOf(s, t, s') && s.threads[t].pc != Idle && s.threads[t].pc != Failed
    ensures |s'.threads| == |s.threads| && Budget(s'.threads[t].pc) < Budget(s.threads[t].pc)
  {
    StepSpends(s, t);
  }

  lemma TheBudgets()
    ensures Budget(EnterTestOwner(SPIN)) == 12012 && Budget(TryTestOwner) == 6 && Budget(LeaveCheckOwner) == 9
  {
  }

  /** A thread in Enter can be brought to the end of the call, where it owns the lock once more than
      before. */
  lemma {:induction false} PathThroughEnter(s: State, g: Grant, t: Tid) returns (path: seq<State>, g': Grant)
    requires InvWith(s, g) && t < |s.threads| && Entering(s.threads[t].pc)
    ensures Path(path) && path[0] == s && InvWith(path[|path| - 1], g')
    ensures t < |path[|path| - 1].threads|
    ensures path[|path| - 1].threads[t] == Thread(Idle, s.threads[t].depth + 1)
    decreases Budget(s.threads[t].pc)
  {
    hide InvWith, Step, Exec, StepOf;
    if Waiting(s.threads[t]) {
      MoverExists(s, g, t);
      var first, g1 := PathToLock(s, g, t);
      var rest;
      rest, g' := PathThroughEnter(first[|first| - 1], g1, t);
      path := first[..|first| - 1] + rest;
      Joined(first, rest);
    } else {
      StepSpends(s, t);
      ExecInv(s, g, t);
      var s', g1 := Exec(s, t), NextGrant(s, g, t);
      NotFailed(s', g1, t);
      assert Step(s, s') by { OneStep(s, t); }
      if s'.threads[t].pc == Idle {
        path, g' := [s, s'], g1;
      } else {
        var rest;
        rest, g' := PathThroughEnter(s', g1, t);
        path := [s] + rest;
        OneMoreStep(s, rest);
      }
    }
  }

  lemma OneStep(s: State, t: Tid)
    requires t < |s.threads| && s.threads[t].pc != Idle && !Blocked(s, t)
    ensures Step(s, Exec(s, t))
  {
    assert StepOf(s, t, Exec(s, t));
  }

  lemma NotFailed(s: State, g: Grant, t: Tid)
    requires InvWith(s, g) && t < |s.threads|
    ensures s.threads[t].pc != Failed
  {
    assert ThreadOk(s, g, t);
  }

  lemma Joined(first: seq<State>, rest: seq<State>)
    requires Path(first) && Path(rest) && first[|first| - 1] == rest[0]
    ensures Path(first[..|first| - 1] + rest)
  {
    hide Step;
    var path, n := first[..|first| - 1] + rest, |first| - 1;
    forall i | 0 <= i < |path| - 1 ensures Step(path[i], path[i + 1]) {
      if i < n {
        assert Step(first[i], first[i + 1]);
      } else {
        assert Step(rest[i - n], rest[i - n + 1]);
      }
    }
  }

  /** Enter does take the lock: every run in which a thread has started it, or is anywhere in it, can
      go on so that the call ends, with the thread as owner one level deeper. */
  lemma EnterCanProceed(run: seq<State>, i: nat, t: Tid) returns (longer: seq<State>)
    requires Run(run) && i < |run| && t < |run[i].threads| && Entering(run[i].threads[t].pc)
    ensures Run(longer) && |longer| > i && longer[..i + 1] == run[..i + 1]
    ensures var s := longer[|longer| - 1];
            && t < |s.threads| && s.threads[t] == Thread(Idle, run[i].threads[t].depth + 1)
            && s.owner == Some(t) && s.recursion == run[i].threads[t].depth + 1
  {
    hide InvWith, Step;
    RunInv(run, i);
    var g :| InvWith(run[i], g);
    var path, _ := PathThroughEnter(run[i], g, t);
    longer := run[..i] + path;
    Continued(run, i, path);
    OwnerAndDepth(longer, |longer| - 1, t);
  }

  // ---------------------------------------------------------------- calls without interference

  /** One thread takes steps alone until its call ends or it has to wait. */
  function Solo(s: State, t: Tid): State
    requires t < |s.threads|
    decreases Budget(s.threads[t].pc)
  {
    if s.threads[t].pc == Idle || s.threads[t].pc == Failed || Blocked(s, t) then s
    else
      StepSpends(s, t);
      Solo(Exec(s, t), t)
  }

  function Put(s: State, t: Tid, th: Thread): State
    requires t < |s.threads|
  {
    s.(threads := s.threads[t := th])
  }

  lemma SoloStep(s: State, t: Tid, next: State)
    requires t < |s.threads| && s.threads[t].pc != Idle && s.threads[t].pc != Failed && !Blocked(s, t)
    requires next == Exec(s, t)
    ensures |next.threads| == |s.threads| && Solo(s, t) == Solo(next, t)
  {
    StepSpends(s, t);
  }

  lemma PutTwice(s: State, t: Tid, a: Thread, b: Thread)
    requires t < |s.threads|
    ensures Put(Put(s, t, a), t, b) == Put(s, t, b) && Put(s, t, s.threads[t]) == s
    ensures Put(s, t, a).threads[t] == a && |Put(s, t, a).threads| == |s.threads|
  {
  }

  /** The lock as it is after one more Enter or successful TryEnter of a thread. */
  function Entered(s: State, t: Tid): State
    requires t < |s.threads|
  {
    Put(s.(queue := s.queue + 1, owner := Some(t), recursion := s.recursion + 1), t,
        Thread(Idle, s.threads[t].depth + 1))
  }

  lemma SoloLoad(s: State, t: Tid)
    requires t < |s.threads| && s.threads[t].pc == LoadRecursion
    ensures Solo(s, t) == Put(s.(recursion := s.recursion + 1), t, Thread(Idle, s.threads[t].depth + 1))
  {
    hide Solo;
    var d := s.threads[t].depth;
    var s1 := Put(s, t, Thread(StoreRecursion(s.recursion), d));
    SoloStep(s, t, s1);
    var s2 := Put(s.(recursion := s.recursion + 1), t, Thread(Idle, d + 1));
    SoloStep(s1, t, s2);
    SoloEnds(s2, t);
  }

  lemma SoloEnds(s: State, t: Tid)
    requires t < |s.threads| && (s.threads[t].pc == Idle || Blocked(s, t))
    ensures Solo(s, t) == s
  {
  }

  lemma SoloSetOwner(s: State, t: Tid)
    requires t < |s.threads| && s.threads[t].pc == EnterSetOwner
    ensures Solo(s, t)
         == Put(s.(owner := Some(t), recursion := s.recursion + 1), t, Thread(Idle, s.threads[t].depth + 1))
  {
    hide Solo;
    var s1 := Put(s.(owner := Some(t)), t, Thread(LoadRecursion, s.threads[t].depth));
    SoloStep(s, t, s1);
    SoloLoad(s1, t);
  }

  /** On a lock that is free or its own, a thread alone enters one level deeper. */
  lemma EnterAlone(s: State, t: Tid)
    requires t < |s.threads| && s.threads[t].pc == Idle
    requires s.queue == 0 || s.owner == Some(t)
    ensures Solo(Goto(s, t, EnterTestOwner(SPIN)), t) == Entered(s, t)
  {
    hide Solo, Exec;
    if s.owner == Some(t) {
      EnterOwnLock(s, t);
    } else {
      EnterFreeLock(s, t);
    }
  }

  lemma EnterOwnLock(s: State, t: Tid)
    requires t < |s.threads| && s.threads[t].pc == Idle && s.owner == Some(t)
    ensures Solo(Goto(s, t, EnterTestOwner(SPIN)), t) == Entered(s, t)
  {
    hide Solo;
    var d := s.threads[t].depth;
    var s1 := Put(s, t, Thread(EnterIncrementAsOwner, d));
    SoloStep(Goto(s, t, EnterTestOwner(SPIN)), t, s1);
    var s2 := Put(s.(queue := s.queue + 1), t, Thread(EnterSetOwner, d));
    SoloStep(s1, t, s2);
    SoloSetOwner(s2, t);
  }

  lemma EnterFreeLock(s: State, t: Tid)
    requires t < |s.threads| && s.threads[t].pc == Idle && s.queue == 0 && s.owner != Some(t)
    ensures Solo(Goto(s, t, EnterTestOwner(SPIN)), t) == Entered(s, t)
  {
    hide Solo;
    var d := s.threads[t].depth;
    var s1 := Put(s, t, Thread(EnterLoad(SPIN), d));
    SoloStep(Goto(s, t, EnterTestOwner(SPIN)), t, s1);
    var s2 := Put(s, t, Thread(EnterCas(SPIN), d));
    SoloStep(s1, t, s2);
    var s3 := Put(s.(queue := 1), t, Thread(EnterSetOwner, d));
    SoloStep(s2, t, s3);
    SoloSetOwner(s3, t);
  }

  /** The spinning of Enter while another thread has the lock or waits for it. */
  lemma {:induction false} SpinAlone(s: State, t: Tid, spin: nat)
    requires t < |s.threads| && s.threads[t].pc == EnterTestOwner(spin)
    requires s.queue > 0 && s.owner != Some(t)
    ensures Solo(s, t) == Solo(Put(s, t, Thread(EnterIncrement, s.threads[t].depth)), t)
    decreases spin
  {
    hide Solo;
    var d := s.threads[t].depth;
    var s1, s2 := Put(s, t, Thread(EnterLoad(spin), d)), Put(s, t, Thread(EnterYield(spin), d));
    SoloStep(s, t, s1);
    SoloStep(s1, t, s2);
    if spin <= 1 {
      SoloStep(s2, t, Put(s, t, Thread(EnterIncrement, d)));
    } else {
      var s3 := Put(s, t, Thread(EnterTestOwner(spin - 1), d));
      SoloStep(s2, t, s3);
      SpinAlone(s3, t, spin - 1);
      PutTwice(s, t, Thread(EnterTestOwner(spin - 1), d), Thread(EnterIncrement, d));
    }
  }

  /** On a lock of another thread, Enter alone counts itself in the queue and waits at the semaphore;
      if another one has just left, it takes the token and enters. */
  lemma EnterAloneWaits(s: State, t: Tid)
    requires t < |s.threads| && s.threads[t].pc == Idle
    requires s.queue > 0 && s.owner != Some(t) && (s.tokens > 0 ==> s.owner == None && s.recursion == 0)
    ensures Solo(Goto(s, t, EnterTestOwner(SPIN)), t)
         == if s.tokens > 0 then Entered(s.(tokens := s.tokens - 1), t)
            else Put(s.(queue := s.queue + 1), t, Thread(EnterWait, s.threads[t].depth))
  {
    hide Solo, Exec;
    var d := s.threads[t].depth;
    SpinAlone(Goto(s, t, EnterTestOwner(SPIN)), t, SPIN);
    PutTwice(s, t, Thread(EnterTestOwner(SPIN), d), Thread(EnterIncrement, d));
    CountedAlone(s, t);
    var counted := s.(queue := s.queue + 1);
    if s.tokens == 0 {
      SoloEnds(Put(counted, t, Thread(EnterWait, d)), t);
    } else {
      WakesAlone(counted, t);
    }
  }

  lemma CountedAlone(s: State, t: Tid)
    requires t < |s.threads| && s.queue > 0 && s.owner != Some(t)
    ensures var d := s.threads[t].depth;
            Solo(Put(s, t, Thread(EnterIncrement, d)), t)
            == Solo(Put(s.(queue := s.queue + 1), t, Thread(EnterWait, d)), t)
  {
    hide Solo;
    var d, counted := s.threads[t].depth, s.(queue := s.queue + 1);
    var s2 := Put(counted, t, Thread(EnterCheckNotOwner, d));
    SoloStep(Put(s, t, Thread(EnterIncrement, d)), t, s2);
    SoloStep(s2, t, Put(counted, t, Thread(EnterWait, d)));
  }

  lemma WakesAlone(s: State, t: Tid)
    requires t < |s.threads| && s.tokens > 0 && s.owner == None && s.recursion == 0
    ensures var d := s.threads[t].depth;
            Solo(Put(s, t, Thread(EnterWait, d)), t)
            == Put(s.(tokens := s.tokens - 1, owner := Some(t), recursion := 1), t, Thread(Idle, d + 1))
  {
    hide Solo;
    var d, awake := s.threads[t].depth, s.(tokens := s.tokens - 1);
    var s4 := Put(awake, t, Thread(EnterCheckNoOwner, d));
    SoloStep(Put(s, t, Thread(EnterWait, d)), t, s4);
    var s5 := Put(awake, t, Thread(EnterCheckNoRecursion, d));
    SoloStep(s4, t, s5);
    var s6 := Put(awake, t, Thread(EnterSetOwner, d));
    SoloStep(s5, t, s6);
    SoloSetOwner(s6, t);
  }

  /** TryEnter alone enters exactly if the lock is free or its own, and otherwise changes nothing; it
      never waits. */
  lemma TryEnterAlone(s: State, t: Tid)
    requires t < |s.threads| && s.threads[t].pc == Idle
    requires s.queue == 0 ==> s.owner == None && s.recursion == 0
    ensures Solo(Goto(s, t, TryTestOwner), t) == if s.queue == 0 || s.owner == Some(t) then Entered(s, t) else s
  {
    hide Solo, Exec;
    var start := Goto(s, t, TryTestOwner);
    if s.owner == Some(t) {
      TryOwnLock(s, t);
    } else {
      var s1 := Put(s, t, Thread(TryCas, s.threads[t].depth));
      assert s1 == Exec(start, t) by { TryTestsOwner(s, t); }
      SoloStep(start, t, s1);
      if s.queue == 0 {
        TryFreeLock(s, t);
      } else {
        TryFails(s, t);
      }
    }
  }

  lemma TryTestsOwner(s: State, t: Tid)
    requires t < |s.threads| && s.threads[t].pc == Idle && s.owner != Some(t)
    ensures Exec(Goto(s, t, TryTestOwner), t) == Put(s, t, Thread(TryCas, s.threads[t].depth))
  {
  }

  lemma TryFails(s: State, t: Tid)
    requires t < |s.threads| && s.threads[t].pc == Idle && s.queue != 0
    ensures Solo(Put(s, t, Thread(TryCas, s.threads[t].depth)), t) == s
  {
    hide Solo;
    var d := s.threads[t].depth;
    PutTwice(s, t, Thread(TryCas, d), Thread(Idle, d));
    SoloStep(Put(s, t, Thread(TryCas, d)), t, s);
    SoloEnds(s, t);
  }

  lemma TryFreeLock(s: State, t: Tid)
    requires t < |s.threads| && s.queue == 0 && s.recursion == 0
    ensures Solo(Put(s, t, Thread(TryCas, s.threads[t].depth)), t) == Entered(s, t)
  {
    hide Solo;
    var d := s.threads[t].depth;
    var s2 := Put(s.(queue := 1), t, Thread(TrySetOwner, d));
    SoloStep(Put(s, t, Thread(TryCas, d)), t, s2);
    var s3 := Put(s.(queue := 1, owner := Some(t)), t, Thread(TryCheckNoRecursion, d));
    SoloStep(s2, t, s3);
    var s4 := Put(s.(queue := 1, owner := Some(t)), t, Thread(LoadRecursion, d));
    SoloStep(s3, t, s4);
    SoloLoad(s4, t);
  }

  lemma TryOwnLock(s: State, t: Tid)
    requires t < |s.threads| && s.threads[t].pc == Idle && s.owner == Some(t)
    ensures Solo(Goto(s, t, TryTestOwner), t) == Entered(s, t)
  {
    hide Solo, Exec, Entered;
    var d := s.threads[t].depth;
    var start, s1 := Goto(s, t, TryTestOwner), Put(s, t, Thread(TryIncrementAsOwner, d));
    var s2 := Put(s.(queue := s.queue + 1), t, Thread(LoadRecursion, d));
    TryIncrements(s, t);
    SoloStep(start, t, s1);
    SoloStep(s1, t, s2);
    SoloLoad(s2, t);
    LoadedIsEntered(s, t);
  }

  lemma TryIncrements(s: State, t: Tid)
    requires t < |s.threads| && s.threads[t].pc == Idle && s.owner == Some(t)
    ensures var d := s.threads[t].depth;
            && Exec(Goto(s, t, TryTestOwner), t) == Put(s, t, Thread(TryIncrementAsOwner, d))
            && Exec(Put(s, t, Thread(TryIncrementAsOwner, d)), t)
               == Put(s.(queue := s.queue + 1), t, Thread(LoadRecursion, d))
  {
  }

  lemma LoadedIsEntered(s: State, t: Tid)
    requires t < |s.threads| && s.owner == Some(t)
    ensures var d := s.threads[t].depth;
            var s2 := Put(s.(queue := s.queue + 1), t, Thread(LoadRecursion, d));
            Put(s2.(recursion := s2.recursion + 1), t, Thread(Idle, d + 1)) == Entered(s, t)
  {
  }

  /** The lock after Leave: one level less, and from the outermost one it is free, and one thread is
      woken if any is counted in the queue. */
  function Released(s: State, t: Tid): State
    requires t < |s.threads| && s.threads[t].depth > 0
  {
    var d, last := s.threads[t].depth, s.threads[t].depth == 1;
    Put(s.(queue := s.queue - 1,
           owner := if last then None else s.owner,
           recursion := s.recursion - 1,
           tokens := s.tokens + if last && s.queue > 1 then 1 else 0), t, Thread(Idle, d - 1))
  }

  lemma LeaveAlone(s: State, t: Tid)
    requires t < |s.threads| && s.threads[t].pc == Idle && s.threads[t].depth > 0
    requires s.owner == Some(t) && s.recursion == s.threads[t].depth
    ensures Solo(Goto(s, t, LeaveCheckOwner), t) == Released(s, t)
  {
    hide Solo;
    var d := s.threads[t].depth;
    var start, less := Goto(s, t, LeaveCheckOwner), s.(recursion := s.recursion - 1);
    var s1 := Put(s, t, Thread(LeaveCheckRecursion, d));
    SoloStep(start, t, s1);
    var s2 := Put(s, t, Thread(LeaveLoadRecursion, d));
    SoloStep(s1, t, s2);
    var s3 := Put(s, t, Thread(LeaveStoreRecursion(s.recursion), d));
    SoloStep(s2, t, s3);
    SoloStep(s3, t, Put(less, t, Thread(LeaveTestRecursion, d)));
    LeaveRest(less, t);
  }

  lemma LeaveRest(s: State, t: Tid)
    requires t < |s.threads| && s.threads[t].depth > 0
    requires s.owner == Some(t) && s.recursion == s.threads[t].depth - 1
    ensures Solo(Put(s, t, Thread(LeaveTestRecursion, s.threads[t].depth)), t)
         == Released(s.(recursion := s.recursion + 1), t)
  {
    hide Solo;
    var d := s.threads[t].depth;
    var s4 := Put(s, t, Thread(LeaveTestRecursion, d));
    if d == 1 {
      var s5 := Put(s, t, Thread(LeaveClearOwner, d));
      SoloStep(s4, t, s5);
      SoloStep(s5, t, Put(s.(owner := None), t, Thread(LeaveDecrement, d)));
      SoloDecrement(s.(owner := None), t);
    } else {
      SoloStep(s4, t, Put(s, t, Thread(LeaveDecrement, d)));
      SoloDecrement(s, t);
    }
  }

  lemma SoloDecrement(s: State, t: Tid)
    requires t < |s.threads| && s.threads[t].depth > 0 && s.recursion == s.threads[t].depth - 1
    ensures var d, last := s.threads[t].depth, s.threads[t].depth == 1;
            Solo(Put(s, t, Thread(LeaveDecrement, d)), t)
            == Put(s.(queue := s.queue - 1, tokens := s.tokens + if last && s.queue > 1 then 1 else 0), t,
                   Thread(Idle, d - 1))
  {
    hide Solo;
    var d := s.threads[t].depth;
    var s1, less := Put(s, t, Thread(LeaveDecrement, d)), s.(queue := s.queue - 1);
    if s.queue > 1 {
      var s2 := Put(less, t, Thread(LeaveTestRecursionAgain, d - 1));
      SoloStep(s1, t, s2);
      SoloTestAgain(less, t, d - 1);
    } else {
      var s2 := Put(less, t, Thread(Idle, d - 1));
      SoloStep(s1, t, s2);
      SoloEnds(s2, t);
    }
  }

  lemma SoloTestAgain(s: State, t: Tid, depth: nat)
    requires t < |s.threads| && s.recursion == depth
    ensures Solo(Put(s, t, Thread(LeaveTestRecursionAgain, depth)), t)
         == Put(s.(tokens := s.tokens + if depth == 0 then 1 else 0), t, Thread(Idle, depth))
  {
    hide Solo;
    var s2 := Put(s, t, Thread(LeaveTestRecursionAgain, depth));
    if depth == 0 {
      var s3 := Put(s, t, Thread(LeaveSignal, 0));
      SoloStep(s2, t, s3);
      var s4 := Put(s.(tokens := s.tokens + 1), t, Thread(Idle, 0));
      SoloStep(s3, t, s4);
      SoloEnds(s4, t);
    } else {
      var s3 := Put(s, t, Thread(Idle, depth));
      SoloStep(s2, t, s3);
      SoloEnds(s3, t);
    }
  }

  /** What each call does, in any state of any run, when no other thread interferes: on a lock that is
      free or its own a thread enters one level deeper, with Enter as well as with TryEnter; on one of
      another thread TryEnter changes nothing and Enter waits in the queue, unless the lock has just
      been handed on and it takes it itself; and Leave goes back one level. */
  lemma CallsAlone(run: seq<State>, i: nat, t: Tid)
    requires Run(run) && i < |run| && t < |run[i].threads| && run[i].threads[t].pc == Idle
    ensures var s := run[i];
            var mine := s.queue == 0 || s.owner == Some(t);
            var waiting := Put(s.(queue := s.queue + 1), t, Thread(EnterWait, s.threads[t].depth));
            && Solo(Goto(s, t, EnterTestOwner(SPIN)), t)
               == (if mine then Entered(s, t) else if s.tokens > 0 then Entered(s.(tokens := s.tokens - 1), t)
                   else waiting)
            && Solo(Goto(s, t, TryTestOwner), t) == (if mine then Entered(s, t) else s)
            && (s.threads[t].depth > 0 ==> Solo(Goto(s, t, LeaveCheckOwner), t) == Released(s, t))
  {
    hide Solo, Exec;
    RunInv(run, i);
    var s := run[i];
    OwnerAndDepth(run, i, t);
    WhenFree(s);
    if s.queue == 0 || s.owner == Some(t) {
      EnterAlone(s, t);
    } else {
      EnterAloneWaits(s, t);
    }
    TryEnterAlone(s, t);
    if s.threads[t].depth > 0 {
      LeaveAlone(s, t);
    }
  }

  lemma WhenFree(s: State)
    requires Inv(s)
    ensures s.queue >= 0 && (s.queue == 0 || s.tokens > 0 ==> s.owner == None && s.recursion == 0)
  {
    var g :| InvWith(s, g);
  }

  // ---------------------------------------------------------------- refinement

  /** The specification: a recursive lock whose every operation is atomic. */
  datatype RecursiveLock = Free | LockedBy(t: Tid, depth: nat)

  ghost predicate AtomicStep(a: RecursiveLock, t: Tid, a': RecursiveLock) {
    || a' == a
    || (a == Free && a' == LockedBy(t, 1))
    || (a.LockedBy? && a.t == t && a' == LockedBy(t, a.depth + 1))
    || (a.LockedBy? && a.t == t && a.depth > 1 && a' == LockedBy(t, a.depth - 1))
    || (a == LockedBy(t, 1) && a' == Free)
  }

  ghost function Abstract(s: State): RecursiveLock {
    if exists t :: 0 <= t < |s.threads| && Holds(s.threads[t]) then
      var t :| 0 <= t < |s.threads| && Holds(s.threads[t]);
      LockedBy(t, Units(s.threads[t]))
    else Free
  }

  ghost predicate StepRefines(s: State, s': State) {
    exists t: Tid :: StepOf(s, t, s') && AtomicStep(Abstract(s), t, Abstract(s'))
  }

  lemma AbstractOf(s: State, g: Grant)
    requires InvWith(s, g)
    ensures Abstract(s) == if g.Held? then LockedBy(g.t, Units(s.threads[g.t])) else Free
  {
    GrantOfAll(s, g);
    assert g.Held? ==> Holds(s.threads[g.t]);
  }

  lemma ExecRefines(s: State, g: Grant, t: Tid)
    requires InvWith(s, g) && t < |s.threads|
    requires s.threads[t].pc != Idle && !Blocked(s, t)
    ensures AtomicStep(Abstract(s), t, Abstract(Exec(s, t)))
  {
    ExecInv(s, g, t);
    AbstractOf(s, g);
    AbstractOf(Exec(s, t), NextGrant(s, g, t));
    ExecOthers(s, g, t);
    ExecShared(s, g, t);
    assert ThreadOk(s, g, t);
  }

  /** Every step of every interleaving is one atomic operation of the recursive lock by the thread
      that took it, or leaves that lock unchanged. */
  lemma RefinesRecursiveLock(run: seq<State>, i: nat)
    requires Run(run) && i + 1 < |run|
    ensures Abstract(run[0]) == Free
    ensures StepRefines(run[i], run[i + 1])
  {
    InitInv(run[0]);
    AbstractOf(run[0], Nobody);
    RunInv(run, i);
    var s, s' := run[i], run[i + 1];
    var g :| InvWith(s, g);
    assert Step(s, s');
    var t: Tid :| StepOf(s, t, s');
    if s.threads[t].pc == Idle {
      var pc :| Starts(s.threads[t], pc) && s' == Goto(s, t, pc);
      StartInv(s, g, t, pc);
      AbstractOf(s, g);
      AbstractOf(s', g);
    } else {
      ExecRefines(s, g, t);
    }
    assert AtomicStep(Abstract(s), t, Abstract(s'));
  }

  /** A TryEnter whose compare-and-swap fails leaves the lock untouched and failed because the
      lock is held, or is on its way to a waiter. */
  lemma TryEnterFailure(run: seq<State>, i: nat, t: Tid)
    requires Run(run) && i < |run| && t < |run[i].threads|
    requires run[i].threads[t].pc == TryCas && Exec(run[i], t).threads[t].pc == Idle
    ensures Exec(run[i], t) == Goto(run[i], t, Idle)
    ensures Abstract(run[i]).LockedBy? || WaiterCount(run[i].threads) > 0
    ensures !Holds(run[i].threads[t])
  {
    RunInv(run, i);
    var s := run[i];
    var g :| InvWith(s, g);
    AbstractOf(s, g);
    assert ThreadOk(s, g, t);
    QueueAccounting(run, i, t);
    GrantOfAll(s, g);
  }
}
