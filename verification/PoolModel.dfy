/** The thread pool as an interleaving of atomic steps: any number of
    appending and working threads over a mutex, a counting semaphore and a
    queue of requests. */
module PoolModel {
  import opened Options

  /** A queued pointer. */
  datatype Request = Null | Request(id: nat)

  /** Where a thread stands. A dequeued request carries its ticket, the number
      of requests dequeued before it. */
  datatype Pc =
    // append
    | Idle
    | AtAppendLock(r: Request)
    | AtSizeCheck(r: Request)
    | AtUnlockFull
    | AtPush(r: Request)
    | AtUnlockPushed
    | AtPost
    | Returned(ok: bool)
    // run
    | AtGuard
    | AtWait
    | AtLock
    | AtEmptyCheck
    | AtUnlockEmpty
    | AtPop
    | AtUnlock(r: Request, ticket: nat)
    | AtNullCheck(r: Request, ticket: nat)
    | AtProcess(r: Request, ticket: nat)
    | Exited

  /** The worker loop runs while not stopped as intended, or while stopped as written. */
  datatype Guard = WhileNotStopped | WhileStopped

  datatype Config = Config(guard: Guard, maxRequest: nat)

  datatype State = State(
    pcs: seq<Pc>,
    lock: Option<nat>,
    queue: seq<Request>,
    sem: nat,
    stop: bool,
    accepted: seq<Request>,
    dequeued: seq<Request>,
    processed: seq<nat>)

  /** A thread calls `append`, a thread takes its next step, the pool is told to stop. */
  datatype Action = Call(t: nat, r: Request) | Step(t: nat) | Stop

  predicate IsWorker(pc: Pc) {
    match pc
    case AtGuard | AtWait | AtLock | AtEmptyCheck | AtUnlockEmpty | AtPop => true
    case AtUnlock(_, _) | AtNullCheck(_, _) | AtProcess(_, _) | Exited => true
    case _ => false
  }

  predicate InCritical(pc: Pc) {
    match pc
    case AtSizeCheck(_) | AtUnlockFull | AtPush(_) | AtUnlockPushed => true
    case AtEmptyCheck | AtUnlockEmpty | AtPop | AtUnlock(_, _) => true
    case _ => false
  }

  predicate CanStep(s: State, t: nat) {
    && t < |s.pcs|
    && match s.pcs[t]
       case Idle | Returned(_) | Exited => false
       case AtAppendLock(_) | AtLock => s.lock == None
       case AtWait => s.sem > 0
       case AtPop => s.queue != []
       case _ => true
  }

  predicate Enabled(s: State, a: Action) {
    match a
    case Call(t, r) => t < |s.pcs| && (s.pcs[t].Idle? || s.pcs[t].Returned?)
    case Step(t) => CanStep(s, t)
    case Stop => true
  }

  predicate Loops(c: Config, stop: bool) {
    match c.guard
    case WhileNotStopped => !stop
    case WhileStopped => stop
  }

  function Goto(s: State, t: nat, pc: Pc): State
    requires t < |s.pcs|
  {
    s.(pcs := s.pcs[t := pc])
  }

  function StepOf(c: Config, s: State, t: nat): State
    requires CanStep(s, t)
  {
    match s.pcs[t]
    case AtAppendLock(r) => Goto(s, t, AtSizeCheck(r)).(lock := Some(t))
    case AtSizeCheck(r) => Goto(s, t, if |s.queue| > c.maxRequest then AtUnlockFull else AtPush(r))
    case AtUnlockFull => Goto(s, t, Returned(false)).(lock := None)
    case AtPush(r) => Goto(s, t, AtUnlockPushed).(queue := s.queue + [r], accepted := s.accepted + [r])
    case AtUnlockPushed => Goto(s, t, AtPost).(lock := None)
    case AtPost => Goto(s, t, Returned(true)).(sem := s.sem + 1)
    case AtGuard => Goto(s, t, if Loops(c, s.stop) then AtWait else Exited)
    case AtWait => Goto(s, t, AtLock).(sem := s.sem - 1)
    case AtLock => Goto(s, t, AtEmptyCheck).(lock := Some(t))
    case AtEmptyCheck => Goto(s, t, if s.queue == [] then AtUnlockEmpty else AtPop)
    case AtUnlockEmpty => Goto(s, t, AtGuard).(lock := None)
    case AtPop =>
      Goto(s, t, AtUnlock(s.queue[0], |s.dequeued|)).(queue := s.queue[1..], dequeued := s.dequeued + [s.queue[0]])
    case AtUnlock(r, k) => Goto(s, t, AtNullCheck(r, k)).(lock := None)
    case AtNullCheck(r, k) => Goto(s, t, if r == Null then AtGuard else AtProcess(r, k))
    case AtProcess(r, k) => Goto(s, t, AtGuard).(processed := s.processed + [k])
  }

  function Next(c: Config, s: State, a: Action): State
    requires Enabled(s, a)
  {
    match a
    case Call(t, r) => Goto(s, t, AtAppendLock(r))
    case Step(t) => StepOf(c, s, t)
    case Stop => s.(stop := true)
  }

  predicate IsRun(c: Config, s: State, run: seq<Action>)
    decreases |run|
  {
    run == [] || (Enabled(s, run[0]) && IsRun(c, Next(c, s, run[0]), run[1..]))
  }

  function After(c: Config, s: State, run: seq<Action>): State
    requires IsRun(c, s, run)
    decreases |run|
  {
    if run == [] then s else After(c, Next(c, s, run[0]), run[1..])
  }

  /** Any threads, none of them inside `append`, all workers about to test the guard. */
  predicate Initial(s: State) {
    && (forall t :: 0 <= t < |s.pcs| ==> s.pcs[t] == Idle || s.pcs[t] == AtGuard)
    && s.lock == None && s.queue == [] && s.sem == 0 && !s.stop
    && s.accepted == [] && s.dequeued == [] && s.processed == []
  }

  // ----- Sums over threads -----

  function Sum(pcs: seq<Pc>, w: Pc -> nat): nat {
    if pcs == [] then 0 else w(pcs[0]) + Sum(pcs[1..], w)
  }

  lemma {:induction false} SumUpdate(pcs: seq<Pc>, t: nat, pc: Pc, w: Pc -> nat)
    requires t < |pcs|
    ensures Sum(pcs[t := pc], w) + w(pcs[t]) == Sum(pcs, w) + w(pc)
  {
    if t == 0 {
      assert pcs[0 := pc][1..] == pcs[1..];
    } else {
      SumUpdate(pcs[1..], t - 1, pc, w);
      assert pcs[t := pc][1..] == pcs[1..][t - 1 := pc];
    }
  }

  lemma {:induction false} SumAtLeast(pcs: seq<Pc>, t: nat, w: Pc -> nat)
    requires t < |pcs|
    ensures Sum(pcs, w) >= w(pcs[t])
  {
    if t > 0 {
      SumAtLeast(pcs[1..], t - 1, w);
    }
  }

  lemma {:induction false} SumZero(pcs: seq<Pc>, w: Pc -> nat)
    requires forall t :: 0 <= t < |pcs| ==> w(pcs[t]) == 0
    ensures Sum(pcs, w) == 0
  {
    if pcs != [] {
      SumZero(pcs[1..], w);
    }
  }

  // ----- The invariant -----

  /** The lock is held by exactly the thread inside the critical section. */
  ghost predicate MutexOk(s: State) {
    && (s.lock.Some? ==> s.lock.value < |s.pcs|)
    && forall t :: 0 <= t < |s.pcs| ==> (InCritical(s.pcs[t]) <==> s.lock == Some(t))
  }

  /** A push that is not posted yet, or a wait that has not popped yet. */
  function Owed(pc: Pc): nat {
    match pc
    case AtUnlockPushed | AtPost | AtLock | AtEmptyCheck | AtPop => 1
    case _ => 0
  }

  ghost predicate CountOk(s: State) {
    && |s.queue| == s.sem + Sum(s.pcs, Owed)
    && forall t :: 0 <= t < |s.pcs| ==> s.pcs[t] != AtUnlockEmpty
  }

  ghost predicate BoundOk(c: Config, s: State) {
    && |s.queue| <= c.maxRequest + 1
    && forall t :: 0 <= t < |s.pcs| && s.pcs[t].AtPush? ==> |s.queue| <= c.maxRequest
  }

  ghost predicate OrderOk(s: State) {
    s.dequeued + s.queue == s.accepted
  }

  /** Whether a thread has dequeued ticket `k` and not yet dealt with it. */
  function Holding(k: nat): Pc -> nat {
    (pc: Pc) => match pc
          case AtUnlock(_, j) => if j == k then 1 else 0
          case AtNullCheck(_, j) => if j == k then 1 else 0
          case AtProcess(_, j) => if j == k then 1 else 0
          case _ => 0
  }

  ghost predicate TicketOk(s: State, k: nat) {
    var held, done := Sum(s.pcs, Holding(k)), multiset(s.processed)[k];
    if k < |s.dequeued| then
      if s.dequeued[k] == Null then held <= 1 && done == 0 else held + done == 1
    else held == 0 && done == 0
  }

  ghost predicate RequestOk(s: State, pc: Pc) {
    match pc
    case AtUnlock(r, k) => k < |s.dequeued| && s.dequeued[k] == r
    case AtNullCheck(r, k) => k < |s.dequeued| && s.dequeued[k] == r
    case AtProcess(r, k) => k < |s.dequeued| && s.dequeued[k] == r && r != Null
    case _ => true
  }

  ghost predicate TicketsOk(s: State) {
    && (forall k: nat :: TicketOk(s, k))
    && forall t :: 0 <= t < |s.pcs| ==> RequestOk(s, s.pcs[t])
  }

  ghost predicate Inv(c: Config, s: State) {
    MutexOk(s) && CountOk(s) && BoundOk(c, s) && OrderOk(s) && TicketsOk(s)
  }

  lemma InitialInv(c: Config, s: State)
    requires Initial(s)
    ensures Inv(c, s)
  {
    SumZero(s.pcs, Owed);
    forall k: nat
      ensures TicketOk(s, k)
    {
      SumZero(s.pcs, Holding(k));
    }
  }

  lemma MutexKept(c: Config, s: State, t: nat)
    requires MutexOk(s) && CanStep(s, t)
    ensures MutexOk(StepOf(c, s, t))
  {}

  /** A step moves one thread. */
  lemma StepMoves(c: Config, s: State, t: nat)
    requires CanStep(s, t)
    ensures StepOf(c, s, t).pcs == s.pcs[t := StepOf(c, s, t).pcs[t]]
  {}

  /** What a step adds to the queue and takes off the semaphore, the thread owes. */
  lemma StepBalances(c: Config, s: State, t: nat)
    requires CanStep(s, t) && s.pcs[t] != AtUnlockEmpty && (s.pcs[t] == AtEmptyCheck ==> s.queue != [])
    ensures var s' := StepOf(c, s, t);
            && |s'.queue| - s'.sem - Owed(s'.pcs[t]) == |s.queue| - s.sem - Owed(s.pcs[t])
            && s'.pcs[t] != AtUnlockEmpty
  {}

  lemma CountKept(c: Config, s: State, t: nat)
    requires CountOk(s) && CanStep(s, t)
    ensures CountOk(StepOf(c, s, t))
  {
    var pc := StepOf(c, s, t).pcs[t];
    SumAtLeast(s.pcs, t, Owed);
    StepMoves(c, s, t);
    StepBalances(c, s, t);
    SumUpdate(s.pcs, t, pc, Owed);
  }

  lemma BoundKept(c: Config, s: State, t: nat)
    requires MutexOk(s) && BoundOk(c, s) && CanStep(s, t)
    ensures BoundOk(c, StepOf(c, s, t))
  {
    assert forall u :: 0 <= u < |s.pcs| && s.pcs[u].AtPush? ==> InCritical(s.pcs[u]);
  }

  lemma OrderKept(c: Config, s: State, t: nat)
    requires OrderOk(s) && CanStep(s, t)
    ensures OrderOk(StepOf(c, s, t))
  {
    var s' := StepOf(c, s, t);
    if s.pcs[t].AtPop? {
      assert s.queue == [s.queue[0]] + s.queue[1..];
    }
  }

  /** How a step changes who holds ticket `k` and how often it was processed. */
  lemma StepHolds(c: Config, s: State, t: nat, k: nat)
    requires CanStep(s, t)
    ensures var s', held := StepOf(c, s, t), Holding(k);
            var pc, pc' := s.pcs[t], s'.pcs[t];
            match pc
            case AtPop =>
              && s'.dequeued == s.dequeued + [s.queue[0]] && s'.processed == s.processed
              && held(pc) == 0 && held(pc') == (if k == |s.dequeued| then 1 else 0)
            case AtProcess(_, j) =>
              && s'.dequeued == s.dequeued && s'.processed == s.processed + [j]
              && held(pc) == (if j == k then 1 else 0) && held(pc') == 0
            case AtNullCheck(r, j) =>
              && s'.dequeued == s.dequeued && s'.processed == s.processed
              && held(pc) == (if j == k then 1 else 0)
              && held(pc') == (if r == Null then 0 else held(pc))
            case _ =>
              && s'.dequeued == s.dequeued && s'.processed == s.processed
              && held(pc') == held(pc)
  {}

  lemma TicketKept(c: Config, s: State, t: nat, k: nat)
    requires TicketOk(s, k) && CanStep(s, t) && RequestOk(s, s.pcs[t])
    ensures TicketOk(StepOf(c, s, t), k)
  {
    StepHolds(c, s, t, k);
    StepMoves(c, s, t);
    SumUpdate(s.pcs, t, StepOf(c, s, t).pcs[t], Holding(k));
    SumAtLeast(s.pcs, t, Holding(k));
  }

  lemma RequestKept(c: Config, s: State, t: nat, u: nat)
    requires CanStep(s, t) && RequestOk(s, s.pcs[t])
    requires u < |s.pcs| && RequestOk(s, s.pcs[u])
    ensures RequestOk(StepOf(c, s, t), StepOf(c, s, t).pcs[u])
  {}

  lemma TicketsKept(c: Config, s: State, t: nat)
    requires TicketsOk(s) && CanStep(s, t)
    ensures TicketsOk(StepOf(c, s, t))
  {
    var s' := StepOf(c, s, t);
    forall k: nat
      ensures TicketOk(s', k)
    {
      TicketKept(c, s, t, k);
    }
    forall u | 0 <= u < |s'.pcs|
      ensures RequestOk(s', s'.pcs[u])
    {
      RequestKept(c, s, t, u);
    }
  }

  lemma InvKept(c: Config, s: State, a: Action)
    requires Inv(c, s) && Enabled(s, a)
    ensures Inv(c, Next(c, s, a))
  {
    match a
    case Call(t, r) =>
      SumUpdate(s.pcs, t, AtAppendLock(r), Owed);
      forall k: nat
        ensures TicketOk(Next(c, s, a), k)
      {
        assert TicketOk(s, k);
        SumUpdate(s.pcs, t, AtAppendLock(r), Holding(k));
      }
    case Step(t) =>
      MutexKept(c, s, t);
      CountKept(c, s, t);
      BoundKept(c, s, t);
      OrderKept(c, s, t);
      TicketsKept(c, s, t);
    case Stop =>
      assert forall k: nat :: TicketOk(s, k) ==> TicketOk(Next(c, s, a), k);
  }

  lemma {:induction false} RunKeepsInv(c: Config, s: State, run: seq<Action>)
    requires Inv(c, s) && IsRun(c, s, run)
    ensures Inv(c, After(c, s, run))
    decreases |run|
  {
    if run != [] {
      InvKept(c, s, run[0]);
      RunKeepsInv(c, Next(c, s, run[0]), run[1..]);
    }
  }
}
