/** What the pool guarantees in every interleaving. */
module PoolTheorems {
  import opened Options
  import opened PoolModel

  /** Every state some run reaches from some initial state. */
  ghost predicate Reachable(c: Config, s: State) {
    exists s0, run :: Reaches(c, s0, run, s)
  }

  ghost predicate Reaches(c: Config, s0: State, run: seq<Action>, s: State) {
    Initial(s0) && IsRun(c, s0, run) && After(c, s0, run) == s
  }

  lemma ReachableInv(c: Config, s: State)
    requires Reachable(c, s)
    ensures Inv(c, s)
  {
    var s0, run :| Reaches(c, s0, run, s);
    InitialInv(c, s0);
    RunKeepsInv(c, s0, run);
  }

  // ----- Safety -----

  /** The queue is accounted for by the semaphore, by appenders that have not
      posted yet and by workers that have not popped yet; hence no worker ever
      finds the queue empty, and the mutex admits one thread at a time. */
  lemma SemaphoreAccounts(c: Config, s: State)
    requires Reachable(c, s)
    ensures |s.queue| == s.sem + Sum(s.pcs, Owed)
    ensures forall t :: 0 <= t < |s.pcs| && s.pcs[t] == AtEmptyCheck ==> s.queue != []
    ensures forall t :: 0 <= t < |s.pcs| ==> s.pcs[t] != AtUnlockEmpty
    ensures forall t :: 0 <= t < |s.pcs| && s.pcs[t] == AtPop ==> CanStep(s, t)
    ensures forall t, u :: 0 <= t < |s.pcs| && 0 <= u < |s.pcs| ==>
              InCritical(s.pcs[t]) && InCritical(s.pcs[u]) ==> t == u
  {
    ReachableInv(c, s);
    forall t | 0 <= t < |s.pcs| && Owed(s.pcs[t]) == 1
      ensures s.queue != []
    {
      SumAtLeast(s.pcs, t, Owed);
    }
  }

  /** Requests leave in the order they were accepted, none lost or invented,
      and at most one more than the configured maximum waits. */
  lemma ConservedInOrder(c: Config, s: State)
    requires Reachable(c, s)
    ensures s.dequeued + s.queue == s.accepted
    ensures |s.queue| <= c.maxRequest + 1
  {
    ReachableInv(c, s);
  }

  /** A dequeued request is processed at most once, a null one never; while it
      is unprocessed exactly one worker has it. */
  lemma ProcessedAtMostOnce(c: Config, s: State, k: nat)
    requires Reachable(c, s)
    ensures multiset(s.processed)[k] <= 1
    ensures multiset(s.processed)[k] == 1 ==> k < |s.dequeued| && s.dequeued[k] != Null && Sum(s.pcs, Holding(k)) == 0
    ensures k < |s.dequeued| && s.dequeued[k] != Null && multiset(s.processed)[k] == 0 ==> Sum(s.pcs, Holding(k)) == 1
  {
    ReachableInv(c, s);
    assert TicketOk(s, k);
  }

  /** No lost wake-up: with requests queued and nobody between them and the
      semaphore, every waiting worker can go on. */
  lemma NoLostWakeup(c: Config, s: State)
    requires Reachable(c, s) && s.queue != []
    requires forall t :: 0 <= t < |s.pcs| ==> Owed(s.pcs[t]) == 0
    ensures s.sem == |s.queue| > 0
    ensures forall t :: 0 <= t < |s.pcs| && s.pcs[t] == AtWait ==> CanStep(s, t)
  {
    ReachableInv(c, s);
    SumZero(s.pcs, Owed);
  }

  /** A request is refused exactly when more than the maximum is waiting. */
  lemma RefusedIffFull(c: Config, s: State, t: nat)
    requires Reachable(c, s) && t < |s.pcs| && s.pcs[t].AtSizeCheck?
    ensures CanStep(s, t)
    ensures StepOf(c, s, t).pcs[t] == AtUnlockFull <==> |s.queue| == c.maxRequest + 1
  {
    ReachableInv(c, s);
  }

  // ----- What append answers -----

  /** A thread that is in neither loop nor call can call, again and again, and the
      call carries its request. */
  lemma CallsBegin(c: Config, s: State, t: nat, r: Request)
    ensures Enabled(s, Call(t, r)) <==>
              t < |s.pcs| && s.pcs[t] in {Idle, Returned(true), Returned(false)}
    ensures Enabled(s, Call(t, r)) ==> Next(c, s, Call(t, r)) == s.(pcs := s.pcs[t := AtAppendLock(r)])
  {}

  predicate NoCallBy(run: seq<Action>, t: nat) {
    forall i :: 0 <= i < |run| && run[i].Call? ==> run[i].t != t
  }

  /** How far thread `t` has got with the request `r` whose size check came when
      `n` requests were accepted and the queue was `full` or not. */
  ghost predicate Answering(s: State, t: nat, r: Request, n: nat, full: bool)
    requires t < |s.pcs|
  {
    var pushed := |s.accepted| > n && s.accepted[n] == r;
    match s.pcs[t]
    case AtPush(r') => r' == r && !full && |s.accepted| == n
    case AtUnlockFull => full
    case AtUnlockPushed => !full && pushed
    case AtPost => !full && pushed
    case Returned(ok) => if ok then !full && pushed else full
    case _ => false
  }

  lemma AnsweringKept(c: Config, s: State, a: Action, t: nat, r: Request, n: nat, full: bool)
    requires MutexOk(s) && t < |s.pcs| && Answering(s, t, r, n, full) && Enabled(s, a)
    requires a.Call? ==> a.t != t
    ensures Answering(Next(c, s, a), t, r, n, full)
  {
    if a.Step? && a.t != t {
      assert !(InCritical(s.pcs[a.t]) && InCritical(s.pcs[t]));
    }
  }

  lemma {:induction false} AnswerStays(c: Config, s: State, run: seq<Action>, t: nat, r: Request, n: nat, full: bool)
    requires Inv(c, s) && t < |s.pcs| && Answering(s, t, r, n, full) && IsRun(c, s, run) && NoCallBy(run, t)
    ensures t < |After(c, s, run).pcs| && Answering(After(c, s, run), t, r, n, full)
    decreases |run|
  {
    if run != [] {
      AnsweringKept(c, s, run[0], t, r, n, full);
      InvKept(c, s, run[0]);
      AnswerStays(c, Next(c, s, run[0]), run[1..], t, r, n, full);
    }
  }

  lemma {:induction false} AnswersFrom(c: Config, s: State, run: seq<Action>, t: nat, r: Request, ok: bool)
    requires Inv(c, s) && t < |s.pcs| && s.pcs[t] == AtSizeCheck(r)
    requires IsRun(c, s, run) && NoCallBy(run, t)
    requires var e := After(c, s, run); t < |e.pcs| && e.pcs[t] == Returned(ok)
    ensures ok <==> |s.queue| <= c.maxRequest
    ensures ok ==> |After(c, s, run).accepted| > |s.accepted| && After(c, s, run).accepted[|s.accepted|] == r
    decreases |run|
  {
    var s' := Next(c, s, run[0]);
    InvKept(c, s, run[0]);
    if run[0] == Step(t) {
      AnswerStays(c, s', run[1..], t, r, |s.accepted|, |s.queue| > c.maxRequest);
    } else {
      HolderIsAlone(c, s, run[0], t);
      AnswersFrom(c, s', run[1..], t, r, ok);
    }
  }

  /** In every reachable state, `append` answers true exactly if at most the maximum
      is waiting when it looks; the request is then the next one accepted. */
  lemma AppendAnswers(c: Config, s: State, run: seq<Action>, t: nat, r: Request, ok: bool)
    requires Reachable(c, s) && t < |s.pcs| && s.pcs[t] == AtSizeCheck(r)
    requires IsRun(c, s, run) && NoCallBy(run, t)
    requires var e := After(c, s, run); t < |e.pcs| && e.pcs[t] == Returned(ok)
    ensures ok <==> |s.queue| <= c.maxRequest
    ensures ok ==> |After(c, s, run).accepted| > |s.accepted| && After(c, s, run).accepted[|s.accepted|] == r
  {
    ReachableInv(c, s);
    AnswersFrom(c, s, run, t, r, ok);
  }

  /** While a thread looks at the queue nobody else changes it. */
  lemma HolderIsAlone(c: Config, s: State, a: Action, t: nat)
    requires MutexOk(s) && t < |s.pcs| && InCritical(s.pcs[t]) && Enabled(s, a)
    requires a != Step(t) && (a.Call? ==> a.t != t)
    ensures var s' := Next(c, s, a);
            s'.pcs[t] == s.pcs[t] && s'.queue == s.queue && s'.accepted == s.accepted
  {
    if a.Step? {
      assert !InCritical(s.pcs[a.t]);
    }
  }

  /** From the call on: a request that is answered true was accepted since. */
  lemma {:induction false} AppendKeepsRequest(c: Config, s: State, run: seq<Action>, t: nat, r: Request, ok: bool)
    requires Inv(c, s) && t < |s.pcs| && s.pcs[t] == AtAppendLock(r)
    requires IsRun(c, s, run) && NoCallBy(run, t)
    requires var e := After(c, s, run); t < |e.pcs| && e.pcs[t] == Returned(ok)
    ensures ok ==> exists i :: |s.accepted| <= i < |After(c, s, run).accepted| && After(c, s, run).accepted[i] == r
    decreases |run|
  {
    var s' := Next(c, s, run[0]);
    InvKept(c, s, run[0]);
    assert |s'.accepted| >= |s.accepted|;
    if run[0] == Step(t) {
      AnswersFrom(c, s', run[1..], t, r, ok);
    } else {
      AppendKeepsRequest(c, s', run[1..], t, r, ok);
    }
  }

  /** The same for a whole call in any reachable state. */
  lemma CallAnswers(c: Config, s: State, t: nat, r: Request, run: seq<Action>, ok: bool)
    requires Reachable(c, s) && Enabled(s, Call(t, r))
    requires IsRun(c, Next(c, s, Call(t, r)), run) && NoCallBy(run, t)
    requires var e := After(c, Next(c, s, Call(t, r)), run); t < |e.pcs| && e.pcs[t] == Returned(ok)
    ensures var e := After(c, Next(c, s, Call(t, r)), run);
            ok ==> exists i :: |s.accepted| <= i < |e.accepted| && e.accepted[i] == r
  {
    ReachableInv(c, s);
    InvKept(c, s, Call(t, r));
    AppendKeepsRequest(c, Next(c, s, Call(t, r)), run, t, r, ok);
  }

  // ----- What a stop does to the intended loop -----

  /** A worker that has passed the guard and not popped yet. */
  function MayPop(pc: Pc): nat {
    match pc
    case AtWait | AtLock | AtEmptyCheck | AtPop => 1
    case _ => 0
  }

  /** After a stop a worker that tests the guard leaves. */
  lemma StoppedWorkerLeaves(c: Config, s: State, t: nat)
    requires c.guard == WhileNotStopped && s.stop && t < |s.pcs| && s.pcs[t] == AtGuard
    ensures CanStep(s, t) && StepOf(c, s, t) == s.(pcs := s.pcs[t := Exited])
  {}

  lemma StepAfterStop(c: Config, s: State, a: Action)
    requires c.guard == WhileNotStopped && s.stop && Enabled(s, a)
    ensures var s' := Next(c, s, a);
            s'.stop && |s'.dequeued| + Sum(s'.pcs, MayPop) <= |s.dequeued| + Sum(s.pcs, MayPop)
  {
    match a
    case Call(t, r) => SumUpdate(s.pcs, t, AtAppendLock(r), MayPop);
    case Step(t) =>
      StepMoves(c, s, t);
      SumUpdate(s.pcs, t, StepOf(c, s, t).pcs[t], MayPop);
    case Stop =>
  }

  /** So after a stop each worker past the guard dequeues at most one request, and
      no other worker any. */
  lemma {:induction false} AtMostOneEachAfterStop(c: Config, s: State, run: seq<Action>)
    requires c.guard == WhileNotStopped && s.stop && IsRun(c, s, run)
    ensures |After(c, s, run).dequeued| + Sum(After(c, s, run).pcs, MayPop) <= |s.dequeued| + Sum(s.pcs, MayPop)
    decreases |run|
  {
    if run != [] {
      StepAfterStop(c, s, run[0]);
      AtMostOneEachAfterStop(c, Next(c, s, run[0]), run[1..]);
    }
  }

  // ----- Progress -----

  /** Steps a thread can still take before it needs a new request. */
  function Ahead(pc: Pc): nat {
    match pc
    case AtAppendLock(_) => 13
    case AtSizeCheck(_) => 12
    case AtPush(_) => 11
    case AtUnlockPushed => 10
    case AtPost => 9
    case AtUnlockFull => 1
    case AtLock => 7
    case AtEmptyCheck => 6
    case AtPop => 5
    case AtUnlock(_, _) => 4
    case AtNullCheck(_, _) => 3
    case AtProcess(_, _) => 2
    case AtUnlockEmpty => 2
    case AtGuard => 1
    case _ => 0
  }

  function Rank(s: State): nat {
    8 * s.sem + Sum(s.pcs, Ahead)
  }

  lemma StepLowersRank(c: Config, s: State, t: nat)
    requires CanStep(s, t)
    ensures Rank(StepOf(c, s, t)) < Rank(s)
  {
    StepGetsOn(c, s, t);
    StepMoves(c, s, t);
    SumUpdate(s.pcs, t, StepOf(c, s, t).pcs[t], Ahead);
    SumAtLeast(s.pcs, t, Ahead);
  }

  lemma StepGetsOn(c: Config, s: State, t: nat)
    requires CanStep(s, t)
    ensures var s' := StepOf(c, s, t); 8 * s'.sem + Ahead(s'.pcs[t]) < 8 * s.sem + Ahead(s.pcs[t])
  {}

  lemma CallRaisesRank(c: Config, s: State, t: nat, r: Request)
    requires Enabled(s, Call(t, r))
    ensures Rank(Next(c, s, Call(t, r))) == Rank(s) + 13
  {
    SumUpdate(s.pcs, t, AtAppendLock(r), Ahead);
  }

  /** What the environment adds to a run: calls of `append` and stops. */
  function Budget(run: seq<Action>): nat {
    if run == [] then 0
    else (match run[0] case Call(_, _) => 14 case Stop => 1 case Step(_) => 0) + Budget(run[1..])
  }

  /** Every schedule is bounded by the state it starts in and the calls it gets:
      without new calls and stops it ends after boundedly many steps. */
  lemma {:induction false} SchedulesEnd(c: Config, s: State, run: seq<Action>)
    requires IsRun(c, s, run)
    ensures |run| + Rank(After(c, s, run)) <= Rank(s) + Budget(run)
    decreases |run|
  {
    if run != [] {
      match run[0] {
        case Call(t, r) => CallRaisesRank(c, s, t, r);
        case Step(t) => StepLowersRank(c, s, t);
        case Stop =>
      }
      SchedulesEnd(c, Next(c, s, run[0]), run[1..]);
    }
  }

  predicate Quiescent(s: State) {
    forall t :: 0 <= t < |s.pcs| ==> !CanStep(s, t)
  }

  predicate AllProcessedOnce(s: State) {
    forall k :: 0 <= k < |s.accepted| && s.accepted[k] != Null ==> multiset(s.processed)[k] == 1
  }

  /** A worker that was not told to leave. */
  ghost predicate HasWorker(s: State) {
    exists t :: 0 <= t < |s.pcs| && IsWorker(s.pcs[t]) && s.pcs[t] != Exited
  }

  lemma {:induction false} WorkerStays(c: Config, s: State, run: seq<Action>)
    requires IsRun(c, s, run) && Stop !in run && HasWorker(s)
    requires c.guard == WhileNotStopped && !s.stop
    ensures HasWorker(After(c, s, run)) && !After(c, s, run).stop
    decreases |run|
  {
    if run != [] {
      assert run[0] in run && run[0] != Stop;
      var t :| 0 <= t < |s.pcs| && IsWorker(s.pcs[t]) && s.pcs[t] != Exited;
      var s' := Next(c, s, run[0]);
      assert IsWorker(s'.pcs[t]) && s'.pcs[t] != Exited;
      WorkerStays(c, s', run[1..]);
    }
  }

  /** When nothing can move the lock is free and the queue is empty. */
  lemma QuiescentIsDrained(c: Config, s: State)
    requires Inv(c, s) && Quiescent(s) && HasWorker(s)
    ensures s.lock == None && s.queue == [] && s.dequeued == s.accepted
    ensures forall t :: 0 <= t < |s.pcs| ==> s.pcs[t] in {Idle, Returned(true), Returned(false), AtWait, Exited}
    ensures AllProcessedOnce(s)
  {
    assert s.lock == None by {
      if s.lock.Some? {
        var t := s.lock.value;
        assert InCritical(s.pcs[t]) && !CanStep(s, t);
        SumAtLeast(s.pcs, t, Owed);
      }
    }
    forall t | 0 <= t < |s.pcs|
      ensures s.pcs[t] in {Idle, Returned(true), Returned(false), AtWait, Exited}
    {
      assert !CanStep(s, t) && !InCritical(s.pcs[t]);
    }
    SumZero(s.pcs, Owed);
    var w :| 0 <= w < |s.pcs| && IsWorker(s.pcs[w]) && s.pcs[w] != Exited;
    assert s.pcs[w] == AtWait && !CanStep(s, w);
    forall k | 0 <= k < |s.accepted| && s.accepted[k] != Null
      ensures multiset(s.processed)[k] == 1
    {
      SumZero(s.pcs, Holding(k));
      assert TicketOk(s, k);
    }
  }

  /** With one worker and no stop, however the threads are scheduled and whatever
      calls they make, the steps are bounded by the calls, and whenever the pool
      is at rest every accepted request has been processed exactly once. */
  lemma EveryScheduleDrains(c: Config, s: State, run: seq<Action>)
    requires Reachable(c, s) && HasWorker(s) && c.guard == WhileNotStopped && !s.stop
    requires IsRun(c, s, run) && Stop !in run
    ensures |run| <= Rank(s) + Budget(run)
    ensures var e := After(c, s, run);
            Quiescent(e) ==> e.dequeued == e.accepted && AllProcessedOnce(e)
  {
    ReachableInv(c, s);
    RunKeepsInv(c, s, run);
    SchedulesEnd(c, s, run);
    WorkerStays(c, s, run);
    if Quiescent(After(c, s, run)) {
      QuiescentIsDrained(c, After(c, s, run));
    }
  }

  // ----- The loop guard as written -----

  ghost predicate NothingRan(s: State) {
    && !s.stop && s.dequeued == [] && s.processed == []
    && forall t :: 0 <= t < |s.pcs| && IsWorker(s.pcs[t]) ==> s.pcs[t] == AtGuard || s.pcs[t] == Exited
  }

  lemma {:induction false} NothingRuns(c: Config, s: State, run: seq<Action>)
    requires c.guard == WhileStopped && NothingRan(s) && IsRun(c, s, run) && Stop !in run
    ensures NothingRan(After(c, s, run))
    decreases |run|
  {
    if run != [] {
      assert run[0] in run && run[0] != Stop;
      StepRunsNothing(c, s, run[0]);
      NothingRuns(c, Next(c, s, run[0]), run[1..]);
    }
  }

  lemma StepRunsNothing(c: Config, s: State, a: Action)
    requires c.guard == WhileStopped && NothingRan(s) && Enabled(s, a) && a != Stop
    ensures NothingRan(Next(c, s, a))
  {
    match a
    case Call(t, r) =>
    case Step(t) => assert IsWorker(s.pcs[t]) ==> s.pcs[t] == AtGuard;
  }

  /** The guard on line 66 is inverted: as written, a pool that is not stopped
      never dequeues a request, so append fills the queue for good. */
  lemma AsWrittenNothingIsProcessed(c: Config, s0: State, run: seq<Action>)
    requires c.guard == WhileStopped && Initial(s0) && IsRun(c, s0, run) && Stop !in run
    ensures After(c, s0, run).dequeued == [] && After(c, s0, run).processed == []
    ensures After(c, s0, run).queue == After(c, s0, run).accepted
  {
    NothingRuns(c, s0, run);
    InitialInv(c, s0);
    RunKeepsInv(c, s0, run);
    var s := After(c, s0, run);
    assert [] + s.queue == s.queue;
  }

  /** The state in which a run is first told to stop; its last state if it never is. */
  function AtFirstStop(c: Config, s: State, run: seq<Action>): State
    requires IsRun(c, s, run)
    decreases |run|
  {
    if run == [] || run[0] == Stop then s else AtFirstStop(c, Next(c, s, run[0]), run[1..])
  }

  ghost predicate SomeoneAtGuard(s: State) {
    exists t :: 0 <= t < |s.pcs| && s.pcs[t] == AtGuard
  }

  /** Once stopped, a worker that is still there as written never leaves. */
  lemma {:induction false} StoppedWorkerStays(c: Config, s: State, run: seq<Action>)
    requires IsRun(c, s, run) && HasWorker(s)
    requires c.guard == WhileStopped && s.stop
    ensures HasWorker(After(c, s, run))
    decreases |run|
  {
    if run != [] {
      var t :| 0 <= t < |s.pcs| && IsWorker(s.pcs[t]) && s.pcs[t] != Exited;
      var s' := Next(c, s, run[0]);
      assert s'.stop && IsWorker(s'.pcs[t]) && s'.pcs[t] != Exited;
      StoppedWorkerStays(c, s', run[1..]);
    }
  }

  ghost predicate NobodyLeft(s: State) {
    s.processed == [] && forall t :: 0 <= t < |s.pcs| && IsWorker(s.pcs[t]) ==> s.pcs[t] == Exited
  }

  lemma {:induction false} NobodyComesBack(c: Config, s: State, run: seq<Action>)
    requires NobodyLeft(s) && IsRun(c, s, run)
    ensures NobodyLeft(After(c, s, run))
    decreases |run|
  {
    if run != [] {
      NobodyComesBack(c, Next(c, s, run[0]), run[1..]);
    }
  }

  /** With the guard as written, a pool at rest that has accepted some request has
      processed everything exactly once if and only if it was stopped while a
      worker had not tested the guard yet: stopping starts the workers that are
      left, and those that came earlier have left for good. */
  lemma AsWrittenDrainsIff(c: Config, s0: State, run: seq<Action>)
    requires c.guard == WhileStopped && Initial(s0) && IsRun(c, s0, run)
    requires Quiescent(After(c, s0, run))
    requires exists r :: r in After(c, s0, run).accepted && r != Null
    ensures AllProcessedOnce(After(c, s0, run)) <==> Stop in run && SomeoneAtGuard(AtFirstStop(c, s0, run))
  {
    InitialInv(c, s0);
    RunKeepsInv(c, s0, run);
    var e := After(c, s0, run);
    AsWrittenByFirstStop(c, s0, run);
    if Stop in run && SomeoneAtGuard(AtFirstStop(c, s0, run)) {
      QuiescentIsDrained(c, e);
    } else {
      var r :| r in e.accepted && r != Null;
      var k :| 0 <= k < |e.accepted| && e.accepted[k] == r;
      assert multiset(e.processed)[k] == 0;
    }
  }

  lemma {:induction false} AsWrittenByFirstStop(c: Config, s: State, run: seq<Action>)
    requires c.guard == WhileStopped && NothingRan(s) && IsRun(c, s, run)
    ensures if Stop in run && SomeoneAtGuard(AtFirstStop(c, s, run)) then HasWorker(After(c, s, run))
            else After(c, s, run).processed == []
    decreases |run|
  {
    if run != [] {
      var s' := Next(c, s, run[0]);
      if run[0] == Stop {
        if t :| 0 <= t < |s.pcs| && s.pcs[t] == AtGuard {
          assert IsWorker(s'.pcs[t]);
          StoppedWorkerStays(c, s', run[1..]);
        } else {
          NobodyComesBack(c, s', run[1..]);
        }
      } else {
        StepRunsNothing(c, s, run[0]);
        AsWrittenByFirstStop(c, s', run[1..]);
        assert Stop in run <==> Stop in run[1..];
      }
    }
  }

  lemma {:induction false} Extend(c: Config, s: State, run: seq<Action>, a: Action)
    requires IsRun(c, s, run) && Enabled(After(c, s, run), a)
    ensures IsRun(c, s, run + [a]) && After(c, s, run + [a]) == Next(c, After(c, s, run), a)
    decreases |run|
  {
    if run == [] {
      assert [] + [a] == [a];
    } else {
      Extend(c, Next(c, s, run[0]), run[1..], a);
      assert (run + [a])[1..] == run[1..] + [a];
    }
  }

  /** Lets thread `t` take its next step. */
  lemma Go(c: Config, s0: State, run: seq<Action>, t: nat) returns (run': seq<Action>, s: State)
    requires IsRun(c, s0, run) && CanStep(After(c, s0, run), t)
    ensures run' == run + [Step(t)] && IsRun(c, s0, run')
    ensures s == After(c, s0, run') == StepOf(c, After(c, s0, run), t)
  {
    Extend(c, s0, run, Step(t));
    run', s := run + [Step(t)], StepOf(c, After(c, s0, run), t);
  }

  /** Thread `u` appends `r` while the queue is empty and the lock free. */
  lemma Appends(c: Config, s0: State, run: seq<Action>, u: nat, r: Request) returns (run': seq<Action>)
    requires IsRun(c, s0, run)
    requires var s := After(c, s0, run); u < |s.pcs| && s.pcs[u] == Idle && s.lock == None && s.queue == []
    ensures IsRun(c, s0, run') && (Stop in run' <==> Stop in run)
    ensures var s := After(c, s0, run);
            After(c, s0, run') ==
            s.(pcs := s.pcs[u := Returned(true)], queue := [r], accepted := s.accepted + [r], sem := s.sem + 1)
  {
    run' := Pushes(c, s0, run, u, r);
    run' := Posts(c, s0, run', u);
  }

  lemma Pushes(c: Config, s0: State, run: seq<Action>, u: nat, r: Request) returns (run': seq<Action>)
    requires IsRun(c, s0, run)
    requires var s := After(c, s0, run); u < |s.pcs| && s.pcs[u] == Idle && s.lock == None && s.queue == []
    ensures IsRun(c, s0, run') && (Stop in run' <==> Stop in run)
    ensures var s := After(c, s0, run);
            After(c, s0, run') ==
            s.(pcs := s.pcs[u := AtUnlockPushed], lock := Some(u), queue := [r], accepted := s.accepted + [r])
  {
    Extend(c, s0, run, Call(u, r));
    var s';
    run' := run + [Call(u, r)];
    run', s' := Go(c, s0, run', u);
    run', s' := Go(c, s0, run', u);
    run', s' := Go(c, s0, run', u);
  }

  lemma Posts(c: Config, s0: State, run: seq<Action>, u: nat) returns (run': seq<Action>)
    requires IsRun(c, s0, run)
    requires var s := After(c, s0, run); u < |s.pcs| && s.pcs[u] == AtUnlockPushed
    ensures IsRun(c, s0, run') && (Stop in run' <==> Stop in run)
    ensures var s := After(c, s0, run);
            After(c, s0, run') == s.(pcs := s.pcs[u := Returned(true)], lock := None, sem := s.sem + 1)
  {
    var s';
    run', s' := Go(c, s0, run, u);
    run', s' := Go(c, s0, run', u);
  }

  /** Waiting worker `w` dequeues the only request. */
  lemma Takes(c: Config, s0: State, run: seq<Action>, w: nat, r: Request) returns (run': seq<Action>)
    requires IsRun(c, s0, run)
    requires var s := After(c, s0, run);
             w < |s.pcs| && s.pcs[w] == AtWait && s.lock == None && s.sem > 0 && s.queue == [r]
    ensures IsRun(c, s0, run') && (Stop in run' <==> Stop in run)
    ensures var s, s' := After(c, s0, run), After(c, s0, run');
            w < |s'.pcs| && s'.pcs[w] == AtUnlock(r, |s.dequeued|) && s'.processed == s.processed
  {
    var s;
    run', s := Go(c, s0, run, w);
    run', s := Go(c, s0, run', w);
    run', s := Go(c, s0, run', w);
    run', s := Go(c, s0, run', w);
  }

  /** Worker `w` processes what it dequeued. */
  lemma Finishes(c: Config, s0: State, run: seq<Action>, w: nat, r: Request, k: nat) returns (run': seq<Action>)
    requires IsRun(c, s0, run) && r != Null
    requires var s := After(c, s0, run); w < |s.pcs| && s.pcs[w] == AtUnlock(r, k)
    ensures IsRun(c, s0, run') && (Stop in run' <==> Stop in run)
    ensures After(c, s0, run').processed == After(c, s0, run).processed + [k]
  {
    var s;
    run', s := Go(c, s0, run, w);
    run', s := Go(c, s0, run', w);
    run', s := Go(c, s0, run', w);
  }

  /** From every initial pool with an appender and a worker a request can be
      processed; as written, and only as written, that takes a stop. */
  lemma ProcessingNeedsStopAsWritten(c: Config, s0: State, u: nat, w: nat, r: Request) returns (run: seq<Action>)
    requires Initial(s0) && u < |s0.pcs| && w < |s0.pcs| && s0.pcs[u] == Idle && s0.pcs[w] == AtGuard && r != Null
    ensures IsRun(c, s0, run) && After(c, s0, run).processed == [0]
    ensures Stop in run <==> c.guard == WhileStopped
  {
    run := [];
    if c.guard == WhileStopped {
      Extend(c, s0, run, Stop);
      run := run + [Stop];
    }
    var s;
    run, s := Go(c, s0, run, w);
    run := Appends(c, s0, run, u, r);
    run := Takes(c, s0, run, w, r);
    run := Finishes(c, s0, run, w, r, 0);
  }
}
