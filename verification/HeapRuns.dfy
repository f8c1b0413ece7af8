/** Whole runs of the timer heap, and its agreement with the sorted list. The
    heap cancels lazily where the list deletes at once. */
module HeapRuns {
  import opened Deadlines
  import opened HeapModel
  import opened ListRuns
  import opened Order
  import ListModel

  datatype Heap<T> = Heap(es: seq<Entry<T>>, cancelled: set<T>)

  /** The heap has no adjustment. */
  function HApply<T(==)>(h: Heap<T>, op: Op<T>): Heap<T> {
    match op
    case OpAdd(t, expire) => h.(es := HeapModel.Add(h.es, Entry(t, expire)))
    case OpDelete(t) => h.(cancelled := h.cancelled + {t})
    case OpAdjust(_, _) => h
    case OpTick(clock) => h.(es := Rest(h.es, clock))
  }

  /** What each tick of a run pops, and the callbacks it runs. */
  function HPops<T(==)>(h: Heap<T>, ops: seq<Op<T>>): seq<seq<Entry<T>>>
    decreases |ops|
  {
    if ops == [] then []
    else (if ops[0].OpTick? then [Popped(h.es, ops[0].clock)] else []) + HPops(HApply(h, ops[0]), ops[1..])
  }

  function HFires<T(==)>(h: Heap<T>, ops: seq<Op<T>>): seq<seq<Entry<T>>>
    decreases |ops|
  {
    if ops == [] then []
    else (if ops[0].OpTick? then [Alive(Popped(h.es, ops[0].clock), h.cancelled)] else [])
         + HFires(HApply(h, ops[0]), ops[1..])
  }

  lemma HFiresShift<T>(h: Heap<T>, ops: seq<Op<T>>)
    requires ops != []
    ensures var log, rest := HFires(h, ops), HFires(HApply(h, ops[0]), ops[1..]);
            if ops[0].OpTick? then
              ConsOf(log, Alive(Popped(h.es, ops[0].clock), h.cancelled), rest)
            else log == rest
  {
    if ops[0].OpTick? {
      Prepended(Alive(Popped(h.es, ops[0].clock), h.cancelled), HFires(HApply(h, ops[0]), ops[1..]));
    }
  }

  lemma HPopsShift<T>(h: Heap<T>, ops: seq<Op<T>>)
    requires ops != []
    ensures var log, rest := HPops(h, ops), HPops(HApply(h, ops[0]), ops[1..]);
            if ops[0].OpTick? then
              ConsOf(log, Popped(h.es, ops[0].clock), rest)
            else log == rest
  {
    if ops[0].OpTick? {
      Prepended(Popped(h.es, ops[0].clock), HPops(HApply(h, ops[0]), ops[1..]));
    }
  }

  lemma StepKeepsHeap<T>(h: Heap<T>, op: Op<T>)
    requires HeapOk(h.es)
    ensures HeapOk(HApply(h, op).es)
  {
    match op
    case OpAdd(t, expire) => AddKeeps(h.es, Entry(t, expire));
    case OpDelete(_) =>
    case OpAdjust(_, _) =>
    case OpTick(clock) => TickPopsDue(h.es, clock);
  }

  // ----- Cancelled timers -----

  lemma {:induction false} AliveCopies<T>(es: seq<Entry<T>>, cancelled: set<T>, x: Entry<T>)
    ensures multiset(Alive(es, cancelled))[x] == if x.timer in cancelled then 0 else multiset(es)[x]
  {
    if es != [] {
      AliveCopies(es[1..], cancelled, x);
      assert es == [es[0]] + es[1..];
    }
  }

  lemma {:induction false} AliveFrom<T>(es: seq<Entry<T>>, cancelled: set<T>)
    ensures forall i :: 0 <= i < |Alive(es, cancelled)| ==> Alive(es, cancelled)[i] in es
    ensures Sorted(es) ==> Sorted(Alive(es, cancelled))
  {
    if es != [] {
      AliveFrom(es[1..], cancelled);
      var rest := Alive(es[1..], cancelled);
      assert Alive(es, cancelled) == if es[0].timer in cancelled then rest else [es[0]] + rest;
    }
  }

  // ----- When a timer is popped and when its callback runs -----

  lemma HStepCopies<T>(h: Heap<T>, op: Op<T>, x: Entry<T>)
    requires HeapOk(h.es) && (op.OpAdd? ==> op.timer != x.timer)
    ensures !op.OpTick? ==> multiset(HApply(h, op).es)[x] == multiset(h.es)[x]
    ensures op.OpTick? ==>
              && multiset(Popped(h.es, op.clock))[x] == (if x.expire <= op.clock then multiset(h.es)[x] else 0)
              && multiset(Rest(h.es, op.clock))[x] == (if x.expire <= op.clock then 0 else multiset(h.es)[x])
  {
    match op
    case OpAdd(t, expire) => AddKeeps(h.es, Entry(t, expire));
    case OpDelete(_) =>
    case OpAdjust(_, _) =>
    case OpTick(clock) =>
      TickPopsDue(h.es, clock);
      var popped, rest := Popped(h.es, clock), Rest(h.es, clock);
      assert multiset(popped)[x] + multiset(rest)[x] == multiset(h.es)[x];
      assert clock < x.expire ==> x !in popped;
      assert x.expire <= clock ==> x !in rest;
  }

  predicate NotAdded<T(==)>(ops: seq<Op<T>>, t: T) {
    forall i :: 0 <= i < |ops| && ops[i].OpAdd? ==> ops[i].timer != t
  }

  /** The run cancels the timer before its first tick at or after the deadline. */
  predicate CancelledInTime<T(==)>(ops: seq<Op<T>>, t: T, expire: int) {
    ops != [] && (ops[0] == OpDelete(t)
                  || (!(ops[0].OpTick? && expire <= ops[0].clock) && CancelledInTime(ops[1..], t, expire)))
  }

  lemma {:induction false} PopsWhenDue<T>(h: Heap<T>, ops: seq<Op<T>>, x: Entry<T>)
    requires HeapOk(h.es) && NotAdded(ops, x.timer)
    ensures |HPops(h, ops)| == NumTicks(ops)
    ensures forall m :: 0 <= m < NumTicks(ops) ==>
              multiset(HPops(h, ops)[m])[x] == (if m == FirstDue(ops, x.expire) then multiset(h.es)[x] else 0)
    decreases |ops|
  {
    if ops != [] {
      StepKeepsHeap(h, ops[0]);
      HStepCopies(h, ops[0], x);
      PopsWhenDue(HApply(h, ops[0]), ops[1..], x);
      HPopsShift(h, ops);
    }
  }

  /** How often the m-th tick of the run is to call back a timer. */
  function CallbacksAt<T(==)>(h: Heap<T>, ops: seq<Op<T>>, x: Entry<T>, m: nat): nat {
    if m == FirstDue(ops, x.expire) && x.timer !in h.cancelled && !CancelledInTime(ops, x.timer, x.expire)
    then multiset(h.es)[x] else 0
  }

  lemma CallbacksShift<T>(h: Heap<T>, ops: seq<Op<T>>, x: Entry<T>, m: nat)
    requires HeapOk(h.es) && NotAdded(ops, x.timer) && ops != []
    ensures CallbacksAt(h, ops, x, m) ==
            if !ops[0].OpTick? then CallbacksAt(HApply(h, ops[0]), ops[1..], x, m)
            else if m == 0 then multiset(Alive(Popped(h.es, ops[0].clock), h.cancelled))[x]
            else CallbacksAt(HApply(h, ops[0]), ops[1..], x, m - 1)
  {
    HStepCopies(h, ops[0], x);
    if ops[0].OpTick? {
      AliveCopies(Popped(h.es, ops[0].clock), h.cancelled, x);
    }
  }

  lemma {:induction false} CallbackWhenDue<T>(h: Heap<T>, ops: seq<Op<T>>, x: Entry<T>, m: nat)
    requires HeapOk(h.es) && NotAdded(ops, x.timer)
    ensures |HFires(h, ops)| == NumTicks(ops)
    ensures m < NumTicks(ops) ==> multiset(HFires(h, ops)[m])[x] == CallbacksAt(h, ops, x, m)
    decreases |ops|
  {
    if ops != [] {
      StepKeepsHeap(h, ops[0]);
      CallbackWhenDue(HApply(h, ops[0]), ops[1..], x, if ops[0].OpTick? && m > 0 then m - 1 else m);
      CallbacksShift(h, ops, x, m);
      HFiresShift(h, ops);
    }
  }

  /** A timer leaves the heap on the first tick at or after its deadline, whether
      it was cancelled or not; its callback then runs exactly if it was not. */
  lemma RunsUnlessCancelled<T>(h: Heap<T>, ops: seq<Op<T>>, x: Entry<T>)
    requires HeapOk(h.es) && NotAdded(ops, x.timer)
    ensures |HPops(h, ops)| == |HFires(h, ops)| == NumTicks(ops)
    ensures forall m :: 0 <= m < NumTicks(ops) ==>
              multiset(HPops(h, ops)[m])[x] == (if m == FirstDue(ops, x.expire) then multiset(h.es)[x] else 0)
    ensures forall m :: 0 <= m < NumTicks(ops) ==>
              multiset(HFires(h, ops)[m])[x] ==
              if m == FirstDue(ops, x.expire) && x.timer !in h.cancelled && !CancelledInTime(ops, x.timer, x.expire)
              then multiset(h.es)[x] else 0
  {
    PopsWhenDue(h, ops, x);
    CallbackWhenDue(h, ops, x, 0);
    forall m: nat | m < NumTicks(ops)
      ensures multiset(HFires(h, ops)[m])[x] == CallbacksAt(h, ops, x, m)
    {
      CallbackWhenDue(h, ops, x, m);
    }
  }

  // ----- List and heap agree -----

  /** The list holds an entry as often as the heap does, unless it is cancelled. */
  ghost predicate Agree<T>(es: seq<Entry<T>>, h: Heap<T>, x: Entry<T>) {
    multiset(es)[x] == if x.timer in h.cancelled then 0 else multiset(h.es)[x]
  }

  /** Adds use timers that are not in the heap and were never cancelled, and
      nothing is adjusted. */
  predicate Allowed<T(==)>(h: Heap<T>, op: Op<T>) {
    && !op.OpAdjust?
    && (op.OpAdd? ==> op.timer !in h.cancelled && forall i :: 0 <= i < |h.es| ==> h.es[i].timer != op.timer)
  }

  predicate AllAllowed<T(==)>(h: Heap<T>, ops: seq<Op<T>>)
    decreases |ops|
  {
    ops == [] || (Allowed(h, ops[0]) && AllAllowed(HApply(h, ops[0]), ops[1..]))
  }

  lemma StepAgrees<T>(es: seq<Entry<T>>, h: Heap<T>, op: Op<T>, x: Entry<T>)
    requires Sorted(es) && HeapOk(h.es) && DistinctTimers(es) && Agree(es, h, x) && Allowed(h, op)
    ensures Agree(Apply(es, op), HApply(h, op), x)
    ensures op.OpTick? ==>
              multiset(ListModel.Due(es, op.clock))[x] == multiset(Alive(Popped(h.es, op.clock), h.cancelled))[x]
  {
    match op
    case OpAdd(t, expire) =>
      ListModel.InsertMultiset(es, Entry(t, expire));
      AddKeeps(h.es, Entry(t, expire));
    case OpDelete(t) =>
      if x.timer == t {
        DeletedIsGone(es, x);
      } else {
        StepCopies(es, op, x);
      }
    case OpTick(clock) =>
      StepCopies(es, op, x);
      HStepCopies(h, op, x);
      AliveCopies(Popped(h.es, clock), h.cancelled, x);
  }

  lemma DeletedIsGone<T>(es: seq<Entry<T>>, x: Entry<T>)
    requires DistinctTimers(es)
    ensures multiset(Apply(es, OpDelete(x.timer)))[x] == 0
  {
    var k := Find(es, x.timer);
    var r := Apply(es, OpDelete(x.timer));
    assert forall i :: 0 <= i < |r| ==> r[i] == if i < k then es[i] else es[i + 1];
    assert x !in r;
  }

  lemma InsertDistinct<T>(es: seq<Entry<T>>, e: Entry<T>)
    requires DistinctTimers(es) && forall i :: 0 <= i < |es| ==> es[i].timer != e.timer
    ensures DistinctTimers(ListModel.Insert(es, e))
  {
    var k := ListModel.InsertAt(es, e);
    var r := ListModel.Insert(es, e);
    assert forall i :: 0 <= i < |r| ==> r[i] == if i < k then es[i] else if i == k then e else es[i - 1];
  }

  lemma StepDistinct<T>(es: seq<Entry<T>>, op: Op<T>)
    requires DistinctTimers(es) && !op.OpAdjust?
    requires op.OpAdd? ==> forall i :: 0 <= i < |es| ==> es[i].timer != op.timer
    ensures DistinctTimers(Apply(es, op))
  {
    match op
    case OpAdd(t, expire) => InsertDistinct(es, Entry(t, expire));
    case OpDelete(t) =>
      if Find(es, t) < |es| {
        RemoveDistinct(es, Find(es, t));
      }
    case OpTick(clock) =>
      ListModel.TickSplits(es, clock);
      SuffixDistinct(ListModel.Due(es, clock), ListModel.Kept(es, clock));
  }

  lemma RemoveDistinct<T>(es: seq<Entry<T>>, k: nat)
    requires DistinctTimers(es) && k < |es|
    ensures DistinctTimers(ListModel.RemoveAt(es, k))
  {
    var r := ListModel.RemoveAt(es, k);
    assert forall i :: 0 <= i < |r| ==> r[i] == es[if i < k then i else i + 1];
  }

  lemma SuffixDistinct<T>(a: seq<Entry<T>>, b: seq<Entry<T>>)
    requires DistinctTimers(a + b)
    ensures DistinctTimers(b)
  {
    assert forall i :: 0 <= i < |b| ==> b[i] == (a + b)[|a| + i];
  }

  /** What is not in the heap is not in the list. */
  lemma FreshInList<T>(es: seq<Entry<T>>, h: Heap<T>, op: Op<T>)
    requires Allowed(h, op) && op.OpAdd? && forall x :: x in es ==> Agree(es, h, x)
    ensures forall i :: 0 <= i < |es| ==> es[i].timer != op.timer
  {
    forall i | 0 <= i < |es|
      ensures es[i].timer != op.timer
    {
      assert Agree(es, h, es[i]);
      assert multiset(es)[es[i]] > 0;
      assert es[i] in h.es;
    }
  }

  lemma TickFiresTheSame<T>(es: seq<Entry<T>>, h: Heap<T>, clock: int)
    requires Sorted(es) && HeapOk(h.es) && DistinctTimers(es) && forall x :: Agree(es, h, x)
    ensures multiset(ListModel.Due(es, clock)) == multiset(Alive(Popped(h.es, clock), h.cancelled))
  {
    var due, fires := ListModel.Due(es, clock), Alive(Popped(h.es, clock), h.cancelled);
    forall x: Entry<T>
      ensures multiset(due)[x] == multiset(fires)[x]
    {
      assert Agree(es, h, x);
      StepAgrees(es, h, OpTick(clock), x);
    }
    SameCounts(due, fires);
  }

  lemma TickFiresSorted<T>(es: seq<Entry<T>>, h: Heap<T>, clock: int)
    requires Sorted(es) && HeapOk(h.es)
    ensures Sorted(ListModel.Due(es, clock)) && Sorted(Alive(Popped(h.es, clock), h.cancelled))
  {
    ListModel.TickFiresDue(es, clock);
    TickPopsDue(h.es, clock);
    AliveFrom(Popped(h.es, clock), h.cancelled);
  }

  lemma StepKeepsAgreement<T>(es: seq<Entry<T>>, h: Heap<T>, op: Op<T>)
    requires Sorted(es) && HeapOk(h.es) && DistinctTimers(es) && Allowed(h, op)
    requires forall x :: Agree(es, h, x)
    ensures Sorted(Apply(es, op)) && HeapOk(HApply(h, op).es) && DistinctTimers(Apply(es, op))
    ensures forall x :: Agree(Apply(es, op), HApply(h, op), x)
  {
    forall x: Entry<T>
      ensures Agree(Apply(es, op), HApply(h, op), x)
    {
      StepAgrees(es, h, op, x);
    }
    if op.OpAdd? {
      FreshInList(es, h, op);
    }
    StepDistinct(es, op);
    StepSorted(es, op);
    StepKeepsHeap(h, op);
  }

  /** Over every run of adds, deletions and ticks the list and the heap fire the
      same timers on the same ticks, each in non-decreasing order. */
  lemma {:induction false} ListAndHeapAgree<T>(es: seq<Entry<T>>, h: Heap<T>, ops: seq<Op<T>>)
    requires Sorted(es) && HeapOk(h.es) && DistinctTimers(es) && AllAllowed(h, ops)
    requires forall x :: Agree(es, h, x)
    ensures |Fires(es, ops)| == |HFires(h, ops)|
    ensures forall m :: 0 <= m < |Fires(es, ops)| ==>
              && multiset(Fires(es, ops)[m]) == multiset(HFires(h, ops)[m])
              && Sorted(Fires(es, ops)[m]) && Sorted(HFires(h, ops)[m])
    decreases |ops|
  {
    if ops != [] {
      StepKeepsAgreement(es, h, ops[0]);
      ListAndHeapAgree(Apply(es, ops[0]), HApply(h, ops[0]), ops[1..]);
      FiresShift(es, ops);
      HFiresShift(h, ops);
      if ops[0].OpTick? {
        TickFiresTheSame(es, h, ops[0].clock);
        TickFiresSorted(es, h, ops[0].clock);
      }
    }
  }

  /** In particular when both start empty. */
  lemma FromEmptyTheyAgree<T>(ops: seq<Op<T>>)
    requires AllAllowed(Heap([], {}), ops)
    ensures |Fires([], ops)| == |HFires(Heap([], {}), ops)| == NumTicks(ops)
    ensures forall m :: 0 <= m < NumTicks(ops) ==>
              && multiset(Fires([], ops)[m]) == multiset(HFires(Heap([], {}), ops)[m])
              && Sorted(Fires([], ops)[m]) && Sorted(HFires(Heap([], {}), ops)[m])
  {
    ListAndHeapAgree([], Heap([], {}), ops);
    TicksLogged(Heap([], {}), ops);
  }

  lemma {:induction false} TicksLogged<T>(h: Heap<T>, ops: seq<Op<T>>)
    ensures |HFires(h, ops)| == NumTicks(ops)
    decreases |ops|
  {
    if ops != [] {
      TicksLogged(HApply(h, ops[0]), ops[1..]);
      HFiresShift(h, ops);
    }
  }

  // ----- What a heap stands for -----

  /** `h` has the timers `es`, and has cancelled the same of them. */
  ghost predicate Stands<T>(h: Heap<T>, es: seq<Entry<T>>, cancelled: set<T>) {
    h.es == es && forall e :: e in es ==> (e.timer in h.cancelled <==> e.timer in cancelled)
  }

  /** Only the cancelled timers in the heap matter. */
  lemma {:induction false} SameAlive<T>(es: seq<Entry<T>>, a: set<T>, b: set<T>)
    requires forall e :: e in es ==> (e.timer in a <==> e.timer in b)
    ensures Alive(es, a) == Alive(es, b)
  {
    if es != [] {
      assert es[0] in es;
      SameAlive(es[1..], a, b);
    }
  }

  lemma TickedFrom<T>(es: seq<Entry<T>>, clock: int)
    requires HeapOk(es)
    ensures forall e :: e in Popped(es, clock) || e in Rest(es, clock) ==> e in es
  {
    TickConserves(es, clock);
    FromMultiset(es, Popped(es, clock));
    FromMultiset(es, Rest(es, clock));
  }
}
