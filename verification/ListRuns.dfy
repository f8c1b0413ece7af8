/** Whole runs of the sorted timer list: any adds, deletions, adjustments and
    ticks, in any order and at any clock values. */
module ListRuns {
  import opened Deadlines
  import opened ListModel
  import opened Order

  datatype Op<T> =
    | OpAdd(timer: T, expire: int)
    | OpDelete(timer: T)
    | OpAdjust(timer: T, expire: int)
    | OpTick(clock: int)

  /** The position of a timer; the length of the list when it is not there. */
  function Find<T(==)>(es: seq<Entry<T>>, t: T): (k: nat)
    ensures k <= |es| && (k < |es| ==> es[k].timer == t)
    ensures forall i :: 0 <= i < k ==> es[i].timer != t
  {
    if es == [] || es[0].timer == t then 0 else 1 + Find(es[1..], t)
  }

  function Apply<T(==)>(es: seq<Entry<T>>, op: Op<T>): seq<Entry<T>> {
    match op
    case OpAdd(t, expire) => Insert(es, Entry(t, expire))
    case OpDelete(t) =>
      var k := Find(es, t);
      if k < |es| then RemoveAt(es, k) else es
    case OpAdjust(t, expire) =>
      var k := Find(es, t);
      if k < |es| then AdjustAt(es[k := Entry(t, expire)], k) else es
    case OpTick(clock) => Kept(es, clock)
  }

  /** What each tick of a run fires, in order. */
  function Fires<T(==)>(es: seq<Entry<T>>, ops: seq<Op<T>>): seq<seq<Entry<T>>>
    decreases |ops|
  {
    if ops == [] then []
    else (if ops[0].OpTick? then [Due(es, ops[0].clock)] else []) + Fires(Apply(es, ops[0]), ops[1..])
  }

  lemma FiresShift<T>(es: seq<Entry<T>>, ops: seq<Op<T>>)
    requires ops != []
    ensures var log, rest := Fires(es, ops), Fires(Apply(es, ops[0]), ops[1..]);
            if ops[0].OpTick? then
              ConsOf(log, Due(es, ops[0].clock), rest)
            else log == rest
  {
    if ops[0].OpTick? {
      Prepended(Due(es, ops[0].clock), Fires(Apply(es, ops[0]), ops[1..]));
    }
  }

  // ----- The list stays sorted -----

  /** An adjustment does not move the deadline before the predecessor's. */
  predicate InOrder<T(==)>(es: seq<Entry<T>>, op: Op<T>) {
    op.OpAdjust? ==>
      var k := Find(es, op.timer);
      0 < k < |es| ==> es[k - 1].expire <= op.expire
  }

  predicate AllInOrder<T(==)>(es: seq<Entry<T>>, ops: seq<Op<T>>)
    decreases |ops|
  {
    ops == [] || (InOrder(es, ops[0]) && AllInOrder(Apply(es, ops[0]), ops[1..]))
  }

  predicate SortedThroughout<T(==)>(es: seq<Entry<T>>, ops: seq<Op<T>>)
    decreases |ops|
  {
    Sorted(es) && (ops != [] ==> SortedThroughout(Apply(es, ops[0]), ops[1..]))
  }

  lemma AdjustStepSorted<T>(es: seq<Entry<T>>, k: nat, e: Entry<T>)
    requires Sorted(es) && k < |es|
    ensures Sorted(AdjustAt(es[k := e], k)) <==> k == 0 || es[k - 1].expire <= e.expire
  {
    var es' := es[k := e];
    assert RemoveAt(es', k) == RemoveAt(es, k);
    if k == 0 || es[k - 1].expire <= e.expire {
      var _ := AdjustSorted(es', k);
    } else {
      AdjustTooEarly(es', k);
    }
  }

  lemma StepSorted<T>(es: seq<Entry<T>>, op: Op<T>)
    requires Sorted(es)
    ensures Sorted(Apply(es, op)) <==> InOrder(es, op)
  {
    match op
    case OpAdd(t, expire) => var _ := InsertSorted(es, Entry(t, expire));
    case OpDelete(t) =>
      if Find(es, t) < |es| {
        RemoveSorted(es, Find(es, t));
      }
    case OpAdjust(t, expire) =>
      if Find(es, t) < |es| {
        AdjustStepSorted(es, Find(es, t), Entry(t, expire));
      }
    case OpTick(clock) => TickFiresDue(es, clock);
  }

  /** A run keeps the list sorted exactly when every adjustment is in order;
      adds, deletions and ticks always keep it. */
  lemma {:induction false} RunSorted<T>(es: seq<Entry<T>>, ops: seq<Op<T>>)
    requires Sorted(es)
    ensures SortedThroughout(es, ops) <==> AllInOrder(es, ops)
    decreases |ops|
  {
    if ops != [] {
      StepSorted(es, ops[0]);
      if InOrder(es, ops[0]) {
        RunSorted(Apply(es, ops[0]), ops[1..]);
      }
    }
  }

  // ----- When a timer fires -----

  predicate Untouched<T(==)>(ops: seq<Op<T>>, t: T) {
    forall i :: 0 <= i < |ops| && !ops[i].OpTick? ==> ops[i].timer != t
  }

  function NumTicks<T>(ops: seq<Op<T>>): nat {
    if ops == [] then 0 else (if ops[0].OpTick? then 1 else 0) + NumTicks(ops[1..])
  }

  /** Which tick of the run is the first at or after the deadline; the number of
      ticks when there is none. */
  function FirstDue<T>(ops: seq<Op<T>>, expire: int): nat {
    if ops == [] || (ops[0].OpTick? && expire <= ops[0].clock) then 0
    else (if ops[0].OpTick? then 1 else 0) + FirstDue(ops[1..], expire)
  }

  /** An operation on another timer leaves an entry alone, except that a tick at
      or after its deadline fires all there is of it. */
  lemma StepCopies<T>(es: seq<Entry<T>>, op: Op<T>, x: Entry<T>)
    requires Sorted(es) && (!op.OpTick? ==> op.timer != x.timer)
    ensures !op.OpTick? ==> multiset(Apply(es, op))[x] == multiset(es)[x]
    ensures op.OpTick? ==>
              && multiset(Due(es, op.clock))[x] == (if x.expire <= op.clock then multiset(es)[x] else 0)
              && multiset(Kept(es, op.clock))[x] == (if x.expire <= op.clock then 0 else multiset(es)[x])
  {
    match op
    case OpAdd(t, expire) => InsertMultiset(es, Entry(t, expire));
    case OpDelete(t) =>
      var k := Find(es, t);
      if k < |es| {
        RemoveMultiset(es, k);
      }
    case OpAdjust(t, expire) =>
      var k := Find(es, t);
      if k < |es| {
        AdjustMultiset(es[k := Entry(t, expire)], k);
      }
    case OpTick(clock) =>
      TickFiresDue(es, clock);
      var due, kept := Due(es, clock), Kept(es, clock);
      assert multiset(es) == multiset(due) + multiset(kept);
      assert clock < x.expire ==> x !in due;
      assert x.expire <= clock ==> x !in kept;
  }

  /** The m-th tick fires an entry the run does not touch exactly if it is the
      first at or after its deadline. */
  lemma {:induction false} FiresWhenDue<T>(es: seq<Entry<T>>, ops: seq<Op<T>>, x: Entry<T>)
    requires SortedThroughout(es, ops) && Untouched(ops, x.timer)
    ensures |Fires(es, ops)| == NumTicks(ops)
    ensures forall m :: 0 <= m < NumTicks(ops) ==>
              multiset(Fires(es, ops)[m])[x] == (if m == FirstDue(ops, x.expire) then multiset(es)[x] else 0)
    decreases |ops|
  {
    if ops != [] {
      var es', rest := Apply(es, ops[0]), ops[1..];
      StepCopies(es, ops[0], x);
      FiresWhenDue(es', rest, x);
      FiresShift(es, ops);
      var log := Fires(es, ops);
      if ops[0].OpTick? {
        forall m | 1 <= m < |log|
          ensures multiset(log[m])[x] == (if m == FirstDue(ops, x.expire) then multiset(es)[x] else 0)
        {
          assert log[m] == Fires(es', rest)[m - 1];
        }
      }
    }
  }

  /** As long as adjustments are in order, a timer that is added and then left
      alone fires exactly once, on the first tick at or after its deadline. */
  lemma FiresExactlyOnce<T>(es: seq<Entry<T>>, t: T, expire: int, ops: seq<Op<T>>)
    requires Sorted(es) && t !in Timers(es)
    requires AllInOrder(Insert(es, Entry(t, expire)), ops) && Untouched(ops, t)
    ensures var log := Fires(Insert(es, Entry(t, expire)), ops);
            && |log| == NumTicks(ops)
            && forall m, d :: 0 <= m < |log| ==>
                 multiset(log[m])[Entry(t, d)] == (if m == FirstDue(ops, expire) && d == expire then 1 else 0)
  {
    var es' := Insert(es, Entry(t, expire));
    InsertMultiset(es, Entry(t, expire));
    StepSorted(es, OpAdd(t, expire));
    RunSorted(es', ops);
    FiresWhenDue(es', ops, Entry(t, expire));
    forall d: int
      ensures multiset(es')[Entry(t, d)] == (if d == expire then 1 else 0)
      ensures forall m :: 0 <= m < NumTicks(ops) ==>
                multiset(Fires(es', ops)[m])[Entry(t, d)] ==
                if m == FirstDue(ops, d) then multiset(es')[Entry(t, d)] else 0
    {
      assert Entry(t, d) !in es by {
        assert forall i :: 0 <= i < |es| ==> es[i].timer == Timers(es)[i];
      }
      FiresWhenDue(es', ops, Entry(t, d));
    }
  }

  // ----- When a timer fires on any list, sorted or not -----

  function Times<T(==)>(es: seq<Entry<T>>, t: T): nat {
    multiset(Timers(es))[t]
  }

  /** The timer and everything in front of it are due. */
  predicate Clear<T(==)>(es: seq<Entry<T>>, t: T, clock: int) {
    var k := Find(es, t);
    k < |es| && forall j :: 0 <= j <= k ==> es[j].expire <= clock
  }

  /** Which tick of the run is the first that finds the timer clear; the number
      of ticks when there is none. */
  function FirstClear<T(==)>(es: seq<Entry<T>>, ops: seq<Op<T>>, t: T): nat
    decreases |ops|
  {
    if ops == [] || (ops[0].OpTick? && Clear(es, t, ops[0].clock)) then 0
    else (if ops[0].OpTick? then 1 else 0) + FirstClear(Apply(es, ops[0]), ops[1..], t)
  }

  lemma TimesAround<T>(p: seq<Entry<T>>, x: Entry<T>, q: seq<Entry<T>>, t: T)
    requires x.timer != t
    ensures Times(p + [x] + q, t) == Times(p + q, t) == Times(p, t) + Times(q, t)
  {
    TimersAround(p, x, q);
  }

  lemma StepTimes<T>(es: seq<Entry<T>>, op: Op<T>, t: T)
    requires !op.OpTick? && op.timer != t
    ensures Times(Apply(es, op), t) == Times(es, t)
  {
    match op
    case OpAdd(u, expire) =>
      var k := InsertAt(es, Entry(u, expire));
      assert es == es[..k] + es[k..];
      TimesAround(es[..k], Entry(u, expire), es[k..], t);
    case OpDelete(u) =>
      var k := Find(es, u);
      if k < |es| {
        RemoveTimes(es, k, t);
      }
    case OpAdjust(u, expire) =>
      var k := Find(es, u);
      if k < |es| {
        var es' := es[k := Entry(u, expire)];
        assert Timers(es') == Timers(es);
        AdjustTimes(es', k, t);
      }
  }

  lemma RemoveTimes<T>(es: seq<Entry<T>>, k: nat, t: T)
    requires k < |es| && es[k].timer != t
    ensures Times(RemoveAt(es, k), t) == Times(es, t)
  {
    assert es == es[..k] + [es[k]] + es[k + 1..];
    TimesAround(es[..k], es[k], es[k + 1..], t);
  }

  lemma AdjustTimes<T>(es: seq<Entry<T>>, k: nat, t: T)
    requires k < |es| && es[k].timer != t
    ensures Times(AdjustAt(es, k), t) == Times(es, t)
  {
    if AdjustAt(es, k) != es {
      var p, q := Reinserted(es, k);
      RemoveTimes(es, k, t);
      TimesAround(p, es[k], q, t);
    }
  }

  lemma TickTimes<T>(es: seq<Entry<T>>, t: T, clock: int)
    requires Times(es, t) <= 1
    ensures Times(Due(es, clock), t) == if Clear(es, t, clock) then 1 else 0
    ensures Times(Kept(es, clock), t) == Times(es, t) - Times(Due(es, clock), t)
  {
    var due, kept, k := Due(es, clock), Kept(es, clock), Find(es, t);
    TickSplits(es, clock);
    assert Timers(es) == Timers(due) + Timers(kept);
    if k < |es| {
      DueUpTo(es, clock, k);
      assert es[k] == (due + kept)[k];
    }
    if Clear(es, t, clock) {
      assert Timers(due)[k] == t;
    } else {
      assert forall i :: 0 <= i < |due| ==> Timers(due)[i] == (due + kept)[i].timer != t;
    }
  }

  /** On any list, and whatever adjustments other timers get, a timer that is left
      alone fires exactly once, on the first tick by which it and everything in
      front of it are due. */
  lemma {:induction false} FiresWhenClear<T>(es: seq<Entry<T>>, ops: seq<Op<T>>, t: T)
    requires Untouched(ops, t) && Times(es, t) <= 1
    ensures |Fires(es, ops)| == NumTicks(ops)
    ensures forall m :: 0 <= m < NumTicks(ops) ==>
              Times(Fires(es, ops)[m], t) == (if m == FirstClear(es, ops, t) then Times(es, t) else 0)
    decreases |ops|
  {
    if ops != [] {
      var es', rest := Apply(es, ops[0]), ops[1..];
      if ops[0].OpTick? {
        TickTimes(es, t, ops[0].clock);
      } else {
        StepTimes(es, ops[0], t);
      }
      FiresWhenClear(es', rest, t);
      FiresShift(es, ops);
      if ops[0].OpTick? {
        var log := Fires(es, ops);
        assert forall m :: 1 <= m < |log| ==> log[m] == Fires(es', rest)[m - 1];
      }
    }
  }

  // ----- The order within a tick -----

  lemma TimersAround<T>(p: seq<Entry<T>>, x: Entry<T>, q: seq<Entry<T>>)
    ensures Timers(p + [x] + q) == Timers(p) + [x.timer] + Timers(q)
    ensures Timers(p + q) == Timers(p) + Timers(q)
  {}

  lemma InsertKeepsOrder<T>(es: seq<Entry<T>>, x: Entry<T>, a: T, b: T)
    requires x.timer != a && x.timer != b && Precedes(Timers(es), a, b)
    ensures Precedes(Timers(Insert(es, x)), a, b)
  {
    var k := InsertAt(es, x);
    assert es == es[..k] + es[k..];
    TimersAround(es[..k], x, es[k..]);
    PrecedesAround(Timers(es[..k]), x.timer, Timers(es[k..]), a, b);
  }

  lemma RemoveKeepsOrder<T>(es: seq<Entry<T>>, k: nat, a: T, b: T)
    requires k < |es| && es[k].timer != a && es[k].timer != b && Precedes(Timers(es), a, b)
    ensures Precedes(Timers(RemoveAt(es, k)), a, b)
  {
    assert es == es[..k] + [es[k]] + es[k + 1..];
    TimersAround(es[..k], es[k], es[k + 1..]);
    PrecedesAround(Timers(es[..k]), es[k].timer, Timers(es[k + 1..]), a, b);
  }

  lemma AdjustKeepsOrder<T>(es: seq<Entry<T>>, k: nat, a: T, b: T)
    requires k < |es| && es[k].timer != a && es[k].timer != b && Precedes(Timers(es), a, b)
    ensures Precedes(Timers(AdjustAt(es, k)), a, b)
  {
    if AdjustAt(es, k) != es {
      var p, q := Reinserted(es, k);
      RemoveKeepsOrder(es, k, a, b);
      TimersAround(p, es[k], q);
      PrecedesAround(Timers(p), es[k].timer, Timers(q), a, b);
    }
  }

  lemma Reinserted<T>(es: seq<Entry<T>>, k: nat) returns (p: seq<Entry<T>>, q: seq<Entry<T>>)
    requires k < |es| && AdjustAt(es, k) != es
    ensures AdjustAt(es, k) == p + [es[k]] + q && RemoveAt(es, k) == p + q
  {
    var behind := es[k + 1..];
    var j := InsertAt(behind, es[k]);
    p, q := es[..k] + behind[..j], behind[j..];
    assert AdjustAt(es, k) == p + [es[k]] + q by {
      Regroup(behind[..j], [es[k]], q);
      Regroup(es[..k], behind[..j], [es[k]] + q);
    }
    assert RemoveAt(es, k) == p + q by {
      assert behind == behind[..j] + q;
      Regroup(es[..k], behind[..j], q);
    }
  }

  lemma StepKeepsOrder<T>(es: seq<Entry<T>>, op: Op<T>, a: T, b: T)
    requires Precedes(Timers(es), a, b) && (!op.OpTick? ==> op.timer != a && op.timer != b)
    ensures Precedes(Timers(Apply(es, op)), a, b)
    ensures op.OpTick? ==> Precedes(Timers(Due(es, op.clock)), a, b)
  {
    match op
    case OpAdd(t, expire) => InsertKeepsOrder(es, Entry(t, expire), a, b);
    case OpDelete(t) =>
      var k := Find(es, t);
      if k < |es| {
        RemoveKeepsOrder(es, k, a, b);
      }
    case OpAdjust(t, expire) =>
      var k := Find(es, t);
      if k < |es| {
        var es' := es[k := Entry(t, expire)];
        assert Timers(es') == Timers(es);
        AdjustKeepsOrder(es', k, a, b);
      }
    case OpTick(clock) =>
      TickSplits(es, clock);
      assert Timers(es) == Timers(Due(es, clock)) + Timers(Kept(es, clock));
      PrecedesPart(Timers(Due(es, clock)), Timers(Kept(es, clock)), a, b);
  }

  lemma {:induction false} RunKeepsOrder<T>(es: seq<Entry<T>>, ops: seq<Op<T>>, a: T, b: T)
    requires Precedes(Timers(es), a, b) && Untouched(ops, a) && Untouched(ops, b)
    ensures forall m :: 0 <= m < |Fires(es, ops)| ==> Precedes(Timers(Fires(es, ops)[m]), a, b)
    decreases |ops|
  {
    if ops != [] {
      StepKeepsOrder(es, ops[0], a, b);
      RunKeepsOrder(Apply(es, ops[0]), ops[1..], a, b);
      FiresShift(es, ops);
    }
  }

  /** A timer added behind one with an equal or earlier deadline never fires
      before it, unless one of the two is adjusted, deleted or added again. */
  lemma EarlierAddedFiresFirst<T>(es: seq<Entry<T>>, older: T, newer: T, expire: int, ops: seq<Op<T>>)
    requires Sorted(es) && newer !in Timers(es) && older != newer
    requires forall i :: 0 <= i < |es| && es[i].timer == older ==> es[i].expire <= expire
    requires Untouched(ops, older) && Untouched(ops, newer)
    ensures var log := Fires(Insert(es, Entry(newer, expire)), ops);
            forall m :: 0 <= m < |log| ==> Precedes(Timers(log[m]), older, newer)
  {
    var x := Entry(newer, expire);
    var k := InsertSorted(es, x);
    var ts := Timers(Insert(es, x));
    assert forall i :: 0 <= i < |es| ==> es[i].timer == Timers(es)[i];
    assert forall i :: 0 <= i < |ts| ==>
        ts[i] == if i < k then es[i].timer else if i == k then newer else es[i - 1].timer;
    RunKeepsOrder(Insert(es, x), ops, older, newer);
  }
}
