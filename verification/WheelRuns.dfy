/** Whole runs of the timing wheel: any adds, deletions and ticks, in any order. */
module WheelRuns {
  import opened Order
  import opened WheelModel

  datatype Op<T> = OpAdd(timer: T, timeout: int) | OpDelete(timer: T) | OpTick

  function Apply<T(==)>(w: Wheel<T>, op: Op<T>, si: nat): (w': Wheel<T>)
    requires w.Valid() && si > 0
    ensures w'.Valid() && w'.N() == w.N()
  {
    match op
    case OpAdd(t, timeout) => Add(w, t, timeout, si)
    case OpDelete(t) => Delete(w, t)
    case OpTick => Tick(w)
  }

  /** What each tick of a run fires, in order. */
  function Fires<T(==)>(w: Wheel<T>, ops: seq<Op<T>>, si: nat): seq<seq<T>>
    requires w.Valid() && si > 0
    decreases |ops|
  {
    if ops == [] then []
    else (if ops[0].OpTick? then [Fired(w)] else []) + Fires(Apply(w, ops[0], si), ops[1..], si)
  }

  function QApply<T(==)>(q: Queue<T>, op: Op<T>, si: nat): Queue<T>
    requires si > 0
  {
    match op
    case OpAdd(t, timeout) => QAdd(q, t, timeout, si)
    case OpDelete(t) => QDelete(q, t)
    case OpTick => QTick(q)
  }

  function QFires<T(==)>(q: Queue<T>, ops: seq<Op<T>>, si: nat): seq<seq<T>>
    requires si > 0
    decreases |ops|
  {
    if ops == [] then []
    else (if ops[0].OpTick? then [QFired(q)] else []) + QFires(QApply(q, ops[0], si), ops[1..], si)
  }

  // ----- The wheel behaves as the plain queue -----

  lemma ApplyImplements<T>(w: Wheel<T>, q: Queue<T>, op: Op<T>, si: nat)
    requires Implements(w, q) && si > 0
    ensures Implements(Apply(w, op, si), QApply(q, op, si))
  {
    match op
    case OpAdd(t, timeout) => AddImplements(w, q, t, timeout, si);
    case OpDelete(t) => DeleteImplements(w, q, t);
    case OpTick => TickImplements(w, q);
  }

  /** Every run fires the same timers, in the same order, on the same ticks. */
  lemma {:induction false} RunRefines<T>(w: Wheel<T>, q: Queue<T>, ops: seq<Op<T>>, si: nat)
    requires Implements(w, q) && si > 0
    ensures Fires(w, ops, si) == QFires(q, ops, si)
    decreases |ops|
  {
    if ops != [] {
      ApplyImplements(w, q, ops[0], si);
      RunRefines(Apply(w, ops[0], si), QApply(q, ops[0], si), ops[1..], si);
      if ops[0].OpTick? {
        TickImplements(w, q);
      }
    }
  }

  // ----- Every wheel, reached or not, implements some queue -----

  /** The countdown of a timer in slot `i` of a wheel of `n` slots at `cur`. */
  function Left(n: nat, cur: nat, i: nat, rotation: nat): nat
    requires cur < n && i < n
  {
    (i - cur) % n + n * rotation
  }

  /** The entries of slot `i` as countdowns, in front of `tail`. */
  function Unslot<T>(n: nat, cur: nat, i: nat, es: seq<Entry<T>>, tail: Queue<T>): Queue<T>
    requires cur < n && i < n
  {
    if es == [] then tail
    else [Pending(es[0].timer, Left(n, cur, i, es[0].rotation))] + Unslot(n, cur, i, es[1..], tail)
  }

  function UnslotFrom<T>(w: Wheel<T>, i: nat): Queue<T>
    requires w.Valid() && i <= w.N()
    decreases w.N() - i
  {
    if i == w.N() then [] else Unslot(w.N(), w.cur, i, w.slots[i], UnslotFrom(w, i + 1))
  }

  lemma LeftPlaces(n: nat, cur: nat, i: nat, rotation: nat)
    requires cur < n && i < n
    ensures (cur + Left(n, cur, i, rotation)) % n == i
    ensures Left(n, cur, i, rotation) / n == rotation
  {
    var d := (i - cur) % n;
    assert d == if i >= cur then i - cur else i - cur + n by {
      if i >= cur {
        ModUnique(i - cur, n, 0, i - cur);
      } else {
        assert i - cur == -1 * n + (i - cur + n);
        ModUniqueNeg(i - cur, n, i - cur + n);
      }
    }
    assert Left(n, cur, i, rotation) == rotation * n + d;
    ModUnique(Left(n, cur, i, rotation), n, rotation, d);
    if i >= cur {
      ModUnique(cur + Left(n, cur, i, rotation), n, rotation, i);
    } else {
      assert cur + Left(n, cur, i, rotation) == (rotation + 1) * n + i;
      ModUnique(cur + Left(n, cur, i, rotation), n, rotation + 1, i);
    }
  }

  lemma ModUniqueNeg(a: int, n: nat, r: nat)
    requires r < n && a == r - n
    ensures a % n == r
  {
    var q, m := a / n, a % n;
    assert a == q * n + m;
    assert (q + 1) * n == r - m;
    if q < -1 {
      MulAtLeast(-1 - q, n);
    } else if q > -1 {
      MulAtLeast(q + 1, n);
    }
  }

  lemma {:induction false} SlotOfUnslot<T>(n: nat, cur: nat, i: nat, es: seq<Entry<T>>, tail: Queue<T>, j: nat)
    requires cur < n && i < n && j < n
    ensures SlotOf(Unslot(n, cur, i, es, tail), n, cur, j) == (if i == j then es else []) + SlotOf(tail, n, cur, j)
  {
    if es != [] {
      var slot := SlotOf(tail, n, cur, j);
      SlotOfUnslot(n, cur, i, es[1..], tail, j);
      SlotOfFirst(n, cur, i, es[0], Unslot(n, cur, i, es[1..], tail), j);
      if i == j {
        Regroup([es[0]], es[1..], slot);
        assert [es[0]] + es[1..] == es;
      } else {
        assert [] + slot == slot;
      }
    }
  }

  lemma SlotOfFirst<T>(n: nat, cur: nat, i: nat, e: Entry<T>, more: Queue<T>, j: nat)
    requires cur < n && i < n && j < n
    ensures SlotOf([Pending(e.timer, Left(n, cur, i, e.rotation))] + more, n, cur, j)
         == (if i == j then [e] else []) + SlotOf(more, n, cur, j)
  {
    LeftPlaces(n, cur, i, e.rotation);
    SlotOfCons(Pending(e.timer, Left(n, cur, i, e.rotation)), more, n, cur, j);
  }

  lemma SlotOfCons<T>(p: Pending<T>, q: Queue<T>, n: nat, cur: nat, i: nat)
    requires n > 0
    ensures SlotOf([p] + q, n, cur, i)
         == (if (cur + p.left) % n == i then [Entry(p.timer, p.left / n)] else []) + SlotOf(q, n, cur, i)
  {
    assert ([p] + q)[1..] == q;
  }

  lemma {:induction false} SlotOfUnslotFrom<T>(w: Wheel<T>, i: nat, j: nat)
    requires w.Valid() && i <= w.N() && j < w.N()
    ensures SlotOf(UnslotFrom(w, i), w.N(), w.cur, j) == if i <= j then w.slots[j] else []
    decreases w.N() - i
  {
    if i < w.N() {
      SlotOfUnslotFrom(w, i + 1, j);
      SlotOfUnslot(w.N(), w.cur, i, w.slots[i], UnslotFrom(w, i + 1), j);
    }
  }

  lemma EveryWheelImplements<T>(w: Wheel<T>)
    requires w.Valid()
    ensures Implements(w, UnslotFrom(w, 0))
  {
    forall j | 0 <= j < w.N()
      ensures w.slots[j] == SlotOf(UnslotFrom(w, 0), w.N(), w.cur, j)
    {
      SlotOfUnslotFrom(w, 0, j);
    }
  }

  // ----- The wheel is a map from timers to countdowns -----

  /** Some slot holds `t` with `k` ticks left. */
  ghost predicate Counts<T>(w: Wheel<T>, t: T, k: nat)
    requires w.Valid()
  {
    exists i, j :: 0 <= i < w.N() && 0 <= j < |w.slots[i]| && CountsAt(w, t, k, i, j)
  }

  ghost predicate CountsAt<T>(w: Wheel<T>, t: T, k: nat, i: nat, j: nat)
    requires w.Valid() && i < w.N() && j < |w.slots[i]|
  {
    w.slots[i][j].timer == t && Left(w.N(), w.cur, i, w.slots[i][j].rotation) == k
  }

  lemma {:induction false} SlotOfHas<T>(q: Queue<T>, n: nat, cur: nat, i: nat, e: Entry<T>)
    requires cur < n && i < n
    ensures e in SlotOf(q, n, cur, i) <==> Pending(e.timer, Left(n, cur, i, e.rotation)) in q
  {
    LeftPlaces(n, cur, i, e.rotation);
    if q != [] {
      SlotOfHas(q[1..], n, cur, i, e);
      var left := q[0].left;
      if (cur + left) % n == i {
        LeftInverse(n, cur, left);
      }
      assert q == [q[0]] + q[1..];
    }
  }

  lemma LeftInverse(n: nat, cur: nat, left: nat)
    requires cur < n
    ensures Left(n, cur, (cur + left) % n, left / n) == left
  {
    var i := (cur + left) % n;
    var l := Left(n, cur, i, left / n);
    LeftPlaces(n, cur, i, left / n);
    SameResidue(cur, left, l, n);
    assert left == left / n * n + left % n && l == l / n * n + l % n;
  }

  lemma SameResidue(cur: nat, a: nat, b: nat, n: nat)
    requires cur < n && (cur + a) % n == (cur + b) % n
    ensures a % n == b % n
  {
    Residue(cur, a, n);
    Residue(cur, b, n);
  }

  lemma Residue(cur: nat, a: nat, n: nat)
    requires cur < n
    ensures (cur + a) % n == if cur + a % n < n then cur + a % n else cur + a % n - n
  {
    var k, r := a / n, a % n;
    assert a == k * n + r;
    if cur + r < n {
      ModUnique(cur + a, n, k, cur + r);
    } else {
      assert cur + a == (k + 1) * n + (cur + r - n);
      ModUnique(cur + a, n, k + 1, cur + r - n);
    }
  }

  lemma CountsIff<T>(w: Wheel<T>, q: Queue<T>, t: T, k: nat)
    requires Implements(w, q)
    ensures Counts(w, t, k) <==> Pending(t, k) in q
  {
    if Counts(w, t, k) {
      var i, j :| 0 <= i < w.N() && 0 <= j < |w.slots[i]| && CountsAt(w, t, k, i, j);
      SlotOfHas(q, w.N(), w.cur, i, w.slots[i][j]);
    }
    if Pending(t, k) in q {
      PendingCounts(w, q, t, k);
    }
  }

  lemma PendingCounts<T>(w: Wheel<T>, q: Queue<T>, t: T, k: nat)
    requires Implements(w, q) && Pending(t, k) in q
    ensures Counts(w, t, k)
  {
    var i := (w.cur + k) % w.N();
    var e := Entry(t, k / w.N());
    assert e in w.slots[i] && Left(w.N(), w.cur, i, e.rotation) == k by {
      LeftInverse(w.N(), w.cur, k);
      SlotOfHas(q, w.N(), w.cur, i, e);
    }
    var j :| 0 <= j < |w.slots[i]| && w.slots[i][j] == e;
    assert CountsAt(w, t, k, i, j);
  }

  lemma {:induction false} QTickHas<T>(q: Queue<T>, t: T, k: nat)
    ensures Pending(t, k) in QTick(q) <==> Pending(t, k + 1) in q
    ensures t in QFired(q) <==> Pending(t, 0) in q
  {
    if q != [] {
      QTickHas(q[1..], t, k);
      assert q == [q[0]] + q[1..];
    }
  }

  lemma {:induction false} QDeleteHas<T>(q: Queue<T>, t: T, t': T, k: nat)
    ensures Pending(t', k) in QDelete(q, t) <==> t' != t && Pending(t', k) in q
  {
    if q != [] {
      QDeleteHas(q[1..], t, t', k);
      assert q == [q[0]] + q[1..];
    }
  }

  /** On every wheel: a tick fires exactly the countdowns at 0 and lowers every
      other by exactly 1; adding and deleting change one countdown. */
  lemma CountdownsOfTick<T>(w: Wheel<T>, t: T, k: nat)
    requires w.Valid()
    ensures t in Fired(w) <==> Counts(w, t, 0)
    ensures Counts(Tick(w), t, k) <==> Counts(w, t, k + 1)
  {
    var q := UnslotFrom(w, 0);
    EveryWheelImplements(w);
    TickImplements(w, q);
    QTickHas(q, t, k);
    CountsIff(w, q, t, 0);
    CountsIff(w, q, t, k + 1);
    CountsIff(Tick(w), QTick(q), t, k);
  }

  lemma CountdownsOfAdd<T>(w: Wheel<T>, t: T, timeout: int, si: nat, t': T, k: nat)
    requires w.Valid() && si > 0
    ensures Counts(Add(w, t, timeout, si), t', k)
       <==> || Counts(w, t', k)
            || (timeout >= 0 && t' == t && if timeout < si then k == 1 else k * si <= timeout < (k + 1) * si)
  {
    if timeout >= 0 {
      TicksExact(timeout, si, k);
    }
    var q := UnslotFrom(w, 0);
    EveryWheelImplements(w);
    AddImplements(w, q, t, timeout, si);
    CountsIff(w, q, t', k);
    CountsIff(Add(w, t, timeout, si), QAdd(q, t, timeout, si), t', k);
  }

  lemma CountdownsOfDelete<T>(w: Wheel<T>, t: T, t': T, k: nat)
    requires w.Valid()
    ensures Counts(Delete(w, t), t', k) <==> t' != t && Counts(w, t', k)
  {
    var q := UnslotFrom(w, 0);
    EveryWheelImplements(w);
    DeleteImplements(w, q, t);
    QDeleteHas(q, t, t', k);
    CountsIff(w, q, t', k);
    CountsIff(Delete(w, t), QDelete(q, t), t', k);
  }

  // ----- When a timer fires -----

  ghost predicate Live<T>(w: Wheel<T>, t: T)
    requires w.Valid()
  {
    exists k: nat :: Counts(w, t, k)
  }

  predicate Untouched<T(==)>(ops: seq<Op<T>>, t: T) {
    forall i :: 0 <= i < |ops| ==> ops[i] != OpDelete(t) && !(ops[i].OpAdd? && ops[i].timer == t)
  }

  function NumTicks<T>(ops: seq<Op<T>>): nat {
    if ops == [] then 0 else (if ops[0].OpTick? then 1 else 0) + NumTicks(ops[1..])
  }

  /** How often the queue holds `t` with countdown `k`. */
  function Copies<T(==)>(q: Queue<T>, t: T, k: nat): nat {
    if q == [] then 0
    else (if q[0].timer == t && q[0].left == k then 1 else 0) + Copies(q[1..], t, k)
  }

  lemma CopiesCons<T>(p: Pending<T>, q: Queue<T>, t: T, k: nat)
    ensures Copies([p] + q, t, k) == (if p.timer == t && p.left == k then 1 else 0) + Copies(q, t, k)
  {
    assert ([p] + q)[1..] == q;
  }

  lemma {:induction false} NoCopies<T>(q: Queue<T>, t: T, k: nat)
    ensures Copies(q, t, k) == 0 <==> Pending(t, k) !in q
  {
    if q != [] {
      NoCopies(q[1..], t, k);
      assert q == [q[0]] + q[1..];
    }
  }

  lemma {:induction false} CopiesAfterTick<T>(q: Queue<T>, t: T, k: nat)
    ensures Copies(QTick(q), t, k) == Copies(q, t, k + 1)
  {
    if q != [] {
      CopiesAfterTick(q[1..], t, k);
      if q[0].left > 0 {
        CopiesCons(q[0].(left := q[0].left - 1), QTick(q[1..]), t, k);
      } else {
        assert QTick(q) == QTick(q[1..]);
      }
    }
  }

  lemma {:induction false} CopiesFired<T>(q: Queue<T>, t: T)
    ensures multiset(QFired(q))[t] == Copies(q, t, 0)
  {
    if q != [] {
      CopiesFired(q[1..], t);
      if q[0].left != 0 {
        assert QFired(q) == QFired(q[1..]);
      }
    }
  }

  lemma {:induction false} CopiesAfterDelete<T>(q: Queue<T>, t: T, t': T, k: nat)
    ensures Copies(QDelete(q, t), t', k) == if t == t' then 0 else Copies(q, t', k)
  {
    if q != [] {
      CopiesAfterDelete(q[1..], t, t', k);
      if q[0].timer != t {
        CopiesCons(q[0], QDelete(q[1..], t), t', k);
      } else {
        assert QDelete(q, t) == QDelete(q[1..], t);
      }
    }
  }

  /** The m-th tick of a run fires a timer the run does not touch as often as
      the queue counts it down from m. */
  lemma {:induction false} QFiresExactly<T>(q: Queue<T>, t: T, ops: seq<Op<T>>, si: nat)
    requires si > 0 && Untouched(ops, t)
    ensures |QFires(q, ops, si)| == NumTicks(ops)
    ensures forall m :: 0 <= m < NumTicks(ops) ==> multiset(QFires(q, ops, si)[m])[t] == Copies(q, t, m)
    decreases |ops|
  {
    if ops != [] {
      var q' := QApply(q, ops[0], si);
      QFiresExactly(q', t, ops[1..], si);
      FiresShift(q, t, ops, si);
      var log := QFires(q, ops, si);
      forall m | 0 <= m < |log|
        ensures multiset(log[m])[t] == Copies(q, t, m)
      {
        match ops[0]
        case OpAdd(t', timeout) =>
          if timeout >= 0 {
            CopiesCons(Pending(t', Ticks(timeout, si)), q, t, m);
          }
        case OpDelete(t') => CopiesAfterDelete(q, t', t, m);
        case OpTick =>
          CopiesFired(q, t);
          CopiesAfterTick(q, t, if m > 0 then m - 1 else 0);
      }
    }
  }

  lemma FiresShift<T>(q: Queue<T>, t: T, ops: seq<Op<T>>, si: nat)
    requires si > 0 && ops != []
    ensures var log, rest := QFires(q, ops, si), QFires(QApply(q, ops[0], si), ops[1..], si);
            if ops[0].OpTick? then
              ConsOf(log, QFired(q), rest)
            else log == rest
  {
    if ops[0].OpTick? {
      Prepended(QFired(q), QFires(QApply(q, ops[0], si), ops[1..], si));
    }
  }

  /** A timer that is added and then left alone fires exactly once, on exactly
      the (ticks + 1)-th later tick, from every wheel and through any other
      operations. */
  lemma FiresExactlyOnce<T>(w: Wheel<T>, t: T, timeout: nat, ops: seq<Op<T>>, si: nat)
    requires w.Valid() && si > 0 && !Live(w, t) && Untouched(ops, t)
    ensures var log := Fires(Add(w, t, timeout, si), ops, si);
            && |log| == NumTicks(ops)
            && (forall m :: 0 <= m < |log| ==> multiset(log[m])[t] == (if m == Ticks(timeout, si) then 1 else 0))
            && forall m :: 0 <= m < |log| ==>
                 (t in log[m] <==> if timeout < si then m == 1 else m * si <= timeout < (m + 1) * si)
  {
    AddedFiresOnce(w, t, timeout, ops, si);
    var log := Fires(Add(w, t, timeout, si), ops, si);
    forall m | 0 <= m < |log|
      ensures t in log[m] <==> if timeout < si then m == 1 else m * si <= timeout < (m + 1) * si
    {
      TicksExact(timeout, si, m);
      assert t in log[m] <==> multiset(log[m])[t] > 0;
    }
  }

  lemma AddedFiresOnce<T>(w: Wheel<T>, t: T, timeout: nat, ops: seq<Op<T>>, si: nat)
    requires w.Valid() && si > 0 && !Live(w, t) && Untouched(ops, t)
    ensures var log := Fires(Add(w, t, timeout, si), ops, si);
            && |log| == NumTicks(ops)
            && forall m :: 0 <= m < |log| ==> multiset(log[m])[t] == (if m == Ticks(timeout, si) then 1 else 0)
  {
    var q := UnslotFrom(w, 0);
    EveryWheelImplements(w);
    AddImplements(w, q, t, timeout, si);
    NotLive(w, q, t);
    var q' := QAdd(q, t, timeout, si);
    RunRefines(Add(w, t, timeout, si), q', ops, si);
    QFiresExactly(q', t, ops, si);
    forall m: nat
      ensures Copies(q', t, m) == if m == Ticks(timeout, si) then 1 else 0
    {
      NoCopies(q, t, m);
      CopiesCons(Pending(t, Ticks(timeout, si)), q, t, m);
    }
  }

  lemma NotLive<T>(w: Wheel<T>, q: Queue<T>, t: T)
    requires Implements(w, q) && !Live(w, t)
    ensures forall k :: Pending(t, k) !in q
  {
    forall k: nat
      ensures Pending(t, k) !in q
    {
      CountsIff(w, q, t, k);
    }
  }

  /** A deleted timer that is not added again never fires. */
  lemma NeverAfterDelete<T>(w: Wheel<T>, t: T, ops: seq<Op<T>>, si: nat)
    requires w.Valid() && si > 0 && Untouched(ops, t)
    ensures var log := Fires(Delete(w, t), ops, si);
            forall m :: 0 <= m < |log| ==> t !in log[m]
  {
    var q := UnslotFrom(w, 0);
    EveryWheelImplements(w);
    DeleteImplements(w, q, t);
    RunRefines(Delete(w, t), QDelete(q, t), ops, si);
    QFiresExactly(QDelete(q, t), t, ops, si);
    var log := Fires(Delete(w, t), ops, si);
    forall m | 0 <= m < |log|
      ensures t !in log[m]
    {
      CopiesAfterDelete(q, t, t, m);
      assert multiset(log[m])[t] == 0;
    }
  }

  // ----- The order within a tick -----

  function Timers<T>(q: Queue<T>): seq<T> {
    seq(|q|, i requires 0 <= i < |q| => q[i].timer)
  }

  lemma TimersCons<T>(p: Pending<T>, q: Queue<T>)
    ensures Timers([p] + q) == [p.timer] + Timers(q)
    ensures Timers([] + q) == Timers(q)
  {
    assert [] + q == q;
  }

  lemma {:induction false} TickKeepsOrder<T>(q: Queue<T>, a: T, b: T)
    requires a != b && Precedes(Timers(q), a, b)
    ensures Precedes(Timers(QTick(q)), a, b) && Precedes(QFired(q), a, b)
    ensures forall t :: t in Timers(QTick(q)) || t in QFired(q) ==> t in Timers(q)
  {
    if q != [] {
      var rest := q[1..];
      assert q == [q[0]] + rest;
      TimersCons(q[0], rest);
      PrecedesCons(q[0].timer, Timers(rest), a, b);
      TickKeepsOrder(rest, a, b);
      if q[0].left == 0 {
        PrecedesCons(q[0].timer, QFired(rest), a, b);
        TimersCons(q[0], QTick(rest));
        assert [] + QTick(rest) == QTick(rest);
      } else {
        var p := q[0].(left := q[0].left - 1);
        TimersCons(p, QTick(rest));
        PrecedesCons(p.timer, Timers(QTick(rest)), a, b);
        assert [] + QFired(rest) == QFired(rest);
      }
    }
  }

  lemma {:induction false} DeleteKeepsOrder<T>(q: Queue<T>, t: T, a: T, b: T)
    requires a != b && Precedes(Timers(q), a, b)
    ensures Precedes(Timers(QDelete(q, t)), a, b)
    ensures forall x :: x in Timers(QDelete(q, t)) ==> x in Timers(q)
  {
    if q != [] {
      var rest := q[1..];
      assert q == [q[0]] + rest;
      TimersCons(q[0], rest);
      PrecedesCons(q[0].timer, Timers(rest), a, b);
      DeleteKeepsOrder(rest, t, a, b);
      TimersCons(q[0], QDelete(rest, t));
      PrecedesCons(q[0].timer, Timers(QDelete(rest, t)), a, b);
    }
  }

  lemma {:induction false} RunKeepsOrder<T>(q: Queue<T>, a: T, b: T, ops: seq<Op<T>>, si: nat)
    requires si > 0 && a != b && Precedes(Timers(q), a, b) && Untouched(ops, b)
    ensures forall m :: 0 <= m < |QFires(q, ops, si)| ==> Precedes(QFires(q, ops, si)[m], a, b)
    decreases |ops|
  {
    if ops != [] {
      match ops[0] {
        case OpAdd(t, timeout) =>
          if timeout >= 0 {
            TimersCons(Pending(t, Ticks(timeout, si)), q);
            PrecedesCons(t, Timers(q), a, b);
          }
        case OpDelete(t) => DeleteKeepsOrder(q, t, a, b);
        case OpTick => TickKeepsOrder(q, a, b);
      }
      RunKeepsOrder(QApply(q, ops[0], si), a, b, ops[1..], si);
      FiresShift(q, a, ops, si);
    }
  }

  /** Of two timers due on the same tick the one added later fires first. */
  lemma LaterFiresFirst<T>(w: Wheel<T>, older: T, newer: T, timeout: int, ops: seq<Op<T>>, si: nat)
    requires w.Valid() && si > 0 && older != newer && !Live(w, newer) && Untouched(ops, older)
    ensures var log := Fires(Add(w, newer, timeout, si), ops, si);
            forall m :: 0 <= m < |log| ==> Precedes(log[m], newer, older)
  {
    var q := UnslotFrom(w, 0);
    EveryWheelImplements(w);
    AddImplements(w, q, newer, timeout, si);
    NotLive(w, q, newer);
    var q' := QAdd(q, newer, timeout, si);
    assert newer !in Timers(q) by {
      assert forall i :: 0 <= i < |q| ==> q[i] == Pending(q[i].timer, q[i].left);
    }
    assert Precedes(Timers(q), newer, older);
    if timeout >= 0 {
      TimersCons(Pending(newer, Ticks(timeout, si)), q);
      PrecedesCons(newer, Timers(q), newer, older);
    }
    RunRefines(Add(w, newer, timeout, si), q', ops, si);
    RunKeepsOrder(q', newer, older, ops, si);
  }
}
