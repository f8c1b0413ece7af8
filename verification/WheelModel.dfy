/** The timing wheel on values: slots of timers with rotation counters, and
    the plain queue of countdowns it stands in for. */
module WheelModel {
  datatype Entry<T> = Entry(timer: T, rotation: nat)

  /** `slots[i]` lists the timers of slot `i`, most recently added first. */
  datatype Wheel<T> = Wheel(cur: nat, slots: seq<seq<Entry<T>>>) {
    predicate Valid() {
      cur < |slots|
    }

    function N(): nat {
      |slots|
    }
  }

  /** The number of further ticks a timeout stands for, with slot interval `si`. */
  function Ticks(timeout: nat, si: nat): nat
    requires si > 0
  {
    if timeout < si then 1 else timeout / si
  }

  /** That is one tick for a timeout below the interval, and else the number of
      whole intervals in the timeout. */
  lemma TicksExact(timeout: nat, si: nat, k: nat)
    requires si > 0
    ensures k == Ticks(timeout, si) <==> if timeout < si then k == 1 else k * si <= timeout < (k + 1) * si
  {
    if timeout >= si && k * si <= timeout < (k + 1) * si {
      assert timeout == k * si + (timeout - k * si);
      ModUnique(timeout, si, k, timeout - k * si);
    }
    if timeout >= si && k == Ticks(timeout, si) {
      assert timeout == k * si + timeout % si;
    }
  }

  function RotationsFor(timeout: nat, si: nat, n: nat): nat
    requires si > 0 && n > 0
  {
    Ticks(timeout, si) / n
  }

  function SlotFor(cur: nat, timeout: nat, si: nat, n: nat): (ts: nat)
    requires si > 0 && n > 0
    ensures ts < n
  {
    (cur + Ticks(timeout, si) % n) % n
  }

  function Add<T>(w: Wheel<T>, t: T, timeout: int, si: nat): (w': Wheel<T>)
    requires w.Valid() && si > 0
    ensures w'.Valid() && w'.N() == w.N()
  {
    if timeout < 0 then w
    else
      var ts := SlotFor(w.cur, timeout, si, w.N());
      w.(slots := w.slots[ts := [Entry(t, RotationsFor(timeout, si, w.N()))] + w.slots[ts]])
  }

  function Without<T(==)>(es: seq<Entry<T>>, t: T): seq<Entry<T>> {
    if es == [] then []
    else (if es[0].timer == t then [] else [es[0]]) + Without(es[1..], t)
  }

  function Delete<T(==)>(w: Wheel<T>, t: T): (w': Wheel<T>)
    requires w.Valid()
    ensures w'.Valid() && w'.N() == w.N()
  {
    w.(slots := seq(w.N(), i requires 0 <= i < w.N() => Without(w.slots[i], t)))
  }

  /** Timers of a visited slot whose rotations have run out, in list order. */
  function Expired<T>(es: seq<Entry<T>>): seq<T> {
    if es == [] then []
    else (if es[0].rotation == 0 then [es[0].timer] else []) + Expired(es[1..])
  }

  /** The others, one rotation less. */
  function Turned<T>(es: seq<Entry<T>>): seq<Entry<T>> {
    if es == [] then []
    else (if es[0].rotation == 0 then [] else [es[0].(rotation := es[0].rotation - 1)]) + Turned(es[1..])
  }

  function Tick<T>(w: Wheel<T>): (w': Wheel<T>)
    requires w.Valid()
    ensures w'.Valid() && w'.N() == w.N()
  {
    Wheel((w.cur + 1) % w.N(), w.slots[w.cur := Turned(w.slots[w.cur])])
  }

  function Fired<T>(w: Wheel<T>): seq<T>
    requires w.Valid()
  {
    Expired(w.slots[w.cur])
  }

  // ----- The plain queue -----

  /** A timer and the number of ticks that will pass before the one that fires it. */
  datatype Pending<T> = Pending(timer: T, left: nat)

  type Queue<T> = seq<Pending<T>>

  function QAdd<T>(q: Queue<T>, t: T, timeout: int, si: nat): Queue<T>
    requires si > 0
  {
    if timeout < 0 then q else [Pending(t, Ticks(timeout, si))] + q
  }

  function QDelete<T(==)>(q: Queue<T>, t: T): Queue<T> {
    if q == [] then []
    else (if q[0].timer == t then [] else [q[0]]) + QDelete(q[1..], t)
  }

  function QTick<T>(q: Queue<T>): Queue<T> {
    if q == [] then []
    else (if q[0].left == 0 then [] else [q[0].(left := q[0].left - 1)]) + QTick(q[1..])
  }

  function QFired<T>(q: Queue<T>): seq<T> {
    if q == [] then []
    else (if q[0].left == 0 then [q[0].timer] else []) + QFired(q[1..])
  }

  // ----- How the queue is laid out on the wheel -----

  /** Slot `i` of a wheel of `n` slots at `cur`: the timers whose countdown ends
      there, with the full turns that remain. */
  function SlotOf<T>(q: Queue<T>, n: nat, cur: nat, i: nat): seq<Entry<T>>
    requires n > 0
  {
    if q == [] then []
    else
      (if (cur + q[0].left) % n == i then [Entry(q[0].timer, q[0].left / n)] else [])
      + SlotOf(q[1..], n, cur, i)
  }

  ghost predicate Implements<T>(w: Wheel<T>, q: Queue<T>) {
    && w.Valid()
    && forall i :: 0 <= i < w.N() ==> w.slots[i] == SlotOf(q, w.N(), w.cur, i)
  }

  lemma AddImplements<T>(w: Wheel<T>, q: Queue<T>, t: T, timeout: int, si: nat)
    requires Implements(w, q) && si > 0
    ensures Implements(Add(w, t, timeout, si), QAdd(q, t, timeout, si))
  {
    if timeout >= 0 {
      var ticks := Ticks(timeout, si);
      ModAdd(w.cur, ticks, w.N());
      var q' := QAdd(q, t, timeout, si);
      assert q'[0] == Pending(t, ticks) && q'[1..] == q;
    }
  }

  lemma {:induction false} WithoutSlot<T>(q: Queue<T>, t: T, n: nat, cur: nat, i: nat)
    requires n > 0
    ensures SlotOf(QDelete(q, t), n, cur, i) == Without(SlotOf(q, n, cur, i), t)
  {
    if q != [] {
      WithoutSlot(q[1..], t, n, cur, i);
      var rest := QDelete(q[1..], t);
      assert ([q[0]] + rest)[1..] == rest && [] + rest == rest;
      var e := Entry(q[0].timer, q[0].left / n);
      var es := SlotOf(q[1..], n, cur, i);
      assert ([e] + es)[1..] == es && [] + es == es;
    }
  }

  lemma DeleteImplements<T>(w: Wheel<T>, q: Queue<T>, t: T)
    requires Implements(w, q)
    ensures Implements(Delete(w, t), QDelete(q, t))
  {
    forall i | 0 <= i < w.N()
      ensures Delete(w, t).slots[i] == SlotOf(QDelete(q, t), w.N(), w.cur, i)
    {
      WithoutSlot(q, t, w.N(), w.cur, i);
    }
  }

  /** A tick fires exactly the timers with nothing left and takes one off every
      other countdown, though only one slot is touched. */
  lemma TickImplements<T>(w: Wheel<T>, q: Queue<T>)
    requires Implements(w, q)
    ensures Implements(Tick(w), QTick(q))
    ensures Fired(w) == QFired(q)
  {
    VisitedFires(q, w.N(), w.cur);
    forall i | 0 <= i < w.N()
      ensures Tick(w).slots[i] == SlotOf(QTick(q), w.N(), Tick(w).cur, i)
    {
      TickSlot(w, q, i);
    }
  }

  lemma TickSlot<T>(w: Wheel<T>, q: Queue<T>, i: nat)
    requires Implements(w, q) && i < w.N()
    ensures Tick(w).slots[i] == SlotOf(QTick(q), w.N(), Tick(w).cur, i)
  {
    if i == w.cur {
      VisitedTurns(q, w.N(), w.cur);
    } else {
      OtherSlot(q, w.N(), w.cur, i);
    }
  }

  lemma {:induction false} VisitedFires<T>(q: Queue<T>, n: nat, cur: nat)
    requires cur < n
    ensures QFired(q) == Expired(SlotOf(q, n, cur, cur))
  {
    if q != [] {
      VisitedFires(q[1..], n, cur);
      InSlotIff(cur, q[0].left, n);
      DividesUp(q[0].left, n);
      var es := SlotOf(q[1..], n, cur, cur);
      assert ([Entry(q[0].timer, q[0].left / n)] + es)[1..] == es && [] + es == es;
    }
  }

  lemma {:induction false} VisitedTurns<T>(q: Queue<T>, n: nat, cur: nat)
    requires cur < n
    ensures SlotOf(QTick(q), n, (cur + 1) % n, cur) == Turned(SlotOf(q, n, cur, cur))
  {
    if q != [] {
      VisitedTurns(q[1..], n, cur);
      var left := q[0].left;
      InSlotIff(cur, left, n);
      SameSlot(cur, left, n);
      DividesUp(left, n);
      var rest := QTick(q[1..]);
      var p := Pending(q[0].timer, if left > 0 then left - 1 else 0);
      assert ([p] + rest)[1..] == rest && [] + rest == rest;
      var es := SlotOf(q[1..], n, cur, cur);
      assert ([Entry(q[0].timer, left / n)] + es)[1..] == es && [] + es == es;
    }
  }

  lemma {:induction false} OtherSlot<T>(q: Queue<T>, n: nat, cur: nat, i: nat)
    requires cur < n && i < n && i != cur
    ensures SlotOf(QTick(q), n, (cur + 1) % n, i) == SlotOf(q, n, cur, i)
  {
    if q != [] {
      OtherSlot(q[1..], n, cur, i);
      var left := q[0].left;
      InSlotIff(cur, left, n);
      SameSlot(cur, left, n);
      DividesUp(left, n);
      var rest := QTick(q[1..]);
      var p := Pending(q[0].timer, if left > 0 then left - 1 else 0);
      assert ([p] + rest)[1..] == rest && [] + rest == rest;
    }
  }

  // ----- Modular arithmetic -----

  lemma ModUnique(a: int, n: nat, k: int, r: nat)
    requires n > 0 && r < n && a == k * n + r
    ensures a % n == r && a / n == k
  {
    var q, m := a / n, a % n;
    assert (q - k) * n == r - m by {
      assert a == q * n + m;
    }
    if q < k {
      MulAtLeast(k - q, n);
    } else if q > k {
      MulAtLeast(q - k, n);
    }
  }

  lemma MulAtLeast(k: int, n: nat)
    requires k >= 1
    ensures k * n >= n
  {}

  lemma ModAdd(a: nat, b: nat, n: nat)
    requires n > 0
    ensures (a + b % n) % n == (a + b) % n
  {
    var s := a + b % n;
    assert a + b == (s / n + b / n) * n + s % n;
    ModUnique(a + b, n, s / n + b / n, s % n);
  }

  /** A countdown ends in the visited slot exactly when whole turns remain. */
  lemma InSlotIff(cur: nat, left: nat, n: nat)
    requires cur < n
    ensures (cur + left) % n == cur <==> left % n == 0
  {
    var k, r := left / n, left % n;
    assert left == k * n + r;
    if cur + r < n {
      ModUnique(cur + left, n, k, cur + r);
    } else {
      assert cur + left == (k + 1) * n + (cur + r - n);
      ModUnique(cur + left, n, k + 1, cur + r - n);
    }
  }

  /** Advancing the slot and taking one off the countdown leaves a timer in its slot. */
  lemma SameSlot(cur: nat, left: nat, n: nat)
    requires cur < n
    ensures left > 0 ==> ((cur + 1) % n + (left - 1)) % n == (cur + left) % n
  {
    if left > 0 {
      ModAdd(left - 1, cur + 1, n);
    }
  }

  /** Only when whole turns remain does taking one off complete a turn. */
  lemma DividesUp(left: nat, n: nat)
    requires n > 0
    ensures left > 0 && left % n == 0 ==> left / n > 0 && (left - 1) / n == left / n - 1
    ensures left % n != 0 ==> left > 0 && (left - 1) / n == left / n
    ensures left == 0 <==> left % n == 0 && left / n == 0
  {
    var k, r := left / n, left % n;
    assert left == k * n + r;
    if left > 0 && r == 0 {
      assert k > 0;
      assert left - 1 == (k - 1) * n + (n - 1);
      ModUnique(left - 1, n, k - 1, n - 1);
    } else if r != 0 {
      ModUnique(left - 1, n, k, r - 1);
    }
  }
}
