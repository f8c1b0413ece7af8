/** The timer heap as it is built: an array that grows, with the heap in its
    first `curSize` slots, and cancellation by clearing the callback. */
module TimeHeap {
  import opened Deadlines
  import opened HeapModel
  import opened HeapRuns
  import opened ListRuns
  import opened Order

  class HeapTimer {
    const expire: int
    /** Whether the callback is still set. */
    var armed: bool

    constructor (deadline: int)
      ensures expire == deadline && armed
    {
      expire, armed := deadline, true;
    }
  }

  type Entries = seq<Entry<HeapTimer>>

  ghost predicate Holds(slot: HeapTimer?, e: Entry<HeapTimer>) {
    slot == e.timer && e.expire == e.timer.expire
  }

  /** The first slots hold the entries; what is in the slot `hole` is open. */
  ghost predicate Backs(slots: seq<HeapTimer?>, es: Entries, hole: nat) {
    && |es| <= |slots|
    && forall i :: 0 <= i < |es| && i != hole ==> Holds(slots[i], es[i])
  }

  /** The entries of an array of timers. */
  function EntriesOf(timers: seq<HeapTimer?>): (es: Entries)
    requires null !in timers
    ensures Backs(timers, es, |es|) && |es| == |timers|
  {
    seq(|timers|, i requires 0 <= i < |timers| =>
      var t: HeapTimer := timers[i]; Entry(t, t.expire))
  }

  class TimeHeap {
    var slots: array<HeapTimer?>
    var capacity: nat
    var curSize: nat
    /** Timers whose callback ran, oldest first. */
    var fired: seq<HeapTimer>
    /** The heap as a value. */
    ghost var model: Entries

    ghost predicate Stored()
      reads this, slots
    {
      && capacity == slots.Length
      && |model| == curSize
      && Backs(slots[..], model, curSize)
    }

    ghost predicate Valid()
      reads this, slots
    {
      Stored() && HeapOk(model)
    }

    /** The timers in the heap that have been cancelled. */
    ghost function Cancelled(): set<HeapTimer>
      reads this, set e | e in model :: e.timer
    {
      set e | e in model && !e.timer.armed :: e.timer
    }

    /** The heap of a run that this one stands for: the same timers, of which the
        cancelled ones are those that lost their callback. */
    ghost predicate Represents(h: Heap<HeapTimer>)
      reads this, set e | e in model :: e.timer
    {
      Stands(h, model, Cancelled())
    }

    constructor (cap: nat)
      ensures Valid() && fresh(slots) && model == [] && capacity == cap && fired == []
    {
      slots := new HeapTimer?[cap](_ => null);
      capacity, curSize, fired, model := cap, 0, [], [];
    }

    /** The child that the loop of `percolate_down` picks; `es` is the heap while
        the timer at `hole` is held aside. */
    method EarlierChild(hole: nat, ghost es: Entries) returns (child: nat)
      requires |es| == curSize && Backs(slots[..], es, hole) && 2 * hole + 1 < curSize
      ensures child == Child(es, hole) && Holds(slots[child], es[child])
    {
      child := 2 * hole + 1;
      assert Holds(slots[..][child], es[child]);
      assert child + 1 < curSize ==> Holds(slots[..][child + 1], es[child + 1]);
      if child < curSize - 1 && slots[child + 1].expire < slots[child].expire {
        child := child + 1;
      }
    }

    /** Sifts a timer down: moves earlier children up into the hole and writes
        the timer only at the end. */
    method PercolateDown(start: nat)
      requires Stored() && start < capacity
      modifies slots, this`model
      ensures Stored()
      ensures model == if start < curSize then SiftDown(old(model), start) else old(model)
    {
      var a, hole := slots, start;
      var tmp := a[hole];
      ghost var es := model;
      ghost var goal := if start < curSize then SiftDown(es, start) else es;
      while 2 * hole + 1 < curSize
        invariant start <= hole < a.Length && |es| == curSize && Backs(a[..], es, hole)
        invariant hole < curSize ==> Holds(tmp, es[hole])
        invariant goal == if hole < curSize then SiftDown(es, hole) else es
        decreases curSize - hole
      {
        var child := EarlierChild(hole, es);
        if tmp.expire <= a[child].expire {
          break;
        }
        HoleMoves(a[..], es, hole, child);
        a[hole] := a[child];
        es := Swap(es, hole, child);
        hole := child;
      }
      HoleFilled(a[..], es, hole, tmp);
      a[hole] := tmp;
      model := es;
    }

    /** The array constructor: heapifies a copy of the first `size` timers in an
        array of `cap` slots; null stands for its exception. */
    static method FromArray(init: array<HeapTimer?>, size: nat, cap: nat) returns (heap: TimeHeap?)
      requires size <= init.Length && null !in init[..size]
      ensures heap == null <==> cap < size
      ensures heap != null ==>
                && fresh(heap) && fresh(heap.slots) && heap.Valid()
                && heap.capacity == cap && heap.model == Build(EntriesOf(init[..size])) && heap.fired == []
    {
      if cap < size {
        return null;
      }
      heap := new TimeHeap(cap);
      var a := heap.slots;
      ghost var es := EntriesOf(init[..size]);
      for i := 0 to size
        modifies a
        invariant forall j :: 0 <= j < i ==> a[j] == init[j]
      {
        a[i] := init[i];
      }
      assert Backs(a[..], es, size) by {
        assert forall j :: 0 <= j < size ==> a[..][j] == init[..size][j];
      }
      heap.curSize, heap.model := size, es;
      BuildsHeap(es);
      if size != 0 {
        heap.SiftAll();
      }
    }

    /** Sifts every timer that has a child, the last one first. */
    method SiftAll()
      requires Stored() && curSize > 0
      modifies slots, this`model
      ensures Stored() && model == Build(old(model))
    {
      var i := (curSize - 1) / 2;
      ghost var goal, n := Build(model), i + 1;
      while i >= 0
        invariant -1 <= i < curSize && Stored()
        invariant n == i + 1 && Heapify(model, n) == goal
        decreases i
      {
        n := i;
        HeapifyStep(model, n);
        PercolateDown(i);
        i := i - 1;
      }
    }

    /** Doubles the array. */
    method Resize()
      requires Stored()
      modifies this`slots, this`capacity
      ensures Stored() && fresh(slots) && capacity == 2 * old(capacity)
    {
      var a := slots;
      var tmp := new HeapTimer?[capacity * 2](_ => null);
      capacity := capacity * 2;
      for i := 0 to curSize
        invariant slots == a && capacity == tmp.Length
        invariant forall j :: 0 <= j < i ==> tmp[j] == a[j]
      {
        tmp[i] := a[i];
      }
      slots := tmp;
      assert forall j :: 0 <= j < curSize ==> slots[..][j] == a[..][j];
    }

    method AddTimer(timer: HeapTimer?)
      requires Valid() && (timer != null ==> capacity > 0)
      modifies this, slots
      ensures Valid() && fired == old(fired)
      ensures slots == old(slots) || fresh(slots)
      ensures capacity == old(capacity) * if timer != null && old(curSize) == old(capacity) then 2 else 1
      ensures model == if timer == null then old(model) else Add(old(model), Entry(timer, timer.expire))
    {
      if timer == null {
        return;
      }
      if curSize >= capacity {
        Resize();
      }
      ghost var e: Entry<HeapTimer> := Entry(timer, timer.expire);
      AddKeeps(model, e);
      SiftIn(timer, e);
    }

    /** Sifts a new timer up from the first free slot, moving later ancestors
        down into the hole and writing the timer only at the end. */
    method SiftIn(timer: HeapTimer, ghost e: Entry<HeapTimer>)
      requires Stored() && curSize < capacity && e == Entry(timer, timer.expire)
      modifies this`curSize, this`model, slots
      ensures Stored() && model == Add(old(model), e)
    {
      var a, hole, parent := slots, curSize, 0;
      ghost var es := model + [e];
      ghost var goal := SiftUp(es, hole);
      curSize := curSize + 1;
      while hole > 0
        invariant 0 <= hole < |es| == curSize && Backs(a[..], es, hole)
        invariant es[hole] == e && SiftUp(es, hole) == goal
        decreases hole
      {
        parent := (hole - 1) / 2;
        assert Holds(a[..][parent], es[parent]);
        if a[parent].expire <= timer.expire {
          break;
        }
        HoleMoves(a[..], es, hole, parent);
        a[hole] := a[parent];
        es := Swap(es, hole, parent);
        hole := parent;
      }
      HoleFilled(a[..], es, hole, timer);
      a[hole] := timer;
      model := es;
    }

    /** Cancels a timer where it is: nothing moves. */
    method DeleteTimer(timer: HeapTimer?)
      requires Valid()
      modifies (if timer == null then {} else {timer})`armed
      ensures Valid()
      ensures timer != null ==> !timer.armed
      ensures Cancelled() == old(Cancelled()) + (set e | e in model && e.timer == timer :: e.timer)
    {
      if timer == null {
        return;
      }
      timer.armed := false;
    }

    method PopTop()
      requires Valid()
      modifies this`curSize, this`model, slots
      ensures Valid() && model == Pop(old(model))
    {
      if curSize == 0 {
        return;
      }
      if slots[0] != null {
        PopKeeps(model);
        ghost var last := |model| - 1;
        LastMoves(slots[..], model);
        curSize := curSize - 1;
        slots[0] := slots[curSize];
        model := model[..last];
        if curSize > 0 {
          model := model[0 := old(model)[last]];
        }
        PercolateDown(0);
      }
    }

    /** One round of `tick`: runs the callback of the root if it is still set,
        and pops it. */
    method FireTop()
      requires Valid() && curSize > 0
      modifies this`curSize, this`model, this`fired, slots
      ensures Valid() && model == Pop(old(model))
      ensures var t := old(model)[0].timer;
              fired == old(fired) + if t.armed then [t] else []
    {
      assert Holds(slots[..][0], model[0]);
      if slots[0].armed {
        fired := fired + [slots[0]];
      }
      PopTop();
    }

    /** Pops the timers that are due at time `clock` and runs the callbacks that
        are still set. */
    method Tick(clock: int)
      requires Valid() && capacity > 0
      modifies this`curSize, this`model, this`fired, slots
      ensures Valid() && model == Rest(old(model), clock)
      ensures fired == old(fired) + Timers(Alive(Popped(old(model), clock), old(Cancelled())))
    {
      ghost var cancelled := Cancelled();
      ghost var goal := fired + Timers(Alive(Popped(model, clock), cancelled));
      var tmp := slots[0];
      while curSize != 0
        invariant Valid() && slots == old(slots) && tmp == slots[0]
        invariant forall e :: e in model ==> e in old(model)
        invariant Rest(model, clock) == Rest(old(model), clock)
        invariant fired + Timers(Alive(Popped(model, clock), cancelled)) == goal
        decreases curSize
      {
        assert Holds(slots[..][0], model[0]) && model[0] in old(model);
        if tmp.expire > clock {
          break;
        }
        PoppedFirst(fired, model, clock, cancelled);
        PopKeeps(model);
        FromMultiset(model, Pop(model));
        FireTop();
        tmp := slots[0];
      }
    }
  }

  /** An operation of a run, performed on a heap that stands for `h`: afterwards it
      stands for what the run has, and has logged what the run fires. */
  method Perform(heap: TimeHeap, op: Op<HeapTimer>, ghost h: Heap<HeapTimer>)
    requires heap.Valid() && heap.capacity > 0 && heap.Represents(h) && !op.OpAdjust?
    requires op.OpAdd? ==> op.expire == op.timer.expire && (op.timer in h.cancelled <==> !op.timer.armed)
    modifies heap, heap.slots, (if op.OpDelete? then {op.timer} else {})`armed
    ensures heap.Valid() && heap.capacity > 0 && heap.Represents(HApply(h, op))
    ensures heap.fired == old(heap.fired) +
                          if op.OpTick? then Timers(Alive(Popped(h.es, op.clock), h.cancelled)) else []
  {
    ghost var es, cancelled := heap.model, heap.Cancelled();
    match op {
      case OpAdd(t, expire) =>
        heap.AddTimer(t);
        AddedIsIn(es, Entry(t, expire));
      case OpDelete(t) =>
        heap.DeleteTimer(t);
      case OpTick(clock) =>
        heap.Tick(clock);
        TickedFrom(es, clock);
        SameAlive(Popped(es, clock), cancelled, h.cancelled);
    }
  }

  /** Copying a neighbour into the hole opens the hole at the neighbour. */
  lemma HoleMoves(slots: seq<HeapTimer?>, es: Entries, hole: nat, next: nat)
    requires Backs(slots, es, hole) && hole < |es| && next < |es| && next != hole
    ensures Backs(slots[hole := slots[next]], Swap(es, hole, next), next)
    ensures Swap(es, hole, next)[next] == es[hole]
  {
    assert Holds(slots[next], es[next]);
  }

  lemma HoleFilled(slots: seq<HeapTimer?>, es: Entries, hole: nat, timer: HeapTimer?)
    requires Backs(slots, es, hole) && hole < |slots|
    requires hole < |es| ==> Holds(timer, es[hole])
    ensures Backs(slots[hole := timer], es, |es|)
  {}

  /** `pop` copies the last timer over the root. */
  lemma LastMoves(slots: seq<HeapTimer?>, es: Entries)
    requires Backs(slots, es, |es|) && es != []
    ensures var n := |es| - 1;
            var moved := slots[0 := slots[n]];
            && (n == 0 ==> Backs(moved, [], 0))
            && (n > 0 ==> Backs(moved, es[..n][0 := es[n]], n))
  {
    assert Holds(slots[|es| - 1], es[|es| - 1]);
  }

  lemma PoppedFirst(fired: seq<HeapTimer>, es: Entries, clock: int, cancelled: set<HeapTimer>)
    requires es != [] && es[0].expire <= clock
    ensures var first := if es[0].timer in cancelled then [] else [es[0].timer];
            fired + Timers(Alive(Popped(es, clock), cancelled))
            == fired + first + Timers(Alive(Popped(Pop(es), clock), cancelled))
  {
    var p, rest := Popped(es, clock), Popped(Pop(es), clock);
    assert p == [es[0]] + rest;
    AliveCons(es[0], rest, cancelled);
    Regroup(fired, if es[0].timer in cancelled then [] else [es[0].timer], Timers(Alive(rest, cancelled)));
  }

  lemma AliveCons(e: Entry<HeapTimer>, es: Entries, cancelled: set<HeapTimer>)
    ensures Timers(Alive([e] + es, cancelled))
         == (if e.timer in cancelled then [] else [e.timer]) + Timers(Alive(es, cancelled))
  {
    var all := [e] + es;
    assert all[0] == e && all[1..] == es;
  }
}
