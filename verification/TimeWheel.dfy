/** The timing wheel as it is built: an array of doubly linked lists whose
    nodes are rewired in place. */
module TimeWheel {
  import opened Order
  import opened WheelModel

  class Timer {
    var rotation: nat
    var timeSlot: nat
    var next: Timer?
    var prev: Timer?

    constructor (rot: nat, ts: nat)
      ensures rotation == rot && timeSlot == ts && next == null && prev == null
    {
      rotation, timeSlot, next, prev := rot, ts, null, null;
    }
  }

  ghost function TimersOf(es: seq<Entry<Timer>>): set<Timer> {
    set j | 0 <= j < |es| :: es[j].timer
  }

  ghost predicate DistinctTimers(es: seq<Entry<Timer>>) {
    forall i, j :: 0 <= i < j < |es| ==> es[i].timer != es[j].timer
  }

  /** Node `j` of the list `es` of slot `slot` is linked to its neighbours. */
  ghost predicate NodeOk(es: seq<Entry<Timer>>, j: nat, slot: nat)
    requires j < |es|
    reads es[j].timer
  {
    var t := es[j].timer;
    && t.next == (if j + 1 < |es| then es[j + 1].timer else null)
    && t.prev == (if j > 0 then es[j - 1].timer else null)
    && t.timeSlot == slot && t.rotation == es[j].rotation
  }

  /** `head` starts the doubly linked list of exactly the timers `es`. */
  ghost predicate Linked(head: Timer?, es: seq<Entry<Timer>>, slot: nat)
    reads TimersOf(es)
  {
    && head == (if es == [] then null else es[0].timer)
    && DistinctTimers(es)
    && forall j :: 0 <= j < |es| ==> NodeOk(es, j, slot)
  }

  class TimeWheel {
    const si: nat
    const slots: array<Timer?>
    var curSlot: nat
    /** Timers whose callback ran, oldest first. */
    var fired: seq<Timer>
    /** The wheel as a value, and the nodes it may be made of. */
    ghost var model: Wheel<Timer>
    ghost var nodes: set<Timer>

    ghost predicate Valid()
      reads this, slots, nodes
    {
      && si > 0
      && model.Valid() && model.N() == slots.Length && model.cur == curSlot
      && forall i :: 0 <= i < slots.Length ==> SlotOk(i)
    }

    ghost predicate SlotOk(i: nat)
      requires model.N() == slots.Length && i < slots.Length
      reads this, slots, nodes
    {
      TimersOf(model.slots[i]) <= nodes && Linked(slots[i], model.slots[i], i)
    }

    constructor (slotCount: nat, interval: nat)
      requires slotCount > 0 && interval > 0
      ensures Valid() && fresh(slots) && fired == [] && nodes == {}
      ensures slots.Length == slotCount && si == interval
      ensures model == Wheel(0, seq(slotCount, i => []))
    {
      si := interval;
      slots := new Timer?[slotCount](i => null);
      curSlot := 0;
      fired := [];
      model := Wheel(0, seq(slotCount, i => []));
      nodes := {};
    }

    /** Nodes in different slots are different nodes. */
    lemma Apart(s: nat)
      requires Valid() && s < slots.Length
      ensures forall i :: 0 <= i < slots.Length && i != s ==> TimersOf(model.slots[i]) !! TimersOf(model.slots[s])
    {
      assert SlotOk(s);
      forall i | 0 <= i < slots.Length && i != s
        ensures TimersOf(model.slots[i]) !! TimersOf(model.slots[s])
      {
        assert SlotOk(i);
        SlotsApart(slots[i], model.slots[i], i, slots[s], model.slots[s], s);
      }
    }

    /** Puts a new node in front of the list of slot `s`. */
    method PushFront(s: nat, timer: Timer, ghost es: seq<Entry<Timer>>)
      requires s < slots.Length && Linked(slots[s], es, s)
      requires timer !in TimersOf(es) && timer.timeSlot == s && timer.next == null && timer.prev == null
      modifies slots, timer, TimersOf(es)
      ensures Linked(slots[s], [Entry(timer, old(timer.rotation))] + es, s)
      ensures forall i :: 0 <= i < slots.Length && i != s ==> slots[i] == old(slots[i])
    {
      if slots[s] == null {
        slots[s] := timer;
      } else {
        assert NodeOk(es, 0, s);
        timer.next := slots[s];
        slots[s].prev := timer;
        slots[s] := timer;
      }
      ghost var es' := [Entry(timer, timer.rotation)] + es;
      forall j | 0 <= j < |es'|
        ensures NodeOk(es', j, s)
      {
        if j > 0 {
          assert es'[j] == es[j - 1] && es'[j].timer in TimersOf(es);
          assert old(NodeOk(es, j - 1, s));
          assert j < |es| ==> es'[j + 1] == es[j];
          assert j > 1 ==> es[j - 1].timer != es[0].timer && es'[j - 1] == es[j - 2];
        }
      }
    }

    method AddTimer(timeout: int) returns (timer: Timer?)
      requires Valid()
      modifies this, slots, nodes
      ensures Valid() && fired == old(fired) && fresh(nodes - old(nodes))
      ensures timer == null <==> timeout < 0
      ensures timer == null ==> model == old(model)
      ensures timer != null ==> fresh(timer) && timer in nodes && model == Add(old(model), timer, timeout, si)
    {
      if timeout < 0 {
        return null;
      }
      var rotation, ts := Locate(timeout);
      var t := new Timer(rotation, ts);
      Insert(ts, t);
      timer := t;
    }

    /** Where a timer with that timeout goes. */
    method Locate(timeout: nat) returns (rotation: nat, ts: nat)
      requires si > 0 && curSlot < slots.Length
      ensures ts < slots.Length
      ensures rotation == RotationsFor(timeout, si, slots.Length)
      ensures ts == SlotFor(curSlot, timeout, si, slots.Length)
    {
      var ticks := if timeout < si then 1 else timeout / si;
      rotation := ticks / slots.Length;
      ts := (curSlot + (ticks % slots.Length)) % slots.Length;
    }

    /** Inserts a new node and accounts for it in the model. */
    method Insert(ts: nat, timer: Timer)
      requires Valid() && ts < slots.Length && timer !in nodes
      requires timer.timeSlot == ts && timer.next == null && timer.prev == null
      modifies this`model, this`nodes, slots, timer, nodes
      ensures Valid() && nodes == old(nodes) + {timer}
      ensures var slot := [Entry(timer, old(timer.rotation))] + old(model).slots[ts];
              model == old(model).(slots := old(model).slots[ts := slot])
    {
      Apart(ts);
      assert SlotOk(ts);
      ghost var es := model.slots[ts];
      ghost var e := Entry(timer, timer.rotation);
      PushFront(ts, timer, es);
      KeepsOthers(ts);
      TimersCons(e, es);
      model := model.(slots := model.slots[ts := [e] + es]);
      nodes := nodes + {timer};
      forall i | 0 <= i < slots.Length
        ensures SlotOk(i)
      {
        assert old(SlotOk(i));
      }
    }

    /** Takes node `k` out of the list of slot `s`. */
    method Unlink(s: nat, timer: Timer, ghost es: seq<Entry<Timer>>, ghost k: nat)
      requires s < slots.Length && Linked(slots[s], es, s)
      requires k < |es| && es[k].timer == timer
      modifies slots, TimersOf(es)
      ensures Linked(slots[s], es[..k] + es[k + 1..], s)
      ensures forall i :: 0 <= i < slots.Length && i != s ==> slots[i] == old(slots[i])
    {
      assert NodeOk(es, k, s);
      assert k > 0 ==> NodeOk(es, k - 1, s);
      assert k + 1 < |es| ==> NodeOk(es, k + 1, s);
      if timer == slots[s] {
        slots[s] := timer.next;
        if slots[s] != null {
          slots[s].prev := null;
        }
      } else {
        timer.prev.next := timer.next;
        if timer.next != null {
          timer.next.prev := timer.prev;
        }
      }
      ghost var es' := es[..k] + es[k + 1..];
      forall j | 0 <= j < |es'|
        ensures NodeOk(es', j, s)
      {
        if j < k {
          assert old(NodeOk(es, j, s));
        } else {
          assert old(NodeOk(es, j + 1, s));
        }
      }
    }

    ghost predicate Live(timer: Timer)
      requires Valid()
      reads this, slots, nodes, timer
    {
      timer.timeSlot < slots.Length && timer in TimersOf(model.slots[timer.timeSlot])
    }

    method DeleteTimer(timer: Timer?)
      requires Valid() && (timer != null ==> Live(timer))
      modifies this`model, slots, nodes
      ensures Valid()
      ensures model == if timer == null then old(model) else Delete(old(model), timer)
    {
      if timer == null {
        return;
      }
      var ts := timer.timeSlot;
      ghost var es := model.slots[ts];
      ghost var k: nat :| k < |es| && es[k].timer == timer;
      Apart(ts);
      assert SlotOk(ts);
      Unlink(ts, timer, es, k);
      KeepsOthers(ts);
      DeleteAt(model, timer, ts, k);
      model := Delete(model, timer);
      forall i | 0 <= i < slots.Length
        ensures SlotOk(i)
      {
        assert old(SlotOk(i));
      }
    }

    method Tick()
      requires Valid()
      modifies this, slots, nodes
      ensures Valid() && nodes == old(nodes)
      ensures model == WheelModel.Tick(old(model))
      ensures fired == old(fired) + Fired(old(model))
    {
      Apart(curSlot);
      assert SlotOk(curSlot);
      ghost var es := model.slots[curSlot];
      TickSlot(es);
      KeepsOthers(curSlot);
      TurnedTimers(es);
      assert WheelModel.Tick(model).slots == model.slots[curSlot := Turned(es)];
      curSlot := (curSlot + 1) % slots.Length;
      model := WheelModel.Tick(model);
      forall i | 0 <= i < slots.Length
        ensures SlotOk(i)
      {
        assert old(SlotOk(i));
      }
    }

    /** Walks the current slot: fires and removes the timers whose rotations
        have run out, takes one rotation off the others. */
    method TickSlot(ghost es: seq<Entry<Timer>>)
      requires curSlot < slots.Length && Linked(slots[curSlot], es, curSlot)
      modifies this`fired, slots, TimersOf(es)
      ensures Linked(slots[curSlot], Turned(es), curSlot)
      ensures fired == old(fired) + Expired(es)
      ensures forall i :: 0 <= i < slots.Length && i != curSlot ==> slots[i] == old(slots[i])
    {
      var tmp := slots[curSlot];
      ghost var kept: seq<Entry<Timer>>, rest := [], es;
      ghost var turned, all := Turned(es), fired + Expired(es);
      assert kept + rest == es && kept + turned == turned;
      while tmp != null
        invariant Linked(slots[curSlot], kept + rest, curSlot)
        invariant TimersOf(kept + rest) <= TimersOf(es)
        invariant tmp == if rest == [] then null else rest[0].timer
        invariant kept + Turned(rest) == turned
        invariant fired + Expired(rest) == all
        invariant forall i :: 0 <= i < slots.Length && i != curSlot ==> slots[i] == old(slots[i])
        decreases |rest|
      {
        WalkStep(kept, rest, fired);
        tmp, kept, rest := Visit(tmp, kept, rest);
      }
      assert kept + rest == kept + Turned(rest);
    }

    /** One step of the walk, at the node between `kept` and the rest. */
    method Visit(timer: Timer, ghost kept: seq<Entry<Timer>>, ghost rest: seq<Entry<Timer>>)
      returns (next: Timer?, ghost kept': seq<Entry<Timer>>, ghost rest': seq<Entry<Timer>>)
      requires curSlot < slots.Length && Linked(slots[curSlot], kept + rest, curSlot)
      requires rest != [] && rest[0].timer == timer
      modifies this`fired, slots, TimersOf(kept + rest)
      ensures rest' == rest[1..] && kept' == kept + KeptFirst(rest)
      ensures Linked(slots[curSlot], kept' + rest', curSlot)
      ensures TimersOf(kept' + rest') <= TimersOf(kept + rest)
      ensures next == if rest' == [] then null else rest'[0].timer
      ensures fired == old(fired) + FiredFirst(rest)
      ensures forall i :: 0 <= i < slots.Length && i != curSlot ==> slots[i] == old(slots[i])
    {
      ghost var all, k := kept + rest, |kept|;
      assert NodeOk(all, k, curSlot) && all[k] == rest[0];
      kept', rest' := kept + KeptFirst(rest), rest[1..];
      next := timer.next;
      if timer.rotation > 0 {
        KeepStep(kept, rest, KeptFirst(rest)[0]);
        LowerRotation(curSlot, timer, all, k);
      } else {
        assert kept' == kept;
        FireStep(kept, rest);
        fired := fired + [timer];
        Unlink(curSlot, timer, all, k);
      }
    }

    /** Takes one rotation off node `k` of the list of slot `s`. */
    method LowerRotation(s: nat, timer: Timer, ghost es: seq<Entry<Timer>>, ghost k: nat)
      requires s < slots.Length && Linked(slots[s], es, s)
      requires k < |es| && es[k].timer == timer && es[k].rotation > 0
      modifies timer`rotation
      ensures Linked(slots[s], es[k := es[k].(rotation := es[k].rotation - 1)], s)
    {
      assert NodeOk(es, k, s);
      timer.rotation := timer.rotation - 1;
      ghost var es' := es[k := es[k].(rotation := es[k].rotation - 1)];
      forall j | 0 <= j < |es|
        ensures NodeOk(es', j, s)
      {
        assert old(NodeOk(es, j, s));
      }
    }

    /** A change confined to the array element and the list of slot `s` leaves
        the other slots as they were. */
    twostate lemma KeepsOthers(new s: nat)
      requires old(Valid()) && s < slots.Length
      requires forall i :: 0 <= i < slots.Length && i != s ==> slots[i] == old(slots[i])
      requires forall i :: 0 <= i < slots.Length && i != s ==> old(TimersOf(model.slots[i]) !! TimersOf(model.slots[s]))
      requires forall t :: t in old(nodes) && t !in old(TimersOf(model.slots[s])) ==> unchanged(t)
      ensures forall i :: 0 <= i < slots.Length && i != s ==> Linked(slots[i], old(model.slots[i]), i)
    {
      forall i | 0 <= i < slots.Length && i != s
        ensures Linked(slots[i], old(model.slots[i]), i)
      {
        assert old(SlotOk(i));
      }
    }
  }

  /** What the walk over the current slot does to the part already walked and
      the part still to come, when it keeps the next node and when it fires it. */
  lemma KeepStep(kept: seq<Entry<Timer>>, rest: seq<Entry<Timer>>, turned: Entry<Timer>)
    requires rest != [] && rest[0].rotation > 0
    requires turned == rest[0].(rotation := rest[0].rotation - 1)
    ensures (kept + rest)[|kept| := turned] == kept + [turned] + rest[1..]
    ensures TimersOf(kept + [turned] + rest[1..]) <= TimersOf(kept + rest)
  {
    ReplaceFirst(kept, rest, turned);
    SameTimers(kept + rest, |kept|, turned);
  }

  lemma ReplaceFirst<X>(a: seq<X>, b: seq<X>, x: X)
    requires b != []
    ensures (a + b)[|a| := x] == a + [x] + b[1..]
  {}

  lemma SameTimers(es: seq<Entry<Timer>>, k: nat, e: Entry<Timer>)
    requires k < |es| && e.timer == es[k].timer
    ensures TimersOf(es[k := e]) <= TimersOf(es)
  {}

  lemma FireStep(kept: seq<Entry<Timer>>, rest: seq<Entry<Timer>>)
    requires rest != [] && rest[0].rotation == 0
    ensures (kept + rest)[..|kept|] + (kept + rest)[|kept| + 1..] == kept + rest[1..]
    ensures TimersOf(kept + rest[1..]) <= TimersOf(kept + rest)
  {
    var all, all' := kept + rest, kept + rest[1..];
    assert forall j :: 0 <= j < |all'| ==> all'[j] == if j < |kept| then all[j] else all[j + 1];
  }

  /** What a step of the walk keeps of the node it visits, and what it fires. */
  ghost function KeptFirst(rest: seq<Entry<Timer>>): seq<Entry<Timer>>
    requires rest != []
  {
    if rest[0].rotation > 0 then [rest[0].(rotation := rest[0].rotation - 1)] else []
  }

  ghost function FiredFirst(rest: seq<Entry<Timer>>): seq<Timer>
    requires rest != []
  {
    if rest[0].rotation > 0 then [] else [rest[0].timer]
  }

  lemma WalkStep(kept: seq<Entry<Timer>>, rest: seq<Entry<Timer>>, fired: seq<Timer>)
    requires rest != []
    ensures kept + Turned(rest) == kept + KeptFirst(rest) + Turned(rest[1..])
    ensures fired + Expired(rest) == fired + FiredFirst(rest) + Expired(rest[1..])
  {
    Regroup(kept, KeptFirst(rest), Turned(rest[1..]));
    Regroup(fired, FiredFirst(rest), Expired(rest[1..]));
  }

  lemma {:induction false} WithoutAbsent(es: seq<Entry<Timer>>, t: Timer)
    requires t !in TimersOf(es)
    ensures Without(es, t) == es
  {
    if es != [] {
      assert es[0].timer in TimersOf(es);
      assert forall j :: 0 <= j < |es| - 1 ==> es[1..][j] == es[j + 1];
      WithoutAbsent(es[1..], t);
    }
  }

  lemma {:induction false} WithoutAt(es: seq<Entry<Timer>>, k: nat)
    requires k < |es| && DistinctTimers(es)
    ensures Without(es, es[k].timer) == es[..k] + es[k + 1..]
  {
    assert forall j :: 0 <= j < |es| - 1 ==> es[1..][j] == es[j + 1];
    if k == 0 {
      WithoutAbsent(es[1..], es[0].timer);
    } else {
      WithoutAt(es[1..], k - 1);
      assert es[..k] == [es[0]] + es[1..][..k - 1];
    }
  }

  /** Deleting a timer from the model touches only the slot that holds it. */
  lemma DeleteAt(w: Wheel<Timer>, t: Timer, s: nat, k: nat)
    requires w.Valid() && s < w.N() && k < |w.slots[s]| && w.slots[s][k].timer == t
    requires DistinctTimers(w.slots[s])
    requires forall i :: 0 <= i < w.N() && i != s ==> t !in TimersOf(w.slots[i])
    ensures Delete(w, t) == w.(slots := w.slots[s := w.slots[s][..k] + w.slots[s][k + 1..]])
  {
    forall i | 0 <= i < w.N()
      ensures Without(w.slots[i], t) == if i == s then w.slots[s][..k] + w.slots[s][k + 1..] else w.slots[i]
    {
      if i == s {
        WithoutAt(w.slots[s], k);
      } else {
        WithoutAbsent(w.slots[i], t);
      }
    }
  }

  lemma {:induction false} TurnedTimers(es: seq<Entry<Timer>>)
    ensures TimersOf(Turned(es)) <= TimersOf(es)
  {
    if es != [] {
      TurnedTimers(es[1..]);
      assert es == [es[0]] + es[1..];
      TimersCons(es[0], es[1..]);
      TimersCons(es[0].(rotation := if es[0].rotation > 0 then es[0].rotation - 1 else 0), Turned(es[1..]));
      assert [] + Turned(es[1..]) == Turned(es[1..]);
    }
  }

  lemma TimersCons(e: Entry<Timer>, es: seq<Entry<Timer>>)
    ensures TimersOf([e] + es) == {e.timer} + TimersOf(es)
  {
    assert forall j :: 0 <= j < |es| ==> ([e] + es)[j + 1] == es[j];
    assert ([e] + es)[0] == e;
  }

  lemma SlotsApart(h: Timer?, es: seq<Entry<Timer>>, i: nat, h': Timer?, es': seq<Entry<Timer>>, i': nat)
    requires Linked(h, es, i) && Linked(h', es', i') && i != i'
    ensures TimersOf(es) !! TimersOf(es')
  {
    forall j, j' | 0 <= j < |es| && 0 <= j' < |es'|
      ensures es[j].timer != es'[j'].timer
    {
      assert NodeOk(es, j, i) && NodeOk(es', j', i');
    }
  }
}
