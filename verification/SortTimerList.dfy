/** The sorted timer list as it is built: doubly linked nodes with a head and
    a tail, rewired in place. */
module SortTimerList {
  import opened Deadlines
  import opened ListModel
  import ListAsWritten
  import ListRuns
  import opened Options

  class UtilTimer {
    var expire: int
    var prev: UtilTimer?
    var next: UtilTimer?

    constructor (deadline: int)
      ensures expire == deadline && prev == null && next == null
    {
      expire, prev, next := deadline, null, null;
    }
  }

  type Entries = seq<Entry<UtilTimer>>

  ghost function TimersOf(es: Entries): set<UtilTimer> {
    set j | 0 <= j < |es| :: es[j].timer
  }

  ghost predicate NodeOk(es: Entries, j: nat)
    requires j < |es|
    reads es[j].timer
  {
    var t := es[j].timer;
    && t.next == (if j + 1 < |es| then es[j + 1].timer else null)
    && t.prev == (if j > 0 then es[j - 1].timer else null)
  }

  /** `head` starts and, unless there are no nodes, `tail` ends the doubly
      linked list of exactly the timers `es`. */
  ghost predicate Linked(head: UtilTimer?, tail: UtilTimer?, es: Entries)
    reads TimersOf(es)
  {
    && head == (if es == [] then null else es[0].timer)
    && (es != [] ==> tail == es[|es| - 1].timer)
    && DistinctTimers(es)
    && forall j :: 0 <= j < |es| ==> NodeOk(es, j)
  }

  /** Every timer but `except` has the deadline the model knows. */
  ghost predicate Dated(es: Entries, except: UtilTimer?)
    reads TimersOf(es)
  {
    forall j :: 0 <= j < |es| && es[j].timer != except ==> es[j].timer.expire == es[j].expire
  }

  predicate Accessible(timer: UtilTimer?, freed: set<UtilTimer>) {
    timer != null && timer !in freed
  }

  class SortTimerList {
    var head: UtilTimer?
    var tail: UtilTimer?
    /** Timers whose callback ran, oldest first. */
    var fired: seq<UtilTimer>
    /** The list as a value. */
    ghost var model: Entries

    ghost predicate ValidExcept(timer: UtilTimer?)
      reads this, TimersOf(model)
    {
      Linked(head, tail, model) && Dated(model, timer)
    }

    ghost predicate Valid()
      reads this, TimersOf(model)
    {
      ValidExcept(null)
    }

    constructor ()
      ensures Valid() && model == [] && fired == []
    {
      head, tail, fired, model := null, null, [], [];
    }

    /** The walk of the private `add_timer`: from the node at position `h` on to
        the first later deadline. */
    method FindPlace(deadline: int, listHead: UtilTimer, ghost h: nat)
      returns (prev: UtilTimer, tmp: UtilTimer?, ghost k: nat)
      requires Valid() && h < |model| && model[h].timer == listHead
      ensures h < k <= |model| && prev == model[k - 1].timer
      ensures tmp == if k < |model| then model[k].timer else null
      ensures forall j :: h < j < k ==> model[j].expire <= deadline
      ensures k < |model| ==> deadline < model[k].expire
    {
      assert NodeOk(model, h);
      prev, tmp, k := listHead, listHead.next, h + 1;
      while tmp != null
        invariant h < k <= |model| && prev == model[k - 1].timer
        invariant tmp == if k < |model| then model[k].timer else null
        invariant forall j :: h < j < k ==> model[j].expire <= deadline
        decreases |model| - k
      {
        if deadline < tmp.expire {
          return;
        }
        assert NodeOk(model, k);
        prev := tmp;
        tmp := tmp.next;
        k := k + 1;
      }
    }

    /** Links `timer` in between its neighbours, which it finds behind `prev`. */
    method LinkIn(timer: UtilTimer, prev: UtilTimer, tmp: UtilTimer?, ghost k: nat)
      requires Valid() && timer !in TimersOf(model)
      requires 0 < k <= |model| && prev == model[k - 1].timer
      requires tmp == if k < |model| then model[k].timer else null
      modifies this`model, this`tail, timer`next, timer`prev, TimersOf(model)
      ensures Valid()
      ensures model == old(model)[..k] + [Entry(timer, timer.expire)] + old(model)[k..]
    {
      ghost var es, e := model, Entry(timer, timer.expire);
      assert NodeOk(es, k - 1) && (k < |es| ==> NodeOk(es, k));
      if tmp != null {
        prev.next := timer;
        timer.next := tmp;
        tmp.prev := timer;
        timer.prev := prev;
      } else {
        prev.next := timer;
        timer.prev := prev;
        timer.next := null;
        tail := timer;
      }
      model := es[..k] + [e] + es[k..];
      Inserted(es, e, k);
    }

    /** The private `add_timer`: inserts behind the node at position `h`. */
    method AddAfter(timer: UtilTimer, listHead: UtilTimer, ghost h: nat)
      requires Valid() && timer !in TimersOf(model)
      requires h < |model| && model[h].timer == listHead
      modifies this`model, this`tail, timer`next, timer`prev, TimersOf(model)
      ensures Valid()
      ensures model == old(model)[..h + 1] + Insert(old(model)[h + 1..], Entry(timer, timer.expire))
    {
      var prev, tmp, k := FindPlace(timer.expire, listHead, h);
      ghost var es, e := model, Entry(timer, timer.expire);
      ghost var goal := es[..h + 1] + Insert(es[h + 1..], e);
      InsertedAt(es, h + 1, k, e) by { assert model == es; }
      assert goal == es[..k] + [e] + es[k..];
      LinkIn(timer, prev, tmp, k);
      assert model == goal;
    }

    method AddTimer(timer: UtilTimer?)
      requires Valid()
      requires timer != null ==> timer !in TimersOf(model) && timer.next == null && timer.prev == null
      modifies this`model, this`head, this`tail, timer, TimersOf(model)
      ensures Valid()
      ensures timer != null ==> timer.expire == old(timer.expire)
      ensures model == if timer == null then old(model) else Insert(old(model), Entry(timer, old(timer.expire)))
    {
      if timer == null {
        return;
      }
      ghost var es, e := model, Entry(timer, timer.expire);
      if head == null {
        head := timer;
        tail := timer;
        model := [e];
        return;
      }
      assert NodeOk(es, 0);
      if timer.expire < head.expire {
        timer.next := head;
        head.prev := timer;
        head := timer;
        model := es[..0] + [e] + es[0..];
        Inserted(es, e, 0);
        assert model == [e] + es;
        return;
      }
      AddAfter(timer, head, 0);
      assert Insert(es, e) == es[..1] + Insert(es[1..], e);
    }

    /** Takes the node at position `k`, which is not the last, out of the list;
        its own deadline and forward link do not matter and stay as they are. */
    method Unlink(timer: UtilTimer, ghost k: nat)
      requires ValidExcept(timer) && k + 1 < |model| && model[k].timer == timer
      modifies this`model, this`head, TimersOf(model)
      ensures Valid() && model == RemoveAt(old(model), k)
      ensures TimersOf(model) == old(TimersOf(model)) - {timer}
      ensures timer.expire == old(timer.expire) && timer.next == old(timer.next)
    {
      ghost var es := model;
      assert NodeOk(es, k) && NodeOk(es, k + 1) && (k > 0 ==> NodeOk(es, k - 1));
      if timer == head {
        head := head.next;
        head.prev := null;
      } else {
        timer.prev.next := timer.next;
        timer.next.prev := timer.prev;
      }
      model := RemoveAt(es, k);
      TimersWithout(es, k);
      Removed(es, k);
    }

    /** The caller has changed the deadline of `timer`, which stands at `k`. */
    method AdjustTimer(timer: UtilTimer?, ghost k: nat)
      requires ValidExcept(timer)
      requires timer != null ==> k < |model| && model[k].timer == timer
      modifies this`model, this`head, this`tail, TimersOf(model)
      ensures Valid()
      ensures model == if timer == null then old(model)
                       else AdjustAt(old(model)[k := Entry(timer, old(timer.expire))], k)
    {
      if timer == null {
        return;
      }
      ghost var es := model[k := Entry(timer, timer.expire)];
      Relabeled(head, tail, model, k, es[k]);
      assert NodeOk(model, k);
      var tmp := timer.next;
      if tmp == null || timer.expire < tmp.expire {
        model := es;
        return;
      }
      Moves(es, k);
      MovedOthers(model, k, es[k]);
      var first := timer == head;
      Unlink(timer, k);
      Reinsert(timer, first, k);
    }

    /** Puts back a timer that was just taken out in front of position `k`. */
    method Reinsert(timer: UtilTimer, first: bool, ghost k: nat)
      requires Valid() && timer !in TimersOf(model) && k < |model|
      requires if first then k == 0 else timer.next == model[k].timer
      modifies this`model, this`tail, timer`next, timer`prev, TimersOf(model)
      ensures Valid()
      ensures model == old(model)[..k + 1] + Insert(old(model)[k + 1..], Entry(timer, timer.expire))
    {
      if first {
        timer.next := null;
        AddAfter(timer, head, k);
      } else {
        AddAfter(timer, timer.next, k);
      }
    }

    /** Takes the timer at position `k` out of the list. */
    method DeleteTimer(timer: UtilTimer?, ghost k: nat)
      requires Valid()
      requires timer != null ==> k < |model| && model[k].timer == timer
      modifies this`model, this`head, this`tail, TimersOf(model)
      ensures Valid()
      ensures model == if timer == null then old(model) else RemoveAt(old(model), k)
    {
      if timer == null {
        return;
      }
      ghost var es := model;
      assert NodeOk(es, k) && (k > 0 ==> NodeOk(es, k - 1));
      if timer == head && timer == tail {
        head, tail, model := null, null, [];
        return;
      }
      if timer == head {
        Unlink(timer, k);
        return;
      }
      if timer == tail {
        tail := tail.prev;
        tail.next := null;
        model := RemoveAt(es, k);
        TimersWithout(es, k);
        Removed(es, k);
        return;
      }
      Unlink(timer, k);
    }

    /** The same without the `return` that the tail case lacks: `freed` are the
        nodes deleted so far, and a node is accessed only if it is not one of
        them. Nothing is promised after a fault. */
    method DeleteTimerAsWritten(timer: UtilTimer?, ghost k: nat) returns (fault: bool)
      requires Valid()
      requires timer != null ==> k < |model| && model[k].timer == timer
      modifies this`model, this`head, this`tail, TimersOf(model)
      ensures fault <==> timer != null && 0 < k == |old(model)| - 1
      ensures !fault ==> Valid() && model == if timer == null then old(model) else RemoveAt(old(model), k)
    {
      if timer == null {
        return false;
      }
      ghost var es := model;
      var freed: set<UtilTimer> := {};
      assert NodeOk(es, k) && (k > 0 ==> NodeOk(es, k - 1)) && (k + 1 < |es| ==> NodeOk(es, k + 1));
      if timer == head && timer == tail {
        head, tail, model := null, null, [];
        return false;
      }
      if timer == head {
        Unlink(timer, k);
        return false;
      }
      if timer == tail {
        tail := tail.prev;
        tail.next := null;
        freed := freed + {timer};
      }
      if !Accessible(timer, freed) || !Accessible(timer.prev, freed) {
        return true;
      }
      timer.prev.next := timer.next;
      if !Accessible(timer.next, freed) {
        return true;
      }
      timer.next.prev := timer.prev;
      freed := freed + {timer};
      model := RemoveAt(es, k);
      TimersWithout(es, k);
      Removed(es, k);
      return false;
    }

    /** One round of `tick`: runs the callback of the first timer and drops it. */
    method FireHead()
      requires Valid() && model != []
      modifies this`model, this`head, this`fired, TimersOf(model)
      ensures Valid() && model == old(model)[1..] && TimersOf(model) <= old(TimersOf(model))
      ensures fired == old(fired) + [old(model)[0].timer]
    {
      ghost var es := model;
      assert NodeOk(es, 0) && (|es| > 1 ==> NodeOk(es, 1));
      ghost var log := fired + [es[0].timer];
      fired := fired + [head];
      assert fired == log;
      head := head.next;
      if head != null {
        head.prev := null;
      }
      model := es[1..];
      RemovedFirst(es);
    }

    /** Fires and drops the timers that are due at time `clock`. */
    method Tick(clock: int)
      requires Valid()
      modifies this`model, this`head, this`fired, TimersOf(model)
      ensures Valid() && model == Kept(old(model), clock)
      ensures fired == old(fired) + Timers(Due(old(model), clock))
    {
      ghost var goal := fired + Timers(Due(model, clock));
      while head != null
        invariant Valid() && TimersOf(model) <= old(TimersOf(model))
        invariant Kept(model, clock) == Kept(old(model), clock)
        invariant fired + Timers(Due(model, clock)) == goal
        decreases |model|
      {
        if clock < head.expire {
          assert Due(model, clock) == [];
          break;
        }
        FiredFirst(fired, model, clock);
        FireHead();
      }
    }
  }

  /** What deletion and adjustment do at a position is what a run does for the
      timer that stands there. */
  lemma PositionOfTimer(es: Entries, k: nat, expire: int)
    requires DistinctTimers(es) && k < |es|
    ensures RemoveAt(es, k) == ListRuns.Apply(es, ListRuns.OpDelete(es[k].timer))
    ensures AdjustAt(es[k := Entry(es[k].timer, expire)], k)
         == ListRuns.Apply(es, ListRuns.OpAdjust(es[k].timer, expire))
    ensures ListAsWritten.DeleteAsWritten(es, es[k].timer) == if 0 < k == |es| - 1 then None else Some(RemoveAt(es, k))
  {
    assert ListRuns.Find(es, es[k].timer) == k;
  }

  lemma FiredFirst(fired: seq<UtilTimer>, es: Entries, clock: int)
    requires es != [] && es[0].expire <= clock
    ensures fired + Timers(Due(es, clock)) == fired + [es[0].timer] + Timers(Due(es[1..], clock))
  {}

  /** Changing what the model knows of one deadline does not touch the links. */
  lemma Relabeled(head: UtilTimer?, tail: UtilTimer?, es: Entries, k: nat, e: Entry<UtilTimer>)
    requires Linked(head, tail, es) && k < |es| && e.timer == es[k].timer
    ensures TimersOf(es[k := e]) == TimersOf(es) && Linked(head, tail, es[k := e])
  {
    var es' := es[k := e];
    assert forall j :: 0 <= j < |es| ==> es'[j].timer == es[j].timer;
    forall j | 0 <= j < |es|
      ensures NodeOk(es', j)
    {
      assert NodeOk(es, j);
    }
  }

  /** When `adjust_timer` moves an entry, it inserts it among those behind. */
  lemma Moves(es: Entries, k: nat)
    requires k + 1 < |es| && es[k + 1].expire <= es[k].expire
    ensures var others := RemoveAt(es, k);
            AdjustAt(es, k) == others[..k + 1] + Insert(others[k + 1..], es[k])
  {
    var others := RemoveAt(es, k);
    assert others[..k] == es[..k] && others[k..] == es[k + 1..];
    PassOver(others, k, es[k]);
  }

  lemma MovedOthers(es: Entries, k: nat, e: Entry<UtilTimer>)
    requires k < |es|
    ensures RemoveAt(es[k := e], k) == RemoveAt(es, k)
  {}

  /** The place found by the walk is where stable insertion puts the entry. */
  lemma {:induction false} InsertedAt(es: Entries, i: nat, k: nat, e: Entry<UtilTimer>)
    requires i <= k <= |es|
    requires forall j :: i <= j < k ==> es[j].expire <= e.expire
    requires k < |es| ==> e.expire < es[k].expire
    ensures es[..i] + Insert(es[i..], e) == es[..k] + [e] + es[k..]
    decreases k - i
  {
    if i < k {
      PassOver(es, i, e);
      InsertedAt(es, i + 1, k, e);
    } else {
      InsertHere(es[..k], es[k..], e);
    }
  }

  lemma InsertHere(a: Entries, b: Entries, e: Entry<UtilTimer>)
    requires b == [] || e.expire < b[0].expire
    ensures a + Insert(b, e) == a + [e] + b
  {}

  lemma PassOver(es: Entries, k: nat, e: Entry<UtilTimer>)
    requires k < |es| && es[k].expire <= e.expire
    ensures es[..k + 1] + Insert(es[k + 1..], e) == es[..k] + Insert(es[k..], e)
  {
    assert es[k..][1..] == es[k + 1..];
    assert es[..k + 1] == es[..k] + [es[k]];
  }

  /** Rewiring the two neighbours of position `k` links a new node in. */
  twostate lemma Inserted(es: Entries, new e: Entry<UtilTimer>, new k: nat)
    requires k <= |es| && DistinctTimers(es) && e.timer !in TimersOf(es)
    requires forall j :: 0 <= j < |es| ==> old(NodeOk(es, j))
    requires old(Dated(es, null)) && e.timer.expire == e.expire
    requires forall j :: 0 <= j < |es| ==> es[j].timer.expire == old(es[j].timer.expire)
    requires e.timer.prev == (if k > 0 then es[k - 1].timer else null)
    requires e.timer.next == (if k < |es| then es[k].timer else null)
    requires forall j :: 0 <= j < |es| ==>
               && es[j].timer.next == (if j + 1 == k then e.timer else old(es[j].timer.next))
               && es[j].timer.prev == (if j == k then e.timer else old(es[j].timer.prev))
    ensures var es' := es[..k] + [e] + es[k..];
            && Linked(es'[0].timer, es'[|es|].timer, es') && Dated(es', null)
  {
    var es' := es[..k] + [e] + es[k..];
    assert forall j :: 0 <= j < |es'| ==> es'[j] == if j < k then es[j] else if j == k then e else es[j - 1];
    forall j | 0 <= j < |es'|
      ensures NodeOk(es', j)
    {
      if j < k {
        assert old(NodeOk(es, j));
      } else if j > k {
        assert old(NodeOk(es, j - 1));
      }
    }
    forall i, j | 0 <= i < j < |es'|
      ensures es'[i].timer != es'[j].timer
    {
      assert i != k ==> es'[i].timer in TimersOf(es);
      assert j != k ==> es'[j].timer in TimersOf(es);
    }
  }

  lemma TimersWithout(es: Entries, k: nat)
    requires k < |es| && DistinctTimers(es)
    ensures TimersOf(RemoveAt(es, k)) == TimersOf(es) - {es[k].timer}
  {
    var es' := RemoveAt(es, k);
    forall t | t in TimersOf(es) && t != es[k].timer
      ensures t in TimersOf(es')
    {
      var j :| 0 <= j < |es| && es[j].timer == t;
      assert es[j] == es'[if j < k then j else j - 1];
    }
    assert forall j :: 0 <= j < |es'| ==> es'[j] == es[if j < k then j else j + 1];
  }

  /** Rewiring the two neighbours of position `k` takes its node out. */
  twostate lemma Removed(es: Entries, new k: nat)
    requires k < |es| && DistinctTimers(es)
    requires forall j :: 0 <= j < |es| ==> old(NodeOk(es, j))
    requires old(Dated(es, es[k].timer))
    requires forall j :: 0 <= j < |es| && j != k ==>
               && es[j].timer.expire == old(es[j].timer.expire)
               && es[j].timer.next == (if j + 1 == k then old(es[k].timer.next) else old(es[j].timer.next))
               && es[j].timer.prev == (if j == k + 1 then old(es[k].timer.prev) else old(es[j].timer.prev))
    ensures var es' := RemoveAt(es, k);
            && DistinctTimers(es') && forall j :: 0 <= j < |es'| ==> NodeOk(es', j)
  {
    var es' := RemoveAt(es, k);
    assert forall j :: 0 <= j < |es'| ==> es'[j] == if j < k then es[j] else es[j + 1];
    assert old(NodeOk(es, k));
    forall j | 0 <= j < |es'|
      ensures NodeOk(es', j)
    {
      assert old(NodeOk(es, if j < k then j else j + 1));
    }
  }

  /** Clearing the back link of the second node takes the first out. */
  twostate lemma RemovedFirst(es: Entries)
    requires es != [] && DistinctTimers(es) && old(Dated(es, null))
    requires forall j :: 0 <= j < |es| ==> old(NodeOk(es, j))
    requires forall j :: 1 <= j < |es| ==>
               && es[j].timer.expire == old(es[j].timer.expire) && es[j].timer.next == old(es[j].timer.next)
               && es[j].timer.prev == if j == 1 then null else old(es[j].timer.prev)
    ensures var es' := es[1..];
            && DistinctTimers(es') && Dated(es', null) && TimersOf(es') <= TimersOf(es)
            && forall j :: 0 <= j < |es'| ==> NodeOk(es', j)
  {
    var es' := es[1..];
    assert forall j :: 0 <= j < |es'| ==> es'[j] == es[j + 1];
    forall j | 0 <= j < |es'|
      ensures NodeOk(es', j)
    {
      assert old(NodeOk(es, j + 1));
    }
  }
}
