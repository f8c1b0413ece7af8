/** The timer heap as it is written, before its repairs: what `percolate_down`
    and the array constructor then do, slot by slot. */
module HeapAsWritten {
  import opened Deadlines
  import opened HeapModel

  /** A slot of the array: no pointer yet, a pointer to a timer, or a pointer to
      a timer that was deleted. */
  datatype Slot<T> = Null | To(entry: Entry<T>) | Freed

  /** `Fault`: a timer is accessed through a null or dangling pointer, or a slot
      outside the array is accessed. */
  datatype Outcome<T> = Throws | Fault | Done(slots: seq<Slot<T>>)

  predicate Readable<T>(slots: seq<Slot<T>>, i: nat) {
    i < |slots| && slots[i].To?
  }

  function Slots<T>(es: seq<Entry<T>>, cap: nat): (r: seq<Slot<T>>)
    requires |es| <= cap
    ensures |r| == cap && forall i :: 0 <= i < cap ==> r[i] == if i < |es| then To(es[i]) else Null
  {
    seq(cap, i requires 0 <= i < cap => if i < |es| then To(es[i]) else Null)
  }

  /** One round of the loop: its guard `hole << 1 | 1 <= cur_size` is a bitwise
      or of `hole << 1` and `1 <= cur_size`. */
  function Percolate<T>(slots: seq<Slot<T>>, size: nat, hole: nat, tmp: Slot<T>): Outcome<T>
    requires hole < |slots|
    decreases |slots| - hole
  {
    if hole == 0 && size == 0 then Done(slots[hole := tmp])
    else
      var left := 2 * hole + 1;
      if left <= size - 1 && !(Readable(slots, left) && Readable(slots, left + 1)) then Fault
      else
        var child :=
          if left <= size - 1 && slots[left + 1].entry.expire < slots[left].entry.expire then left + 1 else left;
        if !Readable(slots, hole) || !Readable(slots, child) then Fault
        else if slots[hole].entry.expire > slots[child].entry.expire then
          Percolate(slots[hole := slots[child]], size, child, tmp)
        else Done(slots[hole := tmp])
  }

  // ----- The array constructor -----

  function SiftAll<T>(slots: seq<Slot<T>>, size: nat, i: nat): Outcome<T>
    requires i < |slots|
    decreases i
  {
    if i == 0 then Done(slots)
    else
      var r := Percolate(slots, size, i, slots[i]);
      if r.Done? && |r.slots| == |slots| then SiftAll(r.slots, size, i - 1) else r
  }

  function Construct<T>(init: seq<Entry<T>>, cap: nat): Outcome<T> {
    if |init| < cap then Throws
    else if cap < |init| then Fault
    else if init == [] then Done([])
    else SiftAll(Slots(init, cap), |init|, (|init| - 1) / 2)
  }

  /** As written the constructor succeeds exactly for an array that is full and
      holds at most two timers; and it then leaves them in the order they came. */
  lemma ConstructsAtMostTwo<T>(init: seq<Entry<T>>, cap: nat)
    ensures Construct(init, cap).Done? <==> |init| == cap && cap <= 2
    ensures |init| == cap <= 2 ==> Construct(init, cap) == Done(Slots(init, cap))
    ensures Construct(init, cap) == Throws <==> |init| < cap
  {
    // The first sift of a longer full array looks for a child behind its end.
  }

  /** Even then it is the repaired constructor only if there was nothing to sift. */
  lemma ConstructsHeapIff<T>(init: seq<Entry<T>>, cap: nat)
    ensures Construct(init, cap).Done? && Stores(Construct(init, cap).slots, Build(init)) <==>
              |init| == cap <= 2 && (cap == 2 ==> init[0].expire <= init[1].expire)
  {
    ConstructsAtMostTwo(init, cap);
    if |init| == cap <= 2 {
      assert Construct(init, cap) == Done(Slots(init, cap));
      if cap == 2 {
        TwoAreHeap(init);
        assert Stores(Slots(init, cap), Build(init)) <==> Build(init) == init by {
          if Stores(Slots(init, cap), Build(init)) {
            assert forall i :: 0 <= i < 2 ==> To(Build(init)[i]) == To(init[i]);
          }
        }
      } else if cap == 1 {
        assert Build(init) == init;
      }
    }
  }

  lemma TwoAreHeap<T>(init: seq<Entry<T>>)
    requires |init| == 2
    ensures Build(init) == init <==> init[0].expire <= init[1].expire
  {
    assert Parent(2) == 0;
    HeapifyStep(init, 0);
    BuildsHeap(init);
    assert HeapOk(Build(init)) ==> Build(init)[Parent(1)].expire <= Build(init)[1].expire;
  }

  /** The smallest input on which it succeeds and leaves no heap. */
  lemma TwoOutOfOrder()
    ensures var init := [Entry(0, 5), Entry(1, 3)];
            && Construct(init, 2) == Done(Slots(init, 2)) && !HeapOk(init)
            && !Stores(Slots(init, 2), Build(init))
  {
    var init := [Entry(0, 5), Entry(1, 3)];
    ConstructsAtMostTwo(init, 2);
    ConstructsHeapIff(init, 2);
    assert Parent(1) == 0;
  }

  /** The loop of the constructor as written, with the repaired sift: positions
      below `n`, the last one first, but not the root. */
  function HeapifyBelowRoot<T>(s: seq<Entry<T>>, n: nat): (r: seq<Entry<T>>)
    requires n <= |s|
    ensures |r| == |s| && multiset(r) == multiset(s)
    decreases n
  {
    if n <= 1 then s else HeapifyBelowRoot(SiftDown(s, n - 1), n - 1)
  }

  lemma {:induction false} SiftKeepsFront<T>(s: seq<Entry<T>>, hole: nat)
    requires hole < |s|
    ensures forall i :: 0 <= i < hole ==> SiftDown(s, hole)[i] == s[i]
    decreases |s| - hole
  {
    if 2 * hole + 1 < |s| && s[hole].expire > s[Child(s, hole)].expire {
      SiftKeepsFront(Swap(s, hole, Child(s, hole)), Child(s, hole));
    }
  }

  lemma {:induction false} BelowRootSifted<T>(s: seq<Entry<T>>, n: nat)
    requires 1 <= n <= |s| && HeapFrom(s, n)
    ensures HeapFrom(HeapifyBelowRoot(s, n), 1) && HeapifyBelowRoot(s, n)[0] == s[0]
    decreases n
  {
    if n > 1 {
      SiftRoot(s, n - 1);
      SiftKeepsFront(s, n - 1);
      BelowRootSifted(SiftDown(s, n - 1), n - 1);
    }
  }

  predicate NoneEarlier<T>(s: seq<Entry<T>>, e: Entry<T>) {
    forall i :: 0 <= i < |s| ==> e.expire <= s[i].expire
  }

  lemma NoneEarlierOf<T>(s: seq<Entry<T>>, r: seq<Entry<T>>, e: Entry<T>)
    requires multiset(r) <= multiset(s) && NoneEarlier(s, e)
    ensures NoneEarlier(r, e)
  {
    FromMultiset(s, r);
  }

  lemma RootMakesHeap<T>(s: seq<Entry<T>>, r: seq<Entry<T>>)
    requires r != [] && HeapFrom(r, 1) && s != [] && r[0] == s[0] && multiset(r) == multiset(s)
    ensures HeapOk(r) <==> NoneEarlier(s, s[0])
  {
    if HeapOk(r) {
      RootIsEarliest(r);
      NoneEarlierOf(r, s, s[0]);
    }
    if NoneEarlier(s, s[0]) {
      NoneEarlierOf(s, r, s[0]);
    }
  }

  /** Whatever the size, leaving the root out yields a heap exactly if the first
      timer of the array is not later than any other. */
  lemma RootLeftOutIff<T>(s: seq<Entry<T>>)
    requires s != []
    ensures HeapOk(HeapifyBelowRoot(s, Parent(|s|) + 1)) <==> NoneEarlier(s, s[0])
  {
    BelowRootSifted(s, Parent(|s|) + 1);
    RootMakesHeap(s, HeapifyBelowRoot(s, Parent(|s|) + 1));
  }

  // ----- Popping -----

  ghost predicate Stores<T>(slots: seq<Slot<T>>, s: seq<Entry<T>>) {
    |s| <= |slots| && forall i :: 0 <= i < |s| ==> slots[i] == To(s[i])
  }

  /** Deleting a timer leaves every pointer to it dangling. */
  function Delete<T(==)>(slots: seq<Slot<T>>, t: T): (r: seq<Slot<T>>)
    ensures |r| == |slots|
    ensures forall i :: 0 <= i < |r| ==> r[i] == if slots[i].To? && slots[i].entry.timer == t then Freed else slots[i]
  {
    seq(|slots|, i requires 0 <= i < |slots| =>
      if slots[i].To? && slots[i].entry.timer == t then Freed else slots[i])
  }

  /** `pop` on an array whose first `size` slots are in use. */
  function PopSlots<T(==)>(slots: seq<Slot<T>>, size: nat): Outcome<T>
    requires 0 < size <= |slots| && slots[0].To?
  {
    var rest := Delete(slots, slots[0].entry.timer);
    Percolate(rest[0 := rest[size - 1]], size - 1, 0, rest[size - 1])
  }

  /** The heap after the last timer was copied over the root. */
  function Moved<T>(s: seq<Entry<T>>): (r: seq<Entry<T>>)
    requires |s| > 1
    ensures |r| == |s| - 1 && forall i :: 0 < i < |r| ==> r[i] == s[i]
    ensures r[0] == s[|s| - 1]
  {
    s[..|s| - 1][0 := s[|s| - 1]]
  }

  /** The array at that point. */
  function Copied<T(==)>(slots: seq<Slot<T>>, s: seq<Entry<T>>): (f: seq<Slot<T>>)
    requires 1 < |s| <= |slots|
    ensures |f| == |slots|
  {
    Delete(slots, s[0].timer)[0 := To(s[|s| - 1])]
  }

  /** The array after the last timer went one level down, to position `c`. */
  function OneDown<T>(f: seq<Slot<T>>, c: nat): (g: seq<Slot<T>>)
    requires 0 < c < |f|
    ensures |g| == |f|
  {
    f[0 := f[c]][c := f[0]]
  }

  lemma CopiedStores<T>(slots: seq<Slot<T>>, s: seq<Entry<T>>)
    requires Stores(slots, s) && DistinctTimers(s) && |s| > 1
    ensures Stores(Copied(slots, s), Moved(s))
    ensures forall i :: 0 < i < |s| ==> Copied(slots, s)[i] == To(s[i])
    ensures PopSlots(slots, |s|) == Percolate(Copied(slots, s), |s| - 1, 0, To(s[|s| - 1]))
  {}

  /** What a pop as written does to any heap, whatever its history left in the
      slots behind it: nothing more when the last timer is not later than the
      earlier child `c` of the root, and else one level down, but by way of the
      slot of the left child of `c`. When that is behind the heap it must be
      readable, and a stale timer there must not be earlier than `c`. */
  lemma PopCases<T>(slots: seq<Slot<T>>, s: seq<Entry<T>>)
    requires Stores(slots, s) && HeapOk(s) && DistinctTimers(s) && |s| > 2
    ensures var f, r := Copied(slots, s), Moved(s);
            var c := Child(r, 0);
            var below := 2 * c + 1;
            PopSlots(slots, |s|) ==
            if r[0].expire <= r[c].expire then Done(f)
            else if below < |s| then Done(OneDown(f, c))
            else if !Readable(f, below) then Fault
            else if f[below].entry.expire >= r[c].expire then Done(OneDown(f, c))
            else Percolate(f[0 := To(r[c])][c := f[below]], |s| - 1, below, To(r[0]))
  {
    CopiedStores(slots, s);
    var f, r := Copied(slots, s), Moved(s);
    var c := Child(r, 0);
    FirstRound(f, s, c);
    if r[0].expire > r[c].expire {
      SecondRound(s, f[0 := To(r[c])], c);
    }
  }

  lemma FirstRound<T>(f: seq<Slot<T>>, s: seq<Entry<T>>, c: nat)
    requires 2 < |s| <= |f| && c == Child(Moved(s), 0)
    requires f[0] == To(s[|s| - 1]) && forall i :: 0 < i < |s| ==> f[i] == To(s[i])
    ensures var r := Moved(s);
            Percolate(f, |s| - 1, 0, To(r[0])) ==
            if r[0].expire <= r[c].expire then Done(f)
            else Percolate(f[0 := To(r[c])], |s| - 1, c, To(r[0]))
  {}

  /** At the second level the loop compares the earlier child with its own
      children instead of the timer that is sifted; inside the heap it stops. */
  lemma SecondRound<T>(s: seq<Entry<T>>, g: seq<Slot<T>>, c: nat)
    requires HeapOk(s) && 2 < |s| <= |g| && 0 < c < |s| - 1
    requires forall i :: 0 < i < |s| ==> g[i] == To(s[i])
    requires s[|s| - 1].expire > s[c].expire
    ensures var below, last := 2 * c + 1, To(s[|s| - 1]);
            Percolate(g, |s| - 1, c, last) ==
            if below < |s| then Done(g[c := last])
            else if !Readable(g, below) then Fault
            else if g[below].entry.expire >= s[c].expire then Done(g[c := last])
            else Percolate(g[c := g[below]], |s| - 1, below, last)
  {
    assert Parent(2 * c + 1) == c && Parent(2 * c + 2) == c;
  }

  /** Percolation never writes in front of the hole. */
  lemma {:induction false} PercolateKeepsFront<T>(slots: seq<Slot<T>>, size: nat, hole: nat, tmp: Slot<T>)
    requires hole < |slots|
    ensures var o := Percolate(slots, size, hole, tmp);
            o.Done? ==> |o.slots| == |slots| && forall i :: 0 <= i < hole ==> o.slots[i] == slots[i]
    decreases |slots| - hole
  {
    var left := 2 * hole + 1;
    if !(hole == 0 && size == 0) && !(left <= size - 1 && !(Readable(slots, left) && Readable(slots, left + 1))) {
      var child :=
        if left <= size - 1 && slots[left + 1].entry.expire < slots[left].entry.expire then left + 1 else left;
      if Readable(slots, child) {
        PercolateKeepsFront(slots[hole := slots[child]], size, child, tmp);
      }
    }
  }

  /** The timer at the root is not later than the children of `c`. */
  predicate NoDeeper<T>(r: seq<Entry<T>>, c: nat)
    requires c < |r|
  {
    forall i {:trigger Parent(i)} :: 0 < i < |r| && Parent(i) == c ==> r[0].expire <= r[i].expire
  }

  /** When a pop as written is right: the last timer belongs at the root, or one
      level below it and the slot the loop reads next lets it stop there. */
  predicate PopRight<T(==)>(slots: seq<Slot<T>>, s: seq<Entry<T>>)
    requires |s| <= |slots|
  {
    |s| > 2 ==>
      var f, r := Copied(slots, s), Moved(s);
      var c := Child(r, 0);
      var below := 2 * c + 1;
      r[0].expire > r[c].expire ==>
        && (below < |s| || (Readable(f, below) && f[below].entry.expire >= r[c].expire))
        && NoDeeper(r, c)
  }

  /** The pop ends, and leaves what the repaired one leaves. */
  ghost predicate PopAgrees<T>(slots: seq<Slot<T>>, s: seq<Entry<T>>)
    requires Stores(slots, s) && s != []
  {
    PopSlots(slots, |s|).Done? && Stores(PopSlots(slots, |s|).slots, Pop(s))
  }

  lemma PopRightIff<T>(slots: seq<Slot<T>>, s: seq<Entry<T>>)
    requires Stores(slots, s) && HeapOk(s) && DistinctTimers(s) && s != []
    ensures PopAgrees(slots, s) <==> PopRight(slots, s)
  {
    if |s| == 2 {
      CopiedStores(slots, s);
    } else if |s| > 2 {
      LargePopRightIff(slots, s);
    }
  }

  lemma LargePopRightIff<T>(slots: seq<Slot<T>>, s: seq<Entry<T>>)
    requires Stores(slots, s) && HeapOk(s) && DistinctTimers(s) && |s| > 2
    ensures PopAgrees(slots, s) <==> PopRight(slots, s)
  {
    var f, r := Copied(slots, s), Moved(s);
    var c := Child(r, 0);
    var o := PopSlots(slots, |s|);
    CopiedStores(slots, s);
    PopCases(slots, s);
    if r[0].expire <= r[c].expire {
      assert o == Done(f) && Pop(s) == r;
    } else if 2 * c + 1 < |s| || (Readable(f, 2 * c + 1) && f[2 * c + 1].entry.expire >= r[c].expire) {
      assert o == Done(OneDown(f, c));
      OneLevelAgrees(f, s, c);
    } else if Readable(f, 2 * c + 1) {
      EarlierStaleIsWrong(f, s, c);
    } else {
      assert o == Fault;
    }
  }

  lemma OneLevelAgrees<T>(f: seq<Slot<T>>, s: seq<Entry<T>>, c: nat)
    requires HeapOk(s) && |s| > 2 && Stores(f, Moved(s)) && c == Child(Moved(s), 0)
    requires Moved(s)[0].expire > Moved(s)[c].expire
    ensures var r := Moved(s);
            Stores(OneDown(f, c), Pop(s)) <==> NoDeeper(r, c)
  {
    var r' := Swap(Moved(s), 0, c);
    OneLevelIsPop(s);
    OneDownStores(f, Moved(s), c);
    if Stores(OneDown(f, c), Pop(s)) {
      assert forall i :: 0 <= i < |r'| ==> To(r'[i]) == To(Pop(s)[i]);
    }
  }

  /** Sifting one level at most yields a heap exactly when it yields what the
      repaired pop does, which is when the last timer belongs no deeper. */
  lemma OneLevelIsPop<T>(s: seq<Entry<T>>)
    requires HeapOk(s) && |s| > 2
    ensures var r := Moved(s);
            var c := Child(r, 0);
            var r' := if r[0].expire > r[c].expire then Swap(r, 0, c) else r;
            && (HeapOk(r') <==> r' == Pop(s))
            && (r' == Pop(s) <==> r[0].expire > r[c].expire ==> NoDeeper(r, c))
  {
    var r := Moved(s);
    var c := Child(r, 0);
    PopKeeps(s);
    if r[0].expire > r[c].expire {
      OneLevel(s, c);
      if HeapOk(Swap(r, 0, c)) {
        StopsAt(Swap(r, 0, c), c);
      }
    }
  }

  lemma StopsAt<T>(s: seq<Entry<T>>, hole: nat)
    requires HeapOk(s) && hole < |s|
    ensures SiftDown(s, hole) == s
  {
    assert 2 * hole + 1 < |s| ==> Parent(Child(s, hole)) == hole;
  }

  lemma OneLevel<T>(s: seq<Entry<T>>, c: nat)
    requires HeapOk(s) && |s| > 2 && c == Child(Moved(s), 0)
    requires Moved(s)[0].expire > Moved(s)[c].expire
    ensures var r := Moved(s);
            HeapOk(Swap(r, 0, c)) <==> NoDeeper(r, c)
  {
    var r := Moved(s);
    var r' := Swap(r, 0, c);
    assert forall i :: 0 <= i < |r| ==> r'[i] == if i == 0 then r[c] else if i == c then r[0] else r[i];
  }

  /** An earlier stale timer is pulled into the heap, below a later one. */
  lemma EarlierStaleIsWrong<T>(f: seq<Slot<T>>, s: seq<Entry<T>>, c: nat)
    requires HeapOk(s) && |s| > 2 && 0 < c < |s| - 1 && 2 * c + 1 >= |s|
    requires |s| <= |f| && Readable(f, 2 * c + 1) && f[2 * c + 1].entry.expire < s[c].expire
    ensures var o := Percolate(f[0 := To(s[c])][c := f[2 * c + 1]], |s| - 1, 2 * c + 1, To(s[|s| - 1]));
            !(o.Done? && Stores(o.slots, Pop(s)))
  {
    var g := f[0 := To(s[c])][c := f[2 * c + 1]];
    var o := Percolate(g, |s| - 1, 2 * c + 1, To(s[|s| - 1]));
    PercolateKeepsFront(g, |s| - 1, 2 * c + 1, To(s[|s| - 1]));
    assert o.Done? ==> o.slots[0] == g[0] && o.slots[c] == g[c];
    PopKeeps(s);
    RootIsEarliest(Pop(s));
    assert Pop(s)[0].expire <= Pop(s)[c].expire;
  }

  // ----- Whole ticks -----

  datatype Ticked<T> = Ticked(popped: seq<Entry<T>>, size: nat, outcome: Outcome<T>)

  /** The loop of `tick` with the pop as written. */
  function TickSlots<T(==)>(slots: seq<Slot<T>>, size: nat, clock: int): Ticked<T>
    requires size <= |slots|
    decreases size
  {
    if size == 0 || slots[0].Null? then Ticked([], size, Done(slots))
    else if slots[0].Freed? then Ticked([], size, Fault)
    else if slots[0].entry.expire > clock then Ticked([], size, Done(slots))
    else
      var o := PopSlots(slots, size);
      if !o.Done? || |o.slots| != |slots| then Ticked([slots[0].entry], size - 1, Fault)
      else
        var rest := TickSlots(o.slots, size - 1, clock);
        Ticked([slots[0].entry] + rest.popped, rest.size, rest.outcome)
  }

  /** What a pop that is right leaves in the array: pointers to the deleted timer
      dangle, and the last timer stands at the root or one level below. */
  function NextSlots<T(==)>(slots: seq<Slot<T>>, s: seq<Entry<T>>): (r: seq<Slot<T>>)
    requires 0 < |s| <= |slots|
    ensures |r| == |slots|
  {
    if |s| == 1 then Delete(slots, s[0].timer)
    else
      var f, r := Copied(slots, s), Moved(s);
      if |s| == 2 || r[0].expire <= r[Child(r, 0)].expire then f else OneDown(f, Child(r, 0))
  }

  lemma PopIsNext<T>(slots: seq<Slot<T>>, s: seq<Entry<T>>)
    requires Stores(slots, s) && HeapOk(s) && DistinctTimers(s) && s != [] && PopRight(slots, s)
    ensures PopSlots(slots, |s|) == Done(NextSlots(slots, s))
  {
    if |s| == 1 {
      var rest := Delete(slots, s[0].timer);
      assert rest[0 := rest[0]] == rest;
    } else if |s| == 2 {
      CopiedStores(slots, s);
    } else {
      PopCases(slots, s);
    }
  }

  /** The pop as written is right in every state the tick goes through. */
  predicate TickRight<T(==)>(slots: seq<Slot<T>>, s: seq<Entry<T>>, clock: int)
    requires |s| <= |slots|
    decreases |s|
  {
    s != [] && s[0].expire <= clock ==>
      PopRight(slots, s) && TickRight(NextSlots(slots, s), Pop(s), clock)
  }

  /** After each of its pops the tick has the heap of the repaired one. */
  ghost predicate TickAgrees<T>(slots: seq<Slot<T>>, s: seq<Entry<T>>, clock: int)
    requires Stores(slots, s)
    decreases |s|
  {
    s != [] && s[0].expire <= clock ==>
      PopAgrees(slots, s) && TickAgrees(PopSlots(slots, |s|).slots, Pop(s), clock)
  }

  /** A tick as written agrees with the repaired one, pop by pop, exactly if each
      pop finds its heap and its slots right; it then pops what is due, in order,
      and leaves the heap of the others. */
  lemma {:induction false} TickRightIff<T>(slots: seq<Slot<T>>, s: seq<Entry<T>>, clock: int)
    requires Stores(slots, s) && HeapOk(s) && DistinctTimers(s)
    ensures TickAgrees(slots, s, clock) <==> TickRight(slots, s, clock)
    ensures TickRight(slots, s, clock) ==>
              var t := TickSlots(slots, |s|, clock);
              && t.popped == Popped(s, clock) && t.size == |Rest(s, clock)|
              && t.outcome.Done? && Stores(t.outcome.slots, Rest(s, clock))
    decreases |s|
  {
    if s != [] && s[0].expire <= clock {
      PopRightIff(slots, s);
      if PopRight(slots, s) {
        PopKeeps(s);
        PopDistinct(s);
        PopIsNext(slots, s);
        TickRightIff(NextSlots(slots, s), Pop(s), clock);
      }
    }
  }

  /** Some pop of the tick faults, after pops that agree with the repaired ones. */
  ghost predicate TickReachesFault<T>(slots: seq<Slot<T>>, s: seq<Entry<T>>, clock: int)
    requires Stores(slots, s)
    decreases |s|
  {
    && s != [] && s[0].expire <= clock
    && (|| PopSlots(slots, |s|) == Fault
        || (PopAgrees(slots, s) && TickReachesFault(PopSlots(slots, |s|).slots, Pop(s), clock)))
  }

  /** Then the tick faults there: it has popped the first timers that are due, the
      last of them in the pop that faults, and goes no further. */
  lemma {:induction false} TickFaults<T>(slots: seq<Slot<T>>, s: seq<Entry<T>>, clock: int)
    requires Stores(slots, s) && HeapOk(s) && DistinctTimers(s) && TickReachesFault(slots, s, clock)
    ensures var t := TickSlots(slots, |s|, clock);
            && t.outcome == Fault && t.popped != [] && t.popped <= Popped(s, clock)
            && t.size == |s| - |t.popped|
    decreases |s|
  {
    if PopSlots(slots, |s|) != Fault {
      PopKeeps(s);
      PopDistinct(s);
      PopRightIff(slots, s);
      PopIsNext(slots, s);
      TickFaults(NextSlots(slots, s), Pop(s), clock);
    }
  }

  /** So a tick at clock 1 with deadlines 1, 2 and 3 calls back the first timer
      and faults. */
  lemma ThreeTimersTick(cap: nat)
    requires cap >= 3
    ensures var s := [Entry(0, 1), Entry(1, 2), Entry(2, 3)];
            TickSlots(Slots(s, cap), 3, 1) == Ticked([Entry(0, 1)], 2, Fault)
  {
    ThreeTimersFault(cap);
  }

  lemma SwapDistinct<T>(s: seq<Entry<T>>, i: nat, j: nat)
    requires DistinctTimers(s) && i < |s| && j < |s|
    ensures DistinctTimers(Swap(s, i, j))
  {
    var r := Swap(s, i, j);
    assert forall k :: 0 <= k < |s| ==> r[k] == s[if k == i then j else if k == j then i else k];
  }

  lemma {:induction false} SiftDistinct<T>(s: seq<Entry<T>>, hole: nat)
    requires DistinctTimers(s) && hole < |s|
    ensures DistinctTimers(SiftDown(s, hole))
    decreases |s| - hole
  {
    if 2 * hole + 1 < |s| && s[hole].expire > s[Child(s, hole)].expire {
      SwapDistinct(s, hole, Child(s, hole));
      SiftDistinct(Swap(s, hole, Child(s, hole)), Child(s, hole));
    }
  }

  lemma PopDistinct<T>(s: seq<Entry<T>>)
    requires DistinctTimers(s)
    ensures DistinctTimers(Pop(s))
  {
    if |s| > 1 {
      SiftDistinct(Moved(s), 0);
    }
  }

  // ----- Heaps whose slots are accounted for -----

  /** Every pointer that does not dangle is to a timer of the heap. */
  ghost predicate Tracked<T>(slots: seq<Slot<T>>, s: seq<Entry<T>>) {
    forall i :: 0 <= i < |slots| && slots[i].To? ==> slots[i].entry in s
  }

  /** Then no stale timer is earlier than the child, and what remains of the
      condition is that the slot was used and its timer not deleted. */
  lemma TrackedPopFaults<T>(slots: seq<Slot<T>>, s: seq<Entry<T>>)
    requires Stores(slots, s) && HeapOk(s) && DistinctTimers(s) && Tracked(slots, s) && |s| > 2
    ensures var f, r := Copied(slots, s), Moved(s);
            var c := Child(r, 0);
            PopSlots(slots, |s|) ==
            if r[0].expire <= r[c].expire then Done(f)
            else if 2 * c + 1 < |s| || Readable(f, 2 * c + 1) then Done(OneDown(f, c))
            else Fault
  {
    PopCases(slots, s);
    var f, r := Copied(slots, s), Moved(s);
    var c := Child(r, 0);
    if r[0].expire > r[c].expire && Readable(f, 2 * c + 1) && 2 * c + 1 >= |s| {
      StaleNotEarlier(slots, s);
    }
  }

  lemma StaleNotEarlier<T>(slots: seq<Slot<T>>, s: seq<Entry<T>>)
    requires Stores(slots, s) && HeapOk(s) && DistinctTimers(s) && Tracked(slots, s) && |s| > 2
    requires var r := Moved(s);
             var c := Child(r, 0);
             r[0].expire > r[c].expire && 2 * c + 1 >= |s| && Readable(Copied(slots, s), 2 * c + 1)
    ensures var c := Child(Moved(s), 0);
            Copied(slots, s)[2 * c + 1].entry.expire >= Moved(s)[c].expire
  {
    var c := Child(Moved(s), 0);
    var e := Copied(slots, s)[2 * c + 1].entry;
    assert e == slots[2 * c + 1].entry && e in s && e != s[0];
    var i :| 0 <= i < |s| && s[i] == e;
    ChildIsEarliest(s, i);
  }

  lemma {:induction false} ChildIsEarliest<T>(s: seq<Entry<T>>, i: nat)
    requires HeapOk(s) && |s| > 2 && 0 < i < |s|
    requires Moved(s)[0].expire > Moved(s)[Child(Moved(s), 0)].expire
    ensures Moved(s)[Child(Moved(s), 0)].expire <= s[i].expire
  {
    if Parent(i) > 0 {
      ChildIsEarliest(s, Parent(i));
    }
  }

  /** Pops that agree keep the slots accounted for. */
  lemma PopKeepsTracked<T>(slots: seq<Slot<T>>, s: seq<Entry<T>>)
    requires Stores(slots, s) && HeapOk(s) && DistinctTimers(s) && Tracked(slots, s) && s != []
    requires PopAgrees(slots, s)
    ensures Tracked(PopSlots(slots, |s|).slots, Pop(s))
  {
    PopRightIff(slots, s);
    PopIsNext(slots, s);
    DeleteKeepsTracked(slots, s);
    if |s| > 1 {
      CopiedStores(slots, s);
      assert Delete(slots, s[0].timer)[|s| - 1].To?;
      assert Tracked(Copied(slots, s), Pop(s));
      if |s| > 2 {
        DownKeepsTracked(Copied(slots, s), Child(Moved(s), 0), Pop(s));
      }
    }
  }

  lemma DownKeepsTracked<T>(f: seq<Slot<T>>, c: nat, s: seq<Entry<T>>)
    requires 0 < c < |f| && Tracked(f, s)
    ensures Tracked(OneDown(f, c), s)
  {}

  lemma DeleteKeepsTracked<T>(slots: seq<Slot<T>>, s: seq<Entry<T>>)
    requires HeapOk(s) && Tracked(slots, s) && s != []
    ensures Tracked(Delete(slots, s[0].timer), Pop(s))
  {
    var rest := Delete(slots, s[0].timer);
    forall i | 0 <= i < |rest| && rest[i].To?
      ensures rest[i].entry in Pop(s)
    {
      StillThere(s, rest[i].entry);
    }
  }

  lemma StillThere<T>(s: seq<Entry<T>>, e: Entry<T>)
    requires HeapOk(s) && s != [] && e in s && e != s[0]
    ensures e in Pop(s)
  {
    PopKeeps(s);
    assert e in multiset(s);
    assert e in multiset(Pop(s));
  }

  // ----- Adding, and runs from an empty heap -----

  /** `resize`, when the array is full: twice the slots, the later ones null. */
  function Grown<T>(slots: seq<Slot<T>>, size: nat): (r: seq<Slot<T>>)
    requires size <= |slots|
    ensures |r| == if size == |slots| then 2 * |slots| else |slots|
    ensures forall i :: 0 <= i < |slots| ==> r[i] == slots[i]
    ensures forall i :: |slots| <= i < |r| ==> r[i] == Null
  {
    if size == |slots| then slots + seq(size, _ => Null) else slots
  }

  /** The loop of `add_timer`, slot by slot. */
  function SiftUpSlots<T>(slots: seq<Slot<T>>, hole: nat, e: Entry<T>): Outcome<T>
    requires hole < |slots|
    decreases hole
  {
    if hole == 0 then Done(slots[hole := To(e)])
    else if !Readable(slots, Parent(hole)) then Fault
    else if slots[Parent(hole)].entry.expire <= e.expire then Done(slots[hole := To(e)])
    else SiftUpSlots(slots[hole := slots[Parent(hole)]], Parent(hole), e)
  }

  function AddSlots<T>(slots: seq<Slot<T>>, size: nat, e: Entry<T>): Outcome<T>
    requires size <= |slots|
  {
    if size < |Grown(slots, size)| then SiftUpSlots(Grown(slots, size), size, e) else Fault
  }

  lemma {:induction false} SiftUpStores<T>(slots: seq<Slot<T>>, es: seq<Entry<T>>, hole: nat, e: Entry<T>)
    requires hole < |es| <= |slots| && es[hole] == e
    requires forall i :: 0 <= i < |es| && i != hole ==> slots[i] == To(es[i])
    ensures var o := SiftUpSlots(slots, hole, e);
            && o.Done? && |o.slots| == |slots| && Stores(o.slots, SiftUp(es, hole))
            && forall i :: |es| <= i < |slots| ==> o.slots[i] == slots[i]
    decreases hole
  {
    if hole > 0 && es[Parent(hole)].expire > e.expire {
      SiftUpStores(slots[hole := slots[Parent(hole)]], Swap(es, hole, Parent(hole)), Parent(hole), e);
    }
  }

  /** Adding to an array with any slot at all stores the repaired heap, whatever
      is behind it, and behind it every slot is as before or null. */
  lemma AddStores<T>(slots: seq<Slot<T>>, s: seq<Entry<T>>, e: Entry<T>)
    requires Stores(slots, s) && slots != []
    ensures var o := AddSlots(slots, |s|, e);
            && o.Done? && |slots| <= |o.slots| && Stores(o.slots, Add(s, e))
            && forall i :: |s| < i < |o.slots| ==> o.slots[i] == if i < |slots| then slots[i] else Null
  {
    SiftUpStores(Grown(slots, |s|), s + [e], |s|, e);
  }

  lemma AddKeepsTracked<T>(slots: seq<Slot<T>>, s: seq<Entry<T>>, e: Entry<T>)
    requires Stores(slots, s) && slots != [] && Tracked(slots, s)
    ensures var o := AddSlots(slots, |s|, e); o.Done? && Tracked(o.slots, Add(s, e))
  {
    AddStores(slots, s, e);
    AddedIsIn(s, e);
    var g, s' := AddSlots(slots, |s|, e).slots, Add(s, e);
    forall i | 0 <= i < |g| && g[i].To?
      ensures g[i].entry in s'
    {
      if i < |s'| {
        assert g[i] == To(s'[i]);
      } else {
        assert g[i] == slots[i];
      }
    }
  }

  datatype Act<T> = Put(entry: Entry<T>) | Take

  ghost predicate Sound<T>(slots: seq<Slot<T>>, s: seq<Entry<T>>) {
    slots != [] && Stores(slots, s) && HeapOk(s) && DistinctTimers(s) && Tracked(slots, s)
  }

  /** A run of adds of timers that are not in the heap and of pops as written that
      agree with the repaired one. */
  ghost predicate Leads<T>(slots: seq<Slot<T>>, s: seq<Entry<T>>, acts: seq<Act<T>>,
                           slots': seq<Slot<T>>, s': seq<Entry<T>>)
    decreases |acts|
  {
    if acts == [] then slots' == slots && s' == s
    else
      && Stores(slots, s)
      && match acts[0]
         case Put(e) =>
           && (forall i :: 0 <= i < |s| ==> s[i].timer != e.timer)
           && AddSlots(slots, |s|, e).Done?
           && Leads(AddSlots(slots, |s|, e).slots, Add(s, e), acts[1..], slots', s')
         case Take =>
           && s != [] && PopAgrees(slots, s)
           && Leads(PopSlots(slots, |s|).slots, Pop(s), acts[1..], slots', s')
  }

  lemma {:induction false} RunKeepsSound<T>(slots: seq<Slot<T>>, s: seq<Entry<T>>, acts: seq<Act<T>>,
                                            slots': seq<Slot<T>>, s': seq<Entry<T>>)
    requires Sound(slots, s) && Leads(slots, s, acts, slots', s')
    ensures Sound(slots', s')
    decreases |acts|
  {
    if acts != [] {
      match acts[0] {
        case Put(e) =>
          PutKeepsSound(slots, s, e);
          RunKeepsSound(AddSlots(slots, |s|, e).slots, Add(s, e), acts[1..], slots', s');
        case Take =>
          TakeKeepsSound(slots, s);
          RunKeepsSound(PopSlots(slots, |s|).slots, Pop(s), acts[1..], slots', s');
      }
    }
  }

  lemma PutKeepsSound<T>(slots: seq<Slot<T>>, s: seq<Entry<T>>, e: Entry<T>)
    requires Sound(slots, s) && forall i :: 0 <= i < |s| ==> s[i].timer != e.timer
    ensures var o := AddSlots(slots, |s|, e); o.Done? && Sound(o.slots, Add(s, e))
  {
    AddStores(slots, s, e);
    AddKeeps(s, e);
    AddKeepsTracked(slots, s, e);
    SiftUpDistinct(s + [e], |s|);
  }

  lemma {:induction false} SiftUpDistinct<T>(s: seq<Entry<T>>, hole: nat)
    requires DistinctTimers(s) && hole < |s|
    ensures DistinctTimers(SiftUp(s, hole))
    decreases hole
  {
    if hole > 0 && s[Parent(hole)].expire > s[hole].expire {
      SwapDistinct(s, hole, Parent(hole));
      SiftUpDistinct(Swap(s, hole, Parent(hole)), Parent(hole));
    }
  }

  lemma TakeKeepsSound<T>(slots: seq<Slot<T>>, s: seq<Entry<T>>)
    requires Sound(slots, s) && s != [] && PopAgrees(slots, s)
    ensures Sound(PopSlots(slots, |s|).slots, Pop(s))
  {
    PopKeeps(s);
    PopDistinct(s);
    PopKeepsTracked(slots, s);
    PopRightIff(slots, s);
    PopIsNext(slots, s);
  }

  /** So over every such run from an empty heap no stale timer ever gets in the
      way: a pop faults exactly at a slot that was never used or whose timer was
      deleted, and agrees exactly if it does not and the timer belongs no deeper. */
  lemma FromEmptyNoStale<T>(cap: nat, acts: seq<Act<T>>, slots: seq<Slot<T>>, s: seq<Entry<T>>)
    requires cap > 0 && Leads(Slots([], cap), [], acts, slots, s)
    ensures Sound(slots, s)
    ensures |s| > 2 ==>
              var f, r := Copied(slots, s), Moved(s);
              var c := Child(r, 0);
              var stops := 2 * c + 1 < |s| || Readable(f, 2 * c + 1);
              && (PopSlots(slots, |s|) == Fault <==> r[0].expire > r[c].expire && !stops)
              && (PopAgrees(slots, s) <==> r[0].expire > r[c].expire ==> stops && NoDeeper(r, c))
  {
    RunKeepsSound(Slots([], cap), [], acts, slots, s);
    if |s| > 2 {
      SoundPops(slots, s);
    }
  }

  lemma SoundPops<T>(slots: seq<Slot<T>>, s: seq<Entry<T>>)
    requires Sound(slots, s) && |s| > 2
    ensures var f, r := Copied(slots, s), Moved(s);
            var c := Child(r, 0);
            var stops := 2 * c + 1 < |s| || Readable(f, 2 * c + 1);
            && (PopSlots(slots, |s|) == Fault <==> r[0].expire > r[c].expire && !stops)
            && (PopAgrees(slots, s) <==> r[0].expire > r[c].expire ==> stops && NoDeeper(r, c))
  {
    var f, r := Copied(slots, s), Moved(s);
    var c := Child(r, 0);
    TrackedPopFaults(slots, s);
    PopRightIff(slots, s);
    if r[0].expire > r[c].expire && 2 * c + 1 >= |s| && Readable(f, 2 * c + 1) {
      StaleNotEarlier(slots, s);
    }
  }

  // ----- The first pop -----

  /** `pop` on a heap in an array none of whose other slots was ever used. */
  function PopFirst<T(==)>(s: seq<Entry<T>>, cap: nat): Outcome<T>
    requires 0 < |s| <= cap
  {
    PopSlots(Slots(s, cap), |s|)
  }

  /** As written the first pop accesses a null pointer, or runs off the array,
      exactly if the last timer is later than the earlier child `c` of the root
      and no timer ever stood at the left child of `c`. */
  lemma FirstPopFaults<T>(s: seq<Entry<T>>, cap: nat)
    requires HeapOk(s) && DistinctTimers(s) && 0 < |s| <= cap
    ensures PopFirst(s, cap) == Fault <==>
              |s| > 2 && var r := Moved(s); var c := Child(r, 0); r[0].expire > r[c].expire && 2 * c + 1 >= |s|
  {
    if |s| > 2 {
      TrackedPopFaults(Slots(s, cap), s);
    } else if |s| == 2 {
      CopiedStores(Slots(s, cap), s);
    }
  }

  /** Otherwise it sifts one level at most, so that what it leaves is a heap, and
      then that of the repaired pop, exactly if the last timer belongs no deeper. */
  lemma FirstPopSiftsOneLevel<T>(s: seq<Entry<T>>, cap: nat)
    requires HeapOk(s) && DistinctTimers(s) && 2 < |s| <= cap && PopFirst(s, cap) != Fault
    ensures var r := Moved(s);
            var c := Child(r, 0);
            var r' := if r[0].expire > r[c].expire then Swap(r, 0, c) else r;
            && PopFirst(s, cap).Done? && |PopFirst(s, cap).slots| == cap && Stores(PopFirst(s, cap).slots, r')
            && (HeapOk(r') <==> r' == Pop(s))
            && (r' == Pop(s) <==> r[0].expire > r[c].expire ==> NoDeeper(r, c))
  {
    FirstPopStores(s, cap);
    OneLevelIsPop(s);
  }

  lemma FirstPopStores<T>(s: seq<Entry<T>>, cap: nat)
    requires HeapOk(s) && DistinctTimers(s) && 2 < |s| <= cap && PopFirst(s, cap) != Fault
    ensures var r := Moved(s);
            var c := Child(r, 0);
            var r' := if r[0].expire > r[c].expire then Swap(r, 0, c) else r;
            PopFirst(s, cap).Done? && |PopFirst(s, cap).slots| == cap && Stores(PopFirst(s, cap).slots, r')
  {
    var f, r := Copied(Slots(s, cap), s), Moved(s);
    TrackedPopFaults(Slots(s, cap), s);
    CopiedStores(Slots(s, cap), s);
    if r[0].expire > r[Child(r, 0)].expire {
      OneDownStores(f, r, Child(r, 0));
    }
  }

  lemma OneDownStores<T>(f: seq<Slot<T>>, r: seq<Entry<T>>, c: nat)
    requires Stores(f, r) && 0 < c < |r|
    ensures Stores(OneDown(f, c), Swap(r, 0, c))
  {}

  /** So with deadlines 1, 2 and 3 the very first pop faults. */
  lemma ThreeTimersFault(cap: nat)
    requires cap >= 3
    ensures PopFirst([Entry(0, 1), Entry(1, 2), Entry(2, 3)], cap) == Fault
  {
    FirstPopFaults([Entry(0, 1), Entry(1, 2), Entry(2, 3)], cap);
  }

  /** With deadlines 1, 2, 3 and 2 the first pop is right and the second follows
      a dangling pointer. */
  lemma SecondPopFaults(cap: nat)
    requires cap >= 4
    ensures var s := [Entry(0, 1), Entry(1, 2), Entry(2, 3), Entry(3, 2)];
            PopAgrees(Slots(s, cap), s) && PopSlots(PopFirst(s, cap).slots, 3) == Fault
  {
    var s, s' := [Entry(0, 1), Entry(1, 2), Entry(2, 3), Entry(3, 2)], [Entry(3, 2), Entry(1, 2), Entry(2, 3)];
    var slots := Slots(s, cap);
    assert Moved(s) == s' && Child(s', 0) == 1;
    CopiedStores(slots, s);
    PopCases(slots, s);
    PopRightIff(slots, s);
    DanglingFaults(Copied(slots, s), s');
  }

  lemma DanglingFaults(slots: seq<Slot<int>>, s: seq<Entry<int>>)
    requires s == [Entry(3, 2), Entry(1, 2), Entry(2, 3)] && Stores(slots, s) && |slots| > 3 && slots[3] == To(s[0])
    ensures PopSlots(slots, 3) == Fault
  {
    assert Moved(s) == [Entry(2, 3), Entry(1, 2)] && Child(Moved(s), 0) == 1;
    PopCases(slots, s);
  }
}
