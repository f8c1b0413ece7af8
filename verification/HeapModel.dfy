/** The timer heap on values: an implicit binary tree in a sequence, with its
    two sifts, heap construction and expiry. */
module HeapModel {
  import opened Deadlines

  function Parent(i: nat): nat
    requires i > 0
  {
    (i - 1) / 2
  }

  /** No timer from position `lo` on is later than its children. */
  predicate HeapFrom<T>(s: seq<Entry<T>>, lo: nat) {
    forall i :: 0 < i < |s| && lo <= Parent(i) ==> s[Parent(i)].expire <= s[i].expire
  }

  predicate HeapOk<T>(s: seq<Entry<T>>) {
    HeapFrom(s, 0)
  }

  function Swap<T>(s: seq<Entry<T>>, i: nat, j: nat): (r: seq<Entry<T>>)
    requires i < |s| && j < |s|
    ensures |r| == |s| && multiset(r) == multiset(s)
  {
    s[i := s[j]][j := s[i]]
  }

  /** The earlier of the two children; the left one if they tie. */
  function Child<T>(s: seq<Entry<T>>, hole: nat): (c: nat)
    requires 2 * hole + 1 < |s|
    ensures c < |s| && c > hole && Parent(c) == hole
    ensures forall i {:trigger Parent(i)} :: 0 < i < |s| && Parent(i) == hole ==> s[c].expire <= s[i].expire
  {
    var left := 2 * hole + 1;
    if left < |s| - 1 && s[left + 1].expire < s[left].expire then left + 1 else left
  }

  /** `percolate_down`: moves the timer at `hole` below its earlier children. */
  function SiftDown<T>(s: seq<Entry<T>>, hole: nat): (r: seq<Entry<T>>)
    requires hole < |s|
    ensures |r| == |s| && multiset(r) == multiset(s)
    decreases |s| - hole
  {
    if 2 * hole + 1 < |s| && s[hole].expire > s[Child(s, hole)].expire then
      SiftDown(Swap(s, hole, Child(s, hole)), Child(s, hole))
    else s
  }

  /** The loop of `add_timer`: moves the timer at `hole` above later ancestors. */
  function SiftUp<T>(s: seq<Entry<T>>, hole: nat): (r: seq<Entry<T>>)
    requires hole < |s|
    ensures |r| == |s| && multiset(r) == multiset(s)
    decreases hole
  {
    if hole > 0 && s[Parent(hole)].expire > s[hole].expire then SiftUp(Swap(s, hole, Parent(hole)), Parent(hole))
    else s
  }

  function Add<T>(s: seq<Entry<T>>, e: Entry<T>): seq<Entry<T>> {
    SiftUp(s + [e], |s|)
  }

  function Pop<T>(s: seq<Entry<T>>): (r: seq<Entry<T>>)
    ensures |r| == if s == [] then 0 else |s| - 1
  {
    if |s| <= 1 then [] else SiftDown(s[..|s| - 1][0 := s[|s| - 1]], 0)
  }

  /** Sifts the positions below `n`, the last one first. */
  function Heapify<T>(s: seq<Entry<T>>, n: nat): (r: seq<Entry<T>>)
    requires n <= |s|
    ensures |r| == |s| && multiset(r) == multiset(s)
    decreases n
  {
    if n == 0 then s else Heapify(SiftDown(s, n - 1), n - 1)
  }

  /** What the array constructor makes of an array. */
  function Build<T>(s: seq<Entry<T>>): (r: seq<Entry<T>>)
    ensures |r| == |s|
  {
    if s == [] then s else Heapify(s, Parent(|s|) + 1)
  }

  /** The timers `tick` pops at time `clock`, and the heap it leaves. */
  function Popped<T>(s: seq<Entry<T>>, clock: int): seq<Entry<T>>
    decreases |s|
  {
    if s == [] || s[0].expire > clock then [] else [s[0]] + Popped(Pop(s), clock)
  }

  function Rest<T>(s: seq<Entry<T>>, clock: int): seq<Entry<T>>
    decreases |s|
  {
    if s == [] || s[0].expire > clock then s else Rest(Pop(s), clock)
  }

  // ----- Sifting down -----

  /** Heap order from `lo` on but for the children of `hole`, which are at least
      not earlier than the parent of `hole`. */
  predicate HoleFrom<T>(s: seq<Entry<T>>, lo: nat, hole: nat) {
    forall i :: 0 < i < |s| && lo <= Parent(i) ==>
      if Parent(i) != hole then s[Parent(i)].expire <= s[i].expire
      else hole > 0 && lo <= Parent(hole) ==> s[Parent(hole)].expire <= s[i].expire
  }

  /** Sifting a hole whose subtrees are heaps restores heap order. */
  lemma {:induction false} SiftDownRestores<T>(s: seq<Entry<T>>, lo: nat, hole: nat)
    requires lo <= hole < |s| && HoleFrom(s, lo, hole)
    ensures HeapFrom(SiftDown(s, hole), lo)
    decreases |s| - hole
  {
    if 2 * hole + 1 < |s| {
      var c := Child(s, hole);
      if s[hole].expire > s[c].expire {
        SwapDown(s, lo, hole);
        SiftDownRestores(Swap(s, hole, c), lo, c);
      }
    }
  }

  lemma SwapDown<T>(s: seq<Entry<T>>, lo: nat, hole: nat)
    requires lo <= hole && HoleFrom(s, lo, hole) && 2 * hole + 1 < |s|
    requires s[hole].expire > s[Child(s, hole)].expire
    ensures HoleFrom(Swap(s, hole, Child(s, hole)), lo, Child(s, hole))
  {
    var c := Child(s, hole);
    var r := Swap(s, hole, c);
    assert forall i :: 0 <= i < |s| ==> r[i] == if i == hole then s[c] else if i == c then s[hole] else s[i];
  }

  // ----- Sifting up -----

  /** Heap order but for `hole` and its parent; the children of `hole` are not
      earlier than that parent. */
  predicate HoleBelow<T>(s: seq<Entry<T>>, hole: nat) {
    && (forall i :: 0 < i < |s| && i != hole ==> s[Parent(i)].expire <= s[i].expire)
    && (hole > 0 ==>
          forall i {:trigger Parent(i)} :: 0 < i < |s| && Parent(i) == hole ==>
            s[Parent(hole)].expire <= s[i].expire)
  }

  lemma {:induction false} SiftUpRestores<T>(s: seq<Entry<T>>, hole: nat)
    requires hole < |s| && HoleBelow(s, hole)
    ensures HeapOk(SiftUp(s, hole))
    decreases hole
  {
    if hole > 0 && s[Parent(hole)].expire > s[hole].expire {
      SwapUp(s, hole);
      SiftUpRestores(Swap(s, hole, Parent(hole)), Parent(hole));
    }
  }

  lemma SwapUp<T>(s: seq<Entry<T>>, hole: nat)
    requires 0 < hole < |s| && HoleBelow(s, hole) && s[Parent(hole)].expire > s[hole].expire
    ensures HoleBelow(Swap(s, hole, Parent(hole)), Parent(hole))
  {
    var p := Parent(hole);
    var r := Swap(s, hole, p);
    assert forall i :: 0 <= i < |s| ==> r[i] == if i == p then s[hole] else if i == hole then s[p] else s[i];
    assert p > 0 ==> s[Parent(p)].expire <= s[p].expire;
  }

  // ----- Where the sifts put things -----

  /** `top` is `i` or one of its ancestors. */
  predicate Above(top: nat, i: nat)
    decreases i
  {
    top == i || (i > 0 && Above(top, Parent(i)))
  }

  lemma {:induction false} AboveIsBefore(top: nat, i: nat)
    requires Above(top, i)
    ensures top <= i
    decreases i
  {
    if top != i {
      AboveIsBefore(top, Parent(i));
    }
  }

  /** `r` is `s` after the timer at `hole` went up to `h`: past exactly the later
      ancestors, which each moved one level down; nothing else moved. */
  ghost predicate MovedUp<T>(s: seq<Entry<T>>, r: seq<Entry<T>>, hole: nat, h: nat) {
    && h <= hole < |s| == |r| && Above(h, hole) && r[h] == s[hole]
    && (h > 0 ==> s[Parent(h)].expire <= s[hole].expire)
    && forall i :: 0 <= i < |s| ==> StepUp(s, r, hole, h, i)
  }

  ghost predicate StepUp<T>(s: seq<Entry<T>>, r: seq<Entry<T>>, hole: nat, h: nat, i: nat)
    requires h <= hole < |s| == |r| && i < |s|
  {
    if h < i && Above(i, hole) then r[i] == s[Parent(i)] && s[Parent(i)].expire > s[hole].expire
    else i != h ==> r[i] == s[i]
  }

  lemma {:induction false} SiftUpPlaces<T>(s: seq<Entry<T>>, hole: nat) returns (h: nat)
    requires hole < |s|
    ensures MovedUp(s, SiftUp(s, hole), hole, h)
    decreases hole
  {
    if hole > 0 && s[Parent(hole)].expire > s[hole].expire {
      h := SiftUpPlaces(Swap(s, hole, Parent(hole)), Parent(hole));
      forall i: nat | i < |s|
        ensures StepUp(s, SiftUp(s, hole), hole, h, i)
      {
        UpOnce(s, SiftUp(s, hole), hole, h, i);
      }
    } else {
      h := hole;
      forall i: nat | i < |s|
        ensures StepUp(s, s, hole, hole, i)
      {
        if Above(i, hole) {
          AboveIsBefore(i, hole);
        }
      }
    }
  }

  lemma UpOnce<T>(s: seq<Entry<T>>, r: seq<Entry<T>>, hole: nat, h: nat, i: nat)
    requires 0 < hole < |s| && s[Parent(hole)].expire > s[hole].expire && i < |s|
    requires MovedUp(Swap(s, hole, Parent(hole)), r, Parent(hole), h)
    ensures StepUp(s, r, hole, h, i)
  {
    var p := Parent(hole);
    assert StepUp(Swap(s, hole, p), r, p, h, i);
    if Above(i, p) {
      AboveIsBefore(i, p);
    }
  }

  /** `r` is `s` after the timer at `hole` went down to `h`, along earlier children
      that each moved one level up; nothing else moved. */
  ghost predicate MovedDown<T>(s: seq<Entry<T>>, r: seq<Entry<T>>, hole: nat, h: nat) {
    && hole <= h < |s| == |r| && Above(hole, h) && r[h] == s[hole]
    && (forall i {:trigger Parent(i)} :: 0 < i < |s| && Parent(i) == h ==> s[hole].expire <= s[i].expire)
    && forall i :: 0 <= i < |s| ==> StepDown(s, r, hole, h, i)
  }

  ghost predicate StepDown<T>(s: seq<Entry<T>>, r: seq<Entry<T>>, hole: nat, h: nat, i: nat)
    requires hole <= h < |s| == |r| && i < |s|
  {
    && (hole < i && Above(i, h) ==> r[Parent(i)] == s[i] && s[i].expire < s[hole].expire)
    && (!(hole <= i && Above(i, h)) ==> r[i] == s[i])
  }

  lemma {:induction false} SiftDownPlaces<T>(s: seq<Entry<T>>, hole: nat) returns (h: nat)
    requires hole < |s|
    ensures MovedDown(s, SiftDown(s, hole), hole, h)
    decreases |s| - hole
  {
    if 2 * hole + 1 < |s| && s[hole].expire > s[Child(s, hole)].expire {
      var c := Child(s, hole);
      h := SiftDownPlaces(Swap(s, hole, c), c);
      AboveTrans(hole, c, h);
      forall i: nat | i < |s|
        ensures StepDown(s, SiftDown(s, hole), hole, h, i)
      {
        DownOnce(s, SiftDown(s, hole), hole, h, i);
      }
    } else {
      h := hole;
      forall i: nat | i < |s|
        ensures StepDown(s, s, hole, hole, i)
      {
        if Above(i, hole) {
          AboveIsBefore(i, hole);
        }
      }
    }
  }

  lemma DownOnce<T>(s: seq<Entry<T>>, r: seq<Entry<T>>, hole: nat, h: nat, i: nat)
    requires 2 * hole + 1 < |s| && s[hole].expire > s[Child(s, hole)].expire && i < |s|
    requires MovedDown(Swap(s, hole, Child(s, hole)), r, Child(s, hole), h) && Above(hole, h)
    ensures StepDown(s, r, hole, h, i)
  {
    var c := Child(s, hole);
    var s' := Swap(s, hole, c);
    assert StepDown(s', r, c, h, i) && StepDown(s', r, c, h, hole);
    if hole < i && Above(i, h) {
      NoneBetween(hole, c, i, h);
    }
  }

  lemma {:induction false} AboveTrans(top: nat, c: nat, h: nat)
    requires c > 0 && Parent(c) == top && Above(c, h)
    ensures Above(top, h)
    decreases h
  {
    AboveIsBefore(c, h);
    if c != h {
      AboveTrans(top, c, Parent(h));
    }
  }

  /** On the way up from `h` the next position above `c` is its parent. */
  lemma {:induction false} NoneBetween(top: nat, c: nat, i: nat, h: nat)
    requires c > 0 && Parent(c) == top && Above(c, h) && Above(i, h) && top < i
    ensures c <= i
    decreases h
  {
    AboveIsBefore(c, h);
    if c == h {
      if i != h {
        AboveIsBefore(i, Parent(h));
      }
    } else if i != h {
      NoneBetween(top, c, i, Parent(h));
    }
  }

  // ----- Adding and popping -----

  /** Adding keeps heap order and adds exactly the new timer. */
  lemma AddKeeps<T>(s: seq<Entry<T>>, e: Entry<T>)
    requires HeapOk(s)
    ensures HeapOk(Add(s, e)) && multiset(Add(s, e)) == multiset(s) + multiset{e}
  {
    SiftUpRestores(s + [e], |s|);
  }

  lemma AddedIsIn<T>(es: seq<Entry<T>>, x: Entry<T>)
    ensures forall e :: e in Add(es, x) <==> e in es || e == x
  {
    var r := Add(es, x);
    assert multiset(r) == multiset(es + [x]);
    assert forall e :: e in r <==> e in multiset(r);
    assert forall e :: e in es + [x] <==> e in multiset(es + [x]);
  }

  lemma {:induction false} RootBefore<T>(s: seq<Entry<T>>, i: nat)
    requires HeapOk(s) && i < |s|
    ensures s[0].expire <= s[i].expire
  {
    if i > 0 {
      RootBefore(s, Parent(i));
    }
  }

  lemma RootIsEarliest<T>(s: seq<Entry<T>>)
    requires HeapOk(s)
    ensures forall i :: 0 <= i < |s| ==> s[0].expire <= s[i].expire
  {
    forall i | 0 <= i < |s|
      ensures s[0].expire <= s[i].expire
    {
      RootBefore(s, i);
    }
  }

  /** Popping keeps heap order and removes exactly the root, which is earliest. */
  lemma PopKeeps<T>(s: seq<Entry<T>>)
    requires HeapOk(s) && s != []
    ensures HeapOk(Pop(s)) && multiset(Pop(s)) + multiset{s[0]} == multiset(s)
    ensures forall i :: 0 <= i < |Pop(s)| ==> s[0].expire <= Pop(s)[i].expire
  {
    RootIsEarliest(s);
    if |s| > 1 {
      PopConserves(s);
      PopRestores(s);
    } else {
      assert s == [s[0]];
    }
    FromMultiset(s, Pop(s));
  }

  lemma PopRestores<T>(s: seq<Entry<T>>)
    requires HeapOk(s) && |s| > 1
    ensures HeapOk(Pop(s))
  {
    SiftDownRestores(s[..|s| - 1][0 := s[|s| - 1]], 0, 0);
  }

  lemma PopConserves<T>(s: seq<Entry<T>>)
    requires |s| > 1
    ensures multiset(Pop(s)) + multiset{s[0]} == multiset(s)
  {
    MovedLast(s);
  }

  lemma MovedLast<T>(s: seq<Entry<T>>)
    requires |s| > 1
    ensures multiset(s[..|s| - 1][0 := s[|s| - 1]]) + multiset{s[0]} == multiset(s)
  {
    var n := |s| - 1;
    assert s == s[..n] + [s[n]];
  }

  lemma FromMultiset<T>(s: seq<Entry<T>>, r: seq<Entry<T>>)
    requires multiset(r) <= multiset(s)
    ensures forall i :: 0 <= i < |r| ==> r[i] in s
  {
    forall i | 0 <= i < |r|
      ensures r[i] in s
    {
      assert r[i] in multiset(r);
      assert r[i] in multiset(s);
    }
  }

  // ----- Building -----

  lemma HeapifyStep<T>(s: seq<Entry<T>>, n: nat)
    requires n < |s|
    ensures Heapify(s, n + 1) == Heapify(SiftDown(s, n), n)
  {}

  lemma SiftRoot<T>(s: seq<Entry<T>>, root: nat)
    requires root < |s| && HeapFrom(s, root + 1)
    ensures HeapFrom(SiftDown(s, root), root)
  {
    SiftDownRestores(s, root, root);
  }

  lemma {:induction false} HeapifyKeeps<T>(s: seq<Entry<T>>, n: nat)
    requires n <= |s| && HeapFrom(s, n)
    ensures HeapOk(Heapify(s, n))
    decreases n
  {
    if n > 0 {
      SiftRoot(s, n - 1);
      HeapifyKeeps(SiftDown(s, n - 1), n - 1);
    }
  }

  /** Building from any array yields a heap of exactly its timers. */
  lemma BuildsHeap<T>(s: seq<Entry<T>>)
    ensures HeapOk(Build(s)) && multiset(Build(s)) == multiset(s)
  {
    if s != [] {
      HeapifyKeeps(s, Parent(|s|) + 1);
    }
  }

  // ----- Expiry -----

  lemma {:induction false} TickConserves<T>(s: seq<Entry<T>>, clock: int)
    requires HeapOk(s)
    ensures HeapOk(Rest(s, clock))
    ensures multiset(Popped(s, clock)) + multiset(Rest(s, clock)) == multiset(s)
    decreases |s|
  {
    if s != [] && s[0].expire <= clock {
      PopKeeps(s);
      TickConserves(Pop(s), clock);
    }
  }

  lemma {:induction false} TickSeparates<T>(s: seq<Entry<T>>, clock: int)
    requires HeapOk(s)
    ensures forall i :: 0 <= i < |Popped(s, clock)| ==> Popped(s, clock)[i].expire <= clock
    ensures forall i :: 0 <= i < |Rest(s, clock)| ==> clock < Rest(s, clock)[i].expire
    decreases |s|
  {
    RootIsEarliest(s);
    if s != [] {
      if s[0].expire <= clock {
        PopKeeps(s);
        TickSeparates(Pop(s), clock);
      }
    }
  }

  lemma {:induction false} PoppedSorted<T>(s: seq<Entry<T>>, clock: int)
    requires HeapOk(s)
    ensures Sorted(Popped(s, clock))
    ensures Popped(s, clock) != [] ==> s != [] && Popped(s, clock)[0] == s[0]
    decreases |s|
  {
    if s != [] && s[0].expire <= clock {
      PopKeeps(s);
      PoppedSorted(Pop(s), clock);
      SortedBehind(s[0], Popped(Pop(s), clock));
    }
  }

  lemma SortedBehind<T>(e: Entry<T>, s: seq<Entry<T>>)
    requires Sorted(s) && (s != [] ==> e.expire <= s[0].expire)
    ensures Sorted([e] + s)
  {}

  /** A tick pops exactly the timers that are due, earliest first, and leaves a
      heap of exactly the others. */
  lemma TickPopsDue<T>(s: seq<Entry<T>>, clock: int)
    requires HeapOk(s)
    ensures HeapOk(Rest(s, clock)) && Sorted(Popped(s, clock))
    ensures multiset(Popped(s, clock)) + multiset(Rest(s, clock)) == multiset(s)
    ensures forall i :: 0 <= i < |Popped(s, clock)| ==> Popped(s, clock)[i].expire <= clock
    ensures forall i :: 0 <= i < |Rest(s, clock)| ==> clock < Rest(s, clock)[i].expire
  {
    TickConserves(s, clock);
    TickSeparates(s, clock);
    PoppedSorted(s, clock);
  }

  /** So repeated popping sorts: once every timer is due, a tick pops all of
      them, in non-decreasing order of their deadlines. */
  lemma PopsInOrder<T>(s: seq<Entry<T>>, clock: int)
    requires forall i :: 0 <= i < |s| ==> s[i].expire <= clock
    ensures var r := Popped(Build(s), clock);
            Sorted(r) && multiset(r) == multiset(s) && Rest(Build(s), clock) == []
  {
    BuildsHeap(s);
    TickPopsDue(Build(s), clock);
    var rest := Rest(Build(s), clock);
    FromMultiset(s, rest);
  }
}
