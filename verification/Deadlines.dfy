/** Timers with their deadlines, as both the sorted list and the heap hold them. */
module Deadlines {
  datatype Entry<T> = Entry(timer: T, expire: int)

  predicate Sorted<T>(es: seq<Entry<T>>) {
    forall i, j :: 0 <= i < j < |es| ==> es[i].expire <= es[j].expire
  }

  ghost predicate DistinctTimers<T>(es: seq<Entry<T>>) {
    forall i, j :: 0 <= i < j < |es| ==> es[i].timer != es[j].timer
  }

  function Timers<T>(es: seq<Entry<T>>): (r: seq<T>)
    ensures |r| == |es|
  {
    seq(|es|, i requires 0 <= i < |es| => es[i].timer)
  }

  /** The entries whose timer is not among those gone. */
  function Alive<T(==)>(es: seq<Entry<T>>, gone: set<T>): seq<Entry<T>> {
    if es == [] then []
    else (if es[0].timer in gone then [] else [es[0]]) + Alive(es[1..], gone)
  }
}
