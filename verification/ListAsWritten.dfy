/** The sorted timer list as it is written: deletion without the `return` that
    its tail case lacks. */
module ListAsWritten {
  import opened Deadlines
  import opened ListModel
  import opened ListRuns
  import opened Options
  import opened Order

  /** None when the deletion faults. */
  function DeleteAsWritten<T(==)>(es: seq<Entry<T>>, t: T): Option<seq<Entry<T>>> {
    if 0 < Find(es, t) == |es| - 1 then None else Some(Apply(es, OpDelete(t)))
  }

  function DeleteAllAsWritten<T(==)>(es: seq<Entry<T>>, ts: seq<T>): Option<seq<Entry<T>>> {
    if ts == [] then Some(es)
    else
      match DeleteAsWritten(es, ts[0])
      case None => None
      case Some(rest) => DeleteAllAsWritten(rest, ts[1..])
  }

  /** Of the timers that are not gone, `t` is the last but not the only one. */
  predicate LastNotOnly<T(==)>(es: seq<Entry<T>>, t: T, gone: set<T>) {
    var k := Find(es, t);
    && (forall i :: k < i < |es| ==> es[i].timer in gone)
    && exists i :: 0 <= i < k && es[i].timer !in gone
  }

  /** Some deletion of the run reaches such a timer. */
  predicate ReachesLast<T(==)>(es: seq<Entry<T>>, ts: seq<T>, gone: set<T>) {
    ts != [] && (LastNotOnly(es, ts[0], gone) || ReachesLast(es, ts[1..], gone + {ts[0]}))
  }

  /** The run deletes timers of the list, each once. */
  predicate EachOnce<T(==)>(es: seq<Entry<T>>, ts: seq<T>, gone: set<T>) {
    ts != [] ==> Find(es, ts[0]) < |es| && ts[0] !in gone && EachOnce(es, ts[1..], gone + {ts[0]})
  }

  /** A run of deletions as written faults exactly if it reaches the last timer
      that is left while another one is. */
  lemma DeletionsFaultIff<T>(es: seq<Entry<T>>, ts: seq<T>)
    requires DistinctTimers(es) && EachOnce(es, ts, {})
    ensures DeleteAllAsWritten(es, ts) == None <==> ReachesLast(es, ts, {})
    ensures !ReachesLast(es, ts, {}) ==> DeleteAllAsWritten(es, ts) == Some(Alive(es, All(ts)))
  {
    NoneGone(es);
    RemainingFaultIff(es, ts, {});
    assert {} + All(ts) == All(ts);
  }

  ghost function All<T>(ts: seq<T>): set<T> {
    set i | 0 <= i < |ts| :: ts[i]
  }

  lemma {:induction false} RemainingFaultIff<T>(es: seq<Entry<T>>, ts: seq<T>, gone: set<T>)
    requires DistinctTimers(es) && EachOnce(es, ts, gone)
    ensures DeleteAllAsWritten(Alive(es, gone), ts) == None <==> ReachesLast(es, ts, gone)
    ensures !ReachesLast(es, ts, gone) ==> DeleteAllAsWritten(Alive(es, gone), ts) == Some(Alive(es, gone + All(ts)))
    decreases |ts|
  {
    if ts == [] {
      assert gone + All(ts) == gone;
    } else {
      OneDeletion(es, ts[0], gone);
      RemainingFaultIff(es, ts[1..], gone + {ts[0]});
      FirstOfAll(ts);
      assert gone + {ts[0]} + All(ts[1..]) == gone + All(ts);
    }
  }

  lemma FirstOfAll<T>(ts: seq<T>)
    requires ts != []
    ensures All(ts) == {ts[0]} + All(ts[1..])
  {
    assert forall i :: 0 <= i < |ts| ==> ts[i] == if i == 0 then ts[0] else ts[1..][i - 1];
    assert forall i :: 0 <= i < |ts| - 1 ==> ts[1..][i] == ts[i + 1];
  }

  /** One deletion from what is left of the list. */
  lemma OneDeletion<T>(es: seq<Entry<T>>, t: T, gone: set<T>)
    requires DistinctTimers(es) && Find(es, t) < |es| && t !in gone
    ensures DeleteAsWritten(Alive(es, gone), t) ==
            if LastNotOnly(es, t, gone) then None else Some(Alive(es, gone + {t}))
  {
    var k := Find(es, t);
    var left, right := Alive(es[..k], gone), Alive(es[k + 1..], gone);
    LeftAndRight(es, k, gone);
    NoneBefore(es, k, gone);
    NoneBehind(es, k, gone);
    DeletesBetween(left, es[k], right);
  }

  lemma DeletesBetween<T>(a: seq<Entry<T>>, e: Entry<T>, b: seq<Entry<T>>)
    requires forall i :: 0 <= i < |a| ==> a[i].timer != e.timer
    ensures DeleteAsWritten(a + [e] + b, e.timer) == if a != [] && b == [] then None else Some(a + b)
  {
    FoundBehind(a, e, b);
    assert RemoveAt(a + [e] + b, |a|) == a + b;
  }

  lemma LeftAndRight<T>(es: seq<Entry<T>>, k: nat, gone: set<T>)
    requires DistinctTimers(es) && k < |es| && es[k].timer !in gone
    ensures var left, right := Alive(es[..k], gone), Alive(es[k + 1..], gone);
            && Alive(es, gone) == left + [es[k]] + right
            && Alive(es, gone + {es[k].timer}) == left + right
            && forall i :: 0 <= i < |left| ==> left[i].timer != es[k].timer
  {
    var t := es[k].timer;
    var p, q, gone' := es[..k], es[k + 1..], gone + {t};
    TimerApart(es, k);
    NoLonger(p, t, gone);
    NoLonger(q, t, gone);
    SplitAlive(es, k, gone);
    SplitAlive(es, k, gone');
    AliveOne(es[k], gone);
    AliveOne(es[k], gone');
    assert Alive(p, gone') + [] == Alive(p, gone');
  }

  lemma AliveOne<T>(e: Entry<T>, gone: set<T>)
    ensures Alive([e], gone) == if e.timer in gone then [] else [e]
  {}

  lemma TimerApart<T>(es: seq<Entry<T>>, k: nat)
    requires DistinctTimers(es) && k < |es|
    ensures var p, q := es[..k], es[k + 1..];
            && (forall i :: 0 <= i < |p| ==> p[i].timer != es[k].timer)
            && forall i :: 0 <= i < |q| ==> q[i].timer != es[k].timer
  {}

  lemma NoneBefore<T>(es: seq<Entry<T>>, k: nat, gone: set<T>)
    requires k <= |es|
    ensures Alive(es[..k], gone) == [] <==> forall i :: 0 <= i < k ==> es[i].timer in gone
  {
    NoneLeft(es[..k], gone);
    assert forall i :: 0 <= i < k ==> es[..k][i] == es[i];
  }

  lemma NoneBehind<T>(es: seq<Entry<T>>, k: nat, gone: set<T>)
    requires k < |es|
    ensures Alive(es[k + 1..], gone) == [] <==> forall i :: k < i < |es| ==> es[i].timer in gone
  {
    var q := es[k + 1..];
    NoneLeft(q, gone);
    if Alive(q, gone) == [] {
      forall i | k < i < |es|
        ensures es[i].timer in gone
      {
        assert es[i] == q[i - k - 1];
      }
    }
  }

  lemma SplitAlive<T>(es: seq<Entry<T>>, k: nat, gone: set<T>)
    requires k < |es|
    ensures Alive(es, gone) == Alive(es[..k], gone) + Alive([es[k]], gone) + Alive(es[k + 1..], gone)
  {
    assert es == es[..k] + [es[k]] + es[k + 1..];
    AliveConcat(es[..k] + [es[k]], es[k + 1..], gone);
    AliveConcat(es[..k], [es[k]], gone);
  }

  lemma {:induction false} AliveConcat<T>(a: seq<Entry<T>>, b: seq<Entry<T>>, gone: set<T>)
    ensures Alive(a + b, gone) == Alive(a, gone) + Alive(b, gone)
  {
    if a == [] {
      assert a + b == b;
    } else {
      AliveConcat(a[1..], b, gone);
      assert (a + b)[1..] == a[1..] + b && (a + b)[0] == a[0];
      Regroup(if a[0].timer in gone then [] else [a[0]], Alive(a[1..], gone), Alive(b, gone));
    }
  }

  lemma {:induction false} NoLonger<T>(es: seq<Entry<T>>, t: T, gone: set<T>)
    requires forall i :: 0 <= i < |es| ==> es[i].timer != t
    ensures Alive(es, gone + {t}) == Alive(es, gone)
    ensures forall i :: 0 <= i < |Alive(es, gone)| ==> Alive(es, gone)[i].timer != t
  {
    if es != [] {
      NoLonger(es[1..], t, gone);
    }
  }

  lemma {:induction false} NoneLeft<T>(es: seq<Entry<T>>, gone: set<T>)
    ensures Alive(es, gone) == [] <==> forall i :: 0 <= i < |es| ==> es[i].timer in gone
  {
    if es != [] {
      NoneLeft(es[1..], gone);
      assert forall i :: 1 <= i < |es| ==> es[i] == es[1..][i - 1];
      assert forall i :: 0 <= i < |es| - 1 ==> es[1..][i] == es[i + 1];
    }
  }

  lemma {:induction false} NoneGone<T>(es: seq<Entry<T>>)
    ensures Alive(es, {}) == es
  {
    if es != [] {
      NoneGone(es[1..]);
    }
  }

  lemma FoundBehind<T>(a: seq<Entry<T>>, e: Entry<T>, b: seq<Entry<T>>)
    requires forall i :: 0 <= i < |a| ==> a[i].timer != e.timer
    ensures Find(a + [e] + b, e.timer) == |a|
  {
    var all := a + [e] + b;
    assert all[|a|] == e && forall i :: 0 <= i < |a| ==> all[i] == a[i];
  }

  /** The smallest case: of two timers the second is deleted. */
  lemma DeletingTheSecondFaults()
    ensures DeleteAllAsWritten([Entry(0, 1), Entry(1, 2)], [1]) == None
  {
    assert Find([Entry(0, 1), Entry(1, 2)], 1) == 1;
  }
}
