/** The sorted timer list on values: stable insertion, repositioning, prefix expiry. */
module ListModel {
  import opened Deadlines

  /** In front of the first later deadline, hence behind equal ones. */
  function Insert<T>(es: seq<Entry<T>>, e: Entry<T>): seq<Entry<T>> {
    if es == [] || e.expire < es[0].expire then [e] + es else [es[0]] + Insert(es[1..], e)
  }

  function RemoveAt<T>(es: seq<Entry<T>>, k: nat): seq<Entry<T>>
    requires k < |es|
  {
    es[..k] + es[k + 1..]
  }

  /** What `adjust_timer` does to the entry at `k`, whose deadline was just changed. */
  function AdjustAt<T>(es: seq<Entry<T>>, k: nat): seq<Entry<T>>
    requires k < |es|
  {
    if k + 1 == |es| || es[k].expire < es[k + 1].expire then es
    else es[..k] + Insert(es[k + 1..], es[k])
  }

  /** The timers `tick` fires at time `clock`, and what it leaves. */
  function Due<T>(es: seq<Entry<T>>, clock: int): seq<Entry<T>> {
    if es == [] || clock < es[0].expire then [] else [es[0]] + Due(es[1..], clock)
  }

  function Kept<T>(es: seq<Entry<T>>, clock: int): seq<Entry<T>> {
    if es == [] || clock < es[0].expire then es else Kept(es[1..], clock)
  }

  // ----- Insertion -----

  /** Insertion places the new entry behind every deadline that is not later
      and before every later one; so the list stays sorted. */
  lemma InsertSorted<T>(es: seq<Entry<T>>, e: Entry<T>) returns (k: nat)
    requires Sorted(es)
    ensures k <= |es| && Insert(es, e) == es[..k] + [e] + es[k..]
    ensures forall i :: 0 <= i < k ==> es[i].expire <= e.expire
    ensures forall i :: k <= i < |es| ==> e.expire < es[i].expire
    ensures Sorted(Insert(es, e))
  {
    k := InsertAt(es, e);
    assert k < |es| ==> forall i :: k <= i < |es| ==> es[k].expire <= es[i].expire;
    SortedWith(es, k, e);
  }

  /** The place is the first later deadline, whether or not the list is sorted. */
  lemma {:induction false} InsertAt<T>(es: seq<Entry<T>>, e: Entry<T>) returns (k: nat)
    ensures k <= |es| && Insert(es, e) == es[..k] + [e] + es[k..]
    ensures forall i :: 0 <= i < k ==> es[i].expire <= e.expire
    ensures k < |es| ==> e.expire < es[k].expire
  {
    if es == [] || e.expire < es[0].expire {
      k := 0;
    } else {
      var rest := es[1..];
      var j := InsertAt(rest, e);
      k := j + 1;
      assert es[..k] == [es[0]] + rest[..j] && es[k..] == rest[j..];
    }
  }

  lemma SortedWith<T>(es: seq<Entry<T>>, k: nat, e: Entry<T>)
    requires Sorted(es) && k <= |es|
    requires forall i :: 0 <= i < k ==> es[i].expire <= e.expire
    requires forall i :: k <= i < |es| ==> e.expire < es[i].expire
    ensures Sorted(es[..k] + [e] + es[k..])
  {
    var r := es[..k] + [e] + es[k..];
    assert forall i :: 0 <= i < |r| ==> r[i] == if i < k then es[i] else if i == k then e else es[i - 1];
  }

  lemma {:induction false} InsertMultiset<T>(es: seq<Entry<T>>, e: Entry<T>)
    ensures multiset(Insert(es, e)) == multiset(es) + multiset{e}
  {
    if !(es == [] || e.expire < es[0].expire) {
      InsertMultiset(es[1..], e);
      assert es == [es[0]] + es[1..];
    }
  }

  /** Entries that are not later than `e` are passed over. */
  lemma {:induction false} InsertBehind<T>(a: seq<Entry<T>>, b: seq<Entry<T>>, e: Entry<T>)
    requires forall i :: 0 <= i < |a| ==> a[i].expire <= e.expire
    ensures Insert(a + b, e) == a + Insert(b, e)
  {
    if a == [] {
      assert a + b == b && a + Insert(b, e) == Insert(b, e);
    } else {
      InsertBehind(a[1..], b, e);
      assert (a + b)[1..] == a[1..] + b;
      assert a + Insert(b, e) == [a[0]] + (a[1..] + Insert(b, e));
    }
  }

  // ----- Repositioning -----

  /** `adjust_timer` is removal followed by stable insertion exactly when the new
      deadline is not earlier than the predecessor's: it only looks ahead. */
  lemma AdjustIsReinsert<T>(es: seq<Entry<T>>, k: nat)
    requires k < |es| && Sorted(RemoveAt(es, k))
    ensures AdjustAt(es, k) == Insert(RemoveAt(es, k), es[k]) <==> k == 0 || es[k - 1].expire <= es[k].expire
  {
    var e, others := es[k], RemoveAt(es, k);
    assert forall i :: 0 <= i < |others| ==> others[i] == if i < k then es[i] else es[i + 1];
    if k == 0 || es[k - 1].expire <= e.expire {
      forall i | 0 <= i < k
        ensures es[i].expire <= e.expire
      {
        assert others[i] == es[i] && others[k - 1] == es[k - 1];
      }
      InsertBehind(es[..k], es[k + 1..], e);
      if k + 1 == |es| || e.expire < es[k + 1].expire {
        assert es == es[..k] + ([e] + es[k + 1..]);
      }
    } else {
      AdjustTooEarly(es, k);
    }
  }

  /** With a deadline before its predecessor's the timer stays where it is,
      behind a later one. */
  lemma AdjustTooEarly<T>(es: seq<Entry<T>>, k: nat)
    requires 0 < k < |es| && Sorted(RemoveAt(es, k)) && es[k].expire < es[k - 1].expire
    ensures AdjustAt(es, k) == es && !Sorted(es)
    ensures Insert(RemoveAt(es, k), es[k]) != es
  {
    var others := RemoveAt(es, k);
    assert others[k - 1] == es[k - 1];
    assert k + 1 < |es| ==> others[k] == es[k + 1];
    var j := InsertSorted(others, es[k]);
    assert Sorted(Insert(others, es[k]));
  }

  /** So under that condition the list is sorted again, holds the same entries,
      keeps the others in order, and has the adjusted timer last of its deadline. */
  lemma AdjustSorted<T>(es: seq<Entry<T>>, k: nat) returns (j: nat)
    requires k < |es| && Sorted(RemoveAt(es, k))
    requires k == 0 || es[k - 1].expire <= es[k].expire
    ensures Sorted(AdjustAt(es, k)) && multiset(AdjustAt(es, k)) == multiset(es)
    ensures j < |es| == |AdjustAt(es, k)| && AdjustAt(es, k)[j] == es[k]
    ensures RemoveAt(AdjustAt(es, k), j) == RemoveAt(es, k)
    ensures forall i :: j < i < |es| ==> es[k].expire < AdjustAt(es, k)[i].expire
  {
    var others := RemoveAt(es, k);
    AdjustIsReinsert(es, k);
    j := InsertSorted(others, es[k]);
    AdjustMultiset(es, k);
    RemoveInserted(others, j, es[k]);
  }

  lemma RemoveSorted<T>(es: seq<Entry<T>>, k: nat)
    requires Sorted(es) && k < |es|
    ensures Sorted(RemoveAt(es, k))
  {
    var r := RemoveAt(es, k);
    assert forall i :: 0 <= i < |r| ==> r[i] == es[if i < k then i else i + 1];
  }

  /** Adjusting keeps the entries, wherever the new deadline falls. */
  lemma AdjustMultiset<T>(es: seq<Entry<T>>, k: nat)
    requires k < |es|
    ensures multiset(AdjustAt(es, k)) == multiset(es)
  {
    if AdjustAt(es, k) != es {
      var p, q := es[..k], es[k + 1..];
      assert multiset(es) == multiset(p) + multiset{es[k]} + multiset(q) by {
        assert es == p + [es[k]] + q;
      }
      InsertMultiset(q, es[k]);
      assert multiset(AdjustAt(es, k)) == multiset(p) + multiset(Insert(q, es[k]));
    }
  }

  lemma RemoveMultiset<T>(es: seq<Entry<T>>, k: nat)
    requires k < |es|
    ensures multiset(RemoveAt(es, k)) + multiset{es[k]} == multiset(es)
  {
    assert es == es[..k] + [es[k]] + es[k + 1..];
  }

  lemma RemoveInserted<T>(es: seq<Entry<T>>, j: nat, e: Entry<T>)
    requires j <= |es|
    ensures var r := es[..j] + [e] + es[j..];
            && r[j] == e && RemoveAt(r, j) == es
            && forall i :: j < i < |r| ==> r[i] == es[i - 1]
  {}

  // ----- Expiry -----

  lemma {:induction false} TickSplits<T>(es: seq<Entry<T>>, clock: int)
    ensures Due(es, clock) + Kept(es, clock) == es
  {
    if !(es == [] || clock < es[0].expire) {
      TickSplits(es[1..], clock);
      assert [es[0]] + (Due(es[1..], clock) + Kept(es[1..], clock)) == es;
    }
  }

  /** On any list a tick fires an entry exactly if everything up to it is due. */
  lemma {:induction false} DueUpTo<T>(es: seq<Entry<T>>, clock: int, i: nat)
    requires i < |es|
    ensures i < |Due(es, clock)| <==> forall j :: 0 <= j <= i ==> es[j].expire <= clock
  {
    if es[0].expire <= clock && i > 0 {
      DueUpTo(es[1..], clock, i - 1);
      assert forall j :: 1 <= j <= i ==> es[j] == es[1..][j - 1];
      assert forall j :: 0 <= j <= i - 1 ==> es[1..][j] == es[j + 1];
    }
  }

  /** On a sorted list a tick fires exactly the timers that are due, in order,
      and keeps exactly the others, in order. */
  lemma TickFiresDue<T>(es: seq<Entry<T>>, clock: int)
    requires Sorted(es)
    ensures Due(es, clock) + Kept(es, clock) == es
    ensures Sorted(Due(es, clock)) && Sorted(Kept(es, clock))
    ensures forall i :: 0 <= i < |Due(es, clock)| ==> Due(es, clock)[i].expire <= clock
    ensures forall i :: 0 <= i < |Kept(es, clock)| ==> clock < Kept(es, clock)[i].expire
  {
    TickSplits(es, clock);
    SortedParts(Due(es, clock), Kept(es, clock));
    DueAndKept(es, clock);
  }

  lemma SortedParts<T>(a: seq<Entry<T>>, b: seq<Entry<T>>)
    requires Sorted(a + b)
    ensures Sorted(a) && Sorted(b)
  {
    var es := a + b;
    assert forall i :: 0 <= i < |a| ==> a[i] == es[i];
    assert forall i :: 0 <= i < |b| ==> b[i] == es[|a| + i];
  }

  lemma {:induction false} DueAndKept<T>(es: seq<Entry<T>>, clock: int)
    requires Sorted(es)
    ensures forall i :: 0 <= i < |Due(es, clock)| ==> Due(es, clock)[i].expire <= clock
    ensures forall i :: 0 <= i < |Kept(es, clock)| ==> clock < Kept(es, clock)[i].expire
  {
    if !(es == [] || clock < es[0].expire) {
      DueAndKept(es[1..], clock);
    }
  }
}
