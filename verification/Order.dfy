/** The order of elements in a sequence. */
module Order {
  /** No `b` stands before an `a`. */
  predicate Precedes<T(==)>(s: seq<T>, a: T, b: T) {
    forall i, j :: 0 <= i < |s| && 0 <= j < |s| && s[i] == a && s[j] == b ==> i < j
  }

  /** Dropping the first element, or prepending one that is not `b`. */
  lemma PrecedesCons<T>(x: T, s: seq<T>, a: T, b: T)
    requires a != b
    ensures Precedes([x] + s, a, b) <==> Precedes(s, a, b) && (x == b ==> a !in s)
  {
    var c := [x] + s;
    assert forall i :: 0 <= i < |s| ==> c[i + 1] == s[i];
    if Precedes(c, a, b) {
      forall i, j | 0 <= i < |s| && 0 <= j < |s| && s[i] == a && s[j] == b
        ensures i < j
      {
        assert c[i + 1] == a && c[j + 1] == b;
      }
      forall i | 0 <= i < |s|
        ensures !(x == b && s[i] == a)
      {
        assert c[i + 1] == s[i] && c[0] == x;
      }
    }
    if Precedes(s, a, b) && (x == b ==> a !in s) {
      forall i, j | 0 <= i < |c| && 0 <= j < |c| && c[i] == a && c[j] == b
        ensures i < j
      {
        assert i > 0 ==> c[i] == s[i - 1];
        assert j > 0 ==> c[j] == s[j - 1];
      }
    }
  }

  /** A third element in between does not matter. */
  lemma PrecedesAround<T>(p: seq<T>, x: T, q: seq<T>, a: T, b: T)
    requires x != a && x != b
    ensures Precedes(p + [x] + q, a, b) <==> Precedes(p + q, a, b)
  {
    var r, s := p + [x] + q, p + q;
    assert forall i :: 0 <= i < |s| ==> s[i] == r[if i < |p| then i else i + 1];
    assert forall i :: 0 <= i < |r| && i != |p| ==> r[i] == s[if i < |p| then i else i - 1];
    if Precedes(r, a, b) {
      forall i, j | 0 <= i < |s| && 0 <= j < |s| && s[i] == a && s[j] == b
        ensures i < j
      {
        assert r[if i < |p| then i else i + 1] == a && r[if j < |p| then j else j + 1] == b;
      }
    }
  }

  lemma PrecedesPart<T>(p: seq<T>, q: seq<T>, a: T, b: T)
    requires Precedes(p + q, a, b)
    ensures Precedes(p, a, b) && Precedes(q, a, b)
  {
    var r := p + q;
    assert forall i :: 0 <= i < |p| ==> r[i] == p[i];
    assert forall i :: 0 <= i < |q| ==> r[|p| + i] == q[i];
  }

  /** Sequences that hold everything equally often hold the same multiset. */
  lemma {:induction false} SameCounts<T>(a: seq<T>, b: seq<T>)
    requires forall x: T :: multiset(a)[x] == multiset(b)[x]
    ensures multiset(a) == multiset(b)
  {
    assert forall i :: 0 <= i < |b| ==> multiset(b)[b[i]] > 0;
    if a != [] {
      assert multiset(b)[a[0]] == multiset(a)[a[0]] > 0;
      var j :| 0 <= j < |b| && b[j] == a[0];
      var b' := b[..j] + b[j + 1..];
      assert a == [a[0]] + a[1..] && b == b[..j] + [b[j]] + b[j + 1..];
      forall x: T
        ensures multiset(a[1..])[x] == multiset(b')[x]
      {
        assert multiset(a)[x] == multiset(b)[x];
      }
      SameCounts(a[1..], b');
    }
  }

  lemma Regroup<T>(a: seq<T>, b: seq<T>, c: seq<T>)
    ensures a + (b + c) == a + b + c
  {}

  /** `r` is `x`, then `s`. */
  ghost predicate ConsOf<T>(r: seq<T>, x: T, s: seq<T>) {
    |r| == |s| + 1 && r[0] == x && forall m :: 1 <= m < |r| ==> r[m] == s[m - 1]
  }

  lemma Prepended<T>(x: T, s: seq<T>)
    ensures ConsOf([x] + s, x, s)
  {}
}
