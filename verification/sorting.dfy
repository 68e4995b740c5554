/** `Array.prototype.sort` with a descending comparator, as an insertion sort.
    The sort is stable, as the ECMAScript sort is: an element is inserted in
    front of the first element it ranks at or above, and elements are inserted
    from the back, so equal ranks keep their original order. */
module Sorting {

  import Seqs

  /** A sort key compared lexicographically, larger first. */
  type Rank = (int, int)

  /** `a` may come before `b` in a descending order. */
  predicate Precedes(a: Rank, b: Rank) {
    a.0 > b.0 || (a.0 == b.0 && a.1 >= b.1)
  }

  ghost predicate SortedDesc<T>(s: seq<T>, rank: T -> Rank) {
    forall i, j :: 0 <= i < j < |s| ==> Precedes(rank(s[i]), rank(s[j]))
  }

  /** `Precedes` is transitive. */
  lemma PrecedesTransitive(a: Rank, b: Rank, c: Rank)
    requires Precedes(a, b) && Precedes(b, c)
    ensures Precedes(a, c)
  {
  }

  /** An element ranked at or above every element of a sorted sequence may go in front. */
  lemma ConsKeepsSorted<T>(x: T, s: seq<T>, rank: T -> Rank)
    requires SortedDesc(s, rank)
    requires forall j :: 0 <= j < |s| ==> Precedes(rank(x), rank(s[j]))
    ensures SortedDesc([x] + s, rank)
  {
    var r := [x] + s;
    forall i, j | 0 <= i < j < |r|
      ensures Precedes(rank(r[i]), rank(r[j]))
    {
      assert r[j] == s[j - 1];
      if i > 0 {
        assert r[i] == s[i - 1];
      }
    }
  }

  /** An element ranked at or above the head of a sorted sequence ranks at or above all of it. */
  lemma AboveHeadAboveAll<T>(x: T, s: seq<T>, rank: T -> Rank)
    requires SortedDesc(s, rank) && |s| > 0 && Precedes(rank(x), rank(s[0]))
    ensures forall j :: 0 <= j < |s| ==> Precedes(rank(x), rank(s[j]))
  {
    forall j | 0 < j < |s|
      ensures Precedes(rank(x), rank(s[j]))
    {
      PrecedesTransitive(rank(x), rank(s[0]), rank(s[j]));
    }
  }

  /** `x` inserted into a sorted sequence in front of the first element it ranks at
      or above. */
  function Insert<T(==)>(x: T, s: seq<T>, rank: T -> Rank): (r: seq<T>)
    requires SortedDesc(s, rank)
    ensures SortedDesc(r, rank)
    ensures multiset(r) == multiset(s) + multiset{x}
    ensures |r| == |s| + 1
  {
    if |s| == 0 then [x]
    else if Precedes(rank(x), rank(s[0])) then
      AboveHeadAboveAll(x, s, rank);
      ConsKeepsSorted(x, s, rank);
      [x] + s
    else
      var t := Insert(x, s[1..], rank);
      assert s == [s[0]] + s[1..];
      forall j | 0 <= j < |t|
        ensures Precedes(rank(s[0]), rank(t[j]))
      {
        assert t[j] in multiset(s[1..]) + multiset{x};
        if t[j] != x {
          assert t[j] in s[1..];
        }
      }
      ConsKeepsSorted(s[0], t, rank);
      [s[0]] + t
  }

  /** The rank-descending permutation of `s`. */
  function SortDesc<T(==)>(s: seq<T>, rank: T -> Rank): (r: seq<T>)
    ensures SortedDesc(r, rank)
    ensures multiset(r) == multiset(s)
    ensures |r| == |s|
    ensures forall i :: 0 <= i < |r| ==> r[i] in s
    ensures forall i :: 0 <= i < |s| ==> s[i] in r
  {
    if |s| == 0 then []
    else
      assert s == [s[0]] + s[1..];
      var r := Insert(s[0], SortDesc(s[1..], rank), rank);
      Seqs.SameMultisetSameElements(r, s);
      r
  }

  /** Sorting an already sorted sequence leaves it as it is. */
  lemma {:induction false} SortedIsFixpoint<T>(s: seq<T>, rank: T -> Rank)
    requires SortedDesc(s, rank)
    ensures SortDesc(s, rank) == s
  {
    if |s| > 0 {
      SortedIsFixpoint(s[1..], rank);
      assert s == [s[0]] + s[1..];
    }
  }

  lemma SortIdempotent<T>(s: seq<T>, rank: T -> Rank)
    ensures SortDesc(SortDesc(s, rank), rank) == SortDesc(s, rank)
  {
    SortedIsFixpoint(SortDesc(s, rank), rank);
  }

  /** Filtering a sorted sequence keeps it sorted. */
  lemma {:induction false} FilterKeepsSorted<T>(s: seq<T>, p: T -> bool, rank: T -> Rank)
    requires SortedDesc(s, rank)
    ensures SortedDesc(Seqs.Filter(s, p), rank)
  {
    if |s| > 0 {
      FilterKeepsSorted(s[1..], p, rank);
      var t := Seqs.Filter(s[1..], p);
      assert forall j :: 0 <= j < |t| ==> t[j] in s[1..];
    }
  }

  /** A prefix of a sorted sequence is sorted. */
  lemma PrefixKeepsSorted<T>(s: seq<T>, r: seq<T>, rank: T -> Rank)
    requires SortedDesc(s, rank) && r <= s
    ensures SortedDesc(r, rank)
    ensures forall i :: 0 <= i < |r| ==> r[i] == s[i]
  {
    assert forall i :: 0 <= i < |r| ==> r[i] == s[i];
  }

  /** Every element of a prefix of a sorted sequence ranks at or above every
      element of the sequence left out of the prefix. */
  lemma PrefixRanksAboveRest<T>(s: seq<T>, r: seq<T>, rank: T -> Rank, x: T)
    requires SortedDesc(s, rank) && r <= s
    requires x in s && x !in r
    ensures forall i :: 0 <= i < |r| ==> Precedes(rank(r[i]), rank(x))
  {
    var m :| 0 <= m < |s| && s[m] == x;
    assert forall k :: 0 <= k < |r| ==> s[k] == r[k];
    assert m >= |r|;
  }
}
