/** Array operations the stores and the tab list are built from: `filter`,
    `slice`, `findIndex` by a key field, and first-occurrence de-duplication. */
module Seqs {

  /** `s.filter(p)`: the elements satisfying `p`, each as often as in `s`. */
  function Filter<T(==)>(s: seq<T>, p: T -> bool): (r: seq<T>)
    ensures |r| <= |s|
    ensures forall i :: 0 <= i < |r| ==> r[i] in s && p(r[i])
    ensures forall i :: 0 <= i < |s| && p(s[i]) ==> s[i] in r
    ensures forall i :: 0 <= i < |s| && p(s[i]) ==> multiset(r)[s[i]] == multiset(s)[s[i]]
  {
    if |s| == 0 then []
    else
      assert s == [s[0]] + s[1..];
      if p(s[0]) then [s[0]] + Filter(s[1..], p) else Filter(s[1..], p)
  }

  /** Filtering distributes over concatenation, so it keeps relative order. */
  lemma {:induction false} FilterAppend<T>(a: seq<T>, b: seq<T>, p: T -> bool)
    ensures Filter(a + b, p) == Filter(a, p) + Filter(b, p)
  {
    if |a| > 0 {
      assert (a + b)[1..] == a[1..] + b;
      FilterAppend(a[1..], b, p);
    } else {
      assert a + b == b;
    }
  }

  /** `r` holds every value passing `p` as often as `s` does, and no other value. */
  ghost predicate CountsFiltered<T(!new)>(r: seq<T>, s: seq<T>, p: T -> bool) {
    forall x :: multiset(r)[x] == if p(x) then multiset(s)[x] else 0
  }

  lemma {:induction false} FilterCounts<T(!new)>(s: seq<T>, p: T -> bool)
    ensures CountsFiltered(Filter(s, p), s, p)
  {
    if |s| > 0 {
      FilterCounts(s[1..], p);
      assert s == [s[0]] + s[1..];
    }
  }

  /** The positions of `s` whose element satisfies `p`, in increasing order: an
      independent description of what `s.filter(p)` keeps. */
  function Passing<T>(s: seq<T>, p: T -> bool): (idx: seq<nat>)
    ensures forall k :: 0 <= k < |idx| ==> idx[k] < |s| && p(s[idx[k]])
    ensures forall k, l :: 0 <= k < l < |idx| ==> idx[k] < idx[l]
    ensures forall i :: 0 <= i < |s| && p(s[i]) ==> i in idx
  {
    if |s| == 0 then []
    else
      var idx := Passing(s[..|s| - 1], p);
      if p(s[|s| - 1]) then idx + [|s| - 1] else idx
  }

  /** `r` is `s` with exactly its elements failing `p` removed, the rest in their order. */
  ghost predicate FilteredFrom<T>(r: seq<T>, s: seq<T>, p: T -> bool) {
    var idx := Passing(s, p);
    |r| == |idx| && forall k :: 0 <= k < |r| ==> r[k] == s[idx[k]]
  }

  /** `Filter` keeps the passing elements in their order. */
  lemma {:induction false} FilterInOrder<T>(s: seq<T>, p: T -> bool)
    ensures FilteredFrom(Filter(s, p), s, p)
  {
    if |s| > 0 {
      var init := s[..|s| - 1];
      FilterInOrder(init, p);
      FilterLast(s, p);
      PassingLast(s, p);
      KeptThenLast(s, Filter(init, p), p);
    }
  }

  /** What is kept of all but the last element, followed by the last element when it
      passes, is what is kept of the whole. */
  lemma KeptThenLast<T>(s: seq<T>, front: seq<T>, p: T -> bool)
    requires |s| > 0 && FilteredFrom(front, s[..|s| - 1], p)
    requires Passing(s, p) == Passing(s[..|s| - 1], p) + if p(s[|s| - 1]) then [|s| - 1] else []
    ensures FilteredFrom(front + if p(s[|s| - 1]) then [s[|s| - 1]] else [], s, p)
  {
    var init, idx := s[..|s| - 1], Passing(s[..|s| - 1], p);
    var r, pos := front + if p(s[|s| - 1]) then [s[|s| - 1]] else [], Passing(s, p);
    forall k | 0 <= k < |r|
      ensures r[k] == s[pos[k]]
    {
      if k < |front| {
        assert r[k] == front[k] == init[idx[k]];
      }
    }
  }

  lemma PassingLast<T>(s: seq<T>, p: T -> bool)
    requires |s| > 0
    ensures Passing(s, p) == Passing(s[..|s| - 1], p) + if p(s[|s| - 1]) then [|s| - 1] else []
  {
  }

  lemma FilterSingle<T>(x: T, p: T -> bool)
    ensures Filter([x], p) == if p(x) then [x] else []
  {
    assert [x][1..] == [];
  }

  /** Filtering a non-empty sequence filters all but its last element, then the last. */
  lemma FilterLast<T>(s: seq<T>, p: T -> bool)
    requires |s| > 0
    ensures var last := s[|s| - 1];
      Filter(s, p) == Filter(s[..|s| - 1], p) + if p(last) then [last] else []
  {
    var init, last := s[..|s| - 1], s[|s| - 1];
    assert s == init + [last];
    FilterAppend(init, [last], p);
    FilterSingle(last, p);
  }

  /** A filter that rejects nothing changes nothing. */
  lemma {:induction false} FilterAllPass<T>(s: seq<T>, p: T -> bool)
    requires forall i :: 0 <= i < |s| ==> p(s[i])
    ensures Filter(s, p) == s
  {
    if |s| > 0 {
      FilterAllPass(s[1..], p);
    }
  }

  lemma FilterIdempotent<T>(s: seq<T>, p: T -> bool)
    ensures Filter(Filter(s, p), p) == Filter(s, p)
  {
    var r := Filter(s, p);
    assert forall i :: 0 <= i < |r| ==> r[i] in r;
    FilterAllPass(r, p);
  }

  /** `s.slice(0, n)` for `n >= 0`: the first `n` elements, or all of them. */
  function Take<T>(s: seq<T>, n: nat): (r: seq<T>)
    ensures |r| == if n < |s| then n else |s|
    ensures r <= s
  {
    if n < |s| then s[..n] else s
  }

  /** Taking from a sequence with a head takes the head and one fewer from the rest. */
  lemma TakeCons<T>(x: T, s: seq<T>, n: nat)
    requires n > 0
    ensures Take([x] + s, n) == [x] + Take(s, n - 1)
  {
  }

  /** No two elements share a key. */
  ghost predicate KeysDistinct<T, K>(s: seq<T>, key: T -> K) {
    forall i, j :: 0 <= i < j < |s| ==> key(s[i]) != key(s[j])
  }

  /** `s.findIndex(x => key(x) === k)`: the first index with key `k`, or -1. */
  function IndexOfKey<T, K(==)>(s: seq<T>, key: T -> K, k: K): (i: int)
    ensures -1 <= i < |s|
    ensures 0 <= i ==> key(s[i]) == k
    ensures forall j :: 0 <= j < |s| && (i == -1 || j < i) ==> key(s[j]) != k
  {
    if |s| == 0 then -1
    else if key(s[0]) == k then 0
    else
      var i := IndexOfKey(s[1..], key, k);
      if i == -1 then -1 else i + 1
  }

  /** With distinct keys, the first index with an element's key is its own. */
  lemma IndexOfDistinctKey<T, K>(s: seq<T>, key: T -> K, k: nat)
    requires k < |s| && KeysDistinct(s, key)
    ensures IndexOfKey(s, key, key(s[k])) == k
  {
  }

  /** The callback `x => key(x) !== k`. */
  function KeyIsNot<T, K(==)>(key: T -> K, k: K): T -> bool {
    x => key(x) != k
  }

  /** `s.filter(x => key(x) !== k)`. */
  function WithoutKey<T(==), K(==)>(s: seq<T>, key: T -> K, k: K): (r: seq<T>)
    ensures forall i :: 0 <= i < |r| ==> r[i] in s && key(r[i]) != k
    ensures forall i :: 0 <= i < |s| && key(s[i]) != k ==> s[i] in r
  {
    Filter(s, KeyIsNot(key, k))
  }

  /** With distinct keys, removing one key is removing the one element that has it. */
  lemma {:induction false} WithoutKeyIsRemoveAt<T, K>(s: seq<T>, key: T -> K, i: nat)
    requires i < |s| && KeysDistinct(s, key)
    ensures WithoutKey(s, key, key(s[i])) == s[..i] + s[i + 1..]
  {
    var p := KeyIsNot(key, key(s[i]));
    assert s == s[..i] + ([s[i]] + s[i + 1..]);
    var before, after := s[..i], s[i + 1..];
    assert forall j :: 0 <= j < |before| ==> p(before[j]);
    assert forall j :: 0 <= j < |after| ==> p(after[j]);
    FilterAppend(s[..i], [s[i]] + s[i + 1..], p);
    FilterAppend([s[i]], s[i + 1..], p);
    FilterAllPass(before, p);
    FilterAllPass(after, p);
  }

  /** With no element keyed `k`, removing `k` changes nothing. */
  lemma WithoutAbsentKey<T, K>(s: seq<T>, key: T -> K, k: K)
    requires forall i :: 0 <= i < |s| ==> key(s[i]) != k
    ensures WithoutKey(s, key, k) == s
  {
    FilterAllPass(s, KeyIsNot(key, k));
  }

  /** `s[i]` is the first element of `s` with its key. */
  ghost predicate FirstOfKey<T, K>(s: seq<T>, key: T -> K, i: int) {
    0 <= i < |s| && forall j :: 0 <= j < i ==> key(s[j]) != key(s[i])
  }

  /** `s.filter((x, i, a) => a.findIndex(y => key(y) === key(x)) === i)`, computed
      left to right while remembering the keys already kept (`seen` starts empty):
      the first element of every key not in `seen` survives, and nothing else does. */
  function DedupByKey<T(==), K(==)>(s: seq<T>, key: T -> K, seen: set<K>): (r: seq<T>)
    ensures KeysDistinct(r, key)
    ensures forall i :: 0 <= i < |r| ==> r[i] in s && key(r[i]) !in seen
    ensures forall i :: FirstOfKey(s, key, i) && key(s[i]) !in seen ==> s[i] in r
    ensures FirstsInOrder(r, s, key)
  {
    if |s| == 0 then []
    else if key(s[0]) in seen then
      var r := DedupByKey(s[1..], key, seen);
      SkipHead(r, s, key, seen);
      r
    else
      var t := DedupByKey(s[1..], key, seen + {key(s[0])});
      KeepHead(t, s, key, seen);
      [s[0]] + t
  }

  /** The step of `DedupByKey` that drops a head whose key was seen already. */
  lemma SkipHead<T, K>(r: seq<T>, s: seq<T>, key: T -> K, seen: set<K>)
    requires |s| > 0 && key(s[0]) in seen
    requires forall i :: 0 <= i < |r| ==> key(r[i]) !in seen
    requires forall i :: FirstOfKey(s[1..], key, i) && key(s[1..][i]) !in seen ==> s[1..][i] in r
    requires FirstsInOrder(r, s[1..], key)
    ensures forall i :: FirstOfKey(s, key, i) && key(s[i]) !in seen ==> s[i] in r
    ensures FirstsInOrder(r, s, key)
  {
    forall i | FirstOfKey(s, key, i) && key(s[i]) !in seen
      ensures s[i] in r
    {
      assert s[i] == s[1..][i - 1] && FirstOfKey(s[1..], key, i - 1);
    }
    ShiftFirsts(r, s, key);
  }

  /** The step of `DedupByKey` that keeps a head whose key is new. */
  lemma KeepHead<T, K>(t: seq<T>, s: seq<T>, key: T -> K, seen: set<K>)
    requires |s| > 0 && key(s[0]) !in seen
    requires forall i :: 0 <= i < |t| ==> key(t[i]) !in seen + {key(s[0])}
    requires forall i :: FirstOfKey(s[1..], key, i) && key(s[1..][i]) !in seen + {key(s[0])} ==> s[1..][i] in t
    requires FirstsInOrder(t, s[1..], key)
    ensures var r := [s[0]] + t;
      && KeysDistinct(r, key)
      && (forall i :: 0 <= i < |r| ==> r[i] in s && key(r[i]) !in seen)
      && (forall i :: FirstOfKey(s, key, i) && key(s[i]) !in seen ==> s[i] in r)
      && FirstsInOrder(r, s, key)
  {
    var r := [s[0]] + t;
    forall i | FirstOfKey(s, key, i) && key(s[i]) !in seen
      ensures s[i] in r
    {
      if i > 0 {
        assert s[i] == s[1..][i - 1] && FirstOfKey(s[1..], key, i - 1);
      }
    }
    ShiftFirsts(t, s, key);
    HeadFirst(t, s, key);
    FirstsKeysDistinct(r, s, key);
    assert forall i :: 0 < i < |r| ==> r[i] == t[i - 1];
  }

  /** Two sequences with the same multiset have the same elements. */
  lemma SameMultisetSameElements<T>(a: seq<T>, b: seq<T>)
    requires multiset(a) == multiset(b)
    ensures forall i :: 0 <= i < |a| ==> a[i] in b
    ensures forall i :: 0 <= i < |b| ==> b[i] in a
  {
    forall i | 0 <= i < |a|
      ensures a[i] in b
    {
      assert a[i] in multiset(a);
    }
    forall i | 0 <= i < |b|
      ensures b[i] in a
    {
      assert b[i] in multiset(b);
    }
  }

  /** Removing the element at `k` removes one copy of it from the multiset. */
  lemma RemoveAtMultiset<T>(t: seq<T>, k: nat)
    requires k < |t|
    ensures multiset(t[..k] + t[k + 1..]) == multiset(t) - multiset{t[k]}
  {
    assert t == t[..k] + [t[k]] + t[k + 1..];
  }

  /** Inserting an element whose key is new into a key-distinct sequence keeps it key-distinct. */
  lemma InsertAtKeepsKeysDistinct<T, K>(t: seq<T>, k: nat, key: T -> K)
    requires k < |t|
    requires KeysDistinct(t[..k] + t[k + 1..], key)
    requires forall j :: 0 <= j < |t| && j != k ==> key(t[j]) != key(t[k])
    ensures KeysDistinct(t, key)
  {
    var t' := t[..k] + t[k + 1..];
    forall i, j | 0 <= i < j < |t|
      ensures key(t[i]) != key(t[j])
    {
      if i != k && j != k {
        var i' := if i < k then i else i - 1;
        var j' := if j < k then j else j - 1;
        assert t[i] == t'[i'] && t[j] == t'[j'];
      }
    }
  }

  /** Reordering a sequence cannot make two of its keys equal. */
  lemma {:induction false} PermutationKeepsKeysDistinct<T, K>(s: seq<T>, t: seq<T>, key: T -> K)
    requires multiset(s) == multiset(t)
    requires KeysDistinct(s, key)
    ensures KeysDistinct(t, key)
  {
    if |s| > 0 {
      assert s[0] in multiset(t);
      var k :| 0 <= k < |t| && t[k] == s[0];
      var t' := t[..k] + t[k + 1..];
      RemoveAtMultiset(t, k);
      HeadRemoved(s);
      PermutationKeepsKeysDistinct(s[1..], t', key);
      OthersKeyedApart(s, t, k, key);
      InsertAtKeepsKeysDistinct(t, k, key);
    }
  }

  lemma HeadRemoved<T>(s: seq<T>)
    requires |s| > 0
    ensures multiset(s[1..]) == multiset(s) - multiset{s[0]}
  {
    assert s == [s[0]] + s[1..];
  }

  /** In a reordering of a key-distinct `s`, the elements other than the head of `s`
      have keys other than the head's. */
  lemma OthersKeyedApart<T, K>(s: seq<T>, t: seq<T>, k: nat, key: T -> K)
    requires |s| > 0 && KeysDistinct(s, key)
    requires k < |t| && t[k] == s[0]
    requires multiset(t[..k] + t[k + 1..]) == multiset(s[1..])
    ensures forall j :: 0 <= j < |t| && j != k ==> key(t[j]) != key(t[k])
  {
    var t' := t[..k] + t[k + 1..];
    forall j | 0 <= j < |t| && j != k
      ensures key(t[j]) != key(t[k])
    {
      var j' := if j < k then j else j - 1;
      assert t[j] == t'[j'];
      assert t'[j'] in multiset(s[1..]);
      var m :| 0 <= m < |s[1..]| && s[1..][m] == t[j];
      assert s[m + 1] == t[j];
    }
  }

  /** De-duplicating a sequence whose keys are already distinct, and unseen, keeps all of it. */
  lemma {:induction false} DedupDistinctIsIdentity<T, K>(s: seq<T>, key: T -> K, seen: set<K>)
    requires KeysDistinct(s, key)
    requires forall i :: 0 <= i < |s| ==> key(s[i]) !in seen
    ensures DedupByKey(s, key, seen) == s
  {
    if |s| > 0 {
      DedupDistinctIsIdentity(s[1..], key, seen + {key(s[0])});
    }
  }

  /** What de-duplicating keeps, in the order of `s`: each kept element is the first
      element of `s` with its key, and the kept elements appear in the order in which
      their keys first occur in `s`. */
  ghost predicate FirstsInOrder<T, K>(r: seq<T>, s: seq<T>, key: T -> K) {
    && (forall i :: 0 <= i < |r| ==> 0 <= IndexOfKey(s, key, key(r[i])) && r[i] == s[IndexOfKey(s, key, key(r[i]))])
    && (forall i, j :: 0 <= i < j < |r| ==> IndexOfKey(s, key, key(r[i])) < IndexOfKey(s, key, key(r[j])))
  }

  /** Elements kept in the order in which their keys first occur have distinct keys. */
  lemma FirstsKeysDistinct<T, K>(r: seq<T>, s: seq<T>, key: T -> K)
    requires FirstsInOrder(r, s, key)
    ensures KeysDistinct(r, key)
    ensures forall i :: 0 <= i < |r| ==> r[i] in s
  {
    forall i, j | 0 <= i < j < |r|
      ensures key(r[i]) != key(r[j])
    {
      assert IndexOfKey(s, key, key(r[i])) < IndexOfKey(s, key, key(r[j]));
    }
  }

  /** The head of `s` can go in front of firsts of `s` that come after it. */
  lemma HeadFirst<T, K>(t: seq<T>, s: seq<T>, key: T -> K)
    requires |s| > 0 && FirstsInOrder(t, s, key)
    requires forall i :: 0 <= i < |t| ==> IndexOfKey(s, key, key(t[i])) > 0
    ensures FirstsInOrder([s[0]] + t, s, key)
  {
    HeadKept(t, s, key);
    HeadOrdered(t, s, key);
  }

  lemma HeadKept<T, K>(t: seq<T>, s: seq<T>, key: T -> K)
    requires |s| > 0
    requires forall i :: 0 <= i < |t| ==> 0 <= IndexOfKey(s, key, key(t[i])) && t[i] == s[IndexOfKey(s, key, key(t[i]))]
    ensures var r := [s[0]] + t;
      forall i :: 0 <= i < |r| ==> 0 <= IndexOfKey(s, key, key(r[i])) && r[i] == s[IndexOfKey(s, key, key(r[i]))]
  {
    var r := [s[0]] + t;
    assert IndexOfKey(s, key, key(s[0])) == 0;
    forall i | 0 < i < |r|
      ensures 0 <= IndexOfKey(s, key, key(r[i])) && r[i] == s[IndexOfKey(s, key, key(r[i]))]
    {
      assert r[i] == t[i - 1];
    }
  }

  lemma HeadOrdered<T, K>(t: seq<T>, s: seq<T>, key: T -> K)
    requires |s| > 0
    requires forall i :: 0 <= i < |t| ==> IndexOfKey(s, key, key(t[i])) > 0
    requires forall i, j :: 0 <= i < j < |t| ==> IndexOfKey(s, key, key(t[i])) < IndexOfKey(s, key, key(t[j]))
    ensures var r := [s[0]] + t;
      forall i, j :: 0 <= i < j < |r| ==> IndexOfKey(s, key, key(r[i])) < IndexOfKey(s, key, key(r[j]))
  {
    var r := [s[0]] + t;
    assert IndexOfKey(s, key, key(s[0])) == 0;
    forall i, j | 0 <= i < j < |r|
      ensures IndexOfKey(s, key, key(r[i])) < IndexOfKey(s, key, key(r[j]))
    {
      assert r[j] == t[j - 1];
      if i > 0 { assert r[i] == t[i - 1]; }
    }
  }

  /** Firsts of `s[1..]` whose keys differ from the head's are firsts of `s`, one index later. */
  lemma ShiftFirsts<T, K>(t: seq<T>, s: seq<T>, key: T -> K)
    requires |s| > 0 && FirstsInOrder(t, s[1..], key)
    requires forall i :: 0 <= i < |t| ==> key(t[i]) != key(s[0])
    ensures FirstsInOrder(t, s, key)
    ensures forall i :: 0 <= i < |t| ==> IndexOfKey(s, key, key(t[i])) > 0
  {
    forall i | 0 <= i < |t|
      ensures IndexOfKey(s, key, key(t[i])) == IndexOfKey(s[1..], key, key(t[i])) + 1
    {
    }
  }

  /** `s.filter((x, i, a) => a.findIndex(y => key(y) === key(x)) === i)`: the first
      element of every key, in order. */
  function DedupFirst<T(==), K(==)>(s: seq<T>, key: T -> K): (r: seq<T>)
    ensures KeysDistinct(r, key)
    ensures forall i :: 0 <= i < |r| ==> r[i] in s
    ensures forall i :: FirstOfKey(s, key, i) ==> s[i] in r
    ensures forall i :: 0 <= i < |s| ==> exists j :: 0 <= j < |r| && key(r[j]) == key(s[i])
    ensures FirstsInOrder(r, s, key)
  {
    var r := DedupByKey(s, key, {});
    forall i | 0 <= i < |s|
      ensures exists j :: 0 <= j < |r| && key(r[j]) == key(s[i])
    {
      var f := IndexOfKey(s, key, key(s[i]));
      assert FirstOfKey(s, key, f);
      var j :| 0 <= j < |r| && r[j] == s[f];
    }
    r
  }

  /** Putting an element with a new key in front keeps the keys distinct. */
  lemma PrependKeepsKeysDistinct<T, K>(x: T, s: seq<T>, key: T -> K)
    requires KeysDistinct(s, key)
    requires forall i :: 0 <= i < |s| ==> key(s[i]) != key(x)
    ensures KeysDistinct([x] + s, key)
  {
    var r := [x] + s;
    forall i, j | 0 <= i < j < |r|
      ensures key(r[i]) != key(r[j])
    {
      assert r[j] == s[j - 1];
      if i > 0 {
        assert r[i] == s[i - 1];
      }
    }
  }

  /** Filtering cannot make two keys equal. */
  lemma {:induction false} FilterKeepsKeysDistinct<T, K>(s: seq<T>, p: T -> bool, key: T -> K)
    requires KeysDistinct(s, key)
    ensures KeysDistinct(Filter(s, p), key)
  {
    if |s| > 0 {
      FilterKeepsKeysDistinct(s[1..], p, key);
      var t := Filter(s[1..], p);
      forall i | 0 <= i < |t|
        ensures key(t[i]) != key(s[0])
      {
        var m :| 0 <= m < |s[1..]| && s[1..][m] == t[i];
        assert s[m + 1] == t[i];
      }
      if p(s[0]) {
        PrependKeepsKeysDistinct(s[0], t, key);
      }
    }
  }

  /** De-duplicating `a + b` keeps, for every key that `a` has, an element of `a`. */
  lemma DedupFirstPrefersFront<T, K>(a: seq<T>, b: seq<T>, key: T -> K)
    ensures var r := DedupFirst(a + b, key);
      forall j, k :: 0 <= j < |r| && 0 <= k < |a| && key(a[k]) == key(r[j]) ==> r[j] in a
  {
    FrontWins(DedupFirst(a + b, key), a, b, key);
  }

  lemma FrontWins<T, K>(r: seq<T>, a: seq<T>, b: seq<T>, key: T -> K)
    requires FirstsInOrder(r, a + b, key)
    ensures forall j, k :: 0 <= j < |r| && 0 <= k < |a| && key(a[k]) == key(r[j]) ==> r[j] in a
  {
    forall j, k | 0 <= j < |r| && 0 <= k < |a| && key(a[k]) == key(r[j])
      ensures r[j] in a
    {
      FirstFromFront(r, a, b, key, j, k);
    }
  }

  /** A first occurrence in `a + b` whose key `a` has lies in `a`. */
  lemma FirstFromFront<T, K>(r: seq<T>, a: seq<T>, b: seq<T>, key: T -> K, j: nat, k: nat)
    requires FirstsInOrder(r, a + b, key)
    requires j < |r| && k < |a| && key(a[k]) == key(r[j])
    ensures IndexOfKey(a + b, key, key(r[j])) < |a|
    ensures r[j] in a
  {
    var s := a + b;
    assert s[k] == a[k];
    var f := IndexOfKey(s, key, key(r[j]));
    assert r[j] == s[f] == a[f];
  }

  /** Among first occurrences in `a + b`, anything before an element of `a` is in `a`. */
  lemma FrontBlockPair<T, K>(r: seq<T>, a: seq<T>, b: seq<T>, key: T -> K, i: nat, j: nat)
    requires FirstsInOrder(r, a + b, key)
    requires i < j < |r| && r[j] in a
    ensures r[i] in a
  {
    var s := a + b;
    var k :| 0 <= k < |a| && a[k] == r[j];
    FirstFromFront(r, a, b, key, j, k);
    var fi := IndexOfKey(s, key, key(r[i]));
    assert fi < IndexOfKey(s, key, key(r[j]));
    assert r[i] == s[fi] == a[fi];
  }

  /** De-duplicating `a + b` keeps the elements drawn from `a` ahead of all others. */
  lemma DedupFirstFrontBlock<T, K>(a: seq<T>, b: seq<T>, key: T -> K)
    ensures var r := DedupFirst(a + b, key);
      forall i, j :: 0 <= i < j < |r| && r[j] in a ==> r[i] in a
  {
    FrontBlock(DedupFirst(a + b, key), a, b, key);
  }

  lemma FrontBlock<T, K>(r: seq<T>, a: seq<T>, b: seq<T>, key: T -> K)
    requires FirstsInOrder(r, a + b, key)
    ensures forall i, j :: 0 <= i < j < |r| && r[j] in a ==> r[i] in a
  {
    forall i, j | 0 <= i < j < |r| && r[j] in a
      ensures r[i] in a
    {
      FrontBlockPair(r, a, b, key, i, j);
    }
  }
}
