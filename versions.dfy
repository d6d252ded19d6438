/**
 * Version ordering, and the list operations the update checkers apply to
 * candidate versions: order-preserving `select`/`reject`, `max`, `min`,
 * `min_by`, `sort_by`, `reverse` and `find`.
 *
 * No version class is part of this model. A version scheme is given by its
 * `<`, which every checker relies on being a strict total order; two versions
 * that compare equal are the same value here.
 */
module Versions {

  import opened Wrappers

  /** `less` is irreflexive, transitive and total: the `<` of a version class. */
  ghost predicate StrictTotalOrder<V(!new)>(less: (V, V) -> bool)
  {
    && (forall a :: !less(a, a))
    && (forall a, b, c :: less(a, b) && less(b, c) ==> less(a, c))
    && (forall a, b :: a == b || less(a, b) || less(b, a))
  }

  /** `r` is `s` with some elements left out, the rest in their original order. */
  predicate IsSubsequence<T(==)>(r: seq<T>, s: seq<T>)
    decreases |s|
  {
    if r == [] then true
    else if s == [] then false
    else if r[0] == s[0] then IsSubsequence(r[1..], s[1..])
    else IsSubsequence(r, s[1..])
  }

  /** Every list is a subsequence of itself. */
  lemma {:induction false} IsSubsequenceOfSelf<T>(s: seq<T>)
    ensures IsSubsequence(s, s)
  {
    if s != [] {
      IsSubsequenceOfSelf(s[1..]);
    }
  }

  /** `select` (and `reject` with the negated block). */
  function Filter<T(==,!new)>(s: seq<T>, keep: T -> bool): (r: seq<T>)
    ensures |r| <= |s|
    ensures forall x :: x in r <==> x in s && keep(x)
    ensures IsSubsequence(r, s)
  {
    if s == [] then []
    else if keep(s[0]) then
      var rest := Filter(s[1..], keep);
      assert ([s[0]] + rest)[1..] == rest;
      [s[0]] + rest
    else Filter(s[1..], keep)
  }

  /** Filtering twice keeps what both blocks keep, in the same order. */
  lemma {:induction false} FilterTwice<T(!new)>(s: seq<T>, p: T -> bool, q: T -> bool, pq: T -> bool)
    requires forall x :: x in s ==> pq(x) == (p(x) && q(x))
    ensures Filter(Filter(s, p), q) == Filter(s, pq)
  {
    if s != [] {
      FilterTwice(s[1..], p, q, pq);
      if p(s[0]) {
        assert Filter(s, p) == [s[0]] + Filter(s[1..], p);
        assert Filter(s, p)[1..] == Filter(s[1..], p);
      }
    }
  }

  /** Two blocks that agree on every element of `s` select the same elements. */
  lemma {:induction false} FilterAgree<T(!new)>(s: seq<T>, p: T -> bool, q: T -> bool)
    requires forall x :: x in s ==> p(x) == q(x)
    ensures Filter(s, p) == Filter(s, q)
  {
    if s != [] {
      FilterAgree(s[1..], p, q);
    }
  }

  /** A block that keeps every element leaves the list as it is. */
  lemma {:induction false} FilterAll<T(!new)>(s: seq<T>, p: T -> bool)
    requires forall x :: x in s ==> p(x)
    ensures Filter(s, p) == s
  {
    if s != [] {
      FilterAll(s[1..], p);
    }
  }

  /** `max`: nil for an empty list, otherwise an element no element exceeds. */
  function Max<V(==,!new)>(s: seq<V>, less: (V, V) -> bool): (r: Option<V>)
    requires StrictTotalOrder(less)
    ensures r.None? <==> s == []
    ensures r.Some? ==> r.value in s && forall x :: x in s ==> !less(r.value, x)
  {
    if s == [] then None
    else
      match Max(s[1..], less)
      case None => Some(s[0])
      case Some(m) => if less(s[0], m) then Some(m) else Some(s[0])
  }

  /** `min`: nil for an empty list, otherwise an element that exceeds no element. */
  function Min<V(==,!new)>(s: seq<V>, less: (V, V) -> bool): (r: Option<V>)
    requires StrictTotalOrder(less)
    ensures r.None? <==> s == []
    ensures r.Some? ==> r.value in s && forall x :: x in s ==> !less(x, r.value)
  {
    if s == [] then None
    else
      match Min(s[1..], less)
      case None => Some(s[0])
      case Some(m) => if less(m, s[0]) then Some(m) else Some(s[0])
  }

  /** `min_by`: the index of the first element whose key is smallest. */
  function MinByIndex<T, K(!new)>(s: seq<T>, key: T -> K, less: (K, K) -> bool): (i: nat)
    requires s != [] && StrictTotalOrder(less)
    ensures i < |s|
    ensures forall j :: 0 <= j < |s| ==> !less(key(s[j]), key(s[i]))
    ensures forall j :: 0 <= j < i ==> less(key(s[i]), key(s[j]))
  {
    if |s| == 1 then 0
    else
      var k := MinByIndex(s[1..], key, less);
      assert forall j :: 1 <= j < |s| ==> s[j] == s[1..][j - 1];
      if less(key(s[1..][k]), key(s[0])) then k + 1 else 0
  }

  /** `min_by`: nil for an empty list. */
  function MinBy<T, K(!new)>(s: seq<T>, key: T -> K, less: (K, K) -> bool): Option<T>
    requires StrictTotalOrder(less)
  {
    if s == [] then None else Some(s[MinByIndex(s, key, less)])
  }

  /** No later element has a smaller key than an earlier one. */
  predicate SortedBy<T, K(!new)>(s: seq<T>, key: T -> K, less: (K, K) -> bool)
  {
    forall i, j :: 0 <= i < j < |s| ==> !less(key(s[j]), key(s[i]))
  }

  /** No later element has a larger key than an earlier one. */
  predicate SortedDescendingBy<T, K(!new)>(s: seq<T>, key: T -> K, less: (K, K) -> bool)
  {
    forall i, j :: 0 <= i < j < |s| ==> !less(key(s[i]), key(s[j]))
  }

  /** Inserts `x` before the first element whose key is larger than its own. */
  function InsertBy<T, K>(x: T, s: seq<T>, key: T -> K, less: (K, K) -> bool): (r: seq<T>)
    ensures multiset(r) == multiset(s) + multiset{x}
    decreases |s|
  {
    if s == [] then [x]
    else if less(key(x), key(s[0])) then [x] + s
    else
      assert s == [s[0]] + s[1..];
      [s[0]] + InsertBy(x, s[1..], key, less)
  }

  /** Inserting into a sorted list keeps it sorted. */
  lemma {:induction false} InsertBySorted<T, K(!new)>(x: T, s: seq<T>, key: T -> K, less: (K, K) -> bool)
    requires StrictTotalOrder(less) && SortedBy(s, key, less)
    ensures SortedBy(InsertBy(x, s, key, less), key, less)
    decreases |s|
  {
    if s != [] && !less(key(x), key(s[0])) {
      var rest := InsertBy(x, s[1..], key, less);
      InsertBySorted(x, s[1..], key, less);
      var r := [s[0]] + rest;
      forall j | 0 <= j < |rest|
        ensures !less(key(rest[j]), key(s[0]))
      {
        assert rest[j] in multiset(rest);
        assert rest[j] == x || rest[j] in s[1..];
      }
      forall i, j | 0 <= i < j < |r|
        ensures !less(key(r[j]), key(r[i]))
      {
        assert r[j] == rest[j - 1];
        if i > 0 {
          assert r[i] == rest[i - 1];
        }
      }
    }
  }

  /** `sort_by`: the elements of `s`, inserted one at a time. */
  function SortBy<T, K>(s: seq<T>, key: T -> K, less: (K, K) -> bool): (r: seq<T>)
    ensures multiset(r) == multiset(s)
  {
    if s == [] then []
    else
      assert s == [s[0]] + s[1..];
      InsertBy(s[0], SortBy(s[1..], key, less), key, less)
  }

  /** `sort_by` puts the keys in ascending order. */
  lemma {:induction false} SortBySorted<T, K(!new)>(s: seq<T>, key: T -> K, less: (K, K) -> bool)
    requires StrictTotalOrder(less)
    ensures SortedBy(SortBy(s, key, less), key, less)
  {
    if s != [] {
      SortBySorted(s[1..], key, less);
      InsertBySorted(s[0], SortBy(s[1..], key, less), key, less);
    }
  }

  /** `reverse`. */
  function Reverse<T>(s: seq<T>): (r: seq<T>)
    ensures |r| == |s|
    ensures forall i :: 0 <= i < |s| ==> r[i] == s[|s| - 1 - i]
  {
    if s == [] then [] else Reverse(s[1..]) + [s[0]]
  }

  /** Reversing an ascending list gives a descending list with the same elements. */
  lemma ReverseSorted<T, K(!new)>(s: seq<T>, key: T -> K, less: (K, K) -> bool)
    requires SortedBy(s, key, less)
    ensures SortedDescendingBy(Reverse(s), key, less)
    ensures multiset(Reverse(s)) == multiset(s)
  {
    var r := Reverse(s);
    forall i, j | 0 <= i < j < |r|
      ensures !less(key(r[i]), key(r[j]))
    {
      assert r[i] == s[|s| - 1 - i] && r[j] == s[|s| - 1 - j];
    }
    ReverseMultiset(s);
  }

  lemma {:induction false} ReverseMultiset<T>(s: seq<T>)
    ensures multiset(Reverse(s)) == multiset(s)
  {
    if s != [] {
      ReverseMultiset(s[1..]);
      assert s == [s[0]] + s[1..];
    }
  }

  /** No element occurs twice. */
  predicate NoDuplicates<T(==)>(s: seq<T>)
  {
    forall i, j :: 0 <= i < j < |s| ==> s[i] != s[j]
  }

  /** `uniq`: the first occurrence of every element, in order. */
  function Uniq<T(==,!new)>(s: seq<T>): (r: seq<T>)
    ensures forall x :: x in r <==> x in s
    ensures NoDuplicates(r)
    ensures |r| <= |s|
  {
    if s == [] then []
    else
      var r := Uniq(s[..|s| - 1]);
      assert s == s[..|s| - 1] + [s[|s| - 1]];
      if s[|s| - 1] in r then r else r + [s[|s| - 1]]
  }

  /** The index of the first element satisfying `p` (`find`, `index`). */
  function FirstIndex<T>(s: seq<T>, p: T -> bool): (r: Option<nat>)
    ensures r.Some? ==> r.value < |s| && p(s[r.value]) && forall j :: 0 <= j < r.value ==> !p(s[j])
    ensures r.None? ==> forall j :: 0 <= j < |s| ==> !p(s[j])
  {
    if s == [] then None
    else if p(s[0]) then Some(0)
    else
      match FirstIndex(s[1..], p)
      case None => None
      case Some(k) => Some(k + 1)
  }

  /** `find`. */
  function Find<T>(s: seq<T>, p: T -> bool): Option<T>
  {
    match FirstIndex(s, p)
    case None => None
    case Some(i) => Some(s[i])
  }
}
