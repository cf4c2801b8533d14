/**
 * Insertion sort over a total "may come first" relation. It stands for the ORDER BY of the
 * database queries: the result is ordered and is a permutation of the input. How it orders
 * ties is one of the orders the database may return; no lemma here speaks of it.
 */
module Sorting {

  /** `le(a, b)`: a may be listed before b. Any two values are comparable. */
  ghost predicate Total<T(!new)>(le: (T, T) -> bool) {
    forall a, b :: le(a, b) || le(b, a)
  }

  ghost predicate Transitive<T(!new)>(le: (T, T) -> bool) {
    forall a, b, c :: le(a, b) && le(b, c) ==> le(a, c)
  }

  /** Neighbours are in order. */
  ghost predicate Sorted<T>(s: seq<T>, le: (T, T) -> bool) {
    forall i :: 0 <= i < |s| - 1 ==> le(s[i], s[i + 1])
  }

  /** Any earlier element may come before any later one. */
  ghost predicate Ordered<T>(s: seq<T>, le: (T, T) -> bool) {
    forall i, j :: 0 <= i < j < |s| ==> le(s[i], s[j])
  }

  /** Places x in front of the first element it may precede. */
  function Insert<T(!new)>(x: T, s: seq<T>, le: (T, T) -> bool): (r: seq<T>)
    requires Total(le)
    requires Sorted(s, le)
    ensures Sorted(r, le)
    ensures multiset(r) == multiset(s) + multiset{x}
    ensures |r| == |s| + 1
  {
    if s == [] then [x]
    else if le(x, s[0]) then [x] + s
    else
      var rest := Insert(x, s[1..], le);
      assert le(s[0], x);
      assert s == [s[0]] + s[1..];
      [s[0]] + rest
  }

  /** The sorted permutation of s. */
  function Sort<T(!new)>(s: seq<T>, le: (T, T) -> bool): (r: seq<T>)
    requires Total(le)
    ensures Sorted(r, le)
    ensures multiset(r) == multiset(s)
    ensures |r| == |s|
  {
    if s == [] then []
    else
      assert s == [s[0]] + s[1..];
      Insert(s[0], Sort(s[1..], le), le)
  }

  /** For a transitive relation, neighbour order is order between any two positions. */
  lemma {:induction false} SortedIsOrdered<T(!new)>(s: seq<T>, le: (T, T) -> bool)
    requires Transitive(le)
    requires Sorted(s, le)
    ensures Ordered(s, le)
  {
    if |s| > 1 {
      SortedIsOrdered(s[1..], le);
      forall j | 1 <= j < |s|
        ensures le(s[0], s[j])
      {
        var k := 1;
        while k < j
          invariant 1 <= k <= j
          invariant le(s[0], s[k])
        {
          assert le(s[k], s[k + 1]);
          k := k + 1;
        }
      }
      forall i, j | 0 <= i < j < |s|
        ensures le(s[i], s[j])
      {
        if i > 0 {
          assert s[i] == s[1..][i - 1] && s[j] == s[1..][j - 1];
        }
      }
    }
  }

  /** Sorting keeps exactly the members of the input. */
  lemma SortMembers<T(!new)>(s: seq<T>, le: (T, T) -> bool, x: T)
    requires Total(le)
    ensures x in Sort(s, le) <==> x in s
  {
    var r := Sort(s, le);
    assert x in r <==> x in multiset(r);
    assert x in s <==> x in multiset(s);
  }
}
