/**
  Generic filtering and sorting over sequences, used by the two history reads:
  each filters a message log and sorts the result with its own ordering, which
  it proves a total preorder. The sort is an insertion sort that puts an
  element before the first one it is `leq` to.
 */
module Sorting {

  /** `leq` is total and transitive on every pair or triple of values. */
  ghost predicate TotalPreorder<T(!new)>(leq: (T, T) -> bool)
  {
    && (forall a, b :: leq(a, b) || leq(b, a))
    && (forall a, b, c :: leq(a, b) && leq(b, c) ==> leq(a, c))
  }

  /** Every element is `leq` every element after it. */
  ghost predicate SortedBy<T(!new)>(s: seq<T>, leq: (T, T) -> bool)
  {
    forall i, j :: 0 <= i < j < |s| ==> leq(s[i], s[j])
  }

  /** The elements of `s` that satisfy `p`, in their original order. */
  function Filter<T(!new)>(s: seq<T>, p: T -> bool): (r: seq<T>)
    ensures |r| <= |s|
    ensures forall x :: multiset(r)[x] == if p(x) then multiset(s)[x] else 0
    ensures forall i :: 0 <= i < |r| ==> p(r[i]) && r[i] in s
  {
    if s == [] then []
    else
      var rest := Filter(s[1..], p);
      assert s == [s[0]] + s[1..];
      if p(s[0]) then [s[0]] + rest else rest
  }

  /** Puts `x` into the sorted sequence `s` before the first element it is `leq` to. */
  function Insert<T(!new)>(x: T, s: seq<T>, leq: (T, T) -> bool): (r: seq<T>)
    requires TotalPreorder(leq)
    requires SortedBy(s, leq)
    ensures SortedBy(r, leq)
    ensures multiset(r) == multiset(s) + multiset{x}
  {
    if s == [] then [x]
    else if leq(x, s[0]) then
      assert forall y :: y in s ==> leq(x, y) by {
        forall y | y in s ensures leq(x, y) {
          var j :| 0 <= j < |s| && s[j] == y;
          if j > 0 { assert leq(s[0], s[j]); }
        }
      }
      SortedCons(x, s, leq);
      [x] + s
    else
      var rest := Insert(x, s[1..], leq);
      assert s == [s[0]] + s[1..];
      assert forall y :: y in rest ==> leq(s[0], y) by {
        forall y | y in rest ensures leq(s[0], y) {
          assert y in multiset(rest);
          if y != x {
            var j :| 0 <= j < |s[1..]| && s[1..][j] == y;
            assert s[j + 1] == y;
          }
        }
      }
      SortedCons(s[0], rest, leq);
      [s[0]] + rest
  }

  /** Prepending an element that is `leq` to everything keeps a sequence sorted. */
  lemma SortedCons<T(!new)>(a: T, s: seq<T>, leq: (T, T) -> bool)
    requires SortedBy(s, leq)
    requires forall y :: y in s ==> leq(a, y)
    ensures SortedBy([a] + s, leq)
  {
    var r := [a] + s;
    forall i, j | 0 <= i < j < |r| ensures leq(r[i], r[j]) {
      assert r[j] == s[j - 1];
      if i > 0 { assert r[i] == s[i - 1]; }
    }
  }

  /** A permutation of `s` ordered by `leq` (an insertion sort). */
  function SortBy<T(!new)>(s: seq<T>, leq: (T, T) -> bool): (r: seq<T>)
    requires TotalPreorder(leq)
    ensures SortedBy(r, leq)
    ensures multiset(r) == multiset(s)
  {
    if s == [] then []
    else
      assert s == [s[0]] + s[1..];
      Insert(s[0], SortBy(s[1..], leq), leq)
  }
}
