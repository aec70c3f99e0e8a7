/** The ordering of query results (`orderBy`): a stable insertion sort by a caller-given total preorder. */
module Sorting {

  /** `le` is total and transitive: a valid sort key comparison (ties are allowed). */
  ghost predicate TotalPreorder<T(!new)>(le: (T, T) -> bool)
  {
    && (forall a, b :: le(a, b) || le(b, a))
    && (forall a, b, c :: le(a, b) && le(b, c) ==> le(a, c))
  }

  predicate SortedBy<T>(s: seq<T>, le: (T, T) -> bool)
  {
    forall i, j :: 0 <= i < j < |s| ==> le(s[i], s[j])
  }

  /** Every element of `s` is at least `b`. */
  predicate AllAbove<T>(b: T, s: seq<T>, le: (T, T) -> bool)
  {
    forall k :: 0 <= k < |s| ==> le(b, s[k])
  }

  lemma AllAboveOfPermutation<T>(b: T, s: seq<T>, t: seq<T>, le: (T, T) -> bool)
    requires AllAbove(b, s, le) && multiset(t) == multiset(s)
    ensures AllAbove(b, t, le)
  {
    forall k | 0 <= k < |t|
      ensures le(b, t[k])
    {
      assert t[k] in multiset(t);
      var i :| 0 <= i < |s| && s[i] == t[k];
    }
  }

  /** Inserts `x` into the sorted `s` before the first element it does not follow. */
  function Insert<T(!new)>(x: T, s: seq<T>, le: (T, T) -> bool): (r: seq<T>)
    requires TotalPreorder(le) && SortedBy(s, le)
    ensures SortedBy(r, le)
    ensures multiset(r) == multiset(s) + multiset{x}
  {
    if s == [] || le(x, s[0]) then
      [x] + s
    else
      var rest := Insert(x, s[1..], le);
      assert s == [s[0]] + s[1..];
      assert AllAbove(s[0], s[1..] + [x], le);
      assert multiset(rest) == multiset(s[1..] + [x]);
      AllAboveOfPermutation(s[0], s[1..] + [x], rest, le);
      [s[0]] + rest
  }

  /** The rows of `s` rearranged into `le` order. */
  function Sort<T(!new)>(s: seq<T>, le: (T, T) -> bool): (r: seq<T>)
    requires TotalPreorder(le)
    ensures SortedBy(r, le)
    ensures multiset(r) == multiset(s)
  {
    if s == [] then []
    else
      assert s == [s[0]] + s[1..];
      Insert(s[0], Sort(s[1..], le), le)
  }

  lemma PermutationSameElements<T>(s: seq<T>, t: seq<T>)
    requires multiset(s) == multiset(t)
    ensures forall x :: x in s <==> x in t
  {
    forall x
      ensures x in s <==> x in t
    {
      assert x in s <==> x in multiset(s);
      assert x in t <==> x in multiset(t);
    }
  }
}
