/** The contract of the C++ library's sorts: a permutation whose first `m`
    elements are in order and precede all others. Ties may come in any order. */
module Sorting {

  ghost predicate TotalPreorder<T(!new)>(le: (T, T) -> bool) {
    && (forall x, y :: le(x, y) || le(y, x))
    && (forall x, y, z :: le(x, y) && le(y, z) ==> le(x, z))
  }

  /** The first `m` elements are sorted and none after them is smaller. */
  ghost predicate SortedTo<T(!new)>(a: seq<T>, m: nat, le: (T, T) -> bool) {
    forall i, j | 0 <= i < m && i < j < |a| :: le(a[i], a[j])
  }

  lemma SwapPermutes<T>(a: seq<T>, i: nat, j: nat)
    requires i <= j < |a|
    ensures multiset(a[i := a[j]][j := a[i]]) == multiset(a)
  {
  }

  /** Index of a least element of `a[from..]`. */
  method LeastFrom<T(!new)>(a: seq<T>, from: nat, le: (T, T) -> bool) returns (best: nat)
    requires from < |a| && TotalPreorder(le)
    ensures from <= best < |a|
    ensures forall j | from <= j < |a| :: le(a[best], a[j])
  {
    best := from;
    assert le(a[best], a[from]);
    for j := from + 1 to |a|
      invariant from <= best < |a|
      invariant forall x | from <= x < j :: le(a[best], a[x])
    {
      if !le(a[best], a[j]) {
        best := j;
      }
    }
  }

  method PartialSort<T(!new)>(xs: seq<T>, m: nat, le: (T, T) -> bool) returns (a: seq<T>)
    requires m <= |xs| && TotalPreorder(le)
    ensures |a| == |xs| && multiset(a) == multiset(xs)
    ensures SortedTo(a, m, le)
  {
    a := xs;
    for i := 0 to m
      invariant |a| == |xs| && multiset(a) == multiset(xs)
      invariant SortedTo(a, i, le)
    {
      var best := LeastFrom(a, i, le);
      SwapPermutes(a, i, best);
      a := a[i := a[best]][best := a[i]];
    }
  }
}
