/**
  The exchange sort that internal/version/version.go writes out twice in
  GroupVersions, once for the versions of a bucket and once for the groups.
*/
module Sorting {

  /** `cmp` is a total preorder given as a three-way comparison. */
  ghost predicate TotalPreorder<T(!new)>(cmp: (T, T) -> int) {
    && (forall x, y {:trigger cmp(x, y)} :: cmp(x, y) == -cmp(y, x))
    && (forall x, y, z {:trigger cmp(x, y), cmp(y, z), cmp(x, z)} ::
          cmp(x, y) <= 0 && cmp(y, z) <= 0 ==> cmp(x, z) <= 0)
  }

  /** The first `i` positions of `s` hold elements ranking at or below everything after them. */
  ghost predicate SettledBelow<T(!new)>(s: seq<T>, cmp: (T, T) -> int, i: int) {
    forall p, q :: 0 <= p < q < |s| && p < i ==> cmp(s[p], s[q]) <= 0
  }

  /** s[i] ranks at or below s[i + 1 .. j]. */
  ghost predicate LeastUpTo<T(!new)>(s: seq<T>, cmp: (T, T) -> int, i: int, j: int) {
    forall q :: 0 <= i < q < j && q < |s| ==> cmp(s[i], s[q]) <= 0
  }

  /**
    The sort both loops of GroupVersions spell out: for each i, swap a[i]
    with every later a[j] that ranks below it. It leaves the array ascending
    and a permutation of what it was.
  */
  method ExchangeSort<T(!new)>(a: array<T>, cmp: (T, T) -> int)
    requires TotalPreorder(cmp)
    modifies a
    ensures forall i, j :: 0 <= i < j < a.Length ==> cmp(a[i], a[j]) <= 0
    ensures multiset(a[..]) == multiset(old(a[..]))
  {
    var i := 0;
    while i < a.Length - 1
      invariant 0 <= i <= a.Length
      invariant SettledBelow(a[..], cmp, i)
      invariant multiset(a[..]) == multiset(old(a[..]))
    {
      SettlePosition(a, cmp, i);
      i := i + 1;
    }
    assert SettledBelow(a[..], cmp, a.Length - 1);
  }

  /**
    The inner loop: compare a[i] with each later element and swap when the
    later one ranks below, which leaves at a[i] an element ranking at or
    below everything after it.
  */
  method SettlePosition<T(!new)>(a: array<T>, cmp: (T, T) -> int, i: int)
    requires TotalPreorder(cmp) && 0 <= i < a.Length
    requires SettledBelow(a[..], cmp, i)
    modifies a
    ensures SettledBelow(a[..], cmp, i + 1)
    ensures multiset(a[..]) == multiset(old(a[..]))
  {
    var j := i + 1;
    while j < a.Length
      invariant i + 1 <= j <= a.Length
      invariant SettledBelow(a[..], cmp, i) && LeastUpTo(a[..], cmp, i, j)
      invariant multiset(a[..]) == multiset(old(a[..]))
    {
      if cmp(a[i], a[j]) > 0 {
        SwapKeepsOrder(a[..], cmp, i, j);
        Swap(a, i, j);
      } else {
        LeastExtends(a[..], cmp, i, j);
      }
      j := j + 1;
    }
    SettledOneMore(a[..], cmp, i);
  }

  lemma LeastExtends<T(!new)>(s: seq<T>, cmp: (T, T) -> int, i: int, j: int)
    requires 0 <= i < j < |s| && LeastUpTo(s, cmp, i, j) && cmp(s[i], s[j]) <= 0
    ensures LeastUpTo(s, cmp, i, j + 1)
  {
  }

  /** Once s[i] ranks at or below everything after it, position i is settled too. */
  lemma SettledOneMore<T(!new)>(s: seq<T>, cmp: (T, T) -> int, i: int)
    requires 0 <= i < |s| && SettledBelow(s, cmp, i) && LeastUpTo(s, cmp, i, |s|)
    ensures SettledBelow(s, cmp, i + 1)
  {
  }

  /** Swapping a[i] with a later a[j] that ranks below it keeps both loop invariants. */
  lemma SwapKeepsOrder<T(!new)>(s: seq<T>, cmp: (T, T) -> int, i: int, j: int)
    requires TotalPreorder(cmp) && 0 <= i < j < |s|
    requires SettledBelow(s, cmp, i) && LeastUpTo(s, cmp, i, j)
    requires cmp(s[i], s[j]) > 0
    ensures var t := s[i := s[j]][j := s[i]];
            SettledBelow(t, cmp, i) && LeastUpTo(t, cmp, i, j + 1)
  {
    var t := s[i := s[j]][j := s[i]];
    assert cmp(s[j], s[i]) < 0;
    forall q | i < q < j + 1
      ensures cmp(t[i], t[q]) <= 0
    {
      if q < j {
        assert cmp(s[j], s[i]) <= 0 && cmp(s[i], s[q]) <= 0;
      }
    }
  }

  /** Exchanges a[i] and a[j] and leaves the rest of the array alone. */
  method Swap<T>(a: array<T>, i: int, j: int)
    requires 0 <= i < j < a.Length
    modifies a
    ensures a[..] == old(a[..])[i := old(a[j])][j := old(a[i])]
    ensures multiset(a[..]) == multiset(old(a[..]))
  {
    a[i], a[j] := a[j], a[i];
  }
}
