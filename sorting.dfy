/** `array.sort(compare)`: an in-place, stable reordering driven by a
    comparator that returns a negative number, zero or a positive number. */
module Sorting {
  /** `cmp(x, y) <= 0`: `x` may stay in front of `y`. */
  predicate Le<T>(cmp: (T, T) -> int, x: T, y: T) {
    cmp(x, y) <= 0
  }

  /** A comparator for which `sort` has a defined result: any two elements
      can be put in some order, and that order is transitive. */
  ghost predicate Consistent<T(!new)>(cmp: (T, T) -> int) {
    (forall x, y :: Le(cmp, x, y) || Le(cmp, y, x)) &&
    (forall x, y, z :: Le(cmp, x, y) && Le(cmp, y, z) ==> Le(cmp, x, z))
  }

  predicate Sorted<T>(cmp: (T, T) -> int, s: seq<T>) {
    forall p, q :: 0 <= p < q < |s| ==> Le(cmp, s[p], s[q])
  }

  /** Sorts `a` in place by insertion: each element moves left past the
      elements that compare greater than it. */
  method InsertionSort<T(!new)>(a: array<T>, cmp: (T, T) -> int)
    requires Consistent(cmp)
    modifies a
    ensures Sorted(cmp, a[..])
    ensures multiset(a[..]) == multiset(old(a[..]))
  {
    var i := 0;
    while i < a.Length
      invariant 0 <= i <= a.Length
      invariant Sorted(cmp, a[..i])
      invariant multiset(a[..]) == multiset(old(a[..]))
    {
      Insert(a, i, cmp);
      i := i + 1;
    }
    assert a[..a.Length] == a[..];
  }

  /** The prefix up to `i` is sorted, except that the element at `j` may be
      smaller than those before it; it is no greater than those after it. */
  predicate Moving<T>(cmp: (T, T) -> int, s: seq<T>, i: nat, j: nat) {
    j <= i < |s| &&
    (forall p, q :: 0 <= p < q <= i && p != j && q != j ==> Le(cmp, s[p], s[q])) &&
    (forall q :: j < q <= i ==> Le(cmp, s[j], s[q]))
  }

  /** One pass of insertion sort: `a[i]` moves left into the sorted prefix. */
  method Insert<T(!new)>(a: array<T>, i: nat, cmp: (T, T) -> int)
    requires Consistent(cmp)
    requires i < a.Length && Sorted(cmp, a[..i])
    modifies a
    ensures Sorted(cmp, a[..i + 1])
    ensures multiset(a[..]) == multiset(old(a[..]))
  {
    var j: nat := i;
    assert Moving(cmp, a[..], i, j);
    while j > 0 && cmp(a[j - 1], a[j]) > 0
      invariant Moving(cmp, a[..], i, j)
      invariant multiset(a[..]) == multiset(old(a[..]))
    {
      SwapKeepsMoving(cmp, a[..], i, j);
      a[j - 1], a[j] := a[j], a[j - 1];
      j := j - 1;
    }
    InsertedSorted(a[..], i, j, cmp);
  }

  /** Swapping the moving element with a greater left neighbour keeps the
      shape, one position further left. */
  lemma SwapKeepsMoving<T(!new)>(cmp: (T, T) -> int, s: seq<T>, i: nat, j: nat)
    requires Consistent(cmp)
    requires Moving(cmp, s, i, j) && j > 0 && cmp(s[j - 1], s[j]) > 0
    ensures Moving(cmp, s[j - 1 := s[j]][j := s[j - 1]], i, j - 1)
  {
    var t := s[j - 1 := s[j]][j := s[j - 1]];
    assert Le(cmp, s[j], s[j - 1]);
    forall p, q | 0 <= p < q <= i && p != j - 1 && q != j - 1
      ensures Le(cmp, t[p], t[q])
    {
      if p == j {
        assert t[p] == s[j - 1];
      } else if q == j {
        assert t[q] == s[j - 1];
      }
    }
  }

  /** When the moving element has stopped at `j`, the prefix up to `i` is
      sorted. */
  lemma InsertedSorted<T(!new)>(s: seq<T>, i: nat, j: nat, cmp: (T, T) -> int)
    requires Consistent(cmp)
    requires Moving(cmp, s, i, j)
    requires j > 0 ==> Le(cmp, s[j - 1], s[j])
    ensures Sorted(cmp, s[..i + 1])
  {
    forall p, q | 0 <= p < q <= i
      ensures Le(cmp, s[p], s[q])
    {
      if q == j && p < j - 1 {
        assert Le(cmp, s[p], s[j - 1]);
      }
    }
  }
}
