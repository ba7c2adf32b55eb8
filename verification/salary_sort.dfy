/**
 * The in-place quicksort of developer records by salary, highest first:
 * Lomuto partition with the last element of the range as pivot.
 * Ranges are inclusive, `lo..hi`, as in the C.
 */
module SalarySort {
  import opened DeveloperRecords

  /** Highest salary first within the index range `lo..hi-1` of `s`. */
  ghost predicate SortedBetween(s: seq<Developer>, lo: int, hi: int)
  {
    0 <= lo && hi <= |s| && forall i, j :: lo <= i < j < hi ==> s[i].salary >= s[j].salary
  }

  /** Highest salary first, throughout. */
  ghost predicate SortedBySalary(s: seq<Developer>)
  {
    SortedBetween(s, 0, |s|)
  }

  /**
   * `s[lo..hi]` is split at `p`: salaries at least `s[p]`'s before it, below
   * `s[p]`'s after it.
   */
  ghost predicate PartitionedAt(s: seq<Developer>, lo: int, p: int, hi: int)
  {
    0 <= lo <= p <= hi < |s| &&
    (forall k :: lo <= k < p ==> s[k].salary >= s[p].salary) &&
    (forall k :: p < k <= hi ==> s[k].salary < s[p].salary)
  }

  /** `s` and `t` have the same length and agree outside the index range `lo..hi-1`. */
  ghost predicate SameOutside(s: seq<Developer>, t: seq<Developer>, lo: int, hi: int)
  {
    |s| == |t| && forall k :: 0 <= k < |s| && !(lo <= k < hi) ==> s[k] == t[k]
  }

  lemma CancelLeft<T>(a: multiset<T>, b: multiset<T>, c: multiset<T>, d: multiset<T>)
    requires a + b == c + d && a == c
    ensures b == d
  {
    assert forall x :: (a + b)[x] == a[x] + b[x];
    assert forall x :: (c + d)[x] == c[x] + d[x];
  }

  /** The records of an array are those of a range plus those outside it. */
  lemma SplitAtRange(s: seq<Developer>, lo: int, hi: int)
    requires 0 <= lo <= hi <= |s|
    ensures multiset(s) == multiset(s[..lo] + s[hi..]) + multiset(s[lo..hi])
  {
    assert s == s[..lo] + s[lo..hi] + s[hi..];
  }

  /**
   * When two arrays hold the same records and agree outside `lo..hi-1`, the
   * range itself holds the same records.
   */
  lemma RangePermutation(s: seq<Developer>, t: seq<Developer>, lo: int, hi: int)
    requires 0 <= lo <= hi <= |s|
    requires multiset(s) == multiset(t) && SameOutside(s, t, lo, hi)
    ensures multiset(s[lo..hi]) == multiset(t[lo..hi])
  {
    assert s[..lo] == t[..lo];
    assert s[hi..] == t[hi..];
    SplitAtRange(s, lo, hi);
    SplitAtRange(t, lo, hi);
    CancelLeft(multiset(s[..lo] + s[hi..]), multiset(s[lo..hi]), multiset(t[..lo] + t[hi..]), multiset(t[lo..hi]));
  }

  /** Rearranging a range keeps a lower salary bound that held for all of it. */
  lemma AtLeastSurvives(s: seq<Developer>, t: seq<Developer>, lo: int, hi: int, bound: int)
    requires 0 <= lo <= hi <= |s| == |t|
    requires multiset(s[lo..hi]) == multiset(t[lo..hi])
    requires forall k :: lo <= k < hi ==> s[k].salary >= bound
    ensures forall k :: lo <= k < hi ==> t[k].salary >= bound
  {
    forall k | lo <= k < hi ensures t[k].salary >= bound {
      assert t[k] == t[lo..hi][k - lo];
      assert t[k] in multiset(s[lo..hi]);
      var m :| 0 <= m < hi - lo && s[lo..hi][m] == t[k];
      assert s[lo + m] == t[k];
    }
  }

  /** Rearranging a range keeps a strict upper salary bound that held for all of it. */
  lemma BelowSurvives(s: seq<Developer>, t: seq<Developer>, lo: int, hi: int, bound: int)
    requires 0 <= lo <= hi <= |s| == |t|
    requires multiset(s[lo..hi]) == multiset(t[lo..hi])
    requires forall k :: lo <= k < hi ==> s[k].salary < bound
    ensures forall k :: lo <= k < hi ==> t[k].salary < bound
  {
    forall k | lo <= k < hi ensures t[k].salary < bound {
      assert t[k] == t[lo..hi][k - lo];
      assert t[k] in multiset(s[lo..hi]);
      var m :| 0 <= m < hi - lo && s[lo..hi][m] == t[k];
      assert s[lo + m] == t[k];
    }
  }

  /** Agreeing outside a range is kept when a later change stays inside a sub-range of it. */
  lemma SameOutsideNarrower(s: seq<Developer>, t: seq<Developer>, u: seq<Developer>,
                            lo: int, hi: int, lo': int, hi': int)
    requires lo <= lo' && hi' <= hi
    requires SameOutside(s, t, lo, hi) && SameOutside(t, u, lo', hi')
    ensures SameOutside(s, u, lo, hi)
  {
  }

  /**
   * One quickSort step on array snapshots: `s1` is partitioned around `p`,
   * `s2` sorts the part left of `p`, then `s3` the part right of it. The
   * whole range `lo..hi` ends sorted.
   */
  lemma QuickSortStep(s1: seq<Developer>, s2: seq<Developer>, s3: seq<Developer>,
                      lo: int, p: int, hi: int)
    requires PartitionedAt(s1, lo, p, hi)
    requires multiset(s1) == multiset(s2) && SameOutside(s1, s2, lo, p)
    requires multiset(s2) == multiset(s3) && SameOutside(s2, s3, p + 1, hi + 1)
    requires SortedBetween(s2, lo, p) && SortedBetween(s3, p + 1, hi + 1)
    ensures SortedBetween(s3, lo, hi + 1)
  {
    var pivot := s1[p].salary;
    RangePermutation(s1, s2, lo, p);
    AtLeastSurvives(s1, s2, lo, p, pivot);
    RangePermutation(s2, s3, p + 1, hi + 1);
    BelowSurvives(s2, s3, p + 1, hi + 1, pivot);
  }

  /** swapDevelopers, on two cells of one array. */
  method SwapDevelopers(a: array<Developer>, i: int, j: int)
    requires 0 <= i < a.Length && 0 <= j < a.Length
    modifies a
    ensures a[i] == old(a[j]) && a[j] == old(a[i])
    ensures forall k :: 0 <= k < a.Length && k != i && k != j ==> a[k] == old(a[k])
    ensures multiset(a[..]) == multiset(old(a[..]))
  {
    var temp := a[i];
    a[i] := a[j];
    a[j] := temp;
  }

  /**
   * partition: the pivot `a[hi]` lands at `p`, with salaries at least the
   * pivot's before it and salaries below it after it.
   */
  method Partition(a: array<Developer>, lo: int, hi: int) returns (p: int)
    requires 0 <= lo <= hi < a.Length
    modifies a
    ensures lo <= p <= hi
    ensures a[p] == old(a[hi])
    ensures PartitionedAt(a[..], lo, p, hi)
    ensures multiset(a[..]) == multiset(old(a[..]))
    ensures SameOutside(old(a[..]), a[..], lo, hi + 1)
  {
    var pivot := a[hi].salary;
    var i := lo - 1;
    for j := lo to hi
      invariant lo - 1 <= i < j
      invariant a[hi] == old(a[hi])
      invariant forall k :: lo <= k <= i ==> a[k].salary >= pivot
      invariant forall k :: i < k < j ==> a[k].salary < pivot
      invariant multiset(a[..]) == multiset(old(a[..]))
      invariant forall k :: 0 <= k < a.Length && !(lo <= k <= hi) ==> a[k] == old(a[k])
    {
      if a[j].salary >= pivot {
        i := i + 1;
        SwapDevelopers(a, i, j);
      }
    }
    SwapDevelopers(a, i + 1, hi);
    p := i + 1;
  }

  /**
   * quickSort(arr, lo, hi): the range ends sorted, highest salary first,
   * holding the records it held before; the rest of the array is untouched.
   */
  method QuickSort(a: array<Developer>, lo: int, hi: int)
    requires 0 <= lo <= hi + 1 <= a.Length
    modifies a
    ensures SortedBetween(a[..], lo, hi + 1)
    ensures multiset(a[lo..hi + 1]) == multiset(old(a[lo..hi + 1]))
    ensures multiset(a[..]) == multiset(old(a[..]))
    ensures SameOutside(old(a[..]), a[..], lo, hi + 1)
    decreases hi - lo + 1
  {
    if lo < hi {
      ghost var s0 := a[..];
      var p := Partition(a, lo, hi);
      ghost var s1 := a[..];
      QuickSort(a, lo, p - 1);
      ghost var s2 := a[..];
      QuickSort(a, p + 1, hi);
      QuickSortStep(s1, s2, a[..], lo, p, hi);
      SameOutsideNarrower(s0, s1, s2, lo, hi + 1, lo, p);
      SameOutsideNarrower(s0, s2, a[..], lo, hi + 1, p + 1, hi + 1);
    }
    RangePermutation(old(a[..]), a[..], lo, hi + 1);
  }
}
