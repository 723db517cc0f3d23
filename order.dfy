/**
 * What "sorted" means for the sorting routines, the correctness check
 * `is_sorted` the experiments assert on every output, and the fact that
 * makes all four routines interchangeable: a sorted permutation of a list
 * is unique.
 */
module Order {

  /** Every element is at most every later one (ascending order). */
  predicate Sorted(s: seq<int>)
  {
    forall i, j :: 0 <= i < j < |s| ==> s[i] <= s[j]
  }

  /** Ascending by `key`: the order merge sort produces on keyed elements. */
  predicate SortedBy<T>(s: seq<T>, key: T -> int)
  {
    forall i, j :: 0 <= i < j < |s| ==> key(s[i]) <= key(s[j])
  }

  /** The key under which a list of integers is compared as itself. */
  function Identity(x: int): int { x }

  lemma SortedByIdentity(s: seq<int>)
    ensures SortedBy(s, Identity) <==> Sorted(s)
  {
  }

  /** Each element is at most its successor. */
  predicate Chained(s: seq<int>)
  {
    forall i :: 0 <= i < |s| - 1 ==> s[i] <= s[i + 1]
  }

  /** Ordered neighbours give an ordered list. */
  lemma {:induction false} ChainedIsSorted(s: seq<int>)
    requires Chained(s)
    ensures Sorted(s)
    decreases |s|
  {
    if |s| >= 2 {
      var t := s[1..];
      assert Chained(t) by {
        forall i | 0 <= i < |t| - 1 ensures t[i] <= t[i + 1] {
          assert t[i] == s[i + 1] && t[i + 1] == s[i + 2];
        }
      }
      ChainedIsSorted(t);
      forall i, j | 0 <= i < j < |s| ensures s[i] <= s[j] {
        if i == 0 {
          assert s[0] <= s[1];
          if j > 1 {
            assert t[0] <= t[j - 1];
          }
        } else {
          assert t[i - 1] <= t[j - 1];
        }
      }
    }
  }

  /**
   * The `is_sorted` check: every adjacent pair is in order. Its answer is
   * exactly whether the list is sorted in the all-pairs sense.
   */
  function IsSorted(a: seq<int>): (r: bool)
    ensures r <==> Sorted(a)
  {
    if Chained(a) then
      ChainedIsSorted(a);
      true
    else
      false
  }

  /**
   * Two sorted lists with the same elements (counted with multiplicity)
   * are equal; so every routine that returns a sorted permutation of its
   * input returns the same list.
   */
  lemma {:induction false} SortedPermutationUnique(a: seq<int>, b: seq<int>)
    requires Sorted(a) && Sorted(b)
    requires multiset(a) == multiset(b)
    ensures a == b
    decreases |a|
  {
    assert |a| == |multiset(a)| == |multiset(b)| == |b|;
    if |a| > 0 {
      HeadIsLeast(b, a[0]);
      HeadIsLeast(a, b[0]);
      var x := a[0];
      assert x == b[0];
      var ta, tb := a[1..], b[1..];
      assert a == [x] + ta && b == [x] + tb;
      assert multiset(ta) == multiset(a) - multiset{x};
      assert multiset(tb) == multiset(b) - multiset{x};
      SortedTail(a);
      SortedTail(b);
      SortedPermutationUnique(ta, tb);
    }
  }

  /** The head of a sorted list is at most any of its elements. */
  lemma HeadIsLeast(s: seq<int>, x: int)
    requires Sorted(s) && x in multiset(s)
    ensures |s| > 0 && s[0] <= x
  {
    var k :| 0 <= k < |s| && s[k] == x;
  }

  lemma SortedTail(s: seq<int>)
    requires Sorted(s) && |s| > 0
    ensures Sorted(s[1..])
  {
    forall i, j | 0 <= i < j < |s| - 1 ensures s[1..][i] <= s[1..][j] {
      assert s[1..][i] == s[i + 1] && s[1..][j] == s[j + 1];
    }
  }
}
