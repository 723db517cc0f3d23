/**
 * `merge` and `merge_sort`. The routines compare elements with `<=`; here
 * they compare an integer key of each element, so that the order in which
 * equal keys come out can be stated. A list of integers is the instance
 * whose key is `Identity`.
 */
module MergeSort {
  import opened Order

  /**
   * Reference definition of merging: repeatedly take the smaller head,
   * the left one on a tie, and append what remains once a side runs out.
   */
  function Merged<T>(left: seq<T>, right: seq<T>, key: T -> int): seq<T>
    decreases |left| + |right|
  {
    if |left| == 0 then right
    else if |right| == 0 then left
    else if key(left[0]) <= key(right[0]) then [left[0]] + Merged(left[1..], right, key)
    else [right[0]] + Merged(left, right[1..], key)
  }

  /** One step of the merge loop at positions `i` and `j`: the smaller head, then the merge of the rest. */
  lemma MergedAt<T>(left: seq<T>, right: seq<T>, key: T -> int, i: int, j: int)
    requires 0 <= i < |left| && 0 <= j < |right|
    ensures key(left[i]) <= key(right[j]) ==>
      Merged(left[i..], right[j..], key) == [left[i]] + Merged(left[i + 1..], right[j..], key)
    ensures key(left[i]) > key(right[j]) ==>
      Merged(left[i..], right[j..], key) == [right[j]] + Merged(left[i..], right[j + 1..], key)
  {
    assert left[i..][0] == left[i] && left[i..][1..] == left[i + 1..];
    assert right[j..][0] == right[j] && right[j..][1..] == right[j + 1..];
  }

  /** Once one side is used up, the merge is what remains of the left followed by what remains of the right. */
  lemma MergedRest<T>(left: seq<T>, right: seq<T>, key: T -> int, i: int, j: int)
    requires 0 <= i <= |left| && 0 <= j <= |right|
    requires i == |left| || j == |right|
    ensures Merged(left[i..], right[j..], key) == left[i..] + right[j..]
  {
    if i == |left| {
      assert left[i..] + right[j..] == right[j..];
    } else {
      assert left[i..] + right[j..] == left[i..];
    }
  }

  lemma AppendAssoc<T>(a: seq<T>, b: seq<T>, c: seq<T>)
    ensures (a + b) + c == a + (b + c)
  {
  }

  /** `merge`: the loop that builds the merged list by appending. */
  method Merge<T>(left: seq<T>, right: seq<T>, key: T -> int) returns (merged: seq<T>)
    ensures merged == Merged(left, right, key)
  {
    merged := [];
    var i, j := 0, 0;
    while i < |left| && j < |right|
      invariant 0 <= i <= |left| && 0 <= j <= |right|
      invariant merged + Merged(left[i..], right[j..], key) == Merged(left, right, key)
      decreases |left| - i + |right| - j
    {
      MergedAt(left, right, key, i, j);
      if key(left[i]) <= key(right[j]) {
        AppendAssoc(merged, [left[i]], Merged(left[i + 1..], right[j..], key));
        merged := merged + [left[i]];
        i := i + 1;
      } else {
        AppendAssoc(merged, [right[j]], Merged(left[i..], right[j + 1..], key));
        merged := merged + [right[j]];
        j := j + 1;
      }
    }
    MergedRest(left, right, key, i, j);
    AppendAssoc(merged, left[i..], right[j..]);
    merged := merged + left[i..];
    merged := merged + right[j..];
  }

  /** Merging neither loses nor invents elements. */
  lemma {:induction false} MergedPermutation<T>(left: seq<T>, right: seq<T>, key: T -> int)
    ensures |Merged(left, right, key)| == |left| + |right|
    ensures multiset(Merged(left, right, key)) == multiset(left) + multiset(right)
    decreases |left| + |right|
  {
    if |left| > 0 && |right| > 0 {
      if key(left[0]) <= key(right[0]) {
        MergedPermutation(left[1..], right, key);
        HeadMultiset(left);
      } else {
        MergedPermutation(left, right[1..], key);
        HeadMultiset(right);
      }
    }
  }

  lemma HeadMultiset<T>(s: seq<T>)
    requires |s| > 0
    ensures multiset(s) == multiset{s[0]} + multiset(s[1..])
  {
    assert s == [s[0]] + s[1..];
  }

  /** Cutting a list in two splits its multiset. */
  lemma SplitMultiset<T>(s: seq<T>, mid: int)
    requires 0 <= mid <= |s|
    ensures multiset(s[..mid]) + multiset(s[mid..]) == multiset(s)
  {
    assert s == s[..mid] + s[mid..];
  }

  /** Merging two sorted lists gives a sorted list. */
  lemma {:induction false} MergedSorted<T>(left: seq<T>, right: seq<T>, key: T -> int)
    requires SortedBy(left, key) && SortedBy(right, key)
    ensures SortedBy(Merged(left, right, key), key)
    decreases |left| + |right|
  {
    if |left| > 0 && |right| > 0 {
      if key(left[0]) <= key(right[0]) {
        SortedByTail(left, key);
        MergedSorted(left[1..], right, key);
        MergedPermutation(left[1..], right, key);
        HeadBelowRest(left[0], left[1..], right, Merged(left[1..], right, key), key);
      } else {
        SortedByTail(right, key);
        MergedSorted(left, right[1..], key);
        MergedPermutation(left, right[1..], key);
        HeadBelowRest(right[0], left, right[1..], Merged(left, right[1..], key), key);
      }
    }
  }

  lemma SortedByTail<T>(s: seq<T>, key: T -> int)
    requires |s| > 0 && SortedBy(s, key)
    ensures SortedBy(s[1..], key)
    ensures |s| > 1 ==> key(s[0]) <= key(s[1..][0])
  {
    forall i, j | 0 <= i < j < |s| - 1 ensures key(s[1..][i]) <= key(s[1..][j]) {
      assert s[1..][i] == s[i + 1] && s[1..][j] == s[j + 1];
    }
  }

  /**
   * Putting in front of a sorted merge of two sorted lists a head no larger
   * than either list's head keeps it sorted.
   */
  lemma HeadBelowRest<T>(x: T, left: seq<T>, right: seq<T>, rest: seq<T>, key: T -> int)
    requires SortedBy(left, key) && SortedBy(right, key) && SortedBy(rest, key)
    requires multiset(rest) == multiset(left) + multiset(right)
    requires |left| > 0 ==> key(x) <= key(left[0])
    requires |right| > 0 ==> key(x) <= key(right[0])
    ensures SortedBy([x] + rest, key)
  {
    forall k | 0 <= k < |rest| ensures key(x) <= key(rest[k]) {
      assert rest[k] in multiset(rest);
      if rest[k] in multiset(left) {
        var i :| 0 <= i < |left| && left[i] == rest[k];
        assert key(left[0]) <= key(left[i]);
      } else {
        var i :| 0 <= i < |right| && right[i] == rest[k];
        assert key(right[0]) <= key(right[i]);
      }
    }
    var s := [x] + rest;
    forall i, j | 0 <= i < j < |s| ensures key(s[i]) <= key(s[j]) {
      if i > 0 {
        assert s[i] == rest[i - 1] && s[j] == rest[j - 1];
      } else {
        assert s[j] == rest[j - 1];
      }
    }
  }

  /** The elements of `s` whose key is `k`, in their order in `s`. */
  function WithKey<T>(s: seq<T>, key: T -> int, k: int): seq<T>
  {
    if |s| == 0 then []
    else (if key(s[0]) == k then [s[0]] else []) + WithKey(s[1..], key, k)
  }

  lemma WithKeyCons<T>(x: T, rest: seq<T>, key: T -> int, k: int)
    ensures WithKey([x] + rest, key, k) == (if key(x) == k then [x] else []) + WithKey(rest, key, k)
  {
    assert ([x] + rest)[1..] == rest;
  }

  lemma {:induction false} WithKeyAppend<T>(a: seq<T>, b: seq<T>, key: T -> int, k: int)
    ensures WithKey(a + b, key, k) == WithKey(a, key, k) + WithKey(b, key, k)
    decreases |a|
  {
    if |a| == 0 {
      assert a + b == b;
    } else {
      assert a + b == [a[0]] + (a[1..] + b);
      WithKeyCons(a[0], a[1..] + b, key, k);
      WithKeyAppend(a[1..], b, key, k);
    }
  }

  /** A sorted list whose first key is above `k` has no element with key `k`. */
  lemma {:induction false} WithKeyAbove<T>(s: seq<T>, key: T -> int, k: int)
    requires SortedBy(s, key)
    requires |s| > 0 ==> key(s[0]) > k
    ensures WithKey(s, key, k) == []
    decreases |s|
  {
    if |s| > 0 {
      SortedByTail(s, key);
      WithKeyAbove(s[1..], key, k);
    }
  }

  /**
   * Stability of `merge`: among elements with equal keys, those from the
   * left list come first, each side in its own order. Only the left list
   * needs to be sorted for this.
   */
  lemma {:induction false} MergedStable<T>(left: seq<T>, right: seq<T>, key: T -> int, k: int)
    requires SortedBy(left, key)
    ensures WithKey(Merged(left, right, key), key, k) == WithKey(left, key, k) + WithKey(right, key, k)
    decreases |left| + |right|
  {
    if |left| > 0 && |right| > 0 {
      if key(left[0]) <= key(right[0]) {
        var h := if key(left[0]) == k then [left[0]] else [];
        SortedByTail(left, key);
        MergedStable(left[1..], right, key, k);
        WithKeyCons(left[0], Merged(left[1..], right, key), key, k);
        AppendAssoc(h, WithKey(left[1..], key, k), WithKey(right, key, k));
      } else {
        MergedStable(left, right[1..], key, k);
        WithKeyCons(right[0], Merged(left, right[1..], key), key, k);
        if key(right[0]) == k {
          WithKeyAbove(left, key, k);
        }
      }
    }
  }

  /**
   * `merge_sort`: split at the middle, sort both halves, merge. The result
   * is sorted and a permutation of the input; a list of length at most one
   * comes back equal to the input.
   */
  function MergeSort<T(==)>(s: seq<T>, key: T -> int): (r: seq<T>)
    ensures SortedBy(r, key)
    ensures multiset(r) == multiset(s)
    ensures |s| <= 1 ==> r == s
    decreases |s|
  {
    if |s| <= 1 then s
    else
      var mid := |s| / 2;
      var left := MergeSort(s[..mid], key);
      var right := MergeSort(s[mid..], key);
      MergedSorted(left, right, key);
      MergedPermutation(left, right, key);
      SplitMultiset(s, mid);
      Merged(left, right, key)
  }

  /** Merge sort is stable: for every key, the elements with that key keep their input order. */
  lemma {:induction false} MergeSortStable<T>(s: seq<T>, key: T -> int, k: int)
    ensures WithKey(MergeSort(s, key), key, k) == WithKey(s, key, k)
    decreases |s|
  {
    if |s| > 1 {
      var lo, hi := s[..|s| / 2], s[|s| / 2..];
      MergeSortStable(lo, key, k);
      MergeSortStable(hi, key, k);
      MergedStable(MergeSort(lo, key), MergeSort(hi, key), key, k);
      WithKeySplit(s, |s| / 2, key, k);
    }
  }

  /** Picking the elements with key `k` commutes with cutting the list at `mid`. */
  lemma WithKeySplit<T>(s: seq<T>, mid: int, key: T -> int, k: int)
    requires 0 <= mid <= |s|
    ensures WithKey(s[..mid], key, k) + WithKey(s[mid..], key, k) == WithKey(s, key, k)
  {
    assert s == s[..mid] + s[mid..];
    WithKeyAppend(s[..mid], s[mid..], key, k);
  }
}
