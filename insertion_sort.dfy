/**
 * `insertion_sort`: sorts a list of integers in place. Each pass takes the
 * next element as the key, shifts the larger elements of the sorted prefix
 * one slot to the right, and drops the key into the gap.
 */
module InsertionSort {
  import opened Order

  /**
   * The array ends sorted and holds the same elements as before. The outer
   * loop keeps the prefix a[..i] sorted and a permutation of the original
   * prefix, with everything from i on untouched.
   */
  method InsertionSort(a: array<int>)
    modifies a
    ensures Sorted(a[..])
    ensures multiset(a[..]) == old(multiset(a[..]))
  {
    ghost var orig := a[..];
    var i := 1;
    while i < a.Length
      invariant 1 <= i
      invariant a.Length > 0 ==> i <= a.Length && Sorted(a[..i])
      invariant a.Length > 0 ==> multiset(a[..i]) == multiset(orig[..i])
      invariant a.Length > 0 ==> a[i..] == orig[i..]
    {
      ghost var before := a[..];
      InsertAt(a, i);
      PassKeepsPermutation(orig, before, a[..], i);
      i := i + 1;
    }
    if a.Length > 0 {
      assert a[..] == a[..a.Length] && orig == orig[..a.Length];
    }
  }

  /**
   * Bookkeeping of one outer pass: if a[..i] was a permutation of the
   * original prefix and a[i..] was untouched, and the pass permutes a[..i+1]
   * and keeps a[i+1..], then a[..i+1] is a permutation of the original
   * prefix one longer and a[i+1..] is still untouched.
   */
  lemma PassKeepsPermutation(orig: seq<int>, before: seq<int>, after: seq<int>, i: int)
    requires 0 <= i < |orig| == |before| == |after|
    requires multiset(before[..i]) == multiset(orig[..i]) && before[i..] == orig[i..]
    requires multiset(after[..i + 1]) == multiset(before[..i + 1]) && after[i + 1..] == before[i + 1..]
    ensures multiset(after[..i + 1]) == multiset(orig[..i + 1]) && after[i + 1..] == orig[i + 1..]
  {
    assert before[i] == before[i..][0] == orig[i..][0] == orig[i];
    assert before[..i + 1] == before[..i] + [before[i]];
    assert orig[..i + 1] == orig[..i] + [orig[i]];
    assert before[i + 1..] == before[i..][1..] && orig[i + 1..] == orig[i..][1..];
  }

  /**
   * One pass of the outer loop: the key a[i] is inserted into the sorted
   * prefix a[..i] by shifting the larger elements one slot right. Afterwards
   * a[..i+1] is sorted and a permutation of what it held, and the rest of
   * the array is untouched.
   */
  method InsertAt(a: array<int>, i: int)
    requires 0 <= i < a.Length
    requires Sorted(a[..i])
    modifies a
    ensures Sorted(a[..i + 1])
    ensures multiset(a[..i + 1]) == old(multiset(a[..i + 1]))
    ensures a[i + 1..] == old(a[i + 1..])
  {
    ghost var start := a[..];
    var key := a[i];
    var j := i - 1;
    while j >= 0 && a[j] > key
      invariant -1 <= j < i
      invariant forall k {:trigger a[k]} :: 0 <= k <= j ==> a[k] == start[k]
      invariant forall k {:trigger a[k]} :: j + 2 <= k <= i ==> a[k] == start[k - 1] && a[k] > key
      invariant forall k {:trigger a[k]} :: i < k < a.Length ==> a[k] == start[k]
      decreases j
    {
      a[j + 1] := a[j];
      j := j - 1;
    }
    ghost var shifted := a[..];
    a[j + 1] := key;
    ShiftedInsert(start, shifted, i, j, key);
  }

  /**
   * The state a pass leaves: `shifted` is the array after the inner loop
   * stopped at `j`, and the key is written to slot j+1. Then a[..i+1] is
   * sorted and a permutation of what it held before the pass, and a[i+1..]
   * is unchanged.
   */
  lemma ShiftedInsert(start: seq<int>, shifted: seq<int>, i: int, j: int, key: int)
    requires 0 <= i < |start| == |shifted| && -1 <= j < i
    requires Sorted(start[..i]) && key == start[i]
    requires j >= 0 ==> shifted[j] <= key
    requires forall k :: 0 <= k <= j ==> shifted[k] == start[k]
    requires forall k :: j + 2 <= k <= i ==> shifted[k] == start[k - 1] && shifted[k] > key
    requires forall k :: i < k < |shifted| ==> shifted[k] == start[k]
    ensures Sorted(shifted[j + 1 := key][..i + 1])
    ensures multiset(shifted[j + 1 := key][..i + 1]) == multiset(start[..i + 1])
    ensures shifted[j + 1 := key][i + 1..] == start[i + 1..]
  {
    var after := shifted[j + 1 := key];
    var s, prefix := after[..i + 1], start[..i];
    assert forall k :: 0 <= k <= j ==> s[k] == prefix[k];
    assert forall k :: j + 2 <= k < |s| ==> s[k] == prefix[k - 1] && s[k] > key;
    InsertedSorted(s, prefix, key, j);
    assert start[..i + 1] == prefix + [key];
    assert after[i + 1..] == start[i + 1..];
  }

  /**
   * The state after one pass: the sorted prefix with `key` placed after
   * position `j`, where everything up to `j` is at most the key and
   * everything after it is larger. That list is sorted and holds the prefix
   * plus the key.
   */
  lemma InsertedSorted(s: seq<int>, prefix: seq<int>, key: int, j: int)
    requires |s| == |prefix| + 1 && -1 <= j < |prefix|
    requires Sorted(prefix)
    requires j >= 0 ==> prefix[j] <= key
    requires forall k :: 0 <= k <= j ==> s[k] == prefix[k]
    requires s[j + 1] == key
    requires forall k :: j + 2 <= k < |s| ==> s[k] == prefix[k - 1] && s[k] > key
    ensures Sorted(s)
    ensures multiset(s) == multiset(prefix) + multiset{key}
  {
    forall x | 0 <= x < |s| - 1 ensures s[x] <= s[x + 1] {
      if x + 1 <= j {
        assert s[x] == prefix[x] && s[x + 1] == prefix[x + 1];
      } else if x == j {
        assert s[x] == prefix[j];
      } else if x >= j + 2 {
        assert s[x] == prefix[x - 1] && s[x + 1] == prefix[x];
      }
    }
    ChainedIsSorted(s);
    InsertedMultiset(s, prefix, key, j);
  }

  /** Placing `key` after position `j` of `prefix` adds exactly the key to its elements. */
  lemma InsertedMultiset(s: seq<int>, prefix: seq<int>, key: int, j: int)
    requires |s| == |prefix| + 1 && -1 <= j < |prefix|
    requires forall k :: 0 <= k <= j ==> s[k] == prefix[k]
    requires s[j + 1] == key
    requires forall k :: j + 2 <= k < |s| ==> s[k] == prefix[k - 1]
    ensures multiset(s) == multiset(prefix) + multiset{key}
  {
    var lo, hi := prefix[..j + 1], prefix[j + 1..];
    assert s == lo + [key] + hi;
    assert prefix == lo + hi;
  }
}
