/**
 * The four routines are interchangeable: every list that is sorted and a
 * permutation of the input is the one `quick_sort` and `merge_sort` return,
 * so the in-place sorts leave the array holding that same list.
 */
module Agreement {
  import opened Order
  import MergeSort
  import QuickSort

  lemma SortsAgree(s: seq<int>, r: seq<int>)
    requires Sorted(r) && multiset(r) == multiset(s)
    ensures r == QuickSort.QuickSort(s)
    ensures r == MergeSort.MergeSort(s, Identity)
  {
    SortedPermutationUnique(r, QuickSort.QuickSort(s));
    SortedByIdentity(MergeSort.MergeSort(s, Identity));
    SortedPermutationUnique(r, MergeSort.MergeSort(s, Identity));
  }
}
