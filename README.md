# Verified model of the sorting library

The repository's sorting-analysis scripts, `Untitled-1.py` and `sorting_analysis.py`, hold the same
small library of comparison sorts over lists of integers. The scripts use them to time the sorts and
to assert that each output is sorted. This project models that library in Dafny:

- `insertion_sort`: shifts the larger elements of the sorted prefix right and drops the key in. It works in place on an array.
- `merge`: a loop that appends the smaller head, the left one on ties. `merge_sort` is the top-down recursion built on it.
- `heapify` and `heap_sort`: sift a value down to restore a max-heap, build the heap bottom-up, then repeatedly swap the root to the end. Both work in place.
- `quick_sort`: the list-building three-way quicksort on the middle element.
- `is_sorted`: the check the scripts assert on every output.

The two script files share the seven sorting functions (`insertion_sort`, `merge_sort`, `merge`, `heapify`,
`heap_sort`, `quick_sort`, `is_sorted`) and the experiment loops, which are textually identical. In
`sorting_analysis.py` they sit 8 lines earlier: its lines 15-76 and 100-101 correspond to lines 23-84 and
108-109 of `Untitled-1.py`. The files differ elsewhere. `sorting_analysis.py` imports neither `math` nor
`sys`, has no PDF report, and ends by saving and showing the plot. The table cites `Untitled-1.py` only;
every row holds equally for the shared functions in the other file.

Modules, one per routine:

- `Order` (order.dfy): the meaning of "sorted", `is_sorted`, and the uniqueness of a sorted permutation.
- `InsertionSort` (insertion_sort.dfy): an array method with nested loops and their invariants.
- `MergeSort` (merge_sort.dfy): the reference function `Merged`, the looping method `Merge` proved equal to it, and the function `MergeSort`.
- `HeapSort` (heap_sort.dfy): the function `SiftDown` specifies `heapify`, with the heap lemmas proved about it, plus the in-place methods `Heapify` and `HeapSort`.
- `QuickSort` (quick_sort.dfy): the partition function `Select` and the function `QuickSort`.
- `Agreement` (agreement.dfy): all the sorts compute the same list.

Merging compares elements by an integer key, so stability can be stated. The source compares the
integers themselves; that is the instance whose key is `Order.Identity`.

The whole project verifies with

    dafny verify --resource-limit 2000000 --verification-time-limit 0 agreement.dfy heap_sort.dfy insertion_sort.dfy merge_sort.dfy order.dfy quick_sort.dfy

with or without `--warn-contradictory-assumptions`.

## Model

| member | source | states |
|---|---|---|
| Order.IsSorted | Untitled-1.py:108-109 | `is_sorted` (every adjacent pair in order) is true exactly when the list is sorted in the all-pairs sense |
| Order.ChainedIsSorted | Untitled-1.py:108-109 | adjacent pairs in order imply every earlier element is at most every later one |
| Order.SortedPermutationUnique | Untitled-1.py:135-142 | two sorted lists with the same elements (with multiplicity) are equal, so an output that passes the scripts' `is_sorted` check and keeps the input's elements is the only possible one |
| InsertionSort.InsertionSort | Untitled-1.py:23-32 | in place, the array ends sorted and a permutation of its old contents; loop invariant: the prefix before `i` is sorted and a permutation of the original prefix, and the rest is untouched |
| InsertionSort.PassKeepsPermutation | Untitled-1.py:25-31 | one outer pass keeps the loop invariant: the prefix before `i+1` is a permutation of the original prefix, and everything after it is untouched |
| InsertionSort.InsertAt | Untitled-1.py:26-31 | in place, one pass of the outer loop: with `a[..i]` sorted, afterwards `a[..i+1]` is sorted and a permutation of what it held, and every slot after `i` is unchanged |
| InsertionSort.ShiftedInsert | Untitled-1.py:28-31 | when the shift loop stops at `j` and the key is written to `a[j+1]`, `a[..i+1]` is sorted and a permutation of what it held, and `a[i+1..]` is unchanged |
| InsertionSort.InsertedSorted | Untitled-1.py:28-31 | placing the key after the last prefix element not above it, ahead of the shifted larger ones, yields a sorted list of the prefix plus the key |
| InsertionSort.InsertedMultiset | Untitled-1.py:29-31 | shifting the elements after `j` right by one and writing the key at `j+1` yields the prefix's elements plus the key |
| MergeSort.Merge | Untitled-1.py:42-52 | the append loop returns exactly `Merged(left, right)`: it takes the smaller head, the left one on ties, then appends the rest of `left` and then of `right` |
| MergeSort.MergedPermutation | Untitled-1.py:42-52 | the merge has length `len(left)+len(right)` and its multiset is the union of both inputs' multisets |
| MergeSort.MergedSorted | Untitled-1.py:42-52 | merging two sorted lists gives a sorted list |
| MergeSort.MergedStable | Untitled-1.py:46-49 | for every key, the merge lists the left list's elements with that key first, then the right list's, each in its own order; only `left` needs to be sorted |
| MergeSort.MergeSort | Untitled-1.py:34-40 | `merge_sort` returns a sorted permutation of its input; a list of length at most one comes back equal to the input |
| MergeSort.MergeSortStable | Untitled-1.py:289 | merge sort is stable: for every key, the elements with that key come out in their input order |
| MergeSort.WithKeySplit | Untitled-1.py:37-39 | picking the elements with a given key commutes with cutting the list at `mid` into the two halves that are sorted recursively |
| HeapSort.Largest | Untitled-1.py:55-61 | the chosen index is `i` or a child below `n`; it is at least both children; it moves off `i` only to a strictly larger child, and to the right child only when that is strictly larger than the left one, so ties go to `i`, then to the left child |
| HeapSort.SiftDown | Untitled-1.py:54-64 | `heapify` permutes the list and changes no index outside `[i, n)` |
| HeapSort.Heapify | Untitled-1.py:54-64 | in place, the array's new contents are `SiftDown` of the old ones |
| HeapSort.SiftStep | Untitled-1.py:62-64 | swapping `i` with its larger, strictly larger child moves the single heap violation down to that child |
| HeapSort.HoleMovedDown | Untitled-1.py:62-64 | after swapping `i` with its larger, strictly larger child `c`, every parent-child pair except those of `c` is in heap order |
| HeapSort.SiftDownHeap | Untitled-1.py:54-64 | if every parent from `lo` on except `i` dominates its children, and `i`'s parent (when it is at `lo` or later) dominates `i`'s children, then after `heapify` every parent from `lo` on dominates its children. This is the premise that holds at both call sites, lines 70 and 73 |
| HeapSort.HeapRootIsMax | Untitled-1.py:71-72 | the root of a max-heap is its largest element, so the swap at line 72 moves the maximum |
| HeapSort.BuildStep | Untitled-1.py:69-70 | each step of the build loop turns the max-heap on the parents from `i+1` on into one on the parents from `i` on |
| HeapSort.RootToEnd | Untitled-1.py:72 | swapping the root to `end` extends the sorted suffix of maxima to start at `end` |
| HeapSort.SiftKeepsMaxima | Untitled-1.py:73 | sifting within `a[..end]` keeps the suffix sorted and every element before it at most the suffix's first element |
| HeapSort.SiftDownSplit | Untitled-1.py:73 | `heapify(a, end, 0)` leaves `a[end..]` unchanged and rearranges only `a[..end]` |
| HeapSort.ExtractStep | Untitled-1.py:71-73 | after each swap and sift-down, `a[..end]` is a max-heap and `a[end..]` holds the largest elements in ascending order |
| HeapSort.ExtractMax | Untitled-1.py:72-73 | in place, one pass of the extraction loop leaves `SiftDown` of the swapped contents, keeps the elements, and grows the sorted suffix of maxima by one |
| HeapSort.ExtractEnd | Untitled-1.py:71-74 | when the extraction loop stops, with the heap down to its root or the list empty, the whole list is sorted |
| HeapSort.HeapSort | Untitled-1.py:66-74 | in place, the array ends sorted and a permutation of its old contents; after the build loop `a[0..n)` is a max-heap |
| QuickSort.Select | Untitled-1.py:81-83 | each comprehension keeps exactly the elements below, equal to, or above the pivot, each as often as in the input |
| QuickSort.ThreeWayPartition | Untitled-1.py:80-84 | the three parts together are exactly the input; the outer two are strictly shorter because the pivot lands in `mid` |
| QuickSort.AllInPart | Untitled-1.py:84 | a permutation of one part still lies wholly in that part |
| QuickSort.QuickSort | Untitled-1.py:76-84 | `quick_sort` returns a sorted permutation of its input; a list of length at most one comes back equal to the input |
| Agreement.SortsAgree | Untitled-1.py:97-102 | every sorted permutation of a list equals both `quick_sort` and `merge_sort` of it, so the four routines produce the same list |

## Left out

- Timing with `perf_counter` and averaging with `statistics.mean` (Untitled-1.py:111-144): wall-clock and floating-point values, not behaviour.
- Random dataset generation and the seed (Untitled-1.py:88-95, 118, 132): they only produce test inputs. The model quantifies over all inputs instead.
- Plotting with matplotlib, the PDF report built with ReportLab, `make_table_text`, the text layout helpers and all printing (Untitled-1.py:147-314, sorting_analysis.py:138-154): presentation and file output.
- Copies: for lists of length at most one, `merge_sort` and `quick_sort` return `arr[:]`, a new list equal to the input. Model lists are values, so a copy and the original cannot be told apart, and `MergeSort.MergeSort` and `QuickSort.QuickSort` state equality only.
- Return values of `insertion_sort` and `heap_sort`: they return the very list they sorted. The model keeps the in-place update on the array and does not model the returned alias.
- HeapSort.SiftDownHeap: states the heap property `heapify` restores over a region of parents (every parent from `lo` on), not the subtree-local promise. The subtree-local promise reads: if the subtrees of `i`'s children are max-heaps, then the subtree at `i` is a max-heap afterwards. The region form asks that parents from `lo` on that are not descendants of `i` be in heap order too. Both call sites in `heap_sort` meet that premise, so the heap sort proof does not depend on the difference. A call on an arbitrary list whose other subtrees are out of order is covered only by `SiftDown`'s permutation and frame ensures.
- Recursion depth: `quick_sort` (Untitled-1.py:76-84) recurses once per level, and on an input whose middle element is always the minimum or the maximum of what is left, its depth is linear in the length. CPython's default recursion limit is 1000 frames, and the scripts never raise it, so such an input of about a thousand elements raises `RecursionError` instead of returning. `QuickSort.QuickSort` has no depth bound and promises a sorted permutation for every input. `merge_sort` and `heapify` recurse only to logarithmic depth.
- Integer width: Python integers are unbounded, so `int` needs no wrap-around.
- Course, attendance and roster management: the repository describes these, but none of their code is part of this model. Neither script file contains any of it.
