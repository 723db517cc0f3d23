/**
 * `quick_sort`: the list-building three-way quicksort. The pivot is the
 * middle element; the input is split into the elements below, equal to and
 * above it, the outer two parts are sorted recursively, and the three are
 * concatenated.
 */
module QuickSort {
  import opened Order

  /** Which of the three parts an element goes to. */
  datatype Part = Below | Equal | Above

  predicate InPart(part: Part, x: int, pivot: int)
  {
    match part
    case Below => x < pivot
    case Equal => x == pivot
    case Above => x > pivot
  }

  /**
   * One of the three list comprehensions: the elements of `s` that fall in
   * `part`, in order. Each value occurs in the result exactly as often as
   * in `s` if it belongs to the part, and not at all otherwise.
   */
  function Select(s: seq<int>, pivot: int, part: Part): (r: seq<int>)
    ensures forall x :: multiset(r)[x] == if InPart(part, x, pivot) then multiset(s)[x] else 0
  {
    if |s| == 0 then []
    else
      assert s == [s[0]] + s[1..];
      (if InPart(part, s[0], pivot) then [s[0]] else []) + Select(s[1..], pivot, part)
  }

  /**
   * The three parts together are exactly the input, and because the pivot
   * is taken from the input, the parts below and above are both strictly
   * shorter than it.
   */
  lemma ThreeWayPartition(s: seq<int>, pivot: int)
    requires pivot in s
    ensures multiset(Select(s, pivot, Below)) + multiset(Select(s, pivot, Equal))
            + multiset(Select(s, pivot, Above)) == multiset(s)
    ensures |Select(s, pivot, Below)| < |s| && |Select(s, pivot, Above)| < |s|
  {
    var lo, eq, hi := Select(s, pivot, Below), Select(s, pivot, Equal), Select(s, pivot, Above);
    var total := multiset(lo) + multiset(eq) + multiset(hi);
    forall x ensures total[x] == multiset(s)[x] {
      assert multiset(lo)[x] == if x < pivot then multiset(s)[x] else 0;
      assert multiset(eq)[x] == if x == pivot then multiset(s)[x] else 0;
      assert multiset(hi)[x] == if x > pivot then multiset(s)[x] else 0;
    }
    assert total == multiset(s);
    assert multiset(eq)[pivot] == multiset(s)[pivot] > 0;
    assert |multiset(lo)| + |multiset(eq)| + |multiset(hi)| == |multiset(s)|;
  }

  /** Everything below the pivot, then the pivot's copies, then everything above: sorted. */
  lemma SortedAroundPivot(lo: seq<int>, eq: seq<int>, hi: seq<int>, pivot: int)
    requires Sorted(lo) && Sorted(hi)
    requires forall i :: 0 <= i < |lo| ==> lo[i] < pivot
    requires forall i :: 0 <= i < |eq| ==> eq[i] == pivot
    requires forall i :: 0 <= i < |hi| ==> hi[i] > pivot
    ensures Sorted(lo + eq + hi)
  {
  }

  /** Every element of `t` lies in `part` when `t` has the same elements as that part of `s`. */
  lemma AllInPart(t: seq<int>, s: seq<int>, pivot: int, part: Part)
    requires multiset(t) == multiset(Select(s, pivot, part))
    ensures forall i :: 0 <= i < |t| ==> InPart(part, t[i], pivot)
  {
    forall i | 0 <= i < |t| ensures InPart(part, t[i], pivot) {
      assert multiset(t)[t[i]] > 0;
    }
  }

  /**
   * `quick_sort`: the result is sorted and a permutation of the input; a
   * list of length at most one comes back equal to the input.
   */
  function QuickSort(s: seq<int>): (r: seq<int>)
    ensures Sorted(r)
    ensures multiset(r) == multiset(s)
    ensures |s| <= 1 ==> r == s
    decreases |s|
  {
    if |s| <= 1 then s
    else
      var pivot := s[|s| / 2];
      var lo := Select(s, pivot, Below);
      var eq := Select(s, pivot, Equal);
      var hi := Select(s, pivot, Above);
      ThreeWayPartition(s, pivot);
      var sortedLo := QuickSort(lo);
      var sortedHi := QuickSort(hi);
      AllInPart(sortedLo, s, pivot, Below);
      AllInPart(eq, s, pivot, Equal);
      AllInPart(sortedHi, s, pivot, Above);
      SortedAroundPivot(sortedLo, eq, sortedHi, pivot);
      sortedLo + eq + sortedHi
  }
}
