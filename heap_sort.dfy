/**
 * `heapify` and `heap_sort`: in-place heap sort on an array laid out as a
 * binary tree, where the children of index p are 2p+1 and 2p+2.
 *
 * The array methods are specified by `SiftDown`, a function on the array's
 * contents; what sifting down achieves is proved about that function.
 */
module HeapSort {
  import opened Order

  /**
   * The max-heap property within the first `n` slots, for every parent at
   * index `lo` or later except the parent `hole`.
   */
  ghost predicate HeapExcept(s: seq<int>, lo: int, n: int, hole: int)
    requires 0 <= n <= |s|
  {
    forall p, c :: 0 <= lo <= p < c < n && p != hole && (c == 2 * p + 1 || c == 2 * p + 2) ==> s[p] >= s[c]
  }

  /** Every parent at index `lo` or later dominates its children within the first `n` slots. */
  ghost predicate IsHeap(s: seq<int>, lo: int, n: int)
    requires 0 <= n <= |s|
  {
    HeapExcept(s, lo, n, -1)
  }

  /** The parent of `i`, when it is at index `lo` or later, dominates the children of `i`. */
  ghost predicate GrandparentBound(s: seq<int>, lo: int, n: int, i: int)
    requires 0 <= n <= |s|
  {
    0 < i && lo <= (i - 1) / 2 && (i - 1) / 2 < n ==>
      (2 * i + 1 < n ==> s[(i - 1) / 2] >= s[2 * i + 1]) &&
      (2 * i + 2 < n ==> s[(i - 1) / 2] >= s[2 * i + 2])
  }

  /** `s` with the elements at `i` and `j` exchanged. */
  function Swap(s: seq<int>, i: int, j: int): (t: seq<int>)
    requires 0 <= i < |s| && 0 <= j < |s|
    ensures |t| == |s| && t[i] == s[j] && t[j] == s[i]
    ensures forall k :: 0 <= k < |s| && k != i && k != j ==> t[k] == s[k]
    ensures multiset(t) == multiset(s)
  {
    s[i := s[j]][j := s[i]]
  }

  /** Index of the largest of `i` and its children below `n`; `i` wins ties, then the left child. */
  function Largest(s: seq<int>, n: int, i: int): (m: int)
    requires 0 <= i && n <= |s|
    ensures m == i || (m < n && (m == 2 * i + 1 || m == 2 * i + 2))
    ensures m != i ==> s[m] > s[i]
    ensures (2 * i + 1 < n ==> s[m] >= s[2 * i + 1]) && (2 * i + 2 < n ==> s[m] >= s[2 * i + 2])
    ensures m == 2 * i + 2 ==> s[m] > s[2 * i + 1]
  {
    var l, r := 2 * i + 1, 2 * i + 2;
    var m := if l < n && s[l] > s[i] then l else i;
    if r < n && s[r] > s[m] then r else m
  }

  /**
   * What `heapify(arr, n, i)` does to the contents: move the value at `i`
   * down, swapping it with its larger child while that child is larger.
   * It permutes the list and changes nothing outside [i, n).
   */
  function SiftDown(s: seq<int>, n: int, i: int): (r: seq<int>)
    requires 0 <= i && 0 <= n <= |s|
    ensures |r| == |s| && multiset(r) == multiset(s)
    ensures forall k :: 0 <= k < |s| && !(i <= k < n) ==> r[k] == s[k]
    decreases n - i
  {
    var m := Largest(s, n, i);
    if m == i then s else SiftDown(Swap(s, i, m), n, m)
  }

  /** Swapping a hole with its larger, larger-than-the-hole child moves the hole down to that child. */
  lemma SiftStep(s: seq<int>, lo: int, n: int, i: int)
    requires 0 <= lo <= i && 0 <= n <= |s|
    requires HeapExcept(s, lo, n, i) && GrandparentBound(s, lo, n, i)
    requires Largest(s, n, i) != i
    ensures HeapExcept(Swap(s, i, Largest(s, n, i)), lo, n, Largest(s, n, i))
    ensures GrandparentBound(Swap(s, i, Largest(s, n, i)), lo, n, Largest(s, n, i))
  {
    var c := Largest(s, n, i);
    var t := Swap(s, i, c);
    forall p, d | 0 <= lo <= p < d < n && p != c && (d == 2 * p + 1 || d == 2 * p + 2)
      ensures t[p] >= t[d]
    {
      HoleMovedDown(s, t, lo, n, i, c, p, d);
    }
  }

  /** The single parent-child pair `p`, `d` after the swap of `i` with its child `c`. */
  lemma HoleMovedDown(s: seq<int>, t: seq<int>, lo: int, n: int, i: int, c: int, p: int, d: int)
    requires 0 <= lo <= i && 0 <= n <= |s|
    requires HeapExcept(s, lo, n, i) && GrandparentBound(s, lo, n, i)
    requires c == Largest(s, n, i) && c != i
    requires t == Swap(s, i, c)
    requires lo <= p < d < n && p != c && (d == 2 * p + 1 || d == 2 * p + 2)
    ensures t[p] >= t[d]
  {
    if p == i {
      assert t[p] == s[c];
      if d != c {
        assert t[d] == s[d];
      }
    } else if d == i {
      assert p == (i - 1) / 2;
      assert t[p] == s[p] && t[d] == s[c];
    } else {
      assert t[p] == s[p] && t[d] == s[d];
      assert s[p] >= s[d];
    }
  }

  /**
   * `heapify` establishes the max-heap property: if every parent from `lo`
   * on except `i` dominates its children (for `lo == i`: the subtrees of
   * `i`'s children are max-heaps), then afterwards the whole region from
   * `lo` is a max-heap.
   */
  lemma {:induction false} SiftDownHeap(s: seq<int>, lo: int, n: int, i: int)
    requires 0 <= lo <= i && 0 <= n <= |s|
    requires HeapExcept(s, lo, n, i) && GrandparentBound(s, lo, n, i)
    ensures IsHeap(SiftDown(s, n, i), lo, n)
    decreases n - i
  {
    var m := Largest(s, n, i);
    if m != i {
      SiftStep(s, lo, n, i);
      SiftDownHeap(Swap(s, i, m), lo, n, m);
    }
  }

  /** `heapify(arr, n, i)`: sifts down in place; the new contents are `SiftDown` of the old. */
  method Heapify(a: array<int>, n: int, i: int)
    requires 0 <= i && 0 <= n <= a.Length
    modifies a
    ensures a[..] == SiftDown(old(a[..]), n, i)
    decreases n - i
  {
    ghost var s := a[..];
    var largest := i;
    var l := 2 * i + 1;
    var r := 2 * i + 2;
    if l < n && a[l] > a[largest] {
      largest := l;
    }
    if r < n && a[r] > a[largest] {
      largest := r;
    }
    assert largest == Largest(s, n, i);
    if largest != i {
      a[i], a[largest] := a[largest], a[i];
      assert a[..] == Swap(s, i, largest);
      Heapify(a, n, largest);
    }
  }

  /** In a max-heap the root is the largest element. */
  lemma {:induction false} HeapRootIsMax(s: seq<int>, n: int, k: int)
    requires 0 <= k < n <= |s|
    requires IsHeap(s, 0, n)
    ensures s[0] >= s[k]
    decreases k
  {
    if k > 0 {
      var p := (k - 1) / 2;
      assert k == 2 * p + 1 || k == 2 * p + 2;
      HeapRootIsMax(s, n, p);
    }
  }

  /**
   * The state between extraction steps of `heap_sort`: s[..end+1] is a
   * max-heap, s[end+1..] is sorted, and no element of the heap exceeds the
   * first element of the sorted suffix.
   */
  ghost predicate HeapThenSortedMaxima(s: seq<int>, end: int)
    requires -1 <= end < |s|
  {
    (end >= 0 ==> IsHeap(s, 0, end + 1)) &&
    Sorted(s[end + 1..]) &&
    BelowSuffix(s, end + 1)
  }

  /**
   * One extraction step: swapping the root to `end` and sifting the new
   * root down within s[..end] grows the sorted suffix of maxima by one and
   * leaves a max-heap in front of it.
   */
  lemma ExtractStep(s: seq<int>, end: int)
    requires 0 < end < |s|
    requires HeapThenSortedMaxima(s, end)
    ensures HeapThenSortedMaxima(SiftDown(Swap(s, 0, end), end, 0), end - 1)
  {
    var swapped := Swap(s, 0, end);
    RootToEnd(s, end);
    SiftDownHeap(swapped, 0, end, 0);
    SiftKeepsMaxima(swapped, end);
  }

  /** Every element before `m` is at most s[m], when there is one. */
  ghost predicate BelowSuffix(s: seq<int>, m: int)
    requires 0 <= m
  {
    m < |s| ==> forall x :: 0 <= x < m ==> s[x] <= s[m]
  }

  /** Swapping the root of the heap s[..end+1] to `end` extends the sorted maxima to start at `end`. */
  lemma RootToEnd(s: seq<int>, end: int)
    requires 0 < end < |s|
    requires HeapThenSortedMaxima(s, end)
    ensures HeapExcept(Swap(s, 0, end), 0, end, 0)
    ensures Sorted(Swap(s, 0, end)[end..])
    ensures BelowSuffix(Swap(s, 0, end), end)
  {
    forall k | 0 <= k <= end ensures s[0] >= s[k] {
      HeapRootIsMax(s, end + 1, k);
    }
    var t := Swap(s, 0, end);
    forall x, y | end <= x < y < |t| ensures t[x] <= t[y] {
      if x == end {
        assert s[end + 1..][0] <= s[end + 1..][y - end - 1];
      } else {
        assert s[end + 1..][x - end - 1] <= s[end + 1..][y - end - 1];
      }
    }
    forall i, j | 0 <= i < j < |t| - end ensures t[end..][i] <= t[end..][j] {
      assert t[end..][i] == t[end + i] && t[end..][j] == t[end + j];
    }
  }

  /** Sifting down within s[..m] keeps s[m..] as it is and keeps s[..m] below it. */
  lemma SiftKeepsMaxima(s: seq<int>, m: int)
    requires 0 < m <= |s|
    requires Sorted(s[m..]) && BelowSuffix(s, m)
    ensures Sorted(SiftDown(s, m, 0)[m..]) && BelowSuffix(SiftDown(s, m, 0), m)
  {
    var t := SiftDown(s, m, 0);
    SiftDownSplit(s, m);
    if m < |s| {
      PermutedBelow(s[..m], t[..m], s[m]);
      assert forall x :: 0 <= x < m ==> t[x] == t[..m][x];
    }
  }

  /** Sifting down within s[..m] leaves s[m..] alone and permutes s[..m]. */
  lemma SiftDownSplit(s: seq<int>, m: int)
    requires 0 <= m <= |s|
    ensures SiftDown(s, m, 0)[m..] == s[m..]
    ensures multiset(SiftDown(s, m, 0)[..m]) == multiset(s[..m])
  {
    var t := SiftDown(s, m, 0);
    assert t[m..] == s[m..];
    SuffixFixedPrefixPermuted(t, s, m);
  }

  /** Rearranging a list whose elements are all at most `v` keeps them all at most `v`. */
  lemma PermutedBelow(p: seq<int>, q: seq<int>, v: int)
    requires forall i :: 0 <= i < |p| ==> p[i] <= v
    requires multiset(q) == multiset(p)
    ensures forall i :: 0 <= i < |q| ==> q[i] <= v
  {
    forall i | 0 <= i < |q| ensures q[i] <= v {
      assert q[i] in multiset(p);
    }
  }

  /** Two permutations of each other that agree from `m` on also agree, as multisets, before `m`. */
  lemma SuffixFixedPrefixPermuted(s: seq<int>, t: seq<int>, m: int)
    requires 0 <= m <= |s| == |t|
    requires multiset(s) == multiset(t)
    requires s[m..] == t[m..]
    ensures multiset(s[..m]) == multiset(t[..m])
  {
    assert s == s[..m] + s[m..];
    assert t == t[..m] + t[m..];
    assert multiset(s[..m]) == multiset(s) - multiset(s[m..]);
    assert multiset(t[..m]) == multiset(t) - multiset(t[m..]);
  }

  /** One step of the build loop: sifting down at `i` extends the heap region from `i + 1` to `i`. */
  lemma BuildStep(s: seq<int>, i: int, n: int)
    requires 0 <= i < n <= |s|
    requires IsHeap(s, i + 1, n)
    ensures IsHeap(SiftDown(s, n, i), i, n)
  {
    SiftDownHeap(s, i, n, i);
  }

  /** A max-heap over the whole list is the starting state of the extraction loop. */
  lemma ExtractStart(s: seq<int>)
    requires IsHeap(s, 0, |s|)
    ensures HeapThenSortedMaxima(s, |s| - 1)
  {
  }

  /** When the heap is down to its root, or the list is empty, the whole list is sorted. */
  lemma ExtractEnd(s: seq<int>, end: int)
    requires -1 <= end <= 0 && end < |s|
    requires HeapThenSortedMaxima(s, end)
    ensures Sorted(s)
  {
    if end == 0 {
      forall x, y | 0 <= x < y < |s| ensures s[x] <= s[y] {
        if x > 0 {
          assert s[1..][x - 1] <= s[1..][y - 1];
        } else if y > 1 {
          assert s[1..][0] <= s[1..][y - 1];
        }
      }
    } else {
      assert s[end + 1..] == s;
    }
  }

  /**
   * One pass of the extraction loop: swap the root to `end`, then sift the
   * new root down within a[..end]. The new contents are `SiftDown` of the
   * swapped ones, so the sorted suffix of maxima grows by one.
   */
  method ExtractMax(a: array<int>, end: int)
    requires 0 < end < a.Length
    requires HeapThenSortedMaxima(a[..], end)
    modifies a
    ensures a[..] == SiftDown(Swap(old(a[..]), 0, end), end, 0)
    ensures HeapThenSortedMaxima(a[..], end - 1)
    ensures multiset(a[..]) == old(multiset(a[..]))
  {
    ghost var before := a[..];
    a[0], a[end] := a[end], a[0];
    assert a[..] == Swap(before, 0, end);
    Heapify(a, end, 0);
    ExtractStep(before, end);
  }

  /**
   * `heap_sort`: build a max-heap bottom-up, then repeatedly swap the root
   * to the end of the heap and sift the new root down. The array ends
   * sorted and holds the same elements as before.
   */
  method HeapSort(a: array<int>)
    modifies a
    ensures Sorted(a[..])
    ensures multiset(a[..]) == old(multiset(a[..]))
  {
    var n := a.Length;
    var i := n / 2;
    while i > 0
      invariant 0 <= i <= n / 2
      invariant IsHeap(a[..], i, n)
      invariant multiset(a[..]) == old(multiset(a[..]))
    {
      i := i - 1;
      ghost var before := a[..];
      Heapify(a, n, i);
      BuildStep(before, i, n);
    }
    assert i == 0 && IsHeap(a[..], 0, n);
    ExtractStart(a[..]);
    var end := n - 1;
    while end > 0
      invariant -1 <= end < n
      invariant HeapThenSortedMaxima(a[..], end)
      invariant multiset(a[..]) == old(multiset(a[..]))
    {
      ExtractMax(a, end);
      end := end - 1;
    }
    ExtractEnd(a[..], end);
  }
}
