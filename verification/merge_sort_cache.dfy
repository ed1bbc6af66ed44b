/**
 * The cache-optimised merge-sort engine: insertion sort for small ranges, the
 * two-way merge into a separate buffer (plain and cache-blocked), the merge
 * that copies back, the baseline recursion that sorts in place, the
 * dual-buffer recursion that deposits its result in the buffer its caller
 * asks for, the two entry points and the sortedness check.
 *
 * Ranges are closed, `[left, right]`, as in the C code; a Dafny slice of a
 * range is `a[left..right + 1]`. `memcpy` is the range copy `CopyRange`.
 */
module MergeSortCache {
  import opened SortSpec

  /** Ranges of at most this many elements are sorted by insertion sort. */
  const INSERTION_SORT_THRESHOLD: int := 64
  /** Elements per block taken from each run by the cache-blocked merge. */
  const CACHE_BLOCK_SIZE: int := 8192

  /**
   * Sorts `a[left..right]` in place by shifting each element left past the
   * larger ones before it. A range with `left >= right` is left as it is.
   */
  method InsertionSort(a: array<i32>, left: int, right: int)
    requires left <= right ==> 0 <= left && right < a.Length
    modifies a
    ensures left <= right ==> Sorted(a[left..right + 1])
    ensures left <= right ==> multiset(a[left..right + 1]) == multiset(old(a[left..right + 1]))
    ensures forall k :: 0 <= k < a.Length && !(left <= k <= right) ==> a[k] == old(a[k])
    ensures left >= right ==> a[..] == old(a[..])
    ensures left <= right && Sorted(old(a[left..right + 1])) ==> a[..] == old(a[..])
  {
    var i := left + 1;
    while i <= right
      invariant left + 1 <= i
      invariant left <= right ==> i <= right + 1
      invariant left <= right ==> Sorted(a[left..i])
      invariant multiset(a[..]) == multiset(old(a[..]))
      invariant forall k :: 0 <= k < a.Length && !(left <= k <= right) ==> a[k] == old(a[k])
      invariant left >= right ==> a[..] == old(a[..])
    {
      InsertOne(a, left, i);
      i := i + 1;
    }
    if left <= right {
      RangePermutationIffWhole(old(a[..]), a[..], left, right + 1);
      assert old(a[..])[left..right + 1] == old(a[left..right + 1]);
      if Sorted(old(a[left..right + 1])) {
        SortedRangeUnchanged(old(a[..]), a[..], left, right);
      }
    }
  }

  /**
   * A sorted range that was rearranged into a sorted range, with nothing
   * outside it touched, is exactly what it was: sorting a sorted range
   * changes nothing.
   */
  lemma SortedRangeUnchanged(s: seq<i32>, t: seq<i32>, left: int, right: int)
    requires |s| == |t| && 0 <= left <= right < |s|
    requires forall k :: 0 <= k < |s| && !(left <= k <= right) ==> t[k] == s[k]
    requires Sorted(s[left..right + 1]) && Sorted(t[left..right + 1])
    requires multiset(t[left..right + 1]) == multiset(s[left..right + 1])
    ensures t == s
  {
    SortedPermutationUnique(t[left..right + 1], s[left..right + 1]);
    forall k | left <= k <= right ensures t[k] == s[k] {
      assert t[k] == t[left..right + 1][k - left] && s[k] == s[left..right + 1][k - left];
    }
  }

  /**
   * One round of insertion sort: `key := a[i]`, shift the elements of the
   * sorted prefix `a[left..i-1]` that are greater than `key` one place to the
   * right, and put `key` in the gap, so that `a[left..i]` is sorted.
   */
  method InsertOne(a: array<i32>, left: int, i: int)
    requires 0 <= left < i < a.Length
    requires Sorted(a[left..i])
    modifies a
    ensures Sorted(a[left..i + 1])
    ensures multiset(a[..]) == multiset(old(a[..]))
    ensures forall k :: 0 <= k < a.Length && !(left <= k <= i) ==> a[k] == old(a[k])
  {
    ghost var s := a[..];
    var key := a[i];
    var j := i - 1;
    while j >= left && a[j] > key
      invariant left - 1 <= j <= i - 1
      invariant forall p {:trigger a[p]} :: 0 <= p < a.Length && !(j + 2 <= p <= i) ==> a[p] == s[p]
      invariant forall p {:trigger a[p]} :: j + 2 <= p <= i ==> a[p] == s[p - 1] && key < a[p]
      decreases j
    {
      a[j + 1] := a[j];
      j := j - 1;
    }
    a[j + 1] := key;
    InsertionStep(s, a[..], left, j, i);
  }

  /**
   * One insertion step keeps the prefix sorted and the elements the same:
   * `s[left..i)` was sorted, the elements of `s[j+1..i)` (all greater than
   * `key == s[i]`) moved one place right, `key` went to `j + 1`, and the
   * element before it is not greater.
   */
  lemma InsertionStep(s: seq<i32>, t: seq<i32>, left: int, j: int, i: int)
    requires 0 <= left <= j + 1 <= i < |s| == |t|
    requires Sorted(s[left..i])
    requires forall p :: 0 <= p < |t| && !(j + 1 <= p <= i) ==> t[p] == s[p]
    requires t[j + 1] == s[i]
    requires forall p :: j + 2 <= p <= i ==> t[p] == s[p - 1] && s[i] < t[p]
    requires j < left || s[j] <= s[i]
    ensures Sorted(t[left..i + 1])
    ensures multiset(t) == multiset(s)
  {
    RotateRightPreservesMultiset(s, t, j + 1, i);
    forall p, q | left <= p < q <= i ensures t[p] <= t[q] {
      InsertionPairOrdered(s, t, left, j, i, p, q);
    }
  }

  /** The ordering of one pair of positions after an insertion step. */
  lemma InsertionPairOrdered(s: seq<i32>, t: seq<i32>, left: int, j: int, i: int, p: int, q: int)
    requires 0 <= left <= j + 1 <= i < |s| == |t|
    requires Sorted(s[left..i])
    requires forall k :: 0 <= k < |t| && !(j + 1 <= k <= i) ==> t[k] == s[k]
    requires t[j + 1] == s[i]
    requires forall k :: j + 2 <= k <= i ==> t[k] == s[k - 1] && s[i] < t[k]
    requires j < left || s[j] <= s[i]
    requires left <= p < q <= i
    ensures t[p] <= t[q]
  {
    if q <= j {
      SortedRangeAt(s, left, i, p, q);
    } else if q == j + 1 {
      if p < j {
        SortedRangeAt(s, left, i, p, j);
      }
    } else if p <= j {
      assert t[q] == s[q - 1];
      if p < q - 1 {
        SortedRangeAt(s, left, i, p, q - 1);
      }
    } else if p >= j + 2 {
      SortedRangeAt(s, left, i, p - 1, q - 1);
    }
  }

  /** Two positions of a sorted range, read in the whole sequence. */
  lemma SortedRangeAt(s: seq<i32>, lo: int, hi: int, p: int, q: int)
    requires 0 <= lo <= p < q < hi <= |s| && Sorted(s[lo..hi])
    ensures s[p] <= s[q]
  {
    assert s[p] == s[lo..hi][p - lo] && s[q] == s[lo..hi][q - lo];
  }

  /** `memcpy(dst + left, src + left, (right - left + 1) * sizeof(sort_type))`. */
  method CopyRange(src: array<i32>, dst: array<i32>, left: int, right: int)
    requires src != dst
    requires 0 <= left <= right + 1 && right < src.Length && right < dst.Length
    modifies dst
    ensures dst[left..right + 1] == src[left..right + 1]
    ensures forall k :: 0 <= k < dst.Length && !(left <= k <= right) ==> dst[k] == old(dst[k])
  {
    forall k | left <= k <= right {
      dst[k] := src[k];
    }
  }

  /**
   * Merges the runs `src[left..mid]` and `src[mid+1..right]` into
   * `dst[left..right]`, taking from the left run on ties. `src` is only read.
   */
  method MergeNoCopy(src: array<i32>, dst: array<i32>, left: int, mid: int, right: int)
    requires src != dst
    requires 0 <= left <= mid + 1 <= right + 1 <= src.Length && right < dst.Length
    modifies dst
    ensures dst[left..right + 1] == Merged(src[left..mid + 1], src[mid + 1..right + 1])
    ensures forall k :: 0 <= k < dst.Length && !(left <= k <= right) ==> dst[k] == old(dst[k])
  {
    ghost var s := src[..];
    ghost var whole := MergeCursors(s, left, mid + 1, mid + 1, right + 1, []);
    ghost var out: seq<i32> := [];
    var i, j, k := left, mid + 1, left;
    while i <= mid && j <= right
      invariant left <= i <= mid + 1 <= j <= right + 1
      invariant k == i + j - (mid + 1) && |out| == k - left
      invariant MergeCursors(s, i, mid + 1, j, right + 1, out) == whole
      invariant forall p :: 0 <= p < |out| ==> dst[left + p] == out[p]
      invariant forall p :: 0 <= p < dst.Length && !(left <= p <= right) ==> dst[p] == old(dst[p])
    {
      if src[i] <= src[j] {
        dst[k] := src[i];
        out := out + [src[i]];
        i := i + 1;
      } else {
        dst[k] := src[j];
        out := out + [src[j]];
        j := j + 1;
      }
      k := k + 1;
    }
    CopyRemaining(src, dst, left, mid, right, i, j, k, out);
  }

  /**
   * The two trailing loops shared by both merges: once one run is exhausted,
   * copy what is left of the other, in order, after the `k - left` elements
   * already written. Given that what was written so far is the beginning of
   * the merge loop's output, the whole range then holds the reference merge.
   */
  method CopyRemaining(src: array<i32>, dst: array<i32>, left: int, mid: int, right: int,
                       i0: int, j0: int, k0: int, ghost out0: seq<i32>)
    requires src != dst
    requires 0 <= left <= i0 <= mid + 1 <= j0 <= right + 1 <= src.Length && right < dst.Length
    requires i0 == mid + 1 || j0 == right + 1
    requires k0 == i0 + j0 - (mid + 1) && |out0| == k0 - left
    requires MergeCursors(src[..], i0, mid + 1, j0, right + 1, out0) == MergeCursors(src[..], left, mid + 1, mid + 1, right + 1, [])
    requires forall p :: 0 <= p < |out0| ==> dst[left + p] == out0[p]
    modifies dst
    ensures dst[left..right + 1] == Merged(src[left..mid + 1], src[mid + 1..right + 1])
    ensures forall p :: 0 <= p < dst.Length && !(left <= p <= right) ==> dst[p] == old(dst[p])
  {
    ghost var s := src[..];
    ghost var whole := MergeCursors(s, left, mid + 1, mid + 1, right + 1, []);
    ghost var out := out0;
    var i, j, k := i0, j0, k0;
    while i <= mid
      invariant left <= i <= mid + 1 <= j <= right + 1 && (i <= mid ==> j == right + 1)
      invariant k == i + j - (mid + 1) && |out| == k - left
      invariant MergeCursors(s, i, mid + 1, j, right + 1, out) == whole
      invariant forall p :: 0 <= p < |out| ==> dst[left + p] == out[p]
      invariant forall p :: 0 <= p < dst.Length && !(left <= p <= right) ==> dst[p] == old(dst[p])
    {
      dst[k] := src[i];
      out := out + [src[i]];
      i := i + 1;
      k := k + 1;
    }
    while j <= right
      invariant i == mid + 1 <= j <= right + 1
      invariant k == i + j - (mid + 1) && |out| == k - left
      invariant MergeCursors(s, i, mid + 1, j, right + 1, out) == whole
      invariant forall p :: 0 <= p < |out| ==> dst[left + p] == out[p]
      invariant forall p :: 0 <= p < dst.Length && !(left <= p <= right) ==> dst[p] == old(dst[p])
    {
      dst[k] := src[j];
      out := out + [src[j]];
      j := j + 1;
      k := k + 1;
    }
    MergeWritten(dst[..], s, left, mid, right, out);
    assert src[..] == s;
  }

  /**
   * Once a merge loop has run to the end, the elements it wrote, in order,
   * form the reference merge of the two runs.
   */
  lemma MergeWritten(d: seq<i32>, s: seq<i32>, left: int, mid: int, right: int, out: seq<i32>)
    requires 0 <= left <= mid + 1 <= right + 1 <= |s| && right < |d|
    requires out == MergeCursors(s, left, mid + 1, mid + 1, right + 1, [])
    requires |out| == right + 1 - left
    requires forall p :: 0 <= p < |out| ==> d[left + p] == out[p]
    ensures d[left..right + 1] == Merged(s[left..mid + 1], s[mid + 1..right + 1])
  {
    MergeCursorsIsMerged(s, left, mid + 1, mid + 1, right + 1, []);
    assert d[left..right + 1] == out;
  }

  /**
   * What every merge passes on about the range `s[left..right]` split after
   * `mid`: the merge of sorted runs is sorted, and it is a permutation of the
   * range.
   */
  lemma MergeFacts(s: seq<i32>, left: int, mid: int, right: int)
    requires 0 <= left <= mid + 1 <= right + 1 <= |s|
    ensures |Merged(s[left..mid + 1], s[mid + 1..right + 1])| == right + 1 - left
    ensures Sorted(s[left..mid + 1]) && Sorted(s[mid + 1..right + 1]) ==>
      Sorted(Merged(s[left..mid + 1], s[mid + 1..right + 1]))
    ensures multiset(Merged(s[left..mid + 1], s[mid + 1..right + 1])) == multiset(s[left..right + 1])
  {
    var l, r := s[left..mid + 1], s[mid + 1..right + 1];
    assert s[left..right + 1] == l + r;
    if Sorted(l) && Sorted(r) {
      MergedSorted(l, r);
    }
    MergedLength(l, r);
    MergedPermutation(l, r);
  }

  /**
   * The legacy merge: merges `a[left..mid]` and `a[mid+1..right]` into `temp`
   * and copies the result back, so both buffers hold it afterwards.
   */
  method Merge(a: array<i32>, temp: array<i32>, left: int, mid: int, right: int)
    requires a != temp
    requires 0 <= left <= mid + 1 <= right + 1 <= a.Length && right < temp.Length
    modifies a, temp
    ensures a[left..right + 1] == Merged(old(a[left..mid + 1]), old(a[mid + 1..right + 1]))
    ensures temp[left..right + 1] == a[left..right + 1]
    ensures forall k :: 0 <= k < a.Length && !(left <= k <= right) ==> a[k] == old(a[k])
    ensures forall k :: 0 <= k < temp.Length && !(left <= k <= right) ==> temp[k] == old(temp[k])
  {
    MergeNoCopy(a, temp, left, mid, right);
    CopyRange(temp, a, left, right);
  }

  /**
   * The cache-blocked merge. Below `CACHE_BLOCK_SIZE` elements it is the plain
   * merge; above, each outer round bounds both cursors by a block end and
   * restarts the comparison loop. Either way it writes exactly what
   * `MergeNoCopy` writes: the reference merge.
   */
  method MergeBlocked(src: array<i32>, dst: array<i32>, left: int, mid: int, right: int)
    requires src != dst
    requires 0 <= left <= mid + 1 <= right + 1 <= src.Length && right < dst.Length
    modifies dst
    ensures dst[left..right + 1] == Merged(src[left..mid + 1], src[mid + 1..right + 1])
    ensures forall k :: 0 <= k < dst.Length && !(left <= k <= right) ==> dst[k] == old(dst[k])
  {
    var size := right - left + 1;
    if size < CACHE_BLOCK_SIZE {
      MergeNoCopy(src, dst, left, mid, right);
      return;
    }
    ghost var s := src[..];
    ghost var whole := MergeCursors(s, left, mid + 1, mid + 1, right + 1, []);
    ghost var out: seq<i32> := [];
    var i, j, k := left, mid + 1, left;
    while i <= mid && j <= right
      invariant left <= i <= mid + 1 <= j <= right + 1
      invariant k == i + j - (mid + 1) && |out| == k - left
      invariant MergeCursors(s, i, mid + 1, j, right + 1, out) == whole
      invariant forall p :: 0 <= p < |out| ==> dst[left + p] == out[p]
      invariant forall p :: 0 <= p < dst.Length && !(left <= p <= right) ==> dst[p] == old(dst[p])
      decreases (mid + 1 - i) + (right + 1 - j)
    {
      var iEnd := if i + CACHE_BLOCK_SIZE <= mid then i + CACHE_BLOCK_SIZE else mid + 1;
      var jEnd := if j + CACHE_BLOCK_SIZE <= right then j + CACHE_BLOCK_SIZE else right + 1;
      ghost var start := i + j;
      while i < iEnd && j < jEnd
        invariant left <= i <= iEnd <= mid + 1 <= j <= jEnd <= right + 1
        invariant k == i + j - (mid + 1) && |out| == k - left
        invariant MergeCursors(s, i, mid + 1, j, right + 1, out) == whole
        invariant forall p :: 0 <= p < |out| ==> dst[left + p] == out[p]
        invariant forall p :: 0 <= p < dst.Length && !(left <= p <= right) ==> dst[p] == old(dst[p])
        invariant start <= i + j && (i + j == start ==> i < iEnd && j < jEnd)
        decreases (iEnd - i) + (jEnd - j)
      {
        if src[i] <= src[j] {
          dst[k] := src[i];
          out := out + [src[i]];
          i := i + 1;
        } else {
          dst[k] := src[j];
          out := out + [src[j]];
          j := j + 1;
        }
        k := k + 1;
      }
    }
    CopyRemaining(src, dst, left, mid, right, i, j, k, out);
  }

  /**
   * The state after sorting both halves of `[left, right]` one after the
   * other: `a1` is `a0` with the left half sorted, `a2` is `a1` with the right
   * half sorted. Both halves of `a2` are sorted, the range is a permutation
   * of what it was, and nothing outside it has changed.
   */
  lemma HalvesSorted(a0: seq<i32>, a1: seq<i32>, a2: seq<i32>, left: int, mid: int, right: int)
    requires |a1| == |a0| && |a2| == |a0| && 0 <= left <= mid < right < |a0|
    requires forall k :: 0 <= k < |a0| && !(left <= k <= mid) ==> a1[k] == a0[k]
    requires forall k :: 0 <= k < |a0| && !(mid + 1 <= k <= right) ==> a2[k] == a1[k]
    requires Sorted(a1[left..mid + 1]) && multiset(a1[left..mid + 1]) == multiset(a0[left..mid + 1])
    requires Sorted(a2[mid + 1..right + 1]) && multiset(a2[mid + 1..right + 1]) == multiset(a1[mid + 1..right + 1])
    ensures Sorted(a2[left..mid + 1]) && Sorted(a2[mid + 1..right + 1])
    ensures multiset(a2[left..right + 1]) == multiset(a0[left..right + 1])
    ensures forall k :: 0 <= k < |a0| && !(left <= k <= right) ==> a2[k] == a0[k]
  {
    assert a1[mid + 1..right + 1] == a0[mid + 1..right + 1];
    assert a2[left..mid + 1] == a1[left..mid + 1];
    assert a0[left..right + 1] == a0[left..mid + 1] + a0[mid + 1..right + 1];
    assert a2[left..right + 1] == a2[left..mid + 1] + a2[mid + 1..right + 1];
  }

  /**
   * Early termination on sorted input: when `a0[left..right]` is in order, each
   * half is sorted, so each recursive call (which leaves a sorted range and
   * both buffers as they were) changes nothing, and the halves meet in order
   * at `mid`, so the merge is skipped.
   */
  lemma PresortedHalvesUntouched(a0: seq<i32>, a1: seq<i32>, a2: seq<i32>, t0: seq<i32>, t1: seq<i32>, t2: seq<i32>,
                                 left: int, mid: int, right: int)
    requires 0 <= left <= mid < right < |a0| && |a1| == |a0| && |a2| == |a0|
    requires AdjacentOrdered(a0[left..mid + 1]) ==> a1 == a0 && t1 == t0
    requires AdjacentOrdered(a1[mid + 1..right + 1]) ==> a2 == a1 && t2 == t1
    ensures AdjacentOrdered(a0[left..right + 1]) ==> a2 == a0 && t2 == t0 && a2[mid] <= a2[mid + 1]
  {
    if AdjacentOrdered(a0[left..right + 1]) {
      var s, l, r := a0[left..right + 1], a0[left..mid + 1], a0[mid + 1..right + 1];
      forall i | 0 <= i < |l| - 1 ensures l[i] <= l[i + 1] {
        assert l[i] == s[i] && l[i + 1] == s[i + 1];
      }
      forall i | 0 <= i < |r| - 1 ensures r[i] <= r[i + 1] {
        assert r[i] == s[mid + 1 - left + i] && r[i + 1] == s[mid + 1 - left + i + 1];
      }
      assert a0[mid] == s[mid - left] && a0[mid + 1] == s[mid - left + 1];
    }
  }


  /**
   * The last step of both recursions: once both halves of `s[left..right]`
   * are sorted, either the early-termination test holds and the range is
   * already sorted, or the merge of the halves is sorted; either way it is a
   * permutation of the range.
   */
  lemma MergeStepSorted(s: seq<i32>, left: int, mid: int, right: int)
    requires 0 <= left <= mid < right < |s|
    requires Sorted(s[left..mid + 1]) && Sorted(s[mid + 1..right + 1])
    ensures s[mid] <= s[mid + 1] ==> Sorted(s[left..right + 1])
    ensures Sorted(Merged(s[left..mid + 1], s[mid + 1..right + 1]))
    ensures multiset(Merged(s[left..mid + 1], s[mid + 1..right + 1])) == multiset(s[left..right + 1])
  {
    MergeFacts(s, left, mid, right);
    if s[mid] <= s[mid + 1] {
      MergedOrderedRunsIsConcat(s[left..mid + 1], s[mid + 1..right + 1]);
      assert s[left..right + 1] == s[left..mid + 1] + s[mid + 1..right + 1];
    }
  }

  /**
   * The baseline recursion: ranges of at most `INSERTION_SORT_THRESHOLD`
   * elements go to insertion sort; larger ones are split at the midpoint, both
   * halves sorted in place, and merged through `temp` unless the last element
   * of the left half is already at most the first of the right half.
   */
  method MergeSortRecursive(a: array<i32>, temp: array<i32>, left: int, right: int)
    requires a != temp
    requires left <= right ==> 0 <= left && right < a.Length && right < temp.Length
    modifies a, temp
    ensures left <= right ==> Sorted(a[left..right + 1])
    ensures left <= right ==> multiset(a[left..right + 1]) == multiset(old(a[left..right + 1]))
    ensures forall k :: 0 <= k < a.Length && !(left <= k <= right) ==> a[k] == old(a[k])
    ensures forall k :: 0 <= k < temp.Length && !(left <= k <= right) ==> temp[k] == old(temp[k])
    ensures left <= right && AdjacentOrdered(old(a[left..right + 1])) ==> a[..] == old(a[..]) && temp[..] == old(temp[..])
    decreases right - left
  {
    if right - left + 1 <= INSERTION_SORT_THRESHOLD {
      if left <= right {
        AdjacentOrderedIffSorted(a[left..right + 1]);
      }
      InsertionSort(a, left, right);
      return;
    }
    if left < right {
      var mid := left + (right - left) / 2;
      ghost var a0, t0 := a[..], temp[..];
      MergeSortRecursive(a, temp, left, mid);
      ghost var a1, t1 := a[..], temp[..];
      MergeSortRecursive(a, temp, mid + 1, right);
      ghost var a2, t2 := a[..], temp[..];
      HalvesSorted(a0, a1, a2, left, mid, right);
      MergeStepSorted(a2, left, mid, right);
      PresortedHalvesUntouched(a0, a1, a2, t0, t1, t2, left, mid, right);
      if a[mid] <= a[mid + 1] {
        return;
      }
      Merge(a, temp, left, mid, right);
    }
  }

  /**
   * The state after the two recursive calls of the dual-buffer sort, both
   * asked to leave their result in `temp`: `(a1, t1)` follows `(a0, t0)` on
   * the left half, `(a2, t2)` follows `(a1, t1)` on the right half. Both
   * halves of `t2` are sorted, `t2`'s range is a permutation of `a0`'s, `a2`'s
   * range still is too, and nothing outside the range has changed.
   */
  lemma BufferedHalvesSorted(a0: seq<i32>, a1: seq<i32>, a2: seq<i32>, t0: seq<i32>, t1: seq<i32>, t2: seq<i32>,
                             left: int, mid: int, right: int)
    requires |a1| == |a0| && |a2| == |a0| && |t1| == |t0| && |t2| == |t0|
    requires 0 <= left <= mid < right < |a0| && right < |t0|
    requires forall k :: 0 <= k < |a0| && !(left <= k <= mid) ==> a1[k] == a0[k]
    requires forall k :: 0 <= k < |t0| && !(left <= k <= mid) ==> t1[k] == t0[k]
    requires forall k :: 0 <= k < |a0| && !(mid + 1 <= k <= right) ==> a2[k] == a1[k]
    requires forall k :: 0 <= k < |t0| && !(mid + 1 <= k <= right) ==> t2[k] == t1[k]
    requires multiset(a1[left..mid + 1]) == multiset(a0[left..mid + 1])
    requires Sorted(t1[left..mid + 1]) && multiset(t1[left..mid + 1]) == multiset(a0[left..mid + 1])
    requires multiset(a2[mid + 1..right + 1]) == multiset(a1[mid + 1..right + 1])
    requires Sorted(t2[mid + 1..right + 1]) && multiset(t2[mid + 1..right + 1]) == multiset(a1[mid + 1..right + 1])
    ensures Sorted(t2[left..mid + 1]) && Sorted(t2[mid + 1..right + 1])
    ensures multiset(t2[left..right + 1]) == multiset(a0[left..right + 1])
    ensures multiset(a2[left..right + 1]) == multiset(a0[left..right + 1])
    ensures forall k :: 0 <= k < |a0| && !(left <= k <= right) ==> a2[k] == a0[k]
    ensures forall k :: 0 <= k < |t0| && !(left <= k <= right) ==> t2[k] == t0[k]
  {
    assert a1[mid + 1..right + 1] == a0[mid + 1..right + 1];
    assert a2[left..mid + 1] == a1[left..mid + 1];
    assert t2[left..mid + 1] == t1[left..mid + 1];
    assert a0[left..right + 1] == a0[left..mid + 1] + a0[mid + 1..right + 1];
    assert a2[left..right + 1] == a2[left..mid + 1] + a2[mid + 1..right + 1];
    assert t2[left..right + 1] == t2[left..mid + 1] + t2[mid + 1..right + 1];
  }

  /**
   * The dual-buffer recursion. The caller says where the sorted range must
   * end up: in `temp` when `resultInTemp`, in `a` otherwise. Small ranges
   * are insertion-sorted in `a` and copied to `temp` if asked; larger ones
   * sort both halves into `temp`, then either find them already in order or
   * merge them from `temp` into `a` with the cache-blocked merge, copying
   * the result back to `temp` when it is wanted there. Whatever happens,
   * `a`'s range stays a permutation of what it was.
   */
  method MergeSortUltimate(a: array<i32>, temp: array<i32>, left: int, right: int, resultInTemp: bool)
    requires a != temp
    requires 0 <= left <= right + 1 <= a.Length && right < temp.Length
    modifies a, temp
    ensures multiset(a[left..right + 1]) == multiset(old(a[left..right + 1]))
    ensures resultInTemp ==> Sorted(temp[left..right + 1])
    ensures resultInTemp ==> multiset(temp[left..right + 1]) == multiset(old(a[left..right + 1]))
    ensures !resultInTemp ==> Sorted(a[left..right + 1])
    ensures forall k :: 0 <= k < a.Length && !(left <= k <= right) ==> a[k] == old(a[k])
    ensures forall k :: 0 <= k < temp.Length && !(left <= k <= right) ==> temp[k] == old(temp[k])
    decreases right - left
  {
    var size := right - left + 1;
    if size <= INSERTION_SORT_THRESHOLD {
      InsertionSort(a, left, right);
      if resultInTemp {
        CopyRange(a, temp, left, right);
      }
      return;
    }
    if left < right {
      var mid := left + (right - left) / 2;
      ghost var a0, t0 := a[..], temp[..];
      MergeSortUltimate(a, temp, left, mid, true);
      ghost var a1, t1 := a[..], temp[..];
      MergeSortUltimate(a, temp, mid + 1, right, true);
      ghost var a2, t2 := a[..], temp[..];
      BufferedHalvesSorted(a0, a1, a2, t0, t1, t2, left, mid, right);
      MergeStepSorted(t2, left, mid, right);
      if temp[mid] <= temp[mid + 1] {
        if !resultInTemp {
          CopyRange(temp, a, left, right);
        }
        return;
      }
      if resultInTemp {
        MergeBlocked(temp, a, left, mid, right);
        CopyRange(a, temp, left, right);
      } else {
        MergeBlocked(temp, a, left, mid, right);
      }
    }
  }

  /**
   * Entry point of the baseline sort: sorts `a[0..n-1]` in place through
   * `MergeSortRecursive` with a fresh buffer of `n` elements. Nothing happens
   * when `n <= 1`.
   */
  method BaselineMergeSort(a: array<i32>, n: int)
    requires n <= a.Length
    modifies a
    ensures n <= 1 ==> a[..] == old(a[..])
    ensures 0 <= n ==> Sorted(a[..n]) && multiset(a[..n]) == multiset(old(a[..n]))
    ensures 0 <= n ==> a[n..] == old(a[n..])
    ensures 0 <= n && Sorted(old(a[..n])) ==> a[..] == old(a[..])
  {
    if n <= 1 {
      return;
    }
    var temp := new i32[n];
    MergeSortRecursive(a, temp, 0, n - 1);
    assert a[..n] == a[0..n - 1 + 1];
    if Sorted(old(a[..n])) {
      SortedPermutationUnique(a[..n], old(a[..n]));
      assert a[..] == a[..n] + a[n..];
      assert old(a[..]) == old(a[..n]) + old(a[n..]);
    }
  }

  /**
   * Entry point of the optimised sort: sorts `a[0..n-1]` in place through
   * `MergeSortUltimate`, asking for the result in `a`, with a fresh buffer of
   * `n` elements. Nothing happens when `n <= 1`.
   */
  method OptimizedMergeSort(a: array<i32>, n: int)
    requires n <= a.Length
    modifies a
    ensures n <= 1 ==> a[..] == old(a[..])
    ensures 0 <= n ==> Sorted(a[..n]) && multiset(a[..n]) == multiset(old(a[..n]))
    ensures 0 <= n ==> a[n..] == old(a[n..])
    ensures 0 <= n && Sorted(old(a[..n])) ==> a[..] == old(a[..])
  {
    if n <= 1 {
      return;
    }
    var temp := new i32[n];
    MergeSortUltimate(a, temp, 0, n - 1, false);
    assert a[..n] == a[0..n - 1 + 1];
    if Sorted(old(a[..n])) {
      SortedPermutationUnique(a[..n], old(a[..n]));
      assert a[..] == a[..n] + a[n..];
      assert old(a[..]) == old(a[..n]) + old(a[n..]);
    }
  }

  /**
   * The correctness check of the test harness: walks the first `n` elements
   * and reports `false` at the first element greater than its successor.
   */
  method VerifySorted(a: array<i32>, n: int) returns (ok: bool)
    requires n <= a.Length
    ensures 0 <= n ==> (ok <==> AdjacentOrdered(a[..n]))
    ensures 0 <= n ==> (ok <==> Sorted(a[..n]))
    ensures n <= 1 ==> ok
  {
    var i := 0;
    while i < n - 1
      invariant 0 <= i && (i == 0 || i <= n - 1)
      invariant forall p :: 0 <= p < i ==> a[p] <= a[p + 1]
    {
      if a[i] > a[i + 1] {
        assert !AdjacentOrdered(a[..n]) by {
          assert a[..n][i] > a[..n][i + 1];
        }
        AdjacentOrderedIffSorted(a[..n]);
        return false;
      }
      i := i + 1;
    }
    if 0 <= n {
      AdjacentOrderedIffSorted(a[..n]);
    }
    return true;
  }
}
