/**
 * The specification side of the merge-sort engine: the 32-bit element type,
 * what "sorted" means, the reference two-way merge (ties taken from the left
 * run), and the facts about them that the in-place methods rely on.
 */
module SortSpec {

  /** The element type `sort_type` (`int32_t`). The engine only compares elements. */
  newtype i32 = x: int | -0x8000_0000 <= x < 0x8000_0000

  const INT_MAX: i32 := 0x7FFF_FFFF
  const INT_MIN: i32 := -0x7FFF_FFFF - 1

  /** Every element is at most every later element. */
  ghost predicate Sorted(s: seq<i32>) {
    forall p, q :: 0 <= p < q < |s| ==> s[p] <= s[q]
  }

  /** Every element is at most its right neighbour: the check `verify_sorted` makes. */
  ghost predicate AdjacentOrdered(s: seq<i32>) {
    forall i :: 0 <= i < |s| - 1 ==> s[i] <= s[i + 1]
  }

  /**
   * The reference two-way merge: repeatedly take the smaller head, taking the
   * head of the left run when the two heads are equal, and append whatever is
   * left of the run that is not exhausted.
   */
  function Merged(l: seq<i32>, r: seq<i32>): (m: seq<i32>)
    decreases |l| + |r|
  {
    if l == [] then r
    else if r == [] then l
    else if l[0] <= r[0] then [l[0]] + Merged(l[1..], r)
    else [r[0]] + Merged(l, r[1..])
  }

  /**
   * The merge loop as a function: the left run is what remains of `s[i..e)`,
   * the right run what remains of `s[j..f)`, and `acc` has already been
   * written; each step appends the left head unless the left run is exhausted
   * or the right head is strictly smaller. The result is the whole output.
   */
  function MergeCursors(s: seq<i32>, i: int, e: int, j: int, f: int, acc: seq<i32>): (out: seq<i32>)
    requires 0 <= i <= e <= |s| && 0 <= j <= f <= |s|
    decreases (e - i) + (f - j)
  {
    if i == e && j == f then acc
    else if i < e && (j == f || s[i] <= s[j]) then MergeCursors(s, i + 1, e, j, f, acc + [s[i]])
    else MergeCursors(s, i, e, j + 1, f, acc + [s[j]])
  }

  /** When the left head is taken (the right run is empty or its head is not smaller), it leads the merge. */
  lemma MergedTakeLeft(l: seq<i32>, r: seq<i32>)
    requires l != [] && (r == [] || l[0] <= r[0])
    ensures Merged(l, r) == [l[0]] + Merged(l[1..], r)
  {
    if r == [] {
      assert Merged(l[1..], r) == l[1..];
      assert l == [l[0]] + l[1..];
    }
  }

  /** When the right head is taken (the left run is empty or its head is larger), it leads the merge. */
  lemma MergedTakeRight(l: seq<i32>, r: seq<i32>)
    requires r != [] && (l == [] || r[0] < l[0])
    ensures Merged(l, r) == [r[0]] + Merged(l, r[1..])
  {
    if l == [] {
      assert Merged(l, r[1..]) == r[1..];
      assert r == [r[0]] + r[1..];
    }
  }

  /** The merge loop writes what has been written followed by the reference merge of what remains. */
  lemma {:induction false} MergeCursorsIsMerged(s: seq<i32>, i: int, e: int, j: int, f: int, acc: seq<i32>)
    requires 0 <= i <= e <= |s| && 0 <= j <= f <= |s|
    ensures MergeCursors(s, i, e, j, f, acc) == acc + Merged(s[i..e], s[j..f])
    decreases (e - i) + (f - j)
  {
    var l, r := s[i..e], s[j..f];
    if i == e && j == f {
      assert l == [] && r == [];
    } else if i < e && (j == f || s[i] <= s[j]) {
      var rest := Merged(s[i + 1..e], r);
      MergeCursorsIsMerged(s, i + 1, e, j, f, acc + [s[i]]);
      assert l[0] == s[i] && l[1..] == s[i + 1..e];
      MergedTakeLeft(l, r);
      calc {
        MergeCursors(s, i, e, j, f, acc);
        (acc + [s[i]]) + rest;
        acc + ([s[i]] + rest);
        acc + Merged(l, r);
      }
    } else {
      var rest := Merged(l, s[j + 1..f]);
      MergeCursorsIsMerged(s, i, e, j + 1, f, acc + [s[j]]);
      assert r[0] == s[j] && r[1..] == s[j + 1..f];
      MergedTakeRight(l, r);
      calc {
        MergeCursors(s, i, e, j, f, acc);
        (acc + [s[j]]) + rest;
        acc + ([s[j]] + rest);
        acc + Merged(l, r);
      }
    }
  }

  /** The merge is a permutation of its two runs: nothing is lost, nothing duplicated. */
  lemma {:induction false} MergedPermutation(l: seq<i32>, r: seq<i32>)
    ensures multiset(Merged(l, r)) == multiset(l) + multiset(r)
    decreases |l| + |r|
  {
    if l != [] && r != [] {
      if l[0] <= r[0] {
        MergedPermutation(l[1..], r);
        MergedTakeLeft(l, r);
        MultisetCons(l);
        MultisetCons(Merged(l, r));
        assert Merged(l, r)[1..] == Merged(l[1..], r);
      } else {
        MergedPermutation(l, r[1..]);
        MergedTakeRight(l, r);
        MultisetCons(r);
        MultisetCons(Merged(l, r));
        assert Merged(l, r)[1..] == Merged(l, r[1..]);
      }
    }
  }

  /** A non-empty sequence holds its head once more than its tail does. */
  lemma MultisetCons(s: seq<i32>)
    requires s != []
    ensures multiset(s) == multiset{s[0]} + multiset(s[1..])
  {
    assert s == [s[0]] + s[1..];
  }

  /** The merge is as long as its two runs together. */
  lemma MergedLength(l: seq<i32>, r: seq<i32>)
    ensures |Merged(l, r)| == |l| + |r|
  {
    MergedPermutation(l, r);
    assert |multiset(Merged(l, r))| == |Merged(l, r)|;
  }

  /** Checking neighbours is enough: a sequence is sorted exactly when it is adjacent-ordered. */
  lemma {:induction false} AdjacentOrderedIffSorted(s: seq<i32>)
    ensures AdjacentOrdered(s) <==> Sorted(s)
  {
    if AdjacentOrdered(s) && |s| > 1 {
      AdjacentOrderedIffSorted(s[1..]);
      assert Sorted(s[1..]);
      forall p, q | 0 <= p < q < |s| ensures s[p] <= s[q] {
        if 0 < p {
          assert s[p] == s[1..][p - 1] && s[q] == s[1..][q - 1];
        } else if 1 < q {
          assert s[1] == s[1..][0] && s[q] == s[1..][q - 1];
        }
      }
    }
  }

  /** A value no greater than any element of either run is no greater than any element of their merge. */
  lemma MergedBoundedBelow(l: seq<i32>, r: seq<i32>, x: i32)
    requires forall k :: 0 <= k < |l| ==> x <= l[k]
    requires forall k :: 0 <= k < |r| ==> x <= r[k]
    ensures forall k :: 0 <= k < |Merged(l, r)| ==> x <= Merged(l, r)[k]
  {
    var m := Merged(l, r);
    MergedPermutation(l, r);
    forall k | 0 <= k < |m| ensures x <= m[k] {
      assert m[k] in multiset(m);
      assert m[k] in multiset(l) || m[k] in multiset(r);
    }
  }

  /** Merging two sorted runs yields a sorted sequence. */
  lemma {:induction false} MergedSorted(l: seq<i32>, r: seq<i32>)
    requires Sorted(l) && Sorted(r)
    ensures Sorted(Merged(l, r))
    decreases |l| + |r|
  {
    if l != [] && r != [] {
      var m := Merged(l, r);
      if l[0] <= r[0] {
        MergedSorted(l[1..], r);
        MergedBoundedBelow(l[1..], r, l[0]);
        assert m == [l[0]] + Merged(l[1..], r);
      } else {
        MergedSorted(l, r[1..]);
        MergedBoundedBelow(l, r[1..], r[0]);
        assert m == [r[0]] + Merged(l, r[1..]);
      }
    }
  }

  /** When no element of the left run exceeds the head of the right run, the merge takes the whole left run first. */
  lemma {:induction false} MergedLeftBelowHead(l: seq<i32>, r: seq<i32>)
    requires r != [] && forall k :: 0 <= k < |l| ==> l[k] <= r[0]
    ensures Merged(l, r) == l + r
  {
    if l != [] {
      var tail := l[1..];
      forall k | 0 <= k < |tail| ensures tail[k] <= r[0] {
        assert tail[k] == l[k + 1];
      }
      MergedLeftBelowHead(tail, r);
      MergedPrefixStep(l, r);
    }
  }

  /** When the merge takes the left head and the rest of the merge is a concatenation, so is the whole merge. */
  lemma MergedPrefixStep(l: seq<i32>, r: seq<i32>)
    requires l != [] && r != [] && l[0] <= r[0]
    requires Merged(l[1..], r) == l[1..] + r
    ensures Merged(l, r) == l + r
  {
    MergedTakeLeft(l, r);
    calc {
      Merged(l, r);
      [l[0]] + (l[1..] + r);
      ([l[0]] + l[1..]) + r;
      { assert [l[0]] + l[1..] == l; }
      l + r;
    }
  }

  /**
   * Early termination is sound: when the last element of the sorted left run
   * is at most the first element of the sorted right run, the merge is the
   * plain concatenation, so skipping it leaves the same result in place.
   */
  lemma MergedOrderedRunsIsConcat(l: seq<i32>, r: seq<i32>)
    requires Sorted(l) && Sorted(r)
    requires l != [] && r != [] && l[|l| - 1] <= r[0]
    ensures Merged(l, r) == l + r
    ensures Sorted(l + r)
  {
    forall k | 0 <= k < |l| ensures l[k] <= r[0] {
      assert l[k] <= l[|l| - 1];
    }
    MergedLeftBelowHead(l, r);
    MergedSorted(l, r);
  }

  /** The head of a non-empty sorted sequence is at most each of its elements. */
  lemma SortedHeadIsLeast(s: seq<i32>, x: i32)
    requires Sorted(s) && x in multiset(s)
    ensures s[0] <= x
  {
    var k :| 0 <= k < |s| && s[k] == x;
  }

  /** Removing the head of a sorted sequence leaves it sorted and takes one copy of the head out of its multiset. */
  lemma SortedTail(s: seq<i32>)
    requires Sorted(s) && s != []
    ensures Sorted(s[1..])
    ensures multiset(s[1..]) == multiset(s) - multiset{s[0]}
  {
    assert s == [s[0]] + s[1..];
  }

  /**
   * Two sorted arrangements of the same non-empty multiset start with the
   * same element, and what follows is again two sorted arrangements of one
   * multiset.
   */
  lemma SortedPermutationHeads(s: seq<i32>, t: seq<i32>)
    requires Sorted(s) && Sorted(t) && s != []
    requires multiset(s) == multiset(t)
    ensures t != [] && s[0] == t[0]
    ensures Sorted(s[1..]) && Sorted(t[1..]) && multiset(s[1..]) == multiset(t[1..])
  {
    assert |t| == |s| by { assert |multiset(t)| == |multiset(s)|; }
    SortedHeadIsLeast(s, t[0]);
    SortedHeadIsLeast(t, s[0]);
    SortedTail(s);
    SortedTail(t);
  }

  /** There is only one sorted arrangement of a multiset of elements. */
  lemma {:induction false} SortedPermutationUnique(s: seq<i32>, t: seq<i32>)
    requires Sorted(s) && Sorted(t)
    requires multiset(s) == multiset(t)
    ensures s == t
  {
    if s == [] {
      assert |t| == 0 by { assert |multiset(t)| == |multiset(s)|; }
    } else {
      SortedPermutationHeads(s, t);
      SortedPermutationUnique(s[1..], t[1..]);
      assert s == [s[0]] + s[1..] && t == [t[0]] + t[1..];
    }
  }

  /**
   * Moving the element at `hi` down to `lo` and shifting `s[lo..hi]` one place
   * to the right (one insertion step) rearranges the sequence without changing
   * its multiset.
   */
  lemma RotateRightPreservesMultiset(s: seq<i32>, t: seq<i32>, lo: int, hi: int)
    requires |s| == |t| && 0 <= lo <= hi < |s|
    requires forall p :: 0 <= p < |s| && !(lo <= p <= hi) ==> t[p] == s[p]
    requires t[lo] == s[hi]
    requires forall p :: lo < p <= hi ==> t[p] == s[p - 1]
    ensures multiset(t) == multiset(s)
  {
    assert t == s[..lo] + [s[hi]] + s[lo..hi] + s[hi + 1..];
    assert s == s[..lo] + s[lo..hi] + [s[hi]] + s[hi + 1..];
  }

  /**
   * When two sequences agree outside `[lo, hi)`, the whole of one is a
   * permutation of the whole of the other exactly when the ranges are.
   */
  lemma RangePermutationIffWhole(s: seq<i32>, t: seq<i32>, lo: int, hi: int)
    requires |s| == |t| && 0 <= lo <= hi <= |s|
    requires forall k :: 0 <= k < |s| && !(lo <= k < hi) ==> s[k] == t[k]
    ensures multiset(s[lo..hi]) == multiset(t[lo..hi]) <==> multiset(s) == multiset(t)
  {
    assert s == s[..lo] + s[lo..hi] + s[hi..];
    assert t == t[..lo] + t[lo..hi] + t[hi..];
    assert s[..lo] == t[..lo];
    assert s[hi..] == t[hi..];
    var outside := multiset(s[..lo]) + multiset(s[hi..]);
    assert multiset(s[lo..hi]) == multiset(s) - outside;
    assert multiset(t[lo..hi]) == multiset(t) - outside;
  }
}
