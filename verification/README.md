# Cache-optimised merge sort, modelled in Dafny

This project models the sorting engine of `merge_sort_cache.c`: a hybrid
merge sort over 32-bit signed integers (`sort_type` is `int32_t`) that sorts
in place with one scratch buffer. It covers the following parts:

- insertion sort for ranges of at most `INSERTION_SORT_THRESHOLD` (64)
  elements;
- the two-way merge into a separate buffer (`merge_no_copy`);
- the merge that copies back (`merge`);
- the cache-blocked merge (`merge_blocked`, `CACHE_BLOCK_SIZE` = 8192);
- the baseline recursion (`merge_sort_recursive`);
- the dual-buffer recursion (`merge_sort_ultimate`), whose caller chooses
  which buffer receives the result;
- the two entry points;
- the `verify_sorted` check;
- the fixed test vectors of `main`.

The model is imperative, like the C code:

- every routine is a Dafny `method` over `array<i32>`;
- the C cursors `i`, `j`, `k` and the shifting `while` loop are `while` loops
  with invariants;
- `memcpy` is the range copy `CopyRange`;
- ranges are closed, `[left, right]`, as in C; a Dafny slice of one is
  `a[left..right + 1]`.

The methods are proved against a small specification (`sorting_spec.dfy`):

- `Sorted` is the pairwise ordering predicate;
- `AdjacentOrdered` is what `verify_sorted` checks;
- `Merged` is the reference stable two-way merge, which takes the left head
  on ties;
- `MergeCursors` is the C merge loop written as a function over the cursors
  `i`, `j` and the output written so far; `MergeCursorsIsMerged` proves that
  it produces `Merged`.

Every merge method ends with `dst[left..right] == Merged(left run, right run)`.
The lemmas about `Merged` then give sortedness and the permutation property.
Because the plain merge and the cache-blocked merge have the same
postcondition, they write the same output.

Files:

- `sorting_spec.dfy` (module `SortSpec`): the element type, the predicates,
  the reference merge and its lemmas.
- `merge_sort_cache.dfy` (module `MergeSortCache`): the engine.
- `test_vectors.dfy` (module `TestVectors`): `run_test` and the five fixed
  vectors of `main`, plus agreement of the two entry points.

## Model

| member | source | states |
|---|---|---|
| SortSpec.MergeCursorsIsMerged | merge_sort_cache.c:55-65 | the cursor loop (main loop plus both tail loops) emits what it has written followed by the reference merge of the unread parts of both runs; each step takes the left head when it is not greater than the right head and the right head otherwise (ties go left, lines 56-59), through the helper lemmas `MergedTakeLeft` and `MergedTakeRight` |
| SortSpec.MergedPermutation | merge_sort_cache.c:49-66 | the merge output's multiset is the sum of the two runs' multisets: nothing lost, nothing duplicated |
| SortSpec.MergedLength | merge_sort_cache.c:49-66 | the merge writes exactly as many elements as the two runs hold, so `k` ends at `right + 1` |
| SortSpec.MergedSorted | merge_sort_cache.c:49-66 | merging two sorted runs yields a sorted sequence |
| SortSpec.MergedLeftBelowHead | merge_sort_cache.c:55-64 | if every left element is at most the right head, the merge is the left run followed by the right run |
| SortSpec.MergedOrderedRunsIsConcat | merge_sort_cache.c:184-187 | early termination is sound: for sorted runs with last-left <= first-right, the merge equals their concatenation, which is sorted |
| SortSpec.SortedPermutationUnique | merge_sort_cache.c:234-257 | two sorted sequences with the same multiset are equal, so any two correct sorts agree and sorting an already-sorted range changes nothing |
| SortSpec.SortedPermutationHeads | merge_sort_cache.c:234-257 | two sorted arrangements of one non-empty multiset share their head, and their tails are again sorted arrangements of one multiset |
| SortSpec.AdjacentOrderedIffSorted | merge_sort_cache.c:260-265 | checking each element against its successor, as `verify_sorted` does, holds exactly when the sequence is sorted (both directions) |
| SortSpec.RotateRightPreservesMultiset | merge_sort_cache.c:39-44 | shifting `s[lo..hi-1]` one place right and dropping `s[hi]` into the gap keeps the multiset |
| MergeSortCache.InsertionSort | merge_sort_cache.c:34-46 | `a[left..right]` ends sorted and a permutation of its old contents; cells outside are unchanged; with `left >= right` the array is untouched; a range that is already sorted comes back exactly as it was |
| MergeSortCache.SortedRangeUnchanged | merge_sort_cache.c:34-46 | a sort that leaves the range sorted, a permutation of what it was and everything outside it alone cannot have changed an already-sorted range: the whole array is what it was |
| MergeSortCache.InsertOne | merge_sort_cache.c:36-44 | one outer round: if `a[left..i-1]` is sorted, afterwards `a[left..i]` is sorted, the whole array keeps its multiset, and nothing outside `[left, i]` changes |
| MergeSortCache.InsertionStep | merge_sort_cache.c:39-44 | after shifting the larger elements right and writing `key` into the gap, the prefix through `i` is sorted and the multiset is unchanged |
| MergeSortCache.CopyRange | merge_sort_cache.c:71 | `memcpy` of a closed range: `dst[left..right]` equals `src[left..right]`; the rest of `dst` is unchanged |
| MergeSortCache.MergeNoCopy | merge_sort_cache.c:49-66 | `dst[left..right]` is the ties-left reference merge of `src[left..mid]` and `src[mid+1..right]`; `dst` outside the range and all of `src` are unchanged |
| MergeSortCache.CopyRemaining | merge_sort_cache.c:63-65 | once one run is exhausted, copying the rest of the other completes the reference merge in `dst[left..right]` |
| MergeSortCache.MergeWritten | merge_sort_cache.c:63-65 | when the cursors have consumed both runs, the elements written in order are exactly the reference merge |
| MergeSortCache.MergeFacts | merge_sort_cache.c:49-66 | the merge of `s[left..mid]` and `s[mid+1..right]` has `right-left+1` elements, is sorted when both runs are, and is a permutation of `s[left..right]` |
| MergeSortCache.Merge | merge_sort_cache.c:69-72 | afterwards `arr[left..right]` holds the merge of its old halves and `temp[left..right]` equals it; both buffers are unchanged outside the range |
| MergeSortCache.MergeBlocked | merge_sort_cache.c:76-108 | writes the same reference merge as `MergeNoCopy`, below and above `CACHE_BLOCK_SIZE`; each outer round consumes at least one element (termination) |
| MergeSortCache.HalvesSorted | merge_sort_cache.c:180-182 | after sorting both halves in turn, both halves are sorted, the range is a permutation of what it was, and nothing outside changed |
| MergeSortCache.MergeStepSorted | merge_sort_cache.c:184-189 | with sorted halves, `arr[mid] <= arr[mid+1]` means the range is already sorted; otherwise the merge of the halves is sorted; either way it is a permutation of the range |
| MergeSortCache.PresortedHalvesUntouched | merge_sort_cache.c:180-187 | when the range is in order before the recursion, neither recursive call changes anything and the halves meet in order at `mid`, so the early-termination test succeeds |
| MergeSortCache.MergeSortRecursive | merge_sort_cache.c:170-191 | `a[left..right]` ends sorted and a permutation of its old contents; `a` and `temp` are unchanged outside `[left, right]`; when `a[left..right]` is already in order (each element at most its successor), neither `a` nor `temp` changes at all, because the test at line 185 skips every merge |
| MergeSortCache.BufferedHalvesSorted | merge_sort_cache.c:209-211 | after both children deposit into `temp`, both halves of `temp` are sorted, `temp`'s range is a permutation of the old `arr` range, `arr`'s range still is, and neither buffer changed outside |
| MergeSortCache.MergeSortUltimate | merge_sort_cache.c:194-231 | with `resultInTemp`, `temp[left..right]` is the sorted permutation of the old `arr[left..right]`; otherwise `arr[left..right]` is sorted; `arr`'s range always keeps its multiset; both buffers are unchanged outside the range |
| MergeSortCache.BaselineMergeSort | merge_sort_cache.c:251-257 | `n <= 1` leaves the array untouched; otherwise `a[0..n)` is sorted and a permutation of the input, `a[n..]` is untouched, and an already-sorted input is left unchanged |
| MergeSortCache.OptimizedMergeSort | merge_sort_cache.c:234-248 | the same contract as the baseline entry point, through the dual-buffer recursion with the result in `arr` |
| MergeSortCache.VerifySorted | merge_sort_cache.c:260-265 | returns true exactly when `a[i] <= a[i+1]` for every `0 <= i < n-1`, equivalently when `a[0..n)` is sorted; true for `n <= 1`; reads only |
| TestVectors.RunTest | merge_sort_cache.c:267-292 | sorting with the baseline entry point and then asking `verify_sorted` always reports PASSED; the first `n` elements end sorted and permuted |
| TestVectors.OutputIsExpected | merge_sort_cache.c:371-388 | a sorted permutation of a test input equals the sorted expected output of that input |
| TestVectors.SmallRandom | merge_sort_cache.c:371-372 | `{12,7,14,9,10,11}` sorts to `[7,9,10,11,12,14]` and the test passes; the helper lemmas `SmallRandomExpected` and `SmallRandomOrdered` show that the expected output holds exactly the input's elements and is ascending |
| TestVectors.EdgeCases | merge_sort_cache.c:375-376 | `{INT_MAX,0,INT_MIN,-1,1,INT_MAX-1,INT_MIN+1}` sorts to `[INT_MIN,INT_MIN+1,-1,0,1,INT_MAX-1,INT_MAX]` and the test passes; the helper lemmas `EdgeCasesExpected` and `EdgeCasesOrdered` show that the expected output holds exactly the input's elements and is ascending |
| TestVectors.AlreadySorted | merge_sort_cache.c:379-380 | `{1,...,8}` comes back unchanged and the test passes; the helper lemmas `AlreadySortedExpected` and `AlreadySortedOrdered` show that the expected output holds exactly the input's elements and is ascending |
| TestVectors.ReverseSorted | merge_sort_cache.c:383-384 | `{100,90,...,40}` sorts to `[40,50,...,100]` and the test passes; the helper lemmas `ReverseSortedExpected` and `ReverseSortedOrdered` show that the expected output holds exactly the input's elements and is ascending |
| TestVectors.Duplicates | merge_sort_cache.c:387-388 | `{5,1,5,2,5,3}` sorts to `[1,2,3,5,5,5]`, keeping all three copies of 5, and the test passes; the helper lemmas `DuplicatesExpected` and `DuplicatesOrdered` show that the expected output holds exactly the input's elements and is ascending |
| TestVectors.EntryPointsAgree | merge_sort_cache.c:234-257 | the baseline and the optimised entry points, run on copies of the same input, leave the same sorted permutation of it |

## Left out

- `merge_sort_pingpong` (merge_sort_cache.c:112-167) is not modelled, because nothing in the file calls it. Its two calls of `merge_no_copy` with the same buffer as source and destination (lines 144 and 160) cannot run: `data_in_temp` (line 131) is true exactly when `depth` is even, and each of those calls sits under a `depth & 1` test (lines 143 and 157) that contradicts the branch around it.
- MergeNoCopy, MergeBlocked, Merge, MergeSortRecursive and MergeSortUltimate require the two buffers to be distinct arrays, which every reachable call in the file satisfies. The C functions do not state this.
- The `malloc` failure path (`fprintf` and `exit(1)`, lines 238-242 and 253-254) is not modelled. The scratch buffer is a fresh `array<i32>` of `n` elements, and `free` has no counterpart.
- `print_array`, the printing and `clock()` timing in `run_test`, and `run_gb_test` with its random data, throughput and cost arithmetic are left out. They are console I/O, timing and floating point. The narrowing of the `size_t` element count to `int` at line 332 is in that harness and is left out too.
- Test 6 of `main` (lines 390-399) is left out because its data comes from `rand()`. Its property, that the sort of any input passes, is the contract of BaselineMergeSort.
- `memcpy` is modelled as an element-wise range copy (CopyRange). Byte-level memory and the `sizeof` arithmetic are not modelled.
- Indices are unbounded integers. The model does not capture the `int` overflow of `i + CACHE_BLOCK_SIZE` (line 92) or of `j + CACHE_BLOCK_SIZE` (line 93), which would need ranges within 8192 of `INT_MAX`. `mid = left + (right - left) / 2` cannot overflow and is modelled as written.
- MergeSortUltimate requires `left <= right + 1`, which is stronger than the C code needs. With a larger `left`, `size` is negative, and when `result_in_temp` is true that negative `size` reaches `memcpy` (line 201), which is undefined behaviour. When `result_in_temp` is false the same call is harmless: `insertion_sort` does nothing and the function returns. The requirement excludes that case too. All calls in the file satisfy it.
- InsertOne and CopyRemaining are helper methods that hold one outer round of `insertion_sort` and the two shared tail loops of the merges. The statements are the same as in C, only split across methods.
- Stability is built into `Merged`, which takes the left head on ties (line 56). The model does not prove it as a property of records, because with plain integers equal elements cannot be told apart.
