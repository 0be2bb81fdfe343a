# Counting sort with OpenMP, modelled in Dafny

This project models the counting-sort kernel of the *Parallelization of
Counting Sort with OMP/MPI/CUDA* repository, in both of its OpenMP
variants. Each variant has three phases:

1. **Range phase.** Every worker of a parallel region seeds a local minimum
   and maximum with `a[0]`. It scans its share of `a[1..N)` and merges the
   local values into the shared `min` and `max` inside a critical section.
2. **Histogram phase.** A count table of `max - min + 1` buckets is
   cleared. Then every element adds one to its bucket; the per-worker tables
   are combined by a `+` reduction.
3. **Output phase**, which differs between the variants:
   - **HM** (`countingSort(a, c, N)`) turns the counts into running counts
     `d` with a nested loop. It then scans `a` backwards, writing each
     element into a separate array `c` just below its running count and
     decrementing that count. The result is a stable sort and `a` is only
     read.
   - **WIKI** (`countingSort(a, N)`) writes the table back over `a`, bucket
     by bucket in ascending order, each value as often as it was counted.

The model is written as methods over arrays with loop invariants, plus a
value-level specification in module `Counting`:

- `Hist(s, lo, size)` is the count table.
- `Prefix(t)` gives its running sums.
- `Expand(t, lo)` is the ascending sequence that a table expands into.
- `CountLess(s, v)` counts the elements below `v`.
- `Rank(s, j)` is the stable position of element `j`: the elements smaller
  than it plus the equal elements before it.

Both variants are proved to produce `Expand(Hist(a, min, size), min)`. That
sequence is proved sorted and a permutation of the input. By `SortedUnique`
it is the only sequence that is both, so the two variants agree on every
input they accept.

The parallel loops are modelled as sequential loops. In the range phase the
split of `[1, N)` among workers is a parameter `schedule` (any contiguous,
ordered partition). The model proves that the result equals one sequential
scan whatever the split. C `int` is modelled by unbounded integers together
with the precondition `FitsInt`:

- every element is an `int`;
- `N <= INT_MAX`;
- `max - min + 1` does not overflow.

The model asserts only the table size `max - min + 1` against `int`. The
other intermediate values stay within bounds that the model proves:
- every count and every running count is at most N (`HistSum`, `PrefixOfHist`);
- the WIKI write position `k` stays at most the table's total, which is N
  (`ExpandInto`);
- every value written back, `i + min`, lies in `[min, max]` (`ExpandSorted`).

Together with `FitsInt`, these bounds keep each of those values inside `int`.

The HM code sizes both of its tables at `max - min + 1` buckets
(`OMP/Project/HM_Counting_Sort/src/count_sort.c:87-88`). That size fits only
indices shifted by `min`, and the WIKI variant does shift them: it counts into
`c[a[i] - min]` (`OMP/Project/WIKI_Counting_Sort/src/count_sort.c:97`). Yet
HM indexes by the raw value `a[i]` (`:97`, `:106-107`), which stays inside
the tables only when `min == 0`. The model follows the code as written
(`HmCountSort.CountingSort`) and models the shifted indexing separately
(`HmCountSort.CountingSortShifted`); see Findings.

## Model

| member | source | states |
|---|---|---|
| RangeReduction.ScanChunk | OMP/Project/HM_Counting_Sort/src/count_sort.c:62-77 | One worker's loop, including its `if > ... else if <` shape, yields the sequential minimum and maximum of its chunk from the seeds. |
| RangeReduction.MinMax | OMP/Project/HM_Counting_Sort/src/count_sort.c:57-85 | After all workers merge in the critical section, `min`/`max` equal one sequential scan of `a[1..N)` from `a[0]` for any contiguous split among workers. The merges run in chunk order, not in every order the critical section allows; since min and max commute, the order does not change the result. `min <= a[i] <= max` for every `i`, both occur in `a`, and for N = 1 both are `a[0]`. |
| RangeReduction.MinFromMerge | OMP/Project/HM_Counting_Sort/src/count_sort.c:78-84 | Merging the minima of two chunks scanned from the same seed equals scanning both chunks together. |
| RangeReduction.MaxFromMerge | OMP/Project/HM_Counting_Sort/src/count_sort.c:78-84 | The same for the maxima. |
| RangeReduction.ChunkMerge | OMP/Project/HM_Counting_Sort/src/count_sort.c:78-84 | Merging the extrema already gathered for `a[1..lo)` with one worker's chunk `a[lo..hi)` gives the extrema of `a[1..hi)`. |
| RangeReduction.MinFromLeast | OMP/Project/WIKI_Counting_Sort/src/count_sort.c:55-84 | The scanned minimum is at most the seed and every element, and it is the seed or an element. |
| RangeReduction.MaxFromGreatest | OMP/Project/WIKI_Counting_Sort/src/count_sort.c:55-84 | The scanned maximum is at least the seed and every element, and it is the seed or an element. |
| RangeReduction.AllEqualRange | OMP/Project/WIKI_Counting_Sort/src/count_sort.c:55-87 | When all elements are equal, `min == max`, so the table has one bucket. |
| Histogram.ZeroFill | OMP/Project/WIKI_Counting_Sort/src/count_sort.c:89-91 | Every bucket of the table is 0 afterwards. |
| Histogram.Tally | OMP/Project/WIKI_Counting_Sort/src/count_sort.c:94-97 | Starting from a cleared table, bucket `k` ends up holding the number of occurrences of `lo + k`; every index `a[i] - lo` is in bounds. |
| Counting.HistSum | OMP/Project/HM_Counting_Sort/src/count_sort.c:90-97 | The buckets of the table sum to N. |
| Counting.ExpandCount | OMP/Project/WIKI_Counting_Sort/src/count_sort.c:100-107 | The expansion holds value `lo + k` exactly `t[k]` times and no other value. |
| Counting.ExpandSorted | OMP/Project/WIKI_Counting_Sort/src/count_sort.c:101-104 | The expansion is non-decreasing and every written value `lo + i` lies in the table's window. |
| Counting.ExpandHistSorts | OMP/Project/WIKI_Counting_Sort/src/count_sort.c:87-107 | Expanding the count table of an input gives a sorted sequence inside `[min, max]` that is multiset-equal to the input. |
| Counting.AllEqualSingleBucket | OMP/Project/WIKI_Counting_Sort/src/count_sort.c:87-107 | When all elements are equal, the single bucket holds N and expanding it gives the input back. |
| Counting.SortIdempotent | OMP/Project/WIKI_Counting_Sort/src/count_sort.c:87-107 | Counting an already sorted input gives it back unchanged. |
| Counting.SortedUnique | OMP/Project/WIKI_Counting_Sort/src/count_sort.c:87-107 | Two sorted sequences with the same multiset are equal. |
| WikiCountSort.EmitBucket | OMP/Project/WIKI_Counting_Sort/src/count_sort.c:102-107 | The `while` loop writes `c[i]` copies of `i + lo` from position `k`, advances `k` by the count, drains the bucket to 0, and touches nothing else. A non-positive count writes nothing. |
| WikiCountSort.ExpandInto | OMP/Project/WIKI_Counting_Sort/src/count_sort.c:100-107 | The front of `a` becomes the expansion of the table and every bucket ends at 0. `k` never passes the table's total, so every write is in bounds. |
| WikiCountSort.CountingSort | OMP/Project/WIKI_Counting_Sort/src/count_sort.c:52-109 | Afterwards `a` is sorted and a permutation of its old contents, and an already sorted array is left unchanged. |
| Counting.PrefixMonotone | OMP/Project/HM_Counting_Sort/src/count_sort.c:99-102 | The running sums of a table without negative entries never decrease and end at the total. |
| Counting.PrefixOfHist | OMP/Project/HM_Counting_Sort/src/count_sort.c:99-102 | Running count `k` is the number of elements at most `lo + k`. The counts are non-decreasing and the last one is N. |
| HmCountSort.AddRunningSum | OMP/Project/HM_Counting_Sort/src/count_sort.c:101-102 | The inner loop adds `b[0] + ... + b[i]` to `d[i]` and leaves every other entry alone. |
| HmCountSort.PrefixCounts | OMP/Project/HM_Counting_Sort/src/count_sort.c:99-102 | The nested loop as written: `d[i]` gains `b[0] + ... + b[i]` on top of whatever it held before. |
| HmCountSort.BuildPrefix | OMP/Project/HM_Counting_Sort/src/count_sort.c:88-102 | With `d` cleared first, `d` holds exactly the running sums of `b`. |
| HmCountSort.PlaceNext | OMP/Project/HM_Counting_Sort/src/count_sort.c:104-108 | One iteration: write position `d[a[i]] - 1` is in `[0, N)` and equals the stable rank of `a[i]`. `c` changes only at that slot and `d` only at that bucket, which drops to the rank. |
| HmCountSort.ScatterStep | OMP/Project/HM_Counting_Sort/src/count_sort.c:104-108 | The same step on values: the slot being written is not the rank of any element placed before it. |
| HmCountSort.ScatterLoop | OMP/Project/HM_Counting_Sort/src/count_sort.c:104-108 | Starting from running counts, the backward loop leaves every element at its stable rank, and each count falls to the number of elements below its value. |
| HmCountSort.Scatter | OMP/Project/HM_Counting_Sort/src/count_sort.c:104-108 | After the backward loop every element sits at its stable rank. `c` is the expansion of the count table, and `d[k]` has fallen to the number of elements below `lo + k`. |
| Counting.RankStable | OMP/Project/HM_Counting_Sort/src/count_sort.c:104-107 | Of two equal elements, the earlier one gets the lower slot: the sort is stable. |
| Counting.RankInjective | OMP/Project/HM_Counting_Sort/src/count_sort.c:104-108 | Distinct elements get distinct slots, so no slot is written twice. |
| Counting.RankBlock | OMP/Project/HM_Counting_Sort/src/count_sort.c:104-108 | The rank of `a[j]` lies after all smaller elements and before all larger ones. |
| Counting.RankPlacementIsExpansion | OMP/Project/HM_Counting_Sort/src/count_sort.c:104-108 | An output holding every element at its stable rank is the expansion of the count table, so every slot is written. |
| HmCountSort.CountAndScatter | OMP/Project/HM_Counting_Sort/src/count_sort.c:87-108 | With buckets at `value - lo`, the tables and the scatter leave in `c` the expansion of the count table. It is sorted, a permutation of `a`, stable, and a copy of `a` when `a` is sorted. |
| HmCountSort.CountingSort | OMP/Project/HM_Counting_Sort/src/count_sort.c:53-111 | As written, with buckets indexed by raw value, so `min == 0` is required. `c` is sorted, a permutation of `a`, stable, and equal to `a` when `a` is sorted; `a` is unchanged. |
| HmCountSort.CountingSortShifted | OMP/Project/HM_Counting_Sort/src/count_sort.c:53-111 | The same routine with buckets indexed by `value - min`, for any input whose range fits an `int`, with the same guarantees. |
| HmCountSort.RawIndexOutsideTable | OMP/Project/HM_Counting_Sort/src/count_sort.c:87-97 | For input `[1, 2]` the table has 2 buckets, yet the raw value 2 is used as a bucket index. |
| HmCountSort.UnclearedPrefixWritesOutside | OMP/Project/HM_Counting_Sort/src/count_sort.c:88-106 | For input `[0]`, any nonzero leftover in the uncleared `d` puts the first write position outside `c`. |

## Left out

- The driver `main.c` is not part of this model: argument parsing, thread-count setup, timing and printing.
- `gen_rand` is not part of this model: it is a wrapper over the C library's random number generator. The sorting routines take any array of C ints.
- OpenMP threads, `nowait`, `critical` and the array `reduction` clauses are modelled as sequential loops, because min, max and `+` are associative and commutative. The range phase keeps the split of the loop among workers as the `schedule` parameter; the other parallel loops are single sequential loops.
- RangeReduction.MinMax: each worker's seed is `a[0]`. In the source a worker that starts after another has finished its critical section may read the already merged `min`/`max` instead (a data race). That value is also an element of `a`, so the result is the same, but this interleaving is not modelled.
- `malloc`/`free` are modelled as fresh Dafny arrays. The source checks no allocation for NULL, so there is no error path to model. The `size_t` product `(max - min + 1) * sizeof(int)` is not modelled.
- HmCountSort.CountingSort: requires every element to be non-negative and 0 to occur. This is exactly when the raw-value indexes at count_sort.c:97 and :106-107 stay inside the `max - min + 1` buckets allocated at :87-88. It is also when the reduction section `b[:max + 1]` at :94-95 matches the allocation. Other inputs are out of bounds in C and have no defined result to model.
- HmCountSort.CountingSort and HmCountSort.CountingSortShifted clear `d` before the nested loop (BuildPrefix), a step the source does not take. The as-written accumulation is modelled by PrefixCounts (see Findings).

## Findings

| source | as written | input that shows it | evidently intended | confidence | as-written member | corrected member |
|---|---|---|---|---|---|---|
| OMP/Project/HM_Counting_Sort/src/count_sort.c:97 | HM indexes `b` and `d` by the raw value `a[i]`, but the tables have only `max - min + 1` buckets. | `a = [1, 2]`: two buckets, yet index 2 is used. | Index by `a[i] - min`, as the WIKI variant does. | not executed | HmCountSort.CountingSort, HmCountSort.RawIndexOutsideTable | HmCountSort.CountingSortShifted |
| OMP/Project/HM_Counting_Sort/src/count_sort.c:102 | `d` comes uninitialised from `malloc` and the nested loop adds into it, so each running count is offset by whatever `d` held. | `a = [0]` with any nonzero leftover in `d[0]`: the write `c[d[0] - 1]` falls outside `c`. | Clear `d` before accumulating into it. | not executed | HmCountSort.PrefixCounts, HmCountSort.UnclearedPrefixWritesOutside | HmCountSort.BuildPrefix |
