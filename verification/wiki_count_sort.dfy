/**
 * The WIKI variant: `countingSort(a, N)` finds the range, fills a count
 * table `c` of `max - min + 1` buckets indexed by `value - min`, and then
 * writes the table back over `a`, bucket by bucket, each value as many times
 * as it was counted. The array ends up sorted and holding the same elements;
 * the table ends up all zero.
 */
module WikiCountSort {
  import opened Counting
  import opened RangeReduction
  import opened Histogram

  /**
   * The inner `while` loop for bucket `i`: while the count is positive, store
   * `i + lo` at position `next` and take one off the count. A positive count
   * `n` writes `n` copies at positions k..k+n-1 and drops to zero; a count
   * that is not positive writes nothing and stays as it is.
   */
  method EmitBucket(a: array<int>, c: array<int>, i: int, lo: int, k: int) returns (next: int)
    requires a != c && 0 <= i < c.Length && 0 <= k
    requires k + (if c[i] > 0 then c[i] else 0) <= a.Length
    modifies a, c
    ensures next == k + (if old(c[i]) > 0 then old(c[i]) else 0)
    ensures a[..next] == old(a[..k]) + Repeat(lo + i, old(c[i]))
    ensures a[next..] == old(a[next..])
    ensures c[i] == (if old(c[i]) > 0 then 0 else old(c[i]))
    ensures forall j :: 0 <= j < c.Length && j != i ==> c[j] == old(c[j])
  {
    ghost var n := c[i];
    ghost var m := if n > 0 then n else 0;
    next := k;
    while c[i] > 0
      invariant 0 <= next - k <= m && c[i] == n - (next - k)
      invariant a[..next] == old(a[..k]) + Repeat(lo + i, next - k)
      invariant a[k + m..] == old(a[k + m..])
      invariant forall j :: 0 <= j < c.Length && j != i ==> c[j] == old(c[j])
      decreases c[i]
    {
      ghost var prev := a[..next];
      RepeatSnoc(lo + i, next - k);
      a[next] := i + lo;
      assert a[..next + 1] == prev + [lo + i];
      next := next + 1;
      c[i] := c[i] - 1;
    }
  }

  /**
   * The write-back loop: the buckets in ascending order, each written out by
   * EmitBucket. The front of `a` becomes the expansion of the table, the
   * positions past the table's total are left alone, and every bucket is
   * drained to zero.
   */
  method ExpandInto(a: array<int>, c: array<int>, lo: int)
    requires a != c && NonNeg(c[..]) && Sum(c[..]) <= a.Length
    modifies a, c
    ensures a[..] == Expand(old(c[..]), lo) + old(a[Sum(c[..])..])
    ensures forall m :: 0 <= m < c.Length ==> c[m] == 0
  {
    ghost var t := c[..];
    ghost var total := Sum(t);
    ghost var rest := a[total..];
    var k := 0;
    for i := 0 to c.Length
      invariant k == Sum(t[..i]) <= total
      invariant a[..k] == Expand(t[..i], lo)
      invariant a[total..] == rest
      invariant forall m :: 0 <= m < i ==> c[m] == 0
      invariant forall m :: i <= m < c.Length ==> c[m] == t[m]
    {
      assert t[..i + 1][..i] == t[..i];
      SumPrefixLe(t, i + 1);
      ExpandStep(t, lo, i);
      ghost var before := a[..];
      k := EmitBucket(a, c, i, lo, k);
      assert a[total..] == a[k..][total - k..] == before[k..][total - k..];
    }
    assert t[..c.Length] == t;
    assert a[..] == a[..k] + a[k..];
  }

  /**
   * The whole routine: range phase, cleared table, histogram, write-back.
   * The array ends up sorted and a permutation of its old contents, and an
   * already sorted array is left as it was. By SortedUnique these pin the
   * result down: it is the one sorted arrangement of the input, the same
   * one the HM variant writes into its output array.
   */
  method CountingSort(a: array<int>, schedule: seq<int>)
    requires a.Length >= 1 && ValidSchedule(schedule, a.Length)
    requires FitsInt(a[..])
    modifies a
    ensures Sorted(a[..]) && multiset(a[..]) == multiset(old(a[..]))
    ensures Sorted(old(a[..])) ==> a[..] == old(a[..])
  {
    ghost var s := a[..];
    var min, max := MinMax(a, schedule);
    var size := max - min + 1;
    assert IsInt(size);
    var c := new int[size];
    ZeroFill(c);
    Tally(a, min, c);
    HistSum(s, min, size);
    ExpandInto(a, c, min);
    assert a[..] == Expand(Hist(s, min, size), min);
    ExpandHistSorts(s, min, size);
    if Sorted(s) {
      SortIdempotent(s, min, size);
    }
  }
}
