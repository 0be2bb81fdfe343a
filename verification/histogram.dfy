/**
 * The histogram phase shared by both variants: the count table is cleared,
 * then every element adds one to its bucket. The bucket of `x` is `x - lo`;
 * the WIKI variant takes `lo` to be the minimum, while the HM variant indexes
 * by the raw value, which is `lo == 0`. The `+` reduction over per-worker
 * copies of the table is run here as one sequential loop.
 */
module Histogram {
  import opened Counting

  /** The loop that sets every bucket of a freshly allocated table to zero. */
  method ZeroFill(b: array<int>)
    modifies b
    ensures forall k :: 0 <= k < b.Length ==> b[k] == 0
  {
    for i := 0 to b.Length
      invariant forall k :: 0 <= k < i ==> b[k] == 0
    {
      b[i] := 0;
    }
  }

  /**
   * The accumulation loop: starting from a cleared table, bucket `k` ends up
   * holding the number of occurrences of `lo + k`. Every bucket index is in
   * bounds because every element lies in the table's window.
   */
  method Tally(a: array<int>, lo: int, b: array<int>)
    requires a != b
    requires InRange(a[..], lo, b.Length)
    requires forall k :: 0 <= k < b.Length ==> b[k] == 0
    modifies b
    ensures b[..] == Hist(a[..], lo, b.Length)
  {
    for i := 0 to a.Length
      invariant forall k :: 0 <= k < b.Length ==> b[k] == multiset(a[..i])[lo + k]
    {
      assert a[..i + 1] == a[..i] + [a[i]];
      b[a[i] - lo] := b[a[i] - lo] + 1;
    }
    assert a[..a.Length] == a[..];
  }
}
