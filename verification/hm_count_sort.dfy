/**
 * The HM variant: `countingSort(a, c, N)` finds the range, builds the count
 * table `b`, turns it into the table `d` of running counts with a nested
 * loop, and then scans `a` backwards, placing each element at the slot just
 * below its running count and decrementing that count. The output goes to the
 * separate array `c`, is sorted, is a permutation of `a`, and keeps equal
 * elements in their input order; `a` is only read.
 *
 * As written, the variant indexes both tables by the raw value, which stays
 * inside the `max - min + 1` buckets only when the minimum is 0
 * (`CountingSort`); `CountingSortShifted` is the same routine indexing by
 * `value - min`. As written, `d` is also never cleared before the nested loop
 * adds into it (`PrefixCounts`); both routines build it with `BuildPrefix`,
 * which clears it first.
 */
module HmCountSort {
  import opened Counting
  import opened RangeReduction
  import opened Histogram

  /**
   * The inner loop for entry `i`: adds b[0] + ... + b[i] to `d[i]` and
   * leaves every other entry alone.
   */
  method AddRunningSum(b: array<int>, d: array<int>, i: int)
    requires b != d && b.Length == d.Length && 0 <= i < d.Length
    modifies d
    ensures d[i] == old(d[i]) + Sum(b[..i + 1])
    ensures forall k :: 0 <= k < d.Length && k != i ==> d[k] == old(d[k])
  {
    for j := 0 to i + 1
      invariant d[i] == old(d[i]) + Sum(b[..j])
      invariant forall k :: 0 <= k < d.Length && k != i ==> d[k] == old(d[k])
    {
      assert b[..j + 1][..j] == b[..j];
      d[i] := d[i] + b[j];
    }
  }

  /**
   * The nested loop as written: entry `i` of `d` gains b[0] + ... + b[i] on
   * top of whatever it already held.
   */
  method PrefixCounts(b: array<int>, d: array<int>)
    requires b != d && b.Length == d.Length
    modifies d
    ensures forall i :: 0 <= i < d.Length ==> d[i] == old(d[i]) + Sum(b[..i + 1])
  {
    for i := 0 to d.Length
      invariant forall k :: 0 <= k < i ==> d[k] == old(d[k]) + Sum(b[..k + 1])
      invariant forall k :: i <= k < d.Length ==> d[k] == old(d[k])
    {
      AddRunningSum(b, d, i);
    }
  }

  /**
   * Allocates `d`, clears it (a step the source leaves out: its `d` comes
   * uninitialised from malloc) and runs the nested loop, so that `d` holds
   * the running counts of `b`.
   */
  method BuildPrefix(b: array<int>) returns (d: array<int>)
    ensures fresh(d)
    ensures d[..] == Prefix(b[..])
  {
    d := new int[b.Length];
    ZeroFill(d);
    PrefixCounts(b, d);
  }

  /** The running counts while the scatter has elements 0..i-1 still to place. */
  ghost predicate Pending(s: seq<int>, lo: int, d: seq<int>, i: int)
    requires 0 <= i <= |s|
  {
    forall k {:trigger d[k]} :: 0 <= k < |d| ==> d[k] == CountLess(s, lo + k) + multiset(s[..i])[lo + k]
  }

  /** Elements i..N-1 already sit at their stable ranks in `c`. */
  ghost predicate PlacedFrom(s: seq<int>, c: seq<int>, i: int)
    requires 0 <= i <= |s|
  {
    forall j {:trigger Rank(s, j)} :: i <= j < |s| ==> 0 <= Rank(s, j) < |c| && c[Rank(s, j)] == s[j]
  }

  /**
   * One step of the backward scatter, on values, with elements 0..i-1 still
   * to place: the running count of the bucket of element `i - 1` is one more
   * than its rank, so the element goes to its rank, which no element placed
   * before it occupies, and decrementing the count leaves the tables as they
   * should be for the next step.
   */
  lemma ScatterStep(s: seq<int>, lo: int, d: seq<int>, c: seq<int>, i: int)
    requires InRange(s, lo, |d|) && |c| == |s| && 0 < i <= |s|
    requires Pending(s, lo, d, i) && PlacedFrom(s, c, i)
    ensures 0 <= s[i - 1] - lo < |d|
    ensures d[s[i - 1] - lo] - 1 == Rank(s, i - 1) && 0 <= Rank(s, i - 1) < |c|
    ensures Pending(s, lo, d[s[i - 1] - lo := Rank(s, i - 1)], i - 1)
    ensures PlacedFrom(s, c[Rank(s, i - 1) := s[i - 1]], i - 1)
  {
    var j := i - 1;
    assert s[..j + 1] == s[..j] + [s[j]];
    RankBlock(s, j);
    forall k | j < k < |s|
      ensures Rank(s, k) != Rank(s, j)
    {
      RankInjective(s, j, k);
    }
  }

  /** Before the scatter, the running counts are those with every element still to place. */
  lemma ScatterStart(s: seq<int>, lo: int, d: seq<int>)
    requires InRange(s, lo, |d|) && d == Prefix(Hist(s, lo, |d|))
    ensures Pending(s, lo, d, |s|)
  {
    PrefixOfHist(s, lo, |d|);
    assert s[..|s|] == s;
  }

  /** What the finished scatter leaves behind, on values. */
  lemma ScatterDone(s: seq<int>, lo: int, d: seq<int>, c: seq<int>)
    requires InRange(s, lo, |d|) && |c| == |s|
    requires Pending(s, lo, d, 0) && PlacedFrom(s, c, 0)
    ensures forall j :: 0 <= j < |s| ==> 0 <= Rank(s, j) < |c| && c[Rank(s, j)] == s[j]
    ensures c == Expand(Hist(s, lo, |d|), lo)
    ensures forall k :: 0 <= k < |d| ==> d[k] == CountLess(s, lo + k)
  {
    assert s[..0] == [];
    RankPlacementIsExpansion(s, lo, |d|, c);
  }

  /**
   * One iteration of the backward scatter: element `i - 1` is written to the
   * slot below its running count, which is its stable rank, and that count
   * is decremented to the rank.
   */
  method PlaceNext(a: array<int>, lo: int, d: array<int>, c: array<int>, i: int)
    requires a != c && d != c && a != d && c.Length == a.Length
    requires InRange(a[..], lo, d.Length) && 0 < i <= a.Length
    requires Pending(a[..], lo, d[..], i) && PlacedFrom(a[..], c[..], i)
    modifies c, d
    ensures 0 <= a[i - 1] - lo < d.Length && 0 <= Rank(a[..], i - 1) < c.Length
    ensures c[..] == old(c[..])[Rank(a[..], i - 1) := a[i - 1]]
    ensures d[..] == old(d[..])[a[i - 1] - lo := Rank(a[..], i - 1)]
    ensures Pending(a[..], lo, d[..], i - 1) && PlacedFrom(a[..], c[..], i - 1)
  {
    ghost var s, d0, c0, x, r := a[..], d[..], c[..], a[i - 1], Rank(a[..], i - 1);
    ScatterStep(s, lo, d0, c0, i);
    var v := a[i - 1];
    var p := d[v - lo] - 1;
    c[p] := v;
    d[v - lo] := p;
    assert c[..] == c0[r := x];
    assert d[..] == d0[x - lo := r];
  }

  /**
   * The backward loop, from the state in which `d[k]` counts the elements at
   * most `lo + k`. Element `i`, taken from N - 1 down to 0, goes to slot
   * `d[a[i] - lo] - 1`, which is its stable rank; the count is then
   * decremented. At the end every element sits at its stable rank and `d[k]`
   * has fallen to the number of elements below `lo + k`.
   */
  method ScatterLoop(a: array<int>, lo: int, d: array<int>, c: array<int>)
    requires a != c && d != c && a != d && c.Length == a.Length
    requires InRange(a[..], lo, d.Length)
    requires Pending(a[..], lo, d[..], a.Length)
    modifies c, d
    ensures Pending(a[..], lo, d[..], 0) && PlacedFrom(a[..], c[..], 0)
  {
    // `i` counts the elements still to place; the next one is a[i - 1]
    var i := a.Length;
    while i > 0
      invariant 0 <= i <= a.Length
      invariant Pending(a[..], lo, d[..], i)
      invariant PlacedFrom(a[..], c[..], i)
    {
      PlaceNext(a, lo, d, c, i);
      i := i - 1;
    }
  }

  /**
   * The backward scatter, from the running counts the nested loop builds.
   * Every element ends up at its stable rank, the output is the expansion
   * of the count table, and `d[k]` has fallen to the number of elements
   * below `lo + k`.
   */
  method Scatter(a: array<int>, lo: int, d: array<int>, c: array<int>)
    requires a != c && d != c && a != d && c.Length == a.Length
    requires InRange(a[..], lo, d.Length)
    requires d[..] == Prefix(Hist(a[..], lo, d.Length))
    modifies c, d
    ensures forall j :: 0 <= j < a.Length ==>
      0 <= Rank(a[..], j) < c.Length && c[Rank(a[..], j)] == a[j]
    ensures c[..] == Expand(Hist(a[..], lo, d.Length), lo)
    ensures forall k :: 0 <= k < d.Length ==> d[k] == CountLess(a[..], lo + k)
  {
    ScatterStart(a[..], lo, d[..]);
    ScatterLoop(a, lo, d, c);
    ScatterDone(a[..], lo, d[..], c[..]);
  }

  /**
   * Everything after the range phase, with the bucket of value `x` at index
   * `x - lo`: clear and fill the count table `b`, build the running counts
   * `d`, scatter into `c`. The output is the expansion of the count table,
   * hence sorted and a permutation of `a`; every element lands at its stable
   * rank; an already sorted input is copied unchanged.
   */
  method CountAndScatter(a: array<int>, c: array<int>, lo: int, size: nat)
    requires c.Length == a.Length && a != c
    requires InRange(a[..], lo, size)
    modifies c
    ensures c[..] == Expand(Hist(a[..], lo, size), lo)
    ensures Sorted(c[..]) && multiset(c[..]) == multiset(a[..])
    ensures forall j :: 0 <= j < a.Length ==>
      0 <= Rank(a[..], j) < c.Length && c[Rank(a[..], j)] == a[j]
    ensures Sorted(a[..]) ==> c[..] == a[..]
  {
    var b := new int[size];
    ZeroFill(b);
    Tally(a, lo, b);
    var d := BuildPrefix(b);
    Scatter(a, lo, d, c);
    ExpandHistSorts(a[..], lo, size);
    if Sorted(a[..]) {
      SortIdempotent(a[..], lo, size);
    }
  }

  /**
   * The routine as written, bucket index = raw value. That is in bounds only
   * when no element is negative and 0 occurs, i.e. when min == 0. The output
   * is sorted, a permutation of `a`, each element lands at its stable rank
   * (see RankStable), and an already sorted input is copied unchanged.
   */
  method CountingSort(a: array<int>, c: array<int>, schedule: seq<int>)
    requires a.Length >= 1 && c.Length == a.Length && a != c
    requires ValidSchedule(schedule, a.Length)
    requires FitsInt(a[..])
    requires forall i :: 0 <= i < a.Length ==> 0 <= a[i]
    requires 0 in a[..]
    modifies c
    ensures unchanged(a)
    ensures Sorted(c[..]) && multiset(c[..]) == multiset(a[..])
    ensures forall j :: 0 <= j < a.Length ==>
      0 <= Rank(a[..], j) < c.Length && c[Rank(a[..], j)] == a[j]
    ensures Sorted(a[..]) ==> c[..] == a[..]
  {
    var min, max := MinMax(a, schedule);
    assert min == 0;
    var size := max - min + 1;
    assert IsInt(size);
    CountAndScatter(a, c, 0, size);
  }

  /**
   * The same routine with both tables indexed by `value - min`, as the WIKI
   * variant indexes its table; it sorts any input whose range fits an int.
   */
  method CountingSortShifted(a: array<int>, c: array<int>, schedule: seq<int>)
    requires a.Length >= 1 && c.Length == a.Length && a != c
    requires ValidSchedule(schedule, a.Length)
    requires FitsInt(a[..])
    modifies c
    ensures unchanged(a)
    ensures Sorted(c[..]) && multiset(c[..]) == multiset(a[..])
    ensures forall j :: 0 <= j < a.Length ==>
      0 <= Rank(a[..], j) < c.Length && c[Rank(a[..], j)] == a[j]
    ensures Sorted(a[..]) ==> c[..] == a[..]
  {
    var min, max := MinMax(a, schedule);
    var size := max - min + 1;
    assert IsInt(size);
    CountAndScatter(a, c, min, size);
  }

  /**
   * Input [1, 2]: the range phase gives min 1 and max 2, so the tables get
   * two buckets, yet the raw value 2 is used as a bucket index.
   */
  lemma RawIndexOutsideTable()
    ensures var s := [1, 2];
      var size := MaxFrom(s[0], s[1..]) - MinFrom(s[0], s[1..]) + 1;
      size == 2 && !(0 <= s[1] < size)
  {
    var s := [1, 2];
    assert s[1..] == [2];
    assert [2][..0] == [];
  }

  /**
   * Input [0] with a nonzero leftover in the uncleared `d`: after the nested
   * loop, the first write position `d[a[0]] - 1` is outside `c`.
   */
  lemma UnclearedPrefixWritesOutside(leftover: int)
    requires leftover != 0
    ensures var s := [0];
      var first := leftover + Prefix(Hist(s, 0, 1))[0];
      !(0 <= first - 1 < |s|)
  {
    var s := [0];
    assert Hist(s, 0, 1) == [1];
    assert Hist(s, 0, 1)[..1] == [1];
  }
}
