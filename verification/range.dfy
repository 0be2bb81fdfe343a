/**
 * The range phase shared by both variants: every worker of the parallel
 * region scans its chunk of a[1..N) for a local minimum and maximum, seeded
 * with a[0], and then merges them into the shared min and max. Workers run
 * one after another here; the chunks they get are the `schedule` parameter.
 */
module RangeReduction {

  function Min(x: int, y: int): int {
    if x <= y then x else y
  }

  function Max(x: int, y: int): int {
    if x >= y then x else y
  }

  /** The sequential scan: `seed` lowered in turn by every element of `s`. */
  function MinFrom(seed: int, s: seq<int>): int {
    if |s| == 0 then seed else Min(MinFrom(seed, s[..|s| - 1]), s[|s| - 1])
  }

  /** The sequential scan: `seed` raised in turn by every element of `s`. */
  function MaxFrom(seed: int, s: seq<int>): int {
    if |s| == 0 then seed else Max(MaxFrom(seed, s[..|s| - 1]), s[|s| - 1])
  }

  /** The scan yields the least of the seed and the elements, and that value is one of them. */
  lemma {:induction false} MinFromLeast(seed: int, s: seq<int>)
    ensures MinFrom(seed, s) <= seed
    ensures forall i :: 0 <= i < |s| ==> MinFrom(seed, s) <= s[i]
    ensures MinFrom(seed, s) == seed || MinFrom(seed, s) in s
    decreases |s|
  {
    if |s| > 0 {
      var u := s[..|s| - 1];
      MinFromLeast(seed, u);
      assert s == u + [s[|s| - 1]];
    }
  }

  /** The scan yields the greatest of the seed and the elements, and that value is one of them. */
  lemma {:induction false} MaxFromGreatest(seed: int, s: seq<int>)
    ensures MaxFrom(seed, s) >= seed
    ensures forall i :: 0 <= i < |s| ==> MaxFrom(seed, s) >= s[i]
    ensures MaxFrom(seed, s) == seed || MaxFrom(seed, s) in s
    decreases |s|
  {
    if |s| > 0 {
      var u := s[..|s| - 1];
      MaxFromGreatest(seed, u);
      assert s == u + [s[|s| - 1]];
    }
  }

  /**
   * Merging the minima of two chunks, each scanned from the same seed,
   * gives the minimum of one scan over both chunks.
   */
  lemma {:induction false} MinFromMerge(seed: int, s: seq<int>, t: seq<int>)
    ensures MinFrom(seed, s + t) == Min(MinFrom(seed, s), MinFrom(seed, t))
    decreases |t|
  {
    if |t| == 0 {
      assert s + t == s;
      MinFromLeast(seed, s);
    } else {
      var u := t[..|t| - 1];
      assert (s + t)[..|s + t| - 1] == s + u;
      MinFromMerge(seed, s, u);
    }
  }

  /**
   * Merging the maxima of two chunks, each scanned from the same seed,
   * gives the maximum of one scan over both chunks.
   */
  lemma {:induction false} MaxFromMerge(seed: int, s: seq<int>, t: seq<int>)
    ensures MaxFrom(seed, s + t) == Max(MaxFrom(seed, s), MaxFrom(seed, t))
    decreases |t|
  {
    if |t| == 0 {
      assert s + t == s;
      MaxFromGreatest(seed, s);
    } else {
      var u := t[..|t| - 1];
      assert (s + t)[..|s + t| - 1] == s + u;
      MaxFromMerge(seed, s, u);
    }
  }

  /** Scanning a[1..lo) and a[lo..hi) separately and merging is scanning a[1..hi). */
  lemma ChunkMerge(s: seq<int>, seed: int, lo: int, hi: int)
    requires 1 <= lo <= hi <= |s|
    ensures MinFrom(seed, s[1..hi]) == Min(MinFrom(seed, s[1..lo]), MinFrom(seed, s[lo..hi]))
    ensures MaxFrom(seed, s[1..hi]) == Max(MaxFrom(seed, s[1..lo]), MaxFrom(seed, s[lo..hi]))
  {
    assert s[1..lo] + s[lo..hi] == s[1..hi];
    MinFromMerge(seed, s[1..lo], s[lo..hi]);
    MaxFromMerge(seed, s[1..lo], s[lo..hi]);
  }

  /** When every element equals `v`, both scans give `v`: the range has a single value. */
  lemma AllEqualRange(s: seq<int>, v: int)
    requires |s| >= 1 && forall i :: 0 <= i < |s| ==> s[i] == v
    ensures MinFrom(s[0], s[1..]) == v == MaxFrom(s[0], s[1..])
  {
    MinFromLeast(s[0], s[1..]);
    MaxFromGreatest(s[0], s[1..]);
  }

  /**
   * A static schedule of the loop over [1, n): worker `t` gets the indices
   * [schedule[t], schedule[t + 1]); the chunks are contiguous, in order and
   * cover the whole range.
   */
  predicate ValidSchedule(schedule: seq<int>, n: int) {
    && |schedule| >= 2
    && schedule[0] == 1
    && schedule[|schedule| - 1] == n
    && forall t, u :: 0 <= t <= u < |schedule| ==> schedule[t] <= schedule[u]
  }

  /**
   * One worker's share of the `omp for` loop: the local extrema start at the
   * seeds and each element either raises the maximum or else may lower the
   * minimum. The `else` is sound because the local minimum never exceeds the
   * local maximum.
   */
  method ScanChunk(a: array<int>, lo: int, hi: int, seedMin: int, seedMax: int)
    returns (localMin: int, localMax: int)
    requires 0 <= lo <= hi <= a.Length && seedMin <= seedMax
    ensures localMin == MinFrom(seedMin, a[lo..hi])
    ensures localMax == MaxFrom(seedMax, a[lo..hi])
  {
    localMin, localMax := seedMin, seedMax;
    for i := lo to hi
      invariant localMin == MinFrom(seedMin, a[lo..i])
      invariant localMax == MaxFrom(seedMax, a[lo..i])
      invariant localMin <= localMax
    {
      assert a[lo..i + 1][..i - lo] == a[lo..i];
      var x := a[i];
      if x > localMax {
        localMax := x;
      } else if x < localMin {
        localMin := x;
      }
    }
  }

  /**
   * The whole range phase: each worker scans its chunk from a[0] and merges
   * its local extrema into the shared ones. The result is the same as one
   * sequential scan of a[1..N) from a[0], whatever the schedule, and it is
   * the least and the greatest element of the array. For N = 1 every chunk
   * is empty and min == max == a[0].
   */
  method MinMax(a: array<int>, schedule: seq<int>) returns (min: int, max: int)
    requires a.Length >= 1 && ValidSchedule(schedule, a.Length)
    ensures min == MinFrom(a[0], a[1..]) && max == MaxFrom(a[0], a[1..])
    ensures forall i :: 0 <= i < a.Length ==> min <= a[i] <= max
    ensures min in a[..] && max in a[..]
    ensures a.Length == 1 ==> min == a[0] == max
  {
    min, max := a[0], a[0];
    for t := 0 to |schedule| - 1
      invariant min == MinFrom(a[0], a[1..schedule[t]])
      invariant max == MaxFrom(a[0], a[1..schedule[t]])
    {
      var lo, hi := schedule[t], schedule[t + 1];
      assert schedule[0] <= lo <= hi <= schedule[|schedule| - 1];
      var localMin, localMax := ScanChunk(a, lo, hi, a[0], a[0]);
      // the critical section
      if localMax > max {
        max := localMax;
      }
      if localMin < min {
        min := localMin;
      }
      ChunkMerge(a[..], a[0], lo, hi);
    }
    assert a[1..schedule[|schedule| - 1]] == a[1..];
    MinFromLeast(a[0], a[1..]);
    MaxFromGreatest(a[0], a[1..]);
    assert a[..] == [a[0]] + a[1..];
    if a.Length == 1 {
      assert a[1..] == [];
    }
  }
}
