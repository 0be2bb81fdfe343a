/**
 * Value-level definitions shared by both counting-sort variants: the count
 * table of an input over a window of values, its running (prefix) sums, the
 * sorted sequence a count table expands back into, and the stable rank of
 * each input element. The lemmas connect them: expanding the count table of
 * an input yields a sorted permutation of it, and placing every element at
 * its stable rank yields that same expansion.
 */
module Counting {

  /** Bounds of the C `int` the routines compute with. */
  const INT_MIN: int := -0x8000_0000
  const INT_MAX: int := 0x7fff_ffff

  predicate IsInt(x: int) {
    INT_MIN <= x <= INT_MAX
  }

  /**
   * The input is an array of C ints whose length N is an int and for which
   * the table size `max - min + 1` does not overflow an int.
   */
  predicate FitsInt(s: seq<int>) {
    && |s| <= INT_MAX
    && (forall i :: 0 <= i < |s| ==> IsInt(s[i]))
    && (forall i, j :: 0 <= i < |s| && 0 <= j < |s| ==> s[i] - s[j] < INT_MAX)
  }

  predicate Sorted(s: seq<int>) {
    forall i, j :: 0 <= i < j < |s| ==> s[i] <= s[j]
  }

  /** Every element, shifted by `lo`, is an index into a table of `size` buckets. */
  predicate InRange(s: seq<int>, lo: int, size: int) {
    forall i :: 0 <= i < |s| ==> lo <= s[i] < lo + size
  }

  predicate NonNeg(t: seq<int>) {
    forall k :: 0 <= k < |t| ==> 0 <= t[k]
  }

  function Sum(t: seq<int>): (r: int)
    ensures NonNeg(t) ==> 0 <= r
  {
    if |t| == 0 then 0 else Sum(t[..|t| - 1]) + t[|t| - 1]
  }

  /** `n` copies of `v`; none at all when `n` is not positive. */
  function Repeat(v: int, n: int): seq<int> {
    seq(if n <= 0 then 0 else n, _ => v)
  }

  /** The count table: bucket `k` holds the number of occurrences of `lo + k` in `s`. */
  function Hist(s: seq<int>, lo: int, size: nat): seq<int> {
    seq(size, k => multiset(s)[lo + k])
  }

  /** Inclusive running sums: entry `i` is `t[0] + ... + t[i]`. */
  function Prefix(t: seq<int>): seq<int> {
    seq(|t|, i requires 0 <= i < |t| => Sum(t[..i + 1]))
  }

  /** Bucket `k` of `t` written out as `t[k]` copies of `lo + k`, buckets in ascending order. */
  function Expand(t: seq<int>, lo: int): seq<int> {
    if |t| == 0 then [] else Expand(t[..|t| - 1], lo) + Repeat(lo + |t| - 1, t[|t| - 1])
  }

  /** The number of elements of `s` strictly below `v`. */
  function CountLess(s: seq<int>, v: int): nat {
    if |s| == 0 then 0
    else CountLess(s[..|s| - 1], v) + (if s[|s| - 1] < v then 1 else 0)
  }

  /**
   * The stable position of element `j`: after every smaller element, and
   * after every earlier element equal to it.
   */
  function Rank(s: seq<int>, j: int): int
    requires 0 <= j < |s|
  {
    CountLess(s, s[j]) + multiset(s[..j])[s[j]]
  }

  // ---------------------------------------------------------------------
  // Repeat, Sum and Expand

  /** One more copy is one more element at the end. */
  lemma RepeatSnoc(v: int, n: int)
    requires 0 <= n
    ensures Repeat(v, n + 1) == Repeat(v, n) + [v]
  {
    assert forall i :: 0 <= i < n + 1 ==> Repeat(v, n + 1)[i] == (Repeat(v, n) + [v])[i];
  }

  lemma {:induction false} RepeatCount(v: int, n: int, x: int)
    ensures multiset(Repeat(v, n))[x] == if x == v && n > 0 then n else 0
    decreases n
  {
    if n > 0 {
      RepeatCount(v, n - 1, x);
      RepeatSnoc(v, n - 1);
    }
  }

  /** With no negative entries, every prefix sum is between zero and the total. */
  lemma {:induction false} SumPrefixLe(t: seq<int>, i: int)
    requires NonNeg(t) && 0 <= i <= |t|
    ensures 0 <= Sum(t[..i]) <= Sum(t)
    decreases |t|
  {
    if |t| > 0 {
      var u := t[..|t| - 1];
      if i < |t| {
        assert u[..i] == t[..i];
        SumPrefixLe(u, i);
      } else {
        assert u[..|u|] == u;
        SumPrefixLe(u, |u|);
        assert t[..i] == t;
      }
    }
  }

  /** Running sum `i` is the sum of the first `i + 1` entries. */
  lemma PrefixAt(t: seq<int>, i: int)
    requires 0 <= i < |t|
    ensures Prefix(t)[i] == Sum(t[..i + 1])
  {
  }

  /** Without negative entries, a later running sum is at least an earlier one. */
  lemma PrefixLe(t: seq<int>, i: int, j: int)
    requires NonNeg(t) && 0 <= i <= j < |t|
    ensures Prefix(t)[i] <= Prefix(t)[j]
  {
    var w := t[..j + 1];
    assert NonNeg(w);
    assert w[..i + 1] == t[..i + 1];
    SumPrefixLe(w, i + 1);
    PrefixAt(t, i);
    PrefixAt(t, j);
  }

  /** The running sums of a table without negative entries never decrease and end at its total. */
  lemma PrefixMonotone(t: seq<int>)
    requires NonNeg(t)
    ensures forall i, j :: 0 <= i <= j < |t| ==> Prefix(t)[i] <= Prefix(t)[j]
    ensures |t| > 0 ==> Prefix(t)[|t| - 1] == Sum(t)
  {
    forall i, j | 0 <= i <= j < |t|
      ensures Prefix(t)[i] <= Prefix(t)[j]
    {
      PrefixLe(t, i, j);
    }
    if |t| > 0 {
      PrefixAt(t, |t| - 1);
      assert t[..|t|] == t;
    }
  }

  lemma {:induction false} ExpandLength(t: seq<int>, lo: int)
    requires NonNeg(t)
    ensures |Expand(t, lo)| == Sum(t)
    decreases |t|
  {
    if |t| > 0 {
      ExpandLength(t[..|t| - 1], lo);
    }
  }

  /** An expansion is non-decreasing and holds only values of its buckets. */
  lemma {:induction false} ExpandSorted(t: seq<int>, lo: int)
    ensures Sorted(Expand(t, lo))
    ensures InRange(Expand(t, lo), lo, |t|)
    decreases |t|
  {
    if |t| > 0 {
      var e := Expand(t[..|t| - 1], lo);
      var r := Repeat(lo + |t| - 1, t[|t| - 1]);
      ExpandSorted(t[..|t| - 1], lo);
      assert Expand(t, lo) == e + r;
      forall i, j | 0 <= i < j < |e + r|
        ensures (e + r)[i] <= (e + r)[j]
      {
        if j < |e| {
          assert (e + r)[i] == e[i] && (e + r)[j] == e[j];
        } else if i < |e| {
          assert (e + r)[i] == e[i] && (e + r)[j] == r[j - |e|];
        } else {
          assert (e + r)[i] == r[i - |e|] && (e + r)[j] == r[j - |e|];
        }
      }
      forall i | 0 <= i < |e + r|
        ensures lo <= (e + r)[i] < lo + |t|
      {
        if i < |e| {
          assert (e + r)[i] == e[i];
        } else {
          assert (e + r)[i] == r[i - |e|];
        }
      }
    }
  }

  /** Expanding one more bucket appends that bucket's copies. */
  lemma ExpandStep(t: seq<int>, lo: int, i: int)
    requires 0 <= i < |t|
    ensures Expand(t[..i + 1], lo) == Expand(t[..i], lo) + Repeat(lo + i, t[i])
  {
    assert t[..i + 1][..i] == t[..i];
  }

  /** Peeling the last bucket off an expansion splits the occurrences of `x` between the two parts. */
  lemma ExpandLastCount(t: seq<int>, lo: int, x: int)
    requires |t| > 0
    ensures multiset(Expand(t, lo))[x] ==
      multiset(Expand(t[..|t| - 1], lo))[x] + multiset(Repeat(lo + |t| - 1, t[|t| - 1]))[x]
  {
    assert Expand(t, lo) == Expand(t[..|t| - 1], lo) + Repeat(lo + |t| - 1, t[|t| - 1]);
  }

  /** Value `x` occurs in an expansion exactly as often as its bucket says. */
  lemma {:induction false} ExpandCount(t: seq<int>, lo: int, x: int)
    requires NonNeg(t)
    ensures multiset(Expand(t, lo))[x] == if lo <= x < lo + |t| then t[x - lo] else 0
    decreases |t|
  {
    if |t| > 0 {
      assert NonNeg(t[..|t| - 1]) && 0 <= t[|t| - 1];
      ExpandLastCount(t, lo, x);
      ExpandCount(t[..|t| - 1], lo, x);
      RepeatCount(lo + |t| - 1, t[|t| - 1], x);
    }
  }

  /**
   * Position `p` of an expansion lies in the block of its own bucket: after
   * the elements of all lower buckets and before those of all higher ones.
   */
  lemma {:induction false} ExpandAt(t: seq<int>, lo: int, p: int)
    requires NonNeg(t) && 0 <= p < Sum(t)
    ensures |Expand(t, lo)| == Sum(t)
    ensures lo <= Expand(t, lo)[p] < lo + |t|
    ensures Sum(t[..Expand(t, lo)[p] - lo]) <= p < Sum(t[..Expand(t, lo)[p] - lo + 1])
    decreases |t|
  {
    ExpandLength(t, lo);
    var n := |t|;
    var u := t[..n - 1];
    var r := Repeat(lo + n - 1, t[n - 1]);
    ExpandLength(u, lo);
    assert Expand(t, lo) == Expand(u, lo) + r;
    if p < Sum(u) {
      ExpandAt(u, lo, p);
      var w := Expand(u, lo)[p];
      assert Expand(t, lo)[p] == w;
      assert t[..w - lo] == u[..w - lo];
      assert t[..w - lo + 1] == u[..w - lo + 1];
    } else {
      assert Expand(t, lo)[p] == r[p - Sum(u)];
      assert t[..n] == t;
    }
  }

  // ---------------------------------------------------------------------
  // Counting elements below a value

  lemma {:induction false} CountLessLe(s: seq<int>, v: int)
    ensures CountLess(s, v) <= |s|
    decreases |s|
  {
    if |s| > 0 {
      CountLessLe(s[..|s| - 1], v);
    }
  }

  /** Raising the bound by one adds the occurrences of the old bound. */
  lemma {:induction false} CountLessStep(s: seq<int>, v: int)
    ensures CountLess(s, v + 1) == CountLess(s, v) + multiset(s)[v]
    decreases |s|
  {
    if |s| > 0 {
      var u := s[..|s| - 1];
      CountLessStep(u, v);
      assert s == u + [s[|s| - 1]];
    }
  }

  lemma {:induction false} CountLessMono(s: seq<int>, v: int, w: int)
    requires v <= w
    ensures CountLess(s, v) <= CountLess(s, w)
    decreases |s|
  {
    if |s| > 0 {
      CountLessMono(s[..|s| - 1], v, w);
    }
  }

  /** Nothing of an in-range input is below the window; all of it is below its end. */
  lemma {:induction false} CountLessOutside(s: seq<int>, lo: int, size: int)
    requires InRange(s, lo, size)
    ensures CountLess(s, lo) == 0
    ensures CountLess(s, lo + size) == |s|
    decreases |s|
  {
    if |s| > 0 {
      CountLessOutside(s[..|s| - 1], lo, size);
    }
  }

  // ---------------------------------------------------------------------
  // The count table and its running sums

  /** The first `k` buckets of the count table hold exactly the elements below `lo + k`. */
  lemma {:induction false} HistPrefix(s: seq<int>, lo: int, size: nat, k: nat)
    requires InRange(s, lo, size) && k <= size
    ensures Sum(Hist(s, lo, size)[..k]) == CountLess(s, lo + k)
    decreases k
  {
    var h := Hist(s, lo, size);
    if k == 0 {
      CountLessOutside(s, lo, size);
    } else {
      HistPrefix(s, lo, size, k - 1);
      assert h[..k][..k - 1] == h[..k - 1];
      CountLessStep(s, lo + k - 1);
    }
  }

  /** The counts of an in-range input add up to its length. */
  lemma HistSum(s: seq<int>, lo: int, size: nat)
    requires InRange(s, lo, size)
    ensures Sum(Hist(s, lo, size)) == |s|
  {
    HistPrefix(s, lo, size, size);
    assert Hist(s, lo, size)[..size] == Hist(s, lo, size);
    CountLessOutside(s, lo, size);
  }

  /**
   * The running sums of the count table: entry `k` is the number of
   * elements at most `lo + k`; the entries never decrease and the last is
   * the length of the input.
   */
  lemma PrefixOfHist(s: seq<int>, lo: int, size: nat)
    requires InRange(s, lo, size)
    ensures forall k :: 0 <= k < size ==>
      Prefix(Hist(s, lo, size))[k] == CountLess(s, lo + k) + multiset(s)[lo + k]
    ensures forall i, j :: 0 <= i <= j < size ==>
      Prefix(Hist(s, lo, size))[i] <= Prefix(Hist(s, lo, size))[j]
    ensures size > 0 ==> Prefix(Hist(s, lo, size))[size - 1] == |s|
  {
    forall k | 0 <= k < size
      ensures Prefix(Hist(s, lo, size))[k] == CountLess(s, lo + k) + multiset(s)[lo + k]
    {
      HistPrefix(s, lo, size, k + 1);
      CountLessStep(s, lo + k);
    }
    PrefixMonotone(Hist(s, lo, size));
    HistSum(s, lo, size);
  }

  /**
   * Expanding the count table of an in-range input gives a sorted
   * permutation of that input.
   */
  lemma ExpandHistSorts(s: seq<int>, lo: int, size: nat)
    requires InRange(s, lo, size)
    ensures Sorted(Expand(Hist(s, lo, size), lo))
    ensures InRange(Expand(Hist(s, lo, size), lo), lo, size)
    ensures multiset(Expand(Hist(s, lo, size), lo)) == multiset(s)
  {
    var h := Hist(s, lo, size);
    ExpandSorted(h, lo);
    forall x
      ensures multiset(Expand(h, lo))[x] == multiset(s)[x]
    {
      ExpandCount(h, lo, x);
      if !(lo <= x < lo + size) {
        assert x !in s;
      }
    }
  }

  // ---------------------------------------------------------------------
  // Stable ranks

  /** Element `j` lands inside the block of its own value, which lies within the output. */
  lemma RankBlock(s: seq<int>, j: int)
    requires 0 <= j < |s|
    ensures CountLess(s, s[j]) <= Rank(s, j) < CountLess(s, s[j] + 1) <= |s|
  {
    var v := s[j];
    assert s == s[..j] + s[j..];
    assert v in s[j..];
    CountLessStep(s, v);
    CountLessLe(s, v + 1);
  }

  /** Of two equal elements, the earlier one gets the lower rank. */
  lemma RankStable(s: seq<int>, i: int, j: int)
    requires 0 <= i < j < |s| && s[i] == s[j]
    ensures Rank(s, i) < Rank(s, j)
  {
    assert s[..j] == s[..i] + s[i..j];
    assert s[i] in s[i..j];
  }

  /** No two elements share a rank: every output slot is written at most once. */
  lemma RankInjective(s: seq<int>, i: int, j: int)
    requires 0 <= i < |s| && 0 <= j < |s| && i != j
    ensures Rank(s, i) != Rank(s, j)
  {
    if s[i] == s[j] {
      if i < j {
        RankStable(s, i, j);
      } else {
        RankStable(s, j, i);
      }
    } else {
      RankBlock(s, i);
      RankBlock(s, j);
      if s[i] < s[j] {
        CountLessMono(s, s[i] + 1, s[j]);
      } else {
        CountLessMono(s, s[j] + 1, s[i]);
      }
    }
  }

  /** The index of the occurrence of `v` that has exactly `m` occurrences of `v` before it. */
  lemma {:induction false} NthOccurrence(s: seq<int>, v: int, m: nat) returns (j: int)
    requires m < multiset(s)[v]
    ensures 0 <= j < |s| && s[j] == v && multiset(s[..j])[v] == m
    decreases |s|
  {
    var u := s[..|s| - 1];
    assert s == u + [s[|s| - 1]];
    if m < multiset(u)[v] {
      j := NthOccurrence(u, v, m);
      assert s[..j] == u[..j];
    } else {
      j := |s| - 1;
    }
  }

  /**
   * An output that holds every input element at its stable rank is the
   * expansion of the input's count table: ranks cover every slot.
   */
  lemma RankPlacementIsExpansion(s: seq<int>, lo: int, size: nat, c: seq<int>)
    requires InRange(s, lo, size) && |c| == |s|
    requires forall j :: 0 <= j < |s| ==> 0 <= Rank(s, j) < |c| && c[Rank(s, j)] == s[j]
    ensures c == Expand(Hist(s, lo, size), lo)
  {
    var h := Hist(s, lo, size);
    HistSum(s, lo, size);
    ExpandLength(h, lo);
    forall p | 0 <= p < |c|
      ensures c[p] == Expand(h, lo)[p]
    {
      var j := RankReaches(s, lo, size, p);
    }
  }

  /**
   * Slot `p` of the expansion of a count table holds a value `w` with fewer
   * than `p + 1` elements below it and more than `p` elements at most `w`.
   */
  lemma ExpandHistAt(s: seq<int>, lo: int, size: nat, p: int)
    requires InRange(s, lo, size) && 0 <= p < |s|
    ensures |Expand(Hist(s, lo, size), lo)| == |s|
    ensures var w := Expand(Hist(s, lo, size), lo)[p];
      CountLess(s, w) <= p < CountLess(s, w) + multiset(s)[w]
  {
    var h := Hist(s, lo, size);
    HistSum(s, lo, size);
    ExpandAt(h, lo, p);
    var w := Expand(h, lo)[p];
    var k := w - lo;
    HistPrefix(s, lo, size, k);
    HistPrefix(s, lo, size, k + 1);
    assert lo + k == w && lo + (k + 1) == w + 1;
    CountLessStep(s, w);
  }

  /** Every slot `p` of the output is the rank of an element whose value the expansion has at `p`. */
  lemma RankReaches(s: seq<int>, lo: int, size: nat, p: int) returns (j: int)
    requires InRange(s, lo, size) && 0 <= p < |s|
    ensures |Expand(Hist(s, lo, size), lo)| == |s|
    ensures 0 <= j < |s| && Rank(s, j) == p && s[j] == Expand(Hist(s, lo, size), lo)[p]
  {
    ExpandHistAt(s, lo, size, p);
    var w := Expand(Hist(s, lo, size), lo)[p];
    j := NthOccurrence(s, w, p - CountLess(s, w));
  }

  // ---------------------------------------------------------------------
  // Uniqueness of the sorted permutation

  /** The head of a sorted sequence is at most every element of it. */
  lemma SortedHeadLeast(s: seq<int>, x: int)
    requires Sorted(s) && x in multiset(s)
    ensures |s| > 0 && s[0] <= x
  {
    var k :| 0 <= k < |s| && s[k] == x;
  }

  /**
   * Removing the head of a sequence removes one copy of it from the
   * multiset, the rest of a sorted sequence is sorted, and the sequence is
   * its head followed by the rest.
   */
  lemma SplitHead(s: seq<int>)
    requires |s| > 0
    ensures multiset(s[1..]) == multiset(s) - multiset{s[0]}
    ensures Sorted(s) ==> Sorted(s[1..])
    ensures s == [s[0]] + s[1..]
  {
    assert s == [s[0]] + s[1..];
  }

  /** Two sorted sequences holding the same multiset are equal. */
  lemma {:induction false} SortedUnique(s: seq<int>, t: seq<int>)
    requires Sorted(s) && Sorted(t) && multiset(s) == multiset(t)
    ensures s == t
    decreases |s|
  {
    assert |s| == |multiset(s)| == |multiset(t)| == |t|;
    if |s| > 0 {
      SortedHeadLeast(t, s[0]);
      SortedHeadLeast(s, t[0]);
      var x := s[0];
      assert t[0] == x;
      SplitHead(s);
      SplitHead(t);
      var rest := multiset(s) - multiset{x};
      assert multiset(s[1..]) == rest == multiset(t[1..]);
      SortedUnique(s[1..], t[1..]);
    }
  }

  /** Counting an already sorted in-range input gives it back unchanged. */
  lemma SortIdempotent(s: seq<int>, lo: int, size: nat)
    requires Sorted(s) && InRange(s, lo, size)
    ensures Expand(Hist(s, lo, size), lo) == s
  {
    ExpandHistSorts(s, lo, size);
    SortedUnique(Expand(Hist(s, lo, size), lo), s);
  }

  /** When every element equals `v`, one bucket holds all N elements and expanding it changes nothing. */
  lemma AllEqualSingleBucket(s: seq<int>, v: int)
    requires forall i :: 0 <= i < |s| ==> s[i] == v
    ensures Hist(s, v, 1) == [|s|]
    ensures Expand(Hist(s, v, 1), v) == s
  {
    CountLessStep(s, v);
    CountLessOutside(s, v, 1);
    SortIdempotent(s, v, 1);
  }
}
