/** The latency histogram of HCMonitor/monitor.c and the 99th percentile that
    scripts/demo.py reads back from it. */
module Histogram {
  import opened QuickSort
  import opened Ranks

  const BUCKETS := 260

  /** One bucket is 26 / 260 of a millisecond, in nanoseconds. */
  const STEP := 26_000_000 / BUCKETS

  /** The buckets are tenths of a millisecond and cover 26 of them. */
  lemma SketchCovers()
    ensures 10 * STEP == 1_000_000 && BUCKETS * STEP == 26_000_000
  {
  }

  /** The number of samples in bucket `j`; the first bucket has no lower edge. */
  function Bucket(s: seq<int>, j: nat): int {
    if j == 0 then Below(s, STEP) else Total(s, Within(STEP * j, STEP * (j + 1)))
  }

  /** The samples in the first `j` buckets. */
  function Edge(s: seq<int>, j: nat): int {
    if j == 0 then 0 else Below(s, STEP * j)
  }

  lemma EdgeStep(s: seq<int>, j: nat)
    ensures Edge(s, j + 1) == Edge(s, j) + Bucket(s, j)
  {
    if j > 0 {
      BelowDifference(s, STEP * j, STEP * (j + 1));
    }
  }

  /** One pass over the sorted samples and the buckets together; each bucket gains exactly
      the samples between its edges, and the counts are printed in order. */
  method SketchDelay(a: array<int>, n: nat, intervalCnt: array<int>) returns (lines: seq<int>)
    requires n <= a.Length && Sorted(a[..n])
    requires intervalCnt.Length == BUCKETS && intervalCnt != a
    modifies intervalCnt
    ensures forall b :: 0 <= b < BUCKETS ==> intervalCnt[b] == old(intervalCnt[b]) + Bucket(a[..n], b)
    ensures lines == intervalCnt[..]
  {
    ghost var s := a[..n];
    var i, j := 0, 1;
    lines := [];
    while j < BUCKETS + 1
      invariant 1 <= j <= BUCKETS + 1
      invariant i == Edge(s, j - 1) && 0 <= i <= n
      invariant forall b :: 0 <= b < j - 1 ==> intervalCnt[b] == old(intervalCnt[b]) + Bucket(s, b)
      invariant forall b :: j - 1 <= b < BUCKETS ==> intervalCnt[b] == old(intervalCnt[b])
      invariant lines == intervalCnt[..j - 1]
      invariant a[..n] == s
    {
      SortedBelow(s, STEP * j);
      EdgeStep(s, j - 1);
      BelowBounds(s, if j == 1 then STEP else STEP * (j - 1), STEP * j);
      ghost var start := i;
      while i < n && a[i] < STEP * j
        invariant start <= i <= Below(s, STEP * j)
        invariant intervalCnt[j - 1] == old(intervalCnt[j - 1]) + i - start
        invariant forall b :: 0 <= b < BUCKETS && b != j - 1 ==> intervalCnt[b] == if b < j - 1 then old(intervalCnt[b]) + Bucket(s, b) else old(intervalCnt[b])
        invariant lines == intervalCnt[..j - 1]
        invariant a[..n] == s
      {
        assert s[i] == a[i];
        intervalCnt[j - 1] := intervalCnt[j - 1] + 1;
        i := i + 1;
      }
      assert i < n ==> s[i] == a[i];
      lines := lines + [intervalCnt[j - 1]];
      j := j + 1;
    }
    assert intervalCnt[..BUCKETS] == intervalCnt[..];
  }

  // ------------------------------------------------- reading the percentile back

  /** What the demonstration makes of the printed counts: the index of the last point below
      99 percent, or the exception it dies of. */
  datatype Reading = Point(index: nat) | ZeroDivision | NoPoint

  function Prefix(lines: seq<int>, i: nat): int
    requires i <= |lines|
  {
    if i == 0 then 0 else Prefix(lines, i - 1) + lines[i - 1]
  }

  method ReadPercentile(lines: seq<int>) returns (r: Reading)
    requires forall i :: 0 <= i < |lines| ==> lines[i] >= 0
    ensures r.ZeroDivision? <==> lines != [] && Prefix(lines, |lines|) == 0
    ensures r.NoPoint? <==> lines == [] || (Prefix(lines, |lines|) > 0 && 100 * lines[0] >= 99 * Prefix(lines, |lines|))
    ensures r.Point? ==>
      && r.index + 1 < |lines|
      && 100 * Prefix(lines, r.index + 1) < 99 * Prefix(lines, |lines|) <= 100 * Prefix(lines, r.index + 2)
  {
    var accumulation: seq<int> := [];
    var accumulator := 0;
    for k := 0 to |lines|
      invariant accumulator == Prefix(lines, k) >= 0
      invariant |accumulation| == k
      invariant forall m :: 0 <= m < k ==> accumulation[m] == Prefix(lines, m + 1)
    {
      accumulator := accumulator + lines[k];
      accumulation := accumulation + [accumulator];
    }
    var points: seq<nat> := [];
    var i := 0;
    while i < |accumulation|
      invariant 0 <= i <= |accumulation|
      invariant |points| == i && forall m :: 0 <= m < i ==> points[m] == m
      invariant i > 0 ==> accumulator > 0
      invariant forall m :: 0 <= m < i ==> 100 * accumulation[m] < 99 * accumulator
    {
      if accumulator == 0 {
        return ZeroDivision;
      }
      if 100 * accumulation[i] < 99 * accumulator {
        points := points + [i];
      } else {
        break;
      }
      i := i + 1;
    }
    if lines != [] {
      assert accumulation[|lines| - 1] == accumulator;
      assert accumulation[0] == Prefix(lines, 0) + lines[0];
    }
    if |points| == 0 {
      return NoPoint;
    }
    assert i < |lines| && accumulation[i - 1] == Prefix(lines, i) && accumulation[i] == Prefix(lines, i + 1);
    r := Point(points[|points| - 1]);
  }

  // --------------------------------------------------------- the two ends together

  lemma {:induction false} PrefixIsEdge(s: seq<int>, lines: seq<int>, i: nat)
    requires i <= |lines| && forall b :: 0 <= b < |lines| ==> lines[b] == Bucket(s, b)
    ensures Prefix(lines, i) == Edge(s, i)
  {
    if i > 0 {
      PrefixIsEdge(s, lines, i - 1);
      EdgeStep(s, i - 1);
    }
  }

  /** The value shown at index `m` brackets the nearest-rank 99th percentile of the samples
      under 26 ms: it is at least one bucket and less than two buckets too low. */
  lemma ReadingBracketsPercentile(s: seq<int>, lines: seq<int>, m: nat, p99: int)
    requires Sorted(s)
    requires |lines| == BUCKETS && forall b :: 0 <= b < BUCKETS ==> lines[b] == Bucket(s, b)
    requires m + 1 < BUCKETS
    requires 100 * Prefix(lines, m + 1) < 99 * Prefix(lines, BUCKETS) <= 100 * Prefix(lines, m + 2)
    requires 0 <= Below(s, STEP * BUCKETS) <= |s|
    requires NearestRank(s[..Below(s, STEP * BUCKETS)], Ratio(99, 100), p99)
    ensures STEP * (m + 1) <= p99 < STEP * (m + 2)
  {
    var n := Below(s, STEP * BUCKETS);
    var t := s[..n];
    PrefixIsEdge(s, lines, m + 1);
    PrefixIsEdge(s, lines, m + 2);
    PrefixIsEdge(s, lines, BUCKETS);
    NearestRankIsPicked(t, t, Ratio(99, 100), p99);
    RankInRange(Ratio(99, 100), n);
    SortedBelow(s, STEP * (m + 1));
    SortedBelow(s, STEP * (m + 2));
    assert p99 == s[Rank(Ratio(99, 100), n)];
  }
}
