/** The per-interval report of HCMonitor/monitor.c: classes, averages, percentiles, histogram. */
module Report {
  import opened QuickSort
  import opened Ranks
  import opened Histogram

  /** The values printed for one interval; a class without samples prints nothing. */
  datatype Cdf = Cdf(
    average: real, averageHigh: real, averageLow: real,
    w: seq<int>, wHigh: seq<int>, wLow: seq<int>,
    numHigh: nat, numLow: nat,
    sketch: seq<int>)

  function Flagged(flags: seq<bool>): (n: nat)
    ensures n <= |flags|
  {
    if flags == [] then 0 else Flagged(flags[..|flags| - 1]) + if flags[|flags| - 1] then 1 else 0
  }

  lemma {:induction false} FlaggedIsSelected(s: seq<int>, flags: seq<bool>)
    requires |s| == |flags|
    ensures |Select(s, flags, true)| == Flagged(flags) && |Select(s, flags, false)| == |flags| - Flagged(flags)
  {
    if s != [] {
      FlaggedIsSelected(s[..|s| - 1], flags[..|s| - 1]);
    }
  }

  /** The picked values are the nearest-rank percentiles of `s` for the whole table. */
  ghost predicate Percentiles(w: seq<int>, s: seq<int>) {
    |w| == |QUANTILES| && forall i :: 0 <= i < |w| ==> NearestRank(s, QUANTILES[i], w[i])
  }

  method Mean(a: array<int>, n: nat) returns (r: real)
    requires 0 < n <= a.Length
    ensures r == Average(a[..n])
  {
    var sum := 0;
    var i := 0;
    while i < n
      invariant 0 <= i <= n
      invariant sum == Sum(a[..i])
    {
      assert a[..i + 1][..i] == a[..i];
      sum := sum + a[i];
      i := i + 1;
    }
    r := sum as real / n as real;
  }

  method SortPrefix(a: array<int>, n: nat)
    requires n <= a.Length
    modifies a
    ensures Sorted(a[..n]) && multiset(a[..n]) == multiset(old(a[..n]))
    ensures forall i :: n <= i < a.Length ==> a[i] == old(a[i])
  {
    ghost var s := a[..];
    Quick(a, 0, n - 1);
    ghost var t := a[..];
    CutInThree(s, 0, n);
    CutInThree(t, 0, n);
    assert s[n..] == t[n..];
    Cancel(multiset(s[..0]), multiset(s[0..n]), multiset(t[0..n]), multiset(s[n..]));
    assert s[0..n] == s[..n] && t[0..n] == t[..n];
  }

  /** The values at the table's ranks of a sorted prefix. */
  method PickPercentiles(a: array<int>, n: nat, ghost s: seq<int>) returns (w: seq<int>)
    requires 0 < n <= a.Length
    requires Sorted(a[..n]) && multiset(s) == multiset(a[..n])
    ensures Percentiles(w, s)
  {
    w := [];
    var i := 0;
    assert s != [] by {
      assert |multiset(s)| == |multiset(a[..n])|;
    }
    while i < |QUANTILES|
      invariant 0 <= i <= |QUANTILES|
      invariant |w| == i && forall k :: 0 <= k < i ==> NearestRank(s, QUANTILES[k], w[k])
    {
      RankInRange(QUANTILES[i], n);
      var index := Rank(QUANTILES[i], n);
      NearestRankIsPicked(s, a[..n], QUANTILES[i], a[index]);
      w := w + [a[index]];
      i := i + 1;
    }
  }

  lemma ClassStep(s: seq<int>, flags: seq<bool>, i: nat)
    requires |s| == |flags| && i < |s|
    ensures forall b :: Select(s[..i + 1], flags[..i + 1], b) ==
                          Select(s[..i], flags[..i], b) + (if flags[i] == b then [s[i]] else [])
    ensures Flagged(flags[..i + 1]) == Flagged(flags[..i]) + if flags[i] then 1 else 0
    ensures Flagged(flags[..i + 1]) <= Flagged(flags) && i + 1 - Flagged(flags[..i + 1]) <= |flags| - Flagged(flags)
  {
    assert s[..i + 1][..i] == s[..i] && flags[..i + 1][..i] == flags[..i];
    FlaggedMonotone(flags, i + 1);
  }

  method Put(a: array<int>, n: nat, x: int) returns (next: nat)
    requires n < a.Length
    modifies a
    ensures next == n + 1 && a[..next] == old(a[..n]) + [x]
  {
    a[n] := x;
    next := n + 1;
  }

  /** The two class buffers; their lengths are `ph_size` and `pl_size`. */
  class PriorityBuffers {
    var high: array<int>
    var low: array<int>

    constructor (phSize: nat, plSize: nat)
      ensures fresh(high) && fresh(low) && high != low
      ensures high.Length == phSize && low.Length == plSize
    {
      high := new int[phSize];
      low := new int[plSize];
    }

    ghost predicate Valid()
      reads this
    {
      high != low
    }

    /** Make room for the counted samples of each class. */
    method Resize(idxHigh: nat, idxLow: nat)
      requires Valid()
      modifies this
      ensures Valid()
      ensures high == old(high) || fresh(high)
      ensures low == old(low) || fresh(low)
      ensures idxHigh <= high.Length && high.Length == if idxHigh > old(high.Length) then idxHigh + 1 else old(high.Length)
      ensures idxLow <= low.Length && low.Length == if idxLow > old(low.Length) then idxLow + 1 else old(low.Length)
    {
      if idxHigh > high.Length {
        high := new int[idxHigh + 1];
      }
      if idxLow > low.Length {
        low := new int[idxLow + 1];
      }
    }

    /** Distribute the samples over the class buffers. Every write is in bounds because the two
        priority counters count the flags. */
    method Partition(time: array<int>, pri: array<bool>, idx: nat) returns (numHigh: nat, numLow: nat)
      requires Valid() && time != high && time != low
      requires idx <= time.Length && idx <= pri.Length
      requires Flagged(pri[..idx]) <= high.Length && idx - Flagged(pri[..idx]) <= low.Length
      modifies high, low
      ensures numHigh <= high.Length && numLow <= low.Length
      ensures high[..numHigh] == Select(time[..idx], pri[..idx], true)
      ensures low[..numLow] == Select(time[..idx], pri[..idx], false)
    {
      ghost var s, flags := time[..idx], pri[..idx];
      numHigh, numLow := 0, 0;
      var i := 0;
      assert Flagged(flags[..0]) == 0 && forall b :: Select(s[..0], flags[..0], b) == [];
      hide Select, Flagged;
      while i < idx
        invariant 0 <= i <= idx
        invariant numHigh == Flagged(flags[..i]) <= high.Length && numLow == i - Flagged(flags[..i]) <= low.Length
        invariant high[..numHigh] == Select(s[..i], flags[..i], true)
        invariant low[..numLow] == Select(s[..i], flags[..i], false)
      {
        ClassStep(s, flags, i);
        if pri[i] {
          numHigh := Put(high, numHigh, time[i]);
        } else {
          numLow := Put(low, numLow, time[i]);
        }
        i := i + 1;
      }
      assert s[..idx] == s && flags[..idx] == flags;
    }

    /** The class half of the report. */
    method ReportClasses(time: array<int>, pri: array<bool>, idx: nat, idxHigh: nat, idxLow: nat)
      returns (numHigh: nat, numLow: nat, averageHigh: real, averageLow: real, wHigh: seq<int>, wLow: seq<int>)
      requires Valid() && time != high && time != low
      requires idx <= time.Length && idx <= pri.Length
      requires idxHigh == Flagged(pri[..idx]) && idxHigh + idxLow == idx
      modifies this, high, low
      ensures Valid() && (high == old(high) || fresh(high)) && (low == old(low) || fresh(low))
      ensures ClassReport(time[..idx], pri[..idx], true, numHigh, averageHigh, wHigh)
      ensures ClassReport(time[..idx], pri[..idx], false, numLow, averageLow, wLow)
    {
      ghost var s, flags := time[..idx], pri[..idx];
      averageHigh, averageLow, wHigh, wLow := 0.0, 0.0, [], [];
      Resize(idxHigh, idxLow);
      numHigh, numLow := Partition(time, pri, idx);
      FlaggedIsSelected(s, flags);
      if numHigh > 0 {
        averageHigh, wHigh := SummariseClass(high, numHigh, Select(s, flags, true));
      }
      if numLow > 0 {
        averageLow, wLow := SummariseClass(low, numLow, Select(s, flags, false));
      }
    }

    method CdfAcktime(time: array<int>, pri: array<bool>, idx: nat, idxHigh: nat, idxLow: nat,
                      enablePri: bool, intervalCnt: array<int>)
      returns (r: Cdf)
      requires Valid() && time != high && time != low && intervalCnt != time && intervalCnt != high && intervalCnt != low
      requires 0 < idx <= time.Length && idx <= pri.Length
      requires enablePri ==> idxHigh == Flagged(pri[..idx]) && idxHigh + idxLow == idx
      requires intervalCnt.Length == BUCKETS && forall b :: 0 <= b < BUCKETS ==> intervalCnt[b] == 0
      modifies this, high, low, time, intervalCnt
      ensures Valid() && (high == old(high) || fresh(high)) && (low == old(low) || fresh(low))
      ensures Sorted(time[..idx]) && multiset(time[..idx]) == multiset(old(time[..idx]))
      ensures r.average == Average(old(time[..idx]))
      ensures Percentiles(r.w, old(time[..idx]))
      ensures |r.sketch| == BUCKETS && forall b :: 0 <= b < BUCKETS ==> r.sketch[b] == Bucket(time[..idx], b)
      ensures enablePri ==> ClassReport(old(time[..idx]), pri[..idx], true, r.numHigh, r.averageHigh, r.wHigh)
      ensures enablePri ==> ClassReport(old(time[..idx]), pri[..idx], false, r.numLow, r.averageLow, r.wLow)
    {
      ghost var s, flags := time[..idx], pri[..idx];
      var numHigh, numLow := 0, 0;
      var averageHigh, averageLow, wHigh, wLow := 0.0, 0.0, [], [];
      if enablePri {
        numHigh, numLow, averageHigh, averageLow, wHigh, wLow := ReportClasses(time, pri, idx, idxHigh, idxLow);
      }
      var average := Mean(time, idx);
      SortPrefix(time, idx);
      var sketch := SketchDelay(time, idx, intervalCnt);
      var w := PickPercentiles(time, idx, s);
      r := Cdf(average, averageHigh, averageLow, w, wHigh, wLow, numHigh, numLow, sketch);
    }
  }

  lemma {:induction false} FlaggedMonotone(flags: seq<bool>, i: nat)
    requires i <= |flags|
    ensures Flagged(flags[..i]) <= Flagged(flags) && i - Flagged(flags[..i]) <= |flags| - Flagged(flags)
  {
    if i == |flags| {
      assert flags[..i] == flags;
    } else {
      var pre := flags[..|flags| - 1];
      assert pre[..i] == flags[..i];
      FlaggedMonotone(pre, i);
    }
  }

  /** One class of the report: its size, and its average and percentiles when it has samples. */
  ghost predicate ClassReport(s: seq<int>, flags: seq<bool>, b: bool, num: nat, average: real, w: seq<int>)
    requires |s| == |flags|
  {
    var part := Select(s, flags, b);
    num == |part| && (num > 0 ==> average == Average(part) && Percentiles(w, part))
  }

  /** Sort one class in place, then average it and read off its percentiles. */
  method SummariseClass(a: array<int>, n: nat, ghost part: seq<int>) returns (average: real, w: seq<int>)
    requires 0 < n <= a.Length && part == a[..n]
    modifies a
    ensures average == Average(part) && Percentiles(w, part)
  {
    SortPrefix(a, n);
    average := Mean(a, n);
    TotalPermutes(part, a[..n], Itself());
    w := PickPercentiles(a, n, part);
  }

  // --------------------------------------------------- what the report satisfies

  lemma QuantilesIncrease(i: nat, j: nat)
    requires i <= j < |QUANTILES|
    ensures Proper(QUANTILES[i]) && Proper(QUANTILES[j])
    ensures QUANTILES[i].num * QUANTILES[j].den <= QUANTILES[j].num * QUANTILES[i].den
  {
  }

  /** Facts about every report: percentiles increase along the table, the last is the maximum,
      and with samples in both classes each percentile of the whole lies between theirs. */
  lemma ReportIsConsistent(s: seq<int>, flags: seq<bool>, w: seq<int>, wHigh: seq<int>, wLow: seq<int>)
    requires |s| == |flags| && Percentiles(w, s)
    requires Percentiles(wHigh, Select(s, flags, true)) && Percentiles(wLow, Select(s, flags, false))
    ensures forall i, j :: 0 <= i < j < |w| ==> w[i] <= w[j]
    ensures forall x :: x in s ==> x <= w[|w| - 1]
    ensures forall i :: 0 <= i < |w| ==> wHigh[i] <= w[i] <= wLow[i] || wLow[i] <= w[i] <= wHigh[i]
  {
    hide NearestRank, Select;
    forall i | 0 <= i < |w|
      ensures Proper(QUANTILES[i])
    {
      QuantilesIncrease(i, i);
    }
    forall i, j | 0 <= i < j < |w|
      ensures w[i] <= w[j]
    {
      QuantilesIncrease(i, j);
      NearestRankMonotone(s, QUANTILES[i], QUANTILES[j], w[i], w[j]);
    }
    LastQuantileIsMaximum(s, w[|w| - 1]);
    forall i | 0 <= i < |w|
      ensures wHigh[i] <= w[i] <= wLow[i] || wLow[i] <= w[i] <= wHigh[i]
    {
      WholeBetweenParts(s, flags, QUANTILES[i], w[i], wHigh[i], wLow[i]);
    }
  }

  /** Facts about every reported average: it lies between any bounds of its samples, so it is at most the
      last percentile. */
  lemma AverageIsConsistent(s: seq<int>, average: real, w: seq<int>)
    requires s != [] && average == Average(s) && Percentiles(w, s)
    ensures forall lo, hi :: Between(s, lo, hi) ==> lo as real <= average <= hi as real
    ensures average <= w[|w| - 1] as real
  {
    hide NearestRank, Average;
    LastQuantileIsMaximum(s, w[|w| - 1]);
    forall lo, hi | Between(s, lo, hi)
      ensures lo as real <= average <= hi as real
    {
      AverageBetween(s, lo, hi);
    }
    forall i | 0 <= i < |s|
      ensures Least(s) <= s[i] <= w[|w| - 1]
    {
      assert s[i] in s;
    }
    assert Between(s, Least(s), w[|w| - 1]);
  }

  function Least(s: seq<int>): (lo: int)
    requires s != []
    ensures lo in s && forall i :: 0 <= i < |s| ==> lo <= s[i]
  {
    var n := |s| - 1;
    if n == 0 then s[0]
    else
      var lo := Least(s[..n]);
      if s[n] < lo then s[n] else lo
  }
}
