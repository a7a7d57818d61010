/** Counting, averaging and nearest-rank percentiles over samples in nanoseconds. */
module Ranks {
  import opened QuickSort

  // ------------------------------------------------------- totals over samples

  /** The sum of `f` over the samples. */
  function Total(s: seq<int>, f: int -> int): int {
    if s == [] then 0 else Total(s[..|s| - 1], f) + f(s[|s| - 1])
  }

  function Itself(): int -> int {
    (x: int) => x
  }

  function Less(v: int): int -> int {
    (x: int) => if x < v then 1 else 0
  }

  function Within(lo: int, hi: int): int -> int {
    (x: int) => if lo <= x < hi then 1 else 0
  }

  /** The number of samples strictly below `v`. */
  function Below(s: seq<int>, v: int): int {
    Total(s, Less(v))
  }

  function Sum(s: seq<int>): int {
    Total(s, Itself())
  }

  function Average(s: seq<int>): real
    requires s != []
  {
    Sum(s) as real / |s| as real
  }

  lemma {:induction false} TotalConcat(a: seq<int>, b: seq<int>, f: int -> int)
    ensures Total(a + b, f) == Total(a, f) + Total(b, f)
  {
    if b == [] {
      assert a + b == a;
    } else {
      assert (a + b)[..|a + b| - 1] == a + b[..|b| - 1];
      TotalConcat(a, b[..|b| - 1], f);
    }
  }

  function Without(t: seq<int>, i: nat): seq<int>
    requires i < |t|
  {
    t[..i] + t[i + 1..]
  }

  lemma MultisetWithout(t: seq<int>, i: nat)
    requires i < |t|
    ensures multiset(Without(t, i)) == multiset(t) - multiset{t[i]}
  {
    assert t == t[..i] + [t[i]] + t[i + 1..];
  }

  lemma TotalWithout(t: seq<int>, i: nat, f: int -> int)
    requires i < |t|
    ensures Total(t, f) == Total(Without(t, i), f) + f(t[i])
  {
    hide Total;
    assert t == t[..i] + ([t[i]] + t[i + 1..]);
    TotalConcat(t[..i], [t[i]] + t[i + 1..], f);
    TotalConcat([t[i]], t[i + 1..], f);
    TotalConcat(t[..i], t[i + 1..], f);
    TotalOfOne(t[i], f);
  }

  lemma TotalOfOne(x: int, f: int -> int)
    ensures Total([x], f) == f(x)
  {
    assert [x][..0] == [];
  }

  /** A total does not depend on the order of the samples. */
  lemma {:induction false} TotalPermutes(s: seq<int>, t: seq<int>, f: int -> int)
    requires multiset(s) == multiset(t)
    ensures Total(s, f) == Total(t, f) && |s| == |t|
    decreases |s|
  {
    assert |s| == |multiset(s)| == |multiset(t)| == |t|;
    if s != [] {
      hide Total, Without;
      var n := |s| - 1;
      assert s[n] in multiset(t);
      var i :| 0 <= i < |t| && t[i] == s[n];
      TotalWithout(s, n, f);
      TotalWithout(t, i, f);
      MultisetWithout(s, n);
      MultisetWithout(t, i);
      TotalPermutes(Without(s, n), Without(t, i), f);
    }
  }

  lemma {:induction false} BelowBounds(s: seq<int>, v: int, w: int)
    requires v <= w
    ensures 0 <= Below(s, v) <= Below(s, w) <= |s|
  {
    if s != [] {
      BelowBounds(s[..|s| - 1], v, w);
    }
  }

  lemma {:induction false} BelowDifference(s: seq<int>, lo: int, hi: int)
    requires lo <= hi
    ensures Below(s, hi) - Below(s, lo) == Total(s, Within(lo, hi))
  {
    if s != [] {
      BelowDifference(s[..|s| - 1], lo, hi);
    }
  }

  /** In a sorted sequence the samples below `v` are exactly the first `Below(s, v)`. */
  lemma {:induction false} SortedBelow(s: seq<int>, v: int)
    requires Sorted(s)
    ensures 0 <= Below(s, v) <= |s|
    ensures forall i :: 0 <= i < |s| ==> (s[i] < v <==> i < Below(s, v))
  {
    if s != [] {
      SortedBelow(s[..|s| - 1], v);
    }
  }

  // ------------------------------------------------------------- nearest ranks

  datatype Ratio = Ratio(num: nat, den: nat)

  /** A proper quantile: 0 < num / den <= 1. */
  predicate Proper(u: Ratio) {
    0 < u.num <= u.den
  }

  /** The table of reported quantiles. */
  const QUANTILES: seq<Ratio> := [
    Ratio(1, 10), Ratio(2, 10), Ratio(3, 10), Ratio(4, 10), Ratio(5, 10), Ratio(6, 10), Ratio(7, 10),
    Ratio(8, 10), Ratio(9, 10), Ratio(95, 100), Ratio(99, 100), Ratio(999, 1000), Ratio(9999, 10000), Ratio(1, 1)]

  /** The tenths up to nine tenths, then all but a twentieth, a hundredth, a thousandth and a ten-thousandth,
      then everything. */
  lemma TableOfQuantiles(i: nat)
    requires i < |QUANTILES|
    ensures Proper(QUANTILES[i])
    ensures i < 9 ==> QUANTILES[i].num * 10 == QUANTILES[i].den * (i + 1)
    ensures |QUANTILES| == 14 && QUANTILES[13].den == QUANTILES[13].num
    ensures 9 <= i < 13 ==> (QUANTILES[i].den - QUANTILES[i].num) * [20, 100, 1000, 10000][i - 9] == QUANTILES[i].den
  {
  }

  function CeilDiv(a: nat, b: nat): nat
    requires b > 0
  {
    (a + b - 1) / b
  }

  /** The index `ceil(u * n) - 1`. */
  function Rank(u: Ratio, n: nat): int
    requires u.den > 0
  {
    CeilDiv(u.num * n, u.den) - 1
  }

  lemma CeilDivBounds(a: nat, b: nat)
    requires b > 0
    ensures (CeilDiv(a, b) - 1) * b < a <= CeilDiv(a, b) * b
  {
    var q := (a + b - 1) / b;
    assert a + b - 1 == q * b + (a + b - 1) % b;
    assert (q - 1) * b == q * b - b;
  }

  lemma MulOrder(a: int, b: int, c: int)
    requires c > 0
    ensures a * c < b * c <==> a < b
    ensures a * c <= b * c <==> a <= b
  {
  }

  /** The index is in range for every proper quantile of a non-empty array. */
  lemma RankInRange(u: Ratio, n: nat)
    requires Proper(u) && n >= 1
    ensures 0 <= Rank(u, n) < n
    ensures Rank(u, n) * u.den < u.num * n <= (Rank(u, n) + 1) * u.den
  {
    CeilDivBounds(u.num * n, u.den);
    assert u.num * n > 0;
    MulOrder(u.num, u.den, n);
    MulOrder(0, Rank(u, n) + 1, u.den);
    MulOrder(Rank(u, n), n, u.den);
  }

  /** `count` is at least the share `u` of `n`. */
  predicate Reaches(u: Ratio, n: nat, count: int) {
    u.num * n <= count * u.den
  }

  /** `v` is a sample with fewer than `u * n` samples below it and at least `u * n` at or below it. */
  predicate NearestRank(s: seq<int>, u: Ratio, v: int) {
    v in s && !Reaches(u, |s|, Below(s, v)) && Reaches(u, |s|, Below(s, v + 1))
  }

  /** Shares that are reached, or missed, in two parts are reached, or missed, in the whole. */
  lemma SharesJoin(u: Ratio, m: nat, n: nat, a: int, b: int)
    ensures Reaches(u, m, a) && Reaches(u, n, b) ==> Reaches(u, m + n, a + b)
    ensures !Reaches(u, m, a) && !Reaches(u, n, b) ==> !Reaches(u, m + n, a + b)
  {
    assert (a + b) * u.den == a * u.den + b * u.den;
    assert u.num * (m + n) == u.num * m + u.num * n;
  }

  lemma ReachesMonotone(u: Ratio, n: nat, a: int, b: int)
    requires a <= b && Reaches(u, n, a)
    ensures Reaches(u, n, b)
  {
    assert a * u.den <= b * u.den;
  }

  /** What the monitor picks from the sorted array is the nearest-rank percentile of the
      samples, and nothing else is. */
  lemma NearestRankIsPicked(s: seq<int>, t: seq<int>, u: Ratio, v: int)
    requires Proper(u) && s != [] && Sorted(t) && multiset(s) == multiset(t)
    ensures |t| == |s| && 0 <= Rank(u, |t|) < |t|
    ensures NearestRank(s, u, v) <==> v == t[Rank(u, |t|)]
  {
    TotalPermutes(s, t, Less(v));
    TotalPermutes(s, t, Less(v + 1));
    RankInRange(u, |t|);
    SortedBelow(t, v);
    SortedBelow(t, v + 1);
    var r, lo, hi := Rank(u, |t|), Below(t, v), Below(t, v + 1);
    assert v in s <==> v in t by {
      assert v in multiset(s) <==> v in multiset(t);
    }
    MulOrder(lo, r + 1, u.den);
    MulOrder(r, hi, u.den);
    if v == t[r] {
      MulOrder(lo, r, u.den);
      MulOrder(r + 1, hi, u.den);
    }
  }

  lemma MulSwap(a: int, b: int, c: int)
    ensures a * b * c == a * c * b
  {
    assert a * b * c == a * (b * c) == a * (c * b) == a * c * b;
  }

  lemma RatioOrder(u: Ratio, w: Ratio, n: nat, a: int, b: int)
    requires Proper(u) && Proper(w) && n > 0 && u.num * w.den <= w.num * u.den
    requires w.num * n <= a * w.den && b * u.den < u.num * n
    ensures b < a
  {
    MulOrder(w.num * n, a * w.den, u.den);
    MulOrder(b * u.den, u.num * n, w.den);
    MulOrder(u.num * w.den, w.num * u.den, n);
    MulSwap(w.num, n, u.den);
    MulSwap(u.num, n, w.den);
    MulSwap(b, u.den, w.den);
    MulOrder(b * w.den, a * w.den, u.den);
    MulOrder(b, a, w.den);
  }

  /** A larger quantile picks a value at least as large. */
  lemma NearestRankMonotone(s: seq<int>, u: Ratio, w: Ratio, x: int, y: int)
    requires Proper(u) && Proper(w) && u.num * w.den <= w.num * u.den
    requires NearestRank(s, u, x) && NearestRank(s, w, y)
    ensures x <= y
  {
    RatioOrder(u, w, |s|, Below(s, y + 1), Below(s, x));
    if x > y {
      BelowBounds(s, y + 1, x);
    }
  }

  /** The last quantile picks the maximum. */
  lemma LastQuantileIsMaximum(s: seq<int>, v: int)
    ensures NearestRank(s, Ratio(1, 1), v) <==> v in s && forall x :: x in s ==> x <= v
  {
    AllBelow(s, v + 1);
    AllBelow(s, v);
    if v in s {
      var k :| 0 <= k < |s| && s[k] == v;
      assert Below(s, v) < |s|;
      if forall i :: 0 <= i < |s| ==> s[i] < v + 1 {
        assert forall x :: x in s ==> x <= v;
      } else {
        var i :| 0 <= i < |s| && s[i] > v;
        assert s[i] in s;
      }
    }
  }

  lemma {:induction false} AllBelow(s: seq<int>, v: int)
    ensures Below(s, v) <= |s|
    ensures Below(s, v) == |s| <==> forall i :: 0 <= i < |s| ==> s[i] < v
  {
    if s != [] {
      AllBelow(s[..|s| - 1], v);
    }
  }

  // -------------------------------------------------------- splitting by class

  /** The samples whose flag is `b`, in order. */
  function Select(s: seq<int>, flags: seq<bool>, b: bool): seq<int>
    requires |s| == |flags|
  {
    if s == [] then []
    else
      var n := |s| - 1;
      Select(s[..n], flags[..n], b) + if flags[n] == b then [s[n]] else []
  }

  /** The two classes partition the samples. */
  lemma {:induction false} ClassesPartition(s: seq<int>, flags: seq<bool>)
    requires |s| == |flags|
    ensures var h, l := Select(s, flags, true), Select(s, flags, false);
      multiset(s) == multiset(h) + multiset(l) && |s| == |h| + |l|
  {
    if s != [] {
      var n := |s| - 1;
      ClassesPartition(s[..n], flags[..n]);
      var h, l, x := Select(s[..n], flags[..n], true), Select(s[..n], flags[..n], false), s[n];
      assert multiset(s) == multiset(s[..n]) + multiset{x} by {
        assert s == s[..n] + [x];
      }
      if flags[n] {
        assert Select(s, flags, true) == h + [x] && Select(s, flags, false) == l;
      } else {
        assert Select(s, flags, true) == h && Select(s, flags, false) == l + [x];
      }
    }
  }

  /** Every total of the whole is the sum of the totals of the two classes. */
  lemma ClassTotals(s: seq<int>, flags: seq<bool>, f: int -> int)
    requires |s| == |flags|
    ensures Total(s, f) == Total(Select(s, flags, true), f) + Total(Select(s, flags, false), f)
  {
    var h, l := Select(s, flags, true), Select(s, flags, false);
    ClassesPartition(s, flags);
    assert multiset(h + l) == multiset(h) + multiset(l);
    TotalPermutes(s, h + l, f);
    TotalConcat(h, l, f);
  }

  lemma NotAboveBoth(s: seq<int>, flags: seq<bool>, u: Ratio, v: int, vHigh: int, vLow: int)
    requires |s| == |flags| && Proper(u)
    requires NearestRank(s, u, v)
    requires NearestRank(Select(s, flags, true), u, vHigh)
    requires NearestRank(Select(s, flags, false), u, vLow)
    ensures v <= vHigh || v <= vLow
  {
    hide Reaches, Select, Total;
    if v > vHigh && v > vLow {
      var h, l := Select(s, flags, true), Select(s, flags, false);
      ClassesPartition(s, flags);
      ClassTotals(s, flags, Less(v));
      BelowBounds(h, vHigh + 1, v);
      BelowBounds(l, vLow + 1, v);
      ReachesMonotone(u, |h|, Below(h, vHigh + 1), Below(h, v));
      ReachesMonotone(u, |l|, Below(l, vLow + 1), Below(l, v));
      SharesJoin(u, |h|, |l|, Below(h, v), Below(l, v));
    }
  }

  lemma NotBelowBoth(s: seq<int>, flags: seq<bool>, u: Ratio, v: int, vHigh: int, vLow: int)
    requires |s| == |flags| && Proper(u)
    requires NearestRank(s, u, v)
    requires NearestRank(Select(s, flags, true), u, vHigh)
    requires NearestRank(Select(s, flags, false), u, vLow)
    ensures v >= vHigh || v >= vLow
  {
    hide Reaches, Select, Total;
    if v < vHigh && v < vLow {
      var h, l := Select(s, flags, true), Select(s, flags, false);
      ClassesPartition(s, flags);
      ClassTotals(s, flags, Less(v + 1));
      BelowBounds(h, v + 1, vHigh);
      BelowBounds(l, v + 1, vLow);
      if Reaches(u, |h|, Below(h, v + 1)) {
        ReachesMonotone(u, |h|, Below(h, v + 1), Below(h, vHigh));
      }
      if Reaches(u, |l|, Below(l, v + 1)) {
        ReachesMonotone(u, |l|, Below(l, v + 1), Below(l, vLow));
      }
      SharesJoin(u, |h|, |l|, Below(h, v + 1), Below(l, v + 1));
    }
  }

  /** The percentile of the whole lies between the percentiles of the two classes. */
  lemma WholeBetweenParts(s: seq<int>, flags: seq<bool>, u: Ratio, v: int, vHigh: int, vLow: int)
    requires |s| == |flags| && Proper(u)
    requires NearestRank(s, u, v)
    requires NearestRank(Select(s, flags, true), u, vHigh)
    requires NearestRank(Select(s, flags, false), u, vLow)
    ensures vHigh <= v <= vLow || vLow <= v <= vHigh
  {
    NotAboveBoth(s, flags, u, v, vHigh, vLow);
    NotBelowBoth(s, flags, u, v, vHigh, vLow);
  }

  lemma WeightedAverage(s: seq<int>)
    requires s != []
    ensures |s| as real * Average(s) == Sum(s) as real
  {
    var n, t := |s| as real, Sum(s) as real;
    assert n * (t / n) == t;
  }

  /** The overall average is the average of the class averages weighted by their sizes. */
  lemma AverageSplits(s: seq<int>, flags: seq<bool>)
    requires |s| == |flags|
    requires Select(s, flags, true) != [] && Select(s, flags, false) != []
    ensures s != []
    ensures |s| as real * Average(s) ==
      |Select(s, flags, true)| as real * Average(Select(s, flags, true)) +
      |Select(s, flags, false)| as real * Average(Select(s, flags, false))
  {
    hide Average;
    SumSplits(s, flags);
    WeightedAverage(s);
    WeightedAverage(Select(s, flags, true));
    WeightedAverage(Select(s, flags, false));
  }

  lemma SumSplits(s: seq<int>, flags: seq<bool>)
    requires |s| == |flags|
    ensures Sum(s) == Sum(Select(s, flags, true)) + Sum(Select(s, flags, false))
  {
    ClassTotals(s, flags, Itself());
  }

  // ------------------------------------------------------ what an average means

  ghost predicate Between(s: seq<int>, lo: int, hi: int) {
    forall i :: 0 <= i < |s| ==> lo <= s[i] <= hi
  }

  lemma {:induction false} SumBetween(s: seq<int>, lo: int, hi: int)
    requires Between(s, lo, hi)
    ensures |s| * lo <= Sum(s) <= |s| * hi
  {
    if s != [] {
      SumBetween(s[..|s| - 1], lo, hi);
      assert |s| * lo == (|s| - 1) * lo + lo && |s| * hi == (|s| - 1) * hi + hi;
    }
  }

  lemma QuotientBetween(n: real, t: real, lo: real, hi: real)
    requires n > 0.0 && n * lo <= t <= n * hi
    ensures lo <= t / n <= hi
  {
    var q := t / n;
    assert n * q == t;
    RealOrder(n, lo, q);
    RealOrder(n, q, hi);
  }

  lemma RealOrder(n: real, a: real, b: real)
    requires n > 0.0
    ensures n * a <= n * b <==> a <= b
  {
    assert n * b - n * a == n * (b - a);
  }

  /** The average lies between any bounds of the samples: so between the least and the greatest. */
  lemma AverageBetween(s: seq<int>, lo: int, hi: int)
    requires s != [] && Between(s, lo, hi)
    ensures lo as real <= Average(s) <= hi as real
  {
    hide Sum;
    SumBetween(s, lo, hi);
    assert (|s| * lo) as real == |s| as real * lo as real && (|s| * hi) as real == |s| as real * hi as real;
    QuotientBetween(|s| as real, Sum(s) as real, lo as real, hi as real);
  }

  /** Every sample raised by `d`. */
  function Raised(s: seq<int>, d: int): (t: seq<int>)
    ensures |t| == |s| && forall i :: 0 <= i < |s| ==> t[i] == s[i] + d
  {
    seq(|s|, i requires 0 <= i < |s| => s[i] + d)
  }

  lemma {:induction false} SumRises(s: seq<int>, d: int)
    ensures Sum(Raised(s, d)) == Sum(s) + |s| * d
  {
    if s != [] {
      var pre := s[..|s| - 1];
      SumRises(pre, d);
      assert Raised(s, d)[..|s| - 1] == Raised(pre, d);
      assert |s| * d == |pre| * d + d;
    }
  }

  /** Raising every sample by `d` raises the average by `d`. */
  lemma AverageRises(s: seq<int>, d: int)
    requires s != []
    ensures Average(Raised(s, d)) == Average(s) + d as real
  {
    SumRises(s, d);
    WeightedAverage(s);
    WeightedAverage(Raised(s, d));
    var n := |s| as real;
    assert n * Average(Raised(s, d)) == (Sum(s) + |s| * d) as real == n * Average(s) + n * d as real;
    assert n * (Average(Raised(s, d)) - Average(s) - d as real) == 0.0;
  }

  /** A single sample is its own average, and one more sample moves the sum by itself. */
  lemma AverageGrows(s: seq<int>, x: int)
    ensures Average([x]) == x as real
    ensures s != [] ==> (|s| + 1) as real * Average(s + [x]) == |s| as real * Average(s) + x as real
  {
    AverageBetween([x], x, x);
    if s != [] {
      assert (s + [x])[..|s|] == s;
      WeightedAverage(s);
      WeightedAverage(s + [x]);
      SumGrows(s, x);
    }
  }

  lemma SumGrows(s: seq<int>, x: int)
    ensures Sum(s + [x]) == Sum(s) + Sum([x]) && Sum([x]) == x
  {
    TotalConcat(s, [x], Itself());
    SumBetween([x], x, x);
  }

  /** Where the samples of value `v` and class `b` are. */
  function Places(s: seq<int>, flags: seq<bool>, b: bool, v: int): set<int>
    requires |s| == |flags|
  {
    set i | 0 <= i < |s| && s[i] == v && flags[i] == b
  }

  lemma PlacesGrow(s: seq<int>, flags: seq<bool>, b: bool, v: int)
    requires |s| == |flags| > 0
    ensures var n := |s| - 1;
      |Places(s, flags, b, v)| == |Places(s[..n], flags[..n], b, v)| + if s[n] == v && flags[n] == b then 1 else 0
  {
    var n := |s| - 1;
    var fewer, all := Places(s[..n], flags[..n], b, v), Places(s, flags, b, v);
    if s[n] == v && flags[n] == b {
      assert all == fewer + {n};
    } else {
      assert all == fewer;
    }
  }

  /** What of each class there is: as many samples of each value as were flagged for it. */
  lemma {:induction false} SelectedAreFlagged(s: seq<int>, flags: seq<bool>, b: bool, v: int)
    requires |s| == |flags|
    ensures multiset(Select(s, flags, b))[v] == |Places(s, flags, b, v)|
  {
    if s == [] {
      assert Places(s, flags, b, v) == {};
    } else {
      var n := |s| - 1;
      SelectedAreFlagged(s[..n], flags[..n], b, v);
      hide Places;
      PlacesGrow(s, flags, b, v);
    }
  }
}
