/** The in-place quicksort of pcap_analyse/burst_width.c. Its partition moves a hole
    through the range instead of swapping. */
module QuickSort {

  ghost predicate SortedRange(s: seq<int>, lo: int, hi: int)
    requires 0 <= lo && hi < |s|
  {
    forall i, j :: lo <= i < j <= hi ==> s[i] <= s[j]
  }

  ghost predicate Sorted(s: seq<int>) {
    forall i, j :: 0 <= i < j < |s| ==> s[i] <= s[j]
  }

  /** `t` is `s` with the elements of `lo..hi` (inclusive) rearranged and nothing else touched. */
  ghost predicate Rearranged(s: seq<int>, t: seq<int>, lo: int, hi: int) {
    && 0 <= lo <= hi + 1 <= |s| == |t|
    && (forall i :: 0 <= i < |s| && !(lo <= i <= hi) ==> s[i] == t[i])
    && multiset(s) == multiset(t)
  }

  /** Everything left of `mid` is at most the pivot at `mid`, everything right of it at least. */
  ghost predicate Parted(s: seq<int>, lo: int, mid: int, hi: int)
    requires 0 <= lo <= mid <= hi < |s|
  {
    && (forall i :: lo <= i < mid ==> s[i] <= s[mid])
    && (forall i :: mid < i <= hi ==> s[i] >= s[mid])
  }

  lemma MoveHole(s: seq<int>, from: int, to: int, x: int)
    requires 0 <= from < |s| && 0 <= to < |s|
    ensures multiset(s[from := s[to]][to := x]) == multiset(s[from := x])
  {
    if from != to {
      assert multiset(s[from := s[to]]) == multiset(s) - multiset{s[from]} + multiset{s[to]};
    }
  }

  /** The invariant of the partition: filling the hole with the pivot gives back the elements. */
  ghost predicate Holed(s: seq<int>, t: seq<int>, lo: int, hi: int, hole: int, pivot: int) {
    && 0 <= lo <= hole <= hi < |s| == |t|
    && Rearranged(s, t[hole := pivot], lo, hi)
  }

  lemma HoleMoves(s: seq<int>, t: seq<int>, lo: int, hi: int, hole: int, next: int, pivot: int)
    requires Holed(s, t, lo, hi, hole, pivot) && lo <= next <= hi
    ensures Holed(s, t[hole := t[next]], lo, hi, next, pivot)
  {
    MoveHole(t, hole, next, pivot);
  }

  lemma HoleStarts(s: seq<int>, lo: int, hi: int)
    requires 0 <= lo <= hi < |s|
    ensures Holed(s, s, lo, hi, lo, s[lo])
  {
    assert s[lo := s[lo]] == s;
  }

  lemma HoleFilled(s: seq<int>, t: seq<int>, lo: int, hi: int, hole: int, pivot: int)
    requires Holed(s, t, lo, hi, hole, pivot)
    ensures Rearranged(s, t[hole := pivot], lo, hi)
  {
  }

  /** The scan from the right: the first element from `r` down that is less than the pivot. */
  method ScanDown(arr: array<int>, l: int, r: int, tmp: int) returns (stop: int)
    requires 0 <= l <= r < arr.Length
    ensures l <= stop <= r
    ensures forall i :: stop < i <= r ==> arr[i] >= tmp
    ensures l < stop ==> arr[stop] < tmp
  {
    stop := r;
    while l < stop && arr[stop] >= tmp
      invariant l <= stop <= r
      invariant forall i :: stop < i <= r ==> arr[i] >= tmp
    {
      stop := stop - 1;
    }
  }

  /** The scan from the left: the first element from `l` up that is greater than the pivot. */
  method ScanUp(arr: array<int>, l: int, r: int, tmp: int) returns (stop: int)
    requires 0 <= l <= r < arr.Length
    ensures l <= stop <= r
    ensures forall i :: l <= i < stop ==> arr[i] <= tmp
    ensures stop < r ==> arr[stop] > tmp
  {
    stop := l;
    while stop < r && arr[stop] <= tmp
      invariant l <= stop <= r
      invariant forall i :: l <= i < stop ==> arr[i] <= tmp
    {
      stop := stop + 1;
    }
  }

  method PartSort(arr: array<int>, first: int, end: int) returns (mid: int)
    requires 0 <= first < end < arr.Length
    modifies arr
    ensures first <= mid <= end
    ensures Rearranged(old(arr[..]), arr[..], first, end)
    ensures Parted(arr[..], first, mid, end)
  {
    hide Holed, Rearranged;
    ghost var s := arr[..];
    var tmp := arr[first];
    var l, r := first, end;
    HoleStarts(s, first, end);
    while l != r
      invariant first <= l <= r <= end
      invariant Holed(s, arr[..], first, end, l, tmp)
      invariant forall i :: first <= i < l ==> arr[i] <= tmp
      invariant forall i :: r < i <= end ==> arr[i] >= tmp
      decreases r - l
    {
      r := ScanDown(arr, l, r, tmp);
      ghost var t := arr[..];
      HoleMoves(s, t, first, end, l, r, tmp);
      arr[l] := arr[r];
      assert arr[..] == t[l := t[r]];
      l := ScanUp(arr, l, r, tmp);
      t := arr[..];
      HoleMoves(s, t, first, end, r, l, tmp);
      arr[r] := arr[l];
      assert arr[..] == t[r := t[l]];
    }
    ghost var t := arr[..];
    HoleFilled(s, t, first, end, l, tmp);
    arr[l] := tmp;
    assert arr[..] == t[l := tmp];
    mid := l;
  }

  lemma Cancel(p: multiset<int>, a: multiset<int>, b: multiset<int>, q: multiset<int>)
    requires p + a + q == p + b + q
    ensures a == b
  {
    forall x: int
      ensures a[x] == b[x]
    {
      assert (p + a + q)[x] == (p + b + q)[x];
    }
  }

  lemma CutInThree(s: seq<int>, lo: int, hi: int)
    requires 0 <= lo <= hi <= |s|
    ensures multiset(s) == multiset(s[..lo]) + multiset(s[lo..hi]) + multiset(s[hi..])
  {
    assert s == s[..lo] + s[lo..hi] + s[hi..];
  }

  /** The elements inside the range come from inside the range. */
  lemma ComesFromRange(s: seq<int>, t: seq<int>, lo: int, hi: int, i: int)
    requires Rearranged(s, t, lo, hi) && lo <= i <= hi
    ensures exists j :: lo <= j <= hi && s[j] == t[i]
  {
    var a, b := s[lo..hi + 1], t[lo..hi + 1];
    CutInThree(s, lo, hi + 1);
    CutInThree(t, lo, hi + 1);
    assert s[..lo] == t[..lo] && s[hi + 1..] == t[hi + 1..];
    Cancel(multiset(s[..lo]), multiset(a), multiset(b), multiset(s[hi + 1..]));
    assert b[i - lo] in multiset(b);
    assert b[i - lo] in a;
    var k :| 0 <= k < |a| && a[k] == b[i - lo];
    assert s[lo + k] == t[i];
  }

  /** Rearranging one side of the pivot keeps the range parted. */
  lemma PartedKept(s: seq<int>, t: seq<int>, lo: int, mid: int, hi: int, a: int, b: int)
    requires 0 <= lo <= mid <= hi < |s| && Parted(s, lo, mid, hi)
    requires Rearranged(s, t, a, b)
    requires (a == lo && b == mid - 1) || (a == mid + 1 && b == hi)
    ensures Parted(t, lo, mid, hi)
  {
    forall i | a <= i <= b
      ensures i < mid ==> t[i] <= t[mid]
      ensures i > mid ==> t[i] >= t[mid]
    {
      ComesFromRange(s, t, a, b, i);
    }
  }

  method Quick(arr: array<int>, first: int, end: int)
    requires 0 <= first <= end + 1 <= arr.Length
    modifies arr
    ensures Rearranged(old(arr[..]), arr[..], first, end)
    ensures SortedRange(arr[..], first, end)
    decreases end - first
  {
    if first < end {
      var mid := PartSort(arr, first, end);
      ghost var s1 := arr[..];
      Quick(arr, first, mid - 1);
      ghost var s2 := arr[..];
      PartedKept(s1, s2, first, mid, end, first, mid - 1);
      Quick(arr, mid + 1, end);
      PartedKept(s2, arr[..], first, mid, end, mid + 1, end);
    }
  }
}
