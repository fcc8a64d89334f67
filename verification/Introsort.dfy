/** `sort` and `nth_element`: introsort over unguarded partitions, finished by insertion. */
module Introsort {
  import opened Orders
  import opened Ranges
  import opened Powers
  import opened Stability
  import InsertionSort
  import Heaps

  const THRESHOLD: nat := 16

  /** The median of three. */
  function Median<T>(a: T, b: T, c: T, less: (T, T) -> bool): T {
    if less(a, b) then
      if less(b, c) then b else if less(a, c) then c else a
    else if less(a, c) then a
    else if less(b, c) then c
    else b
  }

  /** One of the three, with at least two not above it and at least two not below it. */
  lemma MedianIsMiddle<T(!new)>(a: T, b: T, c: T, less: (T, T) -> bool)
    requires StrictWeakOrder(less)
    ensures var m := Median(a, b, c, less);
            && m in [a, b, c]
            && ((!less(m, a) && !less(m, b)) || (!less(m, b) && !less(m, c)) || (!less(m, a) && !less(m, c)))
            && ((!less(a, m) && !less(b, m)) || (!less(b, m) && !less(c, m)) || (!less(a, m) && !less(c, m)))
  {
  }

  /** The elements before `cut` are not above the pivot, those from `cut` on not below it. */
  ghost predicate CutAt<T(!new)>(less: (T, T) -> bool, s: seq<T>, lo: nat, cut: nat, hi: nat, pivot: T) {
    && hi <= |s|
    && (forall i :: lo <= i < cut && i < hi ==> !less(pivot, s[i]))
    && (forall i :: cut <= i < hi ==> !less(s[i], pivot))
  }

  lemma CutIsBelow<T(!new)>(less: (T, T) -> bool, s: seq<T>, lo: nat, cut: nat, hi: nat, pivot: T)
    requires StrictWeakOrder(less) && CutAt(less, s, lo, cut, hi, pivot)
    ensures Below(less, s, lo, cut, hi)
  {
  }

  /** Neither scan has a bound: the one upwards stops at `guard` at the latest. */
  method ScanUp<T(!new)>(a: array<T>, from: nat, pivot: T, less: (T, T) -> bool, ghost guard: nat) returns (first: nat)
    requires StrictWeakOrder(less) && from <= guard < a.Length && !less(a[guard], pivot)
    ensures from <= first <= guard && !less(a[first], pivot)
    ensures forall i :: from <= i < first ==> !less(pivot, a[i])
  {
    first := from;
    while less(a[first], pivot)
      invariant from <= first <= guard
      invariant forall i :: from <= i < first ==> !less(pivot, a[i])
      decreases guard - first
    {
      first := first + 1;
    }
  }

  /** The one downwards, likewise. */
  method ScanDown<T(!new)>(a: array<T>, from: nat, pivot: T, less: (T, T) -> bool, ghost guard: nat) returns (last: nat)
    requires StrictWeakOrder(less) && guard < from <= a.Length && !less(pivot, a[guard])
    ensures guard <= last < from && !less(pivot, a[last])
    ensures forall i :: last < i < from ==> !less(a[i], pivot)
  {
    last := from - 1;
    while less(pivot, a[last])
      invariant guard <= last < from
      invariant forall i :: last < i < from ==> !less(a[i], pivot)
      decreases last
    {
      last := last - 1;
    }
  }

  /** The elements outside the stretch from `first` to `last` are on their sides of the pivot. */
  ghost predicate Narrowed<T(!new)>(less: (T, T) -> bool, s: seq<T>, lo: nat, first: nat, last: nat, hi: nat,
                             pivot: T) {
    && hi <= |s|
    && (forall i :: lo <= i < first && i < hi ==> !less(pivot, s[i]))
    && (forall i :: last <= i < hi ==> !less(s[i], pivot))
  }

  lemma NarrowedScans<T(!new)>(less: (T, T) -> bool, s: seq<T>, lo: nat, first: nat, last: nat, hi: nat, pivot: T,
                        up: nat, down: nat)
    requires Narrowed(less, s, lo, first, last, hi, pivot) && first <= up < hi && down < last <= hi
    requires forall i :: first <= i < up ==> !less(pivot, s[i])
    requires forall i :: down < i < last ==> !less(s[i], pivot)
    ensures Narrowed(less, s, lo, up, down + 1, hi, pivot)
  {
  }

  lemma NarrowedSwap<T(!new)>(less: (T, T) -> bool, s: seq<T>, lo: nat, first: nat, last: nat, hi: nat, pivot: T)
    requires Narrowed(less, s, lo, first, last + 1, hi, pivot) && first < last < hi
    requires !less(s[first], pivot) && !less(pivot, s[last])
    ensures Narrowed(less, Swapped(s, first, last), lo, first + 1, last, hi, pivot)
  {
  }

  lemma NarrowedMeets<T(!new)>(less: (T, T) -> bool, s: seq<T>, lo: nat, first: nat, last: nat, hi: nat, pivot: T)
    requires Narrowed(less, s, lo, first, last + 1, hi, pivot) && last <= first < hi && !less(s[first], pivot)
    ensures CutAt(less, s, lo, first, hi, pivot)
  {
  }

  /** The elements that will stop the scans. */
  ghost predicate Stops<T(!new)>(less: (T, T) -> bool, s: seq<T>, up: nat, down: nat, pivot: T) {
    up < |s| && down < |s| && !less(s[up], pivot) && !less(pivot, s[down])
  }

  /** One swap of the partition: each swapped element stops the other scan from now on. */
  lemma SwapStep<T(!new)>(less: (T, T) -> bool, s: seq<T>, t: seq<T>, lo: nat, first: nat, last: nat, hi: nat, pivot: T)
    requires Narrowed(less, t, lo, first, last + 1, hi, pivot) && lo <= first < last < hi
    requires !less(t[first], pivot) && !less(pivot, t[last]) && Permuted(s, t, lo, hi)
    ensures var u := Swapped(t, first, last);
            && Narrowed(less, u, lo, first + 1, last, hi, pivot)
            && Permuted(s, u, lo, hi) && Stops(less, u, last, first, pivot)
  {
    PermutedSwap(t, first, last, lo, hi);
    PermutedTrans(s, t, Swapped(t, first, last), lo, hi);
    hide Permuted;
    NarrowedSwap(less, t, lo, first, last, hi, pivot);
  }

  /** `__unguarded_partition`: elements that stop the scans must be there; with two that stop
      the downward one, `low` and `low1`, the cut is strictly inside. */
  method UnguardedPartition<T(!new)>(a: array<T>, lo: nat, hi: nat, pivot: T, less: (T, T) -> bool,
                                     ghost high: nat, ghost low: nat, ghost low1: nat)
    returns (cut: nat)
    requires StrictWeakOrder(less) && lo <= high < hi <= a.Length && lo <= low < low1 < hi
    requires !less(a[high], pivot) && !less(pivot, a[low]) && !less(pivot, a[low1])
    modifies a
    ensures lo < cut < hi && CutAt(less, a[..], lo, cut, hi, pivot) && Permuted(old(a[..]), a[..], lo, hi)
  {
    hide Permuted, StrictWeakOrder, Narrowed, CutAt, Swapped;
    ghost var s := a[..];
    PermutedRefl(s, lo, hi);
    NarrowedStart(less, s, lo, hi, pivot);
    var first, last := lo, hi;
    ghost var up, down := high, low1;
    while true
      invariant lo <= first <= up < hi && lo <= down < last <= hi && first <= last
      invariant if first == lo then down == low1 else up == last
      invariant Stops(less, a[..], up, down, pivot)
      invariant Narrowed(less, a[..], lo, first, last, hi, pivot)
      invariant Permuted(s, a[..], lo, hi)
      decreases last - first
    {
      ghost var first0, last0 := first, last;
      first := ScanUp(a, first, pivot, less, up);
      last := ScanDown(a, last, pivot, less, down);
      NarrowedScans(less, a[..], lo, first0, last0, hi, pivot, first, last);
      if !(first < last) {
        NarrowedMeets(less, a[..], lo, first, last, hi, pivot);
        return first;
      }
      ghost var t := a[..];
      IterSwap(a, first, last);
      SwapStep(less, s, t, lo, first, last, hi, pivot);
      first := first + 1;
      up, down := last, first - 1;
    }
  }

  lemma NarrowedStart<T(!new)>(less: (T, T) -> bool, s: seq<T>, lo: nat, hi: nat, pivot: T)
    requires hi <= |s|
    ensures Narrowed(less, s, lo, lo, hi, hi, pivot)
  {
  }

  /** The partition around the median of the first, the middle and the last element. */
  method MedianPartition<T(!new)>(a: array<T>, lo: nat, hi: nat, less: (T, T) -> bool) returns (cut: nat)
    requires StrictWeakOrder(less) && lo + 3 <= hi <= a.Length
    modifies a
    ensures lo < cut < hi && Below(less, a[..], lo, cut, hi) && Permuted(old(a[..]), a[..], lo, hi)
  {
    hide Permuted, CutAt, Below;
    ghost var m := lo + (hi - lo) / 2;
    var pivot := Median(a[lo], a[lo + (hi - lo) / 2], a[hi - 1], less);
    MedianIsMiddle(a[lo], a[m], a[hi - 1], less);
    ghost var high := if !less(a[lo], pivot) then lo else m;
    ghost var low := if !less(pivot, a[lo]) then lo else m;
    ghost var low1 := if low == lo && !less(pivot, a[m]) then m else hi - 1;
    cut := UnguardedPartition(a, lo, hi, pivot, less, high, low, low1);
    CutIsBelow(less, a[..], lo, cut, hi, pivot);
  }

  /** Elements sixteen or more places apart are in order. */
  ghost predicate NearlySorted<T(!new)>(less: (T, T) -> bool, s: seq<T>, lo: nat, hi: nat) {
    hi <= |s| && forall i, j :: lo <= i && i + THRESHOLD <= j < hi ==> !less(s[j], s[i])
  }

  lemma NearlySortedJoin<T(!new)>(less: (T, T) -> bool, s: seq<T>, lo: nat, mid: nat, hi: nat)
    requires NearlySorted(less, s, lo, mid) && Below(less, s, lo, mid, hi) && NearlySorted(less, s, mid, hi)
    ensures NearlySorted(less, s, lo, hi)
  {
  }

  lemma NearlySortedCopied<T(!new)>(less: (T, T) -> bool, s: seq<T>, t: seq<T>, lo: nat, hi: nat)
    requires lo <= hi && NearlySorted(less, s, lo, hi) && |s| == |t| && s[lo..] == t[lo..]
    ensures NearlySorted(less, t, lo, hi)
  {
    forall i | lo <= i < hi
      ensures s[i] == t[i]
    {
      assert s[lo..][i - lo] == t[lo..][i - lo];
    }
  }

  lemma NearlySortedCases<T(!new)>(less: (T, T) -> bool, s: seq<T>, lo: nat, hi: nat)
    requires lo <= hi <= |s|
    ensures hi - lo <= THRESHOLD || SortedIn(less, s, lo, hi) ==> NearlySorted(less, s, lo, hi)
  {
  }

  /** One cut of the loop: `t` comes after the partition of the front of `s`, `u` after the
      upper part of the cut is done. */
  lemma CutDone<T(!new)>(less: (T, T) -> bool, s: seq<T>, t: seq<T>, u: seq<T>, lo: nat, cut: nat, last: nat, hi: nat)
    requires lo < cut < last <= hi <= |s|
    requires Below(less, s, lo, last, hi) && NearlySorted(less, s, last, hi)
    requires Permuted(s, t, lo, last) && Below(less, t, lo, cut, last)
    requires Permuted(t, u, cut, last) && NearlySorted(less, u, cut, last)
    ensures Below(less, u, lo, cut, hi) && NearlySorted(less, u, cut, hi) && Permuted(s, u, lo, last)
  {
    BelowPermutedHigh(less, t, u, lo, cut, last);
    PermutedWiden(t, u, cut, last, lo, last);
    PermutedTrans(s, t, u, lo, last);
    BelowPermutedLow(less, s, u, lo, last, hi);
    assert s[last..] == u[last..];
    NearlySortedCopied(less, s, u, last, hi);
    hide Permuted, NearlySorted;
    assert Below(less, u, cut, last, hi);
    NearlySortedJoin(less, u, cut, last, hi);
  }

  /** `__introsort_loop`: leaves no element sixteen places or more from one it should precede. */
  method IntrosortLoop<T(!new)>(a: array<T>, lo: nat, hi: nat, depthLimit: nat, less: (T, T) -> bool)
    requires StrictWeakOrder(less) && lo <= hi <= a.Length
    modifies a
    ensures NearlySorted(less, a[..], lo, hi) && Permuted(old(a[..]), a[..], lo, hi)
    decreases depthLimit
  {
    hide Permuted, Below, NearlySorted, StrictWeakOrder, SortedIn;
    ghost var s := a[..];
    PermutedRefl(s, lo, hi);
    EmptyEnd(less, s, lo, hi);
    var last, limit: nat := hi, depthLimit;
    while last - lo > THRESHOLD
      invariant lo <= last <= hi && limit <= depthLimit
      invariant Below(less, a[..], lo, last, hi) && NearlySorted(less, a[..], last, hi)
      invariant Permuted(s, a[..], lo, hi)
      decreases limit
    {
      ghost var t := a[..];
      if limit == 0 {
        Heaps.PartialSort(a, lo, last, last, less);
        FrontDone(less, t, a[..], lo, last, hi);
        PermutedTrans(s, t, a[..], lo, hi);
        return;
      }
      limit := limit - 1;
      var cut := MedianPartition(a, lo, last, less);
      ghost var u := a[..];
      IntrosortLoop(a, cut, last, limit, less);
      CutDone(less, t, u, a[..], lo, cut, last, hi);
      PermutedWiden(t, a[..], lo, last, lo, hi);
      PermutedTrans(s, t, a[..], lo, hi);
      last := cut;
    }
    NearlySortedCases(less, a[..], lo, last);
    NearlySortedJoin(less, a[..], lo, last, hi);
  }

  lemma EmptyEnd<T(!new)>(less: (T, T) -> bool, s: seq<T>, lo: nat, hi: nat)
    requires lo <= hi <= |s|
    ensures Below(less, s, lo, hi, hi) && NearlySorted(less, s, hi, hi)
  {
  }

  lemma FrontDone<T(!new)>(less: (T, T) -> bool, s: seq<T>, t: seq<T>, lo: nat, last: nat, hi: nat)
    requires lo <= last <= hi <= |s| && Below(less, s, lo, last, hi) && NearlySorted(less, s, last, hi)
    requires Permuted(s, t, lo, last) && SortedIn(less, t, lo, last)
    ensures NearlySorted(less, t, lo, hi) && Permuted(s, t, lo, hi)
  {
    BelowPermutedLow(less, s, t, lo, last, hi);
    NearlySortedCopied(less, s, t, last, hi);
    NearlySortedCases(less, t, lo, last);
    NearlySortedJoin(less, t, lo, last, hi);
    PermutedWiden(s, t, lo, last, lo, hi);
  }

  /** After the first sixteen are sorted, the first one is below all the rest. */
  lemma FirstIsGuard<T(!new)>(less: (T, T) -> bool, s: seq<T>, t: seq<T>, lo: nat, hi: nat)
    requires StrictWeakOrder(less) && lo + THRESHOLD < hi <= |s| && NearlySorted(less, s, lo, hi)
    requires StablySorted(less, s, t, lo, lo + THRESHOLD)
    ensures InsertionSort.Guarded(less, t, lo, lo + THRESHOLD, hi)
  {
    var mid := lo + THRESHOLD;
    StablyPermuted(less, s, t, lo, mid);
    InsertionSort.PermutedSym(s, t, lo, mid);
    var j := PermutedFrom(t, s, lo, mid, lo);
    assert !less(s[lo], t[lo]);
    forall k | mid <= k < hi
      ensures !less(t[k], t[lo])
    {
      assert t[k] == t[mid..][k - mid] == s[mid..][k - mid] == s[k];
    }
  }

  /** `__final_insertion_sort`: guarded for the first sixteen, unguarded from there. */
  method FinalInsertionSort<T(!new)>(a: array<T>, lo: nat, hi: nat, less: (T, T) -> bool)
    requires StrictWeakOrder(less) && lo <= hi <= a.Length && NearlySorted(less, a[..], lo, hi)
    modifies a
    ensures StablySorted(less, old(a[..]), a[..], lo, hi)
  {
    hide Stably, NearlySorted, StrictWeakOrder, SortedIn, InsertionSort.Guarded;
    if hi - lo > THRESHOLD {
      ghost var s := a[..];
      InsertionSort.Sort(a, lo, lo + THRESHOLD, less);
      ghost var t := a[..];
      FirstIsGuard(less, s, t, lo, hi);
      InsertionSort.UnguardedSort(a, lo + THRESHOLD, hi, less, lo);
      InsertionSort.SortedFurther(less, s, t, a[..], lo, lo + THRESHOLD, hi);
    } else {
      InsertionSort.Sort(a, lo, hi, less);
    }
  }

  /** `__lg`: the logarithm to base two, rounded down. */
  method Lg(n0: nat) returns (k: nat)
    requires n0 > 0
    ensures Pow2(k) <= n0 < Pow2(k + 1)
  {
    k := 0;
    var n := n0;
    while n != 1
      invariant n > 0 && n * Pow2(k) <= n0 < (n + 1) * Pow2(k)
      decreases n
    {
      Halved(n, n0, Pow2(k));
      n := n / 2;
      k := k + 1;
    }
  }

  lemma Halved(n: nat, n0: nat, p: nat)
    requires n * p <= n0 < (n + 1) * p
    ensures (n / 2) * (2 * p) <= n0 < (n / 2 + 1) * (2 * p)
  {
    assert (n / 2) * (2 * p) == (n / 2 * 2) * p <= n * p;
    assert (n / 2 + 1) * (2 * p) == (n / 2 * 2 + 2) * p >= (n + 1) * p;
  }

  /** `sort`. */
  method Sort<T(!new)>(a: array<T>, lo: nat, hi: nat, less: (T, T) -> bool)
    requires StrictWeakOrder(less) && lo <= hi <= a.Length
    modifies a
    ensures SortedIn(less, a[..], lo, hi) && Permuted(old(a[..]), a[..], lo, hi)
  {
    hide Stably, NearlySorted, StrictWeakOrder, Permuted;
    ghost var s := a[..];
    PermutedRefl(s, lo, hi);
    if lo != hi {
      var k := Lg(hi - lo);
      IntrosortLoop(a, lo, hi, k * 2, less);
      ghost var t := a[..];
      FinalInsertionSort(a, lo, hi, less);
      StablyPermuted(less, t, a[..], lo, hi);
      PermutedTrans(s, t, a[..], lo, hi);
    }
  }

  lemma BelowSplit<T(!new)>(less: (T, T) -> bool, s: seq<T>, t: seq<T>, lo: nat, first: nat, cut: nat, last: nat,
                     hi: nat)
    requires lo <= first < cut < last <= hi <= |s| && Permuted(s, t, first, last)
    requires Below(less, s, lo, first, hi) && Below(less, s, lo, last, hi) && Below(less, t, first, cut, last)
    ensures Below(less, t, lo, first, hi) && Below(less, t, lo, cut, hi) && Below(less, t, lo, last, hi)
    ensures Permuted(s, t, lo, hi)
  {
    PermutedWiden(s, t, first, last, lo, last);
    PermutedWiden(s, t, first, last, first, hi);
    PermutedWiden(s, t, first, last, lo, hi);
    BelowPermutedLow(less, s, t, lo, last, hi);
    BelowPermutedHigh(less, s, t, lo, first, hi);
  }

  /** The last stretch sorted puts the element at `nth` in its place. */
  lemma NthPlaced<T(!new)>(less: (T, T) -> bool, s: seq<T>, t: seq<T>, lo: nat, first: nat, nth: nat, last: nat,
                    hi: nat)
    requires StrictWeakOrder(less) && lo <= first <= nth <= last <= hi <= |s| && (nth == last ==> last == hi)
    requires Below(less, s, lo, first, hi) && Below(less, s, lo, last, hi)
    requires Permuted(s, t, first, last) && SortedIn(less, t, first, last)
    ensures Below(less, t, lo, nth, hi) && (nth < hi ==> Below(less, t, lo, nth + 1, hi))
    ensures Permuted(s, t, lo, hi)
  {
    PermutedWiden(s, t, first, last, lo, last);
    PermutedWiden(s, t, first, last, first, hi);
    PermutedWiden(s, t, first, last, lo, hi);
    BelowPermutedLow(less, s, t, lo, last, hi);
    BelowPermutedHigh(less, s, t, lo, first, hi);
  }

  /** `nth_element`: nothing before `nth` is above what is there, and nothing after it below. */
  method NthElement<T(!new)>(a: array<T>, lo: nat, nth: nat, hi: nat, less: (T, T) -> bool)
    requires StrictWeakOrder(less) && lo <= nth <= hi <= a.Length
    modifies a
    ensures Below(less, a[..], lo, nth, hi) && (nth < hi ==> Below(less, a[..], lo, nth + 1, hi))
    ensures Permuted(old(a[..]), a[..], lo, hi)
  {
    hide Permuted, Below, StrictWeakOrder, Stably, SortedIn;
    ghost var s := a[..];
    PermutedRefl(s, lo, hi);
    BelowEnds(less, s, lo, hi);
    var first, last := lo, hi;
    while last - first > 3
      invariant lo <= first <= nth <= last <= hi && (nth == last ==> last == hi)
      invariant Below(less, a[..], lo, first, hi) && Below(less, a[..], lo, last, hi)
      invariant Permuted(s, a[..], lo, hi)
      decreases last - first
    {
      ghost var t := a[..];
      var cut := MedianPartition(a, first, last, less);
      BelowSplit(less, t, a[..], lo, first, cut, last, hi);
      PermutedTrans(s, t, a[..], lo, hi);
      if cut <= nth {
        first := cut;
      } else {
        last := cut;
      }
    }
    ghost var t := a[..];
    InsertionSort.Sort(a, first, last, less);
    StablyPermuted(less, t, a[..], first, last);
    NthPlaced(less, t, a[..], lo, first, nth, last, hi);
    PermutedTrans(s, t, a[..], lo, hi);
  }

  lemma BelowEnds<T(!new)>(less: (T, T) -> bool, s: seq<T>, lo: nat, hi: nat)
    requires lo <= hi <= |s|
    ensures Below(less, s, lo, lo, hi) && Below(less, s, lo, hi, hi)
  {
  }
}
