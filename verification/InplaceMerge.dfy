/** Merging two adjacent sorted stretches in place, with a buffer of any size or none. */
module InplaceMerge {
  import opened Orders
  import opened Ranges
  import opened Stability
  import opened Copying
  import opened Rotate
  import opened Merging

  /** `__lower_bound`: the first place in a sorted stretch whose element is not less than `val`. */
  method LowerBound<T(!new)>(a: array<T>, lo: nat, hi: nat, val: T, less: (T, T) -> bool) returns (first: nat)
    requires StrictWeakOrder(less) && lo <= hi <= a.Length && SortedIn(less, a[..], lo, hi)
    ensures lo <= first <= hi
    ensures forall i :: lo <= i < first ==> less(a[i], val)
    ensures forall i :: first <= i < hi ==> !less(a[i], val)
  {
    first := lo;
    var len := hi - lo;
    while len > 0
      invariant lo <= first <= first + len <= hi
      invariant forall i :: lo <= i < first ==> less(a[i], val)
      invariant forall i :: first + len <= i < hi ==> !less(a[i], val)
    {
      var half := len / 2;
      var middle := first + half;
      if less(a[middle], val) {
        first := middle + 1;
        len := len - half - 1;
      } else {
        len := half;
      }
    }
  }

  /** `__upper_bound`: the first place in a sorted stretch whose element is greater than `val`. */
  method UpperBound<T(!new)>(a: array<T>, lo: nat, hi: nat, val: T, less: (T, T) -> bool) returns (first: nat)
    requires StrictWeakOrder(less) && lo <= hi <= a.Length && SortedIn(less, a[..], lo, hi)
    ensures lo <= first <= hi
    ensures forall i :: lo <= i < first ==> !less(val, a[i])
    ensures forall i :: first <= i < hi ==> less(val, a[i])
  {
    first := lo;
    var len := hi - lo;
    while len > 0
      invariant lo <= first <= first + len <= hi
      invariant forall i :: lo <= i < first ==> !less(val, a[i])
      invariant forall i :: first + len <= i < hi ==> less(val, a[i])
    {
      var half := len / 2;
      var middle := first + half;
      if less(val, a[middle]) {
        len := half;
      } else {
        first := middle + 1;
        len := len - half - 1;
      }
    }
  }

  ghost predicate TwoRuns<T(!new)>(less: (T, T) -> bool, s: seq<T>, first: nat, mid: nat, last: nat) {
    first <= mid <= last <= |s| && SortedIn(less, s, first, mid) && SortedIn(less, s, mid, last)
  }

  /** Cuts of both runs such that what lies before them goes before what lies after: exchanging
      the two inner pieces is stable. */
  ghost predicate GoodCut<T(!new)>(less: (T, T) -> bool, s: seq<T>, first: nat, cut1: nat, mid: nat, cut2: nat,
                            last: nat) {
    && first <= cut1 <= mid <= cut2 <= last <= |s|
    && (forall i, j :: cut1 <= i < mid <= j < cut2 ==> less(s[j], s[i]))
    && (forall i, j :: first <= i < cut1 && cut2 <= j < last ==> !less(s[j], s[i]))
  }

  lemma CutByFirst<T(!new)>(less: (T, T) -> bool, s: seq<T>, first: nat, cut1: nat, mid: nat, cut2: nat, last: nat)
    requires StrictWeakOrder(less) && TwoRuns(less, s, first, mid, last) && first <= cut1 < mid <= cut2 <= last
    requires forall j :: mid <= j < cut2 ==> less(s[j], s[cut1])
    requires forall j :: cut2 <= j < last ==> !less(s[j], s[cut1])
    ensures GoodCut(less, s, first, cut1, mid, cut2, last)
  {
    forall i, j | cut1 <= i < mid <= j < cut2
      ensures less(s[j], s[i])
    {
      assert i > cut1 ==> !less(s[i], s[cut1]);
    }
    forall i, j | first <= i < cut1 && cut2 <= j < last
      ensures !less(s[j], s[i])
    {
      assert !less(s[cut1], s[i]);
    }
  }

  lemma CutBySecond<T(!new)>(less: (T, T) -> bool, s: seq<T>, first: nat, cut1: nat, mid: nat, cut2: nat, last: nat)
    requires StrictWeakOrder(less) && TwoRuns(less, s, first, mid, last) && first <= cut1 <= mid <= cut2 < last
    requires forall i :: first <= i < cut1 ==> !less(s[cut2], s[i])
    requires forall i :: cut1 <= i < mid ==> less(s[cut2], s[i])
    ensures GoodCut(less, s, first, cut1, mid, cut2, last)
  {
    forall i, j | cut1 <= i < mid <= j < cut2
      ensures less(s[j], s[i])
    {
      assert !less(s[cut2], s[j]);
    }
    forall i, j | first <= i < cut1 && cut2 <= j < last
      ensures !less(s[j], s[i])
    {
      assert j > cut2 ==> !less(s[j], s[cut2]);
    }
  }

  /** The exchange leaves two pairs of runs, the first below the second. */
  lemma CutRotated<T(!new)>(less: (T, T) -> bool, s: seq<T>, first: nat, cut1: nat, mid: nat, cut2: nat, last: nat)
    requires StrictWeakOrder(less) && TwoRuns(less, s, first, mid, last) &&
      GoodCut(less, s, first, cut1, mid, cut2, last)
    ensures var t, at := Rotated(s, cut1, mid, cut2), cut1 + (cut2 - mid);
            && Stably(less, s, t, first, last)
            && TwoRuns(less, t, first, cut1, at) && TwoRuns(less, t, at, cut2, last)
            && Below(less, t, first, at, last)
  {
    CutRotatedStably(less, s, first, cut1, mid, cut2, last);
    CutRotatedRuns(less, s, first, cut1, mid, cut2, last);
  }

  lemma CutRotatedStably<T(!new)>(less: (T, T) -> bool, s: seq<T>, first: nat, cut1: nat, mid: nat, cut2: nat,
                           last: nat)
    requires StrictWeakOrder(less) && GoodCut(less, s, first, cut1, mid, cut2, last)
    ensures Stably(less, s, Rotated(s, cut1, mid, cut2), first, last)
  {
    var t := Rotated(s, cut1, mid, cut2);
    var x, y := s[cut1..mid], s[mid..cut2];
    forall i, j | 0 <= i < |x| && 0 <= j < |y|
      ensures less(y[j], x[i])
    {
      assert x[i] == s[cut1 + i] && y[j] == s[mid + j];
    }
    SameClassesSwap(less, x, y);
    assert s[cut1..cut2] == x + y && t[cut1..cut2] == y + x;
    assert s[..cut1] == t[..cut1] && s[cut2..] == t[cut2..];
    StablyWiden(less, s, t, cut1, cut2, first, last);
  }

  /** Where the elements of the exchanged pieces were. */
  ghost function Was(cut1: nat, mid: nat, cut2: nat, i: nat): int {
    if i < cut1 || i >= cut2 then i
    else if i < cut1 + (cut2 - mid) then i + (mid - cut1)
    else i - (cut2 - mid)
  }

  lemma RotatedAt<T>(s: seq<T>, cut1: nat, mid: nat, cut2: nat, i: nat)
    requires cut1 <= mid <= cut2 <= |s| && i < |s|
    ensures 0 <= Was(cut1, mid, cut2, i) < |s| && Rotated(s, cut1, mid, cut2)[i] == s[Was(cut1, mid, cut2, i)]
  {
  }

  lemma CutRotatedRuns<T(!new)>(less: (T, T) -> bool, s: seq<T>, first: nat, cut1: nat, mid: nat, cut2: nat, last: nat)
    requires StrictWeakOrder(less) && TwoRuns(less, s, first, mid, last) &&
      GoodCut(less, s, first, cut1, mid, cut2, last)
    ensures var t, at := Rotated(s, cut1, mid, cut2), cut1 + (cut2 - mid);
            && TwoRuns(less, t, first, cut1, at) && TwoRuns(less, t, at, cut2, last)
            && Below(less, t, first, at, last)
  {
    var t, at := Rotated(s, cut1, mid, cut2), cut1 + (cut2 - mid);
    forall i | 0 <= i < |s|
      ensures t[i] == s[Was(cut1, mid, cut2, i)]
    {
      RotatedAt(s, cut1, mid, cut2, i);
    }
    hide Rotated, StrictWeakOrder;
    assert TwoRuns(less, t, first, cut1, at);
    assert TwoRuns(less, t, at, cut2, last);
    forall i, j | first <= i < at <= j < last
      ensures !less(t[j], t[i])
    {
      Asymmetric(less, t[j], t[i]);
    }
  }

  /** Both pairs of runs merged, the whole is sorted stably. */
  lemma BothMerged<T(!new)>(less: (T, T) -> bool, s: seq<T>, t: seq<T>, u: seq<T>, v: seq<T>, first: nat, at: nat,
                     last: nat)
    requires StrictWeakOrder(less) && first <= at <= last <= |s| && Stably(less, s, t, first, last)
    requires Below(less, t, first, at, last)
    requires StablySorted(less, t, u, first, at) && StablySorted(less, u, v, at, last)
    ensures StablySorted(less, s, v, first, last)
  {
    BothStably(less, s, t, u, v, first, at, last);
    StablyPermuted(less, t, u, first, at);
    StablyPermuted(less, u, v, at, last);
    BelowPermutedLow(less, t, u, first, at, last);
    BelowPermutedHigh(less, u, v, first, at, last);
    assert v[..at] == u[..at];
    hide StrictWeakOrder, Stably, Permuted;
    SortedJoin(less, u, v, first, at, last);
  }

  lemma BothStably<T(!new)>(less: (T, T) -> bool, s: seq<T>, t: seq<T>, u: seq<T>, v: seq<T>, first: nat, at: nat,
                     last: nat)
    requires first <= at <= last <= |s| && Stably(less, s, t, first, last)
    requires Stably(less, t, u, first, at) && Stably(less, u, v, at, last)
    ensures Stably(less, s, v, first, last)
  {
    StablyWiden(less, t, u, first, at, first, last);
    StablyWiden(less, u, v, at, last, first, last);
    StablyTrans(less, s, t, u, first, last);
    StablyTrans(less, s, u, v, first, last);
  }

  lemma SortedJoin<T(!new)>(less: (T, T) -> bool, u: seq<T>, v: seq<T>, first: nat, at: nat, last: nat)
    requires first <= at <= last <= |v| == |u| && SortedIn(less, u, first, at) && v[..at] == u[..at]
    requires SortedIn(less, v, at, last) && Below(less, v, first, at, last)
    ensures SortedIn(less, v, first, last)
  {
    forall i, j | first <= i < j < last
      ensures !less(v[j], v[i])
    {
      if j < at {
        assert v[i] == u[..at][i] && v[j] == u[..at][j];
      }
    }
  }

  /** The cuts that both in-place merges make: half of the longer run, and the place in the other
      that goes with it. Neither side of the cut is everything. */
  method ChooseCut<T(!new)>(a: array<T>, first: nat, middle: nat, last: nat, len1: nat, len2: nat, less: (T, T) -> bool)
    returns (cut1: nat, cut2: nat, len11: nat, len22: nat)
    requires StrictWeakOrder(less) && last <= a.Length && TwoRuns(less, a[..], first, middle, last)
    requires len1 == middle - first > 0 && len2 == last - middle > 0 && len1 + len2 > 2
    ensures GoodCut(less, a[..], first, cut1, middle, cut2, last)
    ensures len11 == cut1 - first && len22 == cut2 - middle && 0 < len11 + len22 < len1 + len2
  {
    if len1 > len2 {
      len11 := len1 / 2;
      cut1 := first + len11;
      cut2 := LowerBound(a, middle, last, a[cut1], less);
      len22 := cut2 - middle;
      CutByFirst(less, a[..], first, cut1, middle, cut2, last);
    } else {
      len22 := len2 / 2;
      cut2 := middle + len22;
      cut1 := UpperBound(a, first, middle, a[cut2], less);
      len11 := cut1 - first;
      CutBySecond(less, a[..], first, cut1, middle, cut2, last);
    }
  }

  /** `__merge_without_buffer`. */
  method MergeWithoutBuffer<T(!new)>(a: array<T>, first: nat, middle: nat, last: nat, len1: nat, len2: nat,
                              less: (T, T) -> bool)
    requires StrictWeakOrder(less) && last <= a.Length && TwoRuns(less, a[..], first, middle, last)
    requires len1 == middle - first && len2 == last - middle
    modifies a
    ensures a[..] == Merged(less, old(a[..]), first, middle, last)
    decreases len1 + len2
  {
    hide StrictWeakOrder, Stably, GoodCut, Below, Rotated, Merged, TwoRuns;
    ghost var s := a[..];
    RunsAre(less, s, first, middle, last);
    if len1 == 0 || len2 == 0 {
      OneRunMerged(less, s, first, middle, last);
      return;
    }
    if len1 + len2 == 2 {
      TwoMerged(less, s, first);
      if less(a[middle], a[first]) {
        IterSwap(a, first, middle);
      }
      return;
    }
    var cut1, cut2, len11, len22 := ChooseCut(a, first, middle, last, len1, len2, less);
    CutRotated(less, s, first, cut1, middle, cut2, last);
    CutBounds(less, s, first, cut1, middle, cut2, last);
    var newMiddle := RotateReversing(a, cut1, middle, cut2);
    ghost var t := a[..];
    MergeWithoutBuffer(a, first, cut1, newMiddle, len11, len22, less);
    ghost var u := a[..];
    SecondRunsKept(less, t, u, first, cut1, newMiddle, cut2, last);
    MergeWithoutBuffer(a, newMiddle, cut2, last, len1 - len11, len2 - len22, less);
    HalvesMerged(less, s, t, u, a[..], first, cut1, middle, cut2, newMiddle, last);
  }

  lemma RunsAre<T(!new)>(less: (T, T) -> bool, s: seq<T>, first: nat, mid: nat, last: nat)
    requires TwoRuns(less, s, first, mid, last)
    ensures first <= mid <= last <= |s| && SortedIn(less, s, first, mid) && SortedIn(less, s, mid, last)
  {
  }

  lemma CutBounds<T(!new)>(less: (T, T) -> bool, s: seq<T>, first: nat, cut1: nat, mid: nat, cut2: nat, last: nat)
    requires GoodCut(less, s, first, cut1, mid, cut2, last)
    ensures first <= cut1 <= mid <= cut2 <= last <= |s|
  {
  }

  lemma OneRunMerged<T(!new)>(less: (T, T) -> bool, s: seq<T>, lo: nat, mid: nat, hi: nat)
    requires lo <= mid <= hi <= |s| && (lo == mid || mid == hi)
    ensures Merged(less, s, lo, mid, hi) == s
  {
  }

  lemma TwoMerged<T(!new)>(less: (T, T) -> bool, s: seq<T>, lo: nat)
    requires lo + 2 <= |s|
    ensures Merged(less, s, lo, lo + 1, lo + 2) == if less(s[lo + 1], s[lo]) then Swapped(s, lo, lo + 1) else s
  {
    hide Merge, Overwritten;
    assert s[lo..lo + 1] == [s[lo]] && s[lo + 1..lo + 2] == [s[lo + 1]];
    MergeOnes(less, s[lo], s[lo + 1]);
    PairOverwritten(s, lo, s[lo + 1], s[lo]);
    PairOverwritten(s, lo, s[lo], s[lo + 1]);
  }

  lemma MergeOnes<T(!new)>(less: (T, T) -> bool, a: T, b: T)
    ensures Merge(less, [a], [b]) == if less(b, a) then [b, a] else [a, b]
  {
    assert [a][1..] == [] && [b][1..] == [];
  }

  lemma PairOverwritten<T>(s: seq<T>, lo: nat, a: T, b: T)
    requires lo + 2 <= |s|
    ensures Overwritten(s, lo, [a, b]) == s[lo := a][lo + 1 := b]
  {
  }

  /** Merging the first pair of runs does not touch the second. */
  lemma SecondRunsKept<T(!new)>(less: (T, T) -> bool, t: seq<T>, u: seq<T>, first: nat, cut1: nat, at: nat, cut2: nat,
                         last: nat)
    requires first <= cut1 <= at <= |t| && u == Merged(less, t, first, cut1, at) && TwoRuns(less, t, at, cut2, last)
    ensures TwoRuns(less, u, at, cut2, last)
  {
    assert forall i :: at <= i < |t| ==> u[i] == t[i];
  }

  lemma HalvesMerged<T(!new)>(less: (T, T) -> bool, s: seq<T>, t: seq<T>, u: seq<T>, v: seq<T>,
                              first: nat, cut1: nat, mid: nat, cut2: nat, at: nat, last: nat)
    requires StrictWeakOrder(less) && TwoRuns(less, s, first, mid, last) &&
      GoodCut(less, s, first, cut1, mid, cut2, last)
    requires first <= cut1 <= mid <= cut2 <= last <= |s| && t == Rotated(s, cut1, mid, cut2) &&
      at == cut1 + (cut2 - mid)
    requires |t| == |s| && u == Merged(less, t, first, cut1, at)
    requires TwoRuns(less, u, at, cut2, last) && v == Merged(less, u, at, cut2, last)
    ensures v == Merged(less, s, first, mid, last)
  {
    hide StrictWeakOrder, Stably, GoodCut, Below, Rotated, Merged, SortedIn;
    CutRotated(less, s, first, cut1, mid, cut2, last);
    MergedIsStable(less, t, first, cut1, at);
    MergedIsStable(less, u, at, cut2, last);
    BothMerged(less, s, t, u, v, first, at, last);
    StablySortedIsMerged(less, s, v, first, mid, last);
  }

  // ---------- with a buffer ----------

  /** `__rotate_adaptive`: the shorter piece goes through the buffer, when it fits. */
  method RotateAdaptive<T>(a: array<T>, first: nat, middle: nat, last: nat, len1: nat, len2: nat,
                           buffer: array<T>, bufferSize: nat) returns (newMiddle: nat)
    requires first <= middle <= last <= a.Length && len1 == middle - first && len2 == last - middle
    requires buffer != a && bufferSize <= buffer.Length
    modifies a, buffer
    ensures a[..] == old(Rotated(a[..], first, middle, last)) && newMiddle == first + (last - middle)
  {
    hide Overwritten, Rotated;
    ghost var s, b := a[..], buffer[..];
    if len1 > len2 && len2 <= bufferSize {
      var bufferEnd := Copy(a, middle, last, buffer, 0);
      BufferHolds(b, s[middle..last]);
      var _ := CopyBackward(a, first, middle, a, last);
      newMiddle := Copy(buffer, 0, bufferEnd, a, first);
      PiecesExchanged(s, first, middle, last);
    } else if len1 <= bufferSize {
      var bufferEnd := Copy(a, first, middle, buffer, 0);
      BufferHolds(b, s[first..middle]);
      PiecesExchanged(s, first, middle, last);
      var _ := Copy(a, middle, last, a, first);
      newMiddle := CopyBackward(buffer, 0, bufferEnd, a, last);
    } else {
      newMiddle := RotateReversing(a, first, middle, last);
    }
  }

  lemma BufferHolds<T>(b: seq<T>, x: seq<T>)
    requires |x| <= |b|
    ensures Overwritten(b, 0, x)[0..|x|] == x
  {
  }

  lemma PiecesExchanged<T>(s: seq<T>, first: nat, middle: nat, last: nat)
    requires first <= middle <= last <= |s|
    ensures var x, y := s[first..middle], s[middle..last];
            && Overwritten(Overwritten(s, last - |x|, x), first, y) == Rotated(s, first, middle, last)
            && Overwritten(Overwritten(s, first, y), last - |x|, x) == Rotated(s, first, middle, last)
  {
  }

  /** `__merge_adaptive`. With an empty buffer the code would not always end; its callers
      have one of at least one element. */
  method MergeAdaptive<T(!new)>(a: array<T>, first: nat, middle: nat, last: nat, len1: nat, len2: nat,
                                buffer: array<T>, bufferSize: nat, less: (T, T) -> bool)
    requires StrictWeakOrder(less) && last <= a.Length && TwoRuns(less, a[..], first, middle, last)
    requires len1 == middle - first && len2 == last - middle
    requires buffer != a && 0 < bufferSize <= buffer.Length
    modifies a, buffer
    ensures a[..] == Merged(less, old(a[..]), first, middle, last)
    decreases len1 + len2
  {
    hide StrictWeakOrder, Stably, GoodCut, Below, Rotated, Merged, TwoRuns, Overwritten, SortedIn, Merge;
    ghost var s := a[..];
    RunsAre(less, s, first, middle, last);
    MergedMeans(less, s, first, middle, last);
    if len1 <= len2 && len1 <= bufferSize {
      BufferHolds(buffer[..], s[first..middle]);
      var bufferEnd := Copy(a, first, middle, buffer, 0);
      var _ := MergeInto(buffer, 0, bufferEnd, a, middle, last, a, first, less);
    } else if len2 <= bufferSize {
      BufferHolds(buffer[..], s[middle..last]);
      var bufferEnd := Copy(a, middle, last, buffer, 0);
      BufferSorted(less, s, middle, last, buffer[..]);
      var _ := MergeBackward(a, first, middle, buffer, 0, bufferEnd, a, last, less);
    } else {
      var cut1, cut2, len11, len22 := ChooseCut(a, first, middle, last, len1, len2, less);
      CutRotated(less, s, first, cut1, middle, cut2, last);
      CutBounds(less, s, first, cut1, middle, cut2, last);
      var newMiddle := RotateAdaptive(a, cut1, middle, cut2, len1 - len11, len22, buffer, bufferSize);
      ghost var t := a[..];
      MergeAdaptive(a, first, cut1, newMiddle, len11, len22, buffer, bufferSize, less);
      ghost var u := a[..];
      SecondRunsKept(less, t, u, first, cut1, newMiddle, cut2, last);
      MergeAdaptive(a, newMiddle, cut2, last, len1 - len11, len2 - len22, buffer, bufferSize, less);
      HalvesMerged(less, s, t, u, a[..], first, cut1, middle, cut2, newMiddle, last);
    }
  }

  lemma MergedMeans<T(!new)>(less: (T, T) -> bool, s: seq<T>, lo: nat, mid: nat, hi: nat)
    requires lo <= mid <= hi <= |s|
    ensures |Merge(less, s[lo..mid], s[mid..hi])| == hi - lo
    ensures Merged(less, s, lo, mid, hi) == Overwritten(s, lo, Merge(less, s[lo..mid], s[mid..hi]))
  {
  }

  lemma BufferSorted<T(!new)>(less: (T, T) -> bool, s: seq<T>, lo: nat, hi: nat, b: seq<T>)
    requires lo <= hi <= |s| && SortedIn(less, s, lo, hi) && hi - lo <= |b| && b[0..hi - lo] == s[lo..hi]
    ensures SortedIn(less, b, 0, hi - lo)
  {
    SortedSlice(less, s, lo, hi);
    SortedSlice(less, b, 0, hi - lo);
  }

  /** `inplace_merge`, with the size of the buffer that could be allocated. */
  method MergeInplace<T(!new, 0)>(a: array<T>, first: nat, middle: nat, last: nat, bufferSize: nat,
                        less: (T, T) -> bool)
    requires StrictWeakOrder(less) && last <= a.Length && TwoRuns(less, a[..], first, middle, last)
    modifies a
    ensures a[..] == Merged(less, old(a[..]), first, middle, last)
  {
    if first == middle || middle == last {
      OneRunMerged(less, a[..], first, middle, last);
      return;
    }
    if bufferSize == 0 {
      MergeWithoutBuffer(a, first, middle, last, middle - first, last - middle, less);
    } else {
      var buffer := new T[bufferSize];
      MergeAdaptive(a, first, middle, last, middle - first, last - middle, buffer, bufferSize, less);
    }
  }
}
