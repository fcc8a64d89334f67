/** `stable_sort`: in place, or through a buffer of whatever size could be had. */
module StableSort {
  import opened Orders
  import opened Ranges
  import opened Stability
  import opened Copying
  import opened Merging
  import opened InplaceMerge
  import InsertionSort

  const CHUNK_SIZE: nat := 7
  const INPLACE_THRESHOLD: nat := 15

  /** Two sorted halves merged. */
  lemma HalvesSorted<T(!new)>(less: (T, T) -> bool, s: seq<T>, t: seq<T>, u: seq<T>, first: nat, mid: nat, last: nat)
    requires first <= mid <= last <= |s| && StablySorted(less, s, t, first, mid) && StablySorted(less, t, u, mid, last)
    ensures TwoRuns(less, u, first, mid, last) && Stably(less, s, u, first, last)
  {
    SortedCopied(less, t, u, first, mid);
    StablyWiden(less, s, t, first, mid, first, last);
    StablyWiden(less, t, u, mid, last, first, last);
    StablyTrans(less, s, t, u, first, last);
  }

  lemma SortedCopied<T(!new)>(less: (T, T) -> bool, t: seq<T>, u: seq<T>, first: nat, mid: nat)
    requires first <= mid <= |t| == |u| && SortedIn(less, t, first, mid) && t[..mid] == u[..mid]
    ensures SortedIn(less, u, first, mid)
  {
    forall i | first <= i < mid
      ensures u[i] == t[i]
    {
      assert u[i] == u[..mid][i];
    }
  }

  lemma MergedSorts<T(!new)>(less: (T, T) -> bool, s: seq<T>, t: seq<T>, first: nat, mid: nat, last: nat)
    requires StrictWeakOrder(less) && first <= mid <= last <= |s| && Stably(less, s, t, first, last) &&
      TwoRuns(less, t, first, mid, last)
    ensures |t| == |s| && StablySorted(less, s, Merged(less, t, first, mid, last), first, last)
  {
    MergedIsStable(less, t, first, mid, last);
    StablyTrans(less, s, t, Merged(less, t, first, mid, last), first, last);
  }

  /** `__inplace_stable_sort`. */
  method InplaceStableSort<T(!new)>(a: array<T>, first: nat, last: nat, less: (T, T) -> bool)
    requires StrictWeakOrder(less) && first <= last <= a.Length
    modifies a
    ensures StablySorted(less, old(a[..]), a[..], first, last)
    decreases last - first
  {
    hide StrictWeakOrder, StablySorted, Merged, TwoRuns, Stably;
    if last - first < INPLACE_THRESHOLD {
      InsertionSort.Sort(a, first, last, less);
      return;
    }
    ghost var s := a[..];
    var middle := first + (last - first) / 2;
    InplaceStableSort(a, first, middle, less);
    ghost var t := a[..];
    InplaceStableSort(a, middle, last, less);
    HalvesSorted(less, s, t, a[..], first, middle, last);
    MergedSorts(less, s, a[..], first, middle, last);
    MergeWithoutBuffer(a, first, middle, last, middle - first, last - middle, less);
  }

  // ---------- bottom up, through a buffer ----------

  function Min(a: nat, b: nat): nat { if b < a then b else a }

  /** `s` is sorted in pieces of `step` elements, the last piece perhaps shorter. */
  ghost predicate Chunks<T(!new)>(less: (T, T) -> bool, s: seq<T>, step: nat)
    requires step > 0
    decreases |s|
  {
    s == [] || (Sorted(less, s[..Min(step, |s|)]) && Chunks(less, s[Min(step, |s|)..], step))
  }

  /** Likewise, all of them whole. */
  ghost predicate WholeChunks<T(!new)>(less: (T, T) -> bool, s: seq<T>, step: nat)
    requires step > 0
    decreases |s|
  {
    s == [] || (|s| >= step && Sorted(less, s[..step]) && WholeChunks(less, s[step..], step))
  }

  lemma {:induction false} ChunksConcat<T(!new)>(less: (T, T) -> bool, s: seq<T>, t: seq<T>, step: nat)
    requires step > 0 && WholeChunks(less, s, step)
    ensures Chunks(less, t, step) ==> Chunks(less, s + t, step)
    ensures |t| == step && Sorted(less, t) ==> WholeChunks(less, s + t, step)
    decreases |s|
  {
    if s == [] {
      assert s + t == t && t[..|t|] == t && t[|t|..] == [];
    } else {
      assert (s + t)[..step] == s[..step] && (s + t)[step..] == s[step..] + t;
      ChunksConcat(less, s[step..], t, step);
    }
  }

  /** What the pieces say about the first two. */
  lemma FirstChunks<T(!new)>(less: (T, T) -> bool, s: seq<T>, step: nat)
    requires step > 0 && Chunks(less, s, step)
    ensures var m, n := Min(step, |s|), Min(2 * step, |s|);
            && Sorted(less, s[..m]) && Sorted(less, s[m..n]) && Chunks(less, s[n..], step)
  {
    var m, n := Min(step, |s|), Min(2 * step, |s|);
    if s != [] {
      var t := s[m..];
      assert t[..Min(step, |t|)] == s[m..n];
      assert t[Min(step, |t|)..] == s[n..];
    }
  }

  lemma OneChunk<T(!new)>(less: (T, T) -> bool, s: seq<T>, step: nat)
    requires step > 0 && |s| <= step
    ensures Sorted(less, s) ==> Chunks(less, s, step)
    ensures Chunks(less, s, step) ==> Sorted(less, s)
  {
    assert s[..|s|] == s && s[|s|..] == [];
  }

  /** `z` is what a pass over `x` wrote: a stable rearrangement in sorted pieces. */
  ghost predicate PassDone<T(!new)>(less: (T, T) -> bool, x: seq<T>, z: seq<T>, step: nat)
    requires step > 0
  {
    |x| == |z| && SameClasses(less, x, z) && Chunks(less, z, step)
  }

  /** How far a pass has come: `n` elements of `x` merged to `done`. */
  ghost predicate PassAt<T(!new)>(less: (T, T) -> bool, x: seq<T>, done: seq<T>, n: nat, step: nat)
    requires step > 0
  {
    && n == |done| <= |x| && SameClasses(less, x[..n], done)
    && WholeChunks(less, done, 2 * step) && Chunks(less, x[n..], step)
  }

  lemma PassStart<T(!new)>(less: (T, T) -> bool, x: seq<T>, step: nat)
    requires step > 0 && Chunks(less, x, step)
    ensures PassAt(less, x, [], 0, step)
  {
    assert x[..0] == [] && x[0..] == x;
  }

  /** The next two pieces merged. */
  lemma PassStep<T(!new)>(less: (T, T) -> bool, x: seq<T>, done: seq<T>, n: nat, step: nat)
    requires StrictWeakOrder(less) && step > 0 && PassAt(less, x, done, n, step) && n + 2 * step <= |x|
    ensures PassAt(less, x, done + Merge(less, x[n..n + step], x[n + step..n + 2 * step]), n + 2 * step, step)
  {
    hide StrictWeakOrder, SameClasses, Sorted, Merge, Chunks, WholeChunks;
    var u, v := x[n..n + step], x[n + step..n + 2 * step];
    var m := Merge(less, u, v);
    FirstChunks(less, x[n..], step);
    assert x[n..][..step] == u && x[n..][step..2 * step] == v && x[n..][2 * step..] == x[n + 2 * step..];
    MergeIsStable(less, u, v);
    ChunksConcat(less, done, m, 2 * step);
    SameClassesConcat(less, x[..n], u + v, done, m);
    assert x[..n + 2 * step] == x[..n] + (u + v);
  }

  /** The last one or two, shorter. */
  lemma PassEnd<T(!new)>(less: (T, T) -> bool, x: seq<T>, done: seq<T>, n: nat, step: nat, last: nat)
    requires StrictWeakOrder(less) && step > 0 && PassAt(less, x, done, n, step) && |x| < n + 2 * step &&
      last == Min(step, |x| - n)
    ensures PassDone(less, x, done + Merge(less, x[n..n + last], x[n + last..]), 2 * step)
  {
    hide StrictWeakOrder, SameClasses, Sorted, Merge, Chunks, WholeChunks;
    var u, v := x[n..n + last], x[n + last..];
    var m := Merge(less, u, v);
    FirstChunks(less, x[n..], step);
    assert x[n..][..last] == u && x[n..][last..Min(2 * step, |x| - n)] == v;
    MergeIsStable(less, u, v);
    OneChunk(less, m, 2 * step);
    ChunksConcat(less, done, m, 2 * step);
    SameClassesConcat(less, x[..n], u + v, done, m);
    assert x == x[..n] + (u + v);
  }

  lemma WrittenOn<T>(s: seq<T>, at: nat, x: seq<T>, y: seq<T>)
    requires at + |x| + |y| <= |s|
    ensures Overwritten(Overwritten(s, at, x), at + |x|, y) == Overwritten(s, at, x + y)
  {
  }

  /** `__merge_sort_loop`: one pass from one array to another, merging pieces two by two. */
  method MergeSortLoop<T(!new)>(src: array<T>, first0: nat, last: nat, dst: array<T>, result0: nat, step: nat,
                         less: (T, T) -> bool)
    returns (ghost z: seq<T>)
    requires StrictWeakOrder(less) && first0 <= last <= src.Length && result0 + (last - first0) <= dst.Length &&
      src != dst
    requires step > 0 && Chunks(less, src[first0..last], step)
    modifies dst
    ensures PassDone(less, src[first0..last], z, 2 * step) && dst[..] == Overwritten(old(dst[..]), result0, z)
  {
    hide StrictWeakOrder, PassAt, PassDone, Overwritten, Merge, Chunks;
    var twoStep := 2 * step;
    var first, result := first0, result0;
    ghost var x, s := src[first0..last], dst[..];
    ghost var done: seq<T> := [];
    PassStart(less, x, step);
    NothingWritten(s, result0);
    while last - first >= twoStep
      invariant first0 <= first <= last && result == result0 + (first - first0) && |done| == first - first0
      invariant PassAt(less, x, done, first - first0, step)
      invariant dst[..] == Overwritten(s, result0, done)
    {
      ghost var n := first - first0;
      PassStep(less, x, done, n, step);
      result := MergeOnto(src, first0, first, first + step, first + twoStep, dst, result, less, s, x, done);
      done := done + Merge(less, x[n..n + step], x[n + step..n + 2 * step]);
      first := first + twoStep;
    }
    ghost var n := first - first0;
    var rest := Min(last - first, step);
    PassEnd(less, x, done, n, step, rest);
    result := MergeOnto(src, first0, first, first + rest, last, dst, result, less, s, x, done);
    z := done + Merge(less, x[n..n + rest], x[n + rest..]);
    assert x[n + rest..] == x[n + rest..last - first0];
  }

  lemma SliceWithin<T>(s: seq<T>, x: seq<T>, first0: nat, lo: nat, hi: nat)
    requires first0 <= lo <= hi <= first0 + |x| <= |s| && x == s[first0..first0 + |x|]
    ensures s[lo..hi] == x[lo - first0..hi - first0]
  {
    var y := x[lo - first0..hi - first0];
    forall k | 0 <= k < hi - lo
      ensures s[lo..hi][k] == y[k]
    {
      assert y[k] == x[lo - first0 + k] == s[lo + k];
    }
  }

  /** The next merge of a pass, onto what has been written. */
  method MergeOnto<T(!new)>(src: array<T>, ghost first0: nat, first: nat, middle: nat, last: nat, dst: array<T>,
                     result: nat,
                            less: (T, T) -> bool, ghost s: seq<T>, ghost x: seq<T>, ghost done: seq<T>)
                              returns (end: nat)
    requires first0 <= first <= middle <= last <= first0 + |x| <= src.Length && src != dst &&
      x == src[first0..first0 + |x|]
    requires |done| <= result && result + (last - first) <= dst.Length == |s|
    requires dst[..] == Overwritten(s, result - |done|, done)
    modifies dst
    ensures end == result + (last - first)
    ensures |Merge(less, x[first - first0..middle - first0], x[middle - first0..last - first0])| == last - first
    ensures dst[..] == Overwritten(s, result - |done|,
      done + Merge(less, x[first - first0..middle - first0], x[middle - first0..last - first0]))
  {
    hide Overwritten, Merge;
    ghost var m := Merge(less, x[first - first0..middle - first0], x[middle - first0..last - first0]);
    SliceWithin(src[..], x, first0, first, middle);
    SliceWithin(src[..], x, first0, middle, last);
    WrittenOn(s, result - |done|, done, m);
    end := MergeInto(src, first, middle, src, middle, last, dst, result, less);
  }

  // ---------- the first pass ----------

  ghost predicate Chunked<T(!new)>(less: (T, T) -> bool, s: seq<T>, t: seq<T>, first0: nat, first: nat, last: nat,
                            size: nat)
    requires size > 0
  {
    first0 <= first <= last && Stably(less, s, t, first0, last) && t[first..last] == s[first..last]
    && WholeChunks(less, t[first0..first], size)
  }

  /** The parts of the stretch before and after the piece just sorted are as they were. */
  lemma PieceSorted<T(!new)>(less: (T, T) -> bool, t: seq<T>, u: seq<T>, first0: nat, first: nat, mid: nat, last: nat)
    requires first0 <= first <= mid <= last <= |t| && StablySorted(less, t, u, first, mid)
    ensures |u| == |t| && Sorted(less, u[first..mid]) && u[mid..last] == t[mid..last]
    ensures u[first0..mid] == t[first0..first] + u[first..mid]
  {
    hide SameClasses;
    SortedSlice(less, u, first, mid);
    assert u[first0..first] == u[..first][first0..] && t[first0..first] == t[..first][first0..];
    assert u[mid..last] == u[mid..][..last - mid] && t[mid..last] == t[mid..][..last - mid];
  }

  lemma ChunkedStep<T(!new)>(less: (T, T) -> bool, s: seq<T>, t: seq<T>, u: seq<T>, first0: nat, first: nat, last: nat,
                      size: nat)
    requires size > 0 && Chunked(less, s, t, first0, first, last, size) && first + size <= last <= |t| == |s|
    requires StablySorted(less, t, u, first, first + size)
    ensures Chunked(less, s, u, first0, first + size, last, size)
  {
    hide StablySorted, Stably, Sorted, WholeChunks;
    PieceSorted(less, t, u, first0, first, first + size, last);
    StablyOf(less, t, u, first, first + size);
    StablyWiden(less, t, u, first, first + size, first0, last);
    StablyTrans(less, s, t, u, first0, last);
    ChunksConcat(less, t[first0..first], u[first..first + size], size);
    assert t[first + size..last] == t[first..last][size..] && s[first + size..last] == s[first..last][size..];
  }

  lemma StablyOf<T(!new)>(less: (T, T) -> bool, s: seq<T>, t: seq<T>, lo: nat, hi: nat)
    requires StablySorted(less, s, t, lo, hi)
    ensures Stably(less, s, t, lo, hi)
  {
  }

  lemma ChunkedEnd<T(!new)>(less: (T, T) -> bool, s: seq<T>, t: seq<T>, u: seq<T>, first0: nat, first: nat, last: nat,
                     size: nat)
    requires size > 0 && Chunked(less, s, t, first0, first, last, size) && last < first + size
    requires StablySorted(less, t, u, first, last)
    ensures Stably(less, s, u, first0, last) && Chunks(less, u[first0..last], size)
  {
    StablyWiden(less, t, u, first, last, first0, last);
    StablyTrans(less, s, t, u, first0, last);
    SortedSlice(less, u, first, last);
    OneChunk(less, u[first..last], size);
    ChunksConcat(less, t[first0..first], u[first..last], size);
    assert u[first0..first] == u[..first][first0..] && t[first0..first] == t[..first][first0..];
    assert u[first0..last] == t[first0..first] + u[first..last];
  }

  /** `__chunk_insertion_sort`. */
  method ChunkInsertionSort<T(!new)>(a: array<T>, first0: nat, last: nat, chunkSize: nat, less: (T, T) -> bool)
    requires StrictWeakOrder(less) && first0 <= last <= a.Length && chunkSize > 0
    modifies a
    ensures Stably(less, old(a[..]), a[..], first0, last) && Chunks(less, a[first0..last], chunkSize)
  {
    ghost var s := a[..];
    var first := first0;
    StablyRefl(less, s, first0, last);
    assert Chunked(less, s, s, first0, first0, last, chunkSize);
    hide StrictWeakOrder, Chunked, Stably, StablySorted, Chunks;
    while last - first >= chunkSize
      invariant first0 <= first <= last && Chunked(less, s, a[..], first0, first, last, chunkSize)
    {
      ghost var t := a[..];
      InsertionSort.Sort(a, first, first + chunkSize, less);
      ChunkedStep(less, s, t, a[..], first0, first, last, chunkSize);
      first := first + chunkSize;
    }
    ghost var t := a[..];
    InsertionSort.Sort(a, first, last, less);
    ChunkedEnd(less, s, t, a[..], first0, first, last, chunkSize);
  }

  /** What the passes keep: the stretch is a stable rearrangement, in sorted pieces. */
  ghost predicate Passing<T(!new)>(less: (T, T) -> bool, s: seq<T>, t: seq<T>, first: nat, last: nat, step: nat) {
    && step > 0 && first <= last && Stably(less, s, t, first, last) && Chunks(less, t[first..last], step)
  }

  lemma PassingFacts<T(!new)>(less: (T, T) -> bool, s: seq<T>, t: seq<T>, first: nat, last: nat, step: nat)
    requires Passing(less, s, t, first, last, step)
    ensures first <= last <= |t| == |s| && step > 0 && Chunks(less, t[first..last], step)
  {
  }

  lemma PassedThrough<T(!new)>(less: (T, T) -> bool, s: seq<T>, t: seq<T>, b: seq<T>, u: seq<T>, z: seq<T>, w: seq<T>,
                               first: nat, last: nat, step: nat)
    requires Passing(less, s, t, first, last, step) && step > 0
    requires first <= last <= |t| && PassDone(less, t[first..last], z, 2 * step)
    requires |z| == last - first <= |b| && b[0..last - first] == z && PassDone(less, z, w, 4 * step)
    requires |w| == last - first && u == Overwritten(t, first, w)
    ensures Passing(less, s, u, first, last, 4 * step)
  {
    assert u[first..last] == w && t[..first] == u[..first] && t[last..] == u[last..];
    SameClassesTrans(less, t[first..last], z, w);
    StablyTrans(less, s, t, u, first, last);
  }

  lemma PassesEnd<T(!new)>(less: (T, T) -> bool, s: seq<T>, t: seq<T>, first: nat, last: nat, step: nat)
    requires Passing(less, s, t, first, last, step) && step >= last - first
    ensures StablySorted(less, s, t, first, last)
  {
    OneChunk(less, t[first..last], step);
    SortedSlice(less, t, first, last);
  }

  /** `__merge_sort_with_buffer`. */
  method MergeSortWithBuffer<T(!new)>(a: array<T>, first: nat, last: nat, buffer: array<T>, less: (T, T) -> bool)
    requires StrictWeakOrder(less) && first <= last <= a.Length && buffer != a && last - first <= buffer.Length
    modifies a, buffer
    ensures StablySorted(less, old(a[..]), a[..], first, last)
  {
    hide StrictWeakOrder, Stably, StablySorted, Chunks, PassDone, Overwritten;
    ghost var s := a[..];
    var len := last - first;
    var bufferLast := len;
    var step: nat := CHUNK_SIZE;
    ChunkInsertionSort(a, first, last, step, less);
    assert Passing(less, s, a[..], first, last, step);
    hide Passing;
    while step < len
      invariant step > 0 && Passing(less, s, a[..], first, last, step)
      decreases len - step
    {
      ghost var t := a[..];
      PassingFacts(less, s, t, first, last, step);
      ghost var z := MergeSortLoop(a, first, last, buffer, 0, step, less);
      PassFacts(less, t[first..last], z, 2 * step);
      BufferIs(buffer[..], z);
      step := step * 2;
      ghost var w := MergeSortLoop(buffer, 0, bufferLast, a, first, step, less);
      PassFacts(less, z, w, 2 * step);
      PassedThrough(less, s, t, buffer[..], a[..], z, w, first, last, step / 2);
      step := step * 2;
    }
    PassesEnd(less, s, a[..], first, last, step);
  }

  lemma PassFacts<T(!new)>(less: (T, T) -> bool, x: seq<T>, z: seq<T>, step: nat)
    requires step > 0 && PassDone(less, x, z, step)
    ensures |z| == |x| && Chunks(less, z, step)
  {
  }

  lemma BufferIs<T>(b: seq<T>, z: seq<T>)
    requires exists c: seq<T> :: |c| == |b| && |z| <= |c| && b == Overwritten(c, 0, z)
    ensures |z| <= |b| && b[0..|z|] == z
  {
  }

  /** `__stable_sort_adaptive`. */
  method StableSortAdaptive<T(!new)>(a: array<T>, first: nat, last: nat, buffer: array<T>, bufferSize: nat,
                              less: (T, T) -> bool)
    requires StrictWeakOrder(less) && first <= last <= a.Length && buffer != a && 0 < bufferSize <= buffer.Length
    modifies a, buffer
    ensures StablySorted(less, old(a[..]), a[..], first, last)
    decreases last - first
  {
    hide StrictWeakOrder, Stably, StablySorted, TwoRuns, Merged;
    ghost var s := a[..];
    var len := (last - first + 1) / 2;
    var middle := first + len;
    ghost var t;
    if len > bufferSize {
      StableSortAdaptive(a, first, middle, buffer, bufferSize, less);
      t := a[..];
      StableSortAdaptive(a, middle, last, buffer, bufferSize, less);
    } else {
      MergeSortWithBuffer(a, first, middle, buffer, less);
      t := a[..];
      MergeSortWithBuffer(a, middle, last, buffer, less);
    }
    HalvesSorted(less, s, t, a[..], first, middle, last);
    MergedSorts(less, s, a[..], first, middle, last);
    MergeAdaptive(a, first, middle, last, middle - first, last - middle, buffer, bufferSize, less);
  }

  /** `stable_sort`, with the size of the buffer that could be allocated: none makes it sort in place. */
  method Sort<T(!new, 0)>(a: array<T>, first: nat, last: nat, bufferSize: nat, less: (T, T) -> bool)
    requires StrictWeakOrder(less) && first <= last <= a.Length
    modifies a
    ensures StablySorted(less, old(a[..]), a[..], first, last)
  {
    if bufferSize == 0 {
      InplaceStableSort(a, first, last, less);
    } else {
      var buffer := new T[bufferSize];
      StableSortAdaptive(a, first, last, buffer, bufferSize, less);
    }
  }
}
