/** The stable merge, and the methods that compute it: into another array, backwards, in place
    without a buffer and in place with a buffer of any size. */
module Merging {
  import opened Orders
  import opened Ranges
  import opened Stability
  import opened Copying

  /** The stable merge of two sequences: of equivalent elements, those of `x` come first. */
  ghost function Merge<T(!new)>(less: (T, T) -> bool, x: seq<T>, y: seq<T>): (z: seq<T>)
    ensures |z| == |x| + |y|
    decreases |x| + |y|
  {
    if x == [] then y
    else if y == [] then x
    else if less(y[0], x[0]) then [y[0]] + Merge(less, x, y[1..])
    else [x[0]] + Merge(less, x[1..], y)
  }

  lemma SortedTail<T(!new)>(less: (T, T) -> bool, x: seq<T>)
    requires Sorted(less, x) && x != []
    ensures Sorted(less, x[1..]) && forall i :: 0 <= i < |x| - 1 ==> !less(x[1..][i], x[0])
  {
  }

  lemma SortedCons<T(!new)>(less: (T, T) -> bool, a: T, x: seq<T>)
    requires Sorted(less, x) && forall i :: 0 <= i < |x| ==> !less(x[i], a)
    ensures Sorted(less, [a] + x)
  {
  }

  /** Where the elements of a merge come from. */
  lemma MergeElements<T(!new)>(less: (T, T) -> bool, x: seq<T>, y: seq<T>, z: seq<T>, a: T)
    requires StrictWeakOrder(less) && SameClasses(less, x + y, z)
    requires forall i :: 0 <= i < |x| ==> !less(x[i], a)
    requires forall i :: 0 <= i < |y| ==> !less(y[i], a)
    ensures forall i :: 0 <= i < |z| ==> !less(z[i], a)
  {
    SameClassesPermutes(less, x + y, z);
    forall i | 0 <= i < |z|
      ensures !less(z[i], a)
    {
      assert z[i] in multiset(z);
      assert z[i] in x + y;
    }
  }

  /** Merging is stable, and merging sorted sequences sorts. */
  lemma {:induction false} MergeIsStable<T(!new)>(less: (T, T) -> bool, x: seq<T>, y: seq<T>)
    requires StrictWeakOrder(less) && Sorted(less, x) && Sorted(less, y)
    ensures Sorted(less, Merge(less, x, y)) && SameClasses(less, x + y, Merge(less, x, y))
    decreases |x| + |y|
  {
    if x == [] {
      assert x + y == y;
    } else if y == [] {
      assert x + y == x;
    } else if less(y[0], x[0]) {
      SortedTail(less, y);
      MergeIsStable(less, x, y[1..]);
      MergeTakesSecond(less, x, y, Merge(less, x, y[1..]));
    } else {
      SortedTail(less, x);
      MergeIsStable(less, x[1..], y);
      MergeTakesFirst(less, x, y, Merge(less, x[1..], y));
    }
  }

  lemma MergeTakesFirst<T(!new)>(less: (T, T) -> bool, x: seq<T>, y: seq<T>, z: seq<T>)
    requires StrictWeakOrder(less) && Sorted(less, x) && Sorted(less, y) && x != [] && y != [] && !less(y[0], x[0])
    requires Sorted(less, z) && SameClasses(less, x[1..] + y, z)
    ensures Sorted(less, [x[0]] + z) && SameClasses(less, x + y, [x[0]] + z)
  {
    forall i | 0 <= i < |y|
      ensures !less(y[i], x[0])
    {
      assert i > 0 ==> !less(y[i], y[0]);
    }
    SortedTail(less, x);
    MergeElements(less, x[1..], y, z, x[0]);
    SortedCons(less, x[0], z);
    SameClassesRefl(less, [x[0]]);
    SameClassesConcat(less, [x[0]], x[1..] + y, [x[0]], z);
    assert x + y == [x[0]] + (x[1..] + y);
  }

  lemma MergeTakesSecond<T(!new)>(less: (T, T) -> bool, x: seq<T>, y: seq<T>, z: seq<T>)
    requires StrictWeakOrder(less) && Sorted(less, x) && Sorted(less, y) && x != [] && y != [] && less(y[0], x[0])
    requires Sorted(less, z) && SameClasses(less, x + y[1..], z)
    ensures Sorted(less, [y[0]] + z) && SameClasses(less, x + y, [y[0]] + z)
  {
    forall i | 0 <= i < |x|
      ensures less(y[0], x[i])
    {
      assert i > 0 ==> !less(x[i], x[0]);
    }
    SortedTail(less, y);
    MergeElements(less, x, y[1..], z, y[0]);
    SortedCons(less, y[0], z);
    SecondFirst(less, x, y, z);
  }

  lemma SecondFirst<T(!new)>(less: (T, T) -> bool, x: seq<T>, y: seq<T>, z: seq<T>)
    requires StrictWeakOrder(less) && y != [] && SameClasses(less, x + y[1..], z)
    requires forall i :: 0 <= i < |x| ==> less(y[0], x[i])
    ensures SameClasses(less, x + y, [y[0]] + z)
  {
    var b := [y[0]];
    SameClassesSwap(less, x, b);
    SameClassesRefl(less, y[1..]);
    SameClassesConcat(less, x + b, y[1..], b + x, y[1..]);
    assert x + y == x + b + y[1..];
    SameClassesRefl(less, b);
    SameClassesConcat(less, b, x + y[1..], b, z);
    assert b + x + y[1..] == b + (x + y[1..]);
    hide SameClasses;
    SameClassesTrans(less, x + y, b + (x + y[1..]), b + z);
  }

  /** A sorted stable rearrangement of `x + y` is their merge. */
  lemma MergeUnique<T(!new)>(less: (T, T) -> bool, x: seq<T>, y: seq<T>, z: seq<T>)
    requires StrictWeakOrder(less) && Sorted(less, x) && Sorted(less, y)
    requires Sorted(less, z) && SameClasses(less, x + y, z)
    ensures z == Merge(less, x, y)
  {
    MergeIsStable(less, x, y);
    var m := Merge(less, x, y);
    assert SameClasses(less, z, m) by {
      SameClassesSym(less, x + y, z);
      SameClassesTrans(less, z, x + y, m);
    }
    StableSortUnique(less, z, m);
  }

  /** `s` with the two sorted stretches around `mid` merged. */
  ghost function Merged<T(!new)>(less: (T, T) -> bool, s: seq<T>, lo: nat, mid: nat, hi: nat): (t: seq<T>)
    requires lo <= mid <= hi <= |s|
    ensures |t| == |s|
  {
    Overwritten(s, lo, Merge(less, s[lo..mid], s[mid..hi]))
  }

  lemma SortedSlice<T(!new)>(less: (T, T) -> bool, s: seq<T>, lo: nat, hi: nat)
    requires lo <= hi <= |s|
    ensures SortedIn(less, s, lo, hi) ==> Sorted(less, s[lo..hi])
    ensures Sorted(less, s[lo..hi]) ==> SortedIn(less, s, lo, hi)
  {
    if Sorted(less, s[lo..hi]) {
      forall i, j | lo <= i < j < hi
        ensures !less(s[j], s[i])
      {
        assert s[lo..hi][i - lo] == s[i] && s[lo..hi][j - lo] == s[j];
      }
    }
  }

  lemma MergedIsStable<T(!new)>(less: (T, T) -> bool, s: seq<T>, lo: nat, mid: nat, hi: nat)
    requires StrictWeakOrder(less) && lo <= mid <= hi <= |s|
    requires SortedIn(less, s, lo, mid) && SortedIn(less, s, mid, hi)
    ensures StablySorted(less, s, Merged(less, s, lo, mid, hi), lo, hi)
  {
    var x, y := s[lo..mid], s[mid..hi];
    SortedSlice(less, s, lo, mid);
    SortedSlice(less, s, mid, hi);
    MergeIsStable(less, x, y);
    var t := Merged(less, s, lo, mid, hi);
    hide SameClasses, StrictWeakOrder, Merge, SortedIn;
    assert s[lo..hi] == x + y;
    assert t[lo..hi] == Merge(less, x, y);
    assert t[..lo] == s[..lo] && t[hi..] == s[hi..];
    SortedSlice(less, t, lo, hi);
  }

  /** Sorting stably what is two sorted stretches is merging them. */
  lemma StablySortedIsMerged<T(!new)>(less: (T, T) -> bool, s: seq<T>, t: seq<T>, lo: nat, mid: nat, hi: nat)
    requires StrictWeakOrder(less) && lo <= mid <= hi <= |s|
    requires SortedIn(less, s, lo, mid) && SortedIn(less, s, mid, hi) && StablySorted(less, s, t, lo, hi)
    ensures t == Merged(less, s, lo, mid, hi)
  {
    var x, y, z := s[lo..mid], s[mid..hi], t[lo..hi];
    SortedSlice(less, s, lo, mid);
    SortedSlice(less, s, mid, hi);
    SortedSlice(less, t, lo, hi);
    assert s[lo..hi] == x + y;
    MergeUnique(less, x, y, z);
    assert t == t[..lo] + z + t[hi..];
  }

  // ---------- into another array ----------

  lemma OverwrittenAppend<T>(s: seq<T>, at: nat, x: seq<T>, k: nat)
    requires at + |x| <= |s| && k <= |x|
    ensures Overwritten(Overwritten(s, at, x[..k]), at + k, x[k..]) == Overwritten(s, at, x)
    ensures Overwritten(Overwritten(s, at + k, x[k..]), at, x[..k]) == Overwritten(s, at, x)
  {
  }

  /** Where a merge stands: `i` and `j` elements taken, in the order `m` says. */
  ghost predicate MergeAt<T(!new)>(less: (T, T) -> bool, x: seq<T>, y: seq<T>, m: seq<T>, i: nat, j: nat) {
    i <= |x| && j <= |y| && |m| == |x| + |y| && Merge(less, x[i..], y[j..]) == m[i + j..]
  }

  lemma MergeAtStart<T(!new)>(less: (T, T) -> bool, x: seq<T>, y: seq<T>)
    ensures MergeAt(less, x, y, Merge(less, x, y), 0, 0)
  {
    assert x[0..] == x && y[0..] == y;
  }

  lemma MergeAtStep<T(!new)>(less: (T, T) -> bool, x: seq<T>, y: seq<T>, m: seq<T>, i: nat, j: nat)
    requires MergeAt(less, x, y, m, i, j) && i < |x| && j < |y|
    ensures less(y[j], x[i]) ==> MergeAt(less, x, y, m, i, j + 1) && m[i + j] == y[j]
    ensures !less(y[j], x[i]) ==> MergeAt(less, x, y, m, i + 1, j) && m[i + j] == x[i]
  {
    assert x[i..][1..] == x[i + 1..] && y[j..][1..] == y[j + 1..];
    assert m[i + j..][0] == m[i + j] && m[i + j..][1..] == m[i + j + 1..];
  }

  lemma MergeAtEnd<T(!new)>(less: (T, T) -> bool, x: seq<T>, y: seq<T>, m: seq<T>, i: nat, j: nat)
    requires MergeAt(less, x, y, m, i, j)
    ensures i == |x| ==> m[i + j..] == y[j..]
    ensures j == |y| ==> m[i + j..] == x[i..]
  {
  }

  /** One round of `merge`: the lesser of the two next elements goes to `end`. */
  method MergeOne<T(!new)>(x: array<T>, p: nat, y: array<T>, q: nat, last2: nat, out: array<T>, end: nat,
                    less: (T, T) -> bool,
                           ghost X: seq<T>, ghost Y: seq<T>, ghost m: seq<T>, ghost i: nat, ghost j: nat)
    returns (fromSecond: bool)
    requires p < x.Length && q < last2 <= y.Length && end < out.Length && out != x && (out == y ==> end < q)
    requires MergeAt(less, X, Y, m, i, j) && i < |X| && j < |Y| && x[p] == X[i] && y[q..last2] == Y[j..]
    modifies out
    ensures if fromSecond then MergeAt(less, X, Y, m, i, j + 1) else MergeAt(less, X, Y, m, i + 1, j)
    ensures i + j < |m| && out[..] == old(out[..])[end := m[i + j]]
    ensures out != y ==> y[..] == old(y[..])
  {
    hide MergeAt;
    MergeAtStep(less, X, Y, m, i, j);
    MergeAtBounds(less, X, Y, m, i, j);
    assert y[q] == y[q..last2][0];
    fromSecond := less(y[q], x[p]);
    if fromSecond {
      out[end] := y[q];
    } else {
      out[end] := x[p];
    }
  }

  lemma MergeAtBounds<T(!new)>(less: (T, T) -> bool, x: seq<T>, y: seq<T>, m: seq<T>, i: nat, j: nat)
    requires MergeAt(less, x, y, m, i, j)
    ensures i <= |x| && j <= |y| && |m| == |x| + |y|
  {
  }

  /** `merge`. The output may lie over the second range, where it never overtakes the input. */
  method MergeInto<T(!new)>(x: array<T>, first1: nat, last1: nat, y: array<T>, first2: nat, last2: nat,
                            out: array<T>, result: nat, less: (T, T) -> bool) returns (end: nat)
    requires first1 <= last1 <= x.Length && first2 <= last2 <= y.Length
    requires result + (last1 - first1) + (last2 - first2) <= out.Length
    requires out != x && (out == y ==> result + (last1 - first1) <= first2)
    modifies out
    ensures out[..] == old(Overwritten(out[..], result, Merge(less, x[first1..last1], y[first2..last2])))
    ensures end == result + (last1 - first1) + (last2 - first2)
  {
    hide Overwritten, Merge, MergeAt;
    ghost var s, X, Y := out[..], x[first1..last1], y[first2..last2];
    ghost var m := Merge(less, X, Y);
    MergeAtStart(less, X, Y);
    OverwrittenEnds(s, result, m);
    var p, q: nat := first1, first2;
    end := result;
    while p != last1 && q != last2
      invariant first1 <= p <= last1 && first2 <= q <= last2 && end == result + (p - first1) + (q - first2)
      invariant MergeAt(less, X, Y, m, p - first1, q - first2)
      invariant out[..] == Overwritten(s, result, m[..end - result])
      invariant y[q..last2] == Y[q - first2..]
      decreases last1 - p + last2 - q
    {
      ghost var i, j, t, u := p - first1, q - first2, out[..], y[..];
      OverwrittenStep(s, result, m, i + j);
      var fromSecond := MergeOne(x, p, y, q, last2, out, end, less, X, Y, m, i, j);
      RestUnread(u, y[..], q, last2, end, Y[j..]);
      if fromSecond {
        q := q + 1;
      } else {
        p := p + 1;
      }
      end := end + 1;
    }
    MergeAtEnd(less, X, Y, m, p - first1, q - first2);
    OverwrittenAppend(s, result, m, end - result);
    RestOfFirst(x[..], first1, p, last1);
    end := CopyRests(x, p, last1, y, q, last2, out, end);
  }

  lemma RestOfFirst<T>(x: seq<T>, first: nat, p: nat, last: nat)
    requires first <= p <= last <= |x|
    ensures x[first..last][p - first..] == x[p..last]
  {
  }

  /** The two copies that end a merge, one of them of nothing. */
  method CopyRests<T>(x: array<T>, p: nat, last1: nat, y: array<T>, q: nat, last2: nat, out: array<T>, result: nat)
    returns (end: nat)
    requires p <= last1 <= x.Length && q <= last2 <= y.Length && (p == last1 || q == last2)
    requires out != x && (out == y ==> result + (last1 - p) <= q) && result + (last1 - p) + (last2 - q) <= out.Length
    modifies out
    ensures end == result + (last1 - p) + (last2 - q)
    ensures p == last1 ==> out[..] == old(Overwritten(out[..], result, y[q..last2]))
    ensures q == last2 ==> out[..] == old(Overwritten(out[..], result, x[p..last1]))
  {
    hide Overwritten;
    NothingWritten(out[..], result);
    assert p == last1 ==> x[p..last1] == [];
    end := Copy(x, p, last1, out, result);
    NothingWritten(out[..], end);
    assert q == last2 ==> y[q..last2] == [];
    end := Copy(y, q, last2, out, end);
  }

  lemma RestUnread<T>(u: seq<T>, v: seq<T>, q: nat, last2: nat, end: nat, rest: seq<T>)
    requires q < last2 <= |u| == |v| && u[q..last2] == rest
    requires u == v || (end < q && v == u[end := v[end]])
    ensures v[q..last2] == rest && v[q + 1..last2] == rest[1..]
  {
  }

  lemma NothingWritten<T>(s: seq<T>, at: nat)
    requires at <= |s|
    ensures Overwritten(s, at, []) == s
  {
  }

  // ---------- backwards ----------

  /** No element of `x` is greater than `a`. */
  ghost predicate NoneAbove<T(!new)>(less: (T, T) -> bool, x: seq<T>, a: T) {
    forall i :: 0 <= i < |x| ==> !less(a, x[i])
  }

  lemma SortedInit<T(!new)>(less: (T, T) -> bool, x: seq<T>)
    requires Sorted(less, x) && x != []
    ensures Sorted(less, x[..|x| - 1]) && NoneAbove(less, x[..|x| - 1], x[|x| - 1])
  {
  }

  lemma NoneAboveLast<T(!new)>(less: (T, T) -> bool, x: seq<T>, a: T)
    requires StrictWeakOrder(less) && Sorted(less, x)
    requires x != [] ==> !less(a, x[|x| - 1])
    ensures NoneAbove(less, x, a)
  {
  }

  lemma AllBelow<T(!new)>(less: (T, T) -> bool, x: seq<T>, a: T)
    requires StrictWeakOrder(less) && Sorted(less, x)
    requires x != [] ==> less(x[|x| - 1], a)
    ensures forall i :: 0 <= i < |x| ==> less(x[i], a)
    ensures NoneAbove(less, x, a)
  {
  }

  lemma SortedSnoc<T(!new)>(less: (T, T) -> bool, x: seq<T>, a: T)
    requires Sorted(less, x) && NoneAbove(less, x, a)
    ensures Sorted(less, x + [a])
  {
  }

  lemma MergeElementsAbove<T(!new)>(less: (T, T) -> bool, x: seq<T>, y: seq<T>, z: seq<T>, a: T)
    requires StrictWeakOrder(less) && SameClasses(less, x + y, z)
    requires NoneAbove(less, x, a) && NoneAbove(less, y, a)
    ensures NoneAbove(less, z, a)
  {
    SameClassesPermutes(less, x + y, z);
    forall i | 0 <= i < |z|
      ensures !less(a, z[i])
    {
      assert z[i] in multiset(z);
      assert z[i] in x + y;
    }
  }

  /** The last element of a merge is the last of `y`, unless that of `x` is greater. */
  lemma MergeLast<T(!new)>(less: (T, T) -> bool, x: seq<T>, y: seq<T>)
    requires StrictWeakOrder(less) && Sorted(less, x) && Sorted(less, y) && x != [] && y != []
    ensures less(y[|y| - 1], x[|x| - 1]) ==> Merge(less, x, y) == Merge(less, x[..|x| - 1], y) + [x[|x| - 1]]
    ensures !less(y[|y| - 1], x[|x| - 1]) ==> Merge(less, x, y) == Merge(less, x, y[..|y| - 1]) + [y[|y| - 1]]
  {
    if less(y[|y| - 1], x[|x| - 1]) {
      MergeLastFirst(less, x, y);
    } else {
      MergeLastSecond(less, x, y);
    }
  }

  lemma MergeLastFirst<T(!new)>(less: (T, T) -> bool, x: seq<T>, y: seq<T>)
    requires StrictWeakOrder(less) && Sorted(less, x) && Sorted(less, y) && x != [] && y != []
    requires less(y[|y| - 1], x[|x| - 1])
    ensures Merge(less, x, y) == Merge(less, x[..|x| - 1], y) + [x[|x| - 1]]
  {
    hide StrictWeakOrder, Sorted, SameClasses, NoneAbove, Merge;
    var x1, a := x[..|x| - 1], x[|x| - 1];
    SortedInit(less, x);
    AllBelow(less, y, a);
    MergeIsStable(less, x1, y);
    var z := Merge(less, x1, y);
    MergeElementsAbove(less, x1, y, z, a);
    SortedSnoc(less, z, a);
    SameClassesSwap(less, [a], y);
    SameClassesRefl(less, x1);
    SameClassesConcat(less, x1, [a] + y, x1, y + [a]);
    assert x + y == x1 + ([a] + y) && x1 + (y + [a]) == x1 + y + [a];
    SameClassesRefl(less, [a]);
    SameClassesConcat(less, x1 + y, [a], z, [a]);
    SameClassesTrans(less, x + y, x1 + y + [a], z + [a]);
    MergeUnique(less, x, y, z + [a]);
  }

  lemma MergeLastSecond<T(!new)>(less: (T, T) -> bool, x: seq<T>, y: seq<T>)
    requires StrictWeakOrder(less) && Sorted(less, x) && Sorted(less, y) && x != [] && y != []
    requires !less(y[|y| - 1], x[|x| - 1])
    ensures Merge(less, x, y) == Merge(less, x, y[..|y| - 1]) + [y[|y| - 1]]
  {
    hide StrictWeakOrder, Sorted, SameClasses, NoneAbove, Merge;
    var y1, b := y[..|y| - 1], y[|y| - 1];
    SortedInit(less, y);
    NoneAboveLast(less, x, b);
    MergeIsStable(less, x, y1);
    var z := Merge(less, x, y1);
    MergeElementsAbove(less, x, y1, z, b);
    SortedSnoc(less, z, b);
    SameClassesRefl(less, [b]);
    SameClassesConcat(less, x + y1, [b], z, [b]);
    assert x + y == x + y1 + [b];
    MergeUnique(less, x, y, z + [b]);
  }

  /** Where a backward merge stands: the first `i` and `j` elements are left. */
  ghost predicate MergeLeft<T(!new)>(less: (T, T) -> bool, x: seq<T>, y: seq<T>, m: seq<T>, i: nat, j: nat) {
    && Sorted(less, x) && Sorted(less, y)
    && i <= |x| && j <= |y| && |m| == |x| + |y| && Merge(less, x[..i], y[..j]) == m[..i + j]
  }

  lemma MergeLeftStart<T(!new)>(less: (T, T) -> bool, x: seq<T>, y: seq<T>)
    requires Sorted(less, x) && Sorted(less, y)
    ensures MergeLeft(less, x, y, Merge(less, x, y), |x|, |y|)
  {
    assert x[..|x|] == x && y[..|y|] == y;
    var m := Merge(less, x, y);
    assert m[..|x| + |y|] == m;
  }

  lemma MergeLeftStep<T(!new)>(less: (T, T) -> bool, x: seq<T>, y: seq<T>, m: seq<T>, i: nat, j: nat)
    requires StrictWeakOrder(less) && MergeLeft(less, x, y, m, i, j) && i > 0 && j > 0
    ensures i <= |x| && j <= |y| && i + j <= |m|
    ensures less(y[j - 1], x[i - 1]) ==> MergeLeft(less, x, y, m, i - 1, j) && m[i + j - 1] == x[i - 1]
    ensures !less(y[j - 1], x[i - 1]) ==> MergeLeft(less, x, y, m, i, j - 1) && m[i + j - 1] == y[j - 1]
  {
    var u, v, w := x[..i], y[..j], m[..i + j];
    MergeLast(less, u, v);
    assert u[..i - 1] == x[..i - 1] && v[..j - 1] == y[..j - 1];
    assert m[..i + j - 1] == w[..i + j - 1] && m[i + j - 1] == w[i + j - 1];
  }

  lemma MergeLeftEnd<T(!new)>(less: (T, T) -> bool, x: seq<T>, y: seq<T>, m: seq<T>, i: nat, j: nat)
    requires MergeLeft(less, x, y, m, i, j)
    ensures i == 0 ==> m[..j] == y[..j]
    ensures j == 0 ==> m[..i] == x[..i]
  {
  }

  /** One round of `__merge_backward`: the greater of the two last elements goes to `start`. */
  method MergeOneBack<T(!new)>(x: array<T>, p: nat, y: array<T>, q: nat, out: array<T>, start: nat,
                        less: (T, T) -> bool,
                               ghost X: seq<T>, ghost Y: seq<T>, ghost m: seq<T>, ghost i: nat, ghost j: nat,
                                 ghost first1: nat)
    returns (fromFirst: bool)
    requires StrictWeakOrder(less) && first1 <= p < x.Length && q < y.Length && start < out.Length && out != y
    requires (out == x ==> start > p) && MergeLeft(less, X, Y, m, i, j) && 0 < i <= |X| && 0 < j <= |Y|
    requires x[p] == X[i - 1] && y[q] == Y[j - 1] && x[first1..p + 1] == X[..i]
    modifies out
    ensures if fromFirst then MergeLeft(less, X, Y, m, i - 1, j) else MergeLeft(less, X, Y, m, i, j - 1)
    ensures i + j <= |m| && out[..] == old(out[..])[start := m[i + j - 1]]
    ensures x[first1..p + 1] == X[..i]
  {
    hide MergeLeft, StrictWeakOrder;
    MergeLeftStep(less, X, Y, m, i, j);
    fromFirst := less(y[q], x[p]);
    if fromFirst {
      out[start] := x[p];
    } else {
      out[start] := y[q];
    }
  }

  /** `__merge_backward`. The output may lie over the first range, ending where the merge ends. */
  method MergeBackward<T(!new)>(x: array<T>, first1: nat, last1: nat, y: array<T>, first2: nat, last2: nat,
                                out: array<T>, result0: nat, less: (T, T) -> bool) returns (start: nat)
    requires StrictWeakOrder(less) && first1 <= last1 <= x.Length && first2 <= last2 <= y.Length
    requires SortedIn(less, x[..], first1, last1) && SortedIn(less, y[..], first2, last2)
    requires (last1 - first1) + (last2 - first2) <= result0 <= out.Length
    requires out != y && (out == x ==> result0 >= last1 + (last2 - first2))
    modifies out
    ensures start == result0 - (last1 - first1) - (last2 - first2)
    ensures out[..] == old(Overwritten(out[..], result0 - (last1 - first1) - (last2 - first2),
                                       Merge(less, x[first1..last1], y[first2..last2])))
  {
    hide Overwritten, Merge, MergeLeft, StrictWeakOrder, SortedIn, Sorted, BackState;
    ghost var s, X, Y := out[..], x[first1..last1], y[first2..last2];
    ghost var m, at := Merge(less, X, Y), result0 - (last1 - first1) - (last2 - first2);
    SortedSlice(less, x[..], first1, last1);
    SortedSlice(less, y[..], first2, last2);
    MergeLeftStart(less, X, Y);
    assert X[..|X|] == X && Y[..|Y|] == Y && m[..|m|] == m;
    MergeLeftEnd(less, X, Y, m, |X|, |Y|);
    OverwrittenEnds(s, at, m);
    if first1 == last1 {
      start := CopyBackward(y, first2, last2, out, result0);
      return;
    }
    if first2 == last2 {
      start := CopyBackward(x, first1, last1, out, result0);
      return;
    }
    BackStart(less, x[..], s, X, Y, m, first1, at);
    start := MergeBackLoop(x, first1, last1, y, first2, last2, out, result0, less, s, X, Y, m);
  }

  /** What the loop of `__merge_backward` keeps, `i` and `j` elements being left. */
  ghost predicate BackState<T(!new)>(less: (T, T) -> bool, x: seq<T>, out: seq<T>, s: seq<T>, X: seq<T>, Y: seq<T>,
                              m: seq<T>,
                                     first1: nat, at: nat, i: nat, j: nat) {
    && MergeLeft(less, X, Y, m, i, j) && i <= |X| && j <= |Y| && |m| == |X| + |Y|
    && at + |m| <= |s| == |out| && out == Overwritten(s, at + i + j, m[i + j..])
    && first1 + i <= |x| && x[first1..first1 + i] == X[..i]
  }

  lemma BackStart<T(!new)>(less: (T, T) -> bool, x: seq<T>, s: seq<T>, X: seq<T>, Y: seq<T>, m: seq<T>, first1: nat,
                    at: nat)
    requires MergeLeft(less, X, Y, m, |X|, |Y|) && at + |m| <= |s| && |m| == |X| + |Y|
    requires first1 + |X| <= |x| && x[first1..first1 + |X|] == X
    ensures BackState(less, x, s, s, X, Y, m, first1, at, |X|, |Y|)
  {
    hide MergeLeft;
    OverwrittenEnds(s, at, m);
  }

  lemma BackStep<T(!new)>(less: (T, T) -> bool, x: seq<T>, out: seq<T>, x1: seq<T>, out1: seq<T>, s: seq<T>, X: seq<T>,
                   Y: seq<T>,
                          m: seq<T>, first1: nat, at: nat, i: nat, j: nat, i1: nat, j1: nat)
    requires BackState(less, x, out, s, X, Y, m, first1, at, i, j) && i1 + j1 + 1 == i + j && i1 <= i && j1 <= j
    requires |x1| == |x| && x1[first1..first1 + i] == X[..i] && MergeLeft(less, X, Y, m, i1, j1)
    requires out1 == out[at + i1 + j1 := m[i1 + j1]]
    ensures BackState(less, x1, out1, s, X, Y, m, first1, at, i1, j1)
  {
    hide MergeLeft;
    OverwrittenStep(s, at, m, i1 + j1);
    assert x1[first1..first1 + i1] == x1[first1..first1 + i][..i1];
  }

  /** The loop of `__merge_backward`. */
  method MergeBackLoop<T(!new)>(x: array<T>, first1: nat, last1: nat, y: array<T>, first2: nat, last2: nat,
                                out: array<T>, result0: nat, less: (T, T) -> bool,
                                ghost s: seq<T>, ghost X: seq<T>, ghost Y: seq<T>, ghost m: seq<T>) returns (start: nat)
    requires StrictWeakOrder(less) && first1 < last1 <= x.Length && first2 < last2 <= y.Length
    requires |X| == last1 - first1 && |Y| == last2 - first2 && y[first2..last2] == Y && |X| + |Y| <= result0
    requires out != y && (out == x ==> result0 >= last1 + |Y|)
    requires BackState(less, x[..], out[..], s, X, Y, m, first1, result0 - |X| - |Y|, |X|, |Y|)
    modifies out
    ensures start == result0 - |X| - |Y| && start + |m| <= |s| && out[..] == Overwritten(s, start, m)
  {
    hide Overwritten, MergeLeft, StrictWeakOrder, BackState;
    ghost var at := result0 - |X| - |Y|;
    var p, q := last1 - 1, last2 - 1;
    start := result0;
    while true
      invariant first1 <= p < last1 && first2 <= q < last2 && start == at + (p + 1 - first1) + (q + 1 - first2)
      invariant BackState(less, x[..], out[..], s, X, Y, m, first1, at, p + 1 - first1, q + 1 - first2)
      decreases p + q
    {
      ghost var i, j, xs, outs := p + 1 - first1, q + 1 - first2, x[..], out[..];
      BackFacts(less, xs, outs, s, X, Y, m, first1, at, i, j);
      assert y[q] == Y[j - 1];
      start := start - 1;
      var fromFirst := MergeOneBack(x, p, y, q, out, start, less, X, Y, m, i, j, first1);
      BackStep(less, xs, outs, x[..], out[..], s, X, Y, m, first1, at, i, j, if fromFirst then i - 1
        else i, if fromFirst then j else j - 1);
      if fromFirst {
        if p == first1 {
          BackFacts(less, x[..], out[..], s, X, Y, m, first1, at, 0, j);
          assert y[first2..q + 1] == Y[..j];
          start := FinishBackward(y, first2, q + 1, out, start, s, at, m, Y);
          return;
        }
        p := p - 1;
      } else {
        if q == first2 {
          BackFacts(less, x[..], out[..], s, X, Y, m, first1, at, i, 0);
          start := FinishBackward(x, first1, p + 1, out, start, s, at, m, X);
          return;
        }
        q := q - 1;
      }
    }
  }

  lemma BackFacts<T(!new)>(less: (T, T) -> bool, x: seq<T>, out: seq<T>, s: seq<T>, X: seq<T>, Y: seq<T>, m: seq<T>,
                           first1: nat, at: nat, i: nat, j: nat)
    requires BackState(less, x, out, s, X, Y, m, first1, at, i, j)
    ensures MergeLeft(less, X, Y, m, i, j) && i <= |X| && j <= |Y| && |m| == |X| + |Y| && at + |m| <= |s| == |out|
    ensures first1 + i <= |x| && x[first1..first1 + i] == X[..i] && (i > 0 ==> x[first1 + i - 1] == X[i - 1])
    ensures i == 0 ==> m[..j] == Y[..j]
    ensures j == 0 ==> m[..i] == X[..i]
    ensures out == Overwritten(s, at + i + j, m[i + j..])
  {
    MergeLeftEnd(less, X, Y, m, i, j);
    if i > 0 {
      assert x[first1..first1 + i][i - 1] == X[..i][i - 1];
    }
  }

  /** The copy that ends a backward merge: what is left of one range is the front of the merge. */
  method FinishBackward<T>(y: array<T>, first: nat, last: nat, out: array<T>, start: nat,
                           ghost s: seq<T>, ghost at: nat, ghost m: seq<T>, ghost Y: seq<T>) returns (end: nat)
    requires first <= last <= y.Length && (y == out ==> start >= last) && start == at + (last - first)
    requires at + |m| <= |s| == out.Length && last - first <= |m| && last - first <= |Y|
    requires y[first..last] == Y[..last - first] == m[..last - first]
    requires out[..] == Overwritten(s, start, m[start - at..])
    modifies out
    ensures end == at && out[..] == Overwritten(s, at, m)
  {
    hide Overwritten;
    OverwrittenAppend(s, at, m, last - first);
    end := CopyBackward(y, first, last, out, start);
  }
}
