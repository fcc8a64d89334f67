/** Vocabulary for algorithms that rearrange part of an array. */
module Ranges {

  /** No later element is less than an earlier one. */
  ghost predicate SortedIn<T(!new)>(less: (T, T) -> bool, s: seq<T>, lo: nat, hi: nat) {
    hi <= |s| && forall i, j :: lo <= i < j < hi ==> !less(s[j], s[i])
  }

  ghost predicate Sorted<T(!new)>(less: (T, T) -> bool, s: seq<T>) {
    SortedIn(less, s, 0, |s|)
  }

  /** `t` is `s` with the elements from `lo` to `hi` rearranged. */
  ghost predicate Permuted<T>(s: seq<T>, t: seq<T>, lo: nat, hi: nat) {
    && |s| == |t| && lo <= hi <= |s|
    && s[..lo] == t[..lo] && s[hi..] == t[hi..]
    && multiset(s[lo..hi]) == multiset(t[lo..hi])
  }

  lemma PermutedRefl<T>(s: seq<T>, lo: nat, hi: nat)
    requires lo <= hi <= |s|
    ensures Permuted(s, s, lo, hi)
  {
  }

  lemma PermutedTrans<T>(s: seq<T>, t: seq<T>, u: seq<T>, lo: nat, hi: nat)
    requires Permuted(s, t, lo, hi) && Permuted(t, u, lo, hi)
    ensures Permuted(s, u, lo, hi)
  {
  }

  /** A rearrangement of a range is one of any wider range. */
  lemma PermutedWiden<T>(s: seq<T>, t: seq<T>, lo: nat, hi: nat, from: nat, to: nat)
    requires Permuted(s, t, lo, hi) && from <= lo && hi <= to <= |s|
    ensures Permuted(s, t, from, to)
  {
    assert s[from..to] == s[from..lo] + s[lo..hi] + s[hi..to];
    assert t[from..to] == t[from..lo] + t[lo..hi] + t[hi..to];
    assert s[from..lo] == s[..lo][from..] && t[from..lo] == t[..lo][from..];
    assert s[hi..to] == s[hi..][..to - hi] && t[hi..to] == t[hi..][..to - hi];
    assert s[..from] == s[..lo][..from] && t[..from] == t[..lo][..from];
    assert s[to..] == s[hi..][to - hi..] && t[to..] == t[hi..][to - hi..];
  }

  function Swapped<T>(s: seq<T>, i: nat, j: nat): seq<T>
    requires i < |s| && j < |s|
  {
    s[i := s[j]][j := s[i]]
  }

  /** `iter_swap`. */
  method IterSwap<T>(a: array<T>, i: nat, j: nat)
    requires i < a.Length && j < a.Length
    modifies a
    ensures a[..] == old(Swapped(a[..], i, j))
  {
    a[i], a[j] := a[j], a[i];
  }

  lemma PermutedSwap<T>(s: seq<T>, i: nat, j: nat, lo: nat, hi: nat)
    requires lo <= i < hi <= |s| && lo <= j < hi
    ensures Permuted(s, Swapped(s, i, j), lo, hi)
  {
    var t := Swapped(s, i, j);
    var u := s[lo..hi];
    assert t[lo..hi] == u[i - lo := s[j]][j - lo := s[i]];
    assert u[i - lo] == s[i] && u[j - lo] == s[j];
  }

  /** Each element of the range comes from the range. */
  lemma PermutedFrom<T>(s: seq<T>, t: seq<T>, lo: nat, hi: nat, i: nat) returns (j: nat)
    requires Permuted(s, t, lo, hi) && lo <= i < hi
    ensures lo <= j < hi && s[j] == t[i]
  {
    assert t[lo..hi][i - lo] in multiset(t[lo..hi]);
    assert t[i] in s[lo..hi];
    var k :| 0 <= k < hi - lo && s[lo..hi][k] == t[i];
    j := lo + k;
  }

  /** Every element of the first stretch is at most every element of the second. */
  ghost predicate Below<T(!new)>(less: (T, T) -> bool, s: seq<T>, lo: nat, mid: nat, hi: nat) {
    hi <= |s| && forall i, j :: lo <= i < mid <= j < hi ==> !less(s[j], s[i])
  }

  lemma BelowPermutedLow<T(!new)>(less: (T, T) -> bool, s: seq<T>, t: seq<T>, lo: nat, mid: nat, hi: nat)
    requires Below(less, s, lo, mid, hi) && Permuted(s, t, lo, mid) && hi <= |s|
    ensures Below(less, t, lo, mid, hi)
  {
    forall i, j | lo <= i < mid <= j < hi
      ensures !less(t[j], t[i])
    {
      var k := PermutedFrom(s, t, lo, mid, i);
      assert t[j] == t[mid..][j - mid] == s[mid..][j - mid] == s[j];
    }
  }

  lemma BelowPermutedHigh<T(!new)>(less: (T, T) -> bool, s: seq<T>, t: seq<T>, lo: nat, mid: nat, hi: nat)
    requires Below(less, s, lo, mid, hi) && Permuted(s, t, mid, hi)
    ensures Below(less, t, lo, mid, hi)
  {
    forall i, j | lo <= i < mid <= j < hi
      ensures !less(t[j], t[i])
    {
      var k := PermutedFrom(s, t, mid, hi, j);
      assert t[i] == t[..mid][i] == s[..mid][i] == s[i];
    }
  }
}
