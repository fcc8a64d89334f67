/** Stability: a stable rearrangement keeps, for every element, the order of the
    elements equivalent to it. Sorting stably has one possible result. */
module Stability {
  import opened Orders
  import opened Ranges

  ghost predicate Equiv<T(!new)>(less: (T, T) -> bool, x: T, y: T) {
    !less(x, y) && !less(y, x)
  }

  /** The elements equivalent to `v`, in order. */
  ghost function Equivs<T(!new)>(less: (T, T) -> bool, v: T, s: seq<T>): seq<T> {
    if s == [] then []
    else Equivs(less, v, s[..|s| - 1]) + if Equiv(less, v, s[|s| - 1]) then [s[|s| - 1]] else []
  }

  /** `t` is a stable rearrangement of `s`. */
  ghost predicate SameClasses<T(!new)>(less: (T, T) -> bool, s: seq<T>, t: seq<T>) {
    forall v :: Equivs(less, v, s) == Equivs(less, v, t)
  }

  lemma {:induction false} EquivsConcat<T(!new)>(less: (T, T) -> bool, v: T, x: seq<T>, y: seq<T>)
    ensures Equivs(less, v, x + y) == Equivs(less, v, x) + Equivs(less, v, y)
    decreases |y|
  {
    if y == [] {
      assert x + y == x;
    } else {
      var n := |y| - 1;
      EquivsConcat(less, v, x, y[..n]);
      assert (x + y)[..|x + y| - 1] == x + y[..n];
    }
  }

  lemma SameClassesConcat<T(!new)>(less: (T, T) -> bool, x: seq<T>, y: seq<T>, u: seq<T>, w: seq<T>)
    requires SameClasses(less, x, u) && SameClasses(less, y, w)
    ensures SameClasses(less, x + y, u + w)
  {
    forall v
      ensures Equivs(less, v, x + y) == Equivs(less, v, u + w)
    {
      EquivsConcat(less, v, x, y);
      EquivsConcat(less, v, u, w);
    }
  }

  lemma SameClassesRefl<T(!new)>(less: (T, T) -> bool, s: seq<T>)
    ensures SameClasses(less, s, s)
  {
  }

  lemma SameClassesSym<T(!new)>(less: (T, T) -> bool, s: seq<T>, t: seq<T>)
    requires SameClasses(less, s, t)
    ensures SameClasses(less, t, s)
  {
  }

  lemma SameClassesTrans<T(!new)>(less: (T, T) -> bool, s: seq<T>, t: seq<T>, u: seq<T>)
    requires SameClasses(less, s, t) && SameClasses(less, t, u)
    ensures SameClasses(less, s, u)
  {
    forall v
      ensures Equivs(less, v, s) == Equivs(less, v, u)
    {
      assert Equivs(less, v, s) == Equivs(less, v, t);
    }
  }

  lemma {:induction false} NoEquivs<T(!new)>(less: (T, T) -> bool, v: T, s: seq<T>)
    requires forall i :: 0 <= i < |s| ==> !Equiv(less, v, s[i])
    ensures Equivs(less, v, s) == []
  {
    if s != [] {
      NoEquivs(less, v, s[..|s| - 1]);
    }
  }

  /** Two stretches change places stably when nothing in one is equivalent to anything in the other. */
  lemma SameClassesSwap<T(!new)>(less: (T, T) -> bool, x: seq<T>, y: seq<T>)
    requires StrictWeakOrder(less)
    requires forall i, j :: 0 <= i < |x| && 0 <= j < |y| ==> less(y[j], x[i])
    ensures SameClasses(less, x + y, y + x)
  {
    forall v
      ensures Equivs(less, v, x + y) == Equivs(less, v, y + x)
    {
      EquivsConcat(less, v, x, y);
      EquivsConcat(less, v, y, x);
      if i :| 0 <= i < |x| && Equiv(less, v, x[i]) {
        forall j | 0 <= j < |y|
          ensures !Equiv(less, v, y[j])
        {
          assert less(y[j], x[i]);
        }
        NoEquivs(less, v, y);
      } else {
        NoEquivs(less, v, x);
      }
    }
  }

  lemma {:induction false} EquivsCount<T(!new)>(less: (T, T) -> bool, v: T, s: seq<T>)
    requires !less(v, v)
    ensures multiset(Equivs(less, v, s))[v] == multiset(s)[v]
  {
    if s != [] {
      var n := |s| - 1;
      EquivsCount(less, v, s[..n]);
      assert s == s[..n] + [s[n]];
    }
  }

  /** A stable rearrangement is a permutation. */
  lemma SameClassesPermutes<T(!new)>(less: (T, T) -> bool, s: seq<T>, t: seq<T>)
    requires StrictWeakOrder(less) && SameClasses(less, s, t)
    ensures multiset(s) == multiset(t) && |s| == |t|
  {
    forall v
      ensures multiset(s)[v] == multiset(t)[v]
    {
      EquivsCount(less, v, s);
      EquivsCount(less, v, t);
    }
    assert |s| == |multiset(s)| && |t| == |multiset(t)|;
  }

  /** The last elements of two sorted sequences with the same classes are the same. */
  lemma SameLast<T(!new)>(less: (T, T) -> bool, s: seq<T>, t: seq<T>)
    requires StrictWeakOrder(less) && Sorted(less, s) && Sorted(less, t) && SameClasses(less, s, t)
    requires |s| == |t| > 0 && multiset(s) == multiset(t)
    ensures s[|s| - 1] == t[|t| - 1]
  {
    var n := |s| - 1;
    var x, y := s[n], t[n];
    assert x in multiset(t) && y in multiset(s);
    assert Equiv(less, x, y);
    assert Equivs(less, x, s) == Equivs(less, x, s[..n]) + [x];
    assert Equivs(less, x, t) == Equivs(less, x, t[..n]) + [y];
    SnocCancels(Equivs(less, x, s[..n]), x, Equivs(less, x, t[..n]), y);
  }

  lemma SnocCancels<T>(a: seq<T>, x: T, b: seq<T>, y: T)
    requires a + [x] == b + [y]
    ensures x == y
  {
    assert (a + [x])[|a|] == (b + [y])[|b|];
  }

  lemma SameInits<T(!new)>(less: (T, T) -> bool, s: seq<T>, t: seq<T>)
    requires SameClasses(less, s, t) && |s| == |t| > 0 && s[|s| - 1] == t[|t| - 1]
    ensures SameClasses(less, s[..|s| - 1], t[..|t| - 1])
  {
    var n := |s| - 1;
    forall v
      ensures Equivs(less, v, s[..n]) == Equivs(less, v, t[..n])
    {
      assert Equivs(less, v, s) == Equivs(less, v, t);
      var e := if Equiv(less, v, s[n]) then [s[n]] else [];
      ConcatCancels(Equivs(less, v, s[..n]), Equivs(less, v, t[..n]), e);
    }
  }

  /** Stable sorting has one result. */
  lemma {:induction false} StableSortUnique<T(!new)>(less: (T, T) -> bool, s: seq<T>, t: seq<T>)
    requires StrictWeakOrder(less) && Sorted(less, s) && Sorted(less, t) && SameClasses(less, s, t)
    ensures s == t
    decreases |s|
  {
    hide SameClasses, StrictWeakOrder;
    SameClassesPermutes(less, s, t);
    if s != [] {
      var n := |s| - 1;
      SameLast(less, s, t);
      SameInits(less, s, t);
      StableSortUnique(less, s[..n], t[..n]);
      assert s == s[..n] + [s[n]] && t == t[..n] + [t[n]];
    }
  }

  lemma ConcatCancels<T>(a: seq<T>, b: seq<T>, e: seq<T>)
    requires a + e == b + e
    ensures a == b
  {
    assert |a| == |b|;
    assert a == (a + e)[..|a|] && b == (b + e)[..|b|];
  }

  /** `t` is `s` with the elements from `lo` to `hi` sorted stably. */
  ghost predicate StablySorted<T(!new)>(less: (T, T) -> bool, s: seq<T>, t: seq<T>, lo: nat, hi: nat) {
    Stably(less, s, t, lo, hi) && SortedIn(less, t, lo, hi)
  }

  /** `t` is `s` with the elements from `lo` to `hi` rearranged stably. */
  ghost predicate Stably<T(!new)>(less: (T, T) -> bool, s: seq<T>, t: seq<T>, lo: nat, hi: nat) {
    && |s| == |t| && lo <= hi <= |s| && s[..lo] == t[..lo] && s[hi..] == t[hi..]
    && SameClasses(less, s[lo..hi], t[lo..hi])
  }

  lemma StablyPermuted<T(!new)>(less: (T, T) -> bool, s: seq<T>, t: seq<T>, lo: nat, hi: nat)
    requires StrictWeakOrder(less) && Stably(less, s, t, lo, hi)
    ensures Permuted(s, t, lo, hi)
  {
    SameClassesPermutes(less, s[lo..hi], t[lo..hi]);
  }

  lemma StablyRefl<T(!new)>(less: (T, T) -> bool, s: seq<T>, lo: nat, hi: nat)
    requires lo <= hi <= |s|
    ensures Stably(less, s, s, lo, hi)
  {
  }

  lemma StablyTrans<T(!new)>(less: (T, T) -> bool, s: seq<T>, t: seq<T>, u: seq<T>, lo: nat, hi: nat)
    requires Stably(less, s, t, lo, hi) && Stably(less, t, u, lo, hi)
    ensures Stably(less, s, u, lo, hi)
  {
    SameClassesTrans(less, s[lo..hi], t[lo..hi], u[lo..hi]);
  }

  lemma StablyWiden<T(!new)>(less: (T, T) -> bool, s: seq<T>, t: seq<T>, lo: nat, hi: nat, from: nat, to: nat)
    requires Stably(less, s, t, lo, hi) && from <= lo && hi <= to <= |s|
    ensures Stably(less, s, t, from, to)
  {
    assert s[from..lo] == s[..lo][from..] && t[from..lo] == t[..lo][from..];
    assert s[hi..to] == s[hi..][..to - hi] && t[hi..to] == t[hi..][..to - hi];
    assert s[..from] == s[..lo][..from] && t[..from] == t[..lo][..from];
    assert s[to..] == s[hi..][to - hi..] && t[to..] == t[hi..][to - hi..];
    SameClassesConcat(less, s[from..lo], s[lo..hi], t[from..lo], t[lo..hi]);
    SameClassesConcat(less, s[from..lo] + s[lo..hi], s[hi..to], t[from..lo] + t[lo..hi], t[hi..to]);
    assert s[from..to] == s[from..lo] + s[lo..hi] + s[hi..to];
    assert t[from..to] == t[from..lo] + t[lo..hi] + t[hi..to];
  }
}
