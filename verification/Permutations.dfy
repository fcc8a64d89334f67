/** `next_permutation` and `prev_permutation`. */
module Permutations {
  import opened Orders
  import opened Ranges
  import opened Stability
  import opened Rotate

  // ---------- arrangements and their order ----------

  /** `s` comes before `t`, decided at position `p`. */
  ghost predicate LexAt<T(!new)>(less: (T, T) -> bool, s: seq<T>, t: seq<T>, p: nat) {
    p < |s| && p < |t| && less(s[p], t[p]) && forall q :: 0 <= q < p ==> Equiv(less, s[q], t[q])
  }

  /** The lexicographic order. */
  ghost predicate LexLess<T(!new)>(less: (T, T) -> bool, s: seq<T>, t: seq<T>) {
    exists p :: LexAt(less, s, t, p)
  }

  ghost predicate Arranges<T>(s: seq<T>, u: seq<T>) {
    multiset(s) == multiset(u) && |s| == |u|
  }

  /** `t` is the least of the arrangements of `s` that come after `s`. */
  ghost predicate IsNext<T(!new)>(less: (T, T) -> bool, s: seq<T>, t: seq<T>) {
    && Arranges(s, t) && LexLess(less, s, t)
    && forall u :: Arranges(s, u) && LexLess(less, s, u) ==> !LexLess(less, u, t)
  }

  /** No arrangement of `s` comes after it. */
  ghost predicate IsLast<T(!new)>(less: (T, T) -> bool, s: seq<T>) {
    forall u :: Arranges(s, u) ==> !LexLess(less, s, u)
  }

  /** The order turned round. */
  function Flip<T>(less: (T, T) -> bool): (T, T) -> bool { (x, y) => less(y, x) }

  lemma FlipIsOrder<T(!new)>(less: (T, T) -> bool)
    requires StrictWeakOrder(less)
    ensures StrictWeakOrder(Flip(less))
  {
    var f := Flip(less);
    forall x, y, z
      ensures f(x, y) && f(y, z) ==> f(x, z)
      ensures f(x, z) ==> f(x, y) || f(y, z)
    {
    }
  }

  lemma FlipLex<T(!new)>(less: (T, T) -> bool, s: seq<T>, t: seq<T>)
    ensures LexLess(Flip(less), s, t) ==> LexLess(less, t, s)
    ensures LexLess(less, t, s) ==> LexLess(Flip(less), s, t)
  {
    if p: nat :| LexAt(Flip(less), s, t, p) {
      assert forall q :: 0 <= q < p ==> Equiv(Flip(less), s[q], t[q]) ==> Equiv(less, t[q], s[q]);
      assert LexAt(less, t, s, p);
    }
    if p: nat :| LexAt(less, t, s, p) {
      assert forall q :: 0 <= q < p ==> Equiv(less, t[q], s[q]) ==> Equiv(Flip(less), s[q], t[q]);
      assert LexAt(Flip(less), s, t, p);
    }
  }

  // ---------- counting ----------

  /** How many elements are greater than `v`. */
  ghost function CountAbove<T(!new)>(less: (T, T) -> bool, v: T, s: seq<T>): nat {
    if s == [] then 0
    else CountAbove(less, v, s[..|s| - 1]) + if less(v, s[|s| - 1]) then 1 else 0
  }

  lemma {:induction false} CountAboveConcat<T(!new)>(less: (T, T) -> bool, v: T, x: seq<T>, y: seq<T>)
    ensures CountAbove(less, v, x + y) == CountAbove(less, v, x) + CountAbove(less, v, y)
    decreases |y|
  {
    if y == [] {
      assert x + y == x;
    } else {
      CountAboveConcat(less, v, x, y[..|y| - 1]);
      assert (x + y)[..|x + y| - 1] == x + y[..|y| - 1];
    }
  }

  /** One element cut out of a sequence. */
  lemma CutOut<T>(u: seq<T>, k: nat)
    requires k < |u|
    ensures u == u[..k] + [u[k]] + u[k + 1..]
    ensures multiset(u) == multiset(u[..k] + u[k + 1..]) + multiset{u[k]}
  {
    var w := u[..k] + [u[k]] + u[k + 1..];
    assert u == w;
  }

  lemma PlaceOf<T>(u: seq<T>, x: T) returns (k: nat)
    requires x in multiset(u)
    ensures k < |u| && u[k] == x
  {
    k :| 0 <= k < |u| && u[k] == x;
  }

  lemma RemoveOne<T>(s: seq<T>, u: seq<T>) returns (k: nat)
    requires Arranges(s, u) && s != []
    ensures k < |u| && u[k] == s[|s| - 1] && u == u[..k] + [u[k]] + u[k + 1..]
    ensures Arranges(s[..|s| - 1], u[..k] + u[k + 1..])
  {
    var n, x := |s| - 1, s[|s| - 1];
    CutOut(s, n);
    assert s[..n] + s[n + 1..] == s[..n];
    assert x in multiset(s);
    k := PlaceOf(u, x);
    CutOut(u, k);
    SameRest(multiset(s[..n]), multiset(u[..k] + u[k + 1..]), x);
  }

  lemma SameRest<T>(a: multiset<T>, b: multiset<T>, x: T)
    requires a + multiset{x} == b + multiset{x}
    ensures a == b && |a| == |b|
  {
    assert a == (a + multiset{x}) - multiset{x};
    assert b == (b + multiset{x}) - multiset{x};
  }

  lemma {:induction false} CountAboveArranged<T(!new)>(less: (T, T) -> bool, v: T, s: seq<T>, u: seq<T>)
    requires Arranges(s, u)
    ensures CountAbove(less, v, s) == CountAbove(less, v, u)
    decreases |s|
  {
    if s != [] {
      var k := RemoveOne(s, u);
      hide Arranges;
      var x := u[k];
      CountAboveArranged(less, v, s[..|s| - 1], u[..k] + u[k + 1..]);
      CountAboveConcat(less, v, u[..k] + [x], u[k + 1..]);
      CountAboveConcat(less, v, u[..k], [x]);
      CountAboveConcat(less, v, u[..k], u[k + 1..]);
    }
  }

  lemma {:induction false} CountAboveAlike<T(!new)>(less: (T, T) -> bool, v: T, s: seq<T>, u: seq<T>)
    requires StrictWeakOrder(less) && |s| == |u| && forall q :: 0 <= q < |s| ==> Equiv(less, s[q], u[q])
    ensures CountAbove(less, v, s) == CountAbove(less, v, u)
    decreases |s|
  {
    if s != [] {
      var n := |s| - 1;
      CountAboveAlike(less, v, s[..n], u[..n]);
      assert Equiv(less, s[n], u[n]);
    }
  }

  lemma {:induction false} CountAboveNone<T(!new)>(less: (T, T) -> bool, v: T, s: seq<T>)
    requires forall q :: 0 <= q < |s| ==> !less(v, s[q])
    ensures CountAbove(less, v, s) == 0
    decreases |s|
  {
    if s != [] {
      CountAboveNone(less, v, s[..|s| - 1]);
    }
  }

  lemma {:induction false} CountAboveMonotone<T(!new)>(less: (T, T) -> bool, v: T, w: T, s: seq<T>)
    requires forall q :: 0 <= q < |s| && less(v, s[q]) ==> less(w, s[q])
    ensures CountAbove(less, v, s) <= CountAbove(less, w, s)
    decreases |s|
  {
    if s != [] {
      var n := |s| - 1;
      assert forall q :: 0 <= q < n ==> s[..n][q] == s[q];
      CountAboveMonotone(less, v, w, s[..n]);
    }
  }

  /** Sequences with as many elements above every value. */
  ghost predicate SameCounts<T(!new)>(less: (T, T) -> bool, s: seq<T>, u: seq<T>) {
    |s| == |u| && forall v :: CountAbove(less, v, s) == CountAbove(less, v, u)
  }

  /** Arrangements that agree up to `p` have the same counts from there on. */
  lemma SameCountsAfter<T(!new)>(less: (T, T) -> bool, s: seq<T>, u: seq<T>, p: nat)
    requires StrictWeakOrder(less) && Arranges(s, u) && p <= |s|
    requires forall q :: 0 <= q < p ==> Equiv(less, s[q], u[q])
    ensures SameCounts(less, s[p..], u[p..])
  {
    forall v
      ensures CountAbove(less, v, s[p..]) == CountAbove(less, v, u[p..])
    {
      CountAboveArranged(less, v, s, u);
      assert s == s[..p] + s[p..] && u == u[..p] + u[p..];
      CountAboveConcat(less, v, s[..p], s[p..]);
      CountAboveConcat(less, v, u[..p], u[p..]);
      CountAboveAlike(less, v, s[..p], u[..p]);
    }
  }

  /** No earlier element is less than a later one. */
  ghost predicate Descending<T(!new)>(less: (T, T) -> bool, s: seq<T>) {
    forall i, j :: 0 <= i < j < |s| ==> !less(s[i], s[j])
  }

  /** Where another sequence goes above a descending one, it has one element more above that place. */
  lemma OneMoreAbove<T(!new)>(less: (T, T) -> bool, s: seq<T>, u: seq<T>, k: nat)
    requires StrictWeakOrder(less) && Descending(less, s) && LexAt(less, s, u, k)
    ensures CountAbove(less, s[k], u) > CountAbove(less, s[k], s)
  {
    hide CountAbove, Descending, StrictWeakOrder;
    var v := s[k];
    CountAboveAlike(less, v, s[..k], u[..k]);
    NoneAboveFrom(less, s, k);
    OneAboveFrom(less, v, u, k);
    CountAboveCut(less, v, s, k);
    CountAboveCut(less, v, u, k);
  }

  lemma CountAboveCut<T(!new)>(less: (T, T) -> bool, v: T, s: seq<T>, k: nat)
    requires k <= |s|
    ensures CountAbove(less, v, s) == CountAbove(less, v, s[..k]) + CountAbove(less, v, s[k..])
  {
    assert s == s[..k] + s[k..];
    CountAboveConcat(less, v, s[..k], s[k..]);
  }

  lemma NoneAboveFrom<T(!new)>(less: (T, T) -> bool, s: seq<T>, k: nat)
    requires StrictWeakOrder(less) && Descending(less, s) && k < |s|
    ensures CountAbove(less, s[k], s[k..]) == 0
  {
    CountAboveNone(less, s[k], s[k..]);
  }

  lemma OneAboveFrom<T(!new)>(less: (T, T) -> bool, v: T, u: seq<T>, k: nat)
    requires k < |u| && less(v, u[k])
    ensures CountAbove(less, v, u[k..]) > 0
  {
    assert u[k..] == [u[k]] + u[k + 1..];
    CountAboveConcat(less, v, [u[k]], u[k + 1..]);
    assert CountAbove(less, v, [u[k]]) == 1;
  }

  /** A descending sequence comes after all with the same counts. */
  lemma DescendingIsLast<T(!new)>(less: (T, T) -> bool, s: seq<T>, u: seq<T>)
    requires StrictWeakOrder(less) && Descending(less, s) && SameCounts(less, s, u)
    ensures !LexLess(less, s, u)
  {
    if k: nat :| LexAt(less, s, u, k) {
      OneMoreAbove(less, s, u, k);
    }
  }

  lemma FlipDescending<T(!new)>(less: (T, T) -> bool, s: seq<T>)
    requires Sorted(less, s)
    ensures Descending(Flip(less), s)
  {
  }

  // ---------- one step ----------

  /** The shape that the search finds: descending from `p + 1` on, the element at `p` less than
      the next, and `j` the last place after it with a greater element. */
  ghost predicate Pivot<T(!new)>(less: (T, T) -> bool, s: seq<T>, p: nat, j: nat) {
    && p < j < |s| && less(s[p], s[p + 1]) && less(s[p], s[j])
    && (forall k :: j < k < |s| ==> !less(s[p], s[k]))
    && Descending(less, s[p + 1..])
  }

  /** The swap and the reversal. */
  ghost function Stepped<T>(s: seq<T>, p: nat, j: nat): seq<T>
    requires p < j < |s|
  {
    ReversedIn(Swapped(s, p, j), p + 1, |s|)
  }

  lemma SteppedParts<T>(s: seq<T>, p: nat, j: nat)
    requires p < j < |s|
    ensures var d := s[p + 1..][j - p - 1 := s[p]];
            Stepped(s, p, j) == s[..p] + [s[j]] + Reversed(d) && |Reversed(d)| == |s| - p - 1
  {
    var t := Swapped(s, p, j);
    var d := s[p + 1..][j - p - 1 := s[p]];
    assert t[p + 1..|s|] == d;
    assert t[..p + 1] == s[..p] + [s[j]];
  }

  lemma {:induction false} ReversedMultiset<T>(s: seq<T>)
    ensures multiset(Reversed(s)) == multiset(s)
  {
    if s != [] {
      ReversedMultiset(s[1..]);
      assert s == [s[0]] + s[1..];
    }
  }

  lemma SteppedArranges<T>(s: seq<T>, p: nat, j: nat)
    requires p < j < |s|
    ensures Arranges(s, Stepped(s, p, j))
  {
    var t := Swapped(s, p, j);
    PermutedSwap(s, p, j, 0, |s|);
    assert s[0..|s|] == s && t[0..|t|] == t;
    ReversedMultiset(t[p + 1..|s|]);
    assert t == t[..p + 1] + t[p + 1..|s|] + t[|s|..];
  }

  /** The tail after the step is ascending. */
  lemma SteppedTail<T(!new)>(less: (T, T) -> bool, s: seq<T>, p: nat, j: nat)
    requires StrictWeakOrder(less) && Pivot(less, s, p, j)
    ensures Descending(Flip(less), Stepped(s, p, j)[p + 1..])
  {
    var d := s[p + 1..][j - p - 1 := s[p]];
    SteppedParts(s, p, j);
    assert Stepped(s, p, j)[p + 1..] == Reversed(d);
    forall m, n | 0 <= m < n < |d|
      ensures !less(d[m], d[n])
    {
      assert s[p + 1..][m] == s[p + 1 + m] && s[p + 1..][n] == s[p + 1 + n];
      assert s[p + 1..][j - p - 1] == s[j];
    }
    forall m, n | 0 <= m < n < |d|
      ensures !Flip(less)(Reversed(d)[m], Reversed(d)[n])
    {
      ReversedAt(d, m);
      ReversedAt(d, n);
      assert !less(d[|d| - 1 - n], d[|d| - 1 - m]);
    }
  }

  /** An arrangement after `s` and before the step keeps the front of `s`. */
  lemma BetweenKeepsFront<T(!new)>(less: (T, T) -> bool, s: seq<T>, u: seq<T>, t: seq<T>, p: nat, q: nat, r: nat)
    requires StrictWeakOrder(less) && |s| == |t| == |u| && p < |s| && s[..p] == t[..p]
    requires LexAt(less, s, u, q) && LexAt(less, u, t, r)
    ensures q >= p && r >= p
    ensures forall k :: 0 <= k < p ==> Equiv(less, s[k], u[k])
  {
    SameFront(s, t, p);
  }

  lemma SameFront<T>(s: seq<T>, t: seq<T>, p: nat)
    requires p <= |s| && p <= |t| && s[..p] == t[..p]
    ensures forall k :: 0 <= k < p ==> s[k] == t[k]
  {
    assert forall k :: 0 <= k < p ==> s[..p][k] == t[..p][k];
  }

  /** Nothing after the pivot lies strictly between it and its replacement. */
  lemma NoneBetween<T(!new)>(less: (T, T) -> bool, s: seq<T>, p: nat, j: nat, v: T, k: nat)
    requires StrictWeakOrder(less) && Pivot(less, s, p, j) && p <= k < |s|
    requires less(s[p], v) && less(v, s[j]) && less(s[p], s[k])
    ensures less(v, s[k])
  {
    if k < j {
      assert s[p + 1..][k - p - 1] == s[k] && s[p + 1..][j - p - 1] == s[j];
      assert !less(s[k], s[j]);
    }
  }

  /** A value strictly between the two would be counted once more after the pivot. */
  lemma CountsDiffer<T(!new)>(less: (T, T) -> bool, s: seq<T>, u: seq<T>, p: nat, j: nat)
    requires StrictWeakOrder(less) && Pivot(less, s, p, j) && |u| == |s|
    requires less(s[p], u[p]) && less(u[p], s[j])
    ensures CountAbove(less, s[p], s[p..]) <= CountAbove(less, u[p], s[p..])
    ensures CountAbove(less, s[p], u[p..]) > CountAbove(less, u[p], u[p..])
  {
    var x, v, a, b := s[p], u[p], s[p..], u[p..];
    forall q | 0 <= q < |a| && less(x, a[q])
      ensures less(v, a[q])
    {
      NoneBetween(less, s, p, j, v, p + q);
    }
    CountAboveMonotone(less, x, v, a);
    var c := b[1..];
    assert b == [v] + c;
    CountAboveConcat(less, x, [v], c);
    CountAboveConcat(less, v, [v], c);
    assert CountAbove(less, x, [v]) == 1 && CountAbove(less, v, [v]) == 0;
    CountAboveMonotone(less, v, x, c);
  }

  lemma NotBetweenAtPivot<T(!new)>(less: (T, T) -> bool, s: seq<T>, u: seq<T>, p: nat, j: nat)
    requires StrictWeakOrder(less) && Pivot(less, s, p, j) && |u| == |s|
    requires SameCounts(less, s[p..], u[p..]) && less(s[p], u[p])
    ensures !less(u[p], s[j])
  {
    if less(u[p], s[j]) {
      CountsDiffer(less, s, u, p, j);
    }
  }

  /** No arrangement of `s` lies between `s` and its step. */
  lemma NothingBetween<T(!new)>(less: (T, T) -> bool, s: seq<T>, u: seq<T>, p: nat, j: nat)
    requires StrictWeakOrder(less) && Pivot(less, s, p, j) && Arranges(s, u) && LexLess(less, s, u)
    ensures !LexLess(less, u, Stepped(s, p, j))
  {
    var t := Stepped(s, p, j);
    SteppedParts(s, p, j);
    SteppedArranges(s, p, j);
    var q: nat :| LexAt(less, s, u, q);
    forall r: nat
      ensures !LexAt(less, u, t, r)
    {
      if LexAt(less, u, t, r) {
        NotBetween(less, s, u, p, j, q, r);
      }
    }
  }

  lemma NotBetween<T(!new)>(less: (T, T) -> bool, s: seq<T>, u: seq<T>, p: nat, j: nat, q: nat, r: nat)
    requires StrictWeakOrder(less) && Pivot(less, s, p, j) && Arranges(s, u)
    requires LexAt(less, s, u, q)
    ensures !LexAt(less, u, Stepped(s, p, j), r)
  {
    var t := Stepped(s, p, j);
    SteppedParts(s, p, j);
    SteppedArranges(s, p, j);
    SameCountsAfter(less, s, u, 0);
    if LexAt(less, u, t, r) {
      BetweenKeepsFront(less, s, u, t, p, q, r);
      SameCountsAfter(less, s, u, p);
      if q > p {
        SameCountsAfter(less, s, u, p + 1);
        DescendingIsLast(less, s[p + 1..], u[p + 1..]);
        LexTail(less, s, u, p + 1, q);
      } else if r == p {
        NotBetweenAtPivot(less, s, u, p, j);
      } else {
        SteppedTail(less, s, p, j);
        TailIsFirst(less, u, t, p + 1);
        LexTail(less, u, t, p + 1, r);
      }
    }
  }

  lemma LexTail<T(!new)>(less: (T, T) -> bool, s: seq<T>, u: seq<T>, p: nat, q: nat)
    requires LexAt(less, s, u, q) && p <= q
    ensures LexLess(less, s[p..], u[p..])
  {
    assert LexAt(less, s[p..], u[p..], q - p);
  }

  /** An ascending tail comes before all with the same counts. */
  lemma TailIsFirst<T(!new)>(less: (T, T) -> bool, u: seq<T>, t: seq<T>, p: nat)
    requires StrictWeakOrder(less) && Arranges(u, t) && p <= |t| && Descending(Flip(less), t[p..])
    requires forall k :: 0 <= k < p ==> Equiv(less, u[k], t[k])
    ensures !LexLess(less, u[p..], t[p..])
  {
    FlipIsOrder(less);
    var f := Flip(less);
    assert forall k :: 0 <= k < p ==> Equiv(less, u[k], t[k]) ==> Equiv(f, t[k], u[k]);
    SameCountsAfter(f, t, u, p);
    DescendingIsLast(f, t[p..], u[p..]);
    FlipLex(less, t[p..], u[p..]);
  }

  /** The step is the next arrangement. */
  lemma StepIsNext<T(!new)>(less: (T, T) -> bool, s: seq<T>, p: nat, j: nat)
    requires StrictWeakOrder(less) && Pivot(less, s, p, j)
    ensures IsNext(less, s, Stepped(s, p, j)) && !Descending(less, s)
  {
    var t := Stepped(s, p, j);
    SteppedArranges(s, p, j);
    SteppedParts(s, p, j);
    SameFront(s, t, p);
    assert LexAt(less, s, t, p);
    forall u | Arranges(s, u) && LexLess(less, s, u)
      ensures !LexLess(less, u, t)
    {
      NothingBetween(less, s, u, p, j);
    }
  }

  /** A descending arrangement is the last one, and its reversal is sorted and the first. */
  lemma LastArrangement<T(!new)>(less: (T, T) -> bool, s: seq<T>)
    requires StrictWeakOrder(less) && Descending(less, s)
    ensures IsLast(less, s) && Arranges(s, Reversed(s)) && Sorted(less, Reversed(s)) && IsFirst(less, Reversed(s))
  {
    var t := Reversed(s);
    ReversedMultiset(s);
    forall i, j | 0 <= i < j < |t|
      ensures !less(t[j], t[i])
    {
      ReversedAt(s, i);
      ReversedAt(s, j);
    }
    forall u | Arranges(s, u)
      ensures !LexLess(less, s, u)
    {
      SameCountsAfter(less, s, u, 0);
      assert s[0..] == s && u[0..] == u;
      DescendingIsLast(less, s, u);
    }
    SortedIsFirst(less, t);
  }

  /** No arrangement of `t` comes before it. */
  ghost predicate IsFirst<T(!new)>(less: (T, T) -> bool, t: seq<T>) {
    forall u :: Arranges(t, u) ==> !LexLess(less, u, t)
  }

  lemma SortedIsFirst<T(!new)>(less: (T, T) -> bool, t: seq<T>)
    requires StrictWeakOrder(less) && Sorted(less, t)
    ensures IsFirst(less, t)
  {
    FlipDescending(less, t);
    assert t[0..] == t;
    forall u | Arranges(t, u)
      ensures !LexLess(less, u, t)
    {
      TailIsFirst(less, u, t, 0);
      assert u[0..] == u;
    }
  }

  // ---------- the two generators ----------

  /** What `next_permutation` leaves and returns. */
  ghost predicate NextResult<T(!new)>(less: (T, T) -> bool, s: seq<T>, t: seq<T>, found: bool) {
    && Arranges(s, t)
    && (found ==> IsNext(less, s, t))
    && (!found ==> IsLast(less, s) && t == Reversed(s) && Sorted(less, t) && IsFirst(less, t))
    && (found <==> !Descending(less, s))
  }

  /** The same over a stretch of an array. */
  ghost predicate NextIn<T(!new)>(less: (T, T) -> bool, s: seq<T>, t: seq<T>, lo: nat, hi: nat, found: bool) {
    && lo <= hi <= |s| == |t| && s[..lo] == t[..lo] && s[hi..] == t[hi..]
    && NextResult(less, s[lo..hi], t[lo..hi], found)
  }

  lemma ShortResult<T(!new)>(less: (T, T) -> bool, s: seq<T>, lo: nat, hi: nat)
    requires StrictWeakOrder(less) && lo <= hi <= |s| && hi - lo <= 1
    ensures NextIn(less, s, s, lo, hi, false)
  {
    var x := s[lo..hi];
    LastArrangement(less, x);
    assert x != [] ==> x[1..] == [] && x == [x[0]];
    assert Reversed(x) == x;
  }

  lemma ReversedResult<T(!new)>(less: (T, T) -> bool, s: seq<T>, lo: nat, hi: nat)
    requires StrictWeakOrder(less) && lo <= hi <= |s| && Descending(less, s[lo..hi])
    ensures NextIn(less, s, ReversedIn(s, lo, hi), lo, hi, false)
  {
    LastArrangement(less, s[lo..hi]);
    var t := ReversedIn(s, lo, hi);
    assert t[lo..hi] == Reversed(s[lo..hi]) && t[..lo] == s[..lo] && t[hi..] == s[hi..];
  }

  lemma FoundNext<T(!new)>(less: (T, T) -> bool, s: seq<T>, t: seq<T>)
    requires IsNext(less, s, t) && !Descending(less, s)
    ensures NextResult(less, s, t, true)
  {
    hide Descending;
    NextArranges(less, s, t);
  }

  lemma NotDescending<T(!new)>(less: (T, T) -> bool, s: seq<T>, lo: nat, hi: nat, i: nat)
    requires lo <= i < i + 1 < hi <= |s| && less(s[i], s[i + 1])
    ensures !Descending(less, s[lo..hi])
  {
    assert less(s[lo..hi][i - lo], s[lo..hi][i + 1 - lo]);
  }

  lemma SteppedResult<T(!new)>(less: (T, T) -> bool, s: seq<T>, lo: nat, hi: nat, i: nat, j: nat)
    requires StrictWeakOrder(less) && lo <= i < j < hi <= |s| && less(s[i], s[i + 1]) && less(s[i], s[j])
    requires forall k :: j < k < hi ==> !less(s[i], s[k])
    requires Descending(less, s[i + 1..hi])
    ensures NextIn(less, s, ReversedIn(Swapped(s, i, j), i + 1, hi), lo, hi, true)
  {
    var x, t := s[lo..hi], ReversedIn(Swapped(s, i, j), i + 1, hi);
    NotDescending(less, s, lo, hi, i);
    hide ReversedIn, Swapped, Pivot, StrictWeakOrder, IsNext, Arranges, Descending, Stepped, NextResult;
    PivotSlice(less, s, lo, hi, i, j);
    SteppedSlice(s, lo, hi, i, j);
    SteppedOutside(s, lo, hi, i, j);
    StepIsNext(less, x, i - lo, j - lo);
    FoundNext(less, x, t[lo..hi]);
  }

  lemma NextArranges<T(!new)>(less: (T, T) -> bool, s: seq<T>, t: seq<T>)
    requires IsNext(less, s, t)
    ensures Arranges(s, t)
  {
  }

  /** The pivot of a stretch, in terms of the array. */
  lemma PivotSlice<T(!new)>(less: (T, T) -> bool, s: seq<T>, lo: nat, hi: nat, i: nat, j: nat)
    requires lo <= i < j < hi <= |s| && less(s[i], s[i + 1]) && less(s[i], s[j])
    requires forall k :: j < k < hi ==> !less(s[i], s[k])
    requires Descending(less, s[i + 1..hi])
    ensures Pivot(less, s[lo..hi], i - lo, j - lo)
  {
    var x := s[lo..hi];
    assert x[i - lo + 1..] == s[i + 1..hi];
  }

  lemma SteppedOutside<T>(s: seq<T>, lo: nat, hi: nat, i: nat, j: nat)
    requires lo <= i < j < hi <= |s|
    ensures var t := ReversedIn(Swapped(s, i, j), i + 1, hi);
            |t| == |s| && t[..lo] == s[..lo] && t[hi..] == s[hi..]
  {
  }

  lemma SteppedSlice<T>(s: seq<T>, lo: nat, hi: nat, i: nat, j: nat)
    requires lo <= i < j < hi <= |s|
    ensures ReversedIn(Swapped(s, i, j), i + 1, hi)[lo..hi] == Stepped(s[lo..hi], i - lo, j - lo)
  {
    var x := s[lo..hi];
    var u, v := Swapped(s, i, j), Swapped(x, i - lo, j - lo);
    assert u[lo..hi] == v;
    assert u[i + 1..hi] == v[i + 1 - lo..hi - lo];
    assert u[lo..i + 1] == v[..i + 1 - lo];
  }

  lemma DescendingCons<T(!new)>(less: (T, T) -> bool, s: seq<T>, i: nat, hi: nat)
    requires StrictWeakOrder(less) && i + 1 < hi <= |s| && Descending(less, s[i + 1..hi]) && !less(s[i], s[i + 1])
    ensures Descending(less, s[i..hi])
  {
    var d, e := s[i + 1..hi], s[i..hi];
    forall m, n | 0 <= m < n < |e|
      ensures !less(e[m], e[n])
    {
      assert e[n] == d[n - 1];
      if m > 0 { assert e[m] == d[m - 1]; } else { assert d[0] == s[i + 1] && (n > 1 ==> !less(d[0], d[n - 1])); }
    }
  }

  /** `next_permutation`. */
  method NextPermutation<T(!new)>(a: array<T>, lo: nat, hi: nat, less: (T, T) -> bool) returns (found: bool)
    requires StrictWeakOrder(less) && lo <= hi <= a.Length
    modifies a
    ensures NextIn(less, old(a[..]), a[..], lo, hi, found)
  {
    hide StrictWeakOrder, NextIn, Descending, ReversedIn, Swapped;
    ghost var s := a[..];
    if lo == hi || lo + 1 == hi {
      ShortResult(less, s, lo, hi);
      return false;
    }
    var i := hi - 1;
    OneDescending(less, s, i);
    while true
      invariant lo < i < hi && Descending(less, s[i..hi]) && a[..] == s
      decreases i
    {
      var ii := i;
      i := i - 1;
      if less(a[i], a[ii]) {
        var j := hi - 1;
        while !less(a[i], a[j])
          invariant ii <= j < hi
          invariant forall k :: j < k < hi ==> !less(s[i], s[k])
          decreases j
        {
          j := j - 1;
        }
        SteppedResult(less, s, lo, hi, i, j);
        IterSwap(a, i, j);
        Reverse(a, ii, hi);
        return true;
      }
      DescendingCons(less, s, i, hi);
      if i == lo {
        ReversedResult(less, s, lo, hi);
        Reverse(a, lo, hi);
        return false;
      }
    }
  }

  lemma OneDescending<T(!new)>(less: (T, T) -> bool, s: seq<T>, i: nat)
    requires i < |s|
    ensures Descending(less, s[i..i + 1])
  {
  }

  /** `prev_permutation`: the same steps with the comparisons turned round. */
  method PrevPermutation<T(!new)>(a: array<T>, lo: nat, hi: nat, less: (T, T) -> bool) returns (found: bool)
    requires StrictWeakOrder(less) && lo <= hi <= a.Length
    modifies a
    ensures NextIn(Flip(less), old(a[..]), a[..], lo, hi, found)
  {
    hide StrictWeakOrder, NextIn, Descending, ReversedIn, Swapped;
    FlipIsOrder(less);
    ghost var s, f := a[..], Flip(less);
    if lo == hi || lo + 1 == hi {
      ShortResult(f, s, lo, hi);
      return false;
    }
    var i := hi - 1;
    OneDescending(f, s, i);
    while true
      invariant lo < i < hi && Descending(f, s[i..hi]) && a[..] == s
      decreases i
    {
      var ii := i;
      i := i - 1;
      if less(a[ii], a[i]) {
        var j := hi - 1;
        while !less(a[j], a[i])
          invariant ii <= j < hi
          invariant forall k :: j < k < hi ==> !f(s[i], s[k])
          decreases j
        {
          j := j - 1;
        }
        SteppedResult(f, s, lo, hi, i, j);
        IterSwap(a, i, j);
        Reverse(a, ii, hi);
        return true;
      }
      DescendingCons(f, s, i, hi);
      if i == lo {
        ReversedResult(f, s, lo, hi);
        Reverse(a, lo, hi);
        return false;
      }
    }
  }

  // ---------- undoing a step ----------

  ghost predicate TotalOrder<T(!new)>(less: (T, T) -> bool) {
    StrictWeakOrder(less) && forall x, y :: Equiv(less, x, y) ==> x == y
  }

  lemma LexTotal<T(!new)>(less: (T, T) -> bool, s: seq<T>, t: seq<T>)
    requires TotalOrder(less) && |s| == |t| && s != t
    ensures LexLess(less, s, t) || LexLess(less, t, s)
  {
    var p := FirstDifference(s, t);
    if less(s[p], t[p]) {
      assert LexAt(less, s, t, p);
    } else {
      assert !Equiv(less, s[p], t[p]);
      assert LexAt(less, t, s, p);
    }
  }

  lemma {:induction false} FirstDifference<T>(s: seq<T>, t: seq<T>) returns (p: nat)
    requires |s| == |t| && s != t
    ensures p < |s| && s[p] != t[p] && forall q :: 0 <= q < p ==> s[q] == t[q]
    decreases |s|
  {
    var n := |s| - 1;
    if s[..n] == t[..n] {
      p := n;
      assert s == s[..n] + [s[n]] && t == t[..n] + [t[n]];
      assert forall q :: 0 <= q < n ==> s[..n][q] == t[..n][q];
    } else {
      p := FirstDifference(s[..n], t[..n]);
      assert forall q :: 0 <= q < n ==> s[..n][q] == s[q] && t[..n][q] == t[q];
    }
  }

  /** Over a total order, `prev_permutation` after `next_permutation` gives the start back. */
  lemma PrevUndoesNext<T(!new)>(less: (T, T) -> bool, s: seq<T>, t: seq<T>, u: seq<T>, found: bool)
    requires TotalOrder(less) && IsNext(less, s, t) && NextResult(Flip(less), t, u, found)
    ensures found && u == s
  {
    var f := Flip(less);
    FlipLex(less, t, s);
    if !found {
      assert Arranges(t, s);
    } else if u != s {
      FlipLex(less, t, u);
      LexTotal(less, s, u);
      if LexLess(less, s, u) {
        assert Arranges(s, u);
      } else {
        FlipLex(less, s, u);
        assert Arranges(t, s);
      }
    }
  }
}
