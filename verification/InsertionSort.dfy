/** `__insertion_sort` and its parts, guarded and unguarded. */
module InsertionSort {
  import opened Orders
  import opened Ranges
  import opened Stability
  import opened Copying

  /** `s` with the element at `last` moved down to `at`. */
  ghost function MovedDown<T>(s: seq<T>, at: nat, last: nat): seq<T>
    requires at <= last < |s|
  {
    s[..at] + [s[last]] + s[at..last] + s[last + 1..]
  }

  lemma MovedDownStably<T(!new)>(less: (T, T) -> bool, s: seq<T>, lo: nat, at: nat, last: nat)
    requires StrictWeakOrder(less) && lo <= at <= last < |s|
    requires forall i :: at <= i < last ==> less(s[last], s[i])
    ensures Stably(less, s, MovedDown(s, at, last), lo, last + 1)
  {
    var t := MovedDown(s, at, last);
    var x, v := s[at..last], s[last];
    assert s[lo..last + 1] == s[lo..at] + (x + [v]);
    assert t[lo..last + 1] == s[lo..at] + ([v] + x);
    assert s[..lo] == t[..lo] && s[last + 1..] == t[last + 1..];
    SameClassesSwap(less, x, [v]);
    hide StrictWeakOrder, MovedDown, SameClasses;
    SameClassesConcat(less, s[lo..at], x + [v], s[lo..at], [v] + x) by { SameClassesRefl(less, s[lo..at]); }
  }

  lemma MovedDownSorted<T(!new)>(less: (T, T) -> bool, s: seq<T>, lo: nat, at: nat, last: nat)
    requires StrictWeakOrder(less) && lo <= at <= last < |s| && SortedIn(less, s, lo, last)
    requires at > lo ==> !less(s[last], s[at - 1])
    requires at < last ==> less(s[last], s[at])
    ensures forall i :: at <= i < last ==> less(s[last], s[i])
    ensures SortedIn(less, MovedDown(s, at, last), lo, last + 1)
  {
    var t := MovedDown(s, at, last);
    forall i, j | lo <= i < j < last + 1
      ensures !less(t[j], t[i])
    {
      assert t[i] == if i < at then s[i] else if i == at then s[last] else s[i - 1];
      assert t[j] == if j < at then s[j] else if j == at then s[last] else s[j - 1];
    }
  }

  /** Moving an element down past greater ones inserts it stably. */
  lemma InsertedStably<T(!new)>(less: (T, T) -> bool, s: seq<T>, lo: nat, at: nat, last: nat)
    requires StrictWeakOrder(less) && lo <= at <= last < |s| && SortedIn(less, s, lo, last)
    requires at > lo ==> !less(s[last], s[at - 1])
    requires at < last ==> less(s[last], s[at])
    ensures StablySorted(less, s, MovedDown(s, at, last), lo, last + 1)
  {
    hide StrictWeakOrder, SortedIn, MovedDown, Stably;
    MovedDownSorted(less, s, lo, at, last);
    MovedDownStably(less, s, lo, at, last);
  }

  /** `__unguarded_linear_insert` of the element at `last`: nothing but the elements before it
      stops the search, so one of them, at `guard`, must not be greater. */
  method UnguardedLinearInsert<T(!new)>(a: array<T>, last: nat, val: T, less: (T, T) -> bool, ghost lo: nat)
    requires StrictWeakOrder(less) && lo < last < a.Length && val == a[last]
    requires SortedIn(less, a[..], lo, last) && !less(val, a[lo])
    modifies a
    ensures StablySorted(less, old(a[..]), a[..], lo, last + 1)
  {
    hide StrictWeakOrder, SortedIn, StablySorted;
    ghost var s := a[..];
    var at, next := last, last - 1;
    while less(val, a[next])
      invariant lo <= next && next + 1 == at <= last
      invariant at < last ==> less(val, s[at])
      invariant forall k :: 0 <= k <= next ==> a[k] == s[k]
      invariant forall k :: at < k <= last ==> a[k] == s[k - 1]
      invariant forall k :: last < k < a.Length ==> a[k] == s[k]
      decreases next
    {
      a[at] := a[next];
      at := next;
      next := next - 1;
    }
    a[at] := val;
    MovedDownIs(s, a[..], at, last);
    InsertedStably(less, s, lo, at, last);
  }

  lemma MovedDownIs<T>(s: seq<T>, t: seq<T>, at: nat, last: nat)
    requires at <= last < |s| == |t| && t[at] == s[last]
    requires forall k :: 0 <= k < at || last < k < |s| ==> t[k] == s[k]
    requires forall k :: at < k <= last ==> t[k] == s[k - 1]
    ensures t == MovedDown(s, at, last)
  {
    var m := MovedDown(s, at, last);
    forall k | 0 <= k < |s|
      ensures t[k] == m[k]
    {
    }
  }

  /** `__linear_insert`. */
  method LinearInsert<T(!new)>(a: array<T>, first: nat, last: nat, less: (T, T) -> bool)
    requires StrictWeakOrder(less) && first < last < a.Length && SortedIn(less, a[..], first, last)
    modifies a
    ensures StablySorted(less, old(a[..]), a[..], first, last + 1)
  {
    var val := a[last];
    if less(val, a[first]) {
      ghost var s := a[..];
      var _ := CopyBackward(a, first, last, a, last + 1);
      a[first] := val;
      assert a[..] == MovedDown(s, first, last);
      InsertedStably(less, s, first, first, last);
    } else {
      UnguardedLinearInsert(a, last, val, less, first);
    }
  }

  /** A longer stretch, sorted stably in two steps. */
  lemma SortedFurther<T(!new)>(less: (T, T) -> bool, s: seq<T>, t: seq<T>, u: seq<T>, lo: nat, mid: nat, hi: nat)
    requires lo <= mid <= hi <= |s| && Stably(less, s, t, lo, mid) && StablySorted(less, t, u, lo, hi)
    ensures StablySorted(less, s, u, lo, hi)
  {
    StablyWiden(less, s, t, lo, mid, lo, hi);
    StablyTrans(less, s, t, u, lo, hi);
  }

  lemma SortedPart<T(!new)>(less: (T, T) -> bool, s: seq<T>, t: seq<T>, lo: nat, hi: nat)
    requires StablySorted(less, s, t, lo, hi)
    ensures Stably(less, s, t, lo, hi) && SortedIn(less, t, lo, hi)
  {
  }

  /** `__insertion_sort`. */
  method Sort<T(!new)>(a: array<T>, first: nat, last: nat, less: (T, T) -> bool)
    requires StrictWeakOrder(less) && first <= last <= a.Length
    modifies a
    ensures StablySorted(less, old(a[..]), a[..], first, last)
  {
    ghost var s := a[..];
    StablyRefl(less, s, first, last);
    if first == last {
      return;
    }
    StablyRefl(less, s, first, first + 1);
    hide StrictWeakOrder, Stably, StablySorted, SortedIn;
    for i := first + 1 to last
      invariant StablySorted(less, s, a[..], first, i)
    {
      SortedPart(less, s, a[..], first, i);
      ghost var t := a[..];
      LinearInsert(a, first, i, less);
      SortedFurther(less, s, t, a[..], first, i, i + 1);
    }
  }

  /** None of the elements from `from` to `to` is less than the one at `lo`. */
  ghost predicate Guarded<T(!new)>(less: (T, T) -> bool, s: seq<T>, lo: nat, from: nat, to: nat) {
    lo < |s| && to <= |s| && forall k :: from <= k < to ==> !less(s[k], s[lo])
  }

  /** `__unguarded_insertion_sort` of the elements from `first` on, when those from `lo` to `first`
      are sorted already and none to come is less than the one at `lo`. */
  method UnguardedSort<T(!new)>(a: array<T>, first: nat, last: nat, less: (T, T) -> bool, ghost lo: nat)
    requires StrictWeakOrder(less) && lo < first <= last <= a.Length && SortedIn(less, a[..], lo, first)
    requires Guarded(less, a[..], lo, first, last)
    modifies a
    ensures StablySorted(less, old(a[..]), a[..], lo, last)
  {
    ghost var s := a[..];
    StablyRefl(less, s, lo, first);
    hide StrictWeakOrder, Stably, StablySorted, SortedIn, Guarded;
    for i := first to last
      invariant StablySorted(less, s, a[..], lo, i) && SortedIn(less, a[..], lo, i)
      invariant Guarded(less, a[..], lo, i, last)
    {
      ghost var t := a[..];
      NextGuarded(less, t, lo, i, last);
      UnguardedLinearInsert(a, i, a[i], less, lo);
      UnguardedStep(less, s, t, a[..], lo, i, last);
    }
  }

  lemma NextGuarded<T(!new)>(less: (T, T) -> bool, s: seq<T>, lo: nat, i: nat, last: nat)
    requires Guarded(less, s, lo, i, last) && i < last
    ensures !less(s[i], s[lo])
  {
  }

  lemma UnguardedStep<T(!new)>(less: (T, T) -> bool, s: seq<T>, t: seq<T>, u: seq<T>, lo: nat, i: nat, last: nat)
    requires StrictWeakOrder(less) && lo < i < last <= |s| == |t| && StablySorted(less, s, t, lo, i)
    requires Guarded(less, t, lo, i, last) && StablySorted(less, t, u, lo, i + 1)
    ensures StablySorted(less, s, u, lo, i + 1) && SortedIn(less, u, lo, i + 1) && Guarded(less, u, lo, i + 1, last)
  {
    hide StrictWeakOrder, Stably, SortedIn, Guarded;
    SortedFurther(less, s, t, u, lo, i, i + 1);
    GuardStays(less, t, u, lo, i, last);
  }

  lemma GuardStays<T(!new)>(less: (T, T) -> bool, s: seq<T>, t: seq<T>, lo: nat, i: nat, last: nat)
    requires StrictWeakOrder(less) && lo < i < last <= |s| && StablySorted(less, s, t, lo, i + 1)
    requires SortedIn(less, s, lo, i) && Guarded(less, s, lo, i, last)
    ensures Guarded(less, t, lo, i + 1, last)
  {
    StablyPermuted(less, s, t, lo, i + 1);
    PermutedSym(s, t, lo, i + 1);
    var j := PermutedFrom(t, s, lo, i + 1, lo);
    assert !less(s[lo], t[lo]);
    forall k | i + 1 <= k < last
      ensures !less(t[k], t[lo])
    {
      assert t[k] == t[i + 1..][k - i - 1] == s[i + 1..][k - i - 1];
    }
  }

  lemma PermutedSym<T>(s: seq<T>, t: seq<T>, lo: nat, hi: nat)
    requires Permuted(s, t, lo, hi)
    ensures Permuted(t, s, lo, hi)
  {
  }
}
