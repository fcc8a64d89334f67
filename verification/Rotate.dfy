/** `reverse` and the three forms of `rotate`. */
module Rotate {
  import opened Ranges

  ghost function Reversed<T>(s: seq<T>): (r: seq<T>)
    ensures |r| == |s|
  {
    if s == [] then [] else Reversed(s[1..]) + [s[0]]
  }

  lemma {:induction false} ReversedAt<T>(s: seq<T>, k: nat)
    requires k < |s|
    ensures Reversed(s)[k] == s[|s| - 1 - k]
  {
    if k < |s| - 1 {
      ReversedAt(s[1..], k);
    }
  }

  lemma {:induction false} ReversedConcat<T>(x: seq<T>, y: seq<T>)
    ensures Reversed(x + y) == Reversed(y) + Reversed(x)
  {
    if x == [] {
      assert x + y == y;
    } else {
      ReversedConcat(x[1..], y);
      assert (x + y)[1..] == x[1..] + y;
    }
  }

  lemma {:induction false} ReversedTwice<T>(s: seq<T>)
    ensures Reversed(Reversed(s)) == s
  {
    if s != [] {
      ReversedTwice(s[1..]);
      ReversedConcat(Reversed(s[1..]), [s[0]]);
      assert Reversed([s[0]]) == [s[0]];
      assert s == [s[0]] + s[1..];
    }
  }

  /** `s` with the elements from `lo` to `hi` reversed. */
  ghost function ReversedIn<T>(s: seq<T>, lo: nat, hi: nat): seq<T>
    requires lo <= hi <= |s|
  {
    s[..lo] + Reversed(s[lo..hi]) + s[hi..]
  }

  /** Exchanging the ends leaves the middle to reverse. */
  lemma ReversedEnds<T>(s: seq<T>, lo: nat, hi: nat)
    requires lo + 2 <= hi <= |s|
    ensures ReversedIn(s, lo, hi) == ReversedIn(Swapped(s, lo, hi - 1), lo + 1, hi - 1)
  {
    var m, x, y := s[lo + 1..hi - 1], s[lo], s[hi - 1];
    var t := Swapped(s, lo, hi - 1);
    assert s[lo..hi] == [x] + (m + [y]);
    ReversedConcat([x], m + [y]);
    ReversedConcat(m, [y]);
    assert Reversed([x]) == [x] && Reversed([y]) == [y];
    assert t[lo + 1..hi - 1] == m;
    assert t[..lo + 1] == s[..lo] + [y];
    assert t[hi - 1..] == [x] + s[hi..];
  }

  lemma ReversedShort<T>(s: seq<T>, lo: nat, hi: nat)
    requires lo <= hi <= |s| && hi <= lo + 1
    ensures ReversedIn(s, lo, hi) == s
  {
    if lo < hi {
      assert s[lo..hi] == [s[lo]];
      assert Reversed([s[lo]]) == [s[lo]];
    }
  }

  /** `__reverse` over bidirectional iterators. */
  method Reverse<T>(a: array<T>, lo: nat, hi: nat)
    requires lo <= hi <= a.Length
    modifies a
    ensures a[..] == old(ReversedIn(a[..], lo, hi))
  {
    hide ReversedIn, Swapped;
    ghost var goal := ReversedIn(a[..], lo, hi);
    var first, last := lo, hi;
    while true
      invariant lo <= first <= last <= hi
      invariant ReversedIn(a[..], first, last) == goal
      decreases last - first
    {
      ReversedMiddle(a[..], first, last);
      if first == last {
        return;
      }
      last := last - 1;
      if first == last {
        return;
      }
      IterSwap(a, first, last);
      first := first + 1;
    }
  }

  lemma ReversedMiddle<T>(s: seq<T>, lo: nat, hi: nat)
    requires lo <= hi <= |s|
    ensures hi <= lo + 1 ==> ReversedIn(s, lo, hi) == s
    ensures lo + 2 <= hi ==> ReversedIn(s, lo, hi) == ReversedIn(Swapped(s, lo, hi - 1), lo + 1, hi - 1)
  {
    if hi <= lo + 1 {
      ReversedShort(s, lo, hi);
    } else {
      ReversedEnds(s, lo, hi);
    }
  }

  /** `s` with the elements from `mid` to `hi` brought before those from `lo` to `mid`. */
  ghost function Rotated<T>(s: seq<T>, lo: nat, mid: nat, hi: nat): seq<T>
    requires lo <= mid <= hi <= |s|
  {
    s[..lo] + s[mid..hi] + s[lo..mid] + s[hi..]
  }

  // ---------- by swapping forwards ----------

  /** What swapping forwards has still to do: the part from `first2`, then the two parts
      around `middle` of the block before it, the other way round. */
  ghost function ToSwap<T>(s: seq<T>, first: nat, middle: nat, first2: nat, last: nat): seq<T>
    requires first <= middle <= first2 <= last <= |s|
  {
    s[..first] + s[first2..last] + s[middle..first2] + s[first..middle] + s[last..]
  }

  lemma SwapForward<T>(s: seq<T>, first: nat, middle: nat, first2: nat, last: nat)
    requires first < middle <= first2 < last <= |s|
    ensures ToSwap(s, first, middle, first2, last)
         == ToSwap(Swapped(s, first, first2), first + 1, middle, first2 + 1, last)
  {
    var t := Swapped(s, first, first2);
    assert t[..first + 1] == s[..first] + [s[first2]];
    assert s[first2..last] == [s[first2]] + s[first2 + 1..last];
    assert t[first2 + 1..last] == s[first2 + 1..last];
    assert t[middle..first2 + 1] == s[middle..first2] + [s[first]];
    assert s[first..middle] == [s[first]] + s[first + 1..middle];
    assert t[first + 1..middle] == s[first + 1..middle];
    assert t[last..] == s[last..];
  }

  lemma SwapTurns<T>(s: seq<T>, first: nat, middle: nat, first2: nat, last: nat)
    requires first <= middle <= first2 <= last <= |s|
    ensures first == middle ==> ToSwap(s, first, middle, first2, last) == ToSwap(s, first, first2, first2, last)
    ensures first2 == last ==> ToSwap(s, first, middle, first2, last) == ToSwap(s, first, middle, middle, last)
    ensures middle == last ==> ToSwap(s, first, middle, first2, last) == s
    ensures first2 == middle ==> ToSwap(s, first, middle, first2, last) == Rotated(s, first, middle, last)
  {
  }

  /** `__rotate` over forward iterators. */
  method RotateForward<T>(a: array<T>, lo: nat, mid: nat, hi: nat) returns (newMiddle: nat)
    requires lo <= mid <= hi <= a.Length
    modifies a
    ensures a[..] == old(Rotated(a[..], lo, mid, hi)) && newMiddle == lo + (hi - mid)
  {
    hide ToSwap;
    ghost var goal := Rotated(a[..], lo, mid, hi);
    SwapTurns(a[..], lo, mid, mid, hi);
    if lo == mid {
      assert goal == a[..];
      return hi;
    }
    if hi == mid {
      return lo;
    }
    var first, middle, first2 := lo, mid, mid;
    while first2 != hi
      invariant lo <= first < middle <= first2 <= hi && first - lo == first2 - mid
      invariant ToSwap(a[..], first, middle, first2, hi) == goal
      decreases hi - first2
    {
      first, middle, first2 := SwapOnce(a, first, middle, first2, hi, goal);
    }
    newMiddle := first;
    SwapTurns(a[..], first, middle, first2, hi);
    first2 := middle;
    while first2 != hi
      invariant lo <= first < middle <= first2 <= hi && (first2 == hi ==> middle == hi)
      invariant ToSwap(a[..], first, middle, first2, hi) == goal
      decreases hi - first
    {
      var wasMiddle := middle;
      first, middle, first2 := SwapOnce(a, first, middle, first2, hi, goal);
      if middle == wasMiddle && first2 == hi {
        SwapTurns(a[..], first, middle, first2, hi);
        first2 := middle;
      }
    }
    SwapTurns(a[..], first, middle, first2, hi);
  }

  /** One exchange of the swapping form. */
  method SwapOnce<T>(a: array<T>, first0: nat, middle0: nat, first20: nat, last: nat, ghost goal: seq<T>)
    returns (first: nat, middle: nat, first2: nat)
    requires first0 < middle0 <= first20 < last <= a.Length
    requires ToSwap(a[..], first0, middle0, first20, last) == goal
    modifies a
    ensures first == first0 + 1 && first2 == first20 + 1 && first < middle <= first2
    ensures middle == if first == middle0 then first2 else middle0
    ensures ToSwap(a[..], first, middle, first2, last) == goal
  {
    hide ToSwap, Swapped;
    ghost var s := a[..];
    SwapForward(s, first0, middle0, first20, last);
    IterSwap(a, first0, first20);
    first, middle, first2 := first0 + 1, middle0, first20 + 1;
    SwapTurns(a[..], first, middle, first2, last);
    if first == middle {
      middle := first2;
    }
  }

  // ---------- by three reversals ----------

  lemma ReversedHalves<T>(s: seq<T>, lo: nat, mid: nat, hi: nat)
    requires lo <= mid <= hi <= |s|
    ensures ReversedIn(ReversedIn(ReversedIn(s, lo, mid), mid, hi), lo, hi) == Rotated(s, lo, mid, hi)
  {
    var x, y := s[lo..mid], s[mid..hi];
    var t := ReversedIn(s, lo, mid);
    assert t == s[..lo] + Reversed(x) + s[mid..];
    assert t[mid..hi] == y && t[..mid] == s[..lo] + Reversed(x) && t[hi..] == s[hi..];
    var u := ReversedIn(t, mid, hi);
    assert u == s[..lo] + Reversed(x) + Reversed(y) + s[hi..];
    assert u[lo..hi] == Reversed(x) + Reversed(y) && u[..lo] == s[..lo] && u[hi..] == s[hi..];
    ReversedConcat(Reversed(x), Reversed(y));
    ReversedTwice(x);
    ReversedTwice(y);
  }

  lemma RotatedTrivially<T>(s: seq<T>, lo: nat, mid: nat, hi: nat)
    requires lo <= mid <= hi <= |s|
    ensures lo == mid || mid == hi ==> Rotated(s, lo, mid, hi) == s
  {
  }

  /** `__rotate` over bidirectional iterators, the one that `rotate` selects for arrays. */
  method RotateReversing<T>(a: array<T>, lo: nat, mid: nat, hi: nat) returns (newMiddle: nat)
    requires lo <= mid <= hi <= a.Length
    modifies a
    ensures a[..] == old(Rotated(a[..], lo, mid, hi)) && newMiddle == lo + (hi - mid)
  {
    ghost var goal := Rotated(a[..], lo, mid, hi);
    hide ReversedIn, Rotated, Swapped;
    RotatedTrivially(a[..], lo, mid, hi);
    if lo == mid {
      return hi;
    }
    if hi == mid {
      return lo;
    }
    ReversedHalves(a[..], lo, mid, hi);
    Reverse(a, lo, mid);
    Reverse(a, mid, hi);
    var first, last := ExchangeEnds(a, lo, mid, hi);
    if first == mid {
      Reverse(a, mid, last);
      return last;
    } else {
      Reverse(a, first, mid);
      return first;
    }
  }

  /** The loop of that form: exchanges from both ends until one of them meets the middle. */
  method ExchangeEnds<T>(a: array<T>, lo: nat, mid: nat, hi: nat) returns (first: nat, last: nat)
    requires lo < mid < hi <= a.Length
    modifies a
    ensures lo <= first <= mid <= last <= hi && first - lo == hi - last && (first == mid || mid == last)
    ensures ReversedIn(a[..], first, last) == old(ReversedIn(a[..], lo, hi))
  {
    hide ReversedIn, Swapped;
    ghost var goal := ReversedIn(a[..], lo, hi);
    first, last := lo, hi;
    while first != mid && mid != last
      invariant lo <= first <= mid <= last <= hi && first - lo == hi - last
      invariant ReversedIn(a[..], first, last) == goal
      decreases last - first
    {
      ReversedMiddle(a[..], first, last);
      last := last - 1;
      IterSwap(a, first, last);
      first := first + 1;
    }
  }
}
