/** `copy` and `copy_backward`, between arrays or inside one. */
module Copying {

  /** `s` with the elements of `x` from `at` on. */
  ghost function Overwritten<T>(s: seq<T>, at: nat, x: seq<T>): seq<T>
    requires at + |x| <= |s|
  {
    s[..at] + x + s[at + |x|..]
  }

  /** One place of it. */
  lemma OverwrittenAt<T>(s: seq<T>, at: nat, x: seq<T>, i: nat)
    requires at + |x| <= |s| && i < |s|
    ensures |Overwritten(s, at, x)| == |s| && Overwritten(s, at, x)[i] == if at <= i < at + |x| then x[i - at] else s[i]
  {
  }

  lemma OverwrittenStep<T>(s: seq<T>, at: nat, x: seq<T>, k: nat)
    requires at + |x| <= |s| && k < |x|
    ensures Overwritten(s, at, x[..k + 1]) == Overwritten(s, at, x[..k])[at + k := x[k]]
    ensures Overwritten(s, at + k, x[k..]) == Overwritten(s, at + k + 1, x[k + 1..])[at + k := x[k]]
  {
  }

  lemma OverwrittenEnds<T>(s: seq<T>, at: nat, x: seq<T>)
    requires at + |x| <= |s|
    ensures Overwritten(s, at, x[..0]) == s && Overwritten(s, at + |x|, x[|x|..]) == s
    ensures x[..|x|] == x && x[0..] == x
  {
  }

  /** `copy`: inside one array, only towards the front. */
  method Copy<T>(src: array<T>, first: nat, last: nat, dst: array<T>, result: nat) returns (end: nat)
    requires first <= last <= src.Length && result + (last - first) <= dst.Length
    requires src == dst ==> result <= first
    modifies dst
    ensures dst[..] == old(Overwritten(dst[..], result, src[first..last])) && end == result + (last - first)
  {
    hide Overwritten;
    ghost var s, x := dst[..], src[first..last];
    OverwrittenEnds(s, result, x);
    var from := first;
    end := result;
    while from != last
      invariant first <= from <= last && end == result + (from - first)
      invariant dst[..] == Overwritten(s, result, x[..from - first])
      invariant forall k :: from <= k < last ==> src[k] == x[k - first]
    {
      OverwrittenStep(s, result, x, from - first);
      ghost var t := dst[..];
      dst[end] := src[from];
      assert dst[..] == t[end := x[from - first]];
      from, end := from + 1, end + 1;
    }
  }

  /** `copy_backward`: inside one array, only towards the back. */
  method CopyBackward<T>(src: array<T>, first: nat, last: nat, dst: array<T>, result: nat) returns (start: nat)
    requires first <= last <= src.Length && last - first <= result <= dst.Length
    requires src == dst ==> result >= last
    modifies dst
    ensures start == result - (last - first) && dst[..] ==
      old(Overwritten(dst[..], result - (last - first), src[first..last]))
  {
    hide Overwritten;
    ghost var s, x, at := dst[..], src[first..last], result - (last - first);
    OverwrittenEnds(s, at, x);
    var from := last;
    start := result;
    while from != first
      invariant first <= from <= last && start == result - (last - from)
      invariant dst[..] == Overwritten(s, start, x[from - first..])
      invariant forall k :: first <= k < from ==> src[k] == x[k - first]
    {
      from, start := from - 1, start - 1;
      OverwrittenStep(s, at, x, from - first);
      ghost var t := dst[..];
      dst[start] := src[from];
      assert dst[..] == t[start := x[from - first]];
    }
  }
}
