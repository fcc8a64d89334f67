/** Binary heaps laid over part of an array: `stl_heap.h`, and `partial_sort` on top of it. */
module Heaps {
  import opened Orders
  import opened Ranges

  function Parent(k: nat): nat
    requires k > 0
  {
    (k - 1) / 2
  }

  /** `k` is `top` or lies below it. */
  ghost predicate InSubtree(top: nat, k: nat) {
    k == top || (k > top && InSubtree(top, Parent(k)))
  }

  lemma {:induction false} SubtreeAbove(top: nat, k: nat)
    requires InSubtree(top, k)
    ensures k >= top && (k > top ==> Parent(k) >= top)
  {
    if k > top {
      SubtreeAbove(top, Parent(k));
    }
  }

  /** The edge above slot `k` is in order. */
  ghost predicate EdgeOk<T(!new)>(less: (T, T) -> bool, s: seq<T>, first: nat, k: nat)
    requires 0 < k && first + k < |s|
  {
    !less(s[first + Parent(k)], s[first + k])
  }

  /** The slots from `top` on, of a heap of `len` slots, are in heap order below their parents. */
  ghost predicate HeapFrom<T(!new)>(less: (T, T) -> bool, s: seq<T>, first: nat, len: nat, top: nat) {
    first + len <= |s| && forall k :: 0 < k < len && top <= Parent(k) ==> EdgeOk(less, s, first, k)
  }

  ghost predicate IsHeap<T(!new)>(less: (T, T) -> bool, s: seq<T>, first: nat, len: nat) {
    HeapFrom(less, s, first, len, 0)
  }

  /** The root of a heap is a greatest element. */
  lemma {:induction false} RootIsGreatest<T(!new)>(less: (T, T) -> bool, s: seq<T>, first: nat, len: nat, k: nat)
    requires StrictWeakOrder(less) && IsHeap(less, s, first, len) && k < len
    ensures !less(s[first], s[first + k])
  {
    if k > 0 {
      RootIsGreatest(less, s, first, len, Parent(k));
      assert EdgeOk(less, s, first, k);
    }
  }

  /** Heap order but for a hole: the edges at the hole do not count, and its children are
      in order below its parent. */
  ghost predicate HoleAt<T(!new)>(less: (T, T) -> bool, s: seq<T>, first: nat, len: nat, top: nat, hole: nat) {
    && first + len <= |s| && hole < len && InSubtree(top, hole)
    && (forall k :: 0 < k < len && top <= Parent(k) && k != hole && Parent(k) != hole ==> EdgeOk(less, s, first, k))
    && (hole > top ==> forall k :: 0 < k < len && Parent(k) == hole ==> !less(s[first + Parent(hole)], s[first + k]))
  }

  /** The children of the hole do not exceed `value`. */
  ghost predicate Fits<T(!new)>(less: (T, T) -> bool, s: seq<T>, first: nat, len: nat, hole: nat, value: T) {
    first + len <= |s| && forall k :: 0 < k < len && Parent(k) == hole ==> !less(value, s[first + k])
  }

  lemma HoleUp<T(!new)>(less: (T, T) -> bool, s: seq<T>, first: nat, len: nat, top: nat, hole: nat, value: T)
    requires StrictWeakOrder(less) && HoleAt(less, s, first, len, top, hole) && Fits(less, s, first, len, hole, value)
    requires hole > top && less(s[first + Parent(hole)], value)
    ensures var t := s[first + hole := s[first + Parent(hole)]];
            HoleAt(less, t, first, len, top, Parent(hole)) && Fits(less, t, first, len, Parent(hole), value)
  {
    var p := Parent(hole);
    var t := s[first + hole := s[first + p]];
    SubtreeAbove(top, hole);
    SubtreeAbove(top, p);
    forall k | 0 < k < len && top <= Parent(k) && k != p && Parent(k) != p
      ensures EdgeOk(less, t, first, k)
    {
      assert k != hole;
      if Parent(k) != hole { assert EdgeOk(less, s, first, k); }
    }
    forall k | 0 < k < len && Parent(k) == p
      ensures !less(value, t[first + k]) && !less(s[first + p], t[first + k])
    {
      if k != hole { assert EdgeOk(less, s, first, k); }
    }
    if p > top {
      assert EdgeOk(less, s, first, p);
    }
  }

  lemma HoleFilled<T(!new)>(less: (T, T) -> bool, s: seq<T>, first: nat, len: nat, top: nat, hole: nat, value: T)
    requires StrictWeakOrder(less) && HoleAt(less, s, first, len, top, hole) && Fits(less, s, first, len, hole, value)
    requires hole > top ==> !less(s[first + Parent(hole)], value)
    ensures HeapFrom(less, s[first + hole := value], first, len, top)
  {
    var t := s[first + hole := value];
    SubtreeAbove(top, hole);
    forall k | 0 < k < len && top <= Parent(k)
      ensures EdgeOk(less, t, first, k)
    {
      if k != hole && Parent(k) != hole { assert EdgeOk(less, s, first, k); }
    }
  }

  /** `child` is a child of `hole` that no other child exceeds. */
  ghost predicate GreatestChild<T(!new)>(less: (T, T) -> bool, s: seq<T>, first: nat, len: nat, hole: nat, child: nat) {
    && 0 < child < len && Parent(child) == hole && first + len <= |s|
    && forall k :: 0 < k < len && Parent(k) == hole ==> !less(s[first + child], s[first + k])
  }

  lemma HoleDown<T(!new)>(less: (T, T) -> bool, s: seq<T>, first: nat, len: nat, top: nat, hole: nat, child: nat)
    requires StrictWeakOrder(less) && HoleAt(less, s, first, len, top, hole)
    requires GreatestChild(less, s, first, len, hole, child)
    ensures HoleAt(less, s[first + hole := s[first + child]], first, len, top, child)
  {
    var t := s[first + hole := s[first + child]];
    SubtreeAbove(top, hole);
    forall k | 0 < k < len && top <= Parent(k) && k != child && Parent(k) != child
      ensures EdgeOk(less, t, first, k)
    {
      if k != hole && Parent(k) != hole { assert EdgeOk(less, s, first, k); }
    }
    forall k | 0 < k < len && Parent(k) == child
      ensures !less(t[first + hole], t[first + k])
    {
      assert EdgeOk(less, s, first, k);
    }
  }

  /** Moving one element into the hole, and the hole to where it was. */
  lemma HoleMoves<T>(s: seq<T>, orig: seq<T>, lo: nat, hi: nat, hole: nat, from: nat, value: T)
    requires lo <= hole < hi <= |s| && lo <= from < hi && hole != from
    requires Permuted(orig, s[hole := value], lo, hi)
    ensures Permuted(orig, s[hole := s[from]][from := value], lo, hi)
  {
    var u := s[hole := value];
    PermutedSwap(u, hole, from, lo, hi);
    assert u[hole := u[from]][from := u[hole]] == s[hole := s[from]][from := value];
    PermutedTrans(orig, u, s[hole := s[from]][from := value], lo, hi);
  }

  /** `__push_heap`: `value` rises from the hole, at most to `top`. */
  method PushHeap<T(!new)>(a: array<T>, first: nat, hole0: nat, top: nat, value: T, less: (T, T) -> bool,
                    ghost len: nat)
    requires StrictWeakOrder(less)
    requires HoleAt(less, a[..], first, len, top, hole0) && Fits(less, a[..], first, len, hole0, value)
    modifies a
    ensures HeapFrom(less, a[..], first, len, top)
    ensures Permuted(old(a[..])[first + hole0 := value], a[..], first + top, first + len)
  {
    hide HoleAt, Fits, InSubtree, HeapFrom, Permuted, StrictWeakOrder;
    HoleBounds(less, a[..], first, len, top, hole0);
    ghost var orig := a[..][first + hole0 := value];
    var hole: nat := hole0;
    assert Permuted(orig, orig, first + top, first + len) by { PermutedRefl(orig, first + top, first + len); }
    while hole > top && less(a[first + (hole - 1) / 2], value)
      invariant HoleAt(less, a[..], first, len, top, hole) && Fits(less, a[..], first, len, hole, value)
      invariant top <= hole < len <= first + len <= a.Length
      invariant Permuted(orig, a[..][first + hole := value], first + top, first + len)
    {
      var parent := (hole - 1) / 2;
      HoleBounds(less, a[..], first, len, top, hole);
      HoleUp(less, a[..], first, len, top, hole, value);
      HoleMoves(a[..], orig, first + top, first + len, first + hole, first + parent, value);
      a[first + hole] := a[first + parent];
      hole := parent;
    }
    HoleFilled(less, a[..], first, len, top, hole, value);
    a[first + hole] := value;
  }

  lemma HoleBounds<T(!new)>(less: (T, T) -> bool, s: seq<T>, first: nat, len: nat, top: nat, hole: nat)
    requires HoleAt(less, s, first, len, top, hole)
    ensures top <= hole < len <= first + len <= |s| && (hole > top ==> Parent(hole) >= top)
  {
    SubtreeAbove(top, hole);
  }

  /** The slots that `__adjust_heap` writes: even an empty heap has its root filled. */
  function Slots(len: nat): nat { if len == 0 then 1 else len }

  /** The slot of the greater child, when both exist. */
  lemma GreaterChild<T(!new)>(less: (T, T) -> bool, s: seq<T>, first: nat, len: nat, hole: nat, child: nat)
    requires StrictWeakOrder(less) && first + len <= |s| && 2 * hole + 2 < len
    requires child == if less(s[first + 2 * hole + 2], s[first + 2 * hole + 1]) then 2 * hole + 1 else 2 * hole + 2
    ensures GreatestChild(less, s, first, len, hole, child)
  {
    forall k | 0 < k < len && Parent(k) == hole
      ensures !less(s[first + child], s[first + k])
    {
      assert k == 2 * hole + 1 || k == 2 * hole + 2;
    }
  }

  lemma OnlyChild<T(!new)>(less: (T, T) -> bool, s: seq<T>, first: nat, len: nat, hole: nat)
    requires StrictWeakOrder(less) && first + len <= |s| && 2 * hole + 2 == len
    ensures GreatestChild(less, s, first, len, hole, len - 1)
  {
    forall k | 0 < k < len && Parent(k) == hole
      ensures !less(s[first + len - 1], s[first + k])
    {
      assert k == len - 1;
    }
  }

  lemma LeafFits<T(!new)>(less: (T, T) -> bool, s: seq<T>, first: nat, len: nat, hole: nat, value: T)
    requires first + len <= |s| && 2 * hole + 1 >= len
    ensures Fits(less, s, first, len, hole, value)
  {
  }

  lemma HoleAtTop<T(!new)>(less: (T, T) -> bool, s: seq<T>, first: nat, len: nat, hole: nat)
    requires hole < len && HeapFrom(less, s, first, len, hole + 1)
    ensures HoleAt(less, s, first, len, hole, hole)
  {
    forall k | 0 < k < len && hole <= Parent(k) && k != hole && Parent(k) != hole
      ensures EdgeOk(less, s, first, k)
    {
    }
  }

  /** A hole below `top`, in a heap that holds what `orig` holds once `value` fills the hole. */
  ghost predicate Sinking<T(!new)>(less: (T, T) -> bool, s: seq<T>, orig: seq<T>, first: nat, len: nat, top: nat,
                            hole: nat, value: T) {
    && HoleAt(less, s, first, len, top, hole) && top <= hole < len <= first + len <= |s|
    && Permuted(orig, s[first + hole := value], first + top, first + len)
  }

  lemma SinkingStep<T(!new)>(less: (T, T) -> bool, s: seq<T>, orig: seq<T>, first: nat, len: nat, top: nat, hole: nat,
                      value: T, child: nat)
    requires StrictWeakOrder(less) && Sinking(less, s, orig, first, len, top, hole, value)
    requires GreatestChild(less, s, first, len, hole, child)
    ensures Sinking(less, s[first + hole := s[first + child]], orig, first, len, top, child, value)
  {
    hide HoleAt, Permuted, StrictWeakOrder;
    assert 0 < child < len && Parent(child) == hole;
    HoleDown(less, s, first, len, top, hole, child);
    HoleMoves(s, orig, first + top, first + len, first + hole, first + child, value);
  }

  lemma SinkingStart<T(!new)>(less: (T, T) -> bool, s: seq<T>, first: nat, len: nat, hole: nat, value: T)
    requires hole < len && HeapFrom(less, s, first, len, hole + 1)
    ensures Sinking(less, s, s[first + hole := value], first, len, hole, hole, value)
  {
    HoleAtTop(less, s, first, len, hole);
  }

  /** The element at `child` moves into the hole above it. */
  method FillFrom<T(!new)>(a: array<T>, first: nat, hole: nat, child: nat, less: (T, T) -> bool,
                           ghost orig: seq<T>, ghost len: nat, ghost top: nat, ghost value: T)
    requires StrictWeakOrder(less) && Sinking(less, a[..], orig, first, len, top, hole, value)
    requires GreatestChild(less, a[..], first, len, hole, child)
    modifies a
    ensures Sinking(less, a[..], orig, first, len, top, child, value)
  {
    hide Sinking, StrictWeakOrder, HoleAt, Permuted;
    ghost var s := a[..];
    SinkingBounds(less, s, orig, first, len, top, hole, value);
    SinkingStep(less, s, orig, first, len, top, hole, value, child);
    a[first + hole] := a[first + child];
    assert a[..] == s[first + hole := s[first + child]];
  }

  lemma SinkingBounds<T(!new)>(less: (T, T) -> bool, s: seq<T>, orig: seq<T>, first: nat, len: nat, top: nat,
                        hole: nat, value: T)
    requires Sinking(less, s, orig, first, len, top, hole, value)
    ensures top <= hole < len <= first + len <= |s| && HoleAt(less, s, first, len, top, hole)
    ensures Permuted(orig, s[first + hole := value], first + top, first + len)
  {
  }

  /** The first part of `__adjust_heap`: the hole sinks to a leaf, the greater children moving up. */
  method SinkToLeaf<T(!new)>(a: array<T>, first: nat, hole0: nat, len: nat, less: (T, T) -> bool,
                             ghost orig: seq<T>, ghost value: T) returns (hole: nat)
    requires StrictWeakOrder(less) && Sinking(less, a[..], orig, first, Slots(len), hole0, hole0, value)
    modifies a
    ensures Sinking(less, a[..], orig, first, Slots(len), hole0, hole, value) && 2 * hole + 1 >= Slots(len)
  {
    hide StrictWeakOrder, Sinking, GreatestChild;
    ghost var n := Slots(len);
    hole := hole0;
    var second: nat := 2 * hole0 + 2;
    while second < len
      invariant second == 2 * hole + 2
      invariant Sinking(less, a[..], orig, first, n, hole0, hole, value)
    {
      SinkingBounds(less, a[..], orig, first, n, hole0, hole, value);
      if less(a[first + second], a[first + (second - 1)]) {
        second := second - 1;
      }
      GreaterChild(less, a[..], first, len, hole, second);
      FillFrom(a, first, hole, second, less, orig, n, hole0, value);
      hole := second;
      second := 2 * (second + 1);
    }
    if second == len {
      SinkingBounds(less, a[..], orig, first, n, hole0, hole, value);
      OnlyChild(less, a[..], first, len, hole);
      FillFrom(a, first, hole, second - 1, less, orig, n, hole0, value);
      hole := second - 1;
    }
  }

  /** `__adjust_heap`: after that, `value` rises from the leaf. */
  method AdjustHeap<T(!new)>(a: array<T>, first: nat, hole0: nat, len: nat, value: T, less: (T, T) -> bool)
    requires StrictWeakOrder(less)
    requires hole0 < Slots(len) && HeapFrom(less, a[..], first, Slots(len), hole0 + 1)
    modifies a
    ensures HeapFrom(less, a[..], first, Slots(len), hole0)
    ensures Permuted(old(a[..])[first + hole0 := value], a[..], first + hole0, first + Slots(len))
  {
    hide HoleAt, Fits, HeapFrom, Permuted, StrictWeakOrder, Sinking;
    ghost var n := Slots(len);
    HeapInside(less, a[..], first, n, hole0 + 1);
    ghost var orig := a[..][first + hole0 := value];
    SinkingStart(less, a[..], first, n, hole0, value);
    var hole := SinkToLeaf(a, first, hole0, len, less, orig, value);
    ghost var s := a[..];
    SinkingBounds(less, s, orig, first, n, hole0, hole, value);
    LeafFits(less, s, first, n, hole, value);
    PushHeap(a, first, hole, hole0, value, less, n);
    PermutedTrans(orig, s[first + hole := value], a[..], first + hole0, first + n);
  }

  lemma HeapInside<T(!new)>(less: (T, T) -> bool, s: seq<T>, first: nat, len: nat, top: nat)
    requires HeapFrom(less, s, first, len, top)
    ensures first + len <= |s|
  {
  }

  lemma LastIsHole<T(!new)>(less: (T, T) -> bool, s: seq<T>, first: nat, len: nat)
    requires 0 < len && first + len <= |s| && IsHeap(less, s, first, len - 1)
    ensures HoleAt(less, s, first, len, 0, len - 1)
  {
    SubtreeOfRoot(len - 1);
    forall k | 0 < k < len && k != len - 1 && Parent(k) != len - 1
      ensures EdgeOk(less, s, first, k)
    {
      assert 0 < k < len - 1 && 0 <= Parent(k);
    }
  }

  /** `push_heap`: the last slot joins the heap before it. */
  method PushLast<T(!new)>(a: array<T>, first: nat, last: nat, less: (T, T) -> bool)
    requires StrictWeakOrder(less)
    requires first < last <= a.Length && IsHeap(less, a[..], first, last - first - 1)
    modifies a
    ensures IsHeap(less, a[..], first, last - first) && Permuted(old(a[..]), a[..], first, last)
  {
    hide HoleAt, Fits, InSubtree, HeapFrom, Permuted, StrictWeakOrder;
    ghost var len := last - first;
    LastIsHole(less, a[..], first, len);
    LeafFits(less, a[..], first, len, len - 1, a[last - 1]);
    assert a[..][first + (len - 1) := a[last - 1]] == a[..];
    PushHeap(a, first, last - first - 1, 0, a[last - 1], less, len);
  }

  lemma {:induction false} SubtreeOfRoot(k: nat)
    ensures InSubtree(0, k)
  {
    if k > 0 {
      SubtreeOfRoot(Parent(k));
    }
  }

  lemma HeapGrowsTop<T(!new)>(less: (T, T) -> bool, s: seq<T>, first: nat, len: nat)
    requires IsHeap(less, s, first, len) && first + Slots(len) <= |s|
    ensures HeapFrom(less, s, first, Slots(len), 1)
  {
  }

  /** A heap is read only between its ends. */
  lemma HeapCopied<T(!new)>(less: (T, T) -> bool, s: seq<T>, t: seq<T>, first: nat, len: nat, top: nat)
    requires HeapFrom(less, s, first, len, top) && first + len <= |t| && s[first..first + len] == t[first..first + len]
    ensures HeapFrom(less, t, first, len, top)
  {
    forall k | 0 < k < len && top <= Parent(k)
      ensures EdgeOk(less, t, first, k)
    {
      assert EdgeOk(less, s, first, k);
      assert s[first..first + len][k] == t[first..first + len][k];
      assert s[first..first + len][Parent(k)] == t[first..first + len][Parent(k)];
    }
  }

  /** `__pop_heap`: the greatest element goes to slot `result` outside the heap, and `value`,
      the element that was there, into the heap. */
  method PopHeapTo<T(!new)>(a: array<T>, first: nat, last: nat, result: nat, value: T, less: (T, T) -> bool)
    requires StrictWeakOrder(less) && first <= last <= result < a.Length && value == a[result]
    requires IsHeap(less, a[..], first, last - first)
    modifies a
    ensures IsHeap(less, a[..], first, last - first)
    ensures Permuted(Swapped(old(a[..]), result, first), a[..], first, first + Slots(last - first))
  {
    hide HeapFrom, Permuted, StrictWeakOrder;
    ghost var s := a[..];
    a[result] := a[first];
    assert a[..] == s[result := s[first]];
    assert s[first..last] == a[..][first..last];
    HeapCopied(less, s, a[..], first, last - first, 0);
    HeapGrowsTop(less, a[..], first, last - first);
    AdjustHeap(a, first, 0, last - first, value, less);
    HeapShrinks(less, a[..], first, last - first);
  }

  lemma HeapShrinks<T(!new)>(less: (T, T) -> bool, s: seq<T>, first: nat, len: nat)
    requires HeapFrom(less, s, first, Slots(len), 0)
    ensures IsHeap(less, s, first, len)
  {
  }

  /** `pop_heap`. */
  method PopHeap<T(!new)>(a: array<T>, first: nat, last: nat, less: (T, T) -> bool)
    requires StrictWeakOrder(less) && first < last <= a.Length
    requires IsHeap(less, a[..], first, last - first)
    modifies a
    ensures IsHeap(less, a[..], first, last - first - 1) && Permuted(old(a[..]), a[..], first, last)
    ensures a[last - 1] == old(a[first])
  {
    hide HeapFrom, Permuted, StrictWeakOrder;
    ghost var s := a[..];
    HeapShorter(less, s, first, last - first);
    PopHeapTo(a, first, last - 1, last - 1, a[last - 1], less);
    PoppedPermuted(s, a[..], first, last);
  }

  lemma HeapShorter<T(!new)>(less: (T, T) -> bool, s: seq<T>, first: nat, len: nat)
    requires IsHeap(less, s, first, len) && len > 0
    ensures IsHeap(less, s, first, len - 1)
  {
  }

  lemma PoppedPermuted<T>(s: seq<T>, t: seq<T>, first: nat, last: nat)
    requires first < last <= |s|
    requires Permuted(Swapped(s, last - 1, first), t, first, first + Slots(last - 1 - first))
    ensures Permuted(s, t, first, last) && t[last - 1] == s[first]
  {
    hide Permuted, Swapped;
    var u := Swapped(s, last - 1, first);
    PoppedLast(s, u, t, first, last);
    PermutedSwap(s, last - 1, first, first, last);
    PermutedWiden(u, t, first, first + Slots(last - 1 - first), first, last);
    PermutedTrans(s, u, t, first, last);
  }

  lemma PoppedLast<T>(s: seq<T>, u: seq<T>, t: seq<T>, first: nat, last: nat)
    requires first < last <= |s| && u == Swapped(s, last - 1, first)
    requires Permuted(u, t, first, first + Slots(last - 1 - first))
    ensures |t| == |s| && t[last - 1] == s[first]
  {
    if last - 1 > first {
      assert t[last - 1] == t[last - 1..][0] == u[last - 1..][0];
    } else {
      assert t[first] in multiset(t[first..first + 1]);
    }
  }

  /** `make_heap`. */
  method MakeHeap<T(!new)>(a: array<T>, first: nat, last: nat, less: (T, T) -> bool)
    requires StrictWeakOrder(less) && first <= last <= a.Length
    modifies a
    ensures IsHeap(less, a[..], first, last - first) && Permuted(old(a[..]), a[..], first, last)
  {
    hide HeapFrom, Permuted, StrictWeakOrder;
    ghost var s := a[..];
    PermutedRefl(s, first, last);
    ShortHeap(less, s, first, last - first);
    if last - first < 2 {
      return;
    }
    var len := last - first;
    var parent := (len - 2) / 2;
    while true
      invariant 0 <= parent < len
      invariant HeapFrom(less, a[..], first, len, parent + 1)
      invariant Permuted(s, a[..], first, last)
      decreases parent
    {
      ghost var t := a[..];
      AdjustHeap(a, first, parent, len, a[first + parent], less);
      MadePermuted(s, t, a[..], first, parent, last);
      if parent == 0 {
        return;
      }
      parent := parent - 1;
    }
  }

  lemma MadePermuted<T>(s: seq<T>, t: seq<T>, u: seq<T>, first: nat, parent: nat, last: nat)
    requires Permuted(s, t, first, last) && first + parent < last
    requires last <= |t| && Permuted(t[first + parent := t[first + parent]], u, first + parent, last)
    ensures Permuted(s, u, first, last)
  {
    hide Permuted;
    assert t[first + parent := t[first + parent]] == t;
    PermutedWiden(t, u, first + parent, last, first, last);
    PermutedTrans(s, t, u, first, last);
  }

  /** The slots that have no children are in heap order. */
  lemma ShortHeap<T(!new)>(less: (T, T) -> bool, s: seq<T>, first: nat, len: nat)
    requires first + len <= |s|
    ensures len < 2 ==> IsHeap(less, s, first, len)
    ensures len >= 2 ==> HeapFrom(less, s, first, len, (len - 2) / 2 + 1)
  {
  }

  /** The part that `sort_heap` has sorted, above what is left of the heap. */
  ghost predicate SortedAbove<T(!new)>(less: (T, T) -> bool, s: seq<T>, first: nat, mid: nat, last: nat) {
    Below(less, s, first, mid, last) && SortedIn(less, s, mid, last)
  }

  lemma PopSorts<T(!new)>(less: (T, T) -> bool, s: seq<T>, t: seq<T>, first: nat, mid: nat, last: nat)
    requires StrictWeakOrder(less) && first < mid <= last <= |s| && IsHeap(less, s, first, mid - first)
    requires SortedAbove(less, s, first, mid, last) && Permuted(s, t, first, mid) && t[mid - 1] == s[first]
    ensures SortedAbove(less, t, first, mid - 1, last)
  {
    BelowPermutedLow(less, s, t, first, mid, last);
    forall i | first <= i < mid
      ensures !less(t[mid - 1], t[i])
    {
      var k := PermutedFrom(s, t, first, mid, i);
      RootIsGreatest(less, s, first, mid - first, k - first);
    }
    forall i | mid <= i < last
      ensures t[i] == s[i]
    {
      assert t[i] == t[mid..][i - mid] == s[mid..][i - mid];
    }
  }

  /** `sort_heap`. */
  method SortHeap<T(!new)>(a: array<T>, first: nat, last0: nat, less: (T, T) -> bool)
    requires StrictWeakOrder(less) && first <= last0 <= a.Length
    requires IsHeap(less, a[..], first, last0 - first)
    modifies a
    ensures SortedIn(less, a[..], first, last0) && Permuted(old(a[..]), a[..], first, last0)
  {
    hide HeapFrom, Permuted, StrictWeakOrder, SortedAbove;
    ghost var s := a[..];
    PermutedRefl(s, first, last0);
    NoneSorted(less, s, first, last0);
    var last := last0;
    while last - first > 1
      invariant first <= last <= last0
      invariant IsHeap(less, a[..], first, last - first)
      invariant SortedAbove(less, a[..], first, last, last0)
      invariant Permuted(s, a[..], first, last0)
    {
      ghost var t := a[..];
      PopHeap(a, first, last, less);
      PopSorts(less, t, a[..], first, last, last0);
      PermutedWiden(t, a[..], first, last, first, last0);
      PermutedTrans(s, t, a[..], first, last0);
      last := last - 1;
    }
    AllSorted(less, a[..], first, last, last0);
  }

  lemma NoneSorted<T(!new)>(less: (T, T) -> bool, s: seq<T>, first: nat, last: nat)
    requires first <= last <= |s|
    ensures SortedAbove(less, s, first, last, last)
  {
  }

  lemma AllSorted<T(!new)>(less: (T, T) -> bool, s: seq<T>, first: nat, mid: nat, last: nat)
    requires SortedAbove(less, s, first, mid, last) && first <= mid <= first + 1
    ensures SortedIn(less, s, first, last)
  {
  }

  /** The next element of the tail, when it is not less than the root, is below none. */
  lemma TailKept<T(!new)>(less: (T, T) -> bool, s: seq<T>, first: nat, middle: nat, i: nat)
    requires StrictWeakOrder(less) && first <= middle <= i < |s| && IsHeap(less, s, first, middle - first)
    requires Below(less, s, first, middle, i) && !less(s[i], s[first])
    ensures Below(less, s, first, middle, i + 1)
  {
    forall k | first <= k < middle
      ensures !less(s[i], s[k])
    {
      RootIsGreatest(less, s, first, middle - first, k - first);
    }
  }

  /** Otherwise it changes places with the root. */
  lemma TailSwapped<T(!new)>(less: (T, T) -> bool, s: seq<T>, t: seq<T>, first: nat, middle: nat, i: nat, last: nat)
    requires StrictWeakOrder(less) && first <= middle <= i < last <= |s| && IsHeap(less, s, first, middle - first)
    requires Below(less, s, first, middle, i) && less(s[i], s[first])
    requires Permuted(Swapped(s, i, first), t, first, first + Slots(middle - first))
    ensures Below(less, t, first, middle, i + 1) && Permuted(s, t, first, last)
  {
    hide Permuted, HeapFrom;
    var u := Swapped(s, i, first);
    PermutedSwap(s, i, first, first, last);
    PermutedWiden(u, t, first, first + Slots(middle - first), first, last);
    PermutedTrans(s, u, t, first, last);
    if first < middle {
      forall k | first <= k < middle
        ensures !less(s[first], s[k])
      {
        RootIsGreatest(less, s, first, middle - first, k - first);
      }
      BelowPermutedLow(less, u, t, first, middle, i + 1);
    }
  }

  /** `partial_sort`: the least elements, sorted, to the front. */
  method PartialSort<T(!new)>(a: array<T>, first: nat, middle: nat, last: nat, less: (T, T) -> bool)
    requires StrictWeakOrder(less) && first <= middle <= last <= a.Length
    modifies a
    ensures SortedIn(less, a[..], first, middle) && Below(less, a[..], first, middle, last)
    ensures Permuted(old(a[..]), a[..], first, last)
  {
    hide HeapFrom, Permuted, StrictWeakOrder, SortedIn, Swapped;
    ghost var s := a[..];
    MakeHeap(a, first, middle, less);
    PermutedWiden(s, a[..], first, middle, first, last);
    for i := middle to last
      invariant IsHeap(less, a[..], first, middle - first)
      invariant Below(less, a[..], first, middle, i)
      invariant Permuted(s, a[..], first, last)
    {
      ghost var t := a[..];
      if less(a[i], a[first]) {
        PopHeapTo(a, first, middle, i, a[i], less);
        TailSwapped(less, t, a[..], first, middle, i, last);
        PermutedTrans(s, t, a[..], first, last);
      } else {
        TailKept(less, t, first, middle, i);
      }
    }
    ghost var t := a[..];
    SortHeap(a, first, middle, less);
    BelowPermutedLow(less, t, a[..], first, middle, last);
    PermutedWiden(t, a[..], first, middle, first, last);
    PermutedTrans(s, t, a[..], first, last);
  }
}
