/** Rings of doubly linked nodes, and moving a stretch of one into another. */
module ListNodes {
  import opened Sequences

  class ListNode<T> {
    var next: ListNode<T>
    var prev: ListNode<T>
    const data: T

    constructor (data: T)
      ensures next == prev == this && this.data == data
    {
      next, prev, this.data := this, this, data;
    }
  }

  ghost predicate Linked<T>(x: ListNode<T>, y: ListNode<T>)
    reads x, y
  {
    x.next == y && y.prev == x
  }

  /** Each node of `s` is linked to the next. */
  ghost predicate Path<T>(s: seq<ListNode<T>>)
    reads s
  {
    forall i :: 0 <= i < |s| - 1 ==> Linked(s[i], s[i + 1])
  }

  /** The nodes of `s` are distinct and linked both ways into a ring. */
  ghost predicate Ring<T>(s: seq<ListNode<T>>)
    reads s
  {
    |s| > 0 && Distinct(s) && Path(s) && Linked(s[|s| - 1], s[0])
  }

  lemma PathJoin<T>(a: seq<ListNode<T>>, b: seq<ListNode<T>>)
    requires Path(a) && Path(b) && (a != [] && b != [] ==> Linked(a[|a| - 1], b[0]))
    ensures Path(a + b)
  {
    var s := a + b;
    forall i | 0 <= i < |s| - 1
      ensures Linked(s[i], s[i + 1])
    {
      if i < |a| - 1 {
        assert s[i] == a[i] && s[i + 1] == a[i + 1];
      } else if i >= |a| {
        assert s[i] == b[i - |a|] && s[i + 1] == b[i + 1 - |a|];
      }
    }
  }

  lemma PathSplit<T>(s: seq<ListNode<T>>, p: nat)
    requires Path(s) && p <= |s|
    ensures Path(s[..p]) && Path(s[p..])
    ensures 0 < p < |s| ==> Linked(s[p - 1], s[p])
  {
    forall i | 0 <= i < |s[p..]| - 1
      ensures Linked(s[p..][i], s[p..][i + 1])
    {
      assert Linked(s[p + i], s[p + i + 1]);
    }
  }

  lemma DistinctJoin<T>(a: seq<ListNode<T>>, b: seq<ListNode<T>>)
    requires Distinct(a) && Distinct(b) && forall n :: n in a ==> n !in b
    ensures Distinct(a + b)
  {
    var s := a + b;
    forall i, j | 0 <= i < j < |s|
      ensures s[i] != s[j]
    {
      if i < |a| <= j { assert s[i] in a && s[j] in b; }
    }
  }

  lemma DistinctSplit<T>(s: seq<ListNode<T>>, p: nat)
    requires Distinct(s) && p <= |s|
    ensures Distinct(s[..p]) && Distinct(s[p..]) && forall n :: n in s[..p] ==> n !in s[p..]
  {
  }

  /** A path is kept when only the link into its front and the link out of its back change. */
  twostate lemma PathKept<T>(s: seq<ListNode<T>>)
    requires old(Path(s))
    requires forall k :: 0 <= k < |s| - 1 ==> s[k].next == old(s[k].next)
    requires forall k :: 0 < k < |s| ==> s[k].prev == old(s[k].prev)
    ensures Path(s)
  {
    forall i | 0 <= i < |s| - 1
      ensures Linked(s[i], s[i + 1])
    {
      assert old(Linked(s[i], s[i + 1]));
    }
  }

  /** The node at a place of the ring; the place behind the last is that of the first. */
  function At<T>(s: seq<ListNode<T>>, p: nat): ListNode<T>
    requires 0 < |s| && p <= |s|
  {
    if p == |s| then s[0] else s[p]
  }

  /** The rewriting of links in `transfer`. */
  method Relink<T>(position: ListNode<T>, first: ListNode<T>, last: ListNode<T>,
                   ghost before: ListNode<T>, ghost firstPrev: ListNode<T>, ghost lastPrev: ListNode<T>)
    requires Linked(before, position) && Linked(firstPrev, first) && Linked(lastPrev, last)
    requires before != firstPrev && before != lastPrev && firstPrev != lastPrev
    requires position != first && position != last && first != last
    modifies before`next, firstPrev`next, lastPrev`next, position`prev, first`prev, last`prev
    ensures Linked(before, first) && Linked(lastPrev, position) && Linked(firstPrev, last)
  {
    if position != last {
      last.prev.next := position;
      first.prev.next := last;
      position.prev.next := first;
      var tmp := position.prev;
      position.prev := last.prev;
      last.prev := first.prev;
      first.prev := tmp;
    }
  }

  /** The ring may be read from any of its nodes. */
  lemma RingTurned<T>(a: seq<ListNode<T>>, b: seq<ListNode<T>>)
    requires Ring(a + b)
    ensures Ring(b + a)
  {
    var s := a + b;
    assert s[..|a|] == a && s[|a|..] == b;
    PathSplit(s, |a|);
    DistinctSplit(s, |a|);
    DistinctJoin(b, a);
    if a != [] && b != [] {
      assert s[|s| - 1] == b[|b| - 1] && s[0] == a[0] && s[|a| - 1] == a[|a| - 1] && s[|a|] == b[0];
      PathJoin(b, a);
    } else {
      assert a + b == b + a;
    }
  }

  lemma RingParts<T>(a: seq<ListNode<T>>, b: seq<ListNode<T>>)
    requires Ring(a + b) && a != [] && b != []
    ensures Path(a) && Path(b) && Distinct(a) && Distinct(b) && (forall n :: n in a ==> n !in b)
    ensures Linked(a[|a| - 1], b[0]) && Linked(b[|b| - 1], a[0])
  {
    var s := a + b;
    assert s[..|a|] == a && s[|a|..] == b;
    PathSplit(s, |a|);
    DistinctSplit(s, |a|);
  }

  lemma RingJoin<T>(a: seq<ListNode<T>>, b: seq<ListNode<T>>)
    requires a != [] && b != [] && Path(a) && Path(b) && Distinct(a) && Distinct(b) && (forall n :: n in a ==> n !in b)
    requires Linked(a[|a| - 1], b[0]) && Linked(b[|b| - 1], a[0])
    ensures Ring(a + b)
  {
    PathJoin(a, b);
    DistinctJoin(a, b);
  }

  /** `transfer` of the stretch `s` out of the ring `s + w` into the ring `r`, between its last and first. */
  method TransferTurned<T>(position: ListNode<T>, first: ListNode<T>, last: ListNode<T>,
                           ghost r: seq<ListNode<T>>, ghost s: seq<ListNode<T>>, ghost w: seq<ListNode<T>>)
    requires Ring(r) && Ring(s + w) && s != [] && w != [] && (forall n :: n in r ==> n !in s && n !in w)
    requires position == r[0] && first == s[0] && last == w[0]
    modifies r, s, w
    ensures Ring(r + s) && Ring(w)
  {
    hide Linked;
    RingParts(s, w);
    EndsIn(r);
    EndsIn(s);
    EndsIn(w);
    Relink(position, first, last, r[|r| - 1], w[|w| - 1], s[|s| - 1]);
    PathKept(r);
    PathKept(s);
    PathKept(w);
    RingJoin(r, s);
  }

  lemma SliceIn<T>(s: seq<ListNode<T>>, i: nat, j: nat)
    requires i <= j <= |s|
    ensures forall n :: n in s[j..] + s[..i] ==> n in s
    ensures forall n :: n in s[i..j] ==> n in s
  {
  }

  lemma EndsIn<T>(s: seq<ListNode<T>>)
    requires s != []
    ensures s[0] in s && s[|s| - 1] in s
  {
  }

  /** `transfer` of the nodes of `y` from place `i` to place `j` to before place `p` of `x`. */
  method Transfer<T>(position: ListNode<T>, first: ListNode<T>, last: ListNode<T>,
                     ghost x: seq<ListNode<T>>, ghost p: nat, ghost y: seq<ListNode<T>>, ghost i: nat, ghost j: nat)
    requires Ring(x) && Ring(y) && (forall n :: n in x ==> n !in y)
    requires 1 <= p <= |x| && 1 <= i < j <= |y|
    requires position == At(x, p) && first == y[i] && last == At(y, j)
    modifies x, y
    ensures Ring(x[..p] + y[i..j] + x[p..]) && Ring(y[..i] + y[j..])
  {
    hide Ring;
    ghost var x1, x2, y1, s, y2 := x[..p], x[p..], y[..i], y[i..j], y[j..];
    assert x == x1 + x2 && y == y1 + (s + y2) && s + y2 + y1 == s + (y2 + y1);
    RingTurned(x1, x2);
    RingTurned(y1, s + y2);
    SliceIn(x, p, p);
    SliceIn(y, i, j);
    TransferTurned(position, first, last, x2 + x1, s, y2 + y1);
    assert x2 + x1 + s == x2 + (x1 + s);
    RingTurned(x2, x1 + s);
    RingTurned(y2, y1);
  }

  /** Three stretches that make a ring. */
  lemma RingThree<T>(s: seq<ListNode<T>>, u: seq<ListNode<T>>, v: seq<ListNode<T>>)
    requires Ring(s + (u + v)) && s != [] && u != [] && v != []
    ensures Path(s) && Path(u) && Path(v) && Distinct(s) && Distinct(u) && Distinct(v)
    ensures (forall n :: n in s ==> n !in u && n !in v) && forall n :: n in u ==> n !in s && n !in v
    ensures forall n :: n in v ==> n !in s && n !in u
    ensures s[0] in s && s[|s| - 1] in s && u[0] in u && u[|u| - 1] in u && v[0] in v && v[|v| - 1] in v
    ensures Linked(s[|s| - 1], u[0]) && Linked(u[|u| - 1], v[0]) && Linked(v[|v| - 1], s[0])
  {
    hide Linked;
    var w := u + v;
    RingParts(s, w);
    assert w[..|u|] == u && w[|u|..] == v && w[0] == u[0] && w[|w| - 1] == v[|v| - 1];
    PathSplit(w, |u|);
    DistinctSplit(w, |u|);
    EndsIn(s);
    EndsIn(u);
    EndsIn(v);
    assert forall n :: n in u || n in v ==> n in w;
  }

  lemma RingOfThree<T>(u: seq<ListNode<T>>, s: seq<ListNode<T>>, v: seq<ListNode<T>>)
    requires s != [] && u != [] && v != [] && Path(s) && Path(u) && Path(v)
    requires Distinct(s) && Distinct(u) && Distinct(v)
    requires (forall n :: n in s ==> n !in u && n !in v) && forall n :: n in u ==> n !in s && n !in v
    requires Linked(u[|u| - 1], s[0]) && Linked(s[|s| - 1], v[0]) && Linked(v[|v| - 1], u[0])
    ensures Ring(u + (s + v))
  {
    hide Linked, Path, Distinct;
    PathJoin(s, v);
    DistinctJoin(s, v);
    assert (s + v)[0] == s[0] && (s + v)[|s + v| - 1] == v[|v| - 1];
    RingJoin(u, s + v);
  }

  /** `transfer` of the stretch `s` of the ring `s + u + v` to before `v`. */
  method TransferOver<T>(position: ListNode<T>, first: ListNode<T>, last: ListNode<T>,
                         ghost s: seq<ListNode<T>>, ghost u: seq<ListNode<T>>, ghost v: seq<ListNode<T>>)
    requires Ring(s + (u + v)) && s != [] && u != [] && v != []
    requires position == v[0] && first == s[0] && last == u[0]
    modifies s, u, v
    ensures Ring(u + (s + v))
  {
    RingThree(s, u, v);
    hide Linked, Path, Distinct, Ring;
    Relink(position, first, last, u[|u| - 1], v[|v| - 1], s[|s| - 1]);
    PathKept(s);
    PathKept(u);
    PathKept(v);
    RingOfThree(u, s, v);
  }

  /** The ring `x` when its nodes from place `i` to place `j` have been moved to before place `p`. */
  function MovedWithin<T>(x: seq<T>, p: nat, i: nat, j: nat): seq<T>
    requires i <= j <= |x| && p <= |x| && (p < i || j <= p)
  {
    if p < i then x[..p] + x[i..j] + x[p..i] + x[j..] else x[..i] + x[j..p] + x[i..j] + x[p..]
  }

  /** That ring, read from the stretch that is moved: what lies before the place where it goes, and behind. */
  ghost function Skipped<T>(x: seq<T>, p: nat, i: nat, j: nat): seq<T>
    requires i <= j <= |x| && p <= |x| && (p < i || j <= p)
  {
    if p < i then x[j..] + x[..p] else x[j..p]
  }

  ghost function Behind<T>(x: seq<T>, p: nat, i: nat, j: nat): seq<T>
    requires i <= j <= |x| && p <= |x| && (p < i || j <= p)
  {
    if p < i then x[p..i] else x[p..] + x[..i]
  }

  lemma ReadFromMoved<T>(x: seq<ListNode<T>>, p: nat, i: nat, j: nat)
    requires Ring(x) && 1 <= p <= |x| && 1 <= i < j <= |x| && (p < i || j < p)
    ensures Ring(x[i..j] + (Skipped(x, p, i, j) + Behind(x, p, i, j)))
    ensures Skipped(x, p, i, j)[0] == At(x, j) && Behind(x, p, i, j)[0] == At(x, p)
  {
    hide Ring;
    var s := x[i..j];
    if p < i {
      var a, v, c := x[..p], x[p..i], x[j..];
      assert x == (a + v) + (s + c) && (s + c) + (a + v) == s + ((c + a) + v);
      RingTurned(a + v, s + c);
    } else {
      var a, u, c := x[..i], x[j..p], x[p..];
      assert x == a + (s + u + c) && (s + u + c) + a == s + (u + (c + a));
      RingTurned(a, s + u + c);
    }
  }

  lemma ReadFromStart<T>(x: seq<ListNode<T>>, p: nat, i: nat, j: nat)
    requires 1 <= p <= |x| && 1 <= i < j <= |x| && (p < i || j < p)
    requires Ring(Skipped(x, p, i, j) + (x[i..j] + Behind(x, p, i, j)))
    ensures Ring(MovedWithin(x, p, i, j))
  {
    hide Ring;
    var s := x[i..j];
    if p < i {
      var a, v, c := x[..p], x[p..i], x[j..];
      assert (c + a) + (s + v) == c + (a + s + v) && (a + s + v) + c == MovedWithin(x, p, i, j);
      RingTurned(c, a + s + v);
    } else {
      var a, u, c := x[..i], x[j..p], x[p..];
      assert u + (s + (c + a)) == (u + s + c) + a && a + (u + s + c) == MovedWithin(x, p, i, j);
      RingTurned(u + s + c, a);
    }
  }

  /** `transfer` within one ring. */
  method TransferWithin<T>(position: ListNode<T>, first: ListNode<T>, last: ListNode<T>,
                           ghost x: seq<ListNode<T>>, ghost p: nat, ghost i: nat, ghost j: nat)
    requires Ring(x) && 1 <= p <= |x| && 1 <= i < j <= |x| && (p < i || j <= p)
    requires position == At(x, p) && first == x[i] && last == At(x, j)
    modifies x
    ensures Ring(MovedWithin(x, p, i, j))
  {
    SamePlaces(x, p, j);
    hide Ring;
    if position != last {
      ReadFromMoved(x, p, i, j);
      TransferOver(position, first, last, x[i..j], Skipped(x, p, i, j), Behind(x, p, i, j));
      ReadFromStart(x, p, i, j);
    } else {
      assert MovedWithin(x, p, i, j) == x;
    }
  }

  lemma SamePlaces<T>(x: seq<ListNode<T>>, p: nat, j: nat)
    requires Ring(x) && 1 <= p <= |x| && 1 <= j <= |x|
    ensures At(x, p) == At(x, j) <==> p == j
  {
  }
}
