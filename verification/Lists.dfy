/** Circular lists with a header node: merging and sorting them by relinking. */
module Lists {
  import opened Orders
  import opened Ranges
  import opened Stability
  import opened Merging
  import opened Sequences
  import opened ListNodes
  import Rotate

  // ---------- arrangements of nodes ----------

  ghost function Data<T>(s: seq<ListNode<T>>): (d: seq<T>)
    ensures |d| == |s| && forall i :: 0 <= i < |s| ==> d[i] == s[i].data
  {
    if s == [] then [] else [s[0].data] + Data(s[1..])
  }

  /** The nodes with data equivalent to `v`, in order. */
  ghost function EquivNodes<T(!new)>(less: (T, T) -> bool, v: T, s: seq<ListNode<T>>): seq<ListNode<T>> {
    if s == [] then []
    else EquivNodes(less, v, s[..|s| - 1]) + if Equiv(less, v, s[|s| - 1].data) then [s[|s| - 1]] else []
  }

  /** `t` holds the same node objects as `s`, those with equivalent data in the same order. */
  ghost predicate StableNodes<T(!new)>(less: (T, T) -> bool, s: seq<ListNode<T>>, t: seq<ListNode<T>>) {
    |s| == |t| && forall v :: EquivNodes(less, v, s) == EquivNodes(less, v, t)
  }

  lemma {:induction false} EquivNodesConcat<T(!new)>(less: (T, T) -> bool, v: T, x: seq<ListNode<T>>,
                                              y: seq<ListNode<T>>)
    ensures EquivNodes(less, v, x + y) == EquivNodes(less, v, x) + EquivNodes(less, v, y)
    decreases |y|
  {
    if y == [] {
      assert x + y == x;
    } else {
      var n := |y| - 1;
      EquivNodesConcat(less, v, x, y[..n]);
      assert (x + y)[..|x + y| - 1] == x + y[..n];
    }
  }

  lemma StableNodesConcat<T(!new)>(less: (T, T) -> bool, x: seq<ListNode<T>>, y: seq<ListNode<T>>, u: seq<ListNode<T>>,
                            w: seq<ListNode<T>>)
    requires StableNodes(less, x, u) && StableNodes(less, y, w)
    ensures StableNodes(less, x + y, u + w)
  {
    forall v
      ensures EquivNodes(less, v, x + y) == EquivNodes(less, v, u + w)
    {
      EquivNodesConcat(less, v, x, y);
      EquivNodesConcat(less, v, u, w);
    }
  }

  lemma StableNodesTrans<T(!new)>(less: (T, T) -> bool, x: seq<ListNode<T>>, y: seq<ListNode<T>>, z: seq<ListNode<T>>)
    requires StableNodes(less, x, y) && StableNodes(less, y, z)
    ensures StableNodes(less, x, z)
  {
    forall v
      ensures EquivNodes(less, v, x) == EquivNodes(less, v, z)
    {
      assert EquivNodes(less, v, x) == EquivNodes(less, v, y);
    }
  }

  lemma StableNodesRefl<T(!new)>(less: (T, T) -> bool, x: seq<ListNode<T>>)
    ensures StableNodes(less, x, x)
  {
  }

  lemma {:induction false} NoEquivNodes<T(!new)>(less: (T, T) -> bool, v: T, s: seq<ListNode<T>>)
    requires forall i :: 0 <= i < |s| ==> !Equiv(less, v, s[i].data)
    ensures EquivNodes(less, v, s) == []
  {
    if s != [] {
      NoEquivNodes(less, v, s[..|s| - 1]);
    }
  }

  lemma {:induction false} EquivNodesIn<T(!new)>(less: (T, T) -> bool, v: T, s: seq<ListNode<T>>, n: ListNode<T>)
    ensures n in EquivNodes(less, v, s) ==> n in s
    ensures n in s && Equiv(less, v, n.data) ==> n in EquivNodes(less, v, s)
  {
    if s != [] {
      EquivNodesIn(less, v, s[..|s| - 1], n);
      assert s == s[..|s| - 1] + [s[|s| - 1]];
    }
  }

  /** The same node objects, in particular. */
  lemma StableSameNodes<T(!new)>(less: (T, T) -> bool, s: seq<ListNode<T>>, t: seq<ListNode<T>>)
    requires StrictWeakOrder(less) && StableNodes(less, s, t)
    ensures forall n :: n in s <==> n in t
  {
    forall n: ListNode<T>
      ensures n in s <==> n in t
    {
      EquivNodesIn(less, n.data, s, n);
      EquivNodesIn(less, n.data, t, n);
      assert EquivNodes(less, n.data, s) == EquivNodes(less, n.data, t);
    }
  }

  /** The stable merge of two sequences of nodes. */
  ghost function MergeNodes<T>(less: (T, T) -> bool, x: seq<ListNode<T>>, y: seq<ListNode<T>>): (z: seq<ListNode<T>>)
    ensures |z| == |x| + |y|
    decreases |x| + |y|
  {
    if x == [] then y
    else if y == [] then x
    else if less(y[0].data, x[0].data) then [y[0]] + MergeNodes(less, x, y[1..])
    else [x[0]] + MergeNodes(less, x[1..], y)
  }

  lemma {:induction false} MergeNodesData<T(!new)>(less: (T, T) -> bool, x: seq<ListNode<T>>, y: seq<ListNode<T>>)
    ensures Data(MergeNodes(less, x, y)) == Merge(less, Data(x), Data(y))
    decreases |x| + |y|
  {
    if x != [] && y != [] {
      assert Data(x)[1..] == Data(x[1..]) && Data(y)[1..] == Data(y[1..]);
      if less(y[0].data, x[0].data) {
        MergeNodesData(less, x, y[1..]);
      } else {
        MergeNodesData(less, x[1..], y);
      }
    }
  }

  /** Merging is stable on the nodes themselves. */
  lemma {:induction false} MergeNodesStable<T(!new)>(less: (T, T) -> bool, x: seq<ListNode<T>>, y: seq<ListNode<T>>)
    requires StrictWeakOrder(less) && Sorted(less, Data(x))
    ensures StableNodes(less, x + y, MergeNodes(less, x, y))
    decreases |x| + |y|
  {
    if x == [] {
      assert x + y == y;
    } else if y == [] {
      assert x + y == x;
    } else if less(y[0].data, x[0].data) {
      MergeNodesStable(less, x, y[1..]);
      SecondNodeFirst(less, x, y, MergeNodes(less, x, y[1..]));
    } else {
      assert Data(x)[1..] == Data(x[1..]);
      MergeNodesStable(less, x[1..], y);
      StableNodesRefl(less, [x[0]]);
      StableNodesConcat(less, [x[0]], x[1..] + y, [x[0]], MergeNodes(less, x[1..], y));
      assert x + y == [x[0]] + (x[1..] + y);
    }
  }

  lemma SecondNodeFirst<T(!new)>(less: (T, T) -> bool, x: seq<ListNode<T>>, y: seq<ListNode<T>>, z: seq<ListNode<T>>)
    requires StrictWeakOrder(less) && Sorted(less, Data(x)) && x != [] && y != [] && less(y[0].data, x[0].data)
    requires StableNodes(less, x + y[1..], z)
    ensures StableNodes(less, x + y, [y[0]] + z)
  {
    hide EquivNodes, StrictWeakOrder, Sorted, Data;
    var b, rest := [y[0]], y[1..];
    assert y == b + rest;
    forall v
      ensures EquivNodes(less, v, x + y) == EquivNodes(less, v, b + z)
    {
      EquivNodesConcat(less, v, x, y);
      EquivNodesConcat(less, v, b, rest);
      EquivNodesConcat(less, v, b, z);
      EquivNodesConcat(less, v, x, rest);
      assert EquivNodes(less, v, x + rest) == EquivNodes(less, v, z);
      OneSideOnly(less, x, y[0], v);
    }
  }

  /** What is equivalent to a node less than a sorted list is not in the list. */
  lemma OneSideOnly<T(!new)>(less: (T, T) -> bool, x: seq<ListNode<T>>, n: ListNode<T>, v: T)
    requires StrictWeakOrder(less) && Sorted(less, Data(x)) && x != [] && less(n.data, x[0].data)
    ensures EquivNodes(less, v, x) == [] || EquivNodes(less, v, [n]) == []
  {
    if Equiv(less, v, n.data) {
      forall i | 0 <= i < |x|
        ensures !Equiv(less, v, x[i].data)
      {
        assert i > 0 ==> !less(Data(x)[i], Data(x)[0]);
      }
      NoEquivNodes(less, v, x);
    } else {
      NoEquivNodes(less, v, [n]);
    }
  }

  /** Merging sorted lists gives a sorted one. */
  lemma MergeNodesSorted<T(!new)>(less: (T, T) -> bool, x: seq<ListNode<T>>, y: seq<ListNode<T>>)
    requires StrictWeakOrder(less) && Sorted(less, Data(x)) && Sorted(less, Data(y))
    ensures Sorted(less, Data(MergeNodes(less, x, y))) && StableNodes(less, x + y, MergeNodes(less, x, y))
  {
    MergeNodesData(less, x, y);
    MergeIsStable(less, Data(x), Data(y));
    MergeNodesStable(less, x, y);
  }

  // ---------- lists ----------

  class List<T(!new, 0)> {
    var node: ListNode<T>
    ghost var ring: seq<ListNode<T>>

    ghost predicate Valid()
      reads this, ring
    {
      Ring(ring) && ring[0] == node
    }

    /** The nodes of the list, without the header. */
    ghost function Nodes(): seq<ListNode<T>>
      reads this
    {
      if ring == [] then [] else ring[1..]
    }

    constructor ()
      ensures Valid() && Nodes() == [] && fresh(node) && ring == [node]
    {
      var data: T := *;
      node := new ListNode<T>(data);
      new;
      ring := [node];
    }

    method Empty() returns (empty: bool)
      requires Valid()
      ensures empty <==> Nodes() == []
    {
      RingNext(ring, 0);
      empty := node.next == node;
    }

    /** `splice` of a stretch of another list: the nodes themselves are moved. */
    method Splice(position: ListNode<T>, x: List<T>, first: ListNode<T>, last: ListNode<T>, ghost p: nat, ghost i: nat,
                  ghost j: nat)
      requires Valid() && x.Valid() && this != x && Apart(ring, x.ring)
      requires 1 <= p <= |ring| && 1 <= i <= j <= |x.ring|
      requires position == At(ring, p) && first == At(x.ring, i) && last == At(x.ring, j)
      modifies this`ring, x`ring, ring, x.ring
      ensures Valid() && x.Valid() && node == old(node) && x.node == old(x.node) && Apart(ring, x.ring)
      ensures ring == old(ring[..p] + x.ring[i..j] + ring[p..])
      ensures x.ring == old(x.ring[..i] + x.ring[j..])
      ensures Among(ring, old(ring), old(x.ring)) && Among(x.ring, old(ring), old(x.ring))
    {
      hide Ring;
      ghost var r, y := ring, x.ring;
      RingFacts(r);
      RingFacts(y);
      TakenApart(r, y, p, i, j);
      PlacesDiffer(y, i, j);
      if first != last {
        Transfer(position, first, last, r, p, y, i, j);
      }
      ring, x.ring := r[..p] + y[i..j] + r[p..], y[..i] + y[j..];
    }

    /** `splice` of one node of another list. */
    method SpliceOne(position: ListNode<T>, x: List<T>, i: ListNode<T>, ghost p: nat, ghost k: nat)
      requires Valid() && x.Valid() && this != x && Apart(ring, x.ring)
      requires 1 <= p <= |ring| && 1 <= k < |x.ring|
      requires position == At(ring, p) && i == x.ring[k]
      modifies this`ring, x`ring, ring, x.ring
      ensures Valid() && x.Valid() && node == old(node) && x.node == old(x.node) && Apart(ring, x.ring)
      ensures ring == old(ring[..p] + [x.ring[k]] + ring[p..])
      ensures x.ring == old(x.ring[..k] + x.ring[k + 1..])
      ensures Among(ring, old(ring), old(x.ring)) && Among(x.ring, old(ring), old(x.ring))
    {
      hide Ring;
      RingNext(x.ring, k);
      RingFacts(ring);
      RingFacts(x.ring);
      PlaceApart(ring, p, x.ring, k);
      var j := i.next;
      if position == i || position == j {
        return;
      }
      Splice(position, x, i, j, p, k, k + 1);
    }

    /** `splice` of a stretch of this list to another place in it, outside the stretch. */
    method SpliceWithin(position: ListNode<T>, first: ListNode<T>, last: ListNode<T>, ghost p: nat, ghost i: nat,
                        ghost j: nat)
      requires Valid() && 1 <= p <= |ring| && 1 <= i <= j <= |ring| && (p < i || j <= p)
      requires position == At(ring, p) && first == At(ring, i) && last == At(ring, j)
      modifies this`ring, ring
      ensures Valid() && node == old(node) && ring == old(MovedWithin(ring, p, i, j))
    {
      ghost var r := ring;
      RingFacts(r);
      hide Ring, MovedWithin;
      PlacesDiffer(r, i, j);
      MovedNone(r, p, i);
      MovedStart(r, p, i, j);
      if first != last {
        TransferWithin(position, first, last, r, p, i, j);
      }
      ring := MovedWithin(r, p, i, j);
    }

    /** `splice` of one node of this list to another place in it. */
    method SpliceOneWithin(position: ListNode<T>, i: ListNode<T>, ghost p: nat, ghost k: nat)
      requires Valid() && 1 <= p <= |ring| && 1 <= k < |ring| && position == At(ring, p) && i == ring[k]
      modifies this`ring, ring
      ensures Valid() && node == old(node)
      ensures ring == old(if p == k || p == k + 1 then ring else MovedWithin(ring, p, k, k + 1))
    {
      SamePlaces(ring, p, k);
      SamePlaces(ring, p, k + 1);
      RingFacts(ring);
      hide Ring;
      RingNext(ring, k);
      var j := i.next;
      if position == i || position == j {
        return;
      }
      TransferWithin(position, i, j, ring, p, k, k + 1);
      ring := MovedWithin(ring, p, k, k + 1);
    }

    /** `reverse`: each node in turn is moved to the front. */
    method Reverse()
      requires Valid()
      modifies this`ring, ring
      ensures Valid() && node == old(node) && Nodes() == old(Rotate.Reversed(Nodes()))
    {
      hide Ring;
      RingFacts(ring);
      RingNext(ring, 0);
      if node.next != node {
        RingNext(ring, 1);
        if node.next.next != node {
          ReverseNodes();
          return;
        }
      }
      FewReversed(ring);
    }

    /** The loop of `reverse`. */
    method ReverseNodes()
      requires Valid() && |ring| > 2
      modifies this`ring, ring
      ensures Valid() && node == old(node) && Nodes() == old(Rotate.Reversed(Nodes()))
    {
      hide Ring, MovedWithin;
      ghost var was := Nodes();
      RingNext(ring, 0);
      RingNext(ring, 1);
      var first := node.next.next;
      ghost var k := 2;
      TurnedStart(ring);
      while first != node
        invariant Valid() && node == old(node) && 2 <= k <= |ring| == |was| + 1 && first == At(ring, k)
        invariant ring == Turned(node, was, k - 1) && forall i :: 0 <= i < |ring| ==> ring[i] in old(ring)
        decreases |ring| - k
      {
        LastPlace(ring, k);
        var moved := first;
        RingNext(ring, k);
        first := first.next;
        MoveToFront(moved, first, k, was);
        k := k + 1;
      }
      LastPlace(ring, k);
      assert was[..|was|] == was;
    }

    /** The node at place `k` goes to the front, where the nodes before it stand reversed. */
    method MoveToFront(moved: ListNode<T>, next: ListNode<T>, ghost k: nat, ghost was: seq<ListNode<T>>)
      requires Valid() && 2 <= k < |ring| == |was| + 1 && ring == Turned(node, was, k - 1)
      requires moved == ring[k] && next == At(ring, k + 1)
      modifies this`ring, ring
      ensures Valid() && node == old(node) && ring == Turned(node, was, k) && next == At(ring, k + 1)
      ensures forall i :: 0 <= i < |ring| ==> ring[i] in old(ring)
    {
      hide Ring, MovedWithin, Turned;
      RingNext(ring, 0);
      TurnedStep(node, was, k - 1);
      TransferWithin(node.next, moved, next, ring, 1, k, k + 1);
      ring := MovedWithin(ring, 1, k, k + 1);
    }

    /** `swap`: the two lists exchange their headers. */
    method Swap(x: List<T>)
      modifies this, x
      ensures node == old(x.node) && ring == old(x.ring) && x.node == old(node) && x.ring == old(ring)
    {
      node, x.node := x.node, node;
      ring, x.ring := x.ring, ring;
    }

    /** `merge`: the nodes of `x` are moved to their places in this list. */
    method MergeFrom(x: List<T>, less: (T, T) -> bool)
      requires Valid() && x.Valid() && this != x && Apart(ring, x.ring)
      modifies this`ring, x`ring, ring, x.ring
      ensures Valid() && x.Valid() && node == old(node) && x.node == old(x.node) && Apart(ring, x.ring)
      ensures Nodes() == old(MergeNodes(less, Nodes(), x.Nodes())) && x.Nodes() == []
      ensures Among(ring, old(ring), old(x.ring)) && Among(x.ring, old(ring), old(x.ring))
    {
      hide Ring, MergeNodes, Among, Apart, MergeInv;
      ghost var goal := MergeNodes(less, Nodes(), x.Nodes());
      RingFacts(ring);
      RingFacts(x.ring);
      RingNext(ring, 0);
      RingNext(x.ring, 0);
      MergeStart(less, ring, x.ring);
      AmongStart(ring, x.ring);
      var first1, last1, first2, last2 := node.next, node, x.node.next, x.node;
      ghost var p: nat := 1;
      while first1 != last1 && first2 != last2
        invariant Valid() && x.Valid() && node == old(node) && x.node == old(x.node) && Apart(ring, x.ring)
        invariant 1 <= p <= |ring| && 1 <= |x.ring| && first1 == At(ring, p) && first2 == At(x.ring, 1)
        invariant MergeInv(less, ring, x.ring, p, goal)
        invariant Among(ring, old(ring), old(x.ring)) && Among(x.ring, old(ring), old(x.ring))
        decreases |ring| - p + |x.ring|, |ring| - p
      {
        MergeRound(less, ring, x.ring, p, goal);
        AmongFrame(ring, x.ring, old(ring), old(x.ring));
        if less(first2.data, first1.data) {
          RingNext(x.ring, 1);
          var next := first2.next;
          ghost var r, y := ring, x.ring;
          Splice(first1, x, first2, next, p, 1, 2);
          AmongTrans(ring, x.ring, r, y, old(ring), old(x.ring));
          first2 := next;
        } else {
          RingNext(ring, p);
          first1 := first1.next;
        }
        p := p + 1;
      }
      LastPlace(ring, p);
      LastPlace(x.ring, 1);
      MergeRest(less, ring, x.ring, p, goal);
      AmongFrame(ring, x.ring, old(ring), old(x.ring));
      if first2 != last2 {
        ghost var r, y := ring, x.ring;
        Splice(last1, x, first2, last2, |r|, 1, |y|);
        AmongTrans(ring, x.ring, r, y, old(ring), old(x.ring));
      }
    }
  }

  lemma AmongStart<T>(x: seq<ListNode<T>>, y: seq<ListNode<T>>)
    ensures Among(x, x, y) && Among(y, x, y)
  {
  }

  ghost predicate HasPlace<T>(n: ListNode<T>, x: seq<ListNode<T>>) {
    exists k :: 0 <= k < |x| && x[k] == n
  }

  /** Each place of `s` is a place of one of the two. */
  ghost predicate PlacedIn<T>(s: seq<ListNode<T>>, x: seq<ListNode<T>>, y: seq<ListNode<T>>) {
    forall i :: 0 <= i < |s| ==> HasPlace(s[i], x) || HasPlace(s[i], y)
  }

  lemma AmongFrame<T>(s: seq<ListNode<T>>, t: seq<ListNode<T>>, x: seq<ListNode<T>>, y: seq<ListNode<T>>)
    requires Among(s, x, y) && Among(t, x, y)
    ensures PlacedIn(s, x, y) && PlacedIn(t, x, y)
  {
    AmongPlaced(s, x, y);
    AmongPlaced(t, x, y);
  }

  lemma AmongPlaced<T>(s: seq<ListNode<T>>, x: seq<ListNode<T>>, y: seq<ListNode<T>>)
    requires Among(s, x, y)
    ensures PlacedIn(s, x, y)
  {
    forall i | 0 <= i < |s|
      ensures HasPlace(s[i], x) || HasPlace(s[i], y)
    {
      assert s[i] in s;
    }
  }

  lemma AmongTrans<T>(s: seq<ListNode<T>>, t: seq<ListNode<T>>, r: seq<ListNode<T>>, q: seq<ListNode<T>>,
                      x: seq<ListNode<T>>, y: seq<ListNode<T>>)
    requires Among(s, r, q) && Among(t, r, q) && Among(r, x, y) && Among(q, x, y)
    ensures Among(s, x, y) && Among(t, x, y)
  {
  }

  lemma PlaceApart<T>(r: seq<ListNode<T>>, p: nat, y: seq<ListNode<T>>, k: nat)
    requires 1 <= p <= |r| && 1 <= k < |y| && Apart(r, y)
    ensures At(r, p) != y[k] && At(r, p) != At(y, k + 1)
    ensures y[k..k + 1] == [y[k]]
  {
    assert At(r, p) in r && y[k] in y && At(y, k + 1) in y;
  }

  lemma PlacesDiffer<T>(s: seq<ListNode<T>>, i: nat, j: nat)
    requires Distinct(s) && 1 <= i <= j <= |s|
    ensures At(s, i) == At(s, j) <==> i == j
  {
  }

  /** All nodes of `s` are of one of the two. */
  ghost predicate Among<T>(s: seq<ListNode<T>>, x: seq<ListNode<T>>, y: seq<ListNode<T>>) {
    forall n :: n in s ==> n in x || n in y
  }

  /** A merge at work: up to place `p` the ring holds its result. */
  ghost predicate MergeInv<T>(less: (T, T) -> bool, r: seq<ListNode<T>>, y: seq<ListNode<T>>, p: nat,
                              goal: seq<ListNode<T>>) {
    1 <= p <= |r| && 1 <= |y| && goal == r[1..p] + MergeNodes(less, r[p..], y[1..])
  }

  lemma RingFacts<T>(s: seq<ListNode<T>>)
    requires Ring(s)
    ensures |s| > 0 && Distinct(s)
  {
  }

  lemma MergeStart<T>(less: (T, T) -> bool, r: seq<ListNode<T>>, y: seq<ListNode<T>>)
    requires |r| > 0 && |y| > 0
    ensures MergeInv(less, r, y, 1, MergeNodes(less, r[1..], y[1..]))
  {
  }

  lemma MergeRound<T>(less: (T, T) -> bool, r: seq<ListNode<T>>, y: seq<ListNode<T>>, p: nat, goal: seq<ListNode<T>>)
    requires MergeInv(less, r, y, p, goal) && At(r, p) != r[0] && At(y, 1) != y[0]
    ensures p < |r| && 1 < |y|
    ensures less(y[1].data, r[p].data) ==> MergeInv(less, r[..p] + y[1..2] + r[p..], y[..1] + y[2..], p + 1, goal)
    ensures !less(y[1].data, r[p].data) ==> MergeInv(less, r, y, p + 1, goal)
  {
    hide MergeNodes;
    MergeStep(less, r[p..], y[1..]);
    Taken(r, p);
    Taken(y, 1);
    if less(y[1].data, r[p].data) {
      Spliced(r, y, p);
      Extended(r[1..p], [y[1]], MergeNodes(less, r[p..], y[2..]));
    } else {
      Extended(r[1..p], [r[p]], MergeNodes(less, r[p + 1..], y[1..]));
    }
  }

  lemma Taken<T>(s: seq<T>, p: nat)
    requires 1 <= p < |s|
    ensures s[p..][0] == s[p] && s[p..][1..] == s[p + 1..] && s[1..p + 1] == s[1..p] + [s[p]]
  {
  }

  lemma Spliced<T>(r: seq<T>, y: seq<T>, p: nat)
    requires 1 <= p <= |r| && 1 < |y|
    ensures var s := r[..p] + y[1..2] + r[p..]; s[1..p + 1] == r[1..p] + [y[1]] && s[p + 1..] == r[p..]
    ensures (y[..1] + y[2..])[1..] == y[2..]
  {
  }

  lemma Extended<T>(a: seq<T>, b: seq<T>, c: seq<T>)
    ensures a + (b + c) == a + b + c
  {
  }

  lemma MergeStep<T>(less: (T, T) -> bool, x: seq<ListNode<T>>, y: seq<ListNode<T>>)
    requires x != [] && y != []
    ensures MergeNodes(less, x, y) == if less(y[0].data, x[0].data) then [y[0]] + MergeNodes(less, x, y[1..])
                                      else [x[0]] + MergeNodes(less, x[1..], y)
  {
  }

  /** The ring when the first `k` nodes are reversed. */
  ghost function Turned<T>(header: ListNode<T>, was: seq<ListNode<T>>, k: nat): (r: seq<ListNode<T>>)
    requires k <= |was|
    ensures |r| == |was| + 1 && r[0] == header
  {
    [header] + Rotate.Reversed(was[..k]) + was[k..]
  }

  lemma TurnedStart<T>(ring: seq<ListNode<T>>)
    requires |ring| > 1
    ensures Turned(ring[0], ring[1..], 1) == ring
  {
    assert ring[1..][..1] == [ring[1]] && Rotate.Reversed([ring[1]]) == [ring[1]];
  }

  lemma TurnedStep<T>(header: ListNode<T>, was: seq<ListNode<T>>, k: nat)
    requires 1 <= k < |was|
    ensures var r := Turned(header, was, k); MovedWithin(r, 1, k + 1, k + 2) == Turned(header, was, k + 1)
    ensures forall n :: n in Turned(header, was, k + 1) ==> n in Turned(header, was, k)
    ensures At(Turned(header, was, k + 1), k + 2) == At(Turned(header, was, k), k + 2)
  {
    var r, x := Turned(header, was, k), was[k];
    assert was[..k + 1] == was[..k] + [x];
    Rotate.ReversedConcat(was[..k], [x]);
    assert Rotate.Reversed([x]) == [x];
    assert was[k..] == [x] + was[k + 1..];
    assert r[..1] == [header] && r[1..k + 1] == Rotate.Reversed(was[..k]) && r[k + 1] == x &&
      r[k + 2..] == was[k + 1..];
    assert r[k + 1..k + 2] == [x];
  }

  lemma FewReversed<T>(ring: seq<ListNode<T>>)
    requires 1 <= |ring| <= 2
    ensures ring[1..] == Rotate.Reversed(ring[1..])
  {
    if |ring| == 2 {
      assert ring[1..] == [ring[1]];
    }
  }

  lemma MovedStart<T>(r: seq<T>, p: nat, i: nat, j: nat)
    requires 1 <= p <= |r| && 1 <= i <= j <= |r| && (p < i || j <= p)
    ensures MovedWithin(r, p, i, j) != [] && MovedWithin(r, p, i, j)[0] == r[0]
  {
  }

  lemma MovedNone<T>(r: seq<T>, p: nat, i: nat)
    requires i <= |r| && p <= |r|
    ensures MovedWithin(r, p, i, i) == r
  {
    if p < i {
      assert r == r[..p] + r[p..i] + r[i..];
    } else {
      assert r == r[..i] + r[i..p] + r[p..];
    }
  }

  lemma LastPlace<T>(r: seq<ListNode<T>>, p: nat)
    requires Ring(r) && 1 <= p <= |r|
    ensures At(r, p) == r[0] <==> p == |r|
  {
  }

  lemma MergeRest<T>(less: (T, T) -> bool, r: seq<ListNode<T>>, y: seq<ListNode<T>>, p: nat, goal: seq<ListNode<T>>)
    requires MergeInv(less, r, y, p, goal) && (p == |r| || 1 == |y|)
    ensures goal == r[1..] + y[1..]
    ensures goal == (r[..|r|] + y[1..|y|] + r[|r|..])[1..] && (y[..1] + y[|y|..])[1..] == []
  {
  }

  lemma TakenApart<T>(r: seq<ListNode<T>>, y: seq<ListNode<T>>, p: nat, i: nat, j: nat)
    requires Distinct(r) && Distinct(y) && Apart(r, y) && 1 <= p <= |r| && 1 <= i <= j <= |y|
    ensures Apart(r[..p] + y[i..j] + r[p..], y[..i] + y[j..])
    ensures Among(r[..p] + y[i..j] + r[p..], r, y) && Among(y[..i] + y[j..], r, y)
    ensures (r[..p] + y[i..j] + r[p..])[0] == r[0] && (y[..i] + y[j..])[0] == y[0]
    ensures i == j ==> r[..p] + y[i..j] + r[p..] == r && y[..i] + y[j..] == y
  {
    var s, t := r[..p] + y[i..j] + r[p..], y[..i] + y[j..];
    forall n | n in s
      ensures n !in t
    {
      if n in y[i..j] {
        var k :| 0 <= k < j - i && y[i..j][k] == n;
        assert y[i + k] == n;
      } else {
        assert n in r;
      }
    }
  }

  /** The two share no node. */
  ghost predicate Apart<T>(x: seq<ListNode<T>>, y: seq<ListNode<T>>) {
    forall n :: n in x ==> n !in y
  }

  lemma RingNext<T>(s: seq<ListNode<T>>, i: nat)
    requires Ring(s) && i < |s|
    ensures s[i].next == At(s, i + 1)
  {
    if i + 1 < |s| {
      assert Linked(s[i], s[i + 1]);
    }
  }
}