/** Descending from the root by a test that, along the walk, is first false and then true. */
module RbSearch {
  import opened Orders
  import opened RbShape
  import opened RbNode
  import opened RbEnds

  /** No later element is less than an earlier one. */
  ghost predicate SortedWalk<K, V(0)>(w: seq<Node<V>>, keyOf: V -> K, less: (K, K) -> bool) {
    forall i, j :: 0 <= i < j < |w| ==> !less(keyOf(w[j].value), keyOf(w[i].value))
  }

  /** `test` fails on the first `lo` nodes and holds from the `hi`-th on. */
  ghost predicate Splits<V(0)>(w: seq<Node<V>>, lo: nat, hi: nat, test: V -> bool) {
    && lo <= hi <= |w|
    && (forall j :: 0 <= j < lo ==> !test(w[j].value))
    && (forall j :: hi <= j < |w| ==> test(w[j].value))
  }

  ghost predicate Monotone<V(0)>(w: seq<Node<V>>, test: V -> bool) {
    forall i, j :: 0 <= i < j < |w| && test(w[i].value) ==> test(w[j].value)
  }

  lemma LowerMonotone<K(!new), V(0)>(w: seq<Node<V>>, keyOf: V -> K, less: (K, K) -> bool, k: K)
    requires StrictWeakOrder(less) && SortedWalk(w, keyOf, less)
    ensures Monotone(w, v => !less(keyOf(v), k))
  {
  }

  lemma UpperMonotone<K(!new), V(0)>(w: seq<Node<V>>, keyOf: V -> K, less: (K, K) -> bool, k: K)
    requires StrictWeakOrder(less) && SortedWalk(w, keyOf, less)
    ensures Monotone(w, v => less(k, keyOf(v)))
  {
  }

  /** The state of a descent: the focus covers exactly the undecided part of the walk. */
  ghost predicate Descending<V(0)>(f: Tree<Node<V>>, p: Path<Node<V>>, header: Node<V>, w: seq<Node<V>>,
                               test: V -> bool)
    reads Nodes(f), PathNodes(p), header`parent
  {
    && Zip(f, p, header) && Walk(f, p) == w && Monotone(w, test)
    && |Before(p)| + |After(p)| <= |w|
    && Splits(w, |Before(p)|, |w| - |After(p)|, test)
  }

  lemma DescentStarts<V(0)>(t: Tree<Node<V>>, header: Node<V>, test: V -> bool)
    requires Zip(t, Top, header) && Monotone(InOrder(t), test)
    ensures Descending(t, Top, header, InOrder(t), test)
    ensures header.parent == RootNode(t)
  {
  }

  /** The position of the focus root in the walk. */
  lemma FocusIndex<N>(f: Tree<N>, p: Path<N>, w: seq<N>)
    requires f.Bin? && Walk(f, p) == w
    ensures var m := |Before(p)| + |InOrder(f.left)|;
            m < |w| && w[m] == f.node && |w| - m == 1 + |InOrder(f.right)| + |After(p)|
            && w[m..] == [f.node] + InOrder(f.right) + After(p)
  {
    WalkAround(f, p);
  }

  lemma DescendLeft<V(0)>(f: Tree<Node<V>>, p: Path<Node<V>>, header: Node<V>, w: seq<Node<V>>, test: V -> bool)
    requires Descending(f, p, header, w, test) && f.Bin? && test(f.node.value)
    ensures Descending(f.left, InLeft(p, f.node, f.color, f.right), header, w, test)
    ensures f.node.left == RootNode(f.left)
  {
    FocusIndex(f, p, w);
    WalkUp(f.left, InLeft(p, f.node, f.color, f.right));
    ZipParts(f, p, header);
    ZipLeft(f, p, header);
  }

  lemma DescendRight<V(0)>(f: Tree<Node<V>>, p: Path<Node<V>>, header: Node<V>, w: seq<Node<V>>, test: V -> bool)
    requires Descending(f, p, header, w, test) && f.Bin? && !test(f.node.value)
    ensures Descending(f.right, InRight(f.left, f.node, f.color, p), header, w, test)
    ensures f.node.right == RootNode(f.right)
  {
    FocusIndex(f, p, w);
    WalkUp(f.right, InRight(f.left, f.node, f.color, p));
    ZipParts(f, p, header);
    ZipRight(f, p, header);
  }

  /** At a null focus the walk is split in two. */
  lemma DescentEnds<V(0)>(f: Tree<Node<V>>, p: Path<Node<V>>, header: Node<V>, w: seq<Node<V>>, test: V -> bool)
    requires Descending(f, p, header, w, test) && f.Nil?
    ensures Splits(w, |Before(p)|, |Before(p)|, test)
    ensures w == Before(p) + After(p) && w[|Before(p)|..] == After(p)
  {
  }

  /** `lower_bound`: the first node whose key is not less than `k`. */
  method LowerBound<K(!new), V(0)>(k: K, header: Node<V>, keyOf: V -> K, less: (K, K) -> bool, ghost t: Tree<Node<V>>)
      returns (y: Node<V>, ghost i: nat)
    requires Zip(t, Top, header) && StrictWeakOrder(less) && SortedWalk(InOrder(t), keyOf, less)
    ensures Splits(InOrder(t), i, i, v => !less(keyOf(v), k))
    ensures y == First(InOrder(t)[i..], header)
  {
    ghost var test := v => !less(keyOf(v), k);
    ghost var w := InOrder(t);
    LowerMonotone(w, keyOf, less, k);
    DescentStarts(t, header, test);
    y := header;
    var x := header.parent;
    ghost var f, p := t, Top;
    while x != null
      invariant Descending(f, p, header, w, test) && x == RootNode(f)
      invariant y == First(After(p), header)
      decreases f
    {
      if !less(keyOf(x.value), k) {
        DescendLeft(f, p, header, w, test);
        f, p := f.left, InLeft(p, f.node, f.color, f.right);
        y, x := x, x.left;
      } else {
        DescendRight(f, p, header, w, test);
        f, p := f.right, InRight(f.left, f.node, f.color, p);
        x := x.right;
      }
    }
    DescentEnds(f, p, header, w, test);
    i := |Before(p)|;
  }

  /** `upper_bound`: the first node whose key is greater than `k`. */
  method UpperBound<K(!new), V(0)>(k: K, header: Node<V>, keyOf: V -> K, less: (K, K) -> bool, ghost t: Tree<Node<V>>)
      returns (y: Node<V>, ghost i: nat)
    requires Zip(t, Top, header) && StrictWeakOrder(less) && SortedWalk(InOrder(t), keyOf, less)
    ensures Splits(InOrder(t), i, i, v => less(k, keyOf(v)))
    ensures y == First(InOrder(t)[i..], header)
  {
    ghost var test := v => less(k, keyOf(v));
    ghost var w := InOrder(t);
    UpperMonotone(w, keyOf, less, k);
    DescentStarts(t, header, test);
    y := header;
    var x := header.parent;
    ghost var f, p := t, Top;
    while x != null
      invariant Descending(f, p, header, w, test) && x == RootNode(f)
      invariant y == First(After(p), header)
      decreases f
    {
      if less(k, keyOf(x.value)) {
        DescendLeft(f, p, header, w, test);
        f, p := f.left, InLeft(p, f.node, f.color, f.right);
        y, x := x, x.left;
      } else {
        DescendRight(f, p, header, w, test);
        f, p := f.right, InRight(f.left, f.node, f.color, p);
        x := x.right;
      }
    }
    DescentEnds(f, p, header, w, test);
    i := |Before(p)|;
  }

  /** The descent of an insertion: the null link where a node with key `k` goes behind its
      equivalents, its parent `y`, and the outcome `comp` of the last comparison. */
  method InsertionPoint<K(!new), V(0)>(k: K, header: Node<V>, keyOf: V -> K, less: (K, K) -> bool,
                          ghost t: Tree<Node<V>>)
      returns (y: Node<V>, comp: bool, ghost p: Path<Node<V>>)
    requires Zip(t, Top, header) && StrictWeakOrder(less) && SortedWalk(InOrder(t), keyOf, less)
    ensures Zip(Nil, p, header) && y == UpNode(p, header)
    ensures Plug(Nil, p) == t && InOrder(t) == Before(p) + After(p)
    ensures Splits(InOrder(t), |Before(p)|, |Before(p)|, v => less(k, keyOf(v)))
    ensures comp <==> !p.InRight?
    ensures !p.Top? ==> comp == less(k, keyOf(y.value))
  {
    ghost var test := v => less(k, keyOf(v));
    ghost var w := InOrder(t);
    UpperMonotone(w, keyOf, less, k);
    DescentStarts(t, header, test);
    y, comp := header, true;
    var x := header.parent;
    ghost var f := t;
    p := Top;
    while x != null
      invariant Descending(f, p, header, w, test) && x == RootNode(f) && Plug(f, p) == t
      invariant y == UpNode(p, header) && (comp <==> !p.InRight?)
      invariant !p.Top? ==> comp == less(k, keyOf(y.value))
      decreases f
    {
      y := x;
      comp := less(k, keyOf(x.value));
      if comp {
        DescendLeft(f, p, header, w, test);
        f, p := f.left, InLeft(p, f.node, f.color, f.right);
        x := x.left;
      } else {
        DescendRight(f, p, header, w, test);
        f, p := f.right, InRight(f.left, f.node, f.color, p);
        x := x.right;
      }
    }
    DescentEnds(f, p, header, w, test);
  }
}
