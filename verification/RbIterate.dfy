/** Stepping through the tree by parent links. The header is the position past
    the last node. */
module RbIterate {
  import opened RbShape
  import opened RbNode
  import opened RbEnds
  import opened RbUnlink

  /** The focus whose root is the `i`-th node of the walk. */
  lemma FocusAt<N>(t: Tree<N>, i: nat) returns (f: Tree<N>, p: Path<N>)
    requires i < |InOrder(t)|
    ensures f.Bin? && Plug(f, p) == t && Walk(f, p) == InOrder(t)
    ensures f.node == InOrder(t)[i]
    ensures Before(p) + InOrder(f.left) == InOrder(t)[..i]
    ensures InOrder(f.right) + After(p) == InOrder(t)[i + 1..]
  {
    f, p := Descend(t, i);
    WalkIsInOrder(f, p);
    WalkAround(f, p);
    hide InOrder, Before, After, Plug;
  }

  lemma {:induction false} Descend<N>(t: Tree<N>, i: nat) returns (f: Tree<N>, p: Path<N>)
    requires i < |InOrder(t)|
    ensures f.Bin? && Plug(f, p) == t
    ensures |Before(p)| + |InOrder(f.left)| == i
  {
    var k := |InOrder(t.left)|;
    if i == k {
      f, p := t, Top;
    } else {
      var at := if i < k then InLeft(Top, t.node, t.color, t.right) else InRight(t.left, t.node, t.color, Top);
      var q;
      if i < k {
        f, q := Descend(t.left, i);
      } else {
        f, q := Descend(t.right, i - k - 1);
      }
      p := Append(q, at);
      PlugAppend(f, q, at);
      WalkAppend(q, at);
    }
  }

  lemma {:induction false} WalkAppend<N>(q: Path<N>, p: Path<N>)
    ensures Before(Append(q, p)) == Before(p) + Before(q)
    ensures After(Append(q, p)) == After(q) + After(p)
    decreases q
  {
    if !q.Top? {
      WalkAppend(q.up, p);
    }
  }

  /** `_M_increment`: the node after `x0`, or the header after the last one. */
  method Increment<V(0)>(x0: Node<V>, header: Node<V>, ghost t: Tree<Node<V>>, ghost p: Path<Node<V>>)
                     returns (x: Node<V>)
    requires Zip(t, p, header) && t.Bin? && t.node == x0
    ensures x == First(InOrder(t.right) + After(p), header)
  {
    x := x0;
    if x.right != null {
      x := x.right;
      ghost var s := t.right;
      ghost var up := x0;
      while x.left != null
        invariant s.Bin? && s.node == x && Linked(s, up)
        invariant InOrder(s)[0] == InOrder(t.right)[0]
        decreases s
      {
        x := x.left;
        s, up := s.left, s.node;
      }
    } else {
      var y := x.parent;
      ghost var f, q, escaped := t, p, false;
      ZipParts(f, q, header);
      while x == y.right
        invariant y != null
        invariant if escaped then x == header && y == header.right && header !in Nodes(t) && y.right != header &&
          After(p) == [] && t.right.Nil?
                  else Zip(f, q, header) && f.Bin? && f.node == x && y == UpNode(q, header)
                       && After(q) == After(p) && Walk(f, q) == Walk(t, p)
                       && LastIs(f, x0) && (f == t || (f.right.Bin? && x != x0))
        decreases if escaped then 0 else 1 + Depth(q)
      {
        ZipParts(f, q, header);
        if q.Top? {
          assert Walk(f, q) == InOrder(f);
          escaped := true;
        } else {
          WalkUp(f, q);
          ZipUp(f, q, header);
          ClimbRight(f, q, x0);
          f, q := Up(f, q), q.up;
        }
        x := y;
        y := y.parent;
      }
      if !escaped {
        ZipParts(f, q, header);
      }
      if x.right != y {
        x := y;
      }
    }
  }

  ghost predicate LastIs<N>(f: Tree<N>, n: N) {
    InOrder(f) != [] && InOrder(f)[|InOrder(f)| - 1] == n
  }

  lemma ClimbRight<V(0)>(f: Tree<Node<V>>, q: Path<Node<V>>, n: Node<V>)
    requires q.InRight? && LastIs(f, n)
    ensures LastIs(Up(f, q), n) && After(q.up) == After(q) && Up(f, q).right == f
  {
  }

  /** From a node without a left child, up as long as it is a left child itself, and once more. */
  method ClimbLeft<V(0)>(x0: Node<V>, header: Node<V>, ghost t: Tree<Node<V>>, ghost p: Path<Node<V>>)
                     returns (x: Node<V>)
    requires Zip(t, p, header) && t.Bin? && t.node == x0 && Before(p) != []
    ensures x == Last(Before(p), header)
  {
    x := x0;
    ZipParts(t, p, header);
    ParentFields(t, p, header);
    var y := x.parent;
    ghost var f, q := t, p;
    while x == y.left
      invariant Zip(f, q, header) && f.Bin? && f.node == x && y == UpNode(q, header)
      invariant Before(q) == Before(p) != []
      decreases Depth(q)
    {
      ZipUp(f, q, header);
      ZipParts(f, q, header);
      f, q := Up(f, q), q.up;
      x := y;
      y := y.parent;
      ZipParts(f, q, header);
    }
    ZipParts(f, q, header);
    x := y;
  }

  /** `_M_decrement`: the last node when `x0` is the header, and otherwise the node
      before `x0`, which must not be the first. */
  method Decrement<V(0)>(x0: Node<V>, header: Node<V>, ghost t: Tree<Node<V>>, ghost p: Path<Node<V>>)
                     returns (x: Node<V>)
    requires Zip(t, p, header) && t.Bin? && RedBlack(Plug(t, p)) && Ends(Walk(t, p), header)
    requires header.color == Red
    requires if x0 == header then p.Top? else t.node == x0 && Before(p) + InOrder(t.left) != []
    ensures x == Last(if x0 == header then Walk(t, p) else Before(p) + InOrder(t.left), header)
  {
    x := x0;
    ZipParts(t, p, header);
    if !p.Top? {
      ParentFields(t, p, header);
    }
    ColoredUnplug(t, p);
    if x.color == Red && x.parent.parent == x {
      x := x.right;
    } else if x.left != null {
      var y := x.left;
      ghost var s, up := t.left, x0;
      while y.right != null
        invariant s.Bin? && s.node == y && Linked(s, up)
        invariant Last(InOrder(s), header) == Last(InOrder(t.left), header)
        decreases s
      {
        y := y.right;
        s, up := s.right, s.node;
      }
      EmptyIsNil(s);
      x := y;
    } else {
      EmptyIsNil(t.left);
      x := ClimbLeft(x0, header, t, p);
    }
  }

  lemma ParentFields<V(0)>(t: Tree<Node<V>>, p: Path<Node<V>>, header: Node<V>)
    requires Zip(t, p, header) && t.Bin? && !p.Top?
    ensures t.node.parent == p.node && p.node.parent == UpNode(p.up, header) && p.node.parent != t.node
  {
    ZipUp(t, p, header);
  }
}
