/** Heap nodes of the red-black tree, what it means for linked nodes to
    represent an abstract tree, and the rotations. */
module RbNode {
  import opened RbShape

  /** `value` of the header cell is never read; `V(0)` stands for its
      uninitialised storage. */
  class Node<V(0)> {
    var color: Color
    var parent: Node?<V>
    var left: Node?<V>
    var right: Node?<V>
    const value: V

    constructor (v: V)
      ensures value == v
    {
      value := v;
    }

    constructor Header()
    {
    }
  }

  ghost function RootNode<V(0)>(t: Tree<Node<V>>): (n: Node?<V>)
    ensures n != null ==> n in Nodes(t)
  {
    if t.Nil? then null else t.node
  }

  /** The node that the focus hangs under, `top` being above the whole path. */
  ghost function UpNode<V(0)>(p: Path<Node<V>>, top: Node<V>): (n: Node<V>)
    ensures !p.Top? ==> n in PathNodes(p)
  {
    if p.Top? then top else p.node
  }

  /** The node at the top end of the path, `child` being the focus. */
  ghost function PathRoot<V(0)>(p: Path<Node<V>>, child: Node?<V>): (n: Node?<V>)
    ensures !p.Top? ==> n != null && n in PathNodes(p)
    decreases p
  {
    if p.Top? then child else PathRoot(p.up, p.node)
  }

  /** The fields of the nodes of `t` spell out `t`, hanging under `up`. */
  ghost predicate Linked<V(0)>(t: Tree<Node<V>>, up: Node<V>)
    reads Nodes(t)
  {
    match t
    case Nil => true
    case Bin(l, n, c, r) =>
      && n.color == c && n.parent == up
      && n.left == RootNode(l) && n.right == RootNode(r)
      && Linked(l, n) && Linked(r, n)
  }

  /** The fields of the nodes of `p` spell out `p` around the focus `child`. */
  ghost predicate LinkedPath<V(0)>(p: Path<Node<V>>, top: Node<V>, child: Node?<V>)
    reads PathNodes(p)
    decreases p
  {
    match p
    case Top => true
    case InLeft(up, n, c, r) =>
      && n.color == c && n.parent == UpNode(up, top)
      && n.left == child && n.right == RootNode(r)
      && Linked(r, n) && LinkedPath(up, top, n)
    case InRight(l, n, c, up) =>
      && n.color == c && n.parent == UpNode(up, top)
      && n.left == RootNode(l) && n.right == child
      && Linked(l, n) && LinkedPath(up, top, n)
  }

  /** The heap below `header` is the tree `Plug(t, p)`. */
  ghost predicate Zip<V(0)>(t: Tree<Node<V>>, p: Path<Node<V>>, header: Node<V>)
    reads Nodes(t), PathNodes(p), header`parent
  {
    && ProperZip(t, p)
    && header !in Nodes(t) && header !in PathNodes(p)
    && Linked(t, UpNode(p, header)) && LinkedPath(p, header, RootNode(t))
    && header.parent == PathRoot(p, RootNode(t))
  }

  // ---------- moving the focus ----------

  /** What the fields around the focus hold. */
  lemma ZipParts<V(0)>(t: Tree<Node<V>>, p: Path<Node<V>>, header: Node<V>)
    requires Zip(t, p, header)
    ensures Proper(t) && header !in Nodes(t) && header !in PathNodes(p)
    ensures Nodes(t) !! PathNodes(p)
    ensures t.Bin? ==>
              && t.node.parent == UpNode(p, header) && t.node.color == t.color
              && t.node.left == RootNode(t.left) && t.node.right == RootNode(t.right)
    ensures header.parent == RootNode(t) <==> p.Top?
    ensures p.InLeft? ==> p.node.left == RootNode(t) && p.node.right == RootNode(p.right)
    ensures p.InRight? ==> p.node.left == RootNode(p.left) && p.node.right == RootNode(t)
    ensures !p.Top? ==> p.node.parent == UpNode(p.up, header) && p.node.color == p.color
    ensures !p.Top? && t.Bin? ==> (p.node.left == t.node <==> p.InLeft?)
    ensures !p.Top? && t.Bin? ==> (p.node.right == t.node <==> p.InRight?)
  {
  }

  lemma ZipUp<V(0)>(t: Tree<Node<V>>, p: Path<Node<V>>, header: Node<V>)
    requires !p.Top?
    requires Zip(t, p, header)
    ensures Zip(Up(t, p), p.up, header)
    ensures Nodes(Up(t, p)) + PathNodes(p.up) == Nodes(t) + PathNodes(p)
  {
  }

  lemma ZipLeft<V(0)>(t: Tree<Node<V>>, p: Path<Node<V>>, header: Node<V>)
    requires t.Bin? && Zip(t, p, header)
    ensures Zip(t.left, InLeft(p, t.node, t.color, t.right), header)
    ensures Nodes(t.left) + PathNodes(InLeft(p, t.node, t.color, t.right)) == Nodes(t) + PathNodes(p)
  {
  }

  lemma ZipRight<V(0)>(t: Tree<Node<V>>, p: Path<Node<V>>, header: Node<V>)
    requires t.Bin? && Zip(t, p, header)
    ensures Zip(t.right, InRight(t.left, t.node, t.color, p), header)
    ensures Nodes(t.right) + PathNodes(InRight(t.left, t.node, t.color, p)) == Nodes(t) + PathNodes(p)
  {
  }

  lemma {:induction false} ZipTop<V(0)>(t: Tree<Node<V>>, p: Path<Node<V>>, header: Node<V>)
    requires Zip(t, p, header)
    ensures Zip(Plug(t, p), Top, header)
    ensures Nodes(Plug(t, p)) == Nodes(t) + PathNodes(p)
    decreases p
  {
    if !p.Top? {
      ZipUp(t, p, header);
      ZipTop(Up(t, p), p.up, header);
    }
  }

  // ---------- single steps on the heap ----------

  /** Recolours the root of the focus. */
  method Paint<V(0)>(n: Node<V>, c: Color, header: Node<V>, ghost t: Tree<Node<V>>, ghost p: Path<Node<V>>)
    requires Zip(t, p, header) && t.Bin? && t.node == n
    modifies n`color
    ensures Zip(t.(color := c), p, header)
  {
    n.color := c;
  }

  /** Hangs the subtree rooted at `n`, if any, under `up`. */
  method SetParent<V(0)>(n: Node?<V>, up: Node<V>, ghost t: Tree<Node<V>>, ghost was: Node<V>)
    requires n == RootNode(t) && Proper(t) && Linked(t, was)
    modifies Nodes(t)
    ensures Linked(t, up)
  {
    if n != null {
      n.parent := up;
    }
  }

  /** Puts `y` where the path `p` expects `x`: at the root of the whole tree, or
      as the left or right child of the parent of `x`. */
  method ReplaceChild<V(0)>(x: Node<V>, y: Node?<V>, header: Node<V>, ghost p: Path<Node<V>>)
    requires ProperPath(p) && header !in PathNodes(p) && x !in PathNodes(p)
    requires x.parent == UpNode(p, header)
    requires LinkedPath(p, header, x) && header.parent == PathRoot(p, x)
    modifies header`parent, PathNodes(p)
    ensures LinkedPath(p, header, y) && header.parent == PathRoot(p, y)
  {
    if x == header.parent {
      header.parent := y;
    } else if x == x.parent.left {
      x.parent.left := y;
    } else {
      x.parent.right := y;
    }
  }

  // ---------- rotations ----------

  /** The subtrees and the path that a rotation leaves alone: linked, and apart from each other. */
  ghost predicate Apart<V(0)>(x: Node<V>, y: Node<V>, header: Node<V>, a: Tree<Node<V>>, b: Tree<Node<V>>,
                          c: Tree<Node<V>>, p: Path<Node<V>>) {
    && x != y && header != x && header != y
    && header !in PathNodes(p) && header !in Nodes(a) && header !in Nodes(b) && header !in Nodes(c)
    && x !in PathNodes(p) && x !in Nodes(a) && x !in Nodes(b) && x !in Nodes(c)
    && y !in PathNodes(p) && y !in Nodes(a) && y !in Nodes(b) && y !in Nodes(c)
    && Nodes(a) !! Nodes(b) && Nodes(b) !! Nodes(c)
    && PathNodes(p) !! Nodes(a) && PathNodes(p) !! Nodes(b) && PathNodes(p) !! Nodes(c)
    && Proper(b) && ProperPath(p)
  }

  method RotateLeft<V(0)>(x: Node<V>, header: Node<V>, ghost t: Tree<Node<V>>, ghost p: Path<Node<V>>)
    requires Zip(t, p, header)
    requires t.Bin? && t.right.Bin? && t.node == x
    modifies Nodes(t), PathNodes(p), header`parent
    ensures Zip(RotatedLeft(t), p, header)
  {
    RotateLeftKeeps(t);
    ghost var s := t.right;
    assert Linked(s, x) && Proper(s) && Nodes(s) == Nodes(s.left) + {s.node} + Nodes(s.right);
    RelinkLeft(x, header, s.node, t.left, s.left, s.right, p);
    assert Linked(Bin(t.left, x, t.color, s.left), s.node);
  }

  /** The assignments of a left rotation at `x`, whose right child is `was`. */
  method RelinkLeft<V(0)>(x: Node<V>, header: Node<V>, ghost was: Node<V>,
                          ghost a: Tree<Node<V>>, ghost b: Tree<Node<V>>, ghost c: Tree<Node<V>>,
                            ghost p: Path<Node<V>>)
    requires x.left == RootNode(a) && x.right == was && was.left == RootNode(b) && was.right == RootNode(c)
    requires x.parent == UpNode(p, header)
    requires Linked(a, x) && Linked(b, was) && Linked(c, was) && LinkedPath(p, header, x)
    requires header.parent == PathRoot(p, x)
    requires Apart(x, was, header, a, b, c, p)
    modifies x, was, Nodes(b), PathNodes(p), header`parent
    ensures x.left == RootNode(a) && x.right == RootNode(b) && was.left == x && was.right == RootNode(c)
    ensures x.color == old(x.color) && was.color == old(was.color)
    ensures x.parent == was && was.parent == UpNode(p, header)
    ensures Linked(a, x) && Linked(b, x) && Linked(c, was) && LinkedPath(p, header, was)
    ensures header.parent == PathRoot(p, was)
  {
    hide Linked, LinkedPath, Nodes, PathNodes, Proper, ProperPath, PathRoot;
    assert allocated(Nodes(a)) && allocated(Nodes(b)) && allocated(Nodes(c)) && allocated(PathNodes(p));
    var y := x.right;
    x.right := y.left;
    SetParent(y.left, x, b, y);
    y.parent := x.parent;
    ReplaceChild(x, y, header, p);
    y.left := x;
    x.parent := y;
  }

  method RotateRight<V(0)>(x: Node<V>, header: Node<V>, ghost t: Tree<Node<V>>, ghost p: Path<Node<V>>)
    requires Zip(t, p, header)
    requires t.Bin? && t.left.Bin? && t.node == x
    modifies Nodes(t), PathNodes(p), header`parent
    ensures Zip(RotatedRight(t), p, header)
  {
    RotateRightKeeps(t);
    ghost var s := t.left;
    assert Linked(s, x) && Proper(s) && Nodes(s) == Nodes(s.left) + {s.node} + Nodes(s.right);
    RelinkRight(x, header, s.node, s.left, s.right, t.right, p);
    assert Linked(Bin(s.right, x, t.color, t.right), s.node);
  }

  /** The assignments of a right rotation at `x`, whose left child is `was`. */
  method RelinkRight<V(0)>(x: Node<V>, header: Node<V>, ghost was: Node<V>,
                           ghost a: Tree<Node<V>>, ghost b: Tree<Node<V>>, ghost c: Tree<Node<V>>,
                             ghost p: Path<Node<V>>)
    requires x.right == RootNode(c) && x.left == was && was.left == RootNode(a) && was.right == RootNode(b)
    requires x.parent == UpNode(p, header)
    requires Linked(a, was) && Linked(b, was) && Linked(c, x) && LinkedPath(p, header, x)
    requires header.parent == PathRoot(p, x)
    requires Apart(x, was, header, a, b, c, p)
    modifies x, was, Nodes(b), PathNodes(p), header`parent
    ensures x.right == RootNode(c) && x.left == RootNode(b) && was.right == x && was.left == RootNode(a)
    ensures x.color == old(x.color) && was.color == old(was.color)
    ensures x.parent == was && was.parent == UpNode(p, header)
    ensures Linked(a, was) && Linked(b, x) && Linked(c, x) && LinkedPath(p, header, was)
    ensures header.parent == PathRoot(p, was)
  {
    hide Linked, LinkedPath, Nodes, PathNodes, Proper, ProperPath, PathRoot;
    assert allocated(Nodes(a)) && allocated(Nodes(b)) && allocated(Nodes(c)) && allocated(PathNodes(p));
    var y := x.left;
    x.left := y.right;
    SetParent(y.right, x, b, y);
    y.parent := x.parent;
    ReplaceChild(x, y, header, p);
    y.right := x;
    x.parent := y;
  }
}
