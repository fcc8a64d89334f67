/** Rebalancing after an insertion. */
module RbInsert {
  import opened RbShape
  import opened RbNode
  import opened RbEnds

  /** A red focus that may have a red parent and violates nothing else. */
  ghost predicate RedFocus<V(0)>(t: Tree<Node<V>>, p: Path<Node<V>>) {
    RootRed(t) && Colored(t) && ColoredPath(p, BlackHeight(t))
  }

  ghost function Recolored<V(0)>(g: Tree<Node<V>>): Tree<Node<V>>
    requires g.Bin? && g.left.Bin? && g.right.Bin?
  {
    Bin(g.left.(color := Black), g.node, Red, g.right.(color := Black))
  }

  /** A red node other than the root of the whole tree has a black parent. */
  lemma GrandparentBlack<V(0)>(t: Tree<Node<V>>, p: Path<Node<V>>)
    requires RedFocus(t, p) && !p.Top? && p.color == Red
    ensures FrameBlack(p.up)
  {
  }

  /** Recolouring the family of a red node with red parent and uncle moves the
      conflict two levels up. */
  lemma RecoloredKeeps<V(0)>(t: Tree<Node<V>>, p: Path<Node<V>>)
    requires RedFocus(t, p) && !p.Top? && p.color == Red
    requires p.up.InLeft? ==> RootRed(p.up.right)
    requires p.up.InRight? ==> RootRed(p.up.left)
    ensures FrameBlack(p.up)
    ensures var g := Up(Up(t, p), p.up);
            && g.left.Bin? && g.right.Bin? && Recolored(g).node == p.up.node
            && RedFocus(Recolored(g), p.up.up)
            && Walk(Recolored(g), p.up.up) == Walk(t, p)
            && Nodes(Recolored(g)) == Nodes(g)
            && Depth(p.up.up) < Depth(p)
  {
    assert Depth(p) == 1 + Depth(p.up);
    WalkUp(t, p);
    WalkUp(Up(t, p), p.up);
    assert ColoredPath(p.up, BlackHeight(t));
    var g := Up(Up(t, p), p.up);
    PaintKeeps(g.left, Black);
    PaintKeeps(g.right, Black);
  }

  /** Parent and uncle turn black, the grandparent red. */
  method RecolorFamily<V(0)>(parent: Node<V>, uncle: Node<V>, grand: Node<V>, header: Node<V>,
                             ghost g: Tree<Node<V>>, ghost q: Path<Node<V>>)
    requires Zip(g, q, header)
    requires g.Bin? && g.node == grand && g.left.Bin? && g.right.Bin?
    requires {parent, uncle} == {g.left.node, g.right.node}
    modifies parent`color, uncle`color, grand`color
    ensures Zip(Recolored(g), q, header)
  {
    hide Linked, LinkedPath, Nodes, PathNodes, Proper, ProperPath, PathRoot, Zip;
    ghost var l, r := g.left.(color := Black), g.right.(color := Black);
    ghost var parentIsLeft := parent == g.left.node;
    ZipLeft(g, q, header);
    ZipRight(g, q, header);
    ghost var atLeft, atRight := InLeft(q, grand, g.color, g.right), InRight(g.left, grand, g.color, q);
    Paint(parent, Black, header, if parentIsLeft then g.left else g.right, if parentIsLeft then atLeft else atRight);
    if parentIsLeft {
      ZipUp(l, atLeft, header);
      ZipRight(Bin(l, grand, g.color, g.right), q, header);
      atRight := InRight(l, grand, g.color, q);
    } else {
      ZipUp(r, atRight, header);
      ZipLeft(Bin(g.left, grand, g.color, r), q, header);
      atLeft := InLeft(q, grand, g.color, r);
    }
    Paint(uncle, Black, header, if parentIsLeft then g.right else g.left, if parentIsLeft then atRight else atLeft);
    if parentIsLeft {
      ZipUp(r, atRight, header);
    } else {
      ZipUp(l, atLeft, header);
    }
    Paint(grand, Red, header, Bin(l, grand, g.color, r), q);
  }

  /** The red parent is a left child and its sibling is not red: one or two
      rotations end the conflict. Returns the node the loop goes on with. */
  method RestructureLeft<V(0)>(x0: Node<V>, header: Node<V>, ghost t0: Tree<Node<V>>, ghost p0: Path<Node<V>>)
      returns (x: Node<V>, ghost t: Tree<Node<V>>, ghost p: Path<Node<V>>)
    requires Zip(t0, p0, header) && RedFocus(t0, p0) && t0.node == x0
    requires !p0.Top? && p0.color == Red && p0.up.InLeft? && !RootRed(p0.up.right)
    modifies Nodes(t0), PathNodes(p0), header`parent
    ensures Zip(t, p, header) && RedFocus(t, p) && FrameBlack(p) && t.node == x
    ensures Walk(t, p) == Walk(t0, p0)
    ensures Nodes(t) + PathNodes(p) == Nodes(t0) + PathNodes(p0)
    ensures Depth(p) < Depth(p0)
  {
    hide Linked, LinkedPath, Nodes, PathNodes, Proper, ProperPath, PathRoot, Zip, InOrder, Before, After;
    x := x0;
    assert ColoredPath(p0.up, BlackHeight(t0));
    ghost var q := p0.up.up;
    ghost var grand, side := p0.up.node, p0.up.right;
    ghost var u := Up(t0, p0);
    ZipParts(t0, p0, header);
    ZipUp(t0, p0, header);
    WalkUp(t0, p0);
    ZipParts(u, p0.up, header);
    if x == x.parent.right {
      x := x.parent;
      RotateLeftKeeps(u);
      RotateLeft(x, header, u, p0.up);
      u := RotatedLeft(u);
    }
    assert u.left.Bin? && u.left.node == x;
    ZipLeft(u, p0.up, header);
    ZipParts(u.left, InLeft(p0.up, u.node, Red, u.right), header);
    ZipParts(u, p0.up, header);
    Paint(x.parent, Black, header, u, p0.up);
    PaintKeeps(u, Black);
    u := u.(color := Black);
    ZipUp(u, p0.up, header);
    WalkUp(u, p0.up);
    ghost var g := Up(u, p0.up);
    Paint(x.parent.parent, Red, header, g, q);
    PaintKeeps(g, Red);
    g := g.(color := Red);
    RotateRightKeeps(g);
    RotateRight(x.parent.parent, header, g, q);
    g := RotatedRight(g);
    ZipLeft(g, q, header);
    t, p := g.left, InLeft(q, g.node, Black, g.right);
    WalkUp(t, p);
  }

  /** The red parent is a right child and its sibling is not red: one or two
      rotations end the conflict. Returns the node the loop goes on with. */
  method RestructureRight<V(0)>(x0: Node<V>, header: Node<V>, ghost t0: Tree<Node<V>>, ghost p0: Path<Node<V>>)
      returns (x: Node<V>, ghost t: Tree<Node<V>>, ghost p: Path<Node<V>>)
    requires Zip(t0, p0, header) && RedFocus(t0, p0) && t0.node == x0
    requires !p0.Top? && p0.color == Red && p0.up.InRight? && !RootRed(p0.up.left)
    modifies Nodes(t0), PathNodes(p0), header`parent
    ensures Zip(t, p, header) && RedFocus(t, p) && FrameBlack(p) && t.node == x
    ensures Walk(t, p) == Walk(t0, p0)
    ensures Nodes(t) + PathNodes(p) == Nodes(t0) + PathNodes(p0)
    ensures Depth(p) < Depth(p0)
  {
    hide Linked, LinkedPath, Nodes, PathNodes, Proper, ProperPath, PathRoot, Zip, InOrder, Before, After;
    x := x0;
    assert ColoredPath(p0.up, BlackHeight(t0));
    ghost var q := p0.up.up;
    ghost var grand, side := p0.up.node, p0.up.left;
    ghost var u := Up(t0, p0);
    ZipParts(t0, p0, header);
    ZipUp(t0, p0, header);
    WalkUp(t0, p0);
    ZipParts(u, p0.up, header);
    if x == x.parent.left {
      x := x.parent;
      RotateRightKeeps(u);
      RotateRight(x, header, u, p0.up);
      u := RotatedRight(u);
    }
    assert u.right.Bin? && u.right.node == x;
    ZipRight(u, p0.up, header);
    ZipParts(u.right, InRight(u.left, u.node, Red, p0.up), header);
    ZipParts(u, p0.up, header);
    Paint(x.parent, Black, header, u, p0.up);
    PaintKeeps(u, Black);
    u := u.(color := Black);
    ZipUp(u, p0.up, header);
    WalkUp(u, p0.up);
    ghost var g := Up(u, p0.up);
    Paint(x.parent.parent, Red, header, g, q);
    PaintKeeps(g, Red);
    g := g.(color := Red);
    RotateLeftKeeps(g);
    RotateLeft(x.parent.parent, header, g, q);
    g := RotatedLeft(g);
    ZipRight(g, q, header);
    t, p := g.right, InRight(g.left, g.node, Black, q);
    WalkUp(t, p);
  }

  lemma {:induction false} RootIsBlack<V(0)>(t: Tree<Node<V>>, p: Path<Node<V>>, h: nat)
    requires ColoredPath(p, h) && !p.Top?
    ensures Plug(t, p).Bin? && Plug(t, p).color == Black
    decreases p
  {
    if !p.up.Top? {
      RootIsBlack(Up(t, p), p.up, h + if p.color == Black then 1 else 0);
    }
  }

  /** One round of the loop: the parent and the uncle are recoloured, or a rotation mends the tree. */
  method RebalanceStep<V(0)>(x0: Node<V>, header: Node<V>, ghost t0: Tree<Node<V>>, ghost p0: Path<Node<V>>)
      returns (x: Node<V>, ghost t: Tree<Node<V>>, ghost p: Path<Node<V>>)
    requires Zip(t0, p0, header) && RedFocus(t0, p0) && t0.node == x0
    requires x0 != header.parent && x0.parent != null && x0.parent.color == Red
    modifies Nodes(t0), PathNodes(p0), header`parent
    ensures Zip(t, p, header) && RedFocus(t, p) && t.node == x && Walk(t, p) == Walk(t0, p0)
    ensures Nodes(t) + PathNodes(p) == Nodes(t0) + PathNodes(p0) && Depth(p) < Depth(p0)
    ensures x != header.parent ==> x.parent != null
  {
    hide Linked, LinkedPath, Nodes, PathNodes, PathRoot, Proper, ProperPath, Zip, InOrder, Before, After, Walk, Depth;
    hide Colored, ColoredPath, BlackHeight, Recolored;
    x, t, p := x0, t0, p0;
    ZipParts(t, p, header);
    GrandparentBlack(t, p);
    ghost var u, q := Up(t, p), p.up.up;
    ghost var g := Up(u, p.up);
    ZipUp(t, p, header);
    ZipParts(u, p.up, header);
    ZipUp(u, p.up, header);
    ZipParts(g, q, header);
    if x.parent == x.parent.parent.left {
      var y := x.parent.parent.right;
      ZipRight(g, q, header);
      ZipParts(g.right, InRight(g.left, g.node, g.color, q), header);
      if y != null && y.color == Red {
        var grand := x.parent.parent;
        RecolorFamily(x.parent, y, grand, header, g, q);
        RecoloredKeeps(t, p);
        x, t, p := grand, Recolored(g), q;
      } else {
        x, t, p := RestructureLeft(x, header, t, p);
      }
    } else {
      var y := x.parent.parent.left;
      ZipLeft(g, q, header);
      ZipParts(g.left, InLeft(q, g.node, g.color, g.right), header);
      if y != null && y.color == Red {
        var grand := x.parent.parent;
        RecolorFamily(x.parent, y, grand, header, g, q);
        RecoloredKeeps(t, p);
        x, t, p := grand, Recolored(g), q;
      } else {
        x, t, p := RestructureRight(x, header, t, p);
      }
    }
    ZipParts(t, p, header);
  }

  /** Restores the invariant around a newly linked leaf or any other red-black
      subtree whose root is recoloured red. */
  method Rebalance<V(0)>(x0: Node<V>, header: Node<V>, ghost t0: Tree<Node<V>>, ghost p0: Path<Node<V>>)
      returns (ghost s: Tree<Node<V>>)
    requires Zip(t0, p0, header) && t0.Bin? && t0.node == x0
    requires RedFocus(t0.(color := Red), p0)
    modifies Nodes(t0), PathNodes(p0), header`parent
    ensures Zip(s, Top, header) && RedBlack(s)
    ensures InOrder(s) == Walk(t0, p0) && Nodes(s) == Nodes(t0) + PathNodes(p0)
  {
    hide Linked, LinkedPath, Nodes, PathNodes, PathRoot, Proper, ProperPath, Zip, InOrder, Before, After, Walk, Depth;
    hide Colored, ColoredPath, BlackHeight, Recolored;
    var x := x0;
    ghost var t, p := t0, p0;
    assert x == RootNode(t);
    Paint(x, Red, header, t, p);
    PaintKeeps(t, Red);
    WalkDependsOnInOrder(t.(color := Red), t, p);
    t := t.(color := Red);
    ZipParts(t, p, header);
    while x != header.parent && x.parent.color == Red
      invariant Zip(t, p, header) && RedFocus(t, p) && t.node == x
      invariant x != header.parent ==> x.parent != null
      invariant Walk(t, p) == Walk(t0, p0)
      invariant Nodes(t) + PathNodes(p) == Nodes(t0) + PathNodes(p0)
      decreases Depth(p)
    {
      x, t, p := RebalanceStep(x, header, t, p);
    }
    ZipParts(t, p, header);
    s := WholeTree(t, p, header);
    ZipParts(s, Top, header);
    Paint(header.parent, Black, header, s, Top);
    PaintKeeps(s, Black);
    s := s.(color := Black);
  }

  /** Once the conflict is gone, only the colour of the root may be wrong. */
  lemma WholeTree<V(0)>(t: Tree<Node<V>>, p: Path<Node<V>>, header: Node<V>) returns (s: Tree<Node<V>>)
    requires Zip(t, p, header) && RedFocus(t, p) && (p.Top? || p.color == Black)
    ensures Zip(s, Top, header) && s.Bin? && RedBlack(s.(color := Black))
    ensures InOrder(s) == Walk(t, p) && Nodes(s) == Nodes(t) + PathNodes(p)
  {
    ZipTop(t, p, header);
    WalkIsInOrder(t, p);
    s := Plug(t, p);
    if !p.Top? {
      RootIsBlack(t, p, BlackHeight(t));
      ColoredPlug(t, p);
    }
  }

  // ---------- linking a new node ----------

  /** The ends of the walk after a node was put at a null link. */
  lemma EndsWithLeaf<V(0)>(z: Node<V>, p: Path<Node<V>>, header: Node<V>)
    requires ProperPath(p) && header !in PathNodes(p)
    ensures p.InRight? ==> Before(p) != [] && Before(p)[|Before(p)| - 1] == p.node
    ensures p.InLeft? ==> After(p) != [] && After(p)[0] == p.node
    ensures p.InLeft? ==> (First(Before(p) + After(p), header) == p.node <==> Before(p) == [])
    ensures p.InRight? ==> (Last(Before(p) + After(p), header) == p.node <==> After(p) == [])
    ensures p.Top? ==> Before(p) == After(p) == []
  {
    match p
    case Top =>
    case InLeft(up, n, c, r) => PathWalkNodes(up);
    case InRight(l, n, c, up) => PathWalkNodes(up);
  }

  method LinkLeaf<V(0)>(z: Node<V>, y: Node<V>, goLeft: bool, header: Node<V>, ghost p: Path<Node<V>>)
    requires Zip(Nil, p, header) && y == UpNode(p, header) && (goLeft <==> !p.InRight?)
    requires Ends(Before(p) + After(p), header)
    requires z != header && z !in PathNodes(p)
    modifies z`parent, z`left, z`right, PathNodes(p), header`parent, header`left, header`right
    ensures Zip(Bin(Nil, z, z.color, Nil), p, header)
    ensures Ends(Before(p) + [z] + After(p), header)
  {
    EndsWithLeaf(z, p, header);
    if goLeft {
      y.left := z;
      if y == header {
        header.parent := z;
        header.right := z;
      } else if y == header.left {
        header.left := z;
      }
    } else {
      y.right := z;
      if y == header.right {
        header.right := z;
      }
    }
    z.parent := y;
    z.left := null;
    z.right := null;
  }
}
