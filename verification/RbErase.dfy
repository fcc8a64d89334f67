/** Unlinking a node and rebalancing afterwards. */
module RbErase {
  import opened RbShape
  import opened RbNode

  /** `t` with a black root. */
  ghost function Darkened<V(0)>(t: Tree<Node<V>>): Tree<Node<V>> {
    if t.Nil? then t else t.(color := Black)
  }

  /** The focus is one black node short of what its context expects. A red
      root may have a red child: it is about to turn black. */
  ghost predicate Short<V(0)>(f: Tree<Node<V>>, p: Path<Node<V>>) {
    Colored(Darkened(f)) && ColoredPath(p, BlackHeight(f) + 1)
  }

  ghost predicate Mended<V(0)>(f: Tree<Node<V>>, p: Path<Node<V>>) {
    Colored(f) && ColoredPath(p, BlackHeight(f)) && (RootRed(f) ==> FrameBlack(p))
  }

  /** Two foci of the same nodes in the same order. */
  ghost predicate SameNodes<V(0)>(f: Tree<Node<V>>, p: Path<Node<V>>, g: Tree<Node<V>>, q: Path<Node<V>>) {
    Walk(f, p) == Walk(g, q) && Nodes(f) + PathNodes(p) == Nodes(g) + PathNodes(q)
  }

  /** Equal parts make equal walks. */
  lemma SameParts<V(0)>(u: Tree<Node<V>>, v: Tree<Node<V>>)
    requires u.Bin? && v.Bin? && u.node == v.node
    requires InOrder(u.left) == InOrder(v.left) && InOrder(u.right) == InOrder(v.right)
    requires Nodes(u.left) == Nodes(v.left) && Nodes(u.right) == Nodes(v.right)
    ensures InOrder(u) == InOrder(v) && Nodes(u) == Nodes(v)
  {
  }

  lemma SiblingExists<V(0)>(f: Tree<Node<V>>, p: Path<Node<V>>)
    requires Short(f, p) && !RootRed(f) && !p.Top?
    ensures p.InLeft? ==> p.right.Bin?
    ensures p.InRight? ==> p.left.Bin?
  {
  }

  /** The colours that the fields of the sibling and its children hold. */
  lemma ZipSibling<V(0)>(f: Tree<Node<V>>, p: Path<Node<V>>, header: Node<V>)
    requires Zip(f, p, header) && !p.Top?
    ensures var s := if p.InLeft? then p.right else p.left;
            s.Bin? ==> (
                && s.node in PathNodes(p) && s.node.color == s.color
                && s.node.left == RootNode(s.left) && s.node.right == RootNode(s.right)
                && (s.left.Bin? ==> s.left.node.color == s.left.color)
                && (s.right.Bin? ==> s.right.node.color == s.right.color))
  {
    var s := if p.InLeft? then p.right else p.left;
    if s.Bin? {
      assert Linked(s, p.node) && Linked(s.left, s.node) && Linked(s.right, s.node);
    }
  }

  /** A short null focus cannot be mistaken for its sibling: the sibling is not null. */
  lemma FocusSide<V(0)>(f: Tree<Node<V>>, p: Path<Node<V>>, header: Node<V>)
    requires Zip(f, p, header) && Short(f, p) && !RootRed(f) && !p.Top?
    ensures p.InLeft? <==> RootNode(f) == p.node.left
  {
    SiblingExists(f, p);
    ZipParts(f, p, header);
  }

  /** The colours of a black subtree allow its red left child to be rotated up. */
  lemma RaiseLeftColored<V(0)>(t: Tree<Node<V>>)
    requires Colored(t) && t.Bin? && t.color == Black && RootRed(t.left) && !RootRed(t.right)
    ensures var s := RotatedRight(Bin(t.left.(color := Black), t.node, Red, t.right));
            Colored(s) && s.color == Black && RootRed(s.right) && BlackHeight(s) == BlackHeight(t)
  {
    assert Colored(t.left.left) && Colored(t.left.right);
  }

  /** The sibling of a short left focus is red: rotate it above the parent. */
  method RedSiblingOfLeft<V(0)>(n: Node<V>, w0: Node<V>, header: Node<V>, ghost f: Tree<Node<V>>,
                            ghost p: Path<Node<V>>)
      returns (w: Node<V>, ghost q: Path<Node<V>>)
    requires Zip(f, p, header) && Short(f, p) && !RootRed(f)
    requires p.InLeft? && p.node == n && RootRed(p.right) && p.right.node == w0
    modifies Nodes(f), PathNodes(p), header`parent
    ensures Zip(f, q, header) && Short(f, q) && SameNodes(f, q, f, p)
    ensures q.InLeft? && q.node == n && q.color == Red
    ensures !RootRed(q.right) && q.right.Bin? && q.right.node == w
  {
    hide Linked, LinkedPath, Nodes, PathNodes, Proper, ProperPath, PathRoot, Zip, InOrder, Before, After;
    ghost var u, up := Up(f, p), p.up;
    ghost var sib := p.right;
    assert w0 == RootNode(sib) && n == UpNode(p, header);
    ZipUp(f, p, header);
    WalkUp(f, p);
    ZipRight(u, up, header);
    ghost var at := InRight(f, n, p.color, up);
    Paint(w0, Black, header, sib, at);
    PaintKeeps(sib, Black);
    sib := sib.(color := Black);
    ZipUp(sib, at, header);
    ghost var v := Bin(f, n, p.color, sib);
    Paint(n, Red, header, v, up);
    v := v.(color := Red);
    SameParts(u, v);
    RotateLeft(n, header, v, up);
    RotateLeftKeeps(v);
    ghost var r := RotatedLeft(v);
    ZipLeft(r, up, header);
    ghost var above := InLeft(up, r.node, Black, r.right);
    ZipLeft(r.left, above, header);
    q := InLeft(above, n, Red, sib.left);
    ZipParts(f, q, header);
    w := n.right;
    assert ColoredPath(above, BlackHeight(f) + 1);
    WalkUp(f, q);
    WalkUp(r.left, above);
  }

  /** Only the nephew next to a short left focus is red: rotate it above the sibling. */
  method NearNephewOfLeft<V(0)>(n: Node<V>, w0: Node<V>, header: Node<V>, ghost f: Tree<Node<V>>,
                            ghost p: Path<Node<V>>)
      returns (w: Node<V>, ghost q: Path<Node<V>>)
    requires Zip(f, p, header) && Short(f, p) && !RootRed(f)
    requires p.InLeft? && p.node == n && p.right.Bin? && p.right.color == Black && p.right.node == w0
    requires RootRed(p.right.left) && !RootRed(p.right.right)
    modifies Nodes(f), PathNodes(p), header`parent
    ensures Zip(f, q, header) && Short(f, q) && SameNodes(f, q, f, p)
    ensures q.InLeft? && q.node == n && q.color == p.color && q.up == p.up
    ensures q.right.Bin? && q.right.color == Black && q.right.node == w && RootRed(q.right.right)
  {
    hide Linked, LinkedPath, Nodes, PathNodes, Proper, ProperPath, PathRoot, Zip, InOrder, Before, After;
    ghost var u, up := Up(f, p), p.up;
    ghost var sib := p.right;
    assert w0 == RootNode(sib) && n == UpNode(p, header);
    ZipUp(f, p, header);
    WalkUp(f, p);
    ghost var at := InRight(f, n, p.color, up);
    ZipRight(u, up, header);
    ZipParts(sib, at, header);
    ghost var atNear := InLeft(at, w0, Black, sib.right);
    ZipLeft(sib, at, header);
    assert sib.left.node == RootNode(sib.left);
    if w0.left != null {
      Paint(w0.left, Black, header, sib.left, atNear);
    }
    PaintKeeps(sib.left, Black);
    ghost var s1 := Bin(sib.left.(color := Black), w0, Black, sib.right);
    SameParts(sib, s1);
    ZipUp(sib.left.(color := Black), atNear, header);
    Paint(w0, Red, header, s1, at);
    ghost var s2 := s1.(color := Red);
    SameParts(s1, s2);
    RotateRight(w0, header, s2, at);
    RotateRightKeeps(s2);
    ghost var s3 := RotatedRight(s2);
    RaiseLeftColored(sib);
    ZipUp(s3, at, header);
    ghost var v := Bin(f, n, p.color, s3);
    SameParts(u, v);
    ZipLeft(v, up, header);
    q := InLeft(up, n, p.color, s3);
    ZipParts(f, q, header);
    w := n.right;
    WalkUp(f, q);
  }

  /** The far nephew of a short left focus is red: one rotation ends the repair. */
  method FarNephewOfLeft<V(0)>(n: Node<V>, w: Node<V>, header: Node<V>, ghost f: Tree<Node<V>>, ghost p: Path<Node<V>>)
      returns (ghost q: Path<Node<V>>)
    requires Zip(f, p, header) && Short(f, p) && !RootRed(f)
    requires p.InLeft? && p.node == n && p.right.Bin? && p.right.color == Black && p.right.node == w
    requires RootRed(p.right.right)
    modifies Nodes(f), PathNodes(p), header`parent
    ensures Zip(f, q, header) && Mended(f, q) && SameNodes(f, q, f, p)
  {
    hide Linked, LinkedPath, Nodes, PathNodes, Proper, ProperPath, PathRoot, Zip, InOrder, Before, After;
    ghost var u, up := Up(f, p), p.up;
    ghost var sib := p.right;
    assert w == RootNode(sib) && n == UpNode(p, header);
    assert Colored(sib.right) && BlackHeight(sib.right) == BlackHeight(f);
    ZipParts(f, p, header);
    ZipUp(f, p, header);
    WalkUp(f, p);
    ghost var at := InRight(f, n, p.color, up);
    ZipRight(u, up, header);
    Paint(w, n.color, header, sib, at);
    ghost var s1 := sib.(color := p.color);
    ZipUp(s1, at, header);
    PaintKeeps(sib, p.color);
    ghost var v1 := Bin(f, n, p.color, s1);
    Paint(n, Black, header, v1, up);
    ghost var v2 := v1.(color := Black);
    SameParts(u, v2);
    ghost var at2 := InRight(f, n, Black, up);
    ZipRight(v2, up, header);
    ZipParts(s1, at2, header);
    ghost var atFar := InRight(s1.left, w, p.color, at2);
    ZipRight(s1, at2, header);
    assert s1.right.node == RootNode(s1.right);
    if w.right != null {
      Paint(w.right, Black, header, s1.right, atFar);
    }
    PaintKeeps(s1.right, Black);
    ghost var s2 := Bin(s1.left, w, p.color, s1.right.(color := Black));
    SameParts(sib, s2);
    ZipUp(s1.right.(color := Black), atFar, header);
    ZipUp(s2, at2, header);
    ghost var v3 := Bin(f, n, Black, s2);
    SameParts(u, v3);
    RotateLeft(n, header, v3, up);
    RotateLeftKeeps(v3);
    ghost var r := RotatedLeft(v3);
    ZipLeft(r, up, header);
    ghost var above := InLeft(up, w, p.color, r.right);
    ZipLeft(r.left, above, header);
    q := InLeft(above, n, Black, s2.left);
    WalkUp(f, q);
    WalkUp(r.left, above);
    assert ColoredPath(above, BlackHeight(f) + 1);
  }

  /** Sibling and nephews of a short left focus are black: the parent becomes the short focus. */
  method BlackNephewsOfLeft<V(0)>(n: Node<V>, w: Node<V>, header: Node<V>, ghost f: Tree<Node<V>>,
                              ghost p: Path<Node<V>>)
      returns (ghost g: Tree<Node<V>>, ghost q: Path<Node<V>>)
    requires Zip(f, p, header) && Short(f, p) && !RootRed(f)
    requires p.InLeft? && p.node == n && p.right.Bin? && p.right.color == Black && p.right.node == w
    requires !RootRed(p.right.left) && !RootRed(p.right.right)
    modifies w`color
    ensures Zip(g, q, header) && Short(g, q) && SameNodes(g, q, f, p)
    ensures g.Bin? && g.node == n && n.parent == UpNode(q, header) && n.color == g.color == p.color
    ensures n == header.parent <==> q.Top?
    ensures Depth(q) < Depth(p) && q == p.up
  {
    hide Linked, LinkedPath, Nodes, PathNodes, Proper, ProperPath, PathRoot, Zip, InOrder, Before, After;
    ghost var u := Up(f, p);
    q := p.up;
    ghost var sib := p.right;
    assert w == RootNode(sib) && n == UpNode(p, header);
    ZipUp(f, p, header);
    WalkUp(f, p);
    ghost var at := InRight(f, n, p.color, q);
    ZipRight(u, q, header);
    Paint(w, Red, header, sib, at);
    PaintKeeps(sib, Red);
    ghost var s1 := sib.(color := Red);
    ZipUp(s1, at, header);
    g := Bin(f, n, p.color, s1);
    SameParts(u, g);
    assert Colored(sib.left) && Colored(sib.right) && Colored(s1) && BlackHeight(s1) == BlackHeight(f);
    ZipParts(g, q, header);
  }

  /** One round of the repair loop for a left focus; `done` stands for the break. */
  method MendLeft<V(0)>(x0: Node?<V>, xParent0: Node<V>, header: Node<V>, ghost f0: Tree<Node<V>>,
                    ghost p0: Path<Node<V>>)
      returns (x: Node?<V>, xParent: Node<V>, done: bool, ghost f: Tree<Node<V>>, ghost p: Path<Node<V>>)
    requires Zip(f0, p0, header) && Short(f0, p0) && !RootRed(f0) && p0.InLeft?
    requires x0 == RootNode(f0) && xParent0 == p0.node
    modifies Nodes(f0), PathNodes(p0), header`parent
    ensures Zip(f, p, header) && SameNodes(f, p, f0, p0)
    ensures x == RootNode(f)
    ensures if done then Mended(f, p) && !RootRed(f)
            else Short(f, p) && xParent == UpNode(p, header) && (RootRed(f) || Depth(p) < Depth(p0))
  {
    hide Linked, LinkedPath, Nodes, PathNodes, Proper, ProperPath, PathRoot, Zip, InOrder, Before, After, Walk;
    x, xParent, f, p := x0, xParent0, f0, p0;
    SiblingExists(f, p);
    ZipParts(f, p, header);
    ZipSibling(f, p, header);
    var w := xParent.right;
    if w.color == Red {
      w, p := RedSiblingOfLeft(xParent, w, header, f, p);
      ZipSibling(f, p, header);
    }
    if (w.left == null || w.left.color == Black) && (w.right == null || w.right.color == Black) {
      f, p := BlackNephewsOfLeft(xParent, w, header, f, p);
      x := xParent;
      xParent := xParent.parent;
      done := false;
    } else {
      if w.right == null || w.right.color == Black {
        w, p := NearNephewOfLeft(xParent, w, header, f, p);
      }
      p := FarNephewOfLeft(xParent, w, header, f, p);
      done := true;
    }
  }

  /** The colours of a black subtree allow its red right child to be rotated up. */
  lemma RaiseRightColored<V(0)>(t: Tree<Node<V>>)
    requires Colored(t) && t.Bin? && t.color == Black && RootRed(t.right) && !RootRed(t.left)
    ensures var s := RotatedLeft(Bin(t.left, t.node, Red, t.right.(color := Black)));
            Colored(s) && s.color == Black && RootRed(s.left) && BlackHeight(s) == BlackHeight(t)
  {
    assert Colored(t.right.right) && Colored(t.right.left);
  }

  /** The sibling of a short right focus is red: rotate it above the parent. */
  method RedSiblingOfRight<V(0)>(n: Node<V>, w0: Node<V>, header: Node<V>, ghost f: Tree<Node<V>>,
                             ghost p: Path<Node<V>>)
      returns (w: Node<V>, ghost q: Path<Node<V>>)
    requires Zip(f, p, header) && Short(f, p) && !RootRed(f)
    requires p.InRight? && p.node == n && RootRed(p.left) && p.left.node == w0
    modifies Nodes(f), PathNodes(p), header`parent
    ensures Zip(f, q, header) && Short(f, q) && SameNodes(f, q, f, p)
    ensures q.InRight? && q.node == n && q.color == Red
    ensures !RootRed(q.left) && q.left.Bin? && q.left.node == w
  {
    hide Linked, LinkedPath, Nodes, PathNodes, Proper, ProperPath, PathRoot, Zip, InOrder, Before, After;
    ghost var u, up := Up(f, p), p.up;
    ghost var sib := p.left;
    assert w0 == RootNode(sib) && n == UpNode(p, header);
    ZipUp(f, p, header);
    WalkUp(f, p);
    ZipLeft(u, up, header);
    ghost var at := InLeft(up, n, p.color, f);
    Paint(w0, Black, header, sib, at);
    PaintKeeps(sib, Black);
    sib := sib.(color := Black);
    ZipUp(sib, at, header);
    ghost var v := Bin(sib, n, p.color, f);
    Paint(n, Red, header, v, up);
    v := v.(color := Red);
    SameParts(u, v);
    RotateRight(n, header, v, up);
    RotateRightKeeps(v);
    ghost var r := RotatedRight(v);
    ZipRight(r, up, header);
    ghost var above := InRight(r.left, r.node, Black, up);
    ZipRight(r.right, above, header);
    q := InRight(sib.right, n, Red, above);
    ZipParts(f, q, header);
    w := n.left;
    assert ColoredPath(above, BlackHeight(f) + 1);
    WalkUp(f, q);
    WalkUp(r.right, above);
  }

  /** Only the nephew next to a short right focus is red: rotate it above the sibling. */
  method NearNephewOfRight<V(0)>(n: Node<V>, w0: Node<V>, header: Node<V>, ghost f: Tree<Node<V>>,
                             ghost p: Path<Node<V>>)
      returns (w: Node<V>, ghost q: Path<Node<V>>)
    requires Zip(f, p, header) && Short(f, p) && !RootRed(f)
    requires p.InRight? && p.node == n && p.left.Bin? && p.left.color == Black && p.left.node == w0
    requires RootRed(p.left.right) && !RootRed(p.left.left)
    modifies Nodes(f), PathNodes(p), header`parent
    ensures Zip(f, q, header) && Short(f, q) && SameNodes(f, q, f, p)
    ensures q.InRight? && q.node == n && q.color == p.color && q.up == p.up
    ensures q.left.Bin? && q.left.color == Black && q.left.node == w && RootRed(q.left.left)
  {
    hide Linked, LinkedPath, Nodes, PathNodes, Proper, ProperPath, PathRoot, Zip, InOrder, Before, After;
    ghost var u, up := Up(f, p), p.up;
    ghost var sib := p.left;
    assert w0 == RootNode(sib) && n == UpNode(p, header);
    ZipUp(f, p, header);
    WalkUp(f, p);
    ghost var at := InLeft(up, n, p.color, f);
    ZipLeft(u, up, header);
    ZipParts(sib, at, header);
    ghost var atNear := InRight(sib.left, w0, Black, at);
    ZipRight(sib, at, header);
    assert sib.right.node == RootNode(sib.right);
    if w0.right != null {
      Paint(w0.right, Black, header, sib.right, atNear);
    }
    PaintKeeps(sib.right, Black);
    ghost var s1 := Bin(sib.left, w0, Black, sib.right.(color := Black));
    SameParts(sib, s1);
    ZipUp(sib.right.(color := Black), atNear, header);
    Paint(w0, Red, header, s1, at);
    ghost var s2 := s1.(color := Red);
    SameParts(s1, s2);
    RotateLeft(w0, header, s2, at);
    RotateLeftKeeps(s2);
    ghost var s3 := RotatedLeft(s2);
    RaiseRightColored(sib);
    ZipUp(s3, at, header);
    ghost var v := Bin(s3, n, p.color, f);
    SameParts(u, v);
    ZipRight(v, up, header);
    q := InRight(s3, n, p.color, up);
    ZipParts(f, q, header);
    w := n.left;
    WalkUp(f, q);
  }

  /** The far nephew of a short right focus is red: one rotation ends the repair. */
  method FarNephewOfRight<V(0)>(n: Node<V>, w: Node<V>, header: Node<V>, ghost f: Tree<Node<V>>, ghost p: Path<Node<V>>)
      returns (ghost q: Path<Node<V>>)
    requires Zip(f, p, header) && Short(f, p) && !RootRed(f)
    requires p.InRight? && p.node == n && p.left.Bin? && p.left.color == Black && p.left.node == w
    requires RootRed(p.left.left)
    modifies Nodes(f), PathNodes(p), header`parent
    ensures Zip(f, q, header) && Mended(f, q) && SameNodes(f, q, f, p)
  {
    hide Linked, LinkedPath, Nodes, PathNodes, Proper, ProperPath, PathRoot, Zip, InOrder, Before, After;
    ghost var u, up := Up(f, p), p.up;
    ghost var sib := p.left;
    assert w == RootNode(sib) && n == UpNode(p, header);
    assert Colored(sib.left) && BlackHeight(sib.left) == BlackHeight(f);
    ZipParts(f, p, header);
    ZipUp(f, p, header);
    WalkUp(f, p);
    ghost var at := InLeft(up, n, p.color, f);
    ZipLeft(u, up, header);
    Paint(w, n.color, header, sib, at);
    ghost var s1 := sib.(color := p.color);
    ZipUp(s1, at, header);
    PaintKeeps(sib, p.color);
    ghost var v1 := Bin(s1, n, p.color, f);
    Paint(n, Black, header, v1, up);
    ghost var v2 := v1.(color := Black);
    SameParts(u, v2);
    ghost var at2 := InLeft(up, n, Black, f);
    ZipLeft(v2, up, header);
    ZipParts(s1, at2, header);
    ghost var atFar := InLeft(at2, w, p.color, s1.right);
    ZipLeft(s1, at2, header);
    assert s1.left.node == RootNode(s1.left);
    if w.left != null {
      Paint(w.left, Black, header, s1.left, atFar);
    }
    PaintKeeps(s1.left, Black);
    ghost var s2 := Bin(s1.left.(color := Black), w, p.color, s1.right);
    SameParts(sib, s2);
    ZipUp(s1.left.(color := Black), atFar, header);
    ZipUp(s2, at2, header);
    ghost var v3 := Bin(s2, n, Black, f);
    SameParts(u, v3);
    RotateRight(n, header, v3, up);
    RotateRightKeeps(v3);
    ghost var r := RotatedRight(v3);
    ZipRight(r, up, header);
    ghost var above := InRight(r.left, w, p.color, up);
    ZipRight(r.right, above, header);
    q := InRight(s2.right, n, Black, above);
    WalkUp(f, q);
    WalkUp(r.right, above);
    assert ColoredPath(above, BlackHeight(f) + 1);
  }

  /** Sibling and nephews of a short right focus are black: the parent becomes the short focus. */
  method BlackNephewsOfRight<V(0)>(n: Node<V>, w: Node<V>, header: Node<V>, ghost f: Tree<Node<V>>,
                               ghost p: Path<Node<V>>)
      returns (ghost g: Tree<Node<V>>, ghost q: Path<Node<V>>)
    requires Zip(f, p, header) && Short(f, p) && !RootRed(f)
    requires p.InRight? && p.node == n && p.left.Bin? && p.left.color == Black && p.left.node == w
    requires !RootRed(p.left.right) && !RootRed(p.left.left)
    modifies w`color
    ensures Zip(g, q, header) && Short(g, q) && SameNodes(g, q, f, p)
    ensures g.Bin? && g.node == n && n.parent == UpNode(q, header) && n.color == g.color == p.color
    ensures n == header.parent <==> q.Top?
    ensures Depth(q) < Depth(p) && q == p.up
  {
    hide Linked, LinkedPath, Nodes, PathNodes, Proper, ProperPath, PathRoot, Zip, InOrder, Before, After;
    ghost var u := Up(f, p);
    q := p.up;
    ghost var sib := p.left;
    assert w == RootNode(sib) && n == UpNode(p, header);
    ZipUp(f, p, header);
    WalkUp(f, p);
    ghost var at := InLeft(q, n, p.color, f);
    ZipLeft(u, q, header);
    Paint(w, Red, header, sib, at);
    PaintKeeps(sib, Red);
    ghost var s1 := sib.(color := Red);
    ZipUp(s1, at, header);
    g := Bin(s1, n, p.color, f);
    SameParts(u, g);
    assert Colored(sib.left) && Colored(sib.right) && Colored(s1) && BlackHeight(s1) == BlackHeight(f);
    ZipParts(g, q, header);
  }

  /** One round of the repair loop for a right focus; `done` stands for the break. */
  method MendRight<V(0)>(x0: Node?<V>, xParent0: Node<V>, header: Node<V>, ghost f0: Tree<Node<V>>,
                     ghost p0: Path<Node<V>>)
      returns (x: Node?<V>, xParent: Node<V>, done: bool, ghost f: Tree<Node<V>>, ghost p: Path<Node<V>>)
    requires Zip(f0, p0, header) && Short(f0, p0) && !RootRed(f0) && p0.InRight?
    requires x0 == RootNode(f0) && xParent0 == p0.node
    modifies Nodes(f0), PathNodes(p0), header`parent
    ensures Zip(f, p, header) && SameNodes(f, p, f0, p0)
    ensures x == RootNode(f)
    ensures if done then Mended(f, p) && !RootRed(f)
            else Short(f, p) && xParent == UpNode(p, header) && (RootRed(f) || Depth(p) < Depth(p0))
  {
    hide Linked, LinkedPath, Nodes, PathNodes, Proper, ProperPath, PathRoot, Zip, InOrder, Before, After, Walk;
    x, xParent, f, p := x0, xParent0, f0, p0;
    SiblingExists(f, p);
    ZipParts(f, p, header);
    ZipSibling(f, p, header);
    var w := xParent.left;
    if w.color == Red {
      w, p := RedSiblingOfRight(xParent, w, header, f, p);
      ZipSibling(f, p, header);
    }
    if (w.right == null || w.right.color == Black) && (w.left == null || w.left.color == Black) {
      f, p := BlackNephewsOfRight(xParent, w, header, f, p);
      x := xParent;
      xParent := xParent.parent;
      done := false;
    } else {
      if w.left == null || w.left.color == Black {
        w, p := NearNephewOfRight(xParent, w, header, f, p);
      }
      p := FarNephewOfRight(xParent, w, header, f, p);
      done := true;
    }
  }

  /** The repair loop: `x`, possibly null, is the root of a subtree that is one
      black node short. */
  method MendShort<V(0)>(x0: Node?<V>, xParent0: Node<V>, header: Node<V>, ghost f0: Tree<Node<V>>,
                     ghost p0: Path<Node<V>>)
      returns (ghost s: Tree<Node<V>>)
    requires Zip(f0, p0, header) && Short(f0, p0)
    requires x0 == RootNode(f0) && xParent0 == UpNode(p0, header)
    modifies Nodes(f0), PathNodes(p0), header`parent
    ensures Zip(s, Top, header) && RedBlack(s)
    ensures InOrder(s) == Walk(f0, p0) && Nodes(s) == Nodes(f0) + PathNodes(p0)
  {
    hide Linked, LinkedPath, Nodes, PathNodes, Proper, ProperPath, PathRoot, Zip, InOrder, Before, After, Walk, Depth;
    hide Short, Mended, Colored, ColoredPath;
    var x, xParent, done := x0, xParent0, false;
    ghost var f, p := f0, p0;
    ZipParts(f, p, header);
    while x != header.parent && (x == null || x.color == Black)
      invariant Zip(f, p, header) && Short(f, p) && SameNodes(f, p, f0, p0)
      invariant x == RootNode(f) && xParent == UpNode(p, header)
      decreases if RootRed(f) then 0 else 1 + Depth(p)
    {
      ZipParts(f, p, header);
      FocusSide(f, p, header);
      if x == xParent.left {
        x, xParent, done, f, p := MendLeft(x, xParent, header, f, p);
      } else {
        x, xParent, done, f, p := MendRight(x, xParent, header, f, p);
      }
      if done {
        break;
      }
    }
    ZipParts(f, p, header);
    if x != null {
      Paint(x, Black, header, f, p);
      PaintKeeps(f, Black);
    }
    ghost var g := if f.Nil? then f else f.(color := Black);
    WalkDependsOnInOrder(f, g, p);
    ZipTop(g, p, header);
    WalkIsInOrder(g, p);
    MendedIsRedBlack(f, p);
    s := Plug(g, p);
  }

  lemma MendedIsRedBlack<V(0)>(f: Tree<Node<V>>, p: Path<Node<V>>)
    requires (Mended(f, p) && !RootRed(f)) || (Short(f, p) && (p.Top? || RootRed(f)))
    ensures RedBlack(Plug(if f.Nil? then f else f.(color := Black), p))
  {
    var g := if f.Nil? then f else f.(color := Black);
    if !p.Top? {
      ColoredPlug(g, p);
    }
  }
}
