/** Taking a node out of the tree, with its successor relinked into its place. */
module RbUnlink {
  import opened RbShape
  import opened RbNode
  import opened RbEnds
  import opened RbErase

  lemma {:induction false} LinkedPlug<V(0)>(t: Tree<Node<V>>, p: Path<Node<V>>, top: Node<V>)
    ensures Linked(Plug(t, p), top) <==> Linked(t, UpNode(p, top)) && LinkedPath(p, top, RootNode(t))
    ensures RootNode(Plug(t, p)) == PathRoot(p, RootNode(t))
    decreases p
  {
    if !p.Top? {
      LinkedPlug(Up(t, p), p.up, top);
    }
  }

  lemma {:induction false} ZipInto<V(0)>(t: Tree<Node<V>>, q: Path<Node<V>>, p: Path<Node<V>>, header: Node<V>)
    requires Zip(Plug(t, q), p, header)
    ensures Zip(t, Append(q, p), header)
    ensures Nodes(t) + PathNodes(Append(q, p)) == Nodes(Plug(t, q)) + PathNodes(p)
    decreases q
  {
    if !q.Top? {
      ZipInto(Up(t, q), q.up, p, header);
      if q.InLeft? {
        ZipLeft(Up(t, q), Append(q.up, p), header);
      } else {
        ZipRight(Up(t, q), Append(q.up, p), header);
      }
    }
  }

  /** Unlinks the successor `y` of `z`, which is deeper than the right child of `z`,
      and gives it the right subtree of `z`. */
  method DetachSuccessor<V(0)>(z: Node<V>, y: Node<V>, x: Node?<V>, ghost yr: Tree<Node<V>>, ghost q: Path<Node<V>>)
    requires ProperPath(q) && Proper(yr) && q.InLeft?
    requires Nodes(yr) !! PathNodes(q) && y !in Nodes(yr) && y !in PathNodes(q) && z !in Nodes(yr) &&
      z !in PathNodes(q) && y != z
    requires x == RootNode(yr) && Linked(yr, y) && LinkedPath(q, z, y)
    requires y.parent == UpNode(q, z) && z.right == PathRoot(q, y)
    modifies y`right, Nodes(yr), PathNodes(q)
    ensures Linked(Plug(yr, q), y) && y.right == RootNode(Plug(yr, q))
  {
    assert allocated(PathNodes(q));
    SetParent(x, y.parent, yr, y);
    assert LinkedPath(q, z, y);
    y.parent.left := x;
    assert Linked(yr, UpNode(q, z)) && LinkedPath(q, z, x);
    LinkedPlug(yr, q, z);
    PlugNodes(yr, q);
    y.right := z.right;
    assert PathRoot(q, y) == PathRoot(q, x);
    assert Linked(Plug(yr, q), z);
    SetParent(z.right, y, Plug(yr, q), z);
  }

  /** Gives the successor `y` of `z` the rest `s` of the right subtree of `z`. */
  method RaiseSuccessor<V(0)>(z: Node<V>, y: Node<V>, x: Node?<V>, ghost yr: Tree<Node<V>>, ghost q: Path<Node<V>>,
                          ghost s: Tree<Node<V>>)
      returns (xParent: Node<V>)
    requires s == Plug(yr, q) && LeftSpine(q)
    requires ProperPath(q) && Proper(yr) && Nodes(s) == Nodes(yr) + PathNodes(q)
    requires Nodes(yr) !! PathNodes(q) && y !in Nodes(s) && z !in Nodes(s) && y != z
    requires x == RootNode(yr) && Linked(yr, y) && LinkedPath(q, z, y)
    requires y.parent == UpNode(q, z) && z.right == PathRoot(q, y) && y.right == RootNode(yr)
    modifies y`right, Nodes(s)
    ensures Linked(s, y) && y.right == RootNode(s)
    ensures xParent == UpNode(q, y)
  {
    if y != z.right {
      xParent := y.parent;
      DetachSuccessor(z, y, x, yr, q);
    } else {
      xParent := y;
    }
  }

  ghost predicate LeftSpine<N>(q: Path<N>) {
    q.Top? || (q.InLeft? && LeftSpine(q.up))
  }

  /** Relinks `y`, the leftmost node of the right subtree `Plug(m, q)` of `z`, in
      place of `z`; `xParent` is where the repair starts. */
  method RelinkSuccessor<V(0)>(z: Node<V>, y: Node<V>, x: Node?<V>, header: Node<V>,
                               ghost t: Tree<Node<V>>, ghost p: Path<Node<V>>,
                               ghost m: Tree<Node<V>>, ghost q: Path<Node<V>>)
      returns (xParent: Node<V>)
    requires Zip(t, p, header) && t.Bin? && t.node == z && t.left.Bin?
    requires t.right == Plug(m, q) && LeftSpine(q)
    requires m.Bin? && m.left.Nil? && m.node == y && x == RootNode(m.right)
    modifies Nodes(t), PathNodes(p), header`parent
    ensures Zip(Bin(t.left, y, t.color, Plug(m.right, q)), p, header)
    ensures z.color == m.color
    ensures xParent == UpNode(q, y)
  {
    hide Linked, LinkedPath, Nodes, PathNodes, Proper, ProperPath, PathRoot, Plug, Zip, ProperZip;
    ghost var l, r, s := t.left, t.right, Plug(m.right, q);
    ZipParts(t, p, header);
    ZipProper(t, p, header);
    SuccessorLinks(z, y, header, t, p, m, q);
    SuccessorApart(z, y, t, p, m, q, s);
    assert allocated(Nodes(l)) && allocated(Nodes(s)) && allocated(PathNodes(p)) && allocated(PathNodes(q)) &&
      allocated(Nodes(m.right));
    SetParent(z.left, y, l, z);
    y.left := z.left;
    xParent := RaiseSuccessor(z, y, x, m.right, q, s);
    TakePlace(z, y, header, l, s, p);
  }

  /** `y`, which already holds the subtrees `l` and `s`, replaces `z` and its colour. */
  method TakePlace<V(0)>(z: Node<V>, y: Node<V>, header: Node<V>, ghost l: Tree<Node<V>>, ghost s: Tree<Node<V>>,
                     ghost p: Path<Node<V>>)
    requires Linked(l, y) && Linked(s, y) && LinkedPath(p, header, z) && header.parent == PathRoot(p, z)
    requires y.left == RootNode(l) && y.right == RootNode(s) && z.parent == UpNode(p, header)
    requires Proper(l) && Proper(s) && ProperPath(p)
    requires y != header && y != z && z != header && Outside(y, l, s, p) && Outside(z, l, s, p)
    requires Nodes(l) !! Nodes(s) && Nodes(l) !! PathNodes(p) && Nodes(s) !! PathNodes(p)
    requires header !in Nodes(l) && header !in Nodes(s) && header !in PathNodes(p)
    modifies header`parent, PathNodes(p), y`parent, y`color, z`color
    ensures Zip(Bin(l, y, old(z.color), s), p, header)
    ensures z.color == old(y.color)
  {
    hide Linked, LinkedPath, Nodes, PathNodes, Proper, ProperPath, PathRoot, Zip;
    assert allocated(Nodes(l)) && allocated(Nodes(s));
    ReplaceChild(z, y, header, p);
    y.parent := z.parent;
    y.color, z.color := z.color, y.color;
    SuccessorLinked(y, header, l, old(z.color), s, p);
  }

  lemma ZipLinked<V(0)>(t: Tree<Node<V>>, p: Path<Node<V>>, header: Node<V>)
    requires Zip(t, p, header)
    ensures Linked(t, UpNode(p, header)) && LinkedPath(p, header, RootNode(t)) &&
      header.parent == PathRoot(p, RootNode(t))
  {
  }

  lemma LinkedParts<V(0)>(t: Tree<Node<V>>, up: Node<V>)
    requires Linked(t, up) && t.Bin?
    ensures t.node.color == t.color && t.node.parent == up
    ensures t.node.left == RootNode(t.left) && t.node.right == RootNode(t.right)
    ensures Linked(t.left, t.node) && Linked(t.right, t.node)
  {
  }

  lemma PathRootTop<V(0)>(q: Path<Node<V>>, y: Node<V>)
    ensures if q.Top? then PathRoot(q, y) == y else PathRoot(q, y) in PathNodes(q)
  {
  }

  lemma ZipProper<V(0)>(t: Tree<Node<V>>, p: Path<Node<V>>, header: Node<V>)
    requires Zip(t, p, header)
    ensures ProperZip(t, p)
  {
  }

  lemma SuccessorLinked<V(0)>(y: Node<V>, header: Node<V>, l: Tree<Node<V>>, c: Color, s: Tree<Node<V>>,
                          p: Path<Node<V>>)
    requires Linked(l, y) && Linked(s, y) && LinkedPath(p, header, y) && header.parent == PathRoot(p, y)
    requires y.left == RootNode(l) && y.right == RootNode(s) && y.parent == UpNode(p, header) && y.color == c
    requires Proper(l) && Proper(s) && ProperPath(p)
    requires y != header && y !in Nodes(l) && y !in Nodes(s) && y !in PathNodes(p)
    requires Nodes(l) !! Nodes(s) && Nodes(l) !! PathNodes(p) && Nodes(s) !! PathNodes(p)
    requires header !in Nodes(l) && header !in Nodes(s) && header !in PathNodes(p)
    ensures Zip(Bin(l, y, c, s), p, header)
  {
  }

  /** What the fields around `z` and its successor `y` hold. */
  lemma SuccessorLinks<V(0)>(z: Node<V>, y: Node<V>, header: Node<V>, t: Tree<Node<V>>, p: Path<Node<V>>,
                             m: Tree<Node<V>>, q: Path<Node<V>>)
    requires Zip(t, p, header) && t.Bin? && t.node == z
    requires t.right == Plug(m, q)
    requires m.Bin? && m.left.Nil? && m.node == y
    ensures z.left == RootNode(t.left) && Linked(t.left, z) && z.parent == UpNode(p, header) && z.color == t.color
    ensures LinkedPath(p, header, z) && header.parent == PathRoot(p, z)
    ensures y.color == m.color && y.parent == UpNode(q, z) && y.right == RootNode(m.right) && Linked(m.right, y)
    ensures LinkedPath(q, z, y) && z.right == PathRoot(q, y)
    ensures if q.Top? then z.right == y else z.right in PathNodes(q)
  {
    hide Linked, LinkedPath, Nodes, PathNodes, Proper, ProperPath, PathRoot, Plug, Zip;
    ZipLinked(t, p, header);
    LinkedParts(t, UpNode(p, header));
    LinkedPlug(m, q, z);
    LinkedParts(m, UpNode(q, z));
    PathRootTop(q, y);
  }

  /** Neither `z` nor its successor `y` occurs in the three parts that stay. */
  ghost predicate Outside<V(0)>(n: Node<V>, l: Tree<Node<V>>, s: Tree<Node<V>>, p: Path<Node<V>>) {
    n !in Nodes(l) && n !in Nodes(s) && n !in PathNodes(p)
  }

  /** Taking out the leftmost node leaves the other identities. */
  lemma WithoutLeftmost<N>(m: Tree<N>, q: Path<N>, s: Tree<N>)
    requires Proper(Plug(m, q)) && m.Bin? && m.left.Nil? && s == Plug(m.right, q)
    ensures Proper(s) && Proper(m.right) && ProperPath(q) && Nodes(m.right) !! PathNodes(q)
    ensures Nodes(s) == Nodes(m.right) + PathNodes(q)
    ensures m.node !in Nodes(s) && Nodes(Plug(m, q)) == Nodes(s) + {m.node}
  {
    PlugNodes(m, q);
    PlugNodes(m.right, q);
  }

  lemma ProperParts<N>(t: Tree<N>, p: Path<N>)
    requires ProperZip(t, p) && t.Bin?
    ensures Proper(t.left) && Proper(t.right) && ProperPath(p) && Nodes(t) !! PathNodes(p)
    ensures Nodes(t) == Nodes(t.left) + {t.node} + Nodes(t.right) && Nodes(t.left) !! Nodes(t.right)
    ensures t.node !in Nodes(t.left) && t.node !in Nodes(t.right)
  {
  }

  lemma SetsApart<N>(l: set<N>, r: set<N>, s: set<N>, p: set<N>, all: set<N>, y: N, z: N)
    requires r == s + {y} && y !in s && all == l + {z} + r && all !! p && l !! r && z !in l && z !in r
    ensures y != z && y !in l && y !in p && z !in s && z !in p
    ensures l !! s && l !! p && s !! p && all == l + {z, y} + s
  {
  }

  lemma SuccessorApart<V(0)>(z: Node<V>, y: Node<V>, t: Tree<Node<V>>, p: Path<Node<V>>,
                             m: Tree<Node<V>>, q: Path<Node<V>>, s: Tree<Node<V>>)
    requires ProperZip(t, p) && t.Bin? && t.node == z
    requires m.Bin? && m.left.Nil? && m.node == y
    requires t.right == Plug(m, q) && s == Plug(m.right, q)
    ensures Proper(t.left) && Proper(m.right) && Proper(s) && ProperPath(p) && ProperPath(q)
    ensures Nodes(s) == Nodes(m.right) + PathNodes(q) && Nodes(m.right) !! PathNodes(q)
    ensures y != z && Outside(y, t.left, s, p) && Outside(z, t.left, s, p)
    ensures Nodes(t.left) !! Nodes(s)
    ensures Nodes(t.left) !! PathNodes(p)
    ensures Nodes(s) !! PathNodes(p)
    ensures Nodes(t) == Nodes(t.left) + {z, y} + Nodes(s)
    ensures q.Top? ==> s == m.right
  {
    ProperParts(t, p);
    WithoutLeftmost(m, q, s);
    if q.Top? {
      PlugTop(m.right, q);
    }
    hide Plug, Proper, ProperPath, ProperZip, Nodes, PathNodes;
    SetsApart(Nodes(t.left), Nodes(t.right), Nodes(s), PathNodes(p), Nodes(t), y, z);
  }

  lemma PlugTop<N>(t: Tree<N>, q: Path<N>)
    requires q.Top?
    ensures Plug(t, q) == t
  {
  }

  /** Unlinks `z`, which has at most the child `x`. */
  method Splice<V(0)>(z: Node<V>, x: Node?<V>, header: Node<V>, ghost t: Tree<Node<V>>, ghost p: Path<Node<V>>,
                  ghost child: Tree<Node<V>>)
    requires Zip(t, p, header) && t.Bin? && t.node == z && x == RootNode(child)
    requires (child == t.left && t.right.Nil?) || (child == t.right && t.left.Nil?)
    modifies Nodes(child), PathNodes(p), header`parent
    ensures Zip(child, p, header)
  {
    assert Linked(child, z) && Proper(child) && z !in PathNodes(p) && z !in Nodes(child);
    assert allocated(Nodes(child)) && allocated(PathNodes(p));
    SetParent(x, z.parent, child, z);
    assert LinkedPath(p, header, z);
    ReplaceChild(z, x, header, p);
  }

  /** The walk without the root of the focus. */
  ghost function Without<N>(t: Tree<N>, p: Path<N>): seq<N>
    requires t.Bin?
  {
    (Before(p) + InOrder(t.left)) + (InOrder(t.right) + After(p))
  }

  /** The state between unlinking `z` and the repair loop: the focus is short exactly when
      the colour that left the tree is black. */
  ghost predicate Unlinked<V(0)>(z: Node<V>, header: Node<V>, f: Tree<Node<V>>, q: Path<Node<V>>)
    reads Nodes(f), PathNodes(q), header`parent, z`color
  {
    Zip(f, q, header) && if z.color == Black then Short(f, q) else Mended(f, q)
  }

  /** `child` is what stays of a focus whose root has at most one child. */
  ghost predicate OnlyChild<N>(t: Tree<N>, child: Tree<N>) {
    t.Bin? && if t.left.Nil? then child == t.right else child == t.left && t.right.Nil?
  }

  lemma SpliceWalk<V(0)>(t: Tree<Node<V>>, p: Path<Node<V>>, child: Tree<Node<V>>)
    requires OnlyChild(t, child)
    ensures Walk(child, p) == Without(t, p)
  {
    if t.left.Nil? {
      assert Before(p) + InOrder(t.left) == Before(p);
      Reassociate(Before(p), InOrder(child), [], [], After(p));
    } else {
      assert InOrder(t.right) + After(p) == After(p);
    }
  }

  lemma SpliceNodes<V(0)>(t: Tree<Node<V>>, p: Path<Node<V>>, child: Tree<Node<V>>)
    requires ProperZip(t, p) && OnlyChild(t, child)
    ensures Nodes(child) + PathNodes(p) == Nodes(t) + PathNodes(p) - {t.node}
    ensures t.node !in Nodes(child) && t.node !in PathNodes(p)
  {
    assert Nodes(t) == Nodes(child) + {t.node};
  }

  lemma SpliceEnds<V(0)>(t: Tree<Node<V>>, p: Path<Node<V>>, child: Tree<Node<V>>, header: Node<V>)
    requires ProperZip(t, p) && OnlyChild(t, child)
    ensures First(Walk(child, p), header) ==
            if First(Walk(t, p), header) != t.node then First(Walk(t, p), header)
            else if t.right.Nil? then UpNode(p, header) else First(InOrder(child), header)
    ensures Last(Walk(child, p), header) ==
            if Last(Walk(t, p), header) != t.node then Last(Walk(t, p), header)
            else if t.left.Nil? then UpNode(p, header) else Last(InOrder(child), header)
    ensures child.Bin? ==> InOrder(child) != []
  {
    WalkAround(t, p);
    SpliceWalk(t, p, child);
    FocusIsFirst(t, p, header);
    FocusIsLast(t, p, header);
    InOrderNodes(child);
    hide Walk, InOrder, Before, After, Proper, ProperPath, Nodes, PathNodes;
    var a, b := Before(p) + InOrder(t.left), InOrder(t.right) + After(p);
    EndsOfConcat(a, b, t.node, header);
    EmptyIsNil(t.left);
    EmptyIsNil(t.right);
  }

  lemma EmptyIsNil<N>(t: Tree<N>)
    ensures t.Nil? <==> InOrder(t) == []
  {
  }

  lemma EndsOfConcat<V(0)>(a: seq<Node<V>>, b: seq<Node<V>>, z: Node<V>, header: Node<V>)
    ensures First(a + b, header) == if a != [] then First(a + [z] + b, header) else First(b, header)
    ensures Last(a + b, header) == if b != [] then Last(a + [z] + b, header) else Last(a, header)
  {
  }

  lemma UnlinkColors<V(0)>(t: Tree<Node<V>>, p: Path<Node<V>>, child: Tree<Node<V>>)
    requires RedBlack(Plug(t, p)) && OnlyChild(t, child)
    ensures if t.color == Black then Short(child, p) else Mended(child, p)
  {
    ColoredUnplug(t, p);
  }

  method UpdateEnds<V(0)>(z: Node<V>, x: Node?<V>, header: Node<V>,
                          ghost t: Tree<Node<V>>, ghost p: Path<Node<V>>, ghost child: Tree<Node<V>>)
    requires ProperZip(t, p) && OnlyChild(t, child) && t.node == z
    requires Linked(child, UpNode(p, header)) && x == RootNode(child) && z.parent == UpNode(p, header)
    requires z.left == RootNode(t.left) && z.right == RootNode(t.right)
    requires Ends(Walk(t, p), header) && header !in Nodes(child) && header != z
    modifies header`left, header`right
    ensures Ends(Walk(child, p), header)
  {
    hide Linked, Walk, InOrder;
    SpliceEnds(t, p, child, header);
    if header.left == z {
      if z.right == null {
        header.left := z.parent;
      } else {
        header.left := Minimum(x, child, UpNode(p, header));
      }
    }
    if header.right == z {
      if z.left == null {
        header.right := z.parent;
      } else {
        header.right := Maximum(x, child, UpNode(p, header));
      }
    }
  }

  lemma OnlyChildNodes<N>(t: Tree<N>, child: Tree<N>)
    requires OnlyChild(t, child)
    ensures Nodes(child) <= Nodes(t)
  {
  }

  /** `z` has at most one child. */
  method UnlinkSingle<V(0)>(z: Node<V>, x: Node?<V>, header: Node<V>,
                            ghost t: Tree<Node<V>>, ghost p: Path<Node<V>>, ghost child: Tree<Node<V>>)
      returns (xParent: Node<V>)
    requires Zip(t, p, header) && RedBlack(Plug(t, p)) && Ends(Walk(t, p), header)
    requires t.Bin? && t.node == z && x == RootNode(child) && OnlyChild(t, child)
    modifies Nodes(t), PathNodes(p), header`parent, header`left, header`right
    ensures Unlinked(z, header, child, p) && xParent == UpNode(p, header)
    ensures Walk(child, p) == Without(t, p) && Ends(Walk(child, p), header)
    ensures Nodes(child) + PathNodes(p) == Nodes(t) + PathNodes(p) - {z}
  {
    hide Linked, LinkedPath, Nodes, PathNodes, Proper, ProperPath, PathRoot, Plug, Walk, InOrder, Zip, ProperZip;
    hide RedBlack, Colored, ColoredPath, Short, Mended, Without, Ends;
    ZipParts(t, p, header);
    ZipProper(t, p, header);
    SpliceWalk(t, p, child);
    SpliceNodes(t, p, child);
    UnlinkColors(t, p, child);
    xParent := z.parent;
    OnlyChildNodes(t, child);
    assert allocated(Nodes(child)) && allocated(PathNodes(p));
    Splice(z, x, header, t, p, child);
    ZipParts(child, p, header);
    ZipLinked(child, p, header);
    UpdateEnds(z, x, header, t, p, child);
  }

  // ---------- two children ----------

  lemma LeftSpineBefore<N>(q: Path<N>)
    requires LeftSpine(q)
    ensures Before(q) == []
  {
  }

  lemma {:induction false} RenamedPathColors<N>(q: Path<N>, l: Tree<N>, z: N, y: N, c: Color, p: Path<N>, h: nat)
    ensures ColoredPath(Append(q, InRight(l, z, c, p)), h) <==> ColoredPath(Append(q, InRight(l, y, c, p)), h)
    ensures FrameBlack(Append(q, InRight(l, z, c, p))) <==> FrameBlack(Append(q, InRight(l, y, c, p)))
    decreases q
  {
    if !q.Top? {
      RenamedPathColors(q.up, l, z, y, c, p, h + if q.color == Black then 1 else 0);
    }
  }

  /** Colours after the successor `m.node` took the place and colour of `t.node`. */
  lemma SuccessorColors<V(0)>(t: Tree<Node<V>>, p: Path<Node<V>>, m: Tree<Node<V>>, q: Path<Node<V>>)
    requires t.Bin? && RedBlack(Plug(t, p)) && t.right == Plug(m, q) && m.Bin? && m.left.Nil?
    ensures var at := Append(q, InRight(t.left, m.node, t.color, p));
            if m.color == Black then Short(m.right, at) else Mended(m.right, at)
  {
    var before := Append(q, InRight(t.left, t.node, t.color, p));
    PlugAppend(m, q, InRight(t.left, t.node, t.color, p));
    assert Up(t.right, InRight(t.left, t.node, t.color, p)) == t;
    ColoredUnplug(m, before);
    RenamedPathColors(q, t.left, t.node, m.node, t.color, p, BlackHeight(m));
  }

  /** The leftmost node comes first. */
  lemma LeftmostFirst<N>(m: Tree<N>, q: Path<N>)
    requires LeftSpine(q) && m.Bin? && m.left.Nil?
    ensures InOrder(Plug(m, q)) == [m.node] + InOrder(Plug(m.right, q))
  {
    WalkIsInOrder(m, q);
    WalkIsInOrder(m.right, q);
    LeftSpineBefore(q);
    NoLeftWalk(m);
    hide InOrder, Before, After, Plug;
    FrontWalk(InOrder(m.right), After(q), m.node);
  }

  lemma NoLeftWalk<N>(m: Tree<N>)
    requires m.Bin? && m.left.Nil?
    ensures InOrder(m) == [m.node] + InOrder(m.right)
  {
  }

  lemma FrontWalk<N>(a: seq<N>, b: seq<N>, n: N)
    ensures [] + ([n] + a) + b == [n] + ([] + a + b) && [] + a + b == a + b
  {
  }

  lemma SuccessorWalk<V(0)>(t: Tree<Node<V>>, p: Path<Node<V>>, m: Tree<Node<V>>, q: Path<Node<V>>)
    requires t.Bin? && t.right == Plug(m, q) && LeftSpine(q) && m.Bin? && m.left.Nil?
    ensures Walk(m.right, Append(q, InRight(t.left, m.node, t.color, p))) == Without(t, p)
  {
    hide Walk, InOrder, Before, After, Plug, Append;
    var at := InRight(t.left, m.node, t.color, p);
    var s := Plug(m.right, q);
    var u := Bin(t.left, m.node, t.color, s);
    LeftmostFirst(m, q);
    WalkIsInOrder(m.right, Append(q, at));
    PlugAppend(m.right, q, at);
    PlugInRight(t.left, m.node, t.color, s, p);
    WalkIsInOrder(u, p);
    WalkAround(u, p);
    hide *;
    SameGap(Before(p) + InOrder(t.left), [m.node], InOrder(s), After(p));
  }

  lemma SameGap<N>(a: seq<N>, n: seq<N>, s: seq<N>, e: seq<N>)
    ensures a + n + (s + e) == a + (n + s + e)
    ensures a + (n + s + e) == a + ((n + s) + e)
  {
  }

  lemma PlugInRight<N>(l: Tree<N>, n: N, c: Color, s: Tree<N>, p: Path<N>)
    ensures Plug(s, InRight(l, n, c, p)) == Plug(Bin(l, n, c, s), p)
  {
  }

  /** The first and last nodes are not affected when both neighbours of `z` exist. */
  lemma EndsStay<V(0)>(t: Tree<Node<V>>, p: Path<Node<V>>, header: Node<V>)
    requires t.Bin? && t.left.Bin? && t.right.Bin?
    ensures First(Without(t, p), header) == First(Walk(t, p), header)
    ensures Last(Without(t, p), header) == Last(Walk(t, p), header)
  {
    WalkAround(t, p);
    EmptyIsNil(t.left);
    EmptyIsNil(t.right);
    EndsOfConcat(Before(p) + InOrder(t.left), InOrder(t.right) + After(p), t.node, header);
  }

  /** `z` has two children: its successor `y` is relinked in its place. */
  method UnlinkDouble<V(0)>(z: Node<V>, y: Node<V>, x: Node?<V>, header: Node<V>,
                            ghost t: Tree<Node<V>>, ghost p: Path<Node<V>>, ghost m: Tree<Node<V>>,
                              ghost q: Path<Node<V>>)
      returns (xParent: Node<V>, ghost at: Path<Node<V>>)
    requires Zip(t, p, header) && RedBlack(Plug(t, p)) && Ends(Walk(t, p), header)
    requires t.Bin? && t.node == z && t.left.Bin?
    requires t.right == Plug(m, q) && LeftSpine(q)
    requires m.Bin? && m.left.Nil? && m.node == y && x == RootNode(m.right)
    modifies Nodes(t), PathNodes(p), header`parent
    ensures Unlinked(z, header, m.right, at) && xParent == UpNode(at, header)
    ensures Walk(m.right, at) == Without(t, p) && Ends(Walk(m.right, at), header)
    ensures Nodes(m.right) + PathNodes(at) == Nodes(t) + PathNodes(p) - {z}
  {
    hide Linked, LinkedPath, Nodes, PathNodes, Proper, ProperPath, PathRoot, Plug, Walk, InOrder, Zip, ProperZip;
    hide RedBlack, Colored, ColoredPath, Short, Mended, Without, First, Last, LeftSpine;
    ghost var above := InRight(t.left, y, t.color, p);
    ghost var s := Plug(m.right, q);
    ZipParts(t, p, header);
    ZipProper(t, p, header);
    SuccessorApart(z, y, t, p, m, q, s);
    SuccessorColors(t, p, m, q);
    SuccessorWalk(t, p, m, q);
    RightIsBin(t, m, q);
    EndsStay(t, p, header);
    xParent := RelinkSuccessor(z, y, x, header, t, p, m, q);
    at := Append(q, above);
    ghost var u := Bin(t.left, y, t.color, s);
    ZipRight(u, p, header);
    ZipInto(m.right, q, above, header);
    UpNodeAppend(q, above, header);
    WithoutNode(t, p, u);
  }

  lemma RightIsBin<N>(t: Tree<N>, m: Tree<N>, q: Path<N>)
    requires t.Bin? && m.Bin? && t.right == Plug(m, q)
    ensures t.right.Bin?
    decreases q
  {
    if !q.Top? {
      RightIsBin(t, Up(m, q), q.up);
    }
  }

  lemma UpNodeAppend<V(0)>(q: Path<Node<V>>, p: Path<Node<V>>, header: Node<V>)
    requires !p.Top?
    ensures UpNode(Append(q, p), header) == UpNode(q, p.node)
  {
  }

  lemma WithoutNode<V(0)>(t: Tree<Node<V>>, p: Path<Node<V>>, u: Tree<Node<V>>)
    requires ProperZip(t, p) && t.Bin? && u.Bin? && u.left == t.left
    requires Nodes(t) == Nodes(t.left) + {t.node, u.node} + Nodes(u.right)
    requires t.node != u.node && t.node !in Nodes(u.right) && t.node !in PathNodes(p)
    ensures Nodes(u) + PathNodes(p) == Nodes(t) + PathNodes(p) - {t.node}
  {
  }

  // ---------- erase ----------

  /** Unlinks `z` and rebalances. The node that is returned for destruction is `z` itself;
      every other node keeps its identity and its place in the walk. */
  method RebalanceForErase<V(0)>(z: Node<V>, header: Node<V>, ghost t: Tree<Node<V>>, ghost p: Path<Node<V>>)
      returns (y: Node<V>, ghost s: Tree<Node<V>>)
    requires Zip(t, p, header) && RedBlack(Plug(t, p)) && Ends(Walk(t, p), header)
    requires t.Bin? && t.node == z
    modifies Nodes(t), PathNodes(p), header`parent, header`left, header`right
    ensures y == z
    ensures Zip(s, Top, header) && RedBlack(s)
    ensures InOrder(s) == Without(t, p) && Ends(InOrder(s), header)
    ensures Nodes(s) == Nodes(t) + PathNodes(p) - {z}
  {
    hide Linked, LinkedPath, Nodes, PathNodes, Proper, ProperPath, PathRoot, Plug, Walk, InOrder, Zip, ProperZip;
    hide Colored, ColoredPath, Short, Mended, Without, First, Last;
    y := z;
    var x, xParent: Node?<V>;
    ghost var f, q;
    ZipParts(t, p, header);
    assert allocated(Nodes(t)) && allocated(PathNodes(p));
    if y.left == null {
      x := y.right;
      f, q := t.right, p;
      xParent := UnlinkSingle(z, x, header, t, p, f);
    } else if y.right == null {
      x := y.left;
      f, q := t.left, p;
      xParent := UnlinkSingle(z, x, header, t, p, f);
    } else {
      ghost var m, d;
      y, m, d := Successor(z, header, t, p);
      x := y.right;
      f := m.right;
      xParent, q := UnlinkDouble(z, y, x, header, t, p, m, d);
      y := z;
    }
    if y.color != Red {
      s := MendShort(x, xParent, header, f, q);
    } else {
      MendedTree(f, q, header);
      s := Plug(f, q);
    }
  }

  lemma MendedTree<V(0)>(f: Tree<Node<V>>, q: Path<Node<V>>, header: Node<V>)
    requires Zip(f, q, header) && Mended(f, q)
    ensures Zip(Plug(f, q), Top, header) && RedBlack(Plug(f, q))
    ensures InOrder(Plug(f, q)) == Walk(f, q) && Nodes(Plug(f, q)) == Nodes(f) + PathNodes(q)
  {
    ZipTop(f, q, header);
    WalkIsInOrder(f, q);
    ColoredPlug(f, q);
  }

  /** The leftmost node of the right subtree of `z`. */
  method Successor<V(0)>(z: Node<V>, header: Node<V>, ghost t: Tree<Node<V>>, ghost p: Path<Node<V>>)
      returns (y: Node<V>, ghost m: Tree<Node<V>>, ghost q: Path<Node<V>>)
    requires Zip(t, p, header) && t.Bin? && t.node == z && t.right.Bin?
    ensures t.right == Plug(m, q) && LeftSpine(q)
    ensures m.Bin? && m.left.Nil? && m.node == y && y.right == RootNode(m.right)
  {
    y := z.right;
    m, q := t.right, Top;
    ghost var up := z;
    while y.left != null
      invariant m.Bin? && m.node == y && Linked(m, up)
      invariant t.right == Plug(m, q) && LeftSpine(q)
      decreases m
    {
      y := y.left;
      up, q, m := m.node, InLeft(q, m.node, m.color, m.right), m.left;
    }
  }
}