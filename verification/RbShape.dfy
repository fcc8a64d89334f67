/** The abstract side of the red-black tree: trees of node identities, the
    zipper that focuses on one subtree, and the colour invariants. Nothing in
    this module reads the heap. */
module RbShape {

  datatype Color = Red | Black

  /** A tree whose internal nodes carry an identity and a colour. */
  datatype Tree<N> = Nil | Bin(left: Tree<N>, node: N, color: Color, right: Tree<N>)

  /** The way from a subtree up to the root, innermost frame first. */
  datatype Path<N> =
    | Top
    | InLeft(up: Path<N>, node: N, color: Color, right: Tree<N>)
    | InRight(left: Tree<N>, node: N, color: Color, up: Path<N>)

  function InOrder<N>(t: Tree<N>): seq<N> {
    match t
    case Nil => []
    case Bin(l, n, _, r) => InOrder(l) + [n] + InOrder(r)
  }

  /** What precedes the focus in the in-order walk of the whole tree. */
  function Before<N>(p: Path<N>): seq<N> {
    match p
    case Top => []
    case InLeft(up, _, _, _) => Before(up)
    case InRight(l, n, _, up) => Before(up) + InOrder(l) + [n]
  }

  /** What follows the focus in the in-order walk of the whole tree. */
  function After<N>(p: Path<N>): seq<N> {
    match p
    case Top => []
    case InLeft(up, n, _, r) => [n] + InOrder(r) + After(up)
    case InRight(_, _, _, up) => After(up)
  }

  /** The in-order walk of the whole tree, seen from a focus. */
  function Walk<N>(t: Tree<N>, p: Path<N>): seq<N> {
    Before(p) + InOrder(t) + After(p)
  }

  /** The subtree one frame up. */
  function Up<N>(t: Tree<N>, p: Path<N>): Tree<N>
    requires !p.Top?
  {
    match p
    case InLeft(_, n, c, r) => Bin(t, n, c, r)
    case InRight(l, n, c, _) => Bin(l, n, c, t)
  }

  function Plug<N>(t: Tree<N>, p: Path<N>): Tree<N>
    decreases p
  {
    if p.Top? then t else Plug(Up(t, p), p.up)
  }

  ghost function Depth<N>(p: Path<N>): nat
    decreases p
  {
    if p.Top? then 0 else 1 + Depth(p.up)
  }

  lemma Reassociate<N>(a: seq<N>, b: seq<N>, c: seq<N>, d: seq<N>, e: seq<N>)
    ensures a + (b + c + d) + e == a + b + (c + d + e)
    ensures a + (b + c + d) + e == (a + b + c) + d + e
  {
  }

  /** Moving the focus up one frame does not change the walk. */
  lemma WalkUp<N>(t: Tree<N>, p: Path<N>)
    requires !p.Top?
    ensures Walk(t, p) == Walk(Up(t, p), p.up)
  {
    match p
    case InLeft(up, n, c, r) => Reassociate(Before(up), InOrder(t), [n], InOrder(r), After(up));
    case InRight(l, n, c, up) => Reassociate(Before(up), InOrder(l), [n], InOrder(t), After(up));
  }

  lemma {:induction false} WalkIsInOrder<N>(t: Tree<N>, p: Path<N>)
    ensures InOrder(Plug(t, p)) == Walk(t, p)
    decreases p
  {
    if !p.Top? {
      WalkUp(t, p);
      WalkIsInOrder(Up(t, p), p.up);
    }
  }

  // ---------- identities ----------

  ghost function Nodes<N>(t: Tree<N>): set<N> {
    match t
    case Nil => {}
    case Bin(l, n, _, r) => Nodes(l) + {n} + Nodes(r)
  }

  ghost function PathNodes<N>(p: Path<N>): set<N> {
    match p
    case Top => {}
    case InLeft(up, n, _, r) => PathNodes(up) + {n} + Nodes(r)
    case InRight(l, n, _, up) => Nodes(l) + {n} + PathNodes(up)
  }

  /** No identity occurs twice in the tree. */
  ghost predicate Proper<N>(t: Tree<N>) {
    match t
    case Nil => true
    case Bin(l, n, _, r) =>
      Proper(l) && Proper(r) && n !in Nodes(l) && n !in Nodes(r) && Nodes(l) !! Nodes(r)
  }

  ghost predicate ProperPath<N>(p: Path<N>) {
    match p
    case Top => true
    case InLeft(up, n, _, r) =>
      ProperPath(up) && Proper(r) && n !in PathNodes(up) && n !in Nodes(r) && Nodes(r) !! PathNodes(up)
    case InRight(l, n, _, up) =>
      ProperPath(up) && Proper(l) && n !in PathNodes(up) && n !in Nodes(l) && Nodes(l) !! PathNodes(up)
  }

  /** Focus and context together form a tree without repeated identities. */
  ghost predicate ProperZip<N>(t: Tree<N>, p: Path<N>) {
    Proper(t) && ProperPath(p) && Nodes(t) !! PathNodes(p)
  }

  // ---------- colours ----------

  ghost predicate RootRed<N>(t: Tree<N>) { t.Bin? && t.color == Red }

  /** Number of black nodes on the leftmost branch. */
  ghost function BlackHeight<N>(t: Tree<N>): nat {
    match t
    case Nil => 0
    case Bin(l, _, c, _) => BlackHeight(l) + if c == Black then 1 else 0
  }

  /** Equal black heights everywhere and no red node with a red child. */
  ghost predicate Colored<N>(t: Tree<N>) {
    match t
    case Nil => true
    case Bin(l, _, c, r) =>
      && Colored(l) && Colored(r)
      && BlackHeight(l) == BlackHeight(r)
      && (c == Red ==> !RootRed(l) && !RootRed(r))
  }

  /** The red-black invariant of a whole tree. */
  ghost predicate RedBlack<N>(t: Tree<N>) {
    Colored(t) && !RootRed(t)
  }

  ghost predicate FrameBlack<N>(p: Path<N>) { !p.Top? && p.color == Black }

  /** The context accepts a subtree of black height `h`. */
  ghost predicate ColoredPath<N>(p: Path<N>, h: nat)
    decreases p
  {
    match p
    case Top => true
    case InLeft(up, _, c, r) =>
      && Colored(r) && BlackHeight(r) == h
      && (c == Red ==> !RootRed(r) && FrameBlack(up))
      && ColoredPath(up, h + if c == Black then 1 else 0)
    case InRight(l, _, c, up) =>
      && Colored(l) && BlackHeight(l) == h
      && (c == Red ==> !RootRed(l) && FrameBlack(up))
      && ColoredPath(up, h + if c == Black then 1 else 0)
  }

  lemma {:induction false} ColoredPlug<N>(t: Tree<N>, p: Path<N>)
    requires Colored(t) && ColoredPath(p, BlackHeight(t))
    requires RootRed(t) ==> FrameBlack(p)
    ensures RedBlack(Plug(t, p))
    decreases p
  {
    if !p.Top? {
      ColoredPlug(Up(t, p), p.up);
    }
  }

  lemma PaintKeeps<N>(t: Tree<N>, c: Color)
    requires t.Bin?
    ensures InOrder(t.(color := c)) == InOrder(t) && Nodes(t.(color := c)) == Nodes(t)
  {
  }

  lemma WalkDependsOnInOrder<N>(t: Tree<N>, u: Tree<N>, p: Path<N>)
    requires InOrder(t) == InOrder(u)
    ensures Walk(t, p) == Walk(u, p)
  {
  }

  // ---------- rotations ----------

  function RotatedLeft<N>(t: Tree<N>): Tree<N>
    requires t.Bin? && t.right.Bin?
  {
    var s := t.right;
    Bin(Bin(t.left, t.node, t.color, s.left), s.node, s.color, s.right)
  }

  function RotatedRight<N>(t: Tree<N>): Tree<N>
    requires t.Bin? && t.left.Bin?
  {
    var s := t.left;
    Bin(s.left, s.node, s.color, Bin(s.right, t.node, t.color, t.right))
  }

  lemma RotateLeftWalk<N>(t: Tree<N>)
    requires t.Bin? && t.right.Bin?
    ensures InOrder(RotatedLeft(t)) == InOrder(t)
  {
    var s := t.right;
    Reassociate(InOrder(t.left) + [t.node], InOrder(s.left), [s.node], InOrder(s.right), []);
  }

  lemma RotateLeftProper<N>(t: Tree<N>)
    requires t.Bin? && t.right.Bin?
    ensures Nodes(RotatedLeft(t)) == Nodes(t)
    ensures Proper(RotatedLeft(t)) <==> Proper(t)
  {
    var s := t.right;
    var u := Bin(t.left, t.node, t.color, s.left);
    assert Nodes(s) == Nodes(s.left) + {s.node} + Nodes(s.right);
    assert Nodes(u) == Nodes(t.left) + {t.node} + Nodes(s.left);
    assert Proper(s) <==>
      Proper(s.left) && Proper(s.right) && s.node !in Nodes(s.left) && s.node !in Nodes(s.right) &&
        Nodes(s.left) !! Nodes(s.right);
    assert Proper(u) <==>
      Proper(t.left) && Proper(s.left) && t.node !in Nodes(t.left) && t.node !in Nodes(s.left) &&
        Nodes(t.left) !! Nodes(s.left);
  }

  lemma RotateLeftKeeps<N>(t: Tree<N>)
    requires t.Bin? && t.right.Bin?
    ensures InOrder(RotatedLeft(t)) == InOrder(t)
    ensures Nodes(RotatedLeft(t)) == Nodes(t)
    ensures Proper(RotatedLeft(t)) <==> Proper(t)
  {
    RotateLeftWalk(t);
    RotateLeftProper(t);
  }

  lemma RotateRightKeeps<N>(t: Tree<N>)
    requires t.Bin? && t.left.Bin?
    ensures InOrder(RotatedRight(t)) == InOrder(t)
    ensures Nodes(RotatedRight(t)) == Nodes(t)
    ensures Proper(RotatedRight(t)) <==> Proper(t)
  {
    assert RotatedLeft(RotatedRight(t)) == t;
    RotateLeftKeeps(RotatedRight(t));
  }

  // ---------- paths inside paths ----------

  /** The path `q` inside a subtree that itself sits at `p`. */
  function Append<N>(q: Path<N>, p: Path<N>): Path<N>
    decreases q
  {
    match q
    case Top => p
    case InLeft(up, n, c, r) => InLeft(Append(up, p), n, c, r)
    case InRight(l, n, c, up) => InRight(l, n, c, Append(up, p))
  }

  lemma {:induction false} PlugAppend<N>(t: Tree<N>, q: Path<N>, p: Path<N>)
    ensures Plug(t, Append(q, p)) == Plug(Plug(t, q), p)
    decreases q
  {
    if !q.Top? {
      assert Up(t, Append(q, p)) == Up(t, q) && Append(q, p).up == Append(q.up, p);
      PlugAppend(Up(t, q), q.up, p);
    }
  }

  lemma {:induction false} PlugNodes<N>(t: Tree<N>, p: Path<N>)
    ensures Nodes(Plug(t, p)) == Nodes(t) + PathNodes(p)
    ensures Proper(Plug(t, p)) <==> ProperZip(t, p)
    decreases p
  {
    if !p.Top? {
      PlugNodes(Up(t, p), p.up);
      ProperUp(t, p);
    }
  }

  lemma ProperUp<N>(t: Tree<N>, p: Path<N>)
    requires !p.Top?
    ensures ProperZip(t, p) <==> ProperZip(Up(t, p), p.up)
    ensures Nodes(t) + PathNodes(p) == Nodes(Up(t, p)) + PathNodes(p.up)
  {
  }

  /** Every subtree of a red-black tree is coloured, and so is its context. */
  lemma {:induction false} ColoredUnplug<N>(t: Tree<N>, p: Path<N>)
    requires RedBlack(Plug(t, p))
    ensures Colored(t) && ColoredPath(p, BlackHeight(t)) && (RootRed(t) ==> FrameBlack(p))
    decreases p
  {
    if !p.Top? {
      ColoredUnplug(Up(t, p), p.up);
    }
  }
}
