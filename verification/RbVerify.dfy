/** The self-check of the tree, and the bound on its height. */
module RbVerify {
  import opened Powers
  import opened RbShape
  import opened RbNode
  import opened RbEnds
  import opened RbSearch
  import opened RbUnlink
  import opened RbIterate
  import opened RbTree

  // ---------- what the check looks at ----------

  function Weight(c: Color): nat { if c == Black then 1 else 0 }

  /** Black nodes strictly above the focus. */
  ghost function BlackAbove<N>(p: Path<N>): nat
    decreases p
  {
    if p.Top? then 0 else BlackAbove(p.up) + Weight(p.color)
  }

  /** The tests made at one node, `above` being the black nodes above it. */
  ghost predicate NodeChecked<K, V(0)>(t: Tree<Node<V>>, above: nat, len: nat, keyOf: V -> K, less: (K, K) -> bool)
    requires t.Bin?
  {
    && (t.color == Red ==> !RootRed(t.left) && !RootRed(t.right))
    && (t.left.Bin? ==> !less(keyOf(t.node.value), keyOf(t.left.node.value)))
    && (t.right.Bin? ==> !less(keyOf(t.right.node.value), keyOf(t.node.value)))
    && (t.left.Nil? && t.right.Nil? ==> above + Weight(t.color) == len)
  }

  /** The tests at all nodes: no red node has a red child, no child is out of order with its
      parent, and all childless nodes have `len` black nodes on their way from the root. */
  ghost predicate Checked<K, V(0)>(t: Tree<Node<V>>, above: nat, len: nat, keyOf: V -> K, less: (K, K) -> bool) {
    t.Bin? ==>
      && NodeChecked(t, above, len, keyOf, less)
      && Checked(t.left, above + Weight(t.color), len, keyOf, less)
      && Checked(t.right, above + Weight(t.color), len, keyOf, less)
  }

  /** The tests at the first `i` nodes of the walk. */
  ghost predicate CheckedUpTo<K, V(0)>(t: Tree<Node<V>>, i: int, above: nat, len: nat, keyOf: V -> K,
                                   less: (K, K) -> bool) {
    t.Bin? ==>
      var k := |InOrder(t.left)|;
      && (k < i ==> NodeChecked(t, above, len, keyOf, less))
      && CheckedUpTo(t.left, i, above + Weight(t.color), len, keyOf, less)
      && CheckedUpTo(t.right, i - k - 1, above + Weight(t.color), len, keyOf, less)
  }

  lemma {:induction false} CheckedNothing<K, V(0)>(t: Tree<Node<V>>, i: int, above: nat, len: nat, keyOf: V -> K,
                                               less: (K, K) -> bool)
    requires i <= 0
    ensures CheckedUpTo(t, i, above, len, keyOf, less)
  {
    if t.Bin? {
      CheckedNothing(t.left, i, above + Weight(t.color), len, keyOf, less);
      CheckedNothing(t.right, i - |InOrder(t.left)| - 1, above + Weight(t.color), len, keyOf, less);
    }
  }

  lemma {:induction false} CheckedAll<K, V(0)>(t: Tree<Node<V>>, i: int, above: nat, len: nat, keyOf: V -> K,
                                           less: (K, K) -> bool)
    requires i >= |InOrder(t)|
    ensures CheckedUpTo(t, i, above, len, keyOf, less) <==> Checked(t, above, len, keyOf, less)
  {
    if t.Bin? {
      CheckedAll(t.left, i, above + Weight(t.color), len, keyOf, less);
      CheckedAll(t.right, i - |InOrder(t.left)| - 1, above + Weight(t.color), len, keyOf, less);
    }
  }

  lemma Unfold<K, V(0)>(t: Tree<Node<V>>, i: nat, above: nat, len: nat, keyOf: V -> K, less: (K, K) -> bool)
    requires i <= |InOrder(t)| && InOrder(t) != []
    ensures t.Bin?
    ensures |InOrder(t)| == |InOrder(t.left)| + 1 + |InOrder(t.right)|
    ensures InOrder(t)[|InOrder(t.left)|] == t.node
    ensures i < |InOrder(t.left)| ==> InOrder(t)[i] == InOrder(t.left)[i]
    ensures |InOrder(t.left)| < i < |InOrder(t)| ==> InOrder(t)[i] == InOrder(t.right)[i - |InOrder(t.left)| - 1]
    ensures CheckedUpTo(t, i, above, len, keyOf, less) <==>
            (|InOrder(t.left)| < i ==> NodeChecked(t, above, len, keyOf, less))
            && CheckedUpTo(t.left, i, above + Weight(t.color), len, keyOf, less)
            && CheckedUpTo(t.right, i - |InOrder(t.left)| - 1, above + Weight(t.color), len, keyOf, less)
  {
  }

  lemma TopFacts<N>(t: Tree<N>)
    ensures Plug(t, Top) == t && BlackAbove<N>(Top) == 0
  {
  }

  lemma OneFrame<N>(t: Tree<N>, at: Path<N>)
    requires t.Bin?
    requires at == InLeft(Top, t.node, t.color, t.right) || at == InRight(t.left, t.node, t.color, Top)
    ensures Plug(if at.InLeft? then t.left else t.right, at) == t && BlackAbove(at) == Weight(t.color)
  {
  }

  /** One more node. */
  lemma {:induction false} CheckedNext<K, V(0)>(t: Tree<Node<V>>, i: nat, above: nat, len: nat, keyOf: V -> K,
                                            less: (K, K) -> bool)
      returns (f: Tree<Node<V>>, p: Path<Node<V>>)
    requires i < |InOrder(t)|
    ensures f.Bin? && Plug(f, p) == t && f.node == InOrder(t)[i]
    ensures CheckedUpTo(t, i + 1, above, len, keyOf, less) <==>
            CheckedUpTo(t, i, above, len, keyOf, less) && NodeChecked(f, above + BlackAbove(p), len, keyOf, less)
  {
    EmptyIsNil(t);
    hide CheckedUpTo, NodeChecked, InOrder, Plug, BlackAbove;
    var k, a := |InOrder(t.left)|, above + Weight(t.color);
    Unfold(t, i, above, len, keyOf, less);
    Unfold(t, i + 1, above, len, keyOf, less);
    if i == k {
      f, p := t, Top;
      TopFacts(t);
      CheckedAll(t.left, i, a, len, keyOf, less);
      CheckedAll(t.left, i + 1, a, len, keyOf, less);
      CheckedNothing(t.right, -1, a, len, keyOf, less);
      CheckedNothing(t.right, 0, a, len, keyOf, less);
    } else {
      var at := if i < k then InLeft(Top, t.node, t.color, t.right) else InRight(t.left, t.node, t.color, Top);
      var q;
      if i < k {
        f, q := CheckedNext(t.left, i, a, len, keyOf, less);
        CheckedNothing(t.right, i - k, a, len, keyOf, less);
        CheckedNothing(t.right, i - k - 1, a, len, keyOf, less);
      } else {
        f, q := CheckedNext(t.right, i - k - 1, a, len, keyOf, less);
        CheckedAll(t.left, i, a, len, keyOf, less);
        CheckedAll(t.left, i + 1, a, len, keyOf, less);
      }
      p := Append(q, at);
      OneFrame(t, at);
      PlugAppend(f, q, at);
      BlackAboveAppend(q, at);
    }
  }

  lemma {:induction false} BlackAboveAppend<N>(q: Path<N>, p: Path<N>)
    ensures BlackAbove(Append(q, p)) == BlackAbove(q) + BlackAbove(p)
    decreases q
  {
    if !q.Top? {
      BlackAboveAppend(q.up, p);
    }
  }

  // ---------- what the tests say of the whole tree ----------

  /** The subtree that a way from the root leads to, `true` being to the left. */
  ghost function At<N>(t: Tree<N>, way: seq<bool>): Tree<N> {
    if t.Nil? || way == [] then t else At(if way[0] then t.left else t.right, way[1..])
  }

  /** The black nodes passed on that way. */
  ghost function BlackOn<N>(t: Tree<N>, way: seq<bool>): nat {
    if t.Nil? || way == [] then 0 else Weight(t.color) + BlackOn(if way[0] then t.left else t.right, way[1..])
  }

  ghost predicate Childless<N>(t: Tree<N>) {
    t.Bin? && t.left.Nil? && t.right.Nil?
  }

  /** No red node has a red child. */
  ghost predicate RedsApart<N>(t: Tree<N>) {
    forall way :: RootRed(At(t, way)) ==> !RootRed(At(t, way).left) && !RootRed(At(t, way).right)
  }

  /** No left child comes after its parent and no right child before it. */
  ghost predicate ChildrenOrdered<K, V(0)>(t: Tree<Node<V>>, keyOf: V -> K, less: (K, K) -> bool) {
    forall way :: At(t, way).Bin? ==>
      var f := At(t, way);
      && (f.left.Bin? ==> !less(keyOf(f.node.value), keyOf(f.left.node.value)))
      && (f.right.Bin? ==> !less(keyOf(f.right.node.value), keyOf(f.node.value)))
  }

  /** With `above` black nodes above the tree, there are `len` on the way to each childless node and at it. */
  ghost predicate Level<N>(t: Tree<N>, above: nat, len: nat) {
    forall way :: Childless(At(t, way)) ==> above + BlackOn(t, way) + Weight(At(t, way).color) == len
  }

  /** A node with one child has a red and childless one. */
  ghost predicate OnlyChildRed<N>(t: Tree<N>) {
    forall way :: At(t, way).Bin? ==>
      var f := At(t, way);
      && (f.left.Bin? && f.right.Nil? ==> RootRed(f.left) && Childless(f.left))
      && (f.right.Bin? && f.left.Nil? ==> RootRed(f.right) && Childless(f.right))
  }

  lemma {:induction false} CheckedAt<K, V(0)>(t: Tree<Node<V>>, way: seq<bool>, above: nat, len: nat, keyOf: V -> K,
                                              less: (K, K) -> bool)
    requires Checked(t, above, len, keyOf, less)
    ensures Checked(At(t, way), above + BlackOn(t, way), len, keyOf, less)
    decreases way
  {
    if t.Bin? && way != [] {
      CheckedAt(if way[0] then t.left else t.right, way[1..], above + Weight(t.color), len, keyOf, less);
    }
  }

  lemma FirstTurn<N>(t: Tree<N>, turn: bool, way: seq<bool>)
    requires t.Bin?
    ensures At(t, [turn] + way) == At(if turn then t.left else t.right, way)
    ensures BlackOn(t, [turn] + way) == Weight(t.color) + BlackOn(if turn then t.left else t.right, way)
    ensures At(t, []) == t && BlackOn(t, []) == 0
  {
    assert ([turn] + way)[1..] == way;
  }

  /** What holds on all ways from the root holds on those from a child. */
  lemma ChildWays<N>(t: Tree<N>, turn: bool, above: nat, len: nat)
    requires t.Bin? && RedsApart(t) && Level(t, above, len)
    ensures var c := if turn then t.left else t.right; RedsApart(c) && Level(c, above + Weight(t.color), len)
    ensures OnlyChildRed(t) ==> OnlyChildRed(if turn then t.left else t.right)
  {
    hide At, BlackOn;
    var c := if turn then t.left else t.right;
    forall way
      ensures At(c, way) == At(t, [turn] + way) && BlackOn(t, [turn] + way) == Weight(t.color) + BlackOn(c, way)
    {
      FirstTurn(t, turn, way);
    }
  }

  lemma ChildOrder<K, V(0)>(t: Tree<Node<V>>, turn: bool, keyOf: V -> K, less: (K, K) -> bool)
    requires t.Bin? && ChildrenOrdered(t, keyOf, less)
    ensures ChildrenOrdered(if turn then t.left else t.right, keyOf, less)
  {
    hide At;
    var c := if turn then t.left else t.right;
    forall way
      ensures At(c, way) == At(t, [turn] + way)
    {
      FirstTurn(t, turn, way);
    }
  }

  lemma {:induction false} CheckedFrom<K, V(0)>(t: Tree<Node<V>>, above: nat, len: nat, keyOf: V -> K,
                                                less: (K, K) -> bool)
    requires RedsApart(t) && ChildrenOrdered(t, keyOf, less) && Level(t, above, len)
    ensures Checked(t, above, len, keyOf, less)
  {
    if t.Bin? {
      assert At(t, []) == t && BlackOn(t, []) == 0;
      ChildWays(t, true, above, len);
      ChildWays(t, false, above, len);
      ChildOrder(t, true, keyOf, less);
      ChildOrder(t, false, keyOf, less);
      CheckedFrom(t.left, above + Weight(t.color), len, keyOf, less);
      CheckedFrom(t.right, above + Weight(t.color), len, keyOf, less);
    }
  }

  /** The tests at the single nodes, read as facts about the whole tree. */
  lemma CheckedMeans<K, V(0)>(t: Tree<Node<V>>, len: nat, keyOf: V -> K, less: (K, K) -> bool)
    ensures Checked(t, 0, len, keyOf, less) <==> RedsApart(t) && ChildrenOrdered(t, keyOf, less) && Level(t, 0, len)
  {
    if Checked(t, 0, len, keyOf, less) {
      hide At, BlackOn;
      forall way
        ensures Checked(At(t, way), BlackOn(t, way), len, keyOf, less)
      {
        CheckedAt(t, way, 0, len, keyOf, less);
      }
    } else if RedsApart(t) && ChildrenOrdered(t, keyOf, less) && Level(t, 0, len) {
      CheckedFrom(t, 0, len, keyOf, less);
      assert false;
    }
  }

  lemma {:induction false} LevelIsColored<N>(t: Tree<N>, above: nat, len: nat)
    requires t.Bin? && RedsApart(t) && Level(t, above, len) && OnlyChildRed(t)
    ensures Colored(t) && above + BlackHeight(t) == len
  {
    assert At(t, []) == t && BlackOn(t, []) == 0;
    ChildWays(t, true, above, len);
    ChildWays(t, false, above, len);
    if t.left.Bin? {
      LevelIsColored(t.left, above + Weight(t.color), len);
    }
    if t.right.Bin? {
      LevelIsColored(t.right, above + Weight(t.color), len);
    }
  }

  lemma {:induction false} ColoredAt<N>(t: Tree<N>, way: seq<bool>)
    requires Colored(t)
    ensures Colored(At(t, way))
    decreases way
  {
    if t.Bin? && way != [] {
      ColoredAt(if way[0] then t.left else t.right, way[1..]);
    }
  }

  /** With all the facts that the check establishes, the tree is coloured exactly when a node with one child has a
      red and childless one, which the check does not look at. */
  lemma ColoredMeans<N>(t: Tree<N>, len: nat)
    requires RedsApart(t) && Level(t, 0, len)
    ensures Colored(t) <==> OnlyChildRed(t)
  {
    if t.Bin? && OnlyChildRed(t) {
      LevelIsColored(t, 0, len);
    }
    if Colored(t) {
      hide At;
      forall way | At(t, way).Bin?
        ensures var f := At(t, way); f.right.Nil? && f.left.Bin? ==> RootRed(f.left) && Childless(f.left)
        ensures var f := At(t, way); f.left.Nil? && f.right.Bin? ==> RootRed(f.right) && Childless(f.right)
      {
        ColoredAt(t, way);
        OneChild(At(t, way));
      }
    }
  }

  lemma OneChild<N>(f: Tree<N>)
    requires Colored(f) && f.Bin?
    ensures f.right.Nil? && f.left.Bin? ==> RootRed(f.left) && Childless(f.left)
    ensures f.left.Nil? && f.right.Bin? ==> RootRed(f.right) && Childless(f.right)
  {
    NoBlack(f.left);
    NoBlack(f.right);
  }

  lemma NoBlack<N>(t: Tree<N>)
    requires Colored(t)
    ensures BlackHeight(t) == 0 && t.Bin? ==> RootRed(t) && Childless(t)
  {
  }

  // ---------- the check itself ----------

  /** `__black_count`, from a node of the tree. */
  method BlackCount<V(0)>(node: Node<V>, root: Node<V>, header: Node<V>, ghost t: Tree<Node<V>>,
                      ghost p: Path<Node<V>>) returns (n: nat)
    requires Zip(t, p, header) && t.Bin? && t.node == node && header.parent == root
    ensures n == BlackAbove(p) + Weight(t.color)
    decreases Depth(p)
  {
    ZipParts(t, p, header);
    var bc := if node.color == Black then 1 else 0;
    if node == root {
      return bc;
    }
    ZipUp(t, p, header);
    var above := BlackCount(node.parent, root, header, Up(t, p), p.up);
    return bc + above;
  }

  /** The black nodes on the way to the leftmost node. */
  lemma {:induction false} LeftmostBlack<V(0)>(t: Tree<Node<V>>) returns (m: Tree<Node<V>>, q: Path<Node<V>>)
    requires t.Bin?
    ensures Plug(m, q) == t && m.Bin? && m.node == InOrder(t)[0]
    ensures BlackAbove(q) + Weight(m.color) == BlackHeight(t)
  {
    if t.left.Nil? {
      m, q := t, Top;
    } else {
      var d;
      var at := InLeft(Top, t.node, t.color, t.right);
      m, d := LeftmostBlack(t.left);
      q := Append(d, at);
      PlugAppend(m, d, at);
      BlackAboveAppend(d, at);
      EmptyIsNil(t.left);
    }
  }

  /** The tests of one loop round. */
  method CheckNode<K, V(0)>(x: Node<V>, len: nat, header: Node<V>, keyOf: V -> K, less: (K, K) -> bool,
                            ghost t: Tree<Node<V>>, ghost p: Path<Node<V>>) returns (ok: bool)
    requires Zip(t, p, header) && t.Bin? && t.node == x && header.parent != null
    ensures ok <==> NodeChecked(t, BlackAbove(p), len, keyOf, less)
  {
    ZipParts(t, p, header);
    ChildColors(t, p, header);
    var l, r := x.left, x.right;
    if x.color == Red {
      if (l != null && l.color == Red) || (r != null && r.color == Red) {
        return false;
      }
    }
    if l != null && less(keyOf(x.value), keyOf(l.value)) {
      return false;
    }
    if r != null && less(keyOf(r.value), keyOf(x.value)) {
      return false;
    }
    if l == null && r == null {
      var n := BlackCount(x, header.parent, header, t, p);
      if n != len {
        return false;
      }
    }
    return true;
  }

  lemma ChildColors<V(0)>(t: Tree<Node<V>>, p: Path<Node<V>>, header: Node<V>)
    requires Zip(t, p, header) && t.Bin?
    ensures t.left.Bin? ==> t.left.node.color == t.left.color
    ensures t.right.Bin? ==> t.right.node.color == t.right.color
  {
    assert Linked(t.left, t.node) && Linked(t.right, t.node);
  }

  /** The count that all others are compared with, from the node that the header takes for the leftmost. */
  method LeftmostCount<V(0)>(header: Node<V>, ghost t: Tree<Node<V>>, ghost i: nat) returns (len: nat)
    requires Zip(t, Top, header) && i < |InOrder(t)| && header.left == InOrder(t)[i]
    ensures i == 0 ==> len == BlackHeight(t)
  {
    ghost var f, p := FocusAt(t, i);
    EmptyIsNil(t);
    if i == 0 {
      f, p := LeftmostBlack(t);
    }
    ZipAt(t, f, p, header);
    ZipParts(t, Top, header);
    len := BlackCount(header.left, header.parent, header, f, p);
  }

  /** One loop round: the tests at the `i`-th node, and the step to the next. */
  method VerifyStep<K, V(0)>(at: Node<V>, len: nat, header: Node<V>, keyOf: V -> K, less: (K, K) -> bool,
                             ghost t: Tree<Node<V>>, ghost i: nat) returns (ok: bool, next: Node<V>)
    requires Zip(t, Top, header) && header.parent != null && i < |InOrder(t)| && at == InOrder(t)[i]
    ensures CheckedUpTo(t, i, 0, len, keyOf, less) ==> (ok <==> CheckedUpTo(t, i + 1, 0, len, keyOf, less))
    ensures next == First(InOrder(t)[i + 1..], header)
  {
    hide Linked, LinkedPath, Nodes, PathNodes, Proper, ProperPath, PathRoot, Plug, InOrder, Zip, CheckedUpTo,
      NodeChecked, BlackAbove;
    ghost var f, p := CheckedNext(t, i, 0, len, keyOf, less);
    ZipAt(t, f, p, header);
    ghost var g, q := FocusAt(t, i);
    ZipAt(t, g, q, header);
    assert allocated(Nodes(g)) && allocated(PathNodes(q));
    ok := CheckNode(at, len, header, keyOf, less, f, p);
    next := Increment(at, header, g, q);
  }

  /** The loop over the nodes from that one on; it stops at the first that fails. */
  method VerifyNodes<K, V(0)>(len: nat, header: Node<V>, keyOf: V -> K, less: (K, K) -> bool, ghost t: Tree<Node<V>>,
                              ghost from: nat) returns (ok: bool)
    requires Zip(t, Top, header) && header.parent != null && from < |InOrder(t)| && header.left == InOrder(t)[from]
    ensures from == 0 ==> (ok <==> Checked(t, 0, len, keyOf, less))
  {
    WalkDistinct(t);
    InOrderNodes(t);
    ZipParts(t, Top, header);
    assert allocated(Nodes(t)) && allocated(PathNodes<Node<V>>(Top));
    hide Linked, LinkedPath, Nodes, PathNodes, Proper, ProperPath, PathRoot, Plug, InOrder, Zip, Checked, CheckedUpTo,
      NodeChecked, BlackHeight, BlackAbove;
    ghost var w := InOrder(t);
    CheckedNothing(t, 0, 0, len, keyOf, less);
    var at := header.left;
    ghost var i := from;
    while at != header
      invariant from <= i <= |w| && at == First(w[i..], header)
      invariant from == 0 ==> CheckedUpTo(t, i, 0, len, keyOf, less)
      decreases |w| - i
    {
      var good, next := VerifyStep(at, len, header, keyOf, less, t, i);
      if !good {
        if from == 0 {
          NotChecked(t, i + 1, 0, len, keyOf, less);
        }
        return false;
      }
      at := next;
      i := i + 1;
    }
    CheckedAll(t, |w|, 0, len, keyOf, less);
    ok := true;
  }

  /** `__rb_verify` on any linked tree, whatever its colours, its order, its ends and its count. */
  method Verify<K, V(0)>(nodeCount: nat, header: Node<V>, keyOf: V -> K, less: (K, K) -> bool, ghost t: Tree<Node<V>>)
                     returns (ok: bool)
    requires Zip(t, Top, header) && (header.left == header || header.left in InOrder(t))
    ensures ok <==>
      if nodeCount == 0 || header.left == header
      then nodeCount == 0 && header.left == header && header.right == header
      else Ends(InOrder(t), header) && RedsApart(t) && ChildrenOrdered(t, keyOf, less) && Level(t, 0, BlackHeight(t))
    ensures ok && nodeCount > 0 ==> (Colored(t) <==> OnlyChildRed(t))
  {
    CheckedMeans(t, BlackHeight(t), keyOf, less);
    if RedsApart(t) && Level(t, 0, BlackHeight(t)) {
      ColoredMeans(t, BlackHeight(t));
    }
    EmptyIsNil(t);
    InOrderNodes(t);
    WalkDistinct(t);
    ZipParts(t, Top, header);
    ZipLinked(t, Top, header);
    assert allocated(Nodes(t)) && allocated(PathNodes<Node<V>>(Top));
    hide Linked, LinkedPath, Nodes, PathNodes, Proper, ProperPath, PathRoot, Plug, InOrder, Zip, Checked, CheckedUpTo,
      NodeChecked, BlackHeight, BlackAbove, RedsApart, ChildrenOrdered, Level, OnlyChildRed, Colored;
    if nodeCount == 0 || header.left == header {
      return nodeCount == 0 && header.left == header && header.left == header && header.right == header;
    }
    ghost var i: nat :| i < |InOrder(t)| && InOrder(t)[i] == header.left;
    var len := LeftmostCount(header, t, i);
    var good := VerifyNodes(len, header, keyOf, less, t, i);
    if !good {
      return false;
    }
    var least := Minimum(header.parent, t, header);
    var greatest := Maximum(header.parent, t, header);
    return header.left == least && header.right == greatest;
  }

  lemma {:induction false} NotChecked<K, V(0)>(t: Tree<Node<V>>, i: int, above: nat, len: nat, keyOf: V -> K,
                                           less: (K, K) -> bool)
    requires !CheckedUpTo(t, i, above, len, keyOf, less)
    ensures !Checked(t, above, len, keyOf, less)
  {
    if t.Bin? {
      var a := above + Weight(t.color);
      if !CheckedUpTo(t.left, i, a, len, keyOf, less) {
        NotChecked(t.left, i, a, len, keyOf, less);
      }
      if !CheckedUpTo(t.right, i - |InOrder(t.left)| - 1, a, len, keyOf, less) {
        NotChecked(t.right, i - |InOrder(t.left)| - 1, a, len, keyOf, less);
      }
    }
  }

  // ---------- every valid tree passes ----------

  lemma {:induction false} ColoredIsChecked<K, V(0)>(t: Tree<Node<V>>, above: nat, keyOf: V -> K, less: (K, K) -> bool)
    requires Colored(t) && SortedWalk(InOrder(t), keyOf, less)
    ensures Checked(t, above, above + BlackHeight(t), keyOf, less)
  {
    if t.Bin? {
      var a, b := InOrder(t.left), InOrder(t.right);
      var w := InOrder(t);
      assert w[|a|] == t.node && a == w[..|a|] && b == w[|a| + 1..];
      ColoredIsChecked(t.left, above + Weight(t.color), keyOf, less);
      ColoredIsChecked(t.right, above + Weight(t.color), keyOf, less);
      if t.left.Bin? {
        RootIndex(t.left);
      }
      if t.right.Bin? {
        RootIndex(t.right);
      }
    }
  }

  lemma RootIndex<N>(t: Tree<N>)
    requires t.Bin?
    ensures |InOrder(t.left)| < |InOrder(t)| && InOrder(t)[|InOrder(t.left)|] == t.node
  {
  }

  /** `__rb_verify` holds in every state that the operations can reach. */
  method VerifyTree<K(!new), V(0)>(tree: RbTree<K, V>) returns (ok: bool)
    requires tree.Valid()
    ensures ok
  {
    EmptyIsNil(tree.shape);
    InOrderNodes(tree.shape);
    ZipParts(tree.shape, Top, tree.header);
    CheckedMeans(tree.shape, BlackHeight(tree.shape), tree.keyOf, tree.less);
    ColoredIsChecked(tree.shape, 0, tree.keyOf, tree.less);
    ok := Verify(tree.nodeCount, tree.header, tree.keyOf, tree.less, tree.shape);
  }

  // ---------- height ----------

  function Height<N>(t: Tree<N>): nat {
    if t.Nil? then 0 else 1 + if Height(t.left) > Height(t.right) then Height(t.left) else Height(t.right)
  }

  lemma {:induction false} HeightAgainstBlackHeight<N>(t: Tree<N>)
    requires Colored(t)
    ensures Height(t) <= 2 * BlackHeight(t) + if RootRed(t) then 1 else 0
    ensures Pow2(BlackHeight(t)) <= |InOrder(t)| + 1
  {
    if t.Bin? {
      HeightAgainstBlackHeight(t.left);
      HeightAgainstBlackHeight(t.right);
    }
  }

  /** The height is at most twice the logarithm of the number of nodes plus one. */
  lemma HeightBound<N>(t: Tree<N>)
    requires RedBlack(t)
    ensures Pow2((Height(t) + 1) / 2) <= |InOrder(t)| + 1
  {
    HeightAgainstBlackHeight(t);
    Pow2Monotone((Height(t) + 1) / 2, BlackHeight(t));
  }
}
