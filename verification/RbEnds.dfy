/** The two ends of a tree: the cached leftmost and rightmost nodes. */
module RbEnds {
  import opened RbShape
  import opened RbNode

  ghost function First<V(0)>(w: seq<Node<V>>, header: Node<V>): Node<V> {
    if w == [] then header else w[0]
  }

  ghost function Last<V(0)>(w: seq<Node<V>>, header: Node<V>): Node<V> {
    if w == [] then header else w[|w| - 1]
  }

  /** The header caches the ends of the walk, or itself when there are none. */
  ghost predicate Ends<V(0)>(w: seq<Node<V>>, header: Node<V>)
    reads header`left, header`right
  {
    header.left == First(w, header) && header.right == Last(w, header)
  }

  lemma {:induction false} InOrderNodes<N>(t: Tree<N>)
    ensures forall n :: n in InOrder(t) ==> n in Nodes(t)
    ensures forall n :: n in Nodes(t) ==> n in InOrder(t)
    ensures t.Nil? <==> InOrder(t) == []
  {
    if t.Bin? {
      InOrderNodes(t.left);
      InOrderNodes(t.right);
    }
  }

  lemma {:induction false} PathWalkNodes<N>(p: Path<N>)
    ensures forall n :: n in Before(p) || n in After(p) ==> n in PathNodes(p)
    ensures forall n :: n in PathNodes(p) ==> n in Before(p) || n in After(p)
    decreases p
  {
    match p
    case Top =>
    case InLeft(up, _, _, r) => PathWalkNodes(up); InOrderNodes(r);
    case InRight(l, _, _, up) => PathWalkNodes(up); InOrderNodes(l);
  }

  method Minimum<V(0)>(x: Node<V>, ghost t: Tree<Node<V>>, ghost up: Node<V>) returns (m: Node<V>)
    requires Linked(t, up) && t.Bin? && t.node == x
    ensures InOrder(t) != [] && m == InOrder(t)[0]
  {
    m := x;
    ghost var s, above := t, up;
    while m.left != null
      invariant Linked(s, above) && s.Bin? && s.node == m
      invariant InOrder(s)[0] == InOrder(t)[0]
      decreases s
    {
      m := m.left;
      s, above := s.left, s.node;
    }
  }

  method Maximum<V(0)>(x: Node<V>, ghost t: Tree<Node<V>>, ghost up: Node<V>) returns (m: Node<V>)
    requires Linked(t, up) && t.Bin? && t.node == x
    ensures InOrder(t) != [] && m == InOrder(t)[|InOrder(t)| - 1]
  {
    m := x;
    ghost var s, above := t, up;
    while m.right != null
      invariant Linked(s, above) && s.Bin? && s.node == m
      invariant InOrder(s)[|InOrder(s)| - 1] == InOrder(t)[|InOrder(t)| - 1]
      decreases s
    {
      m := m.right;
      s, above := s.right, s.node;
    }
  }

  /** Where a node lies in the walk, when it is the root of the focus. */
  lemma WalkAround<N>(t: Tree<N>, p: Path<N>)
    requires t.Bin?
    ensures Walk(t, p) == (Before(p) + InOrder(t.left)) + [t.node] + (InOrder(t.right) + After(p))
  {
  }

  lemma FocusIsFirst<V(0)>(t: Tree<Node<V>>, p: Path<Node<V>>, header: Node<V>)
    requires ProperZip(t, p) && t.Bin?
    ensures Walk(t, p) != []
    ensures Walk(t, p)[0] == t.node <==> Before(p) == [] && t.left.Nil?
    ensures Before(p) == [] ==> UpNode(p, header) == First(After(p), header)
  {
    WalkAround(t, p);
    InOrderNodes(t.left);
    PathWalkNodes(p);
  }

  lemma FocusIsLast<V(0)>(t: Tree<Node<V>>, p: Path<Node<V>>, header: Node<V>)
    requires ProperZip(t, p) && t.Bin?
    ensures Walk(t, p) != []
    ensures Walk(t, p)[|Walk(t, p)| - 1] == t.node <==> After(p) == [] && t.right.Nil?
    ensures After(p) == [] ==> UpNode(p, header) == Last(Before(p), header)
  {
    WalkAround(t, p);
    InOrderNodes(t.right);
    PathWalkNodes(p);
  }
}
