/** The associative container over the red-black tree. */
module RbTree {
  import opened Sequences
  import opened Orders
  import opened RbShape
  import opened RbNode
  import opened RbEnds
  import opened RbSearch
  import opened RbInsert
  import opened RbUnlink
  import opened RbIterate

  /** Every earlier element is less than every later one. */
  ghost predicate StrictlySorted<K, V(0)>(w: seq<Node<V>>, keyOf: V -> K, less: (K, K) -> bool) {
    forall i, j :: 0 <= i < j < |w| ==> less(keyOf(w[i].value), keyOf(w[j].value))
  }

  /** A value may stand at position `i` of `w`. */
  ghost predicate FitsAt<K, V(0)>(w: seq<Node<V>>, i: nat, v: V, keyOf: V -> K, less: (K, K) -> bool) {
    && i <= |w|
    && (i > 0 ==> !less(keyOf(v), keyOf(w[i - 1].value)))
    && (i < |w| ==> !less(keyOf(w[i].value), keyOf(v)))
  }

  lemma SortedInsert<K(!new), V(0)>(w: seq<Node<V>>, i: nat, z: Node<V>, keyOf: V -> K, less: (K, K) -> bool)
    requires StrictWeakOrder(less) && SortedWalk(w, keyOf, less) && FitsAt(w, i, z.value, keyOf, less)
    ensures SortedWalk(w[..i] + [z] + w[i..], keyOf, less)
  {
    var v := keyOf(z.value);
    assert forall j :: 0 <= j < i ==> !less(v, keyOf(w[j].value)) by {
      forall j | 0 <= j < i ensures !less(v, keyOf(w[j].value)) {
        assert j < i - 1 ==> !less(keyOf(w[i - 1].value), keyOf(w[j].value));
      }
    }
    assert forall j :: i <= j < |w| ==> !less(keyOf(w[j].value), v) by {
      forall j | i <= j < |w| ensures !less(keyOf(w[j].value), v) {
        assert i < j ==> !less(keyOf(w[j].value), keyOf(w[i].value));
      }
    }
  }

  lemma ZipAt<V(0)>(t: Tree<Node<V>>, f: Tree<Node<V>>, p: Path<Node<V>>, header: Node<V>)
    requires Zip(t, Top, header) && Plug(f, p) == t
    ensures Zip(f, p, header) && Nodes(f) + PathNodes(p) == Nodes(t)
  {
    ZipInto(f, p, Top, header);
    AppendTop(p);
  }

  lemma {:induction false} AppendTop<N>(p: Path<N>)
    ensures Append(p, Top) == p
    decreases p
  {
    if !p.Top? {
      AppendTop(p.up);
    }
  }

  /** A new node is linked as a leaf and the colours are put right. */
  method PlaceLeaf<V(0)>(z: Node<V>, y: Node<V>, goLeft: bool, header: Node<V>, ghost p: Path<Node<V>>)
      returns (ghost s: Tree<Node<V>>)
    requires Zip(Nil, p, header) && y == UpNode(p, header) && (goLeft <==> !p.InRight?)
    requires RedBlack(Plug(Nil, p)) && Ends(Before(p) + After(p), header) && header.color == Red
    requires z != header && z !in PathNodes(p)
    modifies z, PathNodes(p), header`parent, header`left, header`right
    ensures Zip(s, Top, header) && RedBlack(s) && Ends(InOrder(s), header)
    ensures InOrder(s) == Before(p) + [z] + After(p) && Nodes(s) == PathNodes(p) + {z}
  {
    hide Linked, LinkedPath, Nodes, PathNodes, Proper, ProperPath, PathRoot, Plug, InOrder, Zip, ProperZip;
    hide Colored, ColoredPath, RedBlack, RedFocus, BlackHeight;
    assert allocated(PathNodes(p));
    LinkLeaf(z, y, goLeft, header, p);
    ghost var leaf := Bin(Nil, z, z.color, Nil);
    LeafWalk(z, z.color);
    LeafColors(z, z.color, p);
    s := Rebalance(z, header, leaf, p);
  }

  class RbTree<K(!new), V(0)> {
    const header: Node<V>
    const keyOf: V -> K
    const less: (K, K) -> bool
    var nodeCount: nat
    ghost var shape: Tree<Node<V>>

    ghost predicate Valid()
      reads this, header, Nodes(shape)
    {
      && StrictWeakOrder(less)
      && header.color == Red
      && Zip(shape, Top, header) && RedBlack(shape)
      && Ends(Elements(), header)
      && nodeCount == |Elements()|
      && SortedWalk(Elements(), keyOf, less)
    }

    /** The nodes in iteration order. */
    ghost function Elements(): seq<Node<V>>
      reads this
    {
      InOrder(shape)
    }

    ghost predicate Equivalent(v: V, n: Node<V>) {
      !less(keyOf(v), keyOf(n.value)) && !less(keyOf(n.value), keyOf(v))
    }

    constructor (keyOf: V -> K, less: (K, K) -> bool)
      requires StrictWeakOrder(less)
      ensures Valid() && Elements() == [] && fresh(header)
      ensures this.keyOf == keyOf && this.less == less
    {
      this.keyOf, this.less := keyOf, less;
      header := new Node<V>.Header();
      nodeCount := 0;
      shape := Nil;
      new;
      header.color := Red;
      header.parent := null;
      header.left := header;
      header.right := header;
    }

    /** The tree holds `w` with the new node `z` for `v` at position `i`. */
    ghost predicate Holds(w: seq<Node<V>>, i: nat, z: Node<V>, v: V)
      reads this
    {
      i <= |w| && Elements() == w[..i] + [z] + w[i..] && z.value == v
    }

    /** `_M_insert`: links a new node at the null link `p` below `y`. */
    method InsertAt(x: Node?<V>, y: Node<V>, v: V, ghost p: Path<Node<V>>) returns (z: Node<V>)
      requires Valid()
      requires Plug(Nil, p) == shape && y == UpNode(p, header)
      requires (y == header || x != null || less(keyOf(v), keyOf(y.value))) <==> !p.InRight?
      requires FitsAt(Elements(), |Before(p)|, v, keyOf, less)
      modifies this, header, Nodes(shape)
      ensures Valid() && fresh(z) && Holds(old(Elements()), |Before(p)|, z, v)
      ensures Nodes(shape) == old(Nodes(shape)) + {z}
    {
      hide Linked, LinkedPath, Nodes, PathNodes, Proper, ProperPath, PathRoot, Plug, InOrder, Zip, ProperZip;
      hide Colored, ColoredPath, StrictWeakOrder, SortedWalk, RedBlack, RedFocus, BlackHeight;
      ghost var w := Elements();
      WalkIsInOrder(Nil, p);
      ZipAt(shape, Nil, p, header);
      ZipParts(Nil, p, header);
      NilEmpty<Node<V>>();
      assert allocated(PathNodes(p));
      GapWalk(w, p);
      z := new Node<V>(v);
      ghost var s := PlaceLeaf(z, y, y == header || x != null || less(keyOf(v), keyOf(y.value)), header, p);
      NotANode(Nodes(s) + PathNodes<Node<V>>(Top), s);
      nodeCount := nodeCount + 1;
      shape := s;
      SortedInsert(w, |Before(p)|, z, keyOf, less);
    }

    lemma NotANode(objects: set<object>, t: Tree<Node<V>>)
      requires objects == Nodes(t) + PathNodes<Node<V>>(Top)
      ensures this !in objects
    {
    }

    // ---------- positions ----------

    lemma EndsAreDistinct(i: nat)
      requires Valid() && i < |Elements()|
      ensures Elements()[i] != header
      ensures header.left == Elements()[i] <==> i == 0
      ensures forall j :: 0 <= j < |Elements()| && j != i ==> Elements()[j] != Elements()[i]
    {
      WalkDistinct(shape);
      InOrderNodes(shape);
    }

    /** `++` at the `i`-th node. */
    method Next(x: Node<V>, ghost i: nat) returns (r: Node<V>)
      requires Valid() && i < |Elements()| && x == Elements()[i]
      ensures r == First(Elements()[i + 1..], header)
    {
      ghost var f, p := FocusAt(shape, i);
      ZipAt(shape, f, p, header);
      r := Increment(x, header, f, p);
    }

    /** `--` at position `i`, which may be the end. */
    method Prev(x: Node<V>, ghost i: nat) returns (r: Node<V>)
      requires Valid() && 0 < i <= |Elements()| && x == First(Elements()[i..], header)
      ensures r == Elements()[i - 1]
    {
      hide Linked, LinkedPath, Nodes, PathNodes, Proper, ProperPath, PathRoot, Plug, InOrder, Zip, RedBlack, Before,
        After;
      TopFocus(shape);
      ghost var f, p := shape, Top;
      EmptyIsNil(shape);
      if i < |Elements()| {
        EndsAreDistinct(i);
        f, p := FocusAt(shape, i);
        ZipAt(shape, f, p, header);
      }
      r := Decrement(x, header, f, p);
    }

    // ---------- insertion ----------

    /** `insert_equal`: behind all elements that are not greater. */
    method InsertEqual(v: V) returns (z: Node<V>, ghost i: nat)
      requires Valid()
      modifies this, header, Nodes(shape)
      ensures Valid() && fresh(z) && Holds(old(Elements()), i, z, v)
      ensures Nodes(shape) == old(Nodes(shape)) + {z}
      ensures forall j :: 0 <= j < i ==> !less(keyOf(v), keyOf(old(Elements())[j].value))
      ensures forall j :: i <= j < |old(Elements())| ==> less(keyOf(v), keyOf(old(Elements())[j].value))
    {
      hide Linked, LinkedPath, Nodes, PathNodes, ProperPath, PathRoot, Plug, InOrder, Zip, RedBlack, Splits,
        StrictWeakOrder, SortedWalk, StrictlySorted;
      assert allocated(Nodes(shape)) && allocated(PathNodes<Node<V>>(Top));
      var y, comp;
      ghost var p;
      y, comp, p := InsertionPoint(keyOf(v), header, keyOf, less, shape);
      i := |Before(p)|;
      PointFits(v, p);
      z := InsertAt(null, y, v, p);
    }

    /** What an insertion point says about the neighbours of the new node. */
    lemma PointFits(v: V, p: Path<Node<V>>)
      requires Valid() && Zip(Nil, p, header)
      requires Elements() == Before(p) + After(p)
      requires Splits(Elements(), |Before(p)|, |Before(p)|, u => less(keyOf(v), keyOf(u)))
      ensures FitsAt(Elements(), |Before(p)|, v, keyOf, less)
      ensures UpNode(p, header) == header <==> p.Top?
      ensures p.InRight? ==> Before(p) != [] && UpNode(p, header) == Elements()[|Before(p)| - 1]
      ensures p.InLeft? ==> After(p) != [] && UpNode(p, header) == Elements()[|Before(p)|]
      ensures p.Top? ==> Elements() == []
    {
      EndsWithLeaf(header, p, header);
    }

    /** `insert_unique`: only when no element is equivalent. */
    method InsertUnique(v: V) returns (r: Node<V>, inserted: bool, ghost i: nat)
      requires Valid()
      modifies this, header, Nodes(shape)
      ensures Valid()
      ensures inserted <==> forall n :: n in old(Elements()) ==> !Equivalent(v, n)
      ensures inserted ==> fresh(r) && Holds(old(Elements()), i, r, v) && Nodes(shape) == old(Nodes(shape)) + {r}
      ensures !inserted ==> shape == old(shape) && r in Elements() && Equivalent(v, r)
      ensures StrictlySorted(old(Elements()), keyOf, less) ==> StrictlySorted(Elements(), keyOf, less)
    {
      hide Linked, LinkedPath, Nodes, PathNodes, ProperPath, PathRoot, Plug, InOrder, Zip, RedBlack, Splits,
        StrictWeakOrder, SortedWalk, StrictlySorted;
      assert allocated(Nodes(shape)) && allocated(PathNodes<Node<V>>(Top));
      var y, comp;
      ghost var p;
      y, comp, p := InsertionPoint(keyOf(v), header, keyOf, less, shape);
      i := |Before(p)|;
      ghost var w := Elements();
      PointFits(v, p);
      UniqueAt(w, i, v);
      if i < |w| {
        EndsAreDistinct(i);
      }
      var j := y;
      if comp {
        if j == header.left {
          r := InsertAt(null, y, v, p);
          if StrictlySorted(w, keyOf, less) {
            StrictlySortedInsert(w, i, r);
          }
          return r, true, i;
        }
        j := Prev(j, i);
      }
      if less(keyOf(j.value), keyOf(v)) {
        r := InsertAt(null, y, v, p);
        if StrictlySorted(w, keyOf, less) {
          StrictlySortedInsert(w, i, r);
        }
        return r, true, i;
      }
      return j, false, i;
    }

    /** At a point that splits the walk, only the element before it can be equivalent. */
    lemma UniqueAt(w: seq<Node<V>>, i: nat, v: V)
      requires StrictWeakOrder(less) && SortedWalk(w, keyOf, less)
      requires Splits(w, i, i, u => less(keyOf(v), keyOf(u)))
      ensures (forall n :: n in w ==> !Equivalent(v, n)) <==> (i > 0 ==> less(keyOf(w[i - 1].value), keyOf(v)))
      ensures i > 0 && !less(keyOf(w[i - 1].value), keyOf(v)) ==> Equivalent(v, w[i - 1])
      ensures i < |w| ==> less(keyOf(v), keyOf(w[i].value))
    {
      assert i > 0 ==> w[i - 1] in w;
    }

    lemma StrictlySortedInsert(w: seq<Node<V>>, i: nat, z: Node<V>)
      requires StrictWeakOrder(less) && StrictlySorted(w, keyOf, less) && i <= |w|
      requires i > 0 ==> less(keyOf(w[i - 1].value), keyOf(z.value))
      requires i < |w| ==> less(keyOf(z.value), keyOf(w[i].value))
      ensures StrictlySorted(w[..i] + [z] + w[i..], keyOf, less)
    {
    }

    // ---------- insertion with a hint ----------

    lemma GapBelow(i: nat) returns (p: Path<Node<V>>)
      requires Valid() && i < |Elements()| && Elements()[i].left == null
      ensures Plug(Nil, p) == shape && p.InLeft? && p.node == Elements()[i] && |Before(p)| == i
      ensures Elements()[i] != header
    {
      var f, q := FocusAt(shape, i);
      ZipAt(shape, f, q, header);
      ZipParts(f, q, header);
      p := InLeft(q, f.node, f.color, f.right);
    }

    lemma GapAbove(i: nat) returns (p: Path<Node<V>>)
      requires Valid() && i < |Elements()| && Elements()[i].right == null
      ensures Plug(Nil, p) == shape && p.InRight? && p.node == Elements()[i] && |Before(p)| == i + 1
      ensures Elements()[i] != header
    {
      var f, q := FocusAt(shape, i);
      ZipAt(shape, f, q, header);
      ZipParts(f, q, header);
      p := InRight(f.left, f.node, f.color, q);
    }

    /** The first node has no left child, and neither has the node after one with a right child. */
    lemma NoLeftChild(i: nat)
      requires Valid() && i < |Elements()|
      requires i > 0 ==> Elements()[i - 1].right != null
      ensures Elements()[i].left == null
    {
      var t, q := shape, Top;
      if i > 0 {
        var f, p := FocusAt(shape, i - 1);
        ZipAt(shape, f, p, header);
        ZipParts(f, p, header);
        t, q := f.right, InRight(f.left, f.node, f.color, p);
      }
      EmptyIsNil(t);
      var m, d := LeftmostOf(t);
      PlugAppend(m, d, q);
      ZipAt(shape, m, Append(d, q), header);
      ZipParts(m, Append(d, q), header);
    }

    lemma NoRightChild()
      requires Valid() && Elements() != []
      ensures Elements()[|Elements()| - 1].right == null
    {
      var f, p := FocusAt(shape, |Elements()| - 1);
      EmptyIsNil(f.right);
      ZipAt(shape, f, p, header);
      ZipParts(f, p, header);
    }

    /** A value that fits between two neighbours is linked below the one that has no child on that side. */
    method InsertBetween(before: Node<V>, position: Node<V>, v: V, ghost k: nat) returns (r: Node<V>)
      requires Valid() && 0 < k < |Elements()| && before == Elements()[k - 1] && position == Elements()[k]
      requires FitsAt(Elements(), k, v, keyOf, less) && !less(keyOf(v), keyOf(before.value))
      modifies this, header, Nodes(shape)
      ensures Valid() && fresh(r) && Holds(old(Elements()), k, r, v) && Nodes(shape) == old(Nodes(shape)) + {r}
    {
      hide Linked, LinkedPath, Nodes, PathNodes, ProperPath, PathRoot, Plug, InOrder, Zip, RedBlack, StrictWeakOrder,
        SortedWalk, StrictlySorted;
      assert allocated(Nodes(shape)) && allocated(PathNodes<Node<V>>(Top));
      ghost var p;
      EndsAreDistinct(k);
      if before.right == null {
        p := GapAbove(k - 1);
        r := InsertAt(null, before, v, p);
      } else {
        NoLeftChild(k);
        p := GapBelow(k);
        r := InsertAt(position, position, v, p);
      }
    }

    /** `insert_unique` with a hint: the hint changes neither whether the value is added nor the outcome. */
    method InsertUniqueAt(position: Node<V>, v: V, ghost k: nat)
                          returns (r: Node<V>, ghost inserted: bool, ghost i: nat)
      requires Valid() && k <= |Elements()| && position == First(Elements()[k..], header)
      modifies this, header, Nodes(shape)
      ensures Valid()
      ensures inserted <==> forall n :: n in old(Elements()) ==> !Equivalent(v, n)
      ensures inserted ==> fresh(r) && Holds(old(Elements()), i, r, v) && Nodes(shape) == old(Nodes(shape)) + {r}
      ensures !inserted ==> shape == old(shape) && r in Elements() && Equivalent(v, r)
      ensures StrictlySorted(old(Elements()), keyOf, less) ==> StrictlySorted(Elements(), keyOf, less)
    {
      hide Linked, LinkedPath, Nodes, PathNodes, ProperPath, PathRoot, Plug, InOrder, Zip, RedBlack, StrictWeakOrder,
        SortedWalk, StrictlySorted;
      assert allocated(Nodes(shape)) && allocated(PathNodes<Node<V>>(Top));
      ghost var w := Elements();
      ghost var p, direct := Top, false;
      i := k;
      if w != [] {
        EndsAreDistinct(0);
      }
      if k < |w| {
        EndsAreDistinct(k);
      }
      if position == header.left {
        if nodeCount > 0 && less(keyOf(v), keyOf(position.value)) {
          NoLeftChild(0);
          p := GapBelow(0);
          UniqueBetween(w, 0, v);
          r := InsertAt(position, position, v, p);
          inserted, direct := true, true;
        } else {
          var added;
          r, added, i := InsertUnique(v);
          inserted := added;
        }
      } else if position == header {
        if less(keyOf(header.right.value), keyOf(v)) {
          NoRightChild();
          p := GapAbove(|w| - 1);
          UniqueBetween(w, |w|, v);
          r := InsertAt(null, header.right, v, p);
          inserted, direct := true, true;
        } else {
          var added;
          r, added, i := InsertUnique(v);
          inserted := added;
        }
      } else {
        var before := Prev(position, k);
        if less(keyOf(before.value), keyOf(v)) && less(keyOf(v), keyOf(position.value)) {
          UniqueBetween(w, k, v);
          r := InsertBetween(before, position, v, k);
          inserted, direct := true, true;
        } else {
          var added;
          r, added, i := InsertUnique(v);
          inserted := added;
        }
      }
      if direct && StrictlySorted(w, keyOf, less) {
        StrictlySortedInsert(w, i, r);
      }
    }

    /** A value strictly between its neighbours is equivalent to no element. */
    lemma UniqueBetween(w: seq<Node<V>>, i: nat, v: V)
      requires StrictWeakOrder(less) && SortedWalk(w, keyOf, less) && i <= |w|
      requires i > 0 ==> less(keyOf(w[i - 1].value), keyOf(v))
      requires i < |w| ==> less(keyOf(v), keyOf(w[i].value))
      ensures forall n :: n in w ==> !Equivalent(v, n)
      ensures FitsAt(w, i, v, keyOf, less)
      ensures i > 0 ==> !less(keyOf(v), keyOf(w[i - 1].value))
    {
    }

    /** When the hint decides the place: the value fits there, and at the very front it is less. */
    ghost predicate HintTaken(w: seq<Node<V>>, k: nat, v: V) {
      FitsAt(w, k, v, keyOf, less) && (k == 0 && w != [] ==> less(keyOf(v), keyOf(w[0].value)))
    }

    /** `insert_equal` with a hint: a new element always comes in, at the hint or else behind its equals. */
    method InsertEqualAt(position: Node<V>, v: V, ghost k: nat) returns (r: Node<V>, ghost i: nat)
      requires Valid() && k <= |Elements()| && position == First(Elements()[k..], header)
      modifies this, header, Nodes(shape)
      ensures Valid() && fresh(r) && Holds(old(Elements()), i, r, v)
      ensures Nodes(shape) == old(Nodes(shape)) + {r}
      ensures HintTaken(old(Elements()), k, v) ==> i == k
      ensures k > 0 && !less(keyOf(v), keyOf(old(Elements())[k - 1].value)) ==>
        (k == |old(Elements())| || !less(keyOf(old(Elements())[k].value), keyOf(v)) ==> i == k)
      ensures !HintTaken(old(Elements()), k, v) ==> forall j :: 0 <= j < i ==>
        !less(keyOf(v), keyOf(old(Elements())[j].value))
      ensures !HintTaken(old(Elements()), k, v) ==> forall j :: i <= j < |old(Elements())| ==>
        less(keyOf(v), keyOf(old(Elements())[j].value))
    {
      hide Linked, LinkedPath, Nodes, PathNodes, ProperPath, PathRoot, Plug, InOrder, Zip, RedBlack, StrictWeakOrder,
        SortedWalk, StrictlySorted, Proper, ProperZip, Colored, ColoredPath, BlackHeight;
      assert allocated(Nodes(shape)) && allocated(PathNodes<Node<V>>(Top));
      ghost var w := Elements();
      ghost var p;
      i := k;
      if w != [] {
        EndsAreDistinct(0);
      }
      if k < |w| {
        EndsAreDistinct(k);
      }
      if position == header.left {
        if nodeCount > 0 && less(keyOf(v), keyOf(position.value)) {
          NoLeftChild(0);
          p := GapBelow(0);
          Asymmetric(less, keyOf(v), keyOf(position.value));
          r := InsertAt(position, position, v, p);
        } else {
          r, i := InsertEqual(v);
        }
      } else if position == header {
        if !less(keyOf(v), keyOf(header.right.value)) {
          NoRightChild();
          p := GapAbove(|w| - 1);
          r := InsertAt(null, header.right, v, p);
        } else {
          r, i := InsertEqual(v);
        }
      } else {
        var before := Prev(position, k);
        if !less(keyOf(v), keyOf(before.value)) && !less(keyOf(position.value), keyOf(v)) {
          r := InsertBetween(before, position, v, k);
        } else {
          r, i := InsertEqual(v);
        }
      }
    }

    // ---------- erasure ----------

    lemma SortedErase(w: seq<Node<V>>, i: nat, j: nat)
      requires SortedWalk(w, keyOf, less) && i <= j <= |w|
      ensures SortedWalk(w[..i] + w[j..], keyOf, less)
    {
    }

    /** `erase(position)`: takes out exactly the node `z`. */
    method Erase(z: Node<V>, ghost i: nat)
      requires Valid() && i < |Elements()| && z == Elements()[i]
      modifies this, header, Nodes(shape)
      ensures Valid() && Elements() == old(Elements())[..i] + old(Elements())[i + 1..]
      ensures Nodes(shape) == old(Nodes(shape)) - {z}
    {
      hide Linked, LinkedPath, Nodes, PathNodes, ProperPath, PathRoot, Plug, InOrder, Zip, RedBlack, StrictWeakOrder,
        SortedWalk;
      ghost var w := Elements();
      ghost var f, p := FocusAt(shape, i);
      ZipAt(shape, f, p, header);
      ZipParts(f, p, header);
      var y;
      ghost var s;
      y, s := RebalanceForErase(z, header, f, p);
      NotANode(Nodes(s) + PathNodes<Node<V>>(Top), s);
      nodeCount := nodeCount - 1;
      shape := s;
      SortedErase(w, i, i + 1);
    }

    /** `clear`. */
    method Clear()
      requires Valid()
      modifies this, header
      ensures Valid() && Elements() == []
    {
      EmptyIsNil(shape);
      if nodeCount != 0 {
        header.left := header;
        header.parent := null;
        header.right := header;
        nodeCount := 0;
        shape := Nil;
      }
    }

    /** Positions and the nodes that stand for them correspond one to one. */
    lemma PositionsAreDistinct()
      requires Valid()
      ensures Distinct(Elements()) && header !in Elements()
    {
      WalkDistinct(shape);
      InOrderNodes(shape);
    }

    /** The element at place `i` is erased, `w` being the elements to start with: the next one takes its place. */
    method EraseOne(at: Node<V>, ghost w: seq<Node<V>>, ghost i: nat, ghost k: nat, ghost j: nat, last: Node<V>)
        returns (next: Node<V>)
      requires Valid() && i <= k < j <= |w| && Elements() == w[..i] + w[k..] && at == First(w[k..], header)
      requires last == First(w[j..], header)
      modifies this, header, Nodes(shape)
      ensures Valid() && Elements() == w[..i] + w[k + 1..] && next == First(w[k + 1..], header)
      ensures Nodes(shape) <= old(Nodes(shape))
    {
      hide Linked, LinkedPath, Nodes, PathNodes, ProperPath, PathRoot, Plug, InOrder, Zip, RedBlack, StrictWeakOrder,
        SortedWalk;
      assert allocated(Nodes(shape)) && allocated(PathNodes<Node<V>>(Top));
      OneCut(w, i, k);
      next := Next(at, i);
      Erase(at, i);
    }

    /** `erase(first, last)`. */
    method EraseRange(first: Node<V>, last: Node<V>, ghost i: nat, ghost j: nat)
      requires Valid() && i <= j <= |Elements()|
      requires first == First(Elements()[i..], header) && last == First(Elements()[j..], header)
      modifies this, header, Nodes(shape)
      ensures Valid() && Elements() == old(Elements())[..i] + old(Elements())[j..]
    {
      hide Linked, LinkedPath, Nodes, PathNodes, ProperPath, PathRoot, Plug, InOrder, Zip, RedBlack, StrictWeakOrder,
        SortedWalk;
      ghost var w := Elements();
      PositionsAreDistinct();
      if first == header.left && last == header {
        Clear();
      } else {
        var at := first;
        ghost var k := i;
        while at != last
          invariant i <= k <= j && Valid() && Elements() == w[..i] + w[k..]
          invariant Nodes(shape) <= old(Nodes(shape))
          invariant at == First(w[k..], header)
          decreases j - k
        {
          at := EraseOne(at, w, i, k, j, last);
          k := k + 1;
        }
      }
    }

    // ---------- search ----------

    /** The positions of the elements equivalent to `k`. */
    ghost predicate Run(w: seq<Node<V>>, i: nat, j: nat, k: K) {
      && i <= j <= |w|
      && forall m :: 0 <= m < |w| ==> (i <= m < j <==> !less(keyOf(w[m].value), k) && !less(k, keyOf(w[m].value)))
    }

    /** `equal_range`: exactly the elements equivalent to `k`. */
    method EqualRange(k: K) returns (first: Node<V>, last: Node<V>, ghost i: nat, ghost j: nat)
      requires Valid()
      ensures Run(Elements(), i, j, k)
      ensures first == First(Elements()[i..], header) && last == First(Elements()[j..], header)
    {
      hide Linked, LinkedPath, Nodes, PathNodes, ProperPath, PathRoot, Plug, InOrder, Zip, RedBlack, StrictWeakOrder,
        SortedWalk, Splits;
      assert allocated(Nodes(shape)) && allocated(PathNodes<Node<V>>(Top));
      first, i := RbSearch.LowerBound(k, header, keyOf, less, shape);
      last, j := RbSearch.UpperBound(k, header, keyOf, less, shape);
      RangeIsRun(Elements(), i, j, k);
    }

    lemma RangeIsRun(w: seq<Node<V>>, i: nat, j: nat, k: K)
      requires StrictWeakOrder(less) && SortedWalk(w, keyOf, less)
      requires Splits(w, i, i, v => !less(keyOf(v), k)) && Splits(w, j, j, v => less(k, keyOf(v)))
      ensures Run(w, i, j, k)
    {
      assert j < |w| ==> !less(keyOf(w[j].value), k) by {
        if j < |w| && less(k, keyOf(w[j].value)) {
          Asymmetric(less, k, keyOf(w[j].value));
        }
      }
    }

    /** `distance`, by stepping. */
    method Distance(first: Node<V>, last: Node<V>, ghost i: nat, ghost j: nat) returns (n: nat)
      requires Valid() && i <= j <= |Elements()|
      requires first == First(Elements()[i..], header) && last == First(Elements()[j..], header)
      ensures n == j - i
    {
      hide Linked, LinkedPath, Nodes, PathNodes, ProperPath, PathRoot, Plug, InOrder, Zip, RedBlack, StrictWeakOrder,
        SortedWalk;
      PositionsAreDistinct();
      assert allocated(Nodes(shape)) && allocated(PathNodes<Node<V>>(Top));
      n := 0;
      var at := first;
      while at != last
        invariant Valid() && i + n <= j && at == First(Elements()[i + n..], header)
        decreases j - i - n
      {
        at := Next(at, i + n);
        n := n + 1;
      }
    }

    /** `count`. */
    method Count(k: K) returns (n: nat, ghost i: nat)
      requires Valid()
      ensures Run(Elements(), i, i + n, k)
    {
      var first, last;
      ghost var j;
      assert allocated(Nodes(shape)) && allocated(PathNodes<Node<V>>(Top));
      first, last, i, j := EqualRange(k);
      n := Distance(first, last, i, j);
    }

    /** `erase(key)`: takes out every element equivalent to `k` and tells how many. */
    method EraseKey(k: K) returns (n: nat, ghost i: nat)
      requires Valid()
      modifies this, header, Nodes(shape)
      ensures Valid() && Run(old(Elements()), i, i + n, k)
      ensures Elements() == old(Elements())[..i] + old(Elements())[i + n..]
    {
      hide Linked, LinkedPath, Nodes, PathNodes, ProperPath, PathRoot, Plug, InOrder, Zip, RedBlack, StrictWeakOrder,
        SortedWalk;
      var first, last;
      ghost var j;
      assert allocated(Nodes(shape)) && allocated(PathNodes<Node<V>>(Top));
      first, last, i, j := EqualRange(k);
      n := Distance(first, last, i, j);
      EraseRange(first, last, i, j);
    }

    /** `find`: the first equivalent element, or the end. */
    method Find(k: K) returns (r: Node<V>, ghost i: nat, ghost j: nat)
      requires Valid()
      ensures Run(Elements(), i, j, k)
      ensures r == if i == j then header else Elements()[i]
    {
      hide Linked, LinkedPath, Nodes, PathNodes, ProperPath, PathRoot, Plug, InOrder, Zip, RedBlack, StrictWeakOrder,
        SortedWalk;
      assert allocated(Nodes(shape)) && allocated(PathNodes<Node<V>>(Top));
      var y;
      y, i := RbSearch.LowerBound(k, header, keyOf, less, shape);
      PositionsAreDistinct();
      j := UpperIndex(k, i);
      r := if y == header || less(k, keyOf(y.value)) then header else y;
    }

    lemma UpperIndex(k: K, i: nat) returns (j: nat)
      requires Valid() && Splits(Elements(), i, i, v => !less(keyOf(v), k))
      ensures Run(Elements(), i, j, k)
    {
      j := i;
      var w := Elements();
      while j < |w| && !less(k, keyOf(w[j].value))
        invariant i <= j <= |w|
        invariant forall m :: i <= m < j ==> !less(k, keyOf(w[m].value))
      {
        j := j + 1;
      }
      UpperMonotone(w, keyOf, less, k);
      assert Splits(w, j, j, v => less(k, keyOf(v))) by {
        assert forall m :: 0 <= m < i ==> less(keyOf(w[m].value), k);
      }
      RangeIsRun(w, i, j, k);
    }
  }

  lemma TopFocus<N>(t: Tree<N>)
    ensures Plug(t, Top) == t && Walk(t, Top) == InOrder(t) && Before<N>(Top) == After<N>(Top) == []
  {
  }

  /** The leftmost focus of a tree. */
  lemma {:induction false} LeftmostOf<N>(t: Tree<N>) returns (m: Tree<N>, q: Path<N>)
    requires t.Bin?
    ensures Plug(m, q) == t && m.Bin? && m.left.Nil? && m.node == InOrder(t)[0]
  {
    if t.left.Nil? {
      m, q := t, Top;
    } else {
      var d;
      m, d := LeftmostOf(t.left);
      q := Append(d, InLeft(Top, t.node, t.color, t.right));
      PlugAppend(m, d, InLeft(Top, t.node, t.color, t.right));
      EmptyIsNil(t.left);
    }
  }

  lemma DistinctConcat<N>(a: seq<N>, n: N, b: seq<N>, left: set<N>, right: set<N>)
    requires Distinct(a) && Distinct(b)
    requires forall x :: x in a ==> x in left
    requires forall x :: x in b ==> x in right
    requires left !! right && n !in left && n !in right
    ensures Distinct(a + [n] + b)
  {
    assert forall i :: 0 <= i < |a| ==> a[i] in a;
    assert forall i :: 0 <= i < |b| ==> b[i] in b;
  }

  lemma {:induction false} WalkDistinct<N>(t: Tree<N>)
    requires Proper(t)
    ensures Distinct(InOrder(t))
  {
    if t.Bin? {
      WalkDistinct(t.left);
      WalkDistinct(t.right);
      InOrderNodes(t.left);
      InOrderNodes(t.right);
      DistinctConcat(InOrder(t.left), t.node, InOrder(t.right), Nodes(t.left), Nodes(t.right));
    }
  }

  lemma LeafColors<V(0)>(z: Node<V>, c: Color, p: Path<Node<V>>)
    requires RedBlack(Plug(Nil, p))
    ensures RedFocus(Bin(Nil, z, c, Nil).(color := Red), p)
  {
    ColoredUnplug(Nil, p);
  }

  lemma LeafWalk<N>(z: N, c: Color)
    ensures InOrder(Bin(Nil, z, c, Nil)) == [z] && Nodes(Bin(Nil, z, c, Nil)) == {z}
  {
  }

  lemma NilEmpty<N>()
    ensures Nodes<N>(Nil) == {}
  {
  }

  lemma OneCut<N>(w: seq<N>, i: nat, k: nat)
    requires i <= k < |w|
    ensures var e := w[..i] + w[k..]; i < |e| && e[i] == w[k] && e[i + 1..] == w[k + 1..] && e[..i] == w[..i]
    ensures w[k..] != [] && w[k..][0] == w[k]
  {
  }

  lemma GapWalk<N>(w: seq<N>, p: Path<N>)
    requires w == Walk(Nil, p)
    ensures w == Before(p) + After(p)
    ensures |Before(p)| <= |w| && Before(p) == w[..|Before(p)|] && After(p) == w[|Before(p)|..]
  {
  }
}
