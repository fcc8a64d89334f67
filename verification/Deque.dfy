/** The deque: a map of fixed-size nodes that behaves like one sequence. */
module Deque {
  import opened Sequences
  import opened DequeIterator
  import opened Copying

  /** The contents of some arrays, one row each. */
  ghost function RowsOf<T>(nodes: seq<array<T>>): (rows: seq<seq<T>>)
    reads nodes
    ensures |rows| == |nodes| && forall i :: 0 <= i < |nodes| ==> rows[i] == nodes[i][..]
  {
    if nodes == [] then [] else [nodes[0][..]] + RowsOf(nodes[1..])
  }

  ghost function NodeSet<T>(nodes: seq<array<T>>): set<array<T>> {
    set x | x in nodes
  }

  /** The addresses of nodes. `addr` goes on knowing those of nodes that have been given back; a new node may get
      such an address again. */
  ghost function Live<T>(owned: set<array<T>>, addr: map<array<T>, nat>): set<nat> {
    set x | x in owned && x in addr :: addr[x]
  }

  /** Allocated nodes have addresses of their own. */
  ghost predicate Addressed<T>(owned: set<array<T>>, addr: map<array<T>, nat>) {
    owned <= addr.Keys && forall x, y :: x in owned && y in owned && x != y ==> addr[x] != addr[y]
  }

  /** The slot holds one of these addresses. */
  ghost predicate PointsTo<T>(x: array?<T>, live: set<nat>, addr: map<array<T>, nat>) {
    x != null && x in addr && addr[x] in live
  }

  /** The class comment: exactly the slots from `base` on, as many as there are nodes, point to allocated nodes. */
  ghost predicate ExactlyInUse<T>(s: seq<array?<T>>, live: set<nat>, addr: map<array<T>, nat>, base: nat, n: nat) {
    forall i :: 0 <= i < |s| ==> (PointsTo(s[i], live, addr) <==> base <= i < base + n)
  }

  /** No slot before `lo` or from `hi` on holds one of these addresses. */
  ghost predicate NoneOutside<T>(s: seq<array?<T>>, live: set<nat>, addr: map<array<T>, nat>, lo: int, hi: int) {
    forall i :: 0 <= i < |s| && !(lo <= i < hi) ==> !PointsTo(s[i], live, addr)
  }

  /** The addresses that the allocator will return are different from each other and from those in use. */
  ghost predicate Supplied(place: nat -> nat, live: set<nat>) {
    (forall i, j :: i != j ==> place(i) != place(j)) && forall i :: place(i) !in live
  }

  /** The first `k` of them. */
  ghost function Used(place: nat -> nat, k: nat): set<nat> {
    set j | 0 <= j < k :: place(j)
  }

  class Deque<T(0)> {
    const b: nat
    var slots: array<array?<T>>
    var start: Iter
    var finish: Iter
    /** The allocated nodes in use, the slot of the first, and all nodes allocated and not given back. */
    ghost var nodes: seq<array<T>>
    ghost var base: nat
    ghost var owned: set<array<T>>
    ghost var addr: map<array<T>, nat>

    /** The slots from `base` on point to the nodes. */
    ghost predicate MemOk()
      reads this`nodes, this`base, this`owned, this`addr, this`slots, slots
    {
      && b > 0 && 0 < |nodes| && base + |nodes| <= slots.Length
      && slots[base..base + |nodes|] == nodes && NodesOk() && NotNode(slots) && NodeSet(nodes) <= owned &&
        Addressed(owned, addr)
    }

    /** The nodes are distinct and of the same size. */
    ghost predicate NodesOk()
      reads this`nodes
    {
      && (forall i :: 0 <= i < |nodes| ==> nodes[i].Length == b)
      && (forall i, j :: 0 <= i < j < |nodes| ==> nodes[i] != nodes[j])
      && NotNode(this)
    }

    ghost predicate NotNode(o: object)
      reads this`nodes
    {
      forall i :: 0 <= i < |nodes| ==> (nodes[i] as object) != o
    }

    lemma SlotAt(i: nat)
      requires MemOk() && i < |nodes|
      ensures slots[base + i] == nodes[i] && nodes[i].Length == b
    {
      assert slots[base..base + |nodes|][i] == slots[base + i];
    }

    /** The storage of the nodes, end to end. */
    ghost function Mem(): seq<T>
      reads this`nodes, nodes
    {
      Flat(RowsOf(nodes))
    }

    /** Where in that storage an iterator points. */
    ghost function Rel(it: Iter): int
      reads this`base
    {
      Pos(b, it) - Pos(b, Iter(base, 0))
    }

    ghost predicate InNodes(it: Iter)
      reads this`base, this`nodes
    {
      base <= it.node < base + |nodes| && Inside(b, it)
    }

    /** Both iterators can be dereferenced, whatever nodes are allocated around them. */
    ghost predicate Spread()
      reads this, slots
    {
      MemOk() && InNodes(start) && InNodes(finish) && Rel(start) <= Rel(finish)
    }

    /** The class invariants: the nodes in use are those from the start's to the finish's. */
    ghost predicate Valid()
      reads this, slots
    {
      Spread() && start.node == base && finish.node == base + |nodes| - 1
    }

    /** The last of the class invariants as the comment states it. It is not one of `Valid()`: the operations say
        when it is lost. */
    ghost predicate OnlyInUse()
      reads this, slots
    {
      ExactlyInUse(slots[..], Live(owned, addr), addr, base, |nodes|)
    }

    /** Once the slots from `lo` to `hi` are those in use, `k` new nodes among them, no other slot points to a node. */
    ghost predicate Alone(lo: int, hi: int, k: nat, place: nat -> nat)
      reads this, slots
    {
      NoneOutside(slots[..], Live(owned, addr) + Used(place, k), addr, lo, hi)
    }

    /** The exact condition for the class comment to hold once there are `k` new nodes at the back: on the slots as they
        are, around those to be in use, unless a new map is made. */
    ghost predicate AloneAtBack(k: nat, place: nat -> nat)
      reads this, slots
    {
      if k + 1 <= slots.Length - finish.node then Alone(base, base + |nodes| + k, k, place)
      else slots.Length > 2 * (|nodes| + k) ==>
        var to := NewStart(slots.Length, |nodes|, k, false); Alone(to, to + |nodes| + k, k, place)
    }

    /** And at the front. */
    ghost predicate AloneAtFront(k: nat, place: nat -> nat)
      reads this, slots
    {
      if k <= start.node then Alone(base - k, base + |nodes|, k, place)
      else slots.Length > 2 * (|nodes| + k) ==>
        var to := NewStart(slots.Length, |nodes|, k, true); Alone(to - k, to + |nodes|, k, place)
    }

    /** The new nodes that so many more elements need. */
    static function NodesFor(b: nat, elements: nat): nat
      requires b > 0
    {
      (elements + b - 1) / b
    }

    /** Whether the class comment holds after `n` elements are added at the back, or at the front. */
    ghost predicate StaysAtBack(n: nat, place: nat -> nat)
      requires Valid()
      reads this, slots
    {
      if n > b - finish.off - 1 then AloneAtBack(NodesFor(b, n - (b - finish.off - 1)), place) else OnlyInUse()
    }

    ghost predicate StaysAtFront(n: nat, place: nat -> nat)
      requires Valid()
      reads this, slots
    {
      if n > start.off then AloneAtFront(NodesFor(b, n - start.off), place) else OnlyInUse()
    }

    /** And after `n` are inserted behind the first `e`, on the nearer side. */
    ghost predicate Stays(e: int, n: nat, place: nat -> nat)
      requires Valid()
      reads this, slots, nodes
    {
      if e == 0 || e < |Contents()| / 2 then StaysAtFront(n, place) else StaysAtBack(n, place)
    }

    ghost function Contents(): (c: seq<T>)
      requires Spread()
      reads this, slots, nodes
      ensures |c| == Rel(finish) - Rel(start)
    {
      RelInside(start);
      RelInside(finish);
      Mem()[Rel(start)..Rel(finish)]
    }

    /** Nodes that are allocated but no longer in use. */
    ghost function Leaked(): set<array<T>>
      reads this
    {
      owned - NodeSet(nodes)
    }

    lemma RelInside(it: Iter)
      requires MemOk() && InNodes(it)
      ensures 0 <= Rel(it) < |Mem()| == |nodes| * b
      ensures Rel(it) == (it.node - base) * b + it.off
      ensures Mem()[Rel(it)] == nodes[it.node - base][it.off]
    {
      Times(it.node, base, b);
      FlatAt(RowsOf(nodes), b, it.node - base, it.off);
    }

    lemma RelStep(it: Iter, n: int)
      requires Inside(b, it)
      ensures Rel(Plus(b, it, n)) == Rel(it) + n && Inside(b, Plus(b, it, n))
      ensures Rel(Next(b, it)) == Rel(it) + 1 && Inside(b, Next(b, it))
      ensures Rel(Prev(b, it)) == Rel(it) - 1 && Inside(b, Prev(b, it))
    {
      PlusPos(b, it, n);
      StepPos(b, it);
    }

    /** An iterator whose position lies inside the storage points into a node in use. */
    lemma RelNode(it: Iter)
      requires MemOk() && Inside(b, it) && 0 <= Rel(it) < |Mem()|
      ensures InNodes(it)
    {
      FlatLength(RowsOf(nodes), b);
      Times(it.node, base, b);
      Times(it.node - base, |nodes|, b);
      Times(it.node - base - |nodes|, 0, b);
    }

    /** `*it = v`. */
    method Set(it: Iter, v: T)
      requires MemOk() && InNodes(it)
      modifies nodes
      ensures MemOk() && 0 <= Rel(it) < old(|Mem()|) && Mem() == old(Mem())[Rel(it) := v] && slots[..] == old(slots[..])
    {
      hide MemOk, Flat, Mem, Rel, RowsOf;
      SlotsApart();
      WrittenAt(it, v);
      WriteNode(slots[it.node], it.off, v, it.node - base);
      MemIs();
    }

    /** The storage when one place has been written. */
    lemma WrittenAt(it: Iter, v: T)
      requires MemOk() && InNodes(it)
      ensures it.node < slots.Length && slots[it.node] == nodes[it.node - base] && 0 <= it.off < b
      ensures nodes[it.node - base].Length == b && 0 <= Rel(it) < |Mem()|
      ensures |RowsOf(nodes)| == |nodes| && |RowsOf(nodes)[it.node - base]| == b
      ensures Flat(RowsOf(nodes)[it.node - base := RowsOf(nodes)[it.node - base][it.off := v]]) == Mem()[Rel(it) := v]
    {
      hide Flat, RowsOf, NotNode, Addressed;
      RelInside(it);
      RowsAre();
      SlotAt(it.node - base);
      FlatUpdate(RowsOf(nodes), b, it.node - base, it.off, v);
    }

    lemma RowsAre()
      requires MemOk()
      ensures |RowsOf(nodes)| == |nodes| && Rows(RowsOf(nodes), b)
    {
    }

    method WriteNode(node: array<T>, off: nat, v: T, ghost i: nat)
      requires MemOk() && i < |nodes| && node == nodes[i] && off < node.Length && |RowsOf(nodes)| == |nodes|
      requires |RowsOf(nodes)[i]| == node.Length
      modifies node
      ensures MemOk() && RowsOf(nodes) == old(RowsOf(nodes))[i := old(RowsOf(nodes))[i][off := v]]
    {
      ghost var rows := RowsOf(nodes);
      node[off] := v;
      assert RowsOf(nodes) == rows[i := rows[i][off := v]];
    }

    /** `*it`. */
    method Get(it: Iter) returns (v: T)
      requires MemOk() && InNodes(it)
      ensures 0 <= Rel(it) < |Mem()| && v == Mem()[Rel(it)]
    {
      RelInside(it);
      SlotAt(it.node - base);
      var node := slots[it.node];
      v := node[it.off];
    }

    /** `*to = *from`. */
    method Assign(to: Iter, from: Iter)
      requires MemOk() && Inside(b, to) && Inside(b, from) && 0 <= Rel(to) < |Mem()| && 0 <= Rel(from) < |Mem()|
      modifies nodes
      ensures MemOk() && Mem() == old(Mem()[Rel(to) := Mem()[Rel(from)]])
    {
      hide MemOk, Mem, Pos;
      RelNode(from);
      RelNode(to);
      var v := Get(from);
      Set(to, v);
    }

    // ---------- copying and filling through iterators ----------

    /** The next element of a forward copy has not been written over. */
    static lemma CellForward(m: seq<T>, at: nat, x: seq<T>, k: nat, f: nat)
      requires at + |x| <= |m| && f + |x| <= |m| && x == m[f..f + |x|] && k < |x| && (at <= f || at >= f + |x|)
      ensures var now := Overwritten(m, at, x[..k]);
              |now| == |m| && now[at + k := now[f + k]] == Overwritten(m, at, x[..k + 1])
    {
      OverwrittenStep(m, at, x, k);
    }

    /** Nor that of a backward copy. */
    static lemma CellBack(m: seq<T>, at: nat, x: seq<T>, k: nat, f: nat)
      requires at + |x| <= |m| && f + |x| <= |m| && x == m[f..f + |x|] && k < |x| && at >= f
      ensures var now := Overwritten(m, at + k + 1, x[k + 1..]);
              |now| == |m| && now[at + k := now[f + k]] == Overwritten(m, at + k, x[k..])
    {
      OverwrittenStep(m, at, x, k);
    }

    /** `copy`, inside the deque: towards the front, or to a place behind the range. */
    method CopyForward(first0: Iter, last: Iter, result0: Iter) returns (result: Iter)
      requires MemOk() && Inside(b, first0) && Inside(b, last) && Inside(b, result0)
      requires 0 <= Rel(first0) <= Rel(last) <= |Mem()| && 0 <= Rel(result0) <= |Mem()| - (Rel(last) - Rel(first0))
      requires Rel(result0) <= Rel(first0) || Rel(result0) >= Rel(last)
      modifies nodes
      ensures MemOk() && Inside(b, result) && Rel(result) == Rel(result0) + (Rel(last) - Rel(first0))
      ensures Mem() == old(Overwritten(Mem(), Rel(result0), Mem()[Rel(first0)..Rel(last)]))
    {
      hide MemOk, Mem, Overwritten, Pos;
      ghost var m, r, f := Mem(), Rel(result0), Rel(first0);
      ghost var x := m[f..Rel(last)];
      OverwrittenEnds(m, r, x);
      var first := first0;
      result := result0;
      while first != last
        invariant MemOk() && Inside(b, first) && Inside(b, result)
        invariant f <= Rel(first) <= Rel(last) && Rel(result) == r + (Rel(first) - f)
        invariant Mem() == Overwritten(m, r, x[..Rel(first) - f])
        decreases Rel(last) - Rel(first)
      {
        ghost var k := Rel(first) - f;
        BeforePos(b, first, last);
        CellForward(m, r, x, k, f);
        RelStep(first, 0);
        RelStep(result, 0);
        Assign(result, first);
        first := Next(b, first);
        result := Next(b, result);
      }
    }

    static lemma SameLength(m: seq<T>, at: nat, x: seq<T>)
      requires at + |x| <= |m|
      ensures |Overwritten(m, at, x)| == |m|
    {
    }

    /** `copy_backward`, inside the deque: towards the back. */
    method CopyBack(first: Iter, last0: Iter, result0: Iter) returns (result: Iter)
      requires MemOk() && Inside(b, first) && Inside(b, last0) && Inside(b, result0)
      requires 0 <= Rel(first) <= Rel(last0) <= Rel(result0) <= |Mem()|
      modifies nodes
      ensures MemOk() && Inside(b, result) && Rel(result) == Rel(result0) - (Rel(last0) - Rel(first))
      ensures Mem() == old(Overwritten(Mem(), Rel(result0) - (Rel(last0) - Rel(first)), Mem()[Rel(first)..Rel(last0)]))
    {
      hide MemOk, Mem, Overwritten, Pos, Rel;
      ghost var m, f, at := Mem(), Rel(first), Rel(result0) - (Rel(last0) - Rel(first));
      ghost var x := m[f..Rel(last0)];
      OverwrittenEnds(m, at, x);
      var last := last0;
      result := result0;
      while first != last
        invariant MemOk() && Inside(b, last) && Inside(b, result)
        invariant f <= Rel(last) <= Rel(last0) && Rel(result) == at + (Rel(last) - f)
        invariant Mem() == Overwritten(m, Rel(result), x[Rel(last) - f..])
        decreases Rel(last)
      {
        SamePlace(first, last);
        RelStep(last, 0);
        RelStep(result, 0);
        ghost var k := Rel(last) - f - 1;
        CellBack(m, at, x, k, f);
        last := Prev(b, last);
        result := Prev(b, result);
        Assign(result, last);
      }
    }

    /** `fill`. */
    method Fill(first0: Iter, last: Iter, v: T)
      requires MemOk() && Inside(b, first0) && Inside(b, last) && 0 <= Rel(first0) <= Rel(last) <= |Mem()|
      modifies nodes
      ensures MemOk() && Mem() == old(Overwritten(Mem(), Rel(first0), Copies(Rel(last) - Rel(first0), v)))
    {
      hide MemOk, Mem, Overwritten, Pos;
      ghost var m, f := Mem(), Rel(first0);
      ghost var x := Copies(Rel(last) - f, v);
      OverwrittenEnds(m, f, x);
      var first := first0;
      while first != last
        invariant MemOk() && Inside(b, first) && f <= Rel(first) <= Rel(last)
        invariant Mem() == Overwritten(m, f, x[..Rel(first) - f])
        decreases Rel(last) - Rel(first)
      {
        ghost var k := Rel(first) - f;
        BeforePos(b, first, last);
        OverwrittenStep(m, f, x, k);
        SameLength(m, f, x[..k]);
        RelNode(first);
        RelStep(first, 0);
        Set(first, v);
        first := Next(b, first);
      }
    }

    static ghost function Copies(n: nat, v: T): (s: seq<T>)
      ensures |s| == n
    {
      seq(n, i => v)
    }

    // ---------- the map and its nodes ----------

    static lemma RowsConcat(x: seq<array<T>>, y: seq<array<T>>)
      ensures RowsOf(x + y) == RowsOf(x) + RowsOf(y)
    {
      var r := RowsOf(x) + RowsOf(y);
      assert forall i :: 0 <= i < |x + y| ==> RowsOf(x + y)[i] == r[i];
    }

    /** Where `_M_reallocate_map` puts the pointers: with the new slots, in the middle. */
    static function NewStart(size: nat, oldNumNodes: nat, nodesToAdd: nat, addAtFront: bool): nat
      requires oldNumNodes + nodesToAdd <= size
    {
      (size - (oldNumNodes + nodesToAdd)) / 2 + if addAtFront then nodesToAdd else 0
    }

    /** The last element, and all that the change leaves before it, are where they were in their nodes. */
    twostate predicate LastStays()
      reads this
    {
      finish.off == old(finish.off) && old(|nodes|) > 0 && |nodes| > 0 && nodes[|nodes| - 1] == old(nodes[|nodes| - 1])
    }

    /** And the first. */
    twostate predicate FirstStays()
      reads this
    {
      start.off == old(start.off) && old(|nodes|) > 0 && |nodes| > 0 && nodes[0] == old(nodes[0])
    }

    /** With the new nodes in place, as many slots are free before the nodes as behind them, or one less. */
    static ghost predicate Centred(size: nat, at: int, n: nat, nodesToAdd: nat, addAtFront: bool) {
      var before := if addAtFront then at - nodesToAdd else at;
      var behind := size - before - n - nodesToAdd;
      0 <= before <= behind <= before + 1
    }

    /** What `_M_reallocate_map` does to the map and the iterators. */
    method MoveMap(nodesToAdd: nat, addAtFront: bool)
      requires Valid()
      modifies this`slots, this`start, this`finish, this`base, slots
      ensures Valid() && (slots == old(slots) || fresh(slots)) && Contents() == old(Contents())
      ensures start.off == old(start.off) && finish.off == old(finish.off)
      ensures if addAtFront then start.node >= nodesToAdd else finish.node + nodesToAdd < slots.Length
      ensures if old(slots.Length) > 2 * (|nodes| + nodesToAdd)
              then slots == old(slots) && Recentred(old(slots[..]), slots[..], old(base), base, |nodes|)
              else slots.Length > 2 * old(slots.Length) && NullOutside(slots[..], base, |nodes|)
      ensures |nodes| + nodesToAdd <= slots.Length && base == NewStart(slots.Length, |nodes|, nodesToAdd, addAtFront)
      ensures Centred(slots.Length, base, |nodes|, nodesToAdd, addAtFront)
    {
      hide NodesOk, NotNode, Mem, Pos, Rel, Overwritten, Recentred, NewStart, NullOutside, Addressed, Centred;
      RelInside(start);
      RelInside(finish);
      var oldNumNodes := finish.node - start.node + 1;
      InUseStart();
      var newStart := MakeRoom(oldNumNodes, nodesToAdd, addAtFront);
      SetNodes(newStart, oldNumNodes);
    }

    /** `_M_reallocate_map`: the pointers to the nodes are moved to the middle of the map, or of a
        larger one, with room for more at one end. */
    method ReallocateMap(nodesToAdd: nat, addAtFront: bool)
      requires Valid()
      modifies this`slots, this`start, this`finish, this`base, slots
      ensures Valid() && (slots == old(slots) || fresh(slots)) && Contents() == old(Contents())
      ensures start.off == old(start.off) && finish.off == old(finish.off)
      ensures if addAtFront then start.node >= nodesToAdd else finish.node + nodesToAdd < slots.Length
      ensures if old(slots.Length) > 2 * (|nodes| + nodesToAdd)
              then slots == old(slots) && Recentred(old(slots[..]), slots[..], old(base), base, |nodes|)
              else slots.Length > 2 * old(slots.Length) && NullOutside(slots[..], base, |nodes|)
      ensures |nodes| + nodesToAdd <= slots.Length && base == NewStart(slots.Length, |nodes|, nodesToAdd, addAtFront)
      ensures Centred(slots.Length, base, |nodes|, nodesToAdd, addAtFront)
      ensures OnlyInUse() <==>
        (old(slots.Length) > 2 * (|nodes| + nodesToAdd) ==> base == old(base) && old(OnlyInUse()))
    {
      hide NodesOk, NotNode, Mem, Pos, Rel, Recentred, NewStart, ExactlyInUse, PointsTo, Live, NullOutside, Addressed,
        Centred;
      InUseStart();
      ghost var s, from := slots[..], base;
      MoveMap(nodesToAdd, addAtFront);
      ExactlyAgain(s, from, nodesToAdd);
    }

    /** Whether the comment holds, the pointers having moved. */
    lemma ExactlyAgain(s: seq<array?<T>>, from: nat, nodesToAdd: nat)
      requires MemOk() && from + |nodes| <= |s| && s[from..from + |nodes|] == nodes
      requires if |s| > 2 * (|nodes| + nodesToAdd) then Recentred(s, slots[..], from, base, |nodes|)
        else NullOutside(slots[..], base, |nodes|)
      ensures OnlyInUse() <==>
                (|s| > 2 * (|nodes| + nodesToAdd) ==>
                  base == from && ExactlyInUse(s, Live(owned, addr), addr, from, |nodes|))
    {
      hide NodesOk, NotNode, Recentred, ExactlyInUse, PointsTo, Live, NullOutside, Addressed;
      if |s| > 2 * (|nodes| + nodesToAdd) {
        RecentringMatters(s, slots[..], from, base, nodes, owned, addr);
      } else {
        NullInUse();
      }
    }

    lemma NullInUse()
      requires MemOk() && NullOutside(slots[..], base, |nodes|)
      ensures OnlyInUse()
    {
      InUseMeans();
      NullMeans(slots[..], Live(owned, addr), addr, base, |nodes|);
    }

    /** Only the slots from `lo` to `hi` have changed. */
    static ghost predicate OutsideSame(s: seq<array?<T>>, t: seq<array?<T>>, lo: int, hi: int) {
      |s| == |t| && forall i :: 0 <= i < |s| && !(lo <= i < hi) ==> t[i] == s[i]
    }

    static ghost predicate NullOutside(s: seq<array?<T>>, at: nat, n: nat) {
      forall i :: 0 <= i < |s| && !(at <= i < at + n) ==> s[i] == null
    }

    lemma InUseStart()
      requires MemOk()
      ensures base + |nodes| <= slots.Length && slots[..][base..base + |nodes|] == nodes && NodeSet(nodes) <= owned &&
        |nodes| > 0
      ensures Addressed(owned, addr)
    {
    }

    /** A slot that points to a node in use. */
    lemma SlotLive(i: nat)
      requires MemOk() && i < |nodes|
      ensures base + i < slots.Length && PointsTo(slots[..][base + i], Live(owned, addr), addr)
    {
      SlotAt(i);
      assert nodes[i] in NodeSet(nodes);
    }

    /** After the pointers have moved at all, a slot that they have left still points to a node in use. */
    static lemma RecentringMatters(s: seq<array?<T>>, t: seq<array?<T>>, from: nat, to: nat, nodes: seq<array<T>>,
                                   owned: set<array<T>>, addr: map<array<T>, nat>)
      requires Recentred(s, t, from, to, |nodes|) && |nodes| > 0 && s[from..from + |nodes|] == nodes
      requires NodeSet(nodes) <= owned && Addressed(owned, addr)
      ensures ExactlyInUse(t, Live(owned, addr), addr, to, |nodes|) ==
        (to == from && ExactlyInUse(s, Live(owned, addr), addr, from, |nodes|))
    {
      if to == from {
        assert t == s;
      } else {
        var k := if from < to then 0 else |nodes| - 1;
        LeftSlots(s, t, from, to, |nodes|, from + k);
        assert s[from..from + |nodes|][k] == nodes[k];
        assert nodes[k] in NodeSet(nodes);
        assert PointsTo(t[from + k], Live(owned, addr), addr);
      }
    }

    /** What the class comment comes to, the slots in use pointing to nodes anyway. */
    lemma InUseMeans()
      requires MemOk()
      ensures OnlyInUse() <==> NoneOutside(slots[..], Live(owned, addr), addr, base, base + |nodes|)
    {
      hide PointsTo, NodesOk, NotNode;
      forall i | base <= i < base + |nodes|
        ensures PointsTo(slots[..][i], Live(owned, addr), addr)
      {
        SlotLive(i - base);
      }
    }

    /** When the pointers are moved within the map, the comment can hold afterwards only if the new nodes come to use
        all slots that are left; one new node does not. */
    lemma LeftAlone(k: nat, place: nat -> nat)
      requires Valid()
      ensures slots.Length > 2 * (|nodes| + k) && k + 1 > slots.Length - finish.node && AloneAtBack(k, place) ==>
                base <= NewStart(slots.Length, |nodes|, k, false) + k
      ensures slots.Length > 2 * (|nodes| + k) && k > start.node && AloneAtFront(k, place) ==>
                base >= NewStart(slots.Length, |nodes|, k, true) - k
      ensures 2 > slots.Length - finish.node ==> (AloneAtBack(1, place) <==> slots.Length <= 2 * (|nodes| + 1))
      ensures start.node == 0 ==> (AloneAtFront(1, place) <==> slots.Length <= 2 * (|nodes| + 1))
    {
      hide PointsTo, Mem, Pos, NodesOk, NotNode, Live, Addressed, Used;
      SlotLive(0);
      SlotLive(|nodes| - 1);
      LiveMore(slots[..][base], place, k);
      LiveMore(slots[..][base], place, 1);
      LiveMore(slots[..][base + |nodes| - 1], place, k);
      LiveMore(slots[..][base + |nodes| - 1], place, 1);
    }

    lemma LiveMore(x: array?<T>, place: nat -> nat, k: nat)
      requires PointsTo(x, Live(owned, addr), addr)
      ensures PointsTo(x, Live(owned, addr) + Used(place, k), addr)
    {
    }

    /** The part of `_M_reallocate_map` that moves the pointers. */
    method MakeRoom(oldNumNodes: nat, nodesToAdd: nat, addAtFront: bool) returns (newStart: nat)
      requires Valid() && oldNumNodes == |nodes|
      modifies this`slots, slots
      ensures Mem() == old(Mem()) && (slots == old(slots) || fresh(slots)) && NotNode(slots)
      ensures newStart + |nodes| <= slots.Length && slots[newStart..newStart + |nodes|] == nodes
      ensures if addAtFront then newStart >= nodesToAdd else newStart + oldNumNodes - 1 + nodesToAdd < slots.Length
      ensures if old(slots.Length) > 2 * (oldNumNodes + nodesToAdd)
              then slots == old(slots) && Recentred(old(slots[..]), slots[..], base, newStart, |nodes|)
              else slots.Length > 2 * old(slots.Length) && NullOutside(slots[..], newStart, |nodes|)
      ensures oldNumNodes + nodesToAdd <= slots.Length &&
        newStart == NewStart(slots.Length, oldNumNodes, nodesToAdd, addAtFront)
      ensures Centred(slots.Length, newStart, |nodes|, nodesToAdd, addAtFront)
    {
      hide NodesOk, Mem, Pos, Overwritten, Recentred, NewStart, Centred;
      var newNumNodes := oldNumNodes + nodesToAdd;
      if slots.Length > 2 * newNumNodes {
        newStart := NewStart(slots.Length, oldNumNodes, nodesToAdd, addAtFront);
        StartFits(slots.Length, oldNumNodes, nodesToAdd, addAtFront);
        MoveSlots(newStart);
      } else {
        var newMapSize := slots.Length + (if slots.Length < nodesToAdd then nodesToAdd else slots.Length) + 2;
        newStart := NewStart(newMapSize, oldNumNodes, nodesToAdd, addAtFront);
        StartFits(newMapSize, oldNumNodes, nodesToAdd, addAtFront);
        GrowMap(newMapSize, newStart);
      }
    }

    static lemma StartFits(size: nat, oldNumNodes: nat, nodesToAdd: nat, addAtFront: bool)
      requires oldNumNodes + nodesToAdd < size
      ensures var at := NewStart(size, oldNumNodes, nodesToAdd, addAtFront);
              at + oldNumNodes <= size && if addAtFront then at >= nodesToAdd
                else at + oldNumNodes - 1 + nodesToAdd < size
      ensures Centred(size, NewStart(size, oldNumNodes, nodesToAdd, addAtFront), oldNumNodes, nodesToAdd, addAtFront)
    {
    }

    /** The map after recentring: the pointers stand at `to`, every other slot is as it was. */
    static ghost predicate Recentred(s: seq<array?<T>>, t: seq<array?<T>>, from: nat, to: nat, n: nat) {
      from + n <= |s| && to + n <= |s| && t == Overwritten(s, to, s[from..from + n])
    }

    method MoveSlots(newStart: nat)
      requires Valid() && newStart + |nodes| <= slots.Length
      modifies slots
      ensures Mem() == old(Mem()) && slots[newStart..newStart + |nodes|] == nodes &&
        Recentred(old(slots[..]), slots[..], base, newStart, |nodes|)
    {
      hide NodesOk, Pos, Overwritten, Flat;
      ghost var n := |nodes|;
      OverwrittenPart(slots[..], newStart, slots[base..base + n]);
      if newStart < start.node {
        var _ := Copy(slots, start.node, finish.node + 1, slots, newStart);
      } else {
        var _ := CopyBackward(slots, start.node, finish.node + 1, slots, newStart + (finish.node - start.node + 1));
      }
    }

    static lemma OverwrittenPart(s: seq<array?<T>>, at: nat, x: seq<array?<T>>)
      requires at + |x| <= |s|
      ensures Overwritten(s, at, x)[at..at + |x|] == x
    {
    }

    method GrowMap(newMapSize: nat, newStart: nat)
      requires Valid() && newStart + |nodes| <= newMapSize
      modifies this`slots
      ensures Mem() == old(Mem()) && fresh(slots) && NotNode(slots) && slots.Length == newMapSize &&
        slots[newStart..newStart + |nodes|] == nodes
      ensures NullOutside(slots[..], newStart, |nodes|)
    {
      hide NodesOk, Pos, Overwritten, Flat, NullOutside;
      ghost var n := |nodes|;
      InUseStart();
      var newMap := new array?<T>[newMapSize](i => null);
      ghost var empty := newMap[..];
      OverwrittenPart(newMap[..], newStart, slots[base..base + n]);
      var _ := Copy(slots, start.node, finish.node + 1, newMap, newStart);
      NewMapNull(empty, newMap[..], newStart, nodes);
      slots := newMap;
    }

    static lemma NewMapNull(empty: seq<array?<T>>, t: seq<array?<T>>, at: nat, nodes: seq<array<T>>)
      requires (forall i :: 0 <= i < |empty| ==> empty[i] == null) && at + |nodes| <= |empty| &&
        t == Overwritten(empty, at, nodes)
      ensures NullOutside(t, at, |nodes|)
    {
    }

    /** The iterators are set to the new slots, their places in the nodes being the same. */
    method SetNodes(newStart: nat, oldNumNodes: nat)
      requires b > 0 && |nodes| > 0 && newStart + |nodes| <= slots.Length &&
        slots[newStart..newStart + |nodes|] == nodes
      requires NodesOk() && NotNode(slots) && NodeSet(nodes) <= owned && Addressed(owned, addr)
      requires start.node == base && finish.node == base + |nodes| - 1 && oldNumNodes == |nodes|
      requires Inside(b, start) && Inside(b, finish) && 0 <= Rel(start) <= Rel(finish) <= |Mem()|
      modifies this`start, this`finish, this`base
      ensures Valid() && start == Iter(newStart, old(start.off)) &&
        finish == Iter(newStart + oldNumNodes - 1, old(finish.off))
      ensures Rel(start) == old(Rel(start)) && Rel(finish) == old(Rel(finish))
    {
      hide NodesOk, NotNode, Mem;
      ghost var delta := newStart - base;
      MovedPos(b, start, delta);
      MovedPos(b, finish, delta);
      MovedPos(b, Iter(base, 0), delta);
      hide Pos;
      start, finish := Iter(newStart, start.off), Iter(newStart + oldNumNodes - 1, finish.off);
      base := newStart;
    }

    static lemma MovedPos(b: nat, it: Iter, delta: int)
      ensures Pos(b, Iter(it.node + delta, it.off)) == Pos(b, it) + delta * b
    {
      Times(it.node, delta, b);
    }

    /** `_M_reserve_map_at_back`. When there is not enough room, the class comment holds afterwards, new nodes still to
        come, if and only if the map was reallocated. */
    method ReserveMapAtBack(nodesToAdd: nat)
      requires Valid()
      modifies this`slots, this`start, this`finish, this`base, slots
      ensures Valid() && (slots == old(slots) || fresh(slots)) && Contents() == old(Contents())
      ensures start.off == old(start.off) && finish.off == old(finish.off) && finish.node + nodesToAdd < slots.Length
      ensures if old(nodesToAdd + 1 <= slots.Length - finish.node)
        then slots == old(slots) && slots[..] == old(slots[..]) && base == old(base)
              else if old(slots.Length) > 2 * (|nodes| + nodesToAdd)
              then slots == old(slots) && OutsideSame(old(slots[..]), slots[..], base, base + |nodes|) &&
                   base == NewStart(slots.Length, |nodes|, nodesToAdd, false)
              else NullOutside(slots[..], base, |nodes|)
      ensures old(nodesToAdd + 1 > slots.Length - finish.node) ==>
        (OnlyInUse() <==> !(old(slots.Length) > 2 * (|nodes| + nodesToAdd)))
      ensures old(nodesToAdd + 1 <= slots.Length - finish.node) ==> OnlyInUse() == old(OnlyInUse())
    {
      hide Mem, Pos, NodesOk, NewStart, NullOutside, ExactlyInUse, Live, Addressed;
      if nodesToAdd + 1 > slots.Length - finish.node {
        ReallocateMap(nodesToAdd, false);
      }
    }

    /** `_M_reserve_map_at_front`, with the same effect on the class comment. */
    method ReserveMapAtFront(nodesToAdd: nat)
      requires Valid()
      modifies this`slots, this`start, this`finish, this`base, slots
      ensures Valid() && (slots == old(slots) || fresh(slots)) && Contents() == old(Contents())
      ensures start.off == old(start.off) && finish.off == old(finish.off) && nodesToAdd <= start.node < slots.Length
      ensures if old(nodesToAdd <= start.node) then slots == old(slots) && slots[..] == old(slots[..]) &&
        base == old(base)
              else if old(slots.Length) > 2 * (|nodes| + nodesToAdd)
              then slots == old(slots) && OutsideSame(old(slots[..]), slots[..], base, base + |nodes|) &&
                   base == NewStart(slots.Length, |nodes|, nodesToAdd, true)
              else NullOutside(slots[..], base, |nodes|)
      ensures old(nodesToAdd > start.node) ==> (OnlyInUse() <==> !(old(slots.Length) > 2 * (|nodes| + nodesToAdd)))
      ensures old(nodesToAdd <= start.node) ==> OnlyInUse() == old(OnlyInUse())
    {
      hide Mem, Pos, NodesOk, NewStart, NullOutside, ExactlyInUse, Live, Addressed;
      if nodesToAdd > start.node {
        ReallocateMap(nodesToAdd, true);
      }
    }

    /** `_M_allocate_node`, for a slot that is not in use. */
    method AllocateNode(at: nat, ghost a: nat) returns (node: array<T>)
      requires MemOk() && at < slots.Length && !(base <= at < base + |nodes|) && a !in Live(owned, addr)
      modifies this`owned, this`addr, slots
      ensures MemOk() && fresh(node) && node.Length == b && RowsOf(nodes) == old(RowsOf(nodes))
      ensures NodeAdded(old(owned), owned, old(addr), addr, node, a) && slots[..] == old(slots[..])[at := node]
    {
      MemParts();
      SlotsApart();
      hide Live, Addressed, RowsOf, MemOk, NodesOk, NotNode;
      ghost var rows, s := RowsOf(nodes), slots[..];
      node := NewNode(at);
      assert RowsOf(nodes) == rows;
      SlotsKept(s, slots[..], at, node, base, nodes);
      GiveAddress(node, a);
      MemAgain();
    }

    lemma MemParts()
      requires MemOk()
      ensures b > 0 && 0 < |nodes| && base + |nodes| <= slots.Length && slots[..][base..base + |nodes|] == nodes
      ensures NodesOk() && NotNode(slots) && NodeSet(nodes) <= owned && Addressed(owned, addr)
    {
    }

    lemma MemAgain()
      requires b > 0 && 0 < |nodes| && base + |nodes| <= slots.Length && slots[..][base..base + |nodes|] == nodes
      requires NodesOk() && NotNode(slots) && NodeSet(nodes) <= owned && Addressed(owned, addr)
      ensures MemOk()
    {
    }

    method NewNode(at: nat) returns (node: array<T>)
      requires at < slots.Length
      modifies slots
      ensures fresh(node) && node.Length == b && slots[..] == old(slots[..])[at := node]
    {
      node := new T[b];
      slots[at] := node;
    }

    ghost method GiveAddress(node: array<T>, a: nat)
      requires Addressed(owned, addr) && node !in addr && a !in Live(owned, addr)
      modifies this`owned, this`addr
      ensures Addressed(owned, addr) && NodeAdded(old(owned), owned, old(addr), addr, node, a)
    {
      AddressGiven(owned, addr, node, a);
      owned, addr := owned + {node}, addr[node := a];
    }

    static lemma SlotsKept(s: seq<array?<T>>, t: seq<array?<T>>, at: nat, x: array?<T>, base: nat, nodes: seq<array<T>>)
      requires base + |nodes| <= |s| && s[base..base + |nodes|] == nodes && at < |s| &&
        !(base <= at < base + |nodes|) && t == s[at := x]
      ensures t[base..base + |nodes|] == nodes
    {
      assert forall i :: base <= i < base + |nodes| ==> t[i] == s[i];
    }

    /** The node is put to use. */
    lemma NodesExtended(n0: seq<array<T>>, node: array<T>)
      requires (forall i :: 0 <= i < |n0| ==>
        n0[i].Length == b && (n0[i] as object) != this && (n0[i] as object) != slots)
      requires (forall i, j :: 0 <= i < j < |n0| ==> n0[i] != n0[j]) && node !in n0 && node.Length == b
      requires (node as object) != this && (node as object) != slots && NodeSet(n0) <= owned && node in owned
      requires nodes == n0 + [node] || nodes == [node] + n0
      ensures NodesOk() && NotNode(slots) && NodeSet(nodes) <= owned
    {
    }

    lemma NodesFacts()
      requires MemOk()
      ensures forall i :: 0 <= i < |nodes| ==>
        nodes[i].Length == b && (nodes[i] as object) != this && (nodes[i] as object) != slots
      ensures (forall i, j :: 0 <= i < j < |nodes| ==> nodes[i] != nodes[j]) && NodeSet(nodes) <= owned
    {
    }

    /** A node allocated for the slot after the nodes. */
    method AddNodeBack(at: nat, ghost a: nat)
      requires Spread() && at == base + |nodes| < slots.Length && a !in Live(owned, addr)
      modifies this`nodes, this`owned, this`addr, slots
      ensures Spread() && |nodes| == old(|nodes|) + 1 && nodes[..old(|nodes|)] == old(nodes) &&
        fresh(nodes[old(|nodes|)])
      ensures |Mem()| == old(|Mem()|) + b && Mem()[..old(|Mem()|)] == old(Mem())
      ensures owned == old(owned) + {nodes[old(|nodes|)]} && Leaked() == old(Leaked()) && Contents() == old(Contents())
      ensures NodeAdded(old(owned), owned, old(addr), addr, nodes[old(|nodes|)], a)
      ensures slots[..] == old(slots[..])[at := nodes[old(|nodes|)]]
    {
      hide Mem, Pos, Rel, RowsOf, Flat, Live, Addressed;
      RelBounds(start);
      RelBounds(finish);
      ghost var n0, rows, m := nodes, RowsOf(nodes), Mem();
      MemIs();
      var node := AllocateNode(at, a);
      NodesFacts();
      hide NodesOk, NotNode;
      nodes := nodes + [node];
      NodesExtended(n0, node);
      assert slots[base..base + |nodes|] == nodes;
      AddedRow(n0, node, rows);
      SliceInside(m, Mem(), 0, Rel(start), Rel(finish));
    }

    /** The node has been allocated at the address `a`. */
    static ghost predicate NodeAdded(own: set<array<T>>, owned: set<array<T>>, ad: map<array<T>, nat>,
                                     addr: map<array<T>, nat>, node: array<T>, a: nat) {
      owned == own + {node} && addr == ad[node := a] && Live(owned, addr) == Live(own, ad) + {a}
    }

    static lemma AddressGiven(own: set<array<T>>, ad: map<array<T>, nat>, node: array<T>, a: nat)
      requires Addressed(own, ad) && node !in ad && a !in Live(own, ad)
      ensures Addressed(own + {node}, ad[node := a]) && Live(own + {node}, ad[node := a]) == Live(own, ad) + {a}
    {
      var now := ad[node := a];
      assert forall x :: x in own ==> now[x] == ad[x] && x in own + {node};
      assert now[node] == a && node in own + {node};
    }

    /** The pointers among these have the addresses that they had. */
    static ghost predicate KnownSame(s: seq<array?<T>>, ad: map<array<T>, nat>, addr: map<array<T>, nat>) {
      forall i, live :: 0 <= i < |s| ==> PointsTo(s[i], live, addr) == PointsTo(s[i], live, ad)
    }

    static lemma KnownStep(s: seq<array?<T>>, ad: map<array<T>, nat>, addr: map<array<T>, nat>, node: array<T>, a: nat)
      requires KnownSame(s, ad, addr) && node !in s
      ensures KnownSame(s, ad, addr[node := a])
    {
      forall i, live | 0 <= i < |s|
        ensures PointsTo(s[i], live, addr[node := a]) == PointsTo(s[i], live, ad)
      {
        assert s[i] in s;
        assert PointsTo(s[i], live, addr) == PointsTo(s[i], live, ad);
      }
    }

    static lemma SupplyStep(place: nat -> nat, live: set<nat>, k: nat)
      requires Supplied(place, live)
      ensures place(k) !in live + Used(place, k) && Used(place, k + 1) == Used(place, k) + {place(k)} &&
        Used(place, 0) == {}
    {
    }

    static lemma KnownRefl(s: seq<array?<T>>, ad: map<array<T>, nat>)
      ensures KnownSame(s, ad, ad)
    {
    }

    static lemma SlotSet(s: seq<array?<T>>, at: nat, x: array?<T>, lo: int, hi: int)
      requires lo <= at < hi && at < |s|
      ensures OutsideSame(s, s[at := x], lo, hi)
    {
    }

    static lemma SlotsRefl(s: seq<array?<T>>, lo: int, hi: int)
      ensures OutsideSame(s, s, lo, hi)
    {
    }

    static lemma SlotsOneMore(s: seq<array?<T>>, t: seq<array?<T>>, at: nat, x: array?<T>, lo: nat, n: nat, from: nat,
                              m: nat)
      requires OutsideSame(s, t, lo, lo + n) && from <= lo && lo + n <= from + m && from <= at < from + m && at < |t|
      ensures OutsideSame(s, t[at := x], from, from + m)
    {
    }

    static lemma NodeKnown(s: seq<array?<T>>, ad: map<array<T>, nat>, own: set<array<T>>, owned: set<array<T>>,
                           ad1: map<array<T>, nat>, addr: map<array<T>, nat>, node: array<T>, a: nat)
      requires NodeAdded(own, owned, ad1, addr, node, a) && KnownSame(s, ad, ad1) && node !in s
      ensures KnownSame(s, ad, addr) && Live(owned, addr) == Live(own, ad1) + {a}
    {
      KnownStep(s, ad, ad1, node, a);
    }

    /** What is outside the slots in use, before and after more of them are filled. */
    static lemma SlotsGrown(s0: seq<array?<T>>, s: seq<array?<T>>, t: seq<array?<T>>, lo: nat, n: nat, from: nat,
                            m: nat)
      requires OutsideSame(s, t, from, from + m) && from <= lo && lo + n <= from + m
      ensures s0 == s || OutsideSame(s0, s, lo, lo + n) ==> OutsideSame(s0, t, from, from + m)
      ensures NullOutside(s, lo, n) ==> NullOutside(t, from, m)
    {
    }

    static lemma NoneSame(s: seq<array?<T>>, t: seq<array?<T>>, live: set<nat>, ad: map<array<T>, nat>,
                          addr: map<array<T>, nat>, lo: int, hi: int)
      requires OutsideSame(s, t, lo, hi) && KnownSame(s, ad, addr)
      ensures NoneOutside(s, live, ad, lo, hi) <==> NoneOutside(t, live, addr, lo, hi)
    {
      hide PointsTo;
      forall i | 0 <= i < |s| && !(lo <= i < hi)
        ensures PointsTo(s[i], live, ad) <==> PointsTo(t[i], live, addr)
      {
      }
    }

    /** `k` nodes have been added, at addresses of the supply. */
    twostate predicate NodesAdded(k: nat, place: nat -> nat)
      reads this, slots
    {
      && |nodes| == old(|nodes|) + k && Live(owned, addr) == old(Live(owned, addr)) + Used(place, k)
      && KnownSame(old(slots[..]), old(addr), addr)
    }

    twostate lemma AloneBackNow(new k: nat, new place: nat -> nat)
      requires old(Valid()) && MemOk() && NodesAdded(k, place)
      requires if old(k + 1 <= slots.Length - finish.node)
        then base == old(base) && OutsideSame(old(slots[..]), slots[..], base, base + |nodes|)
               else if old(slots.Length) > 2 * |nodes|
               then base == NewStart(old(slots.Length), old(|nodes|), k, false) &&
                 OutsideSame(old(slots[..]), slots[..], base, base + |nodes|)
               else NullOutside(slots[..], base, |nodes|)
      ensures OnlyInUse() <==> old(AloneAtBack(k, place))
    {
      hide PointsTo, Live, NodesOk, NotNode, Mem, Pos, ExactlyInUse, KnownSame, Used, Addressed, OutsideSame;
      InUseMeans();
      if old(k + 1 <= slots.Length - finish.node) || old(slots.Length) > 2 * |nodes| {
        NoneSame(old(slots[..]), slots[..], Live(owned, addr), old(addr), addr, base, base + |nodes|);
      } else {
        NullMeans(slots[..], Live(owned, addr), addr, base, |nodes|);
      }
    }

    twostate lemma AloneFrontNow(new k: nat, new place: nat -> nat)
      requires old(Valid()) && MemOk() && NodesAdded(k, place)
      requires if old(k <= start.node) then base == old(base) - k &&
        OutsideSame(old(slots[..]), slots[..], base, base + |nodes|)
               else if old(slots.Length) > 2 * |nodes|
               then base == NewStart(old(slots.Length), old(|nodes|), k, true) - k &&
                 OutsideSame(old(slots[..]), slots[..], base, base + |nodes|)
               else NullOutside(slots[..], base, |nodes|)
      ensures OnlyInUse() <==> old(AloneAtFront(k, place))
    {
      hide PointsTo, Live, NodesOk, NotNode, Mem, Pos, ExactlyInUse, KnownSame, Used, Addressed, OutsideSame;
      InUseMeans();
      if old(k <= start.node) || old(slots.Length) > 2 * |nodes| {
        NoneSame(old(slots[..]), slots[..], Live(owned, addr), old(addr), addr, base, base + |nodes|);
      } else {
        NullMeans(slots[..], Live(owned, addr), addr, base, |nodes|);
      }
    }

    static lemma NullMeans(s: seq<array?<T>>, live: set<nat>, addr: map<array<T>, nat>, at: nat, n: nat)
      requires NullOutside(s, at, n)
      ensures NoneOutside(s, live, addr, at, at + n)
    {
    }

    static lemma SliceInside(m: seq<T>, n: seq<T>, k: int, s: int, f: int)
      requires 0 <= s <= f <= |m| && 0 <= k && k + |m| <= |n| && n[k..k + |m|] == m
      ensures n[k + s..k + f] == m[s..f]
    {
      SliceSlice(n, k, k + |m|, k + s, k + f);
    }

    lemma MemIs()
      ensures Mem() == Flat(RowsOf(nodes))
    {
    }

    lemma RelIs()
      ensures Rel(start) == Pos(b, start) - Pos(b, Iter(base, 0)) &&
        Rel(finish) == Pos(b, finish) - Pos(b, Iter(base, 0))
    {
    }

    lemma AddedRow(n0: seq<array<T>>, node: array<T>, rows: seq<seq<T>>)
      requires RowsOf(n0) == rows
      ensures nodes == n0 + [node] ==> Mem() == Flat(rows) + node[..]
      ensures nodes == [node] + n0 ==> Mem() == node[..] + Flat(rows)
    {
      RowsConcat(n0, [node]);
      RowsConcat([node], n0);
      assert RowsOf([node]) == [node[..]];
      FlatConcat(rows, [node[..]]);
      FlatConcat([node[..]], rows);
      assert Flat([node[..]]) == node[..];
    }

    /** A node allocated for the slot before the nodes. */
    method AddNodeFront(at: nat, ghost a: nat)
      requires Spread() && base > 0 && at == base - 1 && a !in Live(owned, addr)
      modifies this`nodes, this`base, this`owned, this`addr, slots
      ensures Spread() && |nodes| == old(|nodes|) + 1 && nodes[1..] == old(nodes) && fresh(nodes[0]) &&
        base == old(base) - 1
      ensures |Mem()| == old(|Mem()|) + b && Mem()[b..] == old(Mem()) && Rel(start) == old(Rel(start)) + b &&
        Rel(finish) == old(Rel(finish)) + b
      ensures owned == old(owned) + {nodes[0]} && Leaked() == old(Leaked()) && Contents() == old(Contents())
      ensures NodeAdded(old(owned), owned, old(addr), addr, nodes[0], a) && slots[..] == old(slots[..])[at := nodes[0]]
    {
      hide MemOk, Mem, Rel, Live;
      AddressesOk();
      var node := AllocateNode(at, a);
      UseFront(at, node);
    }

    lemma AddressesOk()
      requires MemOk()
      ensures NodeSet(nodes) <= owned && 0 < |nodes| && base + |nodes| <= slots.Length
    {
    }

    /** The node before the others is one of those in use. */
    ghost method UseFront(at: nat, node: array<T>)
      requires Spread() && base > 0 && at == base - 1 && slots[at] == node && node !in nodes && node in owned
      requires node.Length == b && (node as object) != this && (node as object) != slots
      modifies this`nodes, this`base
      ensures Spread() && nodes == [node] + old(nodes) && base == at && Contents() == old(Contents())
      ensures |Mem()| == old(|Mem()|) + b && Mem()[b..] == old(Mem()) && Rel(start) == old(Rel(start)) + b &&
        Rel(finish) == old(Rel(finish)) + b
    {
      hide Mem, Pos, Rel, RowsOf, Flat, Inside, Addressed;
      RelBounds(start);
      RelBounds(finish);
      RelIs();
      ghost var n0, rows, m, rs, rf := nodes, RowsOf(nodes), Mem(), Rel(start), Rel(finish);
      MemIs();
      MovedPos(b, Iter(base, 0), -1);
      NodesFacts();
      hide NodesOk, NotNode;
      nodes := [node] + nodes;
      base := at;
      RelIs();
      NodesExtended(n0, node);
      assert slots[base..base + |nodes|] == nodes;
      AddedRow(n0, node, rows);
      SliceInside(m, Mem(), b, rs, rf);
    }

    static lemma RowsSlice(x: seq<array<T>>, lo: nat, hi: nat)
      requires lo <= hi <= |x|
      ensures RowsOf(x[lo..hi]) == RowsOf(x)[lo..hi]
    {
      hide RowsOf;
      RowsConcat(x[..lo], x[lo..hi]);
      RowsConcat(x[..hi], x[hi..]);
      assert x[..hi] == x[..lo] + x[lo..hi] && x == x[..hi] + x[hi..];
    }

    static lemma FlatSlice(rows: seq<seq<T>>, b: nat, lo: nat, hi: nat)
      requires Rows(rows, b) && lo <= hi <= |rows|
      ensures 0 <= lo * b <= hi * b <= |Flat(rows)| && Flat(rows[lo..hi]) == Flat(rows)[lo * b..hi * b]
    {
      FlatSplit(rows, b, hi);
      FlatSplit(rows[..hi], b, lo);
      assert rows[..hi][..lo] == rows[..lo] && rows[..hi][lo..] == rows[lo..hi];
      FlatLength(rows[..lo], b);
      FlatLength(rows[..hi], b);
      FlatLength(rows[lo..hi], b);
      FlatLength(rows, b);
      Times(|rows| - hi, 0, b);
    }

    /** Only the nodes from `lo` to `hi` go on being used; the iterators point into them. */
    ghost method KeepNodes(lo: nat, hi: nat)
      requires Spread() && lo <= hi <= |nodes| && lo <= start.node - base && finish.node - base < hi
      modifies this`nodes, this`base
      ensures Spread() && nodes == old(nodes)[lo..hi] && base == old(base) + lo && Contents() == old(Contents())
    {
      hide Flat, RowsOf, Mem, Pos;
      ghost var m0, rs, rf := Mem(), Rel(start), Rel(finish);
      RelBounds(start);
      RelBounds(finish);
      var p, q := KeptMem(lo, hi);
      StartFirst();
      SlotsSlice(slots[..], nodes, base, lo, hi);
      nodes := nodes[lo..hi];
      base := base + lo;
      MemIs();
      RelBounds(start);
      RelBounds(finish);
      SliceSlice(m0, p, q, rs, rf);
    }

    lemma RelBounds(it: Iter)
      requires MemOk() && InNodes(it)
      ensures 0 <= Rel(it) < |Mem()|
    {
      RelInside(it);
    }

    static lemma SlotsSlice(s: seq<array?<T>>, n: seq<array<T>>, at: nat, lo: nat, hi: nat)
      requires at + |n| <= |s| && s[at..at + |n|] == n && lo <= hi <= |n|
      ensures s[at + lo..at + hi] == n[lo..hi]
    {
      forall k | 0 <= k < hi - lo
        ensures s[at + lo..at + hi][k] == n[lo..hi][k]
      {
        assert s[at..at + |n|][lo + k] == s[at + lo + k];
      }
    }

    lemma StartFirst()
      requires Spread()
      ensures start.node <= finish.node
    {
      BeforePos(b, start, finish);
    }

    lemma KeptMem(lo: nat, hi: nat) returns (p: nat, q: nat)
      requires MemOk() && lo <= hi <= |nodes|
      ensures p <= q <= |Mem()| && Flat(RowsOf(nodes[lo..hi])) == Mem()[p..q]
      ensures Pos(b, Iter(base + lo, 0)) == Pos(b, Iter(base, 0)) + p
    {
      p, q := lo * b, hi * b;
      RowsSlice(nodes, lo, hi);
      FlatSlice(RowsOf(nodes), b, lo, hi);
      MovedPos(b, Iter(base, 0), lo);
    }

    static lemma SliceSlice(m: seq<T>, a: int, c: int, s: int, f: int)
      requires 0 <= a <= s <= f <= c <= |m|
      ensures m[a..c][s - a..f - a] == m[s..f]
    {
      var x := m[a..c][s - a..f - a];
      forall k | 0 <= k < f - s
        ensures x[k] == m[s..f][k]
      {
        assert x[k] == m[a..c][s - a + k] == m[s + k];
      }
    }

    /** `_M_destroy_nodes`: the nodes `gone` of these slots are given back. */
    method DestroyNodes(nstart: int, nfinish: int, ghost gone: seq<array<T>>)
      requires if nstart <= nfinish then 0 <= nstart && nfinish <= slots.Length && slots[nstart..nfinish] == gone
        else gone == []
      requires Spread() && NodeSet(gone) !! NodeSet(nodes)
      modifies this`owned
      ensures owned == old(owned) - NodeSet(gone) && Spread() && Contents() == old(Contents())
    {
      hide Mem, Pos, Rel, NodesOk, NotNode;
      if nstart < nfinish {
        GiveBack(nstart, nfinish, gone);
      }
    }

    method GiveBack(nstart: nat, nfinish: nat, ghost gone: seq<array<T>>)
      requires nstart < nfinish <= slots.Length && slots[nstart..nfinish] == gone
      modifies this`owned
      ensures owned == old(owned) - NodeSet(gone)
    {
      for n := nstart to nfinish
        invariant owned == old(owned) - NodeSet(gone[..n - nstart])
      {
        ghost var i := n - nstart;
        assert slots[nstart..nfinish][i] == slots[n];
        assert gone[..i + 1] == gone[..i] + [gone[i]];
        NodeSetSnoc(gone[..i], gone[i]);
        owned := owned - {slots[n]};
      }
      assert gone[..nfinish - nstart] == gone;
    }

    static lemma NodeSetSnoc(n: seq<array<T>>, x: array<T>)
      ensures NodeSet(n + [x]) == NodeSet(n) + {x}
    {
    }

    /** A slot outside those in use that holds the address of the node to come. */
    lemma StaleReused(i: nat, place: nat -> nat)
      requires Valid() && start.off == 0 < start.node && finish.node < i < slots.Length &&
        PointsTo(slots[i], {place(0)}, addr)
      ensures !StaysAtFront(1, place)
    {
      hide MemOk, Mem, Pos, Live, OnlyInUse;
      NodesForOne();
      assert place(0) in Used(place, 1);
      assert slots[..][i] == slots[i];
    }

    // ---------- one element at either end ----------

    static lemma WrittenBefore(m: seq<T>, s: int, f: int, x: T)
      requires 0 < s <= f <= |m|
      ensures m[s - 1 := x][s - 1..f] == [x] + m[s..f]
    {
    }

    /** The place that the finish points to is filled, and the finish moves on. */
    method StoreBack(x: T, next: Iter)
      requires Spread() && next == Next(b, finish) && InNodes(next)
      modifies this`finish, nodes
      ensures Spread() && finish == next && Contents() == old(Contents()) + [x] && slots[..] == old(slots[..])
    {
      hide MemOk, Mem, Pos, NodesOk;
      RelBounds(start);
      RelBounds(finish);
      ghost var m, s, f := Mem(), Rel(start), Rel(finish);
      RelStep(finish, 0);
      Set(finish, x);
      finish := next;
      RelBounds(start);
      RelBounds(finish);
      StoredBack(m, s, f, x);
    }

    static lemma StoredBack(m: seq<T>, s: int, f: int, x: T)
      requires 0 <= s <= f < |m|
      ensures m[f := x][s..f + 1] == m[s..f] + [x]
    {
    }

    /** The place before the start is filled, and the start moves there. */
    method StoreFront(x: T, prev: Iter)
      requires Spread() && prev == Prev(b, start) && InNodes(prev)
      modifies this`start, nodes
      ensures Spread() && start == prev && Contents() == [x] + old(Contents()) && slots[..] == old(slots[..])
    {
      hide MemOk, Mem, Pos, NodesOk;
      RelBounds(start);
      RelBounds(finish);
      RelBounds(prev);
      ghost var m, s, f := Mem(), Rel(start), Rel(finish);
      RelStep(start, 0);
      start := prev;
      Set(start, x);
      RelBounds(start);
      RelBounds(finish);
      WrittenBefore(m, s, f, x);
    }

    lemma NodesForOne()
      requires b > 0
      ensures NodesFor(b, 1) == 1
    {
      assert b / b == 1;
    }

    /** `push_back`. The class comment holds afterwards if and only if it did, the last node having room; or if no
        unused slot points to the new node or another; or if a new map is made. */
    method PushBack(x: T, ghost place: nat -> nat)
      requires Valid() && Supplied(place, Live(owned, addr))
      modifies this, slots, nodes
      ensures Valid() && Contents() == old(Contents()) + [x] && Leaked() == old(Leaked())
      ensures OnlyInUse() <==> old(StaysAtBack(1, place))
      ensures old(finish.off == b - 1 && slots.Length - finish.node < 2) ==>
        (OnlyInUse() <==> old(slots.Length <= 2 * (|nodes| + 1)))
      ensures old(finish.off != b - 1 || slots.Length - finish.node >= 2) ==>
        start == old(start) && finish == old(Next(b, finish)) && slots == old(slots)
      ensures (slots == old(slots) || fresh(slots)) && fresh(NodeSet(nodes) - old(NodeSet(nodes)))
      ensures FirstStays()
    {
      hide MemOk, Mem, Rel, NodesOk, ExactlyInUse, Live, AloneAtBack, Supplied;
      NodesForOne();
      if finish.off != b - 1 {
        StoreBack(x, Iter(finish.node, finish.off + 1));
      } else {
        LeftAlone(1, place);
        PushBackAux(x, place);
      }
    }

    /** `_M_push_back_aux`: the last place of the last node is filled, and another node begun. */
    method PushBackAux(x: T, ghost place: nat -> nat)
      requires Valid() && finish.off == b - 1 && Supplied(place, Live(owned, addr))
      modifies this, slots, nodes
      ensures Valid() && Contents() == old(Contents()) + [x] && Leaked() == old(Leaked())
      ensures OnlyInUse() <==> old(AloneAtBack(1, place))
      ensures old(slots.Length - finish.node >= 2) ==>
        start == old(start) && finish == old(Next(b, finish)) && slots == old(slots)
      ensures (slots == old(slots) || fresh(slots)) && fresh(NodeSet(nodes) - old(NodeSet(nodes)))
      ensures FirstStays()
    {
      hide MemOk, Mem, Rel, NodesOk, Live, KnownSame, NullOutside, OutsideSame, Addressed, ExactlyInUse, AloneAtBack,
        Used, NewStart;
      ghost var s0, ad, n := slots[..], addr, |nodes|;
      KnownRefl(s0, ad);
      SupplyStep(place, Live(owned, addr), 0);
      ReserveMapAtBack(1);
      ghost var s := slots[..];
      AddNodeBack(finish.node + 1, place(0));
      KnownStep(s0, ad, ad, nodes[n], place(0));
      SlotSet(s, finish.node + 1, nodes[n], base, base + n + 1);
      SlotsGrown(s0, s, slots[..], base, n, base, n + 1);
      AloneBackNow(1, place);
      StoreBack(x, Iter(finish.node + 1, 0));
    }

    /** `push_front`, with the same condition on the other side. */
    method PushFront(x: T, ghost place: nat -> nat)
      requires Valid() && Supplied(place, Live(owned, addr))
      modifies this, slots, nodes
      ensures Valid() && Contents() == [x] + old(Contents()) && Leaked() == old(Leaked())
      ensures OnlyInUse() <==> old(StaysAtFront(1, place))
      ensures old(start == Iter(0, 0)) ==> (OnlyInUse() <==> old(slots.Length <= 2 * (|nodes| + 1)))
      ensures old(start != Iter(0, 0)) ==> start == old(Prev(b, start)) && finish == old(finish) && slots == old(slots)
      ensures (slots == old(slots) || fresh(slots)) && fresh(NodeSet(nodes) - old(NodeSet(nodes)))
      ensures LastStays()
    {
      hide MemOk, Mem, Rel, NodesOk, ExactlyInUse, Live, AloneAtFront, Supplied;
      NodesForOne();
      if start.off != 0 {
        StoreFront(x, Iter(start.node, start.off - 1));
      } else {
        LeftAlone(1, place);
        PushFrontAux(x, place);
      }
    }

    /** `_M_push_front_aux`. */
    method PushFrontAux(x: T, ghost place: nat -> nat)
      requires Valid() && start.off == 0 && Supplied(place, Live(owned, addr))
      modifies this, slots, nodes
      ensures Valid() && Contents() == [x] + old(Contents()) && Leaked() == old(Leaked())
      ensures OnlyInUse() <==> old(AloneAtFront(1, place))
      ensures old(start.node > 0) ==> start == old(Prev(b, start)) && finish == old(finish) && slots == old(slots)
      ensures (slots == old(slots) || fresh(slots)) && fresh(NodeSet(nodes) - old(NodeSet(nodes)))
      ensures LastStays()
    {
      hide MemOk, Mem, Rel, NodesOk, Live, KnownSame, NullOutside, OutsideSame, Addressed, ExactlyInUse, AloneAtFront,
        Used, NewStart;
      ghost var s0, ad, n := slots[..], addr, |nodes|;
      KnownRefl(s0, ad);
      SupplyStep(place, Live(owned, addr), 0);
      ReserveMapAtFront(1);
      ghost var s := slots[..];
      AddNodeFront(start.node - 1, place(0));
      KnownStep(s0, ad, ad, nodes[0], place(0));
      SlotSet(s, base, nodes[0], base, base + n + 1);
      SlotsGrown(s0, s, slots[..], base + 1, n, base, n + 1);
      AloneFrontNow(1, place);
      StoreFront(x, Iter(start.node - 1, b - 1));
    }

    /** Iterators at different places, in order. */
    lemma Ordered()
      requires Spread()
      ensures Before(start, finish) <==> Rel(start) < Rel(finish)
      ensures start.node <= finish.node && (start == finish <==> Rel(start) == Rel(finish))
    {
      BeforePos(b, start, finish);
    }

    lemma ContentsSize()
      requires Spread()
      ensures |Contents()| == Rel(finish) - Rel(start)
    {
      RelBounds(start);
      RelBounds(finish);
    }

    /** `_M_deallocate_node` of a node that is not in use any more. */
    ghost method Deallocate(x: array<T>)
      requires Spread() && x !in nodes
      modifies this`owned
      ensures Spread() && owned == old(owned) - {x} && Contents() == old(Contents())
    {
      owned := owned - {x};
    }

    static lemma OnlyPlace(n: seq<array<T>>, i: nat)
      requires forall i, j :: 0 <= i < j < |n| ==> n[i] != n[j]
      requires i < |n|
      ensures n[i] !in n[..i] && n[i] !in n[i + 1..]
    {
    }

    static lemma LastGone(n: seq<array<T>>, owned: set<array<T>>)
      requires |n| > 0
      ensures owned - {n[|n| - 1]} - NodeSet(n[..|n| - 1]) == owned - NodeSet(n)
    {
      assert n == n[..|n| - 1] + [n[|n| - 1]];
    }

    static lemma FirstGone(n: seq<array<T>>, owned: set<array<T>>)
      requires |n| > 0
      ensures owned - {n[0]} - NodeSet(n[1..]) == owned - NodeSet(n)
    {
      assert n == [n[0]] + n[1..];
    }

    /** The last node is given back, the finish having left it. */
    method DropLast()
      requires Spread() && start.node == base && finish.node == base + |nodes| - 2
      modifies this`nodes, this`base, this`owned
      ensures Valid() && Contents() == old(Contents()) && Leaked() == old(Leaked()) &&
        NodeSet(nodes) <= old(NodeSet(nodes))
      ensures Live(owned, addr) <= old(Live(owned, addr)) && (old(OnlyInUse()) ==> OnlyInUse())
    {
      hide MemOk, Mem, Pos, Rel, ExactlyInUse, Live, Addressed, PointsTo, Flat, RowsOf;
      ghost var n, own, k := nodes, owned, |nodes| - 1;
      InUseStart();
      NodesDistinct();
      LastGone(n, own);
      OnlyPlace(n, k);
      LiveLess(own, {n[k]});
      assert n[k..] == [n[k]] && NodeSet([n[k]]) == {n[k]};
      if OnlyInUse() {
        TailInUse(slots[..], n, own, addr, base, k);
      }
      KeepNodes(0, k);
      Deallocate(n[k]);
      assert n[0..k] == n[..k];
    }

    /** The first node is given back, the start having left it. */
    method DropFirst()
      requires Spread() && start.node == base + 1 && finish.node == base + |nodes| - 1
      modifies this`nodes, this`base, this`owned
      ensures Valid() && Contents() == old(Contents()) && Leaked() == old(Leaked()) &&
        NodeSet(nodes) <= old(NodeSet(nodes))
      ensures Live(owned, addr) <= old(Live(owned, addr)) && (old(OnlyInUse()) ==> OnlyInUse())
    {
      hide MemOk, Mem, Pos, Rel, ExactlyInUse, Live, Addressed, PointsTo, Flat, RowsOf;
      ghost var n, own := nodes, owned;
      InUseStart();
      NodesDistinct();
      StartFirst();
      FirstGone(n, own);
      OnlyPlace(n, 0);
      LiveLess(own, {n[0]});
      if OnlyInUse() {
        HeadInUse(slots[..], n, own, addr, base);
      }
      KeepNodes(1, |n|);
      Deallocate(n[0]);
      assert n[1..|n|] == n[1..];
    }

    /** `pop_back`. */
    method PopBack()
      requires Valid() && Contents() != []
      modifies this
      ensures Valid() && Contents() == old(Contents()[..|Contents()| - 1]) && Leaked() == old(Leaked())
      ensures slots == old(slots) && NodeSet(nodes) <= old(NodeSet(nodes)) && addr == old(addr) &&
        Live(owned, addr) <= old(Live(owned, addr))
      ensures start == old(start) && finish == old(Prev(b, finish)) && (old(OnlyInUse()) ==> OnlyInUse())
    {
      hide MemOk, Mem, Pos, ExactlyInUse, Live;
      Ordered();
      RelBounds(start);
      RelBounds(finish);
      RelStep(finish, 0);
      RelDown();
      SliceSlice(Mem(), Rel(start), Rel(finish), Rel(start), Rel(finish) - 1);
      if finish.off != 0 {
        finish := Iter(finish.node, finish.off - 1);
      } else {
        finish := Iter(finish.node - 1, b - 1);
        DropLast();
      }
      RelBounds(start);
      RelBounds(finish);
    }

    lemma RelDown()
      requires Spread() && start.node == base && Rel(start) < Rel(finish)
      ensures finish.off == 0 ==> finish.node > base
    {
      BeforePos(b, start, finish);
    }

    lemma NodesDistinct()
      requires MemOk()
      ensures forall i, j :: 0 <= i < j < |nodes| ==> nodes[i] != nodes[j]
    {
    }

    /** `pop_front`. */
    method PopFront()
      requires Valid() && Contents() != []
      modifies this
      ensures Valid() && Contents() == old(Contents()[1..]) && Leaked() == old(Leaked())
      ensures slots == old(slots) && NodeSet(nodes) <= old(NodeSet(nodes)) && addr == old(addr) &&
        Live(owned, addr) <= old(Live(owned, addr))
      ensures start == old(Next(b, start)) && finish == old(finish) && (old(OnlyInUse()) ==> OnlyInUse())
    {
      hide MemOk, Mem, Pos, ExactlyInUse, Live;
      Ordered();
      RelBounds(start);
      RelBounds(finish);
      RelStep(start, 0);
      RelUp();
      if start.off != b - 1 {
        start := Iter(start.node, start.off + 1);
      } else {
        start := Iter(start.node + 1, 0);
        DropFirst();
      }
      RelBounds(start);
      RelBounds(finish);
    }

    lemma RelUp()
      requires Spread() && finish.node == base + |nodes| - 1 && Rel(start) < Rel(finish)
      ensures start.off == b - 1 ==> start.node < finish.node
    {
      BeforePos(b, start, finish);
    }

    // ---------- room for several elements ----------

    /** One node more at the front: the addresses that are known, and the slots outside those in use, stay as they
        were. */
    method OneMoreFront(at: nat, ghost k: nat, ghost place: nat -> nat, ghost live: set<nat>,
                       ghost s: seq<array?<T>>, ghost s0: seq<array?<T>>, ghost ad: map<array<T>, nat>)
      requires Spread() && base > 0 && at == base - 1 && at < slots.Length && Supplied(place, live) &&
        Live(owned, addr) == live + Used(place, k)
      requires KnownSame(s0, ad, addr) && OutsideSame(s, slots[..], base, base + |nodes|)
      modifies this`nodes, this`base, this`owned, this`addr, slots
      ensures Spread() && |nodes| == old(|nodes|) + 1 && Contents() == old(Contents()) && Leaked() == old(Leaked())
      ensures base == at && nodes[1..] == old(nodes) && fresh(nodes[0])
      ensures Live(owned, addr) == live + Used(place, k + 1)
      ensures KnownSame(s0, ad, addr) && OutsideSame(s, slots[..], base, base + |nodes|)
    {
      hide MemOk, Mem, Rel, NodesOk, Live, KnownSame, OutsideSame, Used, Supplied, NodeAdded;
      ghost var t, own, ad1, m := slots[..], owned, addr, |nodes|;
      SupplyStep(place, live, k);
      AddNodeFront(at, place(k));
      NodeKnown(s0, ad, own, owned, ad1, addr, nodes[0], place(k));
      SlotsOneMore(s, t, at, nodes[0], base + 1, m, base, m + 1);
    }

    /** `_M_new_elements_at_front`: nodes for so many more elements before the start. */
    method NewElementsAtFront(newElements: nat, ghost place: nat -> nat) returns (ghost added: nat)
      requires Valid() && newElements > 0 && Supplied(place, Live(owned, addr))
      modifies this, slots
      ensures Spread() && Contents() == old(Contents()) && Leaked() == old(Leaked())
      ensures added == NodesFor(b, newElements) && start.node == base + added && finish.node == base + |nodes| - 1
      ensures OnlyInUse() <==> old(AloneAtFront(NodesFor(b, newElements), place))
      ensures start.off == old(start.off) && finish.off == old(finish.off)
      ensures (slots == old(slots) || fresh(slots)) && fresh(NodeSet(nodes) - old(NodeSet(nodes)))
      ensures LastStays()
    {
      hide MemOk, Mem, Rel, NodesOk, Live, KnownSame, NullOutside, OutsideSame, Addressed, ExactlyInUse, AloneAtFront,
        Used, NewStart, Supplied, NodeAdded;
      var newNodes := NodesFor(b, newElements);
      added := newNodes;
      ghost var s0, ad, live, n := slots[..], addr, Live(owned, addr), |nodes|;
      KnownRefl(s0, ad);
      SupplyStep(place, live, 0);
      ReserveMapAtFront(newNodes);
      ghost var s, at := slots[..], base;
      SlotsRefl(s, base, base + n);
      var i := 1;
      while i <= newNodes
        invariant 1 <= i <= newNodes + 1 && start.node == base + (i - 1) && finish.node == base + |nodes| - 1
        invariant |nodes| > 0 && nodes[|nodes| - 1] == old(nodes[|nodes| - 1])
        invariant Spread() && Contents() == old(Contents()) && Leaked() == old(Leaked())
        invariant start.off == old(start.off) && finish.off == old(finish.off) && newNodes <= start.node < slots.Length
        invariant (slots == old(slots) || fresh(slots)) && fresh(NodeSet(nodes) - old(NodeSet(nodes)))
        invariant |nodes| == n + (i - 1) && base == at - (i - 1) && OutsideSame(s, slots[..], base, base + |nodes|)
        invariant Live(owned, addr) == live + Used(place, i - 1) && KnownSame(s0, ad, addr)
      {
        OneMoreFront(start.node - i, i - 1, place, live, s, s0, ad);
        i := i + 1;
      }
      SlotsGrown(s0, s, slots[..], at, n, base, |nodes|);
      AloneFrontNow(newNodes, place);
    }

    /** One node more at the back: the addresses that are known, and the slots outside those in use, stay as they
        were. */
    method OneMoreBack(at: nat, ghost k: nat, ghost place: nat -> nat, ghost live: set<nat>,
                       ghost s: seq<array?<T>>, ghost s0: seq<array?<T>>, ghost ad: map<array<T>, nat>)
      requires Spread() && at == base + |nodes| < slots.Length && Supplied(place, live) &&
        Live(owned, addr) == live + Used(place, k)
      requires KnownSame(s0, ad, addr) && OutsideSame(s, slots[..], base, base + |nodes|)
      modifies this`nodes, this`owned, this`addr, slots
      ensures Spread() && |nodes| == old(|nodes|) + 1 && Contents() == old(Contents()) && Leaked() == old(Leaked())
      ensures base == old(base) && nodes[..old(|nodes|)] == old(nodes) && fresh(nodes[old(|nodes|)])
      ensures Live(owned, addr) == live + Used(place, k + 1)
      ensures KnownSame(s0, ad, addr) && OutsideSame(s, slots[..], base, base + |nodes|)
    {
      hide MemOk, Mem, Rel, NodesOk, Live, KnownSame, OutsideSame, Used, Supplied, NodeAdded;
      ghost var t, own, ad1, m := slots[..], owned, addr, |nodes|;
      SupplyStep(place, live, k);
      AddNodeBack(at, place(k));
      NodeKnown(s0, ad, own, owned, ad1, addr, nodes[m], place(k));
      SlotsOneMore(s, t, at, nodes[m], base, m, base, m + 1);
    }

    /** `_M_new_elements_at_back`. */
    method NewElementsAtBack(newElements: nat, ghost place: nat -> nat) returns (ghost added: nat)
      requires Valid() && newElements > 0 && Supplied(place, Live(owned, addr))
      modifies this, slots
      ensures Spread() && Contents() == old(Contents()) && Leaked() == old(Leaked())
      ensures added == NodesFor(b, newElements) && start.node == base && finish.node + added == base + |nodes| - 1
      ensures OnlyInUse() <==> old(AloneAtBack(NodesFor(b, newElements), place))
      ensures start.off == old(start.off) && finish.off == old(finish.off)
      ensures (slots == old(slots) || fresh(slots)) && fresh(NodeSet(nodes) - old(NodeSet(nodes)))
      ensures FirstStays()
    {
      hide MemOk, Mem, Rel, NodesOk, Live, KnownSame, NullOutside, OutsideSame, Addressed, ExactlyInUse, AloneAtBack,
        Used, NewStart, Supplied, NodeAdded;
      var newNodes := NodesFor(b, newElements);
      added := newNodes;
      ghost var s0, ad, live, n := slots[..], addr, Live(owned, addr), |nodes|;
      KnownRefl(s0, ad);
      SupplyStep(place, live, 0);
      ReserveMapAtBack(newNodes);
      ghost var s, at := slots[..], base;
      SlotsRefl(s, base, base + n);
      var i := 1;
      while i <= newNodes
        invariant 1 <= i <= newNodes + 1 && start.node == base && finish.node + (i - 1) == base + |nodes| - 1
        invariant |nodes| > 0 && nodes[0] == old(nodes[0])
        invariant Spread() && Contents() == old(Contents()) && Leaked() == old(Leaked())
        invariant start.off == old(start.off) && finish.off == old(finish.off) && finish.node + newNodes < slots.Length
        invariant (slots == old(slots) || fresh(slots)) && fresh(NodeSet(nodes) - old(NodeSet(nodes)))
        invariant |nodes| == n + (i - 1) && base == at && OutsideSame(s, slots[..], base, base + |nodes|)
        invariant Live(owned, addr) == live + Used(place, i - 1) && KnownSame(s0, ad, addr)
      {
        OneMoreBack(finish.node + i, i - 1, place, live, s, s0, ad);
        i := i + 1;
      }
      SlotsGrown(s0, s, slots[..], at, n, base, |nodes|);
      AloneBackNow(newNodes, place);
    }

    /** `_M_reserve_elements_at_front`. */
    method ReserveAtFront(n: nat, ghost place: nat -> nat) returns (newStart: Iter)
      requires Valid() && Supplied(place, Live(owned, addr))
      modifies this, slots
      ensures Spread() && Contents() == old(Contents()) && Leaked() == old(Leaked())
      ensures newStart == Subtract(b, start, n) && newStart.node == base && InNodes(newStart) &&
        finish.node == base + |nodes| - 1
      ensures OnlyInUse() <==> old(StaysAtFront(n, place))
      ensures (slots == old(slots) || fresh(slots)) && fresh(NodeSet(nodes) - old(NodeSet(nodes)))
      ensures LastStays()
    {
      hide MemOk, Mem, Rel, NodesOk, ExactlyInUse, Live, AloneAtFront, Supplied;
      var vacancies := start.off;
      SubtractPos(b, start, n);
      if n > vacancies {
        NodesBack(b, start, n);
        var _ := NewElementsAtFront(n - vacancies, place);
        SubtractPos(b, start, n);
        NodesBack(b, start, n);
      }
      newStart := Subtract(b, start, n);
    }

    /** `_M_reserve_elements_at_back`. */
    method ReserveAtBack(n: nat, ghost place: nat -> nat) returns (newFinish: Iter)
      requires Valid() && Supplied(place, Live(owned, addr))
      modifies this, slots
      ensures Spread() && Contents() == old(Contents()) && Leaked() == old(Leaked())
      ensures newFinish == Plus(b, finish, n) && newFinish.node == base + |nodes| - 1 && InNodes(newFinish) &&
        start.node == base
      ensures OnlyInUse() <==> old(StaysAtBack(n, place))
      ensures (slots == old(slots) || fresh(slots)) && fresh(NodeSet(nodes) - old(NodeSet(nodes)))
      ensures FirstStays()
    {
      hide MemOk, Mem, Rel, NodesOk, ExactlyInUse, Live, AloneAtBack, Supplied;
      var vacancies := b - finish.off - 1;
      PlusPos(b, finish, n);
      if n > vacancies {
        var _ := NewElementsAtBack(n - vacancies, place);
        PlusPos(b, finish, n);
        NodesOn(b, finish, n);
      }
      newFinish := Plus(b, finish, n);
    }

    static lemma SubtractPos(b: nat, it: Iter, n: int)
      requires Inside(b, it)
      ensures Inside(b, Subtract(b, it, n)) && Pos(b, Subtract(b, it, n)) == Pos(b, it) - n
    {
      PlusPos(b, it, -n);
    }

    static lemma NodesBack(b: nat, it: Iter, n: nat)
      requires Inside(b, it) && n > it.off
      ensures Subtract(b, it, n).node == it.node - (n - it.off + b - 1) / b
    {
      var k := n - it.off;
      assert (k + b - 1) / b == (k - 1) / b + 1 by { OneMore(k - 1, b); }
    }

    static lemma NodesOn(b: nat, it: Iter, n: nat)
      requires Inside(b, it) && n > b - it.off - 1
      ensures Plus(b, it, n).node == it.node + (n - (b - it.off - 1) + b - 1) / b
    {
      assert n - (b - it.off - 1) + b - 1 == n + it.off;
    }

    static lemma OneMore(k: nat, b: nat)
      requires b > 0
      ensures (k + b) / b == k / b + 1
    {
      DivBounds(k, b);
      DivBounds(k + b, b);
      Times(k / b + 1, (k + b) / b, b);
      Times(k / b, 1, b);
      Times(k / b + 1 - (k + b) / b, 0, b);
      Times((k + b) / b - (k / b + 1), 0, b);
      Times((k + b) / b, k / b + 1, b);
    }

    // ---------- insertion of several copies ----------

    lemma RelMoves(it: Iter, n: int)
      requires Inside(b, it)
      ensures Inside(b, Plus(b, it, n)) && Rel(Plus(b, it, n)) == Rel(it) + n
      ensures Inside(b, Subtract(b, it, n)) && Rel(Subtract(b, it, n)) == Rel(it) - n
    {
      PlusPos(b, it, n);
      SubtractPos(b, it, n);
    }

    lemma RelMinus(x: Iter, y: Iter)
      ensures Minus(b, x, y) == Rel(x) - Rel(y)
    {
      MinusPos(b, x, y);
    }

    /** What stands at place `j` when the elements before the gap have moved down. */
    static ghost predicate FrontCell(m: seq<T>, t: seq<T>, s: int, e: int, n: int, x: T, j: int)
      requires 0 <= n && 0 <= e && 0 <= s && s + e <= |m| && s - n <= j && 0 <= j < |m| == |t|
    {
      t[j] == if j < s + e - n then m[j + n] else if j < s + e then x else m[j]
    }

    static lemma FrontGoal(m: seq<T>, t: seq<T>, s: int, f: int, e: int, n: int, x: T)
      requires 0 <= s - n <= s <= s + e <= f <= |m| == |t| && 0 <= n && 0 <= e
      requires forall j :: s - n <= j < |m| ==> FrontCell(m, t, s, e, n, x, j)
      ensures t[s - n..f] == m[s..s + e] + Copies(n, x) + m[s + e..f]
    {
      var low, gap, high := t[s - n..s + e - n], t[s + e - n..s + e], t[s + e..f];
      forall i | 0 <= i < e
        ensures low[i] == m[s..s + e][i]
      {
        assert FrontCell(m, t, s, e, n, x, s - n + i);
      }
      forall i | 0 <= i < n
        ensures gap[i] == Copies(n, x)[i]
      {
        assert FrontCell(m, t, s, e, n, x, s + e - n + i);
      }
      forall i | 0 <= i < f - (s + e)
        ensures high[i] == m[s + e..f][i]
      {
        assert FrontCell(m, t, s, e, n, x, s + e + i);
      }
      assert low == m[s..s + e] && gap == Copies(n, x) && high == m[s + e..f];
      ThreeParts(t, s - n, s + e - n, s + e, f);
    }

    /** The same with the elements behind the gap moved up. */
    static ghost predicate BackCell(m: seq<T>, t: seq<T>, p: int, n: int, x: T, j: int)
      requires 0 <= n && 0 <= p && 0 <= j < |m| == |t|
    {
      t[j] == if j < p then m[j] else if j < p + n then x else m[j - n]
    }

    static lemma BackGoal(m: seq<T>, t: seq<T>, s: int, f: int, p: int, n: int, x: T)
      requires 0 <= s <= p <= f <= f + n <= |m| == |t| && 0 <= n
      requires forall j :: 0 <= j < f + n ==> BackCell(m, t, p, n, x, j)
      ensures t[s..f + n] == m[s..p] + Copies(n, x) + m[p..f]
    {
      var low, gap, high := t[s..p], t[p..p + n], t[p + n..f + n];
      forall i | 0 <= i < p - s
        ensures low[i] == m[s..p][i]
      {
        assert BackCell(m, t, p, n, x, s + i);
      }
      forall i | 0 <= i < n
        ensures gap[i] == Copies(n, x)[i]
      {
        assert BackCell(m, t, p, n, x, p + i);
      }
      forall i | 0 <= i < f - p
        ensures high[i] == m[p..f][i]
      {
        assert BackCell(m, t, p, n, x, p + n + i);
      }
      assert low == m[s..p] && gap == Copies(n, x) && high == m[p..f];
      ThreeParts(t, s, p, p + n, f + n);
    }

    static lemma ThreeParts(t: seq<T>, a: int, b: int, c: int, d: int)
      requires 0 <= a <= b <= c <= d <= |t|
      ensures t[a..d] == t[a..b] + t[b..c] + t[c..d]
    {
    }

    // The four ways to make room, depending on which end is nearer and whether what has to
    // move is longer than what comes in.

    static lemma InsertedFrontLong(m: seq<T>, m1: seq<T>, m2: seq<T>, m3: seq<T>, s: int, f: int, e: int, n: int, x: T)
      requires 0 <= s - n <= s <= s + e <= f <= |m| && 0 <= n <= e
      requires m1 == Overwritten(m, s - n, m[s..s + n]) && |m1| == |m|
      requires m2 == Overwritten(m1, s, m1[s + n..s + e]) && |m2| == |m|
      requires m3 == Overwritten(m2, s + e - n, Copies(n, x))
      ensures |m3| == |m| && m3[s - n..f] == m[s..s + e] + Copies(n, x) + m[s + e..f]
    {
      hide Overwritten, Copies;
      SameLength(m2, s + e - n, Copies(n, x));
      forall j | s - n <= j < |m|
        ensures FrontCell(m, m3, s, e, n, x, j)
      {
        FrontLongAt(m, m1, m2, m3, s, e, n, x, j);
      }
      FrontGoal(m, m3, s, f, e, n, x);
    }

    static lemma FrontLongAt(m: seq<T>, m1: seq<T>, m2: seq<T>, m3: seq<T>, s: int, e: int, n: int, x: T, j: nat)
      requires 0 <= s - n <= s <= s + e <= |m| && 0 <= n <= e && s - n <= j < |m|
      requires m1 == Overwritten(m, s - n, m[s..s + n]) && |m1| == |m|
      requires m2 == Overwritten(m1, s, m1[s + n..s + e]) && |m2| == |m|
      requires m3 == Overwritten(m2, s + e - n, Copies(n, x)) && |m3| == |m|
      ensures FrontCell(m, m3, s, e, n, x, j)
    {
      hide Overwritten;
      OverwrittenAt(m2, s + e - n, Copies(n, x), j);
      if j < s {
        OverwrittenAt(m1, s, m1[s + n..s + e], j);
        OverwrittenAt(m, s - n, m[s..s + n], j);
      } else if j < s + e - n {
        OverwrittenAt(m1, s, m1[s + n..s + e], j);
        OverwrittenAt(m, s - n, m[s..s + n], j + n);
      } else if j >= s + e {
        OverwrittenAt(m1, s, m1[s + n..s + e], j);
        OverwrittenAt(m, s - n, m[s..s + n], j);
      }
    }

    static lemma InsertedFrontShort(m: seq<T>, m1: seq<T>, m2: seq<T>, m3: seq<T>, s: int, f: int, e: int, n: int, x: T)
      requires 0 <= s - n <= s <= s + e <= f <= |m| && e < n
      requires m1 == Overwritten(m, s - n, m[s..s + e]) && |m1| == |m|
      requires m2 == Overwritten(m1, s - n + e, Copies(n - e, x)) && |m2| == |m|
      requires m3 == Overwritten(m2, s, Copies(e, x))
      ensures |m3| == |m| && m3[s - n..f] == m[s..s + e] + Copies(n, x) + m[s + e..f]
    {
      hide Overwritten, Copies;
      SameLength(m2, s, Copies(e, x));
      forall j | s - n <= j < |m|
        ensures FrontCell(m, m3, s, e, n, x, j)
      {
        FrontShortAt(m, m1, m2, m3, s, e, n, x, j);
      }
      FrontGoal(m, m3, s, f, e, n, x);
    }

    static lemma FrontShortAt(m: seq<T>, m1: seq<T>, m2: seq<T>, m3: seq<T>, s: int, e: int, n: int, x: T, j: nat)
      requires 0 <= s - n <= s <= s + e <= |m| && 0 <= e < n && s - n <= j < |m|
      requires m1 == Overwritten(m, s - n, m[s..s + e]) && |m1| == |m|
      requires m2 == Overwritten(m1, s - n + e, Copies(n - e, x)) && |m2| == |m|
      requires m3 == Overwritten(m2, s, Copies(e, x)) && |m3| == |m|
      ensures FrontCell(m, m3, s, e, n, x, j)
    {
      hide Overwritten;
      OverwrittenAt(m2, s, Copies(e, x), j);
      OverwrittenAt(m1, s - n + e, Copies(n - e, x), j);
      OverwrittenAt(m, s - n, m[s..s + e], j);
    }

    static lemma InsertedBackLong(m: seq<T>, m1: seq<T>, m2: seq<T>, m3: seq<T>, s: int, f: int, p: int, n: int, x: T)
      requires 0 <= s <= p <= f <= f + n <= |m| && 0 <= n < f - p
      requires m1 == Overwritten(m, f, m[f - n..f]) && |m1| == |m|
      requires m2 == Overwritten(m1, p + n, m1[p..f - n]) && |m2| == |m|
      requires m3 == Overwritten(m2, p, Copies(n, x))
      ensures |m3| == |m| && m3[s..f + n] == m[s..p] + Copies(n, x) + m[p..f]
    {
      hide Overwritten, Copies;
      SameLength(m2, p, Copies(n, x));
      forall j | 0 <= j < f + n
        ensures BackCell(m, m3, p, n, x, j)
      {
        BackLongAt(m, m1, m2, m3, f, p, n, x, j);
      }
      BackGoal(m, m3, s, f, p, n, x);
    }

    static lemma BackLongAt(m: seq<T>, m1: seq<T>, m2: seq<T>, m3: seq<T>, f: int, p: int, n: int, x: T, j: nat)
      requires 0 <= p <= f <= f + n <= |m| && 0 <= n < f - p && j < f + n
      requires m1 == Overwritten(m, f, m[f - n..f]) && |m1| == |m|
      requires m2 == Overwritten(m1, p + n, m1[p..f - n]) && |m2| == |m|
      requires m3 == Overwritten(m2, p, Copies(n, x)) && |m3| == |m|
      ensures BackCell(m, m3, p, n, x, j)
    {
      hide Overwritten;
      OverwrittenAt(m2, p, Copies(n, x), j);
      OverwrittenAt(m1, p + n, m1[p..f - n], j);
      OverwrittenAt(m, f, m[f - n..f], j);
      if p + n <= j < f {
        OverwrittenAt(m, f, m[f - n..f], j - n);
      }
    }

    static lemma InsertedBackShort(m: seq<T>, m1: seq<T>, m2: seq<T>, m3: seq<T>, s: int, f: int, p: int, n: int, x: T)
      requires 0 <= s <= p <= f <= f + n <= |m| && f - p <= n
      requires m1 == Overwritten(m, f, Copies(p + n - f, x)) && |m1| == |m|
      requires m2 == Overwritten(m1, p + n, m1[p..f]) && |m2| == |m|
      requires m3 == Overwritten(m2, p, Copies(f - p, x))
      ensures |m3| == |m| && m3[s..f + n] == m[s..p] + Copies(n, x) + m[p..f]
    {
      hide Overwritten, Copies;
      SameLength(m2, p, Copies(f - p, x));
      forall j | 0 <= j < f + n
        ensures BackCell(m, m3, p, n, x, j)
      {
        BackShortAt(m, m1, m2, m3, f, p, n, x, j);
      }
      BackGoal(m, m3, s, f, p, n, x);
    }

    static lemma BackShortAt(m: seq<T>, m1: seq<T>, m2: seq<T>, m3: seq<T>, f: int, p: int, n: int, x: T, j: nat)
      requires 0 <= p <= f <= f + n <= |m| && f - p <= n && j < f + n
      requires m1 == Overwritten(m, f, Copies(p + n - f, x)) && |m1| == |m|
      requires m2 == Overwritten(m1, p + n, m1[p..f]) && |m2| == |m|
      requires m3 == Overwritten(m2, p, Copies(f - p, x)) && |m3| == |m|
      ensures BackCell(m, m3, p, n, x, j)
    {
      hide Overwritten;
      OverwrittenAt(m2, p, Copies(f - p, x), j);
      OverwrittenAt(m1, p + n, m1[p..f], j);
      OverwrittenAt(m, f, Copies(p + n - f, x), j);
      if j >= p + n {
        OverwrittenAt(m, f, Copies(p + n - f, x), j - n);
      }
    }

    /** The storage after an insertion: from `newStart` to `newFinish` it reads as `c`. */
    ghost predicate Reads(newStart: Iter, newFinish: Iter, c: seq<T>)
      reads this`nodes, this`base, nodes
    {
      0 <= Rel(newStart) <= Rel(newFinish) < |Mem()| && Mem()[Rel(newStart)..Rel(newFinish)] == c
    }

    /** `n` copies of `x` at element `e` of the contents. */
    ghost function With(e: nat, n: nat, x: T): seq<T>
      requires Spread() && e <= |Contents()|
      reads this, slots, nodes
    {
      Contents()[..e] + Copies(n, x) + Contents()[e..]
    }

    lemma WithParts(e: nat, n: nat, x: T)
      requires Spread() && e <= |Contents()|
      ensures 0 <= Rel(start) <= Rel(start) + e <= Rel(finish) < |Mem()|
      ensures With(e, n, x) == Mem()[Rel(start)..Rel(start) + e] + Copies(n, x) + Mem()[Rel(start) + e..Rel(finish)]
    {
      RelBounds(start);
      RelBounds(finish);
      SplitAt(Mem(), Rel(start), Rel(finish), e);
    }

    static lemma SplitAt(m: seq<T>, s: int, f: int, e: int)
      requires 0 <= s <= s + e <= f <= |m| && e >= 0
      ensures m[s..f][..e] == m[s..s + e] && m[s..f][e..] == m[s + e..f]
    {
      SliceSlice(m, s, f, s, s + e);
      SliceSlice(m, s, f, s + e, f);
      assert m[s..f][e..] == m[s..f][e..f - s];
    }

    /** What was written reads as the contents, with the iterators there. */
    lemma NowContents(c: seq<T>)
      requires Spread() && Reads(start, finish, c)
      ensures Contents() == c
    {
    }

    /** The part of `_M_insert_aux` that moves the elements before the place. */
    method InsertAuxFront(e: nat, n: nat, x: T, ghost place: nat -> nat)
      requires Supplied(place, Live(owned, addr)) && Valid() && e <= |Contents()|
      modifies this, slots, nodes
      ensures Valid() && Contents() == old(With(e, n, x)) && Leaked() == old(Leaked())
      ensures OnlyInUse() <==> old(StaysAtFront(n, place))
      ensures (slots == old(slots) || fresh(slots)) && fresh(NodeSet(nodes) - old(NodeSet(nodes)))
      ensures LastStays()
    {
      hide MemOk, Mem, Pos, Rel, NodesOk, Overwritten, Reads, ExactlyInUse, Live, StaysAtFront, Supplied;
      var newStart := ReserveAtFront(n, place);
      MoveFront(newStart, e, n, x);
    }

    /** The elements before the place are moved down into the room that has been made. */
    method MoveFront(newStart: Iter, e: nat, n: nat, x: T)
      requires Spread() && e <= |Contents()| && newStart == Subtract(b, start, n) && InNodes(newStart)
      requires newStart.node == base && finish.node == base + |nodes| - 1
      modifies this`start, nodes
      ensures Valid() && Contents() == old(With(e, n, x)) && slots[..] == old(slots[..])
    {
      hide MemOk, Mem, Pos, Rel, NodesOk, Overwritten, Reads, With, Subtract, Plus;
      SlotsApart();
      ghost var c, slots1 := With(e, n, x), slots[..];
      WithParts(e, n, x);
      RelMoves(start, e);
      RelMoves(start, n);
      RelBounds(newStart);
      var pos := Plus(b, start, e);
      if e >= n {
        var startN := Plus(b, start, n);
        RelMoves(pos, n);
        MoveFrontLong(newStart, startN, Subtract(b, pos, n), pos, e, n, x);
      } else {
        MoveFrontShort(newStart, pos, e, n, x);
      }
      assert slots[..] == slots1;
      start := newStart;
      NowContents(c);
    }

    method MoveFrontLong(newStart: Iter, startN: Iter, posN: Iter, pos: Iter, e: nat, n: nat, x: T)
      requires MemOk() && Inside(b, start) && Inside(b, newStart) && Inside(b, startN) && Inside(b, pos) &&
        Inside(b, posN)
      requires 0 <= Rel(newStart) == Rel(start) - n && Rel(startN) == Rel(start) + n && Rel(pos) == Rel(start) + e &&
        Rel(posN) == Rel(pos) - n
      requires n <= e && Rel(pos) <= Rel(finish) < |Mem()|
      modifies nodes
      ensures MemOk() && Reads(newStart, finish, old(Mem()[Rel(start)..Rel(start) + e] + Copies(n, x) +
        Mem()[Rel(start) + e..Rel(finish)]))
    {
      hide MemOk, Mem, Pos, Rel, NodesOk, Overwritten;
      ghost var m, s, f := Mem(), Rel(start), Rel(finish);
      SameLength(m, s - n, m[s..s + n]);
      var _ := CopyForward(start, startN, newStart);
      ghost var m1 := Mem();
      SameLength(m1, s, m1[s + n..s + e]);
      var _ := CopyForward(startN, pos, start);
      ghost var m2 := Mem();
      Fill(posN, pos, x);
      InsertedFrontLong(m, m1, m2, Mem(), s, f, e, n, x);
    }

    method MoveFrontShort(newStart: Iter, pos: Iter, e: nat, n: nat, x: T)
      requires MemOk() && Inside(b, start) && Inside(b, newStart) && Inside(b, pos)
      requires 0 <= Rel(newStart) == Rel(start) - n && Rel(pos) == Rel(start) + e
      requires e < n && Rel(pos) <= Rel(finish) < |Mem()|
      modifies nodes
      ensures MemOk() && Reads(newStart, finish, old(Mem()[Rel(start)..Rel(start) + e] + Copies(n, x) +
        Mem()[Rel(start) + e..Rel(finish)]))
    {
      hide MemOk, Mem, Pos, Rel, NodesOk, Overwritten;
      ghost var m, s, f := Mem(), Rel(start), Rel(finish);
      SameLength(m, s - n, m[s..s + e]);
      var mid := CopyForward(start, pos, newStart);
      ghost var m1 := Mem();
      SameLength(m1, s - n + e, Copies(n - e, x));
      Fill(mid, start, x);
      ghost var m2 := Mem();
      Fill(start, pos, x);
      InsertedFrontShort(m, m1, m2, Mem(), s, f, e, n, x);
    }

    /** The part of `_M_insert_aux` that moves the elements from the place on. */
    method InsertAuxBack(e: nat, n: nat, x: T, ghost place: nat -> nat)
      requires Supplied(place, Live(owned, addr)) && Valid() && e <= |Contents()|
      modifies this, slots, nodes
      ensures Valid() && Contents() == old(With(e, n, x)) && Leaked() == old(Leaked())
      ensures OnlyInUse() <==> old(StaysAtBack(n, place))
      ensures (slots == old(slots) || fresh(slots)) && fresh(NodeSet(nodes) - old(NodeSet(nodes)))
      ensures FirstStays()
    {
      hide MemOk, Mem, Pos, Rel, NodesOk, Overwritten, Reads, ExactlyInUse, Live, StaysAtBack, Supplied;
      ContentsSize();
      RelMinus(finish, start);
      var length := Minus(b, finish, start);
      var newFinish := ReserveAtBack(n, place);
      MoveBack(newFinish, e, length - e, n, x);
    }

    /** The elements from the place on are moved up. */
    method MoveBack(newFinish: Iter, e: nat, elemsAfter: nat, n: nat, x: T)
      requires Spread() && e + elemsAfter == |Contents()| && newFinish == Plus(b, finish, n) && InNodes(newFinish)
      requires newFinish.node == base + |nodes| - 1 && start.node == base
      modifies this`finish, nodes
      ensures Valid() && Contents() == old(With(e, n, x)) && slots[..] == old(slots[..])
    {
      hide MemOk, Mem, Pos, Rel, NodesOk, Overwritten, Reads, With, Subtract, Plus;
      SlotsApart();
      ContentsSize();
      ghost var c, slots1 := With(e, n, x), slots[..];
      WithParts(e, n, x);
      var pos := Subtract(b, finish, elemsAfter);
      RelMoves(finish, elemsAfter);
      RelMoves(finish, n);
      RelMoves(pos, n);
      RelBounds(newFinish);
      if elemsAfter > n {
        MoveBackLong(newFinish, Subtract(b, finish, n), Plus(b, pos, n), pos, e, n, x);
      } else {
        MoveBackShort(newFinish, Plus(b, pos, n), pos, e, n, x);
      }
      assert slots[..] == slots1;
      finish := newFinish;
      NowContents(c);
    }

    method MoveBackLong(newFinish: Iter, finishN: Iter, posN: Iter, pos: Iter, e: nat, n: nat, x: T)
      requires MemOk() && Inside(b, finish) && Inside(b, newFinish) && Inside(b, finishN) && Inside(b, pos) &&
        Inside(b, posN)
      requires 0 <= Rel(start) && Rel(finish) + n == Rel(newFinish) < |Mem()| && Rel(finishN) == Rel(finish) - n
      requires Rel(pos) == Rel(start) + e && Rel(posN) == Rel(pos) + n < Rel(finish)
      modifies nodes
      ensures MemOk() && Reads(start, newFinish, old(Mem()[Rel(start)..Rel(start) + e] + Copies(n, x) +
        Mem()[Rel(start) + e..Rel(finish)]))
    {
      hide MemOk, Mem, Pos, Rel, NodesOk, Overwritten;
      ghost var m, s, f, p := Mem(), Rel(start), Rel(finish), Rel(pos);
      SameLength(m, f, m[f - n..f]);
      var _ := CopyForward(finishN, finish, finish);
      ghost var m1 := Mem();
      SameLength(m1, p + n, m1[p..f - n]);
      var _ := CopyBack(pos, finishN, finish);
      ghost var m2 := Mem();
      Fill(pos, posN, x);
      InsertedBackLong(m, m1, m2, Mem(), s, f, p, n, x);
    }

    method MoveBackShort(newFinish: Iter, posN: Iter, pos: Iter, e: nat, n: nat, x: T)
      requires MemOk() && Inside(b, finish) && Inside(b, newFinish) && Inside(b, pos) && Inside(b, posN)
      requires 0 <= Rel(start) && Rel(finish) + n == Rel(newFinish) < |Mem()|
      requires Rel(pos) == Rel(start) + e <= Rel(finish) <= Rel(pos) + n == Rel(posN)
      modifies nodes
      ensures MemOk() && Reads(start, newFinish, old(Mem()[Rel(start)..Rel(start) + e] + Copies(n, x) +
        Mem()[Rel(start) + e..Rel(finish)]))
    {
      hide MemOk, Mem, Pos, Rel, NodesOk, Overwritten;
      ghost var m, s, f, p := Mem(), Rel(start), Rel(finish), Rel(pos);
      SameLength(m, f, Copies(p + n - f, x));
      Fill(finish, posN, x);
      ghost var m1 := Mem();
      SameLength(m1, p + n, m1[p..f]);
      var _ := CopyForward(pos, finish, posN);
      ghost var m2 := Mem();
      Fill(pos, finish, x);
      InsertedBackShort(m, m1, m2, Mem(), s, f, p, n, x);
    }

    /** `insert` of `n` copies at a place. */
    method InsertN(pos: Iter, n: nat, x: T, ghost place: nat -> nat)
      requires Supplied(place, Live(owned, addr)) && Valid() && InNodes(pos) && Rel(start) <= Rel(pos) <= Rel(finish)
      modifies this, slots, nodes
      ensures Valid() && Leaked() == old(Leaked())
      ensures Contents() == old(With(Rel(pos) - Rel(start), n, x))
      ensures OnlyInUse() <==> old(Stays(Rel(pos) - Rel(start), n, place))
      ensures (slots == old(slots) || fresh(slots)) && fresh(NodeSet(nodes) - old(NodeSet(nodes)))
      ensures old(Rel(pos) == Rel(start) || 2 * (Rel(pos) - Rel(start)) + 2 <= |Contents()|) ==> LastStays()
      ensures old(Rel(pos) != Rel(start) && 2 * (Rel(pos) - Rel(start)) + 2 > |Contents()|) ==> FirstStays()
    {
      hide MemOk, Mem, Pos, Rel, NodesOk, Overwritten, ExactlyInUse, Live, StaysAtBack, StaysAtFront, Supplied;
      ContentsSize();
      RelMinus(pos, start);
      RelMinus(finish, start);
      SamePlace(pos, start);
      SamePlace(pos, finish);
      if pos == start {
        FillFront(n, x, place);
      } else if pos == finish {
        FillBack(n, x, place);
      } else {
        var elemsBefore := Minus(b, pos, start);
        var length := Minus(b, finish, start);
        if elemsBefore < length / 2 {
          InsertAuxFront(elemsBefore, n, x, place);
        } else {
          InsertAuxBack(elemsBefore, n, x, place);
        }
      }
    }

    lemma SamePlace(x: Iter, y: Iter)
      requires Inside(b, x) && Inside(b, y)
      ensures x == y <==> Rel(x) == Rel(y)
    {
      BeforePos(b, x, y);
    }

    method FillFront(n: nat, x: T, ghost place: nat -> nat)
      requires Supplied(place, Live(owned, addr)) && Valid()
      modifies this, slots, nodes
      ensures Valid() && Contents() == old(With(0, n, x)) && Leaked() == old(Leaked())
      ensures OnlyInUse() <==> old(StaysAtFront(n, place))
      ensures (slots == old(slots) || fresh(slots)) && fresh(NodeSet(nodes) - old(NodeSet(nodes)))
      ensures LastStays()
    {
      hide MemOk, Mem, Pos, NodesOk, Overwritten, ExactlyInUse, Live, StaysAtFront, Supplied;
      var newStart := ReserveAtFront(n, place);
      StoreBefore(newStart, n, x);
    }

    /** The copies go into the room before the start. */
    method StoreBefore(newStart: Iter, n: nat, x: T)
      requires Spread() && newStart == Subtract(b, start, n) && InNodes(newStart)
      requires newStart.node == base && finish.node == base + |nodes| - 1
      modifies this`start, nodes
      ensures Valid() && Contents() == old(With(0, n, x)) && slots[..] == old(slots[..])
    {
      hide MemOk, Mem, Pos, NodesOk, Overwritten, Subtract, Plus;
      SlotsApart();
      ghost var slots1 := slots[..];
      RelBounds(start);
      RelBounds(finish);
      RelBounds(newStart);
      RelMoves(start, n);
      ghost var m, s, f := Mem(), Rel(start), Rel(finish);
      Fill(newStart, start, x);
      assert slots[..] == slots1;
      start := newStart;
      FilledAround(m, s, f, n, x);
    }

    method FillBack(n: nat, x: T, ghost place: nat -> nat)
      requires Supplied(place, Live(owned, addr)) && Valid()
      modifies this, slots, nodes
      ensures Valid() && Leaked() == old(Leaked())
      ensures Contents() == old(With(|Contents()|, n, x))
      ensures OnlyInUse() <==> old(StaysAtBack(n, place))
      ensures (slots == old(slots) || fresh(slots)) && fresh(NodeSet(nodes) - old(NodeSet(nodes)))
      ensures FirstStays()
    {
      hide MemOk, Mem, Pos, NodesOk, Overwritten, ExactlyInUse, Live, StaysAtBack, Supplied;
      var newFinish := ReserveAtBack(n, place);
      StoreBehind(newFinish, n, x);
    }

    /** Or into that behind the finish. */
    method StoreBehind(newFinish: Iter, n: nat, x: T)
      requires Spread() && newFinish == Plus(b, finish, n) && InNodes(newFinish)
      requires newFinish.node == base + |nodes| - 1 && start.node == base
      modifies this`finish, nodes
      ensures Valid() && Contents() == old(With(|Contents()|, n, x)) && slots[..] == old(slots[..])
    {
      hide MemOk, Mem, Pos, NodesOk, Overwritten, Subtract, Plus;
      SlotsApart();
      ghost var slots1 := slots[..];
      RelBounds(start);
      RelBounds(finish);
      RelBounds(newFinish);
      RelMoves(finish, n);
      ghost var m, s, f := Mem(), Rel(start), Rel(finish);
      Fill(finish, newFinish, x);
      assert slots[..] == slots1;
      finish := newFinish;
      FilledAround(m, s, f, n, x);
    }

    static lemma FilledAround(m: seq<T>, s: int, f: int, n: nat, x: T)
      requires 0 <= s <= f <= |m|
      ensures n <= s ==> Overwritten(m, s - n, Copies(n, x))[s - n..f] == m[s..f][..0] + Copies(n, x) + m[s..f][0..]
      ensures f + n <= |m| ==>
        Overwritten(m, f, Copies(n, x))[s..f + n] == m[s..f][..f - s] + Copies(n, x) + m[s..f][f - s..]
    {
      AtEnds(m[s..f], Copies(n, x));
      if n <= s {
        FilledBefore(m, s, f, Copies(n, x));
      }
      if f + n <= |m| {
        FilledBehind(m, s, f, Copies(n, x));
      }
    }

    static lemma AtEnds(c: seq<T>, v: seq<T>)
      ensures c[..0] + v + c[0..] == v + c && c[..|c|] + v + c[|c|..] == c + v
    {
    }

    static lemma FilledBefore(m: seq<T>, s: int, f: int, v: seq<T>)
      requires |v| <= s <= f <= |m|
      ensures |Overwritten(m, s - |v|, v)| == |m| && Overwritten(m, s - |v|, v)[s - |v|..f] == v + m[s..f]
    {
      var t := Overwritten(m, s - |v|, v);
      assert t[s - |v|..s] == v && t[s..f] == m[s..f];
      assert t[s - |v|..f] == t[s - |v|..s] + t[s..f];
    }

    static lemma FilledBehind(m: seq<T>, s: int, f: int, v: seq<T>)
      requires 0 <= s <= f && f + |v| <= |m|
      ensures |Overwritten(m, f, v)| == |m| && Overwritten(m, f, v)[s..f + |v|] == m[s..f] + v
    {
      var t := Overwritten(m, f, v);
      assert t[s..f] == m[s..f] && t[f..f + |v|] == v;
      assert t[s..f + |v|] == t[s..f] + t[f..f + |v|];
    }

    // ---------- one element in the middle ----------

    static lemma OneInsertedFront(m: seq<T>, m1: seq<T>, s: int, f: int, k: int, x: T)
      requires 0 <= s && s + 1 < f <= |m| && 1 <= k && s + k + 1 <= f && m[s] == m[s + 1]
      requires m1 == Overwritten(m, s + 1, m[s + 2..s + k + 1])
      ensures |m1| == |m| && m1[s + k := x][s..f] == m[s + 1..f][..k] + [x] + m[s + 1..f][k..]
    {
      hide Overwritten;
      var moved := m[s + 2..s + k + 1];
      SameLength(m, s + 1, moved);
      var t, c := m1[s + k := x], m[s + 1..f];
      var low, high := t[s..s + k], t[s + k + 1..f];
      forall i | 0 <= i < k
        ensures low[i] == c[..k][i]
      {
        OverwrittenAt(m, s + 1, moved, s + i);
      }
      forall i | 0 <= i < f - (s + k + 1)
        ensures high[i] == c[k..][i]
      {
        OverwrittenAt(m, s + 1, moved, s + k + 1 + i);
      }
      assert low == c[..k] && high == c[k..] && t[s + k..s + k + 1] == [x];
      ThreeParts(t, s, s + k, s + k + 1, f);
    }

    static lemma OneInsertedBack(m: seq<T>, m1: seq<T>, s: int, f: int, k: int, x: T)
      requires 0 <= s && 0 <= k && s + k + 2 <= f <= |m| && m[f - 1] == m[f - 2]
      requires m1 == Overwritten(m, s + k + 1, m[s + k..f - 2])
      ensures |m1| == |m| && m1[s + k := x][s..f] == m[s..f - 1][..k] + [x] + m[s..f - 1][k..]
    {
      hide Overwritten;
      var moved := m[s + k..f - 2];
      SameLength(m, s + k + 1, moved);
      var t, c := m1[s + k := x], m[s..f - 1];
      var low, high := t[s..s + k], t[s + k + 1..f];
      forall i | 0 <= i < k
        ensures low[i] == c[..k][i]
      {
        OverwrittenAt(m, s + k + 1, moved, s + i);
      }
      forall i | 0 <= i < f - (s + k + 1)
        ensures high[i] == c[k..][i]
      {
        OverwrittenAt(m, s + k + 1, moved, s + k + 1 + i);
      }
      assert low == c[..k] && high == c[k..] && t[s + k..s + k + 1] == [x];
      ThreeParts(t, s, s + k, s + k + 1, f);
    }

    /** `insert` of one element: returns the iterator to it. */
    method InsertOne(pos: Iter, x: T, ghost place: nat -> nat) returns (result: Iter)
      requires Supplied(place, Live(owned, addr)) && Valid() && InNodes(pos) && Rel(start) <= Rel(pos) <= Rel(finish)
      modifies this, slots, nodes
      ensures Valid() && Leaked() == old(Leaked())
      ensures Contents() == old(Contents()[..Rel(pos) - Rel(start)] + [x] + Contents()[Rel(pos) - Rel(start)..])
      ensures InNodes(result) && Rel(result) - Rel(start) == old(Rel(pos) - Rel(start))
      ensures OnlyInUse() <==> old(Stays(Rel(pos) - Rel(start), 1, place))
      ensures (slots == old(slots) || fresh(slots)) && fresh(NodeSet(nodes) - old(NodeSet(nodes)))
      ensures old(Rel(pos) == Rel(start) || 2 * (Rel(pos) - Rel(start)) + 2 <= |Contents()|) ==> LastStays()
      ensures old(Rel(pos) != Rel(start) && 2 * (Rel(pos) - Rel(start)) + 2 > |Contents()|) ==> FirstStays()
    {
      hide MemOk, Mem, Pos, Rel, NodesOk, Overwritten, ExactlyInUse, Live, StaysAtBack, StaysAtFront, Supplied;
      RelMinus(pos, start);
      RelMinus(finish, start);
      ContentsSize();
      SamePlace(pos, start);
      SamePlace(pos, finish);
      if pos == start {
        EmptyFront(Contents(), x);
        PushFront(x, place);
        return start;
      } else if pos == finish {
        EmptyFront(Contents(), x);
        PushBack(x, place);
        RelMovesOne(finish);
        RelBounds(start);
        RelBounds(finish);
        ContentsSize();
        RelNode(Prev(b, finish));
        return Prev(b, finish);
      } else {
        var index := Minus(b, pos, start);
        if index < Minus(b, finish, start) / 2 {
          result := InsertOneFront(index, x, place);
        } else {
          result := InsertOneBack(index, x, place);
        }
      }
    }

    static lemma EmptyFront(c: seq<T>, x: T)
      ensures c[..0] + [x] + c[0..] == [x] + c && c[..|c|] + [x] + c[|c|..] == c + [x]
    {
    }

    lemma RelMovesOne(it: Iter)
      requires Inside(b, it)
      ensures Rel(Next(b, it)) == Rel(it) + 1 && Inside(b, Next(b, it))
      ensures Rel(Prev(b, it)) == Rel(it) - 1 && Inside(b, Prev(b, it))
    {
      RelStep(it, 0);
    }

    method InsertOneFront(index: nat, x: T, ghost place: nat -> nat) returns (result: Iter)
      requires Supplied(place, Live(owned, addr)) && Valid() && 0 < index < |Contents()|
      modifies this, slots, nodes
      ensures Valid() && Leaked() == old(Leaked()) && Contents() == old(Contents()[..index] + [x] + Contents()[index..])
      ensures InNodes(result) && Rel(result) - Rel(start) == index
      ensures OnlyInUse() <==> old(StaysAtFront(1, place))
      ensures (slots == old(slots) || fresh(slots)) && fresh(NodeSet(nodes) - old(NodeSet(nodes)))
      ensures LastStays()
    {
      hide MemOk, Mem, Pos, Rel, NodesOk, Overwritten, ExactlyInUse, Live, StaysAtFront, Supplied;
      RelBounds(start);
      RelBounds(finish);
      ghost var c := Contents();
      var front := Get(start);
      PushFront(front, place);
      SlotsApart();
      ghost var slots1 := slots[..];
      result := ShiftFront(index, x, c);
      assert slots[..] == slots1;
    }

    /** The first element having been doubled, those up to the place move one down. */
    method ShiftFront(index: nat, x: T, ghost c: seq<T>) returns (result: Iter)
      requires Spread() && 0 < index < |c| && Contents() == [c[0]] + c
      modifies nodes
      ensures Spread() && Contents() == c[..index] + [x] + c[index..]
      ensures InNodes(result) && Rel(result) - Rel(start) == index
    {
      hide MemOk, Mem, Pos, Rel, NodesOk, Overwritten;
      RelBounds(start);
      RelBounds(finish);
      ghost var m, s, f := Mem(), Rel(start), Rel(finish);
      Doubled(m, s, f, c);
      var front1 := Next(b, start);
      var front2 := Next(b, front1);
      result := Plus(b, start, index);
      var pos1 := Next(b, result);
      RelMovesOne(start);
      RelMovesOne(front1);
      RelMoves(start, index);
      RelMovesOne(result);
      RelNode(result);
      var _ := CopyForward(front2, pos1, front1);
      ghost var m1 := Mem();
      Set(result, x);
      OneInsertedFront(m, m1, s, f, index, x);
    }

    static lemma Doubled(m: seq<T>, s: int, f: int, c: seq<T>)
      requires 0 <= s <= f <= |m| && |c| > 0
      ensures m[s..f] == [c[0]] + c ==> s + 1 < f && m[s] == m[s + 1] && m[s + 1..f] == c
      ensures m[s..f] == c + [c[|c| - 1]] ==> s + 1 < f && m[f - 1] == m[f - 2] && m[s..f - 1] == c
    {
      if m[s..f] == [c[0]] + c {
        FirstDoubled(m, s, f, c);
      }
      if m[s..f] == c + [c[|c| - 1]] {
        LastDoubled(m, s, f, c);
      }
    }

    static lemma FirstDoubled(m: seq<T>, s: int, f: int, c: seq<T>)
      requires 0 <= s <= f <= |m| && |c| > 0 && m[s..f] == [c[0]] + c
      ensures s + 1 < f && m[s] == m[s + 1] && m[s + 1..f] == c
    {
      var d := m[s..f];
      assert d[0] == m[s] && d[1] == m[s + 1];
      forall i | 0 <= i < |c|
        ensures m[s + 1..f][i] == c[i]
      {
        assert d[i + 1] == m[s + 1 + i];
      }
    }

    static lemma LastDoubled(m: seq<T>, s: int, f: int, c: seq<T>)
      requires 0 <= s <= f <= |m| && |c| > 0 && m[s..f] == c + [c[|c| - 1]]
      ensures s + 1 < f && m[f - 1] == m[f - 2] && m[s..f - 1] == c
    {
      var d := m[s..f];
      assert d[|c|] == m[s + |c|] && d[|c| - 1] == m[s + |c| - 1];
      forall i | 0 <= i < |c|
        ensures m[s..f - 1][i] == c[i]
      {
        assert d[i] == m[s + i];
      }
    }

    method InsertOneBack(index: nat, x: T, ghost place: nat -> nat) returns (result: Iter)
      requires Supplied(place, Live(owned, addr)) && Valid() && index < |Contents()|
      modifies this, slots, nodes
      ensures Valid() && Leaked() == old(Leaked()) && Contents() == old(Contents()[..index] + [x] + Contents()[index..])
      ensures InNodes(result) && Rel(result) - Rel(start) == index
      ensures OnlyInUse() <==> old(StaysAtBack(1, place))
      ensures (slots == old(slots) || fresh(slots)) && fresh(NodeSet(nodes) - old(NodeSet(nodes)))
      ensures FirstStays()
    {
      hide MemOk, Mem, Pos, Rel, NodesOk, Overwritten, ExactlyInUse, Live, StaysAtBack, Supplied;
      RelBounds(start);
      RelBounds(finish);
      RelMovesOne(finish);
      RelNode(Prev(b, finish));
      ghost var c := Contents();
      var back := Get(Prev(b, finish));
      PushBack(back, place);
      SlotsApart();
      ghost var slots1 := slots[..];
      result := ShiftBack(index, x, c);
      assert slots[..] == slots1;
    }

    /** The last element having been doubled, those from the place on move one up. */
    method ShiftBack(index: nat, x: T, ghost c: seq<T>) returns (result: Iter)
      requires Spread() && index < |c| && Contents() == c + [c[|c| - 1]]
      modifies nodes
      ensures Spread() && Contents() == c[..index] + [x] + c[index..]
      ensures InNodes(result) && Rel(result) - Rel(start) == index
    {
      hide MemOk, Mem, Pos, Rel, NodesOk, Overwritten;
      RelBounds(start);
      RelBounds(finish);
      ghost var m, s, f := Mem(), Rel(start), Rel(finish);
      Doubled(m, s, f, c);
      var back1 := Prev(b, finish);
      var back2 := Prev(b, back1);
      RelMovesOne(finish);
      RelMovesOne(back1);
      result := Plus(b, start, index);
      RelMoves(start, index);
      RelNode(result);
      var _ := CopyBack(result, back2, back1);
      ghost var m1 := Mem();
      Set(result, x);
      OneInsertedBack(m, m1, s, f, index, x);
    }

    // ---------- erasing ----------

    static lemma ErasedFront(m: seq<T>, s: int, f: int, e: int, n: int)
      requires 0 <= s && 0 <= e && 0 <= n && s + e + n <= f <= |m|
      ensures Overwritten(m, s + n, m[s..s + e])[s + n..f] == m[s..s + e] + m[s + e + n..f]
    {
      var w, goal := Overwritten(m, s + n, m[s..s + e]), m[s..s + e] + m[s + e + n..f];
      forall i | 0 <= i < f - s - n
        ensures w[s + n..f][i] == goal[i]
      {
        assert w[s + n + i] == if i < e then m[s + i] else m[s + n + i];
      }
    }

    static lemma ErasedBack(m: seq<T>, s: int, f: int, e: int, n: int)
      requires 0 <= s && 0 <= e && 0 <= n && s + e + n <= f <= |m|
      ensures Overwritten(m, s + e, m[s + e + n..f])[s..f - n] == m[s..s + e] + m[s + e + n..f]
    {
      var w, goal := Overwritten(m, s + e, m[s + e + n..f]), m[s..s + e] + m[s + e + n..f];
      forall i | 0 <= i < f - s - n
        ensures w[s..f - n][i] == goal[i]
      {
        assert w[s + i] == if i < e then m[s + i] else m[s + n + i];
      }
    }

    /** The contents without `n` elements from element `e` on. */
    ghost function Without(e: nat, n: nat): (c: seq<T>)
      requires Spread() && e + n <= |Contents()|
      reads this, slots, nodes
      ensures |c| == |Contents()| - n
    {
      Contents()[..e] + Contents()[e + n..]
    }

    lemma WithoutParts(e: nat, n: nat)
      requires Spread() && e + n <= |Contents()|
      ensures 0 <= Rel(start) && Rel(start) + e + n <= Rel(finish) < |Mem()|
      ensures Without(e, n) == Mem()[Rel(start)..Rel(start) + e] + Mem()[Rel(start) + e + n..Rel(finish)]
    {
      RelBounds(start);
      RelBounds(finish);
      SplitAt(Mem(), Rel(start), Rel(finish), e);
      SplitAt(Mem(), Rel(start), Rel(finish), e + n);
    }

    /** `copy_backward(start, first, last)`: the elements before the gap move up to its end. */
    method CloseFront(first: Iter, last: Iter, e: nat, n: nat)
      requires Spread() && Inside(b, first) && Inside(b, last) && Rel(first) == Rel(start) + e &&
        Rel(last) == Rel(first) + n
      requires e + n <= |Contents()|
      modifies nodes
      ensures Spread() && 0 <= Rel(start) && Rel(start) + n <= Rel(finish) < |Mem()| &&
        Mem()[Rel(start) + n..Rel(finish)] == old(Without(e, n))
    {
      hide MemOk, Mem, Pos, Rel, NodesOk, Overwritten;
      WithoutParts(e, n);
      ghost var m, s, f := Mem(), Rel(start), Rel(finish);
      SameLength(m, s + n, m[s..s + e]);
      var _ := CopyBack(start, first, last);
      ErasedFront(m, s, f, e, n);
    }

    /** `copy(last, finish, first)`: the elements after the gap move down to its start. */
    method CloseBack(first: Iter, last: Iter, e: nat, n: nat)
      requires Spread() && Inside(b, first) && Inside(b, last) && Rel(first) == Rel(start) + e &&
        Rel(last) == Rel(first) + n
      requires e + n <= |Contents()|
      modifies nodes
      ensures Spread() && 0 <= Rel(start) <= Rel(finish) - n && Rel(finish) < |Mem()| &&
        Mem()[Rel(start)..Rel(finish) - n] == old(Without(e, n))
    {
      hide MemOk, Mem, Pos, Rel, NodesOk, Overwritten;
      WithoutParts(e, n);
      ghost var m, s, f := Mem(), Rel(start), Rel(finish);
      SameLength(m, s + e, m[s + e + n..f]);
      var _ := CopyForward(last, finish, first);
      ErasedBack(m, s, f, e, n);
    }

    /** `erase` of one element: returns the iterator to what followed it. */
    method EraseOne(pos: Iter) returns (result: Iter)
      requires Valid() && InNodes(pos) && Rel(start) <= Rel(pos) < Rel(finish)
      modifies this, nodes
      ensures Valid() && Leaked() == old(Leaked()) && Contents() == old(Without(Rel(pos) - Rel(start), 1))
      ensures InNodes(result) && Rel(result) - Rel(start) == old(Rel(pos) - Rel(start))
      ensures slots == old(slots) && NodeSet(nodes) <= old(NodeSet(nodes)) && (old(OnlyInUse()) ==> OnlyInUse())
      ensures if old(2 * (Rel(pos) - Rel(start)) + 2 <= |Contents()|) then finish == old(finish)
        else start == old(start)
    {
      hide MemOk, Mem, Pos, Rel, NodesOk, Without, ExactlyInUse, Live, Next, Prev;
      var next := Next(b, pos);
      RelMovesOne(pos);
      RelMinus(pos, start);
      RelMinus(finish, start);
      ContentsSize();
      var index := Minus(b, pos, start);
      if index < Minus(b, finish, start) / 2 {
        EraseOneFront(pos, next, index);
      } else {
        EraseOneBack(pos, next, index);
      }
      result := Locate(index);
    }

    method EraseOneFront(pos: Iter, next: Iter, index: nat)
      requires Valid() && Inside(b, pos) && Inside(b, next) && Rel(pos) == Rel(start) + index &&
        Rel(next) == Rel(pos) + 1
      requires index + 1 <= |Contents()|
      modifies this, nodes
      ensures Valid() && Leaked() == old(Leaked()) && Contents() == old(Without(index, 1))
      ensures slots == old(slots) && NodeSet(nodes) <= old(NodeSet(nodes)) && (old(OnlyInUse()) ==> OnlyInUse())
      ensures finish == old(finish)
    {
      SlotsApart();
      ghost var slots0, c := slots[..], Without(index, 1);
      hide MemOk, Mem, Pos, Rel, NodesOk, Without, ExactlyInUse, Live, Next;
      CloseFront(pos, next, index, 1);
      assert slots[..] == slots0;
      TailRead(c);
      PopFront();
    }

    method EraseOneBack(pos: Iter, next: Iter, index: nat)
      requires Valid() && Inside(b, pos) && Inside(b, next) && Rel(pos) == Rel(start) + index &&
        Rel(next) == Rel(pos) + 1
      requires index + 1 <= |Contents()|
      modifies this, nodes
      ensures Valid() && Leaked() == old(Leaked()) && Contents() == old(Without(index, 1))
      ensures slots == old(slots) && NodeSet(nodes) <= old(NodeSet(nodes)) && (old(OnlyInUse()) ==> OnlyInUse())
      ensures start == old(start)
    {
      SlotsApart();
      ghost var slots0, c := slots[..], Without(index, 1);
      hide MemOk, Mem, Pos, Rel, NodesOk, Without, ExactlyInUse, Live, Prev;
      CloseBack(pos, next, index, 1);
      assert slots[..] == slots0;
      InitRead(c);
      PopBack();
    }

    lemma TailRead(c: seq<T>)
      requires Spread() && 0 <= Rel(start) && Rel(start) + 1 <= Rel(finish) < |Mem()| &&
        Mem()[Rel(start) + 1..Rel(finish)] == c
      ensures Contents() != [] && Contents()[1..] == c
    {
      SplitAt(Mem(), Rel(start), Rel(finish), 1);
    }

    lemma InitRead(c: seq<T>)
      requires Spread() && 0 <= Rel(start) <= Rel(finish) - 1 && Rel(finish) < |Mem()| &&
        Mem()[Rel(start)..Rel(finish) - 1] == c
      ensures Contents() != [] && Contents()[..|Contents()| - 1] == c
    {
      SplitAt(Mem(), Rel(start), Rel(finish), Rel(finish) - 1 - Rel(start));
    }

    static lemma NodeSetParts(n: seq<array<T>>, lo: nat, hi: nat)
      requires lo <= hi <= |n|
      ensures NodeSet(n) == NodeSet(n[..lo]) + NodeSet(n[lo..hi]) + NodeSet(n[hi..])
    {
      assert n == n[..lo] + n[lo..hi] + n[hi..];
    }

    static lemma PartsApart(n: seq<array<T>>, lo: nat, hi: nat)
      requires lo <= hi <= |n| && forall i, j :: 0 <= i < j < |n| ==> n[i] != n[j]
      ensures NodeSet(n[lo..hi]) !! NodeSet(n[..lo]) && NodeSet(n[lo..hi]) !! NodeSet(n[hi..])
    {
      forall x | x in n[lo..hi]
        ensures x !in n[..lo] && x !in n[hi..]
      {
        var k :| 0 <= k < hi - lo && n[lo..hi][k] == x;
        assert n[lo + k] == x;
      }
    }

    /** The nodes behind the finish are let go of: the tail of `clear` and of `erase`. */
    method ReleaseBack(lastNode: int, ghost n: seq<array<T>>)
      requires Spread() && nodes == n && lastNode == base + |n| - 1
      modifies this`nodes, this`base, this`owned
      ensures Spread() && finish.node == base + |nodes| - 1 && base == old(base) && Contents() == old(Contents())
      ensures Leaked() == old(Leaked()) && NodeSet(nodes) <= old(NodeSet(nodes)) && (old(OnlyInUse()) ==> OnlyInUse())
    {
      hide MemOk, Mem, Pos, Rel, ExactlyInUse;
      ghost var k := finish.node - base + 1;
      InUseStart();
      ghost var own := owned;
      StartFirst();
      NodesDistinct();
      NodeSetParts(n, 0, k);
      PartsApart(n, 0, k);
      SlotsTail(k);
      if OnlyInUse() {
        TailInUse(slots[..], n, own, addr, base, k);
      }
      KeepNodes(0, k);
      DestroyNodes(finish.node + 1, lastNode + 1, n[k..]);
    }

    /** Giving back the last nodes of those in use keeps the class comment, and so does giving back the first. */
    static lemma TailInUse(s: seq<array?<T>>, n: seq<array<T>>, owned: set<array<T>>, addr: map<array<T>, nat>,
                           base: nat, k: nat)
      requires base + |n| <= |s| && s[base..base + |n|] == n && k <= |n| && forall i, j :: 0 <= i < j < |n| ==>
        n[i] != n[j]
      requires NodeSet(n) <= owned && Addressed(owned, addr) && ExactlyInUse(s, Live(owned, addr), addr, base, |n|)
      ensures ExactlyInUse(s, Live(owned - NodeSet(n[k..]), addr), addr, base, k)
    {
      PartsApart(n, 0, k);
      PartsApart(n, k, |n|);
      GoneInUse(s, n, owned, addr, base, 0, k, NodeSet(n[k..]));
    }

    static lemma HeadInUse(s: seq<array?<T>>, n: seq<array<T>>, owned: set<array<T>>, addr: map<array<T>, nat>,
                           base: nat)
      requires base + |n| <= |s| && s[base..base + |n|] == n && |n| > 0 && forall i, j :: 0 <= i < j < |n| ==>
        n[i] != n[j]
      requires NodeSet(n) <= owned && Addressed(owned, addr) && ExactlyInUse(s, Live(owned, addr), addr, base, |n|)
      ensures ExactlyInUse(s, Live(owned - {n[0]}, addr), addr, base + 1, |n| - 1)
    {
      GoneInUse(s, n, owned, addr, base, 1, |n|, {n[0]});
    }

    lemma LiveLess(own: set<array<T>>, gone: set<array<T>>)
      ensures Live(own - gone, addr) <= Live(own, addr)
    {
    }

    /** All nodes but those from `lo` to `hi` are given back. */
    static lemma GoneInUse(s: seq<array?<T>>, n: seq<array<T>>, owned: set<array<T>>, addr: map<array<T>, nat>,
                           base: nat,
                           lo: nat, hi: nat, gone: set<array<T>>)
      requires base + |n| <= |s| && s[base..base + |n|] == n && lo <= hi <= |n|
      requires forall i :: 0 <= i < |n| ==> (n[i] in gone <==> !(lo <= i < hi))
      requires NodeSet(n) <= owned && Addressed(owned, addr) && ExactlyInUse(s, Live(owned, addr), addr, base, |n|)
      ensures ExactlyInUse(s, Live(owned - gone, addr), addr, base + lo, hi - lo)
    {
      forall i | 0 <= i < |s|
        ensures PointsTo(s[i], Live(owned - gone, addr), addr) <==> base + lo <= i < base + hi
      {
        assert PointsTo(s[i], Live(owned, addr), addr) <==> base <= i < base + |n|;
        if base <= i < base + |n| {
          assert s[i] == s[base..base + |n|][i - base] == n[i - base];
          assert n[i - base] in NodeSet(n);
        }
      }
    }

    /** Nodes that are allocated but not in use break it. */
    static lemma FrontInUse(s: seq<array?<T>>, n: seq<array<T>>, owned: set<array<T>>, addr: map<array<T>, nat>,
                            base: nat, k: nat)
      requires base + |n| <= |s| && s[base..base + |n|] == n && k <= |n| && NodeSet(n) <= owned &&
        Addressed(owned, addr)
      requires ExactlyInUse(s, Live(owned, addr), addr, base, |n|)
      ensures ExactlyInUse(s, Live(owned, addr), addr, base + k, |n| - k) <==> k == 0
    {
      if k > 0 {
        assert s[base..base + |n|][0] == n[0] && n[0] in NodeSet(n);
        assert PointsTo(s[base], Live(owned, addr), addr);
      }
    }

    lemma SlotsTail(k: nat)
      requires Spread() && k <= |nodes|
      ensures base + |nodes| <= slots.Length && slots[base + k..base + |nodes|] == nodes[k..]
    {
      SlotsSlice(slots[..], nodes, base, k, |nodes|);
      assert nodes[k..|nodes|] == nodes[k..];
    }

    /** `clear`: the first node is kept. */
    method Clear()
      requires Valid()
      modifies this
      ensures Valid() && Contents() == [] && Leaked() == old(Leaked()) && start == old(start)
      ensures slots == old(slots) && NodeSet(nodes) <= old(NodeSet(nodes)) && (old(OnlyInUse()) ==> OnlyInUse())
    {
      hide MemOk, Mem, Pos, ExactlyInUse;
      RelBounds(start);
      var lastNode := finish.node;
      ghost var n := nodes;
      StartFirst();
      finish := start;
      ReleaseBack(lastNode, n);
    }

    /** The nodes that a range erase leaves behind the new start, when it moves the front. */
    ghost function PassedNodes(e: nat, n: nat): (passed: seq<array<T>>)
      requires Spread() && e + n <= |Contents()|
      reads this, slots, nodes
    {
      var k := Plus(b, start, n).node - start.node;
      if e < (|Contents()| - n) / 2 && 0 <= k <= |nodes| then nodes[..k] else []
    }

    /** The exact condition for a range erase to give every node back: it moves the back, or the
        start stays in its node. */
    lemma LeaksExactly(e: nat, n: nat)
      requires Valid() && e + n <= |Contents()|
      ensures PassedNodes(e, n) == [] <==> e >= (|Contents()| - n) / 2 || start.off + n < b
    {
      hide Mem;
      RelMoves(start, n);
      RelBounds(start);
      RelBounds(finish);
      RelNode(Plus(b, start, n));
      if start.off + n >= b {
        DivBounds(start.off + n, b);
        Times((start.off + n) / b, 0, b);
      }
    }

    /** `erase` of a range. When the front is the shorter part and the start leaves its node, the nodes
        that it leaves are not given back: the loop that should do so runs from the new start's node to
        the old one's, which comes before it. */
    method EraseRange(first: Iter, last: Iter) returns (result: Iter)
      requires Valid() && InNodes(first) && InNodes(last) && Rel(start) <= Rel(first) <= Rel(last) <= Rel(finish)
      modifies this, nodes
      ensures Valid() && Contents() == old(Without(Rel(first) - Rel(start), Rel(last) - Rel(first)))
      ensures InNodes(result) && Rel(result) - Rel(start) == old(Rel(first) - Rel(start))
      ensures Leaked() == old(Leaked()) + NodeSet(old(PassedNodes(Rel(first) - Rel(start), Rel(last) - Rel(first))))
      ensures slots == old(slots) && NodeSet(nodes) <= old(NodeSet(nodes))
      ensures old(OnlyInUse()) ==>
        (OnlyInUse() <==> old(PassedNodes(Rel(first) - Rel(start), Rel(last) - Rel(first))) == [])
      ensures if old(Rel(first) - Rel(start) < Rel(finish) - Rel(last) - 1) then finish == old(finish)
        else start == old(start)
    {
      hide MemOk, Mem, Pos, Rel, NodesOk, Without, PassedNodes, ExactlyInUse;
      RelMinus(last, first);
      RelMinus(first, start);
      RelMinus(finish, start);
      SamePlace(first, start);
      SamePlace(last, finish);
      var n := Minus(b, last, first);
      var elemsBefore := Minus(b, first, start);
      var size := Minus(b, finish, start);
      if first == start && last == finish {
        WithoutAll();
        NonePassed(elemsBefore, n);
        Clear();
        RelBounds(finish);
        return finish;
      }
      if elemsBefore < (size - n) / 2 {
        EraseFromFront(first, last, elemsBefore, n);
      } else {
        NonePassed(elemsBefore, n);
        EraseFromBack(first, last, elemsBefore, n);
      }
      result := Locate(elemsBefore);
    }

    lemma NonePassed(e: nat, n: nat)
      requires Spread() && e + n <= |Contents()| && e >= (|Contents()| - n) / 2
      ensures PassedNodes(e, n) == [] && NodeSet(PassedNodes(e, n)) == {}
    {
    }

    /** `start + index`. */
    method Locate(index: nat) returns (result: Iter)
      requires Spread() && index <= |Contents()|
      ensures InNodes(result) && Rel(result) - Rel(start) == index
    {
      hide MemOk, Mem, Pos, Rel;
      RelBounds(start);
      RelBounds(finish);
      RelMoves(start, index);
      result := Plus(b, start, index);
      RelNode(result);
    }

    lemma WithoutAll()
      requires Spread()
      ensures Without(0, |Contents()|) == []
    {
    }

    method EraseFromFront(first: Iter, last: Iter, e: nat, n: nat)
      requires Valid() && Inside(b, first) && Inside(b, last) && Rel(first) == Rel(start) + e &&
        Rel(last) == Rel(first) + n
      requires e + n <= |Contents()| && e < (|Contents()| - n) / 2
      modifies this, nodes
      ensures Valid() && Contents() == old(Without(e, n))
      ensures Leaked() == old(Leaked()) + NodeSet(old(PassedNodes(e, n)))
      ensures slots == old(slots) && NodeSet(nodes) <= old(NodeSet(nodes))
      ensures old(OnlyInUse()) ==> (OnlyInUse() <==> old(PassedNodes(e, n)) == [])
      ensures finish == old(finish)
    {
      hide MemOk, Mem, Pos, Rel, NodesOk, Without, ExactlyInUse;
      ghost var c := Without(e, n);
      SlotsApart();
      CloseFront(first, last, e, n);
      var newStart := Plus(b, start, n);
      LeaveFront(newStart, c, n);
    }

    /** The start moves on to another node, maybe; the loop that should give back those before it does nothing. */
    method LeaveFront(newStart: Iter, ghost c: seq<T>, ghost n: nat)
      requires Valid() && newStart == Plus(b, start, n) && 0 <= Rel(start) && Rel(start) + n <= Rel(finish) < |Mem()|
      requires Mem()[Rel(start) + n..Rel(finish)] == c
      modifies this
      ensures Valid() && Contents() == c && slots == old(slots) && NodeSet(nodes) <= old(NodeSet(nodes))
      ensures old(start).node <= newStart.node <= old(start).node + old(|nodes|)
      ensures Leaked() == old(Leaked()) + NodeSet(old(nodes)[..newStart.node - old(start).node])
      ensures old(OnlyInUse()) ==> (OnlyInUse() <==> newStart.node == old(start).node)
      ensures finish == old(finish)
    {
      hide MemOk, Mem, Pos, Rel, NodesOk, ExactlyInUse;
      NewStartNode(newStart, n);
      ghost var n0, own, k, s, from := nodes, owned, newStart.node - base, slots[..], base;
      if OnlyInUse() {
        InUseStart();
        FrontInUse(s, n0, own, addr, from, k);
      }
      DestroyNodes(newStart.node, start.node, []);
      start := newStart;
      NowRead(c);
      KeepNodes(k, |nodes|);
      LeakedFront(n0, own, k);
      NothingGone(own);
      assert |nodes| == |n0| - k && slots[..] == s;
    }

    static lemma NothingGone(own: set<array<T>>)
      ensures own - NodeSet([]) == own
    {
    }

    lemma NewStartNode(newStart: Iter, n: nat)
      requires Valid() && newStart == Plus(b, start, n) && 0 <= Rel(start) && Rel(start) + n <= Rel(finish) < |Mem()|
      ensures InNodes(newStart) && Rel(newStart) == Rel(start) + n && start.node <= newStart.node <= finish.node
      ensures base + |nodes| <= slots.Length && NodeSet(nodes) <= owned
      ensures forall i, j :: 0 <= i < j < |nodes| ==> nodes[i] != nodes[j]
    {
      hide MemOk, Mem, Pos, Rel;
      RelMoves(start, n);
      RelNode(newStart);
      NodesInOrder(start, newStart);
      NodesInOrder(newStart, finish);
      SlotCount();
      NodesDistinct();
    }

    lemma SlotCount()
      requires MemOk()
      ensures base + |nodes| <= slots.Length && NodeSet(nodes) <= owned
    {
    }

    lemma NodesInOrder(x: Iter, y: Iter)
      requires Inside(b, x) && Inside(b, y) && Rel(x) <= Rel(y)
      ensures x.node <= y.node
    {
      BeforePos(b, x, y);
    }

    lemma NowRead(c: seq<T>)
      requires Spread() && 0 <= Rel(start) && Rel(finish) < |Mem()| && Mem()[Rel(start)..Rel(finish)] == c
      ensures Contents() == c
    {
    }

    /** The elements of the nodes are not slots of the map. */
    lemma SlotsApart()
      requires MemOk()
      ensures forall i :: 0 <= i < |nodes| ==> (nodes[i] as object) != slots
    {
    }

    static lemma LeakedFront(n: seq<array<T>>, own: set<array<T>>, k: nat)
      requires k <= |n| && (forall i, j :: 0 <= i < j < |n| ==> n[i] != n[j]) && NodeSet(n) <= own
      ensures own - NodeSet(n[k..|n|]) == own - NodeSet(n) + NodeSet(n[..k])
      ensures NodeSet(n[k..|n|]) <= NodeSet(n)
    {
      NodeSetParts(n, k, |n|);
      PartsApart(n, k, |n|);
    }

    method EraseFromBack(first: Iter, last: Iter, e: nat, n: nat)
      requires Valid() && Inside(b, first) && Inside(b, last) && Rel(first) == Rel(start) + e &&
        Rel(last) == Rel(first) + n
      requires e + n <= |Contents()|
      modifies this, nodes
      ensures Valid() && Contents() == old(Without(e, n)) && Leaked() == old(Leaked())
      ensures slots == old(slots) && NodeSet(nodes) <= old(NodeSet(nodes)) && (old(OnlyInUse()) ==> OnlyInUse())
      ensures start == old(start)
    {
      hide MemOk, Mem, Pos, Rel, NodesOk, Without, ExactlyInUse;
      ghost var c := Without(e, n);
      SlotsApart();
      CloseBack(first, last, e, n);
      var newFinish := Subtract(b, finish, n);
      RelMoves(finish, n);
      RelNode(newFinish);
      var lastNode := finish.node;
      ghost var n0 := nodes;
      finish := newFinish;
      NowRead(c);
      ReleaseBack(lastNode, n0);
    }

    /** A slot that the pointers have left still points to a node in use. */
    static lemma LeftSlots(s: seq<array?<T>>, t: seq<array?<T>>, from: nat, to: nat, n: nat, i: nat)
      requires Recentred(s, t, from, to, n) && from <= i < from + n && !(to <= i < to + n)
      ensures |t| == |s| && to + n <= |t| && t[i] == s[i] && t[i] in t[to..to + n]
    {
      OverwrittenPart(s, to, s[from..from + n]);
      assert s[from..from + n][i - from] == s[i];
    }

    /** `_M_initialize_map` and `_M_fill_initialize`: `n` copies of a value. */
    constructor (bufferSize: nat, n: nat, value: T, ghost place: nat -> nat)
      requires bufferSize > 0 && Supplied(place, {})
      ensures Valid() && b == bufferSize && Contents() == Copies(n, value) && Leaked() == {} && OnlyInUse()
      ensures fresh(slots) && fresh(NodeSet(nodes))
      ensures start.off == 0 && |nodes| == n / bufferSize + 1
      ensures |nodes| <= slots.Length && base == NewStart(slots.Length, |nodes|, 0, false)
      ensures Centred(slots.Length, base, |nodes|, 0, false)
      ensures slots.Length == (if 8 < |nodes| + 2 then |nodes| + 2 else 8) && Live(owned, addr) == Used(place, |nodes|)
    {
      b := bufferSize;
      var numNodes := n / bufferSize + 1;
      var mapSize := if 8 < numNodes + 2 then numNodes + 2 else 8;
      slots := new array?<T>[mapSize](i => null);
      nodes, base, owned, addr := [], 0, {}, map[];
      new;
      hide *;
      InitializeMap(n, numNodes, value, place);
    }

    /** The empty map is given its nodes and iterators. */
    method InitializeMap(n: nat, numNodes: nat, value: T, ghost place: nat -> nat)
      requires b > 0 && numNodes == n / b + 1 && numNodes + 2 <= slots.Length && nodes == [] && owned == {} &&
        addr == map[] && Supplied(place, {})
      requires forall i :: 0 <= i < slots.Length ==> slots[i] == null
      modifies this`start, this`finish, this`base, this`nodes, this`owned, this`addr, slots
      ensures Valid() && Contents() == Copies(n, value) && Leaked() == {} && OnlyInUse()
      ensures fresh(NodeSet(nodes)) && start.off == 0 && |nodes| == numNodes &&
        base == NewStart(slots.Length, numNodes, 0, false)
      ensures Centred(slots.Length, base, numNodes, 0, false)
      ensures Live(owned, addr) == Used(place, numNodes)
    {
      hide MemOk, Mem, Rel, NodesOk, Overwritten, ExactlyInUse, Live, Supplied;
      var nstart := (slots.Length - numNodes) / 2;
      start, finish, base := Iter(nstart, 0), Iter(nstart + numNodes - 1, n % b), nstart;
      CreateNodes(nstart, nstart + numNodes, place);
      SlotsApart();
      ghost var slots1 := slots[..];
      FinishAt(n, nstart);
      FillInitialize(n, value);
      assert slots[..] == slots1;
    }

    /** `_M_fill_initialize`. */
    method FillInitialize(n: nat, value: T)
      requires MemOk() && |nodes| > 0 && b > 0 && start == Iter(base, 0) && Inside(b, finish) &&
        finish.node == base + |nodes| - 1
      requires Rel(start) == 0 && Rel(finish) == n
      modifies nodes
      ensures Valid() && Contents() == Copies(n, value)
    {
      hide MemOk, Mem, Rel, NodesOk, Overwritten, Pos, ExactlyInUse;
      RelBounds(start);
      RelBounds(finish);
      ghost var m := Mem();
      SameLength(m, 0, Copies(n, value));
      Fill(start, finish, value);
      FilledAll(m, n, value);
    }

    /** Nodes being created from slot `base` to before slot `at`. */
    ghost predicate Creating(at: nat)
      reads this, slots
    {
      b > 0 && base <= at <= slots.Length && |nodes| == at - base && slots[base..at] == nodes && NodesOk() &&
        NotNode(slots) &&
      NodeSet(nodes) == owned && Addressed(owned, addr) && forall i :: 0 <= i < slots.Length && !(base <= i < at) ==>
        slots[i] == null
    }

    lemma CreatingNone()
      requires b > 0 && nodes == [] && owned == {} && addr == map[] && base <= slots.Length
      requires forall i :: 0 <= i < slots.Length ==> slots[i] == null
      ensures Creating(base) && Live(owned, addr) == {}
    {
    }

    lemma Created(at: nat)
      requires Creating(at) && at > base
      ensures MemOk() && Leaked() == {} && base + |nodes| == at <= slots.Length && slots[..][base..at] == nodes
      ensures NodeSet(nodes) == owned && Addressed(owned, addr)
      ensures forall i :: 0 <= i < |slots[..]| && !(base <= i < at) ==> slots[..][i] == null
    {
    }

    method CreateNode(at: nat, ghost a: nat)
      requires Creating(at) && at < slots.Length && a !in Live(owned, addr)
      modifies this`nodes, this`owned, this`addr, slots
      ensures Creating(at + 1) && |nodes| == old(|nodes|) + 1 && nodes[..old(|nodes|)] == old(nodes) &&
        fresh(nodes[old(|nodes|)])
      ensures Live(owned, addr) == old(Live(owned, addr)) + {a}
    {
      hide Live, Addressed;
      var node := new T[b];
      slots[at] := node;
      ghost var n0 := nodes;
      nodes := nodes + [node];
      NodeSetSnoc(n0, node);
      AddressGiven(owned, addr, node, a);
      owned, addr := owned + {node}, addr[node := a];
      assert slots[base..at + 1] == nodes;
    }

    /** `_M_create_nodes`. */
    method CreateNodes(nstart: nat, nfinish: nat, ghost place: nat -> nat)
      requires b > 0 && nodes == [] && base == nstart < nfinish <= slots.Length && owned == {} && addr == map[] &&
        Supplied(place, {})
      requires forall i :: 0 <= i < slots.Length ==> slots[i] == null
      modifies this`nodes, this`owned, this`addr, slots
      ensures MemOk() && |nodes| == nfinish - nstart && Leaked() == {} && fresh(NodeSet(nodes)) && OnlyInUse()
      ensures forall i :: 0 <= i < |nodes| ==> fresh(nodes[i])
      ensures Live(owned, addr) == Used(place, |nodes|)
    {
      hide Used, Supplied, Creating, Live, Addressed, MemOk, NodesOk, NotNode, ExactlyInUse, PointsTo;
      SupplyStep(place, {}, 0);
      CreatingNone();
      var at := nstart;
      while at < nfinish
        invariant nstart <= at <= nfinish && Creating(at) && |nodes| == at - nstart
        invariant forall i :: 0 <= i < |nodes| ==> fresh(nodes[i])
        invariant Live(owned, addr) == Used(place, |nodes|)
      {
        SupplyStep(place, {}, at - nstart);
        CreateNode(at, place(at - nstart));
        at := at + 1;
      }
      Created(at);
      CreatedInUse(slots[..], nstart, nodes, owned, addr);
    }

    static lemma CreatedInUse(s: seq<array?<T>>, at: nat, nodes: seq<array<T>>, owned: set<array<T>>,
                              addr: map<array<T>, nat>)
      requires at + |nodes| <= |s| && s[at..at + |nodes|] == nodes && NodeSet(nodes) == owned && Addressed(owned, addr)
      requires forall i :: 0 <= i < |s| && !(at <= i < at + |nodes|) ==> s[i] == null
      ensures ExactlyInUse(s, Live(owned, addr), addr, at, |nodes|)
    {
      forall i | at <= i < at + |nodes|
        ensures PointsTo(s[i], Live(owned, addr), addr)
      {
        assert s[i] == nodes[i - at] && nodes[i - at] in NodeSet(nodes);
      }
    }

    lemma FinishAt(n: nat, nstart: nat)
      requires b > 0 && base == nstart && start == Iter(nstart, 0) && finish == Iter(nstart + n / b, n % b)
      ensures Rel(start) == 0 && Rel(finish) == n
    {
      Times(nstart, n / b, b);
      DivBounds(n, b);
      assert n == (n / b) * b + n % b;
    }

    lemma FilledAll(m: seq<T>, n: nat, value: T)
      requires Spread() && Rel(start) == 0 && Rel(finish) == n <= |m| && Mem() == Overwritten(m, 0, Copies(n, value))
      ensures Contents() == Copies(n, value)
    {
      RelBounds(finish);
    }

    lemma FirstPassed(n: nat)
      requires Valid() && start.off == 0 && b <= n && n + 2 <= |Contents()|
      ensures PassedNodes(0, n) != [] && NodeSet(PassedNodes(0, n)) != {}
    {
      LeaksExactly(0, n);
      assert PassedNodes(0, n)[0] in NodeSet(PassedNodes(0, n));
    }

    /** `erase(begin(), begin() + n)`. */
    method EraseFirst(n: nat)
      requires Valid() && 0 < n <= |Contents()|
      modifies this, nodes
      ensures Valid() && Contents() == old(Without(0, n)) && Leaked() == old(Leaked()) + NodeSet(old(PassedNodes(0, n)))
      ensures old(OnlyInUse()) ==> (OnlyInUse() <==> old(PassedNodes(0, n)) == [])
    {
      hide MemOk, Mem, Pos, Rel, NodesOk, Without, PassedNodes, ExactlyInUse;
      RelBounds(start);
      RelBounds(finish);
      ContentsSize();
      var last := Locate(n);
      var unused := EraseRange(start, last);
    }
  }

  /** Addresses that are not in use, the first of them any such address. */
  lemma Supply(live: set<nat>, a: nat) returns (place: nat -> nat)
    requires a !in live
    ensures Supplied(place, live) && place(0) == a
  {
    var m := Above(live + {a});
    place := (j: nat) => if j == 0 then a else m + j;
  }

  lemma {:induction false} Above(s: set<nat>) returns (m: nat)
    ensures forall x :: x in s ==> x < m
  {
    if s == {} {
      m := 0;
    } else {
      var x :| x in s;
      var k := Above(s - {x});
      m := if k > x then k else x + 1;
      assert forall y :: y in s ==> y == x || y in s - {x};
    }
  }

  /** A call that loses a node: of six elements in nodes of two, the first two are erased. */
  method LeakExample<T(0)>(v: T) returns (d: Deque<T>)
    ensures fresh(d) && d.Valid() && d.Leaked() != {} && !d.OnlyInUse()
  {
    hide *;
    ghost var place := Supply({}, 0);
    d := new Deque<T>(2, 6, v, place);
    d.FirstPassed(2);
    EachNode(d.nodes);
    d.EraseFirst(2);
  }

  /** An empty deque with nodes of one element, whose only node is in the slot `at` of eight. */
  ghost predicate OneNode<T(0)>(d: Deque<T>, at: nat)
    reads d, d.slots, d.nodes
  {
    d.Valid() && d.b == 1 && d.slots.Length == 8 && d.start == d.finish == Iter(at, 0) && d.Contents() == [] &&
      d.Leaked() == {}
  }

  /** An element pushed at the back and popped at the front moves the node on by one slot. */
  method MoveOn<T(0)>(d: Deque<T>, v: T, ghost at: nat)
    requires OneNode(d, at) && at < 7
    modifies d, d.slots, d.nodes
    ensures OneNode(d, at + 1) && d.slots == old(d.slots)
    ensures forall i :: 0 <= i < |d.nodes| ==> fresh(d.nodes[i]) || d.nodes[i] in old(d.nodes)
  {
    hide Deque.MemOk, Deque.OnlyInUse, Deque.StaysAtBack, Deque.Mem, Live, Supplied;
    ghost var a := Above(Live(d.owned, d.addr));
    ghost var place := Supply(Live(d.owned, d.addr), a);
    d.PushBack(v, place);
    d.PopFront();
    EachNode(d.nodes);
  }

  /** The class comment broken by pushes and pops: the node having come to the last slot, one more push finds no room
      behind it and moves its pointer to the middle of the map, where the old slot goes on pointing to it. */
  method RecentreExample<T(0)>(v: T) returns (d: Deque<T>)
    ensures fresh(d) && d.Valid() && !d.OnlyInUse() && d.Contents() == [v] && d.Leaked() == {}
  {
    hide OneNode, Deque.Valid, Deque.OnlyInUse, Deque.Leaked;
    d := AtStart(v);
    MoveOn(d, v, 3);
    MoveOn(d, v, 4);
    MoveOn(d, v, 5);
    MoveOn(d, v, 6);
    PushAtEnd(d, v);
  }

  method AtStart<T(0)>(v: T) returns (d: Deque<T>)
    ensures fresh(d) && fresh(d.slots) && (forall i :: 0 <= i < |d.nodes| ==> fresh(d.nodes[i])) && OneNode(d, 3)
  {
    hide Deque.MemOk, Deque.Mem, Deque.OnlyInUse, Live, Supplied;
    ghost var place := Supply({}, 0);
    d := new Deque<T>(1, 0, v, place);
    d.Ordered();
    d.ContentsSize();
    EachNode(d.nodes);
  }

  method PushAtEnd<T(0)>(d: Deque<T>, v: T)
    requires OneNode(d, 7)
    modifies d, d.slots, d.nodes
    ensures d.Valid() && !d.OnlyInUse() && d.Contents() == [v] && d.Leaked() == {}
  {
    hide Deque.MemOk, Deque.OnlyInUse, Deque.StaysAtBack, Deque.Mem, Live, Supplied;
    ghost var a := Above(Live(d.owned, d.addr));
    ghost var place := Supply(Live(d.owned, d.addr), a);
    d.PushBack(v, place);
  }

  /** And broken without any moving of pointers: a node is given back by a pop at the back, its slot keeping the
      pointer, and a push at the front is given a node at the same address. */
  method ReuseExample<T(0)>(v: T) returns (d: Deque<T>)
    ensures fresh(d) && d.Valid() && !d.OnlyInUse() && d.Contents() == [v] && d.Leaked() == {}
  {
    ghost var a;
    d, a := StaleSlot(v);
    ghost var place := Supply(Live(d.owned, d.addr), a);
    d.StaleReused(4, place);
    PushReusing(d, v, place);
  }

  /** An empty deque whose second slot holds the pointer to a node that has been given back. */
  method StaleSlot<T(0)>(v: T) returns (d: Deque<T>, ghost a: nat)
    ensures fresh(d) && fresh(d.slots) && (forall i :: 0 <= i < |d.nodes| ==> fresh(d.nodes[i])) && OneNode(d, 3)
    ensures a !in Live(d.owned, d.addr) && PointsTo(d.slots[4], {a}, d.addr)
  {
    hide Deque.Mem;
    ghost var place := Supply({}, 0);
    d := new Deque<T>(1, 1, v, place);
    d.SlotLive(1);
    d.PopBack();
    a := d.addr[d.slots[4]];
    EachNode(d.nodes);
  }

  method PushReusing<T(0)>(d: Deque<T>, v: T, ghost place: nat -> nat)
    requires OneNode(d, 3) && Supplied(place, Live(d.owned, d.addr)) && !d.StaysAtFront(1, place)
    modifies d, d.slots, d.nodes
    ensures d.Valid() && !d.OnlyInUse() && d.Contents() == [v] && d.Leaked() == {}
  {
    hide Deque.MemOk, Deque.OnlyInUse, Deque.StaysAtFront, Deque.Mem, Live, Supplied;
    d.PushFront(v, place);
  }

  lemma EachNode<T>(n: seq<array<T>>)
    ensures forall i :: 0 <= i < |n| ==> n[i] in NodeSet(n)
  {
  }
}
