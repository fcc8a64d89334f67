/** Ropes that share nodes, with reference counts, and appending in place. */
module RopeStore {
  import opened Options
  import opened RopeRep
  import opened RopeConcat
  import opened RopeOps
  import opened RopeCells

  /** `_S_rounded_up_size`; texts of basic characters are terminated. */
  function RoundedUpSize(n: nat, basic: bool): nat {
    ((if basic then n + 1 else n) + 7) / 8 * 8
  }

  /** `_S_allocated_capacity`. */
  function AllocatedCapacity(n: nat, basic: bool): nat {
    if basic then RoundedUpSize(n, basic) - 1 else RoundedUpSize(n, basic)
  }

  /** No leaf has grown out of the memory that was obtained for it. */
  ghost predicate NotOutgrown<C>(was: map<nat, Rep<C>>, now: map<nat, Rep<C>>, basic: bool) {
    forall x :: x in was && x in now && was[x].Leaf? ==>
      now[x].Leaf? && RoundedUpSize(|now[x].data|, basic) == RoundedUpSize(|was[x].data|, basic)
  }

  lemma KeysBelow<C>(cells: map<nat, Cell<C>>, handles: map<nat, Option<nat>>, reps: map<nat, Rep<C>>,
                     owed: multiset<nat>, next: nat)
    requires Sound(cells, handles, reps, owed, next)
    ensures forall x :: x in reps ==> x < next
  {
  }

  /** A leaf that grows within its capacity keeps it. */
  lemma CapacityKept(was: nat, size: nat, basic: bool)
    requires was <= size <= AllocatedCapacity(was, basic)
    ensures RoundedUpSize(size, basic) == RoundedUpSize(was, basic)
    ensures var needed := if basic then size + 1 else size;
            needed <= RoundedUpSize(was, basic) < needed + 8 && RoundedUpSize(was, basic) % 8 == 0
  {
  }

  function CellSize<C>(c: Cell<C>): nat {
    match c
    case LeafCell(_, d) => |d|
    case FunctionCell(_, t) => |t|
    case SubstringCell(_, _, _, n) => n
    case ConcatCell(_, _, _, n, _, _) => n
  }

  function CellDepth<C>(c: Cell<C>): nat {
    if c.ConcatCell? then c.depth else 0
  }

  /** Of the addresses handed out before, those still in use mean what they meant, but for those of `but`. */
  ghost predicate Evolved<C>(reps: map<nat, Rep<C>>, next: nat, now: map<nat, Rep<C>>, nowNext: nat, but: set<nat>) {
    next <= nowNext && forall y :: y in now && y < next && y !in but ==> y in reps && now[y] == reps[y]
  }

  /** Nothing is gone and nothing has changed. */
  ghost predicate Kept<C>(reps: map<nat, Rep<C>>, now: map<nat, Rep<C>>) {
    forall y :: y in reps ==> y in now && now[y] == reps[y]
  }

  lemma EvolvedRefl<C>(a: map<nat, Rep<C>>, i: nat)
    ensures Evolved(a, i, a, i, {})
  {
  }

  lemma EvolvedTrans<C>(a: map<nat, Rep<C>>, i: nat, b: map<nat, Rep<C>>, j: nat, c: map<nat, Rep<C>>, k: nat,
                        but: set<nat>)
    requires Evolved(a, i, b, j, but) && Evolved(b, j, c, k, {})
    ensures Evolved(a, i, c, k, but)
  {
  }

  class RopeStore<C> {
    const basic: bool
    var cells: map<nat, Cell<C>>
    var handles: map<nat, Option<nat>>
    var next: nat
    ghost var reps: map<nat, Rep<C>>

    ghost predicate Owing(owed: multiset<nat>)
      reads this
    {
      Sound(cells, handles, reps, owed, next)
    }

    lemma There(owed: multiset<nat>, x: nat)
      requires Owing(owed) && x in cells
      ensures x in reps && FitsAt(cells[x], reps, reps[x]) && RopeRep.Valid(reps[x]) && x < next && cells[x].refs > 0
    {
      hide Owners, Closed, FitsAt, RopeRep.Valid;
    }

    lemma SizesAre(x: nat)
      requires x in reps && x in cells && FitsAt(cells[x], reps, reps[x])
      ensures CellSize(cells[x]) == Size(reps[x]) && CellDepth(cells[x]) == Depth(reps[x])
    {
    }

    lemma Owed(owed: multiset<nat>, x: nat)
      requires Owing(owed) && owed[x] > 0
      ensures x in cells
    {
      assert x in owed;
    }

    lemma Child(owed: multiset<nat>, x: nat, k: nat)
      requires Owing(owed) && x in cells && k in Kids(cells[x])
      ensures x in reps && k in reps && k in cells && reps[k] < reps[x] && k != x && k < next
    {
      hide Counted, Closed, AllValid, FitsAt, Kids;
      ChildLess(cells, reps, x, k);
    }

    lemma Positive(owed: multiset<nat>, x: nat)
      requires Owing(owed) && x in cells
      ensures cells[x].refs > 0 && x in reps && x < next
    {
    }

    lemma Unused(owed: multiset<nat>)
      requires Owing(owed)
      ensures next !in cells && next !in reps
    {
    }

    /** A new node with the count one, which takes over the references owed to its children. */
    method AddCell(c: Cell<C>, ghost t: Rep<C>, ghost owed: multiset<nat>) returns (x: nat)
      requires Owing(owed) && c.refs == 1 && FitsAt(c, reps, t) && RopeRep.Valid(t) && multiset(Kids(c)) <= owed
      modifies this
      ensures Owing(owed - multiset(Kids(c)) + multiset{x}) && x == old(next) && handles == old(handles)
      ensures cells == old(cells)[x := c] && reps == old(reps)[x := t] && next == x + 1
      ensures x !in old(reps) && Kept(old(reps), reps) && Evolved(old(reps), old(next), reps, next, {})
    {
      hide Sound, FitsAt, RopeRep.Valid, Kids;
      Unused(owed);
      AddSound(cells, handles, reps, owed, next, c, t);
      x := next;
      cells, next := cells[next := c], next + 1;
      reps := reps[x := t];
    }

    method NewLeaf(d: seq<C>, ghost owed: multiset<nat>) returns (x: nat)
      requires Owing(owed) && d != []
      modifies this
      ensures Owing(owed + multiset{x}) && handles == old(handles) && x == old(next)
      ensures reps == old(reps)[x := Leaf(d)] && next == x + 1 && cells == old(cells)[x := LeafCell(1, d)]
      ensures x !in old(reps) && Kept(old(reps), reps) && Evolved(old(reps), old(next), reps, next, {})
    {
      hide Sound, Evolved, Kept;
      x := AddCell(LeafCell(1, d), Leaf(d), owed);
      assert owed - multiset([]) == owed;
    }

    /** `_M_ref_nonnil`. */
    method Ref(x: nat, ghost owed: multiset<nat>)
      requires Owing(owed) && x in cells
      modifies this`cells
      ensures Owing(owed + multiset{x}) && cells.Keys == old(cells.Keys)
    {
      RefSound(cells, handles, reps, owed, next, x);
      cells := cells[x := WithRefs(cells[x], cells[x].refs + 1)];
    }

    /** `_M_unref_nonnil` and `_M_free_tree`. */
    method Unref(x: nat, ghost owed: multiset<nat>)
      requires Owing(owed) && owed[x] > 0 && x in reps
      modifies this
      ensures Owing(owed - multiset{x}) && handles == old(handles) && next == old(next)
      ensures Evolved(old(reps), old(next), reps, next, {})
      decreases reps[x], 1
    {
      hide Sound, FitsAt, RopeRep.Valid, WithRefs, Kids;
      Owed(owed, x);
      Positive(owed, x);
      var c := cells[x];
      if c.refs > 1 {
        UnrefSound(cells, handles, reps, owed, next, x);
        cells := cells[x := WithRefs(c, c.refs - 1)];
      } else {
        KidsAre(c);
        if c.SubstringCell? {
          Child(owed, x, c.base);
        } else if c.ConcatCell? {
          Child(owed, x, c.left);
          Child(owed, x, c.right);
        }
        RemoveSound(cells, handles, reps, owed, next, x);
        ghost var rest, t := owed - multiset{x}, reps[x];
        cells, reps := cells - {x}, reps - {x};
        if c.SubstringCell? {
          assert rest + multiset{c.base} - multiset{c.base} == rest;
          Unref(c.base, rest + multiset{c.base});
        } else if c.ConcatCell? {
          UnrefBoth(c.left, c.right, rest, t);
        } else {
          assert rest + multiset{} == rest;
        }
      }
    }

    /** The destructor of a concatenation node. */
    method UnrefBoth(left: nat, right: nat, ghost rest: multiset<nat>, ghost t: Rep<C>)
      requires Owing(rest + multiset{left, right}) && left in reps && right in reps && reps[left] < t && reps[right] < t
      modifies this
      ensures Owing(rest) && handles == old(handles) && next == old(next)
      ensures Evolved(old(reps), old(next), reps, next, {})
      decreases t, 0
    {
      hide Sound, RopeRep.Valid;
      ghost var all := rest + multiset{left, right};
      assert all - multiset{left} == rest + multiset{right} && rest + multiset{right} - multiset{right} == rest;
      Owed(all, right);
      Positive(all, right);
      Unref(left, all);
      Owed(rest + multiset{right}, right);
      Positive(rest + multiset{right}, right);
      Unref(right, rest + multiset{right});
    }

    /** The tree a node is the root of, read from the nodes. */
    method ReadTree(x: nat, ghost owed: multiset<nat>) returns (t: Rep<C>)
      requires Owing(owed) && x in cells && x in reps
      ensures t == reps[x]
      decreases reps[x]
    {
      hide Sound, RopeRep.Valid, Kids;
      There(owed, x);
      KidsAre(cells[x]);
      match cells[x]
      case LeafCell(_, d) => t := Leaf(d);
      case FunctionCell(_, f) => t := Function(f);
      case SubstringCell(_, b, s, n) =>
        Child(owed, x, b);
        var u := ReadTree(b, owed);
        t := Substring(u, s, n);
      case ConcatCell(_, l, r, n, d, bal) =>
        Child(owed, x, l);
        Child(owed, x, r);
        var u := ReadTree(l, owed);
        var v := ReadTree(r, owed);
        t := Concat(u, v, n, d, bal);
    }

    /** A new node over children that are there. */
    method AddSubstring(b: nat, t: Rep<C>, ghost owed: multiset<nat>) returns (x: nat)
      requires Owing(owed + multiset{b}) && RopeRep.Valid(t) && t.Substring? && b in reps && reps[b] == t.base
      modifies this
      ensures Owing(owed + multiset{x}) && handles == old(handles) && x in reps && reps[x] == t && x !in old(reps)
      ensures Kept(old(reps), reps) && Evolved(old(reps), old(next), reps, next, {})
    {
      hide Sound, RopeRep.Valid, Kids, Kept, Evolved;
      var c: Cell<C> := SubstringCell(1, b, t.start, t.length);
      KidsAre(c);
      x := AddCell(c, t, owed + multiset{b});
      assert owed + multiset{b} - multiset{b} == owed;
    }

    method AddConcat(l: nat, r: nat, t: Rep<C>, ghost owed: multiset<nat>) returns (x: nat)
      requires Owing(owed + multiset{l} + multiset{r}) && RopeRep.Valid(t) && t.Concat?
      requires l in reps && r in reps && reps[l] == t.left && reps[r] == t.right
      modifies this
      ensures Owing(owed + multiset{x}) && handles == old(handles) && x in reps && reps[x] == t && x !in old(reps)
      ensures Kept(old(reps), reps) && Evolved(old(reps), old(next), reps, next, {})
    {
      hide Sound, RopeRep.Valid, Kids, Kept, Evolved;
      var c: Cell<C> := ConcatCell(1, l, r, t.size, t.depth, t.balanced);
      KidsAre(c);
      x := AddCell(c, t, owed + multiset{l} + multiset{r});
      assert owed + multiset{l} + multiset{r} - multiset{l, r} == owed;
    }

    /** New nodes for a tree. */
    method Build(t: Rep<C>, ghost owed: multiset<nat>) returns (x: nat)
      requires Owing(owed) && RopeRep.Valid(t)
      modifies this
      ensures Owing(owed + multiset{x}) && handles == old(handles) && x in reps && reps[x] == t && x !in old(reps)
      ensures Kept(old(reps), reps) && Evolved(old(reps), old(next), reps, next, {})
      decreases t
    {
      hide Sound, RopeRep.Valid, Kids, FitsAt;
      PartsValid(t);
      match t
      case Leaf(d) =>
        LeafFits(t, reps);
        KidsAre<C>(LeafCell(1, d));
        x := AddCell(LeafCell(1, d), t, owed);
        assert owed - multiset{} == owed;
      case Function(f) =>
        LeafFits(t, reps);
        KidsAre<C>(FunctionCell(1, f));
        x := AddCell(FunctionCell(1, f), t, owed);
        assert owed - multiset{} == owed;
      case Substring(u, _, _) =>
        var b := Build(u, owed);
        x := AddSubstring(b, t, owed);
      case Concat(u, v, _, _, _) =>
        var l := Build(u, owed);
        var r := Build(v, owed + multiset{l});
        x := AddConcat(l, r, t, owed);
    }

    /** The new concatenation node, which takes over the references owed to both nodes. */
    method NewConcat(left: nat, right: nat, ghost owed: multiset<nat>) returns (x: nat)
      requires Owing(owed + multiset{left} + multiset{right}) && left in reps && right in reps && left in cells &&
        right in cells
      modifies this
      ensures Owing(owed + multiset{x}) && handles == old(handles)
      ensures x in reps && reps[x] == Node(old(reps[left]), old(reps[right])) && RopeRep.Valid(reps[x])
      ensures x in cells && CellSize(cells[x]) == Size(reps[x]) && CellDepth(cells[x]) == Depth(reps[x])
      ensures Evolved(old(reps), old(next), reps, next, {})
    {
      hide Sound, RopeRep.Valid, Kids, Evolved, Kept;
      ghost var all := owed + multiset{left} + multiset{right};
      There(all, left);
      There(all, right);
      SizesAre(left);
      SizesAre(right);
      NodeValid(reps[left], reps[right]);
      var c: Cell<C> := ConcatCell(1, left, right, CellSize(cells[left]) + CellSize(cells[right]),
                                   Max(CellDepth(cells[left]), CellDepth(cells[right])) + 1, false);
      KidsAre(c);
      assert all - multiset{left, right} == owed;
      x := AddCell(c, Node(reps[left], reps[right]), all);
    }

    /** `_S_tree_concat`: takes over the references owed to both nodes. */
    method TreeConcat(left: nat, right: nat, ghost owed: multiset<nat>) returns (res: nat)
      requires Owing(owed + multiset{left} + multiset{right}) && left in reps && right in reps
      requires Ok(reps[left]) && Ok(reps[right]) && Size(reps[left]) + Size(reps[right]) <= MAX_SIZE
      modifies this
      ensures Owing(owed + multiset{res}) && handles == old(handles)
      ensures Evolved(old(reps), old(next), reps, next, {})
      ensures res in reps && TreeConcatenated(old(reps[left]), old(reps[right]), reps[res]) && ShortIsShallow(reps[res])
    {
      hide Sound, RopeRep.Valid, Kids, Rebalanced, ShortIsShallow;
      Owed(owed + multiset{left} + multiset{right}, left);
      Owed(owed + multiset{left} + multiset{right}, right);
      res := NewConcat(left, right, owed);
      if CellDepth(cells[res]) > 20 && (CellSize(cells[res]) < 1000 || CellDepth(cells[res]) > MAX_ROPE_DEPTH) {
        res := Rebalance(res, owed);
      }
      TreeConcatenatedFacts(old(reps[left]), old(reps[right]), reps[res]);
    }

    /** The rebalanced tree in the place of the new node. */
    method Rebalance(x: nat, ghost owed: multiset<nat>) returns (res: nat)
      requires Owing(owed + multiset{x}) && x in reps && RopeRep.Valid(reps[x]) && Size(reps[x]) <= MAX_SIZE
      modifies this
      ensures Owing(owed + multiset{res}) && handles == old(handles)
      ensures Evolved(old(reps), old(next), reps, next, {})
      ensures res in reps && Rebalanced(old(reps[x]), reps[res])
    {
      hide Sound, RopeRep.Valid, Rebalanced;
      Owed(owed + multiset{x}, x);
      var t := ReadTree(x, owed + multiset{x});
      var b := Balance(t);
      RebalancedValid(t, b);
      res := Build(b, owed + multiset{x});
      Owed(owed + multiset{x} + multiset{res}, x);
      There(owed + multiset{x} + multiset{res}, x);
      Unref(x, owed + multiset{x} + multiset{res});
      assert owed + multiset{x} + multiset{res} - multiset{x} == owed + multiset{res};
      Owed(owed + multiset{res}, res);
      There(owed + multiset{res}, res);
    }

    // ---------- appending characters ----------

    /** `_S_concat_char_iter`, of a rope that is not null. */
    method ConcatCharIter(r: nat, s: seq<C>, ghost owed: multiset<nat>) returns (res: nat)
      requires Owing(owed) && r in cells && r in reps && Ok(reps[r]) && Size(reps[r]) + |s| <= MAX_SIZE
      modifies this
      ensures Owing(owed + multiset{res}) && handles == old(handles) && Evolved(old(reps), old(next), reps, next, {})
      ensures res in reps && Ok(reps[res]) && Text(reps[res]) == Text(old(reps[r])) + s
      ensures if s == [] then res == r else Concatenated(old(reps[r]), Leaf(s), reps[res]) && ShortIsShallow(reps[res])
    {
      hide Sound, RopeRep.Valid, Kids, Kept, MinLen, TreeConcatenated;
      There(owed, r);
      var c := cells[r];
      if s == [] {
        Ref(r, owed);
        assert Text(reps[r]) + s == Text(reps[r]);
        return r;
      }
      if c.LeafCell? && |c.data| + |s| <= COPY_MAX {
        res := NewLeaf(c.data + s, owed);
        LeafValid(c.data + s);
        return;
      }
      if c.ConcatCell? {
        KidsAre(c);
        Child(owed, r, c.right);
        There(owed, c.right);
        if cells[c.right].LeafCell? && |cells[c.right].data| + |s| <= COPY_MAX {
          res := ConcatRight(r, s, owed);
          return;
        }
      }
      res := ConcatNode(r, s, owed);
    }

    /** A copied and extended right leaf beside the left child. */
    method ConcatRight(r: nat, s: seq<C>, ghost owed: multiset<nat>) returns (res: nat)
      requires Owing(owed) && r in cells && r in reps && Ok(reps[r]) && Size(reps[r]) + |s| <= MAX_SIZE && s != []
      requires cells[r].ConcatCell? && cells[r].right in cells && cells[cells[r].right].LeafCell?
      modifies this
      ensures Owing(owed + multiset{res}) && handles == old(handles) && Evolved(old(reps), old(next), reps, next, {})
      ensures res in reps && Ok(reps[res]) && Text(reps[res]) == Text(old(reps[r])) + s && ShortIsShallow(reps[res])
      ensures old(reps[r]).Concat? && old(reps[r]).right.Leaf?
      ensures TreeConcatenated(old(reps[r]).left, Leaf(old(reps[r]).right.data + s), reps[res])
    {
      hide Sound, RopeRep.Valid, Kids, MinLen, TreeConcatenated, Ok, Evolved, ShortIsShallow;
      var c := cells[r];
      There(owed, r);
      There(owed, c.right);
      KidsAre(c);
      Child(owed, r, c.left);
      var d := cells[c.right].data + s;
      ghost var t := reps[r];
      RightParts(t, s);
      var n := NewLeaf(d, owed);
      Owed(owed + multiset{n}, n);
      StillThere(owed + multiset{n}, c.left);
      Ref(c.left, owed + multiset{n});
      assert owed + multiset{n} + multiset{c.left} == owed + multiset{c.left} + multiset{n};
      ghost var mid, midNext := reps, next;
      res := TreeConcat(c.left, n, owed);
      EvolvedTrans(old(reps), old(next), mid, midNext, reps, next, {});
      RightText(t, s, reps[res]);
    }

    lemma StillThere(owed: multiset<nat>, x: nat)
      requires Owing(owed) && x in reps
      ensures x in cells
    {
    }

    /** A new leaf beside the rope. */
    method ConcatNode(r: nat, s: seq<C>, ghost owed: multiset<nat>) returns (res: nat)
      requires Owing(owed) && r in cells && r in reps && Ok(reps[r]) && Size(reps[r]) + |s| <= MAX_SIZE && s != []
      modifies this
      ensures Owing(owed + multiset{res}) && handles == old(handles) && Evolved(old(reps), old(next), reps, next, {})
      ensures res in reps && Ok(reps[res]) && Text(reps[res]) == Text(old(reps[r])) + s && ShortIsShallow(reps[res])
      ensures TreeConcatenated(old(reps[r]), Leaf(s), reps[res])
    {
      hide Sound, RopeRep.Valid, Kids, MinLen, TreeConcatenated, Ok, Evolved, ShortIsShallow;
      ghost var t := reps[r];
      LeafOk(s);
      var n := NewLeaf(s, owed);
      StillThere(owed + multiset{n}, r);
      Ref(r, owed + multiset{n});
      assert owed + multiset{n} + multiset{r} == owed + multiset{r} + multiset{n};
      ghost var mid, midNext := reps, next;
      res := TreeConcat(r, n, owed);
      EvolvedTrans(old(reps), old(next), mid, midNext, reps, next, {});
      TreeConcatenatedFacts(t, Leaf(s), reps[res]);
    }

    // ---------- appending in place ----------

    /** No other rope points to a node of `but`: what they point to has not changed. */
    lemma Others(owed: multiset<nat>, rest: multiset<nat>, h: nat, was: map<nat, Rep<C>>, wasCells: map<nat, Cell<C>>,
                 wasNext: nat, but: set<nat>)
      requires Sound(wasCells, handles, was, owed, wasNext) && Owing(rest) && Evolved(was, wasNext, reps, next, but)
      requires forall g :: g in handles && g != h && handles[g].Some? ==> handles[g].value !in but
      requires forall x :: x in but && x in was && was[x].Leaf? && x in reps ==>
        reps[x].Leaf? && |was[x].data| <= |reps[x].data| <= AllocatedCapacity(|was[x].data|, basic)
      ensures OthersKept(handles, h, was, reps) && NotOutgrown(was, reps, basic)
    {
      StaysOthers(owed, rest, h, was, wasCells, wasNext, but);
      KeysBelow(wasCells, handles, was, owed, wasNext);
      hide *;
      Within(was, wasNext, but);
    }

    lemma StaysOthers(owed: multiset<nat>, rest: multiset<nat>, h: nat, was: map<nat, Rep<C>>,
                      wasCells: map<nat, Cell<C>>, wasNext: nat, but: set<nat>)
      requires Sound(wasCells, handles, was, owed, wasNext) && Owing(rest) && Evolved(was, wasNext, reps, next, but)
      requires forall g :: g in handles && g != h && handles[g].Some? ==> handles[g].value !in but
      ensures OthersKept(handles, h, was, reps)
    {
    }

    lemma Within(was: map<nat, Rep<C>>, wasNext: nat, but: set<nat>)
      requires Evolved(was, wasNext, reps, next, but) && forall x :: x in was ==> x < wasNext
      requires forall x :: x in but && x in was && was[x].Leaf? && x in reps ==>
        reps[x].Leaf? && |was[x].data| <= |reps[x].data| <= AllocatedCapacity(|was[x].data|, basic)
      ensures NotOutgrown(was, reps, basic)
    {
      hide RoundedUpSize, AllocatedCapacity;
      forall x | x in was && x in reps && was[x].Leaf?
        ensures reps[x].Leaf? && RoundedUpSize(|reps[x].data|, basic) == RoundedUpSize(|was[x].data|, basic)
      {
        if x in but {
          CapacityKept(|was[x].data|, |reps[x].data|, basic);
        }
      }
    }

    /** `_S_destr_leaf_concat_char_iter` on the leaf that is the rope: in place if nothing else refers to it and it
        fits. */
    method GrowLeaf(h: nat, r: nat, s: seq<C>) returns (res: nat)
      requires Owing(multiset{}) && h in handles && handles[h] == Some(r) && r in cells && r in reps
      requires cells[r].refs == 1 && cells[r].LeafCell? && s != [] && Ok(reps[r])
      modifies this
      ensures Owing(multiset{res}) && handles == old(handles) && OthersKept(handles, h, old(reps), reps)
      ensures NotOutgrown(old(reps), reps, basic)
      ensures res in reps && old(reps[r]).Leaf? && reps[res] == Leaf(old(reps[r]).data + s)
      ensures res in reps && Ok(reps[res]) && Text(reps[res]) == Text(old(reps[r])) + s
    {
      hide Sound, RopeRep.Valid, Kids, MinLen, Kept, OthersKept, NotOutgrown, RoundedUpSize;
      There(multiset{}, r);
      var data := cells[r].data;
      LeafOk(data + s);
      ghost var was, wasCells, wasNext := reps, cells, next;
      if AllocatedCapacity(|data|, basic) >= |data| + |s| {
        RootAlone(cells, handles, reps, multiset{}, next, h, r);
        LeafGrown(cells, handles, reps, multiset{}, next, h, r, data + s);
        assert multiset{} + multiset{r} == multiset{r};
        cells := cells[r := LeafCell(2, data + s)];
        reps := reps[r := Leaf(data + s)];
        res := r;
        Others(multiset{}, multiset{r}, h, was, wasCells, wasNext, {r});
      } else {
        res := NewLeaf(data + s, multiset{});
        assert multiset{} + multiset{res} == multiset{res};
        Others(multiset{}, multiset{res}, h, was, wasCells, wasNext, {});
      }
    }

    /** The right leaf of the rope's node grows, in place if nothing else refers to it and it fits. */
    method GrowRight(h: nat, r: nat, s: seq<C>) returns (res: nat)
      requires Owing(multiset{}) && h in handles && handles[h] == Some(r) && r in cells && r in reps
      requires cells[r].refs == 1 && cells[r].ConcatCell? && cells[r].right in cells && cells[cells[r].right].LeafCell?
      requires s != [] && Ok(reps[r])
      modifies this
      ensures Owing(multiset{res}) && handles == old(handles) && OthersKept(handles, h, old(reps), reps)
      ensures NotOutgrown(old(reps), reps, basic)
      ensures res in reps && old(reps[r]).Concat? && old(reps[r]).right.Leaf? && reps[res] == Grown(old(reps[r]), s)
      ensures res in reps && Ok(reps[res]) && Text(reps[res]) == Text(old(reps[r])) + s
    {
      hide Sound, RopeRep.Valid, Kids, MinLen, Kept, OthersKept, NotOutgrown, RoundedUpSize, Text;
      var c := cells[r];
      There(multiset{}, r);
      There(multiset{}, c.right);
      GrownRight(reps[r], s);
      var leaf := cells[c.right];
      if leaf.refs == 1 && AllocatedCapacity(|leaf.data|, basic) >= |leaf.data| + |s| {
        GrowRightInPlace(h, r, s);
      } else {
        NewRight(h, r, s);
      }
      res := r;
    }

    method GrowRightInPlace(h: nat, r: nat, s: seq<C>)
      requires Owing(multiset{}) && h in handles && handles[h] == Some(r) && r in cells && r in reps
      requires cells[r].refs == 1 && cells[r].ConcatCell? && cells[r].right in cells
      requires cells[cells[r].right].LeafCell? && cells[cells[r].right].refs == 1 && s != [] && reps[r].Concat? &&
        reps[r].right.Leaf?
      requires RopeRep.Valid(Grown(reps[r], s)) &&
        AllocatedCapacity(|cells[cells[r].right].data|, basic) >= |cells[cells[r].right].data| + |s|
      modifies this
      ensures Owing(multiset{r}) && handles == old(handles) && OthersKept(handles, h, old(reps), reps)
      ensures NotOutgrown(old(reps), reps, basic)
      ensures r in reps && reps[r] == Grown(old(reps[r]), s)
    {
      hide Sound, RopeRep.Valid, Kids, OthersKept, NotOutgrown, RoundedUpSize;
      var c := cells[r];
      There(multiset{}, r);
      There(multiset{}, c.right);
      var d := cells[c.right].data + s;
      var now: Cell<C> := ConcatCell(2, c.left, c.right, c.size + |s|, c.depth, c.balanced);
      ghost var t := Grown(reps[r], s);
      RootAlone(cells, handles, reps, multiset{}, next, h, r);
      RightAlone(cells, handles, reps, multiset{}, next, r, c.right);
      RightGrown(cells, handles, reps, multiset{}, next, h, r, c.right, d, now, t);
      assert multiset{} + multiset{r} == multiset{r};
      ghost var was, wasCells, wasNext := reps, cells, next;
      cells := cells[c.right := LeafCell(1, d)][r := now];
      reps := reps[c.right := Leaf(d)][r := t];
      Others(multiset{}, multiset{r}, h, was, wasCells, wasNext, {r, c.right});
    }

    method NewRight(h: nat, r: nat, s: seq<C>)
      requires Owing(multiset{}) && h in handles && handles[h] == Some(r) && r in cells && r in reps
      requires cells[r].refs == 1 && cells[r].ConcatCell? && cells[r].right in cells
      requires cells[cells[r].right].LeafCell? && s != [] && reps[r].Concat? && reps[r].right.Leaf? &&
        RopeRep.Valid(Grown(reps[r], s))
      modifies this
      ensures Owing(multiset{r}) && handles == old(handles) && OthersKept(handles, h, old(reps), reps)
      ensures NotOutgrown(old(reps), reps, basic)
      ensures r in reps && reps[r] == Grown(old(reps[r]), s)
    {
      hide Sound, RopeRep.Valid, Kids, OthersKept, NotOutgrown, RoundedUpSize;
      var c := cells[r];
      There(multiset{}, r);
      There(multiset{}, c.right);
      ghost var was, wasCells, wasNext, t := reps, cells, next, Grown(reps[r], s);
      RootAlone(cells, handles, reps, multiset{}, next, h, r);
      var n := NewLeaf(cells[c.right].data + s, multiset{});
      var now: Cell<C> := ConcatCell(2, c.left, n, c.size + |s|, c.depth, c.balanced);
      RightReplaced(cells, handles, reps, multiset{} + multiset{n}, next, h, r, n, now, t);
      assert multiset{} + multiset{n} - multiset{n} + multiset{c.right} + multiset{r} == multiset{c.right, r};
      cells := cells[r := now];
      reps := reps[r := t];
      Unref(c.right, multiset{c.right, r});
      assert multiset{c.right, r} - multiset{c.right} == multiset{r};
      Owed(multiset{r}, r);
      There(multiset{r}, r);
      Others(multiset{}, multiset{r}, h, was, wasCells, wasNext, {r});
    }

    /** `_S_destr_concat_char_iter`, of a rope that is not null. */
    method DestrConcatCharIter(h: nat, r: nat, s: seq<C>) returns (res: nat)
      requires Owing(multiset{}) && h in handles && handles[h] == Some(r) && r in cells && r in reps
      requires Ok(reps[r]) && Size(reps[r]) + |s| <= MAX_SIZE
      modifies this
      ensures Owing(multiset{res}) && handles == old(handles) && OthersKept(handles, h, old(reps), reps)
      ensures NotOutgrown(old(reps), reps, basic)
      ensures res in reps && if s == [] then res == r else Appended(old(reps[r]), s, reps[res])
      ensures res in reps && Ok(reps[res]) && Text(reps[res]) == Text(old(reps[r])) + s
    {
      hide Sound, RopeRep.Valid, Kids, MinLen, OthersKept, NotOutgrown, RoundedUpSize, Ok, Text, Evolved,
        TreeConcatenated, ShortIsShallow;
      ghost var was, wasCells, wasNext := reps, cells, next;
      There(multiset{}, r);
      var c := cells[r];
      if c.refs > 1 {
        res := ConcatCharIter(r, s, multiset{});
        assert multiset{} + multiset{res} == multiset{res};
        Others(multiset{}, multiset{res}, h, was, wasCells, wasNext, {});
        return;
      }
      if s == [] {
        Ref(r, multiset{});
        assert multiset{} + multiset{r} == multiset{r};
        assert Text(reps[r]) + s == Text(reps[r]);
        EvolvedRefl(reps, next);
        Others(multiset{}, multiset{r}, h, was, wasCells, wasNext, {});
        return r;
      }
      if CellSize(c) + |s| <= COPY_MAX && c.LeafCell? {
        res := GrowLeaf(h, r, s);
        return;
      }
      if c.ConcatCell? {
        KidsAre(c);
        Child(multiset{}, r, c.right);
        There(multiset{}, c.right);
        if cells[c.right].LeafCell? && CellSize(cells[c.right]) + |s| <= COPY_MAX {
          res := GrowRight(h, r, s);
          return;
        }
      }
      res := ConcatNode(r, s, multiset{});
      assert multiset{} + multiset{res} == multiset{res};
      Others(multiset{}, multiset{res}, h, was, wasCells, wasNext, {});
    }

    // ---------- ropes ----------

    ghost predicate Valid()
      reads this
    {
      Owing(multiset{}) && RopesOk(handles, reps)
    }

    /** The text of a rope. */
    ghost function TextOf(h: nat): seq<C>
      requires h in handles && RopesOk(handles, reps)
      reads this
    {
      if handles[h].None? then [] else Text(reps[handles[h].value])
    }

    constructor (basic: bool)
      ensures Valid() && handles.Keys == {} && this.basic == basic
    {
      this.basic := basic;
      cells, handles, next, reps := map[], map[], 0, map[];
    }

    lemma Pointer(h: nat)
      requires Valid() && h in handles && handles[h].Some?
      ensures handles[h].value in cells && handles[h].value in reps
    {
    }

    /** The rope `h` lets go of what it points to, and takes over the reference to `p`. */
    method Turn(h: nat, p: Option<nat>)
      requires Owing(Pointed(p)) && RopesOk(handles[h := p], reps)
      modifies this
      ensures Valid() && handles == old(handles)[h := p] && PointersKept(handles, old(reps), reps)
    {
      hide Sound, Ok, Held, RopesOk, PointersKept;
      ghost var was, wasNext := reps, next;
      TurnSound(cells, handles, reps, Pointed(p), next, h, p);
      ghost var let := Held(handles, h);
      assert Pointed(p) - Pointed(p) + let == let;
      HeldIs(handles, h);
      if h in handles && handles[h].Some? {
        var x := handles[h].value;
        handles := handles[h := p];
        Owed(let, x);
        There(let, x);
        Unref(x, let);
        assert let - multiset{x} == multiset{};
      } else {
        handles := handles[h := p];
      }
      Ropes(was, wasNext);
    }

    lemma Ropes(was: map<nat, Rep<C>>, wasNext: nat)
      requires Owing(multiset{}) && Evolved(was, wasNext, reps, next, {}) && next == wasNext
      requires RopesOk(handles, was)
      ensures RopesOk(handles, reps) && PointersKept(handles, was, reps)
    {
      hide Ok, Owners;
      forall g | g in handles && handles[g].Some?
        ensures handles[g].value in reps && reps[handles[g].value] == was[handles[g].value]
      {
        Positive(multiset{}, handles[g].value);
      }
    }

    /** `append(s, n)`: only this rope changes, whichever nodes it shares. */
    method Append(h: nat, s: seq<C>)
      requires Valid() && h in handles && |TextOf(h)| + |s| <= MAX_SIZE
      modifies this
      ensures Valid() && handles.Keys == old(handles.Keys)
      ensures TextOf(h) == old(TextOf(h)) + s
      ensures forall g :: g in handles && g != h ==> TextOf(g) == old(TextOf(g))
    {
      hide Sound, RopeRep.Valid, Ok, Text, Evolved, MinLen;
      match handles[h]
      case None =>
        if s != [] {
          LeafOk(s);
          LeafText(s);
          var n := NewLeaf(s, multiset{});
          assert multiset{} + multiset{n} == Pointed(Some(n));
          Turn(h, Some(n));
        }
      case Some(r) =>
        Pointer(h);
        SizeIsLength(reps[r]);
        var res := DestrConcatCharIter(h, r, s);
        assert multiset{res} == Pointed(Some(res));
        Turn(h, Some(res));
    }

    /** A new rope with characters of its own. */
    method NewRope(h: nat, s: seq<C>)
      requires Valid() && h !in handles && |s| <= MAX_SIZE
      modifies this
      ensures Valid() && handles.Keys == old(handles.Keys) + {h} && TextOf(h) == s
      ensures forall g :: g in old(handles) ==> TextOf(g) == old(TextOf(g))
    {
      hide Sound, RopeRep.Valid, Ok, Text, Evolved, MinLen;
      if s == [] {
        Turn(h, None);
      } else {
        LeafOk(s);
        LeafText(s);
        var n := NewLeaf(s, multiset{});
        assert multiset{} + multiset{n} == Pointed(Some(n));
        Turn(h, Some(n));
      }
    }

    /** A copy of a rope shares all its nodes. */
    method CopyRope(h: nat, g: nat)
      requires Valid() && h !in handles && g in handles
      modifies this
      ensures Valid() && handles.Keys == old(handles.Keys) + {h} && TextOf(h) == old(TextOf(g))
      ensures forall k :: k in old(handles) ==> TextOf(k) == old(TextOf(k))
    {
      hide Sound, RopeRep.Valid, Ok, Text, Evolved;
      if handles[g].Some? {
        Pointer(g);
        Ref(handles[g].value, multiset{});
        assert multiset{} + multiset{handles[g].value} == Pointed(handles[g]);
      }
      Turn(h, handles[g]);
    }

    /** The end of a rope: it points nowhere, and the nodes that only it referred to are gone. */
    method DropRope(h: nat)
      requires Valid() && h in handles
      modifies this
      ensures Valid() && handles.Keys == old(handles.Keys) && TextOf(h) == []
      ensures forall g :: g in handles && g != h ==> TextOf(g) == old(TextOf(g))
    {
      hide Sound, RopeRep.Valid, Ok, Text, Evolved;
      Turn(h, None);
    }
  }

  lemma HeldIs(handles: map<nat, Option<nat>>, h: nat)
    ensures h in handles && handles[h].Some? ==> Held(handles, h) == multiset{handles[h].value}
    ensures !(h in handles && handles[h].Some?) ==> Held(handles, h) == multiset{}
  {
  }

  lemma LeafText<C>(d: seq<C>)
    ensures Text(Leaf(d)) == d
  {
  }

  lemma SizeIsLength<C>(t: Rep<C>)
    requires Ok(t)
    ensures Size(t) == |Text(t)|
  {
    SizeIsTextLength(t);
  }

  /** What the ropes point to stands for what it did. */
  ghost predicate PointersKept<C>(handles: map<nat, Option<nat>>, was: map<nat, Rep<C>>, now: map<nat, Rep<C>>) {
    forall g :: g in handles && handles[g].Some? ==>
      handles[g].value in was && handles[g].value in now && now[handles[g].value] == was[handles[g].value]
  }

  /** Every rope points to a node that is there, or nowhere. */
  ghost predicate RopesOk<C>(handles: map<nat, Option<nat>>, reps: map<nat, Rep<C>>) {
    forall g :: g in handles && handles[g].Some? ==> handles[g].value in reps && Ok(reps[handles[g].value])
  }

  /** A concatenation node with characters appended to its right leaf. */
  ghost function Grown<C>(t: Rep<C>, s: seq<C>): Rep<C>
    requires t.Concat? && t.right.Leaf?
  {
    t.(right := Leaf(t.right.data + s), size := t.size + |s|)
  }

  /** What becomes of a tree that characters are appended to: a last leaf with room for them grows, in the same node
      or a new one, and otherwise they are a leaf of their own. */
  ghost predicate Appended<C>(t: Rep<C>, s: seq<C>, u: Rep<C>) {
    if t.Concat? && t.right.Leaf? && |t.right.data| + |s| <= 23
    then u == Grown(t, s) || TreeConcatenated(t.left, Leaf(t.right.data + s), u)
    else if t.Leaf? && |t.data| + |s| <= 23 then u == Leaf(t.data + s)
    else TreeConcatenated(t, Leaf(s), u)
  }

  /** What the ropes but `h` point to is still there and stands for what it did. */
  ghost predicate OthersKept<C>(handles: map<nat, Option<nat>>, h: nat, was: map<nat, Rep<C>>, now: map<nat, Rep<C>>) {
    forall g :: g in handles && g != h && handles[g].Some? ==>
      handles[g].value in was && handles[g].value in now && now[handles[g].value] == was[handles[g].value]
  }

  lemma LeafOk<C>(d: seq<C>)
    requires d != []
    ensures Ok(Leaf(d)) && Size(Leaf(d)) == |d|
  {
  }

  lemma RightParts<C>(t: Rep<C>, s: seq<C>)
    requires Ok(t) && t.Concat? && t.right.Leaf? && s != []
    ensures Ok(t.left) && Ok(Leaf(t.right.data + s)) && Size(t.left) + |t.right.data + s| == Size(t) + |s|
  {
    hide MinLen;
  }

  lemma RightText<C>(t: Rep<C>, s: seq<C>, u: Rep<C>)
    requires Ok(t) && t.Concat? && t.right.Leaf? && s != [] && TreeConcatenated(t.left, Leaf(t.right.data + s), u)
    ensures Ok(u) && Text(u) == Text(t) + s
  {
    RightParts(t, s);
    TreeConcatenatedFacts(t.left, Leaf(t.right.data + s), u);
    hide Ok, TreeConcatenated, MinLen;
    assert Text(t.left) + (t.right.data + s) == (Text(t.left) + t.right.data) + s;
  }

  lemma LeafFits<C>(t: Rep<C>, reps: map<nat, Rep<C>>)
    ensures t.Leaf? ==> FitsAt(LeafCell(1, t.data), reps, t)
    ensures t.Function? ==> FitsAt(FunctionCell(1, t.contents), reps, t)
  {
  }

  lemma RebalancedValid<C>(t: Rep<C>, b: Rep<C>)
    requires Rebalanced(t, b)
    ensures RopeRep.Valid(b)
  {
  }

  lemma NodeValid<C>(l: Rep<C>, r: Rep<C>)
    requires RopeRep.Valid(l) && RopeRep.Valid(r)
    ensures RopeRep.Valid(Node(l, r))
  {
  }

  lemma PartsValid<C>(t: Rep<C>)
    requires RopeRep.Valid(t)
    ensures t.Substring? ==> RopeRep.Valid(t.base)
    ensures t.Concat? ==> RopeRep.Valid(t.left) && RopeRep.Valid(t.right)
  {
  }

  lemma KidsAre<C>(c: Cell<C>)
    ensures multiset(Kids(c)) == match c
      case LeafCell(_, _) => multiset{}
      case FunctionCell(_, _) => multiset{}
      case SubstringCell(_, b, _, _) => multiset{b}
      case ConcatCell(_, l, r, _, _, _) => multiset{l, r}
    ensures c.SubstringCell? ==> c.base in Kids(c)
    ensures c.ConcatCell? ==> c.left in Kids(c) && c.right in Kids(c)
  {
    if c.ConcatCell? {
      assert Kids(c) == [c.left] + [c.right];
    }
  }
}
