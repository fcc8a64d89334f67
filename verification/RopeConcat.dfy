/** Concatenation of ropes and the rebalancing it may call for. */
module RopeConcat {
  import opened Options
  import opened RopeRep

  // ---------- balance conditions ----------

  predicate IsBalanced<C>(r: Rep<C>)
    requires Depth(r) <= MAX_ROPE_DEPTH
  {
    Size(r) >= MinLen(Depth(r))
  }

  predicate IsAlmostBalanced<C>(r: Rep<C>)
    requires Depth(r) <= MAX_ROPE_DEPTH
  {
    Depth(r) == 0 || Size(r) >= MinLen(Depth(r) - 1)
  }

  predicate IsRoughlyBalanced<C>(r: Rep<C>)
    requires Depth(r) <= MAX_ROPE_DEPTH
  {
    Depth(r) <= 1 || Size(r) >= MinLen(Depth(r) - 2)
  }

  // ---------- when a concatenation rebalances ----------

  function Node<C>(l: Rep<C>, r: Rep<C>): Rep<C> {
    Concat(l, r, Size(l) + Size(r), Max(Depth(l), Depth(r)) + 1, false)
  }

  /** `_S_tree_concat` rebalances the new node. */
  predicate TooDeep<C>(n: Rep<C>) {
    Depth(n) > 20 && (Size(n) < 1000 || Depth(n) > MAX_ROPE_DEPTH)
  }

  predicate BothLeaves<C>(l: Rep<C>, r: Rep<C>) {
    r.Leaf? && l.Leaf? && Size(r) + Size(l) <= COPY_MAX
  }

  predicate RightLeafGrows<C>(l: Rep<C>, r: Rep<C>) {
    r.Leaf? && l.Concat? && l.right.Leaf? && Size(l.right) + Size(r) <= COPY_MAX
  }

  /** `_S_concat` builds a node that is rebalanced. */
  predicate Rebalances<C>(l: Rep<C>, r: Rep<C>) {
    !BothLeaves(l, r) && TooDeep(if RightLeafGrows(l, r) then Node(l.left, Leaf(l.right.data + r.data)) else Node(l, r))
  }

  /** A rebalanced node keeps its text and is roughly balanced. */
  ghost predicate Rebalanced<C>(n: Rep<C>, res: Rep<C>) {
    Ok(res) && Text(res) == Text(n) && IsRoughlyBalanced(res)
  }

  ghost predicate TreeConcatenated<C>(l: Rep<C>, r: Rep<C>, res: Rep<C>) {
    if TooDeep(Node(l, r)) then Rebalanced(Node(l, r), res) else res == Node(l, r)
  }

  /** What `_S_concat` returns: short leaves are copied together, and everything else
      becomes a concatenation node, rebalanced if that node is too deep. */
  ghost predicate Concatenated<C>(l: Rep<C>, r: Rep<C>, res: Rep<C>) {
    if BothLeaves(l, r) then res == Leaf(l.data + r.data)
    else if RightLeafGrows(l, r) then TreeConcatenated(l.left, Leaf(l.right.data + r.data), res)
    else TreeConcatenated(l, r, res)
  }

  /** A short rope is not deep. */
  ghost predicate ShortIsShallow<C>(r: Rep<C>) {
    Size(r) < 1000 ==> Depth(r) <= 20
  }

  lemma RoughlyBalancedIsShallow<C>(r: Rep<C>)
    requires Depth(r) <= MAX_ROPE_DEPTH && IsRoughlyBalanced(r)
    ensures ShortIsShallow(r)
  {
    hide MinLen;
    if Depth(r) > 20 {
      LongEnough(Depth(r) - 2);
    }
  }

  /** Bounds under which no rebalancing takes place. */
  ghost predicate StaysShallow<C>(l: Rep<C>, r: Rep<C>) {
    var d := Max(Depth(l), Depth(r)) + 1;
    d <= 20 || (Size(l) + Size(r) >= 1000 && d <= MAX_ROPE_DEPTH)
  }

  lemma ShallowDoesNotRebalance<C>(l: Rep<C>, r: Rep<C>)
    requires Valid(l) && Valid(r) && StaysShallow(l, r)
    ensures !Rebalances(l, r)
  {
  }

  lemma TreeConcatenatedFacts<C>(l: Rep<C>, r: Rep<C>, res: Rep<C>)
    requires Ok(l) && Ok(r) && TreeConcatenated(l, r, res)
    ensures Ok(res) && Text(res) == Text(l) + Text(r)
    ensures !TooDeep(Node(l, r)) ==> Depth(res) <= Max(Depth(l), Depth(r)) + 1
    ensures ShortIsShallow(res) && Size(res) == Size(l) + Size(r)
  {
    hide MinLen;
    if TooDeep(Node(l, r)) {
      RoughlyBalancedIsShallow(res);
    }
    SizeIsTextLength(l);
    SizeIsTextLength(r);
    SizeIsTextLength(res);
  }

  lemma ConcatenatedFacts<C>(l: Rep<C>, r: Rep<C>, res: Rep<C>)
    requires Ok(l) && Ok(r) && Concatenated(l, r, res)
    ensures Ok(res) && Text(res) == Text(l) + Text(r)
    ensures !Rebalances(l, r) ==> Depth(res) <= Max(Depth(l), Depth(r)) + 1
    ensures ShortIsShallow(res)
    ensures r.Leaf? && l.Leaf? && Size(l) + Size(r) <= 23 ==> res == Leaf(l.data + r.data)
    ensures r.Leaf? && l.Concat? && l.right.Leaf? && Size(l.right) + Size(r) <= 23 && Depth(l) <= 20 ==>
      res.Concat? && res.left == l.left && res.right == Leaf(l.right.data + r.data) && Depth(res) == Depth(l)
  {
    hide MinLen;
    if BothLeaves(l, r) {
    } else if RightLeafGrows(l, r) {
      var leaf := Leaf(l.right.data + r.data);
      assert Ok(l.left) && Ok(leaf);
      TreeConcatenatedFacts(l.left, leaf, res);
      assert Text(l.left) + (l.right.data + r.data) == (Text(l.left) + l.right.data) + r.data;
    } else {
      TreeConcatenatedFacts(l, r, res);
    }
  }

  // ---------- the operations ----------

  /** `_S_tree_concat`. */
  method TreeConcat<C>(l: Rep<C>, r: Rep<C>) returns (res: Rep<C>)
    requires Ok(l) && Ok(r) && Size(l) + Size(r) <= MAX_SIZE
    ensures TreeConcatenated(l, r, res) && ShortIsShallow(res)
    decreases if TooDeep(Node(l, r)) then 2 else 0, 0
  {
    res := Node(l, r);
    if Depth(res) > 20 && (Size(res) < 1000 || Depth(res) > MAX_ROPE_DEPTH) {
      res := Balance(res);
    }
    TreeConcatenatedFacts(l, r, res);
  }

  /** `_S_concat` of two ropes that are not null. */
  method ConcatReps<C>(l: Rep<C>, r: Rep<C>) returns (res: Rep<C>)
    requires Ok(l) && Ok(r) && Size(l) + Size(r) <= MAX_SIZE
    ensures Concatenated(l, r, res) && ShortIsShallow(res)
    ensures r.Leaf? && l.Leaf? && Size(l) + Size(r) <= 23 ==> res == Leaf(l.data + r.data)
    ensures r.Leaf? && l.Concat? && l.right.Leaf? && Size(l.right) + Size(r) <= 23 && Depth(l) <= 20 ==>
      res.Concat? && res.left == l.left && res.right == Leaf(l.right.data + r.data) && Depth(res) == Depth(l)
    decreases if Rebalances(l, r) then 2 else 0, 1
  {
    if r.Leaf? {
      if l.Leaf? {
        if Size(r) + Size(l) <= COPY_MAX {
          res := Leaf(l.data + r.data);
          ConcatenatedFacts(l, r, res);
          return;
        }
      } else if l.Concat? && l.right.Leaf? {
        if Size(l.right) + Size(r) <= COPY_MAX {
          res := TreeConcat(l.left, Leaf(l.right.data + r.data));
          ConcatenatedFacts(l, r, res);
          return;
        }
      }
    }
    res := TreeConcat(l, r);
    ConcatenatedFacts(l, r, res);
  }

  /** `_S_concat`, where either side may be null. */
  method ConcatOpt<C>(l: Option<Rep<C>>, r: Option<Rep<C>>) returns (res: Option<Rep<C>>)
    requires OptOk(l) && OptOk(r) && OptSize(l) + OptSize(r) <= MAX_SIZE
    ensures OptOk(res) && OptText(res) == OptText(l) + OptText(r)
    ensures l.None? ==> res == r
    ensures r.None? ==> res == l
    ensures l.Some? && r.Some? ==> res.Some? && Concatenated(l.value, r.value, res.value) && ShortIsShallow(res.value)
    decreases if l.Some? && r.Some? && Rebalances(l.value, r.value) then 2 else 0, 2
  {
    if l.None? {
      return r;
    }
    if r.None? {
      return l;
    }
    var t := ConcatReps(l.value, r.value);
    ConcatenatedFacts(l.value, r.value, t);
    res := Some(t);
  }

  function SetBalanced<C>(r: Rep<C>): (res: Rep<C>)
    ensures Depth(res) == Depth(r) && Text(res) == Text(r)
    ensures res.Concat? && Depth(res) <= MAX_ROPE_DEPTH && Size(res) >= MinLen(Depth(res)) ==> res.balanced
  {
    if r.Concat? && Depth(r) <= MAX_ROPE_DEPTH && IsBalanced(r) then r.(balanced := true) else r
  }

  /** What `_S_concat` returns where it does not rebalance. */
  function Join<C>(l: Rep<C>, r: Rep<C>): Rep<C> {
    if BothLeaves(l, r) then Leaf(l.data + r.data)
    else if RightLeafGrows(l, r) then Node(l.left, Leaf(l.right.data + r.data))
    else Node(l, r)
  }

  function Joined<C>(l: Option<Rep<C>>, r: Option<Rep<C>>): Rep<C>
    requires l.Some? || r.Some?
  {
    SetBalanced(if l.None? then r.value else if r.None? then l.value else Join(l.value, r.value))
  }

  /** `_S_concat_and_set_balanced`, where one side may be null. */
  method ConcatAndSetBalanced<C>(l: Option<Rep<C>>, r: Option<Rep<C>>) returns (res: Rep<C>)
    requires OptOk(l) && OptOk(r) && OptSize(l) + OptSize(r) <= MAX_SIZE
    requires l.Some? || r.Some?
    requires l.Some? && r.Some? ==> StaysShallow(l.value, r.value)
    ensures Ok(res) && Text(res) == OptText(l) + OptText(r)
    ensures Depth(res) <= if l.None? then Depth(r.value) else if r.None? then Depth(l.value)
      else Max(Depth(l.value), Depth(r.value)) + 1
    ensures res == Joined(l, r)
    decreases 0, 3
  {
    hide MinLen;
    if l.Some? && r.Some? {
      ShallowDoesNotRebalance(l.value, r.value);
    }
    var t := ConcatOpt(l, r);
    if l.Some? && r.Some? {
      ConcatenatedFacts(l.value, r.value, t.value);
    }
    res := SetBalanced(t.value);
  }

  // ---------- the forest ----------

  /** The text of a forest: higher slots come first. */
  ghost function ForestText<C>(f: seq<Option<Rep<C>>>): seq<C> {
    if f == [] then [] else OptText(f[|f| - 1]) + ForestText(f[..|f| - 1])
  }

  lemma ForestTextLast<C>(f: seq<Option<Rep<C>>>, x: Option<Rep<C>>)
    ensures ForestText(f + [x]) == OptText(x) + ForestText(f)
  {
    assert (f + [x])[..|f|] == f;
  }

  lemma {:induction false} ForestTextConcat<C>(f: seq<Option<Rep<C>>>, g: seq<Option<Rep<C>>>)
    ensures ForestText(f + g) == ForestText(g) + ForestText(f)
    decreases |g|
  {
    if g == [] {
      assert f + g == f;
    } else {
      hide ForestText, OptText;
      var h, x := g[..|g| - 1], g[|g| - 1];
      assert g == h + [x] && f + g == (f + h) + [x];
      ForestTextConcat(f, h);
      ForestTextLast(f + h, x);
      ForestTextLast(h, x);
      assert OptText(x) + (ForestText(h) + ForestText(f)) == (OptText(x) + ForestText(h)) + ForestText(f);
    }
  }

  lemma {:induction false} EmptyForestText<C>(f: seq<Option<Rep<C>>>)
    requires forall k :: 0 <= k < |f| ==> f[k].None?
    ensures ForestText(f) == []
  {
    if f != [] {
      EmptyForestText(f[..|f| - 1]);
    }
  }

  /** A slot holds a rope long enough for its index and at most one deeper. */
  ghost predicate SlotOk<C>(s: Option<Rep<C>>, i: nat)
    requires i <= MAX_ROPE_DEPTH
  {
    s.Some? ==> Ok(s.value) && Size(s.value) >= MinLen(i) && Depth(s.value) <= i + 1
  }

  ghost predicate ForestOk<C>(f: seq<Option<Rep<C>>>) {
    |f| == MAX_ROPE_DEPTH + 1 && forall i :: 0 <= i < |f| ==> SlotOk(f[i], i)
  }

  /** The text below slot `i + 1` is the slot followed by the text below it. */
  lemma ForestSplit<C>(f: seq<Option<Rep<C>>>, i: nat)
    requires i < |f|
    ensures ForestText(f[..i + 1]) == OptText(f[i]) + ForestText(f[..i])
    ensures |ForestText(f[..i + 1])| <= |ForestText(f)|
    ensures ForestText(f) == ForestText(f[i + 1..]) + ForestText(f[..i + 1])
  {
    assert f[..i + 1][..i] == f[..i];
    ForestTextConcat(f[..i + 1], f[i + 1..]);
    assert f == f[..i + 1] + f[i + 1..];
  }

  /** The short pieces that come before the new one, `top` being the highest slot taken so far. */
  ghost predicate TinyOk<C>(t: Option<Rep<C>>, top: int) {
    t.Some? ==> 0 <= top <= MAX_ROPE_DEPTH && Ok(t.value) && Size(t.value) >= MinLen(top) && Depth(t.value) <= top + 2
  }

  /** A piece of size `n` and depth `d` on its way to slot `i`: fit for slot `i`, or already
      long enough for the next. */
  ghost predicate InsertOk(n: nat, d: nat, i: nat) {
    && i < MAX_ROPE_DEPTH
    && ((d <= i + 1 && n >= MinLen(i)) || (d <= i + 2 && n >= MinLen(i + 1)))
  }

  lemma SlotBound(i: nat, n: nat)
    requires i <= MAX_ROPE_DEPTH && MinLen(i) <= n <= MAX_SIZE
    ensures i < MAX_ROPE_DEPTH - 1
  {
    if i >= MAX_ROPE_DEPTH - 1 {
      MinLenMonotone(MAX_ROPE_DEPTH - 1, i);
    }
  }

  lemma LongEnough(i: nat)
    requires i <= MAX_ROPE_DEPTH
    ensures i >= 18 ==> MinLen(i) >= 1000
  {
    if i >= 18 {
      MinLenMonotone(18, i);
    }
  }

  /** Merging a slot into the tiny pieces. */
  lemma TinyStep<C>(f: Option<Rep<C>>, t: Option<Rep<C>>, i: nat, top: int)
    requires i < MAX_ROPE_DEPTH - 1 && f.Some? && SlotOk(f, i) && TinyOk(t, top) && top < i
    ensures t.Some? ==> StaysShallow(f.value, t.value)
  {
    hide MinLen;
    LongEnough(i);
  }

  /** Putting the new piece behind the tiny ones. */
  lemma InsertStart<C>(t: Option<Rep<C>>, r: Rep<C>, i: nat, top: int)
    requires i < MAX_ROPE_DEPTH - 1 && TinyOk(t, top) && top < i
    requires Ok(r) && Size(r) >= MinLen(Depth(r)) && MinLen(i) <= Size(r) < MinLen(i + 1)
    ensures t.Some? ==> StaysShallow(t.value, r)
    ensures InsertOk(OptSize(t) + Size(r), if t.None? then Depth(r) else Max(Depth(t.value), Depth(r)) + 1, i)
  {
    hide MinLen;
    if Depth(r) > i {
      MinLenMonotone(i + 1, Depth(r));
    }
    LongEnough(i);
    if t.Some? && top == i - 1 {
      MinLenIsFibonacci(i - 1);
    }
  }

  lemma MinLenDoubles(i: nat)
    requires i < MAX_ROPE_DEPTH
    ensures MinLen(i + 1) <= 2 * MinLen(i)
  {
    if i > 0 {
      MinLenMonotone(i - 1, i);
      MinLenIsFibonacci(i - 1);
    }
  }

  lemma InsertOkSmaller(n: nat, d: nat, e: nat, i: nat)
    requires InsertOk(n, d, i) && e <= d
    ensures InsertOk(n, e, i)
  {
  }

  /** Merging slot `i`, of size `m` and depth `e`, with the piece on its way. */
  lemma InsertMerge(m: nat, e: nat, n: nat, d: nat, i: nat)
    requires InsertOk(n, d, i) && m >= MinLen(i) && e <= i + 1 && m + n <= MAX_SIZE
    ensures var h := Max(e, d) + 1;
            && (h <= 20 || (m + n >= 1000 && h <= MAX_ROPE_DEPTH))
            && m + n >= MinLen(h - 1) && m + n >= MinLen(i + 1) && InsertOk(m + n, h, i + 1)
  {
    hide MinLen, MAX_SIZE;
    var h := Max(e, d) + 1;
    MinLenMonotone(i, i + 1);
    SlotBound(i, n);
    MinLenDoubles(i);
    MinLenIsFibonacci(i);
    LongEnough(i);
    if d <= i + 1 && n >= MinLen(i) {
      MinLenMonotone(h - 1, i + 1);
    } else {
      MinLenMonotone(h - 1, i + 2);
      SlotBound(i + 2, m + n);
    }
  }

  ghost predicate Cleared<C>(f: seq<Option<Rep<C>>>, f0: seq<Option<Rep<C>>>, i: nat) {
    && |f| == |f0| && i <= |f|
    && (forall k :: 0 <= k < i ==> f[k].None?)
    && (forall k :: i <= k < |f| ==> f[k] == f0[k])
  }

  /** Facts about slot `i` of a forest whose lower slots have been taken out. */
  lemma SlotFacts<C>(f0: seq<Option<Rep<C>>>, i: nat)
    requires ForestOk(f0) && i <= MAX_ROPE_DEPTH
    ensures |f0| == MAX_ROPE_DEPTH + 1
    ensures SlotOk(f0[i], i) && OptOk(f0[i])
    ensures ForestText(f0[..i + 1]) == OptText(f0[i]) + ForestText(f0[..i])
    ensures OptSize(f0[i]) + |ForestText(f0[..i])| <= |ForestText(f0)|
    ensures |ForestText(f0[..i + 1])| == OptSize(f0[i]) + |ForestText(f0[..i])|
  {
    ForestSplit(f0, i);
    if f0[i].Some? {
      SizeIsTextLength(f0[i].value);
    }
  }

  lemma ClearedOk<C>(f: seq<Option<Rep<C>>>, f0: seq<Option<Rep<C>>>, i: nat, x: Option<Rep<C>>)
    requires ForestOk(f0) && i <= MAX_ROPE_DEPTH && Cleared(f, f0, i + 1) && SlotOk(x, i)
    ensures ForestOk(f[i := x])
  {
    hide MinLen, Valid;
  }

  lemma ClearedIs<C>(f: seq<Option<Rep<C>>>, f0: seq<Option<Rep<C>>>, i: nat, x: Option<Rep<C>>)
    requires i < |f0| && Cleared(f, f0, i + 1)
    ensures i < |f| && f[i := x] == WithSlot(f0, i, x)
  {
  }

  lemma ClearedAbove<C>(f: seq<Option<Rep<C>>>, f0: seq<Option<Rep<C>>>, i: nat, x: Option<Rep<C>>)
    requires i < |f0| && Cleared(f, f0, i + 1)
    ensures i < |f| && f[i := x][i + 1..] == f0[i + 1..]
  {
  }

  lemma ClearedBelow<C>(f: seq<Option<Rep<C>>>, f0: seq<Option<Rep<C>>>, i: nat, x: Option<Rep<C>>)
    requires i < |f0| && Cleared(f, f0, i + 1)
    ensures i < |f| && ForestText(f[i := x][..i]) == []
  {
    EmptyForestText(f[i := x][..i]);
  }

  lemma ClearedText<C>(f: seq<Option<Rep<C>>>, f0: seq<Option<Rep<C>>>, i: nat, x: Option<Rep<C>>)
    requires i < |f0| && i <= MAX_ROPE_DEPTH && Cleared(f, f0, i + 1)
    ensures ForestText(f[i := x]) == ForestText(f0[i + 1..]) + OptText(x)
    ensures ForestText(f0) == ForestText(f0[i + 1..]) + ForestText(f0[..i + 1])
  {
    ForestSplit(f0, i);
    ClearedAbove(f, f0, i, x);
    ClearedBelow(f, f0, i, x);
    ForestSplit(f[i := x], i);
    hide *;
    assert OptText(x) + [] == OptText(x);
  }

  /** The pieces below slot `i` in one. */
  ghost function TinyOf<C>(f: seq<Option<Rep<C>>>, i: nat): Option<Rep<C>>
    requires i <= |f|
  {
    if i == 0 then None
    else if f[i - 1].None? then TinyOf(f, i - 1)
    else Some(Joined(f[i - 1], TinyOf(f, i - 1)))
  }

  /** The forest in which the slots below `i` are empty and the slot is another. */
  ghost function WithSlot<C>(f: seq<Option<Rep<C>>>, i: nat, x: Option<Rep<C>>): (g: seq<Option<Rep<C>>>)
    ensures |g| == |f| && forall k :: 0 <= k < |f| ==> g[k] == if k < i then None else if k == i then x else f[k]
  {
    seq(|f|, k requires 0 <= k < |f| => if k < i then None else if k == i then x else f[k])
  }

  /** Where a piece on its way from slot `i` up comes to rest. */
  ghost function Settled<C>(f: seq<Option<Rep<C>>>, t: Rep<C>, i: nat): seq<Option<Rep<C>>>
    requires |f| == MAX_ROPE_DEPTH + 1 && i <= MAX_ROPE_DEPTH
    decreases MAX_ROPE_DEPTH - i
  {
    var u := Merged(f, t, i);
    if i == MAX_ROPE_DEPTH || Size(u) < MinLen(i + 1) then WithSlot(f, i, Some(u)) else Settled(f, u, i + 1)
  }

  ghost function Merged<C>(f: seq<Option<Rep<C>>>, t: Rep<C>, i: nat): Rep<C>
    requires i < |f|
  {
    if f[i].None? then t else Joined(f[i], Some(t))
  }

  lemma SettledStep<C>(f: seq<Option<Rep<C>>>, t: Rep<C>, i: nat)
    requires |f| == MAX_ROPE_DEPTH + 1 && i < MAX_ROPE_DEPTH
    ensures var u := Merged(f, t, i); Settled(f, t, i) == if Size(u) < MinLen(i + 1) then WithSlot(f, i, Some(u))
      else Settled(f, u, i + 1)
  {
  }

  /** The slot for a size: the last but for which it is too short. */
  ghost function SlotFor(size: nat, i: nat): (k: nat)
    requires i < MAX_ROPE_DEPTH
    ensures i <= k < MAX_ROPE_DEPTH
    decreases MAX_ROPE_DEPTH - i
  {
    if i + 1 == MAX_ROPE_DEPTH || size < MinLen(i + 1) then i else SlotFor(size, i + 1)
  }

  /** The piece that is put in front of a new one, and the two together. */
  ghost function Insertee<C>(f: seq<Option<Rep<C>>>, r: Rep<C>): Rep<C>
    requires |f| == MAX_ROPE_DEPTH + 1
  {
    Joined(TinyOf(f, SlotFor(Size(r), 0)), Some(r))
  }

  ghost function LeafAdded<C>(f: seq<Option<Rep<C>>>, r: Rep<C>): seq<Option<Rep<C>>>
    requires |f| == MAX_ROPE_DEPTH + 1
  {
    Settled(f, Insertee(f, r), SlotFor(Size(r), 0))
  }

  /** The first loop of `_S_add_leaf_to_forest`: takes out and joins the pieces that are too
      short for a new piece of size `s`; `i` is the slot for that size. */
  method TakeTiny<C>(s: nat, forest: array<Option<Rep<C>>>) returns (i: nat, tiny: Option<Rep<C>>, ghost top: int)
    requires ForestOk(forest[..]) && s >= 1 && |ForestText(forest[..])| + s <= MAX_SIZE
    modifies forest
    ensures i < MAX_ROPE_DEPTH - 1 && MinLen(i) <= s < MinLen(i + 1)
    ensures Cleared(forest[..], old(forest[..]), i)
    ensures TinyOk(tiny, top) && top < i && OptText(tiny) == ForestText(old(forest[..])[..i])
    ensures i == SlotFor(s, 0) && tiny == TinyOf(old(forest[..]), i)
    decreases 1, 5
  {
    hide MinLen, ForestText, ForestOk, Valid, Text, StaysShallow, Joined;
    ghost var f0 := forest[..];
    i, tiny, top := 0, None, -1;
    NothingBelow(f0);
    MinLenStart();
    SlotBound(0, s);
    while s >= MinLen(i + 1)
      invariant i < MAX_ROPE_DEPTH - 1 && MinLen(i) <= s
      invariant Cleared(forest[..], f0, i)
      invariant TinyOk(tiny, top) && top < i && OptText(tiny) == ForestText(f0[..i])
      invariant SlotFor(s, i) == SlotFor(s, 0) && tiny == TinyOf(f0, i)
      decreases MAX_ROPE_DEPTH - i
    {
      SlotFacts(f0, i);
      SlotBound(i + 1, s);
      assert forest[..][i] == f0[i];
      if forest[i].Some? {
        TinyStep(forest[i], tiny, i, top);
        TinySize(tiny);
        var joined := ConcatAndSetBalanced(forest[i], tiny);
        SizeIsTextLength(joined);
        tiny := Some(joined);
        forest[i] := None;
        top := i;
      }
      i := i + 1;
    }
  }

  lemma NothingBelow<C>(f: seq<Option<Rep<C>>>)
    ensures ForestText(f[..0]) == []
    ensures ForestText(f[..|f|]) == ForestText(f)
  {
    assert f[..|f|] == f;
  }

  lemma MinLenStart()
    ensures MinLen(0) == 1
  {
  }

  lemma TinySize<C>(t: Option<Rep<C>>)
    requires OptOk(t)
    ensures OptSize(t) == |OptText(t)|
  {
    if t.Some? {
      SizeIsTextLength(t.value);
    }
  }

  /** What stays whole when `l` is put in front of `r`. */
  function WholePart<C>(l: Rep<C>, r: Rep<C>): Rep<C> {
    if RightLeafGrows(l, r) then l.left else l
  }

  /** The piece with the short ones in front is at most one deeper than the piece exactly when they are no deeper
      than it. */
  lemma DepthAssertion<C>(tiny: Rep<C>, r: Rep<C>, insertee: Rep<C>)
    requires Valid(tiny) && Valid(r) && StaysShallow(tiny, r) && Concatenated(tiny, r, insertee)
    ensures Depth(insertee) <= Depth(r) + 1 <==> Depth(WholePart(tiny, r)) <= Depth(r)
  {
    ShallowDoesNotRebalance(tiny, r);
    hide MinLen, Text;
    if BothLeaves(tiny, r) {
      assert Depth(tiny) == 0;
    } else if RightLeafGrows(tiny, r) {
      assert insertee == Node(tiny.left, Leaf(tiny.right.data + r.data));
    } else {
      assert insertee == Node(tiny, r);
    }
  }

  /** The first loop: the short pieces that come before the new one, and that behind them, on its way to slot `i`. */
  method PutBehindTiny<C>(r: Rep<C>, forest: array<Option<Rep<C>>>)
                      returns (i: nat, insertee: Rep<C>, ghost deeper: bool)
    requires ForestOk(forest[..]) && Ok(r) && BalancedFlag(r)
    requires |ForestText(forest[..])| + Size(r) <= MAX_SIZE
    modifies forest
    ensures i < MAX_ROPE_DEPTH - 1 && Cleared(forest[..], old(forest[..]), i)
    ensures Ok(insertee) && InsertOk(Size(insertee), Depth(insertee), i)
    ensures Text(insertee) == old(ForestText(forest[..i])) + Text(r)
    ensures |old(forest[..])| == MAX_ROPE_DEPTH + 1
    ensures Settled(old(forest[..]), insertee, i) == LeafAdded(old(forest[..]), r)
    ensures deeper <==> Depth(Insertee(old(forest[..]), r)) > Depth(r) + 1
    decreases 1, 6, 0
  {
    hide MinLen, ForestText, ForestOk, Valid, Text, StaysShallow, Joined, TinyOf, Merged, WithSlot, Settled, SlotFor;
    ghost var f0 := forest[..];
    BalancedSize(r);
    SizeIsTextLength(r);
    var tiny;
    ghost var top;
    i, tiny, top := TakeTiny(Size(r), forest);
    InsertStart(tiny, r, i, top);
    SlotFacts(f0, i);
    TinySize(tiny);
    insertee := ConcatAndSetBalanced(tiny, Some(r));
    deeper := Depth(insertee) > Depth(r) + 1;
    SizeIsTextLength(insertee);
    InsertOkSmaller(Size(insertee), if tiny.None? then Depth(r)
      else Max(Depth(tiny.value), Depth(r)) + 1, Depth(insertee), i);
  }

  /** `_S_add_leaf_to_forest`: adds a balanced rope behind the text of the forest. */
  method AddLeafToForest<C>(r: Rep<C>, forest: array<Option<Rep<C>>>) returns (ghost deeper: bool)
    requires ForestOk(forest[..]) && Ok(r) && BalancedFlag(r)
    requires |ForestText(forest[..])| + Size(r) <= MAX_SIZE
    modifies forest
    ensures ForestOk(forest[..]) && ForestText(forest[..]) == old(ForestText(forest[..])) + Text(r)
    ensures |old(forest[..])| == MAX_ROPE_DEPTH + 1 && forest[..] == LeafAdded(old(forest[..]), r)
    ensures deeper <==> Depth(Insertee(old(forest[..]), r)) > Depth(r) + 1
    decreases 1, 6, 1
  {
    hide MinLen, ForestText, ForestOk, Valid, Text, StaysShallow, Joined, TinyOf, Merged, WithSlot, Settled, Insertee,
      LeafAdded;
    ghost var f0 := forest[..];
    SizeIsTextLength(r);
    var i, insertee;
    i, insertee, deeper := PutBehindTiny(r, forest);
    while true
      invariant i < MAX_ROPE_DEPTH - 1
      invariant Ok(insertee) && InsertOk(Size(insertee), Depth(insertee), i)
      invariant Cleared(forest[..], f0, i)
      invariant Text(insertee) == ForestText(f0[..i]) + Text(r)
      invariant |f0| == MAX_ROPE_DEPTH + 1 && Settled(f0, insertee, i) == LeafAdded(f0, r)
      decreases MAX_ROPE_DEPTH - i
    {
      ghost var before := insertee;
      insertee := MergeSlot(insertee, forest, i, f0, Text(r));
      assert IsAlmostBalanced(insertee) && MinLen(i) <= Size(insertee) && forest[i].None?;
      if i == MAX_ROPE_DEPTH || Size(insertee) < MinLen(i + 1) {
        ghost var f := forest[..];
        forest[i] := Some(insertee);
        ClearedText(f, f0, i, Some(insertee));
        ClearedOk(f, f0, i, Some(insertee));
        assert forest[..] == f[i := Some(insertee)];
        ClearedIs(f, f0, i, Some(insertee));
        SettledStep(f0, before, i);
        return;
      }
      SettledStep(f0, before, i);
      SizeIsTextLength(insertee);
      SlotFacts(f0, i);
      ForestSplit(f0, i);
      SlotBound(i + 1, Size(insertee));
      i := i + 1;
    }
  }

  /** One round of the second loop: takes slot `i` in front of the piece on its way. The result
      is almost balanced, and fit for slot `i` if it is too short for the next. */
  method MergeSlot<C>(t: Rep<C>, forest: array<Option<Rep<C>>>, i: nat, ghost f0: seq<Option<Rep<C>>>,
                      ghost text: seq<C>) returns (res: Rep<C>)
    requires ForestOk(f0) && i < MAX_ROPE_DEPTH - 1 && Cleared(forest[..], f0, i)
    requires Ok(t) && InsertOk(Size(t), Depth(t), i)
    requires Text(t) == ForestText(f0[..i]) + text && |ForestText(f0)| + |text| <= MAX_SIZE
    modifies forest
    ensures Cleared(forest[..], f0, i + 1)
    ensures Ok(res) && Text(res) == ForestText(f0[..i + 1]) + text && i < |f0| && res == Merged(f0, t, i)
    ensures IsAlmostBalanced(res) && MinLen(i) <= Size(res)
    ensures if Size(res) < MinLen(i + 1) then SlotOk(Some(res), i) else InsertOk(Size(res), Depth(res), i + 1)
    decreases 1, 5
  {
    hide MinLen, ForestText, ForestOk, Valid, Text, Joined, InsertOk;
    SlotFacts(f0, i);
    SizeIsTextLength(t);
    MinLenMonotone(i, i + 1);
    Resting(Size(t), Depth(t), i);
    res := t;
    if forest[i].Some? {
      ghost var s := forest[i].value;
      InsertMerge(Size(s), Depth(s), Size(t), Depth(t), i);
      ghost var h := Max(Depth(s), Depth(t)) + 1;
      res := ConcatAndSetBalanced(forest[i], Some(t));
      SizeIsTextLength(res);
      InsertOkSmaller(Size(s) + Size(t), h, Depth(res), i + 1);
      if Depth(res) > 0 {
        MinLenMonotone(Depth(res) - 1, h - 1);
      }
      forest[i] := None;
    }
  }

  /** A piece on its way comes to rest, or is fit for the next slot. */
  lemma Resting(n: nat, d: nat, i: nat)
    requires i < MAX_ROPE_DEPTH - 1 && InsertOk(n, d, i)
    ensures n >= MinLen(i) && d <= i + 2 && (d > 0 ==> n >= MinLen(d - 1))
    ensures if n < MinLen(i + 1) then d <= i + 1 else InsertOk(n, d, i + 1)
  {
    hide MinLen;
    MinLenMonotone(i, i + 1);
    if d > 0 {
      MinLenMonotone(d - 1, i + 1);
      if d <= i + 1 {
        MinLenMonotone(d - 1, i);
      }
    }
  }

  /** A rope flagged as balanced is long enough for its depth. */
  lemma BalancedSize<C>(r: Rep<C>)
    requires Ok(r) && BalancedFlag(r)
    ensures Size(r) >= MinLen(Depth(r))
  {
  }

  /** A forest to which a rope has been added by its balanced parts. */
  ghost function TreeAdded<C>(f: seq<Option<Rep<C>>>, r: Rep<C>): (g: seq<Option<Rep<C>>>)
    requires |f| == MAX_ROPE_DEPTH + 1
    ensures |g| == |f|
    decreases r
  {
    SettledSize(f, r);
    if BalancedFlag(r) then LeafAdded(f, r) else TreeAdded(TreeAdded(f, r.left), r.right)
  }

  lemma SettledSize<C>(f: seq<Option<Rep<C>>>, r: Rep<C>)
    requires |f| == MAX_ROPE_DEPTH + 1
    ensures |LeafAdded(f, r)| == |f|
  {
    SettledLength(f, Insertee(f, r), SlotFor(Size(r), 0));
  }

  lemma {:induction false} SettledLength<C>(f: seq<Option<Rep<C>>>, t: Rep<C>, i: nat)
    requires |f| == MAX_ROPE_DEPTH + 1 && i <= MAX_ROPE_DEPTH
    ensures |Settled(f, t, i)| == |f|
    decreases MAX_ROPE_DEPTH - i
  {
    hide MinLen;
    if i < MAX_ROPE_DEPTH {
      SettledLength(f, Merged(f, t, i), i + 1);
    }
  }

  /** Whether one of the parts meets with short pieces in front of it that make it deeper by more than one. */
  ghost predicate Deepens<C>(f: seq<Option<Rep<C>>>, r: Rep<C>)
    requires |f| == MAX_ROPE_DEPTH + 1
    decreases r
  {
    if BalancedFlag(r) then Depth(Insertee(f, r)) > Depth(r) + 1
    else Deepens(f, r.left) || Deepens(TreeAdded(f, r.left), r.right)
  }

  /** `_S_add_to_forest`; `deeper` tells whether the assertion on depths in `_S_add_leaf_to_forest` has failed. */
  method AddToForest<C>(r: Rep<C>, forest: array<Option<Rep<C>>>) returns (ghost deeper: bool)
    requires ForestOk(forest[..]) && Valid(r)
    requires |ForestText(forest[..])| + Size(r) <= MAX_SIZE
    modifies forest
    ensures ForestOk(forest[..]) && ForestText(forest[..]) == old(ForestText(forest[..])) + Text(r)
    ensures |old(forest[..])| == MAX_ROPE_DEPTH + 1 && forest[..] == TreeAdded(old(forest[..]), r)
    ensures deeper <==> Deepens(old(forest[..]), r)
    decreases 1, 7, r
  {
    hide MinLen, ForestOk, ForestText, LeafAdded, Insertee;
    ForestSlots(forest[..]);
    if BalancedFlag(r) {
      deeper := AddLeafToForest(r, forest);
      return;
    }
    SizeIsTextLength(r.left);
    SizeIsTextLength(r.right);
    ghost var first := AddToForest(r.left, forest);
    deeper := AddToForest(r.right, forest);
    deeper := deeper || first;
  }

  lemma ForestSlots<C>(f: seq<Option<Rep<C>>>)
    requires ForestOk(f)
    ensures |f| == MAX_ROPE_DEPTH + 1
  {
  }

  lemma EmptyForestOk<C>(f: seq<Option<Rep<C>>>)
    requires |f| == MAX_ROPE_DEPTH + 1 && forall k :: 0 <= k < |f| ==> f[k].None?
    ensures ForestOk(f)
  {
  }

  /** One round of the loop over the forest: the piece of a slot is put in front of those below it. */
  method PutInFront<C>(piece: Option<Rep<C>>, below: Option<Rep<C>>, ghost i: nat, ghost top: int)
                   returns (res: Option<Rep<C>>)
    requires i <= MAX_ROPE_DEPTH && piece.Some? && SlotOk(piece, i) && TinyOk(below, top) && top < i
    requires OptSize(piece) + OptSize(below) <= MAX_SIZE
    ensures res.Some? && TinyOk(res, i) && OptText(res) == OptText(piece) + OptText(below)
    decreases 1, 5
  {
    hide MinLen, Valid, Text, StaysShallow, Concatenated, Rebalances, ShortIsShallow;
    SlotBound(i, Size(piece.value));
    TinyStep(piece, below, i, top);
    if below.Some? {
      ShallowDoesNotRebalance(piece.value, below.value);
    }
    res := ConcatOpt(piece, below);
    if below.Some? {
      ConcatenatedFacts(piece.value, below.value, res.value);
      SizeIsTextLength(piece.value);
      SizeIsTextLength(below.value);
      SizeIsTextLength(res.value);
    }
  }

  /** `_S_balance`: the same text, within two levels of balanced; the `abort` for a result
      deeper than 45 is never reached. */
  method Balance<C>(r: Rep<C>) returns (res: Rep<C>)
    requires Valid(r) && Size(r) <= MAX_SIZE
    ensures Rebalanced(r, res)
    decreases 1, 9
  {
    hide MinLen, ForestText, ForestOk, Valid, Text, StaysShallow, Concatenated, Rebalances;
    var forest := new Option<Rep<C>>[MAX_ROPE_DEPTH + 1](_ => None);
    EmptyForestText(forest[..]);
    EmptyForestOk(forest[..]);
    ghost var deeper := AddToForest(r, forest);
    ghost var f := forest[..];
    SizeIsTextLength(r);
    NothingBelow(f);
    var result: Option<Rep<C>> := None;
    ghost var top := -1;
    for i := 0 to MAX_ROPE_DEPTH + 1
      invariant forest[..] == f
      invariant OptText(result) == ForestText(f[..i])
      invariant TinyOk(result, top) && top < i
    {
      SlotFacts(f, i);
      if forest[i].Some? {
        SizeIsTextLength(forest[i].value);
        TinySize(result);
        result := PutInFront(forest[i], result, i, top);
        top := i;
      }
    }
    assert f[..MAX_ROPE_DEPTH + 1] == f[..|f|];
    res := result.value;
    SizeIsTextLength(res);
    if Depth(res) >= 2 {
      MinLenMonotone(Depth(res) - 2, top);
    }
  }

  // ---------- a rope for which the assertion on depths fails ----------

  ghost function OnlySlot<C>(i: nat, x: Rep<C>): (f: seq<Option<Rep<C>>>) {
    seq(MAX_ROPE_DEPTH + 1, k => if k == i then Some(x) else None)
  }

  lemma {:induction false} NoTiny<C>(f: seq<Option<Rep<C>>>, i: nat)
    requires i <= |f| && forall k :: 0 <= k < i ==> f[k].None?
    ensures TinyOf(f, i) == None
  {
    if i > 0 {
      NoTiny(f, i - 1);
    }
  }

  /** The first piece of three characters goes to slot 2, the second is joined to it in slot 3. */
  lemma TwoPieces<C>(three: Rep<C>)
    requires three.Function? && Size(three) == 3
    ensures var none := seq(MAX_ROPE_DEPTH + 1, _ => None);
            TreeAdded(none, Node(three, three)) == OnlySlot(3, SetBalanced(Node(three, three)))
  {
    var none: seq<Option<Rep<C>>> := seq(MAX_ROPE_DEPTH + 1, _ => None);
    assert SlotFor(3, 0) == SlotFor(3, 1) == SlotFor(3, 2) == 2;
    NoTiny(none, 2);
    var one := LeafAdded(none, three);
    assert Settled(none, three, 2) == WithSlot(none, 2, Some(three));
    assert one == WithSlot(none, 2, Some(three));
    NoTiny(one, 2);
    var both := SetBalanced(Node(three, three));
    assert Insertee(one, three) == three && Merged(one, three, 2) == both && Size(both) == 6;
    assert Settled(one, three, 2) == Settled(one, both, 3) == WithSlot(one, 3, Some(both));
    assert WithSlot(one, 3, Some(both)) == OnlySlot(3, both);
  }

  lemma ThirdPiece<C>(both: Rep<C>, r: Rep<C>)
    requires both.Concat? && both.balanced && Size(both) == 6 && Depth(both) == 1 && r.Function? && Size(r) == 21
    ensures Depth(Insertee(OnlySlot(3, both), r)) == 2 == Depth(r) + 2
  {
    var f := OnlySlot(3, both);
    assert SlotFor(21, 0) == SlotFor(21, 3) == SlotFor(21, 6) == 6;
    NoTiny(f, 3);
    assert TinyOf(f, 4) == Some(both);
    assert TinyOf(f, 5) == Some(both);
    assert TinyOf(f, 6) == Some(both);
  }

  /** A left-nested rope of producers of 3, 3 and 21 characters is added to an empty forest, as `_S_balance` does: the
      assertion on depths fails. */
  method DepthAssertionFails<C>(c: C) returns (r: Rep<C>, ghost deeper: bool)
    ensures Valid(r) && |Text(r)| == 27 && deeper
  {
    var three, long := Function([c, c, c]), Function(seq(21, _ => c));
    r := Node(Node(three, three), long);
    LongRope(three, long);
    var forest := new Option<Rep<C>>[MAX_ROPE_DEPTH + 1](_ => None);
    assert forest[..] == seq(MAX_ROPE_DEPTH + 1, _ => None);
    EmptyForestText(forest[..]);
    EmptyForestOk(forest[..]);
    TwoPieces(three);
    ThirdPiece(SetBalanced(Node(three, three)), long);
    hide *;
    deeper := AddToForest(r, forest);
  }

  lemma LongRope<C>(three: Rep<C>, long: Rep<C>)
    requires three.Function? && long.Function? && Size(three) == 3 && Size(long) == 21
    ensures Valid(Node(Node(three, three), long)) && |Text(Node(Node(three, three), long))| == 27
    ensures Size(Node(Node(three, three), long)) == 27 <= MAX_SIZE
    ensures SetBalanced(Node(three, three)).balanced
  {
    assert Valid(three) && Valid(long);
    assert Valid(Node(three, three));
    assert Valid(Node(Node(three, three), long));
    SizeIsTextLength(Node(Node(three, three), long));
  }
}
