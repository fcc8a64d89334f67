/** Rope iterators: a position with a buffer around it and the last four nodes
    of the path to its leaf. */
module RopeIterator {
  import opened Options
  import opened RopeRep
  import opened RopeOps

  const PATH_CACHE_LEN: nat := 4
  const ITERATOR_BUF_LEN: nat := 15

  // ---------- paths ----------

  /** A list of turns, true for right, that stays inside the tree. */
  ghost predicate IsPath<C>(r: Rep<C>, turns: seq<bool>) {
    turns == [] || (r.Concat? && IsPath(if turns[0] then r.right else r.left, turns[1..]))
  }

  ghost function NodeAt<C>(r: Rep<C>, turns: seq<bool>): Rep<C>
    requires IsPath(r, turns)
  {
    if turns == [] then r else NodeAt(if turns[0] then r.right else r.left, turns[1..])
  }

  /** The position of the first character of that node. */
  ghost function StartAt<C>(r: Rep<C>, turns: seq<bool>): nat
    requires IsPath(r, turns)
  {
    if turns == [] then 0
    else (if turns[0] then Size(r.left) else 0) + StartAt(if turns[0] then r.right else r.left, turns[1..])
  }

  ghost function Child<C>(r: Rep<C>, turn: bool): Rep<C>
    requires r.Concat?
  {
    if turn then r.right else r.left
  }

  /** One more turn at the end of a path. */
  lemma {:induction false} PathDown<C>(r: Rep<C>, turns: seq<bool>, turn: bool)
    requires IsPath(r, turns) && NodeAt(r, turns).Concat?
    ensures IsPath(r, turns + [turn])
    ensures NodeAt(r, turns + [turn]) == Child(NodeAt(r, turns), turn)
    ensures StartAt(r, turns + [turn]) == StartAt(r, turns) + if turn then Size(NodeAt(r, turns).left) else 0
  {
    if turns != [] {
      PathDown(Child(r, turns[0]), turns[1..], turn);
      assert (turns + [turn])[1..] == turns[1..] + [turn];
    }
  }

  lemma {:induction false} PathPrefix<C>(r: Rep<C>, turns: seq<bool>, k: nat)
    requires IsPath(r, turns) && k < |turns|
    ensures IsPath(r, turns[..k]) && NodeAt(r, turns[..k]).Concat?
    ensures IsPath(r, turns[..k + 1]) && NodeAt(r, turns[..k + 1]) == Child(NodeAt(r, turns[..k]), turns[k])
    ensures StartAt(r, turns[..k + 1]) == StartAt(r, turns[..k]) + if turns[k] then Size(NodeAt(r, turns[..k]).left)
      else 0
  {
    if k > 0 {
      PathPrefix(Child(r, turns[0]), turns[1..], k - 1);
      assert turns[..k][1..] == turns[1..][..k - 1];
      assert turns[..k + 1][1..] == turns[1..][..k];
    } else {
      assert turns[..1][1..] == [];
    }
  }

  /** The text of a node sits in the text of the rope. */
  lemma {:induction false} PathText<C>(r: Rep<C>, turns: seq<bool>)
    requires Valid(r) && IsPath(r, turns)
    ensures Valid(NodeAt(r, turns)) && Depth(NodeAt(r, turns)) + |turns| <= Depth(r)
    ensures StartAt(r, turns) + Size(NodeAt(r, turns)) <= |Text(r)|
    ensures Text(r)[StartAt(r, turns)..StartAt(r, turns) + Size(NodeAt(r, turns))] == Text(NodeAt(r, turns))
  {
    hide Text, Valid;
    SizeIsTextLength(r);
    if turns != [] {
      ChildText(r, turns[0]);
      var c := Child(r, turns[0]);
      PathText(c, turns[1..]);
      var at := if turns[0] then Size(r.left) else 0;
      SliceOfSlice(Text(r), at, Size(c), StartAt(c, turns[1..]), Size(NodeAt(r, turns)));
    } else {
      assert Text(r)[0..|Text(r)|] == Text(r);
    }
  }

  lemma ChildText<C>(r: Rep<C>, turn: bool)
    requires Valid(r) && r.Concat?
    ensures var c, at := Child(r, turn), if turn then Size(r.left) else 0;
            Valid(c) && Depth(c) < Depth(r) && Size(c) == |Text(c)| && at + Size(c) <= |Text(r)| &&
              Text(r)[at..at + Size(c)] == Text(c)
  {
    SizeIsTextLength(r.left);
    SizeIsTextLength(r.right);
  }

  /** The node without children that a position falls into, and where it starts. */
  ghost function LeafOf<C>(r: Rep<C>, pos: nat): (leaf: Rep<C>)
    requires Valid(r) && pos < Size(r)
    ensures Valid(leaf) && !leaf.Concat?
  {
    if !r.Concat? then r
    else if pos < Size(r.left) then LeafOf(r.left, pos)
    else LeafOf(r.right, pos - Size(r.left))
  }

  ghost function LeafStart<C>(r: Rep<C>, pos: nat): (at: nat)
    requires Valid(r) && pos < Size(r)
    ensures at <= pos < at + Size(LeafOf(r, pos)) <= Size(r)
  {
    if !r.Concat? then 0
    else if pos < Size(r.left) then LeafStart(r.left, pos)
    else Size(r.left) + LeafStart(r.right, pos - Size(r.left))
  }

  /** A path that ends around the position ends there. */
  lemma {:induction false} LeafFound<C>(r: Rep<C>, turns: seq<bool>, pos: nat)
    requires Valid(r) && pos < Size(r) && IsPath(r, turns) && !NodeAt(r, turns).Concat?
    requires StartAt(r, turns) <= pos < StartAt(r, turns) + Size(NodeAt(r, turns))
    ensures NodeAt(r, turns) == LeafOf(r, pos) && StartAt(r, turns) == LeafStart(r, pos)
  {
    if turns != [] {
      var c := Child(r, turns[0]);
      ChildText(r, turns[0]);
      PathText(c, turns[1..]);
      LeafFound(c, turns[1..], if turns[0] then pos - Size(r.left) else pos);
    }
  }

  // ---------- the direction bits ----------

  predicate Bit(d: bv8, i: nat)
    requires i < 8
  {
    (d >> i) & 1 == 1
  }

  function Shift(dirs: bv8, turn: bool): bv8 { if turn then (dirs << 1) | 1 else dirs << 1 }

  lemma Shifted(d: bv8, i: nat)
    requires i < 7
    ensures Bit(d << 1, i + 1) == Bit(d, i) && Bit((d << 1) | 1, i + 1) == Bit(d, i)
    ensures Bit(d >> 1, i) == Bit(d, i + 1)
    ensures !Bit(d << 1, 0) && Bit((d << 1) | 1, 0)
    ensures Bit(d, 0) <==> d & 1 == 1
    ensures ((d >> 1) << 1) | 1 == d | 1
  {
  }

  predicate LowBit(d: bv8)
    ensures LowBit(d) == Bit(d, 0)
  {
    Shifted(d, 0);
    d & 1 == 1
  }

  lemma ShiftedTurn(d: bv8)
    ensures Shift(d >> 1, true) == d | 1
  {
    Shifted(d, 0);
  }

  // ---------- the path cache ----------

  /** Slots `0` to `leafIndex` hold the last nodes of the path `turns`, the bits its last
      turns, and `leafPos` the start of its last node. */
  ghost predicate CacheOk<C>(root: Rep<C>, turns: seq<bool>, pathEnd: seq<Rep<C>>, leafIndex: nat, dirs: bv8,
                             leafPos: nat) {
    && |pathEnd| == PATH_CACHE_LEN && leafIndex < PATH_CACHE_LEN && leafIndex <= |turns|
    && IsPath(root, turns) && leafPos == StartAt(root, turns)
    && (forall k :: 0 <= k <= leafIndex ==> CachedAt(root, turns, |turns| - leafIndex + k, pathEnd[k]))
    && BitsOk(turns, leafIndex, dirs)
  }

  /** The low `n` bits are the last `n` turns. */
  ghost predicate BitsOk(turns: seq<bool>, n: nat, dirs: bv8) {
    n <= |turns| && n <= 8 && forall i :: 0 <= i < n ==> Bit(dirs, i) == turns[|turns| - 1 - i]
  }

  lemma BitsPop(turns: seq<bool>, n: nat, dirs: bv8)
    requires BitsOk(turns, n, dirs) && n > 0
    ensures BitsOk(turns[..|turns| - 1], n - 1, dirs >> 1) && Bit(dirs, 0) == turns[|turns| - 1]
  {
    var d := dirs >> 1;
    forall i | 0 <= i < n - 1
      ensures Bit(d, i) == turns[..|turns| - 1][|turns| - 2 - i]
    {
      Shifted(dirs, i);
      assert Bit(dirs, i + 1) == turns[|turns| - 1 - (i + 1)];
    }
  }

  lemma BitsPush(turns: seq<bool>, n: nat, dirs: bv8, turn: bool, m: nat)
    requires BitsOk(turns, n, dirs) && m <= n + 1 && m <= 8
    ensures BitsOk(turns + [turn], m, Shift(dirs, turn))
  {
    var down := turns + [turn];
    var d := Shift(dirs, turn);
    Shifted(dirs, 0);
    forall i | 0 <= i < m
      ensures Bit(d, i) == down[|down| - 1 - i]
    {
      if i > 0 {
        Shifted(dirs, i - 1);
        assert Bit(dirs, i - 1) == turns[|turns| - 1 - (i - 1)];
      }
    }
  }

  ghost predicate CachedAt<C>(root: Rep<C>, turns: seq<bool>, n: nat, node: Rep<C>) {
    n <= |turns| && IsPath(root, turns[..n]) && NodeAt(root, turns[..n]) == node
  }

  lemma CachedLeaf<C>(root: Rep<C>, turns: seq<bool>, pathEnd: seq<Rep<C>>, leafIndex: nat, dirs: bv8, leafPos: nat)
    requires CacheOk(root, turns, pathEnd, leafIndex, dirs, leafPos)
    ensures pathEnd[leafIndex] == NodeAt(root, turns)
  {
    assert CachedAt(root, turns, |turns| - leafIndex + leafIndex, pathEnd[leafIndex]);
    assert turns[..|turns|] == turns;
  }

  /** What a valid cache says about the current node. */
  lemma CacheFacts<C>(root: Rep<C>, turns: seq<bool>, pathEnd: seq<Rep<C>>, leafIndex: nat, dirs: bv8, leafPos: nat)
    requires Ok(root) && CacheOk(root, turns, pathEnd, leafIndex, dirs, leafPos)
    ensures |pathEnd| == PATH_CACHE_LEN && leafIndex < PATH_CACHE_LEN
    ensures Valid(pathEnd[leafIndex]) && Size(pathEnd[leafIndex]) == |Text(pathEnd[leafIndex])| > 0
    ensures leafPos + Size(pathEnd[leafIndex]) <= |Text(root)| == Size(root)
    ensures Text(root)[leafPos..leafPos + Size(pathEnd[leafIndex])] == Text(pathEnd[leafIndex])
    ensures Depth(pathEnd[leafIndex]) + |turns| <= MAX_ROPE_DEPTH
    ensures |turns| >= leafIndex && (turns == [] ==> pathEnd[leafIndex] == root && leafPos == 0)
  {
    CachedLeaf(root, turns, pathEnd, leafIndex, dirs, leafPos);
    PathText(root, turns);
    SizeIsTextLength(root);
    SizeIsTextLength(pathEnd[leafIndex]);
  }

  lemma CacheSplit<C>(root: Rep<C>, turns: seq<bool>, pathEnd: seq<Rep<C>>, leafIndex: nat, dirs: bv8, leafPos: nat)
    requires Ok(root) && CacheOk(root, turns, pathEnd, leafIndex, dirs, leafPos) && pathEnd[leafIndex].Concat?
    ensures var node := pathEnd[leafIndex];
            Size(node) == Size(node.left) + Size(node.right) && Size(node.right) > 0 &&
              leafPos + Size(node) <= Size(root)
  {
    CacheFacts(root, turns, pathEnd, leafIndex, dirs, leafPos);
    SizeIsTextLength(pathEnd[leafIndex].right);
  }

  /** Dropping the last node of the path. */
  lemma CachePop<C>(root: Rep<C>, turns: seq<bool>, pathEnd: seq<Rep<C>>, leafIndex: nat, dirs: bv8, leafPos: nat)
    requires CacheOk(root, turns, pathEnd, leafIndex, dirs, leafPos) && leafIndex > 0
    ensures var up, parent := turns[..|turns| - 1], pathEnd[leafIndex - 1];
            && |turns| > 0 && parent.Concat? && pathEnd[leafIndex] == Child(parent, Bit(dirs, 0))
            && leafPos >= (if Bit(dirs, 0) then Size(parent.left) else 0)
            && CacheOk(root, up, pathEnd, leafIndex - 1, dirs >> 1, leafPos - if Bit(dirs, 0) then Size(parent.left)
              else 0)
  {
    var n := |turns|;
    var up := turns[..n - 1];
    CachedLeaf(root, turns, pathEnd, leafIndex, dirs, leafPos);
    PathPrefix(root, turns, n - 1);
    assert turns[..n] == turns;
    forall k | 0 <= k <= leafIndex - 1
      ensures CachedAt(root, up, |up| - (leafIndex - 1) + k, pathEnd[k])
    {
      assert CachedAt(root, turns, n - leafIndex + k, pathEnd[k]);
      assert up[..n - leafIndex + k] == turns[..n - leafIndex + k];
    }
    BitsPop(turns, leafIndex, dirs);
    assert CachedAt(root, up, |up|, pathEnd[leafIndex - 1]);
    assert up[..|up|] == up;
  }

  /** Going on to a child, the oldest slot giving way when the cache is full. */
  lemma CachePush<C>(root: Rep<C>, turns: seq<bool>, pathEnd: seq<Rep<C>>, leafIndex: nat, dirs: bv8, leafPos: nat,
                     turn: bool)
    requires CacheOk(root, turns, pathEnd, leafIndex, dirs, leafPos) && pathEnd[leafIndex].Concat?
    ensures var node := pathEnd[leafIndex];
            var at := leafPos + if turn then Size(node.left) else 0;
            if leafIndex + 1 < PATH_CACHE_LEN
            then CacheOk(root, turns + [turn], pathEnd[leafIndex + 1 := Child(node, turn)], leafIndex + 1,
              Shift(dirs, turn), at)
            else CacheOk(root, turns + [turn], pathEnd[1..] + [Child(node, turn)], leafIndex, Shift(dirs, turn), at)
  {
    var n, down, node := |turns|, turns + [turn], pathEnd[leafIndex];
    CachedLeaf(root, turns, pathEnd, leafIndex, dirs, leafPos);
    PathDown(root, turns, turn);
    var full := leafIndex + 1 == PATH_CACHE_LEN;
    var next := if full then pathEnd[1..] + [Child(node, turn)] else pathEnd[leafIndex + 1 := Child(node, turn)];
    var last := if full then leafIndex else leafIndex + 1;
    BitsPush(turns, leafIndex, dirs, turn, last);
    hide NodeAt, StartAt, IsPath, BitsOk;
    assert down[..n + 1] == down;
    forall k | 0 <= k <= last
      ensures CachedAt(root, down, n + 1 - last + k, next[k])
    {
      if k < last {
        var m := if full then k + 1 else k;
        assert CachedAt(root, turns, n - leafIndex + m, pathEnd[m]);
        assert down[..n - leafIndex + m] == turns[..n - leafIndex + m];
      }
    }
  }

  // ---------- the buffer ----------

  /** `buffer` holds the text from `pos - ptr` on, inside the leaf that starts at `leafPos`. */
  ghost predicate BufferOk<C>(root: Rep<C>, leafPos: nat, leafSize: nat, pos: nat, buffer: seq<C>, ptr: nat) {
    && ptr <= pos && leafPos <= pos - ptr && pos - ptr + |buffer| <= leafPos + leafSize
    && pos - ptr + |buffer| <= |Text(root)|
    && buffer == Text(root)[pos - ptr..pos - ptr + |buffer|]
  }

  /** A stretch of the leaf around the position is a good buffer. */
  lemma WindowOk<C>(root: Rep<C>, leafPos: nat, leaf: Rep<C>, pos: nat, start: nat, len: nat)
    requires leafPos <= start <= pos && start + len <= leafPos + |Text(leaf)| <= |Text(root)|
    requires Text(root)[leafPos..leafPos + |Text(leaf)|] == Text(leaf)
    ensures BufferOk(root, leafPos, |Text(leaf)|, pos, Text(leaf)[start - leafPos..start - leafPos + len], pos - start)
  {
    hide Text;
    SliceOfSlice(Text(root), leafPos, |Text(leaf)|, start - leafPos, len);
  }

  lemma BitsLess(turns: seq<bool>, n: nat, dirs: bv8, m: nat)
    requires BitsOk(turns, n, dirs) && m <= n
    ensures BitsOk(turns, m, dirs)
  {
    hide Bit;
  }

  lemma LeafText<C>(r: Rep<C>)
    requires r.Leaf?
    ensures Text(r) == r.data
  {
  }

  // ---------- the way down from the root ----------

  /** `path` lists the nodes from the root to `cur`, which starts at `start`. */
  ghost predicate Descent<C>(root: Rep<C>, t: seq<bool>, path: seq<Rep<C>>, cur: Rep<C>, start: nat, dirs: bv8) {
    && IsPath(root, t) && NodeAt(root, t) == cur && StartAt(root, t) == start
    && |path| == |t| + 1 && (forall k :: 0 <= k <= |t| ==> CachedAt(root, t, k, path[k]))
    && BitsOk(t, if |t| < 8 then |t| else 8, dirs)
  }

  lemma RootDescent<C>(root: Rep<C>)
    ensures Descent(root, [], [root], root, 0, 0)
  {
  }

  /** Without children there is nowhere to go. */
  lemma NoDescent<C>(root: Rep<C>, t: seq<bool>, path: seq<Rep<C>>, cur: Rep<C>, start: nat, dirs: bv8)
    requires Descent(root, t, path, cur, start, dirs) && !root.Concat?
    ensures t == [] && start == 0 && |path| == 1 && path[0] == root
  {
    assert CachedAt(root, t, 0, path[0]);
  }

  lemma RootCached<C>(root: Rep<C>, pathEnd: seq<Rep<C>>, dirs: bv8)
    requires |pathEnd| == PATH_CACHE_LEN && pathEnd[0] == root
    ensures CacheOk(root, [], pathEnd, 0, dirs, 0)
  {
    assert CachedAt(root, [], 0, root);
  }

  lemma DescentStep<C>(root: Rep<C>, t: seq<bool>, path: seq<Rep<C>>, cur: Rep<C>, start: nat, dirs: bv8, turn: bool)
    requires Ok(root) && Descent(root, t, path, cur, start, dirs) && cur.Concat?
    ensures Size(cur) == Size(cur.left) + Size(cur.right) && |path| <= MAX_ROPE_DEPTH
    ensures Descent(root, t + [turn], path + [Child(cur, turn)], Child(cur, turn),
                    start + if turn then Size(cur.left) else 0, Shift(dirs, turn))
  {
    PathText(root, t);
    PathDown(root, t, turn);
    var down, next := t + [turn], path + [Child(cur, turn)];
    BitsPush(t, if |t| < 8 then |t| else 8, dirs, turn, if |down| < 8 then |down| else 8);
    hide NodeAt, StartAt, IsPath, BitsOk, Text;
    forall k | 0 <= k <= |down|
      ensures CachedAt(root, down, k, next[k])
    {
      if k <= |t| {
        assert CachedAt(root, t, k, path[k]);
        assert down[..k] == t[..k];
      } else {
        assert down[..k] == down;
      }
    }
  }

  /** The last nodes of the way down are a valid cache. */
  lemma DescentCached<C>(root: Rep<C>, t: seq<bool>, path: seq<Rep<C>>, cur: Rep<C>, start: nat, dirs: bv8,
                         pathEnd: seq<Rep<C>>, leafIndex: nat)
    requires Descent(root, t, path, cur, start, dirs)
    requires |pathEnd| == PATH_CACHE_LEN && leafIndex == if |path| < PATH_CACHE_LEN then |path| - 1
      else PATH_CACHE_LEN - 1
    requires forall k :: 0 <= k <= leafIndex ==> pathEnd[k] == path[|path| - 1 - leafIndex + k]
    ensures CacheOk(root, t, pathEnd, leafIndex, dirs, start) && pathEnd[leafIndex] == cur
  {
    hide NodeAt, StartAt, IsPath, BitsOk;
    BitsLess(t, if |t| < 8 then |t| else 8, dirs, leafIndex);
    assert CachedAt(root, t, |t|, path[|t|]);
    assert t[..|t|] == t;
    forall k | 0 <= k <= leafIndex
      ensures CachedAt(root, t, |t| - leafIndex + k, pathEnd[k])
    {
      assert CachedAt(root, t, |t| - leafIndex + k, path[|t| - leafIndex + k]);
    }
  }

  /** The search for the leaf that holds `pos`, keeping the nodes on the way; the array of
      46 nodes that the code keeps them in is long enough. */
  method Descend<C>(root: Rep<C>, pos: nat) returns (path: seq<Rep<C>>, start: nat, dirs: bv8, ghost t: seq<bool>)
    requires Ok(root) && pos < Size(root)
    ensures 0 < |path| == |t| + 1 <= MAX_ROPE_DEPTH + 1 && Descent(root, t, path, path[|t|], start, dirs)
    ensures !path[|t|].Concat? && start <= pos < start + Size(path[|t|])
  {
    hide NodeAt, StartAt, IsPath, Text, Bit, BitsOk, CachedAt, Descent, Shift, Valid;
    var cur := root;
    path, start, dirs, t := [root], 0, 0, [];
    RootDescent(root);
    while cur.Concat?
      invariant Descent(root, t, path, cur, start, dirs)
      invariant start <= pos < start + Size(cur)
      invariant 0 < |path| == |t| + 1 <= MAX_ROPE_DEPTH + 1 && path[|t|] == cur
      decreases cur
    {
      var turn := pos >= start + Size(cur.left);
      DescentStep(root, t, path, cur, start, dirs, turn);
      t := t + [turn];
      dirs := Shift(dirs, turn);
      if turn {
        start := start + Size(cur.left);
        cur := cur.right;
      } else {
        cur := cur.left;
      }
      path := path + [cur];
    }
  }

  /** Where the buffer of an iterator lies: among the characters of a leaf or of a flattened root, or in the small
      buffer of an iterator. */
  datatype BufferIn<C> = Chars(chars: seq<C>) | Tmp(tmp: array<C>)

  /** Where the small buffer begins when it is filled for `pos`. */
  function BufStart(leafPos: nat, leafSize: nat, pos: nat): (start: nat)
    requires leafPos <= pos < leafPos + leafSize
    ensures leafPos <= start <= pos
  {
    if leafPos + ITERATOR_BUF_LEN <= pos then
      if pos - ITERATOR_BUF_LEN / 4 + ITERATOR_BUF_LEN > leafPos + leafSize then leafPos + leafSize - ITERATOR_BUF_LEN
      else pos - ITERATOR_BUF_LEN / 4
    else leafPos
  }

  /** How much of it is filled. */
  function BufLen(leafPos: nat, leafSize: nat, pos: nat): (len: nat)
    requires leafPos <= pos < leafPos + leafSize
    ensures len <= ITERATOR_BUF_LEN && pos < BufStart(leafPos, leafSize, pos) + len <= leafPos + leafSize
  {
    var start := BufStart(leafPos, leafSize, pos);
    if start + ITERATOR_BUF_LEN > leafPos + leafSize then leafPos + leafSize - start else ITERATOR_BUF_LEN
  }

  /** The text that the small buffer is filled with for a position: none in a leaf. */
  ghost function FillText<C>(root: Rep<C>, pos: nat): (w: seq<C>)
    requires Valid(root) && pos < Size(root)
    ensures |w| <= ITERATOR_BUF_LEN
  {
    var leaf, at := LeafOf(root, pos), LeafStart(root, pos);
    SizeIsTextLength(root);
    if leaf.Leaf? then []
    else
      var start, len := BufStart(at, Size(leaf), pos), BufLen(at, Size(leaf), pos);
      Text(root)[start..start + len]
  }

  /** The small buffer once it has been filled: what was there remains behind the text. */
  ghost function Refilled<C>(root: Rep<C>, pos: nat, was: seq<C>): seq<C>
    requires Valid(root) && pos < Size(root) && |was| == ITERATOR_BUF_LEN
  {
    var w := FillText(root, pos);
    w + was[|w|..]
  }

  /** The text of the window, as the character producer gives it. */
  lemma RefilledIs<C>(root: Rep<C>, pos: nat, was: seq<C>)
    requires Valid(root) && pos < Size(root) && |was| == ITERATOR_BUF_LEN
    requires var leaf, at := LeafOf(root, pos), LeafStart(root, pos);
      at + Size(leaf) <= |Text(root)| && Text(root)[at..at + Size(leaf)] == Text(leaf) && Size(leaf) == |Text(leaf)|
    ensures var leaf, at := LeafOf(root, pos), LeafStart(root, pos);
            if leaf.Leaf? then Refilled(root, pos, was) == was
            else
              var start, len := BufStart(at, Size(leaf), pos), BufLen(at, Size(leaf), pos);
              Refilled(root, pos, was) == Produce(leaf, start - at, len) + was[len..]
  {
    hide Text, Valid, BufStart, BufLen, LeafOf, LeafStart, Produce;
    var leaf, at := LeafOf(root, pos), LeafStart(root, pos);
    var start, len := BufStart(at, Size(leaf), pos), BufLen(at, Size(leaf), pos);
    SliceOfSlice(Text(root), at, Size(leaf), start - at, len);
  }

  /** Two texts do not differ as far as both go. */
  ghost predicate Agree<C>(w: seq<C>, text: seq<C>) {
    forall i :: 0 <= i < |w| && i < |text| ==> w[i] == text[i]
  }

  lemma RefilledAgrees<C>(root: Rep<C>, pos: nat, was: seq<C>, n: nat)
    requires Valid(root) && pos < Size(root) && n <= |was| == ITERATOR_BUF_LEN
    ensures Refilled(root, pos, was)[..n] == was[..n] <==> Agree(FillText(root, pos), was[..n])
  {
    hide FillText;
    var w, r := FillText(root, pos), Refilled(root, pos, was);
    if r[..n] == was[..n] {
      forall i | 0 <= i < |w| && i < n
        ensures w[i] == was[..n][i]
      {
        assert w[i] == r[..n][i];
      }
    }
  }

  /** The walk up the cached path leads out of it, all the turns there being to the right. */
  ghost predicate LeavesCache(dirs: bv8, index: int)
    decreases index + 1
  {
    index < 0 || (LowBit(dirs) && LeavesCache(dirs >> 1, index - 1))
  }

  class RopeIterator<C(0)> {
    var root: Rep<C>
    var currentPos: nat
    var leafPos: nat
    var bufIn: BufferIn<C>
    var bufLen: nat
    var bufPtr: Option<nat>
    var pathEnd: seq<Rep<C>>
    var leafIndex: nat
    var pathDirections: bv8
    const tmpBuf: array<C>
    ghost var turns: seq<bool>

    /** What else a valid iterator depends on. */
    ghost function Held(): set<array<C>>
      reads this`bufIn
    {
      if bufIn.Tmp? then {bufIn.tmp} else {}
    }

    ghost predicate BufferThere()
      reads this`bufIn, this`bufLen
    {
      match bufIn
      case Chars(s) => bufLen == |s|
      case Tmp(a) => bufLen <= a.Length
    }

    /** The characters from the start of the buffer to its end. */
    ghost function Buffer(): (s: seq<C>)
      requires BufferThere()
      reads this`bufIn, this`bufLen, Held()
      ensures |s| == bufLen
    {
      match bufIn
      case Chars(s) => s
      case Tmp(a) => a[..bufLen]
    }

    /** The path cache describes the path to the node that the buffer lies in. */
    ghost predicate Cached()
      reads this, Held()
    {
      && CacheOk(root, turns, pathEnd, leafIndex, pathDirections, leafPos) && BufferThere()
      && BufferOk(root, leafPos, Size(pathEnd[leafIndex]), currentPos, Buffer(), bufPtr.GetOr(0))
      && (pathEnd[leafIndex].Concat? ==> bufLen == Size(root) && turns == [])
    }

    ghost predicate Valid()
      reads this, Held()
    {
      && Ok(root) && currentPos <= Size(root) && |pathEnd| == PATH_CACHE_LEN && tmpBuf.Length == ITERATOR_BUF_LEN
      && (bufPtr.Some? ==> Cached() && bufPtr.value < bufLen)
    }

    /** The buffer, if there is one, does not lie in another iterator. */
    ghost predicate OnItsOwn()
      reads this
    {
      bufPtr.Some? && bufIn.Tmp? ==> bufIn.tmp == tmpBuf
    }

    /** The small buffer has just been filled for the current position. */
    ghost predicate Filled()
      reads this
    {
      && leafIndex < |pathEnd| && leafPos <= currentPos < leafPos + Size(pathEnd[leafIndex]) && bufIn == Tmp(tmpBuf)
      && bufPtr == Some(currentPos - BufStart(leafPos, Size(pathEnd[leafIndex]), currentPos))
      && bufLen == BufLen(leafPos, Size(pathEnd[leafIndex]), currentPos)
    }

    /** The end of the buffer being at `pos`, moving there looks for the leaf: always inside the cached part of the
        rope, and beyond it unless there is a C string of the whole. */
    ghost predicate Looks(pos: nat, cString: Option<seq<C>>)
      requires leafIndex < |pathEnd|
      reads this
    {
      && pos < Size(root)
      && (cString.None? || pos < leafPos + Size(pathEnd[leafIndex]) || !LeavesCache(pathDirections, leafIndex - 1))
    }

    /** Moving on by `n` fills the small buffer if it leads to a node other than a leaf. */
    ghost predicate Refills(n: nat, cString: Option<seq<C>>)
      requires Valid()
      reads this, Held()
    {
      bufPtr.Some? && bufPtr.value + n == bufLen && Looks(currentPos + n, cString)
    }

    /** What the small buffer holds after `Incr`, and after `Deref`. */
    ghost function TmpAfterIncr(n: nat, cString: Option<seq<C>>): seq<C>
      requires Valid()
      reads this, tmpBuf, Held()
    {
      if Refills(n, cString) then Refilled(root, currentPos + n, tmpBuf[..]) else tmpBuf[..]
    }

    ghost function TmpAfterDeref(cString: Option<seq<C>>): seq<C>
      requires Valid() && currentPos < Size(root)
      reads this, tmpBuf, Held()
    {
      if bufPtr.None? && cString.None? then Refilled(root, currentPos, tmpBuf[..]) else tmpBuf[..]
    }

    /** The iterator goes on to use characters in this small buffer. */
    ghost predicate LooksInto(a: array<C>)
      reads this
    {
      bufPtr.Some? && bufIn == Tmp(a)
    }

    constructor (root: Rep<C>, pos: nat)
      requires Ok(root) && pos <= Size(root)
      ensures Valid() && this.root == root && currentPos == pos && bufPtr == None && fresh(tmpBuf)
    {
      this.root := root;
      currentPos, leafPos, bufIn, bufLen, bufPtr := pos, 0, Chars([]), 0, None;
      pathEnd, leafIndex, pathDirections := [root, root, root, root], 0, 0;
      tmpBuf := new C[ITERATOR_BUF_LEN];
      turns := [];
    }

    /** The copy constructor: the pointers are copied as they are, and may lead into the small buffer of `x`. */
    constructor Copy(x: RopeIterator<C>)
      requires x.Valid()
      ensures Valid() && root == x.root && currentPos == x.currentPos && bufPtr == x.bufPtr && fresh(tmpBuf)
      ensures x.bufPtr.Some? ==> bufIn == x.bufIn && bufLen == x.bufLen
    {
      root, currentPos, bufPtr := x.root, x.currentPos, x.bufPtr;
      bufIn, bufLen, leafPos, turns := x.bufIn, x.bufLen, x.leafPos, x.turns;
      pathEnd, leafIndex, pathDirections := x.pathEnd, x.leafIndex, x.pathDirections;
      tmpBuf := new C[ITERATOR_BUF_LEN];
      new;
      hide CacheOk, BufferOk, Ok, Text;
      if x.bufPtr.Some? {
        CopyTmp(x);
      }
    }

    /** The characters of the small buffer are copied too. */
    method CopyTmp(x: RopeIterator<C>)
      requires tmpBuf.Length == x.tmpBuf.Length == ITERATOR_BUF_LEN
      modifies tmpBuf
      ensures tmpBuf[..] == old(x.tmpBuf[..])
    {
      for i := 0 to tmpBuf.Length
        invariant x.tmpBuf[..] == old(x.tmpBuf[..]) && tmpBuf[..i] == old(x.tmpBuf[..i])
      {
        tmpBuf[i] := x.tmpBuf[i];
        assert tmpBuf[..i + 1] == tmpBuf[..i] + [tmpBuf[i]];
      }
    }

    /** `operator=`: where `x` looks into the small buffer of this iterator, that buffer is overwritten all the same. */
    method Assign(x: RopeIterator<C>)
      requires x.Valid() && tmpBuf.Length == ITERATOR_BUF_LEN && |pathEnd| == PATH_CACHE_LEN
      modifies this, tmpBuf
      ensures root == old(x.root) && currentPos == old(x.currentPos) && bufPtr == old(x.bufPtr)
      ensures old(x.bufPtr).Some? ==> bufIn == old(x.bufIn) && bufLen == old(x.bufLen)
      ensures tmpBuf[..] == if old(x.bufPtr.Some?) then old(x.tmpBuf[..]) else old(tmpBuf[..])
      ensures Valid() <==> old(x.bufPtr.Some? && x.bufIn == Tmp(tmpBuf) ==> x.tmpBuf[..x.bufLen] == tmpBuf[..x.bufLen])
    {
      hide CacheOk, BufferOk, RopeRep.Valid, Text, Ok;
      if x.bufPtr.Some? {
        x.BufferText();
        ghost var s := x.Buffer();
        CopyTmp(x);
        CopyFields(x);
        assert bufIn == Tmp(tmpBuf) ==> tmpBuf[..bufLen] == old(x.tmpBuf[..])[..bufLen];
        if Valid() {
          BufferText();
          assert Buffer() == s;
        }
      } else {
        root, currentPos, bufPtr := x.root, x.currentPos, None;
      }
    }

    /** What a valid buffer holds. */
    lemma BufferText()
      requires Valid() && bufPtr.Some?
      ensures BufferThere() && bufPtr.value <= currentPos && currentPos - bufPtr.value + bufLen <= |Text(root)|
      ensures Buffer() == Text(root)[currentPos - bufPtr.value..currentPos - bufPtr.value + bufLen]
    {
      hide CacheOk, Ok, Text;
    }

    method CopyFields(x: RopeIterator<C>)
      modifies this
      ensures root == old(x.root) && currentPos == old(x.currentPos) && bufPtr == old(x.bufPtr) &&
        bufIn == old(x.bufIn) && bufLen == old(x.bufLen)
      ensures leafPos == old(x.leafPos) && turns == old(x.turns) && pathEnd == old(x.pathEnd) &&
        leafIndex == old(x.leafIndex)
      ensures pathDirections == old(x.pathDirections)
    {
      bufIn, bufLen, leafPos, turns := x.bufIn, x.bufLen, x.leafPos, x.turns;
      pathEnd, leafIndex, pathDirections := x.pathEnd, x.leafIndex, x.pathDirections;
      root, currentPos, bufPtr := x.root, x.currentPos, x.bufPtr;
    }

    /** `_S_setbuf`. */
    method SetBuf()
      requires Ok(root) && CacheOk(root, turns, pathEnd, leafIndex, pathDirections, leafPos) &&
        tmpBuf.Length == ITERATOR_BUF_LEN
      requires !pathEnd[leafIndex].Concat? && leafPos <= currentPos < leafPos + Size(pathEnd[leafIndex])
      modifies this`bufIn, this`bufLen, this`bufPtr, tmpBuf
      ensures Valid() && bufPtr.Some? && OnItsOwn() && RopeRep.Valid(root) && currentPos < Size(root)
      ensures tmpBuf[..] == Refilled(root, currentPos, old(tmpBuf[..]))
      ensures !pathEnd[leafIndex].Leaf? ==> Filled()
    {
      hide CacheOk, NodeAt, StartAt, IsPath, Text, RopeRep.Valid, Bit, BufferOk, Refilled;
      CacheFacts(root, turns, pathEnd, leafIndex, pathDirections, leafPos);
      var leaf := pathEnd[leafIndex];
      LeafIs(tmpBuf[..]);
      ghost var t := Text(leaf);
      if leaf.Leaf? {
        LeafText(leaf);
        bufIn, bufLen := Chars(leaf.data), |leaf.data|;
        bufPtr := Some(currentPos - leafPos);
        WindowOk(root, leafPos, leaf, currentPos, leafPos, |t|);
        assert t[0..|t|] == t;
      } else {
        Refill(leaf);
      }
    }

    /** The part of `_S_setbuf` for function and substring nodes. */
    method Refill(leaf: Rep<C>)
      requires Ok(root) && CacheOk(root, turns, pathEnd, leafIndex, pathDirections, leafPos) &&
        tmpBuf.Length == ITERATOR_BUF_LEN
      requires leaf == pathEnd[leafIndex] && (leaf.Function? || leaf.Substring?) &&
        leafPos <= currentPos < leafPos + Size(leaf)
      modifies this`bufIn, this`bufLen, this`bufPtr, tmpBuf
      ensures Valid() && bufPtr.Some? && Filled() && RopeRep.Valid(root) && currentPos < Size(root)
      ensures tmpBuf[..] == Refilled(root, currentPos, old(tmpBuf[..]))
    {
      hide CacheOk, NodeAt, StartAt, IsPath, Text, RopeRep.Valid, Bit, BufferOk, BufStart, BufLen, Produce, Refilled;
      CacheFacts(root, turns, pathEnd, leafIndex, pathDirections, leafPos);
      LeafIs(tmpBuf[..]);
      var start, len := Window(leafPos, Size(leaf), currentPos);
      WindowOk(root, leafPos, leaf, currentPos, start, len);
      UseTmp(Produce(leaf, start - leafPos, len), start);
    }

    /** The small buffer, filled with the text from `start` on, is the buffer. */
    method UseTmp(s: seq<C>, start: nat)
      requires Ok(root) && CacheOk(root, turns, pathEnd, leafIndex, pathDirections, leafPos)
      requires tmpBuf.Length == ITERATOR_BUF_LEN >= |s| && start <= currentPos < start + |s| && currentPos < Size(root)
      requires !pathEnd[leafIndex].Concat?
      requires BufferOk(root, leafPos, Size(pathEnd[leafIndex]), currentPos, s, currentPos - start)
      modifies this`bufIn, this`bufLen, this`bufPtr, tmpBuf
      ensures Valid() && bufIn == Tmp(tmpBuf) && bufLen == |s| && bufPtr == Some(currentPos - start)
      ensures tmpBuf[..] == s + old(tmpBuf[..])[|s|..]
    {
      hide CacheOk, RopeRep.Valid, Text, BufferOk;
      CacheFacts(root, turns, pathEnd, leafIndex, pathDirections, leafPos);
      FillTmp(s);
      assert tmpBuf[..|s|] == s;
      bufIn, bufLen := Tmp(tmpBuf), |s|;
      bufPtr := Some(currentPos - start);
    }

    /** What a refill for the leaf at hand comes to. */
    lemma LeafIs(was: seq<C>)
      requires Ok(root) && CacheOk(root, turns, pathEnd, leafIndex, pathDirections, leafPos) &&
        |was| == ITERATOR_BUF_LEN
      requires !pathEnd[leafIndex].Concat? && leafPos <= currentPos < leafPos + Size(pathEnd[leafIndex])
      ensures RopeRep.Valid(root) && currentPos < Size(root)
      ensures RopeRep.Valid(pathEnd[leafIndex])
      ensures var leaf := pathEnd[leafIndex];
              if leaf.Leaf? then Refilled(root, currentPos, was) == was
              else
                var start, len := BufStart(leafPos, Size(leaf), currentPos), BufLen(leafPos, Size(leaf), currentPos);
                Refilled(root, currentPos, was) == Produce(leaf, start - leafPos, len) + was[len..]
    {
      hide NodeAt, StartAt, IsPath, Text, RopeRep.Valid, Bit, BufStart, BufLen, Refilled;
      CacheFacts(root, turns, pathEnd, leafIndex, pathDirections, leafPos);
      CachedLeaf(root, turns, pathEnd, leafIndex, pathDirections, leafPos);
      LeafFound(root, turns, currentPos);
      RefilledIs(root, currentPos, was);
    }

    /** The stretch of a leaf that the small buffer is filled with: the whole of it if it is that short; otherwise it
        begins with the leaf as far as that reaches the position, and else three characters before the position, or
        earlier to end with the leaf. */
    static method Window(leafPos: nat, leafSize: nat, pos: nat) returns (start: nat, len: nat)
      requires leafPos <= pos < leafPos + leafSize
      ensures start == BufStart(leafPos, leafSize, pos) && len == BufLen(leafPos, leafSize, pos)
      ensures len == 15 || (len == leafSize && start == leafPos)
      ensures start > leafPos ==> pos >= leafPos + 15
      ensures start > leafPos ==> pos - start == 3 || (pos - start > 3 && start + len == leafPos + leafSize)
      ensures pos >= leafPos + 15 ==> start > leafPos
    {
      len, start := ITERATOR_BUF_LEN, leafPos;
      var leafEnd := leafPos + leafSize;
      if start + len <= pos {
        start := pos - len / 4;
        if start + len > leafEnd {
          start := leafEnd - len;
        }
      }
      if start + len > leafEnd {
        len := leafEnd - start;
      }
    }

    /** The character producer writes into the small buffer. */
    method FillTmp(s: seq<C>)
      requires |s| <= tmpBuf.Length
      modifies tmpBuf
      ensures tmpBuf[..] == s + old(tmpBuf[|s|..])
    {
      for i := 0 to |s|
        invariant tmpBuf[..i] == s[..i] && tmpBuf[i..] == old(tmpBuf[i..])
      {
        tmpBuf[i] := s[i];
        assert tmpBuf[..i + 1] == tmpBuf[..i] + [s[i]];
      }
    }

    /** Copies the last nodes of a path into the cache. */
    method KeepTail(path: seq<Rep<C>>)
      requires |path| > 0 && |pathEnd| == PATH_CACHE_LEN
      modifies this`pathEnd, this`leafIndex
      ensures |pathEnd| == PATH_CACHE_LEN && leafIndex == if |path| < PATH_CACHE_LEN then |path| - 1
        else PATH_CACHE_LEN - 1
      ensures forall k :: 0 <= k <= leafIndex ==> pathEnd[k] == path[|path| - 1 - leafIndex + k]
    {
      var j := if |path| < PATH_CACHE_LEN then 0 else |path| - PATH_CACHE_LEN;
      ghost var from := j;
      var i := -1;
      while j < |path|
        invariant from <= j <= |path| && i + 1 == j - from && |pathEnd| == PATH_CACHE_LEN
        invariant forall k :: 0 <= k <= i ==> pathEnd[k] == path[from + k]
      {
        i := i + 1;
        pathEnd := pathEnd[i := path[j]];
        j := j + 1;
      }
      leafIndex := i;
    }

    /** The leaf is the root. */
    ghost predicate InRoot()
      reads this
    {
      leafPos == 0 && leafIndex == 0 && |pathEnd| > 0 && pathEnd[0] == root
    }

    /** `_S_setcache`; `cString` is the flattened text that the root may hold. */
    method SetCache(cString: Option<seq<C>>)
      requires Ok(root) && currentPos <= Size(root) && |pathEnd| == PATH_CACHE_LEN && tmpBuf.Length == ITERATOR_BUF_LEN
      requires cString.Some? ==> cString.value == Text(root)
      modifies this, tmpBuf
      ensures Valid() && OnItsOwn() && currentPos == old(currentPos) && root == old(root)
      ensures bufPtr.Some? <==> currentPos < Size(root)
      ensures currentPos < Size(root) && cString.None? && !root.Concat? && !root.Leaf? ==> Filled() && InRoot()
      ensures RopeRep.Valid(root) && |old(tmpBuf[..])| == ITERATOR_BUF_LEN
      ensures tmpBuf[..] == if currentPos < Size(root) && cString.None?
        then Refilled(root, currentPos, old(tmpBuf[..])) else old(tmpBuf[..])
    {
      hide CacheOk, NodeAt, StartAt, IsPath, Text, RopeRep.Valid, Bit, BufferOk, BitsOk, CachedAt, Refilled;
      if currentPos >= Size(root) {
        bufPtr := None;
        return;
      }
      if cString.Some? {
        RootAsLeaf(cString.value);
        return;
      }
      FindLeaf();
    }

    /** The flattened root is the buffer. */
    method RootAsLeaf(text: seq<C>)
      requires Ok(root) && currentPos < Size(root) && |pathEnd| == PATH_CACHE_LEN && tmpBuf.Length == ITERATOR_BUF_LEN
      requires text == Text(root)
      modifies this
      ensures Valid() && bufPtr.Some? && bufIn.Chars? && currentPos == old(currentPos) && root == old(root)
    {
      hide CacheOk, NodeAt, StartAt, IsPath, Text, RopeRep.Valid, Bit, BufferOk, BitsOk, CachedAt;
      RootCached(root, pathEnd[0 := root], pathDirections);
      CacheFacts(root, [], pathEnd[0 := root], 0, pathDirections, 0);
      bufIn, bufLen := Chars(text), |text|;
      bufPtr := Some(currentPos);
      pathEnd, leafIndex, leafPos := pathEnd[0 := root], 0, 0;
      turns := [];
      WindowOk(root, 0, root, currentPos, 0, |Text(root)|);
      assert Text(root)[0..|Text(root)|] == Text(root);
    }

    /** The leaf is looked for from the root. */
    method FindLeaf()
      requires Ok(root) && currentPos < Size(root) && |pathEnd| == PATH_CACHE_LEN && tmpBuf.Length == ITERATOR_BUF_LEN
      modifies this, tmpBuf
      ensures Valid() && OnItsOwn() && bufPtr.Some? && currentPos == old(currentPos) && root == old(root)
      ensures !root.Concat? && !root.Leaf? ==> Filled() && InRoot()
      ensures RopeRep.Valid(root) && |old(tmpBuf[..])| == ITERATOR_BUF_LEN &&
        tmpBuf[..] == Refilled(root, currentPos, old(tmpBuf[..]))
    {
      hide CacheOk, NodeAt, StartAt, IsPath, Text, RopeRep.Valid, Bit, BufferOk, BitsOk, CachedAt, BufStart, BufLen,
        Descent, Ok, Refilled;
      var path, start, dirs; ghost var t;
      path, start, dirs, t := Descend(root, currentPos);
      leafPos := start;
      KeepTail(path);
      pathDirections := dirs;
      turns := t;
      DescentCached(root, t, path, path[|t|], start, dirs, pathEnd, leafIndex);
      if !root.Concat? {
        NoDescent(root, t, path, path[|t|], start, dirs);
      }
      SetBuf();
    }

    /** `_S_setcache_for_incr`: on to the text after the buffer, by way of the cached path
        where that reaches far enough up. */
    method SetCacheForIncr(cString: Option<seq<C>>)
      requires Ok(root) && currentPos <= Size(root) && (cString.Some? ==> cString.value == Text(root))
      requires CacheOk(root, turns, pathEnd, leafIndex, pathDirections, leafPos)
      requires leafPos <= currentPos <= leafPos + Size(pathEnd[leafIndex])
      requires pathEnd[leafIndex].Concat? ==> currentPos == Size(root) && turns == []
      requires tmpBuf.Length == ITERATOR_BUF_LEN
      modifies this, tmpBuf
      ensures Valid() && OnItsOwn() && currentPos == old(currentPos) && root == old(root)
      ensures bufPtr.Some? <==> currentPos < Size(root)
      ensures old(currentPos - leafPos < Size(pathEnd[leafIndex]) && !pathEnd[leafIndex].Leaf?) ==>
        leafPos == old(leafPos) && pathEnd == old(pathEnd) && leafIndex == old(leafIndex) && Filled()
      ensures RopeRep.Valid(root) && old(leafIndex < |pathEnd|) && |old(tmpBuf[..])| == ITERATOR_BUF_LEN
      ensures tmpBuf[..] == if old(Looks(currentPos, cString)) then Refilled(root, currentPos, old(tmpBuf[..]))
        else old(tmpBuf[..])
    {
      hide CacheOk, NodeAt, StartAt, IsPath, Text, RopeRep.Valid, Bit, BufferOk, BitsOk, CachedAt, Shift, Refilled;
      CacheFacts(root, turns, pathEnd, leafIndex, pathDirections, leafPos);
      if currentPos - leafPos < Size(pathEnd[leafIndex]) {
        SetBuf();
        return;
      }
      var index, start: nat, dirs := leafIndex - 1, leafPos, pathDirections;
      ghost var t := turns;
      while index >= 0 && LowBit(dirs)
        invariant -1 <= index < PATH_CACHE_LEN - 1
        invariant CacheOk(root, t, pathEnd, index + 1, dirs, start)
        invariant start + Size(pathEnd[index + 1]) == currentPos
        invariant LeavesCache(pathDirections, leafIndex - 1) == LeavesCache(dirs, index)
        modifies {}
      {
        CachePop(root, t, pathEnd, index + 1, dirs, start);
        t := t[..|t| - 1];
        CacheSplit(root, t, pathEnd, index, dirs >> 1, start - Size(pathEnd[index].left));
        start := start - Size(pathEnd[index].left);
        dirs := dirs >> 1;
        index := index - 1;
      }
      assert tmpBuf[..] == old(tmpBuf[..]);
      if index < 0 {
        SetCache(cString);
        return;
      }
      CachePop(root, t, pathEnd, index + 1, dirs, start);
      t := t[..|t| - 1];
      CacheSplit(root, t, pathEnd, index, dirs >> 1, start);
      CachePush(root, t, pathEnd, index, dirs >> 1, start, true);
      ShiftedTurn(dirs);
      t := t + [true];
      var node := pathEnd[index];
      start := start + Size(node.left);
      node := node.right;
      index := index + 1;
      pathEnd := pathEnd[index := node];
      dirs := dirs | 1;
      assert tmpBuf[..] == old(tmpBuf[..]);
      LeftmostBelow(index, dirs, start, t);
    }

    /** The last part of `_S_setcache_for_incr`: down the left children of the node in slot
        `from`, dropping the oldest slot when the cache is full. */
    method LeftmostBelow(from: nat, dirs0: bv8, start: nat, ghost t0: seq<bool>)
      requires Ok(root) && currentPos == start && currentPos < Size(root)
      requires CacheOk(root, t0, pathEnd, from, dirs0, start) && tmpBuf.Length == ITERATOR_BUF_LEN
      modifies this, tmpBuf
      ensures Valid() && OnItsOwn() && currentPos == old(currentPos) && root == old(root) && bufPtr.Some?
      ensures RopeRep.Valid(root) && |old(tmpBuf[..])| == ITERATOR_BUF_LEN &&
        tmpBuf[..] == Refilled(root, currentPos, old(tmpBuf[..]))
    {
      hide CacheOk, NodeAt, StartAt, IsPath, Text, RopeRep.Valid, Bit, BufferOk, BitsOk, CachedAt, Refilled;
      CacheFacts(root, t0, pathEnd, from, dirs0, start);
      var index: nat, dirs, node := from, dirs0, pathEnd[from];
      ghost var t := t0;
      while node.Concat?
        invariant index < PATH_CACHE_LEN == |pathEnd| && node == pathEnd[index]
        invariant CacheOk(root, t, pathEnd, index, dirs, start)
        modifies this`pathEnd
        decreases node
      {
        CachePush(root, t, pathEnd, index, dirs, start, false);
        assert pathEnd[1..] + [node.left] == (pathEnd[1..] + [node])[PATH_CACHE_LEN - 1 := node.left];
        t := t + [false];
        index := index + 1;
        if index == PATH_CACHE_LEN {
          pathEnd := pathEnd[1..] + [node];
          index := index - 1;
        }
        node := node.left;
        pathEnd := pathEnd[index := node];
        dirs := dirs << 1;
      }
      leafIndex := index;
      leafPos := start;
      pathDirections := dirs;
      turns := t;
      CacheFacts(root, turns, pathEnd, leafIndex, pathDirections, leafPos);
      assert tmpBuf[..] == old(tmpBuf[..]);
      SetBuf();
    }

    /** `_M_incr`. */
    method Incr(n: nat, cString: Option<seq<C>>)
      requires Valid() && currentPos + n <= Size(root) && (cString.Some? ==> cString.value == Text(root))
      modifies this, tmpBuf
      ensures Valid() && currentPos == old(currentPos) + n && root == old(root) && (old(OnItsOwn()) ==> OnItsOwn())
      ensures tmpBuf[..] == old(TmpAfterIncr(n, cString))
      ensures old(bufPtr.Some? && bufPtr.value + n == bufLen && currentPos + n < leafPos + Size(pathEnd[leafIndex]) &&
        !pathEnd[leafIndex].Leaf?) ==>
        leafPos == old(leafPos) && pathEnd == old(pathEnd) && leafIndex == old(leafIndex) && Filled()
    {
      hide CacheOk, NodeAt, StartAt, IsPath, Text, RopeRep.Valid, Bit, BitsOk, CachedAt, Shift, BufferOk, BufStart,
        BufLen, Ok, Refilled, LeavesCache;
      if bufPtr.Some? {
        BufferEnd();
        var charsLeft := bufLen - bufPtr.value;
        if charsLeft > n {
          MoveWithin(n);
        } else if charsLeft == n {
          MoveWithin(n);
          SetCacheForIncr(cString);
        } else {
          currentPos := currentPos + n;
          bufPtr := None;
        }
      } else {
        currentPos := currentPos + n;
      }
    }

    lemma BufferEnd()
      requires Valid() && bufPtr.Some?
      ensures BufferThere() && leafIndex < |pathEnd| && leafPos <= currentPos
      ensures currentPos + (bufLen - bufPtr.value) <= leafPos + Size(pathEnd[leafIndex])
      ensures pathEnd[leafIndex].Concat? ==> currentPos + (bufLen - bufPtr.value) == Size(root) && turns == []
    {
      hide NodeAt, StartAt, IsPath, Text, RopeRep.Valid, Bit, BitsOk, CachedAt, Shift;
      CacheFacts(root, turns, pathEnd, leafIndex, pathDirections, leafPos);
    }

    /** The position and the pointer move together, up to the end of the buffer. */
    method MoveWithin(n: nat)
      requires Valid() && bufPtr.Some? && bufPtr.value + n <= bufLen && currentPos + n <= Size(root)
      modifies this`currentPos, this`bufPtr
      ensures currentPos == old(currentPos) + n && bufPtr == Some(old(bufPtr.value) + n) && Cached() && Ok(root)
    {
      hide CacheOk, NodeAt, StartAt, IsPath, Text, RopeRep.Valid, Bit, BitsOk, CachedAt, Shift, Ok;
      currentPos := currentPos + n;
      bufPtr := Some(bufPtr.value + n);
    }

    /** `_M_decr`. */
    method Decr(n: nat)
      requires Valid() && n <= currentPos
      modifies this
      ensures Valid() && currentPos == old(currentPos) - n && root == old(root) && (old(OnItsOwn()) ==> OnItsOwn())
    {
      hide CacheOk, NodeAt, StartAt, IsPath, Text, RopeRep.Valid, Bit, BitsOk, CachedAt, Shift;
      if bufPtr.Some? {
        var charsLeft := bufPtr.value;
        if charsLeft >= n {
          bufPtr := Some(bufPtr.value - n);
        } else {
          bufPtr := None;
        }
      }
      currentPos := currentPos - n;
    }

    /** `operator++`. */
    method Next(cString: Option<seq<C>>)
      requires Valid() && currentPos < Size(root) && (cString.Some? ==> cString.value == Text(root))
      modifies this, tmpBuf
      ensures Valid() && currentPos == old(currentPos) + 1 && root == old(root) && (old(OnItsOwn()) ==> OnItsOwn())
      ensures tmpBuf[..] == old(TmpAfterIncr(1, cString))
    {
      hide CacheOk, NodeAt, StartAt, IsPath, Text, RopeRep.Valid, Bit, BitsOk, CachedAt, Shift;
      if bufPtr.Some? && bufPtr.value + 1 < bufLen {
        bufPtr := Some(bufPtr.value + 1);
        currentPos := currentPos + 1;
      } else {
        Incr(1, cString);
      }
    }

    /** The character that a pointer into the buffer denotes. */
    method CharAt(i: nat) returns (c: C)
      requires BufferThere() && i < bufLen
      ensures c == Buffer()[i]
    {
      match bufIn
      case Chars(s) => c := s[i];
      case Tmp(a) => c := a[i];
    }

    /** `operator*`: the character that plain indexing of the rope gives. */
    method Deref(cString: Option<seq<C>>) returns (c: C)
      requires Valid() && currentPos < Size(root) && (cString.Some? ==> cString.value == Text(root))
      modifies this, tmpBuf
      ensures Valid() && currentPos == old(currentPos) && root == old(root) && bufPtr.Some? &&
        (old(OnItsOwn()) ==> OnItsOwn())
      ensures currentPos < |Text(root)| && c == Text(root)[currentPos]
      ensures tmpBuf[..] == old(TmpAfterDeref(cString))
      ensures old(bufPtr).None? && cString.None? && !root.Concat? && !root.Leaf? ==> Filled() && InRoot()
    {
      hide CacheOk, NodeAt, StartAt, IsPath, Text, RopeRep.Valid, Bit, BitsOk, CachedAt, Shift, BufferOk, BufStart,
        BufLen, Refilled;
      if bufPtr.None? {
        SetCache(cString);
      }
      Here();
      c := CharAt(bufPtr.value);
    }

    /** The character that the pointer into a valid buffer denotes. */
    lemma Here()
      requires Valid() && bufPtr.Some?
      ensures BufferThere() && bufPtr.value < bufLen && currentPos < |Text(root)|
      ensures Buffer()[bufPtr.value] == Text(root)[currentPos]
    {
      hide CacheOk, Ok, Text, BufferOk;
      BufferText();
      var p := bufPtr.value;
      assert Buffer()[p] == Text(root)[currentPos - p..currentPos - p + bufLen][p];
    }

    /** The exact condition for an iterator that is left alone to stay right: its buffer lies among characters, or the
        part of the small buffer that it looks at has not been filled with others. */
    twostate lemma StaysRight()
      requires old(Valid()) && unchanged(this) && old(bufPtr.Some?)
      ensures Valid() <==> (bufIn.Tmp? ==> bufIn.tmp[..bufLen] == old(bufIn.tmp[..bufLen]))
    {
      hide CacheOk, Ok;
      assert old(Buffer()) == Text(root)[currentPos - bufPtr.value..currentPos - bufPtr.value + bufLen];
      if Valid() {
        assert Buffer() == Text(root)[currentPos - bufPtr.value..currentPos - bufPtr.value + bufLen];
      }
    }
  }

  /** `Incr` beside an iterator that may be a copy: the copy goes wrong if and only if it looks into the small buffer,
      that is filled, and the text to come differs from the copy's. */
  method IncrBeside<C(0)>(it: RopeIterator<C>, jt: RopeIterator<C>, n: nat, cString: Option<seq<C>>)
    requires it != jt && it.Valid() && jt.Valid()
    requires it.currentPos + n <= Size(it.root) && (cString.Some? ==> cString.value == Text(it.root))
    modifies it, it.tmpBuf
    ensures it.Valid() && it.currentPos == old(it.currentPos) + n && it.root == old(it.root)
    ensures !jt.Valid() <==> old(jt.LooksInto(it.tmpBuf) && it.Refills(n, cString) &&
                                 !Agree(FillText(it.root, it.currentPos + n), jt.Buffer()))
  {
    hide CacheOk, BufferOk, Text, FillText, Refilled, RopeRep.Valid;
    if jt.LooksInto(it.tmpBuf) && it.Refills(n, cString) {
      RefilledAgrees(it.root, it.currentPos + n, it.tmpBuf[..], jt.bufLen);
    }
    it.Incr(n, cString);
    StaysBeside(jt);
  }

  /** `Deref` beside such an iterator. */
  method DerefBeside<C(0)>(it: RopeIterator<C>, jt: RopeIterator<C>, cString: Option<seq<C>>) returns (c: C)
    requires it != jt && it.Valid() && jt.Valid()
    requires it.currentPos < Size(it.root) && (cString.Some? ==> cString.value == Text(it.root))
    modifies it, it.tmpBuf
    ensures it.Valid() && it.currentPos == old(it.currentPos) < |Text(it.root)| && c == Text(it.root)[it.currentPos]
    ensures !jt.Valid() <==> old(jt.LooksInto(it.tmpBuf) && it.bufPtr.None? && cString.None? &&
                                 !Agree(FillText(it.root, it.currentPos), jt.Buffer()))
  {
    hide CacheOk, BufferOk, Text, FillText, Refilled, RopeRep.Valid;
    if jt.LooksInto(it.tmpBuf) && it.bufPtr.None? && cString.None? {
      RefilledAgrees(it.root, it.currentPos, it.tmpBuf[..], jt.bufLen);
    }
    c := it.Deref(cString);
    StaysBeside(jt);
  }

  /** Assignment beside such an iterator, which may be the one that is assigned. */
  method AssignBeside<C(0)>(it: RopeIterator<C>, x: RopeIterator<C>, jt: RopeIterator<C>)
    requires it != jt && it.Valid() && x.Valid() && jt.Valid()
    modifies it, it.tmpBuf
    ensures !jt.Valid() <==> old(jt.LooksInto(it.tmpBuf) && x.bufPtr.Some? && x.tmpBuf[..jt.bufLen] != jt.Buffer())
  {
    hide CacheOk, BufferOk, Text, RopeRep.Valid;
    it.Assign(x);
    StaysBeside(jt);
  }

  twostate lemma StaysBeside<C(0)>(jt: RopeIterator<C>)
    requires old(jt.Valid()) && unchanged(jt)
    ensures jt.Valid() <==>
      (jt.bufPtr.Some? && jt.bufIn.Tmp? ==> jt.bufIn.tmp[..jt.bufLen] == old(jt.bufIn.tmp[..jt.bufLen]))
  {
    if jt.bufPtr.Some? {
      jt.StaysRight();
    }
  }

  /** An iterator dereferenced at the start of a function node. */
  method Started<C(0)>(contents: seq<C>) returns (it: RopeIterator<C>)
    requires |contents| >= ITERATOR_BUF_LEN
    ensures fresh(it) && fresh(it.tmpBuf) && it.Valid() && it.root == Function(contents) && it.currentPos == 0
    ensures it.bufIn == Tmp(it.tmpBuf) && it.bufLen == ITERATOR_BUF_LEN && it.bufPtr == Some(0)
    ensures it.InRoot()
  {
    hide Text, CacheOk, BufferOk;
    it := new RopeIterator<C>(Function(contents), 0);
    FunctionText(contents);
    var first := it.Deref(None);
  }

  /** Moved on by the length of its small buffer, it has filled that anew, from place 12 on. */
  method MovedOn<C(0)>(it: RopeIterator<C>, contents: seq<C>)
    requires it.Valid() && it.root == Function(contents) && it.currentPos == 0 && |contents| >= 2 * ITERATOR_BUF_LEN
    requires it.bufIn == Tmp(it.tmpBuf) && it.bufLen == ITERATOR_BUF_LEN && it.bufPtr == Some(0) && it.InRoot()
    modifies it, it.tmpBuf
    ensures it.tmpBuf.Length == ITERATOR_BUF_LEN && it.tmpBuf[0] == contents[12]
  {
    hide Text, CacheOk;
    FunctionText(contents);
    it.Incr(ITERATOR_BUF_LEN, None);
    assert it.Buffer()[0] == Text(it.root)[12];
  }

  /** A copy goes wrong: made after its original was dereferenced at the start of a function node, it looks into the
      original's small buffer, which is filled anew when the original has moved on by the length of that buffer. */
  method CopyGoesWrong<C(0, ==)>(contents: seq<C>) returns (jt: RopeIterator<C>, c: C)
    requires |contents| >= 2 * ITERATOR_BUF_LEN && contents[0] != contents[12]
    ensures fresh(jt) && jt.root == Function(contents) && jt.currentPos == 0 && jt.bufPtr == Some(0) && jt.BufferThere()
    ensures jt.bufLen > 0 && c == jt.Buffer()[0] && c != Text(jt.root)[0] && !jt.Valid()
  {
    hide Text, CacheOk;
    FunctionText(contents);
    var it := Started(contents);
    jt := new RopeIterator<C>.Copy(it);
    MovedOn(it, contents);
    c := jt.CharAt(0);
  }

  lemma FunctionText<C>(contents: seq<C>)
    requires contents != []
    ensures Ok(Function(contents)) && Text(Function(contents)) == contents && Size(Function(contents)) == |contents|
  {
  }
}
