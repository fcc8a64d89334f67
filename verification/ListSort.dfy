/** `list::sort`: merging runs of doubled length in a counter of 64 lists. */
module ListSort {
  import opened Orders
  import opened Ranges
  import opened Powers
  import opened ListNodes
  import opened Lists

  // ---------- lists side by side ----------

  /** Valid lists that share no node, all nodes being of `pool`. */
  ghost predicate Family<T(!new, 0)>(lists: seq<List<T>>, pool: set<ListNode<T>>)
    reads lists, pool
  {
    (forall i, j :: 0 <= i < j < |lists| ==> lists[i] != lists[j]) &&
    (forall i :: 0 <= i < |lists| ==> InPool(lists[i], pool)) &&
    (forall i, j :: 0 <= i < |lists| && 0 <= j < |lists| && i != j ==> Apart(lists[i].ring, lists[j].ring))
  }

  ghost predicate InPool<T(!new, 0)>(x: List<T>, pool: set<ListNode<T>>)
    reads x, pool
  {
    OfPool(x.ring, pool) && x.Valid()
  }

  ghost predicate OfPool<T>(ring: seq<ListNode<T>>, pool: set<ListNode<T>>) {
    forall i :: 0 <= i < |ring| ==> ring[i] in pool
  }

  /** What each list holds. */
  ghost function Contents<T(!new, 0)>(lists: seq<List<T>>): (c: seq<seq<ListNode<T>>>)
    reads lists
    ensures |c| == |lists| && forall i :: 0 <= i < |lists| ==> c[i] == lists[i].Nodes()
  {
    if lists == [] then [] else Contents(lists[..|lists| - 1]) + [lists[|lists| - 1].Nodes()]
  }

  /** What an operation on two of the lists does not touch. */
  twostate predicate Touched<T(!new, 0)>(lists: seq<List<T>>, pool: set<ListNode<T>>, a: nat, b: nat)
    requires a < |lists| && b < |lists|
    reads lists, pool
  {
    (forall k :: 0 <= k < |lists| && k != a && k != b ==>
      lists[k].ring == old(lists[k].ring) && lists[k].node == old(lists[k].node)) &&
    (forall n :: n in pool && n !in old(lists[a].ring) && n !in old(lists[b].ring) ==>
      n.next == old(n.next) && n.prev == old(n.prev)) &&
    Among(lists[a].ring, old(lists[a].ring), old(lists[b].ring)) &&
    Among(lists[b].ring, old(lists[a].ring), old(lists[b].ring))
  }

  ghost predicate BothValid<T(!new, 0)>(x: List<T>, y: List<T>)
    reads x, y, x.ring, y.ring
  {
    x.Valid() && y.Valid()
  }

  twostate lemma ListKept<T(!new, 0)>(lists: seq<List<T>>, new pool: set<ListNode<T>>, new a: nat, new b: nat,
                            new k: nat)
    requires old(allocated(pool)) && a < |lists| && b < |lists| && k < |lists| && a != b && old(Family(lists, pool)) &&
      Touched(lists, pool, a, b)
    requires BothValid(lists[a], lists[b])
    ensures InPool(lists[k], pool)
  {
    hide Ring;
    assert old(InPool(lists[a], pool) && InPool(lists[b], pool) && InPool(lists[k], pool));
    if k != a && k != b {
      var s := lists[k].ring;
      assert old(Apart(lists[k].ring, lists[a].ring)) && old(Apart(lists[k].ring, lists[b].ring));
      forall n | n in s
        ensures n.next == old(n.next) && n.prev == old(n.prev)
      {
      }
      RingUnchanged(s);
    } else {
      AmongPool(lists[k].ring, old(lists[a].ring), old(lists[b].ring), pool);
    }
  }

  twostate lemma PairKept<T(!new, 0)>(lists: seq<List<T>>, new pool: set<ListNode<T>>, new a: nat, new b: nat,
                            new i: nat, new j: nat)
    requires old(allocated(pool)) && a < |lists| && b < |lists| && a != b && old(Family(lists, pool)) &&
      Touched(lists, pool, a, b)
    requires Apart(lists[a].ring, lists[b].ring) && i < |lists| && j < |lists| && i != j
    ensures Apart(lists[i].ring, lists[j].ring)
  {
    assert old(Apart(lists[i].ring, lists[j].ring));
    if i != a && i != b {
      assert old(Apart(lists[i].ring, lists[a].ring)) && old(Apart(lists[i].ring, lists[b].ring));
    } else if j != a && j != b {
      assert old(Apart(lists[a].ring, lists[j].ring)) && old(Apart(lists[b].ring, lists[j].ring));
    }
  }

  twostate lemma ListsKept<T(!new, 0)>(lists: seq<List<T>>, new pool: set<ListNode<T>>, new a: nat, new b: nat)
    requires old(allocated(pool)) && a < |lists| && b < |lists| && a != b && old(Family(lists, pool)) &&
      Touched(lists, pool, a, b)
    requires BothValid(lists[a], lists[b])
    ensures forall k :: 0 <= k < |lists| ==> InPool(lists[k], pool)
  {
    forall k | 0 <= k < |lists| {
      ListKept(lists, pool, a, b, k);
    }
  }

  twostate lemma PairsKept<T(!new, 0)>(lists: seq<List<T>>, new pool: set<ListNode<T>>, new a: nat, new b: nat)
    requires old(allocated(pool)) && a < |lists| && b < |lists| && a != b && old(Family(lists, pool)) &&
      Touched(lists, pool, a, b)
    requires Apart(lists[a].ring, lists[b].ring)
    ensures forall i, j :: 0 <= i < |lists| && 0 <= j < |lists| && i != j ==> Apart(lists[i].ring, lists[j].ring)
  {
    forall i, j | 0 <= i < |lists| && 0 <= j < |lists| && i != j {
      PairKept(lists, pool, a, b, i, j);
    }
  }

  twostate lemma ContentsKept<T(!new, 0)>(lists: seq<List<T>>, new pool: set<ListNode<T>>, new a: nat, new b: nat)
    requires old(allocated(pool)) && a < |lists| && b < |lists| && a != b && Touched(lists, pool, a, b)
    ensures Contents(lists) == old(Contents(lists))[a := lists[a].Nodes()][b := lists[b].Nodes()]
  {
  }

  twostate lemma RingUnchanged<T>(s: seq<ListNode<T>>)
    requires old(Ring(s)) && forall n :: n in s ==> n.next == old(n.next) && n.prev == old(n.prev)
    ensures Ring(s)
  {
    forall i | 0 <= i < |s| - 1
      ensures Linked(s[i], s[i + 1])
    {
      assert old(Linked(s[i], s[i + 1])) && s[i] in s && s[i + 1] in s;
    }
    assert s[0] in s && s[|s| - 1] in s;
  }

  lemma AmongPool<T>(s: seq<ListNode<T>>, x: seq<ListNode<T>>, y: seq<ListNode<T>>, pool: set<ListNode<T>>)
    requires Among(s, x, y) && OfPool(x, pool) && OfPool(y, pool)
    ensures OfPool(s, pool)
  {
    forall i | 0 <= i < |s|
      ensures s[i] in pool
    {
      assert s[i] in s;
    }
  }

  ghost function MergedAt<T>(c: seq<seq<ListNode<T>>>, a: nat, b: nat, less: (T, T) -> bool): seq<seq<ListNode<T>>>
    requires a < |c| && b < |c|
  {
    c[a := MergeNodes(less, c[a], c[b])][b := []]
  }

  ghost function SwappedAt<T>(c: seq<seq<ListNode<T>>>, a: nat, b: nat): seq<seq<ListNode<T>>>
    requires a < |c| && b < |c|
  {
    c[a := c[b]][b := c[a]]
  }

  ghost function FrontMoved<T>(c: seq<seq<ListNode<T>>>, a: nat, b: nat): seq<seq<ListNode<T>>>
    requires a < |c| && b < |c| && c[b] != []
  {
    c[a := [c[b][0]] + c[a]][b := c[b][1..]]
  }

  /** `merge` of one of the lists into another. */
  method MergeLists<T(!new, 0)>(lists: seq<List<T>>, ghost pool: set<ListNode<T>>, a: nat, b: nat, less: (T, T) -> bool)
    requires a < |lists| && b < |lists| && a != b && Family(lists, pool)
    modifies lists, pool
    ensures Family(lists, pool)
    ensures Contents(lists) == MergedAt(old(Contents(lists)), a, b, less)
  {
    lists[a].MergeFrom(lists[b], less);
    ListsKept(lists, pool, a, b);
    PairsKept(lists, pool, a, b);
    ContentsKept(lists, pool, a, b);
  }

  /** `swap`. */
  method SwapLists<T(!new, 0)>(lists: seq<List<T>>, ghost pool: set<ListNode<T>>, a: nat, b: nat)
    requires a < |lists| && b < |lists| && a != b && Family(lists, pool)
    modifies lists, pool
    ensures Family(lists, pool)
    ensures Contents(lists) == SwappedAt(old(Contents(lists)), a, b)
  {
    lists[a].Swap(lists[b]);
    ListsKept(lists, pool, a, b);
    PairsKept(lists, pool, a, b);
    ContentsKept(lists, pool, a, b);
  }

  /** The first node of `y` is moved to the front of `x`. */
  method Front<T(!new, 0)>(x: List<T>, y: List<T>)
    requires x.Valid() && y.Valid() && x != y && Apart(x.ring, y.ring) && y.Nodes() != []
    modifies x`ring, y`ring, x.ring, y.ring
    ensures x.Valid() && y.Valid() && x.node == old(x.node) && y.node == old(y.node) && Apart(x.ring, y.ring)
    ensures x.Nodes() == old([y.Nodes()[0]] + x.Nodes()) && y.Nodes() == old(y.Nodes()[1..])
    ensures Among(x.ring, old(x.ring), old(y.ring)) && Among(y.ring, old(x.ring), old(y.ring))
  {
    hide Ring;
    RingFacts(x.ring);
    RingNext(x.ring, 0);
    RingNext(y.ring, 0);
    x.SpliceOne(x.node.next, y, y.node.next, 1, 1);
  }

  /** The first node of a list is moved to the front of another. */
  method SpliceFirst<T(!new, 0)>(lists: seq<List<T>>, ghost pool: set<ListNode<T>>, a: nat, b: nat)
    requires a < |lists| && b < |lists| && a != b && Family(lists, pool) && Contents(lists)[b] != []
    modifies lists, pool
    ensures Family(lists, pool)
    ensures Contents(lists) == FrontMoved(old(Contents(lists)), a, b)
  {
    hide Ring;
    Front(lists[a], lists[b]);
    ListsKept(lists, pool, a, b);
    PairsKept(lists, pool, a, b);
    ContentsKept(lists, pool, a, b);
  }

  // ---------- the counter ----------

  // The list to sort is at 0, the carry at 1, slot `i` of the counter at `i + 2`.
  const SLOTS: nat := 64

  /** The first `n` slots, the higher ones first. */
  ghost function Gather<T>(c: seq<seq<ListNode<T>>>, n: nat): seq<ListNode<T>>
    requires n + 2 <= |c|
  {
    if n == 0 then [] else c[n + 1] + Gather(c, n - 1)
  }

  lemma {:induction false} GatherSame<T>(c: seq<seq<ListNode<T>>>, d: seq<seq<ListNode<T>>>, n: nat)
    requires n + 2 <= |c| && n + 2 <= |d| && forall j :: 2 <= j < n + 2 ==> c[j] == d[j]
    ensures Gather(c, n) == Gather(d, n)
  {
    if n > 0 {
      GatherSame(c, d, n - 1);
    }
  }

  lemma {:induction false} GatherEmpty<T>(c: seq<seq<ListNode<T>>>, n: nat)
    requires n + 2 <= |c| && forall j :: 2 <= j < n + 2 ==> c[j] == []
    ensures Gather(c, n) == []
  {
    if n > 0 {
      GatherEmpty(c, n - 1);
    }
  }

  /** The lowest slot in use comes last. */
  lemma {:induction false} GatherLast<T>(c: seq<seq<ListNode<T>>>, n: nat, i: nat)
    requires n + 2 <= |c| && i < n && forall j :: 2 <= j < i + 2 ==> c[j] == []
    ensures Gather(c, n) == Gather(c[i + 2 := []], n) + c[i + 2]
  {
    var d := c[i + 2 := []];
    if n == i + 1 {
      GatherEmpty(c, i);
      GatherEmpty(d, i);
    } else {
      GatherLast(c, n - 1, i);
      assert c[n + 1] == d[n + 1];
    }
  }

  /** Slot `i` is empty or holds a sorted run of exactly two to the `i` nodes. */
  ghost predicate Slot<T(!new)>(less: (T, T) -> bool, run: seq<ListNode<T>>, i: nat) {
    run == [] || (|run| == Pow2(i) && Sorted(less, Data(run)))
  }

  ghost predicate Slots<T(!new)>(less: (T, T) -> bool, c: seq<seq<ListNode<T>>>, fill: nat) {
    |c| == SLOTS + 2 && fill <= SLOTS && forall j :: 2 <= j < fill + 2 ==> Slot(less, c[j], j - 2)
  }

  /** Between the rounds of the outer loop. */
  ghost predicate CounterInv<T(!new)>(less: (T, T) -> bool, was: seq<ListNode<T>>, c: seq<seq<ListNode<T>>>,
                               fill: nat) {
    Slots(less, c, fill) && c[1] == [] && (fill > 0 ==> c[fill + 1] != []) &&
    (forall j :: fill + 2 <= j < |c| ==> c[j] == []) && StableNodes(less, was, Gather(c, fill) + c[0])
  }

  /** While the carry moves up: it is a sorted run of two to the `i` nodes, which follow those of the counter. */
  ghost predicate CarryInv<T(!new)>(less: (T, T) -> bool, was: seq<ListNode<T>>, c: seq<seq<ListNode<T>>>, fill: nat,
                             i: nat) {
    Slots(less, c, fill) && i <= fill && |c[1]| == Pow2(i) && Sorted(less, Data(c[1])) &&
    (forall j :: 2 <= j < i + 2 ==> c[j] == []) && (i < fill ==> c[fill + 1] != []) &&
    (forall j :: fill + 2 <= j < |c| ==> c[j] == []) && StableNodes(less, was, Gather(c, fill) + c[1] + c[0])
  }

  lemma CarryStarts<T(!new)>(less: (T, T) -> bool, was: seq<ListNode<T>>, c: seq<seq<ListNode<T>>>, fill: nat)
    requires CounterInv(less, was, c, fill) && c[0] != []
    ensures CarryInv(less, was, FrontMoved(c, 1, 0), fill, 0)
  {
    hide StableNodes;
    var d := FrontMoved(c, 1, 0);
    GatherSame(c, d, fill);
    assert d[1] == [c[0][0]];
    assert Gather(c, fill) + c[0] == Gather(d, fill) + d[1] + d[0];
  }

  lemma CarryFits<T(!new)>(less: (T, T) -> bool, was: seq<ListNode<T>>, c: seq<seq<ListNode<T>>>, fill: nat, i: nat)
    requires CarryInv(less, was, c, fill, i) && |was| < Pow2(SLOTS)
    ensures i < SLOTS
  {
    hide Sorted, Gather;
    assert |was| == |Gather(c, fill) + c[1] + c[0]|;
  }

  /** The slot is merged with the carry, its nodes being the earlier ones. */
  lemma CarryMoves<T(!new)>(less: (T, T) -> bool, was: seq<ListNode<T>>, c: seq<seq<ListNode<T>>>, fill: nat, i: nat)
    requires StrictWeakOrder(less) && CarryInv(less, was, c, fill, i) && i < fill && c[i + 2] != []
    ensures CarryInv(less, was, SwappedAt(MergedAt(c, i + 2, 1, less), 1, i + 2), fill, i + 1)
  {
    hide StableNodes, Sorted, StrictWeakOrder, Data, MergeNodes;
    var d := SwappedAt(MergedAt(c, i + 2, 1, less), 1, i + 2);
    assert Slot(less, c[i + 2], i);
    MergeNodesSorted(less, c[i + 2], c[1]);
    GatherLast(c, fill, i);
    GatherSame(c[i + 2 := []], d, fill);
    MiddleStable(less, was, Gather(d, fill), c[i + 2], c[1], d[1], c[0]);
  }

  lemma MiddleStable<T(!new)>(less: (T, T) -> bool, was: seq<ListNode<T>>, a: seq<ListNode<T>>, x: seq<ListNode<T>>,
                       y: seq<ListNode<T>>,
                              z: seq<ListNode<T>>, b: seq<ListNode<T>>)
    requires StableNodes(less, was, a + x + y + b) && StableNodes(less, x + y, z)
    ensures StableNodes(less, was, a + z + b)
  {
    hide StableNodes;
    StableNodesRefl(less, a);
    StableNodesRefl(less, b);
    StableNodesConcat(less, a, x + y, a, z);
    StableNodesConcat(less, a + (x + y), b, a + z, b);
    assert a + (x + y) + b == a + x + y + b;
    StableNodesTrans(less, was, a + x + y + b, a + z + b);
  }

  /** The carry is left in the first free slot. */
  lemma CarryRests<T(!new)>(less: (T, T) -> bool, was: seq<ListNode<T>>, c: seq<seq<ListNode<T>>>, fill: nat, i: nat)
    requires CarryInv(less, was, c, fill, i) && i < SLOTS && (i == fill || c[i + 2] == [])
    ensures CounterInv(less, was, SwappedAt(c, 1, i + 2), if i == fill then fill + 1 else fill)
  {
    hide StableNodes, Sorted, Data;
    var d := SwappedAt(c, 1, i + 2);
    assert c[i + 2] == [] && d[1] == [];
    assert |d[i + 2]| > 0;
    if i == fill {
      GatherEmpty(c, fill);
      GatherEmpty(d, fill);
      assert Gather(d, fill + 1) + d[0] == Gather(c, fill) + c[1] + c[0];
    } else {
      GatherLast(d, fill, i);
      GatherSame(c, d[i + 2 := []], fill);
    }
  }

  /** The slots below `i` have been merged into the slot before `i`. */
  ghost predicate UpInv<T(!new)>(less: (T, T) -> bool, was: seq<ListNode<T>>, c: seq<seq<ListNode<T>>>, fill: nat,
                          i: nat) {
    |c| == SLOTS + 2 && 1 <= i <= fill <= SLOTS && Sorted(less, Data(c[i + 1])) &&
    (forall j :: i + 2 <= j < fill + 2 ==> Sorted(less, Data(c[j]))) &&
    (forall j :: 2 <= j < i + 1 ==> c[j] == []) && StableNodes(less, was, Gather(c, fill))
  }

  lemma UpStarts<T(!new)>(less: (T, T) -> bool, was: seq<ListNode<T>>, c: seq<seq<ListNode<T>>>, fill: nat)
    requires CounterInv(less, was, c, fill) && c[0] == [] && was != []
    ensures UpInv(less, was, c, fill, 1)
  {
    assert Gather(c, fill) + c[0] == Gather(c, fill);
    forall j | 2 <= j < fill + 2
      ensures Sorted(less, Data(c[j]))
    {
      assert Slot(less, c[j], j - 2);
    }
  }

  lemma UpMoves<T(!new)>(less: (T, T) -> bool, was: seq<ListNode<T>>, c: seq<seq<ListNode<T>>>, fill: nat, i: nat)
    requires StrictWeakOrder(less) && UpInv(less, was, c, fill, i) && i < fill
    ensures UpInv(less, was, MergedAt(c, i + 2, i + 1, less), fill, i + 1)
  {
    hide StableNodes, Sorted, StrictWeakOrder, Data, MergeNodes, Gather;
    var d, e := c[i + 1 := []], MergedAt(c, i + 2, i + 1, less);
    MergeNodesSorted(less, c[i + 2], c[i + 1]);
    GatherLast(c, fill, i - 1);
    GatherLast(d, fill, i);
    GatherLast(e, fill, i);
    assert e[i + 2 := []] == d[i + 2 := []];
    var a := Gather(d[i + 2 := []], fill);
    assert a + c[i + 2] + c[i + 1] + [] == Gather(c, fill) && a + e[i + 2] + [] == Gather(e, fill);
    MiddleStable(less, was, a, c[i + 2], c[i + 1], e[i + 2], []);
  }

  lemma UpEnds<T(!new)>(less: (T, T) -> bool, was: seq<ListNode<T>>, c: seq<seq<ListNode<T>>>, fill: nat)
    requires UpInv(less, was, c, fill, fill)
    ensures Sorted(less, Data(c[fill + 1])) && StableNodes(less, was, c[fill + 1])
  {
    GatherEmpty(c, fill - 1);
    assert Gather(c, fill) == c[fill + 1];
  }

  /** The list to sort beside the carry and the slots, which are empty. */
  method Counter<T(!new, 0)>(list: List<T>) returns (lists: seq<List<T>>, ghost pool: set<ListNode<T>>)
    requires list.Valid()
    ensures |lists| == SLOTS + 2 && lists[0] == list && Family(lists, pool)
    ensures forall k :: 0 < k < |lists| ==> fresh(lists[k]) && Contents(lists)[k] == []
    ensures Contents(lists)[0] == old(list.Nodes())
    ensures forall n :: n in pool ==> n in list.ring || fresh(n)
    ensures forall n :: n in list.ring ==> n in pool
  {
    lists, pool := [list], set n | n in list.ring;
    while |lists| < SLOTS + 2
      invariant 0 < |lists| <= SLOTS + 2 && lists[0] == list && Family(lists, pool)
      invariant forall k :: 0 < k < |lists| ==> fresh(lists[k]) && lists[k].Nodes() == []
      invariant forall n :: n in pool ==> n in list.ring || fresh(n)
      invariant forall n :: n in list.ring ==> n in pool
      modifies {}
    {
      var more := new List<T>();
      assert forall n :: n in more.ring ==> n !in pool;
      FamilyGrows(lists, more, pool, pool + {more.node});
      lists, pool := lists + [more], pool + {more.node};
    }
  }

  lemma FamilyGrows<T(!new, 0)>(lists: seq<List<T>>, more: List<T>, pool: set<ListNode<T>>, wider: set<ListNode<T>>)
    requires Family(lists, pool) && more.Valid() && more !in lists && more.ring == [more.node]
    requires more.node !in pool && wider == pool + {more.node}
    ensures Family(lists + [more], wider)
  {
    hide Ring;
    var all := lists + [more];
    forall i | 0 <= i < |all|
      ensures InPool(all[i], wider)
    {
      if i < |lists| {
        assert InPool(lists[i], pool);
      }
    }
    forall i, j | 0 <= i < |all| && 0 <= j < |all| && i != j
      ensures Apart(all[i].ring, all[j].ring)
    {
      if i < |lists| && j < |lists| {
        assert Apart(lists[i].ring, lists[j].ring);
      } else {
        assert InPool(lists[if i < |lists| then i else j], pool);
      }
    }
  }

  /** A slot in use is merged with the carry, which takes the result. */
  method CarryPast<T(!new, 0)>(lists: seq<List<T>>, ghost pool: set<ListNode<T>>, less: (T, T) -> bool, fill: nat,
                     i: nat, ghost was: seq<ListNode<T>>)
    requires StrictWeakOrder(less) && Family(lists, pool) && |lists| == SLOTS + 2 && i < fill <= SLOTS
    requires CarryInv(less, was, Contents(lists), fill, i) && Contents(lists)[i + 2] != []
    modifies lists, pool
    ensures Family(lists, pool) && CarryInv(less, was, Contents(lists), fill, i + 1)
    ensures Contents(lists)[0] == old(Contents(lists)[0])
  {
    hide CarryInv, Family, StrictWeakOrder, Contents;
    CarryMoves(less, was, Contents(lists), fill, i);
    MergeLists(lists, pool, i + 2, 1, less);
    SwapLists(lists, pool, 1, i + 2);
  }

  /** The carry moves up to the first free slot. */
  method CarryUp<T(!new, 0)>(lists: seq<List<T>>, ghost pool: set<ListNode<T>>, less: (T, T) -> bool, fill: nat,
                   ghost was: seq<ListNode<T>>)
    returns (i: nat)
    requires StrictWeakOrder(less) && Family(lists, pool) && |lists| == SLOTS + 2 && fill <= SLOTS
    requires CarryInv(less, was, Contents(lists), fill, 0)
    modifies lists, pool
    ensures Family(lists, pool) && i <= fill && CarryInv(less, was, Contents(lists), fill, i)
    ensures i == fill || Contents(lists)[i + 2] == []
    ensures Contents(lists)[0] == old(Contents(lists)[0])
  {
    hide CarryInv, Family, StrictWeakOrder, Contents;
    i := 0;
    while i < fill
      invariant Family(lists, pool) && i <= fill && CarryInv(less, was, Contents(lists), fill, i)
      invariant Contents(lists)[0] == old(Contents(lists)[0])
    {
      var free := IsEmpty(lists, pool, i + 2);
      if free {
        break;
      }
      CarryPast(lists, pool, less, fill, i, was);
      i := i + 1;
    }
  }

  /** One node is taken from the list and carried up the counter. */
  method CarryOne<T(!new, 0)>(lists: seq<List<T>>, ghost pool: set<ListNode<T>>, less: (T, T) -> bool, fill: nat,
                    ghost was: seq<ListNode<T>>)
    returns (newFill: nat)
    requires StrictWeakOrder(less) && Family(lists, pool) && |was| < Pow2(SLOTS)
    requires CounterInv(less, was, Contents(lists), fill) && Contents(lists)[0] != []
    modifies lists, pool
    ensures Family(lists, pool) && CounterInv(less, was, Contents(lists), newFill)
    ensures Contents(lists)[0] == old(Contents(lists)[0][1..])
  {
    hide CounterInv, CarryInv, Family, StrictWeakOrder, Contents, Pow2;
    Sizes(lists, less, was, fill);
    CarryStarts(less, was, Contents(lists), fill);
    SpliceFirst(lists, pool, 1, 0);
    var i := CarryUp(lists, pool, less, fill, was);
    CarryFits(less, was, Contents(lists), fill, i);
    CarryRests(less, was, Contents(lists), fill, i);
    SwapLists(lists, pool, 1, i + 2);
    newFill := if i == fill then fill + 1 else fill;
  }

  lemma Sizes<T(!new, 0)>(lists: seq<List<T>>, less: (T, T) -> bool, was: seq<ListNode<T>>, fill: nat)
    requires CounterInv(less, was, Contents(lists), fill)
    ensures |lists| == SLOTS + 2 && fill <= SLOTS
  {
  }

  method IsEmpty<T(!new, 0)>(lists: seq<List<T>>, ghost pool: set<ListNode<T>>, k: nat) returns (empty: bool)
    requires Family(lists, pool) && k < |lists|
    ensures empty <==> Contents(lists)[k] == []
  {
    assert InPool(lists[k], pool);
    empty := lists[k].Empty();
  }

  /** The outer loop: all nodes go into the counter. */
  method FillCounter<T(!new, 0)>(lists: seq<List<T>>, ghost pool: set<ListNode<T>>, less: (T, T) -> bool)
                       returns (fill: nat)
    requires StrictWeakOrder(less) && Family(lists, pool) && |lists| == SLOTS + 2 && |Contents(lists)[0]| < Pow2(SLOTS)
    requires forall k :: 0 < k < |lists| ==> Contents(lists)[k] == []
    modifies lists, pool
    ensures Family(lists, pool) && CounterInv(less, old(Contents(lists)[0]), Contents(lists), fill)
    ensures Contents(lists)[0] == []
  {
    hide CounterInv, Family, StrictWeakOrder, Contents, Pow2;
    ghost var was := Contents(lists)[0];
    CounterStarts(less, Contents(lists));
    fill := 0;
    var empty := IsEmpty(lists, pool, 0);
    while !empty
      invariant Family(lists, pool) && CounterInv(less, was, Contents(lists), fill)
      invariant empty <==> Contents(lists)[0] == []
      decreases |Contents(lists)[0]|
    {
      fill := CarryOne(lists, pool, less, fill, was);
      empty := IsEmpty(lists, pool, 0);
    }
  }

  lemma CounterStarts<T(!new)>(less: (T, T) -> bool, c: seq<seq<ListNode<T>>>)
    requires |c| == SLOTS + 2 && forall k :: 0 < k < |c| ==> c[k] == []
    ensures CounterInv(less, c[0], c, 0)
  {
    assert Gather(c, 0) + c[0] == c[0];
  }

  /** The slots are merged, each into the next. */
  method MergeUp<T(!new, 0)>(lists: seq<List<T>>, ghost pool: set<ListNode<T>>, less: (T, T) -> bool, fill: nat,
                   ghost was: seq<ListNode<T>>)
    requires StrictWeakOrder(less) && Family(lists, pool) && UpInv(less, was, Contents(lists), fill, 1)
    modifies lists, pool
    ensures Family(lists, pool) && UpInv(less, was, Contents(lists), fill, fill)
  {
    hide Family, StrictWeakOrder, Contents, Sorted, StableNodes, Gather;
    var i: nat := 1;
    while i < fill
      invariant 1 <= i <= fill && Family(lists, pool) && UpInv(less, was, Contents(lists), fill, i)
    {
      UpMoves(less, was, Contents(lists), fill, i);
      MergeLists(lists, pool, i + 2, i + 1, less);
      i := i + 1;
    }
  }

  /** The sort of a list of two nodes or more. */
  method SortLists<T(!new, 0)>(lists: seq<List<T>>, ghost pool: set<ListNode<T>>, less: (T, T) -> bool)
    requires StrictWeakOrder(less) && Family(lists, pool) && |lists| == SLOTS + 2 &&
      0 < |Contents(lists)[0]| < Pow2(SLOTS)
    requires forall k :: 0 < k < |lists| ==> Contents(lists)[k] == []
    modifies lists, pool
    ensures Family(lists, pool)
    ensures Sorted(less, Data(Contents(lists)[0])) && StableNodes(less, old(Contents(lists)[0]), Contents(lists)[0])
  {
    hide Family, StrictWeakOrder, Contents, Sorted, StableNodes, Pow2, CounterInv, UpInv;
    ghost var was := Contents(lists)[0];
    var fill := FillCounter(lists, pool, less);
    UpStarts(less, was, Contents(lists), fill);
    MergeUp(lists, pool, less, fill, was);
    UpEnds(less, was, Contents(lists), fill);
    SwapLists(lists, pool, 0, fill + 1);
  }

  /** `sort`: the same nodes in ascending order, those with equivalent data in the order they had. */
  method Sort<T(!new, 0)>(list: List<T>, less: (T, T) -> bool)
    requires StrictWeakOrder(less) && list.Valid() && |list.Nodes()| < Pow2(SLOTS)
    modifies list, list.ring
    ensures list.Valid() && Sorted(less, Data(list.Nodes())) && StableNodes(less, old(list.Nodes()), list.Nodes())
  {
    hide StrictWeakOrder, Sorted, StableNodes, Pow2, Ring;
    RingFacts(list.ring);
    RingNext(list.ring, 0);
    ghost var was := list.Nodes();
    StableNodesRefl(less, was);
    if list.node.next != list.node {
      RingNext(list.ring, 1);
      if list.node.next.next != list.node {
        var lists, pool := Counter(list);
        SortLists(lists, pool, less);
        FirstOf(lists, pool);
        return;
      }
    }
    FewNodes(list.ring);
    SortedFew(less, was);
  }

  lemma FirstOf<T(!new, 0)>(lists: seq<List<T>>, pool: set<ListNode<T>>)
    requires Family(lists, pool) && lists != []
    ensures lists[0].Valid() && Contents(lists)[0] == lists[0].Nodes()
  {
    assert InPool(lists[0], pool);
  }

  lemma FewNodes<T>(ring: seq<ListNode<T>>)
    requires Ring(ring) && (ring[0].next == ring[0] || ring[0].next.next == ring[0])
    ensures |ring| <= 2
  {
    RingNext(ring, 0);
    if |ring| > 2 {
      RingNext(ring, 1);
    }
  }

  lemma SortedFew<T(!new)>(less: (T, T) -> bool, s: seq<ListNode<T>>)
    requires |s| <= 1
    ensures Sorted(less, Data(s))
  {
  }
}
